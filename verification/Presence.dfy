/** Whether a tree holds a payload, and whether one of its internal nodes does: what a search in an index tree tells. */
module Presence {
  import opened Bytes
  import opened Node
  import opened Tree
  import opened Order
  import opened Search
  import opened Climb

  /** Some internal node holds the payload. */
  ghost predicate InnerHolds(t: Tree, key: bytes)
    decreases t
  {
    && t.Branch? && !t.leaf
    && (InnerHolds(t.right, key)
        || exists i :: 0 <= i < |t.entries| && (t.entries[i].item.payload == key || InnerHolds(t.entries[i].kid, key)))
  }

  ghost predicate NoneIs(s: seq<Record>, key: bytes) { forall i :: 0 <= i < |s| ==> s[i].payload != key }

  lemma {:induction false} NoneInParts(a: seq<Record>, b: seq<Record>, key: bytes)
    ensures NoneIs(a + b, key) <==> NoneIs(a, key) && NoneIs(b, key)
  {
    assert forall i :: 0 <= i < |a| ==> a[i] == (a + b)[i];
    assert forall i :: 0 <= i < |b| ==> b[i] == (a + b)[|a| + i];
  }

  lemma {:induction false} NoneBelow(s: seq<Record>, key: bytes)
    requires AllBelow(s, key)
    ensures NoneIs(s, key)
  {
  }

  lemma {:induction false} NoneAbove(s: seq<Record>, key: bytes)
    requires AllAbove(s, key)
    ensures NoneIs(s, key)
  {
  }

  lemma {:induction false} NoneInEntry(leaf: bool, es: seq<Entry>, i: nat, key: bytes)
    requires i < |es| && NoneIs(EntryContents(Index, leaf, es), key)
    ensures NoneIs(Contents(Index, es[i].kid), key) && es[i].item.payload != key
  {
    var before, kid, own := EntryContents(Index, leaf, es[..i]), Contents(Index, es[i].kid), Own(Index, leaf, es[i]);
    EntryContentsAt(Index, leaf, es, i);
    NoneInParts(before + kid + own, EntryContents(Index, leaf, es[i + 1..]), key);
    NoneInParts(before + kid, own, key);
    NoneInParts(before, kid, key);
    assert own[0] == Record(0, es[i].item.payload);
  }

  lemma {:induction false} NotInner(t: Tree, key: bytes)
    requires NoneIs(Contents(Index, t), key)
    ensures !InnerHolds(t, key)
    decreases t
  {
    if t.Branch? {
      NoneInParts(EntryContents(Index, t.leaf, t.entries), Contents(Index, t.right), key);
      NotInner(t.right, key);
      forall i | 0 <= i < |t.entries| ensures t.entries[i].item.payload != key && !InnerHolds(t.entries[i].kid, key) {
        NoneInEntry(t.leaf, t.entries, i, key);
        NotInner(t.entries[i].kid, key);
      }
    }
  }

  lemma {:induction false} NotInnerPlugged(hole: Hole, t: Tree, key: bytes)
    requires hole.node.Branch? && hole.at <= |hole.node.entries| && !InnerHolds(t, key)
    requires NoneIs(BeforeKid(Index, hole.node, hole.at), key) && NoneIs(AfterKid(Index, hole.node, hole.at), key)
    ensures !InnerHolds(Plug(hole, t), key)
  {
    var n, at, p := hole.node, hole.at, Plug(hole, t);
    if at < |n.entries| {
      var own, rest := Own(Index, n.leaf, n.entries[at]), EntryContents(Index, n.leaf, n.entries[at + 1..]);
      NoneInParts(own + rest, Contents(Index, n.right), key);
      NoneInParts(own, rest, key);
      assert own[0] == Record(0, n.entries[at].item.payload);
      NotInner(n.right, key);
    }
    forall i | 0 <= i < |p.entries| ensures p.entries[i].item.payload != key && !InnerHolds(p.entries[i].kid, key) {
      if i < at {
        NoneInEntry(n.leaf, n.entries[..at], i, key);
        NotInner(n.entries[i].kid, key);
      } else if i > at {
        assert n.entries[at + 1..][i - at - 1] == n.entries[i];
        NoneInEntry(n.leaf, n.entries[at + 1..], i - at - 1, key);
        NotInner(n.entries[i].kid, key);
      }
    }
  }

  /** A payload that is nowhere left or right of a path is in an internal node only below it. */
  lemma {:induction false} NotInnerUnderPath(path: Path, t: Tree, key: bytes)
    requires !InnerHolds(t, key) && NoneIs(PathBefore(Index, path), key) && NoneIs(PathAfter(Index, path), key)
    ensures !InnerHolds(PlugAll(path, t), key)
    decreases |path|
  {
    if path != [] {
      var h, outer := path[|path| - 1], path[..|path| - 1];
      NoneInParts(PathBefore(Index, outer), BeforeKid(Index, h.node, h.at), key);
      NoneInParts(AfterKid(Index, h.node, h.at), PathAfter(Index, outer), key);
      NotInnerPlugged(h, t, key);
      NotInnerUnderPath(outer, Plug(h, t), key);
    }
  }

  lemma {:induction false} InnerUnderPath(path: Path, t: Tree, key: bytes)
    requires InnerHolds(t, key) && forall i :: 0 <= i < |path| ==> !path[i].node.leaf
    ensures InnerHolds(PlugAll(path, t), key)
    decreases |path|
  {
    if path != [] {
      var h := path[|path| - 1];
      var p := Plug(h, t);
      assert h.at < |h.node.entries| ==> p.entries[h.at].kid == t;
      InnerUnderPath(path[..|path| - 1], p, key);
    }
  }

  /** The nodes above another one are internal. */
  lemma {:induction false} PathIsInner(path: Path, t: Tree, height: nat)
    requires t.Branch? && Balanced(PlugAll(path, t), height)
    ensures forall i :: 0 <= i < |path| ==> !path[i].node.leaf
    decreases |path|
  {
    if path != [] {
      var h, outer := path[|path| - 1], path[..|path| - 1];
      var p := Plug(h, t);
      PathIsInner(outer, p, height);
      PlugBalanced(outer, p, height);
      assert h.at < |p.entries| ==> p.entries[h.at].kid == t;
      assert forall i :: 0 <= i < |outer| ==> path[i] == outer[i];
    }
  }

  /** The search tells where the payload is: it stops in a leaf unless an internal node holds the payload. */
  lemma {:induction false} StopsInLeaf(
      t: Tree, key: bytes, found: bool, path: Path, node: Tree, index: nat, height: nat)
    requires Located(t, key, found, path, node, index) && Balanced(t, height)
    ensures node.leaf <==> !InnerHolds(t, key)
  {
    if node.leaf {
      if !found {
        NoneBelow(PathBefore(Index, path) + BeforeKid(Index, node, index), key);
        NoneInParts(PathBefore(Index, path), BeforeKid(Index, node, index), key);
        NoneAbove(AfterKid(Index, node, index) + PathAfter(Index, path), key);
        NoneInParts(AfterKid(Index, node, index), PathAfter(Index, path), key);
      }
      NotInnerUnderPath(path, node, key);
    } else {
      PathIsInner(path, node, height);
      InnerUnderPath(path, node, key);
    }
  }

  /** In a leaf there is nothing between the cells. */
  lemma {:induction false} LeafWhole(node: Tree, index: nat, height: nat)
    requires node.Branch? && node.leaf && index <= |node.entries| && Balanced(node, height)
    ensures Contents(Index, node) == BeforeKid(Index, node, index) + AfterKid(Index, node, index)
  {
    WholeKid(Index, node, index);
    assert KidAt(node, index).Nil?;
  }

  ghost predicate Absent(t: Tree, payload: bytes) { NoneIs(Contents(Index, t), payload) }

  /** The search finds the payload if and only if the tree has it. */
  lemma {:induction false} FoundIfPresent(
      t: Tree, key: bytes, found: bool, path: Path, node: Tree, index: nat, height: nat)
    requires Located(t, key, found, path, node, index) && Balanced(t, height)
    ensures found <==> !Absent(t, key)
  {
    var before, after := PathBefore(Index, path), PathAfter(Index, path);
    PathContents(Index, path, node);
    NoneInParts(before + Contents(Index, node), after, key);
    NoneInParts(before, Contents(Index, node), key);
    if found {
      if NoneIs(Contents(Index, node), key) {
        NoneInParts(EntryContents(Index, node.leaf, node.entries), Contents(Index, node.right), key);
        NoneInEntry(node.leaf, node.entries, index, key);
      }
    } else {
      PlugBalanced(path, node, height);
      LeafWhole(node, index, height - |path|);
      NoneInParts(BeforeKid(Index, node, index), AfterKid(Index, node, index), key);
      NoneBelow(before + BeforeKid(Index, node, index), key);
      NoneInParts(before, BeforeKid(Index, node, index), key);
      NoneAbove(AfterKid(Index, node, index) + after, key);
      NoneInParts(AfterKid(Index, node, index), after, key);
    }
  }
}
