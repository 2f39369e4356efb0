/**
  One split step of the cascade, as values: the halves, the entry inserted into one of them, and the plan for the
  level above.
*/
module Split {
  import opened Bytes
  import opened Node
  import opened NodeMove
  import opened Overflow
  import opened Tree
  import opened IndexTree
  import opened Climb
  import opened Torn

  /**
    Node `cur` has been halved: its left half is on a new page, its right half on page `right`, and other pages are as
    before.
  */
  ghost predicate Halved(pages: Pages, halved: Pages, cur: nat, m: nat, left: nat, right: nat) {
    && cur in pages && pages[cur].NodeBody? && m < |pages[cur].node.cells|
    && left !in pages && left in halved && halved[left] == NodeBody(LeftNode(pages[cur].node, m))
    && (right == cur || right !in pages) && right != left
    && right in halved && halved[right] == NodeBody(RightNode(pages[cur].node, m))
    && cur in halved && (forall id :: id in pages && id != cur ==> id in halved && halved[id] == pages[id])
  }

  /** After halving, both halves match their pages, and what is below them is where it was. */
  lemma {:induction false} HalvesReady(pages: Pages, halved: Pages, cur: Tree, m: nat, left: nat, right: nat)
    requires cur.Branch? && m < |cur.entries| && Represents(Torn, pages, cur)
    requires Halved(pages, halved, cur.id, m, left, right) && SamePages(pages, halved, PartPages(cur))
    ensures NodeMatches(Torn, halved[left], LeftHalf(cur, m, left))
    ensures PartsRepresented(Torn, halved, LeftHalf(cur, m, left))
    ensures NodeMatches(Torn, halved[right], RightHalf(cur, m, right))
    ensures PartsRepresented(Torn, halved, RightHalf(cur, m, right))
    ensures Holds(halved, cur.entries[m].item)
  {
    HalvesMatch(pages[cur.id].node, cur, m, left, right);
    PartsFrame(Torn, pages, halved, cur);
  }

  /** What the plan needs besides the page of the current node is not touched by halving it. */
  lemma {:induction false} PlanKept(
      pageSize: nat, pages: Pages, halved: Pages, root: nat, target: seq<Record>, height: nat,
      path: Path, cur: Tree, at: nat, e: Entry, stored: bool, m: nat, left: nat, right: nat)
    requires Climbing(pageSize, pages, root, target, height, path, cur, at, e, stored)
    requires Halved(pages, halved, cur.id, m, left, right)
    ensures SamePages(pages, halved, PathPages(path)) && SamePages(pages, halved, PartPages(cur))
    ensures SamePages(pages, halved, TreePages(e.kid)) && SamePages(pages, halved, ItemPages(e.item))
    ensures forall id :: id in PathPages(path) + PartPages(cur) + TreePages(e.kid) ==>
      id != left && id != right && id in pages
  {
    OwnPageApart(pageSize, pages, root, target, height, path, cur, at, e, stored);
    PlannedPagesExist(pageSize, pages, root, target, height, path, cur, at, e, stored);
    var planned := TreePages(PlugAll(path, WithEntry(cur, at, e)));
    assert forall id :: id in PathPages(path) + PartPages(cur) + TreePages(e.kid) ==> id in planned;
    assert cur.id !in PathPages(path) + PartPages(cur) + TreePages(e.kid);
  }

  /** Halving the widened node and widening one half of the node come to the same. */
  lemma {:induction false} HalvesOfWidenedLeft(t: Tree, at: nat, e: Entry, m: nat, left: nat, right: nat)
    requires t.Branch? && at <= m < |t.entries|
    ensures LeftHalf(WithEntry(t, at, e), m + 1, left) == WithEntry(LeftHalf(t, m, left), at, e)
    ensures RightHalf(WithEntry(t, at, e), m + 1, right) == RightHalf(t, m, right)
    ensures WithEntry(t, at, e).entries[m + 1] == t.entries[m]
  {
    var w := WithEntry(t, at, e).entries;
    assert w[..m + 1] == InsertAt(t.entries[..m], at, e) && w[m + 2..] == t.entries[m + 1..];
  }

  lemma {:induction false} HalvesOfWidenedRight(t: Tree, at: nat, e: Entry, m: nat, left: nat, right: nat)
    requires t.Branch? && m < at <= |t.entries|
    ensures LeftHalf(WithEntry(t, at, e), m, left) == LeftHalf(t, m, left)
    ensures RightHalf(WithEntry(t, at, e), m, right) == WithEntry(RightHalf(t, m, right), at - m - 1, e)
    ensures WithEntry(t, at, e).entries[m] == t.entries[m]
  {
    var w := WithEntry(t, at, e).entries;
    assert w[..m] == t.entries[..m];
    assert w[m + 1..] == InsertAt(t.entries[m + 1..], at - m - 1, e);
  }

  /** Which slot of the widened node goes up, which half takes the entry, and where. */
  function Raised(at: nat, m: nat): nat { if at <= m then m + 1 else m }

  function HalfPage(at: nat, m: nat, left: nat, right: nat): nat { if at <= m then left else right }

  function HalfSlot(at: nat, m: nat): nat { if at <= m then at else at - m - 1 }

  lemma {:induction false} NodeInPages(pages: Pages, t: Tree)
    requires t.Branch? && t.id in pages && NodeMatches(Torn, pages[t.id], t) && PartsRepresented(Torn, pages, t)
    ensures Represents(Torn, pages, t)
  {
  }

  /** Writing the entry into one half leaves the other half and the middle cell alone. */
  lemma {:induction false} WroteBeside(
      pageSize: nat, before: Pages, after: Pages, t: Tree, at: nat, e: Entry, stored: bool, item': Item, other: Tree,
      middle: Item)
    requires t.Branch? && at <= |t.entries|
    requires Wrote(pageSize, before, after, t.id, at, CellOf(e).key, e.item, stored, item')
    requires NodeMatches(Torn, before[t.id], t) && PartsRepresented(Torn, before, t) && Represents(Torn, before, e.kid)
    requires Represents(Torn, before, other) && Holds(before, middle)
    requires t.id !in PartPages(t) + TreePages(e.kid) && t.id !in TreePages(other) && t.id !in ItemPages(middle)
    ensures Represents(Torn, after, WithEntry(t, at, e.(item := item')))
    ensures Represents(Torn, after, other) && Holds(after, middle)
  {
    WroteElsewhere(pageSize, before, after, t.id, at, CellOf(e).key, e.item, stored, item');
    WroteEntry(pageSize, before, after, t, at, e, stored, item');
    RepresentsFrame(Torn, before, after, other);
    HoldsFrame(before, after, middle);
  }

  /** The entry has been written into its half: both halves of the widened node are in the pages. */
  ghost predicate HalvesStored(after: Pages, cur: Tree, at: nat, e: Entry, m: nat, left: nat, right: nat)
    requires cur.Branch? && at <= |cur.entries| && m < |cur.entries|
  {
    var w := WithEntry(cur, at, e);
    var r := Raised(at, m);
    && w.entries[r] == cur.entries[m] && Holds(after, w.entries[r].item)
    && Represents(Torn, after, LeftHalf(w, r, left)) && Represents(Torn, after, RightHalf(w, r, right))
  }

  lemma {:induction false} StoredLeft(after: Pages, cur: Tree, at: nat, e: Entry, m: nat, left: nat, right: nat)
    requires cur.Branch? && at <= m < |cur.entries|
    requires Represents(Torn, after, WithEntry(LeftHalf(cur, m, left), at, e))
    requires Represents(Torn, after, RightHalf(cur, m, right)) && Holds(after, cur.entries[m].item)
    ensures HalvesStored(after, cur, at, e, m, left, right)
  {
    HalvesOfWidenedLeft(cur, at, e, m, left, right);
  }

  lemma {:induction false} StoredRight(after: Pages, cur: Tree, at: nat, e: Entry, m: nat, left: nat, right: nat)
    requires cur.Branch? && m < at <= |cur.entries|
    requires Represents(Torn, after, WithEntry(RightHalf(cur, m, right), at - m - 1, e))
    requires Represents(Torn, after, LeftHalf(cur, m, left)) && Holds(after, cur.entries[m].item)
    ensures HalvesStored(after, cur, at, e, m, left, right)
  {
    HalvesOfWidenedRight(cur, at, e, m, left, right);
  }

  lemma {:induction false} NodeOutOfPages(pages: Pages, t: Tree)
    requires t.Branch? && Represents(Torn, pages, t)
    ensures t.id in pages && NodeMatches(Torn, pages[t.id], t) && PartsRepresented(Torn, pages, t)
  {
  }

  lemma {:induction false} WroteInLeft(
      pageSize: nat, halved: Pages, after: Pages, cur: Tree, at: nat, e: Entry, stored: bool,
      m: nat, left: nat, right: nat, item': Item)
    requires cur.Branch? && at <= m < |cur.entries| && left != right
    requires Wrote(pageSize, halved, after, left, at, CellOf(e).key, e.item, stored, item')
    requires Represents(Torn, halved, LeftHalf(cur, m, left)) && Represents(Torn, halved, RightHalf(cur, m, right))
    requires Holds(halved, cur.entries[m].item) && Represents(Torn, halved, e.kid)
    requires left !in PartPages(cur) && left !in TreePages(e.kid)
    ensures HalvesStored(after, cur, at, e.(item := item'), m, left, right)
  {
    HalvesApart(cur, m, left, right, left);
    NodeOutOfPages(halved, LeftHalf(cur, m, left));
    WroteBeside(pageSize, halved, after, LeftHalf(cur, m, left), at, e, stored, item',
                RightHalf(cur, m, right), cur.entries[m].item);
    StoredLeft(after, cur, at, e.(item := item'), m, left, right);
  }

  lemma {:induction false} WroteInRight(
      pageSize: nat, halved: Pages, after: Pages, cur: Tree, at: nat, e: Entry, stored: bool,
      m: nat, left: nat, right: nat, item': Item)
    requires cur.Branch? && m < at <= |cur.entries| && left != right
    requires Wrote(pageSize, halved, after, right, at - m - 1, CellOf(e).key, e.item, stored, item')
    requires Represents(Torn, halved, LeftHalf(cur, m, left)) && Represents(Torn, halved, RightHalf(cur, m, right))
    requires Holds(halved, cur.entries[m].item) && Represents(Torn, halved, e.kid)
    requires right !in PartPages(cur) && right !in TreePages(e.kid)
    ensures HalvesStored(after, cur, at, e.(item := item'), m, left, right)
  {
    var half, other, middle := RightHalf(cur, m, right), LeftHalf(cur, m, left), cur.entries[m].item;
    HalvesApart(cur, m, left, right, right);
    assert half.id !in PartPages(half) + TreePages(e.kid) && half.id !in TreePages(other)
      && half.id !in ItemPages(middle);
    WroteBesideNode(pageSize, halved, after, half, at - m - 1, e, stored, item', other, middle);
    StoredRight(after, cur, at, e.(item := item'), m, left, right);
  }

  lemma {:induction false} WroteBesideNode(
      pageSize: nat, before: Pages, after: Pages, t: Tree, at: nat, e: Entry, stored: bool, item': Item, other: Tree,
      middle: Item)
    requires t.Branch? && at <= |t.entries|
    requires Wrote(pageSize, before, after, t.id, at, CellOf(e).key, e.item, stored, item')
    requires Represents(Torn, before, t) && Represents(Torn, before, e.kid)
    requires Represents(Torn, before, other) && Holds(before, middle)
    requires t.id !in PartPages(t) + TreePages(e.kid) && t.id !in TreePages(other) && t.id !in ItemPages(middle)
    ensures Represents(Torn, after, WithEntry(t, at, e.(item := item')))
    ensures Represents(Torn, after, other) && Holds(after, middle)
  {
    NodeOutOfPages(before, t);
    WroteBeside(pageSize, before, after, t, at, e, stored, item', other, middle);
  }

  lemma {:induction false} WroteInHalf(
      pageSize: nat, pages: Pages, halved: Pages, after: Pages, cur: Tree, at: nat, e: Entry, stored: bool,
      m: nat, left: nat, right: nat, item': Item)
    requires cur.Branch? && at <= |cur.entries| && m < |cur.entries|
    requires Represents(Torn, pages, cur) && Represents(Torn, halved, e.kid)
    requires Halved(pages, halved, cur.id, m, left, right) && SamePages(pages, halved, PartPages(cur))
    requires left !in PartPages(cur) && left !in TreePages(e.kid) && right !in PartPages(cur)
    requires right !in TreePages(e.kid)
    requires Wrote(pageSize, halved, after, HalfPage(at, m, left, right), HalfSlot(at, m), CellOf(e).key, e.item,
      stored, item')
    ensures HalvesStored(after, cur, at, e.(item := item'), m, left, right)
  {
    HalvesReady(pages, halved, cur, m, left, right);
    NodeInPages(halved, LeftHalf(cur, m, left));
    NodeInPages(halved, RightHalf(cur, m, right));
    WroteInReadyHalf(pageSize, halved, after, cur, at, e, stored, m, left, right, item');
  }

  lemma {:induction false} WroteInReadyHalf(
      pageSize: nat, halved: Pages, after: Pages, cur: Tree, at: nat, e: Entry, stored: bool,
      m: nat, left: nat, right: nat, item': Item)
    requires cur.Branch? && at <= |cur.entries| && m < |cur.entries| && left != right
    requires Represents(Torn, halved, LeftHalf(cur, m, left)) && Represents(Torn, halved, RightHalf(cur, m, right))
    requires Holds(halved, cur.entries[m].item) && Represents(Torn, halved, e.kid)
    requires left !in PartPages(cur) && left !in TreePages(e.kid) && right !in PartPages(cur)
    requires right !in TreePages(e.kid)
    requires Wrote(pageSize, halved, after, HalfPage(at, m, left, right), HalfSlot(at, m), CellOf(e).key, e.item,
      stored, item')
    ensures HalvesStored(after, cur, at, e.(item := item'), m, left, right)
  {
    if at <= m {
      WroteInLeft(pageSize, halved, after, cur, at, e, stored, m, left, right, item');
    } else {
      WroteInRight(pageSize, halved, after, cur, at, e, stored, m, left, right, item');
    }
  }

  /** The pages of the halves are those of the node, and the two they are put on. */
  lemma {:induction false} HalvesApart(cur: Tree, m: nat, left: nat, right: nat, id: nat)
    requires cur.Branch? && m < |cur.entries| && id !in PartPages(cur)
    ensures id !in PartPages(LeftHalf(cur, m, left)) && id !in ItemPages(cur.entries[m].item)
    ensures id !in PartPages(RightHalf(cur, m, right))
    ensures id != left ==> id !in TreePages(LeftHalf(cur, m, left))
    ensures id != right ==> id !in TreePages(RightHalf(cur, m, right))
  {
    EntryPagesAt(cur.entries, m);
  }

  // ---- the plan for the level above ----

  /** The widened node with its raised cell taken out: two children and a cell for the parent, the same records. */
  lemma {:induction false} ParentTakesHalves(hole: Hole, w: Tree, r: nat, left: nat)
    requires hole.node.Branch? && hole.at <= |hole.node.entries| && w.Branch? && r < |w.entries|
    ensures
      var raised := Entry(LeftHalf(w, r, left), 0, w.entries[r].item);
      var parent := WithEntry(Plug(hole, RightHalf(w, r, w.id)), hole.at, raised);
      Contents(Index, parent) == Contents(Index, Plug(hole, w))
  {
    var raised := Entry(LeftHalf(w, r, left), 0, w.entries[r].item);
    HalvesContents(w, r, left, w.id);
    ContentsAround(Index, hole.node, hole.at, w);
    WidenedAround(hole, RightHalf(w, r, w.id), raised.kid, raised.item.payload);
    WithEntryContents(Plug(hole, RightHalf(w, r, w.id)), hole.at, raised);
  }

  lemma {:induction false} ParentTakesPages(hole: Hole, w: Tree, r: nat, left: nat)
    requires hole.node.Branch? && hole.at <= |hole.node.entries| && w.Branch? && r < |w.entries|
    ensures
      var raised := Entry(LeftHalf(w, r, left), 0, w.entries[r].item);
      var parent := WithEntry(Plug(hole, RightHalf(w, r, w.id)), hole.at, raised);
      TreePages(parent) == TreePages(Plug(hole, w)) + multiset{left}
  {
    var l, rt, item := LeftHalf(w, r, left), RightHalf(w, r, w.id), w.entries[r].item;
    var raised := Entry(l, 0, item);
    WithEntryPages(Plug(hole, rt), hole.at, raised);
    PagesAround(hole.node, hole.at, rt);
    PagesAround(hole.node, hole.at, w);
    assert TreePages(l) + ItemPages(item) + TreePages(rt) == TreePages(w) + multiset{left} by {
      HalvesPages(w, r, left, w.id);
      Cancel(TreePages(l) + ItemPages(item) + TreePages(rt), TreePages(w), w.id, left);
    }
    Exchange(HolePages(hole), TreePages(rt), TreePages(l), ItemPages(item), TreePages(w), multiset{left});
  }

  lemma {:induction false} Exchange<T>(
      h: multiset<T>, r: multiset<T>, l: multiset<T>, i: multiset<T>, w: multiset<T>, x: multiset<T>)
    requires l + i + r == w + x
    ensures h + r + l + i == h + w + x
  {
    forall y ensures (h + r + l + i)[y] == (h + w + x)[y] {
      assert (l + i + r)[y] == (w + x)[y];
    }
  }

  /** The gap before a child, seen from the child. */
  lemma {:induction false} WidenedAround(hole: Hole, t: Tree, kid: Tree, payload: bytes)
    requires hole.node.Branch? && hole.at <= |hole.node.entries|
    ensures Widened(Plug(hole, t), hole.at, kid, payload) ==
      BeforeKid(Index, hole.node, hole.at) + (Contents(Index, kid) + [Record(0, payload)] + Contents(Index, t))
      + AfterKid(Index, hole.node, hole.at)
  {
    var p, n, at := Plug(hole, t), hole.node, hole.at;
    assert p.entries[..at] == n.entries[..at];
    if at < |n.entries| {
      var rest := n.entries[at + 1..];
      assert p.entries[at..] == [p.entries[at]] + rest;
      EntryContentsConcat(Index, p.leaf, [p.entries[at]], rest);
      EntryContentsSingle(Index, p.leaf, p.entries[at]);
      Regroup7(BeforeKid(Index, n, at), Contents(Index, kid), [Record(0, payload)], Contents(Index, t),
               Own(Index, n.leaf, n.entries[at]), EntryContents(Index, n.leaf, rest), Contents(Index, n.right));
    } else {
      assert p.entries[at..] == [];
      Regroup7(BeforeKid(Index, n, at), Contents(Index, kid), [Record(0, payload)], Contents(Index, t), [], [], []);
    }
  }

  lemma {:induction false} Regroup7<T>(a: seq<T>, b: seq<T>, c: seq<T>, d: seq<T>, e: seq<T>, f: seq<T>, g: seq<T>)
    ensures a + b + c + ((d + e + f) + g) == a + (b + c + d) + (e + f + g)
    ensures e + f + g == [] ==> a + b + c + ([] + d) == a + (b + c + d) + []
  {
  }

  lemma {:induction false} Cancel<T>(x: multiset<T>, w: multiset<T>, shared: T, extra: T)
    requires x + multiset{shared} == w + multiset{extra, shared}
    ensures x == w + multiset{extra}
  {
    forall y ensures x[y] == (w + multiset{extra})[y] {
      assert (x + multiset{shared})[y] == (w + multiset{extra, shared})[y];
    }
  }

  lemma {:induction false} PlugHeights(outer: Path, hole: Hole, t: Tree, height: nat)
    requires hole.node.Branch? && hole.at <= |hole.node.entries| && t.Branch?
    requires Balanced(PlugAll(outer, Plug(hole, t)), height)
    ensures |outer| + 1 < height && Balanced(Plug(hole, t), height - |outer|) && Balanced(t, height - |outer| - 1)
    ensures !hole.node.leaf
  {
    PlugBalanced(outer, Plug(hole, t), height);
    var p := Plug(hole, t);
    assert hole.at < |p.entries| ==> p.entries[hole.at].kid == t;
  }

  lemma {:induction false} ReplaceBelow(hole: Hole, t: Tree, t': Tree, height: nat)
    requires hole.node.Branch? && hole.at <= |hole.node.entries| && height > 0
    requires Balanced(Plug(hole, t), height) && Balanced(t', height - 1)
    ensures Balanced(Plug(hole, t'), height)
  {
    var p, p' := Plug(hole, t), Plug(hole, t');
    assert forall i :: 0 <= i < |p'.entries| ==>
      if i == hole.at then p'.entries[i].kid == t' else p'.entries[i] == p.entries[i];
  }

  /** The parent with the left half and the raised cell, which keeps the right half. */
  function Raise(hole: Hole, w: Tree, r: nat, left: nat): Tree
    requires hole.node.Branch? && hole.at <= |hole.node.entries| && w.Branch? && r < |w.entries|
  {
    WithEntry(Plug(hole, RightHalf(w, r, w.id)), hole.at, Entry(LeftHalf(w, r, left), 0, w.entries[r].item))
  }

  lemma {:induction false} RaiseBalanced(outer: Path, hole: Hole, w: Tree, r: nat, left: nat, height: nat)
    requires hole.node.Branch? && hole.at <= |hole.node.entries| && w.Branch? && r < |w.entries|
    requires Balanced(PlugAll(outer, Plug(hole, w)), height)
    ensures
      var parent := Plug(hole, RightHalf(w, r, w.id));
      && |outer| < height && Balanced(parent, height - |outer|) && Balanced(LeftHalf(w, r, left), height - |outer| - 1)
      && Balanced(Plug(hole, w), height - |outer|) && Balanced(Raise(hole, w, r, left), height - |outer|)
      && !parent.leaf
  {
    var raised := Entry(LeftHalf(w, r, left), 0, w.entries[r].item);
    var parent := Plug(hole, RightHalf(w, r, w.id));
    PlugHeights(outer, hole, w, height);
    HalvesBalanced(w, r, left, w.id, height - |outer| - 1);
    ReplaceBelow(hole, w, RightHalf(w, r, w.id), height - |outer|);
    WithEntryBalanced(parent, hole.at, raised, height - |outer|);
  }

  /** A gap in the plan is still there after the split. */
  lemma {:induction false} RaiseGap(outer: Path, hole: Hole, w: Tree, r: nat, left: nat)
    requires hole.node.Branch? && !hole.node.leaf && hole.at <= |hole.node.entries| && w.Branch? && r < |w.entries|
    requires HasGap(PlugAll(outer, Plug(hole, w)))
    ensures HasGap(PlugAll(outer, Raise(hole, w, r, left)))
  {
    var p, q := Plug(hole, w), Raise(hole, w, r, left);
    if HasGap(p) {
      var i := GapAt(p);
      if i == hole.at {
        assert KidAt(p, i) == w;
        GapInHalf(w, r, left, w.id);
        assert KidAt(q, hole.at) == LeftHalf(w, r, left) && KidAt(q, hole.at + 1) == RightHalf(w, r, w.id);
        if HasGap(LeftHalf(w, r, left)) { GapInKid(q, hole.at); } else { GapInKid(q, hole.at + 1); }
      } else {
        assert KidAt(q, if i < hole.at then i else i + 1) == KidAt(p, i);
        GapHere(q, if i < hole.at then i else i + 1);
      }
    }
    SameGapsUnder(outer, p, q);
  }

  /** Where a node has its gap. */
  lemma {:induction false} GapAt(p: Tree) returns (i: nat)
    requires HasGap(p)
    ensures i <= |p.entries| && (KidAt(p, i).Nil? || HasGap(KidAt(p, i)))
  {
    if p.right.Nil? || HasGap(p.right) {
      i := |p.entries|;
    } else {
      i :| 0 <= i < |p.entries| && (p.entries[i].kid.Nil? || HasGap(p.entries[i].kid));
    }
  }

  lemma {:induction false} GapHere(p: Tree, i: nat)
    requires p.Branch? && !p.leaf && i <= |p.entries| && (KidAt(p, i).Nil? || HasGap(KidAt(p, i)))
    ensures HasGap(p)
  {
  }

  /** The plan moves up one level: the parent gets the left half and the raised cell, and keeps the right half. */
  lemma {:induction false} RaisePlan(
      root: nat, target: seq<Record>, height: nat, outer: Path, hole: Hole, w: Tree, r: nat, left: nat)
    requires hole.node.Branch? && hole.at <= |hole.node.entries| && w.Branch? && r < |w.entries|
    requires Planned(root, target, height, PlugAll(outer, Plug(hole, w)))
    requires height == 0 ==> !hole.node.leaf && forall i :: 0 <= i < |outer| ==> !outer[i].node.leaf
    requires left !in TreePages(PlugAll(outer, Plug(hole, w))) && left != 1
    ensures Planned(root, target, height, PlugAll(outer, Raise(hole, w, r, left)))
    ensures Level(height, outer, Plug(hole, RightHalf(w, r, w.id)), Entry(LeftHalf(w, r, left), 0, w.entries[r].item))
  {
    if height > 0 { RaiseBalanced(outer, hole, w, r, left, height); } else { RaiseGap(outer, hole, w, r, left); }
    ParentTakesHalves(hole, w, r, left);
    ParentTakesPages(hole, w, r, left);
    Replan(root, target, height, outer, Plug(hole, w), Raise(hole, w, r, left), multiset{left});
  }

  /** The root keeps its page and becomes the parent of its halves. */
  function NewRoot(w: Tree, r: nat, left: nat, right: nat): Tree
    requires w.Branch? && r < |w.entries|
  {
    Branch(w.id, false, [Entry(LeftHalf(w, r, left), 0, w.entries[r].item)], RightHalf(w, r, right))
  }

  /** The height after a split of the root. */
  function Taller(height: nat): nat { if height == 0 then 0 else height + 1 }

  lemma {:induction false} RootGap(w: Tree, r: nat, left: nat, right: nat)
    requires HasGap(w) && r < |w.entries|
    ensures HasGap(NewRoot(w, r, left, right))
  {
    GapInHalf(w, r, left, right);
    var t := NewRoot(w, r, left, right);
    assert KidAt(t, 0) == LeftHalf(w, r, left) && KidAt(t, 1) == RightHalf(w, r, right);
    if HasGap(LeftHalf(w, r, left)) { GapInKid(t, 0); } else { GapInKid(t, 1); }
  }

  lemma {:induction false} RootPlan(root: nat, target: seq<Record>, height: nat, w: Tree, r: nat, left: nat, right: nat)
    requires w.Branch? && r < |w.entries| && Planned(root, target, height, w)
    requires left !in TreePages(w) && right !in TreePages(w) && left != right && left != 1 && right != 1
    ensures Planned(root, target, Taller(height), NewRoot(w, r, left, right))
  {
    NewRootContents(w, r, left, right);
    if height > 0 { NewRootBalanced(w, r, left, right, height); } else { RootGap(w, r, left, right); }
    NewRootPages(w, r, left, right);
    NewPair(TreePages(w), left, right);
  }

  lemma {:induction false} NewPair(owned: multiset<nat>, left: nat, right: nat)
    requires Unshared(owned) && 1 !in owned && left !in owned && right !in owned && left != right && left != 1
    requires right != 1
    ensures Unshared(owned + multiset{left, right}) && 1 !in owned + multiset{left, right}
  {
  }

  lemma {:induction false} NewRootContents(w: Tree, r: nat, left: nat, right: nat)
    requires w.Branch? && r < |w.entries|
    ensures Contents(Index, NewRoot(w, r, left, right)) == Contents(Index, w)
  {
    HalvesContents(w, r, left, right);
    EntryContentsSingle(Index, false, NewRoot(w, r, left, right).entries[0]);
  }

  lemma {:induction false} NewRootBalanced(w: Tree, r: nat, left: nat, right: nat, height: nat)
    requires w.Branch? && r < |w.entries| && Balanced(w, height)
    ensures Balanced(NewRoot(w, r, left, right), height + 1)
  {
    HalvesBalanced(w, r, left, right, height);
  }

  lemma {:induction false} NewRootPages(w: Tree, r: nat, left: nat, right: nat)
    requires w.Branch? && r < |w.entries|
    ensures TreePages(NewRoot(w, r, left, right)) == TreePages(w) + multiset{left, right}
  {
    var t := NewRoot(w, r, left, right);
    HalvesPages(w, r, left, right);
    EntryPagesSingle(t.entries[0]);
    Exchange(multiset{}, multiset{w.id}, TreePages(LeftHalf(w, r, left)) + ItemPages(w.entries[r].item),
             TreePages(RightHalf(w, r, right)), TreePages(w), multiset{left, right});
  }

  /** After the split and the write, the halves and the path are in the pages. */
  lemma {:induction false} SplitStored(
      pageSize: nat, pages: Pages, halved: Pages, after: Pages, root: nat, target: seq<Record>, height: nat,
      path: Path, cur: Tree, at: nat, e: Entry, stored: bool, m: nat, left: nat, right: nat, item': Item)
    requires Climbing(pageSize, pages, root, target, height, path, cur, at, e, stored)
    requires m < |cur.entries| && Halved(pages, halved, cur.id, m, left, right)
    requires Wrote(pageSize, halved, after, HalfPage(at, m, left, right), HalfSlot(at, m), CellOf(e).key, e.item,
      stored, item')
    ensures HalvesStored(after, cur, at, e.(item := item'), m, left, right)
    ensures PathRepresents(Torn, after, path, cur.id)
    ensures 1 in after
  {
    PlanKept(pageSize, pages, halved, root, target, height, path, cur, at, e, stored, m, left, right);
    RepresentsFrame(Torn, pages, halved, e.kid);
    WroteInHalf(pageSize, pages, halved, after, cur, at, e, stored, m, left, right, item');
    PathFrame(Torn, pages, halved, path, cur.id);
    WroteElsewhere(pageSize, halved, after, HalfPage(at, m, left, right), HalfSlot(at, m), CellOf(e).key, e.item,
                   stored, item');
    PathFrame(Torn, halved, after, path, cur.id);
    OwnPageApart(pageSize, pages, root, target, height, path, cur, at, e, stored);
  }

  lemma {:induction false} PlanPagesSwap(path: Path, cur: Tree, at: nat, e: Entry, item': Item)
    requires cur.Branch? && at <= |cur.entries| && item'.payload == e.item.payload
    ensures TreePages(PlugAll(path, WithEntry(cur, at, e.(item := item')))) + ItemPages(e.item)
      == TreePages(PlugAll(path, WithEntry(cur, at, e))) + ItemPages(item')
  {
    var v, v' := WithEntry(cur, at, e), WithEntry(cur, at, e.(item := item'));
    SwapItem(cur, at, e, item');
    PathOwns(path, v);
    PathOwns(path, v');
    Exchange(PathPages(path), ItemPages(e.item), TreePages(v'), multiset{}, TreePages(v), ItemPages(item'));
  }

  /** The new overflow pages of the write and the pages of the halves belong to nobody else. */
  lemma {:induction false} SplitPlan(
      pageSize: nat, pages: Pages, halved: Pages, after: Pages, root: nat, target: seq<Record>, height: nat,
      path: Path, cur: Tree, at: nat, e: Entry, stored: bool, m: nat, left: nat, right: nat, item': Item)
    requires Climbing(pageSize, pages, root, target, height, path, cur, at, e, stored)
    requires m < |cur.entries| && Halved(pages, halved, cur.id, m, left, right)
    requires Wrote(pageSize, halved, after, HalfPage(at, m, left, right), HalfSlot(at, m), CellOf(e).key, e.item,
      stored, item')
    ensures
      var t := PlugAll(path, WithEntry(cur, at, e.(item := item')));
      && Planned(root, target, height, t)
      && left !in TreePages(t) && left != 1
      && (right != cur.id ==> right !in TreePages(t) && right != 1)
  {
    WroteElsewhere(pageSize, halved, after, HalfPage(at, m, left, right), HalfSlot(at, m), CellOf(e).key, e.item,
                   stored, item');
    assert forall id :: id in pages ==> id in halved;
    PlanWritten(pageSize, pages, root, target, height, path, cur, at, e, stored, item');
    PlannedPagesExist(pageSize, pages, root, target, height, path, cur, at, e, stored);
    PlanPagesSwap(path, cur, at, e, item');
    var t, t' := TreePages(PlugAll(path, WithEntry(cur, at, e))),
    TreePages(PlugAll(path, WithEntry(cur, at, e.(item := item'))));
    if stored {
      assert t' == t;
    } else {
      NotOwned(t, t', ItemPages(e.item), ItemPages(item'), left);
      if right != cur.id { NotOwned(t, t', ItemPages(e.item), ItemPages(item'), right); }
    }
  }

  lemma {:induction false} NotOwned(t: multiset<nat>, t': multiset<nat>, i: multiset<nat>, i': multiset<nat>, id: nat)
    requires t' + i == t + i' && id !in t && id !in i'
    ensures id !in t'
  {
    assert (t' + i)[id] == (t + i')[id];
  }

  lemma {:induction false} ParentStored(
      pageSize: nat, pages: Pages, halved: Pages, after: Pages, root: nat, target: seq<Record>, height: nat,
      outer: Path, hole: Hole, cur: Tree, at: nat, e: Entry, stored: bool, m: nat, left: nat, item': Item)
    requires hole.node.Branch? && hole.at <= |hole.node.entries|
    requires Climbing(pageSize, pages, root, target, height, outer + [hole], cur, at, e, stored)
    requires m < |cur.entries| && Halved(pages, halved, cur.id, m, left, cur.id)
    requires Wrote(pageSize, halved, after, HalfPage(at, m, left, cur.id), HalfSlot(at, m), CellOf(e).key, e.item,
      stored, item')
    ensures
      var w := WithEntry(cur, at, e.(item := item'));
      var parent := Plug(hole, RightHalf(w, Raised(at, m), cur.id));
      && HalvesStored(after, cur, at, e.(item := item'), m, left, cur.id) && 1 in after
      && Represents(Torn, after, parent) && PathRepresents(Torn, after, outer, parent.id)
  {
    var path: Path := outer + [hole];
    assert path[..|path| - 1] == outer;
    SplitStored(pageSize, pages, halved, after, root, target, height, path, cur, at, e, stored, m, left, cur.id, item');
    PlugRepresents(Torn, after, hole, RightHalf(WithEntry(cur, at, e.(item := item')), Raised(at, m), cur.id));
  }

  lemma {:induction false} ParentPlanned(
      pageSize: nat, pages: Pages, halved: Pages, after: Pages, root: nat, target: seq<Record>, height: nat,
      outer: Path, hole: Hole, cur: Tree, at: nat, e: Entry, stored: bool, m: nat, left: nat, item': Item)
    requires hole.node.Branch? && hole.at <= |hole.node.entries|
    requires Climbing(pageSize, pages, root, target, height, outer + [hole], cur, at, e, stored)
    requires m < |cur.entries| && Halved(pages, halved, cur.id, m, left, cur.id)
    requires Wrote(pageSize, halved, after, HalfPage(at, m, left, cur.id), HalfSlot(at, m), CellOf(e).key, e.item,
      stored, item')
    ensures
      var w := WithEntry(cur, at, e.(item := item'));
      var parent, raised := Plug(hole, RightHalf(w, Raised(at, m), cur.id)),
      Entry(LeftHalf(w, Raised(at, m), left), 0, cur.entries[m].item);
      && w.entries[Raised(at, m)] == cur.entries[m]
      && Planned(root, target, height, PlugAll(outer, WithEntry(parent, hole.at, raised)))
      && Level(height, outer, parent, raised)
  {
    var path: Path := outer + [hole];
    assert path[..|path| - 1] == outer;
    var w := WithEntry(cur, at, e.(item := item'));
    if at <= m { HalvesOfWidenedLeft(cur, at, e.(item := item'), m, left, cur.id); }
    else { HalvesOfWidenedRight(cur, at, e.(item := item'), m, left, cur.id); }
    SplitPlan(pageSize, pages, halved, after, root, target, height, path, cur, at, e, stored, m, left, cur.id, item');
    RaisePlan(root, target, height, outer, hole, w, Raised(at, m), left);
  }

  /** A split below the root: the left half and the middle cell now wait for the parent. */
  lemma {:induction false} ClimbOn(
      pageSize: nat, pages: Pages, halved: Pages, after: Pages, root: nat, target: seq<Record>, height: nat,
      outer: Path, hole: Hole, cur: Tree, at: nat, e: Entry, stored: bool, m: nat, left: nat, item': Item)
    requires hole.node.Branch? && hole.at <= |hole.node.entries|
    requires Climbing(pageSize, pages, root, target, height, outer + [hole], cur, at, e, stored)
    requires m < |cur.entries| && Halved(pages, halved, cur.id, m, left, cur.id)
    requires Wrote(pageSize, halved, after, HalfPage(at, m, left, cur.id), HalfSlot(at, m), CellOf(e).key, e.item,
      stored, item')
    requires NodesFit(pageSize, after)
    ensures
      var w := WithEntry(cur, at, e.(item := item'));
      var raised := Entry(LeftHalf(w, Raised(at, m), left), 0, cur.entries[m].item);
      Climbing(pageSize, after, root, target, height, outer, Plug(hole, RightHalf(w, Raised(at, m), cur.id)), hole.at,
        raised, true)
  {
    var w := WithEntry(cur, at, e.(item := item'));
    ParentStored(pageSize, pages, halved, after, root, target, height, outer, hole, cur, at, e, stored, m, left, item');
    ParentPlanned(pageSize, pages, halved, after, root, target, height, outer, hole, cur, at, e, stored, m, left,
                  item');
  }

  /** A split of the root: its page becomes the parent of two new pages, and the tree grows by one level. */
  lemma {:induction false} RootSplitDone(
      pageSize: nat, pages: Pages, halved: Pages, after: Pages, root: nat, target: seq<Record>, height: nat,
      cur: Tree, at: nat, e: Entry, stored: bool, m: nat, left: nat, right: nat, item': Item)
    requires Climbing(pageSize, pages, root, target, height, [], cur, at, e, stored)
    requires m < |cur.entries| && Halved(pages, halved, cur.id, m, left, right) && right != cur.id
    requires halved[cur.id] == NodeBody(Node(false, [Cell(left, cur.entries[m].item.body)], right))
    requires Wrote(pageSize, halved, after, HalfPage(at, m, left, right), HalfSlot(at, m), CellOf(e).key, e.item,
      stored, item')
    requires NodesFit(pageSize, after)
    ensures
      var t := NewRoot(WithEntry(cur, at, e.(item := item')), Raised(at, m), left, right);
      Ended(pageSize, after, t, Taller(height)) && t.id == root && Contents(Index, t) == target
  {
    var w := WithEntry(cur, at, e.(item := item'));
    SplitStored(pageSize, pages, halved, after, root, target, height, [], cur, at, e, stored, m, left, right, item');
    SplitPlan(pageSize, pages, halved, after, root, target, height, [], cur, at, e, stored, m, left, right, item');
    WroteElsewhere(pageSize, halved, after, HalfPage(at, m, left, right), HalfSlot(at, m), CellOf(e).key, e.item,
                   stored, item');
    RootPlan(root, target, height, w, Raised(at, m), left, right);
    RootRepresented(after, w, Raised(at, m), left, right, cur.entries[m].item);
    EndsAsPlanned(pageSize, after, root, target, Taller(height), NewRoot(w, Raised(at, m), left, right));
  }

  lemma {:induction false} RootRepresented(after: Pages, w: Tree, r: nat, left: nat, right: nat, middle: Item)
    requires w.Branch? && r < |w.entries| && w.entries[r].item == middle && Holds(after, middle)
    requires Represents(Torn, after, LeftHalf(w, r, left)) && Represents(Torn, after, RightHalf(w, r, right))
    requires w.id in after && after[w.id] == NodeBody(Node(false, [Cell(left, middle.body)], right))
    ensures Represents(Torn, after, NewRoot(w, r, left, right))
  {
  }

  // ---- no page is lost ----

  /** A plan that owned pages `plan` now owns those, and every page that is new. */
  ghost predicate Accounted(before: Pages, after: Pages, plan: multiset<nat>, plan': multiset<nat>) {
    && (forall id :: id in plan ==> id in plan')
    && (forall id :: id in after && id !in before ==> id in plan')
  }

  lemma {:induction false} AccountedTwice(
      a: Pages, b: Pages, c: Pages, p: multiset<nat>, p': multiset<nat>, p'': multiset<nat>)
    requires Accounted(a, b, p, p') && Accounted(b, c, p', p'')
    ensures Accounted(a, c, p, p'')
  {
  }

  lemma {:induction false} WroteAccounted(
      pageSize: nat, before: Pages, after: Pages, id: nat, slot: nat, key: nat, path: Path, cur: Tree, at: nat,
      e: Entry, stored: bool, item': Item)
    requires cur.Branch? && at <= |cur.entries| && (!stored ==> e.item.chain == [])
    requires Wrote(pageSize, before, after, id, slot, key, e.item, stored, item')
    ensures Accounted(before, after,
                      TreePages(PlugAll(path, WithEntry(cur, at, e))),
                      TreePages(PlugAll(path, WithEntry(cur, at, e.(item := item')))))
  {
    var t, t' := TreePages(PlugAll(path, WithEntry(cur, at, e))),
    TreePages(PlugAll(path, WithEntry(cur, at, e.(item := item'))));
    PlanPagesSwap(path, cur, at, e, item');
    if !stored {
      assert t' == t + ItemPages(item') by { assert t' + multiset{} == t'; }
      forall x | x in after && x !in before ensures x in t' {
        assert x in after[id := before[id]];
      }
    } else {
      assert t' == t by { SameWithout(t', t, ItemPages(e.item)); }
      forall x | x in after ensures x in before {
        assert x in after[id := before[id]];
      }
    }
  }

  lemma {:induction false} SameWithout<T>(a: multiset<T>, b: multiset<T>, c: multiset<T>)
    requires a + c == b + c
    ensures a == b
  {
    forall x ensures a[x] == b[x] { assert (a + c)[x] == (b + c)[x]; }
  }

  /** The plan for the level above owns the page of the new left half too. */
  lemma {:induction false} RaisedAccounted(outer: Path, hole: Hole, w: Tree, r: nat, left: nat)
    requires hole.node.Branch? && hole.at <= |hole.node.entries| && w.Branch? && r < |w.entries|
    ensures
      var parent := WithEntry(Plug(hole, RightHalf(w, r, w.id)), hole.at,
                              Entry(LeftHalf(w, r, left), 0, w.entries[r].item));
      TreePages(PlugAll(outer, parent)) == TreePages(PlugAll(outer + [hole], w)) + multiset{left}
  {
    var parent := WithEntry(Plug(hole, RightHalf(w, r, w.id)), hole.at,
                            Entry(LeftHalf(w, r, left), 0, w.entries[r].item));
    var path: Path := outer + [hole];
    assert path[..|path| - 1] == outer;
    ParentTakesPages(hole, w, r, left);
    PathOwns(outer, parent);
    PathOwns(outer, Plug(hole, w));
  }
}
