/**
  What an insert leaves that is refused after a split (ibta_insert_at in src/ibtree_alg.c): the node has been halved,
  and the entry that waited for it is nowhere. The tree is well formed still. Below the root it has lost the left half
  and the middle cell, which no node points to; at the root it has lost the entry that waited.
*/
module Refused {
  import opened Node
  import opened NodeMove
  import opened Pager
  import opened Overflow
  import opened Tree
  import opened Order
  import opened IndexTree
  import opened Torn
  import opened Climb
  import opened Split

  /** A tree at the same root that is whole, or short of more than the record that was to be inserted. */
  ghost predicate Remains(
      pageSize: nat, pages: Pages, root: nat, target: seq<Record>, height: nat, cur: Tree, whole: bool,
      t: Tree, height': nat)
  {
    height > 0 ==>
      && IsIndexTree(pageSize, pages, t, height') && t.id == root
      && (if whole then Contents(Index, t) == Contents(Index, cur) else |Contents(Index, t)| + 1 < |target|)
  }

  /** How many records an entry adds to a node, and how many the right half is short of. */
  lemma {:induction false} RecordCounts(t: Tree, at: nat, e: Entry, m: nat, id: nat)
    requires t.Branch? && at <= |t.entries| && m < |t.entries|
    ensures |Contents(Index, WithEntry(t, at, e))| == |Contents(Index, t)| + |Contents(Index, e.kid)| + 1
    ensures |Contents(Index, RightHalf(t, m, id))| < |Contents(Index, t)|
  {
    WithEntryContents(t, at, e);
    assert t.entries == t.entries[..at] + t.entries[at..];
    EntryContentsConcat(Index, t.leaf, t.entries[..at], t.entries[at..]);
    HalvesContents(t, m, 0, id);
  }

  lemma {:induction false} ShorterUnderPath(path: Path, v: Tree, v': Tree)
    requires |Contents(Index, v')| + 1 < |Contents(Index, v)|
    ensures |Contents(Index, PlugAll(path, v'))| + 1 < |Contents(Index, PlugAll(path, v))|
  {
    PathContents(Index, path, v);
    PathContents(Index, path, v');
  }

  /** No page more often. */
  ghost predicate Fewer(some: multiset<nat>, all: multiset<nat>) { forall id :: some[id] <= all[id] }

  /** Fewer pages are not shared either. */
  lemma {:induction false} FewerUnshared(some: multiset<nat>, all: multiset<nat>)
    requires Unshared(all) && 1 !in all && Fewer(some, all)
    ensures Unshared(some) && 1 !in some
  {
  }

  lemma {:induction false} RightHalfPages(path: Path, t: Tree, at: nat, e: Entry, m: nat)
    requires t.Branch? && at <= |t.entries| && m < |t.entries|
    ensures Fewer(TreePages(PlugAll(path, RightHalf(t, m, t.id))), TreePages(PlugAll(path, WithEntry(t, at, e))))
  {
    PathOwns(path, RightHalf(t, m, t.id));
    PathOwns(path, WithEntry(t, at, e));
    WithEntryPages(t, at, e);
    HalvesPages(t, m, 0, t.id);
    SmallerPart(TreePages(LeftHalf(t, m, 0)) + ItemPages(t.entries[m].item), TreePages(RightHalf(t, m, t.id)),
                TreePages(t), t.id);
  }

  lemma {:induction false} SmallerPart(x: multiset<nat>, some: multiset<nat>, all: multiset<nat>, id: nat)
    requires x + some + multiset{id} == all + multiset{0, id} && x[0] > 0
    ensures Fewer(some, all)
  {
    forall y ensures some[y] <= all[y] {
      assert (x + some + multiset{id})[y] == (all + multiset{0, id})[y];
    }
  }

  /** Refused below the root: the right half is all that is left of the node. */
  lemma {:induction false} RightHalfRemains(
      pageSize: nat, pages: Pages, halved: Pages, root: nat, target: seq<Record>, height: nat,
      path: Path, cur: Tree, at: nat, e: Entry, stored: bool, m: nat, left: nat)
    requires Climbing(pageSize, pages, root, target, height, path, cur, at, e, stored)
    requires m < |cur.entries| && Halved(pages, halved, cur.id, m, left, cur.id) && NodesFit(pageSize, halved)
    ensures Remains(pageSize, halved, root, target, height, cur, false, PlugAll(path, RightHalf(cur, m, cur.id)),
      height)
  {
    if height > 0 {
      var half := RightHalf(cur, m, cur.id);
      var t := PlugAll(path, half);
      RightHalfStands(pageSize, pages, halved, root, target, height, path, cur, at, e, stored, m, left);
      RightHalfShape(root, target, height, path, cur, at, e, m);
      BalancedIsIndex(halved, t, height);
      RecordCounts(cur, at, e, m, cur.id);
      ShorterUnderPath(path, WithEntry(cur, at, e), half);
    }
  }

  lemma {:induction false} RightHalfStands(
      pageSize: nat, pages: Pages, halved: Pages, root: nat, target: seq<Record>, height: nat,
      path: Path, cur: Tree, at: nat, e: Entry, stored: bool, m: nat, left: nat)
    requires Climbing(pageSize, pages, root, target, height, path, cur, at, e, stored)
    requires m < |cur.entries| && Halved(pages, halved, cur.id, m, left, cur.id)
    ensures Represents(Torn, halved, PlugAll(path, RightHalf(cur, m, cur.id))) && 1 in halved
  {
    PlanKept(pageSize, pages, halved, root, target, height, path, cur, at, e, stored, m, left, cur.id);
    OwnPageApart(pageSize, pages, root, target, height, path, cur, at, e, stored);
    HalvesReady(pages, halved, cur, m, left, cur.id);
    NodeInPages(halved, RightHalf(cur, m, cur.id));
    PathFrame(Torn, pages, halved, path, cur.id);
    PlugAllRepresents(Torn, halved, path, RightHalf(cur, m, cur.id));
  }

  lemma {:induction false} RightHalfShape(
      root: nat, target: seq<Record>, height: nat, path: Path, cur: Tree, at: nat, e: Entry, m: nat)
    requires cur.Branch? && at <= |cur.entries| && m < |cur.entries| && height > 0 && Level(height, path, cur, e)
    requires Planned(root, target, height, PlugAll(path, WithEntry(cur, at, e)))
    ensures
      var t := PlugAll(path, RightHalf(cur, m, cur.id));
      && t.Branch? && t.id == root && Balanced(t, height) && Unshared(TreePages(t)) && 1 !in TreePages(t)
  {
    var v, half := WithEntry(cur, at, e), RightHalf(cur, m, cur.id);
    WithEntryBalanced(cur, at, e, height - |path|);
    HalvesBalanced(cur, m, 0, cur.id, height - |path|);
    SwapUnderPath(path, v, half, height);
    RootOfPath(path, v);
    RootOfPath(path, half);
    RightHalfPages(path, cur, at, e, m);
    FewerUnshared(TreePages(PlugAll(path, half)), TreePages(PlugAll(path, v)));
  }

  /** Refused at the root: both halves and the middle cell are there, the entry that waited is not. */
  lemma {:induction false} RootRemains(
      pageSize: nat, pages: Pages, halved: Pages, root: nat, target: seq<Record>, height: nat,
      cur: Tree, at: nat, e: Entry, stored: bool, m: nat, left: nat, right: nat)
    requires Climbing(pageSize, pages, root, target, height, [], cur, at, e, stored)
    requires m < |cur.entries| && Halved(pages, halved, cur.id, m, left, right) && right != cur.id
    requires halved[cur.id] == NodeBody(Node(false, [Cell(left, cur.entries[m].item.body)], right))
    requires NodesFit(pageSize, halved) && left != 1 && right != 1
    requires stored ==> Contents(Index, e.kid) != []
    ensures Remains(pageSize, halved, root, target, height, cur, !stored, NewRoot(cur, m, left, right), Taller(height))
  {
    if height > 0 {
      var t := NewRoot(cur, m, left, right);
      RootStands(pageSize, pages, halved, root, target, height, cur, at, e, stored, m, left, right);
      RootShape(pageSize, pages, root, target, height, cur, at, e, stored, m, left, right);
      BalancedIsIndex(halved, t, height + 1);
      NewRootContents(cur, m, left, right);
      RecordCounts(cur, at, e, m, cur.id);
    }
  }

  lemma {:induction false} RootStands(
      pageSize: nat, pages: Pages, halved: Pages, root: nat, target: seq<Record>, height: nat,
      cur: Tree, at: nat, e: Entry, stored: bool, m: nat, left: nat, right: nat)
    requires Climbing(pageSize, pages, root, target, height, [], cur, at, e, stored)
    requires m < |cur.entries| && Halved(pages, halved, cur.id, m, left, right)
    requires halved[cur.id] == NodeBody(Node(false, [Cell(left, cur.entries[m].item.body)], right))
    ensures Represents(Torn, halved, NewRoot(cur, m, left, right)) && 1 in halved
  {
    PlanKept(pageSize, pages, halved, root, target, height, [], cur, at, e, stored, m, left, right);
    OwnPageApart(pageSize, pages, root, target, height, [], cur, at, e, stored);
    HalvesReady(pages, halved, cur, m, left, right);
    NodeInPages(halved, LeftHalf(cur, m, left));
    NodeInPages(halved, RightHalf(cur, m, right));
    RootRepresented(halved, cur, m, left, right, cur.entries[m].item);
  }

  lemma {:induction false} RootShape(
      pageSize: nat, pages: Pages, root: nat, target: seq<Record>, height: nat,
      cur: Tree, at: nat, e: Entry, stored: bool, m: nat, left: nat, right: nat)
    requires Climbing(pageSize, pages, root, target, height, [], cur, at, e, stored) && height > 0
    requires m < |cur.entries| && left !in pages && right !in pages && left != right && left != 1 && right != 1
    ensures
      var t := NewRoot(cur, m, left, right);
      && t.id == root && Balanced(t, height + 1) && Unshared(TreePages(t)) && 1 !in TreePages(t)
  {
    WithEntryPages(cur, at, e);
    OwnedPagesExist(Torn, pages, cur);
    FewerUnshared(TreePages(cur), TreePages(WithEntry(cur, at, e)));
    NewRootPages(cur, m, left, right);
    NewPair(TreePages(cur), left, right);
    NewRootBalanced(cur, m, left, right, height);
  }
}
