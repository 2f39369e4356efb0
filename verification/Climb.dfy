/**
  The state of an index insert between two levels of a split cascade (ibta_insert_at in src/ibtree_alg.c), as values.
  At each level one entry waits to be inserted into a node: first the new payload into a leaf,
  then the middle cell of each node that was split, together with the new left half, into the parent.
*/
module Climb {
  import opened Node
  import opened NodeMove
  import opened Pager
  import opened Overflow
  import opened Tree
  import opened IndexTree
  import opened Torn

  /**
    `item` has been written to a cell of node `id` as `item'`: a stored item as it is, a new one with its overflow
    pages.
  */
  ghost predicate Wrote(
      pageSize: nat, before: Pages, after: Pages, id: nat, at: nat, key: nat, item: Item, stored: bool, item': Item)
  {
    && pageSize >= MIN_PAGE_SIZE
    && id in before && before[id].NodeBody? && at <= |before[id].node.cells|
    && item'.payload == item.payload && (stored ==> item' == item)
    && id in after && Extends(before, after[id := before[id]], if stored then [] else item'.chain)
    && Holds(after, item')
    && HeapRequired(item'.body) <= MaxCellSize(NodeCapacity(pageSize))
    && HeapUsed(before[id].node.cells) + HeapRequired(item'.body) <= NodeCapacity(pageSize)
    && after[id] == NodeBody(before[id].node.(cells := InsertAt(before[id].node.cells, at, Cell(key, item'.body))))
  }

  lemma {:induction false} WroteKeepsFits(
      pageSize: nat, before: Pages, after: Pages, id: nat, at: nat, key: nat, item: Item, stored: bool, item': Item)
    requires Wrote(pageSize, before, after, id, at, key, item, stored, item')
    requires NodesFit(pageSize, before) && id != 1
    requires Holds(after, item') && (stored ==> Holds(before, item))
    ensures NodesFit(pageSize, after)
  {
    FitsInsert(pageSize, before[id].node, at, Cell(key, item'.body));
    forall x | x in after && x != 1 && after[x].NodeBody? ensures Fits(pageSize, after[x].node) {
      if x != id && x !in before {
        var pages := after[id := before[id]];
        assert x in pages && x in Ids(item'.chain);
        assert item'.body.Overflow?;
        ChainInPages(after, item'.chain);
        assert false;
      }
    }
  }

  /** After the write, the node's page represents the node with the new entry. */
  lemma {:induction false} WroteEntry(
      pageSize: nat, before: Pages, after: Pages, t: Tree, at: nat, e: Entry, stored: bool, item': Item)
    requires t.Branch? && at <= |t.entries|
    requires Wrote(pageSize, before, after, t.id, at, CellOf(e).key, e.item, stored, item')
    requires NodeMatches(Torn, before[t.id], t) && PartsRepresented(Torn, before, t) && Represents(Torn, before, e.kid)
    requires t.id !in PartPages(t) + TreePages(e.kid)
    ensures Represents(Torn, after, WithEntry(t, at, e.(item := item')))
  {
    assert forall id :: id in before && id != t.id ==> id in after && after[id] == before[id] by {
      assert forall id :: id in before && id != t.id ==> id in after[t.id := before[t.id]];
    }
    PartsFrame(Torn, before, after, t);
    RepresentsFrame(Torn, before, after, e.kid);
    WithEntryRepresents(Torn, after, t, at, e.(item := item'), before[t.id].node);
  }

  /** Swapping the item of an entry for another with the same payload changes the pages, not the records. */
  lemma {:induction false} SwapItem(t: Tree, at: nat, e: Entry, item': Item)
    requires t.Branch? && at <= |t.entries| && item'.payload == e.item.payload
    ensures Contents(Index, WithEntry(t, at, e.(item := item'))) == Contents(Index, WithEntry(t, at, e))
    ensures TreePages(WithEntry(t, at, e.(item := item'))) + ItemPages(e.item)
      == TreePages(WithEntry(t, at, e)) + ItemPages(item')
  {
    WithEntryContents(t, at, e);
    WithEntryContents(t, at, e.(item := item'));
    WithEntryPages(t, at, e);
    WithEntryPages(t, at, e.(item := item'));
  }

  // ---- paths ----

  lemma {:induction false} SwapUnderPath(path: Path, t: Tree, t': Tree, height: nat)
    requires Balanced(PlugAll(path, t), height) && |path| <= height
    requires Balanced(t, height - |path|) && Balanced(t', height - |path|)
    ensures Balanced(PlugAll(path, t'), height)
    decreases |path|
  {
    if path != [] {
      var h := path[|path| - 1];
      var outer := path[..|path| - 1];
      PlugBalanced(outer, Plug(h, t), height);
      var p, p' := Plug(h, t), Plug(h, t');
      assert forall i :: 0 <= i < |p'.entries| && i != h.at ==> p'.entries[i] == p.entries[i];
      SwapUnderPath(outer, p, p', height);
    }
  }

  lemma {:induction false} PlugBalanced(path: Path, t: Tree, height: nat)
    requires Balanced(PlugAll(path, t), height) && t.Branch?
    ensures |path| < height && Balanced(t, height - |path|)
    decreases |path|
  {
    if path != [] {
      var h := path[|path| - 1];
      PlugBalanced(path[..|path| - 1], Plug(h, t), height);
      var p := Plug(h, t);
      assert h.at < |p.entries| ==> p.entries[h.at].kid == t;
    }
  }

  lemma {:induction false} HeightAt(path: Path, p: Tree, height: nat) returns (h: nat)
    requires p.Branch? && Balanced(PlugAll(path, p), height)
    ensures height == |path| + h && Balanced(p, h)
  {
    PlugBalanced(path, p, height);
    h := height - |path|;
  }

  lemma {:induction false} RootOfPath(path: Path, t: Tree)
    requires t.Branch?
    ensures PlugAll(path, t).Branch?
    ensures path == [] ==> PlugAll(path, t) == t
    ensures path != [] ==> PlugAll(path, t).id == path[0].node.id && path[0].node.id in PathPages(path)
    decreases |path|
  {
    if path != [] {
      var h := path[|path| - 1];
      var outer := path[..|path| - 1];
      RootOfPath(outer, Plug(h, t));
    }
  }

  // ---- the state of the cascade ----

  /** The waiting entry is level with the children of the node; height 0 stands for a tree that is torn. */
  ghost predicate Level(height: nat, path: Path, cur: Tree, e: Entry)
    requires cur.Branch?
  {
    && (height > 0 ==>
         && (cur.leaf <==> e.kid.Nil?) && |path| < height
         && Balanced(cur, height - |path|) && Balanced(e.kid, height - |path| - 1))
    && (height == 0 ==> forall i :: 0 <= i < |path| ==> !path[i].node.leaf)
  }

  /**
    The entry `e` waits to be inserted before slot `at` of node `cur`, below `path`. Its child is in the pages;
    its item is too if it is `stored`. Inserted, it would make a tree with root page `root` and records `target`.
  */
  ghost predicate Climbing(
      pageSize: nat, pages: Pages, root: nat, target: seq<Record>, height: nat,
      path: Path, cur: Tree, at: nat, e: Entry, stored: bool)
  {
    && cur.Branch? && at <= |cur.entries| && Level(height, path, cur, e)
    && Represents(Torn, pages, cur) && PathRepresents(Torn, pages, path, cur.id)
    && Represents(Torn, pages, e.kid) && (if stored then Holds(pages, e.item) else e.item.chain == [])
    && NodesFit(pageSize, pages) && 1 in pages
    && Planned(root, target, height, PlugAll(path, WithEntry(cur, at, e)))
  }

  /** What the finished tree is to be: balanced, or torn. */
  ghost predicate Planned(root: nat, target: seq<Record>, height: nat, t: Tree) {
    && t.Branch? && t.id == root
    && Contents(Index, t) == target
    && (if height > 0 then Balanced(t, height) else HasGap(t))
    && Unshared(TreePages(t)) && 1 !in TreePages(t)
  }

  /** How the insert ends: in a well-formed tree, or in a torn one. */
  ghost predicate Ended(pageSize: nat, pages: Pages, t: Tree, height: nat) {
    if height > 0 then IsIndexTree(pageSize, pages, t, height) else t.Branch? && Represents(Torn, pages, t) && HasGap(t)
  }

  lemma {:induction false} EndsAsPlanned(
      pageSize: nat, pages: Pages, root: nat, target: seq<Record>, height: nat, t: Tree)
    requires Planned(root, target, height, t) && Represents(Torn, pages, t) && NodesFit(pageSize, pages) && 1 in pages
    ensures Ended(pageSize, pages, t, height)
  {
    if height > 0 { BalancedIsIndex(pages, t, height); }
  }

  /** Everything the plan needs is in the pages. */
  lemma {:induction false} PlannedPagesExist(
      pageSize: nat, pages: Pages, root: nat, target: seq<Record>, height: nat,
      path: Path, cur: Tree, at: nat, e: Entry, stored: bool)
    requires Climbing(pageSize, pages, root, target, height, path, cur, at, e, stored)
    ensures forall id :: id in TreePages(PlugAll(path, WithEntry(cur, at, e))) ==> id in pages
    ensures TreePages(PlugAll(path, WithEntry(cur, at, e))) ==
      PathPages(path) + (multiset{cur.id} + PartPages(cur)) + TreePages(e.kid) + ItemPages(e.item)
  {
    PathOwns(path, WithEntry(cur, at, e));
    WithEntryPages(cur, at, e);
    PathPagesExist(Torn, pages, path, cur);
    OwnedPagesExist(Torn, pages, e.kid);
    ItemPagesExist(pages, e.item, stored);
  }

  lemma {:induction false} ItemPagesExist(pages: Pages, item: Item, stored: bool)
    requires if stored then Holds(pages, item) else item.chain == []
    ensures forall id :: id in ItemPages(item) ==> id in pages
  {
    if stored && item.body.Overflow? { ChainInPages(pages, item.chain); }
  }

  // ---- the node had room ----

  /** A subtree may be replaced by one with the same records and height that owns some more pages. */
  lemma {:induction false} Replan(
      root: nat, target: seq<Record>, height: nat, path: Path, v: Tree, v': Tree, more: multiset<nat>)
    requires Planned(root, target, height, PlugAll(path, v)) && v.Branch? && v'.Branch? && v'.id == v.id
    requires Contents(Index, v') == Contents(Index, v)
    requires if height > 0 then |path| <= height && Balanced(v, height - |path|) && Balanced(v', height - |path|)
             else HasGap(PlugAll(path, v'))
    requires TreePages(v') == TreePages(v) + more
    requires Unshared(TreePages(PlugAll(path, v)) + more) && 1 !in more
    ensures Planned(root, target, height, PlugAll(path, v'))
  {
    PathContents(Index, path, v);
    PathContents(Index, path, v');
    if height > 0 { SwapUnderPath(path, v, v', height); }
    RootOfPath(path, v);
    RootOfPath(path, v');
    PathOwns(path, v);
    PathOwns(path, v');
    assert TreePages(PlugAll(path, v')) == TreePages(PlugAll(path, v)) + more;
  }

  /** Pages that did not exist belong to nobody. */
  lemma {:induction false} NewPagesUnshared(owned: multiset<nat>, pages: Pages, chain: seq<nat>)
    requires Unshared(owned) && 1 !in owned && 1 in pages && forall id :: id in owned ==> id in pages
    requires forall id :: id in Ids(chain) ==> id !in pages
    ensures Unshared(owned + multiset(Ids(chain))) && 1 !in multiset(Ids(chain))
  {
  }

  /** Gaps do not depend on items. */
  lemma {:induction false} SameGaps(path: Path, cur: Tree, at: nat, e: Entry, item': Item)
    requires cur.Branch? && at <= |cur.entries| && HasGap(PlugAll(path, WithEntry(cur, at, e)))
    ensures HasGap(PlugAll(path, WithEntry(cur, at, e.(item := item'))))
  {
    var v, v' := WithEntry(cur, at, e), WithEntry(cur, at, e.(item := item'));
    assert forall i :: 0 <= i < |v.entries| ==> v'.entries[i].kid == v.entries[i].kid;
    SameGapsUnder(path, v, v');
  }

  lemma {:induction false} SameGapsUnder(path: Path, v: Tree, v': Tree)
    requires v.Branch? && v'.Branch? && (HasGap(v) ==> HasGap(v')) && HasGap(PlugAll(path, v))
    ensures HasGap(PlugAll(path, v'))
    decreases |path|
  {
    if path != [] {
      var h := path[|path| - 1];
      var p, p' := Plug(h, v), Plug(h, v');
      assert forall i :: 0 <= i < |p.entries| ==>
        if i == h.at then p.entries[i].kid == v && p'.entries[i].kid == v' else p.entries[i] == p'.entries[i];
      SameGapsUnder(path[..|path| - 1], p, p');
    }
  }

  /** Replacing the planned item by a written one keeps the plan: the new overflow pages belonged to nobody. */
  lemma {:induction false} PlanNewItem(
      pages: Pages, root: nat, target: seq<Record>, height: nat, path: Path, cur: Tree, at: nat, e: Entry, item': Item)
    requires cur.Branch? && at <= |cur.entries| && Level(height, path, cur, e)
    requires Planned(root, target, height, PlugAll(path, WithEntry(cur, at, e)))
    requires 1 in pages && forall id :: id in TreePages(PlugAll(path, WithEntry(cur, at, e))) ==> id in pages
    requires item'.payload == e.item.payload && e.item.chain == []
    requires forall id :: id in Ids(item'.chain) ==> id !in pages
    ensures Planned(root, target, height, PlugAll(path, WithEntry(cur, at, e.(item := item'))))
  {
    var v, v' := WithEntry(cur, at, e), WithEntry(cur, at, e.(item := item'));
    if height > 0 {
      WithEntryBalanced(cur, at, e, height - |path|);
      WithEntryBalanced(cur, at, e.(item := item'), height - |path|);
    } else {
      SameGaps(path, cur, at, e, item');
    }
    SwapItem(cur, at, e, item');
    NewPagesUnshared(TreePages(PlugAll(path, v)), pages, item'.chain);
    Replan(root, target, height, path, v, v', ItemPages(item'));
  }

  lemma {:induction false} PlanWritten(
      pageSize: nat, before: Pages, root: nat, target: seq<Record>, height: nat,
      path: Path, cur: Tree, at: nat, e: Entry, stored: bool, item': Item)
    requires Climbing(pageSize, before, root, target, height, path, cur, at, e, stored)
    requires item'.payload == e.item.payload && (stored ==> item' == e.item)
    requires !stored ==> forall x :: x in Ids(item'.chain) ==> x !in before
    ensures Planned(root, target, height, PlugAll(path, WithEntry(cur, at, e.(item := item'))))
  {
    if !stored {
      PlannedPagesExist(pageSize, before, root, target, height, path, cur, at, e, stored);
      PlanNewItem(before, root, target, height, path, cur, at, e, item');
    }
  }

  /** The page of the current node is used nowhere else in the plan. */
  lemma {:induction false} OwnPageApart(
      pageSize: nat, pages: Pages, root: nat, target: seq<Record>, height: nat,
      path: Path, cur: Tree, at: nat, e: Entry, stored: bool)
    requires Climbing(pageSize, pages, root, target, height, path, cur, at, e, stored)
    ensures cur.id != 1 && cur.id !in PathPages(path) && cur.id !in PartPages(cur) + TreePages(e.kid)
    ensures cur.id !in ItemPages(e.item)
  {
    PlannedPagesExist(pageSize, pages, root, target, height, path, cur, at, e, stored);
    var planned := TreePages(PlugAll(path, WithEntry(cur, at, e)));
    assert planned[cur.id] <= 1;
  }

  lemma {:induction false} WroteElsewhere(
      pageSize: nat, before: Pages, after: Pages, id: nat, at: nat, key: nat, item: Item, stored: bool, item': Item)
    requires Wrote(pageSize, before, after, id, at, key, item, stored, item')
    ensures forall x :: x in before && x != id ==> x in after && after[x] == before[x]
    ensures !stored ==> forall x :: x in Ids(item'.chain) ==> x !in before
    ensures 1 in before ==> 1 in after
  {
    var restored := after[id := before[id]];
    assert forall x :: x in before && x != id ==> x in restored && after[x] == restored[x];
  }

  lemma {:induction false} Finish(
      pageSize: nat, before: Pages, after: Pages, root: nat, target: seq<Record>, height: nat,
      path: Path, cur: Tree, at: nat, e: Entry, stored: bool, item': Item)
    requires Climbing(pageSize, before, root, target, height, path, cur, at, e, stored)
    requires Wrote(pageSize, before, after, cur.id, at, CellOf(e).key, e.item, stored, item')
    ensures
      var t := PlugAll(path, WithEntry(cur, at, e.(item := item')));
      Ended(pageSize, after, t, height) && t.id == root && Contents(Index, t) == target
  {
    OwnPageApart(pageSize, before, root, target, height, path, cur, at, e, stored);
    WroteElsewhere(pageSize, before, after, cur.id, at, CellOf(e).key, e.item, stored, item');
    PlanWritten(pageSize, before, root, target, height, path, cur, at, e, stored, item');
    WroteEntry(pageSize, before, after, cur, at, e, stored, item');
    WroteKeepsFits(pageSize, before, after, cur.id, at, CellOf(e).key, e.item, stored, item');
    PathFrame(Torn, before, after, path, cur.id);
    PlugAllRepresents(Torn, after, path, WithEntry(cur, at, e.(item := item')));
    EndsAsPlanned(pageSize, after, root, target, height, PlugAll(path, WithEntry(cur, at, e.(item := item'))));
  }
}
