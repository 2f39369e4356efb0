/**
  Inserting into an index tree (ibtree_insert_ex in src/ibtree.c, ibta_insert_at and the splits in src/ibtree_alg.c).
*/
module IndexInsert {
  import opened Bytes
  import opened Node
  import opened NodeMove
  import opened Pager
  import opened Overflow
  import opened Compare
  import opened Tree
  import opened Order
  import opened Cursor
  import opened Search
  import opened Presence
  import opened Torn
  import opened InsertStart
  import opened Room
  import opened SplitPages
  import opened IndexTree
  import opened Climb
  import opened Split
  import opened Refused
  import opened Filled

  /** What is to be written at the current level: a new payload, or a cell waiting in the buffer `source`. */
  ghost predicate Waiting(pageSize: nat, e: Entry, key: nat, payload: bytes, source: Page<PageBody>, stored: bool)
    reads source
  {
    key == CellOf(e).key && WaitingItem(pageSize, e.item, payload, source, stored)
  }

  /** The page of the current node, seen as a node. */
  lemma {:induction false} CurrentNode(
      pageSize: nat, pages: Pages, root: nat, target: seq<Record>, height: nat, path: Path, cur: Tree, at: nat,
      e: Entry, stored: bool)
    requires Climbing(pageSize, pages, root, target, height, path, cur, at, e, stored) && 0 !in pages
    ensures cur.id in pages && cur.id > 1 && pages[cur.id].NodeBody? && |pages[cur.id].node.cells| == |cur.entries|
    ensures 1 in pages && NodesFit(pageSize, pages) && Fits(pageSize, pages[cur.id].node)
    ensures stored ==> Holds(pages, e.item) && cur.id !in Ids(e.item.chain)
    ensures cur.entries != [] ==> Splittable(pageSize, pages, cur.id, at, e.item, stored)
  {
    OwnPageApart(pageSize, pages, root, target, height, path, cur, at, e, stored);
    NodePage(pageSize, pages, cur);
  }

  lemma {:induction false} NodePage(pageSize: nat, pages: Pages, cur: Tree)
    requires cur.Branch? && cur.id != 1 && 0 !in pages && Represents(Torn, pages, cur) && NodesFit(pageSize, pages)
    ensures cur.id in pages && cur.id > 1 && pages[cur.id].NodeBody? && |pages[cur.id].node.cells| == |cur.entries|
    ensures Fits(pageSize, pages[cur.id].node)
  {
  }

  lemma {:induction false} ClimbAccounted(
      pageSize: nat, pages: Pages, halved: Pages, after: Pages, slot: nat, key: nat,
      outer: Path, hole: Hole, cur: Tree, at: nat, e: Entry, stored: bool, m: nat, left: nat, id: nat, item': Item)
    requires hole.node.Branch? && hole.at <= |hole.node.entries|
    requires cur.Branch? && at <= |cur.entries| && m < |cur.entries| && (!stored ==> e.item.chain == [])
    requires Wrote(pageSize, halved, after, id, slot, key, e.item, stored, item')
    requires halved.Keys == pages.Keys + {left}
    ensures
      var w := WithEntry(cur, at, e.(item := item'));
      var raised := Entry(LeftHalf(w, Raised(at, m), left), 0, w.entries[Raised(at, m)].item);
      Accounted(pages, after, TreePages(PlugAll(outer + [hole], WithEntry(cur, at, e))),
                TreePages(PlugAll(outer, WithEntry(Plug(hole, RightHalf(w, Raised(at, m), w.id)), hole.at, raised))))
  {
    var path: Path := outer + [hole];
    WroteAccounted(pageSize, halved, after, id, slot, key, path, cur, at, e, stored, item');
    RaisedAccounted(outer, hole, WithEntry(cur, at, e.(item := item')), Raised(at, m), left);
    MoreOwned(pages, halved, after, TreePages(PlugAll(path, WithEntry(cur, at, e))),
              TreePages(PlugAll(path, WithEntry(cur, at, e.(item := item')))), {left}, multiset{left});
  }

  lemma {:induction false} EmptyPath(t: Tree)
    ensures PlugAll([], t) == t
  {
  }

  lemma {:induction false} RootAccounted(
      pageSize: nat, pages: Pages, halved: Pages, after: Pages, slot: nat, key: nat,
      cur: Tree, at: nat, e: Entry, stored: bool, m: nat, left: nat, right: nat, id: nat, item': Item)
    requires cur.Branch? && at <= |cur.entries| && m < |cur.entries| && (!stored ==> e.item.chain == [])
    requires Wrote(pageSize, halved, after, id, slot, key, e.item, stored, item')
    requires halved.Keys == pages.Keys + {left, right}
    ensures Accounted(pages, after, TreePages(WithEntry(cur, at, e)),
                      TreePages(NewRoot(WithEntry(cur, at, e.(item := item')), Raised(at, m), left, right)))
  {
    WroteHere(pageSize, halved, after, id, slot, key, cur, at, e, stored, item');
    NewRootPages(WithEntry(cur, at, e.(item := item')), Raised(at, m), left, right);
    MoreOwned(pages, halved, after, TreePages(WithEntry(cur, at, e)), TreePages(WithEntry(cur, at, e.(item := item'))),
              {left, right}, multiset{left, right});
  }

  lemma {:induction false} MoreOwned(
      pages: Pages, halved: Pages, after: Pages, plan: multiset<nat>, plan': multiset<nat>, added: set<nat>,
      more: multiset<nat>)
    requires Accounted(halved, after, plan, plan') && halved.Keys == pages.Keys + added
    requires forall id :: id in added ==> id in more
    ensures Accounted(pages, after, plan, plan' + more)
  {
    assert forall id :: id in halved <==> id in halved.Keys;
  }

  lemma {:induction false} WroteHere(
      pageSize: nat, before: Pages, after: Pages, id: nat, slot: nat, key: nat, cur: Tree, at: nat, e: Entry,
      stored: bool, item': Item)
    requires cur.Branch? && at <= |cur.entries| && (!stored ==> e.item.chain == [])
    requires Wrote(pageSize, before, after, id, slot, key, e.item, stored, item')
    ensures Accounted(before, after, TreePages(WithEntry(cur, at, e)), TreePages(WithEntry(cur, at, e.(item := item'))))
  {
    WroteAccounted(pageSize, before, after, id, slot, key, [], cur, at, e, stored, item');
    EmptyPath(WithEntry(cur, at, e));
    EmptyPath(WithEntry(cur, at, e.(item := item')));
  }

  lemma {:induction false} RaisedBody(pages: Pages, cur: Tree, m: nat)
    requires cur.Branch? && Represents(Torn, pages, cur) && cur.entries != [] && m == Middle(|cur.entries|)
    ensures NodeWithCells(pages, cur.id) && cur.entries[m].item.body == MiddleBody(pages, cur.id)
    ensures |pages[cur.id].node.cells| == |cur.entries|
  {
    assert CellMatches(Torn, cur.leaf, pages[cur.id].node.cells[m], cur.entries[m]);
  }

  lemma {:induction false} AfterSplit(
      pageSize: nat, pages: Pages, halved: Pages, after: Pages, root: nat, target: seq<Record>, height: nat,
      outer: Path, hole: Hole, cur: Tree, at: nat, e: Entry, stored: bool, m: nat, left: nat, item': Item)
    requires hole.node.Branch? && hole.at <= |hole.node.entries|
    requires Climbing(pageSize, pages, root, target, height, outer + [hole], cur, at, e, stored)
    requires m < |cur.entries| && Halved(pages, halved, cur.id, m, left, cur.id)
    requires Wrote(pageSize, halved, after, HalfPage(at, m, left, cur.id), HalfSlot(at, m), CellOf(e).key, e.item,
      stored, item')
    requires NodesFit(pageSize, halved) && left != 1 && halved.Keys == pages.Keys + {left}
    ensures
      var w := WithEntry(cur, at, e.(item := item'));
      var raised := Entry(LeftHalf(w, Raised(at, m), left), 0, cur.entries[m].item);
      var parent := Plug(hole, RightHalf(w, Raised(at, m), cur.id));
      && Climbing(pageSize, after, root, target, height, outer, parent, hole.at, raised, true)
      && Accounted(pages, after, TreePages(PlugAll(outer + [hole], WithEntry(cur, at, e))),
                   TreePages(PlugAll(outer, WithEntry(parent, hole.at, raised))))
    ensures ChangedOnly(pages, after, cur.id)
  {
    var id, slot, key := HalfPage(at, m, left, cur.id), HalfSlot(at, m), CellOf(e).key;
    ItemsKnown(pageSize, pages, halved, root, target, height, outer + [hole], cur, at, e, stored, m, left, cur.id);
    WroteElsewhere(pageSize, halved, after, id, slot, key, e.item, stored, item');
    WroteKeepsFits(pageSize, halved, after, id, slot, key, e.item, stored, item');
    ClimbOn(pageSize, pages, halved, after, root, target, height, outer, hole, cur, at, e, stored, m, left, item');
    ClimbAccounted(pageSize, pages, halved, after, slot, key, outer, hole, cur, at, e, stored, m, left, id, item');
    RaisedItem(cur, at, e.(item := item'), m);
  }

  lemma {:induction false} ItemsKnown(
      pageSize: nat, pages: Pages, halved: Pages, root: nat, target: seq<Record>, height: nat,
      path: Path, cur: Tree, at: nat, e: Entry, stored: bool, m: nat, left: nat, right: nat)
    requires Climbing(pageSize, pages, root, target, height, path, cur, at, e, stored)
    requires m < |cur.entries| && Halved(pages, halved, cur.id, m, left, right)
    ensures stored ==> Holds(halved, e.item)
    ensures !stored ==> e.item.chain == []
    ensures cur.id != 1 && at <= |cur.entries|
  {
    OwnPageApart(pageSize, pages, root, target, height, path, cur, at, e, stored);
    if stored { ItemKept(pages, halved, e.item, cur.id, m, left, right); }
  }

  lemma {:induction false} RaisedItem(cur: Tree, at: nat, e: Entry, m: nat)
    requires cur.Branch? && at <= |cur.entries| && m < |cur.entries|
    ensures WithEntry(cur, at, e).entries[Raised(at, m)] == cur.entries[m]
  {
  }

  lemma {:induction false} AfterRootSplit(
      pageSize: nat, pages: Pages, halved: Pages, after: Pages, root: nat, target: seq<Record>, height: nat,
      cur: Tree, at: nat, e: Entry, stored: bool, m: nat, left: nat, right: nat, item': Item)
    requires Climbing(pageSize, pages, root, target, height, [], cur, at, e, stored)
    requires m < |cur.entries| && Halved(pages, halved, cur.id, m, left, right) && right != cur.id
    requires halved[cur.id] == NodeBody(Node(false, [Cell(left, cur.entries[m].item.body)], right))
    requires Wrote(pageSize, halved, after, HalfPage(at, m, left, right), HalfSlot(at, m), CellOf(e).key, e.item,
      stored, item')
    requires NodesFit(pageSize, halved) && left != 1 && right != 1 && halved.Keys == pages.Keys + {left, right}
    ensures
      var t := NewRoot(WithEntry(cur, at, e.(item := item')), Raised(at, m), left, right);
      && Ended(pageSize, after, t, Taller(height)) && t.id == root && Contents(Index, t) == target
      && Accounted(pages, after, TreePages(WithEntry(cur, at, e)), TreePages(t))
    ensures ChangedOnly(pages, after, cur.id)
  {
    var id, slot, key := HalfPage(at, m, left, right), HalfSlot(at, m), CellOf(e).key;
    ItemsKnown(pageSize, pages, halved, root, target, height, [], cur, at, e, stored, m, left, right);
    WroteElsewhere(pageSize, halved, after, id, slot, key, e.item, stored, item');
    WroteKeepsFits(pageSize, halved, after, id, slot, key, e.item, stored, item');
    RootSplitDone(pageSize, pages, halved, after, root, target, height, cur, at, e, stored, m, left, right, item');
    RootAccounted(pageSize, pages, halved, after, slot, key, cur, at, e, stored, m, left, right, id, item');
  }

  /** The node and the entry for the level above, after a split below the root that went well. */
  ghost function ParentAfter(hole: Hole, cur: Tree, at: nat, e: Entry, item': Item): Tree
    requires hole.node.Branch? && hole.at <= |hole.node.entries| && cur.Branch? && at <= |cur.entries|
    requires cur.entries != []
  {
    Plug(hole, RightHalf(WithEntry(cur, at, e.(item := item')), Raised(at, Middle(|cur.entries|)), cur.id))
  }

  ghost function RaisedAfter(cur: Tree, at: nat, e: Entry, item': Item, left: nat): Entry
    requires cur.Branch? && at <= |cur.entries| && cur.entries != []
  {
    var m: nat := Middle(|cur.entries|);
    Entry(LeftHalf(WithEntry(cur, at, e.(item := item')), Raised(at, m), left), 0, cur.entries[m].item)
  }

  lemma {:induction false} SplitClimbs(
      pageSize: nat, pages: Pages, halved: Pages, after: Pages, root: nat, target: seq<Record>, height: nat,
      outer: Path, hole: Hole, cur: Tree, at: nat, e: Entry, stored: bool, payload: bytes, left: nat, item': Item)
    requires hole.node.Branch? && hole.at <= |hole.node.entries| && cur.Branch? && cur.entries != []
    requires Climbing(pageSize, pages, root, target, height, outer + [hole], cur, at, e, stored)
    requires SplitWrote(pageSize, pages, halved, after, Ok, cur.id, at, CellOf(e).key, payload, e.item, stored, left,
      cur.id, item')
    requires |pages[cur.id].node.cells| == |cur.entries|
    ensures at <= |cur.entries|
    ensures
      var parent, raised := ParentAfter(hole, cur, at, e, item'), RaisedAfter(cur, at, e, item', left);
      && Climbing(pageSize, after, root, target, height, outer, parent, hole.at, raised, true)
      && Accounted(pages, after, TreePages(PlugAll(outer + [hole], WithEntry(cur, at, e))),
                   TreePages(PlugAll(outer, WithEntry(parent, hole.at, raised))))
    ensures ChangedOnly(pages, after, cur.id)
  {
    var m: nat := Middle(|cur.entries|);
    AfterSplit(pageSize, pages, halved, after, root, target, height, outer, hole, cur, at, e, stored, m, left, item');
  }

  lemma {:induction false} RaisedCost(
      pageSize: nat, pages: Pages, root: nat, target: seq<Record>, height: nat, path: Path, cur: Tree, at: nat,
      e: Entry, stored: bool)
    requires Climbing(pageSize, pages, root, target, height, path, cur, at, e, stored) && cur.entries != []
    ensures NodeWithCells(pages, cur.id) && |pages[cur.id].node.cells| == |cur.entries|
    ensures cur.entries[Middle(|cur.entries|)].item.body == MiddleBody(pages, cur.id)
    ensures pageSize >= MIN_PAGE_SIZE && HeapRequired(MiddleBody(pages, cur.id)) <= MaxCellSize(NodeCapacity(pageSize))
  {
    OwnPageApart(pageSize, pages, root, target, height, path, cur, at, e, stored);
    RaisedBody(pages, cur, Middle(|cur.entries|));
    assert Fits(pageSize, pages[cur.id].node);
  }

  /** The left half that waits for the parent has a record. */
  lemma {:induction false} RaisedFilled(cur: Tree, at: nat, e: Entry, item': Item, left: nat)
    requires cur.Branch? && at <= |cur.entries| && |cur.entries| >= 4
    ensures Contents(Index, RaisedAfter(cur, at, e, item', left).kid) != []
  {
    var kid := RaisedAfter(cur, at, e, item', left).kid;
    assert kid.entries != [];
    EntryContentsAt(Index, kid.leaf, kid.entries, 0);
  }

  /** After the split, no node of the planned tree is empty if none was before. */
  lemma {:induction false} SplitFilled(
      outer: Path, hole: Hole, cur: Tree, at: nat, e: Entry, item': Item, left: nat)
    requires hole.node.Branch? && hole.at <= |hole.node.entries|
    requires cur.Branch? && at <= |cur.entries| && |cur.entries| >= 4
    ensures
      KeepsFilled(PlugAll(outer + [hole], WithEntry(cur, at, e)),
        PlugAll(outer, WithEntry(ParentAfter(hole, cur, at, e, item'), hole.at, RaisedAfter(cur, at, e, item', left))))
  {
    var path: Path := outer + [hole];
    assert path[..|outer|] == outer;
    var m: nat := Middle(|cur.entries|);
    var w := WithEntry(cur, at, e.(item := item'));
    FilledItem(path, cur, at, e, item');
    RaisedItem(cur, at, e.(item := item'), m);
    FilledRaise(outer, hole, w, Raised(at, m), left);
  }

  lemma {:induction false} RefusedBelowRoot(
      pageSize: nat, pages: Pages, halved: Pages, root: nat, target: seq<Record>, height: nat,
      outer: Path, hole: Hole, cur: Tree, at: nat, e: Entry, stored: bool, payload: bytes, left: nat, item': Item)
    requires hole.node.Branch? && hole.at <= |hole.node.entries| && cur.Branch? && cur.entries != []
    requires Climbing(pageSize, pages, root, target, height, outer + [hole], cur, at, e, stored)
    requires SplitWrote(pageSize, pages, halved, halved, NotEnoughSpace, cur.id, at, CellOf(e).key, payload, e.item,
                        stored, left, cur.id, item')
    requires |pages[cur.id].node.cells| == |cur.entries|
    ensures Remains(pageSize, halved, root, target, height, cur, false,
                    PlugAll(outer + [hole], RightHalf(cur, Middle(|cur.entries|), cur.id)), height)
  {
    var path := PathWith(outer, hole);
    RightHalfRemains(pageSize, pages, halved, root, target, height, path, cur, at, e, stored, Middle(|cur.entries|),
                     left);
  }

  lemma {:induction false} RefusedAtRoot(
      pageSize: nat, pages: Pages, halved: Pages, root: nat, target: seq<Record>, height: nat,
      cur: Tree, at: nat, e: Entry, stored: bool, payload: bytes, left: nat, right: nat, item': Item)
    requires Climbing(pageSize, pages, root, target, height, [], cur, at, e, stored) && cur.entries != []
    requires SplitWrote(pageSize, pages, halved, halved, NotEnoughSpace, cur.id, at, CellOf(e).key, payload, e.item,
                        stored, left, right, item')
    requires |pages[cur.id].node.cells| == |cur.entries| && right != cur.id
    requires halved[cur.id] == NodeBody(Node(false, [Cell(left, cur.entries[Middle(|cur.entries|)].item.body)], right))
    requires stored ==> Contents(Index, e.kid) != []
    ensures Remains(pageSize, halved, root, target, height, cur, !stored,
                    NewRoot(cur, Middle(|cur.entries|), left, right), Taller(height))
  {
    RootRemains(pageSize, pages, halved, root, target, height, cur, at, e, stored, Middle(|cur.entries|), left, right);
  }

  /** The tree that is planned now: with the raised entry at the parent, or the one the insert has ended in. */
  ghost function NextPlan(goesOn: bool, outer: Path, parent: Tree, above: nat, raised: Entry, t: Tree): Tree {
    if goesOn && parent.Branch? && above <= |parent.entries| then PlugAll(outer, WithEntry(parent, above, raised))
    else t
  }

  /**
    The node is below the root and full: splits it, writes into one half, and leaves the middle cell in `holding` for
    the parent.
  */
  method SplitAndWrite(
      pager: Pager<PageBody>, nv: Page<PageBody>, holding: Page<PageBody>, source: Page<PageBody>,
      at: nat, key: nat, payload: bytes, stored: bool,
      ghost root: nat, ghost target: seq<Record>, ghost height: nat, ghost outer: Path, ghost hole: Hole,
      ghost cur: Tree, ghost e: Entry)
    returns (status: Status, leftId: nat, ghost parent: Tree, ghost raised: Entry, ghost t: Tree)
    requires pager.Valid() && nv !in pager.Repr && holding !in pager.Repr && source !in pager.Repr && nv != holding
    requires holding != source && nv != source
    requires hole.node.Branch? && hole.at <= |hole.node.entries|
    requires Climbing(pager.pageSize, pager.contents, root, target, height, outer + [hole], cur, at, e, stored)
    requires Waiting(pager.pageSize, e, key, payload, source, stored)
    requires Loaded(pager, nv) && nv.pageId == cur.id && |cur.entries| >= 4
    modifies pager.Repr, nv, holding
    ensures pager.Valid() && status in {Ok, NotEnoughSpace}
    ensures ChangedOnly(old(pager.contents), pager.contents, cur.id)
    ensures status == NotEnoughSpace ==>
      Remains(pager.pageSize, pager.contents, root, target, height, cur, false, t, height)
    ensures status == Ok ==>
      && parent.Branch? && parent.id == hole.node.id && |parent.entries| == |hole.node.entries|
      && Climbing(pager.pageSize, pager.contents, root, target, height, outer, parent, hole.at, raised, true)
      && Waiting(pager.pageSize, raised, leftId, payload, holding, true)
      && Accounted(old(pager.contents), pager.contents, TreePages(PlugAll(outer + [hole], WithEntry(cur, at, e))),
                   TreePages(PlugAll(outer, WithEntry(parent, hole.at, raised))))
    ensures
      KeepsFilled(PlugAll(outer + [hole], WithEntry(cur, at, e)),
                  NextPlan(status == Ok, outer, parent, hole.at, raised, t))
    ensures RoomInHalf(pager.pageSize, old(pager.contents), cur.id, at, payload, e.item.body, stored) <==> status == Ok
    ensures NodeWithCells(old(pager.contents), cur.id)
    ensures status == Ok ==>
      raised.item.body == MiddleBody(old(pager.contents), cur.id) && Contents(Index, raised.kid) != []
  {
    ghost var pages := pager.contents;
    pager.NoPageZero();
    CurrentNode(pager.pageSize, pages, root, target, height, outer + [hole], cur, at, e, stored);
    ghost var halved, item';
    status, leftId, halved, item' := SplitNodeAndWrite(pager, nv, holding, source, at, key, payload, stored, e.item);
    parent, raised := cur, e;
    RaisedCost(pager.pageSize, pages, root, target, height, outer + [hole], cur, at, e, stored);
    if status == Ok {
      SplitClimbs(pager.pageSize, pages, halved, pager.contents, root, target, height, outer, hole, cur, at, e, stored,
                  payload, leftId, item');
      parent, raised := ParentAfter(hole, cur, at, e, item'), RaisedAfter(cur, at, e, item', leftId);
      RaisedFilled(cur, at, e, item', leftId);
      SplitFilled(outer, hole, cur, at, e, item', leftId);
    } else {
      FilledRest(outer + [hole], cur, at, e, Middle(|cur.entries|));
      RefusedBelowRoot(pager.pageSize, pages, halved, root, target, height, outer, hole, cur, at, e, stored, payload,
                       leftId, item');
    }
    t := PlugAll(outer + [hole], RightHalf(cur, Middle(|cur.entries|), cur.id));
  }

  /** The root is full: its page becomes the parent of two halves, and the entry goes into one of them. */
  method SplitRootAndWrite(
      pager: Pager<PageBody>, nv: Page<PageBody>, source: Page<PageBody>, at: nat, key: nat, payload: bytes,
      stored: bool,
      ghost root: nat, ghost target: seq<Record>, ghost height: nat, ghost cur: Tree, ghost e: Entry)
    returns (status: Status, ghost t: Tree)
    requires pager.Valid() && nv !in pager.Repr && source !in pager.Repr && nv != source
    requires Climbing(pager.pageSize, pager.contents, root, target, height, [], cur, at, e, stored)
    requires Waiting(pager.pageSize, e, key, payload, source, stored)
    requires Loaded(pager, nv) && nv.pageId == cur.id && |cur.entries| >= 4
    requires stored ==> Contents(Index, e.kid) != []
    modifies pager.Repr, nv
    ensures pager.Valid() && status in {Ok, NotEnoughSpace}
    ensures ChangedOnly(old(pager.contents), pager.contents, cur.id)
    ensures status == NotEnoughSpace ==>
      Remains(pager.pageSize, pager.contents, root, target, height, cur, !stored, t, Taller(height))
    ensures KeepsFilled(WithEntry(cur, at, e), t)
    ensures status == Ok ==>
      Arrived(pager.pageSize, old(pager.contents), pager.contents, root, target, height,
        TreePages(WithEntry(cur, at, e)), t, Taller(height))
    ensures RoomInHalf(pager.pageSize, old(pager.contents), cur.id, at, payload, e.item.body, stored) <==> status == Ok
  {
    ghost var pages := pager.contents;
    pager.NoPageZero();
    CurrentNode(pager.pageSize, pages, root, target, height, [], cur, at, e, stored);
    var leftId, rightId;
    ghost var halved, item';
    status, leftId, rightId, halved, item' := SplitParentAndWrite(pager, nv, source, at, key, payload, stored, e.item);
    ghost var m: nat := Middle(|cur.entries|);
    RaisedBody(pages, cur, m);
    if status == Ok {
      AfterRootSplit(pager.pageSize, pages, halved, pager.contents, root, target, height, cur, at, e, stored, m, leftId,
                     rightId, item');
      t := NewRoot(WithEntry(cur, at, e.(item := item')), Raised(at, m), leftId, rightId);
      RootFilled(cur, at, e, item', leftId, rightId);
    } else {
      RefusedAtRoot(pager.pageSize, pages, halved, root, target, height, cur, at, e, stored, payload, leftId, rightId,
                    item');
      t := NewRoot(cur, m, leftId, rightId);
      FilledEntry(cur, at, e);
      FilledRoot(cur, m, leftId, rightId);
    }
  }

  lemma {:induction false} RootFilled(cur: Tree, at: nat, e: Entry, item': Item, left: nat, right: nat)
    requires cur.Branch? && at <= |cur.entries| && |cur.entries| >= 4
    ensures
      KeepsFilled(WithEntry(cur, at, e),
                  NewRoot(WithEntry(cur, at, e.(item := item')), Raised(at, Middle(|cur.entries|)), left, right))
  {
    FilledEntry(cur, at, e);
    FilledEntry(cur, at, e.(item := item'));
    FilledRoot(WithEntry(cur, at, e.(item := item')), Raised(at, Middle(|cur.entries|)), left, right);
  }

  /** from_cli, and the place it means in a node of `n` cells. */
  function InsertionSlot(keyIndex: KeyIndex, n: nat): nat { if keyIndex.mode == At then keyIndex.index else n }

  /** The stack leads to the node that the cascade has reached. */
  ghost predicate Standing(stack: seq<Crumb>, base: seq<Crumb>, path: Path, cur: Tree, at: nat)
    requires cur.Branch?
  {
    && stack != []
    && stack[..|stack| - 1] == Crumbs(base, path)
    && stack[|stack| - 1].pageId == cur.id
    && InsertionSlot(stack[|stack| - 1].keyIndex, |cur.entries|) == at
  }

  /** The crumb of the parent, with the slot made a cell's: the middle cell goes before the child that was split. */
  method TurnToParent(
      cursor: Cursor, holding: Page<PageBody>, ghost base: seq<Crumb>, ghost outer: Path, ghost hole: Hole,
      ghost parent: Tree)
    requires cursor.Valid() && cursor.tree.pager.Valid() && cursor !in cursor.tree.pager.Repr
    requires cursor.breadcrumbs !in cursor.tree.pager.Repr
    requires hole.node.Branch? && hole.at <= |hole.node.entries|
    requires cursor.Stack() == Crumbs(base, outer + [hole])
    requires parent.Branch? && parent.id == hole.node.id && |parent.entries| == |hole.node.entries|
    modifies cursor, cursor.breadcrumbs
    ensures cursor.Valid() && Standing(cursor.Stack(), base, outer, parent, hole.at)
    ensures cursor.tree.pager.Valid() && cursor.tree.pager.contents == old(cursor.tree.pager.contents)
    ensures holding.image == old(holding.image)
  {
    assert (outer + [hole])[..|outer|] == outer;
    var status, crumb := cursor.Pop();
    status := cursor.PushCrumb(crumb.(keyIndex := crumb.keyIndex.(mode := At)));
  }

  lemma {:induction false} LastHole(path: Path) returns (outer: Path, hole: Hole)
    requires path != []
    ensures path == outer + [hole] && |outer| < |path| && hole.node.Branch? && hole.at <= |hole.node.entries|
    ensures hole.node.id in PathPages(path) && forall id :: id in PathPages(outer) ==> id in PathPages(path)
  {
    outer, hole := path[..|path| - 1], path[|path| - 1];
  }

  /** The test for the root, by page id, tells the root from every other node. */
  lemma {:induction false} RootByPage(
      pageSize: nat, pages: Pages, root: nat, target: seq<Record>, height: nat, path: Path, cur: Tree, at: nat,
      e: Entry, stored: bool)
    requires Climbing(pageSize, pages, root, target, height, path, cur, at, e, stored)
    ensures path == [] <==> cur.id == root
  {
    RootOfPath(path, WithEntry(cur, at, e));
    OwnPageApart(pageSize, pages, root, target, height, path, cur, at, e, stored);
  }

  /** The cascade has ended in the planned tree. */
  ghost predicate Arrived(
      pageSize: nat, before: Pages, after: Pages, root: nat, target: seq<Record>, height: nat, plan: multiset<nat>,
      t: Tree, height': nat)
  {
    && Ended(pageSize, after, t, height') && t.id == root && Contents(Index, t) == target
    && (height' == height || height' == Taller(height))
    && Accounted(before, after, plan, TreePages(t))
  }

  /** The cascade goes on at the parent. */
  ghost predicate Onward(
      pageSize: nat, before: Pages, after: Pages, root: nat, target: seq<Record>, height: nat, plan: multiset<nat>,
      path: Path, outer: Path, parent: Tree, at: nat, raised: Entry)
  {
    && |outer| < |path|
    && Climbing(pageSize, after, root, target, height, outer, parent, at, raised, true)
    && Contents(Index, raised.kid) != []
    && parent.id in PathPages(path) && (forall id :: id in PathPages(outer) ==> id in PathPages(path))
    && Accounted(before, after, plan, TreePages(PlugAll(outer, WithEntry(parent, at, raised))))
  }

  /** Tries to write the entry into the node the crumb names. */
  method TryWrite(
      pager: Pager<PageBody>, nv: Page<PageBody>, source: Page<PageBody>, crumb: Crumb, key: nat, payload: bytes,
      stored: bool,
      ghost root: nat, ghost target: seq<Record>, ghost height: nat, ghost path: Path, ghost cur: Tree, ghost at: nat,
      ghost e: Entry)
    returns (status: Status, slot: nat, ghost t: Tree)
    requires pager.Valid() && nv !in pager.Repr && source !in pager.Repr && nv != source
    requires Climbing(pager.pageSize, pager.contents, root, target, height, path, cur, at, e, stored)
    requires Waiting(pager.pageSize, e, key, payload, source, stored)
    requires crumb.pageId == cur.id && InsertionSlot(crumb.keyIndex, |cur.entries|) == at
    modifies pager.Repr, nv
    ensures pager.Valid() && status in {Ok, NotEnoughSpace} && slot == at
    ensures ChangedOnly(old(pager.contents), pager.contents, cur.id)
    ensures status == Ok ==>
      Arrived(pager.pageSize, old(pager.contents), pager.contents, root, target, height,
              TreePages(PlugAll(path, WithEntry(cur, at, e))), t, height)
    ensures status != Ok ==>
      && pager.contents == old(pager.contents) && Loaded(pager, nv) && nv.pageId == cur.id
      && |cur.entries| >= 4
      && (nv.pageId == root <==> path == [])
    ensures status == Ok ==> KeepsFilled(PlugAll(path, WithEntry(cur, at, e)), t)
    ensures cur.id in old(pager.contents) && old(pager.contents)[cur.id].NodeBody?
    ensures status == Ok <==>
      HasRoom(pager.pageSize, old(pager.contents)[cur.id].node.cells, payload, e.item.body, stored)
  {
    ghost var pages := pager.contents;
    pager.NoPageZero();
    CurrentNode(pager.pageSize, pages, root, target, height, path, cur, at, e, stored);
    RootByPage(pager.pageSize, pages, root, target, height, path, cur, at, e, stored);
    var ok := pager.ReadPage(crumb.pageId, nv);
    slot := InsertionSlot(crumb.keyIndex, |nv.image.data.node.cells|);
    ghost var item';
    t := cur;
    status, item' := WriteEntry(pager, nv, slot, key, payload, source, stored, e.item);
    if status == Ok {
      WroteElsewhere(pager.pageSize, pages, pager.contents, nv.pageId, slot, key, e.item, stored, item');
      WroteAccounted(pager.pageSize, pages, pager.contents, nv.pageId, slot, key, path, cur, at, e, stored, item');
      Finish(pager.pageSize, pages, pager.contents, root, target, height, path, cur, at, e, stored, item');
      t := PlugAll(path, WithEntry(cur, at, e.(item := item')));
      FilledItem(path, cur, at, e, item');
    }
  }

  ghost predicate HasRoomAt(pageSize: nat, pages: Pages, id: nat, payload: bytes, body: Body, stored: bool) {
    id in pages && pages[id].NodeBody? && HasRoom(pageSize, pages[id].node.cells, payload, body, stored)
  }

  /** Whether the insert lands is the same question one level up; a split without room answers it. */
  ghost predicate SameOutlook(
      pageSize: nat, before: Pages, after: Pages, payload: bytes, status: Status,
      path: Path, cur: Tree, at: nat, e: Entry, stored: bool, outer: Path, parent: Tree, above: nat, raised: Entry)
  {
    && cur.Branch?
    && var lands := Lands(pageSize, before, path, cur.id, at, payload, e.item.body, stored);
       if status == Ok
       then parent.Branch? && lands == Lands(pageSize, after, outer, parent.id, above, payload, raised.item.body, true)
       else !lands
  }

  /** The nodes on the path are where they were. */
  lemma {:induction false} PathKept(
      pageSize: nat, before: Pages, after: Pages,
      root: nat, target: seq<Record>, height: nat, path: Path, cur: Tree, at: nat, e: Entry, stored: bool)
    requires Climbing(pageSize, before, root, target, height, path, cur, at, e, stored)
    requires ChangedOnly(before, after, cur.id)
    ensures forall x :: x in PathPages(path) ==> x in before && x in after && after[x] == before[x]
  {
    OwnPageApart(pageSize, before, root, target, height, path, cur, at, e, stored);
    PlannedPagesExist(pageSize, before, root, target, height, path, cur, at, e, stored);
  }

  lemma {:induction false} OutlookAbove(
      pageSize: nat, before: Pages, after: Pages, payload: bytes, status: Status,
      cur: Tree, at: nat, e: Entry, stored: bool, outer: Path, hole: Hole, parent: Tree, raised: Entry)
    requires hole.node.Branch? && hole.at <= |hole.node.entries| && cur.Branch?
    requires forall x :: x in PathPages(outer + [hole]) ==> x in before && x in after && after[x] == before[x]
    requires NodeWithCells(before, cur.id)
    requires !HasRoom(pageSize, before[cur.id].node.cells, payload, e.item.body, stored)
    requires status == Ok <==> RoomInHalf(pageSize, before, cur.id, at, payload, e.item.body, stored)
    requires status == Ok ==>
      parent.Branch? && parent.id == hole.node.id && raised.item.body == MiddleBody(before, cur.id)
    ensures SameOutlook(pageSize, before, after, payload, status, outer + [hole], cur, at, e, stored, outer, parent,
      hole.at, raised)
  {
    if status == Ok {
      LandsAbove(pageSize, before, after, outer, hole, cur.id, at, payload, e.item.body, stored, raised.item.body);
    }
  }

  /** The branch of ibta_insert_at for a full node below the root: afterwards the middle cell waits for the parent. */
  method SplitBelowRoot(
      pager: Pager<PageBody>, nv: Page<PageBody>, holding: Page<PageBody>, source: Page<PageBody>,
      slot: nat, key: nat, payload: bytes, stored: bool,
      ghost root: nat, ghost target: seq<Record>, ghost height: nat, ghost path: Path, ghost cur: Tree, ghost e: Entry)
    returns (status: Status, leftId: nat, ghost outer: Path, ghost hole: Hole, ghost parent: Tree, ghost raised: Entry,
             ghost t: Tree)
    requires pager.Valid() && nv !in pager.Repr && holding !in pager.Repr && source !in pager.Repr
    requires nv != holding && holding != source && nv != source && path != []
    requires Climbing(pager.pageSize, pager.contents, root, target, height, path, cur, slot, e, stored)
    requires Waiting(pager.pageSize, e, key, payload, source, stored)
    requires Loaded(pager, nv) && nv.pageId == cur.id && |cur.entries| >= 4
    requires !HasRoomAt(pager.pageSize, pager.contents, cur.id, payload, e.item.body, stored)
    modifies pager.Repr, nv, holding
    ensures pager.Valid() && status in {Ok, NotEnoughSpace}
    ensures path == outer + [hole] && hole.node.Branch? && hole.at <= |hole.node.entries|
    ensures ChangedOnly(old(pager.contents), pager.contents, cur.id)
    ensures status == NotEnoughSpace ==>
      Remains(pager.pageSize, pager.contents, root, target, height, cur, false, t, height)
    ensures status == Ok ==>
      && Onward(pager.pageSize, old(pager.contents), pager.contents, root, target,
                height, TreePages(PlugAll(path, WithEntry(cur, slot, e))), path, outer, parent, hole.at, raised)
      && parent.Branch? && parent.id == hole.node.id && |parent.entries| == |hole.node.entries|
      && Waiting(pager.pageSize, raised, leftId, payload, holding, true)
    ensures
      KeepsFilled(PlugAll(path, WithEntry(cur, slot, e)),
                  NextPlan(status == Ok, outer, parent, hole.at, raised, t))
    ensures SameOutlook(pager.pageSize, old(pager.contents), pager.contents, payload, status,
                        path, cur, slot, e, stored, outer, parent, hole.at, raised)
  {
    ghost var pages := pager.contents;
    outer, hole := LastHole(path);
    status, leftId, parent, raised, t := SplitAndWrite(
      pager, nv, holding, source, slot, key, payload, stored, root, target, height, outer, hole, cur, e);
    PathKept(pager.pageSize, pages, pager.contents, root, target, height, path, cur, slot, e, stored);
    OutlookAbove(pager.pageSize, pages, pager.contents, payload, status, cur, slot, e, stored, outer, hole, parent,
                 raised);
  }

  /** One turn of the loop of ibta_insert_at: the insert has ended, or was refused, or goes on at the parent. */
  ghost predicate Advanced(
      pageSize: nat, before: Pages, after: Pages, root: nat, target: seq<Record>, height: nat,
      path: Path, cur: Tree, at: nat, e: Entry, stored: bool, payload: bytes, status: Status, done: bool,
      t: Tree, height': nat, outer: Path, parent: Tree, above: nat, raised: Entry)
    requires cur.Branch? && at <= |cur.entries|
  {
    && ChangedOnly(before, after, cur.id)
    && (HasRoomAt(pageSize, before, cur.id, payload, e.item.body, stored)
        ==> status == Ok && done && height' == height)
    && KeepsFilled(PlugAll(path, WithEntry(cur, at, e)),
                   NextPlan(status == Ok && !done, outer, parent, above, raised, t))
    && (status == NotEnoughSpace ==>
         Remains(pageSize, after, root, target, height, cur, !stored && path == [], t, height'))
    && var plan := TreePages(PlugAll(path, WithEntry(cur, at, e)));
       if status == Ok && done then
         && Arrived(pageSize, before, after, root, target, height, plan, t, height')
         && Lands(pageSize, before, path, cur.id, at, payload, e.item.body, stored)
       else
         && SameOutlook(pageSize, before, after, payload, status, path, cur, at, e, stored, outer, parent, above,
            raised)
         && (status == Ok ==>
              Onward(pageSize, before, after, root, target, height, plan, path, outer, parent, above, raised))
  }

  /** What one turn of the loop of ibta_insert_at does to the pages; `done` when it leaves the loop. */
  method WriteAtLevel(
      pager: Pager<PageBody>, nv: Page<PageBody>, holding: Page<PageBody>, source: Page<PageBody>,
      root: nat, crumb: Crumb, key: nat, payload: bytes, stored: bool,
      ghost target: seq<Record>, ghost height: nat, ghost path: Path, ghost cur: Tree, ghost at: nat, ghost e: Entry)
    returns (status: Status, done: bool, leftId: nat, ghost t: Tree, ghost height': nat,
             ghost outer: Path, ghost hole: Hole, ghost parent: Tree, ghost raised: Entry)
    requires pager.Valid() && nv !in pager.Repr && holding !in pager.Repr && source !in pager.Repr
    requires nv != holding && holding != source && nv != source
    requires Climbing(pager.pageSize, pager.contents, root, target, height, path, cur, at, e, stored)
    requires Waiting(pager.pageSize, e, key, payload, source, stored)
    requires crumb.pageId == cur.id && InsertionSlot(crumb.keyIndex, |cur.entries|) == at
    requires stored ==> Contents(Index, e.kid) != []
    modifies pager.Repr, nv, holding
    ensures pager.Valid() && status in {Ok, NotEnoughSpace}
    ensures Advanced(pager.pageSize, old(pager.contents), pager.contents, root, target, height, path, cur, at, e,
      stored,
                     payload, status, done, t, height', outer, parent, hole.at, raised)
    ensures status == Ok && !done ==>
      && path == outer + [hole] && hole.node.Branch? && hole.at <= |hole.node.entries|
      && parent.Branch? && parent.id == hole.node.id && |parent.entries| == |hole.node.entries|
      && Waiting(pager.pageSize, raised, leftId, payload, holding, true)
  {
    outer, hole, parent, raised, height', leftId, done := path, Hole(cur, at), cur, e, height, key, true;
    var slot;
    status, slot, t := TryWrite(pager, nv, source, crumb, key, payload, stored, root, target, height, path, cur, at, e);
    if status != Ok {
      if nv.pageId == root {
        EmptyPath(WithEntry(cur, at, e));
        status, t := SplitRootAndWrite(pager, nv, source, slot, key, payload, stored, root, target, height, cur, e);
        height' := Taller(height);
      } else {
        status, leftId, outer, hole, parent, raised, t :=
          SplitBelowRoot(pager, nv, holding, source, slot, key, payload, stored, root, target, height, path, cur, e);
        done := false;
      }
    }
  }

  /** One turn of the loop of ibta_insert_at: from a node to its parent, unless it is the last turn. */
  method InsertAtLevel(
      cursor: Cursor, nv: Page<PageBody>, holding: Page<PageBody>, source: Page<PageBody>, key: nat, payload: bytes,
      stored: bool,
      ghost base: seq<Crumb>, ghost target: seq<Record>, ghost height: nat, ghost path: Path, ghost cur: Tree,
      ghost at: nat, ghost e: Entry)
    returns (status: Status, done: bool, leftId: nat, ghost t: Tree, ghost height': nat,
             ghost outer: Path, ghost parent: Tree, ghost above: nat, ghost raised: Entry)
    requires cursor.Valid() && cursor.tree.pager.Valid() && cursor !in cursor.tree.pager.Repr
    requires cursor.breadcrumbs !in cursor.tree.pager.Repr
    requires nv !in cursor.tree.pager.Repr && holding !in cursor.tree.pager.Repr && source !in cursor.tree.pager.Repr
    requires nv != holding && holding != source && nv != source
    requires cur.Branch? && Standing(cursor.Stack(), base, path, cur, at)
    requires Climbing(cursor.tree.pager.pageSize, cursor.tree.pager.contents, cursor.tree.rootPageId, target, height,
      path, cur, at, e, stored)
    requires Waiting(cursor.tree.pager.pageSize, e, key, payload, source, stored)
    requires stored ==> Contents(Index, e.kid) != []
    modifies cursor.tree.pager.Repr, nv, holding, cursor, cursor.breadcrumbs
    ensures cursor.Valid() && cursor.tree.pager.Valid() && status in {Ok, NotEnoughSpace}
    ensures Advanced(cursor.tree.pager.pageSize, old(cursor.tree.pager.contents), cursor.tree.pager.contents,
                     cursor.tree.rootPageId, target, height, path, cur, at, e, stored, payload, status, done,
                     t, height', outer, parent, above, raised)
    ensures status == Ok && !done ==>
      && Standing(cursor.Stack(), base, outer, parent, above)
      && Waiting(cursor.tree.pager.pageSize, raised, leftId, payload, holding, true)
  {
    var crumb;
    ghost var hole;
    status, crumb := cursor.Pop();
    status, done, leftId, t, height', outer, hole, parent, raised := WriteAtLevel(
      cursor.tree.pager, nv, holding, source, cursor.tree.rootPageId, crumb, key, payload, stored, target, height, path,
      cur, at, e);
    above := hole.at;
    if status == Ok && !done { TurnToParent(cursor, holding, base, outer, hole, parent); }
  }

  lemma {:induction false} StillOutside(a: Pages, b: Pages, c: Pages, owned: multiset<nat>, id: nat)
    requires Outside(a, b, owned) && ChangedOnly(b, c, id) && id in owned
    ensures Outside(a, c, owned)
  {
  }

  lemma {:induction false} OutsideMore(a: Pages, b: Pages, owned: multiset<nat>, more: multiset<nat>)
    requires Outside(a, b, owned) && forall id :: id in owned ==> id in more
    ensures Outside(a, b, more)
  {
  }

  /** The node has room for the new payload. */
  ghost predicate AtOnce(pageSize: nat, pages: Pages, id: nat, payload: bytes) {
    HasRoomAt(pageSize, pages, id, payload, Inline(payload), false)
  }

  /**
    What the turns taken so far have kept: pages are accounted for, no page beside the path has changed, no node has
    become empty, and whether the insert ends well is still the same question.
  */
  ghost predicate Underway(
      pageSize: nat, pages0: Pages, pages: Pages, path0: Path, cur0: Tree, first: Tree, lands: bool, payload: bytes,
      path: Path, cur: Tree, at: nat, e: Entry, stored: bool)
    requires cur0.Branch?
  {
    var owned := PathPages(path0) + multiset{cur0.id};
    && cur.Branch? && at <= |cur.entries|
    && Accounted(pages0, pages, TreePages(first), TreePages(PlugAll(path, WithEntry(cur, at, e))))
    && Outside(pages0, pages, owned) && cur.id in owned && (forall id :: id in PathPages(path) ==> id in owned)
    && (if stored then path0 != [] && Contents(Index, e.kid) != [] else path == path0 && cur == cur0)
    && KeepsFilled(first, PlugAll(path, WithEntry(cur, at, e)))
    && lands == Lands(pageSize, pages, path, cur.id, at, payload, e.item.body, stored)
  }

  /** How an insert ends, by what was planned first. */
  ghost predicate Finished(
      pageSize: nat, pages0: Pages, pages: Pages, root: nat, target: seq<Record>, height: nat, path0: Path, cur0: Tree,
      first: Tree, lands: bool, status: Status, t: Tree, height': nat)
    requires cur0.Branch?
  {
    && (status == Ok <==> lands)
    && (if status == Ok then Arrived(pageSize, pages0, pages, root, target, height, TreePages(first), t, height')
        else Remains(pageSize, pages, root, target, height, cur0, path0 == [], t, height'))
    && KeepsFilled(first, t)
    && Outside(pages0, pages, PathPages(path0) + multiset{cur0.id})  }

  lemma {:induction false} UnderwayAgain(
      pageSize: nat, pages0: Pages, pages: Pages, after: Pages, root: nat, target: seq<Record>, height: nat,
      path0: Path, cur0: Tree, first: Tree, lands: bool, payload: bytes,
      path: Path, cur: Tree, at: nat, e: Entry, stored: bool, t: Tree, height': nat,
      outer: Path, parent: Tree, above: nat, raised: Entry)
    requires cur0.Branch? && cur.Branch? && at <= |cur.entries|
    requires Underway(pageSize, pages0, pages, path0, cur0, first, lands, payload, path, cur, at, e, stored)
    requires Advanced(pageSize, pages, after, root, target, height, path, cur, at, e, stored, payload, Ok, false,
                      t, height', outer, parent, above, raised)
    ensures Underway(pageSize, pages0, after, path0, cur0, first, lands, payload, outer, parent, above, raised, true)
    ensures |outer| < |path| && Climbing(pageSize, after, root, target, height, outer, parent, above, raised, true)
  {
    StillOutside(pages0, pages, after, PathPages(path0) + multiset{cur0.id}, cur.id);
    AccountedTwice(pages0, pages, after, TreePages(first), TreePages(PlugAll(path, WithEntry(cur, at, e))),
                   TreePages(PlugAll(outer, WithEntry(parent, above, raised))));
  }

  lemma {:induction false} UnderwayNoMore(
      pageSize: nat, pages0: Pages, pages: Pages, after: Pages, root: nat, target: seq<Record>, height: nat,
      path0: Path, cur0: Tree, first: Tree, lands: bool, payload: bytes,
      path: Path, cur: Tree, at: nat, e: Entry, stored: bool, status: Status, done: bool, t: Tree, height': nat,
      outer: Path, parent: Tree, above: nat, raised: Entry)
    requires cur0.Branch? && cur.Branch? && at <= |cur.entries| && status in {Ok, NotEnoughSpace}
    requires Underway(pageSize, pages0, pages, path0, cur0, first, lands, payload, path, cur, at, e, stored)
    requires Advanced(pageSize, pages, after, root, target, height, path, cur, at, e, stored, payload, status, done,
                      t, height', outer, parent, above, raised)
    requires done || status != Ok
    ensures Finished(pageSize, pages0, after, root, target, height, path0, cur0, first, lands, status, t, height')
  {
    StillOutside(pages0, pages, after, PathPages(path0) + multiset{cur0.id}, cur.id);
    if status == Ok {
      AccountedTwice(pages0, pages, after, TreePages(first), TreePages(PlugAll(path, WithEntry(cur, at, e))),
                     TreePages(t));
    }
  }

  /** A node with room is not split: after the first turn there was none in the first node. */
  ghost predicate BeforeSplits(pageSize: nat, pages0: Pages, pages: Pages, id: nat, payload: bytes, stored: bool) {
    if stored then !AtOnce(pageSize, pages0, id, payload) else pages == pages0
  }

  lemma {:induction false} FirstTurn(
      pageSize: nat, pages0: Pages, pages: Pages, after: Pages, root: nat, target: seq<Record>, height: nat,
      path: Path, cur: Tree, at: nat, e: Entry, stored: bool, payload: bytes, status: Status, done: bool,
      t: Tree, height': nat, outer: Path, parent: Tree, above: nat, raised: Entry, id: nat)
    requires cur.Branch? && at <= |cur.entries| && (stored || cur.id == id)
    requires BeforeSplits(pageSize, pages0, pages, id, payload, stored)
    requires Advanced(pageSize, pages, after, root, target, height, path, cur, at, e, stored, payload, status, done,
                      t, height', outer, parent, above, raised)
    ensures status == Ok && !done ==> BeforeSplits(pageSize, pages0, after, id, payload, true)
    ensures AtOnce(pageSize, pages0, id, payload) ==>
      status == Ok && done && height' == height && ChangedOnly(pages0, after, id)
  {
  }

  /** ibta_insert_at: writes the payload at the cursor, and splits nodes up the stack until a node has room. */
  method InsertAtCursor(
      cursor: Cursor, payload: bytes,
      ghost base: seq<Crumb>, ghost target: seq<Record>, ghost height: nat, ghost path0: Path, ghost cur0: Tree,
      ghost at0: nat)
    returns (status: Status, ghost t: Tree, ghost height': nat)
    requires cursor.Valid() && cursor.tree.pager.Valid()
    requires cursor !in cursor.tree.pager.Repr && cursor.breadcrumbs !in cursor.tree.pager.Repr
    requires cur0.Branch? && Standing(cursor.Stack(), base, path0, cur0, at0)
    requires Climbing(cursor.tree.pager.pageSize, cursor.tree.pager.contents, cursor.tree.rootPageId, target, height,
                      path0, cur0, at0, NewEntry(payload), false)
    modifies cursor.tree.pager.Repr, cursor, cursor.breadcrumbs
    ensures cursor.tree.pager.Valid() && status in {Ok, NotEnoughSpace}
    ensures
      Finished(cursor.tree.pager.pageSize, old(cursor.tree.pager.contents), cursor.tree.pager.contents,
               cursor.tree.rootPageId, target, height, path0, cur0,
               PlugAll(path0, WithEntry(cur0, at0, NewEntry(payload))),
               Lands(cursor.tree.pager.pageSize, old(cursor.tree.pager.contents), path0, cur0.id, at0, payload,
                     Inline(payload), false),
               status, t, height')
    ensures AtOnce(cursor.tree.pager.pageSize, old(cursor.tree.pager.contents), cur0.id, payload) ==>
      && status == Ok && height' == height
      && ChangedOnly(old(cursor.tree.pager.contents), cursor.tree.pager.contents, cur0.id)
  {
    var pager := cursor.tree.pager;
    var nv := new Page<PageBody>(pager.blank);
    var source := new Page<PageBody>(pager.blank);
    var holding := new Page<PageBody>(pager.blank);
    var key, stored := 0, false;
    ghost var path, cur, at, e := path0, cur0, at0, NewEntry(payload);
    ghost var pages0, first := pager.contents, PlugAll(path, WithEntry(cur, at, e));
    ghost var lands := Lands(pager.pageSize, pager.contents, path, cur.id, at, payload, e.item.body, stored);
    pager.NoPageZero();
    StartUnderway(pager.pageSize, pager.contents, cursor.tree.rootPageId, target, height, path, cur, at, payload);
    while true
      invariant cursor.Valid() && pager.Valid()
      invariant fresh(nv) && fresh(source) && fresh(holding) && nv != source && source != holding && nv != holding
      invariant cur.Branch? && Standing(cursor.Stack(), base, path, cur, at)
      invariant Climbing(pager.pageSize, pager.contents, cursor.tree.rootPageId, target, height, path, cur, at, e,
        stored)
      invariant Waiting(pager.pageSize, e, key, payload, source, stored)
      invariant Underway(pager.pageSize, pages0, pager.contents, path0, cur0, first, lands, payload, path, cur, at, e,
        stored)
      invariant BeforeSplits(pager.pageSize, pages0, pager.contents, cur0.id, payload, stored)
      decreases |path|
    {
      var done;
      ghost var pages, path', cur', at', e' := pager.contents, path, cur, at, e;
      status, done, key, t, height', path, cur, at, e :=
        InsertAtLevel(cursor, nv, holding, source, key, payload, stored, base, target, height, path, cur, at, e);
      FirstTurn(pager.pageSize, pages0, pages, pager.contents, cursor.tree.rootPageId, target, height, path', cur', at',
                e', stored, payload, status, done, t, height', path, cur, at, e, cur0.id);
      if done || status != Ok {
        UnderwayNoMore(pager.pageSize, pages0, pages, pager.contents, cursor.tree.rootPageId, target, height,
                       path0, cur0, first, lands, payload, path', cur', at', e', stored, status, done, t, height',
                       path, cur, at, e);
        return;
      }
      UnderwayAgain(pager.pageSize, pages0, pages, pager.contents, cursor.tree.rootPageId, target, height,
                    path0, cur0, first, lands, payload, path', cur', at', e', stored, t, height', path, cur, at, e);
      stored := true;
      source, holding := holding, source;
    }
  }

  lemma {:induction false} StartUnderway(
      pageSize: nat, pages: Pages, root: nat, target: seq<Record>, height: nat, path: Path, cur: Tree, at: nat,
      payload: bytes)
    requires Climbing(pageSize, pages, root, target, height, path, cur, at, NewEntry(payload), false) && 0 !in pages
    ensures Underway(pageSize, pages, pages, path, cur, PlugAll(path, WithEntry(cur, at, NewEntry(payload))),
                     Lands(pageSize, pages, path, cur.id, at, payload, Inline(payload), false), payload,
                     path, cur, at, NewEntry(payload), false)
    ensures pageSize >= MIN_PAGE_SIZE
  {
    CurrentNode(pageSize, pages, root, target, height, path, cur, at, NewEntry(payload), false);
  }

  // ---- ibtree_insert_ex ----

  /** A well-formed index tree can be read from the pages, with its root on page `root`. */
  ghost predicate HasIndexTree(pageSize: nat, pages: Pages, root: nat) {
    exists t: Tree, height: nat :: IsIndexTree(pageSize, pages, t, height) && t.id == root
  }

  lemma {:induction false} TornHasNone(pageSize: nat, pages: Pages, t: Tree)
    requires t.Branch? && Represents(Torn, pages, t) && HasGap(t) && 0 !in pages
    ensures !HasIndexTree(pageSize, pages, t.id)
  {
    forall u: Tree, height: nat | u.Branch? && u.id == t.id ensures !IsIndexTree(pageSize, pages, u, height) {
      NoTreeWithGap(pages, t, u);
    }
  }

  /** The tree that a refused insert leaves has all records if and only if the old one was a single leaf. */
  ghost predicate KeepsIfLeaf(pageSize: nat, pages: Pages, t: Tree, t': Tree, height': nat) {
    && IsIndexTree(pageSize, pages, t', height') && t.Branch? && t'.id == t.id
    && if t.leaf then Contents(Index, t') == Contents(Index, t)
       else |Contents(Index, t')| < |Contents(Index, t)|
  }

  lemma {:induction false} RefusedInLeaf(
      pageSize: nat, pages: Pages, t: Tree, height: nat, payload: bytes, path: Path, node: Tree, index: nat,
      t': Tree, height': nat)
    requires t.Branch? && Balanced(t, height) && node.Branch? && node.leaf && PlugAll(path, node) == t
    requires index <= |node.entries|
    requires Remains(pageSize, pages, t.id, Target(t, path, node, index, payload), PlanHeight(node, height), node,
                     path == [], t', height')
    ensures KeepsIfLeaf(pageSize, pages, t, t', height')
  {
    PlugBalanced(path, node, height);
    InsertedLength(Contents(Index, t), Record(0, payload));
  }

  /** The node on the page takes a payload of this size without overflow, or its first bytes and two numbers. */
  ghost predicate TakesSize(pageSize: nat, pages: Pages, id: nat, size: nat) {
    && id in pages && pages[id].NodeBody?
    && var heap := pageSize - 20;
       var free := heap - HeapUsed(pages[id].node.cells);
       if 4 * (size + 16) <= heap then size + 16 <= free else 24 <= free
  }

  lemma {:induction false} AtOnceInNumbers(pageSize: nat, pages: Pages, id: nat, payload: bytes)
    requires pageSize >= MIN_PAGE_SIZE
    ensures AtOnce(pageSize, pages, id, payload) <==> TakesSize(pageSize, pages, id, |payload|)
  {
    if id in pages && pages[id].NodeBody? { AcceptsInNumbers(pageSize, 0, pages[id].node.cells, |payload|); }
  }

  /** The new entry in its place leaves no node empty, not even the only leaf of an empty tree. */
  lemma {:induction false} StartFilled(t: Tree, height: nat, path: Path, node: Tree, index: nat, payload: bytes)
    requires node.Branch? && index <= |node.entries| && PlugAll(path, node) == t && Balanced(t, height) && t.Branch?
    ensures NodesFilled(t) || (t.leaf && t.entries == [])
      ==> NodesFilled(PlugAll(path, WithEntry(node, index, NewEntry(payload))))
  {
    var e := NewEntry(payload);
    FilledEntry(node, index, e);
    if NodesFilled(t) {
      FilledUnder(path, node);
      FilledSwap(path, node, WithEntry(node, index, e));
    } else if t.leaf && t.entries == [] {
      PlugBalanced(path, node, height);
      assert path == [] && node == t;
    }
  }

  /** The insert at the place where the search stopped. */
  method InsertLocated(
      cursor: Cursor, payload: bytes, ghost base: seq<Crumb>, ghost t: Tree, ghost height: nat,
      ghost found: bool, ghost path: Path, ghost node: Tree, ghost index: nat)
    returns (status: Status, ghost t': Tree, ghost height': nat)
    requires cursor.Valid() && cursor.tree.pager.Valid()
    requires cursor !in cursor.tree.pager.Repr && cursor.breadcrumbs !in cursor.tree.pager.Repr
    requires IsIndexTree(cursor.tree.pager.pageSize, cursor.tree.pager.contents, t, height)
    requires t.id == cursor.tree.rootPageId
    requires Increasing(Contents(Index, t)) && Located(t, payload, found, path, node, index)
    requires Represents(Index, cursor.tree.pager.contents, node)
    requires PathRepresents(Index, cursor.tree.pager.contents, path, node.id)
    requires cursor.Stack() == Crumbs(base, path) + [Crumb(KeyIndexOf(node, index), node.id)]
    modifies cursor.tree.pager.Repr, cursor, cursor.breadcrumbs
    ensures cursor.tree.pager.Valid() && status in {Ok, NotEnoughSpace}
    ensures status == Ok <==>
      Lands(cursor.tree.pager.pageSize, old(cursor.tree.pager.contents), path, node.id, index, payload, Inline(payload),
        false)
    ensures status == Ok && node.leaf ==>
      && IsIndexTree(cursor.tree.pager.pageSize, cursor.tree.pager.contents, t', height')
      && Contents(Index, t') == Inserted(Contents(Index, t), Record(0, payload))
      && (Increasing(Contents(Index, t')) <==> !found)
      && height <= height' <= height + 1
    ensures status == Ok && !node.leaf ==> Represents(Torn, cursor.tree.pager.contents, t') && HasGap(t')
    ensures status == NotEnoughSpace && node.leaf ==>
      KeepsIfLeaf(cursor.tree.pager.pageSize, cursor.tree.pager.contents, t, t', height')
    ensures status == Ok ==>
      && t'.Branch? && t'.id == cursor.tree.rootPageId
      && Accounted(old(cursor.tree.pager.contents), cursor.tree.pager.contents, TreePages(t), TreePages(t'))
    ensures NodesFilled(t) || (t.leaf && t.entries == []) ==> NodesFilled(t')
    ensures AtOnce(cursor.tree.pager.pageSize, old(cursor.tree.pager.contents), node.id, payload) ==>
      && status == Ok && (node.leaf ==> height' == height)
      && ChangedOnly(old(cursor.tree.pager.contents), cursor.tree.pager.contents, node.id)
    ensures Outside(old(cursor.tree.pager.contents), cursor.tree.pager.contents, TreePages(t))
  {
    ghost var pages := cursor.tree.pager.contents;
    StartFilled(t, height, path, node, index, payload);
    StartClimb(cursor.tree.pager.pageSize, pages, t, height, payload, found, path, node, index);
    status, t', height' := InsertAtCursor(
      cursor, payload, base, Target(t, path, node, index, payload), PlanHeight(node, height), path, node, index);
    OutsideMore(pages, cursor.tree.pager.contents, PathPages(path) + multiset{node.id}, TreePages(t));
    if status == NotEnoughSpace && node.leaf {
      RefusedInLeaf(cursor.tree.pager.pageSize, cursor.tree.pager.contents, t, height, payload, path, node, index, t',
                    height');
    }
  }

  /**
    ibtree_insert_ex. The insert ends well exactly when the pages on the way up from the slot where the search stopped
    have room, which can be read off them beforehand. It leaves a well-formed tree if and only if no internal node
    held the payload. That tree keeps its root page and has the record in its place, next to its twin if a leaf held
    the payload already. An insert that is refused leaves a well-formed tree too, and that tree has all the records if
    and only if the old one was a single leaf. The tree of an insert that ends well owns the pages there were and
    every new one; no page outside the old tree ever changes.
  */
  method Insert(tree: BTree, payload: bytes, ghost t: Tree, ghost height: nat)
    returns (status: Status, ghost t': Tree, ghost height': nat, ghost path: Path, ghost node: Tree, ghost index: nat)
    requires tree.pager.Valid() && tree.kind == Index && payload != []
    requires IsIndexTree(tree.pager.pageSize, tree.pager.contents, t, height) && t.id == tree.rootPageId
    requires Increasing(Contents(Index, t))
    modifies tree.pager.Repr
    ensures tree.pager.Valid() && status in {Ok, NotEnoughSpace, DepthExceeded, Unknown}
    ensures status == DepthExceeded ==> height >= 8
    ensures status == Ok && !InnerHolds(t, payload) ==> height < 8
    ensures status == Unknown ==>
      && node.Branch? && PlugAll(path, node) == t
      && exists i :: 0 <= i < |node.entries| && Window(node.entries[i].item.body) == []
    ensures status in {DepthExceeded, Unknown} ==> tree.pager.contents == old(tree.pager.contents)
    ensures status in {Ok, NotEnoughSpace} ==>
      && Located(t, payload, !Absent(t, payload), path, node, index)
      && (status == Ok <==>
          Lands(tree.pager.pageSize, old(tree.pager.contents), path, node.id, index, payload, Inline(payload), false))
    ensures status == Ok ==>
      && (HasIndexTree(tree.pager.pageSize, tree.pager.contents, tree.rootPageId) <==> !InnerHolds(t, payload))
      && t'.Branch? && t'.id == tree.rootPageId
      && Accounted(old(tree.pager.contents), tree.pager.contents, TreePages(t), TreePages(t'))
    ensures status == Ok && !InnerHolds(t, payload) ==>
      && IsIndexTree(tree.pager.pageSize, tree.pager.contents, t', height')
      && Contents(Index, t') == Inserted(Contents(Index, t), Record(0, payload))
      && (Increasing(Contents(Index, t')) <==> Absent(t, payload))
      && height <= height' <= height + 1
    ensures status == NotEnoughSpace && !InnerHolds(t, payload) ==>
      KeepsIfLeaf(tree.pager.pageSize, tree.pager.contents, t, t', height')
    ensures status in {Ok, NotEnoughSpace} && (NodesFilled(t) || (t.leaf && t.entries == [])) ==> NodesFilled(t')
    ensures status == NotEnoughSpace ==>
      !TakesSize(tree.pager.pageSize, old(tree.pager.contents), node.id, |payload|)
    ensures status == Ok && TakesSize(tree.pager.pageSize, old(tree.pager.contents), node.id, |payload|) ==>
      && (node.leaf ==> height' == height)
      && ChangedOnly(old(tree.pager.contents), tree.pager.contents, node.id)
    ensures EvenFor(tree.pager.pageSize, t, payload) ==> status != NotEnoughSpace
    ensures Outside(old(tree.pager.contents), tree.pager.contents, TreePages(t))
  {
    var cursor := new Cursor(tree);
    t', height' := t, height;
    ghost var base, pages := cursor.Stack(), tree.pager.contents;
    var found;
    status, found, path, node, index := TraverseTo(cursor, payload, t, height);
    if status != Ok {
      return;
    }
    FoundIfPresent(t, payload, found, path, node, index, height);
    StopsInLeaf(t, payload, found, path, node, index, height);
    if EvenFor(tree.pager.pageSize, t, payload) {
      EvenForLands(tree.pager.pageSize, pages, t, height, path, node, index, payload);
    }
    AtOnceInNumbers(tree.pager.pageSize, pages, node.id, payload);
    status, t', height' := InsertLocated(cursor, payload, base, t, height, found, path, node, index);
    tree.pager.NoPageZero();
    if status == Ok && !node.leaf { TornHasNone(tree.pager.pageSize, tree.pager.contents, t'); }
  }
}
