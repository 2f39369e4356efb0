/**
  Deleting from an index tree (delete_single in src/ibtree.c). A key in an internal node is replaced by the largest
  payload of its left subtree, which is promoted out of a leaf. Cells are removed from nodes as sequences of cells;
  NodeOnPage.dfy says when that is what happens on the page.
*/
module IndexDelete {
  import opened Bytes
  import opened Node
  import opened NodeMove
  import opened Pager
  import opened Overflow
  import opened Tree
  import opened Order
  import opened Cursor
  import opened Search
  import opened Climb
  import opened Presence
  import opened Room
  import opened Filled
  import opened IndexTree
  import opened Traverse
  import opened Deletion

  // ---- delete_single ----

  /** ibtree_node_remove: the node without the cell; without its right child, the last child becomes the right child. */
  function NodeRemove(node: Node, keyIndex: KeyIndex): (Status, Node)
    requires keyIndex.mode != End && (keyIndex.mode == At ==> keyIndex.index < |node.cells|)
  {
    if keyIndex.mode == At then (Ok, node.(cells := RemoveAt(node.cells, keyIndex.index)))
    else if node.isLeaf then (KeyNotFound, node)
    else if node.cells == [] then (Unknown, node)
    else
      var last := |node.cells| - 1;
      (Ok, node.(cells := RemoveAt(node.cells, last), rightChild := node.cells[last].key))
  }

  /** Without cell `index`, or without the right child, which the left child of the last cell replaces. */
  function WithoutAt(t: Tree, keyIndex: KeyIndex): Tree
    requires t.Branch? && t.entries != [] && (keyIndex.mode == At ==> keyIndex.index < |t.entries|)
  {
    if keyIndex.mode == At then Shrunk(t, keyIndex.index)
    else
      var last := |t.entries| - 1;
      t.(entries := RemoveAt(t.entries, last), right := t.entries[last].kid)
  }

  /** Removing on the page of a node is removing from the node; of the right child only an internal node can be rid. */
  lemma {:induction false} NodeRemoveMatches(page: PageBody, t: Tree, keyIndex: KeyIndex)
    requires t.Branch? && NodeMatches(Index, page, t) && t.entries != []
    requires keyIndex.mode != End && (keyIndex.mode == At ==> keyIndex.index < |t.entries|)
    ensures NodeRemove(page.node, keyIndex).0 == (if keyIndex.mode == At || !t.leaf then Ok else KeyNotFound)
    ensures NodeRemove(page.node, keyIndex).0 == Ok ==>
      NodeMatches(Index, NodeBody(NodeRemove(page.node, keyIndex).1), WithoutAt(t, keyIndex))
  {
    if keyIndex.mode == At {
      ShrunkMatches(page, t, keyIndex.index);
    } else {
      var last := |t.entries| - 1;
      ShrunkMatches(page, t, last);
      assert CellMatches(Index, t.leaf, page.node.cells[last], t.entries[last]);
    }
  }

  /** What is lost with the right child: its records and that of the cell before it. */
  lemma {:induction false} RightChildLost(t: Tree)
    requires t.Branch? && !t.leaf && t.entries != []
    ensures
      var last := t.entries[|t.entries| - 1];
      Contents(Index, t) ==
        Contents(Index, WithoutAt(t, KeyIndex(RightChild, 0)))
          + ([Record(0, last.item.payload)] + Contents(Index, t.right))
  {
    var n := |t.entries| - 1;
    EntryContentsAt(Index, t.leaf, t.entries, n);
    assert t.entries[n + 1..] == [] && RemoveAt(t.entries, n) == t.entries[..n];
  }

  /** The crumbs have been kept, and the last one, perhaps a new one, names page `id`. */
  ghost predicate LeadsTo(stack: seq<Crumb>, cursor: Cursor, id: nat)
    requires cursor.Valid()
    reads cursor, cursor.breadcrumbs
  {
    stack <= cursor.Stack() && cursor.Stack() != [] && cursor.Stack()[|cursor.Stack()| - 1].pageId == id
  }

  /** Page `id` holds the leaf that gave up a cell; Underflow says that fewer cells are left than the limit. */
  ghost predicate Reports(pages: Pages, id: nat, limit: nat, status: Status) {
    id in pages && pages[id].NodeBody? && (status == Underflow <==> |pages[id].node.cells| < limit)
  }

  lemma {:induction false} FrontKept<T>(front: seq<T>, top: T, stack: seq<T>)
    requires front + [top] <= stack
    ensures front <= stack
  {
    assert forall i :: 0 <= i < |front| ==> stack[i] == (front + [top])[i];
  }

  /** If the page that gave up a cell has one left, no node has become empty. */
  ghost predicate StaysFilled(pages: Pages, id: nat, t: Tree, t': Tree) {
    id in pages && pages[id].NodeBody? && pages[id].node.cells != [] ==> KeepsFilled(t, t')
  }

  /** Pushes the left child of the cell, and then the crumbs down to the leaf that holds the largest cell below it. */
  method GoToLargest(cursor: Cursor, orphan: nat, ghost kid: Tree, ghost height: nat)
    returns (status: Status, leafId: nat, ghost below: Path, ghost leaf: Tree)
    requires cursor.Valid() && cursor.tree.pager.Valid() && cursor.tree.kind == Index
    requires cursor !in cursor.tree.pager.Repr && cursor.breadcrumbs !in cursor.tree.pager.Repr
    requires kid.Branch? && kid.id == orphan && Represents(Index, cursor.tree.pager.contents, kid)
    requires Balanced(kid, height)
    modifies cursor.tree.pager.Repr, cursor, cursor.breadcrumbs
    ensures cursor.Valid() && cursor.tree.pager.Valid()
    ensures cursor.tree.pager.contents == old(cursor.tree.pager.contents) && status in {Ok, DepthExceeded}
    ensures status == DepthExceeded ==> |old(cursor.Stack())| + height > 8 || |old(cursor.Stack())| == 8
    ensures status == Ok ==>
      && Reached(Index, cursor.tree.pager.contents, ToEnd, kid, below, leaf, 1) && leaf.leaf && leafId == leaf.id
      && LastItem(kid) == LastItem(leaf) && LastLeaf(kid) == leaf && LeadsTo(old(cursor.Stack()), cursor, leafId)
  {
    ghost var stack := cursor.Stack();
    leafId, below, leaf := orphan, [], kid;
    status := cursor.PushCrumb(Crumb(KeyIndex(At, 0), orphan));
    if status != Ok {
      return;
    }
    status, below, leaf := TraverseByMover(cursor, ToEnd, kid, height);
    if status != Ok {
      return;
    }
    LastItemBelow(below, leaf, height);
    LastLeafBelow(below, leaf, height);
    StepsGoOn(stack + [Crumb(KeyIndex(At, 0), orphan)], ToEnd, below, leaf.id);
    FrontKept(stack, Crumb(KeyIndex(At, 0), orphan), cursor.Stack());
    var replacement;
    status, replacement := cursor.Peek();
    leafId := replacement.pageId;
  }

  /** The branch of delete_single for an internal node: promotes the largest cell of the left subtree. */
  method Promote(
      cursor: Cursor, nv: Page<PageBody>, holding: Page<PageBody>, crumb: Crumb, orphan: nat,
      ghost pages: Pages, ghost t: Tree, ghost height: nat, ghost path: Path, ghost node: Tree)
    returns (status: Status, ghost t': Tree)
    requires cursor.Valid() && cursor.tree.pager.Valid() && cursor.tree.kind == Index
    requires cursor !in cursor.tree.pager.Repr && cursor.breadcrumbs !in cursor.tree.pager.Repr
    requires nv !in cursor.tree.pager.Repr && holding !in cursor.tree.pager.Repr && nv != holding
    requires crumb.keyIndex.mode == At && crumb.keyIndex.index < |NodeEntries(node)|
    requires FoundAt(cursor.tree.pager.pageSize, pages, t, height, path, node, crumb.keyIndex.index) && !node.leaf
    requires LeavesFilled(t)
    requires CellRemoved(pages, cursor.tree.pager.contents, node.id, crumb.keyIndex.index) && 0 !in pages
    requires Loaded(cursor.tree.pager, nv) && nv.pageId == node.id
    requires node.entries[crumb.keyIndex.index].kid.Branch? && orphan == node.entries[crumb.keyIndex.index].kid.id
    modifies cursor.tree.pager.Repr, nv, holding, cursor, cursor.breadcrumbs
    ensures cursor.Valid() && cursor.tree.pager.Valid() && status in {Ok, DepthExceeded, NotEnoughSpace}
    ensures status == DepthExceeded ==> |old(cursor.Stack())| + height > |path| + 9
    ensures status != DepthExceeded ==>
      (status == Ok <==> Replaceable(cursor.tree.pager.pageSize, pages, node, crumb.keyIndex.index))
    ensures status != Ok ==> cursor.tree.pager.contents == old(cursor.tree.pager.contents)
    ensures status == Ok ==>
      && IsDeletion(cursor.tree.pager.pageSize, pages, cursor.tree.pager.contents, t, t', height,
         node.entries[crumb.keyIndex.index].item)
      && Loaded(cursor.tree.pager, holding) && holding.image.data.NodeBody?
      && holding.pageId == IdOf(Giver(node, crumb.keyIndex.index))
      && LeadsTo(old(cursor.Stack()), cursor, holding.pageId)
      && StaysFilled(cursor.tree.pager.contents, holding.pageId, t, t')
  {
    var pager := cursor.tree.pager;
    ghost var removed := pager.contents;
    ghost var index := crumb.keyIndex.index;
    t' := t;
    ghost var kid, kidHeight := ReadyToPromote(pager.pageSize, pages, t, height, path, node, index);
    FoundStays(pager.pageSize, pages, removed, t, height, path, node, index);
    ghost var below, leaf;
    var leafId;
    status, leafId, below, leaf := GoToLargest(cursor, orphan, kid, kidHeight);
    if status != Ok {
      return;
    }
    status, t' := MoveLast(cursor, nv, holding, crumb.keyIndex.index, leafId, orphan, pages, t, height, path,
                           node, below, leaf);
  }

  function NodeEntries(t: Tree): seq<Entry> { if t.Branch? then t.entries else [] }

  /** noderc_persist_n, with two nodes. */
  method PersistTwo(pager: Pager<PageBody>, a: Page<PageBody>, b: Page<PageBody>)
    requires pager.Valid() && a !in pager.Repr && b !in pager.Repr && a != b
    requires a.pageId in pager.contents && b.pageId in pager.contents && a.pageId > 1 && b.pageId > 1
    modifies pager.Repr, a, b
    ensures pager.Valid() && Loaded(pager, b) && b.pageId == old(b.pageId) && b.image.data == old(b.image.data)
    ensures a.pageId == old(a.pageId)
    ensures pager.contents
      == old(pager.contents)[old(a.pageId) := old(a.image.data)][old(b.pageId) := old(b.image.data)]
  {
    pager.WritePage(a);
    pager.WritePage(b);
  }

  /** Moves the last cell of page `leafId` to slot `at` of the node. */
  method MoveLastPages(
      pager: Pager<PageBody>, nv: Page<PageBody>, holding: Page<PageBody>, at: nat, leafId: nat, orphan: nat)
    returns (status: Status)
    requires pager.Valid() && nv !in pager.Repr && holding !in pager.Repr && nv != holding
    requires Loaded(pager, nv) && nv.image.data.NodeBody? && nv.pageId > 1 && at <= |nv.image.data.node.cells|
    requires leafId in pager.contents && leafId > 1 && leafId != nv.pageId && pager.contents[leafId].NodeBody?
    requires pager.contents[leafId].node.cells != [] && NodeCapacity(pager.pageSize) >= 0
    requires
      var given := pager.contents[leafId].node.cells;
      HeapRequired(given[|given| - 1].body) <= MaxCellSize(NodeCapacity(pager.pageSize))
    modifies pager.Repr, nv, holding
    ensures pager.Valid() && status in {Ok, NotEnoughSpace} && nv.pageId == old(nv.pageId)
    ensures
      var given, taker := old(pager.contents)[leafId].node, old(nv.image.data.node);
      var last := |given.cells| - 1;
      var cell := Cell(orphan, given.cells[last].body);
      && (status == Ok <==>
           HeapUsed(taker.cells) + HeapRequired(cell.body) <= NodeCapacity(pager.pageSize))
      && (status != Ok ==> pager.contents == old(pager.contents))
      && (status == Ok ==>
           && pager.contents
                == old(pager.contents)[nv.pageId := NodeBody(taker.(cells := InsertAt(taker.cells, at, cell)))]
                                      [leafId := NodeBody(given.(cells := RemoveAt(given.cells, last)))]
           && Loaded(pager, holding) && holding.pageId == leafId && holding.image.data.NodeBody?
           && |holding.image.data.node.cells| == last)
  {
    pager.NoPageZero();
    var ok := pager.ReadPage(leafId, holding);
    var given := holding.image.data.node;
    var last := |given.cells| - 1;
    var moved := MoveCell(NodeCapacity(pager.pageSize), nv.image.data.node, at, Cell(orphan, given.cells[last].body));
    status := moved.0;
    if status != Ok {
      return;
    }
    nv.image := nv.image.(data := NodeBody(moved.1));
    var rest := NodeRemove(given, KeyIndex(At, last));
    holding.image := holding.image.(data := NodeBody(rest.1));
    PersistTwo(pager, nv, holding);
  }

  /** What that does to the tree. */
  method MoveLastCell(
      pager: Pager<PageBody>, nv: Page<PageBody>, holding: Page<PageBody>, at: nat, leafId: nat, orphan: nat,
      ghost pages: Pages, ghost t: Tree, ghost height: nat, ghost path: Path, ghost node: Tree, ghost below: Path,
      ghost leaf: Tree)
    returns (status: Status, ghost t': Tree)
    requires pager.Valid()
    requires nv !in pager.Repr && holding !in pager.Repr && nv != holding
    requires FoundAt(pager.pageSize, pages, t, height, path, node, at) && !node.leaf
    requires CellRemoved(pages, pager.contents, node.id, at)
    requires NodesFit(pager.pageSize, pager.contents)
    requires Loaded(pager, nv) && nv.pageId == node.id && node.id > 1
    requires Reached(Index, pager.contents, ToEnd, node.entries[at].kid, below, leaf, 1) && leaf.leaf
    requires leafId == leaf.id
    requires LeavesFilled(node.entries[at].kid)
    requires node.entries[at].kid.Branch? && orphan == node.entries[at].kid.id
    requires LastItem(node.entries[at].kid) == LastItem(leaf)
    modifies pager.Repr, nv, holding
    ensures pager.Valid() && status in {Ok, NotEnoughSpace}
    ensures status == Ok <==> Replaceable(pager.pageSize, pages, node, at)
    ensures status != Ok ==> pager.contents == old(pager.contents)
    ensures status == Ok ==>
      && IsDeletion(pager.pageSize, pages, pager.contents, t, t', height, node.entries[at].item)
      && Loaded(pager, holding) && holding.image.data.NodeBody? && holding.pageId == leafId
      && StaysFilled(pager.contents, leafId, t, t')
  {
    ghost var removed := pager.contents;
    t' := t;
    pager.NoPageZero();
    ReadyToGive(pager.pageSize, removed, t, path, node, at, below, leaf);
    status := MoveLastPages(pager, nv, holding, at, leafId, orphan);
    if status != Ok {
      return;
    }
    LastMoved(pager.pageSize, pages, removed, pager.contents, t, height, path, node, at, below, leaf);
    t' := PlugAll(path, Promoted(node, at, below, leaf));
    if |holding.image.data.node.cells| > 0 { PromotedFilled(path, node, at, below, leaf); }
  }

  /** The same; the cursor stays where it is. */
  method MoveLast(
      cursor: Cursor, nv: Page<PageBody>, holding: Page<PageBody>, at: nat, leafId: nat, orphan: nat,
      ghost pages: Pages, ghost t: Tree, ghost height: nat, ghost path: Path, ghost node: Tree, ghost below: Path,
      ghost leaf: Tree)
    returns (status: Status, ghost t': Tree)
    requires cursor.Valid() && cursor.tree.pager.Valid()
    requires cursor !in cursor.tree.pager.Repr && cursor.breadcrumbs !in cursor.tree.pager.Repr
    requires nv !in cursor.tree.pager.Repr && holding !in cursor.tree.pager.Repr && nv != holding
    requires FoundAt(cursor.tree.pager.pageSize, pages, t, height, path, node, at) && !node.leaf
    requires CellRemoved(pages, cursor.tree.pager.contents, node.id, at)
    requires NodesFit(cursor.tree.pager.pageSize, cursor.tree.pager.contents)
    requires Loaded(cursor.tree.pager, nv) && nv.pageId == node.id && node.id > 1
    requires Reached(Index, cursor.tree.pager.contents, ToEnd, node.entries[at].kid, below, leaf, 1) && leaf.leaf
    requires leafId == leaf.id
    requires LeavesFilled(node.entries[at].kid)
    requires node.entries[at].kid.Branch? && orphan == node.entries[at].kid.id
    requires LastItem(node.entries[at].kid) == LastItem(leaf)
    modifies cursor.tree.pager.Repr, nv, holding
    ensures cursor.Valid() && cursor.Stack() == old(cursor.Stack())
    ensures cursor.tree.pager.Valid() && status in {Ok, NotEnoughSpace}
    ensures status == Ok <==> Replaceable(cursor.tree.pager.pageSize, pages, node, at)
    ensures status != Ok ==> cursor.tree.pager.contents == old(cursor.tree.pager.contents)
    ensures status == Ok ==>
      && IsDeletion(cursor.tree.pager.pageSize, pages, cursor.tree.pager.contents, t, t', height, node.entries[at].item)
      && Loaded(cursor.tree.pager, holding) && holding.image.data.NodeBody? && holding.pageId == leafId
      && StaysFilled(cursor.tree.pager.contents, leafId, t, t')
  {
    status, t' := MoveLastCell(
      cursor.tree.pager, nv, holding, at, leafId, orphan, pages, t, height, path, node, below, leaf);
  }

  /** Page `id` holds a node within its heap that has a cell `i`. */
  ghost predicate HasCell(pageSize: nat, pages: Pages, id: nat, i: nat) {
    && id in pages && id != 1 && pages[id].NodeBody? && Fits(pageSize, pages[id].node)
    && i < |pages[id].node.cells|
  }

  lemma {:induction false} FoundHasCell(
      pageSize: nat, pages: Pages, t: Tree, height: nat, path: Path, node: Tree, index: nat)
    requires FoundAt(pageSize, pages, t, height, path, node, index)
    ensures HasCell(pageSize, pages, node.id, index) && pages[node.id].node.isLeaf == node.leaf
  {
    NodeApart(path, node);
  }

  /** The first half of delete_single: takes the cell out of its page and into the buffer `holding`. */
  method TakeOut(cursor: Cursor, nv: Page<PageBody>, holding: Page<PageBody>) returns (status: Status, crumb: Crumb)
    requires cursor.Valid() && cursor.tree.pager.Valid() && cursor.Stack() != []
    requires cursor !in cursor.tree.pager.Repr && cursor.breadcrumbs !in cursor.tree.pager.Repr
    requires nv !in cursor.tree.pager.Repr && holding !in cursor.tree.pager.Repr && nv != holding
    requires
      var top := cursor.Stack()[|cursor.Stack()| - 1];
      && top.keyIndex.mode == At
      && HasCell(cursor.tree.pager.pageSize, cursor.tree.pager.contents, top.pageId, top.keyIndex.index)
    modifies cursor.tree.pager.Repr, nv, holding
    ensures cursor.Valid() && cursor.tree.pager.Valid() && status == Ok
    ensures cursor.Stack() == old(cursor.Stack()) && crumb == cursor.Stack()[|cursor.Stack()| - 1]
    ensures CellRemoved(old(cursor.tree.pager.contents), cursor.tree.pager.contents, crumb.pageId, crumb.keyIndex.index)
    ensures Loaded(cursor.tree.pager, nv) && nv.pageId == crumb.pageId && nv.image.data.NodeBody?
    ensures nv.image.data.node.isLeaf == old(cursor.tree.pager.contents)[crumb.pageId].node.isLeaf
    ensures
      var i := crumb.keyIndex.index;
      holding.image.data == NodeBody(Node(false, [old(cursor.tree.pager.contents)[crumb.pageId].node.cells[i]], 0))
  {
    var pager := cursor.tree.pager;
    pager.NoPageZero();
    status, crumb := cursor.Peek();
    var ok := pager.ReadPage(crumb.pageId, nv);
    var page := nv.image.data.node;
    var i := crumb.keyIndex.index;
    var held := MoveCell(NodeCapacity(pager.pageSize), EMPTY_NODE, 0, page.cells[i]);
    holding.image := holding.image.(data := NodeBody(held.1));
    var rest := NodeRemove(page, crumb.keyIndex);
    status := rest.0;
    nv.image := nv.image.(data := NodeBody(rest.1));
    pager.WritePage(nv);
  }

  /** How a deletion of cell `index` of the node ends: complete, or with the cell and its left subtree cut off. */
  ghost predicate Outcome(
      pageSize: nat, before: Pages, pages: Pages, status: Status, t: Tree, t': Tree, height: nat, node: Tree,
      index: nat)
  {
    && node.Branch? && index < |node.entries|
    && var e := node.entries[index];
       if status in {Ok, Underflow}
       then IsDeletion(pageSize, before, pages, t, t', height, e.item)
         && (!node.leaf ==> Replaceable(pageSize, before, node, index))
       else
         && !node.leaf && IsCutOff(pageSize, before, pages, t, t', height, e.kid, e.item)
         && (status == NotEnoughSpace ==> !Replaceable(pageSize, before, node, index))
  }

  lemma {:induction false} CellNamesKid(pages: Pages, node: Tree, index: nat)
    requires node.Branch? && !node.leaf && index < |node.entries| && Represents(Index, pages, node)
    ensures node.entries[index].kid.Branch? && pages[node.id].node.cells[index].key == node.entries[index].kid.id
  {
    assert CellMatches(Index, node.leaf, pages[node.id].node.cells[index], node.entries[index]);
  }

  lemma {:induction false} CutOutcome(
      pageSize: nat, pages: Pages, after: Pages, status: Status, t: Tree, height: nat, path: Path, node: Tree,
      index: nat)
    requires FoundAt(pageSize, pages, t, height, path, node, index) && !node.leaf
    requires CellRemoved(pages, after, node.id, index)
    requires status in {DepthExceeded, NotEnoughSpace}
    requires (status == NotEnoughSpace ==> !Replaceable(pageSize, pages, node, index))
    ensures Outcome(pageSize, pages, after, status, t, PlugAll(path, Shrunk(node, index)), height, node, index)
  {
    CutOff(pageSize, pages, after, t, height, path, node, index);
  }

  /** The second half of delete_single, once the key was found. */
  method DeleteFound(
      cursor: Cursor, ghost front: seq<Crumb>, ghost t: Tree, ghost height: nat, ghost path: Path, ghost node: Tree,
      ghost index: nat)
    returns (status: Status, ghost t': Tree, ghost lost: Item)
    requires cursor.Valid() && cursor.tree.kind == Index && cursor.tree.pager.Valid()
    requires cursor !in cursor.tree.pager.Repr && cursor.breadcrumbs !in cursor.tree.pager.Repr
    requires FoundAt(cursor.tree.pager.pageSize, cursor.tree.pager.contents, t, height, path, node, index)
    requires LeavesFilled(t)
    requires cursor.Stack() == front + [Crumb(KeyIndex(At, index), node.id)]
    modifies cursor.tree.pager.Repr, cursor, cursor.breadcrumbs
    ensures cursor.Valid() && cursor.tree.pager.Valid() && status in {Ok, Underflow, DepthExceeded, NotEnoughSpace}
    ensures lost == node.entries[index].item
    ensures status in {Ok, Underflow} ==>
      && Reports(cursor.tree.pager.contents, IdOf(Giver(node, index)), cursor.tree.underflow, status)
      && LeadsTo(front, cursor, IdOf(Giver(node, index)))
      && StaysFilled(cursor.tree.pager.contents, IdOf(Giver(node, index)), t, t')
    ensures status == DepthExceeded ==> |old(cursor.Stack())| + height > |path| + 9
    ensures Outcome(cursor.tree.pager.pageSize, old(cursor.tree.pager.contents), cursor.tree.pager.contents, status, t,
      t', height, node, index)
  {
    var pager := cursor.tree.pager;
    var nv := new Page<PageBody>(pager.blank);
    var holding := new Page<PageBody>(pager.blank);
    ghost var pages := pager.contents;
    pager.NoPageZero();
    var crumb, shrunk;
    FoundHasCell(pager.pageSize, pages, t, height, path, node, index);
    status, crumb := TakeOut(cursor, nv, holding);
    lost := node.entries[index].item;
    if !nv.image.data.node.isLeaf {
      CellNamesKid(pages, node, index);
      status, t' := Promote(cursor, nv, holding, crumb, holding.image.data.node.cells[0].key, pages, t, height, path,
                            node);
      if status != Ok {
        CutOutcome(pager.pageSize, pages, pager.contents, status, t, height, path, node, index);
        t' := PlugAll(path, Shrunk(node, index));
        return;
      }
      shrunk := |holding.image.data.node.cells|;
      FrontKept(front, Crumb(KeyIndex(At, index), node.id), cursor.Stack());
    } else {
      LeafDeleted(pager.pageSize, pages, pager.contents, t, height, path, node, index);
      t' := PlugAll(path, Shrunk(node, index));
      shrunk := |nv.image.data.node.cells|;
      if shrunk > 0 { ShrunkFilled(path, node, index); }
    }
    status := if shrunk < cursor.tree.underflow then Underflow else Ok;
  }

  /** The tree that delete_single is to leave. */
  ghost predicate IsDeleted(
      pageSize: nat, before: Pages, pages: Pages, t: Tree, t': Tree, height: nat, key: bytes, lost: Item)
  {
    && IsIndexTree(pageSize, pages, t', height) && t.Branch? && t'.id == t.id
    && Contents(Index, t') == Deleted(Contents(Index, t), key) && Increasing(Contents(Index, t'))
    && TreePages(t) == TreePages(t') + ItemPages(lost)
    && pages.Keys == before.Keys && Outside(before, pages, TreePages(t))
  }

  lemma {:induction false} NothingDeleted(pageSize: nat, pages: Pages, t: Tree, height: nat, key: bytes)
    requires IsIndexTree(pageSize, pages, t, height) && Increasing(Contents(Index, t)) && Absent(t, key)
    ensures IsDeleted(pageSize, pages, pages, t, t, height, key, NO_ITEM)
  {
    DeletedAbsent(Contents(Index, t), key);
  }

  /**
    All that delete_single does to the pages. Ok and Underflow: the record is gone, if it was there, and Underflow tells
    how few cells the leaf has left that gave one up. NotEnoughSpace: an internal node holds the key and the largest
    record of the left subtree does not fit in its place. A deletion that goes wrong after the search has cut the left
    subtree off.
  */
  ghost predicate Single(
      pageSize: nat, before: Pages, pages: Pages, limit: nat, status: Status, t: Tree, t': Tree, height: nat,
      key: bytes, path: Path, node: Tree, index: nat, lost: Item)
  {
    && (status in {Ok, Underflow} ==>
         && IsDeleted(pageSize, before, pages, t, t', height, key, lost)
         && if Absent(t, key) then pages == before && t' == t && status == Ok
            else
              && lost.payload == key && index < |NodeEntries(node)|
              && Reports(pages, IdOf(Giver(node, index)), limit, status)
              && StaysFilled(pages, IdOf(Giver(node, index)), t, t'))
    && (status in {Ok, Underflow, NotEnoughSpace} ==>
         && Located(t, key, !Absent(t, key), path, node, index)
         && (status == NotEnoughSpace <==> InnerHolds(t, key) && !Replaceable(pageSize, before, node, index)))
    && (status in {NotEnoughSpace, DepthExceeded} ==>
         || (status == DepthExceeded && pages == before)
         || (InnerHolds(t, key) && index < |NodeEntries(node)| && lost.payload == key
             && IsCutOff(pageSize, before, pages, t, t', height, node.entries[index].kid, lost)))
    && (status == NotEnoughSpace ==> forall cost: nat :: !EvenTree(t, cost))
  }

  /** In an empty tree nothing is found. */
  lemma {:induction false} FoundNotEmpty(t: Tree, height: nat, path: Path, node: Tree, index: nat)
    requires t.Branch? && Balanced(t, height) && node.Branch? && PlugAll(path, node) == t && index < |node.entries|
    ensures !(t.leaf && t.entries == [])
  {
    PlugBalanced(path, node, height);
  }

  lemma {:induction false} AbsentSingle(
      pageSize: nat, pages: Pages, limit: nat, t: Tree, height: nat, key: bytes, path: Path, node: Tree, index: nat)
    requires IsIndexTree(pageSize, pages, t, height) && Increasing(Contents(Index, t))
    requires Located(t, key, false, path, node, index)
    ensures Single(pageSize, pages, pages, limit, Ok, t, t, height, key, path, node, index, NO_ITEM)
  {
    FoundIfPresent(t, key, false, path, node, index, height);
    StopsInLeaf(t, key, false, path, node, index, height);
    NothingDeleted(pageSize, pages, t, height, key);
  }

  lemma {:induction false} FoundSingle(
      pageSize: nat, before: Pages, pages: Pages, limit: nat, status: Status, t: Tree, t': Tree, height: nat,
      key: bytes, path: Path, node: Tree, index: nat)
    requires FoundAt(pageSize, before, t, height, path, node, index) && Located(t, key, true, path, node, index)
    requires LeavesFilled(t) && Increasing(Contents(Index, t))
    requires status in {Ok, Underflow, NotEnoughSpace, DepthExceeded}
    requires Outcome(pageSize, before, pages, status, t, t', height, node, index)
    requires status in {Ok, Underflow} ==>
      && Reports(pages, IdOf(Giver(node, index)), limit, status)
      && StaysFilled(pages, IdOf(Giver(node, index)), t, t')
    ensures Single(pageSize, before, pages, limit, status, t, t', height, key, path, node, index,
                   node.entries[index].item)
  {
    FoundIfPresent(t, key, true, path, node, index, height);
    StopsInLeaf(t, key, true, path, node, index, height);
    FoundOutcome(pageSize, before, pages, status, t, t', height, key, path, node, index);
  }

  lemma {:induction false} FoundOutcome(
      pageSize: nat, before: Pages, pages: Pages, status: Status, t: Tree, t': Tree, height: nat, key: bytes,
      path: Path, node: Tree, index: nat)
    requires FoundAt(pageSize, before, t, height, path, node, index) && node.entries[index].item.payload == key
    requires LeavesFilled(t) && Increasing(Contents(Index, t))
    requires Outcome(pageSize, before, pages, status, t, t', height, node, index)
    ensures status in {Ok, Underflow} ==>
      IsDeleted(pageSize, before, pages, t, t', height, key, node.entries[index].item)
    ensures status == NotEnoughSpace ==> forall cost: nat :: !EvenTree(t, cost)
  {
    if status in {Ok, Underflow} { OneLessDeletes(Contents(Index, t), Contents(Index, t'), Record(0, key)); }
    if status == NotEnoughSpace { NotEven(pageSize, before, t, height, path, node, index); }
  }

  lemma {:induction false} NotEven(
      pageSize: nat, pages: Pages, t: Tree, height: nat, path: Path, node: Tree, index: nat)
    requires FoundAt(pageSize, pages, t, height, path, node, index) && !node.leaf && LeavesFilled(t)
    requires !Replaceable(pageSize, pages, node, index)
    ensures forall cost: nat :: !EvenTree(t, cost)
  {
    forall cost: nat ensures !EvenTree(t, cost) {
      if EvenTree(t, cost) { EvenReplaceable(pageSize, pages, t, height, path, node, index, cost); }
    }
  }

  /**
    delete_single: the tree loses exactly the record with this payload, if it has it. Underflow reports that the leaf
    that gave up a cell is now too small; the deletion itself is then complete. If the largest record of the left
    subtree of an internal cell is too large for its place, or too deep for the cursor, the cell has been removed
    already and stays so: the tree is still well-formed, but that whole subtree is cut off from it.
  */
  method DeleteSingle(cursor: Cursor, key: bytes, ghost t: Tree, ghost height: nat)
    returns (status: Status, ghost t': Tree, ghost lost: Item, ghost path: Path, ghost node: Tree, ghost index: nat)
    requires cursor.Valid() && cursor.tree.kind == Index && cursor.tree.pager.Valid() && key != []
    requires cursor !in cursor.tree.pager.Repr && cursor.breadcrumbs !in cursor.tree.pager.Repr
    requires t.Branch? && t.id == cursor.tree.rootPageId && cursor.currentPageId == t.id && |cursor.Stack()| == 1
    requires IsIndexTree(cursor.tree.pager.pageSize, cursor.tree.pager.contents, t, height)
    requires (LeavesFilled(t) || (t.leaf && t.entries == [])) && Increasing(Contents(Index, t))
    modifies cursor.tree.pager.Repr, cursor, cursor.breadcrumbs
    ensures cursor.Valid() && cursor.tree.pager.Valid()
    ensures status in {Ok, Underflow, DepthExceeded, NotEnoughSpace, Unknown}
    ensures status != Unknown ==>
      Single(cursor.tree.pager.pageSize, old(cursor.tree.pager.contents), cursor.tree.pager.contents,
             cursor.tree.underflow, status, t, t', height, key, path, node, index, lost)
    ensures status in {Ok, Underflow} && !Absent(t, key) ==>
      index < |NodeEntries(node)| && LeadsTo(Crumbs(old(cursor.Stack()), path), cursor, IdOf(Giver(node, index)))
    ensures status == DepthExceeded ==> height >= 8
    ensures status == Unknown ==> cursor.tree.pager.contents == old(cursor.tree.pager.contents)
  {
    ghost var pages, base := cursor.tree.pager.contents, cursor.Stack();
    var found;
    t', lost := t, NO_ITEM;
    status, found, path, node, index := TraverseTo(cursor, key, t, height);
    if status == Ok {
      if found {
        CrumbsLength(base, path);
        FoundNotEmpty(t, height, path, node, index);
        status, t', lost := DeleteFound(cursor, Crumbs(base, path), t, height, path, node, index);
        FoundSingle(cursor.tree.pager.pageSize, pages, cursor.tree.pager.contents, cursor.tree.underflow, status, t, t',
                    height, key, path, node, index);
      } else {
        AbsentSingle(cursor.tree.pager.pageSize, pages, cursor.tree.underflow, t, height, key, path, node, index);
      }
    }
  }
}
