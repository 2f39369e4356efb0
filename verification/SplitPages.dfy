/**
  Splitting a full node and writing into one of the halves (split_node, ibta_split_node, ibta_split_node_as_parent and
  the two attempts of ibta_insert_at in src/ibtree_alg.c), as far as the pages are concerned.
*/
module SplitPages {
  import opened Bytes
  import opened Node
  import opened NodeMove
  import opened Pager
  import opened Overflow
  import opened IndexTree
  import opened Climb
  import opened Split
  import opened Room

  /** split_node: the lower cells, the cell in the middle, the upper cells. */
  method SplitCells(pageSize: nat, source: Node) returns (left: Node, middle: Cell, right: Node)
    requires Fits(pageSize, source) && source.cells != []
    ensures left == LeftNode(source, Middle(|source.cells|)) && right == RightNode(source, Middle(|source.cells|))
    ensures middle == source.cells[Middle(|source.cells|)]
    ensures left.cells + [middle] + right.cells == source.cells
    ensures |left.cells| <= |right.cells| <= |left.cells| + 1
  {
    var n := |source.cells|;
    var firstHalf := (n + 1) / 2;
    left := MoveCells(pageSize, source, 0, firstHalf - 1);
    middle := source.cells[firstHalf - 1];
    left := left.(rightChild := middle.key);
    right := MoveCells(pageSize, source, firstHalf, n);
    if !source.isLeaf {
      right := right.(rightChild := source.rightChild);
    }
    left, right := left.(isLeaf := source.isLeaf), right.(isLeaf := source.isLeaf);
    assert source.cells[0..firstHalf - 1] == source.cells[..firstHalf - 1];
    assert source.cells == source.cells[..firstHalf - 1] + [middle] + source.cells[firstHalf..];
    assert source.cells[firstHalf..n] == source.cells[firstHalf..];
  }

  lemma {:induction false} HalvesFit(pageSize: nat, node: Node, m: nat)
    requires Fits(pageSize, node) && m < |node.cells|
    ensures Fits(pageSize, LeftNode(node, m)) && Fits(pageSize, RightNode(node, m))
  {
    FitsSlice(pageSize, node, 0, m, node.isLeaf, node.cells[m].key);
    FitsSlice(pageSize, node, m + 1, |node.cells|, node.isLeaf, RightNode(node, m).rightChild);
    assert node.cells[0..m] == node.cells[..m] && node.cells[m + 1..|node.cells|] == node.cells[m + 1..];
  }

  lemma {:induction false} ParentFits(pageSize: nat, node: Node, m: nat, leftId: nat, rightId: nat)
    requires Fits(pageSize, node) && m < |node.cells|
    ensures Fits(pageSize, Node(false, [Cell(leftId, node.cells[m].body)], rightId))
  {
    var cells := [Cell(leftId, node.cells[m].body)];
    assert cells[..|cells| - 1] == [];
    assert HeapUsed(cells) == HeapUsed([]) + HeapRequired(cells[0].body);
  }

  /** Writing the two halves keeps every node within its heap. */
  lemma {:induction false} HalvesWritten(
      pageSize: nat, pages: Pages, cur: nat, m: nat, leftId: nat, rightId: nat, after: Pages)
    requires cur in pages && cur != 1 && pages[cur].NodeBody? && m < |pages[cur].node.cells|
    requires NodesFit(pageSize, pages)
    requires leftId !in pages && (rightId == cur || rightId !in pages) && rightId != leftId
    requires after
      == pages[rightId := NodeBody(RightNode(pages[cur].node, m))][leftId := NodeBody(LeftNode(pages[cur].node, m))]
    ensures Halved(pages, after, cur, m, leftId, rightId)
    ensures after.Keys == pages.Keys + {leftId, rightId} && NodesFit(pageSize, after)
  {
    HalvesFit(pageSize, pages[cur].node, m);
  }

  /** And so does making the page of the node the parent of the halves. */
  lemma {:induction false} ParentWritten(
      pageSize: nat, pages: Pages, halved: Pages, cur: nat, m: nat, leftId: nat, rightId: nat, after: Pages)
    requires cur in pages && cur != 1 && pages[cur].NodeBody? && m < |pages[cur].node.cells|
    requires NodesFit(pageSize, pages)
    requires Halved(pages, halved, cur, m, leftId, rightId) && rightId != cur && NodesFit(pageSize, halved)
    requires after == halved[cur := NodeBody(Node(false, [Cell(leftId, pages[cur].node.cells[m].body)], rightId))]
    ensures Halved(pages, after, cur, m, leftId, rightId)
    ensures after.Keys == halved.Keys && NodesFit(pageSize, after)
  {
    ParentFits(pageSize, pages[cur].node, m, leftId, rightId);
  }

  /** Two pages hold the cells on both sides of one of `cells`, as many on each, or one more on the right. */
  ghost predicate EvenlyHalved(pages: Pages, left: nat, middle: Cell, right: nat, cells: seq<Cell>) {
    && left in pages && right in pages && pages[left].NodeBody? && pages[right].NodeBody?
    && pages[left].node.cells + [middle] + pages[right].node.cells == cells
    && |pages[left].node.cells| <= |pages[right].node.cells| <= |pages[left].node.cells| + 1
  }

  /**
    ibta_split_node: a new left page takes the lower cells, the node keeps the upper ones, the middle one is held
    back.
  */
  method SplitNode(pager: Pager<PageBody>, nv: Page<PageBody>, holding: Page<PageBody>) returns (leftId: nat)
    requires pager.Valid() && nv !in pager.Repr && holding !in pager.Repr && nv != holding
    requires Loaded(pager, nv) && nv.pageId > 1 && 1 in pager.contents
    requires nv.image.data.NodeBody? && nv.image.data.node.cells != [] && NodesFit(pager.pageSize, pager.contents)
    modifies pager.Repr, nv, holding
    ensures pager.Valid() && Loaded(pager, nv) && nv.pageId == old(nv.pageId) && leftId > 1
    ensures NodesFit(pager.pageSize, pager.contents)
    ensures Halved(old(pager.contents), pager.contents, nv.pageId, Middle(|old(nv.image.data.node.cells)|), leftId,
      nv.pageId)
    ensures pager.contents.Keys == old(pager.contents).Keys + {leftId}
    ensures
      var cells := old(nv.image.data.node.cells);
      && holding.image.data == NodeBody(Node(false, [cells[Middle(|cells|)]], 0))
      && EvenlyHalved(pager.contents, leftId, cells[Middle(|cells|)], nv.pageId, cells)
  {
    ghost var pages := pager.contents;
    var left, middle, right := SplitCells(pager.pageSize, nv.image.data.node);
    var leftNv := new Page<PageBody>(pager.blank);
    var rightNv := new Page<PageBody>(pager.blank);
    rightNv.pageId := nv.pageId;
    leftNv.image := leftNv.image.(data := NodeBody(left));
    rightNv.image := rightNv.image.(data := NodeBody(right));
    holding.image := holding.image.(data := NodeBody(Node(false, [middle], 0)));
    pager.WritePage(rightNv);
    pager.WritePage(leftNv);
    nv.image := nv.image.(data := NodeBody(right));
    leftId := leftNv.pageId;
    HalvesWritten(pager.pageSize, pages, nv.pageId, Middle(|pages[nv.pageId].node.cells|), leftId, nv.pageId,
                  pager.contents);
  }

  /** ibta_split_node_as_parent: two new pages take the halves, and the node becomes their parent. */
  method SplitNodeAsParent(pager: Pager<PageBody>, nv: Page<PageBody>) returns (leftId: nat, rightId: nat)
    requires pager.Valid() && nv !in pager.Repr
    requires Loaded(pager, nv) && nv.pageId > 1 && 1 in pager.contents
    requires nv.image.data.NodeBody? && nv.image.data.node.cells != [] && NodesFit(pager.pageSize, pager.contents)
    modifies pager.Repr, nv
    ensures pager.Valid() && nv.pageId == old(nv.pageId) && leftId > 1 && rightId > 1 && rightId != nv.pageId
    ensures NodesFit(pager.pageSize, pager.contents)
    ensures Halved(old(pager.contents), pager.contents, nv.pageId, Middle(|old(nv.image.data.node.cells)|), leftId,
      rightId)
    ensures
      var node := old(nv.image.data.node);
      var m := Middle(|node.cells|);
      && pager.contents.Keys == old(pager.contents).Keys + {leftId, rightId}
      && pager.contents[nv.pageId] == NodeBody(Node(false, [Cell(leftId, node.cells[m].body)], rightId))
      && EvenlyHalved(pager.contents, leftId, node.cells[m], rightId, node.cells)
  {
    ghost var pages := pager.contents;
    var left, middle, right := SplitCells(pager.pageSize, nv.image.data.node);
    var leftNv := new Page<PageBody>(pager.blank);
    var rightNv := new Page<PageBody>(pager.blank);
    leftNv.image := leftNv.image.(data := NodeBody(left));
    rightNv.image := rightNv.image.(data := NodeBody(right));
    pager.WritePage(leftNv);
    pager.WritePage(rightNv);
    ghost var halved := pager.contents;
    leftId, rightId := leftNv.pageId, rightNv.pageId;
    nv.image := nv.image.(data := NodeBody(Node(false, [Cell(leftId, middle.body)], rightId)));
    pager.WritePage(nv);
    ghost var m: nat := Middle(|pages[nv.pageId].node.cells|);
    assert halved == pages[rightId := NodeBody(right)][leftId := NodeBody(left)];
    HalvesWritten(pager.pageSize, pages, nv.pageId, m, leftId, rightId, halved);
    ParentWritten(pager.pageSize, pages, halved, nv.pageId, m, leftId, rightId, pager.contents);
  }

  /** A stored payload is written as it is, a new one with the overflow pages it needs. */
  lemma {:induction false} StoredIsWrote(
      pageSize: nat, before: Pages, after: Pages, id: nat, at: nat, key: nat, payload: bytes, item: Item, item': Item)
    requires id in before && id != 1 && before[id].NodeBody? && WithinCapacity(pageSize, id, before[id].node)
    requires at <= |before[id].node.cells| && item.payload == payload
    requires StoredAt(pageSize, before, after, id, at, key, payload, item')
    ensures Wrote(pageSize, before, after, id, at, key, item, false, item')
  {
    if item'.body.Inline? { assert item'.chain == []; }
  }

  /** The payload or the cell to be written, as `item`. */
  ghost predicate WaitingItem(pageSize: nat, item: Item, payload: bytes, source: Page<PageBody>, stored: bool)
    reads source
  {
    && pageSize >= MIN_PAGE_SIZE
    && (!stored ==> item.payload == payload)
    && (stored ==>
        && source.image.data.NodeBody? && |source.image.data.node.cells| == 1
        && source.image.data.node.cells[0].body == item.body
        && HeapRequired(item.body) <= MaxCellSize(NodeCapacity(pageSize)))
  }

  /** btree_node_write_ex in both modes: a new payload, or the cell held in another buffer. */
  method WriteEntry(
      pager: Pager<PageBody>, nv: Page<PageBody>, at: nat, key: nat, payload: bytes, source: Page<PageBody>,
      stored: bool, ghost item: Item)
    returns (status: Status, ghost item': Item)
    requires pager.Valid() && nv !in pager.Repr && Loaded(pager, nv) && nv.pageId > 1 && 1 in pager.contents
    requires nv.image.data.NodeBody? && Fits(pager.pageSize, nv.image.data.node) && at <= |nv.image.data.node.cells|
    requires source != nv && WaitingItem(pager.pageSize, item, payload, source, stored)
    requires stored ==> Holds(pager.contents, item) && nv.pageId !in Ids(item.chain)
    modifies pager.Repr, nv
    ensures pager.Valid() && Loaded(pager, nv) && nv.pageId == old(nv.pageId)
    ensures status == Ok || status == NotEnoughSpace
    ensures status == Ok ==>
      Wrote(pager.pageSize, old(pager.contents), pager.contents, nv.pageId, at, key, item, stored, item')
    ensures status != Ok ==>
      && pager.contents == old(pager.contents) && |nv.image.data.node.cells| >= 4
    ensures status == Ok <==> HasRoom(pager.pageSize, old(nv.image.data.node.cells), payload, item.body, stored)
  {
    var capacity := NodeCapacity(pager.pageSize);
    var node := nv.image.data.node;
    if stored {
      item' := item;
      var moved := MoveCell(capacity, node, at, Cell(key, source.image.data.node.cells[0].body));
      status := moved.0;
      if status == Ok {
        nv.image := nv.image.(data := NodeBody(moved.1));
        pager.WritePage(nv);
        assert pager.contents[nv.pageId := old(pager.contents)[nv.pageId]] == old(pager.contents);
        HoldsFrame(old(pager.contents), pager.contents, item);
      } else {
        RefusalMeansFourCells(pager.pageSize, node, HeapRequired(item.body));
      }
    } else {
      status, item' := WriteEx(pager, nv, at, key, payload);
      if status == Ok {
        StoredIsWrote(pager.pageSize, old(pager.contents), pager.contents, nv.pageId, at, key, payload, item, item');
      } else {
        RefusalMeansFourCells(pager.pageSize, node,
          (if FitsInline(capacity, |payload|) then 4 + |payload| else OVERFLOW_CELL_MIN) + SLOT);
      }
    }
  }

  /** Of the pages there were, at most page `id` has changed. */
  ghost predicate ChangedOnly(before: Pages, after: Pages, id: nat) {
    forall x :: x in before && x != id ==> x in after && after[x] == before[x]
  }

  /** Page `id` holds a node with cells. */
  ghost predicate NodeWithCells(
      pages: Pages, id: nat)
  {
    id in pages && pages[id].NodeBody? && pages[id].node.cells != []
  }

  /** The body of the middle cell of a node. */
  ghost function MiddleBody(pages: Pages, id: nat): Body
    requires NodeWithCells(pages, id)
  {
    pages[id].node.cells[Middle(|pages[id].node.cells|)].body
  }

  /** Page `id` holds a node, and the half that a split of it chooses has room. */
  ghost predicate RoomInHalf(pageSize: nat, pages: Pages, id: nat, at: nat, payload: bytes, body: Body, stored: bool) {
    && NodeWithCells(pages, id)
    && HasRoom(pageSize, ChosenHalf(pages[id].node.cells, at), payload, body, stored)
  }

  /** The page that the retry writes to holds the chosen half. */
  lemma {:induction false} RetryHalf(pages: Pages, halved: Pages, cur: nat, at: nat, m: nat, left: nat, right: nat)
    requires Halved(pages, halved, cur, m, left, right) && m == Middle(|pages[cur].node.cells|)
    ensures pages[cur].node.cells != [] && halved[HalfPage(at, m, left, right)].NodeBody?
    ensures halved[HalfPage(at, m, left, right)].node.cells == ChosenHalf(pages[cur].node.cells, at)
  {
  }

  /** A full node on page `id`, and an item to be inserted before its slot `at`. */
  ghost predicate Splittable(pageSize: nat, pages: Pages, id: nat, at: nat, item: Item, stored: bool) {
    && NodeWithCells(pages, id) && id > 1 && 1 in pages && 0 !in pages
    && NodesFit(pageSize, pages) && at <= |pages[id].node.cells|
    && (stored ==> Holds(pages, item) && id !in Ids(item.chain))
  }

  lemma {:induction false} ItemKept(pages: Pages, halved: Pages, item: Item, id: nat, m: nat, left: nat, right: nat)
    requires Halved(pages, halved, id, m, left, right) && Holds(pages, item) && id !in Ids(item.chain)
    ensures Holds(halved, item) && left !in Ids(item.chain) && right !in Ids(item.chain)
  {
    if item.body.Overflow? { ChainInPages(pages, item.chain); }
    HoldsFrame(pages, halved, item);
  }

  /**
    Page `half` holds a node that an item can be written to: the half of node `id` that a split chooses for slot `at`.
  */
  ghost predicate Ready(
      pageSize: nat, pages: Pages, halved: Pages, id: nat, at: nat, half: nat, slot: nat, item: Item, stored: bool)
  {
    && NodeWithCells(pages, id) && ChangedOnly(pages, halved, id)
    && half > 1 && 1 in halved && half in halved && halved[half].NodeBody?
    && Fits(pageSize, halved[half].node) && slot <= |halved[half].node.cells|
    && halved[half].node.cells == ChosenHalf(pages[id].node.cells, at)
    && (stored ==> Holds(halved, item) && half !in Ids(item.chain))
  }

  lemma {:induction false} HalfReady(
      pageSize: nat, pages: Pages, halved: Pages, id: nat, at: nat, item: Item, stored: bool, m: nat, left: nat,
      right: nat)
    requires Splittable(pageSize, pages, id, at, item, stored)
    requires m == Middle(|pages[id].node.cells|) && Halved(pages, halved, id, m, left, right) && left > 1 && right > 1
    ensures Ready(pageSize, pages, halved, id, at, HalfPage(at, m, left, right), HalfSlot(at, m), item, stored)
  {
    HalvesFit(pageSize, pages[id].node, m);
    RetryHalf(pages, halved, id, at, m, left, right);
    if stored { ItemKept(pages, halved, item, id, m, left, right); }
  }

  /**
    The second attempt: into the half that the split has chosen, read from its page unless the buffer holds it
    already.
  */
  method WriteHalf(
      pager: Pager<PageBody>, nv: Page<PageBody>, source: Page<PageBody>, half: nat, read: bool, slot: nat, key: nat,
      payload: bytes, stored: bool,
      ghost pages: Pages, ghost id: nat, ghost at: nat, ghost item: Item)
    returns (status: Status, ghost item': Item)
    requires pager.Valid() && nv !in pager.Repr && source !in pager.Repr && nv != source
    requires Ready(pager.pageSize, pages, pager.contents, id, at, half, slot, item, stored)
    requires !read ==> Loaded(pager, nv) && nv.pageId == half
    requires WaitingItem(pager.pageSize, item, payload, source, stored)
    modifies pager.Repr, nv
    ensures pager.Valid() && status in {Ok, NotEnoughSpace}
    ensures status == Ok ==>
      Wrote(pager.pageSize, old(pager.contents), pager.contents, half, slot, key, item, stored, item')
    ensures status != Ok ==> pager.contents == old(pager.contents)
    ensures RoomInHalf(pager.pageSize, pages, id, at, payload, item.body, stored) <==> status == Ok
  {
    pager.NoPageZero();
    if read {
      var ok := pager.ReadPage(half, nv);
    }
    status, item' := WriteEntry(pager, nv, slot, key, payload, source, stored, item);
  }

  /** The node has been halved, and then the item written into the half of its slot, if that half had room. */
  ghost predicate SplitWrote(
      pageSize: nat, before: Pages, halved: Pages, after: Pages, status: Status, id: nat, at: nat, key: nat,
      payload: bytes,
      item: Item, stored: bool, left: nat, right: nat, item': Item)
  {
    && NodeWithCells(before, id)
    && var m: nat := Middle(|before[id].node.cells|);
    && Halved(before, halved, id, m, left, right) && halved.Keys == before.Keys + {left, right}
    && left > 1 && right > 1 && NodesFit(pageSize, halved) && ChangedOnly(before, halved, id)
    && (status == Ok <==> RoomInHalf(pageSize, before, id, at, payload, item.body, stored))
    && if status == Ok
       then Wrote(pageSize, halved, after, HalfPage(at, m, left, right), HalfSlot(at, m), key, item, stored, item')
       else after == halved
  }

  /** A full node below the root is split, the item goes into one half, and the middle cell into `holding`. */
  method SplitNodeAndWrite(
      pager: Pager<PageBody>, nv: Page<PageBody>, holding: Page<PageBody>, source: Page<PageBody>,
      at: nat, key: nat, payload: bytes, stored: bool, ghost item: Item)
    returns (status: Status, leftId: nat, ghost halved: Pages, ghost item': Item)
    requires pager.Valid() && nv !in pager.Repr && holding !in pager.Repr && source !in pager.Repr
    requires nv != holding && holding != source && nv != source
    requires Loaded(pager, nv) && Splittable(pager.pageSize, pager.contents, nv.pageId, at, item, stored)
    requires WaitingItem(pager.pageSize, item, payload, source, stored)
    modifies pager.Repr, nv, holding
    ensures pager.Valid() && status in {Ok, NotEnoughSpace}
    ensures SplitWrote(pager.pageSize, old(pager.contents), halved, pager.contents, status, old(nv.pageId), at, key,
      payload,
                       item, stored, leftId, old(nv.pageId), item')
    ensures
      var cells := old(nv.image.data.node.cells);
      holding.image.data == NodeBody(Node(false, [cells[Middle(|cells|)]], 0))
  {
    ghost var pages := pager.contents;
    ghost var id := nv.pageId;
    var m: nat := Middle(|nv.image.data.node.cells|);
    leftId := SplitNode(pager, nv, holding);
    halved := pager.contents;
    HalfReady(pager.pageSize, pages, halved, id, at, item, stored, m, leftId, id);
    status, item' := WriteHalf(
      pager, nv, source, HalfPage(at, m, leftId, nv.pageId), at <= m, HalfSlot(at, m), key, payload, stored, pages, id,
      at, item);
  }

  /** The root is full: its page becomes the parent of two halves, and the item goes into one of them. */
  method SplitParentAndWrite(
      pager: Pager<PageBody>, nv: Page<PageBody>, source: Page<PageBody>, at: nat, key: nat, payload: bytes,
      stored: bool, ghost item: Item)
    returns (status: Status, leftId: nat, rightId: nat, ghost halved: Pages, ghost item': Item)
    requires pager.Valid() && nv !in pager.Repr && source !in pager.Repr && nv != source
    requires Loaded(pager, nv) && Splittable(pager.pageSize, pager.contents, nv.pageId, at, item, stored)
    requires WaitingItem(pager.pageSize, item, payload, source, stored)
    modifies pager.Repr, nv
    ensures pager.Valid() && status in {Ok, NotEnoughSpace}
    ensures SplitWrote(pager.pageSize, old(pager.contents), halved, pager.contents, status, old(nv.pageId), at, key,
      payload,
                       item, stored, leftId, rightId, item')
    ensures rightId != old(nv.pageId)
    ensures halved[old(nv.pageId)]
      == NodeBody(Node(false, [Cell(leftId, MiddleBody(old(pager.contents), old(nv.pageId)))], rightId))
  {
    ghost var pages := pager.contents;
    ghost var id := nv.pageId;
    var m: nat := Middle(|nv.image.data.node.cells|);
    leftId, rightId := SplitNodeAsParent(pager, nv);
    halved := pager.contents;
    HalfReady(pager.pageSize, pages, halved, id, at, item, stored, m, leftId, rightId);
    status, item' := WriteHalf(
      pager, nv, source, HalfPage(at, m, leftId, rightId), true, HalfSlot(at, m), key, payload, stored, pages, id, at,
      item);
  }
}
