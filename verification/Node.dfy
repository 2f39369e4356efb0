/**
  Nodes as the tree algorithms see them (src/btree_node.c, src/btree_cell.c): a sequence of cells and a right child.
  NodeOnPage.dfy joins them to the bytes of a page: insertion is the same on both, and removal is when no cell of the
  page slides on top of a later one.
*/
module Node {
  import opened Bytes

  const PAGE_HEADER: nat := 20
  const SLOT: nat := 12
  const OVERFLOW_CELL_MIN: nat := 12
  const FILE_HEADER: nat := 100
  const MIN_CELLS_PER_PAGE: nat := 4
  /** The smallest page a tree accepts: four overflow cells on page 1. */
  const MIN_PAGE_SIZE: nat := FILE_HEADER + 4 * (OVERFLOW_CELL_MIN + SLOT) + PAGE_HEADER

  datatype Status =
    | Ok
    | NotEnoughSpace
    | KeyNotFound
    | NoParent
    | NoSibling
    | DepthExceeded
    | CorruptCell
    | Underflow
    | ParentDeficient
    | Paging
    | BufferTooSmall
    | IterDone
    | Unknown

  /** The heap part of a cell. An overflow cell keeps a prefix of its payload and names the first overflow page. */
  datatype Body = Inline(payload: bytes) | Overflow(totalSize: nat, overflowPage: nat, inlinePayload: bytes)

  /** A slot: its key (in an index tree: the left child) and the cell it points to. */
  datatype Cell = Cell(key: nat, body: Body)

  datatype Node = Node(isLeaf: bool, cells: seq<Cell>, rightChild: nat)

  datatype PageBody = Blank | NodeBody(node: Node) | OverflowBody(next: nat, payload: bytes)

  const EMPTY_NODE: Node := Node(false, [], 0)

  /** Reading a page as a node; a zeroed page is an empty non-leaf node. */
  function NodeOf(page: PageBody): Node { if page.NodeBody? then page.node else EMPTY_NODE }

  function DiskSize(body: Body): nat {
    match body
    case Inline(payload) => 4 + |payload|
    case Overflow(_, _, inlinePayload) => OVERFLOW_CELL_MIN + |inlinePayload|
  }

  function HeapRequired(body: Body): nat { DiskSize(body) + SLOT }

  function HeapUsed(cells: seq<Cell>): nat {
    if cells == [] then 0 else HeapUsed(cells[..|cells| - 1]) + HeapRequired(cells[|cells| - 1].body)
  }

  function Capacity(pageSize: nat, pageId: nat): int {
    pageSize - PAGE_HEADER - if pageId == 1 then FILE_HEADER else 0
  }

  function MaxCellSize(capacity: nat): nat { capacity / MIN_CELLS_PER_PAGE }

  function FreeHeap(capacity: int, cells: seq<Cell>): int { capacity - HeapUsed(cells) }

  function InsertAt<T>(s: seq<T>, at: nat, x: T): (r: seq<T>)
    requires at <= |s|
    ensures |r| == |s| + 1 && r[at] == x
  {
    s[..at] + [x] + s[at..]
  }

  function RemoveAt<T>(s: seq<T>, at: nat): (r: seq<T>)
    requires at < |s|
    ensures |r| == |s| - 1
  {
    s[..at] + s[at + 1..]
  }

  lemma {:induction false} HeapUsedConcat(a: seq<Cell>, b: seq<Cell>)
    ensures HeapUsed(a + b) == HeapUsed(a) + HeapUsed(b)
  {
    if b == [] {
      assert a + b == a;
    } else {
      var b' := b[..|b| - 1];
      assert (a + b)[..|a + b| - 1] == a + b';
      HeapUsedConcat(a, b');
    }
  }

  lemma {:induction false} HeapUsedInsert(cells: seq<Cell>, at: nat, cell: Cell)
    requires at <= |cells|
    ensures HeapUsed(InsertAt(cells, at, cell)) == HeapUsed(cells) + HeapRequired(cell.body)
  {
    assert cells == cells[..at] + cells[at..];
    assert HeapUsed([cell]) == HeapRequired(cell.body) by { assert [cell][..0] == []; }
    HeapUsedConcat(cells[..at], cells[at..]);
    HeapUsedConcat(cells[..at], [cell]);
    HeapUsedConcat(cells[..at] + [cell], cells[at..]);
  }

  /** btree_node_insert_inline_ex and btree_node_insert_overflow: refused when the free heap is too small. */
  function InsertCell(capacity: int, node: Node, at: nat, cell: Cell): (r: (Status, Node))
    requires at <= |node.cells|
    ensures r.0 == Ok || (r.0 == NotEnoughSpace && r.1 == node)
    ensures r.0 == Ok <==> HeapUsed(node.cells) + HeapRequired(cell.body) <= capacity
  {
    if FreeHeap(capacity, node.cells) < HeapRequired(cell.body) then (NotEnoughSpace, node)
    else (Ok, node.(cells := InsertAt(node.cells, at, cell)))
  }
}
