/**
  A node as a sequence of cells and the same node in its page (src/btree_cell.c, src/btree_node.c). Inserting a cell
  is the same on both. Removing one is the same only if no cell of the page slides on top of a later one; otherwise
  the page loses cells (Compaction.LosslessIffSlidesClear), and what the other modules prove of nodes then does not
  hold of the page.
*/
module NodeOnPage {
  import opened Bytes
  import opened Node
  import opened Compaction
  import opened SlottedPage

  // ---- the encoding of cells ----

  const INLINE_CELL: nat := 1
  const OVERFLOW_CELL: nat := 2

  /** The numbers of the cell fit their fields. */
  predicate Encodable(body: Body) {
    match body
    case Inline(payload) => |payload| < TWO_32
    case Overflow(total, page, prefix) => total < TWO_32 && page < TWO_32 && 8 + |prefix| < TWO_32
  }

  function FlagsOf(body: Body): nat { if body.Inline? then INLINE_CELL else OVERFLOW_CELL }

  /** What follows the size of a cell: the payload, or total size, first overflow page and prefix. */
  function CellPayload(body: Body): (b: bytes)
    requires Encodable(body)
    ensures 4 + |b| == DiskSize(body) && |b| < TWO_32
  {
    match body
    case Inline(payload) => payload
    case Overflow(total, page, prefix) => WriteLe32(total) + WriteLe32(page) + prefix
  }

  /** btree_cell_read_inline and btree_cell_read_overflow_ex. */
  function ReadBody(flags: nat, payload: bytes): Body {
    if flags == OVERFLOW_CELL && |payload| >= 8 then Overflow(ReadLe32(payload), ReadLe32(payload[4..]), payload[8..])
    else Inline(payload)
  }

  /** A cell reads back as it was written. */
  lemma {:induction false} ReadBodyOfWritten(body: Body)
    requires Encodable(body)
    ensures ReadBody(FlagsOf(body), CellPayload(body)) == body
  {
    match body
    case Inline(_) =>
    case Overflow(total, page, prefix) =>
      var b := CellPayload(body);
      Le32RoundTrip(total, WriteLe32(page) + prefix);
      Le32RoundTrip(page, prefix);
      assert b == WriteLe32(total) + (WriteLe32(page) + prefix);
      assert b[4..] == WriteLe32(page) + prefix && b[8..] == prefix;
  }

  function StoredCell(cell: Cell): Stored
    requires Encodable(cell.body)
  {
    Stored(cell.key, FlagsOf(cell.body), CellOf(CellPayload(cell.body)))
  }

  /** The fields of an overflow cell, one after the other. */
  lemma {:induction false} OverflowFields(size: nat, total: nat, page: nat, prefix: bytes, s: bytes)
    requires size < TWO_32 && total < TWO_32 && page < TWO_32
    requires s == WriteLe32(size) + (WriteLe32(total) + WriteLe32(page) + prefix)
    ensures |s| == 12 + |prefix|
    ensures ReadLe32(s[4..]) == total && ReadLe32(s[8..]) == page && s[12..] == prefix
  {
    assert s[4..] == WriteLe32(total) + (WriteLe32(page) + prefix);
    assert s[8..] == WriteLe32(page) + prefix;
    Le32RoundTrip(total, WriteLe32(page) + prefix);
    Le32RoundTrip(page, prefix);
  }

  /**
    The bytes of a cell: four for the size of what follows; in an overflow cell then four for the size of the whole
    payload and four for the first overflow page; and the payload or its prefix. The flags of the slot tell which.
  */
  lemma {:induction false} BytesOfCell(cell: Cell)
    requires Encodable(cell.body)
    ensures
      var s := StoredCell(cell);
      && s.key == cell.key && |s.cell| == DiskSize(cell.body) && ReadLe32(s.cell) == |s.cell| - 4
      && match cell.body
         case Inline(payload) => s.flags == 1 && s.cell[4..] == payload
         case Overflow(total, page, prefix) =>
           && s.flags == 2 && |s.cell| == 12 + |prefix| && ReadLe32(s.cell[4..]) == total
           && ReadLe32(s.cell[8..]) == page && s.cell[12..] == prefix
  {
    var b := CellPayload(cell.body);
    Le32RoundTrip(|b|, b);
    match cell.body
    case Inline(_) =>
    case Overflow(total, page, prefix) => OverflowFields(|b|, total, page, prefix, StoredCell(cell).cell);
  }

  // ---- nodes on pages ----

  ghost predicate AllEncodable(cells: seq<Cell>) { forall i :: 0 <= i < |cells| ==> Encodable(cells[i].body) }

  ghost predicate Encodes(v: seq<Stored>, cells: seq<Cell>) {
    && AllEncodable(cells) && |v| == |cells|
    && forall i :: 0 <= i < |cells| ==> v[i] == StoredCell(cells[i])
  }

  /** The slots of the page are the cells of the node, in order. */
  ghost predicate OnPage(page: SlottedPage, cells: seq<Cell>)
    reads page
  {
    Encodes(page.Contents(), cells)
  }

  lemma {:induction false} InsertEncoded(v: seq<Stored>, cells: seq<Cell>, at: nat, cell: Cell)
    requires Encodes(v, cells) && at <= |cells| && Encodable(cell.body)
    ensures Encodes(InsertAt(v, at, StoredCell(cell)), InsertAt(cells, at, cell))
  {
    var c := InsertAt(cells, at, cell);
    assert forall i :: 0 <= i < |c| ==> c[i] == if i < at then cells[i] else if i == at then cell else cells[i - 1];
  }

  lemma {:induction false} RemoveEncoded(v: seq<Stored>, cells: seq<Cell>, at: nat)
    requires Encodes(v, cells) && at < |cells|
    ensures Encodes(RemoveAt(v, at), RemoveAt(cells, at))
  {
    var c := RemoveAt(cells, at);
    assert forall i :: 0 <= i < |c| ==> c[i] == cells[if i < at then i else i + 1];
  }

  lemma {:induction false} HeapUsedOfSizes(cells: seq<Cell>, sizes: seq<nat>)
    requires |sizes| == |cells| && forall i :: 0 <= i < |cells| ==> sizes[i] == DiskSize(cells[i].body)
    ensures HeapUsed(cells) == SLOT * |cells| + Sum(sizes)
  {
    if cells != [] { HeapUsedOfSizes(cells[..|cells| - 1], sizes[..|sizes| - 1]); }
  }

  /** The counters of the page and of the node agree. */
  lemma {:induction false} SameFreeHeap(page: SlottedPage, cells: seq<Cell>)
    requires page.Valid() && OnPage(page, cells)
    ensures page.freeHeap == FreeHeap(page.heap.Length, cells)
    ensures |page.slots| == |page.sizes| == |cells|
  {
    IntactSizes(page.image, page.slots, page.sizes, page.highWater, page.seal);
    forall i | 0 <= i < |cells| ensures page.sizes[i] == DiskSize(cells[i].body) {
      assert page.Contents()[i] == StoredCell(cells[i]);
    }
    HeapUsedOfSizes(cells, page.sizes);
  }

  /** Inserting a cell into the page is inserting it into the node. */
  method InsertOnPage(page: SlottedPage, at: nat, cell: Cell, ghost node: Node) returns (status: Status)
    requires page.Valid() && OnPage(page, node.cells) && at <= |node.cells| && Encodable(cell.body)
    modifies page, page.heap
    ensures page.Valid()
    ensures status == InsertCell(page.heap.Length, node, at, cell).0
    ensures OnPage(page, InsertCell(page.heap.Length, node, at, cell).1.cells)
  {
    SameFreeHeap(page, node.cells);
    InsertEncoded(page.Contents(), node.cells, at, cell);
    status := page.Insert(at, cell.key, FlagsOf(cell.body), CellPayload(cell.body));
  }

  /** Removing a cell from the page is removing it from the node, when no cell slides on top of a later one. */
  method RemoveOnPage(page: SlottedPage, at: nat, ghost cells: seq<Cell>)
    requires page.Valid() && OnPage(page, cells) && at < |cells| && |page.slots| == |page.sizes| == |cells|
    requires SlidesClear(RemoveAt(page.slots, at), RemoveAt(page.sizes, at), page.slots[at].offset, page.sizes[at])
    modifies page, page.heap
    ensures page.Valid() && OnPage(page, RemoveAt(cells, at))
    ensures page.freeHeap == FreeHeap(page.heap.Length, RemoveAt(cells, at))
  {
    RemoveEncoded(page.Contents(), cells, at);
    page.Remove(at);
    SameFreeHeap(page, RemoveAt(cells, at));
  }
}
