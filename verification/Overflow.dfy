/**
  Payloads larger than a quarter of a page (src/btree_overflow.c, src/btree_node_writer.c, src/btree_node_reader.c):
  a prefix stays in the cell, the rest goes to a chain of overflow pages. Delete removes the cell from a node as a
  sequence of cells; NodeOnPage.dfy says when that is what happens on the page.
*/
module Overflow {
  import opened Bytes
  import opened Node
  import opened Pager

  type Pages = map<nat, PageBody>

  /** A stored payload: the payload, the cell body that represents it, and the overflow pages it owns. */
  datatype Item = Item(payload: bytes, body: Body, chain: seq<nat>)

  /** Each page of the chain is an overflow page that names the next one; the last names page 0. */
  ghost predicate IsChain(pages: Pages, chain: seq<nat>) {
    chain != [] ==>
      && chain[0] != 0 && chain[0] in pages && pages[chain[0]].OverflowBody?
      && pages[chain[0]].next == Head(chain[1..])
      && IsChain(pages, chain[1..])
  }

  function PartOf(pages: Pages, id: nat): bytes {
    if id in pages && pages[id].OverflowBody? then pages[id].payload else []
  }

  /** What the pages of a chain hold between them, however the bytes are cut. */
  function ChainData(pages: Pages, chain: seq<nat>): bytes {
    if chain == [] then [] else PartOf(pages, chain[0]) + ChainData(pages, chain[1..])
  }

  ghost predicate Holds(pages: Pages, item: Item) {
    match item.body
    case Inline(payload) => payload == item.payload && item.chain == []
    case Overflow(total, first, prefix) =>
      && total == |item.payload| && first == Head(item.chain)
      && IsChain(pages, item.chain)
      && prefix + ChainData(pages, item.chain) == item.payload
  }

  lemma {:induction false} ChainFrame(pages: Pages, pages': Pages, chain: seq<nat>)
    requires IsChain(pages, chain)
    requires forall id :: id in Ids(chain) ==> id in pages ==> id in pages' && pages'[id] == pages[id]
    ensures IsChain(pages', chain) && ChainData(pages', chain) == ChainData(pages, chain)
  {
    if chain != [] { ChainFrame(pages, pages', chain[1..]); }
  }

  lemma {:induction false} ChainInPages(pages: Pages, chain: seq<nat>)
    requires IsChain(pages, chain)
    ensures Ids(chain) <= pages.Keys && 0 !in Ids(chain)
    ensures forall id :: id in Ids(chain) ==> pages[id].OverflowBody?
  {
    if chain != [] { ChainInPages(pages, chain[1..]); }
  }

  lemma {:induction false} HoldsFrame(pages: Pages, pages': Pages, item: Item)
    requires Holds(pages, item)
    requires forall id :: id in Ids(item.chain) ==> id in pages ==> id in pages' && pages'[id] == pages[id]
    ensures Holds(pages', item)
  {
    if item.body.Overflow? { ChainFrame(pages, pages', item.chain); }
  }

  function MaxWriteSize(pageSize: nat): int { pageSize - 8 }

  /** How many overflow pages `n` bytes take. */
  function PagesFor(n: nat, perPage: nat): (pages: nat)
    requires perPage > 0
    ensures pages > 0
  {
    if n <= perPage then 1 else 1 + PagesFor(n - perPage, perPage)
  }

  /** PagesFor is the quotient rounded up. */
  lemma {:induction false} PagesForIsCeiling(n: nat, perPage: nat)
    requires n > 0 && perPage > 0
    ensures (PagesFor(n, perPage) - 1) * perPage < n <= PagesFor(n, perPage) * perPage
  {
    if n > perPage { PagesForIsCeiling(n - perPage, perPage); }
  }

  /** Every page of the chain but the last is full, and the last is not empty. */
  ghost predicate FilledUp(pages: Pages, chain: seq<nat>, perPage: nat) {
    chain != [] ==>
      && (if |chain| == 1 then 0 < |PartOf(pages, chain[0])| <= perPage else |PartOf(pages, chain[0])| == perPage)
      && FilledUp(pages, chain[1..], perPage)
  }

  lemma {:induction false} FilledFrame(pages: Pages, pages': Pages, chain: seq<nat>, perPage: nat)
    requires FilledUp(pages, chain, perPage)
    requires forall id :: id in Ids(chain) ==> id in pages && id in pages' && pages'[id] == pages[id]
    ensures FilledUp(pages', chain, perPage)
  {
    if chain != [] { FilledFrame(pages, pages', chain[1..], perPage); }
  }

  /** So there are as few of them as can be. */
  lemma {:induction false} FilledIsCeiling(pages: Pages, chain: seq<nat>, perPage: nat)
    requires FilledUp(pages, chain, perPage) && chain != []
    ensures (|chain| - 1) * perPage < |ChainData(pages, chain)| <= |chain| * perPage
  {
    var n := |chain|;
    if n == 1 {
      assert chain[1..] == [];
      assert 0 * perPage == 0 && 1 * perPage == perPage;
    } else {
      FilledIsCeiling(pages, chain[1..], perPage);
      assert (n - 1) * perPage == (n - 2) * perPage + perPage && n * perPage == (n - 1) * perPage + perPage;
    }
  }

  /** The inline part of a payload written to a node with `free` bytes of heap left. */
  function InlineSize(capacity: int, free: int): int
    requires capacity >= 0
  {
    (if MaxCellSize(capacity) < free then MaxCellSize(capacity) else free) - (OVERFLOW_CELL_MIN + SLOT)
  }

  /** Writes one overflow page that points to `follow`. */
  method OverflowWrite(pager: Pager<PageBody>, data: bytes, follow: nat) returns (status: Status, pageId: nat)
    requires pager.Valid() && 1 in pager.contents
    modifies pager.Repr
    ensures pager.Valid()
    ensures status == if |data| > MaxWriteSize(pager.pageSize) then NotEnoughSpace else Ok
    ensures status == NotEnoughSpace ==> pager.contents == old(pager.contents) && pager.free == old(pager.free)
    ensures status == Ok ==>
      && pageId > 1 && pageId !in old(pager.contents)
      && pager.contents == old(pager.contents)[pageId := OverflowBody(follow, data)]
  {
    if |data| > MaxWriteSize(pager.pageSize) {
      return NotEnoughSpace, 0;
    }
    var page := new Page<PageBody>(pager.blank);
    page.image := page.image.(data := OverflowBody(follow, data));
    pager.WritePage(page);
    status, pageId := Ok, page.pageId;
  }

  /** The pages of `pages'` are those of `pages`, unchanged, and the new pages of `chain`. */
  ghost predicate Extends(pages: Pages, pages': Pages, chain: seq<nat>) {
    && pages'.Keys == pages.Keys + Ids(chain)
    && pages.Keys !! Ids(chain)
    && (forall id :: id in pages ==> pages'[id] == pages[id])
    && Distinct(chain)
  }

  /** `chain`, headed by `first`, consists of new pages and holds `data`. */
  ghost predicate NewChain(before: Pages, pages: Pages, first: nat, chain: seq<nat>, data: bytes) {
    && Extends(before, pages, chain)
    && IsChain(pages, chain) && first == Head(chain) && ChainData(pages, chain) == data
  }

  lemma {:induction false} ChainGrows(
      before: Pages, pages: Pages, first: nat, chain: seq<nat>, data: bytes, pageId: nat, part: bytes)
    requires NewChain(before, pages, first, chain, data)
    requires pageId != 0 && pageId !in pages
    ensures NewChain(before, pages[pageId := OverflowBody(first, part)], pageId, [pageId] + chain, part + data)
  {
    var pages' := pages[pageId := OverflowBody(first, part)];
    ChainFrame(pages, pages', chain);
    assert ([pageId] + chain)[1..] == chain;
  }

  /** Where overflow page `k` starts in a payload whose inline part ends at `at`. */
  function SliceStart(at: nat, perPage: nat, k: nat): (start: nat)
    ensures start >= at
  {
    if k == 0 then at else SliceStart(at, perPage, k - 1) + perPage
  }

  /** Where the last overflow page of `data[at..]` starts, and how many pages there are. */
  method LastSlice(size: nat, at: nat, perPage: nat) returns (start: nat, pages: nat)
    requires at < size && perPage > 0
    ensures pages == PagesFor(size - at, perPage) > 0
    ensures start == SliceStart(at, perPage, pages - 1) && 0 < size - start <= perPage
  {
    start, pages := at, 1;
    var pageWriteSize := size - at;
    while pageWriteSize > perPage
      invariant pages > 0 && start == SliceStart(at, perPage, pages - 1)
      invariant pageWriteSize == size - start > 0
      invariant pages + PagesFor(pageWriteSize, perPage) == PagesFor(size - at, perPage) + 1
    {
      start := start + perPage;
      pageWriteSize := pageWriteSize - perPage;
      pages := pages + 1;
    }
  }

  /** With `remaining` slices to write: where the next one starts, how wide it is, and how many bytes are written. */
  ghost predicate AtSlice(size: nat, at: nat, perPage: nat, remaining: nat, start: int, width: int, written: int) {
    if remaining == 0 then start == 0 && written == size - at
    else
      && start == SliceStart(at, perPage, remaining - 1)
      && 0 <= written && 0 < width <= perPage && start + width == size - written
  }

  lemma {:induction false} NextSlice(
      size: nat, at: nat, perPage: nat, remaining: nat, start: int, width: int, written: int)
    requires perPage > 0 && remaining > 0 && AtSlice(size, at, perPage, remaining, start, width, written)
    ensures
      var next := start - if remaining == 1 then at else perPage;
      AtSlice(size, at, perPage, remaining - 1, next, perPage, written + width)
    ensures at <= start < start + width <= size && size - (written + width) == start
  {
  }

  lemma {:induction false} AllSlicesWritten(
      size: nat, at: nat, perPage: nat, remaining: nat, start: int, width: int, written: int)
    requires at < size && AtSlice(size, at, perPage, remaining, start, width, written) && written >= size - at
    ensures remaining == 0 && start == 0 && written == size - at
  {
  }

  /** Writes `payload[from..to]` to a page in front of the chain that holds `payload[to..]`. */
  method WriteSlice(
      pager: Pager<PageBody>, payload: bytes, from: nat, to: nat, follow: nat, ghost before: Pages,
      ghost chain: seq<nat>)
    returns (status: Status, pageId: nat, ghost longer: seq<nat>)
    requires pager.Valid() && 1 in pager.contents
    requires from <= to <= |payload| && to - from <= MaxWriteSize(pager.pageSize)
    requires NewChain(before, pager.contents, follow, chain, payload[to..])
    requires FilledUp(pager.contents, chain, MaxWriteSize(pager.pageSize)) && from < to
    requires chain != [] ==> to - from == MaxWriteSize(pager.pageSize)
    modifies pager.Repr
    ensures pager.Valid() && 1 in pager.contents && status == Ok
    ensures NewChain(before, pager.contents, pageId, longer, payload[from..])
    ensures |longer| == |chain| + 1 && FilledUp(pager.contents, longer, MaxWriteSize(pager.pageSize))
  {
    ghost var pages := pager.contents;
    var part := payload[from..to];
    status, pageId := OverflowWrite(pager, part, follow);
    ChainGrows(before, pages, follow, chain, payload[to..], pageId, part);
    assert part + payload[to..] == payload[from..];
    longer := [pageId] + chain;
    FilledGrows(pages, pager.contents, chain, MaxWriteSize(pager.pageSize), pageId, follow, part);
  }

  lemma {:induction false} FilledGrows(
      pages: Pages, pages': Pages, chain: seq<nat>, perPage: nat, pageId: nat, first: nat, part: bytes)
    requires IsChain(pages, chain) && FilledUp(pages, chain, perPage) && pageId !in pages
    requires pages' == pages[pageId := OverflowBody(first, part)]
    requires 0 < |part| <= perPage && (chain != [] ==> |part| == perPage)
    ensures FilledUp(pages', [pageId] + chain, perPage)
  {
    assert ([pageId] + chain)[1..] == chain;
    ChainInPages(pages, chain);
    FilledFrame(pages, pages', chain, perPage);
  }

  /** Writes `payload[at..]` to overflow pages, the last page first, and leaves the data position at the start. */
  method WriteChain(pager: Pager<PageBody>, payload: bytes, at: nat)
    returns (status: Status, first: nat, dataAt: int, ghost chain: seq<nat>)
    requires pager.Valid() && 1 in pager.contents && MaxWriteSize(pager.pageSize) > 0 && at < |payload|
    modifies pager.Repr
    ensures pager.Valid() && status == Ok && dataAt == 0
    ensures NewChain(old(pager.contents), pager.contents, first, chain, payload[at..])
    ensures |chain| == PagesFor(|payload| - at, MaxWriteSize(pager.pageSize))
    ensures FilledUp(pager.contents, chain, MaxWriteSize(pager.pageSize))
  {
    var perPage := MaxWriteSize(pager.pageSize);
    var start: nat, remaining: nat := LastSlice(|payload|, at, perPage);
    dataAt := start;
    var pageWriteSize := |payload| - start;
    var bytesWritten := 0;
    status, first, chain := Ok, 0, [];
    ghost var pages, unwritten: nat := remaining, |payload|;
    while bytesWritten < |payload| - at
      invariant pager.Valid() && 1 in pager.contents && status == Ok
      invariant AtSlice(|payload|, at, perPage, remaining, dataAt, pageWriteSize, bytesWritten)
      invariant remaining + |chain| == pages && unwritten == |payload| - bytesWritten && at <= unwritten <= |payload|
      invariant NewChain(old(pager.contents), pager.contents, first, chain, payload[unwritten..])
      invariant FilledUp(pager.contents, chain, perPage) && (chain != [] ==> pageWriteSize == perPage)
      decreases remaining
    {
      NextSlice(|payload|, at, perPage, remaining, dataAt, pageWriteSize, bytesWritten);
      unwritten := dataAt;
      status, first, chain :=
        WriteSlice(pager, payload, dataAt, dataAt + pageWriteSize, first, old(pager.contents), chain);
      dataAt := dataAt - if remaining == 1 then at else perPage;
      remaining := remaining - 1;
      bytesWritten := bytesWritten + pageWriteSize;
      pageWriteSize := perPage;
    }
    AllSlicesWritten(|payload|, at, perPage, remaining, dataAt, pageWriteSize, bytesWritten);
  }

  /** Whether btree_node_write_ex keeps the whole payload in the cell. */
  predicate FitsInline(capacity: int, size: nat)
    requires capacity >= 0
  {
    4 + size + SLOT <= MaxCellSize(capacity)
  }

  /**
    Whether a node with `free` bytes of heap takes the payload: whole, or at least an overflow cell without a prefix.
  */
  predicate Accepts(capacity: int, free: int, size: nat)
    requires capacity >= 0
  {
    (if FitsInline(capacity, size) then 4 + size else OVERFLOW_CELL_MIN) + SLOT <= free
  }

  /** How many overflow pages storing a payload takes. */
  function PagesTaken(pageSize: nat, capacity: int, free: int, size: nat): nat
    requires MaxWriteSize(pageSize) > 0 && capacity >= 0 && free >= 0
    requires !FitsInline(capacity, size) ==> 0 <= InlineSize(capacity, free) <= size
  {
    if FitsInline(capacity, size) then 0
    else PagesFor(size - InlineSize(capacity, free), MaxWriteSize(pageSize))
  }

  /** The buffer of a node: what the file holds, and on page 1 the current head of the free list. */
  ghost predicate Loaded(pager: Pager<PageBody>, nv: Page<PageBody>)
    reads pager, nv
  {
    && nv.pageId in pager.contents && nv.image.data == pager.contents[nv.pageId]
    && (nv.pageId == 1 ==> nv.image.nextFree == Head(pager.free))
  }

  ghost predicate WithinCapacity(pageSize: nat, pageId: nat, node: Node) {
    && pageSize >= MIN_PAGE_SIZE
    && HeapUsed(node.cells) <= Capacity(pageSize, pageId)
  }

  /**
    `item` now holds `payload`, in new pages of its own and in a new cell `at` of node `pageId`; nothing else changed.
  */
  ghost predicate StoredAt(
      pageSize: nat, before: Pages, after: Pages, pageId: nat, at: nat, key: nat, payload: bytes, item: Item)
    requires pageId in before && WithinCapacity(pageSize, pageId, NodeOf(before[pageId]))
    requires at <= |NodeOf(before[pageId]).cells|
  {
    var node := NodeOf(before[pageId]);
    var capacity := Capacity(pageSize, pageId);
    var free := FreeHeap(capacity, node.cells);
    var stored := node.(cells := InsertAt(node.cells, at, Cell(key, item.body)));
    && Accepts(capacity, free, |payload|)
    && item.payload == payload
    && (item.body.Inline? <==> FitsInline(capacity, |payload|))
    && HeapRequired(item.body) <= MaxCellSize(capacity)
    && HeapRequired(item.body) <= free
    && |item.chain| == PagesTaken(pageSize, capacity, free, |payload|)
    && pageId in after && after[pageId] == NodeBody(stored)
    && Extends(before, after[pageId := before[pageId]], item.chain)
    && Holds(after, item)
  }

  /**
    Writes the cell of an overflow payload to the node, which is read again because new pages may have changed page 1.
  */
  method InsertOverflow(pager: Pager<PageBody>, nv: Page<PageBody>, at: nat, cell: Cell) returns (status: Status)
    requires pager.Valid() && nv !in pager.Repr && nv.pageId in pager.contents && nv.pageId != 0
    requires at <= |NodeOf(pager.contents[nv.pageId]).cells|
    modifies pager.Repr, nv
    ensures pager.Valid() && Loaded(pager, nv) && nv.pageId == old(nv.pageId)
    ensures
      var r := InsertCell(Capacity(pager.pageSize, nv.pageId), NodeOf(old(pager.contents)[nv.pageId]), at, cell);
      && status == r.0
      && (status == Ok ==> pager.contents == old(pager.contents)[nv.pageId := NodeBody(r.1)])
  {
    var ok := pager.ReadPage(nv.pageId, nv);
    var inserted := InsertCell(Capacity(pager.pageSize, nv.pageId), NodeOf(nv.image.data), at, cell);
    status := inserted.0;
    if status == Ok {
      nv.image := nv.image.(data := NodeBody(inserted.1));
      pager.WritePage(nv);
    }
  }

  lemma {:induction false} StoredInline(pageSize: nat, pages: Pages, pageId: nat, at: nat, key: nat, payload: bytes)
    requires pageId in pages && WithinCapacity(pageSize, pageId, NodeOf(pages[pageId]))
    requires at <= |NodeOf(pages[pageId]).cells|
    requires FitsInline(Capacity(pageSize, pageId), |payload|)
    requires Accepts(Capacity(pageSize, pageId), FreeHeap(Capacity(pageSize, pageId), NodeOf(pages[pageId]).cells),
      |payload|)
    ensures
      var node := NodeOf(pages[pageId]);
      var stored := node.(cells := InsertAt(node.cells, at, Cell(key, Inline(payload))));
      StoredAt(pageSize, pages, pages[pageId := NodeBody(stored)], pageId, at, key, payload,
        Item(payload, Inline(payload), []))
  {
    var node := NodeOf(pages[pageId]);
    var stored := node.(cells := InsertAt(node.cells, at, Cell(key, Inline(payload))));
    assert pages[pageId := NodeBody(stored)][pageId := pages[pageId]] == pages;
  }

  lemma {:induction false} StoredOverflow(
      pageSize: nat, before: Pages, pages: Pages, pageId: nat, at: nat, key: nat, payload: bytes, inlineSize: nat,
      chain: seq<nat>)
    requires pageId in before && WithinCapacity(pageSize, pageId, NodeOf(before[pageId]))
    requires at <= |NodeOf(before[pageId]).cells|
    requires !FitsInline(Capacity(pageSize, pageId), |payload|)
    requires inlineSize
      == InlineSize(Capacity(pageSize, pageId), FreeHeap(Capacity(pageSize, pageId), NodeOf(before[pageId]).cells))
    requires inlineSize < |payload| && NewChain(before, pages, Head(chain), chain, payload[inlineSize..])
    requires |chain| == PagesFor(|payload| - inlineSize, MaxWriteSize(pageSize))
    ensures
      var node := NodeOf(before[pageId]);
      var body := Overflow(|payload|, Head(chain), payload[..inlineSize]);
      var stored := node.(cells := InsertAt(node.cells, at, Cell(key, body)));
      StoredAt(pageSize, before, pages[pageId := NodeBody(stored)], pageId, at, key, payload,
        Item(payload, body, chain))
  {
    var node := NodeOf(before[pageId]);
    var body := Overflow(|payload|, Head(chain), payload[..inlineSize]);
    var stored := node.(cells := InsertAt(node.cells, at, Cell(key, body)));
    var after := pages[pageId := NodeBody(stored)];
    assert after[pageId := before[pageId]] == pages;
    assert payload[..inlineSize] + payload[inlineSize..] == payload;
    ChainFrame(pages, after, chain);
  }

  /** btree_node_insert_inline on a payload that fits. */
  method WriteInline(
      pager: Pager<PageBody>, nv: Page<PageBody>, at: nat, key: nat, payload: bytes)
    returns (status: Status)
    requires pager.Valid() && nv !in pager.Repr && Loaded(pager, nv) && nv.pageId != 0
    requires at <= |NodeOf(nv.image.data).cells|
    modifies pager.Repr, nv
    ensures pager.Valid() && Loaded(pager, nv) && nv.pageId == old(nv.pageId)
    ensures
      var r := InsertCell(Capacity(pager.pageSize, nv.pageId), NodeOf(old(nv.image.data)), at,
                          Cell(key, Inline(payload)));
      && status == r.0 && pager.free == old(pager.free)
      && pager.contents == if status == Ok then old(pager.contents)[nv.pageId := NodeBody(r.1)] else old(pager.contents)
  {
    var inserted :=
      InsertCell(Capacity(pager.pageSize, nv.pageId), NodeOf(nv.image.data), at, Cell(key, Inline(payload)));
    status := inserted.0;
    if status == Ok {
      nv.image := nv.image.(data := NodeBody(inserted.1));
      pager.WritePage(nv);
    }
  }

  /** The overflow half of btree_node_write_ex, with a cell that keeps `inlineSize` bytes. */
  method WriteOverflow(pager: Pager<PageBody>, nv: Page<PageBody>, at: nat, key: nat, payload: bytes, inlineSize: nat)
    returns (status: Status, ghost chain: seq<nat>)
    requires pager.Valid() && nv !in pager.Repr && Loaded(pager, nv) && nv.pageId != 0 && 1 in pager.contents
    requires MaxWriteSize(pager.pageSize) > 0 && inlineSize < |payload|
    requires at <= |NodeOf(nv.image.data).cells|
    requires
      HeapUsed(NodeOf(nv.image.data).cells) + OVERFLOW_CELL_MIN + inlineSize
        + SLOT <= Capacity(pager.pageSize, nv.pageId)
    modifies pager.Repr, nv
    ensures pager.Valid() && Loaded(pager, nv) && nv.pageId == old(nv.pageId) && status == Ok
    ensures
      var node := NodeOf(old(nv.image.data));
      var body := Overflow(|payload|, Head(chain), payload[..inlineSize]);
      var stored := NodeBody(node.(cells := InsertAt(node.cells, at, Cell(key, body))));
      exists pages ::
        && NewChain(old(pager.contents), pages, Head(chain), chain, payload[inlineSize..])
        && pager.contents == pages[nv.pageId := stored]
    ensures |chain| == PagesFor(|payload| - inlineSize, MaxWriteSize(pager.pageSize))
    ensures FilledUp(pager.contents, chain, MaxWriteSize(pager.pageSize))
  {
    var first, dataAt;
    status, first, dataAt, chain := WriteChain(pager, payload, inlineSize);
    ghost var pages := pager.contents;
    var body := Overflow(|payload|, first, payload[dataAt..dataAt + inlineSize]);
    status := InsertOverflow(pager, nv, at, Cell(key, body));
    ChainInPages(pages, chain);
    FilledFrame(pages, pager.contents, chain, MaxWriteSize(pager.pageSize));
  }

  /**
    How a payload is divided, in numbers. It stays in the cell if, with 16 bytes for its size and its slot, it takes no
    more than a quarter of the heap. Else the cell gets a quarter of the heap, or all that is free if that is less,
    for 24 bytes of its own and a prefix, and the rest goes to overflow pages that have 8 bytes for themselves.
  */
  ghost predicate Divided(pageSize: nat, pageId: nat, cells: seq<Cell>, pages: Pages, item: Item) {
    var heap := pageSize - 20 - if pageId == 1 then 100 else 0;
    var free := heap - HeapUsed(cells);
    match item.body
    case Inline(payload) => payload == item.payload && 4 * (|payload| + 16) <= heap
    case Overflow(total, _, prefix) =>
      && total == |item.payload| && 4 * (|item.payload| + 16) > heap
      && prefix <= item.payload && |prefix| < |item.payload|
      && |prefix| + 24 == (if heap / 4 < free then heap / 4 else free)
      && FilledUp(pages, item.chain, pageSize - 8)
  }

  lemma {:induction false} OverflowDivided(
      pageSize: nat, pageId: nat, cells: seq<Cell>, pages: Pages, payload: bytes, inlineSize: nat, chain: seq<nat>)
    requires pageSize >= MIN_PAGE_SIZE && inlineSize < |payload| && !FitsInline(Capacity(pageSize, pageId), |payload|)
    requires inlineSize == InlineSize(Capacity(pageSize, pageId), FreeHeap(Capacity(pageSize, pageId), cells))
    requires FilledUp(pages, chain, MaxWriteSize(pageSize))
    ensures Divided(pageSize, pageId, cells, pages,
                    Item(payload, Overflow(|payload|, Head(chain), payload[..inlineSize]), chain))
  {
  }

  /** What is accepted, in the same numbers. */
  lemma {:induction false} AcceptsInNumbers(pageSize: nat, pageId: nat, cells: seq<Cell>, size: nat)
    requires pageSize >= MIN_PAGE_SIZE
    ensures
      var heap := pageSize - 20 - if pageId == 1 then 100 else 0;
      var free := heap - HeapUsed(cells);
      var accepted := Accepts(Capacity(pageSize, pageId), FreeHeap(Capacity(pageSize, pageId), cells), size);
      accepted <==> if 4 * (size + 16) <= heap then size + 16 <= free else 24 <= free
  {
  }

  /** The number of overflow pages is the rest of the payload over the bytes of a page, rounded up. */
  lemma {:induction false} DividedPages(pageSize: nat, pageId: nat, cells: seq<Cell>, pages: Pages, item: Item)
    requires Divided(pageSize, pageId, cells, pages, item) && Holds(pages, item) && item.body.Overflow? && pageSize > 8
    ensures
      var rest := |item.payload| - |item.body.inlinePayload|;
      (|item.chain| - 1) * (pageSize - 8) < rest <= |item.chain| * (pageSize - 8)
  {
    assert item.chain != [];
    FilledIsCeiling(pages, item.chain, pageSize - 8);
  }

  /** With more than 24 bytes free the cell shows something of the payload, to a search for one. */
  lemma {:induction false} DividedShows(pageSize: nat, pageId: nat, cells: seq<Cell>, pages: Pages, item: Item)
    requires Divided(pageSize, pageId, cells, pages, item) && item.body.Overflow?
    requires pageSize >= MIN_PAGE_SIZE && pageId != 1
    ensures item.body.inlinePayload != [] <==> pageSize - 20 - HeapUsed(cells) > 24
  {
  }

  /**
    Stores a payload in a node: in the cell if it is small, else a prefix in the cell and the rest in overflow pages.
  */
  method WriteEx(pager: Pager<PageBody>, nv: Page<PageBody>, at: nat, key: nat, payload: bytes)
    returns (status: Status, ghost item: Item)
    requires pager.Valid() && nv !in pager.Repr && Loaded(pager, nv) && nv.pageId != 0 && 1 in pager.contents
    requires WithinCapacity(pager.pageSize, nv.pageId, NodeOf(nv.image.data))
    requires at <= |NodeOf(nv.image.data).cells|
    modifies pager.Repr, nv
    ensures pager.Valid() && Loaded(pager, nv) && nv.pageId == old(nv.pageId)
    ensures
      var capacity := Capacity(pager.pageSize, nv.pageId);
      status == if Accepts(capacity, FreeHeap(capacity, old(NodeOf(nv.image.data)).cells), |payload|) then Ok
        else NotEnoughSpace
    ensures status != Ok ==> pager.contents == old(pager.contents) && pager.free == old(pager.free)
    ensures status == Ok ==>
      StoredAt(pager.pageSize, old(pager.contents), pager.contents, nv.pageId, at, key, payload, item)
    ensures status == Ok ==>
      Divided(pager.pageSize, nv.pageId, old(NodeOf(nv.image.data)).cells, pager.contents, item)
  {
    var capacity := Capacity(pager.pageSize, nv.pageId);
    var node := NodeOf(nv.image.data);
    var free := FreeHeap(capacity, node.cells);
    var maxDataSize := MaxCellSize(capacity);
    var maxHeapUsage := if maxDataSize < free then maxDataSize else free;
    ghost var before := pager.contents;
    item := Item(payload, Inline(payload), []);
    if 4 + |payload| + SLOT <= maxDataSize {
      status := WriteInline(pager, nv, at, key, payload);
      if status == Ok {
        StoredInline(pager.pageSize, before, nv.pageId, at, key, payload);
      }
    } else if OVERFLOW_CELL_MIN + SLOT > maxHeapUsage {
      status := NotEnoughSpace;
    } else {
      var inlineSize: nat := maxHeapUsage - (OVERFLOW_CELL_MIN + SLOT);
      ghost var chain;
      status, chain := WriteOverflow(pager, nv, at, key, payload, inlineSize);
      ghost var pages :| NewChain(before, pages, Head(chain), chain, payload[inlineSize..])
        && pager.contents == pages[nv.pageId := NodeBody(node.(cells :=
             InsertAt(node.cells, at, Cell(key, Overflow(|payload|, Head(chain), payload[..inlineSize])))))];
      StoredOverflow(pager.pageSize, before, pages, nv.pageId, at, key, payload, inlineSize, chain);
      item := Item(payload, Overflow(|payload|, Head(chain), payload[..inlineSize]), chain);
      OverflowDivided(pager.pageSize, nv.pageId, node.cells, pager.contents, payload, inlineSize, chain);
    }
  }

  /** A buffer after the memory copy of `part` to position `at`. */
  function Overwrite(s: bytes, at: nat, part: bytes): (r: bytes)
    requires at + |part| <= |s|
    ensures |r| == |s| && r[at..at + |part|] == part && r[..at] == s[..at] && r[at + |part|..] == s[at + |part|..]
  {
    s[..at] + part + s[at + |part|..]
  }

  lemma {:induction false} OverwriteTwice(s: bytes, at: nat, part: bytes, rest: bytes)
    requires at + |part| + |rest| <= |s|
    ensures Overwrite(Overwrite(s, at, part), at + |part|, rest) == Overwrite(s, at, part + rest)
  {
  }

  method CopyTo(buffer: array<byte>, at: nat, part: bytes)
    requires at + |part| <= buffer.Length
    modifies buffer
    ensures buffer[..] == Overwrite(old(buffer[..]), at, part)
  {
    forall i | 0 <= i < |part| { buffer[at + i] := part[i]; }
  }

  /** Reads the payload of a cell into a buffer: the prefix in the cell, then the overflow pages in turn. */
  method ReadAt(pager: Pager<PageBody>, body: Body, buffer: array<byte>, ghost item: Item) returns (status: Status)
    requires pager.Valid() && buffer !in pager.Repr && item.body == body && Holds(pager.contents, item)
    modifies pager.Repr, buffer
    ensures pager.Valid() && pager.contents == old(pager.contents) && pager.free == old(pager.free)
    ensures status == if |item.payload| <= buffer.Length then Ok else BufferTooSmall
    ensures status == Ok ==> buffer[..] == Overwrite(old(buffer[..]), 0, item.payload)
  {
    match body
    case Inline(payload) =>
      CopyTo(buffer, 0, payload[..if |payload| <= buffer.Length then |payload| else buffer.Length]);
      status := if |payload| > buffer.Length then BufferTooSmall else Ok;
    case Overflow(total, first, prefix) =>
      status := ReadOverflow(pager, total, first, prefix, buffer, item);
  }

  method ReadOverflow(
      pager: Pager<PageBody>, total: nat, first: nat, prefix: bytes, buffer: array<byte>, ghost item: Item)
    returns (status: Status)
    requires pager.Valid() && buffer !in pager.Repr
    requires total == |item.payload| && first == Head(item.chain) && IsChain(pager.contents, item.chain)
    requires prefix + ChainData(pager.contents, item.chain) == item.payload
    modifies pager.Repr, buffer
    ensures pager.Valid() && pager.contents == old(pager.contents) && pager.free == old(pager.free)
    ensures status == if |item.payload| <= buffer.Length then Ok else BufferTooSmall
    ensures status == Ok ==> buffer[..] == Overwrite(old(buffer[..]), 0, item.payload)
  {
    var written: nat := if |prefix| <= buffer.Length then |prefix| else buffer.Length;
    CopyTo(buffer, 0, prefix[..written]);
    if total > buffer.Length {
      return BufferTooSmall;
    }
    assert prefix[..written] == prefix;
    ReadChain(pager, first, buffer, written, item.chain);
    OverwriteTwice(old(buffer[..]), 0, prefix, ChainData(pager.contents, item.chain));
    status := Ok;
  }

  /** Appends the data of a chain to what is in the buffer. */
  method ReadChain(pager: Pager<PageBody>, first: nat, buffer: array<byte>, start: nat, ghost chain: seq<nat>)
    requires pager.Valid() && buffer !in pager.Repr
    requires IsChain(pager.contents, chain) && first == Head(chain)
    requires start + |ChainData(pager.contents, chain)| <= buffer.Length
    modifies pager.Repr, buffer
    ensures pager.Valid() && pager.contents == old(pager.contents) && pager.free == old(pager.free)
    ensures buffer[..] == Overwrite(old(buffer[..]), start, ChainData(old(pager.contents), chain))
  {
    var next, written: nat := first, start;
    ghost var rest, data := chain, ChainData(pager.contents, chain);
    while next != 0 && buffer.Length > written
      invariant pager.Valid() && pager.contents == old(pager.contents) && pager.free == old(pager.free)
      invariant IsChain(pager.contents, rest) && next == Head(rest)
      invariant written + |ChainData(pager.contents, rest)| == start + |data|
      invariant Overwrite(buffer[..], written, ChainData(pager.contents, rest))
        == Overwrite(old(buffer[..]), start, data)
      decreases |rest|
    {
      var part;
      part, next := OverflowRead(pager, next);
      OverwriteTwice(buffer[..], written, part, ChainData(pager.contents, rest[1..]));
      CopyTo(buffer, written, part);
      written := written + |part|;
      rest := rest[1..];
    }
  }

  /** What one overflow page holds, and the next page of its chain. */
  method OverflowRead(pager: Pager<PageBody>, pageId: nat) returns (part: bytes, next: nat)
    requires pager.Valid() && pageId != 0 && pageId in pager.contents && pager.contents[pageId].OverflowBody?
    modifies pager.Repr
    ensures pager.Valid() && pager.contents == old(pager.contents) && pager.free == old(pager.free)
    ensures OverflowBody(next, part) == pager.contents[pageId]
  {
    var page := new Page<PageBody>(pager.blank);
    var ok := pager.ReadPage(pageId, page);
    part, next := page.image.data.payload, page.image.data.next;
  }

  /** The free list after the pages of a chain have been freed, first page first. */
  function FreedOnto(chain: seq<nat>, free: seq<nat>): seq<nat> {
    if chain == [] then free else FreedOnto(chain[1..], [chain[0]] + free)
  }

  lemma {:induction false} FreedOntoIds(chain: seq<nat>, free: seq<nat>)
    ensures Ids(FreedOnto(chain, free)) == Ids(chain) + Ids(free)
    ensures |FreedOnto(chain, free)| == |chain| + |free|
  {
    if chain != [] {
      assert ([chain[0]] + free)[1..] == free;
      FreedOntoIds(chain[1..], [chain[0]] + free);
    }
  }

  /** Frees every page of a chain. */
  method FreeChain(pager: Pager<PageBody>, first: nat, ghost chain: seq<nat>)
    requires pager.Valid() && IsChain(pager.contents, chain) && Distinct(chain) && 1 !in Ids(chain)
    requires first == Head(chain)
    modifies pager.Repr
    ensures pager.Valid() && pager.contents == old(pager.contents) - Ids(chain)
    ensures pager.free == FreedOnto(chain, old(pager.free))
  {
    var next := first;
    ghost var rest := chain;
    while next != 0
      invariant pager.Valid() && IsChain(pager.contents, rest) && Distinct(rest) && 1 !in Ids(rest)
      invariant next == Head(rest) && Ids(rest) <= Ids(chain)
      invariant pager.contents == old(pager.contents) - (Ids(chain) - Ids(rest))
      invariant FreedOnto(rest, pager.free) == FreedOnto(chain, old(pager.free))
      decreases |rest|
    {
      ghost var pages := pager.contents;
      var part, after := OverflowRead(pager, next);
      pager.FreelistPush(next);
      ChainFrame(pages, pager.contents, rest[1..]);
      next := after;
      rest := rest[1..];
    }
  }

  /** Removes a cell from a node and frees the overflow pages it owns; the node is read again before it is changed. */
  method Delete(pager: Pager<PageBody>, nv: Page<PageBody>, at: nat, ghost item: Item) returns (status: Status)
    requires pager.Valid() && nv !in pager.Repr && Loaded(pager, nv) && nv.pageId != 0
    requires nv.image.data.NodeBody? && at < |nv.image.data.node.cells|
    requires nv.image.data.node.cells[at].body == item.body && Holds(pager.contents, item)
    requires Distinct(item.chain) && 1 !in Ids(item.chain)
    modifies pager.Repr, nv
    ensures pager.Valid() && Loaded(pager, nv) && nv.pageId == old(nv.pageId) && status == Ok
    ensures
      var node := old(nv.image.data.node);
      pager.contents ==
        (old(pager.contents) - Ids(item.chain))[nv.pageId := NodeBody(node.(cells := RemoveAt(node.cells, at)))]
    ensures pager.free == FreedOnto(item.chain, old(pager.free))
  {
    var body := nv.image.data.node.cells[at].body;
    if body.Overflow? {
      ChainInPages(pager.contents, item.chain);
      FreeChain(pager, body.overflowPage, item.chain);
      var ok := pager.ReadPage(nv.pageId, nv);
    }
    var node := nv.image.data.node;
    nv.image := nv.image.(data := NodeBody(node.(cells := RemoveAt(node.cells, at))));
    pager.WritePage(nv);
    status := Ok;
  }

  /**
    A payload that is stored, read back and deleted: it comes back whole, and the pages in use are as they were, so
    the overflow pages that the payload took are free again.
  */
  method StoreReadDelete(
      pager: Pager<PageBody>, nv: Page<PageBody>, at: nat, key: nat, payload: bytes, buffer: array<byte>)
    returns (status: Status)
    requires pager.Valid() && nv !in pager.Repr && Loaded(pager, nv) && nv.pageId != 0 && 1 in pager.contents
    requires nv.image.data.NodeBody? && WithinCapacity(pager.pageSize, nv.pageId, nv.image.data.node)
    requires at <= |nv.image.data.node.cells| && buffer !in pager.Repr && |payload| <= buffer.Length
    modifies pager.Repr, nv, buffer
    ensures pager.Valid() && status in {Ok, NotEnoughSpace} && pager.contents == old(pager.contents)
    ensures status == Ok ==> buffer[..] == Overwrite(old(buffer[..]), 0, payload)
  {
    ghost var pages, node := pager.contents, nv.image.data.node;
    ghost var item;
    status, item := WriteEx(pager, nv, at, key, payload);
    if status != Ok {
      return;
    }
    ghost var stored := pager.contents;
    assert item.body.Inline? ==> item.chain == [];
    status := ReadAt(pager, nv.image.data.node.cells[at].body, buffer, item);
    ghost var free := pager.free;
    status := Delete(pager, nv, at, item);
    RemoveInserted(node.cells, at, Cell(key, item.body));
    NothingLeft(pages, stored, pager.contents, nv.pageId, item.chain);
  }

  lemma {:induction false} RemoveInserted(cells: seq<Cell>, at: nat, cell: Cell)
    requires at <= |cells|
    ensures RemoveAt(InsertAt(cells, at, cell), at) == cells
  {
  }

  lemma {:induction false} NothingLeft(pages: Pages, stored: Pages, after: Pages, id: nat, chain: seq<nat>)
    requires id in pages && id in stored && Extends(pages, stored[id := pages[id]], chain)
    requires after == (stored - Ids(chain))[id := pages[id]]
    ensures after == pages
  {
    var restored := stored[id := pages[id]];
    assert forall x :: x in after <==> x in pages;
    forall x | x in pages ensures after[x] == pages[x] {
      if x != id { assert restored[x] == pages[x] && x in stored && x !in Ids(chain); }
    }
  }
}
