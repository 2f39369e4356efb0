/**
  The bytes of pages (struct BTreePageHeader and BTreePageKey in src/btree_defs.h, src/btree_overflow.c,
  src/pagemeta.c): what the sizes that the other modules calculate with are the sizes of.
*/
module PageImage {
  import opened Bytes
  import opened Node
  import opened Pager
  import opened Overflow
  import opened Compaction
  import opened SlottedPage

  // ---- nodes ----

  /** The counters and the flag of a node; the number of slots is that of the slots. */
  datatype Header = Header(isLeaf: bool, freeHeap: nat, rightChild: nat, highWater: nat)

  ghost predicate HeaderEncodable(h: Header, keys: nat) {
    h.freeHeap < TWO_32 && keys < TWO_32 && h.rightChild < TWO_32 && h.highWater < TWO_32
  }

  /** The flag is a byte; one that is not used and two of padding, `pad`, come before the first counter. */
  function HeaderBytes(h: Header, keys: nat, pad: bytes): bytes
    requires HeaderEncodable(h, keys)
  {
    [if h.isLeaf then 1 else 0] + pad + WriteLe32(h.freeHeap) + WriteLe32(keys) + WriteLe32(h.rightChild)
      + WriteLe32(h.highWater)
  }

  ghost predicate SlotEncodable(slot: Slot) { slot.key < TWO_32 && slot.offset < TWO_32 && slot.flags < TWO_32 }

  function SlotBytes(slot: Slot): (b: bytes)
    requires SlotEncodable(slot)
    ensures |b| == 12
  {
    WriteLe32(slot.key) + WriteLe32(slot.offset) + WriteLe32(slot.flags)
  }

  ghost predicate SlotsEncodable(slots: seq<Slot>) { forall i :: 0 <= i < |slots| ==> SlotEncodable(slots[i]) }

  function SlotsBytes(slots: seq<Slot>): (b: bytes)
    requires SlotsEncodable(slots)
    ensures |b| == 12 * |slots|
  {
    if slots == [] then [] else SlotsBytes(slots[..|slots| - 1]) + SlotBytes(slots[|slots| - 1])
  }

  /** A node in its page: on page 1 after the header of the file. The slots lie over the left end of the heap. */
  function NodeImage(file: bytes, h: Header, pad: bytes, slots: seq<Slot>, heap: bytes): bytes
    requires HeaderEncodable(h, |slots|) && SlotsEncodable(slots) && 12 * |slots| <= |heap|
  {
    file + (HeaderBytes(h, |slots|, pad) + (SlotsBytes(slots) + heap[12 * |slots|..]))
  }

  lemma {:induction false} ReadAfter(front: bytes, v: nat, rest: bytes)
    requires v < TWO_32
    ensures |front + (WriteLe32(v) + rest)| >= |front| + 4
    ensures ReadLe32((front + (WriteLe32(v) + rest))[|front|..]) == v
    ensures front + (WriteLe32(v) + rest) == (front + WriteLe32(v)) + rest
  {
    assert (front + (WriteLe32(v) + rest))[|front|..] == WriteLe32(v) + rest;
    Le32RoundTrip(v, rest);
  }

  /** Where the fields of the header are. */
  lemma {:induction false} HeaderReads(h: Header, keys: nat, pad: bytes, rest: bytes)
    requires HeaderEncodable(h, keys) && |pad| == 3
    ensures
      var b := HeaderBytes(h, keys, pad) + rest;
      && |HeaderBytes(h, keys, pad)| == 20 && (b[0] == 1 <==> h.isLeaf)
      && ReadLe32(b[4..]) == h.freeHeap && ReadLe32(b[8..]) == keys
      && ReadLe32(b[12..]) == h.rightChild && ReadLe32(b[16..]) == h.highWater
  {
    var b := HeaderBytes(h, keys, pad) + rest;
    var flag := [if h.isLeaf then 1 else 0] + pad;
    var r4 := WriteLe32(h.highWater) + rest;
    var r3 := WriteLe32(h.rightChild) + r4;
    var r2 := WriteLe32(keys) + r3;
    assert b == flag + (WriteLe32(h.freeHeap) + r2);
    ReadAfter(flag, h.freeHeap, r2);
    ReadAfter(flag + WriteLe32(h.freeHeap), keys, r3);
    ReadAfter(flag + WriteLe32(h.freeHeap) + WriteLe32(keys), h.rightChild, r4);
    ReadAfter(flag + WriteLe32(h.freeHeap) + WriteLe32(keys) + WriteLe32(h.rightChild), h.highWater, rest);
  }

  /** Where slot `i` is. */
  lemma {:induction false} SlotsRead(slots: seq<Slot>, i: nat, rest: bytes)
    requires SlotsEncodable(slots) && i < |slots|
    ensures
      var b := (SlotsBytes(slots) + rest)[12 * i..];
      && |b| >= 12 && ReadLe32(b) == slots[i].key && ReadLe32(b[4..]) == slots[i].offset
      && ReadLe32(b[8..]) == slots[i].flags
    decreases |slots|
  {
    var last := |slots| - 1;
    var front, slot := SlotsBytes(slots[..last]), slots[last];
    if i < last {
      SlotsRead(slots[..last], i, SlotBytes(slot) + rest);
      assert SlotsBytes(slots) + rest == front + (SlotBytes(slot) + rest);
    } else {
      var b := (SlotsBytes(slots) + rest)[12 * i..];
      assert b == SlotBytes(slot) + rest;
      var r2 := WriteLe32(slot.flags) + rest;
      var r1 := WriteLe32(slot.offset) + r2;
      assert b == [] + (WriteLe32(slot.key) + r1) && b[0..] == b;
      ReadAfter([], slot.key, r1);
      assert b == WriteLe32(slot.key) + (WriteLe32(slot.offset) + r2);
      ReadAfter(WriteLe32(slot.key), slot.offset, r2);
      assert b == (WriteLe32(slot.key) + WriteLe32(slot.offset)) + (WriteLe32(slot.flags) + rest);
      ReadAfter(WriteLe32(slot.key) + WriteLe32(slot.offset), slot.flags, rest);
    }
  }

  /** The file header on page 1, and nothing on other pages. */
  ghost predicate InFront(file: bytes, pageId: nat) { |file| == if pageId == 1 then 100 else 0 }

  /** A node with the capacity of its page fills the page exactly. */
  lemma {:induction false} NodeFillsPage(
      pageSize: nat, pageId: nat, file: bytes, h: Header, pad: bytes, slots: seq<Slot>, heap: bytes)
    requires HeaderEncodable(h, |slots|) && SlotsEncodable(slots) && 12 * |slots| <= |heap| && |pad| == 3
    requires InFront(file, pageId)
    ensures |NodeImage(file, h, pad, slots, heap)| == pageSize <==> |heap| == Capacity(pageSize, pageId)
  {
    HeaderReads(h, |slots|, pad, []);
  }

  /** The smallest page is page 1 with four overflow cells that keep nothing of their payload, and nothing else. */
  lemma {:induction false} SmallestPage(file: bytes, h: Header, pad: bytes, slots: seq<Slot>, heap: bytes)
    requires HeaderEncodable(h, 4) && SlotsEncodable(slots) && |slots| == 4 && |pad| == 3 && |file| == 100
    requires |heap| == 4 * HeapRequired(Body.Overflow(0, 0, []))
    ensures |NodeImage(file, h, pad, slots, heap)| == MIN_PAGE_SIZE
  {
    HeaderReads(h, 4, pad, []);
  }

  /** What is free is exactly what lies between the slots and the cells. */
  lemma {:induction false} FreeIsBetween(page: SlottedPage)
    requires page.Valid() && SlotsEncodable(page.slots)
    ensures |SlotsBytes(page.slots)| + page.freeHeap + page.highWater == page.heap.Length
  {
  }

  /** In the bytes of a page the cells are where the slots say, counted from the right end: no slot lies over a cell. */
  lemma {:induction false} CellsRead(page: SlottedPage, file: bytes, h: Header, pad: bytes, i: nat)
    requires page.Valid() && i < |page.slots| && |pad| == 3
    requires HeaderEncodable(h, |page.slots|) && SlotsEncodable(page.slots)
    ensures 12 * |page.slots| <= |page.heap[..]| && Whole(page.heap[..], page.slots[i])
    ensures
      var b := NodeImage(file, h, pad, page.slots, page.heap[..]);
      var size := CellSize(page.heap[..], page.slots[i].offset);
      && page.slots[i].offset <= |b|
      && b[|b| - page.slots[i].offset..][..size] == CellBytes(page.heap[..], page.slots[i])
  {
    var heap, n, offset := page.heap[..], 12 * |page.slots|, page.slots[i].offset;
    IntactIsTiled(heap, page.slots, page.sizes, page.highWater, page.seal);
    var b := NodeImage(file, h, pad, page.slots, heap);
    var head := file + (HeaderBytes(h, |page.slots|, pad) + SlotsBytes(page.slots));
    assert b == head + heap[n..];
    assert b[|b| - offset..] == heap[|heap| - offset..];
  }

  // ---- overflow pages ----

  /** The next page, how many bytes there are, the bytes, and whatever was behind them. */
  function OverflowImage(next: nat, part: bytes, rest: bytes): bytes
    requires next < TWO_32 && |part| < TWO_32
  {
    WriteLe32(next) + (WriteLe32(|part|) + (part + rest))
  }

  /** It reads back, and a page has as many bytes for the part as btree_overflow_max_write_size says. */
  lemma {:induction false} OverflowReads(pageSize: nat, next: nat, part: bytes, rest: bytes)
    requires next < TWO_32 && |part| < TWO_32
    ensures
      var b := OverflowImage(next, part, rest);
      && |b| >= 8 && ReadLe32(b) == next && ReadLe32(b[4..]) == |part| && b[8..8 + |part|] == part
      && (|b| == pageSize <==> |part| + |rest| == MaxWriteSize(pageSize))
  {
    var b := OverflowImage(next, part, rest);
    assert b == [] + (WriteLe32(next) + (WriteLe32(|part|) + (part + rest))) && b[0..] == b;
    ReadAfter([], next, WriteLe32(|part|) + (part + rest));
    ReadAfter(WriteLe32(next), |part|, part + rest);
  }

  // ---- page metadata ----

  const FREE: nat := 0xCC
  const IN_USE: nat := 0xAF

  /** In front of every page on disk: whether it is free, the next free page, its number, and three bytes of reserve. */
  function MetaBytes<C>(image: Image<C>): (b: bytes)
    requires image.nextFree < TWO_32 && image.pageNumber < TWO_32
    ensures |b| == 12
  {
    [if image.isFree then FREE else IN_USE] + WriteLe32(image.nextFree) + WriteLe32(image.pageNumber) + [0, 0, 0]
  }

  lemma {:induction false} MetaReads<C>(image: Image<C>)
    requires image.nextFree < TWO_32 && image.pageNumber < TWO_32
    ensures
      var b := MetaBytes(image);
      b[0] == (if image.isFree then 0xCC else 0xAF) && ReadLe32(b[1..]) == image.nextFree
        && ReadLe32(b[5..]) == image.pageNumber
  {
    var b := MetaBytes(image);
    var flag: bytes := [if image.isFree then FREE else IN_USE];
    var r := WriteLe32(image.pageNumber) + [0, 0, 0];
    assert b == flag + (WriteLe32(image.nextFree) + r);
    ReadAfter(flag, image.nextFree, r);
    ReadAfter(flag + WriteLe32(image.nextFree), image.pageNumber, [0, 0, 0]);
  }
}
