/**
  Nodes as they lie in a page (src/btree_node.c, src/btree_utils.c): slots from the left, cells in a heap from the
  right, and header counters for both. A cell is its payload size and its payload; slots name cells by their distance
  from the right edge.
*/
module SlottedPage {
  import opened Bytes
  import opened Node
  import opened Compaction

  /** A cell: where it starts and how long it is, by its own size field. */
  ghost predicate Inside(heap: bytes, offset: nat) { 4 <= offset <= |heap| }

  function CellSize(heap: bytes, offset: nat): (size: nat)
    requires 4 <= offset <= |heap|
    ensures size >= 4
  {
    4 + ReadLe32(heap[|heap| - offset..])
  }

  ghost predicate Whole(
      heap: bytes, slot: Slot)
  {
    Inside(heap, slot.offset) && CellSize(heap, slot.offset) <= slot.offset
  }

  /** Size field and payload. */
  function CellBytes(heap: bytes, slot: Slot): bytes
    requires 4 <= slot.offset <= |heap| && CellSize(heap, slot.offset) <= slot.offset
  {
    heap[|heap| - slot.offset..][..CellSize(heap, slot.offset)]
  }

  function Sum(sizes: seq<nat>): nat {
    if sizes == [] then 0 else Sum(sizes[..|sizes| - 1]) + sizes[|sizes| - 1]
  }

  /** The cells of the slots have these sizes, lie apart, and fill the first `highWater` bytes of the heap. */
  ghost predicate Tiled(heap: bytes, slots: seq<Slot>, sizes: seq<nat>, highWater: nat) {
    && |sizes| == |slots| && highWater <= |heap| && Sum(sizes) == highWater
    && (forall i :: 0 <= i < |slots| ==>
       Whole(heap, slots[i]) && CellSize(heap, slots[i].offset) == sizes[i] && slots[i].offset <= highWater)
    && (forall i, j {:trigger Clear(slots[i], sizes[i], slots[j], sizes[j])} :: 0 <= i < j < |slots| ==>
       Clear(slots[i], sizes[i], slots[j], sizes[j]))
  }

  /** The cell of slot `i` is where `slot` says, as it was in `heap0`. */
  ghost predicate Kept(heap0: bytes, slot0: Slot, heap: bytes, slot: Slot) {
    && Whole(heap0, slot0) && |heap| == |heap0| && 4 <= slot.offset <= |heap|
    && CellSize(heap0, slot0.offset) <= slot.offset
    && heap[|heap| - slot.offset..][..CellSize(heap0, slot0.offset)] == CellBytes(heap0, slot0)
  }

  lemma {:induction false} KeptIsWhole(heap0: bytes, slot0: Slot, heap: bytes, slot: Slot)
    requires Kept(heap0, slot0, heap, slot)
    ensures Whole(heap, slot) && CellSize(heap, slot.offset) == CellSize(heap0, slot0.offset)
    ensures CellBytes(heap, slot) == CellBytes(heap0, slot0)
  {
    var a, b := heap[|heap| - slot.offset..], heap0[|heap0| - slot0.offset..];
    var n := CellSize(heap0, slot0.offset);
    assert forall k :: 0 <= k < 4 ==> a[k] == a[..n][k] == b[..n][k] == b[k];
  }

  /** One cell slides by `shift`; a cell that overlaps neither its old nor its new place is kept. */
  lemma {:induction false} SlideKeeps(
      heap0: bytes, slot0: Slot, heap: bytes, slot: Slot, moving: Slot, size: nat, shift: nat)
    requires Kept(heap0, slot0, heap, slot)
    requires size <= moving.offset - shift && shift <= moving.offset <= |heap|
    requires slot.offset <= moving.offset - shift - size
      || moving.offset - shift <= slot.offset - CellSize(heap0, slot0.offset)
    ensures Kept(heap0, slot0, Moved(heap, |heap| - moving.offset, |heap| - (moving.offset - shift), size), slot)
  {
    MovedAway(heap, |heap| - moving.offset, |heap| - (moving.offset - shift), size,
              |heap| - slot.offset, CellSize(heap0, slot0.offset));
  }

  lemma {:induction false} SlideMoves(heap0: bytes, slot0: Slot, heap: bytes, slot: Slot, shift: nat)
    requires Kept(heap0, slot0, heap, slot) && CellSize(heap0, slot0.offset) <= slot.offset - shift
    ensures
      var size := CellSize(heap0, slot0.offset);
      Kept(heap0, slot0, Moved(heap, |heap| - slot.offset, |heap| - (slot.offset - shift), size),
        slot.(offset := slot.offset - shift))
  {
    var size := CellSize(heap0, slot0.offset);
    MovedHere(heap, |heap| - slot.offset, |heap| - (slot.offset - shift), size);
  }

  // ---- sums ----

  lemma {:induction false} SumConcat(a: seq<nat>, b: seq<nat>)
    ensures Sum(a + b) == Sum(a) + Sum(b)
  {
    if b == [] {
      assert a + b == a;
    } else {
      assert (a + b)[..|a + b| - 1] == a + b[..|b| - 1];
      SumConcat(a, b[..|b| - 1]);
    }
  }

  lemma {:induction false} SumRemove(s: seq<nat>, at: nat)
    requires at < |s|
    ensures Sum(RemoveAt(s, at)) == Sum(s) - s[at]
  {
    assert s == s[..at] + [s[at]] + s[at + 1..];
    assert [s[at]][..0] == [] && Sum([s[at]]) == s[at];
    SumConcat(s[..at] + [s[at]], s[at + 1..]);
    SumConcat(s[..at], [s[at]]);
    SumConcat(s[..at], s[at + 1..]);
  }

  lemma {:induction false} SumInsert(s: seq<nat>, at: nat, x: nat)
    requires at <= |s|
    ensures Sum(InsertAt(s, at, x)) == Sum(s) + x
  {
    assert RemoveAt(InsertAt(s, at, x), at) == s;
    SumRemove(InsertAt(s, at, x), at);
  }

  // ---- the page ----

  /** What a slot stands for. */
  datatype Stored = Stored(key: nat, flags: nat, cell: bytes)

  function StoredAt(heap: bytes, slot: Slot): Stored
    requires 4 <= slot.offset <= |heap| && CellSize(heap, slot.offset) <= slot.offset
  {
    Stored(slot.key, slot.flags, CellBytes(heap, slot))
  }

  /** The cell as it is written: its size, then the payload. */
  function CellOf(payload: bytes): (cell: bytes)
    requires |payload| < TWO_32
    ensures |cell| == 4 + |payload|
  {
    WriteLe32(|payload|) + payload
  }

  /** Closing a hole, up to slot `n`: every cell is still there, and those above the hole have slid. */
  ghost predicate Closing(
      heap0: bytes, slots0: seq<Slot>, heap: bytes, slots: seq<Slot>, n: nat, top: nat, shift: nat)
  {
    && n <= |slots0| == |slots| && |heap| == |heap0|
    && (forall k :: 0 <= k < |slots0| ==> slots0[k].offset >= top ==> slots0[k].offset >= shift)
    && (forall k :: 0 <= k < n ==> slots[k] == Slid(slots0[k], top, shift))
    && (forall k :: n <= k < |slots0| ==> slots[k] == slots0[k])
    && (forall k :: 0 <= k < |slots0| ==> Kept(heap0, slots0[k], heap, slots[k]))
  }

  /** The facts about the cells before the hole is closed. */
  ghost predicate Closable(heap0: bytes, slots0: seq<Slot>, sizes: seq<nat>, top: nat, shift: nat) {
    && HoleClear(slots0, sizes, top, shift) && SlidesClear(slots0, sizes, top, shift)
    && (forall k :: 0 <= k < |slots0| ==> Whole(heap0, slots0[k]) && CellSize(heap0, slots0[k].offset) == sizes[k])
    && (forall i, j {:trigger Clear(slots0[i], sizes[i], slots0[j], sizes[j])} :: 0 <= i < j < |slots0| ==>
       Clear(slots0[i], sizes[i], slots0[j], sizes[j]))
  }

  /** gc_node as a function, on any slots; it stops where the C code would leave the heap. */
  function Compacted(heap: bytes, slots: seq<Slot>, n: nat, top: nat, shift: nat): (bytes, seq<Slot>)
    requires n <= |slots|
    decreases |slots| - n
  {
    if n == |slots| then (heap, slots)
    else
      var offset := slots[n].offset;
      if offset < top then Compacted(heap, slots, n + 1, top, shift)
      else if 4 <= offset <= |heap| && shift + CellSize(heap, offset) <= offset then
        Compacted(Moved(heap, |heap| - offset, |heap| - (offset - shift), CellSize(heap, offset)),
                  slots[n := slots[n].(offset := offset - shift)], n + 1, top, shift)
      else (heap, slots)
  }

  /** Sliding the next cell above the hole. */
  lemma {:induction false} SlideOne(
      heap0: bytes, slots0: seq<Slot>, sizes: seq<nat>, heap: bytes, slots: seq<Slot>, n: nat, top: nat, shift: nat)
    returns (heap': bytes, slots': seq<Slot>)
    requires Closable(heap0, slots0, sizes, top, shift) && Closing(heap0, slots0, heap, slots, n, top, shift)
    requires n < |slots0| && top <= slots0[n].offset
    ensures CellSize(heap, slots[n].offset) == sizes[n] && Whole(heap, slots[n]) && slots[n] == slots0[n]
    ensures shift + sizes[n] <= slots[n].offset
    ensures heap' == Moved(heap, |heap| - slots[n].offset, |heap| - (slots[n].offset - shift), sizes[n])
    ensures slots' == slots[n := Slid(slots[n], top, shift)]
    ensures Closing(heap0, slots0, heap', slots', n + 1, top, shift)
  {
    var moving, size := slots[n], sizes[n];
    KeptIsWhole(heap0, slots0[n], heap, moving);
    heap' := Moved(heap, |heap| - moving.offset, |heap| - (moving.offset - shift), size);
    slots' := slots[n := Slid(moving, top, shift)];
    forall k | 0 <= k < |slots0| ensures Kept(heap0, slots0[k], heap', slots'[k]) {
      if k == n {
        SlideMoves(heap0, slots0[n], heap, moving, shift);
      } else {
        assert if k < n then Clear(slots0[k], sizes[k], slots0[n], sizes[n])
          else Clear(slots0[n], sizes[n], slots0[k], sizes[k]);
        if k > n { assert Passes(slots0[n], sizes[n], slots0[k], sizes[k], top, shift); }
        SlideKeeps(heap0, slots0[k], heap, slots[k], moving, size, shift);
      }
    }
  }

  /** Cells below the hole stay. */
  lemma {:induction false} SkipOne(
      heap0: bytes, slots0: seq<Slot>, heap: bytes, slots: seq<Slot>, n: nat, top: nat, shift: nat)
    requires Closing(heap0, slots0, heap, slots, n, top, shift) && n < |slots0| && slots[n].offset < top
    ensures Closing(heap0, slots0, heap, slots, n + 1, top, shift)
  {
  }

  /** Taking a slot out leaves a hole that can be closed. */
  lemma {:induction false} HoleOf(heap: bytes, slots: seq<Slot>, sizes: seq<nat>, highWater: nat, at: nat)
    requires Tiled(heap, slots, sizes, highWater) && at < |slots|
    requires SlidesClear(RemoveAt(slots, at), RemoveAt(sizes, at), slots[at].offset, sizes[at])
    ensures Closable(heap, RemoveAt(slots, at), RemoveAt(sizes, at), slots[at].offset, sizes[at])
  {
    var s, z := RemoveAt(slots, at), RemoveAt(sizes, at);
    forall k | 0 <= k < |s|
      ensures Whole(heap, s[k]) && CellSize(heap, s[k].offset) == z[k] && z[k] <= s[k].offset
      ensures s[k].offset <= slots[at].offset - sizes[at] || slots[at].offset <= s[k].offset - z[k]
    {
      var o := if k < at then k else k + 1;
      assert s[k] == slots[o] && z[k] == sizes[o];
      assert if o < at then Clear(slots[o], sizes[o], slots[at], sizes[at])
        else Clear(slots[at], sizes[at], slots[o], sizes[o]);
    }
    forall j, k | 0 <= j < k < |s| ensures Clear(s[j], z[j], s[k], z[k]) {
      var p, q := if j < at then j else j + 1, if k < at then k else k + 1;
      assert Clear(slots[p], sizes[p], slots[q], sizes[q]);
    }
  }

  /** What a slot shows, if its cell is whole. */
  ghost function Shown(heap: bytes, slot: Slot): Stored {
    if Whole(heap, slot) then StoredAt(heap, slot) else Stored(slot.key, slot.flags, [])
  }

  /** The slots in order, with their cells. */
  ghost function View(heap: bytes, slots: seq<Slot>): (v: seq<Stored>)
    ensures |v| == |slots|
  {
    if slots == [] then [] else View(heap, slots[..|slots| - 1]) + [Shown(heap, slots[|slots| - 1])]
  }

  lemma {:induction false} ViewAt(heap: bytes, slots: seq<Slot>, k: nat)
    requires k < |slots|
    ensures View(heap, slots)[k] == Shown(heap, slots[k])
  {
    if k < |slots| - 1 { ViewAt(heap, slots[..|slots| - 1], k); }
  }

  /** With the hole closed, the cells fill the heap again, less the one that is gone. */
  lemma {:induction false} Closed(
      heap0: bytes, slots0: seq<Slot>, sizes: seq<nat>, heap: bytes, slots: seq<Slot>, top: nat, shift: nat,
      highWater: nat)
    requires Closable(heap0, slots0, sizes, top, shift) && Closing(heap0, slots0, heap, slots, |slots0|, top, shift)
    requires top <= highWater <= |heap| && Sum(sizes) == highWater - shift
    requires forall k :: 0 <= k < |slots0| ==> slots0[k].offset <= highWater
    ensures Tiled(heap, slots, sizes, highWater - shift)
  {
    forall k | 0 <= k < |slots0|
      ensures Whole(heap, slots[k]) && CellSize(heap, slots[k].offset) == sizes[k]
      ensures slots[k].offset <= highWater - shift
    {
      KeptIsWhole(heap0, slots0[k], heap, slots[k]);
    }
    forall j, k | 0 <= j < k < |slots0| ensures Clear(slots[j], sizes[j], slots[k], sizes[k]) {
      assert Clear(slots0[j], sizes[j], slots0[k], sizes[k]);
    }
  }

  lemma {:induction false} ClosedView(
      heap0: bytes, slots0: seq<Slot>, heap: bytes, slots: seq<Slot>, top: nat, shift: nat)
    requires Closing(heap0, slots0, heap, slots, |slots0|, top, shift)
    ensures View(heap, slots) == View(heap0, slots0)
  {
    forall k | 0 <= k < |slots0| ensures View(heap, slots)[k] == View(heap0, slots0)[k] {
      ViewAt(heap, slots, k);
      ViewAt(heap0, slots0, k);
      KeptIsWhole(heap0, slots0[k], heap, slots[k]);
    }
  }

  /** A cell written to the left of the others leaves them alone. */
  lemma {:induction false} TiledStays(heap0: bytes, heap: bytes, slots: seq<Slot>, sizes: seq<nat>, highWater: nat)
    requires Tiled(heap0, slots, sizes, highWater) && |heap| == |heap0|
    requires heap[|heap| - highWater..] == heap0[|heap| - highWater..]
    ensures Tiled(heap, slots, sizes, highWater)
    ensures forall k :: 0 <= k < |slots| ==> Shown(heap, slots[k]) == Shown(heap0, slots[k])
  {
    forall k | 0 <= k < |slots|
      ensures Whole(heap, slots[k]) && CellSize(heap, slots[k].offset) == sizes[k]
      ensures Shown(heap, slots[k]) == Shown(heap0, slots[k])
    {
      SameTail(heap0, heap, highWater, slots[k].offset);
    }
  }

  lemma {:induction false} NewCell(heap: bytes, slot: Slot, payload: bytes)
    requires |payload| < TWO_32 && 4 + |payload| <= slot.offset <= |heap|
    requires heap[|heap| - slot.offset..][..4 + |payload|] == CellOf(payload)
    ensures Whole(heap, slot) && CellSize(heap, slot.offset) == 4 + |payload|
    ensures CellBytes(heap, slot) == CellOf(payload)
  {
    SizeField(heap[|heap| - slot.offset..], payload);
  }

  lemma {:induction false} CellAdded(
      heap0: bytes, heap: bytes, slots: seq<Slot>, sizes: seq<nat>, highWater: nat, at: nat, slot: Slot, payload: bytes)
    requires Tiled(heap0, slots, sizes, highWater) && at <= |slots| && |heap| == |heap0| && |payload| < TWO_32
    requires slot.offset == highWater + 4 + |payload| <= |heap|
    requires heap[|heap| - slot.offset..][..4 + |payload|] == CellOf(payload)
    requires heap[|heap| - highWater..] == heap0[|heap| - highWater..]
    ensures Tiled(heap, InsertAt(slots, at, slot), InsertAt(sizes, at, 4 + |payload|), slot.offset)
    ensures Whole(heap, slot) && CellBytes(heap, slot) == CellOf(payload)
    ensures forall k :: 0 <= k < |slots| ==> Shown(heap, slots[k]) == Shown(heap0, slots[k])
  {
    TiledStays(heap0, heap, slots, sizes, highWater);
    NewCell(heap, slot, payload);
    SumInsert(sizes, at, 4 + |payload|);
    WidenTiled(heap, slots, sizes, highWater, at, slot, 4 + |payload|);
  }

  lemma {:induction false} WidenTiled(
      heap: bytes, slots: seq<Slot>, sizes: seq<nat>, highWater: nat, at: nat, slot: Slot, size: nat)
    requires Tiled(heap, slots, sizes, highWater) && at <= |slots|
    requires slot.offset == highWater + size && Whole(heap, slot) && CellSize(heap, slot.offset) == size
    requires Sum(InsertAt(sizes, at, size)) == slot.offset
    ensures Tiled(heap, InsertAt(slots, at, slot), InsertAt(sizes, at, size), slot.offset)
  {
    var s, z := InsertAt(slots, at, slot), InsertAt(sizes, at, size);
    forall k | 0 <= k < |s| ensures Whole(heap, s[k]) && CellSize(heap, s[k].offset) == z[k]
      && s[k].offset <= slot.offset {
      if k != at { assert s[k] == slots[if k < at then k else k - 1] && z[k] == sizes[if k < at then k else k - 1]; }
    }
    WidenClear(slots, sizes, highWater, at, slot, size);
  }

  lemma {:induction false} WidenClear(slots: seq<Slot>, sizes: seq<nat>, highWater: nat, at: nat, slot: Slot, size: nat)
    requires |sizes| == |slots| && AllClear(slots, sizes) && at <= |slots| && slot.offset == highWater + size
    requires forall k :: 0 <= k < |slots| ==> slots[k].offset <= highWater
    ensures AllClear(InsertAt(slots, at, slot), InsertAt(sizes, at, size))
  {
    var s, z := InsertAt(slots, at, slot), InsertAt(sizes, at, size);
    forall j, k | 0 <= j < k < |s| ensures Clear(s[j], z[j], s[k], z[k]) {
      if j != at && k != at {
        var p, q := if j < at then j else j - 1, if k < at then k else k - 1;
        assert Clear(slots[p], sizes[p], slots[q], sizes[q]);
      }
    }
  }

  lemma {:induction false} SizeField(cell: bytes, payload: bytes)
    requires |payload| < TWO_32 && |cell| >= 4 + |payload| && cell[..4 + |payload|] == CellOf(payload)
    ensures ReadLe32(cell) == |payload|
  {
    Le32RoundTrip(|payload|, payload);
    assert forall k :: 0 <= k < 4 ==> cell[k] == cell[..4 + |payload|][k] == CellOf(payload)[k];
  }

  lemma {:induction false} SameTail(a: bytes, b: bytes, n: nat, offset: nat)
    requires |a| == |b| && offset <= n <= |a| && b[|b| - n..] == a[|a| - n..]
    ensures b[|b| - offset..] == a[|a| - offset..]
  {
    assert a[|a| - offset..] == a[|a| - n..][n - offset..];
    assert b[|b| - offset..] == b[|b| - n..][n - offset..];
  }

  lemma {:induction false} ViewRemoved(heap: bytes, slots: seq<Slot>, at: nat)
    requires at < |slots|
    ensures View(heap, RemoveAt(slots, at)) == RemoveAt(View(heap, slots), at)
  {
    var rest := RemoveAt(slots, at);
    forall k | 0 <= k < |rest| ensures View(heap, rest)[k] == RemoveAt(View(heap, slots), at)[k] {
      ViewAt(heap, rest, k);
      ViewAt(heap, slots, if k < at then k else k + 1);
    }
  }

  lemma {:induction false} ViewAdded(heap0: bytes, slots: seq<Slot>, at: nat, heap: bytes, slot: Slot)
    requires at <= |slots| && forall k :: 0 <= k < |slots| ==> Shown(heap, slots[k]) == Shown(heap0, slots[k])
    ensures View(heap, InsertAt(slots, at, slot)) == InsertAt(View(heap0, slots), at, Shown(heap, slot))
  {
    var s := InsertAt(slots, at, slot);
    forall k | 0 <= k < |s| ensures View(heap, s)[k] == InsertAt(View(heap0, slots), at, Shown(heap, slot))[k] {
      ViewAt(heap, s, k);
      if k != at { ViewAt(heap0, slots, if k < at then k else k - 1); }
    }
  }

  lemma {:induction false} BelowWater(slots: seq<Slot>, at: nat, highWater: nat)
    requires at < |slots| && forall k :: 0 <= k < |slots| ==> slots[k].offset <= highWater
    ensures forall k :: 0 <= k < |slots| - 1 ==> RemoveAt(slots, at)[k].offset <= highWater
  {
    assert forall k :: 0 <= k < |slots| - 1 ==> RemoveAt(slots, at)[k] == slots[if k < at then k else k + 1];
  }

  /** Taking out a slot and closing the hole is a removal, and nothing else. */
  lemma {:induction false} Removal(
      heap0: bytes, before: seq<Slot>, sizes: seq<nat>, highWater: nat, at: nat, heap: bytes, slots: seq<Slot>)
    requires Tiled(heap0, before, sizes, highWater) && at < |before|
    requires SlidesClear(RemoveAt(before, at), RemoveAt(sizes, at), before[at].offset, sizes[at])
    requires Closing(heap0, RemoveAt(before, at), heap, slots, |before| - 1, before[at].offset, sizes[at])
    ensures sizes[at] <= highWater && Tiled(heap, slots, RemoveAt(sizes, at), highWater - sizes[at])
  {
    HoleOf(heap0, before, sizes, highWater, at);
    SumRemove(sizes, at);
    BelowWater(before, at, highWater);
    Closed(heap0, RemoveAt(before, at), RemoveAt(sizes, at), heap, slots, before[at].offset, sizes[at], highWater);
  }

  lemma {:induction false} Addition(
      heap0: bytes, heap: bytes, slots: seq<Slot>, sizes: seq<nat>, highWater: nat, at: nat, slot: Slot, payload: bytes)
    requires Tiled(heap0, slots, sizes, highWater) && at <= |slots| && |heap| == |heap0| && |payload| < TWO_32
    requires slot.offset == highWater + 4 + |payload| <= |heap|
    requires forall k :: 0 <= k < 4 + |payload| ==> heap[|heap| - slot.offset + k] == CellOf(payload)[k]
    requires forall k :: |heap| - highWater <= k < |heap| ==> heap[k] == heap0[k]
    ensures Tiled(heap, InsertAt(slots, at, slot), InsertAt(sizes, at, 4 + |payload|), slot.offset)
    ensures View(heap, InsertAt(slots, at, slot))
      == InsertAt(View(heap0, slots), at, Stored(slot.key, slot.flags, CellOf(payload)))
  {
    assert heap[|heap| - slot.offset..][..4 + |payload|] == CellOf(payload);
    assert heap[|heap| - highWater..] == heap0[|heap| - highWater..];
    CellAdded(heap0, heap, slots, sizes, highWater, at, slot, payload);
    ViewAdded(heap0, slots, at, heap, slot);
  }

  /** When no cell slides on top of a later one, the function too keeps every cell. */
  lemma {:induction false} CompactedCloses(
      heap0: bytes, slots0: seq<Slot>, sizes: seq<nat>, heap: bytes, slots: seq<Slot>, n: nat, top: nat, shift: nat)
    requires Closable(heap0, slots0, sizes, top, shift) && Closing(heap0, slots0, heap, slots, n, top, shift)
    ensures Closing(heap0, slots0, Compacted(heap, slots, n, top, shift).0, Compacted(heap, slots, n, top, shift).1,
      |slots0|, top, shift)
    decreases |slots0| - n
  {
    if n < |slots| {
      if slots[n].offset < top {
        SkipOne(heap0, slots0, heap, slots, n, top, shift);
        CompactedCloses(heap0, slots0, sizes, heap, slots, n + 1, top, shift);
      } else {
        var heap', slots' := SlideOne(heap0, slots0, sizes, heap, slots, n, top, shift);
        CompactedStep(heap, slots, n, top, shift);
        CompactedCloses(heap0, slots0, sizes, heap', slots', n + 1, top, shift);
      }
    }
  }

  /** What one step of gc_node needs, and what it does. */
  ghost predicate Stepping(heap: bytes, slots: seq<Slot>, n: nat, top: nat, shift: nat)
    requires n < |slots|
  {
    slots[n].offset >= top ==> Whole(heap, slots[n]) && shift + CellSize(heap, slots[n].offset) <= slots[n].offset
  }

  ghost function SteppedHeap(heap: bytes, slots: seq<Slot>, n: nat, top: nat, shift: nat): bytes
    requires n < |slots| && Stepping(heap, slots, n, top, shift)
  {
    var offset := slots[n].offset;
    if offset < top then heap else Moved(heap, |heap| - offset, |heap| - (offset - shift), CellSize(heap, offset))
  }

  function SteppedSlots(slots: seq<Slot>, n: nat, top: nat, shift: nat): seq<Slot>
    requires n < |slots| && (slots[n].offset >= top ==> slots[n].offset >= shift)
  {
    if slots[n].offset < top then slots else slots[n := slots[n].(offset := slots[n].offset - shift)]
  }

  lemma {:induction false} StepCloses(
      heap0: bytes, slots0: seq<Slot>, sizes: seq<nat>, heap: bytes, slots: seq<Slot>, n: nat, top: nat, shift: nat)
    requires Closable(heap0, slots0, sizes, top, shift) && Closing(heap0, slots0, heap, slots, n, top, shift)
    requires n < |slots|
    ensures Stepping(heap, slots, n, top, shift)
    ensures Closing(heap0, slots0, SteppedHeap(heap, slots, n, top, shift), SteppedSlots(slots, n, top, shift), n + 1,
      top, shift)
  {
    if slots[n].offset < top {
      SkipOne(heap0, slots0, heap, slots, n, top, shift);
    } else {
      var h, s := SlideOne(heap0, slots0, sizes, heap, slots, n, top, shift);
    }
  }

  lemma {:induction false} CompactedStep(heap: bytes, slots: seq<Slot>, n: nat, top: nat, shift: nat)
    requires n < |slots| && top <= slots[n].offset && Whole(heap, slots[n])
    requires shift + CellSize(heap, slots[n].offset) <= slots[n].offset
    ensures
      var offset := slots[n].offset;
      Compacted(heap, slots, n, top, shift)
        == Compacted(Moved(heap, |heap| - offset, |heap| - (offset - shift), CellSize(heap, offset)),
                     slots[n := Slid(slots[n], top, shift)], n + 1, top, shift)
  {
  }

  lemma {:induction false} ClosableBounds(heap0: bytes, slots0: seq<Slot>, sizes: seq<nat>, top: nat, shift: nat)
    requires Closable(heap0, slots0, sizes, top, shift)
    ensures forall i :: 0 <= i < |slots0| && slots0[i].offset >= top ==> shift + sizes[i] <= slots0[i].offset <= |heap0|
  {
  }

  /** The next step of both functions, when the size field is as it should be. */
  lemma {:induction false} SameStep(
      heap: bytes, slots: seq<Slot>, slots0: seq<Slot>, sizes: seq<nat>, n: nat, top: nat, shift: nat)
    requires n < |slots| == |slots0| == |sizes| && slots[n] == slots0[n]
    requires forall i :: 0 <= i < |slots0| && slots0[i].offset >= top ==> shift + sizes[i] <= slots0[i].offset <= |heap|
    requires slots[n].offset >= top ==> 4 <= slots[n].offset && CellSize(heap, slots[n].offset) == sizes[n]
    ensures slots[n].offset < top ==>
      && Compacted(heap, slots, n, top, shift) == Compacted(heap, slots, n + 1, top, shift)
      && Compact(heap, slots0, sizes, n, top, shift) == Compact(heap, slots0, sizes, n + 1, top, shift)
    ensures slots[n].offset >= top ==>
      var heap' := Moved(heap, |heap| - slots[n].offset, |heap| - (slots[n].offset - shift), sizes[n]);
      && Compacted(heap, slots, n, top, shift)
         == Compacted(heap', slots[n := Slid(slots[n], top, shift)], n + 1, top, shift)
      && Compact(heap, slots0, sizes, n, top, shift) == Compact(heap', slots0, sizes, n + 1, top, shift)
  {
  }

  /** Then it reads every size field as it was, and does what the compaction for known sizes does. */
  lemma {:induction false} CompactedIsCompact(
      heap0: bytes, slots0: seq<Slot>, sizes: seq<nat>, heap: bytes, slots: seq<Slot>, n: nat, top: nat, shift: nat)
    requires Closable(heap0, slots0, sizes, top, shift) && Closing(heap0, slots0, heap, slots, n, top, shift)
    ensures forall i :: 0 <= i < |slots0| && slots0[i].offset >= top ==> shift + sizes[i] <= slots0[i].offset <= |heap|
    ensures Compacted(heap, slots, n, top, shift).0 == Compact(heap, slots0, sizes, n, top, shift)
    decreases |slots0| - n
  {
    ClosableBounds(heap0, slots0, sizes, top, shift);
    if n < |slots| {
      if slots[n].offset < top {
        SkipOne(heap0, slots0, heap, slots, n, top, shift);
        SameStep(heap, slots, slots0, sizes, n, top, shift);
        CompactedIsCompact(heap0, slots0, sizes, heap, slots, n + 1, top, shift);
      } else {
        var heap', slots' := SlideOne(heap0, slots0, sizes, heap, slots, n, top, shift);
        SameStep(heap, slots, slots0, sizes, n, top, shift);
        CompactedIsCompact(heap0, slots0, sizes, heap', slots', n + 1, top, shift);
      }
    }
  }

  /**
    A page of three equal cells: the first written comes out, and the slots list the other two against the order of
    the heap.
  */
  const LOSING_HEAP: bytes := [1, 0, 0, 0, 7] + [1, 0, 0, 0, 9] + [1, 0, 0, 0, 5]
  const LOSING_SLOTS: seq<Slot> := [Slot(0, 0, 5), Slot(1, 0, 15), Slot(2, 0, 10)]

  /** Against that order a cell is lost: the last slot ends up with the payload of the one before it. */
  lemma {:induction false} OutOfOrderLoses()
    ensures Tiled(LOSING_HEAP, LOSING_SLOTS, [5, 5, 5], 15)
    ensures
      var r := Compacted(LOSING_HEAP, LOSING_SLOTS[1..], 0, 5, 5);
      && Whole(LOSING_HEAP, LOSING_SLOTS[2]) && CellBytes(LOSING_HEAP, LOSING_SLOTS[2]) == [1, 0, 0, 0, 9]
      && |r.1| == 2 && Whole(r.0, r.1[1]) && CellBytes(r.0, r.1[1]) == [1, 0, 0, 0, 7]
  {
    var h, s := LOSING_HEAP, LOSING_SLOTS[1..];
    assert Sum([5, 5, 5]) == 15 by {
      assert [5, 5, 5][..2] == [5, 5] && [5, 5][..1] == [5] && [5][..0] == [];
      assert Sum([5]) == 5 && Sum([5, 5]) == 10;
    }
    assert CellSize(h, 5) == 5 && CellSize(h, 10) == 5 && CellSize(h, 15) == 5;
    var h1, s1 := Moved(h, 0, 5, 5), [Slot(1, 0, 10), Slot(2, 0, 10)];
    assert h1 == [1, 0, 0, 0, 7] + [1, 0, 0, 0, 7] + [1, 0, 0, 0, 5];
    assert s[0 := s[0].(offset := 10)] == s1;
    var h2, s2 := Moved(h1, 5, 10, 5), [Slot(1, 0, 10), Slot(2, 0, 5)];
    assert h2 == [1, 0, 0, 0, 7] + [1, 0, 0, 0, 7] + [1, 0, 0, 0, 7];
    assert s1[1 := s1[1].(offset := 5)] == s2;
    assert CellSize(h1, 10) == 5;
    assert Compacted(h1, s1, 1, 5, 5) == Compacted(h2, s2, 2, 5, 5) == (h2, s2);
    assert Compacted(h, s, 0, 5, 5) == Compacted(h1, s1, 1, 5, 5);
    assert CellSize(h2, 5) == 5;
    assert CellBytes(h2, s2[1]) == [1, 0, 0, 0, 7];
  }

  /** Tiled, behind a countdown: the proofs of the methods see that it holds but do not unfold it. */
  ghost predicate Intact(heap: bytes, slots: seq<Slot>, sizes: seq<nat>, highWater: nat, steps: nat)
    decreases steps
  {
    if steps == 0 then Tiled(heap, slots, sizes, highWater) else Intact(heap, slots, sizes, highWater, steps - 1)
  }

  lemma {:induction false} IntactIsTiled(heap: bytes, slots: seq<Slot>, sizes: seq<nat>, highWater: nat, steps: nat)
    ensures Intact(heap, slots, sizes, highWater, steps) <==> Tiled(heap, slots, sizes, highWater)
    decreases steps
  {
    if steps > 0 { IntactIsTiled(heap, slots, sizes, highWater, steps - 1); }
  }

  lemma {:induction false} TiledIsIntact(heap: bytes, slots: seq<Slot>, sizes: seq<nat>, highWater: nat, steps: nat)
    requires steps > 2 && Tiled(heap, slots, sizes, highWater)
    ensures Intact(heap, slots, sizes, highWater, steps)
  {
    IntactIsTiled(heap, slots, sizes, highWater, steps);
  }

  lemma {:induction false} IntactAddition(
      heap0: bytes, heap: bytes, slots: seq<Slot>, sizes: seq<nat>, highWater: nat, at: nat, slot: Slot, payload: bytes,
      steps: nat)
    requires steps > 2 && Intact(heap0, slots, sizes, highWater, steps) && at <= |slots| && |heap| == |heap0|
    requires |payload| < TWO_32
    requires slot.offset == highWater + 4 + |payload| <= |heap|
    requires forall k :: 0 <= k < 4 + |payload| ==> heap[|heap| - slot.offset + k] == CellOf(payload)[k]
    requires forall k :: |heap| - highWater <= k < |heap| ==> heap[k] == heap0[k]
    ensures |sizes| == |slots|
    ensures Intact(heap, InsertAt(slots, at, slot), InsertAt(sizes, at, 4 + |payload|), slot.offset, steps)
    ensures View(heap, InsertAt(slots, at, slot))
      == InsertAt(View(heap0, slots), at, Stored(slot.key, slot.flags, CellOf(payload)))
  {
    IntactIsTiled(heap0, slots, sizes, highWater, steps);
    Addition(heap0, heap, slots, sizes, highWater, at, slot, payload);
    TiledIsIntact(heap, InsertAt(slots, at, slot), InsertAt(sizes, at, 4 + |payload|), slot.offset, steps);
  }

  /** The cell of a slot that is to come out. */
  lemma {:induction false} IntactSlot(
      heap: bytes, slots: seq<Slot>, sizes: seq<nat>, highWater: nat, at: nat, steps: nat)
    requires steps > 2 && Intact(heap, slots, sizes, highWater, steps) && at < |slots|
    ensures |sizes| == |slots| && 4 <= slots[at].offset <= |heap|
    ensures CellSize(heap, slots[at].offset) == sizes[at] <= highWater
    ensures |View(heap, slots)[at].cell| == sizes[at]
  {
    ViewAt(heap, slots, at);
    IntactIsTiled(heap, slots, sizes, highWater, steps);
  }

  lemma {:induction false} IntactSizes(heap: bytes, slots: seq<Slot>, sizes: seq<nat>, highWater: nat, steps: nat)
    requires steps > 2 && Intact(heap, slots, sizes, highWater, steps)
    ensures |sizes| == |slots| && Sum(sizes) == highWater
    ensures forall i :: 0 <= i < |slots| ==> |View(heap, slots)[i].cell| == sizes[i]
  {
    IntactIsTiled(heap, slots, sizes, highWater, steps);
    forall i | 0 <= i < |slots| ensures |View(heap, slots)[i].cell| == sizes[i] {
      IntactSlot(heap, slots, sizes, highWater, i, steps);
    }
  }

  lemma {:induction false} IntactHole(
      heap: bytes, slots: seq<Slot>, sizes: seq<nat>, highWater: nat, at: nat, steps: nat)
    requires steps > 2 && Intact(heap, slots, sizes, highWater, steps) && at < |slots| == |sizes|
    requires SlidesClear(RemoveAt(slots, at), RemoveAt(sizes, at), slots[at].offset, sizes[at])
    ensures Closable(heap, RemoveAt(slots, at), RemoveAt(sizes, at), slots[at].offset, sizes[at])
  {
    IntactIsTiled(heap, slots, sizes, highWater, steps);
    HoleOf(heap, slots, sizes, highWater, at);
  }

  lemma {:induction false} IntactRemoval(
      heap0: bytes, before: seq<Slot>, sizes: seq<nat>, highWater: nat, at: nat, heap: bytes, slots: seq<Slot>,
      steps: nat)
    requires steps > 2 && Intact(heap0, before, sizes, highWater, steps) && at < |before| == |sizes|
    requires SlidesClear(RemoveAt(before, at), RemoveAt(sizes, at), before[at].offset, sizes[at])
    requires Closing(heap0, RemoveAt(before, at), heap, slots, |before| - 1, before[at].offset, sizes[at])
    ensures sizes[at] <= highWater && Intact(heap, slots, RemoveAt(sizes, at), highWater - sizes[at], steps)
  {
    IntactIsTiled(heap0, before, sizes, highWater, steps);
    Removal(heap0, before, sizes, highWater, at, heap, slots);
    TiledIsIntact(heap, slots, RemoveAt(sizes, at), highWater - sizes[at], steps);
  }

  lemma {:induction false} RemovalView(
      heap0: bytes, before: seq<Slot>, at: nat, heap: bytes, slots: seq<Slot>, top: nat, shift: nat)
    requires at < |before| && Closing(heap0, RemoveAt(before, at), heap, slots, |before| - 1, top, shift)
    ensures View(heap, slots) == RemoveAt(View(heap0, before), at)
  {
    ClosedView(heap0, RemoveAt(before, at), heap, slots, top, shift);
    ViewRemoved(heap0, before, at);
  }

  lemma {:induction false} RemovalDone(
      heap0: bytes, before: seq<Slot>, sizes: seq<nat>, highWater: nat, at: nat, heap: bytes, slots: seq<Slot>,
      steps: nat)
    requires steps > 2 && Intact(heap0, before, sizes, highWater, steps) && at < |before| == |sizes|
    requires SlidesClear(RemoveAt(before, at), RemoveAt(sizes, at), before[at].offset, sizes[at])
    requires Closing(heap0, RemoveAt(before, at), heap, slots, |before| - 1, before[at].offset, sizes[at])
    ensures sizes[at] <= highWater && Intact(heap, slots, RemoveAt(sizes, at), highWater - sizes[at], steps)
    ensures |slots| == |before| - 1 && View(heap, slots) == RemoveAt(View(heap0, before), at)
  {
    IntactRemoval(heap0, before, sizes, highWater, at, heap, slots, steps);
    RemovalView(heap0, before, at, heap, slots, before[at].offset, sizes[at]);
  }

  class SlottedPage {
    const heap: array<byte>
    var slots: seq<Slot>
    var highWater: nat
    var freeHeap: nat
    /** The sizes of the cells, slot by slot. */
    ghost var sizes: seq<nat>
    /** The bytes of the heap. */
    ghost var image: bytes
    ghost const seal: nat

    /** Slots and cells account for the whole heap: what neither uses is free. */
    ghost predicate Valid()
      reads this, heap
    {
      && seal > 2 && heap[..] == image && Intact(image, slots, sizes, highWater, seal)
      && SLOT * |slots| + highWater + freeHeap == heap.Length
    }

    ghost function Contents(): seq<Stored>
      reads this
    {
      View(image, slots)
    }

    /** An empty node. */
    constructor (capacity: nat)
      ensures Valid() && fresh(heap) && Contents() == [] && freeHeap == heap.Length == capacity
    {
      heap := new byte[capacity](_ => 0);
      slots, sizes, highWater, freeHeap := [], [], 0, capacity;
      seal := 3;
      new;
      image := heap[..];
      IntactIsTiled(image, [], [], 0, 3);
    }

    /** gc_node: closes the hole of a cell that has been taken out, slot by slot. */
    method CloseHole(top: nat, deletedSize: nat)
      requires Closable(heap[..], slots, sizes, top, deletedSize + 4)
      modifies this`slots, heap
      ensures Closing(old(heap[..]), old(slots), heap[..], slots, |slots|, top, deletedSize + 4)
    {
      ghost var heap0, slots0 := heap[..], slots;
      var shift := deletedSize + 4;
      var n := 0;
      while n < |slots|
        invariant n <= |slots| == |slots0|
        invariant Closing(heap0, slots0, heap[..], slots, n, top, shift)
      {
        StepCloses(heap0, slots0, sizes, heap[..], slots, n, top, shift);
        SlideNext(n, top, shift);
        n := n + 1;
      }
    }

    /** One step of gc_node: the cell of slot `n`, if it lies above the hole, moves as far as its size field says. */
    method SlideNext(n: nat, top: nat, shift: nat)
      requires n < |slots| && Stepping(heap[..], slots, n, top, shift)
      modifies this`slots, heap
      ensures heap[..] == SteppedHeap(old(heap[..]), old(slots), n, top, shift)
      ensures slots == SteppedSlots(old(slots), n, top, shift)
    {
      var offset := slots[n].offset;
      if offset < top {
        return;
      }
      var size := SizeAt(offset);
      MemMove(heap.Length - offset, heap.Length - (offset - shift), size);
      slots := slots[n := slots[n].(offset := offset - shift)];
    }

    /** The size of the cell at a place, read from its size field. */
    method SizeAt(offset: nat) returns (size: nat)
      requires 4 <= offset <= heap.Length
      ensures size == CellSize(heap[..], offset)
    {
      assert heap[heap.Length - offset..] == heap[..][heap.Length - offset..];
      size := 4 + ReadLe32(heap[heap.Length - offset..]);
    }

    method MemMove(src: nat, dest: nat, n: nat)
      requires src + n <= heap.Length && dest + n <= heap.Length
      modifies heap
      ensures heap[..] == Moved(old(heap[..]), src, dest, n)
    {
      forall k | 0 <= k < n { heap[dest + k] := heap[src + k]; }
      assert heap[..] == Moved(old(heap[..]), src, dest, n) by {
        assert forall k :: 0 <= k < heap.Length ==> heap[..][k] == Moved(old(heap[..]), src, dest, n)[k];
      }
    }

    /**
      btree_node_insert_inline_ex and write_page_key: the new cell goes to the left end of the heap, its slot to `at`.
    */
    method Insert(at: nat, key: nat, flags: nat, payload: bytes) returns (status: Status)
      requires Valid() && at <= |slots| && |payload| < TWO_32
      modifies this, heap
      ensures Valid()
      ensures status == if old(freeHeap) < 4 + |payload| + SLOT then NotEnoughSpace else Ok
      ensures status != Ok ==> Contents() == old(Contents()) && freeHeap == old(freeHeap) && highWater == old(highWater)
      ensures status == Ok ==>
        && Contents() == InsertAt(old(Contents()), at, Stored(key, flags, CellOf(payload)))
        && freeHeap == old(freeHeap) - (4 + |payload| + SLOT) && highWater == old(highWater) + 4 + |payload|
    {
      var size := 4 + |payload|;
      if freeHeap < size + SLOT {
        return NotEnoughSpace;
      }
      ghost var heap0 := image;
      var left := heap.Length - (highWater + size);
      var cell := CellOf(payload);
      forall k | 0 <= k < size { heap[left + k] := cell[k]; }
      image := heap[..];
      var slot := Slot(key, flags, highWater + size);
      IntactAddition(heap0, image, slots, sizes, highWater, at, slot, payload, seal);
      slots := InsertAt(slots, at, slot);
      sizes := InsertAt(sizes, at, size);
      highWater := highWater + size;
      freeHeap := freeHeap - (size + SLOT);
      status := Ok;
    }

    /**
      btree_node_remove, when no cell slides on top of a later one: all other slots keep
      their keys, flags and cells, and exactly what the cell cost becomes free.
    */
    method Remove(at: nat)
      requires Valid() && at < |slots|
      requires |sizes| == |slots| && SlidesClear(RemoveAt(slots, at), RemoveAt(sizes, at), slots[at].offset, sizes[at])
      modifies this, heap
      ensures Valid()
      ensures Contents() == RemoveAt(old(Contents()), at)
      ensures
        var cost := |old(Contents())[at].cell|;
        freeHeap == old(freeHeap) + cost + SLOT && highWater == old(highWater) - cost
    {
      ghost var heap0, before, z := image, slots, sizes;
      IntactSlot(image, slots, sizes, highWater, at, seal);
      var top := slots[at].offset;
      var size := SizeAt(top);
      var deletedSize := size - 4;
      slots := RemoveAt(slots, at);
      sizes := RemoveAt(sizes, at);
      CompactAfter(top, deletedSize, before, z, at);
      highWater := highWater - (deletedSize + 4);
      freeHeap := freeHeap + deletedSize + 4 + SLOT;
    }

    /** The slot is out: the heap is compacted. */
    method CompactAfter(top: nat, deletedSize: nat, ghost before: seq<Slot>, ghost z: seq<nat>, ghost at: nat)
      requires seal > 2 && heap[..] == image && Intact(image, before, z, highWater, seal) && at < |before| == |z|
      requires slots == RemoveAt(before, at) && sizes == RemoveAt(z, at)
      requires top == before[at].offset && deletedSize + 4 == z[at] && SlidesClear(slots, sizes, top, z[at])
      modifies this`slots, this`image, heap
      ensures heap[..] == image && z[at] <= highWater && Intact(image, slots, sizes, highWater - z[at], seal)
      ensures |slots| == |before| - 1 && View(image, slots) == RemoveAt(View(old(image), before), at)
    {
      ghost var heap0 := image;
      IntactHole(heap0, before, z, highWater, at, seal);
      CloseHole(top, deletedSize);
      image := heap[..];
      RemovalDone(heap0, before, z, highWater, at, image, slots, seal);
    }
  }
}
