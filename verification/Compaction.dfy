/**
  Closing the hole that a removed cell leaves in the heap of a node (gc_node in src/btree_node.c), for cells of known
  sizes: when no cell is lost. A slot names its cell by the distance of the cell's left edge from the right end of the
  heap.
*/
module Compaction {

  datatype Slot = Slot(key: nat, flags: nat, offset: nat)

  /** Two cells that do not overlap. */
  ghost predicate Clear(a: Slot, sizeA: nat, b: Slot, sizeB: nat) {
    a.offset <= b.offset - sizeB || b.offset <= a.offset - sizeA
  }

  ghost predicate AllClear(slots: seq<Slot>, sizes: seq<nat>)
    requires |sizes| == |slots|
  {
    forall i, j {:trigger Clear(slots[i], sizes[i], slots[j], sizes[j])} :: 0 <= i < j < |slots| ==>
      Clear(slots[i], sizes[i], slots[j], sizes[j])
  }

  /** memmove. */
  function Moved<T>(heap: seq<T>, src: nat, dest: nat, n: nat): (r: seq<T>)
    requires src + n <= |heap| && dest + n <= |heap|
    ensures |r| == |heap|
  {
    heap[..dest] + heap[src..src + n] + heap[dest + n..]
  }

  lemma {:induction false} MovedAway<T>(heap: seq<T>, src: nat, dest: nat, n: nat, at: nat, m: nat)
    requires src + n <= |heap| && dest + n <= |heap| && at + m <= |heap|
    requires at + m <= dest || dest + n <= at
    ensures Moved(heap, src, dest, n)[at..][..m] == heap[at..][..m]
  {
    var r := Moved(heap, src, dest, n);
    forall k | 0 <= k < m ensures r[at..][..m][k] == heap[at..][..m][k] {
      assert r[at + k] == heap[at + k];
    }
  }

  lemma {:induction false} MovedHere<T>(heap: seq<T>, src: nat, dest: nat, n: nat)
    requires src + n <= |heap| && dest + n <= |heap|
    ensures Moved(heap, src, dest, n)[dest..][..n] == heap[src..][..n]
  {
    var r := Moved(heap, src, dest, n);
    forall k | 0 <= k < n ensures r[dest..][..n][k] == heap[src..][..n][k] {
      assert r[dest + k] == heap[src + k];
    }
  }

  /** A slot after the hole below `top` of width `shift` has closed. */
  function Slid(slot: Slot, top: nat, shift: nat): Slot
    requires slot.offset >= top ==> slot.offset >= shift
  {
    if slot.offset < top then slot else slot.(offset := slot.offset - shift)
  }

  /**
    Sliding the cells above the hole in the order of their slots never puts one on top of a later one: either the
    later one lies above it, or the hole is wide enough.
  */
  ghost predicate SlidesClear(slots: seq<Slot>, sizes: seq<nat>, top: nat, shift: nat)
    requires |sizes| == |slots|
  {
    forall i, j {:trigger Passes(slots[i], sizes[i], slots[j], sizes[j], top, shift)} :: 0 <= i < j < |slots| ==>
      Passes(slots[i], sizes[i], slots[j], sizes[j], top, shift)
  }

  /** The first cell, when it slides, does not touch the second. */
  ghost predicate Passes(a: Slot, sizeA: nat, b: Slot, sizeB: nat, top: nat, shift: nat) {
    top <= a.offset && top <= b.offset ==> a.offset - shift <= b.offset - sizeB || b.offset <= a.offset - shift - sizeA
  }

  /** The cells above the hole come in ascending order of their place, as the slots list them. */
  ghost predicate AscendingAbove(slots: seq<Slot>, top: nat) {
    forall i, j :: 0 <= i < j < |slots| && top <= slots[i].offset && top <= slots[j].offset ==>
      slots[i].offset < slots[j].offset
  }

  /** Ascending order is enough, whatever the width of the hole. */
  lemma {:induction false} AscendingSlidesClear(slots: seq<Slot>, sizes: seq<nat>, top: nat, shift: nat)
    requires |sizes| == |slots| && AscendingAbove(slots, top)
    requires AllClear(slots, sizes)
    ensures SlidesClear(slots, sizes, top, shift)
  {
    forall i, j | 0 <= i < j < |slots| ensures Passes(slots[i], sizes[i], slots[j], sizes[j], top, shift) {
      assert Clear(slots[i], sizes[i], slots[j], sizes[j]);
    }
  }

  /** The hole lies apart from all cells. */
  ghost predicate HoleClear(slots: seq<Slot>, sizes: seq<nat>, top: nat, shift: nat) {
    && |sizes| == |slots| && shift <= top
    && forall i :: 0 <= i < |slots| ==>
      sizes[i] <= slots[i].offset && (slots[i].offset <= top - shift || top <= slots[i].offset - sizes[i])
  }

  // ---- the compaction, for known sizes ----

  /** Cells of these sizes lie apart from each other and from the hole, in a heap of `n` elements. */
  ghost predicate Layout(slots: seq<Slot>, sizes: seq<nat>, n: nat, top: nat, shift: nat) {
    && HoleClear(slots, sizes, top, shift) && shift > 0
    && (forall i :: 0 <= i < |slots| ==> sizes[i] > 0 && slots[i].offset <= n)
    && AllClear(slots, sizes)
  }

  /** The loop of gc_node from slot `k` on. */
  function Compact<T>(heap: seq<T>, slots: seq<Slot>, sizes: seq<nat>, k: nat, top: nat, shift: nat): (r: seq<T>)
    requires k <= |slots| == |sizes|
    requires forall i :: 0 <= i < |slots| && slots[i].offset >= top ==> shift + sizes[i] <= slots[i].offset <= |heap|
    ensures |r| == |heap|
    decreases |slots| - k
  {
    if k == |slots| then heap
    else if slots[k].offset < top then Compact(heap, slots, sizes, k + 1, top, shift)
    else
      var src := |heap| - slots[k].offset;
      Compact(Moved(heap, src, src + shift, sizes[k]), slots, sizes, k + 1, top, shift)
  }

  /** What lies at a place of the heap. */
  function Piece<T>(heap: seq<T>, offset: nat, size: nat): seq<T>
    requires size <= offset <= |heap|
  {
    heap[|heap| - offset..][..size]
  }

  /** Every cell ends up at its place after the slide, with its own elements. */
  ghost predicate Lossless<T>(heap: seq<T>, slots: seq<Slot>, sizes: seq<nat>, top: nat, shift: nat)
    requires Layout(slots, sizes, |heap|, top, shift)
  {
    var r := Compact(heap, slots, sizes, 0, top, shift);
    forall i {:trigger slots[i]} :: 0 <= i < |slots| ==>
      Piece(r, Slid(slots[i], top, shift).offset, sizes[i]) == Piece(heap, slots[i].offset, sizes[i])
  }

  /** Where cell `i` is before step `k`. */
  function PlaceAt(slots: seq<Slot>, i: nat, k: nat, top: nat, shift: nat): nat
    requires i < |slots| && (slots[i].offset >= top ==> slots[i].offset >= shift)
  {
    if i < k then Slid(slots[i], top, shift).offset else slots[i].offset
  }

  /** One step leaves every cell with its elements. */
  lemma {:induction false} StepKeeps<T>(
      heap: seq<T>, slots: seq<Slot>, sizes: seq<nat>, k: nat, top: nat, shift: nat, i: nat)
    requires Layout(slots, sizes, |heap|, top, shift) && SlidesClear(slots, sizes, top, shift)
    requires k < |slots| && i < |slots| && slots[k].offset >= top
    ensures
      var src := |heap| - slots[k].offset;
      Piece(Moved(heap, src, src + shift, sizes[k]), PlaceAt(slots, i, k + 1, top, shift), sizes[i])
        == Piece(heap, PlaceAt(slots, i, k, top, shift), sizes[i])
  {
    var src := |heap| - slots[k].offset;
    if i == k {
      MovedHere(heap, src, src + shift, sizes[k]);
    } else {
      assert if i < k then Clear(slots[i], sizes[i], slots[k], sizes[k])
        else Clear(slots[k], sizes[k], slots[i], sizes[i]);
      if i > k { assert Passes(slots[k], sizes[k], slots[i], sizes[i], top, shift); }
      MovedAway(heap, src, src + shift, sizes[k], |heap| - PlaceAt(slots, i, k, top, shift), sizes[i]);
    }
  }

  lemma {:induction false} CompactKeeps<T>(
      heap: seq<T>, slots: seq<Slot>, sizes: seq<nat>, k: nat, top: nat, shift: nat, i: nat)
    requires Layout(slots, sizes, |heap|, top, shift) && SlidesClear(slots, sizes, top, shift)
    requires k <= |slots| && i < |slots|
    ensures Piece(Compact(heap, slots, sizes, k, top, shift), Slid(slots[i], top, shift).offset, sizes[i])
      == Piece(heap, PlaceAt(slots, i, k, top, shift), sizes[i])
    decreases |slots| - k
  {
    if k < |slots| {
      if slots[k].offset < top {
        CompactKeeps(heap, slots, sizes, k + 1, top, shift, i);
      } else {
        var src := |heap| - slots[k].offset;
        StepKeeps(heap, slots, sizes, k, top, shift, i);
        CompactKeeps(Moved(heap, src, src + shift, sizes[k]), slots, sizes, k + 1, top, shift, i);
      }
    }
  }

  // ---- a cell that is hit is lost ----

  /** The element `x` is at place `p`, if anywhere. */
  ghost predicate OnlyAt<T>(heap: seq<T>, x: T, p: nat) { forall q :: 0 <= q < |heap| && heap[q] == x ==> q == p }

  ghost predicate Gone<T>(heap: seq<T>, x: T) { forall q :: 0 <= q < |heap| ==> heap[q] != x }

  /** A place of cell `j` that the slide of cell `i` overwrites. */
  lemma {:induction false} HitPlace(
      slots: seq<Slot>, sizes: seq<nat>, n: nat, top: nat, shift: nat, i: nat, j: nat)
    returns (p: nat)
    requires Layout(slots, sizes, n, top, shift) && i < j < |slots|
    requires !Passes(slots[i], sizes[i], slots[j], sizes[j], top, shift)
    ensures n - slots[j].offset <= p < n - slots[j].offset + sizes[j]
    ensures n - slots[i].offset + shift <= p < n - slots[i].offset + shift + sizes[i]
  {
    var a, b := n - slots[j].offset, n - slots[i].offset + shift;
    p := if a < b then b else a;
  }

  /** Moving a cell that does not contain the place of `x` makes no second `x`. */
  lemma {:induction false} StaysOnly<T>(heap: seq<T>, src: nat, dest: nat, n: nat, x: T, p: nat)
    requires src + n <= |heap| && dest + n <= |heap| && OnlyAt(heap, x, p) && !(src <= p < src + n)
    ensures OnlyAt(Moved(heap, src, dest, n), x, p)
    ensures dest <= p < dest + n ==> Gone(Moved(heap, src, dest, n), x)
  {
    var r := Moved(heap, src, dest, n);
    assert forall q :: 0 <= q < |r| ==> r[q] == heap[if dest <= q < dest + n then src + (q - dest) else q];
  }

  lemma {:induction false} StaysGone<T>(
      heap: seq<T>, slots: seq<Slot>, sizes: seq<nat>, k: nat, top: nat, shift: nat, x: T)
    requires Layout(slots, sizes, |heap|, top, shift) && k <= |slots| && Gone(heap, x)
    ensures Gone(Compact(heap, slots, sizes, k, top, shift), x)
    decreases |slots| - k
  {
    if k < |slots| {
      if slots[k].offset < top {
        StaysGone(heap, slots, sizes, k + 1, top, shift, x);
      } else {
        var src := |heap| - slots[k].offset;
        var r := Moved(heap, src, src + shift, sizes[k]);
        assert forall q :: 0 <= q < |r| ==>
          r[q] == heap[if src + shift <= q < src + shift + sizes[k] then q - shift else q];
        StaysGone(r, slots, sizes, k + 1, top, shift, x);
      }
    }
  }

  /** When step `i` is still to come and hits place `p` of cell `j`, the element at `p` will be gone. */
  lemma {:induction false} WillBeGone<T>(
      heap: seq<T>, slots: seq<Slot>, sizes: seq<nat>, k: nat, top: nat, shift: nat, i: nat, j: nat, p: nat, x: T)
    requires Layout(slots, sizes, |heap|, top, shift) && k <= i < j < |slots| && slots[i].offset >= top
    requires |heap| - slots[j].offset <= p < |heap| - slots[j].offset + sizes[j]
    requires |heap| - slots[i].offset + shift <= p < |heap| - slots[i].offset + shift + sizes[i]
    requires OnlyAt(heap, x, p)
    ensures Gone(Compact(heap, slots, sizes, k, top, shift), x)
    decreases |slots| - k
  {
    if slots[k].offset < top {
      WillBeGone(heap, slots, sizes, k + 1, top, shift, i, j, p, x);
    } else {
      var src := |heap| - slots[k].offset;
      assert Clear(slots[k], sizes[k], slots[j], sizes[j]);
      StaysOnly(heap, src, src + shift, sizes[k], x, p);
      var r := Moved(heap, src, src + shift, sizes[k]);
      if k == i {
        StaysGone(r, slots, sizes, k + 1, top, shift, x);
      } else {
        WillBeGone(r, slots, sizes, k + 1, top, shift, i, j, p, x);
      }
    }
  }

  /** A heap with a different element at every place. */
  function Numbered(n: nat): (heap: seq<nat>)
    ensures |heap| == n && forall i :: 0 <= i < n ==> heap[i] == i
  {
    seq(n, i => i)
  }

  lemma {:induction false} HitIsLost(slots: seq<Slot>, sizes: seq<nat>, n: nat, top: nat, shift: nat, i: nat, j: nat)
    requires Layout(slots, sizes, n, top, shift) && i < j < |slots|
    requires !Passes(slots[i], sizes[i], slots[j], sizes[j], top, shift)
    ensures !Lossless(Numbered(n), slots, sizes, top, shift)
  {
    var heap := Numbered(n);
    var p := HitPlace(slots, sizes, n, top, shift, i, j);
    WillBeGone<nat>(heap, slots, sizes, 0, top, shift, i, j, p, p);
    var r: seq<nat> := Compact<nat>(heap, slots, sizes, 0, top, shift);
    var after, d := Slid(slots[j], top, shift).offset, p - (n - slots[j].offset);
    assert Piece(heap, slots[j].offset, sizes[j])[d] == p;
    assert sizes[j] <= after <= n && 0 <= d < sizes[j];
    var q: nat := n - after + d;
    assert r[q] != p;
    assert Piece(r, after, sizes[j])[d] == r[q];
  }

  /**
    gc_node keeps every cell, whatever the heap holds, if and only if no cell slides on top of a later one. The
    condition speaks of slot offsets and cell sizes only.
  */
  lemma {:induction false} LosslessIffSlidesClear(slots: seq<Slot>, sizes: seq<nat>, n: nat, top: nat, shift: nat)
    requires Layout(slots, sizes, n, top, shift)
    ensures SlidesClear(slots, sizes, top, shift)
      <==> forall heap: seq<nat> :: |heap| == n ==> Lossless(heap, slots, sizes, top, shift)
  {
    if SlidesClear(slots, sizes, top, shift) {
      forall heap: seq<nat> | |heap| == n ensures Lossless(heap, slots, sizes, top, shift) {
        forall i | 0 <= i < |slots|
          ensures Piece(Compact(heap, slots, sizes, 0, top, shift), Slid(slots[i], top, shift).offset, sizes[i])
            == Piece(heap, slots[i].offset, sizes[i])
        {
          CompactKeeps(heap, slots, sizes, 0, top, shift, i);
        }
      }
    } else {
      var i, j :| 0 <= i < j < |slots| && !Passes(slots[i], sizes[i], slots[j], sizes[j], top, shift);
      HitIsLost(slots, sizes, n, top, shift, i, j);
      assert |Numbered(n)| == n;
    }
  }
}
