/**
  Comparing records by a key of variable size inside them (src/ibtree_layout_schema_cmp.c). The stored record arrives
  in windows; the key's length field and the key itself may be cut anywhere. The search key is in memory as a whole.
*/
module SchemaCompare {
  import opened Bytes

  /** What a call reports, or that its last assertion fails. */
  datatype Outcome = Compared(result: int, bytesCompared: nat, remaining: bool) | AssertionFails

  /** A record: something, then a key with its length, then something. */
  datatype Layout = Layout(prefix: bytes, key: bytes, rest: bytes)

  ghost predicate IsRecord(stored: bytes, l: Layout) {
    && |l.key| < TWO_32
    && stored == l.prefix + WriteLe32(|l.key|) + l.key + l.rest
  }

  /** Where the key begins, after its length. */
  function KeyStart(l: Layout): nat { |l.prefix| + 4 }

  predicate StrictPrefix(a: bytes, b: bytes) { |a| < |b| && b[..|a|] == a }

  function Min(a: int, b: int): int { if a < b then a else b }

  lemma {:induction false} RecordParts(stored: bytes, l: Layout)
    requires IsRecord(stored, l)
    ensures |stored| == KeyStart(l) + |l.key| + |l.rest|
    ensures stored[|l.prefix|..KeyStart(l)] == WriteLe32(|l.key|)
    ensures forall i, j :: 0 <= i <= j <= |l.key| ==> stored[KeyStart(l) + i..KeyStart(l) + j] == l.key[i..j]
  {
  }

  function SearchPayload(skey: bytes): bytes
    requires |skey| < TWO_32
  {
    WriteLe32(|skey|) + skey
  }

  lemma {:induction false} SearchPayloadParts(skey: bytes)
    requires |skey| < TWO_32
    ensures |SearchPayload(skey)| == 4 + |skey| && ReadLe32(SearchPayload(skey)) == |skey|
    ensures forall i, j :: 0 <= i <= j <= |skey| ==> SearchPayload(skey)[4 + i..4 + j] == skey[i..j]
  {
    Le32RoundTrip(|skey|, skey);
  }

  lemma {:induction false} Slice(s: bytes, a: nat, b: nat, i: nat, j: nat)
    requires a <= b <= |s| && i <= j <= b - a
    ensures s[a..b][i..j] == s[a + i..a + j]
  {
    var x, y := s[a..b][i..j], s[a + i..a + j];
    assert forall k :: 0 <= k < j - i ==> x[k] == s[a..b][i + k] == s[a + i + k] == y[k];
  }

  /** The part of the length field that a window holds continues what was read of it before. */
  lemma {:induction false} LengthContinues(stored: bytes, l: Layout, at: nat, end: nat, lenBytes: bytes)
    requires IsRecord(stored, l) && at <= end <= |stored| && at < KeyStart(l) && |l.prefix| <= end
    requires lenBytes == if at <= |l.prefix| then [] else WriteLe32(|l.key|)[..at - |l.prefix|]
    ensures
      var from := if at < |l.prefix| then |l.prefix| - at else 0;
      var lwnd := Min(from + 4 - |lenBytes|, end - at);
      && from <= lwnd <= end - at && lwnd == Min(KeyStart(l), end) - at
      && lenBytes + stored[at..end][from..lwnd] == WriteLe32(|l.key|)[..Min(KeyStart(l), end) - |l.prefix|]
  {
    RecordParts(stored, l);
    var from := if at < |l.prefix| then |l.prefix| - at else 0;
    var lwnd := Min(from + 4 - |lenBytes|, end - at);
    var le := WriteLe32(|l.key|);
    Slice(stored, at, end, from, lwnd);
    var field := stored[|l.prefix|..KeyStart(l)];
    Slice(stored, |l.prefix|, KeyStart(l), at + from - |l.prefix|, at + lwnd - |l.prefix|);
    assert stored[at + from..at + lwnd] == field[at + from - |l.prefix|..at + lwnd - |l.prefix|];
    assert lenBytes == le[..at + from - |l.prefix|];
    assert le[..at + from - |l.prefix|] + le[at + from - |l.prefix|..at + lwnd - |l.prefix|]
      == le[..at + lwnd - |l.prefix|];
  }

  /** The bytes that are compared, in the window and in the search key. */
  lemma {:induction false} ChunkAt(
      stored: bytes, l: Layout, skey: bytes, at: nat, end: nat, lwnd: nat, from: nat, n: nat)
    requires IsRecord(stored, l) && at <= end <= |stored| && |skey| < TWO_32
    requires at + lwnd == KeyStart(l) + from && from + n <= |l.key| && from + n <= |skey| && at + lwnd + n <= end
    ensures stored[at..end][lwnd..lwnd + n] == l.key[from..from + n]
    ensures 4 + from + n <= |SearchPayload(skey)| && SearchPayload(skey)[4 + from..4 + from + n] == skey[from..from + n]
  {
    RecordParts(stored, l);
    SearchPayloadParts(skey);
    Slice(stored, at, end, lwnd, lwnd + n);
  }

  lemma {:induction false} SamePart(s: bytes, from: nat, n: nat)
    requires from + n <= |s|
    ensures s[from..][..n] == s[from..from + n]
  {
  }

  /** The comparison of the keys, from the comparison of one chunk of them. */
  lemma {:induction false} ChunkDecides(key: bytes, skey: bytes, from: nat, n: nat)
    requires from + n <= |key| && from + n <= |skey| && key[..from] == skey[..from]
    ensures
      var r := Compare(key[from..from + n], skey[from..from + n]);
      && (r != 0 ==> Compare(key, skey) == r && !StrictPrefix(key, skey))
      && (r == 0 ==> key[..from + n] == skey[..from + n])
      && (r == 0 && from + n == |skey| ==>
           !StrictPrefix(key, skey) && Compare(key, skey) == (if |key| == |skey| then 0 else 1))
  {
    var a, b := key[from..from + n], skey[from..from + n];
    if StrictPrefix(key, skey) { assert skey[..|key|][from..from + n] == b; }
    if a == b {
      assert key[..from + n] == key[..from] + a && skey[..from + n] == skey[..from] + b;
      if from + n == |skey| {
        CompareSkips(key, skey, from + n);
        assert skey[..|skey|] == skey;
        assert skey[from + n..] == [];
        if |key| == |skey| { assert key == skey; }
      }
    } else {
      CompareSkips(key, skey, from);
      SamePart(key, from, n);
      SamePart(skey, from, n);
      CompareDecided(key[from..], skey[from..], n);
    }
  }

  /** The same, in terms of the window and the search payload. */
  lemma {:induction false} ChunkCompared(
      stored: bytes, l: Layout, skey: bytes, at: nat, window: bytes, lwnd: nat, from: nat, n: nat)
    requires IsRecord(stored, l) && at + |window| <= |stored| && window == stored[at..at + |window|] && |skey| < TWO_32
    requires from + n <= |l.key| && from + n <= |skey| && lwnd + n <= |window| && l.key[..from] == skey[..from]
    requires from < |l.key| ==> at + lwnd == KeyStart(l) + from
    ensures |SearchPayload(skey)| == 4 + |skey|
    ensures
      var r := Compare(window[lwnd..lwnd + n], SearchPayload(skey)[4 + from..4 + from + n]);
      && (r != 0 ==> n > 0 && Compare(l.key, skey) == r && !StrictPrefix(l.key, skey))
      && (r == 0 ==> l.key[..from + n] == skey[..from + n])
      && (r == 0 && from + n == |skey| ==>
           !StrictPrefix(l.key, skey) && Compare(l.key, skey) == (if |l.key| == |skey| then 0 else 1))
  {
    SearchPayloadParts(skey);
    ChunkDecides(l.key, skey, from, n);
    if from < |l.key| {
      ChunkAt(stored, l, skey, at, at + |window|, lwnd, from, n);
    } else {
      assert window[lwnd..lwnd + n] == [] == l.key[from..from + n];
      assert SearchPayload(skey)[4 + from..4 + from + n] == [] == skey[from..from + n];
    }
  }

  lemma {:induction false} OneMoreByte(front: bytes, window: bytes, from: nat, i: nat)
    requires from <= i < |window|
    ensures front + window[from..i] + [window[i]] == front + window[from..i + 1]
  {
  }

  class VarKeyContext {
    const keyOffset: nat
    var initted: bool
    var rkeyOffset: nat
    var rkeySize: nat
    var lenBytes: bytes
    var keySize: nat
    var ready: bool
    var consumed: nat
    var currKey: nat

    /** ibtls_init_compare_context_from_schema, with one key of variable size. */
    constructor (keyOffset: nat)
      ensures this.keyOffset == keyOffset && !initted && Fresh()
    {
      this.keyOffset := keyOffset;
      initted, rkeyOffset, rkeySize := false, 0, 0;
      lenBytes, keySize, ready, consumed, currKey := [], 0, false, 0, 0;
    }

    predicate Fresh()
      reads this
    {
      lenBytes == [] && !ready && consumed == 0 && currKey == 0
    }

    /** ibtls_reset_compare. */
    method Reset()
      modifies this
      ensures Fresh() && initted == old(initted) && rkeyOffset == old(rkeyOffset) && rkeySize == old(rkeySize)
    {
      lenBytes, keySize, ready, consumed, currKey := [], 0, false, 0, 0;
    }

    /** initialize_rkey_offsets: the search key is its length and its bytes. */
    method InitializeSearchKey(payload: bytes)
      requires |payload| >= 4
      modifies this
      ensures initted && rkeyOffset == 4 && rkeySize == ReadLe32(payload)
      ensures lenBytes == old(lenBytes) && keySize == old(keySize) && ready == old(ready) && consumed == old(consumed)
      ensures currKey == old(currKey)
    {
      rkeyOffset, rkeySize, initted := 4, ReadLe32(payload), true;
    }

    /** The search key is known. */
    ghost predicate Searching(skey: bytes)
      reads this
    {
      initted ==> rkeyOffset == 4 && rkeySize == |skey|
    }

    /** All bytes of the record before `at` have been seen, and so far the keys agree. */
    ghost predicate Seen(l: Layout, skey: bytes, at: nat)
      reads this
    {
      && currKey == 0 && |l.prefix| == keyOffset && |l.key| < TWO_32
      && (at <= |l.prefix| ==> lenBytes == [] && !ready && consumed == 0)
      && (|l.prefix| <= at < KeyStart(l) ==>
         !ready && consumed == 0 && lenBytes == WriteLe32(|l.key|)[..at - |l.prefix|])
      && (at >= KeyStart(l) ==>
           && ready && |lenBytes| == 4 && keySize == |l.key| && consumed == Min(at - KeyStart(l), |l.key|)
           && consumed < |skey| && l.key[..consumed] == skey[..consumed])
    }

    /** consume_varsize_bytes: reads what the window holds of the length field. */
    method ConsumeLength(window: bytes, from: nat) returns (lwnd: nat)
      requires from <= |window| && |lenBytes| <= 4 && (!ready ==> |lenBytes| < 4)
      modifies this`lenBytes, this`keySize, this`ready
      ensures old(ready) ==> lwnd == from && ready && keySize == old(keySize) && lenBytes == old(lenBytes)
      ensures !old(ready) ==>
        && lwnd == Min(from + 4 - |old(lenBytes)|, |window|) && lenBytes == old(lenBytes) + window[from..lwnd]
        && ready == (|lenBytes| == 4)
        && (ready ==> keySize == ReadLe32(lenBytes))
    {
      lwnd := from;
      if !ready {
        while lwnd < |window| && |lenBytes| < 4
          invariant from <= lwnd <= |window| && |lenBytes| <= 4 && !ready
          invariant |lenBytes| == |old(lenBytes)| + lwnd - from
          invariant lenBytes == old(lenBytes) + window[from..lwnd]
        {
          OneMoreByte(old(lenBytes), window, from, lwnd);
          lenBytes := lenBytes + [window[lwnd]];
          lwnd := lwnd + 1;
        }
        if |lenBytes| == 4 {
          keySize := ReadLe32(lenBytes);
          ready := true;
        }
      }
    }

    /** cmpbytes up to the length field: where the key's bytes begin in the window, if all of the length is known. */
    method FindKeyBytes(
        window: bytes, bytesCompared: nat, offset: nat, ghost stored: bytes, ghost l: Layout, ghost skey: bytes,
        ghost first: bool)
      returns (inWindow: bool, lwnd: nat)
      requires IsRecord(stored, l) && |l.prefix| == keyOffset
      requires if first then offset == 0 && Seen(l, skey, bytesCompared)
               else offset <= |window| && ready && |lenBytes| == 4 && bytesCompared + offset >= keyOffset
      requires window != [] && bytesCompared + |window| <= |stored|
      requires window == stored[bytesCompared..bytesCompared + |window|]
      modifies this`lenBytes, this`keySize, this`ready
      ensures !first ==> inWindow && lwnd == offset && ready && lenBytes == old(lenBytes) && keySize == old(keySize)
      ensures inWindow ==> |lenBytes| == 4
      ensures first ==>
        var end := bytesCompared + |window|;
        && (end < KeyStart(l) ==> !inWindow && Seen(l, skey, end))
        && (end >= KeyStart(l) ==>
             && inWindow && ready && keySize == |l.key|
             && lwnd == (if bytesCompared < KeyStart(l) then KeyStart(l) - bytesCompared else 0)
             && lwnd <= |window|)
    {
      ghost var end := bytesCompared + |window|;
      RecordParts(stored, l);
      lwnd := offset;
      if bytesCompared + offset < keyOffset {
        if bytesCompared + offset + |window| >= keyOffset {
          lwnd := lwnd + (keyOffset - (bytesCompared + offset));
        } else {
          inWindow := false;
          return;
        }
      }
      if first && bytesCompared < KeyStart(l) {
        LengthContinues(stored, l, bytesCompared, end, lenBytes);
        Le32RoundTrip(|l.key|, []);
        assert WriteLe32(|l.key|) + [] == WriteLe32(|l.key|) == WriteLe32(|l.key|)[..4];
      }
      lwnd := ConsumeLength(window, lwnd);
      inWindow := ready;
    }

    /** Compares what the window holds of the stored key with the same stretch of the search key. */
    method CompareChunk(
        window: bytes, bytesCompared: nat, lwnd: nat, payload: bytes, ghost stored: bytes, ghost l: Layout,
        ghost skey: bytes)
      returns (n: nat, hasMore: bool, result: int)
      requires IsRecord(stored, l) && |skey| < TWO_32 && payload == SearchPayload(skey)
      requires bytesCompared + |window| <= |stored| && window == stored[bytesCompared..bytesCompared + |window|]
      requires lwnd <= |window|
      requires keySize == |l.key| && rkeyOffset == 4 && rkeySize == |skey|
      requires consumed <= |l.key| && consumed <= |skey| && l.key[..consumed] == skey[..consumed]
      requires consumed < |l.key| ==> bytesCompared + lwnd == KeyStart(l) + consumed
      modifies this`consumed
      ensures n == Min(Min(|l.key| - old(consumed), |window| - lwnd), |skey| - old(consumed))
      ensures hasMore <==> lwnd + Min(|l.key| - old(consumed), |window| - lwnd) < |window|
      ensures consumed == old(consumed) + n <= |l.key| && consumed <= |skey|
      ensures result != 0 ==> n > 0 && result == Bytes.Compare(l.key, skey) && !StrictPrefix(l.key, skey)
      ensures result == 0 ==> l.key[..consumed] == skey[..consumed]
      ensures result == 0 && consumed == |skey| ==>
        !StrictPrefix(l.key, skey) && Bytes.Compare(l.key, skey) == (if |l.key| == |skey| then 0 else 1)
    {
      SearchPayloadParts(skey);
      var available: nat := Min(keySize - consumed, |window| - lwnd);
      hasMore := lwnd + available < |window|;
      n := Min(rkeySize - consumed, available);
      ChunkCompared(stored, l, skey, bytesCompared, window, lwnd, consumed, n);
      result := Bytes.Compare(window[lwnd..lwnd + n], payload[rkeyOffset + consumed..rkeyOffset + consumed + n]);
      consumed := consumed + n;
    }

    /**
      ibtls_compare, for one window. Either the order of the keys is decided, or the record has been seen up to the
      end of the window; it is never decided when the stored key is a strict prefix of the search key.
    */
    method Compare(
        window: bytes, bytesCompared: nat, payload: bytes, ghost stored: bytes, ghost l: Layout, ghost skey: bytes)
      returns (o: Outcome)
      requires IsRecord(stored, l) && |skey| < TWO_32 && payload == SearchPayload(skey)
      requires Searching(skey) && Seen(l, skey, bytesCompared)
      requires window != [] && bytesCompared + |window| <= |stored|
      requires window == stored[bytesCompared..bytesCompared + |window|]
      modifies this
      ensures Searching(skey)
      ensures o.Compared? && (o.result != 0 || !o.remaining) ==>
        !StrictPrefix(l.key, skey) && o.result == Bytes.Compare(l.key, skey) && bytesCompared + |window| >= KeyStart(l)
      ensures o.Compared? && o.result == 0 && o.remaining ==>
        o.bytesCompared == |window| && Seen(l, skey, bytesCompared + |window|)
      ensures o.AssertionFails? <==>
        || (skey != [] && bytesCompared + |window| == KeyStart(l))
        || (StrictPrefix(l.key, skey) && bytesCompared + |window| > KeyStart(l) + |l.key|)
    {
      SearchPayloadParts(skey);
      RecordParts(stored, l);
      if !initted {
        InitializeSearchKey(payload);
      }
      var out: nat, offset: nat, lwnd: nat := 0, 0, 0;
      var n, hasMore, result, keyRemaining := 0, true, 0, true;
      ghost var first := true;
      while true
        invariant initted && Searching(skey)
        invariant first ==> offset == 0 && out == 0 && Seen(l, skey, bytesCompared)
        invariant !first ==>
          && skey != [] && StrictPrefix(l.key, skey) && bytesCompared + |window| > KeyStart(l) + |l.key|
          && KeyStart(l) <= bytesCompared + offset && offset <= |window|
          && ready && |lenBytes| == 4 && keySize == consumed == |l.key| && currKey == 0 && |l.prefix| == keyOffset
        decreases first
      {
        var inWindow;
        inWindow, lwnd := FindKeyBytes(window, bytesCompared, offset, stored, l, skey, first);
        if !inWindow {
          return Compared(0, |window|, true);
        }
        n, hasMore, result := CompareChunk(window, bytesCompared, lwnd, payload, stored, l, skey);
        if consumed == rkeySize {
          currKey := currKey + 1;
        }
        keyRemaining := !(consumed == rkeySize && currKey == 1);
        var storedRemaining := !(consumed == keySize && currKey == 1);
        out := out + lwnd + n;
        offset := offset + lwnd + n;
        if result != 0 {
          return Compared(result, out, keyRemaining);
        }
        if keyRemaining && storedRemaining {
        } else if keyRemaining {
          return Compared(-1, out, keyRemaining);
        } else if storedRemaining {
          return Compared(1, out, keyRemaining);
        } else {
          return Compared(0, out, keyRemaining);
        }
        if !(hasMore && n != 0) {
          break;
        }
        first := false;
      }
      o := if n != 0 then Compared(result, out, keyRemaining) else AssertionFails;
    }
  }

  // ---- a whole record, window by window ----

  function Joined(windows: seq<bytes>): bytes {
    if windows == [] then [] else Joined(windows[..|windows| - 1]) + windows[|windows| - 1]
  }

  lemma {:induction false} JoinedWindow(windows: seq<bytes>, i: nat)
    requires i < |windows|
    ensures Joined(windows[..i + 1]) == Joined(windows[..i]) + windows[i]
    ensures |Joined(windows[..i + 1])| <= |Joined(windows)|
    ensures Joined(windows)[|Joined(windows[..i])|..|Joined(windows[..i + 1])|] == windows[i]
  {
    assert windows[..i + 1][..i] == windows[..i];
    JoinedPrefix(windows, i + 1);
  }

  lemma {:induction false} JoinedPrefix(windows: seq<bytes>, i: nat)
    requires i <= |windows|
    ensures Joined(windows[..i]) <= Joined(windows)
    decreases |windows| - i
  {
    if i == |windows| {
      assert windows[..i] == windows;
    } else {
      assert windows[..i + 1][..i] == windows[..i];
      JoinedPrefix(windows, i + 1);
    }
  }

  /** Where window `i` ends in the record. */
  function End(windows: seq<bytes>, i: nat): nat
    requires i < |windows|
  {
    |Joined(windows[..i + 1])|
  }

  /** Some window ends right after the length field. */
  ghost predicate CutAfterLength(windows: seq<bytes>, l: Layout) {
    exists i :: 0 <= i < |windows| && End(windows, i) == KeyStart(l)
  }

  /**
    The windows of a record one after the other, as btree_node_compare_cell feeds them. The order of the keys comes
    out, however the record is cut, if and only if the stored key is not a strict prefix of the search key and no
    window ends right after the length field (which does not matter for an empty search key).
  */
  method CompareStream(
      c: VarKeyContext, windows: seq<bytes>, payload: bytes, ghost l: Layout, ghost skey: bytes)
    returns (o: Outcome)
    requires IsRecord(Joined(windows), l) && |skey| < TWO_32 && payload == SearchPayload(skey)
    requires |l.prefix| == c.keyOffset && c.Searching(skey)
    requires forall i :: 0 <= i < |windows| ==> windows[i] != []
    modifies c
    ensures (o.Compared? && o.result == Compare(l.key, skey))
      <==> !StrictPrefix(l.key, skey) && (skey == [] || !CutAfterLength(windows, l))
  {
    ghost var stored := Joined(windows);
    RecordParts(stored, l);
    var i, bytesCompared := 0, 0;
    c.Reset();
    o := Compared(0, 0, true);
    while i < |windows|
      invariant i <= |windows| && bytesCompared == |Joined(windows[..i])| <= |stored|
      invariant c.Searching(skey) && c.Seen(l, skey, bytesCompared) && o.Compared? && o.result == 0
      invariant forall j :: 0 <= j < i ==> skey == [] || End(windows, j) != KeyStart(l)
    {
      JoinedWindow(windows, i);
      assert End(windows, i) == bytesCompared + |windows[i]|;
      o := c.Compare(windows[i], bytesCompared, payload, stored, l, skey);
      if o.AssertionFails? || o.result != 0 || !o.remaining {
        forall j | i < j < |windows| ensures End(windows, j) > End(windows, i) { LaterEnds(windows, i, j); }
        return;
      }
      bytesCompared := bytesCompared + o.bytesCompared;
      i := i + 1;
    }
    assert windows[..i] == windows;
    assert l.key[..|l.key|] == l.key;
  }

  /** After a window that ends beyond a place, no window ends there. */
  lemma {:induction false} LaterEnds(windows: seq<bytes>, i: nat, j: nat)
    requires i < j < |windows| && forall k :: 0 <= k < |windows| ==> windows[k] != []
    ensures End(windows, j) > End(windows, i)
    decreases j
  {
    JoinedWindow(windows, j);
    if i < j - 1 { LaterEnds(windows, i, j - 1); }
  }
}
