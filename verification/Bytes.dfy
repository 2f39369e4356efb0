/** Bytes, their little-endian 32-bit encoding and the lexicographic order of byte strings. */
module Bytes {

  type byte = x: int | 0 <= x < 256
  type bytes = seq<byte>

  const TWO_32: nat := 0x1_0000_0000

  /** Three-way lexicographic comparison; a proper prefix comes first. */
  function Compare(a: bytes, b: bytes): (c: int)
    ensures c == -1 || c == 0 || c == 1
    ensures c == 0 <==> a == b
  {
    if a == [] then (if b == [] then 0 else -1)
    else if b == [] then 1
    else if a[0] < b[0] then -1
    else if a[0] > b[0] then 1
    else
      assert a == [a[0]] + a[1..] && b == [b[0]] + b[1..];
      Compare(a[1..], b[1..])
  }

  lemma {:induction false} CompareFlips(a: bytes, b: bytes)
    ensures Compare(b, a) == -Compare(a, b)
  {
    if a != [] && b != [] && a[0] == b[0] { CompareFlips(a[1..], b[1..]); }
  }

  predicate Less(a: bytes, b: bytes) { Compare(a, b) == -1 }

  /** Position by position: `a` and `b` agree before `k`, and at `k` either `a` has ended or its byte is smaller. */
  ghost predicate FirstDifference(a: bytes, b: bytes, k: nat) {
    && k <= |a| && k < |b| && a[..k] == b[..k]
    && (k == |a| || a[k] < b[k])
  }

  lemma {:induction false} LessIsFirstDifference(a: bytes, b: bytes)
    ensures Less(a, b) <==> exists k: nat :: FirstDifference(a, b, k)
  {
    if a == [] {
      if b != [] { assert FirstDifference(a, b, 0); }
    } else if b != [] {
      if a[0] < b[0] {
        assert FirstDifference(a, b, 0);
      } else if a[0] > b[0] {
        forall k: nat ensures !FirstDifference(a, b, k) {
          if 0 < k <= |a| && k < |b| { assert a[..k][0] != b[..k][0]; }
        }
      } else {
        var a', b' := a[1..], b[1..];
        LessIsFirstDifference(a', b');
        if k: nat :| FirstDifference(a', b', k) {
          assert a[..k + 1] == [a[0]] + a'[..k] == [b[0]] + b'[..k] == b[..k + 1];
          assert FirstDifference(a, b, k + 1);
        }
        if k: nat :| FirstDifference(a, b, k) {
          assert k > 0;
          assert a'[..k - 1] == a[..k][1..] == b[..k][1..] == b'[..k - 1];
          assert FirstDifference(a', b', k - 1);
        }
      }
    }
  }

  lemma {:induction false} LessTransitive(a: bytes, b: bytes, c: bytes)
    requires Less(a, b) && Less(b, c)
    ensures Less(a, c)
  {
    if a != [] && a[0] == b[0] == c[0] { LessTransitive(a[1..], b[1..], c[1..]); }
  }

  /** A common prefix can be skipped before comparing. */
  lemma {:induction false} CompareSkips(a: bytes, b: bytes, k: nat)
    requires k <= |a| && k <= |b| && a[..k] == b[..k]
    ensures Compare(a, b) == Compare(a[k..], b[k..])
  {
    if k == 0 {
      assert a[0..] == a && b[0..] == b;
    } else {
      assert a[0] == a[..k][0] == b[..k][0] == b[0];
      assert a[1..][..k - 1] == a[..k][1..] == b[..k][1..] == b[1..][..k - 1];
      CompareSkips(a[1..], b[1..], k - 1);
      assert a[1..][k - 1..] == a[k..] && b[1..][k - 1..] == b[k..];
    }
  }

  /** Once prefixes of equal length differ, the rest does not matter. */
  lemma {:induction false} CompareDecided(a: bytes, b: bytes, k: nat)
    requires k <= |a| && k <= |b| && a[..k] != b[..k]
    ensures Compare(a, b) == Compare(a[..k], b[..k])
  {
    assert k > 0;
    var x, y := a[..k], b[..k];
    assert x[0] == a[0] && y[0] == b[0];
    assert x[1..] == a[1..][..k - 1] && y[1..] == b[1..][..k - 1];
    if a[0] == b[0] {
      assert x == [x[0]] + x[1..] && y == [y[0]] + y[1..];
      CompareDecided(a[1..], b[1..], k - 1);
    }
  }

  function WriteLe32(v: nat): (b: bytes)
    requires v < TWO_32
    ensures |b| == 4
  {
    [v % 0x100, v / 0x100 % 0x100, v / 0x1_0000 % 0x100, v / 0x100_0000 % 0x100]
  }

  function ReadLe32(b: bytes): (v: nat)
    requires |b| >= 4
    ensures v < TWO_32
  {
    b[0] as int + 0x100 * b[1] as int + 0x1_0000 * b[2] as int + 0x100_0000 * b[3] as int
  }

  /** The number that bytes stand for, the least significant first. */
  function Value(b: bytes): (v: nat) { if b == [] then 0 else b[0] as nat + 0x100 * Value(b[1..]) }

  /** Which byte is which: reading gives the value of the first four bytes. */
  lemma {:induction false} ReadIsValue(b: bytes)
    requires |b| >= 4
    ensures ReadLe32(b) == Value(b[..4])
  {
    ValueOfFour(b[..4]);
  }

  /** Writing gives the four bytes that have the value; there is only one such string (ValueIsUnique). */
  lemma {:induction false} WrittenIsValue(v: nat)
    requires v < TWO_32
    ensures |WriteLe32(v)| == 4 && Value(WriteLe32(v)) == v
  {
    ValueOfFour(WriteLe32(v));
    Le32RoundTrip(v, []);
    assert WriteLe32(v) + [] == WriteLe32(v);
  }

  lemma {:induction false} ValueOfFour(b: bytes)
    requires |b| == 4
    ensures Value(b) == ReadLe32(b)
  {
    assert b[1..][1..] == b[2..] && b[2..][1..] == b[3..] && b[3..][1..] == [];
    assert Value(b[3..]) == b[3] as nat && Value(b[2..]) == b[2] as nat + 0x100 * b[3] as nat;
    assert Value(b[1..]) == b[1] as nat + 0x100 * Value(b[2..]);
  }

  /** Four bytes of the same value are the same bytes. */
  lemma {:induction false} ValueIsUnique(a: bytes, b: bytes)
    requires |a| == |b| && Value(a) == Value(b)
    ensures a == b
  {
    if a != [] {
      assert a[0] == b[0] && Value(a[1..]) == Value(b[1..]);
      ValueIsUnique(a[1..], b[1..]);
      assert a == [a[0]] + a[1..] && b == [b[0]] + b[1..];
    }
  }

  lemma {:induction false} Le32RoundTrip(v: nat, rest: bytes)
    requires v < TWO_32
    ensures ReadLe32(WriteLe32(v) + rest) == v
  {
    var b := WriteLe32(v) + rest;
    assert b[0] == v % 0x100 && b[1] == v / 0x100 % 0x100
        && b[2] == v / 0x1_0000 % 0x100 && b[3] == v / 0x100_0000 % 0x100;
    assert v / 0x100 / 0x100 == v / 0x1_0000 && v / 0x1_0000 / 0x100 == v / 0x100_0000;
  }
}
