/** Index trees are ordered by payload: what that says about the parts of a tree. */
module Order {
  import opened Bytes
  import opened Node
  import opened Overflow
  import opened Tree

  ghost predicate Increasing(s: seq<Record>) {
    forall i, j :: 0 <= i < j < |s| ==> Less(s[i].payload, s[j].payload)
  }

  ghost predicate AllBelow(s: seq<Record>, key: bytes) {
    forall i :: 0 <= i < |s| ==> Less(s[i].payload, key)
  }

  ghost predicate AllAbove(s: seq<Record>, key: bytes) {
    forall i :: 0 <= i < |s| ==> Less(key, s[i].payload)
  }

  lemma {:induction false} IncreasingParts(a: seq<Record>, b: seq<Record>)
    requires Increasing(a + b)
    ensures Increasing(a) && Increasing(b)
  {
    assert forall i :: 0 <= i < |a| ==> a[i] == (a + b)[i];
    assert forall i :: 0 <= i < |b| ==> b[i] == (a + b)[|a| + i];
  }

  lemma {:induction false} BelowThrough(a: seq<Record>, r: Record, key: bytes)
    requires Increasing(a + [r]) && Less(r.payload, key)
    ensures AllBelow(a + [r], key)
  {
    var s := a + [r];
    forall i | 0 <= i < |s| ensures Less(s[i].payload, key) {
      if i < |a| { assert s[|a|] == r; LessTransitive(s[i].payload, r.payload, key); }
    }
  }

  lemma {:induction false} AboveFrom(r: Record, a: seq<Record>, key: bytes)
    requires Increasing([r] + a) && Less(key, r.payload)
    ensures AllAbove([r] + a, key)
  {
    var s := [r] + a;
    forall i | 0 <= i < |s| ensures Less(key, s[i].payload) {
      if i > 0 { assert s[0] == r; LessTransitive(key, r.payload, s[i].payload); }
    }
  }

  /** A record put between smaller and larger ones. */
  lemma {:induction false} InsertIncreasing(a: seq<Record>, r: Record, b: seq<Record>)
    requires Increasing(a + b) && AllBelow(a, r.payload) && AllAbove(b, r.payload)
    ensures Increasing(a + [r] + b)
  {
    var s := a + [r] + b;
    forall i, j | 0 <= i < j < |s| ensures Less(s[i].payload, s[j].payload) {
      if i != |a| && j != |a| {
        assert s[i] == (a + b)[if i < |a| then i else i - 1] && s[j] == (a + b)[if j < |a| then j else j - 1];
      }
    }
  }

  /** The payloads in the cells of one node, left to right. */
  function Items(t: Tree): (items: seq<Item>)
    requires t.Branch?
    ensures |items| == |t.entries| && forall i :: 0 <= i < |items| ==> items[i] == t.entries[i].item
  {
    seq(|t.entries|, i requires 0 <= i < |t.entries| => t.entries[i].item)
  }

  /** The records of entry `i` and everything before and after its own record. */
  lemma {:induction false} SplitAtEntry(t: Tree, i: nat)
    requires t.Branch? && i < |t.entries|
    ensures
      var r := Record(0, t.entries[i].item.payload);
      && Contents(Index, t) == BeforeKid(Index, t, i) + Contents(Index, t.entries[i].kid) + AfterKid(Index, t, i)
      && BeforeKid(Index, t, i + 1) == BeforeKid(Index, t, i) + Contents(Index, t.entries[i].kid) + [r]
      && AfterKid(Index, t, i) == [r] + (EntryContents(Index, t.leaf, t.entries[i + 1..]) + Contents(Index, t.right))
  {
    SameKid(t, i);
    ContentsAround(Index, t, i, t.entries[i].kid);
    OneMoreEntry(t, i);
  }

  lemma {:induction false} SameKid(t: Tree, i: nat)
    requires t.Branch? && i <= |t.entries|
    ensures WithKid(t, i, KidAt(t, i)) == t
  {
    if i < |t.entries| { assert t.entries[i := t.entries[i].(kid := t.entries[i].kid)] == t.entries; }
  }

  lemma {:induction false} OneMoreEntry(t: Tree, i: nat)
    requires t.Branch? && i < |t.entries|
    ensures BeforeKid(Index, t, i + 1)
      == BeforeKid(Index, t, i) + Contents(Index, t.entries[i].kid) + [Record(0, t.entries[i].item.payload)]
  {
    assert t.entries[..i + 1][..i] == t.entries[..i] && t.entries[..i + 1][i + 1..] == [];
    EntryContentsAt(Index, t.leaf, t.entries[..i + 1], i);
  }

  /** Binary search may assume the cells of a node to be in order. */
  lemma {:induction false} ItemsIncreasing(t: Tree, i: nat, j: nat)
    requires t.Branch? && Increasing(Contents(Index, t)) && i < j < |t.entries|
    ensures Less(t.entries[i].item.payload, t.entries[j].item.payload)
  {
    SplitAtEntry(t, i);
    SplitAtEntry(t, j);
    BeforeGrows(t, i + 1, j);
    var c := Contents(Index, t);
    var p := |BeforeKid(Index, t, i + 1)| - 1;
    var q := |BeforeKid(Index, t, j)| + |Contents(Index, t.entries[j].kid)|;
    assert c[q] == Record(0, t.entries[j].item.payload);
    assert BeforeKid(Index, t, i + 1)[p] == Record(0, t.entries[i].item.payload);
    assert c[p] == BeforeKid(Index, t, j)[p] == BeforeKid(Index, t, i + 1)[p];
  }

  lemma {:induction false} BeforeGrows(t: Tree, i: nat, j: nat)
    requires t.Branch? && i <= j <= |t.entries|
    ensures BeforeKid(Index, t, i) <= BeforeKid(Index, t, j)
  {
    assert t.entries[..j] == t.entries[..i] + t.entries[i..j];
    EntryContentsConcat(Index, t.leaf, t.entries[..i], t.entries[i..j]);
  }

  lemma {:induction false} WholeKid(kind: Kind, t: Tree, i: nat)
    requires t.Branch? && i <= |t.entries|
    ensures WithKid(t, i, KidAt(t, i)) == t
    ensures Contents(kind, t) == BeforeKid(kind, t, i) + Contents(kind, KidAt(t, i)) + AfterKid(kind, t, i)
  {
    SameKid(t, i);
    ContentsAround(kind, t, i, KidAt(t, i));
  }

  /**
    A key that lies after the cells before `i` and before the cells from `i` on lies after all records to the left of
    child `i` and before all records to its right.
  */
  lemma {:induction false} KeyGoesToKid(t: Tree, i: nat, key: bytes)
    requires t.Branch? && Increasing(Contents(Index, t)) && i <= |t.entries|
    requires forall j :: 0 <= j < i ==> Less(t.entries[j].item.payload, key)
    requires forall j :: i <= j < |t.entries| ==> Less(key, t.entries[j].item.payload)
    ensures AllBelow(BeforeKid(Index, t, i), key) && AllAbove(AfterKid(Index, t, i), key)
    ensures Increasing(Contents(Index, KidAt(t, i)))
  {
    WholeKid(Index, t, i);
    var before, kid, after := BeforeKid(Index, t, i), Contents(Index, KidAt(t, i)), AfterKid(Index, t, i);
    IncreasingParts(before + kid, after);
    IncreasingParts(before, kid);
    if i > 0 {
      SplitAtEntry(t, i - 1);
      BelowThrough(BeforeKid(Index, t, i - 1) + Contents(Index, t.entries[i - 1].kid),
                   Record(0, t.entries[i - 1].item.payload), key);
    }
    if i < |t.entries| {
      SplitAtEntry(t, i);
      AboveFrom(Record(0, t.entries[i].item.payload),
                EntryContents(Index, t.leaf, t.entries[i + 1..]) + Contents(Index, t.right), key);
    }
  }

  /** The records with one more in its place, as a list insertion. */
  function Inserted(s: seq<Record>, r: Record): seq<Record> {
    if s == [] || Less(r.payload, s[0].payload) then [r] + s else [s[0]] + Inserted(s[1..], r)
  }

  lemma {:induction false} InsertedBetween(a: seq<Record>, r: Record, b: seq<Record>)
    requires (forall i :: 0 <= i < |a| ==> !Less(r.payload, a[i].payload)) && AllAbove(b, r.payload)
    ensures Inserted(a + b, r) == a + [r] + b
  {
    if a == [] {
      assert a + b == b && a + [r] + b == [r] + b;
    } else {
      var s := a + b;
      assert s[0] == a[0] && s[1..] == a[1..] + b;
      InsertedBetween(a[1..], r, b);
      assert a + [r] + b == [a[0]] + (a[1..] + [r] + b);
    }
  }

  lemma {:induction false} InsertedLength(s: seq<Record>, r: Record)
    ensures |Inserted(s, r)| == |s| + 1
  {
    if s != [] { InsertedLength(s[1..], r); }
  }

  /** The records without the one with a given payload, as a list deletion. */
  function Deleted(s: seq<Record>, key: bytes): seq<Record> {
    if s == [] then [] else if s[0].payload == key then s[1..] else [s[0]] + Deleted(s[1..], key)
  }

  lemma {:induction false} DeletedBetween(a: seq<Record>, r: Record, b: seq<Record>)
    requires Increasing(a + [r] + b)
    ensures Deleted(a + [r] + b, r.payload) == a + b && Increasing(a + b)
  {
    var s := a + [r] + b;
    forall i | 0 <= i < |a| ensures a[i].payload != r.payload {
      assert s[i] == a[i] && s[|a|] == r && Less(s[i].payload, s[|a|].payload);
    }
    DeletedHere(a, r, b);
    StillIncreasing(a, r, b);
  }

  lemma {:induction false} StillIncreasing(a: seq<Record>, r: Record, b: seq<Record>)
    requires Increasing(a + [r] + b)
    ensures Increasing(a + b)
  {
    var s := a + [r] + b;
    forall i, j | 0 <= i < j < |a + b| ensures Less((a + b)[i].payload, (a + b)[j].payload) {
      assert (a + b)[i] == s[if i < |a| then i else i + 1] && (a + b)[j] == s[if j < |a| then j else j + 1];
    }
  }

  lemma {:induction false} DeletedHere(a: seq<Record>, r: Record, b: seq<Record>)
    requires forall i :: 0 <= i < |a| ==> a[i].payload != r.payload
    ensures Deleted(a + [r] + b, r.payload) == a + b
  {
    var s := a + [r] + b;
    if a == [] {
      assert s[1..] == b && a + b == b;
    } else {
      assert s[1..] == a[1..] + [r] + b;
      DeletedHere(a[1..], r, b);
      assert [a[0]] + (a[1..] + b) == a + b;
    }
  }

  lemma {:induction false} DeletedAbsent(s: seq<Record>, key: bytes)
    requires forall i :: 0 <= i < |s| ==> s[i].payload != key
    ensures Deleted(s, key) == s
  {
    if s != [] { DeletedAbsent(s[1..], key); }
  }
}
