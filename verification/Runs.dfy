/**
  Runs of inserts and deletes on an index tree: as long as every call ends well, the tree is the set of payloads that
  the calls describe, and a scan gives that set in order, whatever the calls were and however they were ordered.
*/
module Runs {
  import opened Bytes
  import opened Node
  import opened Overflow
  import opened Tree
  import opened Order
  import opened IndexTree
  import opened Cursor
  import opened Search
  import opened Presence
  import opened Filled
  import opened Deletion
  import opened IndexInsert
  import opened IndexDelete
  import opened Iterate

  datatype Op = Put(key: bytes) | Drop(key: bytes)

  function Applied(s: set<bytes>, op: Op): set<bytes> { if op.Put? then s + {op.key} else s - {op.key} }

  function AllApplied(s: set<bytes>, ops: seq<Op>): set<bytes> {
    if ops == [] then s else Applied(AllApplied(s, ops[..|ops| - 1]), ops[|ops| - 1])
  }

  /** Payloads are not empty, and none is put that is there already. */
  ghost predicate NewOnly(s: set<bytes>, ops: seq<Op>) {
    forall i :: 0 <= i < |ops| ==> ops[i].key != [] && (ops[i].Put? ==> ops[i].key !in AllApplied(s, ops[..i]))
  }

  function Keys(s: seq<Record>): set<bytes> { if s == [] then {} else {s[0].payload} + Keys(s[1..]) }

  lemma {:induction false} InsertedKeys(s: seq<Record>, r: Record)
    ensures Keys(Inserted(s, r)) == Keys(s) + {r.payload}
  {
    var into := Inserted(s, r);
    if s == [] || Less(r.payload, s[0].payload) {
      assert into[1..] == s;
    } else {
      InsertedKeys(s[1..], r);
      assert into[1..] == Inserted(s[1..], r);
    }
  }

  lemma {:induction false} IncreasingTail(s: seq<Record>)
    requires Increasing(s) && s != []
    ensures Increasing(s[1..]) && AllAbove(s[1..], s[0].payload) && s[0].payload !in Keys(s[1..])
  {
    assert s == [s[0]] + s[1..];
    IncreasingParts([s[0]], s[1..]);
    assert forall i :: 0 <= i < |s[1..]| ==> s[1..][i] == s[i + 1];
    KeysAre(s[1..], s[0].payload);
  }

  lemma {:induction false} KeysAre(s: seq<Record>, key: bytes)
    ensures NoneIs(s, key) <==> key !in Keys(s)
    ensures AllAbove(s, key) ==> NoneIs(s, key)
  {
    if s != [] {
      KeysAre(s[1..], key);
      assert s == [s[0]] + s[1..];
      NoneInParts([s[0]], s[1..], key);
    }
  }

  lemma {:induction false} DeletedKeys(s: seq<Record>, key: bytes)
    requires Increasing(s)
    ensures Keys(Deleted(s, key)) == Keys(s) - {key}
  {
    if s != [] {
      IncreasingTail(s);
      if s[0].payload != key {
        DeletedKeys(s[1..], key);
        assert Deleted(s, key)[1..] == Deleted(s[1..], key);
      }
    }
  }

  /** Records in order are determined by the set of their payloads. */
  lemma {:induction false} SetDeterminesOrder(a: seq<Record>, b: seq<Record>)
    requires Increasing(a) && Increasing(b) && Keys(a) == Keys(b)
    ensures |a| == |b| && forall i :: 0 <= i < |a| ==> a[i].payload == b[i].payload
  {
    HasKeys(a);
    HasKeys(b);
    if a != [] {
      IncreasingTail(a);
      IncreasingTail(b);
      var x, y := a[0].payload, b[0].payload;
      SmallestIsFirst(a, y);
      SmallestIsFirst(b, x);
      CompareFlips(x, y);
      assert Keys(a[1..]) == Keys(a) - {x} && Keys(b[1..]) == Keys(b) - {y};
      SetDeterminesOrder(a[1..], b[1..]);
      assert forall i :: 0 < i < |a| ==> a[i] == a[1..][i - 1];
      assert forall i :: 0 < i < |b| ==> b[i] == b[1..][i - 1];
    }
  }

  lemma {:induction false} HasKeys(s: seq<Record>)
    ensures s == [] <==> Keys(s) == {}
    ensures s != [] ==> s[0].payload in Keys(s)
  {
    if s != [] { assert s[0].payload in Keys(s); }
  }

  lemma {:induction false} SmallestIsFirst(s: seq<Record>, key: bytes)
    requires Increasing(s) && key in Keys(s)
    ensures s != [] && (s[0].payload == key || Less(s[0].payload, key))
  {
    KeysAre(s, key);
    var i :| 0 <= i < |s| && s[i].payload == key;
    if i > 0 { assert Less(s[0].payload, s[i].payload); }
  }

  /** An index tree in order that has no empty node, or is empty. */
  ghost predicate IsStore(tree: BTree, pages: Pages, t: Tree, height: nat)
  {
    && tree.kind == Index && t.Branch? && t.id == tree.rootPageId
    && IsIndexTree(tree.pager.pageSize, pages, t, height) && Increasing(Contents(Index, t))
    && (NodesFilled(t) || (t.leaf && t.entries == []))
  }

  lemma {:induction false} PutKeeps(
      tree: BTree, before: Pages, pages: Pages, t: Tree, t': Tree, height: nat, height': nat, key: bytes)
    requires IsStore(tree, before, t, height) && key !in Keys(Contents(Index, t))
    requires !InnerHolds(t, key) ==>
      && IsIndexTree(tree.pager.pageSize, pages, t', height')
      && Contents(Index, t') == Inserted(Contents(Index, t), Record(0, key))
      && (Increasing(Contents(Index, t')) <==> Absent(t, key))
    requires t'.Branch? && t'.id == tree.rootPageId && NodesFilled(t')
    ensures IsStore(tree, pages, t', height')
    ensures Keys(Contents(Index, t')) == Keys(Contents(Index, t)) + {key}
  {
    KeysAre(Contents(Index, t), key);
    NotInner(t, key);
    InsertedKeys(Contents(Index, t), Record(0, key));
  }

  lemma {:induction false} FilledToTheLeaves(t: Tree)
    requires NodesFilled(t)
    ensures LeavesFilled(t)
    decreases t
  {
    if t.Branch? {
      FilledToTheLeaves(t.right);
      forall i | 0 <= i < |t.entries| ensures LeavesFilled(t.entries[i].kid) { FilledToTheLeaves(t.entries[i].kid); }
    }
  }

  lemma {:induction false} DropKeeps(
      tree: BTree, before: Pages, pages: Pages, t: Tree, t': Tree, height: nat, key: bytes,
      path: Path, node: Tree, index: nat, lost: Item)
    requires IsStore(tree, before, t, height) && tree.underflow > 0
    requires Single(tree.pager.pageSize, before, pages, tree.underflow, Ok, t, t', height, key, path, node, index, lost)
    ensures IsStore(tree, pages, t', height)
    ensures Keys(Contents(Index, t')) == Keys(Contents(Index, t)) - {key}
  {
    DeletedKeys(Contents(Index, t), key);
    if t.leaf && t.entries == [] { EmptyLeafHolds(t, height, key); }
    DropFilled(tree.pager.pageSize, before, pages, tree.underflow, t, t', height, key, path, node, index, lost);
  }

  lemma {:induction false} DropFilled(
      pageSize: nat, before: Pages, pages: Pages, limit: nat, t: Tree, t': Tree, height: nat, key: bytes,
      path: Path, node: Tree, index: nat, lost: Item)
    requires Single(pageSize, before, pages, limit, Ok, t, t', height, key, path, node, index, lost) && limit > 0
    ensures if Absent(t, key) then t' == t else KeepsFilled(t, t')
    ensures IsDeleted(pageSize, before, pages, t, t', height, key, lost)
  {
  }

  lemma {:induction false} EmptyLeafHolds(t: Tree, height: nat, key: bytes)
    requires t.Branch? && t.leaf && t.entries == [] && Balanced(t, height)
    ensures Absent(t, key)
  {
    assert t.right == Nil;
  }

  /** The operations in order, up to the first that does not end in Ok. */
  method Run(tree: BTree, ops: seq<Op>, ghost t: Tree, ghost height: nat)
    returns (status: Status, done: nat, ghost t': Tree, ghost height': nat)
    requires tree.pager.Valid() && tree.underflow > 0 && IsStore(tree, tree.pager.contents, t, height)
    requires NewOnly(Keys(Contents(Index, t)), ops)
    modifies tree.pager.Repr
    ensures tree.pager.Valid() && done <= |ops| && (status == Ok <==> done == |ops|)
    ensures status == Ok ==>
      && IsStore(tree, tree.pager.contents, t', height')
      && Keys(Contents(Index, t')) == AllApplied(Keys(Contents(Index, t)), ops)
  {
    status, done, t', height' := Ok, 0, t, height;
    while done < |ops|
      invariant done <= |ops| && status == Ok && tree.pager.Valid()
      invariant IsStore(tree, tree.pager.contents, t', height')
      invariant Keys(Contents(Index, t')) == AllApplied(Keys(Contents(Index, t)), ops[..done])
    {
      status, t', height' := Step(tree, ops[done], t', height');
      if status != Ok {
        return;
      }
      assert ops[..done + 1][..done] == ops[..done];
      done := done + 1;
    }
    assert ops[..done] == ops;
  }

  method Step(tree: BTree, op: Op, ghost t: Tree, ghost height: nat)
    returns (status: Status, ghost t': Tree, ghost height': nat)
    requires tree.pager.Valid() && tree.underflow > 0 && IsStore(tree, tree.pager.contents, t, height)
    requires op.key != [] && (op.Put? ==> op.key !in Keys(Contents(Index, t)))
    modifies tree.pager.Repr
    ensures tree.pager.Valid()
    ensures status == Ok ==>
      && IsStore(tree, tree.pager.contents, t', height')
      && Keys(Contents(Index, t')) == Applied(Keys(Contents(Index, t)), op)
  {
    ghost var pages, path, node, index := tree.pager.contents, [], t, 0;
    match op
    case Put(key) =>
      status, t', height', path, node, index := Insert(tree, key, t, height);
      if status == Ok { PutKeeps(tree, pages, tree.pager.contents, t, t', height, height', key); }
    case Drop(key) =>
      ghost var lost;
      var cursor := new Cursor(tree);
      height' := height;
      if NodesFilled(t) { FilledToTheLeaves(t); }
      status, t', lost, path, node, index := DeleteSingle(cursor, key, t, height);
      if status == Ok {
        DropKeeps(tree, pages, tree.pager.contents, t, t', height, key, path, node, index, lost);
      }
  }

  /** A run that ends well and then a scan: the payloads of the set, each once and in order. */
  method RunAndScan(tree: BTree, ops: seq<Op>, ghost t: Tree, ghost height: nat)
    returns (status: Status, crumbs: seq<Crumb>, ghost visits: seq<Position>)
    requires tree.pager.Valid() && tree.underflow > 0 && IsStore(tree, tree.pager.contents, t, height)
    requires NewOnly(Keys(Contents(Index, t)), ops)
    modifies tree.pager.Repr
    ensures tree.pager.Valid()
    ensures status == IterDone ==>
      && Keys(Visited(Index, visits)) == AllApplied(Keys(Contents(Index, t)), ops)
      && Increasing(Visited(Index, visits)) && |visits| == |Visited(Index, visits)|
  {
    ghost var t', height';
    var done;
    crumbs, visits := [], [];
    status, done, t', height' := Run(tree, ops, t, height);
    if status == Ok {
      status, crumbs, visits := Scan(tree, t', height');
    } else {
      status := Unknown;
    }
  }
}
