/** Trees none of whose nodes is empty: what scans need, and what the steps of an insert keep. */
module Filled {
  import opened Node
  import opened Overflow
  import opened Tree
  import opened IndexTree
  import opened Split

  /** No subtree of the node has an empty node; the node itself may be empty. */
  ghost predicate PartsFilled(t: Tree)
    requires t.Branch?
  {
    (forall i :: 0 <= i < |t.entries| ==> NodesFilled(t.entries[i].kid)) && NodesFilled(t.right)
  }

  ghost predicate KeepsFilled(t: Tree, t': Tree) { NodesFilled(t) ==> NodesFilled(t') }

  lemma {:induction false} FilledUnder(path: Path, t: Tree)
    requires NodesFilled(PlugAll(path, t))
    ensures NodesFilled(t)
    decreases |path|
  {
    if path != [] {
      var h := path[|path| - 1];
      var p := Plug(h, t);
      FilledUnder(path[..|path| - 1], p);
      assert h.at < |p.entries| ==> p.entries[h.at].kid == t;
    }
  }

  lemma {:induction false} FilledPlug(hole: Hole, t: Tree, t': Tree)
    requires hole.node.Branch? && hole.at <= |hole.node.entries|
    requires NodesFilled(Plug(hole, t)) && NodesFilled(t')
    ensures NodesFilled(Plug(hole, t'))
  {
    var p, p' := Plug(hole, t), Plug(hole, t');
    assert forall i :: 0 <= i < |p.entries| && i != hole.at ==> p'.entries[i] == p.entries[i];
  }

  /** A subtree may be replaced by another without empty nodes. */
  lemma {:induction false} FilledSwap(path: Path, t: Tree, t': Tree)
    requires NodesFilled(PlugAll(path, t)) && NodesFilled(t')
    ensures NodesFilled(PlugAll(path, t'))
    decreases |path|
  {
    if path != [] {
      var h, outer := path[|path| - 1], path[..|path| - 1];
      FilledUnder(outer, Plug(h, t));
      FilledPlug(h, t, t');
      FilledSwap(outer, Plug(h, t), Plug(h, t'));
    }
  }

  lemma {:induction false} FilledEntry(t: Tree, at: nat, e: Entry)
    requires t.Branch? && at <= |t.entries|
    ensures NodesFilled(WithEntry(t, at, e)) <==> PartsFilled(t) && NodesFilled(e.kid)
  {
    var es := WithEntry(t, at, e).entries;
    assert forall i :: 0 <= i < |t.entries| ==> t.entries[i] == es[if i < at then i else i + 1];
    assert forall i :: 0 <= i < |es| ==>
      es[i] == if i < at then t.entries[i] else if i == at then e else t.entries[i - 1];
  }

  /** Neither half of a split is empty if there are cells on both sides of the one that goes up. */
  lemma {:induction false} FilledHalves(t: Tree, r: nat, left: nat, right: nat)
    requires t.Branch? && 0 < r && r + 1 < |t.entries| && PartsFilled(t)
    ensures NodesFilled(LeftHalf(t, r, left)) && NodesFilled(RightHalf(t, r, right))
  {
    var b := RightHalf(t, r, right);
    assert forall i :: 0 <= i < |b.entries| ==> b.entries[i] == t.entries[r + 1 + i];
  }

  lemma {:induction false} FilledWithout(t: Tree, at: nat)
    requires t.Branch? && at < |t.entries| && PartsFilled(t)
    ensures PartsFilled(t.(entries := RemoveAt(t.entries, at)))
  {
    var es := RemoveAt(t.entries, at);
    assert forall i :: 0 <= i < |es| ==> es[i] == t.entries[if i < at then i else i + 1];
  }

  /** An item may be swapped for another. */
  lemma {:induction false} FilledItem(path: Path, cur: Tree, at: nat, e: Entry, item': Item)
    requires cur.Branch? && at <= |cur.entries|
    ensures KeepsFilled(PlugAll(path, WithEntry(cur, at, e)), PlugAll(path, WithEntry(cur, at, e.(item := item'))))
  {
    var w, w' := WithEntry(cur, at, e), WithEntry(cur, at, e.(item := item'));
    if NodesFilled(PlugAll(path, w)) {
      FilledUnder(path, w);
      FilledEntry(cur, at, e);
      FilledEntry(cur, at, e.(item := item'));
      FilledSwap(path, w, w');
    }
  }

  /** Splitting a node with an entry to come, and handing the raised cell and the left half to the parent. */
  lemma {:induction false} FilledRaise(outer: Path, hole: Hole, w: Tree, r: nat, left: nat)
    requires hole.node.Branch? && hole.at <= |hole.node.entries| && w.Branch? && 0 < r && r + 1 < |w.entries|
    ensures KeepsFilled(PlugAll(outer, Plug(hole, w)), PlugAll(outer, Raise(hole, w, r, left)))
  {
    if NodesFilled(PlugAll(outer, Plug(hole, w))) {
      var raised, half := Entry(LeftHalf(w, r, left), 0, w.entries[r].item), RightHalf(w, r, w.id);
      FilledUnder(outer, Plug(hole, w));
      FilledUnder([hole], w);
      FilledHalves(w, r, left, w.id);
      FilledPlug(hole, w, half);
      FilledEntry(Plug(hole, half), hole.at, raised);
      FilledSwap(outer, Plug(hole, w), Raise(hole, w, r, left));
    }
  }

  lemma {:induction false} FilledRoot(w: Tree, r: nat, left: nat, right: nat)
    requires w.Branch? && 0 < r && r + 1 < |w.entries|
    ensures PartsFilled(w) ==> NodesFilled(NewRoot(w, r, left, right))
  {
    if PartsFilled(w) { FilledHalves(w, r, left, right); }
  }

  /** Without the left half and the middle cell, the node is still not empty. */
  lemma {:induction false} FilledRest(path: Path, cur: Tree, at: nat, e: Entry, m: nat)
    requires cur.Branch? && at <= |cur.entries| && 0 < m && m + 1 < |cur.entries|
    ensures KeepsFilled(PlugAll(path, WithEntry(cur, at, e)), PlugAll(path, RightHalf(cur, m, cur.id)))
  {
    var w := WithEntry(cur, at, e);
    if NodesFilled(PlugAll(path, w)) {
      FilledUnder(path, w);
      FilledEntry(cur, at, e);
      FilledHalves(cur, m, 0, cur.id);
      FilledSwap(path, w, RightHalf(cur, m, cur.id));
    }
  }
}
