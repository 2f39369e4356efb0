/**
  Where an insert into an index tree starts: at the slot the search stopped at. If that slot is in a leaf, the payload
  joins the records in order, equal payloads side by side. If it is in an internal node, which holds the payload
  already, the new cell has no child: the tree that is planned is torn.
*/
module InsertStart {
  import opened Bytes
  import opened Node
  import opened Overflow
  import opened Tree
  import opened Order
  import opened Search
  import opened Presence
  import opened Torn
  import opened IndexTree
  import opened Climb
  import opened Split

  /** The new entry of an insert, before its payload is stored. */
  function NewEntry(payload: bytes): Entry { Entry(Nil, 0, Item(payload, Inline(payload), [])) }

  // ---- the records ----

  lemma {:induction false} Around<T>(a: seq<T>, b: seq<T>, c: seq<T>, d: seq<T>, e: seq<T>)
    ensures a + (b + c + d) + e == (a + b) + c + (d + e)
    ensures a + (b + d) + e == (a + b) + (d + e)
  {
  }

  lemma {:induction false} LeafGap(node: Tree, index: nat, payload: bytes, height: nat)
    requires node.Branch? && node.leaf && index <= |node.entries| && Balanced(node, height)
    ensures Contents(Index, node) == BeforeKid(Index, node, index) + AfterKid(Index, node, index)
    ensures Widened(node, index, Nil, payload)
      == BeforeKid(Index, node, index) + [Record(0, payload)] + AfterKid(Index, node, index)
  {
    LeafWhole(node, index, height);
    if index < |node.entries| {
      assert node.entries[index..][1..] == node.entries[index + 1..];
    }
  }

  /** The records on the two sides of a slot in a leaf, without and with a new record in it. */
  lemma {:induction false} LeafSides(path: Path, node: Tree, index: nat, payload: bytes, height: nat)
    requires node.Branch? && node.leaf && index <= |node.entries| && Balanced(node, height)
    ensures
      var a, b := PathBefore(Index, path) + BeforeKid(Index, node, index),
      AfterKid(Index, node, index) + PathAfter(Index, path);
      && Contents(Index, PlugAll(path, node)) == a + b
      && Contents(Index, PlugAll(path, WithEntry(node, index, NewEntry(payload)))) == a + [Record(0, payload)] + b
  {
    PathContents(Index, path, node);
    PathContents(Index, path, WithEntry(node, index, NewEntry(payload)));
    WithEntryContents(node, index, NewEntry(payload));
    LeafGap(node, index, payload, height);
    Around(PathBefore(Index, path), BeforeKid(Index, node, index), [Record(0, payload)],
           AfterKid(Index, node, index), PathAfter(Index, path));
  }

  lemma {:induction false} BelowIsNotAbove(s: seq<Record>, key: bytes)
    requires AllBelow(s, key)
    ensures forall i :: 0 <= i < |s| ==> !Less(key, s[i].payload)
  {
    forall i | 0 <= i < |s| ensures !Less(key, s[i].payload) { CompareFlips(s[i].payload, key); }
  }

  /** A second record with the same payload goes next to the first. */
  lemma {:induction false} InsertedTwin(a: seq<Record>, r: Record, b: seq<Record>)
    requires Increasing(a + ([r] + b))
    ensures Inserted(a + ([r] + b), r) == a + [r] + ([r] + b)
  {
    var s := a + ([r] + b);
    assert s[|a|] == r;
    assert AllBelow(a, r.payload) by { assert forall i :: 0 <= i < |a| ==> s[i] == a[i]; }
    assert AllAbove(b, r.payload) by { assert forall i :: 0 <= i < |b| ==> s[|a| + 1 + i] == b[i]; }
    BelowIsNotAbove(a, r.payload);
    CompareFlips(r.payload, r.payload);
    InsertedBetween(a + [r], r, b);
    assert (a + [r]) + b == s && (a + [r]) + [r] + b == a + [r] + ([r] + b);
  }

  /** A record between those on its left and right, one of which may be its twin. */
  lemma {:induction false} InsertedHere(a: seq<Record>, r: Record, b: seq<Record>, found: bool)
    requires Increasing(a + b)
    requires (if found then b != [] && b[0] == r else AllBelow(a, r.payload) && AllAbove(b, r.payload))
    ensures Inserted(a + b, r) == a + [r] + b
    ensures Increasing(a + [r] + b) <==> !found
  {
    if found {
      assert b == [r] + b[1..];
      InsertedTwin(a, r, b[1..]);
      var s := a + [r] + b;
      assert s[|a|] == r && s[|a| + 1] == r && !Less(r.payload, r.payload);
    } else {
      BelowIsNotAbove(a, r.payload);
      InsertedBetween(a, r, b);
      InsertIncreasing(a, r, b);
    }
  }

  /** To the right of a slot in a leaf its own record comes first. */
  lemma {:induction false} OwnComesFirst(node: Tree, index: nat, after: seq<Record>)
    requires node.Branch? && index < |node.entries|
    ensures
      var b := AfterKid(Index, node, index) + after;
      b != [] && b[0] == Record(0, node.entries[index].item.payload)
  {
  }

  /**
    Where the search stopped in a leaf, the records with the new one in that slot are the ones there were, with one
    inserted.
  */
  lemma {:induction false} NewRecordAt(
      t: Tree, payload: bytes, found: bool, path: Path, node: Tree, index: nat, height: nat)
    requires Located(t, payload, found, path, node, index) && node.leaf && Balanced(node, height)
    requires Increasing(Contents(Index, t))
    ensures Contents(Index, PlugAll(path, WithEntry(node, index, NewEntry(payload))))
      == Inserted(Contents(Index, t), Record(0, payload))
    ensures Increasing(Inserted(Contents(Index, t), Record(0, payload))) <==> !found
  {
    var a, b := PathBefore(Index, path) + BeforeKid(Index, node, index),
    AfterKid(Index, node, index) + PathAfter(Index, path);
    LeafSides(path, node, index, payload, height);
    if found { OwnComesFirst(node, index, PathAfter(Index, path)); }
    InsertedHere(a, Record(0, payload), b, found);
  }

  // ---- pages and heights ----

  lemma {:induction false} NoPages(item: Item)
    requires item.chain == []
    ensures ItemPages(item) == multiset{}
  {
  }

  lemma {:induction false} StartPages(path: Path, node: Tree, index: nat, payload: bytes)
    requires node.Branch? && index <= |node.entries|
    ensures TreePages(PlugAll(path, WithEntry(node, index, NewEntry(payload)))) == TreePages(PlugAll(path, node))
  {
    var w := WithEntry(node, index, NewEntry(payload));
    PathOwns(path, node);
    PathOwns(path, w);
    WithEntryPages(node, index, NewEntry(payload));
    NoPages(NewEntry(payload).item);
    assert TreePages(w) == TreePages(node);
  }

  lemma {:induction false} StartBalanced(path: Path, node: Tree, index: nat, payload: bytes, height: nat)
    requires node.Branch? && node.leaf && index <= |node.entries| && Balanced(PlugAll(path, node), height)
    ensures |path| < height && height - |path| == 1 && Balanced(node, height - |path|)
    ensures Balanced(PlugAll(path, WithEntry(node, index, NewEntry(payload))), height)
  {
    PlugBalanced(path, node, height);
    WithEntryBalanced(node, index, NewEntry(payload), height - |path|);
    SwapUnderPath(path, node, WithEntry(node, index, NewEntry(payload)), height);
  }

  /** In an internal node, the new cell has no child. */
  lemma {:induction false} StartGap(path: Path, node: Tree, index: nat, payload: bytes, height: nat)
    requires node.Branch? && !node.leaf && index <= |node.entries| && Balanced(PlugAll(path, node), height)
    ensures forall i :: 0 <= i < |path| ==> !path[i].node.leaf
    ensures HasGap(PlugAll(path, WithEntry(node, index, NewEntry(payload))))
  {
    var w := WithEntry(node, index, NewEntry(payload));
    PathIsInner(path, node, height);
    assert KidAt(w, index) == Nil;
    GapHere(w, index);
    GapUnderPath(path, w);
  }

  // ---- the start of the cascade ----

  /**
    The records that the insert is to leave: the old ones and the new one, in order if the search stopped in a leaf.
  */
  function Target(t: Tree, path: Path, node: Tree, index: nat, payload: bytes): seq<Record>
    requires node.Branch? && index <= |node.entries|
  {
    if node.leaf then Inserted(Contents(Index, t), Record(0, payload))
    else Contents(Index, PlugAll(path, WithEntry(node, index, NewEntry(payload))))
  }

  /** The height that the plan keeps to, 0 for a torn tree. */
  function PlanHeight(node: Tree, height: nat): nat
    requires node.Branch?
  {
    if node.leaf then height else 0
  }

  lemma {:induction false} StartPlan(
      t: Tree, height: nat, payload: bytes, found: bool, path: Path, node: Tree, index: nat)
    requires t.Branch? && Balanced(t, height) && Unshared(TreePages(t)) && 1 !in TreePages(t)
    requires Increasing(Contents(Index, t))
    requires Located(t, payload, found, path, node, index)
    ensures Planned(t.id, Target(t, path, node, index, payload), PlanHeight(node, height),
                    PlugAll(path, WithEntry(node, index, NewEntry(payload))))
    ensures Level(PlanHeight(node, height), path, node, NewEntry(payload))
    ensures node.leaf ==> (Increasing(Inserted(Contents(Index, t), Record(0, payload))) <==> !found)
  {
    StartPages(path, node, index, payload);
    RootOfPath(path, node);
    RootOfPath(path, WithEntry(node, index, NewEntry(payload)));
    if node.leaf {
      StartBalanced(path, node, index, payload, height);
      NewRecordAt(t, payload, found, path, node, index, height - |path|);
    } else {
      StartGap(path, node, index, payload, height);
    }
  }

  /** Where the search stopped, an insert may start. */
  lemma {:induction false} StartClimb(
      pageSize: nat, pages: Pages, t: Tree, height: nat, payload: bytes, found: bool, path: Path, node: Tree,
      index: nat)
    requires IsIndexTree(pageSize, pages, t, height) && Increasing(Contents(Index, t))
    requires Located(t, payload, found, path, node, index)
    requires Represents(Index, pages, node) && PathRepresents(Index, pages, path, node.id)
    ensures Climbing(pageSize, pages, t.id, Target(t, path, node, index, payload), PlanHeight(node, height),
                     path, node, index, NewEntry(payload), false)
    ensures node.leaf ==> (Increasing(Inserted(Contents(Index, t), Record(0, payload))) <==> !found)
    ensures TreePages(PlugAll(path, WithEntry(node, index, NewEntry(payload)))) == TreePages(t)
    ensures forall id :: id in PathPages(path) + multiset{node.id} ==> id in TreePages(t)
  {
    PathIsTorn(pages, path, node);
    StartPlan(t, height, payload, found, path, node, index);
    StartPages(path, node, index, payload);
    PathOwns(path, node);
  }
}
