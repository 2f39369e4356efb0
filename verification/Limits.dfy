/**
  An index insert that fails although a page could hold its cells: a leaf with a few large and many small cells,
  whose smaller keys are the large ones. Its half is not small enough for another large cell.
*/
module Limits {
  import opened Bytes
  import opened Node
  import opened NodeMove
  import opened Pager
  import opened Overflow
  import opened Compare
  import opened Tree
  import opened Order
  import opened Cursor
  import opened Search
  import opened Presence
  import opened IndexTree
  import opened Climb
  import opened Room
  import opened IndexInsert

  const PAGE: nat := 4096

  function Zeros(n: nat): (zeros: bytes)
    ensures |zeros| == n
  {
    seq(n, _ => 0)
  }

  function LargeCell(k: byte): Cell { Cell(0, Inline([k] + Zeros(883))) }

  function SmallCell(k: byte): Cell { Cell(0, Inline([k])) }

  /** Keys 1 to 4 take 900 bytes each, keys 5 to 9 take 17. */
  const UNEVEN: seq<Cell> := [
    LargeCell(1), LargeCell(2), LargeCell(3), LargeCell(4), SmallCell(5), SmallCell(6), SmallCell(7), SmallCell(8),
    SmallCell(9)
  ]

  /** Key 0 takes 1000 bytes, which is less than a quarter of the page. */
  const SMALLEST: bytes := [0] + Zeros(983)

  lemma {:induction false} EqualCost(cells: seq<Cell>, cost: nat)
    requires forall i :: 0 <= i < |cells| ==> HeapRequired(cells[i].body) == cost
    ensures HeapUsed(cells) == |cells| * cost
  {
    if cells != [] {
      EqualCost(cells[..|cells| - 1], cost);
      assert (|cells| - 1) * cost + cost == |cells| * cost;
    }
  }

  /** Neither the leaf nor its half has room. */
  lemma {:induction false} UnevenHasNoRoom()
    ensures HeapUsed(UNEVEN) <= NodeCapacity(PAGE) && FitsInline(NodeCapacity(PAGE), |SMALLEST|)
    ensures !HasRoom(PAGE, UNEVEN, SMALLEST, Inline(SMALLEST), false)
    ensures !HasRoom(PAGE, ChosenHalf(UNEVEN, 0), SMALLEST, Inline(SMALLEST), false)
  {
    var large, small := UNEVEN[..4], UNEVEN[4..];
    EqualCost(large, 900);
    EqualCost(small, 17);
    HeapUsedConcat(large, small);
    assert UNEVEN == large + small;
  }

  /** A leaf holds the records of its cells. */
  lemma {:induction false} LeafRecords(t: Tree, i: nat)
    requires t.Branch? && t.leaf && Balanced(t, 1) && i < |t.entries|
    ensures |Contents(Index, t)| == |t.entries| && Contents(Index, t)[i] == Record(0, t.entries[i].item.payload)
    ensures |BeforeKid(Index, t, i)| == i
  {
    EntryRecords(t.entries);
    EntryRecords(t.entries[..i]);
  }

  lemma {:induction false} EntryRecords(es: seq<Entry>)
    requires forall i :: 0 <= i < |es| ==> es[i].kid.Nil?
    ensures |EntryContents(Index, true, es)| == |es|
    ensures forall i :: 0 <= i < |es| ==> EntryContents(Index, true, es)[i] == Record(0, es[i].item.payload)
  {
    if es != [] { EntryRecords(es[1..]); }
  }

  /** The leaf as a tree of its own. */
  ghost predicate UnevenTree(pages: Pages, t: Tree) {
    IsIndexTree(PAGE, pages, t, 1) && pages[t.id].NodeBody? && pages[t.id].node.cells == UNEVEN
  }

  lemma {:induction false} UnevenEntry(pages: Pages, t: Tree, i: nat)
    requires UnevenTree(pages, t) && i < 9
    ensures |t.entries| == 9 && t.leaf && t.entries[i].item.body == UNEVEN[i].body
    ensures t.entries[i].item.payload != [] && t.entries[i].item.payload[0] == i + 1
  {
    assert CellMatches(Index, t.leaf, UNEVEN[i], t.entries[i]);
    assert Holds(pages, t.entries[i].item);
  }

  /** There is such a leaf: a file of two pages has it. */
  lemma {:induction false} UnevenExists() returns (pages: Pages, t: Tree)
    ensures UnevenTree(pages, t)
  {
    pages := map[1 := Blank, 2 := NodeBody(Node(true, UNEVEN, 0))];
    t := Branch(2, true,
                seq(9, i requires 0 <= i < 9 => Entry(Nil, 0, Item(UNEVEN[i].body.payload, UNEVEN[i].body, []))), Nil);
    UnevenHasNoRoom();
    NoEntryPages(t.entries);
    assert forall i :: 0 <= i < 9 ==>
      CellMatches(Index, true, UNEVEN[i], t.entries[i]) && Holds(pages, t.entries[i].item);
  }

  lemma {:induction false} NoEntryPages(es: seq<Entry>)
    requires forall i :: 0 <= i < |es| ==> es[i].kid.Nil? && es[i].item.chain == []
    ensures EntryPages(es) == multiset{}
  {
    if es != [] { NoEntryPages(es[1..]); }
  }

  lemma {:induction false} UnevenInOrder(pages: Pages, t: Tree)
    requires UnevenTree(pages, t)
    ensures Increasing(Contents(Index, t)) && AllAbove(Contents(Index, t), SMALLEST)
  {
    var s := Contents(Index, t);
    UnevenEntry(pages, t, 0);
    LeafRecords(t, 0);
    forall i | 0 <= i < 9 ensures s[i] == Record(0, t.entries[i].item.payload) { LeafRecords(t, i); }
    forall i, j | 0 <= i < j < 9 ensures Less(s[i].payload, s[j].payload) {
      UnevenEntry(pages, t, i);
      UnevenEntry(pages, t, j);
    }
    forall i | 0 <= i < 9 ensures Less(SMALLEST, s[i].payload) { UnevenEntry(pages, t, i); }
  }

  /** The search ends at the first slot. */
  lemma {:induction false} UnevenSlot(pages: Pages, t: Tree, path: Path, node: Tree, index: nat)
    requires UnevenTree(pages, t) && Located(t, SMALLEST, false, path, node, index)
    ensures path == [] && node == t && index == 0
  {
    PlugBalanced(path, node, 1);
    if index > 0 {
      UnevenEntry(pages, t, 0);
      LeafRecords(t, 0);
      OneMoreEntry(t, 0);
      BeforeGrows(t, 1, index);
      UnevenInOrder(pages, t);
      var before := BeforeKid(Index, t, index);
      assert before[0] == Record(0, t.entries[0].item.payload) && (PathBefore(Index, path) + before)[0] == before[0];
      CompareFlips(before[0].payload, SMALLEST);
    }
  }

  lemma {:induction false} UnevenWindows(pages: Pages, t: Tree, path: Path, node: Tree)
    requires UnevenTree(pages, t) && node.Branch? && PlugAll(path, node) == t
    ensures forall i :: 0 <= i < |node.entries| ==> Window(node.entries[i].item.body) != []
  {
    PlugBalanced(path, node, 1);
    UnevenEntry(pages, t, 0);
    forall i | 0 <= i < |node.entries| ensures Window(node.entries[i].item.body) != [] { UnevenEntry(pages, t, i); }
  }

  /** The insert of a new smallest key into such a leaf, at the root of an index tree, is refused. */
  method UnevenIsRefused(tree: BTree, ghost t: Tree) returns (status: Status, ghost t': Tree, ghost height': nat)
    requires tree.pager.Valid() && tree.kind == Index && tree.pager.pageSize == PAGE
    requires UnevenTree(tree.pager.contents, t) && t.id == tree.rootPageId
    modifies tree.pager.Repr
    ensures Increasing(Contents(Index, t)) && Absent(t, SMALLEST) && status == NotEnoughSpace
    ensures IsIndexTree(PAGE, tree.pager.contents, t', height') && Contents(Index, t') == Contents(Index, t)
  {
    ghost var pages := tree.pager.contents;
    ghost var path, node, index;
    UnevenInOrder(pages, t);
    NoneAbove(Contents(Index, t), SMALLEST);
    UnevenHasNoRoom();
    status, t', height', path, node, index := Insert(tree, SMALLEST, t, 1);
    if status == Unknown {
      UnevenWindows(pages, t, path, node);
      assert false;
    }
    UnevenSlot(pages, t, path, node, index);
  }
}
