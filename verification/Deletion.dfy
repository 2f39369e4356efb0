/**
  Deleting a record from an index tree, as values: the tree without a cell, and the largest record of a subtree in its
  place.
*/
module Deletion {
  import opened Node
  import opened NodeMove
  import opened Pager
  import opened Overflow
  import opened Tree
  import opened Order
  import opened IndexTree
  import opened Climb
  import opened Presence
  import opened Room
  import opened Filled
  import opened Traverse

  // ---- trees without one entry ----

  /** `s'` is `s` without the record `r`. */
  ghost predicate OneLess(s: seq<Record>, s': seq<Record>, r: Record) {
    exists a, b :: s == a + [r] + b && s' == a + b
  }

  function Shrunk(t: Tree, at: nat): Tree
    requires t.Branch? && at < |t.entries|
  {
    t.(entries := RemoveAt(t.entries, at))
  }

  lemma {:induction false} ShrunkBack(t: Tree, at: nat)
    requires t.Branch? && at < |t.entries|
    ensures WithEntry(Shrunk(t, at), at, t.entries[at]) == t
  {
    var s := RemoveAt(t.entries, at);
    assert s[..at] == t.entries[..at] && s[at..] == t.entries[at + 1..];
    assert InsertAt(s, at, t.entries[at]) == t.entries;
  }

  lemma {:induction false} ShrunkBalanced(t: Tree, at: nat, height: nat)
    requires t.Branch? && at < |t.entries| && Balanced(t, height)
    ensures Balanced(Shrunk(t, at), height)
  {
    var s := RemoveAt(t.entries, at);
    assert forall i :: 0 <= i < |s| ==> s[i] == if i < at then t.entries[i] else t.entries[i + 1];
  }

  /** A path that takes the right child everywhere. */
  ghost predicate Rightmost(path: Path) { Along(ToEnd, path) }

  lemma {:induction false} NothingAfter(path: Path)
    requires Rightmost(path)
    ensures PathAfter(Index, path) == []
    decreases |path|
  {
    if path != [] { NothingAfter(path[..|path| - 1]); }
  }

  /** The last record below a rightmost path is the last of the leaf. */
  lemma {:induction false} LastOfLeaf(below: Path, leaf: Tree, height: nat)
    requires leaf.Branch? && leaf.leaf && Balanced(leaf, height) && leaf.entries != [] && Rightmost(below)
    ensures
      var last := |leaf.entries| - 1;
      && Contents(Index, PlugAll(below, leaf))
        == Contents(Index, PlugAll(below, Shrunk(leaf, last))) + [Record(0, leaf.entries[last].item.payload)]
      && TreePages(PlugAll(below, leaf))
         == TreePages(PlugAll(below, Shrunk(leaf, last))) + ItemPages(leaf.entries[last].item)
  {
    var last := |leaf.entries| - 1;
    var rest := Shrunk(leaf, last);
    NothingAfter(below);
    PathContents(Index, below, leaf);
    PathContents(Index, below, rest);
    PathOwns(below, leaf);
    PathOwns(below, rest);
    ShrunkBack(leaf, last);
    WithEntryContents(rest, last, leaf.entries[last]);
    WithEntryPages(rest, last, leaf.entries[last]);
    assert rest.entries[..last] == rest.entries && rest.entries[last..] == [];
    assert leaf.entries[last].kid.Nil? && leaf.right.Nil?;
    LastRegroup(PathBefore(Index, below), EntryContents(Index, true, rest.entries),
                [Record(0, leaf.entries[last].item.payload)]);
  }

  lemma {:induction false} LastRegroup<T>(a: seq<T>, b: seq<T>, c: seq<T>)
    ensures a + (b + [] + c + ([] + [])) + [] == a + (b + []) + [] + c
  {
  }

  /** The node whose cell `at` has been replaced by the last cell of its left subtree. */
  function Promoted(node: Tree, at: nat, below: Path, leaf: Tree): Tree
    requires node.Branch? && at < |node.entries| && leaf.Branch? && leaf.entries != []
  {
    var last := |leaf.entries| - 1;
    WithEntry(Shrunk(node, at), at, Entry(PlugAll(below, Shrunk(leaf, last)), 0, leaf.entries[last].item))
  }

  lemma {:induction false} PromotedContents(node: Tree, at: nat, below: Path, leaf: Tree, height: nat)
    requires node.Branch? && at < |node.entries| && node.entries[at].kid == PlugAll(below, leaf)
    requires leaf.Branch? && leaf.leaf && Balanced(leaf, height) && leaf.entries != [] && Rightmost(below)
    ensures OneLess(Contents(Index, node), Contents(Index, Promoted(node, at, below, leaf)),
      Record(0, node.entries[at].item.payload))
  {
    var n0 := Shrunk(node, at);
    var p := Promoted(node, at, below, leaf);
    var last := leaf.entries[|leaf.entries| - 1].item.payload;
    var x := EntryContents(Index, n0.leaf, n0.entries[..at]);
    var y := EntryContents(Index, n0.leaf, n0.entries[at..]) + Contents(Index, n0.right);
    var rest := Contents(Index, PlugAll(below, Shrunk(leaf, |leaf.entries| - 1)));
    ShrunkBack(node, at);
    WithEntryContents(n0, at, node.entries[at]);
    WithEntryContents(n0, at, p.entries[at]);
    LastOfLeaf(below, leaf, height);
    assert x + (rest + [Record(0, last)]) == x + rest + [Record(0, last)];
    var a := x + (rest + [Record(0, last)]);
    assert Contents(Index, node) == a + [Record(0, node.entries[at].item.payload)] + y;
  }

  lemma {:induction false} PromotedPages(node: Tree, at: nat, below: Path, leaf: Tree, height: nat)
    requires node.Branch? && at < |node.entries| && node.entries[at].kid == PlugAll(below, leaf)
    requires leaf.Branch? && leaf.leaf && Balanced(leaf, height) && leaf.entries != [] && Rightmost(below)
    ensures TreePages(node) == TreePages(Promoted(node, at, below, leaf)) + ItemPages(node.entries[at].item)
  {
    var n0 := Shrunk(node, at);
    ShrunkBack(node, at);
    WithEntryPages(n0, at, node.entries[at]);
    WithEntryPages(n0, at, Promoted(node, at, below, leaf).entries[at]);
    LastOfLeaf(below, leaf, height);
  }

  lemma {:induction false} PromotedBalanced(node: Tree, at: nat, below: Path, leaf: Tree, height: nat)
    requires node.Branch? && at < |node.entries| && node.entries[at].kid == PlugAll(below, leaf)
    requires Balanced(node, height)
    requires leaf.Branch? && leaf.entries != []
    ensures Balanced(Promoted(node, at, below, leaf), height)
  {
    var last := |leaf.entries| - 1;
    PlugBalanced(below, leaf, height - 1);
    ShrunkBalanced(leaf, last, height - 1 - |below|);
    SwapUnderPath(below, leaf, Shrunk(leaf, last), height - 1);
    ShrunkBalanced(node, at, height);
    WithEntryBalanced(Shrunk(node, at), at, Promoted(node, at, below, leaf).entries[at], height);
  }

  // ---- the whole tree ----

  lemma {:induction false} OneLessAround(p: seq<Record>, s: seq<Record>, s': seq<Record>, q: seq<Record>, r: Record)
    requires OneLess(s, s', r)
    ensures OneLess(p + s + q, p + s' + q, r)
  {
    var a, b :| s == a + [r] + b && s' == a + b;
    assert p + s + q == (p + a) + [r] + (b + q) && p + s' + q == (p + a) + (b + q);
  }

  lemma {:induction false} OneLessDeletes(s: seq<Record>, s': seq<Record>, r: Record)
    requires OneLess(s, s', r) && Increasing(s)
    ensures s' == Deleted(s, r.payload) && Increasing(s')
  {
    var a, b :| s == a + [r] + b && s' == a + b;
    DeletedBetween(a, r, b);
  }

  lemma {:induction false} ShrunkLeaf(leaf: Tree, at: nat, height: nat)
    requires leaf.Branch? && leaf.leaf && Balanced(leaf, height) && at < |leaf.entries|
    ensures OneLess(Contents(Index, leaf), Contents(Index, Shrunk(leaf, at)), Record(0, leaf.entries[at].item.payload))
    ensures TreePages(leaf) == TreePages(Shrunk(leaf, at)) + ItemPages(leaf.entries[at].item)
  {
    var n0, r := Shrunk(leaf, at), Record(0, leaf.entries[at].item.payload);
    ShrunkBack(leaf, at);
    WithEntryContents(n0, at, leaf.entries[at]);
    WithEntryPages(n0, at, leaf.entries[at]);
    assert leaf.entries[at].kid.Nil?;
    var a := EntryContents(Index, n0.leaf, n0.entries[..at]);
    var b := EntryContents(Index, n0.leaf, n0.entries[at..]) + Contents(Index, n0.right);
    assert a + [] + [r] + b == a + [r] + b;
    assert Contents(Index, n0) == a + b by {
      EntryContentsConcat(Index, n0.leaf, n0.entries[..at], n0.entries[at..]);
      assert n0.entries[..at] + n0.entries[at..] == n0.entries;
    }
  }

  /** Losing one record in a subtree is losing it in the tree. */
  lemma {:induction false} TreeLoses(path: Path, node: Tree, node': Tree, item: Item, height: nat)
    requires node.Branch? && node'.Branch? && node'.id == node.id
    requires OneLess(Contents(Index, node), Contents(Index, node'), Record(0, item.payload))
    requires TreePages(node) == TreePages(node') + ItemPages(item)
    requires Balanced(PlugAll(path, node), height) && |path| <= height
    requires Balanced(node, height - |path|) && Balanced(node', height - |path|)
    ensures
      var t, t' := PlugAll(path, node), PlugAll(path, node');
      && OneLess(Contents(Index, t), Contents(Index, t'), Record(0, item.payload))
      && TreePages(t) == TreePages(t') + ItemPages(item)
      && Balanced(t', height) && t.Branch? && t'.Branch? && t'.id == t.id
  {
    PathContents(Index, path, node);
    PathContents(Index, path, node');
    OneLessAround(PathBefore(Index, path), Contents(Index, node), Contents(Index, node'), PathAfter(Index, path),
                  Record(0, item.payload));
    PathOwns(path, node);
    PathOwns(path, node');
    SwapUnderPath(path, node, node', height);
    RootOfPath(path, node);
    RootOfPath(path, node');
  }

  // ---- the pages ----

  /** The cell is gone from its page, and nothing else has changed. */
  ghost predicate CellRemoved(pages: Pages, after: Pages, id: nat, at: nat) {
    && id in pages && pages[id].NodeBody? && at < |pages[id].node.cells|
    && after == pages[id := NodeBody(pages[id].node.(cells := RemoveAt(pages[id].node.cells, at)))]
  }

  lemma {:induction false} ShrunkMatches(page: PageBody, t: Tree, at: nat)
    requires t.Branch? && NodeMatches(Index, page, t) && at < |t.entries|
    ensures NodeMatches(Index, NodeBody(page.node.(cells := RemoveAt(page.node.cells, at))), Shrunk(t, at))
  {
    var s, c := Shrunk(t, at).entries, RemoveAt(page.node.cells, at);
    forall i | 0 <= i < |s| ensures CellMatches(Index, t.leaf, c[i], s[i]) {
      var k := if i < at then i else i + 1;
      assert s[i] == t.entries[k] && c[i] == page.node.cells[k];
    }
  }

  lemma {:induction false} ShrunkRepresented(pages: Pages, after: Pages, t: Tree, at: nat)
    requires t.Branch? && Represents(Index, pages, t) && at < |t.entries| && t.id !in PartPages(t)
    requires CellRemoved(pages, after, t.id, at)
    ensures Represents(Index, after, Shrunk(t, at)) && Holds(after, t.entries[at].item)
  {
    ShrunkMatches(pages[t.id], t, at);
    PartsFrame(Index, pages, after, t);
    ShrunkParts(after, t, at);
  }

  lemma {:induction false} ShrunkParts(pages: Pages, t: Tree, at: nat)
    requires t.Branch? && at < |t.entries| && PartsRepresented(Index, pages, t)
    ensures PartsRepresented(Index, pages, Shrunk(t, at)) && Holds(pages, t.entries[at].item)
  {
    var s := Shrunk(t, at).entries;
    assert forall i :: 0 <= i < |s| ==> s[i] == t.entries[if i < at then i else i + 1];
  }

  lemma {:induction false} ShrunkFits(pageSize: nat, pages: Pages, after: Pages, id: nat, at: nat)
    requires NodesFit(pageSize, pages) && CellRemoved(pages, after, id, at) && id != 1
    ensures NodesFit(pageSize, after)
  {
    RemovedFits(pageSize, pages[id].node, at);
  }

  /** The node and the leaf below it that gives its last cell share no page with each other or anything else. */
  lemma {:induction false} Apart(path: Path, node: Tree, at: nat, below: Path, leaf: Tree)
    requires node.Branch? && at < |node.entries| && leaf.Branch? && node.entries[at].kid == PlugAll(below, leaf)
    requires Unshared(TreePages(PlugAll(path, node)))
    ensures node.id !in PathPages(path) && node.id !in PartPages(node) && node.id !in TreePages(node.entries[at].kid)
    ensures node.id != leaf.id
    ensures leaf.id !in PathPages(path) && leaf.id !in PathPages(below) && leaf.id !in PartPages(leaf)
    ensures leaf.id !in PartPages(Shrunk(node, at))
  {
    PathOwns(path, node);
    PathOwns(below, leaf);
    ShrunkPages(node, at);
    Counted(TreePages(PlugAll(path, node)), PathPages(path), node.id, PartPages(node), PartPages(Shrunk(node, at)),
            TreePages(node.entries[at].kid), ItemPages(node.entries[at].item), PathPages(below), leaf.id,
            PartPages(leaf));
  }

  lemma {:induction false} ShrunkPages(t: Tree, at: nat)
    requires t.Branch? && at < |t.entries|
    ensures PartPages(t) == PartPages(Shrunk(t, at)) + TreePages(t.entries[at].kid) + ItemPages(t.entries[at].item)
  {
    EntryPagesAt(t.entries, at);
    EntryPagesConcat(t.entries[..at], t.entries[at + 1..]);
  }

  lemma {:induction false} Counted(
      all: multiset<nat>, above: multiset<nat>, node: nat, parts: multiset<nat>, rest: multiset<nat>,
      kid: multiset<nat>, item: multiset<nat>, below: multiset<nat>, leaf: nat, leafParts: multiset<nat>)
    requires Unshared(all) && all == above + (multiset{node} + parts)
    requires parts == rest + kid + item && kid == below + (multiset{leaf} + leafParts)
    ensures node !in above && node !in parts && node !in kid && node != leaf
    ensures leaf !in above && leaf !in below && leaf !in leafParts && leaf !in rest
  {
    assert all[leaf] <= 1 && all[node] <= 1;
    assert kid[leaf] >= 1 && parts[leaf] >= kid[leaf];
  }

  /** The leaf has given up its last cell: the left subtree, as the node will hold it. */
  lemma {:induction false} LeafGaveUp(pages: Pages, after: Pages, below: Path, leaf: Tree)
    requires leaf.Branch? && leaf.entries != []
    requires Represents(Index, pages, leaf) && PathRepresents(Index, pages, below, leaf.id)
    requires leaf.id !in PathPages(below) && leaf.id !in PartPages(leaf)
    requires CellRemoved(pages, after, leaf.id, |leaf.entries| - 1)
    ensures Represents(Index, after, PlugAll(below, Shrunk(leaf, |leaf.entries| - 1)))
    ensures Holds(after, leaf.entries[|leaf.entries| - 1].item)
  {
    var last := |leaf.entries| - 1;
    ShrunkRepresented(pages, after, leaf, last);
    PathFrame(Index, pages, after, below, leaf.id);
    PlugAllRepresents(Index, after, below, Shrunk(leaf, last));
  }

  /** The node takes over the last cell of the leaf, with its left child as before. */
  lemma {:induction false} NodeTookOver(pages: Pages, after: Pages, n0: Tree, at: nat, e: Entry)
    requires n0.Branch? && at <= |n0.entries| && !n0.leaf && e.kid.Branch?
    requires Represents(Index, pages, n0) && Represents(Index, pages, e.kid) && Holds(pages, e.item)
    requires n0.id !in PartPages(n0) && n0.id !in TreePages(e.kid) && n0.id !in Ids(e.item.chain)
    requires after
      == pages[n0.id := NodeBody(pages[n0.id].node.(cells := InsertAt(pages[n0.id].node.cells, at, CellOf(e))))]
    ensures Represents(Index, after, WithEntry(n0, at, e))
  {
    PartsFrame(Index, pages, after, n0);
    RepresentsFrame(Index, pages, after, e.kid);
    HoldsFrame(pages, after, e.item);
    WithEntryRepresents(Index, after, n0, at, e, pages[n0.id].node);
  }

  /** The tree that a deletion leaves: the same but for the payload, whose overflow pages, if any, no tree owns now. */
  ghost predicate IsDeletion(pageSize: nat, before: Pages, pages: Pages, t: Tree, t': Tree, height: nat, item: Item) {
    && IsIndexTree(pageSize, pages, t', height) && t.Branch? && t'.id == t.id
    && OneLess(Contents(Index, t), Contents(Index, t'), Record(0, item.payload))
    && TreePages(t) == TreePages(t') + ItemPages(item)
    && pages.Keys == before.Keys && Outside(before, pages, TreePages(t))
  }

  /** A node that was found, and what the pages hold of it. */
  ghost predicate FoundAt(pageSize: nat, pages: Pages, t: Tree, height: nat, path: Path, node: Tree, index: nat) {
    && IsIndexTree(pageSize, pages, t, height)
    && node.Branch? && PlugAll(path, node) == t && index < |node.entries|
    && Represents(Index, pages, node) && PathRepresents(Index, pages, path, node.id)
  }

  lemma {:induction false} OwnId(pageSize: nat, pages: Pages, t: Tree, height: nat, path: Path, node: Tree, index: nat)
    returns (nodeHeight: nat)
    requires FoundAt(pageSize, pages, t, height, path, node, index)
    ensures node.id != 1 && node.id !in PathPages(path) && node.id !in PartPages(node)
    ensures nodeHeight == height - |path| && Balanced(node, nodeHeight)
  {
    NodeApart(path, node);
    nodeHeight := HeightAt(path, node, height);
  }

  lemma {:induction false} NodeApart(path: Path, node: Tree)
    requires node.Branch? && Unshared(TreePages(PlugAll(path, node))) && 1 !in TreePages(PlugAll(path, node))
    ensures node.id != 1 && node.id !in PathPages(path) && node.id !in PartPages(node)
  {
    PathOwns(path, node);
    var all := TreePages(PlugAll(path, node));
    assert all == PathPages(path) + (multiset{node.id} + PartPages(node));
    assert all[node.id] <= 1;
  }

  lemma {:induction false} StillUnshared(all: multiset<nat>, rest: multiset<nat>, item: multiset<nat>)
    requires Unshared(all) && 1 !in all && all == rest + item
    ensures Unshared(rest) && 1 !in rest
  {
    forall id ensures rest[id] <= 1 { assert all[id] == rest[id] + item[id]; }
  }

  lemma {:induction false} NodeOwned(path: Path, node: Tree)
    requires node.Branch?
    ensures node.id in TreePages(PlugAll(path, node))
  {
    PathOwns(path, node);
  }

  lemma {:induction false} OnlyTwoChanged(
      pages: Pages, removed: Pages, middle: Pages, after: Pages, owned: multiset<nat>, node: nat, leaf: nat)
    requires node in pages && leaf in removed && node in owned && leaf in owned
    requires node in removed && removed == pages[node := removed[node]]
    requires leaf in middle && middle == removed[leaf := middle[leaf]] && node in after
    requires after == middle[node := after[node]]
    ensures after.Keys == pages.Keys && Outside(pages, after, owned)
  {
  }

  lemma {:induction false} LeafTree(t: Tree, height: nat, path: Path, node: Tree, index: nat, nodeHeight: nat)
    requires node.Branch? && node.leaf && index < |node.entries| && PlugAll(path, node) == t && Balanced(t, height)
    requires nodeHeight == height - |path| && Balanced(node, nodeHeight)
    ensures
      var t' := PlugAll(path, Shrunk(node, index));
      && OneLess(Contents(Index, t), Contents(Index, t'), Record(0, node.entries[index].item.payload))
      && TreePages(t) == TreePages(t') + ItemPages(node.entries[index].item)
      && Balanced(t', height) && t.Branch? && t'.Branch? && t'.id == t.id
  {
    ShrunkBalanced(node, index, nodeHeight);
    ShrunkLeaf(node, index, nodeHeight);
    TreeLoses(path, node, Shrunk(node, index), node.entries[index].item, height);
  }

  lemma {:induction false} ShrunkUnderPath(pages: Pages, after: Pages, path: Path, node: Tree, index: nat)
    requires node.Branch? && index < |node.entries| && node.id !in PathPages(path) && node.id !in PartPages(node)
    requires Represents(Index, pages, node) && PathRepresents(Index, pages, path, node.id)
    requires CellRemoved(pages, after, node.id, index)
    ensures Represents(Index, after, PlugAll(path, Shrunk(node, index)))
  {
    ShrunkRepresented(pages, after, node, index);
    PathFrame(Index, pages, after, path, node.id);
    PlugAllRepresents(Index, after, path, Shrunk(node, index));
  }

  /** Deleting in a leaf. */
  lemma {:induction false} LeafDeleted(
      pageSize: nat, pages: Pages, after: Pages, t: Tree, height: nat, path: Path, node: Tree, index: nat)
    requires FoundAt(pageSize, pages, t, height, path, node, index) && node.leaf
    requires CellRemoved(pages, after, node.id, index)
    ensures IsDeletion(pageSize, pages, after, t, PlugAll(path, Shrunk(node, index)), height, node.entries[index].item)
  {
    var nodeHeight := OwnId(pageSize, pages, t, height, path, node, index);
    LeafTree(t, height, path, node, index, nodeHeight);
    ShrunkUnderPath(pages, after, path, node, index);
    ShrunkFits(pageSize, pages, after, node.id, index);
    NodeOwned(path, node);
    StillUnshared(TreePages(t), TreePages(PlugAll(path, Shrunk(node, index))), ItemPages(node.entries[index].item));
  }

  /** The leaf `leaf`, at the right end of the left subtree of cell `index`, has something to give. */
  ghost predicate Below(pages: Pages, node: Tree, index: nat, below: Path, leaf: Tree)
    requires node.Branch? && index < |node.entries|
  {
    && leaf.Branch? && leaf.leaf && leaf.entries != [] && Rightmost(below)
    && node.entries[index].kid == PlugAll(below, leaf)
    && Represents(Index, pages, leaf) && PathRepresents(Index, pages, below, leaf.id)
  }

  /** The cell has moved from the leaf to the node. */
  lemma {:induction false} PromotedRepresented(
      pages: Pages, middle: Pages, after: Pages, node: Tree, index: nat, below: Path, leaf: Tree)
    requires node.Branch? && index < |node.entries| && !node.leaf && Below(pages, node, index, below, leaf)
    requires Represents(Index, pages, Shrunk(node, index))
    requires node.id !in PartPages(node) && node.id !in TreePages(node.entries[index].kid) && node.id != leaf.id
    requires leaf.id !in PathPages(below) && leaf.id !in PartPages(leaf) && leaf.id !in PartPages(Shrunk(node, index))
    requires CellRemoved(pages, middle, leaf.id, |leaf.entries| - 1)
    requires after == middle[node.id := NodeBody(pages[node.id].node.(cells :=
      InsertAt(pages[node.id].node.cells, index, CellOf(Promoted(node, index, below, leaf).entries[index]))))]
    ensures Represents(Index, after, Promoted(node, index, below, leaf))
  {
    var n0, e := Shrunk(node, index), Promoted(node, index, below, leaf).entries[index];
    GaveUp(pages, middle, below, leaf);
    RestStays(pages, middle, n0, leaf.id);
    KidLess(node, index, below, leaf);
    NodeTookOver(middle, after, n0, index, e);
  }

  lemma {:induction false} GaveUp(pages: Pages, middle: Pages, below: Path, leaf: Tree)
    requires leaf.Branch? && leaf.entries != []
    requires Represents(Index, pages, leaf) && PathRepresents(Index, pages, below, leaf.id)
    requires leaf.id !in PathPages(below) && leaf.id !in PartPages(leaf)
    requires CellRemoved(pages, middle, leaf.id, |leaf.entries| - 1)
    ensures
      var last := |leaf.entries| - 1;
      && PlugAll(below, Shrunk(leaf, last)).Branch? && Represents(Index, middle, PlugAll(below, Shrunk(leaf, last)))
      && Holds(middle, leaf.entries[last].item)
  {
    LeafGaveUp(pages, middle, below, leaf);
    RootOfPath(below, Shrunk(leaf, |leaf.entries| - 1));
  }

  lemma {:induction false} RestStays(pages: Pages, middle: Pages, n0: Tree, leaf: nat)
    requires n0.Branch? && Represents(Index, pages, n0) && leaf != n0.id && leaf !in PartPages(n0)
    requires leaf in middle && middle == pages[leaf := middle[leaf]]
    ensures Represents(Index, middle, n0)
  {
    RepresentsFrame(Index, pages, middle, n0);
  }

  lemma {:induction false} KidLess(node: Tree, index: nat, below: Path, leaf: Tree)
    requires node.Branch? && index < |node.entries| && leaf.Branch? && leaf.entries != []
    requires node.entries[index].kid == PlugAll(below, leaf)
    requires node.id !in PartPages(node)
    ensures
      var last := |leaf.entries| - 1;
      && node.id !in TreePages(PlugAll(below, Shrunk(leaf, last))) && node.id !in Ids(leaf.entries[last].item.chain)
      && node.id !in PartPages(Shrunk(node, index))
  {
    var last := |leaf.entries| - 1;
    ShrunkPages(node, index);
    PathOwns(below, leaf);
    PathOwns(below, Shrunk(leaf, last));
    ShrunkPages(leaf, last);
    assert TreePages(leaf) == multiset{leaf.id} + PartPages(leaf);
    assert TreePages(Shrunk(leaf, last)) == multiset{leaf.id} + PartPages(Shrunk(leaf, last));
    assert node.id !in TreePages(node.entries[index].kid);
    assert node.id !in ItemPages(leaf.entries[last].item);
  }

  lemma {:induction false} TakenOverFits(pageSize: nat, pages: Pages, after: Pages, id: nat, at: nat, cell: Cell)
    requires NodesFit(pageSize, pages) && id in pages && id != 1 && pages[id].NodeBody? && at <= |pages[id].node.cells|
    requires HeapRequired(cell.body) <= MaxCellSize(NodeCapacity(pageSize))
    requires HeapUsed(pages[id].node.cells) + HeapRequired(cell.body) <= NodeCapacity(pageSize)
    requires after == pages[id := NodeBody(pages[id].node.(cells := InsertAt(pages[id].node.cells, at, cell)))]
    ensures NodesFit(pageSize, after)
  {
    FitsInsert(pageSize, pages[id].node, at, cell);
  }

  /** Deleting in an internal node: first the cell goes, then the last cell of the left subtree takes its place. */
  lemma {:induction false} InnerDeleted(
      pageSize: nat, pages: Pages, removed: Pages, middle: Pages, after: Pages,
      t: Tree, height: nat, path: Path, node: Tree, index: nat, below: Path, leaf: Tree)
    requires FoundAt(pageSize, pages, t, height, path, node, index) && !node.leaf
    requires CellRemoved(pages, removed, node.id, index) && Below(removed, node, index, below, leaf)
    requires CellRemoved(removed, middle, leaf.id, |leaf.entries| - 1)
    requires after == middle[node.id := NodeBody(removed[node.id].node.(cells :=
      InsertAt(removed[node.id].node.cells, index, CellOf(Promoted(node, index, below, leaf).entries[index]))))]
    requires NodesFit(pageSize, after)
    ensures IsDeletion(pageSize, pages, after, t, PlugAll(path, Promoted(node, index, below, leaf)), height,
      node.entries[index].item)
  {
    var nodeHeight := OwnId(pageSize, pages, t, height, path, node, index);
    InnerRepresented(pages, removed, middle, after, path, node, index, below, leaf);
    PromotedTree(t, height, path, node, index, below, leaf);
    LeafIds(t, path, node, index, below, leaf);
    NodeOwned(path, node);
    OnlyTwoChanged(pages, removed, middle, after, TreePages(t), node.id, leaf.id);
    StillUnshared(TreePages(t), TreePages(PlugAll(path, Promoted(node, index, below, leaf))),
                  ItemPages(node.entries[index].item));
  }

  lemma {:induction false} PromotedHere(
      pages: Pages, removed: Pages, middle: Pages, after: Pages, path: Path, node: Tree, index: nat, below: Path,
      leaf: Tree)
    requires node.Branch? && index < |node.entries| && !node.leaf && Unshared(TreePages(PlugAll(path, node)))
    requires Represents(Index, pages, node)
    requires CellRemoved(pages, removed, node.id, index) && Below(removed, node, index, below, leaf)
    requires CellRemoved(removed, middle, leaf.id, |leaf.entries| - 1)
    requires after == middle[node.id := NodeBody(removed[node.id].node.(cells :=
      InsertAt(removed[node.id].node.cells, index, CellOf(Promoted(node, index, below, leaf).entries[index]))))]
    ensures Represents(Index, after, Promoted(node, index, below, leaf))
  {
    Apart(path, node, index, below, leaf);
    ShrunkRepresented(pages, removed, node, index);
    PromotedRepresented(removed, middle, after, node, index, below, leaf);
  }

  lemma {:induction false} PathStays(
      pages: Pages, removed: Pages, middle: Pages, after: Pages, path: Path, node: Tree, index: nat, below: Path,
      leaf: Tree)
    requires node.Branch? && index < |node.entries| && Unshared(TreePages(PlugAll(path, node)))
    requires PathRepresents(Index, pages, path, node.id)
    requires leaf.Branch? && leaf.entries != [] && node.entries[index].kid == PlugAll(below, leaf)
    requires CellRemoved(pages, removed, node.id, index) && CellRemoved(removed, middle, leaf.id, |leaf.entries| - 1)
    requires node.id in after && after == middle[node.id := after[node.id]]
    ensures PathRepresents(Index, after, path, node.id)
  {
    Apart(path, node, index, below, leaf);
    PathFrame(Index, pages, after, path, node.id);
  }

  lemma {:induction false} InnerRepresented(
      pages: Pages, removed: Pages, middle: Pages, after: Pages, path: Path, node: Tree, index: nat, below: Path,
      leaf: Tree)
    requires node.Branch? && index < |node.entries| && !node.leaf && Unshared(TreePages(PlugAll(path, node)))
    requires Represents(Index, pages, node) && PathRepresents(Index, pages, path, node.id)
    requires CellRemoved(pages, removed, node.id, index) && Below(removed, node, index, below, leaf)
    requires CellRemoved(removed, middle, leaf.id, |leaf.entries| - 1)
    requires after == middle[node.id := NodeBody(removed[node.id].node.(cells :=
      InsertAt(removed[node.id].node.cells, index, CellOf(Promoted(node, index, below, leaf).entries[index]))))]
    ensures Represents(Index, after, PlugAll(path, Promoted(node, index, below, leaf)))
  {
    PromotedHere(pages, removed, middle, after, path, node, index, below, leaf);
    PathStays(pages, removed, middle, after, path, node, index, below, leaf);
    PlugAllRepresents(Index, after, path, Promoted(node, index, below, leaf));
  }

  lemma {:induction false} PromotedTree(
      t: Tree, height: nat, path: Path, node: Tree, index: nat, below: Path, leaf: Tree)
    requires node.Branch? && index < |node.entries| && PlugAll(path, node) == t && Balanced(t, height)
    requires leaf.Branch? && leaf.leaf && leaf.entries != [] && Rightmost(below)
    requires node.entries[index].kid == PlugAll(below, leaf)
    ensures
      var t' := PlugAll(path, Promoted(node, index, below, leaf));
      && OneLess(Contents(Index, t), Contents(Index, t'), Record(0, node.entries[index].item.payload))
      && TreePages(t) == TreePages(t') + ItemPages(node.entries[index].item)
      && Balanced(t', height) && t.Branch? && t'.Branch? && t'.id == t.id
  {
    PlugBalanced(path, node, height);
    PlugBalanced(below, leaf, height - |path| - 1);
    PromotedBalanced(node, index, below, leaf, height - |path|);
    PromotedContents(node, index, below, leaf, height - |path| - 1 - |below|);
    PromotedPages(node, index, below, leaf, height - |path| - 1 - |below|);
    TreeLoses(path, node, Promoted(node, index, below, leaf), node.entries[index].item, height);
  }

  // ---- the leaf that gives a cell away ----

  /** No leaf is empty. */
  ghost predicate LeavesFilled(t: Tree)
    decreases t
  {
    t.Branch? ==>
      && (t.leaf ==> t.entries != [])
      && (forall i :: 0 <= i < |t.entries| ==> LeavesFilled(t.entries[i].kid)) && LeavesFilled(t.right)
  }

  lemma {:induction false} FilledBelow(path: Path, t: Tree)
    requires LeavesFilled(PlugAll(path, t))
    ensures LeavesFilled(t)
    decreases |path|
  {
    if path != [] {
      var h := path[|path| - 1];
      FilledBelow(path[..|path| - 1], Plug(h, t));
      assert h.at < |h.node.entries| ==> Plug(h, t).entries[h.at].kid == t;
    }
  }

  lemma {:induction false} KidStays(pages: Pages, removed: Pages, node: Tree, index: nat)
    requires node.Branch? && !node.leaf && index < |node.entries| && Represents(Index, pages, node)
    requires node.id !in PartPages(node) && CellRemoved(pages, removed, node.id, index)
    ensures node.entries[index].kid.Branch? && Represents(Index, removed, node.entries[index].kid)
    ensures pages[node.id].node.cells[index].key == node.entries[index].kid.id && !pages[node.id].node.isLeaf
    ensures |pages[node.id].node.cells| == |node.entries|
  {
    ShrunkPages(node, index);
    RepresentsFrame(Index, pages, removed, node.entries[index].kid);
    assert CellMatches(Index, node.leaf, pages[node.id].node.cells[index], node.entries[index]);
  }

  lemma {:induction false} FilledKid(path: Path, node: Tree, index: nat)
    requires node.Branch? && index < |node.entries| && LeavesFilled(PlugAll(path, node))
    ensures LeavesFilled(node.entries[index].kid)
  {
    FilledBelow(path, node);
  }

  lemma {:induction false} FoundKid(t: Tree, path: Path, node: Tree, index: nat, nodeHeight: nat)
    requires node.Branch? && PlugAll(path, node) == t && index < |node.entries| && !node.leaf && LeavesFilled(t)
    requires Balanced(node, nodeHeight)
    ensures nodeHeight > 1 && node.entries[index].kid.Branch? && Balanced(node.entries[index].kid, nodeHeight - 1)
    ensures LeavesFilled(node.entries[index].kid)
  {
    KidBalanced(node, index, nodeHeight);
    FilledKid(path, node, index);
  }

  /** What a promotion needs to know of the state after the cell was removed. */
  lemma {:induction false} FoundStays(
      pageSize: nat, pages: Pages, removed: Pages, t: Tree, height: nat, path: Path, node: Tree, index: nat)
    requires FoundAt(pageSize, pages, t, height, path, node, index) && !node.leaf
    requires CellRemoved(pages, removed, node.id, index) && 0 !in pages
    ensures node.entries[index].kid.Branch? && Represents(Index, removed, node.entries[index].kid)
    ensures node.id > 1 && NodesFit(pageSize, removed)
  {
    FoundKidStays(pages, removed, path, node, index);
    FoundFits(pageSize, pages, removed, t, height, path, node, index);
  }

  lemma {:induction false} FoundKidStays(pages: Pages, removed: Pages, path: Path, node: Tree, index: nat)
    requires node.Branch? && !node.leaf && index < |node.entries| && Represents(Index, pages, node)
    requires Unshared(TreePages(PlugAll(path, node))) && 1 !in TreePages(PlugAll(path, node)) && 0 !in pages
    requires CellRemoved(pages, removed, node.id, index)
    ensures node.id > 1 && node.entries[index].kid.Branch? && Represents(Index, removed, node.entries[index].kid)
  {
    NodeApart(path, node);
    KidStays(pages, removed, node, index);
  }

  lemma {:induction false} FoundFits(
      pageSize: nat, pages: Pages, removed: Pages, t: Tree, height: nat, path: Path, node: Tree, index: nat)
    requires FoundAt(pageSize, pages, t, height, path, node, index) && node.id != 1
    requires CellRemoved(pages, removed, node.id, index)
    ensures NodesFit(pageSize, removed)
  {
    ShrunkFits(pageSize, pages, removed, node.id, index);
  }

  lemma {:induction false} ReadyToPromote(
      pageSize: nat, pages: Pages, t: Tree, height: nat, path: Path, node: Tree, index: nat)
    returns (kid: Tree, kidHeight: nat)
    requires FoundAt(pageSize, pages, t, height, path, node, index) && !node.leaf && LeavesFilled(t)
    ensures kid == node.entries[index].kid && kid.Branch?
    ensures Balanced(kid, kidHeight) && LeavesFilled(kid)
    ensures kidHeight > 0 && height == |path| + kidHeight + 1
  {
    kid := node.entries[index].kid;
    var nodeHeight := OwnId(pageSize, pages, t, height, path, node, index);
    kidHeight := nodeHeight - 1;
    FoundKid(t, path, node, index, nodeHeight);
  }

  lemma {:induction false} LeafIds(t: Tree, path: Path, node: Tree, index: nat, below: Path, leaf: Tree)
    requires node.Branch? && index < |node.entries| && PlugAll(path, node) == t && Unshared(TreePages(t))
    requires leaf.Branch? && PlugAll(below, leaf) == node.entries[index].kid
    ensures leaf.id in TreePages(t) && leaf.id != node.id
  {
    Apart(path, node, index, below, leaf);
    NodeOwned(below, leaf);
    KidOwned(path, node, index, leaf.id);
  }

  lemma {:induction false} KidOwned(path: Path, node: Tree, index: nat, id: nat)
    requires node.Branch? && index < |node.entries| && id in TreePages(node.entries[index].kid)
    ensures id in TreePages(PlugAll(path, node))
  {
    ShrunkPages(node, index);
    assert id in PartPages(node);
    assert id in TreePages(node);
    PathOwns(path, node);
  }

  lemma {:induction false} LastCell(pageSize: nat, pages: Pages, leaf: Tree)
    requires leaf.Branch? && Represents(Index, pages, leaf) && NodesFit(pageSize, pages) && leaf.id != 1
    requires leaf.entries != []
    ensures leaf.id in pages && pages[leaf.id].NodeBody? && |pages[leaf.id].node.cells| == |leaf.entries|
    ensures
      var last := |leaf.entries| - 1;
      && pages[leaf.id].node.cells[last].body == leaf.entries[last].item.body
      && pageSize >= MIN_PAGE_SIZE && HeapRequired(leaf.entries[last].item.body) <= MaxCellSize(NodeCapacity(pageSize))
  {
    var last := |leaf.entries| - 1;
    assert CellMatches(Index, leaf.leaf, pages[leaf.id].node.cells[last], leaf.entries[last]);
    assert Fits(pageSize, pages[leaf.id].node);
  }

  /** The leaf at the right end of the left subtree has a cell to give. */
  lemma {:induction false} ReadyToGive(
      pageSize: nat, removed: Pages, t: Tree, path: Path, node: Tree, index: nat, below: Path, leaf: Tree)
    requires node.Branch? && index < |node.entries| && PlugAll(path, node) == t && Unshared(TreePages(t))
    requires 1 !in TreePages(t)
    requires leaf.Branch? && PlugAll(below, leaf) == node.entries[index].kid && LeavesFilled(node.entries[index].kid)
    requires leaf.leaf
    requires Represents(Index, removed, leaf) && NodesFit(pageSize, removed) && 0 !in removed
    ensures leaf.entries != [] && leaf.id in removed && leaf.id > 1 && leaf.id != node.id
    ensures removed[leaf.id].NodeBody? && |removed[leaf.id].node.cells| == |leaf.entries|
    ensures
      var last := |leaf.entries| - 1;
      && removed[leaf.id].node.cells[last].body == leaf.entries[last].item.body
      && pageSize >= MIN_PAGE_SIZE && HeapRequired(leaf.entries[last].item.body) <= MaxCellSize(NodeCapacity(pageSize))
      && PlugAll(below, Shrunk(leaf, last)).Branch? && PlugAll(below, leaf).Branch?
      && PlugAll(below, Shrunk(leaf, last)).id == PlugAll(below, leaf).id
  {
    FilledBelow(below, leaf);
    LeafIds(t, path, node, index, below, leaf);
    LastCell(pageSize, removed, leaf);
    RootOfPath(below, leaf);
    RootOfPath(below, Shrunk(leaf, |leaf.entries| - 1));
  }

  lemma {:induction false} TwoWrites(pages: Pages, a: nat, x: PageBody, b: nat, y: PageBody)
    requires a != b
    ensures pages[a := x][b := y] == pages[b := y][a := x]
  {
  }

  /** One node gives a cell away and another takes one. */
  lemma {:induction false} TwoFit(
      pageSize: nat, pages: Pages, middle: Pages, after: Pages, taker: nat, at: nat, cell: Cell, giver: nat, last: nat)
    requires NodesFit(pageSize, pages) && CellRemoved(pages, middle, giver, last) && giver != 1 && taker != 1
    requires taker != giver
    requires taker in pages && pages[taker].NodeBody? && at <= |pages[taker].node.cells|
    requires HeapRequired(cell.body) <= MaxCellSize(NodeCapacity(pageSize))
    requires HeapUsed(pages[taker].node.cells) + HeapRequired(cell.body) <= NodeCapacity(pageSize)
    requires after
      == middle[taker := NodeBody(pages[taker].node.(cells := InsertAt(pages[taker].node.cells, at, cell)))]
    ensures NodesFit(pageSize, after)
  {
    ShrunkFits(pageSize, pages, middle, giver, last);
    TakenOverFits(pageSize, middle, after, taker, at, cell);
  }

  /** The last cell of the leaf below has moved to slot `at` of the node. */
  lemma {:induction false} LastMoved(
      pageSize: nat, pages: Pages, removed: Pages, after: Pages,
      t: Tree, height: nat, path: Path, node: Tree, at: nat, below: Path, leaf: Tree)
    requires FoundAt(pageSize, pages, t, height, path, node, at) && !node.leaf && node.entries[at].kid.Branch?
    requires CellRemoved(pages, removed, node.id, at) && NodesFit(pageSize, removed) && 0 !in removed
    requires Reached(Index, removed, ToEnd, node.entries[at].kid, below, leaf, 1) && leaf.leaf
    requires LeavesFilled(node.entries[at].kid)
    requires leaf.id in removed && removed[leaf.id].NodeBody? && removed[leaf.id].node.cells != []
    requires removed[node.id].NodeBody? && at <= |removed[node.id].node.cells|
    requires
      var given, taker := removed[leaf.id].node, removed[node.id].node;
      var last: nat := |given.cells| - 1;
      var cell := Cell(node.entries[at].kid.id, given.cells[last].body);
      && HeapUsed(taker.cells) + HeapRequired(cell.body) <= NodeCapacity(pageSize)
      && after == removed[node.id := NodeBody(taker.(cells := InsertAt(taker.cells, at, cell)))]
                         [leaf.id := NodeBody(given.(cells := RemoveAt(given.cells, last)))]
    ensures IsDeletion(pageSize, pages, after, t, PlugAll(path, Promoted(node, at, below, leaf)), height,
      node.entries[at].item)
  {
    var given, taker := removed[leaf.id].node, removed[node.id].node;
    var last: nat := |given.cells| - 1;
    var cell := Cell(node.entries[at].kid.id, given.cells[last].body);
    ReadyToGive(pageSize, removed, t, path, node, at, below, leaf);
    var middle := removed[leaf.id := NodeBody(given.(cells := RemoveAt(given.cells, last)))];
    TwoWrites(removed, node.id, NodeBody(taker.(cells := InsertAt(taker.cells, at, cell))),
              leaf.id, NodeBody(given.(cells := RemoveAt(given.cells, last))));
    NodeApart(path, node);
    TwoFit(pageSize, removed, middle, after, node.id, at, cell, leaf.id, last);
    InnerDeleted(pageSize, pages, removed, middle, after, t, height, path, node, at, below, leaf);
  }

  // ---- the leaf that gives up a cell ----

  /** The leaf at the right end of a subtree. */
  function LastLeaf(t: Tree): Tree
    decreases t
  {
    if t.Nil? || t.leaf then t else LastLeaf(t.right)
  }

  lemma {:induction false} LastLeafBelow(below: Path, leaf: Tree, height: nat)
    requires leaf.Branch? && leaf.leaf && Rightmost(below) && Balanced(PlugAll(below, leaf), height)
    ensures LastLeaf(PlugAll(below, leaf)) == leaf
  {
    PathIsInner(below, leaf, height);
    LastLeafUnder(below, leaf);
  }

  lemma {:induction false} LastLeafUnder(below: Path, t: Tree)
    requires Rightmost(below) && forall i :: 0 <= i < |below| ==> !below[i].node.leaf
    ensures LastLeaf(PlugAll(below, t)) == LastLeaf(t)
    decreases |below|
  {
    if below != [] {
      var outer := below[..|below| - 1];
      assert forall i :: 0 <= i < |outer| ==> outer[i] == below[i];
      LastLeafUnder(outer, Plug(below[|below| - 1], t));
    }
  }

  /** The leaf that ends up with a cell less: the node itself, or the one at the right end of the left subtree. */
  function Giver(node: Tree, index: nat): Tree
    requires node.Branch? && index < |node.entries|
  {
    if node.leaf then node else LastLeaf(node.entries[index].kid)
  }

  // ---- whether the largest record fits ----

  /** The item at the right end of a subtree. */
  function LastItem(t: Tree): Item
    decreases t
  {
    if t.Nil? then NO_ITEM
    else if !t.leaf then LastItem(t.right)
    else if t.entries == [] then NO_ITEM
    else t.entries[|t.entries| - 1].item
  }

  lemma {:induction false} LastItemBelow(below: Path, leaf: Tree, height: nat)
    requires leaf.Branch? && Rightmost(below) && Balanced(PlugAll(below, leaf), height)
    ensures LastItem(PlugAll(below, leaf)) == LastItem(leaf)
  {
    PathIsInner(below, leaf, height);
    LastItemUnder(below, leaf);
  }

  lemma {:induction false} LastItemUnder(below: Path, t: Tree)
    requires Rightmost(below) && forall i :: 0 <= i < |below| ==> !below[i].node.leaf
    ensures LastItem(PlugAll(below, t)) == LastItem(t)
    decreases |below|
  {
    if below != [] {
      var outer := below[..|below| - 1];
      assert forall i :: 0 <= i < |outer| ==> outer[i] == below[i];
      LastItemUnder(outer, Plug(below[|below| - 1], t));
    }
  }

  /** The largest record of the left subtree fits in the place of the cell. */
  ghost predicate Replaceable(pageSize: nat, pages: Pages, node: Tree, at: nat) {
    && node.Branch? && at < |node.entries| && node.id in pages && pages[node.id].NodeBody?
    && at < |pages[node.id].node.cells|
    && HeapUsed(RemoveAt(pages[node.id].node.cells, at))
       + HeapRequired(LastItem(node.entries[at].kid).body) <= NodeCapacity(pageSize)
  }

  lemma {:induction false} LastItemCost(t: Tree, cost: nat, height: nat)
    requires t.Branch? && EvenTree(t, cost) && LeavesFilled(t) && Balanced(t, height)
    ensures HeapRequired(LastItem(t).body) == cost
    decreases t
  {
    if !t.leaf { LastItemCost(t.right, cost, height - 1); }
  }

  /** Among cells of equal cost it always fits. */
  lemma {:induction false} EvenReplaceable(
      pageSize: nat, pages: Pages, t: Tree, height: nat, path: Path, node: Tree, index: nat, cost: nat)
    requires FoundAt(pageSize, pages, t, height, path, node, index) && !node.leaf && LeavesFilled(t)
    requires EvenTree(t, cost)
    ensures Replaceable(pageSize, pages, node, index)
  {
    var kid, kidHeight := ReadyToPromote(pageSize, pages, t, height, path, node, index);
    NodeApart(path, node);
    EvenEverywhere(path, node, cost);
    LastItemCost(kid, cost, kidHeight);
    ReplacedCost(pageSize, pages, node, index);
  }

  lemma {:induction false} ReplacedCost(pageSize: nat, pages: Pages, node: Tree, index: nat)
    requires node.Branch? && index < |node.entries| && Represents(Index, pages, node) && NodesFit(pageSize, pages)
    requires node.id != 1
    ensures node.id in pages && pages[node.id].NodeBody? && index < |pages[node.id].node.cells|
    ensures HeapUsed(RemoveAt(pages[node.id].node.cells, index))
      + HeapRequired(node.entries[index].item.body) <= NodeCapacity(pageSize)
  {
    assert CellMatches(Index, node.leaf, pages[node.id].node.cells[index], node.entries[index]);
    HeapUsedRemove(pages[node.id].node.cells, index);
  }

  lemma {:induction false} HeapUsedRemove(cells: seq<Cell>, index: nat)
    requires index < |cells|
    ensures HeapUsed(RemoveAt(cells, index)) + HeapRequired(cells[index].body) == HeapUsed(cells)
  {
    var rest := RemoveAt(cells, index);
    HeapUsedInsert(rest, index, cells[index]);
    assert InsertAt(rest, index, cells[index]) == cells;
  }

  // ---- a cell removed and not replaced ----

  ghost predicate Without(s: seq<Record>, s': seq<Record>, gone: seq<Record>) {
    exists a, b :: s == a + gone + b && s' == a + b
  }

  /** A tree that has lost a cell and, with it, the subtree to its left. */
  ghost predicate IsCutOff(
      pageSize: nat, before: Pages, pages: Pages, t: Tree, t': Tree, height: nat, kid: Tree, item: Item)
  {
    && IsIndexTree(pageSize, pages, t', height) && t.Branch? && t'.id == t.id
    && Without(Contents(Index, t), Contents(Index, t'), Contents(Index, kid) + [Record(0, item.payload)])
    && TreePages(t) == TreePages(t') + (TreePages(kid) + ItemPages(item))
    && pages.Keys == before.Keys && Outside(before, pages, TreePages(t))
  }

  lemma {:induction false} CutContents(path: Path, node: Tree, index: nat)
    requires node.Branch? && index < |node.entries|
    ensures Without(Contents(Index, PlugAll(path, node)), Contents(Index, PlugAll(path, Shrunk(node, index))),
                    Contents(Index, node.entries[index].kid) + [Record(0, node.entries[index].item.payload)])
  {
    var n0, e := Shrunk(node, index), node.entries[index];
    var x := EntryContents(Index, n0.leaf, n0.entries[..index]);
    var y := EntryContents(Index, n0.leaf, n0.entries[index..]) + Contents(Index, n0.right);
    var gone := Contents(Index, e.kid) + [Record(0, e.item.payload)];
    ShrunkBack(node, index);
    WithEntryContents(n0, index, e);
    assert Contents(Index, n0) == x + y by {
      EntryContentsConcat(Index, n0.leaf, n0.entries[..index], n0.entries[index..]);
      assert n0.entries[..index] + n0.entries[index..] == n0.entries;
    }
    assert Contents(Index, node) == x + gone + y;
    PathContents(Index, path, node);
    PathContents(Index, path, n0);
    AroundGone(PathBefore(Index, path), x, gone, y, PathAfter(Index, path));
  }

  lemma {:induction false} AroundGone(p: seq<Record>, x: seq<Record>, gone: seq<Record>, y: seq<Record>, q: seq<Record>)
    ensures Without(p + (x + gone + y) + q, p + (x + y) + q, gone)
  {
    assert p + (x + gone + y) + q == (p + x) + gone + (y + q) && p + (x + y) + q == (p + x) + (y + q);
  }

  lemma {:induction false} CutTree(t: Tree, height: nat, path: Path, node: Tree, index: nat, nodeHeight: nat)
    requires node.Branch? && index < |node.entries| && PlugAll(path, node) == t && Balanced(t, height)
    requires nodeHeight == height - |path| && Balanced(node, nodeHeight)
    ensures
      var t', e := PlugAll(path, Shrunk(node, index)), node.entries[index];
      && TreePages(t) == TreePages(t') + (TreePages(e.kid) + ItemPages(e.item))
      && Balanced(t', height) && t.Branch? && t'.Branch? && t'.id == t.id
  {
    var n0 := Shrunk(node, index);
    ShrunkBalanced(node, index, nodeHeight);
    SwapUnderPath(path, node, n0, height);
    ShrunkBack(node, index);
    WithEntryPages(n0, index, node.entries[index]);
    PathOwns(path, node);
    PathOwns(path, n0);
    RootOfPath(path, node);
    RootOfPath(path, n0);
  }

  lemma {:induction false} CutOff(
      pageSize: nat, pages: Pages, after: Pages, t: Tree, height: nat, path: Path, node: Tree, index: nat)
    requires FoundAt(pageSize, pages, t, height, path, node, index)
    requires CellRemoved(pages, after, node.id, index)
    ensures IsCutOff(pageSize, pages, after, t, PlugAll(path, Shrunk(node, index)), height,
                     node.entries[index].kid, node.entries[index].item)
  {
    var t', e := PlugAll(path, Shrunk(node, index)), node.entries[index];
    var nodeHeight := OwnId(pageSize, pages, t, height, path, node, index);
    CutContents(path, node, index);
    CutTree(t, height, path, node, index, nodeHeight);
    ShrunkUnderPath(pages, after, path, node, index);
    ShrunkFits(pageSize, pages, after, node.id, index);
    NodeOwned(path, node);
    StillUnshared(TreePages(t), TreePages(t'), TreePages(e.kid) + ItemPages(e.item));
  }

  // ---- no node becomes empty ----

  /** A leaf that keeps a cell. */
  lemma {:induction false} ShrunkFilled(path: Path, node: Tree, at: nat)
    requires node.Branch? && at < |node.entries| && |node.entries| > 1
    ensures KeepsFilled(PlugAll(path, node), PlugAll(path, Shrunk(node, at)))
  {
    if NodesFilled(PlugAll(path, node)) {
      FilledUnder(path, node);
      FilledWithout(node, at);
      FilledSwap(path, node, Shrunk(node, at));
    }
  }

  /** A promotion out of a leaf that keeps a cell. */
  lemma {:induction false} PromotedFilled(path: Path, node: Tree, at: nat, below: Path, leaf: Tree)
    requires node.Branch? && at < |node.entries| && node.entries[at].kid == PlugAll(below, leaf)
    requires leaf.Branch? && |leaf.entries| > 1
    ensures KeepsFilled(PlugAll(path, node), PlugAll(path, Promoted(node, at, below, leaf)))
  {
    if NodesFilled(PlugAll(path, node)) {
      FilledUnder(path, node);
      ShrunkFilled(below, leaf, |leaf.entries| - 1);
      FilledWithout(node, at);
      FilledEntry(Shrunk(node, at), at, Promoted(node, at, below, leaf).entries[at]);
      FilledSwap(path, node, Promoted(node, at, below, leaf));
    }
  }

  lemma {:induction false} FilledLeaves(t: Tree)
    requires NodesFilled(t)
    ensures LeavesFilled(t)
    decreases t
  {
    if t.Branch? {
      forall i | 0 <= i < |t.entries| ensures LeavesFilled(t.entries[i].kid) { FilledLeaves(t.entries[i].kid); }
      FilledLeaves(t.right);
    }
  }
}
