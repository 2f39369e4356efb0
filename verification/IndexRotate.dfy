/**
  Rotating a cell between neighbours of an index tree (ibta_rotate in src/ibtree_alg.c). Cells are removed from nodes as
  sequences of cells; NodeOnPage.dfy says when that is what happens on the page.
*/
module IndexRotate {
  import opened Node
  import opened NodeMove
  import opened Pager
  import opened Overflow
  import opened Tree
  import opened Cursor
  import opened IndexTree
  import opened Climb
  import opened Rotation
  import opened Sibling

  // ---- the three pages ----

  function GiveLast(node: Node): Node
    requires node.cells != []
  {
    var last := |node.cells| - 1;
    node.(cells := node.cells[..last], rightChild := node.cells[last].key)
  }

  lemma {:induction false} GiveLastMatches(page: PageBody, a: Tree)
    requires a.Branch? && a.entries != [] && NodeMatches(Index, page, a)
    ensures
      var last := a.entries[|a.entries| - 1];
      NodeMatches(Index, NodeBody(GiveLast(page.node)), a.(entries := a.entries[..|a.entries| - 1], right := last.kid))
  {
    var n := |a.entries| - 1;
    assert CellMatches(Index, a.leaf, page.node.cells[n], a.entries[n]);
    forall j | 0 <= j < n ensures CellMatches(Index, a.leaf, page.node.cells[..n][j], a.entries[..n][j]) {
      assert CellMatches(Index, a.leaf, page.node.cells[j], a.entries[j]);
    }
  }

  lemma {:induction false} TakeFirstMatches(page: PageBody, b: Tree, e: Entry, cell: Cell)
    requires b.Branch? && NodeMatches(Index, page, b) && CellMatches(Index, b.leaf, cell, e)
    ensures NodeMatches(Index, NodeBody(page.node.(cells := [cell] + page.node.cells)), b.(entries := [e] + b.entries))
  {
    var es, cells := [e] + b.entries, [cell] + page.node.cells;
    forall j | 0 <= j < |es| ensures CellMatches(Index, b.leaf, cells[j], es[j]) {
      if j > 0 { assert CellMatches(Index, b.leaf, page.node.cells[j - 1], b.entries[j - 1]); }
    }
  }

  lemma {:induction false} GiveFirstMatches(page: PageBody, b: Tree)
    requires b.Branch? && b.entries != [] && NodeMatches(Index, page, b)
    ensures NodeMatches(Index, NodeBody(page.node.(cells := page.node.cells[1..])), b.(entries := b.entries[1..]))
  {
    forall j | 0 <= j < |b.entries| - 1 ensures CellMatches(Index, b.leaf, page.node.cells[1..][j], b.entries[1..][j]) {
      assert CellMatches(Index, b.leaf, page.node.cells[j + 1], b.entries[j + 1]);
    }
  }

  lemma {:induction false} TakeLastMatches(page: PageBody, a: Tree, e: Entry, cell: Cell, right: Tree, rightId: nat)
    requires a.Branch? && NodeMatches(Index, page, a) && CellMatches(Index, a.leaf, cell, e)
    requires !a.leaf ==> right.Branch? && right.id == rightId
    ensures NodeMatches(Index, NodeBody(page.node.(cells := page.node.cells + [cell], rightChild := rightId)),
                        a.(entries := a.entries + [e], right := right))
  {
    var es, cells := a.entries + [e], page.node.cells + [cell];
    forall j | 0 <= j < |es| ensures CellMatches(Index, a.leaf, cells[j], es[j]) {
      if j < |a.entries| { assert CellMatches(Index, a.leaf, page.node.cells[j], a.entries[j]); }
    }
  }

  /**
    What the pages hold after a rotation right around separator `i`: `p` is the parent's page, `a` and `b` those of
    the pair.
  */
  ghost predicate RightRotatedPages(pages: Pages, after: Pages, p: nat, i: nat, a: nat, b: nat) {
    && ThreeChanged(pages, after, p, a, b)
    && pages[p].NodeBody? && i < |pages[p].node.cells| && pages[b].NodeBody? && pages[a].NodeBody?
    && pages[a].node.cells != []
    && var last := pages[a].node.cells[|pages[a].node.cells| - 1];
    && after[p] == NodeBody(pages[p].node.(cells := pages[p].node.cells[i := Cell(a, last.body)]))
    && after[a] == NodeBody(GiveLast(pages[a].node))
    && after[b] == NodeBody(pages[b].node.(cells :=
       [Cell(pages[a].node.rightChild, pages[p].node.cells[i].body)] + pages[b].node.cells))
  }

  /** The same after a rotation left. */
  ghost predicate LeftRotatedPages(pages: Pages, after: Pages, p: nat, i: nat, a: nat, b: nat) {
    && ThreeChanged(pages, after, p, a, b)
    && pages[p].NodeBody? && i < |pages[p].node.cells| && pages[a].NodeBody? && pages[b].NodeBody?
    && pages[b].node.cells != []
    && var first := pages[b].node.cells[0];
    && after[p] == NodeBody(pages[p].node.(cells := pages[p].node.cells[i := Cell(a, first.body)]))
    && after[a] == NodeBody(pages[a].node.(
         cells := pages[a].node.cells + [Cell(pages[a].node.rightChild, pages[p].node.cells[i].body)],
         rightChild := first.key))
    && after[b] == NodeBody(pages[b].node.(cells := pages[b].node.cells[1..]))
  }

  lemma {:induction false} Unfold(pages: Pages, p: Tree, i: nat)
    requires Neighbours(p, i) && Represents(Index, pages, p)
    ensures NodeMatches(Index, pages[p.id], p)
    ensures KidAt(p, i).id in pages && NodeMatches(Index, pages[KidAt(p, i).id], KidAt(p, i))
    ensures KidAt(p, i + 1).id in pages && NodeMatches(Index, pages[KidAt(p, i + 1).id], KidAt(p, i + 1))
    ensures pages[p.id].node.cells[i].body == p.entries[i].item.body
  {
    assert CellMatches(Index, p.leaf, pages[p.id].node.cells[i], p.entries[i]);
  }

  lemma {:induction false} PartsIn(pages: Pages, t: Tree)
    requires t.Branch? && PartsRepresented(Index, pages, t) && t.id in pages && NodeMatches(Index, pages[t.id], t)
    ensures Represents(Index, pages, t)
  {
  }

  lemma {:induction false} RightRepresented(pages: Pages, after: Pages, p: Tree, i: nat)
    requires Neighbours(p, i) && KidAt(p, i).entries != [] && Unshared(TreePages(p)) && Represents(Index, pages, p)
    requires RightRotatedPages(pages, after, p.id, i, KidAt(p, i).id, KidAt(p, i + 1).id)
    ensures Represents(Index, after, RotatedRight(p, i))
  {
    var a, b, q := KidAt(p, i), KidAt(p, i + 1), RotatedRight(p, i);
    Unfold(pages, p, i);
    PairFrame(Index, pages, after, p, i);
    RotatedSameBut(p, i);
    GiveLastMatches(pages[a.id], a);
    var last := a.entries[|a.entries| - 1];
    assert CellMatches(Index, a.leaf, pages[a.id].node.cells[|a.entries| - 1], last);
    TakeFirstMatches(pages[b.id], b, p.entries[i].(kid := a.right),
                     Cell(pages[a.id].node.rightChild, pages[p.id].node.cells[i].body));
    AroundParts(p, i, last.(kid := a.(entries := a.entries[..|a.entries| - 1], right := last.kid)),
                b.(entries := [p.entries[i].(kid := a.right)] + b.entries));
    PartsIn(after, KidAt(q, i));
    TakerParts(after, b, p.entries[i].(kid := a.right));
    PartsIn(after, KidAt(q, i + 1));
    SeparatorMatches(Index, pages[p.id], p, q, i, Cell(a.id, last.item.body));
    PairRepresented(Index, after, p, q, i);
  }

  lemma {:induction false} TakerParts(pages: Pages, b: Tree, e: Entry)
    requires b.Branch? && PartsRepresented(Index, pages, b) && Holds(pages, e.item) && Represents(Index, pages, e.kid)
    ensures PartsRepresented(Index, pages, b.(entries := [e] + b.entries))
  {
  }

  lemma {:induction false} EndParts(pages: Pages, a: Tree, e: Entry, right: Tree)
    requires a.Branch? && PartsRepresented(Index, pages, a) && Holds(pages, e.item) && Represents(Index, pages, e.kid)
    requires Represents(Index, pages, right)
    ensures PartsRepresented(Index, pages, a.(entries := a.entries + [e], right := right))
  {
  }

  lemma {:induction false} LeftRepresented(pages: Pages, after: Pages, p: Tree, i: nat)
    requires Neighbours(p, i) && KidAt(p, i + 1).entries != [] && Unshared(TreePages(p)) && Represents(Index, pages, p)
    requires LeftRotatedPages(pages, after, p.id, i, KidAt(p, i).id, KidAt(p, i + 1).id)
    ensures Represents(Index, after, RotatedLeft(p, i))
  {
    var a, b, q := KidAt(p, i), KidAt(p, i + 1), RotatedLeft(p, i);
    Unfold(pages, p, i);
    PairFrame(Index, pages, after, p, i);
    RotatedSameBut(p, i);
    var first, lowered := b.entries[0], p.entries[i].(kid := a.right);
    assert CellMatches(Index, b.leaf, pages[b.id].node.cells[0], first);
    GiveFirstMatches(pages[b.id], b);
    TakeLastMatches(pages[a.id], a, lowered, Cell(pages[a.id].node.rightChild, pages[p.id].node.cells[i].body),
                    first.kid, pages[b.id].node.cells[0].key);
    AroundParts(p, i, first.(kid := a.(entries := a.entries + [lowered], right := first.kid)),
                b.(entries := b.entries[1..]));
    EndParts(after, a, lowered, first.kid);
    PartsIn(after, KidAt(q, i));
    PartsIn(after, KidAt(q, i + 1));
    SeparatorMatches(Index, pages[p.id], p, q, i, Cell(a.id, first.item.body));
    PairRepresented(Index, after, p, q, i);
  }

  // ---- ibta_rotate ----

  /** A page buffer that holds a node which may differ from the file. */
  ghost predicate Buffers(pageSize: nat, nv: Page<PageBody>, id: nat, node: Node)
    reads nv
  {
    nv.pageId == id && nv.image.data == NodeBody(node) && Fits(pageSize, node) && id > 1
  }

  /** Cells that leave room for one more. */
  predicate Takes(
      pageSize: nat, cells: seq<Cell>, body: Body)
  {
    HeapUsed(cells) + HeapRequired(body) <= NodeCapacity(pageSize)
  }

  /** The separator goes down: its cell is copied to slot `at` of the child, and taken out of the parent's buffer. */
  method Lower(
      pager: Pager<PageBody>, parentNv: Page<PageBody>, nv: Page<PageBody>, i: nat, at: nat, ghost parent: Node,
      ghost node: Node)
    returns (status: Status)
    requires pager.Valid() && parentNv !in pager.Repr && nv !in pager.Repr && parentNv != nv
    requires Buffers(pager.pageSize, parentNv, parentNv.pageId, parent) && i < |parent.cells|
    requires Buffers(pager.pageSize, nv, nv.pageId, node) && at <= |node.cells| && nv.pageId in pager.contents
    modifies pager.Repr, parentNv, nv
    ensures pager.Valid() && status in {Ok, NotEnoughSpace}
    ensures status == Ok ==>
      var lowered := node.(cells := InsertAt(node.cells, at, Cell(0, parent.cells[i].body)));
      && pager.contents == old(pager.contents)[old(nv.pageId) := NodeBody(lowered)] && Fits(pager.pageSize, lowered)
      && Buffers(pager.pageSize, parentNv, old(parentNv.pageId), parent.(cells := RemoveAt(parent.cells, i)))
      && nv.pageId == old(nv.pageId)
    ensures status == Ok <==> Takes(pager.pageSize, node.cells, parent.cells[i].body)
    ensures status != Ok ==> pager.contents == old(pager.contents)
  {
    var cell := parentNv.image.data.node.cells[i];
    var moved := MoveCell(NodeCapacity(pager.pageSize), nv.image.data.node, at, cell.(key := 0));
    status := moved.0;
    if status != Ok {
      return;
    }
    FitsInsert(pager.pageSize, node, at, cell.(key := 0));
    nv.image := nv.image.(data := NodeBody(moved.1));
    pager.WritePage(nv);
    RemovedFits(pager.pageSize, parent, i);
    var page := parentNv.image.data.node;
    parentNv.image := parentNv.image.(data := NodeBody(page.(cells := RemoveAt(page.cells, i))));
  }

  /** A cell of the sibling goes up: it becomes the parent's slot `i`, with `orphan` as its left child. */
  method Raise(
      pager: Pager<PageBody>, parentNv: Page<PageBody>, nv: Page<PageBody>, src: nat, i: nat, orphan: nat,
      ghost parent: Node, ghost node: Node)
    returns (status: Status)
    requires pager.Valid() && parentNv !in pager.Repr && nv !in pager.Repr && parentNv != nv
    requires Buffers(pager.pageSize, parentNv, parentNv.pageId, parent) && i <= |parent.cells|
    requires parentNv.pageId in pager.contents
    requires Buffers(pager.pageSize, nv, nv.pageId, node) && src < |node.cells|
    modifies pager.Repr, parentNv
    ensures pager.Valid() && status in {Ok, NotEnoughSpace}
    ensures status == Ok ==>
      var raised := parent.(cells := InsertAt(parent.cells, i, Cell(orphan, node.cells[src].body)));
      pager.contents == old(pager.contents)[old(parentNv.pageId) := NodeBody(raised)] && Fits(pager.pageSize, raised)
    ensures status == Ok <==> Takes(pager.pageSize, parent.cells, node.cells[src].body)
    ensures status != Ok ==> pager.contents == old(pager.contents)
  {
    var cell := nv.image.data.node.cells[src];
    var moved := MoveCell(NodeCapacity(pager.pageSize), parentNv.image.data.node, i, cell.(key := orphan));
    status := moved.0;
    if status != Ok {
      return;
    }
    FitsInsert(pager.pageSize, parent, i, cell.(key := orphan));
    parentNv.image := parentNv.image.(data := NodeBody(moved.1));
    pager.WritePage(parentNv);
  }

  /** Of the sibling's cells the nearest goes up: the last of a left one, the first of a right one. */
  function NearestSlot(node: Node, side: Side): nat
    requires node.cells != []
  {
    if side == ToLeft then |node.cells| - 1 else 0
  }

  function Given(node: Node, side: Side): Node
    requires node.cells != []
  {
    if side == ToLeft then GiveLast(node) else node.(cells := node.cells[1..])
  }

  /** The child that is left without a parent when the cell goes up. */
  function OrphanOf(node: Node, side: Side): nat
    requires node.cells != []
  {
    if side == ToLeft then node.rightChild else node.cells[0].key
  }

  /** The sibling without the cell that went up, and the child that cell or the sibling's end pointed to. */
  method Give(pager: Pager<PageBody>, nv: Page<PageBody>, side: Side, ghost node: Node) returns (orphan: nat)
    requires pager.Valid() && nv !in pager.Repr && Buffers(pager.pageSize, nv, nv.pageId, node)
    requires node.cells != [] && nv.pageId in pager.contents
    modifies pager.Repr, nv
    ensures pager.Valid()
    ensures orphan == OrphanOf(node, side) && Fits(pager.pageSize, Given(node, side))
    ensures pager.contents == old(pager.contents)[old(nv.pageId) := NodeBody(Given(node, side))]
  {
    var page := nv.image.data.node;
    var src := if side == ToLeft then |page.cells| - 1 else 0;
    orphan := page.cells[src].key;
    if side == ToLeft {
      page, orphan := page.(rightChild := orphan), page.rightChild;
    }
    RemovedFits(pager.pageSize, node, src);
    assert side == ToLeft ==> RemoveAt(node.cells, src) == node.cells[..src];
    assert side == ToRight ==> RemoveAt(node.cells, src) == node.cells[1..];
    page := page.(cells := RemoveAt(page.cells, src));
    nv.image := nv.image.(data := NodeBody(page));
    pager.WritePage(nv);
  }

  function Relinked(node: Node, side: Side, slot: nat, orphan: nat): Node
    requires slot < |node.cells|
  {
    if side == ToLeft then node.(cells := node.cells[slot := node.cells[slot].(key := orphan)])
    else node.(cells := node.cells[slot := node.cells[slot].(key := node.rightChild)], rightChild := orphan)
  }

  /** Back at the first node: the lowered cell and the right child get the children they must have. */
  method Relink(
      pager: Pager<PageBody>, nv: Page<PageBody>, pageId: nat, side: Side, slot: nat, orphan: nat, ghost node: Node)
    requires pager.Valid() && nv !in pager.Repr && pageId > 1
    requires pageId in pager.contents && pager.contents[pageId] == NodeBody(node) && slot < |node.cells|
    modifies pager.Repr, nv
    ensures pager.Valid()
    ensures pager.contents == old(pager.contents)[pageId := NodeBody(Relinked(node, side, slot, orphan))]
  {
    var ok := pager.ReadPage(pageId, nv);
    nv.image := nv.image.(data := NodeBody(Relinked(nv.image.data.node, side, slot, orphan)));
    pager.WritePage(nv);
  }

  lemma {:induction false} RelinkedFits(pageSize: nat, node: Node, side: Side, slot: nat, orphan: nat)
    requires Fits(pageSize, node) && slot < |node.cells|
    ensures Fits(pageSize, Relinked(node, side, slot, orphan))
  {
    var cells := Relinked(node, side, slot, orphan).cells;
    SameCost(node.cells, cells);
  }

  lemma {:induction false} SameCost(a: seq<Cell>, b: seq<Cell>)
    requires |a| == |b| && forall j :: 0 <= j < |a| ==> a[j].body == b[j].body
    ensures HeapUsed(a) == HeapUsed(b)
  {
    if a != [] { SameCost(a[..|a| - 1], b[..|b| - 1]); }
  }

  // ---- the steps together ----

  lemma {:induction false} RightSteps(
      pageSize: nat, pages: Pages, c1: Pages, c2: Pages, c3: Pages, c4: Pages, p: nat, i: nat, a: nat, b: nat)
    requires NodesFit(pageSize, pages) && p > 1 && a > 1 && b > 1 && p != a && p != b && a != b
    requires p in pages && a in pages && b in pages && pages[p].NodeBody? && pages[a].NodeBody? && pages[b].NodeBody?
    requires i < |pages[p].node.cells| && pages[a].node.cells != []
    requires
      var lowered := pages[b].node.(cells := InsertAt(pages[b].node.cells, 0, Cell(0, pages[p].node.cells[i].body)));
      c1 == pages[b := NodeBody(lowered)] && Fits(pageSize, lowered)
      && c4 == c3[b := NodeBody(Relinked(lowered, ToLeft, 0, pages[a].node.rightChild))]
    requires
      var last := pages[a].node.cells[|pages[a].node.cells| - 1];
      var raised := pages[p].node.(cells := InsertAt(RemoveAt(pages[p].node.cells, i), i, Cell(a, last.body)));
      c2 == c1[p := NodeBody(raised)] && Fits(pageSize, raised)
    requires c3 == c2[a := NodeBody(GiveLast(pages[a].node))] && Fits(pageSize, GiveLast(pages[a].node))
    ensures RightRotatedPages(pages, c4, p, i, a, b) && NodesFit(pageSize, c4)
  {
    var cells := pages[p].node.cells;
    var last := pages[a].node.cells[|pages[a].node.cells| - 1];
    assert InsertAt(RemoveAt(cells, i), i, Cell(a, last.body)) == cells[i := Cell(a, last.body)];
    var x := InsertAt(pages[b].node.cells, 0, Cell(0, cells[i].body));
    assert x[0 := x[0].(key := pages[a].node.rightChild)]
      == [Cell(pages[a].node.rightChild, cells[i].body)] + pages[b].node.cells;
    RelinkedFits(pageSize, pages[b].node.(cells := x), ToLeft, 0, pages[a].node.rightChild);
  }

  lemma {:induction false} LeftSteps(
      pageSize: nat, pages: Pages, c1: Pages, c2: Pages, c3: Pages, c4: Pages, p: nat, i: nat, a: nat, b: nat)
    requires NodesFit(pageSize, pages) && p > 1 && a > 1 && b > 1 && p != a && p != b && a != b
    requires p in pages && a in pages && b in pages && pages[p].NodeBody? && pages[a].NodeBody? && pages[b].NodeBody?
    requires i < |pages[p].node.cells| && pages[b].node.cells != []
    requires
      var n := |pages[a].node.cells|;
      var lowered := pages[a].node.(cells := InsertAt(pages[a].node.cells, n, Cell(0, pages[p].node.cells[i].body)));
      c1 == pages[a := NodeBody(lowered)] && Fits(pageSize, lowered)
      && c4 == c3[a := NodeBody(Relinked(lowered, ToRight, n, pages[b].node.cells[0].key))]
    requires
      var raised :=
        pages[p].node.(cells := InsertAt(RemoveAt(pages[p].node.cells, i), i, Cell(a, pages[b].node.cells[0].body)));
      c2 == c1[p := NodeBody(raised)] && Fits(pageSize, raised)
    requires
      var given := pages[b].node.(cells := pages[b].node.cells[1..]);
      c3 == c2[b := NodeBody(given)] && Fits(pageSize, given)
    ensures LeftRotatedPages(pages, c4, p, i, a, b) && NodesFit(pageSize, c4)
  {
    var cells := pages[p].node.cells;
    var first := pages[b].node.cells[0];
    var n := |pages[a].node.cells|;
    assert InsertAt(RemoveAt(cells, i), i, Cell(a, first.body)) == cells[i := Cell(a, first.body)];
    var x := InsertAt(pages[a].node.cells, n, Cell(0, cells[i].body));
    assert x[n := x[n].(key := pages[a].node.rightChild)]
      == pages[a].node.cells + [Cell(pages[a].node.rightChild, cells[i].body)];
    RelinkedFits(pageSize, pages[a].node.(cells := x), ToRight, n, first.key);
  }

  // ---- the whole tree ----

  /** A rotation that has been carried out: another tree with the same records, pages, height and root. */
  ghost predicate SameForReaders(pageSize: nat, after: Pages, t: Tree, t': Tree, height: nat) {
    && t.Branch? && IsIndexTree(pageSize, after, t', height) && t'.id == t.id
    && Contents(Index, t') == Contents(Index, t) && TreePages(t') == TreePages(t)
  }

  lemma {:induction false} ReplacedTree(t: Tree, height: nat, path: Path, p: Tree, q: Tree, h: nat)
    requires PlugAll(path, p) == t && p.Branch? && q.Branch? && q.id == p.id && Balanced(t, height)
    requires height == |path| + h && Balanced(p, h) && Balanced(q, h)
    requires Contents(Index, q) == Contents(Index, p) && TreePages(q) == TreePages(p)
    ensures
      var t' := PlugAll(path, q);
      && t.Branch? && t'.Branch? && t'.id == t.id && Balanced(t', height)
      && Contents(Index, t') == Contents(Index, t) && TreePages(t') == TreePages(t)
  {
    SameUnderPath(path, p, q);
    SwapUnderPath(path, p, q, height);
    RootOfPath(path, p);
    RootOfPath(path, q);
  }

  lemma {:induction false} SameUnderPath(path: Path, p: Tree, q: Tree)
    requires Contents(Index, q) == Contents(Index, p) && TreePages(q) == TreePages(p)
    ensures Contents(Index, PlugAll(path, q)) == Contents(Index, PlugAll(path, p))
    ensures TreePages(PlugAll(path, q)) == TreePages(PlugAll(path, p))
  {
    PathOwns(path, p);
    PathOwns(path, q);
    PathContents(Index, path, p);
    PathContents(Index, path, q);
  }

  lemma {:induction false} ReplacedPages(pages: Pages, after: Pages, path: Path, p: Tree, q: Tree, a: nat, b: nat)
    requires Unshared(TreePages(PlugAll(path, p))) && p.Branch? && q.Branch? && q.id == p.id
    requires PathRepresents(Index, pages, path, p.id)
    requires ThreeChanged(pages, after, p.id, a, b) && a in TreePages(p) && b in TreePages(p)
    requires Represents(Index, after, q)
    ensures Represents(Index, after, PlugAll(path, q))
  {
    PathOwns(path, p);
    NotOnPath(PathPages(path), TreePages(p), p.id, a, b);
    SameOn(pages, after, p.id, a, b, PathPages(path));
    PathFrame(Index, pages, after, path, p.id);
    PlugAllRepresents(Index, after, path, q);
  }

  lemma {:induction false} Replaced(
      pageSize: nat, pages: Pages, after: Pages, t: Tree, height: nat, path: Path, p: Tree, q: Tree, h: nat, a: nat,
      b: nat)
    requires IsIndexTree(pageSize, pages, t, height) && PlugAll(path, p) == t && p.Branch? && q.Branch? && q.id == p.id
    requires PathRepresents(Index, pages, path, p.id)
    requires ThreeChanged(pages, after, p.id, a, b) && a in TreePages(p) && b in TreePages(p)
    requires Represents(Index, after, q) && NodesFit(pageSize, after)
    requires Contents(Index, q) == Contents(Index, p) && TreePages(q) == TreePages(p)
    requires height == |path| + h && Balanced(p, h) && Balanced(q, h)
    ensures SameForReaders(pageSize, after, t, PlugAll(path, q), height)
  {
    ReplacedTree(t, height, path, p, q, h);
    ReplacedPages(pages, after, path, p, q, a, b);
  }

  lemma {:induction false} NotOnPath(path: multiset<nat>, own: multiset<nat>, p: nat, a: nat, b: nat)
    requires Unshared(path + own) && p in own && a in own && b in own
    ensures Avoids(path, p, a, b)
  {
    assert (path + own)[p] <= 1 && (path + own)[a] <= 1 && (path + own)[b] <= 1;
  }

  /** Two neighbouring children in a well-formed tree. */
  ghost predicate Pair(pageSize: nat, pages: Pages, t: Tree, height: nat, path: Path, p: Tree, i: nat) {
    && IsIndexTree(pageSize, pages, t, height) && p.Branch? && PlugAll(path, p) == t
    && Represents(Index, pages, p) && PathRepresents(Index, pages, path, p.id) && Neighbours(p, i)
  }

  lemma {:induction false} PairOwned(path: Path, p: Tree)
    requires p.Branch? && Unshared(TreePages(PlugAll(path, p))) && 1 !in TreePages(PlugAll(path, p))
    ensures Unshared(TreePages(p)) && 1 !in TreePages(p) && p.id in TreePages(p)
  {
    PathOwns(path, p);
    forall id ensures TreePages(p)[id] <= 1 { assert TreePages(PlugAll(path, p))[id] <= 1; }
  }

  lemma {:induction false} NodeOnPage(pageSize: nat, pages: Pages, t: Tree)
    requires t.Branch? && t.id in pages && NodeMatches(Index, pages[t.id], t) && NodesFit(pageSize, pages) && t.id != 1
    requires 0 !in pages
    ensures t.id > 1 && pages[t.id].NodeBody? && |pages[t.id].node.cells| == |t.entries|
    ensures Fits(pageSize, pages[t.id].node)
  {
  }

  lemma {:induction false} PairOnPages(pageSize: nat, pages: Pages, t: Tree, height: nat, path: Path, p: Tree, i: nat)
    requires Pair(pageSize, pages, t, height, path, p, i) && 0 !in pages
    ensures
      var a, b := KidAt(p, i), KidAt(p, i + 1);
      && p.id in pages && a.id in pages && b.id in pages && p.id > 1 && a.id > 1 && b.id > 1
      && p.id != a.id && p.id != b.id && a.id != b.id
      && pages[p.id].NodeBody? && pages[a.id].NodeBody? && pages[b.id].NodeBody?
      && |pages[p.id].node.cells| == |p.entries| && |pages[a.id].node.cells| == |a.entries|
      && |pages[b.id].node.cells| == |b.entries|
      && Fits(pageSize, pages[p.id].node) && Fits(pageSize, pages[a.id].node) && Fits(pageSize, pages[b.id].node)
  {
    PairOwned(path, p);
    PairApart(p, i);
    Unfold(pages, p, i);
    NodeOnPage(pageSize, pages, p);
    NodeOnPage(pageSize, pages, KidAt(p, i));
    NodeOnPage(pageSize, pages, KidAt(p, i + 1));
  }

  lemma {:induction false} RightOnValues(p: Tree, i: nat, h: nat)
    requires Neighbours(p, i) && KidAt(p, i).entries != [] && Balanced(p, h)
    ensures
      var q := RotatedRight(p, i);
      q.id == p.id && Balanced(q, h) && Contents(Index, q) == Contents(Index, p) && TreePages(q) == TreePages(p)
  {
    RightBalanced(p, i, h);
    RightKeepsContents(Index, p, i);
    RightKeepsPages(p, i);
    RotatedSameBut(p, i);
  }

  lemma {:induction false} LeftOnValues(p: Tree, i: nat, h: nat)
    requires Neighbours(p, i) && KidAt(p, i + 1).entries != [] && Balanced(p, h)
    ensures
      var q := RotatedLeft(p, i);
      q.id == p.id && Balanced(q, h) && Contents(Index, q) == Contents(Index, p) && TreePages(q) == TreePages(p)
  {
    LeftBalanced(p, i, h);
    LeftKeepsContents(Index, p, i);
    LeftKeepsPages(p, i);
    RotatedSameBut(p, i);
  }

  lemma {:induction false} OutsideTree(pages: Pages, after: Pages, path: Path, p: Tree, a: nat, b: nat)
    requires p.Branch? && ThreeChanged(pages, after, p.id, a, b) && a in TreePages(p) && b in TreePages(p)
    ensures Outside(pages, after, TreePages(PlugAll(path, p)))
  {
    PathOwns(path, p);
  }

  lemma {:induction false} RightDone(
      pageSize: nat, pages: Pages, after: Pages, t: Tree, height: nat, path: Path, p: Tree, i: nat)
    requires Pair(pageSize, pages, t, height, path, p, i) && KidAt(p, i).entries != []
    requires RightRotatedPages(pages, after, p.id, i, KidAt(p, i).id, KidAt(p, i + 1).id) && NodesFit(pageSize, after)
    ensures SameForReaders(pageSize, after, t, PlugAll(path, RotatedRight(p, i)), height)
    ensures Outside(pages, after, TreePages(t))
  {
    var a, b := KidAt(p, i).id, KidAt(p, i + 1).id;
    PairOwned(path, p);
    PairApart(p, i);
    var h := HeightAt(path, p, height);
    RightOnValues(p, i, h);
    RightRepresented(pages, after, p, i);
    Replaced(pageSize, pages, after, t, height, path, p, RotatedRight(p, i), h, a, b);
    OutsideTree(pages, after, path, p, a, b);
  }

  lemma {:induction false} LeftDone(
      pageSize: nat, pages: Pages, after: Pages, t: Tree, height: nat, path: Path, p: Tree, i: nat)
    requires Pair(pageSize, pages, t, height, path, p, i) && KidAt(p, i + 1).entries != []
    requires LeftRotatedPages(pages, after, p.id, i, KidAt(p, i).id, KidAt(p, i + 1).id) && NodesFit(pageSize, after)
    ensures SameForReaders(pageSize, after, t, PlugAll(path, RotatedLeft(p, i)), height)
    ensures Outside(pages, after, TreePages(t))
  {
    var a, b := KidAt(p, i).id, KidAt(p, i + 1).id;
    PairOwned(path, p);
    PairApart(p, i);
    var h := HeightAt(path, p, height);
    LeftOnValues(p, i, h);
    LeftRepresented(pages, after, p, i);
    Replaced(pageSize, pages, after, t, height, path, p, RotatedLeft(p, i), h, a, b);
    OutsideTree(pages, after, path, p, a, b);
  }

  /** The cursor stands at child `j` of `p`. */
  ghost predicate AtChild(stack: seq<Crumb>, p: Tree, j: nat)
    requires p.Branch? && j <= |p.entries|
  {
    && |stack| >= 2 && ParentCrumb(stack) == Crumb(KeyIndexOf(p, j), p.id)
    && KidAt(p, j).Branch? && stack[|stack| - 1].pageId == KidAt(p, j).id
  }

  /** Where the sibling is, in the parent's page as it is now. */
  lemma {:induction false} SiblingPage(page: PageBody, p: Tree, j: nat, side: Side)
    requires p.Branch? && !p.leaf && NodeMatches(Index, page, p) && j <= |p.entries|
    requires if side == ToLeft then j > 0 else j < |p.entries| && p.right.Branch? && p.right.id != 0
    ensures
      var k := if side == ToLeft then j - 1 else j + 1;
      var slot := SiblingSlot(side, KeyIndexOf(p, j), page.node);
      && slot == (Ok, KeyIndexOf(p, k), k) && KidAt(p, k).Branch?
      && ChildPage(Index, page.node, k) == (Ok, KidAt(p, k).id)
  {
    ChildPageIsKid(Index, page, p, if side == ToLeft then j - 1 else j + 1);
  }

  /** A sibling on a side is found if and only if there is one. */
  lemma {:induction false} SiblingExists(page: PageBody, p: Tree, j: nat, side: Side)
    requires p.Branch? && !p.leaf && NodeMatches(Index, page, p) && j <= |p.entries| && p.right.Branch?
    requires p.right.id != 0
    ensures
      var slot := SiblingSlot(side, KeyIndexOf(p, j), page.node);
      && slot.0 in {Ok, NoSibling}
      && (slot.0 == Ok <==> if side == ToLeft then j > 0 else j < |p.entries|)
  {
  }

  /** The node with the separator lowered into it, its left child still to be set. */
  function LoweredNode(node: Node, side: Side, separator: Cell): Node {
    node.(cells := InsertAt(node.cells, if side == ToLeft then 0 else |node.cells|, Cell(0, separator.body)))
  }

  function RaisedNode(parent: Node, i: nat, side: Side, own: nat, sibling: nat, node: Node): Node
    requires i < |parent.cells| && node.cells != []
  {
    parent.(cells := InsertAt(RemoveAt(parent.cells, i), i,
      Cell(if side == ToLeft then sibling else own, node.cells[NearestSlot(node, side)].body)))
  }

  /** The separator between child `j` and its neighbour. */
  function SeparatorOf(j: nat, side: Side): int { if side == ToLeft then j - 1 else j }

  function NeighbourOf(j: nat, side: Side): int { if side == ToLeft then j - 1 else j + 1 }

  function RotatedTree(p: Tree, i: nat, side: Side): Tree
    requires Neighbours(p, i) && (if side == ToLeft then KidAt(p, i).entries != [] else KidAt(p, i + 1).entries != [])
  {
    if side == ToLeft then RotatedRight(p, i) else RotatedLeft(p, i)
  }

  /** A cursor at child `j` of `p`, in a well-formed tree, with a sibling that has a cell. */
  ghost predicate CanRotate(
      pageSize: nat, pages: Pages, stack: seq<Crumb>, t: Tree, height: nat, path: Path, p: Tree, j: nat, side: Side)
  {
    && p.Branch? && j <= |p.entries| && SeparatorOf(j, side) >= 0
    && Pair(pageSize, pages, t, height, path, p, SeparatorOf(j, side)) && AtChild(stack, p, j)
    && NeighbourOf(j, side) <= |p.entries| && KidAt(p, NeighbourOf(j, side)).entries != []
  }

  /** The four writes: the lowered cell, the parent, the sibling, and the lowered cell's children. */
  ghost predicate FourWrites(
      pageSize: nat, pages: Pages, c1: Pages, c2: Pages, c3: Pages, c4: Pages, p: nat, i: nat, own: nat, sibling: nat,
      side: Side)
  {
    && p in pages && own in pages && sibling in pages && pages[p].NodeBody? && pages[own].NodeBody?
    && pages[sibling].NodeBody?
    && i < |pages[p].node.cells| && pages[sibling].node.cells != []
    && var pn, on, sn := pages[p].node, pages[own].node, pages[sibling].node;
    && var at := if side == ToLeft then 0 else |on.cells|;
    && var lowered := LoweredNode(on, side, pn.cells[i]);
    && var raised := RaisedNode(pn, i, side, own, sibling, sn);
    && Fits(pageSize, lowered) && Fits(pageSize, raised) && Fits(pageSize, Given(sn, side))
    && c1 == pages[own := NodeBody(lowered)]
    && c2 == c1[p := NodeBody(raised)]
    && c3 == c2[sibling := NodeBody(Given(sn, side))]
    && c4 == c3[own := NodeBody(Relinked(lowered, side, at, OrphanOf(sn, side)))]
  }

  /** One cell has gone from the sibling to the parent, and one from the parent to the child. */
  ghost predicate OneOver(pages: Pages, after: Pages, p: nat, own: nat, sibling: nat) {
    && p in pages && own in pages && sibling in pages && pages[p].NodeBody? && pages[own].NodeBody?
    && pages[sibling].NodeBody? && p in after && own in after && sibling in after && after[p].NodeBody?
    && after[own].NodeBody? && after[sibling].NodeBody?
    && |after[p].node.cells| == |pages[p].node.cells|
    && |after[own].node.cells| == |pages[own].node.cells| + 1
    && |after[sibling].node.cells| == |pages[sibling].node.cells| - 1
  }

  lemma {:induction false} FourWritesMoveOne(
      pageSize: nat, pages: Pages, c1: Pages, c2: Pages, c3: Pages, c4: Pages, p: nat, i: nat, own: nat, sibling: nat,
      side: Side)
    requires FourWrites(pageSize, pages, c1, c2, c3, c4, p, i, own, sibling, side)
    requires p != own && p != sibling && own != sibling
    ensures OneOver(pages, c4, p, own, sibling)
  {
  }

  lemma {:induction false} Rotated(
      pageSize: nat, pages: Pages, c1: Pages, c2: Pages, c3: Pages, c4: Pages,
      stack: seq<Crumb>, t: Tree, height: nat, path: Path, p: Tree, j: nat, side: Side)
    requires CanRotate(pageSize, pages, stack, t, height, path, p, j, side) && 0 !in pages
    requires FourWrites(pageSize, pages, c1, c2, c3, c4, p.id, SeparatorOf(j, side), KidAt(p, j).id,
      KidAt(p, NeighbourOf(j, side)).id, side)
    ensures SameForReaders(pageSize, c4, t, PlugAll(path, RotatedTree(p, SeparatorOf(j, side), side)), height)
    ensures Outside(pages, c4, TreePages(t))
  {
    var i: nat := SeparatorOf(j, side);
    if side == ToLeft {
      RotatedRightward(pageSize, pages, c1, c2, c3, c4, t, height, path, p, i);
    } else {
      RotatedLeftward(pageSize, pages, c1, c2, c3, c4, t, height, path, p, i);
    }
  }

  lemma {:induction false} RotatedAndMoved(
      pageSize: nat, pages: Pages, c1: Pages, c2: Pages, c3: Pages, c4: Pages,
      stack: seq<Crumb>, t: Tree, height: nat, path: Path, p: Tree, j: nat, side: Side, own: nat, sibling: nat)
    requires CanRotate(pageSize, pages, stack, t, height, path, p, j, side) && 0 !in pages
    requires own == KidAt(p, j).id && sibling == KidAt(p, NeighbourOf(j, side)).id
    requires FourWrites(pageSize, pages, c1, c2, c3, c4, p.id, SeparatorOf(j, side), own, sibling, side)
    requires p.id != own && p.id != sibling && own != sibling
    ensures SameForReaders(pageSize, c4, t, PlugAll(path, RotatedTree(p, SeparatorOf(j, side), side)), height)
    ensures Outside(pages, c4, TreePages(t))
    ensures OneOver(pages, c4, p.id, own, sibling)
  {
    FourWritesMoveOne(pageSize, pages, c1, c2, c3, c4, p.id, SeparatorOf(j, side), own, sibling, side);
    Rotated(pageSize, pages, c1, c2, c3, c4, stack, t, height, path, p, j, side);
  }

  lemma {:induction false} RotatedRightward(
      pageSize: nat, pages: Pages, c1: Pages, c2: Pages, c3: Pages, c4: Pages, t: Tree, height: nat, path: Path,
      p: Tree, i: nat)
    requires Pair(pageSize, pages, t, height, path, p, i) && 0 !in pages && KidAt(p, i).entries != []
    requires FourWrites(pageSize, pages, c1, c2, c3, c4, p.id, i, KidAt(p, i + 1).id, KidAt(p, i).id, ToLeft)
    ensures SameForReaders(pageSize, c4, t, PlugAll(path, RotatedRight(p, i)), height)
    ensures Outside(pages, c4, TreePages(t))
  {
    PairOnPages(pageSize, pages, t, height, path, p, i);
    RightSteps(pageSize, pages, c1, c2, c3, c4, p.id, i, KidAt(p, i).id, KidAt(p, i + 1).id);
    RightDone(pageSize, pages, c4, t, height, path, p, i);
  }

  lemma {:induction false} RotatedLeftward(
      pageSize: nat, pages: Pages, c1: Pages, c2: Pages, c3: Pages, c4: Pages, t: Tree, height: nat, path: Path,
      p: Tree, i: nat)
    requires Pair(pageSize, pages, t, height, path, p, i) && 0 !in pages && KidAt(p, i + 1).entries != []
    requires FourWrites(pageSize, pages, c1, c2, c3, c4, p.id, i, KidAt(p, i).id, KidAt(p, i + 1).id, ToRight)
    ensures SameForReaders(pageSize, c4, t, PlugAll(path, RotatedLeft(p, i)), height)
    ensures Outside(pages, c4, TreePages(t))
  {
    PairOnPages(pageSize, pages, t, height, path, p, i);
    LeftSteps(pageSize, pages, c1, c2, c3, c4, p.id, i, KidAt(p, i).id, KidAt(p, i + 1).id);
    LeftDone(pageSize, pages, c4, t, height, path, p, i);
  }

  function Opposite(side: Side): Side { if side == ToLeft then ToRight else ToLeft }

  /** A rotation is refused before its first write, or after it: the separator is then in the child and the parent. */
  ghost function Refused(pageSize: nat, pages: Pages, p: nat, i: nat, own: nat, side: Side): Pages {
    if p in pages && own in pages && pages[p].NodeBody? && pages[own].NodeBody? && i < |pages[p].node.cells|
      && Takes(pageSize, pages[own].node.cells, pages[p].node.cells[i].body)
    then pages[own := NodeBody(LoweredNode(pages[own].node, side, pages[p].node.cells[i]))]
    else pages
  }

  /** The child has room for the separator, and the parent, without it, for the sibling's nearest cell. */
  ghost predicate RotationFits(pageSize: nat, pages: Pages, p: nat, i: nat, own: nat, sibling: nat, side: Side) {
    && p in pages && own in pages && sibling in pages && pages[p].NodeBody? && pages[own].NodeBody?
    && pages[sibling].NodeBody?
    && i < |pages[p].node.cells| && pages[sibling].node.cells != []
    && Takes(pageSize, pages[own].node.cells, pages[p].node.cells[i].body)
    && Takes(pageSize, RemoveAt(pages[p].node.cells, i),
       pages[sibling].node.cells[NearestSlot(pages[sibling].node, side)].body)
  }

  ghost predicate PairFits(pageSize: nat, pages: Pages, p: Tree, j: nat, side: Side) {
    && p.Branch? && j <= |p.entries| && SeparatorOf(j, side) >= 0 && 0 <= NeighbourOf(j, side) <= |p.entries|
    && KidAt(p, j).Branch? && KidAt(p, NeighbourOf(j, side)).Branch?
    && RotationFits(pageSize, pages, p.id, SeparatorOf(j, side), KidAt(p, j).id, KidAt(p, NeighbourOf(j, side)).id,
       side)
  }

  /** Page `id` holds a node that keeps within its heap. */
  ghost predicate Sound(pageSize: nat, pages: Pages, id: nat) {
    id in pages && id > 1 && pages[id].NodeBody? && Fits(pageSize, pages[id].node)
  }

  /** The pages of `p`, of its child `j` and of the sibling `k` of that child, which has a cell to give. */
  ghost predicate Trio(pageSize: nat, pages: Pages, p: Tree, j: nat, k: nat, own: nat, sibling: nat, side: Side) {
    && p.Branch? && !p.leaf && j <= |p.entries| && k <= |p.entries|
    && k == NeighbourOf(j, side) && 0 <= SeparatorOf(j, side) < |p.entries|
    && Sound(pageSize, pages, p.id) && Sound(pageSize, pages, own) && Sound(pageSize, pages, sibling)
    && p.id != own && p.id != sibling && own != sibling
    && |pages[p.id].node.cells| == |p.entries| && pages[p.id].node.rightChild != 0 && pages[sibling].node.cells != []
    && SiblingSlot(side, KeyIndexOf(p, j), pages[p.id].node) == (Ok, KeyIndexOf(p, k), k)
    && ChildPage(Index, pages[p.id].node, j) == (Ok, own) && ChildPage(Index, pages[p.id].node, k) == (Ok, sibling)
  }

  /** The way to the sibling, from the parent's page as it was. */
  lemma {:induction false} There(
      pageSize: nat, pages: Pages, stack: seq<Crumb>, t: Tree, height: nat, path: Path, p: Tree, j: nat, side: Side)
    returns (k: nat, own: nat, sibling: nat)
    requires CanRotate(pageSize, pages, stack, t, height, path, p, j, side) && 0 !in pages
    ensures k == NeighbourOf(j, side) && KidAt(p, j).Branch? && own == KidAt(p, j).id && KidAt(p, k).Branch?
    ensures sibling == KidAt(p, k).id
    ensures Trio(pageSize, pages, p, j, k, own, sibling, side)
    ensures PairFits(pageSize, pages, p, j, side) <==>
      RotationFits(pageSize, pages, p.id, SeparatorOf(j, side), own, sibling, side)
  {
    var i: nat := SeparatorOf(j, side);
    k := NeighbourOf(j, side);
    own, sibling := KidAt(p, j).id, KidAt(p, k).id;
    PairOnPages(pageSize, pages, t, height, path, p, i);
    Unfold(pages, p, i);
    RightInPages(pages, p);
    SiblingPage(pages[p.id], p, j, side);
    ChildPageIsKid(Index, pages[p.id], p, j);
  }

  lemma {:induction false} RightInPages(pages: Pages, p: Tree)
    requires p.Branch? && !p.leaf && Represents(Index, pages, p) && 0 !in pages
    ensures p.right.Branch? && p.right.id != 0
  {
  }

  /** The way back, from the parent's page with the new separator. */
  lemma {:induction false} Back(node: Node, p: Tree, j: nat, side: Side, cell: Cell, own: nat)
    requires p.Branch? && !p.leaf && j <= |p.entries| && 0 <= SeparatorOf(j, side) < |p.entries|
    requires NeighbourOf(j, side) <= |p.entries|
    requires |node.cells| == |p.entries| && ChildPage(Index, node, j) == (Ok, own) && node.rightChild != 0
    requires side == ToRight ==> cell.key == own
    ensures
      var i: nat := SeparatorOf(j, side);
      var raised := node.(cells := InsertAt(RemoveAt(node.cells, i), i, cell));
      && SiblingSlot(Opposite(side), KeyIndexOf(p, NeighbourOf(j, side)), raised) == (Ok, KeyIndexOf(p, j), j)
      && ChildPage(Index, raised, j) == (Ok, own)
  {
    var i: nat := SeparatorOf(j, side);
    assert InsertAt(RemoveAt(node.cells, i), i, cell) == node.cells[i := cell];
  }

  /** The cursor is at page `own`, which its stack gives as child `j` of `p`. */
  ghost predicate Below(stack: seq<Crumb>, current: Crumb, p: Tree, j: nat, own: nat) {
    && p.Branch? && |stack| >= 2 && current == stack[|stack| - 1] && current.pageId == own
    && ParentCrumb(stack) == Crumb(KeyIndexOf(p, j), p.id)
  }

  /** The separator goes down into the node, and out of the parent's buffer. */
  method LowerOwn(
      cursor: Cursor, nv: Page<PageBody>, parentNv: Page<PageBody>, side: Side,
      ghost p: Tree, ghost j: nat, ghost k: nat, ghost own: nat, ghost sibling: nat)
    returns (status: Status, i: nat, at: nat)
    requires cursor.Valid() && cursor.tree.pager.Valid() && cursor.tree.kind == Index
    requires cursor !in cursor.tree.pager.Repr && cursor.breadcrumbs !in cursor.tree.pager.Repr
    requires nv !in cursor.tree.pager.Repr
    requires parentNv !in cursor.tree.pager.Repr && parentNv != nv
    requires Trio(cursor.tree.pager.pageSize, cursor.tree.pager.contents, p, j, k, own, sibling, side)
    requires Below(cursor.Stack(), cursor.Current(), p, j, own)
    modifies cursor.tree.pager.Repr, nv, parentNv, cursor, cursor.breadcrumbs
    ensures cursor.Valid() && cursor.tree.pager.Valid() && status in {Ok, NotEnoughSpace}
    ensures cursor.Stack() == old(cursor.Stack())
    ensures status == Ok ==>
      var pages := old(cursor.tree.pager.contents);
      var lowered := LoweredNode(pages[own].node, side, pages[p.id].node.cells[SeparatorOf(j, side)]);
      && nv.pageId == own && i == SeparatorOf(j, side) && at == (if side == ToLeft then 0 else |pages[own].node.cells|)
      && Fits(cursor.tree.pager.pageSize, lowered) && cursor.tree.pager.contents == pages[own := NodeBody(lowered)]
      && Buffers(cursor.tree.pager.pageSize, parentNv, p.id,
         pages[p.id].node.(cells := RemoveAt(pages[p.id].node.cells, i)))
    ensures
      var pages := old(cursor.tree.pager.contents);
      status == Ok <==>
        Takes(cursor.tree.pager.pageSize, pages[own].node.cells, pages[p.id].node.cells[SeparatorOf(j, side)].body)
    ensures status != Ok ==> cursor.tree.pager.contents == old(cursor.tree.pager.contents)
  {
    var pager := cursor.tree.pager;
    ghost var pages := pager.contents;
    var ok := pager.ReadPage(cursor.currentPageId, nv);
    var crumb;
    status, crumb := ReadParent(cursor, parentNv);
    i :=
      if side == ToRight then crumb.keyIndex.index
      else if crumb.keyIndex.mode == RightChild then |parentNv.image.data.node.cells| - 1
      else crumb.keyIndex.index - 1;
    at := if side == ToLeft then 0 else |nv.image.data.node.cells|;
    status := Lower(pager, parentNv, nv, i, at, pages[p.id].node, pages[own].node);
  }

  /** The first half of ibta_rotate: the separator goes down, and the sibling's nearest cell goes up. */
  method LowerAndRaise(
      cursor: Cursor, nv: Page<PageBody>, side: Side,
      ghost p: Tree, ghost j: nat, ghost k: nat, ghost own: nat, ghost sibling: nat)
    returns (status: Status, at: nat, ghost c1: Pages)
    requires cursor.Valid() && cursor.tree.pager.Valid() && cursor.tree.kind == Index
    requires cursor !in cursor.tree.pager.Repr && cursor.breadcrumbs !in cursor.tree.pager.Repr
    requires nv !in cursor.tree.pager.Repr
    requires Trio(cursor.tree.pager.pageSize, cursor.tree.pager.contents, p, j, k, own, sibling, side)
    requires Below(cursor.Stack(), cursor.Current(), p, j, own)
    modifies cursor.tree.pager.Repr, nv, cursor, cursor.breadcrumbs
    ensures cursor.Valid() && cursor.tree.pager.Valid() && status in {Ok, NotEnoughSpace}
    ensures status == Ok ==>
      var pages := old(cursor.tree.pager.contents);
      var i: nat := SeparatorOf(j, side);
      var lowered := LoweredNode(pages[own].node, side, pages[p.id].node.cells[i]);
      var raised := RaisedNode(pages[p.id].node, i, side, own, sibling, pages[sibling].node);
      && Fits(cursor.tree.pager.pageSize, lowered) && Fits(cursor.tree.pager.pageSize, raised)
      && c1 == pages[own := NodeBody(lowered)] && cursor.tree.pager.contents == c1[p.id := NodeBody(raised)]
      && at == (if side == ToLeft then 0 else |pages[own].node.cells|)
      && nv.pageId == sibling && nv.image.data == pages[sibling]
      && cursor.Stack() == old(cursor.Stack()[..|cursor.Stack()| - 2])
         + [Crumb(KeyIndexOf(p, k), p.id), Crumb(KeyIndex(At, 0), sibling)]
      && cursor.Current() == Crumb(KeyIndex(At, 0), sibling)
    ensures status == Ok <==>
      RotationFits(cursor.tree.pager.pageSize, old(cursor.tree.pager.contents), p.id, SeparatorOf(j, side), own,
        sibling, side)
    ensures status != Ok ==>
      cursor.tree.pager.contents
        == Refused(cursor.tree.pager.pageSize, old(cursor.tree.pager.contents), p.id, SeparatorOf(j, side), own, side)
  {
    var pager := cursor.tree.pager;
    ghost var pages := pager.contents;
    c1 := pages;
    var parentNv := new Page<PageBody>(pager.blank);
    var i;
    status, i, at := LowerOwn(cursor, nv, parentNv, side, p, j, k, own, sibling);
    if status != Ok {
      return;
    }
    var ownId := nv.pageId;
    c1 := pager.contents;
    status := GoToSibling(cursor, side);
    var ok := pager.ReadPage(cursor.currentPageId, nv);
    var src := NearestSlot(nv.image.data.node, side);
    var left := if side == ToLeft then cursor.currentPageId else ownId;
    status := Raise(pager, parentNv, nv, src, i, left, parentNv.image.data.node, pages[sibling].node);
  }

  /** The second half: the sibling gives up its cell, and the lowered cell gets its children. */
  method GiveAndRelink(
      cursor: Cursor, nv: Page<PageBody>, side: Side, at: nat,
      ghost p: Tree, ghost j: nat, ghost k: nat, ghost own: nat, ghost sibling: nat, ghost lowered: Node,
      ghost node: Node)
    returns (ghost c3: Pages)
    requires cursor.Valid() && cursor.tree.pager.Valid() && cursor.tree.kind == Index
    requires cursor !in cursor.tree.pager.Repr && cursor.breadcrumbs !in cursor.tree.pager.Repr
    requires nv !in cursor.tree.pager.Repr
    requires p.Branch? && j <= |p.entries| && k <= |p.entries|
    requires |cursor.Stack()| >= 2 && ParentCrumb(cursor.Stack()) == Crumb(KeyIndexOf(p, k), p.id)
    requires Buffers(cursor.tree.pager.pageSize, nv, sibling, node) && node.cells != []
    requires sibling in cursor.tree.pager.contents && own in cursor.tree.pager.contents
    requires p.id in cursor.tree.pager.contents
    requires own > 1 && own != sibling && p.id != sibling && own != p.id
    requires cursor.tree.pager.contents[own] == NodeBody(lowered) && at < |lowered.cells|
    requires cursor.tree.pager.contents[p.id].NodeBody?
    requires SiblingSlot(Opposite(side), KeyIndexOf(p, k), cursor.tree.pager.contents[p.id].node)
      == (Ok, KeyIndexOf(p, j), j)
    requires ChildPage(Index, cursor.tree.pager.contents[p.id].node, j) == (Ok, own)
    modifies cursor.tree.pager.Repr, nv, cursor, cursor.breadcrumbs
    ensures cursor.tree.pager.Valid() && Fits(cursor.tree.pager.pageSize, Given(node, side))
    ensures c3 == old(cursor.tree.pager.contents)[sibling := NodeBody(Given(node, side))]
    ensures cursor.tree.pager.contents == c3[own := NodeBody(Relinked(lowered, side, at, OrphanOf(node, side)))]
  {
    var pager := cursor.tree.pager;
    var orphan := Give(pager, nv, side, node);
    c3 := pager.contents;
    var status := GoToSibling(cursor, Opposite(side));
    Relink(pager, nv, cursor.currentPageId, side, at, orphan, lowered);
  }

  /** All four writes. */
  method RotatePages(
      cursor: Cursor, nv: Page<PageBody>, side: Side,
      ghost p: Tree, ghost j: nat, ghost k: nat, ghost own: nat, ghost sibling: nat)
    returns (status: Status, ghost c1: Pages, ghost c2: Pages, ghost c3: Pages)
    requires cursor.Valid() && cursor.tree.pager.Valid() && cursor.tree.kind == Index
    requires cursor !in cursor.tree.pager.Repr && cursor.breadcrumbs !in cursor.tree.pager.Repr
    requires nv !in cursor.tree.pager.Repr
    requires Trio(cursor.tree.pager.pageSize, cursor.tree.pager.contents, p, j, k, own, sibling, side)
    requires Below(cursor.Stack(), cursor.Current(), p, j, own)
    modifies cursor.tree.pager.Repr, nv, cursor, cursor.breadcrumbs
    ensures cursor.tree.pager.Valid() && status in {Ok, NotEnoughSpace}
    ensures status == Ok ==>
      FourWrites(cursor.tree.pager.pageSize, old(cursor.tree.pager.contents), c1, c2, c3, cursor.tree.pager.contents,
                 p.id, SeparatorOf(j, side), own, sibling, side)
    ensures status == Ok <==>
      RotationFits(cursor.tree.pager.pageSize, old(cursor.tree.pager.contents), p.id, SeparatorOf(j, side), own,
        sibling, side)
    ensures status != Ok ==>
      cursor.tree.pager.contents
        == Refused(cursor.tree.pager.pageSize, old(cursor.tree.pager.contents), p.id, SeparatorOf(j, side), own, side)
  {
    ghost var pages := cursor.tree.pager.contents;
    c1, c2, c3 := pages, pages, pages;
    var at;
    status, at, c1 := LowerAndRaise(cursor, nv, side, p, j, k, own, sibling);
    if status == Ok {
      c2 := cursor.tree.pager.contents;
      Back(pages[p.id].node, p, j, side, c2[p.id].node.cells[SeparatorOf(j, side)], own);
      c3 := GiveAndRelink(cursor, nv, side, at, p, j, k, own, sibling, c1[own].node, pages[sibling].node);
    }
  }

  /** ibta_rotate, with the cursor at the child that is to get a cell. */
  method Rotate(
      cursor: Cursor, side: Side, ghost t: Tree, ghost height: nat, ghost path: Path, ghost p: Tree, ghost j: nat)
    returns (status: Status, ghost t': Tree)
    requires cursor.Valid() && cursor.tree.pager.Valid() && cursor.tree.kind == Index
    requires cursor !in cursor.tree.pager.Repr && cursor.breadcrumbs !in cursor.tree.pager.Repr
    requires CanRotate(cursor.tree.pager.pageSize, cursor.tree.pager.contents, cursor.Stack(), t, height, path, p, j,
      side)
    requires cursor.Current() == cursor.Stack()[|cursor.Stack()| - 1]
    modifies cursor.tree.pager.Repr, cursor, cursor.breadcrumbs
    ensures cursor.tree.pager.Valid() && status in {Ok, NotEnoughSpace}
    ensures status == Ok ==>
      && t' == PlugAll(path, RotatedTree(p, SeparatorOf(j, side), side))
      && SameForReaders(cursor.tree.pager.pageSize, cursor.tree.pager.contents, t, t', height)
      && Outside(old(cursor.tree.pager.contents), cursor.tree.pager.contents, TreePages(t))
    ensures status == Ok ==>
      OneOver(old(cursor.tree.pager.contents), cursor.tree.pager.contents, p.id, KidAt(p, j).id,
              KidAt(p, NeighbourOf(j, side)).id)
    ensures status == Ok <==> PairFits(cursor.tree.pager.pageSize, old(cursor.tree.pager.contents), p, j, side)
    ensures status != Ok ==>
      KidAt(p, j).Branch?
      && cursor.tree.pager.contents
        == Refused(cursor.tree.pager.pageSize, old(cursor.tree.pager.contents), p.id, SeparatorOf(j, side),
                   KidAt(p, j).id, side)
  {
    var pager := cursor.tree.pager;
    ghost var pages, pageSize, stack := pager.contents, pager.pageSize, cursor.Stack();
    t' := t;
    pager.NoPageZero();
    ghost var k, own, sibling := There(pageSize, pages, stack, t, height, path, p, j, side);
    var nv := new Page<PageBody>(pager.blank);
    ghost var c1, c2, c3;
    status, c1, c2, c3 := RotatePages(cursor, nv, side, p, j, k, own, sibling);
    if status == Ok {
      t' := PlugAll(path, RotatedTree(p, SeparatorOf(j, side), side));
      RotatedAndMoved(pageSize, pages, c1, c2, c3, pager.contents, stack, t, height, path, p, j, side, own, sibling);
    }
  }
}
