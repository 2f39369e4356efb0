/** When an index insert finds room, read off the pages on its way up before it starts. */
module Room {
  import opened Bytes
  import opened Node
  import opened NodeMove
  import opened Overflow
  import opened Tree
  import opened IndexTree

  /** Whether a node with these cells takes the new payload, or the held cell. */
  predicate HasRoom(pageSize: nat, cells: seq<Cell>, payload: bytes, body: Body, stored: bool) {
    var capacity := NodeCapacity(pageSize);
    && pageSize >= MIN_PAGE_SIZE
    && if stored then HeapUsed(cells) + HeapRequired(body) <= capacity
       else Accepts(capacity, FreeHeap(capacity, cells), |payload|)
  }

  /**
    The node on page `id` has room at once, or the half that a split chooses does
    and its middle cell finds room in turn on the way up; the root hands its middle cell to a page of its own.
  */
  ghost predicate Lands(
      pageSize: nat, pages: Pages, path: Path, id: nat, at: nat, payload: bytes, body: Body, stored: bool)
    decreases |path|
  {
    && id in pages && pages[id].NodeBody?
    && var cells := pages[id].node.cells;
       HasRoom(pageSize, cells, payload, body, stored)
       || (cells != [] && HasRoom(pageSize, ChosenHalf(cells, at), payload, body, stored)
           && (path == []
               || var h := path[|path| - 1];
                  Lands(pageSize, pages, path[..|path| - 1], h.node.id, h.at, payload, cells[Middle(|cells|)].body,
                    true)))
  }

  lemma {:induction false} LandsFrame(
      pageSize: nat, pages: Pages, after: Pages, path: Path, id: nat, at: nat, payload: bytes, body: Body, stored: bool)
    requires id in pages && id in after && after[id] == pages[id]
    requires forall x :: x in PathPages(path) ==> x in pages && x in after && after[x] == pages[x]
    ensures Lands(pageSize, after, path, id, at, payload, body, stored)
      == Lands(pageSize, pages, path, id, at, payload, body, stored)
    decreases |path|
  {
    if path != [] && pages[id].NodeBody? && pages[id].node.cells != [] {
      var h, cells := path[|path| - 1], pages[id].node.cells;
      assert h.node.id in HolePages(h);
      LandsFrame(pageSize, pages, after, path[..|path| - 1], h.node.id, h.at, payload, cells[Middle(|cells|)].body,
                 true);
    }
  }

  /** A full node below the root: whether the insert lands is left to the parent, which has not changed. */
  lemma {:induction false} LandsAbove(
      pageSize: nat, pages: Pages, after: Pages, outer: Path, hole: Hole, id: nat, at: nat,
      payload: bytes, body: Body, stored: bool, raised: Body)
    requires hole.node.Branch? && hole.at <= |hole.node.entries|
    requires id in pages && pages[id].NodeBody? && pages[id].node.cells != []
    requires !HasRoom(pageSize, pages[id].node.cells, payload, body, stored)
    requires HasRoom(pageSize, ChosenHalf(pages[id].node.cells, at), payload, body, stored)
    requires raised == pages[id].node.cells[Middle(|pages[id].node.cells|)].body
    requires forall x :: x in PathPages(outer + [hole]) ==> x in pages && x in after && after[x] == pages[x]
    ensures Lands(pageSize, pages, outer + [hole], id, at, payload, body, stored)
      == Lands(pageSize, after, outer, hole.node.id, hole.at, payload, raised, true)
  {
    var path := PathWith(outer, hole);
    LandsFrame(pageSize, pages, after, outer, hole.node.id, hole.at, payload, raised, true);
  }

  lemma {:induction false} PathWith(outer: Path, hole: Hole) returns (path: Path)
    requires hole.node.Branch? && hole.at <= |hole.node.entries|
    ensures path == outer + [hole] && path[|path| - 1] == hole && path[..|path| - 1] == outer
    ensures hole.node.id in PathPages(path) && forall x :: x in PathPages(outer) ==> x in PathPages(path)
  {
    path := outer + [hole];
    assert path[..|path| - 1] == outer;
    assert hole.node.id in HolePages(hole);
  }

  // ---- cells of equal cost ----

  /** Each half is smaller than the node by the middle cell at least, so it has room for a cell that costs no more. */
  lemma {:induction false} HalfHasRoom(pageSize: nat, cells: seq<Cell>, at: nat, cost: nat)
    requires cells != [] && HeapUsed(cells) <= NodeCapacity(pageSize)
    requires cost <= HeapRequired(cells[Middle(|cells|)].body)
    ensures HeapUsed(ChosenHalf(cells, at)) + cost <= NodeCapacity(pageSize)
  {
    var m: nat := Middle(|cells|);
    var rest := cells[..m] + cells[m + 1..];
    assert InsertAt(rest, m, cells[m]) == cells;
    HeapUsedInsert(rest, m, cells[m]);
    HeapUsedConcat(cells[..m], cells[m + 1..]);
  }

  /** The page holds a node all of whose cells cost the same. */
  ghost predicate EvenPage(pageSize: nat, pages: Pages, id: nat, cost: nat) {
    && id in pages && pages[id].NodeBody? && Fits(pageSize, pages[id].node)
    && forall i :: 0 <= i < |pages[id].node.cells| ==> HeapRequired(pages[id].node.cells[i].body) == cost
  }

  /** So do the pages of the nodes on a path. */
  ghost predicate EvenPages(pageSize: nat, pages: Pages, path: Path, cost: nat)
    decreases |path|
  {
    path != [] ==>
      && EvenPage(pageSize, pages, path[|path| - 1].node.id, cost)
      && EvenPages(pageSize, pages, path[..|path| - 1], cost)
  }

  /** Among cells of equal cost every insert lands. */
  lemma {:induction false} EvenLands(
      pageSize: nat, pages: Pages, path: Path, id: nat, at: nat, payload: bytes, body: Body, stored: bool, cost: nat)
    requires EvenPage(pageSize, pages, id, cost) && EvenPages(pageSize, pages, path, cost)
    requires cost <= MaxCellSize(NodeCapacity(pageSize)) && HeapRequired(body) == cost
    requires stored || (body == Inline(payload) && FitsInline(NodeCapacity(pageSize), |payload|))
    ensures Lands(pageSize, pages, path, id, at, payload, body, stored)
    decreases |path|
  {
    var cells := pages[id].node.cells;
    if !HasRoom(pageSize, cells, payload, body, stored) {
      RefusalMeansFourCells(pageSize, pages[id].node, cost);
      HalfHasRoom(pageSize, cells, at, cost);
      if path != [] {
        var h := path[|path| - 1];
        EvenLands(pageSize, pages, path[..|path| - 1], h.node.id, h.at, payload, cells[Middle(|cells|)].body, true,
                  cost);
      }
    }
  }

  ghost predicate EvenNode(node: Tree, cost: nat)
    requires node.Branch?
  {
    forall i :: 0 <= i < |node.entries| ==> HeapRequired(node.entries[i].item.body) == cost
  }

  /** All cells of the tree cost the same. */
  ghost predicate EvenTree(t: Tree, cost: nat)
    decreases t
  {
    t.Branch? ==>
      EvenNode(t, cost) && (forall i :: 0 <= i < |t.entries| ==> EvenTree(t.entries[i].kid, cost))
        && EvenTree(t.right, cost)
  }

  /** The nodes on a path, without regard to their children. */
  ghost predicate EvenNodes(path: Path, cost: nat)
    decreases |path|
  {
    path != [] ==> EvenNode(path[|path| - 1].node, cost) && EvenNodes(path[..|path| - 1], cost)
  }

  lemma {:induction false} EvenEverywhere(path: Path, node: Tree, cost: nat)
    requires node.Branch? && EvenTree(PlugAll(path, node), cost)
    ensures EvenTree(node, cost) && EvenNodes(path, cost)
    decreases |path|
  {
    if path != [] {
      var h := path[|path| - 1];
      var p := Plug(h, node);
      EvenEverywhere(path[..|path| - 1], p, cost);
      assert h.at < |p.entries| ==> p.entries[h.at].kid == node;
      assert forall i :: 0 <= i < |p.entries| ==> p.entries[i].item == h.node.entries[i].item;
    }
  }

  lemma {:induction false} EvenHere(pageSize: nat, pages: Pages, t: Tree, cost: nat)
    requires t.Branch? && EvenNode(t, cost) && NodesFit(pageSize, pages) && t.id != 1
    requires t.id in pages && NodeMatches(Index, pages[t.id], t)
    ensures EvenPage(pageSize, pages, t.id, cost)
  {
    forall i | 0 <= i < |t.entries| ensures HeapRequired(pages[t.id].node.cells[i].body) == cost {
      assert CellMatches(Index, t.leaf, pages[t.id].node.cells[i], t.entries[i]);
    }
  }

  lemma {:induction false} EvenAbove(pageSize: nat, pages: Pages, path: Path, kid: nat, cost: nat)
    requires PathRepresents(Index, pages, path, kid) && NodesFit(pageSize, pages) && 1 !in PathPages(path)
    requires EvenNodes(path, cost)
    ensures EvenPages(pageSize, pages, path, cost)
    decreases |path|
  {
    if path != [] {
      var h := path[|path| - 1];
      EvenAbove(pageSize, pages, path[..|path| - 1], h.node.id, cost);
      EvenHole(pageSize, pages, h, kid, cost);
    }
  }

  lemma {:induction false} EvenHole(pageSize: nat, pages: Pages, h: Hole, kid: nat, cost: nat)
    requires h.node.Branch? && h.at <= |h.node.entries| && HoleRepresents(Index, pages, h, kid)
    requires NodesFit(pageSize, pages) && 1 !in HolePages(h) && EvenNode(h.node, cost)
    ensures EvenPage(pageSize, pages, h.node.id, cost)
  {
    assert h.node.id in HolePages(h);
    EvenHere(pageSize, pages, Plug(h, Stub(kid)), cost);
  }

  /** All cells of the tree cost what the new one will. */
  ghost predicate EvenFor(pageSize: nat, t: Tree, payload: bytes) {
    pageSize >= MIN_PAGE_SIZE && FitsInline(NodeCapacity(pageSize), |payload|)
      && EvenTree(t, HeapRequired(Inline(payload)))
  }

  /** Wherever the search stops in such a tree, the insert lands. */
  lemma {:induction false} EvenForLands(
      pageSize: nat, pages: Pages, t: Tree, height: nat, path: Path, node: Tree, at: nat, payload: bytes)
    requires IsIndexTree(pageSize, pages, t, height) && node.Branch? && PlugAll(path, node) == t
    requires Represents(Index, pages, node) && PathRepresents(Index, pages, path, node.id)
    requires EvenFor(pageSize, t, payload)
    ensures Lands(pageSize, pages, path, node.id, at, payload, Inline(payload), false)
  {
    var cost := HeapRequired(Inline(payload));
    EvenEverywhere(path, node, cost);
    PathOwns(path, node);
    EvenAbove(pageSize, pages, path, node.id, cost);
    EvenHere(pageSize, pages, node, cost);
    EvenLands(pageSize, pages, path, node.id, at, payload, Inline(payload), false, cost);
  }
}
