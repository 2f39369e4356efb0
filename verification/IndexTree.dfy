/** Index trees as values: inserting an entry into a node and splitting a node, and what the pages must then hold. */
module IndexTree {
  import opened Bytes
  import opened Node
  import opened NodeMove
  import opened Overflow
  import opened Tree

  /**
    A well-formed index tree in the pages: balanced, unshared, off page 1, and with nodes that keep within their heap.
  */
  ghost predicate IsIndexTree(pageSize: nat, pages: Pages, t: Tree, height: nat) {
    && t.Branch? && Balanced(t, height)
    && Represents(Index, pages, t)
    && Unshared(TreePages(t)) && 1 !in TreePages(t)
    && NodesFit(pageSize, pages) && 1 in pages
  }

  // ---- every page that is owned exists ----

  lemma {:induction false} OwnedPagesExist(kind: Kind, pages: Pages, t: Tree)
    requires Represents(kind, pages, t)
    ensures forall id :: id in TreePages(t) ==> id in pages
    decreases t
  {
    if t.Branch? {
      forall i | 0 <= i < |t.entries|
        ensures forall id :: id in TreePages(t.entries[i].kid) + ItemPages(t.entries[i].item) ==> id in pages
      {
        OwnedPagesExist(kind, pages, t.entries[i].kid);
        if t.entries[i].item.body.Overflow? { ChainInPages(pages, t.entries[i].item.chain); }
      }
      EntryPagesExist(pages, t.entries);
      OwnedPagesExist(kind, pages, t.right);
    }
  }

  lemma {:induction false} EntryPagesExist(pages: Pages, es: seq<Entry>)
    requires forall i :: 0 <= i < |es| ==> forall id :: id in TreePages(es[i].kid) + ItemPages(es[i].item) ==>
      id in pages
    ensures forall id :: id in EntryPages(es) ==> id in pages
  {
    if es != [] {
      assert forall id :: id in TreePages(es[0].kid) + ItemPages(es[0].item) ==> id in pages;
      EntryPagesExist(pages, es[1..]);
    }
  }

  lemma {:induction false} PathPagesExist(kind: Kind, pages: Pages, path: Path, t: Tree)
    requires t.Branch? && PathRepresents(kind, pages, path, t.id) && Represents(kind, pages, t)
    ensures forall id :: id in PathPages(path) + TreePages(t) ==> id in pages
  {
    PlugAllRepresents(kind, pages, path, t);
    OwnedPagesExist(kind, pages, PlugAll(path, t));
    PathOwns(path, t);
  }

  lemma {:induction false} PathFrame(kind: Kind, pages: Pages, pages': Pages, path: Path, kid: nat)
    requires PathRepresents(kind, pages, path, kid) && SamePages(pages, pages', PathPages(path))
    ensures PathRepresents(kind, pages', path, kid)
    decreases |path|
  {
    if path != [] {
      var h := path[|path| - 1];
      HoleFrame(kind, pages, pages', h, kid);
      PathFrame(kind, pages, pages', path[..|path| - 1], h.node.id);
    }
  }

  lemma {:induction false} HoleFrame(kind: Kind, pages: Pages, pages': Pages, hole: Hole, kid: nat)
    requires hole.node.Branch? && hole.at <= |hole.node.entries|
    requires HoleRepresents(kind, pages, hole, kid) && SamePages(pages, pages', HolePages(hole))
    ensures HoleRepresents(kind, pages', hole, kid)
  {
    var node := hole.node;
    var open := WithKid(node, hole.at, Nil);
    forall i | 0 <= i < |node.entries|
      ensures Holds(pages', node.entries[i].item)
      ensures i != hole.at ==> Represents(kind, pages', node.entries[i].kid)
    {
      SamePart(pages, pages', open.entries, i);
      HoldsFrame(pages, pages', node.entries[i].item);
      if i != hole.at { RepresentsFrame(kind, pages, pages', node.entries[i].kid); }
    }
    if hole.at != |node.entries| { RepresentsFrame(kind, pages, pages', node.right); }
  }

  // ---- inserting an entry ----

  function WithEntry(t: Tree, at: nat, e: Entry): (r: Tree)
    requires t.Branch? && at <= |t.entries|
  {
    t.(entries := InsertAt(t.entries, at, e))
  }

  /** The records of a node with `kid` and a record put into the gap before slot `at`. */
  function Widened(t: Tree, at: nat, kid: Tree, payload: bytes): seq<Record>
    requires t.Branch? && at <= |t.entries|
  {
    EntryContents(Index, t.leaf, t.entries[..at]) + Contents(Index, kid) + [Record(0, payload)]
      + (EntryContents(Index, t.leaf, t.entries[at..]) + Contents(Index, t.right))
  }

  lemma {:induction false} WithEntryContents(t: Tree, at: nat, e: Entry)
    requires t.Branch? && at <= |t.entries|
    ensures Contents(Index, WithEntry(t, at, e)) == Widened(t, at, e.kid, e.item.payload)
  {
    var es := WithEntry(t, at, e).entries;
    var before, kid, own :=
      EntryContents(Index, t.leaf, t.entries[..at]), Contents(Index, e.kid), [Record(0, e.item.payload)];
    var after, last := EntryContents(Index, t.leaf, t.entries[at..]), Contents(Index, t.right);
    assert EntryContents(Index, t.leaf, es) == before + kid + own + after by {
      EntryContentsAt(Index, t.leaf, es, at);
      assert es[..at] == t.entries[..at] && es[at + 1..] == t.entries[at..];
    }
    RightLast(before, kid, own, after, last);
  }

  lemma {:induction false} RightLast<T>(a: seq<T>, b: seq<T>, c: seq<T>, d: seq<T>, e: seq<T>)
    ensures (a + b + c + d) + e == a + b + c + (d + e)
  {
  }

  lemma {:induction false} WithEntryPages(t: Tree, at: nat, e: Entry)
    requires t.Branch? && at <= |t.entries|
    ensures TreePages(WithEntry(t, at, e)) == TreePages(t) + TreePages(e.kid) + ItemPages(e.item)
  {
    var w := WithEntry(t, at, e);
    var before, after := t.entries[..at], t.entries[at..];
    assert EntryPages(w.entries) == EntryPages(before) + TreePages(e.kid) + ItemPages(e.item) + EntryPages(after) by {
      EntryPagesAt(w.entries, at);
      assert w.entries[..at] == before && w.entries[at + 1..] == after;
    }
    assert EntryPages(t.entries) == EntryPages(before) + EntryPages(after) by {
      assert t.entries == before + after;
      EntryPagesConcat(before, after);
    }
    Reorder(multiset{t.id}, EntryPages(before), TreePages(e.kid), ItemPages(e.item), EntryPages(after),
            TreePages(t.right));
  }

  lemma {:induction false} Reorder<T>(
      a: multiset<T>, b: multiset<T>, c: multiset<T>, d: multiset<T>, e: multiset<T>, f: multiset<T>)
    ensures a + (b + c + d + e) + f == a + (b + e) + f + c + d
  {
  }

  lemma {:induction false} WithEntryBalanced(t: Tree, at: nat, e: Entry, height: nat)
    requires t.Branch? && at <= |t.entries| && Balanced(t, height) && Balanced(e.kid, height - 1)
    ensures Balanced(WithEntry(t, at, e), height)
  {
    var es := WithEntry(t, at, e).entries;
    assert forall i :: 0 <= i < |es| ==>
      es[i] == if i < at then t.entries[i] else if i == at then e else t.entries[i - 1];
  }

  /** The cell of an entry: it carries the page of the left child. */
  function CellOf(e: Entry): Cell { Cell(IdOf(e.kid), e.item.body) }

  lemma {:induction false} WithEntryRepresents(kind: Kind, pages: Pages, t: Tree, at: nat, e: Entry, node: Node)
    requires t.Branch? && at <= |t.entries| && kind != Table && (kind == Index ==> (t.leaf <==> e.kid.Nil?))
    requires NodeMatches(kind, NodeBody(node), t)
    requires t.id in pages && pages[t.id] == NodeBody(node.(cells := InsertAt(node.cells, at, CellOf(e))))
    requires forall i :: 0 <= i < |t.entries| ==>
      Holds(pages, t.entries[i].item) && Represents(kind, pages, t.entries[i].kid)
    requires Represents(kind, pages, t.right)
    requires Holds(pages, e.item) && Represents(kind, pages, e.kid)
    ensures Represents(kind, pages, WithEntry(t, at, e))
  {
    var es := WithEntry(t, at, e).entries;
    var cells := InsertAt(node.cells, at, CellOf(e));
    forall i | 0 <= i < |es|
      ensures CellMatches(kind, t.leaf, cells[i], es[i]) && Holds(pages, es[i].item)
      ensures Represents(kind, pages, es[i].kid)
    {
      if i < at {
        assert es[i] == t.entries[i] && cells[i] == node.cells[i];
      } else if i > at {
        assert es[i] == t.entries[i - 1] && cells[i] == node.cells[i - 1];
      }
    }
  }

  // ---- splitting a node ----

  /** The cell that goes up when a node is split. */
  function Middle(n: nat): int { (n + 1) / 2 - 1 }

  /** The cells of the half that a split chooses for a cell that belongs at slot `at`. */
  function ChosenHalf(cells: seq<Cell>, at: nat): seq<Cell>
    requires cells != []
  {
    var m: nat := Middle(|cells|);
    if at <= m then cells[..m] else cells[m + 1..]
  }

  function LeftHalf(t: Tree, m: nat, id: nat): Tree
    requires t.Branch? && m < |t.entries|
  {
    Branch(id, t.leaf, t.entries[..m], t.entries[m].kid)
  }

  function RightHalf(t: Tree, m: nat, id: nat): Tree
    requires t.Branch? && m < |t.entries|
  {
    Branch(id, t.leaf, t.entries[m + 1..], t.right)
  }

  lemma {:induction false} HalvesContents(t: Tree, m: nat, left: nat, right: nat)
    requires t.Branch? && m < |t.entries|
    ensures Contents(Index, t) ==
      Contents(Index, LeftHalf(t, m, left)) + [Record(0, t.entries[m].item.payload)]
        + Contents(Index, RightHalf(t, m, right))
  {
    var before, kid, own := EntryContents(Index, t.leaf, t.entries[..m]), Contents(Index, t.entries[m].kid),
    Own(Index, t.leaf, t.entries[m]);
    var after, last := EntryContents(Index, t.leaf, t.entries[m + 1..]), Contents(Index, t.right);
    assert EntryContents(Index, t.leaf, t.entries) == before + kid + own + after by {
      EntryContentsAt(Index, t.leaf, t.entries, m);
    }
    RightLast(before, kid, own, after, last);
  }

  lemma {:induction false} HalvesPages(t: Tree, m: nat, left: nat, right: nat)
    requires t.Branch? && m < |t.entries|
    ensures TreePages(LeftHalf(t, m, left)) + ItemPages(t.entries[m].item) + TreePages(RightHalf(t, m, right))
      + multiset{t.id}
      == TreePages(t) + multiset{left, right}
  {
    EntryPagesAt(t.entries, m);
  }

  lemma {:induction false} HalvesBalanced(t: Tree, m: nat, left: nat, right: nat, height: nat)
    requires t.Branch? && m < |t.entries| && Balanced(t, height)
    ensures Balanced(LeftHalf(t, m, left), height) && Balanced(RightHalf(t, m, right), height)
  {
  }

  function LeftNode(node: Node, m: nat): Node
    requires m < |node.cells|
  {
    Node(node.isLeaf, node.cells[..m], node.cells[m].key)
  }

  function RightNode(node: Node, m: nat): Node
    requires m < |node.cells|
  {
    Node(node.isLeaf, node.cells[m + 1..], if node.isLeaf then 0 else node.rightChild)
  }

  lemma {:induction false} HalvesMatch(node: Node, t: Tree, m: nat, left: nat, right: nat)
    requires t.Branch? && m < |t.entries| && NodeMatches(Torn, NodeBody(node), t)
    ensures NodeMatches(Torn, NodeBody(LeftNode(node, m)), LeftHalf(t, m, left))
    ensures NodeMatches(Torn, NodeBody(RightNode(node, m)), RightHalf(t, m, right))
  {
    assert CellMatches(Torn, t.leaf, node.cells[m], t.entries[m]);
    var r, cells := RightHalf(t, m, right), RightNode(node, m).cells;
    forall i | 0 <= i < |r.entries| ensures CellMatches(Torn, r.leaf, cells[i], r.entries[i]) {
      assert CellMatches(Torn, t.leaf, node.cells[m + 1 + i], t.entries[m + 1 + i]);
    }
  }
}
