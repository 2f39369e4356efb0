/**
  The trees that the pages represent, as values: contents in order, the pages they own, their shape,
  and paths into them. Index trees keep records in all nodes, table trees only in the leaves.
*/
module Tree {
  import opened Bytes
  import opened Node
  import opened Pager
  import opened Overflow

  /** A torn tree is an index tree in which children of internal nodes may be missing; their cells name page 0. */
  datatype Kind = Index | Table | Torn

  /** What a tree is opened as. */
  type TreeKind = k: Kind | k != Torn witness Index

  /** What a tree stores: the payload, and in a table tree its key (in an index tree 0). */
  datatype Record = Record(key: nat, payload: bytes)

  /** A node; the kids of a leaf, and its right child, are Nil. */
  datatype Tree = Nil | Branch(id: nat, leaf: bool, entries: seq<Entry>, right: Tree)

  /** A slot: the child to its left, its key (in a table tree) and the payload of its cell. */
  datatype Entry = Entry(kid: Tree, key: nat, item: Item)

  const NO_ITEM: Item := Item([], Inline([]), [])

  // ---- contents ----

  function Own(kind: Kind, leaf: bool, e: Entry): seq<Record> {
    if kind == Table then (if leaf then [Record(e.key, e.item.payload)] else []) else [Record(0, e.item.payload)]
  }

  function Contents(kind: Kind, t: Tree): seq<Record>
    decreases t, 0
  {
    if t.Nil? then [] else EntryContents(kind, t.leaf, t.entries) + Contents(kind, t.right)
  }

  function EntryContents(kind: Kind, leaf: bool, es: seq<Entry>): seq<Record>
    decreases es, 0
  {
    if es == [] then []
    else
      assert es[0].kid < es[0];
      Contents(kind, es[0].kid) + Own(kind, leaf, es[0]) + EntryContents(kind, leaf, es[1..])
  }

  lemma {:induction false} EntryContentsConcat(kind: Kind, leaf: bool, a: seq<Entry>, b: seq<Entry>)
    ensures EntryContents(kind, leaf, a + b) == EntryContents(kind, leaf, a) + EntryContents(kind, leaf, b)
  {
    if a == [] {
      assert a + b == b;
    } else {
      assert (a + b)[1..] == a[1..] + b;
      EntryContentsConcat(kind, leaf, a[1..], b);
    }
  }

  lemma {:induction false} EntryContentsSingle(kind: Kind, leaf: bool, e: Entry)
    ensures EntryContents(kind, leaf, [e]) == Contents(kind, e.kid) + Own(kind, leaf, e)
  {
    assert [e][1..] == [];
  }

  // ---- pages owned ----

  function ItemPages(item: Item): multiset<nat> { multiset(Ids(item.chain)) }

  function TreePages(t: Tree): multiset<nat>
    decreases t, 0
  {
    if t.Nil? then multiset{} else multiset{t.id} + EntryPages(t.entries) + TreePages(t.right)
  }

  function EntryPages(es: seq<Entry>): multiset<nat>
    decreases es, 0
  {
    if es == [] then multiset{}
    else
      assert es[0].kid < es[0];
      TreePages(es[0].kid) + ItemPages(es[0].item) + EntryPages(es[1..])
  }

  lemma {:induction false} EntryPagesConcat(a: seq<Entry>, b: seq<Entry>)
    ensures EntryPages(a + b) == EntryPages(a) + EntryPages(b)
  {
    if a == [] {
      assert a + b == b;
    } else {
      assert (a + b)[1..] == a[1..] + b;
      EntryPagesConcat(a[1..], b);
    }
  }

  lemma {:induction false} EntryPagesSingle(e: Entry)
    ensures EntryPages([e]) == TreePages(e.kid) + ItemPages(e.item)
  {
    assert [e][1..] == [];
  }

  lemma {:induction false} EntryPagesAt(es: seq<Entry>, i: nat)
    requires i < |es|
    ensures EntryPages(es)
      == EntryPages(es[..i]) + TreePages(es[i].kid) + ItemPages(es[i].item) + EntryPages(es[i + 1..])
  {
    assert es == es[..i] + ([es[i]] + es[i + 1..]);
    EntryPagesConcat(es[..i], [es[i]] + es[i + 1..]);
    EntryPagesConcat([es[i]], es[i + 1..]);
    EntryPagesSingle(es[i]);
  }

  /** No page is referenced twice. */
  ghost predicate Unshared(pages: multiset<nat>) { forall id :: pages[id] <= 1 }

  // ---- representation ----

  /** The page of a subtree; a missing one has page 0. */
  function IdOf(t: Tree): nat { if t.Branch? then t.id else 0 }

  ghost predicate CellMatches(kind: Kind, leaf: bool, cell: Cell, e: Entry) {
    match kind
    case Torn => cell.body == e.item.body && (!leaf ==> cell.key == IdOf(e.kid))
    case Index =>
      && cell.body == e.item.body
      && (!leaf ==> e.kid.Branch? && cell.key == e.kid.id)
    case Table =>
      && cell.key == e.key
      && (if leaf then cell.body == e.item.body
          else e.kid.Branch? && e.kid.id < TWO_32 && cell.body == Inline(WriteLe32(e.kid.id)))
  }

  /** Page content and node agree, down to the ids of the children. */
  ghost predicate NodeMatches(kind: Kind, page: PageBody, t: Tree)
    requires t.Branch?
  {
    && page.NodeBody? && page.node.isLeaf == t.leaf
    && |page.node.cells| == |t.entries|
    && (forall i :: 0 <= i < |t.entries| ==> CellMatches(kind, t.leaf, page.node.cells[i], t.entries[i]))
    && (!t.leaf ==> page.node.rightChild == IdOf(t.right) && (kind != Torn ==> t.right.Branch?))
  }

  ghost predicate Represents(kind: Kind, pages: Pages, t: Tree)
    decreases t
  {
    t.Branch? ==>
      && t.id in pages && NodeMatches(kind, pages[t.id], t)
      && (forall i :: 0 <= i < |t.entries| ==>
         Holds(pages, t.entries[i].item) && Represents(kind, pages, t.entries[i].kid))
      && Represents(kind, pages, t.right)
  }

  ghost predicate SamePages(pages: Pages, pages': Pages, on: multiset<nat>) {
    forall id :: id in on ==> id in pages ==> id in pages' && pages'[id] == pages[id]
  }

  /** Of the pages there were, those outside `owned` are as they were. */
  ghost predicate Outside(before: Pages, after: Pages, owned: multiset<nat>) {
    forall id :: id in before && id !in owned ==> id in after && after[id] == before[id]
  }

  lemma {:induction false} SamePart(pages: Pages, pages': Pages, es: seq<Entry>, i: nat)
    requires i < |es| && SamePages(pages, pages', EntryPages(es))
    ensures SamePages(pages, pages', TreePages(es[i].kid)) && SamePages(pages, pages', ItemPages(es[i].item))
  {
    EntryPagesAt(es, i);
  }

  lemma {:induction false} RepresentsFrame(kind: Kind, pages: Pages, pages': Pages, t: Tree)
    requires Represents(kind, pages, t) && SamePages(pages, pages', TreePages(t))
    ensures Represents(kind, pages', t)
    decreases t
  {
    if t.Branch? {
      forall i | 0 <= i < |t.entries|
        ensures Holds(pages', t.entries[i].item) && Represents(kind, pages', t.entries[i].kid)
      {
        SamePart(pages, pages', t.entries, i);
        HoldsFrame(pages, pages', t.entries[i].item);
        RepresentsFrame(kind, pages, pages', t.entries[i].kid);
      }
      RepresentsFrame(kind, pages, pages', t.right);
    }
  }

  /** The children and payloads of a node are in the pages. */
  ghost predicate PartsRepresented(kind: Kind, pages: Pages, t: Tree)
    requires t.Branch?
  {
    && (forall i :: 0 <= i < |t.entries| ==>
       Holds(pages, t.entries[i].item) && Represents(kind, pages, t.entries[i].kid))
    && Represents(kind, pages, t.right)
  }

  /** The pages a node owns besides its own. */
  function PartPages(t: Tree): multiset<nat>
    requires t.Branch?
  {
    EntryPages(t.entries) + TreePages(t.right)
  }

  lemma {:induction false} PartsFrame(kind: Kind, pages: Pages, pages': Pages, t: Tree)
    requires t.Branch? && PartsRepresented(kind, pages, t) && SamePages(pages, pages', PartPages(t))
    ensures PartsRepresented(kind, pages', t)
  {
    forall i | 0 <= i < |t.entries|
      ensures Holds(pages', t.entries[i].item) && Represents(kind, pages', t.entries[i].kid)
    {
      SamePart(pages, pages', t.entries, i);
      HoldsFrame(pages, pages', t.entries[i].item);
      RepresentsFrame(kind, pages, pages', t.entries[i].kid);
    }
    RepresentsFrame(kind, pages, pages', t.right);
  }

  /** Every leaf is at depth `height`. */
  ghost predicate Balanced(t: Tree, height: nat)
    decreases t
  {
    if t.Nil? then height == 0
    else
      && height > 0 && (t.leaf <==> height == 1)
      && (forall i :: 0 <= i < |t.entries| ==> Balanced(t.entries[i].kid, height - 1))
      && Balanced(t.right, height - 1)
  }

  /** No node is empty. */
  ghost predicate NodesFilled(t: Tree)
    decreases t
  {
    t.Branch? ==>
      && t.entries != []
      && (forall i :: 0 <= i < |t.entries| ==> NodesFilled(t.entries[i].kid)) && NodesFilled(t.right)
  }

  // ---- paths ----

  function KidAt(t: Tree, i: nat): Tree
    requires t.Branch? && i <= |t.entries|
  {
    if i < |t.entries| then t.entries[i].kid else t.right
  }

  function WithKid(t: Tree, i: nat, kid: Tree): Tree
    requires t.Branch? && i <= |t.entries|
  {
    if i < |t.entries| then t.(entries := t.entries[i := t.entries[i].(kid := kid)]) else t.(right := kid)
  }

  /** A node on a path, with the child the path continues in left out. */
  datatype Hole = Hole(node: Tree, at: nat)

  type Path = p: seq<Hole> | forall i :: 0 <= i < |p| ==> p[i].node.Branch? && p[i].at <= |p[i].node.entries| witness []

  function Plug(hole: Hole, t: Tree): Tree
    requires hole.node.Branch? && hole.at <= |hole.node.entries|
  {
    WithKid(hole.node, hole.at, t)
  }

  function PlugAll(path: Path, t: Tree): Tree
    decreases |path|
  {
    if path == [] then t else PlugAll(path[..|path| - 1], Plug(path[|path| - 1], t))
  }

  /** The records before and after child `i` of a node. */
  function BeforeKid(kind: Kind, t: Tree, i: nat): seq<Record>
    requires t.Branch? && i <= |t.entries|
  {
    EntryContents(kind, t.leaf, t.entries[..i])
  }

  function AfterKid(kind: Kind, t: Tree, i: nat): seq<Record>
    requires t.Branch? && i <= |t.entries|
  {
    if i < |t.entries| then
      Own(kind, t.leaf, t.entries[i]) + EntryContents(kind, t.leaf, t.entries[i + 1..]) + Contents(kind, t.right)
    else []
  }

  lemma {:induction false} EntryContentsAt(kind: Kind, leaf: bool, es: seq<Entry>, i: nat)
    requires i < |es|
    ensures EntryContents(kind, leaf, es) ==
      EntryContents(kind, leaf, es[..i]) + Contents(kind, es[i].kid) + Own(kind, leaf, es[i])
        + EntryContents(kind, leaf, es[i + 1..])
  {
    if i > 0 {
      var head := Contents(kind, es[0].kid) + Own(kind, leaf, es[0]);
      var kid, own := Contents(kind, es[i].kid), Own(kind, leaf, es[i]);
      var middle, rest := EntryContents(kind, leaf, es[1..i]), EntryContents(kind, leaf, es[i + 1..]);
      assert EntryContents(kind, leaf, es[1..]) == middle + kid + own + rest by {
        EntryContentsAt(kind, leaf, es[1..], i - 1);
        assert es[1..][..i - 1] == es[1..i] && es[1..][i..] == es[i + 1..];
      }
      assert EntryContents(kind, leaf, es[..i]) == head + middle by { assert es[..i][1..] == es[1..i]; }
      Prepend(head, middle, kid, own, rest);
    }
  }

  lemma {:induction false} Prepend<T>(h: seq<T>, a: seq<T>, b: seq<T>, c: seq<T>, d: seq<T>)
    ensures h + (a + b + c + d) == (h + a) + b + c + d
  {
  }

  lemma {:induction false} Regroup<T>(a: seq<T>, b: seq<T>, c: seq<T>, d: seq<T>, e: seq<T>)
    ensures (a + b + c + d) + e == a + b + (c + d + e)
  {
  }

  lemma {:induction false} ContentsAround(kind: Kind, t: Tree, i: nat, kid: Tree)
    requires t.Branch? && i <= |t.entries|
    ensures Contents(kind, WithKid(t, i, kid)) == BeforeKid(kind, t, i) + Contents(kind, kid) + AfterKid(kind, t, i)
  {
    if i < |t.entries| {
      var es := WithKid(t, i, kid).entries;
      EntryContentsAt(kind, t.leaf, es, i);
      var before, rest := t.entries[..i], t.entries[i + 1..];
      assert es[..i] == before && es[i + 1..] == rest;
      Regroup(EntryContents(kind, t.leaf, before), Contents(kind, kid), Own(kind, t.leaf, es[i]),
              EntryContents(kind, t.leaf, rest), Contents(kind, t.right));
    } else {
      assert t.entries[..i] == t.entries;
    }
  }

  function PathBefore(kind: Kind, path: Path): seq<Record>
    decreases |path|
  {
    if path == [] then []
    else
      var h := path[|path| - 1];
      PathBefore(kind, path[..|path| - 1]) + BeforeKid(kind, h.node, h.at)
  }

  function PathAfter(kind: Kind, path: Path): seq<Record>
    decreases |path|
  {
    if path == [] then []
    else
      var h := path[|path| - 1];
      AfterKid(kind, h.node, h.at) + PathAfter(kind, path[..|path| - 1])
  }

  lemma {:induction false} PathContents(kind: Kind, path: Path, t: Tree)
    ensures Contents(kind, PlugAll(path, t)) == PathBefore(kind, path) + Contents(kind, t) + PathAfter(kind, path)
    decreases |path|
  {
    if path != [] {
      var h := path[|path| - 1];
      PathContents(kind, path[..|path| - 1], Plug(h, t));
      ContentsAround(kind, h.node, h.at, t);
    }
  }

  /** The pages of a node without those of child `i`. */
  function HolePages(hole: Hole): multiset<nat>
    requires hole.node.Branch? && hole.at <= |hole.node.entries|
  {
    TreePages(WithKid(hole.node, hole.at, Nil))
  }

  lemma {:induction false} PagesAround(t: Tree, i: nat, kid: Tree)
    requires t.Branch? && i <= |t.entries|
    ensures TreePages(WithKid(t, i, kid)) == TreePages(WithKid(t, i, Nil)) + TreePages(kid)
  {
    if i < |t.entries| {
      EntryPagesAt(WithKid(t, i, kid).entries, i);
      EntryPagesAt(WithKid(t, i, Nil).entries, i);
      assert WithKid(t, i, kid).entries[..i] == WithKid(t, i, Nil).entries[..i];
      assert WithKid(t, i, kid).entries[i + 1..] == WithKid(t, i, Nil).entries[i + 1..];
    }
  }

  function PathPages(path: Path): multiset<nat>
    decreases |path|
  {
    if path == [] then multiset{} else PathPages(path[..|path| - 1]) + HolePages(path[|path| - 1])
  }

  lemma {:induction false} PathOwns(path: Path, t: Tree)
    ensures TreePages(PlugAll(path, t)) == PathPages(path) + TreePages(t)
    decreases |path|
  {
    if path != [] {
      var h := path[|path| - 1];
      PathOwns(path[..|path| - 1], Plug(h, t));
      PagesAround(h.node, h.at, t);
    }
  }

  /** A stand-in for a child of which only the page id matters. */
  function Stub(id: nat): Tree { Branch(id, true, [], Nil) }

  ghost predicate HoleRepresents(kind: Kind, pages: Pages, hole: Hole, kid: nat)
    requires hole.node.Branch? && hole.at <= |hole.node.entries|
  {
    var node := hole.node;
    && node.id in pages && NodeMatches(kind, pages[node.id], Plug(hole, Stub(kid)))
    && (forall i :: 0 <= i < |node.entries| ==> Holds(pages, node.entries[i].item))
    && (forall i :: 0 <= i < |node.entries| && i != hole.at ==> Represents(kind, pages, node.entries[i].kid))
    && (hole.at != |node.entries| ==> Represents(kind, pages, node.right))
  }

  /** The pages hold the nodes on the path and everything beside it; the last node points to page `kid`. */
  ghost predicate PathRepresents(kind: Kind, pages: Pages, path: Path, kid: nat)
    decreases |path|
  {
    path != [] ==>
      && HoleRepresents(kind, pages, path[|path| - 1], kid)
      && PathRepresents(kind, pages, path[..|path| - 1], path[|path| - 1].node.id)
  }

  lemma {:induction false} PlugRepresents(kind: Kind, pages: Pages, hole: Hole, t: Tree)
    requires hole.node.Branch? && hole.at <= |hole.node.entries| && t.Branch?
    ensures
      HoleRepresents(kind, pages, hole, t.id) && Represents(kind, pages, t) <==> Represents(kind, pages, Plug(hole, t))
  {
    var p, s := Plug(hole, t), Plug(hole, Stub(t.id));
    if hole.at < |p.entries| { assert p.entries[hole.at].kid == t; }
    assert forall i :: 0 <= i < |p.entries| ==>
      p.entries[i].item == hole.node.entries[i].item
        && (i != hole.at ==> p.entries[i] == hole.node.entries[i] == s.entries[i]);
  }

  lemma {:induction false} PlugAllRepresents(kind: Kind, pages: Pages, path: Path, t: Tree)
    requires t.Branch?
    ensures PathRepresents(kind, pages, path, t.id) && Represents(kind, pages, t) <==>
      Represents(kind, pages, PlugAll(path, t))
    decreases |path|
  {
    if path != [] {
      var h := path[|path| - 1];
      PlugRepresents(kind, pages, h, t);
      PlugAllRepresents(kind, pages, path[..|path| - 1], Plug(h, t));
    }
  }
}
