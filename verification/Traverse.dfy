/** Going down one edge of a subtree (cursor_traverse_by_mover in src/btree_cursor.c). */
module Traverse {
  import opened Bytes
  import opened Node
  import opened Pager
  import opened Overflow
  import opened Tree
  import opened Order
  import opened Cursor
  import opened Search

  datatype Mover = ToBegin | ToEnd

  /** move_to_begin and move_to_end; the last slot of an empty leaf wraps around. */
  function MovedIndex(mover: Mover, isLeaf: bool, n: nat): KeyIndex {
    match mover
    case ToBegin => KeyIndex(At, 0)
    case ToEnd => if isLeaf then KeyIndex(At, (n + TWO_32 - 1) % TWO_32) else KeyIndex(RightChild, n)
  }

  /** The first slot, or the last one of a leaf; an empty leaf has none, and the index wraps around. */
  lemma {:induction false} MovedToEdge(n: nat)
    ensures MovedIndex(ToBegin, true, n) == MovedIndex(ToBegin, false, n) == KeyIndex(At, 0)
    ensures 0 < n <= 0x1_0000_0000 ==> MovedIndex(ToEnd, true, n) == KeyIndex(At, n - 1)
    ensures MovedIndex(ToEnd, true, 0) == KeyIndex(At, 0xFFFF_FFFF)
    ensures MovedIndex(ToEnd, false, n) == KeyIndex(RightChild, n)
  {
  }

  function Edge(mover: Mover, t: Tree): nat
    requires t.Branch?
  {
    if mover == ToBegin then 0 else |t.entries|
  }

  /** A path that keeps to one edge. */
  ghost predicate Along(mover: Mover, path: Path) {
    forall i :: 0 <= i < |path| ==> path[i].at == Edge(mover, path[i].node)
  }

  /** What the descent pushes: for each node the slot taken, with the page of the child. */
  function Steps(base: seq<Crumb>, mover: Mover, path: Path, last: nat): seq<Crumb>
    decreases |path|
  {
    if path == [] then base
    else
      var h := path[|path| - 1];
      Steps(base, mover, path[..|path| - 1], h.node.id) + [Crumb(MovedIndex(mover, false, |h.node.entries|), last)]
  }

  lemma {:induction false} StepsTop(base: seq<Crumb>, mover: Mover, path: Path, last: nat)
    requires base != [] && (path == [] ==> base[|base| - 1].pageId == last)
    ensures
      var stack := Steps(base, mover, path, last);
      |stack| == |base| + |path| && stack[|stack| - 1].pageId == last
  {
    StepsLength(base, mover, path, last);
  }

  lemma {:induction false} StepsGoOn(base: seq<Crumb>, mover: Mover, path: Path, last: nat)
    ensures base <= Steps(base, mover, path, last)
    decreases |path|
  {
    if path != [] { StepsGoOn(base, mover, path[..|path| - 1], path[|path| - 1].node.id); }
  }

  lemma {:induction false} StepsLength(base: seq<Crumb>, mover: Mover, path: Path, last: nat)
    ensures |Steps(base, mover, path, last)| == |base| + |path|
    decreases |path|
  {
    if path != [] { StepsLength(base, mover, path[..|path| - 1], path[|path| - 1].node.id); }
  }

  /** The node that the descent has reached, and its height. */
  ghost predicate Reached(kind: TreeKind, pages: Pages, mover: Mover, t: Tree, path: Path, node: Tree, height: nat) {
    && node.Branch? && PlugAll(path, node) == t && Along(mover, path) && Balanced(node, height)
    && Represents(kind, pages, node) && PathRepresents(kind, pages, path, node.id)
  }

  lemma {:induction false} ReachKid(
      kind: TreeKind, pages: Pages, mover: Mover, t: Tree, path: Path, node: Tree, height: nat)
    requires Reached(kind, pages, mover, t, path, node, height) && !node.leaf
    ensures height > 1
    ensures Reached(kind, pages, mover, t, Down(path, node, Edge(mover, node)), KidAt(node, Edge(mover, node)),
      height - 1)
    ensures ChildPage(kind, pages[node.id].node, Edge(mover, node)) == (Ok, KidAt(node, Edge(mover, node)).id)
  {
    var at := Edge(mover, node);
    DownRepresents(kind, pages, path, node, at);
    ChildPageIsKid(kind, pages[node.id], node, at);
    DownPlugs(kind, [], path, node, at, KidAt(node, at));
    SameKid(node, at);
    KidBalanced(node, at, height);
    DownAlong(mover, path, node);
  }

  lemma {:induction false} KidBalanced(t: Tree, i: nat, height: nat)
    requires t.Branch? && i <= |t.entries| && Balanced(t, height)
    ensures height > 0 && Balanced(KidAt(t, i), height - 1) && (!t.leaf ==> height > 1)
  {
  }

  lemma {:induction false} DownAlong(mover: Mover, path: Path, node: Tree)
    requires node.Branch? && Along(mover, path)
    ensures Along(mover, Down(path, node, Edge(mover, node)))
  {
    assert |WithKid(node, Edge(mover, node), Nil).entries| == |node.entries|;
  }

  lemma {:induction false} StepDown(base: seq<Crumb>, mover: Mover, path: Path, node: Tree, last: nat)
    requires node.Branch?
    ensures Steps(base, mover, Down(path, node, Edge(mover, node)), last)
      == Steps(base, mover, path, node.id) + [Crumb(MovedIndex(mover, false, |node.entries|), last)]
  {
    var longer := Down(path, node, Edge(mover, node));
    assert longer[..|longer| - 1] == path;
    assert |WithKid(node, Edge(mover, node), Nil).entries| == |node.entries|;
  }

  lemma {:induction false} Onward(
      kind: TreeKind, pages: Pages, base: seq<Crumb>, mover: Mover, t: Tree, path: Path, node: Tree, height: nat)
    returns (longer: Path, kid: Tree)
    requires Reached(kind, pages, mover, t, path, node, height)
    requires t.Branch? && base != [] && base[|base| - 1].pageId == t.id
    ensures height > 0 && (node.leaf <==> height == 1) && kid.Branch?
    ensures var stack := Steps(base, mover, path, node.id);
      |stack| == |base| + |path| && stack[|stack| - 1].pageId == node.id
    ensures !node.leaf ==>
      && Reached(kind, pages, mover, t, longer, kid, height - 1) && |longer| == |path| + 1
      && ChildPage(kind, pages[node.id].node, Edge(mover, node)) == (Ok, kid.id)
      && Steps(base, mover, longer, kid.id)
         == Steps(base, mover, path, node.id) + [Crumb(MovedIndex(mover, false, |node.entries|), kid.id)]
  {
    var at := Edge(mover, node);
    StepsTop(base, mover, path, node.id);
    longer, kid := path, node;
    if !node.leaf {
      ReachKid(kind, pages, mover, t, path, node, height);
      longer, kid := Down(path, node, at), KidAt(node, at);
      StepDown(base, mover, path, node, kid.id);
    }
  }

  /** One node of the descent. */
  method MoveInNode(
      cursor: Cursor, nv: Page<PageBody>, mover: Mover, ghost node: Tree, ghost kid: nat)
    returns (status: Status, isLeaf: bool)
    requires cursor.Valid() && cursor.tree.pager.Valid() && nv !in cursor.tree.pager.Repr
    requires cursor !in cursor.tree.pager.Repr && cursor.breadcrumbs !in cursor.tree.pager.Repr
    requires node.Branch? && Represents(cursor.tree.kind, cursor.tree.pager.contents, node)
    requires cursor.Stack() != [] && cursor.Stack()[|cursor.Stack()| - 1].pageId == node.id
    requires node.leaf
      || ChildPage(cursor.tree.kind, cursor.tree.pager.contents[node.id].node, Edge(mover, node)) == (Ok, kid)
    modifies cursor.tree.pager.Repr, nv, cursor, cursor.breadcrumbs
    ensures cursor.Valid() && cursor.tree.pager.Valid()
    ensures cursor.tree.pager.contents == old(cursor.tree.pager.contents)
    ensures cursor.tree.pager.free == old(cursor.tree.pager.free)
    ensures isLeaf == node.leaf
    ensures isLeaf ==>
      && status == Ok && cursor.Stack() == old(cursor.Stack())
      && cursor.Current() == Crumb(MovedIndex(mover, true, |node.entries|), node.id)
    ensures !isLeaf ==>
      && status == (if |old(cursor.Stack())| == 8 then DepthExceeded else Ok)
      && (status == Ok ==>
         cursor.Stack() == old(cursor.Stack()) + [Crumb(MovedIndex(mover, false, |node.entries|), kid)])
  {
    var pager := cursor.tree.pager;
    pager.NoPageZero();
    var crumb;
    status, crumb := cursor.Peek();
    var ok := pager.ReadPage(crumb.pageId, nv);
    var page := nv.image.data.node;
    isLeaf := page.isLeaf;
    cursor.currentKeyIndex := MovedIndex(mover, isLeaf, |page.cells|);
    cursor.currentPageId := nv.pageId;
    if !isLeaf {
      status := cursor.ReadCellPage(page, cursor.currentKeyIndex.index);
      status := cursor.Push();
    }
  }

  /** One step of the descent, with what it keeps. */
  method MoveOn(
      cursor: Cursor, nv: Page<PageBody>, mover: Mover, ghost base: seq<Crumb>, ghost t: Tree, ghost path: Path,
      ghost node: Tree, ghost height: nat)
    returns (status: Status, isLeaf: bool, ghost longer: Path, ghost kid: Tree)
    requires cursor.Valid() && cursor.tree.pager.Valid() && nv !in cursor.tree.pager.Repr
    requires cursor !in cursor.tree.pager.Repr && cursor.breadcrumbs !in cursor.tree.pager.Repr
    requires Reached(cursor.tree.kind, cursor.tree.pager.contents, mover, t, path, node, height)
    requires t.Branch? && base != [] && base[|base| - 1].pageId == t.id
    requires cursor.Stack() == Steps(base, mover, path, node.id)
    modifies cursor.tree.pager.Repr, nv, cursor, cursor.breadcrumbs
    ensures cursor.Valid() && cursor.tree.pager.Valid()
    ensures cursor.tree.pager.contents == old(cursor.tree.pager.contents)
    ensures cursor.tree.pager.free == old(cursor.tree.pager.free)
    ensures status in {Ok, DepthExceeded} && isLeaf == node.leaf
    ensures status == DepthExceeded ==> !isLeaf && height > 1 && |base| + |path| == 8
    ensures isLeaf ==>
      && status == Ok && cursor.Stack() == old(cursor.Stack()) && height == 1
      && |cursor.Stack()| > 0 && cursor.Stack()[|cursor.Stack()| - 1].pageId == node.id
      && cursor.Current() == Crumb(MovedIndex(mover, true, |node.entries|), node.id)
    ensures !isLeaf && status == Ok ==>
      && height > 1 && |longer| == |path| + 1
      && Reached(cursor.tree.kind, cursor.tree.pager.contents, mover, t, longer, kid, height - 1)
      && cursor.Stack() == Steps(base, mover, longer, kid.id)
  {
    longer, kid := Onward(cursor.tree.kind, cursor.tree.pager.contents, base, mover, t, path, node, height);
    status, isLeaf := MoveInNode(cursor, nv, mover, node, kid.id);
  }

  /** From the node named by the last crumb down one edge to a leaf, pushing a crumb for every node below. */
  method TraverseByMover(cursor: Cursor, mover: Mover, ghost t: Tree, ghost height: nat)
    returns (status: Status, ghost path: Path, ghost leaf: Tree)
    requires cursor.Valid() && cursor.tree.pager.Valid()
    requires cursor !in cursor.tree.pager.Repr && cursor.breadcrumbs !in cursor.tree.pager.Repr
    requires t.Branch? && Represents(cursor.tree.kind, cursor.tree.pager.contents, t) && Balanced(t, height)
    requires cursor.Stack() != [] && cursor.Stack()[|cursor.Stack()| - 1].pageId == t.id
    modifies cursor.tree.pager.Repr, cursor, cursor.breadcrumbs
    ensures cursor.Valid() && cursor.tree.pager.Valid()
    ensures cursor.tree.pager.contents == old(cursor.tree.pager.contents)
    ensures cursor.tree.pager.free == old(cursor.tree.pager.free)
    ensures status in {Ok, DepthExceeded}
    ensures status == DepthExceeded ==> |old(cursor.Stack())| + height > 9
    ensures status == Ok ==>
      && Reached(cursor.tree.kind, cursor.tree.pager.contents, mover, t, path, leaf, 1) && leaf.leaf
      && cursor.Stack() == Steps(old(cursor.Stack()), mover, path, leaf.id)
      && |cursor.Stack()| > 0 && cursor.Stack()[|cursor.Stack()| - 1].pageId == leaf.id
      && cursor.Current() == Crumb(MovedIndex(mover, true, |leaf.entries|), leaf.id)
  {
    var pager := cursor.tree.pager;
    ghost var base := cursor.Stack();
    path, leaf := [], t;
    ghost var h := height;
    var nv := new Page<PageBody>(pager.blank);
    while true
      invariant cursor.Valid() && pager.Valid() && pager.contents == old(pager.contents)
      invariant pager.free == old(pager.free)
      invariant Reached(cursor.tree.kind, pager.contents, mover, t, path, leaf, h) && |path| + h == height
      invariant cursor.Stack() == Steps(base, mover, path, leaf.id)
      decreases h
    {
      var isLeaf;
      ghost var longer, kid;
      status, isLeaf, longer, kid := MoveOn(cursor, nv, mover, base, t, path, leaf, h);
      if isLeaf || status != Ok {
        return;
      }
      path, leaf, h := longer, kid, h - 1;
    }
  }
}
