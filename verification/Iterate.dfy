/** Walking a tree in order (cursor_iter_begin, btree_iter_next and ibtree_iter_next in src/btree_cursor.c). */
module Iterate {
  import opened Node
  import opened Pager
  import opened Overflow
  import opened Tree
  import opened Order
  import opened Cursor
  import opened Search
  import opened Climb
  import opened Traverse

  // ---- paths in two parts ----

  lemma {:induction false} PlugJoin(a: Path, b: Path, t: Tree)
    ensures PlugAll(a + b, t) == PlugAll(a, PlugAll(b, t))
    decreases |b|
  {
    if b == [] {
      assert a + b == a;
    } else {
      var h := b[|b| - 1];
      var ab: Path := a + b;
      assert ab[|ab| - 1] == h && ab[..|ab| - 1] == a + b[..|b| - 1];
      PlugJoin(a, b[..|b| - 1], Plug(h, t));
    }
  }

  lemma {:induction false} AfterJoin(kind: TreeKind, a: Path, b: Path)
    ensures PathAfter(kind, a + b) == PathAfter(kind, b) + PathAfter(kind, a)
    decreases |b|
  {
    if b == [] {
      assert a + b == a;
      assert [] + PathAfter(kind, a) == PathAfter(kind, a);
    } else {
      var h := b[|b| - 1];
      var b': Path := b[..|b| - 1];
      JoinLast(a, b);
      AfterJoin(kind, a, b');
      Assoc(AfterKid(kind, h.node, h.at), PathAfter(kind, b'), PathAfter(kind, a));
    }
  }

  lemma {:induction false} JoinLast(a: Path, b: Path)
    requires b != []
    ensures (a + b)[|a + b| - 1] == b[|b| - 1] && (a + b)[..|a + b| - 1] == a + b[..|b| - 1]
  {
  }

  lemma {:induction false} Assoc<T>(a: seq<T>, b: seq<T>, c: seq<T>)
    ensures a + (b + c) == (a + b) + c
  {
  }

  /** The node that a path starts at, or the node it leads to if it is empty. */
  function FirstId(path: Path, last: nat): nat { if path == [] then last else path[0].node.id }

  lemma {:induction false} JoinRepresents(kind: TreeKind, pages: Pages, a: Path, b: Path, kid: nat)
    requires PathRepresents(kind, pages, b, kid) && PathRepresents(kind, pages, a, FirstId(b, kid))
    ensures PathRepresents(kind, pages, a + b, kid)
    decreases |b|
  {
    if b == [] {
      assert a + b == a;
    } else {
      var h := b[|b| - 1];
      var ab: Path := a + b;
      assert ab[|ab| - 1] == h && ab[..|ab| - 1] == a + b[..|b| - 1];
      JoinRepresents(kind, pages, a, b[..|b| - 1], h.node.id);
    }
  }

  /** No node on the path is a leaf or empty. */
  ghost predicate Inner(path: Path) { forall i :: 0 <= i < |path| ==> !path[i].node.leaf && path[i].node.entries != [] }

  lemma {:induction false} JoinCrumbs(a: Path, b: Path, last: nat)
    requires Along(ToBegin, b) && Inner(b)
    ensures Steps(Crumbs([], a) + [Crumb(KeyIndex(At, 0), FirstId(b, last))], ToBegin, b, last)
      == Crumbs([], a + b) + [Crumb(KeyIndex(At, 0), last)]
    decreases |b|
  {
    if b == [] {
      assert a + b == a;
    } else {
      var h := b[|b| - 1];
      var ab: Path := a + b;
      assert ab[|ab| - 1] == h && ab[..|ab| - 1] == a + b[..|b| - 1];
      JoinCrumbs(a, b[..|b| - 1], h.node.id);
    }
  }

  // ---- what lies ahead ----

  /** The records from slot `index` of a node on to the end of the tree. */
  function Ahead(kind: TreeKind, path: Path, node: Tree, index: nat): seq<Record>
    requires node.Branch? && index <= |node.entries|
  {
    AfterKid(kind, node, index) + PathAfter(kind, path)
  }

  lemma {:induction false} AfterNext(kind: TreeKind, t: Tree, i: nat)
    requires t.Branch? && i < |t.entries|
    ensures AfterKid(kind, t, i)
      == Own(kind, t.leaf, t.entries[i]) + (Contents(kind, KidAt(t, i + 1)) + AfterKid(kind, t, i + 1))
  {
    var rest := t.entries[i + 1..];
    if rest != [] {
      assert rest[0] == t.entries[i + 1] && rest[1..] == t.entries[i + 2..];
      Shift(Own(kind, t.leaf, t.entries[i]), Contents(kind, rest[0].kid), Own(kind, t.leaf, rest[0]),
            EntryContents(kind, t.leaf, rest[1..]), Contents(kind, t.right));
    } else {
      assert Own(kind, t.leaf, t.entries[i]) + [] + Contents(kind, t.right)
        == Own(kind, t.leaf, t.entries[i]) + (Contents(kind, t.right) + []);
    }
  }

  lemma {:induction false} Shift<T>(a: seq<T>, b: seq<T>, c: seq<T>, d: seq<T>, e: seq<T>)
    ensures a + (b + c + d) + e == a + (b + (c + d + e))
  {
  }

  /** From the first slot of the first leaf on, a subtree lies ahead as a whole. */
  lemma {:induction false} FirstLeaf(kind: TreeKind, low: Path, leaf: Tree)
    requires leaf.Branch? && leaf.leaf && Balanced(leaf, 1) && Along(ToBegin, low)
    ensures Contents(kind, PlugAll(low, leaf)) == AfterKid(kind, leaf, 0) + PathAfter(kind, low)
  {
    NothingBefore(kind, low);
    PathContents(kind, low, leaf);
    WholeKid(kind, leaf, 0);
    assert KidAt(leaf, 0).Nil?;
    assert leaf.entries[..0] == [];
    NoFront(AfterKid(kind, leaf, 0), PathAfter(kind, low));
  }

  lemma {:induction false} NoFront<T>(a: seq<T>, b: seq<T>)
    ensures [] + ([] + [] + a) + b == a + b
  {
  }

  lemma {:induction false} NothingBefore(kind: TreeKind, path: Path)
    requires Along(ToBegin, path)
    ensures PathBefore(kind, path) == []
    decreases |path|
  {
    if path != [] {
      var h := path[|path| - 1];
      NothingBefore(kind, path[..|path| - 1]);
      assert h.node.entries[..0] == [];
    }
  }

  /** Going down to the first leaf of child `i` puts everything after slot `i - 1` ahead. */
  lemma {:induction false} AheadBelow(kind: TreeKind, path: Path, node: Tree, i: nat, low: Path, leaf: Tree)
    requires node.Branch? && 0 < i <= |node.entries| && KidAt(node, i) == PlugAll(low, leaf)
    requires leaf.Branch? && leaf.leaf && Balanced(leaf, 1) && Along(ToBegin, low)
    ensures
      var own := Own(kind, node.leaf, node.entries[i - 1]);
      Ahead(kind, path, node, i - 1) == own + Ahead(kind, Down(path, node, i) + low, leaf, 0)
  {
    var own, kid := Own(kind, node.leaf, node.entries[i - 1]), Contents(kind, KidAt(node, i));
    var slot, after, above := AfterKid(kind, node, i - 1), AfterKid(kind, node, i), PathAfter(kind, path);
    var first, beside, below :=
      AfterKid(kind, leaf, 0), PathAfter(kind, low), PathAfter(kind, Down(path, node, i) + low);
    assert slot == own + (kid + after) by { AfterNext(kind, node, i - 1); }
    assert kid == first + beside by { FirstLeaf(kind, low, leaf); }
    assert below == beside + (after + above) by { AfterDown(kind, path, node, i, low); }
    Regrouped(slot, own, kid, after, first, beside, below, above);
  }

  lemma {:induction false} Regrouped<T>(
      slot: seq<T>, own: seq<T>, kid: seq<T>, after: seq<T>, first: seq<T>, beside: seq<T>, below: seq<T>,
      above: seq<T>)
    requires slot == own + (kid + after) && kid == first + beside && below == beside + (after + above)
    ensures slot + above == own + (first + below)
  {
    Shift2(own, first, beside, after, above);
  }

  lemma {:induction false} AfterDown(kind: TreeKind, path: Path, node: Tree, i: nat, low: Path)
    requires node.Branch? && i <= |node.entries|
    ensures PathAfter(kind, Down(path, node, i) + low)
      == PathAfter(kind, low) + (AfterKid(kind, node, i) + PathAfter(kind, path))
  {
    DownPlugs(kind, [], path, node, i, KidAt(node, i));
    AfterJoin(kind, Down(path, node, i), low);
  }

  lemma {:induction false} Shift2<T>(a: seq<T>, b: seq<T>, c: seq<T>, d: seq<T>, e: seq<T>)
    ensures (a + ((b + c) + d)) + e == a + (b + (c + (d + e)))
  {
  }

  /** In a leaf the next slot follows. */
  lemma {:induction false} AheadInLeaf(kind: TreeKind, path: Path, leaf: Tree, i: nat)
    requires leaf.Branch? && Balanced(leaf, 1) && i < |leaf.entries|
    ensures Ahead(kind, path, leaf, i) == Own(kind, leaf.leaf, leaf.entries[i]) + Ahead(kind, path, leaf, i + 1)
  {
    AfterNext(kind, leaf, i);
    assert KidAt(leaf, i + 1).Nil?;
    Shift3(Own(kind, leaf.leaf, leaf.entries[i]), AfterKid(kind, leaf, i + 1), PathAfter(kind, path));
  }

  lemma {:induction false} Shift3<T>(a: seq<T>, b: seq<T>, c: seq<T>)
    ensures a + ([] + b) + c == a + (b + c)
  {
  }

  /** After the last slot of a child, its parent's slot follows. */
  lemma {:induction false} AheadAbove(kind: TreeKind, outer: Path, hole: Hole, kid: Tree)
    requires hole.node.Branch? && hole.at <= |hole.node.entries|
    ensures PathAfter(kind, outer + [hole]) == Ahead(kind, outer, Plug(hole, kid), hole.at)
    ensures hole.at == |hole.node.entries| ==> PathAfter(kind, outer + [hole]) == PathAfter(kind, outer)
  {
    var path: Path := outer + [hole];
    assert path[..|path| - 1] == outer;
    AfterPlugged(kind, hole, kid);
  }

  lemma {:induction false} AfterPlugged(kind: TreeKind, hole: Hole, kid: Tree)
    requires hole.node.Branch? && hole.at <= |hole.node.entries|
    ensures AfterKid(kind, Plug(hole, kid), hole.at) == AfterKid(kind, hole.node, hole.at)
  {
    var p := Plug(hole, kid);
    if hole.at < |hole.node.entries| {
      assert p.entries[hole.at + 1..] == hole.node.entries[hole.at + 1..];
    }
  }

  // ---- positions ----

  lemma {:induction false} FilledInner(path: Path, t: Tree, height: nat)
    requires t.Branch? && Balanced(PlugAll(path, t), height) && NodesFilled(PlugAll(path, t))
    ensures |path| < height && Balanced(t, height - |path|) && NodesFilled(t) && Inner(path)
    decreases |path|
  {
    if path != [] {
      var h := path[|path| - 1];
      var p := Plug(h, t);
      FilledInner(path[..|path| - 1], p, height);
      assert h.at < |p.entries| ==> p.entries[h.at].kid == t;
      assert Inner(path[..|path| - 1]);
    }
  }

  /** A slot of a node, and the way there. */
  datatype Position = Position(path: Path, node: Tree, index: nat)

  /** A tree in the pages, none of whose nodes is empty. */
  ghost predicate Walkable(kind: TreeKind, pages: Pages, t: Tree, height: nat) {
    t.Branch? && Balanced(t, height) && Represents(kind, pages, t) && NodesFilled(t)
  }

  /** A node of the tree. */
  ghost predicate Within(kind: TreeKind, pages: Pages, t: Tree, path: Path, node: Tree) {
    && node.Branch? && PlugAll(path, node) == t
    && Represents(kind, pages, node) && PathRepresents(kind, pages, path, node.id)
  }

  ghost predicate IsAt(kind: TreeKind, pages: Pages, t: Tree, pos: Position) {
    Within(kind, pages, t, pos.path, pos.node) && pos.index < |pos.node.entries|
  }

  /** The stack that a cursor has at a position. */
  function StackAt(pos: Position): seq<Crumb>
    requires pos.node.Branch?
  {
    Crumbs([], pos.path) + [Crumb(KeyIndex(At, pos.index), pos.node.id)]
  }

  /** The records from a position on. */
  function Rest(kind: TreeKind, pos: Position): seq<Record>
    requires pos.node.Branch? && pos.index <= |pos.node.entries|
  {
    Ahead(kind, pos.path, pos.node, pos.index)
  }

  /** What the cursor is at: in an index tree the record of the cell, in a table tree that of a leaf's cell. */
  function Here(kind: TreeKind, pos: Position): seq<Record> {
    var node := pos.node;
    if node.Branch? && pos.index < |node.entries| then Own(kind, node.leaf, node.entries[pos.index]) else []
  }

  lemma {:induction false} LeafHeight(path: Path, leaf: Tree, height: nat)
    requires leaf.Branch? && leaf.leaf && Balanced(PlugAll(path, leaf), height) && NodesFilled(PlugAll(path, leaf))
    ensures Balanced(leaf, 1)
  {
    FilledInner(path, leaf, height);
    var h: nat := height - |path|;
    assert Balanced(leaf, h) && h == 1;
  }

  lemma {:induction false} StepInLeaf(kind: TreeKind, pages: Pages, t: Tree, height: nat, pos: Position)
    requires Walkable(kind, pages, t, height) && IsAt(kind, pages, t, pos) && pos.node.leaf
    ensures Rest(kind, pos) == Here(kind, pos) + Rest(kind, pos.(index := pos.index + 1))
    ensures pos.index + 1 == |pos.node.entries| ==> Rest(kind, pos) == Here(kind, pos) + PathAfter(kind, pos.path)
  {
    LeafHeight(pos.path, pos.node, height);
    LeafRest(kind, pos);
  }

  lemma {:induction false} NothingLeft(kind: TreeKind, path: Path, node: Tree)
    requires node.Branch?
    ensures Ahead(kind, path, node, |node.entries|) == PathAfter(kind, path)
  {
    assert [] + PathAfter(kind, path) == PathAfter(kind, path);
  }

  lemma {:induction false} LeafRest(kind: TreeKind, pos: Position)
    requires pos.node.Branch? && Balanced(pos.node, 1) && pos.index < |pos.node.entries|
    ensures Rest(kind, pos) == Here(kind, pos) + Rest(kind, pos.(index := pos.index + 1))
    ensures pos.index + 1 == |pos.node.entries| ==> Rest(kind, pos) == Here(kind, pos) + PathAfter(kind, pos.path)
  {
    AheadInLeaf(kind, pos.path, pos.node, pos.index);
    if pos.index + 1 == |pos.node.entries| { NothingLeft(kind, pos.path, pos.node); }
  }

  /** The first leaf of child `i`, in the tree. */
  lemma {:induction false} LeafWithin(
      kind: TreeKind, pages: Pages, t: Tree, path: Path, node: Tree, i: nat, low: Path, leaf: Tree)
    requires Within(kind, pages, t, path, node) && !node.leaf && i <= |node.entries|
    requires leaf.Branch? && PlugAll(low, leaf) == KidAt(node, i)
    requires Represents(kind, pages, leaf) && PathRepresents(kind, pages, low, leaf.id)
    ensures Within(kind, pages, t, Down(path, node, i) + low, leaf) && KidAt(node, i).Branch?
    ensures KidAt(node, i).id == FirstId(low, leaf.id)
  {
    var kid, down := KidAt(node, i), Down(path, node, i);
    SameKid(node, i);
    DownPlugs(kind, [], path, node, i, kid);
    PlugJoin(down, low, leaf);
    FirstOfPlug(low, leaf);
    DownRepresents(kind, pages, path, node, i);
    JoinRepresents(kind, pages, down, low, leaf.id);
  }

  /** The crumbs of a descent to the first leaf. */
  lemma {:induction false} LowCrumbs(down: Path, low: Path, leaf: Tree)
    requires leaf.Branch? && Along(ToBegin, low) && Inner(down + low)
    ensures Steps(Crumbs([], down) + [Crumb(KeyIndex(At, 0), FirstId(low, leaf.id))], ToBegin, low, leaf.id)
      == StackAt(Position(down + low, leaf, 0))
  {
    assert Inner(low) by { assert forall k :: 0 <= k < |low| ==> low[k] == (down + low)[|down| + k]; }
    JoinCrumbs(down, low, leaf.id);
  }

  lemma {:induction false} FilledPath(kind: TreeKind, pages: Pages, t: Tree, height: nat, path: Path, node: Tree)
    requires Walkable(kind, pages, t, height) && node.Branch? && PlugAll(path, node) == t
    ensures Inner(path) && node.entries != []
  {
    FilledInner(path, node, height);
  }

  lemma {:induction false} KidRest(kind: TreeKind, pos: Position, low: Path, leaf: Tree)
    requires pos.node.Branch? && pos.index < |pos.node.entries| && KidAt(pos.node, pos.index + 1) == PlugAll(low, leaf)
    requires leaf.Branch? && leaf.leaf && Balanced(leaf, 1) && Along(ToBegin, low)
    ensures Rest(kind, pos)
      == Here(kind, pos) + Rest(kind, Position(Down(pos.path, pos.node, pos.index + 1) + low, leaf, 0))
  {
    AheadBelow(kind, pos.path, pos.node, pos.index + 1, low, leaf);
  }

  /** The first leaf of the child after the slot. */
  lemma {:induction false} StepIntoKid(
      kind: TreeKind, pages: Pages, t: Tree, height: nat, pos: Position, low: Path, leaf: Tree)
    returns (next: Position)
    requires Walkable(kind, pages, t, height) && IsAt(kind, pages, t, pos) && !pos.node.leaf
    requires Reached(kind, pages, ToBegin, KidAt(pos.node, pos.index + 1), low, leaf, 1) && leaf.leaf
    ensures IsAt(kind, pages, t, next) && next.node == leaf && next.index == 0
    ensures Rest(kind, pos) == Here(kind, pos) + Rest(kind, next)
    ensures KidAt(pos.node, pos.index + 1).Branch?
    ensures Steps(Crumbs([], Down(pos.path, pos.node, pos.index + 1))
      + [Crumb(KeyIndex(At, 0), KidAt(pos.node, pos.index + 1).id)],
                  ToBegin, low, leaf.id) == StackAt(next)
  {
    next := Position(Down(pos.path, pos.node, pos.index + 1) + low, leaf, 0);
    LeafWithin(kind, pages, t, pos.path, pos.node, pos.index + 1, low, leaf);
    FilledPath(kind, pages, t, height, next.path, leaf);
    LowCrumbs(Down(pos.path, pos.node, pos.index + 1), low, leaf);
    KidRest(kind, pos, low, leaf);
  }

  lemma {:induction false} FirstOfPlug(path: Path, t: Tree)
    requires t.Branch?
    ensures PlugAll(path, t).Branch? && PlugAll(path, t).id == FirstId(path, t.id)
    decreases |path|
  {
    if path != [] { FirstOfPlug(path[..|path| - 1], Plug(path[|path| - 1], t)); }
  }

  /** Back from a child: its parent's slot, if the child was not the last one. */
  lemma {:induction false} StepUp(kind: TreeKind, pages: Pages, t: Tree, height: nat, path: Path, node: Tree)
    returns (outer: Path, parent: Tree, at: nat)
    requires Walkable(kind, pages, t, height) && Within(kind, pages, t, path, node) && path != []
    ensures |outer| < |path| && Within(kind, pages, t, outer, parent) && at <= |parent.entries| && !parent.leaf
    ensures Crumbs([], path)
      == Crumbs([], outer) + [Crumb(KeyIndex(if at < |parent.entries| then At else RightChild, at), parent.id)]
    ensures PathAfter(kind, path) == Ahead(kind, outer, parent, at)
    ensures at == |parent.entries| ==> PathAfter(kind, path) == PathAfter(kind, outer)
  {
    var h := path[|path| - 1];
    outer, parent, at := path[..|path| - 1], Plug(h, node), h.at;
    assert path == outer + [h];
    FilledInner(path, node, height);
    PlugRepresents(kind, pages, h, node);
    AheadAbove(kind, outer, h, node);
    assert h == path[|path| - 1] && !h.node.leaf;
  }

  // ---- the cursor ----

  /** move_right: the crumb for the slot after this one, if the node has one. */
  function MovedRight(crumb: Crumb, isLeaf: bool, n: nat): (Status, Crumb) {
    if crumb.keyIndex.index >= n then (NoSibling, crumb)
    else
      var i := crumb.keyIndex.index + 1;
      if i != n then (Ok, crumb.(keyIndex := crumb.keyIndex.(index := i)))
      else if isLeaf then (NoSibling, crumb.(keyIndex := KeyIndex(End, i)))
      else (Ok, crumb.(keyIndex := KeyIndex(RightChild, i)))
  }

  method MoveRight(cursor: Cursor, node: Node) returns (status: Status)
    requires cursor.Valid() && cursor.Stack() != []
    modifies cursor, cursor.breadcrumbs
    ensures cursor.Valid()
    ensures
      var stack := old(cursor.Stack());
      var moved := MovedRight(stack[|stack| - 1], node.isLeaf, |node.cells|);
      status == moved.0 && cursor.Stack() == stack[..|stack| - 1] + [moved.1] && cursor.Current() == moved.1
  {
    var popped, crumb := cursor.Pop();
    var moved := MovedRight(crumb, node.isLeaf, |node.cells|);
    status := moved.0;
    popped := cursor.PushCrumb(moved.1);
  }

  lemma {:induction false} KidHeight(t: Tree, height: nat, path: Path, node: Tree, i: nat) returns (h: nat)
    requires node.Branch? && !node.leaf && PlugAll(path, node) == t && Balanced(t, height) && NodesFilled(t)
    requires i <= |node.entries|
    ensures Balanced(KidAt(node, i), h) && |path| + 1 + h == height
  {
    FilledInner(path, node, height);
    var nodeHeight: nat := height - |path|;
    KidBalanced(node, i, nodeHeight);
    h := nodeHeight - 1;
  }

  /** The child after the slot, ready to be entered. */
  lemma {:induction false} KidReady(
      kind: TreeKind, pages: Pages, t: Tree, height: nat, pos: Position)
    returns (kid: Tree, kidHeight: nat)
    requires Walkable(kind, pages, t, height) && IsAt(kind, pages, t, pos) && !pos.node.leaf
    ensures kid == KidAt(pos.node, pos.index + 1) && kid.Branch? && Represents(kind, pages, kid)
    ensures Balanced(kid, kidHeight)
    ensures |pos.path| + 1 + kidHeight == height
    ensures pos.node.id in pages && pages[pos.node.id].NodeBody?
    ensures ChildPage(kind, pages[pos.node.id].node, pos.index + 1) == (Ok, kid.id)
    ensures Crumbs([], Down(pos.path, pos.node, pos.index + 1))
      == Crumbs([], pos.path) + [Crumb(KeyIndexOf(pos.node, pos.index + 1), pos.node.id)]
    ensures |Crumbs([], pos.path)| == |pos.path|
  {
    var i := pos.index + 1;
    kid := KidAt(pos.node, i);
    kidHeight := KidHeight(t, height, pos.path, pos.node, i);
    DownRepresents(kind, pages, pos.path, pos.node, i);
    ChildPageIsKid(kind, pages[pos.node.id], pos.node, i);
    DownPlugs(kind, [], pos.path, pos.node, i, kid);
    CrumbsLength([], pos.path);
  }

  /** From a slot that has been moved right to the first leaf of the child there. */
  method EnterKid(cursor: Cursor, page: Node, ghost t: Tree, ghost height: nat, ghost pos: Position)
    returns (status: Status, ghost next: Position)
    requires cursor.Valid() && cursor.tree.pager.Valid()
    requires cursor !in cursor.tree.pager.Repr && cursor.breadcrumbs !in cursor.tree.pager.Repr
    requires Walkable(cursor.tree.kind, cursor.tree.pager.contents, t, height)
    requires IsAt(cursor.tree.kind, cursor.tree.pager.contents, t, pos) && !pos.node.leaf
    requires pos.node.id in cursor.tree.pager.contents && cursor.tree.pager.contents[pos.node.id] == NodeBody(page)
    requires cursor.Current() == Crumb(KeyIndexOf(pos.node, pos.index + 1), pos.node.id)
    requires cursor.Stack() == Crumbs([], pos.path) + [cursor.Current()]
    modifies cursor.tree.pager.Repr, cursor, cursor.breadcrumbs
    ensures cursor.Valid() && cursor.tree.pager.Valid() && cursor.tree.pager.contents == old(cursor.tree.pager.contents)
    ensures status in {Ok, DepthExceeded} && (status == DepthExceeded ==> height > 8)
    ensures status == Ok ==>
      && IsAt(cursor.tree.kind, cursor.tree.pager.contents, t, next) && next.node.leaf
      && cursor.Stack() == StackAt(next) && cursor.Current() == Crumb(KeyIndex(At, next.index), next.node.id)
      && Rest(cursor.tree.kind, pos) == Here(cursor.tree.kind, pos) + Rest(cursor.tree.kind, next)
  {
    ghost var pages := cursor.tree.pager.contents;
    ghost var kid, kidHeight := KidReady(cursor.tree.kind, pages, t, height, pos);
    next := pos;
    status := cursor.ReadCellPage(page, cursor.currentKeyIndex.index);
    cursor.currentKeyIndex := KeyIndex(At, 0);
    status := cursor.Push();
    if status != Ok {
      return;
    }
    ghost var low, leaf;
    status, low, leaf := TraverseByMover(cursor, ToBegin, kid, kidHeight);
    if status == Ok {
      next := StepIntoKid(cursor.tree.kind, pages, t, height, pos, low, leaf);
    }
  }

  /** The cursor has come back to slot `at` of a node, the place after its last child included. */
  ghost predicate BackAt(kind: TreeKind, pages: Pages, t: Tree, stack: seq<Crumb>, path: Path, node: Tree, at: nat) {
    && Within(kind, pages, t, path, node) && at <= |node.entries| && !node.leaf
    && stack == Crumbs([], path) + [Crumb(KeyIndex(if at < |node.entries| then At else RightChild, at), node.id)]
  }

  /** Pops the crumb of a node that is done. */
  method PopDone(
      cursor: Cursor, ghost pages: Pages, ghost t: Tree, ghost height: nat, ghost path: Path, ghost node: Tree)
    returns (status: Status, ghost outer: Path, ghost parent: Tree, ghost at: nat)
    requires cursor.Valid() && Walkable(cursor.tree.kind, pages, t, height)
    requires Within(cursor.tree.kind, pages, t, path, node)
    requires |cursor.Stack()| > 0 && cursor.Stack()[..|cursor.Stack()| - 1] == Crumbs([], path)
    modifies cursor
    ensures cursor.Valid() && status == Ok && |cursor.Stack()| < |old(cursor.Stack())|
    ensures cursor.Stack() == [] ==>
      PathAfter(cursor.tree.kind, path) == [] && cursor.Current() == Crumb(KeyIndex(End, 0), 0)
    ensures cursor.Stack() != [] ==>
      && BackAt(cursor.tree.kind, pages, t, cursor.Stack(), outer, parent, at)
      && cursor.Current() == cursor.Stack()[|cursor.Stack()| - 1]
      && PathAfter(cursor.tree.kind, path) == Ahead(cursor.tree.kind, outer, parent, at)
      && (at == |parent.entries| ==> PathAfter(cursor.tree.kind, path) == PathAfter(cursor.tree.kind, outer))
  {
    outer, parent, at := path, node, 0;
    CrumbsLength([], path);
    if path != [] { outer, parent, at := StepUp(cursor.tree.kind, pages, t, height, path, node); }
    var crumb;
    status, crumb := cursor.Pop();
  }

  /**
    Pops the node that is done, and then its ancestors until one has slots left; a table tree's loop also stops at
    page 0.
  */
  method PopToSlot(
      cursor: Cursor, ghost pages: Pages, ghost t: Tree, ghost height: nat, ghost path0: Path, ghost node0: Tree)
    returns (status: Status, ghost next: Position)
    requires cursor.Valid() && Walkable(cursor.tree.kind, pages, t, height)
    requires Within(cursor.tree.kind, pages, t, path0, node0)
    requires |cursor.Stack()| > 0 && cursor.Stack()[..|cursor.Stack()| - 1] == Crumbs([], path0)
    modifies cursor
    ensures cursor.Valid() && status == Ok
    ensures cursor.Stack() == [] ==> PathAfter(cursor.tree.kind, path0) == [] && cursor.currentPageId == 0
    ensures cursor.Stack() != [] ==>
      && IsAt(cursor.tree.kind, pages, t, next) && !next.node.leaf
      && cursor.Stack() == StackAt(next) && cursor.Current() == Crumb(KeyIndex(At, next.index), next.node.id)
      && PathAfter(cursor.tree.kind, path0) == Rest(cursor.tree.kind, next)
      && |cursor.Stack()| < |old(cursor.Stack())|
  {
    ghost var kind := cursor.tree.kind;
    ghost var path, node, at;
    status, path, node, at := PopDone(cursor, pages, t, height, path0, node0);
    while cursor.currentKeyIndex.mode == RightChild
      invariant cursor.Valid() && status == Ok && |cursor.Stack()| < |old(cursor.Stack())|
      invariant cursor.Stack() == [] ==> PathAfter(kind, path0) == [] && cursor.Current() == Crumb(KeyIndex(End, 0), 0)
      invariant cursor.Stack() != [] ==>
        && BackAt(kind, pages, t, cursor.Stack(), path, node, at)
        && cursor.Current() == cursor.Stack()[|cursor.Stack()| - 1]
        && PathAfter(kind, path0) == Ahead(kind, path, node, at)
        && (at == |node.entries| ==> PathAfter(kind, path0) == PathAfter(kind, path))
      decreases |cursor.Stack()|
    {
      status, path, node, at := PopDone(cursor, pages, t, height, path, node);
    }
    next := Position(path, node, at);
  }

  /** The cursor stands at a position. */
  ghost predicate CursorAt(cursor: Cursor, t: Tree, height: nat, pos: Position)
    requires cursor.Valid()
    reads cursor, cursor.breadcrumbs, cursor.tree.pager
  {
    && Walkable(cursor.tree.kind, cursor.tree.pager.contents, t, height)
    && IsAt(cursor.tree.kind, cursor.tree.pager.contents, t, pos)
    && cursor.Stack() == StackAt(pos) && cursor.Current() == Crumb(KeyIndex(At, pos.index), pos.node.id)
  }

  lemma {:induction false} PageOf(kind: TreeKind, pages: Pages, t: Tree, pos: Position) returns (page: Node)
    requires IsAt(kind, pages, t, pos)
    ensures pos.node.id in pages && pages[pos.node.id] == NodeBody(page)
    ensures page.isLeaf == pos.node.leaf && |page.cells| == |pos.node.entries|
  {
    page := pages[pos.node.id].node;
  }

  /** Reads the node and moves right in it. */
  method MoveInNode(cursor: Cursor, nv: Page<PageBody>, ghost t: Tree, ghost height: nat, ghost pos: Position)
    returns (moved: Status, page: Node)
    requires cursor.Valid() && cursor.tree.pager.Valid() && nv !in cursor.tree.pager.Repr
    requires cursor !in cursor.tree.pager.Repr && cursor.breadcrumbs !in cursor.tree.pager.Repr
    requires CursorAt(cursor, t, height, pos)
    modifies cursor.tree.pager.Repr, nv, cursor, cursor.breadcrumbs
    ensures cursor.Valid() && cursor.tree.pager.Valid() && cursor.tree.pager.contents == old(cursor.tree.pager.contents)
    ensures pos.node.id in cursor.tree.pager.contents && cursor.tree.pager.contents[pos.node.id] == NodeBody(page)
    ensures page.isLeaf == pos.node.leaf && (moved == Ok <==> !pos.node.leaf || pos.index + 1 < |pos.node.entries|)
    ensures moved == Ok ==>
      && cursor.Current() == Crumb(KeyIndexOf(pos.node, pos.index + 1), pos.node.id)
      && cursor.Stack() == Crumbs([], pos.path) + [cursor.Current()]
    ensures |cursor.Stack()| > 0 && cursor.Stack()[..|cursor.Stack()| - 1] == Crumbs([], pos.path)
  {
    var pager := cursor.tree.pager;
    ghost var page0 := PageOf(cursor.tree.kind, pager.contents, t, pos);
    pager.NoPageZero();
    var ok := pager.ReadPage(cursor.currentPageId, nv);
    page := nv.image.data.node;
    moved := MoveRight(cursor, page);
  }

  /** Moves right in the node, and down into the next child if it is an internal node. */
  method StepRight(cursor: Cursor, nv: Page<PageBody>, ghost t: Tree, ghost height: nat, ghost pos: Position)
    returns (moved: Status, status: Status, ghost next: Position)
    requires cursor.Valid() && cursor.tree.pager.Valid() && nv !in cursor.tree.pager.Repr
    requires cursor !in cursor.tree.pager.Repr && cursor.breadcrumbs !in cursor.tree.pager.Repr
    requires CursorAt(cursor, t, height, pos)
    modifies cursor.tree.pager.Repr, nv, cursor, cursor.breadcrumbs
    ensures cursor.Valid() && cursor.tree.pager.Valid() && cursor.tree.pager.contents == old(cursor.tree.pager.contents)
    ensures status in {Ok, DepthExceeded} && (status == DepthExceeded ==> height > 8)
    ensures moved == Ok && status == Ok ==>
      && CursorAt(cursor, t, height, next) && (pos.node.leaf ==> next.node == pos.node)
      && (!pos.node.leaf ==> next.node.leaf)
      && Rest(cursor.tree.kind, pos) == Here(cursor.tree.kind, pos) + Rest(cursor.tree.kind, next)
    ensures moved != Ok ==>
      && status == Ok && pos.node.leaf
      && |cursor.Stack()| > 0 && cursor.Stack()[..|cursor.Stack()| - 1] == Crumbs([], pos.path)
      && Rest(cursor.tree.kind, pos) == Here(cursor.tree.kind, pos) + PathAfter(cursor.tree.kind, pos.path)
  {
    var page;
    moved, page := MoveInNode(cursor, nv, t, height, pos);
    status, next := Ok, pos.(index := pos.index + 1);
    if page.isLeaf {
      StepInLeaf(cursor.tree.kind, cursor.tree.pager.contents, t, height, pos);
    }
    if moved == Ok && !page.isLeaf {
      status, next := EnterKid(cursor, page, t, height, pos);
    }
  }

  /** ibtree_iter_next: one record further, or done. */
  method IndexIterNext(cursor: Cursor, ghost t: Tree, ghost height: nat, ghost pos: Position)
    returns (status: Status, ghost next: Position)
    requires cursor.Valid() && cursor.tree.pager.Valid() && cursor.tree.kind == Index
    requires cursor !in cursor.tree.pager.Repr && cursor.breadcrumbs !in cursor.tree.pager.Repr
    requires CursorAt(cursor, t, height, pos)
    modifies cursor.tree.pager.Repr, cursor, cursor.breadcrumbs
    ensures cursor.Valid() && cursor.tree.pager.Valid() && cursor.tree.pager.contents == old(cursor.tree.pager.contents)
    ensures status in {Ok, IterDone, DepthExceeded} && (status == DepthExceeded ==> height > 8)
    ensures status == Ok ==>
      CursorAt(cursor, t, height, next) && Rest(Index, pos) == Here(Index, pos) + Rest(Index, next)
    ensures status == IterDone ==> Rest(Index, pos) == Here(Index, pos)
  {
    var nv := new Page<PageBody>(cursor.tree.pager.blank);
    var moved;
    moved, status, next := StepRight(cursor, nv, t, height, pos);
    if moved != Ok {
      status, next := PopToSlot(cursor, cursor.tree.pager.contents, t, height, pos.path, pos.node);
      if cursor.breadcrumbsSize == 0 {
        status := IterDone;
      }
    }
  }

  /** btree_iter_next: one record further, or done. */
  method TableIterNext(cursor: Cursor, ghost t: Tree, ghost height: nat, ghost pos: Position)
    returns (status: Status, ghost next: Position)
    requires cursor.Valid() && cursor.tree.pager.Valid() && cursor.tree.kind == Table
    requires cursor !in cursor.tree.pager.Repr && cursor.breadcrumbs !in cursor.tree.pager.Repr
    requires CursorAt(cursor, t, height, pos) && pos.node.leaf
    modifies cursor.tree.pager.Repr, cursor, cursor.breadcrumbs
    ensures cursor.Valid() && cursor.tree.pager.Valid() && cursor.tree.pager.contents == old(cursor.tree.pager.contents)
    ensures status in {Ok, IterDone, DepthExceeded} && (status == DepthExceeded ==> height > 8)
    ensures status == Ok ==>
      CursorAt(cursor, t, height, next) && next.node.leaf && Rest(Table, pos) == Here(Table, pos) + Rest(Table, next)
    ensures status == IterDone ==> Rest(Table, pos) == Here(Table, pos)
  {
    var nv := new Page<PageBody>(cursor.tree.pager.blank);
    ghost var at := pos;
    while true
      invariant cursor.Valid() && cursor.tree.pager.Valid()
      invariant cursor.tree.pager.contents == old(cursor.tree.pager.contents)
      invariant CursorAt(cursor, t, height, at)
      invariant if at.node.leaf then at == pos else Rest(Table, pos) == Here(Table, pos) + Rest(Table, at)
      decreases at.node.leaf
    {
      var done;
      done, status, next := TableTurn(cursor, nv, t, height, pos, at);
      if done {
        return;
      }
      at := next;
    }
  }

  /** One turn: to the next slot, or up to a slot of an internal node, from where the next turn goes down again. */
  method TableTurn(
      cursor: Cursor, nv: Page<PageBody>, ghost t: Tree, ghost height: nat, ghost pos: Position, ghost at: Position)
    returns (done: bool, status: Status, ghost next: Position)
    requires cursor.Valid() && cursor.tree.pager.Valid() && cursor.tree.kind == Table
    requires cursor !in cursor.tree.pager.Repr && cursor.breadcrumbs !in cursor.tree.pager.Repr
    requires nv !in cursor.tree.pager.Repr
    requires pos.node.Branch? && pos.index < |pos.node.entries| && pos.node.leaf && CursorAt(cursor, t, height, at)
    requires if at.node.leaf then at == pos else Rest(Table, pos) == Here(Table, pos) + Rest(Table, at)
    modifies cursor.tree.pager.Repr, nv, cursor, cursor.breadcrumbs
    ensures cursor.Valid() && cursor.tree.pager.Valid() && cursor.tree.pager.contents == old(cursor.tree.pager.contents)
    ensures status in {Ok, IterDone, DepthExceeded} && (status == DepthExceeded ==> height > 8)
    ensures done && status == Ok ==>
      CursorAt(cursor, t, height, next) && next.node.leaf && Rest(Table, pos) == Here(Table, pos) + Rest(Table, next)
    ensures done && status == IterDone ==> Rest(Table, pos) == Here(Table, pos)
    ensures !done ==>
      && at.node.leaf && CursorAt(cursor, t, height, next) && !next.node.leaf
      && Rest(Table, pos) == Here(Table, pos) + Rest(Table, next)
  {
    var moved;
    done := true;
    moved, status, next := StepRight(cursor, nv, t, height, at);
    if moved == Ok {
      if status == Ok { StillAhead(pos, at, next); }
      return;
    }
    cursor.tree.pager.NoPageZero();
    status, next := PopToSlot(cursor, cursor.tree.pager.contents, t, height, at.path, at.node);
    done := cursor.currentPageId == 0;
    if done {
      LastOne(pos);
      status := IterDone;
    }
  }

  /** An internal slot of a table tree holds no record. */
  lemma {:induction false} StillAhead(pos: Position, at: Position, next: Position)
    requires pos.node.Branch? && pos.index < |pos.node.entries| && pos.node.leaf
    requires at.node.Branch? && at.index < |at.node.entries| && next.node.Branch? && next.index <= |next.node.entries|
    requires if at.node.leaf then at == pos else Rest(Table, pos) == Here(Table, pos) + Rest(Table, at)
    requires Rest(Table, at) == Here(Table, at) + Rest(Table, next)
    ensures Rest(Table, pos) == Here(Table, pos) + Rest(Table, next)
  {
    if !at.node.leaf { assert Here(Table, at) == []; assert [] + Rest(Table, next) == Rest(Table, next); }
  }

  lemma {:induction false} LastOne(pos: Position)
    requires pos.node.Branch? && pos.index < |pos.node.entries|
    ensures Here(Table, pos) + [] == Here(Table, pos)
  {
  }

  /** cursor_iter_next. */
  method IterNext(cursor: Cursor, ghost t: Tree, ghost height: nat, ghost pos: Position)
    returns (status: Status, ghost next: Position)
    requires cursor.Valid() && cursor.tree.pager.Valid()
    requires cursor !in cursor.tree.pager.Repr && cursor.breadcrumbs !in cursor.tree.pager.Repr
    requires CursorAt(cursor, t, height, pos) && (cursor.tree.kind == Table ==> pos.node.leaf)
    modifies cursor.tree.pager.Repr, cursor, cursor.breadcrumbs
    ensures cursor.Valid() && cursor.tree.pager.Valid() && cursor.tree.pager.contents == old(cursor.tree.pager.contents)
    ensures status in {Ok, IterDone, DepthExceeded} && (status == DepthExceeded ==> height > 8)
    ensures status == Ok ==>
      && CursorAt(cursor, t, height, next) && (cursor.tree.kind == Table ==> next.node.leaf)
      && Rest(cursor.tree.kind, pos) == Here(cursor.tree.kind, pos) + Rest(cursor.tree.kind, next)
    ensures status == IterDone ==> Rest(cursor.tree.kind, pos) == Here(cursor.tree.kind, pos)
  {
    if cursor.tree.kind == Index {
      status, next := IndexIterNext(cursor, t, height, pos);
    } else {
      status, next := TableIterNext(cursor, t, height, pos);
    }
  }

  lemma {:induction false} FirstCrumbs(low: Path, leaf: Tree)
    requires leaf.Branch? && Along(ToBegin, low) && Inner(low)
    ensures Steps([Crumb(KeyIndex(At, 0), FirstId(low, leaf.id))], ToBegin, low, leaf.id)
      == StackAt(Position(low, leaf, 0))
  {
    assert [] + low == low;
    assert Crumbs([], []) + [Crumb(KeyIndex(At, 0), FirstId(low, leaf.id))]
      == [Crumb(KeyIndex(At, 0), FirstId(low, leaf.id))];
    LowCrumbs([], low, leaf);
  }

  /** The leftmost leaf of the tree. */
  lemma {:induction false} StartOfTree(
      kind: TreeKind, pages: Pages, t: Tree, height: nat, low: Path, leaf: Tree)
    returns (pos: Position)
    requires Walkable(kind, pages, t, height) && Reached(kind, pages, ToBegin, t, low, leaf, 1) && leaf.leaf
    ensures pos == Position(low, leaf, 0) && IsAt(kind, pages, t, pos)
    ensures Steps([Crumb(KeyIndex(At, 0), t.id)], ToBegin, low, leaf.id) == StackAt(pos)
    ensures Rest(kind, pos) == Contents(kind, t)
  {
    pos := Position(low, leaf, 0);
    FilledInner(low, leaf, height);
    FirstOfPlug(low, leaf);
    FirstCrumbs(low, leaf);
    FirstLeaf(kind, low, leaf);
  }

  /** What a scan may start on: a tree without empty nodes, or an empty one. */
  ghost predicate Scannable(kind: TreeKind, pages: Pages, t: Tree, height: nat) {
    t.Branch? && Balanced(t, height) && Represents(kind, pages, t) && (NodesFilled(t) || (t.leaf && t.entries == []))
  }

  lemma {:induction false} EmptyLeaf(kind: TreeKind, pages: Pages, t: Tree, height: nat, low: Path, leaf: Tree)
    requires t.Branch? && t.leaf && t.entries == [] && Balanced(t, height)
    requires Reached(kind, pages, ToBegin, t, low, leaf, 1)
    ensures leaf == t && Contents(kind, t) == []
  {
    PlugBalanced(low, leaf, height);
  }

  /**
    cursor_iter_begin, on a cursor just created: all records lie ahead, and the cursor is at the first if there is
    one.
  */
  method IterBegin(cursor: Cursor, ghost t: Tree, ghost height: nat) returns (status: Status, ghost pos: Position)
    requires cursor.Valid() && cursor.tree.pager.Valid()
    requires cursor !in cursor.tree.pager.Repr && cursor.breadcrumbs !in cursor.tree.pager.Repr
    requires Scannable(cursor.tree.kind, cursor.tree.pager.contents, t, height)
    requires cursor.Stack() == [Crumb(KeyIndex(At, 0), t.id)]
    modifies cursor.tree.pager.Repr, cursor, cursor.breadcrumbs
    ensures cursor.Valid() && cursor.tree.pager.Valid() && cursor.tree.pager.contents == old(cursor.tree.pager.contents)
    ensures status in {Ok, DepthExceeded} && (status == DepthExceeded ==> height > 8)
    ensures status == Ok && t.entries != [] ==>
      CursorAt(cursor, t, height, pos) && pos.node.leaf && Rest(cursor.tree.kind, pos) == Contents(cursor.tree.kind, t)
    ensures status == Ok && t.entries == [] ==>
      cursor.Current() == Crumb(KeyIndex(At, 0), t.id) && Contents(cursor.tree.kind, t) == []
  {
    ghost var low, leaf;
    pos := Position([], t, 0);
    status, low, leaf := TraverseByMover(cursor, ToBegin, t, height);
    if status == Ok {
      if t.entries != [] {
        pos := StartOfTree(cursor.tree.kind, cursor.tree.pager.contents, t, height, low, leaf);
      } else {
        EmptyLeaf(cursor.tree.kind, cursor.tree.pager.contents, t, height, low, leaf);
      }
    }
  }

  lemma {:induction false} CellsOf(kind: TreeKind, pages: Pages, node: Tree)
    requires node.Branch? && Represents(kind, pages, node)
    ensures node.id in pages && pages[node.id].NodeBody? && |pages[node.id].node.cells| == |node.entries|
  {
  }

  /** btree_op_scan_prepare: at the first record, or done at once if there is none. */
  method ScanPrepare(cursor: Cursor, ghost t: Tree, ghost height: nat) returns (status: Status, ghost pos: Position)
    requires cursor.Valid() && cursor.tree.pager.Valid()
    requires cursor !in cursor.tree.pager.Repr && cursor.breadcrumbs !in cursor.tree.pager.Repr
    requires Scannable(cursor.tree.kind, cursor.tree.pager.contents, t, height)
    requires cursor.Stack() == [Crumb(KeyIndex(At, 0), t.id)]
    modifies cursor.tree.pager.Repr, cursor, cursor.breadcrumbs
    ensures cursor.Valid() && cursor.tree.pager.Valid() && cursor.tree.pager.contents == old(cursor.tree.pager.contents)
    ensures status in {Ok, IterDone, DepthExceeded} && (status == DepthExceeded ==> height > 8)
    ensures status == Ok ==>
      CursorAt(cursor, t, height, pos) && pos.node.leaf && Rest(cursor.tree.kind, pos) == Contents(cursor.tree.kind, t)
    ensures status == IterDone ==> Contents(cursor.tree.kind, t) == []
  {
    var nv := new Page<PageBody>(cursor.tree.pager.blank);
    status, pos := IterBegin(cursor, t, height);
    if status != Ok {
      return;
    }
    CellsOf(cursor.tree.kind, cursor.tree.pager.contents, if t.entries != [] then pos.node else t);
    cursor.tree.pager.NoPageZero();
    var ok := cursor.tree.pager.ReadPage(cursor.currentPageId, nv);
    if |nv.image.data.node.cells| == cursor.currentKeyIndex.index {
      status := IterDone;
    }
  }

  /** The records at a list of positions, in the order of the visits. */
  function Visited(kind: TreeKind, visits: seq<Position>): seq<Record> {
    if visits == [] then [] else Visited(kind, visits[..|visits| - 1]) + Here(kind, visits[|visits| - 1])
  }

  /** The slots that a scan has shown, as positions of the tree; in a table tree all are in leaves. */
  ghost predicate Toured(kind: TreeKind, pages: Pages, t: Tree, visits: seq<Position>, crumbs: seq<Crumb>) {
    |visits| == |crumbs| && forall i :: 0 <= i < |visits| ==>
      && IsAt(kind, pages, t, visits[i]) && (kind == Table ==> visits[i].node.leaf)
      && crumbs[i] == Crumb(KeyIndex(At, visits[i].index), visits[i].node.id)
  }

  /** The records visited and those ahead are all there are, and each visit was of one. */
  ghost predicate Covers(kind: TreeKind, all: seq<Record>, visits: seq<Position>, ahead: seq<Record>) {
    all == Visited(kind, visits) + ahead && |visits| + |ahead| == |all|
  }

  lemma {:induction false} OneSlot(
      kind: TreeKind, pages: Pages, t: Tree, visits: seq<Position>, crumbs: seq<Crumb>, pos: Position)
    requires Toured(kind, pages, t, visits, crumbs) && IsAt(kind, pages, t, pos) && (kind == Table ==> pos.node.leaf)
    ensures Toured(kind, pages, t, visits + [pos], crumbs + [Crumb(KeyIndex(At, pos.index), pos.node.id)])
    ensures |Here(kind, pos)| == 1
  {
  }

  lemma {:induction false} OneVisit(
      kind: TreeKind, all: seq<Record>, visits: seq<Position>, pos: Position, ahead: seq<Record>)
    requires Covers(kind, all, visits, Here(kind, pos) + ahead) && |Here(kind, pos)| == 1
    ensures Covers(kind, all, visits + [pos], ahead)
  {
    assert (visits + [pos])[..|visits|] == visits;
    assert Visited(kind, visits) + (Here(kind, pos) + ahead) == Visited(kind, visits + [pos]) + ahead;
  }

  /**
    A scan (btree_op_scan_prepare and btree_op_scan_next until they report the end): the cursor visits every record of
    the tree, once and in order, and says so when there are no more. It needs one call for each record.
  */
  method Scan(
      tree: BTree, ghost t: Tree, ghost height: nat)
    returns (status: Status, crumbs: seq<Crumb>, ghost visits: seq<Position>)
    requires tree.pager.Valid() && Scannable(tree.kind, tree.pager.contents, t, height) && t.id == tree.rootPageId
    modifies tree.pager.Repr
    ensures tree.pager.Valid() && tree.pager.contents == old(tree.pager.contents)
    ensures status in {IterDone, DepthExceeded} && (height <= 8 ==> status == IterDone)
    ensures Toured(tree.kind, tree.pager.contents, t, visits, crumbs)
    ensures status == IterDone ==>
      Visited(tree.kind, visits) == Contents(tree.kind, t) && |visits| == |Contents(tree.kind, t)|
  {
    var cursor := new Cursor(tree);
    ghost var pos;
    crumbs, visits := [], [];
    status, pos := ScanPrepare(cursor, t, height);
    ghost var pages, all := tree.pager.contents, Contents(tree.kind, t);
    while status == Ok
      invariant cursor.Valid() && tree.pager.Valid() && tree.pager.contents == pages && cursor.tree == tree
      invariant fresh(cursor) && fresh(cursor.breadcrumbs)
      invariant status in {Ok, IterDone, DepthExceeded} && (status == DepthExceeded ==> height > 8)
      invariant Toured(tree.kind, pages, t, visits, crumbs)
      invariant status == Ok ==> CursorAt(cursor, t, height, pos) && (tree.kind == Table ==> pos.node.leaf)
      invariant status == Ok ==> Covers(tree.kind, all, visits, Rest(tree.kind, pos))
      invariant status == IterDone ==> Covers(tree.kind, all, visits, [])
      decreases |all| - |visits| + if status == Ok then 1 else 0
    {
      ghost var before := pos;
      OneSlot(tree.kind, pages, t, visits, crumbs, pos);
      crumbs := crumbs + [Crumb(cursor.currentKeyIndex, cursor.currentPageId)];
      status, pos := IterNext(cursor, t, height, pos);
      if status == Ok {
        OneVisit(tree.kind, all, visits, before, Rest(tree.kind, pos));
      } else if status == IterDone {
        assert Here(tree.kind, before) + [] == Here(tree.kind, before);
        OneVisit(tree.kind, all, visits, before, []);
      }
      visits := visits + [before];
    }
  }
}
