/**
  Cursors (src/btree_cursor.c): a position in a tree and the breadcrumbs that lead to it. There are no parent
  pointers.
*/
module Cursor {
  import opened Bytes
  import opened Node
  import opened Pager
  import opened Overflow
  import opened Tree

  datatype Mode = End | RightChild | At

  datatype KeyIndex = KeyIndex(mode: Mode, index: nat)

  datatype Crumb = Crumb(keyIndex: KeyIndex, pageId: nat)

  /** struct BTree. */
  datatype BTree = BTree(pager: Pager<PageBody>, rootPageId: nat, kind: TreeKind, underflow: nat)

  const MAX_DEPTH: nat := 8

  class Cursor {
    const tree: BTree
    var currentPageId: nat
    var currentKeyIndex: KeyIndex
    const breadcrumbs: array<Crumb>
    var breadcrumbsSize: nat

    ghost predicate Valid()
      reads this
    {
      breadcrumbs.Length == MAX_DEPTH && breadcrumbsSize <= MAX_DEPTH
    }

    ghost function Stack(): seq<Crumb>
      requires Valid()
      reads this, breadcrumbs
    {
      breadcrumbs[..breadcrumbsSize]
    }

    ghost function Current(): Crumb
      reads this
    {
      Crumb(currentKeyIndex, currentPageId)
    }

    /** cursor_create: the cursor starts at the root and holds it once already. */
    constructor (tree: BTree)
      ensures Valid() && fresh(breadcrumbs) && this.tree == tree
      ensures Current() == Crumb(KeyIndex(At, 0), tree.rootPageId) && Stack() == [Current()]
    {
      this.tree := tree;
      currentPageId, currentKeyIndex := tree.rootPageId, KeyIndex(At, 0);
      breadcrumbs := new Crumb[MAX_DEPTH](_ => Crumb(KeyIndex(End, 0), 0));
      breadcrumbsSize := 0;
      new;
      var status := Push();
    }

    method Push() returns (status: Status)
      requires Valid()
      modifies this`breadcrumbsSize, breadcrumbs
      ensures Valid()
      ensures status == if |old(Stack())| == 8 then DepthExceeded else Ok
      ensures Stack() == if status == Ok then old(Stack()) + [Current()] else old(Stack())
    {
      if breadcrumbsSize == MAX_DEPTH {
        return DepthExceeded;
      }
      breadcrumbs[breadcrumbsSize] := Crumb(currentKeyIndex, currentPageId);
      breadcrumbsSize := breadcrumbsSize + 1;
      return Ok;
    }

    method PushCrumb(crumb: Crumb) returns (status: Status)
      requires Valid()
      modifies this, breadcrumbs
      ensures Valid()
      ensures status == if |old(Stack())| == 8 then DepthExceeded else Ok
      ensures Stack() == if status == Ok then old(Stack()) + [crumb] else old(Stack())
      ensures Current() == if status == Ok then crumb else old(Current())
    {
      if breadcrumbsSize == MAX_DEPTH {
        return DepthExceeded;
      }
      breadcrumbs[breadcrumbsSize] := crumb;
      breadcrumbsSize := breadcrumbsSize + 1;
      currentPageId, currentKeyIndex := crumb.pageId, crumb.keyIndex;
      return Ok;
    }

    /** Removes the last crumb; the cursor then stands at the one before, or at page 0 when there is none. */
    method Pop() returns (status: Status, crumb: Crumb)
      requires Valid()
      modifies this
      ensures Valid()
      ensures status == if old(Stack()) == [] then NoParent else Ok
      ensures status == NoParent ==> Stack() == [] && Current() == old(Current())
      ensures status == Ok ==>
        && old(Stack()) == Stack() + [crumb]
        && Current() == if Stack() == [] then Crumb(KeyIndex(End, 0), 0) else Stack()[|Stack()| - 1]
    {
      if breadcrumbsSize == 0 {
        return NoParent, Crumb(KeyIndex(End, 0), 0);
      }
      crumb := breadcrumbs[breadcrumbsSize - 1];
      breadcrumbsSize := breadcrumbsSize - 1;
      if breadcrumbsSize == 0 {
        currentPageId, currentKeyIndex := 0, KeyIndex(End, 0);
      } else {
        currentPageId := breadcrumbs[breadcrumbsSize - 1].pageId;
        currentKeyIndex := breadcrumbs[breadcrumbsSize - 1].keyIndex;
      }
      status := Ok;
    }

    method Peek() returns (status: Status, crumb: Crumb)
      requires Valid()
      ensures status == if Stack() == [] then NoParent else Ok
      ensures status == Ok ==> crumb == Stack()[|Stack()| - 1]
    {
      if breadcrumbsSize == 0 {
        return NoParent, Crumb(KeyIndex(End, 0), 0);
      }
      return Ok, breadcrumbs[breadcrumbsSize - 1];
    }

    /**
      Moves to the page of child `index` of a node: in an index tree the slot's key, in a table tree the cell's
      payload.
    */
    method ReadCellPage(node: Node, index: nat) returns (status: Status)
      modifies this`currentPageId
      ensures status == ChildPage(tree.kind, node, index).0
      ensures currentPageId == if status == Ok then ChildPage(tree.kind, node, index).1 else old(currentPageId)
    {
      var child := ChildPage(tree.kind, node, index);
      status := child.0;
      if status == Ok {
        currentPageId := child.1;
      }
    }
  }

  function ChildPage(kind: TreeKind, node: Node, index: nat): (Status, nat) {
    if index >= |node.cells| then (Ok, node.rightChild)
    else
      match kind
      case Index => (Ok, node.cells[index].key)
      case Table =>
        var body := node.cells[index].body;
        if DiskSize(body) != 8 then (CorruptCell, 0)
        else if body.Inline? then (Ok, ReadLe32(body.payload))
        else (CorruptCell, 0)
  }

  /** btu_init_keylistindex_from_index. */
  function KeyIndexOf(t: Tree, i: nat): KeyIndex
    requires t.Branch?
  {
    if i < |t.entries| then KeyIndex(At, i)
    else KeyIndex(if t.leaf then End else RightChild, |t.entries|)
  }

  lemma {:induction false} ChildPageIsKid(kind: TreeKind, page: PageBody, t: Tree, i: nat)
    requires t.Branch? && !t.leaf && NodeMatches(kind, page, t) && i <= |t.entries|
    ensures KidAt(t, i).Branch? && ChildPage(kind, page.node, i) == (Ok, KidAt(t, i).id)
  {
    if i < |t.entries| {
      assert CellMatches(kind, t.leaf, page.node.cells[i], t.entries[i]);
      if kind == Table {
        Le32RoundTrip(t.entries[i].kid.id, []);
        assert WriteLe32(t.entries[i].kid.id) + [] == WriteLe32(t.entries[i].kid.id);
      }
    }
  }

  /** The crumbs `base`, and then those of a path: each node, and the child taken. */
  function Crumbs(base: seq<Crumb>, path: Path): seq<Crumb>
    decreases |path|
  {
    if path == [] then base
    else
      var h := path[|path| - 1];
      Crumbs(base, path[..|path| - 1]) + [Crumb(KeyIndexOf(h.node, h.at), h.node.id)]
  }

  lemma {:induction false} CrumbsLength(base: seq<Crumb>, path: Path)
    ensures |Crumbs(base, path)| == |base| + |path|
    decreases |path|
  {
    if path != [] { CrumbsLength(base, path[..|path| - 1]); }
  }
}
