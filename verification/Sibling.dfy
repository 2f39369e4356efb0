/**
  Moving a cursor to a neighbouring child of the same parent (cursor_sibling, cursor_read_parent in
  src/btree_cursor.c).
*/
module Sibling {
  import opened Node
  import opened Pager
  import opened Tree
  import opened Cursor

  datatype Side = ToLeft | ToRight

  /** The slot of the neighbour, given the parent's slot: its place in the crumb and the child to read. */
  function SiblingSlot(side: Side, keyIndex: KeyIndex, parent: Node): (r: (Status, KeyIndex, nat))
    ensures r.0 == Ok && side == ToLeft ==> r.2 + 1 == keyIndex.index && r.1 == KeyIndex(At, r.2)
    ensures r.0 == Ok && side == ToRight ==> r.2 == keyIndex.index + 1 && r.1.index == r.2
  {
    var n := |parent.cells|;
    match side
    case ToLeft =>
      if keyIndex.index == 0 then (NoSibling, keyIndex, 0)
        else (Ok, KeyIndex(At, keyIndex.index - 1), keyIndex.index - 1)
    case ToRight =>
      if (keyIndex.index + 1 == n && parent.rightChild == 0) || keyIndex.mode != At then (NoSibling, keyIndex, 0)
      else if keyIndex.index + 1 == n then (Ok, KeyIndex(RightChild, n), n)
      else (Ok, KeyIndex(At, keyIndex.index + 1), keyIndex.index + 1)
  }

  /** The crumb of the parent. */
  ghost function ParentCrumb(stack: seq<Crumb>): Crumb
    requires |stack| >= 2
  {
    stack[|stack| - 2]
  }

  method GoToSibling(cursor: Cursor, side: Side) returns (status: Status)
    requires cursor.Valid() && cursor.tree.pager.Valid()
    requires cursor !in cursor.tree.pager.Repr && cursor.breadcrumbs !in cursor.tree.pager.Repr
    requires |cursor.Stack()| >= 2 ==>
      && ParentCrumb(cursor.Stack()).pageId in cursor.tree.pager.contents
      && cursor.tree.pager.contents[ParentCrumb(cursor.Stack()).pageId].NodeBody?
    modifies cursor.tree.pager.Repr, cursor, cursor.breadcrumbs
    ensures cursor.Valid() && cursor.tree.pager.Valid() && cursor.tree.pager.contents == old(cursor.tree.pager.contents)
    ensures |old(cursor.Stack())| < 2 ==> status == NoParent && cursor.Stack() == old(cursor.Stack())
    ensures |old(cursor.Stack())| >= 2 ==>
      var stack := old(cursor.Stack());
      var crumb := ParentCrumb(stack);
      var node := cursor.tree.pager.contents[crumb.pageId].node;
      var slot := SiblingSlot(side, crumb.keyIndex, node);
      var child := ChildPage(cursor.tree.kind, node, slot.2);
      && (slot.0 != Ok ==> status == slot.0 && cursor.Stack() == stack && cursor.Current() == stack[|stack| - 1])
      && (slot.0 == Ok && child.0 != Ok ==> status == child.0)
      && (slot.0 == Ok && child.0 == Ok ==>
           && status == Ok
           && cursor.Stack() == stack[..|stack| - 2] + [Crumb(slot.1, crumb.pageId), Crumb(KeyIndex(At, 0), child.1)]
           && cursor.Current() == Crumb(KeyIndex(At, 0), child.1))
  {
    var pager := cursor.tree.pager;
    if cursor.breadcrumbsSize < 2 {
      return NoParent;
    }
    pager.NoPageZero();
    var child, parent;
    status, child := cursor.Pop();
    status, parent := cursor.Pop();
    var nv := new Page<PageBody>(pager.blank);
    var ok := pager.ReadPage(parent.pageId, nv);
    var slot := SiblingSlot(side, parent.keyIndex, nv.image.data.node);
    if slot.0 != Ok {
      status := cursor.PushCrumb(parent);
      status := cursor.PushCrumb(child);
      return slot.0;
    }
    status := PushChild(cursor, Crumb(slot.1, parent.pageId), nv.image.data.node, slot.2);
  }

  /** Pushes a crumb of the parent, and one for the child there. */
  method PushChild(cursor: Cursor, crumb: Crumb, node: Node, index: nat) returns (status: Status)
    requires cursor.Valid() && |cursor.Stack()| + 2 <= 8
    modifies cursor, cursor.breadcrumbs
    ensures cursor.Valid()
    ensures
      var child := ChildPage(cursor.tree.kind, node, index);
      && status == child.0
      && (status == Ok ==>
           && cursor.Stack() == old(cursor.Stack()) + [crumb, Crumb(KeyIndex(At, 0), child.1)]
           && cursor.Current() == Crumb(KeyIndex(At, 0), child.1))
  {
    cursor.currentKeyIndex, cursor.currentPageId := crumb.keyIndex, crumb.pageId;
    status := cursor.Push();
    status := cursor.ReadCellPage(node, index);
    if status != Ok {
      return;
    }
    cursor.currentKeyIndex := KeyIndex(At, 0);
    status := cursor.Push();
  }

  /** cursor_read_parent: loads the parent's page and leaves the cursor where it is. */
  method ReadParent(cursor: Cursor, nv: Page<PageBody>) returns (status: Status, crumb: Crumb)
    requires cursor.Valid() && cursor.tree.pager.Valid() && nv !in cursor.tree.pager.Repr
    requires cursor !in cursor.tree.pager.Repr && cursor.breadcrumbs !in cursor.tree.pager.Repr
    requires |cursor.Stack()| >= 2 && ParentCrumb(cursor.Stack()).pageId in cursor.tree.pager.contents
    modifies cursor.tree.pager.Repr, nv, cursor, cursor.breadcrumbs
    ensures cursor.Valid() && cursor.tree.pager.Valid() && cursor.tree.pager.contents == old(cursor.tree.pager.contents)
    ensures status == Ok && crumb == ParentCrumb(old(cursor.Stack()))
    ensures nv.pageId == crumb.pageId && nv.image.data == cursor.tree.pager.contents[crumb.pageId]
    ensures cursor.Stack() == old(cursor.Stack()) && cursor.Current() == cursor.Stack()[|cursor.Stack()| - 1]
  {
    var child;
    cursor.tree.pager.NoPageZero();
    status, child := cursor.Pop();
    var ok := cursor.tree.pager.ReadPage(cursor.currentPageId, nv);
    status, crumb := cursor.Peek();
    status := cursor.PushCrumb(child);
  }
}
