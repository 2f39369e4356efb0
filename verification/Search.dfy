/** Descending an index tree to a key (cursor_traverse_to_ex in src/btree_cursor.c). */
module Search {
  import opened Bytes
  import opened Node
  import opened Pager
  import opened Overflow
  import opened Compare
  import opened Tree
  import opened Order
  import opened Cursor

  /** Where a search stopped: the path to a node and a slot of that node. */
  ghost predicate Located(t: Tree, key: bytes, found: bool, path: Path, node: Tree, index: nat) {
    && node.Branch? && PlugAll(path, node) == t && index <= |node.entries|
    && (if found then
          && index < |node.entries| && node.entries[index].item.payload == key
          && AllBelow(PathBefore(Index, path), key) && AllAbove(PathAfter(Index, path), key)
        else
          && node.leaf
          && AllBelow(PathBefore(Index, path) + BeforeKid(Index, node, index), key)
          && AllAbove(AfterKid(Index, node, index) + PathAfter(Index, path), key))
  }

  /**
    The descent so far: `node` is the rest of the search, and the key lies between the records to its left and right.
  */
  ghost predicate Narrowed(t: Tree, key: bytes, path: Path, node: Tree, height: nat) {
    && node.Branch? && PlugAll(path, node) == t
    && |path| <= height && Balanced(node, height - |path|)
    && Increasing(Contents(Index, node))
    && AllBelow(PathBefore(Index, path), key) && AllAbove(PathAfter(Index, path), key)
  }

  /** The path extended by one node. */
  function Down(path: Path, node: Tree, index: nat): (longer: Path)
    requires node.Branch? && index <= |node.entries|
  {
    path + [Hole(WithKid(node, index, Nil), index)]
  }

  lemma {:induction false} DownPlugs(kind: Kind, base: seq<Crumb>, path: Path, node: Tree, index: nat, kid: Tree)
    requires node.Branch? && index <= |node.entries|
    ensures PlugAll(Down(path, node, index), kid) == PlugAll(path, WithKid(node, index, kid))
    ensures PathBefore(kind, Down(path, node, index)) == PathBefore(kind, path) + BeforeKid(kind, node, index)
    ensures PathAfter(kind, Down(path, node, index)) == AfterKid(kind, node, index) + PathAfter(kind, path)
    ensures Crumbs(base, Down(path, node, index)) == Crumbs(base, path) + [Crumb(KeyIndexOf(node, index), node.id)]
    ensures PathPages(Down(path, node, index)) == PathPages(path) + TreePages(WithKid(node, index, Nil))
  {
    var hole := WithKid(node, index, Nil);
    var longer := Down(path, node, index);
    assert longer[..|longer| - 1] == path;
    if index < |node.entries| {
      assert hole.entries[..index] == node.entries[..index] && hole.entries[index + 1..] == node.entries[index + 1..];
      assert WithKid(hole, index, kid).entries == WithKid(node, index, kid).entries;
      assert WithKid(hole, index, Nil).entries == hole.entries;
    }
  }

  lemma {:induction false} DownRepresents(kind: Kind, pages: Pages, path: Path, node: Tree, index: nat)
    requires node.Branch? && index <= |node.entries| && !node.leaf && kind != Torn
    requires PathRepresents(kind, pages, path, node.id) && Represents(kind, pages, node)
    ensures KidAt(node, index).Branch? && Represents(kind, pages, KidAt(node, index))
    ensures PathRepresents(kind, pages, Down(path, node, index), KidAt(node, index).id)
  {
    var hole := Hole(WithKid(node, index, Nil), index);
    var longer := Down(path, node, index);
    assert longer[..|longer| - 1] == path;
    assert index < |node.entries| ==>
      CellMatches(kind, node.leaf, pages[node.id].node.cells[index], node.entries[index]);
    WholeKid(kind, node, index);
    PlugRepresents(kind, pages, hole, KidAt(node, index));
    DownPlugs(kind, [], [], node, index, KidAt(node, index));
  }

  lemma {:induction false} NarrowDown(t: Tree, key: bytes, path: Path, node: Tree, height: nat, index: nat)
    requires Narrowed(t, key, path, node, height) && index <= |node.entries|
    requires forall j :: 0 <= j < index ==> Less(node.entries[j].item.payload, key)
    requires forall j :: index <= j < |node.entries| ==> Less(key, node.entries[j].item.payload)
    ensures node.leaf ==> Located(t, key, false, path, node, index)
    ensures !node.leaf ==> Narrowed(t, key, Down(path, node, index), KidAt(node, index), height)
  {
    KeyGoesToKid(node, index, key);
    AllBelowConcat(PathBefore(Index, path), BeforeKid(Index, node, index), key);
    AllAboveConcat(AfterKid(Index, node, index), PathAfter(Index, path), key);
    if !node.leaf { DownAgain(t, path, node, height, index); }
  }

  lemma {:induction false} DownAgain(t: Tree, path: Path, node: Tree, height: nat, index: nat)
    requires node.Branch? && !node.leaf && index <= |node.entries| && PlugAll(path, node) == t
    requires |path| <= height && Balanced(node, height - |path|)
    ensures
      var longer := Down(path, node, index);
      && PlugAll(longer, KidAt(node, index)) == t && KidAt(node, index).Branch?
      && |longer| <= height && Balanced(KidAt(node, index), height - |longer|)
      && PathBefore(Index, longer) == PathBefore(Index, path) + BeforeKid(Index, node, index)
      && PathAfter(Index, longer) == AfterKid(Index, node, index) + PathAfter(Index, path)
  {
    SameKid(node, index);
    DownPlugs(Index, [], path, node, index, KidAt(node, index));
    KidHeight(node, index, height - |path|);
  }

  lemma {:induction false} KidHeight(node: Tree, index: nat, h: nat)
    requires node.Branch? && !node.leaf && index <= |node.entries| && Balanced(node, h)
    ensures h > 1 && Balanced(KidAt(node, index), h - 1) && KidAt(node, index).Branch?
  {
  }

  lemma {:induction false} AllBelowConcat(a: seq<Record>, b: seq<Record>, key: bytes)
    requires AllBelow(a, key) && AllBelow(b, key)
    ensures AllBelow(a + b, key)
  {
  }

  lemma {:induction false} AllAboveConcat(a: seq<Record>, b: seq<Record>, key: bytes)
    requires AllAbove(a, key) && AllAbove(b, key)
    ensures AllAbove(a + b, key)
  {
  }

  /** One node of the descent: reads it, searches it, and pushes the slot. */
  method VisitNode(cursor: Cursor, nv: Page<PageBody>, key: bytes, ghost node: Tree)
    returns (status: Status, found: bool, index: nat)
    requires cursor.Valid() && cursor.tree.kind == Index && cursor.tree.pager.Valid() && key != []
    requires nv !in cursor.tree.pager.Repr && cursor !in cursor.tree.pager.Repr
    requires cursor.breadcrumbs !in cursor.tree.pager.Repr
    requires node.Branch? && cursor.currentPageId == node.id && Represents(Index, cursor.tree.pager.contents, node)
    requires Increasing(Contents(Index, node))
    modifies cursor.tree.pager.Repr, nv, cursor, cursor.breadcrumbs
    ensures cursor.Valid() && cursor.tree.pager.Valid()
    ensures cursor.tree.pager.contents == old(cursor.tree.pager.contents)
    ensures cursor.tree.pager.free == old(cursor.tree.pager.free)
    ensures status in {Ok, DepthExceeded, Unknown}
    ensures status == DepthExceeded ==> |old(cursor.Stack())| == 8
    ensures status == Unknown ==> exists i :: 0 <= i < |node.entries| && Window(node.entries[i].item.body) == []
    ensures status == Ok ==>
      && index <= |node.entries|
      && nv.image.data == cursor.tree.pager.contents[node.id]
      && cursor.currentPageId == node.id && cursor.currentKeyIndex == KeyIndexOf(node, index)
      && cursor.Stack() == old(cursor.Stack()) + [Crumb(KeyIndexOf(node, index), node.id)]
    ensures status == Ok && found ==> index < |node.entries| && node.entries[index].item.payload == key
    ensures status == Ok && !found ==>
      && (forall j :: 0 <= j < index ==> Less(node.entries[j].item.payload, key))
      && (forall j :: index <= j < |node.entries| ==> Less(key, node.entries[j].item.payload))
  {
    var pager := cursor.tree.pager;
    pager.NoPageZero();
    var ok := pager.ReadPage(cursor.currentPageId, nv);
    ghost var items := Items(node);
    SearchableNode(pager.contents, node);
    status, index := SearchKeys(pager, nv.image.data.node.cells, key, items);
    found := status == Ok;
    if status == Unknown {
      return;
    }
    var n := |nv.image.data.node.cells|;
    cursor.currentKeyIndex :=
      if index < n then KeyIndex(At, index)
      else KeyIndex(if nv.image.data.node.isLeaf then End else RightChild, n);
    status := cursor.Push();
  }

  lemma {:induction false} SearchableNode(pages: Pages, node: Tree)
    requires node.Branch? && Represents(Index, pages, node) && Increasing(Contents(Index, node))
    ensures SortedCells(pages, pages[node.id].node.cells, Items(node))
  {
    forall i, j | 0 <= i < j < |node.entries| ensures Less(node.entries[i].item.payload, node.entries[j].item.payload) {
      ItemsIncreasing(node, i, j);
    }
    assert forall i :: 0 <= i < |node.entries| ==>
      CellMatches(Index, node.leaf, pages[node.id].node.cells[i], node.entries[i]);
  }

  /** The descent has reached `node`. */
  ghost predicate Searching(pages: Pages, t: Tree, key: bytes, path: Path, node: Tree, height: nat) {
    && Narrowed(t, key, path, node, height)
    && Represents(Index, pages, node) && PathRepresents(Index, pages, path, node.id)
  }

  lemma {:induction false} SearchGoesDown(
      pages: Pages, base: seq<Crumb>, t: Tree, key: bytes, path: Path, node: Tree, height: nat, index: nat)
    requires Searching(pages, t, key, path, node, height) && !node.leaf && index <= |node.entries|
    requires forall j :: 0 <= j < index ==> Less(node.entries[j].item.payload, key)
    requires forall j :: index <= j < |node.entries| ==> Less(key, node.entries[j].item.payload)
    ensures Searching(pages, t, key, Down(path, node, index), KidAt(node, index), height)
    ensures ChildPage(Index, pages[node.id].node, index) == (Ok, KidAt(node, index).id)
    ensures Crumbs(base, Down(path, node, index)) == Crumbs(base, path) + [Crumb(KeyIndexOf(node, index), node.id)]
  {
    NarrowDown(t, key, path, node, height, index);
    DownRepresents(Index, pages, path, node, index);
    ChildPageIsKid(Index, pages[node.id], node, index);
    DownPlugs(Index, base, path, node, index, KidAt(node, index));
  }

  /** Where the search stops; the eight crumbs bound its depth, and in a leaf the height of the tree. */
  lemma {:induction false} SearchStops(
      pages: Pages, base: seq<Crumb>, t: Tree, key: bytes, path: Path, node: Tree, height: nat, index: nat, found: bool)
    requires Searching(pages, t, key, path, node, height) && index <= |node.entries| && (found || node.leaf)
    requires |Crumbs(base, path) + [Crumb(KeyIndexOf(node, index), node.id)]| <= 8 && |base| == 1
    requires found ==> index < |node.entries| && node.entries[index].item.payload == key
    requires !found ==>
      && (forall j :: 0 <= j < index ==> Less(node.entries[j].item.payload, key))
      && (forall j :: index <= j < |node.entries| ==> Less(key, node.entries[j].item.payload))
    ensures Located(t, key, found, path, node, index)
    ensures |path| < 7 && (node.leaf ==> height < 8)
  {
    CrumbsLength(base, path);
    if !found { NarrowDown(t, key, path, node, height, index); }
  }

  /** One step of the descent: searches the node, and goes on to a child unless the search stops here. */
  method SearchOn(
      cursor: Cursor, nv: Page<PageBody>, key: bytes, ghost base: seq<Crumb>, ghost t: Tree, ghost path: Path,
      ghost node: Tree, ghost height: nat)
    returns (status: Status, found: bool, stops: bool, ghost index: nat)
    requires cursor.Valid() && cursor.tree.kind == Index && cursor.tree.pager.Valid() && key != []
    requires nv !in cursor.tree.pager.Repr && cursor !in cursor.tree.pager.Repr
    requires cursor.breadcrumbs !in cursor.tree.pager.Repr && |base| == 1
    requires Searching(cursor.tree.pager.contents, t, key, path, node, height) && cursor.currentPageId == node.id
    requires cursor.Stack() == Crumbs(base, path)
    modifies cursor.tree.pager.Repr, nv, cursor, cursor.breadcrumbs
    ensures cursor.Valid() && cursor.tree.pager.Valid()
    ensures cursor.tree.pager.contents == old(cursor.tree.pager.contents)
    ensures cursor.tree.pager.free == old(cursor.tree.pager.free)
    ensures status in {Ok, DepthExceeded, Unknown}
    ensures status == DepthExceeded ==> height >= 8
    ensures status == Unknown ==> exists i :: 0 <= i < |node.entries| && Window(node.entries[i].item.body) == []
    ensures status == Ok ==> index <= |node.entries|
    ensures status == Ok && stops ==>
      && Located(t, key, found, path, node, index) && |path| < 7 && (node.leaf ==> height < 8)
      && cursor.Stack() == Crumbs(base, path) + [Crumb(KeyIndexOf(node, index), node.id)]
    ensures status == Ok && !stops ==>
      && KidAt(node, index).Branch? && cursor.currentPageId == KidAt(node, index).id
      && Searching(cursor.tree.pager.contents, t, key, Down(path, node, index), KidAt(node, index), height)
      && cursor.Stack() == Crumbs(base, Down(path, node, index))
  {
    var slot: nat;
    status, found, slot := VisitNode(cursor, nv, key, node);
    index := slot;
    stops := true;
    if status != Ok {
      CrumbsLength(base, path);
      return;
    }
    stops := nv.image.data.node.isLeaf || found;
    if stops {
      SearchStops(cursor.tree.pager.contents, base, t, key, path, node, height, index, found);
    } else {
      SearchGoesDown(cursor.tree.pager.contents, base, t, key, path, node, height, index);
      status := cursor.ReadCellPage(nv.image.data.node, slot);
    }
  }

  /**
    Descends from the root to the key, or to the leaf slot where it would be; an index tree stops where it finds it.
  */
  method TraverseTo(cursor: Cursor, key: bytes, ghost t: Tree, ghost height: nat)
    returns (status: Status, found: bool, ghost path: Path, ghost node: Tree, ghost index: nat)
    requires cursor.Valid() && cursor.tree.kind == Index && cursor.tree.pager.Valid() && key != []
    requires cursor !in cursor.tree.pager.Repr && cursor.breadcrumbs !in cursor.tree.pager.Repr
    requires t.Branch? && t.id == cursor.tree.rootPageId && cursor.currentPageId == t.id && |cursor.Stack()| == 1
    requires Represents(Index, cursor.tree.pager.contents, t) && Balanced(t, height) && Increasing(Contents(Index, t))
    modifies cursor.tree.pager.Repr, cursor, cursor.breadcrumbs
    ensures cursor.Valid() && cursor.tree.pager.Valid()
    ensures cursor.tree.pager.contents == old(cursor.tree.pager.contents)
    ensures cursor.tree.pager.free == old(cursor.tree.pager.free)
    ensures status in {Ok, DepthExceeded, Unknown}
    ensures status == DepthExceeded ==> height >= 8
    ensures status == Ok ==> |path| < 7 && node.Branch? && (node.leaf ==> height < 8)
    ensures status == Unknown ==>
      && node.Branch? && PlugAll(path, node) == t
      && exists i :: 0 <= i < |node.entries| && Window(node.entries[i].item.body) == []
    ensures status == Ok ==>
      && Located(t, key, found, path, node, index)
      && Represents(Index, cursor.tree.pager.contents, node)
      && PathRepresents(Index, cursor.tree.pager.contents, path, node.id)
      && cursor.Stack() == Crumbs(old(cursor.Stack()), path) + [Crumb(KeyIndexOf(node, index), node.id)]
  {
    var pager := cursor.tree.pager;
    path, node := [], t;
    ghost var start := cursor.Stack();
    var nv := new Page<PageBody>(pager.blank);
    ghost var pages := pager.contents;
    while true
      invariant cursor.Valid() && pager.Valid() && pager.contents == pages
      invariant pager.free == old(pager.free)
      invariant Searching(pages, t, key, path, node, height) && cursor.currentPageId == node.id
      invariant cursor.Stack() == Crumbs(start, path)
      decreases node
    {
      var stops;
      ghost var at;
      status, found, stops, at := SearchOn(cursor, nv, key, start, t, path, node, height);
      index := at;
      if status != Ok || stops {
        return;
      }
      path, node := Down(path, node, index), KidAt(node, index);
    }
  }
}
