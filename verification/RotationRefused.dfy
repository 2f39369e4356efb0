/**
  What a rotation leaves that the parent refuses: the separator has been copied to the child already, and stays in the
  parent (ibta_rotate in src/ibtree_alg.c).
*/
module RotationRefused {
  import opened Bytes
  import opened Node
  import opened NodeMove
  import opened Overflow
  import opened Tree
  import opened Order
  import opened IndexTree
  import opened Climb
  import opened Cursor
  import opened Search
  import opened Presence
  import opened Torn
  import opened Sibling
  import opened Rotation
  import opened IndexRotate

  /** The child with the separator as its first or last cell, which has no left child. */
  function Doubled(child: Tree, side: Side, item: Item): Tree
    requires child.Branch?
  {
    WithEntry(child, if side == ToLeft then 0 else |child.entries|, Entry(Nil, 0, item))
  }

  /** The whole tree with that child. */
  function LeftOver(path: Path, p: Tree, j: nat, side: Side): Tree
    requires p.Branch? && j <= |p.entries| && 0 <= SeparatorOf(j, side) < |p.entries| && KidAt(p, j).Branch?
  {
    PlugAll(path, WithKid(p, j, Doubled(KidAt(p, j), side, p.entries[SeparatorOf(j, side)].item)))
  }

  lemma {:induction false} DoubledOnPage(pages: Pages, child: Tree, side: Side, item: Item, separator: Cell)
    requires child.Branch? && Represents(Torn, pages, child) && child.id !in PartPages(child)
    requires Holds(pages, item) && child.id !in ItemPages(item)
    requires child.id in pages && pages[child.id].NodeBody? && separator.body == item.body
    ensures
      var after := pages[child.id := NodeBody(LoweredNode(pages[child.id].node, side, separator))];
      Represents(Torn, after, Doubled(child, side, item))
  {
    var node := pages[child.id].node;
    var after := pages[child.id := NodeBody(LoweredNode(node, side, separator))];
    PartsFrame(Torn, pages, after, child);
    HoldsFrame(pages, after, item);
    WithEntryRepresents(Torn, after, child, if side == ToLeft then 0 else |child.entries|, Entry(Nil, 0, item), node);
  }

  /** The child is on no page of the path to it, and the separator's overflow pages are not the child's page. */
  lemma {:induction false} ChildApart(t: Tree, path: Path, p: Tree, i: nat, j: nat)
    requires PlugAll(path, p) == t && Unshared(TreePages(t)) && 1 !in TreePages(t) && Neighbours(p, i)
    requires j == i || j == i + 1
    ensures
      var child, longer := KidAt(p, j), Down(path, p, j);
      && PlugAll(longer, child) == t && child.id !in PathPages(longer) && child.id !in PartPages(child)
      && child.id !in ItemPages(p.entries[i].item)
  {
    var child, longer := KidAt(p, j), Down(path, p, j);
    SameKid(p, j);
    DownPlugs(Index, [], path, p, j, child);
    PathOwns(longer, child);
    OwnAndParts(child);
    assert TreePages(t)[child.id] <= 1;
    PairOwned(path, p);
    PairApart(p, i);
    SeparatorApart(p, i);
  }

  lemma {:induction false} SeparatorApart(p: Tree, i: nat)
    requires Neighbours(p, i)
    ensures forall id :: id in ItemPages(p.entries[i].item) ==> id in PartPages(Bare(p, i))
  {
    EntryPagesAt(Bare(p, i).entries, i);
  }

  lemma {:induction false} OnPages(
      pageSize: nat, pages: Pages, t: Tree, height: nat, path: Path, p: Tree, i: nat, j: nat)
    requires Pair(pageSize, pages, t, height, path, p, i) && 0 !in pages && (j == i || j == i + 1)
    ensures
      var child, longer := KidAt(p, j), Down(path, p, j);
      && Represents(Torn, pages, child) && PathRepresents(Torn, pages, longer, child.id)
      && Holds(pages, p.entries[i].item)
    ensures p.id in pages && pages[p.id].NodeBody? && i < |pages[p.id].node.cells|
    ensures pages[p.id].node.cells[i].body == p.entries[i].item.body
  {
    PairOnPages(pageSize, pages, t, height, path, p, i);
    Unfold(pages, p, i);
    DownRepresents(Index, pages, path, p, j);
    PathIsTorn(pages, Down(path, p, j), KidAt(p, j));
    IndexIsTorn(pages, KidAt(p, j));
    PairParts(Index, pages, p, i);
    PartHolds(Index, pages, Bare(p, i), i);
  }

  lemma {:induction false} Exchanged(pages: Pages, after: Pages, path: Path, child: Tree, child': Tree)
    requires child.Branch? && child'.Branch? && child'.id == child.id && child.id in pages
    requires PathRepresents(Torn, pages, path, child.id) && child.id !in PathPages(path)
    requires child.id in after && after == pages[child.id := after[child.id]] && Represents(Torn, after, child')
    ensures Represents(Torn, after, PlugAll(path, child'))
  {
    PathFrame(Torn, pages, after, path, child.id);
    PlugAllRepresents(Torn, after, path, child');
  }

  /** The tree that the nodes then stand for. */
  lemma {:induction false} LeftOverOnPages(
      pageSize: nat, pages: Pages, t: Tree, height: nat, path: Path, p: Tree, i: nat, j: nat, side: Side)
    requires Pair(pageSize, pages, t, height, path, p, i) && 0 !in pages && i == SeparatorOf(j, side)
    requires KidAt(p, j).id in pages && pages[KidAt(p, j).id].NodeBody?
    requires p.id in pages && pages[p.id].NodeBody? && i < |pages[p.id].node.cells|
    requires Takes(pageSize, pages[KidAt(p, j).id].node.cells, pages[p.id].node.cells[i].body)
    ensures Represents(Torn, Refused(pageSize, pages, p.id, i, KidAt(p, j).id, side), LeftOver(path, p, j, side))
  {
    var child, longer := KidAt(p, j), Down(path, p, j);
    var doubled := Doubled(child, side, p.entries[i].item);
    ChildApart(t, path, p, i, j);
    OnPages(pageSize, pages, t, height, path, p, i, j);
    DoubledOnPage(pages, child, side, p.entries[i].item, pages[p.id].node.cells[i]);
    Exchanged(pages, Refused(pageSize, pages, p.id, i, child.id, side), longer, child, doubled);
    DownPlugs(Index, [], path, p, j, doubled);
  }

  // ---- below it, leaves ----

  lemma {:induction false} LeafDoubled(child: Tree, side: Side, item: Item)
    requires child.Branch? && child.leaf && child.right == Nil
    ensures
      var r := Record(0, item.payload);
      Contents(Index, Doubled(child, side, item))
        == if side == ToLeft then [r] + Contents(Index, child) else Contents(Index, child) + [r]
  {
    var at := if side == ToLeft then 0 else |child.entries|;
    WithEntryContents(child, at, Entry(Nil, 0, item));
    assert child.entries[..at] + child.entries[at..] == child.entries;
    assert child.entries[..0] == [] && child.entries[|child.entries|..] == [];
    assert child.entries[0..] == child.entries && child.entries[..|child.entries|] == child.entries;
  }

  /** The record of the separator is there twice, and the others as they were. */
  lemma {:induction false} RecordTwice(
      path: Path, p: Tree, i: nat, j: nat, side: Side)
    returns (a: seq<Record>, b: seq<Record>)
    requires Neighbours(p, i) && i == SeparatorOf(j, side) && j <= |p.entries|
    requires KidAt(p, j).leaf && KidAt(p, j).right == Nil
    ensures
      var r := Record(0, p.entries[i].item.payload);
      && Contents(Index, PlugAll(path, p)) == a + [r] + b
      && Contents(Index, LeftOver(path, p, j, side)) == a + [r, r] + b
  {
    var r := Record(0, p.entries[i].item.payload);
    var child := KidAt(p, j);
    var doubled := Doubled(child, side, p.entries[i].item);
    var before, after := BeforeKid(Index, p, j), AfterKid(Index, p, j);
    LeafDoubled(child, side, p.entries[i].item);
    SplitAtEntry(p, i);
    WholeKid(Index, p, j);
    ContentsAround(Index, p, j, doubled);
    PathContents(Index, path, p);
    PathContents(Index, path, WithKid(p, j, doubled));
    var left, right := PathBefore(Index, path), PathAfter(Index, path);
    if side == ToLeft {
      a := left + (BeforeKid(Index, p, i) + Contents(Index, p.entries[i].kid));
      b := Contents(Index, child) + after + right;
      Twice(left, BeforeKid(Index, p, i) + Contents(Index, p.entries[i].kid), r, Contents(Index, child), after, right);
    } else {
      a := left + (before + Contents(Index, child));
      b := after[1..] + right;
      TwiceAfter(left, before, Contents(Index, child), r, after[1..], right);
    }
  }

  lemma {:induction false} Twice(
      left: seq<Record>, x: seq<Record>, r: Record, kid: seq<Record>, after: seq<Record>, right: seq<Record>)
    ensures left + ((x + [r]) + kid + after) + right == (left + x) + [r] + (kid + after + right)
    ensures left + ((x + [r]) + ([r] + kid) + after) + right == (left + x) + [r, r] + (kid + after + right)
  {
  }

  lemma {:induction false} TwiceAfter(
      left: seq<Record>, before: seq<Record>, kid: seq<Record>, r: Record, rest: seq<Record>, right: seq<Record>)
    ensures left + (before + kid + ([r] + rest)) + right == (left + (before + kid)) + [r] + (rest + right)
    ensures left + (before + (kid + [r]) + ([r] + rest)) + right == (left + (before + kid)) + [r, r] + (rest + right)
  {
  }

  /** The same records, with one of them twice. */
  ghost predicate OnceMore(s: seq<Record>, s': seq<Record>, r: Record) {
    exists a, b :: s == a + [r] + b && s' == a + [r, r] + b
  }

  lemma {:induction false} TwinsAreNotIncreasing(a: seq<Record>, r: Record, b: seq<Record>)
    ensures !Increasing(a + [r, r] + b)
  {
    var s := a + [r, r] + b;
    assert s[|a|] == s[|a| + 1] == r;
    CompareFlips(r.payload, r.payload);
  }

  lemma {:induction false} GapInDoubled(p: Tree, j: nat, side: Side, item: Item)
    requires p.Branch? && !p.leaf && j <= |p.entries| && KidAt(p, j).Branch? && !KidAt(p, j).leaf
    ensures HasGap(WithKid(p, j, Doubled(KidAt(p, j), side, item)))
  {
    var doubled := Doubled(KidAt(p, j), side, item);
    assert doubled.entries[if side == ToLeft then 0 else |KidAt(p, j).entries|].kid.Nil?;
    var q := WithKid(p, j, doubled);
    assert KidAt(q, j) == doubled;
    GapInKid(q, j);
  }

  // ---- the result ----

  /** Its root is where it was. */
  lemma {:induction false} SameRoot(path: Path, p: Tree, j: nat, kid: Tree)
    requires p.Branch? && j <= |p.entries|
    ensures PlugAll(path, p).Branch? && PlugAll(path, WithKid(p, j, kid)).Branch?
    ensures PlugAll(path, WithKid(p, j, kid)).id == PlugAll(path, p).id
  {
    RootOfPath(path, p);
    RootOfPath(path, WithKid(p, j, kid));
  }

  /** It is balanced above leaves. */
  lemma {:induction false} LeavesBalanced(path: Path, p: Tree, j: nat, side: Side, item: Item, height: nat)
    requires p.Branch? && j <= |p.entries| && KidAt(p, j).Branch? && KidAt(p, j).leaf
    requires Balanced(PlugAll(path, p), height)
    ensures KidAt(p, j).right == Nil
    ensures Balanced(PlugAll(path, WithKid(p, j, Doubled(KidAt(p, j), side, item))), height)
  {
    var child, longer := KidAt(p, j), Down(path, p, j);
    var doubled := Doubled(child, side, item);
    SameKid(p, j);
    DownPlugs(Index, [], path, p, j, child);
    DownPlugs(Index, [], path, p, j, doubled);
    PlugBalanced(longer, child, height);
    WithEntryBalanced(child, if side == ToLeft then 0 else |child.entries|, Entry(Nil, 0, item), height - |longer|);
    SwapUnderPath(longer, child, doubled, height);
  }

  /** Above internal nodes it has a gap. */
  lemma {:induction false} GapLeft(path: Path, p: Tree, j: nat, side: Side, item: Item, height: nat)
    requires p.Branch? && !p.leaf && j <= |p.entries| && KidAt(p, j).Branch? && !KidAt(p, j).leaf
    requires Balanced(PlugAll(path, p), height)
    ensures HasGap(PlugAll(path, WithKid(p, j, Doubled(KidAt(p, j), side, item))))
  {
    GapInDoubled(p, j, side, item);
    PathIsInner(path, p, height);
    GapUnderPath(path, WithKid(p, j, Doubled(KidAt(p, j), side, item)));
  }

  /** What is left when the parent refuses: the pages after it, and the tree that they stand for. */
  ghost predicate Refusal(
      pageSize: nat, pages: Pages, after: Pages, t: Tree, t': Tree, height: nat, path: Path, p: Tree, i: nat, j: nat,
      side: Side)
  {
    && Pair(pageSize, pages, t, height, path, p, i) && 0 !in pages && i == SeparatorOf(j, side) && j <= |p.entries|
    && KidAt(p, j).id in pages && pages[KidAt(p, j).id].NodeBody?
    && p.id in pages && pages[p.id].NodeBody? && i < |pages[p.id].node.cells|
    && Takes(pageSize, pages[KidAt(p, j).id].node.cells, pages[p.id].node.cells[i].body)
    && after == Refused(pageSize, pages, p.id, i, KidAt(p, j).id, side) && t' == LeftOver(path, p, j, side)
  }

  /** Above leaves: the records as they were, but for the separator's, which is there twice. */
  lemma {:induction false} RefusedAboveLeaves(
      pageSize: nat, pages: Pages, after: Pages, t: Tree, t': Tree, height: nat, path: Path, p: Tree, i: nat, j: nat,
      side: Side)
    requires Refusal(pageSize, pages, after, t, t', height, path, p, i, j, side) && KidAt(p, j).leaf
    ensures t.Branch? && t'.Branch? && t'.id == t.id && Represents(Index, after, t') && Balanced(t', height)
    ensures OnceMore(Contents(Index, t), Contents(Index, t'), Record(0, p.entries[i].item.payload))
    ensures !Increasing(Contents(Index, t'))
  {
    LeftOverOnPages(pageSize, pages, t, height, path, p, i, j, side);
    SameRoot(path, p, j, Doubled(KidAt(p, j), side, p.entries[i].item));
    LeavesBalanced(path, p, j, side, p.entries[i].item, height);
    var a, b := RecordTwice(path, p, i, j, side);
    TwinsAreNotIncreasing(a, Record(0, p.entries[i].item.payload), b);
    BalancedIsIndex(after, t', height);
  }

  /** Above internal nodes: no well-formed tree can be read from the root's page any more. */
  lemma {:induction false} RefusedAboveNodes(
      pageSize: nat, pages: Pages, after: Pages, t: Tree, t': Tree, height: nat, path: Path, p: Tree, i: nat, j: nat,
      side: Side, u: Tree)
    requires Refusal(pageSize, pages, after, t, t', height, path, p, i, j, side) && !KidAt(p, j).leaf
    requires t.Branch? && u.Branch? && u.id == t.id
    ensures !Represents(Index, after, u)
  {
    LeftOverOnPages(pageSize, pages, t, height, path, p, i, j, side);
    SameRoot(path, p, j, Doubled(KidAt(p, j), side, p.entries[i].item));
    GapLeft(path, p, j, side, p.entries[i].item, height);
    NoTreeWithGap(after, t', u);
  }
}
