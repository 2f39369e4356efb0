/** Rotating a cell from one child through its parent to the neighbour, as values. */
module Rotation {
  import opened Node
  import opened Overflow
  import opened Tree
  import opened Order

  /** Two neighbouring children and the separator between them. */
  ghost predicate Neighbours(p: Tree, i: nat) {
    && p.Branch? && !p.leaf && i < |p.entries|
    && KidAt(p, i).Branch? && KidAt(p, i + 1).Branch? && KidAt(p, i).leaf == KidAt(p, i + 1).leaf
  }

  /** The separator replaced, and the children on both sides of it. */
  function Around(p: Tree, i: nat, separator: Entry, right: Tree): Tree
    requires p.Branch? && i < |p.entries|
  {
    WithKid(p.(entries := p.entries[i := separator]), i + 1, right)
  }

  /** The last cell of the left child goes up, and the separator goes down to the front of the right child. */
  function RotatedRight(p: Tree, i: nat): Tree
    requires Neighbours(p, i) && KidAt(p, i).entries != []
  {
    var a, b, sep := KidAt(p, i), KidAt(p, i + 1), p.entries[i];
    var last := a.entries[|a.entries| - 1];
    Around(p, i, last.(kid := a.(entries := a.entries[..|a.entries| - 1], right := last.kid)),
           b.(entries := [sep.(kid := a.right)] + b.entries))
  }

  /** The first cell of the right child goes up, and the separator goes down to the end of the left child. */
  function RotatedLeft(p: Tree, i: nat): Tree
    requires Neighbours(p, i) && KidAt(p, i + 1).entries != []
  {
    var a, b, sep := KidAt(p, i), KidAt(p, i + 1), p.entries[i];
    var first := b.entries[0];
    Around(p, i, first.(kid := a.(entries := a.entries + [sep.(kid := a.right)], right := first.kid)),
      b.(entries := b.entries[1..]))
  }

  lemma {:induction false} AroundParts(p: Tree, i: nat, separator: Entry, right: Tree)
    requires p.Branch? && i < |p.entries|
    ensures
      var q := Around(p, i, separator, right);
      && |q.entries| == |p.entries| && q.entries[i] == separator && KidAt(q, i + 1) == right
      && (forall j :: 0 <= j < |p.entries| && j != i && j != i + 1 ==> q.entries[j] == p.entries[j])
      && (i + 1 < |p.entries| ==> q.entries[i + 1] == p.entries[i + 1].(kid := right) && q.right == p.right)
      && q.id == p.id && q.leaf == p.leaf
  {
  }

  /** Rotating there and back restores the three nodes. */
  lemma {:induction false} RightThenLeft(p: Tree, i: nat)
    requires Neighbours(p, i) && KidAt(p, i).entries != []
    ensures Neighbours(RotatedRight(p, i), i) && KidAt(RotatedRight(p, i), i + 1).entries != []
    ensures RotatedLeft(RotatedRight(p, i), i) == p
  {
    var a, b, sep := KidAt(p, i), KidAt(p, i + 1), p.entries[i];
    var last := a.entries[|a.entries| - 1];
    var q := RotatedRight(p, i);
    var r := RotatedLeft(q, i);
    AroundParts(p, i, q.entries[i], KidAt(q, i + 1));
    AroundParts(q, i, r.entries[i], KidAt(r, i + 1));
    assert a.entries[..|a.entries| - 1] + [last] == a.entries;
    assert ([sep.(kid := a.right)] + b.entries)[1..] == b.entries;
    assert r.entries[i] == sep && KidAt(r, i + 1) == b;
    SameTree(p, r, i);
  }

  lemma {:induction false} LeftThenRight(p: Tree, i: nat)
    requires Neighbours(p, i) && KidAt(p, i + 1).entries != []
    ensures Neighbours(RotatedLeft(p, i), i) && KidAt(RotatedLeft(p, i), i).entries != []
    ensures RotatedRight(RotatedLeft(p, i), i) == p
  {
    var a, b, sep := KidAt(p, i), KidAt(p, i + 1), p.entries[i];
    var q := RotatedLeft(p, i);
    var r := RotatedRight(q, i);
    AroundParts(p, i, q.entries[i], KidAt(q, i + 1));
    AroundParts(q, i, r.entries[i], KidAt(r, i + 1));
    assert (a.entries + [sep.(kid := a.right)])[..|a.entries|] == a.entries;
    assert [b.entries[0]] + b.entries[1..] == b.entries;
    assert r.entries[i] == sep && KidAt(r, i + 1) == b;
    SameTree(p, r, i);
  }

  lemma {:induction false} SameTree(p: Tree, r: Tree, i: nat)
    requires p.Branch? && r.Branch? && i < |p.entries| == |r.entries| && p.id == r.id && p.leaf == r.leaf
    requires r.entries[i] == p.entries[i] && KidAt(r, i + 1) == KidAt(p, i + 1)
    requires forall j :: 0 <= j < |p.entries| && j != i && j != i + 1 ==> r.entries[j] == p.entries[j]
    requires i + 1 < |p.entries| ==> r.entries[i + 1] == p.entries[i + 1].(kid := KidAt(r, i + 1)) && r.right == p.right
    ensures r == p
  {
    assert r.entries == p.entries;
  }

  // ---- contents ----

  /** The records of two neighbours and the separator, and what is around them. */
  lemma {:induction false} ContentsOfPair(kind: Kind, p: Tree, i: nat)
    requires p.Branch? && i < |p.entries|
    ensures Contents(kind, p) ==
      EntryContents(kind, p.leaf, p.entries[..i])
      + (Contents(kind, KidAt(p, i)) + Own(kind, p.leaf, p.entries[i]) + Contents(kind, KidAt(p, i + 1)))
      + AfterKid(kind, p, i + 1)
  {
    var rest := p.entries[i + 1..];
    WholeKid(kind, p, i);
    if rest != [] {
      assert rest[0] == p.entries[i + 1] && rest[1..] == p.entries[i + 2..];
      Shift5(EntryContents(kind, p.leaf, p.entries[..i]), Contents(kind, p.entries[i].kid),
        Own(kind, p.leaf, p.entries[i]),
             Contents(kind, rest[0].kid), Own(kind, p.leaf, rest[0]), EntryContents(kind, p.leaf, rest[1..]),
             Contents(kind, p.right));
    } else {
      Shift6(EntryContents(kind, p.leaf, p.entries[..i]), Contents(kind, p.entries[i].kid),
             Own(kind, p.leaf, p.entries[i]), Contents(kind, p.right));
    }
  }

  lemma {:induction false} Shift5<T>(a: seq<T>, b: seq<T>, c: seq<T>, d: seq<T>, e: seq<T>, f: seq<T>, g: seq<T>)
    ensures a + b + (c + (d + e + f) + g) == a + (b + c + d) + (e + f + g)
  {
  }

  lemma {:induction false} Shift6<T>(a: seq<T>, b: seq<T>, c: seq<T>, d: seq<T>)
    ensures a + b + (c + [] + d) == a + (b + c + d) + []
  {
  }

  /**
    The pair, seen through the cell that goes over: the records left of it, the cell, the child between, the
    separator, the rest.
  */
  lemma {:induction false} PairRight(kind: Kind, a: Tree, b: Tree, sep: Entry)
    requires a.Branch? && b.Branch? && a.entries != [] && (kind == Index || (!a.leaf && !b.leaf))
    ensures
      var last := a.entries[|a.entries| - 1];
      var a' := a.(entries := a.entries[..|a.entries| - 1], right := last.kid);
      var b' := b.(entries := [sep.(kid := a.right)] + b.entries);
      Contents(kind, a') + Own(kind, false, last) + Contents(kind, b')
        == Contents(kind, a) + Own(kind, false, sep) + Contents(kind, b)
  {
    var last := a.entries[|a.entries| - 1];
    var front := a.entries[..|a.entries| - 1];
    assert front + [last] == a.entries;
    EntryContentsConcat(kind, a.leaf, front, [last]);
    EntryContentsSingle(kind, a.leaf, last);
    var lowered := sep.(kid := a.right);
    EntryContentsConcat(kind, b.leaf, [lowered], b.entries);
    EntryContentsSingle(kind, b.leaf, lowered);
    Shift7(EntryContents(kind, a.leaf, front), Contents(kind, last.kid), Own(kind, false, last),
      Contents(kind, a.right),
           Own(kind, false, sep), EntryContents(kind, b.leaf, b.entries), Contents(kind, b.right));
  }

  lemma {:induction false} Shift7<T>(a: seq<T>, b: seq<T>, c: seq<T>, d: seq<T>, e: seq<T>, f: seq<T>, g: seq<T>)
    ensures (a + b) + c + (((d + e) + f) + g) == ((a + (b + c)) + d) + e + (f + g)
  {
  }

  /** A rotation right changes nothing that a reader of the tree sees. */
  lemma {:induction false} RightKeepsContents(kind: Kind, p: Tree, i: nat)
    requires Neighbours(p, i) && KidAt(p, i).entries != [] && (kind == Index || !KidAt(p, i).leaf)
    ensures Contents(kind, RotatedRight(p, i)) == Contents(kind, p)
  {
    var q := RotatedRight(p, i);
    AroundParts(p, i, q.entries[i], KidAt(q, i + 1));
    ContentsOfPair(kind, p, i);
    ContentsOfPair(kind, q, i);
    PairRight(kind, KidAt(p, i), KidAt(p, i + 1), p.entries[i]);
    OutsidePair(kind, p, q, i);
  }

  lemma {:induction false} OutsidePair(kind: Kind, p: Tree, q: Tree, i: nat)
    requires p.Branch? && q.Branch? && i < |p.entries| == |q.entries| && p.leaf == q.leaf
    requires forall j :: 0 <= j < |p.entries| && j != i && j != i + 1 ==> q.entries[j] == p.entries[j]
    requires i + 1 < |p.entries| ==> q.entries[i + 1] == p.entries[i + 1].(kid := KidAt(q, i + 1)) && q.right == p.right
    ensures q.entries[..i] == p.entries[..i] && AfterKid(kind, q, i + 1) == AfterKid(kind, p, i + 1)
  {
    if i + 1 < |p.entries| { assert q.entries[i + 2..] == p.entries[i + 2..]; }
  }

  lemma {:induction false} LeftKeepsContents(kind: Kind, p: Tree, i: nat)
    requires Neighbours(p, i) && KidAt(p, i + 1).entries != [] && (kind == Index || !KidAt(p, i).leaf)
    ensures Contents(kind, RotatedLeft(p, i)) == Contents(kind, p)
  {
    LeftThenRight(p, i);
    RightKeepsContents(kind, RotatedLeft(p, i), i);
  }

  // ---- shape and pages ----

  lemma {:induction false} RightBalanced(p: Tree, i: nat, height: nat)
    requires Neighbours(p, i) && KidAt(p, i).entries != [] && Balanced(p, height)
    ensures Balanced(RotatedRight(p, i), height)
  {
    var q := RotatedRight(p, i);
    var a, b := KidAt(p, i), KidAt(p, i + 1);
    AroundParts(p, i, q.entries[i], KidAt(q, i + 1));
    GiverBalanced(a, height - 1);
    TakerBalanced(b, p.entries[i].(kid := a.right), height - 1);
  }

  lemma {:induction false} GiverBalanced(a: Tree, height: nat)
    requires a.Branch? && a.entries != [] && Balanced(a, height)
    ensures
      var last := a.entries[|a.entries| - 1];
      Balanced(a.(entries := a.entries[..|a.entries| - 1], right := last.kid), height)
  {
  }

  lemma {:induction false} TakerBalanced(b: Tree, e: Entry, height: nat)
    requires b.Branch? && Balanced(b, height) && Balanced(e.kid, height - 1)
    ensures Balanced(b.(entries := [e] + b.entries), height)
  {
  }

  lemma {:induction false} LeftBalanced(p: Tree, i: nat, height: nat)
    requires Neighbours(p, i) && KidAt(p, i + 1).entries != [] && Balanced(p, height)
    ensures Balanced(RotatedLeft(p, i), height)
  {
    var q := RotatedLeft(p, i);
    var a, b := KidAt(p, i), KidAt(p, i + 1);
    AroundParts(p, i, q.entries[i], KidAt(q, i + 1));
    EndBalanced(a, p.entries[i].(kid := a.right), b.entries[0].kid, height - 1);
  }

  lemma {:induction false} EndBalanced(a: Tree, e: Entry, right: Tree, height: nat)
    requires a.Branch? && Balanced(a, height) && Balanced(e.kid, height - 1) && Balanced(right, height - 1)
    ensures Balanced(a.(entries := a.entries + [e], right := right), height)
  {
  }

  /** The node without its two children. */
  function Bare(p: Tree, i: nat): Tree
    requires p.Branch? && i < |p.entries|
  {
    WithKid(WithKid(p, i, Nil), i + 1, Nil)
  }

  lemma {:induction false} PairPages(p: Tree, i: nat)
    requires p.Branch? && i < |p.entries|
    ensures TreePages(p) == TreePages(Bare(p, i)) + TreePages(KidAt(p, i)) + TreePages(KidAt(p, i + 1))
    ensures Bare(p, i).Branch? && Bare(p, i).id == p.id
  {
    var open := WithKid(p, i, Nil);
    SameKid(p, i);
    PagesAround(p, i, KidAt(p, i));
    assert KidAt(open, i + 1) == KidAt(p, i + 1);
    SameKid(open, i + 1);
    PagesAround(open, i + 1, KidAt(open, i + 1));
  }

  /** Swapping the item of the separator swaps its pages. */
  lemma {:induction false} BarePages(p: Tree, q: Tree, i: nat)
    requires p.Branch? && q.Branch? && i < |p.entries| == |q.entries| && p.id == q.id
    requires forall j :: 0 <= j < |p.entries| && j != i && j != i + 1 ==> q.entries[j] == p.entries[j]
    requires i + 1 < |p.entries| ==> q.entries[i + 1] == p.entries[i + 1].(kid := KidAt(q, i + 1)) && q.right == p.right
    ensures TreePages(Bare(q, i)) + ItemPages(p.entries[i].item) == TreePages(Bare(p, i)) + ItemPages(q.entries[i].item)
  {
    var x, y := Bare(p, i), Bare(q, i);
    BareSame(p, q, i);
    EntryPagesAt(x.entries, i);
    EntryPagesAt(y.entries, i);
    Swapped(multiset{p.id}, EntryPages(x.entries[..i]), ItemPages(p.entries[i].item), ItemPages(q.entries[i].item),
            EntryPages(x.entries[i + 1..]), TreePages(x.right));
  }

  lemma {:induction false} BareSame(p: Tree, q: Tree, i: nat)
    requires p.Branch? && q.Branch? && i < |p.entries| == |q.entries|
    requires forall j :: 0 <= j < |p.entries| && j != i && j != i + 1 ==> q.entries[j] == p.entries[j]
    requires i + 1 < |p.entries| ==> q.entries[i + 1] == p.entries[i + 1].(kid := KidAt(q, i + 1)) && q.right == p.right
    ensures
      var x, y := Bare(p, i), Bare(q, i);
      && x.Branch? && y.Branch? && |x.entries| == |y.entries| == |p.entries|
      && x.entries[..i] == y.entries[..i] && x.entries[i + 1..] == y.entries[i + 1..] && x.right == y.right
      && x.entries[i] == p.entries[i].(kid := Nil) && y.entries[i] == q.entries[i].(kid := Nil)
      && x.id == p.id && y.id == q.id && x.leaf == p.leaf && y.leaf == q.leaf
  {
  }

  lemma {:induction false} Swapped<T>(
      a: multiset<T>, b: multiset<T>, x: multiset<T>, y: multiset<T>, c: multiset<T>, d: multiset<T>)
    ensures (a + (b + multiset{} + y + c) + d) + x == (a + (b + multiset{} + x + c) + d) + y
  {
  }

  lemma {:induction false} RightKeepsPages(p: Tree, i: nat)
    requires Neighbours(p, i) && KidAt(p, i).entries != []
    ensures TreePages(RotatedRight(p, i)) == TreePages(p)
  {
    var q := RotatedRight(p, i);
    var a, b, sep := KidAt(p, i), KidAt(p, i + 1), p.entries[i];
    AroundParts(p, i, q.entries[i], KidAt(q, i + 1));
    PairPages(p, i);
    PairPages(q, i);
    BarePages(p, q, i);
    GiverPages(a);
    TakerPages(b, sep.(kid := a.right));
    Balance(TreePages(q), TreePages(p), TreePages(Bare(q, i)), TreePages(Bare(p, i)), TreePages(a),
      TreePages(KidAt(q, i)),
            TreePages(b), TreePages(KidAt(q, i + 1)), ItemPages(sep.item), ItemPages(q.entries[i].item),
            TreePages(a.right));
  }

  lemma {:induction false} GiverPages(a: Tree)
    requires a.Branch? && a.entries != []
    ensures
      var last := a.entries[|a.entries| - 1];
      TreePages(a) == TreePages(a.(entries := a.entries[..|a.entries| - 1], right := last.kid)) + ItemPages(last.item)
        + TreePages(a.right)
  {
    var n := |a.entries| - 1;
    EntryPagesAt(a.entries, n);
    assert a.entries[n + 1..] == [];
  }

  lemma {:induction false} TakerPages(b: Tree, e: Entry)
    requires b.Branch?
    ensures TreePages(b.(entries := [e] + b.entries)) == TreePages(b) + TreePages(e.kid) + ItemPages(e.item)
  {
    assert ([e] + b.entries)[1..] == b.entries;
  }

  lemma {:induction false} Balance<T>(
      q: multiset<T>, p: multiset<T>, bareQ: multiset<T>, bareP: multiset<T>, a: multiset<T>, a': multiset<T>,
      b: multiset<T>, b': multiset<T>, sep: multiset<T>, last: multiset<T>, mid: multiset<T>)
    requires q == bareQ + a' + b' && p == bareP + a + b
    requires bareQ + sep == bareP + last && a == a' + last + mid && b' == b + mid + sep
    ensures q == p
  {
    forall x ensures q[x] == p[x] { assert (bareQ + sep)[x] == (bareP + last)[x]; }
  }

  lemma {:induction false} LeftKeepsPages(p: Tree, i: nat)
    requires Neighbours(p, i) && KidAt(p, i + 1).entries != []
    ensures TreePages(RotatedLeft(p, i)) == TreePages(p)
  {
    LeftThenRight(p, i);
    RightKeepsPages(RotatedLeft(p, i), i);
  }

  // ---- what the pages must hold ----

  /** `q` is `p` with another separator and other versions of the two children beside it. */
  ghost predicate SameBut(p: Tree, q: Tree, i: nat) {
    && p.Branch? && q.Branch? && i < |p.entries| == |q.entries| && p.id == q.id && p.leaf == q.leaf
    && (forall j :: 0 <= j < |p.entries| && j != i && j != i + 1 ==> q.entries[j] == p.entries[j])
    && (i + 1 < |p.entries| ==> q.entries[i + 1] == p.entries[i + 1].(kid := KidAt(q, i + 1)) && q.right == p.right)
    && KidAt(p, i).Branch? && KidAt(q, i).Branch? && KidAt(q, i).id == KidAt(p, i).id
    && KidAt(p, i + 1).Branch? && KidAt(q, i + 1).Branch? && KidAt(q, i + 1).id == KidAt(p, i + 1).id
  }

  lemma {:induction false} RotatedSameBut(p: Tree, i: nat)
    requires Neighbours(p, i)
    ensures KidAt(p, i).entries != [] ==> SameBut(p, RotatedRight(p, i), i)
    ensures KidAt(p, i + 1).entries != [] ==> SameBut(p, RotatedLeft(p, i), i)
  {
    if KidAt(p, i).entries != [] {
      var q := RotatedRight(p, i);
      AroundParts(p, i, q.entries[i], KidAt(q, i + 1));
    }
    if KidAt(p, i + 1).entries != [] {
      var q := RotatedLeft(p, i);
      AroundParts(p, i, q.entries[i], KidAt(q, i + 1));
    }
  }

  lemma {:induction false} BareRepresented(kind: Kind, pages: Pages, p: Tree, i: nat)
    requires p.Branch? && i < |p.entries| && PartsRepresented(kind, pages, p)
    ensures PartsRepresented(kind, pages, Bare(p, i))
  {
    var x := Bare(p, i);
    assert forall j :: 0 <= j < |x.entries| ==>
      x.entries[j].item == p.entries[j].item && (x.entries[j].kid == p.entries[j].kid || x.entries[j].kid.Nil?);
  }

  lemma {:induction false} PairRepresented(kind: Kind, after: Pages, p: Tree, q: Tree, i: nat)
    requires SameBut(p, q, i) && PartsRepresented(kind, after, Bare(p, i))
    requires Represents(kind, after, KidAt(q, i)) && Represents(kind, after, KidAt(q, i + 1))
    requires Holds(after, q.entries[i].item)
    requires p.id in after && NodeMatches(kind, after[p.id], q)
    ensures Represents(kind, after, q)
  {
    var x := Bare(p, i);
    assert i + 1 == |p.entries| ==> KidAt(q, i + 1) == q.right;
    forall j | 0 <= j < |q.entries| ensures Holds(after, q.entries[j].item)
      && Represents(kind, after, q.entries[j].kid) {
      assert Holds(after, x.entries[j].item) && Represents(kind, after, x.entries[j].kid);
      if j != i && j != i + 1 { assert x.entries[j] == q.entries[j]; }
    }
    if i + 1 < |p.entries| { assert x.right == q.right; }
  }

  /** The page of the parent, with the new separator in slot `i`. */
  lemma {:induction false} SeparatorMatches(kind: Kind, page: PageBody, p: Tree, q: Tree, i: nat, cell: Cell)
    requires SameBut(p, q, i) && !p.leaf && NodeMatches(kind, page, p) && CellMatches(kind, false, cell, q.entries[i])
    ensures NodeMatches(kind, NodeBody(page.node.(cells := page.node.cells[i := cell])), q)
  {
    var cells := page.node.cells[i := cell];
    forall j | 0 <= j < |q.entries| ensures CellMatches(kind, false, cells[j], q.entries[j]) {
      if j != i { assert CellMatches(kind, false, page.node.cells[j], p.entries[j]); }
    }
  }

  ghost predicate Avoids(on: multiset<nat>, p: nat, a: nat, b: nat) { p !in on && a !in on && b !in on }

  /** The pages of the pair and the parent are used once. */
  lemma {:induction false} PairApart(p: Tree, i: nat)
    requires Neighbours(p, i) && Unshared(TreePages(p))
    ensures
      var a, b, x := KidAt(p, i), KidAt(p, i + 1), Bare(p, i);
      && p.id != a.id && p.id != b.id && a.id != b.id && x.Branch?
      && Avoids(PartPages(x), p.id, a.id, b.id) && Avoids(PartPages(a), p.id, a.id, b.id)
      && Avoids(PartPages(b), p.id, a.id, b.id)
      && a.id in TreePages(p) && b.id in TreePages(p)
  {
    PairPages(p, i);
    OwnAndParts(Bare(p, i));
    OwnAndParts(KidAt(p, i));
    OwnAndParts(KidAt(p, i + 1));
    ApartCount(TreePages(p), p.id, PartPages(Bare(p, i)), KidAt(p, i).id, PartPages(KidAt(p, i)), KidAt(p, i + 1).id,
               PartPages(KidAt(p, i + 1)));
  }

  lemma {:induction false} OwnAndParts(t: Tree)
    requires t.Branch?
    ensures TreePages(t) == multiset{t.id} + PartPages(t)
  {
  }

  lemma {:induction false} ApartCount(
      all: multiset<nat>, p: nat, x: multiset<nat>, a: nat, xa: multiset<nat>, b: nat, xb: multiset<nat>)
    requires Unshared(all)
    requires all == (multiset{p} + x) + (multiset{a} + xa) + (multiset{b} + xb)
    ensures p != a && p != b && a != b
    ensures Avoids(x, p, a, b) && Avoids(xa, p, a, b) && Avoids(xb, p, a, b)
    ensures a in all && b in all
  {
    assert all[p] <= 1 && all[a] <= 1 && all[b] <= 1;
  }

  /** Only the pages of the parent and the pair have changed. */
  ghost predicate ThreeChanged(pages: Pages, after: Pages, p: nat, a: nat, b: nat) {
    && p in pages && a in pages && b in pages && after.Keys == pages.Keys
    && forall id :: id in pages && id != p && id != a && id != b ==> after[id] == pages[id]
  }

  lemma {:induction false} SameOn(pages: Pages, after: Pages, p: nat, a: nat, b: nat, on: multiset<nat>)
    requires ThreeChanged(pages, after, p, a, b) && Avoids(on, p, a, b)
    ensures SamePages(pages, after, on)
  {
  }

  lemma {:induction false} PairParts(kind: Kind, pages: Pages, p: Tree, i: nat)
    requires Neighbours(p, i) && Represents(kind, pages, p)
    ensures Bare(p, i).Branch? && i < |Bare(p, i).entries| && Bare(p, i).entries[i].item == p.entries[i].item
    ensures PartsRepresented(kind, pages, Bare(p, i))
    ensures PartsRepresented(kind, pages, KidAt(p, i)) && PartsRepresented(kind, pages, KidAt(p, i + 1))
  {
    BareRepresented(kind, pages, p, i);
  }

  /** What is below the pair and beside it is where it was. */
  lemma {:induction false} PairFrame(kind: Kind, pages: Pages, after: Pages, p: Tree, i: nat)
    requires Neighbours(p, i) && Unshared(TreePages(p)) && Represents(kind, pages, p)
    requires ThreeChanged(pages, after, p.id, KidAt(p, i).id, KidAt(p, i + 1).id)
    ensures PartsRepresented(kind, after, Bare(p, i))
    ensures PartsRepresented(kind, after, KidAt(p, i)) && PartsRepresented(kind, after, KidAt(p, i + 1))
    ensures Holds(after, p.entries[i].item)
    ensures Outside(pages, after, TreePages(p))
  {
    var a, b, bare := KidAt(p, i), KidAt(p, i + 1), Bare(p, i);
    PairParts(kind, pages, p, i);
    PairApart(p, i);
    SameOn(pages, after, p.id, a.id, b.id, PartPages(bare));
    SameOn(pages, after, p.id, a.id, b.id, PartPages(a));
    SameOn(pages, after, p.id, a.id, b.id, PartPages(b));
    PartsFrame(kind, pages, after, bare);
    PartHolds(kind, after, bare, i);
    PartsFrame(kind, pages, after, a);
    PartsFrame(kind, pages, after, b);
  }

  lemma {:induction false} PartHolds(kind: Kind, pages: Pages, t: Tree, i: nat)
    requires t.Branch? && i < |t.entries| && PartsRepresented(kind, pages, t)
    ensures Holds(pages, t.entries[i].item)
  {
  }
}