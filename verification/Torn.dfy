/**
  Torn trees: index trees in which an internal node lacks a child. No well-formed tree can be read from the same
  pages.
*/
module Torn {
  import opened Node
  import opened Overflow
  import opened Tree
  import opened IndexTree

  /** Some internal node lacks a child. */
  ghost predicate HasGap(t: Tree)
    decreases t
  {
    && t.Branch? && !t.leaf
    && (t.right.Nil? || HasGap(t.right)
        || exists i :: 0 <= i < |t.entries| && (t.entries[i].kid.Nil? || HasGap(t.entries[i].kid)))
  }

  // ---- index trees and torn trees ----

  lemma {:induction false} IndexIsTorn(pages: Pages, t: Tree)
    requires Represents(Index, pages, t)
    ensures Represents(Torn, pages, t)
    decreases t
  {
    if t.Branch? {
      forall i | 0 <= i < |t.entries|
        ensures CellMatches(Torn, t.leaf, pages[t.id].node.cells[i], t.entries[i])
        ensures Represents(Torn, pages, t.entries[i].kid)
      {
        assert CellMatches(Index, t.leaf, pages[t.id].node.cells[i], t.entries[i]);
        IndexIsTorn(pages, t.entries[i].kid);
      }
      IndexIsTorn(pages, t.right);
    }
  }

  lemma {:induction false} PathIsTorn(pages: Pages, path: Path, t: Tree)
    requires t.Branch? && PathRepresents(Index, pages, path, t.id) && Represents(Index, pages, t)
    ensures PathRepresents(Torn, pages, path, t.id) && Represents(Torn, pages, t)
  {
    PlugAllRepresents(Index, pages, path, t);
    IndexIsTorn(pages, PlugAll(path, t));
    PlugAllRepresents(Torn, pages, path, t);
  }

  /** Without a gap, the two kinds agree. */
  lemma {:induction false} BalancedIsIndex(pages: Pages, t: Tree, height: nat)
    requires Represents(Torn, pages, t) && Balanced(t, height)
    ensures Represents(Index, pages, t)
    decreases t
  {
    if t.Branch? {
      forall i | 0 <= i < |t.entries|
        ensures CellMatches(Index, t.leaf, pages[t.id].node.cells[i], t.entries[i])
        ensures Represents(Index, pages, t.entries[i].kid)
      {
        assert CellMatches(Torn, t.leaf, pages[t.id].node.cells[i], t.entries[i]);
        BalancedIsIndex(pages, t.entries[i].kid, height - 1);
      }
      BalancedIsIndex(pages, t.right, height - 1);
    }
  }

  // ---- a gap cannot be read away ----

  lemma {:induction false} ChildIsSomewhere(pages: Pages, page: PageBody, u: Tree, i: nat)
    requires u.Branch? && !u.leaf && NodeMatches(Index, page, u) && PartsRepresented(Index, pages, u) && 0 !in pages
    requires i <= |u.entries|
    ensures KidAt(u, i).Branch? && KidAt(u, i).id != 0 && Represents(Index, pages, KidAt(u, i))
    ensures KidAt(u, i).id == if i < |u.entries| then page.node.cells[i].key else page.node.rightChild
  {
    if i < |u.entries| { assert CellMatches(Index, u.leaf, page.node.cells[i], u.entries[i]); }
  }

  /** A page whose tree has a gap is not the root of any well-formed tree. */
  lemma {:induction false} NoTreeWithGap(pages: Pages, t: Tree, u: Tree)
    requires Represents(Torn, pages, t) && HasGap(t) && 0 !in pages
    requires u.Branch? && u.id == t.id
    ensures !Represents(Index, pages, u)
    decreases t
  {
    if Represents(Index, pages, u) {
      var page := pages[t.id];
      ChildIsSomewhere(pages, page, u, |u.entries|);
      if HasGap(t.right) {
        NoTreeWithGap(pages, t.right, u.right);
      } else if t.right.Branch? {
        var i :| 0 <= i < |t.entries| && (t.entries[i].kid.Nil? || HasGap(t.entries[i].kid));
        assert CellMatches(Torn, t.leaf, page.node.cells[i], t.entries[i]);
        ChildIsSomewhere(pages, page, u, i);
        if HasGap(t.entries[i].kid) { NoTreeWithGap(pages, t.entries[i].kid, u.entries[i].kid); }
      }
    }
  }

  // ---- gaps stay ----

  lemma {:induction false} GapUnderPath(path: Path, t: Tree)
    requires HasGap(t) && forall i :: 0 <= i < |path| ==> !path[i].node.leaf
    ensures HasGap(PlugAll(path, t))
    decreases |path|
  {
    if path != [] {
      var h := path[|path| - 1];
      var p := Plug(h, t);
      assert h.at < |h.node.entries| ==> p.entries[h.at].kid == t;
      GapUnderPath(path[..|path| - 1], p);
    }
  }

  /** Halving a node with a gap leaves a gap in one half. */
  lemma {:induction false} GapInHalf(w: Tree, r: nat, left: nat, right: nat)
    requires HasGap(w) && r < |w.entries|
    ensures HasGap(LeftHalf(w, r, left)) || HasGap(RightHalf(w, r, right))
  {
    var a, b := LeftHalf(w, r, left), RightHalf(w, r, right);
    if w.right.Branch? && !HasGap(w.right) {
      var i :| 0 <= i < |w.entries| && (w.entries[i].kid.Nil? || HasGap(w.entries[i].kid));
      if i < r {
        assert a.entries[i] == w.entries[i];
      } else if i > r {
        assert b.entries[i - r - 1] == w.entries[i];
      }
    }
  }

  lemma {:induction false} GapInKid(p: Tree, i: nat)
    requires p.Branch? && !p.leaf && i <= |p.entries| && HasGap(KidAt(p, i))
    ensures HasGap(p)
  {
  }
}
