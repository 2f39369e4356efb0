/**
  Page allocation (src/pager.c) and the free list (src/pager_freelist.c).
  Free pages form a list threaded through the page metadata; page 1 holds its head.
*/
module Pager {
  import opened PageCache
  import opened PagerInternal

  /** A page as the disk stores it: the metadata of src/pagemeta.c, then the content. */
  datatype Image<C> = Image(isFree: bool, nextFree: nat, pageNumber: nat, data: C)

  type Disk<C> = map<nat, Image<C>>

  /** A page buffer; id 0 asks for a new page when the buffer is written. */
  class Page<C> {
    var pageId: nat
    var image: Image<C>

    constructor (blank: C)
      ensures pageId == 0 && image == Image(true, 0, 0, blank)
    {
      pageId := 0;
      image := Image(true, 0, 0, blank);
    }
  }

  function Head(free: seq<nat>): nat { if free == [] then 0 else free[0] }

  /** The members of a list of page ids. */
  function Ids(s: seq<nat>): set<nat> {
    if s == [] then {} else {s[0]} + Ids(s[1..])
  }

  ghost predicate Distinct(s: seq<nat>) {
    s != [] ==> s[0] !in Ids(s[1..]) && Distinct(s[1..])
  }

  /** Each free page names the next one; the last names page 0. */
  ghost predicate Linked<C>(disk: Disk<C>, free: seq<nat>) {
    free != [] ==>
      && free[0] in disk && disk[free[0]].isFree && disk[free[0]].nextFree == Head(free[1..])
      && Linked(disk, free[1..])
  }

  /**
    The pages of the file are in use, free or (between two steps of one operation) in limbo, and never two of these.
  */
  ghost predicate Partition<C>(disk: Disk<C>, maxPage: nat, contents: map<nat, C>, free: seq<nat>, limbo: set<nat>) {
    && (forall id :: id in disk <==> 1 <= id <= maxPage)
    && disk.Keys == contents.Keys + Ids(free) + limbo
    && contents.Keys !! Ids(free) !! limbo
    && Distinct(free)
    && (forall id :: id in contents ==> !disk[id].isFree && disk[id].data == contents[id])
    && (maxPage == 0 ==> free == [])
    && (maxPage != 0 ==> 1 in contents && disk[1].nextFree == Head(free) && Linked(disk, free))
  }

  lemma {:induction false} LinkedFrame<C>(disk: Disk<C>, disk': Disk<C>, free: seq<nat>)
    requires Linked(disk, free)
    requires forall id :: id in Ids(free) ==> id in disk ==> id in disk' && disk'[id] == disk[id]
    ensures Linked(disk', free)
  {
    if free != [] { LinkedFrame(disk, disk', free[1..]); }
  }

  lemma {:induction false} PopKeepsPartition<C>(disk: Disk<C>, maxPage: nat, contents: map<nat, C>, free: seq<nat>)
    requires Partition(disk, maxPage, contents, free, {}) && free != []
    ensures
      var root := disk[1].(nextFree := disk[free[0]].nextFree);
      Partition(disk[1 := root], maxPage, contents, free[1..], {free[0]})
  {
    var disk' := disk[1 := disk[1].(nextFree := disk[free[0]].nextFree)];
    LinkedFrame(disk, disk', free[1..]);
    assert disk'.Keys == disk.Keys;
  }

  lemma {:induction false} PushKeepsPartition<C>(
      disk: Disk<C>, maxPage: nat, contents: map<nat, C>, free: seq<nat>, id: nat, image: Image<C>)
    requires Partition(disk, maxPage, contents, free, {}) && id in contents && id != 1
    requires image.isFree && image.nextFree == Head(free)
    ensures Partition(disk[1 := disk[1].(nextFree := id)][id := image], maxPage, contents - {id}, [id] + free, {})
  {
    var disk' := disk[1 := disk[1].(nextFree := id)][id := image];
    LinkedFrame(disk, disk', free);
    assert ([id] + free)[1..] == free;
    assert disk'.Keys == disk.Keys;
  }

  lemma {:induction false} WriteKeepsPartition<C>(
      disk: Disk<C>, maxPage: nat, contents: map<nat, C>, free: seq<nat>, limbo: set<nat>, id: nat, image: Image<C>)
    requires Partition(disk, maxPage, contents, free, limbo)
    requires id in contents || id in limbo || id == maxPage + 1
    requires id == 1 ==> image.nextFree == Head(free)
    requires !image.isFree
    ensures Partition(disk[id := image], if id > maxPage then id
      else maxPage, contents[id := image.data], free, limbo - {id})
  {
    var disk' := disk[id := image];
    assert maxPage + 1 !in disk;
    LinkedFrame(disk, disk', free);
    assert disk'.Keys == contents[id := image.data].Keys + Ids(free) + (limbo - {id});
  }

  /** `free'` accounts for every page not in use once page 1 has been rewritten with `image`. */
  ghost predicate IsFreeListAfter<C>(
      disk: Disk<C>, maxPage: nat, contents: map<nat, C>, image: Image<C>, free': seq<nat>)
  {
    Partition(disk[1 := image], maxPage, contents[1 := image.data], free', {})
  }

  /**
    Rewriting page 1 from a buffer is the one rewrite that can damage the free list:
    the file still has a free list that accounts for every page if and only if the buffer carries the current head.
  */
  lemma {:induction false} RootRewriteIsSafeIff<C>(
      disk: Disk<C>, maxPage: nat, contents: map<nat, C>, free: seq<nat>, image: Image<C>)
    requires Partition(disk, maxPage, contents, free, {}) && maxPage != 0 && !image.isFree
    ensures
      (exists free' :: IsFreeListAfter(disk, maxPage, contents, image, free'))
      <==> image.nextFree == disk[1].nextFree
  {
    if image.nextFree == disk[1].nextFree {
      WriteKeepsPartition(disk, maxPage, contents, free, {}, 1, image);
      assert {} - {1} == {};
      assert IsFreeListAfter(disk, maxPage, contents, image, free);
    }
    if free' :| IsFreeListAfter(disk, maxPage, contents, image, free') {
      var disk' := disk[1 := image];
      assert Ids(free') == Ids(free) by {
        assert disk'.Keys == disk.Keys && contents[1 := image.data].Keys == contents.Keys;
        assert Ids(free') == disk'.Keys - contents.Keys;
        assert Ids(free) == disk.Keys - contents.Keys;
      }
      if free != [] {
        assert free[0] in Ids(free');
        HeadHasNoPredecessor(disk, free);
        LinkedFrame(disk, disk', free);
        FirstIsTheOneWithoutPredecessor(disk', free', free[0]);
      } else {
        assert Ids(free) == {};
        assert free' == [];
      }
    }
  }

  /** No page of the list links to the head. */
  lemma {:induction false} HeadHasNoPredecessor<C>(disk: Disk<C>, free: seq<nat>)
    requires Linked(disk, free) && Distinct(free) && free != [] && free[0] != 0
    ensures forall id :: id in Ids(free) ==> id in disk && disk[id].nextFree != free[0]
  {
    LinksStayInside(disk, free);
  }

  lemma {:induction false} LinksStayInside<C>(disk: Disk<C>, free: seq<nat>)
    requires Linked(disk, free)
    ensures free != [] ==> forall id :: id in Ids(free) ==>
      id in disk && (disk[id].nextFree == 0 || disk[id].nextFree in Ids(free[1..]))
  {
    if free != [] {
      LinksStayInside(disk, free[1..]);
      assert free[1..] != [] ==> forall id :: id in Ids(free[1..][1..]) ==> id in Ids(free[1..]);
    }
  }

  lemma {:induction false} FirstIsTheOneWithoutPredecessor<C>(disk: Disk<C>, free: seq<nat>, id: nat)
    requires Linked(disk, free) && id in Ids(free)
    requires forall p :: p in Ids(free) ==> p in disk && disk[p].nextFree != id
    ensures free[0] == id
  {
    if free[0] != id {
      FirstIsTheOneWithoutPredecessor(disk, free[1..], id);
      assert false;
    }
  }

  class Pager<C> {
    const io: CachedFile<Image<C>>
    const pageSize: nat
    const blank: C
    /** What the pages in use hold, and the free pages from the head of the list on. */
    ghost var contents: map<nat, C>
    ghost var free: seq<nat>
    ghost const Repr: set<object>
    ghost const seal: nat

    ghost predicate Owns(limbo: set<nat>)
      reads this, Repr
    {
      && this in Repr && io in Repr && io.Repr <= Repr && this !in io.Repr
      && io.Valid()
      && Partition(io.disk, io.maxPage, contents, free, limbo)
    }

    /** Owns, behind a countdown: the proofs of clients see that it holds but do not unfold it. */
    ghost predicate Sealed(limbo: set<nat>, steps: nat)
      reads this, Repr
      decreases steps
    {
      if steps == 0 then Owns(limbo) else Sealed(limbo, steps - 1)
    }

    lemma {:induction false} Unseal(limbo: set<nat>, steps: nat)
      ensures Sealed(limbo, steps) <==> Owns(limbo)
      decreases steps
    {
      if steps > 0 { Unseal(limbo, steps - 1); }
    }

    ghost predicate Valid()
      reads this, Repr
    {
      seal > 2 && Sealed({}, seal)
    }

    lemma {:induction false} NoPageZero()
      requires Valid()
      ensures 0 !in contents && 0 !in Ids(free)
    {
      Unseal({}, seal);
      assert 0 !in io.disk;
    }

    constructor (cacheCapacity: nat, pageSize: nat, blank: C)
      requires cacheCapacity > 0
      ensures Valid() && fresh(Repr) && contents == map[] && free == []
      ensures this.pageSize == pageSize && this.blank == blank
    {
      var io := new CachedFile<Image<C>>(cacheCapacity);
      this.io := io;
      this.pageSize := pageSize;
      this.blank := blank;
      contents, free := map[], [];
      Repr := {this} + io.Repr;
      seal := 3;
      new;
      Unseal({}, 3);
    }

    method ReadPage(pageId: nat, page: Page<C>) returns (ok: bool)
      requires Valid() && page !in Repr && pageId != 0
      modifies Repr, page
      ensures Valid() && contents == old(contents) && free == old(free)
      ensures page.pageId == pageId
      ensures ok <==> pageId in contents || pageId in Ids(free)
      ensures ok && pageId in contents ==> page.image.data == contents[pageId]
      ensures ok && pageId == 1 ==> page.image.nextFree == Head(free)
      ensures !ok ==> page.image == old(page.image)
    {
      Unseal({}, seal);
      var image := io.CachedRead(pageId);
      if image.Some? {
        page.image := image.value;
      }
      page.pageId := pageId;
      ok := image.Some?;
      Unseal({}, seal);
    }

    /** Takes the first page off the free list. */
    method FreelistPop() returns (id: Option<nat>)
      requires Owns({}) && io.maxPage != 0
      modifies Repr
      ensures contents == old(contents) && io.maxPage == old(io.maxPage)
      ensures old(free) == [] ==> id.None? && Owns({}) && free == []
      ensures old(free) != [] ==> id == Some(old(free[0])) && Owns({old(free[0])}) && free == old(free[1..])
    {
      var root := io.CachedRead(1);
      if root.value.nextFree == 0 {
        return None;
      }
      var head := root.value.nextFree;
      assert free != [] && head == free[0] && head in io.disk;
      var next := io.CachedRead(head);
      PopKeepsPartition(io.disk, io.maxPage, contents, free);
      io.CachedWrite(1, root.value.(nextFree := next.value.nextFree));
      free := free[1..];
      id := Some(head);
    }

    /** Gives a buffer without an id a page that is not in use: the head of the free list, or a new last page. */
    method DiskPage(page: Page<C>)
      requires Owns({}) && page !in Repr && page.pageId == 0
      modifies Repr, page
      ensures contents == old(contents) && page.pageId !in contents && page.pageId != 0
      ensures page.image == Image(false, 0, page.pageId, old(page.image.data))
      ensures old(free) == [] ==> Owns({}) && free == [] && page.pageId == io.maxPage + 1
      ensures old(free) != [] ==> Owns({page.pageId}) && free == old(free[1..]) && page.pageId == old(free[0])
    {
      assert contents.Keys <= io.disk.Keys;
      if io.maxPage == 0 {
        page.pageId := 1;
      } else {
        var id := FreelistPop();
        page.pageId := if id.Some? then id.value else io.maxPage + 1;
      }
      page.image := Image(false, 0, page.pageId, page.image.data);
    }

    /** Marks a page in use and writes it. */
    method PersistInUse(page: Page<C>, ghost limbo: set<nat>)
      requires Owns(limbo) && limbo <= {page.pageId} && page !in Repr
      requires page.pageId in contents || page.pageId in limbo || page.pageId == io.maxPage + 1
      requires page.pageId == 1 ==> page.image.nextFree == Head(free)
      modifies Repr, page
      ensures Owns({}) && free == old(free) && page.pageId == old(page.pageId)
      ensures page.image == old(page.image).(isFree := false, pageNumber := page.pageId)
      ensures contents == old(contents)[page.pageId := page.image.data]
    {
      page.image := page.image.(isFree := false, pageNumber := page.pageId);
      WriteKeepsPartition(io.disk, io.maxPage, contents, free, limbo, page.pageId, page.image);
      assert limbo - {page.pageId} == {};
      io.CachedWrite(page.pageId, page.image);
      contents := contents[page.pageId := page.image.data];
    }

    /** Writes a buffer; a buffer without an id first gets a page that is not in use. */
    method WritePage(page: Page<C>)
      requires Valid() && page !in Repr
      requires page.pageId == 0 || page.pageId in contents || page.pageId == io.maxPage + 1
      requires page.pageId == 1 ==> page.image.nextFree == Head(free)
      modifies Repr, page
      ensures Valid()
      ensures old(page.pageId) != 0 ==> page.pageId == old(page.pageId) && free == old(free)
      ensures old(page.pageId) == 0 ==> page.pageId != 0 && page.pageId !in old(contents)
      ensures old(page.pageId) == 0 && old(free) != [] ==> page.pageId == old(free[0]) && free == old(free[1..])
      ensures old(page.pageId) == 0 && old(free) == [] ==> free == []
      ensures page.image.data == old(page.image.data)
      ensures contents == old(contents)[page.pageId := page.image.data]
      ensures page.pageId == 1 ==> page.image.nextFree == Head(free)
    {
      Unseal({}, seal);
      ghost var limbo := {};
      if page.pageId == 0 {
        DiskPage(page);
        limbo := if old(free) != [] then {page.pageId} else {};
      }
      PersistInUse(page, limbo);
      Unseal({}, seal);
    }

    /** pager_extend: a new last page, whatever is on the free list. */
    method Extend() returns (pageId: nat)
      requires Valid()
      modifies Repr
      ensures Valid() && free == old(free)
      ensures pageId != 0 && pageId !in old(contents) && pageId !in Ids(free)
      ensures contents == old(contents)[pageId := blank]
    {
      Unseal({}, seal);
      assert contents.Keys <= io.disk.Keys;
      assert io.maxPage == 0 ==> io.disk == map[];
      var page := new Page<C>(blank);
      page.pageId := io.maxPage + 1;
      pageId := page.pageId;
      WritePage(page);
    }

    /** Puts a page in use, given by its buffer, at the head of the free list. */
    method FreelistPushPage(page: Page<C>)
      requires Valid() && page !in Repr
      requires page.pageId in contents && page.pageId != 1
      modifies Repr, page
      ensures Valid()
      ensures contents == old(contents) - {page.pageId} && free == [page.pageId] + old(free)
      ensures page.pageId == old(page.pageId)
    {
      Unseal({}, seal);
      var root := io.CachedRead(1);
      var oldHead := root.value.nextFree;
      var image := page.image.(isFree := true, nextFree := oldHead);
      PushKeepsPartition(io.disk, io.maxPage, contents, free, page.pageId, image);
      io.CachedWrite(1, root.value.(nextFree := page.pageId));
      page.image := image;
      io.CachedWrite(page.pageId, page.image);
      contents := contents - {page.pageId};
      free := [page.pageId] + free;
      Unseal({}, seal);
    }

    method FreelistPush(pageId: nat)
      requires Valid() && pageId in contents && pageId != 1
      modifies Repr
      ensures Valid()
      ensures contents == old(contents) - {pageId} && free == [pageId] + old(free)
    {
      NoPageZero();
      var page := new Page<C>(blank);
      var ok := ReadPage(pageId, page);
      assert ok;
      FreelistPushPage(page);
    }
  }
}
