/** Reads and writes through the page cache (src/pager_internal.c). Every write also goes to disk. */
module PagerInternal {
  import opened PageCache

  /** Every cached page holds what the disk holds, and nobody keeps a reference. */
  ghost predicate Coherent<C>(s: seq<Slot<C>>, disk: map<nat, C>) {
    forall i :: 0 <= i < |s| ==>
      s[i].Slot? && s[i].ref == 0 && s[i].pageId in disk && s[i].image == disk[s[i].pageId]
  }

  /** Coherent, but for one reference held to slot `k`. */
  ghost predicate Pinned<C>(s: seq<Slot<C>>, disk: map<nat, C>, k: nat) {
    && k < |s|
    && forall i :: 0 <= i < |s| ==>
         s[i].Slot? && s[i].ref == (if i == k then 1 else 0) && s[i].pageId in disk && s[i].image == disk[s[i].pageId]
  }

  lemma {:induction false} NewIsPinned<C>(
      s: seq<Slot<C>>, disk: map<nat, C>, victim: Option<nat>, index: nat, pageId: nat)
    requires Coherent(s, disk) && pageId in disk && (victim.Some? ==> victim.value < |s|)
    requires index <= |if victim.Some? then Without(s, victim.value) else s|
    ensures
      var kept := if victim.Some? then Without(s, victim.value) else s;
      Pinned(WithSlot(kept, index, Slot(pageId, disk[pageId], 1)), disk, index)
  {
    var kept := if victim.Some? then Without(s, victim.value) else s;
    assert Coherent(kept, disk);
  }

  class CachedFile<C> {
    var disk: map<nat, C>
    var maxPage: nat
    const cache: Cache<C>

    ghost const Repr: set<object>

    ghost predicate Valid()
      reads this, Repr
    {
      && Repr == {this, cache, cache.pages}
      && cache.Valid() && cache.capacity > 0
      && Coherent(cache.Entries(), disk)
      && (forall id :: id in disk ==> 1 <= id <= maxPage)
    }

    /** A new, empty file. */
    constructor (capacity: nat)
      requires capacity > 0
      ensures Valid() && fresh(Repr) && disk == map[] && maxPage == 0
    {
      var cache := new Cache<C>(capacity);
      this.cache := cache;
      disk, maxPage := map[], 0;
      Repr := {this, cache, cache.pages};
    }

    /** Puts a page that was just read from disk into the cache, referenced once. */
    method Commit(pageId: nat) returns (index: nat)
      requires Valid() && pageId in disk && !Holds(cache.Entries(), pageId)
      modifies cache, cache.pages
      ensures cache.Valid() && unchanged(this) && Pinned(cache.Entries(), disk, index)
      ensures index < cache.size && cache.Entries()[index].pageId == pageId
    {
      assert cache.size > 0 ==> cache.Entries()[0].ref == 0;
      ghost var before := cache.Entries();
      var victim;
      victim, index := cache.Insert(pageId, disk[pageId]);
      NewIsPinned(before, disk, victim, index, pageId);
    }

    /** Page `pageId` as it is on disk, or None for a page that is not in the file. */
    method CachedRead(pageId: nat) returns (image: Option<C>)
      requires Valid() && pageId != 0
      modifies cache, cache.pages
      ensures Valid() && unchanged(this)
      ensures image == if pageId in disk then Some(disk[pageId]) else None
    {
      var hit := cache.Acquire(pageId);
      var index: nat;
      if hit.None? {
        if pageId !in disk {
          return None;
        }
        index := Commit(pageId);
      } else {
        index := hit.value;
      }
      assert Pinned(cache.Entries(), disk, index);
      assert cache.pages[index] == cache.Entries()[index];
      image := Some(cache.pages[index].image);
      cache.Release(pageId);
    }

    /** Writes a page to disk, and to its cached copy if it has one. */
    method CachedWrite(pageId: nat, image: C)
      requires Valid() && pageId != 0
      modifies this`disk, this`maxPage, cache, cache.pages
      ensures Valid()
      ensures disk == old(disk)[pageId := image]
      ensures maxPage == if pageId > old(maxPage) then pageId else old(maxPage)
    {
      ghost var was := cache.Entries();
      var hit := cache.Acquire(pageId);
      if hit.Some? {
        cache.CopyInto(hit.value, image);
        ghost var held := cache.Entries();
        assert held[hit.value].pageId == pageId;
        cache.Release(pageId);
        assert cache.Entries() == was[hit.value := Slot(pageId, image, 0)];
      }
      disk := disk[pageId := image];
      maxPage := if pageId > maxPage then pageId else maxPage;
    }
  }

  datatype Operation<C> = Read(pageId: nat) | Write(pageId: nat, image: C)

  /** The same operations on a plain disk: what each read returns, and the disk afterwards. */
  function Uncached<C>(disk: map<nat, C>, ops: seq<Operation<C>>): (seq<Option<C>>, map<nat, C>)
    decreases |ops|
  {
    if ops == [] then ([], disk)
    else
      var op := ops[|ops| - 1];
      var (out, before) := Uncached(disk, ops[..|ops| - 1]);
      match op
      case Read(id) => (out + [if id in before then Some(before[id]) else None], before)
      case Write(id, image) => (out, before[id := image])
  }

  /** Cache transparency: over any run, at any capacity, the cache cannot be observed. */
  method Run<C>(file: CachedFile<C>, ops: seq<Operation<C>>) returns (out: seq<Option<C>>)
    requires file.Valid() && forall i :: 0 <= i < |ops| ==> ops[i].pageId != 0
    modifies file.Repr
    ensures file.Valid()
    ensures (out, file.disk) == Uncached(old(file.disk), ops)
  {
    out := [];
    for i := 0 to |ops|
      invariant file.Valid()
      invariant (out, file.disk) == Uncached(old(file.disk), ops[..i])
    {
      assert ops[..i + 1][..i] == ops[..i];
      match ops[i]
      case Read(id) =>
        var image := file.CachedRead(id);
        out := out + [image];
      case Write(id, image) =>
        file.CachedWrite(id, image);
    }
    assert ops[..|ops|] == ops;
  }
}
