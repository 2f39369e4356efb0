/** The page cache (src/page_cache.c): an array of slots, strictly sorted by page id, with reference counts. */
module PageCache {

  datatype Option<+T> = None | Some(value: T)

  /** A cache slot; `image` is the content of the cached page. */
  datatype Slot<C> = Vacant | Slot(pageId: nat, image: C, ref: nat)

  ghost predicate StrictlySorted<C>(s: seq<Slot<C>>) {
    && (forall i :: 0 <= i < |s| ==> s[i].Slot?)
    && forall i, j :: 0 <= i < j < |s| ==> s[i].pageId < s[j].pageId
  }

  ghost predicate Holds<C>(s: seq<Slot<C>>, pageId: nat) {
    exists i :: 0 <= i < |s| && s[i].Slot? && s[i].pageId == pageId
  }

  /** `k` is the first slot that nobody holds a reference to. */
  ghost predicate IsVictim<C>(s: seq<Slot<C>>, k: nat) {
    && k < |s| && s[k].Slot? && s[k].ref == 0
    && forall i :: 0 <= i < k ==> s[i].Slot? && s[i].ref != 0
  }

  function Without<C>(s: seq<Slot<C>>, k: nat): seq<Slot<C>>
    requires k < |s|
  {
    s[..k] + s[k + 1..]
  }

  function WithSlot<C>(s: seq<Slot<C>>, k: nat, slot: Slot<C>): seq<Slot<C>>
    requires k <= |s|
  {
    s[..k] + [slot] + s[k..]
  }

  lemma {:induction false} WithSlotSorted<C>(s: seq<Slot<C>>, k: nat, slot: Slot<C>)
    requires StrictlySorted(s) && k <= |s| && slot.Slot?
    requires forall i :: 0 <= i < k ==> s[i].pageId < slot.pageId
    requires forall i :: k <= i < |s| ==> slot.pageId < s[i].pageId
    ensures StrictlySorted(WithSlot(s, k, slot))
  {
    var w := WithSlot(s, k, slot);
    assert forall i :: 0 <= i < |w| ==> w[i] == if i < k then s[i] else if i == k then slot else s[i - 1];
  }

  class Cache<C> {
    const pages: array<Slot<C>>
    const capacity: nat
    var size: nat

    ghost predicate Valid()
      reads this, pages
    {
      && pages.Length == capacity
      && size <= capacity
      && StrictlySorted(pages[..size])
    }

    ghost function Entries(): seq<Slot<C>>
      requires Valid()
      reads this, pages
    {
      pages[..size]
    }

    constructor (capacity: nat)
      ensures Valid() && fresh(pages) && this.capacity == capacity && Entries() == []
    {
      this.capacity := capacity;
      pages := new Slot<C>[capacity](_ => Vacant);
      size := 0;
    }

    /** Binary search; without a hit, `index` is where the page would be inserted. */
    method FindInCache(pageId: nat) returns (index: nat, found: bool)
      requires Valid()
      ensures index <= size
      ensures found ==> index < size && Entries()[index].pageId == pageId
      ensures !found ==> forall i :: 0 <= i < index ==> Entries()[i].pageId < pageId
      ensures !found ==> forall i :: index <= i < size ==> pageId < Entries()[i].pageId
    {
      var left, right := 0, size - 1;
      while left <= right
        invariant 0 <= left <= right + 1 <= size
        invariant forall i :: 0 <= i < left ==> Entries()[i].pageId < pageId
        invariant forall i :: right < i < size ==> pageId < Entries()[i].pageId
      {
        var mid := (right - left) / 2 + left;
        assert Entries()[mid] == pages[mid];
        if pages[mid].pageId == pageId {
          return mid, true;
        } else if pages[mid].pageId < pageId {
          left := mid + 1;
        } else {
          right := mid - 1;
        }
      }
      return left, false;
    }

    /** Takes a reference to a cached page, if the page is cached. */
    method Acquire(pageId: nat) returns (hit: Option<nat>)
      requires Valid()
      modifies pages
      ensures Valid() && size == old(size)
      ensures hit.None? ==> Entries() == old(Entries()) && !Holds(old(Entries()), pageId)
      ensures hit.Some? ==>
        && hit.value < size && old(Entries()[hit.value]).pageId == pageId
        && var e := old(Entries()[hit.value]);
           Entries() == old(Entries())[hit.value := e.(ref := e.ref + 1)]
    {
      var index, found := FindInCache(pageId);
      if found {
        assert pages[index] == Entries()[index];
        pages[index] := pages[index].(ref := pages[index].ref + 1);
        hit := Some(index);
      } else {
        hit := None;
      }
    }

    /** Gives a reference back; a count of zero stays zero. */
    method Release(pageId: nat)
      requires Valid()
      modifies pages
      ensures Valid() && size == old(size)
      ensures !Holds(old(Entries()), pageId) ==> Entries() == old(Entries())
      ensures forall i :: 0 <= i < size && old(Entries())[i].pageId == pageId ==>
        var e := old(Entries())[i];
        Entries() == old(Entries())[i := e.(ref := if e.ref != 0 then e.ref - 1 else 0)]
    {
      var index, found := FindInCache(pageId);
      if found {
        ghost var was := Entries();
        assert pages[index] == was[index];
        forall i | 0 <= i < size && was[i].pageId == pageId ensures i == index { }
        var ref := pages[index].ref;
        pages[index] := pages[index].(ref := ref - if ref != 0 then 1 else 0);
      }
    }

    /** The memory copy into a cached page. */
    method CopyInto(index: nat, image: C)
      requires Valid() && index < size
      modifies pages
      ensures Valid() && size == old(size)
      ensures Entries() == old(Entries())[index := old(Entries()[index]).(image := image)]
    {
      assert pages[index] == Entries()[index];
      pages[index] := pages[index].(image := image);
    }

    method Evict() returns (victim: nat)
      requires Valid()
      requires exists i :: 0 <= i < size && Entries()[i].ref == 0
      modifies this`size, pages
      ensures Valid() && size == old(size) - 1
      ensures IsVictim(old(Entries()), victim)
      ensures Entries() == Without(old(Entries()), victim)
    {
      ghost var was := Entries();
      assert forall i :: 0 <= i < size ==> pages[i] == was[i];
      victim := 0;
      while pages[victim].ref != 0
        invariant victim < size && forall i :: 0 <= i < victim ==> was[i].ref != 0
        invariant exists i :: victim <= i < size && was[i].ref == 0
        decreases size - victim
      {
        victim := victim + 1;
      }
      forall i | victim <= i < capacity - 1 { pages[i] := pages[i + 1]; }
      pages[capacity - 1] := Vacant;
      size := size - 1;
      assert pages[..size] == Without(was, victim);
    }

    /** Moves the slots from `index` on one place to the right and fills the gap. */
    method OpenSlot(index: nat, slot: Slot<C>)
      requires Valid() && index <= size < capacity && slot.Slot?
      requires forall i :: 0 <= i < index ==> Entries()[i].pageId < slot.pageId
      requires forall i :: index <= i < size ==> slot.pageId < Entries()[i].pageId
      modifies this`size, pages
      ensures Valid() && Entries() == WithSlot(old(Entries()), index, slot)
    {
      ghost var was := Entries();
      WithSlotSorted(was, index, slot);
      forall i | index < i < capacity { pages[i] := pages[i - 1]; }
      pages[index] := slot;
      size := size + 1;
      assert pages[..size] == WithSlot(was, index, slot);
    }

    /** Adds a page with one reference, after evicting an unreferenced one from a full cache. */
    method Insert(pageId: nat, image: C) returns (victim: Option<nat>, index: nat)
      requires Valid() && capacity > 0 && !Holds(Entries(), pageId)
      requires size == capacity ==> exists i :: 0 <= i < size && Entries()[i].ref == 0
      modifies this`size, pages
      ensures Valid()
      ensures victim.Some? <==> old(size) == capacity
      ensures victim.Some? ==> IsVictim(old(Entries()), victim.value)
      ensures
        var kept := if victim.Some? then Without(old(Entries()), victim.value) else old(Entries());
        index <= |kept| && Entries() == WithSlot(kept, index, Slot(pageId, image, 1))
    {
      victim := None;
      if size == capacity {
        var k := Evict();
        victim := Some(k);
      }
      var found;
      index, found := FindInCache(pageId);
      assert !found;
      OpenSlot(index, Slot(pageId, image, 1));
    }
  }
}
