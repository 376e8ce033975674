/**
 * ndn::InMemoryStorage: a hash-keyed packet cache whose entries come from a
 * pool of preallocated storage slots.
 *
 * The pool holds `capacity` slots: every slot is either resident (holds a
 * cached packet in `cache`) or free (on the `freeEntries` stack). The
 * capacity doubles when the cache fills up, never past `limit`, an eviction
 * makes room once the limit is reached, and the capacity halves when more
 * than two thirds of the slots are free. Eviction itself (evictItem) is
 * defined by derived storage classes; here it may remove any one resident
 * entry, or none.
 */
module Ims {
  import opened HashOrder
  import opened Packet
  import opened SeqFacts
  import opened Numbers

  /** The identity of one preallocated InMemoryStorageEntry. */
  type Slot = nat

  /** m_initCapacity, the capacity a storage starts with and never shrinks below. */
  const InitCapacity: nat := 10

  /** std::numeric_limits<size_t>::max(): the limit of an unbounded storage. */
  const SizeMax: nat := 0xFFFF_FFFF_FFFF_FFFF

  /** A resident InMemoryStorageEntry: its slot, packet, hash and stale-timer request. */
  datatype StorageEntry = StorageEntry(slot: Slot, data: Data, hash: Hash, markStaleScheduled: bool)

  /** Calls of the hooks afterInsert, beforeErase and afterAccess. */
  datatype Hook = Inserted(hash: Hash) | Erasing(hash: Hash) | Accessed(hash: Hash)

  /**
   * How insert ends: the hash was already stored, the packet was stored,
   * setCapacity threw Error, or the free list was empty where the code
   * asserts that it is not.
   */
  datatype InsertStatus = AlreadyStored | Stored | CapacityError | NoFreeEntry

  /** The capacity init() starts with: m_initCapacity, clamped to a bounded limit. */
  function InitialCapacity(limit: nat): nat {
    if limit != SizeMax && InitCapacity > limit then limit else InitCapacity
  }

  /** The hashes of the byHashCode index, in index order. */
  function Keys(c: seq<StorageEntry>): seq<Hash> {
    seq(|c|, i requires 0 <= i < |c| => c[i].hash)
  }

  /** The slots held by resident entries, in index order. */
  function Slots(c: seq<StorageEntry>): seq<Slot> {
    seq(|c|, i requires 0 <= i < |c| => c[i].slot)
  }

  lemma SlotsInsertAt(c: seq<StorageEntry>, p: nat, x: StorageEntry)
    requires p <= |c|
    ensures multiset(Slots(c[..p] + [x] + c[p..])) == multiset(Slots(c)) + multiset{x.slot}
  {
    var s := Slots(c);
    assert Slots(c[..p] + [x] + c[p..]) == s[..p] + [x.slot] + s[p..];
    assert s == s[..p] + s[p..];
  }

  lemma SlotsRemoveAt(c: seq<StorageEntry>, p: nat)
    requires p < |c|
    ensures multiset(Slots(c[..p] + c[p + 1..])) + multiset{c[p].slot} == multiset(Slots(c))
  {
    var s := Slots(c);
    assert Slots(c[..p] + c[p + 1..]) == s[..p] + s[p + 1..];
    assert s == s[..p] + [s[p]] + s[p + 1..];
  }

  lemma KeysInsertAt(c: seq<StorageEntry>, p: nat, x: StorageEntry)
    requires p <= |c|
    ensures Keys(c[..p] + [x] + c[p..]) == Keys(c)[..p] + [x.hash] + Keys(c)[p..]
  {
  }

  lemma KeysRemoveAt(c: seq<StorageEntry>, p: nat)
    requires p < |c|
    ensures Keys(c[..p] + c[p + 1..]) == Keys(c)[..p] + Keys(c)[p + 1..]
  {
  }

  /** A hash resident in a sub-collection is resident in the whole. */
  lemma KeysOfSubset(c: seq<StorageEntry>, d: seq<StorageEntry>, h: Hash)
    requires forall e | e in c :: e in d
    requires h in Keys(c)
    ensures h in Keys(d)
  {
    var i :| 0 <= i < |c| && Keys(c)[i] == h;
    assert c[i] in c;
    var j :| 0 <= j < |d| && d[j] == c[i];
    assert Keys(d)[j] == h;
  }

  class InMemoryStorage {
    const limit: nat                  // m_limit
    const hasScheduler: bool          // m_scheduler != nullptr
    var capacity: nat                 // m_capacity
    var nPackets: nat                 // m_nPackets, what size() returns
    var cache: seq<StorageEntry>      // m_cache, in the order of its byHashCode index
    var freeEntries: seq<Slot>        // m_freeEntries; the top of the stack is the last element
    var nextSlot: Slot                // slots allocated so far; `new` hands out this identity
    ghost var hooks: seq<Hook>        // the hook calls made so far, in order

    /** Every allocated slot, resident or free. */
    ghost function Pool(): multiset<Slot>
      reads this`cache, this`freeEntries
    {
      multiset(Slots(cache)) + multiset(freeEntries)
    }

    /** Each allocated slot is in exactly one of the two collections, once. */
    ghost predicate PoolDisjoint()
      reads this`cache, this`freeEntries, this`nextSlot
    {
      forall s | s in Pool() :: Pool()[s] == 1 && s < nextSlot
    }

    /** Invariants that hold between any two steps, even while the capacity changes. */
    ghost predicate Consistent()
      reads this`cache, this`freeEntries, this`nextSlot, this`nPackets
    {
      Sorted(Keys(cache)) && nPackets == |cache| && PoolDisjoint()
    }

    /** The object invariant: also `size + free == capacity`, as the code asserts. */
    ghost predicate Valid()
      reads this
    {
      && Consistent()
      && |cache| + |freeEntries| == capacity
      && capacity >= Min(InitCapacity, limit)
    }

    /** isFull() */
    predicate IsFull()
      reads this
    {
      nPackets >= capacity
    }

    /** InMemoryStorage(limit) */
    constructor (limit: nat)
      ensures Valid() && this.limit == limit && !hasScheduler
      ensures cache == [] && nPackets == 0 && hooks == []
      ensures capacity == InitialCapacity(limit) && |freeEntries| == capacity
    {
      this.limit := limit;
      hasScheduler := false;
      capacity, nPackets, cache, freeEntries, nextSlot := 0, 0, [], [], 0;
      hooks := [];
      new;
      Init();
    }

    /** InMemoryStorage(ioService, limit): the same, with a scheduler for stale timers. */
    constructor WithScheduler(limit: nat)
      ensures Valid() && this.limit == limit && hasScheduler
      ensures cache == [] && nPackets == 0 && hooks == []
      ensures capacity == InitialCapacity(limit) && |freeEntries| == capacity
    {
      this.limit := limit;
      hasScheduler := true;
      capacity, nPackets, cache, freeEntries, nextSlot := 0, 0, [], [], 0;
      hooks := [];
      new;
      Init();
    }

    /** init(): sets the initial capacity and preallocates that many free slots. */
    method Init()
      requires cache == [] && freeEntries == [] && nPackets == 0
      modifies this`capacity, this`freeEntries, this`nextSlot
      ensures Valid() && capacity == InitialCapacity(limit) && |freeEntries| == capacity
    {
      capacity := InitCapacity;
      if limit != SizeMax && capacity > limit {
        capacity := limit;
      }
      assert Pool() == multiset{};
      for i := 0 to capacity
        invariant |freeEntries| == i && PoolDisjoint()
        modifies this`freeEntries, this`nextSlot
      {
        AllocateSlot();
      }
    }

    /** `m_freeEntries.push(new InMemoryStorageEntry())` */
    method AllocateSlot()
      requires PoolDisjoint()
      modifies this`freeEntries, this`nextSlot
      ensures freeEntries == old(freeEntries) + [old(nextSlot)] && nextSlot == old(nextSlot) + 1
      ensures PoolDisjoint()
    {
      ghost var before := Pool();
      var newSlot := nextSlot;
      assert before[newSlot] == 0;
      freeEntries := freeEntries + [newSlot];
      nextSlot := nextSlot + 1;
      assert Pool() == before + multiset{newSlot};
      forall s | s in Pool()
        ensures Pool()[s] == 1 && s < nextSlot
      {
        if s != newSlot {
          assert s in before;
        }
      }
    }

    /** `delete m_freeEntries.top(); m_freeEntries.pop();` */
    method ReleaseSlot()
      requires PoolDisjoint() && |freeEntries| > 0
      modifies this`freeEntries
      ensures freeEntries == old(freeEntries)[..|old(freeEntries)| - 1]
      ensures PoolDisjoint()
    {
      ghost var before := Pool();
      var n := |freeEntries|;
      assert freeEntries == freeEntries[..n - 1] + [freeEntries[n - 1]];
      var top := freeEntries[n - 1];
      freeEntries := freeEntries[..n - 1];
      assert before == Pool() + multiset{top};
      forall s | s in Pool()
        ensures Pool()[s] == 1 && s < nextSlot
      {
        assert s in before && Pool()[s] <= before[s];
      }
    }

    /** ~InMemoryStorage(): returns every resident slot to the pool, then frees the pool. */
    method Destroy()
      requires Valid()
      modifies this`cache, this`freeEntries, this`nPackets
      ensures cache == [] && freeEntries == [] && nPackets == 0
    {
      while |cache| > 0
        invariant Consistent() && |cache| + |freeEntries| == capacity
        modifies this`cache, this`freeEntries, this`nPackets
        decreases |cache|
      {
        FreeEntry(0);
      }
      assert |freeEntries| == capacity;
      while |freeEntries| > 0
        invariant PoolDisjoint()
        modifies this`freeEntries
        decreases |freeEntries|
      {
        ReleaseSlot();
      }
    }

    /**
     * setCapacity(c): the capacity becomes max(c, m_initCapacity); entries
     * are evicted while the cache holds more than that, and Error is thrown
     * (ok == false) once more evictions have failed than there were entries
     * too many. Then the free list grows or shrinks to the new capacity.
     */
    method SetCapacity(c: nat) returns (ok: bool)
      requires Valid()
      modifies this
      ensures Consistent() && capacity == Max(c, InitCapacity) && hooks == old(hooks)
      ensures forall e | e in cache :: e in old(cache)
      ensures ok <==> |cache| <= capacity
      ensures ok ==> Valid()
      ensures !ok ==> |cache| + |freeEntries| == old(capacity) != capacity
      ensures old(|cache|) <= capacity ==> ok && cache == old(cache)
      ensures ok && old(|cache|) > capacity ==> |cache| == capacity
      ensures ok && capacity >= old(capacity) ==> old(freeEntries) <= freeEntries
    {
      var oldCapacity := capacity;
      capacity := Max(c, InitCapacity);
      ok := EvictToCapacity();
      if !ok {
        return;
      }
      ResizeFreeList(oldCapacity);
    }

    /**
     * The eviction loop of setCapacity: evictItem runs while the cache holds
     * more than `capacity` entries; ok is false where Error is thrown.
     */
    method EvictToCapacity() returns (ok: bool)
      requires Consistent()
      modifies this`cache, this`freeEntries, this`nPackets
      ensures Consistent() && |cache| + |freeEntries| == old(|cache| + |freeEntries|)
      ensures forall e | e in cache :: e in old(cache)
      ensures ok <==> |cache| <= capacity
      ensures old(|cache|) <= capacity ==> ok && cache == old(cache) && freeEntries == old(freeEntries)
      ensures ok && old(|cache|) > capacity ==> |cache| == capacity
    {
      if nPackets > capacity {
        var nAllowedFailures: int := nPackets - capacity;
        while nPackets > capacity
          invariant Consistent() && |cache| + |freeEntries| == old(|cache| + |freeEntries|)
          invariant forall e | e in cache :: e in old(cache)
          invariant nAllowedFailures >= 0
          invariant nPackets >= capacity
          modifies this`cache, this`freeEntries, this`nPackets
          decreases nPackets + nAllowedFailures
        {
          var evicted := EvictItem();
          if !evicted {
            nAllowedFailures := nAllowedFailures - 1;
            if nAllowedFailures < 0 {
              return false;
            }
          }
        }
      }
      ok := true;
    }

    /**
     * The resizing loops of setCapacity: new slots are pushed up to the new
     * capacity, or top slots are deleted down to it.
     */
    method ResizeFreeList(oldCapacity: nat)
      requires PoolDisjoint() && |cache| + |freeEntries| == oldCapacity && |cache| <= capacity
      modifies this`freeEntries, this`nextSlot
      ensures PoolDisjoint() && |cache| + |freeEntries| == capacity
      ensures capacity >= oldCapacity ==> old(freeEntries) <= freeEntries
    {
      if capacity >= oldCapacity {
        for i := oldCapacity to capacity
          invariant |cache| + |freeEntries| == i && PoolDisjoint()
          invariant old(freeEntries) <= freeEntries
          modifies this`freeEntries, this`nextSlot
        {
          AllocateSlot();
        }
      } else {
        var i := oldCapacity;
        while i > capacity
          invariant capacity <= i && |cache| + |freeEntries| == i && PoolDisjoint()
          modifies this`freeEntries
        {
          ReleaseSlot();
          i := i - 1;
        }
      }
    }

    /**
     * evictItem(), which derived storage classes define: it may erase any
     * one resident entry through eraseImpl and report true, or erase
     * nothing and report false.
     */
    method EvictItem() returns (evicted: bool)
      requires Consistent()
      modifies this`cache, this`freeEntries, this`nPackets
      ensures Consistent() && |cache| + |freeEntries| == old(|cache| + |freeEntries|)
      ensures forall e | e in cache :: e in old(cache)
      ensures evicted ==> |cache| == old(|cache|) - 1
      ensures !evicted ==> cache == old(cache) && freeEntries == old(freeEntries)
    {
      var victim: nat :| true;
      var decided: bool :| true;
      if decided && victim < |cache| {
        assert Keys(cache)[victim] == cache[victim].hash;
        EraseImpl(cache[victim].hash);
        evicted := true;
      } else {
        evicted := false;
      }
    }

    /**
     * insert(data, window): does nothing for a hash already stored; grows
     * the capacity when full below the limit, evicts when full at the
     * limit, then moves the top free slot into the cache and calls
     * afterInsert. A stale timer is requested when there is a scheduler and
     * the window is positive.
     */
    method Insert(data: Data, mustBeFreshProcessingWindow: int) returns (status: InsertStatus)
      requires Valid()
      modifies this
      ensures status == AlreadyStored <==> data.digest in old(Keys(cache))
      ensures status == AlreadyStored ==>
        && cache == old(cache) && freeEntries == old(freeEntries)
        && capacity == old(capacity) && nPackets == old(nPackets) && hooks == old(hooks)
      ensures status != CapacityError ==> Valid()
      ensures status == NoFreeEntry ==> freeEntries == [] && hooks == old(hooks)
      ensures status == Stored ==>
        && data.digest in Keys(cache)
        && hooks == old(hooks) + [Inserted(data.digest)]
        && forall e | e in cache :: e in old(cache) ||
             e == StorageEntry(e.slot, data, data.digest, hasScheduler && mustBeFreshProcessingWindow > 0)
      ensures status == Stored && old(nPackets) < old(capacity) ==>
        var p, top := LowerBound(old(Keys(cache)), data.digest), old(freeEntries)[|old(freeEntries)| - 1];
        && capacity == old(capacity)
        && cache == old(cache)[..p] + [StorageEntry(top, data, data.digest, hasScheduler && mustBeFreshProcessingWindow > 0)] + old(cache)[p..]
        && freeEntries == old(freeEntries)[..|old(freeEntries)| - 1]
        && hooks == old(hooks) + [Inserted(data.digest)]
      ensures data.digest !in old(Keys(cache)) && old(nPackets) < old(capacity) ==> status == Stored
      ensures data.digest !in old(Keys(cache)) && old(nPackets) >= old(capacity) && limit < old(capacity) == InitCapacity ==>
        status == NoFreeEntry && cache == old(cache) && capacity == old(capacity)
      ensures data.digest !in old(Keys(cache)) && old(nPackets) >= old(capacity) && limit < old(capacity) && InitCapacity <= old(capacity) ==>
        status != Stored
      ensures data.digest !in old(Keys(cache)) && old(nPackets) >= old(capacity) && old(capacity) == limit ==>
        && capacity == old(capacity)
        && ((status == Stored && |cache| == old(|cache|)) || (status == NoFreeEntry && cache == old(cache)))
      ensures data.digest !in old(Keys(cache)) && old(nPackets) >= old(capacity) && old(capacity) < limit ==>
        && status == Stored
        && capacity == Min(2 * old(capacity), limit)
        && |cache| == old(|cache|) + 1
        && forall e | e in old(cache) :: e in cache
    {
      var p := LowerBound(Keys(cache), data.digest);
      PresentAtLowerBound(Keys(cache), data.digest);
      if p < |cache| && cache[p].hash == data.digest {
        return AlreadyStored;
      }

      ghost var c0 := cache;
      var ok := MakeRoom();
      if !ok {
        return CapacityError;
      }
      if |freeEntries| == 0 {
        return NoFreeEntry;
      }
      if data.digest in Keys(cache) {
        KeysOfSubset(cache, c0, data.digest);
      }
      StoreEntry(data, hasScheduler && mustBeFreshProcessingWindow > 0);
      status := Stored;
    }

    /**
     * The first half of insert: when full below the limit, the capacity
     * doubles (bounded by the limit); when full at the limit, evictItem is
     * called once. ok is false when setCapacity threw.
     */
    method MakeRoom() returns (ok: bool)
      requires Valid()
      modifies this
      ensures ok ==> Valid()
      ensures hooks == old(hooks) && forall e | e in cache :: e in old(cache)
      ensures old(nPackets) < old(capacity) ==>
        ok && cache == old(cache) && freeEntries == old(freeEntries) && capacity == old(capacity)
      ensures old(nPackets) >= old(capacity) && old(capacity) < limit ==>
        ok && cache == old(cache) && capacity == Min(2 * old(capacity), limit) && |freeEntries| > 0
      ensures old(nPackets) >= old(capacity) && limit < old(capacity) == InitCapacity ==>
        ok && cache == old(cache) && capacity == old(capacity) && freeEntries == []
      ensures old(nPackets) >= old(capacity) && limit < old(capacity) && InitCapacity <= old(capacity) ==>
        capacity == Max(limit, InitCapacity) && (ok ==> freeEntries == [])
      ensures old(nPackets) >= old(capacity) && old(capacity) == limit ==>
        && ok && capacity == old(capacity)
        && ((|cache| == old(|cache|) - 1 && |freeEntries| > 0) || (cache == old(cache) && freeEntries == []))
    {
      var doesReachLimit := limit == capacity;
      if IsFull() && !doesReachLimit {
        var newCapacity := Min(2 * capacity, limit);
        ok := SetCapacity(newCapacity);
        if !ok {
          return;
        }
      }
      if IsFull() && doesReachLimit {
        var _ := EvictItem();
      }
      ok := true;
    }

    /**
     * The second half of insert: pops the top free slot, fills it with the
     * packet, puts it into the index at the packet's hash and calls
     * afterInsert.
     */
    method StoreEntry(data: Data, markStale: bool)
      requires Consistent() && |freeEntries| > 0 && data.digest !in Keys(cache)
      modifies this`cache, this`freeEntries, this`nPackets, this`hooks
      ensures Consistent()
      ensures var p, n := LowerBound(old(Keys(cache)), data.digest), |old(freeEntries)|;
        && cache == old(cache)[..p] + [StorageEntry(old(freeEntries)[n - 1], data, data.digest, markStale)] + old(cache)[p..]
        && freeEntries == old(freeEntries)[..n - 1]
      ensures hooks == old(hooks) + [Inserted(data.digest)]
      ensures data.digest in Keys(cache)
      ensures forall e | e in old(cache) :: e in cache
      ensures forall e | e in cache :: e in old(cache) || e == StorageEntry(e.slot, data, data.digest, markStale)
    {
      ghost var before := Pool();
      var n := |freeEntries|;
      var slot := freeEntries[n - 1];
      assert freeEntries == freeEntries[..n - 1] + [slot];
      freeEntries := freeEntries[..n - 1];
      nPackets := nPackets + 1;
      var entry := StorageEntry(slot, data, data.digest, markStale);
      var p := LowerBound(Keys(cache), data.digest);
      InsertKeepsSorted(Keys(cache), data.digest);
      KeysInsertAt(cache, p, entry);
      SlotsInsertAt(cache, p, entry);
      InsertAtMembers(cache, p, entry);
      cache := cache[..p] + [entry] + cache[p..];
      assert Pool() == before;
      assert Keys(cache)[p] == data.digest;
      AfterInsert(entry);
    }

    /**
     * find(hashCode): the entry at the index's lower bound of the hash, so
     * the first resident hash not less than hashCode, after afterAccess;
     * null when every resident hash is less.
     */
    method Find(hashCode: Hash) returns (r: Option<Data>)
      requires Valid()
      modifies this`hooks
      ensures r.None? <==> forall k | 0 <= k < |cache| :: Less(cache[k].hash, hashCode)
      ensures r.None? ==> hooks == old(hooks)
      ensures r.Some? ==>
        var p := LowerBound(Keys(cache), hashCode);
        && p < |cache| && r.value == cache[p].data && !Less(cache[p].hash, hashCode)
        && (cache[p].hash == hashCode <==> hashCode in Keys(cache))
        && hooks == old(hooks) + [Accessed(cache[p].hash)]
    {
      var p := LowerBound(Keys(cache), hashCode);
      PresentAtLowerBound(Keys(cache), hashCode);
      if p == |cache| {
        forall k | 0 <= k < |cache|
          ensures Less(cache[k].hash, hashCode)
        {
          assert Keys(cache)[k] == cache[k].hash;
        }
        return None;
      }
      assert Keys(cache)[p] == cache[p].hash;
      AfterAccess(cache[p]);
      r := Some(cache[p].data);
    }

    /** find(interest): an exact match on the interest's hash, with no hook call. */
    method FindByInterest(interest: Interest) returns (r: Option<Data>)
      requires Valid()
      ensures r.Some? <==> interest.hashCode in Keys(cache)
      ensures forall k | 0 <= k < |cache| && cache[k].hash == interest.hashCode :: r == Some(cache[k].data)
    {
      var p := LowerBound(Keys(cache), interest.hashCode);
      PresentAtLowerBound(Keys(cache), interest.hashCode);
      if p < |cache| && cache[p].hash == interest.hashCode {
        forall k | 0 <= k < |cache| && cache[k].hash == interest.hashCode
          ensures k == p
        {
          var keys := Keys(cache);
          assert keys[k] == keys[p] == interest.hashCode;
        }
        r := Some(cache[p].data);
      } else {
        forall k | 0 <= k < |cache|
          ensures cache[k].hash != interest.hashCode
        {
          assert Keys(cache)[k] == cache[k].hash;
        }
        r := None;
      }
    }

    /**
     * freeEntry(it): releases the entry, pushes its slot onto the free list,
     * decrements the packet count and removes it from the index.
     */
    method FreeEntry(p: nat)
      requires Consistent() && p < |cache|
      modifies this`cache, this`freeEntries, this`nPackets
      ensures cache == old(cache)[..p] + old(cache)[p + 1..]
      ensures freeEntries == old(freeEntries) + [old(cache)[p].slot]
      ensures Consistent()
    {
      ghost var before := Pool();
      var entry := cache[p];
      SlotsRemoveAt(cache, p);
      KeysRemoveAt(cache, p);
      RemoveKeepsSorted(Keys(cache), p);
      freeEntries := freeEntries + [entry.slot];
      nPackets := nPackets - 1;
      cache := cache[..p] + cache[p + 1..];
      assert Pool() == before;
    }

    /**
     * erase(hashCode): nothing when the hash is not stored; otherwise
     * beforeErase, freeEntry, and halving the capacity when more than
     * twice as many slots are free as are resident.
     */
    method Erase(hashCode: Hash)
      requires Valid()
      modifies this
      ensures Valid()
      ensures hashCode !in old(Keys(cache)) ==>
        && cache == old(cache) && freeEntries == old(freeEntries)
        && capacity == old(capacity) && hooks == old(hooks)
      ensures hashCode in old(Keys(cache)) ==>
        var p := LowerBound(old(Keys(cache)), hashCode);
        && cache == old(cache)[..p] + old(cache)[p + 1..]
        && hooks == old(hooks) + [Erasing(hashCode)]
        && capacity == (if old(|freeEntries|) + 1 > 2 * (old(|cache|) - 1)
                        then Max(old(capacity) / 2, InitCapacity) else old(capacity))
    {
      var p := LowerBound(Keys(cache), hashCode);
      PresentAtLowerBound(Keys(cache), hashCode);
      if !(p < |cache| && cache[p].hash == hashCode) {
        return;
      }
      BeforeErase(cache[p]);
      FreeEntry(p);
      if |freeEntries| > 2 * nPackets {
        var _ := SetCapacity(capacity / 2);
      }
    }

    /** eraseImpl(hashCode): the same removal, without the hook and the shrink. */
    method EraseImpl(hashCode: Hash)
      requires Consistent()
      modifies this`cache, this`freeEntries, this`nPackets
      ensures Consistent()
      ensures hashCode !in old(Keys(cache)) ==> cache == old(cache) && freeEntries == old(freeEntries)
      ensures hashCode in old(Keys(cache)) ==>
        var p := LowerBound(old(Keys(cache)), hashCode);
        && cache == old(cache)[..p] + old(cache)[p + 1..]
        && freeEntries == old(freeEntries) + [old(cache)[p].slot]
      ensures forall e | e in cache :: e in old(cache)
    {
      var p := LowerBound(Keys(cache), hashCode);
      PresentAtLowerBound(Keys(cache), hashCode);
      if p < |cache| && cache[p].hash == hashCode {
        RemoveAtMembers(cache, p);
        FreeEntry(p);
      }
    }

    /** afterInsert(entry): a hook for derived classes; it does nothing here. */
    method AfterInsert(entry: StorageEntry)
      modifies this`hooks
      ensures hooks == old(hooks) + [Inserted(entry.hash)]
    {
      hooks := hooks + [Inserted(entry.hash)];
    }

    /** beforeErase(entry): a hook for derived classes; it does nothing here. */
    method BeforeErase(entry: StorageEntry)
      modifies this`hooks
      ensures hooks == old(hooks) + [Erasing(entry.hash)]
    {
      hooks := hooks + [Erasing(entry.hash)];
    }

    /** afterAccess(entry): a hook for derived classes; it does nothing here. */
    method AfterAccess(entry: StorageEntry)
      modifies this`hooks
      ensures hooks == old(hooks) + [Accessed(entry.hash)]
    {
      hooks := hooks + [Accessed(entry.hash)];
    }
  }
}
