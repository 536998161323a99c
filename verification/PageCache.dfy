/** The page cache: which document slots are resident, how many bytes they are
    charged for, and the second-chance loop that evicts clean ones over budget.
    Slots are addressed by handle, as the program addresses them by pointer. */
module PageCache {

  datatype Slot = Slot(resident: bool, dirty: bool, refBit: bool, size: nat)

  const DEFAULT_CACHE_BYTES: int := 256 * 0x10_0000

  /** Zero asks for the default budget, a negative number for no limit. */
  function CacheBudget(cacheBytes: int): (b: int)
    ensures cacheBytes == 0 ==> b == 268_435_456
    ensures cacheBytes < 0 ==> b == -1
    ensures cacheBytes > 0 ==> b == cacheBytes
  {
    if cacheBytes == 0 then DEFAULT_CACHE_BYTES else if cacheBytes < 0 then -1 else cacheBytes
  }

  ghost function TotalSize(slots: map<nat, Slot>, s: set<nat>): nat
    requires s <= slots.Keys
  {
    if s == {} then 0 else
      var p :| p in s;
      slots[p].size + TotalSize(slots, s - {p})
  }

  /** The total does not depend on the order in which slots are counted. */
  lemma {:induction false} TotalWithout(slots: map<nat, Slot>, s: set<nat>, p: nat)
    requires s <= slots.Keys && p in s
    ensures TotalSize(slots, s) == slots[p].size + TotalSize(slots, s - {p})
  {
    var q :| q in s && TotalSize(slots, s) == slots[q].size + TotalSize(slots, s - {q});
    if q != p {
      TotalWithout(slots, s - {q}, p);
      TotalWithout(slots, s - {p}, q);
      assert s - {q} - {p} == s - {p} - {q};
    }
  }

  lemma {:induction false} TotalSameSizes(a: map<nat, Slot>, b: map<nat, Slot>, s: set<nat>)
    requires s <= a.Keys && s <= b.Keys && forall p <- s :: a[p].size == b[p].size
    ensures TotalSize(a, s) == TotalSize(b, s)
  {
    if s != {} {
      var p :| p in s;
      TotalWithout(a, s, p);
      TotalWithout(b, s, p);
      TotalSameSizes(a, b, s - {p});
    }
  }

  /** Handles in s whose slot holds its payload. */
  function Warm(slots: map<nat, Slot>, s: set<nat>): set<nat>
    requires s <= slots.Keys
  {
    set p | p in s && slots[p].resident
  }

  /** Handles in s whose reference bit is set. */
  function Referenced(slots: map<nat, Slot>, s: set<nat>): set<nat>
    requires s <= slots.Keys
  {
    set p | p in s && slots[p].refBit
  }

  class Cache {
    const budget: int
    var slots: map<nat, Slot>
    /** The next handle; every slot made so far has a smaller one. */
    var made: nat
    var cache: set<nat>
    var residentBytes: int
    var evictions: nat
    /** False for RAM-only stores and while a v1 migration is pending. */
    var mayEvict: bool

    ghost predicate Valid()
      reads this
    {
      && cache <= slots.Keys && (forall p <- slots :: p < made)
      && residentBytes >= 0
    }

    /** Bytes on the counter that no registered payload accounts for. */
    ghost function Stray(): int
      reads this
      requires Valid()
    {
      residentBytes - TotalSize(slots, Warm(slots, cache))
    }

    /** Payloads dropped so far and registered payloads together. */
    ghost function Held(): nat
      reads this
      requires Valid()
    {
      evictions + |Warm(slots, cache)|
    }

    /** What single threaded use keeps: registered slots hold their payload, and the
        counter is the sum of their sizes. */
    ghost predicate Sound()
      reads this
      requires Valid()
    {
      && (forall p <- cache :: slots[p].resident)
      && residentBytes == TotalSize(slots, cache)
    }

    constructor (cacheBytes: int, evict: bool)
      ensures Valid() && Sound() && cache == {} && slots == map[] && residentBytes == 0
      ensures budget == CacheBudget(cacheBytes) && mayEvict == evict
    {
      budget := CacheBudget(cacheBytes);
      slots, made, cache, residentBytes, evictions, mayEvict := map[], 0, {}, 0, 0, evict;
    }

    /** A new slot, for a document at hand or for one that stays in the file. It is
        charged nothing until it is filled from the log. */
    method NewSlot(hasDoc: bool) returns (p: nat)
      requires Valid()
      modifies this`slots, this`made
      ensures Valid() && p !in old(slots) && slots == old(slots)[p := Slot(hasDoc, false, false, 0)]
      ensures Stray() == old(Stray()) && (old(Sound()) ==> Sound())
    {
      p := made;
      ghost var before := slots;
      slots, made := slots[p := Slot(hasDoc, false, false, 0)], made + 1;
      SameCharge(before, slots, cache);
    }

    /** After a flush: clean, unless the document changed after the snapshot. */
    method MarkClean(p: nat, mutGen: nat, gen: nat)
      requires Valid() && p in slots
      modifies this`slots
      ensures Valid() && Stray() == old(Stray()) && (old(Sound()) ==> Sound())
      ensures slots == old(slots)[p := old(slots[p]).(dirty := old(slots[p]).dirty && mutGen > gen)]
    {
      ghost var before := slots;
      if mutGen <= gen {
        slots := slots[p := slots[p].(dirty := false)];
      }
      SameCharge(before, slots, cache);
      assert mutGen > gen ==> slots == slots[p := slots[p].(dirty := slots[p].dirty)];
    }

    /** Dropping a collection takes all its slots out of the registry, dirty or not. */
    method Purge(ps: set<nat>)
      requires Valid()
      modifies this`cache, this`residentBytes
      ensures Valid() && cache == old(cache) - ps && (old(Sound()) ==> Sound())
    {
      var todo := ps;
      while todo != {}
        invariant todo <= ps && Valid() && cache == old(cache) - (ps - todo)
        invariant old(Sound()) ==> Sound()
        decreases |todo|
      {
        var p :| p in todo;
        todo := todo - {p};
        if p in cache {
          Unregister(p);
        }
      }
    }

    method Unregister(p: nat)
      requires Valid() && p in cache
      modifies this`cache, this`residentBytes
      ensures Valid() && cache == old(cache) - {p} && (old(Sound()) ==> Sound())
    {
      TotalWithout(slots, cache, p);
      var left := residentBytes - slots[p].size;
      residentBytes := if left < 0 then 0 else left;
      cache := cache - {p};
    }

    /** Drop one slot's payload; dirty slots are left alone. A cold slot is only
        taken off the registry, and its bytes stay on the counter: what is charged
        for no payload never changes, so the counter goes wrong exactly there. */
    method EvictEntry(p: nat)
      requires Valid() && p in cache
      modifies this`slots, this`cache, this`residentBytes, this`evictions
      ensures Valid() && Held() == old(Held()) && (old(Sound()) ==> Sound())
      ensures if old(slots[p]).dirty then slots == old(slots) && cache == old(cache)
              else slots == old(slots)[p := old(slots[p]).(resident := false)] && cache == old(cache) - {p}
      ensures old(Stray()) >= 0 ==>
                && Stray() == old(Stray())
                && residentBytes == old(residentBytes) -
                     (if cache == old(cache) || !old(slots[p]).resident then 0 else old(slots[p]).size)
      ensures old(residentBytes) == TotalSize(old(slots), old(cache)) ==>
                (residentBytes == TotalSize(slots, cache) <==>
                 old(slots[p]).dirty || old(slots[p]).resident || old(slots[p]).size == 0)
    {
      if slots[p].dirty {
        return;
      }
      Dropped(slots, cache, p);
      var cold := !slots[p].resident;
      slots := slots[p := slots[p].(resident := false)];
      cache := cache - {p};
      if cold {
        return;
      }
      var left := residentBytes - slots[p].size;
      residentBytes := if left < 0 then 0 else left;
      evictions := evictions + 1;
    }

    method SweepClean() returns (evicted: bool)
      requires Valid() && residentBytes > budget
      modifies this`slots, this`cache, this`residentBytes, this`evictions
      ensures Valid() && OnlyEvicted(old(slots), old(cache), slots, cache)
      ensures Held() == old(Held()) && (old(Sound()) ==> Sound()) && (old(Stray()) >= 0 ==> Stray() == old(Stray()))
      ensures cache <= old(cache) && slots.Keys == old(slots).Keys
      ensures evicted <==> cache != old(cache)
      ensures forall p <- cache :: slots[p] == old(slots)[p]
      ensures residentBytes <= budget || forall p <- cache :: slots[p].dirty || slots[p].refBit
    {
      hide OnlyEvicted;
      evicted := false;
      var todo := cache;
      ghost var slots0, cache0 := slots, cache;
      UntouchedIsFine(slots, cache);
      while todo != {}
        invariant Valid() && OnlyEvicted(slots0, cache0, slots, cache)
        invariant Held() == old(Held()) && (old(Sound()) ==> Sound())
        invariant old(Stray()) >= 0 ==> Stray() == old(Stray())
        invariant todo <= cache <= cache0 && slots.Keys == slots0.Keys
        invariant evicted <==> cache != cache0
        invariant forall p <- cache :: slots[p] == slots0[p]
        invariant forall p <- cache - todo :: slots[p].dirty || slots[p].refBit
        decreases |todo|
      {
        if residentBytes <= budget {
          return;
        }
        var p :| p in todo;
        todo := todo - {p};
        if slots[p].dirty || slots[p].refBit {
          continue;
        }
        OneEvicted(slots0, cache0, slots, cache, p);
        EvictEntry(p);
        evicted := true;
      }
    }

    method ClearRefBits() returns (cleared: bool)
      requires Valid()
      modifies this`slots
      ensures Valid() && OnlyEvicted(old(slots), cache, slots, cache)
      ensures Held() == old(Held()) && (old(Sound()) ==> Sound()) && Stray() == old(Stray())
      ensures Referenced(slots, cache) == {}
      ensures cleared <==> Referenced(old(slots), cache) != {}
    {
      hide OnlyEvicted, Warm, TotalSize;
      cleared := false;
      var todo := cache;
      ghost var slots0 := slots;
      UntouchedIsFine(slots, cache);
      while todo != {}
        invariant todo <= cache && Valid() && slots.Keys == slots0.Keys
        invariant OnlyEvicted(slots0, cache, slots, cache)
        invariant Held() == old(Held()) && (old(Sound()) ==> Sound()) && Stray() == old(Stray())
        invariant forall p <- cache - todo :: !slots[p].refBit
        invariant forall p <- todo :: slots[p] == slots0[p]
        invariant cleared <==> exists p <- cache - todo :: slots0[p].refBit
        decreases |todo|
      {
        var p :| p in todo;
        todo := todo - {p};
        assert p in cache - todo;
        if slots[p].refBit {
          OneCleared(slots0, cache, slots, p);
          SameCharge(slots, slots[p := slots[p].(refBit := false)], cache);
          slots := slots[p := slots[p].(refBit := false)];
          cleared := true;
        }
      }
      assert cleared ==> exists p <- cache :: p in Referenced(slots0, cache);
      assert forall p <- Referenced(slots0, cache) :: p in cache - todo && slots0[p].refBit;
    }

    /** Evict until the budget holds, or only dirty slots are left. */
    method EvictLocked()
      requires Valid()
      modifies this`slots, this`cache, this`residentBytes, this`evictions
      ensures Valid() && OnlyEvicted(old(slots), old(cache), slots, cache)
      ensures Held() == old(Held()) && (old(Sound()) ==> Sound()) && (old(Stray()) >= 0 ==> Stray() == old(Stray()))
      ensures cache <= old(cache) && slots.Keys == old(slots).Keys
      ensures budget > 0 && mayEvict ==> residentBytes <= budget || forall p <- cache :: slots[p].dirty
      ensures budget <= 0 || !mayEvict || old(residentBytes) <= budget ==>
                slots == old(slots) && cache == old(cache) && residentBytes == old(residentBytes)
    {
      hide OnlyEvicted, Cache.Held, Cache.Stray, Cache.Sound;
      UntouchedIsFine(slots, cache);
      if budget <= 0 || !mayEvict {
        return;
      }
      ghost var slots0, cache0 := slots, cache;
      while residentBytes > budget && |cache| > 0
        invariant Valid() && OnlyEvicted(slots0, cache0, slots, cache)
        invariant cache <= cache0 && slots.Keys == slots0.Keys
        invariant Held() == old(Held()) && (old(Sound()) ==> Sound())
        invariant old(Stray()) >= 0 ==> Stray() == old(Stray())
        invariant old(residentBytes) <= budget ==>
                    slots == slots0 && cache == cache0 && residentBytes == old(residentBytes)
        decreases |cache|, |Referenced(slots, cache)|
      {
        ghost var slots1, cache1 := slots, cache;
        var evicted := SweepClean();
        EvictedTwice(slots0, cache0, slots1, cache1, slots, cache);
        if residentBytes <= budget {
          return;
        }
        ghost var slots2 := slots;
        var cleared := ClearRefBits();
        EvictedTwice(slots0, cache0, slots2, cache, slots, cache);
        if !cleared && !evicted {
          StillDirty(slots2, slots, cache);
          return;
        }
        RoundProgress(slots1, cache1, slots2, slots, cache);
      }
      if |cache| == 0 { assert cache == {}; }
    }

    /** Register a slot and charge its size, unless it already is. A slot that has
        been evicted since it was filled is charged for a payload it does not hold. */
    method CacheAdmit(p: nat)
      requires Valid() && p in slots
      modifies this`slots, this`cache, this`residentBytes, this`evictions
      ensures Valid() && (old(Sound()) && old(slots[p]).resident ==> Sound())
      ensures old(Stray()) >= 0 ==>
                Stray() == old(Stray()) + (if p in old(cache) || old(slots[p]).resident then 0 else old(slots[p]).size)
      ensures p in old(cache) ==> slots == old(slots) && cache == old(cache)
      ensures OnlyEvicted(old(slots), old(cache) + {p}, slots, cache)
      ensures p !in old(cache) && budget > 0 && mayEvict ==>
                residentBytes <= budget || forall q <- cache :: slots[q].dirty
      // what fits, and everything where nothing is ever evicted, stays
      ensures p !in old(cache)
              && (budget <= 0 || !mayEvict || old(residentBytes) + old(slots[p]).size <= budget) ==>
                && slots == old(slots) && cache == old(cache) + {p}
                && residentBytes == old(residentBytes) + old(slots[p]).size
    {
      hide OnlyEvicted;
      if p in cache {
        assert cache + {p} == cache;
        UntouchedIsFine(slots, cache);
        return;
      }
      Charged(slots, cache, p);
      cache := cache + {p};
      residentBytes := residentBytes + slots[p].size;
      EvictLocked();
    }

    /** With nothing registered, a clean slot that does not fit is dropped at once. Its
        bytes leave the counter again exactly when it still held its payload. */
    method AdmitTooLarge(p: nat)
      requires Valid() && p in slots && !slots[p].dirty && cache == {}
      requires mayEvict && 0 < budget < residentBytes + slots[p].size
      modifies this`slots, this`cache, this`residentBytes, this`evictions
      ensures Valid() && cache == {}
      ensures exists bit :: slots == old(slots)[p := old(slots[p]).(resident := false, refBit := bit)]
      ensures residentBytes == old(residentBytes) + (if old(slots[p]).resident then 0 else old(slots[p]).size)
    {
      hide TotalSize, Warm;
      NoneIsFree(slots);
      ghost var was := slots;
      CacheAdmit(p);
      if p in cache {
        assert cache == {p};
        if slots[p].resident { AloneIsCharged(slots, p); }
        assert false;
      }
      assert cache == {};
      NoneIsFree(slots);
      assert slots == was[p := was[p].(resident := false, refBit := slots[p].refBit)];
    }

    /** The end of a read that found the slot cold: the payload is in place, with the
        length of its record, and not yet registered. */
    method Fill(p: nat, length: nat)
      requires Valid() && p in slots
      modifies this`slots
      ensures Valid() && slots == old(slots)[p := Slot(true, old(slots[p]).dirty, true, length)]
      ensures p !in cache ==> Stray() == old(Stray()) && (old(Sound()) ==> Sound())
    {
      ghost var before := slots;
      slots := slots[p := slots[p].(resident := true, refBit := true, size := length)];
      if p !in cache { SameCharge(before, slots, cache); }
    }

    /** A read with nobody else reading: a cold slot is filled from the log, charged,
        and may at once be evicted again; a warm one only gets its reference bit set. */
    method Load(p: nat, length: nat)
      requires Valid() && p in slots
      modifies this`slots, this`cache, this`residentBytes, this`evictions
      ensures Valid() && (old(Sound()) ==> Sound())
      ensures old(slots[p]).resident ==>
                slots == old(slots)[p := old(slots[p]).(refBit := true)] && cache == old(cache)
      ensures !old(slots[p]).resident ==>
                OnlyEvicted(old(slots)[p := old(slots[p]).(resident := true, refBit := true, size := length)],
                            old(cache) + {p}, slots, cache)
      // a slot that fits stays, resident and registered, and nothing else goes
      ensures !old(slots[p]).resident && p !in old(cache)
              && (budget <= 0 || !mayEvict || old(residentBytes) + length <= budget) ==>
                && slots == old(slots)[p := Slot(true, old(slots[p]).dirty, true, length)]
                && cache == old(cache) + {p} && residentBytes == old(residentBytes) + length
    {
      ghost var before := slots;
      if slots[p].resident {
        slots := slots[p := slots[p].(refBit := true)];
        SameCharge(before, slots, cache);
        return;
      }
      Fill(p, length);
      CacheAdmit(p);
    }

    /** Storing a new document in a slot; an update does not register the slot. */
    method StoreDoc(p: nat, admit: bool)
      requires Valid() && p in slots
      modifies this`slots, this`cache, this`residentBytes, this`evictions
      ensures Valid() && (old(Sound()) ==> Sound())
      ensures OnlyEvicted(old(slots)[p := old(slots[p]).(resident := true, dirty := true)],
                          if admit then old(cache) + {p} else old(cache), slots, cache)
      ensures p in slots && slots[p].resident && slots[p].dirty && (admit ==> p in cache)
      ensures admit && p !in old(cache) && old(residentBytes) + old(slots[p]).size <= budget ==>
                && slots == old(slots)[p := old(slots[p]).(resident := true, dirty := true)]
                && cache == old(cache) + {p} && residentBytes == old(residentBytes) + old(slots[p]).size
    {
      ghost var before := slots;
      slots := slots[p := slots[p].(resident := true, dirty := true)];
      TotalSameSizes(before, slots, cache);
      if admit {
        CacheAdmit(p);
      } else {
        UntouchedIsFine(slots, cache);
      }
    }

    /** An insert makes its slot, marks it dirty and registers it: the slot costs
        nothing, so within the budget nothing is evicted for it. */
    method StoreNew() returns (p: nat)
      requires Valid()
      modifies this`slots, this`made, this`cache, this`residentBytes, this`evictions
      ensures Valid() && (old(Sound()) ==> Sound()) && p !in old(slots)
      ensures OnlyEvicted(old(slots)[p := Slot(true, true, false, 0)], old(cache) + {p}, slots, cache)
      ensures p in cache && slots[p].resident && slots[p].dirty
      ensures old(residentBytes) <= budget ==>
                && slots == old(slots)[p := Slot(true, true, false, 0)] && cache == old(cache) + {p}
                && residentBytes == old(residentBytes)
    {
      p := NewSlot(true);
      assert slots[p := slots[p].(resident := true, dirty := true)] == old(slots)[p := Slot(true, true, false, 0)];
      StoreDoc(p, true);
    }

    /** Deleting a document tries to evict its slot; a dirty slot stays charged, and
        no other slot is touched. */
    method Forget(p: nat)
      requires Valid() && p in slots
      modifies this`slots, this`cache, this`residentBytes, this`evictions
      ensures Valid() && Held() == old(Held()) && (old(Sound()) ==> Sound())
      ensures old(Stray()) >= 0 ==> Stray() == old(Stray())
      ensures if p in old(cache) && !old(slots[p]).dirty
              then slots == old(slots)[p := old(slots[p]).(resident := false)] && cache == old(cache) - {p}
              else slots == old(slots) && cache == old(cache)
    {
      if p in cache {
        EvictEntry(p);
      }
    }
  }

  /** Two readers find one cold slot, larger than the budget, before either has filled
      it. The admission of the first evicts it at once; that of the second charges
      it again with no payload, and its eviction gives nothing back. The counter
      stays over the budget with nothing registered, so a clean slot that would fit
      is dropped as soon as it is read, now and ever after. */
  method TwoReaders(cacheBytes: int, length: nat, small: nat) returns (c: Cache, q: nat)
    requires 0 < cacheBytes < length && small <= cacheBytes
    ensures fresh(c) && c.Valid() && c.budget == cacheBytes && c.mayEvict
    ensures c.cache == {} && c.residentBytes == c.Stray() == length
    ensures q in c.slots && !c.slots[q].resident && c.slots[q].size == small
  {
    hide TotalSize, Warm, Cache.Sound, Cache.Stray, OnlyEvicted;
    c := new Cache(cacheBytes, true);
    var p := c.NewSlot(false);
    q := c.NewSlot(false);
    c.Fill(p, length);
    c.Fill(p, length);
    c.AdmitTooLarge(p);
    c.AdmitTooLarge(p);
    c.Fill(q, small);
    c.AdmitTooLarge(q);
    NothingRegistered(c);
  }

  lemma NothingRegistered(c: Cache)
    requires c.Valid() && c.cache == {}
    ensures c.Stray() == c.residentBytes
  {
    NoneIsFree(c.slots);
  }

  lemma NoneIsFree(slots: map<nat, Slot>)
    ensures TotalSize(slots, Warm(slots, {})) == 0
  {
    assert Warm(slots, {}) == {};
  }

  lemma AloneIsCharged(slots: map<nat, Slot>, p: nat)
    requires p in slots && slots[p].resident
    ensures TotalSize(slots, Warm(slots, {p})) == slots[p].size
  {
    assert Warm(slots, {p}) == {p};
    TotalWithout(slots, {p}, p);
    assert {p} - {p} == {};
  }

  // ---------------------------------------------------------------- what the counter holds

  /** Slots that agree on sizes and payloads are charged alike. */
  lemma SameCharge(a: map<nat, Slot>, b: map<nat, Slot>, s: set<nat>)
    requires s <= a.Keys && s <= b.Keys
    requires forall p <- s :: a[p].size == b[p].size && a[p].resident == b[p].resident
    ensures Warm(a, s) == Warm(b, s)
    ensures TotalSize(a, s) == TotalSize(b, s) && TotalSize(a, Warm(a, s)) == TotalSize(b, Warm(b, s))
  {
    TotalSameSizes(a, b, s);
    assert Warm(a, s) == Warm(b, s);
    TotalSameSizes(a, b, Warm(a, s));
  }

  /** Dropping one payload takes its bytes off both totals, off the second only when
      it was there. */
  lemma Dropped(slots: map<nat, Slot>, s: set<nat>, p: nat)
    requires s <= slots.Keys && p in s
    ensures var now := slots[p := slots[p].(resident := false)];
            && TotalSize(now, s - {p}) == TotalSize(slots, s) - slots[p].size
            && TotalSize(now, Warm(now, s - {p})) ==
                 TotalSize(slots, Warm(slots, s)) - (if slots[p].resident then slots[p].size else 0)
            && |Warm(now, s - {p})| == |Warm(slots, s)| - (if slots[p].resident then 1 else 0)
  {
    var now := slots[p := slots[p].(resident := false)];
    TotalWithout(slots, s, p);
    SameCharge(slots, now, s - {p});
    if slots[p].resident {
      TotalWithout(slots, Warm(slots, s), p);
      assert Warm(slots, s) - {p} == Warm(slots, s - {p});
    } else {
      assert Warm(slots, s) == Warm(slots, s - {p});
    }
  }

  lemma Charged(slots: map<nat, Slot>, s: set<nat>, p: nat)
    requires s <= slots.Keys && p in slots && p !in s
    ensures TotalSize(slots, s + {p}) == TotalSize(slots, s) + slots[p].size
    ensures TotalSize(slots, Warm(slots, s + {p})) ==
              TotalSize(slots, Warm(slots, s)) + (if slots[p].resident then slots[p].size else 0)
  {
    assert s + {p} - {p} == s;
    TotalWithout(slots, s + {p}, p);
    if slots[p].resident {
      TotalWithout(slots, Warm(slots, s + {p}), p);
      assert Warm(slots, s + {p}) - {p} == Warm(slots, s);
    } else {
      assert Warm(slots, s + {p}) == Warm(slots, s);
    }
  }

  // ---------------------------------------------------------------- what eviction may do

  /** From (slots0, cache0) to (slots1, cache1): clean payloads dropped and
      reference bits cleared, nothing else. */
  ghost predicate OnlyEvicted(slots0: map<nat, Slot>, cache0: set<nat>, slots1: map<nat, Slot>, cache1: set<nat>)
  {
    && slots1.Keys == slots0.Keys && cache1 <= cache0 <= slots0.Keys
    && (forall p <- slots0 | p !in cache0 :: slots1[p] == slots0[p])
    && (forall p <- cache1 :: slots1[p] == slots0[p].(refBit := slots1[p].refBit))
    && (forall p <- cache0 - cache1 ::
          !slots0[p].dirty && slots1[p] == slots0[p].(resident := false, refBit := slots1[p].refBit))
  }

  lemma UntouchedIsFine(slots: map<nat, Slot>, cache: set<nat>)
    requires cache <= slots.Keys
    ensures OnlyEvicted(slots, cache, slots, cache)
  {
  }

  lemma OneEvicted(slots0: map<nat, Slot>, cache0: set<nat>, slots1: map<nat, Slot>, cache1: set<nat>, p: nat)
    requires OnlyEvicted(slots0, cache0, slots1, cache1) && p in cache1 && p in slots1 && !slots1[p].dirty
    ensures OnlyEvicted(slots0, cache0, slots1[p := slots1[p].(resident := false)], cache1 - {p})
    ensures |cache1 - {p}| == |cache1| - 1
  {
  }

  lemma OneCleared(slots0: map<nat, Slot>, cache: set<nat>, slots1: map<nat, Slot>, p: nat)
    requires OnlyEvicted(slots0, cache, slots1, cache) && p in cache && p in slots1
    ensures OnlyEvicted(slots0, cache, slots1[p := slots1[p].(refBit := false)], cache)
  {
  }

  lemma EvictedTwice(slots0: map<nat, Slot>, cache0: set<nat>, slots1: map<nat, Slot>, cache1: set<nat>,
                     slots2: map<nat, Slot>, cache2: set<nat>)
    requires OnlyEvicted(slots0, cache0, slots1, cache1) && OnlyEvicted(slots1, cache1, slots2, cache2)
    ensures OnlyEvicted(slots0, cache0, slots2, cache2)
  {
  }

  lemma StillDirty(slots1: map<nat, Slot>, slots2: map<nat, Slot>, cache: set<nat>)
    requires OnlyEvicted(slots1, cache, slots2, cache)
    requires Referenced(slots1, cache) == {} && forall p <- cache :: slots1[p].dirty || slots1[p].refBit
    ensures forall p <- cache :: slots2[p].dirty
  {
    forall p <- cache
      ensures slots2[p].dirty
    {
      assert p !in Referenced(slots1, cache);
    }
  }

  /** A round that evicts nothing clears at least one reference bit. */
  lemma RoundProgress(slots0: map<nat, Slot>, cache0: set<nat>, slots1: map<nat, Slot>, slots2: map<nat, Slot>,
      cache: set<nat>)
    requires cache <= cache0 <= slots0.Keys && cache <= slots1.Keys && cache <= slots2.Keys
    requires forall p <- cache :: slots1[p] == slots0[p]
    requires Referenced(slots2, cache) == {}
    requires cache != cache0 || Referenced(slots1, cache) != {}
    ensures |cache| < |cache0| || (|cache| == |cache0| && |Referenced(slots2, cache)| < |Referenced(slots0, cache0)|)
  {
    if cache != cache0 {
      assert cache0 == cache + (cache0 - cache);
    } else {
      assert Referenced(slots0, cache0) == Referenced(slots1, cache);
    }
  }
}
