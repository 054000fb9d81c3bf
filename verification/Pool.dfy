/** The pool: the queue, the regions and their page tables together, and the
    fault path of `src/inproc.c` that keeps the three views in step. */
module Pools {
  import opened Basics
  import opened Pages
  import opened Layouts
  import opened SharedPages
  import opened PageTables
  import opened LruQueues
  import opened ChunkQueues
  import opened CacheModel
  import opened CacheTheorems
  import opened FaultTheorems
  import opened FaultRace
  import opened Regions

  /** Status of chunk `k` according to the queue. */
  ghost function StatusOf(q: seq<Key>, hot: nat, k: Key): Status
    requires hot <= |q|
  {
    if k in q[..hot] then Hot else if k in q then Cold else Absent
  }

  /** The queue changed for chunk `k` only. */
  ghost predicate OnlyAffects(q: seq<Key>, hot: nat, q': seq<Key>, hot': nat, k: Key) {
    && hot <= |q| && hot' <= |q'|
    && forall j :: j != k ==> StatusOf(q', hot', j) == StatusOf(q, hot, j)
  }

  lemma PushAffects(q: seq<Key>, hot: nat, k: Key)
    requires hot <= |q|
    ensures OnlyAffects(q, hot, [k] + q, hot + 1, k) && StatusOf([k] + q, hot + 1, k) == Hot
  {
    assert ([k] + q)[..hot + 1] == [k] + q[..hot];
  }

  lemma RemoveAffects(q: seq<Key>, hot: nat, i: nat)
    requires hot <= |q| && i < |q| && Distinct(q)
    ensures var hot' := if i < hot then hot - 1 else hot;
            OnlyAffects(q, hot, Without(q, i), hot', q[i]) && StatusOf(Without(q, i), hot', q[i]) == Absent
  {
    WithoutMembers(q, i);
    if i < hot {
      PrefixWithout(q, hot, i);
      WithoutMembers(q[..hot], i);
    } else {
      assert Without(q, i)[..hot] == q[..hot];
    }
  }

  lemma DemoteAffects(q: seq<Key>, hot: nat)
    requires 0 < hot <= |q| && Distinct(q)
    ensures OnlyAffects(q, hot, q, hot - 1, q[hot - 1]) && StatusOf(q, hot - 1, q[hot - 1]) == Cold
  {
    assert q[..hot] == q[..hot - 1] + [q[hot - 1]];
  }

  /** The flags of region `rid` say the same about its chunks as the queue. */
  ghost predicate FlagsAgree(rid: nat, initialized: seq<bool>, q: seq<Key>, hot: nat)
    requires hot <= |q|
  {
    forall c :: 0 <= c < |initialized| ==> (initialized[c] <==> StatusOf(q, hot, Key(rid, c)) != Absent)
  }

  /** So does its page table. */
  ghost predicate TableAgrees(rid: nat, status: seq<Status>, q: seq<Key>, hot: nat)
    requires hot <= |q|
  {
    forall c :: 0 <= c < |status| ==> status[c] == StatusOf(q, hot, Key(rid, c))
  }

  ghost predicate InStep(rid: nat, initialized: seq<bool>, status: seq<Status>, q: seq<Key>, hot: nat) {
    hot <= |q| && FlagsAgree(rid, initialized, q, hot) && TableAgrees(rid, status, q, hot)
  }

  lemma InStepElsewhere(rid: nat, ini: seq<bool>, st: seq<Status>, q: seq<Key>, hot: nat, q': seq<Key>, hot': nat,
                        k: Key)
    requires InStep(rid, ini, st, q, hot) && OnlyAffects(q, hot, q', hot', k) && rid != k.rid
    ensures InStep(rid, ini, st, q', hot')
  {
  }

  lemma InStepHere(ini: seq<bool>, st: seq<Status>, q: seq<Key>, hot: nat, q': seq<Key>, hot': nat, k: Key)
    requires InStep(k.rid, ini, st, q, hot) && OnlyAffects(q, hot, q', hot', k)
    requires k.chunk < |ini| && k.chunk < |st|
    ensures var s := StatusOf(q', hot', k);
            InStep(k.rid, ini[k.chunk := s != Absent], st[k.chunk := s], q', hot')
  {
  }

  class Pool {
    const target: nat
    const lru: ChunkQueue
    var residentBytes: nat
    var regions: map<nat, Region>
    /** When each chunk was last filled or promoted. */
    ghost var clock: nat
    ghost var stamp: map<Key, nat>
    ghost var members: set<Region>

    ghost function AbsRegions(): map<nat, RegionM>
      reads this, members, regions.Values
    {
      map rid | rid in regions :: regions[rid].Abs()
    }

    ghost function Abs(): Cache
      reads this, lru, members, regions.Values
    {
      Cache(target, lru.keys, lru.hot, AbsRegions(), clock, stamp)
    }

    /** Objects are where they belong and know who they are. */
    ghost predicate Wired()
      reads this, lru
    {
      && (forall rid :: rid in regions ==> regions[rid] in members && regions[rid].id == rid)
      && (forall k :: k in lru.nodes <==> k.rid in regions && k.chunk + 1 < |regions[k.rid].l.starts|)
    }

    ghost predicate Sizes()
      reads this, lru
      requires Wired()
    {
      forall k :: k in lru.nodes ==>
        regions[k.rid].l.Valid() && lru.nodes[k].size == regions[k.rid].l.Size(k.chunk)
    }

    ghost predicate RegionOk(r: Region)
      reads lru, r
    {
      r.Valid() && InStep(r.id, r.initialized, r.status, lru.keys, lru.hot)
    }

    ghost predicate RegionsInStep()
      reads this, lru, members, regions.Values
    {
      forall rid :: rid in regions ==> RegionOk(regions[rid])
    }

    ghost predicate Valid()
      reads this, lru, lru.list, lru.list.head, lru.list.q, lru.owned, members, regions.Values
    {
      && Wired() && Sizes()
      && lru.Valid()
      && RegionsInStep()
      && Inv(Abs())
      && residentBytes == Resident(Abs())
    }

    /** `fc_pool_create` */
    constructor (target: nat)
      ensures Valid() && Abs() == NewCache(target)
      ensures fresh(lru) && fresh(lru.list) && fresh(lru.list.head) && lru.owned == {} && members == {}
    {
      this.target := target;
      lru := new ChunkQueue();
      residentBytes, regions, clock, stamp, members := 0, map[], 0, map[], {};
    }

    /** Everything but the queue and region `r` is as it was. */
    twostate predicate OthersKept(r: Region)
      reads this, lru, members, regions.Values
    {
      && regions == old(regions) && members == old(members)
      && forall rid :: rid in regions && regions[rid] != r ==> unchanged(regions[rid])
    }

    /** The abstract regions after only `r` changed. */
    twostate lemma AbsRegionsAfter(r: Region)
      requires old(Wired()) && r.id in old(regions) && old(regions)[r.id] == r && OthersKept(r)
      ensures AbsRegions() == old(AbsRegions())[r.id := r.Abs()]
    {
      forall rid | rid in regions && rid != r.id
        ensures regions[rid].Abs() == old(regions[rid].Abs())
      {
        assert regions[rid].id == rid;
      }
    }

    /** Restores the invariant after a step on one chunk of `r`: the other
        regions stay in step because the queue changed for that chunk only. */
    twostate lemma Reestablish(r: Region, new k: Key)
      requires old(Wired()) && old(Sizes()) && old(RegionsInStep())
      requires r.id in old(regions) && old(regions)[r.id] == r && OthersKept(r)
      requires k.rid == r.id && OnlyAffects(old(lru.keys), old(lru.hot), lru.keys, lru.hot, k)
      requires lru.Valid() && lru.nodes == old(lru.nodes)
      requires RegionOk(r) && Inv(Abs()) && residentBytes == Resident(Abs())
      ensures Valid()
    {
      hide Region.Valid, Inv, InStep, ChunkQueue.Valid, OnlyAffects;
      forall rid | rid in regions && rid != r.id
        ensures RegionOk(regions[rid])
      {
        var o := regions[rid];
        assert old(RegionOk(o)) && o.id == rid;
        InStepElsewhere(rid, o.initialized, o.status, old(lru.keys), old(lru.hot), lru.keys, lru.hot, k);
      }
    }

    /** What the pool's invariant says about one region and its chunks. */
    lemma RegionFacts(rid: nat)
      requires Valid() && rid in regions
      ensures var r := regions[rid];
              && r.Valid() && r.id == rid && r.l.Valid() && |r.initialized| == |r.status| == r.l.N()
              && r in members && InStep(rid, r.initialized, r.status, lru.keys, lru.hot)
              && rid in Abs().regions && Abs().regions[rid] == r.Abs() && RegionsOk(Abs())
      ensures lru.hot <= |lru.keys| && Distinct(lru.keys)
    {
      assert RegionOk(regions[rid]);
    }

    lemma QueuedLive(k: Key)
      requires Valid() && k in lru.keys
      ensures k.rid in regions && k.chunk < regions[k.rid].l.N()
      ensures Live(Abs(), k)
    {
      hide Region.Valid, InStep, ChunkQueue.Valid;
      assert Live(Abs(), k) && Staged(Abs(), k);
    }

    lemma ChunkFacts(rid: nat, c: nat)
      requires Valid() && rid in regions && c < regions[rid].l.N()
      ensures var r := regions[rid];
              var k := Key(rid, c);
              && r.l.Valid() && c < |r.initialized| && c < |r.status|
              && (r.initialized[c] <==> k in lru.keys) && k in lru.nodes && Live(Abs(), k)
              && r.status[c] == StatusOf(lru.keys, lru.hot, k)
    {
      RegionFacts(rid);
      assert lru.keys[..lru.hot] <= lru.keys;
    }

    /** What filling chunk `k` will do to the abstract state and to the rest. */
    lemma FillPlan(rid: nat, c: nat)
      requires Valid() && rid in regions && c < regions[rid].l.N() && !regions[rid].initialized[c]
      ensures var r, k, s := regions[rid], Key(rid, c), Abs();
              && r.Valid() && r.id == rid && r.l.Valid() && |r.initialized| == |r.status| == r.l.N()
              && k in lru.nodes && k !in lru.keys && lru.hot <= |lru.keys|
              && RegionsOk(s) && Live(s, k) && s.regions[rid] == r.Abs()
              && Inv(Fill(s, k)) && Resident(Fill(s, k)) == residentBytes + r.l.Size(c)
              && OnlyAffects(lru.keys, lru.hot, [k] + lru.keys, lru.hot + 1, k)
              && InStep(rid, r.initialized[c := true], r.status[c := Hot], [k] + lru.keys, lru.hot + 1)
    {
      hide Region.Valid, Inv, InStep, ChunkQueue.Valid, OnlyAffects, StatusOf, Fill, Wired, Sizes, RegionsInStep;
      var r, k, s := regions[rid], Key(rid, c), Abs();
      RegionFacts(rid);
      ChunkFacts(rid, c);
      FillInv(s, k);
      FillResident(s, k);
      PushAffects(lru.keys, lru.hot, k);
      InStepHere(r.initialized, r.status, lru.keys, lru.hot, [k] + lru.keys, lru.hot + 1, k);
    }

    method FillSteps(r: Region, c: nat)
      requires lru.Valid() && r.Valid() && r.l.Valid() && c < r.l.N() && !r.initialized[c]
      requires Key(r.id, c) in lru.nodes && Key(r.id, c) !in lru.keys
      modifies this`residentBytes, this`clock, this`stamp, lru, lru.list, lru.list.head, lru.owned, r
      ensures lru.Valid() && lru.nodes == old(lru.nodes) && lru.owned == old(lru.owned)
      ensures lru.keys == [Key(r.id, c)] + old(lru.keys) && lru.hot == old(lru.hot) + 1
      ensures r.Valid() && r.initialized == old(r.initialized)[c := true] && r.status == old(r.status)[c := Hot]
      ensures r.Abs() == FilledRegion(old(r.Abs()), c)
      ensures residentBytes == old(residentBytes) + r.l.Size(c)
      ensures stamp == old(stamp)[Key(r.id, c) := old(clock)] && clock == old(clock) + 1
    {
      hide Region.Valid, ChunkQueue.Valid, FilledRegion;
      r.Fill(c);
      lru.InsertMru(Key(r.id, c));
      residentBytes := residentBytes + r.l.Size(c);
      stamp, clock := stamp[Key(r.id, c) := clock], clock + 1;
    }

    /** `fill_chunk_locked` */
    method FillChunkLocked(rid: nat, c: nat)
      requires Valid() && rid in regions && c < regions[rid].l.N() && !regions[rid].initialized[c]
      modifies this`residentBytes, this`clock, this`stamp, lru, lru.list, lru.list.head, lru.owned, regions[rid]
      ensures Valid() && lru.owned == old(lru.owned)
      ensures Abs() == Fill(old(Abs()), Key(rid, c))
    {
      hide Region.Valid, Inv, InStep, ChunkQueue.Valid, OnlyAffects, Fill, RegionsOk, FilledRegion, StatusOf,
           Wired, Sizes, RegionsInStep, Resident;
      var r := regions[rid];
      FillPlan(rid, c);
      FillKeys(Abs(), Key(rid, c));
      ghost var s' := Fill(Abs(), Key(rid, c));
      FillSteps(r, c);
      AbsRegionsAfter(r);
      assert Abs() == s';
      Reestablish(r, Key(rid, c));
    }

    // -------------------------------------------------------------- promotion

    lemma PromotePlan(rid: nat, c: nat)
      requires Valid() && rid in regions && c < regions[rid].l.N() && Key(rid, c) in lru.keys
      ensures var r, k, s := regions[rid], Key(rid, c), Abs();
              && r.Valid() && r.id == rid && r.l.Valid() && |r.initialized| == |r.status| == r.l.N()
              && r.status[c] == StatusOf(lru.keys, lru.hot, k) && r.status[c] != Absent
              && k in lru.nodes && lru.hot <= |lru.keys|
              && RegionsOk(s) && Live(s, k) && s.regions[rid] == r.Abs()
              && Inv(Promote(s, k)) && Resident(Promote(s, k)) == residentBytes
              && var s1 := Remove(s, IndexOf(s.queue, k));
              && k !in s1.queue
              && OnlyAffects(lru.keys, lru.hot, [k] + s1.queue, s1.hot + 1, k)
              && InStep(rid, r.initialized, r.status[c := Hot], [k] + s1.queue, s1.hot + 1)
    {
      hide Region.Valid, Inv, InStep, ChunkQueue.Valid, OnlyAffects, StatusOf, Promote, Wired, Sizes, RegionsInStep;
      var r, k, s := regions[rid], Key(rid, c), Abs();
      RegionFacts(rid);
      ChunkFacts(rid, c);
      QueuedStatus(lru.keys, lru.hot, k);
      PromoteInv(s, k);
      PromoteResident(s, k);
      PromoteAffects(s, k);
      var s1 := Remove(s, IndexOf(s.queue, k));
      InStepHere(r.initialized, r.status, lru.keys, lru.hot, [k] + s1.queue, s1.hot + 1, k);
      assert r.initialized[c := true] == r.initialized;
    }

    method PromoteSteps(r: Region, c: nat, ghost i: nat)
      requires lru.Valid() && r.Valid() && r.l.Valid() && c < r.l.N() && |r.status| == r.l.N() && r.status[c] != Absent
      requires i < |lru.keys| && lru.keys[i] == Key(r.id, c) && Key(r.id, c) in lru.nodes
      requires Key(r.id, c) !in Without(lru.keys, i)
      requires lru.hot <= |lru.keys| && Key(r.id, c) !in lru.keys[..lru.hot]
      modifies this`clock, this`stamp, lru, lru.list, lru.list.head, lru.owned, r
      ensures lru.Valid() && lru.nodes == old(lru.nodes) && lru.owned == old(lru.owned)
      ensures lru.keys == [Key(r.id, c)] + Without(old(lru.keys), i)
      ensures lru.hot == old(lru.hot) + 1 && i >= old(lru.hot)
      ensures r.Valid() && r.initialized == old(r.initialized) && r.status == old(r.status)[c := Hot]
      ensures c < |old(r.Abs()).faults| && r.Abs() == Counted(old(r.Abs()), c)
      ensures stamp == old(stamp)[Key(r.id, c) := old(clock)] && clock == old(clock) + 1
    {
      hide Region.PagesOk, ChunkQueue.Valid, Without;
      var k := Key(r.id, c);
      var cold := lru.IsCold(k);
      assert cold;
      r.SetReadable(c, true);
      lru.MoveToFront(k, i);
      r.CountPromotion(c);
      stamp, clock := stamp[k := clock], clock + 1;
    }

    /** `lru_promote` and the counters of `resolve_fault_locked`. */
    method PromoteChunk(rid: nat, c: nat)
      requires Valid() && rid in regions && c < regions[rid].l.N() && Key(rid, c) in lru.keys
      requires Key(rid, c) !in lru.keys[..lru.hot]
      modifies this`clock, this`stamp, lru, lru.list, lru.list.head, lru.owned, regions[rid]
      ensures Valid() && lru.owned == old(lru.owned)
      ensures Abs() == Promote(old(Abs()), Key(rid, c))
    {
      hide Region.Valid, Inv, InStep, ChunkQueue.Valid, OnlyAffects, Promote, RegionsOk, StatusOf,
           Wired, Sizes, RegionsInStep, Resident, Without;
      var r := regions[rid];
      var k := Key(rid, c);
      PromotePlan(rid, c);
      PromoteKeys(Abs(), k);
      ghost var s' := Promote(Abs(), k);
      PromoteSteps(r, c, IndexOf(lru.keys, k));
      AbsRegionsAfter(r);
      assert Abs() == s';
      Reestablish(r, k);
    }

    lemma RegionParts(r: Region)
      requires r.Valid()
      ensures r.PagesOk() && r.CountersOk() && r.l.Valid()
      ensures |r.status| == |r.initialized| == |r.faultsTotal| == r.l.N()
    {
    }

    // --------------------------------------------------------------- eviction

    lemma EvictPlan()
      requires Valid() && lru.keys != []
      ensures var k, s := lru.keys[|lru.keys| - 1], Abs();
              && k.rid in regions && lru.hot <= |lru.keys|
              && var r := regions[k.rid];
              && r in members && r.Valid() && r.id == k.rid && r.l.Valid() && |r.initialized| == |r.status| == r.l.N()
              && k.chunk < r.l.N() && r.initialized[k.chunk] && s.regions[k.rid] == r.Abs()
              && var s' := Remove(s, |s.queue| - 1);
              && Inv(s') && residentBytes >= r.l.Size(k.chunk)
              && Resident(s') == residentBytes - r.l.Size(k.chunk)
              && OnlyAffects(lru.keys, lru.hot, s'.queue, s'.hot, k)
              && InStep(k.rid, r.initialized[k.chunk := false], r.status[k.chunk := Absent], s'.queue, s'.hot)
    {
      hide Region.Valid, Inv, InStep, ChunkQueue.Valid, OnlyAffects, StatusOf, Wired, Sizes, RegionsInStep, Without;
      var k, s := lru.keys[|lru.keys| - 1], Abs();
      QueuedLive(k);
      RegionFacts(k.rid);
      var r := regions[k.rid];
      ChunkFacts(k.rid, k.chunk);
      RemoveInv(s, |s.queue| - 1);
      RemoveResident(s, |s.queue| - 1);
      RemoveAffects(lru.keys, lru.hot, |lru.keys| - 1);
      var s' := Remove(s, |s.queue| - 1);
      InStepHere(r.initialized, r.status, lru.keys, lru.hot, s'.queue, s'.hot, k);
    }

    method EvictSteps(r: Region, c: nat, ghost i: nat)
      requires lru.Valid() && r.Valid() && r.l.Valid() && c < r.l.N() && |r.initialized| == r.l.N() && r.initialized[c]
      requires i < |lru.keys| && lru.keys[i] == Key(r.id, c) && residentBytes >= r.l.Size(c)
      modifies this`residentBytes, lru, lru.list, lru.list.head, lru.owned, r
      ensures lru.Valid() && lru.nodes == old(lru.nodes) && lru.owned == old(lru.owned)
      ensures lru.keys == Without(old(lru.keys), i)
      ensures lru.hot == if i < old(lru.hot) then old(lru.hot) - 1 else old(lru.hot)
      ensures r.Valid() && r.Abs() == old(r.Abs())
      ensures |old(r.status)| == r.l.N() && r.status == old(r.status)[c := Absent]
      ensures r.initialized == old(r.initialized)[c := false]
      ensures residentBytes == old(residentBytes) - r.l.Size(c)
    {
      hide ChunkQueue.Valid, Without;
      RegionParts(r);
      hide Region.PagesOk, Region.CountersOk;
      lru.Unlink(Key(r.id, c), i);
      r.Forget(c);
      residentBytes := residentBytes - r.l.Size(c);
      r.Decommit(c);
    }

    /** `lru_evict_chunk` on the least recently used chunk. */
    method EvictTail()
      requires Valid() && lru.keys != []
      modifies this`residentBytes, lru, lru.list, lru.list.head, lru.owned, members
      ensures Valid() && lru.owned == old(lru.owned)
      ensures Abs() == Remove(old(Abs()), |old(lru.keys)| - 1)
    {
      hide Region.Valid, Inv, InStep, ChunkQueue.Valid, OnlyAffects, RegionsOk, StatusOf,
           Wired, Sizes, RegionsInStep, Resident, Without;
      EvictPlan();
      ghost var s' := Remove(Abs(), |lru.keys| - 1);
      var k := lru.Tail();
      var r, c := regions[k.rid], k.chunk;
      EvictSteps(r, c, |lru.keys| - 1);
      AbsRegionsAfter(r);
      assert Abs() == s';
      Reestablish(r, k);
    }

    /** `evict_until_within_budget` */
    method EvictUntilWithinBudget(rid: nat, lo: nat, hi: nat)
      requires Valid()
      modifies this`residentBytes, lru, lru.list, lru.list.head, lru.owned, members
      ensures Valid() && lru.owned == old(lru.owned)
      ensures Abs() == Evict(old(Abs()), rid, lo, hi)
    {
      hide Region.Valid, Inv, InStep, ChunkQueue.Valid, OnlyAffects, RegionsOk, StatusOf,
           Wired, Sizes, RegionsInStep, Remove, AbsRegions;
      HotInRange();
      if target == 0 {
        return;
      }
      while residentBytes > target
        invariant Valid() && lru.owned == old(lru.owned) && lru.hot <= |lru.keys|
        invariant Evict(Abs(), rid, lo, hi) == Evict(old(Abs()), rid, lo, hi)
        decreases |lru.keys|
      {
        // Nonzero resident bytes mean at least one queued chunk.
        assert lru.keys != [];
        var victim := lru.Tail();
        if victim.rid == rid && lo <= victim.chunk <= hi {
          break;
        }
        RemoveShrinks(Abs());
        EvictTail();
        HotInRange();
      }
    }

    lemma HotInRange()
      requires Valid()
      ensures lru.hot <= |lru.keys|
    {
    }

    // -------------------------------------------------------------- rebalance

    lemma DemotePlan()
      requires Valid() && lru.hot > 0
      ensures lru.hot <= |lru.keys|
      ensures var k, s := lru.keys[lru.hot - 1], Abs();
              && k.rid in regions
              && var r := regions[k.rid];
              && r in members && r.Valid() && r.id == k.rid && r.l.Valid() && |r.initialized| == |r.status| == r.l.N()
              && k.chunk < r.l.N() && r.status[k.chunk] != Absent && s.regions[k.rid] == r.Abs()
              && Inv(s.(hot := s.hot - 1))
              && OnlyAffects(lru.keys, lru.hot, lru.keys, lru.hot - 1, k)
              && InStep(k.rid, r.initialized, r.status[k.chunk := Cold], lru.keys, lru.hot - 1)
    {
      hide Region.Valid, Inv, InStep, ChunkQueue.Valid, OnlyAffects, StatusOf, Wired, Sizes, RegionsInStep;
      HotInRange();
      var k, s := lru.keys[lru.hot - 1], Abs();
      QueuedLive(k);
      RegionFacts(k.rid);
      DemoteInv(s);
      var r := regions[k.rid];
      ChunkFacts(k.rid, k.chunk);
      QueuedStatus(lru.keys, lru.hot, k);
      DemoteAffects(lru.keys, lru.hot);
      InStepHere(r.initialized, r.status, lru.keys, lru.hot, lru.keys, lru.hot - 1, k);
      assert r.initialized[k.chunk := true] == r.initialized;
    }

    method DemoteSteps(r: Region, c: nat)
      requires lru.Valid() && r.Valid() && r.l.Valid() && c < r.l.N() && |r.status| == r.l.N() && r.status[c] != Absent
      requires lru.hot > 0
      modifies lru, lru.list, lru.list.head, lru.owned, r
      ensures lru.Valid() && lru.nodes == old(lru.nodes) && lru.owned == old(lru.owned)
      ensures lru.keys == old(lru.keys) && lru.hot == old(lru.hot) - 1
      ensures r.Valid() && r.Abs() == old(r.Abs()) && r.initialized == old(r.initialized)
      ensures r.status == old(r.status)[c := Cold]
    {
      hide ChunkQueue.Valid;
      RegionParts(r);
      hide Region.PagesOk, Region.CountersOk;
      r.SetReadable(c, false);
      lru.DemoteMidpoint();
    }

    /** One round of `lru_rebalance`. */
    method DemoteOne()
      requires Valid() && lru.hot > 0
      modifies lru, lru.list, lru.list.head, lru.owned, members
      ensures Valid() && lru.owned == old(lru.owned)
      ensures Abs() == old(Abs()).(hot := old(lru.hot) - 1)
    {
      hide Region.Valid, Inv, InStep, ChunkQueue.Valid, OnlyAffects, RegionsOk, StatusOf,
           Wired, Sizes, RegionsInStep;
      DemotePlan();
      ghost var s' := Abs().(hot := lru.hot - 1);
      var k := lru.MidpointKey();
      var r := regions[k.rid];
      DemoteSteps(r, k.chunk);
      AbsRegionsAfter(r);
      assert Abs() == s';
      Reestablish(r, k);
    }

    /** `lru_rebalance` */
    method Rebalancing()
      requires Valid()
      modifies lru, lru.list, lru.list.head, lru.owned, members
      ensures Valid() && lru.owned == old(lru.owned)
      ensures lru.hot <= |lru.keys| && old(lru.hot) <= |old(lru.keys)| && Abs() == Rebalance(old(Abs()))
    {
      hide Region.Valid, Inv, InStep, ChunkQueue.Valid, OnlyAffects, RegionsOk, StatusOf,
           Wired, Sizes, RegionsInStep;
      HotInRange();
      if target == 0 {
        return;
      }
      while true
        invariant Valid() && lru.owned == old(lru.owned) && lru.hot <= |lru.keys|
        invariant Rebalance(Abs()) == Rebalance(old(Abs()))
        decreases lru.hot
      {
        HotBytesExact();
        var more := lru.CanDemote();
        if !(lru.list.hotBytes > residentBytes / 2 && more) {
          break;
        }
        DemoteOne();
        HotInRange();
      }
    }

    /** The queue's byte counter is the size of the readable half. */
    lemma HotBytesExact()
      requires Valid()
      ensures lru.hot <= |lru.keys| && lru.list.hotBytes == HotBytes(Abs())
      ensures lru.hot == 0 ==> lru.list.hotBytes == 0
    {
      lru.Facts();
      NodeSizes(lru.keys[..lru.hot]);
    }

    lemma {:induction false} NodeSizes(ks: seq<Key>)
      requires Wired() && Sizes() && forall k :: k in ks ==> k in lru.nodes
      ensures KeyBytes(lru.nodes, ks) == Bytes(AbsRegions(), ks)
    {
      if ks != [] {
        NodeSizes(ks[1..]);
      }
    }

    // ---------------------------------------------------------------- the fault

    /** Which pages of the table are readable, in terms of shared pages and status. */
    lemma TableReadable(r: Region, page: nat)
      requires r.PagesOk() && page < r.l.Mapped() && Aligned(page, r.l.ps)
      ensures page in r.table
      ensures r.table[page].Readable? <==>
                if r.l.Shared(page) then page in Up(r.shared) else r.status[r.l.Owner(page)] == Hot
    {
      hide SharedPagesOk, SourcePage, FillsExactly;
    }

    lemma SharedReadable(r: Region, i: nat)
      requires r.PagesOk() && i < |r.shared|
      ensures var sp := r.shared[i];
              && r.l.Shared(sp.pageOff) && (sp.pageOff in Up(r.shared) <==> sp.mapped)
              && (sp.mapped <==> forall c :: 0 <= c < r.l.N() && r.l.Overlaps(c, sp.pageOff) ==> r.chunkStaged[c])
              && sp.firstChunk == FirstOf(r.l, sp.pageOff)
              && sp.pageOff < r.l.Total() && sp.lastChunk == LastOf(r.l, sp.pageOff)
    {
      var sp := r.shared[i];
      assert SharedOk(r.l, r.Src(), r.chunkStaged, sp);
      MappedIffAllStaged(r.l, r.Src(), r.chunkStaged, sp);
      if sp.pageOff in Up(r.shared) {
        var j :| 0 <= j < |r.shared| && r.shared[j].mapped && r.shared[j].pageOff == sp.pageOff;
        assert j == i;
      }
    }

    /** `page_readable`: true exactly when the page table has the page readable,
        and exactly when the model says so. */
    method PageIsReadable(rid: nat, page: nat) returns (b: bool)
      requires Valid() && rid in regions && page < regions[rid].l.Mapped() && Aligned(page, regions[rid].l.ps)
      ensures page in regions[rid].table && (b <==> regions[rid].table[page].Readable?)
      ensures RegionsOk(Abs()) && lru.hot <= |lru.keys| && rid in Abs().regions
      ensures b <==> PageReadable(Abs(), rid, page)
    {
      hide Region.CountersOk, Region.PagesOk, InStep, ChunkQueue.Valid, StatusOf, OnlyAffects, Inv, Wired, Sizes,
           RegionsInStep;
      var r := regions[rid];
      RegionFacts(rid);
      TableReadable(r, page);
      var i := FindEntry(r, page);
      if i.Some? {
        SharedReadable(r, i.value);
        b := r.shared[i.value].mapped;
      } else {
        var c := FindChunk(r.l, page);
        ChunkFacts(rid, c);
        HotStatus(lru.keys, lru.hot, Key(rid, c));
        var cold := lru.IsCold(Key(rid, c));
        b := r.initialized[c] && !cold;
      }
    }

    /** `find_shared_page` on a region: an entry exactly for shared pages. */
    method FindEntry(r: Region, page: nat) returns (i: Option<nat>)
      requires r.PagesOk() && Aligned(page, r.l.ps)
      ensures i.Some? <==> r.l.Shared(page)
      ensures i.Some? ==> i.value < |r.shared| && r.shared[i.value].pageOff == page
    {
      hide SharedOk, TableOk;
      i := FindSharedPage(r.shared, page);
      if i.Some? {
        SharedReadable(r, i.value);
      }
    }

    method CountHandled(rid: nat)
      requires Valid() && rid in regions
      modifies regions[rid]
      ensures Valid() && Abs() == Handled(old(Abs()), rid)
      ensures regions[rid].table == old(regions[rid].table)
    {
      hide Region.PagesOk, Region.CountersOk, Inv, InStep, ChunkQueue.Valid, OnlyAffects, RegionsOk, StatusOf,
           Wired, Sizes, RegionsInStep, Resident;
      ghost var s := Abs();
      RegionFacts(rid);
      HandledInv(s, rid);
      HandledResident(s, rid);
      var r := regions[rid];
      NothingAffected(lru.keys, lru.hot, Key(rid, 0));
      r.faultsHandled := r.faultsHandled + 1;
      AbsRegionsAfter(r);
      assert Abs() == Handled(s, rid);
      Reestablish(r, Key(rid, 0));
    }

    /** The loop of `resolve_fault_locked` over a shared page's contributors. */
    method FillContributors(rid: nat, lo: nat, hi: nat)
      requires Valid() && rid in regions && lo <= hi < regions[rid].l.N()
      modifies this`residentBytes, this`clock, this`stamp, lru, lru.list, lru.list.head, lru.owned, members
      ensures Valid() && lru.owned == old(lru.owned)
      ensures old(Fillable(rid, hi)) && Abs() == FillMissing(old(Abs()), rid, lo, hi)
    {
      hide Region.Valid, Inv, InStep, ChunkQueue.Valid, OnlyAffects, StatusOf, Wired, Sizes, RegionsInStep, Fill;
      FillableNow(rid, hi);
      var c := lo;
      while c <= hi
        invariant Valid() && lru.owned == old(lru.owned) && lo <= c <= hi + 1
        invariant Fillable(rid, hi)
        invariant FillMissing(Abs(), rid, c, hi) == FillMissing(old(Abs()), rid, lo, hi)
      {
        ChunkFacts(rid, c);
        RegionFacts(rid);
        if !regions[rid].initialized[c] {
          FillChunkLocked(rid, c);
        }
        FillableNow(rid, hi);
        c := c + 1;
      }
    }

    ghost predicate Fillable(rid: nat, hi: nat)
      reads this, lru, members, regions.Values
    {
      && rid in regions && RegionsOk(Abs()) && rid in Abs().regions && hi < |regions[rid].l.starts| - 1
      && lru.hot <= |lru.keys|
    }

    lemma FillableNow(rid: nat, hi: nat)
      requires Valid() && rid in regions && hi < regions[rid].l.N()
      ensures Fillable(rid, hi)
    {
      RegionFacts(rid);
    }

    /** The branch of `resolve_fault_locked` for a page with one owner. */
    method BringInOwner(rid: nat, page: nat) returns (c: nat)
      requires Valid() && rid in regions && Resolvable(rid, page) && !regions[rid].l.Shared(page)
      modifies this`residentBytes, this`clock, this`stamp, lru, lru.list, lru.list.head, lru.owned, members
      ensures Valid() && lru.owned == old(lru.owned) && c == regions[rid].l.Owner(page)
      ensures Abs() == BringIn(old(Abs()), rid, page)
    {
      hide Region.Valid, Inv, InStep, ChunkQueue.Valid, OnlyAffects, StatusOf, Wired, Sizes, RegionsInStep, Fill,
           Promote;
      var r := regions[rid];
      RegionFacts(rid);
      c := FindChunk(r.l, page);
      ChunkFacts(rid, c);
      if r.initialized[c] {
        PromoteChunk(rid, c);
      } else {
        FillChunkLocked(rid, c);
      }
    }

    /** The branch for a page several chunks share. */
    method BringInShared(rid: nat, page: nat, i: nat) returns (lo: nat, hi: nat)
      requires Valid() && rid in regions && Resolvable(rid, page) && regions[rid].l.Shared(page)
      requires i < |regions[rid].shared| && regions[rid].shared[i].pageOff == page
      modifies this`residentBytes, this`clock, this`stamp, lru, lru.list, lru.list.head, lru.owned, members
      ensures Valid() && lru.owned == old(lru.owned)
      ensures lo == FirstOf(regions[rid].l, page) && hi == LastOf(regions[rid].l, page)
      ensures Abs() == BringIn(old(Abs()), rid, page)
    {
      hide Region.PagesOk, Region.CountersOk, Inv, InStep, ChunkQueue.Valid, OnlyAffects, StatusOf, Wired, Sizes,
           RegionsInStep, Fill, FillMissing;
      var r := regions[rid];
      RegionFacts(rid);
      SharedReadable(r, i);
      assert !r.shared[i].mapped;
      lo, hi := r.shared[i].firstChunk, r.shared[i].lastChunk;
      FirstNotAfterLast(r.l, page);
      FillContributors(rid, lo, hi);
    }

    /** A fault the pool may be asked to resolve: a page that is not readable. */
    ghost predicate Resolvable(rid: nat, page: nat)
      reads this, lru, members, regions.Values
      requires rid in regions
    {
      && RegionsOk(Abs()) && rid in Abs().regions && lru.hot <= |lru.keys|
      && page < regions[rid].l.Total() && Aligned(page, regions[rid].l.ps)
      && !PageReadable(Abs(), rid, page)
    }

    /** Fills or promotes whatever the page at `page` is missing. */
    method BringInPage(rid: nat, page: nat) returns (lo: nat, hi: nat)
      requires Valid() && rid in regions && Resolvable(rid, page)
      modifies this`residentBytes, this`clock, this`stamp, lru, lru.list, lru.list.head, lru.owned, members
      ensures Valid() && lru.owned == old(lru.owned)
      ensures lo == FirstOf(regions[rid].l, page) && hi == LastOf(regions[rid].l, page)
      ensures Abs() == BringIn(old(Abs()), rid, page)
    {
      hide Region.PagesOk, Region.CountersOk, Inv, InStep, ChunkQueue.Valid, Wired, Sizes, RegionsInStep, BringIn,
           PageReadable, RegionsOk, FirstOf, LastOf;
      RegionFacts(rid);
      OwnerIsFirstAndLast(regions[rid].l, page);
      var i := FindEntry(regions[rid], page);
      if i.Some? {
        lo, hi := BringInShared(rid, page, i.value);
      } else {
        lo := BringInOwner(rid, page);
        hi := lo;
      }
    }

    method ResolvePage(rid: nat, page: nat)
      requires Valid() && rid in regions && Resolvable(rid, page)
      modifies this`residentBytes, this`clock, this`stamp, lru, lru.list, lru.list.head, lru.owned, members
      ensures Valid() && lru.owned == old(lru.owned)
      ensures Abs() == Resolve(old(Abs()), rid, page)
    {
      hide Valid, BringIn, Evict, Rebalance, Handled, PageReadable, RegionsOk;
      ghost var s := Abs();
      ghost var l := regions[rid].l;
      var lo, hi := BringInPage(rid, page);
      EvictUntilWithinBudget(rid, lo, hi);
      Rebalancing();
      RegionFacts(rid);
      CountHandled(rid);
    }

    /** A page the model calls readable is readable in the page table. */
    lemma ReadableInTable(rid: nat, page: nat)
      requires Valid() && rid in regions && page < regions[rid].l.Mapped() && Aligned(page, regions[rid].l.ps)
      ensures RegionsOk(Abs()) && lru.hot <= |lru.keys| && rid in Abs().regions
      ensures page in regions[rid].table
      ensures regions[rid].table[page].Readable? <==> PageReadable(Abs(), rid, page)
    {
      hide Region.CountersOk, Region.PagesOk, InStep, ChunkQueue.Valid, StatusOf, OnlyAffects, Inv, Wired, Sizes,
           RegionsInStep;
      var r := regions[rid];
      RegionFacts(rid);
      TableReadable(r, page);
      if r.l.Shared(page) {
        var i := EntryOf(r, page);
        SharedReadable(r, i);
      } else {
        var c := r.l.Owner(page);
        ChunkFacts(rid, c);
        HotStatus(lru.keys, lru.hot, Key(rid, c));
      }
    }

    lemma EntryOf(r: Region, page: nat) returns (i: nat)
      requires r.PagesOk() && Aligned(page, r.l.ps) && r.l.Shared(page)
      ensures i < |r.shared| && r.shared[i].pageOff == page
    {
      assert Listed(r.shared, page);
      i :| 0 <= i < |r.shared| && r.shared[i].pageOff == page;
    }

    lemma ResolvedReadable(rid: nat, page: nat)
      requires Valid() && rid in regions && Resolvable(rid, page)
      ensures rid in Abs().regions && page < Abs().regions[rid].l.Total()
      ensures var s' := Resolve(Abs(), rid, page);
              RegionsOk(s') && s'.hot <= |s'.queue| && rid in s'.regions && PageReadable(s', rid, page)
    {
      hide Region.Valid, Resolve;
      ResolveReadable(Abs(), rid, page);
    }

    /** The fault at `off` is a fault on its page. */
    lemma FaultIsResolvable(rid: nat, off: nat)
      requires Valid() && rid in regions && Faults(Abs(), rid, off)
      ensures var page := PageFloor(off, regions[rid].l.ps);
              && page < regions[rid].l.Mapped() && Resolvable(rid, page)
              && Touch(Abs(), rid, off) == Resolve(Abs(), rid, page)
    {
      hide Region.Valid, Resolve, PageReadable, Inv;
      FaultPage(regions[rid].l, off);
    }

    /** `resolve_fault_locked` */
    method ResolveFaultLocked(rid: nat, off: nat)
      requires Valid() && rid in regions && Faults(Abs(), rid, off)
      modifies this`residentBytes, this`clock, this`stamp, lru, lru.list, lru.list.head, lru.owned, members
      ensures Valid() && lru.owned == old(lru.owned)
      ensures Abs() == Touch(old(Abs()), rid, off)
      ensures var page := PageFloor(off, regions[rid].l.ps);
              page in regions[rid].table && regions[rid].table[page].Readable?
    {
      hide *;
      var page := PageFloor(off, regions[rid].l.ps);
      FaultIsResolvable(rid, off);
      ResolvedReadable(rid, page);
      ResolvePage(rid, page);
      // The page is readable again before the lock is released.
      ReadableInTable(rid, page);
    }

    // --------------------------------------------------------------- creation

    /** The sizes the caller passed are the sizes the callback fills. */
    ghost predicate FillsSizes(sizes: seq<nat>, outputs: seq<seq<byte>>) {
      |outputs| == |sizes| && forall i :: 0 <= i < |sizes| ==> |outputs[i]| == sizes[i]
    }

    /** A region no chunk of which has been queued is in step with the queue. */
    lemma FreshInStep(rid: nat, n: nat)
      requires Valid() && rid !in regions
      ensures forall k :: k in lru.keys ==> k.rid != rid
      ensures lru.hot <= |lru.keys| && InStep(rid, AllFalse(n), AllAbsent(n), lru.keys, lru.hot)
    {
      hide Region.Valid, ChunkQueue.Valid;
      forall k | k in lru.keys
        ensures k.rid != rid
      {
        assert Live(Abs(), k);
      }
      assert lru.keys[..lru.hot] <= lru.keys;
    }

    lemma CreatePlan(rid: nat, l: Layout)
      requires Valid() && rid !in regions && l.Valid()
      ensures Inv(Create(Abs(), rid, l)) && Resident(Create(Abs(), rid, l)) == residentBytes
      ensures forall k :: k in lru.nodes ==> k.rid != rid
    {
      hide Region.Valid, ChunkQueue.Valid;
      CreateInv(Abs(), rid, l);
      FreshInStep(rid, 0);
      BytesSame(Create(Abs(), rid, l).regions, Abs().regions, lru.keys);
    }

    /** Chunk sizes of an accepted layout, as its nodes record them. */
    lemma AcceptedSizes(l: Layout, ps: PageSize, sizes: seq<nat>, outputs: seq<seq<byte>>)
      requires IsLayoutOf(l, ps, sizes) && FillsSizes(sizes, outputs)
      ensures forall c :: 0 <= c < l.N() ==> l.Size(c) == sizes[c]
      ensures FillsExactly(l, outputs)
    {
      forall c | 0 <= c < l.N()
        ensures l.Size(c) == sizes[c]
      {
        assert PrefixSum(sizes, c + 1) == PrefixSum(sizes, c) + sizes[c];
      }
    }

    /** `fc_region_create` at the reservation `rid`: refused exactly for an empty
        chunk or a total that overflows, and otherwise the pool gains a region
        in which nothing has been filled. */
    method CreateRegion(rid: nat, ps: PageSize, sizes: seq<nat>, outputs: seq<seq<byte>>) returns (l: Option<Layout>)
      requires Valid() && rid !in regions
      requires 0 < |sizes| && |sizes| + 1 < UINT32_LIMIT && FillsSizes(sizes, outputs)
      requires forall i :: 0 <= i < |sizes| ==> sizes[i] < SIZE_LIMIT
      requires PrefixSum(sizes, |sizes|) < SIZE_LIMIT ==> PrefixSum(sizes, |sizes|) + ps - 1 < SIZE_LIMIT
      modifies this`regions, this`members, lru`nodes, lru`owned
      ensures Valid() && fresh(lru.owned - old(lru.owned)) && fresh(members - old(members))
      ensures l.None? <==> Rejected(sizes)
      ensures l.None? ==> Abs() == old(Abs())
      ensures l.Some? ==> IsLayoutOf(l.value, ps, sizes) && Abs() == Create(old(Abs()), rid, l.value)
      ensures l.None? ==> regions == old(regions) && Contents() == old(Contents())
      ensures l.Some? ==> rid in regions && regions == old(regions)[rid := regions[rid]]
      ensures l.Some? ==> Contents() == old(Contents())[rid := Content(l.value, Concat(outputs))]
    {
      hide Region.Valid, ChunkQueue.Valid, Inv, InStep, Resident, Contents;
      ghost var s := Abs();
      l := CreateLayout(ps, sizes);
      if l.Some? {
        AcceptedSizes(l.value, ps, sizes, outputs);
        CreatePlan(rid, l.value);
        FreshInStep(rid, |sizes|);
        AddRegion(rid, l.value, sizes, outputs);
      }
    }

    method AddRegion(rid: nat, l: Layout, sizes: seq<nat>, outputs: seq<seq<byte>>)
      requires Valid() && rid !in regions && FillsExactly(l, outputs) && |sizes| == l.N()
      requires forall c :: 0 <= c < l.N() ==> l.Size(c) == sizes[c]
      modifies this`regions, this`members, lru`nodes, lru`owned
      ensures Valid() && fresh(lru.owned - old(lru.owned)) && fresh(members - old(members))
      ensures Abs() == Create(old(Abs()), rid, l)
      ensures rid in regions && regions == old(regions)[rid := regions[rid]]
      ensures Contents() == old(Contents())[rid := Content(l, Concat(outputs))]
    {
      hide Region.Valid, ChunkQueue.Valid, Inv, InStep, Resident, Wired, Sizes, RegionsInStep, Concat;
      ghost var s := Abs();
      CreatePlan(rid, l);
      FreshInStep(rid, l.N());
      ValidWiring();
      hide Valid, Create, FillsExactly, Layout.Valid, Contents, RegionOk;
      var r := new Region(rid, l, outputs);
      lru.Register(rid, sizes);
      regions := regions[rid := r];
      members := members + {r};
      RegionAdded(r);
      AbsRegionsAdded(r);
      ContentsAdded(r);
      AbsCreated(s, rid, l);
      ValidParts();
    }

    lemma AbsCreated(s: Cache, rid: nat, l: Layout)
      requires l.Valid() && Abs() == s.(regions := AbsRegions())
      requires AbsRegions() == s.regions[rid := FreshRegion(l)]
      ensures Abs() == Create(s, rid, l)
    {
    }

    twostate lemma ContentsAdded(new r: Region)
      requires r.id !in old(regions) && regions == old(regions)[r.id := r]
      ensures Contents() == old(Contents())[r.id := Content(r.l, Concat(r.outputs))]
    {
      hide Concat;
    }

    ghost predicate NodesAdded(was: map<Key, Node>, now: map<Key, Node>, rid: nat, l: Layout) {
      && l.Valid()
      && (forall k :: k in now <==> k in was || (k.rid == rid && k.chunk < l.N()))
      && (forall k :: k in was ==> k.rid != rid && k in now && now[k] == was[k])
      && (forall c :: 0 <= c < l.N() ==> Key(rid, c) in now && now[Key(rid, c)].size == l.Size(c))
    }

    twostate lemma RegionAdded(new r: Region)
      requires old(Wired()) && old(Sizes()) && old(RegionsInStep())
      requires r.id !in old(regions) && regions == old(regions)[r.id := r] && members == old(members) + {r}
      requires forall rid :: rid in old(regions) ==> unchanged(old(regions)[rid])
      requires r.l.Valid() && RegionOk(r)
      requires lru.keys == old(lru.keys) && lru.hot == old(lru.hot)
      requires NodesAdded(old(lru.nodes), lru.nodes, r.id, r.l)
      ensures Wired() && Sizes() && RegionsInStep()
    {
      hide Region.Valid, InStep;
      forall rid | rid in regions
        ensures RegionOk(regions[rid])
      {
        if rid != r.id {
          assert old(RegionOk(regions[rid]));
        }
      }
    }

    twostate lemma AbsRegionsAdded(new r: Region)
      requires r.id !in old(regions) && regions == old(regions)[r.id := r]
      requires forall rid :: rid in old(regions) ==> unchanged(old(regions)[rid])
      ensures AbsRegions() == old(AbsRegions())[r.id := r.Abs()]
    {
      forall rid | rid in regions && rid != r.id
        ensures regions[rid].Abs() == old(regions[rid].Abs())
      {
      }
    }

    lemma ModelInv()
      requires Valid()
      ensures Inv(Abs())
    {
    }

    lemma ValidWiring()
      requires Valid()
      ensures forall rid :: rid in regions ==> regions[rid] in members && regions[rid].id == rid
      ensures Wired() && Sizes() && lru.Valid() && RegionsInStep() && residentBytes == Resident(Abs())
    {
    }

    // ------------------------------------------------------------ destruction

    /** While region `rid` is being destroyed its flags still agree with the
        queue, but its page table no longer does. */
    ghost predicate Dying(rid: nat)
      reads this, lru, lru.list, lru.list.head, lru.list.q, lru.owned, members, regions.Values
    {
      && Wired() && Sizes() && lru.Valid() && rid in regions
      && (forall o :: o in regions && o != rid ==> RegionOk(regions[o]))
      && lru.hot <= |lru.keys|
      && regions[rid].CountersOk() && FlagsAgree(rid, regions[rid].initialized, lru.keys, lru.hot)
      && Inv(Abs())
      && residentBytes == Resident(Abs())
    }

    lemma StartsDying(rid: nat)
      requires Valid() && rid in regions
      ensures Dying(rid) && Forget(Abs(), rid, 0) == Abs()
    {
      hide ChunkQueue.Valid;
      RegionFacts(rid);
      DropZero(lru.keys, rid);
      DropZero(lru.keys[..lru.hot], rid);
    }

    lemma DyingFacts(rid: nat, c: nat)
      requires Dying(rid) && c < regions[rid].l.N() && |regions[rid].initialized| == regions[rid].l.N()
      ensures var r, k, s := regions[rid], Key(rid, c), Abs();
              && r in members && r.id == rid && r.l.Valid() && s.regions[rid].l == r.l
              && FlagsAgree(rid, r.initialized, lru.keys, lru.hot)
              && (r.initialized[c] <==> k in lru.keys)
              && Inv(s) && Distinct(s.queue)
    {
      hide Region.Valid, ChunkQueue.Valid, InStep;
      assert lru.keys[..lru.hot] <= lru.keys;
    }

    lemma ForgetPlan(rid: nat, c: nat)
      requires Dying(rid) && c < regions[rid].l.N() && |regions[rid].initialized| == regions[rid].l.N()
      requires regions[rid].initialized[c]
      ensures var r, k, s := regions[rid], Key(rid, c), Abs();
              && k in s.queue && r.l.Valid()
              && var i := IndexOf(s.queue, k);
              var s' := Remove(s, i);
              && Inv(s') && residentBytes >= r.l.Size(c) && Resident(s') == residentBytes - r.l.Size(c)
              && s'.hot <= |s'.queue|
              && OnlyAffects(lru.keys, lru.hot, s'.queue, s'.hot, k)
              && FlagsAgree(rid, r.initialized[c := false], s'.queue, s'.hot)
    {
      DyingFacts(rid, c);
      hide Region.Valid, ChunkQueue.Valid, InStep, Region.CountersOk, Inv, Wired, Sizes, RegionsOk, FlagsAgree,
           OnlyAffects, Distinct, Resident, Remove, RegionOk;
      RemoveKeyPlan(Abs(), Key(rid, c), regions[rid].initialized);
    }

    method ForgetSteps(r: Region, c: nat, ghost i: nat)
      requires lru.Valid() && r.CountersOk() && r.l.Valid()
      requires c < r.l.N() && |r.initialized| == r.l.N() && r.initialized[c]
      requires i < |lru.keys| && lru.keys[i] == Key(r.id, c) && residentBytes >= r.l.Size(c)
      modifies this`residentBytes, lru, lru.list, lru.list.head, lru.owned
      modifies r`initialized, r`residentBytes, r`residentChunks
      ensures lru.Valid() && lru.nodes == old(lru.nodes) && lru.owned == old(lru.owned)
      ensures lru.keys == Without(old(lru.keys), i)
      ensures lru.hot == if i < old(lru.hot) then old(lru.hot) - 1 else old(lru.hot)
      ensures r.CountersOk() && r.Abs() == old(r.Abs()) && r.initialized == old(r.initialized)[c := false]
      ensures residentBytes == old(residentBytes) - r.l.Size(c)
    {
      hide ChunkQueue.Valid, Without, Region.CountersOk;
      lru.Unlink(Key(r.id, c), i);
      r.Forget(c);
      residentBytes := residentBytes - r.l.Size(c);
    }

    /** `lru_forget_chunk` on a dying region. */
    method ForgetChunk(rid: nat, c: nat)
      requires Dying(rid) && c < regions[rid].l.N() && |regions[rid].initialized| == regions[rid].l.N()
      modifies this`residentBytes, lru, lru.list, lru.list.head, lru.owned, regions[rid]
      ensures Dying(rid) && lru.owned == old(lru.owned) && |regions[rid].initialized| == regions[rid].l.N()
      ensures rid in old(regions) && regions[rid].shared == old(regions[rid].shared)
      ensures old(lru.hot) <= |old(lru.keys)|
      ensures Abs() == if Key(rid, c) in old(lru.keys)
                       then Remove(old(Abs()), IndexOf(old(lru.keys), Key(rid, c))) else old(Abs())
    {
      hide Region.Valid, Inv, InStep, ChunkQueue.Valid, OnlyAffects, FlagsAgree, Wired, Sizes, Resident, Without,
           Region.CountersOk;
      var r := regions[rid];
      var k := Key(rid, c);
      DyingFacts(rid, c);
      if !r.initialized[c] {
        return;
      }
      ForgetPlan(rid, c);
      ghost var s' := Remove(Abs(), IndexOf(lru.keys, k));
      ForgetSteps(r, c, IndexOf(lru.keys, k));
      AbsRegionsAfter(r);
      assert Abs() == s';
      StillDying(r, k);
    }

    twostate lemma StillDying(r: Region, new k: Key)
      requires old(Wired()) && old(Sizes()) && r.id in old(regions) && old(regions)[r.id] == r && OthersKept(r)
      requires forall o :: o in old(regions) && o != r.id ==> old(RegionOk(regions[o]))
      requires k.rid == r.id && OnlyAffects(old(lru.keys), old(lru.hot), lru.keys, lru.hot, k)
      requires lru.Valid() && lru.nodes == old(lru.nodes) && lru.hot <= |lru.keys|
      requires r.CountersOk() && FlagsAgree(r.id, r.initialized, lru.keys, lru.hot)
      requires Inv(Abs()) && residentBytes == Resident(Abs())
      ensures Dying(r.id)
    {
      hide Region.Valid, Inv, InStep, ChunkQueue.Valid, OnlyAffects, FlagsAgree;
      forall rid | rid in regions && rid != r.id
        ensures RegionOk(regions[rid])
      {
        var o := regions[rid];
        assert old(RegionOk(o)) && o.id == rid;
        InStepElsewhere(rid, o.initialized, o.status, old(lru.keys), old(lru.hot), lru.keys, lru.hot, k);
      }
    }

    /** The loop of `fc_region_destroy`. */
    method ForgetAll(rid: nat)
      requires Valid() && rid in regions
      modifies this`residentBytes, lru, lru.list, lru.list.head, lru.owned, regions[rid]
      ensures Dying(rid) && lru.owned == old(lru.owned)
      ensures rid in old(regions) && rid in regions && regions[rid].shared == old(regions[rid].shared)
      ensures old(lru.hot) <= |old(lru.keys)| && |regions[rid].l.starts| > 0
      ensures Abs() == Forget(old(Abs()), rid, |regions[rid].l.starts| - 1)
    {
      hide Inv, Forget, Remove, Wired, Sizes, RegionsInStep, InStep, Region.PagesOk, Region.CountersOk, Dying,
           ChunkQueue.Valid, IndexOf, Resident;
      StartsDying(rid);
      RegionFacts(rid);
      ModelInv();
      ghost var s := Abs();
      for c := 0 to regions[rid].l.N()
        invariant Dying(rid) && lru.owned == old(lru.owned) && |regions[rid].initialized| == regions[rid].l.N()
        invariant Abs() == Forget(s, rid, c) && regions[rid].shared == old(regions[rid].shared)
      {
        ForgetStep(s, rid, c);
        ForgetChunk(rid, c);
      }
    }

    lemma DestroyPlan(rid: nat, s: Cache)
      requires Dying(rid) && Inv(s) && rid in s.regions && s.hot <= |s.queue|
      requires |s.regions[rid].staged| == |regions[rid].l.starts| - 1
      requires Abs() == Forget(s, rid, |regions[rid].l.starts| - 1)
      ensures var s' := Destroy(s, rid);
              && s' == Abs().(regions := Abs().regions - {rid})
              && Inv(s') && Resident(s') == residentBytes
      ensures forall k :: k in lru.keys ==> k.rid != rid
    {
      hide Region.Valid, ChunkQueue.Valid, InStep;
      var n := |s.regions[rid].staged|;
      DestroyInv(s, rid);
      forall k | k in lru.keys
        ensures k.rid != rid
      {
        DropMember(s.queue, rid, n, k);
        assert Live(s, k);
      }
      BytesSame(Destroy(s, rid).regions, Abs().regions, lru.keys);
    }

    /** Takes a region without queued chunks out of the pool. */
    method RemoveRegion(rid: nat)
      requires Dying(rid) && forall k :: k in lru.keys ==> k.rid != rid
      requires Inv(Abs().(regions := Abs().regions - {rid}))
      requires Resident(Abs().(regions := Abs().regions - {rid})) == residentBytes
      modifies this`regions, lru`nodes
      ensures Valid() && regions == old(regions) - {rid}
      ensures Abs() == old(Abs()).(regions := old(Abs()).regions - {rid})
    {
      hide Inv, InStep, Region.Valid, ChunkQueue.Valid, Resident, Wired, Sizes, RegionsInStep, RegionOk, Valid, Dying,
           AbsRegions;
      ghost var s' := Abs().(regions := Abs().regions - {rid});
      DyingWiring(rid);
      regions := regions - {rid};
      lru.Unregister(rid);
      RegionRemoved(rid);
      assert Abs() == s';
      ValidParts();
    }

    lemma ValidParts()
      requires Wired() && Sizes() && lru.Valid() && RegionsInStep()
      requires Inv(Abs()) && residentBytes == Resident(Abs())
      ensures Valid()
    {
    }

    lemma DyingWiring(rid: nat)
      requires Dying(rid)
      ensures rid in regions && rid in Abs().regions
      ensures Wired() && Sizes() && lru.Valid() && residentBytes == Resident(Abs())
      ensures forall o :: o in regions && o != rid ==> RegionOk(regions[o])
    {
    }

    twostate lemma RegionRemoved(rid: nat)
      requires old(Wired()) && old(Sizes())
      requires rid in old(regions) && regions == old(regions) - {rid} && members == old(members)
      requires forall o :: o in old(regions) ==> unchanged(old(regions)[o])
      requires forall o :: o in old(regions) && o != rid ==> old(RegionOk(regions[o]))
      requires lru.keys == old(lru.keys) && lru.hot == old(lru.hot)
      requires lru.nodes == map k | k in old(lru.nodes) && k.rid != rid :: old(lru.nodes)[k]
      ensures Wired() && Sizes() && RegionsInStep()
      ensures AbsRegions() == old(AbsRegions()) - {rid}
    {
      hide Region.Valid, InStep;
      forall o | o in regions
        ensures RegionOk(regions[o]) && regions[o].Abs() == old(regions[o].Abs())
      {
        assert old(RegionOk(regions[o]));
      }
    }

    /** `fc_region_destroy`: the region leaves the queue and the pool, and its
        staging pages and reservation are released. */
    method DestroyRegion(rid: nat) returns (r: Region)
      requires Valid() && rid in regions
      modifies this`residentBytes, this`regions, lru, lru.list, lru.list.head, lru.owned, regions[rid]
      ensures Valid() && lru.owned == old(lru.owned) && members == old(members)
      ensures old(lru.hot) <= |old(lru.keys)| && rid in old(Abs()).regions && Abs() == Destroy(old(Abs()), rid)
      ensures regions == old(regions) - {rid} && r == old(regions)[rid] && r.table == map[]
      ensures Contents() == old(Contents()) - {rid}
      ensures forall i :: 0 <= i < |r.shared| ==> r.shared[i].staging.addr.None?
    {
      hide Inv, Forget, Destroy, InStep, Resident, Dying, Valid, Contents, AbsRegions, Region.Valid, ChunkQueue.Valid;
      ghost var s := Abs();
      RegionFacts(rid);
      ModelInv();
      r := regions[rid];
      r.StagingIsWhole();
      ForgetAll(rid);
      DestroyPlan(rid, s);
      RemoveRegion(rid);
      ContentsRemoved(rid);
      ValidWiring();
      FreeRemoved(r);
    }

    twostate lemma ContentsRemoved(rid: nat)
      requires regions == old(regions) - {rid}
      ensures Contents() == old(Contents()) - {rid}
    {
      hide Region.Src;
    }

    method FreeRemoved(r: Region)
      requires Valid() && (forall rid :: rid in regions ==> regions[rid] != r) && r.StagingWhole()
      modifies r`table, r`shared
      ensures Valid() && Abs() == old(Abs())
      ensures r.table == map[]
      ensures forall i :: 0 <= i < |r.shared| ==> r.shared[i].staging.addr.None?
    {
      hide Inv, InStep, Region.Valid, ChunkQueue.Valid, Resident;
      ghost var s := Abs();
      r.Free();
      assert AbsRegions() == s.regions;
    }

    // ---------------------------------------------------------- fault delivery

    /** `find_region_locked`: the scan for the region holding an address. */
    method FindRegionLocked(addr: nat) returns (r: Option<nat>)
      requires Valid()
      ensures r.Some? ==> Holds(Abs(), r.value, addr)
      ensures r.None? ==> forall rid :: !Holds(Abs(), rid, addr)
    {
      hide Region.Valid, ChunkQueue.Valid, Inv, InStep;
      RegionLayouts();
      var todo := regions.Keys;
      while todo != {}
        invariant todo <= regions.Keys
        invariant forall rid :: rid in regions && rid !in todo ==> !Holds(Abs(), rid, addr)
      {
        var rid :| rid in todo;
        if rid <= addr < rid + regions[rid].l.Mapped() {
          return Some(rid);
        }
        todo := todo - {rid};
      }
      return None;
    }

    lemma RegionLayouts()
      requires Valid()
      ensures forall rid :: rid in regions ==> regions[rid].l.Valid() && |regions[rid].l.starts| >= 2
    {
      forall rid | rid in regions
        ensures regions[rid].l.Valid() && |regions[rid].l.starts| >= 2
      {
        RegionFacts(rid);
      }
    }

    /** One pool's turn in `fault_try_resolve`: the region holding the address,
        and whether its page had to be made readable. */
    method Lookup(addr: nat) returns (r: Option<nat>, ours: bool)
      requires Valid()
      modifies this`residentBytes, this`clock, this`stamp, lru, lru.list, lru.list.head, lru.owned, members
      ensures Valid() && lru.owned == old(lru.owned)
      ensures r.Some? ==> Holds(old(Abs()), r.value, addr)
      ensures r.None? ==> forall rid :: !Holds(old(Abs()), rid, addr)
      ensures ours <==> r.Some? && Faults(old(Abs()), r.value, addr - r.value)
      ensures Abs() == if ours then Touch(old(Abs()), r.value, addr - r.value) else old(Abs())
      ensures ours ==> ReadableInRegion(r.value, addr)
    {
      hide Valid, Touch, Faults, Holds;
      ghost var s := Abs();
      r := FindRegionLocked(addr);
      assert s == Abs();
      if r.None? {
        return r, false;
      }
      var rid := r.value;
      HeldOffset(rid, addr);
      var readable := PageIsReadable(rid, PageFloor(addr - rid, regions[rid].l.ps));
      if readable {
        return r, false;
      }
      ResolveFaultLocked(rid, addr - rid);
      return r, true;
    }

    /** The same where regions do not overlap: this pool claims the fault exactly
        when the model does, and then the page is readable in the page table. */
    method TryPool(addr: nat) returns (ours: bool)
      requires Valid() && Apart(Abs())
      modifies this`residentBytes, this`clock, this`stamp, lru, lru.list, lru.list.head, lru.owned, members
      ensures Valid() && lru.owned == old(lru.owned)
      ensures (Abs(), ours) == TryOne(old(Abs()), addr)
      ensures ours ==> exists rid :: ReadableInRegion(rid, addr)
    {
      hide *;
      ghost var s := Abs();
      var r: Option<nat>;
      r, ours := Lookup(addr);
      TryOneIs(s, addr, r);
    }

    ghost predicate ReadableInRegion(rid: nat, addr: nat)
      reads this, members, regions.Values
    {
      && rid in regions && rid <= addr
      && var page := PageFloor(addr - rid, regions[rid].l.ps);
         page in regions[rid].table && regions[rid].table[page].Readable?
    }

    lemma HeldOffset(rid: nat, addr: nat)
      requires Valid() && Holds(Abs(), rid, addr)
      ensures rid in regions && regions[rid].l.Valid() && rid <= addr && addr - rid < regions[rid].l.Mapped()
      ensures PageFloor(addr - rid, regions[rid].l.ps) < regions[rid].l.Mapped()
      ensures RegionsOk(Abs()) && lru.hot <= |lru.keys| && rid in Abs().regions
      ensures Faults(Abs(), rid, addr - rid) <==> !PageReadable(Abs(), rid, PageFloor(addr - rid, regions[rid].l.ps))
    {
      hide Region.Valid, ChunkQueue.Valid, PageReadable;
    }

    lemma LiveRegions()
      requires Valid()
      ensures forall rid :: rid in regions <==> rid in Abs().regions
      ensures lru.hot <= |lru.keys|
    {
    }

    /** What each region was created to hold. */
    ghost function Contents(): Memory
      reads this`regions
    {
      map rid | rid in regions :: Content(regions[rid].l, regions[rid].Src())
    }

    /** A readable page holds source bytes. */
    lemma ReadableByte(rid: nat, page: nat, i: nat)
      requires Valid() && rid in regions && page in regions[rid].table && regions[rid].table[page].Readable?
      requires i < regions[rid].l.ps
      ensures var bytes := regions[rid].table[page].bytes;
              |bytes| == regions[rid].l.ps && bytes[i] == SourceByte(regions[rid].Src(), page + i)
    {
      hide Region.CountersOk, InStep, SharedPagesOk, ChunkQueue.Valid, Inv;
      RegionFacts(rid);
      var r := regions[rid];
      HeldPagesAreSource(r.l, r.Src(), Up(r.shared), r.status, r.table, page);
    }

    /** A load instruction at `off`: the byte if its page is readable, and a
        fault (or an address of no region) otherwise. */
    method Load(rid: nat, off: nat) returns (b: Option<byte>)
      requires Valid()
      ensures b.Some? <==> InRegion(rid, off) && !Faults(Abs(), rid, off)
      ensures b.Some? ==> b == ByteAt(Contents(), rid, off)
    {
      hide Valid, Touch, Faults, Holds, ByteAt, Contents, PageReadable, SourceByte, Region.Src, PageFloor, Aligned;
      RegionLayouts();
      if rid !in regions || off >= regions[rid].l.Mapped() {
        return None;
      }
      HeldHere(rid, off);
      HeldOffset(rid, rid + off);
      var page := PageFloor(off, regions[rid].l.ps);
      var readable := PageIsReadable(rid, page);
      if !readable {
        return None;
      }
      ByteThere(rid, off);
      ReadableByte(rid, page, off - page);
      return Some(regions[rid].table[page].bytes[off - page]);
    }

    ghost predicate InRegion(rid: nat, off: nat)
      reads this`regions
    {
      rid in regions && |regions[rid].l.starts| >= 2 && off < regions[rid].l.Mapped()
    }

    /** A read of the byte at `off`: a load that is retried once the fault it
        raised has been resolved. */
    method ReadAt(rid: nat, off: nat) returns (b: Option<byte>)
      requires Valid()
      modifies this`residentBytes, this`clock, this`stamp, lru, lru.list, lru.list.head, lru.owned, members
      ensures Valid() && lru.owned == old(lru.owned)
      ensures Abs() == Touch(old(Abs()), rid, off)
      ensures b == ByteAt(Contents(), rid, off)
    {
      hide *;
      RegionLayouts();
      LiveRegions();
      NoFault(rid, off);
      NoByte(rid, off);
      b := Load(rid, off);
      if b.None? && rid in regions && off < regions[rid].l.Mapped() {
        InRegionNow(rid, off);
        ResolveFaultLocked(rid, off);
        RetrySucceeds(rid, off);
        b := Load(rid, off);
      }
    }

    lemma InRegionNow(rid: nat, off: nat)
      ensures InRegion(rid, off) <==> rid in regions && |regions[rid].l.starts| >= 2 && off < regions[rid].l.Mapped()
    {
    }

    lemma NoByte(rid: nat, off: nat)
      ensures !InRegion(rid, off) ==> ByteAt(Contents(), rid, off) == None
    {
      ByteThere(rid, off);
    }

    /** A page that is readable in the page table does not fault. */
    lemma RetrySucceeds(rid: nat, off: nat)
      requires Valid() && rid in regions && |regions[rid].l.starts| >= 2 && off < regions[rid].l.Mapped()
      requires var page := PageFloor(off, regions[rid].l.ps);
               page in regions[rid].table && regions[rid].table[page].Readable?
      ensures InRegion(rid, off) && !Faults(Abs(), rid, off)
    {
      hide Valid, PageReadable, Faults, Holds;
      HeldHere(rid, off);
      HeldOffset(rid, rid + off);
      ReadableInTable(rid, PageFloor(off, regions[rid].l.ps));
    }

    lemma HeldHere(rid: nat, off: nat)
      requires Valid() && rid in regions && off < regions[rid].l.Mapped()
      ensures Holds(Abs(), rid, rid + off)
    {
      hide Region.Valid, ChunkQueue.Valid;
      RegionFacts(rid);
    }

    /** Only a faulting read changes anything. */
    lemma NoFault(rid: nat, off: nat)
      requires Valid()
      ensures !Faults(Abs(), rid, off) ==> Touch(Abs(), rid, off) == Abs()
      ensures rid !in regions || off >= regions[rid].l.Mapped() ==> !Faults(Abs(), rid, off)
    {
      hide Valid, PageReadable;
    }

    lemma ByteThere(rid: nat, off: nat)
      ensures ByteAt(Contents(), rid, off)
           == if rid in regions && |regions[rid].l.starts| >= 2 && off < regions[rid].l.Mapped()
              then Some(SourceByte(regions[rid].Src(), off)) else None
    {
      hide Region.Src, SourceByte;
    }
  }

  /** A region as its creator sees it: a place of this layout with these bytes. */
  datatype Content = Content(l: Layout, bytes: seq<byte>)

  type Memory = map<nat, Content>

  /** What a read must return: source bytes, zeros in the padding, and nothing
      where no region is. */
  ghost function ByteAt(m: Memory, rid: nat, off: nat): Option<byte> {
    if rid in m && |m[rid].l.starts| >= 2 && off < m[rid].l.Mapped() then Some(SourceByte(m[rid].bytes, off)) else None
  }

  lemma FillKeys(s: Cache, k: Key)
    requires RegionsOk(s) && Live(s, k)
    ensures Fill(s, k) == Cache(s.target, [k] + s.queue, s.hot + 1,
                                s.regions[k.rid := FilledRegion(s.regions[k.rid], k.chunk)],
                                s.clock + 1, s.stamp[k := s.clock])
  {
  }

  lemma FillResident(s: Cache, k: Key)
    requires RegionsOk(s) && Live(s, k)
    ensures Resident(Fill(s, k)) == Resident(s) + s.regions[k.rid].l.Size(k.chunk)
  {
    var s' := Fill(s, k);
    BytesSame(s.regions, s'.regions, s.queue);
    assert s'.queue[1..] == s.queue;
  }

  lemma QueuedStatus(q: seq<Key>, hot: nat, k: Key)
    requires hot <= |q| && k in q
    ensures StatusOf(q, hot, k) != Absent
    ensures k in q[..hot] <==> StatusOf(q, hot, k) == Hot
  {
  }

  lemma PromoteKeys(s: Cache, k: Key)
    requires RegionsOk(s) && Live(s, k) && k in s.queue && s.hot <= |s.queue|
    ensures var i := IndexOf(s.queue, k);
            Promote(s, k) == Cache(s.target, [k] + Without(s.queue, i), (if i < s.hot then s.hot - 1 else s.hot) + 1,
                                   s.regions[k.rid := Counted(s.regions[k.rid], k.chunk)],
                                   s.clock + 1, s.stamp[k := s.clock])
  {
  }

  lemma RemoveResident(s: Cache, i: nat)
    requires i < |s.queue| && s.hot <= |s.queue|
    ensures Resident(s) == Resident(Remove(s, i)) + SizeOf(s.regions, s.queue[i])
  {
    var q := s.queue;
    BytesSplit(s.regions, q[..i], q[i + 1..]);
    assert q == q[..i] + ([q[i]] + q[i + 1..]);
    BytesSplit(s.regions, q[..i], [q[i]] + q[i + 1..]);
    assert ([q[i]] + q[i + 1..])[1..] == q[i + 1..];
  }

  lemma PromoteResident(s: Cache, k: Key)
    requires RegionsOk(s) && Live(s, k) && k in s.queue && s.hot <= |s.queue|
    ensures Resident(Promote(s, k)) == Resident(s)
  {
    var i := IndexOf(s.queue, k);
    RemoveResident(s, i);
    var s1, s' := Remove(s, i), Promote(s, k);
    BytesSame(s.regions, s'.regions, s1.queue);
    assert s'.queue[1..] == s1.queue;
  }

  lemma PromoteAffects(s: Cache, k: Key)
    requires Distinct(s.queue) && k in s.queue && s.hot <= |s.queue|
    ensures var s1 := Remove(s, IndexOf(s.queue, k));
            && k !in s1.queue
            && OnlyAffects(s.queue, s.hot, [k] + s1.queue, s1.hot + 1, k)
            && StatusOf([k] + s1.queue, s1.hot + 1, k) == Hot
  {
    var i := IndexOf(s.queue, k);
    RemoveAffects(s.queue, s.hot, i);
    WithoutMembers(s.queue, i);
    var s1 := Remove(s, i);
    PushAffects(s1.queue, s1.hot, k);
  }

  lemma DemoteInv(s: Cache)
    requires Inv(s) && s.hot > 0
    ensures Inv(s.(hot := s.hot - 1))
  {
    var s' := s.(hot := s.hot - 1);
    forall k | k in s'.queue
      ensures Live(s', k) && Staged(s', k)
    {
      assert Staged(s, k);
    }
  }

  lemma RemoveShrinks(s: Cache)
    requires s.queue != [] && s.hot <= |s.queue|
    ensures |Remove(s, |s.queue| - 1).queue| < |s.queue|
  {
  }

  lemma HotStatus(q: seq<Key>, hot: nat, k: Key)
    requires hot <= |q|
    ensures StatusOf(q, hot, k) == Hot <==> k in q[..hot]
    ensures k in q[..hot] ==> k in q
  {
  }

  lemma NothingAffected(q: seq<Key>, hot: nat, k: Key)
    requires hot <= |q|
    ensures OnlyAffects(q, hot, q, hot, k)
  {
  }

  lemma HandledResident(s: Cache, rid: nat)
    ensures Resident(Handled(s, rid)) == Resident(s)
  {
    BytesSame(Handled(s, rid).regions, s.regions, s.queue);
  }

  lemma RemoveKeyPlan(s: Cache, k: Key, ini: seq<bool>)
    requires Inv(s) && k in s.queue && k.rid in s.regions && k.chunk < |ini|
    requires FlagsAgree(k.rid, ini, s.queue, s.hot)
    ensures var l := s.regions[k.rid].l;
            var s' := Remove(s, IndexOf(s.queue, k));
            && l.Valid() && k.chunk < l.N() && Inv(s') && s'.hot <= |s'.queue|
            && Resident(s) == Resident(s') + l.Size(k.chunk)
            && OnlyAffects(s.queue, s.hot, s'.queue, s'.hot, k)
            && FlagsAgree(k.rid, ini[k.chunk := false], s'.queue, s'.hot)
  {
    hide Inv, Without, Bytes, IndexOf, OnlyAffects, FlagsAgree, Remove, Resident, StatusOf, Layout.Valid;
    var i := IndexOf(s.queue, k);
    QueuedKey(s, k);
    RemoveInv(s, i);
    RemoveResident(s, i);
    RemoveAffects(s.queue, s.hot, i);
    RemovedParts(s, i);
    FlagsAfter(k, ini, s.queue, s.hot, Remove(s, i).queue, Remove(s, i).hot);
  }

  lemma QueuedKey(s: Cache, k: Key)
    requires Inv(s) && k in s.queue
    ensures RegionsOk(s) && s.hot <= |s.queue| && Distinct(s.queue) && Live(s, k)
    ensures s.regions[k.rid].l.Valid() && k.chunk < s.regions[k.rid].l.N()
  {
    assert Live(s, k) && Staged(s, k);
  }

  lemma RemovedParts(s: Cache, i: nat)
    requires i < |s.queue| && s.hot <= |s.queue|
    ensures var s' := Remove(s, i);
            && s'.queue == Without(s.queue, i) && s'.hot == (if i < s.hot then s.hot - 1 else s.hot)
            && s'.hot <= |s'.queue|
  {
  }

  lemma FlagsAfter(k: Key, ini: seq<bool>, q: seq<Key>, hot: nat, q': seq<Key>, hot': nat)
    requires hot <= |q| && hot' <= |q'| && k.chunk < |ini| && FlagsAgree(k.rid, ini, q, hot)
    requires OnlyAffects(q, hot, q', hot', k) && StatusOf(q', hot', k) == Absent
    ensures FlagsAgree(k.rid, ini[k.chunk := false], q', hot')
  {
    hide StatusOf;
  }

  lemma OwnerIsFirstAndLast(l: Layout, page: nat)
    requires l.Valid() && page < l.Total()
    ensures !l.Shared(page) ==> FirstOf(l, page) == LastOf(l, page) == l.Owner(page)
  {
  }
}
