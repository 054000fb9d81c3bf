/** What holds of a pool between any two operations: the cache agrees with its
    source, memory stays within its bound, and byte counts add up. */
module PoolFacts {
  import opened Pages
  import opened LruQueues
  import opened SharedPages
  import opened PageTables
  import opened CacheModel
  import opened Regions
  import opened Pools

  /** Every page of a live region that holds anything, readable or hidden, holds
      the fill output at its offsets and zeros past the end; it is readable
      exactly when the bookkeeping says so. */
  lemma AgreesWithSource(p: Pool, rid: nat, page: nat)
    requires p.Valid() && rid in p.regions
    requires page < p.regions[rid].l.Mapped() && Aligned(page, p.regions[rid].l.ps)
    ensures var r := p.regions[rid];
            && page in r.table
            && (r.table[page] != Empty ==>
                  |r.table[page].bytes| == r.l.ps
                  && forall i :: 0 <= i < r.l.ps ==>
                       r.table[page].bytes[i] == if page + i < r.l.Total() then r.Src()[page + i] else 0)
            && RegionsOk(p.Abs()) && p.lru.hot <= |p.lru.keys| && rid in p.Abs().regions
            && (r.table[page].Readable? <==> PageReadable(p.Abs(), rid, page))
  {
    hide Region.CountersOk, InStep, PageReadable, Pool.Wired, Pool.Sizes, SharedPagesOk;
    var r := p.regions[rid];
    p.RegionFacts(rid);
    p.ReadableInTable(rid, page);
    if r.table[page] != Empty {
      HeldPagesAreSource(r.l, r.Src(), Up(r.shared), r.status, r.table, page);
    }
  }

  /** A region's published and staging pages stay within its resident bytes,
      one page per shared page, and one page of padding. */
  lemma FootprintHolds(p: Pool, rid: nat)
    requires p.Valid() && rid in p.regions
    ensures var r := p.regions[rid];
            |HeldPages(r.table) + StagingPages(r.shared)| * r.l.ps <= r.residentBytes + r.l.ps * (|r.shared| + 1)
    ensures HeldPages(p.regions[rid].table) !! StagingPages(p.regions[rid].shared)
  {
    var r := p.regions[rid];
    p.RegionFacts(rid);
    FootprintBound(r.l, r.Src(), r.chunkStaged, r.shared, r.status, r.initialized, r.table);
  }

  /** Between operations the only live scratch buffers are the staging pages of
      shared pages that some contributors have staged into and that are not up;
      a region that is freed leaves none (`Region.Free`). */
  lemma LiveScratches(p: Pool, rid: nat, i: nat)
    requires p.Valid() && rid in p.regions && i < |p.regions[rid].shared|
    ensures var r, sp := p.regions[rid], p.regions[rid].shared[i];
            && r.l.Valid() && |r.chunkStaged| == r.l.N() && sp.firstChunk <= sp.lastChunk < r.l.N()
            && sp.staged == CountStaged(r.chunkStaged, sp.firstChunk, sp.lastChunk + 1)
            && (sp.staging.addr.Some? <==> 0 < sp.staged < sp.lastChunk + 1 - sp.firstChunk)
            && (sp.staging.addr.Some? ==> sp.staging.size == r.l.ps && sp.staging.consumed == 0)
            && (sp.mapped <==> sp.staged == sp.lastChunk + 1 - sp.firstChunk)
            && (sp.mapped ==> sp.staging.consumed == sp.staging.size == r.l.ps)
  {
    hide Region.CountersOk, InStep, TableOk, Complete, Pool.Wired, Pool.Sizes;
    p.RegionFacts(rid);
    var r := p.regions[rid];
    assert SharedOk(r.l, r.Src(), r.chunkStaged, r.shared[i]);
  }

  // ------------------------------------------------------------ conservation

  /** What region `rid` has in the queue. */
  function BytesOf(rs: map<nat, RegionM>, q: seq<Key>, rid: nat): nat {
    if q == [] then 0 else BytesOf(rs, q[1..], rid) + if q[0].rid == rid then SizeOf(rs, q[0]) else 0
  }

  function ChunksOf(q: seq<Key>, rid: nat): nat {
    if q == [] then 0 else ChunksOf(q[1..], rid) + if q[0].rid == rid then 1 else 0
  }

  ghost predicate FlagsOf(flags: seq<bool>, q: seq<Key>, rid: nat) {
    && (forall c :: 0 <= c < |flags| ==> (flags[c] <==> Key(rid, c) in q))
    && (forall k :: k in q && k.rid == rid ==> k.chunk < |flags|)
  }

  /** A region's byte and chunk counters are the sums over its queued nodes. */
  lemma {:induction false} RegionCounters(rs: map<nat, RegionM>, q: seq<Key>, rid: nat, flags: seq<bool>)
    requires rid in rs && rs[rid].l.Valid() && |flags| == rs[rid].l.N()
    requires Distinct(q) && FlagsOf(flags, q, rid)
    ensures BytesOf(rs, q, rid) == ResidentBytes(rs[rid].l, flags, |flags|)
    ensures ChunksOf(q, rid) == CountStaged(flags, 0, |flags|)
  {
    var l := rs[rid].l;
    if q == [] {
      NothingResident(l, flags, |flags|);
    } else if q[0].rid == rid {
      var c := q[0].chunk;
      RegionCounters(rs, q[1..], rid, flags[c := false]);
      ResidentBytesSet(l, flags, |flags|, c);
      assert flags[c := true] == flags;
    } else {
      RegionCounters(rs, q[1..], rid, flags);
    }
  }

  function TotalOver(rs: map<nat, RegionM>, q: seq<Key>, rids: seq<nat>): nat {
    if rids == [] then 0 else BytesOf(rs, q, rids[0]) + TotalOver(rs, q, rids[1..])
  }

  lemma {:induction false} TotalOfNone(rs: map<nat, RegionM>, rids: seq<nat>)
    ensures TotalOver(rs, [], rids) == 0
  {
    if rids != [] {
      TotalOfNone(rs, rids[1..]);
    }
  }

  lemma {:induction false} TotalCons(rs: map<nat, RegionM>, k: Key, q: seq<Key>, rids: seq<nat>)
    requires forall i, j :: 0 <= i < j < |rids| ==> rids[i] != rids[j]
    ensures TotalOver(rs, [k] + q, rids) == TotalOver(rs, q, rids) + if k.rid in rids then SizeOf(rs, k) else 0
  {
    if rids != [] {
      TotalCons(rs, k, q, rids[1..]);
      assert ([k] + q)[1..] == q;
    }
  }

  lemma {:induction false} QueueTotal(rs: map<nat, RegionM>, q: seq<Key>, rids: seq<nat>)
    requires forall i, j :: 0 <= i < j < |rids| ==> rids[i] != rids[j]
    requires forall k :: k in q ==> k.rid in rids
    ensures TotalOver(rs, q, rids) == Bytes(rs, q)
  {
    if q == [] {
      TotalOfNone(rs, rids);
    } else {
      QueueTotal(rs, q[1..], rids);
      TotalCons(rs, q[0], q[1..], rids);
      assert q == [q[0]] + q[1..];
    }
  }

  function RegionBytes(p: Pool, rids: seq<nat>): nat
    requires forall i :: 0 <= i < |rids| ==> rids[i] in p.regions
    reads p, p.regions.Values
  {
    if rids == [] then 0 else p.regions[rids[0]].residentBytes + RegionBytes(p, rids[1..])
  }

  lemma {:induction false} SumOfRegions(p: Pool, rids: seq<nat>)
    requires p.Valid() && forall i :: 0 <= i < |rids| ==> rids[i] in p.regions
    ensures RegionBytes(p, rids) == TotalOver(p.Abs().regions, p.lru.keys, rids)
  {
    hide Pool.Valid;
    if rids != [] {
      SumOfRegions(p, rids[1..]);
      CountersOf(p, rids[0]);
    }
  }

  lemma CountersOf(p: Pool, rid: nat)
    requires p.Valid() && rid in p.regions
    ensures p.regions[rid].residentBytes == BytesOf(p.Abs().regions, p.lru.keys, rid)
    ensures p.regions[rid].residentChunks == ChunksOf(p.lru.keys, rid)
    ensures p.regions[rid].faultEventsTotal == Sum(p.regions[rid].faultsTotal)
  {
    hide Pool.Valid, Region.PagesOk, InStep;
    var r := p.regions[rid];
    p.RegionFacts(rid);
    forall c: nat | c < r.l.N()
      ensures r.initialized[c] <==> Key(rid, c) in p.lru.keys
    {
      p.ChunkFacts(rid, c);
    }
    forall k | k in p.lru.keys && k.rid == rid
      ensures k.chunk < r.l.N()
    {
      p.QueuedLive(k);
    }
    RegionCounters(p.Abs().regions, p.lru.keys, rid, r.initialized);
  }

  /** Conservation: the pool's byte count is the sum of its regions'. */
  lemma BytesConserved(p: Pool, rids: seq<nat>)
    requires p.Valid()
    requires forall i, j :: 0 <= i < j < |rids| ==> rids[i] != rids[j]
    requires forall rid :: rid in rids <==> rid in p.regions
    ensures p.residentBytes == RegionBytes(p, rids)
  {
    hide Region.Valid, InStep;
    SumOfRegions(p, rids);
    forall k | k in p.lru.keys
      ensures k.rid in rids
    {
      p.QueuedLive(k);
    }
    QueueTotal(p.Abs().regions, p.lru.keys, rids);
  }
}
