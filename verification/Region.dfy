/** One region of a pool: its bookkeeping arrays, its shared pages, its page
    table, and the operations `src/inproc.c` performs on them under the lock. */
module Regions {
  import opened Basics
  import opened Pages
  import opened Layouts
  import opened SharedPages
  import opened PageTables
  import opened Scratches
  import opened CacheModel
  import opened CacheTheorems

  class Region {
    /** Base address; also what tells regions apart. */
    const id: nat
    const l: Layout
    /** What the fill callback writes for each chunk. */
    const outputs: seq<seq<byte>>

    var initialized: seq<bool>
    var chunkStaged: seq<bool>
    var shared: seq<SharedPage>
    var table: Table
    var faultsTotal: seq<nat>
    var residentBytes: nat
    var residentChunks: nat
    var faultEventsTotal: nat
    var chunksResolved: nat
    var faultsHandled: nat

    /** What the page table holds of each chunk's own pages. */
    ghost var status: seq<Status>

    ghost function Src(): seq<byte> { Concat(outputs) }

    ghost predicate Shape() {
      FillsExactly(l, outputs) && |Src()| == l.Total()
    }

    /** Page table and shared pages hold exactly what they should. */
    ghost predicate PagesOk()
      reads this`chunkStaged, this`shared, this`table, this`status
    {
      && Shape()
      && SharedPagesOk(l, Src(), chunkStaged, shared)
      && TableOk(l, Src(), Up(shared), status, table)
      && |chunkStaged| == l.N() && |status| == l.N()
    }

    /** Counters are the sums they stand for. */
    ghost predicate CountersOk()
      reads this`initialized, this`faultsTotal, this`residentBytes, this`residentChunks, this`faultEventsTotal
    {
      && Shape()
      && |initialized| == l.N() && |faultsTotal| == l.N()
      && residentBytes == ResidentBytes(l, initialized, l.N())
      && residentChunks == CountStaged(initialized, 0, l.N())
      && faultEventsTotal == Sum(faultsTotal)
    }

    ghost predicate Valid()
      reads this
    {
      PagesOk() && CountersOk()
    }

    ghost function Abs(): RegionM
      reads this
    {
      RegionM(l, chunkStaged, faultsTotal, faultEventsTotal, chunksResolved, faultsHandled)
    }

    /** Region creation: nothing filled, nothing staged, every page reserved. */
    constructor (id: nat, l: Layout, outputs: seq<seq<byte>>)
      requires FillsExactly(l, outputs)
      ensures Valid() && this.id == id && this.l == l && this.outputs == outputs
      ensures initialized == AllFalse(l.N()) && status == AllAbsent(l.N())
      ensures Abs() == FreshRegion(l)
    {
      this.id, this.l, this.outputs := id, l, outputs;
      initialized, chunkStaged := AllFalse(l.N()), AllFalse(l.N());
      faultsTotal := Zeros(l.N());
      table := VmReserve(l.Mapped(), l.ps);
      residentBytes, residentChunks, faultEventsTotal, chunksResolved, faultsHandled := 0, 0, 0, 0, 0;
      status := AllAbsent(l.N());
      var sps := SharedPagesInit(l);
      shared := sps;
      new;
      hide *;
      StartsValid();
    }

    /** What the constructor sets up is a region nobody has touched. */
    lemma StartsValid()
      requires FillsExactly(l, outputs) && ListsBoundaries(l, shared, l.N())
      requires initialized == AllFalse(l.N()) && chunkStaged == AllFalse(l.N()) && faultsTotal == Zeros(l.N())
      requires table == VmReserve(l.Mapped(), l.ps) && status == AllAbsent(l.N())
      requires residentBytes == residentChunks == faultEventsTotal == chunksResolved == faultsHandled == 0
      ensures Valid() && Abs() == FreshRegion(l)
    {
      FreshPages(l, outputs, shared);
      FreshCounters(l);
      hide SharedPagesOk, TableOk, ListsBoundaries, Concat, VmReserve, Up, ResidentBytes, CountStaged, AllFalse,
           AllAbsent, Zeros;
      assert PagesOk();
    }

    /** Staging buffers are whole while they live. */
    ghost predicate StagingWhole()
      reads this`shared
    {
      forall i :: 0 <= i < |shared| && shared[i].staging.addr.Some? ==>
        shared[i].staging == Holding(shared[i].staging.addr.value) && shared[i].staging.size == l.ps
    }

    lemma StagingIsWhole()
      requires Valid()
      ensures StagingWhole()
    {
      hide TableOk, StagingHolds, CountersOk;
      forall i | 0 <= i < |shared| && shared[i].staging.addr.Some?
        ensures shared[i].staging == Holding(shared[i].staging.addr.value) && shared[i].staging.size == l.ps
      {
        assert SharedOk(l, Src(), chunkStaged, shared[i]);
        StagingSize(l, Src(), chunkStaged, shared[i]);
      }
    }

    /** `region_free`: the reservation goes, and every staging page that is still
        half full is discarded whole. */
    method Free()
      requires StagingWhole()
      modifies this`table, this`shared
      ensures table == map[]
      ensures |shared| == |old(shared)|
      ensures forall i :: 0 <= i < |shared| ==> shared[i] == Freed(old(shared)[i], l.ps) && shared[i].staging.addr.None?
    {
      table := map[];
      for i := 0 to |shared|
        invariant table == map[] && |shared| == |old(shared)|
        invariant forall j :: 0 <= j < i ==> shared[j] == Freed(old(shared)[j], l.ps)
        invariant forall j :: i <= j < |shared| ==> shared[j] == old(shared)[j]
      {
        if shared[i].staging.addr.Some? {
          var staging := new Scratch.At(shared[i].staging);
          staging.Discard(0, l.ps);
          shared := shared[i := shared[i].(staging := staging.s)];
        }
      }
    }

    /** `chunk_set_readable` */
    method SetReadable(c: nat, readable: bool)
      requires PagesOk() && c < l.N() && status[c] != Absent
      modifies this`table, this`status
      ensures PagesOk() && status == old(status)[c := if readable then Hot else Cold]
    {
      hide TableOk, SharedPagesOk;
      var lo, hi := l.ExLo(c), l.ExHi(c);
      ghost var s := if readable then Hot else Cold;
      if hi > lo {
        SetReadableOk(l, Src(), Up(shared), status, table, c, readable);
        table := VmSetReadable(table, l.ps, lo, hi, readable);
      } else {
        NoExclusivePages(l, Src(), Up(shared), status, table, c, s);
      }
      status := status[c := s];
    }

    /** The page-table half of `lru_evict_chunk`. */
    method Decommit(c: nat)
      requires PagesOk() && c < l.N()
      modifies this`table, this`status
      ensures PagesOk() && status == old(status)[c := Absent]
    {
      hide TableOk, SharedPagesOk;
      var lo, hi := l.ExLo(c), l.ExHi(c);
      if hi == lo {
        NoExclusivePages(l, Src(), Up(shared), status, table, c, Absent);
      } else {
        DecommitOk(l, Src(), Up(shared), status, table, c);
        table := VmDecommit(table, lo, hi);
      }
      status := status[c := Absent];
    }

    /** The region's half of `lru_forget_chunk`. */
    method Forget(c: nat)
      requires CountersOk() && c < l.N() && initialized[c]
      modifies this`initialized, this`residentBytes, this`residentChunks
      ensures CountersOk() && initialized == old(initialized)[c := false]
    {
      ResidentBytesSet(l, initialized, l.N(), c);
      assert initialized[c := true] == initialized;
      initialized := initialized[c := false];
      residentBytes := residentBytes - l.Size(c);
      residentChunks := residentChunks - 1;
    }

    // -------------------------------------------------------------- staging

    ghost predicate Staging(c: nat, done: set<nat>)
      reads this
    {
      && Shape() && |status| == l.N()
      && StagingOk(l, Src(), chunkStaged, c, done, shared)
      && TableOk(l, Src(), Up(shared), status, table)
    }

    /** `stage_into_shared_page`, with `install_shared_page` when the last
        contributor arrives. */
    method StageIntoSharedPage(i: nat, c: nat, scratch: seq<byte>, ghost done: set<nat>)
      requires Staging(c, done) && i < |shared| && shared[i].pageOff !in done
      requires l.Overlaps(c, shared[i].pageOff) && ScratchHolds(l, outputs, c, scratch)
      modifies this`shared, this`table, this`chunkStaged
      ensures Staging(c, done + {old(shared)[i].pageOff})
      ensures chunkStaged == old(chunkStaged)[c := true]
      ensures |shared| == |old(shared)|
      ensures forall j :: 0 <= j < |shared| ==> shared[j].pageOff == old(shared)[j].pageOff
    {
      hide SharedOk, StagingHolds, TableOk, ScratchHolds, Consumed, Holding, SourcePage, Up;
      var sp := shared[i];
      ghost var flags := chunkStaged[c := false];
      assert SharedOk(l, Src(), flags, sp);
      var bytes := StageSlice(sp, c, scratch, flags);
      var staging, mapped := Holding(bytes), sp.staged + 1 == sp.lastChunk + 1 - sp.firstChunk;
      UpAfter(shared, i, bytes);
      if mapped {
        SharedPageMapped(flags, sp);
        staging := InstallSharedPage(sp.pageOff, staging, bytes);
      }
      assert flags[c := true] == chunkStaged[c := true];
      StagingStep(l, Src(), chunkStaged, c, done, shared, i, StagedEntry(sp, bytes));
      chunkStaged := chunkStaged[c := true];
      shared := shared[i := sp.(staged := sp.staged + 1, staging := staging, mapped := mapped)];
    }

    /** `install_shared_page`: the whole staging buffer goes over the page. */
    method InstallSharedPage(p: nat, staging: VmScratch, ghost bytes: seq<byte>) returns (after: VmScratch)
      requires TableOk(l, Src(), Up(shared), status, table) && l.Shared(p) && p in table
      requires bytes == SourcePage(Src(), p, l.ps) && staging == Holding(bytes)
      modifies this`table
      ensures TableOk(l, Src(), Up(shared) + {p}, status, table)
      ensures after == Consumed(staging, |bytes|)
    {
      hide TableOk, SourcePage, Up;
      var buffer := new Scratch.At(staging);
      var piece := buffer.Publish(0, l.ps);
      assert piece == bytes;
      InstallOk(l, Src(), Up(shared), status, table, p, bytes);
      table := VmPublish(table, l.ps, piece, p);
      after := buffer.s;
    }

    lemma SharedPageMapped(flags: seq<bool>, sp: SharedPage)
      requires PagesTabled() && SharedOk(l, Src(), flags, sp)
      ensures sp.pageOff in table && l.Shared(sp.pageOff)
    {
    }

    ghost predicate PagesTabled()
      reads this
    {
      TableOk(l, Src(), Up(shared), status, table)
    }

    /** The staging page with `c`'s slice copied in; created if this is the
        first slice. */
    method StageSlice(sp: SharedPage, c: nat, scratch: seq<byte>, ghost flags: seq<bool>) returns (bytes: seq<byte>)
      requires Shape() && c < l.N() && |flags| == l.N() && !flags[c] && SharedOk(l, Src(), flags, sp)
      requires l.Overlaps(c, sp.pageOff) && ScratchHolds(l, outputs, c, scratch)
      ensures !sp.mapped && |bytes| == l.ps
      ensures SharedOk(l, Src(), flags[c := true], StagedEntry(sp, bytes))
      ensures StagedEntry(sp, bytes).mapped ==> bytes == SourcePage(Src(), sp.pageOff, l.ps)
    {
      hide ScratchHolds;
      NotMapped(c, flags, sp);
      var was: seq<byte>;
      if sp.staging.addr.None? {
        var buffer := new Scratch(l.ps);
        was := buffer.s.addr.value;
        ZeroStaging(l, Src(), flags, sp);
      } else {
        was := sp.staging.addr.value;
      }
      bytes := CopySlice(sp.pageOff, c, scratch, was);
      StagedSlice(l, Src(), flags, sp.pageOff, c, was, bytes);
      StageOk(l, Src(), flags, sp, c, bytes);
    }

    lemma NotMapped(c: nat, flags: seq<bool>, sp: SharedPage)
      requires Shape() && c < l.N() && SharedOk(l, Src(), flags, sp) && !flags[c] && l.Overlaps(c, sp.pageOff)
      ensures !sp.mapped
    {
      MappedIffAllStaged(l, Src(), flags, sp);
    }

    /** The `memcpy` of chunk `c`'s slice of the page at `p`. */
    method CopySlice(p: nat, c: nat, scratch: seq<byte>, was: seq<byte>) returns (now: seq<byte>)
      requires Shape() && c < l.N() && l.Overlaps(c, p) && |was| == l.ps
      requires ScratchHolds(l, outputs, c, scratch)
      ensures |now| == l.ps
      ensures forall i :: 0 <= i < l.ps ==>
                now[i] == if SliceLo(l, p, c) <= p + i < SliceHi(l, p, c) then SourceByte(Src(), p + i) else was[i]
    {
      var lo, hi, base := SliceLo(l, p, c), SliceHi(l, p, c), SpanLo(l, c);
      now := was[..lo - p] + scratch[lo - base..hi - base] + was[hi - p..];
      hide ScratchHolds, FillsExactly, Concat, SourceByte;
      forall i | 0 <= i < l.ps
        ensures now[i] == if lo <= p + i < hi then SourceByte(Src(), p + i) else was[i]
      {
        Spliced(was, lo - p, scratch, lo - base, hi - base, hi - p, i);
        if lo <= p + i < hi {
          ScratchIsSource(l, outputs, c, scratch, p + i);
        }
      }
    }

    // ---------------------------------------------------------------- filling

    /** Hands chunk `c`'s slices to the shared pages it ends in, if it has not
        done so before. */
    method StageChunk(c: nat, scratch: seq<byte>)
      requires PagesOk() && c < l.N() && ScratchHolds(l, outputs, c, scratch)
      modifies this`shared, this`table, this`chunkStaged
      ensures PagesOk()
      ensures chunkStaged == if Contributes(l, c) then old(chunkStaged)[c := true] else old(chunkStaged)
    {
      hide ScratchHolds, TableOk, SharedOk;
      var spanLo, tailPage := l.HeadPage(c), l.TailPage(c);
      var hasHead := spanLo != l.starts[c];
      var hasTail := tailPage != l.starts[c + 1] && c + 1 < l.N();
      HeadTailTests(c);
      if hasHead && hasTail && tailPage == spanLo {
        hasTail := false;
      }
      if chunkStaged[c] {
        return;
      }
      StagingStarts(l, Src(), chunkStaged, c, shared);
      ghost var done: set<nat> := {};
      if hasHead {
        var i := FindStagingPage(c, spanLo, done);
        StageIntoSharedPage(i, c, scratch, done);
        done := done + {spanLo};
      }
      if hasTail {
        var i := FindStagingPage(c, tailPage, done);
        StageIntoSharedPage(i, c, scratch, done);
        done := done + {tailPage};
      }
      FinishStaging(c, done);
    }

    lemma HeadTailTests(c: nat)
      requires Shape() && c < l.N()
      ensures l.HasHead(c) <==> l.HeadPage(c) != l.starts[c]
      ensures l.HasTail(c) <==> l.TailPage(c) != l.starts[c + 1] && c + 1 < l.N()
    {
      if Aligned(l.starts[c], l.ps) {
        FloorUnique(l.starts[c], l.starts[c], l.ps);
      }
      if Aligned(l.starts[c + 1], l.ps) {
        FloorUnique(l.starts[c + 1], l.starts[c + 1], l.ps);
      }
    }

    /** The lookups in `fill_chunk_locked` always find their page. */
    method FindStagingPage(c: nat, p: nat, ghost done: set<nat>) returns (i: nat)
      requires Staging(c, done) && p !in done
      requires (l.HasHead(c) && p == l.HeadPage(c)) || (l.HasTail(c) && p == l.TailPage(c))
      ensures i < |shared| && shared[i].pageOff == p && l.Overlaps(c, p) && !shared[i].mapped
    {
      hide TableOk, SharedOk;
      ContributorIsHeadOrTail(l, p, c);
      var r := FindSharedPage(shared, p);
      assert Listed(shared, p);
      i := r.value;
      NotMapped(c, chunkStaged[c := false], shared[i]);
    }

    lemma FinishStaging(c: nat, done: set<nat>)
      requires Staging(c, done)
      requires chunkStaged[c] == Contributes(l, c)
      requires l.HasHead(c) ==> l.HeadPage(c) in done
      requires l.HasTail(c) ==> l.TailPage(c) in done
      requires !Contributes(l, c) ==> done == {}
      ensures PagesOk()
    {
      hide SharedOk, TableOk;
      if Contributes(l, c) {
        forall j | 0 <= j < |shared| && l.Overlaps(c, shared[j].pageOff)
          ensures shared[j].pageOff in done
        {
          EntryIsShared(chunkStaged[c := shared[j].pageOff in done], shared[j]);
          ContributorIsHeadOrTail(l, shared[j].pageOff, c);
        }
        StagingFinished(l, Src(), chunkStaged, c, done, shared);
      } else {
        assert chunkStaged[c := false] == chunkStaged;
        assert forall j :: 0 <= j < |shared| ==> SharedOk(l, Src(), chunkStaged, shared[j]);
      }
    }

    lemma EntryIsShared(flags: seq<bool>, sp: SharedPage)
      requires SharedOk(l, Src(), flags, sp)
      ensures Aligned(sp.pageOff, l.ps) && l.Shared(sp.pageOff)
    {
    }

    /** Publishes the chunk's own pages and throws away the shared ends, using
        up the scratch buffer exactly. */
    method PublishExclusive(c: nat, scratch: Scratch)
      requires PagesOk() && c < l.N() && scratch.Valid() && scratch.s.addr.Some? && scratch.used == {}
      requires ScratchHolds(l, outputs, c, scratch.s.addr.value) && scratch.s.size == SpanHi(l, c) - SpanLo(l, c)
      modifies this`table, this`status, scratch
      ensures PagesOk() && status == old(status)[c := Hot]
      ensures scratch.Valid() && scratch.s == VmScratch(None, old(scratch.s.size), old(scratch.s.size))
    {
      hide SharedOk, TableOk, ScratchHolds;
      var spanLo, spanHi := SpanLo(l, c), SpanHi(l, c);
      var lo, hi := l.ExLo(c), l.ExHi(c);
      if hi > lo {
        ExclusiveInSpan(l, c);
        ghost var filled := scratch.s.addr.value;
        var piece := scratch.PublishMiddle(lo - spanLo, hi - lo);
        PublishOk(l, outputs, Up(shared), status, table, c, filled, piece);
        table := VmPublish(table, l.ps, piece, lo);
      } else {
        NoExclusivePages(l, Src(), Up(shared), status, table, c, Hot);
        scratch.Discard(0, spanHi - spanLo);
      }
      status := status[c := Hot];
    }

    /** `fill_chunk_locked`, up to its queue insertion: the callback's output
        goes to scratch, its slices to the shared pages, its own pages up. */
    method Fill(c: nat)
      requires Valid() && c < l.N() && !initialized[c]
      modifies this
      ensures Valid() && status == old(status)[c := Hot]
      ensures initialized == old(initialized)[c := true]
      ensures Abs() == FilledRegion(old(Abs()), c)
    {
      hide SharedOk, TableOk, SharedPagesOk;
      var spanLo := SpanLo(l, c);
      var scratch := new Scratch(SpanHi(l, c) - spanLo);
      scratch.Write(l.starts[c] - spanLo, outputs[c]);
      assert ScratchHolds(l, outputs, c, scratch.s.addr.value);
      StageChunk(c, scratch.s.addr.value);
      PublishExclusive(c, scratch);
      CountFill(c);
    }

    /** The bookkeeping at the end of `fill_chunk_locked`. */
    method CountFill(c: nat)
      requires CountersOk() && c < l.N() && !initialized[c]
      modifies this`initialized, this`faultsTotal, this`faultEventsTotal, this`residentBytes, this`residentChunks,
               this`chunksResolved
      ensures CountersOk() && initialized == old(initialized)[c := true]
      ensures faultsTotal == old(faultsTotal)[c := old(faultsTotal)[c] + 1]
      ensures faultEventsTotal == old(faultEventsTotal) + 1 && chunksResolved == old(chunksResolved) + 1
    {
      ResidentBytesSet(l, initialized, l.N(), c);
      assert initialized[c := false] == initialized;
      SumSet(faultsTotal, c, faultsTotal[c] + 1);
      initialized := initialized[c := true];
      faultsTotal := faultsTotal[c := faultsTotal[c] + 1];
      faultEventsTotal := faultEventsTotal + 1;
      residentBytes := residentBytes + l.Size(c);
      residentChunks := residentChunks + 1;
      chunksResolved := chunksResolved + 1;
    }

    /** The bookkeeping of a promotion. */
    method CountPromotion(c: nat)
      requires CountersOk() && c < l.N()
      modifies this`faultsTotal, this`faultEventsTotal
      ensures CountersOk()
      ensures faultsTotal == old(faultsTotal)[c := old(faultsTotal)[c] + 1]
      ensures faultEventsTotal == old(faultEventsTotal) + 1
    {
      SumSet(faultsTotal, c, faultsTotal[c] + 1);
      faultsTotal := faultsTotal[c := faultsTotal[c] + 1];
      faultEventsTotal := faultEventsTotal + 1;
    }
  }

  lemma Spliced(was: seq<byte>, a: nat, from: seq<byte>, x: nat, y: nat, b: nat, i: nat)
    requires a <= b <= |was| && x <= y <= |from| && y - x == b - a && i < |was|
    ensures var now := was[..a] + from[x..y] + was[b..];
            |now| == |was| && now[i] == if a <= i < b then from[x + (i - a)] else was[i]
  {
  }

  /** A shared page when its region is freed. */
  function Freed(sp: SharedPage, ps: PageSize): SharedPage {
    if sp.staging.addr.Some? then sp.(staging := Consumed(sp.staging, ps)) else sp
  }

  lemma UpAfter(sps: seq<SharedPage>, i: nat, bytes: seq<byte>)
    requires i < |sps| && !sps[i].mapped && Sorted(sps)
    ensures var sp := StagedEntry(sps[i], bytes);
            Up(sps[i := sp]) == if sp.mapped then Up(sps) + {sps[i].pageOff} else Up(sps)
  {
    UpSet(sps, i, StagedEntry(sps[i], bytes));
    assert Up(sps) + {} == Up(sps);
  }

  lemma StagingSize(l: Layout, src: seq<byte>, flags: seq<bool>, sp: SharedPage)
    requires SharedOk(l, src, flags, sp) && sp.staging.addr.Some?
    ensures sp.staging == Holding(sp.staging.addr.value) && sp.staging.size == l.ps
  {
  }

  /** The pages of a region nobody has touched. */
  lemma FreshPages(l: Layout, outputs: seq<seq<byte>>, sps: seq<SharedPage>)
    requires FillsExactly(l, outputs) && ListsBoundaries(l, sps, l.N())
    ensures l.Valid() && |Concat(outputs)| == l.Total()
    ensures SharedPagesOk(l, Concat(outputs), AllFalse(l.N()), sps)
    ensures TableOk(l, Concat(outputs), Up(sps), AllAbsent(l.N()), VmReserve(l.Mapped(), l.ps))
  {
    hide Concat, SharedPagesOk, TableOk;
    ConcatAt(l, outputs);
    FreshTableOk(l, Concat(outputs), sps);
    NothingUp(l, sps);
    ReservedTableOk(l, Concat(outputs));
  }

  lemma FreshCounters(l: Layout)
    requires l.Valid()
    ensures |AllFalse(l.N())| == |AllAbsent(l.N())| == |Zeros(l.N())| == l.N() && Sum(Zeros(l.N())) == 0
    ensures ResidentBytes(l, AllFalse(l.N()), l.N()) == 0 && CountStaged(AllFalse(l.N()), 0, l.N()) == 0
  {
    NothingResident(l, AllFalse(l.N()), l.N());
    SumZeros(l.N());
  }

  lemma NothingUp(l: Layout, sps: seq<SharedPage>)
    requires l.Valid() && ListsBoundaries(l, sps, l.N())
    ensures Up(sps) == {}
  {
  }

  /** With no chunk flagged there is nothing to count. */
  lemma {:induction false} NothingResident(l: Layout, flags: seq<bool>, k: nat)
    requires l.Valid() && |flags| == l.N() && k <= l.N() && forall c :: 0 <= c < |flags| ==> !flags[c]
    ensures ResidentBytes(l, flags, k) == 0 && CountStaged(flags, 0, k) == 0
  {
    if k > 0 {
      NothingResident(l, flags, k - 1);
    }
  }
}
