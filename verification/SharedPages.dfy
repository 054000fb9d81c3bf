/** Pages that hold bytes of several chunks: the sorted `shared_pages` table,
    and the staging machinery that publishes each page exactly when its last
    contributor arrives. */
module SharedPages {
  import opened Basics
  import opened Pages
  import opened Layouts
  import opened Scratches

  datatype SharedPage = SharedPage(
    pageOff: nat,
    firstChunk: nat,
    lastChunk: nat,
    staged: nat,
    staging: VmScratch,
    mapped: bool)

  // ---------------------------------------------------------------- source

  /** The region's contents as the callback defines them: every chunk's fill
      output, in order. */
  function Concat(outputs: seq<seq<byte>>): (s: seq<byte>) {
    if outputs == [] then [] else Concat(outputs[..|outputs| - 1]) + outputs[|outputs| - 1]
  }

  /** `outputs[c]` is what `fill_chunk(c)` writes: exactly the chunk's bytes. */
  ghost predicate FillsExactly(l: Layout, outputs: seq<seq<byte>>) {
    && l.Valid()
    && |outputs| == l.N()
    && forall c :: 0 <= c < l.N() ==> |outputs[c]| == l.Size(c)
  }

  lemma {:induction false} ConcatPrefix(l: Layout, outputs: seq<seq<byte>>, k: nat)
    requires FillsExactly(l, outputs) && k <= |outputs|
    ensures |Concat(outputs[..k])| == l.starts[k]
    ensures forall c, i :: 0 <= c < k && 0 <= i < |outputs[c]|
              ==> l.starts[c] + i < l.starts[k]
                  && Concat(outputs[..k])[l.starts[c] + i] == outputs[c][i]
  {
    if k > 0 {
      ConcatPrefix(l, outputs, k - 1);
      assert outputs[..k][..k - 1] == outputs[..k - 1];
    }
  }

  /** The concatenation really holds each chunk's output at its own offsets. */
  lemma ConcatAt(l: Layout, outputs: seq<seq<byte>>)
    requires FillsExactly(l, outputs)
    ensures |Concat(outputs)| == l.Total()
    ensures forall c, i :: 0 <= c < l.N() && 0 <= i < |outputs[c]|
              ==> l.starts[c] + i < l.Total()
                  && Concat(outputs)[l.starts[c] + i] == outputs[c][i]
  {
    ConcatPrefix(l, outputs, |outputs|);
    assert outputs[..|outputs|] == outputs;
  }

  /** What the page at `p` must read as: source bytes, zeros past the end. */
  function SourceByte(src: seq<byte>, x: nat): byte {
    if x < |src| then src[x] else 0
  }

  function SourcePage(src: seq<byte>, p: nat, ps: nat): (s: seq<byte>)
    ensures |s| == ps
  {
    seq(ps, i requires 0 <= i => SourceByte(src, p + i))
  }

  // --------------------------------------------------------------- counting

  function CountStaged(flags: seq<bool>, lo: nat, hi: nat): (n: nat)
    requires lo <= hi <= |flags|
    ensures n <= hi - lo
  {
    if lo == hi then 0 else CountStaged(flags, lo, hi - 1) + if flags[hi - 1] then 1 else 0
  }

  lemma {:induction false} CountFull(flags: seq<bool>, lo: nat, hi: nat)
    requires lo <= hi <= |flags|
    ensures CountStaged(flags, lo, hi) == hi - lo <==> forall c :: lo <= c < hi ==> flags[c]
    decreases hi
  {
    if lo < hi {
      CountFull(flags, lo, hi - 1);
    }
  }

  lemma {:induction false} CountSet(flags: seq<bool>, lo: nat, hi: nat, c: nat)
    requires lo <= hi <= |flags| && c < |flags| && !flags[c]
    ensures CountStaged(flags[c := true], lo, hi)
            == CountStaged(flags, lo, hi) + if lo <= c < hi then 1 else 0
    decreases hi
  {
    if lo < hi {
      CountSet(flags, lo, hi - 1, c);
    }
  }

  // -------------------------------------------------------------- invariant

  /** A staging page holds the source bytes of the contributors that have
      staged, and zeros elsewhere. */
  ghost function StagedByte(l: Layout, src: seq<byte>, flags: seq<bool>, x: nat): byte
    requires l.Valid() && |flags| == l.N() && |src| == l.Total()
  {
    if x < l.Total() && flags[l.Owner(x)] then src[x] else 0
  }

  /** Everything about one shared page is determined by which chunks have
      handed in their slices. */
  ghost predicate SharedOk(l: Layout, src: seq<byte>, flags: seq<bool>, sp: SharedPage) {
    && l.Valid() && |flags| == l.N() && |src| == l.Total()
    && Aligned(sp.pageOff, l.ps) && l.Shared(sp.pageOff) && sp.pageOff < l.Total()
    && sp.firstChunk == l.Owner(sp.pageOff)
    && sp.lastChunk == l.Owner(l.LastByte(sp.pageOff))
    && sp.firstChunk <= sp.lastChunk
    && sp.staged == CountStaged(flags, sp.firstChunk, sp.lastChunk + 1)
    && (sp.mapped <==> sp.staged == sp.lastChunk + 1 - sp.firstChunk)
    && (sp.staged == 0 ==> sp.staging == NoScratch)
    && (sp.staged > 0 && !sp.mapped ==> StagingLive(l, src, flags, sp))
    && (sp.mapped ==> sp.staging == VmScratch(None, l.ps, l.ps))
  }

  /** Between its first and its last slice a page has a live staging buffer, no
      byte of it used. */
  ghost predicate StagingLive(l: Layout, src: seq<byte>, flags: seq<bool>, sp: SharedPage)
    requires l.Valid() && |flags| == l.N() && |src| == l.Total()
  {
    && sp.staging.addr.Some? && sp.staging == Holding(sp.staging.addr.value)
    && StagingHolds(l, src, flags, sp.pageOff, sp.staging.addr.value)
  }

  ghost predicate StagingHolds(l: Layout, src: seq<byte>, flags: seq<bool>, p: nat, bytes: seq<byte>)
    requires l.Valid() && |flags| == l.N() && |src| == l.Total()
  {
    |bytes| == l.ps && forall i :: 0 <= i < l.ps ==> bytes[i] == StagedByte(l, src, flags, p + i)
  }

  ghost predicate Sorted(sps: seq<SharedPage>) {
    forall i, j :: 0 <= i < j < |sps| ==> sps[i].pageOff < sps[j].pageOff
  }

  ghost predicate Listed(sps: seq<SharedPage>, p: nat) {
    exists i :: 0 <= i < |sps| && sps[i].pageOff == p
  }

  /** The table lists every shared page once, in order, each one consistent. */
  ghost predicate SharedPagesOk(l: Layout, src: seq<byte>, flags: seq<bool>, sps: seq<SharedPage>) {
    && l.Valid()
    && Sorted(sps) && Complete(l, sps)
    && forall i :: 0 <= i < |sps| ==> SharedOk(l, src, flags, sps[i])
  }

  /** A page is up exactly when all contributors have staged. */
  lemma MappedIffAllStaged(l: Layout, src: seq<byte>, flags: seq<bool>, sp: SharedPage)
    requires SharedOk(l, src, flags, sp)
    ensures sp.mapped <==> forall c :: sp.firstChunk <= c <= sp.lastChunk ==> flags[c]
    ensures sp.mapped <==> forall c :: 0 <= c < l.N() && l.Overlaps(c, sp.pageOff) ==> flags[c]
  {
    CountFull(flags, sp.firstChunk, sp.lastChunk + 1);
    forall c | 0 <= c < l.N()
      ensures l.Overlaps(c, sp.pageOff) <==> sp.firstChunk <= c <= sp.lastChunk
    {
      Contributors(l, sp.pageOff, c);
    }
  }

  /** Slices of the contributors tile the page's in-region bytes: every such
      byte lies in the slice of exactly one contributor. */
  lemma SlicesTile(l: Layout, sp: SharedPage, src: seq<byte>, flags: seq<bool>, x: nat)
    requires SharedOk(l, src, flags, sp)
    requires sp.pageOff <= x < sp.pageOff + l.ps && x < l.Total()
    ensures sp.firstChunk <= l.Owner(x) <= sp.lastChunk
    ensures SliceLo(l, sp.pageOff, l.Owner(x)) <= x < SliceHi(l, sp.pageOff, l.Owner(x))
    ensures forall c :: 0 <= c < l.N() && SliceLo(l, sp.pageOff, c) <= x < SliceHi(l, sp.pageOff, c)
              ==> c == l.Owner(x)
  {
    OwnerInside(l, x);
    Contributors(l, sp.pageOff, l.Owner(x));
    forall c | 0 <= c < l.N() && SliceLo(l, sp.pageOff, c) <= x < SliceHi(l, sp.pageOff, c)
      ensures c == l.Owner(x)
    {
      OwnerUnique(l, x, c);
    }
  }

  /** Chunk `c`'s slice of the page at `p`. */
  function SliceLo(l: Layout, p: nat, c: nat): nat
    requires l.Valid() && c < l.N()
  {
    if l.starts[c] > p then l.starts[c] else p
  }

  function SliceHi(l: Layout, p: nat, c: nat): nat
    requires l.Valid() && c < l.N()
  {
    if l.starts[c + 1] < p + l.ps then l.starts[c + 1] else p + l.ps
  }

  lemma CompleteByte(l: Layout, src: seq<byte>, flags: seq<bool>, sp: SharedPage, x: nat)
    requires SharedOk(l, src, flags, sp) && sp.mapped && sp.pageOff <= x < sp.pageOff + l.ps
    ensures StagedByte(l, src, flags, x) == SourceByte(src, x)
  {
    MappedIffAllStaged(l, src, flags, sp);
    if x < l.Total() {
      SlicesTile(l, sp, src, flags, x);
    }
  }

  /** A complete staging page is the source page. */
  lemma CompleteStagingIsSource(l: Layout, src: seq<byte>, flags: seq<bool>, sp: SharedPage, bytes: seq<byte>)
    requires SharedOk(l, src, flags, sp) && sp.mapped
    requires StagingHolds(l, src, flags, sp.pageOff, bytes)
    ensures bytes == SourcePage(src, sp.pageOff, l.ps)
  {
    hide SharedOk, StagedByte, SourceByte;
    forall i | 0 <= i < l.ps
      ensures bytes[i] == SourcePage(src, sp.pageOff, l.ps)[i]
    {
      CompleteByte(l, src, flags, sp, sp.pageOff + i);
    }
  }

  lemma StagedByteStep(l: Layout, src: seq<byte>, flags: seq<bool>, p: nat, c: nat, x: nat)
    requires l.Valid() && |flags| == l.N() && |src| == l.Total() && c < l.N() && !flags[c]
    requires p <= x < p + l.ps
    ensures StagedByte(l, src, flags[c := true], x)
            == if SliceLo(l, p, c) <= x < SliceHi(l, p, c) then src[x] else StagedByte(l, src, flags, x)
  {
    if x < l.Total() {
      OwnerInside(l, x);
      if SliceLo(l, p, c) <= x < SliceHi(l, p, c) {
        OwnerUnique(l, x, c);
      }
    }
  }

  /** Copying one more contributor's slice keeps the staging page right. */
  lemma StagedSlice(l: Layout, src: seq<byte>, flags: seq<bool>, p: nat, c: nat, was: seq<byte>, now: seq<byte>)
    requires l.Valid() && |flags| == l.N() && |src| == l.Total() && c < l.N() && !flags[c]
    requires StagingHolds(l, src, flags, p, was)
    requires |now| == l.ps
    requires forall i :: 0 <= i < l.ps
               ==> now[i] == if SliceLo(l, p, c) <= p + i < SliceHi(l, p, c) then SourceByte(src, p + i) else was[i]
    ensures StagingHolds(l, src, flags[c := true], p, now)
  {
    forall i | 0 <= i < l.ps
      ensures now[i] == StagedByte(l, src, flags[c := true], p + i)
    {
      StagedByteStep(l, src, flags, p, c, p + i);
    }
  }

  lemma ZeroByte(l: Layout, src: seq<byte>, flags: seq<bool>, sp: SharedPage, x: nat)
    requires SharedOk(l, src, flags, sp) && sp.staged == 0 && sp.pageOff <= x < sp.pageOff + l.ps
    ensures StagedByte(l, src, flags, x) == 0
  {
    CountZero(flags, sp.firstChunk, sp.lastChunk + 1);
    if x < l.Total() {
      SlicesTile(l, sp, src, flags, x);
    }
  }

  /** Before anything is staged, a zero page is the right staging page. */
  lemma ZeroStaging(l: Layout, src: seq<byte>, flags: seq<bool>, sp: SharedPage)
    requires SharedOk(l, src, flags, sp) && sp.staged == 0
    ensures StagingHolds(l, src, flags, sp.pageOff, seq(l.ps, _ => 0))
  {
    hide CountStaged, StagedByte, Layout.Shared, Layout.Owner, Layout.LastByte, Aligned;
    var zeros: seq<byte> := seq(l.ps, _ => 0);
    forall i | 0 <= i < l.ps
      ensures zeros[i] == StagedByte(l, src, flags, sp.pageOff + i)
    {
      ZeroByte(l, src, flags, sp, sp.pageOff + i);
    }
  }

  lemma {:induction false} CountZero(flags: seq<bool>, lo: nat, hi: nat)
    requires lo <= hi <= |flags| && CountStaged(flags, lo, hi) == 0
    ensures forall c :: lo <= c < hi ==> !flags[c]
    decreases hi
  {
    if lo < hi {
      CountZero(flags, lo, hi - 1);
    }
  }

  /** The entry after one more contributor's slice: published if it was the
      last one missing, held in staging otherwise. */
  function StagedEntry(sp: SharedPage, bytes: seq<byte>): SharedPage {
    if sp.staged + 1 == sp.lastChunk + 1 - sp.firstChunk
    then sp.(staged := sp.staged + 1, staging := Consumed(Holding(bytes), |bytes|), mapped := true)
    else sp.(staged := sp.staged + 1, staging := Holding(bytes))
  }

  /** Staging a missing contributor: the page was not up yet, the counter stays
      exact, and if that was the last one the staging page is the source page. */
  lemma StageOk(l: Layout, src: seq<byte>, flags: seq<bool>, sp: SharedPage, c: nat, bytes: seq<byte>)
    requires SharedOk(l, src, flags, sp) && c < l.N() && !flags[c] && l.Overlaps(c, sp.pageOff)
    requires StagingHolds(l, src, flags[c := true], sp.pageOff, bytes)
    ensures !sp.mapped
    ensures SharedOk(l, src, flags[c := true], StagedEntry(sp, bytes))
    ensures StagedEntry(sp, bytes).mapped ==> bytes == SourcePage(src, sp.pageOff, l.ps)
  {
    hide Layout.Owner, Layout.LastByte, Layout.Shared;
    Contributors(l, sp.pageOff, c);
    MappedIffAllStaged(l, src, flags, sp);
    CountSet(flags, sp.firstChunk, sp.lastChunk + 1, c);
    var sp' := StagedEntry(sp, bytes);
    assert SharedOk(l, src, flags[c := true], sp');
    if sp'.mapped {
      CompleteStagingIsSource(l, src, flags[c := true], sp', bytes);
    }
  }

  /** Staging chunk `c` touches no page it does not contribute to. */
  lemma OtherPagesKeep(l: Layout, src: seq<byte>, flags: seq<bool>, sp: SharedPage, c: nat)
    requires SharedOk(l, src, flags, sp) && c < l.N() && !flags[c]
    requires !l.Overlaps(c, sp.pageOff)
    ensures SharedOk(l, src, flags[c := true], sp)
  {
    Contributors(l, sp.pageOff, c);
    CountSet(flags, sp.firstChunk, sp.lastChunk + 1, c);
    if sp.staging.addr.Some? {
      StagedSlice(l, src, flags, sp.pageOff, c, sp.staging.addr.value, sp.staging.addr.value);
    }
  }

  // -------------------------------------------------- staging page by page

  ghost predicate Complete(l: Layout, sps: seq<SharedPage>)
    requires l.Valid()
  {
    forall p: nat :: Aligned(p, l.ps) && l.Shared(p) ==> Listed(sps, p)
  }

  /** While chunk `c` is being staged: pages in `done` have its slice, the
      others do not yet. */
  ghost predicate StagingOk(l: Layout, src: seq<byte>, flags: seq<bool>, c: nat, done: set<nat>, sps: seq<SharedPage>) {
    && l.Valid() && c < l.N() && |flags| == l.N()
    && Sorted(sps) && Complete(l, sps)
    && forall j :: 0 <= j < |sps| ==> SharedOk(l, src, flags[c := sps[j].pageOff in done], sps[j])
  }

  lemma SameOffsets(l: Layout, sps: seq<SharedPage>, i: nat, sp: SharedPage)
    requires l.Valid() && Sorted(sps) && Complete(l, sps) && i < |sps| && sp.pageOff == sps[i].pageOff
    ensures Sorted(sps[i := sp]) && Complete(l, sps[i := sp])
  {
    forall p: nat | Aligned(p, l.ps) && l.Shared(p)
      ensures Listed(sps[i := sp], p)
    {
      assert Listed(sps, p);
      var j :| 0 <= j < |sps| && sps[j].pageOff == p;
      assert sps[i := sp][j].pageOff == p;
    }
  }

  /** One staged slice advances exactly one page. */
  lemma StagingStep(l: Layout, src: seq<byte>, flags: seq<bool>, c: nat, done: set<nat>, sps: seq<SharedPage>,
                    i: nat, sp: SharedPage)
    requires StagingOk(l, src, flags, c, done, sps) && i < |sps|
    requires sp.pageOff == sps[i].pageOff && SharedOk(l, src, flags[c := true], sp)
    ensures StagingOk(l, src, flags[c := true], c, done + {sp.pageOff}, sps[i := sp])
  {
    hide SharedOk;
    SameOffsets(l, sps, i, sp);
    var sps' := sps[i := sp];
    forall j | 0 <= j < |sps'|
      ensures SharedOk(l, src, flags[c := true][c := sps'[j].pageOff in done + {sp.pageOff}], sps'[j])
    {
      if j == i {
        assert flags[c := true][c := true] == flags[c := true];
      } else {
        assert sps'[j].pageOff != sp.pageOff;
        assert flags[c := true][c := sps[j].pageOff in done] == flags[c := sps[j].pageOff in done];
      }
    }
  }

  /** Once every page `c` contributes to is done, the table is consistent. */
  lemma StagingFinished(l: Layout, src: seq<byte>, flags: seq<bool>, c: nat, done: set<nat>, sps: seq<SharedPage>)
    requires StagingOk(l, src, flags, c, done, sps) && flags[c]
    requires forall j :: 0 <= j < |sps| && l.Overlaps(c, sps[j].pageOff) ==> sps[j].pageOff in done
    ensures SharedPagesOk(l, src, flags, sps)
  {
    hide SharedOk, Sorted, Complete;
    forall j | 0 <= j < |sps|
      ensures SharedOk(l, src, flags, sps[j])
    {
      var before := flags[c := sps[j].pageOff in done];
      if sps[j].pageOff in done {
        assert before == flags;
      } else {
        OtherPagesKeep(l, src, before, sps[j], c);
        assert before[c := true] == flags;
      }
    }
  }

  lemma StagingStarts(l: Layout, src: seq<byte>, flags: seq<bool>, c: nat, sps: seq<SharedPage>)
    requires SharedPagesOk(l, src, flags, sps) && c < l.N() && |flags| == l.N() && !flags[c]
    ensures StagingOk(l, src, flags, c, {}, sps)
  {
    assert flags[c := false] == flags;
  }

  // ------------------------------------------------------------------ table

  /** Entry `shared_pages_init` creates for the page at `p`. */
  function FreshEntry(l: Layout, p: nat): (sp: SharedPage)
    requires l.Valid() && p < l.Total()
  {
    SharedPage(p, l.Owner(p), l.Owner(l.LastByte(p)), 0, NoScratch, false)
  }

  lemma {:induction false} CountNone(n: nat, lo: nat, hi: nat)
    requires lo <= hi <= n
    ensures CountStaged(AllFalse(n), lo, hi) == 0
    decreases hi
  {
    if lo < hi {
      CountNone(n, lo, hi - 1);
    }
  }

  lemma OwnerOrder(l: Layout, p: nat)
    requires l.Valid() && p < l.Total()
    ensures l.Owner(p) <= l.Owner(l.LastByte(p))
  {
    OwnerInside(l, p);
    Contributors(l, p, l.Owner(p));
  }

  lemma FreshEntryOk(l: Layout, src: seq<byte>, p: nat)
    requires l.Valid() && |src| == l.Total() && p < l.Total()
    requires Aligned(p, l.ps) && l.Shared(p)
    ensures SharedOk(l, src, AllFalse(l.N()), FreshEntry(l, p))
  {
    OwnerOrder(l, p);
    CountNone(l.N(), l.Owner(p), l.Owner(l.LastByte(p)) + 1);
  }

  ghost predicate FreshAt(l: Layout, sp: SharedPage) {
    && l.Valid()
    && Aligned(sp.pageOff, l.ps) && l.Shared(sp.pageOff)
    && sp.pageOff < l.Total() && sp == FreshEntry(l, sp.pageOff)
  }

  ghost predicate FreshEntries(l: Layout, sps: seq<SharedPage>) {
    Sorted(sps) && forall k :: 0 <= k < |sps| ==> FreshAt(l, sps[k])
  }

  /** The page of boundary `k`, if the boundary is not on a page edge, is listed. */
  ghost predicate BoundaryListed(l: Layout, sps: seq<SharedPage>, k: nat)
    requires k < |l.starts|
  {
    var p := PageFloor(l.starts[k], l.ps);
    p != l.starts[k] ==> Listed(sps, p)
  }

  /** `sps` lists the pages of the boundaries below `i`, and only shared pages. */
  ghost predicate ListsBoundaries(l: Layout, sps: seq<SharedPage>, i: nat)
    requires l.Valid() && i <= l.N()
  {
    && FreshEntries(l, sps)
    && (forall k :: 1 <= k < i ==> BoundaryListed(l, sps, k))
  }

  lemma ListedAppend(sps: seq<SharedPage>, sp: SharedPage, p: nat)
    requires Listed(sps, p) || sp.pageOff == p
    ensures Listed(sps + [sp], p)
  {
    if sp.pageOff == p {
      assert (sps + [sp])[|sps|].pageOff == p;
    } else {
      var j :| 0 <= j < |sps| && sps[j].pageOff == p;
      assert (sps + [sp])[j].pageOff == p;
    }
  }

  lemma FreshAppend(l: Layout, sps: seq<SharedPage>, sp: SharedPage)
    requires FreshEntries(l, sps) && FreshAt(l, sp)
    requires sps != [] ==> sps[|sps| - 1].pageOff < sp.pageOff
    ensures FreshEntries(l, sps + [sp])
  {
    hide FreshAt;
  }

  lemma AppendBoundary(l: Layout, sps: seq<SharedPage>, i: nat, sp: SharedPage)
    requires l.Valid() && 1 <= i < l.N() && ListsBoundaries(l, sps, i)
    requires sp.pageOff == PageFloor(l.starts[i], l.ps)
    requires FreshEntries(l, sps + [sp])
    ensures ListsBoundaries(l, sps + [sp], i + 1)
  {
    forall k | 1 <= k < i + 1
      ensures BoundaryListed(l, sps + [sp], k)
    {
      var p := PageFloor(l.starts[k], l.ps);
      if p != l.starts[k] {
        assert k < i ==> BoundaryListed(l, sps, k);
        ListedAppend(sps, sp, p);
      }
    }
  }

  lemma BoundaryIsShared(l: Layout, i: nat)
    requires l.Valid() && 1 <= i < l.N() && PageFloor(l.starts[i], l.ps) != l.starts[i]
    ensures PageFloor(l.starts[i], l.ps) < l.Total()
    ensures FreshAt(l, FreshEntry(l, PageFloor(l.starts[i], l.ps)))
  {
    assert l.Shared(PageFloor(l.starts[i], l.ps));
    SharedBelowTotal(l, PageFloor(l.starts[i], l.ps));
  }

  lemma SkipBoundary(l: Layout, sps: seq<SharedPage>, i: nat)
    requires l.Valid() && 1 <= i < l.N() && ListsBoundaries(l, sps, i)
    requires PageFloor(l.starts[i], l.ps) == l.starts[i]
             || (sps != [] && sps[|sps| - 1].pageOff == PageFloor(l.starts[i], l.ps))
    ensures ListsBoundaries(l, sps, i + 1)
  {
  }

  lemma LastEntryAligned(l: Layout, sps: seq<SharedPage>)
    requires FreshEntries(l, sps) && sps != []
    ensures Aligned(sps[|sps| - 1].pageOff, l.ps)
  {
  }

  /** `shared_pages_init`: collects the pages holding an unaligned boundary,
      once each, in order. */
  method SharedPagesInit(l: Layout) returns (sps: seq<SharedPage>)
    requires l.Valid()
    ensures ListsBoundaries(l, sps, l.N())
  {
    hide FreshAt, BoundaryListed;
    sps := [];
    var prev: Option<nat> := None;
    for i := 1 to l.N()
      invariant ListsBoundaries(l, sps, i)
      invariant prev == if sps == [] then None else Some(sps[|sps| - 1].pageOff)
      invariant prev.Some? ==> prev.value < l.starts[i - 1]
    {
      var p := PageFloor(l.starts[i], l.ps);
      if l.starts[i] == p || prev == Some(p) {
        SkipBoundary(l, sps, i);
        continue;
      }
      if prev.Some? {
        LastEntryAligned(l, sps);
        FloorMonotone(prev.value, l.starts[i], l.ps);
      }
      assert sps != [] ==> sps[|sps| - 1].pageOff < p;
      BoundaryIsShared(l, i);
      var first := FindChunk(l, p);
      var last := FindChunk(l, l.LastByte(p));
      var sp := SharedPage(p, first, last, 0, NoScratch, false);
      FreshAppend(l, sps, sp);
      AppendBoundary(l, sps, i, sp);
      sps := sps + [sp];
      prev := Some(p);
    }
  }

  /** The fresh table satisfies the invariant of a region nobody has touched. */
  lemma FreshTableOk(l: Layout, src: seq<byte>, sps: seq<SharedPage>)
    requires l.Valid() && |src| == l.Total()
    requires ListsBoundaries(l, sps, l.N())
    ensures SharedPagesOk(l, src, AllFalse(l.N()), sps)
  {
    forall k | 0 <= k < |sps|
      ensures SharedOk(l, src, AllFalse(l.N()), sps[k])
    {
      FreshEntryOk(l, src, sps[k].pageOff);
    }
    forall p: nat | Aligned(p, l.ps) && l.Shared(p)
      ensures Listed(sps, p)
    {
      var k :| 1 <= k < l.N() && p < l.starts[k] < p + l.ps;
      FloorUnique(l.starts[k], p, l.ps);
      assert BoundaryListed(l, sps, k);
    }
  }

  lemma FloorMonotone(a: nat, x: nat, ps: PageSize)
    requires Aligned(a, ps) && a < x
    ensures a <= PageFloor(x, ps)
  {
    if PageFloor(x, ps) < a {
      AlignedGap(PageFloor(x, ps), a, ps);
    }
  }

  /** `find_shared_page`: binary search by page offset. */
  method FindSharedPage(sps: seq<SharedPage>, page: nat) returns (r: Option<nat>)
    requires Sorted(sps)
    ensures r.Some? ==> r.value < |sps| && sps[r.value].pageOff == page
    ensures r.None? ==> !Listed(sps, page)
  {
    var lo, hi := 0, |sps|;
    while lo < hi
      invariant 0 <= lo <= hi <= |sps|
      invariant forall i :: 0 <= i < lo ==> sps[i].pageOff < page
      invariant forall i :: hi <= i < |sps| ==> page <= sps[i].pageOff
    {
      var mid := lo + (hi - lo) / 2;
      if sps[mid].pageOff < page {
        lo := mid + 1;
      } else {
        hi := mid;
      }
    }
    if lo < |sps| && sps[lo].pageOff == page {
      return Some(lo);
    }
    return None;
  }
}
