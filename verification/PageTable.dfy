/** The page table of one region, under the contract of `src/vm.h`, and what
    it must hold: nothing, or exactly the source bytes. */
module PageTables {
  import opened Basics
  import opened Pages
  import opened Layouts
  import opened SharedPages

  datatype Page = Empty | Hidden(bytes: seq<byte>) | Readable(bytes: seq<byte>)

  /** Page offset to contents, for every page of the reservation. */
  type Table = map<nat, Page>

  /** A chunk's exclusive pages are gone, kept without read access, or readable. */
  datatype Status = Absent | Cold | Hot

  // ------------------------------------------------------- the vm.h contract

  function VmReserve(size: nat, ps: PageSize): (t: Table) {
    map p: nat | 0 <= p < size && Aligned(p, ps) :: Empty
  }

  function PageSlice(bytes: seq<byte>, off: nat, ps: nat): seq<byte> {
    if off + ps <= |bytes| then bytes[off..off + ps] else []
  }

  /** Moves a piece of a scratch buffer over `[target, target + |piece|)`. */
  function VmPublish(t: Table, ps: PageSize, piece: seq<byte>, target: nat): (t': Table)
    ensures t'.Keys == t.Keys
  {
    map p | p in t :: if target <= p < target + |piece| then Readable(PageSlice(piece, p - target, ps)) else t[p]
  }

  /** Changing protection keeps contents; opening a page nothing was published
      over would expose zeros. */
  function WithAccess(page: Page, ps: PageSize, readable: bool): Page {
    match page
    case Empty => if readable then Readable(seq(ps, _ => 0)) else Empty
    case Hidden(b) => if readable then Readable(b) else page
    case Readable(b) => if readable then page else Hidden(b)
  }

  function VmSetReadable(t: Table, ps: PageSize, lo: nat, hi: nat, readable: bool): (t': Table)
    ensures t'.Keys == t.Keys
  {
    map p | p in t :: if lo <= p < hi then WithAccess(t[p], ps, readable) else t[p]
  }

  function VmDecommit(t: Table, lo: nat, hi: nat): (t': Table)
    ensures t'.Keys == t.Keys
  {
    map p | p in t :: if lo <= p < hi then Empty else t[p]
  }

  // --------------------------------------------------------------- agreement

  /** What the page at `p` has to be, given which shared pages are up and the
      status of each chunk. */
  ghost function Expected(l: Layout, src: seq<byte>, up: set<nat>, status: seq<Status>, p: nat): Page
    requires l.Valid() && |status| == l.N()
  {
    if l.Shared(p) then
      if p in up then Readable(SourcePage(src, p, l.ps)) else Empty
    else
      match status[l.Owner(p)]
      case Absent => Empty
      case Cold => Hidden(SourcePage(src, p, l.ps))
      case Hot => Readable(SourcePage(src, p, l.ps))
  }

  ghost predicate TableOk(l: Layout, src: seq<byte>, up: set<nat>, status: seq<Status>, t: Table) {
    && l.Valid() && |status| == l.N()
    && (forall p: nat :: p in t <==> p < l.Mapped() && Aligned(p, l.ps))
    && (forall p: nat :: p in t ==> t[p] == Expected(l, src, up, status, p))
  }

  /** Shared pages that are published. */
  ghost function Up(sps: seq<SharedPage>): set<nat> {
    set i | 0 <= i < |sps| && sps[i].mapped :: sps[i].pageOff
  }

  lemma UpSet(sps: seq<SharedPage>, i: nat, sp: SharedPage)
    requires i < |sps| && sp.pageOff == sps[i].pageOff && !sps[i].mapped && Sorted(sps)
    ensures Up(sps[i := sp]) == Up(sps) + if sp.mapped then {sp.pageOff} else {}
  {
    var sps' := sps[i := sp];
    forall p | p in Up(sps)
      ensures p in Up(sps')
    {
      var j :| 0 <= j < |sps| && sps[j].mapped && sps[j].pageOff == p;
      assert sps'[j] == sps[j];
    }
    if sp.mapped {
      assert sps'[i].mapped;
    }
  }

  /** The cache agrees with its source: every held page, readable or hidden,
      is the concatenated fill output at its offsets, zeros past the end. */
  lemma HeldPagesAreSource(l: Layout, src: seq<byte>, up: set<nat>, status: seq<Status>, t: Table, p: nat)
    requires TableOk(l, src, up, status, t) && |src| == l.Total() && p in t && t[p] != Empty
    ensures |t[p].bytes| == l.ps
    ensures forall i :: 0 <= i < l.ps ==>
              t[p].bytes[i] == if p + i < l.Total() then src[p + i] else 0
  {
    hide Layout.Shared, Layout.Owner, Layout.Mapped, Aligned;
    var page := SourcePage(src, p, l.ps);
    assert t[p] == Expected(l, src, up, status, p);
    assert t[p].bytes == page;
    forall i | 0 <= i < l.ps
      ensures page[i] == if p + i < l.Total() then src[p + i] else 0
    {
      assert page[i] == SourceByte(src, p + i);
    }
  }

  function AllAbsent(n: nat): (s: seq<Status>) {
    seq(n, _ => Absent)
  }

  lemma ReservedTableOk(l: Layout, src: seq<byte>)
    requires l.Valid()
    ensures TableOk(l, src, {}, AllAbsent(l.N()), VmReserve(l.Mapped(), l.ps))
  {
  }

  /** A page is in the exclusive range of `c` iff it is unshared and `c` owns it. */
  lemma ExclusiveRange(l: Layout, c: nat, p: nat)
    requires l.Valid() && c < l.N() && p < l.Mapped() && Aligned(p, l.ps)
    ensures l.ExLo(c) <= p < l.ExHi(c) <==> !l.Shared(p) && l.Owner(p) == c
  {
    PageBelowTotal(l, p);
    if l.Exclusive(c, p) {
      ExclusiveCovers(l, c, p);
      OwnerUnique(l, p, c);
    } else if !l.Shared(p) {
      UnsharedIsExclusive(l, p);
    }
  }

  /** Pages the operation may not touch keep their expected contents. */
  lemma ExpectedElsewhere(l: Layout, src: seq<byte>, up: set<nat>, status: seq<Status>, c: nat, s: Status, p: nat)
    requires l.Valid() && |status| == l.N() && c < l.N()
    requires l.Shared(p) || l.Owner(p) != c
    ensures Expected(l, src, up, status, p) == Expected(l, src, up, status[c := s], p)
  {
  }

  /** Taking read access from a chunk's exclusive pages, or handing it back. */
  lemma SetReadableOk(l: Layout, src: seq<byte>, up: set<nat>, status: seq<Status>, t: Table, c: nat, readable: bool)
    requires TableOk(l, src, up, status, t) && c < l.N() && status[c] != Absent
    ensures TableOk(l, src, up, status[c := if readable then Hot else Cold],
                    VmSetReadable(t, l.ps, l.ExLo(c), l.ExHi(c), readable))
  {
    var s := if readable then Hot else Cold;
    var t' := VmSetReadable(t, l.ps, l.ExLo(c), l.ExHi(c), readable);
    forall p: nat | p in t'
      ensures t'[p] == Expected(l, src, up, status[c := s], p)
    {
      hide Layout.Mapped, Aligned, Layout.ExLo, Layout.ExHi, SourcePage;
      ExclusiveRange(l, c, p);
      if l.Shared(p) || l.Owner(p) != c {
        ExpectedElsewhere(l, src, up, status, c, s, p);
      } else {
        ExpectedHere(l, src, up, status, c, s, p);
      }
    }
  }

  /** A chunk that is held keeps its pages when it is hidden or shown. */
  lemma ExpectedHere(l: Layout, src: seq<byte>, up: set<nat>, status: seq<Status>, c: nat, s: Status, p: nat)
    requires l.Valid() && |status| == l.N() && c < l.N() && status[c] != Absent && s != Absent
    requires !l.Shared(p) && l.Owner(p) == c
    ensures Expected(l, src, up, status[c := s], p) == WithAccess(Expected(l, src, up, status, p), l.ps, s == Hot)
  {
  }

  /** Evicting a chunk empties exactly its exclusive pages. */
  lemma DecommitOk(l: Layout, src: seq<byte>, up: set<nat>, status: seq<Status>, t: Table, c: nat)
    requires TableOk(l, src, up, status, t) && c < l.N()
    ensures TableOk(l, src, up, status[c := Absent], VmDecommit(t, l.ExLo(c), l.ExHi(c)))
  {
    var t' := VmDecommit(t, l.ExLo(c), l.ExHi(c));
    forall p: nat | p in t'
      ensures t'[p] == Expected(l, src, up, status[c := Absent], p)
    {
      ExclusiveRange(l, c, p);
      if l.Shared(p) || l.Owner(p) != c {
        ExpectedElsewhere(l, src, up, status, c, Absent, p);
      }
    }
  }

  /** First page a fill of `c` touches. */
  function SpanLo(l: Layout, c: nat): nat
    requires l.Valid() && c < l.N()
  {
    PageFloor(l.starts[c], l.ps)
  }

  function SpanHi(l: Layout, c: nat): nat
    requires l.Valid() && c < l.N()
    ensures SpanLo(l, c) < SpanHi(l, c)
  {
    PageCeil(l.starts[c + 1], l.ps)
  }

  /** Scratch contents after `fill_chunk(c)`: the output in its place, zeros
      around it. */
  ghost predicate ScratchHolds(l: Layout, outputs: seq<seq<byte>>, c: nat, bytes: seq<byte>)
    requires FillsExactly(l, outputs) && c < l.N()
  {
    var off := l.starts[c] - SpanLo(l, c);
    && |bytes| == SpanHi(l, c) - SpanLo(l, c)
    && forall i :: 0 <= i < |bytes| ==>
         bytes[i] == if off <= i < off + |outputs[c]| then outputs[c][i - off] else 0
  }

  /** Where the scratch covers the chunk, or padding only it owns, it agrees
      with the source. */
  lemma ScratchIsSource(l: Layout, outputs: seq<seq<byte>>, c: nat, bytes: seq<byte>, x: nat)
    requires FillsExactly(l, outputs) && c < l.N() && ScratchHolds(l, outputs, c, bytes)
    requires l.starts[c] <= x < SpanHi(l, c) && (c + 1 < l.N() ==> x < l.starts[c + 1])
    ensures bytes[x - SpanLo(l, c)] == SourceByte(Concat(outputs), x)
  {
    ConcatAt(l, outputs);
    if x < l.starts[c + 1] {
      assert outputs[c][x - l.starts[c]] == Concat(outputs)[l.starts[c] + (x - l.starts[c])];
    }
  }

  lemma ExclusiveInSpan(l: Layout, c: nat)
    requires l.Valid() && c < l.N() && l.ExLo(c) < l.ExHi(c)
    ensures SpanLo(l, c) <= l.ExLo(c) && l.ExHi(c) <= SpanHi(l, c)
  {
  }

  /** An exclusive page cut from the filled scratch is the source page. */
  lemma ScratchPage(l: Layout, outputs: seq<seq<byte>>, c: nat, bytes: seq<byte>, p: nat, off: nat)
    requires FillsExactly(l, outputs) && c < l.N() && ScratchHolds(l, outputs, c, bytes)
    requires l.Exclusive(c, p) && off + SpanLo(l, c) == p
    ensures PageSlice(bytes, off, l.ps) == SourcePage(Concat(outputs), p, l.ps)
  {
    ExclusiveCovers(l, c, p);
    ExclusiveInSpan(l, c);
    AlignedGap(p, l.ExHi(c), l.ps);
    assert |bytes| == SpanHi(l, c) - SpanLo(l, c);
    hide ScratchHolds, FillsExactly, Aligned, PageFloor, PageCeil, Concat, SpanLo, SpanHi, Layout.ExLo, Layout.ExHi;
    var cut, want := PageSlice(bytes, off, l.ps), SourcePage(Concat(outputs), p, l.ps);
    forall i | 0 <= i < l.ps
      ensures cut[i] == want[i]
    {
      ScratchIsSource(l, outputs, c, bytes, p + i);
    }
  }

  /** Bringing up exactly the exclusive pages of `c` makes the chunk hot. */
  lemma BroughtUp(l: Layout, src: seq<byte>, up: set<nat>, status: seq<Status>, t: Table, c: nat, t': Table)
    requires TableOk(l, src, up, status, t) && c < l.N() && t'.Keys == t.Keys
    requires forall p :: p in t ==>
               t'[p] == if l.ExLo(c) <= p < l.ExHi(c) then Readable(SourcePage(src, p, l.ps)) else t[p]
    ensures TableOk(l, src, up, status[c := Hot], t')
  {
    forall p: nat | p in t'
      ensures t'[p] == Expected(l, src, up, status[c := Hot], p)
    {
      ExclusiveRange(l, c, p);
      if l.Shared(p) || l.Owner(p) != c {
        ExpectedElsewhere(l, src, up, status, c, Hot, p);
      }
    }
  }

  /** `piece` is the part of a filled scratch that covers the chunk's own pages. */
  ghost predicate IsMiddle(l: Layout, c: nat, bytes: seq<byte>, piece: seq<byte>)
    requires l.Valid() && c < l.N()
  {
    && SpanLo(l, c) <= l.ExLo(c) && l.ExHi(c) - SpanLo(l, c) <= |bytes|
    && piece == bytes[l.ExLo(c) - SpanLo(l, c)..l.ExHi(c) - SpanLo(l, c)]
  }

  lemma PublishedPage(l: Layout, outputs: seq<seq<byte>>, t: Table, c: nat, bytes: seq<byte>, piece: seq<byte>, p: nat)
    requires FillsExactly(l, outputs) && c < l.N() && ScratchHolds(l, outputs, c, bytes)
    requires p in t && l.Exclusive(c, p) && IsMiddle(l, c, bytes, piece)
    ensures VmPublish(t, l.ps, piece, l.ExLo(c))[p] == Readable(SourcePage(Concat(outputs), p, l.ps))
  {
    hide ScratchHolds, SourcePage, Concat, PageSlice, PageFloor, PageCeil;
    ScratchPage(l, outputs, c, bytes, p, p - SpanLo(l, c));
    AlignedGap(p, l.ExHi(c), l.ps);
    SliceOfSlice(bytes, l.ExLo(c) - SpanLo(l, c), l.ExHi(c) - SpanLo(l, c), p - l.ExLo(c), l.ps);
  }

  lemma SliceOfSlice(bytes: seq<byte>, lo: nat, hi: nat, off: nat, ps: nat)
    requires lo <= hi <= |bytes| && lo + off + ps <= hi
    ensures PageSlice(bytes[lo..hi], off, ps) == PageSlice(bytes, lo + off, ps)
  {
    var a, b := PageSlice(bytes[lo..hi], off, ps), PageSlice(bytes, lo + off, ps);
    assert |a| == |b| == ps;
    forall i | 0 <= i < ps
      ensures a[i] == b[i]
    {
      assert a[i] == bytes[lo..hi][off + i] == bytes[lo + off + i] == b[i];
    }
    assert a == b;
  }

  /** Publishing the middle of the scratch brings the chunk's own pages up. */
  lemma PublishOk(l: Layout, outputs: seq<seq<byte>>, up: set<nat>, status: seq<Status>, t: Table, c: nat,
                  bytes: seq<byte>, piece: seq<byte>)
    requires FillsExactly(l, outputs) && c < l.N() && ScratchHolds(l, outputs, c, bytes)
    requires TableOk(l, Concat(outputs), up, status, t)
    requires l.ExLo(c) < l.ExHi(c) && IsMiddle(l, c, bytes, piece)
    ensures TableOk(l, Concat(outputs), up, status[c := Hot], VmPublish(t, l.ps, piece, l.ExLo(c)))
  {
    var t' := VmPublish(t, l.ps, piece, l.ExLo(c));
    forall p: nat | p in t && l.ExLo(c) <= p < l.ExHi(c)
      ensures t'[p] == Readable(SourcePage(Concat(outputs), p, l.ps))
    {
      PublishedPage(l, outputs, t, c, bytes, piece, p);
    }
    BroughtUp(l, Concat(outputs), up, status, t, c, t');
  }

  /** A chunk with no pages of its own changes no page when its status does. */
  lemma NoExclusivePages(l: Layout, src: seq<byte>, up: set<nat>, status: seq<Status>, t: Table, c: nat, s: Status)
    requires TableOk(l, src, up, status, t) && c < l.N() && l.ExLo(c) == l.ExHi(c)
    ensures TableOk(l, src, up, status[c := s], t)
  {
    forall p: nat | p in t
      ensures t[p] == Expected(l, src, up, status[c := s], p)
    {
      hide Layout.Mapped, Aligned, Layout.ExLo, Layout.ExHi, SourcePage;
      ExclusiveRange(l, c, p);
      ExpectedElsewhere(l, src, up, status, c, s, p);
    }
  }

  /** Publishing a complete staging page brings exactly that page up. */
  lemma InstallOk(l: Layout, src: seq<byte>, up: set<nat>, status: seq<Status>, t: Table, p: nat, bytes: seq<byte>)
    requires TableOk(l, src, up, status, t)
    requires l.Shared(p) && p in t && bytes == SourcePage(src, p, l.ps)
    ensures TableOk(l, src, up + {p}, status, VmPublish(t, l.ps, bytes, p))
  {
    var t' := VmPublish(t, l.ps, bytes, p);
    forall q: nat | q in t'
      ensures t'[q] == Expected(l, src, up + {p}, status, q)
    {
      InstalledPage(l, t, p, q, bytes);
      ExpectedInstalled(l, src, up, status, p, q);
    }
  }

  lemma InstalledPage(l: Layout, t: Table, p: nat, q: nat, bytes: seq<byte>)
    requires p in t && q in t && Aligned(p, l.ps) && Aligned(q, l.ps) && |bytes| == l.ps
    ensures VmPublish(t, l.ps, bytes, p)[q] == if q == p then Readable(bytes) else t[q]
  {
    if p < q {
      AlignedGap(p, q, l.ps);
    }
    assert bytes[0..l.ps] == bytes;
  }

  lemma ExpectedInstalled(l: Layout, src: seq<byte>, up: set<nat>, status: seq<Status>, p: nat, q: nat)
    requires l.Valid() && |status| == l.N() && l.Shared(p)
    ensures Expected(l, src, up + {p}, status, q)
         == if q == p then Readable(SourcePage(src, p, l.ps)) else Expected(l, src, up, status, q)
  {
  }

  // --------------------------------------------------------------- footprint

  /** Bytes of the resident chunks among the first `k`. */
  function ResidentBytes(l: Layout, resident: seq<bool>, k: nat): (n: nat)
    requires l.Valid() && |resident| == l.N() && k <= l.N()
  {
    if k == 0 then 0
    else ResidentBytes(l, resident, k - 1) + if resident[k - 1] then l.Size(k - 1) else 0
  }

  lemma {:induction false} ResidentBytesSet(l: Layout, resident: seq<bool>, k: nat, c: nat)
    requires l.Valid() && |resident| == l.N() && k <= l.N() && c < l.N()
    ensures ResidentBytes(l, resident[c := true], k)
         == ResidentBytes(l, resident[c := false], k) + if c < k then l.Size(c) else 0
    ensures CountStaged(resident[c := true], 0, k)
         == CountStaged(resident[c := false], 0, k) + if c < k then 1 else 0
  {
    if k > 0 {
      ResidentBytesSet(l, resident, k - 1, c);
    }
  }

  /** Bookkeeping and page table agree on which chunks are resident. */
  ghost predicate Agree(resident: seq<bool>, status: seq<Status>) {
    |resident| == |status| && forall c :: 0 <= c < |status| ==> (resident[c] <==> status[c] != Absent)
  }

  ghost function HeldPages(t: Table): set<nat> {
    set p | p in t && t[p] != Empty
  }

  ghost function PageRange(lo: nat, hi: nat, ps: PageSize): set<nat> {
    set p: nat | lo <= p < hi && Aligned(p, ps)
  }

  lemma PageRangeLast(lo: nat, hi: nat, ps: PageSize)
    requires Aligned(lo, ps) && Aligned(hi, ps) && lo < hi
    ensures lo <= hi - ps && Aligned(hi - ps, ps)
    ensures PageRange(lo, hi, ps) == PageRange(lo, hi - ps, ps) + {hi - ps}
  {
    AlignedGap(lo, hi, ps);
    forall p | p in PageRange(lo, hi, ps)
      ensures p in PageRange(lo, hi - ps, ps) + {hi - ps}
    {
      AlignedGap(p, hi, ps);
    }
  }

  lemma OneMorePage(pages: set<nat>, p: nat, ps: PageSize)
    requires p !in pages
    ensures |pages + {p}| * ps == |pages| * ps + ps
  {
    assert |pages + {p}| == |pages| + 1;
  }

  lemma {:induction false} PageRangeSize(lo: nat, hi: nat, ps: PageSize)
    requires Aligned(lo, ps) && Aligned(hi, ps) && lo <= hi
    ensures |PageRange(lo, hi, ps)| * ps == hi - lo
    decreases hi
  {
    if lo < hi {
      PageRangeLast(lo, hi, ps);
      PageRangeSize(lo, hi - ps, ps);
      OneMorePage(PageRange(lo, hi - ps, ps), hi - ps, ps);
    } else {
      assert PageRange(lo, hi, ps) == {};
    }
  }

  /** Pages owned by the resident chunks among the first `k`. */
  ghost function OwnedPages(l: Layout, resident: seq<bool>, k: nat): set<nat>
    requires l.Valid() && |resident| == l.N() && k <= l.N()
  {
    if k == 0 then {}
    else OwnedPages(l, resident, k - 1)
         + if resident[k - 1] then PageRange(l.ExLo(k - 1), l.ExHi(k - 1), l.ps) else {}
  }

  lemma ExclusiveSize(l: Layout, c: nat)
    requires l.Valid() && c < l.N()
    ensures l.ExHi(c) - l.ExLo(c) <= l.Size(c) + if c + 1 == l.N() then l.ps else 0
  {
  }

  function Area(pages: set<nat>, ps: nat): nat {
    |pages| * ps
  }

  lemma UnionSize(a: set<nat>, b: set<nat>, ps: nat, x: nat, y: nat)
    requires Area(a, ps) <= x && Area(b, ps) <= y
    ensures Area(a + b, ps) <= x + y
  {
    assert |a + b| + |a * b| == |a| + |b|;
    assert |a + b| * ps + |a * b| * ps == |a| * ps + |b| * ps;
  }

  lemma {:induction false} OwnedPagesSize(l: Layout, resident: seq<bool>, k: nat)
    requires l.Valid() && |resident| == l.N() && k <= l.N()
    ensures Area(OwnedPages(l, resident, k), l.ps) <= ResidentBytes(l, resident, k) + if k == l.N() then l.ps else 0
    decreases k
  {
    hide PageRange, Layout.ExLo, Layout.ExHi, PageCeil, PageFloor, Aligned, Area;
    if k == 0 {
      NoArea(l.ps);
    } else {
      OwnedPagesSize(l, resident, k - 1);
      var pages := OwnedPages(l, resident, k - 1);
      var pad := if k == l.N() then l.ps else 0;
      if resident[k - 1] {
        var own := PageRange(l.ExLo(k - 1), l.ExHi(k - 1), l.ps);
        ExclusivePagesSize(l, k - 1);
        UnionSize(pages, own, l.ps, ResidentBytes(l, resident, k - 1), l.Size(k - 1) + pad);
        assert OwnedPages(l, resident, k) == pages + own;
      } else {
        assert OwnedPages(l, resident, k) == pages + {} == pages;
      }
    }
  }

  lemma NoArea(ps: nat)
    ensures Area({}, ps) == 0
  {
  }

  lemma ExclusivePagesSize(l: Layout, c: nat)
    requires l.Valid() && c < l.N()
    ensures Area(PageRange(l.ExLo(c), l.ExHi(c), l.ps), l.ps) <= l.Size(c) + if c + 1 == l.N() then l.ps else 0
  {
    PageRangeSize(l.ExLo(c), l.ExHi(c), l.ps);
    ExclusiveSize(l, c);
  }

  lemma {:induction false} OwnedPagesMember(l: Layout, resident: seq<bool>, k: nat, c: nat, p: nat)
    requires l.Valid() && |resident| == l.N() && c < k <= l.N()
    requires resident[c] && l.Exclusive(c, p)
    ensures p in OwnedPages(l, resident, k)
    decreases k
  {
    if c < k - 1 {
      OwnedPagesMember(l, resident, k - 1, c, p);
    }
  }

  lemma {:induction false} OffsetsSize(sps: seq<SharedPage>)
    ensures |Offsets(sps)| <= |sps|
  {
    if sps != [] {
      var rest := sps[..|sps| - 1];
      OffsetsSize(rest);
      assert Offsets(sps) == Offsets(rest) + {sps[|sps| - 1].pageOff};
    }
  }

  /** Offsets of the live staging pages. */
  ghost function StagingPages(sps: seq<SharedPage>): set<nat> {
    set i | 0 <= i < |sps| && sps[i].staging.addr.Some? :: sps[i].pageOff
  }

  ghost function Offsets(sps: seq<SharedPage>): set<nat> {
    set i | 0 <= i < |sps| :: sps[i].pageOff
  }

  /** A held page belongs to a resident chunk or is a published shared page. */
  lemma HeldPageOwner(l: Layout, src: seq<byte>, sps: seq<SharedPage>, status: seq<Status>, resident: seq<bool>,
                      t: Table, p: nat)
    requires TableOk(l, src, Up(sps), status, t) && Agree(resident, status) && p in HeldPages(t)
    ensures p in OwnedPages(l, resident, l.N()) + Up(sps)
    ensures l.Shared(p) ==> p in Up(sps)
  {
    if !l.Shared(p) {
      PageBelowTotal(l, p);
      UnsharedIsExclusive(l, p);
      OwnedPagesMember(l, resident, l.N(), l.Owner(p), p);
    }
  }

  lemma HeldOrStaging(l: Layout, src: seq<byte>, flags: seq<bool>, sps: seq<SharedPage>,
                      status: seq<Status>, resident: seq<bool>, t: Table)
    requires TableOk(l, src, Up(sps), status, t) && Agree(resident, status)
    requires SharedPagesOk(l, src, flags, sps)
    ensures HeldPages(t) !! StagingPages(sps)
    ensures HeldPages(t) + StagingPages(sps) <= OwnedPages(l, resident, l.N()) + Offsets(sps)
  {
    forall p | p in HeldPages(t)
      ensures p in OwnedPages(l, resident, l.N()) + Offsets(sps) && p !in StagingPages(sps)
    {
      HeldPageOwner(l, src, sps, status, resident, t, p);
    }
  }

  /** Footprint: published pages plus staging pages are at most the resident
      bytes, plus one page per shared page and one for the final padding. */
  lemma FootprintBound(l: Layout, src: seq<byte>, flags: seq<bool>, sps: seq<SharedPage>,
                       status: seq<Status>, resident: seq<bool>, t: Table)
    requires TableOk(l, src, Up(sps), status, t) && Agree(resident, status)
    requires SharedPagesOk(l, src, flags, sps)
    ensures HeldPages(t) !! StagingPages(sps)
    ensures |HeldPages(t) + StagingPages(sps)| * l.ps
            <= ResidentBytes(l, resident, l.N()) + l.ps * (|sps| + 1)
  {
    hide SharedPagesOk, HeldPages, StagingPages, Offsets, OwnedPages, ResidentBytes, Expected, Up;
    HeldOrStaging(l, src, flags, sps, status, resident, t);
    OwnedPagesSize(l, resident, l.N());
    OffsetsSize(sps);
    CoverSize(HeldPages(t) + StagingPages(sps), OwnedPages(l, resident, l.N()), Offsets(sps), l.ps,
              ResidentBytes(l, resident, l.N()), |sps|);
  }

  lemma CoverSize(held: set<nat>, owned: set<nat>, offs: set<nat>, ps: nat, bytes: nat, n: nat)
    requires held <= owned + offs && |owned| * ps <= bytes + ps && |offs| <= n
    ensures |held| * ps <= bytes + ps * (n + 1)
  {
    MulMonotone(|offs|, n, ps);
    UnionSize(owned, offs, ps, bytes + ps, n * ps);
    SubsetSize(held, owned + offs, ps);
    assert ps * (n + 1) == n * ps + ps;
  }

  lemma MulMonotone(a: nat, b: nat, k: nat)
    requires a <= b
    ensures a * k <= b * k
  {
  }

  lemma SubsetSize(a: set<nat>, b: set<nat>, ps: nat)
    requires a <= b
    ensures |a| * ps <= |b| * ps
  {
    assert b == a + (b - a);
    MulMonotone(|a|, |b|, ps);
  }
}
