/** Chunk layouts: the geometry that `src/inproc.c` computes once per region,
    and the two binary searches every fault depends on. */
module Layouts {
  import opened Basics
  import opened Pages

  /** A chunk list laid over pages: `starts` holds the prefix sums, one more
      than there are chunks. */
  datatype Layout = Layout(ps: PageSize, starts: seq<nat>) {

    ghost predicate Valid() {
      && |starts| >= 2
      && starts[0] == 0
      && forall i, j :: 0 <= i < j < |starts| ==> starts[i] < starts[j]
    }

    function N(): (n: nat)
      requires |starts| >= 2
    {
      |starts| - 1
    }

    function Total(): (n: nat)
      requires |starts| >= 2
    {
      starts[|starts| - 1]
    }

    function Mapped(): (n: nat)
      requires |starts| >= 2
    {
      PageCeil(Total(), ps)
    }

    function Size(c: nat): (n: nat)
      requires Valid() && c < N()
      ensures n > 0
    {
      starts[c + 1] - starts[c]
    }

    /** The chunk covering byte `x`; the last chunk also answers for the
        padding after it. */
    function Owner(x: nat): (o: nat)
      requires Valid()
      ensures o < N() && starts[o] <= x && (o + 1 < N() ==> x < starts[o + 1])
    {
      OwnerBelow(x, N() - 1)
    }

    function OwnerBelow(x: nat, k: nat): (o: nat)
      requires Valid() && k < N()
      requires k + 1 < N() ==> x < starts[k + 1]
      ensures o <= k && starts[o] <= x && (o + 1 < N() ==> x < starts[o + 1])
    {
      if k == 0 || starts[k] <= x then k else OwnerBelow(x, k - 1)
    }

    /** Some chunk boundary falls strictly inside the page at `p`, so no
        single chunk owns it. */
    predicate Shared(p: nat)
      requires Valid()
    {
      exists i :: 1 <= i < N() && p < starts[i] < p + ps
    }

    /** Last byte of the page at `p` that belongs to the region. */
    function LastByte(p: nat): (x: nat)
      requires Valid() && p < Total()
      ensures p <= x < Total() && x < p + ps
      ensures x == p + ps - 1 || x == Total() - 1
    {
      if p + ps - 1 >= Total() then Total() - 1 else p + ps - 1
    }

    /** Chunk `c` has bytes in the page at `p`. */
    predicate Overlaps(c: nat, p: nat)
      requires Valid() && c < N()
    {
      starts[c] < p + ps && p < starts[c + 1]
    }

    function ExLo(c: nat): (x: nat)
      requires Valid() && c < N()
      ensures Aligned(x, ps) && starts[c] <= x < starts[c] + ps
    {
      PageCeil(starts[c], ps)
    }

    function ExHi(c: nat): (x: nat)
      requires Valid() && c < N()
      ensures Aligned(x, ps) && ExLo(c) <= x
    {
      var hi := if c + 1 == N() then Mapped() else PageFloor(starts[c + 1], ps);
      if hi < ExLo(c) then ExLo(c) else hi
    }

    /** The page at `p` is wholly owned by chunk `c`. */
    predicate Exclusive(c: nat, p: nat)
      requires Valid() && c < N()
    {
      Aligned(p, ps) && ExLo(c) <= p < ExHi(c)
    }

    /** `c` begins inside a page that an earlier chunk also uses. */
    predicate HasHead(c: nat)
      requires Valid() && c < N()
    {
      !Aligned(starts[c], ps)
    }

    function HeadPage(c: nat): (p: nat)
      requires Valid() && c < N()
      ensures Aligned(p, ps) && p <= starts[c] < p + ps
    {
      PageFloor(starts[c], ps)
    }

    /** `c` ends inside a page that a later chunk also uses. */
    predicate HasTail(c: nat)
      requires Valid() && c < N()
    {
      c + 1 < N() && !Aligned(starts[c + 1], ps)
    }

    function TailPage(c: nat): (p: nat)
      requires Valid() && c < N()
      ensures Aligned(p, ps) && p <= starts[c + 1] < p + ps
    {
      PageFloor(starts[c + 1], ps)
    }
  }

  lemma OwnerUnique(l: Layout, x: nat, c: nat)
    requires l.Valid() && c < l.N()
    requires l.starts[c] <= x && (c + 1 < l.N() ==> x < l.starts[c + 1])
    ensures l.Owner(x) == c
  {
  }

  lemma OwnerInside(l: Layout, x: nat)
    requires l.Valid() && x < l.Total()
    ensures x < l.starts[l.Owner(x) + 1]
  {
  }

  /** Page partition: every page below `Mapped()` is either shared, or in the
      exclusive range of exactly one chunk, the one `find_chunk` returns. */
  lemma PagePartition(l: Layout, p: nat)
    requires l.Valid() && Aligned(p, l.ps) && p < l.Mapped()
    ensures p < l.Total()
    ensures l.Shared(p) ==> forall c :: 0 <= c < l.N() ==> !l.Exclusive(c, p)
    ensures !l.Shared(p) ==> l.Exclusive(l.Owner(p), p)
    ensures forall c :: 0 <= c < l.N() && l.Exclusive(c, p) ==> c == l.Owner(p)
  {
    PageBelowTotal(l, p);
    forall c | 0 <= c < l.N() && l.Exclusive(c, p)
      ensures c == l.Owner(p) && !l.Shared(p)
    {
      ExclusiveCovers(l, c, p);
      OwnerUnique(l, p, c);
    }
    if !l.Shared(p) {
      UnsharedIsExclusive(l, p);
    }
  }

  /** Every mapped page holds at least one byte of the region. */
  lemma PageBelowTotal(l: Layout, p: nat)
    requires l.Valid() && Aligned(p, l.ps) && p < l.Mapped()
    ensures p < l.Total()
  {
    AlignedGap(p, l.Mapped(), l.ps);
  }

  /** An exclusive page lies inside its chunk, up to the region's padding. */
  lemma ExclusiveCovers(l: Layout, c: nat, p: nat)
    requires l.Valid() && c < l.N() && l.Exclusive(c, p)
    ensures l.starts[c] <= p < l.starts[c + 1]
    ensures c + 1 < l.N() ==> p + l.ps <= l.starts[c + 1]
    ensures p < l.Mapped() && p + l.ps <= l.Mapped()
    ensures !l.Shared(p)
  {
    if c + 1 == l.N() {
      AlignedGap(p, l.Mapped(), l.ps);
    } else {
      AlignedGap(p, l.ExHi(c), l.ps);
      assert l.starts[c + 1] <= l.Total();
      AlignedGap(p, l.Mapped(), l.ps);
    }
  }

  lemma UnsharedIsExclusive(l: Layout, p: nat)
    requires l.Valid() && Aligned(p, l.ps) && p < l.Total() && !l.Shared(p)
    ensures l.Exclusive(l.Owner(p), p)
  {
    var c := l.Owner(p);
    var s := l.starts[c];
    assert l.ExLo(c) <= p by {
      if p < l.ExLo(c) {
        AlignedGap(p, l.ExLo(c), l.ps);
      }
    }
    if c + 1 < l.N() {
      var e := l.starts[c + 1];
      assert !(p < e < p + l.ps);
    }
  }

  /** Contributors of a shared page: the chunks with bytes in it are exactly
      the range `[Owner(p), Owner(LastByte(p))]`. */
  lemma Contributors(l: Layout, p: nat, c: nat)
    requires l.Valid() && p < l.Total() && c < l.N()
    ensures l.Overlaps(c, p) <==> l.Owner(p) <= c <= l.Owner(l.LastByte(p))
  {
    var a, b := l.Owner(p), l.Owner(l.LastByte(p));
    if c < a { assert l.starts[c + 1] <= l.starts[a]; }
    if a < c { assert l.starts[a + 1] <= l.starts[c]; }
    if c < b { assert l.starts[c + 1] <= l.starts[b]; }
    if b < c {
      assert l.starts[b + 1] <= l.starts[c];
      assert l.starts[c] < l.Total();
    }
  }

  /** A chunk contributes to a shared page exactly when that page is its head
      page or its tail page. This is why filling a chunk stages at most twice. */
  lemma ContributorIsHeadOrTail(l: Layout, p: nat, c: nat)
    requires l.Valid() && Aligned(p, l.ps) && c < l.N()
    ensures (l.Shared(p) && l.Overlaps(c, p))
            <==> (l.HasHead(c) && p == l.HeadPage(c)) || (l.HasTail(c) && p == l.TailPage(c))
  {
    var s, e := l.starts[c], l.starts[c + 1];
    if l.Shared(p) && l.Overlaps(c, p) {
      var i :| 1 <= i < l.N() && p < l.starts[i] < p + l.ps;
      if p < s {
        FloorUnique(s, p, l.ps);
        if Aligned(s, l.ps) { AlignedGap(p, s, l.ps); }
      } else {
        assert e <= l.starts[i];
        FloorUnique(e, p, l.ps);
        if Aligned(e, l.ps) { AlignedGap(p, e, l.ps); }
      }
    }
    if l.HasHead(c) && p == l.HeadPage(c) {
      assert c != 0 by { if c == 0 { assert Aligned(0, l.ps); } }
      assert s != p;
    }
    if l.HasTail(c) && p == l.TailPage(c) {
      assert e != p;
    }
  }

  lemma SharedBelowTotal(l: Layout, p: nat)
    requires l.Valid() && l.Shared(p)
    ensures p < l.Total()
  {
    var i :| 1 <= i < l.N() && p < l.starts[i] < p + l.ps;
    assert l.starts[i] < l.Total();
  }

  /** `find_chunk`: binary search for the chunk covering byte `x`. */
  method FindChunk(l: Layout, x: nat) returns (c: nat)
    requires l.Valid()
    ensures c == l.Owner(x)
  {
    var lo, hi := 0, l.N() - 1;
    while lo < hi
      invariant 0 <= lo <= l.Owner(x) <= hi < l.N()
    {
      var mid := lo + (hi - lo + 1) / 2;
      if l.starts[mid] <= x {
        lo := mid;
      } else {
        hi := mid - 1;
      }
    }
    return lo;
  }

  const SIZE_LIMIT: nat := 0x1_0000_0000_0000_0000
  const UINT32_LIMIT: nat := 0x1_0000_0000

  function PrefixSum(sizes: seq<nat>, k: nat): (s: nat)
    requires k <= |sizes|
  {
    if k == 0 then 0 else PrefixSum(sizes, k - 1) + sizes[k - 1]
  }

  /** The sizes `fc_region_create` refuses with EINVAL: an empty chunk, or a
      running total that does not fit in a `size_t`. */
  ghost predicate Rejected(sizes: seq<nat>) {
    exists i :: 0 <= i < |sizes| && (sizes[i] == 0 || PrefixSum(sizes, i + 1) >= SIZE_LIMIT)
  }

  ghost predicate IsLayoutOf(l: Layout, ps: PageSize, sizes: seq<nat>) {
    && l.Valid()
    && l.ps == ps
    && l.N() == |sizes|
    && forall i :: 0 <= i <= |sizes| ==> l.starts[i] == PrefixSum(sizes, i)
  }

  /** The layout of accepted sizes, as a value. */
  function LayoutOf(ps: PageSize, sizes: seq<nat>): Layout {
    Layout(ps, seq(|sizes| + 1, i requires 0 <= i <= |sizes| => PrefixSum(sizes, i)))
  }

  lemma LayoutIsUnique(l: Layout, ps: PageSize, sizes: seq<nat>)
    requires IsLayoutOf(l, ps, sizes)
    ensures l == LayoutOf(ps, sizes)
  {
    assert l.starts == LayoutOf(ps, sizes).starts;
  }

  lemma {:induction false} PrefixSumStrict(sizes: seq<nat>, j: nat, k: nat)
    requires j < k <= |sizes|
    requires forall i :: 0 <= i < |sizes| ==> sizes[i] > 0
    ensures PrefixSum(sizes, j) < PrefixSum(sizes, k)
    decreases k
  {
    if j + 1 < k {
      PrefixSumStrict(sizes, j, k - 1);
    }
  }

  /** The layout check of region creation, on `size_t` arithmetic that wraps:
      sizes pass exactly when none is zero and the true sum never wrapped. */
  method CheckSizes(sizes: seq<nat>) returns (ok: bool)
    requires forall i :: 0 <= i < |sizes| ==> sizes[i] < SIZE_LIMIT
    ensures ok <==> !Rejected(sizes)
  {
    var total := 0;
    for i := 0 to |sizes|
      invariant total == PrefixSum(sizes, i) < SIZE_LIMIT
      invariant forall k :: 0 <= k < i ==> sizes[k] > 0 && PrefixSum(sizes, k + 1) < SIZE_LIMIT
    {
      assert PrefixSum(sizes, i + 1) == total + sizes[i];
      var sum := total + sizes[i];
      var wrapped := if sum >= SIZE_LIMIT then sum - SIZE_LIMIT else sum;
      if sizes[i] == 0 || wrapped < total {
        return false;
      }
      total := wrapped;
    }
    return true;
  }

  /** `chunk_start`: the running totals, one more entry than there are sizes. */
  method PrefixSums(sizes: seq<nat>) returns (starts: seq<nat>)
    ensures |starts| == |sizes| + 1
    ensures forall i :: 0 <= i <= |sizes| ==> starts[i] == PrefixSum(sizes, i)
  {
    starts := [];
    var acc := 0;
    for i := 0 to |sizes|
      invariant |starts| == i && acc == PrefixSum(sizes, i)
      invariant forall k :: 0 <= k < i ==> starts[k] == PrefixSum(sizes, k)
    {
      starts := starts + [acc];
      acc := acc + sizes[i];
    }
    starts := starts + [acc];
  }

  lemma AcceptedIsLayout(ps: PageSize, sizes: seq<nat>, starts: seq<nat>)
    requires 0 < |sizes| && !Rejected(sizes)
    requires |starts| == |sizes| + 1
    requires forall i :: 0 <= i <= |sizes| ==> starts[i] == PrefixSum(sizes, i)
    ensures IsLayoutOf(Layout(ps, starts), ps, sizes)
  {
    forall j, k | 0 <= j < k < |starts|
      ensures starts[j] < starts[k]
    {
      PrefixSumStrict(sizes, j, k);
    }
  }

  /** Prefix sums of accepted sizes form a layout. */
  method CreateLayout(ps: PageSize, sizes: seq<nat>) returns (r: Option<Layout>)
    requires 0 < |sizes| && |sizes| + 1 < UINT32_LIMIT
    requires forall i :: 0 <= i < |sizes| ==> sizes[i] < SIZE_LIMIT
    ensures r.None? <==> Rejected(sizes)
    ensures r.Some? ==> IsLayoutOf(r.value, ps, sizes)
  {
    var ok := CheckSizes(sizes);
    if !ok {
      return None;
    }
    var starts := PrefixSums(sizes);
    AcceptedIsLayout(ps, sizes, starts);
    r := Some(Layout(ps, starts));
  }

  function AllFalse(n: nat): (s: seq<bool>) {
    seq(n, _ => false)
  }

  function Zeros(n: nat): (s: seq<nat>) {
    seq(n, _ => 0)
  }
}
