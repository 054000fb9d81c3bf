/** What a pool does, said simply: a recency-ordered list of chunks, a cut
    between its readable and hidden part, and the set of chunks that have
    handed in their slices of shared pages. `Pool` refines this. */
module CacheModel {
  import opened Layouts
  import opened LruQueues

  datatype RegionM = RegionM(
    l: Layout,
    staged: seq<bool>,
    faults: seq<nat>,
    events: nat,
    resolved: nat,
    handled: nat)

  /** `stamp` and `clock` record when each chunk was last filled or promoted. */
  datatype Cache = Cache(
    target: nat,
    queue: seq<Key>,
    hot: nat,
    regions: map<nat, RegionM>,
    clock: nat,
    stamp: map<Key, nat>)

  predicate Contributes(l: Layout, c: nat)
    requires l.Valid() && c < l.N()
  {
    l.HasHead(c) || l.HasTail(c)
  }

  // ------------------------------------------------------------------- sizes

  ghost predicate RegionOk(r: RegionM) {
    && r.l.Valid() && |r.staged| == r.l.N() && |r.faults| == r.l.N()
    && r.events == Sum(r.faults)
  }

  ghost predicate RegionsOk(s: Cache) {
    forall rid :: rid in s.regions ==> RegionOk(s.regions[rid])
  }

  ghost predicate Live(s: Cache, k: Key) {
    k.rid in s.regions && k.chunk < |s.regions[k.rid].staged|
  }

  function Sum(xs: seq<nat>): nat {
    if xs == [] then 0 else Sum(xs[..|xs| - 1]) + xs[|xs| - 1]
  }

  function SizeOf(regions: map<nat, RegionM>, k: Key): nat {
    if k.rid in regions && k.chunk + 1 < |regions[k.rid].l.starts|
       && regions[k.rid].l.starts[k.chunk] <= regions[k.rid].l.starts[k.chunk + 1]
    then regions[k.rid].l.starts[k.chunk + 1] - regions[k.rid].l.starts[k.chunk]
    else 0
  }

  function Bytes(regions: map<nat, RegionM>, ks: seq<Key>): nat {
    if ks == [] then 0 else SizeOf(regions, ks[0]) + Bytes(regions, ks[1..])
  }

  function Resident(s: Cache): nat { Bytes(s.regions, s.queue) }

  function HotBytes(s: Cache): nat
    requires s.hot <= |s.queue|
  {
    Bytes(s.regions, s.queue[..s.hot])
  }

  // --------------------------------------------------------------- invariant

  /** Queued chunks exist, appear once, and have staged what they share. */
  ghost predicate QueueOk(s: Cache) {
    && s.hot <= |s.queue|
    && Distinct(s.queue)
    && (forall k :: k in s.queue ==> Live(s, k) && Staged(s, k))
  }

  ghost predicate Staged(s: Cache, k: Key)
    requires Live(s, k)
  {
    var r := s.regions[k.rid];
    r.l.Valid() && k.chunk < r.l.N() && (Contributes(r.l, k.chunk) ==> r.staged[k.chunk])
  }

  /** The queue is strictly ordered by most recent fill or promotion. */
  ghost predicate RecencyOrder(s: Cache) {
    && (forall k :: k in s.queue ==> k in s.stamp && s.stamp[k] < s.clock)
    && (forall i, j :: 0 <= i < j < |s.queue| && s.queue[i] in s.stamp && s.queue[j] in s.stamp
          ==> s.stamp[s.queue[i]] > s.stamp[s.queue[j]])
  }

  ghost predicate Inv(s: Cache) {
    RegionsOk(s) && QueueOk(s) && RecencyOrder(s)
  }

  // -------------------------------------------------------------- operations

  function IndexOf(q: seq<Key>, k: Key): (i: nat)
    requires k in q
    ensures i < |q| && q[i] == k
  {
    if q[0] == k then 0 else 1 + IndexOf(q[1..], k)
  }

  function Remove(s: Cache, i: nat): Cache
    requires i < |s.queue| && s.hot <= |s.queue|
  {
    s.(queue := Without(s.queue, i), hot := if i < s.hot then s.hot - 1 else s.hot)
  }

  function Push(s: Cache, k: Key): Cache {
    s.(queue := [k] + s.queue, hot := s.hot + 1, stamp := s.stamp[k := s.clock], clock := s.clock + 1)
  }

  function Counted(r: RegionM, c: nat): RegionM
    requires c < |r.faults|
  {
    r.(faults := r.faults[c := r.faults[c] + 1], events := r.events + 1)
  }

  function FilledRegion(r: RegionM, c: nat): RegionM
    requires r.l.Valid() && c < r.l.N() && |r.staged| == |r.faults| == r.l.N()
  {
    var r1 := if Contributes(r.l, c) then r.(staged := r.staged[c := true]) else r;
    Counted(r1, c).(resolved := r.resolved + 1)
  }

  function Fill(s: Cache, k: Key): Cache
    requires RegionsOk(s) && Live(s, k)
  {
    Push(s.(regions := s.regions[k.rid := FilledRegion(s.regions[k.rid], k.chunk)]), k)
  }

  function Promote(s: Cache, k: Key): Cache
    requires RegionsOk(s) && Live(s, k) && k in s.queue && s.hot <= |s.queue|
  {
    var s1 := Remove(s, IndexOf(s.queue, k));
    Push(s1.(regions := s1.regions[k.rid := Counted(s1.regions[k.rid], k.chunk)]), k)
  }

  predicate Protected(k: Key, rid: nat, lo: nat, hi: nat) {
    k.rid == rid && lo <= k.chunk <= hi
  }

  function Evict(s: Cache, rid: nat, lo: nat, hi: nat): (s': Cache)
    requires s.hot <= |s.queue|
    ensures s'.hot <= |s'.queue|
    decreases |s.queue|
  {
    if s.target == 0 || Resident(s) <= s.target || s.queue == [] then s
    else if Protected(s.queue[|s.queue| - 1], rid, lo, hi) then s
    else Evict(Remove(s, |s.queue| - 1), rid, lo, hi)
  }

  function Rebalance(s: Cache): (s': Cache)
    requires s.hot <= |s.queue|
    ensures s'.hot <= |s'.queue|
    decreases s.hot
  {
    if s.target == 0 then s
    else if HotBytes(s) > Resident(s) / 2 && s.hot != 1 && s.hot > 0 then Rebalance(s.(hot := s.hot - 1))
    else s
  }

  function FillIfMissing(s: Cache, k: Key): (s': Cache)
    requires RegionsOk(s) && Live(s, k) && s.hot <= |s.queue|
    ensures RegionsOk(s') && s'.hot <= |s'.queue| && s'.target == s.target
    ensures k.rid in s'.regions && s'.regions[k.rid].l == s.regions[k.rid].l
  {
    FillKeepsRegions(s, k);
    if k in s.queue then s else Fill(s, k)
  }

  /** Fills the chunks of `[c, hi]` that are not resident, in order. */
  function FillMissing(s: Cache, rid: nat, c: nat, hi: nat): (s': Cache)
    requires RegionsOk(s) && rid in s.regions && hi < s.regions[rid].l.N()
    requires s.hot <= |s.queue|
    ensures s'.hot <= |s'.queue|
    decreases hi + 1 - c
  {
    if c > hi then s else FillMissing(FillIfMissing(s, Key(rid, c)), rid, c + 1, hi)
  }

  /** What a fault does before eviction and rebalancing. */
  function BringIn(s: Cache, rid: nat, page: nat): (s': Cache)
    requires RegionsOk(s) && rid in s.regions && page < s.regions[rid].l.Total() && s.hot <= |s.queue|
    ensures s'.hot <= |s'.queue|
  {
    var l := s.regions[rid].l;
    if l.Shared(page) then FillMissing(s, rid, FirstOf(l, page), LastOf(l, page))
    else
      var k := Key(rid, l.Owner(page));
      if k in s.queue then Promote(s, k) else Fill(s, k)
  }

  /** Chunks a fault on `page` protects from eviction. */
  function FirstOf(l: Layout, page: nat): nat
    requires l.Valid()
  {
    l.Owner(page)
  }

  function LastOf(l: Layout, page: nat): (c: nat)
    requires l.Valid() && page < l.Total()
    ensures c < l.N()
  {
    if l.Shared(page) then l.Owner(l.LastByte(page)) else l.Owner(page)
  }

  function Handled(s: Cache, rid: nat): Cache {
    if rid in s.regions then s.(regions := s.regions[rid := s.regions[rid].(handled := s.regions[rid].handled + 1)])
    else s
  }

  /** `resolve_fault_locked` */
  function Resolve(s: Cache, rid: nat, page: nat): Cache
    requires RegionsOk(s) && rid in s.regions && page < s.regions[rid].l.Total() && s.hot <= |s.queue|
  {
    var l := s.regions[rid].l;
    Handled(Rebalance(Evict(BringIn(s, rid, page), rid, FirstOf(l, page), LastOf(l, page))), rid)
  }

  /** `page_readable` */
  ghost predicate PageReadable(s: Cache, rid: nat, page: nat)
    requires RegionsOk(s) && rid in s.regions && s.hot <= |s.queue|
  {
    var r := s.regions[rid];
    if r.l.Shared(page) then forall c :: 0 <= c < r.l.N() && r.l.Overlaps(c, page) ==> r.staged[c]
    else Key(rid, r.l.Owner(page)) in s.queue[..s.hot]
  }

  function FreshRegion(l: Layout): RegionM
    requires |l.starts| > 0
  {
    RegionM(l, AllFalse(|l.starts| - 1), Zeros(|l.starts| - 1), 0, 0, 0)
  }

  function Create(s: Cache, rid: nat, l: Layout): Cache
    requires |l.starts| > 0
  {
    s.(regions := s.regions[rid := FreshRegion(l)])
  }

  /** The queue without the first `n` chunks of region `rid`. */
  function Drop(q: seq<Key>, rid: nat, n: nat): (r: seq<Key>)
    ensures |r| <= |q|
  {
    if q == [] then []
    else if q[0].rid == rid && q[0].chunk < n then Drop(q[1..], rid, n)
    else [q[0]] + Drop(q[1..], rid, n)
  }

  function Forget(s: Cache, rid: nat, n: nat): (s': Cache)
    requires s.hot <= |s.queue|
  {
    s.(queue := Drop(s.queue, rid, n), hot := |Drop(s.queue[..s.hot], rid, n)|)
  }

  /** `fc_region_destroy` */
  function Destroy(s: Cache, rid: nat): Cache
    requires rid in s.regions && s.hot <= |s.queue|
  {
    var s1 := Forget(s, rid, |s.regions[rid].staged|);
    s1.(regions := s1.regions - {rid})
  }

  // ------------------------------------------------------- byte arithmetic

  lemma {:induction false} BytesSplit(rs: map<nat, RegionM>, a: seq<Key>, b: seq<Key>)
    ensures Bytes(rs, a + b) == Bytes(rs, a) + Bytes(rs, b)
  {
    if a == [] {
      assert a + b == b;
    } else {
      BytesSplit(rs, a[1..], b);
      assert (a + b)[1..] == a[1..] + b;
    }
  }

  lemma BytesMonotone(rs: map<nat, RegionM>, q: seq<Key>, i: nat, j: nat)
    requires i <= j <= |q|
    ensures Bytes(rs, q[..i]) <= Bytes(rs, q[..j])
  {
    assert q[..j] == q[..i] + q[i..j];
    BytesSplit(rs, q[..i], q[i..j]);
  }

  lemma {:induction false} BytesSame(rs: map<nat, RegionM>, rs': map<nat, RegionM>, q: seq<Key>)
    requires forall k :: k in q ==> SizeOf(rs, k) == SizeOf(rs', k)
    ensures Bytes(rs, q) == Bytes(rs', q)
  {
    if q != [] {
      BytesSame(rs, rs', q[1..]);
    }
  }

  lemma {:induction false} SumSet(xs: seq<nat>, i: nat, v: nat)
    requires i < |xs|
    ensures Sum(xs[i := v]) + xs[i] == Sum(xs) + v
    decreases |xs|
  {
    var n := |xs| - 1;
    if i < n {
      SumSet(xs[..n], i, v);
      assert xs[i := v][..n] == xs[..n][i := v];
    } else {
      assert xs[i := v][..n] == xs[..n];
    }
  }

  lemma FillKeepsRegions(s: Cache, k: Key)
    requires RegionsOk(s) && Live(s, k)
    ensures RegionsOk(Fill(s, k))
    ensures RegionOk(Counted(s.regions[k.rid], k.chunk))
  {
    var r := s.regions[k.rid];
    SumSet(r.faults, k.chunk, r.faults[k.chunk] + 1);
  }
}
