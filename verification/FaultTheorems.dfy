/** What one fault guarantees, and what sequences of faults add up to. */
module FaultTheorems {
  import opened Pages
  import opened Layouts
  import opened LruQueues
  import opened CacheModel
  import SharedPages
  import opened CacheTheorems

  function Min(a: nat, b: nat): nat { if a < b then a else b }

  // --------------------------------------------------- eviction and midpoint

  ghost predicate EvictsTo(s: Cache, rid: nat, lo: nat, hi: nat, n: nat) {
    && n <= |s.queue|
    && (Bytes(s.regions, s.queue[..n]) <= s.target || (n > 0 && Protected(s.queue[n - 1], rid, lo, hi)))
    && forall m :: n < m <= |s.queue| ==>
         Bytes(s.regions, s.queue[..m]) > s.target && !Protected(s.queue[m - 1], rid, lo, hi)
  }

  /** Eviction drops the shortest suffix of the queue that brings the pool to
      its target, or less if a protected chunk is in the way. */
  lemma {:induction false} EvictShape(s: Cache, rid: nat, lo: nat, hi: nat) returns (n: nat)
    requires s.hot <= |s.queue| && s.target > 0
    ensures EvictsTo(s, rid, lo, hi, n)
    ensures Evict(s, rid, lo, hi) == s.(queue := s.queue[..n], hot := Min(s.hot, n))
    decreases |s.queue|
  {
    n := |s.queue|;
    assert s.queue[..n] == s.queue;
    if Resident(s) <= s.target || s.queue == [] {
    } else if Protected(s.queue[n - 1], rid, lo, hi) {
    } else {
      var s1 := Remove(s, n - 1);
      assert s1.queue == s.queue[..n - 1];
      n := EvictShape(s1, rid, lo, hi);
      EvictsFurther(s, s1, rid, lo, hi, n);
    }
  }

  lemma EvictsFurther(s: Cache, s1: Cache, rid: nat, lo: nat, hi: nat, n: nat)
    requires s.queue != [] && s1.queue == s.queue[..|s.queue| - 1]
    requires s1.regions == s.regions && s1.target == s.target
    requires Bytes(s.regions, s.queue) > s.target && !Protected(s.queue[|s.queue| - 1], rid, lo, hi)
    requires EvictsTo(s1, rid, lo, hi, n)
    ensures EvictsTo(s, rid, lo, hi, n) && s1.queue[..n] == s.queue[..n]
  {
    assert s.queue[..|s.queue|] == s.queue;
    forall m | n < m <= |s.queue|
      ensures Bytes(s.regions, s.queue[..m]) > s.target && !Protected(s.queue[m - 1], rid, lo, hi)
    {
      assert m < |s.queue| ==> s1.queue[..m] == s.queue[..m] && s1.queue[m - 1] == s.queue[m - 1];
    }
    assert s1.queue[..n] == s.queue[..n];
  }

  ghost predicate BalancesTo(s: Cache, h: nat)
    requires s.hot <= |s.queue|
  {
    && h <= s.hot && (s.hot > 0 ==> h > 0)
    && (Bytes(s.regions, s.queue[..h]) <= Resident(s) / 2 || h == 1)
    && forall m :: h < m <= s.hot ==> Bytes(s.regions, s.queue[..m]) > Resident(s) / 2
  }

  /** Rebalancing keeps the longest readable prefix that fits in half the
      resident bytes, and never less than the most recent chunk. */
  lemma {:induction false} RebalanceShape(s: Cache) returns (h: nat)
    requires s.hot <= |s.queue| && s.target > 0
    ensures BalancesTo(s, h) && Rebalance(s) == s.(hot := h)
    decreases s.hot
  {
    if HotBytes(s) > Resident(s) / 2 && s.hot != 1 && s.hot > 0 {
      h := RebalanceShape(s.(hot := s.hot - 1));
    } else {
      h := s.hot;
    }
  }

  /** Everything after `BringIn`, in one shape: cut the queue, then the hot half. */
  lemma SettleShape(s: Cache, rid: nat, lo: nat, hi: nat) returns (n: nat, h: nat)
    requires s.hot <= |s.queue| && s.target > 0
    ensures EvictsTo(s, rid, lo, hi, n)
    ensures BalancesTo(s.(queue := s.queue[..n], hot := Min(s.hot, n)), h)
    ensures Rebalance(Evict(s, rid, lo, hi)) == s.(queue := s.queue[..n], hot := h)
  {
    n := EvictShape(s, rid, lo, hi);
    h := RebalanceShape(Evict(s, rid, lo, hi));
  }

  lemma {:induction false} SettleUnbounded(s: Cache, rid: nat, lo: nat, hi: nat)
    requires s.hot <= |s.queue| && s.target == 0
    ensures Rebalance(Evict(s, rid, lo, hi)) == s
  {
  }

  lemma {:induction false} SettleKeeps(s: Cache, rid: nat, lo: nat, hi: nat)
    requires s.hot <= |s.queue|
    ensures Rebalance(Evict(s, rid, lo, hi)).regions == s.regions
    ensures Rebalance(Evict(s, rid, lo, hi)).target == s.target
  {
    if s.target > 0 {
      var n, h := SettleShape(s, rid, lo, hi);
    }
  }

  lemma HandledBytes(s: Cache, rid: nat, q: seq<Key>)
    ensures Bytes(Handled(s, rid).regions, q) == Bytes(s.regions, q)
  {
    BytesSame(Handled(s, rid).regions, s.regions, q);
  }

  /** Midpoint after a fault in a bounded pool: at most half the resident bytes
      are readable, or only the most recent chunk is. */
  lemma MidpointAfterFault(s: Cache, rid: nat, page: nat)
    requires Inv(s) && s.target > 0 && rid in s.regions && page < s.regions[rid].l.Total()
    ensures Inv(Resolve(s, rid, page))
    ensures HotBytes(Resolve(s, rid, page)) <= Resident(Resolve(s, rid, page)) / 2
            || Resolve(s, rid, page).hot == 1
  {
    ResolveInv(s, rid, page);
    var l := s.regions[rid].l;
    var s1 := BringIn(s, rid, page);
    BringInTarget(s, rid, page);
    var n, h := SettleShape(s1, rid, FirstOf(l, page), LastOf(l, page));
    var s2 := s1.(queue := s1.queue[..n], hot := h);
    HandledBytes(s2, rid, s2.queue);
    HandledBytes(s2, rid, s2.queue[..h]);
  }

  lemma BringInTarget(s: Cache, rid: nat, page: nat)
    requires RegionsOk(s) && rid in s.regions && page < s.regions[rid].l.Total() && s.hot <= |s.queue|
    ensures BringIn(s, rid, page).target == s.target
  {
    var l := s.regions[rid].l;
    if l.Shared(page) {
      FillMissingQueue(s, rid, FirstOf(l, page), LastOf(l, page));
    }
  }

  // --------------------------------------------------------------- readable

  /** An exclusive-page fault puts its chunk at the front, readable, and leaves
      the others behind it in order. */
  lemma BringInExclusive(s: Cache, rid: nat, page: nat)
    requires Inv(s) && rid in s.regions && page < s.regions[rid].l.Total()
    requires !s.regions[rid].l.Shared(page)
    ensures BringIn(s, rid, page).queue != []
    ensures BringIn(s, rid, page).queue[0] == Key(rid, s.regions[rid].l.Owner(page))
    ensures BringIn(s, rid, page).hot > 0
    ensures BringIn(s, rid, page).regions.Keys == s.regions.Keys
    ensures forall r :: r in s.regions ==> BringIn(s, rid, page).regions[r].l == s.regions[r].l
  {
  }

  /** A protected front chunk survives eviction and rebalancing, readable. */
  lemma FrontSurvives(s: Cache, rid: nat, c: nat)
    requires s.hot <= |s.queue| && s.queue != [] && s.queue[0] == Key(rid, c) && s.hot > 0
    ensures var s' := Rebalance(Evict(s, rid, c, c));
            s'.queue != [] && s'.queue[0] == Key(rid, c) && s'.hot > 0
  {
    if s.target > 0 {
      var n, h := SettleShape(s, rid, c, c);
      assert s.queue[..1] == [Key(rid, c)];
      assert n > 0;
    }
  }

  lemma ResolveReadableExclusive(s: Cache, rid: nat, page: nat)
    requires Inv(s) && rid in s.regions && page < s.regions[rid].l.Total()
    requires !s.regions[rid].l.Shared(page)
    ensures var s' := Resolve(s, rid, page);
            && Inv(s') && rid in s'.regions && PageReadable(s', rid, page)
            && s'.regions[rid].l == s.regions[rid].l
            && s'.queue != [] && s'.queue[0] == Key(rid, s.regions[rid].l.Owner(page)) && s'.hot > 0
  {
    var l := s.regions[rid].l;
    ResolveInv(s, rid, page);
    BringInExclusive(s, rid, page);
    var s1 := BringIn(s, rid, page);
    FrontSurvives(s1, rid, l.Owner(page));
    SettleKeeps(s1, rid, FirstOf(l, page), LastOf(l, page));
  }

  /** Filling the contributors of a shared page stages all of them. */
  lemma SharedAllStaged(s: Cache, rid: nat, page: nat)
    requires Inv(s) && rid in s.regions && page < s.regions[rid].l.Total()
    requires Aligned(page, s.regions[rid].l.ps) && s.regions[rid].l.Shared(page)
    ensures var s' := BringIn(s, rid, page);
            rid in s'.regions && s'.regions[rid].l == s.regions[rid].l
            && forall c :: 0 <= c < s.regions[rid].l.N() && s.regions[rid].l.Overlaps(c, page)
                 ==> c < |s'.regions[rid].staged| && s'.regions[rid].staged[c]
  {
    var l := s.regions[rid].l;
    var lo, hi := FirstOf(l, page), LastOf(l, page);
    var s' := BringIn(s, rid, page);
    BringInInv(s, rid, page);
    FillMissingLayout(s, rid, lo, hi);
    forall c | 0 <= c < l.N() && l.Overlaps(c, page)
      ensures c < |s'.regions[rid].staged| && s'.regions[rid].staged[c]
    {
      Contributors(l, page, c);
      ContributorIsHeadOrTail(l, page, c);
      var k := Key(rid, c);
      FillMissingQueue(s, rid, lo, hi);
      MissingMember(s.queue, rid, lo, hi, k);
      assert k in s'.queue;
      assert Staged(s', k);
    }
  }

  lemma {:induction false} FillMissingLayout(s: Cache, rid: nat, c: nat, hi: nat)
    requires RegionsOk(s) && rid in s.regions && hi < s.regions[rid].l.N() && s.hot <= |s.queue|
    ensures var s' := FillMissing(s, rid, c, hi);
            s'.regions.Keys == s.regions.Keys && forall r :: r in s.regions ==> s'.regions[r].l == s.regions[r].l
    decreases hi + 1 - c
  {
    if c <= hi {
      FillMissingLayout(FillIfMissing(s, Key(rid, c)), rid, c + 1, hi);
    }
  }

  lemma BringInLayouts(s: Cache, rid: nat, page: nat)
    requires Inv(s) && rid in s.regions && page < s.regions[rid].l.Total()
    ensures var s' := BringIn(s, rid, page);
            s'.regions.Keys == s.regions.Keys && forall r :: r in s.regions ==> s'.regions[r].l == s.regions[r].l
  {
    var l := s.regions[rid].l;
    if l.Shared(page) {
      FillMissingLayout(s, rid, FirstOf(l, page), LastOf(l, page));
    }
  }

  /** When a fault has been resolved the faulting page is readable: neither
      eviction nor rebalancing can take it back, whichever kind of page it is. */
  lemma ResolveReadable(s: Cache, rid: nat, page: nat)
    requires Inv(s) && rid in s.regions && page < s.regions[rid].l.Total()
    requires Aligned(page, s.regions[rid].l.ps)
    ensures Inv(Resolve(s, rid, page)) && rid in Resolve(s, rid, page).regions
    ensures Resolve(s, rid, page).regions[rid].l == s.regions[rid].l
    ensures PageReadable(Resolve(s, rid, page), rid, page)
  {
    var l := s.regions[rid].l;
    if l.Shared(page) {
      ResolveInv(s, rid, page);
      SharedAllStaged(s, rid, page);
      SettleKeeps(BringIn(s, rid, page), rid, FirstOf(l, page), LastOf(l, page));
    } else {
      ResolveReadableExclusive(s, rid, page);
    }
  }

  // ----------------------------------------------------------------- budget

  /** Exactly when eviction ends over target: the queue up to and including the
      last protected chunk (at `p`) is already too big. */
  lemma OverBudgetExactly(s: Cache, rid: nat, lo: nat, hi: nat, p: nat)
    requires s.hot <= |s.queue| && s.target > 0 && p < |s.queue|
    requires Protected(s.queue[p], rid, lo, hi)
    requires forall i :: p < i < |s.queue| ==> !Protected(s.queue[i], rid, lo, hi)
    ensures Resident(Evict(s, rid, lo, hi)) > s.target <==> Bytes(s.regions, s.queue[..p + 1]) > s.target
    ensures Bytes(s.regions, s.queue[..p + 1]) > s.target ==> Evict(s, rid, lo, hi).queue == s.queue[..p + 1]
  {
    var n := EvictShape(s, rid, lo, hi);
    BytesMonotone(s.regions, s.queue, p + 1, n);
  }

  /** Budget: after a fault on an exclusive page the pool is within its target,
      or holds nothing but the chunk being read. */
  lemma BudgetAfterExclusiveFault(s: Cache, rid: nat, page: nat)
    requires Inv(s) && s.target > 0 && rid in s.regions && page < s.regions[rid].l.Total()
    requires !s.regions[rid].l.Shared(page)
    ensures Resident(Resolve(s, rid, page)) <= s.target
            || Resolve(s, rid, page).queue == [Key(rid, s.regions[rid].l.Owner(page))]
  {
    var c := s.regions[rid].l.Owner(page);
    BringInInv(s, rid, page);
    BringInExclusive(s, rid, page);
    BringInTarget(s, rid, page);
    var s1 := BringIn(s, rid, page);
    OverBudgetExactly(s1, rid, c, c, 0);
    var n, h := SettleShape(s1, rid, c, c);
    var s2 := s1.(queue := s1.queue[..n], hot := h);
    HandledBytes(s2, rid, s2.queue);
    EvictRebalanceQueue(s1, rid, c, c);
  }

  lemma FirstNotAfterLast(l: Layout, page: nat)
    requires l.Valid() && page < l.Total()
    ensures FirstOf(l, page) <= LastOf(l, page)
  {
    SharedPages.OwnerOrder(l, page);
  }

  /** Exactly when a fault on a shared page ends over target. Resident
      contributors are protected but not moved to the front, so what stays is
      the missing contributors and the queue up to the least recent resident
      one (its first `n` chunks), needed or not. */
  lemma BudgetAfterSharedFault(s: Cache, rid: nat, page: nat, n: nat)
    requires Inv(s) && s.target > 0 && rid in s.regions && page < s.regions[rid].l.Total()
    requires s.regions[rid].l.Shared(page)
    requires LastContributor(s.queue, rid, FirstOf(s.regions[rid].l, page), LastOf(s.regions[rid].l, page), n)
    ensures var l, s' := s.regions[rid].l, Resolve(s, rid, page);
            var kept := Missing(s.queue, rid, FirstOf(l, page), LastOf(l, page)) + s.queue[..n];
            && (Resident(s') > s.target <==> Bytes(s.regions, kept) > s.target)
            && (Resident(s') > s.target ==> s'.queue == kept)
  {
    hide QueueOk, RecencyOrder, Evict, Rebalance, FillMissing, Missing, Resident, BringIn, Handled, Protected;
    assert s.hot <= |s.queue| by { QueueBasics(s); }
    var l := s.regions[rid].l;
    var lo, hi := FirstOf(l, page), LastOf(l, page);
    var m := Missing(s.queue, rid, lo, hi);
    var s1 := BringIn(s, rid, page);
    BringInShared(s, rid, page);
    FirstNotAfterLast(l, page);
    LastContributorAfter(s.queue, rid, lo, hi, n);
    OverBudgetExactly(s1, rid, lo, hi, |m| + n - 1);
    assert s1.queue[..|m| + n] == m + s.queue[..n];
    AfterEviction(s1, rid, lo, hi);
    BytesSame(s1.regions, s.regions, m + s.queue[..n]);
  }

  lemma QueueBasics(s: Cache)
    requires Inv(s)
    ensures s.hot <= |s.queue|
  {
  }

  lemma AfterEviction(s: Cache, rid: nat, lo: nat, hi: nat)
    requires s.hot <= |s.queue| && s.target > 0
    ensures var s' := Handled(Rebalance(Evict(s, rid, lo, hi)), rid);
            s'.queue == Evict(s, rid, lo, hi).queue && Resident(s') == Resident(Evict(s, rid, lo, hi))
  {
    var n, h := SettleShape(s, rid, lo, hi);
    n := EvictShape(s, rid, lo, hi);
    EvictRebalanceQueue(s, rid, lo, hi);
    HandledBytes(Rebalance(Evict(s, rid, lo, hi)), rid, s.queue[..n]);
  }

  ghost predicate LastContributor(q: seq<Key>, rid: nat, lo: nat, hi: nat, n: nat) {
    && n <= |q|
    && (n > 0 ==> Protected(q[n - 1], rid, lo, hi))
    && forall i :: n <= i < |q| ==> !Protected(q[i], rid, lo, hi)
  }

  lemma BringInShared(s: Cache, rid: nat, page: nat)
    requires RegionsOk(s) && s.hot <= |s.queue| && rid in s.regions && page < s.regions[rid].l.Total()
    requires s.regions[rid].l.Shared(page)
    ensures var l, s1 := s.regions[rid].l, BringIn(s, rid, page);
            && s1.queue == Missing(s.queue, rid, FirstOf(l, page), LastOf(l, page)) + s.queue
            && s1.target == s.target
            && s1.regions.Keys == s.regions.Keys
            && forall r :: r in s.regions ==> s1.regions[r].l == s.regions[r].l
  {
    hide FillMissing, Missing;
    var l := s.regions[rid].l;
    FillMissingQueue(s, rid, FirstOf(l, page), LastOf(l, page));
    FillMissingLayout(s, rid, FirstOf(l, page), LastOf(l, page));
  }

  /** With the missing contributors in front, the last one protected is where it
      was, or is the last of them. */
  lemma LastContributorAfter(q: seq<Key>, rid: nat, lo: nat, hi: nat, n: nat)
    requires LastContributor(q, rid, lo, hi, n) && lo <= hi
    ensures var m := Missing(q, rid, lo, hi);
            |m| + n > 0 && LastContributor(m + q, rid, lo, hi, |m| + n)
  {
    var m := Missing(q, rid, lo, hi);
    MissingMember(q, rid, lo, hi, Key(rid, lo));
    if n == 0 {
      assert m != [];
      MissingMember(q, rid, lo, hi, m[|m| - 1]);
      assert (m + q)[|m| - 1] == m[|m| - 1];
    } else {
      assert (m + q)[|m| + n - 1] == q[n - 1];
    }
  }

  lemma EvictRebalanceQueue(s: Cache, rid: nat, lo: nat, hi: nat)
    requires s.hot <= |s.queue| && s.target > 0
    ensures Rebalance(Evict(s, rid, lo, hi)).queue == Evict(s, rid, lo, hi).queue
  {
    var n, h := SettleShape(s, rid, lo, hi);
    n := EvictShape(s, rid, lo, hi);
  }

  /** A first fault on an exclusive page that fits the target evicts nothing. */
  lemma ExclusiveFits(s: Cache, rid: nat, page: nat)
    requires Inv(s) && s.target > 0 && rid in s.regions && page < s.regions[rid].l.Total()
    requires !s.regions[rid].l.Shared(page)
    requires var k := Key(rid, s.regions[rid].l.Owner(page));
             k !in s.queue && Bytes(s.regions, [k] + s.queue) <= s.target
    ensures var k, s' := Key(rid, s.regions[rid].l.Owner(page)), Resolve(s, rid, page);
            s'.queue == [k] + s.queue && s'.target == s.target && s'.regions == Handled(Fill(s, k), rid).regions
  {
    hide Evict, RecencyOrder, Rebalance, Staged, Layout.Shared, Layout.Owner;
    var c := s.regions[rid].l.Owner(page);
    var s1 := BringIn(s, rid, page);
    BringInExclusive(s, rid, page);
    BytesSame(s1.regions, s.regions, s1.queue);
    var n := EvictShape(s1, rid, c, c);
    assert s1.queue[..|s1.queue|] == s1.queue;
    assert n == |s1.queue|;
    EvictRebalanceQueue(s1, rid, c, c);
    SettleKeeps(s1, rid, c, c);
    BringInTarget(s, rid, page);
  }

  // -------------------------------------------------------------- laziness

  /** The fault on `page` concerns chunk `c` of region `rid`: it is the owner of
      an exclusive page, or a contributor of a shared one that is not resident. */
  ghost predicate Concerns(s: Cache, rid: nat, page: nat, k: Key)
    requires rid in s.regions && s.regions[rid].l.Valid() && page < s.regions[rid].l.Total()
  {
    var l := s.regions[rid].l;
    && k.rid == rid && FirstOf(l, page) <= k.chunk <= LastOf(l, page)
    && (l.Shared(page) ==> k !in s.queue)
  }

  ghost function FaultsOf(s: Cache, k: Key): nat {
    if k.rid in s.regions && k.chunk < |s.regions[k.rid].faults| then s.regions[k.rid].faults[k.chunk] else 0
  }

  lemma FillIfMissingFaults(s: Cache, j: Key, k: Key)
    requires RegionsOk(s) && Live(s, j) && s.hot <= |s.queue|
    ensures FaultsOf(FillIfMissing(s, j), k) == FaultsOf(s, k) + if k == j && j !in s.queue then 1 else 0
    ensures k in FillIfMissing(s, j).queue <==> k == j || k in s.queue
  {
  }

  lemma {:induction false} FillMissingFaults(s: Cache, rid: nat, c: nat, hi: nat, k: Key)
    requires RegionsOk(s) && rid in s.regions && hi < s.regions[rid].l.N() && s.hot <= |s.queue|
    ensures FaultsOf(FillMissing(s, rid, c, hi), k)
         == FaultsOf(s, k) + if k in Missing(s.queue, rid, c, hi) then 1 else 0
    decreases hi + 1 - c
  {
    hide FaultsOf, FillIfMissing;
    if c <= hi {
      var s1 := FillIfMissing(s, Key(rid, c));
      FillIfMissingFaults(s, Key(rid, c), k);
      FillMissingFaults(s1, rid, c + 1, hi, k);
      MissingMember(s.queue, rid, c, hi, k);
      MissingMember(s1.queue, rid, c + 1, hi, k);
    }
  }

  lemma HandledFaults(s: Cache, rid: nat, k: Key)
    ensures FaultsOf(Handled(s, rid), k) == FaultsOf(s, k)
  {
  }

  /** Laziness: a fault counts once against exactly the chunks it concerns (the
      missing contributors of a shared page, or the one owner of an exclusive
      page), and against no other chunk of any region. */
  lemma FaultTouchesExactly(s: Cache, rid: nat, page: nat, k: Key)
    requires Inv(s) && rid in s.regions && page < s.regions[rid].l.Total()
    ensures FaultsOf(Resolve(s, rid, page), k)
         == FaultsOf(s, k) + if Concerns(s, rid, page, k) then 1 else 0
  {
    hide Evict, Rebalance, FillMissing, Missing, RecencyOrder, Handled, Layout.Valid;
    var l := s.regions[rid].l;
    var lo, hi, s1 := FirstOf(l, page), LastOf(l, page), BringIn(s, rid, page);
    if l.Shared(page) {
      FillMissingFaults(s, rid, lo, hi, k);
      MissingMember(s.queue, rid, lo, hi, k);
    }
    SettleKeeps(s1, rid, lo, hi);
    HandledFaults(Rebalance(Evict(s1, rid, lo, hi)), rid, k);
  }

  // ------------------------------------------------------ staging over runs

  ghost predicate StagedIn(s: Cache, k: Key) {
    Live(s, k) && s.regions[k.rid].staged[k.chunk]
  }

  lemma {:induction false} FillMissingStaged(s: Cache, rid: nat, c: nat, hi: nat, k: Key)
    requires RegionsOk(s) && rid in s.regions && hi < s.regions[rid].l.N() && s.hot <= |s.queue|
    requires StagedIn(s, k)
    ensures StagedIn(FillMissing(s, rid, c, hi), k)
    decreases hi + 1 - c
  {
    if c <= hi {
      FillMissingStaged(FillIfMissing(s, Key(rid, c)), rid, c + 1, hi, k);
    }
  }

  lemma ResolveStaged(s: Cache, rid: nat, page: nat, k: Key)
    requires Inv(s) && rid in s.regions && page < s.regions[rid].l.Total() && StagedIn(s, k)
    ensures StagedIn(Resolve(s, rid, page), k)
  {
    hide Evict, Rebalance, FillMissing, RecencyOrder, Layout.Shared, Layout.Owner;
    var l := s.regions[rid].l;
    if l.Shared(page) {
      FillMissingStaged(s, rid, FirstOf(l, page), LastOf(l, page), k);
    }
    SettleKeeps(BringIn(s, rid, page), rid, FirstOf(l, page), LastOf(l, page));
  }

  /** A slice once handed in stays handed in, through any eviction, for as long
      as its region lives. */
  lemma StagedForLife(s: Cache, op: Op, k: Key)
    requires Inv(s) && StagedIn(s, k) && op != OpDestroy(k.rid)
    ensures StagedIn(Apply(s, op), k)
  {
    match op
    case OpCreate(rid, l) =>
    case OpTouch(rid, off) =>
      if Faults(s, rid, off) {
        FaultPage(s.regions[rid].l, off);
        ResolveStaged(s, rid, PageFloor(off, s.regions[rid].l.ps), k);
      }
    case OpDestroy(rid) =>
  }

  lemma LayoutForLife(s: Cache, op: Op, rid: nat)
    requires Inv(s) && rid in s.regions && op != OpDestroy(rid)
    ensures var s' := Apply(s, op);
            rid in s'.regions && s'.regions[rid].l == s.regions[rid].l
  {
    if op.OpTouch? && Faults(s, op.rid, op.off) {
      var l := s.regions[op.rid].l;
      var page := PageFloor(op.off, l.ps);
      FaultPage(l, op.off);
      BringInLayouts(s, op.rid, page);
      SettleKeeps(BringIn(s, op.rid, page), op.rid, FirstOf(l, page), LastOf(l, page));
    }
  }

  /** A shared page that can be read. */
  ghost predicate SharedUp(s: Cache, rid: nat, l: Layout, page: nat) {
    && rid in s.regions && s.regions[rid].l == l && l.Valid() && l.Shared(page)
    && RegionsOk(s) && s.hot <= |s.queue| && PageReadable(s, rid, page)
  }

  lemma SharedStaysUp(s: Cache, op: Op, rid: nat, l: Layout, page: nat)
    requires Inv(s) && SharedUp(s, rid, l, page) && op != OpDestroy(rid)
    ensures SharedUp(Apply(s, op), rid, l, page)
  {
    hide Apply, RecencyOrder;
    var s' := Apply(s, op);
    ApplyInv(s, op);
    LayoutForLife(s, op, rid);
    forall c: nat | c < l.N() && l.Overlaps(c, page)
      ensures s'.regions[rid].staged[c]
    {
      StagedForLife(s, op, Key(rid, c));
    }
  }

  /** A published shared page is never withdrawn: once it can be read, it can be
      read at the end of every run that does not destroy its region. */
  lemma {:induction false} SharedUpForLife(s: Cache, ops: seq<Op>, rid: nat, l: Layout, page: nat)
    requires Inv(s) && SharedUp(s, rid, l, page) && OpDestroy(rid) !in ops
    ensures Inv(Run(s, ops)) && SharedUp(Run(s, ops), rid, l, page)
    decreases |ops|
  {
    hide Apply, Inv, SharedUp;
    if ops != [] {
      SharedUpForLife(s, ops[..|ops| - 1], rid, l, page);
      var s1 := Run(s, ops[..|ops| - 1]);
      ApplyInv(s1, ops[|ops| - 1]);
      SharedStaysUp(s1, ops[|ops| - 1], rid, l, page);
    }
  }

  // -------------------------------------------------------- unbounded pools

  /** In an unbounded pool: everything queued is readable, a chunk has been
      filled once if it is queued and never otherwise, and every fault handled
      has filled at least one chunk. */
  ghost predicate Unbounded(s: Cache) {
    && s.target == 0 && s.hot == |s.queue|
    && (forall rid :: rid in s.regions ==> s.regions[rid].resolved == s.regions[rid].events)
    && (forall k :: Live(s, k) ==> FaultsOf(s, k) == if k in s.queue then 1 else 0)
  }

  ghost predicate HandledOk(s: Cache) {
    forall rid :: rid in s.regions ==> s.regions[rid].handled <= s.regions[rid].resolved
  }

  lemma FillUnbounded(s: Cache, k: Key)
    requires RegionsOk(s) && Unbounded(s) && Live(s, k) && k !in s.queue
    ensures Unbounded(Fill(s, k))
    ensures Fill(s, k).regions.Keys == s.regions.Keys
    ensures forall rid :: rid in s.regions ==>
              && Fill(s, k).regions[rid].handled == s.regions[rid].handled
              && Fill(s, k).regions[rid].resolved == s.regions[rid].resolved + if rid == k.rid then 1 else 0
  {
  }

  ghost predicate Grows(s: Cache, s': Cache, rid: nat, least: nat) {
    && s'.regions.Keys == s.regions.Keys
    && (forall r :: r in s.regions ==> s'.regions[r].handled == s.regions[r].handled
                                       && s'.regions[r].resolved >= s.regions[r].resolved)
    && (rid in s.regions ==> s'.regions[rid].resolved >= s.regions[rid].resolved + least)
  }

  lemma {:induction false} FillMissingUnbounded(s: Cache, rid: nat, c: nat, hi: nat)
    requires RegionsOk(s) && Unbounded(s) && rid in s.regions && hi < s.regions[rid].l.N()
    ensures Unbounded(FillMissing(s, rid, c, hi))
    ensures Grows(s, FillMissing(s, rid, c, hi), rid, if Missing(s.queue, rid, c, hi) == [] then 0 else 1)
    decreases hi + 1 - c
  {
    if c <= hi {
      var k := Key(rid, c);
      if k !in s.queue {
        FillUnbounded(s, k);
      }
      FillMissingUnbounded(FillIfMissing(s, k), rid, c + 1, hi);
    }
  }

  lemma UnstagedNotQueued(s: Cache, k: Key)
    requires Inv(s) && Live(s, k) && s.regions[k.rid].l.Valid() && k.chunk < s.regions[k.rid].l.N()
    requires Contributes(s.regions[k.rid].l, k.chunk) && !s.regions[k.rid].staged[k.chunk]
    ensures k !in s.queue
  {
  }

  /** A fault always has something to fill: an unreadable shared page has a
      contributor that has not staged, hence is not resident. */
  lemma UnreadableHasMissing(s: Cache, rid: nat, page: nat)
    requires Inv(s) && rid in s.regions && page < s.regions[rid].l.Total()
    requires Aligned(page, s.regions[rid].l.ps) && s.regions[rid].l.Shared(page)
    requires !PageReadable(s, rid, page)
    ensures Missing(s.queue, rid, FirstOf(s.regions[rid].l, page), LastOf(s.regions[rid].l, page)) != []
  {
    var r := s.regions[rid];
    var c :| 0 <= c < r.l.N() && r.l.Overlaps(c, page) && !r.staged[c];
    Contributors(r.l, page, c);
    ContributorIsHeadOrTail(r.l, page, c);
    UnstagedNotQueued(s, Key(rid, c));
    MissingMember(s.queue, rid, FirstOf(r.l, page), LastOf(r.l, page), Key(rid, c));
  }

  lemma BringInUnbounded(s: Cache, rid: nat, page: nat)
    requires Inv(s) && Unbounded(s) && rid in s.regions && page < s.regions[rid].l.Total()
    requires Aligned(page, s.regions[rid].l.ps) && !PageReadable(s, rid, page)
    ensures Unbounded(BringIn(s, rid, page)) && Grows(s, BringIn(s, rid, page), rid, 1)
  {
    var l := s.regions[rid].l;
    if l.Shared(page) {
      UnreadableHasMissing(s, rid, page);
      FillMissingUnbounded(s, rid, FirstOf(l, page), LastOf(l, page));
    } else {
      assert s.queue[..s.hot] == s.queue;
      FillUnbounded(s, Key(rid, l.Owner(page)));
    }
  }

  lemma TouchUnbounded(s: Cache, rid: nat, off: nat)
    requires Inv(s) && Unbounded(s) && HandledOk(s)
    ensures Unbounded(Touch(s, rid, off)) && HandledOk(Touch(s, rid, off))
  {
    if Faults(s, rid, off) {
      var l := s.regions[rid].l;
      var page := PageFloor(off, l.ps);
      FaultPage(l, off);
      BringInUnbounded(s, rid, page);
      var s1 := BringIn(s, rid, page);
      SettleUnbounded(s1, rid, FirstOf(l, page), LastOf(l, page));
      HandledUnbounded(s1, rid);
    }
  }

  lemma HandledUnbounded(s: Cache, rid: nat)
    requires Unbounded(s)
    ensures Unbounded(Handled(s, rid))
  {
    forall k | Live(Handled(s, rid), k)
      ensures FaultsOf(Handled(s, rid), k) == if k in s.queue then 1 else 0
    {
      assert Live(s, k);
      HandledFaults(s, rid, k);
    }
  }

  lemma DestroyUnbounded(s: Cache, rid: nat)
    requires Inv(s) && Unbounded(s) && HandledOk(s) && rid in s.regions
    ensures Unbounded(Destroy(s, rid)) && HandledOk(Destroy(s, rid))
  {
    var n, s' := |s.regions[rid].staged|, Destroy(s, rid);
    assert s.queue[..s.hot] == s.queue;
    forall k | Live(s', k)
      ensures FaultsOf(s', k) == if k in s'.queue then 1 else 0
    {
      assert Live(s, k);
      DropMember(s.queue, rid, n, k);
    }
  }

  lemma CreateUnbounded(s: Cache, rid: nat, l: Layout)
    requires Inv(s) && Unbounded(s) && HandledOk(s) && rid !in s.regions && l.Valid()
    ensures Unbounded(Create(s, rid, l)) && HandledOk(Create(s, rid, l))
  {
    var s' := Create(s, rid, l);
    forall k | Live(s', k)
      ensures FaultsOf(s', k) == if k in s'.queue then 1 else 0
    {
      if k.rid == rid {
        assert k in s.queue ==> Live(s, k);
      } else {
        assert Live(s, k);
      }
    }
  }

  lemma {:induction false} UnboundedRun(ops: seq<Op>)
    ensures Inv(Run(NewCache(0), ops)) && Unbounded(Run(NewCache(0), ops)) && HandledOk(Run(NewCache(0), ops))
    decreases |ops|
  {
    RunInv(0, ops);
    if ops != [] {
      UnboundedRun(ops[..|ops| - 1]);
      var s := Run(NewCache(0), ops[..|ops| - 1]);
      match ops[|ops| - 1]
      case OpCreate(rid, l) => if rid !in s.regions && l.Valid() { CreateUnbounded(s, rid, l); }
      case OpTouch(rid, off) => TouchUnbounded(s, rid, off);
      case OpDestroy(rid) => if rid in s.regions { DestroyUnbounded(s, rid); }
    }
  }

  lemma {:induction false} SumAtMostOnes(xs: seq<nat>)
    requires forall i :: 0 <= i < |xs| ==> xs[i] <= 1
    ensures Sum(xs) <= |xs|
    decreases |xs|
  {
    if xs != [] {
      SumAtMostOnes(xs[..|xs| - 1]);
    }
  }

  /** Fault bound of an unbounded pool, over every run: no chunk is filled
      twice, none is ever hidden, and
      faults_handled <= chunks_resolved <= nchunks. */
  lemma UnboundedFaultBound(ops: seq<Op>, rid: nat)
    requires rid in Run(NewCache(0), ops).regions
    ensures var s := Run(NewCache(0), ops);
            var r := s.regions[rid];
            && s.hot == |s.queue|
            && (forall c :: 0 <= c < |r.faults| ==> r.faults[c] <= 1)
            && r.handled <= r.resolved <= |r.faults|
            && r.l.Valid() && |r.faults| == r.l.N()
  {
    UnboundedRun(ops);
    var s := Run(NewCache(0), ops);
    var r := s.regions[rid];
    forall c | 0 <= c < |r.faults|
      ensures r.faults[c] <= 1
    {
      assert Live(s, Key(rid, c));
      assert FaultsOf(s, Key(rid, c)) == r.faults[c];
    }
    SumAtMostOnes(r.faults);
  }
}
