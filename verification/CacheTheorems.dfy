/** Properties of every reachable cache state. */
module CacheTheorems {
  import opened Pages
  import opened Layouts
  import opened LruQueues
  import opened CacheModel

  // ------------------------------------------- every operation keeps `Inv`

  lemma FillInv(s: Cache, k: Key)
    requires Inv(s) && Live(s, k) && k !in s.queue
    ensures Inv(Fill(s, k))
  {
    var s' := Fill(s, k);
    FillKeepsRegions(s, k);
    forall j | j in s'.queue
      ensures Live(s', j) && Staged(s', j)
    {
      assert j != k ==> Staged(s, j);
    }
  }

  lemma RemoveInv(s: Cache, i: nat)
    requires Inv(s) && i < |s.queue|
    ensures Inv(Remove(s, i))
    ensures s.queue[i] !in Remove(s, i).queue
  {
    WithoutMembers(s.queue, i);
    var s' := Remove(s, i);
    forall k | k in s'.queue
      ensures Live(s', k) && Staged(s', k)
    {
      assert k in s.queue && Staged(s, k);
    }
  }

  lemma PromoteInv(s: Cache, k: Key)
    requires Inv(s) && k in s.queue
    ensures Inv(Promote(s, k))
  {
    var s1 := Remove(s, IndexOf(s.queue, k));
    RemoveInv(s, IndexOf(s.queue, k));
    FillKeepsRegions(s, k);
    var s' := Promote(s, k);
    assert RegionsOk(s');
    forall j | j in s'.queue
      ensures Live(s', j) && Staged(s', j)
    {
      assert j != k ==> Staged(s1, j);
      assert Staged(s, k);
    }
  }

  lemma {:induction false} EvictInv(s: Cache, rid: nat, lo: nat, hi: nat)
    requires Inv(s)
    ensures Inv(Evict(s, rid, lo, hi))
    decreases |s.queue|
  {
    if s.target == 0 || Resident(s) <= s.target || s.queue == [] {
    } else if Protected(s.queue[|s.queue| - 1], rid, lo, hi) {
    } else {
      RemoveInv(s, |s.queue| - 1);
      EvictInv(Remove(s, |s.queue| - 1), rid, lo, hi);
    }
  }

  lemma {:induction false} RebalanceInv(s: Cache)
    requires Inv(s)
    ensures Inv(Rebalance(s))
    decreases s.hot
  {
    if s.target != 0 && HotBytes(s) > Resident(s) / 2 && s.hot != 1 && s.hot > 0 {
      RebalanceInv(s.(hot := s.hot - 1));
    }
  }

  lemma HandledInv(s: Cache, rid: nat)
    requires Inv(s)
    ensures Inv(Handled(s, rid))
  {
    var s' := Handled(s, rid);
    forall k | k in s'.queue
      ensures Live(s', k) && Staged(s', k)
    {
      assert Staged(s, k);
    }
  }

  lemma {:induction false} FillMissingInv(s: Cache, rid: nat, c: nat, hi: nat)
    requires Inv(s) && rid in s.regions && hi < s.regions[rid].l.N()
    ensures Inv(FillMissing(s, rid, c, hi))
    decreases hi + 1 - c
  {
    if c <= hi {
      var k := Key(rid, c);
      if k !in s.queue {
        FillInv(s, k);
      }
      FillMissingInv(FillIfMissing(s, k), rid, c + 1, hi);
    }
  }

  /** Chunks of `[c, hi]` that are not queued, last first. */
  ghost function Missing(q: seq<Key>, rid: nat, c: nat, hi: nat): (m: seq<Key>)
    decreases hi + 1 - c
  {
    if c > hi then []
    else Missing(q, rid, c + 1, hi) + if Key(rid, c) in q then [] else [Key(rid, c)]
  }

  lemma {:induction false} MissingMember(q: seq<Key>, rid: nat, c: nat, hi: nat, k: Key)
    ensures k in Missing(q, rid, c, hi) <==> k.rid == rid && c <= k.chunk <= hi && k !in q
    decreases hi + 1 - c
  {
    if c <= hi {
      MissingMember(q, rid, c + 1, hi, k);
    }
  }

  lemma MissingOne(q: seq<Key>, k: Key, j: Key)
    requires k != j
    ensures k in [j] + q <==> k in q
  {
  }

  lemma {:induction false} MissingBelow(q: seq<Key>, rid: nat, c: nat, hi: nat, b: nat)
    requires b < c
    ensures Missing([Key(rid, b)] + q, rid, c, hi) == Missing(q, rid, c, hi)
    decreases hi + 1 - c
  {
    if c <= hi {
      MissingBelow(q, rid, c + 1, hi, b);
      MissingOne(q, Key(rid, c), Key(rid, b));
    }
  }

  lemma ConcatAssoc(a: seq<Key>, b: seq<Key>, c: seq<Key>)
    ensures a + (b + c) == (a + b) + c
  {
  }

  lemma MissingStep(q: seq<Key>, rid: nat, c: nat, hi: nat)
    requires c <= hi
    ensures Key(rid, c) in q ==> Missing(q, rid, c, hi) == Missing(q, rid, c + 1, hi)
    ensures Key(rid, c) !in q ==>
              var q1 := [Key(rid, c)] + q;
              && Missing(q, rid, c, hi) + q == Missing(q1, rid, c + 1, hi) + q1
              && |Missing(q, rid, c, hi)| == |Missing(q1, rid, c + 1, hi)| + 1
  {
    MissingBelow(q, rid, c + 1, hi, c);
    ConcatAssoc(Missing(q, rid, c + 1, hi), [Key(rid, c)], q);
  }

  /** Laziness: a fault on a shared page fills exactly the contributors that
      are not resident, and puts them in front of the untouched queue. */
  lemma {:induction false} FillMissingQueue(s: Cache, rid: nat, c: nat, hi: nat)
    requires RegionsOk(s) && rid in s.regions && hi < s.regions[rid].l.N() && s.hot <= |s.queue|
    ensures FillMissing(s, rid, c, hi).queue == Missing(s.queue, rid, c, hi) + s.queue
    ensures FillMissing(s, rid, c, hi).hot == s.hot + |Missing(s.queue, rid, c, hi)|
    ensures FillMissing(s, rid, c, hi).target == s.target
    decreases hi + 1 - c
  {
    if c <= hi {
      MissingStep(s.queue, rid, c, hi);
      FillMissingQueue(FillIfMissing(s, Key(rid, c)), rid, c + 1, hi);
    }
  }

  lemma BringInInv(s: Cache, rid: nat, page: nat)
    requires Inv(s) && rid in s.regions && page < s.regions[rid].l.Total()
    ensures Inv(BringIn(s, rid, page))
  {
    var l := s.regions[rid].l;
    if l.Shared(page) {
      FillMissingInv(s, rid, FirstOf(l, page), LastOf(l, page));
    } else {
      var k := Key(rid, l.Owner(page));
      if k in s.queue {
        PromoteInv(s, k);
      } else {
        FillInv(s, k);
      }
    }
  }

  lemma ResolveInv(s: Cache, rid: nat, page: nat)
    requires Inv(s) && rid in s.regions && page < s.regions[rid].l.Total()
    ensures Inv(Resolve(s, rid, page))
  {
    var l := s.regions[rid].l;
    BringInInv(s, rid, page);
    var s1 := BringIn(s, rid, page);
    EvictInv(s1, rid, FirstOf(l, page), LastOf(l, page));
    var s2 := Evict(s1, rid, FirstOf(l, page), LastOf(l, page));
    RebalanceInv(s2);
    HandledInv(Rebalance(s2), rid);
  }

  lemma {:induction false} SumZeros(n: nat)
    ensures Sum(Zeros(n)) == 0
  {
    if n > 0 {
      SumZeros(n - 1);
      assert Zeros(n)[..n - 1] == Zeros(n - 1);
    }
  }

  lemma CreateInv(s: Cache, rid: nat, l: Layout)
    requires Inv(s) && rid !in s.regions && l.Valid()
    ensures Inv(Create(s, rid, l))
  {
    var s' := Create(s, rid, l);
    SumZeros(l.N());
    forall k | k in s'.queue
      ensures Live(s', k) && Staged(s', k)
    {
      assert Staged(s, k);
    }
  }

  lemma {:induction false} DropSplit(a: seq<Key>, b: seq<Key>, rid: nat, n: nat)
    ensures Drop(a + b, rid, n) == Drop(a, rid, n) + Drop(b, rid, n)
  {
    if a == [] {
      assert a + b == b;
    } else {
      DropSplit(a[1..], b, rid, n);
      assert (a + b)[1..] == a[1..] + b && (a + b)[0] == a[0];
      ConcatAssoc([a[0]], Drop(a[1..], rid, n), Drop(b, rid, n));
    }
  }

  lemma {:induction false} DropMember(q: seq<Key>, rid: nat, n: nat, k: Key)
    ensures k in Drop(q, rid, n) <==> k in q && !(k.rid == rid && k.chunk < n)
  {
    if q != [] {
      DropMember(q[1..], rid, n, k);
    }
  }

  /** Dropping chunks keeps the order of the others. */
  lemma {:induction false} DropSorted(q: seq<Key>, stamp: map<Key, nat>, rid: nat, n: nat)
    requires forall k :: k in q ==> k in stamp
    requires forall i, j :: 0 <= i < j < |q| ==> stamp[q[i]] > stamp[q[j]]
    ensures forall k :: k in Drop(q, rid, n) ==> k in stamp
    ensures forall i, j :: 0 <= i < j < |Drop(q, rid, n)|
              ==> stamp[Drop(q, rid, n)[i]] > stamp[Drop(q, rid, n)[j]]
  {
    forall k | k in Drop(q, rid, n)
      ensures k in stamp
    {
      DropMember(q, rid, n, k);
    }
    if q != [] {
      DropSorted(q[1..], stamp, rid, n);
      forall k | k in Drop(q[1..], rid, n)
        ensures stamp[q[0]] > stamp[k]
      {
        DropMember(q[1..], rid, n, k);
        var j :| 0 <= j < |q[1..]| && q[1..][j] == k;
        assert q[j + 1] == k;
      }
    }
  }

  lemma ForgetInv(s: Cache, rid: nat, n: nat)
    requires Inv(s)
    ensures Inv(Forget(s, rid, n))
  {
    hide Drop, CacheModel.RegionOk;
    var s' := Forget(s, rid, n);
    assert s.queue == s.queue[..s.hot] + s.queue[s.hot..];
    DropSplit(s.queue[..s.hot], s.queue[s.hot..], rid, n);
    forall k | k in s'.queue
      ensures k in s.queue && Live(s', k) && Staged(s', k)
    {
      DropMember(s.queue, rid, n, k);
      assert Staged(s, k);
    }
    DropSorted(s.queue, s.stamp, rid, n);
    StrictIsDistinct(s');
  }

  lemma {:induction false} IndexOfConcat(x: seq<Key>, y: seq<Key>, k: Key)
    requires k in x + y
    ensures k in x ==> IndexOf(x + y, k) == IndexOf(x, k)
    ensures k !in x ==> k in y && IndexOf(x + y, k) == |x| + IndexOf(y, k)
  {
    if x == [] {
      assert x + y == y;
    } else if x[0] != k {
      assert (x + y)[1..] == x[1..] + y;
      IndexOfConcat(x[1..], y, k);
    }
  }

  lemma {:induction false} DropNone(q: seq<Key>, rid: nat, c: nat)
    requires Key(rid, c) !in q
    ensures Drop(q, rid, c + 1) == Drop(q, rid, c)
  {
    if q != [] {
      DropNone(q[1..], rid, c);
    }
  }

  /** Dropping one more chunk removes that one element. */
  lemma {:induction false} DropOne(q: seq<Key>, rid: nat, c: nat)
    requires Distinct(q) && Key(rid, c) in q
    ensures Key(rid, c) in Drop(q, rid, c)
    ensures Drop(q, rid, c + 1) == Without(Drop(q, rid, c), IndexOf(Drop(q, rid, c), Key(rid, c)))
  {
    var k, rest := Key(rid, c), Drop(q[1..], rid, c);
    DropMember(q, rid, c, k);
    if q[0] == k {
      DropNone(q[1..], rid, c);
      assert Without([k] + rest, 0) == rest;
    } else {
      DropOne(q[1..], rid, c);
      if !(q[0].rid == rid && q[0].chunk < c) {
        assert ([q[0]] + rest)[1..] == rest;
        WithoutCons(q[0], rest, IndexOf(rest, k));
      }
    }
  }

  lemma WithoutCons(x: Key, rest: seq<Key>, i: nat)
    requires i < |rest|
    ensures Without([x] + rest, i + 1) == [x] + Without(rest, i)
  {
  }

  /** One round of the loop in `fc_region_destroy`. */
  lemma ForgetStep(s: Cache, rid: nat, c: nat)
    requires Inv(s)
    ensures var s0, k := Forget(s, rid, c), Key(rid, c);
            && s0.hot <= |s0.queue|
            && (k in s0.queue <==> k in s.queue)
            && Forget(s, rid, c + 1) == if k in s0.queue then Remove(s0, IndexOf(s0.queue, k)) else s0
  {
    var k, a, b := Key(rid, c), s.queue[..s.hot], s.queue[s.hot..];
    ForgetInv(s, rid, c);
    DropMember(s.queue, rid, c, k);
    assert s.queue == a + b;
    DropSplit(a, b, rid, c);
    if k in s.queue {
      DropOne(s.queue, rid, c);
      IndexOfConcat(Drop(a, rid, c), Drop(b, rid, c), k);
      DropMember(a, rid, c, k);
      if k in a {
        DropOne(a, rid, c);
      } else {
        DropNone(a, rid, c);
      }
    } else {
      DropNone(s.queue, rid, c);
      DropNone(a, rid, c);
    }
  }

  lemma {:induction false} DropZero(q: seq<Key>, rid: nat)
    ensures Drop(q, rid, 0) == q
  {
    if q != [] {
      DropZero(q[1..], rid);
    }
  }

  lemma StrictIsDistinct(s: Cache)
    requires forall k :: k in s.queue ==> k in s.stamp
    requires forall i, j :: 0 <= i < j < |s.queue| ==> s.stamp[s.queue[i]] > s.stamp[s.queue[j]]
    ensures Distinct(s.queue)
  {
    forall i, j | 0 <= i < j < |s.queue|
      ensures s.queue[i] != s.queue[j]
    {
      assert s.stamp[s.queue[i]] > s.stamp[s.queue[j]];
    }
  }

  lemma DestroyInv(s: Cache, rid: nat)
    requires Inv(s) && rid in s.regions
    ensures Inv(Destroy(s, rid))
  {
    var n := |s.regions[rid].staged|;
    ForgetInv(s, rid, n);
    var s1, s' := Forget(s, rid, n), Destroy(s, rid);
    forall k | k in s'.queue
      ensures Live(s', k) && Staged(s', k)
    {
      assert k in s1.queue && Staged(s1, k);
      DropMember(s.queue, rid, n, k);
      assert k.rid == rid ==> k.chunk < n;
    }
  }

  // -------------------------------------------------------------------- runs

  datatype Op = OpCreate(rid: nat, l: Layout) | OpTouch(rid: nat, off: nat) | OpDestroy(rid: nat)

  ghost function NewCache(target: nat): Cache {
    Cache(target, [], 0, map[], 0, map[])
  }

  /** A read of byte `off`: a fault exactly when its page is not readable. */
  ghost predicate Faults(s: Cache, rid: nat, off: nat) {
    && RegionsOk(s) && s.hot <= |s.queue| && rid in s.regions
    && off < s.regions[rid].l.Mapped()
    && !PageReadable(s, rid, PageFloor(off, s.regions[rid].l.ps))
  }

  lemma FaultPage(l: Layout, off: nat)
    requires l.Valid() && off < l.Mapped()
    ensures PageFloor(off, l.ps) < l.Total()
    ensures Aligned(PageFloor(off, l.ps), l.ps)
  {
    PageBelowTotal(l, PageFloor(off, l.ps));
  }

  ghost function Touch(s: Cache, rid: nat, off: nat): Cache {
    if Faults(s, rid, off) then
      FaultPage(s.regions[rid].l, off);
      Resolve(s, rid, PageFloor(off, s.regions[rid].l.ps))
    else s
  }

  ghost function Apply(s: Cache, op: Op): Cache {
    match op
    case OpCreate(rid, l) => if rid !in s.regions && l.Valid() then Create(s, rid, l) else s
    case OpTouch(rid, off) => Touch(s, rid, off)
    case OpDestroy(rid) => if rid in s.regions && s.hot <= |s.queue| then Destroy(s, rid) else s
  }

  ghost function Run(s: Cache, ops: seq<Op>): Cache {
    if ops == [] then s else Apply(Run(s, ops[..|ops| - 1]), ops[|ops| - 1])
  }

  lemma ApplyInv(s: Cache, op: Op)
    requires Inv(s)
    ensures Inv(Apply(s, op))
  {
    match op
    case OpCreate(rid, l) =>
      if rid !in s.regions && l.Valid() { CreateInv(s, rid, l); }
    case OpTouch(rid, off) =>
      if Faults(s, rid, off) {
        FaultPage(s.regions[rid].l, off);
        ResolveInv(s, rid, PageFloor(off, s.regions[rid].l.ps));
      }
    case OpDestroy(rid) =>
      if rid in s.regions { DestroyInv(s, rid); }
  }

  lemma NewCacheInv(target: nat)
    ensures Inv(NewCache(target))
  {
  }

  /** Every run keeps the queue duplicate-free, live, strictly ordered by most
      recent fill or promotion, and the fault counters conserved. */
  lemma {:induction false} RunInv(target: nat, ops: seq<Op>)
    ensures Inv(Run(NewCache(target), ops))
    decreases |ops|
  {
    if ops != [] {
      RunInv(target, ops[..|ops| - 1]);
      ApplyInv(Run(NewCache(target), ops[..|ops| - 1]), ops[|ops| - 1]);
    }
  }
}
