/** What the counters count. Over every run they are exactly the faults, fills
    and touches since a region was created, not just sums of one another. */
module Counters {
  import opened Basics
  import opened Pages
  import opened Layouts
  import opened LruQueues
  import opened CacheModel
  import opened CacheTheorems
  import opened FaultTheorems

  /** Chunk `c` has bytes in the page and is not resident. */
  ghost predicate Uncached(s: Cache, rid: nat, page: nat, c: nat) {
    && rid in s.regions && s.regions[rid].l.Valid() && c < s.regions[rid].l.N()
    && s.regions[rid].l.Overlaps(c, page) && Key(rid, c) !in s.queue
  }

  ghost function ToFill(s: Cache, rid: nat, page: nat): set<nat>
    requires rid in s.regions && s.regions[rid].l.Valid()
  {
    set c: nat | c < s.regions[rid].l.N() && Uncached(s, rid, page, c)
  }

  ghost predicate Unqueued(q: seq<Key>, rid: nat, c: nat) {
    Key(rid, c) !in q
  }

  ghost function UnqueuedIn(q: seq<Key>, rid: nat, c: nat, hi: nat): set<nat> {
    set k: nat | c <= k <= hi && Unqueued(q, rid, k)
  }

  lemma {:induction false} MissingSize(q: seq<Key>, rid: nat, c: nat, hi: nat)
    ensures |Missing(q, rid, c, hi)| == |UnqueuedIn(q, rid, c, hi)|
    decreases hi + 1 - c
  {
    if c > hi {
      assert UnqueuedIn(q, rid, c, hi) == {};
    } else {
      MissingSize(q, rid, c + 1, hi);
      var rest := UnqueuedIn(q, rid, c + 1, hi);
      if Key(rid, c) in q {
        assert UnqueuedIn(q, rid, c, hi) == rest;
      } else {
        assert UnqueuedIn(q, rid, c, hi) == rest + {c};
      }
    }
  }

  /** On a page of its own only its owner has bytes. */
  lemma OnlyOwnerOverlaps(l: Layout, page: nat, c: nat)
    requires l.Valid() && page < l.Total() && c < l.N() && !l.Shared(page)
    ensures l.Overlaps(c, page) <==> c == l.Owner(page)
  {
    OwnerInside(l, page);
    var o := l.Owner(page);
    if c > o {
      assert l.starts[o + 1] <= l.starts[c];
      assert o + 1 < l.N();
    }
    if c < o {
      assert l.starts[c + 1] <= l.starts[o];
    }
  }

  /** The chunks to fill are the contributors a fault finds missing. */
  lemma ToFillShared(s: Cache, rid: nat, page: nat)
    requires RegionsOk(s) && rid in s.regions && page < s.regions[rid].l.Total() && s.regions[rid].l.Shared(page)
    ensures var l := s.regions[rid].l;
            |ToFill(s, rid, page)| == |Missing(s.queue, rid, FirstOf(l, page), LastOf(l, page))|
  {
    var l := s.regions[rid].l;
    MissingSize(s.queue, rid, FirstOf(l, page), LastOf(l, page));
    forall c: nat | c < l.N()
      ensures Uncached(s, rid, page, c) <==> c in UnqueuedIn(s.queue, rid, FirstOf(l, page), LastOf(l, page))
    {
      Contributors(l, page, c);
      assert Unqueued(s.queue, rid, c) <==> Key(rid, c) !in s.queue;
    }
    assert ToFill(s, rid, page) == UnqueuedIn(s.queue, rid, FirstOf(l, page), LastOf(l, page));
  }

  lemma ToFillOwn(s: Cache, rid: nat, page: nat)
    requires RegionsOk(s) && rid in s.regions && page < s.regions[rid].l.Total() && !s.regions[rid].l.Shared(page)
    ensures |ToFill(s, rid, page)| == if Key(rid, s.regions[rid].l.Owner(page)) in s.queue then 0 else 1
  {
    var l := s.regions[rid].l;
    var o := l.Owner(page);
    forall c: nat | c < l.N()
      ensures Uncached(s, rid, page, c) <==> c == o && Key(rid, o) !in s.queue
    {
      OnlyOwnerOverlaps(l, page, c);
    }
    assert ToFill(s, rid, page) == if Key(rid, o) in s.queue then {} else {o};
  }

  // ------------------------------------------------------------- one fault

  lemma FillIfMissingCounts(s: Cache, k: Key, r: nat)
    requires RegionsOk(s) && Live(s, k) && s.hot <= |s.queue| && r in s.regions
    ensures var s' := FillIfMissing(s, k);
            && r in s'.regions && s'.regions[r].handled == s.regions[r].handled
            && s'.regions[r].resolved == s.regions[r].resolved + (if r == k.rid && k !in s.queue then 1 else 0)
            && s'.queue == (if k in s.queue then s.queue else [k] + s.queue)
  {
  }

  lemma {:induction false} FillMissingCounts(s: Cache, rid: nat, c: nat, hi: nat, r: nat)
    requires RegionsOk(s) && rid in s.regions && hi < s.regions[rid].l.N() && s.hot <= |s.queue| && r in s.regions
    ensures var s' := FillMissing(s, rid, c, hi);
            && r in s'.regions && s'.regions[r].handled == s.regions[r].handled
            && s'.regions[r].resolved
               == s.regions[r].resolved + if r == rid then |Missing(s.queue, rid, c, hi)| else 0
    decreases hi + 1 - c
  {
    if c <= hi {
      FillIfMissingCounts(s, Key(rid, c), r);
      MissingStep(s.queue, rid, c, hi);
      FillMissingCounts(FillIfMissing(s, Key(rid, c)), rid, c + 1, hi, r);
    }
  }

  /** Before it is counted, a fault fills exactly the chunks that have bytes on
      its page and are not resident. */
  lemma BringInCounts(s: Cache, rid: nat, page: nat, r: nat)
    requires Inv(s) && rid in s.regions && page < s.regions[rid].l.Total() && r in s.regions
    ensures var s' := BringIn(s, rid, page);
            && r in s'.regions && s'.regions[r].handled == s.regions[r].handled
            && s'.regions[r].resolved == s.regions[r].resolved + if r == rid then |ToFill(s, rid, page)| else 0
  {
    hide RecencyOrder, FillMissing, Missing, ToFill, Layout.Shared, Layout.Owner;
    var l := s.regions[rid].l;
    if l.Shared(page) {
      FillMissingCounts(s, rid, FirstOf(l, page), LastOf(l, page), r);
      ToFillShared(s, rid, page);
    } else {
      ToFillOwn(s, rid, page);
    }
  }

  /** A fault is counted once, for its own region; it fills the chunks that have
      bytes on its page and are not resident, and nothing else. */
  lemma FaultCounts(s: Cache, rid: nat, page: nat, r: nat)
    requires Inv(s) && rid in s.regions && page < s.regions[rid].l.Total() && r in s.regions
    ensures var s' := Resolve(s, rid, page);
            && r in s'.regions && s'.regions[r].l == s.regions[r].l
            && s'.regions[r].handled == s.regions[r].handled + (if r == rid then 1 else 0)
            && s'.regions[r].resolved == s.regions[r].resolved + (if r == rid then |ToFill(s, rid, page)| else 0)
  {
    hide BringIn, Evict, Rebalance, ToFill, RecencyOrder, Staged;
    var l := s.regions[rid].l;
    BringInCounts(s, rid, page, r);
    BringInLayouts(s, rid, page);
    SettleKeeps(BringIn(s, rid, page), rid, FirstOf(l, page), LastOf(l, page));
  }

  // -------------------------------------------------------------- whole runs

  /** The operation is a read of this region that faults. */
  ghost predicate FaultsIn(s: Cache, op: Op, rid: nat) {
    op.OpTouch? && op.rid == rid && Faults(s, rid, op.off)
  }

  ghost predicate Creates(s: Cache, op: Op, rid: nat) {
    op.OpCreate? && op.rid == rid && rid !in s.regions && op.l.Valid()
  }

  ghost function FillsBy(s: Cache, op: Op, rid: nat): nat {
    if FaultsIn(s, op, rid) && s.regions[rid].l.Valid()
    then |ToFill(s, rid, PageFloor(op.off, s.regions[rid].l.ps))| else 0
  }

  ghost predicate TouchesBy(s: Cache, op: Op, k: Key) {
    && FaultsIn(s, op, k.rid) && s.regions[k.rid].l.Valid()
    && PageFloor(op.off, s.regions[k.rid].l.ps) < s.regions[k.rid].l.Total()
    && Concerns(s, k.rid, PageFloor(op.off, s.regions[k.rid].l.ps), k)
  }

  /** Reads of the region that faulted since it was last created. */
  ghost function FaultsSince(target: nat, ops: seq<Op>, rid: nat): nat {
    if ops == [] then 0
    else
      var before, op := ops[..|ops| - 1], ops[|ops| - 1];
      var s := Run(NewCache(target), before);
      if Creates(s, op, rid) then 0
      else FaultsSince(target, before, rid) + if FaultsIn(s, op, rid) then 1 else 0
  }

  /** Chunks filled by them, refills included. */
  ghost function FillsSince(target: nat, ops: seq<Op>, rid: nat): nat {
    if ops == [] then 0
    else
      var before, op := ops[..|ops| - 1], ops[|ops| - 1];
      var s := Run(NewCache(target), before);
      if Creates(s, op, rid) then 0 else FillsSince(target, before, rid) + FillsBy(s, op, rid)
  }

  /** Those of them that concerned chunk `k`. */
  ghost function TouchesSince(target: nat, ops: seq<Op>, k: Key): nat {
    if ops == [] then 0
    else
      var before, op := ops[..|ops| - 1], ops[|ops| - 1];
      var s := Run(NewCache(target), before);
      if Creates(s, op, k.rid) then 0
      else TouchesSince(target, before, k) + if TouchesBy(s, op, k) then 1 else 0
  }

  lemma NewRegionCounts(s: Cache, op: Op, rid: nat)
    requires Creates(s, op, rid)
    ensures var s' := Apply(s, op);
            rid in s'.regions && s'.regions[rid].handled == 0 && s'.regions[rid].resolved == 0
    ensures forall k: Key :: k.rid == rid ==> FaultsOf(Apply(s, op), k) == 0
  {
  }

  lemma StepCounts(s: Cache, op: Op, rid: nat)
    requires Inv(s) && rid in Apply(s, op).regions && !Creates(s, op, rid)
    ensures rid in s.regions
    ensures var s' := Apply(s, op);
            && s'.regions[rid].handled == s.regions[rid].handled + (if FaultsIn(s, op, rid) then 1 else 0)
            && s'.regions[rid].resolved == s.regions[rid].resolved + FillsBy(s, op, rid)
  {
    hide Resolve, ToFill, RecencyOrder, QueueOk, PageReadable, Drop;
    TouchPart(s, op, rid);
  }

  lemma TouchPart(s: Cache, op: Op, rid: nat)
    requires Inv(s)
    ensures op.OpTouch? && Faults(s, op.rid, op.off) && rid in s.regions ==>
              var s' := Apply(s, op);
              && rid in s'.regions && s'.regions.Keys == s.regions.Keys
              && s'.regions[rid].handled == s.regions[rid].handled + (if FaultsIn(s, op, rid) then 1 else 0)
              && s'.regions[rid].resolved == s.regions[rid].resolved + FillsBy(s, op, rid)
    ensures op.OpTouch? ==> Apply(s, op).regions.Keys == s.regions.Keys
  {
    hide Resolve, ToFill, RecencyOrder, PageReadable;
    if op.OpTouch? && Faults(s, op.rid, op.off) {
      var l := s.regions[op.rid].l;
      var page := PageFloor(op.off, l.ps);
      FaultPage(l, op.off);
      ResolveKeys(s, op.rid, page);
      if rid in s.regions {
        FaultCounts(s, op.rid, page, rid);
      }
    }
  }

  lemma ResolveKeys(s: Cache, rid: nat, page: nat)
    requires Inv(s) && rid in s.regions && page < s.regions[rid].l.Total()
    ensures Resolve(s, rid, page).regions.Keys == s.regions.Keys
  {
    hide BringIn, Evict, Rebalance, RecencyOrder;
    var l := s.regions[rid].l;
    BringInLayouts(s, rid, page);
    SettleKeeps(BringIn(s, rid, page), rid, FirstOf(l, page), LastOf(l, page));
  }

  /** Over every run, bounded or not: `faults_handled` is the number of reads of
      the region that faulted since its creation, and `chunks_resolved` the
      number of chunks those faults filled, refills included. */
  lemma {:induction false} CountersOverRun(target: nat, ops: seq<Op>, rid: nat)
    requires rid in Run(NewCache(target), ops).regions
    ensures Run(NewCache(target), ops).regions[rid].handled == FaultsSince(target, ops, rid)
    ensures Run(NewCache(target), ops).regions[rid].resolved == FillsSince(target, ops, rid)
    decreases |ops|
  {
    hide Apply, FaultsIn, Creates, FillsBy, Inv;
    if ops != [] {
      var before, op := ops[..|ops| - 1], ops[|ops| - 1];
      var s := Run(NewCache(target), before);
      RunInv(target, before);
      if Creates(s, op, rid) {
        NewRegionCounts(s, op, rid);
      } else {
        StepCounts(s, op, rid);
        CountersOverRun(target, before, rid);
      }
    }
  }

  lemma StepTouches(s: Cache, op: Op, k: Key)
    requires Inv(s) && k.rid in Apply(s, op).regions && !Creates(s, op, k.rid)
    ensures k.rid in s.regions
    ensures FaultsOf(Apply(s, op), k) == FaultsOf(s, k) + if TouchesBy(s, op, k) then 1 else 0
  {
    hide Resolve, RecencyOrder, PageReadable, Drop;
    if op.OpTouch? && Faults(s, op.rid, op.off) {
      var l := s.regions[op.rid].l;
      var page := PageFloor(op.off, l.ps);
      FaultPage(l, op.off);
      ResolveKeys(s, op.rid, page);
      FaultTouchesExactly(s, op.rid, page, k);
    }
  }

  /** And a chunk's `chunk_faults_total` is the number of them that concerned it. */
  lemma {:induction false} TouchesOverRun(target: nat, ops: seq<Op>, k: Key)
    requires k.rid in Run(NewCache(target), ops).regions
    ensures FaultsOf(Run(NewCache(target), ops), k) == TouchesSince(target, ops, k)
    decreases |ops|
  {
    hide Apply, FaultsOf, Creates, TouchesBy, Inv;
    if ops != [] {
      var before, op := ops[..|ops| - 1], ops[|ops| - 1];
      var s := Run(NewCache(target), before);
      RunInv(target, before);
      if Creates(s, op, k.rid) {
        NewRegionCounts(s, op, k.rid);
      } else {
        StepTouches(s, op, k);
        TouchesOverRun(target, before, k);
      }
    }
  }

  // ----------------------------------------------------------- destruction

  /** A destroyed region takes its own chunks out of the queue and no other, and
      hides, shows or moves none of the others. */
  lemma DestroyExactly(s: Cache, gone: nat, k: Key)
    requires Inv(s) && gone in s.regions
    ensures var s' := Destroy(s, gone);
            && s'.hot <= |s'.queue| && s'.regions == s.regions - {gone} && s'.target == s.target
            && (k in s'.queue <==> k in s.queue && k.rid != gone)
            && (k in s'.queue[..s'.hot] <==> k in s.queue[..s.hot] && k.rid != gone)
  {
    var n, a, b := |s.regions[gone].staged|, s.queue[..s.hot], s.queue[s.hot..];
    assert s.queue == a + b;
    DropSplit(a, b, gone, n);
    DropMember(s.queue, gone, n, k);
    DropMember(a, gone, n, k);
    assert Destroy(s, gone).queue[..Destroy(s, gone).hot] == Drop(a, gone, n);
    assert k in s.queue ==> Live(s, k);
  }
}
