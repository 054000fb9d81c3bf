/** Faults of several threads on several pools: which ones `fault_try_resolve`
    claims, under every interleaving of reads, handlers, creates and destroys. */
module FaultRace {
  import opened Basics
  import opened Pages
  import opened Layouts
  import opened LruQueues
  import opened CacheModel
  import opened CacheTheorems
  import opened FaultTheorems

  /** The registered pools; a region's id is its base address. */
  type Caches = seq<Cache>

  ghost predicate Holds(s: Cache, rid: nat, addr: nat) {
    rid in s.regions && s.regions[rid].l.Valid() && rid <= addr < rid + s.regions[rid].l.Mapped()
  }

  /** Every pool is in a reachable state, and reservations do not overlap. */
  ghost predicate PoolsOk(ps: Caches) {
    && (forall i :: 0 <= i < |ps| ==> Inv(ps[i]))
    && (forall i, rid, j, rid', addr ::
          0 <= i < |ps| && 0 <= j < |ps| && Holds(ps[i], rid, addr) && Holds(ps[j], rid', addr)
          ==> i == j && rid == rid')
  }

  /** `find_region_locked` */
  ghost function FindRegion(s: Cache, addr: nat): (r: Option<nat>)
    ensures r.Some? ==> Holds(s, r.value, addr)
    ensures r.None? ==> forall rid :: !Holds(s, rid, addr)
  {
    if exists rid :: Holds(s, rid, addr) then
      var rid :| Holds(s, rid, addr);
      Some(rid)
    else None
  }

  /** The address can be read without a fault. */
  ghost predicate Readable(ps: Caches, addr: nat) {
    exists i: nat, rid: nat :: ReadableAt(ps, addr, i, rid)
  }

  ghost predicate ReadableAt(ps: Caches, addr: nat, i: nat, rid: nat) {
    i < |ps| && Holds(ps[i], rid, addr) && !Faults(ps[i], rid, addr - rid)
  }

  ghost predicate Held(ps: Caches, addr: nat) {
    exists i: nat, rid: nat :: i < |ps| && Holds(ps[i], rid, addr)
  }

  /** The body of the loop in `fault_try_resolve`: one pool, under its lock. */
  ghost function TryOne(s: Cache, addr: nat): (Cache, bool) {
    var r := FindRegion(s, addr);
    if r.Some? && Faults(s, r.value, addr - r.value) then (Touch(s, r.value, addr - r.value), true) else (s, false)
  }

  /** `fault_try_resolve`, from pool `i` on. */
  ghost function TryFrom(ps: Caches, addr: nat, i: nat): (r: (Caches, bool))
    requires i <= |ps|
    ensures |r.0| == |ps|
    decreases |ps| - i
  {
    if i == |ps| then (ps, false)
    else
      var r := TryOne(ps[i], addr);
      if r.1 then (ps[i := r.0], true) else TryFrom(ps, addr, i + 1)
  }

  ghost function TryResolve(ps: Caches, addr: nat): (Caches, bool) {
    TryFrom(ps, addr, 0)
  }

  /** Pool `j` has a region that holds the address on an unreadable page. */
  ghost predicate FaultsAt(ps: Caches, addr: nat, j: nat, rid: nat) {
    j < |ps| && Holds(ps[j], rid, addr) && Faults(ps[j], rid, addr - rid)
  }

  ghost function Resolved(ps: Caches, addr: nat, j: nat, rid: nat): Caches
    requires FaultsAt(ps, addr, j, rid)
  {
    ps[j := Touch(ps[j], rid, addr - rid)]
  }

  lemma {:induction false} TryFromOutcome(ps: Caches, addr: nat, i: nat)
    requires i <= |ps|
    ensures var r := TryFrom(ps, addr, i);
            && (!r.1 ==> r.0 == ps)
            && (r.1 ==> exists j: nat, rid: nat :: FaultsAt(ps, addr, j, rid) && r.0 == Resolved(ps, addr, j, rid))
    decreases |ps| - i
  {
    hide Faults, Touch;
    if i < |ps| {
      var r := FindRegion(ps[i], addr);
      if r.Some? && Faults(ps[i], r.value, addr - r.value) {
        assert FaultsAt(ps, addr, i, r.value);
      } else {
        TryFromOutcome(ps, addr, i + 1);
      }
    }
  }

  lemma {:induction false} TryFromClaims(ps: Caches, addr: nat, i: nat, j: nat, rid: nat)
    requires PoolsOk(ps) && i <= j && FaultsAt(ps, addr, j, rid)
    ensures TryFrom(ps, addr, i).1
    decreases |ps| - i
  {
    hide Faults, Touch;
    if i < j {
      TryFromClaims(ps, addr, i + 1, j, rid);
    }
  }

  /** What one fault does to its own region: same place, page readable. */
  lemma TouchReadable(s: Cache, rid: nat, addr: nat)
    requires Inv(s) && Holds(s, rid, addr) && Faults(s, rid, addr - rid)
    ensures var s' := Touch(s, rid, addr - rid);
            Inv(s') && Holds(s', rid, addr) && !Faults(s', rid, addr - rid)
  {
    var l := s.regions[rid].l;
    FaultPage(l, addr - rid);
    ResolveReadable(s, rid, PageFloor(addr - rid, l.ps));
  }

  lemma ResolvedReadable(ps: Caches, addr: nat, j: nat, rid: nat)
    requires PoolsOk(ps) && FaultsAt(ps, addr, j, rid)
    ensures Readable(Resolved(ps, addr, j, rid), addr)
  {
    TouchReadable(ps[j], rid, addr);
    hide Faults, Touch, Holds;
    assert ReadableAt(Resolved(ps, addr, j, rid), addr, j, rid);
  }

  /** Classification, first half: a claimed fault leaves its address readable. */
  lemma ClaimedIsReadable(ps: Caches, addr: nat)
    requires PoolsOk(ps) && TryResolve(ps, addr).1
    ensures Readable(TryResolve(ps, addr).0, addr)
  {
    TryFromOutcome(ps, addr, 0);
    hide PoolsOk, FaultsAt, Resolved, Readable, TryFrom;
    var j: nat, rid: nat :| FaultsAt(ps, addr, j, rid) && TryResolve(ps, addr).0 == Resolved(ps, addr, j, rid);
    ResolvedReadable(ps, addr, j, rid);
  }

  /** Classification, second half: a declined fault changes nothing, and is
      declined exactly when no live region holds the address or it is readable. */
  lemma DeclinedExactly(ps: Caches, addr: nat)
    requires PoolsOk(ps)
    ensures !TryResolve(ps, addr).1 ==> TryResolve(ps, addr).0 == ps
    ensures !TryResolve(ps, addr).1 <==> !Held(ps, addr) || Readable(ps, addr)
  {
    hide Faults, Touch;
    TryFromOutcome(ps, addr, 0);
    if TryResolve(ps, addr).1 {
      var j: nat, rid: nat :| FaultsAt(ps, addr, j, rid);
      assert forall i: nat, r: nat :: ReadableAt(ps, addr, i, r) ==> i == j && r == rid;
    }
    if Held(ps, addr) && !Readable(ps, addr) {
      var i: nat, rid: nat :| i < |ps| && Holds(ps[i], rid, addr);
      assert !ReadableAt(ps, addr, i, rid);
      TryFromClaims(ps, addr, 0, i, rid);
    }
  }

  // ---------------------------------------------------- regions stay in place

  /** `s'` holds no address that `s` does not hold in the same region. */
  ghost predicate SamePlaces(s: Cache, s': Cache) {
    forall rid, addr :: Holds(s', rid, addr) ==> Holds(s, rid, addr)
  }

  lemma TouchPlaces(s: Cache, rid: nat, off: nat)
    requires Inv(s)
    ensures Inv(Touch(s, rid, off)) && SamePlaces(s, Touch(s, rid, off))
  {
    if Faults(s, rid, off) {
      var l := s.regions[rid].l;
      var page := PageFloor(off, l.ps);
      FaultPage(l, off);
      ResolveInv(s, rid, page);
      BringInLayouts(s, rid, page);
      SettleKeeps(BringIn(s, rid, page), rid, FirstOf(l, page), LastOf(l, page));
    }
  }

  lemma PoolsKept(ps: Caches, i: nat, s: Cache)
    requires PoolsOk(ps) && i < |ps| && Inv(s) && SamePlaces(ps[i], s)
    ensures PoolsOk(ps[i := s])
  {
    var ps' := ps[i := s];
    forall j, rid, k, rid', addr
      | 0 <= j < |ps'| && 0 <= k < |ps'| && Holds(ps'[j], rid, addr) && Holds(ps'[k], rid', addr)
      ensures j == k && rid == rid'
    {
      assert Holds(ps[j], rid, addr) && Holds(ps[k], rid', addr);
    }
  }

  lemma ResolvedKeeps(ps: Caches, addr: nat, j: nat, rid: nat)
    requires PoolsOk(ps) && FaultsAt(ps, addr, j, rid)
    ensures PoolsOk(Resolved(ps, addr, j, rid))
  {
    hide Touch, Faults, Inv;
    TouchPlaces(ps[j], rid, addr - rid);
    PoolsKept(ps, j, Touch(ps[j], rid, addr - rid));
  }

  lemma TryResolveKeeps(ps: Caches, addr: nat)
    requires PoolsOk(ps)
    ensures PoolsOk(TryResolve(ps, addr).0)
  {
    TryFromOutcome(ps, addr, 0);
    if TryResolve(ps, addr).1 {
      hide PoolsOk, FaultsAt, Resolved, TryFrom;
      var j: nat, rid: nat :| FaultsAt(ps, addr, j, rid) && TryResolve(ps, addr).0 == Resolved(ps, addr, j, rid);
      ResolvedKeeps(ps, addr, j, rid);
    }
  }

  /** The race in one line: of two threads that faulted on the same page, the
      second handler always declines. */
  lemma SecondHandlerDeclines(ps: Caches, addr: nat)
    requires PoolsOk(ps) && TryResolve(ps, addr).1
    ensures var ps' := TryResolve(ps, addr).0;
            TryResolve(ps', addr) == (ps', false)
  {
    TryResolveKeeps(ps, addr);
    ClaimedIsReadable(ps, addr);
    DeclinedExactly(TryResolve(ps, addr).0, addr);
  }

  // ------------------------------------------- who can make a page readable

  lemma DestroyHides(s: Cache, gone: nat, rid: nat, addr: nat)
    requires Inv(s) && gone in s.regions && Holds(Destroy(s, gone), rid, addr)
    requires !Faults(Destroy(s, gone), rid, addr - rid)
    ensures Holds(s, rid, addr) && !Faults(s, rid, addr - rid)
  {
    var s', n := Destroy(s, gone), |s.regions[gone].staged|;
    var l := s.regions[rid].l;
    var page := PageFloor(addr - rid, l.ps);
    DestroyInv(s, gone);
    if !l.Shared(page) {
      var k, a, b := Key(rid, l.Owner(page)), s.queue[..s.hot], s.queue[s.hot..];
      assert s.queue == a + b;
      DropSplit(a, b, gone, n);
      assert s'.queue[..s'.hot] == Drop(a, gone, n);
      DropMember(a, gone, n, k);
    }
  }

  lemma FreshUnreadable(s: Cache, rid: nat, l: Layout, page: nat)
    requires Inv(s) && rid !in s.regions && l.Valid() && page < l.Total()
    requires RegionsOk(Create(s, rid, l))
    ensures !PageReadable(Create(s, rid, l), rid, page)
  {
    var c := l.Owner(page);
    if l.Shared(page) {
      OwnerInside(l, page);
      assert l.Overlaps(c, page) && !FreshRegion(l).staged[c];
    } else {
      assert Key(rid, c) in s.queue[..s.hot] ==> Live(s, Key(rid, c));
    }
  }

  /** A new region is unreadable everywhere, and creating it opens no other page. */
  lemma CreateHides(s: Cache, new_rid: nat, l: Layout, rid: nat, addr: nat)
    requires Inv(s) && new_rid !in s.regions && l.Valid() && Holds(Create(s, new_rid, l), rid, addr)
    requires !Faults(Create(s, new_rid, l), rid, addr - rid)
    ensures Holds(s, rid, addr) && !Faults(s, rid, addr - rid)
  {
    CreateInv(s, new_rid, l);
    if rid == new_rid {
      FaultPage(l, addr - rid);
      FreshUnreadable(s, rid, l, PageFloor(addr - rid, l.ps));
    }
  }

  // -------------------------------------------------------------- interleaving

  /** A handler on its way through the pools; it holds `g_pools_lock`. */
  datatype Scan = Scan(thread: nat, next: nat)

  datatype World = World(pools: Caches, pending: map<nat, nat>, scan: Option<Scan>)

  /** Each pool's lock is taken for one lookup at a time, so regions may come
      and go while a handler is between two pools; new pools may not. */
  datatype Step =
    | Read(thread: nat, addr: nat)
    | Begin(thread: nat)
    | TryPool(thread: nat)
    | GiveUp(thread: nat)
    | NewPool(target: nat)
    | CreateStep(pool: nat, rid: nat, l: Layout)
    | DestroyStep(pool: nat, rid: nat)

  /** A region may be created where no reservation is. */
  ghost predicate Free(ps: Caches, rid: nat, l: Layout) {
    l.Valid() && forall addr :: rid <= addr < rid + l.Mapped() ==> !Held(ps, addr)
  }

  ghost predicate Enabled(w: World, step: Step) {
    match step
    case Read(t, addr) => t !in w.pending
    case Begin(t) => t in w.pending && w.scan.None?
    case TryPool(t) => t in w.pending && w.scan.Some? && w.scan.value.thread == t && w.scan.value.next < |w.pools|
    case GiveUp(t) => t in w.pending && w.scan == Some(Scan(t, |w.pools|))
    case NewPool(_) => w.scan.None?
    case CreateStep(i, rid, l) => i < |w.pools| && rid !in w.pools[i].regions && Free(w.pools, rid, l)
    case DestroyStep(i, rid) => i < |w.pools| && rid in w.pools[i].regions && w.pools[i].hot <= |w.pools[i].queue|
  }

  /** What the handler finds in the pool it has reached. */
  ghost function Found(w: World): (Cache, bool)
    requires w.scan.Some? && w.scan.value.next < |w.pools| && w.scan.value.thread in w.pending
  {
    TryOne(w.pools[w.scan.value.next], w.pending[w.scan.value.thread])
  }

  ghost function Next(w: World, step: Step): World
    requires Enabled(w, step)
  {
    match step
    case Read(t, addr) => if Readable(w.pools, addr) then w else w.(pending := w.pending[t := addr])
    case Begin(t) => w.(scan := Some(Scan(t, 0)))
    case TryPool(t) =>
      var i := w.scan.value.next;
      if Found(w).1 then World(w.pools[i := Found(w).0], w.pending - {t}, None)
      else w.(scan := Some(Scan(t, i + 1)))
    case GiveUp(t) => w.(pending := w.pending - {t}, scan := None)
    case NewPool(target) => w.(pools := [NewCache(target)] + w.pools)
    case CreateStep(i, rid, l) => w.(pools := w.pools[i := Create(w.pools[i], rid, l)])
    case DestroyStep(i, rid) => w.(pools := w.pools[i := Destroy(w.pools[i], rid)])
  }

  lemma NextOk(w: World, step: Step)
    requires PoolsOk(w.pools) && Enabled(w, step)
    ensures PoolsOk(Next(w, step).pools)
  {
    hide PoolsOk, TryOne, Free, Create, Destroy;
    match step
    case TryPool(t) =>
      if Found(w).1 {
        ClaimOk(w.pools, w.scan.value.next, w.pending[t]);
      }
    case NewPool(target) => NewPoolOk(w.pools, target);
    case CreateStep(i, rid, l) => CreateOk(w.pools, i, rid, l);
    case DestroyStep(i, rid) => DestroyOk(w.pools, i, rid);
    case _ =>
  }

  /** A claim keeps the pools in order and leaves the address readable. */
  lemma ClaimOk(ps: Caches, i: nat, addr: nat)
    requires PoolsOk(ps) && i < |ps| && TryOne(ps[i], addr).1
    ensures PoolsOk(ps[i := TryOne(ps[i], addr).0])
    ensures !Readable(ps, addr) && Readable(ps[i := TryOne(ps[i], addr).0], addr)
  {
    hide Faults, Touch, Inv;
    var rid := FindRegion(ps[i], addr).value;
    assert FaultsAt(ps, addr, i, rid);
    assert forall j: nat, r: nat :: ReadableAt(ps, addr, j, r) ==> j == i && r == rid;
    ResolvedKeeps(ps, addr, i, rid);
    ResolvedReadable(ps, addr, i, rid);
  }

  lemma NewPoolOk(ps: Caches, target: nat)
    requires PoolsOk(ps)
    ensures PoolsOk([NewCache(target)] + ps)
  {
    hide Inv;
    var ps' := [NewCache(target)] + ps;
    NewCacheInv(target);
    forall i | 0 <= i < |ps'|
      ensures Inv(ps'[i])
    {
      assert i > 0 ==> ps'[i] == ps[i - 1];
    }
    forall j, a, k, b, addr | 0 <= j < |ps'| && 0 <= k < |ps'| && Holds(ps'[j], a, addr) && Holds(ps'[k], b, addr)
      ensures j == k && a == b
    {
      assert ps'[j] == ps[j - 1] && ps'[k] == ps[k - 1];
    }
  }

  lemma DestroyOk(ps: Caches, i: nat, rid: nat)
    requires PoolsOk(ps) && i < |ps| && rid in ps[i].regions && ps[i].hot <= |ps[i].queue|
    ensures PoolsOk(ps[i := Destroy(ps[i], rid)])
  {
    DestroyInv(ps[i], rid);
    PoolsKept(ps, i, Destroy(ps[i], rid));
  }

  lemma CreateOk(ps: Caches, i: nat, rid: nat, l: Layout)
    requires PoolsOk(ps) && i < |ps| && rid !in ps[i].regions && Free(ps, rid, l)
    ensures PoolsOk(ps[i := Create(ps[i], rid, l)])
  {
    var ps' := ps[i := Create(ps[i], rid, l)];
    CreateInv(ps[i], rid, l);
    forall j, a, k, b, addr: nat | 0 <= j < |ps'| && 0 <= k < |ps'| && Holds(ps'[j], a, addr) && Holds(ps'[k], b, addr)
      ensures j == k && a == b
    {
      assert (j == i && a == rid) || Holds(ps[j], a, addr);
      assert (k == i && b == rid) || Holds(ps[k], b, addr);
      assert rid <= addr < rid + l.Mapped() ==> !Held(ps, addr);
    }
  }

  /** Classification of one lookup: a claim turns the address readable before
      the lock is released, anything else changes no pool. */
  lemma LookupClassified(w: World, t: nat)
    requires PoolsOk(w.pools) && Enabled(w, TryPool(t))
    ensures var w', addr := Next(w, TryPool(t)), w.pending[t];
            if Found(w).1 then !Readable(w.pools, addr) && Readable(w'.pools, addr) && t !in w'.pending
            else w'.pools == w.pools && w'.pending == w.pending
  {
    hide PoolsOk, TryOne, Readable;
    if Found(w).1 {
      ClaimOk(w.pools, w.scan.value.next, w.pending[t]);
    }
  }

  /** Only another thread's handler can turn an unreadable address readable. */
  lemma OnlyHandlersOpen(w: World, step: Step, addr: nat)
    requires PoolsOk(w.pools) && Enabled(w, step) && Readable(Next(w, step).pools, addr)
    ensures Readable(w.pools, addr) || (step.TryPool? && Found(w).1)
  {
    hide Faults, TryOne, Destroy, Create, Inv;
    var w' := Next(w, step);
    var i: nat, rid: nat :| ReadableAt(w'.pools, addr, i, rid);
    match step
    case NewPool(target) =>
      assert i > 0 && w'.pools[i] == w.pools[i - 1];
      ReadableBefore(w.pools, addr, i - 1, rid);
    case CreateStep(j, r, l) =>
      if i == j { CreateHides(w.pools[i], r, l, rid, addr); }
      ReadableBefore(w.pools, addr, i, rid);
    case DestroyStep(j, r) =>
      if i == j { DestroyHides(w.pools[i], r, rid, addr); }
      ReadableBefore(w.pools, addr, i, rid);
    case _ =>
  }

  lemma ReadableBefore(ps: Caches, addr: nat, i: nat, rid: nat)
    requires ReadableAt(ps, addr, i, rid)
    ensures Readable(ps, addr)
  {
  }

  /** The steps of a run, in order, are enabled and lead from each world to the next. */
  ghost predicate IsRun(ws: seq<World>, steps: seq<Step>) {
    && |ws| == |steps| + 1
    && forall i :: 0 <= i < |steps| ==> Enabled(ws[i], steps[i]) && ws[i + 1] == Next(ws[i], steps[i])
  }

  /** Step `i` is a handler claiming a fault that makes `addr` readable. */
  ghost predicate Opens(ws: seq<World>, steps: seq<Step>, i: nat, addr: nat)
    requires IsRun(ws, steps)
  {
    && i < |steps| && steps[i].TryPool? && Found(ws[i]).1
    && !Readable(ws[i].pools, addr) && Readable(ws[i + 1].pools, addr)
  }

  lemma {:induction false} FirstOpening(ws: seq<World>, steps: seq<Step>, addr: nat, n: nat) returns (i: nat)
    requires IsRun(ws, steps) && PoolsOk(ws[0].pools) && n <= |steps|
    requires !Readable(ws[0].pools, addr) && Readable(ws[n].pools, addr)
    ensures i < n && Opens(ws, steps, i, addr)
  {
    hide PoolsOk, Readable, Enabled, Next, Found;
    RunOk(ws, steps, n - 1);
    if Readable(ws[n - 1].pools, addr) {
      i := FirstOpening(ws, steps, addr, n - 1);
    } else {
      OnlyHandlersOpen(ws[n - 1], steps[n - 1], addr);
      i := n - 1;
    }
  }

  lemma {:induction false} RunOk(ws: seq<World>, steps: seq<Step>, n: nat)
    requires IsRun(ws, steps) && PoolsOk(ws[0].pools) && n <= |steps|
    ensures PoolsOk(ws[n].pools)
  {
    if n > 0 {
      RunOk(ws, steps, n - 1);
      NextOk(ws[n - 1], steps[n - 1]);
    }
  }

  /** Region `rid` is live, in some pool, and holds the address. */
  ghost predicate LiveAt(ps: Caches, rid: nat, addr: nat) {
    exists i: nat :: i < |ps| && Holds(ps[i], rid, addr)
  }

  /** Thread `t` has already looked at the pool of region `rid`. */
  ghost predicate Passed(w: World, t: nat, rid: nat, addr: nat) {
    && w.scan.Some? && w.scan.value.thread == t
    && exists i: nat :: i < w.scan.value.next && i < |w.pools| && Holds(w.pools[i], rid, addr)
  }

  /** A live region is only passed by looking at it and finding it readable. */
  lemma PassesReadable(w: World, step: Step, t: nat, rid: nat, addr: nat)
    requires PoolsOk(w.pools) && Enabled(w, step)
    requires t in w.pending && w.pending[t] == addr && t in Next(w, step).pending
    requires LiveAt(w.pools, rid, addr) && !Passed(w, t, rid, addr) && Passed(Next(w, step), t, rid, addr)
    ensures step == TryPool(t) && Readable(w.pools, addr)
  {
    hide Faults, Touch, Inv, Create, Destroy, Free, Readable, PageCeil;
    var w' := Next(w, step);
    var i: nat :| i < w'.scan.value.next && i < |w'.pools| && Holds(w'.pools[i], rid, addr);
    match step
    case TryPool(u) =>
      assert i == w.scan.value.next;
      LookedAt(w.pools, addr, i, rid);
    case CreateStep(j, r, l) => CreatedElsewhere(w.pools, j, r, l, rid, addr, i);
    case DestroyStep(j, r) => DestroyPlaces(w.pools[j], r, rid, addr);
    case _ =>
  }

  /** A pool that holds the address and does not claim it can be read there. */
  lemma LookedAt(ps: Caches, addr: nat, i: nat, rid: nat)
    requires PoolsOk(ps) && i < |ps| && Holds(ps[i], rid, addr) && !TryOne(ps[i], addr).1
    ensures Readable(ps, addr)
  {
    hide Faults, Touch, Inv;
    assert ReadableAt(ps, addr, i, rid);
  }

  lemma CreatedElsewhere(ps: Caches, j: nat, r: nat, l: Layout, rid: nat, addr: nat, i: nat)
    requires j < |ps| && r !in ps[j].regions && Free(ps, r, l) && LiveAt(ps, rid, addr)
    requires i < |ps| && Holds(ps[j := Create(ps[j], r, l)][i], rid, addr)
    ensures Holds(ps[i], rid, addr)
  {
    assert Held(ps, addr);
  }

  lemma DestroyPlaces(s: Cache, gone: nat, rid: nat, addr: nat)
    requires gone in s.regions && s.hot <= |s.queue|
    ensures Holds(Destroy(s, gone), rid, addr) ==> Holds(s, rid, addr)
  {
  }

  lemma {:induction false} FirstPassing(ws: seq<World>, steps: seq<Step>, t: nat, rid: nat, addr: nat, n: nat)
    returns (i: nat)
    requires IsRun(ws, steps) && PoolsOk(ws[0].pools) && n <= |steps|
    requires forall k :: 0 <= k <= n ==> Waits(ws[k], t, addr) && LiveAt(ws[k].pools, rid, addr)
    requires !Passed(ws[0], t, rid, addr) && Passed(ws[n], t, rid, addr)
    ensures i < n && Readable(ws[i].pools, addr)
  {
    hide PoolsOk, Readable, Passed, LiveAt, Enabled, Next;
    RunOk(ws, steps, n - 1);
    if Passed(ws[n - 1], t, rid, addr) {
      i := FirstPassing(ws, steps, t, rid, addr, n - 1);
    } else {
      PassesReadable(ws[n - 1], steps[n - 1], t, rid, addr);
      i := n - 1;
    }
  }

  /** Thread `t` has faulted at `addr` and its handler has not returned. */
  ghost predicate Waits(w: World, t: nat, addr: nat) {
    t in w.pending && w.pending[t] == addr
  }

  /** Classification under every interleaving: thread `t` faulted on an address
      nobody could read, its handler looked at every pool and is about to pass
      the fault on. Then no region held the address all the while, or another
      thread's handler made it readable in between. */
  lemma PassedOnOnlyIf(ws: seq<World>, steps: seq<Step>, t: nat, rid: nat, addr: nat)
    requires IsRun(ws, steps) && PoolsOk(ws[0].pools) && !Readable(ws[0].pools, addr)
    requires forall k :: 0 <= k < |ws| ==> Waits(ws[k], t, addr)
    requires !(ws[0].scan.Some? && ws[0].scan.value.thread == t)
    requires Enabled(ws[|steps|], GiveUp(t))
    ensures (exists k :: 0 <= k < |ws| && !LiveAt(ws[k].pools, rid, addr))
            || exists i: nat :: Opens(ws, steps, i, addr) && steps[i].thread != t
  {
    if forall k :: 0 <= k < |ws| ==> LiveAt(ws[k].pools, rid, addr) {
      var i := OpenedBetween(ws, steps, t, rid, addr);
      assert Opens(ws, steps, i, addr);
    }
  }

  lemma OpenedBetween(ws: seq<World>, steps: seq<Step>, t: nat, rid: nat, addr: nat) returns (i: nat)
    requires IsRun(ws, steps) && PoolsOk(ws[0].pools) && !Readable(ws[0].pools, addr)
    requires forall k :: 0 <= k < |ws| ==> Waits(ws[k], t, addr) && LiveAt(ws[k].pools, rid, addr)
    requires !(ws[0].scan.Some? && ws[0].scan.value.thread == t)
    requires Enabled(ws[|steps|], GiveUp(t))
    ensures Opens(ws, steps, i, addr) && steps[i].thread != t
  {
    assert Passed(ws[|steps|], t, rid, addr) by {
      assert LiveAt(ws[|steps|].pools, rid, addr);
    }
    hide PoolsOk, Readable, LiveAt;
    var n := FirstPassing(ws, steps, t, rid, addr, |steps|);
    i := FirstOpening(ws, steps, addr, n);
    assert Waits(ws[i + 1], t, addr);
  }

  // ------------------------------------------------- scans run to their end

  /** A scan belongs to a handler that has not returned, at a pool there is. */
  ghost predicate ScanOk(w: World) {
    w.scan.Some? ==> w.scan.value.thread in w.pending && w.scan.value.next <= |w.pools|
  }

  lemma ScanStaysOk(w: World, step: Step)
    requires ScanOk(w) && Enabled(w, step)
    ensures ScanOk(Next(w, step))
  {
    hide Found, Readable, Create, Destroy, Free;
  }

  /** No handler is ever stuck: it can move, or the one that holds
      `g_pools_lock` can. */
  lemma NeverStuck(w: World, t: nat) returns (step: Step)
    requires ScanOk(w) && t in w.pending
    ensures Enabled(w, step) && (step.Begin? || step.TryPool? || step.GiveUp?)
    ensures step.thread == t || (w.scan.Some? && step.thread == w.scan.value.thread)
  {
    if w.scan.None? {
      step := Begin(t);
    } else {
      var u := w.scan.value.thread;
      step := if w.scan.value.next < |w.pools| then TryPool(u) else GiveUp(u);
    }
  }

  /** A handler that nobody interrupts, from where it is. */
  ghost function ScanOn(w: World, t: nat): World
    requires ScanOk(w) && w.scan.Some? && w.scan.value.thread == t
    decreases |w.pools| - w.scan.value.next
  {
    if w.scan.value.next == |w.pools| then Next(w, GiveUp(t))
    else if Found(w).1 then Next(w, TryPool(t))
    else ScanOn(Next(w, TryPool(t)), t)
  }

  /** It comes to what `fault_try_resolve` comes to as one step. */
  lemma {:induction false} ScanIsTry(w: World, t: nat)
    requires ScanOk(w) && w.scan.Some? && w.scan.value.thread == t
    ensures ScanOn(w, t)
         == World(TryFrom(w.pools, w.pending[t], w.scan.value.next).0, w.pending - {t}, None)
    decreases |w.pools| - w.scan.value.next
  {
    hide TryOne;
    if w.scan.value.next < |w.pools| && !Found(w).1 {
      ScanIsTry(Next(w, TryPool(t)), t);
    }
  }

  /** From a read to its retry: a thread that reads an address some region holds
      and is not interrupted can read it afterwards, and no fault is pending. */
  lemma ReadIsServed(w: World, t: nat, addr: nat)
    requires PoolsOk(w.pools) && w.scan.None? && t !in w.pending && Held(w.pools, addr) && !Readable(w.pools, addr)
    ensures var faulted := Next(w, Read(t, addr));
            && Enabled(faulted, Begin(t))
            && var scanning := Next(faulted, Begin(t));
               && ScanOk(scanning) && scanning.scan == Some(Scan(t, 0))
               && var done := ScanOn(scanning, t);
                  Readable(done.pools, addr) && done.pending == w.pending && done.scan.None?
  {
    hide Readable, Held, PoolsOk, TryFrom;
    var scanning := Next(Next(w, Read(t, addr)), Begin(t));
    ScanIsTry(scanning, t);
    DeclinedExactly(w.pools, addr);
    ClaimedIsReadable(w.pools, addr);
    assert w.pending[t := addr] - {t} == w.pending;
  }

  /** Regions of one cache do not overlap. */
  ghost predicate Apart(s: Cache) {
    forall rid, rid', addr :: Holds(s, rid, addr) && Holds(s, rid', addr) ==> rid == rid'
  }

  /** The lookup a pool performs is the only one there is. */
  lemma TryOneIs(s: Cache, addr: nat, r: Option<nat>)
    requires Apart(s)
    requires r.Some? ==> Holds(s, r.value, addr)
    requires r.None? ==> forall rid :: !Holds(s, rid, addr)
    ensures TryOne(s, addr)
         == if r.Some? && Faults(s, r.value, addr - r.value)
            then (Touch(s, r.value, addr - r.value), true) else (s, false)
  {
    hide Touch, Faults;
  }
}
