/** Several pools and any number of threads, on the real structures: creations,
    destructions, lookups of fault handlers and loads in any order. */
module Interleaving {
  import opened Basics
  import opened CacheModel
  import opened CacheTheorems
  import opened FaultRace
  import opened Pools
  import opened FaultDelivery
  import opened Programs

  /** What can happen under one pool's lock (`Do`, `Turn`), and a load, which
      takes no lock. */
  datatype Event =
    | Do(pool: nat, c: Command)
    | Turn(pool: nat, addr: nat)
    | LoadAt(pool: nat, rid: nat, off: nat)

  ghost predicate EventOk(e: Event, n: nat) {
    e.pool < n && (e.Do? ==> WellFormed(e.c))
  }

  /** What the pools' regions hold: lookups and loads change nothing. */
  ghost function MemoriesAfter(n: nat, es: seq<Event>): (ms: seq<Memory>)
    ensures |ms| == n
  {
    if es == [] then seq(n, _ => map[]) else Moved(MemoriesAfter(n, es[..|es| - 1]), es[|es| - 1])
  }

  ghost function Moved(ms: seq<Memory>, e: Event): (ms': seq<Memory>)
    ensures |ms'| == |ms|
  {
    if e.Do? && e.pool < |ms| then ms[e.pool := After(ms[e.pool], e.c)] else ms
  }

  /** What the event answers: a load succeeds exactly when it does not fault, and
      then returns the byte its region was created to hold; a command answers as
      plain memory does. */
  ghost predicate Got(s: Cache, m: Memory, e: Event, b: Option<byte>) {
    match e
    case Do(_, c) => b == Answer(m, c)
    case Turn(_, _) => b == None
    case LoadAt(_, rid, off) => b == if Faults(s, rid, off) then None else ByteAt(m, rid, off)
  }

  /** What the event does to its pool. */
  ghost predicate Took(s: Cache, s': Cache, e: Event) {
    match e
    case Do(_, c) => s' == if OpsOf(c) == [] then s else Apply(s, OpsOf(c)[0])
    case Turn(_, addr) => exists r :: Turned(s, s', addr, r)
    case LoadAt(_, _, _) => s' == s
  }

  /** A lookup that found `r` resolved its page exactly if it could not be read. */
  ghost predicate Turned(s: Cache, s': Cache, addr: nat, r: Option<nat>) {
    match r
    case None => s' == s && forall rid :: !Holds(s, rid, addr)
    case Some(rid) =>
      Holds(s, rid, addr) && s' == if Faults(s, rid, addr - rid) then Touch(s, rid, addr - rid) else s
  }

  /** One event on its own pool. */
  method ActOne(p: Pool, e: Event) returns (b: Option<byte>)
    requires p.Valid() && (e.Do? ==> WellFormed(e.c))
    modifies p, p.lru, p.lru.list, p.lru.list.head, p.lru.owned, p.members
    ensures p.Valid() && fresh(p.lru.owned - old(p.lru.owned)) && fresh(p.members - old(p.members))
    ensures p.Contents() == if e.Do? then After(old(p.Contents()), e.c) else old(p.Contents())
    ensures Took(old(p.Abs()), p.Abs(), e) && Got(old(p.Abs()), old(p.Contents()), e, b)
  {
    hide Pool.Valid, WellFormed, After, ByteAt, Pool.Contents, Pool.Abs, Faults, Touch, Apply, OpsOf, Holds, Answer;
    b := None;
    match e
    case Do(_, c) => b := Execute(p, c);
    case Turn(_, addr) => TurnPool(p, addr);
    case LoadAt(_, rid, off) => b := LoadPool(p, rid, off);
  }

  method TurnPool(p: Pool, addr: nat)
    requires p.Valid()
    modifies p, p.lru, p.lru.list, p.lru.list.head, p.lru.owned, p.members
    ensures p.Valid() && p.lru.owned == old(p.lru.owned) && p.members == old(p.members)
    ensures p.Contents() == old(p.Contents()) && Took(old(p.Abs()), p.Abs(), Turn(0, addr))
  {
    hide Pool.Valid, Faults, Touch, Holds, Pool.Abs, Pool.Contents;
    ghost var s := p.Abs();
    var r, ours := p.Lookup(addr);
    assert Turned(s, p.Abs(), addr, r);
  }

  method LoadPool(p: Pool, rid: nat, off: nat) returns (b: Option<byte>)
    requires p.Valid()
    ensures b == if Faults(p.Abs(), rid, off) then None else ByteAt(p.Contents(), rid, off)
  {
    hide Pool.Valid, Faults, ByteAt, Pool.Abs, Pool.Contents, Pool.InRegion;
    p.NoByte(rid, off);
    b := p.Load(rid, off);
  }

  /** One event: the other pools do not notice. */
  method ActAmong(pools: seq<Pool>, e: Event, ghost ms: seq<Memory>, ghost ss: seq<Cache>) returns (b: Option<byte>)
    requires Separate(pools) && EventOk(e, |pools|) && |ms| == |ss| == |pools|
    requires forall j :: 0 <= j < |pools| ==>
               pools[j].Valid() && pools[j].Contents() == ms[j] && pools[j].Abs() == ss[j]
    modifies Repr(pools[e.pool])
    ensures Took(ss[e.pool], pools[e.pool].Abs(), e) && Got(ss[e.pool], ms[e.pool], e, b)
    ensures forall j :: 0 <= j < |pools| ==> pools[j].Valid()
    ensures pools[e.pool].Contents() == if e.Do? then After(ms[e.pool], e.c) else ms[e.pool]
    ensures forall j :: 0 <= j < |pools| && j != e.pool ==> pools[j].Contents() == ms[j] && pools[j].Abs() == ss[j]
    ensures forall o :: o in Repr(pools[e.pool]) ==> o in old(Repr(pools[e.pool])) || fresh(o)
    ensures forall j :: 0 <= j < |pools| && j != e.pool ==> Repr(pools[j]) == old(Repr(pools[j]))
    ensures forall j, o :: 0 <= j < |pools| && o in old(Repr(pools[j])) ==> !fresh(o)
  {
    hide Pool.Valid, WellFormed, After, Pool.Contents, Pool.Abs, Took, Got;
    forall j | 0 <= j < |pools|
      ensures forall n :: n in pools[j].lru.list.q ==> n in pools[j].lru.owned
      ensures forall rid :: rid in pools[j].regions ==> pools[j].regions[rid] in pools[j].members
    {
      OwnParts(pools[j]);
    }
    label before:
    b := ActOne(pools[e.pool], e);
    forall j | 0 <= j < |pools| && j != e.pool
      ensures pools[j].Valid() && pools[j].Contents() == ms[j] && pools[j].Abs() == ss[j]
      ensures Repr(pools[j]) == old(Repr(pools[j]))
    {
      var q := pools[j];
      assert old(Repr(q)) !! old(Repr(pools[e.pool]));
      assert forall n :: n in old(q.lru.owned) ==> n in old(Repr(q));
      assert forall r :: r in old(q.members) ==> r in old(Repr(q));
      StaysPut@before(q);
    }
  }

  /** One event on its own pool; the pools stay separate. */
  method Act(pools: seq<Pool>, e: Event, ghost ms: seq<Memory>, ghost ss: seq<Cache>) returns (b: Option<byte>)
    requires Separate(pools) && EventOk(e, |pools|) && |ms| == |ss| == |pools|
    requires forall j :: 0 <= j < |pools| ==>
               pools[j].Valid() && pools[j].Contents() == ms[j] && pools[j].Abs() == ss[j]
    modifies Repr(pools[e.pool])
    ensures Separate(pools) && Took(ss[e.pool], pools[e.pool].Abs(), e) && Got(ss[e.pool], ms[e.pool], e, b)
    ensures forall j :: 0 <= j < |pools| && j != e.pool ==> pools[j].Abs() == ss[j]
    ensures forall j :: 0 <= j < |pools| ==> pools[j].Valid() && pools[j].Contents() == Moved(ms, e)[j]
    ensures forall o :: o in Repr(pools[e.pool]) ==> o in old(Repr(pools[e.pool])) || fresh(o)
    ensures forall j :: 0 <= j < |pools| && j != e.pool ==> Repr(pools[j]) == old(Repr(pools[j]))
  {
    hide Pool.Valid, WellFormed, After, Took, Got, Pool.Contents, Pool.Abs, Repr;
    b := ActAmong(pools, e, ms, ss);
    forall j, k | 0 <= j < k < |pools|
      ensures Repr(pools[j]) !! Repr(pools[k])
    {
      assert old(Repr(pools[j])) !! old(Repr(pools[k]));
    }
  }

  /** A pool nobody has used. */
  ghost predicate IsNew(p: Pool, target: nat)
    reads p, p.lru, p.lru.list, p.lru.list.head, p.lru.list.q, p.lru.owned, p.members, p.regions.Values
  {
    p.Valid() && p.Contents() == map[] && p.Abs() == NewCache(target)
  }

  method AddPool(target: nat) returns (p: Pool)
    ensures IsNew(p, target) && fresh(Repr(p))
  {
    hide Pool.Valid, Pool.Contents, Pool.Abs;
    p := new Pool(target);
    NothingYet(p);
  }

  method NewPools(targets: seq<nat>) returns (pools: seq<Pool>)
    ensures |pools| == |targets| && Separate(pools)
    ensures forall j :: 0 <= j < |pools| ==> IsNew(pools[j], targets[j])
    ensures forall j :: 0 <= j < |pools| ==> fresh(Repr(pools[j]))
  {
    hide IsNew, Separate;
    NoPools();
    pools := [];
    for i := 0 to |targets|
      invariant |pools| == i && Separate(pools)
      invariant forall j :: 0 <= j < i ==> IsNew(pools[j], targets[j]) && fresh(Repr(pools[j]))
    {
      var p := AddPool(targets[i]);
      OneMorePool(pools, p);
      pools := pools + [p];
    }
  }

  lemma NoPools()
    ensures Separate([])
  {
  }

  lemma OneMorePool(pools: seq<Pool>, p: Pool)
    requires Separate(pools) && forall j :: 0 <= j < |pools| ==> Repr(pools[j]) !! Repr(p)
    ensures Separate(pools + [p])
  {
    hide Repr;
  }

  ghost function Starts(targets: seq<nat>): (ss: seq<Cache>)
    ensures |ss| == |targets| && forall j :: 0 <= j < |ss| ==> ss[j] == NewCache(targets[j])
  {
    seq(|targets|, j requires 0 <= j < |targets| => NewCache(targets[j]))
  }

  /** From one state of the pools to the next. */
  ghost predicate Moves(ss: seq<Cache>, ss': seq<Cache>, e: Event) {
    && |ss'| == |ss| && e.pool < |ss| && Took(ss[e.pool], ss'[e.pool], e)
    && forall j :: 0 <= j < |ss| && j != e.pool ==> ss'[j] == ss[j]
  }

  ghost predicate Answered(ss: seq<Cache>, ms: seq<Memory>, e: Event, b: Option<byte>) {
    e.pool < |ss| && e.pool < |ms| && Got(ss[e.pool], ms[e.pool], e, b)
  }

  /** The first `|answers|` events, as a run of the models. */
  ghost predicate Goes(targets: seq<nat>, es: seq<Event>, trace: seq<seq<Cache>>, answers: seq<Option<byte>>) {
    && |answers| <= |es| && |trace| == |answers| + 1 && trace[0] == Starts(targets)
    && (forall n :: 0 <= n < |trace| ==> |trace[n]| == |targets|)
    && forall n :: 0 <= n < |answers| ==> GoesOn(targets, es, trace[n], trace[n + 1], n, answers[n])
  }

  ghost predicate GoesOn(targets: seq<nat>, es: seq<Event>, ss: seq<Cache>, ss': seq<Cache>, n: nat, b: Option<byte>)
    requires n < |es|
  {
    Moves(ss, ss', es[n]) && Answered(ss, MemoriesAfter(|targets|, es[..n]), es[n], b)
  }

  lemma OneMoreEvent(targets: seq<nat>, es: seq<Event>, trace: seq<seq<Cache>>, answers: seq<Option<byte>>,
                     ss: seq<Cache>, b: Option<byte>)
    requires Goes(targets, es, trace, answers) && |answers| < |es| && |ss| == |targets|
    requires GoesOn(targets, es, trace[|answers|], ss, |answers|, b)
    ensures Goes(targets, es, trace + [ss], answers + [b])
  {
    hide GoesOn;
    var t', a' := trace + [ss], answers + [b];
    forall n | 0 <= n < |a'|
      ensures GoesOn(targets, es, t'[n], t'[n + 1], n, a'[n])
    {
      assert n < |answers| ==> t'[n + 1] == trace[n + 1] && a'[n] == answers[n];
    }
  }

  /** Every interleaving: whatever the order of creations, destructions, lookups
      and loads over several pools, each pool moves as the model says, and each
      load succeeds exactly when its page is readable and then returns the byte
      its region was created to hold. `trace` is the run of the models. */
  method ReplayEvents(targets: seq<nat>, es: seq<Event>)
    returns (pools: seq<Pool>, answers: seq<Option<byte>>, ghost trace: seq<seq<Cache>>)
    requires forall n :: 0 <= n < |es| ==> EventOk(es[n], |targets|)
    ensures Goes(targets, es, trace, answers) && |answers| == |es| && |pools| == |targets|
    ensures forall j :: 0 <= j < |pools| ==> pools[j].Valid() && pools[j].Abs() == trace[|es|][j]
    ensures forall j :: 0 <= j < |pools| ==> pools[j].Contents() == MemoriesAfter(|targets|, es)[j]
  {
    hide Pool.Valid, Pool.Contents, Pool.Abs, Took, Got, WellFormed, Moved, Repr, NewCache, GoesOn, Separate;
    pools := NewPools(targets);
    answers, trace := [], [Starts(targets)];
    for n := 0 to |es|
      invariant |pools| == |targets| && Separate(pools) && |answers| == n && Goes(targets, es, trace, answers)
      invariant forall j :: 0 <= j < |pools| ==> pools[j].Valid() && pools[j].Abs() == trace[n][j]
      invariant forall j :: 0 <= j < |pools| ==> pools[j].Contents() == MemoriesAfter(|targets|, es[..n])[j]
      invariant forall j :: 0 <= j < |pools| ==> fresh(Repr(pools[j]))
    {
      ghost var ms := MemoriesAfter(|targets|, es[..n]);
      var b, ss := Happen(pools, targets, es, n, trace[n]);
      OneMoreEvent(targets, es, trace, answers, ss, b);
      trace, answers := trace + [ss], answers + [b];
    }
    assert es[..|es|] == es;
  }

  /** Event `n` happens. */
  method Happen(pools: seq<Pool>, ghost targets: seq<nat>, es: seq<Event>, n: nat, ghost ss: seq<Cache>)
    returns (b: Option<byte>, ghost ss': seq<Cache>)
    requires Separate(pools) && n < |es| && EventOk(es[n], |pools|) && |ss| == |targets| == |pools|
    requires forall j :: 0 <= j < |pools| ==> pools[j].Valid() && pools[j].Abs() == ss[j]
    requires forall j :: 0 <= j < |pools| ==> pools[j].Contents() == MemoriesAfter(|targets|, es[..n])[j]
    modifies Repr(pools[es[n].pool])
    ensures Separate(pools) && |ss'| == |pools| && GoesOn(targets, es, ss, ss', n, b)
    ensures forall j :: 0 <= j < |pools| ==> pools[j].Valid() && pools[j].Abs() == ss'[j]
    ensures forall j :: 0 <= j < |pools| ==> pools[j].Contents() == MemoriesAfter(|targets|, es[..n + 1])[j]
    ensures forall j :: 0 <= j < |pools| && j != es[n].pool ==> Repr(pools[j]) == old(Repr(pools[j]))
    ensures forall o :: o in Repr(pools[es[n].pool]) ==> o in old(Repr(pools[es[n].pool])) || fresh(o)
  {
    hide Pool.Valid, Pool.Contents, Pool.Abs, Took, Got, WellFormed, Moved, Repr, Separate;
    assert es[..n + 1][..n] == es[..n];
    ghost var ms := MemoriesAfter(|targets|, es[..n]);
    b := Act(pools, es[n], ms, ss);
    ss' := ss[es[n].pool := pools[es[n].pool].Abs()];
  }
}
