/** A fault on the registered pools: `fault_try_resolve` over all of them. */
module FaultDelivery {
  import opened CacheModel
  import opened FaultRace
  import opened Regions
  import opened Pools

  /** Everything a pool is made of. */
  ghost function Repr(p: Pool): (r: set<object>)
    reads p, p.lru
  {
    {p, p.lru, p.lru.list, p.lru.list.head} + (set n | n in p.lru.owned) + (set r | r in p.members)
  }

  ghost predicate Separate(pools: seq<Pool>)
    reads set i | 0 <= i < |pools| :: pools[i]
    reads set i | 0 <= i < |pools| :: pools[i].lru
  {
    forall i, j :: 0 <= i < j < |pools| ==> Repr(pools[i]) !! Repr(pools[j])
  }

  lemma OwnParts(p: Pool)
    requires p.Valid()
    ensures forall n :: n in p.lru.list.q ==> n in p.lru.owned
    ensures forall rid :: rid in p.regions ==> p.regions[rid] in p.members
  {
    hide Region.Valid;
    p.lru.QueuedInRepr();
    p.ValidWiring();
  }

  /** A pool nobody wrote to is as it was. */
  twostate lemma StaysPut(q: Pool)
    requires old(q.Valid())
    requires old(forall n :: n in q.lru.list.q ==> n in q.lru.owned)
    requires old(forall rid :: rid in q.regions ==> q.regions[rid] in q.members)
    requires unchanged(q) && unchanged(q.lru) && unchanged(q.lru.list) && unchanged(q.lru.list.head)
    requires unchanged(q.lru.owned) && unchanged(q.members)
    ensures q.Valid() && q.Abs() == old(q.Abs()) && q.Contents() == old(q.Contents()) && Repr(q) == old(Repr(q))
  {
    hide Pool.Valid, Pool.AbsRegions;
  }

  /** `fault_try_resolve`: pool after pool, each under its own lock. Claims the
      fault exactly when the model does and leaves every pool as the model says;
      declined, it leaves every pool as it was. */
  method FaultTryResolve(pools: seq<Pool>, addr: nat, ghost ps: seq<Cache>) returns (ours: bool)
    requires Separate(pools) && |ps| == |pools| && PoolsOk(ps)
    requires forall i :: 0 <= i < |pools| ==> pools[i].Valid() && pools[i].Abs() == ps[i]
    modifies set i, o | 0 <= i < |pools| && o in Repr(pools[i]) :: o
    ensures ours == TryResolve(ps, addr).1
    ensures forall i :: 0 <= i < |pools| ==> pools[i].Valid() && pools[i].Abs() == TryResolve(ps, addr).0[i]
    ensures ours ==> Readable(TryResolve(ps, addr).0, addr)
  {
    hide Pool.Valid, TryOne, PoolsOk;
    var i := 0;
    while i < |pools|
      invariant 0 <= i <= |pools| && Separate(pools)
      invariant forall j :: 0 <= j < |pools| ==> pools[j].Valid() && pools[j].Abs() == ps[j]
      invariant forall j :: 0 <= j < |pools| ==> Repr(pools[j]) == old(Repr(pools[j]))
      invariant TryResolve(ps, addr) == TryFrom(ps, addr, i)
    {
      ApartOne(ps, i);
      ours := TryAt(pools, i, addr, ps);
      if ours {
        ClaimedIsReadable(ps, addr);
        return;
      }
      DeclinedKeeps(ps[i], addr);
      assert ps[i := ps[i]] == ps;
      i := i + 1;
    }
    return false;
  }

  lemma DeclinedKeeps(s: Cache, addr: nat)
    ensures !TryOne(s, addr).1 ==> TryOne(s, addr).0 == s
  {
  }

  lemma ApartOne(ps: seq<Cache>, i: nat)
    requires PoolsOk(ps) && i < |ps|
    ensures Apart(ps[i])
  {
  }

  /** One pool's turn: the others do not notice. */
  method TryAt(pools: seq<Pool>, i: nat, addr: nat, ghost ps: seq<Cache>) returns (ours: bool)
    requires Separate(pools) && |ps| == |pools| && i < |pools| && Apart(ps[i])
    requires forall j :: 0 <= j < |pools| ==> pools[j].Valid() && pools[j].Abs() == ps[j]
    modifies Repr(pools[i])
    ensures ours == TryOne(ps[i], addr).1
    ensures forall j :: 0 <= j < |pools| ==> pools[j].Valid() && pools[j].Abs() == ps[i := TryOne(ps[i], addr).0][j]
    ensures forall j :: 0 <= j < |pools| ==> Repr(pools[j]) == old(Repr(pools[j]))
  {
    hide Pool.Valid, TryOne, Apart;
    forall j | 0 <= j < |pools|
      ensures forall n :: n in pools[j].lru.list.q ==> n in pools[j].lru.owned
      ensures forall rid :: rid in pools[j].regions ==> pools[j].regions[rid] in pools[j].members
    {
      OwnParts(pools[j]);
    }
    label before:
    ours := pools[i].TryPool(addr);
    forall j | 0 <= j < |pools| && j != i
      ensures pools[j].Valid() && pools[j].Abs() == ps[j] && Repr(pools[j]) == old(Repr(pools[j]))
    {
      var q := pools[j];
      assert old(Repr(q)) !! old(Repr(pools[i]));
      assert forall n :: n in old(q.lru.owned) ==> n in old(Repr(q));
      assert forall r :: r in old(q.members) ==> r in old(Repr(q));
      StaysPut@before(q);
    }
  }
}
