/** A run in which a fault on a shared page leaves the pool over its target with
    an unprotected chunk still resident. */
module SharedBudget {
  import opened Pages
  import opened Layouts
  import opened LruQueues
  import opened CacheModel
  import opened CacheTheorems
  import opened FaultTheorems

  /** Two chunks with a boundary inside the page at `p`, and a one-chunk region:
      the first chunk of the pair and the single chunk fit the target, all three
      chunks do not. */
  ghost predicate Scene(target: nat, pair: Layout, single: Layout, p: nat) {
    && pair.Valid() && pair.N() == 2 && single.Valid() && single.N() == 1
    && pair.ps <= p && Aligned(p, pair.ps) && p < pair.starts[1] < p + pair.ps
    && pair.Size(0) + single.Size(0) <= target < pair.Size(0) + single.Size(0) + pair.Size(1)
  }

  const A: Key := Key(1, 0)
  const B: Key := Key(1, 1)
  const C: Key := Key(2, 0)

  lemma PairGeometry(pair: Layout, p: nat)
    requires pair.Valid() && pair.N() == 2 && pair.ps <= p && Aligned(p, pair.ps) && p < pair.starts[1] < p + pair.ps
    ensures 0 < pair.Mapped() && p < pair.Total() <= pair.Mapped()
    ensures !pair.Shared(0) && pair.Owner(0) == 0
    ensures pair.Shared(p) && FirstOf(pair, p) == 0 && LastOf(pair, p) == 1 && pair.Overlaps(1, p)
  {
    assert pair.starts[1] < pair.starts[2];
    assert pair.Owner(pair.LastByte(p)) == 1;
  }

  lemma SingleGeometry(single: Layout)
    requires single.Valid() && single.N() == 1
    ensures 0 < single.Total() <= single.Mapped() && !single.Shared(0) && single.Owner(0) == 0
  {
  }

  ghost predicate Holding(s: Cache, target: nat, pair: Layout, single: Layout, q: seq<Key>) {
    && Inv(s) && s.target == target && s.queue == q
    && s.regions.Keys == {1, 2} && s.regions[1].l == pair && s.regions[2].l == single
    && |s.regions[1].staged| == 2 && !s.regions[1].staged[1]
  }

  lemma Created(target: nat, pair: Layout, single: Layout)
    requires pair.Valid() && pair.N() == 2 && single.Valid()
    ensures Holding(Apply(Apply(NewCache(target), OpCreate(1, pair)), OpCreate(2, single)), target, pair, single, [])
  {
    var s1 := Apply(NewCache(target), OpCreate(1, pair));
    ApplyInv(NewCache(target), OpCreate(1, pair));
    ApplyInv(s1, OpCreate(2, single));
  }

  /** A first read of an exclusive page at offset 0 puts its chunk in front. */
  lemma FirstRead(s: Cache, target: nat, pair: Layout, single: Layout, k: Key)
    requires Holding(s, target, pair, single, s.queue) && (k == A || k == C) && k !in s.queue
    requires pair.N() == 2 && single.N() == 1 && target > 0
    requires var l := s.regions[k.rid].l; l.Valid() && 0 < l.Total() <= l.Mapped() && !l.Shared(0) && l.Owner(0) == 0
    requires Bytes(s.regions, [k] + s.queue) <= target
    ensures Holding(Apply(s, OpTouch(k.rid, 0)), target, pair, single, [k] + s.queue)
  {
    hide Resolve, Inv, Apply;
    ApplyInv(s, OpTouch(k.rid, 0));
    TouchFirst(s, k);
    ExclusiveFits(s, k.rid, 0);
    FilledFirst(s, k);
  }

  lemma TouchFirst(s: Cache, k: Key)
    requires Inv(s) && k.rid in s.regions && k.chunk == 0 && k !in s.queue
    requires var l := s.regions[k.rid].l; l.Valid() && 0 < l.Total() <= l.Mapped() && !l.Shared(0) && l.Owner(0) == 0
    ensures Apply(s, OpTouch(k.rid, 0)) == Resolve(s, k.rid, 0)
  {
    hide Resolve, RecencyOrder;
    FloorUnique(0, 0, s.regions[k.rid].l.ps);
  }

  ghost predicate OnlyFirstStaged(r: RegionM, r': RegionM) {
    && r'.l == r.l && |r'.staged| == |r.staged|
    && forall c :: 0 < c < |r'.staged| ==> r'.staged[c] == r.staged[c]
  }

  lemma FilledFirst(s: Cache, k: Key)
    requires Inv(s) && k.rid in s.regions && k.chunk == 0 && s.regions[k.rid].l.Valid()
    ensures RegionsOk(s) && Live(s, k)
    ensures var rs := Handled(Fill(s, k), k.rid).regions;
            && rs.Keys == s.regions.Keys
            && forall r :: r in rs ==> OnlyFirstStaged(s.regions[r], rs[r])
  {
  }

  ghost function Prepared(target: nat, pair: Layout, single: Layout): Cache {
    Apply(Apply(Apply(Apply(NewCache(target), OpCreate(1, pair)), OpCreate(2, single)), OpTouch(1, 0)), OpTouch(2, 0))
  }

  lemma SceneSizes(s: Cache, target: nat, pair: Layout, single: Layout, p: nat)
    requires Scene(target, pair, single, p) && Holding(s, target, pair, single, s.queue)
    ensures Bytes(s.regions, [A]) <= target && Bytes(s.regions, [C, A]) <= target < Bytes(s.regions, [B, C, A])
  {
    hide Inv;
    assert [B, C, A][1..] == [C, A] && [C, A][1..] == [A] && [A][1..] == [];
  }

  lemma PreparedHolds(target: nat, pair: Layout, single: Layout, p: nat)
    requires Scene(target, pair, single, p)
    ensures Holding(Prepared(target, pair, single), target, pair, single, [C, A])
  {
    hide Apply, Inv, Scene;
    var s0 := Apply(Apply(NewCache(target), OpCreate(1, pair)), OpCreate(2, single));
    SceneGeometry(target, pair, single, p);
    Created(target, pair, single);
    SceneSizes(s0, target, pair, single, p);
    assert [A] + [] == [A];
    FirstRead(s0, target, pair, single, A);
    var s1 := Apply(s0, OpTouch(1, 0));
    SceneSizes(s1, target, pair, single, p);
    assert [C] + [A] == [C, A];
    FirstRead(s1, target, pair, single, C);
  }

  lemma SceneGeometry(target: nat, pair: Layout, single: Layout, p: nat)
    requires Scene(target, pair, single, p)
    ensures target > 0 && pair.Valid() && pair.N() == 2 && single.Valid() && single.N() == 1 && Aligned(p, pair.ps)
    ensures 0 < pair.Total() <= pair.Mapped() && p < pair.Total() && !pair.Shared(0) && pair.Owner(0) == 0
    ensures 0 < single.Total() <= single.Mapped() && !single.Shared(0) && single.Owner(0) == 0
    ensures pair.Shared(p) && FirstOf(pair, p) == 0 && LastOf(pair, p) == 1 && pair.Overlaps(1, p)
  {
    PairGeometry(pair, p);
    SingleGeometry(single);
  }

  lemma OnlyBMissing()
    ensures Missing([C, A], 1, 0, 1) == [B]
  {
    assert Missing([C, A], 1, 2, 1) == [];
    assert Missing([C, A], 1, 1, 1) == [] + [B];
  }

  /** For every such scene, reading one byte of each region and then the shared
      page leaves the pool over its target, although the single chunk is resident
      and has nothing to do with that page: the resident contributor `A` was not
      moved to the front, and eviction stops at it. */
  lemma SharedFaultEndsOverTarget(target: nat, pair: Layout, single: Layout, p: nat)
    requires Scene(target, pair, single, p)
    ensures var s := Prepared(target, pair, single);
            var s' := Apply(s, OpTouch(1, p));
            && Resident(s) <= target && s.queue == [C, A]
            && Resident(s') > target && s'.queue == [B, C, A]
  {
    hide Apply, Inv, Scene, Resolve, Missing;
    var s := Prepared(target, pair, single);
    PreparedHolds(target, pair, single, p);
    SceneGeometry(target, pair, single, p);
    SceneSizes(s, target, pair, single, p);
    OnlyBMissing();
    TouchShared(s, pair, p);
    assert [C, A][..2] == [C, A];
    assert LastContributor(s.queue, 1, 0, 1, 2);
    BudgetAfterSharedFault(s, 1, p, 2);
    assert [B] + [C, A] == [B, C, A];
  }

  lemma TouchShared(s: Cache, pair: Layout, p: nat)
    requires Inv(s) && 1 in s.regions && s.regions[1].l == pair && pair.Valid() && pair.N() == 2
    requires Aligned(p, pair.ps) && p < pair.Total() && pair.Shared(p) && pair.Overlaps(1, p)
    requires |s.regions[1].staged| == 2 && !s.regions[1].staged[1]
    ensures Apply(s, OpTouch(1, p)) == Resolve(s, 1, p)
  {
    hide Resolve;
    FloorUnique(p, p, pair.ps);
    assert p < pair.Mapped();
  }
}
