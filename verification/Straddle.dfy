/** An access that straddles two chunks needs both readable at once. When a
    bounded pool can do that, and when it never will. */
module Straddles {
  import opened Pages
  import opened Layouts
  import opened LruQueues
  import opened CacheModel
  import opened CacheTheorems
  import opened FaultTheorems

  /** The page at `page` of region `k.rid` belongs to chunk `k` alone. */
  ghost predicate Owns(s: Cache, k: Key, page: nat) {
    && k.rid in s.regions && s.regions[k.rid].l.Valid()
    && page < s.regions[k.rid].l.Total()
    && !s.regions[k.rid].l.Shared(page) && s.regions[k.rid].l.Owner(page) == k.chunk
  }

  /** Faulting `b` right after `a` puts them at the front, both readable so far. */
  lemma SecondBehindFirst(s: Cache, a: Key, b: Key, page: nat)
    requires Inv(s) && Owns(s, b, page) && a != b
    requires s.queue != [] && s.queue[0] == a && s.hot > 0
    requires !PageReadable(s, b.rid, page)
    ensures var s' := BringIn(s, b.rid, page);
            |s'.queue| >= 2 && s'.queue[0] == b && s'.queue[1] == a && s'.hot >= 2
    ensures forall k :: k in s.queue || k == b ==> SizeOf(BringIn(s, b.rid, page).regions, k) == SizeOf(s.regions, k)
  {
    assert forall i :: 0 <= i < s.hot ==> s.queue[..s.hot][i] == s.queue[i];
  }

  lemma TwoBytes(rs: map<nat, RegionM>, q: seq<Key>)
    requires |q| >= 2
    ensures Bytes(rs, q[..2]) == SizeOf(rs, q[0]) + SizeOf(rs, q[1])
  {
    assert q[..2] == [q[0], q[1]];
    assert Bytes(rs, [q[1]]) == SizeOf(rs, q[1]);
    assert [q[0], q[1]][1..] == [q[1]];
  }

  /** Some prefix of `q`, from its second chunk on, fits the target and is at
      least twice as big as its first two chunks. */
  ghost predicate RoomForTwo(rs: map<nat, RegionM>, q: seq<Key>, target: nat) {
    && |q| >= 2
    && exists n: nat :: 2 <= n <= |q| && 2 * (SizeOf(rs, q[0]) + SizeOf(rs, q[1])) <= Bytes(rs, q[..n]) <= target
  }

  /** Which of the two front chunks eviction and rebalancing leave readable. */
  lemma SecondSurvives(s: Cache, b: Key)
    requires s.hot <= |s.queue| && s.target > 0 && Distinct(s.queue)
    requires |s.queue| >= 2 && s.queue[0] == b && s.hot >= 2
    ensures var s' := Rebalance(Evict(s, b.rid, b.chunk, b.chunk));
            var two := SizeOf(s.regions, b) + SizeOf(s.regions, s.queue[1]);
            && (s.queue[1] in s'.queue <==> two <= s.target)
            && (s.queue[1] in s'.queue[..s'.hot] <==> two <= s.target && two <= Resident(s') / 2)
            && (s.queue[1] in s'.queue[..s'.hot] <==> RoomForTwo(s.regions, s.queue, s.target))
  {
    var n, h := SettleShape(s, b.rid, b.chunk, b.chunk);
    SecondReadable(s, b, n, h);
    RoomExactly(s, b, n);
  }

  lemma SecondReadable(s: Cache, b: Key, n: nat, h: nat)
    requires s.hot <= |s.queue| && s.target > 0 && Distinct(s.queue)
    requires |s.queue| >= 2 && s.queue[0] == b && s.hot >= 2
    requires EvictsTo(s, b.rid, b.chunk, b.chunk, n)
    requires BalancesTo(s.(queue := s.queue[..n], hot := Min(s.hot, n)), h)
    ensures var s' := s.(queue := s.queue[..n], hot := h);
            var two := SizeOf(s.regions, b) + SizeOf(s.regions, s.queue[1]);
            && (s.queue[1] in s'.queue <==> two <= s.target)
            && (s.queue[1] in s'.queue[..s'.hot] <==> two <= s.target && two <= Resident(s') / 2)
  {
    TwoBytes(s.regions, s.queue);
    var a := s.queue[1];
    var s' := s.(queue := s.queue[..n], hot := h);
    if n >= 2 {
      BytesMonotone(s.regions, s.queue, 2, n);
      assert s'.queue[1] == a;
      assert s'.queue[..2] == s.queue[..2];
      if h >= 2 {
        BytesMonotone(s.regions, s'.queue, 2, h);
        assert s'.queue[..h][1] == a;
      }
    }
  }

  /** There is room for two exactly if the queue that eviction leaves has it. */
  lemma RoomExactly(s: Cache, b: Key, n: nat)
    requires s.target > 0 && Distinct(s.queue) && |s.queue| >= 2 && s.queue[0] == b
    requires EvictsTo(s, b.rid, b.chunk, b.chunk, n)
    ensures var two := SizeOf(s.regions, b) + SizeOf(s.regions, s.queue[1]);
            RoomForTwo(s.regions, s.queue, s.target) <==> two <= s.target && two <= Bytes(s.regions, s.queue[..n]) / 2
  {
    var two := SizeOf(s.regions, b) + SizeOf(s.regions, s.queue[1]);
    TwoBytes(s.regions, s.queue);
    if RoomForTwo(s.regions, s.queue, s.target) {
      var m: nat :| 2 <= m <= |s.queue| && 2 * two <= Bytes(s.regions, s.queue[..m]) <= s.target;
      BytesMonotone(s.regions, s.queue, m, n);
    }
    if two <= s.target && two <= Bytes(s.regions, s.queue[..n]) / 2 {
      assert n >= 2;
      assert s.queue[n - 1] != b;
      assert Bytes(s.regions, s.queue[..n]) <= s.target;
    }
  }

  /** After the fault on `a`, the page of `b` is its own and cannot be read. */
  ghost predicate OtherUnreadable(s: Cache, a: Key, b: Key, pa: nat, pb: nat)
    requires Inv(s) && Owns(s, a, pa)
  {
    ResolveInv(s, a.rid, pa);
    var s1 := Resolve(s, a.rid, pa);
    Owns(s1, b, pb) && !PageReadable(s1, b.rid, pb)
  }

  /** The queue once `b` has been brought to its front. */
  ghost function Fronted(q: seq<Key>, b: Key): seq<Key> {
    if b in q then [b] + Without(q, IndexOf(q, b)) else [b] + q
  }

  /** Straddling access: after faulting `a` and then `b`, the page of `a` is
      still readable exactly when, with `b` in front, some prefix of the queue
      fits the target and is twice as big as the two chunks together; that is,
      when `a` was not evicted and both fit in half of what stays resident. */
  lemma StraddleCriterion(s: Cache, a: Key, b: Key, pa: nat, pb: nat)
    requires Inv(s) && s.target > 0 && a != b && Owns(s, a, pa) && OtherUnreadable(s, a, b, pa, pb)
    ensures var s1 := Resolve(s, a.rid, pa);
            && Inv(s1) && Owns(s1, b, pb)
            && var s2 := Resolve(s1, b.rid, pb);
               var two := SizeOf(s1.regions, a) + SizeOf(s1.regions, b);
               && Inv(s2) && a.rid in s2.regions
               && (a in s2.queue <==> two <= s.target)
               && (PageReadable(s2, a.rid, pa) <==> RoomForTwo(s1.regions, Fronted(s1.queue, b), s.target))
               && (PageReadable(s2, a.rid, pa) <==> a in s2.queue && two <= Resident(s2) / 2)
  {
    ResolveReadableExclusive(s, a.rid, pa);
    var s1 := Resolve(s, a.rid, pa);
    ResolveTarget(s, a.rid, pa);
    StraddleSecond(s1, a, b, pa, pb);
  }

  lemma ResolveTarget(s: Cache, rid: nat, page: nat)
    requires Inv(s) && rid in s.regions && page < s.regions[rid].l.Total()
    ensures Resolve(s, rid, page).target == s.target
  {
    var l := s.regions[rid].l;
    BringInTarget(s, rid, page);
    SettleKeeps(BringIn(s, rid, page), rid, FirstOf(l, page), LastOf(l, page));
  }

  lemma StraddleSecond(s1: Cache, a: Key, b: Key, pa: nat, pb: nat)
    requires Inv(s1) && s1.target > 0 && a != b && Owns(s1, a, pa) && Owns(s1, b, pb)
    requires s1.queue != [] && s1.queue[0] == a && s1.hot > 0
    requires !PageReadable(s1, b.rid, pb)
    ensures var s2 := Resolve(s1, b.rid, pb);
            var two := SizeOf(s1.regions, a) + SizeOf(s1.regions, b);
            && Inv(s2) && a.rid in s2.regions
            && (a in s2.queue <==> two <= s1.target)
            && (PageReadable(s2, a.rid, pa) <==> RoomForTwo(s1.regions, Fronted(s1.queue, b), s1.target))
            && (PageReadable(s2, a.rid, pa) <==> a in s2.queue && two <= Resident(s2) / 2)
  {
    ResolveInv(s1, b.rid, pb);
    BringInInv(s1, b.rid, pb);
    BringInTarget(s1, b.rid, pb);
    BringInExclusive(s1, b.rid, pb);
    SecondBehindFirst(s1, a, b, pb);
    var t := BringIn(s1, b.rid, pb);
    SecondSurvives(t, b);
    SettleKeeps(t, b.rid, b.chunk, b.chunk);
    var t2 := Rebalance(Evict(t, b.rid, b.chunk, b.chunk));
    HandledBytes(t2, b.rid, t2.queue);
    RoomSame(s1, b, pb);
  }

  lemma RoomSame(s: Cache, b: Key, pb: nat)
    requires Inv(s) && Owns(s, b, pb)
    ensures var t := BringIn(s, b.rid, pb);
            && t.queue == Fronted(s.queue, b)
            && forall n: nat :: n <= |t.queue| ==> Bytes(t.regions, t.queue[..n]) == Bytes(s.regions, t.queue[..n])
  {
    var t := BringIn(s, b.rid, pb);
    BringInLayouts(s, b.rid, pb);
    forall n: nat | n <= |t.queue|
      ensures Bytes(t.regions, t.queue[..n]) == Bytes(s.regions, t.queue[..n])
    {
      BytesSame(t.regions, s.regions, t.queue[..n]);
    }
  }

  // ------------------------------------------------------ endless alternation

  /** The page of `b`, then of `a`, then of `b` again: the next `n` reads of
      this alternation all fault. */
  ghost predicate NextReadsFault(s: Cache, a: Key, b: Key, pa: nat, pb: nat, n: nat)
    decreases n
  {
    n == 0 || (Faults(s, b.rid, pb) && NextReadsFault(Touch(s, b.rid, pb), b, a, pb, pa, n - 1))
  }

  /** Only the chunks `x` and `y` are resident, and only `x` is readable. */
  ghost predicate OnlyFirstReadable(s: Cache, x: Key, y: Key, px: nat, py: nat) {
    && Inv(s) && s.queue == [x, y] && s.hot == 1 && x != y
    && Owns(s, x, px) && Owns(s, y, py)
    && Aligned(px, s.regions[x.rid].l.ps) && Aligned(py, s.regions[y.rid].l.ps)
    && Resident(s) <= s.target
  }

  lemma HiddenFaults(s: Cache, x: Key, y: Key, px: nat, py: nat)
    requires OnlyFirstReadable(s, x, y, px, py)
    ensures Faults(s, y.rid, py) && PageFloor(py, s.regions[y.rid].l.ps) == py
  {
    var l := s.regions[y.rid].l;
    FloorUnique(py, py, l.ps);
    PageBelowMapped(l, py);
    assert s.queue[..1] == [x];
  }

  lemma SwapResolve(s: Cache, x: Key, y: Key, px: nat, py: nat)
    requires OnlyFirstReadable(s, x, y, px, py) && s.target > 0
    ensures Resolve(s, y.rid, py) == Handled(Promote(s, y).(hot := 1), y.rid)
    ensures Promote(s, y).queue == [y, x] && Resident(Promote(s, y)) == Resident(s)
  {
    SwapQueue(s, x, y);
    var s1 := Promote(s, y);
    assert BringIn(s, y.rid, py) == s1;
    assert SizeOf(s1.regions, y) == s.regions[y.rid].l.Size(y.chunk);
    SwapSettles(s1, y, x);
  }

  lemma HandledOwns(s: Cache, rid: nat, k: Key, p: nat)
    requires RegionsOk(s) && Owns(s, k, p)
    ensures Owns(Handled(s, rid), k, p) && Handled(s, rid).regions[k.rid].l == s.regions[k.rid].l
  {
  }

  lemma PromoteOwns(s: Cache, y: Key, k: Key, p: nat)
    requires RegionsOk(s) && Live(s, y) && y in s.queue && s.hot <= |s.queue| && Owns(s, k, p)
    ensures Owns(Promote(s, y), k, p) && Promote(s, y).regions[k.rid].l == s.regions[k.rid].l
  {
  }

  /** Reading the hidden one of two resident chunks hides the other one. */
  lemma Swap(s: Cache, x: Key, y: Key, px: nat, py: nat)
    requires OnlyFirstReadable(s, x, y, px, py) && s.target > 0
    ensures Faults(s, y.rid, py)
    ensures OnlyFirstReadable(Touch(s, y.rid, py), y, x, py, px)
    ensures Touch(s, y.rid, py).target == s.target
  {
    HiddenFaults(s, x, y, px, py);
    SwapResolve(s, x, y, px, py);
    ResolveInv(s, y.rid, py);
    var s1 := Promote(s, y).(hot := 1);
    PromoteInv(s, y);
    PromoteOwns(s, y, x, px);
    PromoteOwns(s, y, y, py);
    HandledOwns(s1, y.rid, x, px);
    HandledOwns(s1, y.rid, y, py);
    HandledBytes(s1, y.rid, s1.queue);
  }

  lemma PageBelowMapped(l: Layout, p: nat)
    requires l.Valid() && p < l.Total()
    ensures p < l.Mapped()
  {
  }

  lemma SwapQueue(s: Cache, x: Key, y: Key)
    requires s.queue == [x, y] && x != y && RegionsOk(s) && Live(s, y) && s.hot == 1
    ensures Promote(s, y).queue == [y, x] && Promote(s, y).hot == 2 && Promote(s, y).target == s.target
    ensures Bytes(Promote(s, y).regions, [y, x]) == Bytes(s.regions, [x, y])
  {
    assert IndexOf(s.queue, y) == 1;
    var rs := Promote(s, y).regions;
    TwoBytes(rs, [y, x]);
    TwoBytes(s.regions, [x, y]);
    assert [y, x][..2] == [y, x] && [x, y][..2] == [x, y];
  }

  lemma SwapSettles(s: Cache, y: Key, x: Key)
    requires s.queue == [y, x] && s.hot == 2 && s.target > 0 && Resident(s) <= s.target
    requires SizeOf(s.regions, y) + SizeOf(s.regions, x) > 0
    ensures Rebalance(Evict(s, y.rid, y.chunk, y.chunk)) == s.(hot := 1)
  {
    TwoBytes(s.regions, s.queue);
    assert s.queue[..2] == s.queue;
  }

  /** With only two chunks resident, a straddling access never settles: however
      long the two pages are read in turn, every read faults. */
  lemma {:induction false} AlternatesForever(s: Cache, a: Key, b: Key, pa: nat, pb: nat, n: nat)
    requires OnlyFirstReadable(s, a, b, pa, pb) && s.target > 0
    ensures NextReadsFault(s, a, b, pa, pb, n)
    decreases n
  {
    hide Touch, Faults, OnlyFirstReadable;
    if n > 0 {
      Swap(s, a, b, pa, pb);
      var s' := Touch(s, b.rid, pb);
      AlternatesForever(s', b, a, pb, pa, n - 1);
      OneMoreRead(s, s', a, b, pa, pb, n);
    }
  }

  lemma NoMoreReads(s: Cache, a: Key, b: Key, pa: nat, pb: nat)
    ensures NextReadsFault(s, a, b, pa, pb, 0)
  {
  }

  lemma OneMoreRead(s: Cache, s': Cache, a: Key, b: Key, pa: nat, pb: nat, n: nat)
    requires n > 0 && Faults(s, b.rid, pb) && s' == Touch(s, b.rid, pb)
    requires NextReadsFault(s', b, a, pb, pa, n - 1)
    ensures NextReadsFault(s, a, b, pa, pb, n)
  {
  }

  /** Reading `a` and then `b` with nothing else resident, both fitting the
      target, leaves only `b` readable. */
  lemma FirstPair(s: Cache, a: Key, b: Key, pa: nat, pb: nat)
    requires Inv(s) && s.queue == [] && a != b && SizeOf(s.regions, a) + SizeOf(s.regions, b) <= s.target
    requires Owns(s, a, pa) && Aligned(pa, s.regions[a.rid].l.ps)
    requires Owns(s, b, pb) && Aligned(pb, s.regions[b.rid].l.ps)
    ensures var s1 := Touch(s, a.rid, pa);
            var s2 := Touch(s1, b.rid, pb);
            && Faults(s, a.rid, pa) && Faults(s1, b.rid, pb)
            && OnlyFirstReadable(s2, b, a, pb, pa) && s2.target > 0
  {
    hide Inv, Touch, Faults, Resolve, OnlyFirstReadable, Owns, Bytes, SizeOf, Layout.Valid;
    var s1, s2 := Touch(s, a.rid, pa), Touch(Touch(s, a.rid, pa), b.rid, pb);
    assert Bytes(s.regions, [a] + []) == SizeOf(s.regions, a) > 0 by {
      OneByte(s, a, pa);
    }
    FirstTouch(s, a, pa);
    KeepsOwner(s, s1, a, pa);
    KeepsOwner(s, s1, b, pb);
    assert s1.queue == [a];
    PairBytes(s1.regions, a, b);
    FirstTouch(s1, b, pb);
    KeepsOwner(s1, s2, a, pa);
    KeepsOwner(s1, s2, b, pb);
    assert [b] + [a] == [b, a];
    FrontOnly(s1, s2, a, b, pa, pb);
  }

  lemma PairBytes(rs: map<nat, RegionM>, a: Key, b: Key)
    ensures Bytes(rs, [b] + [a]) == SizeOf(rs, b) + SizeOf(rs, a)
  {
    TwoBytes(rs, [b, a]);
    assert [b, a][..2] == [b, a] == [b] + [a];
  }

  lemma OneByte(s: Cache, a: Key, pa: nat)
    requires Owns(s, a, pa)
    ensures a.rid in s.regions && Bytes(s.regions, [a] + []) == SizeOf(s.regions, a) > 0
  {
    assert ([a] + [])[1..] == [];
    assert SizeOf(s.regions, a) == s.regions[a.rid].l.Size(a.chunk);
  }

  /** A read of a chunk that is not resident, with room for it. */
  lemma FirstTouch(s: Cache, k: Key, p: nat)
    requires Inv(s) && s.target > 0 && Owns(s, k, p) && Aligned(p, s.regions[k.rid].l.ps)
    requires k !in s.queue && Bytes(s.regions, [k] + s.queue) <= s.target
    ensures var s' := Touch(s, k.rid, p);
            && Faults(s, k.rid, p) && Inv(s') && s'.queue == [k] + s.queue && s'.target == s.target && s'.hot > 0
            && s'.regions.Keys == s.regions.Keys && (forall r :: r in s.regions ==> s'.regions[r].l == s.regions[r].l)
            && (HotBytes(s') <= Resident(s') / 2 || s'.hot == 1)
  {
    var l := s.regions[k.rid].l;
    FloorUnique(p, p, l.ps);
    PageBelowMapped(l, p);
    hide Resolve, Evict, Rebalance, RecencyOrder;
    ExclusiveFits(s, k.rid, p);
    ResolveReadableExclusive(s, k.rid, p);
    MidpointAfterFault(s, k.rid, p);
  }

  lemma KeepsOwner(s: Cache, s': Cache, k: Key, p: nat)
    requires Owns(s, k, p) && s'.regions.Keys == s.regions.Keys
    requires forall r :: r in s.regions ==> s'.regions[r].l == s.regions[r].l
    ensures Owns(s', k, p) && SizeOf(s'.regions, k) == SizeOf(s.regions, k)
  {
  }

  lemma FrontOnly(s1: Cache, s2: Cache, a: Key, b: Key, pa: nat, pb: nat)
    requires Inv(s2) && s2.queue == [b, a] && a != b && s2.hot > 0 && (HotBytes(s2) <= Resident(s2) / 2 || s2.hot == 1)
    requires Owns(s2, a, pa) && Aligned(pa, s2.regions[a.rid].l.ps)
    requires Owns(s2, b, pb) && Aligned(pb, s2.regions[b.rid].l.ps)
    requires SizeOf(s2.regions, a) + SizeOf(s2.regions, b) <= s2.target
    ensures OnlyFirstReadable(s2, b, a, pb, pa)
  {
    TwoBytes(s2.regions, s2.queue);
    assert s2.queue[..2] == s2.queue;
    OneByte(s2, a, pa);
  }

  // ------------------------------------------- pairs that do not fit together

  /** Only chunk `x` is resident, and `y` does not fit beside it. */
  ghost predicate OnlyOne(s: Cache, x: Key, y: Key, px: nat, py: nat) {
    && Inv(s) && s.queue == [x] && s.hot == 1 && x != y
    && Owns(s, x, px) && Owns(s, y, py)
    && Aligned(px, s.regions[x.rid].l.ps) && Aligned(py, s.regions[y.rid].l.ps)
    && s.target > 0 && SizeOf(s.regions, x) + SizeOf(s.regions, y) > s.target
  }

  /** A fault on a chunk that is not resident puts it in front of what eviction
      keeps of the queue. */
  lemma MissedFront(s: Cache, k: Key, p: nat) returns (n: nat)
    requires Inv(s) && s.target > 0 && Owns(s, k, p) && Aligned(p, s.regions[k.rid].l.ps) && k !in s.queue
    ensures 0 < n <= |s.queue| + 1
    ensures Bytes(s.regions, ([k] + s.queue)[..n]) <= s.target
            || Protected(([k] + s.queue)[n - 1], k.rid, k.chunk, k.chunk)
    ensures var s' := Touch(s, k.rid, p);
            && Faults(s, k.rid, p) && Inv(s') && s'.queue == ([k] + s.queue)[..n] && s'.target == s.target
            && 0 < s'.hot <= n
            && s'.regions.Keys == s.regions.Keys && (forall r :: r in s.regions ==> s'.regions[r].l == s.regions[r].l)
  {
    FaultsMissing(s, k, p);
    hide Touch, Faults, Evict, Rebalance, Resolve, BringIn, Handled, RecencyOrder, Layout.Shared, Layout.Owner, Aligned,
         BalancesTo, Bytes, SizeOf, Staged, PageReadable, Layout.Valid, CacheModel.RegionOk;
    ResolveReadableExclusive(s, k.rid, p);
    BringInLayouts(s, k.rid, p);
    var s1 := BringIn(s, k.rid, p);
    MissedQueue(s, k, p);
    var h;
    n, h := SettleShape(s1, k.rid, k.chunk, k.chunk);
    HandledShape(s1.(queue := s1.queue[..n], hot := h), k.rid);
    BytesOfLayouts(s, s1, ([k] + s.queue)[..n]);
  }

  lemma BytesOfLayouts(s: Cache, s': Cache, q: seq<Key>)
    requires s'.regions.Keys == s.regions.Keys && forall r :: r in s.regions ==> s'.regions[r].l == s.regions[r].l
    ensures Bytes(s'.regions, q) == Bytes(s.regions, q)
  {
    BytesSame(s'.regions, s.regions, q);
  }

  lemma HandledShape(s: Cache, rid: nat)
    ensures var s' := Handled(s, rid);
            && s'.queue == s.queue && s'.hot == s.hot && s'.target == s.target && s'.regions.Keys == s.regions.Keys
            && forall r :: r in s.regions ==> s'.regions[r].l == s.regions[r].l
  {
  }

  lemma MissedQueue(s: Cache, k: Key, p: nat)
    requires Inv(s) && Owns(s, k, p) && k !in s.queue
    ensures var s1 := BringIn(s, k.rid, p);
            && s1.queue == [k] + s.queue && s1.target == s.target
            && Resolve(s, k.rid, p) == Handled(Rebalance(Evict(s1, k.rid, k.chunk, k.chunk)), k.rid)
  {
    hide Evict, Rebalance, RecencyOrder;
  }

  lemma FaultsMissing(s: Cache, k: Key, p: nat)
    requires Inv(s) && Owns(s, k, p) && Aligned(p, s.regions[k.rid].l.ps) && k !in s.queue
    ensures Faults(s, k.rid, p) && Touch(s, k.rid, p) == Resolve(s, k.rid, p)
  {
    var l := s.regions[k.rid].l;
    FloorUnique(p, p, l.ps);
    PageBelowMapped(l, p);
    hide Resolve, RecencyOrder;
  }

  /** Reading `y` throws `x` out. */
  lemma Replace(s: Cache, x: Key, y: Key, px: nat, py: nat)
    requires OnlyOne(s, x, y, px, py)
    ensures Faults(s, y.rid, py) && OnlyOne(Touch(s, y.rid, py), y, x, py, px)
  {
    hide Inv, Touch, Faults, Owns, Bytes, SizeOf, Layout.Valid;
    var n := MissedFront(s, y, py);
    var s' := Touch(s, y.rid, py);
    KeepsOwner(s, s', x, px);
    KeepsOwner(s, s', y, py);
    assert [y] + [x] == [y, x];
    if n == 2 {
      assert [y, x][..2] == [y] + [x];
      PairBytes(s.regions, x, y);
    }
    assert [y, x][..1] == [y];
    OwnsLayout(s, y, py);
    OwnsLayout(s, x, px);
  }

  lemma OwnsLayout(s: Cache, k: Key, p: nat)
    requires Owns(s, k, p)
    ensures k.rid in s.regions
  {
  }

  lemma {:induction false} ReplacesForever(s: Cache, x: Key, y: Key, px: nat, py: nat, n: nat)
    requires OnlyOne(s, x, y, px, py)
    ensures NextReadsFault(s, x, y, px, py, n)
    decreases n
  {
    hide Touch, Faults, OnlyOne;
    if n > 0 {
      Replace(s, x, y, px, py);
      var s' := Touch(s, y.rid, py);
      ReplacesForever(s', y, x, py, px, n - 1);
      OneMoreRead(s, s', x, y, px, py, n);
    }
  }

  /** The first read of such a pair. */
  lemma FirstOfPair(s: Cache, a: Key, b: Key, pa: nat, pb: nat)
    requires Inv(s) && s.queue == [] && a != b && s.target > 0 && SizeOf(s.regions, a) + SizeOf(s.regions, b) > s.target
    requires Owns(s, a, pa) && Aligned(pa, s.regions[a.rid].l.ps)
    requires Owns(s, b, pb) && Aligned(pb, s.regions[b.rid].l.ps)
    ensures Faults(s, a.rid, pa) && OnlyOne(Touch(s, a.rid, pa), a, b, pa, pb)
  {
    hide Inv, Touch, Faults, Owns, Bytes, SizeOf, Layout.Valid;
    var n := MissedFront(s, a, pa);
    var s' := Touch(s, a.rid, pa);
    KeepsOwner(s, s', a, pa);
    KeepsOwner(s, s', b, pb);
    assert ([a] + [])[..1] == [a];
    OwnsLayout(s, a, pa);
    OwnsLayout(s, b, pb);
  }

  // ------------------------------------------------------------ from the start

  /** From a new pool, for ever: two chunks of one region, of any sizes, with a
      page of their own each. In a bounded pool, read in turn with nothing else
      resident, every read faults. */
  lemma AlternatesFromStart(target: nat, rid: nat, l: Layout, c: nat, d: nat, pc: nat, pd: nat, n: nat)
    requires l.Valid() && c != d && pc < l.Total() && pd < l.Total() && Aligned(pc, l.ps) && Aligned(pd, l.ps)
    requires !l.Shared(pc) && l.Owner(pc) == c && !l.Shared(pd) && l.Owner(pd) == d
    requires target > 0
    ensures NextReadsFault(Apply(NewCache(target), OpCreate(rid, l)), Key(rid, d), Key(rid, c), pd, pc, n)
  {
    hide Touch, Faults, OnlyFirstReadable, OnlyOne, Apply, Inv, Owns, NewCache, NextReadsFault, SizeOf;
    var s := Apply(NewCache(target), OpCreate(rid, l));
    var a, b := Key(rid, c), Key(rid, d);
    CreatedOwns(target, rid, l, c, pc);
    CreatedOwns(target, rid, l, d, pd);
    if l.Size(c) + l.Size(d) <= target {
      FittingFromStart(s, a, b, pc, pd, n);
    } else {
      OverfullFromStart(s, a, b, pc, pd, n);
    }
  }

  lemma FittingFromStart(s: Cache, a: Key, b: Key, pa: nat, pb: nat, n: nat)
    requires Inv(s) && s.queue == [] && a != b && SizeOf(s.regions, a) + SizeOf(s.regions, b) <= s.target
    requires Owns(s, a, pa) && Aligned(pa, s.regions[a.rid].l.ps)
    requires Owns(s, b, pb) && Aligned(pb, s.regions[b.rid].l.ps)
    ensures NextReadsFault(s, b, a, pb, pa, n)
  {
    hide Touch, Faults, OnlyFirstReadable, Inv, Owns, NextReadsFault, SizeOf;
    FirstPair(s, a, b, pa, pb);
    var s1, s2 := Touch(s, a.rid, pa), Touch(Touch(s, a.rid, pa), b.rid, pb);
    NoMoreReads(s, b, a, pb, pa);
    NoMoreReads(s1, a, b, pa, pb);
    if n >= 2 {
      AlternatesForever(s2, b, a, pb, pa, n - 2);
      OneMoreRead(s1, s2, a, b, pa, pb, n - 1);
    }
    if n > 0 {
      OneMoreRead(s, s1, b, a, pb, pa, n);
    }
  }

  lemma OverfullFromStart(s: Cache, a: Key, b: Key, pa: nat, pb: nat, n: nat)
    requires Inv(s) && s.queue == [] && a != b && s.target > 0 && SizeOf(s.regions, a) + SizeOf(s.regions, b) > s.target
    requires Owns(s, a, pa) && Aligned(pa, s.regions[a.rid].l.ps)
    requires Owns(s, b, pb) && Aligned(pb, s.regions[b.rid].l.ps)
    ensures NextReadsFault(s, b, a, pb, pa, n)
  {
    hide Touch, Faults, OnlyOne, Inv, Owns, NextReadsFault, SizeOf;
    FirstOfPair(s, a, b, pa, pb);
    NoMoreReads(s, b, a, pb, pa);
    if n > 0 {
      ReplacesForever(Touch(s, a.rid, pa), a, b, pa, pb, n - 1);
      OneMoreRead(s, Touch(s, a.rid, pa), b, a, pb, pa, n);
    }
  }

  lemma CreatedOwns(target: nat, rid: nat, l: Layout, c: nat, p: nat)
    requires l.Valid() && p < l.Total() && !l.Shared(p) && l.Owner(p) == c
    ensures var s := Apply(NewCache(target), OpCreate(rid, l));
            && Inv(s) && s.queue == [] && s.target == target && rid in s.regions && s.regions[rid].l == l
            && Owns(s, Key(rid, c), p) && SizeOf(s.regions, Key(rid, c)) == l.Size(c)
  {
    hide Inv, Layout.Shared, Layout.Owner;
    NewCacheInv(target);
    ApplyInv(NewCache(target), OpCreate(rid, l));
    assert Owns(Apply(NewCache(target), OpCreate(rid, l)), Key(rid, c), p);
  }
}
