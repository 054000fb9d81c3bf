/** Page arithmetic shared by both backends (`page_floor`, `page_ceil`). */
module Pages {

  type PageSize = n: nat | n > 0 witness 1

  /** `x` is a page boundary. Defined by repeated subtraction so that proofs
      elsewhere need no nonlinear arithmetic; see `PageFloorIsModulo`. */
  predicate Aligned(x: nat, ps: PageSize)
    decreases x
  {
    x == 0 || (x >= ps && Aligned(x - ps, ps))
  }

  /** The page boundary at or below `x`. */
  function PageFloor(x: nat, ps: PageSize): (r: nat)
    ensures r <= x < r + ps
    ensures Aligned(r, ps)
    decreases x
  {
    if x < ps then 0 else PageFloor(x - ps, ps) + ps
  }

  /** The page boundary at or above `x`. */
  function PageCeil(x: nat, ps: PageSize): (r: nat)
    ensures x <= r < x + ps
    ensures Aligned(r, ps)
  {
    PageFloor(x + ps - 1, ps)
  }

  lemma ModStep(x: nat, ps: PageSize)
    requires x >= ps
    ensures x % ps == (x - ps) % ps
  {
    var q, r := (x - ps) / ps, (x - ps) % ps;
    assert x == ps * (q + 1) + r;
    DivModUnique(x, ps, q + 1, r);
  }

  lemma DivModUnique(x: nat, ps: PageSize, q: nat, r: nat)
    requires x == ps * q + r && r < ps
    ensures x % ps == r
  {
    var q', r' := x / ps, x % ps;
    assert x == ps * q' + r';
    assert q' < q ==> ps * q >= ps * (q' + 1);
    assert q < q' ==> ps * q' >= ps * (q + 1);
  }

  /** The definitions above are the source's `x - (x % page_size)` and
      `x % page_size == 0`. */
  lemma {:induction false} PageFloorIsModulo(x: nat, ps: PageSize)
    ensures PageFloor(x, ps) == x - x % ps
    ensures Aligned(x, ps) <==> x % ps == 0
    decreases x
  {
    if x >= ps {
      ModStep(x, ps);
      PageFloorIsModulo(x - ps, ps);
    }
  }

  /** Distinct page boundaries are at least a page apart. */
  lemma {:induction false} AlignedGap(a: nat, b: nat, ps: PageSize)
    requires Aligned(a, ps) && Aligned(b, ps) && a < b
    ensures a + ps <= b
    decreases b
  {
    if a >= ps {
      AlignedGap(a - ps, b - ps, ps);
    }
  }

  /** `PageFloor` is the only boundary in the page holding `x`. */
  lemma FloorUnique(x: nat, p: nat, ps: PageSize)
    requires Aligned(p, ps) && p <= x < p + ps
    ensures PageFloor(x, ps) == p
  {
    var f := PageFloor(x, ps);
    if f < p {
      AlignedGap(f, p, ps);
    } else if p < f {
      AlignedGap(p, f, ps);
    }
  }

  /** `PageCeil` is the only boundary in `[x, x + ps)`. */
  lemma CeilUnique(x: nat, p: nat, ps: PageSize)
    requires Aligned(p, ps) && x <= p < x + ps
    ensures PageCeil(x, ps) == p
  {
    var f := PageCeil(x, ps);
    if f < p {
      AlignedGap(f, p, ps);
    } else if p < f {
      AlignedGap(p, f, ps);
    }
  }
}
