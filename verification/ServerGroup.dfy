/** The server's answer to pages that several chunks share: resolve a whole
    page-closed group of chunks at once (`resolve_fault` in `src/server.c`). */
module ServerGroups {
  import opened Basics
  import opened Pages
  import opened Layouts
  import opened SharedPages

  /** Chunks `[lo, hi]` start on a page boundary and end on one, or at the end
      of the region: no page of theirs holds bytes of another chunk. */
  ghost predicate PageClosed(l: Layout, lo: nat, hi: nat)
    requires l.Valid()
  {
    && lo <= hi < l.N()
    && Aligned(l.starts[lo], l.ps)
    && (hi + 1 == l.N() || Aligned(l.starts[hi + 1], l.ps))
  }

  function GroupLo(l: Layout, c: nat): (lo: nat)
    requires l.Valid() && c < l.N()
    ensures lo <= c && Aligned(l.starts[lo], l.ps)
  {
    if Aligned(l.starts[c], l.ps) then c else GroupLo(l, c - 1)
  }

  function GroupHi(l: Layout, c: nat): (hi: nat)
    requires l.Valid() && c < l.N()
    ensures c <= hi < l.N() && (hi + 1 == l.N() || Aligned(l.starts[hi + 1], l.ps))
    decreases l.N() - c
  {
    if c + 1 == l.N() || Aligned(l.starts[c + 1], l.ps) then c else GroupHi(l, c + 1)
  }

  lemma {:induction false} GroupLoBelow(l: Layout, c: nat, lo: nat)
    requires l.Valid() && c < l.N() && lo <= c && Aligned(l.starts[lo], l.ps)
    ensures lo <= GroupLo(l, c)
  {
    if !Aligned(l.starts[c], l.ps) {
      GroupLoBelow(l, c - 1, lo);
    }
  }

  lemma {:induction false} GroupHiAbove(l: Layout, c: nat, hi: nat)
    requires l.Valid() && c <= hi < l.N() && (hi + 1 == l.N() || Aligned(l.starts[hi + 1], l.ps))
    ensures GroupHi(l, c) <= hi
    decreases l.N() - c
  {
    if !(c + 1 == l.N() || Aligned(l.starts[c + 1], l.ps)) {
      GroupHiAbove(l, c + 1, hi);
    }
  }

  /** The group is the least page-closed interval of chunks around the fault. */
  lemma GroupIsLeast(l: Layout, c: nat)
    requires l.Valid() && c < l.N()
    ensures PageClosed(l, GroupLo(l, c), GroupHi(l, c))
    ensures GroupLo(l, c) <= c <= GroupHi(l, c)
    ensures forall lo: nat, hi: nat :: PageClosed(l, lo, hi) && lo <= c <= hi ==>
              lo <= GroupLo(l, c) && GroupHi(l, c) <= hi
  {
    forall lo: nat, hi: nat | PageClosed(l, lo, hi) && lo <= c <= hi
      ensures lo <= GroupLo(l, c) && GroupHi(l, c) <= hi
    {
      GroupLoBelow(l, c, lo);
      GroupHiAbove(l, c, hi);
    }
  }

  /** Byte range of a group: whole pages, from its first chunk to past its last. */
  function PageLo(l: Layout, lo: nat): nat
    requires l.Valid() && lo < l.N()
  {
    PageFloor(l.starts[lo], l.ps)
  }

  function PageHi(l: Layout, hi: nat): nat
    requires l.Valid() && hi < l.N()
  {
    PageCeil(l.starts[hi + 1], l.ps)
  }

  lemma {:induction false} SameGroupLo(l: Layout, c: nat, d: nat)
    requires l.Valid() && c < l.N() && GroupLo(l, c) <= d <= c
    ensures GroupLo(l, d) == GroupLo(l, c)
  {
    if d < c {
      SameGroupLo(l, c - 1, d);
    }
  }

  lemma {:induction false} SameGroupHi(l: Layout, c: nat, d: nat)
    requires l.Valid() && c < l.N() && c <= d <= GroupHi(l, c)
    ensures GroupHi(l, d) == GroupHi(l, c)
    decreases l.N() - c
  {
    if c < d {
      SameGroupHi(l, c + 1, d);
    }
  }

  lemma GroupPages(l: Layout, c: nat)
    requires l.Valid() && c < l.N()
    ensures PageLo(l, GroupLo(l, c)) == l.starts[GroupLo(l, c)]
    ensures GroupHi(l, c) + 1 < l.N() ==> PageHi(l, GroupHi(l, c)) == l.starts[GroupHi(l, c) + 1]
    ensures GroupHi(l, c) + 1 == l.N() ==> PageHi(l, GroupHi(l, c)) == l.Mapped()
  {
    var lo, hi := GroupLo(l, c), GroupHi(l, c);
    FloorUnique(l.starts[lo], l.starts[lo], l.ps);
    if hi + 1 < l.N() {
      CeilUnique(l.starts[hi + 1], l.starts[hi + 1], l.ps);
    }
  }

  lemma {:induction false} UnalignedInside(l: Layout, c: nat, d: nat)
    requires l.Valid() && c < l.N() && c < d <= GroupHi(l, c)
    ensures !Aligned(l.starts[d], l.ps)
    decreases d - c
  {
    if c + 1 < d {
      UnalignedInside(l, c + 1, d);
    }
  }

  lemma {:induction false} GroupLoNotAfter(l: Layout, c: nat, d: nat)
    requires l.Valid() && c < l.N() && c <= d <= GroupHi(l, c)
    ensures GroupLo(l, d) <= c
  {
    if c < d {
      UnalignedInside(l, c, d);
      GroupLoNotAfter(l, c, d - 1);
    }
  }

  lemma SameGroup(l: Layout, c: nat, d: nat)
    requires l.Valid() && c <= d < l.N() && d <= GroupHi(l, c)
    ensures GroupLo(l, c) == GroupLo(l, d) && GroupHi(l, c) == GroupHi(l, d)
  {
    SameGroupHi(l, c, d);
    GroupLoNotAfter(l, c, d);
    SameGroupLo(l, d, c);
  }

  lemma LaterGroup(l: Layout, c: nat, d: nat)
    requires l.Valid() && c <= d < l.N() && GroupHi(l, c) < d
    ensures PageHi(l, GroupHi(l, c)) <= PageLo(l, GroupLo(l, d))
  {
    GroupPages(l, c);
    GroupPages(l, d);
    GroupLoBelow(l, d, GroupHi(l, c) + 1);
    hide GroupLo, GroupHi, PageLo, PageHi, Layout.Mapped, Aligned;
    StartsOrdered(l, GroupHi(l, c) + 1, GroupLo(l, d));
  }

  /** Groups of any two faults are the same, or share no page. */
  lemma GroupsPartition(l: Layout, c: nat, d: nat)
    requires l.Valid() && c <= d < l.N()
    ensures (GroupLo(l, c) == GroupLo(l, d) && GroupHi(l, c) == GroupHi(l, d))
            || PageHi(l, GroupHi(l, c)) <= PageLo(l, GroupLo(l, d))
  {
    hide GroupLo, GroupHi, PageLo, PageHi;
    if d <= GroupHi(l, c) {
      SameGroup(l, c, d);
    } else {
      LaterGroup(l, c, d);
    }
  }

  lemma StartsOrdered(l: Layout, i: nat, j: nat)
    requires l.Valid() && i <= j <= l.N()
    ensures l.starts[i] <= l.starts[j]
  {
  }

  /** The range copied for a fault covers the faulting page and stays inside the
      cached content. */
  lemma CopyCoversFault(l: Layout, off: nat)
    requires l.Valid() && off < l.Mapped()
    ensures var c := l.Owner(off);
            && PageLo(l, GroupLo(l, c)) <= PageFloor(off, l.ps)
            && PageFloor(off, l.ps) + l.ps <= PageHi(l, GroupHi(l, c)) <= l.Mapped()
  {
    var c := l.Owner(off);
    var lo, hi := GroupLo(l, c), GroupHi(l, c);
    GroupPages(l, c);
    StartsOrdered(l, lo, c);
    StartsOrdered(l, c + 1, hi + 1);
    if PageFloor(off, l.ps) < l.starts[lo] {
      AlignedGap(PageFloor(off, l.ps), l.starts[lo], l.ps);
    }
    AlignedGap(PageFloor(off, l.ps), PageHi(l, hi), l.ps);
  }

  /** Every in-region byte of the copied range belongs to a chunk of the group. */
  lemma GroupOwnsRange(l: Layout, c: nat, x: nat)
    requires l.Valid() && c < l.N()
    requires PageLo(l, GroupLo(l, c)) <= x < PageHi(l, GroupHi(l, c)) && x < l.Total()
    ensures GroupLo(l, c) <= l.Owner(x) <= GroupHi(l, c)
  {
    GroupPages(l, c);
    OwnerInside(l, x);
    hide GroupLo, GroupHi, PageLo, PageHi, PageFloor, PageCeil;
    OwnerAtLeast(l, x, GroupLo(l, c));
  }

  lemma OwnerAtLeast(l: Layout, x: nat, lo: nat)
    requires l.Valid() && lo < l.N() && l.starts[lo] <= x
    ensures lo <= l.Owner(x)
  {
  }

  /** The two loops of `resolve_fault` that grow the group in both directions. */
  method GrowGroup(l: Layout, off: nat) returns (lo: nat, hi: nat, pageLo: nat, pageHi: nat)
    requires l.Valid() && off < l.Mapped()
    ensures lo == GroupLo(l, l.Owner(off)) && hi == GroupHi(l, l.Owner(off))
    ensures pageLo == PageLo(l, lo) && pageHi == PageHi(l, hi)
  {
    hide GroupLo, GroupHi;
    var c0 := FindChunk(l, off);
    lo, hi := c0, c0;
    pageLo := PageFloor(l.starts[lo], l.ps);
    pageHi := PageCeil(l.starts[hi + 1], l.ps);
    while lo > 0 && l.starts[lo] > pageLo
      invariant lo <= c0 && pageLo == PageLo(l, lo)
      invariant GroupLo(l, lo) == GroupLo(l, c0)
    {
      GroupLoStep(l, lo);
      lo := lo - 1;
      pageLo := PageFloor(l.starts[lo], l.ps);
    }
    GroupLoStep(l, lo);
    while hi + 1 < l.N() && l.starts[hi + 1] < pageHi
      invariant c0 <= hi < l.N() && pageHi == PageHi(l, hi)
      invariant GroupHi(l, hi) == GroupHi(l, c0)
    {
      GroupHiStep(l, hi);
      hi := hi + 1;
      pageHi := PageCeil(l.starts[hi + 1], l.ps);
    }
    GroupHiStep(l, hi);
  }

  lemma GroupLoStep(l: Layout, lo: nat)
    requires l.Valid() && lo < l.N()
    ensures GroupLo(l, lo) == if lo > 0 && l.starts[lo] > PageLo(l, lo) then GroupLo(l, lo - 1) else lo
  {
    NotAligned(l.starts[lo], l.ps);
  }

  lemma GroupHiStep(l: Layout, hi: nat)
    requires l.Valid() && hi < l.N()
    ensures GroupHi(l, hi) == if hi + 1 < l.N() && l.starts[hi + 1] < PageHi(l, hi) then GroupHi(l, hi + 1) else hi
  {
    NotAligned(l.starts[hi + 1], l.ps);
  }

  lemma NotAligned(x: nat, ps: PageSize)
    ensures PageFloor(x, ps) != x <==> !Aligned(x, ps)
    ensures PageCeil(x, ps) != x <==> !Aligned(x, ps)
  {
    if Aligned(x, ps) {
      FloorUnique(x, x, ps);
      CeilUnique(x, x, ps);
    }
  }

  // --------------------------------------------------------------- the cache

  /** The bytes of chunk `c` are the ones the callback derives. */
  ghost predicate ChunkHolds(l: Layout, outputs: seq<seq<byte>>, content: seq<byte>, c: nat)
    requires FillsExactly(l, outputs) && c < l.N() && |content| == l.Mapped()
  {
    content[l.starts[c]..l.starts[c + 1]] == outputs[c]
  }

  lemma ChunkInContent(l: Layout, c: nat)
    requires l.Valid() && c < l.N()
    ensures l.starts[c] < l.starts[c + 1] <= l.Total() <= l.Mapped()
  {
    StartsOrdered(l, c + 1, l.N());
  }

  /** Resolved chunks hold what was derived; the padding is still zero. */
  ghost predicate ContentOk(l: Layout, outputs: seq<seq<byte>>, content: seq<byte>, resolved: seq<bool>) {
    && FillsExactly(l, outputs) && |content| == l.Mapped() && |resolved| == l.N()
    && (forall c :: 0 <= c < l.N() && resolved[c] ==> ChunkHolds(l, outputs, content, c))
    && (forall x :: l.Total() <= x < l.Mapped() ==> content[x] == 0)
  }

  lemma HeldByte(l: Layout, outputs: seq<seq<byte>>, content: seq<byte>, resolved: seq<bool>, x: nat)
    requires ContentOk(l, outputs, content, resolved) && x < l.Mapped()
    requires x < l.Total() ==> resolved[l.Owner(x)]
    ensures content[x] == SourceByte(Concat(outputs), x)
  {
    hide Concat, Layout.Owner;
    ConcatAt(l, outputs);
    if x < l.Total() {
      OwnerInside(l, x);
      var c := l.Owner(x);
      assert ChunkHolds(l, outputs, content, c);
      ByteOfChunk(content, l.starts[c], l.starts[c + 1], outputs[c], x);
      assert Concat(outputs)[l.starts[c] + (x - l.starts[c])] == outputs[c][x - l.starts[c]];
    }
  }

  lemma ByteOfChunk(content: seq<byte>, lo: nat, hi: nat, bytes: seq<byte>, x: nat)
    requires lo <= x < hi <= |content| && content[lo..hi] == bytes
    ensures |bytes| == hi - lo && content[x] == bytes[x - lo]
  {
    assert content[lo..hi][x - lo] == content[x];
  }

  /** Once a group is resolved, the range copied for it is source content. */
  lemma CopyIsSource(l: Layout, outputs: seq<seq<byte>>, content: seq<byte>, resolved: seq<bool>, c: nat)
    requires ContentOk(l, outputs, content, resolved) && c < l.N()
    requires forall i :: GroupLo(l, c) <= i <= GroupHi(l, c) ==> resolved[i]
    requires PageHi(l, GroupHi(l, c)) <= l.Mapped()
    ensures forall x :: PageLo(l, GroupLo(l, c)) <= x < PageHi(l, GroupHi(l, c))
              ==> content[x] == SourceByte(Concat(outputs), x)
  {
    forall x | PageLo(l, GroupLo(l, c)) <= x < PageHi(l, GroupHi(l, c))
      ensures content[x] == SourceByte(Concat(outputs), x)
    {
      if x < l.Total() {
        GroupOwnsRange(l, c, x);
      }
      HeldByte(l, outputs, content, resolved, x);
    }
  }

  /** Writing one chunk's slice leaves every other chunk and the padding alone. */
  lemma WriteElsewhere(l: Layout, outputs: seq<seq<byte>>, was: seq<byte>, now: seq<byte>, resolved: seq<bool>, i: nat)
    requires ContentOk(l, outputs, was, resolved) && i < l.N() && !resolved[i] && |now| == |was|
    requires forall x :: 0 <= x < |now| && !(l.starts[i] <= x < l.starts[i + 1]) ==> now[x] == was[x]
    ensures ContentOk(l, outputs, now, resolved)
  {
    ChunkInContent(l, i);
    forall c | 0 <= c < l.N() && resolved[c]
      ensures ChunkHolds(l, outputs, now, c)
    {
      assert ChunkHolds(l, outputs, was, c);
      ChunkInContent(l, c);
      SlicesApart(l, c, i);
      assert now[l.starts[c]..l.starts[c + 1]] == was[l.starts[c]..l.starts[c + 1]];
    }
  }

  lemma SlicesApart(l: Layout, c: nat, i: nat)
    requires l.Valid() && c < l.N() && i < l.N() && c != i
    ensures l.starts[c + 1] <= l.starts[i] || l.starts[i + 1] <= l.starts[c]
  {
    if c < i {
      StartsOrdered(l, c + 1, i);
    } else {
      StartsOrdered(l, i + 1, c);
    }
  }

  class ServerRegion {
    const l: Layout
    const outputs: seq<seq<byte>>
    const content: array<byte>
    const resolved: array<bool>
    /** How often the callback has run for each chunk. */
    ghost var fills: seq<nat>

    ghost predicate Valid()
      reads this, content, resolved
    {
      && ContentOk(l, outputs, content[..], resolved[..])
      && |fills| == l.N()
      && forall c :: 0 <= c < l.N() ==> fills[c] == if resolved[c] then 1 else 0
    }

    constructor (l: Layout, outputs: seq<seq<byte>>)
      requires FillsExactly(l, outputs)
      ensures Valid() && this.l == l && this.outputs == outputs
      ensures fresh(content) && fresh(resolved) && forall c :: 0 <= c < l.N() ==> !resolved[c]
    {
      this.l, this.outputs := l, outputs;
      content := new byte[l.Mapped()](_ => 0);
      resolved := new bool[l.N()](_ => false);
      fills := Zeros(l.N());
    }

    /** The callback writing chunk `i` into the cache, in place. */
    method FillChunk(i: nat)
      requires Valid() && i < l.N() && !resolved[i]
      modifies this, content, resolved
      ensures Valid() && fills == old(fills)[i := old(fills)[i] + 1]
      ensures resolved[..] == old(resolved[..])[i := true]
      ensures forall x :: 0 <= x < content.Length && !(l.starts[i] <= x < l.starts[i + 1]) ==>
                content[x] == old(content[x])
    {
      ghost var was := content[..];
      ChunkInContent(l, i);
      forall x | l.starts[i] <= x < l.starts[i + 1] {
        content[x] := outputs[i][x - l.starts[i]];
      }
      WriteElsewhere(l, outputs, was, content[..], resolved[..], i);
      assert ChunkHolds(l, outputs, content[..], i);
      resolved[i] := true;
      fills := fills[i := fills[i] + 1];
    }

    /** `resolve_fault`: derives what is missing of the group, each chunk at most
        once ever, and returns the pages to copy into the faulting mapping. */
    method ResolveFault(off: nat) returns (dst: nat, copy: seq<byte>)
      requires Valid() && off < l.Mapped()
      modifies this, content, resolved
      ensures Valid()
      ensures dst == PageLo(l, GroupLo(l, l.Owner(off))) && dst + |copy| == PageHi(l, GroupHi(l, l.Owner(off)))
      ensures dst <= PageFloor(off, l.ps) && PageFloor(off, l.ps) + l.ps <= dst + |copy| <= l.Mapped()
      ensures forall x :: 0 <= x < |copy| ==> copy[x] == SourceByte(Concat(outputs), dst + x)
      ensures forall c :: 0 <= c < l.N() ==>
                resolved[c] == (old(resolved[c]) || GroupLo(l, l.Owner(off)) <= c <= GroupHi(l, l.Owner(off)))
    {
      CopyCoversFault(l, off);
      ghost var c0 := l.Owner(off);
      assert |content[..]| == l.Mapped();
      hide FillsExactly, GroupLo, GroupHi, PageLo, PageHi, PageFloor, PageCeil, Aligned, Layout.Owner, Layout.Mapped,
           Concat;
      var lo, hi, pageLo, pageHi := GrowGroup(l, off);
      FillGroup(lo, hi);
      CopyIsSource(l, outputs, content[..], resolved[..], c0);
      dst, copy := pageLo, content[pageLo..pageHi];
    }

    /** The loop of `resolve_fault` that derives the group's missing chunks. */
    method FillGroup(lo: nat, hi: nat)
      requires Valid() && lo <= hi < l.N()
      modifies this, content, resolved
      ensures Valid()
      ensures forall c :: 0 <= c < l.N() ==> resolved[c] == (old(resolved[c]) || lo <= c <= hi)
    {
      var i := lo;
      while i <= hi
        invariant Valid() && lo <= i <= hi + 1
        invariant forall c :: 0 <= c < l.N() ==> resolved[c] == (old(resolved[c]) || lo <= c < i)
      {
        if !resolved[i] {
          FillChunk(i);
        }
        i := i + 1;
      }
    }
  }
}
