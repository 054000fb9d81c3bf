/** Programs over a pool, and what they get to read: whatever is filled, hidden,
    evicted or destroyed underneath, a program sees plain memory. */
module Programs {
  import opened Basics
  import opened Pages
  import opened Layouts
  import opened SharedPages
  import opened PageTables
  import opened CacheModel
  import opened CacheTheorems
  import opened Regions
  import opened Pools
  import opened PoolFacts

  /** What a program does with a pool; `NewRegion` names the reservation it got. */
  datatype Command =
    | NewRegion(rid: nat, ps: PageSize, sizes: seq<nat>, outputs: seq<seq<byte>>)
    | ReadByte(rid: nat, off: nat)
    | DropRegion(rid: nat)

  ghost predicate WellFormed(c: Command) {
    c.NewRegion? ==>
      && 0 < |c.sizes| && |c.sizes| + 1 < UINT32_LIMIT
      && (forall i :: 0 <= i < |c.sizes| ==> c.sizes[i] < SIZE_LIMIT)
      && (PrefixSum(c.sizes, |c.sizes|) < SIZE_LIMIT ==> PrefixSum(c.sizes, |c.sizes|) + c.ps - 1 < SIZE_LIMIT)
      && |c.outputs| == |c.sizes| && (forall i :: 0 <= i < |c.sizes| ==> |c.outputs[i]| == c.sizes[i])
  }

  /** The command as a step of the model; a refused creation is no step. */
  ghost function OpsOf(c: Command): seq<Op> {
    match c
    case NewRegion(rid, ps, sizes, _) => if Rejected(sizes) then [] else [OpCreate(rid, LayoutOf(ps, sizes))]
    case ReadByte(rid, off) => [OpTouch(rid, off)]
    case DropRegion(rid) => [OpDestroy(rid)]
  }

  ghost function AllOps(cs: seq<Command>): seq<Op> {
    if cs == [] then [] else AllOps(cs[..|cs| - 1]) + OpsOf(cs[|cs| - 1])
  }

  lemma RunOne(target: nat, cs: seq<Command>, n: nat)
    requires n < |cs|
    ensures AllOps(cs[..n + 1]) == AllOps(cs[..n]) + OpsOf(cs[n])
    ensures OpsOf(cs[n]) == [] ==> Run(NewCache(target), AllOps(cs[..n + 1])) == Run(NewCache(target), AllOps(cs[..n]))
    ensures |OpsOf(cs[n])| == 1 ==>
              Run(NewCache(target), AllOps(cs[..n + 1]))
              == Apply(Run(NewCache(target), AllOps(cs[..n])), OpsOf(cs[n])[0])
  {
    assert cs[..n + 1][..n] == cs[..n];
    var ops := AllOps(cs[..n + 1]);
    if |OpsOf(cs[n])| == 1 {
      assert ops[..|ops| - 1] == AllOps(cs[..n]);
    } else if OpsOf(cs[n]) == [] {
      assert ops == AllOps(cs[..n]);
    }
  }

  /** Memory after a command, with nothing lazy about it. */
  ghost function After(m: Memory, c: Command): Memory {
    match c
    case NewRegion(rid, ps, sizes, outputs) =>
      if rid in m || Rejected(sizes) then m else m[rid := Content(LayoutOf(ps, sizes), Concat(outputs))]
    case ReadByte(_, _) => m
    case DropRegion(rid) => m - {rid}
  }

  /** What the command reads. */
  ghost function Answer(m: Memory, c: Command): Option<byte> {
    match c
    case ReadByte(rid, off) => ByteAt(m, rid, off)
    case _ => None
  }

  ghost function MemoryAfter(cs: seq<Command>): Memory {
    if cs == [] then map[] else After(MemoryAfter(cs[..|cs| - 1]), cs[|cs| - 1])
  }

  ghost function Answers(cs: seq<Command>): seq<Option<byte>> {
    if cs == [] then [] else Answers(cs[..|cs| - 1]) + [Answer(MemoryAfter(cs[..|cs| - 1]), cs[|cs| - 1])]
  }

  /** Command `n` created region `rid`, and nothing has dropped it since. */
  ghost predicate LastMade(cs: seq<Command>, rid: nat, n: nat) {
    && n < |cs| && cs[n].NewRegion? && cs[n].rid == rid && !Rejected(cs[n].sizes) && rid !in MemoryAfter(cs[..n])
    && forall k :: n < k < |cs| ==> cs[k] != DropRegion(rid)
  }

  /** A region is there exactly if a creation of it was accepted and it has not
      been dropped since; it has the layout and bytes it was created with. */
  lemma {:induction false} MemoryIsLastMade(cs: seq<Command>, rid: nat)
    ensures rid in MemoryAfter(cs) ==> exists n: nat :: LastMade(cs, rid, n)
    ensures forall n: nat :: LastMade(cs, rid, n) ==>
              && rid in MemoryAfter(cs)
              && MemoryAfter(cs)[rid] == Content(LayoutOf(cs[n].ps, cs[n].sizes), Concat(cs[n].outputs))
    decreases |cs|
  {
    hide Rejected, LayoutOf, Concat;
    if cs != [] {
      var before, c := cs[..|cs| - 1], cs[|cs| - 1];
      MemoryIsLastMade(before, rid);
      if rid in MemoryAfter(cs) {
        if rid in MemoryAfter(before) {
          var n: nat :| LastMade(before, rid, n);
          assert before[..n] == cs[..n];
          assert LastMade(cs, rid, n);
        } else {
          assert LastMade(cs, rid, |cs| - 1);
        }
      }
      forall n: nat | LastMade(cs, rid, n)
        ensures rid in MemoryAfter(cs)
        ensures MemoryAfter(cs)[rid] == Content(LayoutOf(cs[n].ps, cs[n].sizes), Concat(cs[n].outputs))
      {
        if n < |cs| - 1 {
          assert before[..n] == cs[..n];
          assert LastMade(before, rid, n);
        }
      }
    }
  }

  lemma {:induction false} AnswerAt(cs: seq<Command>, n: nat)
    requires n < |cs|
    ensures |Answers(cs)| == |cs| && Answers(cs)[n] == Answer(MemoryAfter(cs[..n]), cs[n])
    decreases |cs|
  {
    hide Answer, After;
    var before := cs[..|cs| - 1];
    AnswersLength(before);
    if n < |before| {
      AnswerAt(before, n);
      assert before[..n] == cs[..n];
    }
  }

  lemma {:induction false} AnswersLength(cs: seq<Command>)
    ensures |Answers(cs)| == |cs|
  {
    if cs != [] {
      AnswersLength(cs[..|cs| - 1]);
    }
  }

  /** A read of byte `i` of chunk `c` of a live region answers with the byte the
      callback writes there, and a read of the padding with zero. */
  lemma ReadsAre(cs: seq<Command>, n: nat, k: nat)
    requires n < |cs| && cs[n].ReadByte? && LastMade(cs[..n], cs[n].rid, k) && WellFormed(cs[k])
    ensures |Answers(cs)| == |cs|
    ensures forall c: nat, i: nat ::
              c < |cs[k].sizes| && i < cs[k].sizes[c] && cs[n].off == PrefixSum(cs[k].sizes, c) + i ==>
                Answers(cs)[n] == Some(cs[k].outputs[c][i])
    ensures var total := PrefixSum(cs[k].sizes, |cs[k].sizes|);
            total <= cs[n].off < PageCeil(total, cs[k].ps) ==> Answers(cs)[n] == Some(0)
  {
    AnswerAt(cs, n);
    MemoryIsLastMade(cs[..n], cs[n].rid);
    MadeCommand(cs, n, k);
    var m, made := MemoryAfter(cs[..n]), cs[k];
    hide MemoryAfter, Answers, LastMade, PrefixSum, PageCeil, Concat, LayoutOf, Rejected, WellFormed, ByteAt;
    MadeByte(m, made, cs[n].rid, cs[n].off);
  }

  lemma MadeCommand(cs: seq<Command>, n: nat, k: nat)
    requires n < |cs| && LastMade(cs[..n], cs[n].rid, k)
    ensures k < n && cs[..n][k] == cs[k] && cs[k].NewRegion? && !Rejected(cs[k].sizes)
  {
    hide Rejected, MemoryAfter;
  }

  lemma MadeByte(m: Memory, made: Command, rid: nat, off: nat)
    requires made.NewRegion? && WellFormed(made) && !Rejected(made.sizes)
    requires rid in m && m[rid] == Content(LayoutOf(made.ps, made.sizes), Concat(made.outputs))
    ensures forall c: nat, i: nat :: c < |made.sizes| && i < made.sizes[c] && off == PrefixSum(made.sizes, c) + i ==>
              c < |made.outputs| && i < |made.outputs[c]| && ByteAt(m, rid, off) == Some(made.outputs[c][i])
    ensures PrefixSum(made.sizes, |made.sizes|) <= off < PageCeil(PrefixSum(made.sizes, |made.sizes|), made.ps) ==>
              ByteAt(m, rid, off) == Some(0)
  {
    hide PrefixSum, PageCeil, Concat, LayoutOf, Rejected;
    var sizes := made.sizes;
    MadeLayout(made.ps, sizes, made.outputs);
    forall c: nat, i: nat | c < |sizes| && i < sizes[c] && off == PrefixSum(sizes, c) + i
      ensures c < |made.outputs| && i < |made.outputs[c]| && ByteAt(m, rid, off) == Some(made.outputs[c][i])
    {
      ConcatByte(made.ps, sizes, made.outputs, c, i);
    }
  }

  /** The shape of a layout made from accepted sizes. */
  lemma MadeLayout(ps: PageSize, sizes: seq<nat>, outputs: seq<seq<byte>>)
    requires sizes != [] && !Rejected(sizes) && |outputs| == |sizes|
    requires forall i :: 0 <= i < |sizes| ==> |outputs[i]| == sizes[i]
    ensures var l := LayoutOf(ps, sizes);
            && l.Valid() && |l.starts| == |sizes| + 1 && l.Total() == PrefixSum(sizes, |sizes|)
            && l.Mapped() == PageCeil(l.Total(), ps) && l.Total() <= l.Mapped() && |Concat(outputs)| == l.Total()
  {
    MadeFills(ps, sizes, outputs);
    hide Concat, PrefixSum, Rejected, PageCeil;
    ConcatAt(LayoutOf(ps, sizes), outputs);
  }

  lemma ConcatByte(ps: PageSize, sizes: seq<nat>, outputs: seq<seq<byte>>, c: nat, i: nat)
    requires sizes != [] && !Rejected(sizes) && |outputs| == |sizes| && c < |sizes| && i < sizes[c]
    requires forall k :: 0 <= k < |sizes| ==> |outputs[k]| == sizes[k]
    ensures PrefixSum(sizes, c) + i < |Concat(outputs)| && Concat(outputs)[PrefixSum(sizes, c) + i] == outputs[c][i]
  {
    hide Concat, PrefixSum, Rejected, LayoutOf, IsLayoutOf, FillsExactly;
    MadeFills(ps, sizes, outputs);
    StartAt(ps, sizes, c);
    ByteInPlace(LayoutOf(ps, sizes), outputs, c, i);
  }

  lemma ByteInPlace(l: Layout, outputs: seq<seq<byte>>, c: nat, i: nat)
    requires FillsExactly(l, outputs) && c < |outputs| && i < |outputs[c]|
    ensures c < l.N() && l.starts[c] + i < |Concat(outputs)| && Concat(outputs)[l.starts[c] + i] == outputs[c][i]
  {
    hide Concat;
    ConcatAt(l, outputs);
  }

  lemma StartAt(ps: PageSize, sizes: seq<nat>, c: nat)
    requires c < |sizes|
    ensures |LayoutOf(ps, sizes).starts| == |sizes| + 1 && LayoutOf(ps, sizes).starts[c] == PrefixSum(sizes, c)
  {
  }

  lemma MadeFills(ps: PageSize, sizes: seq<nat>, outputs: seq<seq<byte>>)
    requires sizes != [] && !Rejected(sizes) && |outputs| == |sizes|
    requires forall i :: 0 <= i < |sizes| ==> |outputs[i]| == sizes[i]
    ensures FillsExactly(LayoutOf(ps, sizes), outputs) && LayoutOf(ps, sizes).Valid()
  {
    var l := LayoutOf(ps, sizes);
    AcceptedIsLayout(ps, sizes, l.starts);
    forall c | 0 <= c < l.N()
      ensures |outputs[c]| == l.Size(c)
    {
      assert PrefixSum(sizes, c + 1) == PrefixSum(sizes, c) + sizes[c];
    }
  }

  lemma ContentsKeys(p: Pool)
    ensures p.Contents().Keys == p.regions.Keys
  {
  }

  method ExecuteNew(p: Pool, c: Command)
    requires p.Valid() && WellFormed(c) && c.NewRegion?
    modifies p, p.lru, p.members
    ensures p.Valid() && fresh(p.lru.owned - old(p.lru.owned)) && fresh(p.members - old(p.members))
    ensures p.Abs() == if OpsOf(c) == [] then old(p.Abs()) else Apply(old(p.Abs()), OpsOf(c)[0])
    ensures p.Contents() == After(old(p.Contents()), c)
  {
    hide Pool.Valid, Create, Concat, LayoutOf, Pool.Contents, Rejected;
    ContentsKeys(p);
    p.LiveRegions();
    if c.rid !in p.regions {
      var l := p.CreateRegion(c.rid, c.ps, c.sizes, c.outputs);
      if l.Some? {
        LayoutIsUnique(l.value, c.ps, c.sizes);
      }
    }
  }

  method ExecuteDrop(p: Pool, rid: nat)
    requires p.Valid()
    modifies p, p.lru, p.lru.list, p.lru.list.head, p.lru.owned, p.members
    ensures p.Valid() && p.lru.owned == old(p.lru.owned) && p.members == old(p.members)
    ensures p.Abs() == Apply(old(p.Abs()), OpDestroy(rid))
    ensures p.Contents() == old(p.Contents()) - {rid}
  {
    hide Pool.Valid, Destroy, Pool.Contents;
    ContentsKeys(p);
    p.LiveRegions();
    if rid in p.regions {
      p.RegionFacts(rid);
      var r := p.DestroyRegion(rid);
    }
  }

  lemma TouchIsApply(s: Cache, c: Command)
    ensures c.ReadByte? ==> Apply(s, OpTouch(c.rid, c.off)) == Touch(s, c.rid, c.off)
  {
  }

  /** One command of a program on a live pool. */
  method Execute(p: Pool, c: Command) returns (b: Option<byte>)
    requires p.Valid() && WellFormed(c)
    modifies p, p.lru, p.lru.list, p.lru.list.head, p.lru.owned, p.members
    ensures p.Valid() && fresh(p.lru.owned - old(p.lru.owned)) && fresh(p.members - old(p.members))
    ensures p.Abs() == if OpsOf(c) == [] then old(p.Abs()) else Apply(old(p.Abs()), OpsOf(c)[0])
    ensures p.Contents() == After(old(p.Contents()), c) && b == Answer(old(p.Contents()), c)
  {
    hide Pool.Valid, Apply, WellFormed, LayoutOf, Pool.Contents, ByteAt;
    b := None;
    TouchIsApply(p.Abs(), c);
    match c
    case NewRegion(_, _, _, _) =>
      ExecuteNew(p, c);
    case ReadByte(rid, off) =>
      b := p.ReadAt(rid, off);
    case DropRegion(rid) =>
      ExecuteDrop(p, rid);
  }

  /** Every run on the real structures: a pool driven by any list of commands
      answers every read as plain memory would, whatever its target; at the end
      it is in the state the model's run ends in, and every page it holds is
      what the commands say. */
  method Replay(target: nat, cs: seq<Command>) returns (p: Pool, answers: seq<Option<byte>>)
    requires forall i :: 0 <= i < |cs| ==> WellFormed(cs[i])
    ensures p.Valid() && p.Abs() == Run(NewCache(target), AllOps(cs))
    ensures answers == Answers(cs)
    ensures p.Contents() == MemoryAfter(cs) && HoldsOnly(p, MemoryAfter(cs))
  {
    hide Pool.Valid, Pool.Abs, Apply, OpsOf, WellFormed, HoldsOnly, Pool.Contents, After, Answer, MemoryAfter, Answers,
         Run, AllOps, NewCache;
    NoneYet(target);
    p := new Pool(target);
    NothingYet(p);
    answers := [];
    for n := 0 to |cs|
      invariant fresh(p) && fresh(p.lru) && fresh(p.lru.list) && fresh(p.lru.list.head)
      invariant fresh(p.lru.owned) && fresh(p.members)
      invariant p.Valid() && p.Abs() == Run(NewCache(target), AllOps(cs[..n]))
      invariant p.Contents() == MemoryAfter(cs[..n]) && answers == Answers(cs[..n])
    {
      RunOne(target, cs, n);
      AtMostOneOp(cs[n]);
      var b := Execute(p, cs[n]);
      MemoryStep(cs, n);
      answers := answers + [b];
    }
    assert cs[..|cs|] == cs;
    ContentsHeld(p);
  }

  lemma MemoryStep(cs: seq<Command>, n: nat)
    requires n < |cs|
    ensures MemoryAfter(cs[..n + 1]) == After(MemoryAfter(cs[..n]), cs[n])
    ensures Answers(cs[..n + 1]) == Answers(cs[..n]) + [Answer(MemoryAfter(cs[..n]), cs[n])]
  {
    assert cs[..n + 1][..n] == cs[..n];
  }

  lemma NoneYet(target: nat)
    ensures MemoryAfter([]) == map[] && Answers([]) == [] && Run(NewCache(target), AllOps([])) == NewCache(target)
    ensures NewCache(target).regions == map[]
  {
  }

  lemma NothingYet(p: Pool)
    requires p.Valid() && p.Abs().regions == map[]
    ensures p.Contents() == map[]
  {
    hide Pool.Valid;
    p.LiveRegions();
  }

  /** The pool has the regions of `m`, and every page it holds of one, readable
      or hidden, is `m`'s bytes at its offsets, zeros past the end. */
  ghost predicate HoldsOnly(p: Pool, m: Memory)
    reads p, p.regions.Values
  {
    && p.regions.Keys == m.Keys
    && forall rid, page :: rid in m && page in p.regions[rid].table && p.regions[rid].table[page] != Empty
         ==> IsPageOf(p.regions[rid].table[page].bytes, m[rid], page)
  }

  ghost predicate IsPageOf(bytes: seq<byte>, content: Content, page: nat) {
    |bytes| == content.l.ps && forall i :: 0 <= i < |bytes| ==> bytes[i] == SourceByte(content.bytes, page + i)
  }

  lemma ContentsHeld(p: Pool)
    requires p.Valid()
    ensures HoldsOnly(p, p.Contents())
  {
    hide Pool.Valid, PageReadable, Region.Src;
    forall rid, page | rid in p.regions && page in p.regions[rid].table && p.regions[rid].table[page] != Empty
      ensures IsPageOf(p.regions[rid].table[page].bytes, p.Contents()[rid], page)
    {
      PageInRange(p, rid, page);
      AgreesWithSource(p, rid, page);
    }
  }

  lemma PageInRange(p: Pool, rid: nat, page: nat)
    requires p.Valid() && rid in p.regions && page in p.regions[rid].table
    ensures var r := p.regions[rid];
            r.l.Valid() && |r.Src()| == r.l.Total() && page < r.l.Mapped() && Aligned(page, r.l.ps)
  {
    hide Region.CountersOk, InStep, SharedPagesOk, Pool.Wired, Pool.Sizes;
    p.RegionFacts(rid);
  }

  lemma AtMostOneOp(c: Command)
    ensures OpsOf(c) == [] || |OpsOf(c)| == 1
  {
  }
}
