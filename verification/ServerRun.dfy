/** Concurrent `fc_server_run` loops on one region: any number of connection
    threads, interleaved at every lock operation and every callback. */
module ServerRuns {
  import opened Basics
  import opened Pages
  import opened Layouts
  import opened SharedPages
  import opened ServerGroups

  /** Where a connection thread is inside `resolve_fault`. */
  datatype Pc =
    | Idle
    | Waiting(m: nat, c0: nat)                          // group known, lock wanted
    | Filling(m: nat, c0: nat, i: nat, writing: bool)   // holding the lock, at chunk i
    | Copying(m: nat, c0: nat)                          // lock released, copy pending

  /** A byte a mapping has received. */
  datatype Delivery = Delivery(mapping: nat, off: nat, value: byte)

  datatype Server = Server(
    content: seq<byte>,
    resolved: seq<bool>,
    fills: seq<nat>,
    holder: Option<nat>,
    threads: map<nat, Pc>,
    delivered: set<Delivery>)

  datatype Step =
    | Fault(t: nat, m: nat, off: nat)
    | Acquire(t: nat)
    | Skip(t: nat)
    | StartFill(t: nat, partial: seq<byte>)
    | FinishFill(t: nat)
    | Release(t: nat)
    | Copy(t: nat, upTo: nat)

  ghost function At(s: Server, t: nat): Pc {
    if t in s.threads then s.threads[t] else Idle
  }

  /** The cache with chunk `i`'s slice replaced. */
  function Written(l: Layout, content: seq<byte>, i: nat, bytes: seq<byte>): (c: seq<byte>)
    requires l.Valid() && i < l.N() && |content| == l.Mapped() && |bytes| == l.Size(i)
    ensures |c| == |content|
    ensures forall x :: 0 <= x < |c| ==>
              c[x] == if l.starts[i] <= x < l.starts[i + 1] then bytes[x - l.starts[i]] else content[x]
  {
    ChunkInContent(l, i);
    content[..l.starts[i]] + bytes + content[l.starts[i + 1]..]
  }

  ghost predicate Shape(l: Layout, outputs: seq<seq<byte>>, s: Server) {
    FillsExactly(l, outputs) && |s.content| == l.Mapped() && |s.resolved| == |s.fills| == l.N()
  }

  ghost predicate Enabled(l: Layout, outputs: seq<seq<byte>>, s: Server, step: Step)
    requires Shape(l, outputs, s)
  {
    var pc := At(s, step.t);
    match step
    case Fault(_, _, off) => pc.Idle? && off < l.Mapped()
    case Acquire(_) => pc.Waiting? && pc.c0 < l.N() && s.holder == None
    case Skip(t) => InLoop(l, pc) && !pc.writing && s.resolved[pc.i]
    case StartFill(t, partial) => InLoop(l, pc) && !s.resolved[pc.i] && |partial| == l.Size(pc.i)
    case FinishFill(t) => InLoop(l, pc) && !s.resolved[pc.i]
    case Release(t) => pc.Filling? && pc.c0 < l.N() && pc.i == GroupHi(l, pc.c0) + 1
    case Copy(t, upTo) => pc.Copying? && pc.c0 < l.N()
                          && upTo <= PageHi(l, GroupHi(l, pc.c0)) && PageHi(l, GroupHi(l, pc.c0)) <= l.Mapped()
  }

  ghost predicate InLoop(l: Layout, pc: Pc)
    requires l.Valid()
  {
    pc.Filling? && pc.c0 < l.N() && pc.i <= GroupHi(l, pc.c0)
  }

  /** While the callback runs, its chunk's slice may hold anything (`partial`).
      A copy may stop early, at a page the mapping already has (`upTo`). */
  ghost function Next(l: Layout, outputs: seq<seq<byte>>, s: Server, step: Step): Server
    requires Shape(l, outputs, s) && Enabled(l, outputs, s, step)
  {
    var pc := At(s, step.t);
    match step
    case Fault(t, m, off) => s.(threads := s.threads[t := Waiting(m, l.Owner(off))])
    case Acquire(t) =>
      s.(holder := Some(t), threads := s.threads[t := Filling(pc.m, pc.c0, GroupLo(l, pc.c0), false)])
    case Skip(t) => s.(threads := s.threads[t := pc.(i := pc.i + 1)])
    case StartFill(t, partial) =>
      s.(content := Written(l, s.content, pc.i, partial), threads := s.threads[t := pc.(writing := true)])
    case FinishFill(t) =>
      s.(content := Written(l, s.content, pc.i, outputs[pc.i]),
         resolved := s.resolved[pc.i := true],
         fills := s.fills[pc.i := s.fills[pc.i] + 1],
         threads := s.threads[t := pc.(i := pc.i + 1, writing := false)])
    case Release(t) => s.(holder := None, threads := s.threads[t := Copying(pc.m, pc.c0)])
    case Copy(t, upTo) =>
      s.(delivered := s.delivered + CopiedBytes(l, s.content, pc.m, PageLo(l, GroupLo(l, pc.c0)), upTo),
         threads := s.threads - {t})
  }

  ghost function CopiedBytes(l: Layout, content: seq<byte>, m: nat, lo: nat, hi: nat): set<Delivery>
    requires hi <= |content|
  {
    set x | lo <= x < hi :: Delivery(m, x, content[x])
  }

  // --------------------------------------------------------------- invariant

  ghost predicate PcOk(l: Layout, s: Server, t: nat)
    requires l.Valid() && |s.resolved| == l.N()
  {
    match At(s, t)
    case Idle => s.holder != Some(t)
    case Waiting(_, c0) => c0 < l.N() && s.holder != Some(t)
    case Filling(_, c0, i, writing) =>
      && c0 < l.N() && s.holder == Some(t)
      && GroupLo(l, c0) <= i <= GroupHi(l, c0) + 1
      && (forall c :: GroupLo(l, c0) <= c < i ==> s.resolved[c])
      && (writing ==> i <= GroupHi(l, c0) && !s.resolved[i])
    case Copying(_, c0) =>
      && c0 < l.N() && s.holder != Some(t)
      && forall c :: GroupLo(l, c0) <= c <= GroupHi(l, c0) ==> s.resolved[c]
  }

  ghost predicate Inv(l: Layout, outputs: seq<seq<byte>>, s: Server) {
    && Shape(l, outputs, s)
    && ContentOk(l, outputs, s.content, s.resolved)
    && (forall c :: 0 <= c < l.N() ==> s.fills[c] == if s.resolved[c] then 1 else 0)
    && (forall t :: PcOk(l, s, t))
    && (forall d :: d in s.delivered ==> d.value == SourceByte(Concat(outputs), d.off))
  }

  /** The server before any connection has faulted. */
  ghost predicate Initial(l: Layout, outputs: seq<seq<byte>>, s: Server) {
    && Shape(l, outputs, s)
    && (forall x :: 0 <= x < l.Mapped() ==> s.content[x] == 0)
    && (forall c :: 0 <= c < l.N() ==> !s.resolved[c] && s.fills[c] == 0)
    && s.holder == None && s.threads == map[] && s.delivered == {}
  }

  lemma InitialInv(l: Layout, outputs: seq<seq<byte>>, s: Server)
    requires Initial(l, outputs, s)
    ensures Inv(l, outputs, s)
  {
  }

  lemma WritePartial(l: Layout, outputs: seq<seq<byte>>, s: Server, i: nat, bytes: seq<byte>)
    requires ContentOk(l, outputs, s.content, s.resolved) && i < l.N() && !s.resolved[i] && |bytes| == l.Size(i)
    ensures ContentOk(l, outputs, Written(l, s.content, i, bytes), s.resolved)
  {
    WriteElsewhere(l, outputs, s.content, Written(l, s.content, i, bytes), s.resolved, i);
  }

  lemma WriteWhole(l: Layout, outputs: seq<seq<byte>>, s: Server, i: nat)
    requires ContentOk(l, outputs, s.content, s.resolved) && i < l.N() && !s.resolved[i]
    ensures ContentOk(l, outputs, Written(l, s.content, i, outputs[i]), s.resolved[i := true])
  {
    WritePartial(l, outputs, s, i, outputs[i]);
    var now := Written(l, s.content, i, outputs[i]);
    ChunkInContent(l, i);
    assert now[l.starts[i]..l.starts[i + 1]] == outputs[i];
    assert ChunkHolds(l, outputs, now, i);
  }

  /** A copy delivers source bytes although the lock is no longer held: its
      group stays resolved, and nobody writes resolved chunks. */
  lemma CopyDelivers(l: Layout, outputs: seq<seq<byte>>, s: Server, t: nat, upTo: nat)
    requires Inv(l, outputs, s) && Enabled(l, outputs, s, Copy(t, upTo))
    ensures forall d :: d in CopiedBytes(l, s.content, At(s, t).m, PageLo(l, GroupLo(l, At(s, t).c0)), upTo)
              ==> d.value == SourceByte(Concat(outputs), d.off)
  {
    assert PcOk(l, s, t);
    CopyIsSource(l, outputs, s.content, s.resolved, At(s, t).c0);
  }

  lemma ContentStep(l: Layout, outputs: seq<seq<byte>>, s: Server, step: Step)
    requires Inv(l, outputs, s) && Enabled(l, outputs, s, step)
    ensures var s' := Next(l, outputs, s, step);
            && Shape(l, outputs, s') && ContentOk(l, outputs, s'.content, s'.resolved)
            && (forall c :: 0 <= c < l.N() ==> s'.fills[c] == if s'.resolved[c] then 1 else 0)
  {
    hide ContentOk, PcOk;
    match step
    case Fault(_, _, _) =>
    case Acquire(_) =>
    case Skip(_) =>
    case StartFill(t, partial) => WritePartial(l, outputs, s, At(s, t).i, partial);
    case FinishFill(t) => WriteWhole(l, outputs, s, At(s, t).i);
    case Release(_) =>
    case Copy(_, _) =>
  }

  lemma DeliveredStep(l: Layout, outputs: seq<seq<byte>>, s: Server, step: Step)
    requires Inv(l, outputs, s) && Enabled(l, outputs, s, step)
    ensures forall d :: d in Next(l, outputs, s, step).delivered ==> d.value == SourceByte(Concat(outputs), d.off)
  {
    if step.Copy? {
      CopyDelivers(l, outputs, s, step.t, step.upTo);
    }
  }

  /** The thread that moves. */
  lemma OwnStep(l: Layout, outputs: seq<seq<byte>>, s: Server, step: Step)
    requires Inv(l, outputs, s) && Enabled(l, outputs, s, step)
    ensures Shape(l, outputs, Next(l, outputs, s, step)) && PcOk(l, Next(l, outputs, s, step), step.t)
  {
    hide ContentOk, GroupLo, GroupHi, PageHi, PageLo, Written, CopiedBytes;
    assert PcOk(l, s, step.t);
  }

  /** Everybody else: only the holder writes, so nothing they rely on moves. */
  lemma OtherStep(l: Layout, outputs: seq<seq<byte>>, s: Server, step: Step, t: nat)
    requires Inv(l, outputs, s) && Enabled(l, outputs, s, step) && t != step.t
    ensures Shape(l, outputs, Next(l, outputs, s, step)) && PcOk(l, Next(l, outputs, s, step), t)
  {
    hide ContentOk, GroupLo, GroupHi, PageHi, PageLo, Written, CopiedBytes;
    assert PcOk(l, s, t) && PcOk(l, s, step.t);
    assert At(Next(l, outputs, s, step), t) == At(s, t);
  }

  lemma StepInv(l: Layout, outputs: seq<seq<byte>>, s: Server, step: Step)
    requires Inv(l, outputs, s) && Enabled(l, outputs, s, step)
    ensures Inv(l, outputs, Next(l, outputs, s, step))
  {
    ContentStep(l, outputs, s, step);
    DeliveredStep(l, outputs, s, step);
    forall t: nat
      ensures PcOk(l, Next(l, outputs, s, step), t)
    {
      if t == step.t {
        OwnStep(l, outputs, s, step);
      } else {
        OtherStep(l, outputs, s, step, t);
      }
    }
  }

  // -------------------------------------------------------------------- runs

  ghost predicate IsRun(l: Layout, outputs: seq<seq<byte>>, ss: seq<Server>, steps: seq<Step>) {
    && |ss| == |steps| + 1
    && Initial(l, outputs, ss[0])
    && forall i :: 0 <= i < |steps| ==>
         && Shape(l, outputs, ss[i]) && Enabled(l, outputs, ss[i], steps[i])
         && ss[i + 1] == Next(l, outputs, ss[i], steps[i])
  }

  lemma {:induction false} RunInv(l: Layout, outputs: seq<seq<byte>>, ss: seq<Server>, steps: seq<Step>, n: nat)
    requires IsRun(l, outputs, ss, steps) && n <= |steps|
    ensures Inv(l, outputs, ss[n])
    decreases n
  {
    if n == 0 {
      InitialInv(l, outputs, ss[0]);
    } else {
      RunInv(l, outputs, ss, steps, n - 1);
      StepInv(l, outputs, ss[n - 1], steps[n - 1]);
    }
  }

  /** One step leaves every resolved chunk resolved, byte for byte. */
  lemma ResolvedStaysPut(l: Layout, outputs: seq<seq<byte>>, s: Server, step: Step, c: nat, x: nat)
    requires Inv(l, outputs, s) && Enabled(l, outputs, s, step)
    requires c < l.N() && s.resolved[c] && l.starts[c] <= x < l.starts[c + 1]
    ensures x < l.Mapped()
    ensures Next(l, outputs, s, step).resolved[c]
    ensures Next(l, outputs, s, step).content[x] == s.content[x]
  {
    ChunkInContent(l, c);
    if step.StartFill? || step.FinishFill? {
      SlicesApart(l, c, At(s, step.t).i);
    }
  }

  lemma {:induction false} ResolvedForever(l: Layout, outputs: seq<seq<byte>>, ss: seq<Server>, steps: seq<Step>,
                                           i: nat, n: nat, c: nat, x: nat)
    requires IsRun(l, outputs, ss, steps) && i <= n <= |steps|
    requires c < l.N() && |ss[i].resolved| == l.N() && ss[i].resolved[c] && l.starts[c] <= x < l.starts[c + 1]
    ensures x < l.Mapped() && |ss[i].content| == |ss[n].content| == l.Mapped() && |ss[n].resolved| == l.N()
    ensures ss[n].resolved[c] && ss[n].content[x] == ss[i].content[x]
    decreases n
  {
    hide Next, ContentOk, PcOk, Enabled, Initial;
    RunInv(l, outputs, ss, steps, i);
    RunInv(l, outputs, ss, steps, n);
    ChunkInContent(l, c);
    if i < n {
      ResolvedForever(l, outputs, ss, steps, i, n - 1, c, x);
      RunInv(l, outputs, ss, steps, n - 1);
      ResolvedStaysPut(l, outputs, ss[n - 1], steps[n - 1], c, x);
    }
  }

  /** Concurrent runs: under every interleaving each chunk has been derived at
      most once, its bytes never change once it is resolved, and every byte any
      mapping ever received is the derived one (zero past the end). */
  lemma ConcurrentRuns(l: Layout, outputs: seq<seq<byte>>, ss: seq<Server>, steps: seq<Step>, n: nat)
    requires IsRun(l, outputs, ss, steps) && n <= |steps|
    ensures |ss[n].fills| == |ss[n].resolved| == l.N() && |ss[n].content| == l.Mapped()
    ensures forall c :: 0 <= c < l.N() ==> ss[n].fills[c] <= 1 && (ss[n].fills[c] == 1 <==> ss[n].resolved[c])
    ensures forall d :: d in ss[n].delivered ==> d.value == SourceByte(Concat(outputs), d.off)
    ensures forall i :: 0 <= i <= n ==> Kept(l, ss[i], ss[n])
  {
    RunInv(l, outputs, ss, steps, n);
    forall i | 0 <= i <= n
      ensures Kept(l, ss[i], ss[n])
    {
      RunInv(l, outputs, ss, steps, i);
      forall c: nat, x: nat | c < l.N() && ss[i].resolved[c] && l.starts[c] <= x < l.starts[c + 1]
        ensures SameByte(ss[i], ss[n], x)
      {
        ResolvedForever(l, outputs, ss, steps, i, n, c, x);
      }
    }
  }

  // --------------------------------------------------- what a fault comes to

  /** The thread is on its way to copy chunk `c0`'s group into mapping `m`. */
  ghost predicate Aims(pc: Pc, m: nat, c0: nat) {
    pc != Idle && pc.m == m && pc.c0 == c0
  }

  /** A fault aims at the chunk that holds the faulting byte. */
  lemma FaultAims(l: Layout, outputs: seq<seq<byte>>, s: Server, t: nat, m: nat, off: nat)
    requires Shape(l, outputs, s) && Enabled(l, outputs, s, Fault(t, m, off))
    ensures Aims(At(Next(l, outputs, s, Fault(t, m, off)), t), m, l.Owner(off))
  {
  }

  /** And the thread keeps its aim until it copies. */
  lemma AimKept(l: Layout, outputs: seq<seq<byte>>, s: Server, step: Step, t: nat, m: nat, c0: nat)
    requires Shape(l, outputs, s) && Enabled(l, outputs, s, step) && Aims(At(s, t), m, c0)
    requires !(step.Copy? && step.t == t)
    ensures Aims(At(Next(l, outputs, s, step), t), m, c0)
  {
    hide Written, CopiedBytes, GroupLo, GroupHi;
  }

  /** Copying delivers, into the mapping aimed at, every byte of the faulting
      page that the copy reached. */
  lemma CopyServes(l: Layout, outputs: seq<seq<byte>>, s: Server, t: nat, upTo: nat, m: nat, off: nat, x: nat)
    requires Inv(l, outputs, s) && Enabled(l, outputs, s, Copy(t, upTo))
    requires off < l.Mapped() && Aims(At(s, t), m, l.Owner(off))
    requires PageFloor(off, l.ps) <= x < PageFloor(off, l.ps) + l.ps && x < upTo
    ensures Delivery(m, x, SourceByte(Concat(outputs), x)) in Next(l, outputs, s, Copy(t, upTo)).delivered
  {
    CopyDelivers(l, outputs, s, t, upTo);
    CopyCoversFault(l, off);
    hide GroupLo, GroupHi, PageLo, PageHi, PageFloor, Layout.Owner, SourceByte, Concat, Inv;
    assert Delivery(m, x, s.content[x]) in CopiedBytes(l, s.content, m, PageLo(l, GroupLo(l, l.Owner(off))), upTo);
  }

  lemma {:induction false} AimOverRun(l: Layout, outputs: seq<seq<byte>>, ss: seq<Server>, steps: seq<Step>,
                                      i: nat, k: nat, t: nat, m: nat, off: nat)
    requires IsRun(l, outputs, ss, steps) && i < k <= |steps| && steps[i] == Fault(t, m, off)
    requires forall n :: i < n < k ==> !(steps[n].Copy? && steps[n].t == t)
    ensures Aims(At(ss[k], t), m, l.Owner(off))
  {
    hide Next, Enabled, Layout.Owner;
    if k == i + 1 {
      FaultAims(l, outputs, ss[i], t, m, off);
    } else {
      AimOverRun(l, outputs, ss, steps, i, k - 1, t, m, off);
      AimKept(l, outputs, ss[k - 1], steps[k - 1], t, m, l.Owner(off));
    }
  }

  lemma RunEnabled(l: Layout, outputs: seq<seq<byte>>, ss: seq<Server>, steps: seq<Step>, i: nat)
    requires IsRun(l, outputs, ss, steps) && i < |steps| && steps[i].Fault?
    ensures l.Valid() && steps[i].off < l.Mapped()
  {
  }

  /** Every fault that is served is served with its own page: when a thread that
      faulted at `off` through mapping `m` copies, every byte of that page the
      copy reached is in that mapping, and it is the derived byte. */
  lemma FaultIsServed(l: Layout, outputs: seq<seq<byte>>, ss: seq<Server>, steps: seq<Step>,
                      i: nat, j: nat, t: nat, m: nat, off: nat, upTo: nat, x: nat)
    requires IsRun(l, outputs, ss, steps) && i < j < |steps|
    requires steps[i] == Fault(t, m, off) && steps[j] == Copy(t, upTo)
    requires forall n :: i < n < j ==> !(steps[n].Copy? && steps[n].t == t)
    requires PageFloor(off, l.ps) <= x < PageFloor(off, l.ps) + l.ps && x < upTo
    ensures Delivery(m, x, SourceByte(Concat(outputs), x)) in ss[j + 1].delivered
  {
    hide Next, Enabled, Layout.Owner, PageFloor, SourceByte, Concat, Layout.Mapped;
    RunEnabled(l, outputs, ss, steps, i);
    RunInv(l, outputs, ss, steps, j);
    AimOverRun(l, outputs, ss, steps, i, j, t, m, off);
    CopyServes(l, outputs, ss[j], t, upTo, m, off, x);
  }

  // ------------------------------------------------- where deliveries come from

  /** A fault through mapping `m` in the group of chunk `c0`'s pages. */
  ghost predicate Asks(l: Layout, step: Step, m: nat, c0: nat) {
    step.Fault? && step.m == m && l.Valid() && step.off < l.Mapped() && l.Owner(step.off) == c0
  }

  /** The delivery is to a mapping that faulted in the group of that byte. */
  ghost predicate AskedFor(l: Layout, step: Step, d: Delivery) {
    && step.Fault? && step.m == d.mapping && l.Valid() && step.off < l.Mapped()
    && PageLo(l, GroupLo(l, l.Owner(step.off))) <= d.off < PageHi(l, GroupHi(l, l.Owner(step.off)))
  }

  lemma NewAim(l: Layout, outputs: seq<seq<byte>>, s: Server, step: Step, t: nat)
    requires Shape(l, outputs, s) && Enabled(l, outputs, s, step) && At(Next(l, outputs, s, step), t) != Idle
    ensures var pc := At(Next(l, outputs, s, step), t);
            Asks(l, step, pc.m, pc.c0) || Aims(At(s, t), pc.m, pc.c0)
  {
    hide Written, CopiedBytes, GroupLo, GroupHi, Layout.Owner;
  }

  lemma {:induction false} AimWasAsked(l: Layout, outputs: seq<seq<byte>>, ss: seq<Server>, steps: seq<Step>,
                                       n: nat, t: nat) returns (i: nat)
    requires IsRun(l, outputs, ss, steps) && n <= |steps| && At(ss[n], t) != Idle
    ensures i < n && Asks(l, steps[i], At(ss[n], t).m, At(ss[n], t).c0)
  {
    hide Next, Enabled, Asks;
    var pc := At(ss[n], t);
    assert n > 0;
    NewAim(l, outputs, ss[n - 1], steps[n - 1], t);
    if Asks(l, steps[n - 1], pc.m, pc.c0) {
      i := n - 1;
    } else {
      i := AimWasAsked(l, outputs, ss, steps, n - 1, t);
    }
  }

  lemma NewDelivery(l: Layout, outputs: seq<seq<byte>>, s: Server, step: Step, d: Delivery)
    requires Shape(l, outputs, s) && Enabled(l, outputs, s, step) && d in Next(l, outputs, s, step).delivered
    ensures d in s.delivered
            || (step.Copy? && At(s, step.t) != Idle && At(s, step.t).c0 < l.N() && d.mapping == At(s, step.t).m
                && PageLo(l, GroupLo(l, At(s, step.t).c0)) <= d.off < PageHi(l, GroupHi(l, At(s, step.t).c0)))
  {
    hide Written, GroupLo, GroupHi, PageLo, PageHi, Layout.Owner;
  }

  /** Nothing is delivered that was not asked for: every byte a mapping received
      lies in the group of a fault through that mapping. */
  lemma {:induction false} DeliveredWasAsked(l: Layout, outputs: seq<seq<byte>>, ss: seq<Server>, steps: seq<Step>,
                                             n: nat, d: Delivery) returns (i: nat)
    requires IsRun(l, outputs, ss, steps) && n <= |steps| && d in ss[n].delivered
    ensures i < n && AskedFor(l, steps[i], d)
  {
    hide Next, Enabled, GroupLo, GroupHi, PageLo, PageHi, Layout.Owner;
    assert n > 0;
    NewDelivery(l, outputs, ss[n - 1], steps[n - 1], d);
    if d in ss[n - 1].delivered {
      i := DeliveredWasAsked(l, outputs, ss, steps, n - 1, d);
    } else {
      i := AimWasAsked(l, outputs, ss, steps, n - 1, steps[n - 1].t);
    }
  }

  /** A fault somewhere in the group of chunk `c`. */
  ghost predicate AskedForChunk(l: Layout, step: Step, c: nat) {
    && step.Fault? && l.Valid() && step.off < l.Mapped()
    && GroupLo(l, l.Owner(step.off)) <= c <= GroupHi(l, l.Owner(step.off))
  }

  lemma NewlyResolved(l: Layout, outputs: seq<seq<byte>>, s: Server, step: Step, c: nat)
    requires Inv(l, outputs, s) && Enabled(l, outputs, s, step) && c < l.N()
    ensures Shape(l, outputs, Next(l, outputs, s, step))
    ensures Next(l, outputs, s, step).resolved[c] ==>
              s.resolved[c] || (At(s, step.t) != Idle && At(s, step.t).c0 < l.N()
                                && GroupLo(l, At(s, step.t).c0) <= c <= GroupHi(l, At(s, step.t).c0))
  {
    hide Written, GroupLo, GroupHi, PageLo, PageHi, Layout.Owner, ContentOk, CopiedBytes;
    assert PcOk(l, s, step.t);
  }

  /** Nothing is derived that was not asked for: a chunk is resolved only if
      some mapping faulted in its group. */
  lemma {:induction false} ResolvedWasAsked(l: Layout, outputs: seq<seq<byte>>, ss: seq<Server>, steps: seq<Step>,
                                            n: nat, c: nat) returns (i: nat)
    requires IsRun(l, outputs, ss, steps) && n <= |steps| && c < |ss[n].resolved| && ss[n].resolved[c]
    ensures i < n && AskedForChunk(l, steps[i], c)
  {
    hide Next, Enabled, GroupLo, GroupHi, Layout.Owner, PcOk, ContentOk;
    RunInv(l, outputs, ss, steps, n);
    assert n > 0;
    RunInv(l, outputs, ss, steps, n - 1);
    NewlyResolved(l, outputs, ss[n - 1], steps[n - 1], c);
    if ss[n - 1].resolved[c] {
      i := ResolvedWasAsked(l, outputs, ss, steps, n - 1, c);
    } else {
      i := AimWasAsked(l, outputs, ss, steps, n - 1, steps[n - 1].t);
    }
  }

  // ------------------------------------------------ copies that stop early

  /** The mapping already has bytes of this group. */
  ghost predicate HasSome(l: Layout, s: Server, m: nat, c0: nat)
    requires l.Valid() && c0 < l.N()
  {
    exists d :: d in s.delivered && d.mapping == m && PageLo(l, GroupLo(l, c0)) <= d.off < PageHi(l, GroupHi(l, c0))
  }

  /** The copy is complete, or it stopped at a page the mapping already has. */
  ghost predicate StopsAtPresent(l: Layout, s: Server, step: Step) {
    step.Copy? && l.Valid() && At(s, step.t) != Idle && At(s, step.t).c0 < l.N() ==>
      || step.upTo == PageHi(l, GroupHi(l, At(s, step.t).c0))
      || HasSome(l, s, At(s, step.t).m, At(s, step.t).c0)
  }

  ghost predicate HasAll(l: Layout, outputs: seq<seq<byte>>, s: Server, m: nat, c0: nat)
    requires l.Valid() && c0 < l.N()
  {
    forall x: nat :: PageLo(l, GroupLo(l, c0)) <= x < PageHi(l, GroupHi(l, c0)) ==>
      Delivery(m, x, SourceByte(Concat(outputs), x)) in s.delivered
  }

  lemma GroupOfDelivery(l: Layout, c: nat, d: nat, x: nat)
    requires l.Valid() && c < l.N() && d < l.N()
    requires PageLo(l, GroupLo(l, c)) <= x < PageHi(l, GroupHi(l, c))
    requires PageLo(l, GroupLo(l, d)) <= x < PageHi(l, GroupHi(l, d))
    ensures GroupLo(l, c) == GroupLo(l, d) && GroupHi(l, c) == GroupHi(l, d)
  {
    if c <= d {
      GroupsPartition(l, c, d);
    } else {
      GroupsPartition(l, d, c);
    }
  }

  /** A mapping that has some of a group has all of it. */
  lemma {:induction false} AllOrNothing(l: Layout, outputs: seq<seq<byte>>, ss: seq<Server>, steps: seq<Step>,
                                        n: nat, m: nat, c: nat)
    requires IsRun(l, outputs, ss, steps) && n <= |steps| && l.Valid() && c < l.N()
    requires forall k :: 0 <= k < n ==> StopsAtPresent(l, ss[k], steps[k])
    requires HasSome(l, ss[n], m, c)
    ensures HasAll(l, outputs, ss[n], m, c)
  {
    hide Next, Enabled, GroupLo, GroupHi, PageLo, PageHi, Layout.Owner, StopsAtPresent, SourceByte, Concat;
    assert n > 0;
    if HasSome(l, ss[n - 1], m, c) {
      AllOrNothing(l, outputs, ss, steps, n - 1, m, c);
      DeliveredStays(l, outputs, ss[n - 1], steps[n - 1]);
    } else {
      var d :| d in ss[n].delivered && d.mapping == m && PageLo(l, GroupLo(l, c)) <= d.off < PageHi(l, GroupHi(l, c));
      NewDelivery(l, outputs, ss[n - 1], steps[n - 1], d);
      var e := At(ss[n - 1], steps[n - 1].t).c0;
      GroupOfDelivery(l, c, e, d.off);
      RunInv(l, outputs, ss, steps, n - 1);
      FullCopy(l, outputs, ss[n - 1], steps[n - 1], m, c, e);
    }
  }

  lemma DeliveredStays(l: Layout, outputs: seq<seq<byte>>, s: Server, step: Step)
    requires Shape(l, outputs, s) && Enabled(l, outputs, s, step)
    ensures s.delivered <= Next(l, outputs, s, step).delivered
  {
    hide Written, CopiedBytes, GroupLo, GroupHi, PageLo, PageHi, Layout.Owner;
  }

  lemma FullCopy(l: Layout, outputs: seq<seq<byte>>, s: Server, step: Step, m: nat, c: nat, e: nat)
    requires Inv(l, outputs, s) && Enabled(l, outputs, s, step) && step.Copy? && StopsAtPresent(l, s, step)
    requires c < l.N() && e < l.N() && At(s, step.t) != Idle && At(s, step.t).m == m && At(s, step.t).c0 == e
    requires GroupLo(l, c) == GroupLo(l, e) && GroupHi(l, c) == GroupHi(l, e) && !HasSome(l, s, m, c)
    ensures HasAll(l, outputs, Next(l, outputs, s, step), m, c)
  {
    CopyDelivers(l, outputs, s, step.t, step.upTo);
    hide GroupLo, GroupHi, PageLo, PageHi, Layout.Owner, SourceByte, Concat, Inv;
    forall x: nat | PageLo(l, GroupLo(l, c)) <= x < PageHi(l, GroupHi(l, c))
      ensures Delivery(m, x, SourceByte(Concat(outputs), x)) in Next(l, outputs, s, step).delivered
    {
      assert Delivery(m, x, s.content[x]) in CopiedBytes(l, s.content, m, PageLo(l, GroupLo(l, e)), step.upTo);
    }
  }

  /** Where a copy stops early only at a page its mapping already has, every
      fault that has been served has its whole page in its mapping. */
  lemma FaultIsServedWhole(l: Layout, outputs: seq<seq<byte>>, ss: seq<Server>, steps: seq<Step>,
                           i: nat, j: nat, t: nat, m: nat, off: nat, upTo: nat, x: nat)
    requires IsRun(l, outputs, ss, steps) && i < j < |steps|
    requires steps[i] == Fault(t, m, off) && steps[j] == Copy(t, upTo)
    requires forall n :: i < n < j ==> !(steps[n].Copy? && steps[n].t == t)
    requires forall k :: 0 <= k <= j ==> StopsAtPresent(l, ss[k], steps[k])
    requires PageFloor(off, l.ps) <= x < PageFloor(off, l.ps) + l.ps
    ensures Delivery(m, x, SourceByte(Concat(outputs), x)) in ss[j + 1].delivered
  {
    hide Next, Enabled, GroupLo, GroupHi, PageLo, PageHi, Layout.Owner, PageFloor, SourceByte, Concat, Layout.Mapped;
    RunEnabled(l, outputs, ss, steps, i);
    RunInv(l, outputs, ss, steps, j);
    AimOverRun(l, outputs, ss, steps, i, j, t, m, off);
    CopyCoversFault(l, off);
    var c := l.Owner(off);
    DeliveredStays(l, outputs, ss[j], steps[j]);
    if HasSome(l, ss[j], m, c) {
      AllOrNothing(l, outputs, ss, steps, j, m, c);
    } else {
      FullCopy(l, outputs, ss[j], steps[j], m, c, c);
    }
  }

  /** No thread is ever stuck: one that is not idle can move, or the thread that
      holds the lock can. */
  lemma NeverStuck(l: Layout, outputs: seq<seq<byte>>, s: Server, t: nat) returns (step: Step)
    requires Inv(l, outputs, s) && At(s, t) != Idle
    ensures Enabled(l, outputs, s, step) && (step.t == t || s.holder == Some(step.t))
  {
    assert PcOk(l, s, t);
    match At(s, t)
    case Waiting(_, _) =>
      if s.holder == None {
        step := Acquire(t);
      } else {
        step := HolderMoves(l, outputs, s, s.holder.value);
      }
    case Filling(_, _, _, _) => step := HolderMoves(l, outputs, s, t);
    case Copying(_, c0) =>
      CopyFits(l, c0);
      step := Copy(t, PageHi(l, GroupHi(l, c0)));
  }

  lemma CopyFits(l: Layout, c: nat)
    requires l.Valid() && c < l.N()
    ensures PageHi(l, GroupHi(l, c)) <= l.Mapped()
  {
    GroupPages(l, c);
  }

  lemma HolderMoves(l: Layout, outputs: seq<seq<byte>>, s: Server, t: nat) returns (step: Step)
    requires Inv(l, outputs, s) && s.holder == Some(t)
    ensures Enabled(l, outputs, s, step) && step.t == t && (step.Release? || step.Skip? || step.FinishFill?)
  {
    assert PcOk(l, s, t);
    var pc := At(s, t);
    step := if pc.i == GroupHi(l, pc.c0) + 1 then Release(t)
            else if s.resolved[pc.i] then Skip(t) else FinishFill(t);
  }

  // --------------------------------------------------------- serving ends

  /** How many moves a thread has left, its callback's own writes not counted. */
  ghost function Left(l: Layout, pc: Pc): nat
    requires l.Valid()
  {
    match pc
    case Idle => 0
    case Copying(_, _) => 1
    case Filling(_, c0, i, _) => if c0 < l.N() && i <= GroupHi(l, c0) then GroupHi(l, c0) + 3 - i else 2
    case Waiting(_, c0) => if c0 < l.N() then GroupHi(l, c0) + 4 - GroupLo(l, c0) else 0
  }

  /** Every move brings a serving thread nearer to its copy, except the writes of
      its callback; nobody else's move takes it further away. */
  lemma ServingAdvances(l: Layout, outputs: seq<seq<byte>>, s: Server, step: Step, t: nat)
    requires Inv(l, outputs, s) && Enabled(l, outputs, s, step) && At(s, t) != Idle
    ensures var left, left' := Left(l, At(s, t)), Left(l, At(Next(l, outputs, s, step), t));
            left' == if step.t != t || step.StartFill? then left else left - 1
  {
    hide Written, CopiedBytes, PageLo, PageHi, Layout.Owner, ContentOk;
    assert PcOk(l, s, t);
  }

  /** `steps`, taken from `s`, end at `s'`. */
  ghost predicate Leads(l: Layout, outputs: seq<seq<byte>>, s: Server, steps: seq<Step>, s': Server)
    decreases |steps|
  {
    if steps == [] then s == s'
    else
      && Shape(l, outputs, s) && Enabled(l, outputs, s, steps[0])
      && Leads(l, outputs, Next(l, outputs, s, steps[0]), steps[1..], s')
  }

  /** A thread that finds the lock free, or holds it, and that nobody interrupts
      comes to its copy: the lock is free again, its mapping has the whole page
      it faulted in, and no other thread has moved. */
  lemma {:induction false} ServedAlone(l: Layout, outputs: seq<seq<byte>>, s: Server, t: nat, m: nat, off: nat)
    returns (steps: seq<Step>, s': Server)
    requires Inv(l, outputs, s) && off < l.Mapped() && Aims(At(s, t), m, l.Owner(off))
    requires s.holder == None || s.holder == Some(t)
    ensures Leads(l, outputs, s, steps, s') && forall i :: 0 <= i < |steps| ==> steps[i].t == t
    ensures Inv(l, outputs, s') && s'.holder == None && At(s', t) == Idle
    ensures forall u :: u != t ==> At(s', u) == At(s, u)
    ensures s.delivered <= s'.delivered
    ensures forall x: nat :: PageFloor(off, l.ps) <= x < PageFloor(off, l.ps) + l.ps ==>
              Delivery(m, x, SourceByte(Concat(outputs), x)) in s'.delivered
    decreases Left(l, At(s, t))
  {
    hide Next, Layout.Owner, PageFloor, SourceByte, Concat, ContentOk, GroupLo, GroupHi, PageLo, PageHi, PcOk, Left,
         Layout.Mapped, Enabled;
    var step := AloneMove(l, outputs, s, t);
    var next := Next(l, outputs, s, step);
    StepInv(l, outputs, s, step);
    ServingAdvances(l, outputs, s, step, t);
    AloneStep(l, outputs, s, step);
    DeliveredStays(l, outputs, s, step);
    if step.Copy? {
      steps, s' := [step], next;
      WholeCopy(l, outputs, s, step, m, off);
      assert Leads(l, outputs, next, [], next);
    } else {
      AimKept(l, outputs, s, step, t, m, l.Owner(off));
      var rest;
      rest, s' := ServedAlone(l, outputs, next, t, m, off);
      steps := [step] + rest;
      assert steps[1..] == rest;
    }
  }

  lemma AloneMove(l: Layout, outputs: seq<seq<byte>>, s: Server, t: nat) returns (step: Step)
    requires Inv(l, outputs, s) && At(s, t) != Idle && (s.holder == None || s.holder == Some(t))
    ensures Enabled(l, outputs, s, step) && step.t == t && !step.StartFill? && !step.Fault?
    ensures step.Copy? ==> At(s, t).Copying? && step.upTo == PageHi(l, GroupHi(l, At(s, t).c0))
  {
    assert PcOk(l, s, t);
    match At(s, t)
    case Waiting(_, _) => step := Acquire(t);
    case Filling(_, _, _, _) => step := HolderMoves(l, outputs, s, t);
    case Copying(_, c0) =>
      CopyFits(l, c0);
      step := Copy(t, PageHi(l, GroupHi(l, c0)));
  }

  lemma AloneStep(l: Layout, outputs: seq<seq<byte>>, s: Server, step: Step)
    requires Inv(l, outputs, s) && Enabled(l, outputs, s, step) && !step.Fault?
    requires s.holder == None || s.holder == Some(step.t)
    ensures var s' := Next(l, outputs, s, step);
            && (s'.holder == None || s'.holder == Some(step.t))
            && (step.Copy? ==> s'.holder == None && At(s', step.t) == Idle)
            && forall u :: u != step.t ==> At(s', u) == At(s, u)
  {
    hide Written, CopiedBytes, PageLo, PageHi, Layout.Owner, ContentOk, GroupLo, GroupHi;
    assert PcOk(l, s, step.t);
  }

  lemma WholeCopy(l: Layout, outputs: seq<seq<byte>>, s: Server, step: Step, m: nat, off: nat)
    requires Inv(l, outputs, s) && Enabled(l, outputs, s, step) && step.Copy?
    requires off < l.Mapped() && Aims(At(s, step.t), m, l.Owner(off))
    requires step.upTo == PageHi(l, GroupHi(l, At(s, step.t).c0))
    ensures forall x: nat :: PageFloor(off, l.ps) <= x < PageFloor(off, l.ps) + l.ps ==>
              Delivery(m, x, SourceByte(Concat(outputs), x)) in Next(l, outputs, s, step).delivered
  {
    hide Next, Layout.Owner, PageFloor, SourceByte, Concat, ContentOk, GroupLo, GroupHi, PageLo, PageHi,
         Layout.Mapped, Enabled, PcOk;
    CopyCoversFault(l, off);
    forall x: nat | PageFloor(off, l.ps) <= x < PageFloor(off, l.ps) + l.ps
      ensures Delivery(m, x, SourceByte(Concat(outputs), x)) in Next(l, outputs, s, step).delivered
    {
      CopyServes(l, outputs, s, step.t, step.upTo, m, off, x);
    }
  }

  ghost predicate SameByte(was: Server, now: Server, x: nat) {
    x < |was.content| && x < |now.content| && now.content[x] == was.content[x]
  }

  /** The bytes of the chunks resolved in `was` are the same in `now`. */
  ghost predicate Kept(l: Layout, was: Server, now: Server) {
    && l.Valid() && |was.resolved| == l.N()
    && forall c: nat, x: nat :: c < l.N() && was.resolved[c] && l.starts[c] <= x < l.starts[c + 1]
         ==> SameByte(was, now, x)
  }
}
