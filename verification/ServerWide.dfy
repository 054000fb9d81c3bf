/** The whole server: any number of regions, resolved by any number of connection
    threads under one lock, with new regions appearing in between. */
module ServerWide {
  import opened Basics
  import opened Pages
  import opened Layouts
  import opened SharedPages
  import opened ServerGroups
  import opened ServerRuns

  datatype RegionState = RegionState(
    l: Layout,
    outputs: seq<seq<byte>>,
    content: seq<byte>,
    resolved: seq<bool>,
    fills: seq<nat>,
    delivered: set<Delivery>)

  /** A thread inside `resolve_fault` is there for one region. */
  datatype Place = Place(rid: nat, pc: Pc)

  datatype Whole = Whole(regions: map<nat, RegionState>, holder: Option<nat>, places: map<nat, Place>)

  datatype Turn =
    | InRegion(rid: nat, step: Step)
    | NewRegion(newRid: nat, newRegion: RegionState)

  /** The threads at work in a region. */
  ghost function Local(places: map<nat, Place>, rid: nat): (threads: map<nat, Pc>) {
    map t | t in places && places[t].rid == rid :: places[t].pc
  }

  /** What one region sees of the server. */
  ghost function View(w: Whole, rid: nat): Server
    requires rid in w.regions
  {
    var r := w.regions[rid];
    Server(r.content, r.resolved, r.fills,
           if w.holder.Some? && w.holder.value in w.places && w.places[w.holder.value].rid == rid
           then w.holder else None,
           Local(w.places, rid),
           r.delivered)
  }

  ghost predicate RegionFits(w: Whole, rid: nat) {
    rid in w.regions && Shape(w.regions[rid].l, w.regions[rid].outputs, View(w, rid))
  }

  ghost predicate TurnEnabled(w: Whole, turn: Turn) {
    match turn
    case InRegion(rid, step) =>
      && RegionFits(w, rid) && Enabled(w.regions[rid].l, w.regions[rid].outputs, View(w, rid), step)
      && (if step.Fault? then step.t !in w.places else step.t in w.places && w.places[step.t].rid == rid)
      && (step.Acquire? ==> w.holder == None)
    case NewRegion(rid, r) => rid !in w.regions && w.holder == None && Untouched(r)
  }

  /** `create_region`: zeroed content, nothing resolved. */
  ghost predicate Untouched(r: RegionState) {
    Initial(r.l, r.outputs, Server(r.content, r.resolved, r.fills, None, map[], r.delivered))
  }

  ghost function TurnTaken(w: Whole, turn: Turn): Whole
    requires TurnEnabled(w, turn)
  {
    match turn
    case InRegion(rid, step) =>
      var r := w.regions[rid];
      var s := Next(r.l, r.outputs, View(w, rid), step);
      Whole(w.regions[rid := RegionState(r.l, r.outputs, s.content, s.resolved, s.fills, s.delivered)],
            if step.Acquire? then Some(step.t) else if step.Release? then None else w.holder,
            if step.Copy? then w.places - {step.t} else w.places[step.t := Place(rid, At(s, step.t))])
    case NewRegion(rid, r) => w.(regions := w.regions[rid := r])
  }

  // --------------------------------------------------------------- invariant

  ghost predicate RegionInv(w: Whole, rid: nat) {
    rid in w.regions && Inv(w.regions[rid].l, w.regions[rid].outputs, View(w, rid))
  }

  ghost predicate WholeInv(w: Whole) {
    && (forall rid :: rid in w.regions ==> RegionInv(w, rid))
    && (w.holder.Some? ==> w.holder.value in w.places)
    && forall t :: t in w.places ==> w.places[t].rid in w.regions
  }

  /** A thread in its loop holds the lock; outside it does not. */
  lemma HolderFills(w: Whole, rid: nat, t: nat)
    requires WholeInv(w) && rid in w.regions
    ensures At(View(w, rid), t).Filling? <==> View(w, rid).holder == Some(t)
  {
    hide ContentOk, GroupLo, GroupHi;
    assert RegionInv(w, rid);
    assert PcOk(w.regions[rid].l, View(w, rid), t);
  }

  /** The region a thread works in takes that thread's step. */
  lemma OwnView(w: Whole, rid: nat, step: Step)
    requires WholeInv(w) && TurnEnabled(w, InRegion(rid, step))
    ensures var w', r := TurnTaken(w, InRegion(rid, step)), w.regions[rid];
            View(w', rid) == Next(r.l, r.outputs, View(w, rid), step)
  {
    hide Inv, WholeInv, ContentOk, Written, CopiedBytes, GroupLo, GroupHi, PageLo, PageHi, Layout.Owner;
    HolderFills(w, rid, step.t);
    HolderKnown(w);
    var r := w.regions[rid];
    var s, w' := Next(r.l, r.outputs, View(w, rid), step), TurnTaken(w, InRegion(rid, step));
    assert Local(w'.places, rid) == s.threads;
  }

  lemma HolderKnown(w: Whole)
    requires WholeInv(w)
    ensures w.holder.Some? ==> w.holder.value in w.places
  {
  }

  /** The others do not notice. */
  lemma OtherView(w: Whole, rid: nat, step: Step, other: nat)
    requires WholeInv(w) && TurnEnabled(w, InRegion(rid, step)) && other in w.regions && other != rid
    ensures View(TurnTaken(w, InRegion(rid, step)), other) == View(w, other)
  {
    hide Next, Enabled, Inv, Initial;
    HolderFills(w, rid, step.t);
    var w' := TurnTaken(w, InRegion(rid, step));
    InLoopFills(w, rid, step);
    assert Local(w'.places, other) == Local(w.places, other);
  }

  lemma InLoopFills(w: Whole, rid: nat, step: Step)
    requires TurnEnabled(w, InRegion(rid, step))
    ensures step.Release? ==> At(View(w, rid), step.t).Filling?
    ensures step.Copy? ==> At(View(w, rid), step.t).Copying?
  {
  }

  lemma NewView(w: Whole, rid: nat, r: RegionState)
    requires WholeInv(w) && TurnEnabled(w, NewRegion(rid, r))
    ensures View(TurnTaken(w, NewRegion(rid, r)), rid)
         == Server(r.content, r.resolved, r.fills, None, map[], r.delivered)
    ensures forall other :: other in w.regions ==> View(TurnTaken(w, NewRegion(rid, r)), other) == View(w, other)
  {
    hide Initial, Inv;
    assert View(TurnTaken(w, NewRegion(rid, r)), rid).threads == map[];
  }

  lemma TurnRegion(w: Whole, turn: Turn, rid: nat)
    requires WholeInv(w) && TurnEnabled(w, turn) && rid in TurnTaken(w, turn).regions
    ensures RegionInv(TurnTaken(w, turn), rid)
  {
    hide Inv, Enabled, Initial, Next, WholeInv, View;
    match turn
    case InRegion(own, step) =>
      RegionHas(w, rid);
      if rid == own {
        OwnView(w, rid, step);
        StepInv(w.regions[rid].l, w.regions[rid].outputs, View(w, rid), step);
      } else {
        OtherView(w, own, step, rid);
      }
    case NewRegion(own, r) =>
      NewView(w, own, r);
      if rid == own {
        InitialInv(r.l, r.outputs, Server(r.content, r.resolved, r.fills, None, map[], r.delivered));
      } else {
        RegionHas(w, rid);
      }
  }

  lemma RegionHas(w: Whole, rid: nat)
    requires WholeInv(w) && rid in w.regions
    ensures RegionInv(w, rid)
  {
  }

  lemma TurnInv(w: Whole, turn: Turn)
    requires WholeInv(w) && TurnEnabled(w, turn)
    ensures WholeInv(TurnTaken(w, turn))
  {
    var w' := TurnTaken(w, turn);
    forall rid | rid in w'.regions
      ensures RegionInv(w', rid)
    {
      TurnRegion(w, turn, rid);
    }
    HolderStays(w, turn);
  }

  lemma HolderStays(w: Whole, turn: Turn)
    requires WholeInv(w) && TurnEnabled(w, turn)
    ensures var w' := TurnTaken(w, turn);
            && (w'.holder.Some? ==> w'.holder.value in w'.places)
            && forall t :: t in w'.places ==> w'.places[t].rid in w'.regions
  {
    hide Next, Enabled, Inv, Initial, RegionInv;
    if turn.InRegion? {
      HolderFills(w, turn.rid, turn.step.t);
      InLoopFills(w, turn.rid, turn.step);
    }
  }

  // -------------------------------------------------------------------- runs

  ghost predicate IsWholeRun(ws: seq<Whole>, turns: seq<Turn>) {
    && |ws| == |turns| + 1
    && ws[0] == Whole(map[], None, map[])
    && forall i :: 0 <= i < |turns| ==> TurnEnabled(ws[i], turns[i]) && ws[i + 1] == TurnTaken(ws[i], turns[i])
  }

  lemma {:induction false} WholeRunInv(ws: seq<Whole>, turns: seq<Turn>, n: nat)
    requires IsWholeRun(ws, turns) && n <= |turns|
    ensures WholeInv(ws[n])
  {
    hide TurnEnabled, TurnTaken, RegionInv;
    if n > 0 {
      WholeRunInv(ws, turns, n - 1);
      TurnInv(ws[n - 1], turns[n - 1]);
    }
  }

  /** The region is the same, and its resolved chunks are, byte for byte. */
  ghost predicate RegionKept(r: RegionState, r': RegionState) {
    && r'.l == r.l && r'.outputs == r.outputs && r.l.Valid()
    && |r.resolved| == |r'.resolved| == r.l.N() && |r.content| == |r'.content| == r.l.Mapped()
    && forall c: nat :: c < r.l.N() && r.resolved[c] ==> r'.resolved[c] && SameChunk(r, r', c)
  }

  ghost predicate InChunk(l: Layout, c: nat, x: nat)
    requires l.Valid() && c < l.N()
  {
    l.starts[c] <= x < l.starts[c + 1]
  }

  ghost predicate SameChunk(r: RegionState, r': RegionState, c: nat)
    requires r.l.Valid() && c < r.l.N() && |r.content| == |r'.content| == r.l.Mapped()
  {
    forall x: nat :: InChunk(r.l, c, x) && x < |r.content| ==> r'.content[x] == r.content[x]
  }

  lemma TurnKeeps(w: Whole, turn: Turn, rid: nat)
    requires WholeInv(w) && TurnEnabled(w, turn) && rid in w.regions
    ensures rid in TurnTaken(w, turn).regions && RegionKept(w.regions[rid], TurnTaken(w, turn).regions[rid])
  {
    hide ContentOk, PcOk, Initial, Enabled, Next, WholeInv;
    RegionHas(w, rid);
    var r := w.regions[rid];
    if turn.InRegion? && turn.rid == rid {
      ShapeKept(w, rid, turn.step);
      forall c: nat, x: nat | c < r.l.N() && r.resolved[c] && InChunk(r.l, c, x)
        ensures TurnTaken(w, turn).regions[rid].resolved[c]
        ensures x < |r.content| && TurnTaken(w, turn).regions[rid].content[x] == r.content[x]
      {
        ResolvedStaysPut(r.l, r.outputs, View(w, rid), turn.step, c, x);
      }
      ChunksNonempty(r, TurnTaken(w, turn).regions[rid]);
    }
  }

  lemma ShapeKept(w: Whole, rid: nat, step: Step)
    requires RegionInv(w, rid) && TurnEnabled(w, InRegion(rid, step))
    ensures var r, r' := w.regions[rid], TurnTaken(w, InRegion(rid, step)).regions[rid];
            && r'.l == r.l && r'.outputs == r.outputs && r.l.Valid()
            && |r.resolved| == |r'.resolved| == r.l.N() && |r.content| == |r'.content| == r.l.Mapped()
  {
    hide ContentOk, PcOk, Initial;
    ContentStep(w.regions[rid].l, w.regions[rid].outputs, View(w, rid), step);
  }

  lemma ChunksNonempty(r: RegionState, r': RegionState)
    requires r'.l == r.l && r'.outputs == r.outputs && r.l.Valid()
    requires |r.resolved| == |r'.resolved| == r.l.N() && |r.content| == |r'.content| == r.l.Mapped()
    requires forall c: nat, x: nat :: c < r.l.N() && r.resolved[c] && InChunk(r.l, c, x)
               ==> r'.resolved[c] && x < |r.content| && r'.content[x] == r.content[x]
    ensures RegionKept(r, r')
  {
    forall c: nat | c < r.l.N() && r.resolved[c]
      ensures r'.resolved[c] && SameChunk(r, r', c)
    {
      assert InChunk(r.l, c, r.l.starts[c]);
    }
  }

  lemma KeptTrans(a: RegionState, b: RegionState, c: RegionState)
    requires RegionKept(a, b) && RegionKept(b, c)
    ensures RegionKept(a, c)
  {
    forall k: nat | k < a.l.N() && a.resolved[k]
      ensures c.resolved[k] && SameChunk(a, c, k)
    {
      assert SameChunk(a, b, k) && SameChunk(b, c, k);
    }
  }

  lemma KeptSelf(w: Whole, rid: nat)
    requires RegionInv(w, rid)
    ensures RegionKept(w.regions[rid], w.regions[rid])
  {
    hide ContentOk, PcOk;
  }

  lemma {:induction false} KeptOverRun(ws: seq<Whole>, turns: seq<Turn>, i: nat, n: nat, rid: nat)
    requires IsWholeRun(ws, turns) && i <= n <= |turns| && rid in ws[i].regions
    ensures rid in ws[n].regions && RegionKept(ws[i].regions[rid], ws[n].regions[rid])
    decreases n
  {
    hide TurnEnabled, TurnTaken, RegionKept, WholeInv;
    WholeRunInv(ws, turns, i);
    if i < n {
      KeptOverRun(ws, turns, i, n - 1, rid);
      WholeRunInv(ws, turns, n - 1);
      TurnKeeps(ws[n - 1], turns[n - 1], rid);
      KeptTrans(ws[i].regions[rid], ws[n - 1].regions[rid], ws[n].regions[rid]);
    } else {
      RegionHas(ws[i], rid);
      KeptSelf(ws[i], rid);
    }
  }

  /** What holds of a region of a running server. */
  ghost predicate Served(r: RegionState) {
    && r.l.Valid() && |r.fills| == |r.resolved| == r.l.N()
    && (forall c :: 0 <= c < r.l.N() ==> r.fills[c] == if r.resolved[c] then 1 else 0)
    && forall d :: d in r.delivered ==> d.value == SourceByte(Concat(r.outputs), d.off)
  }

  /** Concurrent runs of the whole server: in every interleaving, in every
      region, each chunk has been derived at most once, every byte any mapping
      received is the derived one, and resolved bytes stay as they are. */
  lemma ConcurrentServer(ws: seq<Whole>, turns: seq<Turn>, n: nat)
    requires IsWholeRun(ws, turns) && n <= |turns|
    ensures forall rid :: rid in ws[n].regions ==> Served(ws[n].regions[rid])
    ensures forall i, rid :: 0 <= i <= n && rid in ws[i].regions
              ==> rid in ws[n].regions && RegionKept(ws[i].regions[rid], ws[n].regions[rid])
  {
    hide TurnEnabled, TurnTaken, RegionKept;
    WholeRunInv(ws, turns, n);
    forall rid | rid in ws[n].regions
      ensures Served(ws[n].regions[rid])
    {
      assert RegionInv(ws[n], rid);
    }
    forall i, rid | 0 <= i <= n && rid in ws[i].regions
      ensures rid in ws[n].regions && RegionKept(ws[i].regions[rid], ws[n].regions[rid])
    {
      KeptOverRun(ws, turns, i, n, rid);
    }
  }

  // ------------------------------------------- a region's part of a whole run

  /** `ss` and `steps` are what region `rid` sees of the first `n` turns; step
      `k` is turn `at[k]`. */
  ghost predicate Sees(ws: seq<Whole>, turns: seq<Turn>, n: nat, rid: nat,
                       ss: seq<Server>, steps: seq<Step>, at: seq<nat>)
    requires IsWholeRun(ws, turns) && n <= |turns|
  {
    && rid in ws[n].regions && IsRun(ws[n].regions[rid].l, ws[n].regions[rid].outputs, ss, steps)
    && |at| == |steps| && |ss| == |steps| + 1 && ss[|steps|] == View(ws[n], rid)
    && (forall k :: 0 <= k < |at| ==> SeenAt(ws, turns, n, rid, ss[k], steps[k], at[k]))
    && (forall k, k' :: 0 <= k < k' < |at| ==> at[k] < at[k'])
    && forall i: nat :: i < n && turns[i].InRegion? && turns[i].rid == rid ==> i in at
  }

  ghost predicate SeenAt(ws: seq<Whole>, turns: seq<Turn>, n: nat, rid: nat, s: Server, step: Step, i: nat)
    requires IsWholeRun(ws, turns) && n <= |turns|
  {
    i < n && turns[i] == InRegion(rid, step) && rid in ws[i].regions && s == View(ws[i], rid)
  }

  lemma {:induction false} RegionRun(ws: seq<Whole>, turns: seq<Turn>, n: nat, rid: nat)
    returns (ss: seq<Server>, steps: seq<Step>, at: seq<nat>)
    requires IsWholeRun(ws, turns) && n <= |turns| && rid in ws[n].regions
    ensures Sees(ws, turns, n, rid, ss, steps, at)
  {
    hide Next, Enabled, Initial, Shape, WholeInv, View;
    WholeRunInv(ws, turns, n - 1);
    var w, turn := ws[n - 1], turns[n - 1];
    if rid in w.regions {
      ss, steps, at := RegionRun(ws, turns, n - 1, rid);
      if turn.InRegion? && turn.rid == rid {
        OwnView(w, rid, turn.step);
        TurnFits(w, rid, turn.step);
        OneMoreStep(ws, turns, n - 1, rid, ss, steps, at);
        ss, steps, at := ss + [View(ws[n], rid)], steps + [turn.step], at + [n - 1];
      } else {
        ViewKept(w, turn, rid);
        Unseen(ws, turns, n - 1, rid, ss, steps, at);
      }
    } else {
      NewView(w, rid, turn.newRegion);
      ss, steps, at := [View(ws[n], rid)], [], [];
      NotSeenBefore(ws, turns, n - 1, rid);
    }
  }

  lemma TurnFits(w: Whole, rid: nat, step: Step)
    requires TurnEnabled(w, InRegion(rid, step))
    ensures Shape(w.regions[rid].l, w.regions[rid].outputs, View(w, rid))
    ensures Enabled(w.regions[rid].l, w.regions[rid].outputs, View(w, rid), step)
    ensures var r, r' := w.regions[rid], TurnTaken(w, InRegion(rid, step)).regions[rid];
            r'.l == r.l && r'.outputs == r.outputs
  {
    hide Next, Enabled, Shape;
  }

  lemma ViewKept(w: Whole, turn: Turn, rid: nat)
    requires WholeInv(w) && TurnEnabled(w, turn) && rid in w.regions && !(turn.InRegion? && turn.rid == rid)
    ensures var w' := TurnTaken(w, turn);
            rid in w'.regions && w'.regions[rid] == w.regions[rid] && View(w', rid) == View(w, rid)
  {
    hide Next, Enabled, Initial, View, WholeInv;
    match turn
    case InRegion(own, step) => OtherView(w, own, step, rid);
    case NewRegion(own, r) => NewView(w, own, r);
  }

  lemma NotSeenBefore(ws: seq<Whole>, turns: seq<Turn>, n: nat, rid: nat)
    requires IsWholeRun(ws, turns) && n <= |turns| && rid !in ws[n].regions
    ensures forall i: nat :: i < n && turns[i].InRegion? ==> turns[i].rid != rid
  {
    hide Next, Enabled, Initial, Shape;
    forall i: nat | i < n && turns[i].InRegion?
      ensures turns[i].rid != rid
    {
      if turns[i].rid == rid {
        KeptOverRun(ws, turns, i, n, rid);
      }
    }
  }

  lemma Unseen(ws: seq<Whole>, turns: seq<Turn>, n: nat, rid: nat, ss: seq<Server>, steps: seq<Step>, at: seq<nat>)
    requires IsWholeRun(ws, turns) && n < |turns| && Sees(ws, turns, n, rid, ss, steps, at)
    requires !(turns[n].InRegion? && turns[n].rid == rid)
    requires rid in ws[n + 1].regions && ws[n + 1].regions[rid] == ws[n].regions[rid]
    requires View(ws[n + 1], rid) == View(ws[n], rid)
    ensures Sees(ws, turns, n + 1, rid, ss, steps, at)
  {
    hide TurnEnabled, TurnTaken, View, IsRun;
    forall k | 0 <= k < |at|
      ensures SeenAt(ws, turns, n + 1, rid, ss[k], steps[k], at[k])
    {
      assert SeenAt(ws, turns, n, rid, ss[k], steps[k], at[k]);
    }
  }

  lemma OneMoreStep(ws: seq<Whole>, turns: seq<Turn>, n: nat, rid: nat, ss: seq<Server>, steps: seq<Step>, at: seq<nat>)
    requires IsWholeRun(ws, turns) && n < |turns| && Sees(ws, turns, n, rid, ss, steps, at)
    requires turns[n].InRegion? && turns[n].rid == rid && rid in ws[n + 1].regions
    requires var r, r' := ws[n].regions[rid], ws[n + 1].regions[rid];
             && r'.l == r.l && r'.outputs == r.outputs
             && Shape(r.l, r.outputs, View(ws[n], rid)) && Enabled(r.l, r.outputs, View(ws[n], rid), turns[n].step)
             && View(ws[n + 1], rid) == Next(r.l, r.outputs, View(ws[n], rid), turns[n].step)
    ensures Sees(ws, turns, n + 1, rid, ss + [View(ws[n + 1], rid)], steps + [turns[n].step], at + [n])
  {
    hide TurnEnabled, TurnTaken, View, Next, Enabled, Initial, Shape;
    var ss', steps', at' := ss + [View(ws[n + 1], rid)], steps + [turns[n].step], at + [n];
    forall k | 0 <= k < |at'|
      ensures SeenAt(ws, turns, n + 1, rid, ss'[k], steps'[k], at'[k])
    {
      if k < |at| {
        assert SeenAt(ws, turns, n, rid, ss[k], steps[k], at[k]);
      }
    }
    forall i: nat | i < n + 1 && turns[i].InRegion? && turns[i].rid == rid
      ensures i in at'
    {
      assert i < n ==> i in at;
      assert at'[|at|] == n;
    }
    LongerRun(ws[n].regions[rid].l, ws[n].regions[rid].outputs, ss, steps, turns[n].step);
  }

  lemma LongerRun(l: Layout, outputs: seq<seq<byte>>, ss: seq<Server>, steps: seq<Step>, step: Step)
    requires IsRun(l, outputs, ss, steps) && Shape(l, outputs, ss[|steps|]) && Enabled(l, outputs, ss[|steps|], step)
    ensures IsRun(l, outputs, ss + [Next(l, outputs, ss[|steps|], step)], steps + [step])
  {
    hide Next, Enabled, Initial, Shape;
  }

  /** Turn `i` is step `k` of what the region sees. */
  lemma SeenIndex(ws: seq<Whole>, turns: seq<Turn>, n: nat, rid: nat, ss: seq<Server>, steps: seq<Step>,
                  at: seq<nat>, i: nat) returns (k: nat)
    requires IsWholeRun(ws, turns) && n <= |turns| && Sees(ws, turns, n, rid, ss, steps, at)
    requires i < n && turns[i].InRegion? && turns[i].rid == rid
    ensures k < |at| && |steps| == |at| && |ss| == |at| + 1 && at[k] == i && steps[k] == turns[i].step
    ensures rid in ws[i].regions && ss[k] == View(ws[i], rid)
  {
    hide TurnEnabled, TurnTaken, View, IsRun;
    k :| 0 <= k < |at| && at[k] == i;
    assert SeenAt(ws, turns, n, rid, ss[k], steps[k], at[k]);
  }

  /** A step that others follow is not the last turn. */
  lemma SeenEarlier(ws: seq<Whole>, turns: seq<Turn>, n: nat, rid: nat, ss: seq<Server>, steps: seq<Step>,
                    at: seq<nat>, k: nat)
    requires IsWholeRun(ws, turns) && n <= |turns| && Sees(ws, turns, n, rid, ss, steps, at) && k < |at|
    ensures k + 1 < |at| ==> at[k] + 1 < n
  {
    hide TurnEnabled, TurnTaken, View, IsRun;
    if k + 1 < |at| {
      assert SeenAt(ws, turns, n, rid, ss[k + 1], steps[k + 1], at[k + 1]);
      assert at[k] < at[k + 1];
    }
  }

  ghost predicate CopiesBetween(turns: seq<Turn>, i: nat, j: nat, rid: nat, t: nat) {
    exists n :: i < n < j && n < |turns| && turns[n].InRegion? && turns[n].rid == rid
                && turns[n].step.Copy? && turns[n].step.t == t
  }

  /** The two turns of one served fault, as steps of its region. */
  lemma ServedSteps(ws: seq<Whole>, turns: seq<Turn>, i: nat, j: nat, rid: nat, t: nat, m: nat, off: nat, upTo: nat)
    returns (ss: seq<Server>, steps: seq<Step>, at: seq<nat>, a: nat)
    requires IsWholeRun(ws, turns) && i < j < |turns|
    requires turns[i] == InRegion(rid, Fault(t, m, off)) && turns[j] == InRegion(rid, Copy(t, upTo))
    requires !CopiesBetween(turns, i, j, rid, t)
    ensures Sees(ws, turns, j + 1, rid, ss, steps, at)
    ensures a + 1 < |steps| && steps[a] == Fault(t, m, off) && steps[|steps| - 1] == Copy(t, upTo)
    ensures forall n :: a < n < |steps| - 1 ==> !(steps[n].Copy? && steps[n].t == t)
  {
    hide TurnEnabled, TurnTaken, View, IsRun;
    InRegions(ws, turns, j, rid);
    ss, steps, at := RegionRun(ws, turns, j + 1, rid);
    a := SeenIndex(ws, turns, j + 1, rid, ss, steps, at, i);
    var b := SeenIndex(ws, turns, j + 1, rid, ss, steps, at, j);
    SeenEarlier(ws, turns, j + 1, rid, ss, steps, at, b);
    assert b == |steps| - 1 && a < b;
    forall n | a < n < |steps| - 1
      ensures !(steps[n].Copy? && steps[n].t == t)
    {
      assert SeenAt(ws, turns, j + 1, rid, ss[n], steps[n], at[n]);
      assert at[a] < at[n] < at[b];
    }
  }

  lemma InRegions(ws: seq<Whole>, turns: seq<Turn>, j: nat, rid: nat)
    requires IsWholeRun(ws, turns) && j < |turns| && turns[j].InRegion? && turns[j].rid == rid
    ensures rid in ws[j].regions && rid in ws[j + 1].regions
  {
    hide Next, Enabled, Initial, Shape;
  }

  /** In every region, a fault that is served is served with its own page. */
  lemma ServerFaultIsServed(ws: seq<Whole>, turns: seq<Turn>, i: nat, j: nat, rid: nat,
                            t: nat, m: nat, off: nat, upTo: nat, x: nat)
    requires IsWholeRun(ws, turns) && i < j < |turns|
    requires turns[i] == InRegion(rid, Fault(t, m, off)) && turns[j] == InRegion(rid, Copy(t, upTo))
    requires !CopiesBetween(turns, i, j, rid, t) && rid in ws[j + 1].regions
    requires var ps := ws[j + 1].regions[rid].l.ps;
             PageFloor(off, ps) <= x < PageFloor(off, ps) + ps && x < upTo
    ensures var r := ws[j + 1].regions[rid];
            Delivery(m, x, SourceByte(Concat(r.outputs), x)) in r.delivered
  {
    hide TurnEnabled, TurnTaken, IsRun, PageFloor, SourceByte, Concat;
    var ss, steps, at, a := ServedSteps(ws, turns, i, j, rid, t, m, off, upTo);
    var r := ws[j + 1].regions[rid];
    FaultIsServed(r.l, r.outputs, ss, steps, a, |steps| - 1, t, m, off, upTo, x);
  }

  /** And with the whole page, where a copy stops early only at a page its
      mapping already has. */
  lemma ServerFaultIsServedWhole(ws: seq<Whole>, turns: seq<Turn>, i: nat, j: nat, rid: nat,
                                 t: nat, m: nat, off: nat, upTo: nat, x: nat)
    requires IsWholeRun(ws, turns) && i < j < |turns|
    requires turns[i] == InRegion(rid, Fault(t, m, off)) && turns[j] == InRegion(rid, Copy(t, upTo))
    requires !CopiesBetween(turns, i, j, rid, t) && rid in ws[j + 1].regions
    requires forall k :: 0 <= k <= j && turns[k].InRegion? && turns[k].rid == rid && rid in ws[k].regions ==>
               StopsAtPresent(ws[j + 1].regions[rid].l, View(ws[k], rid), turns[k].step)
    requires var ps := ws[j + 1].regions[rid].l.ps; PageFloor(off, ps) <= x < PageFloor(off, ps) + ps
    ensures var r := ws[j + 1].regions[rid];
            Delivery(m, x, SourceByte(Concat(r.outputs), x)) in r.delivered
  {
    hide TurnEnabled, TurnTaken, IsRun, PageFloor, SourceByte, Concat, StopsAtPresent;
    var ss, steps, at, a := ServedSteps(ws, turns, i, j, rid, t, m, off, upTo);
    var r := ws[j + 1].regions[rid];
    forall k | 0 <= k <= |steps| - 1
      ensures StopsAtPresent(r.l, ss[k], steps[k])
    {
      assert SeenAt(ws, turns, j + 1, rid, ss[k], steps[k], at[k]);
    }
    FaultIsServedWhole(r.l, r.outputs, ss, steps, a, |steps| - 1, t, m, off, upTo, x);
  }

  /** Every byte a mapping received lies in the group of a fault through it. */
  lemma ServerDeliveredWasAsked(ws: seq<Whole>, turns: seq<Turn>, n: nat, rid: nat, d: Delivery) returns (i: nat)
    requires IsWholeRun(ws, turns) && n <= |turns| && rid in ws[n].regions && d in ws[n].regions[rid].delivered
    ensures i < n && turns[i].InRegion? && turns[i].rid == rid && AskedFor(ws[n].regions[rid].l, turns[i].step, d)
  {
    hide TurnEnabled, TurnTaken, IsRun, AskedFor;
    var ss, steps, at := RegionRun(ws, turns, n, rid);
    var r := ws[n].regions[rid];
    var k := DeliveredWasAsked(r.l, r.outputs, ss, steps, |steps|, d);
    assert SeenAt(ws, turns, n, rid, ss[k], steps[k], at[k]);
    i := at[k];
  }

  /** And a chunk is resolved only if some mapping faulted in its group. */
  lemma ServerResolvedWasAsked(ws: seq<Whole>, turns: seq<Turn>, n: nat, rid: nat, c: nat) returns (i: nat)
    requires IsWholeRun(ws, turns) && n <= |turns| && rid in ws[n].regions
    requires c < |ws[n].regions[rid].resolved| && ws[n].regions[rid].resolved[c]
    ensures i < n && turns[i].InRegion? && turns[i].rid == rid && AskedForChunk(ws[n].regions[rid].l, turns[i].step, c)
  {
    hide TurnEnabled, TurnTaken, IsRun, AskedForChunk;
    var ss, steps, at := RegionRun(ws, turns, n, rid);
    var r := ws[n].regions[rid];
    var k := ResolvedWasAsked(r.l, r.outputs, ss, steps, |steps|, c);
    assert SeenAt(ws, turns, n, rid, ss[k], steps[k], at[k]);
    i := at[k];
  }

  /** No thread of the server is ever stuck: it can move, or the thread that
      holds the lock can. */
  lemma ServerNeverStuck(w: Whole, t: nat) returns (turn: Turn)
    requires WholeInv(w) && t in w.places && w.places[t].pc != Idle
    ensures TurnEnabled(w, turn) && turn.InRegion? && (turn.step.t == t || w.holder == Some(turn.step.t))
  {
    var u := if w.holder.Some? then w.holder.value else t;
    if w.holder.Some? && !w.places[t].pc.Copying? {
      HolderFills(w, w.places[u].rid, u);
      turn := PlaceMoves(w, u);
    } else {
      turn := PlaceMoves(w, t);
    }
  }

  lemma PlaceMoves(w: Whole, t: nat) returns (turn: Turn)
    requires WholeInv(w) && t in w.places && w.places[t].pc != Idle
    requires w.holder == Some(t) || w.holder == None || w.places[t].pc.Copying?
    ensures TurnEnabled(w, turn) && turn.InRegion? && turn.step.t == t
  {
    hide Enabled, PcOk, ContentOk, FillsExactly;
    var rid := w.places[t].rid;
    RegionHas(w, rid);
    var step := OwnMove(w, rid, t);
    turn := InRegion(rid, step);
  }

  lemma OwnMove(w: Whole, rid: nat, t: nat) returns (step: Step)
    requires RegionInv(w, rid) && t in w.places && w.places[t] == Place(rid, w.places[t].pc) && w.places[t].pc != Idle
    requires w.holder == Some(t) || w.holder == None || w.places[t].pc.Copying?
    ensures RegionFits(w, rid) && Enabled(w.regions[rid].l, w.regions[rid].outputs, View(w, rid), step)
    ensures step.t == t && !step.Fault? && (step.Acquire? ==> w.holder == None)
  {
    var r, s := w.regions[rid], View(w, rid);
    assert At(s, t) == w.places[t].pc;
    assert PcOk(r.l, s, t);
    match At(s, t)
    case Waiting(_, _) => step := Acquire(t);
    case Filling(_, _, _, _) => step := HolderMoves(r.l, r.outputs, s, t);
    case Copying(_, c0) =>
      CopyFits(r.l, c0);
      step := Copy(t, PageHi(r.l, GroupHi(r.l, c0)));
  }
}
