/** The SIGSEGV handler and its neighbours (`src/fault-posix.c`): who is saved,
    how far a fault is passed on, and what is installed afterwards. */
module SignalChain {
  import FaultRace

  /** A disposition. A foreign handler is known by the order of its install. */
  datatype Action = Default | Ignore | Ours | Foreign(id: nat)

  /** `installed` is the kernel's; `saved[k]` is what foreign handler `k`
      displaced; `prior` is `g_old_action`. */
  datatype Chain = Chain(installed: Action, saved: seq<Action>, prior: Action, armed: bool)

  /** What the world does with one fault: the foreign handlers that resolve it,
      and what `fault_try_resolve` answers at our first and second entry. */
  datatype Env = Env(handles: set<nat>, first: bool, second: bool)

  ghost predicate Known(c: Chain, a: Action) {
    a.Foreign? ==> a.id < |c.saved|
  }

  ghost predicate Older(saved: seq<Action>, k: nat)
    requires k < |saved|
  {
    saved[k].Foreign? ==> saved[k].id < k
  }

  /** Our handler is never its own successor, and every foreign link leads to
      an older install. */
  ghost predicate Ok(c: Chain) {
    && c.prior != Ours
    && Known(c, c.installed) && Known(c, c.prior)
    && forall k: nat :: k < |c.saved| ==> Older(c.saved, k)
  }

  // -------------------------------------------------------------- operations

  datatype Op =
    | Arm
    | Rearm
    | InstallForeign
    | SetAction(a: Action)
    | Fault(env: Env)

  function Install(c: Chain): Chain {
    c.(installed := Ours, prior := if c.installed == Ours then c.prior else c.installed, armed := true)
  }

  ghost predicate Enabled(c: Chain, op: Op) {
    op.SetAction? ==> Known(c, op.a) && (op.a == Ours ==> c.armed)
  }

  ghost function Apply(c: Chain, op: Op): Chain
    requires Ok(c) && Enabled(c, op)
  {
    match op
    case Arm => if c.armed then c else Install(c)
    case Rearm => Install(c)
    case InstallForeign => c.(saved := c.saved + [c.installed], installed := Foreign(|c.saved|))
    case SetAction(a) => c.(installed := a)
    case Fault(env) => c.(installed := Deliver(c, env).installed)
  }

  // ---------------------------------------------------------------- one fault

  /** What is installed after a fault, and the handlers that were called. */
  datatype Walked = Walked(installed: Action, calls: seq<Action>)

  function Rank(a: Action): nat {
    match a
    case Foreign(k) => k + 2
    case Ours => 1
    case _ => 0
  }

  /** `segv_handler` */
  ghost function Enter(c: Chain, chaining: bool, env: Env): Walked
    requires Ok(c)
    decreases if chaining then 0 else 1, 0
  {
    if (if chaining then env.second else env.first) then Walked(c.installed, [Ours])
    else if chaining then Walked(Default, [Ours])
    else var w := PassOn(c, c.prior, true, env); w.(calls := [Ours] + w.calls)
  }

  /** A handler hands a fault to the action it displaced. */
  ghost function PassOn(c: Chain, a: Action, chaining: bool, env: Env): Walked
    requires Ok(c) && Known(c, a)
    decreases if chaining then 0 else 1, Rank(a)
  {
    match a
    case Ours => Enter(c, chaining, env)
    case Foreign(k) =>
      if k in env.handles then Walked(c.installed, [a])
      else
        assert Older(c.saved, k);
        var w := PassOn(c, c.saved[k], chaining, env); w.(calls := [a] + w.calls)
    case _ => Walked(a, [])
  }

  /** The kernel delivers a fault to the installed action. */
  ghost function Deliver(c: Chain, env: Env): Walked
    requires Ok(c)
  {
    PassOn(c, c.installed, false, env)
  }

  // --------------------------------------------------------------- invariant

  ghost function Bottom(c: Chain, a: Action, handles: set<nat>): (r: Action)
    requires Ok(c) && Known(c, a)
    ensures r.Foreign? ==> r.id in handles && Known(c, r)
    decreases Rank(a)
  {
    if a.Foreign? && a.id !in handles then
      assert Older(c.saved, a.id);
      Bottom(c, c.saved[a.id], handles)
    else a
  }

  /** What stays installed when a walk ends at `b`. */
  ghost function LeftAt(c: Chain, b: Action, chaining: bool, env: Env): Action
    requires Ok(c)
  {
    if b.Foreign? then c.installed else if b.Ours? then Enter(c, chaining, env).installed else b
  }

  lemma {:induction false} PassOnInstalled(c: Chain, a: Action, chaining: bool, env: Env)
    requires Ok(c) && Known(c, a)
    ensures var b := Bottom(c, a, env.handles);
            PassOn(c, a, chaining, env).installed == LeftAt(c, b, chaining, env)
    decreases Rank(a)
  {
    if a.Foreign? && a.id !in env.handles {
      assert Older(c.saved, a.id);
      PassOnInstalled(c, c.saved[a.id], chaining, env);
    }
  }

  /** What a fault leaves installed when our handler is the installed one. */
  lemma DispositionAfterFault(c: Chain, env: Env)
    requires Ok(c) && c.installed == Ours
    ensures var b, after := Bottom(c, c.prior, env.handles), Deliver(c, env).installed;
            && (after == Ours <==> env.first || b.Foreign? || (b.Ours? && env.second))
            && (!env.first && (b.Default? || b.Ignore?) ==> after == b)
            && (!env.first && b.Ours? && !env.second ==> after == Default)
  {
    PassOnInstalled(c, c.prior, true, env);
  }

  lemma ApplyOk(c: Chain, op: Op)
    requires Ok(c) && Enabled(c, op)
    ensures Ok(Apply(c, op))
  {
    match op
    case Fault(env) => DeliveredKnown(c, env);
    case InstallForeign =>
      var c' := Apply(c, op);
      forall k: nat | k < |c'.saved|
        ensures Older(c'.saved, k)
      {
        if k < |c.saved| {
          assert Older(c.saved, k);
        }
      }
    case _ =>
  }

  lemma DeliveredKnown(c: Chain, env: Env)
    requires Ok(c)
    ensures Known(c, Deliver(c, env).installed)
  {
    PassOnInstalled(c, c.installed, false, env);
    PassOnInstalled(c, c.prior, true, env);
  }

  // ------------------------------------------------------------- termination

  function Count(calls: seq<Action>, a: Action): nat {
    multiset(calls)[a]
  }

  lemma CountCons(a: Action, calls: seq<Action>, b: Action)
    ensures Count([a] + calls, b) == Count(calls, b) + if a == b then 1 else 0
  {
    assert multiset([a] + calls) == multiset{a} + multiset(calls);
  }

  /** From an action down, each handler is called at most once before the walk
      ends or comes back to us, and only older ones are. */
  lemma {:induction false} PassOnCalls(c: Chain, a: Action, env: Env, b: Action)
    requires Ok(c) && Known(c, a)
    ensures Count(PassOn(c, a, true, env).calls, b) <= if Rank(b) <= Rank(a) then 1 else 0
    decreases Rank(a)
  {
    var w := PassOn(c, a, true, env);
    if a.Foreign? && a.id !in env.handles {
      assert Older(c.saved, a.id);
      PassOnCalls(c, c.saved[a.id], env, b);
      CountCons(a, PassOn(c, c.saved[a.id], true, env).calls, b);
    } else if w.calls != [] {
      assert w.calls == [a] + [];
      CountCons(a, [], b);
    }
  }

  /** With the part of the walk before our first entry: above `a`, only what
      follows that entry is called. */
  lemma {:induction false} CallsAtMostTwice(c: Chain, a: Action, env: Env, b: Action)
    requires Ok(c) && Known(c, a)
    ensures Count(PassOn(c, a, false, env).calls, b) <= if Rank(b) <= Rank(a) then 2 else 1
    decreases Rank(a)
  {
    if a.Foreign? && a.id !in env.handles {
      assert Older(c.saved, a.id);
      CallsAtMostTwice(c, c.saved[a.id], env, b);
      CountCons(a, PassOn(c, c.saved[a.id], false, env).calls, b);
    } else if a == Ours && !env.first {
      PassOnCalls(c, c.prior, env, b);
      CountCons(Ours, PassOn(c, c.prior, true, env).calls, b);
    } else {
      var w := PassOn(c, a, false, env);
      if w.calls != [] {
        assert w.calls == [a] + [];
        CountCons(a, [], b);
      }
    }
  }

  /** A fault walks a finite chain: it enters us, and every other handler, at
      most twice, whatever was installed in which order. */
  lemma WalkIsFinite(c: Chain, env: Env, b: Action)
    requires Ok(c)
    ensures Count(Deliver(c, env).calls, b) <= 2
  {
    CallsAtMostTwice(c, c.installed, env, b);
  }

  // -------------------------------------------------------------- whole runs

  ghost predicate Run(cs: seq<Chain>, ops: seq<Op>) {
    && |cs| == |ops| + 1
    && Unarmed(cs[0])
    && forall i: nat :: i < |ops| ==> Ok(cs[i]) && Enabled(cs[i], ops[i]) && cs[i + 1] == Apply(cs[i], ops[i])
  }

  /** Before `fault_arm` nobody has heard of our handler. */
  ghost predicate Unarmed(c: Chain) {
    Ok(c) && !c.armed && c.prior == Default && c.installed != Ours && Ours !in c.saved
  }

  /** Over any run the saved action is never our own handler, so a fault walks
      a finite chain at every point. */
  lemma {:induction false} RunOk(cs: seq<Chain>, ops: seq<Op>, i: nat)
    requires Run(cs, ops) && i < |cs|
    ensures Ok(cs[i]) && cs[i].prior != Ours
  {
    if i > 0 {
      ApplyOk(cs[i - 1], ops[i - 1]);
    }
  }

  /** Passing on from us never leads back to us. */
  ghost predicate Acyclic(c: Chain) {
    && Ok(c)
    && (c.armed ==> Bottom(c, c.prior, {}) != Ours)
    && (!c.armed ==> Unarmed(c))
  }

  lemma {:induction false} BottomGrows(c: Chain, c': Chain, a: Action)
    requires Ok(c) && Ok(c') && Known(c, a) && c.saved <= c'.saved
    ensures Known(c', a) && Bottom(c', a, {}) == Bottom(c, a, {})
    decreases Rank(a)
  {
    if a.Foreign? {
      assert Older(c.saved, a.id);
      BottomGrows(c, c', c.saved[a.id]);
    }
  }

  lemma {:induction false} BottomUnarmed(c: Chain, a: Action)
    requires Ok(c) && Known(c, a) && a != Ours && Ours !in c.saved
    ensures Bottom(c, a, {}) != Ours
    decreases Rank(a)
  {
    if a.Foreign? {
      assert Older(c.saved, a.id);
      BottomUnarmed(c, c.saved[a.id]);
    }
  }

  lemma {:induction false} UnarmedStays(c: Chain, a: Action, env: Env)
    requires Unarmed(c) && Known(c, a) && a != Ours
    ensures PassOn(c, a, false, env).installed != Ours
    decreases Rank(a)
  {
    if a.Foreign? && a.id !in env.handles {
      assert Older(c.saved, a.id);
      UnarmedStays(c, c.saved[a.id], env);
    }
  }

  /** A cycle is closed by a re-arm over a handler that chains to us, and by
      nothing else. */
  lemma CycleExactly(c: Chain, op: Op)
    requires Acyclic(c) && Enabled(c, op)
    ensures Acyclic(Apply(c, op)) <==> !(op.Rearm? && c.installed != Ours && Bottom(c, c.installed, {}) == Ours)
  {
    var c' := Apply(c, op);
    ApplyOk(c, op);
    if c'.prior == c.prior {
      BottomGrows(c, c', c.prior);
    } else {
      BottomGrows(c, c', c.installed);
    }
    if !c.armed {
      if c.installed != Ours {
        BottomUnarmed(c, c.installed);
      }
      if op.Fault? {
        UnarmedStays(c, c.installed, op.env);
      }
    }
  }

  /** While passing on never leads back to us, a fault enters us at most once. */
  lemma {:induction false} EnteredOnce(c: Chain, a: Action, env: Env)
    requires Acyclic(c) && Known(c, a)
    ensures Count(PassOn(c, a, false, env).calls, Ours) <= 1
    decreases Rank(a)
  {
    if a.Foreign? && a.id !in env.handles {
      assert Older(c.saved, a.id);
      EnteredOnce(c, c.saved[a.id], env);
      CountCons(a, PassOn(c, c.saved[a.id], false, env).calls, Ours);
    } else if a == Ours && !env.first {
      if !c.armed {
        BottomUnarmed(c, c.prior);
      }
      NeverBack(c, c.prior, env);
      CountCons(Ours, PassOn(c, c.prior, true, env).calls, Ours);
    } else {
      var w := PassOn(c, a, false, env);
      if w.calls != [] {
        assert w.calls == [a] + [];
        CountCons(a, [], Ours);
      }
    }
  }

  lemma {:induction false} NeverBack(c: Chain, a: Action, env: Env)
    requires Ok(c) && Known(c, a) && Bottom(c, a, {}) != Ours
    ensures Count(PassOn(c, a, true, env).calls, Ours) == 0
    decreases Rank(a)
  {
    if a.Foreign? {
      assert Older(c.saved, a.id);
      NeverBack(c, c.saved[a.id], env);
      CountCons(a, PassOn(c, c.saved[a.id], true, env).calls, Ours);
      CountCons(a, [], Ours);
      assert [a] + [] == [a];
    }
  }

  /** The cycle exists: arm, a library installs over us, re-arm. A fault nobody
      resolves then enters us twice and ends at the default disposition. */
  lemma RearmedCycle(env: Env)
    requires env.handles == {} && !env.first && !env.second
    ensures var c0 := Chain(Default, [], Default, false);
            && Unarmed(c0)
            && var c := Apply(Apply(Apply(c0, Arm), InstallForeign), Rearm);
               && Ok(c) && !Acyclic(c)
               && Deliver(c, env) == Walked(Default, [Ours, Foreign(0), Ours])
  {
    var c := Chain(Ours, [Ours], Foreign(0), true);
    assert Older(c.saved, 0);
    assert PassOn(c, Ours, true, env) == Walked(Default, [Ours]);
    assert PassOn(c, Foreign(0), true, env) == Walked(Default, [Foreign(0), Ours]);
  }

  // ------------------------------------------- faults while others install

  /** Where a thread's handler is: about to run an action, or through. */
  datatype Cursor = Through | At(a: Action, chaining: bool)

  datatype Turn = Own | Other(op: Op)

  /** A thread's next call, at worst: nobody on its way resolves the fault. */
  ghost function Advance(c: Chain, cur: Cursor): Cursor
    requires Ok(c) && (cur.At? ==> Known(c, cur.a))
  {
    match cur
    case Through => Through
    case At(Foreign(k), chaining) => At(c.saved[k], chaining)
    case At(Ours, false) => At(c.prior, true)
    case _ => Through
  }

  function Left(cur: Cursor, n: nat): nat {
    match cur
    case Through => 0
    case At(a, chaining) => Rank(a) + 1 + if chaining then 0 else n + 2
  }

  ghost predicate Interleaved(cs: seq<Chain>, curs: seq<Cursor>, turns: seq<Turn>) {
    && |cs| == |turns| + 1 && |curs| == |turns| + 1
    && forall i: nat :: i < |turns| ==> TurnTaken(cs[i], curs[i], turns[i], cs[i + 1], curs[i + 1])
  }

  ghost predicate TurnTaken(c: Chain, cur: Cursor, turn: Turn, c': Chain, cur': Cursor) {
    && Ok(c) && (cur.At? ==> Known(c, cur.a))
    && match turn
       case Own => cur != Through && c' == c && cur' == Advance(c, cur)
       case Other(op) => Enabled(c, op) && c' == Apply(c, op) && cur' == cur
  }

  function OwnTurns(turns: seq<Turn>): nat {
    if turns == [] then 0 else OwnTurns(turns[..|turns| - 1]) + if turns[|turns| - 1] == Own then 1 else 0
  }

  /** However other threads install and re-arm while a fault is being passed on,
      it makes at most two rounds of the handlers there are in the end. */
  lemma {:induction false} InterleavedFinite(cs: seq<Chain>, curs: seq<Cursor>, turns: seq<Turn>, n: nat)
    requires Interleaved(cs, curs, turns)
    requires forall i: nat :: i < |cs| ==> |cs[i].saved| <= n
    requires Ok(cs[0]) && curs[0].At? && Known(cs[0], curs[0].a) && !curs[0].chaining
    ensures OwnTurns(turns) <= 2 * n + 4
  {
    LeftShrinks(cs, curs, turns, n);
  }

  lemma {:induction false} LeftShrinks(cs: seq<Chain>, curs: seq<Cursor>, turns: seq<Turn>, n: nat)
    requires Interleaved(cs, curs, turns)
    requires forall i: nat :: i < |cs| ==> |cs[i].saved| <= n
    ensures OwnTurns(turns) + Left(curs[|turns|], n) <= Left(curs[0], n)
    decreases |turns|
  {
    if turns != [] {
      var m := |turns| - 1;
      LeftShrinks(cs[..m + 1], curs[..m + 1], turns[..m], n);
      AdvanceShrinks(cs[m], curs[m], turns[m], cs[m + 1], curs[m + 1], n);
    }
  }

  lemma AdvanceShrinks(c: Chain, cur: Cursor, turn: Turn, c': Chain, cur': Cursor, n: nat)
    requires TurnTaken(c, cur, turn, c', cur') && |c.saved| <= n
    ensures Left(cur', n) + (if turn == Own then 1 else 0) <= Left(cur, n)
  {
    if turn == Own && cur.a.Foreign? {
      assert Older(c.saved, cur.a.id);
    }
  }

  // ------------------------------------------------------------- the race

  /** One fault at `addr`: both of our entries ask the same pools. */
  ghost function EnvAt(ps: FaultRace.Caches, addr: nat, handles: set<nat>): Env {
    Env(handles, FaultRace.TryResolve(ps, addr).1, FaultRace.TryResolve(ps, addr).1)
  }

  /** Two threads fault on one page. The first handler resolves it; the second
      finds it readable and passes a legitimate read down the chain. Our handler
      stays installed if and only if a foreign handler there takes the fault:
      over a default action, two reads of one page disarm the cache. */
  lemma RaceDisarms(ps: FaultRace.Caches, addr: nat, c: Chain, handles: set<nat>)
    requires FaultRace.PoolsOk(ps) && FaultRace.TryResolve(ps, addr).1
    requires Ok(c) && c.installed == Ours
    ensures var ps' := FaultRace.TryResolve(ps, addr).0;
            var first := Apply(c, Fault(EnvAt(ps, addr, handles)));
            var second := Apply(c, Fault(EnvAt(ps', addr, handles)));
            && first == c && FaultRace.Readable(ps', addr)
            && (second.installed == Ours <==> Bottom(c, c.prior, handles).Foreign?)
            && (c.prior == Default ==> second.installed == Default)
  {
    FaultRace.ClaimedIsReadable(ps, addr);
    FaultRace.SecondHandlerDeclines(ps, addr);
    var ps' := FaultRace.TryResolve(ps, addr).0;
    DispositionAfterFault(c, EnvAt(ps, addr, handles));
    DispositionAfterFault(c, EnvAt(ps', addr, handles));
  }

  // ---------------------------------------------------------- the handler

  class SignalState {
    var installed: Action
    var saved: seq<Action>
    var oldAction: Action
    var handlerInstalled: bool
    var chaining: set<nat>
    /** `errno` of the thread the handler runs on. */
    var errno: int

    ghost function Abs(): Chain
      reads this
    {
      Chain(installed, saved, oldAction, handlerInstalled)
    }

    constructor (initial: Action)
      requires initial == Default || initial == Ignore
      ensures Unarmed(Abs()) && installed == initial && chaining == {}
    {
      installed, saved, oldAction, handlerInstalled, chaining, errno := initial, [], Default, false, {}, 0;
    }

    method InstallHandler()
      requires Ok(Abs())
      modifies this
      ensures Abs() == Apply(old(Abs()), Rearm) && Ok(Abs()) && chaining == old(chaining)
    {
      var prev := installed;
      installed := Ours;
      if prev != Ours {
        oldAction := prev;
      }
      handlerInstalled := true;
    }

    /** `pthread_once` lets only the first call install. */
    method FaultArm()
      requires Ok(Abs())
      modifies this
      ensures Abs() == Apply(old(Abs()), Arm) && Ok(Abs()) && chaining == old(chaining)
    {
      if !handlerInstalled {
        InstallHandler();
      }
    }

    /** Another library installs a handler and keeps what it displaced. */
    method ForeignInstall()
      requires Ok(Abs())
      modifies this
      ensures Abs() == Apply(old(Abs()), InstallForeign) && Ok(Abs()) && chaining == old(chaining)
    {
      ApplyOk(Abs(), InstallForeign);
      saved, installed := saved + [installed], Foreign(|saved|);
    }

    /** `segv_handler` on thread `t`; the flag that breaks a cycle and `errno`,
        which the resolve path leaves at `clobber`, are as they were when the
        handler returns. */
    method SegvHandler(t: nat, env: Env, clobber: int) returns (calls: seq<Action>)
      requires Ok(Abs())
      modifies this
      ensures Walked(installed, calls) == Enter(old(Abs()), t in old(chaining), env)
      ensures Abs() == old(Abs()).(installed := installed) && chaining == old(chaining) && errno == old(errno)
      decreases if t in chaining then 0 else 1, 0
    {
      var savedErrno := errno;
      var claimed := if t in chaining then env.second else env.first;
      errno := clobber;
      errno := savedErrno;
      if claimed {
        return [Ours];
      }
      if t in chaining {
        installed := Default;
        return [Ours];
      }
      chaining := chaining + {t};
      var rest := CallAction(oldAction, t, env, clobber);
      chaining := chaining - {t};
      calls := [Ours] + rest;
    }

    /** What a handler does with the action it displaced: call it, or restore
        it when there is nothing to call. */
    method CallAction(a: Action, t: nat, env: Env, clobber: int) returns (calls: seq<Action>)
      requires Ok(Abs()) && Known(Abs(), a)
      modifies this
      ensures Walked(installed, calls) == PassOn(old(Abs()), a, t in old(chaining), env)
      ensures Abs() == old(Abs()).(installed := installed) && chaining == old(chaining) && errno == old(errno)
      decreases if t in chaining then 0 else 1, Rank(a)
    {
      if a == Ours {
        calls := SegvHandler(t, env, clobber);
      } else if a.Foreign? {
        if a.id in env.handles {
          return [a];
        }
        assert Older(Abs().saved, a.id);
        var rest := CallAction(saved[a.id], t, env, clobber);
        calls := [a] + rest;
      } else {
        installed := a;
        calls := [];
      }
    }
  }
}
