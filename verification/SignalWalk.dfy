/** Exactly which handlers a fault calls, read off the saved links, and what
    arming, re-arming and foreign installs do to the faults that are not ours. */
module SignalWalks {
  import opened SignalChain

  /** `p` follows the saved links from `a`, through handlers that pass the fault
      on, to `b`: a handler that takes it, us, or nobody. */
  ghost predicate Follows(c: Chain, a: Action, handles: set<nat>, p: seq<Action>, b: Action)
    requires Ok(c)
  {
    && (forall i :: 0 <= i < |p| ==> p[i].Foreign? && p[i].id < |c.saved|)
    && (forall i :: 0 <= i < |p| - 1 ==> p[i].id !in handles && p[i + 1] == c.saved[p[i].id])
    && (if p == [] then b == a && !a.Foreign?
        else p[0] == a && EndsAt(c, handles, p[|p| - 1], b))
  }

  ghost predicate EndsAt(c: Chain, handles: set<nat>, last: Action, b: Action)
    requires Ok(c) && last.Foreign? && last.id < |c.saved|
  {
    if last.id in handles then b == last else b == c.saved[last.id] && !b.Foreign?
  }

  /** The handlers on the way down are called in order, then us if the way leads
      to us, and nobody else. */
  lemma {:induction false} PassOnCallsPath(c: Chain, a: Action, chaining: bool, env: Env) returns (p: seq<Action>)
    requires Ok(c) && Known(c, a)
    ensures Follows(c, a, env.handles, p, Bottom(c, a, env.handles))
    ensures PassOn(c, a, chaining, env).calls
         == p + if Bottom(c, a, env.handles).Ours? then Enter(c, chaining, env).calls else []
    decreases Rank(a)
  {
    hide Follows, Enter;
    if a.Foreign? && a.id !in env.handles {
      assert Older(c.saved, a.id);
      var rest := PassOnCallsPath(c, c.saved[a.id], chaining, env);
      p := [a] + rest;
      Extends(c, a, env.handles, rest, Bottom(c, a, env.handles));
      ConcatOne(a, rest, if Bottom(c, a, env.handles).Ours? then Enter(c, chaining, env).calls else []);
    } else {
      p := if a.Foreign? then [a] else [];
      FollowsHere(c, a, env.handles);
      assert [a] + [] == [a];
    }
  }

  lemma ConcatOne(a: Action, p: seq<Action>, q: seq<Action>)
    ensures [a] + (p + q) == ([a] + p) + q
  {
  }

  lemma FollowsHere(c: Chain, a: Action, handles: set<nat>)
    requires Ok(c) && Known(c, a) && (a.Foreign? ==> a.id in handles)
    ensures Follows(c, a, handles, if a.Foreign? then [a] else [], a)
  {
  }

  lemma Extends(c: Chain, a: Action, handles: set<nat>, rest: seq<Action>, b: Action)
    requires Ok(c) && a.Foreign? && Known(c, a) && a.id !in handles && Follows(c, c.saved[a.id], handles, rest, b)
    ensures Follows(c, a, handles, [a] + rest, b)
  {
    var p := [a] + rest;
    forall i | 0 <= i < |p| - 1
      ensures p[i].id !in handles && p[i + 1] == c.saved[p[i].id]
    {
      if i > 0 {
        assert p[i] == rest[i - 1] && p[i + 1] == rest[i];
      }
    }
    if rest != [] {
      assert p[|p| - 1] == rest[|rest| - 1];
    }
  }

  /** There is only one such way. */
  lemma {:induction false} FollowsUnique(c: Chain, a: Action, handles: set<nat>, p: seq<Action>, b: Action,
                                         p': seq<Action>, b': Action)
    requires Ok(c) && Known(c, a) && Follows(c, a, handles, p, b) && Follows(c, a, handles, p', b')
    ensures p == p' && b == b'
    decreases |p|
  {
    if p != [] {
      if a.id !in handles {
        assert |p| > 1 || !c.saved[a.id].Foreign?;
        assert Older(c.saved, a.id);
        Tail(c, a, handles, p, b);
        Tail(c, a, handles, p', b');
        FollowsUnique(c, c.saved[a.id], handles, p[1..], b, p'[1..], b');
        assert p == [a] + p[1..] && p' == [a] + p'[1..];
      } else {
        assert p == [a] && p' == [a];
      }
    }
  }

  lemma Tail(c: Chain, a: Action, handles: set<nat>, p: seq<Action>, b: Action)
    requires Ok(c) && a.Foreign? && a.id !in handles && Follows(c, a, handles, p, b)
    ensures p != [] && a.id < |c.saved| && Follows(c, c.saved[a.id], handles, p[1..], b)
  {
    if |p| > 1 {
      assert p[1] == c.saved[p[0].id];
    }
  }

  /** A fault of ours is nobody else's business. */
  lemma ClaimedCalls(c: Chain, env: Env)
    requires Ok(c) && c.installed == Ours && env.first
    ensures Deliver(c, env) == Walked(Ours, [Ours])
  {
  }

  /** A fault that is not ours: we are called, then exactly the handlers on the
      way from the saved action down, in order, then us again if it leads back. */
  lemma DeclinedCalls(c: Chain, env: Env) returns (p: seq<Action>)
    requires Ok(c) && c.installed == Ours && !env.first
    ensures Follows(c, c.prior, env.handles, p, Bottom(c, c.prior, env.handles))
    ensures Deliver(c, env).calls
         == [Ours] + p + if Bottom(c, c.prior, env.handles).Ours? then [Ours] else []
  {
    p := PassOnCallsPath(c, c.prior, true, env);
    var tail := if Bottom(c, c.prior, env.handles).Ours? then [Ours] else [];
    assert Deliver(c, env).calls == [Ours] + (p + tail);
  }

  /** A handler that takes the fault is called, last and once. */
  lemma TakerIsCalled(c: Chain, env: Env)
    requires Ok(c) && c.installed == Ours && !env.first && Bottom(c, c.prior, env.handles).Foreign?
    ensures var calls, b := Deliver(c, env).calls, Bottom(c, c.prior, env.handles);
            |calls| >= 2 && calls[0] == Ours && calls[|calls| - 1] == b && Count(calls, b) == 1
    ensures Deliver(c, env).installed == Ours
  {
    var p := DeclinedCalls(c, env);
    var calls, b := Deliver(c, env).calls, Bottom(c, c.prior, env.handles);
    assert calls == [Ours] + p;
    assert p != [] && p[|p| - 1] == b;
    PassOnCalls(c, c.prior, env, b);
    CountCons(Ours, p, b);
    var q := PassOn(c, c.prior, true, env).calls;
    assert calls == [Ours] + q;
    assert p == calls[1..] == q;
    assert multiset(p)[p[|p| - 1]] >= 1;
    DispositionAfterFault(c, env);
  }

  // ------------------------------------------------- what installing keeps

  /** Off our own handler, a walk reads only the saved links. */
  lemma {:induction false} SameWalk(c: Chain, c': Chain, a: Action, chaining: bool, chaining': bool, env: Env)
    requires Ok(c) && Ok(c') && Known(c, a) && c'.saved == c.saved && Bottom(c, a, env.handles) != Ours
    ensures Known(c', a) && Bottom(c', a, env.handles) == Bottom(c, a, env.handles)
    ensures PassOn(c', a, chaining', env).calls == PassOn(c, a, chaining, env).calls
    decreases Rank(a)
  {
    if a.Foreign? && a.id !in env.handles {
      assert Older(c.saved, a.id);
      SameWalk(c, c', c.saved[a.id], chaining, chaining', env);
    }
  }

  /** The operation puts us over what is installed. */
  ghost predicate PutsUsOver(c: Chain, op: Op) {
    c.installed != Ours && (op.Rearm? || (op.Arm? && !c.armed))
  }

  /** Arming keeps what it displaces: a fault that is not ours calls us and then
      exactly the handlers it called before, and ends where it ended before. */
  lemma ArmingKeepsChain(c: Chain, op: Op, env: Env)
    requires Ok(c) && PutsUsOver(c, op) && !env.first && Bottom(c, c.installed, env.handles) != Ours
    ensures var c' := Apply(c, op);
            && Ok(c') && c'.installed == Ours && c'.armed && c'.saved == c.saved
            && Deliver(c', env).calls == [Ours] + Deliver(c, env).calls
            && Bottom(c', c'.prior, env.handles) == Bottom(c, c.installed, env.handles)
            && (Bottom(c, c.installed, env.handles).Foreign? ==> Deliver(c', env).installed == Ours)
            && (!Bottom(c, c.installed, env.handles).Foreign? ==>
                  Deliver(c', env).installed == Deliver(c, env).installed)
  {
    var c' := Apply(c, op);
    ApplyOk(c, op);
    SameWalk(c, c', c.installed, false, true, env);
    PassOnInstalled(c, c.installed, false, env);
    PassOnInstalled(c', c.installed, true, env);
  }

  /** Where what is installed leads back to us, it is we who are called at its
      end: the cycle. */
  lemma ArmingOverChainToUs(c: Chain, op: Op, env: Env) returns (p: seq<Action>)
    requires Ok(c) && PutsUsOver(c, op) && !env.first && Bottom(c, c.installed, env.handles) == Ours
    ensures Ok(Apply(c, op)) && Follows(c, c.installed, env.handles, p, Ours)
    ensures Deliver(Apply(c, op), env).calls == [Ours] + p + [Ours]
  {
    var c' := Apply(c, op);
    ApplyOk(c, op);
    p := DeclinedCalls(c', env);
    var q := PassOnCallsPath(c, c.installed, true, env);
    assert Follows(c', c'.prior, env.handles, q, Ours);
    FollowsUnique(c', c'.prior, env.handles, p, Bottom(c', c'.prior, env.handles), q, Ours);
  }

  /** Arming again, or re-arming while we are on top, keeps the chain as it is. */
  lemma ArmingTwice(c: Chain, op: Op)
    requires Ok(c) && c.armed && (op.Arm? || (op.Rearm? && c.installed == Ours))
    ensures Apply(c, op) == c
  {
  }

  /** A library that installs over anything passes on what it does not take: the
      fault calls it and then exactly what was called before. */
  lemma ForeignKeepsChain(c: Chain, env: Env)
    requires Ok(c)
    ensures var n, c' := |c.saved|, Apply(c, InstallForeign);
            && Ok(c') && c'.installed == Foreign(n) && c'.prior == c.prior
            && (n in env.handles ==> Deliver(c', env).calls == [Foreign(n)])
            && (n !in env.handles ==> Deliver(c', env).calls == [Foreign(n)] + Deliver(c, env).calls)
            && (n !in env.handles ==> Bottom(c', c'.installed, env.handles) == Bottom(c, c.installed, env.handles))
  {
    ApplyOk(c, InstallForeign);
    var c' := Apply(c, InstallForeign);
    assert Older(c'.saved, |c.saved|);
    LongerWalk(c, c', c.installed, false, env);
  }

  lemma {:induction false} LongerWalk(c: Chain, c': Chain, a: Action, chaining: bool, env: Env)
    requires Ok(c) && Ok(c') && Known(c, a) && c.saved <= c'.saved && c'.prior == c.prior
    ensures Known(c', a) && Bottom(c', a, env.handles) == Bottom(c, a, env.handles)
    ensures PassOn(c', a, chaining, env).calls == PassOn(c, a, chaining, env).calls
    decreases if chaining then 0 else 1, Rank(a)
  {
    if a.Foreign? && a.id !in env.handles {
      assert Older(c.saved, a.id);
      LongerWalk(c, c', c.saved[a.id], chaining, env);
    } else if a.Ours? && !chaining {
      LongerWalk(c, c', c.prior, true, env);
    }
  }

  // --------------------------------------------------- one turn at a time

  /** The handlers a thread still visits if nobody else moves. */
  ghost function Visits(c: Chain, cur: Cursor): seq<Action>
    requires Ok(c) && (cur.At? ==> Known(c, cur.a))
    decreases Left(cur, |c.saved|)
  {
    if cur == Through then []
    else
      AdvanceShrinks(c, cur, Own, c, Advance(c, cur), |c.saved|);
      AdvanceKnown(c, cur);
      (if cur.a.Foreign? || cur.a.Ours? then [cur.a] else []) + Visits(c, Advance(c, cur))
  }

  lemma AdvanceKnown(c: Chain, cur: Cursor)
    requires Ok(c) && (cur.At? ==> Known(c, cur.a))
    ensures var next := Advance(c, cur); next.At? ==> Known(c, next.a)
  {
    if cur.At? && cur.a.Foreign? {
      assert Older(c.saved, cur.a.id);
    }
  }

  /** Turn by turn a thread visits exactly the calls of a fault nobody takes. */
  lemma {:induction false} VisitsAreCalls(c: Chain, a: Action, chaining: bool)
    requires Ok(c) && Known(c, a)
    ensures Visits(c, At(a, chaining)) == PassOn(c, a, chaining, Env({}, false, false)).calls
    decreases if chaining then 0 else 1, Rank(a)
  {
    if a.Foreign? {
      assert Older(c.saved, a.id);
      VisitsAreCalls(c, c.saved[a.id], chaining);
    } else if a.Ours? && !chaining {
      VisitsAreCalls(c, c.prior, true);
    }
  }
}
