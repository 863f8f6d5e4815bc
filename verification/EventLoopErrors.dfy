// How a wait ends: timeout, exit, and the exceptions of its own and of the caller's code.
module EventLoopErrors {
  import opened FileDescriptors
  import opened EventLoopSpec
  import opened EventLoopLaws

  /** The pass over the first `k` results succeeds. */
  ghost predicate PassesUpTo(env: Environment, ps: seq<Polled>, m: Machine, k: nat)
    requires Known(RulesOf(ps), m.world) && k <= |ps|
  {
    RulesOfPrefix(ps, k);
    Dispatch(env, ps[..k], m).outcome.Success?
  }

  /** Where that pass leaves the caller's code. */
  ghost function ReachedAt(env: Environment, ps: seq<Polled>, m: Machine, k: nat): (r: Machine)
    requires Known(RulesOf(ps), m.world) && k <= |ps|
    ensures r.world.Keys == m.world.Keys
  {
    RulesOfPrefix(ps, k);
    Dispatch(env, ps[..k], m).m
  }

  /** The pass gets as far as the `k`-th result, and the visit there has this outcome. */
  ghost predicate StopsAt(env: Environment, ps: seq<Polled>, m: Machine, k: nat, outcome: Outcome)
    requires Known(RulesOf(ps), m.world) && k < |ps|
  {
    RuleKnown(ps, m.world, k);
    PassesUpTo(env, ps, m, k) && Visit(env, ps[k], ReachedAt(env, ps, m, k)).outcome == outcome
  }

  lemma {:induction false} RulesOfPrefix(ps: seq<Polled>, k: nat)
    requires k <= |ps|
    ensures RulesOf(ps[..k]) == RulesOf(ps)[..k]
  {
  }

  lemma {:induction false} RuleKnown(ps: seq<Polled>, world: World, k: nat)
    requires Known(RulesOf(ps), world) && k < |ps|
    ensures ps[k].rule.fd.internal in world
  {
    assert RulesOf(ps)[k] == ps[k].rule;
  }

  lemma {:induction false} StopsFirst(env: Environment, ps: seq<Polled>, m: Machine, v: Visited, outcome: Outcome)
    requires Known(RulesOf(ps), m.world) && ps != []
    requires ps[0].rule.fd.internal in m.world && v == Visit(env, ps[0], m)
    ensures StopsAt(env, ps, m, 0, outcome) <==> v.outcome == outcome
  {
    hide Visit, RulesOf;
    RulesOfPrefix(ps, 0);
    assert ps[..0] == [];
  }

  lemma {:induction false} StopsFurther(env: Environment, ps: seq<Polled>, m: Machine, v: Visited, k: nat,
                                      outcome: Outcome)
    requires Known(RulesOf(ps), m.world) && 0 < k < |ps|
    requires ps[0].rule.fd.internal in m.world && v == Visit(env, ps[0], m)
    requires Known(RulesOf(ps[1..]), v.m.world)
    ensures StopsAt(env, ps, m, k, outcome) <==> v.outcome.Success? && StopsAt(env, ps[1..], v.m, k - 1, outcome)
  {
    hide Visit, RulesOf;
    RulesOfPrefix(ps, k);
    RulesOfPrefix(ps[1..], k - 1);
    RulesOfTail(ps[..k]);
    assert ps[..k][1..] == ps[1..][..k - 1];
  }

  lemma {:induction false} DispatchFirst(env: Environment, ps: seq<Polled>, m: Machine, v: Visited)
    requires Known(RulesOf(ps), m.world) && ps != []
    requires ps[0].rule.fd.internal in m.world && v == Visit(env, ps[0], m)
    ensures Known(RulesOf(ps[1..]), v.m.world)
    ensures Dispatch(env, ps, m).outcome
         == if v.outcome != Success then v.outcome else Dispatch(env, ps[1..], v.m).outcome
  {
    RulesOfTail(ps);
    hide Visit, RulesOf;
  }

  /** A pass that does not succeed ends as the visit of one rule does, and the pass over the results in front
      of it is a success; what the caller's code would do behind it is of no account. */
  lemma {:induction false} DispatchStopsIff(env: Environment, ps: seq<Polled>, m: Machine, outcome: Outcome)
    requires Known(RulesOf(ps), m.world) && outcome != Success
    ensures Dispatch(env, ps, m).outcome == outcome
        <==> exists k :: 0 <= k < |ps| && StopsAt(env, ps, m, k, outcome)
    decreases |ps|
  {
    if ps != [] {
      hide Visit, RulesOf, StopsAt, Dispatch, Known;
      RuleKnown(ps, m.world, 0);
      var v, rest := Visit(env, ps[0], m), ps[1..];
      DispatchFirst(env, ps, m, v);
      StopsFirst(env, ps, m, v, outcome);
      if v.outcome == Success {
        DispatchStopsIff(env, rest, v.m, outcome);
        if k :| 0 <= k < |rest| && StopsAt(env, rest, v.m, k, outcome) {
          StopsFurther(env, ps, m, v, k + 1, outcome);
        }
      }
      if k :| 0 <= k < |ps| && StopsAt(env, ps, m, k, outcome) && k > 0 {
        StopsFurther(env, ps, m, v, k, outcome);
      }
    }
  }

  // ---------------------------------------------------------------------------------------------
  // The two exceptions
  // ---------------------------------------------------------------------------------------------

  /** Some result carries an error, and the pass over the results in front of it succeeds. */
  ghost predicate ReachesError(env: Environment, ps: seq<Polled>, m: Machine)
    requires Known(RulesOf(ps), m.world)
  {
    exists k :: 0 <= k < |ps| && ps[k].Errored() && PassesUpTo(env, ps, m, k)
  }

  /** The callback of a ready rule returns without having moved the count of its direction, and the rule,
      asked again, is still interested. */
  ghost predicate Idle(env: Environment, p: Polled, m: Machine)
    requires p.rule.fd.internal in m.world
  {
    var next := Call(env, m, Callback, p.rule);
    var last := Call(env, next, Recheck, p.rule);
    && p.Ready() && !p.Errored()
    && !Threw(next) && !Served(p.rule, m, next)
    && !Threw(last) && Answered(last)
  }

  /** Some rule is idle, and the pass over the results in front of it succeeds. */
  ghost predicate ReachesIdle(env: Environment, ps: seq<Polled>, m: Machine)
    requires Known(RulesOf(ps), m.world)
  {
    exists k :: 0 <= k < |ps| && PassesUpTo(env, ps, m, k) && IdleAt(env, ps, m, k)
  }

  ghost predicate IdleAt(env: Environment, ps: seq<Polled>, m: Machine, k: nat)
    requires Known(RulesOf(ps), m.world) && k < |ps|
  {
    RuleKnown(ps, m.world, k);
    Idle(env, ps[k], ReachedAt(env, ps, m, k))
  }

  lemma {:induction false} VisitOutcomes(env: Environment, p: Polled, m: Machine)
    requires p.rule.fd.internal in m.world
    ensures Visit(env, p, m).outcome.PollError? <==> p.Errored()
    ensures Visit(env, p, m).outcome.BusyWait? <==> Idle(env, p, m)
  {
    hide Has, Call, Served;
  }

  /** The second pass throws for an error exactly when it comes across one. */
  lemma {:induction false} PollErrorIff(env: Environment, ps: seq<Polled>, m: Machine)
    requires Known(RulesOf(ps), m.world)
    ensures Dispatch(env, ps, m).outcome.PollError? <==> ReachesError(env, ps, m)
  {
    forall k | 0 <= k < |ps|
      ensures StopsAt(env, ps, m, k, PollError) <==> ps[k].Errored() && PassesUpTo(env, ps, m, k)
    {
      RuleKnown(ps, m.world, k);
      VisitOutcomes(env, ps[k], ReachedAt(env, ps, m, k));
    }
    hide StopsAt, PassesUpTo, Dispatch, Polled.Errored;
    DispatchStopsIff(env, ps, m, PollError);
    if k :| 0 <= k < |ps| && StopsAt(env, ps, m, k, PollError) {
      assert ps[k].Errored() && PassesUpTo(env, ps, m, k);
    }
  }

  /** The second pass throws for a busy wait exactly when it comes across an idle rule. */
  lemma {:induction false} BusyWaitIff(env: Environment, ps: seq<Polled>, m: Machine)
    requires Known(RulesOf(ps), m.world)
    ensures Dispatch(env, ps, m).outcome.BusyWait? <==> ReachesIdle(env, ps, m)
  {
    forall k | 0 <= k < |ps|
      ensures StopsAt(env, ps, m, k, BusyWait) <==> PassesUpTo(env, ps, m, k) && IdleAt(env, ps, m, k)
    {
      RuleKnown(ps, m.world, k);
      VisitOutcomes(env, ps[k], ReachedAt(env, ps, m, k));
    }
    hide StopsAt, PassesUpTo, Dispatch, IdleAt;
    DispatchStopsIff(env, ps, m, BusyWait);
    if k :| 0 <= k < |ps| && StopsAt(env, ps, m, k, BusyWait) {
      assert PassesUpTo(env, ps, m, k) && IdleAt(env, ps, m, k);
    }
  }

  // ---------------------------------------------------------------------------------------------
  // Whole waits
  // ---------------------------------------------------------------------------------------------

  /** The results that a wait goes through; none if the first pass was cut short. */
  ghost function Results(p: Prepared, reply: Reply): (ps: seq<Polled>)
    requires !p.threw ==> |p.wants| == |p.rules|
    requires Known(p.rules, p.m.world)
    ensures Known(RulesOf(ps), p.m.world)
  {
    if p.threw then [] else Zip(p.rules, p.wants, reply.revents)
  }

  /** When a wait throws for an error, and when for a busy wait: it polls, gets a reply that is neither a
      timeout nor an interruption, and comes across a result that carries an error, or an idle rule. */
  lemma {:induction false} WaitThrowsIff(env: Environment, reply: Reply, rules: seq<Rule>, m: Machine,
                                       p: Prepared, ps: seq<Polled>, w: Waited)
    requires Known(rules, m.world) && w == Wait(env, reply, rules, m)
    requires p == Prepare(env, rules, m) && ps == Results(p, reply)
    ensures var goesOn := !p.threw && true in p.wants && reply.ret != 0 && !(reply.ret < 0 && reply.errno == EINTR);
            && (w.outcome.PollError? <==> goesOn && ReachesError(env, ps, p.m))
            && (w.outcome.BusyWait? <==> goesOn && ReachesIdle(env, ps, p.m))
  {
    hide Prepare, Dispatch, Zip, RulesOf, ReachesError, ReachesIdle;
    PollErrorIff(env, ps, p.m);
    BusyWaitIff(env, ps, p.m);
  }

  /** The documentation promises an exception if polling fails. When poll fails, other than by an
      interruption, there is one for that exactly when something was polled and the pass over the results,
      which a failed poll need not have filled in, comes across an error. */
  lemma {:induction false} FailedPollThrowsIff(env: Environment, reply: Reply, rules: seq<Rule>, m: Machine,
                                             p: Prepared, ps: seq<Polled>, w: Waited)
    requires Known(rules, m.world) && w == Wait(env, reply, rules, m)
    requires reply.ret < 0 && reply.errno != EINTR
    requires p == Prepare(env, rules, m) && ps == Results(p, reply)
    ensures w.outcome.PollError? <==> !p.threw && true in p.wants && ReachesError(env, ps, p.m)
  {
    hide Prepare, Dispatch, Wait, Zip, RulesOf, ReachesError, ReachesIdle, Results;
    WaitThrowsIff(env, reply, rules, m, p, ps, w);
  }

  // ---------------------------------------------------------------------------------------------
  // Timeout, exit and exceptions of the caller's code
  // ---------------------------------------------------------------------------------------------

  /** Timeout: a rule was interested and poll found nothing. Exit: no rule was interested, or a signal (error
      number 4) interrupted poll. */
  lemma {:induction false} TimeoutAndExitIff(env: Environment, reply: Reply, rules: seq<Rule>, m: Machine,
                                           p: Prepared, w: Waited)
    requires Known(rules, m.world) && w == Wait(env, reply, rules, m) && p == Prepare(env, rules, m)
    ensures w.outcome.Timeout? <==> !p.threw && true in p.wants && reply.ret == 0
    ensures w.outcome.Exit?
        <==> !p.threw && (true !in p.wants || (reply.ret < 0 && reply.errno == 4))
  {
    hide Prepare, Dispatch;
  }

  /** From `log` to `log'` at most the last call has thrown, and it has if `threw` says so. */
  ghost predicate ThrewLast(log: seq<Event>, log': seq<Event>, threw: bool) {
    && log <= log'
    && (forall k :: |log| <= k < |log'| - 1 ==> !log'[k].threw)
    && (threw <==> |log| < |log'| && log'[|log'| - 1].threw)
  }

  lemma {:induction false} ThrewLater(log: seq<Event>, mid: seq<Event>, log': seq<Event>, threw: bool)
    requires ThrewLast(log, mid, false) && ThrewLast(mid, log', threw)
    ensures ThrewLast(log, log', threw)
  {
    forall k | |log| <= k < |log'| - 1
      ensures !log'[k].threw
    {
      assert k < |mid| ==> log'[k] == mid[k];
    }
    assert |mid| == |log'| ==> mid == log';
  }

  lemma {:induction false} CallThrewLast(env: Environment, m: Machine, kind: Kind, rule: Rule)
    ensures ThrewLast(m.log, Call(env, m, kind, rule).log, Threw(Call(env, m, kind, rule)))
  {
  }

  lemma {:induction false} PrepareThrewLast(env: Environment, rules: seq<Rule>, m: Machine)
    requires Known(rules, m.world)
    ensures ThrewLast(m.log, Prepare(env, rules, m).m.log, Prepare(env, rules, m).threw)
    decreases |rules|
  {
    if rules != [] {
      var kind := if Defunct(rules[0], m.world) then Cancel else Interest;
      var next := Call(env, m, kind, rules[0]);
      hide Call, Defunct, ThrewLast, Threw;
      CallThrewLast(env, m, kind, rules[0]);
      if !Threw(next) {
        PrepareThrewLast(env, rules[1..], next);
        var p := Prepare(env, rules[1..], next);
        ThrewLater(m.log, next.log, p.m.log, p.threw);
      }
    }
  }

  lemma {:induction false} VisitThrewLast(env: Environment, p: Polled, m: Machine)
    requires p.rule.fd.internal in m.world
    ensures ThrewLast(m.log, Visit(env, p, m).m.log, Visit(env, p, m).outcome.CallThrew?)
  {
    var next := Call(env, m, Callback, p.rule);
    var last := Call(env, next, Recheck, p.rule);
    CallThrewLast(env, m, Cancel, p.rule);
    CallThrewLast(env, m, Callback, p.rule);
    CallThrewLast(env, next, Recheck, p.rule);
    assert ThrewLast(m.log, m.log, false);
    hide Call, ThrewLast, Threw, Answered, Served, Has;
    if !Threw(next) {
      ThrewLater(m.log, next.log, last.log, Threw(last));
    }
  }

  lemma {:induction false} DispatchThrewLast(env: Environment, ps: seq<Polled>, m: Machine)
    requires Known(RulesOf(ps), m.world)
    ensures ThrewLast(m.log, Dispatch(env, ps, m).m.log, Dispatch(env, ps, m).outcome.CallThrew?)
    decreases |ps|
  {
    if ps != [] {
      RulesOfTail(ps);
      assert ps[0].rule == RulesOf(ps)[0];
      var v := Visit(env, ps[0], m);
      hide Visit, ThrewLast;
      VisitThrewLast(env, ps[0], m);
      if v.outcome == Success {
        var w := Dispatch(env, ps[1..], v.m);
        DispatchThrewLast(env, ps[1..], v.m);
        ThrewLater(m.log, v.m.log, w.m.log, w.outcome.CallThrew?);
      }
    }
  }

  lemma {:induction false} WaitThrewLast(env: Environment, reply: Reply, rules: seq<Rule>, m: Machine, w: Waited)
    requires Known(rules, m.world) && w == Wait(env, reply, rules, m)
    ensures ThrewLast(m.log, w.m.log, w.outcome.CallThrew?)
  {
    hide Prepare, Dispatch, ThrewLast;
    var p := Prepare(env, rules, m);
    PrepareThrewLast(env, rules, m);
    if !p.threw {
      var ps := Zip(p.rules, p.wants, reply.revents);
      var d := Dispatch(env, ps, p.m);
      DispatchThrewLast(env, ps, p.m);
      ThrewLater(m.log, p.m.log, d.m.log, d.outcome.CallThrew?);
      assert w.outcome !in {Timeout, Exit} ==> w.m == d.m && w.outcome == d.outcome;
    }
  }

  /** An exception of the caller's code always gets out of the wait, and nothing else passes for one; the call
      that threw is the last one made. */
  lemma {:induction false} CallThrewIff(env: Environment, reply: Reply, rules: seq<Rule>, m: Machine, w: Waited)
    requires Known(rules, m.world) && w == Wait(env, reply, rules, m)
    ensures m.log <= w.m.log
    ensures w.outcome.CallThrew? <==> exists k :: |m.log| <= k < |w.m.log| && w.m.log[k].threw
    ensures forall k :: |m.log| <= k < |w.m.log| && w.m.log[k].threw ==> k == |w.m.log| - 1
  {
    WaitThrewLast(env, reply, rules, m, w);
  }

  // ---------------------------------------------------------------------------------------------
  // What counts as reading or writing
  // ---------------------------------------------------------------------------------------------

  /** How far an effect moves the count that a rule is about. */
  function Moved(rule: Rule, e: Effect): nat {
    if rule.fd.internal !in e.changes then 0
    else if rule.direction.In? then e.changes[rule.fd.internal].readCount
    else e.changes[rule.fd.internal].writeCount
  }

  lemma {:induction false} ServedIfMoved(env: Environment, rule: Rule, m: Machine)
    requires rule.fd.internal in m.world
    ensures Served(rule, m, Call(env, m, Callback, rule)) <==> Moved(rule, env(|m.log|)) % 0x1_0000_0000 != 0
  {
    var w := rule.fd.internal;
    var next := Call(env, m, Callback, rule);
    var count := Count(m.world[w], rule.direction);
    assert Count(next.world[w], rule.direction) == count + Moved(rule, env(|m.log|));
    SameUnsigned(count, Moved(rule, env(|m.log|)));
    hide AsUnsigned;
  }

  /** Documented is that the callback has to read or write the descriptor. It has to do so in its own
      direction, and not a multiple of 2^32 times. */
  lemma {:induction false} IdleIffNotMoved(env: Environment, p: Polled, m: Machine)
    requires p.rule.fd.internal in m.world && p.Ready() && !p.Errored()
    ensures var callback, recheck := env(|m.log|), env(|m.log| + 1);
            Idle(env, p, m)
            <==> !callback.throws && Moved(p.rule, callback) % 0x1_0000_0000 == 0
                 && !recheck.throws && recheck.answer
  {
    hide Polled.Ready, Polled.Errored;
    ServedIfMoved(env, p.rule, m);
    hide Served;
  }

  lemma {:induction false} SameUnsigned(count: nat, moved: nat)
    ensures AsUnsigned(count) == AsUnsigned(count + moved) <==> moved % UNSIGNED_SIZE == 0
  {
  }

  /** A rule for input whose every call writes the descriptor: the wait takes that for a busy wait. */
  lemma {:induction false} WriterIsIdle(rule: Rule, env: Environment, reply: Reply, m: Machine, w: Waited)
    requires rule.direction.In? && rule.fd.internal in m.world && !Defunct(rule, m.world)
    requires env == ((n: nat) => Effect(map[rule.fd.internal := Delta(false, false, 0, 1)], true, false))
    requires reply == Reply(1, 0, (i: nat) => POLLIN)
    requires Known([rule], m.world) && w == Wait(env, reply, [rule], m)
    ensures w.outcome.BusyWait?
    ensures w.m.world[rule.fd.internal].writeCount > m.world[rule.fd.internal].writeCount
  {
    var next := Call(env, m, Interest, rule);
    var p, polled := Prepare(env, [rule], m), Polled(rule, POLLIN, POLLIN);
    assert !Threw(next) && Answered(next);
    assert Prepare(env, [], next) == Prepared([], [], next, false) && [rule][1..] == [];
    assert p == Prepared([rule], [true], next, false);
    ReadyForInput();
    IdleIffNotMoved(env, polled, next);
    VisitOutcomes(env, polled, next);
    var ps := Zip(p.rules, p.wants, reply.revents);
    assert ps == [polled];
    var v, d := Visit(env, polled, next), Dispatch(env, ps, next);
    assert v.m.world[rule.fd.internal].writeCount > m.world[rule.fd.internal].writeCount;
    assert w == d && d.m == v.m && d.outcome == v.outcome;
  }

  lemma {:induction false} ReadyForInput()
    ensures Has(POLLIN, POLLIN) && !Has(POLLIN, POLLERR | POLLNVAL)
  {
  }
}
