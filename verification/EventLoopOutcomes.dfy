// What the result of one wait tells about what was called and which rules are left.
module EventLoopOutcomes {
  import opened EventLoopSpec
  import opened EventLoopLaws

  /** The rules that were called in a given way, in order. */
  function RulesCalled(log: seq<Event>, kind: Kind): seq<Rule> {
    if log == [] then []
    else RulesCalled(log[..|log| - 1], kind)
         + (if log[|log| - 1].kind == kind then [log[|log| - 1].rule] else [])
  }

  function ReadyRules(ps: seq<Polled>): seq<Rule> {
    if ps == [] then [] else (if ps[0].Ready() then [ps[0].rule] else []) + ReadyRules(ps[1..])
  }

  function HungUpRules(ps: seq<Polled>): seq<Rule> {
    if ps == [] then [] else (if ps[0].HungUp() then [ps[0].rule] else []) + HungUpRules(ps[1..])
  }

  function Survivors(ps: seq<Polled>): seq<Rule> {
    if ps == [] then [] else (if ps[0].HungUp() then [] else [ps[0].rule]) + Survivors(ps[1..])
  }

  lemma {:induction false} CalledBy(env: Environment, m: Machine, kind: Kind, rule: Rule, k: Kind)
    ensures RulesCalled(Call(env, m, kind, rule).log, k) == RulesCalled(m.log, k) + (if k == kind then [rule] else [])
  {
  }

  lemma {:induction false} PrepareCalls(env: Environment, rules: seq<Rule>, m: Machine)
    requires Known(rules, m.world)
    ensures RulesCalled(Prepare(env, rules, m).m.log, Callback) == RulesCalled(m.log, Callback)
    decreases |rules|
  {
    if rules != [] {
      var kind := if Defunct(rules[0], m.world) then Cancel else Interest;
      hide Defunct, Call;
      CalledBy(env, m, kind, rules[0], Callback);
      var next := Call(env, m, kind, rules[0]);
      if !Threw(next) {
        PrepareCalls(env, rules[1..], next);
      }
    }
  }

  lemma {:induction false} Regroup(a: seq<Rule>, r: Rule, b: seq<Rule>)
    ensures (a + [r]) + b == a + ([r] + b) && (a + []) + b == a + ([] + b) == a + b
  {
  }

  /** A visit without incident. */
  lemma {:induction false} VisitCalls(env: Environment, p: Polled, m: Machine)
    requires p.rule.fd.internal in m.world && Visit(env, p, m).outcome.Success?
    ensures var v := Visit(env, p, m);
            && !p.Errored() && (v.erased <==> p.HungUp())
            && RulesCalled(v.m.log, Callback) == RulesCalled(m.log, Callback) + (if p.Ready() then [p.rule] else [])
            && RulesCalled(v.m.log, Cancel) == RulesCalled(m.log, Cancel) + (if p.HungUp() then [p.rule] else [])
  {
    hide Call, Has, RulesCalled, Served;
    var next := Call(env, m, Callback, p.rule);
    forall k
      ensures RulesCalled(Call(env, m, Cancel, p.rule).log, k)
           == RulesCalled(m.log, k) + (if k == Cancel then [p.rule] else [])
      ensures RulesCalled(next.log, k)
           == RulesCalled(m.log, k) + (if k == Callback then [p.rule] else [])
      ensures RulesCalled(Call(env, next, Recheck, p.rule).log, k)
           == RulesCalled(next.log, k) + (if k == Recheck then [p.rule] else [])
    {
      CalledBy(env, m, Cancel, p.rule, k);
      CalledBy(env, m, Callback, p.rule, k);
      CalledBy(env, next, Recheck, p.rule, k);
    }
  }

  /** A second pass that succeeds has called back exactly the ready rules, each once and in order, has
      cancelled exactly the hung-up ones and has kept all the others. */
  lemma {:induction false} DispatchSucceeds(env: Environment, ps: seq<Polled>, m: Machine)
    requires Known(RulesOf(ps), m.world) && Dispatch(env, ps, m).outcome.Success?
    ensures var w := Dispatch(env, ps, m);
            && w.rules == Survivors(ps)
            && RulesCalled(w.m.log, Callback) == RulesCalled(m.log, Callback) + ReadyRules(ps)
            && RulesCalled(w.m.log, Cancel) == RulesCalled(m.log, Cancel) + HungUpRules(ps)
    ensures forall k :: 0 <= k < |ps| ==> !ps[k].Errored()
    decreases |ps|
  {
    if ps != [] {
      RulesOfTail(ps);
      assert ps[0].rule == RulesOf(ps)[0];
      var v := Visit(env, ps[0], m);
      hide Visit, RulesCalled, RulesOf, Polled.Errored, Polled.HungUp, Polled.Ready;
      VisitCalls(env, ps[0], m);
      DispatchSucceeds(env, ps[1..], v.m);
      Regroup(RulesCalled(m.log, Callback), ps[0].rule, ReadyRules(ps[1..]));
      Regroup(RulesCalled(m.log, Cancel), ps[0].rule, HungUpRules(ps[1..]));
    }
  }

  lemma {:induction false} SuccessIsDispatch(env: Environment, reply: Reply, rules: seq<Rule>, m: Machine)
    returns (p: Prepared, ps: seq<Polled>)
    requires Known(rules, m.world) && Wait(env, reply, rules, m).outcome.Success?
    ensures p == Prepare(env, rules, m) && !p.threw && ps == Zip(p.rules, p.wants, reply.revents)
    ensures Wait(env, reply, rules, m) == Dispatch(env, ps, p.m)
  {
    hide Prepare, Dispatch;
    p := Prepare(env, rules, m);
    ps := Zip(p.rules, p.wants, reply.revents);
    var w, d := Wait(env, reply, rules, m), Dispatch(env, ps, p.m);
    assert w == d;
  }

  /** Success says which rules were called back: those found ready, in order. So the promise that at
      least one rule was triggered holds exactly when some polled rule was ready. */
  lemma {:induction false} SuccessTriggersIffReady(env: Environment, reply: Reply, rules: seq<Rule>, m: Machine,
                                p: Prepared, ps: seq<Polled>, w: Waited)
    requires Known(rules, m.world) && w == Wait(env, reply, rules, m) && w.outcome.Success?
    requires p == Prepare(env, rules, m) && |p.wants| == |p.rules| && ps == Zip(p.rules, p.wants, reply.revents)
    ensures w.rules == Survivors(ps)
    ensures RulesCalled(w.m.log, Callback) == RulesCalled(m.log, Callback) + ReadyRules(ps)
    ensures RulesCalled(w.m.log, Callback) != RulesCalled(m.log, Callback)
        <==> exists k :: 0 <= k < |ps| && ps[k].Ready()
  {
    hide Prepare, Dispatch, Wait, RulesCalled, Survivors, Zip, RulesOf, Polled.Ready;
    var _, _ := SuccessIsDispatch(env, reply, rules, m);
    PrepareCalls(env, rules, m);
    DispatchSucceeds(env, ps, p.m);
    NoneReady(ps);
  }

  /** Every rule has been called once between `log` and `log'`, in order: asked or cancelled. */
  ghost predicate EachAskedOrCancelled(rules: seq<Rule>, log: seq<Event>, log': seq<Event>) {
    && log <= log' && |log'| == |log| + |rules|
    && forall i :: 0 <= i < |rules| ==> AskedOrCancelled(rules[i], log'[|log| + i])
  }

  predicate AskedOrCancelled(rule: Rule, e: Event) {
    e.rule == rule && (e.kind.Interest? || e.kind.Cancel?) && !e.threw
  }

  lemma {:induction false} OneMoreAskedOrCancelled(rules: seq<Rule>, log: seq<Event>, e: Event, log': seq<Event>)
    requires rules != [] && AskedOrCancelled(rules[0], e)
    requires EachAskedOrCancelled(rules[1..], log + [e], log')
    ensures EachAskedOrCancelled(rules, log, log')
  {
    assert log <= log' by {
      assert log <= log + [e];
    }
    forall i | 0 <= i < |rules|
      ensures AskedOrCancelled(rules[i], log'[|log| + i])
    {
      if i == 0 {
        assert log'[|log|] == (log + [e])[|log|];
      } else {
        assert AskedOrCancelled(rules[1..][i - 1], log'[|log + [e]| + (i - 1)]);
      }
    }
  }

  lemma {:induction false} PrepareAsksOrCancels(env: Environment, rules: seq<Rule>, m: Machine)
    requires Known(rules, m.world) && !Prepare(env, rules, m).threw
    ensures var p := Prepare(env, rules, m);
            && EachAskedOrCancelled(rules, m.log, p.m.log)
            && RulesCalled(p.m.log, Interest) == RulesCalled(m.log, Interest) + p.rules
    decreases |rules|
  {
    if rules != [] {
      var kind := if Defunct(rules[0], m.world) then Cancel else Interest;
      CalledBy(env, m, kind, rules[0], Interest);
      var next := Call(env, m, kind, rules[0]);
      var e := next.log[|m.log|];
      assert next.log == m.log + [e] && e.rule == rules[0] && e.kind == kind && e.threw == Threw(next);
      hide Defunct, Call, RulesCalled, EachAskedOrCancelled;
      PrepareAsksOrCancels(env, rules[1..], next);
      var p := Prepare(env, rules[1..], next);
      Regroup(RulesCalled(m.log, Interest), rules[0], p.rules);
      OneMoreAskedOrCancelled(rules, m.log, e, p.m.log);
    }
  }

  /** The answers to the calls of a given kind, in order. */
  function Answers(log: seq<Event>, kind: Kind): seq<bool> {
    if log == [] then []
    else Answers(log[..|log| - 1], kind)
         + (if log[|log| - 1].kind == kind then [log[|log| - 1].answer] else [])
  }

  /** Who is polled with interest is who has answered so. */
  lemma {:induction false} PrepareTakesAnswers(env: Environment, rules: seq<Rule>, m: Machine)
    requires Known(rules, m.world) && !Prepare(env, rules, m).threw
    ensures var p := Prepare(env, rules, m);
            Answers(p.m.log, Interest) == Answers(m.log, Interest) + p.wants
    decreases |rules|
  {
    if rules != [] {
      var kind := if Defunct(rules[0], m.world) then Cancel else Interest;
      var next := Call(env, m, kind, rules[0]);
      var e := next.log[|m.log|];
      assert next.log == m.log + [e] && e.kind == kind && e.answer == Answered(next);
      assert Answers(next.log, Interest) == Answers(m.log, Interest) + if kind == Interest then [e.answer] else [];
      hide Defunct, Call, Answers;
      PrepareTakesAnswers(env, rules[1..], next);
      var p := Prepare(env, rules[1..], next);
      assert Answers(m.log, Interest) + [e.answer] + p.wants == Answers(m.log, Interest) + ([e.answer] + p.wants);
    }
  }

  /** A wait that times out or exits has called nobody back. It has called each rule once, to ask or to
      cancel, and those it asked are the ones left. */
  lemma {:induction false} NothingTriggered(env: Environment, reply: Reply, rules: seq<Rule>, m: Machine, w: Waited)
    requires Known(rules, m.world) && w == Wait(env, reply, rules, m) && (w.outcome.Timeout? || w.outcome.Exit?)
    ensures RulesCalled(w.m.log, Callback) == RulesCalled(m.log, Callback)
    ensures EachAskedOrCancelled(rules, m.log, w.m.log)
    ensures RulesCalled(w.m.log, Interest) == RulesCalled(m.log, Interest) + w.rules
  {
    hide Prepare, Dispatch, RulesCalled, EachAskedOrCancelled;
    PrepareCalls(env, rules, m);
    PrepareAsksOrCancels(env, rules, m);
  }

  lemma {:induction false} NoneReady(ps: seq<Polled>)
    ensures ReadyRules(ps) != [] <==> exists k :: 0 <= k < |ps| && ps[k].Ready()
  {
    if ps != [] {
      NoneReady(ps[1..]);
      if exists k :: 0 <= k < |ps| && ps[k].Ready() {
        var k :| 0 <= k < |ps| && ps[k].Ready();
        assert k > 0 ==> ps[1..][k - 1].Ready();
      } else {
        assert forall k :: 0 <= k < |ps[1..]| ==> ps[1..][k] == ps[k + 1];
      }
    }
  }

  /** A failed poll that was not interrupted and reported no conditions passes for a success that did
      nothing. */
  lemma {:induction false} FailedPollIsSwallowed(env: Environment, reply: Reply, rules: seq<Rule>, m: Machine,
                                               p: Prepared, w: Waited)
    requires Known(rules, m.world) && w == Wait(env, reply, rules, m)
    requires reply.ret < 0 && reply.errno != EINTR && forall i :: reply.revents(i) == 0
    requires p == Prepare(env, rules, m) && !p.threw && true in p.wants
    ensures w == Waited(p.rules, p.m, Success)
  {
    hide Prepare, Dispatch, Wait;
    QuietWait(env, reply, rules, m, p, w);
  }

  /** What the kernel has found of a rule calls for nothing: no condition at all, or a hangup of a
      descriptor whose rule was not interested. */
  predicate Quiet(wanted: bool, revents: bv16) {
    revents == 0 || (!wanted && revents == POLLHUP)
  }

  lemma {:induction false} QuietWait(env: Environment, reply: Reply, rules: seq<Rule>, m: Machine,
                                   p: Prepared, w: Waited)
    requires Known(rules, m.world) && w == Wait(env, reply, rules, m)
    requires reply.ret > 0 || (reply.ret < 0 && reply.errno != EINTR)
    requires p == Prepare(env, rules, m) && !p.threw && true in p.wants
    requires forall k :: 0 <= k < |p.wants| ==> Quiet(p.wants[k], reply.revents(k))
    ensures w == Waited(p.rules, p.m, Success)
  {
    var ps := Zip(p.rules, p.wants, reply.revents);
    forall k | 0 <= k < |ps|
      ensures !ps[k].Errored() && !ps[k].HungUp() && !ps[k].Ready()
    {
      NoBits(ps[k].events);
    }
    hide Prepare, Dispatch, Zip, RulesOf;
    QuietDispatch(env, ps, p.m);
    var d := Dispatch(env, ps, p.m);
    assert w == d;
  }

  /** An ordinary success that triggers nothing: of two rules one is interested and has to wait, the other is
      not and its descriptor hangs up. Poll reports one descriptor, and nobody is called back. */
  lemma {:induction false} HangupTriggersNothing(a: Rule, b: Rule, env: Environment, reply: Reply,
                                               rules: seq<Rule>, m: Machine, w: Waited)
    requires env == ((n: nat) => Effect(map[], n == 0, false))
    requires reply == Reply(1, 0, (i: nat) => if i == 1 then POLLHUP else 0)
    requires rules == [a, b] && Known(rules, m.world) && m.log == []
    requires a.fd.internal in m.world && !Defunct(a, m.world) && b.fd.internal in m.world && !Defunct(b, m.world)
    requires w == Wait(env, reply, rules, m)
    ensures w.outcome.Success? && w.rules == rules && RulesCalled(w.m.log, Callback) == []
  {
    var first := Call(env, m, Interest, rules[0]);
    var second := Call(env, first, Interest, rules[1]);
    assert first.world == m.world;
    assert !Threw(first) && Answered(first) && !Threw(second) && !Answered(second);
    hide Call, Defunct;
    assert rules[1..] == [rules[1]] && rules[1..][1..] == [];
    assert !Defunct(rules[0], m.world) && !Defunct(rules[1], first.world);
    assert Prepare(env, [], second) == Prepared([], [], second, false);
    var q := Prepare(env, rules[1..], first);
    assert q == Prepared([rules[1]], [false], second, false);
    var p := Prepare(env, rules, m);
    assert p == Prepared(rules, [true, false], second, false);
    QuietWait(env, reply, rules, m, p, w);
    PrepareCalls(env, rules, m);
  }

  lemma {:induction false} QuietDispatch(env: Environment, ps: seq<Polled>, m: Machine)
    requires Known(RulesOf(ps), m.world)
    requires forall k :: 0 <= k < |ps| ==> !ps[k].Errored() && !ps[k].HungUp() && !ps[k].Ready()
    ensures Dispatch(env, ps, m) == Waited(RulesOf(ps), m, Success)
    decreases |ps|
  {
    if ps != [] {
      RulesOfTail(ps);
      hide Polled.Errored, Polled.HungUp, Polled.Ready;
      QuietDispatch(env, ps[1..], m);
    } else {
      assert RulesOf(ps) == [];
    }
  }

  lemma {:induction false} NoBits(mask: bv16)
    ensures !Has(0, mask) && !Has(0, POLLERR | POLLNVAL) && !Has(0, POLLHUP)
    ensures !Has(POLLHUP, POLLERR | POLLNVAL) && !Has(POLLHUP, 0)
  {
  }

  // ---------------------------------------------------------------------------------------------
  // Defunct rules
  // ---------------------------------------------------------------------------------------------

  /** A flag once set stays set, so a defunct rule stays defunct. */
  lemma {:induction false} DefunctStays(env: Environment, m: Machine, kind: Kind, rule: Rule, r: Rule)
    requires r.fd.internal in m.world && Defunct(r, m.world)
    ensures Defunct(r, Call(env, m, kind, rule).world)
  {
  }

  lemma {:induction false} PrepareDropsDefunct(env: Environment, rules: seq<Rule>, m: Machine)
    requires Known(rules, m.world) && !Prepare(env, rules, m).threw
    ensures forall r :: r in Prepare(env, rules, m).rules ==>
              r in rules && r.fd.internal in m.world && !Defunct(r, m.world)
    decreases |rules|
  {
    if rules != [] {
      var kind := if Defunct(rules[0], m.world) then Cancel else Interest;
      var next := Call(env, m, kind, rules[0]);
      PrepareDropsDefunct(env, rules[1..], next);
      forall r | r in Prepare(env, rules[1..], next).rules
        ensures !Defunct(r, m.world)
      {
        if Defunct(r, m.world) {
          DefunctStays(env, m, kind, rules[0], r);
          assert false;
        }
      }
    }
  }

  /** The flags of a record are never reset. */
  ghost predicate FlagsStay(before: World, after: World) {
    && before.Keys == after.Keys
    && forall w :: w in before ==>
         (before[w].eof ==> after[w].eof) && (before[w].closed ==> after[w].closed)
  }

  lemma {:induction false} CallFlagsStay(env: Environment, m: Machine, kind: Kind, rule: Rule)
    ensures FlagsStay(m.world, Call(env, m, kind, rule).world)
  {
  }

  /** The rule's record has a flag that ends it. */
  predicate Ended(rule: Rule, world: World) {
    && rule.fd.internal in world
    && (world[rule.fd.internal].closed || (rule.direction.In? && world[rule.fd.internal].eof))
  }

  /** The first pass cancels a rule only if its input has ended or its descriptor is closed. Together with
      `WaitDropsDefunct` this says who is cancelled, whatever the calls in between do to the records. */
  lemma {:induction false} CancelledOnlyIfEnded(env: Environment, rules: seq<Rule>, m: Machine)
    requires Known(rules, m.world)
    ensures var p := Prepare(env, rules, m);
            && m.log <= p.m.log && FlagsStay(m.world, p.m.world)
            && forall k :: |m.log| <= k < |p.m.log| && p.m.log[k].kind.Cancel? ==> Ended(p.m.log[k].rule, p.m.world)
    decreases |rules|
  {
    if rules != [] {
      var kind := if Defunct(rules[0], m.world) then Cancel else Interest;
      var next := Call(env, m, kind, rules[0]);
      var e := next.log[|m.log|];
      assert next.log == m.log + [e] && e.kind == kind && e.rule == rules[0];
      CallFlagsStay(env, m, kind, rules[0]);
      assert kind.Cancel? ==> Ended(rules[0], next.world);
      hide Call, Defunct;
      if !Threw(next) {
        CancelledOnlyIfEnded(env, rules[1..], next);
        var p := Prepare(env, rules[1..], next);
        assert p.m.log[|m.log|] == next.log[|m.log|];
      }
    }
  }

  /** What a call does to a record counts from then on: if it ends a rule, the next wait drops the rule. */
  lemma {:induction false} EndedByCallIsDropped(env: Environment, m: Machine, kind: Kind, called: Rule, r: Rule,
                                              reply: Reply, rules: seq<Rule>, next: Machine)
    requires r.fd.internal in m.world && r.fd.internal in env(|m.log|).changes
    requires var change := env(|m.log|).changes[r.fd.internal];
             change.closed || (r.direction.In? && change.eof)
    requires next == Call(env, m, kind, called) && Known(rules, next.world)
    ensures Thrown(Wait(env, reply, rules, next).outcome) || r !in Wait(env, reply, rules, next).rules
  {
    hide Wait;
    if !Thrown(Wait(env, reply, rules, next).outcome) {
      WaitDropsDefunct(env, reply, rules, next);
    }
  }

  lemma {:induction false} SurvivorsAmong(ps: seq<Polled>, r: Rule)
    ensures r in Survivors(ps) ==> r in RulesOf(ps)
  {
    if ps != [] {
      RulesOfTail(ps);
      SurvivorsAmong(ps[1..], r);
    }
  }

  /** No rule whose input had ended, or whose descriptor was closed, before a wait is still there after
      it, unless the wait throws. */
  lemma {:induction false} WaitDropsDefunct(env: Environment, reply: Reply, rules: seq<Rule>, m: Machine)
    requires Known(rules, m.world) && !Thrown(Wait(env, reply, rules, m).outcome)
    ensures forall r :: r in Wait(env, reply, rules, m).rules ==>
              && r in rules && r.fd.internal in m.world
              && !m.world[r.fd.internal].closed && !(r.direction.In? && m.world[r.fd.internal].eof)
  {
    hide Prepare, Dispatch;
    var w := Wait(env, reply, rules, m);
    assert !Prepare(env, rules, m).threw;
    PrepareDropsDefunct(env, rules, m);
    if w.outcome.Success? {
      var p, ps := SuccessIsDispatch(env, reply, rules, m);
      DispatchSucceeds(env, ps, p.m);
      forall r | r in w.rules
        ensures r in p.rules
      {
        SurvivorsAmong(ps, r);
      }
    }
  }
}
