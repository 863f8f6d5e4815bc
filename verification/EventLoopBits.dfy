// What the bits of a poll result lead to, in the numbers of poll(2): 0x01 input, 0x04 output, 0x08 error,
// 0x10 hangup, 0x20 invalid descriptor.
module EventLoopBits {
  import opened EventLoopSpec
  import opened EventLoopOutcomes
  import opened EventLoopErrors

  predicate ErrorBits(bits: bv16) {
    bits & 0x28 != 0
  }

  /** The condition that the rule is about has been found, whatever else has. */
  predicate AskedBit(rule: Rule, bits: bv16) {
    bits & (if rule.direction.In? then 0x01 else 0x04) != 0
  }

  predicate HangupBit(bits: bv16) {
    bits & 0x10 != 0
  }

  /** The `i`-th result of a wait, read off its bits. */
  lemma {:induction false} ResultByBits(rules: seq<Rule>, wants: seq<bool>, revents: nat -> bv16, i: nat, p: Polled)
    requires i < |rules| == |wants| && p == Zip(rules, wants, revents)[i]
    ensures p.rule == rules[i]
    ensures p.Errored() <==> ErrorBits(revents(i))
    ensures p.Ready() <==> wants[i] && AskedBit(rules[i], revents(i))
    ensures p.HungUp() <==> wants[i] && HangupBit(revents(i)) && !AskedBit(rules[i], revents(i))
  {
    MeaningOfMasks(p.revents);
    hide Has, AskedBit, HangupBit, ErrorBits;
    assert p.revents == revents(i) && p.events == if wants[i] then Mask(rules[i].direction) else 0;
    MeaningOfEvents(rules[i], p.revents);
  }

  lemma {:induction false} MeaningOfMasks(bits: bv16)
    ensures Has(bits, POLLERR | POLLNVAL) <==> ErrorBits(bits)
    ensures Has(bits, POLLHUP) <==> HangupBit(bits)
    ensures !Has(bits, 0)
  {
  }

  lemma {:induction false} MeaningOfEvents(rule: Rule, bits: bv16)
    ensures Mask(rule.direction) != 0
    ensures Has(bits, Mask(rule.direction)) <==> AskedBit(rule, bits)
  {
  }

  // ---------------------------------------------------------------------------------------------
  // One rule
  // ---------------------------------------------------------------------------------------------

  /** The callback is called. If it throws, or has moved its count, that is all; otherwise the rule is asked
      again and must not be interested. The rule stays. */
  ghost predicate CallsBack(env: Environment, rule: Rule, m: Machine, v: Visited) {
    var e, f := env(|m.log|), env(|m.log| + 1);
    var callback, recheck := Event(Callback, rule, e.answer, e.throws), Event(Recheck, rule, f.answer, f.throws);
    && !v.erased
    && if e.throws then v.m.log == m.log + [callback] && v.outcome.CallThrew?
       else if Moved(rule, e) % 0x1_0000_0000 != 0 then v.m.log == m.log + [callback] && v.outcome.Success?
       else
         && v.m.log == m.log + [callback, recheck]
         && v.outcome == if f.throws then CallThrew else if f.answer then BusyWait else Success
  }

  /** The cancel callback is called, and the rule goes unless that throws. */
  ghost predicate CancelsRule(env: Environment, rule: Rule, m: Machine, v: Visited) {
    var e := env(|m.log|);
    && v.m.log == m.log + [Event(Cancel, rule, e.answer, e.throws)]
    && v.outcome == (if e.throws then CallThrew else Success)
    && v.erased == !e.throws
  }

  /** An error comes first. An interested rule whose condition was found is called back, hangup or not. An
      interested rule with a hangup alone is cancelled. Every other rule is left alone. */
  lemma {:induction false} VisitByBits(env: Environment, rules: seq<Rule>, wants: seq<bool>, revents: nat -> bv16,
                                     i: nat, p: Polled, m: Machine, v: Visited)
    requires i < |rules| == |wants| && rules[i].fd.internal in m.world
    requires p == Zip(rules, wants, revents)[i] && p.rule == rules[i] && v == Visit(env, p, m)
    ensures var rule, bits := rules[i], revents(i);
            if ErrorBits(bits) then v == Visited(m, PollError, false)
            else if wants[i] && AskedBit(rule, bits) then CallsBack(env, rule, m, v)
            else if wants[i] && HangupBit(bits) then CancelsRule(env, rule, m, v)
            else v == Visited(m, Success, false)
  {
    ResultByBits(rules, wants, revents, i, p);
    hide Polled.Errored, Polled.Ready, Polled.HungUp, AskedBit, HangupBit, ErrorBits, Zip;
    if p.Ready() && !p.Errored() {
      CallsBackIfReady(env, p, m, v);
    }
  }

  lemma {:induction false} CallsBackIfReady(env: Environment, p: Polled, m: Machine, v: Visited)
    requires p.rule.fd.internal in m.world && v == Visit(env, p, m) && p.Ready() && !p.Errored()
    ensures CallsBack(env, p.rule, m, v)
  {
    hide Has;
    ServedIfMoved(env, p.rule, m);
    hide Served;
    var next := Call(env, m, Callback, p.rule);
    var last := Call(env, next, Recheck, p.rule);
    assert next.log == m.log + [Event(Callback, p.rule, env(|m.log|).answer, env(|m.log|).throws)];
    assert last.log == m.log + [Event(Callback, p.rule, env(|m.log|).answer, env(|m.log|).throws),
                                Event(Recheck, p.rule, env(|m.log| + 1).answer, env(|m.log| + 1).throws)];
  }

  // ---------------------------------------------------------------------------------------------
  // A whole wait
  // ---------------------------------------------------------------------------------------------

  /** The rules at the marked places, in order. */
  function Picked(rules: seq<Rule>, marks: seq<bool>): seq<Rule>
    requires |rules| == |marks|
  {
    if rules == [] then [] else (if marks[0] then [rules[0]] else []) + Picked(rules[1..], marks[1..])
  }

  function CalledMarks(rules: seq<Rule>, wants: seq<bool>, revents: nat -> bv16): seq<bool>
    requires |rules| == |wants|
  {
    seq(|rules|, i requires 0 <= i < |rules| && |rules| == |wants| => wants[i] && AskedBit(rules[i], revents(i)))
  }

  function HangupMarks(rules: seq<Rule>, wants: seq<bool>, revents: nat -> bv16): seq<bool>
    requires |rules| == |wants|
  {
    seq(|rules|, i requires 0 <= i < |rules| && |rules| == |wants| =>
      wants[i] && HangupBit(revents(i)) && !AskedBit(rules[i], revents(i)))
  }

  function Others(marks: seq<bool>): seq<bool> {
    seq(|marks|, i requires 0 <= i < |marks| => !marks[i])
  }

  lemma {:induction false} PickedResults(ps: seq<Polled>, rules: seq<Rule>, called: seq<bool>, hung: seq<bool>)
    requires |ps| == |rules| == |called| == |hung|
    requires forall i :: 0 <= i < |ps| ==> ps[i].rule == rules[i]
    requires forall i :: 0 <= i < |ps| ==> (called[i] <==> ps[i].Ready()) && (hung[i] <==> ps[i].HungUp())
    ensures ReadyRules(ps) == Picked(rules, called)
    ensures HungUpRules(ps) == Picked(rules, hung)
    ensures Survivors(ps) == Picked(rules, Others(hung))
    decreases |ps|
  {
    if ps != [] {
      hide Polled.Ready, Polled.HungUp;
      assert Others(hung)[1..] == Others(hung[1..]);
      PickedResults(ps[1..], rules[1..], called[1..], hung[1..]);
    }
  }

  /** A wait that succeeds has found no error; it has called back exactly the interested rules whose condition
      was found, has cancelled, after the ones dropped before polling, exactly the interested ones with a hangup
      alone, and has kept the rest. */
  lemma {:induction false} SuccessByBits(env: Environment, reply: Reply, rules: seq<Rule>, m: Machine,
                                       p: Prepared, w: Waited)
    requires Known(rules, m.world) && w == Wait(env, reply, rules, m) && w.outcome.Success?
    requires p == Prepare(env, rules, m) && |p.rules| == |p.wants|
    ensures forall i :: 0 <= i < |p.rules| ==> !ErrorBits(reply.revents(i))
    ensures RulesCalled(w.m.log, Callback)
         == RulesCalled(m.log, Callback) + Picked(p.rules, CalledMarks(p.rules, p.wants, reply.revents))
    ensures RulesCalled(w.m.log, Cancel)
         == RulesCalled(p.m.log, Cancel) + Picked(p.rules, HangupMarks(p.rules, p.wants, reply.revents))
    ensures w.rules == Picked(p.rules, Others(HangupMarks(p.rules, p.wants, reply.revents)))
  {
    var ps := Zip(p.rules, p.wants, reply.revents);
    forall i | 0 <= i < |ps|
      ensures ps[i].rule == p.rules[i]
      ensures ps[i].Errored() <==> ErrorBits(reply.revents(i))
      ensures ps[i].Ready() <==> p.wants[i] && AskedBit(p.rules[i], reply.revents(i))
      ensures ps[i].HungUp()
          <==> p.wants[i] && HangupBit(reply.revents(i)) && !AskedBit(p.rules[i], reply.revents(i))
    {
      ResultByBits(p.rules, p.wants, reply.revents, i, ps[i]);
    }
    hide Prepare, Dispatch, Wait, RulesCalled, Polled.Errored, Polled.Ready, Polled.HungUp, Picked,
         AskedBit, HangupBit, ErrorBits, Survivors, ReadyRules, HungUpRules;
    var called, hung := CalledMarks(p.rules, p.wants, reply.revents), HangupMarks(p.rules, p.wants, reply.revents);
    PickedResults(ps, p.rules, called, hung);
    var _, _ := SuccessIsDispatch(env, reply, rules, m);
    PrepareCalls(env, rules, m);
    DispatchSucceeds(env, ps, p.m);
  }

  /** A loop with one rule, interested, whose condition is found: it is called back and stays, in either
      direction and also if the other side has hung up. */
  lemma {:induction false} OnlyRuleCalledBack(rule: Rule, env: Environment, reply: Reply, m: Machine, w: Waited)
    requires Known([rule], m.world) && rule.fd.internal in m.world
    requires !m.world[rule.fd.internal].closed && !(rule.direction.In? && m.world[rule.fd.internal].eof)
    requires env(|m.log|).answer && !env(|m.log|).throws
    requires reply.ret > 0 && !ErrorBits(reply.revents(0)) && AskedBit(rule, reply.revents(0))
    requires w == Wait(env, reply, [rule], m)
    ensures w.rules == [rule]
    ensures |w.m.log| > |m.log| + 1 && m.log <= w.m.log
    ensures var e := w.m.log[|m.log| + 1];
            e.kind.Callback? && e.rule == rule && e.threw == env(|m.log| + 1).throws
    ensures env(|m.log| + 1).throws ==> w.outcome.CallThrew?
  {
    var next := Call(env, m, Interest, rule);
    assert !Threw(next) && Answered(next) && next.log == m.log + [Event(Interest, rule, true, false)];
    assert [rule][1..] == [] && Prepare(env, [], next) == Prepared([], [], next, false);
    var p := Prepare(env, [rule], m);
    assert p == Prepared([rule], [true], next, false);
    var ps := Zip(p.rules, p.wants, reply.revents);
    var v := Visit(env, ps[0], next);
    VisitByBits(env, p.rules, p.wants, reply.revents, 0, ps[0], next, v);
    assert RulesOf(ps) == [rule];
    assert Dispatch(env, ps[1..], v.m) == Waited([], v.m, Success);
    var d := Dispatch(env, ps, next);
    hide Prepare, Dispatch, Visit, Zip, Call, AskedBit, ErrorBits;
    assert w == d;
    assert d.m == v.m && d.outcome == v.outcome;
  }
}
