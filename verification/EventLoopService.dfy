// What the busy-wait check buys: service counts bound callbacks.
module EventLoopService {
  import opened FileDescriptors
  import opened EventLoopSpec
  import opened EventLoopLaws
  import opened EventLoopRuns

  // ---------------------------------------------------------------------------------------------
  // Service counts bound callbacks
  // ---------------------------------------------------------------------------------------------

  predicate About(e: Event, w: FDWrapper, d: Direction) {
    e.rule.fd.internal == w && e.rule.direction == d
  }

  /** Callbacks, of any rule, for one descriptor and direction, that returned. */
  function CallbackOn(w: FDWrapper, d: Direction): Event -> bool {
    (e: Event) => e.kind.Callback? && !e.threw && About(e, w, d)
  }

  /** Questions of the busy-wait check: asked after a callback that moved no count. */
  function RecheckOn(w: FDWrapper, d: Direction): Event -> bool {
    (e: Event) => e.kind.Recheck? && About(e, w, d)
  }

  /** Those answered: no longer interested. */
  function DeclineOn(w: FDWrapper, d: Direction): Event -> bool {
    (e: Event) => e.kind.Recheck? && !e.answer && !e.threw && About(e, w, d)
  }

  /** A record that the loop does not know counts for nothing. */
  function CountIn(world: World, w: FDWrapper, d: Direction): nat {
    if w in world then Count(world[w], d) else 0
  }

  /** From `m` to `m'`, callbacks grow by at most the growth of the count from `count` and of the rechecks. */
  ghost predicate BoundedFrom(m: Machine, count: nat, m': Machine, w: FDWrapper, d: Direction) {
    Tally(m'.log, CallbackOn(w, d)) + count + Tally(m.log, RecheckOn(w, d))
    <= Tally(m.log, CallbackOn(w, d)) + CountIn(m'.world, w, d) + Tally(m'.log, RecheckOn(w, d))
  }

  ghost predicate Bounded(m: Machine, m': Machine, w: FDWrapper, d: Direction) {
    BoundedFrom(m, CountIn(m.world, w, d), m', w, d)
  }

  lemma {:induction false} BoundedTwice(a: Machine, b: Machine, c: Machine, w: FDWrapper, d: Direction)
    ensures Bounded(a, a, w, d)
    ensures Bounded(a, b, w, d) && Bounded(b, c, w, d) ==> Bounded(a, c, w, d)
  {
  }

  /** Calls other than callbacks cannot break the bound; nor can a callback that throws, one that moves
      the count, or one followed by the busy-wait check. */
  lemma {:induction false} OtherCallBounded(env: Environment, m: Machine, kind: Kind, rule: Rule,
                                          w: FDWrapper, d: Direction)
    requires kind.Callback? ==> Threw(Call(env, m, kind, rule))
    ensures Bounded(m, Call(env, m, kind, rule), w, d)
  {
  }

  lemma {:induction false} ServedBounded(env: Environment, m: Machine, rule: Rule, w: FDWrapper, d: Direction)
    requires rule.fd.internal in m.world
    requires Served(rule, m, Call(env, m, Callback, rule))
    ensures Bounded(m, Call(env, m, Callback, rule), w, d)
  {
    hide AsUnsigned;
  }

  lemma {:induction false} RecheckedBounded(env: Environment, m: Machine, rule: Rule, w: FDWrapper, d: Direction)
    ensures Bounded(m, Call(env, Call(env, m, Callback, rule), Recheck, rule), w, d)
  {
  }

  lemma {:induction false} PrepareBounded(env: Environment, rules: seq<Rule>, m: Machine, w: FDWrapper, d: Direction)
    requires Known(rules, m.world)
    ensures Bounded(m, Prepare(env, rules, m).m, w, d)
    decreases |rules|
  {
    hide Call, Tally, Defunct, Bounded;
    BoundedTwice(m, m, m, w, d);
    if rules != [] {
      var kind := if Defunct(rules[0], m.world) then Cancel else Interest;
      var next := Call(env, m, kind, rules[0]);
      OtherCallBounded(env, m, kind, rules[0], w, d);
      if !Threw(next) {
        PrepareBounded(env, rules[1..], next, w, d);
        BoundedTwice(m, next, Prepare(env, rules[1..], next).m, w, d);
      }
    }
  }

  lemma {:induction false} VisitBounded(env: Environment, p: Polled, m: Machine, w: FDWrapper, d: Direction)
    requires p.rule.fd.internal in m.world
    ensures Bounded(m, Visit(env, p, m).m, w, d)
  {
    hide Call, Tally, Bounded, Has, Served;
    BoundedTwice(m, m, m, w, d);
    OtherCallBounded(env, m, Cancel, p.rule, w, d);
    var next := Call(env, m, Callback, p.rule);
    if Threw(next) {
      OtherCallBounded(env, m, Callback, p.rule, w, d);
    } else if Served(p.rule, m, next) {
      ServedBounded(env, m, p.rule, w, d);
    } else {
      RecheckedBounded(env, m, p.rule, w, d);
    }
  }

  lemma {:induction false} DispatchBounded(env: Environment, ps: seq<Polled>, m: Machine, w: FDWrapper, d: Direction)
    requires Known(RulesOf(ps), m.world)
    ensures Bounded(m, Dispatch(env, ps, m).m, w, d)
    decreases |ps|
  {
    BoundedTwice(m, m, m, w, d);
    if ps != [] {
      RulesOfTail(ps);
      assert ps[0].rule == RulesOf(ps)[0];
      var v := Visit(env, ps[0], m);
      hide Bounded, Visit;
      VisitBounded(env, ps[0], m, w, d);
      if v.outcome == Success {
        DispatchBounded(env, ps[1..], v.m, w, d);
        BoundedTwice(m, v.m, Dispatch(env, ps[1..], v.m).m, w, d);
      }
    }
  }

  lemma {:induction false} StepBounded(env: Environment, st: LoopState, op: Op, w: FDWrapper, d: Direction)
    requires Known(st.rules, st.m.world)
    requires w in Step(env, st, op).m.world ==> w in st.m.world
    ensures Bounded(st.m, Step(env, st, op).m, w, d)
  {
    match op {
      case WaitFor(reply) =>
        hide Tally, Prepare, Dispatch;
        var p := Prepare(env, st.rules, st.m);
        PrepareBounded(env, st.rules, st.m, w, d);
        if Wait(env, reply, st.rules, st.m).m != p.m {
          var ps := Zip(p.rules, p.wants, reply.revents);
          DispatchBounded(env, ps, p.m, w, d);
        }
      case _ =>
    }
  }

  /** The count that a record comes into the loop with: the one it has, or gets from the addition that
      brings it in. */
  ghost function FirstCount(env: Environment, st: LoopState, ops: seq<Op>, w: FDWrapper, d: Direction): nat
    requires Known(st.rules, st.m.world)
    decreases |ops|
  {
    if w in st.m.world then Count(st.m.world[w], d)
    else if ops == [] then 0
    else FirstCount(env, Step(env, st, ops[0]), ops[1..], w, d)
  }

  /** If every addition of a record brings the same count, that is the count it comes in with. */
  lemma {:induction false} FirstCountIs(env: Environment, st: LoopState, ops: seq<Op>,
                                      w: FDWrapper, d: Direction, count: nat)
    requires Known(st.rules, st.m.world) && w !in st.m.world
    requires forall k :: 0 <= k < |ops| && ops[k].Add? && ops[k].fd.internal == w ==> Count(ops[k].state, d) == count
    ensures FirstCount(env, st, ops, w, d) == if w in Run(env, st, ops).m.world then count else 0
    decreases |ops|
  {
    if ops != [] {
      hide Wait;
      var next := Step(env, st, ops[0]);
      if w in next.m.world {
        assert next.m.world[w] == ops[0].state;
      } else {
        FirstCountIs(env, next, ops[1..], w, d, count);
      }
    }
  }

  /** Over any run, thrown errors included, and for any descriptor, whenever it comes into the loop. */
  lemma {:induction false} RunBounded(env: Environment, st: LoopState, ops: seq<Op>, w: FDWrapper, d: Direction)
    requires Known(st.rules, st.m.world)
    ensures BoundedFrom(st.m, FirstCount(env, st, ops, w, d), Run(env, st, ops).m, w, d)
    decreases |ops|
  {
    if ops != [] {
      hide Tally, Wait;
      var next := Step(env, st, ops[0]);
      if w in next.m.world && w !in st.m.world {
        assert next.m.log == st.m.log;
      } else {
        StepBounded(env, st, ops[0], w, d);
      }
      RunBounded(env, next, ops[1..], w, d);
    }
  }

  // In a run without a thrown error the busy-wait check was always answered: not interested.

  ghost predicate AllDeclined(log: seq<Event>, from: nat) {
    forall k :: from <= k < |log| && log[k].kind.Recheck? ==> !log[k].answer && !log[k].threw
  }

  lemma {:induction false} DeclinedTwice(log: seq<Event>, mid: seq<Event>, log': seq<Event>)
    requires log <= mid <= log' && AllDeclined(mid, |log|)
    ensures AllDeclined(log', |mid|) ==> AllDeclined(log', |log|)
  {
  }

  lemma {:induction false} PrepareAsksNoRecheck(env: Environment, rules: seq<Rule>, m: Machine)
    requires Known(rules, m.world)
    ensures var p := Prepare(env, rules, m);
            && m.log <= p.m.log
            && forall k :: |m.log| <= k < |p.m.log| ==> p.m.log[k].kind in {Cancel, Interest}
    decreases |rules|
  {
    if rules != [] {
      var kind := if Defunct(rules[0], m.world) then Cancel else Interest;
      var next := Call(env, m, kind, rules[0]);
      assert m.log <= next.log && next.log[|m.log|].kind == kind;
      if !Threw(next) {
        PrepareAsksNoRecheck(env, rules[1..], next);
        var p := Prepare(env, rules[1..], next);
        assert p.m.log[|m.log|] == next.log[|m.log|];
      }
    }
  }

  lemma {:induction false} VisitDeclined(env: Environment, p: Polled, m: Machine)
    requires p.rule.fd.internal in m.world
    ensures m.log <= Visit(env, p, m).m.log
    ensures Visit(env, p, m).outcome.Success? ==> AllDeclined(Visit(env, p, m).m.log, |m.log|)
  {
    hide Has;
  }

  lemma {:induction false} DispatchDeclined(env: Environment, ps: seq<Polled>, m: Machine)
    requires Known(RulesOf(ps), m.world)
    ensures m.log <= Dispatch(env, ps, m).m.log
    ensures Dispatch(env, ps, m).outcome.Success? ==> AllDeclined(Dispatch(env, ps, m).m.log, |m.log|)
    decreases |ps|
  {
    if ps != [] {
      RulesOfTail(ps);
      assert ps[0].rule == RulesOf(ps)[0];
      var v := Visit(env, ps[0], m);
      VisitDeclined(env, ps[0], m);
      hide Visit;
      if v.outcome == Success {
        DispatchDeclined(env, ps[1..], v.m);
        DeclinedTwice(m.log, v.m.log, Dispatch(env, ps[1..], v.m).m.log);
      }
    }
  }

  lemma {:induction false} WaitDeclined(env: Environment, reply: Reply, rules: seq<Rule>, m: Machine)
    requires Known(rules, m.world)
    ensures var w := Wait(env, reply, rules, m);
            && m.log <= w.m.log
            && (!Thrown(w.outcome) ==> AllDeclined(w.m.log, |m.log|))
  {
    hide Prepare, Dispatch;
    var p := Prepare(env, rules, m);
    PrepareAsksNoRecheck(env, rules, m);
    var w := Wait(env, reply, rules, m);
    if w != Waited(p.rules, p.m, w.outcome) {
      var ps := Zip(p.rules, p.wants, reply.revents);
      DispatchDeclined(env, ps, p.m);
      DeclinedTwice(m.log, p.m.log, w.m.log);
    }
  }

  lemma {:induction false} StepDeclined(env: Environment, st: LoopState, op: Op)
    requires Known(st.rules, st.m.world) && !Throws(env, st, op)
    ensures st.m.log <= Step(env, st, op).m.log && AllDeclined(Step(env, st, op).m.log, |st.m.log|)
  {
    if op.WaitFor? {
      hide Wait;
      WaitDeclined(env, op.reply, st.rules, st.m);
    }
  }

  lemma {:induction false} RunDeclined(env: Environment, st: LoopState, ops: seq<Op>)
    requires Known(st.rules, st.m.world) && !RunThrows(env, st, ops)
    ensures st.m.log <= Run(env, st, ops).m.log && AllDeclined(Run(env, st, ops).m.log, |st.m.log|)
    decreases |ops|
  {
    if ops != [] {
      var next := Step(env, st, ops[0]);
      StepDeclined(env, st, ops[0]);
      RunDeclined(env, next, ops[1..]);
      DeclinedTwice(st.m.log, next.m.log, Run(env, next, ops[1..]).m.log);
    }
  }

  lemma {:induction false} TallyAgrees(log: seq<Event>, from: nat, p: Event -> bool, q: Event -> bool)
    requires from <= |log| && forall k :: from <= k < |log| ==> p(log[k]) == q(log[k])
    ensures Tally(log, p) - Tally(log[..from], p) == Tally(log, q) - Tally(log[..from], q)
    decreases |log|
  {
    if from < |log| {
      TallyAgrees(log[..|log| - 1], from, p, q);
      assert log[..|log| - 1][..from] == log[..from];
    } else {
      assert log[..from] == log;
    }
  }

  /** Callbacks not followed by a loss of interest, over what a run from `log` to `log'` has added. */
  function Undeclined(log: seq<Event>, log': seq<Event>, w: FDWrapper, d: Direction): int {
    (Tally(log', CallbackOn(w, d)) - Tally(log, CallbackOn(w, d)))
    - (Tally(log', DeclineOn(w, d)) - Tally(log, DeclineOn(w, d)))
  }

  /** In a run without thrown errors, for each descriptor and direction, the callbacks not followed by a
      loss of interest are at most as many as the reads (or writes) of that descriptor since it came into
      the loop, however many rules share it. */
  lemma {:induction false} CallbacksBoundedByService(env: Environment, st: LoopState, ops: seq<Op>,
                                                   w: FDWrapper, d: Direction)
    requires Known(st.rules, st.m.world)
    requires !RunThrows(env, st, ops)
    ensures var end := Run(env, st, ops).m;
            Undeclined(st.m.log, end.log, w, d)
            <= CountIn(end.world, w, d) - FirstCount(env, st, ops, w, d)
  {
    hide Run, RunThrows, Tally;
    var end := Run(env, st, ops).m;
    RunBounded(env, st, ops, w, d);
    RunDeclined(env, st, ops);
    assert end.log[..|st.m.log|] == st.m.log;
    TallyAgrees(end.log, |st.m.log|, RecheckOn(w, d), DeclineOn(w, d));
  }
}
