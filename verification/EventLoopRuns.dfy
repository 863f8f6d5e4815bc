// Runs of the event loop: adding rules, waiting, and other code working on the same descriptors.
module EventLoopRuns {
  import opened FileDescriptors
  import opened EventLoopSpec
  import opened EventLoopLaws

  // ---------------------------------------------------------------------------------------------
  // Runs
  // ---------------------------------------------------------------------------------------------

  /** `added` is every rule ever added, in order; rules are numbered as they come. */
  datatype LoopState = LoopState(rules: seq<Rule>, added: seq<Rule>, m: Machine)

  datatype Op =
    | Add(fd: FileDescriptor, direction: Direction, state: FdState)
    | WaitFor(reply: Reply)
    | Elsewhere(changes: map<FDWrapper, Delta>)

  /** A descriptor record joins the world the first time a rule mentions it. */
  function Adopt(world: World, w: FDWrapper, s: FdState): World {
    if w in world then world else world[w := s]
  }

  ghost function Step(env: Environment, st: LoopState, op: Op): (r: LoopState)
    requires Known(st.rules, st.m.world)
    ensures Known(r.rules, r.m.world) && st.m.world.Keys <= r.m.world.Keys
  {
    match op
    case Add(fd, direction, state) =>
      var rule := Rule(|st.added|, fd, direction);
      LoopState(st.rules + [rule], st.added + [rule], st.m.(world := Adopt(st.m.world, fd.internal, state)))
    case WaitFor(reply) =>
      var w := Wait(env, reply, st.rules, st.m);
      LoopState(w.rules, st.added, w.m)
    case Elsewhere(changes) =>
      st.(m := st.m.(world := Affect(st.m.world, changes)))
  }

  /** Whether the operation ends in an exception. */
  ghost predicate Throws(env: Environment, st: LoopState, op: Op)
    requires Known(st.rules, st.m.world)
  {
    op.WaitFor? && Thrown(Wait(env, op.reply, st.rules, st.m).outcome)
  }

  ghost function Run(env: Environment, st: LoopState, ops: seq<Op>): (r: LoopState)
    requires Known(st.rules, st.m.world)
    ensures Known(r.rules, r.m.world) && st.m.world.Keys <= r.m.world.Keys
    decreases |ops|
  {
    if ops == [] then st else Run(env, Step(env, st, ops[0]), ops[1..])
  }

  ghost predicate RunThrows(env: Environment, st: LoopState, ops: seq<Op>)
    requires Known(st.rules, st.m.world)
    decreases |ops|
  {
    ops != [] && (Throws(env, st, ops[0]) || RunThrows(env, Step(env, st, ops[0]), ops[1..]))
  }

  lemma {:induction false} RunSnoc(env: Environment, st: LoopState, ops: seq<Op>, op: Op)
    requires Known(st.rules, st.m.world)
    ensures Run(env, st, ops + [op]) == Step(env, Run(env, st, ops), op)
    decreases |ops|
  {
    if ops == [] {
      assert ([] + [op])[1..] == [];
    } else {
      assert (ops + [op])[1..] == ops[1..] + [op];
      RunSnoc(env, Step(env, st, ops[0]), ops[1..], op);
    }
  }

  lemma {:induction false} RunThrowsSnoc(env: Environment, st: LoopState, ops: seq<Op>, op: Op)
    requires Known(st.rules, st.m.world)
    ensures RunThrows(env, st, ops + [op]) <==> RunThrows(env, st, ops) || Throws(env, Run(env, st, ops), op)
    decreases |ops|
  {
    if ops == [] {
      assert ([] + [op])[1..] == [];
    } else {
      assert (ops + [op])[1..] == ops[1..] + [op];
      RunThrowsSnoc(env, Step(env, st, ops[0]), ops[1..], op);
    }
  }

  // ---------------------------------------------------------------------------------------------
  // Conservation of rules
  // ---------------------------------------------------------------------------------------------

  /** The loop holds exactly the rules added and not cancelled, in the order they were added; only added
      rules are ever called, and none after its cancellation. */
  ghost predicate Good(st: LoopState) {
    && Known(st.rules, st.m.world)
    && (forall i :: 0 <= i < |st.added| ==> st.added[i].id == i)
    && (forall k :: 0 <= k < |st.m.log| ==> st.m.log[k].rule in st.added)
    && Silent(st.m.log)
    && st.rules == Live(st.added, st.m.log)
  }

  lemma {:induction false} WaitProgress(env: Environment, reply: Reply, rules: seq<Rule>, m: Machine)
    requires Known(rules, m.world) && Uncancelled(rules, m.log)
    ensures var w := Wait(env, reply, rules, m);
            Progress(rules, m.log, w.rules, w.m.log)
  {
    hide Silent, Cancelled, Prepare, Dispatch;
    var p := Prepare(env, rules, m);
    PrepareProgress(env, rules, m);
    var w := Wait(env, reply, rules, m);
    if w != Waited(p.rules, p.m, w.outcome) {
      var ps := Zip(p.rules, p.wants, reply.revents);
      LiveUncancelled(rules, p.m.log);
      DispatchProgress(env, ps, p.m);
      LiveTwice(rules, p.m.log, w.m.log);
      forall k | |m.log| <= k < |w.m.log|
        ensures w.m.log[k].rule in rules
      {
        if k < |p.m.log| {
          assert w.m.log[k] == p.m.log[k];
        } else {
          LiveMembers(rules, p.m.log, w.m.log[k].rule);
        }
      }
    }
  }

  lemma {:induction false} LiveUncancelled(rules: seq<Rule>, log: seq<Event>)
    requires Distinct(rules) && Silent(log)
    ensures Uncancelled(Live(rules, log), log)
  {
    LiveIsDistinct(rules, log);
    forall i | 0 <= i < |Live(rules, log)|
      ensures !Cancelled(log, Live(rules, log)[i])
    {
      LiveMembers(rules, log, Live(rules, log)[i]);
    }
  }

  lemma {:induction false} LiveSnoc(rules: seq<Rule>, r: Rule, log: seq<Event>)
    ensures Live(rules + [r], log) == Live(rules, log) + (if Cancelled(log, r) then [] else [r])
  {
    if rules == [] {
      assert ([] + [r])[1..] == [];
    } else {
      assert (rules + [r])[1..] == rules[1..] + [r];
      LiveSnoc(rules[1..], r, log);
    }
  }

  lemma {:induction false} StepKeepsGood(env: Environment, st: LoopState, op: Op)
    requires Good(st)
    ensures Good(Step(env, st, op))
  {
    match op {
      case Add(fd, direction, state) =>
        var rule := Rule(|st.added|, fd, direction);
        assert rule !in st.added;
        assert !Cancelled(st.m.log, rule);
        LiveSnoc(st.added, rule, st.m.log);
      case WaitFor(reply) =>
        hide Silent, Cancelled, Wait;
        LiveUncancelled(st.added, st.m.log);
        WaitProgress(env, reply, st.rules, st.m);
        var w := Wait(env, reply, st.rules, st.m);
        LiveTwice(st.added, st.m.log, w.m.log);
        forall k | 0 <= k < |w.m.log|
          ensures w.m.log[k].rule in st.added
        {
          if k < |st.m.log| {
            assert w.m.log[k] == st.m.log[k];
          } else {
            LiveMembers(st.added, st.m.log, w.m.log[k].rule);
          }
        }
      case Elsewhere(changes) =>
    }
  }

  /** Over every run, those that throw part-way included. */
  lemma {:induction false} RunKeepsGood(env: Environment, st: LoopState, ops: seq<Op>)
    requires Good(st)
    ensures Good(Run(env, st, ops))
    decreases |ops|
  {
    if ops != [] {
      StepKeepsGood(env, st, ops[0]);
      RunKeepsGood(env, Step(env, st, ops[0]), ops[1..]);
    }
  }

  lemma {:induction false} StartIsGood(world: World)
    ensures Good(LoopState([], [], Machine(world, [])))
  {
  }

  // ---------------------------------------------------------------------------------------------
  // Counting calls
  // ---------------------------------------------------------------------------------------------

  function Tally(log: seq<Event>, p: Event -> bool): nat
    decreases |log|
  {
    if log == [] then 0
    else Tally(log[..|log| - 1], p) + if p(log[|log| - 1]) then 1 else 0
  }

  /** Counting by index: `marks` are distinct positions where `p` holds. */
  lemma {:induction false} TallyBounds(log: seq<Event>, p: Event -> bool, marks: set<nat>)
    requires forall i :: i in marks ==> i < |log|
    ensures (forall i :: i in marks ==> p(log[i])) ==> Tally(log, p) >= |marks|
    ensures (forall i :: 0 <= i < |log| && p(log[i]) ==> i in marks) ==> Tally(log, p) <= |marks|
    decreases |log|
  {
    if log == [] {
      assert marks == {};
    } else {
      var n := |log| - 1;
      TallyBounds(log[..n], p, marks - {n});
      assert |marks| == |marks - {n}| + if n in marks then 1 else 0 by {
        if n in marks {
          assert marks == (marks - {n}) + {n};
        } else {
          assert marks == marks - {n};
        }
      }
    }
  }

  /** Calls to the cancel callback of `r`, whether they return or throw. */
  function CancelOf(r: Rule): Event -> bool {
    (e: Event) => e.kind.Cancel? && e.rule == r
  }

  ghost predicate NoCancelThrew(log: seq<Event>) {
    forall k :: 0 <= k < |log| && log[k].kind.Cancel? ==> !log[k].threw
  }

  lemma {:induction false} CancelCount(log: seq<Event>, r: Rule)
    requires Silent(log) && NoCancelThrew(log)
    ensures Tally(log, CancelOf(r)) == if Cancelled(log, r) then 1 else 0
  {
    if Cancelled(log, r) {
      var i :| 0 <= i < |log| && Cancels(log[i], r);
      forall j | 0 <= j < |log| && CancelOf(r)(log[j])
        ensures j == i
      {
        assert Cancels(log[j], log[i].rule) && Cancels(log[i], log[j].rule);
      }
      TallyBounds(log, CancelOf(r), {i});
    } else {
      forall j | 0 <= j < |log|
        ensures !CancelOf(r)(log[j])
      {
        assert !Cancels(log[j], r);
      }
      TallyBounds(log, CancelOf(r), {});
    }
  }

  /** A cancel call that throws is one too many. */
  lemma {:induction false} ThrownCancelCounts(st: LoopState, k: nat)
    requires Good(st) && k < |st.m.log| && st.m.log[k].kind.Cancel? && st.m.log[k].threw
    ensures var r := st.m.log[k].rule;
            r in st.added && Tally(st.m.log, CancelOf(r)) > if r in st.rules then 0 else 1
  {
    hide Silent;
    var log, r := st.m.log, st.m.log[k].rule;
    LiveMembers(st.added, log, r);
    var marks: set<nat> := {k};
    if r !in st.rules {
      var i :| 0 <= i < |log| && Cancels(log[i], r);
      marks := {i, k};
      assert |marks| == 2;
    }
    TallyBounds(log, CancelOf(r), marks);
  }

  /** Every rule's cancel callback is called once if the rule is gone and not at all if it is still there:
      this holds exactly when no cancel callback throws. One that throws leaves its rule in the loop, to
      be cancelled again. */
  lemma {:induction false} CancelledExactlyOnceIff(st: LoopState)
    requires Good(st)
    ensures (forall r :: r in st.added ==> Tally(st.m.log, CancelOf(r)) == if r in st.rules then 0 else 1)
        <==> NoCancelThrew(st.m.log)
  {
    hide Tally;
    var log := st.m.log;
    if NoCancelThrew(log) {
      forall r | r in st.added
        ensures Tally(log, CancelOf(r)) == if r in st.rules then 0 else 1
      {
        LiveMembers(st.added, log, r);
        CancelCount(log, r);
      }
    } else {
      var k :| 0 <= k < |log| && log[k].kind.Cancel? && log[k].threw;
      ThrownCancelCounts(st, k);
    }
  }

  /** An environment whose very first call throws, and no later one. */
  function ThrowsFirst(): Environment {
    (n: nat) => Effect(map[], true, n == 0)
  }

  /** A loop whose only rule is defunct. */
  lemma {:induction false} WaitCancels(env: Environment, st: LoopState, rule: Rule, reply: Reply, next: Machine)
    requires st.rules == [rule] && rule.fd.internal in st.m.world && Defunct(rule, st.m.world)
    requires next == Call(env, st.m, Cancel, rule)
    ensures Step(env, st, WaitFor(reply)) == LoopState(if Threw(next) then [rule] else [], st.added, next)
  {
    hide Call, Defunct;
    assert [rule][1..] == [];
    assert Prepare(env, [], next) == Prepared([], [], next, false);
    var p := Prepare(env, [rule], st.m);
    assert p == Prepared(if Threw(next) then [rule] else [], [], next, Threw(next));
  }

  lemma {:induction false} RunOfThree(env: Environment, st: LoopState, a: Op, b: Op, c: Op)
    requires Known(st.rules, st.m.world)
    ensures Run(env, st, [a, b, c]) == Step(env, Step(env, Step(env, st, a), b), c)
  {
    hide Step;
    RunSnoc(env, st, [], a);
    RunSnoc(env, st, [a], b);
    RunSnoc(env, st, [a, b], c);
    assert [] + [a] == [a] && [a] + [b] == [a, b] && [a, b] + [c] == [a, b, c];
  }

  /** So it does happen: a rule at end of file whose cancel callback throws once is cancelled twice. */
  lemma {:induction false} CancelledTwice(fd: FileDescriptor, reply: Reply, end: LoopState)
    requires end == Run(ThrowsFirst(), LoopState([], [], Machine(map[], [])),
                        [Add(fd, In, FdState(true, false, 0, 0)), WaitFor(reply), WaitFor(reply)])
    ensures end.added == [Rule(0, fd, In)] && end.rules == []
    ensures Tally(end.m.log, CancelOf(Rule(0, fd, In))) == 2
  {
    var env, rule, start := ThrowsFirst(), Rule(0, fd, In), LoopState([], [], Machine(map[], []));
    var add, wait := Add(fd, In, FdState(true, false, 0, 0)), WaitFor(reply);
    var first, second := Event(Cancel, rule, true, true), Event(Cancel, rule, true, false);
    RunOfThree(env, start, add, wait, wait);
    var added := Step(env, start, add);
    var once := Call(env, added.m, Cancel, rule);
    WaitCancels(env, added, rule, reply, once);
    var thrown := Step(env, added, wait);
    var twice := Call(env, once, Cancel, rule);
    WaitCancels(env, thrown, rule, reply, twice);
    assert twice.log == [first, second];
    assert [first, second][..1] == [first] && [first][..0] == [];
    assert Tally([first], CancelOf(rule)) == 1;
  }
}
