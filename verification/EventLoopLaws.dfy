// What holds over whole runs of the event loop.
module EventLoopLaws {
  import opened EventLoopSpec

  // ---------------------------------------------------------------------------------------------
  // Cancelling
  // ---------------------------------------------------------------------------------------------

  /** The event is a cancel call to `r` that returned normally. */
  predicate Cancels(e: Event, r: Rule) {
    e.kind.Cancel? && e.rule == r && !e.threw
  }

  ghost predicate Cancelled(log: seq<Event>, r: Rule) {
    exists i :: 0 <= i < |log| && Cancels(log[i], r)
  }

  /** Once cancelled, a rule is never called again, in any way. */
  ghost predicate Silent(log: seq<Event>) {
    forall i, j :: 0 <= i < j < |log| ==> !Cancels(log[i], log[j].rule)
  }

  ghost predicate Distinct(rules: seq<Rule>) {
    forall i, j :: 0 <= i < j < |rules| ==> rules[i] != rules[j]
  }

  /** The rules that have not been cancelled, in order. */
  ghost function Live(rules: seq<Rule>, log: seq<Event>): seq<Rule> {
    if rules == [] then []
    else (if Cancelled(log, rules[0]) then [] else [rules[0]]) + Live(rules[1..], log)
  }

  /** The rules can still be called without breaking anybody's silence. */
  ghost predicate Uncancelled(rules: seq<Rule>, log: seq<Event>) {
    && Distinct(rules)
    && Silent(log)
    && forall i :: 0 <= i < |rules| ==> !Cancelled(log, rules[i])
  }

  /** The log has grown, by events of these rules only; silence is kept and the rules left over are
      exactly those not cancelled. */
  ghost predicate Progress(rules: seq<Rule>, log: seq<Event>, rules': seq<Rule>, log': seq<Event>) {
    && log <= log'
    && Silent(log')
    && (forall k :: |log| <= k < |log'| ==> log'[k].rule in rules)
    && rules' == Live(rules, log')
  }

  lemma {:induction false} LiveOfUncancelled(rules: seq<Rule>, log: seq<Event>)
    requires forall i :: 0 <= i < |rules| ==> !Cancelled(log, rules[i])
    ensures Live(rules, log) == rules
  {
    if rules != [] {
      LiveOfUncancelled(rules[1..], log);
    }
  }

  lemma {:induction false} CancelledGrows(log: seq<Event>, log': seq<Event>, r: Rule)
    requires log <= log' && Cancelled(log, r)
    ensures Cancelled(log', r)
  {
  }

  /** Filtering by a longer log can be done on top of filtering by a shorter one. */
  lemma {:induction false} LiveTwice(rules: seq<Rule>, log: seq<Event>, log': seq<Event>)
    requires log <= log'
    ensures Live(Live(rules, log), log') == Live(rules, log')
  {
    if rules != [] {
      LiveTwice(rules[1..], log, log');
      if Cancelled(log, rules[0]) {
        CancelledGrows(log, log', rules[0]);
        assert Live(rules, log) == Live(rules[1..], log);
      } else {
        assert Live(rules, log)[1..] == Live(rules[1..], log);
      }
    }
  }

  lemma {:induction false} LiveMembers(rules: seq<Rule>, log: seq<Event>, r: Rule)
    ensures r in Live(rules, log) <==> r in rules && !Cancelled(log, r)
  {
    if rules != [] {
      LiveMembers(rules[1..], log, r);
    }
  }

  lemma {:induction false} LiveIsDistinct(rules: seq<Rule>, log: seq<Event>)
    requires Distinct(rules)
    ensures Distinct(Live(rules, log))
  {
    if rules != [] {
      LiveIsDistinct(rules[1..], log);
      LiveMembers(rules[1..], log, rules[0]);
      var live := Live(rules[1..], log);
      if !Cancelled(log, rules[0]) {
        assert rules[0] !in rules[1..];
        assert Live(rules, log) == [rules[0]] + live;
      } else {
        assert Live(rules, log) == live;
      }
    }
  }

  /** The visit of a rule ends and the pass goes on behind it. `e` is one event of that rule. */
  lemma {:induction false} StillUncancelled(rules: seq<Rule>, log: seq<Event>, e: Event)
    requires rules != [] && Uncancelled(rules, log) && e.rule == rules[0]
    ensures Uncancelled(rules[1..], log + [e])
    ensures !Cancels(e, rules[0]) ==> Uncancelled(rules, log + [e])
  {
  }

  lemma {:induction false} StopProgress(rules: seq<Rule>, log: seq<Event>, e: Event)
    requires rules != [] && Uncancelled(rules, log) && e.rule == rules[0] && !Cancels(e, rules[0])
    ensures Progress(rules, log, rules, log + [e])
  {
    StillUncancelled(rules, log, e);
    LiveOfUncancelled(rules, log + [e]);
  }

  /** The first rule has been called, but not cancelled. */
  ghost predicate KeepsOn(rules: seq<Rule>, log: seq<Event>, mid: seq<Event>)
    requires rules != []
  {
    log <= mid && Uncancelled(rules, mid) && forall k :: |log| <= k < |mid| ==> mid[k].rule == rules[0]
  }

  /** The first rule stays, whatever happens to the rest. */
  lemma {:induction false} KeepProgress(rules: seq<Rule>, log: seq<Event>, mid: seq<Event>,
                                      rest: seq<Rule>, log': seq<Event>)
    requires rules != [] && KeepsOn(rules, log, mid)
    requires Progress(rules[1..], mid, rest, log')
    ensures Progress(rules, log, [rules[0]] + rest, log')
  {
  }

  /** The first rule goes. */
  lemma {:induction false} CancelProgress(rules: seq<Rule>, log: seq<Event>, e: Event,
                                        rest: seq<Rule>, log': seq<Event>)
    requires rules != [] && Cancels(e, rules[0])
    requires Progress(rules[1..], log + [e], rest, log')
    ensures Progress(rules, log, rest, log')
  {
    assert Cancels(log'[|log|], rules[0]) by {
      assert log'[|log|] == (log + [e])[|log|];
    }
    assert log <= log' by {
      assert log <= log + [e];
    }
    forall k | |log| <= k < |log'|
      ensures log'[k].rule in rules
    {
      if k == |log| {
        assert log'[k] == e;
      }
    }
  }

  lemma {:induction false} PrepareProgress(env: Environment, rules: seq<Rule>, m: Machine)
    requires Known(rules, m.world) && Uncancelled(rules, m.log)
    ensures var p := Prepare(env, rules, m);
            Progress(rules, m.log, p.rules, p.m.log)
    decreases |rules|
  {
    if rules == [] {
      assert Live([], m.log) == [];
    } else {
      var kind := if Defunct(rules[0], m.world) then Cancel else Interest;
      var next := Call(env, m, kind, rules[0]);
      var e := next.log[|m.log|];
      assert next.log == m.log + [e];
      hide Uncancelled, Progress, Live, Cancelled, Silent, Call, Defunct;
      if Threw(next) {
        StopProgress(rules, m.log, e);
      } else {
        StillUncancelled(rules, m.log, e);
        PrepareProgress(env, rules[1..], next);
        var p := Prepare(env, rules[1..], next);
        if kind.Cancel? {
          CancelProgress(rules, m.log, e, p.rules, p.m.log);
        } else {
          KeepProgress(rules, m.log, next.log, p.rules, p.m.log);
        }
      }
    }
  }

  lemma {:induction false} RulesOfTail(ps: seq<Polled>)
    requires ps != []
    ensures RulesOf(ps)[0] == ps[0].rule && RulesOf(ps)[1..] == RulesOf(ps[1..])
    ensures RulesOf(ps) == [ps[0].rule] + RulesOf(ps[1..])
  {
  }

  /** An incident ends the pass with all rules left; a visit without one adds events of its own rule only,
      and erases the rule exactly when it was cancelled. */
  lemma {:induction false} VisitProgress(env: Environment, rules: seq<Rule>, p: Polled, m: Machine)
    requires rules != [] && p.rule == rules[0] && p.rule.fd.internal in m.world && Uncancelled(rules, m.log)
    ensures var v := Visit(env, p, m);
            && (v.outcome != Success ==> Progress(rules, m.log, rules, v.m.log))
            && (v.outcome == Success && !v.erased ==> KeepsOn(rules, m.log, v.m.log))
            && (v.outcome == Success && v.erased ==>
                  |v.m.log| > |m.log| && v.m.log == m.log + [v.m.log[|m.log|]] && Cancels(v.m.log[|m.log|], rules[0])
                  && Uncancelled(rules[1..], v.m.log))
  {
    var kind := if p.HungUp() then Cancel else Callback;
    var next := Call(env, m, kind, p.rule);
    var last := Call(env, next, Recheck, p.rule);
    var e, f := next.log[|m.log|], last.log[|next.log|];
    assert next.log == m.log + [e] && last.log == next.log + [f];
    LiveOfUncancelled(rules, m.log);
    StillUncancelled(rules, m.log, e);
    if !Cancels(e, rules[0]) {
      StopProgress(rules, m.log, e);
      TwoEventProgress(rules, m.log, e, f);
      StillUncancelled(rules, next.log, f);
      assert last.log[|m.log|] == e;
    }
    hide Uncancelled, Live, Cancelled, Silent, Call, Polled.Ready, Polled.HungUp, Polled.Errored, Served;
  }

  lemma {:induction false} DispatchProgress(env: Environment, ps: seq<Polled>, m: Machine)
    requires Known(RulesOf(ps), m.world) && Uncancelled(RulesOf(ps), m.log)
    ensures var w := Dispatch(env, ps, m);
            Progress(RulesOf(ps), m.log, w.rules, w.m.log)
    decreases |ps|
  {
    var rules := RulesOf(ps);
    if ps == [] {
      assert Live([], m.log) == [];
    } else {
      RulesOfTail(ps);
      var v := Visit(env, ps[0], m);
      VisitProgress(env, rules, ps[0], m);
      if v.outcome == Success {
        assert !v.erased ==> Uncancelled(rules[1..], v.m.log);
        hide Uncancelled, Progress, Live, Cancelled, Silent, Visit, RulesOf;
        DispatchProgress(env, ps[1..], v.m);
        var w := Dispatch(env, ps[1..], v.m);
        if v.erased {
          CancelProgress(rules, m.log, v.m.log[|m.log|], w.rules, w.m.log);
        } else {
          KeepProgress(rules, m.log, v.m.log, w.rules, w.m.log);
        }
      }
    }
  }

  lemma {:induction false} TwoEventProgress(rules: seq<Rule>, log: seq<Event>, e: Event, f: Event)
    requires rules != [] && Uncancelled(rules, log) && e.rule == f.rule == rules[0]
    requires !Cancels(e, rules[0]) && !Cancels(f, rules[0])
    ensures Progress(rules, log, rules, log + [e] + [f])
  {
    StillUncancelled(rules, log, e);
    StillUncancelled(rules, log + [e], f);
    LiveOfUncancelled(rules, log + [e] + [f]);
  }
}
