// The event loop itself: a rule list edited in place while an index runs along the poll results.
module EventLoops {
  import opened FileDescriptors
  import opened EventLoopSpec
  import EventLoopOutcomes

  /** An entry of the array handed to poll(2). */
  datatype PollFd = PollFd(fd: nat, events: bv16, revents: bv16)

  ghost function StateOf(w: FDWrapper): FdState
    reads w
  {
    FdState(w.eof, w.closed, w.readCount, w.writeCount)
  }

  /** What has been settled so far, in front of what is still to come. */
  ghost function AfterPrepared(done: seq<Rule>, wants: seq<bool>, p: Prepared): Prepared {
    p.(rules := done + p.rules, wants := wants + p.wants)
  }

  ghost function AfterDone(done: seq<Rule>, w: Waited): Waited {
    w.(rules := done + w.rules)
  }

  /** The entry that the first pass makes for a rule. */
  function Entry(rule: Rule, wanted: bool): PollFd {
    PollFd(rule.fd.internal.fd, if wanted then Mask(rule.direction) else 0, 0)
  }

  /** One entry for each rule, in order, with the number of its descriptor. It asks for 0x01 (input) or 0x04
      (output) if the rule is interested and for nothing if it is not. */
  predicate AsksFor(pollfds: seq<PollFd>, rules: seq<Rule>, wants: seq<bool>) {
    && |pollfds| == |rules| == |wants|
    && forall i :: 0 <= i < |rules| ==>
         && pollfds[i].fd == rules[i].fd.internal.fd
         && pollfds[i].events == (if !wants[i] then 0 else if rules[i].direction.In? then 0x01 else 0x04)
         && pollfds[i].revents == 0
  }

  function Entries(rules: seq<Rule>, wants: seq<bool>): (pollfds: seq<PollFd>)
    requires |rules| == |wants|
    ensures AsksFor(pollfds, rules, wants)
  {
    seq(|rules|, i requires 0 <= i < |rules| && |rules| == |wants| => Entry(rules[i], wants[i]))
  }

  lemma {:induction false} EntriesGrow(rules: seq<Rule>, wants: seq<bool>, rule: Rule)
    requires |rules| == |wants|
    ensures forall w :: Entries(rules + [rule], wants + [w]) == Entries(rules, wants) + [Entry(rule, w)]
  {
  }

  lemma {:induction false} StillKnown(rules: seq<Rule>, it: nat, world: World)
    requires it < |rules| && forall i :: 0 <= i < |rules| ==> rules[i].fd.internal in world
    ensures Known(rules[it..], world) && Known(rules[it + 1..], world) && rules[it].fd.internal in world
  {
  }

  lemma {:induction false} PrepareKeeps(env: Environment, done: seq<Rule>, wants: seq<bool>,
                                      rule: Rule, rest: seq<Rule>, m: Machine)
    requires Known(rest, m.world) && rule.fd.internal in m.world && !Defunct(rule, m.world)
    ensures var next := Call(env, m, Interest, rule);
            && Known(rest, next.world) && Known([rule] + rest, m.world)
            && AfterPrepared(done, wants, Prepare(env, [rule] + rest, m))
               == if Threw(next) then Prepared(done + ([rule] + rest), wants, next, true)
                  else AfterPrepared(done + [rule], wants + [Answered(next)], Prepare(env, rest, next))
  {
  }

  lemma {:induction false} AllToCome(rules: seq<Rule>, p: Prepared)
    ensures AfterPrepared(rules[..0], [], p) == p && rules[0..] == rules
    ensures Entries(rules[..0], []) == []
  {
  }

  lemma {:induction false} NothingLeft(env: Environment, done: seq<Rule>, wants: seq<bool>, m: Machine)
    ensures AfterPrepared(done[..|done|], wants, Prepare(env, done[|done|..], m)) == Prepared(done, wants, m, false)
  {
  }

  lemma {:induction false} PrepareCancels(env: Environment, done: seq<Rule>, wants: seq<bool>,
                                        rule: Rule, rest: seq<Rule>, m: Machine)
    requires Known(rest, m.world) && rule.fd.internal in m.world && Defunct(rule, m.world)
    ensures var next := Call(env, m, Cancel, rule);
            && Known(rest, next.world) && Known([rule] + rest, m.world)
            && AfterPrepared(done, wants, Prepare(env, [rule] + rest, m))
               == if Threw(next) then Prepared(done + ([rule] + rest), wants, next, true)
                  else AfterPrepared(done, wants, Prepare(env, rest, next))
  {
  }

  lemma {:induction false} RulesOfCons(p: Polled, rest: seq<Polled>)
    ensures RulesOf([p] + rest) == [p.rule] + RulesOf(rest)
  {
  }

  /** One round of the second pass. */
  lemma {:induction false} DispatchVisits(env: Environment, done: seq<Rule>, p: Polled, rest: seq<Polled>, m: Machine)
    requires Known(RulesOf(rest), m.world) && p.rule.fd.internal in m.world
    ensures var v := Visit(env, p, m);
            && Known(RulesOf(rest), v.m.world) && Known(RulesOf([p] + rest), m.world)
            && AfterDone(done, Dispatch(env, [p] + rest, m))
               == if v.outcome != Success then Waited(done + ([p.rule] + RulesOf(rest)), v.m, v.outcome)
                  else AfterDone(if v.erased then done else done + [p.rule], Dispatch(env, rest, v.m))
  {
    hide Visit;
    RulesOfCons(p, rest);
    assert ([p] + rest)[1..] == rest;
    assert forall rules: seq<Rule> :: done + ([p.rule] + rules) == (done + [p.rule]) + rules;
  }

  /** What a visit comes to, by what the kernel reported. */
  lemma {:induction false} VisitStops(env: Environment, p: Polled, m: Machine)
    requires p.rule.fd.internal in m.world && p.Errored()
    ensures Visit(env, p, m) == Visited(m, PollError, false)
  {
    hide Has;
  }

  lemma {:induction false} VisitSkips(env: Environment, p: Polled, m: Machine)
    requires p.rule.fd.internal in m.world && !p.Errored() && !p.HungUp() && !p.Ready()
    ensures Visit(env, p, m) == Visited(m, Success, false)
  {
    hide Has;
  }

  lemma {:induction false} VisitCancels(env: Environment, p: Polled, m: Machine)
    requires p.rule.fd.internal in m.world && !p.Errored() && p.HungUp()
    ensures var next := Call(env, m, Cancel, p.rule);
            Visit(env, p, m)
            == if Threw(next) then Visited(next, CallThrew, false) else Visited(next, Success, true)
  {
    hide Has;
  }

  lemma {:induction false} AllToDispatch(ps: seq<Polled>, w: Waited)
    ensures AfterDone(RulesOf(ps)[..0], w) == w && ps[0..] == ps && RulesOf(ps)[0..] == RulesOf(ps)
  {
  }

  lemma {:induction false} NothingToDispatch(env: Environment, done: seq<Rule>, ps: seq<Polled>, m: Machine)
    requires done[|done|..] == RulesOf(ps)
    ensures Known(RulesOf(ps), m.world)
    ensures AfterDone(done[..|done|], Dispatch(env, ps, m)) == Waited(done, m, Success)
  {
  }

  /** The unvisited rules are the rules of the unvisited poll results. */
  lemma {:induction false} Aligned(rules: seq<Rule>, it: nat, ps: seq<Polled>, idx: nat)
    requires it < |rules| && idx <= |ps| && rules[it..] == RulesOf(ps[idx..])
    ensures idx < |ps| && rules[it] == ps[idx].rule
    ensures ps[idx..] == [ps[idx]] + ps[idx + 1..]
    ensures rules[it + 1..] == RulesOf(ps[idx + 1..])
    ensures rules == rules[..it] + ([rules[it]] + rules[it + 1..])
    ensures rules[..it + 1] == rules[..it] + [rules[it]]
  {
  }

  class EventLoop {
    var rules: seq<Rule>
    const env: Environment      // the caller's code
    var calls: nat              // how often it has been called
    var known: set<FDWrapper>   // the descriptor records it may change
    ghost var log: seq<Event>

    ghost predicate Valid()
      reads this, known
    {
      calls == |log| && forall i :: 0 <= i < |rules| ==> rules[i].fd.internal in known
    }

    ghost function World(): (w: World)
      reads this, known
      ensures w.Keys == known
    {
      map w | w in known :: StateOf(w)
    }

    ghost function Now(): Machine
      reads this, known
    {
      Machine(World(), log)
    }

    constructor (env: Environment)
      ensures Valid() && this.env == env && rules == [] && log == [] && known == {}
    {
      this.env := env;
      rules, calls, known, log := [], 0, {}, [];
    }

    /** The new rule goes last, with a duplicate of the descriptor. */
    method AddRule(id: nat, fd: FileDescriptor, direction: Direction) returns (rule: Rule)
      requires Valid()
      modifies this
      ensures Valid() && known == old(known) + {fd.internal} && log == old(log)
      ensures rule.id == id && rule.direction == direction && rule.fd.internal == fd.internal && fresh(rule.fd)
      ensures rules == old(rules) + [rule]
    {
      var duplicate := fd.Duplicate();
      rule := Rule(id, duplicate, direction);
      known := known + {fd.internal};
      rules := rules + [rule];
    }

    /** A call into the caller's code. */
    method UserCall(kind: Kind, rule: Rule) returns (answer: bool, threw: bool)
      requires Valid()
      modifies this`calls, this`log, known
      ensures Valid()
      ensures Now() == Call(env, old(Now()), kind, rule)
      ensures answer == Answered(Now()) && threw == Threw(Now())
    {
      var e := env(calls);
      ApplyChanges(known, e.changes);
      log := log + [Event(kind, rule, e.answer, e.throws)];
      calls := calls + 1;
      answer, threw := e.answer, e.throws;
      assert World() == Affect(old(World()), e.changes);
    }

    /** Tells the rule at `it` that it is cancelled and erases it, which leaves `it` at the next rule. An
        exception of the cancel callback comes before the erasing. */
    method CancelAt(it: nat) returns (threw: bool)
      requires Valid() && it < |rules|
      modifies this`rules, this`calls, this`log, known
      ensures Valid()
      ensures Now() == Call(env, old(Now()), Cancel, old(rules)[it]) && threw == Threw(Now())
      ensures threw ==> rules == old(rules)
      ensures !threw ==> |rules| == |old(rules)| - 1
      ensures !threw ==> rules[..it] == old(rules)[..it] && rules[it..] == old(rules)[it + 1..]
    {
      var _, t := UserCall(Cancel, rules[it]);
      threw := t;
      if !threw {
        rules := rules[..it] + rules[it + 1..];
      }
    }

    /** The flags as read from the record and as the specification sees them. */
    lemma {:induction false} DefunctNow(rule: Rule)
      requires rule.fd.internal in known
      ensures Defunct(rule, World())
          <==> (rule.direction.In? && rule.fd.internal.eof) || rule.fd.internal.closed
      ensures Count(World()[rule.fd.internal], rule.direction)
           == if rule.direction.In? then rule.fd.internal.readCount else rule.fd.internal.writeCount
    {
    }

    /** The first pass: cancel what is defunct, ask the others and make an entry for each of them. */
    method SetUpPollFds()
      returns (pollfds: seq<PollFd>, somethingToPoll: bool, threw: bool, ghost wants: seq<bool>)
      requires Valid()
      modifies this`rules, this`calls, this`log, known
      ensures Valid() && |wants| <= |rules|
      ensures Prepared(rules, wants, Now(), threw) == Prepare(env, old(rules), old(Now()))
      ensures somethingToPoll <==> true in wants
      ensures pollfds == Entries(rules[..|wants|], wants)
      ensures AsksFor(pollfds, rules[..|wants|], wants) && (!threw ==> |wants| == |rules|)
    {
      hide EventLoop.World, Prepare, AfterPrepared, Call, Entries, Defunct, AsksFor;
      pollfds, somethingToPoll, wants := [], false, [];
      ghost var goal := Prepare(env, rules, Now());
      AllToCome(rules, goal);
      var it: nat := 0;
      while it < |rules|
        invariant it == |wants| <= |rules|
        invariant Valid()
        invariant somethingToPoll <==> true in wants
        invariant pollfds == Entries(rules[..it], wants)
        invariant AfterPrepared(rules[..it], wants, Prepare(env, rules[it..], Now())) == goal
        decreases |rules| - it
      {
        hide EventLoop.World, Prepare, AfterPrepared, Call, Entries, Defunct, AsksFor;
        var thisRule := rules[it];
        DefunctNow(thisRule);
        ghost var done, rest, before := rules[..it], rules[it + 1..], Now();
        StillKnown(rules, it, World());
        assert rules[it..] == [thisRule] + rest && rules == done + ([thisRule] + rest);
        if thisRule.direction.In? && thisRule.fd.internal.eof {
          PrepareCancels(env, done, wants, thisRule, rest, before);
          threw := CancelAt(it);
          if threw {
            return;
          }
        } else if thisRule.fd.internal.closed {
          PrepareCancels(env, done, wants, thisRule, rest, before);
          threw := CancelAt(it);
          if threw {
            return;
          }
        } else {
          PrepareKeeps(env, done, wants, thisRule, rest, before);
          EntriesGrow(done, wants, thisRule);
          var answer;
          answer, threw := UserCall(Interest, thisRule);
          if threw {
            return;
          }
          if answer {
            pollfds := pollfds + [PollFd(thisRule.fd.internal.fd, Mask(thisRule.direction), 0)];
            somethingToPoll := true;
          } else {
            pollfds := pollfds + [PollFd(thisRule.fd.internal.fd, 0, 0)];
          }
          wants := wants + [answer];
          assert rules[..it + 1] == done + [thisRule];
          it := it + 1;
        }
      }
      threw := false;
      NothingLeft(env, rules, wants, Now());
    }

    /** Runs the callback of a ready rule. A callback that does not move the count of its descriptor must
        have made the rule lose interest; success means that the loop can go on. */
    method Serve(rule: Rule, ghost p: Polled) returns (r: Outcome)
      requires Valid() && rule.fd.internal in known
      requires p.rule == rule && !p.Errored() && p.Ready()
      modifies this`calls, this`log, known
      ensures Valid()
      ensures Visited(Now(), r, false) == Visit(env, p, old(Now()))
    {
      hide EventLoop.World, Call, Has, AsUnsigned;
      var countBefore := ServiceCount(rule);
      var _, threw := UserCall(Callback, rule);
      if threw {
        return CallThrew;
      }
      var countAfter := ServiceCount(rule);
      if countBefore == countAfter {
        var interested;
        interested, threw := UserCall(Recheck, rule);
        if threw {
          return CallThrew;
        }
        if interested {
          return BusyWait;
        }
      }
      return Success;
    }

    /** The second pass: the iterator erases rules while the index runs along the poll results, and yet
        every result is read for the rule it was made for. */
    method GoThroughResults(pollfds: seq<PollFd>, ghost ps: seq<Polled>) returns (outcome: Outcome)
      requires Valid() && rules == RulesOf(ps)
      requires |pollfds| == |ps|
      requires forall i :: 0 <= i < |ps| ==> pollfds[i].events == ps[i].events && pollfds[i].revents == ps[i].revents
      modifies this`rules, this`calls, this`log, known
      ensures Valid()
      ensures Waited(rules, Now(), outcome) == Dispatch(env, ps, old(Now()))
    {
      hide EventLoop.World, Dispatch, AfterDone, Call, RulesOf, Visit, Has;
      ghost var goal := Dispatch(env, ps, Now());
      AllToDispatch(ps, goal);
      var it: nat, idx: nat := 0, 0;
      while it < |rules|
        invariant it <= |rules| && idx <= |ps| && rules[it..] == RulesOf(ps[idx..])
        invariant Valid()
        invariant AfterDone(rules[..it], Dispatch(env, ps[idx..], Now())) == goal
        decreases |ps| - idx
      {
        hide EventLoop.World, Dispatch, AfterDone, Call, RulesOf, Visit, Has;
        Aligned(rules, it, ps, idx);
        ghost var done, p, rest, before := rules[..it], ps[idx], ps[idx + 1..], Now();
        var thisPollfd, thisRule := pollfds[idx], rules[it];

        DispatchVisits(env, done, p, rest, before);
        var pollError := Has(thisPollfd.revents, POLLERR | POLLNVAL);
        if pollError {
          VisitStops(env, p, before);
          return PollError;
        }
        var pollReady := Has(thisPollfd.revents, thisPollfd.events);
        var pollHup := Has(thisPollfd.revents, POLLHUP);
        if pollHup && thisPollfd.events != 0 && !pollReady {
          VisitCancels(env, p, before);
          var threw := CancelAt(it);
          if threw {
            return CallThrew;
          }
          idx := idx + 1;
          continue;
        }
        if pollReady {
          var r := Serve(thisRule, p);
          if r != Success {
            return r;
          }
        } else {
          VisitSkips(env, p, before);
        }
        it := it + 1;
        idx := idx + 1;
      }
      NothingToDispatch(env, rules, ps[idx..], Now());
      return Success;
    }

    /** How often the descriptor has been read, or written, whichever the rule is about. */
    method ServiceCount(rule: Rule) returns (n: nat)
      requires rule.fd.internal in known
      ensures n == AsUnsigned(Count(World()[rule.fd.internal], rule.direction))
      ensures n == (if rule.direction.In? then rule.fd.internal.readCount else rule.fd.internal.writeCount)
                   % 0x1_0000_0000
    {
      if rule.direction.In? {
        n := rule.fd.ReadCount();
      } else {
        n := rule.fd.WriteCount();
      }
    }

    /** The records as they are now tell which rules a wait drops. */
    lemma {:induction false} WaitDropsEnded(reply: Reply, now: Machine)
      requires Valid() && now == Now() && Known(rules, now.world)
      ensures var w := Wait(env, reply, rules, now);
              !Thrown(w.outcome) ==>
                forall r :: r in w.rules ==>
                  r in rules && !r.fd.internal.closed && !(r.direction.In? && r.fd.internal.eof)
    {
      hide Wait;
      if !Thrown(Wait(env, reply, rules, now).outcome) {
        EventLoopOutcomes.WaitDropsDefunct(env, reply, rules, now);
      }
    }

    /** Waits for one event. The kernel's reply tells the return value of poll(2), the error number and
        the conditions it found, index by index. */
    method WaitNextEvent(reply: Reply) returns (outcome: Outcome)
      requires Valid()
      modifies this`rules, this`calls, this`log, known
      ensures Valid()
      ensures Waited(rules, Now(), outcome) == Wait(env, reply, old(rules), old(Now()))
      ensures !Thrown(outcome) ==>
                forall r :: r in rules ==>
                  && r in old(rules)
                  && !old(r.fd.internal.closed) && !(r.direction.In? && old(r.fd.internal.eof))
    {
      hide EventLoop.World, Prepare, Dispatch;
      ghost var before := Now();
      WaitDropsEnded(reply, before);
      var pollfds, somethingToPoll, threw, wants := SetUpPollFds();
      if threw {
        return CallThrew;
      }
      if !somethingToPoll {
        return Exit;
      }
      if reply.ret == 0 {
        return Timeout;
      }
      if reply.ret < 0 && reply.errno == EINTR {
        return Exit;
      }
      var polled := seq(|pollfds|, i requires 0 <= i < |pollfds| => pollfds[i].(revents := reply.revents(i)));
      outcome := GoThroughResults(polled, Zip(rules, wants, reply.revents));
    }
  }

  /** What other code does to the shared descriptor records. */
  method ApplyChanges(records: set<FDWrapper>, changes: map<FDWrapper, Delta>)
    modifies records
    ensures forall w | w in records ::
              StateOf(w) == if w in changes then Changed(old(StateOf(w)), changes[w]) else old(StateOf(w))
  {
    forall w | w in records {
      w.eof := w.eof || (w in changes && changes[w].eof);
    }
    forall w | w in records {
      w.closed := w.closed || (w in changes && changes[w].closed);
    }
    forall w | w in records {
      w.readCount := w.readCount + if w in changes then changes[w].readCount else 0;
    }
    forall w | w in records {
      w.writeCount := w.writeCount + if w in changes then changes[w].writeCount else 0;
    }
  }
}
