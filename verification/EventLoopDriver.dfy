// A program that drives the event loop object, and what it can rely on.
module EventLoopDriver {
  import opened FileDescriptors
  import opened EventLoopSpec
  import opened EventLoopRuns
  import opened EventLoopService
  import opened EventLoops

  datatype Command =
    | AddTo(fd: FileDescriptor, direction: Direction)
    | WaitOn(reply: Reply)
    | Meanwhile(changes: map<FDWrapper, Delta>)

  ghost function Records(script: seq<Command>): set<FDWrapper> {
    set k | 0 <= k < |script| && script[k].AddTo? :: script[k].fd.internal
  }

  /** The records as they stand. */
  ghost function Found(script: seq<Command>): World
    reads Records(script)
  {
    map w | w in Records(script) :: StateOf(w)
  }

  /** The operation on values that a command amounts to. A rule gets a duplicate of the descriptor; until it
      does, its record stays as it was found. */
  ghost predicate Matches(command: Command, op: Op, found: World) {
    match command
    case AddTo(fd, direction) =>
      && op.Add? && op.fd.internal == fd.internal && op.direction == direction
      && fd.internal in found && op.state == found[fd.internal]
    case WaitOn(reply) => op == WaitFor(reply)
    case Meanwhile(changes) => op == Elsewhere(changes)
  }

  ghost function Snapshot(loop: EventLoop, added: seq<Rule>): LoopState
    reads loop, loop.known
  {
    LoopState(loop.rules, added, loop.Now())
  }

  ghost const START := LoopState([], [], Machine(map[], []))

  /** The bound on callbacks, for every record that a program adds. */
  lemma {:induction false} ServiceOfProgram(env: Environment, script: seq<Command>, ops: seq<Op>, found: World,
                                          w: FDWrapper, d: Direction)
    requires |ops| == |script| && forall k :: 0 <= k < |script| ==> Matches(script[k], ops[k], found)
    requires w in found && !RunThrows(env, START, ops)
    ensures var end := Run(env, START, ops).m;
            Undeclined([], end.log, w, d) <= if w in end.world then Count(end.world[w], d) - Count(found[w], d) else 0
  {
    assert forall k :: 0 <= k < |ops| && ops[k].Add? ==> Matches(script[k], ops[k], found);
    hide Run, RunThrows, FirstCount, Undeclined, Count;
    CallbacksBoundedByService(env, START, ops, w, d);
    FirstCountIs(env, START, ops, w, d, Count(found[w], d));
  }

  /** Any program of additions, waits and outside activity takes the loop object through exactly the run
      that its commands describe, whatever the kernel and the callbacks do and whichever calls throw. So
      the object holds the rules added and not cancelled, in order, and no cancelled rule was called; and
      if nothing was thrown, no descriptor has seen more callbacks, other than those after which interest
      was lost, than reads (or writes) while the program ran. */
  method Drive(env: Environment, script: seq<Command>)
    returns (loop: EventLoop, threw: bool, ghost added: seq<Rule>, ghost ops: seq<Op>)
    modifies Records(script)
    ensures fresh(loop) && loop.Valid()
    ensures |ops| == |script| && forall k :: 0 <= k < |script| ==> Matches(script[k], ops[k], old(Found(script)))
    ensures Snapshot(loop, added) == Run(env, START, ops)
    ensures threw <==> RunThrows(env, START, ops)
    ensures Good(Snapshot(loop, added))
    ensures !threw ==> forall w, d | w in Records(script) ::
                         Undeclined([], loop.log, w, d) <= Count(StateOf(w), d) - Count(old(StateOf(w)), d)
  {
    ghost var found := Found(script);
    loop, threw, added, ops := DriveRun(env, script, found);
    hide Run, RunThrows, Good, Undeclined, Count, Matches;
    StartIsGood(map[]);
    RunKeepsGood(env, START, ops);
    if !threw {
      forall w, d | w in Records(script)
        ensures Undeclined([], loop.log, w, d) <= Count(StateOf(w), d) - Count(found[w], d)
      {
        ServiceOfProgram(env, script, ops, found, w, d);
      }
    }
  }

  /** A record that has not been added yet is as it was found. */
  ghost predicate Untouched(loop: EventLoop, found: World)
    reads loop, found.Keys
  {
    forall w :: w in found && w !in loop.known ==> StateOf(w) == found[w]
  }

  /** The loop of the program. */
  method DriveRun(env: Environment, script: seq<Command>, ghost found: World)
    returns (loop: EventLoop, threw: bool, ghost added: seq<Rule>, ghost ops: seq<Op>)
    requires found == Found(script)
    modifies Records(script)
    ensures fresh(loop) && loop.Valid()
    ensures |ops| == |script| && forall k :: 0 <= k < |script| ==> Matches(script[k], ops[k], found)
    ensures Snapshot(loop, added) == Run(env, START, ops)
    ensures threw <==> RunThrows(env, START, ops)
    ensures Untouched(loop, found)
  {
    loop := new EventLoop(env);
    threw, added, ops := false, [], [];
    assert Snapshot(loop, added) == START;
    var count := 0;
    for k := 0 to |script|
      invariant fresh(loop) && loop.Valid() && loop.env == env && loop.known <= Records(script)
      invariant |ops| == k && forall i :: 0 <= i < k ==> Matches(script[i], ops[i], found)
      invariant count == |added| && Snapshot(loop, added) == Run(env, START, ops)
      invariant threw <==> RunThrows(env, START, ops)
      invariant Untouched(loop, found)
    {
      hide Run, RunThrows, Step, Throws, Snapshot, Matches, Untouched, EventLoop.World, EventLoop.Now;
      CommandRecord(script, k);
      ghost var op;
      var t;
      count, t, added, op := Obey(loop, count, added, script[k], found);
      RunSnoc(env, START, ops, op);
      RunThrowsSnoc(env, START, ops, op);
      threw, ops := threw || t, ops + [op];
    }
  }

  lemma {:induction false} CommandRecord(script: seq<Command>, k: nat)
    requires k < |script|
    ensures script[k].AddTo? ==> script[k].fd.internal in Records(script)
  {
  }

  /** One command. */
  method Obey(loop: EventLoop, count: nat, ghost added: seq<Rule>, command: Command, ghost found: World)
    returns (count': nat, threw: bool, ghost added': seq<Rule>, ghost op: Op)
    requires loop.Valid() && count == |added|
    requires command.AddTo? ==> command.fd.internal in found
    requires Untouched(loop, found)
    modifies loop, loop.known
    ensures loop.Valid() && count' == |added'| && Matches(command, op, found)
    ensures loop.known == old(loop.known) + if command.AddTo? then {command.fd.internal} else {}
    ensures Untouched(loop, found)
    ensures Snapshot(loop, added') == Step(loop.env, old(Snapshot(loop, added)), op)
    ensures threw <==> Throws(loop.env, old(Snapshot(loop, added)), op)
  {
    hide Step, Throws, Snapshot, EventLoop.World;
    match command {
      case AddTo(fd, direction) => {
        var rule, o := DriveAdd(loop, count, added, fd, direction, found);
        count', threw, added', op := count + 1, false, added + [rule], o;
      }
      case WaitOn(reply) => {
        threw := DriveWait(loop, added, reply);
        count', added', op := count, added, WaitFor(reply);
      }
      case Meanwhile(changes) => {
        DriveElsewhere(loop, added, changes);
        count', threw, added', op := count, false, added, Elsewhere(changes);
      }
    }
  }

  method DriveAdd(loop: EventLoop, count: nat, ghost added: seq<Rule>, fd: FileDescriptor, direction: Direction,
                  ghost found: World)
    returns (rule: Rule, ghost op: Op)
    requires loop.Valid() && count == |added|
    requires fd.internal in found && (fd.internal !in loop.known ==> StateOf(fd.internal) == found[fd.internal])
    modifies loop
    ensures loop.Valid() && loop.known == old(loop.known) + {fd.internal}
    ensures Matches(AddTo(fd, direction), op, found)
    ensures Snapshot(loop, added + [rule]) == Step(loop.env, old(Snapshot(loop, added)), op)
    ensures !Throws(loop.env, old(Snapshot(loop, added)), op)
  {
    ghost var before := Snapshot(loop, added);
    rule := loop.AddRule(count, fd, direction);
    op := Add(rule.fd, direction, found[fd.internal]);
    assert loop.World() == Adopt(before.m.world, fd.internal, found[fd.internal]);
  }

  method DriveWait(loop: EventLoop, ghost added: seq<Rule>, reply: Reply) returns (threw: bool)
    requires loop.Valid()
    modifies loop, loop.known
    ensures loop.Valid() && loop.known == old(loop.known)
    ensures Snapshot(loop, added) == Step(loop.env, old(Snapshot(loop, added)), WaitFor(reply))
    ensures threw <==> Throws(loop.env, old(Snapshot(loop, added)), WaitFor(reply))
  {
    hide EventLoop.World, Wait;
    var outcome := loop.WaitNextEvent(reply);
    threw := outcome.PollError? || outcome.BusyWait? || outcome.CallThrew?;
  }

  method DriveElsewhere(loop: EventLoop, ghost added: seq<Rule>, changes: map<FDWrapper, Delta>)
    requires loop.Valid()
    modifies loop.known
    ensures loop.Valid()
    ensures Snapshot(loop, added) == Step(loop.env, old(Snapshot(loop, added)), Elsewhere(changes))
    ensures !Throws(loop.env, old(Snapshot(loop, added)), Elsewhere(changes))
  {
    ghost var before := Snapshot(loop, added);
    ApplyChanges(loop.known, changes);
    assert loop.World() == Affect(before.m.world, changes);
  }
}
