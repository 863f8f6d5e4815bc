// What one call of the event loop does, told without iterators, indices or erasing in place.
//
// Callbacks are the caller's code. Here the environment decides, call by call, what each of them
// answers, whether it throws and how it changes the shared descriptor records. It can only add to a
// record: counts grow and the eof and closed flags are never reset. Callbacks do not add rules and do
// not re-enter the loop.
module EventLoopSpec {
  import opened FileDescriptors

  // ---------------------------------------------------------------------------------------------
  // Rules, descriptor records and the caller's code
  // ---------------------------------------------------------------------------------------------

  datatype Direction = In | Out

  /** `id` stands for the three closures of a rule. */
  datatype Rule = Rule(id: nat, fd: FileDescriptor, direction: Direction)

  datatype FdState = FdState(eof: bool, closed: bool, readCount: nat, writeCount: nat)

  type World = map<FDWrapper, FdState>

  /** A change to one record; it can only add. */
  datatype Delta = Delta(eof: bool, closed: bool, readCount: nat, writeCount: nat)

  datatype Effect = Effect(changes: map<FDWrapper, Delta>, answer: bool, throws: bool)

  /** The caller's code: what the n-th call into it does. */
  type Environment = nat -> Effect

  datatype Kind =
    | Cancel    // the rule is being dropped
    | Interest  // asked before polling
    | Callback  // the descriptor is ready
    | Recheck   // asked again by the busy-wait check

  datatype Event = Event(kind: Kind, rule: Rule, answer: bool, threw: bool)

  /** The descriptor records and the log of every call into the caller's code. */
  datatype Machine = Machine(world: World, log: seq<Event>)

  function Changed(s: FdState, d: Delta): FdState {
    FdState(s.eof || d.eof, s.closed || d.closed, s.readCount + d.readCount, s.writeCount + d.writeCount)
  }

  function Affect(world: World, changes: map<FDWrapper, Delta>): (r: World)
    ensures r.Keys == world.Keys
  {
    map w | w in world :: if w in changes then Changed(world[w], changes[w]) else world[w]
  }

  function Call(env: Environment, m: Machine, kind: Kind, rule: Rule): (r: Machine)
    ensures r.world.Keys == m.world.Keys && |r.log| == |m.log| + 1
  {
    var e := env(|m.log|);
    Machine(Affect(m.world, e.changes), m.log + [Event(kind, rule, e.answer, e.throws)])
  }

  predicate Threw(m: Machine)
    requires m.log != []
  {
    m.log[|m.log| - 1].threw
  }

  predicate Answered(m: Machine)
    requires m.log != []
  {
    m.log[|m.log| - 1].answer
  }

  ghost predicate Known(rules: seq<Rule>, world: World) {
    forall i :: 0 <= i < |rules| ==> rules[i].fd.internal in world
  }

  function Count(s: FdState, direction: Direction): nat {
    if direction.In? then s.readCount else s.writeCount
  }

  /** Nothing more can come of the rule: its input has ended or its descriptor is closed. */
  predicate Defunct(rule: Rule, world: World)
    requires rule.fd.internal in world
  {
    var s := world[rule.fd.internal];
    (rule.direction.In? && s.eof) || s.closed
  }

  // ---------------------------------------------------------------------------------------------
  // First pass: which rules are polled, and for what
  // ---------------------------------------------------------------------------------------------

  /** `rules` are the rules left in the loop; `wants` says of each polled one whether it is interested. */
  datatype Prepared = Prepared(rules: seq<Rule>, wants: seq<bool>, m: Machine, threw: bool)

  ghost function Prepare(env: Environment, rules: seq<Rule>, m: Machine): (p: Prepared)
    requires Known(rules, m.world)
    ensures p.m.world.Keys == m.world.Keys
    ensures |p.wants| <= |p.rules| && (!p.threw ==> |p.wants| == |p.rules|)
    ensures Known(p.rules, p.m.world)
    decreases |rules|
  {
    if rules == [] then Prepared([], [], m, false)
    else if Defunct(rules[0], m.world) then
      var next := Call(env, m, Cancel, rules[0]);
      if Threw(next) then Prepared(rules, [], next, true) else Prepare(env, rules[1..], next)
    else
      var next := Call(env, m, Interest, rules[0]);
      if Threw(next) then Prepared(rules, [], next, true)
      else
        var p := Prepare(env, rules[1..], next);
        Prepared([rules[0]] + p.rules, [Answered(next)] + p.wants, p.m, p.threw)
  }

  // ---------------------------------------------------------------------------------------------
  // poll(2)
  // ---------------------------------------------------------------------------------------------

  const POLLIN: bv16 := 0x01
  const POLLOUT: bv16 := 0x04
  const POLLERR: bv16 := 0x08
  const POLLHUP: bv16 := 0x10
  const POLLNVAL: bv16 := 0x20
  const EINTR := 4

  /** The kernel's answer: a return value, an error number and the conditions found, by index. */
  datatype Reply = Reply(ret: int, errno: int, revents: nat -> bv16)

  function Mask(direction: Direction): bv16 {
    if direction.In? then POLLIN else POLLOUT
  }

  /** Some bit of `mask` is set. */
  predicate Has(flags: bv16, mask: bv16) {
    flags & mask != 0
  }

  /** A rule together with what was asked about its descriptor and what came back. */
  datatype Polled = Polled(rule: Rule, events: bv16, revents: bv16) {
    predicate Errored() {
      Has(revents, POLLERR | POLLNVAL)
    }

    predicate Ready() {
      Has(revents, events)
    }

    /** Something was asked, and hangup is all that came back. */
    predicate HungUp() {
      Has(revents, POLLHUP) && events != 0 && !Ready()
    }
  }

  function Zip(rules: seq<Rule>, wants: seq<bool>, revents: nat -> bv16): (ps: seq<Polled>)
    requires |rules| == |wants|
    ensures RulesOf(ps) == rules
  {
    seq(|rules|, i requires 0 <= i < |rules| && |rules| == |wants| =>
      Polled(rules[i], if wants[i] then Mask(rules[i].direction) else 0, revents(i)))
  }

  function RulesOf(ps: seq<Polled>): (rules: seq<Rule>) {
    seq(|ps|, i requires 0 <= i < |ps| => ps[i].rule)
  }

  // ---------------------------------------------------------------------------------------------
  // Second pass: acting on what the kernel found
  // ---------------------------------------------------------------------------------------------

  datatype Outcome =
    | Success
    | Timeout
    | Exit
    | PollError  // thrown: error or invalid descriptor in a poll result
    | BusyWait   // thrown: a callback left the count of its direction alone, and its rule is still interested
    | CallThrew  // an exception of the caller's code passing through

  /** The outcomes that are exceptions. */
  predicate Thrown(outcome: Outcome) {
    outcome.PollError? || outcome.BusyWait? || outcome.CallThrew?
  }

  datatype Waited = Waited(rules: seq<Rule>, m: Machine, outcome: Outcome)

  function Keep(rule: Rule, w: Waited): Waited {
    w.(rules := [rule] + w.rules)
  }

  /** The descriptor's count in the rule's direction, as the code sees it, has moved. */
  predicate Served(rule: Rule, before: Machine, after: Machine)
    requires rule.fd.internal in before.world && rule.fd.internal in after.world
  {
    AsUnsigned(Count(before.world[rule.fd.internal], rule.direction))
    != AsUnsigned(Count(after.world[rule.fd.internal], rule.direction))
  }

  /** How the visit of one polled rule ends. After a success the pass goes on behind the rule. */
  datatype Visited = Visited(m: Machine, outcome: Outcome, erased: bool)

  ghost function Visit(env: Environment, p: Polled, m: Machine): (v: Visited)
    requires p.rule.fd.internal in m.world
    ensures v.m.world.Keys == m.world.Keys
    ensures v.outcome !in {Timeout, Exit}
  {
    if p.Errored() then Visited(m, PollError, false)
    else if p.HungUp() then
      var next := Call(env, m, Cancel, p.rule);
      if Threw(next) then Visited(next, CallThrew, false) else Visited(next, Success, true)
    else if !p.Ready() then Visited(m, Success, false)
    else
      var next := Call(env, m, Callback, p.rule);
      if Threw(next) then Visited(next, CallThrew, false)
      else if Served(p.rule, m, next) then Visited(next, Success, false)
      else
        var last := Call(env, next, Recheck, p.rule);
        if Threw(last) then Visited(last, CallThrew, false)
        else if Answered(last) then Visited(last, BusyWait, false)
        else Visited(last, Success, false)
  }

  ghost function Dispatch(env: Environment, ps: seq<Polled>, m: Machine): (w: Waited)
    requires Known(RulesOf(ps), m.world)
    ensures w.m.world.Keys == m.world.Keys
    ensures Known(w.rules, w.m.world)
    ensures w.outcome !in {Timeout, Exit}
    decreases |ps|
  {
    if ps == [] then Waited([], m, Success)
    else
      assert RulesOf(ps)[0] == ps[0].rule && RulesOf(ps[1..]) == RulesOf(ps)[1..];
      var v := Visit(env, ps[0], m);
      if v.outcome != Success then Waited(RulesOf(ps), v.m, v.outcome)
      else
        var w := Dispatch(env, ps[1..], v.m);
        if v.erased then w else Keep(ps[0].rule, w)
  }

  // ---------------------------------------------------------------------------------------------
  // One call of wait_next_event
  // ---------------------------------------------------------------------------------------------

  ghost function Wait(env: Environment, reply: Reply, rules: seq<Rule>, m: Machine): (w: Waited)
    requires Known(rules, m.world)
    ensures w.m.world.Keys == m.world.Keys
    ensures Known(w.rules, w.m.world)
  {
    var p := Prepare(env, rules, m);
    if p.threw then Waited(p.rules, p.m, CallThrew)
    else if true !in p.wants then Waited(p.rules, p.m, Exit)
    else if reply.ret == 0 then Waited(p.rules, p.m, Timeout)
    else if reply.ret < 0 && reply.errno == EINTR then Waited(p.rules, p.m, Exit)
    else
      var ps := Zip(p.rules, p.wants, reply.revents);
      Dispatch(env, ps, p.m)
  }
}
