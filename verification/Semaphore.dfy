/** The asynchronous semaphore together with the controllers that deliver its grants. */
module Semaphores {
  import opened Wrappers
  import opened Operations
  import opened Ledgers

  datatype State = State(value: nat, waiters: seq<Operation>, queues: Queues)

  datatype Event =
    | Post
    | WaitAsync(op: Operation)
    | Cancel(caller: Controller, cancelled: Operation)
    | Wait(controller: Controller)
    | WaitFor(waiting: Controller, wanted: Operation)

  /** The operation an event grants. */
  function Granted(s: State, e: Event): Option<Operation> {
    match e
    case Post => if s.waiters != [] then Some(s.waiters[0]) else None
    case WaitAsync(op) => if s.value > 0 then Some(op) else None
    case _ => None
  }

  function Next(s: State, e: Event): State {
    match e
    case Post =>
      if s.waiters != [] then State(s.value, s.waiters[1..], Posted(s.queues, s.waiters[0]))
      else s.(value := s.value + 1)
    case WaitAsync(op) =>
      if s.value == 0 then s.(waiters := s.waiters + [op])
      else State(s.value - 1, s.waiters, Posted(s.queues, op))
    case Cancel(c, op) => State(s.value, Without(s.waiters, op), s.queues[c := Without(Queue(s.queues, c), op)])
    case Wait(c) => s.(queues := WithoutFront(s.queues, c))
    case WaitFor(c, op) => s.(queues := s.queues[c := Without(Queue(s.queues, c), op)])
  }

  /** What an event does to the queues of completed operations. */
  function TrafficOf(s: State, e: Event): Traffic {
    match e
    case Post => Posting(if s.waiters != [] then [s.waiters[0]] else [])
    case WaitAsync(op) => Posting(if s.value > 0 then [op] else [])
    case Cancel(c, op) => Reverting(c, op)
    case Wait(c) => Taking(c)
    case WaitFor(c, op) => TakingOne(c, op)
  }

  /** The completed operation a controller returns to its caller. */
  function Delivered(s: State, e: Event): Option<Operation> {
    Out(s.queues, TrafficOf(s, e))
  }

  /** What happened in a run.  The line is the order of issue, without the operations that
      were taken back while waiting. */
  datatype Record = Record(
    state: State,
    posts: nat,
    issued: multiset<Operation>,
    grants: seq<Operation>,
    withdrawn: multiset<Operation>,
    line: seq<Operation>,
    traffic: seq<Traffic>)

  function Start(value: nat): Record {
    Record(State(value, [], map[]), 0, multiset{}, [], multiset{}, [], [])
  }

  function Extend(r: Record, e: Event): Record {
    var s := r.state;
    var g := Granted(s, e);
    Record(
      Next(s, e),
      if e.Post? then r.posts + 1 else r.posts,
      if e.WaitAsync? then r.issued + multiset{e.op} else r.issued,
      if g.Some? then r.grants + [g.value] else r.grants,
      if e.Cancel? then r.withdrawn + OnlyIf(e.cancelled in s.waiters, e.cancelled) else r.withdrawn,
      if e.WaitAsync? then r.line + [e.op]
      else if e.Cancel? then r.line[..Settled(r)] + Without(r.line[Settled(r)..], e.cancelled)
      else r.line,
      r.traffic + [TrafficOf(s, e)])
  }

  function Settled(r: Record): (n: nat)
    ensures n <= |r.line|
  {
    if |r.grants| <= |r.line| then |r.grants| else |r.line|
  }

  function Run(value: nat, events: seq<Event>): Record {
    if events == [] then Start(value) else Extend(Run(value, events[..|events| - 1]), events[|events| - 1])
  }

  /** What became of the grants. */
  function LedgerOf(r: Record): Ledger {
    Book(r.traffic)
  }

  ghost predicate Ok(s: State) {
    s.value > 0 ==> s.waiters == []
  }

  /** Tokens are conserved, and grants go down the line in order. */
  ghost predicate Balanced(value: nat, r: Record) {
    value + r.posts == r.state.value + |r.grants| && r.line == r.grants + r.state.waiters
  }

  /** The ledger has the queues of the state, and what was posted is what was granted. */
  ghost predicate Booked(r: Record) {
    LedgerOf(r).queues == r.state.queues && LedgerOf(r).posted == multiset(r.grants)
  }

  /** Where each operation is: waiting, withdrawn, or granted. */
  ghost predicate Accounted(r: Record, op: Operation) {
    r.issued[op] == multiset(r.state.waiters)[op] + r.withdrawn[op] + multiset(r.grants)[op]
  }

  lemma StepKeepsOk(s: State, e: Event)
    requires Ok(s)
    ensures Ok(Next(s, e))
  {
    if e.Cancel? { WithoutCounts(s.waiters, e.cancelled); }
  }

  lemma StepKeepsBalance(value: nat, r: Record, e: Event)
    requires Ok(r.state) && Balanced(value, r)
    ensures Balanced(value, Extend(r, e))
  {
    match e {
      case Post => PostKeepsLine(r);
      case WaitAsync(op) => IssueKeepsLine(r, op);
      case Cancel(_, op) => CancelKeepsLine(r, op);
      case _ =>
    }
  }

  lemma PostKeepsLine(r: Record)
    requires r.line == r.grants + r.state.waiters
    ensures r.state.waiters != [] ==> r.line == r.grants + [r.state.waiters[0]] + r.state.waiters[1..]
  {
  }

  lemma IssueKeepsLine(r: Record, op: Operation)
    requires r.line == r.grants + r.state.waiters
    ensures r.line + [op] == r.grants + (r.state.waiters + [op])
    ensures r.state.waiters == [] ==> r.line + [op] == r.grants + [op] + r.state.waiters
  {
  }

  lemma CancelKeepsLine(r: Record, op: Operation)
    requires r.line == r.grants + r.state.waiters
    ensures r.line[..Settled(r)] + Without(r.line[Settled(r)..], op) == r.grants + Without(r.state.waiters, op)
  {
    assert r.line[..|r.grants|] == r.grants && r.line[|r.grants|..] == r.state.waiters;
  }

  /** An operation leaves the waiters by being granted or withdrawn. */
  lemma WaitersMove(s: State, e: Event, op: Operation)
    ensures multiset(Next(s, e).waiters)[op] + One(Granted(s, e) == Some(op))
            + One(e.Cancel? && e.cancelled == op && op in s.waiters)
         == multiset(s.waiters)[op] + One(e.WaitAsync? && e.op == op)
  {
    match e {
      case Post =>
        if s.waiters != [] { Popped(s.waiters, op); }
      case Cancel(_, x) => WithoutCounts(s.waiters, x);
      case _ =>
    }
  }

  lemma StepAccounts(r: Record, e: Event, op: Operation)
    requires Accounted(r, op)
    ensures Accounted(Extend(r, e), op)
  {
    WaitersMove(r.state, e, op);
    RecordMoves(r, e, op);
  }

  lemma RecordMoves(r: Record, e: Event, op: Operation)
    ensures var t := Extend(r, e); var s := r.state;
      && t.issued[op] == r.issued[op] + One(e.WaitAsync? && e.op == op)
      && multiset(t.grants)[op] == multiset(r.grants)[op] + One(Granted(s, e) == Some(op))
      && t.withdrawn[op] == r.withdrawn[op] + One(e.Cancel? && e.cancelled == op && op in s.waiters)
  {
  }

  /** The traffic of an event is what it does to the queues, and posts what it grants. */
  lemma StepIsTraffic(s: State, e: Event)
    ensures Next(s, e).queues == After(s.queues, TrafficOf(s, e))
    ensures TrafficOf(s, e).Posting? ==>
      TrafficOf(s, e).ops == if Granted(s, e).Some? then [Granted(s, e).value] else []
    ensures !TrafficOf(s, e).Posting? ==> Granted(s, e).None?
  {
    var g := Granted(s, e);
    if g.Some? { PostedOne(s.queues, g.value); }
  }

  lemma StepBooks(r: Record, e: Event)
    requires Booked(r)
    ensures Booked(Extend(r, e))
  {
    StepIsTraffic(r.state, e);
    BookNext(r.traffic, TrafficOf(r.state, e));
  }

  /** In every run: a positive value means nobody waits, initial value plus posts equal value
      plus grants, grants are made in the order of issue, every operation is waiting, withdrawn
      or granted, and a granted one is queued, delivered or revoked. */
  lemma {:induction false} RunKeeps(value: nat, events: seq<Event>, op: Operation)
    ensures var r := Run(value, events);
      && Ok(r.state) && Balanced(value, r) && Accounted(r, op) && Booked(r)
      && QueuesHome(r.state.queues) && Ledgers.Balanced(LedgerOf(r), op)
  {
    if events != [] {
      var before, e := events[..|events| - 1], events[|events| - 1];
      RunKeeps(value, before, op);
      StepKeepsOk(Run(value, before).state, e);
      StepKeepsBalance(value, Run(value, before), e);
      StepAccounts(Run(value, before), e, op);
      StepBooks(Run(value, before), e);
    }
    BookBalances(Run(value, events).traffic, op);
  }

  /** An operation issued once is delivered at most once, and exactly once when it was granted,
      left its controller's queue and was not revoked. */
  lemma DeliveredOnce(value: nat, events: seq<Event>, op: Operation)
    requires Run(value, events).issued[op] == 1
    ensures var r := Run(value, events); var l := LedgerOf(r);
      && l.delivered[op] <= 1
      && (op in r.grants && op !in Queue(r.state.queues, op.controller) && op !in l.revoked ==> l.delivered[op] == 1)
      && (l.delivered[op] == 1 ==> op in r.grants && op !in r.state.waiters && op !in r.withdrawn && op !in l.revoked)
  {
    RunKeeps(value, events, op);
  }

  // Cancelling an operation that has been granted.

  lemma RunLast(value: nat, events: seq<Event>, e: Event)
    ensures Run(value, events + [e]) == Extend(Run(value, events), e)
  {
    assert (events + [e])[..|events|] == events;
  }

  /** How often the operation has reached or can still reach its issuer. */
  ghost function Reaching(r: Record, op: Operation): nat {
    multiset(Queue(r.state.queues, op.controller))[op] + LedgerOf(r).delivered[op]
  }

  /** A cancel never gives a token back.  It takes a grant away from its issuer exactly when
      the operation stands completed in the caller's queue. */
  lemma CancelRevokesExactly(value: nat, events: seq<Event>, c: Controller, op: Operation)
    ensures var r, t := Run(value, events), Run(value, events + [Cancel(c, op)]);
      && t.state.value == r.state.value && t.posts == r.posts && t.grants == r.grants
      && LedgerOf(t).revoked == LedgerOf(r).revoked + OnlyIf(op in Queue(r.state.queues, c), op)
      && (Reaching(t, op) < Reaching(r, op) <==> op in Queue(r.state.queues, c))
  {
    RunKeeps(value, events, op);
    RunKeeps(value, events + [Cancel(c, op)], op);
    RunLast(value, events, Cancel(c, op));
    BookNext(Run(value, events).traffic, Reverting(c, op));
  }

  /** Every token of a run is in the semaphore, in a queue, delivered or revoked. */
  lemma TokensAccounted(value: nat, events: seq<Event>)
    ensures var r := Run(value, events); var l := LedgerOf(r);
      && (forall op :: Outstanding(l)[op] == multiset(Queue(r.state.queues, op.controller))[op])
      && value + r.posts == r.state.value + |Outstanding(l)| + |l.delivered| + |l.revoked|
  {
    RunKeeps(value, events, Operation(0, 0));
    BookTotals(Run(value, events).traffic);
  }

  /** Event i is not a cancel between the grant of its operation and the delivery. */
  ghost predicate CancelsInTimeAt(value: nat, events: seq<Event>, i: nat)
    requires i < |events|
  {
    events[i].Cancel? ==> events[i].cancelled !in Queue(Run(value, events[..i]).state.queues, events[i].caller)
  }

  ghost predicate CancelsInTime(value: nat, events: seq<Event>) {
    forall i {:trigger CancelsInTimeAt(value, events, i)} :: 0 <= i < |events| ==> CancelsInTimeAt(value, events, i)
  }

  lemma InTimeOneMore(value: nat, events: seq<Event>)
    requires events != []
    ensures var n := |events| - 1;
      CancelsInTime(value, events) <==> CancelsInTime(value, events[..n]) && CancelsInTimeAt(value, events, n)
  {
    var n := |events| - 1;
    forall i | 0 <= i < n
      ensures CancelsInTimeAt(value, events[..n], i) == CancelsInTimeAt(value, events, i)
    {
      assert events[..n][..i] == events[..i];
    }
  }

  lemma RevokesUnless(r: Record, e: Event)
    requires Booked(r)
    ensures LedgerOf(Extend(r, e)).revoked == multiset{} <==>
      LedgerOf(r).revoked == multiset{} && (e.Cancel? ==> e.cancelled !in Queue(r.state.queues, e.caller))
  {
    BookNext(r.traffic, TrafficOf(r.state, e));
    Ledgers.RevokesUnless(LedgerOf(r), TrafficOf(r.state, e));
  }

  lemma {:induction false} RevokedExactly(value: nat, events: seq<Event>)
    ensures LedgerOf(Run(value, events)).revoked == multiset{} <==> CancelsInTime(value, events)
  {
    if events != [] {
      var n := |events| - 1;
      RevokedExactly(value, events[..n]);
      InTimeOneMore(value, events);
      RunKeeps(value, events[..n], Operation(0, 0));
      RevokesUnless(Run(value, events[..n]), events[n]);
    }
  }

  /** No token is lost exactly when every cancel comes before the grant or after the delivery. */
  lemma NoTokenLostExactly(value: nat, events: seq<Event>)
    ensures var r := Run(value, events); var l := LedgerOf(r);
      value + r.posts == r.state.value + |Outstanding(l)| + |l.delivered| <==> CancelsInTime(value, events)
  {
    TokensAccounted(value, events);
    RevokedExactly(value, events);
  }

  /** The shortest run that loses a token. */
  lemma CancelAfterGrantLosesToken(value: nat, op: Operation)
    requires value > 0
    ensures var r := Run(value, [WaitAsync(op), Cancel(op.controller, op)]);
      && r.state.value == value - 1 && r.state.waiters == []
      && op in LedgerOf(r).revoked && op !in LedgerOf(r).delivered
  {
    var events := [WaitAsync(op), Cancel(op.controller, op)];
    var first := [WaitAsync(op)];
    assert first == [] + [WaitAsync(op)] && events == first + [Cancel(op.controller, op)];
    RunLast(value, [], WaitAsync(op));
    CancelRevokesExactly(value, first, op.controller, op);
    RunLast(value, first, Cancel(op.controller, op));
    RunKeeps(value, events, op);
    assert op in Queue(Run(value, first).state.queues, op.controller);
  }

  /** An operation issued once that nobody has collected or cancelled. */
  ghost predicate Pending(r: Record, op: Operation) {
    r.issued[op] == 1 && op !in LedgerOf(r).delivered && op !in LedgerOf(r).revoked && op !in r.withdrawn
  }

  /** A wait that times out: the last look did not find the operation in the queue, nobody else
      cancelled or collected it, and then the wait cancels it and fails.  The token is taken all
      the same exactly when the grant came after that last look. */
  lemma TimedOutWait(value: nat, events: seq<Event>, late: seq<Event>, op: Operation)
    requires Pending(Run(value, events), op) && Pending(Run(value, events + late), op)
    requires op !in Queue(Run(value, events).state.queues, op.controller)
    ensures var r, t := Run(value, events), Run(value, events + late);
      var u := Run(value, events + late + [Cancel(op.controller, op)]);
      && op !in r.grants && u.grants == t.grants && u.state.value == t.state.value
      && op !in u.state.waiters && op !in Queue(u.state.queues, op.controller)
      && (op in LedgerOf(u).revoked <==> op in t.grants) && (op in u.withdrawn <==> op !in t.grants)
  {
    RunKeeps(value, events, op);
    RunKeeps(value, events + late, op);
    RunKeeps(value, events + late + [Cancel(op.controller, op)], op);
    CancelRevokesExactly(value, events + late, op.controller, op);
    RunLast(value, events + late, Cancel(op.controller, op));
    WaitersMove(Run(value, events + late).state, Cancel(op.controller, op), op);
  }

  /** A wait on an empty semaphore that times out just before a post. */
  lemma TimedOutWaitLosesToken(op: Operation)
    ensures Pending(Run(0, [WaitAsync(op)]), op) && Pending(Run(0, [WaitAsync(op), Post]), op)
    ensures Queue(Run(0, [WaitAsync(op)]).state.queues, op.controller) == []
    ensures var u := Run(0, [WaitAsync(op), Post, Cancel(op.controller, op)]);
      u.posts == 1 && u.state.value == 0 && u.state.waiters == [] && op in LedgerOf(u).revoked
  {
    var e1, e2, e3 := WaitAsync(op), Post, Cancel(op.controller, op);
    assert [e1] == [] + [e1] && [e1, e2] == [e1] + [e2] && [e1, e2, e3] == [e1] + [e2] + [e3];
    RunLast(0, [], e1);
    RunLast(0, [e1], e2);
    RunLast(0, [e1, e2], e3);
    RunKeeps(0, [e1], op);
    RunKeeps(0, [e1, e2], op);
    TimedOutWait(0, [e1], [e2], op);
  }

  class Semaphore {
    var value: nat
    const waiters: OperationList
    const controllers: Controllers

    function Abstract(): State
      reads this, waiters, controllers
    {
      State(value, waiters.list, controllers.queues)
    }

    constructor (initial: nat, controllers: Controllers)
      ensures this.controllers == controllers && fresh(waiters) && Abstract() == State(initial, [], controllers.queues)
    {
      value := initial;
      this.controllers := controllers;
      waiters := new OperationList();
    }

    method Post()
      modifies this, waiters, controllers
      ensures Abstract() == Next(old(Abstract()), Event.Post)
    {
      var op := waiters.ExtractFront();
      if op.Some? {
        controllers.Post(op.value);
      } else {
        value := value + 1;
      }
    }

    method WaitAsync(op: Operation)
      modifies this, waiters, controllers
      ensures Abstract() == Next(old(Abstract()), Event.WaitAsync(op))
    {
      if value == 0 {
        waiters.PushBack(op);
      } else {
        value := value - 1;
        controllers.Post(op);
      }
    }

    method Cancel(c: Controller, op: Operation)
      modifies waiters, controllers
      ensures Abstract() == Next(old(Abstract()), Event.Cancel(c, op))
    {
      var _ := waiters.Remove(op);
      controllers.RevertPost(c, op);
    }

    method Wait(c: Controller) returns (r: Option<Operation>)
      modifies controllers
      ensures Abstract() == Next(old(Abstract()), Event.Wait(c)) && r == Delivered(old(Abstract()), Event.Wait(c))
    {
      r := controllers.Poll(c);
    }

    method WaitFor(c: Controller, op: Operation) returns (found: bool)
      modifies controllers
      ensures Abstract() == Next(old(Abstract()), Event.WaitFor(c, op))
      ensures found <==> Delivered(old(Abstract()), Event.WaitFor(c, op)) == Some(op)
    {
      found := controllers.PollFor(c, op);
    }
  }

  /** Every event, performed on the objects, leads to the next state of the run. */
  method Perform(s: Semaphore, e: Event)
    modifies s, s.waiters, s.controllers
    ensures s.Abstract() == Next(old(s.Abstract()), e)
  {
    match e {
      case Post => s.Post();
      case WaitAsync(op) => s.WaitAsync(op);
      case Cancel(c, op) => s.Cancel(c, op);
      case Wait(c) => var _ := s.Wait(c);
      case WaitFor(c, op) => var _ := s.WaitFor(c, op);
    }
  }

  /** Every sequence of events on a new semaphore ends in the state of its run. */
  method Replay(value: nat, events: seq<Event>) returns (s: Semaphore)
    ensures s.Abstract() == Run(value, events).state
  {
    var controllers := new Controllers();
    s := new Semaphore(value, controllers);
    var i := 0;
    while i < |events|
      invariant 0 <= i <= |events| && s.Abstract() == Run(value, events[..i]).state
      invariant fresh(s) && fresh(s.waiters) && fresh(s.controllers)
    {
      Perform(s, events[i]);
      RunNext(value, events, i);
      i := i + 1;
    }
    assert events[..i] == events;
  }

  lemma RunNext(value: nat, events: seq<Event>, i: nat)
    requires i < |events|
    ensures Run(value, events[..i + 1]).state == Next(Run(value, events[..i]).state, events[i])
  {
    assert events[..i + 1][..i] == events[..i];
  }
}
