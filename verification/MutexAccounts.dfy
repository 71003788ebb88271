/** Where the operations of a mutex are in every run, and what a wait that times out leaves
    behind. */
module MutexAccounts {
  import opened Wrappers
  import opened Runs
  import opened Operations
  import opened Ledgers
  import opened Lines
  import opened Mutexes

  /** What an event does to the queues of completed operations. */
  function TrafficOf(s: State, e: Event): Traffic {
    match e
    case Cancel(c, op) => Reverting(c, op)
    case Wait(c) => Taking(c)
    case WaitFor(c, op) => TakingOne(c, op)
    case _ => Posting(Granted(s, e))
  }

  /** What was issued, what a cancel took back while waiting, and what became of the grants. */
  datatype Account = Account(
    state: State,
    issued: multiset<Operation>,
    withdrawn: multiset<Operation>,
    traffic: seq<Traffic>)

  function Entry(a: Account, e: Event): Account {
    var s := a.state;
    Account(
      Next(s, e),
      if e.WaitAsync? then a.issued + multiset{e.op} else a.issued,
      if e.Cancel? then a.withdrawn + OnlyIf(e.cancelled in s.waiters, e.cancelled) else a.withdrawn,
      a.traffic + [TrafficOf(s, e)])
  }

  function Tally(events: seq<Event>): Account {
    if events == [] then Account(Initial, multiset{}, multiset{}, [])
    else Entry(Tally(events[..|events| - 1]), events[|events| - 1])
  }

  function LedgerOf(a: Account): Ledger {
    Book(a.traffic)
  }

  lemma TallyLast(events: seq<Event>, e: Event)
    ensures Tally(events + [e]) == Entry(Tally(events), e)
  {
    assert (events + [e])[..|events|] == events;
  }

  /** The state of the account is that of the run. */
  lemma {:induction false} TallyIsRun(events: seq<Event>)
    ensures Tally(events).state == Run(events).state && Ok(Tally(events).state)
  {
    RunBalances(events, 0);
    if events != [] { TallyIsRun(events[..|events| - 1]); }
  }

  /** Every issued operation is waiting, withdrawn or granted. */
  ghost predicate Accounted(a: Account, op: Operation) {
    && a.issued[op] == multiset(a.state.waiters)[op] + a.withdrawn[op] + LedgerOf(a).posted[op]
    && LedgerOf(a).queues == a.state.queues
  }

  lemma StepAccounts(a: Account, e: Event, op: Operation)
    requires Accounted(a, op)
    ensures Accounted(Entry(a, e), op)
  {
    StepConserves(a.state, e, op);
    BookNext(a.traffic, TrafficOf(a.state, e));
    LedgerMoves(LedgerOf(a), TrafficOf(a.state, e), op);
    EntryMoves(a, e, op);
  }

  lemma EntryMoves(a: Account, e: Event, op: Operation)
    ensures var b := Entry(a, e);
      && b.issued[op] == a.issued[op] + One(e.WaitAsync? && e.op == op)
      && b.withdrawn[op] == a.withdrawn[op] + One(e.Cancel? && e.cancelled == op && op in a.state.waiters)
      && b.state.queues == After(a.state.queues, TrafficOf(a.state, e))
      && multiset(Granted(a.state, e))[op]
         == if TrafficOf(a.state, e).Posting? then multiset(TrafficOf(a.state, e).ops)[op] else 0
  {
    QueuesMove(a.state, e);
  }

  lemma QueuesMove(s: State, e: Event)
    ensures Next(s, e).queues == After(s.queues, TrafficOf(s, e))
    ensures TrafficOf(s, e).Posting? ==> TrafficOf(s, e).ops == Granted(s, e)
    ensures !TrafficOf(s, e).Posting? ==> Granted(s, e) == []
  {
  }

  /** In every run, every issued operation is waiting, withdrawn or granted, and every granted one
      is queued, delivered or revoked. */
  lemma {:induction false} RunAccounts(events: seq<Event>, op: Operation)
    ensures var a := Tally(events);
      Accounted(a, op) && QueuesHome(a.state.queues) && Balanced(LedgerOf(a), op)
  {
    if events != [] {
      RunAccounts(events[..|events| - 1], op);
      StepAccounts(Tally(events[..|events| - 1]), events[|events| - 1], op);
    }
    BookBalances(Tally(events).traffic, op);
  }

  /** An operation issued once is in exactly one place. */
  lemma InOnePlace(events: seq<Event>, op: Operation)
    requires Tally(events).issued[op] == 1
    ensures var a := Tally(events); var l := LedgerOf(a);
      One(op in a.state.waiters) + One(op in a.withdrawn) + One(op in Queue(a.state.queues, op.controller))
      + One(op in l.delivered) + One(op in l.revoked) == 1
  {
    RunAccounts(events, op);
  }

  // First come, first served.

  /** All operations in the order of issue. */
  function Issued(events: seq<Event>): seq<Operation> {
    if events == [] then []
    else
      var e := events[|events| - 1];
      Issued(events[..|events| - 1]) + if e.WaitAsync? then [e.op] else []
  }

  lemma StepKeepsLine(s: State, e: Event, line: seq<Operation>)
    requires Within(s.waiters, line)
    ensures Within(Next(s, e).waiters, line + if e.WaitAsync? then [e.op] else [])
  {
    assert line + [] == line;
    match e {
      case WaitAsync(op) => WithinLast(s.waiters, line, op);
      case Post(_) =>
        if s.waiters != [] {
          WithinNotOf(s.waiters, s.waiters[0].controller);
          WithinAgain(NotOf(s.waiters, s.waiters[0].controller), s.waiters, line);
        }
      case Cancel(_, op) =>
        WithinWithout(s.waiters, op);
        WithinAgain(Without(s.waiters, op), s.waiters, line);
      case _ =>
    }
  }

  /** In every run the waiters stand in the order of issue. */
  lemma {:induction false} WaitersInOrder(events: seq<Event>)
    ensures Within(Tally(events).state.waiters, Issued(events))
  {
    if events != [] {
      var before, e := events[..|events| - 1], events[|events| - 1];
      WaitersInOrder(before);
      StepKeepsLine(Tally(before).state, e, Issued(before));
    }
  }

  /** In every run the last release hands over to the controller that has been waiting longest:
      its first operation was issued before every operation that goes on waiting, and nothing but
      its operations is granted. */
  lemma LongestWaiterNext(events: seq<Event>, c: Controller)
    requires var s := Tally(events).state; s.owner == Some(c) && s.level == 1 && s.waiters != []
    ensures var g := Granted(Tally(events).state, Post(c)); var t := Tally(events + [Post(c)]).state;
      && g != [] && t.owner == Some(g[0].controller) && t.level == |g|
      && (forall x :: x in g ==> x.controller == g[0].controller)
      && (forall x :: x in t.waiters ==> Precedes(Issued(events), g[0], x) && x.controller != g[0].controller)
  {
    var s := Tally(events).state;
    var d := s.waiters[0].controller;
    TallyLast(events, Post(c));
    WaitersInOrder(events);
    HeadFirst(s.waiters);
    OfCounts(s.waiters, d);
    WithinNotOf(s.waiters[1..], d);
    FirstCame(s.waiters, Issued(events), NotOf(s.waiters, d));
  }

  /** An operation overtakes one of another controller that stands before it exactly when its own
      controller is first in line: all operations of a new owner are granted at once. */
  lemma OvertakesExactly(s: State, c: Controller, i: nat, j: nat)
    requires Ok(s) && s.owner == Some(c) && s.level == 1
    requires i < j < |s.waiters| && s.waiters[i].controller != s.waiters[j].controller
    ensures var g := Granted(s, Post(c));
      s.waiters[j] in g && s.waiters[i] !in g <==> s.waiters[j].controller == s.waiters[0].controller
  {
    var d := s.waiters[0].controller;
    OfCounts(s.waiters, d);
    if s.waiters[j].controller == d { OfHas(s.waiters, j); }
  }

  /** A blocked operation joins the line. */
  lemma Joins(events: seq<Event>, op: Operation)
    requires var s := Tally(events).state; s.owner.Some? && s.owner != Some(op.controller)
    ensures var s, t := Tally(events).state, Tally(events + [WaitAsync(op)]).state;
      t.owner == s.owner && t.level == s.level && t.waiters == s.waiters + [op]
    ensures Issued(events + [WaitAsync(op)]) == Issued(events) + [op]
  {
    TallyLast(events, WaitAsync(op));
    assert (events + [WaitAsync(op)])[..|events|] == events;
  }

  lemma ThreeJoin(events: seq<Event>, z: Operation, x: Operation, y: Operation)
    requires var s := Tally(events).state;
      s.owner.Some? && s.waiters == [] && s.owner.value !in {z.controller, x.controller, y.controller}
    ensures var more := events + [WaitAsync(z)] + [WaitAsync(x)] + [WaitAsync(y)];
      var s, t := Tally(events).state, Tally(more).state;
      && t.owner == s.owner && t.level == s.level && t.waiters == [z, x, y]
      && Issued(more) == Issued(events) + [z] + [x] + [y]
  {
    Joins(events, z);
    Joins(events + [WaitAsync(z)], x);
    Joins(events + [WaitAsync(z)] + [WaitAsync(x)], y);
  }

  /** An operation that is granted before one that was issued earlier: somebody else owns the mutex,
      z, x and y have to wait, and z and y have the same controller. */
  lemma Overtaken(events: seq<Event>, c: Controller, z: Operation, x: Operation, y: Operation)
    requires var s := Tally(events).state; s.owner == Some(c) && s.level == 1 && s.waiters == []
    requires c !in {z.controller, x.controller, y.controller} && z.controller == y.controller != x.controller
    ensures var more := events + [WaitAsync(z)] + [WaitAsync(x)] + [WaitAsync(y)];
      && Issued(more) == Issued(events) + [z] + [x] + [y]
      && var t := Tally(more + [Post(c)]).state;
         t.owner == Some(y.controller) && t.level == 2 && t.waiters == [x]
  {
    var more := events + [WaitAsync(z)] + [WaitAsync(x)] + [WaitAsync(y)];
    ThreeJoin(events, z, x, y);
    TallyLast(more, Post(c));
    SplitThree(z, x, y);
  }

  lemma SplitThree(z: Operation, x: Operation, y: Operation)
    requires z.controller == y.controller != x.controller
    ensures Of([z, x, y], z.controller) == [z, y] && NotOf([z, x, y], z.controller) == [x]
  {
    assert [z, x, y][1..] == [x, y] && [x, y][1..] == [y] && [y][1..] == [];
    assert Of([y], z.controller) == [y] && NotOf([y], z.controller) == [];
  }

  lemma {:induction false} OfHas(list: seq<Operation>, j: nat)
    requires j < |list|
    ensures list[j] in Of(list, list[j].controller)
  {
    if j > 0 { OfHas(list[1..], j - 1); }
  }

  // A wait that times out.

  /** A controller that does nothing but wait for one operation has it waiting and holds nothing,
      or has it granted and holds the mutex once. */
  ghost predicate OnlyWaitsFor(s: State, op: Operation, granted: bool) {
    && Of(s.waiters, op.controller) == (if granted then [] else [op])
    && Holds(s, op.controller) == One(granted)
  }

  /** What others do: nothing issued or released by the controller, and its operation not cancelled. */
  predicate ByOthers(e: Event, op: Operation) {
    match e
    case WaitAsync(x) => x.controller != op.controller
    case Post(c) => c != op.controller
    case Cancel(_, x) => x.controller != op.controller
    case _ => true
  }

  lemma OthersStep(s: State, e: Event, op: Operation, granted: bool)
    requires Ok(s) && ByOthers(e, op) && OnlyWaitsFor(s, op, granted)
    ensures OnlyWaitsFor(Next(s, e), op, granted || op in Granted(s, e))
    ensures granted ==> op !in Granted(s, e)
  {
    var c := op.controller;
    match e {
      case WaitAsync(x) =>
        OfAppend(s.waiters, [x], c);
      case Post(d) => OthersPost(s, d, op, granted);
      case Cancel(_, x) => OfWithoutOther(s.waiters, x, c);
      case _ =>
    }
  }

  lemma {:induction false} OfWithoutOther(list: seq<Operation>, x: Operation, c: Controller)
    requires x.controller != c
    ensures Of(Without(list, x), c) == Of(list, c)
  {
    if list != [] && list[0] != x {
      OfWithoutOther(list[1..], x, c);
      assert Without(list, x)[1..] == Without(list[1..], x);
    }
  }

  lemma OthersPost(s: State, d: Controller, op: Operation, granted: bool)
    requires Ok(s) && d != op.controller && OnlyWaitsFor(s, op, granted)
    ensures OnlyWaitsFor(Next(s, Post(d)), op, granted || op in Granted(s, Post(d)))
    ensures granted ==> op !in Granted(s, Post(d))
  {
    if s.owner == Some(d) && s.level == 1 && s.waiters != [] {
      var heir := s.waiters[0].controller;
      OfCounts(s.waiters, heir);
      OfOfNotOf(s.waiters, heir, op.controller);
      assert s.waiters[0] in s.waiters;
      assert Of(s.waiters, heir)[0] == s.waiters[0];
    }
  }

  lemma {:induction false} OfOfNotOf(list: seq<Operation>, c: Controller, d: Controller)
    ensures Of(NotOf(list, c), d) == if c == d then [] else Of(list, d)
  {
    if list != [] {
      OfOfNotOf(list[1..], c, d);
      var rest := NotOf(list[1..], c);
      if list[0].controller != c { assert ([list[0]] + rest)[1..] == rest; } else { assert [] + rest == rest; }
    }
  }

  /** Whether the operation was granted between two points of a run. */
  ghost predicate GrantedSince(before: Account, after: Account, op: Operation) {
    LedgerOf(after).posted[op] > LedgerOf(before).posted[op]
  }

  lemma GrantedStep(a: Account, e: Event, op: Operation)
    ensures LedgerOf(Entry(a, e)).posted[op] == LedgerOf(a).posted[op] + multiset(Granted(a.state, e))[op]
  {
    BookNext(a.traffic, TrafficOf(a.state, e));
    LedgerMoves(LedgerOf(a), TrafficOf(a.state, e), op);
    EntryMoves(a, e, op);
  }

  ghost predicate WaitsSince(r: Account, a: Account, op: Operation) {
    && Ok(a.state) && LedgerOf(r).posted[op] <= LedgerOf(a).posted[op]
    && OnlyWaitsFor(a.state, op, GrantedSince(r, a, op))
  }

  lemma OthersEntry(r: Account, a: Account, e: Event, op: Operation)
    requires WaitsSince(r, a, op) && ByOthers(e, op)
    ensures WaitsSince(r, Entry(a, e), op)
  {
    OthersStep(a.state, e, op, GrantedSince(r, a, op));
    GrantedStep(a, e, op);
    StepKeepsOk(a.state, e);
  }

  lemma OthersRun(events: seq<Event>, late: seq<Event>, op: Operation)
    requires WaitsSince(Tally(events), Tally(events), op) && forall e :: e in late ==> ByOthers(e, op)
    ensures WaitsSince(Tally(events), Tally(events + late), op)
  {
    var r := Tally(events);
    var inv := p => WaitsSince(r, Tally(p), op);
    var may := e => ByOthers(e, op);
    forall p, e
      ensures KeepsAt(inv, may, p, e)
    {
      TallyLast(p, e);
      if inv(p) && may(e) { OthersEntry(r, Tally(p), e, op); }
    }
    KeepsOverRun(inv, may, events, late);
  }

  /** A wait that times out: at the last look the operation still waits, then others act, then the
      wait cancels it and fails.  Its controller owns the mutex afterwards exactly when the grant
      came after that last look. */
  lemma TimedOutWait(events: seq<Event>, late: seq<Event>, op: Operation)
    requires OnlyWaitsFor(Tally(events).state, op, false) && forall e :: e in late ==> ByOthers(e, op)
    ensures var r, t := Tally(events), Tally(events + late);
      var u := Tally(events + late + [Cancel(op.controller, op)]);
      && (u.state.owner == Some(op.controller) <==> GrantedSince(r, t, op))
      && Holds(u.state, op.controller) == One(GrantedSince(r, t, op)) && Of(u.state.waiters, op.controller) == []
  {
    TallyIsRun(events);
    OthersRun(events, late, op);
    TallyLast(events + late, Cancel(op.controller, op));
    CancelLeaves(Tally(events + late).state, op, GrantedSince(Tally(events), Tally(events + late), op));
  }

  lemma CancelLeaves(s: State, op: Operation, granted: bool)
    requires Ok(s) && OnlyWaitsFor(s, op, granted)
    ensures var t := Next(s, Cancel(op.controller, op));
      && (t.owner == Some(op.controller) <==> granted)
      && Holds(t, op.controller) == One(granted) && Of(t.waiters, op.controller) == []
  {
    OfWithout(s.waiters, op, op.controller);
    if Of(s.waiters, op.controller) != [] { InOf(s.waiters, op); }
  }

  lemma {:induction false} InOf(list: seq<Operation>, op: Operation)
    requires op in Of(list, op.controller)
    ensures op in list
  {
    OfCounts(list, op.controller);
    assert op in multiset(Of(list, op.controller));
    assert op in multiset(list);
  }
}
