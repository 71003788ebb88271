/** What becomes of the signals of a timer: every firing is pending, discarded, or granted, and a
    grant is queued, delivered, or revoked by a cancel that comes too late. */
module TimerAccounts {
  import opened Wrappers
  import opened Ticks
  import opened Operations
  import opened Ledgers
  import opened Lines
  import opened Timers

  /** What an event does to the queues of completed operations. */
  function TrafficOf(r: Record, e: Event): Traffic {
    match e
    case WaitAsync(op) => Posting(if r.tokens.signals > 0 then [op] else [])
    case Update(t) =>
      Posting(if Fires(r.clock, t % WRAP) && r.tokens.waiters != [] then [r.tokens.waiters[0]] else [])
    case Cancel(c, op) => Reverting(c, op)
    case Wait(c) => Taking(c)
    case WaitFor(c, op) => TakingOne(c, op)
    case _ => Posting([])
  }

  datatype Account = Account(record: Record, traffic: seq<Traffic>)

  function Entry(a: Account, e: Event): Account {
    Account(Extend(a.record, e), a.traffic + [TrafficOf(a.record, e)])
  }

  function Tally(events: seq<Event>): Account {
    if events == [] then Account(Idle, [])
    else Entry(Tally(events[..|events| - 1]), events[|events| - 1])
  }

  function LedgerOf(a: Account): Ledger {
    Book(a.traffic)
  }

  lemma TallyLast(events: seq<Event>, e: Event)
    ensures Tally(events + [e]) == Entry(Tally(events), e)
  {
    assert (events + [e])[..|events|] == events;
  }

  /** The record of the account is that of the run. */
  lemma {:induction false} TallyIsRun(events: seq<Event>)
    ensures Tally(events).record == Run(events)
  {
    if events != [] { TallyIsRun(events[..|events| - 1]); }
  }

  ghost predicate Booked(a: Account) {
    LedgerOf(a).queues == a.record.tokens.queues && |LedgerOf(a).posted| == a.record.grants
  }

  lemma StepIsTraffic(r: Record, e: Event)
    ensures Extend(r, e).tokens.queues == After(r.tokens.queues, TrafficOf(r, e))
    ensures Extend(r, e).grants == r.grants + if TrafficOf(r, e).Posting? then |TrafficOf(r, e).ops| else 0
  {
    if e.WaitAsync? { PostedOne(r.tokens.queues, e.op); }
    if e.Update? && r.tokens.waiters != [] { PostedOne(r.tokens.queues, r.tokens.waiters[0]); }
  }

  lemma StepBooks(a: Account, e: Event)
    requires Booked(a)
    ensures Booked(Entry(a, e))
  {
    StepIsTraffic(a.record, e);
    BookNext(a.traffic, TrafficOf(a.record, e));
  }

  lemma {:induction false} RunBooks(events: seq<Event>)
    ensures Booked(Tally(events))
  {
    if events != [] {
      RunBooks(events[..|events| - 1]);
      StepBooks(Tally(events[..|events| - 1]), events[|events| - 1]);
    }
  }

  /** In every run, every firing is pending, discarded, queued, delivered or revoked. */
  lemma SignalsAccounted(events: seq<Event>)
    ensures var r := Run(events); var l := LedgerOf(Tally(events));
      && (forall op :: Outstanding(l)[op] == multiset(Queue(r.tokens.queues, op.controller))[op])
      && r.total == r.tokens.signals + r.discarded + |Outstanding(l)| + |l.delivered| + |l.revoked|
  {
    TallyIsRun(events);
    RunConserves(events);
    RunBooks(events);
    BookTotals(Tally(events).traffic);
  }

  // First come, first served.

  /** All operations in the order of issue. */
  function Issued(events: seq<Event>): seq<Operation> {
    if events == [] then []
    else
      var e := events[|events| - 1];
      Issued(events[..|events| - 1]) + if e.WaitAsync? then [e.op] else []
  }

  lemma StepKeepsLine(r: Record, e: Event, line: seq<Operation>)
    requires Within(r.tokens.waiters, line)
    ensures Within(Extend(r, e).tokens.waiters, line + if e.WaitAsync? then [e.op] else [])
  {
    var w := r.tokens.waiters;
    assert line + [] == line;
    match e {
      case WaitAsync(op) => WithinLast(w, line, op);
      case Update(_) => if w != [] { WithinFewer(w, line); }
      case Cancel(_, op) =>
        WithinWithout(w, op);
        WithinAgain(Without(w, op), w, line);
      case _ =>
    }
  }

  /** In every run the waiters stand in the order of issue. */
  lemma {:induction false} WaitersInOrder(events: seq<Event>)
    ensures Within(Run(events).tokens.waiters, Issued(events))
  {
    if events != [] {
      var before, e := events[..|events| - 1], events[|events| - 1];
      WaitersInOrder(before);
      StepKeepsLine(Run(before), e, Issued(before));
    }
  }

  /** In every run a firing completes one waiting operation, if there is any, and that was issued
      before every operation that goes on waiting. */
  lemma LongestWaiterSignalled(events: seq<Event>, t: nat)
    requires Fires(Run(events).clock, t % WRAP) && Run(events).tokens.waiters != []
    ensures var r, u := Run(events), Run(events + [Update(t)]); var g := r.tokens.waiters[0];
      && multiset(u.tokens.waiters) + multiset{g} == multiset(r.tokens.waiters) && u.tokens.signals == r.tokens.signals
      && Queue(u.tokens.queues, g.controller) == Queue(r.tokens.queues, g.controller) + [g]
      && forall x :: x in u.tokens.waiters ==> Precedes(Issued(events), g, x)
  {
    assert (events + [Update(t)])[..|events|] == events;
    var w := Run(events).tokens.waiters;
    WaitersInOrder(events);
    WithinSelf(w[1..]);
    FirstCame(w, Issued(events), w[1..]);
    assert w == [w[0]] + w[1..];
  }

  /** Event i is not a cancel between the grant of its operation and the delivery. */
  ghost predicate CancelsInTimeAt(events: seq<Event>, i: nat)
    requires i < |events|
  {
    events[i].Cancel? ==>
      events[i].cancelled !in Queue(Tally(events[..i]).record.tokens.queues, events[i].caller)
  }

  ghost predicate CancelsInTime(events: seq<Event>) {
    forall i {:trigger CancelsInTimeAt(events, i)} :: 0 <= i < |events| ==> CancelsInTimeAt(events, i)
  }

  lemma InTimeOneMore(events: seq<Event>)
    requires events != []
    ensures var n := |events| - 1;
      CancelsInTime(events) <==> CancelsInTime(events[..n]) && CancelsInTimeAt(events, n)
  {
    var n := |events| - 1;
    forall i | 0 <= i < n
      ensures CancelsInTimeAt(events[..n], i) == CancelsInTimeAt(events, i)
    {
      assert events[..n][..i] == events[..i];
    }
  }

  lemma RevokesUnless(a: Account, e: Event)
    requires Booked(a)
    ensures LedgerOf(Entry(a, e)).revoked == multiset{} <==>
      LedgerOf(a).revoked == multiset{} && (e.Cancel? ==> e.cancelled !in Queue(a.record.tokens.queues, e.caller))
  {
    BookNext(a.traffic, TrafficOf(a.record, e));
    Ledgers.RevokesUnless(LedgerOf(a), TrafficOf(a.record, e));
  }

  lemma {:induction false} RevokedExactly(events: seq<Event>)
    ensures LedgerOf(Tally(events)).revoked == multiset{} <==> CancelsInTime(events)
  {
    if events != [] {
      var n := |events| - 1;
      RevokedExactly(events[..n]);
      InTimeOneMore(events);
      RunBooks(events[..n]);
      RevokesUnless(Tally(events[..n]), events[n]);
    }
  }

  /** No signal is lost, other than those stop takes back, exactly when every cancel comes before
      the grant of its operation or after the delivery. */
  lemma NoSignalLostExactly(events: seq<Event>)
    ensures var r := Run(events); var l := LedgerOf(Tally(events));
      r.total == r.tokens.signals + r.discarded + |Outstanding(l)| + |l.delivered| <==> CancelsInTime(events)
  {
    SignalsAccounted(events);
    RevokedExactly(events);
  }

  /** A timer fires, its signal is granted and cancelled: nothing is left of it. */
  lemma CancelAfterGrantLosesSignal(op: Operation)
    ensures var events := [Start(1, false, 0), Update(1), WaitAsync(op), Cancel(op.controller, op)];
      var r := Tally(events).record;
      && r.total == 1 && r.tokens.signals == 0 && r.discarded == 0 && r.tokens.waiters == []
      && Queue(r.tokens.queues, op.controller) == []
  {
    var e1, e2, e3, e4 := Start(1, false, 0), Update(1), WaitAsync(op), Cancel(op.controller, op);
    assert [e1] == [] + [e1] && [e1, e2] == [e1] + [e2] && [e1, e2, e3] == [e1, e2] + [e3];
    assert [e1, e2, e3, e4] == [e1, e2, e3] + [e4];
    TallyLast([], e1);
    TallyLast([e1], e2);
    TickFollows(Clock(1, true, false, 0), 0, 1);
    TallyLast([e1, e2], e3);
    TallyLast([e1, e2, e3], e4);
    assert Without([op], op) == [];
  }
}
