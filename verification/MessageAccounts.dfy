/** Where the operations of a message exchange are in every run: an issued send or receive is
    pending, withdrawn or part of one transfer, and the two operations of a transfer are
    notified once each. */
module MessageAccounts {
  import opened Wrappers
  import opened Runs
  import opened Operations
  import opened Ledgers
  import opened MessageExchanges

  function SendOps(list: seq<Send>): (r: seq<Operation>)
    ensures |r| == |list|
  {
    seq(|list|, i requires 0 <= i < |list| => list[i].op)
  }

  function ReceiveOps(list: seq<Receive>): (r: seq<Operation>)
    ensures |r| == |list|
  {
    seq(|list|, i requires 0 <= i < |list| => list[i].op)
  }

  /** The sends and the receives of transfers. */
  function Sent(list: seq<Transfer>): (r: seq<Operation>)
    ensures |r| == |list|
  {
    seq(|list|, i requires 0 <= i < |list| => list[i].send.op)
  }

  function Received(list: seq<Transfer>): (r: seq<Operation>)
    ensures |r| == |list|
  {
    seq(|list|, i requires 0 <= i < |list| => list[i].receive.op)
  }

  /** What an event does to the queues of completed operations. */
  function TrafficOf(s: State, e: Event): Traffic {
    match e
    case SendAsync(tx) => Posting(if s.receives == [] then [] else [s.receives[0].op, tx.op])
    case ReceiveAsync(rx) => Posting(if s.sends == [] then [] else [s.sends[0].op, rx.op])
    case Cancel(c, op) => Reverting(c, op)
    case Wait(c) => Taking(c)
    case WaitFor(c, op) => TakingOne(c, op)
  }

  /** What was issued, what a cancel took back while pending, and the notifications. */
  datatype Account = Account(
    sends: multiset<Operation>,
    receives: multiset<Operation>,
    withdrawnSends: multiset<Operation>,
    withdrawnReceives: multiset<Operation>,
    traffic: seq<Traffic>)

  const Nothing := Account(multiset{}, multiset{}, multiset{}, multiset{}, [])

  function Entry(a: Account, s: State, e: Event): Account {
    Account(
      if e.SendAsync? then a.sends + multiset{e.send.op} else a.sends,
      if e.ReceiveAsync? then a.receives + multiset{e.receive.op} else a.receives,
      if e.Cancel? then a.withdrawnSends + OnlyIf(e.op in SendOps(s.sends), e.op) else a.withdrawnSends,
      if e.Cancel? then a.withdrawnReceives + OnlyIf(e.op in ReceiveOps(s.receives), e.op) else a.withdrawnReceives,
      a.traffic + [TrafficOf(s, e)])
  }

  function Tally(events: seq<Event>): Account {
    if events == [] then Nothing
    else Entry(Tally(events[..|events| - 1]), Run(events[..|events| - 1]).state, events[|events| - 1])
  }

  /** What became of the notifications. */
  function LedgerOf(a: Account): Ledger {
    Book(a.traffic)
  }

  // What every run keeps, for one operation.

  ghost predicate SendsBalance(r: Record, a: Account, op: Operation) {
    a.sends[op] == multiset(SendOps(r.state.sends))[op] + a.withdrawnSends[op] + multiset(Sent(r.transfers))[op]
  }

  ghost predicate ReceivesBalance(r: Record, a: Account, op: Operation) {
    a.receives[op]
    == multiset(ReceiveOps(r.state.receives))[op] + a.withdrawnReceives[op] + multiset(Received(r.transfers))[op]
  }

  /** Both operations of each transfer are posted once. */
  ghost predicate NoticesBalance(r: Record, a: Account, op: Operation) {
    && LedgerOf(a).queues == r.state.queues
    && LedgerOf(a).posted[op] == multiset(Sent(r.transfers))[op] + multiset(Received(r.transfers))[op]
  }

  // Steps.

  lemma {:induction false} SendOpsWithout(list: seq<Send>, op: Operation)
    ensures SendOps(WithoutSend(list, op)) == Without(SendOps(list), op)
  {
    if list != [] {
      SendOpsWithout(list[1..], op);
      assert SendOps(list)[1..] == SendOps(list[1..]);
      assert SendOps([list[0]] + WithoutSend(list[1..], op)) == [list[0].op] + SendOps(WithoutSend(list[1..], op));
    }
  }

  lemma {:induction false} ReceiveOpsWithout(list: seq<Receive>, op: Operation)
    ensures ReceiveOps(WithoutReceive(list, op)) == Without(ReceiveOps(list), op)
  {
    if list != [] {
      ReceiveOpsWithout(list[1..], op);
      assert ReceiveOps(list)[1..] == ReceiveOps(list[1..]);
      assert ReceiveOps([list[0]] + WithoutReceive(list[1..], op))
        == [list[0].op] + ReceiveOps(WithoutReceive(list[1..], op));
    }
  }

  /** Whether the event completes a pair with the operation as its send, or as its receive. */
  ghost predicate Sends(s: State, e: Event, op: Operation) {
    Completed(s, e).Some? && Completed(s, e).value.0.op == op
  }

  ghost predicate Receives(s: State, e: Event, op: Operation) {
    Completed(s, e).Some? && Completed(s, e).value.1.op == op
  }

  lemma SendAppended(list: seq<Send>, tx: Send, op: Operation)
    ensures multiset(SendOps(list + [tx]))[op] == multiset(SendOps(list))[op] + One(tx.op == op)
  {
    assert SendOps(list + [tx]) == SendOps(list) + [tx.op];
  }

  lemma SendPopped(list: seq<Send>, op: Operation)
    requires list != []
    ensures multiset(SendOps(list[1..]))[op] + One(list[0].op == op) == multiset(SendOps(list))[op]
  {
    assert SendOps(list[1..]) == SendOps(list)[1..];
    Popped(SendOps(list), op);
  }

  lemma SendCancelled(list: seq<Send>, x: Operation, op: Operation)
    ensures multiset(SendOps(WithoutSend(list, x)))[op] + One(x == op && op in SendOps(list))
         == multiset(SendOps(list))[op]
  {
    SendOpsWithout(list, x);
    WithoutCounts(SendOps(list), x);
  }

  lemma SendsMove(s: State, e: Event, op: Operation)
    requires Ok(s)
    ensures multiset(SendOps(Next(s, e).sends))[op] + One(Sends(s, e, op))
            + One(e.Cancel? && e.op == op && op in SendOps(s.sends))
         == multiset(SendOps(s.sends))[op] + One(e.SendAsync? && e.send.op == op)
  {
    match e {
      case SendAsync(tx) => SendAppended(s.sends, tx, op);
      case ReceiveAsync(_) =>
        if s.sends != [] { SendPopped(s.sends, op); }
      case Cancel(_, x) => SendCancelled(s.sends, x, op);
      case _ =>
    }
  }

  lemma ReceiveAppended(list: seq<Receive>, rx: Receive, op: Operation)
    ensures multiset(ReceiveOps(list + [rx]))[op] == multiset(ReceiveOps(list))[op] + One(rx.op == op)
  {
    assert ReceiveOps(list + [rx]) == ReceiveOps(list) + [rx.op];
  }

  lemma ReceivePopped(list: seq<Receive>, op: Operation)
    requires list != []
    ensures multiset(ReceiveOps(list[1..]))[op] + One(list[0].op == op) == multiset(ReceiveOps(list))[op]
  {
    assert ReceiveOps(list[1..]) == ReceiveOps(list)[1..];
    Popped(ReceiveOps(list), op);
  }

  lemma ReceiveCancelled(list: seq<Receive>, x: Operation, op: Operation)
    ensures multiset(ReceiveOps(WithoutReceive(list, x)))[op] + One(x == op && op in ReceiveOps(list))
         == multiset(ReceiveOps(list))[op]
  {
    ReceiveOpsWithout(list, x);
    WithoutCounts(ReceiveOps(list), x);
  }

  lemma ReceivesMove(s: State, e: Event, op: Operation)
    requires Ok(s)
    ensures multiset(ReceiveOps(Next(s, e).receives))[op] + One(Receives(s, e, op))
            + One(e.Cancel? && e.op == op && op in ReceiveOps(s.receives))
         == multiset(ReceiveOps(s.receives))[op] + One(e.ReceiveAsync? && e.receive.op == op)
  {
    match e {
      case ReceiveAsync(rx) => ReceiveAppended(s.receives, rx, op);
      case SendAsync(_) =>
        if s.receives != [] { ReceivePopped(s.receives, op); }
      case Cancel(_, x) => ReceiveCancelled(s.receives, x, op);
      case _ =>
    }
  }

  /** The traffic of an event is what it does to the queues, and posts the pair it completes. */
  lemma StepIsTraffic(s: State, e: Event, op: Operation)
    ensures Next(s, e).queues == After(s.queues, TrafficOf(s, e))
    ensures One(Sends(s, e, op)) + One(Receives(s, e, op))
         == if TrafficOf(s, e).Posting? then multiset(TrafficOf(s, e).ops)[op] else 0
  {
    if e.SendAsync? && s.receives != [] { PostedTwo(s.queues, s.receives[0].op, e.send.op); }
    if e.ReceiveAsync? && s.sends != [] { PostedTwo(s.queues, s.sends[0].op, e.receive.op); }
  }

  lemma PostedTwo(queues: Queues, x: Operation, y: Operation)
    ensures PostedAll(queues, [x, y]) == Posted(Posted(queues, x), y)
  {
    PostedOne(queues, x);
    assert [x, y][..1] == [x];
  }

  lemma TransfersMove(r: Record, e: Event, op: Operation)
    ensures multiset(Sent(Extend(r, e).transfers))[op] == multiset(Sent(r.transfers))[op] + One(Sends(r.state, e, op))
    ensures multiset(Received(Extend(r, e).transfers))[op]
         == multiset(Received(r.transfers))[op] + One(Receives(r.state, e, op))
  {
    var done := Completed(r.state, e);
    if done.Some? {
      TransferAppended(r.transfers, Transferred(done.value.0, done.value.1), op);
    }
  }

  lemma TransferAppended(list: seq<Transfer>, t: Transfer, op: Operation)
    ensures multiset(Sent(list + [t]))[op] == multiset(Sent(list))[op] + One(t.send.op == op)
    ensures multiset(Received(list + [t]))[op] == multiset(Received(list))[op] + One(t.receive.op == op)
  {
    assert Sent(list + [t]) == Sent(list) + [t.send.op];
    assert Received(list + [t]) == Received(list) + [t.receive.op];
  }

  /** In every run, for every operation: sends and receives balance, both operations of every
      transfer are notified, and every notification is queued, delivered or revoked. */
  lemma {:induction false} RunBalances(events: seq<Event>, op: Operation)
    ensures var r, a := Run(events), Tally(events);
      && SendsBalance(r, a, op) && ReceivesBalance(r, a, op) && NoticesBalance(r, a, op)
      && QueuesHome(r.state.queues) && Balanced(LedgerOf(a), op)
  {
    if events != [] {
      var before, e := events[..|events| - 1], events[|events| - 1];
      RunBalances(before, op);
      RunPairs(before);
      StepBalances(Run(before), Tally(before), e, op);
    }
    BookBalances(Tally(events).traffic, op);
  }

  lemma StepBalances(r: Record, a: Account, e: Event, op: Operation)
    requires Ok(r.state) && SendsBalance(r, a, op) && ReceivesBalance(r, a, op) && NoticesBalance(r, a, op)
    ensures var t, b := Extend(r, e), Entry(a, r.state, e);
      SendsBalance(t, b, op) && ReceivesBalance(t, b, op) && NoticesBalance(t, b, op)
  {
    SendsMove(r.state, e, op);
    ReceivesMove(r.state, e, op);
    TransfersMove(r, e, op);
    AccountMoves(a, r.state, e, op);
    StepIsTraffic(r.state, e, op);
    BookNext(a.traffic, TrafficOf(r.state, e));
    LedgerMoves(LedgerOf(a), TrafficOf(r.state, e), op);
  }

  lemma AccountMoves(a: Account, s: State, e: Event, op: Operation)
    ensures var b := Entry(a, s, e);
      && b.sends[op] == a.sends[op] + One(e.SendAsync? && e.send.op == op)
      && b.receives[op] == a.receives[op] + One(e.ReceiveAsync? && e.receive.op == op)
      && b.withdrawnSends[op] == a.withdrawnSends[op] + One(e.Cancel? && e.op == op && op in SendOps(s.sends))
      && b.withdrawnReceives[op]
         == a.withdrawnReceives[op] + One(e.Cancel? && e.op == op && op in ReceiveOps(s.receives))
  {
    if e.Cancel? {
      AddedTo(a.withdrawnSends, e.op in SendOps(s.sends), e.op, op);
      AddedTo(a.withdrawnReceives, e.op in ReceiveOps(s.receives), e.op, op);
    }
  }

  lemma AddedTo(bag: multiset<Operation>, b: bool, x: Operation, op: Operation)
    ensures (bag + OnlyIf(b, x))[op] == bag[op] + One(b && x == op)
  {
  }

  /** A send issued once is pending, withdrawn or in one transfer, and never two of these. */
  lemma SendIsInOnePlace(events: seq<Event>, op: Operation)
    requires Tally(events).sends[op] == 1
    ensures var r, a := Run(events), Tally(events);
      One(op in SendOps(r.state.sends)) + One(op in a.withdrawnSends) + One(op in Sent(r.transfers)) == 1
    ensures multiset(Sent(Run(events).transfers))[op] <= 1
  {
    RunBalances(events, op);
  }

  lemma ReceiveIsInOnePlace(events: seq<Event>, op: Operation)
    requires Tally(events).receives[op] == 1
    ensures var r, a := Run(events), Tally(events);
      One(op in ReceiveOps(r.state.receives)) + One(op in a.withdrawnReceives) + One(op in Received(r.transfers)) == 1
    ensures multiset(Received(Run(events).transfers))[op] <= 1
  {
    RunBalances(events, op);
  }

  /** An operation issued once is notified exactly when it is in a transfer, and then once: the
      notification is queued, delivered or revoked. */
  lemma NotifiedOnce(events: seq<Event>, op: Operation)
    requires Tally(events).sends[op] + Tally(events).receives[op] == 1
    ensures var r, l := Run(events), LedgerOf(Tally(events));
      multiset(Queue(r.state.queues, op.controller))[op] + l.delivered[op] + l.revoked[op]
      == One(op in Sent(r.transfers) || op in Received(r.transfers))
  {
    RunBalances(events, op);
  }

  lemma TallyLast(events: seq<Event>, e: Event)
    ensures Tally(events + [e]) == Entry(Tally(events), Run(events).state, e)
    ensures Run(events + [e]) == Extend(Run(events), e)
  {
    assert (events + [e])[..|events|] == events;
  }

  lemma WithdrawnStep(events: seq<Event>, e: Event, op: Operation)
    ensures Grown(events, events + [e], op)
  {
    TallyLast(events, e);
    AccountMoves(Tally(events), Run(events).state, e, op);
    TransfersMove(Run(events), e, op);
  }

  /** Once withdrawn or transferred, always. */
  ghost predicate Grown(events: seq<Event>, later: seq<Event>, op: Operation) {
    && Tally(events).withdrawnSends[op] <= Tally(later).withdrawnSends[op]
    && Tally(events).withdrawnReceives[op] <= Tally(later).withdrawnReceives[op]
    && multiset(Sent(Run(events).transfers))[op] <= multiset(Sent(Run(later).transfers))[op]
    && multiset(Received(Run(events).transfers))[op] <= multiset(Received(Run(later).transfers))[op]
  }

  lemma SettledForGood(events: seq<Event>, more: seq<Event>, op: Operation)
    ensures Grown(events, events + more, op)
  {
    var inv := p => Grown(events, p, op);
    var may := (e: Event) => true;
    forall p, e
      ensures KeepsAt(inv, may, p, e)
    {
      WithdrawnStep(p, e, op);
    }
    KeepsOverRun(inv, may, events, more);
  }

  /** A cancel takes a message back as a whole: a send or receive that was withdrawn is in no
      transfer, then or later, and is never notified. */
  lemma WithdrawnForGood(events: seq<Event>, more: seq<Event>, op: Operation)
    requires var a := Tally(events + more); a.sends[op] + a.receives[op] == 1
    requires op in Tally(events).withdrawnSends || op in Tally(events).withdrawnReceives
    ensures var r, a := Run(events + more), Tally(events + more);
      && op !in Sent(r.transfers) && op !in Received(r.transfers)
      && op !in SendOps(r.state.sends) && op !in ReceiveOps(r.state.receives)
      && op !in Queue(r.state.queues, op.controller) && op !in LedgerOf(a).delivered
  {
    SettledForGood(events, more, op);
    RunBalances(events + more, op);
  }

  /** After a cancel of a send issued before, nothing changes any more: whatever happens later,
      its message is transferred exactly when it had been transferred at the time of the cancel. */
  lemma CancelSettlesSend(events: seq<Event>, c: Controller, more: seq<Event>, op: Operation)
    requires Tally(events).sends[op] == 1
    requires var a := Tally(events + [Cancel(c, op)] + more); a.sends[op] + a.receives[op] == 1
    ensures op in Sent(Run(events + [Cancel(c, op)] + more).transfers) <==> op in Sent(Run(events).transfers)
  {
    var cancelled := events + [Cancel(c, op)];
    CancelMoves(events, c, op);
    SendIsInOnePlace(events, op);
    SettledForGood(cancelled, more, op);
    if op !in Sent(Run(events).transfers) {
      WithdrawnForGood(cancelled, more, op);
    }
  }

  lemma CancelSettlesReceive(events: seq<Event>, c: Controller, more: seq<Event>, op: Operation)
    requires Tally(events).receives[op] == 1
    requires var a := Tally(events + [Cancel(c, op)] + more); a.sends[op] + a.receives[op] == 1
    ensures op in Received(Run(events + [Cancel(c, op)] + more).transfers) <==> op in Received(Run(events).transfers)
  {
    var cancelled := events + [Cancel(c, op)];
    CancelMoves(events, c, op);
    ReceiveIsInOnePlace(events, op);
    SettledForGood(cancelled, more, op);
    if op !in Received(Run(events).transfers) {
      WithdrawnForGood(cancelled, more, op);
    }
  }

  /** What a cancel does by itself. */
  lemma CancelMoves(events: seq<Event>, c: Controller, op: Operation)
    ensures var r, t := Run(events), Run(events + [Cancel(c, op)]);
      var a, b := Tally(events), Tally(events + [Cancel(c, op)]);
      && t.transfers == r.transfers && b.sends == a.sends && b.receives == a.receives
      && b.withdrawnSends[op] == a.withdrawnSends[op] + One(op in SendOps(r.state.sends))
      && b.withdrawnReceives[op] == a.withdrawnReceives[op] + One(op in ReceiveOps(r.state.receives))
  {
    TallyLast(events, Cancel(c, op));
    AccountMoves(Tally(events), Run(events).state, Cancel(c, op), op);
  }

  /** A cancel after the transfer: the sender is told that it failed, and the receiver has the
      message. */
  lemma CancelAfterTransfer(tx: Send, rx: Receive)
    requires tx.op != rx.op
    ensures var events := [SendAsync(tx), ReceiveAsync(rx), Cancel(tx.op.controller, tx.op)];
      && Run(events).transfers == [Transferred(tx, rx)]
      && tx.op !in Queue(Run(events).state.queues, tx.op.controller)
      && rx.op in Queue(Run(events).state.queues, rx.op.controller)
  {
    var pair, last := [SendAsync(tx), ReceiveAsync(rx)], Cancel(tx.op.controller, tx.op);
    PairRuns(tx, rx);
    assert [SendAsync(tx), ReceiveAsync(rx), last] == pair + [last];
    TallyLast(pair, last);
    CancelAfterPair(tx.op, rx.op);
  }

  lemma PairRuns(tx: Send, rx: Receive)
    ensures var r := Run([SendAsync(tx), ReceiveAsync(rx)]);
      && r.transfers == [Transferred(tx, rx)]
      && r.state == State([], [], Posted(Posted(map[], tx.op), rx.op))
  {
    var e1, e2 := SendAsync(tx), ReceiveAsync(rx);
    assert [e1] == [] + [e1] && [e1, e2] == [e1] + [e2];
    TallyLast([], e1);
    TallyLast([e1], e2);
  }

  /** One of two posted operations is withdrawn. */
  lemma CancelAfterPair(x: Operation, y: Operation)
    requires x != y
    ensures var queues := Posted(Posted(map[], x), y);
      var after := queues[x.controller := Without(Queue(queues, x.controller), x)];
      x !in Queue(after, x.controller) && y in Queue(after, y.controller)
  {
    var queues := Posted(Posted(map[], x), y);
    PostedTwo(map[], x, y);
    PostedQueue(map[], [x, y], x.controller);
    PostedQueue(map[], [x, y], y.controller);
    OneOfTwo(x, y);
    WithoutSome(Queue(queues, x.controller), x, y);
  }

  lemma OneOfTwo(x: Operation, y: Operation)
    requires x != y
    ensures x !in Without(Of([x, y], x.controller), x) && y in Of([x, y], y.controller)
    ensures Of([x, y], x.controller)[0] == x
  {
    assert [x, y][1..] == [y] && [y][1..] == [];
    assert Of([y], x.controller) == if y.controller == x.controller then [y] else [];
    assert Of([y], y.controller) == [y];
  }
}
