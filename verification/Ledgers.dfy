/** The traffic through the queues of completed operations, whatever object it comes from: each
    posted operation is queued, delivered by its controller, or revoked by a cancel. */
module Ledgers {
  import opened Wrappers
  import opened Operations

  datatype Traffic =
    | Posting(ops: seq<Operation>)
    | Reverting(caller: Controller, op: Operation)
    | Taking(controller: Controller)
    | TakingOne(waiting: Controller, wanted: Operation)

  function After(queues: Queues, e: Traffic): Queues {
    match e
    case Posting(ops) => PostedAll(queues, ops)
    case Reverting(c, op) => queues[c := Without(Queue(queues, c), op)]
    case Taking(c) => WithoutFront(queues, c)
    case TakingOne(c, op) => queues[c := Without(Queue(queues, c), op)]
  }

  /** The operation a controller returns to its caller. */
  function Out(queues: Queues, e: Traffic): Option<Operation> {
    match e
    case Taking(c) => Front(queues, c)
    case TakingOne(c, op) => Found(queues, c, op)
    case _ => None
  }

  datatype Ledger = Ledger(
    queues: Queues,
    posted: multiset<Operation>,
    delivered: multiset<Operation>,
    revoked: multiset<Operation>)

  function Entered(l: Ledger, e: Traffic): Ledger {
    var out := Out(l.queues, e);
    Ledger(
      After(l.queues, e),
      if e.Posting? then l.posted + multiset(e.ops) else l.posted,
      if out.Some? then l.delivered + multiset{out.value} else l.delivered,
      if e.Reverting? then l.revoked + OnlyIf(e.op in Queue(l.queues, e.caller), e.op) else l.revoked)
  }

  function Book(events: seq<Traffic>): Ledger {
    if events == [] then Ledger(map[], multiset{}, multiset{}, multiset{})
    else Entered(Book(events[..|events| - 1]), events[|events| - 1])
  }

  lemma BookNext(events: seq<Traffic>, e: Traffic)
    ensures Book(events + [e]) == Entered(Book(events), e)
  {
    assert (events + [e])[..|events|] == events;
  }

  ghost predicate Balanced(l: Ledger, op: Operation) {
    l.posted[op] == multiset(Queue(l.queues, op.controller))[op] + l.delivered[op] + l.revoked[op]
  }

  lemma PostedCounts(queues: Queues, ops: seq<Operation>, op: Operation)
    ensures multiset(Queue(PostedAll(queues, ops), op.controller))[op]
         == multiset(Queue(queues, op.controller))[op] + multiset(ops)[op]
  {
    PostedQueue(queues, ops, op.controller);
    OfCounts(ops, op.controller);
    assert op !in NotOf(ops, op.controller);
  }

  /** What enters and leaves the queue of an operation's controller. */
  lemma QueueMoves(queues: Queues, e: Traffic, op: Operation)
    requires QueuesHome(queues)
    ensures multiset(Queue(After(queues, e), op.controller))[op] + One(Out(queues, e) == Some(op))
            + One(e.Reverting? && e.op == op && op in Queue(queues, e.caller))
         == multiset(Queue(queues, op.controller))[op] + if e.Posting? then multiset(e.ops)[op] else 0
  {
    match e {
      case Posting(ops) => PostedCounts(queues, ops, op);
      case Reverting(c, x) => QueueLoses(queues, c, x, op);
      case Taking(c) =>
        assert Queue(queues, c) != [] ==> Queue(queues, c)[0].controller == c;
        FrontLeaves(queues, c, op);
      case TakingOne(c, x) => QueueLoses(queues, c, x, op);
    }
  }

  lemma StaysHome(queues: Queues, e: Traffic)
    requires QueuesHome(queues)
    ensures QueuesHome(After(queues, e))
  {
    forall c, op | op in Queue(After(queues, e), c)
      ensures op.controller == c
    {
      match e {
        case Posting(ops) =>
          PostedQueue(queues, ops, c);
          OfCounts(ops, c);
        case Reverting(d, x) => WithoutSome(Queue(queues, d), x, op);
        case Taking(_) =>
        case TakingOne(d, x) => WithoutSome(Queue(queues, d), x, op);
      }
      assert op in Queue(queues, c) || (e.Posting? && op in Of(e.ops, c));
    }
  }

  lemma LedgerMoves(l: Ledger, e: Traffic, op: Operation)
    ensures var m := Entered(l, e);
      && m.posted[op] == l.posted[op] + (if e.Posting? then multiset(e.ops)[op] else 0)
      && m.delivered[op] == l.delivered[op] + One(Out(l.queues, e) == Some(op))
      && m.revoked[op] == l.revoked[op] + One(e.Reverting? && e.op == op && op in Queue(l.queues, e.caller))
  {
  }

  /** Whatever the traffic, every posted operation is queued, delivered or revoked. */
  lemma {:induction false} BookBalances(events: seq<Traffic>, op: Operation)
    ensures QueuesHome(Book(events).queues) && Balanced(Book(events), op)
  {
    if events != [] {
      var l, e := Book(events[..|events| - 1]), events[|events| - 1];
      BookBalances(events[..|events| - 1], op);
      StaysHome(l.queues, e);
      QueueMoves(l.queues, e, op);
      LedgerMoves(l, e, op);
    }
  }

  /** The operations in the queues. */
  ghost function Outstanding(l: Ledger): multiset<Operation> {
    l.posted - l.delivered - l.revoked
  }

  lemma BookTotals(events: seq<Traffic>)
    ensures var l := Book(events);
      && (forall op :: Outstanding(l)[op] == multiset(Queue(l.queues, op.controller))[op])
      && |l.posted| == |Outstanding(l)| + |l.delivered| + |l.revoked|
  {
    var l := Book(events);
    forall op
      ensures Outstanding(l)[op] == multiset(Queue(l.queues, op.controller))[op]
      ensures l.posted[op] == (Outstanding(l) + l.delivered + l.revoked)[op]
    {
      BookBalances(events, op);
    }
    assert l.posted == Outstanding(l) + l.delivered + l.revoked;
  }

  // What cancels take away.

  lemma RevokesUnless(l: Ledger, e: Traffic)
    ensures Entered(l, e).revoked == multiset{} <==>
      l.revoked == multiset{} && (e.Reverting? ==> e.op !in Queue(l.queues, e.caller))
  {
    if e.Reverting? && e.op in Queue(l.queues, e.caller) {
      assert e.op in Entered(l, e).revoked;
    }
  }
}
