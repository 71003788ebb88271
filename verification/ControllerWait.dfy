/** The two wait functions of a controller: loops that look for a completed operation, sleep
    while others work, and keep track of the time that is left. */
module ControllerWaits {
  import opened Wrappers
  import opened Bytes
  import opened Ticks
  import opened Operations

  /** What happens while a controller sleeps: operations are completed, and time passes. */
  datatype Round = Round(posted: seq<Operation>, time: nat)

  datatype Answer = Got(op: Operation) | TimedOut | StillWaiting

  /** The queues and the time after k rounds. */
  function QueuesAt(queues: Queues, rounds: seq<Round>, k: nat): Queues
    requires k <= |rounds|
  {
    if k == 0 then queues else PostedAll(QueuesAt(queues, rounds, k - 1), rounds[k - 1].posted)
  }

  function TimeAt(start: nat, rounds: seq<Round>, k: nat): nat
    requires k <= |rounds|
  {
    if k == 0 then start else rounds[k - 1].time
  }

  /** Time does not run backwards, and no round takes a whole turn of the tick counter. */
  ghost predicate Lawful(start: nat, rounds: seq<Round>) {
    forall k :: 0 <= k < |rounds| ==> TimeAt(start, rounds, k) <= rounds[k].time < TimeAt(start, rounds, k) + WRAP
  }

  /** The time is over, counted without wrap-around from the start of the wait. */
  predicate Expired(timeout: uint32, start: nat, rounds: seq<Round>, k: nat)
    requires k <= |rounds|
  {
    0 < k && timeout != INFINITE && TimeAt(start, rounds, k) >= start + timeout
  }

  /** What is left of the timeout after k rounds. */
  ghost predicate Left(left: uint32, timeout: uint32, start: nat, rounds: seq<Round>, k: nat)
    requires k <= |rounds|
  {
    && TimeAt(start, rounds, k) >= start && !Expired(timeout, start, rounds, k)
    && (if timeout == INFINITE then left == INFINITE else left + (TimeAt(start, rounds, k) - start) == timeout)
  }

  /** The end of a round: counts the elapsed ticks, and says whether to give up. */
  method Elapse(left: uint32, ticks: uint32, time: nat, ghost timeout: uint32, ghost start: nat,
                ghost rounds: seq<Round>, ghost k: nat)
    returns (left': uint32, ticks': uint32, over: bool)
    requires Lawful(start, rounds) && k < |rounds| && time == rounds[k].time
    requires Left(left, timeout, start, rounds, k) && (timeout == INFINITE || ticks == TimeAt(start, rounds, k) % WRAP)
    ensures over == Expired(timeout, start, rounds, k + 1)
    ensures !over ==> Left(left', timeout, start, rounds, k + 1)
    ensures !over ==> timeout == INFINITE || ticks' == TimeAt(start, rounds, k + 1) % WRAP
  {
    left', ticks', over := left, ticks, false;
    if left != INFINITE {
      var now := time % WRAP;
      var elapsed := Minus(now, ticks);
      MinusIs(time, TimeAt(start, rounds, k));
      if elapsed < left {
        ticks', left' := now, left - elapsed;
      } else {
        over := true;
      }
    }
  }

  /** Other threads complete operations during a sleep. */
  method Sleep(ctl: Controllers, posted: seq<Operation>)
    modifies ctl
    ensures ctl.queues == PostedAll(old(ctl.queues), posted)
  {
    var i := 0;
    while i < |posted|
      invariant 0 <= i <= |posted| && ctl.queues == PostedAll(old(ctl.queues), posted[..i])
    {
      ctl.Post(posted[i]);
      assert posted[..i + 1][..i] == posted[..i];
      i := i + 1;
    }
    assert posted[..i] == posted;
  }

  /** One round: sleep, then count the time. */
  method Rest(ctl: Controllers, left: uint32, ticks: uint32, ghost timeout: uint32, ghost start: nat,
              rounds: seq<Round>, k: nat, ghost queues: Queues)
    returns (left': uint32, ticks': uint32, over: bool)
    requires Lawful(start, rounds) && k < |rounds| && ctl.queues == QueuesAt(queues, rounds, k)
    requires Left(left, timeout, start, rounds, k) && (timeout == INFINITE || ticks == TimeAt(start, rounds, k) % WRAP)
    modifies ctl
    ensures ctl.queues == QueuesAt(queues, rounds, k + 1)
    ensures over == Expired(timeout, start, rounds, k + 1)
    ensures !over ==> Left(left', timeout, start, rounds, k + 1)
    ensures !over ==> timeout == INFINITE || ticks' == TimeAt(start, rounds, k + 1) % WRAP
  {
    Sleep(ctl, rounds[k].posted);
    left', ticks', over := Elapse(left, ticks, rounds[k].time, timeout, start, rounds, k);
  }

  /** The look after j rounds finds nothing, and the time is not over. */
  ghost predicate Quiet(queues: Queues, c: Controller, timeout: uint32, start: nat, rounds: seq<Round>, j: nat)
    requires j <= |rounds|
  {
    Queue(QueuesAt(queues, rounds, j), c) == [] && !Expired(timeout, start, rounds, j)
  }

  /** What an answer after k rounds means for the queues.  A timeout misses exactly the operations
      that were completed in the last round. */
  ghost predicate IsAnswer(r: Answer, k: nat, now: Queues, queues: Queues, c: Controller, timeout: uint32, start: nat,
                           rounds: seq<Round>)
    requires k <= |rounds|
  {
    var q := QueuesAt(queues, rounds, k);
    match r
    case Got(op) =>
      && !Expired(timeout, start, rounds, k) && Queue(q, c) != [] && op == Queue(q, c)[0]
      && now == q[c := Queue(q, c)[1..]]
    case TimedOut => Expired(timeout, start, rounds, k) && now == q && Queue(now, c) == Of(rounds[k - 1].posted, c)
    case StillWaiting => k == |rounds| && Quiet(queues, c, timeout, start, rounds, k) && now == q
  }

  /** One look, and one round of sleep if it finds nothing. */
  method LookAny(ctl: Controllers, c: Controller, left: uint32, ticks: uint32, ghost timeout: uint32, ghost start: nat,
                 rounds: seq<Round>, k: nat, ghost queues: Queues)
    returns (r: Option<Answer>, left': uint32, ticks': uint32, k': nat)
    requires Lawful(start, rounds) && k <= |rounds| && ctl.queues == QueuesAt(queues, rounds, k)
    requires Left(left, timeout, start, rounds, k) && (timeout == INFINITE || ticks == TimeAt(start, rounds, k) % WRAP)
    modifies ctl
    ensures k <= k' <= |rounds| && k' <= k + 1 && (k < k' ==> Quiet(queues, c, timeout, start, rounds, k))
    ensures r.Some? ==> IsAnswer(r.value, k', ctl.queues, queues, c, timeout, start, rounds)
    ensures r.None? ==>
      && k' == k + 1 && ctl.queues == QueuesAt(queues, rounds, k') && Left(left', timeout, start, rounds, k')
      && (timeout == INFINITE || ticks' == TimeAt(start, rounds, k') % WRAP)
  {
    left', ticks', k' := left, ticks, k;
    if Queue(ctl.queues, c) != [] {
      var op := ctl.Poll(c);
      r := Some(Got(op.value));
    } else if k == |rounds| {
      r := Some(StillWaiting);
    } else {
      var over;
      left', ticks', over := Rest(ctl, left, ticks, timeout, start, rounds, k, queues);
      k' := k + 1;
      MissedAll(queues, rounds, k', c);
      r := if over then Some(TimedOut) else None;
    }
  }

  /** Waits for any operation: takes the first one there is at the first look that finds one, and
      gives up exactly at the end of the first round after which the time is over. */
  method WaitAny(ctl: Controllers, c: Controller, timeout: uint32, start: nat, rounds: seq<Round>)
    returns (r: Answer, k: nat)
    requires Lawful(start, rounds)
    modifies ctl
    ensures k <= |rounds| && IsAnswer(r, k, ctl.queues, old(ctl.queues), c, timeout, start, rounds)
    ensures forall j {:trigger Quiet(old(ctl.queues), c, timeout, start, rounds, j)} ::
      0 <= j < k ==> Quiet(old(ctl.queues), c, timeout, start, rounds, j)
  {
    ghost var queues := ctl.queues;
    Wrapped(start);
    var left: uint32, ticks: uint32 := timeout, start % WRAP;
    var answer: Option<Answer> := None;
    k := 0;
    while answer.None?
      invariant k <= |rounds|
      invariant forall j {:trigger Quiet(queues, c, timeout, start, rounds, j)} ::
        0 <= j < k ==> Quiet(queues, c, timeout, start, rounds, j)
      invariant answer.Some? ==> IsAnswer(answer.value, k, ctl.queues, queues, c, timeout, start, rounds)
      invariant answer.None? ==> ctl.queues == QueuesAt(queues, rounds, k) && Left(left, timeout, start, rounds, k)
      invariant answer.None? ==> timeout == INFINITE || ticks == TimeAt(start, rounds, k) % WRAP
      decreases |rounds| - k, answer.None?
    {
      answer, left, ticks, k := LookAny(ctl, c, left, ticks, timeout, start, rounds, k, queues);
    }
    r := answer.value;
  }

  /** The same for a particular operation. */
  ghost predicate QuietFor(queues: Queues, c: Controller, op: Operation, timeout: uint32, start: nat,
                           rounds: seq<Round>, j: nat)
    requires j <= |rounds|
  {
    op !in Queue(QueuesAt(queues, rounds, j), c) && !Expired(timeout, start, rounds, j)
  }

  ghost predicate IsAnswerFor(r: Answer, k: nat, now: Queues, queues: Queues, c: Controller, op: Operation,
                              timeout: uint32, start: nat, rounds: seq<Round>)
    requires k <= |rounds|
  {
    var q := QueuesAt(queues, rounds, k);
    match r
    case Got(x) =>
      && x == op && !Expired(timeout, start, rounds, k) && op in Queue(q, c)
      && now == q[c := Without(Queue(q, c), op)]
    case TimedOut =>
      && Expired(timeout, start, rounds, k) && now == q
      && (op in Queue(now, c) <==> op in rounds[k - 1].posted && op.controller == c)
    case StillWaiting => k == |rounds| && QuietFor(queues, c, op, timeout, start, rounds, k) && now == q
  }

  method LookFor(ctl: Controllers, c: Controller, op: Operation, left: uint32, ticks: uint32, ghost timeout: uint32,
                 ghost start: nat, rounds: seq<Round>, k: nat, ghost queues: Queues)
    returns (r: Option<Answer>, left': uint32, ticks': uint32, k': nat)
    requires Lawful(start, rounds) && k <= |rounds| && ctl.queues == QueuesAt(queues, rounds, k)
    requires Left(left, timeout, start, rounds, k) && (timeout == INFINITE || ticks == TimeAt(start, rounds, k) % WRAP)
    modifies ctl
    ensures k <= k' <= |rounds| && k' <= k + 1 && (k < k' ==> QuietFor(queues, c, op, timeout, start, rounds, k))
    ensures r.Some? ==> IsAnswerFor(r.value, k', ctl.queues, queues, c, op, timeout, start, rounds)
    ensures r.None? ==>
      && k' == k + 1 && ctl.queues == QueuesAt(queues, rounds, k') && Left(left', timeout, start, rounds, k')
      && (timeout == INFINITE || ticks' == TimeAt(start, rounds, k') % WRAP)
  {
    left', ticks', k' := left, ticks, k;
    if op in Queue(ctl.queues, c) {
      var _ := ctl.PollFor(c, op);
      r := Some(Got(op));
    } else if k == |rounds| {
      r := Some(StillWaiting);
    } else {
      var over;
      left', ticks', over := Rest(ctl, left, ticks, timeout, start, rounds, k, queues);
      k' := k + 1;
      MissedExactly(queues, rounds, k', c, op);
      r := if over then Some(TimedOut) else None;
    }
  }

  method WaitFor(ctl: Controllers, c: Controller, op: Operation, timeout: uint32, start: nat, rounds: seq<Round>)
    returns (r: Answer, k: nat)
    requires Lawful(start, rounds)
    modifies ctl
    ensures k <= |rounds| && IsAnswerFor(r, k, ctl.queues, old(ctl.queues), c, op, timeout, start, rounds)
    ensures forall j {:trigger QuietFor(old(ctl.queues), c, op, timeout, start, rounds, j)} ::
      0 <= j < k ==> QuietFor(old(ctl.queues), c, op, timeout, start, rounds, j)
  {
    ghost var queues := ctl.queues;
    Wrapped(start);
    var left: uint32, ticks: uint32 := timeout, start % WRAP;
    var answer: Option<Answer> := None;
    k := 0;
    while answer.None?
      invariant k <= |rounds|
      invariant forall j {:trigger QuietFor(queues, c, op, timeout, start, rounds, j)} ::
        0 <= j < k ==> QuietFor(queues, c, op, timeout, start, rounds, j)
      invariant answer.Some? ==> IsAnswerFor(answer.value, k, ctl.queues, queues, c, op, timeout, start, rounds)
      invariant answer.None? ==> ctl.queues == QueuesAt(queues, rounds, k) && Left(left, timeout, start, rounds, k)
      invariant answer.None? ==> timeout == INFINITE || ticks == TimeAt(start, rounds, k) % WRAP
      decreases |rounds| - k, answer.None?
    {
      answer, left, ticks, k := LookFor(ctl, c, op, left, ticks, timeout, start, rounds, k, queues);
    }
    r := answer.value;
  }

  /** After a timeout the controller does not look again: what it misses is exactly what was
      completed for it in the last round. */
  lemma MissedAll(queues: Queues, rounds: seq<Round>, k: nat, c: Controller)
    requires 0 < k <= |rounds| && Queue(QueuesAt(queues, rounds, k - 1), c) == []
    ensures Queue(QueuesAt(queues, rounds, k), c) == Of(rounds[k - 1].posted, c)
  {
    PostedQueue(QueuesAt(queues, rounds, k - 1), rounds[k - 1].posted, c);
  }

  lemma MissedExactly(queues: Queues, rounds: seq<Round>, k: nat, c: Controller, op: Operation)
    requires 0 < k <= |rounds| && op !in Queue(QueuesAt(queues, rounds, k - 1), c)
    ensures op in Queue(QueuesAt(queues, rounds, k), c) <==> op in rounds[k - 1].posted && op.controller == c
  {
    var posted := rounds[k - 1].posted;
    PostedQueue(QueuesAt(queues, rounds, k - 1), posted, c);
    OfCounts(posted, c);
    assert op in posted <==> op in multiset(posted);
    assert op in Of(posted, c) <==> op in multiset(Of(posted, c));
    assert op in NotOf(posted, c) <==> op in multiset(NotOf(posted, c));
  }

  /** A wait in which nothing is completed: it gives up when as many ticks as the timeout have
      passed, not one tick earlier, and never with an infinite timeout. */
  method GivesUpOnTime(c: Controller, timeout: uint32, start: nat) returns (late: Answer, early: Answer)
    ensures late == if timeout == 0xFFFF_FFFF then StillWaiting else TimedOut
    ensures early == if timeout == 0 then TimedOut else StillWaiting
  {
    var ctl := new Controllers();
    var atEnd, before := [Round([], start + timeout)], [Round([], start + Max(timeout - 1, 0))];
    assert QueuesAt(map[], atEnd, 0) == map[] && QueuesAt(map[], before, 0) == map[];
    assert QueuesAt(map[], atEnd, 1) == map[] && QueuesAt(map[], before, 1) == map[];
    var k;
    early, k := WaitAny(ctl, c, timeout, start, before);
    ctl := new Controllers();
    late, k := WaitAny(ctl, c, timeout, start, atEnd);
  }

  /** A wait of five ticks for an operation that is completed after ten: it fails, and the
      operation stands in the queue. */
  method CompletedTooLate(op: Operation) returns (r: Answer, missed: bool)
    ensures r == TimedOut && missed
  {
    var ctl := new Controllers();
    var rounds := [Round([op], 10)];
    assert QueuesAt(map[], rounds, 0) == map[];
    var k;
    r, k := WaitFor(ctl, op.controller, op, 5, 0, rounds);
    missed := op in Queue(ctl.queues, op.controller);
  }
}
