/** The asynchronous timer, whose tick counter wraps around at 32 bits, and the manager that
    sleeps until the next timer is due. */
module Timers {
  import opened Wrappers
  import opened Bytes
  import opened Ticks
  import opened Operations

  /** The part of a timer that has to do with time. */
  datatype Clock = Clock(interval: uint32, active: bool, cyclic: bool, lastCheck: uint32)

  function Fires(c: Clock, now: uint32): bool {
    c.active && Minus(now, c.lastCheck) >= c.interval
  }

  /** The clock after a possible firing, before a possible throttling. */
  function Advanced(c: Clock, now: uint32): Clock {
    if Fires(c, now) then c.(active := c.cyclic, lastCheck := Plus(c.lastCheck, c.interval)) else c
  }

  function Late(c: Clock, now: uint32): bool {
    c.active && Minus(now, Advanced(c, now).lastCheck) >= c.interval
  }

  function Ticked(c: Clock, now: uint32): Clock {
    if Late(c, now) then Advanced(c, now).(lastCheck := Plus(Minus(now, c.interval), 1)) else Advanced(c, now)
  }

  /** The delay returned. */
  function Delay(c: Clock, now: uint32): uint32 {
    if !c.active then INFINITE
    else if Late(c, now) then 1
    else Minus(c.interval, Minus(now, Advanced(c, now).lastCheck))
  }

  // The same on a time that does not wrap around.

  /** The time of the last check that the clock stands for. */
  ghost predicate Follows(c: Clock, last: nat) {
    c.interval >= 1 && c.lastCheck == last % WRAP
  }

  function AdvancedTo(c: Clock, last: nat, t: nat): nat {
    if c.active && t >= last + c.interval then last + c.interval else last
  }

  function CheckedAt(c: Clock, last: nat, t: nat): nat {
    var l := AdvancedTo(c, last, t);
    if c.active && t >= l + c.interval then t - c.interval + 1 else l
  }

  lemma AdvancedFollows(c: Clock, last: nat, t: nat)
    requires Follows(c, last) && last <= t < last + WRAP
    ensures Fires(c, t % WRAP) <==> c.active && t >= last + c.interval
    ensures Follows(Advanced(c, t % WRAP), AdvancedTo(c, last, t))
    ensures last <= AdvancedTo(c, last, t) <= t
  {
    MinusIs(t, last);
    PlusIs(last, c.interval);
  }

  /** An update of the clock does on the wrapped counter what it does on the real time: it
      fires when an interval has passed, and the delay it returns for a timer that stays
      active is exactly the time until the next firing. */
  lemma TickFollows(c: Clock, last: nat, t: nat)
    requires Follows(c, last) && last <= t < last + WRAP
    ensures var d := Ticked(c, t % WRAP); var l := CheckedAt(c, last, t);
      && Follows(d, l) && last <= l <= t
      && (Fires(c, t % WRAP) <==> c.active && t >= last + c.interval)
      && (Late(c, t % WRAP) <==> c.active && t >= last + c.interval + c.interval)
      && (Late(c, t % WRAP) ==> l == t - c.interval + 1 && Delay(c, t % WRAP) == 1)
      && (!Late(c, t % WRAP) ==> l == if Fires(c, t % WRAP) then last + c.interval else last)
      && (d.active ==> t < l + d.interval && Delay(c, t % WRAP) == l + d.interval - t)
      && (!c.active ==> Delay(c, t % WRAP) == INFINITE)
      && (d.active <==> c.active && (t >= last + c.interval ==> c.cyclic)) && d.cyclic == c.cyclic
  {
    AdvancedFollows(c, last, t);
    var a := AdvancedTo(c, last, t);
    MinusIs(t, a);
    if c.active && t >= a + c.interval {
      ThrottledTo(t, c.interval);
    } else if c.active {
      RemainderIs(c.interval, t - a);
    }
  }

  lemma RemainderIs(interval: uint32, elapsed: nat)
    requires elapsed < interval
    ensures Minus(interval, elapsed) == interval - elapsed
  {
    Wrapped(interval);
    Wrapped(elapsed);
    MinusIs(interval, elapsed);
  }

  lemma ThrottledTo(t: nat, interval: uint32)
    requires 1 <= interval <= t
    ensures Plus(Minus(t % WRAP, interval), 1) == (t - interval + 1) % WRAP
  {
    Wrapped(t);
    Wrapped(t - interval);
    Once(t % WRAP - interval, t / WRAP - (t - interval) / WRAP, (t - interval) % WRAP);
    PlusIs(t - interval, 1);
  }

  // Signals and the operations that wait for them.

  datatype Tokens = Tokens(signals: nat, waiters: seq<Operation>, queues: Queues)

  function Signalled(k: Tokens): Tokens {
    if k.waiters == [] then k.(signals := k.signals + 1)
    else Tokens(k.signals, k.waiters[1..], Posted(k.queues, k.waiters[0]))
  }

  function Awaited(k: Tokens, op: Operation): Tokens {
    if k.signals == 0 then k.(waiters := k.waiters + [op])
    else Tokens(k.signals - 1, k.waiters, Posted(k.queues, op))
  }

  function Cancelled(k: Tokens, c: Controller, op: Operation): Tokens {
    Tokens(k.signals, Without(k.waiters, op), k.queues[c := Without(Queue(k.queues, c), op)])
  }

  // Runs.  Times are given without wrap-around; the timer sees them modulo 2^32.

  datatype Event =
    | Start(interval: uint32, cyclic: bool, at: nat)
    | Stop
    | WaitAsync(op: Operation)
    | Cancel(caller: Controller, cancelled: Operation)
    | Update(time: nat)
    | Wait(controller: Controller)
    | WaitFor(waiting: Controller, wanted: Operation)

  /** A timer with its history: the real time now and of the last check; the interval, the
      time and the number of firings since the last start, and whether one was put off since;
      and the firings, grants and discarded signals of the whole run. */
  datatype Record = Record(
    clock: Clock, tokens: Tokens,
    now: nat, last: nat,
    interval: nat, started: nat, fired: nat, throttled: bool,
    total: nat, grants: nat, discarded: nat)

  const Idle := Record(Clock(0, false, false, 0), Tokens(0, [], map[]), 0, 0, 0, 0, 0, false, 0, 0, 0)

  /** Time does not run backwards, intervals are positive, and a running timer is updated
      before the tick counter has gone all the way round. */
  predicate Allowed(r: Record, e: Event) {
    match e
    case Start(interval, _, t) => interval >= 1 && t >= r.now
    case Update(t) => t >= r.now && (r.clock.active ==> t < r.last + WRAP)
    case _ => true
  }

  function Extend(r: Record, e: Event): Record {
    match e
    case Start(interval, cyclic, t) =>
      r.(clock := Clock(interval, true, cyclic, t % WRAP), now := t, last := t,
         interval := interval, started := t, fired := 0, throttled := false)
    case Stop =>
      r.(clock := Clock(0, false, false, r.clock.lastCheck), tokens := r.tokens.(signals := 0),
         discarded := r.discarded + r.tokens.signals)
    case WaitAsync(op) =>
      r.(tokens := Awaited(r.tokens, op), grants := r.grants + One(r.tokens.signals > 0))
    case Cancel(c, op) =>
      r.(tokens := Cancelled(r.tokens, c, op))
    case Update(t) =>
      var fires := Fires(r.clock, t % WRAP);
      r.(clock := Ticked(r.clock, t % WRAP), now := t, last := CheckedAt(r.clock, r.last, t),
         tokens := if fires then Signalled(r.tokens) else r.tokens,
         fired := r.fired + One(fires), total := r.total + One(fires),
         throttled := r.throttled || Late(r.clock, t % WRAP),
         grants := r.grants + One(fires && r.tokens.waiters != []))
    case Wait(c) =>
      r.(tokens := r.tokens.(queues := WithoutFront(r.tokens.queues, c)))
    case WaitFor(c, op) =>
      r.(tokens := r.tokens.(queues := r.tokens.queues[c := Without(Queue(r.tokens.queues, c), op)]))
  }

  function Run(events: seq<Event>): Record {
    if events == [] then Idle else Extend(Run(events[..|events| - 1]), events[|events| - 1])
  }

  ghost predicate Lawful(events: seq<Event>) {
    events == [] || (Lawful(events[..|events| - 1]) && Allowed(Run(events[..|events| - 1]), events[|events| - 1]))
  }

  /** The time of the last check never falls behind the firings. */
  ghost predicate OnTime(r: Record) {
    && (r.clock.active ==> Follows(r.clock, r.last) && r.clock.interval == r.interval)
    && r.started + r.fired * r.interval <= r.last <= r.now
    && (!r.throttled ==> r.last == r.started + r.fired * r.interval)
    && (r.clock.active && !r.clock.cyclic ==> r.fired == 0)
  }

  /** No signal is pending while somebody waits, and every firing is pending, granted or discarded. */
  ghost predicate Conserved(r: Record) {
    && (r.tokens.signals > 0 ==> r.tokens.waiters == [])
    && r.total == r.tokens.signals + r.grants + r.discarded
  }

  lemma UpdateKeepsTime(r: Record, t: nat)
    requires OnTime(r) && Allowed(r, Update(t))
    ensures OnTime(Extend(r, Update(t)))
  {
    if r.clock.active {
      TickFollows(r.clock, r.last, t);
      OneMore(r.fired, r.interval);
    }
  }

  lemma OneMore(n: nat, i: nat)
    ensures (n + 1) * i == n * i + i
  {
  }

  lemma StepConserves(r: Record, e: Event)
    requires Conserved(r)
    ensures Conserved(Extend(r, e))
  {
    if e.Cancel? { WithoutCounts(r.tokens.waiters, e.cancelled); }
  }

  lemma {:induction false} RunConserves(events: seq<Event>)
    ensures Conserved(Run(events))
  {
    if events != [] {
      RunConserves(events[..|events| - 1]);
      StepConserves(Run(events[..|events| - 1]), events[|events| - 1]);
    }
  }

  lemma {:induction false} RunKeeps(events: seq<Event>)
    requires Lawful(events)
    ensures OnTime(Run(events)) && Conserved(Run(events))
  {
    if events != [] {
      var before, e := events[..|events| - 1], events[|events| - 1];
      RunKeeps(before);
      StepConserves(Run(before), e);
      if e.Update? { UpdateKeepsTime(Run(before), e.time); }
    }
  }

  /** After k firings since the start, k intervals have passed. */
  lemma FiringsTakeTime(events: seq<Event>)
    requires Lawful(events)
    ensures var r := Run(events); r.fired * r.interval <= r.now - r.started
  {
    RunKeeps(events);
  }

  /** A one-shot timer fires once and is idle from then on; a cyclic timer keeps running. */
  lemma FiringEndsOneShot(events: seq<Event>, t: nat)
    requires Lawful(events + [Update(t)]) && Run(events).clock.active
    ensures var r, s := Run(events), Run(events + [Update(t)]);
      && (!r.clock.cyclic ==> r.fired == 0 && (s.fired == 1 <==> !s.clock.active))
      && (r.clock.cyclic ==> s.clock.active && s.clock.cyclic)
  {
    var all := events + [Update(t)];
    assert all[..|events|] == events;
    RunKeeps(events);
    TickFollows(Run(events).clock, Run(events).last, t);
  }

  /** A timer that is updated often enough is never put off, and has then fired exactly as
      often as whole intervals have passed. */
  lemma FiresExactly(events: seq<Event>, t: nat)
    requires Lawful(events + [Update(t)])
    requires var r := Run(events + [Update(t)]); r.clock.active && !r.throttled
    ensures var r := Run(events + [Update(t)]);
      r.fired * r.interval <= t - r.started < (r.fired + 1) * r.interval
  {
    var all := events + [Update(t)];
    RunKeeps(all);
    assert all[..|events|] == events;
    RunKeeps(events);
    var r := Run(events);
    TickFollows(r.clock, r.last, t);
    OneMore(Run(all).fired, r.interval);
  }

  /** The delay an update returns for a timer that stays active is the time to its next
      firing: an update before that does not fire, one from then on does. */
  lemma DelayIsExact(events: seq<Event>, t: nat, u: nat)
    requires Lawful(events + [Update(t)])
    requires Run(events + [Update(t)]).clock.active
    requires t <= u && Allowed(Run(events + [Update(t)]), Update(u))
    ensures Fires(Run(events + [Update(t)]).clock, u % WRAP) <==> u >= t + Delay(Run(events).clock, t % WRAP)
  {
    var all := events + [Update(t)];
    assert all[..|events|] == events;
    RunKeeps(events);
    RunKeeps(all);
    TickFollows(Run(events).clock, Run(events).last, t);
    TickFollows(Run(all).clock, Run(all).last, u);
  }

  class Timer {
    var interval: uint32
    var active: bool
    var cyclic: bool
    var lastCheck: uint32
    var signals: nat
    const waiters: OperationList
    const controllers: Controllers

    function Time(): Clock
      reads this
    {
      Clock(interval, active, cyclic, lastCheck)
    }

    function Pending(): Tokens
      reads this, waiters, controllers
    {
      Tokens(signals, waiters.list, controllers.queues)
    }

    function Snap(): Snapshot
      reads this, waiters
    {
      Snapshot(Time(), signals, waiters.list)
    }

    constructor (controllers: Controllers)
      ensures this.controllers == controllers && fresh(waiters)
      ensures Time() == Idle.clock && Pending() == Tokens(0, [], controllers.queues)
    {
      interval, active, cyclic, lastCheck, signals := 0, false, false, 0, 0;
      this.controllers := controllers;
      waiters := new OperationList();
    }

    method Start(interval: uint32, cyclic: bool, now: uint32)
      modifies this
      ensures Time() == Clock(interval, true, cyclic, now) && Pending() == old(Pending())
    {
      this.interval, active, this.cyclic, lastCheck := interval, true, cyclic, now;
    }

    method Stop()
      modifies this
      ensures Time() == Clock(0, false, false, old(lastCheck)) && Pending() == old(Pending()).(signals := 0)
    {
      interval, active, cyclic, signals := 0, false, false, 0;
    }

    method WaitAsync(op: Operation)
      modifies this`signals, waiters, controllers
      ensures Pending() == Awaited(old(Pending()), op)
    {
      if signals == 0 {
        waiters.PushBack(op);
      } else {
        signals := signals - 1;
        controllers.Post(op);
      }
    }

    method Cancel(c: Controller, op: Operation)
      modifies waiters, controllers
      ensures Pending() == Cancelled(old(Pending()), c, op)
    {
      var _ := waiters.Remove(op);
      controllers.RevertPost(c, op);
    }

    method Update(now: uint32) returns (delay: uint32)
      modifies this, waiters, controllers
      ensures Time() == Ticked(old(Time()), now) && delay == Delay(old(Time()), now)
      ensures Pending() == if Fires(old(Time()), now) then Signalled(old(Pending())) else old(Pending())
    {
      if !active {
        return INFINITE;
      }
      var elapsed := Minus(now, lastCheck);
      if elapsed >= interval {
        var op := waiters.ExtractFront();
        if op.Some? {
          controllers.Post(op.value);
        } else {
          signals := signals + 1;
        }
        active := cyclic;
        ElapsedAfter(now, lastCheck, interval);
        lastCheck := Plus(lastCheck, interval);
        elapsed := Minus(elapsed, interval);
      }
      if elapsed >= interval {
        lastCheck := Plus(Minus(now, interval), 1);
        return 1;
      } else {
        return Minus(interval, elapsed);
      }
    }
  }

  /** The timer and its controllers are in the state of a run. */
  ghost predicate InState(t: Timer, r: Record)
    reads t, t.waiters, t.controllers
  {
    t.Time() == r.clock && t.Pending() == r.tokens
  }

  /** Every event, performed on the objects, leads to the next state of the run.  The timer sees the
      time modulo 2^32. */
  method Perform(t: Timer, e: Event, ghost r: Record)
    requires InState(t, r)
    modifies t, t.waiters, t.controllers
    ensures InState(t, Extend(r, e))
  {
    match e {
      case Start(interval, cyclic, at) => t.Start(interval, cyclic, at % WRAP);
      case Stop => t.Stop();
      case WaitAsync(op) => t.WaitAsync(op);
      case Cancel(c, op) => t.Cancel(c, op);
      case Update(time) => var _ := t.Update(time % WRAP);
      case Wait(c) => var _ := t.controllers.Poll(c);
      case WaitFor(c, op) => var _ := t.controllers.PollFor(c, op);
    }
  }

  /** Every sequence of events on a new timer ends in the state of its run. */
  method Replay(events: seq<Event>) returns (t: Timer)
    ensures InState(t, Run(events))
  {
    var controllers := new Controllers();
    t := new Timer(controllers);
    var i := 0;
    while i < |events|
      invariant 0 <= i <= |events| && InState(t, Run(events[..i]))
      invariant fresh(t) && fresh(t.waiters) && fresh(t.controllers)
    {
      Perform(t, events[i], Run(events[..i]));
      RunNext(events, i);
      i := i + 1;
    }
    assert events[..i] == events;
  }

  lemma RunNext(events: seq<Event>, i: nat)
    requires i < |events|
    ensures Run(events[..i + 1]) == Extend(Run(events[..i]), events[i])
  {
    assert events[..i + 1][..i] == events[..i];
  }

  lemma ElapsedAfter(now: uint32, last: uint32, interval: uint32)
    ensures Minus(Minus(now, last), interval) == Minus(now, Plus(last, interval))
  {
    var d, e := (now - last) / WRAP, (last + interval) / WRAP;
    SameTick(Minus(now, last) - interval, now - Plus(last, interval), -d - e);
  }

  // All timers.

  /** A timer without the queues, which all timers share. */
  datatype Snapshot = Snapshot(clock: Clock, signals: nat, waiters: seq<Operation>)

  datatype Effect = Effect(next: Snapshot, delay: uint32, granted: seq<Operation>)

  /** What an update does: the new state, the delay, and the operation that is granted. */
  function Updated(x: Snapshot, now: uint32): Effect {
    var fires := Fires(x.clock, now);
    Effect(
      Snapshot(
        Ticked(x.clock, now),
        if fires && x.waiters == [] then x.signals + 1 else x.signals,
        if fires && x.waiters != [] then x.waiters[1..] else x.waiters),
      Delay(x.clock, now),
      if fires && x.waiters != [] then [x.waiters[0]] else [])
  }

  /** The grants of all timers, in the order of the timers. */
  function Grants(update: Snapshot -> Effect, all: seq<Snapshot>): seq<Operation> {
    if all == [] then [] else Grants(update, all[..|all| - 1]) + update(all[|all| - 1]).granted
  }

  lemma GrantsNext(update: Snapshot -> Effect, all: seq<Snapshot>, i: nat)
    requires i < |all|
    ensures Grants(update, all[..i + 1]) == Grants(update, all[..i]) + update(all[i]).granted
  {
    assert all[..i + 1][..i] == all[..i];
  }

  lemma {:induction false} PostedMore(queues: Queues, a: seq<Operation>, b: seq<Operation>)
    ensures PostedAll(PostedAll(queues, a), b) == PostedAll(queues, a + b)
    decreases |b|
  {
    if b == [] {
      assert a + b == a;
    } else {
      PostedMore(queues, a, b[..|b| - 1]);
      assert (a + b)[..|a + b| - 1] == a + b[..|b| - 1];
    }
  }

  /** The least delay of some timers; INFINITE when no delay is less. */
  ghost predicate IsLeast(update: Snapshot -> Effect, all: seq<Snapshot>, result: uint32) {
    && (forall i :: 0 <= i < |all| ==> result <= update(all[i]).delay)
    && (result == INFINITE || exists i :: 0 <= i < |all| && result == update(all[i]).delay)
  }

  lemma LeastNext(update: Snapshot -> Effect, all: seq<Snapshot>, k: nat, result: uint32)
    requires k < |all| && IsLeast(update, all[..k], result)
    ensures var n := update(all[k]).delay; IsLeast(update, all[..k + 1], if n < result then n else result)
  {
    var more := all[..k + 1];
    assert more[k] == all[k];
    if result != INFINITE {
      var i :| 0 <= i < k && result == update(all[..k][i]).delay;
      assert more[i] == all[i];
    }
  }

  ghost predicate IsUpdate(update: Snapshot -> Effect, now: uint32, x: Snapshot) {
    update(x) == Updated(x, now)
  }

  /** A function that is Updated at every point; what it does is looked up by IsUpdate. */
  ghost predicate Updates(update: Snapshot -> Effect, now: uint32) {
    forall x {:trigger IsUpdate(update, now, x)} :: IsUpdate(update, now, x)
  }

  /** Updates all timers and returns how long to sleep: until the first of them is due. */
  class Manager {
    var timers: seq<Timer>
    const controllers: Controllers

    /** Timers are distinct, each with a waiting list of its own, and share the controllers. */
    ghost predicate Valid()
      reads this
    {
      && (forall i, j :: 0 <= i < j < |timers| ==> timers[i] != timers[j] && timers[i].waiters != timers[j].waiters)
      && (forall i :: 0 <= i < |timers| ==> timers[i].controllers == controllers)
    }

    constructor (controllers: Controllers)
      ensures Valid() && timers == [] && this.controllers == controllers
    {
      timers := [];
      this.controllers := controllers;
    }

    method Add(t: Timer)
      requires Valid() && t.controllers == controllers
      requires forall i :: 0 <= i < |timers| ==> timers[i] != t && timers[i].waiters != t.waiters
      modifies this
      ensures Valid() && timers == old(timers) + [t]
    {
      timers := timers + [t];
    }

    ghost function All(): (r: seq<Snapshot>)
      reads this, timers, set t <- timers :: t.waiters
      ensures |r| == |timers| && forall i :: 0 <= i < |r| ==> r[i] == timers[i].Snap()
    {
      seq(|timers|, i requires 0 <= i < |timers| reads this, timers, set t <- timers :: t.waiters => timers[i].Snap())
    }

    /** One timer changes, the others do not. */
    method UpdateOne(i: nat, now: uint32, ghost update: Snapshot -> Effect) returns (n: uint32)
      requires Valid() && i < |timers| && Updates(update, now)
      modifies timers[i], timers[i].waiters, controllers
      ensures var e := update(old(timers[i].Snap()));
        && n == e.delay && timers[i].Snap() == e.next
        && controllers.queues == PostedAll(old(controllers.queues), e.granted)
      ensures forall j :: 0 <= j < |timers| && j != i ==> timers[j].Snap() == old(timers[j].Snap())
    {
      ghost var was := timers[i].Snap();
      assert IsUpdate(update, now, was);
      n := timers[i].Update(now);
      if was.waiters != [] { assert [was.waiters[0]][..0] == []; }
    }

    /** The first k of the timers are updated, the others are as they were; the grants of the
        first k are posted, and the result is the least of their delays. */
    ghost predicate UpdatedUpTo(update: Snapshot -> Effect, all: seq<Snapshot>, queues: Queues, k: nat, result: uint32)
      reads this, timers, set t <- timers :: t.waiters
      reads controllers
    {
      && k <= |timers| == |all|
      && controllers.queues == PostedAll(queues, Grants(update, all[..k]))
      && IsLeast(update, all[..k], result)
      && (forall j :: 0 <= j < k ==> timers[j].Snap() == update(all[j]).next)
      && (forall j :: k <= j < |timers| ==> timers[j].Snap() == all[j])
    }

    /** The loop: updates the timers in order and finds the least delay. */
    method UpdateAll(now: uint32, ghost update: Snapshot -> Effect, ghost all: seq<Snapshot>) returns (result: uint32)
      requires Valid() && Updates(update, now) && UpdatedUpTo(update, all, controllers.queues, 0, INFINITE)
      modifies timers, set t <- timers :: t.waiters, controllers
      ensures UpdatedUpTo(update, all, old(controllers.queues), |timers|, result)
    {
      result := INFINITE;
      var i := 0;
      while i < |timers|
        invariant 0 <= i <= |timers| && UpdatedUpTo(update, all, old(controllers.queues), i, result)
      {
        result := UpdateNext(i, now, result, update, all, old(controllers.queues));
        i := i + 1;
      }
    }

    /** One round of the loop. */
    method UpdateNext(i: nat, now: uint32, least: uint32, ghost update: Snapshot -> Effect, ghost all: seq<Snapshot>,
                      ghost queues: Queues)
      returns (result: uint32)
      requires Valid() && Updates(update, now) && i < |timers| && UpdatedUpTo(update, all, queues, i, least)
      modifies timers[i], timers[i].waiters, controllers
      ensures UpdatedUpTo(update, all, queues, i + 1, result)
    {
      var n := UpdateOne(i, now, update);
      GrantsNext(update, all, i);
      PostedMore(queues, Grants(update, all[..i]), update(all[i]).granted);
      LeastNext(update, all, i, least);
      result := if n < least then n else least;
    }

    /** Every timer is updated, the grants go out in the order of the timers, and the result is
        the least of the delays. */
    method Update(now: uint32) returns (result: uint32)
      requires Valid()
      modifies timers, set t <- timers :: t.waiters, controllers
      ensures forall i :: 0 <= i < |timers| ==> timers[i].Snap() == Updated(old(All())[i], now).next
      ensures controllers.queues == PostedAll(old(controllers.queues), Grants(x => Updated(x, now), old(All())))
      ensures forall i :: 0 <= i < |timers| ==> result <= Updated(old(All())[i], now).delay
      ensures result == INFINITE || exists i :: 0 <= i < |timers| && result == Updated(old(All())[i], now).delay
    {
      ghost var update: Snapshot -> Effect := x => Updated(x, now);
      assert Updates(update, now);
      ghost var all := All();
      assert All()[..0] == [];
      result := UpdateAll(now, update, all);
      assert all[..|all|] == all;
      assert forall i :: 0 <= i < |all| ==> update(all[i]) == Updated(all[i], now);
    }
  }
}
