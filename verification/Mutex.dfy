/** The asynchronous mutex: nested acquisition by one controller at a time, and hand-over to
    the controller that waits longest. */
module Mutexes {
  import opened Wrappers
  import opened Operations

  datatype State = State(owner: Option<Controller>, level: nat, waiters: seq<Operation>, queues: Queues)

  datatype Event =
    | WaitAsync(op: Operation)
    | Post(controller: Controller)
    | Cancel(caller: Controller, cancelled: Operation)
    | Wait(waiting: Controller)
    | WaitFor(expecting: Controller, wanted: Operation)

  const Initial := State(None, 0, [], map[])

  /** What every run keeps. */
  ghost predicate Ok(s: State) {
    && (s.owner == None <==> s.level == 0)
    && (s.owner == None ==> s.waiters == [])
    && forall op :: op in s.waiters ==> Some(op.controller) != s.owner
  }

  /** The operations an event grants, in order: of a hand-over, all operations of the
      controller that waits longest. */
  function Granted(s: State, e: Event): seq<Operation> {
    match e
    case WaitAsync(op) => if s.owner == None || s.owner == Some(op.controller) then [op] else []
    case Post(c) =>
      if s.owner == Some(c) && s.level == 1 && s.waiters != [] then Of(s.waiters, s.waiters[0].controller) else []
    case _ => []
  }

  /** A post counts as a release when it comes from the owner. */
  predicate Releases(s: State, e: Event) {
    e.Post? && s.owner == Some(e.controller)
  }

  function Next(s: State, e: Event): State {
    var queues := PostedAll(s.queues, Granted(s, e));
    match e
    case WaitAsync(op) =>
      if s.owner == Some(op.controller) then State(s.owner, s.level + 1, s.waiters, queues)
      else if s.owner == None then State(Some(op.controller), 1, s.waiters, queues)
      else State(s.owner, s.level, s.waiters + [op], queues)
    case Post(c) =>
      if s.owner != Some(c) || s.level == 0 then s
      else if s.level > 1 then State(s.owner, s.level - 1, s.waiters, queues)
      else if s.waiters == [] then State(None, 0, [], queues)
      else
        var owner := s.waiters[0].controller;
        State(Some(owner), |Of(s.waiters, owner)|, NotOf(s.waiters, owner), queues)
    case Cancel(c, op) => State(s.owner, s.level, Without(s.waiters, op), queues[c := Without(Queue(queues, c), op)])
    case Wait(c) => s.(queues := WithoutFront(s.queues, c))
    case WaitFor(c, op) => s.(queues := s.queues[c := Without(Queue(s.queues, c), op)])
  }

  // Runs, with a record of who was granted and who released.

  datatype Record = Record(state: State, grants: multiset<Controller>, releases: multiset<Controller>)

  function Controllers(ops: seq<Operation>): multiset<Controller> {
    if ops == [] then multiset{} else Controllers(ops[..|ops| - 1]) + multiset{ops[|ops| - 1].controller}
  }

  function Run(events: seq<Event>): Record {
    if events == [] then Record(Initial, multiset{}, multiset{})
    else
      var r := Run(events[..|events| - 1]);
      var e := events[|events| - 1];
      Record(Next(r.state, e),
             r.grants + Controllers(Granted(r.state, e)),
             if Releases(r.state, e) then r.releases + multiset{e.controller} else r.releases)
  }

  /** How often a controller holds the mutex. */
  function Holds(s: State, c: Controller): nat {
    if s.owner == Some(c) then s.level else 0
  }

  lemma StepKeepsOk(s: State, e: Event)
    requires Ok(s)
    ensures Ok(Next(s, e))
  {
    match e {
      case WaitAsync(op) =>
      case Post(c) =>
        if s.waiters != [] {
          OfCounts(s.waiters, s.waiters[0].controller);
        }
      case Cancel(_, op) =>
        forall x | x in Without(s.waiters, op)
          ensures x in s.waiters
        {
          WithoutSome(s.waiters, op, x);
        }
        WithoutCounts(s.waiters, op);
      case _ =>
    }
  }

  lemma {:induction false} ControllersOfOne(ops: seq<Operation>, c: Controller)
    requires forall x :: x in ops ==> x.controller == c
    ensures Controllers(ops)[c] == |ops| && forall d :: d != c ==> Controllers(ops)[d] == 0
  {
    if ops != [] {
      ControllersOfOne(ops[..|ops| - 1], c);
    }
  }

  /** Every step keeps the balance of grants, releases and holdings. */
  lemma StepBalances(s: State, e: Event, c: Controller)
    requires Ok(s)
    ensures Holds(Next(s, e), c) + (if Releases(s, e) && e.controller == c then 1 else 0)
         == Holds(s, c) + Controllers(Granted(s, e))[c]
  {
    match e {
      case WaitAsync(op) => ControllersOfOne(Granted(s, e), op.controller);
      case Post(d) => PostBalances(s, d, c);
      case _ =>
    }
  }

  lemma PostBalances(s: State, d: Controller, c: Controller)
    requires Ok(s)
    ensures Holds(Next(s, Post(d)), c) + One(s.owner == Some(d) && d == c)
         == Holds(s, c) + Controllers(Granted(s, Post(d)))[c]
  {
    if s.owner == Some(d) && s.level == 1 && s.waiters != [] {
      var heir := s.waiters[0].controller;
      OfCounts(s.waiters, heir);
      ControllersOfOne(Of(s.waiters, heir), heir);
      assert s.waiters[0] in s.waiters;
    }
  }

  /** In every run the invariant holds, and a controller's grants exceed its releases by
      exactly what it holds. */
  lemma {:induction false} RunBalances(events: seq<Event>, c: Controller)
    ensures Ok(Run(events).state)
    ensures Run(events).grants[c] == Run(events).releases[c] + Holds(Run(events).state, c)
  {
    if events != [] {
      var before, e := events[..|events| - 1], events[|events| - 1];
      RunBalances(before, c);
      StepKeepsOk(Run(before).state, e);
      StepBalances(Run(before).state, e, c);
    }
  }

  /** Mutual exclusion: at no time do two controllers have unreleased grants. */
  lemma MutualExclusion(events: seq<Event>, c: Controller, d: Controller)
    requires Run(events).grants[c] > Run(events).releases[c] && Run(events).grants[d] > Run(events).releases[d]
    ensures c == d
  {
    RunBalances(events, c);
    RunBalances(events, d);
  }

  /** The last release hands over to the longest waiter: it gets all its operations granted
      and nobody else does; the others keep their order. */
  lemma HandOver(s: State, c: Controller)
    requires Ok(s) && s.owner == Some(c) && s.level == 1 && s.waiters != []
    ensures var t := Next(s, Post(c)); var d := s.waiters[0].controller;
      && d != c && t.owner == Some(d)
      && t.level == |Granted(s, Post(c))| > 0 && Granted(s, Post(c))[0] == s.waiters[0]
      && Queue(t.queues, d) == Queue(s.queues, d) + Of(s.waiters, d)
      && t.waiters == NotOf(s.waiters, d) && |t.waiters| < |s.waiters|
      && forall x :: x != d ==> Queue(t.queues, x) == Queue(s.queues, x)
  {
    var d := s.waiters[0].controller;
    assert s.waiters[0] in s.waiters;
    OfCounts(s.waiters, d);
    forall x
      ensures Queue(Next(s, Post(c)).queues, x) == Queue(s.queues, x) + if x == d then Of(s.waiters, d) else []
    {
      PostedQueue(s.queues, Of(s.waiters, d), x);
      OfOnly(Of(s.waiters, d), d, x);
    }
    assert |multiset(s.waiters)| == |Of(s.waiters, d)| + |NotOf(s.waiters, d)|;
  }

  function Posts(c: Controller, n: nat): seq<Event> {
    seq(n, _ => Post(c))
  }

  function RunFrom(s: State, events: seq<Event>): State {
    if events == [] then s else Next(RunFrom(s, events[..|events| - 1]), events[|events| - 1])
  }

  /** No deadlock: after as many releases as its owner holds, the longest waiter owns the mutex. */
  lemma ReleasedInTheEnd(s: State, c: Controller)
    requires Ok(s) && s.owner == Some(c)
    ensures var t := RunFrom(s, Posts(c, s.level));
      t.owner == if s.waiters == [] then None else Some(s.waiters[0].controller)
  {
    NestedReleases(s, c, s.level - 1);
    var all := Posts(c, s.level);
    assert all[..s.level - 1] == Posts(c, s.level - 1);
  }

  lemma {:induction false} NestedReleases(s: State, c: Controller, n: nat)
    requires Ok(s) && s.owner == Some(c) && n < s.level
    ensures RunFrom(s, Posts(c, n)) == State(s.owner, s.level - n, s.waiters, s.queues)
    decreases n
  {
    if n > 0 {
      NestedReleases(s, c, n - 1);
      assert Posts(c, n)[..n - 1] == Posts(c, n - 1);
    }
  }

  /** An operation enters the waiters or is granted when issued, and leaves them by being
      granted or taken back. */
  lemma StepConserves(s: State, e: Event, op: Operation)
    ensures multiset(Next(s, e).waiters)[op] + multiset(Granted(s, e))[op]
            + One(e.Cancel? && e.cancelled == op && op in s.waiters)
         == multiset(s.waiters)[op] + One(e.WaitAsync? && e.op == op)
  {
    match e {
      case WaitAsync(_) =>
      case Post(_) => PostConserves(s, e);
      case Cancel(_, x) => WithoutCounts(s.waiters, x);
      case _ =>
    }
  }

  lemma PostConserves(s: State, e: Event)
    requires e.Post?
    ensures multiset(Next(s, e).waiters) + multiset(Granted(s, e)) == multiset(s.waiters)
  {
    if s.waiters != [] { OfCounts(s.waiters, s.waiters[0].controller); }
  }

  // Cancelling an operation that has been granted.

  /** What a controller has asked for and not given back: what it waits for and what it holds. */
  function Claims(s: State, c: Controller): nat {
    |Of(s.waiters, c)| + Holds(s, c)
  }

  lemma {:induction false} OfWithout(list: seq<Operation>, op: Operation, c: Controller)
    ensures |Of(Without(list, op), c)| + One(op in list && op.controller == c) == |Of(list, c)|
  {
    if list != [] && list[0] != op {
      OfWithout(list[1..], op, c);
      assert Without(list, op)[1..] == Without(list[1..], op);
    }
  }

  /** A cancel changes nobody's holdings.  It gives up a claim exactly when the operation is
      still waiting, and hides a grant exactly when the operation stands in the caller's queue. */
  lemma CancelReleasesExactly(s: State, c: Controller, op: Operation, d: Controller)
    ensures var t := Next(s, Cancel(c, op));
      && t.owner == s.owner && t.level == s.level && Holds(t, d) == Holds(s, d)
      && (Claims(t, d) < Claims(s, d) <==> op in s.waiters && op.controller == d)
      && (|Queue(t.queues, c)| < |Queue(s.queues, c)| <==> op in Queue(s.queues, c))
  {
    OfWithout(s.waiters, op, d);
    WithoutCounts(Queue(s.queues, c), op);
    assert |multiset(Queue(s.queues, c))| == |Queue(s.queues, c)|;
    var q := Without(Queue(s.queues, c), op);
    assert |multiset(q)| == |q|;
  }

  /** In every run a cancel leaves the balance of grants and releases as it is, so that a
      controller whose granted operation is cancelled has to release it all the same. */
  lemma CancelKeepsBalance(events: seq<Event>, c: Controller, op: Operation, d: Controller)
    ensures var r, t := Run(events), Run(events + [Cancel(c, op)]);
      && t.grants == r.grants && t.releases == r.releases
      && t.grants[d] == t.releases[d] + Holds(r.state, d)
  {
    var all := events + [Cancel(c, op)];
    assert all[..|events|] == events;
    RunBalances(events, d);
    assert Controllers([]) == multiset{};
  }

  /** A cancel after the grant leaves a mutex that nobody knows to own and others wait for. */
  lemma CancelAfterGrantKeepsOwner(op: Operation, other: Operation)
    requires other.controller != op.controller
    ensures var s := RunFrom(Initial, [WaitAsync(op), Cancel(op.controller, op), WaitAsync(other)]);
      && s.owner == Some(op.controller) && s.level == 1 && s.waiters == [other]
      && Queue(s.queues, op.controller) == []
  {
    var one, two := [WaitAsync(op)], [WaitAsync(op), Cancel(op.controller, op)];
    var three := two + [WaitAsync(other)];
    assert three == [WaitAsync(op), Cancel(op.controller, op), WaitAsync(other)];
    assert three[..2] == two && two[..1] == one && one[..0] == [];
    var s1 := RunFrom(Initial, one);
    assert s1 == Next(RunFrom(Initial, []), one[0]);
    PostedOne(map[], op);
    assert Queue(s1.queues, op.controller) == [op];
    assert Without([op], op) == [];
  }

  class Mutex {
    var owner: Option<Controller>
    var level: nat
    const waiters: OperationList
    const controllers: Operations.Controllers

    function Abstract(): State
      reads this, waiters, controllers
    {
      State(owner, level, waiters.list, controllers.queues)
    }

    ghost predicate Valid()
      reads this, waiters, controllers
    {
      Ok(Abstract())
    }

    constructor (controllers: Operations.Controllers)
      ensures Valid() && this.controllers == controllers && fresh(waiters)
      ensures Abstract() == Initial.(queues := controllers.queues)
    {
      owner, level := None, 0;
      this.controllers := controllers;
      waiters := new OperationList();
    }

    method WaitAsync(op: Operation)
      requires Valid()
      modifies this, waiters, controllers
      ensures Valid() && Abstract() == Next(old(Abstract()), Event.WaitAsync(op))
    {
      ghost var was := Abstract();
      StepKeepsOk(was, Event.WaitAsync(op));
      PostedOne(controllers.queues, op);
      if owner == Some(op.controller) {
        level := level + 1;
        controllers.Post(op);
      } else if owner == None {
        owner, level := Some(op.controller), 1;
        controllers.Post(op);
      } else {
        waiters.PushBack(op);
      }
    }

    /** Grants the remaining operations of a new owner. */
    method GrantNested(c: Controller)
      modifies this`level, waiters, controllers
      ensures level == old(level) + |Of(old(waiters.list), c)|
      ensures waiters.list == NotOf(old(waiters.list), c)
      ensures controllers.queues == PostedAll(old(controllers.queues), Of(old(waiters.list), c))
    {
      ghost var all := Of(waiters.list, c);
      ghost var done: seq<Operation> := [];
      var op2 := waiters.ExtractByController(c);
      while op2.Some?
        invariant level == old(level) + |done|
        invariant all == done + (if op2.Some? then [op2.value] else []) + Of(waiters.list, c)
        invariant op2.None? ==> Of(waiters.list, c) == []
        invariant NotOf(waiters.list, c) == NotOf(old(waiters.list), c)
        invariant controllers.queues == PostedAll(old(controllers.queues), done)
        decreases |waiters.list|, op2.Some?
      {
        level := level + 1;
        controllers.Post(op2.value);
        assert (done + [op2.value])[..|done|] == done;
        done := done + [op2.value];
        op2 := waiters.ExtractByController(c);
      }
      assert done == all;
      NoneLeft(waiters.list, c);
    }

    /** Transfers ownership to the longest waiter. */
    method TakeOver()
      requires waiters.list != []
      modifies this, waiters, controllers
      ensures var w := old(waiters.list); var d := w[0].controller;
        && owner == Some(d) && level == |Of(w, d)| && waiters.list == NotOf(w, d)
        && controllers.queues == PostedAll(old(controllers.queues), Of(w, d))
    {
      ghost var w := waiters.list;
      var op := waiters.ExtractFront();
      HeadFirst(w);
      owner, level := Some(op.value.controller), 1;
      controllers.Post(op.value);
      PostedInOrder(old(controllers.queues), op.value, Of(w[1..], op.value.controller));
      GrantNested(op.value.controller);
    }

    method Post(c: Controller)
      requires Valid()
      modifies this, waiters, controllers
      ensures Valid() && Abstract() == Next(old(Abstract()), Event.Post(c))
    {
      ghost var was := Abstract();
      StepKeepsOk(was, Event.Post(c));
      if owner == Some(c) {
        level := level - 1;
        if level == 0 {
          if waiters.list != [] {
            TakeOver();
          } else {
            owner := None;
          }
        }
      }
    }

    method Cancel(c: Controller, op: Operation)
      requires Valid()
      modifies waiters, controllers
      ensures Valid() && Abstract() == Next(old(Abstract()), Event.Cancel(c, op))
    {
      StepKeepsOk(Abstract(), Event.Cancel(c, op));
      var _ := waiters.Remove(op);
      controllers.RevertPost(c, op);
    }
  }

  /** Every event, performed on the objects, leads to the next state of the run. */
  method Perform(m: Mutex, e: Event)
    requires m.Valid()
    modifies m, m.waiters, m.controllers
    ensures m.Valid() && m.Abstract() == Next(old(m.Abstract()), e)
  {
    match e {
      case WaitAsync(op) => m.WaitAsync(op);
      case Post(c) => m.Post(c);
      case Cancel(c, op) => m.Cancel(c, op);
      case Wait(c) => var _ := m.controllers.Poll(c);
      case WaitFor(c, op) => var _ := m.controllers.PollFor(c, op);
    }
  }

  /** Every sequence of events on a new mutex ends in the state of its run. */
  method Replay(events: seq<Event>) returns (m: Mutex)
    ensures m.Valid() && m.Abstract() == Run(events).state
  {
    var controllers := new Operations.Controllers();
    m := new Mutex(controllers);
    var i := 0;
    while i < |events|
      invariant 0 <= i <= |events| && m.Valid() && m.Abstract() == Run(events[..i]).state
      invariant fresh(m) && fresh(m.waiters) && fresh(m.controllers)
    {
      Perform(m, events[i]);
      RunNext(events, i);
      i := i + 1;
    }
    assert events[..i] == events;
  }

  lemma RunNext(events: seq<Event>, i: nat)
    requires i < |events|
    ensures Run(events[..i + 1]).state == Next(Run(events[..i]).state, events[i])
  {
    assert events[..i + 1][..i] == events[..i];
  }

  lemma {:induction false} NoneLeft(list: seq<Operation>, c: Controller)
    requires Of(list, c) == []
    ensures NotOf(list, c) == list
  {
    if list != [] { NoneLeft(list[1..], c); }
  }

  lemma HeadFirst(w: seq<Operation>)
    requires w != []
    ensures Of(w, w[0].controller) == [w[0]] + Of(w[1..], w[0].controller)
    ensures NotOf(w, w[0].controller) == NotOf(w[1..], w[0].controller)
  {
  }

  lemma {:induction false} PostedInOrder(queues: Queues, op: Operation, ops: seq<Operation>)
    ensures PostedAll(Posted(queues, op), ops) == PostedAll(queues, [op] + ops)
    decreases |ops|
  {
    if ops != [] {
      PostedInOrder(queues, op, ops[..|ops| - 1]);
      assert ([op] + ops)[..|ops|] == [op] + ops[..|ops| - 1];
    } else {
      assert [op] + ops == [op];
      PostedOne(queues, op);
    }
  }
}
