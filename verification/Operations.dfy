/** Asynchronous operations, the lists they wait in, and the queues of completed operations
    that controllers keep.  Every member function of the synchronisation objects runs under
    one lock, so that each is one step. */
module Operations {
  import opened Wrappers

  type Controller = nat

  /** An operation in progress: its identity and the controller that issued it. */
  datatype Operation = Operation(id: nat, controller: Controller)

  type Queues = map<Controller, seq<Operation>>

  // What the list operations mean.

  /** The list without the first occurrence of an operation. */
  function Without(list: seq<Operation>, op: Operation): seq<Operation> {
    if list == [] then []
    else if list[0] == op then list[1..]
    else [list[0]] + Without(list[1..], op)
  }

  /** The operations of one controller, in order. */
  function Of(list: seq<Operation>, c: Controller): seq<Operation> {
    if list == [] then []
    else (if list[0].controller == c then [list[0]] else []) + Of(list[1..], c)
  }

  /** The operations of everybody else, in order. */
  function NotOf(list: seq<Operation>, c: Controller): seq<Operation> {
    if list == [] then []
    else (if list[0].controller == c then [] else [list[0]]) + NotOf(list[1..], c)
  }

  function Queue(queues: Queues, c: Controller): seq<Operation> {
    if c in queues then queues[c] else []
  }

  function Posted(queues: Queues, op: Operation): Queues {
    queues[op.controller := Queue(queues, op.controller) + [op]]
  }

  function PostedAll(queues: Queues, ops: seq<Operation>): Queues {
    if ops == [] then queues else Posted(PostedAll(queues, ops[..|ops| - 1]), ops[|ops| - 1])
  }

  /** The longest completed operation of a controller. */
  function Front(queues: Queues, c: Controller): Option<Operation> {
    if Queue(queues, c) == [] then None else Some(Queue(queues, c)[0])
  }

  function WithoutFront(queues: Queues, c: Controller): Queues {
    queues[c := if Queue(queues, c) == [] then [] else Queue(queues, c)[1..]]
  }

  /** A particular completed operation of a controller. */
  function Found(queues: Queues, c: Controller, op: Operation): Option<Operation> {
    if op in Queue(queues, c) then Some(op) else None
  }

  /** Every operation is in the queue of its own controller. */
  ghost predicate QueuesHome(queues: Queues) {
    forall c, op :: op in Queue(queues, c) ==> op.controller == c
  }

  /** 1 for something that happens, 0 otherwise. */
  function One(b: bool): nat {
    if b then 1 else 0
  }

  /** An operation, if something happens to it. */
  function OnlyIf(b: bool, op: Operation): multiset<Operation> {
    if b then multiset{op} else multiset{}
  }

  // Facts about them.

  lemma {:induction false} WithoutAbsent(list: seq<Operation>, op: Operation)
    requires op !in list
    ensures Without(list, op) == list
  {
    if list != [] { WithoutAbsent(list[1..], op); }
  }

  lemma {:induction false} WithoutFirst(list: seq<Operation>, p: nat)
    requires p < |list| && list[p] !in list[..p]
    ensures Without(list, list[p]) == list[..p] + list[p + 1..]
    decreases p
  {
    if p > 0 {
      var rest := list[1..];
      assert rest[..p - 1] == list[1..p] && rest[p..] == list[p + 1..];
      assert list[0] in list[..p];
      assert list[..p] == [list[0]] + list[1..p];
      WithoutFirst(rest, p - 1);
    }
  }

  /** Exactly one occurrence goes. */
  lemma {:induction false} WithoutCounts(list: seq<Operation>, op: Operation)
    ensures op in list ==> multiset(list) == multiset(Without(list, op)) + multiset{op}
    ensures op !in list ==> Without(list, op) == list
  {
    if list != [] {
      WithoutCounts(list[1..], op);
      assert list == [list[0]] + list[1..];
    }
  }

  lemma {:induction false} WithoutSome(list: seq<Operation>, op: Operation, x: Operation)
    ensures x in Without(list, op) ==> x in list
    ensures x in list && x != op ==> x in Without(list, op)
  {
    if list != [] {
      WithoutSome(list[1..], op, x);
    }
  }

  lemma Associate(x: seq<Operation>, y: seq<Operation>, z: seq<Operation>)
    ensures x + (y + z) == x + y + z
  {
  }

  lemma {:induction false} OfAppend(a: seq<Operation>, b: seq<Operation>, c: Controller)
    ensures Of(a + b, c) == Of(a, c) + Of(b, c)
  {
    if a == [] {
      assert a + b == b;
    } else {
      OfAppend(a[1..], b, c);
      assert (a + b)[1..] == a[1..] + b && (a + b)[0] == a[0];
      var head := if a[0].controller == c then [a[0]] else [];
      Associate(head, Of(a[1..], c), Of(b, c));
    }
  }

  lemma {:induction false} NotOfAppend(a: seq<Operation>, b: seq<Operation>, c: Controller)
    ensures NotOf(a + b, c) == NotOf(a, c) + NotOf(b, c)
  {
    if a == [] {
      assert a + b == b;
    } else {
      NotOfAppend(a[1..], b, c);
      assert (a + b)[1..] == a[1..] + b && (a + b)[0] == a[0];
      var head := if a[0].controller == c then [] else [a[0]];
      Associate(head, NotOf(a[1..], c), NotOf(b, c));
    }
  }

  /** Splitting a list by controller loses nothing and mixes up nothing. */
  lemma {:induction false} OfCounts(list: seq<Operation>, c: Controller)
    ensures multiset(list) == multiset(Of(list, c)) + multiset(NotOf(list, c))
    ensures forall x :: x in Of(list, c) ==> x.controller == c
    ensures forall x :: x in NotOf(list, c) ==> x.controller != c && x in list
  {
    if list != [] {
      OfCounts(list[1..], c);
      assert list == [list[0]] + list[1..];
    }
  }

  lemma PostedOne(queues: Queues, op: Operation)
    ensures PostedAll(queues, [op]) == Posted(queues, op)
  {
    assert [op][..0] == [];
  }

  /** Posting puts the operations of each controller, in order, at the end of its queue. */
  lemma {:induction false} PostedQueue(queues: Queues, ops: seq<Operation>, c: Controller)
    ensures Queue(PostedAll(queues, ops), c) == Queue(queues, c) + Of(ops, c)
  {
    if ops != [] {
      var front, last := ops[..|ops| - 1], ops[|ops| - 1];
      PostedQueue(queues, front, c);
      assert ops == front + [last];
      OfAppend(front, [last], c);
    }
  }

  lemma {:induction false} OfNone(list: seq<Operation>, c: Controller)
    requires forall x :: x in list ==> x.controller != c
    ensures Of(list, c) == [] && NotOf(list, c) == list
  {
    if list != [] { OfNone(list[1..], c); }
  }

  lemma Popped(list: seq<Operation>, op: Operation)
    requires list != []
    ensures multiset(list[1..])[op] + One(list[0] == op) == multiset(list)[op]
  {
    assert list == [list[0]] + list[1..];
  }

  /** Taking an operation out of its controller's queue is seen by that operation only. */
  lemma QueueLoses(queues: Queues, c: Controller, x: Operation, op: Operation)
    requires x in Queue(queues, c) ==> x.controller == c
    ensures var q := Queue(queues, c);
      multiset(Queue(queues[c := Without(q, x)], op.controller))[op] + One(x == op && x in q)
      == multiset(Queue(queues, op.controller))[op]
  {
    WithoutCounts(Queue(queues, c), x);
  }

  /** So is taking the front of a queue. */
  lemma FrontLeaves(queues: Queues, c: Controller, op: Operation)
    requires Queue(queues, c) != [] ==> Queue(queues, c)[0].controller == c
    ensures multiset(Queue(WithoutFront(queues, c), op.controller))[op] + One(Front(queues, c) == Some(op))
         == multiset(Queue(queues, op.controller))[op]
  {
    var q := Queue(queues, c);
    if q != [] {
      assert Without(q, q[0]) == q[1..];
      QueueLoses(queues, c, q[0], op);
    }
  }

  /** Operations of one controller are nobody else's. */
  lemma {:induction false} OfOnly(list: seq<Operation>, c: Controller, d: Controller)
    requires forall x :: x in list ==> x.controller == c
    ensures Of(list, d) == if d == c then list else []
  {
    if list != [] {
      OfOnly(list[1..], c, d);
      assert list == [list[0]] + list[1..];
    }
  }

  class OperationList {
    var list: seq<Operation>

    constructor ()
      ensures list == []
    {
      list := [];
    }

    method PushBack(op: Operation)
      modifies this
      ensures list == old(list) + [op]
    {
      list := list + [op];
    }

    method ExtractFront() returns (r: Option<Operation>)
      modifies this
      ensures r == if old(list) == [] then None else Some(old(list)[0])
      ensures list == if old(list) == [] then [] else old(list)[1..]
    {
      r := None;
      if list != [] {
        r := Some(list[0]);
        list := list[1..];
      }
    }

    /** Takes the first operation of a controller; the others keep their order. */
    method ExtractByController(c: Controller) returns (r: Option<Operation>)
      modifies this
      ensures r.None? ==> Of(old(list), c) == [] && list == old(list)
      ensures r.Some? ==> r.value.controller == c && |list| < |old(list)|
      ensures r.Some? ==> Of(old(list), c) == [r.value] + Of(list, c) && NotOf(old(list), c) == NotOf(list, c)
    {
      r := None;
      var p := 0;
      while p < |list| && list[p].controller != c
        invariant 0 <= p <= |list| && forall i :: 0 <= i < p ==> list[i].controller != c
      {
        p := p + 1;
      }
      ghost var was := list;
      OfNone(was[..p], c);
      if p < |list| {
        r := Some(list[p]);
        list := list[..p] + list[p + 1..];
        Taken(was, p, c);
      } else {
        assert was[..p] == was;
      }
    }

    method Remove(op: Operation) returns (found: bool)
      modifies this
      ensures found == (op in old(list)) && list == Without(old(list), op)
    {
      var p := 0;
      while p < |list| && list[p] != op
        invariant 0 <= p <= |list| && op !in list[..p]
      {
        p := p + 1;
      }
      if p < |list| {
        WithoutFirst(list, p);
        list := list[..p] + list[p + 1..];
        found := true;
      } else {
        assert list[..p] == list;
        WithoutAbsent(list, op);
        found := false;
      }
    }
  }

  lemma Taken(list: seq<Operation>, p: nat, c: Controller)
    requires p < |list| && list[p].controller == c
    requires Of(list[..p], c) == [] && NotOf(list[..p], c) == list[..p]
    ensures Of(list, c) == [list[p]] + Of(list[..p] + list[p + 1..], c)
    ensures NotOf(list, c) == NotOf(list[..p] + list[p + 1..], c)
  {
    var before, at, after := list[..p], list[p..], list[p + 1..];
    assert list == before + at && at[0] == list[p] && at[1..] == after;
    TakenOf(before, at, c);
    NotOfAppend(before, at, c);
    NotOfAppend(before, after, c);
  }

  lemma TakenOf(before: seq<Operation>, at: seq<Operation>, c: Controller)
    requires at != [] && at[0].controller == c && Of(before, c) == []
    ensures Of(before + at, c) == [at[0]] + Of(before + at[1..], c)
  {
    OfAppend(before, at, c);
    OfAppend(before, at[1..], c);
    var rest := Of(at[1..], c);
    assert [] + rest == rest && [] + ([at[0]] + rest) == [at[0]] + rest;
  }

  /** The completed-operation queues of all controllers. */
  class Controllers {
    var queues: Queues

    constructor ()
      ensures queues == map[]
    {
      queues := map[];
    }

    method Post(op: Operation)
      modifies this
      ensures queues == Posted(old(queues), op)
      ensures Queue(queues, op.controller) == Queue(old(queues), op.controller) + [op]
      ensures forall c :: c != op.controller ==> Queue(queues, c) == Queue(old(queues), c)
    {
      queues := queues[op.controller := Queue(queues, op.controller) + [op]];
    }

    method RevertPost(c: Controller, op: Operation)
      modifies this
      ensures queues == old(queues)[c := Without(Queue(old(queues), c), op)]
    {
      var completed := new OperationList();
      completed.list := Queue(queues, c);
      var _ := completed.Remove(op);
      queues := queues[c := completed.list];
    }

    /** Takes the longest completed operation of a controller. */
    method Poll(c: Controller) returns (r: Option<Operation>)
      modifies this
      ensures r == Front(old(queues), c) && queues == WithoutFront(old(queues), c)
    {
      var completed := new OperationList();
      completed.list := Queue(queues, c);
      r := completed.ExtractFront();
      queues := queues[c := completed.list];
    }

    /** Takes a particular completed operation. */
    method PollFor(c: Controller, op: Operation) returns (found: bool)
      modifies this
      ensures found == (Found(old(queues), c, op) == Some(op))
      ensures queues == old(queues)[c := Without(Queue(old(queues), c), op)]
    {
      var completed := new OperationList();
      completed.list := Queue(queues, c);
      found := completed.Remove(op);
      queues := queues[c := completed.list];
    }
  }
}
