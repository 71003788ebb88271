/** The message exchange: senders and receivers are paired in order, and each pair moves as
    many bytes as fit. */
module MessageExchanges {
  import opened Wrappers
  import opened Bytes
  import opened Operations

  /** A pending send with the bytes it has not sent yet. */
  datatype Send = Send(op: Operation, data: seq<byte>)

  /** A pending receive with the room it has left. */
  datatype Receive = Receive(op: Operation, room: nat)

  datatype Transfer = Transfer(send: Send, receive: Receive, bytes: seq<byte>)

  datatype State = State(sends: seq<Send>, receives: seq<Receive>, queues: Queues)

  datatype Event =
    | SendAsync(send: Send)
    | ReceiveAsync(receive: Receive)
    | Cancel(caller: Controller, op: Operation)
    | Wait(controller: Controller)
    | WaitFor(waiting: Controller, wanted: Operation)

  /** The list without the first pending operation that is meant. */
  function WithoutSend(list: seq<Send>, op: Operation): seq<Send> {
    if list == [] then []
    else if list[0].op == op then list[1..]
    else [list[0]] + WithoutSend(list[1..], op)
  }

  function WithoutReceive(list: seq<Receive>, op: Operation): seq<Receive> {
    if list == [] then []
    else if list[0].op == op then list[1..]
    else [list[0]] + WithoutReceive(list[1..], op)
  }

  function Next(s: State, e: Event): State {
    match e
    case SendAsync(tx) =>
      if s.receives == [] then s.(sends := s.sends + [tx])
      else State(s.sends, s.receives[1..], Posted(Posted(s.queues, s.receives[0].op), tx.op))
    case ReceiveAsync(rx) =>
      if s.sends == [] then s.(receives := s.receives + [rx])
      else State(s.sends[1..], s.receives, Posted(Posted(s.queues, s.sends[0].op), rx.op))
    case Cancel(c, op) =>
      State(WithoutSend(s.sends, op), WithoutReceive(s.receives, op), s.queues[c := Without(Queue(s.queues, c), op)])
    case Wait(c) => s.(queues := WithoutFront(s.queues, c))
    case WaitFor(c, op) => s.(queues := s.queues[c := Without(Queue(s.queues, c), op)])
  }

  /** The pair an event completes. */
  function Completed(s: State, e: Event): Option<(Send, Receive)> {
    match e
    case SendAsync(tx) => if s.receives == [] then None else Some((tx, s.receives[0]))
    case ReceiveAsync(rx) => if s.sends == [] then None else Some((s.sends[0], rx))
    case _ => None
  }

  /** What a completed pair transfers: the longest prefix that fits. */
  function Transferred(tx: Send, rx: Receive): (t: Transfer)
    ensures t.bytes <= tx.data && |t.bytes| <= rx.room
    ensures forall p :: p <= tx.data && |p| <= rx.room ==> |p| <= |t.bytes|
  {
    Transfer(tx, rx, tx.data[..Min(|tx.data|, rx.room)])
  }

  /** A run.  The lines are all sends and receives in the order of issue, without those that
      were cancelled while pending. */
  datatype Record = Record(state: State, transfers: seq<Transfer>, sendLine: seq<Send>, receiveLine: seq<Receive>)

  const Start := Record(State([], [], map[]), [], [], [])

  function Extend(r: Record, e: Event): Record {
    var done := Completed(r.state, e);
    var n := |r.transfers|;
    Record(
      Next(r.state, e),
      if done.Some? then r.transfers + [Transferred(done.value.0, done.value.1)] else r.transfers,
      match e
      case SendAsync(tx) => r.sendLine + [tx]
      case Cancel(_, op) =>
        if n <= |r.sendLine| then r.sendLine[..n] + WithoutSend(r.sendLine[n..], op) else r.sendLine
      case _ => r.sendLine,
      match e
      case ReceiveAsync(rx) => r.receiveLine + [rx]
      case Cancel(_, op) =>
        if n <= |r.receiveLine| then r.receiveLine[..n] + WithoutReceive(r.receiveLine[n..], op) else r.receiveLine
      case _ => r.receiveLine)
  }

  function Run(events: seq<Event>): Record {
    if events == [] then Start else Extend(Run(events[..|events| - 1]), events[|events| - 1])
  }

  /** Who waited is told first: the notifications of a pair enter the queues in the order of issue. */
  lemma WaiterToldFirst(s: State, e: Event, c: Controller)
    requires Completed(s, e).Some?
    ensures var waiter := if e.SendAsync? then s.receives[0].op else s.sends[0].op;
      var newcomer := if e.SendAsync? then e.send.op else e.receive.op;
      Queue(Next(s, e).queues, c) == Queue(s.queues, c)
        + (if waiter.controller == c then [waiter] else []) + (if newcomer.controller == c then [newcomer] else [])
  {
  }

  /** At most one side waits. */
  predicate Ok(s: State) {
    s.sends == [] || s.receives == []
  }

  /** The n-th send still in line is paired with the n-th receive still in line, and what is
      not paired is what waits. */
  ghost predicate Paired(r: Record) {
    && |r.transfers| == Min(|r.sendLine|, |r.receiveLine|)
    && (forall i :: 0 <= i < |r.transfers| ==> r.transfers[i] == Transferred(r.sendLine[i], r.receiveLine[i]))
    && r.state.sends == r.sendLine[|r.transfers|..]
    && r.state.receives == r.receiveLine[|r.transfers|..]
  }

  lemma SendPairs(r: Record, tx: Send)
    requires Paired(r)
    ensures Paired(Extend(r, SendAsync(tx)))
  {
    if r.state.receives == [] { SendWaits(r, tx); } else { SendCompletes(r, tx); }
  }

  lemma SendWaits(r: Record, tx: Send)
    requires Paired(r) && r.state.receives == []
    ensures Paired(Extend(r, SendAsync(tx)))
  {
    var t, n := Extend(r, SendAsync(tx)), |r.transfers|;
    assert t.sendLine[n..] == r.sendLine[n..] + [tx];
  }

  lemma SendCompletes(r: Record, tx: Send)
    requires Paired(r) && r.state.receives != []
    ensures Paired(Extend(r, SendAsync(tx)))
  {
    var t, n := Extend(r, SendAsync(tx)), |r.transfers|;
    assert |r.sendLine| == n && t.receiveLine == r.receiveLine;
    assert t.receiveLine[n + 1..] == r.state.receives[1..];
    assert r.state.receives[0] == r.receiveLine[n];
  }

  lemma ReceivePairs(r: Record, rx: Receive)
    requires Paired(r)
    ensures Paired(Extend(r, ReceiveAsync(rx)))
  {
    if r.state.sends == [] { ReceiveWaits(r, rx); } else { ReceiveCompletes(r, rx); }
  }

  lemma ReceiveWaits(r: Record, rx: Receive)
    requires Paired(r) && r.state.sends == []
    ensures Paired(Extend(r, ReceiveAsync(rx)))
  {
    var t, n := Extend(r, ReceiveAsync(rx)), |r.transfers|;
    assert t.receiveLine[n..] == r.receiveLine[n..] + [rx];
  }

  lemma ReceiveCompletes(r: Record, rx: Receive)
    requires Paired(r) && r.state.sends != []
    ensures Paired(Extend(r, ReceiveAsync(rx)))
  {
    var t, n := Extend(r, ReceiveAsync(rx)), |r.transfers|;
    assert |r.receiveLine| == n && t.sendLine == r.sendLine;
    assert t.sendLine[n + 1..] == r.state.sends[1..];
    assert r.state.sends[0] == r.sendLine[n];
  }

  lemma {:induction false} WithoutSendShrinks(list: seq<Send>, op: Operation)
    ensures |WithoutSend(list, op)| <= |list|
  {
    if list != [] { WithoutSendShrinks(list[1..], op); }
  }

  lemma {:induction false} WithoutReceiveShrinks(list: seq<Receive>, op: Operation)
    ensures |WithoutReceive(list, op)| <= |list|
  {
    if list != [] { WithoutReceiveShrinks(list[1..], op); }
  }

  lemma CancelPairs(r: Record, c: Controller, op: Operation)
    requires Paired(r)
    ensures Paired(Extend(r, Cancel(c, op)))
  {
    var t, n := Extend(r, Cancel(c, op)), |r.transfers|;
    WithoutSendShrinks(r.sendLine[n..], op);
    WithoutReceiveShrinks(r.receiveLine[n..], op);
    assert t.sendLine[n..] == WithoutSend(r.sendLine[n..], op);
    assert t.receiveLine[n..] == WithoutReceive(r.receiveLine[n..], op);
    assert t.sendLine[..n] == r.sendLine[..n] && t.receiveLine[..n] == r.receiveLine[..n];
    forall i | 0 <= i < n
      ensures t.sendLine[i] == r.sendLine[i] && t.receiveLine[i] == r.receiveLine[i]
    {
      assert t.sendLine[i] == t.sendLine[..n][i] && t.receiveLine[i] == t.receiveLine[..n][i];
    }
  }

  /** In every run: pairing is one-to-one in FIFO order, and at most one queue is non-empty. */
  lemma {:induction false} RunPairs(events: seq<Event>)
    ensures Paired(Run(events)) && Ok(Run(events).state)
  {
    if events != [] {
      var before, e := events[..|events| - 1], events[|events| - 1];
      RunPairs(before);
      match e {
        case SendAsync(tx) => SendPairs(Run(before), tx);
        case ReceiveAsync(rx) => ReceivePairs(Run(before), rx);
        case Cancel(c, op) => CancelPairs(Run(before), c, op);
        case _ =>
      }
    }
  }

  // The objects.

  class SendOperation {
    const op: Operation
    const data: seq<byte>
    var sent: nat

    constructor (op: Operation, data: seq<byte>)
      ensures this.op == op && this.data == data && sent == 0 && Unsent() == data
    {
      this.op, this.data, sent := op, data, 0;
    }

    function Unsent(): seq<byte>
      reads this
    {
      if sent <= |data| then data[sent..] else []
    }

    function Abstract(): Send
      reads this
    {
      Send(op, Unsent())
    }
  }

  /** A buffer before and after bytes were stored at a position. */
  ghost predicate Stored(before: seq<byte>, at: nat, bytes: seq<byte>, after: seq<byte>) {
    if at + |bytes| <= |before| then after == before[..at] + bytes + before[at + |bytes|..]
    else after == before && bytes == []
  }

  class ReceiveOperation {
    const op: Operation
    const buffer: array<byte>
    var received: nat

    constructor (op: Operation, buffer: array<byte>)
      ensures this.op == op && this.buffer == buffer && received == 0
    {
      this.op, this.buffer, received := op, buffer, 0;
    }

    function Room(): nat
      reads this
    {
      if received <= buffer.Length then buffer.Length - received else 0
    }

    function Abstract(): Receive
      reads this
    {
      Receive(op, Room())
    }

    /** Moves the longest prefix that fits; both sides count the same bytes. */
    method CopyFrom(other: SendOperation)
      modifies this`received, buffer, other`sent
      ensures var bytes := Transferred(old(other.Abstract()), old(Abstract())).bytes;
        && received == old(received) + |bytes| && other.sent == old(other.sent) + |bytes|
        && Stored(old(buffer[..]), old(received), bytes, buffer[..])
        && other.Unsent() == old(other.Unsent())[|bytes|..] && Room() == old(Room()) - |bytes|
        && (old(received) <= buffer.Length ==>
              && buffer[..received] == old(buffer[..received]) + bytes
              && buffer[received..] == old(buffer[..])[received..])
    {
      var bytesCopied := 0;
      if received <= buffer.Length {
        bytesCopied := CopyInto(buffer, received, other.Unsent());
      }
      received := received + bytesCopied;
      other.sent := other.sent + bytesCopied;
    }
  }

  // Pending operations are distinct objects.

  ghost predicate DistinctSends(list: seq<SendOperation>) {
    forall i, j :: 0 <= i < j < |list| ==> list[i] != list[j]
  }

  lemma FewerSends(list: seq<SendOperation>, p: nat)
    requires DistinctSends(list) && p < |list|
    ensures var r := list[..p] + list[p + 1..]; DistinctSends(r) && forall x :: x in r ==> x in list
  {
  }

  lemma FewerReceives(list: seq<ReceiveOperation>, p: nat)
    requires DistinctReceives(list) && p < |list|
    ensures var r := list[..p] + list[p + 1..]; DistinctReceives(r) && forall x :: x in r ==> x in list
  {
  }

  ghost predicate DistinctReceives(list: seq<ReceiveOperation>) {
    forall i, j :: 0 <= i < j < |list| ==> list[i] != list[j]
  }

  class MessageExchange {
    var sends: seq<SendOperation>
    var receives: seq<ReceiveOperation>
    const controllers: Controllers

    function PendingSends(): (r: seq<Send>)
      reads this, sends
    {
      seq(|sends|, i requires 0 <= i < |sends| reads this, sends => sends[i].Abstract())
    }

    function PendingReceives(): (r: seq<Receive>)
      reads this, receives
    {
      seq(|receives|, i requires 0 <= i < |receives| reads this, receives => receives[i].Abstract())
    }

    function Abstract(): State
      reads this, sends, receives, controllers
    {
      State(PendingSends(), PendingReceives(), controllers.queues)
    }

    ghost predicate Valid()
      reads this
    {
      && (sends == [] || receives == [])
      && DistinctSends(sends) && DistinctReceives(receives)
    }

    constructor (controllers: Controllers)
      ensures Valid() && this.controllers == controllers && Abstract() == State([], [], controllers.queues)
    {
      sends, receives := [], [];
      this.controllers := controllers;
    }

    function FrontSend(): set<SendOperation>
      reads this
    {
      if sends == [] then {} else {sends[0]}
    }

    function FrontReceive(): set<ReceiveOperation>
      reads this
    {
      if receives == [] then {} else {receives[0]}
    }

    function FrontBuffer(): set<array<byte>>
      reads this
    {
      if receives == [] then {} else {receives[0].buffer}
    }

    /** Pairs the send with the longest pending receive, or lets it wait. */
    method SendAsync(tx: SendOperation)
      requires Valid() && tx !in sends
      modifies this, controllers, tx`sent, FrontReceive()`received, FrontBuffer()
      ensures Valid() && Abstract() == Next(old(Abstract()), Event.SendAsync(old(tx.Abstract())))
      ensures old(receives) == [] ==> sends == old(sends) + [tx] && tx.sent == old(tx.sent)
      ensures old(receives) != [] ==>
        var rx := old(receives[0]);
        var bytes := Transferred(old(tx.Abstract()), old(receives[0].Abstract())).bytes;
        && rx.received == old(receives[0].received) + |bytes| && tx.sent == old(tx.sent) + |bytes|
        && Stored(old(receives[0].buffer[..]), old(receives[0].received), bytes, rx.buffer[..])
    {
      if receives != [] {
        var rx := receives[0];
        receives := receives[1..];
        rx.CopyFrom(tx);
        assert PendingReceives() == old(PendingReceives())[1..];
        controllers.Post(rx.op);
        controllers.Post(tx.op);
      } else {
        sends := sends + [tx];
        assert PendingSends() == old(PendingSends()) + [tx.Abstract()];
      }
    }

    /** Pairs the receive with the longest pending send, or lets it wait. */
    method ReceiveAsync(rx: ReceiveOperation)
      requires Valid() && rx !in receives
      modifies this, controllers, rx`received, rx.buffer, FrontSend()`sent
      ensures Valid() && Abstract() == Next(old(Abstract()), Event.ReceiveAsync(old(rx.Abstract())))
      ensures old(sends) == [] ==> receives == old(receives) + [rx] && rx.received == old(rx.received)
      ensures old(sends) != [] ==>
        var tx := old(sends[0]);
        var bytes := Transferred(old(sends[0].Abstract()), old(rx.Abstract())).bytes;
        && rx.received == old(rx.received) + |bytes| && tx.sent == old(sends[0].sent) + |bytes|
        && Stored(old(rx.buffer[..]), old(rx.received), bytes, rx.buffer[..])
    {
      if sends != [] {
        TakeSend(rx);
      } else {
        receives := receives + [rx];
        assert PendingReceives() == old(PendingReceives()) + [rx.Abstract()];
      }
    }

    /** Completes the longest pending send with a receive. */
    method TakeSend(rx: ReceiveOperation)
      requires Valid() && sends != []
      modifies this`sends, controllers, rx`received, rx.buffer, FrontSend()`sent
      ensures sends == old(sends)[1..] && PendingSends() == old(PendingSends())[1..]
      ensures controllers.queues == Posted(Posted(old(controllers.queues), old(sends[0].op)), rx.op)
      ensures var tx := old(sends[0]);
        var bytes := Transferred(old(sends[0].Abstract()), old(rx.Abstract())).bytes;
        && rx.received == old(rx.received) + |bytes| && tx.sent == old(sends[0].sent) + |bytes|
        && Stored(old(rx.buffer[..]), old(rx.received), bytes, rx.buffer[..])
    {
      var tx := sends[0];
      sends := sends[1..];
      rx.CopyFrom(tx);
      controllers.Post(tx.op);
      controllers.Post(rx.op);
    }

    method RemoveSend(op: Operation)
      requires DistinctSends(sends)
      modifies this`sends
      ensures DistinctSends(sends) && (forall x :: x in sends ==> x in old(sends)) && |sends| <= |old(sends)|
      ensures PendingSends() == WithoutSend(old(PendingSends()), op)
    {
      var p := 0;
      while p < |sends| && sends[p].op != op
        invariant 0 <= p <= |sends| && forall i :: 0 <= i < p ==> sends[i].op != op
      {
        p := p + 1;
      }
      ghost var pending := PendingSends();
      SendFound(pending, op, p);
      if p < |sends| {
        FewerSends(sends, p);
        sends := sends[..p] + sends[p + 1..];
        ghost var fewer := pending[..p] + pending[p + 1..];
        forall i | 0 <= i < |fewer|
          ensures PendingSends()[i] == fewer[i]
        {
          assert fewer[i] == if i < p then pending[i] else pending[i + 1];
        }
        assert PendingSends() == fewer;
      }
    }

    method RemoveReceive(op: Operation)
      requires DistinctReceives(receives)
      modifies this`receives
      ensures DistinctReceives(receives) && |receives| <= |old(receives)|
      ensures forall x :: x in receives ==> x in old(receives)
      ensures PendingReceives() == WithoutReceive(old(PendingReceives()), op)
    {
      var p := 0;
      while p < |receives| && receives[p].op != op
        invariant 0 <= p <= |receives| && forall i :: 0 <= i < p ==> receives[i].op != op
      {
        p := p + 1;
      }
      ghost var pending := PendingReceives();
      ReceiveFound(pending, op, p);
      if p < |receives| {
        FewerReceives(receives, p);
        receives := receives[..p] + receives[p + 1..];
        ghost var fewer := pending[..p] + pending[p + 1..];
        forall i | 0 <= i < |fewer|
          ensures PendingReceives()[i] == fewer[i]
        {
          assert fewer[i] == if i < p then pending[i] else pending[i + 1];
        }
        assert PendingReceives() == fewer;
      }
    }

    /** Takes back whatever is left of an operation; no byte moves. */
    method Cancel(c: Controller, op: Operation)
      requires Valid()
      modifies this, controllers
      ensures Valid() && Abstract() == Next(old(Abstract()), Event.Cancel(c, op))
    {
      RemoveSend(op);
      RemoveReceive(op);
      controllers.RevertPost(c, op);
    }
  }

  lemma {:induction false} SendFound(list: seq<Send>, op: Operation, p: nat)
    requires p <= |list| && (forall i :: 0 <= i < p ==> list[i].op != op) && (p < |list| ==> list[p].op == op)
    ensures WithoutSend(list, op) == if p < |list| then list[..p] + list[p + 1..] else list
    decreases p
  {
    if p > 0 {
      var rest := list[1..];
      SendFound(rest, op, p - 1);
      if p < |list| {
        assert [list[0]] + rest[..p - 1] == list[..p] && rest[p..] == list[p + 1..];
      }
    }
  }

  lemma {:induction false} ReceiveFound(list: seq<Receive>, op: Operation, p: nat)
    requires p <= |list| && (forall i :: 0 <= i < p ==> list[i].op != op) && (p < |list| ==> list[p].op == op)
    ensures WithoutReceive(list, op) == if p < |list| then list[..p] + list[p + 1..] else list
    decreases p
  {
    if p > 0 {
      var rest := list[1..];
      ReceiveFound(rest, op, p - 1);
      if p < |list| {
        assert [list[0]] + rest[..p - 1] == list[..p] && rest[p..] == list[p + 1..];
      }
    }
  }
}
