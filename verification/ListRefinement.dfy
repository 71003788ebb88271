/** The heap operations of a multi-iterator list do what the steps of a run say: whenever a
    list mirrors a run state, performing an operation makes it mirror the next state. */
module ListRefinement {
  import opened Wrappers
  import opened Cursors
  import opened ListRuns
  import opened MultiLists

  type ListState<!T> = State<Node<T>, Iterator<T>>

  /** The list has the nodes of the state, and the live iterators are the registered ones
      and the end() iterators that are registered nowhere. */
  ghost predicate Mirrors<T>(st: ListState<T>, list: MultiList<T>, ends: set<Iterator<T>>)
    reads list, list.nodes, list.iters, ends
  {
    && list.Valid() && st.nodes == list.nodes
    && (forall it :: it in st.cursors ==> it in list.iters || it in ends)
    && (forall it :: it in list.iters ==> it in st.cursors && st.cursors[it] == it.AsCursor())
    && (forall it :: it in ends ==> it in st.cursors && st.cursors[it] == Cursor(None, None))
    && (forall it :: it in ends ==> it.Unregistered() && it.item == null && it.nextItem == null)
  }

  method StepExtract<T>(list: MultiList<T>, iter: Iterator<T>, ghost st: ListState<T>, ghost ends: set<Iterator<T>>)
    requires Ok(st) && Mirrors(st, list, ends) && iter in st.cursors
    modifies list, list.nodes, list.iters
    ensures Mirrors(Apply(st, Extract(iter)), list, ends)
    ensures old(iter.item) != null ==> old(iter.item).owner == null
  {
    list.Meaning();
    if iter.item != null {
      assert list.PointsHere(iter);
      ExtractWith(list, iter, st, ends, Apply(st, Extract(iter)));
    }
  }

  method ExtractWith<T>(list: MultiList<T>, iter: Iterator<T>, ghost st: ListState<T>, ghost ends: set<Iterator<T>>,
                        ghost next: ListState<T>)
    requires Mirrors(st, list, ends) && iter in list.iters && iter.item != null
    requires 0 <= iter.item.pos < |list.nodes| && next.nodes == RemoveAt(list.nodes, iter.item.pos)
    requires next.cursors.Keys == st.cursors.Keys
    requires forall it :: it in st.cursors ==>
      next.cursors[it] == AfterExtract(st.cursors[it], iter.item, Opt(iter.item.next))
    modifies list, list.nodes, list.iters
    ensures Mirrors(next, list, ends) && old(iter.item).owner == null
  {
    EndsApart(st, list, ends);
    var _ := list.ExtractElement(iter);
  }

  /** end() iterators are not registered. */
  lemma EndsApart<T>(st: ListState<T>, list: MultiList<T>, ends: set<Iterator<T>>)
    requires Mirrors(st, list, ends)
    ensures forall it :: it in ends ==> it !in list.iters
  {
    forall it | it in ends
      ensures it !in list.iters
    {
      list.NotRegistered(it);
    }
  }

  method StepAppend<T>(list: MultiList<T>, data: T, ghost st: ListState<T>, ghost ends: set<Iterator<T>>)
    returns (ghost n: Node<T>)
    requires Ok(st) && Mirrors(st, list, ends)
    modifies list, list.nodes
    ensures fresh(n) && Enabled(st, Append(n)) && n.data == data && Mirrors(Apply(st, Append(n)), list, ends)
  {
    n := list.InsertAtEnd(data);
  }

  method StepBegin<T>(list: MultiList<T>, ghost st: ListState<T>, ghost ends: set<Iterator<T>>)
    returns (it: Iterator<T>)
    requires Ok(st) && Mirrors(st, list, ends)
    modifies list, list.iters
    ensures fresh(it) && Enabled(st, Begin(it)) && Mirrors(Apply(st, Begin(it)), list, ends)
  {
    list.Meaning();
    EndsApart(st, list, ends);
    it := list.Begin();
  }

  method StepEnd<T>(ghost list: MultiList<T>, ghost st: ListState<T>, ghost ends: set<Iterator<T>>)
    returns (it: Iterator<T>)
    requires Ok(st) && Mirrors(st, list, ends)
    ensures fresh(it) && Enabled(st, End(it)) && Mirrors(Apply(st, End(it)), list, ends + {it})
  {
    it := new Iterator.End();
  }

  method StepAdvance<T>(list: MultiList<T>, iter: Iterator<T>, ghost st: ListState<T>, ghost ends: set<Iterator<T>>)
    requires Ok(st) && Mirrors(st, list, ends) && iter in st.cursors
    modifies iter
    ensures Mirrors(Apply(st, Advance(iter)), list, ends)
  {
    EndsApart(st, list, ends);
    AdvanceIn(list, iter, ends);
  }

  /** Advances an iterator of the list, or an end() iterator, which stays one. */
  method AdvanceIn<T>(list: MultiList<T>, iter: Iterator<T>, ghost ends: set<Iterator<T>>)
    requires list.Valid() && (iter in list.iters || iter in ends)
    requires iter in ends ==> iter.Unregistered() && iter.item == null && iter.nextItem == null && iter !in list.iters
    modifies iter`item, iter`nextItem
    ensures list.Valid() && old(iter.nextItem != null ==> iter.nextItem in list.nodes)
    ensures iter.AsCursor() == AfterNext(list.nodes, old(iter.AsCursor()))
  {
    list.Meaning();
    if iter in list.iters {
      list.LocateIter(iter);
      assert list.PointsHere(iter);
    }
    iter.Next();
  }

  method StepInsert<T>(list: MultiList<T>, iter: Iterator<T>, data: T, ghost st: ListState<T>,
                       ghost ends: set<Iterator<T>>)
    returns (res: Iterator<T>)
    requires Ok(st) && Mirrors(st, list, ends) && iter in st.cursors
    modifies list, list.nodes, list.iters
    ensures fresh(res) && res.item != null && fresh(res.item) && res.item.data == data
    ensures Enabled(st, Insert(iter, res.item, res))
    ensures Mirrors(Apply(st, Insert(iter, res.item, res)), list, ends)
    ensures var a := Ahead(st.nodes, st.cursors[iter]);
      && (a == [] ==> list.nodes == st.nodes + [res.item])
      && (a != [] ==> a[0] in st.nodes && list.nodes == InsertedBefore<Node<T>>(st.nodes, a[0], res.item))
  {
    InsertionIndex(st, list, ends, iter);
    ghost var p := IndexOfTarget(st.nodes, st.cursors[iter]);
    ghost var n, next;
    res, n, next := InsertIn(list, iter, data, st, ends, p);
    InsertedState(st, iter, n, res, next, p);
    InsertedAhead(st.nodes, st.cursors[iter], n);
  }

  lemma InsertedState<T>(st: ListState<T>, iter: Iterator<T>, n: Node<T>, res: Iterator<T>, next: ListState<T>,
                         p: nat)
    requires Ok(st) && Enabled(st, Insert(iter, n, res)) && n in next.nodes && next.freed == st.freed
    requires p == IndexOfTarget(st.nodes, st.cursors[iter]) && next.nodes == InsertAt(st.nodes, p, n)
    requires next.cursors == MovedCursors(st.cursors, iter, n)[res := At(next.nodes, n)]
    ensures Apply(st, Insert(iter, n, res)) == next
  {
    InsertedNodes(st.nodes, st.cursors[iter], n);
  }

  lemma InsertionIndex<T>(st: ListState<T>, list: MultiList<T>, ends: set<Iterator<T>>, iter: Iterator<T>)
    requires Ok(st) && Mirrors(st, list, ends) && iter in st.cursors
    ensures list.PointsHere(iter) && IndexOfTarget(st.nodes, st.cursors[iter]) == list.InsertionPoint(iter)
  {
    list.Meaning();
  }

  /** The cursors after an insertion through one of them. */
  ghost function MovedCursors<N, I>(cursors: map<I, Cursor<N>>, iter: I, n: N): map<I, Cursor<N>>
    requires iter in cursors
  {
    map i | i in cursors :: InsertCursor(Target(cursors[iter]), cursors[i], n)
  }

  /** The index an insertion through a cursor goes to. */
  ghost function IndexOfTarget<N>(nodes: seq<N>, c: Cursor<N>): (k: nat)
    requires CursorOk(nodes, c)
    ensures k <= |nodes|
  {
    if Target(c).Some? then IndexOf(nodes, Target(c).value) else |nodes|
  }

  lemma InsertedNodes<N>(nodes: seq<N>, c: Cursor<N>, n: N)
    requires CursorOk(nodes, c)
    ensures InsertNodes(nodes, c, n) == InsertAt(nodes, IndexOfTarget(nodes, c), n)
  {
    assert nodes + [n] == InsertAt(nodes, |nodes|, n);
  }

  /** Inserts through an iterator of the list, or an end() iterator. */
  method InsertIn<T>(list: MultiList<T>, iter: Iterator<T>, data: T, ghost st: ListState<T>,
                     ghost ends: set<Iterator<T>>, ghost p: nat)
    returns (res: Iterator<T>, ghost n: Node<T>, ghost next: ListState<T>)
    requires Mirrors(st, list, ends) && iter in st.cursors && list.PointsHere(iter) && p == list.InsertionPoint(iter)
    modifies list, list.nodes, list.iters
    ensures fresh(res) && res.item == n && fresh(n) && n.data == data && n in list.nodes
    ensures p <= |st.nodes| && next.nodes == list.nodes == InsertAt(st.nodes, p, n) && next.freed == st.freed
    ensures next.cursors == MovedCursors(st.cursors, iter, n)[res := At(next.nodes, n)]
    ensures Mirrors(next, list, ends)
  {
    EndsApart(st, list, ends);
    res, n := InsertBy(list, iter, data, p);
    ghost var cursors := MovedCursors(st.cursors, iter, n)[res := At(list.nodes, n)];
    next := State(list.nodes, cursors, st.freed);
  }

  method InsertBy<T>(list: MultiList<T>, iter: Iterator<T>, data: T, ghost p: nat)
    returns (res: Iterator<T>, ghost n: Node<T>)
    requires list.Valid() && (iter.item != null || iter.nextItem != null ==> iter in list.iters)
    requires list.PointsHere(iter) && p == list.InsertionPoint(iter)
    modifies list, list.nodes, list.iters
    ensures list.Valid() && fresh(res) && list.iters == [res] + old(list.iters)
    ensures fresh(n) && n.data == data && n in list.nodes && p <= |old(list.nodes)|
    ensures list.nodes == InsertAt(old(list.nodes), p, n) && res.item == n && res.AsCursor() == At(list.nodes, n)
    ensures forall it :: it in old(list.iters) ==>
      it.AsCursor() == InsertCursor(old(Target(iter.AsCursor())), old(it.AsCursor()), n)
  {
    res := list.Insert(iter, data);
    NewPosition(list, res);
    n := res.item;
  }

  lemma NewPosition<T>(list: MultiList<T>, it: Iterator<T>)
    requires list.Valid() && it in list.iters && it.item != null && it.nextItem == it.item.next
    ensures it.item in list.nodes && it.AsCursor() == At<Node<T>>(list.nodes, it.item)
  {
    list.Meaning();
    assert list.PointsHere(it);
  }

  method StepCopy<T>(list: MultiList<T>, src: Iterator<T>, ghost st: ListState<T>, ghost ends: set<Iterator<T>>)
    returns (res: Iterator<T>, ghost ends': set<Iterator<T>>)
    requires Ok(st) && Mirrors(st, list, ends) && src in st.cursors
    modifies list, list.iters, src
    ensures fresh(res) && Enabled(st, Copy(src, res)) && Mirrors(Apply(st, Copy(src, res)), list, ends')
  {
    EndsApart(st, list, ends);
    if src.pThis != Nowhere {
      assert src in list.iters;
      res := CopyRegistered(list, src);
      ends' := ends;
    } else {
      NotNowhere(list, src);
      res := CopyEnd(list, src, st, ends);
      ends' := ends + {res};
    }
  }

  method CopyEnd<T>(ghost list: MultiList<T>, src: Iterator<T>, ghost st: ListState<T>, ghost ends: set<Iterator<T>>)
    returns (res: Iterator<T>)
    requires Mirrors(st, list, ends) && src in ends && src !in list.iters
    modifies src
    ensures fresh(res) && Mirrors(st.(cursors := st.cursors[res := st.cursors[src]]), list, ends + {res})
  {
    res := new Iterator.Copy(src);
    list.StaysValid();
  }

  lemma NotNowhere<T>(list: MultiList<T>, it: Iterator<T>)
    requires list.Valid()
    ensures it in list.iters ==> it.pThis != Nowhere
  {
    if it in list.iters { list.LocateIter(it); }
  }

  method CopyRegistered<T>(list: MultiList<T>, src: Iterator<T>) returns (res: Iterator<T>)
    requires list.Valid() && src in list.iters
    modifies list`firstIterator, list`iters, list.iters`pThis, list.iters`nextIterator, list.iters`pos
    ensures list.Valid() && fresh(res) && res.AsCursor() == src.AsCursor() && res in list.iters
    ensures forall it :: it in old(list.iters) ==> it in list.iters
    ensures forall it :: it in list.iters ==> it in old(list.iters) || it == res
  {
    list.LocateIter(src);
    ghost var k, was := src.pos, list.iters;
    assert forall it :: it in src.Chain() ==> it in was;
    res := new Iterator.Copy(src);
    OnlyOneMore(was, k, res);
  }

  method StepDestroy<T>(list: MultiList<T>, iter: Iterator<T>, ghost st: ListState<T>, ghost ends: set<Iterator<T>>)
    requires Ok(st) && Mirrors(st, list, ends) && iter in st.cursors
    modifies list, list.iters, iter
    ensures Mirrors(Apply(st, Destroy(iter)), list, ends - {iter})
  {
    EndsApart(st, list, ends);
    if iter.pThis != Nowhere {
      assert iter in list.iters;
      DestroyRegistered(list, iter, st, ends);
    } else {
      NotNowhere(list, iter);
      iter.Unlink();
    }
  }

  method DestroyRegistered<T>(list: MultiList<T>, iter: Iterator<T>, ghost st: ListState<T>,
                              ghost ends: set<Iterator<T>>)
    requires Mirrors(st, list, ends) && iter in list.iters
    modifies list, list.iters
    ensures Mirrors(st.(cursors := st.cursors - {iter}), list, ends - {iter})
  {
    EndsApart(st, list, ends);
    list.LocateIter(iter);
    ghost var k, was := iter.pos, list.iters;
    assert iter.Chain() == set it | it in was;
    iter.Unlink();
    OnlyOneGone(was, k);
    list.NotRegistered(iter);
  }

  method StepClear<T>(list: MultiList<T>, ghost st: ListState<T>, ghost ends: set<Iterator<T>>)
    requires Ok(st) && Mirrors(st, list, ends)
    modifies list, list.nodes, list.iters
    ensures Mirrors(Apply(st, Clear), list, ends + set it | it in old(list.iters))
    ensures forall i :: 0 <= i < |old(list.nodes)| ==> old(list.nodes)[i].owner == null
  {
    EndsApart(st, list, ends);
    list.Clear();
  }

  method StepAssign<T>(list: MultiList<T>, dst: Iterator<T>, src: Iterator<T>, ghost st: ListState<T>,
                       ghost ends: set<Iterator<T>>)
    returns (ghost ends': set<Iterator<T>>)
    requires Ok(st) && Mirrors(st, list, ends) && dst in st.cursors && src in st.cursors
    modifies list, list.iters, dst, src
    ensures Mirrors(Apply(st, Assign(dst, src)), list, ends')
  {
    EndsApart(st, list, ends);
    ends' := if src in ends then ends + {dst} else ends - {dst};
    AssignIn(list, dst, src, ends);
  }

  /** Assignment between iterators of one list, or end() iterators. */
  method AssignIn<T>(list: MultiList<T>, dst: Iterator<T>, src: Iterator<T>, ghost ends: set<Iterator<T>>)
    requires list.Valid() && (dst in list.iters || dst in ends) && (src in list.iters || src in ends)
    requires forall it :: it in ends ==>
      it.Unregistered() && it.item == null && it.nextItem == null && it !in list.iters
    modifies list`firstIterator, list`iters, list.iters`pThis, list.iters`nextIterator, list.iters`pos
    modifies dst, src`pThis, src`nextIterator, src`pos
    ensures list.Valid() && dst.AsCursor() == old(src.AsCursor()) && (dst in list.iters <==> src !in ends)
    ensures forall it :: it in list.iters ==> it in old(list.iters) || it == dst
    ensures forall it :: it in old(list.iters) && it != dst ==> it in list.iters
    ensures src in ends ==> dst.Unregistered()
    ensures forall it :: it in ends && it != dst ==> it.Unregistered()
  {
    if src in list.iters { list.LocateIter(src); }
    if dst in list.iters { list.LocateIter(dst); }
    dst.Assign(src);
    if src in ends { list.NotRegistered(dst); }
  }

  // Whole runs.

  /** What a program can do with a list and the iterators it has: each command names its
      iterators by their index among those alive; a command with a wrong index does nothing. */
  datatype Command<T> =
    | DoAppend(data: T)
    | DoInsert(at: nat, data: T)
    | DoExtract(at: nat)
    | DoClear
    | DoBegin
    | DoEnd
    | DoCopy(src: nat)
    | DoAssign(dst: nat, src: nat)
    | DoAdvance(it: nat)
    | DoDestroy(it: nat)

  predicate InRange<T>(c: Command<T>, n: nat) {
    match c
    case DoInsert(at, _) => at < n
    case DoExtract(at) => at < n
    case DoCopy(src) => src < n
    case DoAssign(dst, src) => dst < n && src < n
    case DoAdvance(it) => it < n
    case DoDestroy(it) => it < n
    case _ => true
  }

  /** The step is the one a command names, on the iterators it names and with its data. */
  ghost predicate Does<T>(c: Command<T>, its: seq<Iterator<T>>, step: Step<Node<T>, Iterator<T>>)
    requires InRange(c, |its|)
  {
    match c
    case DoAppend(data) => step.Append? && step.n.data == data
    case DoInsert(at, data) => step.Insert? && step.at == its[at] && step.n.data == data
    case DoExtract(at) => step == Extract(its[at])
    case DoClear => step == Clear
    case DoBegin => step.Begin?
    case DoEnd => step.End?
    case DoCopy(src) => step.Copy? && step.src == its[src]
    case DoAssign(dst, src) => step == Assign(its[dst], its[src])
    case DoAdvance(it) => step == Advance(its[it])
    case DoDestroy(it) => step == Destroy(its[it])
  }

  /** The iterators a program holds afterwards: a new one comes last, a destroyed one goes. */
  ghost function Held<T>(its: seq<Iterator<T>>, c: Command<T>, step: Step<Node<T>, Iterator<T>>): seq<Iterator<T>>
    requires InRange(c, |its|) && Does(c, its, step)
  {
    match c
    case DoInsert(_, _) => its + [step.res]
    case DoBegin => its + [step.res]
    case DoEnd => its + [step.res]
    case DoCopy(_) => its + [step.res]
    case DoDestroy(it) => RemoveAt(its, it)
    case _ => its
  }

  /** The steps are those the commands name, one for each command with indexes in range, on the
      iterators held at that time; the last argument is what is held in the end. */
  ghost predicate Follows<T>(commands: seq<Command<T>>, steps: seq<Step<Node<T>, Iterator<T>>>,
                             its: seq<Iterator<T>>, end: seq<Iterator<T>>)
  {
    if commands == [] then steps == [] && end == its
    else if !InRange(commands[0], |its|) then Follows(commands[1..], steps, its, end)
    else
      && steps != [] && Does(commands[0], its, steps[0])
      && Follows(commands[1..], steps[1..], Held(its, commands[0], steps[0]), end)
  }

  lemma {:induction false} FollowsNone<T>(commands: seq<Command<T>>, steps: seq<Step<Node<T>, Iterator<T>>>,
                                          its: seq<Iterator<T>>, end: seq<Iterator<T>>, c: Command<T>)
    requires Follows(commands, steps, its, end) && !InRange(c, |end|)
    ensures Follows(commands + [c], steps, its, end)
    decreases |commands|
  {
    var all := commands + [c];
    if commands == [] {
      assert all[1..] == [];
    } else {
      assert all[1..] == commands[1..] + [c];
      if InRange(commands[0], |its|) {
        FollowsNone(commands[1..], steps[1..], Held(its, commands[0], steps[0]), end, c);
      } else {
        FollowsNone(commands[1..], steps, its, end, c);
      }
    }
  }

  lemma {:induction false} FollowsOne<T>(commands: seq<Command<T>>, steps: seq<Step<Node<T>, Iterator<T>>>,
                                         its: seq<Iterator<T>>, end: seq<Iterator<T>>, c: Command<T>,
                                         step: Step<Node<T>, Iterator<T>>)
    requires Follows(commands, steps, its, end) && InRange(c, |end|) && Does(c, end, step)
    ensures Follows(commands + [c], steps + [step], its, Held(end, c, step))
    decreases |commands|
  {
    var all, more := commands + [c], steps + [step];
    if commands == [] {
      assert all[1..] == [] && more == [step] && more[1..] == [];
    } else {
      assert all[1..] == commands[1..] + [c];
      if InRange(commands[0], |its|) {
        assert more[1..] == steps[1..] + [step];
        FollowsOne(commands[1..], steps[1..], Held(its, commands[0], steps[0]), end, c, step);
      } else {
        FollowsOne(commands[1..], steps, its, end, c, step);
      }
    }
  }

  ghost predicate Handles<T>(its: seq<Iterator<T>>, st: ListState<T>) {
    Distinct(its) && forall i :: 0 <= i < |its| ==> its[i] in st.cursors
  }

  /** Deleted nodes are marked as belonging to no list. */
  ghost predicate Gone<T>(freed: set<Node<T>>)
    reads freed
  {
    forall n :: n in freed ==> n.owner == null
  }

  /** On the heap, no iterator ever refers to a deleted node. */
  lemma NoDanglingOnHeap<T>(st: ListState<T>, list: MultiList<T>, ends: set<Iterator<T>>, it: Iterator<T>)
    requires Mirrors(st, list, ends) && it in st.cursors
    ensures it.item != null ==> it.item.owner == list
    ensures it.nextItem != null ==> it.nextItem.owner == list
  {
    if it in list.iters {
      assert list.PointsHere(it);
      if it.item != null { list.Locate(it.item); }
      if it.nextItem != null { list.Locate(it.nextItem); }
    }
  }

  lemma NoneDangling<T>(st: ListState<T>, list: MultiList<T>, ends: set<Iterator<T>>, its: seq<Iterator<T>>)
    requires Mirrors(st, list, ends) && Handles(its, st)
    ensures forall it :: it in its ==>
      (it.item != null ==> it.item.owner == list) && (it.nextItem != null ==> it.nextItem.owner == list)
  {
    forall it | it in its
      ensures (it.item != null ==> it.item.owner == list) && (it.nextItem != null ==> it.nextItem.owner == list)
    {
      NoDanglingOnHeap(st, list, ends, it);
    }
  }

  /** The steps that make an iterator. */
  method Make<T>(list: MultiList<T>, c: Command<T>, its: seq<Iterator<T>>, ghost st: ListState<T>,
                 ghost ends: set<Iterator<T>>)
    returns (made: Iterator<T>, ghost step: Step<Node<T>, Iterator<T>>, ghost ends': set<Iterator<T>>)
    requires Ok(st) && Mirrors(st, list, ends) && Handles(its, st) && InRange(c, |its|)
    requires c.DoBegin? || c.DoEnd? || c.DoCopy?
    modifies list, list.iters, ends
    ensures Enabled(st, step) && Mirrors(Apply(st, step), list, ends') && list.nodes == old(list.nodes)
    ensures fresh(made) && Apply(st, step).cursors.Keys == st.cursors.Keys + {made} && Apply(st, step).freed == st.freed
    ensures Does(c, its, step) && Held(its, c, step) == its + [made]
  {
    ends' := ends;
    match c {
      case DoBegin =>
        made := StepBegin(list, st, ends);
        step := Begin(made);
      case DoEnd =>
        made := StepEnd(list, st, ends);
        step, ends' := End(made), ends + {made};
      case DoCopy(src) =>
        made, ends' := StepCopy(list, its[src], st, ends);
        step := Copy(its[src], made);
    }
  }

  /** The steps that make a node. */
  method Enter<T>(list: MultiList<T>, c: Command<T>, its: seq<Iterator<T>>, ghost st: ListState<T>,
                  ghost ends: set<Iterator<T>>)
    returns (made: seq<Iterator<T>>, ghost step: Step<Node<T>, Iterator<T>>)
    requires Ok(st) && Mirrors(st, list, ends) && Handles(its, st) && InRange(c, |its|)
    requires c.DoAppend? || c.DoInsert?
    modifies list, list.nodes, list.iters
    ensures Enabled(st, step) && Mirrors(Apply(st, step), list, ends)
    ensures |made| <= 1 && (forall i :: 0 <= i < |made| ==> fresh(made[i]))
    ensures Apply(st, step).cursors.Keys == st.cursors.Keys + (set i | i in made) && Apply(st, step).freed == st.freed
    ensures Does(c, its, step) && Held(its, c, step) == its + made
    ensures forall n :: n in list.nodes ==> n in old(list.nodes) || fresh(n)
  {
    if c.DoAppend? {
      ghost var n := StepAppend(list, c.data, st, ends);
      made, step := [], Append(n);
    } else {
      var it := StepInsert(list, its[c.at], c.data, st, ends);
      made, step := [it], Insert(its[c.at], it.item, it);
      OnlyOneEntered(st, its[c.at], it.item, it);
    }
  }

  lemma OnlyOneEntered<T>(st: ListState<T>, at: Iterator<T>, n: Node<T>, res: Iterator<T>)
    requires Ok(st) && Enabled(st, Insert(at, n, res))
    ensures var next := Apply(st, Insert(at, n, res));
      && next.cursors.Keys == st.cursors.Keys + {res} && next.freed == st.freed
      && forall x :: x in next.nodes ==> x in st.nodes || x == n
  {
    InsertOk(st.nodes, st.cursors[at], n);
  }

  /** The steps that make nothing. */
  method Change<T>(list: MultiList<T>, c: Command<T>, its: seq<Iterator<T>>, ghost st: ListState<T>,
                   ghost ends: set<Iterator<T>>)
    returns (ghost step: Step<Node<T>, Iterator<T>>, ghost ends': set<Iterator<T>>)
    requires Ok(st) && Mirrors(st, list, ends) && Handles(its, st) && InRange(c, |its|)
    requires c.DoAssign? || c.DoAdvance? || c.DoDestroy?
    modifies list, list.iters, ends
    ensures Enabled(st, step) && Mirrors(Apply(st, step), list, ends') && list.nodes == old(list.nodes)
    ensures Apply(st, step).freed == st.freed
    ensures Apply(st, step).cursors.Keys == st.cursors.Keys - if c.DoDestroy? then {its[c.it]} else {}
    ensures Does(c, its, step)
  {
    ends' := ends;
    match c {
      case DoAssign(dst, src) =>
        ends' := StepAssign(list, its[dst], its[src], st, ends);
        step := Assign(its[dst], its[src]);
      case DoAdvance(it) =>
        StepAdvance(list, its[it], st, ends);
        step := Advance(its[it]);
      case DoDestroy(it) =>
        StepDestroy(list, its[it], st, ends);
        step, ends' := Destroy(its[it]), ends - {its[it]};
    }
  }

  /** The steps that delete nodes. */
  method Delete<T>(list: MultiList<T>, c: Command<T>, its: seq<Iterator<T>>, ghost st: ListState<T>,
                   ghost ends: set<Iterator<T>>)
    returns (ghost step: Step<Node<T>, Iterator<T>>, ghost ends': set<Iterator<T>>)
    requires Ok(st) && Mirrors(st, list, ends) && Handles(its, st) && InRange(c, |its|) && Gone(st.freed)
    requires c.DoExtract? || c.DoClear?
    modifies list, list.nodes, list.iters
    ensures Enabled(st, step) && Mirrors(Apply(st, step), list, ends') && Gone(Apply(st, step).freed)
    ensures Apply(st, step).cursors.Keys == st.cursors.Keys && Does(c, its, step)
    ensures forall n :: n in list.nodes ==> n in old(list.nodes)
  {
    if c.DoExtract? {
      step, ends' := Extract(its[c.at]), ends;
      DeleteOne(list, its[c.at], st, ends);
    } else {
      step, ends' := Clear, ends + set it | it in list.iters;
      DeleteAll(list, st, ends);
    }
  }

  method DeleteOne<T>(list: MultiList<T>, iter: Iterator<T>, ghost st: ListState<T>, ghost ends: set<Iterator<T>>)
    requires Ok(st) && Mirrors(st, list, ends) && iter in st.cursors && Gone(st.freed)
    modifies list, list.nodes, list.iters
    ensures Mirrors(Apply(st, Extract(iter)), list, ends) && Gone(Apply(st, Extract(iter)).freed)
    ensures forall n :: n in list.nodes ==> n in old(list.nodes)
  {
    FreedApart(st, list);
    StepExtract(list, iter, st, ends);
  }

  method DeleteAll<T>(list: MultiList<T>, ghost st: ListState<T>, ghost ends: set<Iterator<T>>)
    requires Ok(st) && Mirrors(st, list, ends) && Gone(st.freed)
    modifies list, list.nodes, list.iters
    ensures Mirrors(Apply(st, Clear), list, ends + set it | it in old(list.iters)) && Gone(Apply(st, Clear).freed)
  {
    FreedApart(st, list);
    StepClear(list, st, ends);
  }

  /** Deleted nodes are not in the list. */
  lemma FreedApart<T>(st: ListState<T>, list: MultiList<T>)
    requires Ok(st) && st.nodes == list.nodes
    ensures forall n :: n in st.freed ==> n !in list.nodes
  {
  }

  lemma HandlesMore<T>(its: seq<Iterator<T>>, made: seq<Iterator<T>>, st: ListState<T>, next: ListState<T>)
    requires Handles(its, st) && |made| <= 1 && (forall it :: it in made ==> it !in st.cursors)
    requires next.cursors.Keys == st.cursors.Keys + set it | it in made
    ensures Handles(its + made, next)
  {
  }

  lemma HandlesFewer<T>(its: seq<Iterator<T>>, k: nat, st: ListState<T>, next: ListState<T>)
    requires Handles(its, st) && k < |its| && next.cursors.Keys == st.cursors.Keys - {its[k]}
    ensures Handles(RemoveAt(its, k), next)
  {
    RemoveAtShape(its, k);
  }

  /** One command that leaves the nodes as they are. */
  method PerformOnIterators<T>(list: MultiList<T>, c: Command<T>, its: seq<Iterator<T>>, ghost st: ListState<T>,
                               ghost ends: set<Iterator<T>>)
    returns (its': seq<Iterator<T>>, ghost step: Step<Node<T>, Iterator<T>>, ghost ends': set<Iterator<T>>)
    requires Ok(st) && Mirrors(st, list, ends) && Handles(its, st) && InRange(c, |its|)
    requires !c.DoAppend? && !c.DoInsert? && !c.DoExtract? && !c.DoClear?
    modifies list, list.iters, ends
    ensures Enabled(st, step) && Mirrors(Apply(st, step), list, ends') && Apply(st, step).freed == st.freed
    ensures Handles(its', Apply(st, step)) && list.nodes == old(list.nodes)
    ensures Does(c, its, step) && its' == Held(its, c, step)
    ensures forall it :: it in Apply(st, step).cursors ==> it in st.cursors || fresh(it)
  {
    if c.DoBegin? || c.DoEnd? || c.DoCopy? {
      var made;
      made, step, ends' := Make(list, c, its, st, ends);
      HandlesMore(its, [made], st, Apply(st, step));
      its' := its + [made];
    } else {
      step, ends' := Change(list, c, its, st, ends);
      its' := its;
      if c.DoDestroy? {
        HandlesFewer(its, c.it, st, Apply(st, step));
        its' := RemoveAt(its, c.it);
      }
    }
  }

  /** One command of a program. */
  method Perform<T>(list: MultiList<T>, c: Command<T>, its: seq<Iterator<T>>, ghost st: ListState<T>,
                    ghost ends: set<Iterator<T>>)
    returns (its': seq<Iterator<T>>, ghost step: Step<Node<T>, Iterator<T>>, ghost ends': set<Iterator<T>>)
    requires Ok(st) && Mirrors(st, list, ends) && Handles(its, st) && InRange(c, |its|) && Gone(st.freed)
    modifies list, list.nodes, list.iters, ends
    ensures Enabled(st, step) && Mirrors(Apply(st, step), list, ends') && Gone(Apply(st, step).freed)
    ensures Handles(its', Apply(st, step)) && Does(c, its, step) && its' == Held(its, c, step)
    ensures forall n :: n in list.nodes ==> n in old(list.nodes) || fresh(n)
    ensures forall it :: it in Apply(st, step).cursors ==> it in st.cursors || fresh(it)
  {
    FreedApart(st, list);
    if c.DoAppend? || c.DoInsert? {
      var made;
      made, step := Enter(list, c, its, st, ends);
      HandlesMore(its, made, st, Apply(st, step));
      its', ends' := its + made, ends;
    } else if c.DoExtract? || c.DoClear? {
      step, ends' := Delete(list, c, its, st, ends);
      its' := its;
    } else {
      its', step, ends' := PerformOnIterators(list, c, its, st, ends);
    }
  }

  /** The state of a program after some commands: the run they name, the list that mirrors it, and
      the iterators the program holds. */
  ghost predicate Replayed<T>(commands: seq<Command<T>>, steps: seq<Step<Node<T>, Iterator<T>>>, st: ListState<T>,
                              list: MultiList<T>, its: seq<Iterator<T>>, ends: set<Iterator<T>>)
    reads list, list.nodes, list.iters, ends, st.freed
  {
    && Follows(commands, steps, [], its)
    && EnabledRun(State([], map[], {}), steps) && st == Run(State([], map[], {}), steps)
    && Mirrors(st, list, ends) && Handles(its, st) && Gone(st.freed)
  }

  lemma ReplayedMore<T>(commands: seq<Command<T>>, steps: seq<Step<Node<T>, Iterator<T>>>, st: ListState<T>,
                        its: seq<Iterator<T>>, c: Command<T>, step: Step<Node<T>, Iterator<T>>)
    requires Follows(commands, steps, [], its) && InRange(c, |its|) && Does(c, its, step)
    requires EnabledRun(State([], map[], {}), steps) && st == Run(State([], map[], {}), steps) && Enabled(st, step)
    ensures Follows(commands + [c], steps + [step], [], Held(its, c, step))
    ensures EnabledRun(State([], map[], {}), steps + [step])
    ensures Run(State([], map[], {}), steps + [step]) == Apply(st, step)
  {
    RunOneMore(State([], map[], {}), steps, step);
    FollowsOne(commands, steps, [], its, c, step);
  }

  /** One more command. */
  method ReplayNext<T>(list: MultiList<T>, c: Command<T>, its: seq<Iterator<T>>, ghost st: ListState<T>,
                       ghost ends: set<Iterator<T>>, ghost commands: seq<Command<T>>,
                       ghost steps: seq<Step<Node<T>, Iterator<T>>>)
    returns (its': seq<Iterator<T>>, ghost st': ListState<T>, ghost ends': set<Iterator<T>>,
             ghost steps': seq<Step<Node<T>, Iterator<T>>>)
    requires Replayed(commands, steps, st, list, its, ends)
    modifies list, (set n | n in st.nodes), st.cursors.Keys
    ensures Replayed(commands + [c], steps', st', list, its', ends')
    ensures forall n :: n in st'.nodes ==> n in st.nodes || fresh(n)
    ensures forall it :: it in st'.cursors ==> it in st.cursors || fresh(it)
  {
    if InRange(c, |its|) {
      ghost var step;
      its', step, ends' := Perform(list, c, its, st, ends);
      ReplayedMore(commands, steps, st, its, c, step);
      steps', st' := steps + [step], Apply(st, step);
    } else {
      FollowsNone(commands, steps, [], its, c);
      its', st', ends', steps' := its, st, ends, steps;
    }
  }

  /** Every program on a heap list is the run its commands name: the list mirrors the state that
      run reaches, and no iterator the program holds refers to a deleted node. */
  method Replay<T>(commands: seq<Command<T>>)
    returns (list: MultiList<T>, its: seq<Iterator<T>>, ghost steps: seq<Step<Node<T>, Iterator<T>>>,
             ghost st: ListState<T>, ghost ends: set<Iterator<T>>)
    ensures Replayed(commands, steps, st, list, its, ends)
    ensures forall it :: it in its ==>
      (it.item != null ==> it.item.owner == list) && (it.nextItem != null ==> it.nextItem.owner == list)
  {
    list := new MultiList<T>();
    its, steps, st, ends := [], [], State([], map[], {}), {};
    ghost var done: seq<Command<T>> := [];
    var i := 0;
    while i < |commands|
      invariant 0 <= i <= |commands| && done == commands[..i] && Replayed(done, steps, st, list, its, ends)
      invariant fresh(list) && (forall n :: n in st.nodes ==> fresh(n)) && (forall it :: it in st.cursors ==> fresh(it))
    {
      its, st, ends, steps := ReplayNext(list, commands[i], its, st, ends, done, steps);
      Taken(commands, i);
      done := done + [commands[i]];
      i := i + 1;
    }
    Taken(commands, i);
    NoneDangling(st, list, ends, its);
  }

  lemma Taken<T>(commands: seq<Command<T>>, i: nat)
    requires i <= |commands|
    ensures i < |commands| ==> commands[..i + 1] == commands[..i] + [commands[i]]
    ensures i == |commands| ==> commands[..i] == commands
  {
  }
}
