/** Runs of a PtrMultiListBase with any number of iterators: what every reachable state
    keeps, and what a run does to an iterator that it does not move. */
module ListRuns {
  import opened Wrappers
  import opened Cursors

  datatype State<!N, !I> = State(nodes: seq<N>, cursors: map<I, Cursor<N>>, freed: set<N>)

  datatype Step<N, I> =
    | Append(n: N)
    | Insert(at: I, n: N, res: I)
    | Extract(at: I)
    | Clear
    | Begin(res: I)
    | End(res: I)
    | Copy(src: I, res: I)
    | Assign(dst: I, src: I)
    | Advance(it: I)
    | Destroy(it: I)

  /** Iterators named by a step are live, the ones it makes are new, and nodes are fresh
      allocations. */
  ghost predicate Enabled<N, I>(st: State<N, I>, step: Step<N, I>) {
    match step
    case Append(n) => n !in st.nodes && n !in st.freed
    case Insert(at, n, res) => at in st.cursors && res !in st.cursors && n !in st.nodes && n !in st.freed
    case Extract(at) => at in st.cursors
    case Clear => true
    case Begin(res) => res !in st.cursors
    case End(res) => res !in st.cursors
    case Copy(src, res) => src in st.cursors && res !in st.cursors
    case Assign(dst, src) => dst in st.cursors && src in st.cursors
    case Advance(it) => it in st.cursors
    case Destroy(it) => it in st.cursors
  }

  /** Both chains of the C++ object are sound: no cursor ever holds anything but null or a
      node of the list, so none holds a freed node. */
  ghost predicate Ok<N, I>(st: State<N, I>) {
    && Distinct(st.nodes)
    && (forall i :: i in st.cursors ==> CursorOk(st.nodes, st.cursors[i]))
    && (forall n :: n in st.nodes ==> n !in st.freed)
  }

  ghost function InsertNodes<N>(nodes: seq<N>, c: Cursor<N>, n: N): seq<N>
    requires CursorOk(nodes, c)
  {
    if Target(c).Some? then InsertedBefore(nodes, Target(c).value, n) else nodes + [n]
  }

  /** An insertion through a cursor goes directly before what the cursor visits next, whether its
      own element is still there or was deleted, and to the end when it has nothing to visit. */
  lemma InsertedAhead<N>(nodes: seq<N>, c: Cursor<N>, n: N)
    requires Distinct(nodes) && CursorOk(nodes, c)
    ensures forall x :: x in Ahead(nodes, c) ==> x in nodes
    ensures var a := Ahead(nodes, c);
      InsertNodes(nodes, c, n) == if a == [] then nodes + [n] else InsertedBefore(nodes, a[0], n)
  {
    AheadDistinct(nodes, c);
  }

  ghost function Apply<N, I>(st: State<N, I>, step: Step<N, I>): (r: State<N, I>)
    requires Ok(st) && Enabled(st, step)
  {
    match step
    case Append(n) => st.(nodes := st.nodes + [n])
    case Insert(at, n, res) =>
      var c := st.cursors[at];
      var nodes := InsertNodes(st.nodes, c, n);
      assert n in nodes by { InsertNodesHasNew(st.nodes, c, n); }
      st.(nodes := nodes,
          cursors := (map i | i in st.cursors :: InsertCursor(Target(c), st.cursors[i], n))[res := At(nodes, n)])
    case Extract(at) =>
      var x := st.cursors[at].item;
      if x.None? then st
      else State(Without(st.nodes, x.value),
                 map i | i in st.cursors :: AfterExtract(st.cursors[i], x.value, Succ(st.nodes, x.value)),
                 st.freed + {x.value})
    case Clear => State([], map i | i in st.cursors :: Cursor(None, None), st.freed + set n | n in st.nodes)
    case Begin(res) => st.(cursors := st.cursors[res := AtFront(st.nodes)])
    case End(res) => st.(cursors := st.cursors[res := Cursor(None, None)])
    case Copy(src, res) => st.(cursors := st.cursors[res := st.cursors[src]])
    case Assign(dst, src) => st.(cursors := st.cursors[dst := st.cursors[src]])
    case Advance(it) => st.(cursors := st.cursors[it := AfterNext(st.nodes, st.cursors[it])])
    case Destroy(it) => st.(cursors := st.cursors - {it})
  }

  lemma InsertNodesHasNew<N>(nodes: seq<N>, c: Cursor<N>, n: N)
    requires CursorOk(nodes, c)
    ensures n in InsertNodes(nodes, c, n)
  {
    var r := InsertNodes(nodes, c, n);
    assert r[if Target(c).Some? then IndexOf(nodes, Target(c).value) else |nodes|] == n;
  }

  /** Every step keeps the invariant. */
  lemma StepKeepsOk<N, I>(st: State<N, I>, step: Step<N, I>)
    requires Ok(st) && Enabled(st, step)
    ensures Ok(Apply(st, step))
  {
    match step
    case Append(n) => AppendKeepsOk(st, n);
    case Insert(at, n, res) => InsertKeepsOk(st, at, n, res);
    case Extract(at) => ExtractKeepsOk(st, at);
    case Clear =>
    case Begin(res) =>
      if st.nodes != [] { AtOk(st.nodes, st.nodes[0]); }
    case End(res) =>
    case Copy(src, res) =>
    case Assign(dst, src) =>
    case Advance(it) => NextAhead(st.nodes, st.cursors[it]);
    case Destroy(it) =>
  }

  lemma AppendKeepsOk<N, I>(st: State<N, I>, n: N)
    requires Ok(st) && n !in st.nodes && n !in st.freed
    ensures Ok(Apply(st, Append(n)))
  {
    assert st.nodes + [n] == InsertAt(st.nodes, |st.nodes|, n);
    InsertAtShape(st.nodes, |st.nodes|, n);
    forall i | i in st.cursors
      ensures CursorOk(st.nodes + [n], st.cursors[i])
    {
      AppendAhead(st.nodes, st.cursors[i], n);
    }
  }

  lemma InsertOk<N>(nodes: seq<N>, c: Cursor<N>, n: N)
    requires Distinct(nodes) && CursorOk(nodes, c) && n !in nodes
    ensures Distinct(InsertNodes(nodes, c, n))
    ensures forall x :: x in InsertNodes(nodes, c, n) ==> x in nodes || x == n
    ensures n in InsertNodes(nodes, c, n) && CursorOk(InsertNodes(nodes, c, n), At(InsertNodes(nodes, c, n), n))
  {
    var k := if Target(c).Some? then IndexOf(nodes, Target(c).value) else |nodes|;
    assert nodes + [n] == InsertAt(nodes, |nodes|, n);
    InsertAtShape(nodes, k, n);
    AtOk(InsertNodes(nodes, c, n), n);
  }

  lemma InsertKeepsOk<N, I>(st: State<N, I>, at: I, n: N, res: I)
    requires Ok(st) && Enabled(st, Insert(at, n, res))
    ensures Ok(Apply(st, Insert(at, n, res)))
  {
    var c := st.cursors[at];
    InsertOk(st.nodes, c, n);
    forall i | i in st.cursors
      ensures CursorOk(InsertNodes(st.nodes, c, n), InsertCursor(Target(c), st.cursors[i], n))
    {
      if Target(c).Some? {
        InsertAhead(st.nodes, st.cursors[i], Target(c).value, n);
      } else {
        AppendAhead(st.nodes, st.cursors[i], n);
      }
    }
  }

  lemma ExtractKeepsOk<N, I>(st: State<N, I>, at: I)
    requires Ok(st) && at in st.cursors
    ensures Ok(Apply(st, Extract(at)))
  {
    if st.cursors[at].item.Some? {
      var x := st.cursors[at].item.value;
      RemoveAtShape(st.nodes, IndexOf(st.nodes, x));
      forall i | i in st.cursors
        ensures CursorOk(Without(st.nodes, x), AfterExtract(st.cursors[i], x, Succ(st.nodes, x)))
      {
        ExtractAhead(st.nodes, st.cursors[i], x);
      }
    }
  }

  // Runs.

  ghost predicate EnabledRun<N, I>(st: State<N, I>, steps: seq<Step<N, I>>)
    requires Ok(st)
    decreases |steps|
  {
    steps == [] ||
    (Enabled(st, steps[0]) && (StepKeepsOk(st, steps[0]); EnabledRun(Apply(st, steps[0]), steps[1..])))
  }

  ghost function Run<N, I>(st: State<N, I>, steps: seq<Step<N, I>>): (r: State<N, I>)
    requires Ok(st) && EnabledRun(st, steps)
    ensures Ok(r)
    decreases |steps|
  {
    if steps == [] then st
    else StepKeepsOk(st, steps[0]); Run(Apply(st, steps[0]), steps[1..])
  }

  lemma {:induction false} RunOneMore<N, I>(st: State<N, I>, steps: seq<Step<N, I>>, step: Step<N, I>)
    requires Ok(st) && EnabledRun(st, steps) && Enabled(Run(st, steps), step)
    ensures EnabledRun(st, steps + [step]) && Run(st, steps + [step]) == Apply(Run(st, steps), step)
    decreases |steps|
  {
    var all := steps + [step];
    if steps == [] {
      assert all == [step] && all[1..] == [];
      StepKeepsOk(st, step);
    } else {
      StepKeepsOk(st, steps[0]);
      RunOneMore(Apply(st, steps[0]), steps[1..], step);
      assert all[1..] == steps[1..] + [step];
    }
  }

  /** In every run that starts with an empty list, no iterator ever refers to a deleted
      node. */
  lemma NoDanglingIterator<N, I>(steps: seq<Step<N, I>>, it: I)
    requires EnabledRun(State([], map[], {}), steps) && it in Run(State([], map[], {}), steps).cursors
    ensures var st := Run(State([], map[], {}), steps);
      && (st.cursors[it].item.Some? ==> st.cursors[it].item.value !in st.freed)
      && (st.cursors[it].next.Some? ==> st.cursors[it].next.value !in st.freed)
  {
    var st := Run(State([], map[], {}), steps);
    assert CursorOk(st.nodes, st.cursors[it]);
  }

  // What happens to an iterator that a run does not move.

  ghost predicate Moves<N, I>(step: Step<N, I>, it: I) {
    step == Clear || step == Advance(it) || step == Destroy(it) || (step.Assign? && step.dst == it)
  }

  /** The elements of s that lie in a set, in order. */
  ghost function Keep<N>(s: seq<N>, keep: set<N>): seq<N> {
    if s == [] then [] else (if s[0] in keep then [s[0]] else []) + Keep(s[1..], keep)
  }

  lemma {:induction false} KeepConcat<N>(a: seq<N>, b: seq<N>, keep: set<N>)
    ensures Keep(a + b, keep) == Keep(a, keep) + Keep(b, keep)
  {
    if a == [] {
      assert a + b == b;
    } else {
      var x, rest := a[0], a[1..];
      KeepConcat(rest, b, keep);
      assert a == [x] + rest && a + b == [x] + (rest + b);
      KeepFirst(x, rest, keep);
      KeepFirst(x, rest + b, keep);
    }
  }

  lemma KeepFirst<N>(x: N, s: seq<N>, keep: set<N>)
    ensures Keep([x] + s, keep) == (if x in keep then [x] else []) + Keep(s, keep)
  {
    assert ([x] + s)[1..] == s;
  }

  lemma {:induction false} KeepSame<N>(s: seq<N>, k1: set<N>, k2: set<N>)
    requires forall x :: x in s ==> (x in k1 <==> x in k2)
    ensures Keep(s, k1) == Keep(s, k2)
  {
    if s != [] {
      assert s[0] in s;
      KeepSame(s[1..], k1, k2);
    }
  }

  lemma {:induction false} KeepInserted<N>(s: seq<N>, k: nat, n: N, keep: set<N>)
    requires k <= |s| && n !in keep
    ensures Keep(InsertAt(s, k, n), keep) == Keep(s, keep)
  {
    var a, b := s[..k], s[k..];
    assert s == a + b;
    KeepConcat(a, b, keep);
    KeepConcat(a + [n], b, keep);
    KeepConcat(a, [n], keep);
    assert Keep([n], keep) == [];
  }

  lemma {:induction false} KeepWithout<N>(s: seq<N>, x: N, keep: set<N>)
    requires Distinct(s)
    ensures Keep(Without(s, x), keep) == Keep(s, keep - {x})
  {
    if x in s {
      var k := IndexOf(s, x);
      KeepConcat(s[..k], s[k + 1..], keep);
      KeepConcat(s[..k], [x], keep - {x});
      KeepConcat(s[..k] + [x], s[k + 1..], keep - {x});
      assert s == s[..k] + [x] + s[k + 1..];
      assert Keep([x], keep - {x}) == [];
      KeepSame(s[..k], keep, keep - {x});
      KeepSame(s[k + 1..], keep, keep - {x});
    } else {
      KeepSame(s, keep, keep - {x});
    }
  }

  ghost function AheadOf<N, I>(st: State<N, I>, it: I): seq<N>
    requires Ok(st) && it in st.cursors
  {
    Ahead(st.nodes, st.cursors[it])
  }

  /** One step of somebody else takes from an iterator's future exactly the elements it
      deletes, and may only add elements that are new. */
  lemma {:induction false} StepLeaves<N, I>(st: State<N, I>, step: Step<N, I>, it: I, known: set<N>)
    requires Ok(st) && Enabled(st, step) && it in st.cursors && !Moves(step, it)
    requires forall x :: x in known ==> x in st.nodes || x in st.freed
    ensures Ok(Apply(st, step)) && it in Apply(st, step).cursors
    ensures forall x :: x in known ==> x in Apply(st, step).nodes || x in Apply(st, step).freed
    ensures st.freed <= Apply(st, step).freed
    ensures Keep(AheadOf(Apply(st, step), it), known) == Keep(AheadOf(st, it), known - Apply(st, step).freed)
  {
    StepKeepsOk(st, step);
    var c, a, st' := st.cursors[it], AheadOf(st, it), Apply(st, step);
    AheadDistinct(st.nodes, c);
    KeepSame(a, known, known - st.freed);
    match step
    case Append(n) =>
      AppendLeaves(st.nodes, c, n, known);
    case Insert(at, n, res) =>
      InsertLeaves(st.nodes, st.cursors[at], c, n, known);
      forall x | x in known
        ensures x in st'.nodes || x in st'.freed
      {
        InsertNodesKeeps(st.nodes, st.cursors[at], n, x);
      }
    case Extract(at) =>
      if st.cursors[at].item.Some? {
        var x := st.cursors[at].item.value;
        ExtractLeaves(st.nodes, c, x, known);
        KeepSame(a, known - {x}, known - st'.freed);
      }
    case _ =>
  }

  lemma {:induction false} AppendLeaves<N>(nodes: seq<N>, c: Cursor<N>, n: N, known: set<N>)
    requires Distinct(nodes) && CursorOk(nodes, c) && n !in nodes && n !in known
    ensures CursorOk(nodes + [n], c)
    ensures Keep(Ahead(nodes + [n], c), known) == Keep(Ahead(nodes, c), known)
  {
    AppendAhead(nodes, c, n);
    KeepConcat(Ahead(nodes, c), [n], known);
    assert Keep([n], known) == [];
  }

  lemma {:induction false} ExtractLeaves<N>(nodes: seq<N>, c: Cursor<N>, x: N, known: set<N>)
    requires Distinct(nodes) && CursorOk(nodes, c) && x in nodes
    ensures CursorOk(Without(nodes, x), AfterExtract(c, x, Succ(nodes, x)))
    ensures Keep(Ahead(Without(nodes, x), AfterExtract(c, x, Succ(nodes, x))), known)
      == Keep(Ahead(nodes, c), known - {x})
    ensures forall y :: y in nodes ==> y in Without(nodes, x) || y == x
  {
    ExtractAhead(nodes, c, x);
    AheadDistinct(nodes, c);
    KeepWithout(Ahead(nodes, c), x, known);
    RemoveAtShape(nodes, IndexOf(nodes, x));
  }

  lemma InsertNodesKeeps<N>(nodes: seq<N>, c: Cursor<N>, n: N, x: N)
    requires CursorOk(nodes, c)
    ensures x in nodes ==> x in InsertNodes(nodes, c, n)
  {
    if x in nodes {
      var r, i := InsertNodes(nodes, c, n), IndexOf(nodes, x);
      var k := if Target(c).Some? then IndexOf(nodes, Target(c).value) else |nodes|;
      assert r[if i < k then i else i + 1] == x;
    }
  }

  lemma {:induction false} InsertLeaves<N>(nodes: seq<N>, at: Cursor<N>, c: Cursor<N>, n: N, known: set<N>)
    requires Distinct(nodes) && CursorOk(nodes, at) && CursorOk(nodes, c) && n !in nodes && n !in known
    ensures CursorOk(InsertNodes(nodes, at, n), InsertCursor(Target(at), c, n))
    ensures Keep(Ahead(InsertNodes(nodes, at, n), InsertCursor(Target(at), c, n)), known)
      == Keep(Ahead(nodes, c), known)
  {
    var a := Ahead(nodes, c);
    if Target(at).Some? {
      var y := Target(at).value;
      InsertAhead(nodes, c, y, n);
      if y in a && a[0] != y {
        KeepInserted(a, IndexOf(a, y), n, known);
      }
    } else {
      AppendLeaves(nodes, c, n, known);
    }
  }

  /** Deletion and insertion invalidate no iterator: after any run that does not move it,
      an iterator still visits, in the same order, exactly the elements it was going to
      visit minus the deleted ones; whatever else it visits was inserted by the run. */
  lemma {:induction false} RunLeaves<N, I>(st: State<N, I>, steps: seq<Step<N, I>>, it: I, known: set<N>)
    requires Ok(st) && EnabledRun(st, steps) && it in st.cursors
    requires forall s :: s in steps ==> !Moves(s, it)
    requires forall x :: x in known ==> x in st.nodes || x in st.freed
    ensures it in Run(st, steps).cursors && st.freed <= Run(st, steps).freed
    ensures Keep(AheadOf(Run(st, steps), it), known) == Keep(AheadOf(st, it), known - Run(st, steps).freed)
    decreases |steps|
  {
    if steps == [] {
      AheadDistinct(st.nodes, st.cursors[it]);
      KeepSame(AheadOf(st, it), known, known - st.freed);
    } else {
      assert steps[0] in steps;
      StepLeaves(st, steps[0], it, known);
      var st1 := Apply(st, steps[0]);
      RunLeaves(st1, steps[1..], it, known);
      var last := Run(st1, steps[1..]);
      StepLeaves(st, steps[0], it, known - last.freed);
      assert known - last.freed - st1.freed == known - last.freed;
    }
  }
}
