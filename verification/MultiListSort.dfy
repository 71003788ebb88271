/** PtrMultiList::merge and PtrMultiList::sort: a merge sort that moves elements between
    two lists through live iterators. */
module MultiListSorting {
  import opened Wrappers
  import opened Cursors
  import opened MultiLists

  /** What std::sort-like algorithms ask of a predicate. */
  ghost predicate StrictWeakOrder<T(!new)>(p: (T, T) -> bool) {
    && (forall x :: !p(x, x))
    && (forall x, y, z :: p(x, y) && p(y, z) ==> p(x, z))
    && (forall x, y, z :: p(x, z) ==> p(x, y) || p(y, z))
  }

  /** No later element precedes an earlier one. */
  ghost predicate Sorted<T>(s: seq<T>, p: (T, T) -> bool) {
    forall i, j :: 0 <= i < j < |s| ==> !p(s[j], s[i])
  }

  /** The first q elements of s may all stand before every element of rest. */
  ghost predicate Below<T>(s: seq<T>, q: nat, rest: seq<T>, p: (T, T) -> bool) {
    q <= |s| && forall i, j :: 0 <= i < q && 0 <= j < |rest| ==> !p(rest[j], s[i])
  }

  ghost function Data<T>(s: seq<Node<T>>): seq<T> {
    seq(|s|, i requires 0 <= i < |s| => s[i].data)
  }

  lemma DataShape<T>(s: seq<Node<T>>, k: nat, n: Node<T>)
    ensures k <= |s| ==> Data(InsertAt(s, k, n)) == InsertAt(Data(s), k, n.data)
    ensures k < |s| ==> Data(RemoveAt(s, k)) == RemoveAt(Data(s), k)
    ensures |s| > 0 ==> Data(s[1..]) == Data(s)[1..]
  {
  }

  lemma MultisetShape<T>(s: seq<T>, k: nat, x: T)
    ensures k <= |s| ==> multiset(InsertAt(s, k, x)) == multiset(s) + multiset{x}
    ensures k < |s| ==> multiset(RemoveAt(s, k)) + multiset{s[k]} == multiset(s)
  {
    if k <= |s| {
      assert s == s[..k] + s[k..];
    }
    if k < |s| {
      assert s == s[..k] + [s[k]] + s[k + 1..];
    }
  }

  /** One step of the merge: the first remaining element goes in at the first place where
      it is not after the element there. */
  lemma InsertKeepsOrder<T(!new)>(s: seq<T>, q: nat, rest: seq<T>, p: (T, T) -> bool)
    requires StrictWeakOrder(p) && |rest| > 0
    requires Sorted(s, p) && Sorted(rest, p) && Below(s, q, rest, p)
    requires q < |s| ==> !p(s[q], rest[0])
    ensures Sorted(InsertAt(s, q, rest[0]), p)
    ensures Sorted(rest[1..], p) && Below(InsertAt(s, q, rest[0]), q + 1, rest[1..], p)
  {
    var r := InsertAt(s, q, rest[0]);
    forall j | q + 1 < j < |r|
      ensures !p(r[j], r[q])
    {
      assert !p(r[j], s[q]);
    }
  }

  /** One advance of the merge: an element that precedes rest[0] may stay before rest. */
  lemma AdvanceKeepsOrder<T(!new)>(s: seq<T>, q: nat, rest: seq<T>, p: (T, T) -> bool)
    requires StrictWeakOrder(p) && q < |s| && |rest| > 0
    requires Sorted(rest, p) && Below(s, q, rest, p) && p(s[q], rest[0])
    ensures Below(s, q + 1, rest, p)
  {
  }

  /** The iterator stands on index q of the list, with its next pointer up to date. */
  ghost predicate StandsAt<T>(list: MultiList<T>, it: Iterator<T>, q: int)
    reads list`nodes, list`iters, it`item, it`nextItem
  {
    && 0 <= q <= |list.nodes| && it in list.iters
    && it.item == NodeOrNull(list.nodes, q)
    && it.nextItem == NodeOrNull(list.nodes, q + 1)
  }

  /** On numbers: no number is less than one before it. */
  lemma SortedNumbers(s: seq<int>)
    ensures Sorted(s, (a, b) => a < b) <==> forall i, j :: 0 <= i < j < |s| ==> s[i] <= s[j]
  {
  }

  /** The nodes of a list are among those it had, or new. */
  twostate predicate NodesKept<T>(new list: MultiList<T>, was: seq<Node<T>>)
    reads list`nodes
  {
    forall i :: 0 <= i < |list.nodes| ==> list.nodes[i] in was || fresh(list.nodes[i])
  }

  /** `++i` on an iterator that stands on an element. */
  method Advance<T>(list: MultiList<T>, it: Iterator<T>, ghost q: nat)
    requires list.Valid() && StandsAt(list, it, q) && q < |list.nodes|
    modifies it`item, it`nextItem
    ensures list.Valid() && StandsAt(list, it, q + 1)
  {
    list.LocateIter(it);
    assert q + 1 < |list.nodes| ==> list.NodeLinked(list.nodes, q + 1);
    it.Next();
  }

  /** `insertNew(i, elem)`; the returned iterator is a temporary. */
  method InsertHere<T>(list: MultiList<T>, it: Iterator<T>, elem: T, ghost q: nat) returns (ghost n: Node<T>)
    requires list.Valid() && StandsAt(list, it, q)
    modifies list, list.nodes`next, list.nodes`pThis, list.nodes`pos
    modifies list.iters`nextItem, list.iters`pThis, list.iters`pos, list.iters`nextIterator
    ensures list.Valid() && list.iters == old(list.iters) && fresh(n)
    ensures list.nodes == InsertAt(old(list.nodes), q, n) && n.data == elem && NodesKept(list, old(list.nodes))
    ensures StandsAt(list, it, q + 1)
  {
    var res := InsertBy(list, it, elem, q);
    n := res.item;
    list.DestroyFirst(res);
  }

  method InsertBy<T>(list: MultiList<T>, it: Iterator<T>, elem: T, ghost q: nat) returns (res: Iterator<T>)
    requires list.Valid() && StandsAt(list, it, q)
    modifies list, list.nodes`next, list.nodes`pThis, list.nodes`pos, list.iters`nextItem, list.iters`pThis
    modifies list.iters`pos
    ensures list.Valid() && fresh(res) && list.iters == [res] + old(list.iters)
    ensures res.item != null && fresh(res.item) && res.item.data == elem
    ensures list.nodes == InsertAt<Node<T>>(old(list.nodes), q, res.item) && NodesKept(list, old(list.nodes))
    ensures StandsAt(list, it, q + 1)
  {
    assert q < |list.nodes| ==> list.NodeNumbered(q);
    assert q + 1 < |list.nodes| ==> list.NodeNumbered(q + 1);
    res := list.Insert(it, elem);
  }

  /** The inner loop of merge: skip the elements that precede elem. */
  method SkipSmaller<T(!new)>(list: MultiList<T>, it: Iterator<T>, elem: T, p: (T, T) -> bool,
                              ghost q0: nat, ghost rest: seq<T>, ghost other: MultiList<T>)
    returns (ghost q: nat)
    requires list.Valid() && other.Valid() && other != list && StandsAt(list, it, q0) && StrictWeakOrder(p)
    requires |rest| > 0 && rest[0] == elem && Sorted(rest, p) && Below(Data(list.nodes), q0, rest, p)
    modifies it`item, it`nextItem
    ensures list.Valid() && other.Valid() && StandsAt(list, it, q) && Below(Data(list.nodes), q, rest, p)
    ensures q < |list.nodes| ==> !p(list.nodes[q].data, elem)
  {
    q := q0;
    other.NotRegisteredWith(list, it);
    while it.item != null && p(it.item.data, elem)
      invariant list.Valid() && other.Valid() && StandsAt(list, it, q) && Below(Data(list.nodes), q, rest, p)
      decreases |list.nodes| - q
    {
      AdvanceKeepsOrder(Data(list.nodes), q, rest, p);
      Advance(list, it, q);
      q := q + 1;
    }
  }

  lemma Placed<T(!new)>(s: seq<Node<T>>, q: nat, n: Node<T>, r: seq<Node<T>>, p: (T, T) -> bool)
    requires StrictWeakOrder(p) && |r| > 0 && n.data == r[0].data
    requires Sorted(Data(s), p) && Sorted(Data(r), p) && Below(Data(s), q, Data(r), p)
    requires q < |s| ==> !p(s[q].data, r[0].data)
    ensures q <= |s| && Sorted(Data(InsertAt(s, q, n)), p) && Sorted(Data(r[1..]), p)
    ensures Below(Data(InsertAt(s, q, n)), q + 1, Data(r[1..]), p)
  {
    InsertKeepsOrder(Data(s), q, Data(r), p);
    DataShape(s, q, n);
    DataShape(r, 0, r[0]);
  }

  /** One round of merge: move the first element of the other list to its place. */
  method MergeOne<T(!new)>(list: MultiList<T>, other: MultiList<T>, it: Iterator<T>, p: (T, T) -> bool, ghost q0: nat)
    returns (ghost q: nat, ghost n: Node<T>)
    requires list.Valid() && other.Valid() && other != list && other.nodes != []
    requires StandsAt(list, it, q0) && StrictWeakOrder(p)
    requires Sorted(Data(list.nodes), p) && Sorted(Data(other.nodes), p)
    requires Below(Data(list.nodes), q0, Data(other.nodes), p)
    modifies list, list.nodes`next, list.nodes`pThis, list.nodes`pos
    modifies list.iters`item, list.iters`nextItem, list.iters`pThis, list.iters`pos, list.iters`nextIterator
    modifies other, other.nodes`next, other.nodes`pThis, other.nodes`pos, other.nodes`owner
    modifies other.iters`item, other.iters`nextItem, other.iters`pThis, other.iters`pos, other.iters`nextIterator
    ensures list.Valid() && other.Valid()
    ensures list.iters == old(list.iters) && other.iters == old(other.iters)
    ensures other.nodes == old(other.nodes)[1..]
    ensures 0 < q <= |old(list.nodes)| + 1 && list.nodes == InsertAt(old(list.nodes), q - 1, n)
    ensures n.data == old(other.nodes)[0].data && NodesKept(list, old(list.nodes))
    ensures StandsAt(list, it, q)
    ensures Sorted(Data(list.nodes), p) && Sorted(Data(other.nodes), p)
    ensures Below(Data(list.nodes), q, Data(other.nodes), p)
  {
    ghost var s, r := list.nodes, other.nodes;
    var elem := TakeFront(other, list);
    q := SkipSmaller(list, it, elem, p, q0, Data(r), other);
    n := PutInto(list, it, elem, q, other);
    Placed(s, q, n, r, p);
    q := q + 1;
  }

  /** `extractFront` of one list leaves any other list alone. */
  method TakeFront<T>(other: MultiList<T>, ghost list: MultiList<T>) returns (elem: T)
    requires other.Valid() && list.Valid() && other != list && other.nodes != []
    modifies other, other.nodes`next, other.nodes`pThis, other.nodes`pos, other.nodes`owner
    modifies other.iters`item, other.iters`nextItem, other.iters`pThis, other.iters`pos, other.iters`nextIterator
    ensures other.Valid() && list.Valid()
    ensures other.iters == old(other.iters) && other.nodes == old(other.nodes)[1..] && elem == old(other.nodes)[0].data
    ensures forall it :: it in list.iters ==> it.item == old(it.item) && it.nextItem == old(it.nextItem)
  {
    list.ApartNodes(other);
    list.Apart(other);
    var r := other.ExtractFront();
    elem := r.value;
    list.StaysValid();
  }

  /** Insertion into one list leaves any other list alone. */
  method PutInto<T>(list: MultiList<T>, it: Iterator<T>, elem: T, ghost q: nat, ghost other: MultiList<T>)
    returns (ghost n: Node<T>)
    requires list.Valid() && other.Valid() && other != list && StandsAt(list, it, q)
    modifies list, list.nodes`next, list.nodes`pThis, list.nodes`pos
    modifies list.iters`nextItem, list.iters`pThis, list.iters`pos, list.iters`nextIterator
    ensures list.Valid() && other.Valid() && list.iters == old(list.iters) && fresh(n)
    ensures list.nodes == InsertAt(old(list.nodes), q, n) && n.data == elem && NodesKept(list, old(list.nodes))
    ensures StandsAt(list, it, q + 1)
  {
    list.ApartNodes(other);
    list.Apart(other);
    n := InsertHere(list, it, elem, q);
    other.StaysValid();
  }

  /** Merge two sorted lists; the other list is empty afterwards. */
  method Merge<T(!new)>(list: MultiList<T>, other: MultiList<T>, p: (T, T) -> bool)
    requires list.Valid() && other.Valid() && other != list && StrictWeakOrder(p)
    requires Sorted(Data(list.nodes), p) && Sorted(Data(other.nodes), p)
    modifies list, list.nodes`next, list.nodes`pThis, list.nodes`pos
    modifies list.iters`item, list.iters`nextItem, list.iters`pThis, list.iters`pos, list.iters`nextIterator
    modifies other, other.nodes`next, other.nodes`pThis, other.nodes`pos, other.nodes`owner
    modifies other.iters`item, other.iters`nextItem, other.iters`pThis, other.iters`pos, other.iters`nextIterator
    ensures list.Valid() && other.Valid() && other.nodes == []
    ensures list.iters == old(list.iters) && other.iters == old(other.iters) && NodesKept(list, old(list.nodes))
    ensures Sorted(Data(list.nodes), p)
    ensures multiset(Data(list.nodes)) == multiset(Data(old(list.nodes))) + multiset(Data(old(other.nodes)))
  {
    var it := BeginBeside(list, other);
    MergeLoop(list, other, it, p);
    ReleaseBeside(list, it, other);
  }

  /** The loop of merge, from an iterator at the beginning of the list. */
  method MergeLoop<T(!new)>(list: MultiList<T>, other: MultiList<T>, it: Iterator<T>, p: (T, T) -> bool)
    requires list.Valid() && other.Valid() && other != list && StrictWeakOrder(p)
    requires StandsAt(list, it, 0) && Sorted(Data(list.nodes), p) && Sorted(Data(other.nodes), p)
    modifies list, list.nodes`next, list.nodes`pThis, list.nodes`pos
    modifies list.iters`item, list.iters`nextItem, list.iters`pThis, list.iters`pos, list.iters`nextIterator
    modifies other, other.nodes`next, other.nodes`pThis, other.nodes`pos, other.nodes`owner
    modifies other.iters`item, other.iters`nextItem, other.iters`pThis, other.iters`pos, other.iters`nextIterator
    ensures list.Valid() && other.Valid() && other.nodes == []
    ensures list.iters == old(list.iters) && other.iters == old(other.iters) && NodesKept(list, old(list.nodes))
    ensures Sorted(Data(list.nodes), p)
    ensures multiset(Data(list.nodes)) == multiset(Data(old(list.nodes))) + multiset(Data(old(other.nodes)))
  {
    ghost var q, done := 0, 0;
    while other.firstNode != null
      invariant list.Valid() && other.Valid() && StandsAt(list, it, q)
      invariant list.iters == old(list.iters) && other.iters == old(other.iters)
      invariant NodesKept(list, old(list.nodes))
      invariant 0 <= done <= |old(other.nodes)| && other.nodes == old(other.nodes)[done..]
      invariant Sorted(Data(list.nodes), p) && Sorted(Data(other.nodes), p)
      invariant Below(Data(list.nodes), q, Data(other.nodes), p)
      invariant multiset(Data(list.nodes)) + multiset(Data(other.nodes))
             == multiset(Data(old(list.nodes))) + multiset(Data(old(other.nodes)))
      decreases |other.nodes|
    {
      ghost var s, r := list.nodes, other.nodes;
      ghost var n;
      q, n := MergeOne(list, other, it, p, q);
      MovedOne(s, r, q - 1, n);
      done := done + 1;
    }
  }

  lemma MovedOne<T>(s: seq<Node<T>>, r: seq<Node<T>>, k: nat, n: Node<T>)
    requires |r| > 0 && k <= |s| && n.data == r[0].data
    ensures multiset(Data(InsertAt(s, k, n))) + multiset(Data(r[1..])) == multiset(Data(s)) + multiset(Data(r))
  {
    DataShape(s, k, n);
    DataShape(r, 0, r[0]);
    MultisetShape(Data(s), k, n.data);
    assert Data(r) == [r[0].data] + Data(r)[1..];
  }

  /** `begin()` of one list leaves any other list alone. */
  method BeginBeside<T>(list: MultiList<T>, ghost other: MultiList<T>) returns (it: Iterator<T>)
    requires list.Valid() && other.Valid() && other != list
    modifies list`firstIterator, list`iters, list.iters`pThis, list.iters`pos
    ensures list.Valid() && other.Valid() && fresh(it)
    ensures list.iters == [it] + old(list.iters) && StandsAt(list, it, 0)
  {
    list.Apart(other);
    it := list.Begin();
    assert list.iters[0] == it;
    assert other.ItersNumbered() && other.ItersLinked(other.iters);
  }

  method ReleaseBeside<T>(list: MultiList<T>, it: Iterator<T>, ghost other: MultiList<T>)
    requires list.Valid() && other.Valid() && other != list && |list.iters| > 0 && list.iters[0] == it
    modifies list`firstIterator, list`iters, it`owner
    modifies list.iters`pThis, list.iters`nextIterator, list.iters`pos
    ensures list.Valid() && other.Valid() && list.iters == old(list.iters)[1..]
  {
    list.Apart(other);
    other.NotRegisteredWith(list, it);
    list.DestroyFirst(it);
    assert other.ItersNumbered() && other.ItersLinked(other.iters);
  }

  /** `extractElement(i)`: the argument is a temporary copy of the iterator.  Afterwards i
      has no item, and its next pointer is the element that followed. */
  method ExtractHere<T>(list: MultiList<T>, it: Iterator<T>, ghost q: nat) returns (elem: T)
    requires list.Valid() && StandsAt(list, it, q) && q < |list.nodes| && list.iters[0] == it
    modifies list, list.nodes`next, list.nodes`pThis, list.nodes`pos, list.nodes`owner
    modifies list.iters`item, list.iters`nextItem, list.iters`pThis, list.iters`pos, list.iters`nextIterator
    ensures list.Valid() && list.iters == old(list.iters)
    ensures list.nodes == RemoveAt(old(list.nodes), q) && elem == old(list.nodes)[q].data
    ensures it.item == null && it.nextItem == NodeOrNull(list.nodes, q)
  {
    var c := CopyFirst(list, it);
    elem := ExtractBoth(list, c, it, q);
    list.DestroyFirst(c);
  }

  /** A copy of the most recently registered iterator. */
  method CopyFirst<T>(list: MultiList<T>, it: Iterator<T>) returns (c: Iterator<T>)
    requires list.Valid() && it in list.iters && list.iters[0] == it
    modifies list`firstIterator, list`iters
    modifies list.iters`pThis, list.iters`nextIterator, list.iters`pos
    ensures list.Valid() && fresh(c) && list.iters == [c] + old(list.iters)
    ensures c.item == it.item && c.nextItem == it.nextItem
  {
    assert list.IterNumbered(0);
    assert it.Chain() <= set x | x in list.iters;
    c := new Iterator.Copy(it);
    assert list.iters == [c] + old(list.iters);
  }

  /** Extracting through one iterator also takes the item away from another one on it. */
  method ExtractBoth<T>(list: MultiList<T>, c: Iterator<T>, ghost it: Iterator<T>, ghost q: nat) returns (elem: T)
    requires list.Valid() && StandsAt(list, it, q) && q < |list.nodes| && c in list.iters && c.item == it.item
    modifies list`firstNode, list`pLastNode, list`nodes, list.iters`item, list.iters`nextItem
    modifies list.nodes`next, list.nodes`pThis, list.nodes`pos, list.nodes`owner
    ensures list.Valid()
    ensures list.nodes == RemoveAt(old(list.nodes), q) && elem == old(list.nodes)[q].data
    ensures it.item == null && it.nextItem == NodeOrNull(list.nodes, q)
  {
    assert list.NodeNumbered(q) && (q + 1 < |list.nodes| ==> list.NodeNumbered(q + 1));
    assert NodeOrNull(RemoveAt(list.nodes, q), q) == NodeOrNull(list.nodes, q + 1);
    var r := list.ExtractElement(c);
    elem := r.value;
    assert it.AsCursor() == AfterExtract(old(it.AsCursor()), old(list.nodes)[q], Opt(old(list.nodes[q].next)));
  }

  /** Append to one list; any other list is left alone. */
  method AppendBeside<T>(tmp: MultiList<T>, elem: T, ghost list: MultiList<T>) returns (ghost n: Node<T>)
    requires tmp.Valid() && list.Valid() && tmp != list
    modifies tmp`firstNode, tmp`pLastNode, tmp`nodes, tmp.nodes`next, tmp.nodes`pos
    ensures tmp.Valid() && list.Valid()
    ensures tmp.nodes == old(tmp.nodes) + [n] && fresh(n) && n.data == elem
  {
    list.ApartNodes(tmp);
    list.Apart(tmp);
    n := tmp.InsertAtEnd(elem);
    list.StaysValid();
  }

  method ExtractBeside<T>(list: MultiList<T>, it: Iterator<T>, ghost q: nat, ghost tmp: MultiList<T>) returns (elem: T)
    requires list.Valid() && tmp.Valid() && tmp != list
    requires StandsAt(list, it, q) && q < |list.nodes| && list.iters[0] == it
    modifies list, list.nodes`next, list.nodes`pThis, list.nodes`pos, list.nodes`owner
    modifies list.iters`item, list.iters`nextItem, list.iters`pThis, list.iters`pos, list.iters`nextIterator
    ensures list.Valid() && tmp.Valid() && list.iters == old(list.iters)
    ensures list.nodes == RemoveAt(old(list.nodes), q) && elem == old(list.nodes)[q].data
    ensures it.item == null && it.nextItem == NodeOrNull(list.nodes, q)
  {
    list.ApartNodes(tmp);
    list.Apart(tmp);
    elem := ExtractHere(list, it, q);
    tmp.StaysValid();
  }

  /** `++i` on an iterator whose element has just been extracted. */
  method AdvancePastExtracted<T>(list: MultiList<T>, it: Iterator<T>, ghost q: nat, ghost tmp: MultiList<T>)
    requires list.Valid() && tmp.Valid() && tmp != list && it in list.iters && q <= |list.nodes|
    requires it.item == null && it.nextItem == NodeOrNull(list.nodes, q)
    modifies it`item, it`nextItem
    ensures list.Valid() && tmp.Valid() && StandsAt(list, it, q)
  {
    list.LocateIter(it);
    tmp.NotRegisteredWith(list, it);
    assert q < |list.nodes| ==> list.NodeLinked(list.nodes, q);
    it.Next();
  }

  /** One odd round of the splitting loop: the element goes to the other list. */
  method MoveOver<T>(list: MultiList<T>, it: Iterator<T>, ghost q: nat, tmp: MultiList<T>) returns (ghost n: Node<T>)
    requires list.Valid() && tmp.Valid() && tmp != list
    requires StandsAt(list, it, q) && q < |list.nodes| && list.iters[0] == it
    modifies list, list.nodes`next, list.nodes`pThis, list.nodes`pos, list.nodes`owner
    modifies list.iters`item, list.iters`nextItem, list.iters`pThis, list.iters`pos, list.iters`nextIterator
    modifies tmp`firstNode, tmp`pLastNode, tmp`nodes, tmp.nodes`next, tmp.nodes`pos
    ensures list.Valid() && tmp.Valid() && list.iters == old(list.iters)
    ensures list.nodes == RemoveAt(old(list.nodes), q) && StandsAt(list, it, q)
    ensures tmp.nodes == old(tmp.nodes) + [n] && fresh(n) && n.data == old(list.nodes)[q].data
    ensures NodesKept(list, old(list.nodes)) && NodesKept(tmp, old(tmp.nodes))
  {
    var elem := ExtractBeside(list, it, q, tmp);
    n := AppendBeside(tmp, elem, list);
    AdvancePastExtracted(list, it, q, tmp);
  }

  // The elements at even and at odd indexes.

  ghost function Evens<T>(s: seq<T>): seq<T> {
    if s == [] then [] else Evens(s[..|s| - 1]) + if |s| % 2 == 1 then [s[|s| - 1]] else []
  }

  ghost function Odds<T>(s: seq<T>): seq<T> {
    if s == [] then [] else Odds(s[..|s| - 1]) + if |s| % 2 == 1 then [] else [s[|s| - 1]]
  }

  lemma {:induction false} Halves<T>(s: seq<T>)
    ensures |Evens(s)| == (|s| + 1) / 2 && |Odds(s)| == |s| / 2
  {
    if s != [] { Halves(s[..|s| - 1]); }
  }

  lemma {:induction false} HalvesTogether<T>(s: seq<T>)
    ensures multiset(Evens(s)) + multiset(Odds(s)) == multiset(s)
  {
    if s != [] {
      var front, last := s[..|s| - 1], s[|s| - 1];
      HalvesTogether(front);
      assert s == front + [last];
      if |s| % 2 == 1 {
        assert Evens(s) == Evens(front) + [last] && Odds(s) == Odds(front) + [];
      } else {
        assert Odds(s) == Odds(front) + [last] && Evens(s) == Evens(front) + [];
      }
    }
  }

  /** The two lists after n rounds of the splitting loop over the elements d. */
  ghost predicate SplitAt<T>(d: seq<T>, n: nat, list: seq<T>, tmp: seq<T>) {
    n <= |d| && list == Evens(d[..n]) + d[n..] && tmp == Odds(d[..n])
  }

  /** One round on values: an odd element moves over, an even one stays. */
  lemma SplitNext<T>(d: seq<T>, n: nat, list: seq<T>, tmp: seq<T>)
    requires SplitAt(d, n, list, tmp) && (n + 1) / 2 < |list|
    ensures n < |d| && list[(n + 1) / 2] == d[n]
    ensures n % 2 == 1 ==> SplitAt(d, n + 1, RemoveAt(list, (n + 1) / 2), tmp + [d[n]])
    ensures n % 2 == 0 ==> SplitAt(d, n + 1, list, tmp)
  {
    Halves(d[..n]);
    assert d[..n + 1][..n] == d[..n];
    assert d[n..] == [d[n]] + d[n + 1..];
  }

  lemma SplitDone<T>(d: seq<T>, n: nat, list: seq<T>, tmp: seq<T>)
    requires SplitAt(d, n, list, tmp) && |list| <= (n + 1) / 2
    ensures n == |d| && list == Evens(d) && tmp == Odds(d)
  {
    Halves(d[..n]);
    assert d[..|d|] == d;
  }

  lemma SplitStart<T>(d: seq<T>)
    ensures SplitAt(d, 0, d, [])
  {
    assert d[..0] == [] && d[0..] == d;
  }

  /** The lists and the iterator of sort after n rounds of the splitting loop. */
  ghost predicate Splitting<T>(d: seq<T>, n: nat, list: MultiList<T>, it: Iterator<T>, tmp: MultiList<T>)
    reads list, list.nodes, list.iters, it, tmp, tmp.nodes, tmp.iters
  {
    && list.Valid() && tmp.Valid() && tmp != list && StandsAt(list, it, (n + 1) / 2) && list.iters[0] == it
    && SplitAt(d, n, Data(list.nodes), Data(tmp.nodes))
  }

  /** The splitting loop of sort, from an iterator at the beginning of the list: the elements at
      odd indexes move over. */
  method SplitLoop<T>(list: MultiList<T>, it: Iterator<T>, tmp: MultiList<T>) returns (n: nat)
    requires list.Valid() && tmp.Valid() && tmp != list && tmp.nodes == []
    requires StandsAt(list, it, 0) && list.iters[0] == it
    modifies list, list.nodes`next, list.nodes`pThis, list.nodes`pos, list.nodes`owner
    modifies list.iters`item, list.iters`nextItem, list.iters`pThis, list.iters`pos, list.iters`nextIterator
    modifies tmp`firstNode, tmp`pLastNode, tmp`nodes
    ensures list.Valid() && tmp.Valid() && list.iters == old(list.iters) && n == |old(list.nodes)|
    ensures Data(list.nodes) == Evens(Data(old(list.nodes))) && Data(tmp.nodes) == Odds(Data(old(list.nodes)))
    ensures NodesKept(list, old(list.nodes)) && NodesKept(tmp, [])
  {
    ghost var d := Data(list.nodes);
    n := 0;
    SplitStart(d);
    while it.item != null
      invariant Splitting(d, n, list, it, tmp) && list.iters == old(list.iters)
      invariant NodesKept(list, old(list.nodes)) && NodesKept(tmp, [])
      decreases |d| - n
    {
      SplitOne(list, it, n, tmp, d);
      n := n + 1;
    }
    SplitDone(d, n, Data(list.nodes), Data(tmp.nodes));
  }

  /** One round of the splitting loop: odd elements move over, even ones stay. */
  method SplitOne<T>(list: MultiList<T>, it: Iterator<T>, n: nat, tmp: MultiList<T>, ghost d: seq<T>)
    requires Splitting(d, n, list, it, tmp) && it.item != null
    modifies list, list.nodes`next, list.nodes`pThis, list.nodes`pos, list.nodes`owner
    modifies list.iters`item, list.iters`nextItem, list.iters`pThis, list.iters`pos, list.iters`nextIterator
    modifies tmp`firstNode, tmp`pLastNode, tmp`nodes, tmp.nodes`next, tmp.nodes`pos
    ensures Splitting(d, n + 1, list, it, tmp) && n < |d| && list.iters == old(list.iters)
    ensures NodesKept(list, old(list.nodes)) && NodesKept(tmp, old(tmp.nodes))
  {
    ghost var q := (n + 1) / 2;
    SplitNext(d, n, Data(list.nodes), Data(tmp.nodes));
    if n % 2 != 0 {
      assert (n + 2) / 2 == q;
      ghost var x := MoveOver(list, it, q, tmp);
      MovedOver(old(list.nodes), old(tmp.nodes), q, x);
    } else {
      assert (n + 2) / 2 == q + 1;
      AdvanceBeside(list, it, q, tmp);
    }
  }

  lemma MovedOver<T>(s: seq<Node<T>>, t: seq<Node<T>>, q: nat, x: Node<T>)
    requires q < |s| && x.data == s[q].data
    ensures Data(RemoveAt(s, q)) == RemoveAt(Data(s), q) && Data(t + [x]) == Data(t) + [Data(s)[q]]
  {
    DataShape(s, q, x);
  }

  method AdvanceBeside<T>(list: MultiList<T>, it: Iterator<T>, ghost q: nat, ghost tmp: MultiList<T>)
    requires list.Valid() && tmp.Valid() && tmp != list && StandsAt(list, it, q) && q < |list.nodes|
    modifies it`item, it`nextItem
    ensures list.Valid() && tmp.Valid() && StandsAt(list, it, q + 1)
  {
    tmp.NotRegisteredWith(list, it);
    Advance(list, it, q);
  }

  /** Sort with a predicate: a merge sort. */
  method Sort<T(!new)>(list: MultiList<T>, p: (T, T) -> bool)
    requires list.Valid() && StrictWeakOrder(p)
    modifies list, list.nodes, list.iters
    ensures list.Valid() && list.iters == old(list.iters) && NodesKept(list, old(list.nodes))
    ensures Sorted(Data(list.nodes), p)
    ensures multiset(Data(list.nodes)) == multiset(Data(old(list.nodes)))
    decreases |list.nodes|, 1
  {
    var tmp := new MultiList<T>();
    var n := Split(list, tmp);
    SortHalves(list, tmp, p, n);
    assert NodesKept(list, old(list.nodes)) && NodesKept(tmp, []);
    Merge(list, tmp, p);
  }

  /** Move every other element into another list. */
  method Split<T>(list: MultiList<T>, tmp: MultiList<T>) returns (n: nat)
    requires list.Valid() && tmp.Valid() && tmp != list && tmp.nodes == []
    modifies list, list.nodes`next, list.nodes`pThis, list.nodes`pos, list.nodes`owner
    modifies list.iters`item, list.iters`nextItem, list.iters`pThis, list.iters`pos, list.iters`nextIterator
    modifies tmp`firstNode, tmp`pLastNode, tmp`nodes
    ensures list.Valid() && tmp.Valid() && list.iters == old(list.iters) && n == |old(list.nodes)|
    ensures |tmp.nodes| == n / 2 && |list.nodes| == n - n / 2
    ensures multiset(Data(list.nodes)) + multiset(Data(tmp.nodes)) == multiset(Data(old(list.nodes)))
    ensures NodesKept(list, old(list.nodes)) && NodesKept(tmp, [])
  {
    ghost var was := list.nodes;
    var it := BeginBeside(list, tmp);
    n := SplitLoop(list, it, tmp);
    ReleaseBeside(list, it, tmp);
    HalvesOf(was, list.nodes, tmp.nodes);
  }

  lemma HalvesOf<T>(was: seq<Node<T>>, a: seq<Node<T>>, b: seq<Node<T>>)
    requires Data(a) == Evens(Data(was)) && Data(b) == Odds(Data(was))
    ensures |a| == (|was| + 1) / 2 && |b| == |was| / 2
    ensures multiset(Data(a)) + multiset(Data(b)) == multiset(Data(was))
  {
    var d := Data(was);
    Halves(d);
    HalvesTogether(d);
    assert |Data(a)| == |a| && |Data(b)| == |b| && |d| == |was|;
  }

  /** Sorts both halves of n elements, unless they are sorted for having at most one element. */
  method SortHalves<T(!new)>(list: MultiList<T>, tmp: MultiList<T>, p: (T, T) -> bool, n: nat)
    requires list.Valid() && tmp.Valid() && tmp != list && StrictWeakOrder(p)
    requires |tmp.nodes| == n / 2 && |list.nodes| == n - n / 2
    modifies list, list.nodes, list.iters, tmp, tmp.nodes, tmp.iters
    ensures list.Valid() && tmp.Valid() && list.iters == old(list.iters) && tmp.iters == old(tmp.iters)
    ensures NodesKept(list, old(list.nodes)) && NodesKept(tmp, old(tmp.nodes))
    ensures Sorted(Data(list.nodes), p) && Sorted(Data(tmp.nodes), p)
    ensures multiset(Data(list.nodes)) == multiset(Data(old(list.nodes)))
    ensures multiset(Data(tmp.nodes)) == multiset(Data(old(tmp.nodes)))
    decreases n, 0
  {
    if n > 2 {
      SortBeside(tmp, list, p);
      SortBeside(list, tmp, p);
    }
  }

  /** Sorting one list leaves any other list alone. */
  method SortBeside<T(!new)>(list: MultiList<T>, ghost other: MultiList<T>, p: (T, T) -> bool)
    requires list.Valid() && other.Valid() && other != list && StrictWeakOrder(p)
    modifies list, list.nodes, list.iters
    ensures list.Valid() && other.Valid() && list.iters == old(list.iters) && NodesKept(list, old(list.nodes))
    ensures Sorted(Data(list.nodes), p)
    ensures multiset(Data(list.nodes)) == multiset(Data(old(list.nodes)))
    decreases |list.nodes|, 2
  {
    list.ApartNodes(other);
    list.Apart(other);
    Sort(list, p);
    other.StaysValid();
  }
}
