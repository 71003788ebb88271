/** What the iterators of a PtrMultiListBase mean, on values.

    A list is a sequence of distinct nodes; an iterator is a cursor holding the current
    item and the cached next item, either of which may be null.  The functions below say
    what each list operation does to the nodes and to a cursor; the lemmas say what that
    means for the elements the cursor is still going to visit. */
module Cursors {
  import opened Wrappers

  datatype Cursor<+N> = Cursor(item: Option<N>, next: Option<N>)

  ghost predicate Distinct<N>(s: seq<N>) {
    forall i, j :: 0 <= i < j < |s| ==> s[i] != s[j]
  }

  ghost function IndexOf<N>(s: seq<N>, x: N): (k: nat)
    requires x in s
    ensures k < |s| && s[k] == x
  {
    var k: nat :| k < |s| && s[k] == x;
    k
  }

  function RemoveAt<N>(s: seq<N>, k: nat): seq<N>
    requires k < |s|
  {
    s[..k] + s[k + 1..]
  }

  function InsertAt<N>(s: seq<N>, k: nat, n: N): seq<N>
    requires k <= |s|
  {
    s[..k] + [n] + s[k..]
  }

  /** The node at index k, null past the end. */
  function NodeAt<N>(s: seq<N>, k: nat): Option<N> {
    if k < |s| then Some(s[k]) else None
  }

  /** The node after x, null when x is last. */
  ghost function Succ<N>(s: seq<N>, x: N): Option<N>
    requires x in s
  {
    NodeAt(s, IndexOf(s, x) + 1)
  }

  ghost function Without<N>(s: seq<N>, x: N): seq<N> {
    if x in s then RemoveAt(s, IndexOf(s, x)) else s
  }

  ghost function InsertedBefore<N>(s: seq<N>, y: N, n: N): seq<N>
    requires y in s
  {
    InsertAt(s, IndexOf(s, y), n)
  }

  /** The part of the list that starts at the given node; empty for null. */
  ghost function From<N>(s: seq<N>, x: Option<N>): seq<N>
    requires x.Some? ==> x.value in s
  {
    if x.Some? then s[IndexOf(s, x.value)..] else []
  }

  /** Both pointers are null or nodes of the list, and when both are set the second is
      the successor of the first. */
  ghost predicate CursorOk<N>(nodes: seq<N>, c: Cursor<N>) {
    && (c.item.Some? ==> c.item.value in nodes)
    && (c.next.Some? ==> c.next.value in nodes)
    && (c.item.Some? && c.next.Some? ==> Succ(nodes, c.item.value) == c.next)
  }

  ghost function Current<N>(c: Cursor<N>): seq<N> {
    if c.item.Some? then [c.item.value] else []
  }

  /** The elements a cursor yields from now on if the list no longer changes. */
  ghost function Ahead<N>(nodes: seq<N>, c: Cursor<N>): seq<N>
    requires CursorOk(nodes, c)
  {
    Current(c) + From(nodes, c.next)
  }

  /** Index p is that of the element a cursor visits next, or the end when it visits none. */
  ghost predicate StartsAhead<N>(nodes: seq<N>, c: Cursor<N>, p: int)
    requires CursorOk(nodes, c)
  {
    var a := Ahead(nodes, c);
    if a == [] then p == |nodes| else 0 <= p < |nodes| && nodes[p] == a[0]
  }

  // What the operations do to one cursor.

  ghost function AfterExtract<N>(c: Cursor<N>, x: N, succ: Option<N>): Cursor<N> {
    if c.item == Some(x) then c.(item := None)
    else if c.next == Some(x) then c.(next := succ)
    else c
  }

  ghost function AfterInsert<N>(c: Cursor<N>, y: N, n: N): Cursor<N> {
    if c.item.Some? && c.next == Some(y) then c.(next := Some(n)) else c
  }

  /** Where an insertion through a cursor goes: before its item, before its next item when
      the item was deleted, at the end otherwise. */
  ghost function Target<N>(c: Cursor<N>): Option<N> {
    if c.item.Some? then c.item else c.next
  }

  ghost function InsertCursor<N>(target: Option<N>, c: Cursor<N>, n: N): Cursor<N> {
    if target.Some? then AfterInsert(c, target.value, n) else c
  }

  ghost function AfterNext<N>(nodes: seq<N>, c: Cursor<N>): Cursor<N>
    requires c.next.Some? ==> c.next.value in nodes
  {
    if c.next.Some? then At(nodes, c.next.value) else Cursor(None, None)
  }

  ghost function At<N>(nodes: seq<N>, n: N): Cursor<N>
    requires n in nodes
  {
    Cursor(Some(n), Succ(nodes, n))
  }

  ghost function AtFront<N>(nodes: seq<N>): Cursor<N> {
    if nodes == [] then Cursor(None, None) else At(nodes, nodes[0])
  }

  // Removal and insertion by index.

  lemma RemoveAtShape<N>(s: seq<N>, k: nat)
    requires Distinct(s) && k < |s|
    ensures Distinct(RemoveAt(s, k)) && s[k] !in RemoveAt(s, k)
    ensures forall i :: 0 <= i < |s| && i != k ==> s[i] in RemoveAt(s, k)
    ensures forall i :: 0 <= i < |s| && i != k ==> IndexOf(RemoveAt(s, k), s[i]) == if i < k then i else i - 1
  {
    var r := RemoveAt(s, k);
    forall i | 0 <= i < |s| && i != k
      ensures s[i] in r && IndexOf(r, s[i]) == if i < k then i else i - 1
    {
      var j := if i < k then i else i - 1;
      assert r[j] == s[i];
    }
  }

  lemma InsertAtShape<N>(s: seq<N>, k: nat, n: N)
    requires Distinct(s) && k <= |s| && n !in s
    ensures Distinct(InsertAt(s, k, n)) && n in InsertAt(s, k, n) && IndexOf(InsertAt(s, k, n), n) == k
    ensures forall i :: 0 <= i < |s| ==> s[i] in InsertAt(s, k, n)
    ensures forall i :: 0 <= i < |s| ==> IndexOf(InsertAt(s, k, n), s[i]) == if i < k then i else i + 1
  {
    var r := InsertAt(s, k, n);
    assert r[k] == n;
    forall i | 0 <= i < |s|
      ensures s[i] in r && IndexOf(r, s[i]) == if i < k then i else i + 1
    {
      var j := if i < k then i else i + 1;
      assert r[j] == s[i];
    }
  }

  lemma AheadDistinct<N>(nodes: seq<N>, c: Cursor<N>)
    requires Distinct(nodes) && CursorOk(nodes, c)
    ensures Distinct(Ahead(nodes, c))
    ensures forall x :: x in Ahead(nodes, c) ==> x in nodes
  {
  }

  /** Removing index k from the list removes it from the part that starts at index i. */
  lemma FromRemoved<N>(nodes: seq<N>, i: nat, k: nat)
    requires Distinct(nodes) && i < |nodes| && k < |nodes| && i != k
    ensures nodes[i] in RemoveAt(nodes, k)
    ensures From(RemoveAt(nodes, k), Some(nodes[i])) == if i < k then RemoveAt(nodes[i..], k - i) else nodes[i..]
  {
    RemoveAtShape(nodes, k);
    SliceRemoved(nodes, i, k);
    assert nodes[i] in RemoveAt(nodes, k);
  }

  lemma SliceRemoved<N>(s: seq<N>, i: nat, k: nat)
    requires i < |s| && k < |s| && i != k
    ensures i < k ==> RemoveAt(s, k)[i..] == RemoveAt(s[i..], k - i)
    ensures k < i ==> RemoveAt(s, k)[i - 1..] == s[i..]
  {
  }

  lemma WithoutAt<N>(s: seq<N>, k: nat)
    requires Distinct(s) && k < |s|
    ensures Without(s, s[k]) == RemoveAt(s, k)
  {
  }

  lemma AfterPrefix<N>(p: seq<N>, f: seq<N>, j: nat)
    ensures j < |f| ==> (p + f)[|p| + j] == f[j] && RemoveAt(p + f, |p| + j) == p + RemoveAt(f, j)
    ensures j <= |f| ==> forall n :: InsertAt(p + f, |p| + j, n) == p + InsertAt(f, j, n)
  {
    forall n | j <= |f|
      ensures InsertAt(p + f, |p| + j, n) == p + InsertAt(f, j, n)
    {
      assert (p + f)[..|p| + j] == p + f[..j];
      assert (p + f)[|p| + j..] == f[j..];
    }
  }

  lemma InsertedAfterPrefix<N>(p: seq<N>, f: seq<N>, j: nat, n: N)
    requires Distinct(p + f) && j < |f|
    ensures f[j] in p + f && InsertedBefore(p + f, f[j], n) == p + InsertAt(f, j, n)
  {
    AfterPrefix(p, f, j);
    assert (p + f)[|p| + j] == f[j];
  }

  /** Extracting x takes x, and nothing else, out of what every cursor still visits. */
  lemma ExtractAhead<N>(nodes: seq<N>, c: Cursor<N>, x: N)
    requires Distinct(nodes) && CursorOk(nodes, c) && x in nodes
    ensures CursorOk(Without(nodes, x), AfterExtract(c, x, Succ(nodes, x)))
    ensures Ahead(Without(nodes, x), AfterExtract(c, x, Succ(nodes, x))) == Without(Ahead(nodes, c), x)
  {
    var k := IndexOf(nodes, x);
    ExtractCursorOk(nodes, c, k);
    AheadDistinct(nodes, c);
    var p, f := Current(c), From(nodes, c.next);
    if c.item == Some(x) {
      ExtractedFrom(nodes, c.next, k);
      WithoutAt(p + f, 0);
      assert x !in f;
    } else if x in f {
      var j := IndexOf(f, x);
      ExtractedFrom(nodes, c.next, k);
      AfterPrefix(p, f, j);
      WithoutAt(f, j);
      WithoutAt(p + f, |p| + j);
    } else {
      ExtractedFrom(nodes, c.next, k);
      assert x !in p + f;
    }
  }

  /** The part of the list from `next` on loses x, also when x is `next` itself. */
  lemma ExtractedFrom<N>(nodes: seq<N>, next: Option<N>, k: nat)
    requires Distinct(nodes) && k < |nodes| && (next.Some? ==> next.value in nodes)
    ensures var next' := if next == Some(nodes[k]) then NodeAt(nodes, k + 1) else next;
      && (next'.Some? ==> next'.value in RemoveAt(nodes, k))
      && From(RemoveAt(nodes, k), next') == Without(From(nodes, next), nodes[k])
  {
    if next.Some? {
      var i := IndexOf(nodes, next.value);
      if i == k {
        if k + 1 < |nodes| { FromRemoved(nodes, k + 1, k); }
        WithoutHead(nodes, k);
      } else {
        FromRemoved(nodes, i, k);
        WithoutSlice(nodes, i, k);
      }
    }
  }

  lemma WithoutHead<N>(s: seq<N>, k: nat)
    requires Distinct(s) && k < |s|
    ensures Without(s[k..], s[k]) == s[k + 1..]
  {
    WithoutAt(s[k..], 0);
    assert RemoveAt(s[k..], 0) == s[k + 1..];
  }

  lemma WithoutSlice<N>(s: seq<N>, i: nat, k: nat)
    requires Distinct(s) && i < |s| && k < |s| && i != k
    ensures Without(s[i..], s[k]) == if i < k then RemoveAt(s[i..], k - i) else s[i..]
  {
    TailDistinct(s, i);
    if i < k {
      assert s[i..][k - i] == s[k];
      WithoutAt(s[i..], k - i);
    } else {
      NotInTail(s, i, k);
    }
  }

  lemma TailDistinct<N>(s: seq<N>, i: nat)
    requires Distinct(s) && i <= |s|
    ensures Distinct(s[i..])
  {
  }

  lemma NotInTail<N>(s: seq<N>, i: nat, k: nat)
    requires Distinct(s) && k < i <= |s|
    ensures s[k] !in s[i..]
  {
    forall j | 0 <= j < |s| - i
      ensures s[i..][j] != s[k]
    {
      assert s[i..][j] == s[i + j];
    }
  }

  lemma ExtractCursorOk<N>(nodes: seq<N>, c: Cursor<N>, k: nat)
    requires Distinct(nodes) && CursorOk(nodes, c) && k < |nodes|
    ensures CursorOk(RemoveAt(nodes, k), AfterExtract(c, nodes[k], Succ(nodes, nodes[k])))
  {
    RemoveAtShape(nodes, k);
  }

  /** Inserting n before y puts n into what a cursor still visits exactly when y is there
      and is not the first thing the cursor yields; everything else it visits stays. */
  lemma InsertAhead<N>(nodes: seq<N>, c: Cursor<N>, y: N, n: N)
    requires Distinct(nodes) && CursorOk(nodes, c) && y in nodes && n !in nodes
    ensures CursorOk(InsertedBefore(nodes, y, n), AfterInsert(c, y, n))
    ensures var a := Ahead(nodes, c);
      Ahead(InsertedBefore(nodes, y, n), AfterInsert(c, y, n))
      == if y in a && a[0] != y then InsertedBefore(a, y, n) else a
  {
    var k := IndexOf(nodes, y);
    InsertCursorOk(nodes, c, k, n);
    AheadDistinct(nodes, c);
    var p, f := Current(c), From(nodes, c.next);
    if c.next.Some? {
      var i := IndexOf(nodes, c.next.value);
      InsertedFrom(nodes, i, k, n, |p| > 0);
      if i <= k {
        assert f[k - i] == y;
        InsertedAfterPrefix(p, f, k - i, n);
      } else {
        assert y !in f;
      }
    } else {
      assert p + f == p;
    }
  }

  /** The part of the list from node i on gains n before node k, unless it starts there
      and the cursor stands on no item. */
  lemma InsertedFrom<N>(nodes: seq<N>, i: nat, k: nat, n: N, onItem: bool)
    requires Distinct(nodes) && i < |nodes| && k < |nodes| && n !in nodes
    ensures var next' := if onItem && i == k then n else nodes[i];
      && next' in InsertAt(nodes, k, n)
      && From(InsertAt(nodes, k, n), Some(next'))
         == if i < k || (onItem && i == k) then InsertAt(nodes[i..], k - i, n) else nodes[i..]
  {
    InsertAtShape(nodes, k, n);
    assert nodes[i] in InsertAt(nodes, k, n);
    SliceInserted(nodes, i, k, n);
  }

  lemma SliceInserted<N>(s: seq<N>, i: nat, k: nat, n: N)
    requires i < |s| && k < |s|
    ensures i <= k ==> InsertAt(s, k, n)[i..] == InsertAt(s[i..], k - i, n)
    ensures k <= i ==> InsertAt(s, k, n)[i + 1..] == s[i..]
  {
  }

  lemma InsertCursorOk<N>(nodes: seq<N>, c: Cursor<N>, k: nat, n: N)
    requires Distinct(nodes) && CursorOk(nodes, c) && k < |nodes| && n !in nodes
    ensures CursorOk(InsertAt(nodes, k, n), AfterInsert(c, nodes[k], n))
  {
    InsertAtShape(nodes, k, n);
  }

  /** An append is seen by a cursor exactly when its next pointer is set: a cursor on the
      last element does not see elements appended later. */
  lemma AppendAhead<N>(nodes: seq<N>, c: Cursor<N>, n: N)
    requires Distinct(nodes) && CursorOk(nodes, c) && n !in nodes
    ensures CursorOk(nodes + [n], c)
    ensures Ahead(nodes + [n], c) == if c.next.Some? then Ahead(nodes, c) + [n] else Ahead(nodes, c)
  {
    assert InsertAt(nodes, |nodes|, n) == nodes + [n];
    InsertAtShape(nodes, |nodes|, n);
  }

  /** Advancing drops the current item, if there is one, from what is still visited. */
  lemma NextAhead<N>(nodes: seq<N>, c: Cursor<N>)
    requires Distinct(nodes) && CursorOk(nodes, c)
    ensures CursorOk(nodes, AfterNext(nodes, c))
    ensures Ahead(nodes, AfterNext(nodes, c))
      == if c.item.Some? then Ahead(nodes, c)[1..] else Ahead(nodes, c)
  {
    if c.next.Some? {
      AtOk(nodes, c.next.value);
    }
  }

  lemma AtOk<N>(nodes: seq<N>, n: N)
    requires Distinct(nodes) && n in nodes
    ensures CursorOk(nodes, At(nodes, n))
    ensures Ahead(nodes, At(nodes, n)) == nodes[IndexOf(nodes, n)..]
  {
  }
}
