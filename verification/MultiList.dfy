/** The heap structure of PtrMultiListBase: an intrusive chain of nodes and an intrusive
    chain of the live iterators.

    A C++ pointer to a pointer (`m_pThisNode`, `m_pLastNode`, `m_pThisIterator`) is
    modelled by naming the object whose next-field it points at; null, or `ListHead`,
    stands for the head field of the list itself.

    Every operation is written as the pointer writes of the code, followed by a two-state
    lemma that says what those writes did to the chain, followed by ghost bookkeeping. */
module MultiLists {
  import opened Wrappers
  import opened Cursors

  datatype Place<T> = Nowhere | ListHead(list: MultiList<T>) | NextOf(pred: Iterator<T>)

  ghost function Opt<T>(n: Node?<T>): Option<Node<T>> {
    if n == null then None else Some(n)
  }

  /** The element at index k, null outside the chain. */
  ghost function NodeOrNull<T>(s: seq<Node<T>>, k: int): Node?<T> {
    if 0 <= k < |s| then s[k] else null
  }

  ghost function IterOrNull<T>(s: seq<Iterator<T>>, k: int): Iterator?<T> {
    if 0 <= k < |s| then s[k] else null
  }

  lemma InRemoved<N>(s: seq<N>, k: nat, x: N)
    requires k < |s| && x in s && x != s[k]
    ensures x in RemoveAt(s, k)
  {
    var i :| 0 <= i < |s| && s[i] == x;
    assert RemoveAt(s, k)[if i < k then i else i - 1] == x;
  }

  lemma InInserted<N>(s: seq<N>, k: nat, n: N)
    requires k <= |s|
    ensures n in InsertAt(s, k, n)
    ensures forall x :: x in s ==> x in InsertAt(s, k, n)
  {
    var r := InsertAt(s, k, n);
    assert r[k] == n;
    forall x | x in s
      ensures x in r
    {
      var i :| 0 <= i < |s| && s[i] == x;
      assert r[if i < k then i else i + 1] == x;
    }
  }

  lemma OnlyOneGone<N>(s: seq<N>, k: nat)
    requires k < |s|
    ensures forall x :: x in s && x != s[k] ==> x in RemoveAt(s, k)
    ensures forall x :: x in RemoveAt(s, k) ==> x in s
  {
    forall x | x in s && x != s[k]
      ensures x in RemoveAt(s, k)
    {
      InRemoved(s, k, x);
    }
  }

  lemma OnlyOneMore<N>(s: seq<N>, k: nat, n: N)
    requires k <= |s|
    ensures n in InsertAt(s, k, n) && forall x :: x in s ==> x in InsertAt(s, k, n)
    ensures forall x :: x in InsertAt(s, k, n) ==> x == n || x in s
  {
    InInserted(s, k, n);
  }

  class Node<T> {
    var next: Node?<T>
    var pThis: Node?<T>
    const data: T
    ghost var owner: MultiList?<T>  // null before insertion and after deletion
    ghost var pos: int

    constructor (data: T)
      ensures this.data == data && owner == null
    {
      this.data := data;
      next, pThis, owner := null, null, null;
    }
  }

  class Iterator<T> {
    var item: Node?<T>
    var nextItem: Node?<T>
    var nextIterator: Iterator?<T>
    var pThis: Place<T>
    ghost var owner: MultiList?<T>  // the list this iterator is registered in
    ghost var pos: int

    ghost function AsCursor(): Cursor<Node<T>>
      reads this`item, this`nextItem
    {
      Cursor(Opt(item), Opt(nextItem))
    }

    ghost predicate Unregistered()
      reads this`owner, this`pThis, this`nextIterator
    {
      owner == null && pThis == Nowhere && nextIterator == null
    }

    ghost function Lists(): set<MultiList<T>>
      reads this`owner
    {
      if owner == null then {} else {owner}
    }

    /** This iterator and those registered beside it. */
    ghost function Chain(): set<Iterator<T>>
      reads this`owner, Lists()`iters
    {
      if owner == null then {this} else {this} + set it | it in owner.iters
    }

    /** A live iterator is registered in one valid list, or is an end() iterator that is
        registered nowhere. */
    ghost predicate Live()
      reads this, Lists(), Chain()
      reads if owner == null then {} else set n | n in owner.nodes
    {
      if owner == null then Unregistered() && item == null && nextItem == null
      else owner.Valid() && this in owner.iters
    }

    /** Makes an end() iterator, registered nowhere. */
    constructor End()
      ensures Unregistered() && item == null && nextItem == null
    {
      item, nextItem, nextIterator, pThis, owner := null, null, null, Nowhere, null;
    }

    /** Makes an iterator on an item and registers it at the head of the list. */
    constructor (item: Node?<T>, list: MultiList<T>)
      requires list.Valid() && (item != null ==> item in list.nodes)
      modifies list`firstIterator, list`iters, list.iters`pThis, list.iters`pos
      ensures list.Valid() && list.iters == [this] + old(list.iters)
      ensures this.item == item && nextItem == if item == null then null else item.next
    {
      this.item := item;
      nextItem := if item != null then item.next else null;
      nextIterator, pThis, owner := list.firstIterator, Nowhere, null;
      new;
      EnterAtHead(list);
      list.IterSpliced(this, 0);
      if item != null { list.Locate(item); }
      list.AddIter(this, 0);
    }

    /** The pointer writes that put this iterator at the head of a list. */
    method EnterAtHead(list: MultiList<T>)
      requires nextIterator == list.firstIterator && nextIterator != this
      modifies list`firstIterator, this`pThis
      modifies (if nextIterator != null then {nextIterator} else {})`pThis
      ensures pThis == ListHead(list) && list.firstIterator == this
      ensures nextIterator != null ==> nextIterator.pThis == NextOf(this)
    {
      pThis := ListHead(list);
      list.firstIterator := this;
      if nextIterator != null {
        nextIterator.pThis := NextOf(this);
      }
    }

    /** Copy constructor. */
    constructor Copy(other: Iterator<T>)
      requires other.Live()
      modifies other.Lists()`firstIterator, other.Lists()`iters
      modifies other.Chain()`pThis, other.Chain()`nextIterator, other.Chain()`pos
      ensures item == other.item && nextItem == other.nextItem && owner == other.owner
      ensures other.owner == null ==> Unregistered() && other.Unregistered()
      ensures other.owner != null ==>
        && other.owner.Valid() && 0 <= old(other.pos) < |old(other.owner.iters)|
        && other.owner.iters == InsertAt(old(other.owner.iters), old(other.pos), this)
    {
      item, nextItem := other.item, other.nextItem;
      nextIterator, pThis, owner := null, Nowhere, null;
      new;
      Link(other);
    }

    /** Assignment operator. */
    method Assign(other: Iterator<T>)
      requires Live() && other.Live()
      modifies this, Lists()`firstIterator, Lists()`iters, other.Lists()`firstIterator, other.Lists()`iters
      modifies Chain()`pThis, Chain()`nextIterator, Chain()`pos
      modifies other.Chain()`pThis, other.Chain()`nextIterator, other.Chain()`pos
      ensures Live() && other.Live() && owner == other.owner == old(other.owner)
      ensures item == other.item == old(other.item) && nextItem == other.nextItem == old(other.nextItem)
      ensures old(owner) != null ==> old(owner).Valid()
      ensures owner != null && this != other ==> nextIterator == other
      ensures owner != null ==> forall it :: it in old(other.owner.iters) ==> it in owner.iters
      ensures owner != null ==> forall it :: it in owner.iters ==> it in old(other.owner.iters) || it == this
      ensures old(owner) != null && owner != old(owner) ==>
        forall it :: it in old(owner.iters) && it != this ==> it in old(owner).iters
      ensures old(owner) != null && owner != old(owner) ==>
        forall it :: it in old(owner).iters ==> it in old(owner.iters)
    {
      if this != other {
        UnlinkBeside(other);
        if old(owner) != null { OnlyOneGone(old(owner.iters), old(pos)); }
        TakePosition(other, old(owner));
        ghost var b, k := other.owner, other.pos;
        ghost var was := if b != null then b.iters else [];
        LinkBeside(other, old(owner));
        if b != null { OnlyOneMore(was, k, this); }
      }
    }

    /** Advance to the next item. */
    method Next()
      requires Live()
      modifies this`item, this`nextItem
      ensures Live()
      ensures item == old(nextItem)
      ensures nextItem == if item != null then item.next else null
    {
      if nextItem != null {
        assert owner.PointsHere(this);
        owner.Locate(nextItem);
      }
      item := nextItem;
      if nextItem != null {
        nextItem := item.next;
      }
    }

    /** Turns this iterator into an end() iterator that is registered nowhere. */
    method Invalidate()
      requires if owner == null then Unregistered() else owner.Valid() && this in owner.iters
      modifies this`item, this`nextItem
      modifies Lists()`firstIterator, Lists()`iters, this`owner
      modifies Chain()`pThis, Chain()`nextIterator, Chain()`pos
      ensures Unregistered() && item == null && nextItem == null
      ensures old(owner) != null ==>
        && 0 <= old(pos) < |old(owner.iters)| && old(owner.iters)[old(pos)] == this
        && old(owner).Valid() && old(owner).iters == RemoveAt(old(owner.iters), old(pos))
    {
      ghost var list := owner;
      Unlink();
      if list != null { list.NotRegistered(this); }
      item := null;
      nextItem := null;
    }

    /** Internal: unlink this iterator; idempotent. */
    method Unlink()
      requires if owner == null then Unregistered() else owner.Valid() && this in owner.iters
      modifies Lists()`firstIterator, Lists()`iters, this`owner
      modifies Chain()`pThis, Chain()`nextIterator, Chain()`pos
      ensures Unregistered()
      ensures old(owner) != null ==>
        && 0 <= old(pos) < |old(owner.iters)| && old(owner.iters)[old(pos)] == this
        && old(owner).Valid() && old(owner).iters == RemoveAt(old(owner.iters), old(pos))
    {
      ghost var list, k := owner, pos;
      if list != null { list.LocateIter(this); }
      if pThis != Nowhere {
        Bypass();
        list.IterBypassed(k);
        list.DropIter(this, k);
      }
    }

    /** Unlinking an iterator leaves every other one live. */
    method UnlinkBeside(other: Iterator<T>)
      requires Live() && other.Live() && other != this
      modifies Lists()`firstIterator, Lists()`iters, this`owner
      modifies Chain()`pThis, Chain()`nextIterator, Chain()`pos
      ensures Unregistered() && other.Live() && other.owner == old(other.owner)
      ensures other.Chain() <= old(other.Chain())
      ensures old(owner) != null ==>
        && old(owner).Valid() && 0 <= old(pos) < |old(owner.iters)| && old(owner.iters)[old(pos)] == this
        && old(owner).iters == RemoveAt(old(owner.iters), old(pos))
    {
      ghost var a, b := owner, other.owner;
      if a != null && b != a {
        a.NotRegistered(other);
      }
      if b != null && b != a {
        b.NotRegistered(this);
        if a != null { a.Apart(b); }
      }
      Unlink();
      if b != null {
        if b == a {
          InRemoved(old(owner.iters), old(pos), other);
        } else {
          b.StaysValid();
        }
      }
    }

    /** The pointer writes of unlink: whatever referred to this iterator now refers to its
        successor. */
    method Bypass()
      requires pThis != Nowhere && nextIterator != this
      requires pThis.NextOf? ==> pThis.pred != this
      modifies this`pThis, this`nextIterator
      modifies (if pThis.ListHead? then {pThis.list} else {})`firstIterator
      modifies (if pThis.NextOf? then {pThis.pred} else {})`nextIterator
      modifies (if nextIterator != null then {nextIterator} else {})`pThis
      ensures pThis == Nowhere && nextIterator == null
      ensures old(pThis).ListHead? ==> old(pThis).list.firstIterator == old(nextIterator)
      ensures old(pThis).NextOf? ==> old(pThis).pred.nextIterator == old(nextIterator)
      ensures old(nextIterator) != null ==> old(nextIterator).pThis == old(pThis)
    {
      if pThis.ListHead? {
        pThis.list.firstIterator := nextIterator;
      } else {
        pThis.pred.nextIterator := nextIterator;
      }
      if nextIterator != null {
        nextIterator.pThis := pThis;
      }
      pThis, nextIterator := Nowhere, null;
    }

    /** Internal: link this iterator into the same list as another one, before it. */
    method Link(other: Iterator<T>)
      requires Unregistered() && other != this && other.Live()
      requires item == other.item && nextItem == other.nextItem
      modifies this`pThis, this`nextIterator, this`owner, this`pos
      modifies other.Lists()`firstIterator, other.Lists()`iters
      modifies other.Chain()`pThis, other.Chain()`nextIterator, other.Chain()`pos
      ensures other.owner == null ==> Unregistered() && other.Unregistered()
      ensures owner == other.owner && (owner != null ==> nextIterator == other)
      ensures other.owner != null ==>
        && other.owner.Valid() && 0 <= old(other.pos) < |old(other.owner.iters)|
        && other.owner.iters == InsertAt(old(other.owner.iters), old(other.pos), this)
    {
      ghost var list, k := other.owner, other.pos;
      if list != null {
        list.LocateIter(other);
        list.NotRegistered(this);
      }
      if other.pThis != Nowhere {
        LinkInto(other, list, k);
      } else {
        nextIterator, pThis := null, Nowhere;
      }
    }

    method LinkInto(other: Iterator<T>, ghost list: MultiList<T>, ghost k: nat)
      requires list.Valid() && this !in list.iters && list.PointsHere(this)
      requires k < |list.iters| && list.iters[k] == other
      modifies this`pThis, this`nextIterator, this`owner, this`pos, list`firstIterator, list`iters
      modifies list.iters`pThis, list.iters`nextIterator, list.iters`pos
      ensures list.Valid() && list.iters == InsertAt(old(list.iters), k, this) && owner == list
      ensures nextIterator == other
    {
      assert list.IterNumbered(k) && list.IterLinked(list.iters, k);
      EnterBefore(other);
      list.IterSpliced(this, k);
      list.AddIter(this, k);
    }

    /** Takes over the position of another iterator; not being registered, this one is no
        list's business. */
    method TakePosition(other: Iterator<T>, ghost a: MultiList?<T>)
      requires Unregistered() && other != this && other.Live() && (a != null ==> a.Valid())
      modifies this`item, this`nextItem
      ensures item == other.item && nextItem == other.nextItem
      ensures other.Live() && (a != null ==> a.Valid())
    {
      if a != null { a.NotRegistered(this); }
      if other.owner != null { other.owner.NotRegistered(this); }
      item := other.item;
      nextItem := other.nextItem;
    }

    /** Linking an iterator into one list leaves any other list valid. */
    method LinkBeside(other: Iterator<T>, ghost a: MultiList?<T>)
      requires Unregistered() && other != this && other.Live() && (a != null ==> a.Valid())
      requires item == other.item && nextItem == other.nextItem
      modifies this`pThis, this`nextIterator, this`owner, this`pos
      modifies other.Lists()`firstIterator, other.Lists()`iters
      modifies other.Chain()`pThis, other.Chain()`nextIterator, other.Chain()`pos
      ensures Live() && other.Live() && owner == other.owner && (owner != null ==> nextIterator == other)
      ensures a != null ==> a.Valid()
      ensures owner != null ==>
        && 0 <= old(other.pos) < |old(other.owner.iters)|
        && owner.iters == InsertAt(old(other.owner.iters), old(other.pos), this)
    {
      ghost var b := other.owner;
      if a != null && b != a {
        a.NotRegistered(other);
        a.NotRegistered(this);
        if b != null { b.Apart(a); }
      }
      Link(other);
      if a != null && b != a {
        a.StaysValid();
      }
      if b != null { InInserted(old(other.owner.iters), old(other.pos), this); }
    }

    /** The pointer writes that put this iterator before a registered one. */
    method EnterBefore(other: Iterator<T>)
      requires other != this && other.pThis != Nowhere && other.pThis != NextOf(this)
      modifies this`nextIterator, this`pThis, other`pThis
      modifies (if other.pThis.ListHead? then {other.pThis.list} else {})`firstIterator
      modifies (if other.pThis.NextOf? then {other.pThis.pred} else {})`nextIterator
      ensures nextIterator == other && pThis == old(other.pThis) && other.pThis == NextOf(this)
      ensures old(other.pThis).ListHead? ==> old(other.pThis).list.firstIterator == this
      ensures old(other.pThis).NextOf? ==> old(other.pThis).pred.nextIterator == this
    {
      nextIterator := other;
      pThis := other.pThis;
      if pThis.ListHead? {
        pThis.list.firstIterator := this;
      } else {
        pThis.pred.nextIterator := this;
      }
      other.pThis := NextOf(this);
    }
  }

  class MultiList<T> {
    var firstNode: Node?<T>
    var pLastNode: Node?<T>
    var firstIterator: Iterator?<T>
    ghost var nodes: seq<Node<T>>
    ghost var iters: seq<Iterator<T>>

    // The node chain.

    ghost predicate NodeNumbered(i: int)
      requires 0 <= i < |nodes|
      reads this`nodes, nodes`owner, nodes`pos
    {
      nodes[i].owner == this && nodes[i].pos == i
    }

    ghost predicate NodesNumbered()
      reads this`nodes, nodes`owner, nodes`pos
    {
      forall i :: 0 <= i < |nodes| ==> NodeNumbered(i)
    }

    ghost predicate NodeLinked(s: seq<Node<T>>, i: int)
      requires 0 <= i < |s|
      reads s`next, s`pThis
    {
      s[i].next == NodeOrNull(s, i + 1) && s[i].pThis == NodeOrNull(s, i - 1)
    }

    ghost predicate NodesLinked(s: seq<Node<T>>)
      reads this`firstNode, this`pLastNode, s`next, s`pThis
    {
      && firstNode == NodeOrNull(s, 0)
      && pLastNode == NodeOrNull(s, |s| - 1)
      && (forall i :: 0 <= i < |s| ==> NodeLinked(s, i))
    }

    // The iterator chain.

    ghost predicate IterNumbered(i: int)
      requires 0 <= i < |iters|
      reads this`iters, iters`owner, iters`pos
    {
      iters[i].owner == this && iters[i].pos == i
    }

    ghost predicate ItersNumbered()
      reads this`iters, iters`owner, iters`pos
    {
      forall i :: 0 <= i < |iters| ==> IterNumbered(i)
    }

    ghost function PlaceAt(s: seq<Iterator<T>>, k: int): Place<T> {
      if 0 < k <= |s| then NextOf(s[k - 1]) else ListHead(this)
    }

    ghost predicate IterLinked(s: seq<Iterator<T>>, i: int)
      requires 0 <= i < |s|
      reads s`nextIterator, s`pThis
    {
      s[i].nextIterator == IterOrNull(s, i + 1) && s[i].pThis == PlaceAt(s, i)
    }

    ghost predicate ItersLinked(s: seq<Iterator<T>>)
      reads this`firstIterator, s`nextIterator, s`pThis
    {
      && firstIterator == IterOrNull(s, 0)
      && (forall i :: 0 <= i < |s| ==> IterLinked(s, i))
    }

    /** Both pointers are null or nodes of this list, and when both are set the second is
        the successor of the first. */
    ghost predicate PointsHere(it: Iterator<T>)
      reads this`nodes, it`item, it`nextItem, nodes`next
    {
      && (it.item != null ==> it.item in nodes)
      && (it.nextItem != null ==> it.nextItem in nodes)
      && (it.item != null && it.nextItem != null ==> it.item.next == it.nextItem)
    }

    ghost predicate CursorsOk()
      reads this`nodes, this`iters, iters`item, iters`nextItem, nodes`next
    {
      forall it :: it in iters ==> PointsHere(it)
    }

    ghost predicate Valid()
      reads this, nodes, iters
    {
      NodesNumbered() && NodesLinked(nodes) && ItersNumbered() && ItersLinked(iters) && CursorsOk()
    }

    constructor ()
      ensures Valid() && nodes == [] && iters == []
    {
      firstNode, pLastNode, firstIterator := null, null, null;
      nodes, iters := [], [];
    }

    // Facts about the iterator chain.

    lemma LocateIter(it: Iterator<T>)
      requires ItersNumbered() && ItersLinked(iters) && it in iters
      ensures 0 <= it.pos < |iters| && iters[it.pos] == it && it.owner == this
      ensures IterLinked(iters, it.pos)
      ensures it.nextIterator != it && (it.pThis.NextOf? ==> it.pThis.pred != it && it.pThis.pred in iters)
      ensures it.nextIterator != null ==> it.nextIterator in iters
      ensures it.pThis.ListHead? ==> it.pThis.list == this
    {
      var k :| 0 <= k < |iters| && iters[k] == it;
      assert IterNumbered(k) && IterLinked(iters, k);
      assert k + 1 < |iters| ==> IterNumbered(k + 1);
      assert k > 0 ==> IterNumbered(k - 1);
    }

    /** A list that nobody has touched. */
    twostate lemma StaysValid()
      requires old(Valid()) && unchanged(this)
      requires forall n :: n in nodes ==> unchanged(n)
      requires forall it :: it in iters ==> unchanged(it)
      ensures Valid()
    {
      forall k | 0 <= k < |nodes|
        ensures NodeNumbered(k) && NodeLinked(nodes, k)
      {
        assert nodes[k] in nodes && old(NodeNumbered(k) && NodeLinked(nodes, k));
      }
      forall k | 0 <= k < |iters|
        ensures IterNumbered(k) && IterLinked(iters, k)
      {
        assert iters[k] in iters && old(IterNumbered(k) && IterLinked(iters, k));
      }
    }

    lemma NotRegistered(it: Iterator<T>)
      requires ItersNumbered() && it.owner != this
      ensures it !in iters
    {
      forall k | 0 <= k < |iters|
        ensures iters[k] != it
      {
        assert IterNumbered(k);
      }
    }

    lemma NotRegisteredWith(list: MultiList<T>, it: Iterator<T>)
      requires ItersNumbered() && list.ItersNumbered() && list != this && it in list.iters
      ensures it !in iters
    {
      var k :| 0 <= k < |list.iters| && list.iters[k] == it;
      assert list.IterNumbered(k);
      NotRegistered(it);
    }

    /** Two lists share no node. */
    lemma ApartNodes(other: MultiList<T>)
      requires NodesNumbered() && other.NodesNumbered() && other != this
      ensures forall i, j :: 0 <= i < |nodes| && 0 <= j < |other.nodes| ==> nodes[i] != other.nodes[j]
    {
      forall i, j | 0 <= i < |nodes| && 0 <= j < |other.nodes|
        ensures nodes[i] != other.nodes[j]
      {
        assert NodeNumbered(i) && other.NodeNumbered(j);
      }
    }

    /** Two lists share no iterator. */
    lemma Apart(other: MultiList<T>)
      requires ItersNumbered() && other.ItersNumbered() && other != this
      ensures forall i, j :: 0 <= i < |iters| && 0 <= j < |other.iters| ==> iters[i] != other.iters[j]
      ensures forall it :: it in iters ==> it !in other.iters
    {
      forall i, j | 0 <= i < |iters| && 0 <= j < |other.iters|
        ensures iters[i] != other.iters[j]
      {
        assert IterNumbered(i) && other.IterNumbered(j);
      }
    }

    /** After the pointer writes of unlink the chain runs past element k. */
    twostate lemma IterBypassed(k: nat)
      requires old(ItersNumbered() && ItersLinked(iters)) && iters == old(iters) && k < |iters|
      requires var x := iters[k];
        && (old(x.pThis).ListHead? ==> firstIterator == old(x.nextIterator))
        && (!old(x.pThis).ListHead? ==> firstIterator == old(firstIterator))
        && (forall it :: it in iters && it != x ==>
          it.pThis == if it == old(x.nextIterator) then old(x.pThis) else old(it.pThis))
        && (forall it :: it in iters && it != x ==>
              it.nextIterator == if old(x.pThis).NextOf? && it == old(x.pThis).pred then old(x.nextIterator)
                                 else old(it.nextIterator))
      ensures ItersLinked(RemoveAt(iters, k))
    {
      var r := RemoveAt(iters, k);
      assert old(IterLinked(iters, k) && IterNumbered(k));
      assert k + 1 < |iters| ==> old(IterNumbered(k + 1));
      assert k > 0 ==> old(IterNumbered(k - 1));
      forall i | 0 <= i < |r|
        ensures IterLinked(r, i)
      {
        var j := if i < k then i else i + 1;
        assert old(IterLinked(iters, j) && IterNumbered(j)) && iters[j] == r[i];
      }
    }

    /** After the pointer writes of link the chain runs through x at index k. */
    twostate lemma IterSpliced(new x: Iterator<T>, k: nat)
      requires old(ItersNumbered() && ItersLinked(iters)) && iters == old(iters) && k <= |iters| && x !in iters
      requires x.nextIterator == IterOrNull(iters, k) && x.pThis == PlaceAt(iters, k)
      requires firstIterator == if k == 0 then x else old(firstIterator)
      requires forall it :: it in iters ==> it.pThis == if it == IterOrNull(iters, k) then NextOf(x) else old(it.pThis)
      requires forall it :: it in iters ==>
        it.nextIterator == if it == IterOrNull(iters, k - 1) then x else old(it.nextIterator)
      ensures ItersLinked(InsertAt(iters, k, x))
    {
      var r := InsertAt(iters, k, x);
      assert k < |iters| ==> old(IterNumbered(k));
      assert k > 0 ==> old(IterNumbered(k - 1));
      forall i | 0 <= i < |r|
        ensures IterLinked(r, i)
      {
        if i != k {
          var j := if i < k then i else i - 1;
          assert old(IterLinked(iters, j) && IterNumbered(j)) && iters[j] == r[i];
        }
      }
    }

    /** Bookkeeping: element k is no longer registered. */
    ghost method DropIter(x: Iterator<T>, k: nat)
      requires k < |iters| && iters[k] == x && ItersNumbered() && CursorsOk()
      modifies this`iters, iters`pos, x`owner
      ensures iters == RemoveAt(old(iters), k) && x.owner == null
      ensures ItersNumbered() && CursorsOk()
    {
      assert IterNumbered(k);
      forall it | it in iters && it.pos > k { it.pos := it.pos - 1; }
      x.owner := null;
      iters := RemoveAt(iters, k);
      forall i | 0 <= i < |iters|
        ensures IterNumbered(i)
      {
        assert old(IterNumbered(if i < k then i else i + 1));
      }
      assert forall it :: it in iters ==> it in old(iters);
    }

    /** Bookkeeping: x is registered at index k. */
    ghost method AddIter(x: Iterator<T>, k: nat)
      requires k <= |iters| && x !in iters && ItersNumbered() && CursorsOk() && PointsHere(x)
      modifies this`iters, iters`pos, x`owner, x`pos
      ensures iters == InsertAt(old(iters), k, x) && x.owner == this
      ensures ItersNumbered() && CursorsOk()
    {
      forall it | it in iters && it.pos >= k { it.pos := it.pos + 1; }
      x.owner, x.pos := this, k;
      iters := InsertAt(iters, k, x);
      forall i | 0 <= i < |iters|
        ensures IterNumbered(i)
      {
        if i != k {
          assert old(IterNumbered(if i < k then i else i - 1));
        }
      }
      assert forall it :: it in iters ==> it == x || it in old(iters);
    }

    // Facts about the node chain.

    lemma Locate(n: Node<T>)
      requires NodesNumbered() && NodesLinked(nodes) && n in nodes
      ensures 0 <= n.pos < |nodes| && nodes[n.pos] == n && n.owner == this && NodeLinked(nodes, n.pos)
      ensures n.next != n && n.pThis != n
      ensures n.next != null ==> n.next in nodes
      ensures n.pThis != null ==> n.pThis in nodes
    {
      var k :| 0 <= k < |nodes| && nodes[k] == n;
      assert NodeNumbered(k) && NodeLinked(nodes, k);
      assert k + 1 < |nodes| ==> NodeNumbered(k + 1);
      assert k > 0 ==> NodeNumbered(k - 1);
    }

    lemma NotInserted(n: Node<T>)
      requires NodesNumbered() && n.owner != this
      ensures n !in nodes
    {
      forall k | 0 <= k < |nodes|
        ensures nodes[k] != n
      {
        assert NodeNumbered(k);
      }
    }

    lemma NodesDistinct()
      requires NodesNumbered()
      ensures Distinct(nodes)
    {
      forall i, j | 0 <= i < j < |nodes|
        ensures nodes[i] != nodes[j]
      {
        assert NodeNumbered(i) && NodeNumbered(j);
      }
    }

    /** After the pointer writes of an extraction the chain runs past node k. */
    twostate lemma NodeBypassed(k: nat)
      requires old(NodesNumbered() && NodesLinked(nodes)) && nodes == old(nodes) && k < |nodes|
      requires var x := nodes[k];
        && firstNode == (if old(x.pThis) == null then old(x.next) else old(firstNode))
        && pLastNode == (if old(x.next) == null then old(x.pThis) else old(pLastNode))
        && (forall n :: n in nodes && n != x ==> n.pThis == if n == old(x.next) then old(x.pThis) else old(n.pThis))
        && (forall n :: n in nodes && n != x ==> n.next == if n == old(x.pThis) then old(x.next) else old(n.next))
      ensures NodesLinked(RemoveAt(nodes, k))
    {
      var r := RemoveAt(nodes, k);
      assert old(NodeLinked(nodes, k) && NodeNumbered(k));
      assert k + 1 < |nodes| ==> old(NodeNumbered(k + 1));
      assert k > 0 ==> old(NodeNumbered(k - 1));
      forall i | 0 <= i < |r|
        ensures NodeLinked(r, i)
      {
        var j := if i < k then i else i + 1;
        assert old(NodeLinked(nodes, j) && NodeNumbered(j)) && nodes[j] == r[i];
      }
    }

    /** After the pointer writes of an insertion the chain runs through n at index k. */
    twostate lemma NodeSpliced(new n: Node<T>, k: nat)
      requires old(NodesNumbered() && NodesLinked(nodes)) && nodes == old(nodes) && k <= |nodes| && n !in nodes
      requires n.next == NodeOrNull(nodes, k) && n.pThis == NodeOrNull(nodes, k - 1)
      requires firstNode == if k == 0 then n else old(firstNode)
      requires pLastNode == if k == |nodes| then n else old(pLastNode)
      requires forall m :: m in nodes ==> m.pThis == if m == NodeOrNull(nodes, k) then n else old(m.pThis)
      requires forall m :: m in nodes ==> m.next == if m == NodeOrNull(nodes, k - 1) then n else old(m.next)
      ensures NodesLinked(InsertAt(nodes, k, n))
    {
      var r := InsertAt(nodes, k, n);
      assert k < |nodes| ==> old(NodeNumbered(k));
      assert k > 0 ==> old(NodeNumbered(k - 1));
      forall i | 0 <= i < |r|
        ensures NodeLinked(r, i)
      {
        if i != k {
          var j := if i < k then i else i - 1;
          assert old(NodeLinked(nodes, j) && NodeNumbered(j)) && nodes[j] == r[i];
        }
      }
    }

    /** Bookkeeping: node k has been deleted. */
    ghost method DropNode(x: Node<T>, k: nat)
      requires k < |nodes| && nodes[k] == x && NodesNumbered()
      modifies this`nodes, nodes`pos, x`owner
      ensures nodes == RemoveAt(old(nodes), k) && x.owner == null
      ensures NodesNumbered()
    {
      assert NodeNumbered(k);
      forall n | n in nodes && n.pos > k { n.pos := n.pos - 1; }
      x.owner := null;
      nodes := RemoveAt(nodes, k);
      forall i | 0 <= i < |nodes|
        ensures NodeNumbered(i)
      {
        assert old(NodeNumbered(if i < k then i else i + 1));
      }
    }

    /** Bookkeeping: n has become node k. */
    ghost method AddNode(n: Node<T>, k: nat)
      requires k <= |nodes| && n !in nodes && NodesNumbered()
      modifies this`nodes, nodes`pos, n`owner, n`pos
      ensures nodes == InsertAt(old(nodes), k, n) && n.owner == this
      ensures NodesNumbered()
    {
      forall m | m in nodes && m.pos >= k { m.pos := m.pos + 1; }
      n.owner, n.pos := this, k;
      nodes := InsertAt(nodes, k, n);
      forall i | 0 <= i < |nodes|
        ensures NodeNumbered(i)
      {
        if i != k {
          assert old(NodeNumbered(if i < k then i else i - 1));
        }
      }
    }

    // Append.

    /** Appending invalidates no iterator: one that stands on the old last node has a null
        next pointer. */
    twostate lemma CursorsAppended(new n: Node<T>)
      requires old(CursorsOk()) && iters == old(iters) && nodes == old(nodes) + [n]
      requires forall m :: m in old(nodes) && old(m.next) != null ==> m.next == old(m.next)
      requires forall it :: it in iters ==> it.item == old(it.item) && it.nextItem == old(it.nextItem)
      ensures CursorsOk()
    {
      forall it | it in iters
        ensures PointsHere(it)
      {
        assert old(PointsHere(it));
      }
    }

    /** Internal: insert a new element at the end.  The cached next pointers of iterators
        stay as they are. */
    method InsertAtEnd(data: T) returns (n: Node<T>)
      requires Valid()
      modifies this`firstNode, this`pLastNode, this`nodes, nodes`next, nodes`pos
      ensures Valid() && nodes == old(nodes) + [n] && fresh(n) && n.data == data
    {
      assert |nodes| > 0 ==> NodeLinked(nodes, |nodes| - 1);
      n := new Node(data);
      NotInserted(n);
      EnterNodeAtEnd(n);
      NodeSpliced(n, |nodes|);
      AddNode(n, |nodes|);
      assert nodes == old(nodes) + [n];
      CursorsAppended(n);
    }

    /** The pointer writes of an append. */
    method EnterNodeAtEnd(n: Node<T>)
      requires n != pLastNode
      modifies this`firstNode, this`pLastNode, n`next, n`pThis
      modifies (if pLastNode != null then {pLastNode} else {})`next
      ensures n.next == null && n.pThis == old(pLastNode) && pLastNode == n
      ensures old(pLastNode) == null ==> firstNode == n
      ensures old(pLastNode) != null ==> firstNode == old(firstNode) && old(pLastNode).next == n
    {
      n.next := null;
      n.pThis := pLastNode;
      if pLastNode == null {
        firstNode := n;
      } else {
        pLastNode.next := n;
      }
      pLastNode := n;
    }

    // Walking over the live iterators.

    ghost predicate ItersIndexed()
      reads this`iters, iters`pos
    {
      forall it :: it in iters ==> 0 <= it.pos < |iters| && iters[it.pos] == it
    }

    lemma IndexIters()
      requires ItersNumbered()
      ensures ItersIndexed()
    {
      forall it | it in iters
        ensures 0 <= it.pos < |iters| && iters[it.pos] == it
      {
        var k :| 0 <= k < |iters| && iters[k] == it;
        assert IterNumbered(k);
      }
    }

    /** Internal: the iterators that stand before y now have n next; those whose item was
        deleted are left alone. */
    method RetargetBefore(y: Node<T>, n: Node<T>)
      requires ItersNumbered() && ItersLinked(iters)
      modifies iters`nextItem
      ensures forall it :: it in iters ==> it.AsCursor() == AfterInsert(old(it.AsCursor()), y, n)
    {
      IndexIters();
      var i := firstIterator;
      ghost var k := 0;
      while i != null
        invariant 0 <= k <= |iters| && i == IterOrNull(iters, k)
        invariant ItersNumbered() && ItersLinked(iters) && ItersIndexed()
        invariant forall it :: it in iters ==>
          it.AsCursor() == if it.pos < k then AfterInsert(old(it.AsCursor()), y, n) else old(it.AsCursor())
        decreases |iters| - k
      {
        assert IterLinked(iters, k) && IterNumbered(k);
        if i.item != null && i.nextItem == y {
          i.nextItem := n;
        }
        i, k := i.nextIterator, k + 1;
      }
    }

    /** Internal: no iterator points at x any more; the ones that stood before it skip it. */
    method RetargetPast(x: Node<T>)
      requires ItersNumbered() && ItersLinked(iters)
      modifies iters`item, iters`nextItem
      ensures forall it :: it in iters ==> it.AsCursor() == AfterExtract(old(it.AsCursor()), x, Opt(x.next))
    {
      IndexIters();
      var i := firstIterator;
      ghost var k := 0;
      while i != null
        invariant 0 <= k <= |iters| && i == IterOrNull(iters, k)
        invariant ItersNumbered() && ItersLinked(iters) && ItersIndexed()
        invariant forall it :: it in iters ==>
          it.AsCursor() == if it.pos < k then AfterExtract(old(it.AsCursor()), x, Opt(x.next)) else old(it.AsCursor())
        decreases |iters| - k
      {
        assert IterLinked(iters, k) && IterNumbered(k);
        if x == i.item {
          i.item := null;
        } else if x == i.nextItem {
          i.nextItem := i.nextItem.next;
        }
        i, k := i.nextIterator, k + 1;
      }
    }

    // Insertion.

    twostate lemma CursorsInserted(new n: Node<T>, k: nat)
      requires old(CursorsOk() && NodesNumbered() && NodesLinked(nodes))
      requires iters == old(iters) && k < |old(nodes)| && nodes == InsertAt(old(nodes), k, n)
      requires var y := old(nodes)[k];
        && (forall m :: m in old(nodes) ==> m.next == if m == old(y.pThis) then n else old(m.next))
        && (forall it :: it in iters ==> it.AsCursor() == AfterInsert(old(it.AsCursor()), y, n))
      ensures CursorsOk()
    {
      var y := old(nodes)[k];
      InInserted(old(nodes), k, n);
      assert old(NodeLinked(nodes, k) && NodeNumbered(k));
      assert k > 0 ==> old(NodeNumbered(k - 1));
      forall it | it in iters
        ensures PointsHere(it)
      {
        assert it.AsCursor() == AfterInsert(old(it.AsCursor()), y, n);
        assert old(PointsHere(it));
        if it.item != null {
          var i :| 0 <= i < |old(nodes)| && old(nodes)[i] == it.item;
          assert old(NodeLinked(nodes, i) && NodeNumbered(i));
          assert i + 1 < |old(nodes)| ==> old(NodeNumbered(i + 1));
        }
      }
    }

    /** Internal: insert a new element before an item. */
    method InsertBefore(y: Node<T>, data: T) returns (n: Node<T>)
      requires Valid() && y in nodes
      modifies this`firstNode, this`nodes, nodes`next, nodes`pThis, nodes`pos, iters`nextItem
      ensures Valid() && fresh(n) && n.data == data
      ensures 0 <= old(y.pos) < |old(nodes)| && old(nodes)[old(y.pos)] == y
      ensures nodes == InsertAt(old(nodes), old(y.pos), n)
      ensures forall it :: it in iters ==> it.AsCursor() == AfterInsert(old(it.AsCursor()), y, n)
    {
      ghost var k := y.pos;
      Locate(y);
      n := new Node(data);
      SpliceNodeBefore(n, y);
      assert ItersNumbered();
      assert ItersLinked(iters);
      RetargetBefore(y, n);
      assert NodesNumbered() && NodesLinked(nodes);
      assert ItersNumbered() && ItersLinked(iters);
      CursorsInserted(n, k);
    }

    /** Internal: the part of an insertion that concerns the node chain. */
    method SpliceNodeBefore(n: Node<T>, y: Node<T>)
      requires NodesNumbered() && NodesLinked(nodes) && y in nodes && n.owner == null
      modifies this`firstNode, this`nodes, nodes`next, nodes`pThis, nodes`pos, n`next, n`pThis, n`owner, n`pos
      ensures 0 <= old(y.pos) < |old(nodes)| && old(nodes)[old(y.pos)] == y
      ensures nodes == InsertAt(old(nodes), old(y.pos), n) && NodesNumbered() && NodesLinked(nodes)
      ensures forall m :: m in old(nodes) ==> m.next == if m == old(y.pThis) then n else old(m.next)
    {
      ghost var k := y.pos;
      Locate(y);
      NotInserted(n);
      EnterNodeBefore(n, y);
      NodeSpliced(n, k);
      AddNode(n, k);
    }

    /** The pointer writes of an insertion before y. */
    method EnterNodeBefore(n: Node<T>, y: Node<T>)
      requires n != y && n != y.pThis && y.pThis != y
      modifies this`firstNode, n`next, n`pThis, y`pThis
      modifies (if y.pThis != null then {y.pThis} else {})`next
      ensures n.next == y && n.pThis == old(y.pThis) && y.pThis == n
      ensures old(y.pThis) == null ==> firstNode == n
      ensures old(y.pThis) != null ==> firstNode == old(firstNode) && old(y.pThis).next == n
    {
      n.next := y;
      n.pThis := y.pThis;
      if n.pThis == null {
        firstNode := n;
      } else {
        n.pThis.next := n;
      }
      y.pThis := n;
    }

    // Extraction.

    twostate lemma CursorsExtracted(k: nat)
      requires old(CursorsOk() && NodesNumbered() && NodesLinked(nodes))
      requires iters == old(iters) && k < |old(nodes)| && nodes == RemoveAt(old(nodes), k)
      requires var x := old(nodes)[k];
        && (forall m :: m in old(nodes) && m != x ==> m.next == if m == old(x.pThis) then old(x.next) else old(m.next))
        && (forall it :: it in iters ==> it.AsCursor() == AfterExtract(old(it.AsCursor()), x, Opt(old(x.next))))
      ensures CursorsOk()
    {
      var x := old(nodes)[k];
      assert old(NodeLinked(nodes, k) && NodeNumbered(k));
      assert k + 1 < |old(nodes)| ==> old(NodeNumbered(k + 1));
      assert k > 0 ==> old(NodeNumbered(k - 1));
      forall m | m in old(nodes) && m != x
        ensures m in nodes
      {
        InRemoved(old(nodes), k, m);
      }
      forall it | it in iters
        ensures PointsHere(it)
      {
        assert it.AsCursor() == AfterExtract(old(it.AsCursor()), x, Opt(old(x.next)));
        assert old(PointsHere(it));
        if it.item != null {
          var i :| 0 <= i < |old(nodes)| && old(nodes)[i] == it.item;
          assert old(NodeLinked(nodes, i) && NodeNumbered(i));
          assert i + 1 < |old(nodes)| ==> old(NodeNumbered(i + 1));
        }
      }
    }

    /** Extract element: removes the element an iterator points at and returns it; null
        when the iterator points at no element. */
    method ExtractElement(iter: Iterator<T>) returns (r: Option<T>)
      requires Valid() && (iter.item != null ==> iter in iters)
      modifies this`firstNode, this`pLastNode, this`nodes, iters`item, iters`nextItem
      modifies nodes`next, nodes`pThis, nodes`pos, (if iter.item != null then {iter.item} else {})`owner
      ensures Valid()
      ensures old(iter.item) == null ==> r == None && nodes == old(nodes) && unchanged(iters)
      ensures var x := old(iter.item); x != null ==>
        && r == Some(x.data)
        && 0 <= old(x.pos) < |old(nodes)| && old(nodes)[old(x.pos)] == x
        && nodes == RemoveAt(old(nodes), old(x.pos)) && x.owner == null
        && (forall it :: it in iters ==> it.AsCursor() == AfterExtract(old(it.AsCursor()), x, Opt(old(x.next))))
    {
      var x := iter.item;
      if x != null {
        ghost var k := x.pos;
        assert PointsHere(iter);
        Locate(x);
        RetargetPast(x);
        assert NodesNumbered() && NodesLinked(nodes);
        UnspliceNode(x);
        assert ItersNumbered() && ItersLinked(iters);
        r := Some(x.data);
        CursorsExtracted(k);
      } else {
        r := None;
      }
    }

    /** Internal: the part of an extraction that concerns the node chain. */
    method UnspliceNode(x: Node<T>)
      requires NodesNumbered() && NodesLinked(nodes) && x in nodes
      modifies this`firstNode, this`pLastNode, this`nodes, nodes`next, nodes`pThis, nodes`pos, x`owner
      ensures 0 <= old(x.pos) < |old(nodes)| && old(nodes)[old(x.pos)] == x
      ensures nodes == RemoveAt(old(nodes), old(x.pos)) && NodesNumbered() && NodesLinked(nodes)
      ensures x.owner == null
      ensures forall m :: m in old(nodes) && m != x ==> m.next == if m == old(x.pThis) then old(x.next) else old(m.next)
    {
      ghost var k := x.pos;
      Locate(x);
      BypassNode(x);
      NodeBypassed(k);
      DropNode(x, k);
    }

    /** The pointer writes of an extraction. */
    method BypassNode(x: Node<T>)
      requires x.next != x && x.pThis != x
      modifies this`firstNode, this`pLastNode
      modifies (if x.pThis != null then {x.pThis} else {})`next
      modifies (if x.next != null then {x.next} else {})`pThis
      ensures firstNode == if x.pThis == null then x.next else old(firstNode)
      ensures pLastNode == if x.next == null then x.pThis else old(pLastNode)
      ensures x.pThis != null ==> x.pThis.next == x.next
      ensures x.next != null ==> x.next.pThis == x.pThis
    {
      if x.pThis == null {
        firstNode := x.next;
      } else {
        x.pThis.next := x.next;
      }
      if x.next != null {
        x.next.pThis := x.pThis;
      } else {
        pLastNode := x.pThis;
      }
    }

    // The rest of the interface.

    /** The links say what the value-level operations say. */
    lemma Meaning()
      requires Valid()
      ensures Distinct(nodes)
      ensures forall n :: n in nodes ==> IndexOf(nodes, n) == n.pos && Succ(nodes, n) == Opt(n.next)
      ensures forall it :: it in iters ==> CursorOk(nodes, it.AsCursor())
    {
      NodesDistinct();
      forall n | n in nodes
        ensures IndexOf(nodes, n) == n.pos && Succ(nodes, n) == Opt(n.next)
      {
        Locate(n);
        assert NodeNumbered(IndexOf(nodes, n));
      }
      forall it | it in iters
        ensures CursorOk(nodes, it.AsCursor())
      {
        assert PointsHere(it);
      }
    }

    method Begin() returns (it: Iterator<T>)
      requires Valid()
      modifies this`firstIterator, this`iters, iters`pThis, iters`pos
      ensures Valid() && fresh(it) && iters == [it] + old(iters) && nodes == old(nodes)
      ensures it.item == NodeOrNull(nodes, 0) && it.nextItem == NodeOrNull(nodes, 1)
    {
      assert |nodes| > 0 ==> NodeLinked(nodes, 0);
      it := new Iterator(firstNode, this);
    }

    /** Where an insertion through this iterator goes. */
    ghost function InsertionPoint(iter: Iterator<T>): int
      requires PointsHere(iter)
      reads this`nodes, iter`item, iter`nextItem, nodes
    {
      if iter.item != null then iter.item.pos
      else if iter.nextItem != null then iter.nextItem.pos
      else |nodes|
    }

    /** That is directly before the element the iterator visits next, or the end when there is
        none. */
    lemma InsertionIsAhead(iter: Iterator<T>)
      requires Valid() && (iter.item != null || iter.nextItem != null ==> iter in iters)
      ensures PointsHere(iter) && CursorOk(nodes, iter.AsCursor())
      ensures StartsAhead(nodes, iter.AsCursor(), InsertionPoint(iter))
    {
      Meaning();
      assert PointsHere(iter);
    }

    /** Insert an element before the position of an iterator, at the end when it points
        nowhere. */
    method InsertNode(iter: Iterator<T>, data: T) returns (n: Node<T>)
      requires Valid() && (iter.item != null || iter.nextItem != null ==> iter in iters)
      modifies this`firstNode, this`pLastNode, this`nodes, nodes`next, nodes`pThis, nodes`pos, iters`nextItem
      ensures Valid() && fresh(n) && n.data == data
      ensures old(PointsHere(iter)) && 0 <= old(InsertionPoint(iter)) <= |old(nodes)|
      ensures nodes == InsertAt(old(nodes), old(InsertionPoint(iter)), n)
      ensures forall it :: it in iters ==>
        it.AsCursor() == InsertCursor(old(Target(iter.AsCursor())), old(it.AsCursor()), n)
      ensures var p := old(InsertionPoint(iter)); forall it :: it in iters ==>
        it.AsCursor() == if p < |old(nodes)| then AfterInsert(old(it.AsCursor()), old(nodes)[p], n)
                         else old(it.AsCursor())
    {
      assert PointsHere(iter);
      if iter.item == null {
        if iter.nextItem == null {
          n := InsertAtEnd(data);
        } else {
          n := InsertBefore(iter.nextItem, data);
        }
      } else {
        n := InsertBefore(iter.item, data);
      }
    }

    method Insert(iter: Iterator<T>, data: T) returns (res: Iterator<T>)
      requires Valid() && (iter.item != null || iter.nextItem != null ==> iter in iters)
      modifies this, nodes`next, nodes`pThis, nodes`pos, iters`nextItem, iters`pThis, iters`pos
      ensures Valid() && fresh(res) && iters == [res] + old(iters)
      ensures res.item != null && fresh(res.item) && res.item.data == data && res.nextItem == res.item.next
      ensures old(PointsHere(iter)) && 0 <= old(InsertionPoint(iter)) <= |old(nodes)|
      ensures nodes == InsertAt<Node<T>>(old(nodes), old(InsertionPoint(iter)), res.item)
      ensures old(CursorOk(nodes, iter.AsCursor()) && StartsAhead(nodes, iter.AsCursor(), InsertionPoint(iter)))
      ensures forall it :: it in old(iters) ==>
        it.AsCursor() == InsertCursor<Node<T>>(old(Target(iter.AsCursor())), old(it.AsCursor()), res.item)
      ensures var p := old(InsertionPoint(iter)); forall it :: it in old(iters) ==>
        it.AsCursor() == if p < |old(nodes)| then AfterInsert<Node<T>>(old(it.AsCursor()), old(nodes)[p], res.item)
                         else old(it.AsCursor())
    {
      InsertionIsAhead(iter);
      var n := InsertNode(iter, data);
      InInserted(old(nodes), old(InsertionPoint(iter)), n);
      res := new Iterator(n, this);
    }

    /** Turns every registered iterator into an end() iterator. */
    method InvalidateAllIterators()
      requires Valid()
      modifies this`firstIterator, this`iters, iters
      ensures Valid() && iters == [] && nodes == old(nodes)
      ensures forall it :: it in old(iters) ==> it.Unregistered() && it.item == null && it.nextItem == null
    {
      while firstIterator != null
        invariant Valid() && nodes == old(nodes)
        invariant forall it :: it in iters ==> it in old(iters)
        invariant forall it :: it in old(iters) && it !in iters ==>
          it.Unregistered() && it.item == null && it.nextItem == null
        decreases |iters|
      {
        assert IterNumbered(0);
        assert forall it :: it in firstIterator.Chain() ==> it in iters;
        firstIterator.Invalidate();
      }
    }

    /** Extracts the element of a temporary iterator and destroys the iterator. */
    method ExtractThrough(it: Iterator<T>) returns (r: Option<T>)
      requires Valid() && |iters| > 0 && it == iters[0] && it.item == NodeOrNull(nodes, 0)
      modifies this`firstNode, this`pLastNode, this`nodes, this`firstIterator, this`iters
      modifies nodes`next, nodes`pThis, nodes`pos, nodes`owner
      modifies iters`item, iters`nextItem, iters`pThis, iters`pos, iters`nextIterator, it`owner
      ensures Valid() && iters == old(iters)[1..]
      ensures old(nodes) == [] ==> r == None && nodes == []
      ensures old(nodes) != [] ==>
        r == Some(old(nodes)[0].data) && nodes == old(nodes)[1..] && old(nodes)[0].owner == null
      ensures old(nodes) != [] ==> forall it :: it in iters ==>
        it.AsCursor() == AfterExtract(old(it.AsCursor()), old(nodes)[0], Opt(NodeOrNull(old(nodes), 1)))
    {
      assert IterNumbered(0) && (|nodes| > 0 ==> NodeNumbered(0) && NodeLinked(nodes, 0));
      r := ExtractElement(it);
      DestroyFirst(it);
    }

    /** Destroys the most recently registered iterator. */
    method DestroyFirst(it: Iterator<T>)
      requires Valid() && |iters| > 0 && it == iters[0]
      modifies this`firstIterator, this`iters, iters`pThis, iters`pos, iters`nextIterator, it`owner
      ensures Valid() && iters == old(iters)[1..]
    {
      assert IterNumbered(0);
      assert it.Chain() <= set x | x in iters;
      assert RemoveAt(iters, 0) == iters[1..];
      it.Unlink();
    }

    /** Removes the first element and returns it; null for an empty list. */
    method ExtractFront() returns (r: Option<T>)
      requires Valid()
      modifies this, nodes`next, nodes`pThis, nodes`pos, nodes`owner
      modifies iters`item, iters`nextItem, iters`pThis, iters`pos, iters`nextIterator
      ensures Valid() && iters == old(iters)
      ensures old(nodes) == [] ==> r == None && nodes == []
      ensures old(nodes) != [] ==>
        r == Some(old(nodes)[0].data) && nodes == old(nodes)[1..] && old(nodes)[0].owner == null
      ensures old(nodes) != [] ==> forall it :: it in iters ==>
        it.AsCursor() == AfterExtract(old(it.AsCursor()), old(nodes)[0], Opt(NodeOrNull(old(nodes), 1)))
    {
      var it := Begin();
      r := ExtractThrough(it);
    }

    /** Clear list: deletes all elements, after turning all iterators into end(). */
    method Clear()
      requires Valid()
      modifies this, nodes`next, nodes`pThis, nodes`pos, nodes`owner, iters
      ensures Valid() && nodes == [] && iters == []
      ensures forall it :: it in old(iters) ==> it.Unregistered() && it.item == null && it.nextItem == null
      ensures forall i :: 0 <= i < |old(nodes)| ==> old(nodes)[i].owner == null
    {
      InvalidateAllIterators();
      DeleteAll();
    }

    /** Deletes all elements of a list without iterators. */
    method DeleteAll()
      requires Valid() && iters == []
      modifies this, nodes`next, nodes`pThis, nodes`pos, nodes`owner
      ensures Valid() && nodes == [] && iters == []
      ensures forall i :: 0 <= i < |old(nodes)| ==> old(nodes)[i].owner == null
    {
      while firstNode != null
        invariant Valid() && iters == []
        invariant |nodes| <= |old(nodes)| && nodes == old(nodes)[|old(nodes)| - |nodes|..]
        invariant forall i :: 0 <= i < |old(nodes)| - |nodes| ==> old(nodes)[i].owner == null
        decreases |nodes|
      {
        ghost var d := |old(nodes)| - |nodes|;
        DeletedApart(old(nodes)[..d]);
        assert nodes[0] == old(nodes)[d];
        var data := ExtractFront();
        assert forall i :: 0 <= i < d ==> old(nodes)[..d][i].owner == null;
      }
    }

    /** A deleted node is in no list. */
    lemma DeletedApart(deleted: seq<Node<T>>)
      requires NodesNumbered() && forall i :: 0 <= i < |deleted| ==> deleted[i].owner == null
      ensures forall i, j :: 0 <= i < |deleted| && 0 <= j < |nodes| ==> deleted[i] != nodes[j]
    {
      forall i, j | 0 <= i < |deleted| && 0 <= j < |nodes|
        ensures deleted[i] != nodes[j]
      {
        assert NodeNumbered(j);
      }
    }

    /** Get the number of elements, by walking over the nodes. */
    method Size() returns (result: nat)
      requires Valid()
      ensures result == |nodes|
    {
      result := 0;
      var n := firstNode;
      while n != null
        invariant result <= |nodes| && n == NodeOrNull(nodes, result)
        decreases |nodes| - result
      {
        assert NodeLinked(nodes, result);
        n, result := n.next, result + 1;
      }
    }

    /** Erase the element an iterator points at, if there is one: every iterator still visits
        what it was going to visit, without that element. */
    method Erase(iter: Iterator<T>)
      requires Valid() && (iter.item != null ==> iter in iters)
      modifies this`firstNode, this`pLastNode, this`nodes, iters`item, iters`nextItem
      modifies nodes`next, nodes`pThis, nodes`pos, (if iter.item != null then {iter.item} else {})`owner
      ensures Valid()
      ensures old(iter.item) == null ==> nodes == old(nodes) && unchanged(iters)
      ensures old(iter.item) != null ==>
        && nodes == Without(old(nodes), old(iter.item)) && old(iter.item).owner == null
        && forall it :: it in iters ==>
          VisitsAllBut(old(nodes), old(it.AsCursor()), nodes, it.AsCursor(), old(iter.item))
    {
      if iter.item != null {
        EraseItem(iter);
      } else {
        var data := ExtractElement(iter);
      }
    }

    method EraseItem(iter: Iterator<T>)
      requires Valid() && iter in iters && iter.item != null
      modifies this`firstNode, this`pLastNode, this`nodes, iters`item, iters`nextItem
      modifies nodes`next, nodes`pThis, nodes`pos, (if iter.item != null then {iter.item} else {})`owner
      ensures Valid() && nodes == Without(old(nodes), old(iter.item)) && old(iter.item).owner == null
      ensures forall it :: it in iters ==>
        VisitsAllBut(old(nodes), old(it.AsCursor()), nodes, it.AsCursor(), old(iter.item))
    {
      Meaning();
      ghost var x, was := iter.item, nodes;
      assert PointsHere(iter);
      ghost var succ := Succ(nodes, x);
      assert IndexOf(nodes, x) == x.pos && succ == Opt(x.next);
      var data := ExtractElement(iter);
      assert nodes == Without(was, x);
      forall it | it in iters
        ensures VisitsAllBut(was, old(it.AsCursor()), nodes, it.AsCursor(), x)
      {
        assert it.AsCursor() == AfterExtract(old(it.AsCursor()), x, succ);
        ErasedAhead(was, old(it.AsCursor()), x, nodes, it.AsCursor());
      }
    }

    /** The cursor c' on nodes' still visits what c visited on nodes, without x. */
    static ghost predicate VisitsAllBut(nodes: seq<Node<T>>, c: Cursor<Node<T>>,
                                        nodes': seq<Node<T>>, c': Cursor<Node<T>>, x: Node<T>) {
      && CursorOk(nodes, c) && CursorOk(nodes', c')
      && Ahead(nodes', c') == Without(Ahead(nodes, c), x)
    }

    static lemma ErasedAhead(was: seq<Node<T>>, c: Cursor<Node<T>>, x: Node<T>, nodes': seq<Node<T>>,
                             c': Cursor<Node<T>>)
      requires Distinct(was) && CursorOk(was, c) && x in was
      requires nodes' == Without(was, x) && c' == AfterExtract(c, x, Succ(was, x))
      ensures VisitsAllBut(was, c, nodes', c', x)
    {
      ExtractAhead(was, c, x);
    }

    /** Append an element: it is visited by exactly those iterators whose next pointer is
        set, not by one that stands on the last element. */
    method PushBackNew(data: T)
      requires Valid()
      modifies this`firstNode, this`pLastNode, this`nodes, nodes`next, nodes`pos
      ensures Valid() && |nodes| > 0 && nodes[..|nodes| - 1] == old(nodes)
      ensures fresh(nodes[|nodes| - 1]) && nodes[|nodes| - 1].data == data
      ensures forall it :: it in iters ==>
        && old(CursorOk(nodes, it.AsCursor())) && CursorOk(nodes, it.AsCursor())
        && Ahead(nodes, it.AsCursor())
           == Ahead(old(nodes), it.AsCursor()) + if it.nextItem != null then [nodes[|nodes| - 1]] else []
    {
      Meaning();
      ghost var was := nodes;
      var n := InsertAtEnd(data);
      forall it | it in iters
        ensures old(CursorOk(nodes, it.AsCursor())) && CursorOk(nodes, it.AsCursor())
        ensures Ahead(nodes, it.AsCursor()) == Ahead(was, it.AsCursor()) + if it.nextItem != null then [n] else []
      {
        assert it.AsCursor() == old(it.AsCursor());
        AppendAhead(was, it.AsCursor(), n);
      }
    }

    /** Prepend an element.  The code does not re-point the back link of the old first
        node, so it keeps the list well formed exactly when the list was empty. */
    method PushFrontNew(data: T) returns (n: Node<T>)
      requires Valid()
      modifies this`firstNode, this`pLastNode, this`nodes, nodes`pos
      ensures fresh(n) && n.data == data && nodes == [n] + old(nodes)
      ensures n.next == old(firstNode) && firstNode == n
      ensures Valid() <==> old(nodes) == []
    {
      n := new Node(data);
      NotInserted(n);
      n.next := firstNode;
      n.pThis := null;
      if firstNode == null {
        pLastNode := n;
      }
      firstNode := n;
      AddNode(n, 0);
      assert old(|nodes| > 0 ==> NodeLinked(nodes, 0));
      assert Valid() ==> |nodes| > 1 ==> NodeLinked(nodes, 1);
      assert old(nodes) == [] ==> NodeLinked(nodes, 0);
      assert forall it :: it in iters ==> old(PointsHere(it));
    }
  }
}
