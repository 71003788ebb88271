/** Waiting lines: what is left of a line when operations leave it anywhere and enter at the end. */
module Lines {
  import opened Operations

  /** The operations of a, in order, are among those of b. */
  predicate Within(a: seq<Operation>, b: seq<Operation>) {
    a == [] || (b != [] && if a[0] == b[0] then Within(a[1..], b[1..]) else Within(a, b[1..]))
  }

  /** One operation comes before another in a line. */
  predicate Precedes(line: seq<Operation>, x: Operation, y: Operation) {
    exists p, q :: 0 <= p < q < |line| && line[p] == x && line[q] == y
  }

  lemma {:induction false} WithinSelf(a: seq<Operation>)
    ensures Within(a, a)
  {
    if a != [] { WithinSelf(a[1..]); }
  }

  lemma {:induction false} WithinFewer(a: seq<Operation>, b: seq<Operation>)
    requires Within(a, b) && a != []
    ensures Within(a[1..], b)
    decreases |b|, 1
  {
    if a[0] == b[0] {
      WithinMore(a[1..], b);
    } else {
      WithinFewer(a, b[1..]);
      WithinMore(a[1..], b);
    }
  }

  lemma {:induction false} WithinMore(a: seq<Operation>, b: seq<Operation>)
    requires b != [] && Within(a, b[1..])
    ensures Within(a, b)
    decreases |b|, 0
  {
    if a != [] && a[0] == b[0] { WithinFewer(a, b[1..]); }
  }

  lemma {:induction false} WithinAgain(a: seq<Operation>, b: seq<Operation>, c: seq<Operation>)
    requires Within(a, b) && Within(b, c)
    ensures Within(a, c)
    decreases |c|
  {
    if a != [] {
      if b[0] != c[0] {
        WithinAgain(a, b, c[1..]);
      } else if a[0] == b[0] {
        WithinAgain(a[1..], b[1..], c[1..]);
      } else {
        WithinAgain(a, b[1..], c[1..]);
      }
      WithinMoreOrHead(a, c);
    }
  }

  lemma WithinMoreOrHead(a: seq<Operation>, c: seq<Operation>)
    requires a != [] && c != [] && (Within(a, c[1..]) || (a[0] == c[0] && Within(a[1..], c[1..])))
    ensures Within(a, c)
  {
    if Within(a, c[1..]) { WithinMore(a, c); }
  }

  /** Entering at the end. */
  lemma {:induction false} WithinLast(a: seq<Operation>, b: seq<Operation>, x: Operation)
    requires Within(a, b)
    ensures Within(a, b + [x]) && Within(a + [x], b + [x])
    decreases |b|
  {
    if b == [] {
      assert a + [x] == [x] && b + [x] == [x];
      WithinSelf([x]);
    } else {
      var more := b + [x];
      assert more[1..] == b[1..] + [x];
      if a == [] {
        WithinLast(a, b[1..], x);
        assert a + [x] == [x];
        WithinMore([x], more);
      } else if a[0] == b[0] {
        WithinLast(a[1..], b[1..], x);
        assert (a + [x])[1..] == a[1..] + [x];
      } else {
        WithinLast(a, b[1..], x);
      }
    }
  }

  /** Leaving. */
  lemma {:induction false} WithinWithout(a: seq<Operation>, op: Operation)
    ensures Within(Without(a, op), a)
  {
    if a != [] {
      if a[0] == op {
        WithinSelf(a[1..]);
        WithinMore(a[1..], a);
      } else {
        WithinWithout(a[1..], op);
        assert Without(a, op)[1..] == Without(a[1..], op);
      }
    }
  }

  lemma {:induction false} WithinNotOf(a: seq<Operation>, c: Controller)
    ensures Within(NotOf(a, c), a)
  {
    if a != [] {
      WithinNotOf(a[1..], c);
      var rest := NotOf(a[1..], c);
      if a[0].controller == c {
        assert NotOf(a, c) == rest;
        WithinMore(rest, a);
      } else {
        assert NotOf(a, c)[1..] == rest;
      }
    }
  }

  /** What is left stands in the order of the line. */
  lemma {:induction false} WithinOrder(a: seq<Operation>, b: seq<Operation>, i: nat, j: nat)
    requires Within(a, b) && i < j < |a|
    ensures Precedes(b, a[i], a[j])
    decreases |b|
  {
    if a[0] != b[0] {
      WithinOrder(a, b[1..], i, j);
      PrecedesMore(b, a[i], a[j]);
    } else if i > 0 {
      WithinOrder(a[1..], b[1..], i - 1, j - 1);
      PrecedesMore(b, a[i], a[j]);
    } else {
      WithinSome(a[1..], b[1..], j - 1);
      var q :| 0 <= q < |b[1..]| && b[1..][q] == a[j];
      assert b[0] == a[i] && b[q + 1] == a[j];
    }
  }

  lemma PrecedesMore(b: seq<Operation>, x: Operation, y: Operation)
    requires b != [] && Precedes(b[1..], x, y)
    ensures Precedes(b, x, y)
  {
    var p, q :| 0 <= p < q < |b[1..]| && b[1..][p] == x && b[1..][q] == y;
    assert b[p + 1] == x && b[q + 1] == y;
  }

  lemma {:induction false} WithinSome(a: seq<Operation>, b: seq<Operation>, i: nat)
    requires Within(a, b) && i < |a|
    ensures a[i] in b
    decreases |b|
  {
    if a[0] != b[0] {
      WithinSome(a, b[1..], i);
    } else if i > 0 {
      WithinSome(a[1..], b[1..], i - 1);
    }
  }

  /** Whoever is first in a line came before all others in it. */
  lemma FirstCame(a: seq<Operation>, b: seq<Operation>, rest: seq<Operation>)
    requires Within(a, b) && a != [] && Within(rest, a[1..])
    ensures forall x :: x in rest ==> Precedes(b, a[0], x)
  {
    forall x | x in rest
      ensures Precedes(b, a[0], x)
    {
      var i :| 0 <= i < |rest| && rest[i] == x;
      WithinSome(rest, a[1..], i);
      var j :| 0 <= j < |a[1..]| && a[1..][j] == x;
      WithinOrder(a, b, 0, j + 1);
    }
  }
}
