/** Induction over the events of a run. */
module Runs {
  ghost predicate KeepsAt<E>(inv: seq<E> -> bool, may: E -> bool, events: seq<E>, e: E) {
    inv(events) && may(e) ==> inv(events + [e])
  }

  /** What every event that may happen keeps holds after any number of them. */
  lemma {:induction false} KeepsOverRun<E(!new)>(inv: seq<E> -> bool, may: E -> bool, events: seq<E>, more: seq<E>)
    requires inv(events) && forall e :: e in more ==> may(e)
    requires forall p, e {:trigger KeepsAt(inv, may, p, e)} :: KeepsAt(inv, may, p, e)
    ensures inv(events + more)
    decreases |more|
  {
    if more == [] {
      assert events + more == events;
    } else {
      var fewer, e := more[..|more| - 1], more[|more| - 1];
      KeepsOverRun(inv, may, events, fewer);
      assert e in more && events + more == events + fewer + [e];
      assert KeepsAt(inv, may, events + fewer, e);
    }
  }
}
