/** Runs of a state machine that is given by its steps. */
module Runs {

  /** The events, one after the other, lead from `c` to `d`. */
  ghost predicate Leads<S(!new), E>(next: (S, E, S) -> bool, c: S, events: seq<E>, d: S)
    decreases |events|
  {
    if events == [] then c == d
    else exists m :: next(c, events[0], m) && Leads(next, m, events[1..], d)
  }

  lemma {:induction false} LeadsAppend<S(!new), E>(next: (S, E, S) -> bool, c: S, first: seq<E>, m: S,
                                                   second: seq<E>, d: S)
    requires Leads(next, c, first, m) && Leads(next, m, second, d)
    ensures Leads(next, c, first + second, d)
    decreases |first|
  {
    if first == [] {
      assert first + second == second;
    } else {
      var n :| next(c, first[0], n) && Leads(next, n, first[1..], m);
      LeadsAppend(next, n, first[1..], m, second, d);
      assert (first + second)[0] == first[0] && (first + second)[1..] == first[1..] + second;
    }
  }

  /** A run goes on with one more step. */
  lemma LeadsOn<S(!new), E>(next: (S, E, S) -> bool, c: S, events: seq<E>, m: S, e: E, d: S)
    requires Leads(next, c, events, m) && next(m, e, d)
    ensures Leads(next, c, events + [e], d)
  {
    assert Leads(next, d, [e][1..], d);
    LeadsAppend(next, c, events, m, [e], d);
  }

  /** What every step of a run keeps holds at its end. */
  lemma {:induction false} RunKeeps<S(!new), E(!new)>(next: (S, E, S) -> bool, inv: S -> bool, c: S, events: seq<E>,
                                                      d: S)
    requires Leads(next, c, events, d) && inv(c)
    requires forall x, e, y | e in events && inv(x) && next(x, e, y) :: inv(y)
    ensures inv(d)
    decreases |events|
  {
    if events != [] {
      var m :| next(c, events[0], m) && Leads(next, m, events[1..], d);
      RunKeeps(next, inv, m, events[1..], d);
    }
  }

  /** A run with fewer steps allowed is a run. */
  lemma {:induction false} MoreSteps<S(!new), E(!new)>(fewer: (S, E, S) -> bool, next: (S, E, S) -> bool, c: S,
                                                       events: seq<E>, d: S)
    requires Leads(fewer, c, events, d)
    requires forall x, e, y | fewer(x, e, y) :: next(x, e, y)
    ensures Leads(next, c, events, d)
    decreases |events|
  {
    if events != [] {
      var m :| fewer(c, events[0], m) && Leads(fewer, m, events[1..], d);
      MoreSteps(fewer, next, m, events[1..], d);
    }
  }
}
