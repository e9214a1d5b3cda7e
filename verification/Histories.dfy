/** Histories of values that several parties move, and the share of each party in them. */
module Histories {

  /** A value, and who moved it. */
  datatype Tagged<V> = Tagged(who: nat, what: V)

  /** The history filed under a key; empty at first. */
  function At<K, V>(m: map<K, seq<V>>, k: K): seq<V> {
    if k in m then m[k] else []
  }

  function Values<V>(history: seq<Tagged<V>>): seq<V> {
    seq(|history|, i requires 0 <= i < |history| => history[i].what)
  }

  /** What one party moved, in order. */
  function Share<V>(history: seq<Tagged<V>>, who: nat): seq<V> {
    if history == [] then []
    else
      Share(history[..|history| - 1], who)
      + if history[|history| - 1].who == who then [history[|history| - 1].what] else []
  }

  lemma ShareAppend<V>(history: seq<Tagged<V>>, last: Tagged<V>, who: nat)
    ensures Share(history + [last], who) == Share(history, who) + if last.who == who then [last.what] else []
  {
    assert (history + [last])[..|history|] == history;
  }

  lemma {:induction false} NoShare<V>(history: seq<Tagged<V>>, who: nat)
    requires forall x | x in history :: x.who != who
    ensures Share(history, who) == []
  {
    if history != [] {
      NoShare(history[..|history| - 1], who);
    }
  }

  lemma {:induction false} WholeShare<V>(history: seq<Tagged<V>>, who: nat)
    requires forall x | x in history :: x.who == who
    ensures Share(history, who) == Values(history)
  {
    if history != [] {
      WholeShare(history[..|history| - 1], who);
      assert Values(history) == Values(history[..|history| - 1]) + [history[|history| - 1].what];
    }
  }

  lemma {:induction false} InShare<V>(history: seq<Tagged<V>>, x: Tagged<V>)
    requires x in history
    ensures x.what in Share(history, x.who)
  {
    if x in history[..|history| - 1] {
      InShare(history[..|history| - 1], x);
    }
  }

  /** Entry `i` of a history is the next of its share after those before it. */
  lemma {:induction false} ShareAt<V>(history: seq<Tagged<V>>, i: nat, who: nat)
    requires i < |history| && history[i].who == who
    ensures |Share(history[..i], who)| < |Share(history, who)|
    ensures Share(history, who)[|Share(history[..i], who)|] == history[i].what
    decreases |history|
  {
    var n := |history| - 1;
    if i < n {
      assert history[..n][..i] == history[..i];
      ShareAt(history[..n], i, who);
    }
  }
}
