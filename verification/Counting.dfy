/** Counting event times in an interval. */
module Counting {
  /** How many times lie in the closed interval. */
  function CountIn(times: seq<int>, from: int, to: int): nat {
    if times == [] then 0
    else (if from <= times[|times| - 1] <= to then 1 else 0) + CountIn(times[..|times| - 1], from, to)
  }

  lemma CountInSnoc(times: seq<int>, t: int, from: int, to: int)
    ensures CountIn(times + [t], from, to) == CountIn(times, from, to) + if from <= t <= to then 1 else 0
  {
    assert (times + [t])[..|times|] == times;
  }

  lemma {:induction false} CountInConcat(a: seq<int>, b: seq<int>, from: int, to: int)
    ensures CountIn(a + b, from, to) == CountIn(a, from, to) + CountIn(b, from, to)
  {
    if b == [] {
      assert a + b == a;
    } else {
      var b' := b[..|b| - 1];
      assert (a + b)[..|a + b| - 1] == a + b';
      CountInConcat(a, b', from, to);
    }
  }

  lemma {:induction false} CountInBound(times: seq<int>, from: int, to: int)
    ensures CountIn(times, from, to) <= |times|
  {
    if times != [] {
      CountInBound(times[..|times| - 1], from, to);
    }
  }

  lemma PrefixMembers(times: seq<int>, k: nat)
    requires k <= |times|
    ensures forall t | t in times[..k] :: t in times
  {
  }

  /** Counting a wider interval, as far as the times listed can tell, counts at least as many. */
  lemma {:induction false} CountInWider(times: seq<int>, from: int, to: int, from': int, to': int)
    requires forall t | t in times :: from <= t <= to ==> from' <= t <= to'
    ensures CountIn(times, from, to) <= CountIn(times, from', to')
  {
    if times != [] {
      var last, rest := times[|times| - 1], times[..|times| - 1];
      PrefixMembers(times, |times| - 1);
      assert last in times;
      CountInWider(rest, from, to, from', to');
    }
  }

  lemma {:induction false} CountInNone(times: seq<int>, from: int, to: int)
    requires forall t | t in times :: !(from <= t <= to)
    ensures CountIn(times, from, to) == 0
  {
    if times != [] {
      PrefixMembers(times, |times| - 1);
      assert times[|times| - 1] in times;
      CountInNone(times[..|times| - 1], from, to);
    }
  }

  lemma {:induction false} CountInAll(times: seq<int>, from: int, to: int)
    requires forall t | t in times :: from <= t <= to
    ensures CountIn(times, from, to) == |times|
  {
    if times != [] {
      PrefixMembers(times, |times| - 1);
      assert times[|times| - 1] in times;
      CountInAll(times[..|times| - 1], from, to);
    }
  }
}
