/**
 `shufflePermutations`: the Fisher-Yates shuffle run on a copy of the
 generated strings. Position `i` goes from the last index down to 1 and is
 swapped with a position `j` drawn from `[0, i]`. The draws of
 `Math.floor(Math.random() * (i + 1))` are passed in as `picks`, where
 `picks[i]` is the draw made for position `i`.
 */
module Shuffle {

  /** One draw per position, the draw for position `i` in `[0, i]`. */
  predicate ValidPicks(n: nat, picks: seq<nat>) {
    |picks| == n && forall i :: 0 <= i < n ==> picks[i] <= i
  }

  /** `[a[i], a[j]] = [a[j], a[i]]` */
  function Swap<T>(s: seq<T>, i: nat, j: nat): (r: seq<T>)
    requires i < |s| && j < |s|
    ensures |r| == |s| && r[i] == s[j] && r[j] == s[i]
    ensures forall k :: 0 <= k < |s| && k != i && k != j ==> r[k] == s[k]
  {
    s[i := s[j]][j := s[i]]
  }

  /** A swap reorders without adding or losing anything. */
  lemma SwapMultiset<T>(s: seq<T>, i: nat, j: nat)
    requires i < |s| && j < |s|
    ensures multiset(Swap(s, i, j)) == multiset(s)
  {
    var mid := s[i := s[j]];
    assert multiset(mid) == multiset(s) - multiset{s[i]} + multiset{s[j]};
  }

  /** The loop from position `i` down to 1, as a function of its draws. */
  function ShuffleDown<T>(s: seq<T>, picks: seq<nat>, i: int): (r: seq<T>)
    requires i < |s| && ValidPicks(|s|, picks)
    ensures |r| == |s|
    decreases i
  {
    if i <= 0 then s else ShuffleDown(Swap(s, i, picks[i]), picks, i - 1)
  }

  /** `shufflePermutations`: works on a copy and returns it. The result holds
      the same strings, each as often as before, and is what the draws
      determine; with fewer than two strings the loop does not run. */
  method ShufflePermutations(permutations: seq<string>, picks: seq<nat>) returns (shuffled: seq<string>)
    requires ValidPicks(|permutations|, picks)
    ensures |shuffled| == |permutations|
    ensures multiset(shuffled) == multiset(permutations)
    ensures |permutations| <= 1 ==> shuffled == permutations
    ensures shuffled == ShuffleDown(permutations, picks, |permutations| - 1)
  {
    shuffled := permutations;
    var i: int := |permutations| - 1;
    while i > 0
      invariant -1 <= i < |permutations|
      invariant |shuffled| == |permutations|
      invariant multiset(shuffled) == multiset(permutations)
      invariant i < |permutations| - 1 ==> |permutations| > 1
      invariant ShuffleDown(shuffled, picks, i) == ShuffleDown(permutations, picks, |permutations| - 1)
      decreases i
    {
      var j := picks[i];
      SwapMultiset(shuffled, i, j);
      shuffled := Swap(shuffled, i, j);
      i := i - 1;
    }
  }

  /** Where `x` sits in `s`. */
  function IndexOf<T(==)>(s: seq<T>, x: T): (k: nat)
    requires x in s
    ensures k < |s| && s[k] == x
  {
    if s[0] == x then 0 else 1 + IndexOf(s[1..], x)
  }

  /** The loop from position `i` down never reads a draw above `i`. */
  lemma {:induction false} ShuffleDownIgnoresHigherPicks<T>(s: seq<T>, picks: seq<nat>, i: int, k: nat, v: nat)
    requires i < k < |s| && v <= k && ValidPicks(|s|, picks)
    ensures ValidPicks(|s|, picks[k := v])
    ensures ShuffleDown(s, picks[k := v], i) == ShuffleDown(s, picks, i)
    decreases i
  {
    if i > 0 {
      ShuffleDownIgnoresHigherPicks(Swap(s, i, picks[i]), picks, i - 1, k, v);
    }
  }

  /** `s` and `t` agree above position `i` and hold the same elements up
      to it. */
  predicate SameUpTo<T(==)>(s: seq<T>, t: seq<T>, i: int) {
    && |s| == |t| && -1 <= i < |s|
    && multiset(s[..i + 1]) == multiset(t[..i + 1])
    && s[i + 1..] == t[i + 1..]
  }

  /** The element wanted at position `i` is somewhere at or below `i`. */
  function WantedIndex<T(==)>(s: seq<T>, t: seq<T>, i: nat): (j: nat)
    requires SameUpTo(s, t, i)
    ensures j <= i && s[j] == t[i]
  {
    assert t[i] in multiset(s[..i + 1]) by {
      assert t[..i + 1][i] == t[i];
    }
    IndexOf(s[..i + 1], t[i])
  }

  /** Swapping the element wanted at position `i` into place leaves the
      smaller problem: the two agree from `i` on and hold the same elements
      below it. */
  lemma SwapIntoPlace<T>(s: seq<T>, t: seq<T>, i: nat)
    requires 0 < i && SameUpTo(s, t, i)
    ensures SameUpTo(Swap(s, i, WantedIndex(s, t, i)), t, i - 1)
  {
    var j := WantedIndex(s, t, i);
    var next := Swap(s, i, j);
    SwapPrefixMultiset(s, t, i, j);
    SwapSuffix(s, t, i, j);
  }

  /** Below `i`, the swapped sequence holds what `t` holds. */
  lemma SwapPrefixMultiset<T>(s: seq<T>, t: seq<T>, i: nat, j: nat)
    requires |s| == |t| && 0 < i < |s| && j <= i && s[j] == t[i]
    requires multiset(s[..i + 1]) == multiset(t[..i + 1])
    ensures multiset(Swap(s, i, j)[..i]) == multiset(t[..i])
  {
    var next := Swap(s, i, j);
    var front := s[..i + 1];
    var a := next[..i];
    var b := t[..i];
    assert next[..i + 1] == Swap(front, i, j);
    SwapMultiset(front, i, j);
    assert next[..i + 1] == a + [t[i]];
    assert t[..i + 1] == b + [t[i]];
    assert multiset(a) + multiset{t[i]} == multiset(b) + multiset{t[i]};
    assert multiset(a) == multiset(a) + multiset{t[i]} - multiset{t[i]};
  }

  /** From `i` on, the swapped sequence is `t`. */
  lemma SwapSuffix<T>(s: seq<T>, t: seq<T>, i: nat, j: nat)
    requires |s| == |t| && 0 < i < |s| && j <= i && s[j] == t[i]
    requires s[i + 1..] == t[i + 1..]
    ensures Swap(s, i, j)[i..] == t[i..]
  {
    var next := Swap(s, i, j);
    forall k | i <= k < |s|
      ensures next[k] == t[k]
    {
      if k > i {
        assert s[k] == s[i + 1..][k - i - 1];
        assert t[k] == t[i + 1..][k - i - 1];
      }
    }
  }

  /** Draws that turn `s` into `t`: at each position from `i` down, the
      position of the element `t` wants there. */
  function PicksFor<T(==)>(s: seq<T>, t: seq<T>, i: int): (picks: seq<nat>)
    requires SameUpTo(s, t, i)
    ensures ValidPicks(|s|, picks)
    decreases i + 1
  {
    if i <= 0 then seq(|s|, _ => 0)
    else
      var j := WantedIndex(s, t, i);
      SwapIntoPlace(s, t, i);
      PicksFor(Swap(s, i, j), t, i - 1)[i := j]
  }

  /** Agreeing everywhere leaves nothing to reorder. */
  lemma SameAll<T>(s: seq<T>, t: seq<T>)
    requires SameUpTo(s, t, -1)
    ensures s == t
  {
    assert s[0..] == s;
    assert t[0..] == t;
  }

  /** Agreeing from position 1 on and holding the same first element. */
  lemma SameFirst<T>(s: seq<T>, t: seq<T>)
    requires SameUpTo(s, t, 0)
    ensures s == t
  {
    assert s[..1] == [s[0]] && t[..1] == [t[0]];
    assert s[0] in multiset(t[..1]);
    assert s == [s[0]] + s[1..] && t == [t[0]] + t[1..];
  }

  /** Two reorderings of each other are `SameUpTo` at their last index. */
  lemma SameUpToLast<T>(s: seq<T>, t: seq<T>)
    requires |s| == |t| && multiset(s) == multiset(t)
    ensures SameUpTo(s, t, |s| - 1)
  {
    assert s[..|s|] == s && t[..|t|] == t;
  }

  /** One turn of the loop with the chosen draws: it swaps the wanted element
      into position `i` and continues with the draws chosen for the rest. */
  lemma PicksForStep<T>(s: seq<T>, t: seq<T>, i: int)
    requires 0 < i && SameUpTo(s, t, i)
    ensures SameUpTo(Swap(s, i, WantedIndex(s, t, i)), t, i - 1)
    ensures var next := Swap(s, i, WantedIndex(s, t, i));
      ShuffleDown(s, PicksFor(s, t, i), i) == ShuffleDown(next, PicksFor(next, t, i - 1), i - 1)
  {
    var j := WantedIndex(s, t, i);
    SwapIntoPlace(s, t, i);
    var next := Swap(s, i, j);
    var rest := PicksFor(next, t, i - 1);
    var picks := PicksFor(s, t, i);
    assert picks == rest[i := j];
    assert ShuffleDown(s, picks, i) == ShuffleDown(next, picks, i - 1);
    ShuffleDownIgnoresHigherPicks(next, rest, i - 1, i, j);
  }

  /** Every reordering can come out: when `s` and `t` agree above `i` and
      hold the same elements up to it, the draws `PicksFor` chooses make the
      loop from `i` down turn `s` into `t`. */
  lemma {:induction false} EveryOrderingReachable<T>(s: seq<T>, t: seq<T>, i: int)
    requires SameUpTo(s, t, i)
    ensures ShuffleDown(s, PicksFor(s, t, i), i) == t
    decreases i + 1
  {
    if i == -1 {
      SameAll(s, t);
    } else if i == 0 {
      SameFirst(s, t);
    } else {
      PicksForStep(s, t, i);
      EveryOrderingReachable(Swap(s, i, WantedIndex(s, t, i)), t, i - 1);
    }
  }

  /** The shuffle of a whole sequence can produce any reordering of it. */
  lemma ShuffleCanProduceAnyOrdering(s: seq<string>, t: seq<string>)
    requires |s| == |t| && multiset(s) == multiset(t)
    ensures SameUpTo(s, t, |s| - 1)
    ensures ShuffleDown(s, PicksFor(s, t, |s| - 1), |s| - 1) == t
  {
    SameUpToLast(s, t);
    EveryOrderingReachable(s, t, |s| - 1);
  }
}
