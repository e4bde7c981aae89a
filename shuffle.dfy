/**
 * `shuffleArray`, the Fisher–Yates shuffle that both catalog builders use: copy the
 * array, then for `i` from `length - 1` down to 1 swap element `i` with element
 * `j = Math.floor(Math.random() * (i + 1))`.
 *
 * `Math.random` is an oracle `random`: `random(t)` is the value returned by the t-th
 * call of one shuffle (t = 0, 1, …), a real number in [0, 1).
 */
module Shuffle {

  /** What `Math.random` promises: every value lies in [0, 1). */
  ghost predicate IsRandomSource(random: nat -> real)
  {
    forall t: nat :: 0.0 <= random(t) < 1.0
  }

  lemma ScaleBelow(r: real, i: nat)
    requires 0.0 <= r < 1.0
    ensures 0.0 <= r * ((i + 1) as real) < (i + 1) as real
  {
    var n := (i + 1) as real;
    assert n - r * n == (1.0 - r) * n;
    assert (1.0 - r) * n > 0.0;
  }

  /** `Math.floor(r * (i + 1))` for a random value `r`: a swap partner in [0, i]. */
  function Pick(r: real, i: nat): (j: nat)
    requires 0.0 <= r < 1.0
    ensures j <= i
  {
    ScaleBelow(r, i);
    (r * ((i + 1) as real)).Floor
  }

  /** `[s[i], s[j]] = [s[j], s[i]]`. */
  function Swap<T>(s: seq<T>, i: nat, j: nat): (r: seq<T>)
    requires i < |s| && j < |s|
    ensures |r| == |s| && r[i] == s[j] && r[j] == s[i]
    ensures forall k :: 0 <= k < |s| && k != i && k != j ==> r[k] == s[k]
  {
    s[i := s[j]][j := s[i]]
  }

  lemma SwapPermutes<T>(s: seq<T>, i: nat, j: nat)
    requires i < |s| && j < |s|
    ensures multiset(Swap(s, i, j)) == multiset(s)
  {
    var t := s[i := s[j]];
    assert multiset(t) == multiset(s) - multiset{s[i]} + multiset{s[j]};
    assert t[j] == (if i == j then s[j] else s[j]);
    assert multiset(t[j := s[i]]) == multiset(t) - multiset{t[j]} + multiset{s[i]};
  }

  /** The steps `i`, `i - 1`, …, 1 of the shuffle loop applied to `s`. */
  ghost function ShuffleFrom<T>(s: seq<T>, random: nat -> real, i: int): seq<T>
    requires i < |s|
    requires IsRandomSource(random)
    decreases i
  {
    if i <= 0 then s
    else
      var t := |s| - 1 - i;
      ShuffleFrom(Swap(s, i, Pick(random(t), i)), random, i - 1)
  }

  /** One iteration of the loop: step `i` swaps `i` with its partner, then come steps `i - 1`, …, 1. */
  lemma ShuffleStep<T>(s: seq<T>, random: nat -> real, i: int)
    requires 0 < i < |s|
    requires IsRandomSource(random)
    ensures ShuffleFrom(s, random, i) == ShuffleFrom(Swap(s, i, Pick(random(|s| - 1 - i), i)), random, i - 1)
  {
  }

  /** The result of `shuffleArray(s)` when `Math.random` answers with `random`. */
  ghost function Shuffled<T>(s: seq<T>, random: nat -> real): seq<T>
    requires IsRandomSource(random)
  {
    ShuffleFrom(s, random, |s| - 1)
  }

  lemma {:induction false} ShuffleFromPermutes<T>(s: seq<T>, random: nat -> real, i: int)
    requires i < |s|
    requires IsRandomSource(random)
    ensures multiset(ShuffleFrom(s, random, i)) == multiset(s)
    ensures |ShuffleFrom(s, random, i)| == |s|
    decreases i
  {
    if i > 0 {
      var j := Pick(random(|s| - 1 - i), i);
      SwapPermutes(s, i, j);
      ShuffleFromPermutes(Swap(s, i, j), random, i - 1);
    }
  }

  /** The shuffle returns a permutation of its input: same length, same multiset of elements. */
  lemma ShuffledPermutes<T>(s: seq<T>, random: nat -> real)
    requires IsRandomSource(random)
    ensures |Shuffled(s, random)| == |s|
    ensures multiset(Shuffled(s, random)) == multiset(s)
  {
    ShuffleFromPermutes(s, random, |s| - 1);
  }

  /** Arrays of length 0 or 1 come back unchanged. */
  lemma ShortIsUnchanged<T>(s: seq<T>, random: nat -> real)
    requires IsRandomSource(random)
    requires |s| <= 1
    ensures Shuffled(s, random) == s
  {
  }

  /** Every element of the input is in the output and nothing else is. */
  lemma ShuffledSameMembers<T>(s: seq<T>, random: nat -> real)
    requires IsRandomSource(random)
    ensures forall x :: x in Shuffled(s, random) <==> x in s
  {
    ShuffledPermutes(s, random);
    forall x ensures x in Shuffled(s, random) <==> x in s {
      assert x in Shuffled(s, random) <==> x in multiset(Shuffled(s, random));
      assert x in s <==> x in multiset(s);
    }
  }

  /** `[...a]`: a fresh array with the elements of `a`. */
  method CopyOf<T>(a: array<T>) returns (b: array<T>)
    ensures fresh(b) && b[..] == a[..]
  {
    b := new T[a.Length](k requires 0 <= k < a.Length reads a => a[k]);
  }

  /** `[a[i], a[j]] = [a[j], a[i]]` on an array. */
  method SwapElements<T>(a: array<T>, i: nat, j: nat)
    requires i < a.Length && j < a.Length
    modifies a
    ensures a[..] == Swap(old(a[..]), i, j)
  {
    a[i], a[j] := a[j], a[i];
  }

  /**
   * The body of the shuffle loop at `i`: `j = Math.floor(Math.random() * (i + 1))`,
   * then `a[i]` and `a[j]` change places. What is left to do then is steps `i - 1`, …, 1.
   */
  method ShuffleIteration<T>(a: array<T>, random: nat -> real, i: int)
    requires 0 < i < a.Length
    requires IsRandomSource(random)
    modifies a
    ensures a[..] == Swap(old(a[..]), i, Pick(random(a.Length - 1 - i), i))
    ensures ShuffleFrom(a[..], random, i - 1) == ShuffleFrom(old(a[..]), random, i)
  {
    ghost var before := a[..];
    var r := random(a.Length - 1 - i);
    var j := Pick(r, i);
    ShuffleStep(before, random, i);
    SwapElements(a, i, j);
  }

  /**
   * `shuffleArray(a)`: a fresh copy of `a` shuffled in place; `a` itself is not
   * modified (the method has no `modifies` clause).
   */
  method ShuffleArray<T>(a: array<T>, random: nat -> real) returns (newArray: array<T>)
    requires IsRandomSource(random)
    ensures fresh(newArray)
    ensures a[..] == old(a[..])
    ensures newArray[..] == Shuffled(a[..], random)
    ensures multiset(newArray[..]) == multiset(a[..])
  {
    ghost var input := a[..];
    newArray := CopyOf(a);
    var i := newArray.Length - 1;
    while i > 0
      invariant -1 <= i < newArray.Length == |input|
      invariant ShuffleFrom(newArray[..], random, i) == Shuffled(input, random)
      decreases i
    {
      ShuffleIteration(newArray, random, i);
      i := i - 1;
    }
    ShuffledPermutes(input, random);
  }

  /**
   * `shuffleArray([...xs])` on a list built in place: the elements of `s` put in a
   * fresh array, which is shuffled; the caller sees only the result's elements.
   */
  method ShuffleList<T>(s: seq<T>, random: nat -> real) returns (r: seq<T>)
    requires IsRandomSource(random)
    ensures r == Shuffled(s, random)
    ensures multiset(r) == multiset(s)
  {
    var a := new T[|s|](k requires 0 <= k < |s| => s[k]);
    assert a[..] == s;
    var shuffled := ShuffleArray(a, random);
    r := shuffled[..];
  }
}
