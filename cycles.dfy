/**
 * What the generator's two tests mean for the "who gives to whom" structure.
 * Giver `i` gives to the participant at position `Next(original, result, i)`;
 * on an arrangement of distinct names this is a permutation of the positions,
 * and on an accepted arrangement none of its cycles has length 1 or 2.
 * These are consequences proved about the generator's output: the server
 * itself never decomposes an arrangement into cycles.
 */
module Cycles {
  import opened Derangement

  /** The position of giver `i`'s receiver in the original list: `original.indexOf(result[i])`. */
  function Next<T(==)>(original: seq<T>, result: seq<T>, i: nat): (j: int)
    requires |result| == |original| && i < |original|
    ensures IsPermutationOf(result, original) ==> 0 <= j < |original| && original[j] == result[i]
  {
    assert result[i] in multiset(result);
    IndexOf(original, result[i])
  }

  /** The position reached from `i` after following `k` gifts. */
  function Walk<T(==)>(original: seq<T>, result: seq<T>, i: nat, k: nat): (j: nat)
    requires IsPermutationOf(result, original) && i < |original|
    ensures j < |original|
  {
    if k == 0 then i else Next(original, result, Walk(original, result, i, k - 1))
  }

  /** Different givers give to different positions. */
  lemma NextInjective<T>(original: seq<T>, result: seq<T>, i: nat, k: nat)
    requires Distinct(original) && IsPermutationOf(result, original)
    requires i < |original| && k < |original| && i != k
    ensures Next(original, result, i) != Next(original, result, k)
  {
    PermutationKeepsDistinct(original, result);
  }

  /** Every position is the receiver of some giver. */
  lemma NextSurjective<T>(original: seq<T>, result: seq<T>, k: nat) returns (i: nat)
    requires Distinct(original) && IsPermutationOf(result, original) && k < |original|
    ensures i < |original| && Next(original, result, i) == k
  {
    assert original[k] in multiset(original);
    assert original[k] in result;
    i :| 0 <= i < |result| && result[i] == original[k];
    IndexOfDistinct(original, k);
  }

  /**
   * On an accepted arrangement nobody's gift chain closes after one or two
   * steps: every cycle has length at least 3.
   */
  lemma NoShortCycles<T>(original: seq<T>, result: seq<T>, i: nat)
    requires IsPermutationOf(result, original) && Acceptable(original, result) && i < |original|
    ensures Walk(original, result, i, 1) != i
    ensures Walk(original, result, i, 2) != i
  {
    assert PassesAt(original, result, i);
    var j := Next(original, result, i);
    assert Walk(original, result, i, 1) == j;
    assert Walk(original, result, i, 2) == Next(original, result, j);
  }

  /** With three names exactly the two rotations are accepted. */
  lemma ThreeNames<T>(original: seq<T>, result: seq<T>)
    requires |original| == 3 && Distinct(original) && IsPermutationOf(result, original)
    ensures Acceptable(original, result) <==>
            result == [original[1], original[2], original[0]] || result == [original[2], original[0], original[1]]
  {
    var o := original;
    if Acceptable(o, result) {
      var n0, n1, n2 := Next(o, result, 0), Next(o, result, 1), Next(o, result, 2);
      NoShortCycles(o, result, 0);
      NoShortCycles(o, result, 1);
      NoShortCycles(o, result, 2);
      assert Walk(o, result, 0, 1) == n0 && Walk(o, result, 1, 1) == n1 && Walk(o, result, 2, 1) == n2;
      NextInjective(o, result, 0, 1);
      NextInjective(o, result, 0, 2);
      NextInjective(o, result, 1, 2);
      assert Walk(o, result, 0, 2) == Next(o, result, n0);
      assert Walk(o, result, 1, 2) == Next(o, result, n1);
      assert result == [o[n0], o[n1], o[n2]];
    }
    var left, right := [o[1], o[2], o[0]], [o[2], o[0], o[1]];
    if result == left || result == right {
      AcceptableIffDerangement(o, result);
    }
  }

  /** With four names no gift chain closes after three steps. */
  lemma FourNamesNoThreeCycle<T>(original: seq<T>, result: seq<T>, a: nat)
    requires |original| == 4 && Distinct(original) && IsPermutationOf(result, original)
    requires Acceptable(original, result) && a < 4
    ensures Walk(original, result, a, 3) != a
  {
    var o := original;
    var b := Next(o, result, a);
    var c := Next(o, result, b);
    assert Walk(o, result, a, 3) == Next(o, result, c) by {
      assert Walk(o, result, a, 1) == b;
      assert Walk(o, result, a, 2) == c;
    }
    NoShortCycles(o, result, a);
    NoShortCycles(o, result, b);
    assert Walk(o, result, a, 1) == b && Walk(o, result, a, 2) == c;
    assert Walk(o, result, b, 1) == c;
    assert a != b && a != c && b != c;
    if Next(o, result, c) == a {
      // The giver outside the cycle a -> b -> c -> a.
      var m: nat := if 0 != a && 0 != b && 0 != c then 0
                    else if 1 != a && 1 != b && 1 != c then 1
                    else if 2 != a && 2 != b && 2 != c then 2
                    else 3;
      NextInjective(o, result, m, a);
      NextInjective(o, result, m, b);
      NextInjective(o, result, m, c);
      NoShortCycles(o, result, m);
      assert false;
    }
  }

  /**
   * With four names every accepted arrangement is one cycle through all
   * four: a 3-cycle would leave the fourth giver giving to themself.
   */
  lemma FourNamesOneCycle<T>(original: seq<T>, result: seq<T>, i: nat)
    requires |original| == 4 && Distinct(original) && IsPermutationOf(result, original)
    requires Acceptable(original, result) && i < 4
    ensures Distinct([Walk(original, result, i, 0), Walk(original, result, i, 1),
                      Walk(original, result, i, 2), Walk(original, result, i, 3)])
  {
    var o := original;
    var w0, w1, w2, w3 := Walk(o, result, i, 0), Walk(o, result, i, 1), Walk(o, result, i, 2), Walk(o, result, i, 3);
    NoShortCycles(o, result, w0);
    NoShortCycles(o, result, w1);
    NoShortCycles(o, result, w2);
    FourNamesNoThreeCycle(o, result, w0);
    assert Walk(o, result, w0, 1) == w1 && Walk(o, result, w0, 2) == w2 && Walk(o, result, w0, 3) == w3;
    assert Walk(o, result, w1, 1) == w2 && Walk(o, result, w1, 2) == w3;
    assert Walk(o, result, w2, 1) == w3;
  }
}
