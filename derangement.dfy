/**
 * The constrained random derangement generator of the Secret Santa server:
 * rejection sampling over Fisher–Yates shuffles, accepting the first
 * arrangement in which nobody receives their own name and no two givers
 * receive each other's names, and giving up after a fixed budget of attempts.
 *
 * `Math.random` is replaced by a nondeterministic choice of the swap index,
 * so every property below holds whatever the random source returns.
 */
module Derangement {
  import opened Wrappers

  /** Number of shuffles tried before the generator gives up. */
  const MaxAttempts: nat := 2000

  /** JavaScript's `s.indexOf(x)`: the first position holding `x`, or -1. */
  function IndexOf<T(==)>(s: seq<T>, x: T): (r: int)
    ensures -1 <= r < |s|
    ensures r == -1 <==> x !in s
    ensures 0 <= r ==> s[r] == x && x !in s[..r]
  {
    if |s| == 0 then -1
    else if s[0] == x then 0
    else
      var k := IndexOf(s[1..], x);
      if k == -1 then -1 else k + 1
  }

  /** No element occurs twice. */
  predicate Distinct<T(==)>(s: seq<T>) {
    forall i, j :: 0 <= i < j < |s| ==> s[i] != s[j]
  }

  /** `r` holds exactly the elements of `s`, as often as `s` does (so it is as long as `s`). */
  predicate IsPermutationOf<T(==)>(r: seq<T>, s: seq<T>) {
    |r| == |s| && multiset(r) == multiset(s)
  }

  /**
   * The two rejection tests at giver position `i`: the giver must not
   * receive their own name, and the giver `j` whose name `i` receives (found
   * with indexOf) must not receive `i`'s name. When indexOf finds nothing the
   * JavaScript comparison is against `undefined` and never rejects.
   */
  predicate PassesAt<T(==)>(original: seq<T>, candidate: seq<T>, i: nat)
    requires |candidate| == |original| && i < |original|
  {
    && original[i] != candidate[i]
    && var j := IndexOf(original, candidate[i]);
       j == -1 || candidate[j] != original[i]
  }

  /** The candidate survives the validation loop. */
  predicate Acceptable<T(==)>(original: seq<T>, candidate: seq<T>) {
    && |candidate| == |original|
    && forall i :: 0 <= i < |original| ==> PassesAt(original, candidate, i)
  }

  /** Nobody is assigned their own name. */
  predicate NoSelfMatch<T(==)>(original: seq<T>, result: seq<T>) {
    && |result| == |original|
    && forall i :: 0 <= i < |original| ==> result[i] != original[i]
  }

  /** No two givers are assigned each other: if giver `i` receives `k`'s name, `k` does not receive `i`'s. */
  predicate NoMutualPair<T(==)>(original: seq<T>, result: seq<T>) {
    && |result| == |original|
    && forall i, k :: 0 <= i < |original| && 0 <= k < |original| && result[i] == original[k] ==> result[k] != original[i]
  }

  /** In a list without repetitions, indexOf finds each element at its own position. */
  lemma IndexOfDistinct<T>(s: seq<T>, k: nat)
    requires Distinct(s) && k < |s|
    ensures IndexOf(s, s[k]) == k
  {
  }

  /** In a list without repetitions every element occurs at most once. */
  lemma {:induction false} DistinctCount<T>(s: seq<T>, x: T)
    requires Distinct(s)
    ensures multiset(s)[x] <= 1
  {
    if |s| > 0 {
      assert s == [s[0]] + s[1..];
      assert Distinct(s[1..]);
      DistinctCount(s[1..], x);
      if s[0] == x {
        assert x !in s[1..];
      }
    }
  }

  /** An element found at two positions occurs at least twice. */
  lemma RepeatedCount<T>(s: seq<T>, i: nat, j: nat)
    requires i < j < |s| && s[i] == s[j]
    ensures multiset(s)[s[i]] >= 2
  {
    assert s == s[..j] + s[j..];
    assert s[i] in s[..j];
    assert s[j] in s[j..];
  }

  /** Rearranging a list without repetitions gives a list without repetitions. */
  lemma PermutationKeepsDistinct<T>(s: seq<T>, r: seq<T>)
    requires Distinct(s) && IsPermutationOf(r, s)
    ensures Distinct(r)
  {
    forall i, j | 0 <= i < j < |r| ensures r[i] != r[j] {
      if r[i] == r[j] {
        RepeatedCount(r, i, j);
        DistinctCount(s, r[i]);
      }
    }
  }

  /**
   * For names without repetitions the source's two tests say exactly what
   * they are meant to: no self match and no mutual pair.
   */
  lemma AcceptableIffDerangement<T>(original: seq<T>, candidate: seq<T>)
    requires Distinct(original)
    ensures Acceptable(original, candidate) <==>
            NoSelfMatch(original, candidate) && NoMutualPair(original, candidate)
  {
    if Acceptable(original, candidate) {
      forall i, k | 0 <= i < |original| && 0 <= k < |original| && candidate[i] == original[k]
        ensures candidate[k] != original[i]
      {
        assert PassesAt(original, candidate, i);
        IndexOfDistinct(original, k);
      }
      assert NoSelfMatch(original, candidate) by {
        forall i | 0 <= i < |original| ensures candidate[i] != original[i] {
          assert PassesAt(original, candidate, i);
        }
      }
    }
    if NoSelfMatch(original, candidate) && NoMutualPair(original, candidate) {
      forall i | 0 <= i < |original| ensures PassesAt(original, candidate, i) {
        var j := IndexOf(original, candidate[i]);
        if j != -1 {
          assert candidate[i] == original[j];
        }
      }
    }
  }

  /** A one-name list has no acceptable arrangement: the only one keeps the name in place. */
  lemma OneNeverAcceptable<T>(original: seq<T>, candidate: seq<T>)
    requires |original| == 1 && IsPermutationOf(candidate, original)
    ensures !Acceptable(original, candidate)
  {
    assert original == [original[0]];
    if |candidate| == 1 {
      assert candidate == [candidate[0]];
      assert candidate[0] in multiset(original);
      assert !PassesAt(original, candidate, 0);
    }
  }

  /**
   * A two-name list has no acceptable arrangement: keeping the order is a
   * self match and swapping is a mutual pair.
   */
  lemma TwoNeverAcceptable<T>(original: seq<T>, candidate: seq<T>)
    requires |original| == 2 && IsPermutationOf(candidate, original)
    ensures !Acceptable(original, candidate)
  {
    assert original == [original[0], original[1]];
    if |candidate| == 2 && candidate[0] != original[0] {
      assert candidate == [candidate[0], candidate[1]];
      assert candidate[0] in multiset(original);
      assert candidate[0] == original[1];
      assert multiset{candidate[1]} == multiset{original[0]};
      IndexOfDistinct(original, 1);
      assert !PassesAt(original, candidate, 0);
    } else if |candidate| == 2 {
      assert !PassesAt(original, candidate, 0);
    }
  }

  /** One Fisher–Yates pass over `a` in place; the swap index is chosen freely in `[0, i]`. */
  method Shuffle<T>(a: array<T>)
    modifies a
    ensures multiset(a[..]) == old(multiset(a[..]))
  {
    var i := a.Length - 1;
    while i > 0
      invariant i < a.Length
      invariant multiset(a[..]) == old(multiset(a[..]))
    {
      var j :| 0 <= j <= i;
      a[i], a[j] := a[j], a[i];
      i := i - 1;
    }
  }

  /** The validation loop: scans the givers in order and stops at the first rejection. */
  method CheckCandidate<T(==)>(original: seq<T>, result: array<T>) returns (isValid: bool)
    requires result.Length == |original|
    ensures isValid == Acceptable(original, result[..])
  {
    isValid := true;
    var i := 0;
    while i < |original|
      invariant 0 <= i <= |original|
      invariant forall k :: 0 <= k < i ==> PassesAt(original, result[..], k)
    {
      if original[i] == result[i] {
        assert !PassesAt(original, result[..], i);
        isValid := false;
        break;
      }
      var j := IndexOf(original, result[i]);
      if j != -1 && result[j] == original[i] {
        assert !PassesAt(original, result[..], i);
        isValid := false;
        break;
      }
      i := i + 1;
    }
  }

  /**
   * `generateDerangementNoTwoCycle`: shuffle a working copy up to
   * MaxAttempts times and return the first acceptable arrangement, or None.
   * The ghost `spent` is the loop's attempt counter when the loop stops:
   * at most MaxAttempts, and equal to it exactly when the result is None.
   */
  method GenerateDerangementNoTwoCycle<T(==)>(arr: seq<T>) returns (r: Option<seq<T>>, ghost spent: nat)
    ensures spent <= MaxAttempts
    ensures r.None? <==> spent == MaxAttempts
    ensures r.Some? ==> IsPermutationOf(r.value, arr) && Acceptable(arr, r.value)
    ensures r.Some? ==> NoSelfMatch(arr, r.value)
    ensures r.Some? && Distinct(arr) ==> NoMutualPair(arr, r.value)
    ensures |arr| == 1 || |arr| == 2 ==> r.None?
    ensures |arr| == 0 ==> r == Some([])
  {
    var original := arr;
    var result := new T[|arr|](i requires 0 <= i < |arr| => arr[i]);
    assert result[..] == arr;
    var attempts := 0;
    while attempts < MaxAttempts
      invariant 0 <= attempts <= MaxAttempts
      invariant result.Length == |original|
      invariant IsPermutationOf(result[..], original)
      invariant |original| == 0 ==> attempts == 0
    {
      Shuffle(result);
      var isValid := CheckCandidate(original, result);
      if isValid {
        var found := result[..];
        if |original| == 1 {
          OneNeverAcceptable(original, found);
        } else if |original| == 2 {
          TwoNeverAcceptable(original, found);
        }
        assert NoSelfMatch(original, found) by {
          forall i | 0 <= i < |original| ensures found[i] != original[i] {
            assert PassesAt(original, found, i);
          }
        }
        if Distinct(original) {
          AcceptableIffDerangement(original, found);
        }
        return Some(found), attempts;
      }
      assert |original| != 0;
      attempts := attempts + 1;
    }
    return None, attempts;
  }
}
