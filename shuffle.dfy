/**
 * The Fisher-Yates shuffle `startQuiz` runs over `originalQuestionOrder`. Each call of
 * `Math.random` is replaced by the index it produced: `picks[i]` is the `j` chosen at step `i`,
 * which the source's `Math.floor(Math.random() * (i + 1))` keeps within `0..i`.
 */
module Shuffle {
  /** `picks` is a valid sequence of random choices for a shuffle of `n` elements. */
  predicate ValidPicks(picks: seq<nat>, n: nat) {
    |picks| >= n && forall i :: 0 <= i < n ==> picks[i] <= i
  }

  /** `[0, 1, ..., n-1]`: `[...Array(n).keys()]`. */
  function Range(n: nat): (r: seq<nat>)
    ensures |r| == n && forall k :: 0 <= k < n ==> r[k] == k
  {
    if n == 0 then [] else Range(n - 1) + [n - 1]
  }

  /** The destructuring swap `[s[i], s[j]] = [s[j], s[i]]`. */
  function SwapAt(s: seq<nat>, i: nat, j: nat): (r: seq<nat>)
    requires i < |s| && j < |s|
    ensures |r| == |s| && r[i] == s[j] && r[j] == s[i]
    ensures forall k :: 0 <= k < |s| && k != i && k != j ==> r[k] == s[k]
  {
    s[i := s[j]][j := s[i]]
  }

  /** The sequence after the steps `i, i-1, ..., 1` of the loop have run on `s`. */
  function ShuffleFrom(s: seq<nat>, picks: seq<nat>, i: int): (r: seq<nat>)
    requires i < |s| && ValidPicks(picks, |s|)
    ensures |r| == |s|
    decreases i
  {
    if i <= 0 then s else ShuffleFrom(SwapAt(s, i, picks[i]), picks, i - 1)
  }

  /** `s` holds each of `0..n-1` exactly once. */
  predicate IsPermutationOfRange(s: seq<nat>, n: nat) {
    |s| == n
    && (forall k :: 0 <= k < n ==> s[k] < n)
    && (forall k, l :: 0 <= k < l < n ==> s[k] != s[l])
    && (forall v :: 0 <= v < n ==> v in s)
  }

  lemma RangeIsPermutation(n: nat)
    ensures IsPermutationOfRange(Range(n), n)
  {
    var r := Range(n);
    forall v | 0 <= v < n ensures v in r {
      assert r[v] == v;
    }
  }

  lemma SwapKeepsPermutation(s: seq<nat>, n: nat, i: nat, j: nat)
    requires IsPermutationOfRange(s, n) && i < n && j < n
    ensures IsPermutationOfRange(SwapAt(s, i, j), n)
  {
    var r := SwapAt(s, i, j);
    forall v | 0 <= v < n ensures v in r {
      assert v in s;
      var k :| 0 <= k < |s| && s[k] == v;
      if k == i {
        assert r[j] == v;
      } else if k == j {
        assert r[i] == v;
      } else {
        assert r[k] == v;
      }
    }
  }

  /** Every run of the loop keeps a permutation of the indices a permutation. */
  lemma {:induction false} ShuffleKeepsPermutation(s: seq<nat>, picks: seq<nat>, i: int)
    requires i < |s| && ValidPicks(picks, |s|)
    requires IsPermutationOfRange(s, |s|)
    ensures IsPermutationOfRange(ShuffleFrom(s, picks, i), |s|)
    decreases i
  {
    if i > 0 {
      SwapKeepsPermutation(s, |s|, i, picks[i]);
      ShuffleKeepsPermutation(SwapAt(s, i, picks[i]), picks, i - 1);
    }
  }

  /** The loop rearranges its input: the multiset of elements is unchanged, whatever it held. */
  lemma {:induction false} ShufflePermutes(s: seq<nat>, picks: seq<nat>, i: int)
    requires i < |s| && ValidPicks(picks, |s|)
    ensures multiset(ShuffleFrom(s, picks, i)) == multiset(s)
    decreases i
  {
    if i > 0 {
      var j := picks[i];
      var t := SwapAt(s, i, j);
      assert t == s[i := s[j]][j := s[i]];
      ShufflePermutes(t, picks, i - 1);
    }
  }

  /** The shuffle loop, in place on the array: `for (i = n-1; i > 0; i--) swap(i, picks[i])`. */
  method FisherYates(a: array<nat>, picks: seq<nat>)
    requires ValidPicks(picks, a.Length)
    modifies a
    ensures a[..] == ShuffleFrom(old(a[..]), picks, a.Length - 1)
    ensures multiset(a[..]) == multiset(old(a[..]))
  {
    ghost var original := a[..];
    var i := a.Length - 1;
    while i > 0
      invariant -1 <= i < a.Length
      invariant a.Length == 0 || 0 <= i
      invariant ShuffleFrom(a[..], picks, i) == ShuffleFrom(original, picks, a.Length - 1)
      decreases i
    {
      var j := picks[i];
      ghost var before := a[..];
      a[i], a[j] := a[j], a[i];
      assert a[..] == SwapAt(before, i, j);
      i := i - 1;
    }
    ShufflePermutes(original, picks, a.Length - 1);
  }

  /** The order `startQuiz` builds: the indices `0..n-1`, shuffled. */
  method ShuffledOrder(n: nat, picks: seq<nat>) returns (order: seq<nat>)
    requires ValidPicks(picks, n)
    ensures order == ShuffleFrom(Range(n), picks, n - 1)
    ensures IsPermutationOfRange(order, n)
  {
    var a := new nat[n](k => k);
    assert a[..] == Range(n);
    FisherYates(a, picks);
    order := a[..];
    RangeIsPermutation(n);
    ShuffleKeepsPermutation(Range(n), picks, n - 1);
  }
}
