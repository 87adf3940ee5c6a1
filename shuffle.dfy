/** Fisher-Yates shuffle (the `shuffle` helper of script.js).

    The source walks an array from its last index down to 0 and swaps each
    element with the one at a random index in [0, i].  Randomness is injected:
    `draws[i]` is the index drawn when the loop index is i. */
module Shuffle {

  /** A draw sequence for shuffling n elements: one partner per index, never above that index. */
  predicate ValidDraws(draws: seq<nat>, n: nat) {
    |draws| == n && forall i :: 0 <= i < n ==> draws[i] <= i
  }

  /** Exchanges the elements at positions i and j. */
  function Swap<T>(s: seq<T>, i: nat, j: nat): seq<T>
    requires i < |s| && j < |s|
  {
    s[i := s[j]][j := s[i]]
  }

  /** A swap only rearranges. */
  lemma SwapIsPermutation<T>(s: seq<T>, i: nat, j: nat)
    requires i < |s| && j < |s|
    ensures multiset(Swap(s, i, j)) == multiset(s)
  {
  }

  /** The order a descending Fisher-Yates pass produces: after the swap at the
      last index, that position is never touched again, and the rest of the pass
      shuffles the prefix. */
  function Shuffled<T>(s: seq<T>, draws: seq<nat>): seq<T>
    requires ValidDraws(draws, |s|)
    decreases |s|
  {
    if |s| == 0 then []
    else
      var i := |s| - 1;
      var t := Swap(s, i, draws[i]);
      Shuffled(t[..i], draws[..i]) + [t[i]]
  }

  /** Shuffling keeps the length and is a permutation of its input. */
  lemma {:induction false} ShuffledIsPermutation<T>(s: seq<T>, draws: seq<nat>)
    requires ValidDraws(draws, |s|)
    ensures |Shuffled(s, draws)| == |s|
    ensures multiset(Shuffled(s, draws)) == multiset(s)
    decreases |s|
  {
    if |s| > 0 {
      var i := |s| - 1;
      var t := Swap(s, i, draws[i]);
      SwapIsPermutation(s, i, draws[i]);
      ShuffledIsPermutation(t[..i], draws[..i]);
      assert t == t[..i] + [t[i]];
    }
  }

  /** Equal multisets stay equal when the same element is taken from both. */
  lemma CancelOne<T>(m: multiset<T>, n: multiset<T>, x: T)
    requires m + multiset{x} == n + multiset{x}
    ensures m == n
  {
    forall y ensures m[y] == n[y] {
      assert (m + multiset{x})[y] == (n + multiset{x})[y];
    }
  }

  /** A non-empty sequence holds its prefix and its last element. */
  lemma LastOut<T>(u: seq<T>)
    requires |u| > 0
    ensures multiset(u) == multiset(u[..|u| - 1]) + multiset{u[|u| - 1]}
  {
    assert u == u[..|u| - 1] + [u[|u| - 1]];
  }

  /** Bringing the element that t ends with to the end of s leaves two
      prefixes that are rearrangements of each other. */
  lemma SameRest<T>(s: seq<T>, t: seq<T>, j: nat)
    requires multiset(s) == multiset(t) && |s| == |t| && j < |s| && s[j] == t[|t| - 1]
    ensures multiset(Swap(s, |s| - 1, j)[..|s| - 1]) == multiset(t[..|t| - 1])
  {
    var i := |s| - 1;
    var u := Swap(s, i, j);
    SwapIsPermutation(s, i, j);
    LastOut(u);
    LastOut(t);
    CancelOne(multiset(u[..i]), multiset(t[..i]), u[i]);
  }

  /** A pass whose last draw is j swaps j to the end and shuffles the rest with
      the other draws: when that yields t's prefix and j held t's last element,
      the whole pass yields t. */
  lemma ShuffledLastDraw<T>(s: seq<T>, t: seq<T>, d: seq<nat>, j: nat)
    requires |s| > 0 && |t| == |s| && ValidDraws(d, |s| - 1) && j < |s| && s[j] == t[|s| - 1]
    requires Shuffled(Swap(s, |s| - 1, j)[..|s| - 1], d) == t[..|s| - 1]
    ensures ValidDraws(d + [j], |s|) && Shuffled(s, d + [j]) == t
  {
    var i := |s| - 1;
    var draws := d + [j];
    assert draws[..i] == d && draws[i] == j;
    assert t[..i] + [t[i]] == t;
  }

  /** Every rearrangement of the input is produced by some valid draw sequence:
      the pass can reach each order, which is what makes it a fair shuffle when
      the draws are uniform. */
  lemma {:induction false} EveryOrderReachable<T>(s: seq<T>, t: seq<T>)
    requires multiset(s) == multiset(t)
    ensures exists draws :: ValidDraws(draws, |s|) && Shuffled(s, draws) == t
    decreases |s|
  {
    assert |s| == |multiset(s)| == |multiset(t)| == |t|;
    if |s| == 0 {
      assert ValidDraws([], 0) && Shuffled(s, []) == t;
    } else {
      var i := |s| - 1;
      assert t[i] in multiset(s);
      var j :| 0 <= j <= i && s[j] == t[i];
      var u := Swap(s, i, j);
      SameRest(s, t, j);
      EveryOrderReachable(u[..i], t[..i]);
      var d :| ValidDraws(d, i) && Shuffled(u[..i], d) == t[..i];
      ShuffledLastDraw(s, t, d, j);
    }
  }

  /** One iteration of the pass at index i turns the "still to shuffle" prefix
      of length i + 1 into one of length i, with the swapped element fixed. */
  lemma PassStep<T>(before: seq<T>, draws: seq<nat>, i: nat)
    requires ValidDraws(draws, |before|) && i < |before|
    ensures Shuffled(before[..i + 1], draws[..i + 1]) + before[i + 1..]
         == Shuffled(Swap(before, i, draws[i])[..i], draws[..i]) + Swap(before, i, draws[i])[i..]
  {
    var after := Swap(before, i, draws[i]);
    var p := before[..i + 1];
    var dp := draws[..i + 1];
    assert dp[..i] == draws[..i];
    assert Swap(p, i, dp[i])[..i] == after[..i];
    assert Swap(p, i, dp[i])[i] == after[i];
    assert after[i..] == [after[i]] + before[i + 1..];
  }

  /** The in-place pass: `for (i = n - 1; i >= 0; i--) swap(a[i], a[draws[i]])`. */
  method Shuffle<T>(a: array<T>, draws: seq<nat>)
    requires ValidDraws(draws, a.Length)
    modifies a
    ensures a[..] == Shuffled(old(a[..]), draws)
    ensures multiset(a[..]) == multiset(old(a[..]))
  {
    assert a[..a.Length] == a[..] && draws[..a.Length] == draws && a[a.Length..] == [];
    for i := a.Length downto 0
      invariant Shuffled(a[..i], draws[..i]) + a[i..] == Shuffled(old(a[..]), draws)
    {
      PassStep(a[..], draws, i);
      var rand := draws[i];
      a[i], a[rand] := a[rand], a[i];
    }
    assert a[0..] == a[..];
    ShuffledIsPermutation(old(a[..]), draws);
  }
}
