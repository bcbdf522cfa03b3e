/** The Fisher–Yates shuffle as a function of the choices j_i in 0..i it makes, i from the last index down. */
module FisherYates {
  import opened Basics

  predicate ValidChoices(js: seq<nat>, n: nat) {
    |js| == n && forall i :: 0 <= i < n ==> js[i] <= i
  }

  function Swap<T>(s: seq<T>, i: nat, j: nat): (t: seq<T>)
    requires i < |s| && j < |s|
    ensures |t| == |s|
  {
    s[i := s[j]][j := s[i]]
  }

  function Shuffle<T>(s: seq<T>, js: seq<nat>): (t: seq<T>)
    requires ValidChoices(js, |s|)
    ensures |t| == |s|
    decreases |s|
  {
    if s == [] then []
    else
      var i := |s| - 1;
      var t := Swap(s, i, js[i]);
      Shuffle(t[..i], js[..i]) + [t[i]]
  }

  lemma SwapPermutes<T>(s: seq<T>, i: nat, j: nat)
    requires i < |s| && j < |s|
    ensures multiset(Swap(s, i, j)) == multiset(s)
  {
  }

  lemma SplitLast<T>(s: seq<T>)
    requires s != []
    ensures multiset(s) == multiset(s[..|s| - 1]) + multiset{s[|s| - 1]}
  {
    assert s == s[..|s| - 1] + [s[|s| - 1]];
  }

  /** Sequences with the same last element are permutations of each other exactly when the rest is. */
  lemma PermuteFront<T>(s: seq<T>, t: seq<T>)
    requires s != [] && t != [] && s[|s| - 1] == t[|t| - 1]
    ensures multiset(s) == multiset(t) <==> multiset(s[..|s| - 1]) == multiset(t[..|t| - 1])
  {
    SplitLast(s);
    SplitLast(t);
    SameRest(multiset(s[..|s| - 1]), multiset(t[..|t| - 1]), s[|s| - 1]);
  }

  lemma SameRest<T>(a: multiset<T>, b: multiset<T>, x: T)
    ensures a + multiset{x} == b + multiset{x} <==> a == b
  {
    assert a == a + multiset{x} - multiset{x} && b == b + multiset{x} - multiset{x};
  }

  lemma ShuffleLast<T>(s: seq<T>, js: seq<nat>)
    requires s != [] && ValidChoices(js, |s|)
    ensures var i := |s| - 1; var t := Swap(s, i, js[i]);
            Shuffle(s, js)[i] == t[i] && Shuffle(s, js)[..i] == Shuffle(t[..i], js[..i])
  {
  }

  /** For any items the result is a permutation of the input. */
  lemma {:induction false} ShufflePermutes<T>(s: seq<T>, js: seq<nat>)
    requires ValidChoices(js, |s|)
    ensures multiset(Shuffle(s, js)) == multiset(s)
    decreases |s|
  {
    if s != [] {
      var i := |s| - 1;
      SwapPermutes(s, i, js[i]);
      ShufflePermutes(Swap(s, i, js[i])[..i], js[..i]);
      ShuffleLast(s, js);
      PermuteFront(Shuffle(s, js), Swap(s, i, js[i]));
    }
  }

  /** For distinct items, different choices give different permutations. */
  lemma {:induction false} ShuffleInjective<T>(s: seq<T>, js: seq<nat>, ks: seq<nat>)
    requires Distinct(s) && ValidChoices(js, |s|) && ValidChoices(ks, |s|)
    ensures Shuffle(s, js) == Shuffle(s, ks) <==> js == ks
    decreases |s|
  {
    if s != [] && Shuffle(s, js) == Shuffle(s, ks) {
      var i := |s| - 1;
      var t, u := Swap(s, i, js[i]), Swap(s, i, ks[i]);
      var a, b := Shuffle(t[..i], js[..i]), Shuffle(u[..i], ks[..i]);
      assert (a + [t[i]])[i] == (b + [u[i]])[i];
      assert js[i] == ks[i];
      assert a == (a + [t[i]])[..i] && b == (b + [u[i]])[..i];
      ShuffleInjective(t[..i], js[..i], ks[..i]);
      assert js == js[..i] + [js[i]] && ks == ks[..i] + [ks[i]];
    }
  }

  lemma FindLast<T>(s: seq<T>, target: seq<T>) returns (j: nat)
    requires s != [] && multiset(s) == multiset(target)
    ensures |target| == |s| && j < |s| && s[j] == target[|s| - 1]
  {
    assert |s| == |target| by { assert |multiset(s)| == |multiset(target)|; }
    var x := target[|s| - 1];
    assert x in multiset(target);
    assert x in s;
    j :| 0 <= j < |s| && s[j] == x;
  }

  /** The choice that puts the right element last leaves a permutation of the rest in front. */
  lemma LastChoice<T>(s: seq<T>, target: seq<T>) returns (j: nat)
    requires s != [] && multiset(s) == multiset(target)
    ensures |target| == |s| && j < |s|
    ensures var i := |s| - 1; var t := Swap(s, i, j); t[i] == target[i] && multiset(t[..i]) == multiset(target[..i])
  {
    j := FindLast(s, target);
    SwapPermutes(s, |s| - 1, j);
    PermuteFront(Swap(s, |s| - 1, j), target);
  }

  /** Every permutation is reached by some choices. */
  lemma {:induction false} ShuffleSurjective<T>(s: seq<T>, target: seq<T>) returns (js: seq<nat>)
    requires multiset(s) == multiset(target)
    ensures ValidChoices(js, |s|) && Shuffle(s, js) == target
    decreases |s|
  {
    if s == [] {
      assert |multiset(target)| == 0;
      js := [];
    } else {
      var i := |s| - 1;
      var j := LastChoice(s, target);
      var t := Swap(s, i, j);
      var front := ShuffleSurjective(t[..i], target[..i]);
      js := front + [j];
      assert js[..i] == front;
      assert target == target[..i] + [target[i]];
    }
  }

  /** For distinct items every permutation is produced by exactly one vector of choices. */
  lemma ShuffleBijective<T>(s: seq<T>, target: seq<T>) returns (js: seq<nat>)
    requires Distinct(s) && multiset(s) == multiset(target)
    ensures ValidChoices(js, |s|) && Shuffle(s, js) == target
    ensures forall ks: seq<nat> :: ValidChoices(ks, |s|) && Shuffle(s, ks) == target ==> ks == js
  {
    js := ShuffleSurjective(s, target);
    forall ks: seq<nat> | ValidChoices(ks, |s|) && Shuffle(s, ks) == target ensures ks == js {
      ShuffleInjective(s, js, ks);
    }
  }

  /** One swap of the loop. */
  lemma ShuffleStep<T>(s: seq<T>, js: seq<nat>, i: nat)
    requires ValidChoices(js, |s|) && i < |s|
    ensures var t := Swap(s, i, js[i]);
            Shuffle(s[..i + 1], js[..i + 1]) + s[i + 1..] == Shuffle(t[..i], js[..i]) + t[i..]
  {
    var t := Swap(s, i, js[i]);
    assert Swap(s[..i + 1], i, js[i])[..i] == t[..i];
    assert js[..i + 1][..i] == js[..i];
    assert t[i..] == [t[i]] + s[i + 1..];
  }

  /** A shuffle of at most one element does nothing. */
  lemma ShuffleTrivial<T>(s: seq<T>, js: seq<nat>)
    requires |s| <= 1 && ValidChoices(js, |s|)
    ensures Shuffle(s, js) == s
  {
    if |s| == 1 {
      assert js[0] == 0;
    }
  }

  /**
   The state of a loop that draws its choices as it goes: those for the indices
   above i are in tail, and whatever the remaining choices will be, shuffling the
   first i + 1 elements of cur with them completes the shuffle of s.
   */
  ghost predicate Pending<T>(s: seq<T>, cur: seq<T>, i: nat, tail: seq<nat>) {
    && i < |s| == |cur| && |tail| == |s| - 1 - i
    && (forall k :: 0 <= k < |tail| ==> tail[k] <= i + 1 + k)
    && forall ks :: ValidChoices(ks, i + 1) ==>
         ValidChoices(ks + tail, |s|) && Shuffle(s, ks + tail) == Shuffle(cur[..i + 1], ks) + cur[i + 1..]
  }

  lemma PendingStart<T>(s: seq<T>)
    requires s != []
    ensures Pending(s, s, |s| - 1, [])
  {
    forall ks | ValidChoices(ks, |s|) ensures Shuffle(s, ks + []) == Shuffle(s[..|s|], ks) + s[|s|..] {
      assert ks + [] == ks && s[..|s|] == s;
    }
  }

  /** Shuffling a prefix with one more choice is one swap, then shuffling what is below. */
  lemma PrefixStep<T>(cur: seq<T>, i: nat, ks: seq<nat>, j: nat)
    requires i < |cur| && ValidChoices(ks, i) && j <= i
    ensures ValidChoices(ks + [j], i + 1)
    ensures var t := Swap(cur, i, j); Shuffle(cur[..i + 1], ks + [j]) == Shuffle(t[..i], ks) + [t[i]]
  {
    assert (ks + [j])[..i] == ks;
    assert Swap(cur[..i + 1], i, j)[..i] == Swap(cur, i, j)[..i];
  }

  lemma PendingStep<T>(s: seq<T>, cur: seq<T>, i: nat, tail: seq<nat>, j: nat)
    requires Pending(s, cur, i, tail) && 0 < i && j <= i
    ensures Pending(s, Swap(cur, i, j), i - 1, [j] + tail)
  {
    var t := Swap(cur, i, j);
    assert t[i..] == [t[i]] + cur[i + 1..];
    forall ks | ValidChoices(ks, i)
      ensures ValidChoices(ks + ([j] + tail), |s|) && Shuffle(s, ks + ([j] + tail)) == Shuffle(t[..i], ks) + t[i..]
    {
      PrefixStep(cur, i, ks, j);
      assert ks + ([j] + tail) == (ks + [j]) + tail;
      assert Shuffle(t[..i], ks) + [t[i]] + cur[i + 1..] == Shuffle(t[..i], ks) + t[i..];
    }
  }

  lemma PendingEnd<T>(s: seq<T>, cur: seq<T>, tail: seq<nat>)
    requires Pending(s, cur, 0, tail)
    ensures ValidChoices([0] + tail, |s|) && Shuffle(s, [0] + tail) == cur
  {
    assert ValidChoices([0], 1);
    ShuffleTrivial(cur[..1], [0]);
    assert cur == cur[..1] + cur[1..];
  }
}
