/** Several draws in a row: which words lead to which results, and how many do. */
module Draws {
  import opened Basics
  import opened RandomInt
  import opened FisherYates

  predicate Limits(ns: seq<nat>) {
    forall k :: 0 <= k < |ns| ==> 1 <= ns[k] < WORDS
  }

  predicate Within(ds: seq<nat>, ns: seq<nat>) {
    |ds| == |ns| && forall k :: 0 <= k < |ns| ==> ds[k] < ns[k]
  }

  /** One draw below each limit in turn, and where the next one starts. */
  function DrawAll(ns: seq<nat>, words: seq<Word>, start: nat): (r: (Option<seq<nat>>, nat))
    requires Limits(ns) && start <= |words|
    ensures start <= r.1 <= |words|
    ensures r.0.Some? ==> Within(r.0.value, ns)
  {
    if ns == [] then (Some([]), start)
    else
      var front := DrawAll(ns[..|ns| - 1], words, start);
      if front.0.None? then front
      else
        var last := Draw(ns[|ns| - 1], words, front.1);
        (if last.0.None? then None else Some(front.0.value + [last.0.value]), last.1)
  }

  lemma DrawOneMore(ns: seq<nat>, n: nat, words: seq<Word>, start: nat)
    requires Limits(ns) && 1 <= n < WORDS && start <= |words|
    ensures Limits(ns + [n])
    ensures var front := DrawAll(ns, words, start);
            DrawAll(ns + [n], words, start)
            == if front.0.None? then front
               else var last := Draw(n, words, front.1);
                    (if last.0.None? then None else Some(front.0.value + [last.0.value]), last.1)
  {
    assert (ns + [n])[..|ns|] == ns;
  }

  /** Drawing below ms and then below ns. */
  lemma {:induction false} DrawAllConcat(ms: seq<nat>, ns: seq<nat>, words: seq<Word>, start: nat)
    requires Limits(ms) && Limits(ns) && start <= |words|
    ensures Limits(ms + ns)
    ensures var front := DrawAll(ms, words, start);
            DrawAll(ms + ns, words, start)
            == if front.0.None? then front
               else var rest := DrawAll(ns, words, front.1);
                    (if rest.0.None? then None else Some(front.0.value + rest.0.value), rest.1)
  {
    var front := DrawAll(ms, words, start);
    if ns == [] {
      assert ms + ns == ms;
      assert front.0.Some? ==> front.0.value + [] == front.0.value;
    } else {
      var k := |ns| - 1;
      DrawAllConcat(ms, ns[..k], words, start);
      assert ms + ns == ms + ns[..k] + [ns[k]];
      DrawOneMore(ms + ns[..k], ns[k], words, start);
      if front.0.Some? && DrawAll(ns[..k], words, front.1).0.Some? {
        var rest := DrawAll(ns[..k], words, front.1);
        var last := Draw(ns[k], words, rest.1);
        if last.0.Some? {
          assert front.0.value + rest.0.value + [last.0.value] == front.0.value + (rest.0.value + [last.0.value]);
        }
      }
    }
  }

  // ----- Counting -----

  /** The vectors of accepted words, one for each limit, that leave the given residues. */
  ghost function Vectors(ns: seq<nat>, ds: seq<nat>): set<seq<Word>>
    requires Limits(ns) && |ds| == |ns|
  {
    if ns == [] then {[]}
    else
      var k := |ns| - 1;
      Extensions(Vectors(ns[..k], ds[..k]), AcceptedWith(ns[k], ds[k]))
  }

  ghost function Extensions(vs: set<seq<Word>>, ws: set<nat>): set<seq<Word>> {
    set v, w: Word | v in vs && w in ws :: v + [w]
  }

  /** How many words there are for one residue below each limit, multiplied. */
  function Ways(ns: seq<nat>): nat
    requires Limits(ns)
  {
    if ns == [] then 1 else Ways(ns[..|ns| - 1]) * (0xffff_ffff / ns[|ns| - 1])
  }

  lemma ExtensionsOfOne(v: seq<Word>, ws: set<nat>)
    requires forall w :: w in ws ==> w < WORDS
    ensures |Extensions({v}, ws)| == |ws|
  {
    if ws == {} {
      assert Extensions({v}, ws) == {};
    } else {
      var w :| w in ws;
      var rest := Extensions({v}, ws - {w});
      ExtensionsOfOne(v, ws - {w});
      forall u | u in rest ensures u != v + [w] {
        assert u[|v|] != w;
      }
      assert Extensions({v}, ws) == rest + {v + [w]};
    }
  }

  lemma ExtensionsSplit(vs: set<seq<Word>>, v: seq<Word>, ws: set<nat>)
    ensures Extensions(vs + {v}, ws) == Extensions(vs, ws) + Extensions({v}, ws)
  {
    forall u ensures u in Extensions(vs + {v}, ws) <==> u in Extensions(vs, ws) || u in Extensions({v}, ws) {
      Extended(vs + {v}, ws, u);
      Extended(vs, ws, u);
      Extended({v}, ws, u);
    }
  }

  lemma Extended(vs: set<seq<Word>>, ws: set<nat>, u: seq<Word>)
    ensures u in Extensions(vs, ws) <==> u != [] && u[..|u| - 1] in vs && u[|u| - 1] in ws
  {
    if u != [] {
      assert u == u[..|u| - 1] + [u[|u| - 1]];
    }
    forall v, w: Word | v in vs && w in ws && v + [w] == u ensures v == u[..|u| - 1] && w == u[|u| - 1] {
    }
  }

  lemma ExtensionsApart(vs: set<seq<Word>>, v: seq<Word>, ws: set<nat>)
    requires v !in vs
    ensures Extensions(vs, ws) !! Extensions({v}, ws)
  {
    forall u | u in Extensions(vs, ws) ensures u !in Extensions({v}, ws) {
      Extended(vs, ws, u);
      Extended({v}, ws, u);
    }
  }

  lemma OneMoreExtended(vs: set<seq<Word>>, v: seq<Word>, ws: set<nat>)
    requires v !in vs && forall w :: w in ws ==> w < WORDS
    ensures |Extensions(vs + {v}, ws)| == |Extensions(vs, ws)| + |ws|
  {
    ExtensionsOfOne(v, ws);
    ExtensionsApart(vs, v, ws);
    ExtensionsSplit(vs, v, ws);
  }

  lemma {:induction false} ExtensionsCount(vs: set<seq<Word>>, ws: set<nat>)
    requires forall w :: w in ws ==> w < WORDS
    ensures |Extensions(vs, ws)| == |vs| * |ws|
  {
    if vs == {} {
      assert Extensions(vs, ws) == {};
    } else {
      var v :| v in vs;
      ExtensionsCount(vs - {v}, ws);
      OneMoreExtended(vs - {v}, v, ws);
      OneMoreTimes(|vs - {v}|, |ws|);
      assert vs - {v} + {v} == vs;
    }
  }

  lemma OneMoreTimes(a: nat, b: nat)
    ensures (a + 1) * b == a * b + b
  {
  }

  /** However the residues are chosen, equally many vectors of accepted words leave them. */
  lemma {:induction false} VectorsCount(ns: seq<nat>, ds: seq<nat>)
    requires Limits(ns) && Within(ds, ns)
    ensures |Vectors(ns, ds)| == Ways(ns)
  {
    if ns != [] {
      var k := |ns| - 1;
      VectorsCount(ns[..k], ds[..k]);
      Uniform(ns[k], ds[k]);
      ExtensionsCount(Vectors(ns[..k], ds[..k]), AcceptedWith(ns[k], ds[k]));
    }
  }

  lemma {:induction false} VectorsMembers(ns: seq<nat>, ds: seq<nat>, words: seq<Word>)
    requires Limits(ns) && |ds| == |ns|
    ensures words in Vectors(ns, ds)
       <==> |words| == |ns| && forall k :: 0 <= k < |ns| ==> words[k] in AcceptedWith(ns[k], ds[k])
  {
    if ns != [] {
      var k := |ns| - 1;
      Extended(Vectors(ns[..k], ds[..k]), AcceptedWith(ns[k], ds[k]), words);
      if words != [] {
        VectorsMembers(ns[..k], ds[..k], words[..|words| - 1]);
      }
    }
  }

  /** A draw at an accepted word takes that word. */
  lemma {:induction false} NoRejection(ns: seq<nat>, ds: seq<nat>, words: seq<Word>)
    requires Limits(ns) && |ds| == |ns| <= |words|
    requires forall k :: 0 <= k < |ns| ==> words[k] in AcceptedWith(ns[k], ds[k])
    ensures DrawAll(ns, words, 0) == (Some(ds), |ns|)
  {
    if ns != [] {
      var k := |ns| - 1;
      NoRejection(ns[..k], ds[..k], words);
      assert ds == ds[..k] + [ds[k]];
    }
  }

  /** Every draw takes at least one word; when each takes just one, all of them were accepted. */
  lemma {:induction false} EveryDrawTakesAWord(ns: seq<nat>, words: seq<Word>)
    requires Limits(ns) && DrawAll(ns, words, 0).0.Some?
    ensures var (ds, next) := DrawAll(ns, words, 0);
            && next >= |ns|
            && (next == |ns| ==> forall k :: 0 <= k < |ns| ==> words[k] in AcceptedWith(ns[k], ds.value[k]))
  {
    if ns != [] {
      EveryDrawTakesAWord(ns[..|ns| - 1], words);
    }
  }

  /** The vectors are exactly the streams that yield these residues and end with the last draw, without a rejection. */
  lemma VectorsExactly(ns: seq<nat>, ds: seq<nat>, words: seq<Word>)
    requires Limits(ns) && Within(ds, ns) && |words| == |ns|
    ensures words in Vectors(ns, ds) <==> DrawAll(ns, words, 0).0 == Some(ds)
  {
    VectorsMembers(ns, ds, words);
    if words in Vectors(ns, ds) {
      NoRejection(ns, ds, words);
    }
    if DrawAll(ns, words, 0).0 == Some(ds) {
      EveryDrawTakesAWord(ns, words);
    }
  }

  /** Of any stream only the accepted words count: they form one of the vectors. */
  lemma {:induction false} AcceptedWordsDecide(ns: seq<nat>, words: seq<Word>, start: nat) returns (taken: seq<Word>)
    requires Limits(ns) && start <= |words| && DrawAll(ns, words, start).0.Some?
    ensures taken in Vectors(ns, DrawAll(ns, words, start).0.value)
    ensures |taken| == |ns| && DrawAll(ns, taken, 0).0 == DrawAll(ns, words, start).0
  {
    var ds := DrawAll(ns, words, start).0.value;
    if ns == [] {
      taken := [];
    } else {
      var k := |ns| - 1;
      var front := AcceptedWordsDecide(ns[..k], words, start);
      var i := FirstAccepted(ns[k], words, DrawAll(ns[..k], words, start).1);
      assert words[i] < Bound(ns[k]);
      taken := front + [words[i]];
      assert ds[..k] == DrawAll(ns[..k], words, start).0.value;
    }
    VectorsMembers(ns, ds, taken);
    VectorsExactly(ns, ds, taken);
  }

  // ----- Picking characters -----

  predicate Alphabets(abc: seq<string>) {
    forall k :: 0 <= k < |abc| ==> 1 <= |abc[k]| < WORDS
  }

  function LimitsOf(abc: seq<string>): (ns: seq<nat>)
    requires Alphabets(abc)
    ensures |ns| == |abc| && Limits(ns)
  {
    seq(|abc|, k requires 0 <= k < |abc| => |abc[k]|)
  }

  /** The characters that residues stand for. */
  function Characters(abc: seq<string>, ds: seq<nat>): (s: string)
    requires Alphabets(abc) && Within(ds, LimitsOf(abc))
    ensures |s| == |abc| && forall k :: 0 <= k < |s| ==> s[k] == abc[k][ds[k]]
  {
    seq(|abc|, k requires 0 <= k < |abc| => abc[k][ds[k]])
  }

  /** The first i characters are picked, and the next draw starts at next. */
  ghost predicate Picked(abc: seq<string>, i: nat, words: seq<Word>, chars: string, next: nat)
    requires Alphabets(abc)
  {
    && i <= |abc| && next <= |words|
    && var (ds, at) := DrawAll(LimitsOf(abc[..i]), words, 0);
       ds.Some? && at == next && chars == Characters(abc[..i], ds.value)
  }

  lemma LimitsOfMore(abc: seq<string>, i: nat)
    requires Alphabets(abc) && i < |abc|
    ensures LimitsOf(abc[..i + 1]) == LimitsOf(abc[..i]) + [|abc[i]|]
    ensures LimitsOf(abc) == LimitsOf(abc[..i + 1]) + LimitsOf(abc[i + 1..])
  {
  }

  /** One more character, or none of the rest. */
  lemma PickedMore(abc: seq<string>, i: nat, words: seq<Word>, chars: string, next: nat)
    requires Alphabets(abc) && i < |abc| && Picked(abc, i, words, chars, next)
    ensures var (d, at) := Draw(|abc[i]|, words, next);
            if d.None? then DrawAll(LimitsOf(abc), words, 0).0.None?
            else Picked(abc, i + 1, words, chars + [abc[i][d.value]], at)
  {
    LimitsOfMore(abc, i);
    DrawOneMore(LimitsOf(abc[..i]), |abc[i]|, words, 0);
    var (d, at) := Draw(|abc[i]|, words, next);
    if d.None? {
      DrawAllConcat(LimitsOf(abc[..i + 1]), LimitsOf(abc[i + 1..]), words, 0);
    } else {
      var ds := DrawAll(LimitsOf(abc[..i + 1]), words, 0).0.value;
      assert Characters(abc[..i + 1], ds) == chars + [abc[i][d.value]];
    }
  }

  // ----- Shuffling with drawn choices -----

  /** The limits of a shuffle of n items: the choice for the last index is drawn first. */
  function ShuffleLimits(n: nat): (ns: seq<nat>)
    requires 0 < n < WORDS
    ensures Limits(ns) && |ns| == n - 1
  {
    seq(n - 1, k requires 0 <= k < n - 1 => n - k)
  }

  /** The choices in index order; index 0 has no choice. */
  function Choices(ds: seq<nat>): (js: seq<nat>)
    ensures |js| == |ds| + 1
  {
    [0] + Reversed(ds)
  }

  function Reversed(ds: seq<nat>): (r: seq<nat>)
    ensures |r| == |ds|
  {
    seq(|ds|, k requires 0 <= k < |ds| => ds[|ds| - 1 - k])
  }

  lemma ReversedMore(ds: seq<nat>, d: nat)
    ensures Reversed(ds + [d]) == [d] + Reversed(ds)
  {
  }

  lemma ChoicesValid(ds: seq<nat>, n: nat)
    requires 0 < n < WORDS && Within(ds, ShuffleLimits(n))
    ensures ValidChoices(Choices(ds), n)
  {
  }

  lemma ChoicesReached(js: seq<nat>) returns (ds: seq<nat>)
    requires 0 < |js| < WORDS && ValidChoices(js, |js|)
    ensures Within(ds, ShuffleLimits(|js|)) && Choices(ds) == js
  {
    ds := Reversed(js[1..]);
    assert js[0] == 0;
    assert Choices(ds) == js;
  }

  lemma ChoicesInjective(ds: seq<nat>, ds': seq<nat>)
    ensures Choices(ds) == Choices(ds') <==> ds == ds'
  {
    if Choices(ds) == Choices(ds') {
      forall k | 0 <= k < |ds| ensures ds[k] == ds'[k] {
        assert Choices(ds)[|ds| - k] == ds[k] && Choices(ds')[|ds| - k] == ds'[k];
      }
    }
  }

  /** The shuffle a stream leads to, and where the next draw starts. */
  function DrawnShuffle<T>(items: seq<T>, words: seq<Word>, start: nat): Option<seq<T>>
    requires 0 < |items| < WORDS && start <= |words|
  {
    var ds := DrawAll(ShuffleLimits(|items|), words, start).0;
    if ds.None? then None
    else
      ChoicesValid(ds.value, |items|);
      Some(Shuffle(items, Choices(ds.value)))
  }

  /**
   The state of a shuffle that draws its choices: those for the indices above i are
   drawn, next comes the one for i.
   */
  ghost predicate Drawing<T>(items: seq<T>, words: seq<Word>, start: nat, cur: seq<T>, i: nat, ds: seq<nat>, next: nat)
    requires 0 < |items| < WORDS && start <= |words|
  {
    && i < |items| == |cur|
    && Pending(items, cur, i, Reversed(ds))
    && DrawAll(ShuffleLimits(|items|)[..|items| - 1 - i], words, start) == (Some(ds), next)
  }

  lemma DrawingStart<T>(items: seq<T>, words: seq<Word>, start: nat)
    requires 0 < |items| < WORDS && start <= |words|
    ensures Drawing(items, words, start, items, |items| - 1, [], start)
  {
    PendingStart(items);
    assert Reversed([]) == [];
  }

  lemma ShuffleLimitsMore(n: nat, k: nat)
    requires 0 < n < WORDS && k < n - 1
    ensures ShuffleLimits(n)[..k + 1] == ShuffleLimits(n)[..k] + [n - k]
    ensures ShuffleLimits(n) == ShuffleLimits(n)[..k + 1] + ShuffleLimits(n)[k + 1..]
  {
  }

  /** One more choice and one more swap, or no shuffle at all. */
  lemma DrawingStep<T>(items: seq<T>, words: seq<Word>, start: nat, cur: seq<T>, i: nat, ds: seq<nat>, next: nat)
    requires 0 < |items| < WORDS && start <= next <= |words| && 0 < i
    requires Drawing(items, words, start, cur, i, ds, next)
    ensures var (d, at) := Draw(i + 1, words, next);
            if d.None? then DrawnShuffle(items, words, start).None?
            else Drawing(items, words, start, Swap(cur, i, d.value), i - 1, ds + [d.value], at)
  {
    var ns, k := ShuffleLimits(|items|), |items| - 1 - i;
    ShuffleLimitsMore(|items|, k);
    DrawOneMore(ns[..k], i + 1, words, start);
    var (d, at) := Draw(i + 1, words, next);
    if d.None? {
      DrawAllConcat(ns[..k + 1], ns[k + 1..], words, start);
    } else {
      ReversedMore(ds, d.value);
      PendingStep(items, cur, i, Reversed(ds), d.value);
    }
  }

  lemma DrawingEnd<T>(items: seq<T>, words: seq<Word>, start: nat, cur: seq<T>, ds: seq<nat>, next: nat)
    requires 0 < |items| < WORDS && start <= |words| && Drawing(items, words, start, cur, 0, ds, next)
    ensures DrawAll(ShuffleLimits(|items|), words, start) == (Some(ds), next)
    ensures ValidChoices(Choices(ds), |items|) && Shuffle(items, Choices(ds)) == cur
    ensures DrawnShuffle(items, words, start) == Some(cur)
  {
    var ns := ShuffleLimits(|items|);
    assert ns[..|items| - 1] == ns;
    PendingEnd(items, cur, Reversed(ds));
  }

  /** Of distinct items every order comes from the same number of vectors of accepted words. */
  lemma ShuffleUniform<T>(items: seq<T>, target: seq<T>) returns (ds: seq<nat>)
    requires 0 < |items| < WORDS && Distinct(items) && multiset(items) == multiset(target)
    ensures Within(ds, ShuffleLimits(|items|))
    ensures |Vectors(ShuffleLimits(|items|), ds)| == Ways(ShuffleLimits(|items|))
    ensures forall words: seq<Word> :: |words| == |items| - 1 ==>
              (words in Vectors(ShuffleLimits(|items|), ds) <==> DrawnShuffle(items, words, 0) == Some(target))
  {
    var ns := ShuffleLimits(|items|);
    var js := ShuffleBijective(items, target);
    ds := ChoicesReached(js);
    VectorsCount(ns, ds);
    forall words: seq<Word> | |words| == |items| - 1
      ensures words in Vectors(ns, ds) <==> DrawnShuffle(items, words, 0) == Some(target)
    {
      VectorsExactly(ns, ds, words);
      var drawn := DrawAll(ns, words, 0).0;
      if drawn.Some? {
        ChoicesValid(drawn.value, |items|);
        ChoicesInjective(drawn.value, ds);
      }
    }
  }
}
