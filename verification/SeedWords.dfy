/** The seed-phrase verification grid: shuffled phrase words and decoys, with one cell per phrase word. */
module SeedWords {
  import opened Basics
  import opened FisherYates

  // ----- The seeded shuffle -----

  /** One step of the linear congruential generator, modulo 2^32. */
  function NextRand(seed: int): nat {
    (seed * 1664525 + 1013904223) % 0x1_0000_0000
  }

  /** The generator's multiplier and increment, and so every value of it; equal values come from equal residues. */
  lemma GeneratorExactly(s: int, t: int)
    ensures NextRand(0) == 1013904223 && (NextRand(s + 1) - NextRand(s)) % 0x1_0000_0000 == 1664525
    ensures NextRand(s) == NextRand(t) <==> s % 0x1_0000_0000 == t % 0x1_0000_0000
  {
    var m, a, c := 0x1_0000_0000, 1664525, 1013904223;
    SameResidue(NextRand(s + 1) - NextRand(s), a, (s * a + c) / m - ((s + 1) * a + c) / m);
    if NextRand(s) == NextRand(t) {
      MultiplierInvertible(s - t, (s * a + c) / m - (t * a + c) / m);
      SameResidue(s, t, (s - t) / m);
    } else if s % m == t % m {
      SameResidue(s * a + c, t * a + c, (s / m - t / m) * a);
    }
  }

  /** 4276115653 is the inverse of the multiplier modulo 2^32. */
  lemma MultiplierInvertible(d: int, q: int)
    requires d * 1664525 == q * 0x1_0000_0000
    ensures d % 0x1_0000_0000 == 0
  {
    SameResidue(d, 0, q * 4276115653 - d * 1657219);
  }

  lemma SameResidue(x: int, y: int, q: int)
    requires x == y + q * 0x1_0000_0000
    ensures x % 0x1_0000_0000 == y % 0x1_0000_0000
  {
  }

  /** The choices the generator makes for n items; the last index chooses first. */
  function SeededChoices(n: nat, seed: int): (js: seq<nat>)
    ensures ValidChoices(js, n)
  {
    if n <= 1 then seq(n, _ => 0)
    else
      var rand := NextRand(seed);
      SeededChoices(n - 1, rand) + [rand % n]
  }

  /** The k-th value of the generator. */
  function Rand(seed: int, k: nat): int {
    if k == 0 then seed else NextRand(Rand(seed, k - 1))
  }

  lemma {:induction false} RandShift(seed: int, k: nat)
    ensures Rand(NextRand(seed), k) == Rand(seed, k + 1)
  {
    if k > 0 {
      RandShift(seed, k - 1);
    }
  }

  /** Index i takes the value drawn at its turn, counted from the last index down, modulo i + 1. */
  lemma {:induction false} SeededChoicesExactly(n: nat, seed: int, i: nat)
    requires 1 <= i < n
    ensures SeededChoices(n, seed)[i] == Rand(seed, n - i) % (i + 1)
  {
    if i < n - 1 {
      SeededChoicesExactly(n - 1, NextRand(seed), i);
      RandShift(seed, n - 1 - i);
    } else {
      assert Rand(seed, 1) == NextRand(Rand(seed, 0));
    }
  }

  function Shuffled<T>(items: seq<T>, seed: int): (t: seq<T>)
    ensures |t| == |items|
  {
    Shuffle(items, SeededChoices(|items|, seed))
  }

  lemma SeededStep(js: seq<nat>, i: nat, seed: int)
    requires 1 <= i < |js| && js[..i + 1] == SeededChoices(i + 1, seed)
    ensures js[i] == NextRand(seed) % (i + 1) && js[..i] == SeededChoices(i, NextRand(seed))
  {
    var front := SeededChoices(i, NextRand(seed));
    assert js[..i + 1][i] == js[i] && js[..i + 1][..i] == js[..i];
    assert (front + [NextRand(seed) % (i + 1)])[..i] == front;
  }

  method ShuffleWithSeed<T>(items: seq<T>, seed: int) returns (r: seq<T>)
    ensures r == Shuffled(items, seed)
  {
    var arr, currentSeed, i := items, seed, |items|;
    ghost var js := SeededChoices(|items|, seed);
    assert arr[..i] == arr && js[..i] == js && arr[i..] == [];
    while i > 1
      invariant 0 <= i <= |arr| == |items|
      invariant js[..i] == SeededChoices(i, currentSeed)
      invariant Shuffle(arr[..i], js[..i]) + arr[i..] == Shuffle(items, js)
    {
      i := i - 1;
      SeededStep(js, i, currentSeed);
      currentSeed := NextRand(currentSeed);
      var j := currentSeed % (i + 1);
      ShuffleStep(arr, js, i);
      arr := arr[i := arr[j]][j := arr[i]];
    }
    ShuffleTrivial(arr[..i], js[..i]);
    assert arr == arr[..i] + arr[i..];
    return arr;
  }

  // ----- Occurrences -----

  /** How often w occurs in s. */
  function Count(s: seq<string>, w: string): nat {
    if s == [] then 0 else Count(s[..|s| - 1], w) + (if s[|s| - 1] == w then 1 else 0)
  }

  /** The positions of w in s, in increasing order. */
  function Positions(s: seq<string>, w: string): (p: seq<nat>)
    ensures |p| == Count(s, w)
    ensures forall k :: 0 <= k < |p| ==> p[k] < |s| && s[p[k]] == w
    ensures forall j, k :: 0 <= j < k < |p| ==> p[j] < p[k]
  {
    if s == [] then []
    else Positions(s[..|s| - 1], w) + (if s[|s| - 1] == w then [|s| - 1] else [])
  }

  lemma {:induction false} CountIsMultiplicity(s: seq<string>, w: string)
    ensures Count(s, w) == multiset(s)[w]
  {
    if s != [] {
      CountIsMultiplicity(s[..|s| - 1], w);
      SplitLast(s);
    }
  }

  lemma {:induction false} CountMonotone(s: seq<string>, j: nat, k: nat, w: string)
    requires j <= k <= |s|
    ensures Count(s[..j], w) <= Count(s[..k], w)
    ensures j < k && s[j] == w ==> Count(s[..j], w) < Count(s[..k], w)
    decreases k - j
  {
    if j < k {
      assert s[..j + 1][..j] == s[..j];
      CountMonotone(s, j + 1, k, w);
    }
  }

  // ----- The grid -----

  datatype Grid = Grid(words: seq<string>, correctIndices: seq<nat>)

  datatype GridError = GridTooSmall | WordlistTooSmall

  function Without(words: seq<string>, excluded: seq<string>): (r: seq<string>)
    ensures forall k :: 0 <= k < |r| ==> r[k] !in excluded
  {
    if words == [] then []
    else Without(words[..|words| - 1], excluded) + (if words[|words| - 1] in excluded then [] else [words[|words| - 1]])
  }

  /** Filtering keeps every other word as often as it was there, in order: it goes through concatenation. */
  lemma {:induction false} WithoutExactly(a: seq<string>, b: seq<string>, excluded: seq<string>, w: string)
    ensures multiset(Without(a, excluded))[w] == if w in excluded then 0 else multiset(a)[w]
    ensures Without(a + b, excluded) == Without(a, excluded) + Without(b, excluded)
  {
    WithoutCount(a, excluded, w);
    if b == [] {
      assert a + b == a;
    } else {
      WithoutExactly(a, b[..|b| - 1], excluded, w);
      assert (a + b)[..|a + b| - 1] == a + b[..|b| - 1];
    }
  }

  lemma {:induction false} WithoutCount(a: seq<string>, excluded: seq<string>, w: string)
    ensures multiset(Without(a, excluded))[w] == if w in excluded then 0 else multiset(a)[w]
  {
    if a != [] {
      WithoutCount(a[..|a| - 1], excluded, w);
      SplitLast(a);
    }
  }

  function Decoys(realWords: seq<string>, gridSize: int, seed: int, allWords: seq<string>): (d: seq<string>)
    requires gridSize >= |realWords|
    ensures d <= Shuffled(Without(allWords, realWords), seed + 1)
  {
    var shuffled := Shuffled(Without(allWords, realWords), seed + 1);
    if gridSize - |realWords| <= |shuffled| then shuffled[..gridSize - |realWords|] else shuffled
  }

  function GridWords(realWords: seq<string>, gridSize: int, seed: int, allWords: seq<string>): seq<string>
    requires gridSize >= |realWords|
  {
    Shuffled(realWords, seed) + Decoys(realWords, gridSize, seed, allWords)
  }

  /** The cell of the k-th phrase word: its next unused occurrence in the grid. */
  function CellOf(words: seq<string>, phrase: seq<string>, k: nat): nat
    requires k < |phrase| && Count(phrase[..k], phrase[k]) < Count(words, phrase[k])
  {
    Positions(words, phrase[k])[Count(phrase[..k], phrase[k])]
  }

  /** The grid shows the phrase, one distinct cell per word, in order. */
  ghost predicate ShowsPhrase(grid: Grid, phrase: seq<string>) {
    && |grid.correctIndices| == |phrase|
    && Distinct(grid.correctIndices)
    && forall i :: 0 <= i < |phrase| ==>
         grid.correctIndices[i] < |grid.words| && grid.words[grid.correctIndices[i]] == phrase[i]
  }

  /** When its turn comes, every phrase word still has an unused occurrence among the words. */
  predicate Covers(words: seq<string>, phrase: seq<string>) {
    forall k :: 0 <= k < |phrase| ==> Count(phrase[..k], phrase[k]) < Count(words, phrase[k])
  }

  /** So it is in a grid: the cells are a permutation of the phrase, then decoys. */
  lemma NeverRunsOut(phrase: seq<string>, seed: int, decoys: seq<string>)
    ensures Covers(Shuffled(phrase, seed) + decoys, phrase)
  {
    var shuffled := Shuffled(phrase, seed);
    var words := shuffled + decoys;
    ShufflePermutes(phrase, SeededChoices(|phrase|, seed));
    assert phrase[..|phrase|] == phrase && words[..|phrase|] == shuffled && words[..|words|] == words;
    forall k | 0 <= k < |phrase| ensures Count(phrase[..k], phrase[k]) < Count(words, phrase[k]) {
      CountIsMultiplicity(phrase, phrase[k]);
      CountIsMultiplicity(shuffled, phrase[k]);
      CountMonotone(phrase, k, |phrase|, phrase[k]);
      CountMonotone(words, |phrase|, |words|, phrase[k]);
    }
  }

  function Cells(words: seq<string>, phrase: seq<string>): (c: seq<nat>)
    requires Covers(words, phrase)
    ensures |c| == |phrase| && forall k :: 0 <= k < |c| ==> c[k] == CellOf(words, phrase, k)
  {
    seq(|phrase|, k requires 0 <= k < |phrase| && Covers(words, phrase) => CellOf(words, phrase, k))
  }

  function BuildGrid(realWords: seq<string>, gridSize: int, seed: int, allWords: seq<string>): Result<Grid, GridError> {
    if gridSize < |realWords| then Err(GridTooSmall)
    else
      var words := GridWords(realWords, gridSize, seed, allWords);
      if |words| != gridSize then Err(WordlistTooSmall)
      else
        NeverRunsOut(realWords, seed, Decoys(realWords, gridSize, seed, allWords));
        Ok(Grid(words, Cells(words, realWords)))
  }

  lemma CellsDistinct(words: seq<string>, phrase: seq<string>, i: nat, j: nat)
    requires i < j < |phrase|
    requires Count(phrase[..i], phrase[i]) < Count(words, phrase[i])
    requires Count(phrase[..j], phrase[j]) < Count(words, phrase[j])
    ensures CellOf(words, phrase, i) != CellOf(words, phrase, j)
  {
    if phrase[i] == phrase[j] {
      CountMonotone(phrase, i, j, phrase[i]);
    }
  }

  /**
   When the builder returns, the grid has gridSize cells and shows the phrase,
   repeated words included; it returns exactly when gridSize has room for the
   phrase and the word list has enough other words.
   */
  lemma GridShowsPhrase(realWords: seq<string>, gridSize: int, seed: int, allWords: seq<string>)
    ensures var r := BuildGrid(realWords, gridSize, seed, allWords);
            && (r.Ok? <==> |realWords| <= gridSize <= |realWords| + |Without(allWords, realWords)|)
            && (r == Err(GridTooSmall) <==> gridSize < |realWords|)
            && (r.Ok? ==> |r.value.words| == gridSize && ShowsPhrase(r.value, realWords)
                          && multiset(realWords) <= multiset(r.value.words))
  {
    var r := BuildGrid(realWords, gridSize, seed, allWords);
    if r.Ok? {
      var decoys := Decoys(realWords, gridSize, seed, allWords);
      var words := Shuffled(realWords, seed) + decoys;
      NeverRunsOut(realWords, seed, decoys);
      CellsShowPhrase(words, realWords);
      ShufflePermutes(realWords, SeededChoices(|realWords|, seed));
    }
  }

  lemma CellsShowPhrase(words: seq<string>, phrase: seq<string>)
    requires Covers(words, phrase)
    ensures ShowsPhrase(Grid(words, Cells(words, phrase)), phrase)
  {
    forall i: nat, j: nat | i < j < |phrase|
      ensures Cells(words, phrase)[i] != Cells(words, phrase)[j]
    {
      CellsDistinct(words, phrase, i, j);
    }
  }

  /** Beside the phrase a grid shows only words of the list, none of them more often than the list has it. */
  lemma GridWordsExactly(realWords: seq<string>, gridSize: int, seed: int, allWords: seq<string>, w: string)
    ensures var r := BuildGrid(realWords, gridSize, seed, allWords);
            r.Ok? ==>
              if w in realWords then multiset(r.value.words)[w] == multiset(realWords)[w]
              else multiset(r.value.words)[w] <= multiset(allWords)[w]
  {
    var r := BuildGrid(realWords, gridSize, seed, allWords);
    if r.Ok? {
      ShufflePermutes(realWords, SeededChoices(|realWords|, seed));
      DecoysOccur(realWords, gridSize, seed, allWords, w);
      assert multiset(r.value.words)
          == multiset(Shuffled(realWords, seed)) + multiset(Decoys(realWords, gridSize, seed, allWords));
    }
  }

  lemma DecoysOccur(realWords: seq<string>, gridSize: int, seed: int, allWords: seq<string>, w: string)
    requires gridSize >= |realWords|
    ensures multiset(Decoys(realWords, gridSize, seed, allWords))[w]
         <= if w in realWords then 0 else multiset(allWords)[w]
  {
    var available := Without(allWords, realWords);
    var shuffled := Shuffled(available, seed + 1);
    ShufflePermutes(available, SeededChoices(|available|, seed + 1));
    WithoutCount(allWords, realWords, w);
    var d := Decoys(realWords, gridSize, seed, allWords);
    assert d == shuffled[..|d|];
    PrefixOccurs(shuffled, |d|, w);
  }

  lemma PrefixOccurs(s: seq<string>, n: nat, w: string)
    requires n <= |s|
    ensures multiset(s[..n])[w] <= multiset(s)[w]
  {
    assert s == s[..n] + s[n..];
  }

  /** No word of the phrase has two cells. */
  ghost predicate Unambiguous(words: seq<string>, phrase: seq<string>) {
    forall p, q :: 0 <= p < q < |words| && words[p] in phrase ==> words[p] != words[q]
  }

  lemma DistinctCounts(s: seq<string>, w: string)
    ensures Count(s, w) <= 1 || !Distinct(s)
  {
    var p := Positions(s, w);
    if |p| >= 2 {
      assert p[0] < p[1] && s[p[0]] == s[p[1]];
    }
  }

  lemma TwiceCounts(s: seq<string>, i: nat, j: nat)
    requires i < j < |s| && s[i] == s[j]
    ensures Count(s, s[i]) >= 2
  {
    CountMonotone(s, 0, i, s[i]);
    CountMonotone(s, i, j, s[i]);
    CountMonotone(s, j, |s|, s[i]);
    assert s[..|s|] == s;
  }

  lemma {:induction false} CountAppended(s: seq<string>, t: seq<string>, w: string)
    requires w !in t
    ensures Count(s + t, w) == Count(s, w)
  {
    if t == [] {
      assert s + t == s;
    } else {
      CountAppended(s, t[..|t| - 1], w);
      assert (s + t)[..|s + t| - 1] == s + t[..|t| - 1];
    }
  }

  lemma DecoysAvoid(realWords: seq<string>, gridSize: int, seed: int, allWords: seq<string>, w: string)
    requires gridSize >= |realWords| && w in realWords
    ensures w !in Decoys(realWords, gridSize, seed, allWords)
  {
    var available := Without(allWords, realWords);
    ShufflePermutes(available, SeededChoices(|available|, seed + 1));
    var shuffled := Shuffled(available, seed + 1);
    assert w !in multiset(available);
    assert w !in shuffled by { assert w !in multiset(shuffled); }
  }

  /** A grid that is returned is unambiguous exactly when the phrase repeats no word: decoys never do. */
  lemma UnambiguousExactly(realWords: seq<string>, gridSize: int, seed: int, allWords: seq<string>)
    ensures var r := BuildGrid(realWords, gridSize, seed, allWords);
            r.Ok? ==> (Unambiguous(r.value.words, realWords) <==> Distinct(realWords))
  {
    var r := BuildGrid(realWords, gridSize, seed, allWords);
    if r.Ok? {
      var words := r.value.words;
      forall w | w in realWords ensures Count(words, w) == Count(realWords, w) {
        DecoysAvoid(realWords, gridSize, seed, allWords, w);
        CountAppended(Shuffled(realWords, seed), Decoys(realWords, gridSize, seed, allWords), w);
        ShufflePermutes(realWords, SeededChoices(|realWords|, seed));
        CountIsMultiplicity(realWords, w);
        CountIsMultiplicity(Shuffled(realWords, seed), w);
      }
      forall p: nat, q: nat | p < q < |words| && words[p] in realWords && Distinct(realWords)
        ensures words[p] != words[q]
      {
        DistinctCounts(realWords, words[p]);
        if words[p] == words[q] {
          TwiceCounts(words, p, q);
        }
      }
      forall i: nat, j: nat | i < j < |realWords| && realWords[i] == realWords[j]
        ensures !Unambiguous(words, realWords)
      {
        TwiceCounts(realWords, i, j);
        var cells := Positions(words, realWords[i]);
        assert cells[0] < cells[1] && words[cells[0]] == words[cells[1]] == realWords[i];
      }
    }
  }

  /** The word-to-cells map of the builder: every word of the grid with its positions. */
  method PositionMap(words: seq<string>) returns (positions: map<string, seq<nat>>)
    ensures forall w :: w in positions <==> w in words
    ensures forall w :: w in positions ==> positions[w] == Positions(words, w)
  {
    positions := map[];
    for i := 0 to |words|
      invariant forall w :: w in positions <==> w in words[..i]
      invariant forall w :: w in positions ==> positions[w] == Positions(words[..i], w)
    {
      var w := words[i];
      assert words[..i + 1][..i] == words[..i];
      if w in positions {
        positions := positions[w := positions[w] + [i]];
      } else {
        NoPositions(words[..i], w);
        positions := positions[w := [i]];
      }
      assert words[..i + 1] == words[..i] + [w];
    }
    assert words[..|words|] == words;
  }

  lemma {:induction false} NoPositions(s: seq<string>, w: string)
    ensures Positions(s, w) == [] <==> w !in s
  {
    if s != [] {
      NoPositions(s[..|s| - 1], w);
      assert s == s[..|s| - 1] + [s[|s| - 1]];
    }
  }

  method FilterWords(allWords: seq<string>, excluded: set<string>, ghost realWords: seq<string>)
    returns (r: seq<string>)
    requires forall w :: w in excluded <==> w in realWords
    ensures r == Without(allWords, realWords)
  {
    r := [];
    for i := 0 to |allWords|
      invariant r == Without(allWords[..i], realWords)
    {
      assert allWords[..i + 1][..i] == allWords[..i];
      if allWords[i] !in excluded { r := r + [allWords[i]]; }
    }
    assert allWords[..|allWords|] == allWords;
  }

  /** The builder as it runs, with a queue of positions per word; its internal error is unreachable. */
  method BuildVerificationGrid(realWords: seq<string>, gridSize: int, randomSeed: int, allWords: seq<string>)
    returns (r: Result<Grid, GridError>)
    ensures r == BuildGrid(realWords, gridSize, randomSeed, allWords)
  {
    if gridSize < |realWords| { return Err(GridTooSmall); }
    var shuffled := ShuffleWithSeed(realWords, randomSeed);
    var realSet := set w | w in realWords;
    var available := FilterWords(allWords, realSet, realWords);
    var shuffledDecoys := ShuffleWithSeed(available, randomSeed + 1);
    var needed := gridSize - |realWords|;
    var decoys := if needed <= |shuffledDecoys| then shuffledDecoys[..needed] else shuffledDecoys;
    var words := shuffled + decoys;
    if |words| != gridSize { return Err(WordlistTooSmall); }
    var queues := PositionMap(words);
    assert QueuesOk(queues, words, realWords[..0]);
    NeverRunsOut(realWords, randomSeed, decoys);
    var correctIndices := TakeCells(realWords, queues, words);
    return Ok(Grid(words, correctIndices));
  }

  /** The queue of w holds its positions that the words taken so far have not used. */
  ghost predicate Remaining(queue: seq<nat>, words: seq<string>, taken: seq<string>, w: string) {
    Count(taken, w) <= Count(words, w) && queue == Positions(words, w)[Count(taken, w)..]
  }

  lemma RemainingStep(queue: seq<nat>, words: seq<string>, phrase: seq<string>, k: nat, w: string)
    requires k < |phrase| && Remaining(queue, words, phrase[..k], w)
    requires phrase[k] == w ==> queue != []
    ensures Remaining(if phrase[k] == w then queue[1..] else queue, words, phrase[..k + 1], w)
  {
    assert phrase[..k + 1][..k] == phrase[..k];
  }

  ghost predicate QueuesOk(queues: map<string, seq<nat>>, words: seq<string>, taken: seq<string>) {
    && (forall w :: w in queues <==> w in words)
    && (forall w :: w in queues ==> Remaining(queues[w], words, taken, w))
  }

  lemma ShiftKeepsQueues(queues: map<string, seq<nat>>, words: seq<string>, phrase: seq<string>, k: nat)
    requires k < |phrase| && QueuesOk(queues, words, phrase[..k])
    requires phrase[k] in queues && queues[phrase[k]] != []
    ensures QueuesOk(queues[phrase[k] := queues[phrase[k]][1..]], words, phrase[..k + 1])
  {
    var queues' := queues[phrase[k] := queues[phrase[k]][1..]];
    forall w | w in queues' ensures Remaining(queues'[w], words, phrase[..k + 1], w) {
      RemainingStep(queues[w], words, phrase, k, w);
    }
  }

  /** The front of the queue of the next word is its cell, so "word missing from grid" cannot happen. */
  lemma FrontIsCell(queues: map<string, seq<nat>>, words: seq<string>, phrase: seq<string>, k: nat)
    requires k < |phrase| && Covers(words, phrase) && QueuesOk(queues, words, phrase[..k])
    ensures phrase[k] in queues && queues[phrase[k]] != [] && queues[phrase[k]][0] == Cells(words, phrase)[k]
  {
    NoPositions(words, phrase[k]);
    assert Remaining(queues[phrase[k]], words, phrase[..k], phrase[k]);
  }

  /** list.shift() on the queue of the k-th phrase word. */
  method TakeCell(realWords: seq<string>, queues: map<string, seq<nat>>, k: nat, ghost words: seq<string>)
    returns (cell: nat, queues': map<string, seq<nat>>)
    requires k < |realWords| && Covers(words, realWords) && QueuesOk(queues, words, realWords[..k])
    ensures QueuesOk(queues', words, realWords[..k + 1])
    ensures cell == Cells(words, realWords)[k]
  {
    var w := realWords[k];
    FrontIsCell(queues, words, realWords, k);
    ShiftKeepsQueues(queues, words, realWords, k);
    cell := queues[w][0];
    queues' := queues[w := queues[w][1..]];
  }

  /** Takes the cells of the phrase words in turn. */
  method TakeCells(realWords: seq<string>, positions: map<string, seq<nat>>, ghost words: seq<string>)
    returns (correctIndices: seq<nat>)
    requires Covers(words, realWords) && QueuesOk(positions, words, realWords[..0])
    ensures correctIndices == Cells(words, realWords)
  {
    var queues := positions;
    correctIndices := [];
    ghost var expected := Cells(words, realWords);
    for k := 0 to |realWords|
      invariant QueuesOk(queues, words, realWords[..k])
      invariant correctIndices == expected[..k]
    {
      var cell;
      cell, queues := TakeCell(realWords, queues, k, words);
      correctIndices := correctIndices + [cell];
    }
  }
}
