/** Random passwords: two characters of every class, a random rest, and a Fisher–Yates shuffle. */
module Password {
  import opened Basics
  import opened CharacterClasses
  import opened RandomInt
  import opened FisherYates
  import opened Draws

  /** The classes of the eight guaranteed characters, in the order they are drawn. */
  const GUARANTEED: seq<Class> := [Lower, Upper, Digit, Special, Lower, Upper, Digit, Special]

  /** How many characters of s are among the given ones. */
  function Count(s: string, among: string): nat {
    if s == [] then 0 else Count(s[..|s| - 1], among) + (if s[|s| - 1] in among then 1 else 0)
  }

  lemma {:induction false} CountConcat(s: string, t: string, c: string)
    ensures Count(s + t, c) == Count(s, c) + Count(t, c)
  {
    if t == [] {
      assert s + t == s;
    } else {
      CountConcat(s, t[..|t| - 1], c);
      assert (s + t)[..|s + t| - 1] == s + t[..|t| - 1];
    }
  }

  lemma {:induction false} CountPermuted(s: string, t: string, c: string)
    requires multiset(s) == multiset(t)
    ensures Count(s, c) == Count(t, c)
    decreases |s|
  {
    if s == [] {
      assert |multiset(t)| == 0;
    } else {
      var k := LastChoice(t, s);
      var u := Swap(t, |t| - 1, k);
      CountPermuted(s[..|s| - 1], u[..|s| - 1], c);
      assert u == u[..|s| - 1] + [s[|s| - 1]];
      CountSwapped(t, |t| - 1, k, c);
    }
  }

  lemma CountSwapped(t: string, i: nat, k: nat, c: string)
    requires k <= i < |t|
    ensures Count(Swap(t, i, k), c) == Count(t, c)
  {
    var u := Swap(t, i, k);
    if k < i {
      var mid, rest := t[k + 1..i], t[i + 1..];
      assert t == t[..k] + [t[k]] + mid + [t[i]] + rest;
      assert u == t[..k] + [t[i]] + mid + [t[k]] + rest;
      CountPieces(t[..k], [t[k]], mid, [t[i]], rest, c);
      CountPieces(t[..k], [t[i]], mid, [t[k]], rest, c);
    } else {
      assert u == t;
    }
  }

  lemma CountPieces(a: string, x: string, b: string, y: string, d: string, c: string)
    ensures Count(a + x + b + y + d, c) == Count(a, c) + Count(x, c) + Count(b, c) + Count(y, c) + Count(d, c)
  {
    CountConcat(a, x, c);
    CountConcat(a + x, b, c);
    CountConcat(a + x + b, y, c);
    CountConcat(a + x + b + y, d, c);
  }

  /** Random words that every draw accepts at once. */
  predicate AlwaysAccepted(words: seq<Word>) {
    forall k :: 0 <= k < |words| ==> words[k] < WORDS / 2
  }

  ghost predicate InClasses(s: string, classes: seq<Class>) {
    |s| == |classes| && forall i :: 0 <= i < |s| ==> s[i] in Chars(classes[i])
  }

  function AlphabetAt(k: nat): (s: string)
    ensures 1 <= |s| < WORDS
  {
    if k < 8 then Chars(GUARANTEED[k]) else Chars(All)
  }

  /** The characters are drawn from these, in order, before the shuffle. */
  function AlphabetsOf(size: nat): (abc: seq<string>)
    requires size >= 8
    ensures |abc| == size
    ensures forall k :: 0 <= k < size ==> abc[k] == AlphabetAt(k)
    ensures Alphabets(abc)
  {
    seq(size, k requires 0 <= k < size => AlphabetAt(k))
  }

  /** What a stream of words leads to: one draw per character, then one per choice of the shuffle. */
  function Generated(size: nat, words: seq<Word>): Option<string>
    requires 8 <= size < WORDS
  {
    var (ds, next) := DrawAll(LimitsOf(AlphabetsOf(size)), words, 0);
    if ds.None? then None else DrawnShuffle(Characters(AlphabetsOf(size), ds.value), words, next)
  }

  method Pick(c: Class, words: seq<Word>, start: nat) returns (r: Option<char>, next: nat)
    requires start <= |words|
    ensures start <= next <= |words|
    ensures var (d, at) := Draw(|Chars(c)|, words, start);
            next == at && r == if d.None? then None else Some(Chars(c)[d.value])
    ensures r.Some? ==> r.value in Chars(c)
    ensures AlwaysAccepted(words) && start < |words| ==> r.Some? && next == start + 1
  {
    var k;
    k, next := RandomIntBelow(|Chars(c)|, words, start);
    r := if k.None? then None else Some(Chars(c)[k.value]);
  }

  /** The eight guaranteed characters, each from its class. */
  method PickGuaranteed(words: seq<Word>, ghost abc: seq<string>) returns (r: Option<string>, next: nat)
    requires |abc| >= 8 && Alphabets(abc) && forall k :: 0 <= k < 8 ==> abc[k] == Chars(GUARANTEED[k])
    ensures next <= |words|
    ensures if r.None? then DrawAll(LimitsOf(abc), words, 0).0.None? else Picked(abc, 8, words, r.value, next)
    ensures r.Some? ==> InClasses(r.value, GUARANTEED)
    ensures AlwaysAccepted(words) && |words| >= 8 ==> r.Some? && next == 8
  {
    var chars := "";
    next := 0;
    for i := 0 to |GUARANTEED|
      invariant |chars| == i && Picked(abc, i, words, chars, next)
      invariant forall k :: 0 <= k < i ==> chars[k] in Chars(GUARANTEED[k])
      invariant AlwaysAccepted(words) && |words| >= 8 ==> next == i
    {
      PickedMore(abc, i, words, chars, next);
      var c;
      c, next := Pick(GUARANTEED[i], words, next);
      if c.None? { return None, next; }
      chars := chars + [c.value];
    }
    return Some(chars), next;
  }

  /** Two occurrences four places apart are enough. */
  lemma CountTwice(s: string, i: nat, among: string)
    requires i + 4 < |s| && s[i] in among && s[i + 4] in among
    ensures Count(s, among) >= 2
  {
    assert s == s[..i] + [s[i]] + s[i + 1..i + 4] + [s[i + 4]] + s[i + 5..];
    CountPieces(s[..i], [s[i]], s[i + 1..i + 4], [s[i + 4]], s[i + 5..], among);
    CountOne(s[i], among);
    CountOne(s[i + 4], among);
  }

  lemma CountOne(x: char, among: string)
    requires x in among
    ensures Count([x], among) == 1
  {
    assert [x][..0] == [];
  }

  /** Where a class stands first among the guaranteed ones; it stands there again four places later. */
  function FirstOf(c: Class): (i: nat)
    requires c != All
    ensures i < 4 && GUARANTEED[i] == c && GUARANTEED[i + 4] == c
  {
    match c case Lower => 0 case Upper => 1 case Digit => 2 case Special => 3
  }

  /** Fisher–Yates with freshly drawn choices: exactly those that the words from start on determine. */
  method ShuffleDrawn(chars: string, words: seq<Word>, start: nat) returns (r: Option<string>, ghost js: seq<nat>)
    requires 0 < |chars| < WORDS && start <= |words|
    ensures r == DrawnShuffle(chars, words, start)
    ensures r.Some? ==> js == Choices(DrawAll(ShuffleLimits(|chars|), words, start).0.value)
    ensures r.Some? ==> ValidChoices(js, |chars|) && r.value == Shuffle(chars, js)
    ensures AlwaysAccepted(words) && |words| >= start + |chars| - 1 ==> r.Some?
  {
    var cur, i, next := chars, |chars| - 1, start;
    ghost var ds: seq<nat> := [];
    js := [];
    DrawingStart(chars, words, start);
    while i > 0
      invariant 0 <= i < |cur| == |chars| && start <= next <= |words|
      invariant Drawing(chars, words, start, cur, i, ds, next)
      invariant AlwaysAccepted(words) && |words| >= start + |chars| - 1 ==> next == start + |chars| - 1 - i
    {
      DrawingStep(chars, words, start, cur, i, ds, next);
      var j;
      j, next := RandomIntBelow(i + 1, words, next);
      if j.None? { return None, []; }
      cur := cur[i := cur[j.value]][j.value := cur[i]];
      ds := ds + [j.value];
      i := i - 1;
    }
    DrawingEnd(chars, words, start, cur, ds, next);
    return Some(cur), Choices(ds);
  }

  /**
   Exactly the password that the words determine. Given enough of them (2·size − 1
   if none is rejected) it has max(length, 8) characters, all from the four
   classes, at least two of each, and is the Fisher–Yates shuffle of a string that
   starts with the guaranteed characters.
   */
  method GenerateSecurePassword(length: nat, words: seq<Word>) returns (r: Option<string>)
    requires length < WORDS
    ensures r == Generated(if length < 8 then 8 else length, words)
    ensures r.Some? ==> |r.value| == if length < 8 then 8 else length
    ensures r.Some? ==> forall k :: 0 <= k < |r.value| ==> r.value[k] in Chars(All)
    ensures r.Some? ==> forall c: Class :: c != All ==> Count(r.value, Chars(c)) >= 2
    ensures r.Some? ==> exists s: string, js: seq<nat> ::
              |s| >= 8 && InClasses(s[..8], GUARANTEED) && ValidChoices(js, |s|) && r.value == Shuffle(s, js)
    ensures AlwaysAccepted(words) && |words| >= 2 * (if length < 8 then 8 else length) - 1 ==> r.Some?
  {
    var size := if length < 8 then 8 else length;
    ghost var abc := AlphabetsOf(size);
    var guaranteed, next := PickGuaranteed(words, abc);
    if guaranteed.None? { return None; }
    var chars := guaranteed.value;
    for i := 8 to size
      invariant |chars| == i && Picked(abc, i, words, chars, next)
      invariant AlwaysAccepted(words) && |words| >= 2 * size - 1 ==> next == i
    {
      PickedMore(abc, i, words, chars, next);
      var c;
      c, next := Pick(All, words, next);
      if c.None? { return None; }
      chars := chars + [c.value];
    }
    assert abc[..size] == abc;
    ghost var js;
    r, js := ShuffleDrawn(chars, words, next);
    if r.Some? {
      GeneratedAcceptable(size, words);
    }
  }

  lemma ShuffleKeepsAlphabet(chars: string, js: seq<nat>, alphabet: string)
    requires ValidChoices(js, |chars|)
    requires forall k :: 0 <= k < |chars| ==> chars[k] in alphabet
    ensures forall k :: 0 <= k < |chars| ==> Shuffle(chars, js)[k] in alphabet
  {
    var t := Shuffle(chars, js);
    ShufflePermutes(chars, js);
    forall k | 0 <= k < |chars| ensures t[k] in alphabet {
      assert t[k] in multiset(t);
      assert t[k] in chars;
    }
  }

  lemma ShuffleKeepsClasses(chars: string, js: seq<nat>)
    requires |chars| >= 8 && InClasses(chars[..8], GUARANTEED) && ValidChoices(js, |chars|)
    ensures forall c: Class :: c != All ==> Count(Shuffle(chars, js), Chars(c)) >= 2
  {
    ShufflePermutes(chars, js);
    forall c: Class | c != All ensures Count(Shuffle(chars, js), Chars(c)) >= 2 {
      var i := FirstOf(c);
      assert chars[i] == chars[..8][i] && chars[i + 4] == chars[..8][i + 4];
      CountTwice(chars, i, Chars(c));
      CountPermuted(chars, Shuffle(chars, js), Chars(c));
    }
  }

  // ----- Which passwords, and how likely -----

  /** The limits of all the draws for one password. */
  function AllLimits(size: nat): (ns: seq<nat>)
    requires 8 <= size < WORDS
    ensures |ns| == 2 * size - 1 && Limits(ns)
  {
    LimitsOf(AlphabetsOf(size)) + ShuffleLimits(size)
  }

  /** The password that the results of the draws stand for. */
  function Assembled(size: nat, ds: seq<nat>): string
    requires 8 <= size < WORDS && Within(ds, AllLimits(size))
  {
    SplitWithin(size, ds);
    ChoicesValid(ds[size..], size);
    Shuffle(Characters(AlphabetsOf(size), ds[..size]), Choices(ds[size..]))
  }

  lemma SplitWithin(size: nat, ds: seq<nat>)
    requires 8 <= size < WORDS && Within(ds, AllLimits(size))
    ensures Within(ds[..size], LimitsOf(AlphabetsOf(size))) && Within(ds[size..], ShuffleLimits(size))
  {
    var ns := AllLimits(size);
    assert forall k :: 0 <= k < size ==> ns[k] == LimitsOf(AlphabetsOf(size))[k];
    assert forall k :: 0 <= k < size - 1 ==> ns[size + k] == ShuffleLimits(size)[k] && ds[size..][k] == ds[size + k];
  }

  /** The generator is one long row of draws, put together. */
  lemma GeneratedIsAssembled(size: nat, words: seq<Word>)
    requires 8 <= size < WORDS
    ensures var ds := DrawAll(AllLimits(size), words, 0).0;
            Generated(size, words) == if ds.None? then None else Some(Assembled(size, ds.value))
  {
    DrawAllConcat(LimitsOf(AlphabetsOf(size)), ShuffleLimits(size), words, 0);
    var (picked, next) := DrawAll(LimitsOf(AlphabetsOf(size)), words, 0);
    if picked.Some? {
      var drawn := DrawAll(ShuffleLimits(size), words, next).0;
      if drawn.Some? {
        var ds := picked.value + drawn.value;
        assert ds[..size] == picked.value && ds[size..] == drawn.value;
      }
    }
  }

  /**
   Every combination of characters and choices comes from equally many vectors of
   accepted words, and those vectors generate what the combination stands for.
   */
  lemma CombinationsUniform(size: nat, ds: seq<nat>)
    requires 8 <= size < WORDS && Within(ds, AllLimits(size))
    ensures |Vectors(AllLimits(size), ds)| == Ways(AllLimits(size))
    ensures forall words :: words in Vectors(AllLimits(size), ds)
              ==> Generated(size, words) == Some(Assembled(size, ds))
  {
    VectorsCount(AllLimits(size), ds);
    forall words | words in Vectors(AllLimits(size), ds)
      ensures Generated(size, words) == Some(Assembled(size, ds))
    {
      VectorsMembers(AllLimits(size), ds, words);
      VectorsExactly(AllLimits(size), ds, words);
      GeneratedIsAssembled(size, words);
    }
  }

  /** The promise of the generator: this many characters of the alphabet, at least two of each class. */
  ghost predicate Acceptable(size: nat, s: string) {
    && |s| == size
    && (forall k :: 0 <= k < |s| ==> s[k] in Chars(All))
    && forall c: Class :: c != All ==> Count(s, Chars(c)) >= 2
  }

  /** How often a class stands among the given ones. */
  function Demand(classes: seq<Class>, c: Class): nat {
    if classes == [] then 0
    else Demand(classes[..|classes| - 1], c) + (if classes[|classes| - 1] == c then 1 else 0)
  }

  lemma {:induction false} DemandIsMultiplicity(classes: seq<Class>, c: Class)
    ensures Demand(classes, c) == multiset(classes)[c]
  {
    if classes != [] {
      DemandIsMultiplicity(classes[..|classes| - 1], c);
      SplitLast(classes);
    }
  }

  predicate Concrete(classes: seq<Class>) {
    forall k :: 0 <= k < |classes| ==> classes[k] != All
  }

  lemma {:induction false} SomeCounted(s: string, among: string) returns (k: nat)
    requires Count(s, among) > 0
    ensures k < |s| && s[k] in among
  {
    if s[|s| - 1] in among {
      k := |s| - 1;
    } else {
      k := SomeCounted(s[..|s| - 1], among);
    }
  }

  lemma CountWithout(s: string, k: nat, among: string)
    requires k < |s|
    ensures Count(s[..k] + s[k + 1..], among) == Count(s, among) - (if s[k] in among then 1 else 0)
  {
    assert s == s[..k] + [s[k]] + s[k + 1..];
    CountConcat(s[..k] + [s[k]], s[k + 1..], among);
    CountConcat(s[..k], [s[k]], among);
    CountConcat(s[..k], s[k + 1..], among);
    assert [s[k]][..0] == [];
  }

  lemma MultisetWithout(s: string, k: nat)
    requires k < |s|
    ensures multiset(s) == multiset(s[..k] + s[k + 1..]) + multiset{s[k]}
  {
    assert s == s[..k] + [s[k]] + s[k + 1..];
  }

  /** s has enough characters for a row of classes whose characters are f. */
  predicate MeetsDemand(s: string, classes: seq<Class>, f: Class -> string) {
    forall c: Class :: c != All ==> Count(s, f(c)) >= Demand(classes, c)
  }

  ghost predicate Disjoint(f: Class -> string) {
    forall x, c, c' :: c != All && c' != All && x in f(c) && x in f(c') ==> c == c'
  }

  /** Taking one character for the last class leaves enough for the others. */
  lemma DemandAfter(s: string, classes: seq<Class>, f: Class -> string, k: nat)
    requires classes != [] && Concrete(classes) && Disjoint(f) && MeetsDemand(s, classes, f)
    requires k < |s| && s[k] in f(classes[|classes| - 1])
    ensures MeetsDemand(s[..k] + s[k + 1..], classes[..|classes| - 1], f)
  {
    forall c: Class | c != All
      ensures Count(s[..k] + s[k + 1..], f(c)) >= Demand(classes[..|classes| - 1], c)
    {
      CountWithout(s, k, f(c));
    }
  }

  ghost predicate StartsIn(t: string, classes: seq<Class>, f: Class -> string) {
    |classes| <= |t| && forall k :: 0 <= k < |classes| ==> t[k] in f(classes[k])
  }

  /** A character of the last class, put behind characters of the others. */
  lemma Inserted(s: string, x: char, classes: seq<Class>, f: Class -> string)
    requires classes != [] && x in f(classes[|classes| - 1]) && StartsIn(s, classes[..|classes| - 1], f)
    ensures var n := |classes| - 1;
            var t := s[..n] + [x] + s[n..];
            multiset(t) == multiset(s) + multiset{x} && StartsIn(t, classes, f)
  {
    var n := |classes| - 1;
    assert s == s[..n] + s[n..];
    assert forall k :: 0 <= k < n ==> s[k] in f(classes[..n][k]);
  }

  lemma DemandedOccurs(s: string, classes: seq<Class>, f: Class -> string) returns (k: nat)
    requires classes != [] && Concrete(classes) && MeetsDemand(s, classes, f)
    ensures k < |s| && s[k] in f(classes[|classes| - 1])
  {
    k := SomeCounted(s, f(classes[|classes| - 1]));
  }

  /** Characters that meet the demand can be put in the order of the demand. */
  lemma {:induction false} Arrange(s: string, classes: seq<Class>, f: Class -> string) returns (t: string)
    requires Concrete(classes) && Disjoint(f) && MeetsDemand(s, classes, f)
    ensures multiset(t) == multiset(s) && StartsIn(t, classes, f)
  {
    if classes == [] {
      t := s;
    } else {
      var n := |classes| - 1;
      var k := DemandedOccurs(s, classes, f);
      var rest := s[..k] + s[k + 1..];
      DemandAfter(s, classes, f, k);
      MultisetWithout(s, k);
      var front := Arrange(rest, classes[..n], f);
      Inserted(front, s[k], classes, f);
      t := front[..n] + [s[k]] + front[n..];
    }
  }

  lemma GuaranteedDemand(c: Class)
    requires c != All
    ensures Demand(GUARANTEED, c) == 2 && Concrete(GUARANTEED)
  {
    DemandIsMultiplicity(GUARANTEED, c);
  }

  /** Residues that stand for the given characters. */
  lemma {:induction false} ResiduesOf(abc: seq<string>, t: string) returns (ds: seq<nat>)
    requires Alphabets(abc) && |t| == |abc| && forall k :: 0 <= k < |t| ==> t[k] in abc[k]
    ensures Within(ds, LimitsOf(abc)) && Characters(abc, ds) == t
  {
    if t == "" {
      ds := [];
    } else {
      var n := |t| - 1;
      var front := ResiduesOf(abc[..n], t[..n]);
      var d: nat :| d < |abc[n]| && abc[n][d] == t[n];
      ds := front + [d];
      assert forall k :: 0 <= k < n ==> ds[k] < LimitsOf(abc[..n])[k] && abc[..n][k][front[k]] == t[..n][k];
    }
  }

  /** Below every limit the number itself is an accepted word with this residue. */
  lemma ResiduesAreWords(ns: seq<nat>, ds: seq<nat>) returns (words: seq<Word>)
    requires Limits(ns) && Within(ds, ns)
    ensures words in Vectors(ns, ds)
  {
    words := seq(|ds|, k requires 0 <= k < |ds| => ds[k] as Word);
    forall k | 0 <= k < |ns| ensures words[k] in AcceptedWith(ns[k], ds[k]) {
      TailIsShort(ns[k]);
      SmallResidue(ds[k], ns[k]);
    }
    VectorsMembers(ns, ds, words);
  }

  lemma SmallResidue(d: nat, n: nat)
    requires d < n
    ensures d % n == d
  {
  }

  /** The characters of an acceptable password in an order in which they could have been drawn. */
  lemma DrawingOrder(size: nat, s: string) returns (t: string)
    requires size >= 8 && Acceptable(size, s)
    ensures |t| == size && multiset(t) == multiset(s) && forall k :: 0 <= k < size ==> t[k] in AlphabetAt(k)
  {
    forall c: Class | c != All ensures Count(s, Chars(c)) >= Demand(GUARANTEED, c) {
      GuaranteedDemand(c);
    }
    forall x, c, c' | c != All && c' != All && x in Chars(c) && x in Chars(c') ensures c == c' {
      ClassesApart(x, c, c');
    }
    GuaranteedDemand(Lower);
    t := Arrange(s, GUARANTEED, Chars);
    assert |t| == |multiset(t)| == |multiset(s)| == |s|;
    forall k | 0 <= k < size ensures t[k] in AlphabetAt(k) {
      if k >= 8 {
        assert t[k] in multiset(t);
        assert t[k] in s;
      }
    }
  }

  /** The words with which the generator makes a given acceptable password. */
  lemma AcceptableIsGenerated(size: nat, s: string) returns (words: seq<Word>)
    requires 8 <= size < WORDS && Acceptable(size, s)
    ensures Generated(size, words) == Some(s)
  {
    var t := DrawingOrder(size, s);
    var picked := ResiduesOf(AlphabetsOf(size), t);
    var js := ShuffleSurjective(t, s);
    var drawn := ChoicesReached(js);
    var ds := picked + drawn;
    assert ds[..size] == picked && ds[size..] == drawn;
    words := ResiduesAreWords(AllLimits(size), ds);
    CombinationsUniform(size, ds);
  }

  /** The passwords that can come out are exactly the acceptable ones. */
  lemma GeneratedExactly(size: nat, s: string)
    requires 8 <= size < WORDS
    ensures (exists words: seq<Word> :: Generated(size, words) == Some(s)) <==> Acceptable(size, s)
  {
    forall words: seq<Word> | Generated(size, words) == Some(s) ensures Acceptable(size, s) {
      GeneratedAcceptable(size, words);
    }
    if Acceptable(size, s) {
      var words := AcceptableIsGenerated(size, s);
    }
  }

  lemma GeneratedAcceptable(size: nat, words: seq<Word>)
    requires 8 <= size < WORDS && Generated(size, words).Some?
    ensures Acceptable(size, Generated(size, words).value)
    ensures exists s: string, js: seq<nat> ::
              |s| >= 8 && InClasses(s[..8], GUARANTEED) && ValidChoices(js, |s|)
              && Generated(size, words).value == Shuffle(s, js)
  {
    var (ds, next) := DrawAll(LimitsOf(AlphabetsOf(size)), words, 0);
    var chars := Characters(AlphabetsOf(size), ds.value);
    forall k | 0 <= k < size ensures chars[k] in Chars(All) {
      if k < 8 {
        ClassInAll(chars[k], GUARANTEED[k]);
      }
    }
    var js := Choices(DrawAll(ShuffleLimits(size), words, next).0.value);
    ChoicesValid(DrawAll(ShuffleLimits(size), words, next).0.value, size);
    ShuffleKeepsAlphabet(chars, js, Chars(All));
    ShuffleKeepsClasses(chars, js);
    assert InClasses(chars[..8], GUARANTEED) && Generated(size, words).value == Shuffle(chars, js);
  }
}
