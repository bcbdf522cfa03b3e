/** SLIP-0010 Ed25519 derivation, hardened only: one child, and whole paths. */
module Slip10 {
  import opened Primitives
  import opened Decimals

  const HARDENED_BIT: nat := 0x8000_0000
  const MAX_INDEX: nat := 0xffff_ffff
  const MAX_PLAIN_INDEX: nat := 0x7fff_ffff

  /** Every violation of a contract of this module is a TypeError. */
  datatype Checked<+T> = Fine(value: T) | TypeError

  datatype NodeValue = NodeValue(key: Bytes, chainCode: Bytes)

  predicate WellFormed(n: NodeValue) {
    |n.key| == 32 && |n.chainCode| == 32
  }

  function SplitMac(mac: Bytes): NodeValue
    requires |mac| == 64
  {
    NodeValue(mac[..32], mac[32..])
  }

  /** 0x00 ‖ key ‖ ser32(index). */
  function MacInput(n: NodeValue, index: int): Bytes {
    [Lit(0)] + n.key + U32(index)
  }

  /** CKDpriv: HMAC-SHA512 of that under the chain code. */
  function Child(n: NodeValue, index: int): (c: NodeValue)
    ensures WellFormed(c)
  {
    SplitMac(HmacSha512(n.chainCode, MacInput(n, index)))
  }

  function DeriveHardenedSpec(n: NodeValue, index: int): Checked<NodeValue> {
    if !WellFormed(n) || index < HARDENED_BIT || index > MAX_INDEX then TypeError else Fine(Child(n, index))
  }

  lemma MacKeyInjective(c: Bytes, a: Bytes, d: Bytes, b: Bytes)
    requires |c| == |d| <= 128
    ensures HmacSha512(c, a)[..32] == HmacSha512(d, b)[..32] <==> c == d && a == b
  {
    assert HmacSha512(c, a)[..32][0] == HmacOut(c, a, 0);
    assert HmacSha512(d, b)[..32][0] == HmacOut(d, b, 0);
  }

  lemma MacInputInjective(key: Bytes, ser: Bytes, key': Bytes, ser': Bytes)
    requires |key| == |key'|
    ensures [Lit(0)] + key + ser == [Lit(0)] + key' + ser' <==> key == key' && ser == ser'
  {
    var a, b, n := [Lit(0)] + key + ser, [Lit(0)] + key' + ser', |key| + 1;
    assert a[1..n] == key && a[n..] == ser && b[1..n] == key' && b[n..] == ser';
  }

  /** CKDpriv, byte by byte: the left half of the HMAC output is the key, the right half the chain code. */
  lemma ChildExactly(n: NodeValue, index: int, k: nat)
    requires k < 32
    ensures Child(n, index).key[k] == HmacOut(n.chainCode, [Lit(0)] + n.key + U32(index), k)
    ensures Child(n, index).chainCode[k] == HmacOut(n.chainCode, [Lit(0)] + n.key + U32(index), 32 + k)
  {
  }

  /** A child is derived exactly from a 32-byte key and chain code under a hardened 32-bit index. */
  lemma DeriveHardenedExactly(n: NodeValue, index: int)
    ensures var r := DeriveHardenedSpec(n, index);
            && (r.Fine? <==> |n.key| == |n.chainCode| == 32 && 0x8000_0000 <= index <= 0xffff_ffff)
            && (r.Fine? ==> r.value.key + r.value.chainCode
                            == HmacSha512(n.chainCode, [Lit(0)] + n.key + U32(index)))
  {
  }

  /** A child's key alone determines the parent and the index. */
  lemma ChildInjective(n: NodeValue, i: int, m: NodeValue, j: int)
    requires WellFormed(n) && WellFormed(m) && 0 <= i <= MAX_INDEX && 0 <= j <= MAX_INDEX
    ensures Child(n, i).key == Child(m, j).key <==> n == m && i == j
  {
    var s, t := U32(i), U32(j);
    MacKeyInjective(n.chainCode, [Lit(0)] + n.key + s, m.chainCode, [Lit(0)] + m.key + t);
    MacInputInjective(n.key, s, m.key, t);
    U32Injective(i, j);
  }

  // ----- The path grammar -----

  predicate IsMarker(c: char) {
    c == '\'' || c == 'h' || c == 'H'
  }

  datatype Component = Component(index: nat, marker: char)

  predicate Marked(cs: seq<Component>) {
    forall i :: 0 <= i < |cs| ==> IsMarker(cs[i].marker)
  }

  function Text(c: Component): (s: string)
    ensures |s| >= 2
  {
    Decimal(c.index) + [c.marker]
  }

  function PrintTail(cs: seq<Component>): string {
    if cs == [] then "" else "/" + Text(cs[0]) + PrintTail(cs[1..])
  }

  /** The path a list of components denotes. */
  function Print(cs: seq<Component>): string {
    "m" + PrintTail(cs)
  }

  /** How many digits s starts with. */
  function DigitRun(s: string): (n: nat)
    ensures n <= |s| && AllDigits(s[..n]) && (n < |s| ==> !IsDigit(s[n]))
  {
    if s == "" || !IsDigit(s[0]) then 0
    else
      var n := 1 + DigitRun(s[1..]);
      assert forall i :: 1 <= i < n ==> s[i] == s[1..][..n - 1][i - 1];
      n
  }

  /** (\/(0|[1-9][0-9]*)(['hH]))*$ */
  predicate MatchesTail(s: string)
    decreases |s|
  {
    s == "" ||
    (s[0] == '/' &&
     var n := DigitRun(s[1..]);
     && n > 0 && (s[1] == '0' ==> n == 1)
     && n + 1 < |s| && IsMarker(s[n + 1])
     && MatchesTail(s[n + 2..]))
  }

  /** /^m(\/(0|[1-9][0-9]*)(['hH]))*$/ */
  predicate Matches(path: string) {
    path != "" && path[0] == 'm' && MatchesTail(path[1..])
  }

  /** The components of a matching tail. */
  function ParseTail(s: string): (cs: seq<Component>)
    requires MatchesTail(s)
    decreases |s|
  {
    if s == "" then []
    else
      var n := DigitRun(s[1..]);
      assert s[1..n + 1] == s[1..][..n];
      [Component(ParseDecimal(s[1..n + 1]), s[n + 1])] + ParseTail(s[n + 2..])
  }

  lemma TailPieces(s: string, n: nat)
    requires n + 1 < |s| && s[0] == '/'
    ensures s == "/" + (s[1..n + 1] + [s[n + 1]]) + s[n + 2..]
  {
  }

  lemma {:induction false} ParsedTailPrints(s: string)
    requires MatchesTail(s)
    ensures Marked(ParseTail(s)) && PrintTail(ParseTail(s)) == s
    decreases |s|
  {
    if s != "" {
      var n := DigitRun(s[1..]);
      var digits, rest := s[1..n + 1], s[n + 2..];
      assert digits == s[1..][..n];
      CanonicalNumeral(digits);
      ParsedTailPrints(rest);
      TailPieces(s, n);
      PrintCons(Component(ParseDecimal(digits), s[n + 1]), ParseTail(rest));
    }
  }

  lemma PrintCons(c: Component, cs: seq<Component>)
    ensures PrintTail([c] + cs) == "/" + Text(c) + PrintTail(cs)
  {
    assert ([c] + cs)[1..] == cs;
  }

  lemma {:induction false} DigitRunOf(digits: string, rest: string)
    requires AllDigits(digits) && (rest != "" ==> !IsDigit(rest[0]))
    ensures DigitRun(digits + rest) == |digits|
  {
    if digits == "" {
      assert digits + rest == rest;
    } else {
      DigitRunOf(digits[1..], rest);
      assert (digits + rest)[1..] == digits[1..] + rest;
    }
  }

  /** Reading one component off the front of a tail. */
  lemma FirstComponent(digits: string, marker: char, rest: string)
    requires digits != "" && AllDigits(digits) && IsMarker(marker)
    ensures var s, n := "/" + (digits + [marker]) + rest, |digits|;
            && DigitRun(s[1..]) == n && s[0] == '/' && n + 1 < |s|
            && s[1] == digits[0] && s[1..n + 1] == digits && s[n + 1] == marker && s[n + 2..] == rest
  {
    var s := "/" + (digits + [marker]) + rest;
    DigitRunOf(digits, [marker] + rest);
    assert s[1..] == digits + ([marker] + rest);
  }

  lemma {:induction false} PrintedTailParses(cs: seq<Component>)
    requires Marked(cs)
    ensures MatchesTail(PrintTail(cs)) && ParseTail(PrintTail(cs)) == cs
  {
    if cs != [] {
      var c, rest := cs[0], PrintTail(cs[1..]);
      PrintedTailParses(cs[1..]);
      FirstComponent(Decimal(c.index), c.marker, rest);
      NoLeadingZero(c.index);
      ParsePrinted(c.index);
    }
  }

  /** The grammar accepts exactly the printed paths, and each in one way only. */
  lemma GrammarIsPrinting(path: string, cs: seq<Component>)
    ensures Matches(path) ==> Marked(ParseTail(path[1..])) && Print(ParseTail(path[1..])) == path
    ensures Marked(cs) && path == Print(cs) <==> Matches(path) && ParseTail(path[1..]) == cs
  {
    if Matches(path) {
      ParsedTailPrints(path[1..]);
      assert path == "m" + path[1..];
    }
    if Marked(cs) && path == Print(cs) {
      PrintedTailParses(cs);
      assert path[1..] == PrintTail(cs);
    }
  }

  // ----- Splitting at slashes, as the code reads a path -----

  function Split(s: string): (parts: seq<string>)
    ensures |parts| >= 1
  {
    if s == "" then [""]
    else
      var rest := Split(s[1..]);
      if s[0] == '/' then [""] + rest else [[s[0]] + rest[0]] + rest[1..]
  }

  lemma {:induction false} SplitSegment(a: string, s: string)
    requires '/' !in a
    ensures Split(a) == [a]
    ensures Split(a + "/" + s) == [a] + Split(s)
  {
    if a == "" {
      assert a + "/" + s == "/" + s && ("/" + s)[1..] == s;
    } else {
      SplitSegment(a[1..], s);
      var t := a + "/" + s;
      assert t[1..] == a[1..] + "/" + s;
      assert a == [a[0]] + a[1..];
    }
  }

  function Texts(cs: seq<Component>): (t: seq<string>)
    ensures |t| == |cs|
  {
    seq(|cs|, i requires 0 <= i < |cs| => Text(cs[i]))
  }

  lemma {:induction false} SplitPrinted(cs: seq<Component>)
    requires cs != [] && Marked(cs)
    ensures PrintTail(cs) != "" && PrintTail(cs)[0] == '/' && Split(PrintTail(cs)[1..]) == Texts(cs)
  {
    var a, rest := Text(cs[0]), PrintTail(cs[1..]);
    assert '/' !in a;
    AfterSlash(a, rest);
    if |cs| == 1 {
      assert a + rest == a;
      SplitSegment(a, "");
    } else {
      SplitPrinted(cs[1..]);
      assert a + rest == a + "/" + rest[1..];
      SplitSegment(a, rest[1..]);
      assert Texts(cs) == [a] + Texts(cs[1..]);
    }
  }

  lemma AfterSlash(a: string, rest: string)
    ensures ("/" + a + rest)[1..] == a + rest
  {
  }

  // ----- Derivation along a path -----

  function Indices(cs: seq<Component>): (r: seq<nat>)
    ensures |r| == |cs|
  {
    seq(|cs|, i requires 0 <= i < |cs| => cs[i].index)
  }

  predicate InRange(indices: seq<nat>) {
    forall i :: 0 <= i < |indices| ==> indices[i] <= MAX_PLAIN_INDEX
  }

  /** The left fold of hardened derivation. */
  function Fold(n: NodeValue, indices: seq<nat>): NodeValue {
    if indices == [] then n
    else Child(Fold(n, indices[..|indices| - 1]), indices[|indices| - 1] + HARDENED_BIT)
  }

  lemma {:induction false} FoldWellFormed(n: NodeValue, indices: seq<nat>)
    requires WellFormed(n)
    ensures WellFormed(Fold(n, indices))
  {
  }

  /** What derivePath returns: the fold, for a well-formed node and a grammatical path in range. */
  function DerivePathSpec(n: NodeValue, path: string): Checked<NodeValue> {
    if !WellFormed(n) || !Matches(path) || !InRange(Indices(ParseTail(path[1..]))) then TypeError
    else Fine(Fold(n, Indices(ParseTail(path[1..]))))
  }

  /** Accepts exactly the printed paths with components up to 2^31 − 1, and is the fold over their indices. */
  lemma DerivePathExactly(n: NodeValue, path: string)
    requires WellFormed(n)
    ensures forall cs :: Marked(cs) && path == Print(cs) ==>
              DerivePathSpec(n, path) == if InRange(Indices(cs)) then Fine(Fold(n, Indices(cs))) else TypeError
    ensures DerivePathSpec(n, path).Fine? ==> exists cs :: Marked(cs) && path == Print(cs)
  {
    forall cs | Marked(cs) && path == Print(cs)
      ensures DerivePathSpec(n, path) == if InRange(Indices(cs)) then Fine(Fold(n, Indices(cs))) else TypeError
    {
      GrammarIsPrinting(path, cs);
    }
    GrammarIsPrinting(path, []);
  }

  lemma {:induction false} FoldConcat(n: NodeValue, a: seq<nat>, b: seq<nat>)
    ensures Fold(n, a + b) == Fold(Fold(n, a), b)
  {
    if b == [] {
      assert a + b == a;
    } else {
      FoldConcat(n, a, b[..|b| - 1]);
      assert (a + b)[..|a + b| - 1] == a + b[..|b| - 1];
    }
  }

  lemma Associates(a: string, b: string, c: string)
    ensures a + (b + c) == a + b + c
  {
  }

  lemma {:induction false} PrintConcat(a: seq<Component>, b: seq<Component>)
    ensures PrintTail(a + b) == PrintTail(a) + PrintTail(b)
  {
    if a == [] {
      assert a + b == b;
    } else {
      PrintConcat(a[1..], b);
      assert a + b == [a[0]] + (a[1..] + b);
      PrintCons(a[0], a[1..] + b);
      PrintCons(a[0], a[1..]);
      assert a == [a[0]] + a[1..];
      Associates("/" + Text(a[0]), PrintTail(a[1..]), PrintTail(b));
    }
  }

  lemma IndicesConcat(a: seq<Component>, b: seq<Component>)
    ensures Indices(a + b) == Indices(a) + Indices(b)
    ensures InRange(Indices(a + b)) <==> InRange(Indices(a)) && InRange(Indices(b))
  {
    assert Indices(a + b) == Indices(a) + Indices(b);
    assert forall i :: 0 <= i < |a| ==> Indices(a + b)[i] == Indices(a)[i];
    assert forall i :: 0 <= i < |b| ==> Indices(a + b)[|a| + i] == Indices(b)[i];
  }

  lemma TailConcat(s: string, t: string)
    requires MatchesTail(s) && MatchesTail(t)
    ensures MatchesTail(s + t) && ParseTail(s + t) == ParseTail(s) + ParseTail(t)
  {
    var a, b := ParseTail(s), ParseTail(t);
    ParsedTailPrints(s);
    ParsedTailPrints(t);
    PrintConcat(a, b);
    assert Marked(a + b);
    assert PrintTail(a + b) == s + t;
    PrintedTailParses(a + b);
  }

  /** Writing p and then q without its leading m gives the path of both component lists. */
  lemma PathConcat(p: string, q: string)
    requires Matches(p) && Matches(q)
    ensures Matches(p + q[1..])
    ensures ParseTail((p + q[1..])[1..]) == ParseTail(p[1..]) + ParseTail(q[1..])
  {
    TailConcat(p[1..], q[1..]);
    AfterFirst(p, q[1..]);
  }

  lemma AfterFirst(p: string, t: string)
    requires p != ""
    ensures (p + t)[0] == p[0] && (p + t)[1..] == p[1..] + t
  {
  }

  /** Neither the digits nor the marker of the first component can be the start of a later one. */
  lemma NoSlashInComponent(u: string, n: nat, k: nat)
    requires u != "" && n == DigitRun(u[1..]) && n + 1 < |u| && IsMarker(u[n + 1])
    requires 0 < k <= |u| && (k < |u| ==> u[k] == '/')
    ensures k > n + 1
  {
    assert forall i :: 0 < i <= n ==> u[i] == u[1..][..n][i - 1];
  }

  /** The first component of s + t lies in s. */
  lemma ComponentFits(s: string, t: string, n: nat)
    requires s != "" && (t != "" ==> t[0] == '/')
    requires n == DigitRun((s + t)[1..]) && n + 1 < |s + t| && IsMarker((s + t)[n + 1])
    ensures n + 1 < |s| && DigitRun(s[1..]) == n
    ensures s[0] == (s + t)[0] && (n > 0 ==> s[1] == (s + t)[1]) && s[n + 1] == (s + t)[n + 1]
    ensures (s + t)[n + 2..] == s[n + 2..] + t
  {
    var digits := (s + t)[1..][..n];
    NoSlashInComponent(s + t, n, |s|);
    assert s[1..] == digits + s[n + 1..];
    DigitRunOf(digits, s[n + 1..]);
  }

  /** What stands before a tail and matches together with it is a tail itself. */
  lemma {:induction false} TailBefore(s: string, t: string)
    requires MatchesTail(s + t) && MatchesTail(t)
    ensures MatchesTail(s)
    decreases |s|
  {
    if s != "" {
      var u := s + t;
      var n := DigitRun(u[1..]);
      ComponentFits(s, t, n);
      TailBefore(s[n + 2..], t);
    }
  }

  /** Deriving along p and then along q is deriving along their concatenation, errors included. */
  lemma DerivePathComposes(n: NodeValue, p: string, q: string)
    requires Matches(q)
    ensures DerivePathSpec(n, p + q[1..])
         == match DerivePathSpec(n, p)
            case TypeError => TypeError
            case Fine(v) => DerivePathSpec(v, q)
  {
    if Matches(p) {
      var a, b := ParseTail(p[1..]), ParseTail(q[1..]);
      PathConcat(p, q);
      IndicesConcat(a, b);
      FoldConcat(n, Indices(a), Indices(b));
      if WellFormed(n) {
        FoldWellFormed(n, Indices(a));
      }
    } else if p != "" {
      AfterFirst(p, q[1..]);
      if Matches(p + q[1..]) {
        TailBefore(p[1..], q[1..]);
      }
    }
  }

  /** The three hardening markers mean the same. */
  lemma MarkersAlike(n: NodeValue, cs: seq<Component>, ds: seq<Component>)
    requires Marked(cs) && Marked(ds) && Indices(cs) == Indices(ds)
    ensures DerivePathSpec(n, Print(cs)) == DerivePathSpec(n, Print(ds))
  {
    GrammarIsPrinting(Print(cs), cs);
    GrammarIsPrinting(Print(ds), ds);
  }

  lemma SameSnoc(a: seq<nat>, b: seq<nat>, k: nat)
    requires |a| == |b| == k + 1
    ensures a == b <==> a[..k] == b[..k] && a[k] == b[k]
  {
    assert a == a[..k] + [a[k]] && b == b[..k] + [b[k]];
  }

  /** Different paths of one length lead to different nodes. */
  lemma {:induction false} FoldInjective(n: NodeValue, a: seq<nat>, m: NodeValue, b: seq<nat>)
    requires WellFormed(n) && WellFormed(m) && |a| == |b| && InRange(a) && InRange(b)
    ensures Fold(n, a) == Fold(m, b) <==> n == m && a == b
  {
    if a != [] {
      var k := |a| - 1;
      var p, q := Fold(n, a[..k]), Fold(m, b[..k]);
      FoldInjective(n, a[..k], m, b[..k]);
      FoldWellFormed(n, a[..k]);
      FoldWellFormed(m, b[..k]);
      SameSnoc(a, b, k);
      ChildInjective(p, a[k] + HARDENED_BIT, q, b[k] + HARDENED_BIT);
      assert Fold(n, a) == Child(p, a[k] + HARDENED_BIT) && Fold(m, b) == Child(q, b[k] + HARDENED_BIT);
    }
  }

  // ----- What a derivation leaves in memory -----

  /** What one step leaves behind once its child is derived. */
  function Made(parent: NodeValue, index: nat): set<Bytes> {
    {parent.key, parent.chainCode, MacInput(parent, index + HARDENED_BIT)}
  }

  /** The key material above the derived node: every node passed on the way, and each HMAC input. */
  function Traces(n: NodeValue, indices: seq<nat>): set<Bytes> {
    if indices == [] then {}
    else
      var front := indices[..|indices| - 1];
      var parent := Fold(n, front);
      Traces(n, front) + Made(parent, indices[|indices| - 1])
  }

  lemma {:induction false} TracesGrow(n: NodeValue, indices: seq<nat>, k: nat)
    requires k <= |indices|
    ensures Traces(n, indices[..k]) <= Traces(n, indices)
  {
    if k == |indices| {
      assert indices[..k] == indices;
    } else {
      var front := indices[..|indices| - 1];
      TracesGrow(n, front, k);
      assert front[..k] == indices[..k];
    }
  }

  /** How deeply HMAC outputs are nested. */
  function Depth(b: Byte): nat {
    match b
    case HmacOut(key, data, _) => 1 + Max(MaxDepth(key), MaxDepth(data))
    case _ => 0
  }

  function MaxDepth(s: Bytes): nat {
    if s == [] then 0 else Max(Depth(s[|s| - 1]), MaxDepth(s[..|s| - 1]))
  }

  function Max(a: nat, b: nat): nat {
    if a >= b then a else b
  }

  lemma {:induction false} MaxDepthConcat(s: Bytes, t: Bytes)
    ensures MaxDepth(s + t) == Max(MaxDepth(s), MaxDepth(t))
  {
    if t == [] {
      assert s + t == s;
    } else {
      MaxDepthConcat(s, t[..|t| - 1]);
      assert (s + t)[..|s + t| - 1] == s + t[..|t| - 1];
    }
  }

  lemma {:induction false} AllOfDepth(s: Bytes, d: nat)
    requires s != [] && forall i :: 0 <= i < |s| ==> Depth(s[i]) == d
    ensures MaxDepth(s) == d
  {
    if |s| > 1 {
      AllOfDepth(s[..|s| - 1], d);
    }
  }

  function NodeDepth(n: NodeValue): nat {
    Max(MaxDepth(n.key), MaxDepth(n.chainCode))
  }

  lemma ChildDepth(n: NodeValue, index: int)
    ensures MaxDepth(MacInput(n, index)) == MaxDepth(n.key)
    ensures MaxDepth(Child(n, index).key) == MaxDepth(Child(n, index).chainCode) == NodeDepth(n) + 1
  {
    AllOfDepth([Lit(0)], 0);
    AllOfDepth(U32(index), 0);
    MaxDepthConcat([Lit(0)], n.key);
    MaxDepthConcat([Lit(0)] + n.key, U32(index));
    AllOfDepth(Child(n, index).key, NodeDepth(n) + 1);
    AllOfDepth(Child(n, index).chainCode, NodeDepth(n) + 1);
  }

  lemma {:induction false} FoldDepth(n: NodeValue, indices: seq<nat>)
    ensures NodeDepth(Fold(n, indices)) == NodeDepth(n) + |indices|
    ensures forall b :: b in Traces(n, indices) ==> MaxDepth(b) < NodeDepth(n) + |indices|
  {
    if indices != [] {
      var front := indices[..|indices| - 1];
      FoldDepth(n, front);
      ChildDepth(Fold(n, front), indices[|indices| - 1] + HARDENED_BIT);
    }
  }

  /** The derived key and chain code are not among the traces. */
  lemma DerivedNotTraced(n: NodeValue, indices: seq<nat>)
    requires indices != []
    ensures Fold(n, indices).key !in Traces(n, indices) && Fold(n, indices).chainCode !in Traces(n, indices)
    ensures Fold(n, indices).key != Fold(n, indices).chainCode
    ensures !IsZero(Fold(n, indices).key) && !IsZero(Fold(n, indices).chainCode)
  {
    var front := indices[..|indices| - 1];
    var parent, index := Fold(n, front), indices[|indices| - 1] + HARDENED_BIT;
    FoldDepth(n, indices);
    FoldDepth(n, front);
    ChildDepth(parent, index);
    assert Child(parent, index).key[0] == HmacOut(parent.chainCode, MacInput(parent, index), 0);
    assert Child(parent, index).chainCode[0] == HmacOut(parent.chainCode, MacInput(parent, index), 32);
  }

  /** The bytes of "ed25519 seed". */
  const CURVE_KEY: Bytes :=
    [Lit(101), Lit(100), Lit(50), Lit(53), Lit(53), Lit(49), Lit(57), Lit(32), Lit(115), Lit(101), Lit(101), Lit(100)]

  /** The public contract narrows the seed to exactly 64 bytes. */
  function MasterSpec(seed: Bytes): Checked<NodeValue> {
    if |seed| != 64 then TypeError else Fine(SplitMac(HmacSha512(CURVE_KEY, seed)))
  }

  /** There is a master node exactly for a seed of 64 bytes, and its key alone determines the seed. */
  lemma MasterExactly(seed: Bytes, seed': Bytes)
    ensures MasterSpec(seed).Fine? <==> |seed| == 64
    ensures |seed| == |seed'| == 64 ==>
              && (MasterSpec(seed).value.key == MasterSpec(seed').value.key <==> seed == seed')
              && MasterSpec(seed).value.key + MasterSpec(seed).value.chainCode == HmacSha512(CURVE_KEY, seed)
  {
    if |seed| == |seed'| == 64 {
      MacKeyInjective(CURVE_KEY, seed, CURVE_KEY, seed');
    }
  }

  // ----- On buffers -----

  datatype Node = Node(key: array<Byte>, chainCode: array<Byte>)

  function ValueOf(n: Node): NodeValue
    reads n.key, n.chainCode
  {
    NodeValue(n.key[..], n.chainCode[..])
  }

  /**
   Fills the 37-byte HMAC input and splits the output into new buffers; the node is
   only read, the input stays behind.
   */
  method DeriveHardened(node: Node, index: int) returns (r: Checked<Node>)
    ensures match DeriveHardenedSpec(ValueOf(node), index)
            case TypeError => r == TypeError
            case Fine(v) => r.Fine? && fresh(r.value.key) && fresh(r.value.chainCode) && ValueOf(r.value) == v
    ensures r.Fine? ==> r.value.key != r.value.chainCode
    ensures forall b: array<Byte> {:trigger b[..]} :: fresh(b) ==>
              || b[..] == MacInput(ValueOf(node), index)
              || (r.Fine? && (b == r.value.key || b == r.value.chainCode))
  {
    if node.key.Length != 32 || node.chainCode.Length != 32 { return TypeError; }
    if index < HARDENED_BIT || index > MAX_INDEX { return TypeError; }
    var data := new Byte[37](_ => Lit(0));
    forall i | 0 <= i < 32 { data[i + 1] := node.key[i]; }
    var ser := U32(index);
    forall i | 0 <= i < 4 { data[i + 33] := ser[i]; }
    assert data[..] == MacInput(ValueOf(node), index);
    var mac := HmacSha512(node.chainCode[..], data[..]);
    var key := Alloc(mac[..32]);
    var chainCode := Alloc(mac[32..]);
    return Fine(Node(key, chainCode));
  }

  method MasterKeyFromSeed(seed: array<Byte>) returns (r: Checked<Node>)
    ensures match MasterSpec(seed[..])
            case TypeError => r == TypeError
            case Fine(v) => r.Fine? && fresh(r.value.key) && fresh(r.value.chainCode)
                            && ValueOf(r.value) == v && WellFormed(v)
    ensures r.Fine? ==> r.value.key != r.value.chainCode
  {
    if seed.Length != 64 { return TypeError; }
    var mac := HmacSha512(CURVE_KEY, seed[..]);
    var key := Alloc(mac[..32]);
    var chainCode := Alloc(mac[32..]);
    return Fine(Node(key, chainCode));
  }

  lemma ComponentReads(c: Component)
    ensures var t := Text(c); AllDigits(t[..|t| - 1]) && ParseDecimal(t[..|t| - 1]) == c.index
  {
    assert Text(c)[..|Text(c)| - 1] == Decimal(c.index);
    ParsePrinted(c.index);
  }

  /** One turn of the loop over the components of a path. */
  method DeriveComponent(current: Node, component: string, ghost c: Component) returns (r: Checked<Node>)
    requires WellFormed(ValueOf(current)) && IsMarker(c.marker) && component == Text(c)
    ensures if c.index > MAX_PLAIN_INDEX then r == TypeError
            else r.Fine? && fresh(r.value.key) && fresh(r.value.chainCode) && r.value.key != r.value.chainCode
                 && ValueOf(r.value) == Child(ValueOf(current), c.index + HARDENED_BIT)
    ensures forall b: array<Byte> {:trigger b[..]} :: fresh(b) ==>
              || b[..] == MacInput(ValueOf(current), c.index + HARDENED_BIT)
              || (r.Fine? && (b == r.value.key || b == r.value.chainCode))
  {
    ComponentReads(c);
    var marker := component[|component| - 1];
    var plain := ParseDecimal(component[..|component| - 1]);
    if !IsMarker(marker) || plain > MAX_PLAIN_INDEX { return TypeError; }
    r := DeriveHardened(current, plain + HARDENED_BIT);
  }

  lemma FoldStep(n: NodeValue, cs: seq<Component>, k: nat)
    requires k < |cs|
    ensures Fold(n, Indices(cs)[..k + 1]) == Child(Fold(n, Indices(cs)[..k]), cs[k].index + HARDENED_BIT)
    ensures InRange(Indices(cs)[..k + 1]) <==> InRange(Indices(cs)[..k]) && cs[k].index <= MAX_PLAIN_INDEX
    ensures InRange(Indices(cs)) ==> InRange(Indices(cs)[..k + 1])
  {
    var a := Indices(cs)[..k + 1];
    assert a[..k] == Indices(cs)[..k] && a[k] == cs[k].index;
  }

  /** The node after k components, and what was made on the way to it. */
  ghost predicate Reached(n: NodeValue, cs: seq<Component>, k: nat, value: NodeValue, traces: set<Bytes>) {
    && k <= |cs| && WellFormed(value) && InRange(Indices(cs)[..k])
    && value == Fold(n, Indices(cs)[..k]) && traces == Traces(n, Indices(cs)[..k])
  }

  lemma ReachedStep(n: NodeValue, cs: seq<Component>, k: nat, value: NodeValue, traces: set<Bytes>)
    requires k < |cs| && Reached(n, cs, k, value, traces)
    ensures traces + Made(value, cs[k].index) <= Traces(n, Indices(cs))
    ensures if cs[k].index > MAX_PLAIN_INDEX then !InRange(Indices(cs))
            else Reached(n, cs, k + 1, Child(value, cs[k].index + HARDENED_BIT), traces + Made(value, cs[k].index))
  {
    FoldStep(n, cs, k);
    TracesStep(n, Indices(cs), k);
    TracesGrow(n, Indices(cs), k + 1);
  }

  /** One turn of the loop, seen from the start of the path. */
  method Advance(current: Node, component: string, ghost n: NodeValue, ghost cs: seq<Component>, ghost k: nat,
                 ghost traces: set<Bytes>)
    returns (r: Checked<Node>)
    requires k < |cs| && Marked(cs) && component == Text(cs[k]) && Reached(n, cs, k, ValueOf(current), traces)
    ensures r.TypeError? ==> !InRange(Indices(cs))
    ensures r.Fine? ==> fresh(r.value.key) && fresh(r.value.chainCode) && r.value.key != r.value.chainCode
                        && Reached(n, cs, k + 1, ValueOf(r.value), traces + Made(ValueOf(current), cs[k].index))
    ensures traces + Made(ValueOf(current), cs[k].index) <= Traces(n, Indices(cs))
    ensures forall b: array<Byte> {:trigger b[..]} :: fresh(b) ==>
              || b[..] in Made(ValueOf(current), cs[k].index)
              || (r.Fine? && (b == r.value.key || b == r.value.chainCode))
  {
    ReachedStep(n, cs, k, ValueOf(current), traces);
    r := DeriveComponent(current, component, cs[k]);
  }

  /** The loop: one hardened child per component. */
  method DeriveComponents(start: Node, components: seq<string>, ghost cs: seq<Component>) returns (r: Checked<Node>)
    requires WellFormed(ValueOf(start)) && start.key != start.chainCode
    requires Marked(cs) && components == Texts(cs) && cs != []
    ensures if !InRange(Indices(cs)) then r == TypeError
            else r.Fine? && fresh(r.value.key) && fresh(r.value.chainCode) && r.value.key != r.value.chainCode
                 && ValueOf(r.value) == Fold(ValueOf(start), Indices(cs))
    ensures forall b: array<Byte> {:trigger b[..]} :: fresh(b) ==>
              || b[..] in Traces(ValueOf(start), Indices(cs))
              || (r.Fine? && (b == r.value.key || b == r.value.chainCode))
  {
    var current := start;
    ghost var n, indices := ValueOf(start), Indices(cs);
    ghost var value, traces := n, {};
    for k := 0 to |components|
      invariant k > 0 ==> fresh(current.key) && fresh(current.chainCode)
      invariant current.key != current.chainCode && ValueOf(current) == value
      invariant Reached(n, cs, k, value, traces)
      invariant forall b: array<Byte> {:trigger b[..]} :: fresh(b) ==>
                  b == current.key || b == current.chainCode || b[..] in traces
    {
      var next := Advance(current, components[k], n, cs, k, traces);
      traces := traces + Made(value, cs[k].index);
      if next.TypeError? { return TypeError; }
      current, value := next.value, ValueOf(next.value);
    }
    assert indices[..|components|] == indices;
    return Fine(current);
  }

  lemma TracesStep(n: NodeValue, indices: seq<nat>, k: nat)
    requires k < |indices|
    ensures var parent := Fold(n, indices[..k]);
            Traces(n, indices[..k + 1]) == Traces(n, indices[..k]) + Made(parent, indices[k])
  {
    assert indices[..k + 1][..k] == indices[..k];
  }

  lemma CopiesTraced(n: NodeValue, indices: seq<nat>)
    requires indices != []
    ensures n.key in Traces(n, indices) && n.chainCode in Traces(n, indices)
  {
    assert indices[..1][..0] == [];
    TracesGrow(n, indices, 1);
  }

  /** Regex, then split at slashes, then one hardened child per component; the result has fresh buffers. */
  method DerivePath(node: Node, path: string) returns (r: Checked<Node>)
    ensures match DerivePathSpec(ValueOf(node), path)
            case TypeError => r == TypeError
            case Fine(v) => r.Fine? && fresh(r.value.key) && fresh(r.value.chainCode) && ValueOf(r.value) == v
    ensures r.Fine? ==> r.value.key != r.value.chainCode
    ensures forall b: array<Byte> {:trigger b[..]} :: fresh(b) ==>
              || (Matches(path) && b[..] in Traces(ValueOf(node), Indices(ParseTail(path[1..]))))
              || (r.Fine? && (b == r.value.key || b == r.value.chainCode))
  {
    if node.key.Length != 32 || node.chainCode.Length != 32 { return TypeError; }
    if !Matches(path) { return TypeError; }
    ghost var cs := ParseTail(path[1..]);
    ParsedTailPrints(path[1..]);
    var key := Alloc(node.key[..]);
    var chainCode := Alloc(node.chainCode[..]);
    var current := Node(key, chainCode);
    var rest := if |path| >= 2 then path[2..] else "";
    if rest == "" {
      RestOf(path);
      return Fine(current);
    }
    SplitPrinted(cs);
    assert rest == path[1..][1..];
    CopiesTraced(ValueOf(current), Indices(cs));
    r := DeriveComponents(current, Split(rest), cs);
  }

  /** A grammatical path is never just "m/": nothing after it means the bare path. */
  lemma RestOf(path: string)
    requires Matches(path) && |path| <= 2
    ensures ParseTail(path[1..]) == []
  {
  }
}
