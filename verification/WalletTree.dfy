/** Solana wallets over one seed: index allocation from used paths, derivation, disposal. */
module WalletTree {
  import opened Basics
  import opened Primitives
  import opened Decimals
  import opened Slip10

  const PREFIX := "m/44'/501'/"
  const SUFFIX := "'/0'"

  function Rendering(digits: string): string {
    PREFIX + digits + SUFFIX
  }

  function PaymentPath(index: nat): string {
    Rendering(Decimal(index))
  }

  /** What the group of ^m\/44'\/501'\/(\d+)'\/0'$ captures. */
  function Capture(path: string): Option<string> {
    if |path| > |PREFIX| + |SUFFIX| && PREFIX <= path && path[|path| - |SUFFIX|..] == SUFFIX
       && AllDigits(path[|PREFIX|..|path| - |SUFFIX|])
    then Some(path[|PREFIX|..|path| - |SUFFIX|])
    else None
  }

  /** The index a used path stands for; None for paths that are ignored. */
  function Recognize(path: string): Option<nat> {
    var digits := Capture(path);
    if digits.Some? && AllDigits(digits.value) && ParseDecimal(digits.value) <= MAX_PLAIN_INDEX
    then Some(ParseDecimal(digits.value))
    else None
  }

  lemma CaptureExactly(path: string, digits: string)
    ensures Capture(path) == Some(digits) <==> digits != "" && AllDigits(digits) && path == Rendering(digits)
  {
    if Capture(path).Some? {
      assert path == Rendering(Capture(path).value);
    }
    var r := Rendering(digits);
    assert r[|PREFIX|..|r| - |SUFFIX|] == digits && r[|r| - |SUFFIX|..] == SUFFIX;
  }

  function Padding(k: nat): (s: string)
    ensures |s| == k && AllDigits(s)
  {
    seq(k, _ => '0')
  }

  /** A string of digits is its value printed behind some zeros. */
  lemma {:induction false} PaddedForm(s: string) returns (k: nat)
    requires s != "" && AllDigits(s)
    ensures s == Padding(k) + Decimal(ParseDecimal(s))
  {
    if s[0] != '0' || |s| == 1 {
      CanonicalNumeral(s);
      k := 0;
    } else {
      k := PaddedForm(s[1..]);
      LeadingZero(s[1..]);
      k := k + 1;
      assert s == ['0'] + s[1..];
    }
  }

  lemma {:induction false} LeadingZero(s: string)
    requires AllDigits(s)
    ensures AllDigits(['0'] + s) && ParseDecimal(['0'] + s) == ParseDecimal(s)
  {
    var z := ['0'] + s;
    if s == "" {
      assert z[..0] == [];
    } else {
      LeadingZero(s[..|s| - 1]);
      assert z[..|z| - 1] == ['0'] + s[..|s| - 1];
    }
  }

  lemma {:induction false} PaddingKeepsValue(k: nat, s: string)
    requires AllDigits(s)
    ensures AllDigits(Padding(k) + s) && ParseDecimal(Padding(k) + s) == ParseDecimal(s)
  {
    if k == 0 {
      assert Padding(0) + s == s;
    } else {
      PaddingKeepsValue(k - 1, s);
      LeadingZero(Padding(k - 1) + s);
      assert Padding(k) + s == ['0'] + (Padding(k - 1) + s);
    }
  }

  /** The recognised renderings of an index are its issued path and the zero-padded forms of it. */
  lemma RecognizeExactly(path: string, index: nat)
    ensures Recognize(path) == Some(index)
            <==> index <= MAX_PLAIN_INDEX && exists k: nat :: path == Rendering(Padding(k) + Decimal(index))
  {
    if Recognize(path) == Some(index) {
      var digits := Capture(path).value;
      CaptureExactly(path, digits);
      var k := PaddedForm(digits);
      assert path == Rendering(Padding(k) + Decimal(index));
    }
    forall k: nat | index <= MAX_PLAIN_INDEX && path == Rendering(Padding(k) + Decimal(index))
      ensures Recognize(path) == Some(index)
    {
      var digits := Padding(k) + Decimal(index);
      PaddingKeepsValue(k, Decimal(index));
      ParsePrinted(index);
      CaptureExactly(path, digits);
    }
  }

  lemma IssuedPathRecognized(index: nat)
    requires index <= MAX_PLAIN_INDEX
    ensures Recognize(PaymentPath(index)) == Some(index)
  {
    assert Padding(0) + Decimal(index) == Decimal(index);
    assert PaymentPath(index) == Rendering(Padding(0) + Decimal(index));
    RecognizeExactly(PaymentPath(index), index);
  }

  // ----- Allocation -----

  /** An entry of the caller's list; None stands for a value that is not a string. */
  type Entry = Option<string>

  function IndexOf(e: Entry): Option<nat> {
    if e.Some? then Recognize(e.value) else None
  }

  function NextIndex(used: seq<Entry>): (n: nat)
    ensures n <= MAX_PLAIN_INDEX + 1
  {
    if used == [] then 0
    else
      var n, last := NextIndex(used[..|used| - 1]), IndexOf(used[|used| - 1]);
      if last.Some? && last.value >= n then last.value + 1 else n
  }

  /** One more than the largest recognised index, and 0 when nothing is recognised. */
  ghost predicate FollowsAll(used: seq<Entry>, n: nat) {
    && (forall e :: e in used && IndexOf(e).Some? ==> IndexOf(e).value < n)
    && (n > 0 ==> exists e :: e in used && IndexOf(e) == Some(n - 1))
  }

  lemma {:induction false} NextFollowsAll(used: seq<Entry>)
    ensures FollowsAll(used, NextIndex(used))
  {
    if used != [] {
      var front, last := used[..|used| - 1], used[|used| - 1];
      NextFollowsAll(front);
      assert used == front + [last];
      assert forall e :: e in used <==> e in front || e == last;
    }
  }

  /** The allocated index is the only number that follows all the used ones. */
  lemma NextExactly(used: seq<Entry>, n: nat)
    ensures NextIndex(used) == n <==> FollowsAll(used, n)
  {
    NextFollowsAll(used);
  }

  method NextPaymentIndex(used: seq<Entry>) returns (next: nat)
    ensures FollowsAll(used, next) && next == NextIndex(used)
  {
    var max := -1;
    for k := 0 to |used|
      invariant max >= -1 && max + 1 == NextIndex(used[..k])
    {
      assert used[..k + 1][..k] == used[..k];
      if used[k].None? { continue; }
      var digits := Capture(used[k].value);
      if digits.None? { continue; }
      var index := ParseDecimal(digits.value);
      if index > MAX_PLAIN_INDEX { continue; }
      if index > max { max := index; }
    }
    assert used[..|used|] == used;
    NextFollowsAll(used);
    return max + 1;
  }

  // ----- Wallets -----

  datatype TreeError = Disposed | BadIndex

  /** The address is given as the public key it encodes. */
  datatype WalletValue = WalletValue(address: Bytes, privateKey: Bytes, derivationPath: string)

  function PaymentIndices(index: nat): seq<nat> {
    [44, 501, index, 0]
  }

  function PaymentKey(master: NodeValue, index: nat): Bytes {
    Fold(master, PaymentIndices(index)).key
  }

  function DeriveWalletSpec(master: NodeValue, index: int): Result<WalletValue, TreeError> {
    if index < 0 || index > MAX_PLAIN_INDEX then Err(BadIndex)
    else
      var key := PaymentKey(master, index);
      Ok(WalletValue(EdPublic(key), key, PaymentPath(index)))
  }

  function PaymentComponents(index: nat): seq<Component> {
    [Component(44, '\''), Component(501, '\''), Component(index, '\''), Component(0, '\'')]
  }

  lemma PaymentPathPrints(index: nat)
    ensures PaymentPath(index) == Print(PaymentComponents(index))
  {
    var cs := PaymentComponents(index);
    assert Text(cs[0]) == "44'" && Text(cs[1]) == "501'" && Text(cs[3]) == "0'";
    PrintCons(cs[3], []);
    PrintCons(cs[2], [cs[3]]);
    PrintCons(cs[1], [cs[2], cs[3]]);
    PrintCons(cs[0], [cs[1], cs[2], cs[3]]);
    assert cs == [cs[0]] + [cs[1], cs[2], cs[3]];
    assert [cs[1], cs[2], cs[3]] == [cs[1]] + [cs[2], cs[3]];
    assert [cs[2], cs[3]] == [cs[2]] + [cs[3]];
    assert [cs[3]] == [cs[3]] + [];
    Regroup(Decimal(index));
  }

  lemma Regroup(digits: string)
    ensures "m" + ("/" + "44'" + ("/" + "501'" + ("/" + (digits + "'") + ("/" + "0'" + ""))))
         == "m/44'/501'/" + digits + "'/0'"
  {
  }

  /** derivePath accepts every issued path and derives along 44, 501, index, 0. */
  lemma PaymentPathDerives(master: NodeValue, index: nat)
    requires WellFormed(master) && index <= MAX_PLAIN_INDEX
    ensures DerivePathSpec(master, PaymentPath(index)) == Fine(Fold(master, PaymentIndices(index)))
    ensures Matches(PaymentPath(index)) && Indices(ParseTail(PaymentPath(index)[1..])) == PaymentIndices(index)
  {
    var cs := PaymentComponents(index);
    PaymentPathPrints(index);
    PaymentComponentsIndices(index);
    GrammarIsPrinting(PaymentPath(index), cs);
    DerivePathExactly(master, PaymentPath(index));
  }

  lemma PaymentComponentsIndices(index: nat)
    requires index <= MAX_PLAIN_INDEX
    ensures Indices(PaymentComponents(index)) == PaymentIndices(index) && InRange(PaymentIndices(index))
  {
  }

  /**
   There is a wallet exactly for an index in range. Deriving along its path from
   the master node gives its private key, and its address is the public key of that.
   */
  lemma DeriveWalletExactly(master: NodeValue, index: int)
    requires WellFormed(master)
    ensures var r := DeriveWalletSpec(master, index);
            && (r.Ok? <==> 0 <= index <= 0x7fff_ffff)
            && (r.Err? ==> r.error == BadIndex)
            && (r.Ok? ==>
                  && Recognize(r.value.derivationPath) == Some(index)
                  && DerivePathSpec(master, r.value.derivationPath).Fine?
                  && DerivePathSpec(master, r.value.derivationPath).value.key == r.value.privateKey
                  && r.value.address == EdPublic(r.value.privateKey))
  {
    if 0 <= index <= MAX_PLAIN_INDEX {
      PaymentPathDerives(master, index);
      IssuedPathRecognized(index);
    }
  }

  /** Keys and addresses are equal only for equal indices below the same master node. */
  lemma WalletsDistinct(master: NodeValue, i: nat, master': NodeValue, j: nat)
    requires WellFormed(master) && WellFormed(master') && i <= MAX_PLAIN_INDEX && j <= MAX_PLAIN_INDEX
    ensures PaymentKey(master, i) == PaymentKey(master', j) <==> master == master' && i == j
    ensures DeriveWalletSpec(master, i).value.address == DeriveWalletSpec(master', j).value.address
       <==> master == master' && i == j
  {
    var a, b := PaymentIndices(i), PaymentIndices(j);
    assert a[2] == i && b[2] == j;
    assert a[..3][2] == i && b[..3][2] == j;
    FoldInjective(master, a[..3], master', b[..3]);
    FoldWellFormed(master, a[..3]);
    FoldWellFormed(master', b[..3]);
    ChildInjective(Fold(master, a[..3]), HARDENED_BIT, Fold(master', b[..3]), HARDENED_BIT);
    var p, q := PaymentKey(master, i), PaymentKey(master', j);
    assert EdPublic(p)[0] == EdPubOut(p, 0) && EdPublic(q)[0] == EdPubOut(q, 0);
  }

  /** Wallets of different seeds never share an address. */
  lemma SeedsDistinct(seed: Bytes, i: nat, seed': Bytes, j: nat)
    requires |seed| == |seed'| == 64 && i <= MAX_PLAIN_INDEX && j <= MAX_PLAIN_INDEX
    ensures var m, m' := MasterSpec(seed).value, MasterSpec(seed').value;
            DeriveWalletSpec(m, i).value.address == DeriveWalletSpec(m', j).value.address <==> seed == seed' && i == j
  {
    MasterExactly(seed, seed');
    WalletsDistinct(MasterSpec(seed).value, i, MasterSpec(seed').value, j);
  }

  // ----- Runs of allocate, derive, record -----

  datatype Event =
    | Allocate               // nextIndex, then deriveWallet, then record the path when it succeeded
    | Record(path: Entry)    // somebody else records a used path, or anything at all

  datatype Ledger = Ledger(used: seq<Entry>, issued: seq<nat>)

  function Step(master: NodeValue, l: Ledger, e: Event): Ledger {
    match e
    case Record(path) => l.(used := l.used + [path])
    case Allocate =>
      var n := NextIndex(l.used);
      match DeriveWalletSpec(master, n)
      case Err(_) => l
      case Ok(w) => Ledger(l.used + [Some(w.derivationPath)], l.issued + [n])
  }

  function Run(master: NodeValue, l: Ledger, events: seq<Event>): Ledger {
    if events == [] then l else Step(master, Run(master, l, events[..|events| - 1]), events[|events| - 1])
  }

  /** Everything issued so far lies below what would be issued next. */
  ghost predicate Covered(l: Ledger) {
    Increasing(l.issued) && forall i :: 0 <= i < |l.issued| ==> l.issued[i] < NextIndex(l.used)
  }

  /** Later ledgers keep what was issued and add only indices that were not yet used. */
  ghost predicate Grows(l: Ledger, after: Ledger) {
    && Covered(after)
    && NextIndex(l.used) <= NextIndex(after.used)
    && l.issued <= after.issued
    && forall i :: |l.issued| <= i < |after.issued| ==> NextIndex(l.used) <= after.issued[i] <= MAX_PLAIN_INDEX
  }

  lemma NextAfter(used: seq<Entry>, e: Entry)
    ensures NextIndex(used + [e])
         == if IndexOf(e).Some? && IndexOf(e).value >= NextIndex(used) then IndexOf(e).value + 1 else NextIndex(used)
  {
    assert (used + [e])[..|used|] == used;
  }

  lemma AllocateStep(master: NodeValue, l: Ledger)
    ensures var n := NextIndex(l.used);
            Step(master, l, Allocate) == if n > MAX_PLAIN_INDEX then l
                                         else Ledger(l.used + [Some(PaymentPath(n))], l.issued + [n])
  {
  }

  lemma IssuingGrows(l: Ledger, n: nat, e: Entry)
    requires Covered(l) && n == NextIndex(l.used) && n <= MAX_PLAIN_INDEX && IndexOf(e) == Some(n)
    ensures Grows(l, Ledger(l.used + [e], l.issued + [n]))
  {
    NextAfter(l.used, e);
  }

  lemma StepGrows(master: NodeValue, l: Ledger, e: Event)
    requires Covered(l)
    ensures Grows(l, Step(master, l, e))
  {
    match e
    case Record(path) => NextAfter(l.used, path);
    case Allocate =>
      var n := NextIndex(l.used);
      AllocateStep(master, l);
      if n <= MAX_PLAIN_INDEX {
        IssuedPathRecognized(n);
        IssuingGrows(l, n, Some(PaymentPath(n)));
      }
  }

  lemma GrowsOn(a: Ledger, b: Ledger, c: Ledger)
    requires Grows(a, b) && Grows(b, c)
    ensures Grows(a, c)
  {
  }

  lemma {:induction false} RunGrows(master: NodeValue, l: Ledger, events: seq<Event>)
    requires Covered(l)
    ensures Grows(l, Run(master, l, events))
  {
    if events != [] {
      var k := |events| - 1;
      var before := Run(master, l, events[..k]);
      RunGrows(master, l, events[..k]);
      StepGrows(master, before, events[k]);
      GrowsOn(l, before, Step(master, before, events[k]));
    }
  }

  /** In every run no index, and so no address, is issued twice or was recorded before the run. */
  lemma NeverReused(master: NodeValue, used: seq<Entry>, events: seq<Event>)
    requires WellFormed(master)
    ensures var issued := Run(master, Ledger(used, []), events).issued;
            && Increasing(issued)
            && (forall i, e :: 0 <= i < |issued| && e in used ==> IndexOf(e) != Some(issued[i]))
            && (forall i :: 0 <= i < |issued| ==> issued[i] <= MAX_PLAIN_INDEX)
            && (forall i, j :: 0 <= i < j < |issued| ==>
                  DeriveWalletSpec(master, issued[i]).value.address
                  != DeriveWalletSpec(master, issued[j]).value.address)
  {
    RunGrows(master, Ledger(used, []), events);
    NextFollowsAll(used);
    var issued := Run(master, Ledger(used, []), events).issued;
    forall i, j | 0 <= i < j < |issued|
      ensures DeriveWalletSpec(master, issued[i]).value.address != DeriveWalletSpec(master, issued[j]).value.address
    {
      WalletsDistinct(master, issued[i], master, issued[j]);
    }
  }

  /** Allocation fails exactly when the last index is recorded, and from then on for ever. */
  lemma ExhaustionIsFinal(master: NodeValue, l: Ledger, events: seq<Event>)
    requires Covered(l)
    ensures DeriveWalletSpec(master, NextIndex(l.used)).Err?
            <==> exists e :: e in l.used && IndexOf(e) == Some(MAX_PLAIN_INDEX)
    ensures DeriveWalletSpec(master, NextIndex(l.used)).Err? ==> Run(master, l, events).issued == l.issued
  {
    NextFollowsAll(l.used);
    RunGrows(master, l, events);
    NothingAboveTheLast(l, Run(master, l, events));
  }

  lemma NothingAboveTheLast(l: Ledger, after: Ledger)
    requires Grows(l, after)
    ensures NextIndex(l.used) > MAX_PLAIN_INDEX ==> after.issued == l.issued
  {
    assert |after.issued| > |l.issued| ==> NextIndex(l.used) <= after.issued[|l.issued|] <= MAX_PLAIN_INDEX;
  }

  function Allocations(k: nat): seq<Event> {
    seq(k, _ => Allocate)
  }

  function Capped(k: nat): nat {
    if k <= MAX_PLAIN_INDEX then k else MAX_PLAIN_INDEX + 1
  }

  function PathsBelow(n: nat): (paths: seq<Entry>)
    ensures |paths| == n
  {
    seq(n, i requires 0 <= i => Some(PaymentPath(i)))
  }

  /** The ledger that has issued 0, 1, …, n − 1 over a list in which nothing is recognised. */
  function IssuedBelow(foreign: seq<Entry>, n: nat): Ledger {
    Ledger(foreign + PathsBelow(n), seq(n, i requires 0 <= i => i))
  }

  lemma IssuedOneMore(foreign: seq<Entry>, n: nat)
    ensures var l := IssuedBelow(foreign, n);
            IssuedBelow(foreign, n + 1) == Ledger(l.used + [Some(PaymentPath(n))], l.issued + [n])
  {
    assert PathsBelow(n + 1) == PathsBelow(n) + [Some(PaymentPath(n))];
  }

  lemma {:induction false} NextOfIssued(foreign: seq<Entry>, n: nat)
    requires NextIndex(foreign) == 0 && n <= MAX_PLAIN_INDEX + 1
    ensures NextIndex(foreign + PathsBelow(n)) == n
  {
    if n == 0 {
      assert foreign + PathsBelow(0) == foreign;
    } else {
      NextOfIssued(foreign, n - 1);
      IssuedPathRecognized(n - 1);
      NextAfter(foreign + PathsBelow(n - 1), Some(PaymentPath(n - 1)));
      IssuedOneMore(foreign, n - 1);
    }
  }

  lemma AllocateIssued(master: NodeValue, foreign: seq<Entry>, k: nat)
    requires NextIndex(foreign) == 0
    ensures Step(master, IssuedBelow(foreign, Capped(k)), Allocate) == IssuedBelow(foreign, Capped(k + 1))
  {
    NextOfIssued(foreign, Capped(k));
    IssuedOneMore(foreign, Capped(k));
    AllocateStep(master, IssuedBelow(foreign, Capped(k)));
  }

  /** Allocating k times from unused paths issues 0, 1, 2, … and stops after 2^31 − 1. */
  lemma {:induction false} AllocatesInOrder(master: NodeValue, foreign: seq<Entry>, k: nat)
    requires NextIndex(foreign) == 0
    ensures Run(master, Ledger(foreign, []), Allocations(k)) == IssuedBelow(foreign, Capped(k))
  {
    if k == 0 {
      assert foreign + PathsBelow(0) == foreign;
    } else {
      AllocatesInOrder(master, foreign, k - 1);
      AllocateIssued(master, foreign, k - 1);
      assert Allocations(k)[..k - 1] == Allocations(k - 1);
    }
  }

  // ----- The tree -----

  datatype Wallet = Wallet(address: Bytes, privateKey: array<Byte>, derivationPath: string)

  class SolanaWalletTree {
    const masterKey: array<Byte>
    const masterChainCode: array<Byte>
    var disposed: bool
    ghost const master: NodeValue

    ghost predicate Valid()
      reads this, masterKey, masterChainCode
    {
      && masterKey != masterChainCode && WellFormed(master)
      && masterKey.Length == 32 && masterChainCode.Length == 32
      && (!disposed ==> masterKey[..] == master.key && masterChainCode[..] == master.chainCode)
      && (disposed ==> IsZero(masterKey[..]) && IsZero(masterChainCode[..]))
    }

    constructor (key: array<Byte>, chainCode: array<Byte>)
      requires key != chainCode && key.Length == 32 && chainCode.Length == 32
      ensures Valid() && !disposed && masterKey == key && masterChainCode == chainCode
      ensures master == NodeValue(key[..], chainCode[..])
    {
      masterKey, masterChainCode, disposed := key, chainCode, false;
      master := NodeValue(key[..], chainCode[..]);
    }

    /** Keeps the master node and not the seed, which is only read. */
    static method FromSeed(seed: array<Byte>) returns (r: Checked<SolanaWalletTree>)
      ensures match MasterSpec(seed[..])
              case TypeError => r == TypeError
              case Fine(v) => r.Fine? && fresh(r.value) && fresh(r.value.masterKey) && fresh(r.value.masterChainCode)
                              && r.value.Valid() && !r.value.disposed && r.value.master == v
    {
      var node := MasterKeyFromSeed(seed);
      if node.TypeError? { return TypeError; }
      var tree := new SolanaWalletTree(node.value.key, node.value.chainCode);
      return Fine(tree);
    }

    /**
     The private key is a fresh buffer of the caller's. The child chain code is
     wiped: no buffer that the call or the derivation below it made still holds it.
     */
    method DeriveWallet(index: int) returns (r: Result<Wallet, TreeError>)
      requires Valid()
      ensures match if disposed then Err(Disposed) else DeriveWalletSpec(master, index)
              case Err(e) => r == Err(e)
              case Ok(w) => r.Ok? && fresh(r.value.privateKey)
                            && WalletValue(r.value.address, r.value.privateKey[..], r.value.derivationPath) == w
      ensures r.Ok? ==> forall b: array<Byte> {:trigger b[..]} :: fresh(b) ==>
                          b[..] != Fold(master, PaymentIndices(index)).chainCode
      ensures r.Err? ==> forall b: array<Byte> {:trigger b[..]} :: fresh(b) ==> IsZero(b[..])
    {
      if disposed { return Err(Disposed); }
      if index < 0 || index > MAX_PLAIN_INDEX { return Err(BadIndex); }
      var node := DeriveNode(index);
      var address := EdPublic(node.key[..]);
      SecureWipe(node.chainCode);
      r := Ok(Wallet(address, node.key, PaymentPath(index)));
    }

    /** derivePath along the payment path: only the new node itself holds the derived chain code. */
    method DeriveNode(index: nat) returns (node: Node)
      requires Valid() && !disposed && index <= MAX_PLAIN_INDEX
      ensures fresh(node.key) && fresh(node.chainCode) && node.key != node.chainCode
      ensures ValueOf(node) == Fold(master, PaymentIndices(index)) && node.key[..] != node.chainCode[..]
      ensures !IsZero(node.chainCode[..])
      ensures forall b: array<Byte> {:trigger b[..]} :: fresh(b) ==> b == node.chainCode || b[..] != node.chainCode[..]
    {
      PaymentPathDerives(master, index);
      DerivedNotTraced(master, PaymentIndices(index));
      var derived := DerivePath(Node(masterKey, masterChainCode), PaymentPath(index));
      node := derived.value;
    }

    /** Needs no key material, so it works on a disposed tree too. */
    method NextIndex(used: seq<Entry>) returns (next: nat)
      ensures FollowsAll(used, next)
    {
      next := NextPaymentIndex(used);
    }

    method Dispose()
      requires Valid()
      modifies this`disposed, masterKey, masterChainCode
      ensures Valid() && disposed
    {
      if disposed { return; }
      disposed := true;
      SecureWipe(masterKey);
      SecureWipe(masterChainCode);
    }
  }
}
