/** X3DH (section 3.3 of the Signal specification): the two sides, their agreement, and their memory hygiene. */
module X3dh {
  import opened Basics
  import opened Primitives

  const X3DH_INFO := "me2em/crypto/v1/x3dh"

  // ----- The two computations -----

  function SecretOf(dh1: Bytes, dh2: Bytes, dh3: Bytes, dh4: Bytes): (secret: Bytes)
    ensures |secret| == 32
  {
    Hkdf(dh1 + dh2 + dh3 + dh4, Zeros(32), X3DH_INFO, 32)
  }

  /** Initiator: own identity (Ed25519) and ephemeral private keys, the recipient's public keys. */
  function InitiatorSecret(ikA: Bytes, ekA: Bytes, ikBPub: Bytes, spkBPub: Bytes, opkBPub: Bytes): Bytes {
    SecretOf(X25519(MontPriv(ikA), spkBPub), X25519(ekA, MontPub(ikBPub)), X25519(ekA, spkBPub), X25519(ekA, opkBPub))
  }

  /** Recipient: own private keys, the initiator's public keys. */
  function RecipientSecret(ikB: Bytes, spkB: Bytes, otkB: Bytes, ikAPub: Bytes, ekAPub: Bytes): Bytes {
    SecretOf(X25519(spkB, MontPub(ikAPub)), X25519(MontPriv(ikB), ekAPub), X25519(spkB, ekAPub), X25519(otkB, ekAPub))
  }

  lemma SecretDeterminesDh(a1: Bytes, a2: Bytes, a3: Bytes, a4: Bytes, b1: Bytes, b2: Bytes, b3: Bytes, b4: Bytes)
    requires |a1| == |a2| == |a3| == |a4| == 32 && |b1| == |b2| == |b3| == |b4| == 32
    ensures SecretOf(a1, a2, a3, a4) == SecretOf(b1, b2, b3, b4) <==> a1 == b1 && a2 == b2 && a3 == b3 && a4 == b4
  {
    var a, b := a1 + a2 + a3 + a4, b1 + b2 + b3 + b4;
    HkdfInjective(a, Zeros(32), X3DH_INFO, b, Zeros(32), X3DH_INFO, 32);
    assert a[..32] == a1 && a[32..64] == a2 && a[64..96] == a3 && a[96..] == a4;
    assert b[..32] == b1 && b[32..64] == b2 && b[64..96] == b3 && b[96..] == b4;
  }

  lemma SameSharedSameKey(a: Bytes, b: Bytes, c: Bytes)
    ensures X25519(a, XPublic(b)) == X25519(c, XPublic(a)) <==> XPublic(b) == XPublic(c)
  {
    X25519Shared(a, b);
    X25519Shared(c, a);
    XPublicInjective(b, c);
    assert {a, b} == {c, a} <==> b == c by {
      if {a, b} == {c, a} { assert b in {c, a} && c in {a, b}; }
    }
  }

  /** Two sets of recipient keys that answer to the same public keys. */
  predicate SamePublic(ikB: Bytes, spkB: Bytes, otkB: Bytes, ikB': Bytes, spkB': Bytes, otkB': Bytes) {
    && MontPub(EdPublic(ikB)) == MontPub(EdPublic(ikB'))
    && XPublic(spkB) == XPublic(spkB') && XPublic(otkB) == XPublic(otkB')
  }

  /**
   Initiator and recipient derive the same secret exactly when the recipient's
   private keys belong to the public keys of the bundle the initiator was given.
   */
  lemma SidesAgreeExactly(ikA: Bytes, ekA: Bytes, ikB: Bytes, spkB: Bytes, otkB: Bytes, ikB': Bytes, spkB': Bytes,
                          otkB': Bytes)
    ensures InitiatorSecret(ikA, ekA, EdPublic(ikB), XPublic(spkB), XPublic(otkB))
         == RecipientSecret(ikB', spkB', otkB', EdPublic(ikA), XPublic(ekA))
       <==> SamePublic(ikB, spkB, otkB, ikB', spkB', otkB')
  {
    MontPubOfEdPublic(ikB);
    MontPubOfEdPublic(ikB');
    MontPubOfEdPublic(ikA);
    SecretDeterminesDh(
      X25519(MontPriv(ikA), XPublic(spkB)), X25519(ekA, XPublic(MontPriv(ikB))),
      X25519(ekA, XPublic(spkB)), X25519(ekA, XPublic(otkB)),
      X25519(spkB', XPublic(MontPriv(ikA))), X25519(MontPriv(ikB'), XPublic(ekA)),
      X25519(spkB', XPublic(ekA)), X25519(otkB', XPublic(ekA)));
    SameSharedSameKey(MontPriv(ikA), spkB, spkB');
    SameSharedSameKey(ekA, MontPriv(ikB), MontPriv(ikB'));
    SameSharedSameKey(ekA, spkB, spkB');
    SameSharedSameKey(ekA, otkB, otkB');
  }

  // ----- The calls -----

  datatype KeyPair = KeyPair(privateKey: array<Byte>, publicKey: array<Byte>)

  datatype Bundle = Bundle(
    identityPublicKey: array<Byte>, signedPreKeyPublicKey: array<Byte>,
    signedPreKeySignature: array<Byte>, oneTimePreKeyPublicKey: Option<array<Byte>>)

  datatype Initiation = Initiation(sharedSecret: array<Byte>, ephemeralPublicKey: Bytes, usedOneTimePreKeyId: Bytes)

  /** Which call inside a function throws: one of the two key conversions, one of the four DHs, HKDF, or none. */
  datatype Fault = NoFault | ConversionFault(step: int) | DhFault(step: int) | HkdfFault

  predicate ConversionThrows(fault: Fault) {
    fault == ConversionFault(1) || fault == ConversionFault(2)
  }

  /** What throws inside the try block: the k-th DH, on bad lengths or on a low-order point. */
  predicate DhThrows(k: int, priv: Bytes, pub: Bytes, fault: Fault) {
    |priv| != 32 || |pub| != 32 || fault == DhFault(k)
  }

  method SharedSecret(k: int, priv: array<Byte>, pub: Bytes, fault: Fault) returns (shared: array?<Byte>)
    ensures shared == null <==> DhThrows(k, priv[..], pub, fault)
    ensures shared != null ==> fresh(shared) && shared[..] == X25519(priv[..], pub)
    ensures forall b: array<Byte> {:trigger b[..]} :: fresh(b) ==> IsZero(b[..]) || b == shared
  {
    if priv.Length != 32 || |pub| != 32 || fault == DhFault(k) { return null; }
    shared := Alloc(X25519(priv[..], pub));
  }

  /** How many of four DHs in a row return before one throws. */
  function DhsReturned(privs: seq<Bytes>, pubs: seq<Bytes>, fault: Fault): (n: nat)
    requires |privs| == |pubs| == 4
    ensures n <= 4
    ensures forall k :: 0 <= k < n ==> !DhThrows(k + 1, privs[k], pubs[k], fault)
    ensures n < 4 ==> DhThrows(n + 1, privs[n], pubs[n], fault)
  {
    if DhThrows(1, privs[0], pubs[0], fault) then 0
    else if DhThrows(2, privs[1], pubs[1], fault) then 1
    else if DhThrows(3, privs[2], pubs[2], fault) then 2
    else if DhThrows(4, privs[3], pubs[3], fault) then 3
    else 4
  }

  /** The error of the try block: from the first DH that throws, or from HKDF. */
  function TryError(privs: seq<Bytes>, pubs: seq<Bytes>, fault: Fault): Option<CryptoError>
    requires |privs| == |pubs| == 4
  {
    var n := DhsReturned(privs, pubs, fault);
    if n < 4 then Some(if |privs[n]| != 32 || |pubs[n]| != 32 then InvalidLength else PlatformFailure)
    else if fault.HkdfFault? then Some(PlatformFailure)
    else None
  }

  datatype BundleValue = BundleValue(identity: Bytes, spk: Bytes, signature: Bytes, otk: Option<Bytes>)

  function ValueOf(b: Bundle): BundleValue
    reads b.identityPublicKey, b.signedPreKeyPublicKey, b.signedPreKeySignature
    reads if b.oneTimePreKeyPublicKey.Some? then {b.oneTimePreKeyPublicKey.value} else {}
  {
    BundleValue(b.identityPublicKey[..], b.signedPreKeyPublicKey[..], b.signedPreKeySignature[..],
                match b.oneTimePreKeyPublicKey case Some(k) => Some(k[..]) case None => None)
  }

  /** What is checked before the try block. */
  function InitiatorCheck(ikA: Bytes, b: BundleValue, fault: Fault): Option<CryptoError> {
    if !EdVerify(b.identity, b.spk, b.signature) then Some(VerificationFailed)
    else if b.otk.None? then Some(InvalidArgument)
    else if |ikA| != 32 then Some(InvalidLength)
    else if ConversionThrows(fault) then Some(PlatformFailure)
    else None
  }

  /** The private and public keys of the initiator's four DHs, in the canonical order. */
  function InitiatorPrivs(ikA: Bytes, ekA: Bytes): (s: seq<Bytes>)
    ensures |s| == 4
  {
    [MontPriv(ikA), ekA, ekA, ekA]
  }

  function InitiatorPubs(b: BundleValue): (s: seq<Bytes>)
    requires b.otk.Some?
    ensures |s| == 4
  {
    [b.spk, MontPub(b.identity), b.spk, b.otk.value]
  }

  function InitiateOutcome(ikA: Bytes, b: BundleValue, ekA: Bytes, fault: Fault): (r: Result<Bytes, CryptoError>)
    ensures r.Ok? ==> b.otk.Some?
  {
    var e := InitiatorCheck(ikA, b, fault);
    if e.Some? then Err(e.value)
    else
      var thrown := TryError(InitiatorPrivs(ikA, ekA), InitiatorPubs(b), fault);
      if thrown.Some? then Err(thrown.value)
      else Ok(InitiatorSecret(ikA, ekA, b.identity, b.spk, b.otk.value))
  }

  /** One of the calls that either side makes throws. */
  ghost predicate Throws(fault: Fault) {
    || fault.HkdfFault? || fault == ConversionFault(1) || fault == ConversionFault(2)
    || (fault.DhFault? && 1 <= fault.step <= 4)
  }

  /**
   The initiator succeeds exactly for a bundle with a one-time key whose signed
   pre-key the holder of its identity key has signed, 32-byte keys, and no throw.
   An unsigned pre-key is told before anything else, a missing one-time key next.
   */
  lemma InitiateExactly(ikA: Bytes, b: BundleValue, ekA: Bytes, fault: Fault)
    requires |ekA| == 32
    ensures var r := InitiateOutcome(ikA, b, ekA, fault);
            var signed := exists ikB :: b.identity == EdPublic(ikB) && b.signature == EdSign(ikB, b.spk);
            && (r == Err(VerificationFailed) <==> !signed)
            && (r == Err(InvalidArgument) <==> signed && b.otk.None?)
            && (r.Ok? <==>
                  && signed && b.otk.Some? && |ikA| == |b.spk| == |b.otk.value| == 32 && !Throws(fault))
            && (r == Err(InvalidLength) ==>
                  signed && b.otk.Some? && !(|ikA| == |b.spk| == |b.otk.value| == 32))
            && (r.Err? ==> r.error in {VerificationFailed, InvalidArgument, InvalidLength}
                           || (r.error == PlatformFailure && Throws(fault)))
  {
    EdVerifyExactly(b.identity, b.spk, b.signature);
  }

  /** The secret is made of all four Diffie-Hellman outputs, in order, and of nothing else. */
  lemma InitiatorSecretExactly(ikA: Bytes, ekA: Bytes, ikB: Bytes, spkB: Bytes, opkB: Bytes,
                               ikA': Bytes, ekA': Bytes, ikB': Bytes, spkB': Bytes, opkB': Bytes)
    ensures InitiatorSecret(ikA, ekA, ikB, spkB, opkB) == InitiatorSecret(ikA', ekA', ikB', spkB', opkB')
       <==> && X25519(MontPriv(ikA), spkB) == X25519(MontPriv(ikA'), spkB')
            && X25519(ekA, MontPub(ikB)) == X25519(ekA', MontPub(ikB'))
            && X25519(ekA, spkB) == X25519(ekA', spkB')
            && X25519(ekA, opkB) == X25519(ekA', opkB')
  {
    SecretDeterminesDh(
      X25519(MontPriv(ikA), spkB), X25519(ekA, MontPub(ikB)), X25519(ekA, spkB), X25519(ekA, opkB),
      X25519(MontPriv(ikA'), spkB'), X25519(ekA', MontPub(ikB')), X25519(ekA', spkB'), X25519(ekA', opkB'));
  }

  function Values(r: Result<Initiation, CryptoError>): Result<Bytes, CryptoError>
    reads if r.Ok? then {r.value.sharedSecret} else {}
  {
    match r case Ok(i) => Ok(i.sharedSecret[..]) case Err(e) => Err(e)
  }

  function DhFailure(priv: array<Byte>, pub: Bytes): CryptoError {
    if priv.Length != 32 || |pub| != 32 then InvalidLength else PlatformFailure
  }

  /** The variables of the try block: unset, or a buffer of its own. */
  datatype Scratch = Scratch(dh1: array?<Byte>, dh2: array?<Byte>, dh3: array?<Byte>, dh4: array?<Byte>,
                             ikm: array?<Byte>)

  predicate Holds(s: Scratch, b: array<Byte>) {
    b == s.dh1 || b == s.dh2 || b == s.dh3 || b == s.dh4 || b == s.ikm
  }

  ghost predicate Cleared(buf: array?<Byte>)
    reads buf
  {
    buf != null ==> IsZero(buf[..])
  }

  /** The finally block's loop over the variables that are set. */
  method WipeAll(s: Scratch)
    modifies s.dh1, s.dh2, s.dh3, s.dh4, s.ikm
    ensures Cleared(s.dh1) && Cleared(s.dh2) && Cleared(s.dh3) && Cleared(s.dh4) && Cleared(s.ikm)
    ensures forall b: array<Byte> {:trigger b[..]} :: fresh(b) ==> IsZero(b[..])
  {
    var bufs := [s.dh1, s.dh2, s.dh3, s.dh4, s.ikm];
    for k := 0 to |bufs|
      invariant forall i :: 0 <= i < k ==> Cleared(bufs[i])
      invariant forall b: array<Byte> {:trigger b[..]} :: fresh(b) ==> IsZero(b[..])
    {
      if bufs[k] != null { SecureWipe(bufs[k]); }
    }
    assert Cleared(bufs[0]) && Cleared(bufs[1]) && Cleared(bufs[2]) && Cleared(bufs[3]) && Cleared(bufs[4]);
  }

  /** The variable of the k-th DH: unset, or its output. */
  ghost predicate Slot(buf: array?<Byte>, filled: bool, priv: Bytes, pub: Bytes)
    reads buf
  {
    if filled then buf != null && buf[..] == X25519(priv, pub) else buf == null
  }

  /** After n DHs their outputs are set, and after all four the IKM is, too. */
  ghost predicate Filled(s: Scratch, privs: seq<Bytes>, pubs: seq<Bytes>, n: nat)
    requires |privs| == |pubs| == 4
    reads s.dh1, s.dh2, s.dh3, s.dh4, s.ikm
  {
    && Slot(s.dh1, n > 0, privs[0], pubs[0]) && Slot(s.dh2, n > 1, privs[1], pubs[1])
    && Slot(s.dh3, n > 2, privs[2], pubs[2]) && Slot(s.dh4, n > 3, privs[3], pubs[3])
    && (if n == 4 then s.ikm != null && s.ikm[..] == Concat4(s.dh1, s.dh2, s.dh3, s.dh4) else s.ikm == null)
  }

  function Concat4(a: array<Byte>, b: array<Byte>, c: array<Byte>, d: array<Byte>): Bytes
    reads a, b, c, d
  {
    a[..] + b[..] + c[..] + d[..]
  }

  /** The second to fourth DH of either side, in order, up to the first that throws. */
  method LaterDhs(ghost priv1: Bytes, priv2: array<Byte>, priv3: array<Byte>, priv4: array<Byte>, pubs: seq<Bytes>,
                  fault: Fault)
    returns (dh2: array?<Byte>, dh3: array?<Byte>, dh4: array?<Byte>, error: Option<CryptoError>)
    requires |pubs| == 4 && !DhThrows(1, priv1, pubs[0], fault)
    ensures var privs := [priv1, priv2[..], priv3[..], priv4[..]];
            var n := DhsReturned(privs, pubs, fault);
            && n > 0 && Slot(dh2, n > 1, privs[1], pubs[1]) && Slot(dh3, n > 2, privs[2], pubs[2])
            && Slot(dh4, n > 3, privs[3], pubs[3])
            && (n < 4 ==> error.Some? && error == TryError(privs, pubs, fault))
    ensures (dh2 != null ==> fresh(dh2)) && (dh3 != null ==> fresh(dh3)) && (dh4 != null ==> fresh(dh4))
    ensures forall b: array<Byte> {:trigger b[..]} :: fresh(b) ==> IsZero(b[..]) || b == dh2 || b == dh3 || b == dh4
  {
    dh2, dh3, dh4, error := null, null, null, None;
    dh2 := SharedSecret(2, priv2, pubs[1], fault);
    if dh2 == null { return null, null, null, Some(DhFailure(priv2, pubs[1])); }
    dh3 := SharedSecret(3, priv3, pubs[2], fault);
    if dh3 == null { return dh2, null, null, Some(DhFailure(priv3, pubs[2])); }
    dh4 := SharedSecret(4, priv4, pubs[3], fault);
    if dh4 == null { return dh2, dh3, null, Some(DhFailure(priv4, pubs[3])); }
  }

  /** The initiator's try block; the new buffers that are not zero are those in bufs and the result. */
  method InitiatorTry(ikAx: array<Byte>, ek: array<Byte>, ikBx: Bytes, spkB: Bytes, opkB: Bytes, fault: Fault)
    returns (r: Result<array<Byte>, CryptoError>, s: Scratch)
    requires ikAx.Length == ek.Length == |ikBx| == 32 && ikAx != ek
    modifies ikAx
    ensures var privs, pubs := old([ikAx[..], ek[..], ek[..], ek[..]]), [spkB, ikBx, spkB, opkB];
            && Filled(s, privs, pubs, DhsReturned(privs, pubs, fault))
            && (match TryError(privs, pubs, fault)
                case Some(e) => r == Err(e)
                case None => r.Ok? && r.value[..] == SecretOf(X25519(privs[0], pubs[0]), X25519(privs[1], pubs[1]),
                                                             X25519(privs[2], pubs[2]), X25519(privs[3], pubs[3])))
    ensures (s.dh1 != null ==> fresh(s.dh1)) && (s.dh2 != null ==> fresh(s.dh2)) && (s.dh3 != null ==> fresh(s.dh3))
    ensures (s.dh4 != null ==> fresh(s.dh4)) && (s.ikm != null ==> fresh(s.ikm))
    ensures r.Ok? ==> fresh(r.value) && !Holds(s, r.value)
    ensures forall b: array<Byte> {:trigger b[..]} :: fresh(b) ==>
              IsZero(b[..]) || Holds(s, b) || (r.Ok? && b == r.value)
  {
    ghost var privs, pubs := [ikAx[..], ek[..], ek[..], ek[..]], [spkB, ikBx, spkB, opkB];
    var dh1 := SharedSecret(1, ikAx, spkB, fault);
    if dh1 == null { return Err(DhFailure(ikAx, spkB)), Scratch(null, null, null, null, null); }
    assert dh1[..] == X25519(privs[0], pubs[0]);
    SecureWipe(ikAx);
    var dh2, dh3, dh4, error := LaterDhs(privs[0], ek, ek, ek, [spkB, ikBx, spkB, opkB], fault);
    if dh4 == null { return Err(error.value), Scratch(dh1, dh2, dh3, null, null); }
    var ikm;
    r, ikm := DeriveSecret(dh1, dh2, dh3, dh4, fault);
    s := Scratch(dh1, dh2, dh3, dh4, ikm);
  }

  /** IKM, then HKDF: the common end of both try blocks. */
  method DeriveSecret(dh1: array<Byte>, dh2: array<Byte>, dh3: array<Byte>, dh4: array<Byte>, fault: Fault)
    returns (r: Result<array<Byte>, CryptoError>, ikm: array<Byte>)
    ensures fresh(ikm) && ikm[..] == Concat4(dh1, dh2, dh3, dh4)
    ensures if fault.HkdfFault? then r == Err(PlatformFailure)
            else
              && r.Ok? && fresh(r.value) && r.value != ikm
              && r.value[..] == SecretOf(dh1[..], dh2[..], dh3[..], dh4[..])
    ensures forall b: array<Byte> {:trigger b[..]} :: fresh(b) ==>
              IsZero(b[..]) || b == ikm || (r.Ok? && b == r.value)
  {
    ikm := Alloc(Concat4(dh1, dh2, dh3, dh4));
    if fault.HkdfFault? { return Err(PlatformFailure), ikm; }
    var shared := Alloc(Hkdf(ikm[..], Zeros(32), X3DH_INFO, 32));
    return Ok(shared), ikm;
  }

  /** try … finally: whichever way the try block ends, both private keys and all its variables are wiped. */
  method InitiatorTryFinally(ikAx: array<Byte>, ek: array<Byte>, ikBx: Bytes, spkB: Bytes, opkB: Bytes, fault: Fault)
    returns (r: Result<array<Byte>, CryptoError>)
    requires ikAx.Length == ek.Length == |ikBx| == 32 && ikAx != ek
    modifies ikAx, ek
    ensures var privs, pubs := old([ikAx[..], ek[..], ek[..], ek[..]]), [spkB, ikBx, spkB, opkB];
            match TryError(privs, pubs, fault)
            case Some(e) => r == Err(e)
            case None => r.Ok? && r.value[..] == SecretOf(X25519(privs[0], pubs[0]), X25519(privs[1], pubs[1]),
                                                          X25519(privs[2], pubs[2]), X25519(privs[3], pubs[3]))
    ensures IsZero(ikAx[..]) && IsZero(ek[..])
    ensures r.Ok? ==> fresh(r.value)
    ensures forall b: array<Byte> {:trigger b[..]} :: fresh(b) ==> IsZero(b[..]) || (r.Ok? && b == r.value)
  {
    var s;
    r, s := InitiatorTry(ikAx, ek, ikBx, spkB, opkB, fault);
    SecureWipe(ikAx);
    SecureWipe(ek);
    WipeAll(s);
  }

  /** The initiator generates its ephemeral key, and then a key conversion throws: before the try block. */
  predicate InitiatorThrowsEarly(ikA: Bytes, b: BundleValue, fault: Fault) {
    && EdVerify(b.identity, b.spk, b.signature) && b.otk.Some?
    && (|ikA| != 32 || ConversionThrows(fault))
  }

  /**
   The initiator. ekA is the freshly generated ephemeral private key. Every
   buffer the call made is zero afterwards, on every exit, except the returned
   secret and what a throw between generation and try block leaves behind.
   Nothing the caller owns is touched.
   */
  method InitiateX3DH(ourIdentity: KeyPair, bundle: Bundle, ekA: Bytes, fault: Fault)
    returns (r: Result<Initiation, CryptoError>)
    requires |ekA| == 32
    ensures Values(r) == InitiateOutcome(ourIdentity.privateKey[..], ValueOf(bundle), ekA, fault)
    ensures r.Ok? ==> fresh(r.value.sharedSecret) && r.value.ephemeralPublicKey == XPublic(ekA)
                      && Some(r.value.usedOneTimePreKeyId) == ValueOf(bundle).otk
    ensures !InitiatorThrowsEarly(ourIdentity.privateKey[..], ValueOf(bundle), fault) ==>
              forall b: array<Byte> {:trigger b[..]} :: fresh(b) ==>
                IsZero(b[..]) || (r.Ok? && b == r.value.sharedSecret)
    ensures InitiatorThrowsEarly(ourIdentity.privateKey[..], ValueOf(bundle), fault) ==>
              forall b: array<Byte> {:trigger b[..]} :: fresh(b) ==>
                b[..] == ekA || (fault == ConversionFault(2) && b[..] == MontPriv(ourIdentity.privateKey[..]))
    ensures InitiatorThrowsEarly(ourIdentity.privateKey[..], ValueOf(bundle), fault) ==>
              && (exists b: array<Byte> {:trigger b[..]} :: fresh(b) && b[..] == ekA)
              && (ourIdentity.privateKey.Length == 32 && fault == ConversionFault(2) ==>
                    exists b: array<Byte> {:trigger b[..]} :: fresh(b) && b[..] == MontPriv(ourIdentity.privateKey[..]))
  {
    if !EdVerify(bundle.identityPublicKey[..], bundle.signedPreKeyPublicKey[..], bundle.signedPreKeySignature[..]) {
      return Err(VerificationFailed);
    }
    if bundle.oneTimePreKeyPublicKey.None? { return Err(InvalidArgument); }
    var ek := Alloc(ekA);
    assert |ek[..]| == 32;
    if ourIdentity.privateKey.Length != 32 { return Err(InvalidLength); }
    if fault == ConversionFault(1) { return Err(PlatformFailure); }
    var ikAx := Alloc(MontPriv(ourIdentity.privateKey[..]));
    assert |ikAx[..]| == 32 && ek[..] == ekA && ikAx[..] == MontPriv(ourIdentity.privateKey[..]);
    if fault == ConversionFault(2) { return Err(PlatformFailure); }
    var ikBx := MontPub(bundle.identityPublicKey[..]);
    var opkB := bundle.oneTimePreKeyPublicKey.value[..];
    var ephemeral := XPublic(ek[..]);
    var secret := InitiatorTryFinally(ikAx, ek, ikBx, bundle.signedPreKeyPublicKey[..], opkB, fault);
    match secret
    case Err(e) => r := Err(e);
    case Ok(shared) => r := Ok(Initiation(shared, ephemeral, opkB));
  }

  // ----- The recipient -----

  function RecipientPrivs(ikB: Bytes, spkB: Bytes, otkB: Bytes): (s: seq<Bytes>)
    ensures |s| == 4
  {
    [spkB, MontPriv(ikB), spkB, otkB]
  }

  function RecipientPubs(ikAPub: Bytes, ekAPub: Bytes): (s: seq<Bytes>)
    ensures |s| == 4
  {
    [MontPub(ikAPub), ekAPub, ekAPub, ekAPub]
  }

  function RecipientCheck(hasOtk: bool, ikB: Bytes, ikAPub: Bytes, fault: Fault): Option<CryptoError> {
    if !hasOtk then Some(InvalidArgument)
    else if |ikB| != 32 then Some(InvalidLength)
    else if fault == ConversionFault(1) then Some(PlatformFailure)
    else if |ikAPub| != 32 then Some(InvalidLength)
    else if fault == ConversionFault(2) then Some(PlatformFailure)
    else None
  }

  function CompleteOutcome(ikB: Bytes, spkB: Bytes, otkB: Option<Bytes>, ikAPub: Bytes, ekAPub: Bytes, fault: Fault)
    : Result<Bytes, CryptoError>
  {
    var e := RecipientCheck(otkB.Some?, ikB, ikAPub, fault);
    if e.Some? then Err(e.value)
    else
      var thrown := TryError(RecipientPrivs(ikB, spkB, otkB.value), RecipientPubs(ikAPub, ekAPub), fault);
      if thrown.Some? then Err(thrown.value)
      else Ok(RecipientSecret(ikB, spkB, otkB.value, ikAPub, ekAPub))
  }

  /** The recipient succeeds exactly with a one-time key, 32-byte keys, and no throw; it has no signature to check. */
  lemma CompleteExactly(ikB: Bytes, spkB: Bytes, otkB: Option<Bytes>, ikAPub: Bytes, ekAPub: Bytes, fault: Fault)
    ensures var r := CompleteOutcome(ikB, spkB, otkB, ikAPub, ekAPub, fault);
            && (r == Err(InvalidArgument) <==> otkB.None?)
            && (r.Ok? <==>
                  && otkB.Some? && |ikB| == |spkB| == |otkB.value| == |ikAPub| == |ekAPub| == 32 && !Throws(fault))
            && (r.Ok? ==> r.value == RecipientSecret(ikB, spkB, otkB.value, ikAPub, ekAPub))
            && (r == Err(InvalidLength) ==>
                  otkB.Some? && !(|ikB| == |spkB| == |otkB.value| == |ikAPub| == |ekAPub| == 32))
            && (r.Err? ==> r.error in {InvalidArgument, InvalidLength}
                           || (r.error == PlatformFailure && Throws(fault)))
  {
  }

  /** The fourth DH ran and returned, which is when the one-time key counts as consumed. */
  predicate OtkConsumed(ikB: Bytes, spkB: Bytes, otkB: Bytes, ikAPub: Bytes, ekAPub: Bytes, fault: Fault) {
    && RecipientCheck(true, ikB, ikAPub, fault).None?
    && DhsReturned(RecipientPrivs(ikB, spkB, otkB), RecipientPubs(ikAPub, ekAPub), fault) == 4
  }

  /** The recipient's try block; the new buffers that are not zero are those in bufs and the result. */
  method RecipientTry(ikBx: array<Byte>, spkB: array<Byte>, otkB: array<Byte>, ikAx: Bytes, ekA: Bytes, fault: Fault)
    returns (r: Result<array<Byte>, CryptoError>, s: Scratch)
    modifies otkB
    ensures var privs, pubs := old([spkB[..], ikBx[..], spkB[..], otkB[..]]), [ikAx, ekA, ekA, ekA];
            var n := DhsReturned(privs, pubs, fault);
            && Filled(s, privs, pubs, n)
            && (match TryError(privs, pubs, fault)
                case Some(e) => r == Err(e)
                case None => r.Ok? && r.value[..] == SecretOf(X25519(privs[0], pubs[0]), X25519(privs[1], pubs[1]),
                                                             X25519(privs[2], pubs[2]), X25519(privs[3], pubs[3])))
            && (if n == 4 then IsZero(otkB[..]) else otkB[..] == old(otkB[..]))
    ensures (s.dh1 != null ==> fresh(s.dh1)) && (s.dh2 != null ==> fresh(s.dh2)) && (s.dh3 != null ==> fresh(s.dh3))
    ensures (s.dh4 != null ==> fresh(s.dh4)) && (s.ikm != null ==> fresh(s.ikm))
    ensures r.Ok? ==> fresh(r.value) && !Holds(s, r.value)
    ensures forall b: array<Byte> {:trigger b[..]} :: fresh(b) ==>
              IsZero(b[..]) || Holds(s, b) || (r.Ok? && b == r.value)
  {
    ghost var privs, pubs := [spkB[..], ikBx[..], spkB[..], otkB[..]], [ikAx, ekA, ekA, ekA];
    var dh1 := SharedSecret(1, spkB, ikAx, fault);
    if dh1 == null { return Err(DhFailure(spkB, ikAx)), Scratch(null, null, null, null, null); }
    var dh2, dh3, dh4, error := LaterDhs(privs[0], ikBx, spkB, otkB, [ikAx, ekA, ekA, ekA], fault);
    if dh4 == null { return Err(error.value), Scratch(dh1, dh2, dh3, null, null); }
    assert dh4[..] == X25519(privs[3], pubs[3]);
    SecureWipe(otkB);
    var ikm;
    r, ikm := DeriveSecret(dh1, dh2, dh3, dh4, fault);
    s := Scratch(dh1, dh2, dh3, dh4, ikm);
  }

  /**
   The recipient's own identity key is converted, and then converting the
   initiator's throws: before the try block.
   */
  predicate RecipientThrowsEarly(hasOtk: bool, ikB: Bytes, ikAPub: Bytes, fault: Fault) {
    hasOtk && |ikB| == 32 && fault != ConversionFault(1) && (|ikAPub| != 32 || fault == ConversionFault(2))
  }

  /**
   The recipient. Every buffer the call made is zero afterwards, on every exit,
   except the returned secret and what a throw between the two conversions
   leaves behind; the one-time private key is zeroed exactly when its DH
   returned; no other buffer of the caller is touched.
   */
  method CompleteX3DH(ourIdentity: KeyPair, ourSignedPreKey: KeyPair, ourOneTimePreKey: Option<KeyPair>,
                      theirIdentityPub: Bytes, theirEphemeralPub: Bytes, fault: Fault)
    returns (r: Result<array<Byte>, CryptoError>)
    modifies if ourOneTimePreKey.Some? then {ourOneTimePreKey.value.privateKey} else {}
    ensures var outcome := old(CompleteOutcome(ourIdentity.privateKey[..], ourSignedPreKey.privateKey[..],
              if ourOneTimePreKey.Some? then Some(ourOneTimePreKey.value.privateKey[..]) else None,
              theirIdentityPub, theirEphemeralPub, fault));
            match r case Ok(s) => fresh(s) && outcome == Ok(s[..]) case Err(e) => outcome == Err(e)
    ensures ourOneTimePreKey.Some? ==>
              var otk := ourOneTimePreKey.value.privateKey;
              if old(OtkConsumed(ourIdentity.privateKey[..], ourSignedPreKey.privateKey[..], otk[..],
                                 theirIdentityPub, theirEphemeralPub, fault))
              then IsZero(otk[..]) else otk[..] == old(otk[..])
    ensures !RecipientThrowsEarly(ourOneTimePreKey.Some?, old(ourIdentity.privateKey[..]), theirIdentityPub, fault) ==>
              forall b: array<Byte> {:trigger b[..]} :: fresh(b) ==> IsZero(b[..]) || (r.Ok? && b == r.value)
    ensures RecipientThrowsEarly(ourOneTimePreKey.Some?, old(ourIdentity.privateKey[..]), theirIdentityPub, fault) ==>
              forall b: array<Byte> {:trigger b[..]} :: fresh(b) ==> b[..] == MontPriv(old(ourIdentity.privateKey[..]))
    ensures RecipientThrowsEarly(ourOneTimePreKey.Some?, old(ourIdentity.privateKey[..]), theirIdentityPub, fault) ==>
              exists b: array<Byte> {:trigger b[..]} :: fresh(b) && b[..] == MontPriv(old(ourIdentity.privateKey[..]))
  {
    if ourOneTimePreKey.None? { return Err(InvalidArgument); }
    if ourIdentity.privateKey.Length != 32 { return Err(InvalidLength); }
    if fault == ConversionFault(1) { return Err(PlatformFailure); }
    var ikBx := Alloc(MontPriv(ourIdentity.privateKey[..]));
    assert |ikBx[..]| == 32;
    if |theirIdentityPub| != 32 { return Err(InvalidLength); }
    if fault == ConversionFault(2) { return Err(PlatformFailure); }
    var ikAx := MontPub(theirIdentityPub);
    var secret, s := RecipientTry(ikBx, ourSignedPreKey.privateKey, ourOneTimePreKey.value.privateKey,
                                     ikAx, theirEphemeralPub, fault);
    SecureWipe(ikBx);
    WipeAll(s);
    r := secret;
  }
}
