/** Key envelopes: a key sealed for an offline recipient under a key derived from X3DH. */
module Envelopes {
  import opened Basics
  import opened Primitives
  import opened X3dh

  datatype WrappedKey = WrappedKey(
    wrappedKey: Cipher, iv: Bytes, ephemeralPublicKey: Bytes, initiatorIdentityPublicKey: Bytes,
    usedOneTimePreKeyId: Bytes, v: int)

  /** Which call after X3DH throws: deriving or importing the wrapping key, or encrypting. */
  datatype WrapFault = NoWrapFault | WrapKdfFault | ImportFault | EncryptFault | InX3dh(fault: X3dh.Fault)

  function Inner(fault: WrapFault): X3dh.Fault {
    if fault.InX3dh? then fault.fault else X3dh.NoFault
  }

  function WrapOutcome(keyBytes: Bytes, bundle: BundleValue, ikA: Bytes, ikAPub: Bytes, contextSalt: Bytes,
                       info: string, ekA: Bytes, iv: Bytes, fault: WrapFault): Result<WrappedKey, CryptoError>
  {
    if |keyBytes| != 32 then Err(InvalidLength)
    else match InitiateOutcome(ikA, bundle, ekA, Inner(fault))
      case Err(e) => Err(e)
      case Ok(secret) =>
        if fault.WrapKdfFault? || fault.ImportFault? || fault.EncryptFault? then Err(PlatformFailure)
        else Ok(WrappedKey(Sealed(Hkdf(secret, contextSalt, info, 32), iv, keyBytes), iv, XPublic(ekA), ikAPub,
                           bundle.otk.value, 1))
  }

  function UnwrapOutcome(w: WrappedKey, ikB: Bytes, spkB: Bytes, otkB: Option<Bytes>, contextSalt: Bytes, info: string,
                         fault: WrapFault): Result<Bytes, CryptoError>
  {
    if w.v != 1 then Err(UnsupportedVersion)
    else match CompleteOutcome(ikB, spkB, otkB, w.initiatorIdentityPublicKey, w.ephemeralPublicKey, Inner(fault))
      case Err(e) => Err(e)
      case Ok(secret) =>
        if fault.WrapKdfFault? || fault.ImportFault? then Err(PlatformFailure)
        else match Open(Hkdf(secret, contextSalt, info, 32), w.wrappedKey, w.iv)
          case Some(plain) => Ok(plain)
          case None => Err(DecryptionFailed)
  }

  /** Derives a wrapping key from the secret and seals the key bytes; wipes wrapping key and secret on every exit. */
  method SealUnder(secret: array<Byte>, contextSalt: Bytes, info: string, keyBytes: Bytes, iv: Bytes, fault: WrapFault)
    returns (r: Result<Cipher, CryptoError>)
    modifies secret
    ensures r == if fault.WrapKdfFault? || fault.ImportFault? || fault.EncryptFault? then Err(PlatformFailure)
                 else Ok(Sealed(Hkdf(old(secret[..]), contextSalt, info, 32), iv, keyBytes))
    ensures IsZero(secret[..])
    ensures forall b: array<Byte> {:trigger b[..]} :: fresh(b) ==> IsZero(b[..])
  {
    if fault.WrapKdfFault? {
      r := Err(PlatformFailure);
    } else {
      var wrapKey := Alloc(Hkdf(secret[..], contextSalt, info, 32));
      r := if fault.ImportFault? || fault.EncryptFault? then Err(PlatformFailure)
          else Ok(Sealed(wrapKey[..], iv, keyBytes));
      SecureWipe(wrapKey);
    }
    SecureWipe(secret);
  }

  /** The mirror image: derives the wrapping key and opens the envelope with it. */
  method OpenUnder(secret: array<Byte>, contextSalt: Bytes, info: string, cipher: Cipher, iv: Bytes, fault: WrapFault)
    returns (r: Result<Bytes, CryptoError>)
    modifies secret
    ensures r == if fault.WrapKdfFault? || fault.ImportFault? then Err(PlatformFailure)
                 else match Open(Hkdf(old(secret[..]), contextSalt, info, 32), cipher, iv)
                   case Some(plain) => Ok(plain)
                   case None => Err(DecryptionFailed)
    ensures IsZero(secret[..])
    ensures forall b: array<Byte> {:trigger b[..]} :: fresh(b) ==> IsZero(b[..])
  {
    if fault.WrapKdfFault? {
      r := Err(PlatformFailure);
    } else {
      var wrapKey := Alloc(Hkdf(secret[..], contextSalt, info, 32));
      if fault.ImportFault? {
        r := Err(PlatformFailure);
      } else {
        var plain := Open(wrapKey[..], cipher, iv);
        r := match plain case Some(p) => Ok(p) case None => Err(DecryptionFailed);
      }
      SecureWipe(wrapKey);
    }
    SecureWipe(secret);
  }

  /**
   On every exit each buffer that the call or the X3DH below it made is zero,
   but for the early throw of the initiator's key conversions.
   */
  method WrapKeyForRecipient(keyBytes: array<Byte>, bundle: Bundle, myIdentity: KeyPair, contextSalt: Bytes,
                             info: string, ekA: Bytes, iv: Bytes, fault: WrapFault)
    returns (r: Result<WrappedKey, CryptoError>)
    requires |ekA| == 32
    ensures r == WrapOutcome(keyBytes[..], ValueOf(bundle), myIdentity.privateKey[..], myIdentity.publicKey[..],
                             contextSalt, info, ekA, iv, fault)
    ensures keyBytes.Length != 32 || !InitiatorThrowsEarly(myIdentity.privateKey[..], ValueOf(bundle), Inner(fault)) ==>
              forall b: array<Byte> {:trigger b[..]} :: fresh(b) ==> IsZero(b[..])
  {
    if keyBytes.Length != 32 { return Err(InvalidLength); }
    var x3dh := InitiateX3DH(myIdentity, bundle, ekA, Inner(fault));
    if x3dh.Err? { return Err(x3dh.error); }
    var cipher := SealUnder(x3dh.value.sharedSecret, contextSalt, info, keyBytes[..], iv, fault);
    if cipher.Err? { return Err(cipher.error); }
    r := Ok(WrappedKey(cipher.value, iv, x3dh.value.ephemeralPublicKey, myIdentity.publicKey[..],
                       x3dh.value.usedOneTimePreKeyId, 1));
  }

  method UnwrapKeyForMe(w: WrappedKey, myIdentity: KeyPair, mySignedPreKey: KeyPair, myOneTimePreKey: Option<KeyPair>,
                        contextSalt: Bytes, info: string, fault: WrapFault)
    returns (r: Result<Bytes, CryptoError>)
    modifies if myOneTimePreKey.Some? then {myOneTimePreKey.value.privateKey} else {}
    ensures r == old(UnwrapOutcome(w, myIdentity.privateKey[..], mySignedPreKey.privateKey[..],
              if myOneTimePreKey.Some? then Some(myOneTimePreKey.value.privateKey[..]) else None,
              contextSalt, info, fault))
    ensures myOneTimePreKey.Some? ==>
              var otk := myOneTimePreKey.value.privateKey;
              if w.v == 1 && old(OtkConsumed(myIdentity.privateKey[..], mySignedPreKey.privateKey[..], otk[..],
                                             w.initiatorIdentityPublicKey, w.ephemeralPublicKey, Inner(fault)))
              then IsZero(otk[..]) else otk[..] == old(otk[..])
    ensures w.v != 1 || !RecipientThrowsEarly(myOneTimePreKey.Some?, old(myIdentity.privateKey[..]),
                                              w.initiatorIdentityPublicKey, Inner(fault)) ==>
              forall b: array<Byte> {:trigger b[..]} :: fresh(b) ==> IsZero(b[..])
  {
    if w.v != 1 { return Err(UnsupportedVersion); }
    var shared := CompleteX3DH(myIdentity, mySignedPreKey, myOneTimePreKey, w.initiatorIdentityPublicKey,
                               w.ephemeralPublicKey, Inner(fault));
    if shared.Err? { return Err(shared.error); }
    r := OpenUnder(shared.value, contextSalt, info, w.wrappedKey, w.iv, fault);
  }

  /** Wrapping or unwrapping is not interrupted. */
  ghost predicate Uninterrupted(fault: WrapFault) {
    fault.NoWrapFault? || (fault.InX3dh? && !Throws(fault.fault))
  }

  /**
   A key is wrapped exactly when it has 32 bytes, X3DH succeeds and nothing after
   it throws; an unsigned pre-key is refused as such. The envelope then names the
   sender, the ephemeral key and the one-time key it was made for.
   */
  lemma WrapExactly(key: Bytes, bundle: BundleValue, ikA: Bytes, ikAPub: Bytes, salt: Bytes, info: string, ekA: Bytes,
                    iv: Bytes, fault: WrapFault)
    requires |ekA| == 32
    ensures var r := WrapOutcome(key, bundle, ikA, ikAPub, salt, info, ekA, iv, fault);
            var x3dh := InitiateOutcome(ikA, bundle, ekA, Inner(fault));
            var signed := exists ikB :: bundle.identity == EdPublic(ikB) && bundle.signature == EdSign(ikB, bundle.spk);
            && (|key| != 32 ==> r == Err(InvalidLength))
            && (r == Err(VerificationFailed) <==> |key| == 32 && !signed)
            && (r.Ok? <==> |key| == 32 && x3dh.Ok? && (fault.NoWrapFault? || fault.InX3dh?))
            && (r.Ok? ==>
                  && signed && bundle.otk == Some(r.value.usedOneTimePreKeyId) && Uninterrupted(fault)
                  && r.value.initiatorIdentityPublicKey == ikAPub && r.value.ephemeralPublicKey == XPublic(ekA)
                  && r.value.iv == iv && r.value.v == 1
                  && r.value.wrappedKey == Sealed(Hkdf(x3dh.value, salt, info, 32), iv, key))
  {
    InitiateExactly(ikA, bundle, ekA, Inner(fault));
  }

  /**
   An envelope opens exactly in version 1, with 32-byte keys and a one-time key,
   uninterrupted, when it was sealed under the key that the recipient's side of
   X3DH yields for the sender it names.
   */
  lemma UnwrapExactly(w: WrappedKey, ikB: Bytes, spkB: Bytes, otkB: Option<Bytes>, salt: Bytes, info: string,
                      fault: WrapFault, plain: Bytes)
    ensures var r := UnwrapOutcome(w, ikB, spkB, otkB, salt, info, fault);
            && (r == Err(UnsupportedVersion) <==> w.v != 1)
            && (r == Ok(plain) <==>
                  && w.v == 1 && otkB.Some? && |ikB| == |spkB| == |otkB.value| == 32
                  && |w.initiatorIdentityPublicKey| == |w.ephemeralPublicKey| == 32
                  && (Uninterrupted(fault) || fault.EncryptFault?)
                  && var secret := RecipientSecret(ikB, spkB, otkB.value, w.initiatorIdentityPublicKey,
                                                   w.ephemeralPublicKey);
                     w.wrappedKey == Sealed(Hkdf(secret, salt, info, 32), w.iv, plain))
            && (r == Err(DecryptionFailed) ==>
                  && otkB.Some?
                  && var secret := RecipientSecret(ikB, spkB, otkB.value, w.initiatorIdentityPublicKey,
                                                   w.ephemeralPublicKey);
                     forall p :: w.wrappedKey != Sealed(Hkdf(secret, salt, info, 32), w.iv, p))
  {
    CompleteExactly(ikB, spkB, otkB, w.initiatorIdentityPublicKey, w.ephemeralPublicKey, Inner(fault));
  }

  /** The bundle a recipient with these private keys publishes. */
  function PublishedBundle(ikB: Bytes, spkB: Bytes, otkB: Bytes): BundleValue {
    BundleValue(EdPublic(ikB), XPublic(spkB), EdSign(ikB, XPublic(spkB)), Some(XPublic(otkB)))
  }

  lemma PublishedBundleVerifies(ikB: Bytes, spkB: Bytes, otkB: Bytes)
    ensures var b := PublishedBundle(ikB, spkB, otkB); EdVerify(b.identity, b.spk, b.signature)
  {
    assert EdSign(ikB, XPublic(spkB))[0] == EdSigOut(ikB, XPublic(spkB), 0);
  }

  /**
   Unwrapping what was wrapped for a published bundle gives the key back exactly
   when the recipient's private keys belong to the bundle and both sides use the
   same info and salts that make the same HMAC key; otherwise decryption fails.
   */
  lemma UnwrapInvertsWrap(key: Bytes, ikA: Bytes, ekA: Bytes, ikB: Bytes, spkB: Bytes, otkB: Bytes,
                          contextSalt: Bytes, info: string, iv: Bytes,
                          ikB': Bytes, spkB': Bytes, otkB': Bytes, contextSalt': Bytes, info': string)
    requires |key| == |ikA| == |ekA| == |ikB'| == |spkB'| == |otkB'| == 32
    ensures var wrapped := WrapOutcome(key, PublishedBundle(ikB, spkB, otkB), ikA, EdPublic(ikA), contextSalt, info,
                                       ekA, iv, NoWrapFault);
            && wrapped.Ok? && wrapped.value.usedOneTimePreKeyId == XPublic(otkB)
            && UnwrapOutcome(wrapped.value, ikB', spkB', Some(otkB'), contextSalt', info', NoWrapFault)
               == if SamePublic(ikB, spkB, otkB, ikB', spkB', otkB')
                   && SaltKey(contextSalt) == SaltKey(contextSalt') && info == info'
                  then Ok(key) else Err(DecryptionFailed)
  {
    PublishedBundleVerifies(ikB, spkB, otkB);
    SidesAgreeExactly(ikA, ekA, ikB, spkB, otkB, ikB', spkB', otkB');
    var b := PublishedBundle(ikB, spkB, otkB);
    NoThrow(InitiatorPrivs(ikA, ekA), InitiatorPubs(b));
    NoThrow(RecipientPrivs(ikB', spkB', otkB'), RecipientPubs(EdPublic(ikA), XPublic(ekA)));
    HkdfInjective(InitiatorSecret(ikA, ekA, b.identity, b.spk, XPublic(otkB)), contextSalt, info,
                  RecipientSecret(ikB', spkB', otkB', EdPublic(ikA), XPublic(ekA)), contextSalt', info', 32);
  }

  lemma NoThrow(privs: seq<Bytes>, pubs: seq<Bytes>)
    requires |privs| == |pubs| == 4
    requires forall k :: 0 <= k < 4 ==> |privs[k]| == 32 && |pubs[k]| == 32
    ensures DhsReturned(privs, pubs, X3dh.NoFault) == 4 && TryError(privs, pubs, X3dh.NoFault).None?
  {
  }

  /**
   A one-time key works once: after unwrapping, the zeroed buffer opens the same
   envelope no more, unless the key had the public key of the zero key.
   */
  lemma OneTimeKeyWorksOnce(key: Bytes, ikA: Bytes, ekA: Bytes, ikB: Bytes, spkB: Bytes, otkB: Bytes,
                            contextSalt: Bytes, info: string, iv: Bytes, after: Bytes)
    requires |key| == |ikA| == |ekA| == |ikB| == |spkB| == |otkB| == |after| == 32
    requires IsZero(after)
    ensures var w := WrapOutcome(key, PublishedBundle(ikB, spkB, otkB), ikA, EdPublic(ikA), contextSalt, info,
                                 ekA, iv, NoWrapFault);
            && w.Ok?
            && UnwrapOutcome(w.value, ikB, spkB, Some(otkB), contextSalt, info, NoWrapFault) == Ok(key)
            && OtkConsumed(ikB, spkB, otkB, w.value.initiatorIdentityPublicKey, w.value.ephemeralPublicKey,
               X3dh.NoFault)
            && UnwrapOutcome(w.value, ikB, spkB, Some(after), contextSalt, info, NoWrapFault)
               == if XPublic(otkB) == XPublic(Zeros(32)) then Ok(key) else Err(DecryptionFailed)
  {
    assert after == Zeros(32);
    UnwrapInvertsWrap(key, ikA, ekA, ikB, spkB, otkB, contextSalt, info, iv, ikB, spkB, otkB, contextSalt, info);
    UnwrapInvertsWrap(key, ikA, ekA, ikB, spkB, otkB, contextSalt, info, iv, ikB, spkB, after, contextSalt, info);
    NoThrow(RecipientPrivs(ikB, spkB, otkB), RecipientPubs(EdPublic(ikA), XPublic(ekA)));
  }
}
