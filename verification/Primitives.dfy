/**
 The cryptographic primitives as a free term algebra, and buffers. A buffer holds symbolic
 bytes: a byte is a literal, or byte i of the output of one application of a
 primitive to its whole input. Two outputs are equal only when the inputs are,
 except where a primitive has a law of its own (X25519 commutes).
 */
module Primitives {
  import opened Basics

  type Octet = v: int | 0 <= v < 256

  datatype Byte =
    | Lit(v: Octet)
    | HkdfOut(ikm: seq<Byte>, saltKey: seq<Byte>, info: string, i: nat)
    | ShaOut(data: seq<Byte>, i: nat)
    | HmacOut(key: seq<Byte>, data: seq<Byte>, i: nat)
    | EdPubOut(priv: seq<Byte>, i: nat)
    | EdSigOut(priv: seq<Byte>, msg: seq<Byte>, i: nat)
    | MontPrivOut(edPriv: seq<Byte>, i: nat)
    | MontPubOut(edPub: seq<Byte>, i: nat)
    | XPubOut(priv: seq<Byte>, i: nat)
    | SharedOut(pair: set<seq<Byte>>, i: nat)
    | ForeignSharedOut(priv: seq<Byte>, pub: seq<Byte>, i: nat)

  type Bytes = seq<Byte>

  /** Failures of the crypto package. */
  datatype CryptoError =
    | InvalidArgument | InvalidKey | InvalidLength | DecryptionFailed | ReplayDetected
    | VerificationFailed | UnsupportedVersion
    | PlatformFailure  // a call into WebCrypto, the curve library or the runtime threw

  /** AES-256-GCM output: what encryption produced, or bytes nobody encrypted. */
  datatype Cipher =
    | Sealed(key: Bytes, iv: Bytes, plain: Bytes)
    | Garbage(bytes: Bytes)

  /** Ideal AEAD: opens exactly what was sealed under this key and this iv. */
  function Open(key: Bytes, c: Cipher, iv: Bytes): Option<Bytes> {
    if c.Sealed? && c.key == key && c.iv == iv then Some(c.plain) else None
  }

  /**
   The HMAC-SHA256 key a salt amounts to, section 2 of RFC 2104: longer than a
   block it is hashed, and then it is filled with zeros to a block of 64 bytes.
   */
  function SaltKey(salt: Bytes): (key: Bytes)
    ensures |key| == 64
  {
    if |salt| > 64 then Sha256(salt) + Zeros(32) else salt + Zeros(64 - |salt|)
  }

  /** HKDF-SHA256, section 2 of RFC 5869; output byte i does not depend on the requested length. */
  function Hkdf(ikm: Bytes, salt: Bytes, info: string, length: nat): (okm: Bytes)
    ensures |okm| == length
  {
    seq(length, i requires 0 <= i => HkdfOut(ikm, SaltKey(salt), info, i))
  }

  lemma HkdfInjective(ikm: Bytes, salt: Bytes, info: string, ikm': Bytes, salt': Bytes, info': string, length: nat)
    requires length > 0
    ensures Hkdf(ikm, salt, info, length) == Hkdf(ikm', salt', info', length)
            <==> ikm == ikm' && SaltKey(salt) == SaltKey(salt') && info == info'
  {
    var a, b := Hkdf(ikm, salt, info, length), Hkdf(ikm', salt', info', length);
    assert a[0] == HkdfOut(ikm, SaltKey(salt), info, 0) && b[0] == HkdfOut(ikm', SaltKey(salt'), info', 0);
  }

  /** Salts of one length up to a block are told apart. */
  lemma SaltKeyInjective(salt: Bytes, salt': Bytes)
    requires |salt| == |salt'| <= 64
    ensures SaltKey(salt) == SaltKey(salt') <==> salt == salt'
  {
    assert SaltKey(salt)[..|salt|] == salt && SaltKey(salt')[..|salt|] == salt';
  }

  /** Zeros at the end of a short salt make no difference. */
  lemma SaltPadding(salt: Bytes, n: nat)
    requires |salt| + n <= 64
    ensures SaltKey(salt + Zeros(n)) == SaltKey(salt)
  {
    assert salt + Zeros(n) + Zeros(64 - |salt| - n) == salt + Zeros(64 - |salt|);
  }

  function Sha256(data: Bytes): (digest: Bytes)
    ensures |digest| == 32
  {
    seq(32, i requires 0 <= i => ShaOut(data, i))
  }

  /** DataView.setUint32, big-endian: the argument modulo 2^32. */
  function U32(x: int): (b: Bytes)
    ensures |b| == 4
  {
    [Lit(x / 256 / 256 / 256 % 256), Lit(x / 256 / 256 % 256), Lit(x / 256 % 256), Lit(x % 256)]
  }

  /** Two integers encode alike exactly when they agree modulo 2^32. */
  lemma U32Injective(x: int, y: int)
    ensures U32(x) == U32(y) <==> x % 0x1_0000_0000 == y % 0x1_0000_0000
  {
    var a, b := U32(x), U32(y);
    if a == b {
      assert a[0] == b[0] && a[1] == b[1] && a[2] == b[2] && a[3] == b[3];
      U32Value(x);
      U32Value(y);
    } else if x % 0x1_0000_0000 == y % 0x1_0000_0000 {
      var t := x / 0x1_0000_0000 - y / 0x1_0000_0000;
      SameOctet(x, y, 0x100_0000 * t);
      SameOctet(x / 256, y / 256, 0x1_0000 * t);
      SameOctet(x / 256 / 256, y / 256 / 256, 0x100 * t);
      SameOctet(x / 256 / 256 / 256, y / 256 / 256 / 256, t);
    }
  }

  lemma SameOctet(x: int, y: int, m: int)
    requires x == y + 256 * m
    ensures x / 256 == y / 256 + m && x % 256 == y % 256
  {
  }

  lemma U32Value(x: int)
    ensures x % 0x1_0000_0000
         == 0x100_0000 * (x / 256 / 256 / 256 % 256) + 0x1_0000 * (x / 256 / 256 % 256) + 0x100 * (x / 256 % 256)
             + x % 256
  {
  }

  function HmacSha512(key: Bytes, data: Bytes): (mac: Bytes)
    ensures |mac| == 64
  {
    seq(64, i requires 0 <= i => HmacOut(key, data, i))
  }

  // ----- Ed25519 (RFC 8032) and X25519 (RFC 7748), ideal -----

  function EdPublic(priv: Bytes): (pub: Bytes)
    ensures |pub| == 32
  {
    seq(32, i requires 0 <= i => EdPubOut(priv, i))
  }

  function EdSign(priv: Bytes, msg: Bytes): (sig: Bytes)
    ensures |sig| == 64
  {
    seq(64, i requires 0 <= i => EdSigOut(priv, msg, i))
  }

  predicate EdVerify(pub: Bytes, msg: Bytes, sig: Bytes) {
    |sig| == 64 && sig[0].EdSigOut? && sig == EdSign(sig[0].priv, msg) && pub == EdPublic(sig[0].priv)
  }

  /** A signature verifies exactly when the holder of the private key made it. */
  lemma EdVerifyExactly(pub: Bytes, msg: Bytes, sig: Bytes)
    ensures EdVerify(pub, msg, sig) <==> exists priv :: pub == EdPublic(priv) && sig == EdSign(priv, msg)
  {
    forall priv | pub == EdPublic(priv) && sig == EdSign(priv, msg) ensures EdVerify(pub, msg, sig) {
      assert sig[0] == EdSigOut(priv, msg, 0);
    }
  }

  /** The X25519 private key of an Ed25519 private key. */
  function MontPriv(edPriv: Bytes): (priv: Bytes)
    ensures |priv| == 32
  {
    seq(32, i requires 0 <= i => MontPrivOut(edPriv, i))
  }

  function XPublic(priv: Bytes): (pub: Bytes)
    ensures |pub| == 32
  {
    seq(32, i requires 0 <= i => XPubOut(priv, i))
  }

  /** The X25519 public key of an Ed25519 public key: that of the converted private key. */
  function MontPub(edPub: Bytes): (pub: Bytes)
    ensures |pub| == 32
  {
    if |edPub| == 32 && edPub[0].EdPubOut? && edPub == EdPublic(edPub[0].priv)
    then XPublic(MontPriv(edPub[0].priv))
    else seq(32, i requires 0 <= i => MontPubOut(edPub, i))
  }

  /** Diffie-Hellman: with a real public key, the output depends on the unordered pair of private keys. */
  function X25519(priv: Bytes, pub: Bytes): (shared: Bytes)
    ensures |shared| == 32
  {
    if |pub| == 32 && pub[0].XPubOut? && pub == XPublic(pub[0].priv)
    then seq(32, i requires 0 <= i => SharedOut({priv, pub[0].priv}, i))
    else seq(32, i requires 0 <= i => ForeignSharedOut(priv, pub, i))
  }

  lemma MontPubOfEdPublic(edPriv: Bytes)
    ensures MontPub(EdPublic(edPriv)) == XPublic(MontPriv(edPriv))
  {
    assert EdPublic(edPriv)[0] == EdPubOut(edPriv, 0);
  }

  lemma X25519Shared(a: Bytes, b: Bytes)
    ensures X25519(a, XPublic(b))[0] == SharedOut({a, b}, 0)
    ensures X25519(a, XPublic(b)) == X25519(b, XPublic(a))
  {
    assert XPublic(b)[0] == XPubOut(b, 0) && XPublic(a)[0] == XPubOut(a, 0);
    assert {a, b} == {b, a};
  }

  lemma XPublicInjective(a: Bytes, b: Bytes)
    ensures XPublic(a) == XPublic(b) <==> a == b
  {
    assert XPublic(a)[0] == XPubOut(a, 0) && XPublic(b)[0] == XPubOut(b, 0);
  }

  function Zeros(n: nat): (z: Bytes)
    ensures |z| == n
  {
    seq(n, _ => Lit(0))
  }

  ghost predicate IsZero(b: Bytes) {
    forall i :: 0 <= i < |b| ==> b[i] == Lit(0)
  }

  /** secureWipe: a fill with noise, then a fill with zeros. It makes no buffer of its own. */
  method SecureWipe(a: array<Byte>)
    modifies a
    ensures IsZero(a[..])
    ensures forall b: array<Byte> {:trigger b[..]} :: !fresh(b)
  {
    if a.Length == 0 { return; }
    var noise: Bytes :| |noise| == a.Length by {
      assert |Zeros(a.Length)| == a.Length;
    }
    forall i | 0 <= i < a.Length { a[i] := noise[i]; }
    forall i | 0 <= i < a.Length { a[i] := Lit(0); }
  }

  /** One new buffer holding the given bytes. */
  method Alloc(content: Bytes) returns (a: array<Byte>)
    ensures fresh(a) && a[..] == content
    ensures forall b: array<Byte> {:trigger b[..]} :: fresh(b) ==> b == a
  {
    a := new Byte[|content|](i requires 0 <= i < |content| => content[i]);
    assert a[..] == content;
  }
}
