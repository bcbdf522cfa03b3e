/** Peer-to-peer shared secrets: the HKDF salt binds both public keys, in sorted order. */
module PeerSecret {
  import opened Basics
  import opened Errors
  import opened Primitives
  import opened DerivationPaths

  type PublicKey = k: seq<Octet> | |k| == 32 witness seq(32, _ => 0)

  /** The sort comparator: the difference at the first position where the keys differ. */
  function Compare(a: seq<Octet>, b: seq<Octet>): int
    requires |a| == |b|
  {
    if a == [] then 0
    else if a[0] != b[0] then a[0] - b[0]
    else Compare(a[1..], b[1..])
  }

  lemma {:induction false} CompareTotal(a: seq<Octet>, b: seq<Octet>)
    requires |a| == |b|
    ensures Compare(b, a) == -Compare(a, b)
    ensures Compare(a, b) == 0 <==> a == b
  {
    if a != [] && a[0] == b[0] {
      CompareTotal(a[1..], b[1..]);
      assert a == [a[0]] + a[1..] && b == [b[0]] + b[1..];
    }
  }

  method CompareKeys(a: array<Octet>, b: array<Octet>) returns (c: int)
    requires a.Length == b.Length == 32
    ensures c == Compare(a[..], b[..])
  {
    assert a[0..] == a[..] && b[0..] == b[..];
    for i := 0 to 32
      invariant Compare(a[i..], b[i..]) == Compare(a[..], b[..])
    {
      var x: int, y: int := a[i], b[i];
      if x != y { return x - y; }
      assert a[i..][1..] == a[i + 1..] && b[i..][1..] == b[i + 1..];
    }
    return 0;
  }

  function PeerSalt(mine: PublicKey, other: PublicKey): (salt: seq<Octet>)
    ensures |salt| == 64
  {
    if Compare(mine, other) <= 0 then mine + other else other + mine
  }

  /** Sorts the two keys and copies them into one 64-byte buffer. */
  method BindPeers(mine: array<Octet>, other: array<Octet>) returns (bound: array<Octet>)
    requires mine.Length == other.Length == 32
    ensures fresh(bound) && bound[..] == PeerSalt(mine[..], other[..])
  {
    var c := CompareKeys(mine, other);
    var first, second := if c <= 0 then mine else other, if c <= 0 then other else mine;
    ghost var salt := PeerSalt(mine[..], other[..]);
    assert salt == first[..] + second[..];
    bound := new Octet[64](_ => 0);
    forall i | 0 <= i < 32 { bound[i] := first[i]; }
    forall i | 0 <= i < 32 { bound[i + 32] := second[i]; }
    assert bound[..32] == first[..] && bound[32..] == second[..];
    assert bound[..] == bound[..32] + bound[32..];
    assert mine[..] == old(mine[..]) && other[..] == old(other[..]);
  }

  /** The salt does not depend on which peer computes it, and determines the unordered pair of keys. */
  lemma SaltIsUnorderedPair(a: PublicKey, b: PublicKey, c: PublicKey, d: PublicKey)
    ensures PeerSalt(a, b) == PeerSalt(c, d) <==> (a == c && b == d) || (a == d && b == c)
  {
    CompareTotal(a, b);
    CompareTotal(c, d);
    var s, t := PeerSalt(a, b), PeerSalt(c, d);
    assert s == s[..32] + s[32..] && t == t[..32] + t[32..];
    assert (s[..32] == a && s[32..] == b) || (s[..32] == b && s[32..] == a);
    assert (t[..32] == c && t[32..] == d) || (t[..32] == d && t[32..] == c);
  }

  /** X25519 between converted Ed25519 keys; Diffie-Hellman commutes (section 6.1 of RFC 7748). */
  datatype Ecdh = Ecdh(publicKey: Bytes -> PublicKey, raw: (Bytes, PublicKey) -> Bytes)

  ghost predicate Commutes(dh: Ecdh) {
    forall a: Bytes, b: Bytes :: dh.raw(a, dh.publicKey(b)) == dh.raw(b, dh.publicKey(a))
  }

  function Literals(s: seq<Octet>): (b: Bytes)
    ensures |b| == |s|
  {
    seq(|s|, i requires 0 <= i < |s| => Lit(s[i]))
  }

  lemma LiteralsInjective(s: seq<Octet>, t: seq<Octet>)
    ensures Literals(s) == Literals(t) <==> s == t
  {
    if Literals(s) == Literals(t) {
      assert |s| == |t|;
      forall i | 0 <= i < |s| ensures s[i] == t[i] {
        assert Literals(s)[i] == Literals(t)[i];
      }
    }
  }

  function DeriveSharedSecret(dh: Ecdh, myKey: Bytes, other: seq<Octet>): Result<Bytes, Error> {
    if |other| != 32 then Err(MALFORMED_ERROR)
    else Ok(Hkdf(dh.raw(myKey, other), Literals(PeerSalt(dh.publicKey(myKey), other)), Info(P2pChannel), 32))
  }

  /** Only the length of the other key can be wrong. */
  lemma SharedSecretExactly(dh: Ecdh, myKey: Bytes, other: seq<Octet>)
    ensures DeriveSharedSecret(dh, myKey, other).Ok? <==> |other| == 32
    ensures |other| != 32 ==> DeriveSharedSecret(dh, myKey, other) == Err(MALFORMED_ERROR)
    ensures |other| == 32 ==> |DeriveSharedSecret(dh, myKey, other).value| == 32
  {
  }

  /** Both peers derive the same secret. */
  lemma PeersAgree(dh: Ecdh, a: Bytes, b: Bytes)
    requires Commutes(dh)
    ensures DeriveSharedSecret(dh, a, dh.publicKey(b)) == DeriveSharedSecret(dh, b, dh.publicKey(a))
    ensures DeriveSharedSecret(dh, a, dh.publicKey(b)).Ok?
  {
    SaltIsUnorderedPair(dh.publicKey(a), dh.publicKey(b), dh.publicKey(b), dh.publicKey(a));
  }

  /**
   Two shared secrets are equal exactly when the Diffie-Hellman outputs are and
   both were derived for the same unordered pair of public keys.
   */
  lemma SecretBindsPeers(dh: Ecdh, a: Bytes, b: PublicKey, c: Bytes, d: PublicKey)
    ensures DeriveSharedSecret(dh, a, b) == DeriveSharedSecret(dh, c, d)
       <==> && dh.raw(a, b) == dh.raw(c, d)
            && var x, y := dh.publicKey(a), dh.publicKey(c); (x == y && b == d) || (x == d && b == y)
  {
    var x, y := dh.publicKey(a), dh.publicKey(c);
    HkdfInjective(dh.raw(a, b), Literals(PeerSalt(x, b)), Info(P2pChannel),
                  dh.raw(c, d), Literals(PeerSalt(y, d)), Info(P2pChannel), 32);
    SaltKeyInjective(Literals(PeerSalt(x, b)), Literals(PeerSalt(y, d)));
    LiteralsInjective(PeerSalt(x, b), PeerSalt(y, d));
    SaltIsUnorderedPair(x, b, y, d);
  }
}
