/** Forward secrecy at rotation points: later roots do not lead back to earlier epochs. */
module ForwardSecrecy {
  import opened Basics
  import opened Primitives
  import opened Decimals
  import opened ChannelSpec
  import opened ChannelTheorems
  import opened ChannelDelivery

  /**
   The bytes that belong to the epochs before rotation n + 1 of the lineage of an
   origin: its first root, and whatever HKDF makes of the roots up to epoch n,
   message keys included, except the root that rotation n + 1 hands on.
   */
  ghost predicate Earlier(o: Origin, n: nat, b: Byte) {
    && b.HkdfOut?
    && (|| (b.ikm == o.secret && b.saltKey == SaltKey(o.salt) && b.info == ROOT_INFO)
        || (exists m: nat :: m <= n && b.ikm == RootAt(o.secret, o.salt, m) && !(m == n && IsHandedOn(n, b))))
  }

  predicate IsHandedOn(n: nat, b: Byte) {
    b.HkdfOut? && b.saltKey == SaltKey(ROTATE_SALT) && b.info == "epoch:" + Decimal(n + 1)
  }

  lemma RootBytes(o: Origin, m: nat, b: Byte)
    requires b in RootAt(o.secret, o.salt, m)
    ensures b.HkdfOut?
    ensures m == 0 ==> b.ikm == o.secret && b.saltKey == SaltKey(o.salt) && b.info == ROOT_INFO
    ensures m > 0 ==> b.ikm == RootAt(o.secret, o.salt, m - 1) && IsHandedOn(m - 1, b)
  {
  }

  /** The roots up to epoch n are earlier ones. */
  lemma RootIsEarlier(o: Origin, n: nat, m: nat, b: Byte)
    requires m <= n && b in RootAt(o.secret, o.salt, m)
    ensures Earlier(o, n, b)
  {
    RootBytes(o, m, b);
  }

  /** So are all message keys of these epochs. */
  lemma MessageKeyIsEarlier(o: Origin, n: nat, m: nat, epoch: int, sequence: int, b: Byte)
    requires m <= n && b in MessageKey(RootAt(o.secret, o.salt, m), epoch, sequence)
    ensures Earlier(o, n, b)
  {
    assert b.ikm == RootAt(o.secret, o.salt, m) && b.info == MSG_INFO;
    assert MSG_INFO[0] == 'm' && ("epoch:" + Decimal(n + 1))[0] == 'e';
  }

  /** The root of epoch n + 1 is not. */
  lemma NextRootIsNotEarlier(o: Origin, n: nat, b: Byte)
    requires b in RootAt(o.secret, o.salt, n + 1)
    ensures !Earlier(o, n, b)
  {
    RootBytes(o, n + 1, b);
    assert ROOT_INFO[0] == 'm' && ("epoch:" + Decimal(n + 1))[0] == 'e';
    forall m: nat | m <= n && b.ikm == RootAt(o.secret, o.salt, m) ensures m == n {
      RootInjective(o.secret, o.salt, n, o.secret, o.salt, m);
    }
  }

  /** How knowledge of bytes grows. */
  datatype Insight =
    | Obtain(b: Byte)                                           // from outside, in whatever way
    | Derive(ikm: Bytes, salt: Bytes, info: string, length: nat)  // by HKDF from known bytes

  predicate Enabled(known: set<Byte>, i: Insight) {
    i.Derive? ==> forall b :: b in i.ikm ==> b in known
  }

  ghost function Learn(known: set<Byte>, i: Insight): set<Byte> {
    match i
    case Obtain(b) => known + {b}
    case Derive(ikm, salt, info, length) =>
      if Enabled(known, i) then known + Elements(Hkdf(ikm, salt, info, length)) else known
  }

  ghost function LearnAll(known: set<Byte>, insights: seq<Insight>): set<Byte> {
    if insights == [] then known
    else Learn(LearnAll(known, insights[..|insights| - 1]), insights[|insights| - 1])
  }

  /** Nothing of the earlier epochs is known, or the secret the channel was established from is. */
  ghost predicate Secure(o: Origin, n: nat, known: set<Byte>) {
    (exists b :: b in known && Earlier(o, n, b)) ==> forall b :: b in o.secret ==> b in known
  }

  lemma LearnKeepsSecure(o: Origin, n: nat, known: set<Byte>, i: Insight)
    requires Secure(o, n, known) && (i.Obtain? ==> !Earlier(o, n, i.b))
    ensures Secure(o, n, Learn(known, i))
  {
    if i.Derive? && Enabled(known, i) {
      forall b | b in Hkdf(i.ikm, i.salt, i.info, i.length) && Earlier(o, n, b)
        ensures forall s :: s in o.secret ==> s in known
      {
        assert b.ikm == i.ikm;
        if i.ikm != o.secret {
          var m: nat :| m <= n && b.ikm == RootAt(o.secret, o.salt, m);
          var root := RootAt(o.secret, o.salt, m);
          assert root[0] in root;
          RootIsEarlier(o, n, m, root[0]);
          assert root[0] in known;
        }
      }
    }
  }

  /**
   Whoever is given anything but bytes of earlier epochs, at any time, and applies
   HKDF to what is known in any way, comes to know a byte of an earlier root or
   message key only with the whole secret that the channel was established from.
   */
  lemma {:induction false} EarlierEpochsStaySecret(o: Origin, n: nat, known: set<Byte>, insights: seq<Insight>)
    requires Secure(o, n, known)
    requires forall k :: 0 <= k < |insights| && insights[k].Obtain? ==> !Earlier(o, n, insights[k].b)
    ensures Secure(o, n, LearnAll(known, insights))
  {
    if insights != [] {
      var k := |insights| - 1;
      EarlierEpochsStaySecret(o, n, known, insights[..k]);
      LearnKeepsSecure(o, n, LearnAll(known, insights[..k]), insights[k]);
    }
  }

  /** In every run: taking the root of a live channel that has been rotated does not open its earlier epochs. */
  lemma CompromisedRoot(ops: seq<Op>, h: nat, insights: seq<Insight>)
    requires LiveAt(ops, h) && After([], ops)[h].epoch > 0
    requires var (o, n) := (OriginsAfter(ops)[h], After([], ops)[h].epoch - 1);
             forall k :: 0 <= k < |insights| && insights[k].Obtain? ==> !Earlier(o, n, insights[k].b)
    ensures var (o, n) := (OriginsAfter(ops)[h], After([], ops)[h].epoch - 1);
            Secure(o, n, LearnAll(Elements(After([], ops)[h].life.root), insights))
  {
    RunSafety(ops);
    assert Sound(After([], ops), OriginsAfter(ops), h);
    var (o, n) := (OriginsAfter(ops)[h], After([], ops)[h].epoch - 1);
    var known := Elements(After([], ops)[h].life.root);
    forall b | b in known ensures !Earlier(o, n, b) {
      NextRootIsNotEarlier(o, n, b);
    }
    EarlierEpochsStaySecret(o, n, known, insights);
  }
}
