/** Safety, replay protection and agreement of channels, over every run of calls. */
module ChannelTheorems {
  import opened Basics
  import opened Primitives
  import opened Decimals
  import opened ChannelSpec

  // ----- Keys -----

  /** A message key determines the root, and epoch and sequence modulo 2^32. */
  lemma MessageKeyInjective(root: Bytes, e: int, s: int, root': Bytes, e': int, s': int)
    ensures MessageKey(root, e, s) == MessageKey(root', e', s')
       <==> root == root' && e % 0x1_0000_0000 == e' % 0x1_0000_0000 && s % 0x1_0000_0000 == s' % 0x1_0000_0000
  {
    HkdfInjective(root, U32(e) + U32(s), MSG_INFO, root', U32(e') + U32(s'), MSG_INFO, 32);
    SaltKeyInjective(U32(e) + U32(s), U32(e') + U32(s'));
    U32Injective(e, e');
    U32Injective(s, s');
    var a, b := U32(e) + U32(s), U32(e') + U32(s');
    assert a[..4] == U32(e) && a[4..] == U32(s) && b[..4] == U32(e') && b[4..] == U32(s');
  }

  /** The root of a channel established from secret and salt, after some rotations. */
  function RootAt(secret: Bytes, salt: Bytes, rotations: nat): (root: Bytes)
    ensures |root| == 32
  {
    if rotations == 0 then FirstRoot(secret, salt)
    else RotatedRoot(RootAt(secret, salt, rotations - 1), rotations)
  }

  /**
   Roots of different epochs are different, and so are roots of channels with
   different secrets or with salts that make different HMAC keys.
   */
  lemma {:induction false} RootInjective(secret: Bytes, salt: Bytes, n: nat, secret': Bytes, salt': Bytes, n': nat)
    ensures RootAt(secret, salt, n) == RootAt(secret', salt', n')
            <==> secret == secret' && SaltKey(salt) == SaltKey(salt') && n == n'
  {
    if n == 0 && n' == 0 {
      HkdfInjective(secret, salt, ROOT_INFO, secret', salt', ROOT_INFO, 32);
    } else if n == 0 {
      HkdfInjective(secret, salt, ROOT_INFO, RootAt(secret', salt', n' - 1), ROTATE_SALT, "epoch:" + Decimal(n'), 32);
      assert ROOT_INFO[0] != ("epoch:" + Decimal(n'))[0];
    } else if n' == 0 {
      HkdfInjective(RootAt(secret, salt, n - 1), ROTATE_SALT, "epoch:" + Decimal(n), secret', salt', ROOT_INFO, 32);
      assert ROOT_INFO[0] != ("epoch:" + Decimal(n))[0];
    } else {
      RootInjective(secret, salt, n - 1, secret', salt', n' - 1);
      HkdfInjective(RootAt(secret, salt, n - 1), ROTATE_SALT, "epoch:" + Decimal(n),
                    RootAt(secret', salt', n' - 1), ROTATE_SALT, "epoch:" + Decimal(n'), 32);
    }
  }

  /** A channel id determines the (32-byte) secret and the salt it was established from. */
  lemma ChannelIdInjective(secret: Bytes, salt: Bytes, secret': Bytes, salt': Bytes)
    requires |secret| == |secret'| == 32
    ensures ChannelIdOf(secret, salt) == ChannelIdOf(secret', salt') <==> secret == secret' && salt == salt'
  {
    assert Sha256(secret + salt)[0] == ShaOut(secret + salt, 0);
    assert Sha256(secret' + salt')[0] == ShaOut(secret' + salt', 0);
    if ChannelIdOf(secret, salt) == ChannelIdOf(secret', salt') {
      assert ChannelIdOf(secret, salt)[0] == ChannelIdOf(secret', salt')[0];
      assert (secret + salt)[..32] == secret && (secret + salt)[32..] == salt;
      assert (secret' + salt')[..32] == secret' && (secret' + salt')[32..] == salt';
    }
  }

  // ----- Safety over runs -----

  /** What the lineage of a handle was established from, and in which role. */
  datatype Origin = Origin(secret: Bytes, salt: Bytes, role: Role)

  /** Origins that lead to the same roots: salts count up to their HMAC key. */
  predicate SameRoots(o: Origin, o': Origin) {
    o.secret == o'.secret && SaltKey(o.salt) == SaltKey(o'.salt)
  }

  ghost predicate Sound(w: World, origins: seq<Origin>, h: nat)
    requires h < |w| == |origins|
  {
    && |origins[h].secret| == 32
    && w[h].channelId == ChannelIdOf(origins[h].secret, origins[h].salt)
    && w[h].role == origins[h].role
    && (w[h].life.Live? ==>
          && w[h].life.root == RootAt(origins[h].secret, origins[h].salt, w[h].epoch)
          && Distinct(w[h].life.window)
          && |w[h].life.window| <= REPLAY_WINDOW_SIZE)
  }

  ghost predicate SameLine(w: World, origins: seq<Origin>, i: nat, j: nat)
    requires i < |w| == |origins| && j < |w|
  {
    && w[i].channelId == w[j].channelId
    && w[i].role == w[j].role
    && origins[i] == origins[j]
  }

  /** Handles of one lineage: all but the newest are dead, and epochs increase. */
  ghost predicate Ordered(w: World, origins: seq<Origin>, i: nat, j: nat)
    requires i < j < |w| == |origins|
  {
    w[i].lineage == w[j].lineage ==> SameLine(w, origins, i, j) && w[i].life.Dead? && w[i].epoch < w[j].epoch
  }

  ghost predicate Safe(w: World, origins: seq<Origin>) {
    && |w| == |origins|
    && (forall h: nat :: h < |w| ==> Sound(w, origins, h) && w[h].lineage <= h)
    && (forall i: nat, j: nat :: i < j < |w| ==> Ordered(w, origins, i, j))
  }

  /** The origins after one more call: a created channel has its own, or its predecessor's. */
  function OriginsStep(w: World, origins: seq<Origin>, op: Op): seq<Origin>
    requires |w| == |origins|
  {
    if !Step(w, op).1.Created? then origins
    else match op
      case Establish(secret, salt, role, _) => origins + [Origin(secret, salt, role)]
      case Rotate(h, _) => if 0 <= h < |w| then origins + [origins[h]] else origins
      case _ => origins
  }

  lemma StepKeepsSafe(w: World, origins: seq<Origin>, op: Op)
    requires Safe(w, origins)
    ensures Safe(Step(w, op).0, OriginsStep(w, origins, op))
  {
    match op
    case Establish(secret, salt, role, fault) =>
      EstablishKeepsSafe(w, origins, secret, salt, role, fault);
    case Rotate(h, fault) =>
      RotateKeepsSafe(w, origins, h, fault);
    case Decrypt(h, msg, fault) =>
      LivesKeepSafe(w, origins, Step(w, op).0);
    case Destroy(h) =>
      LivesKeepSafe(w, origins, Step(w, op).0);
    case Encrypt(_, _, _, _, _) =>
  }

  /** A call that creates nothing only kills channels or moves windows. */
  lemma LivesKeepSafe(w: World, origins: seq<Origin>, w': World)
    requires Safe(w, origins) && |w'| == |w|
    requires forall k: nat :: k < |w| ==> w'[k] == w[k].(life := w'[k].life)
    requires forall k: nat :: k < |w| && w'[k].life.Live? ==>
               && w[k].life.Live? && w'[k].life.root == w[k].life.root
               && (Sound(w, origins, k) ==> Distinct(w'[k].life.window) && |w'[k].life.window| <= REPLAY_WINDOW_SIZE)
    ensures Safe(w', origins)
  {
    forall k: nat | k < |w| ensures Sound(w', origins, k) && w'[k].lineage <= k {
      assert Sound(w, origins, k);
    }
    forall i: nat, j: nat | i < j < |w| ensures Ordered(w', origins, i, j) {
      assert Ordered(w, origins, i, j);
    }
  }

  lemma EstablishKeepsSafe(w: World, origins: seq<Origin>, secret: Bytes, salt: Bytes, role: Role, fault: Fault)
    requires Safe(w, origins)
    ensures var op := Establish(secret, salt, role, fault);
            Safe(Step(w, op).0, OriginsStep(w, origins, op))
  {
    var op := Establish(secret, salt, role, fault);
    var w', origins' := Step(w, op).0, OriginsStep(w, origins, op);
    forall k: nat | k < |w'| ensures Sound(w', origins', k) && w'[k].lineage <= k {
      if k < |w| { assert Sound(w, origins, k); }
    }
    forall i: nat, j: nat | i < j < |w'| ensures Ordered(w', origins', i, j) {
      if j < |w| { assert Ordered(w, origins, i, j); }
    }
  }

  lemma RotateKeepsSafe(w: World, origins: seq<Origin>, h: int, fault: Fault)
    requires Safe(w, origins)
    ensures Safe(Step(w, Rotate(h, fault)).0, OriginsStep(w, origins, Rotate(h, fault)))
  {
    var w', origins' := Step(w, Rotate(h, fault)).0, OriginsStep(w, origins, Rotate(h, fault));
    forall k: nat | k < |w'| ensures Sound(w', origins', k) && w'[k].lineage <= k {
      if k < |w| { assert Sound(w, origins, k); } else { assert Sound(w, origins, h); }
    }
    forall i: nat, j: nat | i < j < |w'| ensures Ordered(w', origins', i, j) {
      if j < |w| {
        assert Ordered(w, origins, i, j);
      } else if i < h {
        assert Ordered(w, origins, i, h);
      } else if h < i {
        assert Ordered(w, origins, h, i);
      }
    }
  }

  /** The origins of the handles created by a run from the empty world. */
  function OriginsAfter(ops: seq<Op>): (origins: seq<Origin>)
    ensures |origins| == |After([], ops)|
  {
    if ops == [] then []
    else
      var front := ops[..|ops| - 1];
      OriginsStep(After([], front), OriginsAfter(front), ops[|ops| - 1])
  }

  /**
   Every run: a lineage has at most one live channel and its epochs strictly
   increase while channelId and role are kept, the role being the one given when
   it was established; a live channel's root is the one its secret, salt and epoch
   determine; its window is bounded and free of repeats.
   */
  lemma {:induction false} RunSafety(ops: seq<Op>)
    ensures Safe(After([], ops), OriginsAfter(ops))
  {
    if ops != [] {
      var front := ops[..|ops| - 1];
      RunSafety(front);
      StepKeepsSafe(After([], front), OriginsAfter(front), ops[|ops| - 1]);
    }
  }

  lemma AtMostOneLive(ops: seq<Op>, i: nat, j: nat)
    requires i < |After([], ops)| && j < |After([], ops)|
    requires var w := After([], ops); w[i].lineage == w[j].lineage && w[i].life.Live? && w[j].life.Live?
    ensures i == j
  {
    RunSafety(ops);
    assert i < j ==> Ordered(After([], ops), OriginsAfter(ops), i, j);
    assert j < i ==> Ordered(After([], ops), OriginsAfter(ops), j, i);
  }

  /** The handles created before h in its lineage. */
  ghost function Predecessors(w: World, h: nat): set<nat>
    requires h < |w|
  {
    set k: nat | k < h && w[k].lineage == w[h].lineage
  }

  lemma PredecessorsKept(w: World, op: Op, h: nat)
    requires h < |w|
    ensures h < |Step(w, op).0| && Step(w, op).0[h].epoch == w[h].epoch
    ensures Predecessors(Step(w, op).0, h) == Predecessors(w, h)
  {
    StepFrame(w, op);
  }

  lemma PredecessorsOfRotated(w: World, origins: seq<Origin>, h: int, fault: Fault)
    requires Safe(w, origins) && RotateStep(w, h, fault).1.Created?
    ensures var w' := RotateStep(w, h, fault).0;
            && |w'| == |w| + 1 && 0 <= h < |w| && w'[|w|].epoch == w[h].epoch + 1
            && Predecessors(w', |w|) == Predecessors(w, h) + {h as nat}
            && |Predecessors(w', |w|)| == |Predecessors(w, h)| + 1
  {
    forall k: nat | h < k < |w| ensures w[k].lineage != w[h].lineage {
      assert Ordered(w, origins, h, k);
    }
  }

  lemma PredecessorsOfEstablished(w: World, origins: seq<Origin>, op: Op)
    requires Safe(w, origins) && !op.Rotate? && |Step(w, op).0| == |w| + 1
    ensures var w' := Step(w, op).0; w'[|w|].epoch == 0 && Predecessors(w', |w|) == {}
  {
  }

  ghost predicate EpochsCount(w: World) {
    forall h: nat :: h < |w| ==> w[h].epoch == |Predecessors(w, h)|
  }

  lemma StepKeepsEpochsCount(w: World, origins: seq<Origin>, op: Op)
    requires Safe(w, origins) && EpochsCount(w)
    ensures EpochsCount(Step(w, op).0)
  {
    var w' := Step(w, op).0;
    forall h: nat | h < |w'| ensures w'[h].epoch == |Predecessors(w', h)| {
      if h < |w| {
        PredecessorsKept(w, op, h);
      } else if op.Rotate? {
        PredecessorsOfRotated(w, origins, op.h, op.fault);
      } else {
        PredecessorsOfEstablished(w, origins, op);
      }
    }
  }

  /** The epoch of a channel is the number of rotations that led to it. */
  lemma {:induction false} EpochCountsRotations(ops: seq<Op>)
    ensures EpochsCount(After([], ops))
  {
    if ops != [] {
      var front := ops[..|ops| - 1];
      EpochCountsRotations(front);
      RunSafety(front);
      StepKeepsEpochsCount(After([], front), OriginsAfter(front), ops[|ops| - 1]);
    }
  }

  /** The handle a call works on, if it names one. */
  function Target(op: Op): Option<int> {
    match op
    case Establish(_, _, _, _) => None
    case Encrypt(h, _, _, _, _) => Some(h)
    case Decrypt(h, _, _) => Some(h)
    case Rotate(h, _) => Some(h)
    case Destroy(h) => Some(h)
  }

  /**
   One call: channels other than its target keep their whole state; a failed
   call changes nothing unless the hand-off of a rotation threw; and no call
   rewrites what a channel object publishes.
   */
  lemma StepFrame(w: World, op: Op)
    ensures var (w', outcome) := Step(w, op);
            && |w| <= |w'|
            && (forall k: nat :: k < |w| && Target(op) != Some(k) ==> w'[k] == w[k])
            && (forall k: nat :: k < |w| ==> w'[k] == w[k].(life := w'[k].life))
            && (outcome.Failed? && !(op.Rotate? && op.fault.StoreFault?) ==> w' == w)
  {
  }

  lemma {:induction false} AfterConcat(w: World, ops: seq<Op>, more: seq<Op>)
    ensures After(w, ops + more) == After(After(w, ops), more)
  {
    if more == [] {
      assert ops + more == ops;
    } else {
      assert (ops + more)[..|ops + more| - 1] == ops + more[..|more| - 1];
      AfterConcat(w, ops, more[..|more| - 1]);
    }
  }

  /** A dead channel stays dead, and every later call on it fails with INVALID_KEY. */
  lemma {:induction false} DeadForever(w: World, ops: seq<Op>, h: nat)
    requires h < |w| && w[h].life.Dead?
    ensures h < |After(w, ops)| && After(w, ops)[h].life.Dead?
    ensures forall k: nat :: k < |ops| && Target(ops[k]) == Some(h) ==> OutcomeAt(w, ops, k) == Failed(InvalidKey)
  {
    if ops != [] {
      var front := ops[..|ops| - 1];
      DeadForever(w, front, h);
      forall k: nat | k < |ops| && Target(ops[k]) == Some(h) ensures OutcomeAt(w, ops, k) == Failed(InvalidKey) {
        if k < |front| {
          assert OutcomeAt(w, front, k) == Failed(InvalidKey);
          assert front[..k] == ops[..k];
        } else {
          assert ops[..k] == front;
        }
      }
    }
  }

  /** Destroying a live channel, or rotating it without a derivation failure, kills it. */
  lemma DeathByDestroyOrRotate(w: World, h: nat, fault: Fault)
    requires h < |w| && w[h].life.Live?
    ensures Step(w, Destroy(h)).0[h].life.Dead?
    ensures Step(w, Rotate(h, fault)).0[h].life.Dead? <==> !fault.KdfFault?
  {
  }

  /** Whoever destroys a channel, or rotates it without a derivation failure, makes every later call on it fail. */
  lemma KilledForGood(w: World, h: nat, fault: Fault, killer: Op, ops: seq<Op>)
    requires h < |w| && w[h].life.Live?
    requires killer == Destroy(h) || (killer == Rotate(h, fault) && !fault.KdfFault?)
    ensures var w' := Step(w, killer).0;
            && h < |After(w', ops)| && After(w', ops)[h].life.Dead?
            && forall k: nat :: k < |ops| && Target(ops[k]) == Some(h) ==> OutcomeAt(w', ops, k) == Failed(InvalidKey)
  {
    DeathByDestroyOrRotate(w, h, fault);
    DeadForever(Step(w, killer).0, ops, h);
  }
}
