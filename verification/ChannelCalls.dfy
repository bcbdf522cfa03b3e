/** When a call on a channel succeeds, what it then yields, and what its errors mean. */
module ChannelCalls {
  import opened Basics
  import opened Primitives
  import opened ChannelSpec
  import opened ChannelTheorems

  ghost predicate LiveIn(w: World, h: int) {
    0 <= h < |w| && w[h].life.Live?
  }

  ghost predicate Opens(c: Chan, msg: Message)
    requires c.life.Live?
  {
    exists plain :: msg.ciphertext == Sealed(MessageKey(c.life.root, msg.epoch, msg.sequence), msg.iv, plain)
  }

  /** What a caller has to bring along, and what must not throw. */
  ghost predicate Succeeds(w: World, op: Op) {
    match op
    case Establish(secret, _, _, fault) => |secret| == 32 && fault !in {KdfFault, DigestFault}
    case Encrypt(h, sequence, _, _, fault) =>
      LiveIn(w, h) && sequence >= 0 && fault !in {KdfFault, ImportFault, CipherFault}
    case Decrypt(h, msg, fault) =>
      && LiveIn(w, h) && msg.epoch == w[h].epoch && msg.sequence !in w[h].life.window && Opens(w[h], msg)
      && fault !in {KdfFault, ImportFault}
    case Rotate(h, fault) => LiveIn(w, h) && fault !in {KdfFault, StoreFault}
    case Destroy(h) => LiveIn(w, h)
  }

  /** Every call succeeds exactly under these conditions. */
  lemma SucceedsExactly(w: World, op: Op)
    ensures !Step(w, op).1.Failed? <==> Succeeds(w, op)
  {
  }

  ghost predicate TrueOfCall(w: World, op: Op, e: CryptoError) {
    match e
    case InvalidLength => op.Establish? && |op.secret| != 32
    case InvalidArgument =>
      (Target(op).Some? && !(0 <= Target(op).value < |w|)) || (op.Encrypt? && op.sequence < 0)
    case InvalidKey => Target(op).Some? && 0 <= Target(op).value < |w| && w[Target(op).value].life.Dead?
    case DecryptionFailed =>
      op.Decrypt? && LiveIn(w, op.h) && (op.msg.epoch != w[op.h].epoch || !Opens(w[op.h], op.msg))
    case ReplayDetected =>
      op.Decrypt? && LiveIn(w, op.h) && op.msg.epoch == w[op.h].epoch && op.msg.sequence in w[op.h].life.window
    case PlatformFailure => !op.Destroy? && op.fault != NoFault
    case _ => false
  }

  /** Every error that a call reports is true of the channel and the arguments. */
  lemma ErrorIsTrue(w: World, op: Op)
    ensures Step(w, op).1.Failed? ==> TrueOfCall(w, op, Step(w, op).1.error)
  {
  }

  /**
   A channel is born live, in the role given, with the public fields and the root
   of its origin: at epoch 0 by establishing, one epoch later by rotating, and
   then in the lineage of its predecessor.
   */
  lemma BornLive(w: World, op: Op)
    requires Succeeds(w, op) && (op.Establish? || op.Rotate?)
    ensures Step(w, op).1 == Created(|w|) && |Step(w, op).0| == |w| + 1
    ensures var c := Step(w, op).0[|w|];
            && c.life.Live? && c.life.window == []
            && (op.Establish? ==>
                  && c.epoch == 0 && c.role == op.role && c.lineage == |w|
                  && c.channelId == Sha256(op.secret + op.salt)[..16]
                  && c.life.root == RootAt(op.secret, op.salt, 0))
            && (op.Rotate? ==>
                  && c.epoch == w[op.h].epoch + 1 && c.role == w[op.h].role && c.lineage == w[op.h].lineage
                  && c.channelId == w[op.h].channelId && Step(w, op).0[op.h].life.Dead?)
  {
  }

  /** A message carries the epoch, the sequence number and the iv of its call. */
  lemma SentAsCalled(w: World, h: int, sequence: int, plain: Bytes, iv: Bytes, fault: Fault)
    requires Succeeds(w, Encrypt(h, sequence, plain, iv, fault))
    ensures var r := Step(w, Encrypt(h, sequence, plain, iv, fault)).1;
            && r.Sent? && r.msg.epoch == w[h].epoch && r.msg.sequence == sequence && r.msg.iv == iv
            && Open(MessageKey(w[h].life.root, w[h].epoch, sequence), r.msg.ciphertext, iv) == Some(plain)
  {
  }

  /** Encrypting under different ivs never gives the same ciphertext, whatever else is equal. */
  lemma FreshIvFreshCiphertext(w: World, h: int, sequence: int, plain: Bytes, iv: Bytes, iv': Bytes, fault: Fault)
    requires Succeeds(w, Encrypt(h, sequence, plain, iv, fault))
    ensures Step(w, Encrypt(h, sequence, plain, iv, fault)).1.msg.ciphertext
              == Step(w, Encrypt(h, sequence, plain, iv', fault)).1.msg.ciphertext
       <==> iv == iv'
  {
    SentAsCalled(w, h, sequence, plain, iv, fault);
    SentAsCalled(w, h, sequence, plain, iv', fault);
  }
}
