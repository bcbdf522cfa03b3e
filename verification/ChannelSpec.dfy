/**
 The channel protocol on values. A world lists every channel object ever
 created, in order of creation; a position in it is a handle. One step is one
 call of the API, taken as atomic.
 */
module ChannelSpec {
  import opened Basics
  import opened Primitives
  import opened Decimals

  const REPLAY_WINDOW_SIZE: nat := 1000
  const MSG_INFO := "me2em/crypto/v1/channel-message"
  const ROOT_INFO := "me2em/crypto/v1/channel-root"
  /** The ASCII bytes of "rotate". */
  const ROTATE_SALT: Bytes := [Lit(114), Lit(111), Lit(116), Lit(97), Lit(116), Lit(101)]

  datatype Role = Initiator | Recipient

  datatype Message = Message(epoch: int, sequence: int, ciphertext: Cipher, iv: Bytes)

  function MessageKey(root: Bytes, epoch: int, sequence: int): (key: Bytes)
    ensures |key| == 32
  {
    Hkdf(root, U32(epoch) + U32(sequence), MSG_INFO, 32)
  }

  function FirstRoot(secret: Bytes, salt: Bytes): (root: Bytes)
    ensures |root| == 32
  {
    Hkdf(secret, salt, ROOT_INFO, 32)
  }

  function RotatedRoot(root: Bytes, newEpoch: nat): (root': Bytes)
    ensures |root'| == 32
  {
    Hkdf(root, ROTATE_SALT, "epoch:" + Decimal(newEpoch), 32)
  }

  /** The first 32 hexadecimal digits, i.e. 16 bytes, of SHA-256(secret ‖ salt). */
  function ChannelIdOf(secret: Bytes, salt: Bytes): (id: Bytes)
    ensures |id| == 16
  {
    Sha256(secret + salt)[..16]
  }

  datatype Life = Live(root: Bytes, window: seq<int>) | Dead

  datatype Chan = Chan(channelId: Bytes, epoch: nat, role: Role, lineage: nat, life: Life)

  type World = seq<Chan>

  /** Where the environment makes a call throw. */
  datatype Fault = NoFault | KdfFault | DigestFault | ImportFault | CipherFault | StoreFault

  datatype Op =
    | Establish(secret: Bytes, salt: Bytes, role: Role, fault: Fault)
    | Encrypt(h: int, sequence: int, plain: Bytes, iv: Bytes, fault: Fault)
    | Decrypt(h: int, msg: Message, fault: Fault)
    | Rotate(h: int, fault: Fault)
    | Destroy(h: int)

  datatype Outcome =
    | Created(handle: nat)
    | Sent(msg: Message)
    | Received(plain: Bytes)
    | Destroyed
    | Failed(error: CryptoError)

  /** A handle outside the world stands for a value without the brand. */
  function LookupError(w: World, h: int): Option<CryptoError> {
    if !(0 <= h < |w|) then Some(InvalidArgument)
    else if w[h].life.Dead? then Some(InvalidKey)
    else None
  }

  function Evict(window: seq<int>): seq<int> {
    if |window| > REPLAY_WINDOW_SIZE then window[1..] else window
  }

  function EstablishStep(w: World, secret: Bytes, salt: Bytes, role: Role, fault: Fault): (World, Outcome) {
    if |secret| != 32 then (w, Failed(InvalidLength))
    else if fault.KdfFault? || fault.DigestFault? then (w, Failed(PlatformFailure))
    else (w + [Chan(ChannelIdOf(secret, salt), 0, role, |w|, Live(FirstRoot(secret, salt), []))], Created(|w|))
  }

  function EncryptStep(w: World, h: int, sequence: int, plain: Bytes, iv: Bytes, fault: Fault): Outcome {
    var e := LookupError(w, h);
    if e.Some? then Failed(e.value)
    else if sequence < 0 then Failed(InvalidArgument)
    else if fault.KdfFault? || fault.ImportFault? || fault.CipherFault? then Failed(PlatformFailure)
    else Sent(Message(w[h].epoch, sequence, Sealed(MessageKey(w[h].life.root, w[h].epoch, sequence), iv, plain), iv))
  }

  function DecryptStep(w: World, h: int, msg: Message, fault: Fault): (World, Outcome) {
    var e := LookupError(w, h);
    if e.Some? then (w, Failed(e.value))
    else if msg.epoch != w[h].epoch then (w, Failed(DecryptionFailed))
    else if msg.sequence in w[h].life.window then (w, Failed(ReplayDetected))
    else if fault.KdfFault? || fault.ImportFault? then (w, Failed(PlatformFailure))
    else match Open(MessageKey(w[h].life.root, msg.epoch, msg.sequence), msg.ciphertext, msg.iv)
      case None => (w, Failed(DecryptionFailed))
      case Some(plain) =>
        (w[h := w[h].(life := Live(w[h].life.root, Evict(w[h].life.window + [msg.sequence])))], Received(plain))
  }

  /** When the hand-off of the fresh internals throws, the old channel is already gone. */
  function RotateStep(w: World, h: int, fault: Fault): (World, Outcome) {
    var e := LookupError(w, h);
    if e.Some? then (w, Failed(e.value))
    else if fault.KdfFault? then (w, Failed(PlatformFailure))
    else
      var dead := w[h := w[h].(life := Dead)];
      if fault.StoreFault? then (dead, Failed(PlatformFailure))
      else
        var root := RotatedRoot(w[h].life.root, w[h].epoch + 1);
        (dead + [w[h].(epoch := w[h].epoch + 1, life := Live(root, []))], Created(|w|))
  }

  function DestroyStep(w: World, h: int): (World, Outcome) {
    var e := LookupError(w, h);
    if e.Some? then (w, Failed(e.value))
    else (w[h := w[h].(life := Dead)], Destroyed)
  }

  function Step(w: World, op: Op): (World, Outcome) {
    match op
    case Establish(secret, salt, role, fault) => EstablishStep(w, secret, salt, role, fault)
    case Encrypt(h, sequence, plain, iv, fault) => (w, EncryptStep(w, h, sequence, plain, iv, fault))
    case Decrypt(h, msg, fault) => DecryptStep(w, h, msg, fault)
    case Rotate(h, fault) => RotateStep(w, h, fault)
    case Destroy(h) => DestroyStep(w, h)
  }

  /** The world after a run of calls. */
  function After(w: World, ops: seq<Op>): World {
    if ops == [] then w else Step(After(w, ops[..|ops| - 1]), ops[|ops| - 1]).0
  }

  /** What the k-th call of a run returned. */
  function OutcomeAt(w: World, ops: seq<Op>, k: nat): Outcome
    requires k < |ops|
  {
    Step(After(w, ops[..k]), ops[k]).1
  }
}
