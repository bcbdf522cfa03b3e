/**
 The channel API on the heap: a registry from live channel objects to their
 internals, each owning a secret buffer and a replay window. Every method is
 proved against one step of ChannelSpec.
 */
module Channels {
  import opened Basics
  import opened Primitives
  import opened ChannelSpec

  /** A frozen channel object. A value without the brand was not made by this API. */
  class Channel {
    const channelId: Bytes
    const epoch: nat
    const role: Role
    const branded: bool

    constructor (channelId: Bytes, epoch: nat, role: Role, branded: bool)
      ensures this.channelId == channelId && this.epoch == epoch && this.role == role && this.branded == branded
      ensures forall b: array<Byte> {:trigger b[..]} :: !fresh(b)
    {
      this.channelId, this.epoch, this.role, this.branded := channelId, epoch, role, branded;
    }
  }

  /** An insertion-ordered set of sequence numbers. */
  class ReplayWindow {
    var order: seq<int>

    constructor ()
      ensures order == []
      ensures forall b: array<Byte> {:trigger b[..]} :: !fresh(b)
    {
      order := [];
    }

    predicate Has(s: int)
      reads this
    {
      s in order
    }

    method Add(s: int)
      modifies this
      ensures order == if s in old(order) then old(order) else old(order) + [s]
      ensures forall b: array<Byte> {:trigger b[..]} :: !fresh(b)
    {
      if s !in order { order := order + [s]; }
    }

    method DeleteOldest()
      requires order != []
      modifies this
      ensures order == old(order)[1..]
      ensures forall b: array<Byte> {:trigger b[..]} :: !fresh(b)
    {
      order := order[1..];
    }

    method Clear()
      modifies this
      ensures order == []
      ensures forall b: array<Byte> {:trigger b[..]} :: !fresh(b)
    {
      order := [];
    }
  }

  class Internals {
    const rootKeyMaterial: array<Byte>
    const seenSeqs: ReplayWindow

    constructor (rootKeyMaterial: array<Byte>, seenSeqs: ReplayWindow)
      ensures this.rootKeyMaterial == rootKeyMaterial && this.seenSeqs == seenSeqs
      ensures forall b: array<Byte> {:trigger b[..]} :: !fresh(b)
    {
      this.rootKeyMaterial, this.seenSeqs := rootKeyMaterial, seenSeqs;
    }
  }

  function AsSent(r: Result<Message, CryptoError>): Outcome {
    match r case Ok(m) => Sent(m) case Err(e) => Failed(e)
  }

  function AsReceived(r: Result<Bytes, CryptoError>): Outcome {
    match r case Ok(p) => Received(p) case Err(e) => Failed(e)
  }

  /**
   MK = HKDF(root, epoch ‖ seq). The raw key bytes are wiped whether or not the
   import throws, so that no buffer holds them afterwards; the imported key is a copy.
   */
  method DeriveMessageKey(root: array<Byte>, epoch: int, sequence: int, fault: Fault)
    returns (key: Result<Bytes, CryptoError>)
    ensures key == if fault.KdfFault? || fault.ImportFault? then Err(PlatformFailure)
                   else Ok(MessageKey(root[..], epoch, sequence))
    ensures forall b: array<Byte> {:trigger b[..]} :: fresh(b) ==> IsZero(b[..])
  {
    if fault.KdfFault? { return Err(PlatformFailure); }
    var mkBytes := Alloc(Hkdf(root[..], U32(epoch) + U32(sequence), MSG_INFO, 32));
    if fault.ImportFault? {
      key := Err(PlatformFailure);
    } else {
      key := Ok(mkBytes[..]);
    }
    SecureWipe(mkBytes);
  }

  /** The module-private WeakMap, with the history of all channel objects made so far. */
  class ChannelStore {
    var internals: map<Channel, Internals>
    ghost var handles: seq<Channel>
    /** The root buffer each channel was born with, whether or not it is still live; it only grows. */
    ghost var buffers: seq<array<Byte>>
    ghost var world: World
    ghost var Repr: set<object>

    /** Entry i of the history matches the abstract world. */
    ghost predicate EntryOk(i: nat)
      requires i < |handles| == |buffers| == |world|
      reads this, Repr
    {
      && handles[i].branded
      && handles[i].channelId == world[i].channelId && handles[i].epoch == world[i].epoch
         && handles[i].role == world[i].role
      && buffers[i] in Repr
      && (world[i].life.Live? <==> handles[i] in internals)
      && (world[i].life.Dead? ==> IsZero(buffers[i][..]))
      && (world[i].life.Live? ==>
            var s := internals[handles[i]];
            && s.rootKeyMaterial == buffers[i] && buffers[i][..] == world[i].life.root
            && s.seenSeqs in Repr && s.seenSeqs.order == world[i].life.window)
    }

    /** Root buffers are never shared, not even with a dead channel; windows of live channels are not shared. */
    ghost predicate Separate(i: nat, j: nat)
      requires i < j < |handles| == |buffers|
      reads this
    {
      && handles[i] != handles[j]
      && buffers[i] != buffers[j]
      && (handles[i] in internals && handles[j] in internals ==>
            internals[handles[i]].seenSeqs != internals[handles[j]].seenSeqs)
    }

    ghost predicate Valid()
      reads this, Repr
    {
      && this in Repr
      && |handles| == |buffers| == |world|
      && (forall c: Channel :: c in internals ==> c in handles)
      && (forall i: nat :: i < |handles| ==> EntryOk(i))
      && (forall i: nat, j: nat :: i < j < |handles| ==> Separate(i, j))
    }

    /** The position of a channel object in the history, or -1. */
    ghost function HandleOf(ch: Channel): (h: int)
      reads this
      ensures h < |handles|
      ensures if ch in handles then 0 <= h && handles[h] == ch else h == -1
    {
      if ch in handles then var h :| 0 <= h < |handles| && handles[h] == ch; h else -1
    }

    /** The brand is module-private: only channels of this store carry it. */
    ghost predicate Known(ch: Channel)
      reads this
    {
      ch.branded ==> ch in handles
    }

    constructor ()
      ensures Valid() && fresh(Repr) && world == [] && handles == [] && buffers == []
    {
      internals, handles, buffers, world := map[], [], [], [];
      Repr := {this};
    }

    /** Brand check, then lookup. */
    method GetInternals(ch: Channel) returns (r: Result<Internals, CryptoError>)
      requires Valid() && Known(ch)
      ensures match LookupError(world, HandleOf(ch))
              case Some(e) => r == Err(e)
              case None => r.Ok? && ch in internals && r.value == internals[ch]
      ensures forall b: array<Byte> {:trigger b[..]} :: !fresh(b)
    {
      ghost var h := HandleOf(ch);
      assert 0 <= h ==> EntryOk(h);
      if !ch.branded { return Err(InvalidArgument); }
      if ch !in internals { return Err(InvalidKey); }
      return Ok(internals[ch]);
    }

    /** The buffers after a call that stored a new channel, or stored none. */
    ghost predicate Grown(before: seq<array<Byte>>, made: Option<Channel>)
      reads this
    {
      match made
      case None => buffers == before
      case Some(ch) => ch in internals && buffers == before + [internals[ch].rootKeyMaterial]
    }

    /**
     The secret-derived scratch buffer is zero on every exit and the caller's
     secret is untouched. When the digest throws, the root derived before it is
     left behind.
     */
    method EstablishChannel(sharedSecret: array<Byte>, salt: Bytes, role: Role, fault: Fault)
      returns (r: Result<Channel, CryptoError>)
      requires Valid()
      modifies this
      ensures Valid() && fresh(Repr - old(Repr))
      ensures (world, if r.Ok? then Created(|old(handles)|) else Failed(r.error))
           == Step(old(world), Establish(old(sharedSecret[..]), salt, role, fault))
      ensures r.Ok? ==> fresh(r.value) && handles == old(handles) + [r.value]
      ensures r.Err? ==> handles == old(handles)
      ensures Grown(old(buffers), if r.Ok? then Some(r.value) else None)
      ensures forall b: array<Byte> {:trigger b[..]} :: fresh(b) ==>
                || IsZero(b[..])
                || (r.Ok? && b == internals[r.value].rootKeyMaterial)
                || (fault.DigestFault? && b[..] == FirstRoot(old(sharedSecret[..]), salt))
      ensures sharedSecret.Length == 32 && fault.DigestFault? ==>
                exists b: array<Byte> {:trigger b[..]} :: fresh(b) && b[..] == FirstRoot(old(sharedSecret[..]), salt)
    {
      if sharedSecret.Length != 32 { return Err(InvalidLength); }
      if fault.KdfFault? { return Err(PlatformFailure); }
      var rootMaterial := Alloc(Hkdf(sharedSecret[..], salt, ROOT_INFO, 32));
      var combined := Alloc(sharedSecret[..] + salt);
      var channelId := Sha256(combined[..])[..16];
      SecureWipe(combined);
      assert rootMaterial[..] == FirstRoot(sharedSecret[..], salt);
      if fault.DigestFault? { return Err(PlatformFailure); }
      var channel := new Channel(channelId, 0, role, true);
      var window := new ReplayWindow();
      ghost var entry := Chan(channelId, 0, role, |world|, Live(FirstRoot(sharedSecret[..], salt), []));
      SetInternals(channel, rootMaterial, window, entry);
      return Ok(channel);
    }

    /** Stores fresh internals for a fresh channel object. */
    method SetInternals(ch: Channel, root: array<Byte>, window: ReplayWindow, ghost entry: Chan)
      requires Valid()
      requires ch !in handles && root !in Repr && window !in Repr
      requires ch.branded && ch.channelId == entry.channelId && ch.epoch == entry.epoch && ch.role == entry.role
      requires entry.life == Live(root[..], window.order)
      modifies this
      ensures Valid() && Repr == old(Repr) + {root, window}
      ensures world == old(world) + [entry] && handles == old(handles) + [ch] && buffers == old(buffers) + [root]
      ensures ch in internals && internals[ch].rootKeyMaterial == root
      ensures forall b: array<Byte> {:trigger b[..]} :: fresh(b) ==> IsZero(b[..])
    {
      ghost var n := |handles|;
      var s := new Internals(root, window);
      internals := internals[ch := s];
      handles, buffers, world := handles + [ch], buffers + [root], world + [entry];
      Repr := Repr + {root, window};
      forall i: nat | i < |handles| ensures EntryOk(i) {
        if i < n { assert old(EntryOk(i)); }
      }
      forall i: nat, j: nat | i < j < |handles| ensures Separate(i, j) {
        assert old(EntryOk(i));
        if j < n { assert old(Separate(i, j)); }
      }
    }

    method EncryptChannelMessage(ch: Channel, sequence: int, plain: Bytes, iv: Bytes, fault: Fault)
      returns (r: Result<Message, CryptoError>)
      requires Valid() && Known(ch)
      ensures (world, AsSent(r)) == Step(world, Encrypt(HandleOf(ch), sequence, plain, iv, fault))
      ensures forall b: array<Byte> {:trigger b[..]} :: fresh(b) ==> IsZero(b[..])
    {
      ghost var h := HandleOf(ch);
      assert 0 <= h ==> EntryOk(h);
      var s := GetInternals(ch);
      if s.Err? { return Err(s.error); }
      if sequence < 0 { return Err(InvalidArgument); }
      var mk := DeriveMessageKey(s.value.rootKeyMaterial, ch.epoch, sequence, fault);
      if mk.Err? { return Err(mk.error); }
      if fault.CipherFault? { return Err(PlatformFailure); }
      return Ok(Message(ch.epoch, sequence, Sealed(mk.value, iv, plain), iv));
    }

    method DecryptChannelMessage(ch: Channel, msg: Message, fault: Fault) returns (r: Result<Bytes, CryptoError>)
      requires Valid() && Known(ch)
      modifies this, if ch in internals then {internals[ch].seenSeqs} else {}
      ensures Valid() && Repr == old(Repr) && handles == old(handles) && buffers == old(buffers)
      ensures forall b: array<Byte> {:trigger b[..]} :: fresh(b) ==> IsZero(b[..])
      ensures (world, AsReceived(r)) == Step(old(world), Decrypt(old(HandleOf(ch)), msg, fault))
    {
      ghost var h := HandleOf(ch);
      assert 0 <= h ==> EntryOk(h);
      var s := GetInternals(ch);
      if s.Err? { return Err(s.error); }
      if msg.epoch != ch.epoch { return Err(DecryptionFailed); }
      var window := s.value.seenSeqs;
      if window.Has(msg.sequence) { return Err(ReplayDetected); }
      var mk := DeriveMessageKey(s.value.rootKeyMaterial, msg.epoch, msg.sequence, fault);
      if mk.Err? { return Err(mk.error); }
      var plain := Open(mk.value, msg.ciphertext, msg.iv);
      if plain.None? { return Err(DecryptionFailed); }
      window.Add(msg.sequence);
      if |window.order| > REPLAY_WINDOW_SIZE {
        window.DeleteOldest();
      }
      world := world[h := world[h].(life := Live(world[h].life.root, window.order))];
      forall i: nat | i < |handles| ensures EntryOk(i) {
        assert old(EntryOk(i));
        if i < h { assert old(Separate(i, h)); } else if h < i { assert old(Separate(h, i)); }
      }
      forall i: nat, j: nat | i < j < |handles| ensures Separate(i, j) {
        assert old(Separate(i, j));
      }
      return Ok(plain.value);
    }

    /** Forgets a channel whose root buffer has been wiped. */
    method DropInternals(ch: Channel)
      requires |handles| == |buffers| == |world| && this in Repr && ch in internals
      requires ch in handles && handles[HandleOf(ch)] == ch
      requires forall c: Channel :: c in internals ==> c in handles
      requires forall i: nat :: i < |handles| && i != HandleOf(ch) ==> EntryOk(i)
      requires forall i: nat, j: nat :: i < j < |handles| ==> Separate(i, j)
      requires var h := HandleOf(ch);
               && IsZero(buffers[h][..]) && buffers[h] in Repr && ch.branded
               && ch.channelId == world[h].channelId && ch.epoch == world[h].epoch && ch.role == world[h].role
      modifies this
      ensures Valid() && Repr == old(Repr) && handles == old(handles) && buffers == old(buffers)
      ensures var h := old(HandleOf(ch)); world == old(world)[h := old(world)[h].(life := Dead)]
      ensures internals == old(internals) - {ch}
      ensures forall b: array<Byte> {:trigger b[..]} :: !fresh(b)
    {
      ghost var h := HandleOf(ch);
      internals := internals - {ch};
      world := world[h := world[h].(life := Dead)];
      forall i: nat | i < |handles| ensures EntryOk(i) {
        if i != h { assert old(EntryOk(i)); }
        if i < h { assert old(Separate(i, h)); } else if h < i { assert old(Separate(h, i)); }
      }
      forall i: nat, j: nat | i < j < |handles| ensures Separate(i, j) {
        assert old(Separate(i, j));
      }
    }

    /** Wipes the root buffer of a live channel and forgets the channel. */
    method WipeAndDrop(ch: Channel, s: Internals, clearWindow: bool)
      requires Valid() && ch in internals && internals[ch] == s
      modifies this, s.rootKeyMaterial, s.seenSeqs
      ensures Valid() && Repr == old(Repr) && handles == old(handles) && buffers == old(buffers)
      ensures var h := old(HandleOf(ch)); 0 <= h && world == old(world)[h := old(world)[h].(life := Dead)]
      ensures IsZero(s.rootKeyMaterial[..]) && (clearWindow ==> s.seenSeqs.order == [])
      ensures forall b: array<Byte> {:trigger b[..]} :: fresh(b) ==> IsZero(b[..])
    {
      ghost var h := HandleOf(ch);
      assert EntryOk(h);
      SecureWipe(s.rootKeyMaterial);
      if clearWindow { s.seenSeqs.Clear(); }
      forall i: nat | i < |handles| && i != h ensures EntryOk(i) {
        assert old(EntryOk(i));
        if i < h { assert old(Separate(i, h)); } else { assert old(Separate(h, i)); }
      }
      forall i: nat, j: nat | i < j < |handles| ensures Separate(i, j) {
        assert old(Separate(i, j));
      }
      DropInternals(ch);
    }

    /**
     Derives the next root first, so that a failing derivation changes nothing;
     then the old root is wiped and its channel dropped. If the hand-off throws,
     the orphaned new root is wiped too.
     */
    method RotateChannel(ch: Channel, fault: Fault) returns (r: Result<Channel, CryptoError>)
      requires Valid() && Known(ch)
      modifies this, if ch in internals then {internals[ch].rootKeyMaterial, internals[ch].seenSeqs} else {}
      ensures Valid() && fresh(Repr - old(Repr))
      ensures (world, if r.Ok? then Created(|old(handles)|) else Failed(r.error))
           == Step(old(world), Rotate(old(HandleOf(ch)), fault))
      ensures r.Ok? ==> fresh(r.value) && handles == old(handles) + [r.value]
      ensures r.Err? ==> handles == old(handles)
      ensures Grown(old(buffers), if r.Ok? then Some(r.value) else None)
      ensures old(ch.branded && ch in internals) && !fault.KdfFault? ==> IsZero(old(internals[ch].rootKeyMaterial)[..])
      ensures forall b: array<Byte> {:trigger b[..]} :: fresh(b) ==>
                IsZero(b[..]) || (r.Ok? && b == internals[r.value].rootKeyMaterial)
    {
      ghost var h := HandleOf(ch);
      assert 0 <= h ==> EntryOk(h);
      var s := GetInternals(ch);
      if s.Err? { return Err(s.error); }
      var newEpoch := ch.epoch + 1;
      if fault.KdfFault? { return Err(PlatformFailure); }
      ghost var root := s.value.rootKeyMaterial[..];
      var newRoot := Alloc(RotatedRoot(s.value.rootKeyMaterial[..], newEpoch));
      WipeAndDrop(ch, s.value, false);
      r := HandOff(newRoot, Chan(ch.channelId, newEpoch, ch.role, old(world)[h].lineage,
                                 Live(RotatedRoot(root, newEpoch), [])),
                   ch.channelId, newEpoch, ch.role, fault);
    }

    /** Hands a new root over to a new channel, or wipes it when storing throws. */
    method HandOff(root: array<Byte>, ghost entry: Chan, channelId: Bytes, epoch: nat, role: Role, fault: Fault)
      returns (r: Result<Channel, CryptoError>)
      requires Valid() && root !in Repr
      requires entry == Chan(channelId, epoch, role, entry.lineage, Live(root[..], []))
      modifies this, root
      ensures Valid() && fresh(Repr - old(Repr) - {root})
      ensures fault.StoreFault? ==> r == Err(PlatformFailure) && unchanged(this) && IsZero(root[..])
      ensures !fault.StoreFault? ==>
                && r.Ok? && fresh(r.value) && root[..] == old(root[..])
                && world == old(world) + [entry] && handles == old(handles) + [r.value]
                   && buffers == old(buffers) + [root]
                && r.value in internals && internals[r.value].rootKeyMaterial == root
      ensures forall b: array<Byte> {:trigger b[..]} :: fresh(b) ==> IsZero(b[..])
    {
      var channel := new Channel(channelId, epoch, role, true);
      var window := new ReplayWindow();
      if fault.StoreFault? {
        SecureWipe(root);
        forall i: nat | i < |handles| ensures EntryOk(i) {
          assert old(EntryOk(i));
        }
        forall i: nat, j: nat | i < j < |handles| ensures Separate(i, j) {
          assert old(Separate(i, j));
        }
        return Err(PlatformFailure);
      }
      SetInternals(channel, root, window, entry);
      return Ok(channel);
    }

    method DestroyChannel(ch: Channel) returns (r: Result<(), CryptoError>)
      requires Valid() && Known(ch)
      modifies this, if ch in internals then {internals[ch].rootKeyMaterial, internals[ch].seenSeqs} else {}
      ensures Valid() && Repr == old(Repr) && handles == old(handles) && buffers == old(buffers)
      ensures (world, if r.Ok? then Destroyed else Failed(r.error)) == Step(old(world), Destroy(old(HandleOf(ch))))
      ensures r.Ok? ==> old(ch in internals)
                        && IsZero(old(internals[ch].rootKeyMaterial)[..]) && old(internals[ch].seenSeqs).order == []
      ensures forall b: array<Byte> {:trigger b[..]} :: fresh(b) ==> IsZero(b[..])
    {
      ghost var h := HandleOf(ch);
      assert 0 <= h ==> EntryOk(h);
      var s := GetInternals(ch);
      if s.Err? { return Err(s.error); }
      WipeAndDrop(ch, s.value, true);
      return Ok(());
    }
  }

  /**
   Any finite run of calls on a store, a handle that names no channel of the
   store standing for an unbranded object: the heap holds what the protocol on
   values says, and the very buffer that held the root of a channel alive before
   the run is zero if the run killed the channel.
   */
  method Continue(store: ChannelStore, ops: seq<Op>, made: seq<Channel>) returns (made': seq<Channel>)
    requires store.Valid() && made == store.handles
    modifies store.Repr
    ensures store.Valid() && fresh(store.Repr - old(store.Repr)) && made' == store.handles
    ensures store.world == After(old(store.world), ops)
    ensures old(store.buffers) <= store.buffers
    ensures forall i: nat :: i < |old(store.world)| && old(store.world)[i].life.Live? ==>
              && old(store.handles[i] in store.internals) && i < |store.world|
              && (store.world[i].life.Dead? ==> IsZero(old(store.internals[store.handles[i]].rootKeyMaterial)[..]))
  {
    made' := made;
    var impostor := new Channel([], 0, Initiator, false);
    for k := 0 to |ops|
      invariant store.Valid() && fresh(store.Repr - old(store.Repr))
      invariant made' == store.handles && old(store.buffers) <= store.buffers
      invariant store.world == After(old(store.world), ops[..k])
    {
      assert ops[..k + 1][..k] == ops[..k];
      made' := Perform(store, made', impostor, ops[k]);
    }
    assert ops[..|ops|] == ops;
    forall i: nat | i < |old(store.world)| && old(store.world)[i].life.Live?
      ensures old(store.handles[i] in store.internals) && i < |store.world|
      ensures store.world[i].life.Dead? ==> IsZero(old(store.internals[store.handles[i]].rootKeyMaterial)[..])
    {
      assert old(store.EntryOk(i));
      assert store.EntryOk(i) && store.buffers[i] == old(store.buffers)[i];
    }
  }

  /** A run on a new store. */
  method RunCalls(ops: seq<Op>) returns (store: ChannelStore)
    ensures store.Valid() && store.world == After([], ops)
  {
    store := new ChannelStore();
    var _ := Continue(store, ops, []);
  }

  /** One call of a run. */
  method Perform(store: ChannelStore, made: seq<Channel>, impostor: Channel, op: Op) returns (made': seq<Channel>)
    requires store.Valid() && made == store.handles && !impostor.branded
    modifies store.Repr
    ensures store.Valid() && fresh(store.Repr - old(store.Repr)) && made' == store.handles
    ensures store.world == Step(old(store.world), op).0
    ensures old(store.buffers) <= store.buffers
  {
    made' := made;
    match op
    case Establish(secret, salt, role, fault) =>
      var secretBuffer := Alloc(secret);
      var r := store.EstablishChannel(secretBuffer, salt, role, fault);
      if r.Ok? { made' := made + [r.value]; }
    case Encrypt(h, sequence, plain, iv, fault) =>
      var ch := Lookup(store, made, impostor, h);
      var _ := store.EncryptChannelMessage(ch, sequence, plain, iv, fault);
    case Decrypt(h, msg, fault) =>
      var ch := Lookup(store, made, impostor, h);
      var _ := store.DecryptChannelMessage(ch, msg, fault);
    case Rotate(h, fault) =>
      var ch := Lookup(store, made, impostor, h);
      var r := store.RotateChannel(ch, fault);
      if r.Ok? { made' := made + [r.value]; }
    case Destroy(h) =>
      var ch := Lookup(store, made, impostor, h);
      var _ := store.DestroyChannel(ch);
  }

  method Lookup(store: ChannelStore, made: seq<Channel>, impostor: Channel, h: int) returns (ch: Channel)
    requires store.Valid() && made == store.handles && !impostor.branded
    ensures store.Known(ch)
    ensures store.HandleOf(ch) == if 0 <= h < |made| then h else -1
    ensures ch in store.internals ==>
              store.internals[ch].rootKeyMaterial in store.Repr && store.internals[ch].seenSeqs in store.Repr
  {
    ch := if 0 <= h < |made| then made[h] else impostor;
    ghost var k := store.HandleOf(ch);
    assert 0 <= k ==> store.EntryOk(k);
    forall i: nat, j: nat | i < j < |made| ensures made[i] != made[j] {
      assert store.Separate(i, j);
    }
  }
}
