/** Two endpoints of one channel: agreement, delivery, and isolation of epochs and channels. */
module ChannelDelivery {
  import opened Basics
  import opened Primitives
  import opened ChannelSpec
  import opened ChannelTheorems

  /** A live handle of a run, with the origin of its lineage. */
  ghost predicate LiveAt(ops: seq<Op>, h: nat) {
    h < |After([], ops)| && After([], ops)[h].life.Live?
  }

  /**
   Endpoints in lockstep: in any two runs, live channels have the same root
   exactly when they were established from equal secrets and salts with equal
   HMAC keys and rotated equally often; they have the same channel id exactly
   when they were established from equal secrets and equal salts.
   */
  lemma Lockstep(ops: seq<Op>, h: nat, ops': seq<Op>, h': nat)
    requires LiveAt(ops, h) && LiveAt(ops', h')
    ensures var a, b := After([], ops)[h], After([], ops')[h'];
            var o, o' := OriginsAfter(ops)[h], OriginsAfter(ops')[h'];
            && (a.life.root == b.life.root <==> SameRoots(o, o') && a.epoch == b.epoch)
            && (a.channelId == b.channelId <==> o.secret == o'.secret && o.salt == o'.salt)
  {
    RunSafety(ops);
    RunSafety(ops');
    var o, o' := OriginsAfter(ops)[h], OriginsAfter(ops')[h'];
    assert Sound(After([], ops), OriginsAfter(ops), h);
    assert Sound(After([], ops'), OriginsAfter(ops'), h');
    RootInjective(o.secret, o.salt, After([], ops)[h].epoch, o'.secret, o'.salt, After([], ops')[h'].epoch);
    ChannelIdInjective(o.secret, o.salt, o'.secret, o'.salt);
  }

  /**
   A message encrypted on any channel of any run, handed to any live channel of
   any run under any epoch and sequence label, is accepted exactly when the
   label carries the receiver's epoch, both channels have origins with the same
   roots and the same epoch, the label's sequence is the sender's modulo 2^32,
   and that sequence is not in the window. So a message of another epoch, or of
   a channel with another secret, is never accepted under any label.
   */
  lemma DecryptsExactly(ops: seq<Op>, h: nat, sequence: int, plain: Bytes, iv: Bytes,
                        ops': seq<Op>, h': nat, msg: Message)
    requires LiveAt(ops, h) && LiveAt(ops', h')
    requires var sent := Step(After([], ops), Encrypt(h, sequence, plain, iv, NoFault)).1;
             sent.Sent? && msg.ciphertext == sent.msg.ciphertext && msg.iv == sent.msg.iv
    ensures var a, b := After([], ops)[h], After([], ops')[h'];
            var got := Step(After([], ops'), Decrypt(h', msg, NoFault)).1;
            && (got.Received? <==>
                  && msg.epoch == b.epoch
                  && SameRoots(OriginsAfter(ops)[h], OriginsAfter(ops')[h']) && a.epoch == b.epoch
                  && msg.sequence % 0x1_0000_0000 == sequence % 0x1_0000_0000
                  && msg.sequence !in b.life.window)
            && (got.Received? ==> got.plain == plain)
  {
    Lockstep(ops, h, ops', h');
    var a, b := After([], ops)[h], After([], ops')[h'];
    MessageKeyInjective(a.life.root, a.epoch, sequence, b.life.root, msg.epoch, msg.sequence);
  }

  /** The run that establishes one channel and rotates it n times; its handle is then n. */
  function Endpoint(secret: Bytes, salt: Bytes, role: Role, n: nat): (ops: seq<Op>)
    ensures |ops| == n + 1
  {
    [Establish(secret, salt, role, NoFault)] + seq(n, k requires 0 <= k => Rotate(k, NoFault))
  }

  /** It ends in a live channel of epoch n, in the role given. */
  lemma {:induction false} EndpointLives(secret: Bytes, salt: Bytes, role: Role, n: nat)
    requires |secret| == 32
    ensures var ops := Endpoint(secret, salt, role, n);
            && |After([], ops)| == n + 1
            && After([], ops)[n] == Chan(ChannelIdOf(secret, salt), n, role, 0, Live(RootAt(secret, salt, n), []))
            && OriginsAfter(ops)[n] == Origin(secret, salt, role)
  {
    var ops := Endpoint(secret, salt, role, n);
    if n == 0 {
      assert ops[..0] == [];
    } else {
      EndpointLives(secret, salt, role, n - 1);
      assert ops[..n] == Endpoint(secret, salt, role, n - 1) && ops[n] == Rotate(n - 1, NoFault);
    }
  }

  /**
   Two endpoints that establish with one 32-byte secret and one salt, in whatever
   roles, and rotate equally often: every message that one of them encrypts under
   a sequence number of at least 0 decrypts at the other.
   */
  lemma EndpointsTalk(secret: Bytes, salt: Bytes, role: Role, role': Role, n: nat,
                      sequence: int, plain: Bytes, iv: Bytes)
    requires |secret| == 32 && sequence >= 0
    ensures var w, w' := After([], Endpoint(secret, salt, role, n)), After([], Endpoint(secret, salt, role', n));
            var sent := Step(w, Encrypt(n, sequence, plain, iv, NoFault)).1;
            && n < |w| && w[n].role == role && w[n].epoch == n && n < |w'| && w'[n].role == role'
            && sent.Sent? && sent.msg.epoch == n && sent.msg.sequence == sequence && sent.msg.iv == iv
            && Step(w', Decrypt(n, sent.msg, NoFault)).1 == Received(plain)
  {
    EndpointLives(secret, salt, role, n);
    EndpointLives(secret, salt, role', n);
  }

  /** The run that establishes one channel from a secret of zeros. */
  function OneChannel(salt: Bytes): seq<Op> {
    Endpoint(Zeros(32), salt, Initiator, 0)
  }

  /** A concrete relabelling: a message sent with sequence 5 opens again with sequence 5 + 2^32. */
  lemma RelabelledByWraparound(iv: Bytes, plain: Bytes)
    ensures var w := After([], OneChannel([]));
            var sent := Step(w, Encrypt(0, 5, plain, iv, NoFault)).1;
            && sent.Sent?
            && Step(w, Decrypt(0, sent.msg, NoFault)).1 == Received(plain)
            && Step(Step(w, Decrypt(0, sent.msg, NoFault)).0,
                    Decrypt(0, sent.msg.(sequence := 5 + 0x1_0000_0000), NoFault)).1 == Received(plain)
  {
    EndpointLives(Zeros(32), [], Initiator, 0);
    MessageKeyInjective(FirstRoot(Zeros(32), []), 0, 5, FirstRoot(Zeros(32), []), 0, 5 + 0x1_0000_0000);
  }

  /** Two channels with different ids whose salts differ in a final zero byte read each other's messages. */
  lemma PaddedSaltsShareRoots(iv: Bytes, plain: Bytes)
    ensures var w, w' := After([], OneChannel([Lit(1)])), After([], OneChannel([Lit(1), Lit(0)]));
            var sent := Step(w, Encrypt(0, 5, plain, iv, NoFault)).1;
            && w[0].channelId != w'[0].channelId
            && sent.Sent? && Step(w', Decrypt(0, sent.msg, NoFault)).1 == Received(plain)
  {
    var salt, salt' := [Lit(1)], [Lit(1), Lit(0)];
    EndpointLives(Zeros(32), salt, Initiator, 0);
    EndpointLives(Zeros(32), salt', Initiator, 0);
    assert salt' == salt + Zeros(1);
    SaltPadding(salt, 1);
    assert |salt| != |salt'|;
    ChannelIdInjective(Zeros(32), salt, Zeros(32), salt');
    RootInjective(Zeros(32), salt, 0, Zeros(32), salt', 0);
  }

  /** What arrives opens under its own label on a channel with this root and epoch. */
  predicate Authentic(root: Bytes, epoch: nat, m: Message) {
    m.epoch == epoch && Open(MessageKey(root, m.epoch, m.sequence), m.ciphertext, m.iv).Some?
  }

  /** What one endpoint sends is authentic for the other, whenever the two are in lockstep. */
  lemma SentIsAuthentic(ops: seq<Op>, h: nat, sequence: int, plain: Bytes, iv: Bytes, ops': seq<Op>, h': nat)
    requires LiveAt(ops, h) && LiveAt(ops', h') && sequence >= 0
    requires SameRoots(OriginsAfter(ops)[h], OriginsAfter(ops')[h'])
    requires After([], ops)[h].epoch == After([], ops')[h'].epoch
    ensures var sent := Step(After([], ops), Encrypt(h, sequence, plain, iv, NoFault)).1;
            && sent.Sent? && sent.msg.sequence == sequence && sent.msg.ciphertext.Sealed?
               && sent.msg.ciphertext.plain == plain
            && Authentic(After([], ops')[h'].life.root, After([], ops')[h'].epoch, sent.msg)
  {
    Lockstep(ops, h, ops', h');
  }

  function Deliveries(h: nat, ms: seq<Message>): seq<Op> {
    seq(|ms|, i requires 0 <= i < |ms| => Decrypt(h, ms[i], NoFault))
  }

  /** During deliveries only the window of h changes, and it gains only sequences of authentic messages. */
  lemma {:induction false} DeliveryWindow(w: World, h: nat, ms: seq<Message>)
    requires h < |w| && w[h].life.Live?
    ensures var w' := After(w, Deliveries(h, ms));
            && |w'| == |w| && w'[h].life.Live?
            && w'[h].life.root == w[h].life.root && w'[h].epoch == w[h].epoch
            && forall s :: s in w'[h].life.window ==>
                 s in w[h].life.window
                 || exists i: nat :: i < |ms| && Authentic(w[h].life.root, w[h].epoch, ms[i]) && ms[i].sequence == s
  {
    if ms != [] {
      var front := ms[..|ms| - 1];
      DeliveryWindow(w, h, front);
      assert Deliveries(h, ms)[..|ms| - 1] == Deliveries(h, front);
      var v, v' := After(w, Deliveries(h, front)), After(w, Deliveries(h, ms));
      forall s | s in v'[h].life.window && s !in w[h].life.window
        ensures exists i: nat :: i < |ms| && Authentic(w[h].life.root, w[h].epoch, ms[i]) && ms[i].sequence == s
      {
        if s in v[h].life.window {
          var i: nat :| i < |front| && Authentic(w[h].life.root, w[h].epoch, front[i]) && front[i].sequence == s;
          assert ms[i] == front[i];
        } else {
          assert ms[|ms| - 1].sequence == s && Authentic(w[h].life.root, w[h].epoch, ms[|ms| - 1]);
        }
      }
    }
  }

  /**
   Any number of authentic messages with pairwise distinct sequences not yet in
   the window, delivered in any order among arbitrary forged ones: every
   authentic one decrypts to what was sealed, every forged one fails.
   */
  lemma EveryGenuineMessageArrives(w: World, h: nat, ms: seq<Message>, k: nat)
    requires h < |w| && w[h].life.Live?
    requires k < |ms|
    requires forall i: nat, j: nat :: i < j < |ms|
               && Authentic(w[h].life.root, w[h].epoch, ms[i]) && Authentic(w[h].life.root, w[h].epoch, ms[j])
               ==> ms[i].sequence != ms[j].sequence
    requires forall i: nat :: i < |ms| && Authentic(w[h].life.root, w[h].epoch, ms[i])
               ==> ms[i].sequence !in w[h].life.window
    ensures var got := OutcomeAt(w, Deliveries(h, ms), k);
            if Authentic(w[h].life.root, w[h].epoch, ms[k]) then got == Received(ms[k].ciphertext.plain)
                else got.Failed?
  {
    var front := ms[..k];
    assert Deliveries(h, ms)[..k] == Deliveries(h, front);
    DeliveryWindow(w, h, front);
    var v := After(w, Deliveries(h, front));
    assert forall i: nat :: i < k ==> front[i] == ms[i];
  }
}
