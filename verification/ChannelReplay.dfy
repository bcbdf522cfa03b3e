/** The sliding replay window, over every run of calls with any interleaving of channels. */
module ChannelReplay {
  import opened Basics
  import opened Primitives
  import opened ChannelSpec
  import opened ChannelTheorems

  /** The k-th call of the run is a successful decrypt on handle h. */
  predicate AcceptsAt(ops: seq<Op>, h: nat, k: nat) {
    k < |ops| && ops[k].Decrypt? && ops[k].h == h && OutcomeAt([], ops, k).Received?
  }

  /** The sequence numbers handle h has accepted, in acceptance order. */
  function Accepted(ops: seq<Op>, h: nat): seq<int> {
    if ops == [] then []
    else
      var k := |ops| - 1;
      Accepted(ops[..k], h) + (if AcceptsAt(ops, h, k) then [ops[k].msg.sequence] else [])
  }

  lemma {:induction false} NothingAcceptedBeforeCreation(ops: seq<Op>, h: nat)
    requires h >= |After([], ops)|
    ensures Accepted(ops, h) == []
  {
    if ops != [] {
      var k := |ops| - 1;
      StepFrame(After([], ops[..k]), ops[k]);
      NothingAcceptedBeforeCreation(ops[..k], h);
    }
  }

  lemma Slide(accepted: seq<int>, s: int)
    ensures Evict(LastN(accepted, REPLAY_WINDOW_SIZE) + [s]) == LastN(accepted + [s], REPLAY_WINDOW_SIZE)
  {
  }

  /** A call moves the window of a channel that stays live only by a successful decrypt on it. */
  lemma StepWindow(w: World, op: Op, h: nat)
    requires h < |Step(w, op).0| && Step(w, op).0[h].life.Live?
    ensures var accepted := op.Decrypt? && op.h == h && Step(w, op).1.Received?;
            && (h >= |w| ==> Step(w, op).0[h].life.window == [] && !accepted)
            && (h < |w| ==>
                  && w[h].life.Live?
                  && Step(w, op).0[h].life.window
                     == if accepted then Evict(w[h].life.window + [op.msg.sequence]) else w[h].life.window)
  {
  }

  /** The window of a live channel is exactly its last min(n, 1000) accepted sequence numbers, oldest first. */
  lemma {:induction false} WindowIsLastAccepted(ops: seq<Op>, h: nat)
    requires h < |After([], ops)| && After([], ops)[h].life.Live?
    ensures After([], ops)[h].life.window == LastN(Accepted(ops, h), REPLAY_WINDOW_SIZE)
  {
    var k := |ops| - 1;
    StepWindow(After([], ops[..k]), ops[k], h);
    if h < |After([], ops[..k])| {
      WindowIsLastAccepted(ops[..k], h);
      if AcceptsAt(ops, h, k) {
        Slide(Accepted(ops[..k], h), ops[k].msg.sequence);
      }
    } else {
      NothingAcceptedBeforeCreation(ops[..k], h);
    }
  }

  /** The sequence numbers other than s that handle h accepts strictly between calls i and j. */
  ghost function OthersBetween(ops: seq<Op>, h: nat, i: nat, j: nat, s: int): set<int> {
    set k: nat | i < k < j && AcceptsAt(ops, h, k) && ops[k].msg.sequence != s :: ops[k].msg.sequence
  }

  lemma {:induction false} AcceptedSplits(ops: seq<Op>, h: nat, i: nat, j: nat) returns (mid: seq<int>)
    requires i < j <= |ops| && AcceptsAt(ops, h, i)
    ensures Accepted(ops[..j], h) == Accepted(ops[..i], h) + [ops[i].msg.sequence] + mid
    ensures forall x :: x in mid && x != ops[i].msg.sequence ==> x in OthersBetween(ops, h, i, j, ops[i].msg.sequence)
    decreases j
  {
    var prefix := ops[..j];
    assert prefix[..j - 1] == ops[..j - 1];
    assert ops[..j - 1][..j - 1] == ops[..j - 1];
    assert AcceptsAt(prefix, h, j - 1) <==> AcceptsAt(ops, h, j - 1);
    if i == j - 1 {
      mid := [];
    } else {
      var mid' := AcceptedSplits(ops, h, i, j - 1);
      mid := mid' + (if AcceptsAt(ops, h, j - 1) then [ops[j - 1].msg.sequence] else []);
    }
  }

  /**
   Two successful decrypts with the same sequence number on one channel have at
   least 1000 successful decrypts of pairwise distinct other sequence numbers
   between them.
   */
  lemma ReplayGap(ops: seq<Op>, h: nat, i: nat, j: nat)
    requires i < j && AcceptsAt(ops, h, i) && AcceptsAt(ops, h, j)
    requires ops[i].msg.sequence == ops[j].msg.sequence
    ensures |OthersBetween(ops, h, i, j, ops[i].msg.sequence)| >= 1000
  {
    var s := ops[i].msg.sequence;
    var mid := AcceptedSplits(ops, h, i, j);
    var acc := Accepted(ops[..j], h);
    var w := After([], ops[..j]);
    var window := w[h].life.window;
    WindowIsLastAccepted(ops[..j], h);
    RunSafety(ops[..j]);
    assert Sound(w, OriginsAfter(ops[..j]), h);
    assert s !in window;
    var p := |Accepted(ops[..i], h)|;
    assert acc[p] == s;
    var start := |acc| - |window|;
    assert forall q: nat :: start <= q < |acc| ==> window[q - start] == acc[q];
    assert window == mid[|mid| - REPLAY_WINDOW_SIZE..];
    DistinctCardinality(window);
    forall x | x in Elements(window) ensures x in OthersBetween(ops, h, i, j, s) {
      assert x in mid;
    }
    SubsetCardinality(Elements(window), OthersBetween(ops, h, i, j, s));
  }

  /** Acceptance of a decrypt, decided by the run alone: right epoch, authentic, not among the last 1000 accepted. */
  lemma AcceptanceCondition(ops: seq<Op>, h: nat, k: nat)
    requires k < |ops| && ops[k].Decrypt? && ops[k].h == h && ops[k].fault.NoFault?
    requires h < |After([], ops[..k])| && After([], ops[..k])[h].life.Live?
    ensures var ch, m := After([], ops[..k])[h], ops[k].msg;
            AcceptsAt(ops, h, k)
            <==> && m.epoch == ch.epoch
                 && m.sequence !in LastN(Accepted(ops[..k], h), REPLAY_WINDOW_SIZE)
                 && Open(MessageKey(ch.life.root, m.epoch, m.sequence), m.ciphertext, m.iv).Some?
  {
    WindowIsLastAccepted(ops[..k], h);
  }
}
