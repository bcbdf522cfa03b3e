/** Rejection sampling of a uniform integer below n from 32-bit random words. */
module RandomInt {
  import opened Basics

  const WORDS: nat := 0x1_0000_0000

  type Word = w: int | 0 <= w < 0x1_0000_0000

  /** The largest multiple of n that is at most 2^32 − 1: words from there on are rejected. */
  function Bound(n: nat): nat
    requires n > 0
  {
    0xffff_ffff / n * n
  }

  /** The position of the first accepted word at or after k, or the end of the stream. */
  function FirstAccepted(n: nat, words: seq<Word>, k: nat): (i: nat)
    requires n > 0 && k <= |words|
    ensures k <= i <= |words| && (i < |words| ==> words[i] < Bound(n))
    decreases |words| - k
  {
    if k == |words| || words[k] < Bound(n) then k else FirstAccepted(n, words, k + 1)
  }

  /** What a draw yields, and where the next one starts. */
  function Draw(n: nat, words: seq<Word>, start: nat): (r: (Option<nat>, nat))
    requires n > 0 && start <= |words|
    ensures start <= r.1 <= |words|
    ensures r.0.Some? ==> r.0.value < n && start < r.1
  {
    var i := FirstAccepted(n, words, start);
    if i == |words| then (None, i) else (Some(words[i] % n), i + 1)
  }

  /** Draws words until one is accepted; None when the given stream ends first. */
  method RandomIntBelow(n: nat, words: seq<Word>, start: nat) returns (r: Option<nat>, next: nat)
    requires 1 <= n < WORDS && start <= |words|
    ensures start <= next <= |words| && (r, next) == Draw(n, words, start)
    ensures r.None? <==> forall k :: start <= k < |words| ==> words[k] >= Bound(n)
    ensures r.Some? ==>
              && r.value < n && start < next && words[next - 1] < Bound(n) && r.value == words[next - 1] % n
              && forall k :: start <= k < next - 1 ==> words[k] >= Bound(n)
    ensures start < |words| && words[start] < WORDS / 2 ==> next == start + 1 && r.Some?
  {
    TailIsShort(n);
    var max := 0xffff_ffff / n * n;
    next := start;
    while next < |words|
      invariant start <= next <= |words| && FirstAccepted(n, words, next) == FirstAccepted(n, words, start)
      invariant forall k :: start <= k < next ==> words[k] >= max
      invariant start < next ==> words[start] >= WORDS / 2
    {
      var word := words[next];
      next := next + 1;
      if word < max { return Some(word % n), next; }
    }
    return None, next;
  }

  /** The accepted words that yield residue r. */
  ghost function AcceptedWith(n: nat, r: nat): set<nat>
    requires n > 0
  {
    set w: nat | w < WORDS && w < Bound(n) && w % n == r
  }

  ghost function BlocksWith(n: nat, r: nat, blocks: nat): set<nat>
    requires n > 0
  {
    set w: nat | w < blocks * n && w % n == r
  }

  lemma {:induction false} OnePerBlock(n: nat, r: nat, blocks: nat)
    requires r < n
    ensures |BlocksWith(n, r, blocks)| == blocks
  {
    if blocks == 0 {
      assert BlocksWith(n, r, 0) == {};
    } else {
      OnePerBlock(n, r, blocks - 1);
      var x := (blocks - 1) * n + r;
      assert blocks * n == (blocks - 1) * n + n;
      forall w: nat ensures w in BlocksWith(n, r, blocks) <==> w in BlocksWith(n, r, blocks - 1) || w == x {
        BlockResidue(n, blocks - 1, w);
        BlockResidue(n, blocks - 1, x);
      }
      assert BlocksWith(n, r, blocks) == BlocksWith(n, r, blocks - 1) + {x};
    }
  }

  /** Inside one block of n words, the residue is the offset. */
  lemma BlockResidue(n: nat, block: nat, w: nat)
    requires n > 0
    ensures block * n <= w < block * n + n ==> w % n == w - block * n
  {
    if block * n <= w < block * n + n {
      var q, o := w / n, w - block * n;
      assert w == q * n + w % n;
      MultiplesOrdered(q + 1, block, n);
      MultiplesOrdered(block + 1, q, n);
    }
  }

  lemma MultiplesOrdered(a: nat, b: nat, n: nat)
    ensures a <= b ==> a * n <= b * n
  {
  }

  /** Exactly uniform: every residue has the same number of accepted words, floor((2^32 − 1)/n). */
  lemma Uniform(n: nat, r: nat)
    requires 1 <= n < WORDS && r < n
    ensures |AcceptedWith(n, r)| == 0xffff_ffff / n
  {
    OnePerBlock(n, r, 0xffff_ffff / n);
    assert AcceptedWith(n, r) == BlocksWith(n, r, 0xffff_ffff / n);
  }

  /** The rejected tail has at least one and at most n words, and at least half of all words are accepted. */
  lemma TailIsShort(n: nat)
    requires 1 <= n < WORDS
    ensures 1 <= WORDS - Bound(n) <= n
    ensures 2 * Bound(n) >= WORDS && Bound(n) >= n
  {
    var q := 0xffff_ffff / n;
    assert q * n <= 0xffff_ffff < q * n + n;
    assert q >= 1;
    assert q * n >= n;
  }
}
