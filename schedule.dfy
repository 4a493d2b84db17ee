/** The message schedule of step 1 of section 6.2.2 of FIPS 180-4, as
    expand_blocks in SHA-256.c computes it: the sixteen words of a block,
    followed by 48 words each mixed from four earlier ones. */
module MessageSchedule {
  import opened Bits

  /** The recurrence of the schedule: word `t` (for `t` >= 16) from the
      words `t - 2`, `t - 7`, `t - 15` and `t - 16`. */
  predicate Recurrence(W: seq<bv32>, t: nat)
    requires 16 <= t < |W|
  {
    W[t] == Add(Add(Add(SmallSigma1(W[t - 2]), W[t - 7]), SmallSigma0(W[t - 15])), W[t - 16])
  }

  /** The first `n` words of the schedule of `block`, built one word at a
      time. */
  function SchedulePrefix(block: seq<bv32>, n: nat): (W: seq<bv32>)
    requires |block| == 16 && n <= 64
    ensures |W| == n
    ensures forall t :: 0 <= t < n && t < 16 ==> W[t] == block[t]
    ensures forall t {:trigger Recurrence(W, t)} :: 16 <= t < n ==> Recurrence(W, t)
  {
    if n == 0 then []
    else
      var W := SchedulePrefix(block, n - 1);
      var t := n - 1;
      var x := if t < 16 then block[t] else Add(Add(Add(SmallSigma1(W[t - 2]), W[t - 7]), SmallSigma0(W[t - 15])), W[t - 16]);
      RecurrenceAppend(W, x);
      W + [x]
  }

  /** Appending a word keeps the recurrence at every earlier position. */
  lemma RecurrenceAppend(W: seq<bv32>, x: bv32)
    requires forall t {:trigger Recurrence(W, t)} :: 16 <= t < |W| ==> Recurrence(W, t)
    ensures forall t {:trigger Recurrence(W + [x], t)} :: 16 <= t < |W| ==> Recurrence(W + [x], t)
  {
    var V := W + [x];
    forall t | 16 <= t < |W|
      ensures Recurrence(V, t)
    {
      assert Recurrence(W, t);
      assert V[t] == W[t] && V[t - 2] == W[t - 2] && V[t - 7] == W[t - 7];
      assert V[t - 15] == W[t - 15] && V[t - 16] == W[t - 16];
    }
  }

  /** The 64-word schedule of a block. */
  function Schedule(block: seq<bv32>): (W: seq<bv32>)
    requires |block| == 16
    ensures |W| == 64
    ensures W[..16] == block
    ensures forall t {:trigger Recurrence(W, t)} :: 16 <= t < 64 ==> Recurrence(W, t)
  {
    SchedulePrefix(block, 64)
  }

  /** The schedule is the only sequence that starts with the block and
      follows the recurrence. */
  lemma ScheduleUnique(block: seq<bv32>, W: seq<bv32>)
    requires |block| == 16 && |W| == 64
    requires W[..16] == block
    requires forall t {:trigger Recurrence(W, t)} :: 16 <= t < 64 ==> Recurrence(W, t)
    ensures W == Schedule(block)
  {
    PrefixUnique(block, W, 64);
  }

  lemma {:induction false} PrefixUnique(block: seq<bv32>, W: seq<bv32>, n: nat)
    requires |block| == 16 && |W| == 64 && n <= 64
    requires W[..16] == block
    requires forall t {:trigger Recurrence(W, t)} :: 16 <= t < 64 ==> Recurrence(W, t)
    ensures W[..n] == SchedulePrefix(block, n)
  {
    if n > 0 {
      PrefixUnique(block, W, n - 1);
      var P := SchedulePrefix(block, n - 1);
      var t := n - 1;
      if t < 16 {
        assert W[t] == W[..16][t];
      } else {
        assert Recurrence(W, t);
        assert W[t - 2] == P[t - 2] && W[t - 7] == P[t - 7];
        assert W[t - 15] == P[t - 15] && W[t - 16] == P[t - 16];
      }
      assert W[..n] == W[..n - 1] + [W[t]];
    }
  }

  /** Block `r` of `blocks` as a sequence of sixteen words. */
  function Row(blocks: array2<bv32>, r: nat): (block: seq<bv32>)
    requires r < blocks.Length0 && blocks.Length1 == 16
    reads blocks
  {
    seq(16, j requires 0 <= j < 16 reads blocks => blocks[r, j])
  }

  /** expand_blocks: fills `W` with the schedule of block `r`. */
  method ExpandBlock(blocks: array2<bv32>, r: nat, W: array<bv32>)
    requires r < blocks.Length0 && blocks.Length1 == 16 && W.Length == 64
    modifies W
    ensures W[..] == Schedule(Row(blocks, r))
  {
    ghost var S := Schedule(Row(blocks, r));
    for i := 0 to 64
      invariant forall t :: 0 <= t < i ==> W[t] == S[t]
    {
      if i < 16 {
        W[i] := blocks[r, i];
        assert S[i] == S[..16][i];
      } else {
        W[i] := Add(Add(Add(SmallSigma1(W[i - 2]), W[i - 7]), SmallSigma0(W[i - 15])), W[i - 16]);
        assert Recurrence(S, i);
      }
    }
  }
}
