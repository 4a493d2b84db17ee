/** The hash computation of section 6.2.2 of FIPS 180-4, as sha256_hash in
    SHA-256.c performs it: the initial hash value, the 64 rounds over the
    eight working variables a..h, the feed-forward into the hash value, and
    the loop over the blocks of the padded message. */
module Compression {
  import opened Bits
  import opened Padding
  import opened MessageSchedule

  /** K: the 64 round constants of section 4.2.2 of FIPS 180-4. */
  const K: seq<bv32> := [
    0x428a2f98, 0x71374491, 0xb5c0fbcf, 0xe9b5dba5, 0x3956c25b, 0x59f111f1, 0x923f82a4, 0xab1c5ed5,
    0xd807aa98, 0x12835b01, 0x243185be, 0x550c7dc3, 0x72be5d74, 0x80deb1fe, 0x9bdc06a7, 0xc19bf174,
    0xe49b69c1, 0xefbe4786, 0x0fc19dc6, 0x240ca1cc, 0x2de92c6f, 0x4a7484aa, 0x5cb0a9dc, 0x76f988da,
    0x983e5152, 0xa831c66d, 0xb00327c8, 0xbf597fc7, 0xc6e00bf3, 0xd5a79147, 0x06ca6351, 0x14292967,
    0x27b70a85, 0x2e1b2138, 0x4d2c6dfc, 0x53380d13, 0x650a7354, 0x766a0abb, 0x81c2c92e, 0x92722c85,
    0xa2bfe8a1, 0xa81a664b, 0xc24b8b70, 0xc76c51a3, 0xd192e819, 0xd6990624, 0xf40e3585, 0x106aa070,
    0x19a4c116, 0x1e376c08, 0x2748774c, 0x34b0bcb5, 0x391c0cb3, 0x4ed8aa4a, 0x5b9cca4f, 0x682e6ff3,
    0x748f82ee, 0x78a5636f, 0x84c87814, 0x8cc70208, 0x90befffa, 0xa4506ceb, 0xbef9a3f7, 0xc67178f2]

  /** The initial hash value H(0) of section 5.3.3 of FIPS 180-4, the
      values init_hash stores. */
  const InitialHash: Vars := Vars(
    0x6a09e667, 0xbb67ae85, 0x3c6ef372, 0xa54ff53a, 0x510e527f, 0x9b05688c, 0x1f83d9ab, 0x5be0cd19)

  /** Eight 32-bit words: the working variables a..h of the rounds, and
      also a hash value H0..H7, which hash[0..7] holds in the C code. */
  datatype Vars = Vars(a: bv32, b: bv32, c: bv32, d: bv32, e: bv32, f: bv32, g: bv32, h: bv32)

  /** t1 = h + E1(e) + CH(e, f, g) + K[j] + W[j]. */
  function T1(v: Vars, k: bv32, w: bv32): bv32
  {
    Add(Add(Add(Add(v.h, BigSigma1(v.e)), Ch(v.e, v.f, v.g)), k), w)
  }

  /** t2 = E0(a) + MAJ(a, b, c). */
  function T2(v: Vars): bv32
  {
    Add(BigSigma0(v.a), Maj(v.a, v.b, v.c))
  }

  /** One round with round constant `k` and schedule word `w`: the
      variables move down by one, `e` takes d + t1 and `a` takes t1 + t2. */
  function Round(v: Vars, k: bv32, w: bv32): Vars
  {
    var t1 := T1(v, k, w);
    var t2 := T2(v);
    Vars(Add(t1, t2), v.a, v.b, v.c, Add(v.d, t1), v.e, v.f, v.g)
  }

  /** A round run backwards. Not part of the C code; it shows that no
      round loses information. */
  function Unround(v: Vars, k: bv32, w: bv32): Vars
  {
    var t2 := Add(BigSigma0(v.b), Maj(v.b, v.c, v.d));
    var t1 := Sub(v.a, t2);
    var h := Sub(Sub(Sub(Sub(t1, w), k), Ch(v.f, v.g, v.h)), BigSigma1(v.f));
    Vars(v.b, v.c, v.d, Sub(v.e, t1), v.f, v.g, v.h, h)
  }

  /** Running a round backwards gives the state before it. */
  lemma UnroundRound(v: Vars, k: bv32, w: bv32)
    ensures Unround(Round(v, k, w), k, w) == v
  {
    var t1 := T1(v, k, w);
    var t2 := T2(v);
    AddSubInverse(t1, t2);
    AddSubInverse(v.d, t1);
    var s1 := Add(v.h, BigSigma1(v.e));
    var s2 := Add(s1, Ch(v.e, v.f, v.g));
    var s3 := Add(s2, k);
    AddSubInverse(s3, w);
    AddSubInverse(s2, k);
    AddSubInverse(s1, Ch(v.e, v.f, v.g));
    AddSubInverse(v.h, BigSigma1(v.e));
  }

  /** Every state is reached by a round: a round is a bijection on the
      working variables. */
  lemma RoundUnround(v: Vars, k: bv32, w: bv32)
    ensures Round(Unround(v, k, w), k, w) == v
  {
    var t2 := Add(BigSigma0(v.b), Maj(v.b, v.c, v.d));
    var t1 := Sub(v.a, t2);
    var y1 := Sub(t1, w);
    var y2 := Sub(y1, k);
    var y3 := Sub(y2, Ch(v.f, v.g, v.h));
    AddSubInverse(y3, BigSigma1(v.f));
    AddSubInverse(y2, Ch(v.f, v.g, v.h));
    AddSubInverse(y1, k);
    AddSubInverse(t1, w);
    AddSubInverse(v.a, t2);
    AddSubInverse(v.e, t1);
  }

  /** The state after the first `n` rounds with round constants `Ks` and
      schedule `W`. */
  function Rounds(v: Vars, Ks: seq<bv32>, W: seq<bv32>, n: nat): Vars
    requires |Ks| == 64 && |W| == 64 && n <= 64
  {
    if n == 0 then v else Round(Rounds(v, Ks, W, n - 1), Ks[n - 1], W[n - 1])
  }

  /** Rounds `n - 1` down to 0 run backwards. */
  function Unrounds(v: Vars, Ks: seq<bv32>, W: seq<bv32>, n: nat): Vars
    requires |Ks| == 64 && |W| == 64 && n <= 64
    decreases n
  {
    if n == 0 then v else Unrounds(Unround(v, Ks[n - 1], W[n - 1]), Ks, W, n - 1)
  }

  /** Running the rounds backwards undoes them. */
  lemma {:induction false} UnroundsRounds(v: Vars, Ks: seq<bv32>, W: seq<bv32>, n: nat)
    requires |Ks| == 64 && |W| == 64 && n <= 64
    ensures Unrounds(Rounds(v, Ks, W, n), Ks, W, n) == v
  {
    if n > 0 {
      UnroundRound(Rounds(v, Ks, W, n - 1), Ks[n - 1], W[n - 1]);
      UnroundsRounds(v, Ks, W, n - 1);
    }
  }

  /** Every state is reached by `n` rounds: the rounds are a bijection on
      the working variables for any schedule. */
  lemma {:induction false} RoundsUnrounds(v: Vars, Ks: seq<bv32>, W: seq<bv32>, n: nat)
    requires |Ks| == 64 && |W| == 64 && n <= 64
    ensures Rounds(Unrounds(v, Ks, W, n), Ks, W, n) == v
    decreases n
  {
    if n > 0 {
      var u := Unround(v, Ks[n - 1], W[n - 1]);
      RoundsUnrounds(u, Ks, W, n - 1);
      RoundUnround(v, Ks[n - 1], W[n - 1]);
    }
  }

  /** The eight words of an 8-word sequence: a..h loaded from
      hash[0..7], or the hash value the array holds. */
  function Load(H: seq<bv32>): Vars
    requires |H| == 8
  {
    Vars(H[0], H[1], H[2], H[3], H[4], H[5], H[6], H[7])
  }

  /** The eight words in the order of hash[0..7]. */
  function ToSeq(v: Vars): seq<bv32>
  {
    [v.a, v.b, v.c, v.d, v.e, v.f, v.g, v.h]
  }

  /** hash[k] += (working variable k), for k = 0..7. */
  function FeedForward(H: Vars, v: Vars): Vars
  {
    Vars(Add(H.a, v.a), Add(H.b, v.b), Add(H.c, v.c), Add(H.d, v.d),
         Add(H.e, v.e), Add(H.f, v.f), Add(H.g, v.g), Add(H.h, v.h))
  }

  /** Word-wise subtraction modulo 2^32. Not part of the C code. */
  function Difference(x: Vars, y: Vars): Vars
  {
    Vars(Sub(x.a, y.a), Sub(x.b, y.b), Sub(x.c, y.c), Sub(x.d, y.d),
         Sub(x.e, y.e), Sub(x.f, y.f), Sub(x.g, y.g), Sub(x.h, y.h))
  }

  /** The feed-forward adds the working variables to the hash value and
      nothing else: subtracting the old hash value gives them back. */
  lemma DifferenceFeedForward(H: Vars, v: Vars)
    ensures Difference(FeedForward(H, v), H) == v
  {
    SubAddLeft(H.a, v.a);
    SubAddLeft(H.b, v.b);
    SubAddLeft(H.c, v.c);
    SubAddLeft(H.d, v.d);
    SubAddLeft(H.e, v.e);
    SubAddLeft(H.f, v.f);
    SubAddLeft(H.g, v.g);
    SubAddLeft(H.h, v.h);
  }

  /** The hash value after one more block: the 64 rounds over the
      schedule of the block, started from the hash value, then the
      feed-forward. */
  function Compress(H: Vars, block: seq<bv32>): Vars
    requires |block| == 16
  {
    FeedForward(H, Rounds(H, K, Schedule(block), 64))
  }

  /** The feed-forward is the only step of the compression that needs the
      old hash value to be undone: subtracting it from the new hash value
      and running the rounds backwards gives the old hash value. */
  lemma CompressUnwinds(H: Vars, block: seq<bv32>)
    requires |block| == 16
    ensures Unrounds(Difference(Compress(H, block), H), K, Schedule(block), 64) == H
  {
    DifferenceFeedForward(H, Rounds(H, K, Schedule(block), 64));
    UnroundsRounds(H, K, Schedule(block), 64);
  }

  /** Every block has sixteen words. */
  predicate WellFormedBlocks(blocks: seq<seq<bv32>>)
  {
    forall i :: 0 <= i < |blocks| ==> |blocks[i]| == 16
  }

  /** The hash value after compressing the blocks in order, starting from
      `H`: the output of each block is the input of the next. */
  function HashBlocks(H: Vars, blocks: seq<seq<bv32>>): Vars
    requires WellFormedBlocks(blocks)
  {
    if blocks == [] then H
    else Compress(HashBlocks(H, blocks[..|blocks| - 1]), blocks[|blocks| - 1])
  }

  /** Joining two sequences of sixteen-word blocks gives one. */
  lemma WellFormedAppend(xs: seq<seq<bv32>>, ys: seq<seq<bv32>>)
    requires WellFormedBlocks(xs) && WellFormedBlocks(ys)
    ensures WellFormedBlocks(xs + ys)
  {
    var zs := xs + ys;
    forall i | 0 <= i < |zs|
      ensures |zs[i]| == 16
    {
      if i >= |xs| {
        assert zs[i] == ys[i - |xs|];
      }
    }
  }

  /** Hashing the blocks of `xs + ys` is hashing `ys` starting from the
      hash value reached after `xs`. */
  lemma {:induction false} HashBlocksAppend(H: Vars, xs: seq<seq<bv32>>, ys: seq<seq<bv32>>)
    requires WellFormedBlocks(xs) && WellFormedBlocks(ys)
    ensures WellFormedBlocks(xs + ys)
    ensures HashBlocks(H, xs + ys) == HashBlocks(HashBlocks(H, xs), ys)
    decreases |ys|
  {
    var zs := xs + ys;
    WellFormedAppend(xs, ys);
    if ys == [] {
      assert zs == xs;
    } else {
      var ys' := ys[..|ys| - 1];
      HashBlocksAppend(H, xs, ys');
      assert zs[..|zs| - 1] == xs + ys';
      assert zs[|zs| - 1] == ys[|ys| - 1];
    }
  }

  /** The SHA-256 hash value of a message: the blocks of the padded
      message hashed from H(0). */
  function Hash(msg: seq<bv8>): Vars
    requires |msg| < Two64
  {
    var p := Pad(msg);
    HashBlocks(InitialHash, Parse(p))
  }

  /** init_hash: stores H(0). */
  method InitHash(hash: array<bv32>)
    requires hash.Length == 8
    modifies hash
    ensures hash[..] == ToSeq(InitialHash)
  {
    hash[0] := 0x6a09e667;
    hash[1] := 0xbb67ae85;
    hash[2] := 0x3c6ef372;
    hash[3] := 0xa54ff53a;
    hash[4] := 0x510e527f;
    hash[5] := 0x9b05688c;
    hash[6] := 0x1f83d9ab;
    hash[7] := 0x5be0cd19;
  }

  /** The 64 rounds of sha256_hash on the working variables, starting
      from `v0`, with the schedule in `W`. */
  method RunRounds(v0: Vars, W: array<bv32>) returns (v: Vars)
    requires W.Length == 64
    ensures v == Rounds(v0, K, W[..], 64)
  {
    var a, b, c, d, e, f, g, h := v0.a, v0.b, v0.c, v0.d, v0.e, v0.f, v0.g, v0.h;
    for j := 0 to 64
      invariant Vars(a, b, c, d, e, f, g, h) == Rounds(v0, K, W[..], j)
    {
      var t1 := Add(Add(Add(Add(h, BigSigma1(e)), Ch(e, f, g)), K[j]), W[j]);
      var t2 := Add(BigSigma0(a), Maj(a, b, c));
      h := g;
      g := f;
      f := e;
      e := Add(d, t1);
      d := c;
      c := b;
      b := a;
      a := Add(t1, t2);
    }
    v := Vars(a, b, c, d, e, f, g, h);
  }

  /** The body of the block loop of sha256_hash for a block whose
      schedule is in `W`: load a..h from the hash value, run the 64 rounds,
      add a..h into the hash value. */
  method CompressBlock(hash: array<bv32>, W: array<bv32>)
    requires hash.Length == 8 && W.Length == 64
    modifies hash
    ensures Load(hash[..]) == FeedForward(Load(old(hash[..])), Rounds(Load(old(hash[..])), K, W[..], 64))
  {
    var v0 := Vars(hash[0], hash[1], hash[2], hash[3], hash[4], hash[5], hash[6], hash[7]);
    assert v0 == Load(hash[..]);
    var v := RunRounds(v0, W);
    hash[0] := Add(v0.a, v.a);
    hash[1] := Add(v0.b, v.b);
    hash[2] := Add(v0.c, v.c);
    hash[3] := Add(v0.d, v.d);
    hash[4] := Add(v0.e, v.e);
    hash[5] := Add(v0.f, v.f);
    hash[6] := Add(v0.g, v.g);
    hash[7] := Add(v0.h, v.h);
  }

  /** sha256_hash: stores in `hash` the SHA-256 hash value of `msg`. */
  method Sha256Hash(hash: array<bv32>, msg: seq<bv8>)
    requires hash.Length == 8 && |msg| <= MaxLength
    modifies hash
    ensures hash[..] == ToSeq(Hash(msg))
  {
    var W := new bv32[64](_ => 0);
    InitHash(hash);
    ToSeqLoad(hash[..]);
    var blocks, numBlocks := PadMessage(msg);
    ghost var bs := Parse(Pad(msg));
    HashLoop(hash, blocks, numBlocks, W, bs);
    ToSeqLoad(hash[..]);
  }

  /** The block loop of sha256_hash: block `i` (counted from 1) is
      expanded into `W` and compressed into `hash`, for `i` from 1 to
      `numBlocks`. */
  method HashLoop(hash: array<bv32>, blocks: array2<bv32>, numBlocks: nat, W: array<bv32>, ghost bs: seq<seq<bv32>>)
    requires hash.Length == 8 && W.Length == 64
    requires blocks.Length0 == numBlocks && blocks.Length1 == 16
    requires |bs| == numBlocks && WellFormedBlocks(bs)
    requires forall i, j :: 0 <= i < numBlocks && 0 <= j < 16 ==> blocks[i, j] == bs[i][j]
    modifies hash, W
    ensures Load(hash[..]) == HashBlocks(Load(old(hash[..])), bs)
  {
    ghost var H0 := Load(hash[..]);
    var i := 1;
    while i <= numBlocks
      invariant 1 <= i <= numBlocks + 1
      invariant Load(hash[..]) == HashBlocks(H0, bs[..i - 1])
    {
      ExpandBlock(blocks, i - 1, W);
      assert Row(blocks, i - 1) == bs[i - 1];
      ghost var Hold := Load(hash[..]);
      CompressBlock(hash, W);
      BlockStep(H0, bs, i, Hold, W[..]);
      i := i + 1;
    }
    assert bs[..numBlocks] == bs;
  }

  /** One more block: compressing block `i - 1` into the hash value reached
      after the first `i - 1` blocks gives the hash value after `i` blocks. */
  lemma BlockStep(H0: Vars, bs: seq<seq<bv32>>, i: nat, H: Vars, W: seq<bv32>)
    requires WellFormedBlocks(bs) && 1 <= i <= |bs|
    requires H == HashBlocks(H0, bs[..i - 1]) && W == Schedule(bs[i - 1])
    ensures FeedForward(H, Rounds(H, K, W, 64)) == HashBlocks(H0, bs[..i])
  {
    assert bs[..i][..i - 1] == bs[..i - 1];
  }

  /** `Load` loses nothing: the eight words come back in order. */
  lemma ToSeqLoad(H: seq<bv32>)
    requires |H| == 8
    ensures ToSeq(Load(H)) == H
  {
  }
}
