/** Preprocessing of the message: padding (section 5.1.1 of FIPS 180-4) and
    parsing into 512-bit blocks of sixteen big-endian words (sections 5.2.1
    and 3.1), as done by pad_msg in SHA-256.c. Messages are byte sequences;
    a byte is a `bv8`. The sizes BYTES_PER_BLOCK, WORDS_PER_BLOCK and
    BYTES_PER_WORD of the C code appear as the literals 64, 16 and 4. */
module Padding {

  datatype Option<T> = None | Some(value: T)

  const Two64: nat := 0x1_0000_0000_0000_0000

  /** The longest message whose padded byte count still fits in the
      `uint64_t` that pad_msg computes it in. For any longer message that
      count wraps around. */
  const MaxLength: nat := Two64 - 73

  /** The number of bytes of the padded message (num_bytes after the two
      adjustments of pad_msg): the smallest multiple of 64 that leaves room
      for the message, the 0x80 marker byte and the 8-byte length field. */
  function PadLen(length: nat): (n: nat)
    ensures n % 64 == 0
    ensures length + 9 <= n
    ensures n - 64 < length + 9
    ensures n / 64 == length / 64 + (if length % 64 < 56 then 1 else 2)
  {
    var grown := if length % 64 >= 56 then length + 64 else length;
    grown + (64 - grown % 64)
  }

  /** Messages of up to 55 bytes fit in one block; from 56 bytes on, the
      length field no longer fits after the marker and a second block is
      needed. */
  lemma PadLenBoundary()
    ensures PadLen(0) == 64 && PadLen(55) == 64
    ensures PadLen(56) == 128 && PadLen(64) == 128 && PadLen(119) == 128
    ensures PadLen(120) == 192
  {
  }

  /** num_bits = length * 8, computed in `uint64_t`. It is exact for
      messages shorter than 2^61 bytes (2^64 bits, the limit of section
      5.1.1 of FIPS 180-4) and wraps around modulo 2^64 for longer ones. */
  function BitLength(length: bv64): (bits: bv64)
    ensures bits & 7 == 0
    ensures length < 0x2000_0000_0000_0000 ==> bits >> 3 == length
    ensures bits >> 3 == length ==> length < 0x2000_0000_0000_0000
  {
    length * 8
  }

  /** The wrap-around of num_bits: a message 2^61 bytes longer gets the
      same length field. */
  lemma BitLengthWraps(length: bv64)
    ensures BitLength(length + 0x2000_0000_0000_0000) == BitLength(length)
  {
  }

  /** `(x >> shift) & 0xff` as a byte. */
  function ByteOf(x: bv64, shift: bv64): bv8
    requires shift < 64
  {
    ((x >> shift) & 0xff) as bv8
  }

  /** The 8-byte big-endian length field that ends the padded message. */
  function LengthBytes(bits: bv64): (r: seq<bv8>)
    ensures |r| == 8
  {
    [ByteOf(bits, 56), ByteOf(bits, 48), ByteOf(bits, 40), ByteOf(bits, 32),
     ByteOf(bits, 24), ByteOf(bits, 16), ByteOf(bits, 8), ByteOf(bits, 0)]
  }

  /** Reads an 8-byte big-endian length field back. */
  function DecodeLength(b: seq<bv8>): bv64
    requires |b| == 8
  {
    (b[0] as bv64 << 56) | (b[1] as bv64 << 48) | (b[2] as bv64 << 40) | (b[3] as bv64 << 32) |
    (b[4] as bv64 << 24) | (b[5] as bv64 << 16) | (b[6] as bv64 << 8) | b[7] as bv64
  }

  /** The length field loses nothing: decoding inverts encoding. */
  lemma DecodeLengthBytes(bits: bv64)
    ensures DecodeLength(LengthBytes(bits)) == bits
  {
  }

  /** ... and encoding inverts decoding. */
  lemma LengthBytesDecode(b: seq<bv8>)
    requires |b| == 8
    ensures LengthBytes(DecodeLength(b)) == b
  {
  }

  /** The big-endian word made of four bytes, `(t0 << 24) | (t1 << 16) |
      (t2 << 8) | t3` in pad_msg. */
  function Be32(b0: bv8, b1: bv8, b2: bv8, b3: bv8): bv32
  {
    (b0 as bv32 << 24) | (b1 as bv32 << 16) | (b2 as bv32 << 8) | b3 as bv32
  }

  /** The four bytes of a word, most significant first. */
  function WordToBytes(w: bv32): (r: seq<bv8>)
    ensures |r| == 4
  {
    [((w >> 24) & 0xff) as bv8, ((w >> 16) & 0xff) as bv8, ((w >> 8) & 0xff) as bv8, (w & 0xff) as bv8]
  }

  /** Reading a word back from its bytes gives the word. */
  lemma Be32WordToBytes(w: bv32)
    ensures Be32(WordToBytes(w)[0], WordToBytes(w)[1], WordToBytes(w)[2], WordToBytes(w)[3]) == w
  {
  }

  /** The bytes of the word read from four bytes are those bytes. */
  lemma WordToBytesBe32(b0: bv8, b1: bv8, b2: bv8, b3: bv8)
    ensures WordToBytes(Be32(b0, b1, b2, b3)) == [b0, b1, b2, b3]
  {
  }

  /** Helper: a `uint64_t` length taken to an integer and back is
      unchanged. */
  lemma LengthAsBv64(msg: seq<bv8>, length: bv64)
    requires |msg| == length as int
    ensures |msg| as bv64 == length
  {
  }

  /** The padded message (section 5.1.1 of FIPS 180-4): the message, the
      byte 0x80, zero bytes, then the 8-byte big-endian bit length. */
  function Pad(msg: seq<bv8>): (p: seq<bv8>)
    requires |msg| < Two64
    ensures |p| == PadLen(|msg|)
    ensures p[..|msg|] == msg
    ensures p[|msg|] == 0x80
    ensures forall k :: |msg| < k < |p| - 8 ==> p[k] == 0
    ensures p[|p| - 8..] == LengthBytes(BitLength(|msg| as bv64))
  {
    msg + [0x80] + seq(PadLen(|msg|) - |msg| - 9, _ => 0) + LengthBytes(BitLength(|msg| as bv64))
  }

  /** Recovers the message from a padded message by reading its length
      field, or `None` when `p` is not the padding of any message. */
  function Unpad(p: seq<bv8>): (r: Option<seq<bv8>>)
    ensures r.Some? ==> |r.value| + 9 <= |p| && p[..|r.value|] == r.value && p[|r.value|] == 0x80
  {
    if |p| < 8 then None
    else
      var bits := DecodeLength(p[|p| - 8..]);
      var length := (bits >> 3) as int;
      if length <= |p| && Pad(p[..length]) == p then Some(p[..length]) else None
  }

  /** Padding can be undone: the length field gives the message's length,
      and the message is that many leading bytes of the padded buffer, for
      every message of fewer than 2^61 bytes. */
  lemma UnpadPad(msg: seq<bv8>, length: bv64)
    requires |msg| == length as int && length < 0x2000_0000_0000_0000
    ensures Unpad(Pad(msg)) == Some(msg)
  {
    PaddedLengthField(msg, length);
    UnpadReads(Pad(msg), msg);
  }

  /** `Unpad` returns the message whose length the field gives when that
      message pads to `p`. */
  lemma UnpadReads(p: seq<bv8>, msg: seq<bv8>)
    requires |msg| < Two64 && p == Pad(msg) && |p| >= 8
    requires (DecodeLength(p[|p| - 8..]) >> 3) as int == |msg|
    ensures Unpad(p) == Some(msg)
  {
    assert p[..|msg|] == msg;
  }

  /** The length field of the padded message, read back and divided by 8,
      is the length of the message. */
  lemma PaddedLengthField(msg: seq<bv8>, length: bv64)
    requires |msg| == length as int && length < 0x2000_0000_0000_0000
    ensures |Pad(msg)| >= 8
    ensures (DecodeLength(Pad(msg)[|Pad(msg)| - 8..]) >> 3) as int == |msg|
  {
    LengthAsBv64(msg, length);
    var p := Pad(msg);
    TrailerDecodes(p, BitLength(length));
    BitLengthDecodes(msg, length);
  }

  /** Helper: the last 8 bytes of a buffer that ends in a length field
      decode to that field's value. */
  lemma TrailerDecodes(p: seq<bv8>, bits: bv64)
    requires |p| >= 8 && p[|p| - 8..] == LengthBytes(bits)
    ensures DecodeLength(p[|p| - 8..]) == bits
  {
    DecodeLengthBytes(bits);
  }

  /** Helper: `BitLength`'s contract, taken to an integer. */
  lemma BitLengthDecodes(msg: seq<bv8>, length: bv64)
    requires |msg| == length as int && length < 0x2000_0000_0000_0000
    ensures (BitLength(length) >> 3) as int == |msg|
  {
  }

  /** `Pad` is injective on every message it accepts: the padded buffer
      determines the message whether or not its length field wraps. */
  lemma PadInjective(m1: seq<bv8>, m2: seq<bv8>)
    requires |m1| < Two64 && |m2| < Two64
    requires Pad(m1) == Pad(m2)
    ensures m1 == m2
  {
    if |m1| < |m2| {
      PadMarker(m1, m2);
    } else if |m2| < |m1| {
      PadMarker(m2, m1);
    } else {
      assert m1 == Pad(m1)[..|m1|] == Pad(m2)[..|m2|] == m2;
    }
  }

  /** A shorter message pads to a different buffer: at the index where the
      longer one has its marker 0x80, the shorter one has a zero of its
      fill, or the buffers differ in length. */
  lemma PadMarker(short: seq<bv8>, long: seq<bv8>)
    requires |short| < |long| < Two64
    ensures Pad(short) != Pad(long)
  {
    if |Pad(short)| == |Pad(long)| {
      assert Pad(long)[|long|] == 0x80;
      assert Pad(short)[|long|] == 0;
    }
  }

  /** The words of a byte sequence, four big-endian bytes each. */
  function Words(p: seq<bv8>): (ws: seq<bv32>)
    requires |p| % 4 == 0
    ensures |ws| == |p| / 4
    decreases |p|
  {
    if p == [] then [] else [Be32(p[0], p[1], p[2], p[3])] + Words(p[4..])
  }

  lemma {:induction false} WordsAt(p: seq<bv8>, n: nat)
    requires |p| % 4 == 0 && n < |p| / 4
    ensures Words(p)[n] == Be32(p[4 * n], p[4 * n + 1], p[4 * n + 2], p[4 * n + 3])
    decreases |p|
  {
    if n > 0 {
      WordsAt(p[4..], n - 1);
    }
  }

  /** The bytes of a word sequence, the inverse of `Words`. */
  function Bytes(ws: seq<bv32>): (p: seq<bv8>)
    ensures |p| == 4 * |ws|
  {
    if ws == [] then [] else WordToBytes(ws[0]) + Bytes(ws[1..])
  }

  lemma {:induction false} BytesWords(p: seq<bv8>)
    requires |p| % 4 == 0
    ensures Bytes(Words(p)) == p
    decreases |p|
  {
    if p != [] {
      BytesWords(p[4..]);
      WordToBytesBe32(p[0], p[1], p[2], p[3]);
      assert Words(p)[1..] == Words(p[4..]);
      assert p == [p[0], p[1], p[2], p[3]] + p[4..];
    }
  }

  lemma {:induction false} WordsBytes(ws: seq<bv32>)
    ensures Words(Bytes(ws)) == ws
  {
    if ws != [] {
      WordsBytes(ws[1..]);
      Be32WordToBytes(ws[0]);
      var p := Bytes(ws);
      assert p[4..] == Bytes(ws[1..]);
      assert ws == [ws[0]] + ws[1..];
    }
  }

  /** The blocks of a padded message: each 64-byte chunk read as sixteen
      words (the nested loop of pad_msg). */
  function Parse(p: seq<bv8>): (blocks: seq<seq<bv32>>)
    requires |p| % 64 == 0
    ensures |blocks| == |p| / 64
    ensures forall i :: 0 <= i < |blocks| ==> |blocks[i]| == 16
    decreases |p|
  {
    if p == [] then [] else [Words(p[..64])] + Parse(p[64..])
  }

  /** Block `i` of the parsed message is read from bytes 64i to 64i + 63. */
  lemma {:induction false} ParseAt(p: seq<bv8>, i: nat)
    requires |p| % 64 == 0 && i < |p| / 64
    ensures Parse(p)[i] == Words(p[64 * i..64 * i + 64])
    decreases |p|
  {
    if i > 0 {
      ParseAt(p[64..], i - 1);
      assert p[64..][64 * (i - 1)..64 * (i - 1) + 64] == p[64 * i..64 * i + 64];
    }
  }

  /** Word `j` of block `i` of the parsed message is the big-endian word
      of bytes 64i + 4j to 64i + 4j + 3. */
  lemma ParseWord(p: seq<bv8>, i: nat, j: nat)
    requires |p| % 64 == 0 && i < |p| / 64 && j < 16
    ensures Parse(p)[i][j] == Be32(p[64 * i + 4 * j], p[64 * i + 4 * j + 1], p[64 * i + 4 * j + 2], p[64 * i + 4 * j + 3])
  {
    ParseAt(p, i);
    ChunkWord(p, i, j);
  }

  lemma ChunkWord(p: seq<bv8>, i: nat, j: nat)
    requires |p| % 64 == 0 && i < |p| / 64 && j < 16
    ensures Words(p[64 * i..64 * i + 64])[j] == Be32(p[64 * i + 4 * j], p[64 * i + 4 * j + 1], p[64 * i + 4 * j + 2], p[64 * i + 4 * j + 3])
  {
    var b := p[64 * i..64 * i + 64];
    WordsAt(b, j);
    assert b[4 * j] == p[64 * i + 4 * j] && b[4 * j + 1] == p[64 * i + 4 * j + 1];
    assert b[4 * j + 2] == p[64 * i + 4 * j + 2] && b[4 * j + 3] == p[64 * i + 4 * j + 3];
  }

  /** The bytes of a sequence of blocks, the inverse of `Parse`. */
  function Serialize(blocks: seq<seq<bv32>>): (p: seq<bv8>)
  {
    if blocks == [] then [] else Bytes(blocks[0]) + Serialize(blocks[1..])
  }

  lemma {:induction false} SerializeParse(p: seq<bv8>)
    requires |p| % 64 == 0
    ensures Serialize(Parse(p)) == p
    decreases |p|
  {
    if p != [] {
      SerializeParse(p[64..]);
      BytesWords(p[..64]);
      assert Parse(p)[1..] == Parse(p[64..]);
      assert p == p[..64] + p[64..];
    }
  }

  lemma {:induction false} ParseSerialize(blocks: seq<seq<bv32>>)
    requires forall i :: 0 <= i < |blocks| ==> |blocks[i]| == 16
    ensures |Serialize(blocks)| == 64 * |blocks|
    ensures Parse(Serialize(blocks)) == blocks
  {
    if blocks != [] {
      ParseSerialize(blocks[1..]);
      WordsBytes(blocks[0]);
      var p := Serialize(blocks);
      assert p[..64] == Bytes(blocks[0]);
      assert p[64..] == Serialize(blocks[1..]);
      assert blocks == [blocks[0]] + blocks[1..];
    }
  }

  /** pad_msg: copies the message into a zero-filled buffer `pmsg`,
      appends the marker and the length field, and reads the buffer into
      `numBlocks` freshly allocated blocks of sixteen words. The C length
      parameter is `|msg|`; row `i` of `blocks` is `(*blocks)[i].words`. */
  method PadMessage(msg: seq<bv8>) returns (blocks: array2<bv32>, numBlocks: nat)
    requires |msg| <= MaxLength
    ensures fresh(blocks)
    ensures numBlocks == |Pad(msg)| / 64
    ensures blocks.Length0 == numBlocks && blocks.Length1 == 16
    ensures forall i, j :: 0 <= i < numBlocks && 0 <= j < 16 ==> blocks[i, j] == Parse(Pad(msg))[i][j]
  {
    var length := |msg| as bv64;
    var numBytes: nat := |msg|;
    var numBits := BitLength(length);
    if numBytes % 64 >= 56 {
      numBytes := numBytes + 64;
    }
    numBytes := numBytes + (64 - numBytes % 64);

    numBlocks := numBytes / 64;
    blocks := new bv32[numBlocks, 16];
    var pmsg := FillBuffer(msg, numBits, numBytes);
    PadLayout(msg, pmsg, numBits, numBytes);
    ReadBlocks(pmsg, blocks);
  }

  /** The buffer part of pad_msg: a zero-filled buffer of `numBytes` bytes
      that receives a copy of the message, the marker 0x80 and, in its last
      8 bytes, num_bits. */
  method FillBuffer(msg: seq<bv8>, numBits: bv64, numBytes: nat) returns (pmsg: array<bv8>)
    requires |msg| + 9 <= numBytes
    ensures fresh(pmsg) && pmsg.Length == numBytes
    ensures forall k :: 0 <= k < |msg| ==> pmsg[k] == msg[k]
    ensures pmsg[|msg|] == 0x80
    ensures forall k :: |msg| < k < numBytes - 8 ==> pmsg[k] == 0
    ensures forall k :: numBytes - 8 <= k < numBytes ==> pmsg[k] == LengthBytes(numBits)[k - (numBytes - 8)]
  {
    pmsg := new bv8[numBytes](_ => 0);
    forall k | 0 <= k < |msg| {
      pmsg[k] := msg[k];
    }
    pmsg[|msg|] := 0x80;
    var field := LengthBytes(numBits);
    forall t | 0 <= t < 8 {
      pmsg[numBytes - 8 + t] := field[t];
    }
  }

  /** A buffer laid out as section 5.1.1 of FIPS 180-4 prescribes holds
      the padded message. */
  lemma PadLayout(msg: seq<bv8>, pmsg: array<bv8>, numBits: bv64, numBytes: nat)
    requires |msg| < Two64 && numBits == BitLength(|msg| as bv64) && numBytes == PadLen(|msg|)
    requires pmsg.Length == numBytes
    requires forall k :: 0 <= k < |msg| ==> pmsg[k] == msg[k]
    requires pmsg[|msg|] == 0x80
    requires forall k :: |msg| < k < numBytes - 8 ==> pmsg[k] == 0
    requires forall k :: numBytes - 8 <= k < numBytes ==> pmsg[k] == LengthBytes(numBits)[k - (numBytes - 8)]
    ensures pmsg[..] == Pad(msg)
  {
    var p := Pad(msg);
    forall k | 0 <= k < numBytes
      ensures pmsg[k] == p[k]
    {
      if k < |msg| {
        assert p[k] == p[..|msg|][k];
      } else if numBytes - 8 <= k {
        assert p[k] == p[|p| - 8..][k - (numBytes - 8)];
      }
    }
  }

  /** The nested loop of pad_msg: word `j` of block `i` is read from bytes
      64i + 4j to 64i + 4j + 3 of the buffer. */
  method ReadBlocks(pmsg: array<bv8>, blocks: array2<bv32>)
    requires pmsg.Length % 64 == 0
    requires blocks.Length0 == pmsg.Length / 64 && blocks.Length1 == 16
    modifies blocks
    ensures forall i, j :: 0 <= i < blocks.Length0 && 0 <= j < 16 ==> blocks[i, j] == Parse(pmsg[..])[i][j]
  {
    ghost var p := pmsg[..];
    for i := 0 to blocks.Length0
      invariant forall i', j' :: 0 <= i' < i && 0 <= j' < 16 ==> blocks[i', j'] == Parse(p)[i'][j']
    {
      for j := 0 to 16
        invariant forall i', j' :: 0 <= i' < i && 0 <= j' < 16 ==> blocks[i', j'] == Parse(p)[i'][j']
        invariant forall j' :: 0 <= j' < j ==> blocks[i, j'] == Parse(p)[i][j']
      {
        var t0 := pmsg[64 * i + 4 * j];
        var t1 := pmsg[64 * i + 4 * j + 1];
        var t2 := pmsg[64 * i + 4 * j + 2];
        var t3 := pmsg[64 * i + 4 * j + 3];
        ParseWord(p, i, j);
        blocks[i, j] := Be32(t0, t1, t2, t3);
      }
    }
  }
}
