# SHA-256 in Dafny

A verified model of the SHA-256 implementation in `SHA-256.c`. It computes the
digest of a byte message as FIPS 180-4 specifies. First it pads the message
and parses it into 512-bit blocks of sixteen big-endian words (`pad_msg`).
Then, for each block, it expands the block into the 64-word message schedule
(`expand_blocks`). It runs the 64 rounds over the working variables a..h,
starting from the current hash value, and adds the result back into the hash
value (`sha256_hash`, with `init_hash` supplying H(0)).

The project has four modules, one per part of the C file:

- `Bits` (`bits.dfy`) covers `uint32_t` addition modulo 2^32 and the macros
  `ROTR`, `CH`, `MAJ`, `E0`, `E1`, `e0` and `e1` on `bv32`.
- `Padding` (`padding.dfy`) covers the padded length, the padded message
  `Pad`, the block parser `Parse` and their inverses. It also has `pad_msg`
  as the method `PadMessage`, over a zero-filled `array<bv8>` buffer and an
  `array2<bv32>` of blocks.
- `MessageSchedule` (`schedule.dfy`) covers the schedule as a function and
  `expand_blocks` as the method `ExpandBlock` over an `array<bv32>`.
- `Compression` (`compression.dfy`) covers the constants `K` and H(0), one
  round and its inverse, the compression of one block, the fold over the
  blocks (`HashBlocks`) and the digest `Hash`. It also has `sha256_hash` and
  `init_hash` as methods over the `hash` array.

Each C function is a method proved against a specification function:
- `Sha256Hash` ends with `hash[..] == ToSeq(Hash(msg))`;
- `PadMessage` ends with blocks equal to `Parse(Pad(msg))`;
- `ExpandBlock` ends with `W[..] == Schedule(block)`.

The specification functions then carry the properties of the standard. These
include the exact padded length, the layout of the padding, the round trips of
padding and parsing, the uniqueness of the schedule, the invertibility of the
rounds and the chaining of the blocks.

Messages are `seq<bv8>`, and the C `length` argument is `|msg|`. The model
accepts every length up to 2^64 - 73 bytes, the largest for which the padded
byte count still fits in the `uint64_t` the C code computes it in. For lengths
of 2^61 bytes or more, `num_bits = length * 8` wraps modulo 2^64; the model
does the same (`BitLength`, `BitLengthWraps`). Section 5.1.1 of FIPS
180-4 defines padding only for messages of fewer than 2^64 bits. The code does
not reject longer ones, and the model follows the code.

## Model

| member | source | states |
|---|---|---|
| `Bits.Add` | SHA-256.c:124-143 | Every `uint32_t +` of the rounds and the feed-forward, and of the schedule at line 97, modulo 2^32. A definition with no contract of its own; its partners are `AddSubInverse` and `SubAddLeft`. |
| `Bits.AddSubInverse` | SHA-256.c:124-133 | The wrapping `uint32_t` addition used by the rounds can be undone: `Sub(Add(x, y), y) == x` and `Add(Sub(x, y), y) == x`. |
| `Bits.SubAddLeft` | SHA-256.c:136-143 | Subtracting the first operand of a wrapping sum gives the second, as needed to undo `hash[k] += a`. |
| `Bits.Rotr` | SHA-256.c:24 | `ROTR(n, s)` as the same shift-or expression, for shift amounts 1..31. It is a definition with no contract of its own; `Bits.RotrInverse` states its property. |
| `Bits.RotrInverse` | SHA-256.c:24 | For every shift amount in 1..31, `ROTR` is a true rotation: rotating by `s` and then by `32 - s` gives the word back. |
| `Bits.Ch` | SHA-256.c:26 | `CH(x, y, z)` takes each bit from `y` where `x` has a one and from `z` where `x` has a zero. |
| `Bits.Maj` | SHA-256.c:27 | `MAJ(x, y, z)` is the bitwise majority, `(x & y) \| (x & z) \| (y & z)`. |
| `Bits.BigSigma0` | SHA-256.c:28 | `E0(x) = ROTR(x, 2) ^ ROTR(x, 13) ^ ROTR(x, 22)`. A definition with no contract of its own. |
| `Bits.BigSigma1` | SHA-256.c:29 | `E1(x) = ROTR(x, 6) ^ ROTR(x, 11) ^ ROTR(x, 25)`. A definition with no contract of its own. |
| `Bits.SmallSigma0` | SHA-256.c:30 | `e0(x) = ROTR(x, 7) ^ ROTR(x, 18) ^ (x >> 3)`. A definition with no contract of its own. |
| `Bits.SmallSigma1` | SHA-256.c:31 | `e1(x) = ROTR(x, 17) ^ ROTR(x, 19) ^ (x >> 10)`. A definition with no contract of its own. |
| `Padding.PadLen` | SHA-256.c:51-59 | `num_bytes` after the two adjustments is a multiple of 64 that is at least `length + 9` and less than `length + 73`, so it is the smallest such multiple. It spans `length / 64 + 1` blocks when `length % 64 < 56` and `length / 64 + 2` when `length % 64` is in 56..63. |
| `Padding.PadLenBoundary` | SHA-256.c:56-59 | At the two-tier boundary: 0 and 55 bytes pad to 64; 56, 64 and 119 bytes pad to 128; 120 bytes pad to 192. |
| `Padding.BitLength` | SHA-256.c:52 | `num_bits = length * 8` in `uint64_t` is a multiple of 8, and it equals the byte length times 8 exactly when the length is below 2^61. |
| `Padding.BitLengthWraps` | SHA-256.c:52 | For messages of 2^61 bytes or more, `num_bits` wraps: lengths 2^61 apart get the same length field. |
| `Padding.ByteOf` | SHA-256.c:68-75 | `(num_bits >> k) & 0xff` as one byte. A definition with no contract of its own, used by `LengthBytes`. |
| `Padding.LengthBytes` | SHA-256.c:68-75 | The eight bytes `(num_bits >> 56) & 0xff` down to `num_bits & 0xff`. Its partners are `DecodeLengthBytes` and `LengthBytesDecode`. |
| `Padding.DecodeLengthBytes` | SHA-256.c:68-75 | The eight bytes written for `num_bits`, most significant first, decode back to `num_bits`. |
| `Padding.LengthBytesDecode` | SHA-256.c:68-75 | Any eight bytes are the length field of the value they decode to, so the encoding is a bijection. |
| `Padding.Be32` | SHA-256.c:84 | `(t0 << 24) \| (t1 << 16) \| (t2 << 8) \| t3`. A definition with no contract of its own; its partners are `Be32WordToBytes` and `WordToBytesBe32`. |
| `Padding.Be32WordToBytes` | SHA-256.c:84 | The word `(t0 << 24) \| (t1 << 16) \| (t2 << 8) \| t3` built from the four big-endian bytes of a word is that word. |
| `Padding.WordToBytesBe32` | SHA-256.c:79-84 | The four big-endian bytes of the word built from `t0..t3` are `t0..t3`: no byte is lost. |
| `Padding.Pad` | SHA-256.c:62-75 | The padded buffer has `PadLen(length)` bytes. Bytes `[0, length)` are the message, byte `length` is 0x80, the bytes between it and the last 8 are zero (the `calloc` fill), and the last 8 are the big-endian `num_bits`. |
| `Padding.UnpadPad` | SHA-256.c:62-75 | For every message shorter than 2^61 bytes, the length field gives the message's length, so the padded buffer determines the message: `Unpad(Pad(msg)) == Some(msg)`. |
| `Padding.PaddedLengthField` | SHA-256.c:52-75 | Below 2^61 bytes, the last 8 bytes of the padded message, read back and shifted right by 3, give the message length. |
| `Padding.UnpadReads` | SHA-256.c:66-75 | When the length field of `p` gives the length of a message that pads to `p`, reading `p` back returns that message. |
| `Padding.PadInjective` | SHA-256.c:62-75 | Two messages that the padding accepts (fewer than 2^64 bytes) with the same padded buffer are equal, whether or not the length field wraps. |
| `Padding.PadMarker` | SHA-256.c:62-67 | A shorter message pads to a different buffer than a longer one: either the lengths differ, or the 0x80 marker of the longer one falls on a zero byte of the shorter one's `calloc` fill. |
| `Padding.Words` | SHA-256.c:78-85 | A byte sequence whose length is a multiple of 4 reads as one word per 4 bytes. |
| `Padding.WordsAt` | SHA-256.c:79-84 | Word `n` is read from bytes `4n .. 4n + 3`, most significant first. |
| `Padding.Bytes` | SHA-256.c:79-84 | Writing words back gives 4 bytes per word. |
| `Padding.BytesWords` | SHA-256.c:78-85 | Reading words and writing them back gives the bytes: the word decoding skips or reuses no byte. |
| `Padding.WordsBytes` | SHA-256.c:78-85 | Writing words and reading them back gives the words. |
| `Padding.Parse` | SHA-256.c:61-62 | The buffer splits into `num_bytes / 64` blocks of sixteen words each. |
| `Padding.ParseAt` | SHA-256.c:77-86 | Block `i` is read from bytes `64i .. 64i + 63`, so the blocks take the buffer in order. |
| `Padding.ParseWord` | SHA-256.c:79-84 | Word `j` of block `i` is the big-endian word of bytes `64i + 4j .. 64i + 4j + 3`. |
| `Padding.ChunkWord` | SHA-256.c:79-84 | Within the 64-byte chunk of block `i`, word `j` is read from bytes `64i + 4j .. 64i + 4j + 3` of the buffer. |
| `Padding.SerializeParse` | SHA-256.c:77-86 | Writing the parsed blocks back gives the buffer: the blocks partition the buffer with nothing skipped or reused. |
| `Padding.ParseSerialize` | SHA-256.c:77-86 | Any sequence of sixteen-word blocks, written out as bytes and parsed again, gives the same blocks. |
| `Padding.PadMessage` | SHA-256.c:49-89 | `pad_msg` allocates `num_bytes / 64` blocks (at least one, even for the empty message) whose word `j` of block `i` equals the parsed padded message. |
| `Padding.FillBuffer` | SHA-256.c:62-75 | The buffer of `num_bytes` bytes holds the message, then 0x80, then zeros, and ends with the 8-byte big-endian `num_bits`. |
| `Padding.PadLayout` | SHA-256.c:62-75 | A buffer with that layout is exactly `Pad(msg)`. |
| `Padding.ReadBlocks` | SHA-256.c:77-86 | After the nested loop, `(*blocks)[i].words[j]` is word `j` of block `i` of the parsed buffer for every `i` and `j`. |
| `MessageSchedule.SchedulePrefix` | SHA-256.c:93-98 | The first `n` schedule words start with the block's words and follow the recurrence from word 16 on. |
| `MessageSchedule.RecurrenceAppend` | SHA-256.c:96-97 | Appending a word leaves the recurrence intact at every earlier word: each entry depends only on earlier entries. |
| `MessageSchedule.Schedule` | SHA-256.c:91-98 | There are 64 words. Words 0..15 are the block, and for 16 <= i < 64, `W[i] = e1(W[i-2]) + W[i-7] + e0(W[i-15]) + W[i-16]` mod 2^32. |
| `MessageSchedule.ScheduleUnique` | SHA-256.c:91-98 | Any 64-word sequence that starts with the block and follows the recurrence is the schedule. |
| `MessageSchedule.PrefixUnique` | SHA-256.c:93-98 | Such a sequence agrees with the schedule on every prefix. |
| `MessageSchedule.Recurrence` | SHA-256.c:97 | `W[t] = e1(W[t-2]) + W[t-7] + e0(W[t-15]) + W[t-16]` mod 2^32. A definition with no contract of its own, used by the contracts of `Schedule` and `ScheduleUnique`. |
| `MessageSchedule.Row` | SHA-256.c:121 | `blocks[i-1]`, the sixteen words of one block of the block array. A definition with no contract of its own; `ExpandBlock` states its schedule. |
| `MessageSchedule.ExpandBlock` | SHA-256.c:91-98 | `expand_blocks` leaves in `W` exactly the schedule of the block. |
| `Compression.K` | SHA-256.c:7-16 | The 64 round constants, in order. A table with no contract of its own. |
| `Compression.InitialHash` | SHA-256.c:38-45 | The eight words of H(0). A table with no contract of its own; `InitHash` stores it. |
| `Compression.T1` | SHA-256.c:124 | `t1 = h + E1(e) + CH(e, f, g) + K[j] + W[j]` modulo 2^32. A definition with no contract of its own, used by `Round`. |
| `Compression.T2` | SHA-256.c:125 | `t2 = E0(a) + MAJ(a, b, c)` modulo 2^32. A definition with no contract of its own, used by `Round`. |
| `Compression.Load` | SHA-256.c:113-120 | `a = hash[0]` through `h = hash[7]`. A definition with no contract of its own; its partner is `ToSeqLoad`. |
| `Compression.UnroundRound` | SHA-256.c:123-134 | A round `(a..h) -> (t1 + t2, a, b, c, d + t1, e, f, g)` with `t1 = h + E1(e) + CH(e, f, g) + K[j] + W[j]` and `t2 = E0(a) + MAJ(a, b, c)` loses no information: running it backwards gives the state before it. |
| `Compression.RoundUnround` | SHA-256.c:123-134 | Every state is the result of a round, so a round is a bijection on the working variables. |
| `Compression.Round` | SHA-256.c:124-133 | One round: `(a..h) -> (t1 + t2, a, b, c, d + t1, e, f, g)` with `t1 = h + E1(e) + CH(e, f, g) + K[j] + W[j]` and `t2 = E0(a) + MAJ(a, b, c)`. A definition with no contract of its own; its partners are `UnroundRound` and `RoundUnround`. |
| `Compression.Rounds` | SHA-256.c:123-134 | The state after the first `n` rounds. A definition with no contract of its own; its partners are `UnroundsRounds`, `RoundsUnrounds` and `RunRounds`. |
| `Compression.UnroundsRounds` | SHA-256.c:123-134 | Running the first `n` rounds backwards undoes them, for any schedule. |
| `Compression.RoundsUnrounds` | SHA-256.c:123-134 | Every state is reached by `n` rounds, for any schedule. |
| `Compression.RunRounds` | SHA-256.c:123-134 | The round loop over the locals `a..h` ends with the state of 64 rounds with the table `K` and the schedule in `W`. |
| `Compression.FeedForward` | SHA-256.c:136-143 | `hash[k] += ` working variable `k`, for k = 0..7. A definition with no contract of its own; its partner is `DifferenceFeedForward`. |
| `Compression.DifferenceFeedForward` | SHA-256.c:136-143 | The feed-forward adds each working variable to its hash word and does nothing else: subtracting the old hash value gives the working variables back. |
| `Compression.Compress` | SHA-256.c:113-143 | One block: the 64 rounds over the block's schedule from the hash value, then the feed-forward. A definition with no contract of its own; its partners are `CompressUnwinds` and `CompressBlock`. |
| `Compression.CompressUnwinds` | SHA-256.c:112-144 | Compressing a block starting from hash value `H` can be undone given `H`: subtract `H` from the output and run the 64 rounds backwards. |
| `Compression.WellFormedAppend` | SHA-256.c:112 | Joining two sequences of sixteen-word blocks gives one. |
| `Compression.HashBlocks` | SHA-256.c:112-144 | The blocks compressed in order, each block's output the next block's input. A definition with no contract of its own; its partners are `HashBlocksAppend` and `HashLoop`. |
| `Compression.Hash` | SHA-256.c:102-148 | The digest: the blocks of the padded message folded by the compression from H(0). A definition with no contract of its own; `Sha256Hash` is proved to compute it. |
| `Compression.HashBlocksAppend` | SHA-256.c:112-144 | The block loop is a left fold: hashing `xs + ys` from `H` is hashing `ys` from the hash value reached after `xs`, so each block's output state is the next block's input. |
| `Compression.InitHash` | SHA-256.c:37-47 | `init_hash` leaves the eight constants of H(0), in order, in `hash[0..7]`. |
| `Compression.CompressBlock` | SHA-256.c:113-143 | One iteration of the block loop loads `a..h` from `hash`, runs the 64 rounds, and adds `a..h` into `hash[0..7]`. Nothing else in `hash` changes. |
| `Compression.HashLoop` | SHA-256.c:112-144 | After the loop over blocks 1..`num_blocks`, `hash` is the fold of the compression over the blocks, in order, from the hash value before the loop. |
| `Compression.BlockStep` | SHA-256.c:121-143 | Compressing block `i - 1` into the hash value reached after the first `i - 1` blocks gives the hash value after `i` blocks. |
| `Compression.Sha256Hash` | SHA-256.c:102-148 | `sha256_hash` leaves in `hash` the SHA-256 hash value of the message: the padded, parsed blocks folded by the compression from H(0). |
| `Compression.ToSeqLoad` | SHA-256.c:113-120 | Loading the eight hash words into a..h and writing them back in order gives the same eight words. |

## Left out

- main.c is a command-line demo built on `strlen` and `printf`, and it holds no
  logic. It is not part of this model, and neither is the rendering of the
  digest as hex text. SHA-256.h only declares `sha256_hash`.
- The allocation and release of memory are not modelled. `calloc` and `free`
  become Dafny allocation: the buffer is allocated zero-filled, and `blocks`
  is allocated fresh. A NULL return from `calloc`, which the C code does not
  check, is not modelled.
- `memcpy` and the eight stores of the length field are each one `forall`
  statement in `FillBuffer`, a simultaneous update writing the same bytes.
- `pad_msg` and `sha256_hash` are each split into a method and helpers
  (`FillBuffer`, `PadLayout` and `ReadBlocks`; `RunRounds`, `CompressBlock`
  and `HashLoop`). The statements are the C statements.
- `HashLoop` calls `ExpandBlock` before `CompressBlock` loads a..h from
  `hash`. The C code loads a..h before it calls `expand_blocks`. The swap
  changes nothing, because `expand_blocks` writes only `W` and reads neither
  `hash` nor a..h; the model does not keep the C order of these two steps.
- `CompressBlock` adds the working variables to the words it loaded from
  `hash[0..7]` before the rounds, where the C code re-reads `hash[k]`. The two
  are equal, because nothing writes `hash` in between.
- `Compression.Rounds` takes the round-constant table as a parameter, which
  `Compress` and `RunRounds` set to `K`. This keeps the 64-entry table out of
  the lemmas about the rounds, which hold for any table.
- `int i` in `sha256_hash` is compared with the `uint64_t num_blocks`. That
  comparison breaks beyond 2^31 blocks; the model's counter is unbounded.
- `PadMessage` and `Sha256Hash` require `|msg| <= 2^64 - 73`. Beyond that,
  `num_bytes` itself wraps in the C code, and the buffer would be shorter than
  the message.
- `Padding.UnpadPad` holds only for messages shorter than 2^61 bytes. From
  that length on, `num_bits` wraps and the length field no longer gives the
  message's length, so `Unpad`, which reads that field, does not recover the
  message. `Pad` itself stays injective over the whole range (`PadInjective`).
- `Bits.BigSigma0`, `Bits.BigSigma1`, `Bits.SmallSigma0` and
  `Bits.SmallSigma1` (`E0`, `E1`, `e0`, `e1`) are defined and used, but no
  property is proved about them beyond what the rounds and the schedule need.
- The derivation of `K` and H(0) from cube and square roots of primes is not
  modelled: it needs irrational arithmetic, so both are literal tables.
- No known-answer digest is proved. Evaluating 64 rounds on concrete inputs
  is beyond what the verifier handles here.
- The C `msg` is a `const char *`, and the model takes it as an immutable
  `seq<bv8>` captured at the call. The model therefore assumes that `msg`
  and `hash` do not overlap. The C code does not require this. When they
  overlap (for example `sha256_hash(h, (const char *)h, 32)`), `init_hash`
  (SHA-256.c:109) overwrites the message bytes with the words of H(0) before `pad_msg`
  copies them (SHA-256.c:110). The C code then hashes those overwritten
  bytes, while the model hashes the original message.
