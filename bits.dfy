/** The 32-bit word operations of SHA-256: modular addition, the right
    rotation ROTR and the six logical functions of section 4.1.2 of
    FIPS 180-4 (the macros ROTR, CH, MAJ, E0, E1, e0 and e1 of SHA-256.c).
    A `uint32_t` is a `bv32`; its arithmetic wraps modulo 2^32. */
module Bits {

  /** `x + y` on `uint32_t`: addition modulo 2^32. Every addition of the
      compression and of the message schedule goes through this function. */
  function Add(x: bv32, y: bv32): bv32
  {
    x + y
  }

  /** Subtraction modulo 2^32, the inverse of `Add`. The C code never
      subtracts; this is used to run a round backwards. */
  function Sub(x: bv32, y: bv32): bv32
  {
    x - y
  }

  /** `Sub` undoes `Add` and `Add` undoes `Sub`. */
  lemma AddSubInverse(x: bv32, y: bv32)
    ensures Sub(Add(x, y), y) == x
    ensures Add(Sub(x, y), y) == x
  {
    assert Sub(x + y, y) == x + y - y;
    assert Add(x - y, y) == x - y + y;
  }

  /** Subtracting the first operand of a sum gives the second. */
  lemma SubAddLeft(x: bv32, y: bv32)
    ensures Sub(Add(x, y), x) == y
  {
    assert Sub(x + y, x) == x + y - x;
  }

  /** ROTR(n, s): the shift-or form of a right rotation by `s` bits. The
      macro is only used with shift amounts in 1..31; with 0 it would shift
      by 32, which C leaves undefined. */
  function Rotr(n: bv32, s: bv32): bv32
    requires 0 < s < 32
  {
    (n >> s) | (n << (32 - s))
  }

  /** Rotating right by `s` and then by `32 - s` gives the word back: the
      shift-or form loses no bit. */
  lemma RotrInverse(n: bv32, s: bv32)
    requires 0 < s < 32
    ensures Rotr(Rotr(n, s), 32 - s) == n
  {
    RotrTwice(n, s);
    ShiftHalves(n, s);
  }

  /** Rotating back by `32 - s` puts the low `s` bits and the high
      `32 - s` bits of the word back in place. */
  lemma RotrTwice(n: bv32, s: bv32)
    requires 0 < s < 32
    ensures Rotr(Rotr(n, s), 32 - s) == ((n << (32 - s)) >> (32 - s)) | ((n >> s) << s)
  {
    RotrShiftRight(n, s);
    RotrShiftLeft(n, s);
  }

  /** Shifting a rotated word right by `32 - s` keeps only the low `s` bits
      of the word, which the rotation moved to the top. */
  lemma RotrShiftRight(n: bv32, s: bv32)
    requires 0 < s < 32
    ensures Rotr(n, s) >> (32 - s) == (n << (32 - s)) >> (32 - s)
  {
  }

  /** Shifting a rotated word left by `s` keeps only the high `32 - s` bits
      of the word, back in place. */
  lemma RotrShiftLeft(n: bv32, s: bv32)
    requires 0 < s < 32
    ensures Rotr(n, s) << s == (n >> s) << s
  {
  }

  /** The low `s` bits and the high `32 - s` bits of a word make up the
      word. */
  lemma ShiftHalves(n: bv32, s: bv32)
    requires 0 < s < 32
    ensures ((n << (32 - s)) >> (32 - s)) | ((n >> s) << s) == n
  {
  }

  /** CH: every bit of the result is taken from `y` where `x` has a one bit
      and from `z` where `x` has a zero bit. */
  function Ch(x: bv32, y: bv32, z: bv32): (r: bv32)
    ensures r & x == y & x
    ensures r & !x == z & !x
  {
    (x & y) ^ (!x & z)
  }

  /** MAJ: every bit of the result is the majority of the three input bits,
      i.e. it is set exactly when at least two of them are set. */
  function Maj(x: bv32, y: bv32, z: bv32): (r: bv32)
    ensures r == (x & y) | (x & z) | (y & z)
  {
    (x & y) ^ (x & z) ^ (y & z)
  }

  /** E0, the upper-case Sigma 0 of FIPS 180-4. */
  function BigSigma0(x: bv32): bv32
  {
    Rotr(x, 2) ^ Rotr(x, 13) ^ Rotr(x, 22)
  }

  /** E1, the upper-case Sigma 1 of FIPS 180-4. */
  function BigSigma1(x: bv32): bv32
  {
    Rotr(x, 6) ^ Rotr(x, 11) ^ Rotr(x, 25)
  }

  /** e0, the lower-case sigma 0 of FIPS 180-4. */
  function SmallSigma0(x: bv32): bv32
  {
    Rotr(x, 7) ^ Rotr(x, 18) ^ (x >> 3)
  }

  /** e1, the lower-case sigma 1 of FIPS 180-4. */
  function SmallSigma1(x: bv32): bv32
  {
    Rotr(x, 17) ^ Rotr(x, 19) ^ (x >> 10)
  }
}
