/** SHA-1 as FIPS PUB 180-1 defines it, on messages of whole octets. */
module Sha1Standard {
  import opened Bytes

  const BLOCK: nat := 64
  const LENGTH_LIMIT: int := 0x1_0000_0000_0000_0000

  /** Five words: a chaining value, or the word buffers A to E. */
  datatype Words = Words(a: bv32, b: bv32, c: bv32, d: bv32, e: bv32)

  /** Section 7: the initial value. */
  const INITIAL := Words(0x67452301, 0xEFCDAB89, 0x98BADCFE, 0x10325476, 0xC3D2E1F0)

  /** Section 3: the circular left shift. */
  function Rotate(n: bv6, x: bv32): bv32
    requires 0 < n < 32
  {
    (x << n) | (x >> (32 - n))
  }

  /** Section 2: the word that four octets are the digits of, most significant first. */
  function WordOf(b0: byte, b1: byte, b2: byte, b3: byte): bv32 {
    0x100_0000 * (b0 as bv32) + 0x1_0000 * (b1 as bv32) + 0x100 * (b2 as bv32) + (b3 as bv32)
  }

  /** Addition modulo 2 to the 32. */
  function Add(x: bv32, y: bv32): bv32 {
    x + y
  }

  function Choose(b: bv32, c: bv32, d: bv32): bv32 {
    (b & c) | (!b & d)
  }

  function Parity(b: bv32, c: bv32, d: bv32): bv32 {
    b ^ c ^ d
  }

  function Majority(b: bv32, c: bv32, d: bv32): bv32 {
    (b & c) | (b & d) | (c & d)
  }

  /** Section 5: the function used in round `t`. */
  function F(t: nat, b: bv32, c: bv32, d: bv32): bv32 {
    if t < 20 then Choose(b, c, d)
    else if t < 40 then Parity(b, c, d)
    else if t < 60 then Majority(b, c, d)
    else Parity(b, c, d)
  }

  /** Section 6: the constant used in round `t`. */
  function K(t: nat): bv32 {
    if t < 20 then 0x5A827999 else if t < 40 then 0x6ED9EBA1 else if t < 60 then 0x8F1BBCDC else 0xCA62C1D6
  }

  function Mix(p: bv32, q: bv32, r: bv32, s: bv32): bv32 {
    Rotate(1, p ^ q ^ r ^ s)
  }

  type Block = s: seq<byte> | |s| == BLOCK witness Zeros(BLOCK)

  /** Section 7, steps a and b: word `t` of the schedule of a block. */
  function ScheduleWord(m: Block, t: nat): bv32 {
    if t < 16 then WordOf(m[4 * t], m[4 * t + 1], m[4 * t + 2], m[4 * t + 3])
    else Mix(ScheduleWord(m, t - 3), ScheduleWord(m, t - 8), ScheduleWord(m, t - 14), ScheduleWord(m, t - 16))
  }

  function Schedule(m: Block): (w: seq<bv32>)
    ensures |w| == 80 && forall t :: 0 <= t < 80 ==> w[t] == ScheduleWord(m, t)
  {
    seq(80, t requires 0 <= t < 80 => ScheduleWord(m, t))
  }

  /** Step d: one round. */
  function Round(t: nat, w: bv32, x: Words): Words {
    Words(Add(Add(Add(Add(Rotate(5, x.a), F(t, x.b, x.c, x.d)), x.e), w), K(t)), x.a, Rotate(30, x.b), x.c, x.d)
  }

  /** The word buffers after one round for each word of `w`. */
  function Rounds(w: seq<bv32>, x: Words): Words {
    if w == [] then x else Round(|w| - 1, w[|w| - 1], Rounds(w[..|w| - 1], x))
  }

  function Plus(x: Words, y: Words): Words {
    Words(Add(x.a, y.a), Add(x.b, y.b), Add(x.c, y.c), Add(x.d, y.d), Add(x.e, y.e))
  }

  /** Steps c to e: the chaining value after a block. */
  function Compress(h: Words, m: Block): Words {
    Plus(h, Rounds(Schedule(m), h))
  }

  /** The chaining value after the whole blocks of `s`. */
  function Chain(s: seq<byte>): Words
    requires |s| % BLOCK == 0
  {
    if |s| == 0 then INITIAL
    else Compress(Chain(s[..|s| - BLOCK]), s[|s| - BLOCK..])
  }

  /** The high word of a 64-bit length. */
  function HighWord(bits: nat): (h: uint32)
    requires bits < LENGTH_LIMIT
    ensures 0 <= bits - 0x1_0000_0000 * h < 0x1_0000_0000
  {
    assert 0 <= bits - 0x1_0000_0000 * (bits / 0x1_0000_0000) < 0x1_0000_0000;
    var h: uint32 :| 0 <= bits - 0x1_0000_0000 * h < 0x1_0000_0000;
    h
  }

  /** A length in bits as two words, most significant octet first. */
  function LengthField(bits: nat): (s: seq<byte>)
    requires bits < LENGTH_LIMIT
    ensures |s| == 8
  {
    hide BigEndian32, HighWord;
    BigEndian32(HighWord(bits)) + BigEndian32(bits - 0x1_0000_0000 * HighWord(bits))
  }

  /** The zero octets after the one bit: the length is then 56 modulo 64. */
  function ZeroFill(n: nat): (z: nat)
    ensures z < BLOCK && (n + 1 + z + 8) % BLOCK == 0 && (n + 1 + z + 8) / BLOCK == (n + 8) / BLOCK + 1
  {
    var r := n % BLOCK;
    assert n == BLOCK * (n / BLOCK) + r;
    if r <= 55 then 55 - r else 119 - r
  }

  /** Section 4: a one bit, zeros up to 448 modulo 512, and the length. */
  function Padding(n: nat): (s: seq<byte>)
    requires 8 * n < LENGTH_LIMIT
    ensures |s| == 1 + ZeroFill(n) + 8
  {
    [0x80] + Zeros(ZeroFill(n)) + LengthField(8 * n)
  }

  function Pad(m: seq<byte>): (s: seq<byte>)
    requires 8 * |m| < LENGTH_LIMIT
    ensures |s| % BLOCK == 0 && |s| / BLOCK == (|m| + 8) / BLOCK + 1
  {
    hide Padding, ZeroFill;
    m + Padding(|m|)
  }

  /** The message digest. */
  function Sha1(m: seq<byte>): Words
    requires 8 * |m| < LENGTH_LIMIT
  {
    Chain(Pad(m))
  }
}
