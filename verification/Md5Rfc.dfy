/** The MD5 digest as sections 3.1 to 3.5 of RFC 1321 define it. */
module Md5Rfc {
  import opened Bytes

  const WORD := 0x1_0000_0000

  type Block = s: seq<byte> | |s| == 64 witness seq(64, _ => 0)

  datatype Digest = Digest(a: bv32, b: bv32, c: bv32, d: bv32)

  /**
   * A digest algorithm over registers of type R: where they begin, what one block makes of them, and
   * the bytes they come out as. What is proved of buffering holds for every such machine.
   */
  datatype Machine<!R> = Machine(init: R, compress: (R, Block) -> R, output: R -> seq<byte>)

  function CompressAll<R>(m: Machine<R>, r: R, data: seq<byte>): R
    requires |data| % 64 == 0
    decreases |data|
  {
    if data == [] then r else CompressAll(m, m.compress(r, data[..64]), data[64..])
  }

  lemma CompressFirst<R>(m: Machine<R>, r: R, data: seq<byte>)
    requires |data| % 64 == 0 && |data| >= 64
    ensures CompressAll(m, r, data) == CompressAll(m, m.compress(r, data[..64]), data[64..])
  {
  }

  lemma {:induction false} CompressAllAppend<R>(m: Machine<R>, r: R, x: seq<byte>, y: seq<byte>)
    requires |x| % 64 == 0 && |y| % 64 == 0
    ensures CompressAll(m, r, x + y) == CompressAll(m, CompressAll(m, r, x), y)
    decreases |x|
  {
    if x == [] {
      assert x + y == y;
    } else {
      assert (x + y)[..64] == x[..64] && (x + y)[64..] == x[64..] + y;
      CompressAllAppend(m, m.compress(r, x[..64]), x[64..], y);
    }
  }

  /** `n` bytes of `v`, low-order byte first. */
  function LittleEndian(v: nat, n: nat): (r: seq<byte>)
    ensures |r| == n
  {
    if n == 0 then [] else [v % 256] + LittleEndian(v / 256, n - 1)
  }

  function Zeros(n: nat): (r: seq<byte>)
    ensures |r| == n
  {
    seq(n, _ => 0)
  }

  /** The fewest zeros after which the eight length bytes fill the last block. */
  function PadZeros(n: nat): (k: nat)
    ensures k < 64 && (n + (k + 9)) % 64 == 0
  {
    (119 - n % 64) % 64
  }

  /** Section 3.2: the length in bits modulo 2^64. */
  function LengthField(n: nat): (r: seq<byte>)
    ensures |r| == 8
  {
    LittleEndian(8 * n % (WORD * WORD), 8)
  }

  /** Sections 3.1 and 3.2: a one bit, zeros, and the length. */
  function Padding(n: nat): (r: seq<byte>)
    ensures |r| == PadZeros(n) + 9
    ensures (n + |r|) % 64 == 0
  {
    [0x80] + Zeros(PadZeros(n)) + LengthField(n)
  }

  function Hash<R>(m: Machine<R>, msg: seq<byte>): seq<byte> {
    m.output(CompressAll(m, m.init, msg + Padding(|msg|)))
  }

  // ----- the compression step of section 3.4

  /** One of four, by the remainder of `i`. */
  function OneOf<X>(i: nat, x0: X, x1: X, x2: X, x3: X): X {
    if i % 4 == 0 then x0 else if i % 4 == 1 then x1 else if i % 4 == 2 then x2 else x3
  }

  /** The table T. */
  function T(i: nat): bv32
    requires i < 64
  {
    if i < 4 then OneOf(i, 0xd76aa478, 0xe8c7b756, 0x242070db, 0xc1bdceee)
    else if i < 8 then OneOf(i, 0xf57c0faf, 0x4787c62a, 0xa8304613, 0xfd469501)
    else if i < 12 then OneOf(i, 0x698098d8, 0x8b44f7af, 0xffff5bb1, 0x895cd7be)
    else if i < 16 then OneOf(i, 0x6b901122, 0xfd987193, 0xa679438e, 0x49b40821)
    else if i < 20 then OneOf(i, 0xf61e2562, 0xc040b340, 0x265e5a51, 0xe9b6c7aa)
    else if i < 24 then OneOf(i, 0xd62f105d, 0x02441453, 0xd8a1e681, 0xe7d3fbc8)
    else if i < 28 then OneOf(i, 0x21e1cde6, 0xc33707d6, 0xf4d50d87, 0x455a14ed)
    else if i < 32 then OneOf(i, 0xa9e3e905, 0xfcefa3f8, 0x676f02d9, 0x8d2a4c8a)
    else if i < 36 then OneOf(i, 0xfffa3942, 0x8771f681, 0x6d9d6122, 0xfde5380c)
    else if i < 40 then OneOf(i, 0xa4beea44, 0x4bdecfa9, 0xf6bb4b60, 0xbebfbc70)
    else if i < 44 then OneOf(i, 0x289b7ec6, 0xeaa127fa, 0xd4ef3085, 0x04881d05)
    else if i < 48 then OneOf(i, 0xd9d4d039, 0xe6db99e5, 0x1fa27cf8, 0xc4ac5665)
    else if i < 52 then OneOf(i, 0xf4292244, 0x432aff97, 0xab9423a7, 0xfc93a039)
    else if i < 56 then OneOf(i, 0x655b59c3, 0x8f0ccc92, 0xffeff47d, 0x85845dd1)
    else if i < 60 then OneOf(i, 0x6fa87e4f, 0xfe2ce6e0, 0xa3014314, 0x4e0811a1)
    else OneOf(i, 0xf7537e82, 0xbd3af235, 0x2ad7d2bb, 0xeb86d391)
  }

  /** The word and the rotation that operation `i` uses. */
  function K(i: nat): (k: nat)
    requires i < 64
    ensures k < 16
  {
    if i < 16 then i
    else if i < 32 then (5 * i + 1) % 16
    else if i < 48 then (3 * i + 5) % 16
    else 7 * i % 16
  }

  function S(i: nat): (s: bv6)
    requires i < 64
    ensures 0 < s < 32
  {
    if i < 16 then OneOf(i, 7, 12, 17, 22)
    else if i < 32 then OneOf(i, 5, 9, 14, 20)
    else if i < 48 then OneOf(i, 4, 11, 16, 23)
    else OneOf(i, 6, 10, 15, 21)
  }

  // The auxiliary functions of section 3.4.

  function F(x: bv32, y: bv32, z: bv32): bv32 {
    (x & y) | (!x & z)
  }

  function G(x: bv32, y: bv32, z: bv32): bv32 {
    (x & z) | (y & !z)
  }

  function H(x: bv32, y: bv32, z: bv32): bv32 {
    x ^ y ^ z
  }

  function I(x: bv32, y: bv32, z: bv32): bv32 {
    y ^ (x | !z)
  }

  /** The one that operation `i` uses. */
  function Mix(i: nat, x: bv32, y: bv32, z: bv32): bv32 {
    if i < 16 then F(x, y, z) else if i < 32 then G(x, y, z) else if i < 48 then H(x, y, z) else I(x, y, z)
  }

  /** Addition modulo 2^32. */
  function Plus(x: bv32, y: bv32): bv32 {
    x + y
  }

  function Rotate(x: bv32, s: bv6): bv32
    requires 0 < s < 32
  {
    (x << s) | (x >> (32 - s))
  }

  function Word(block: Block, k: nat): bv32
    requires k < 16
  {
    Join(block[4 * k] as bv8, block[4 * k + 1] as bv8, block[4 * k + 2] as bv8, block[4 * k + 3] as bv8)
  }

  /** Four bytes as a word, low-order byte first. */
  function Join(b0: bv8, b1: bv8, b2: bv8, b3: bv8): bv32 {
    (b0 as bv32) | (b1 as bv32 << 8) | (b2 as bv32 << 16) | (b3 as bv32 << 24)
  }

  /** One operation; the registers come out renamed for the next one. */
  function Operation(r: Digest, x: bv32, i: nat): Digest
    requires i < 64
  {
    var sum := Plus(Plus(Plus(r.a, Mix(i, r.b, r.c, r.d)), x), T(i));
    Digest(r.d, Plus(Rotate(sum, S(i)), r.b), r.b, r.c)
  }

  /** The block as sixteen words. */
  function Words(block: Block): (x: seq<bv32>)
    ensures |x| == 16
  {
    seq(16, k requires 0 <= k < 16 => Word(block, k))
  }

  /** Operations `i` to 63. */
  function Operations(r: Digest, x: seq<bv32>, i: nat): Digest
    requires i <= 64 && |x| == 16
    decreases 64 - i, |x|
  {
    if i == 64 then r else Operations(Operation(r, x[K(i)], i), x, i + 1)
  }

  function Compress(r: Digest, block: Block): Digest {
    var s := Operations(r, Words(block), 0);
    Digest(Plus(s.a, r.a), Plus(s.b, r.b), Plus(s.c, r.c), Plus(s.d, r.d))
  }

  // ----- the digest

  const INIT := Digest(0x67452301, 0xefcdab89, 0x98badcfe, 0x10325476)

  function AsByte(b: bv8): byte {
    b as int
  }

  /** The bytes of a word, low-order byte first. */
  function WordBytes(w: bv32): (out: seq<byte>)
    ensures |out| == 4
  {
    [AsByte((w & 0xFF) as bv8), AsByte(((w >> 8) & 0xFF) as bv8),
     AsByte(((w >> 16) & 0xFF) as bv8), AsByte(((w >> 24) & 0xFF) as bv8)]
  }

  /** Section 3.5. */
  function Output(r: Digest): (out: seq<byte>)
    ensures |out| == 16
  {
    WordBytes(r.a) + WordBytes(r.b) + WordBytes(r.c) + WordBytes(r.d)
  }

  const RFC: Machine<Digest> := Machine(INIT, Compress, Output)

  function Md5(msg: seq<byte>): (out: seq<byte>)
    ensures |out| == 16
  {
    Hash(RFC, msg)
  }
}
