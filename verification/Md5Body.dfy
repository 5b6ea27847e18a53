/**
 * md5_impl.c: body, whose registers are unsigned longs. On a machine where those have 64 bits, nothing
 * clears the upper halves; the digest is in the lower ones.
 */
module Md5Body {
  import opened Bytes
  import opened Md5Rfc

  datatype Wide = Wide(a: bv64, b: bv64, c: bv64, d: bv64)

  function Low(x: bv64): bv32 {
    (x & 0xFFFF_FFFF) as bv32
  }

  function Narrow(w: Wide): Digest {
    Digest(Low(w.a), Low(w.b), Low(w.c), Low(w.d))
  }

  // The macros F, G, H and I; F and G are shorter forms of the functions of the RFC.

  function WideF(x: bv64, y: bv64, z: bv64): bv64 {
    z ^ (x & (y ^ z))
  }

  function WideG(x: bv64, y: bv64, z: bv64): bv64 {
    y ^ (z & (x ^ y))
  }

  function WideH(x: bv64, y: bv64, z: bv64): bv64 {
    x ^ y ^ z
  }

  function WideI(x: bv64, y: bv64, z: bv64): bv64 {
    y ^ (x | !z)
  }

  function WideMix(i: nat, x: bv64, y: bv64, z: bv64): bv64 {
    if i < 16 then WideF(x, y, z)
    else if i < 32 then WideG(x, y, z)
    else if i < 48 then WideH(x, y, z)
    else WideI(x, y, z)
  }

  /** Addition of unsigned longs. */
  function WidePlus(x: bv64, y: bv64): bv64 {
    x + y
  }

  /** The second line of the macro STEP: the upper half is masked out only on the way down. */
  function WideRotate(a: bv64, s: bv6): bv64
    requires 0 < s < 32
  {
    (a << s) | ((a & 0xFFFF_FFFF) >> (32 - s))
  }

  /** The macro SET. */
  function WideJoin(b0: bv8, b1: bv8, b2: bv8, b3: bv8): bv64 {
    (b0 as bv64) | (b1 as bv64 << 8) | (b2 as bv64 << 16) | (b3 as bv64 << 24)
  }

  function WideWord(ptr: Block, n: nat): bv64
    requires n < 16
  {
    WideJoin(ptr[4 * n] as bv8, ptr[4 * n + 1] as bv8, ptr[4 * n + 2] as bv8, ptr[4 * n + 3] as bv8)
  }

  lemma SumBits(x: bv64, y: bv64, lx: bv32, ly: bv32, sum: bv32)
    requires lx == (x & 0xFFFF_FFFF) as bv32 && ly == (y & 0xFFFF_FFFF) as bv32
    requires sum == ((x + y) & 0xFFFF_FFFF) as bv32
    ensures sum == lx + ly
  {
  }

  lemma LowOfPlainSum(x: bv64, y: bv64)
    ensures Low(x + y) == Low(x) + Low(y)
  {
    SumBits(x, y, Low(x), Low(y), Low(x + y));
  }

  lemma LowOfSum(x: bv64, y: bv64)
    ensures Low(WidePlus(x, y)) == Plus(Low(x), Low(y))
  {
    LowOfPlainSum(x, y);
  }

  lemma LowOfF(x: bv64, y: bv64, z: bv64)
    ensures Low(WideF(x, y, z)) == F(Low(x), Low(y), Low(z))
  {
  }

  lemma LowOfG(x: bv64, y: bv64, z: bv64)
    ensures Low(WideG(x, y, z)) == G(Low(x), Low(y), Low(z))
  {
  }

  lemma LowOfH(x: bv64, y: bv64, z: bv64)
    ensures Low(WideH(x, y, z)) == H(Low(x), Low(y), Low(z))
  {
  }

  lemma LowOfI(x: bv64, y: bv64, z: bv64)
    ensures Low(WideI(x, y, z)) == I(Low(x), Low(y), Low(z))
  {
  }

  lemma LowOfMix(i: nat, x: bv64, y: bv64, z: bv64)
    ensures Low(WideMix(i, x, y, z)) == Mix(i, Low(x), Low(y), Low(z))
  {
    LowOfF(x, y, z);
    LowOfG(x, y, z);
    LowOfH(x, y, z);
    LowOfI(x, y, z);
  }

  lemma LowOfRotate(a: bv64, s: bv6)
    requires 0 < s < 32
    ensures Low(WideRotate(a, s)) == Rotate(Low(a), s)
  {
  }

  lemma LowOfJoin(b0: bv8, b1: bv8, b2: bv8, b3: bv8)
    ensures Low(WideJoin(b0, b1, b2, b3)) == Join(b0, b1, b2, b3)
  {
  }

  lemma LowOfWord(ptr: Block, n: nat)
    requires n < 16
    ensures Low(WideWord(ptr, n)) == Word(ptr, n)
  {
    LowOfJoin(ptr[4 * n] as bv8, ptr[4 * n + 1] as bv8, ptr[4 * n + 2] as bv8, ptr[4 * n + 3] as bv8);
  }

  function Widened(t: bv32): bv64 {
    t as bv64
  }

  lemma LowOfConstant(t: bv32)
    ensures Low(Widened(t)) == t
  {
  }

  // The STEP lines as the source lists them: word, constant and rotation.

  type wordno = k: int | 0 <= k < 16

  type rotation = s: bv6 | 0 < s < 32 witness 1

  datatype Line = Line(word: wordno, constant: bv32, rotation: rotation)

  function LineAt(i: nat): Line
    requires i < 64
  {
    if i < 4 then OneOf(i,
           Line(0, 0xd76aa478, 7), Line(1, 0xe8c7b756, 12), Line(2, 0x242070db, 17), Line(3, 0xc1bdceee, 22))
    else if i < 8 then OneOf(i,
           Line(4, 0xf57c0faf, 7), Line(5, 0x4787c62a, 12), Line(6, 0xa8304613, 17), Line(7, 0xfd469501, 22))
    else if i < 12 then OneOf(i,
           Line(8, 0x698098d8, 7), Line(9, 0x8b44f7af, 12), Line(10, 0xffff5bb1, 17), Line(11, 0x895cd7be, 22))
    else if i < 16 then OneOf(i,
           Line(12, 0x6b901122, 7), Line(13, 0xfd987193, 12), Line(14, 0xa679438e, 17), Line(15, 0x49b40821, 22))
    else if i < 20 then OneOf(i,
           Line(1, 0xf61e2562, 5), Line(6, 0xc040b340, 9), Line(11, 0x265e5a51, 14), Line(0, 0xe9b6c7aa, 20))
    else if i < 24 then OneOf(i,
           Line(5, 0xd62f105d, 5), Line(10, 0x02441453, 9), Line(15, 0xd8a1e681, 14), Line(4, 0xe7d3fbc8, 20))
    else if i < 28 then OneOf(i,
           Line(9, 0x21e1cde6, 5), Line(14, 0xc33707d6, 9), Line(3, 0xf4d50d87, 14), Line(8, 0x455a14ed, 20))
    else if i < 32 then OneOf(i,
           Line(13, 0xa9e3e905, 5), Line(2, 0xfcefa3f8, 9), Line(7, 0x676f02d9, 14), Line(12, 0x8d2a4c8a, 20))
    else if i < 36 then OneOf(i,
           Line(5, 0xfffa3942, 4), Line(8, 0x8771f681, 11), Line(11, 0x6d9d6122, 16), Line(14, 0xfde5380c, 23))
    else if i < 40 then OneOf(i,
           Line(1, 0xa4beea44, 4), Line(4, 0x4bdecfa9, 11), Line(7, 0xf6bb4b60, 16), Line(10, 0xbebfbc70, 23))
    else if i < 44 then OneOf(i,
           Line(13, 0x289b7ec6, 4), Line(0, 0xeaa127fa, 11), Line(3, 0xd4ef3085, 16), Line(6, 0x04881d05, 23))
    else if i < 48 then OneOf(i,
           Line(9, 0xd9d4d039, 4), Line(12, 0xe6db99e5, 11), Line(15, 0x1fa27cf8, 16), Line(2, 0xc4ac5665, 23))
    else if i < 52 then OneOf(i,
           Line(0, 0xf4292244, 6), Line(7, 0x432aff97, 10), Line(14, 0xab9423a7, 15), Line(5, 0xfc93a039, 21))
    else if i < 56 then OneOf(i,
           Line(12, 0x655b59c3, 6), Line(3, 0x8f0ccc92, 10), Line(10, 0xffeff47d, 15), Line(1, 0x85845dd1, 21))
    else if i < 60 then OneOf(i,
           Line(8, 0x6fa87e4f, 6), Line(15, 0xfe2ce6e0, 10), Line(6, 0xa3014314, 15), Line(13, 0x4e0811a1, 21))
    else OneOf(i,
           Line(4, 0xf7537e82, 6), Line(11, 0xbd3af235, 10), Line(2, 0x2ad7d2bb, 15), Line(9, 0xeb86d391, 21))
  }

  predicate Agrees(i: nat)
    requires i < 64
  {
    LineAt(i).word == K(i) && LineAt(i).constant == T(i) && LineAt(i).rotation == S(i)
  }

  lemma Lines0()
    ensures forall i :: 0 <= i < 8 ==> Agrees(i)
  {
    assert Agrees(0) && Agrees(1) && Agrees(2) && Agrees(3);
    assert Agrees(4) && Agrees(5) && Agrees(6) && Agrees(7);
  }

  lemma Lines8()
    ensures forall i :: 8 <= i < 16 ==> Agrees(i)
  {
    assert Agrees(8) && Agrees(9) && Agrees(10) && Agrees(11);
    assert Agrees(12) && Agrees(13) && Agrees(14) && Agrees(15);
  }

  lemma Lines16()
    ensures forall i :: 16 <= i < 24 ==> Agrees(i)
  {
    assert Agrees(16) && Agrees(17) && Agrees(18) && Agrees(19);
    assert Agrees(20) && Agrees(21) && Agrees(22) && Agrees(23);
  }

  lemma Lines24()
    ensures forall i :: 24 <= i < 32 ==> Agrees(i)
  {
    assert Agrees(24) && Agrees(25) && Agrees(26) && Agrees(27);
    assert Agrees(28) && Agrees(29) && Agrees(30) && Agrees(31);
  }

  lemma Lines32()
    ensures forall i :: 32 <= i < 40 ==> Agrees(i)
  {
    assert Agrees(32) && Agrees(33) && Agrees(34) && Agrees(35);
    assert Agrees(36) && Agrees(37) && Agrees(38) && Agrees(39);
  }

  lemma Lines40()
    ensures forall i :: 40 <= i < 48 ==> Agrees(i)
  {
    assert Agrees(40) && Agrees(41) && Agrees(42) && Agrees(43);
    assert Agrees(44) && Agrees(45) && Agrees(46) && Agrees(47);
  }

  lemma Lines48()
    ensures forall i :: 48 <= i < 56 ==> Agrees(i)
  {
    assert Agrees(48) && Agrees(49) && Agrees(50) && Agrees(51);
    assert Agrees(52) && Agrees(53) && Agrees(54) && Agrees(55);
  }

  lemma Lines56()
    ensures forall i :: 56 <= i < 64 ==> Agrees(i)
  {
    assert Agrees(56) && Agrees(57) && Agrees(58) && Agrees(59);
    assert Agrees(60) && Agrees(61) && Agrees(62) && Agrees(63);
  }

  /** They are the words, constants and rotations of section 3.4 of RFC 1321. */
  lemma LinesAgree(i: nat)
    requires i < 64
    ensures LineAt(i).word == K(i) && LineAt(i).constant == T(i) && LineAt(i).rotation == S(i)
  {
    Lines0();
    Lines8();
    Lines16();
    Lines24();
    Lines32();
    Lines40();
    Lines48();
    Lines56();
    assert Agrees(i);
  }

  /** STEP line `i`, with the registers renamed for the next one. */
  function Step(r: Wide, ptr: Block, i: nat): Wide
    requires i < 64
  {
    var line := LineAt(i);
    var sum := WidePlus(WidePlus(WidePlus(r.a, WideMix(i, r.b, r.c, r.d)), WideWord(ptr, line.word)),
                        Widened(line.constant));
    Wide(r.d, WidePlus(WideRotate(sum, line.rotation), r.b), r.b, r.c)
  }

  /** On the wide registers it is one operation of the RFC on their lower halves. */
  lemma StepNarrows(r: Wide, ptr: Block, i: nat)
    requires i < 64
    ensures Narrow(Step(r, ptr, i)) == Operation(Narrow(r), Word(ptr, K(i)), i)
  {
    LinesAgree(i);
    var mix, x, t := WideMix(i, r.b, r.c, r.d), WideWord(ptr, K(i)), Widened(T(i));
    var sum1 := WidePlus(r.a, mix);
    var sum2 := WidePlus(sum1, x);
    var sum3 := WidePlus(sum2, t);
    LowOfMix(i, r.b, r.c, r.d);
    LowOfWord(ptr, K(i));
    LowOfConstant(T(i));
    LowOfSum(r.a, mix);
    LowOfSum(sum1, x);
    LowOfSum(sum2, t);
    LowOfRotate(sum3, S(i));
    LowOfSum(WideRotate(sum3, S(i)), r.b);
  }

  /** What body adds to the registers after each block. */
  function Added(r: Wide, saved: Wide): Wide {
    Wide(WidePlus(r.a, saved.a), WidePlus(r.b, saved.b), WidePlus(r.c, saved.c), WidePlus(r.d, saved.d))
  }

  lemma AddedNarrows(r: Wide, saved: Wide, block: Block)
    requires Narrow(r) == Operations(Narrow(saved), Words(block), 0)
    ensures Narrow(Added(r, saved)) == Compress(Narrow(saved), block)
  {
    LowOfSum(r.a, saved.a);
    LowOfSum(r.b, saved.b);
    LowOfSum(r.c, saved.c);
    LowOfSum(r.d, saved.d);
  }

  /** The STEP lines `i` to 63. */
  function WideRounds(r: Wide, ptr: Block, i: nat): Wide
    requires i <= 64
    decreases 64 - i, |ptr|
  {
    if i == 64 then r else WideRounds(Step(r, ptr, i), ptr, i + 1)
  }

  /** What body makes of the registers with one block. */
  function WideCompress(saved: Wide, ptr: Block): Wide {
    Added(WideRounds(saved, ptr, 0), saved)
  }

  lemma {:induction false} RoundsNarrow(r: Wide, ptr: Block, i: nat)
    requires i <= 64
    ensures Narrow(WideRounds(r, ptr, i)) == Operations(Narrow(r), Words(ptr), i)
    decreases 64 - i
  {
    if i < 64 {
      StepNarrows(r, ptr, i);
      RoundsNarrow(Step(r, ptr, i), ptr, i + 1);
    }
  }

  lemma CompressNarrows(saved: Wide, ptr: Block)
    ensures Narrow(WideCompress(saved, ptr)) == Compress(Narrow(saved), ptr)
  {
    RoundsNarrow(saved, ptr, 0);
    AddedNarrows(WideRounds(saved, ptr, 0), saved, ptr);
  }

  // ----- the output

  function WideBytes(x: bv64): seq<byte> {
    [AsByte((x & 0xFF) as bv8), AsByte(((x >> 8) & 0xFF) as bv8),
     AsByte(((x >> 16) & 0xFF) as bv8), AsByte(((x >> 24) & 0xFF) as bv8)]
  }

  /** The sixteen stores at the end of MD5_Final. */
  function WideOutput(r: Wide): seq<byte> {
    WideBytes(r.a) + WideBytes(r.b) + WideBytes(r.c) + WideBytes(r.d)
  }

  lemma LowByte0(x: bv64)
    ensures (x & 0xFF) as bv8 == (Low(x) & 0xFF) as bv8
  {
  }

  lemma LowByte1(x: bv64)
    ensures ((x >> 8) & 0xFF) as bv8 == ((Low(x) >> 8) & 0xFF) as bv8
  {
  }

  lemma LowByte2(x: bv64)
    ensures ((x >> 16) & 0xFF) as bv8 == ((Low(x) >> 16) & 0xFF) as bv8
  {
  }

  lemma LowByte3(x: bv64)
    ensures ((x >> 24) & 0xFF) as bv8 == ((Low(x) >> 24) & 0xFF) as bv8
  {
  }

  /** The stores take nothing from the upper halves. */
  lemma BytesOfLow(x: bv64)
    ensures WideBytes(x) == WordBytes(Low(x))
  {
    LowByte0(x);
    LowByte1(x);
    LowByte2(x);
    LowByte3(x);
  }

  lemma OutputNarrows(r: Wide)
    ensures WideOutput(r) == Output(Narrow(r))
  {
    BytesOfLow(r.a);
    BytesOfLow(r.b);
    BytesOfLow(r.c);
    BytesOfLow(r.d);
  }

  // ----- the whole digest

  const WIDE_INIT := Wide(0x67452301, 0xefcdab89, 0x98badcfe, 0x10325476)

  /** MD5 on the registers of the source. */
  const WIDE: Machine<Wide> := Machine(WIDE_INIT, WideCompress, WideOutput)

  lemma WholeBlock(data: seq<byte>)
    requires data != [] && |data| % 64 == 0
    ensures |data| >= 64 && |data[64..]| % 64 == 0
  {
  }

  /** Whatever the upper halves hold, the lower ones go through the compression of the RFC. */
  lemma {:induction false} FoldNarrows(r: Wide, data: seq<byte>)
    requires |data| % 64 == 0
    ensures Narrow(CompressAll(WIDE, r, data)) == CompressAll(RFC, Narrow(r), data)
    decreases |data|
  {
    if data != [] {
      WholeBlock(data);
      CompressNarrows(r, data[..64]);
      FoldNarrows(WideCompress(r, data[..64]), data[64..]);
    }
  }

  lemma InitNarrows()
    ensures Narrow(WIDE_INIT) == INIT
  {
  }

  /** Clearing nothing does no harm: the digest on the wide registers is the MD5 of the message. */
  lemma WideHashIsMd5(msg: seq<byte>)
    ensures Hash(WIDE, msg) == Md5(msg)
  {
    var data := msg + Padding(|msg|);
    InitNarrows();
    FoldNarrows(WIDE_INIT, data);
    OutputNarrows(CompressAll(WIDE, WIDE_INIT, data));
  }

  /** The sixty-four STEP lines, as one loop over their tables. */
  method Rounds(ptr: Block, saved: Wide) returns (r: Wide)
    ensures r == WideRounds(saved, ptr, 0)
  {
    r := saved;
    for i := 0 to 64
      invariant WideRounds(r, ptr, i) == WideRounds(saved, ptr, 0)
    {
      r := Step(r, ptr, i);
    }
  }

  /** One turn of the outer loop. */
  method OneBlock(ptr: Block, saved: Wide) returns (r: Wide)
    ensures r == WIDE.compress(saved, ptr)
  {
    r := Rounds(ptr, saved);
    r := Added(r, saved);
  }

  /** body, on the registers of the source. */
  method Body(ctx: Wide, data: seq<byte>) returns (r: Wide)
    requires data != [] && |data| % 64 == 0
    ensures r == CompressAll(WIDE, ctx, data)
    ensures Narrow(r) == CompressAll(RFC, Narrow(ctx), data)
  {
    var ptr := data;
    r := ctx;
    while ptr != []
      invariant |ptr| % 64 == 0
      invariant CompressAll(WIDE, r, ptr) == CompressAll(WIDE, ctx, data)
    {
      WholeBlock(ptr);
      CompressFirst(WIDE, r, ptr);
      r := OneBlock(ptr[..64], r);
      ptr := ptr[64..];
    }
    FoldNarrows(ctx, data);
  }
}
