/** One value of section A.5 of RFC 1321, which the definition must give. */
module Md5Value {
  import opened Bytes
  import opened Md5Rfc

  /** The letters a, b and c. */
  const ABC: seq<byte> := [0x61, 0x62, 0x63]

  /** The one block of that message: its bytes and the one bit, and 24 for the length in bits. */
  ghost predicate AbcWords(x: seq<bv32>) {
    |x| == 16 && x[0] == 0x80636261 && x[14] == 24 && forall k :: 0 < k < 16 && k != 14 ==> x[k] == 0
  }

  lemma WordOf(block: Block, k: nat, b0: byte, b1: byte, b2: byte, b3: byte)
    requires k < 16
    requires block[4 * k] == b0 && block[4 * k + 1] == b1 && block[4 * k + 2] == b2 && block[4 * k + 3] == b3
    ensures Word(block, k) == Join(b0 as bv8, b1 as bv8, b2 as bv8, b3 as bv8)
  {
  }

  lemma JoinedValues()
    ensures Join(0x61, 0x62, 0x63, 0x80) == 0x80636261 && Join(24, 0, 0, 0) == 24 && Join(0, 0, 0, 0) == 0
  {
  }

  lemma ZeroBytes(n: nat)
    ensures LittleEndian(0, n) == Zeros(n)
  {
  }

  lemma PaddedBytes()
    ensures var s := ABC + Padding(3);
            && |s| == 64 && s[..4] == [0x61, 0x62, 0x63, 0x80] && s[56] == 24
            && forall j :: 4 <= j < 64 && j != 56 ==> s[j] == 0
  {
    var length := LengthField(3);
    assert length == [24] + LittleEndian(0, 7);
    ZeroBytes(7);
    assert Padding(3) == [0x80] + Zeros(52) + length;
    var s := ABC + ([0x80] + Zeros(52) + length);
    assert forall j :: 4 <= j < 56 ==> s[j] == 0;
    assert forall j :: 56 <= j < 64 ==> s[j] == length[j - 56];
  }

  lemma FirstWord(block: Block)
    requires block[..4] == [0x61, 0x62, 0x63, 0x80]
    ensures Word(block, 0) == 0x80636261
  {
    assert block[0] == block[..4][0] && block[1] == block[..4][1];
    assert block[2] == block[..4][2] && block[3] == block[..4][3];
    WordOf(block, 0, 0x61, 0x62, 0x63, 0x80);
    JoinedValues();
  }

  lemma OtherWord(block: Block, k: nat)
    requires 0 < k < 16 && block[56] == 24 && forall j :: 4 <= j < 64 && j != 56 ==> block[j] == 0
    ensures Word(block, k) == if k == 14 then 24 else 0
  {
    WordOf(block, k, if k == 14 then 24 else 0, 0, 0, 0);
    JoinedValues();
  }

  lemma PaddedIsBlock()
    ensures |ABC + Padding(3)| == 64 && AbcWords(Words(ABC + Padding(3)))
  {
    PaddedBytes();
    var block := ABC + Padding(3);
    FirstWord(block);
    forall k | 0 < k < 16
      ensures Words(block)[k] == if k == 14 then 24 else 0
    {
      OtherWord(block, k);
    }
  }

  /**
   * One operation: the registers, the word, the constant and the rotation it uses, the value of its
   * auxiliary function, the partial sums, the rotated sum, and the register it changes.
   */
  lemma Turn(i: nat, a: bv32, b: bv32, c: bv32, d: bv32, w: bv32, t: bv32, s: bv6,
             m: bv32, s1: bv32, s2: bv32, s3: bv32, q: bv32, b': bv32)
    requires i < 64 && 0 < s < 32 && T(i) == t && S(i) == s && Mix(i, b, c, d) == m
    requires s1 == Plus(a, m) && s2 == Plus(s1, w) && s3 == Plus(s2, t) && q == Rotate(s3, s) && b' == Plus(q, b)
    ensures Operation(Digest(a, b, c, d), w, i) == Digest(d, b', b, c)
  {
  }

  lemma Sum(x: bv32, y: bv32, z: bv32)
    requires z == x + y
    ensures z == Plus(x, y)
  {
  }

  lemma Rotated(x: bv32, s: bv6, z: bv32)
    requires 0 < s < 32 && z == (x << s) | (x >> (32 - s))
    ensures z == Rotate(x, s)
  {
  }

  lemma TurnF(i: nat, a: bv32, b: bv32, c: bv32, d: bv32, w: bv32, t: bv32, s: bv6,
              m: bv32, s1: bv32, s2: bv32, s3: bv32, q: bv32, b': bv32)
    requires i < 16 && 0 < s < 32 && T(i) == t && S(i) == s && m == (b & c) | (!b & d)
    requires s1 == a + m && s2 == s1 + w && s3 == s2 + t && q == (s3 << s) | (s3 >> (32 - s)) && b' == q + b
    ensures Operation(Digest(a, b, c, d), w, i) == Digest(d, b', b, c)
  {
    IsF(i, b, c, d, m);
    Sum(a, m, s1);
    Sum(s1, w, s2);
    Sum(s2, t, s3);
    Rotated(s3, s, q);
    Sum(q, b, b');
    Turn(i, a, b, c, d, w, t, s, m, s1, s2, s3, q, b');
  }

  lemma IsF(i: nat, x: bv32, y: bv32, z: bv32, m: bv32)
    requires i < 16 && m == (x & y) | (!x & z)
    ensures m == Mix(i, x, y, z)
  {
  }

  lemma TurnG(i: nat, a: bv32, b: bv32, c: bv32, d: bv32, w: bv32, t: bv32, s: bv6,
              m: bv32, s1: bv32, s2: bv32, s3: bv32, q: bv32, b': bv32)
    requires 16 <= i < 32 && 0 < s < 32 && T(i) == t && S(i) == s && m == (b & d) | (c & !d)
    requires s1 == a + m && s2 == s1 + w && s3 == s2 + t && q == (s3 << s) | (s3 >> (32 - s)) && b' == q + b
    ensures Operation(Digest(a, b, c, d), w, i) == Digest(d, b', b, c)
  {
    IsG(i, b, c, d, m);
    Sum(a, m, s1);
    Sum(s1, w, s2);
    Sum(s2, t, s3);
    Rotated(s3, s, q);
    Sum(q, b, b');
    Turn(i, a, b, c, d, w, t, s, m, s1, s2, s3, q, b');
  }

  lemma IsG(i: nat, x: bv32, y: bv32, z: bv32, m: bv32)
    requires 16 <= i < 32 && m == (x & z) | (y & !z)
    ensures m == Mix(i, x, y, z)
  {
  }

  lemma TurnH(i: nat, a: bv32, b: bv32, c: bv32, d: bv32, w: bv32, t: bv32, s: bv6,
              m: bv32, s1: bv32, s2: bv32, s3: bv32, q: bv32, b': bv32)
    requires 32 <= i < 48 && 0 < s < 32 && T(i) == t && S(i) == s && m == b ^ c ^ d
    requires s1 == a + m && s2 == s1 + w && s3 == s2 + t && q == (s3 << s) | (s3 >> (32 - s)) && b' == q + b
    ensures Operation(Digest(a, b, c, d), w, i) == Digest(d, b', b, c)
  {
    IsH(i, b, c, d, m);
    Sum(a, m, s1);
    Sum(s1, w, s2);
    Sum(s2, t, s3);
    Rotated(s3, s, q);
    Sum(q, b, b');
    Turn(i, a, b, c, d, w, t, s, m, s1, s2, s3, q, b');
  }

  lemma IsH(i: nat, x: bv32, y: bv32, z: bv32, m: bv32)
    requires 32 <= i < 48 && m == x ^ y ^ z
    ensures m == Mix(i, x, y, z)
  {
  }

  lemma TurnI(i: nat, a: bv32, b: bv32, c: bv32, d: bv32, w: bv32, t: bv32, s: bv6,
              m: bv32, s1: bv32, s2: bv32, s3: bv32, q: bv32, b': bv32)
    requires 48 <= i < 64 && 0 < s < 32 && T(i) == t && S(i) == s && m == c ^ (b | !d)
    requires s1 == a + m && s2 == s1 + w && s3 == s2 + t && q == (s3 << s) | (s3 >> (32 - s)) && b' == q + b
    ensures Operation(Digest(a, b, c, d), w, i) == Digest(d, b', b, c)
  {
    IsI(i, b, c, d, m);
    Sum(a, m, s1);
    Sum(s1, w, s2);
    Sum(s2, t, s3);
    Rotated(s3, s, q);
    Sum(q, b, b');
    Turn(i, a, b, c, d, w, t, s, m, s1, s2, s3, q, b');
  }

  lemma IsI(i: nat, x: bv32, y: bv32, z: bv32, m: bv32)
    requires 48 <= i < 64 && m == y ^ (x | !z)
    ensures m == Mix(i, x, y, z)
  {
  }

  lemma Link(x: seq<bv32>, i: nat, r: Digest)
    requires i < 64 && |x| == 16
    ensures Operations(r, x, i) == Operations(Operation(r, x[K(i)], i), x, i + 1)
  {
  }

  /** Four operations whose words and results are known. */
  lemma FourLinks(x: seq<bv32>, i: nat, w0: bv32, w1: bv32, w2: bv32, w3: bv32,
                  r0: Digest, r1: Digest, r2: Digest, r3: Digest, r4: Digest)
    requires i < 61 && |x| == 16
    ensures x[K(i)] == w0 && x[K(i + 1)] == w1 && x[K(i + 2)] == w2 && x[K(i + 3)] == w3
            && Operation(r0, w0, i) == r1 && Operation(r1, w1, i + 1) == r2
            && Operation(r2, w2, i + 2) == r3 && Operation(r3, w3, i + 3) == r4
            ==> Operations(r0, x, i) == Operations(r4, x, i + 4)
  {
    Link(x, i, r0);
    Link(x, i + 1, r1);
    Link(x, i + 2, r2);
    Link(x, i + 3, r3);
  }

  lemma Turns0()
    ensures Operation(Digest(0x67452301, 0xefcdab89, 0x98badcfe, 0x10325476), 0x80636261, 0)
         == Digest(0x10325476, 0xd6d117b4, 0xefcdab89, 0x98badcfe)
    ensures Operation(Digest(0x10325476, 0xd6d117b4, 0xefcdab89, 0x98badcfe), 0x0, 1)
         == Digest(0x98badcfe, 0x344a8432, 0xd6d117b4, 0xefcdab89)
    ensures Operation(Digest(0x98badcfe, 0x344a8432, 0xd6d117b4, 0xefcdab89), 0x0, 2)
         == Digest(0xefcdab89, 0x2f6fbd72, 0x344a8432, 0xd6d117b4)
    ensures Operation(Digest(0xefcdab89, 0x2f6fbd72, 0x344a8432, 0xd6d117b4), 0x0, 3)
         == Digest(0xd6d117b4, 0x7ad956f2, 0x2f6fbd72, 0x344a8432)
  {
    TurnF(0, 0x67452301, 0xefcdab89, 0x98badcfe, 0x10325476, 0x80636261, 0xd76aa478, 7,
          0x98badcfe, 0xffffffff, 0x80636260, 0x57ce06d8, 0xe7036c2b, 0xd6d117b4);
    TurnF(1, 0x10325476, 0xd6d117b4, 0xefcdab89, 0x98badcfe, 0x0, 0xe8c7b756, 12,
          0xceebcbca, 0xdf1e2040, 0xdf1e2040, 0xc7e5d796, 0x5d796c7e, 0x344a8432);
    TurnF(2, 0x98badcfe, 0x344a8432, 0xd6d117b4, 0xefcdab89, 0x0, 0x242070db, 17,
          0xdfc52fb9, 0x78800cb7, 0x78800cb7, 0x9ca07d92, 0xfb253940, 0x2f6fbd72);
    TurnF(3, 0xefcdab89, 0x2f6fbd72, 0x344a8432, 0xd6d117b4, 0x0, 0xc1bdceee, 22,
          0xf4da86b6, 0xe4a8323f, 0xe4a8323f, 0xa666012d, 0x4b699980, 0x7ad956f2);
  }

  lemma From0(x: seq<bv32>)
    requires AbcWords(x)
    ensures Operations(Digest(0x67452301, 0xefcdab89, 0x98badcfe, 0x10325476), x, 0)
         == Operations(Digest(0xd6d117b4, 0x7ad956f2, 0x2f6fbd72, 0x344a8432), x, 4)
  {
    Turns0();
    assert K(0) == 0 && K(1) == 1 && K(2) == 2 && K(3) == 3;
    FourLinks(x, 0, 0x80636261, 0x0, 0x0, 0x0,
              Digest(0x67452301, 0xefcdab89, 0x98badcfe, 0x10325476),
              Digest(0x10325476, 0xd6d117b4, 0xefcdab89, 0x98badcfe),
              Digest(0x98badcfe, 0x344a8432, 0xd6d117b4, 0xefcdab89),
              Digest(0xefcdab89, 0x2f6fbd72, 0x344a8432, 0xd6d117b4),
              Digest(0xd6d117b4, 0x7ad956f2, 0x2f6fbd72, 0x344a8432));
  }

  lemma Turns4()
    ensures Operation(Digest(0xd6d117b4, 0x7ad956f2, 0x2f6fbd72, 0x344a8432), 0x0, 4)
         == Digest(0x344a8432, 0xc73741ef, 0x7ad956f2, 0x2f6fbd72)
    ensures Operation(Digest(0x344a8432, 0xc73741ef, 0x7ad956f2, 0x2f6fbd72), 0x0, 5)
         == Digest(0x2f6fbd72, 0x8bac3051, 0xc73741ef, 0x7ad956f2)
    ensures Operation(Digest(0x2f6fbd72, 0x8bac3051, 0xc73741ef, 0x7ad956f2), 0x0, 6)
         == Digest(0x7ad956f2, 0x207dc67b, 0x8bac3051, 0xc73741ef)
    ensures Operation(Digest(0x7ad956f2, 0x207dc67b, 0x8bac3051, 0xc73741ef), 0x0, 7)
         == Digest(0xc73741ef, 0x928d99f6, 0x207dc67b, 0x8bac3051)
  {
    TurnF(4, 0xd6d117b4, 0x7ad956f2, 0x2f6fbd72, 0x344a8432, 0x0, 0xf57c0faf, 7,
          0x2e4b9472, 0x051cac26, 0x051cac26, 0xfa98bbd5, 0x4c5deafd, 0xc73741ef);
    TurnF(5, 0x344a8432, 0xc73741ef, 0x7ad956f2, 0x2f6fbd72, 0x0, 0x4787c62a, 12,
          0x6a59fcf2, 0x9ea48124, 0x9ea48124, 0xe62c474e, 0xc474ee62, 0x8bac3051);
    TurnF(6, 0x2f6fbd72, 0x8bac3051, 0xc73741ef, 0x7ad956f2, 0x0, 0xa8304613, 17,
          0xf37546e3, 0x22e50455, 0x22e50455, 0xcb154a68, 0x94d1962a, 0x207dc67b);
    TurnF(7, 0x7ad956f2, 0x207dc67b, 0x8bac3051, 0xc73741ef, 0x0, 0xfd469501, 22,
          0xc72e01d5, 0x420758c7, 0x420758c7, 0x3f4dedc8, 0x720fd37b, 0x928d99f6);
  }

  lemma From4(x: seq<bv32>)
    requires AbcWords(x)
    ensures Operations(Digest(0xd6d117b4, 0x7ad956f2, 0x2f6fbd72, 0x344a8432), x, 4)
         == Operations(Digest(0xc73741ef, 0x928d99f6, 0x207dc67b, 0x8bac3051), x, 8)
  {
    Turns4();
    assert K(4) == 4 && K(5) == 5 && K(6) == 6 && K(7) == 7;
    FourLinks(x, 4, 0x0, 0x0, 0x0, 0x0,
              Digest(0xd6d117b4, 0x7ad956f2, 0x2f6fbd72, 0x344a8432),
              Digest(0x344a8432, 0xc73741ef, 0x7ad956f2, 0x2f6fbd72),
              Digest(0x2f6fbd72, 0x8bac3051, 0xc73741ef, 0x7ad956f2),
              Digest(0x7ad956f2, 0x207dc67b, 0x8bac3051, 0xc73741ef),
              Digest(0xc73741ef, 0x928d99f6, 0x207dc67b, 0x8bac3051));
  }

  lemma Turns8()
    ensures Operation(Digest(0xc73741ef, 0x928d99f6, 0x207dc67b, 0x8bac3051), 0x0, 8)
         == Digest(0x8bac3051, 0x854b3712, 0x928d99f6, 0x207dc67b)
    ensures Operation(Digest(0x8bac3051, 0x854b3712, 0x928d99f6, 0x207dc67b), 0x0, 9)
         == Digest(0x207dc67b, 0x74e2f284, 0x854b3712, 0x928d99f6)
    ensures Operation(Digest(0x207dc67b, 0x74e2f284, 0x854b3712, 0x928d99f6), 0x0, 10)
         == Digest(0x928d99f6, 0x3020401c, 0x74e2f284, 0x854b3712)
    ensures Operation(Digest(0x928d99f6, 0x3020401c, 0x74e2f284, 0x854b3712), 0x0, 11)
         == Digest(0x854b3712, 0x5ed49596, 0x3020401c, 0x74e2f284)
  {
    TurnF(8, 0xc73741ef, 0x928d99f6, 0x207dc67b, 0x8bac3051, 0x0, 0x698098d8, 7,
          0x092da073, 0xd064e262, 0xd064e262, 0x39e57b3a, 0xf2bd9d1c, 0x854b3712);
    TurnF(9, 0x8bac3051, 0x854b3712, 0x928d99f6, 0x207dc67b, 0x0, 0x8b44f7af, 12,
          0xa03dd17b, 0x2bea01cc, 0x2bea01cc, 0xb72ef97b, 0xef97bb72, 0x74e2f284);
    TurnF(10, 0x207dc67b, 0x74e2f284, 0x854b3712, 0x928d99f6, 0x0, 0xffff5bb1, 17,
          0x864f3b72, 0xa6cd01ed, 0xa6cd01ed, 0xa6cc5d9e, 0xbb3d4d98, 0x3020401c);
    TurnF(11, 0x928d99f6, 0x3020401c, 0x74e2f284, 0x854b3712, 0x0, 0x895cd7be, 22,
          0xb56b7706, 0x47f910fc, 0x47f910fc, 0xd155e8ba, 0x2eb4557a, 0x5ed49596);
  }

  lemma From8(x: seq<bv32>)
    requires AbcWords(x)
    ensures Operations(Digest(0xc73741ef, 0x928d99f6, 0x207dc67b, 0x8bac3051), x, 8)
         == Operations(Digest(0x854b3712, 0x5ed49596, 0x3020401c, 0x74e2f284), x, 12)
  {
    Turns8();
    assert K(8) == 8 && K(9) == 9 && K(10) == 10 && K(11) == 11;
    FourLinks(x, 8, 0x0, 0x0, 0x0, 0x0,
              Digest(0xc73741ef, 0x928d99f6, 0x207dc67b, 0x8bac3051),
              Digest(0x8bac3051, 0x854b3712, 0x928d99f6, 0x207dc67b),
              Digest(0x207dc67b, 0x74e2f284, 0x854b3712, 0x928d99f6),
              Digest(0x928d99f6, 0x3020401c, 0x74e2f284, 0x854b3712),
              Digest(0x854b3712, 0x5ed49596, 0x3020401c, 0x74e2f284));
  }

  lemma Turns12()
    ensures Operation(Digest(0x854b3712, 0x5ed49596, 0x3020401c, 0x74e2f284), 0x0, 12)
         == Digest(0x74e2f284, 0xdda9b9a6, 0x5ed49596, 0x3020401c)
    ensures Operation(Digest(0x74e2f284, 0xdda9b9a6, 0x5ed49596, 0x3020401c), 0x0, 13)
         == Digest(0x3020401c, 0xa1051895, 0xdda9b9a6, 0x5ed49596)
    ensures Operation(Digest(0x3020401c, 0xa1051895, 0xdda9b9a6, 0x5ed49596), 0x18, 14)
         == Digest(0x5ed49596, 0xe396856b, 0xa1051895, 0xdda9b9a6)
    ensures Operation(Digest(0x5ed49596, 0xe396856b, 0xa1051895, 0xdda9b9a6), 0x0, 15)
         == Digest(0xdda9b9a6, 0x72aff2e0, 0xe396856b, 0xa1051895)
  {
    TurnF(12, 0x854b3712, 0x5ed49596, 0x3020401c, 0x74e2f284, 0x0, 0x6b901122, 7,
          0x30226214, 0xb56d9926, 0xb56d9926, 0x20fdaa48, 0x7ed52410, 0xdda9b9a6);
    TurnF(13, 0x74e2f284, 0xdda9b9a6, 0x5ed49596, 0x3020401c, 0x0, 0xfd987193, 12,
          0x7c80d19e, 0xf163c422, 0xf163c422, 0xeefc35b5, 0xc35b5eef, 0xa1051895);
    TurnF(14, 0x3020401c, 0xa1051895, 0xdda9b9a6, 0x5ed49596, 0x18, 0xa679438e, 17,
          0xdfd19d86, 0x0ff1dda2, 0x0ff1ddba, 0xb66b2148, 0x42916cd6, 0xe396856b);
    TurnF(15, 0x5ed49596, 0xe396856b, 0xa1051895, 0xdda9b9a6, 0x0, 0x49b40821, 22,
          0xbd2d3885, 0x1c01ce1b, 0x1c01ce1b, 0x65b5d63c, 0x8f196d75, 0x72aff2e0);
  }

  lemma From12(x: seq<bv32>)
    requires AbcWords(x)
    ensures Operations(Digest(0x854b3712, 0x5ed49596, 0x3020401c, 0x74e2f284), x, 12)
         == Operations(Digest(0xdda9b9a6, 0x72aff2e0, 0xe396856b, 0xa1051895), x, 16)
  {
    Turns12();
    assert K(12) == 12 && K(13) == 13 && K(14) == 14 && K(15) == 15;
    FourLinks(x, 12, 0x0, 0x0, 0x18, 0x0,
              Digest(0x854b3712, 0x5ed49596, 0x3020401c, 0x74e2f284),
              Digest(0x74e2f284, 0xdda9b9a6, 0x5ed49596, 0x3020401c),
              Digest(0x3020401c, 0xa1051895, 0xdda9b9a6, 0x5ed49596),
              Digest(0x5ed49596, 0xe396856b, 0xa1051895, 0xdda9b9a6),
              Digest(0xdda9b9a6, 0x72aff2e0, 0xe396856b, 0xa1051895));
  }

  lemma Turns16()
    ensures Operation(Digest(0xdda9b9a6, 0x72aff2e0, 0xe396856b, 0xa1051895), 0x0, 16)
         == Digest(0xa1051895, 0x3e9e9126, 0x72aff2e0, 0xe396856b)
    ensures Operation(Digest(0xa1051895, 0x3e9e9126, 0x72aff2e0, 0xe396856b), 0x0, 17)
         == Digest(0xe396856b, 0x4a1d804e, 0x3e9e9126, 0x72aff2e0)
    ensures Operation(Digest(0xe396856b, 0x4a1d804e, 0x3e9e9126, 0x72aff2e0), 0x0, 18)
         == Digest(0x72aff2e0, 0xe25e1652, 0x4a1d804e, 0x3e9e9126)
    ensures Operation(Digest(0x72aff2e0, 0xe25e1652, 0x4a1d804e, 0x3e9e9126), 0x80636261, 19)
         == Digest(0x3e9e9126, 0xb5b204e4, 0xe25e1652, 0x4a1d804e)
  {
    TurnG(16, 0xdda9b9a6, 0x72aff2e0, 0xe396856b, 0xa1051895, 0x0, 0xf61e2562, 5,
          0x629795ea, 0x40414f90, 0x40414f90, 0x365f74f2, 0xcbee9e46, 0x3e9e9126);
    TurnG(17, 0xa1051895, 0x3e9e9126, 0x72aff2e0, 0xe396856b, 0x0, 0xc040b340, 9,
          0x32bff3a2, 0xd3c50c37, 0xd3c50c37, 0x9405bf77, 0x0b7eef28, 0x4a1d804e);
    TurnG(18, 0xe396856b, 0x4a1d804e, 0x3e9e9126, 0x72aff2e0, 0x0, 0x265e5a51, 14,
          0x4e1d8146, 0x31b406b1, 0x31b406b1, 0x58126102, 0x98409604, 0xe25e1652);
    TurnG(19, 0x72aff2e0, 0xe25e1652, 0x4a1d804e, 0x3e9e9126, 0x80636261, 0xe9b6c7aa, 20,
          0x621f104a, 0xd4cf032a, 0x5532658b, 0x3ee92d35, 0xd353ee92, 0xb5b204e4);
  }

  lemma From16(x: seq<bv32>)
    requires AbcWords(x)
    ensures Operations(Digest(0xdda9b9a6, 0x72aff2e0, 0xe396856b, 0xa1051895), x, 16)
         == Operations(Digest(0x3e9e9126, 0xb5b204e4, 0xe25e1652, 0x4a1d804e), x, 20)
  {
    Turns16();
    assert K(16) == 1 && K(17) == 6 && K(18) == 11 && K(19) == 0;
    FourLinks(x, 16, 0x0, 0x0, 0x0, 0x80636261,
              Digest(0xdda9b9a6, 0x72aff2e0, 0xe396856b, 0xa1051895),
              Digest(0xa1051895, 0x3e9e9126, 0x72aff2e0, 0xe396856b),
              Digest(0xe396856b, 0x4a1d804e, 0x3e9e9126, 0x72aff2e0),
              Digest(0x72aff2e0, 0xe25e1652, 0x4a1d804e, 0x3e9e9126),
              Digest(0x3e9e9126, 0xb5b204e4, 0xe25e1652, 0x4a1d804e));
  }

  lemma Turns20()
    ensures Operation(Digest(0x3e9e9126, 0xb5b204e4, 0xe25e1652, 0x4a1d804e), 0x0, 20)
         == Digest(0x4a1d804e, 0x59a8ffda, 0xb5b204e4, 0xe25e1652)
    ensures Operation(Digest(0x4a1d804e, 0x59a8ffda, 0xb5b204e4, 0xe25e1652), 0x0, 21)
         == Digest(0xe25e1652, 0x6d002f1e, 0x59a8ffda, 0xb5b204e4)
    ensures Operation(Digest(0xe25e1652, 0x6d002f1e, 0x59a8ffda, 0xb5b204e4), 0x0, 22)
         == Digest(0xb5b204e4, 0xabfc7920, 0x6d002f1e, 0x59a8ffda)
    ensures Operation(Digest(0xb5b204e4, 0xabfc7920, 0x6d002f1e, 0x59a8ffda), 0x0, 23)
         == Digest(0x59a8ffda, 0x47092c07, 0xabfc7920, 0x6d002f1e)
  {
    TurnG(20, 0x3e9e9126, 0xb5b204e4, 0xe25e1652, 0x4a1d804e, 0x0, 0xd62f105d, 5,
          0xa0521654, 0xdef0a77a, 0xdef0a77a, 0xb51fb7d7, 0xa3f6faf6, 0x59a8ffda);
    TurnG(21, 0x4a1d804e, 0x59a8ffda, 0xb5b204e4, 0xe25e1652, 0x0, 0x02441453, 9,
          0x55a816f6, 0x9fc59744, 0x9fc59744, 0xa209ab97, 0x13572f44, 0x6d002f1e);
    TurnG(22, 0xe25e1652, 0x6d002f1e, 0x59a8ffda, 0xb5b204e4, 0x0, 0xd8a1e681, 14,
          0x6d08ff1e, 0x4f671570, 0x4f671570, 0x2808fbf1, 0x3efc4a02, 0xabfc7920);
    TurnG(23, 0xb5b204e4, 0xabfc7920, 0x6d002f1e, 0x59a8ffda, 0x0, 0xe7d3fbc8, 20,
          0x2da87904, 0xe35a7de8, 0xe35a7de8, 0xcb2e79b0, 0x9b0cb2e7, 0x47092c07);
  }

  lemma From20(x: seq<bv32>)
    requires AbcWords(x)
    ensures Operations(Digest(0x3e9e9126, 0xb5b204e4, 0xe25e1652, 0x4a1d804e), x, 20)
         == Operations(Digest(0x59a8ffda, 0x47092c07, 0xabfc7920, 0x6d002f1e), x, 24)
  {
    Turns20();
    assert K(20) == 5 && K(21) == 10 && K(22) == 15 && K(23) == 4;
    FourLinks(x, 20, 0x0, 0x0, 0x0, 0x0,
              Digest(0x3e9e9126, 0xb5b204e4, 0xe25e1652, 0x4a1d804e),
              Digest(0x4a1d804e, 0x59a8ffda, 0xb5b204e4, 0xe25e1652),
              Digest(0xe25e1652, 0x6d002f1e, 0x59a8ffda, 0xb5b204e4),
              Digest(0xb5b204e4, 0xabfc7920, 0x6d002f1e, 0x59a8ffda),
              Digest(0x59a8ffda, 0x47092c07, 0xabfc7920, 0x6d002f1e));
  }

  lemma Turns24()
    ensures Operation(Digest(0x59a8ffda, 0x47092c07, 0xabfc7920, 0x6d002f1e), 0x0, 24)
         == Digest(0x6d002f1e, 0xb7f268cf, 0x47092c07, 0xabfc7920)
    ensures Operation(Digest(0x6d002f1e, 0xb7f268cf, 0x47092c07, 0xabfc7920), 0x18, 25)
         == Digest(0xabfc7920, 0x09388eff, 0xb7f268cf, 0x47092c07)
    ensures Operation(Digest(0xabfc7920, 0x09388eff, 0xb7f268cf, 0x47092c07), 0x0, 26)
         == Digest(0x47092c07, 0xfe1623b1, 0x09388eff, 0xb7f268cf)
    ensures Operation(Digest(0x47092c07, 0xfe1623b1, 0x09388eff, 0xb7f268cf), 0x0, 27)
         == Digest(0xb7f268cf, 0x786acb8f, 0xfe1623b1, 0x09388eff)
  {
    TurnG(24, 0x59a8ffda, 0x47092c07, 0xabfc7920, 0x6d002f1e, 0x0, 0x21e1cde6, 5,
          0xc7fc7c26, 0x21a57c00, 0x21a57c00, 0x438749e6, 0x70e93cc8, 0xb7f268cf);
    TurnG(25, 0x6d002f1e, 0xb7f268cf, 0x47092c07, 0xabfc7920, 0x18, 0xc33707d6, 9,
          0xe7f16c07, 0x54f19b25, 0x54f19b3d, 0x1828a313, 0x51462630, 0x09388eff);
    TurnG(26, 0xabfc7920, 0x09388eff, 0xb7f268cf, 0x47092c07, 0x0, 0xf4d50d87, 14,
          0xb1fa4ccf, 0x5df6c5ef, 0x5df6c5ef, 0x52cbd376, 0xf4dd94b2, 0xfe1623b1);
    TurnG(27, 0x47092c07, 0xfe1623b1, 0x09388eff, 0xb7f268cf, 0x0, 0x455a14ed, 20,
          0xbe1aa6b1, 0x0523d2b8, 0x0523d2b8, 0x4a7de7a5, 0x7a54a7de, 0x786acb8f);
  }

  lemma From24(x: seq<bv32>)
    requires AbcWords(x)
    ensures Operations(Digest(0x59a8ffda, 0x47092c07, 0xabfc7920, 0x6d002f1e), x, 24)
         == Operations(Digest(0xb7f268cf, 0x786acb8f, 0xfe1623b1, 0x09388eff), x, 28)
  {
    Turns24();
    assert K(24) == 9 && K(25) == 14 && K(26) == 3 && K(27) == 8;
    FourLinks(x, 24, 0x0, 0x18, 0x0, 0x0,
              Digest(0x59a8ffda, 0x47092c07, 0xabfc7920, 0x6d002f1e),
              Digest(0x6d002f1e, 0xb7f268cf, 0x47092c07, 0xabfc7920),
              Digest(0xabfc7920, 0x09388eff, 0xb7f268cf, 0x47092c07),
              Digest(0x47092c07, 0xfe1623b1, 0x09388eff, 0xb7f268cf),
              Digest(0xb7f268cf, 0x786acb8f, 0xfe1623b1, 0x09388eff));
  }

  lemma Turns28()
    ensures Operation(Digest(0xb7f268cf, 0x786acb8f, 0xfe1623b1, 0x09388eff), 0x0, 28)
         == Digest(0x09388eff, 0x790a77fb, 0x786acb8f, 0xfe1623b1)
    ensures Operation(Digest(0x09388eff, 0x790a77fb, 0x786acb8f, 0xfe1623b1), 0x0, 29)
         == Digest(0xfe1623b1, 0x9f47e4f8, 0x790a77fb, 0x786acb8f)
    ensures Operation(Digest(0xfe1623b1, 0x9f47e4f8, 0x790a77fb, 0x786acb8f), 0x0, 30)
         == Digest(0x786acb8f, 0xa62884aa, 0x9f47e4f8, 0x790a77fb)
    ensures Operation(Digest(0x786acb8f, 0xa62884aa, 0x9f47e4f8, 0x790a77fb), 0x0, 31)
         == Digest(0x790a77fb, 0x726342d3, 0xa62884aa, 0x9f47e4f8)
  {
    TurnG(28, 0xb7f268cf, 0x786acb8f, 0xfe1623b1, 0x09388eff, 0x0, 0xa9e3e905, 5,
          0xfe2eab8f, 0xb621145e, 0xb621145e, 0x6004fd63, 0x009fac6c, 0x790a77fb);
    TurnG(29, 0x09388eff, 0x790a77fb, 0x786acb8f, 0xfe1623b1, 0x0, 0xfcefa3f8, 9,
          0x786aebbf, 0x81a37abe, 0x81a37abe, 0x7e931eb6, 0x263d6cfd, 0x9f47e4f8);
    TurnG(30, 0xfe1623b1, 0x9f47e4f8, 0x790a77fb, 0x786acb8f, 0x0, 0x676f02d9, 14,
          0x1942f4f8, 0x175918a9, 0x175918a9, 0x7ec81b82, 0x06e09fb2, 0xa62884aa);
    TurnG(31, 0x786acb8f, 0xa62884aa, 0x9f47e4f8, 0x790a77fb, 0x0, 0x8d2a4c8a, 20,
          0xa64d84aa, 0x1eb85039, 0x1eb85039, 0xabe29cc3, 0xcc3abe29, 0x726342d3);
  }

  lemma From28(x: seq<bv32>)
    requires AbcWords(x)
    ensures Operations(Digest(0xb7f268cf, 0x786acb8f, 0xfe1623b1, 0x09388eff), x, 28)
         == Operations(Digest(0x790a77fb, 0x726342d3, 0xa62884aa, 0x9f47e4f8), x, 32)
  {
    Turns28();
    assert K(28) == 13 && K(29) == 2 && K(30) == 7 && K(31) == 12;
    FourLinks(x, 28, 0x0, 0x0, 0x0, 0x0,
              Digest(0xb7f268cf, 0x786acb8f, 0xfe1623b1, 0x09388eff),
              Digest(0x09388eff, 0x790a77fb, 0x786acb8f, 0xfe1623b1),
              Digest(0xfe1623b1, 0x9f47e4f8, 0x790a77fb, 0x786acb8f),
              Digest(0x786acb8f, 0xa62884aa, 0x9f47e4f8, 0x790a77fb),
              Digest(0x790a77fb, 0x726342d3, 0xa62884aa, 0x9f47e4f8));
  }

  lemma Turns32()
    ensures Operation(Digest(0x790a77fb, 0x726342d3, 0xa62884aa, 0x9f47e4f8), 0x0, 32)
         == Digest(0x9f47e4f8, 0xb3707ebf, 0x726342d3, 0xa62884aa)
    ensures Operation(Digest(0x9f47e4f8, 0xb3707ebf, 0x726342d3, 0xa62884aa), 0x0, 33)
         == Digest(0xa62884aa, 0x60127b2e, 0xb3707ebf, 0x726342d3)
    ensures Operation(Digest(0xa62884aa, 0x60127b2e, 0xb3707ebf, 0x726342d3), 0x0, 34)
         == Digest(0x726342d3, 0x8d212ff5, 0x60127b2e, 0xb3707ebf)
    ensures Operation(Digest(0x726342d3, 0x8d212ff5, 0x60127b2e, 0xb3707ebf), 0x18, 35)
         == Digest(0xb3707ebf, 0x3b0875c7, 0x8d212ff5, 0x60127b2e)
  {
    TurnH(32, 0x790a77fb, 0x726342d3, 0xa62884aa, 0x9f47e4f8, 0x0, 0xfffa3942, 4,
          0x4b0c2281, 0xc4169a7c, 0xc4169a7c, 0xc410d3be, 0x410d3bec, 0xb3707ebf);
    TurnH(33, 0x9f47e4f8, 0xb3707ebf, 0x726342d3, 0xa62884aa, 0x0, 0x8771f681, 11,
          0x673bb8c6, 0x06839dbe, 0x06839dbe, 0x8df5943f, 0xaca1fc6f, 0x60127b2e);
    TurnH(34, 0xa62884aa, 0x60127b2e, 0xb3707ebf, 0x726342d3, 0x0, 0x6d9d6122, 16,
          0xa1014742, 0x4729cbec, 0x4729cbec, 0xb4c72d0e, 0x2d0eb4c7, 0x8d212ff5);
    TurnH(35, 0x726342d3, 0x8d212ff5, 0x60127b2e, 0xb3707ebf, 0x18, 0xfde5380c, 23,
          0x5e432a64, 0xd0a66d37, 0xd0a66d4f, 0xce8ba55b, 0xade745d2, 0x3b0875c7);
  }

  lemma From32(x: seq<bv32>)
    requires AbcWords(x)
    ensures Operations(Digest(0x790a77fb, 0x726342d3, 0xa62884aa, 0x9f47e4f8), x, 32)
         == Operations(Digest(0xb3707ebf, 0x3b0875c7, 0x8d212ff5, 0x60127b2e), x, 36)
  {
    Turns32();
    assert K(32) == 5 && K(33) == 8 && K(34) == 11 && K(35) == 14;
    FourLinks(x, 32, 0x0, 0x0, 0x0, 0x18,
              Digest(0x790a77fb, 0x726342d3, 0xa62884aa, 0x9f47e4f8),
              Digest(0x9f47e4f8, 0xb3707ebf, 0x726342d3, 0xa62884aa),
              Digest(0xa62884aa, 0x60127b2e, 0xb3707ebf, 0x726342d3),
              Digest(0x726342d3, 0x8d212ff5, 0x60127b2e, 0xb3707ebf),
              Digest(0xb3707ebf, 0x3b0875c7, 0x8d212ff5, 0x60127b2e));
  }

  lemma Turns36()
    ensures Operation(Digest(0xb3707ebf, 0x3b0875c7, 0x8d212ff5, 0x60127b2e), 0x0, 36)
         == Digest(0x60127b2e, 0x21b117b9, 0x3b0875c7, 0x8d212ff5)
    ensures Operation(Digest(0x60127b2e, 0x21b117b9, 0x3b0875c7, 0x8d212ff5), 0x0, 37)
         == Digest(0x8d212ff5, 0x6e7429d5, 0x21b117b9, 0x3b0875c7)
    ensures Operation(Digest(0x8d212ff5, 0x6e7429d5, 0x21b117b9, 0x3b0875c7), 0x0, 38)
         == Digest(0x3b0875c7, 0x3575227e, 0x6e7429d5, 0x21b117b9)
    ensures Operation(Digest(0x3b0875c7, 0x3575227e, 0x6e7429d5, 0x21b117b9), 0x0, 39)
         == Digest(0x21b117b9, 0x5a2f5ea5, 0x3575227e, 0x6e7429d5)
  {
    TurnH(36, 0xb3707ebf, 0x3b0875c7, 0x8d212ff5, 0x60127b2e, 0x0, 0xa4beea44, 4,
          0xd63b211c, 0x89ab9fdb, 0x89ab9fdb, 0x2e6a8a1f, 0xe6a8a1f2, 0x21b117b9);
    TurnH(37, 0x60127b2e, 0x21b117b9, 0x3b0875c7, 0x8d212ff5, 0x0, 0x4bdecfa9, 11,
          0x97984d8b, 0xf7aac8b9, 0xf7aac8b9, 0x43899862, 0x4cc3121c, 0x6e7429d5);
    TurnH(38, 0x8d212ff5, 0x6e7429d5, 0x21b117b9, 0x3b0875c7, 0x0, 0xf6bb4b60, 16,
          0x74cd4bab, 0x01ee7ba0, 0x01ee7ba0, 0xf8a9c700, 0xc700f8a9, 0x3575227e);
    TurnH(39, 0x3b0875c7, 0x3575227e, 0x6e7429d5, 0x21b117b9, 0x0, 0xbebfbc70, 23,
          0x7ab01c12, 0xb5b891d9, 0xb5b891d9, 0x74784e49, 0x24ba3c27, 0x5a2f5ea5);
  }

  lemma From36(x: seq<bv32>)
    requires AbcWords(x)
    ensures Operations(Digest(0xb3707ebf, 0x3b0875c7, 0x8d212ff5, 0x60127b2e), x, 36)
         == Operations(Digest(0x21b117b9, 0x5a2f5ea5, 0x3575227e, 0x6e7429d5), x, 40)
  {
    Turns36();
    assert K(36) == 1 && K(37) == 4 && K(38) == 7 && K(39) == 10;
    FourLinks(x, 36, 0x0, 0x0, 0x0, 0x0,
              Digest(0xb3707ebf, 0x3b0875c7, 0x8d212ff5, 0x60127b2e),
              Digest(0x60127b2e, 0x21b117b9, 0x3b0875c7, 0x8d212ff5),
              Digest(0x8d212ff5, 0x6e7429d5, 0x21b117b9, 0x3b0875c7),
              Digest(0x3b0875c7, 0x3575227e, 0x6e7429d5, 0x21b117b9),
              Digest(0x21b117b9, 0x5a2f5ea5, 0x3575227e, 0x6e7429d5));
  }

  lemma Turns40()
    ensures Operation(Digest(0x21b117b9, 0x5a2f5ea5, 0x3575227e, 0x6e7429d5), 0x0, 40)
         == Digest(0x6e7429d5, 0x11de1779, 0x5a2f5ea5, 0x3575227e)
    ensures Operation(Digest(0x6e7429d5, 0x11de1779, 0x5a2f5ea5, 0x3575227e), 0x80636261, 41)
         == Digest(0x3575227e, 0xfadcaa38, 0x11de1779, 0x5a2f5ea5)
    ensures Operation(Digest(0x3575227e, 0xfadcaa38, 0x11de1779, 0x5a2f5ea5), 0x0, 42)
         == Digest(0x5a2f5ea5, 0x31c465ca, 0xfadcaa38, 0x11de1779)
    ensures Operation(Digest(0x5a2f5ea5, 0x31c465ca, 0xfadcaa38, 0x11de1779), 0x0, 43)
         == Digest(0x11de1779, 0x4c6124f4, 0x31c465ca, 0xfadcaa38)
  {
    TurnH(40, 0x21b117b9, 0x5a2f5ea5, 0x3575227e, 0x6e7429d5, 0x0, 0x289b7ec6, 4,
          0x012e550e, 0x22df6cc7, 0x22df6cc7, 0x4b7aeb8d, 0xb7aeb8d4, 0x11de1779);
    TurnH(41, 0x6e7429d5, 0x11de1779, 0x5a2f5ea5, 0x3575227e, 0x80636261, 0xeaa127fa, 11,
          0x7e846ba2, 0xecf89577, 0x6d5bf7d8, 0x57fd1fd2, 0xe8fe92bf, 0xfadcaa38);
    TurnH(42, 0x3575227e, 0xfadcaa38, 0x11de1779, 0x5a2f5ea5, 0x0, 0xd4ef3085, 16,
          0xb12de3e4, 0xe6a30662, 0xe6a30662, 0xbb9236e7, 0x36e7bb92, 0x31c465ca);
    TurnH(43, 0x5a2f5ea5, 0x31c465ca, 0xfadcaa38, 0x11de1779, 0x0, 0x04881d05, 23,
          0xdac6d88b, 0x34f63730, 0x34f63730, 0x397e5435, 0x1a9cbf2a, 0x4c6124f4);
  }

  lemma From40(x: seq<bv32>)
    requires AbcWords(x)
    ensures Operations(Digest(0x21b117b9, 0x5a2f5ea5, 0x3575227e, 0x6e7429d5), x, 40)
         == Operations(Digest(0x11de1779, 0x4c6124f4, 0x31c465ca, 0xfadcaa38), x, 44)
  {
    Turns40();
    assert K(40) == 13 && K(41) == 0 && K(42) == 3 && K(43) == 6;
    FourLinks(x, 40, 0x0, 0x80636261, 0x0, 0x0,
              Digest(0x21b117b9, 0x5a2f5ea5, 0x3575227e, 0x6e7429d5),
              Digest(0x6e7429d5, 0x11de1779, 0x5a2f5ea5, 0x3575227e),
              Digest(0x3575227e, 0xfadcaa38, 0x11de1779, 0x5a2f5ea5),
              Digest(0x5a2f5ea5, 0x31c465ca, 0xfadcaa38, 0x11de1779),
              Digest(0x11de1779, 0x4c6124f4, 0x31c465ca, 0xfadcaa38));
  }

  lemma Turns44()
    ensures Operation(Digest(0x11de1779, 0x4c6124f4, 0x31c465ca, 0xfadcaa38), 0x0, 44)
         == Digest(0xfadcaa38, 0x7f2e507b, 0x4c6124f4, 0x31c465ca)
    ensures Operation(Digest(0xfadcaa38, 0x7f2e507b, 0x4c6124f4, 0x31c465ca), 0x0, 45)
         == Digest(0x31c465ca, 0x99d9679d, 0x7f2e507b, 0x4c6124f4)
    ensures Operation(Digest(0x31c465ca, 0x99d9679d, 0x7f2e507b, 0x4c6124f4), 0x0, 46)
         == Digest(0x4c6124f4, 0x8fae6399, 0x99d9679d, 0x7f2e507b)
    ensures Operation(Digest(0x4c6124f4, 0x8fae6399, 0x99d9679d, 0x7f2e507b), 0x0, 47)
         == Digest(0x7f2e507b, 0x7beb9700, 0x8fae6399, 0x99d9679d)
  {
    TurnH(44, 0x11de1779, 0x4c6124f4, 0x31c465ca, 0xfadcaa38, 0x0, 0xd9d4d039, 4,
          0x8779eb06, 0x9958027f, 0x9958027f, 0x732cd2b8, 0x32cd2b87, 0x7f2e507b);
    TurnH(45, 0xfadcaa38, 0x7f2e507b, 0x4c6124f4, 0x31c465ca, 0x0, 0xe6db99e5, 11,
          0x028b1145, 0xfd67bb7d, 0xfd67bb7d, 0xe4435562, 0x1aab1722, 0x99d9679d);
    TurnH(46, 0x31c465ca, 0x99d9679d, 0x7f2e507b, 0x4c6124f4, 0x0, 0x1fa27cf8, 16,
          0xaa961312, 0xdc5a78dc, 0xdc5a78dc, 0xfbfcf5d4, 0xf5d4fbfc, 0x8fae6399);
    TurnH(47, 0x4c6124f4, 0x8fae6399, 0x99d9679d, 0x7f2e507b, 0x0, 0xc4ac5665, 23,
          0x6959547f, 0xb5ba7973, 0xb5ba7973, 0x7a66cfd8, 0xec3d3367, 0x7beb9700);
  }

  lemma From44(x: seq<bv32>)
    requires AbcWords(x)
    ensures Operations(Digest(0x11de1779, 0x4c6124f4, 0x31c465ca, 0xfadcaa38), x, 44)
         == Operations(Digest(0x7f2e507b, 0x7beb9700, 0x8fae6399, 0x99d9679d), x, 48)
  {
    Turns44();
    assert K(44) == 9 && K(45) == 12 && K(46) == 15 && K(47) == 2;
    FourLinks(x, 44, 0x0, 0x0, 0x0, 0x0,
              Digest(0x11de1779, 0x4c6124f4, 0x31c465ca, 0xfadcaa38),
              Digest(0xfadcaa38, 0x7f2e507b, 0x4c6124f4, 0x31c465ca),
              Digest(0x31c465ca, 0x99d9679d, 0x7f2e507b, 0x4c6124f4),
              Digest(0x4c6124f4, 0x8fae6399, 0x99d9679d, 0x7f2e507b),
              Digest(0x7f2e507b, 0x7beb9700, 0x8fae6399, 0x99d9679d));
  }

  lemma Turns48()
    ensures Operation(Digest(0x7f2e507b, 0x7beb9700, 0x8fae6399, 0x99d9679d), 0x80636261, 48)
         == Digest(0x99d9679d, 0x7b201df8, 0x7beb9700, 0x8fae6399)
    ensures Operation(Digest(0x99d9679d, 0x7b201df8, 0x7beb9700, 0x8fae6399), 0x0, 49)
         == Digest(0x8fae6399, 0xf4e8e96e, 0x7b201df8, 0x7beb9700)
    ensures Operation(Digest(0x8fae6399, 0xf4e8e96e, 0x7b201df8, 0x7beb9700), 0x18, 50)
         == Digest(0x7beb9700, 0xb298cefd, 0xf4e8e96e, 0x7b201df8)
    ensures Operation(Digest(0x7beb9700, 0xb298cefd, 0xf4e8e96e, 0x7b201df8), 0x0, 51)
         == Digest(0x7b201df8, 0x8bf025c4, 0xb298cefd, 0xf4e8e96e)
  {
    TurnI(48, 0x7f2e507b, 0x7beb9700, 0x8fae6399, 0x99d9679d, 0x80636261, 0xf4292244, 6,
          0xf041fcfb, 0x6f704d76, 0xefd3afd7, 0xe3fcd21b, 0xff3486f8, 0x7b201df8);
    TurnI(49, 0x99d9679d, 0x7b201df8, 0x7beb9700, 0x8fae6399, 0x0, 0x432aff97, 10,
          0x009a0afe, 0x9a73729b, 0x9a73729b, 0xdd9e7232, 0x79c8cb76, 0xf4e8e96e);
    TurnI(50, 0x8fae6399, 0xf4e8e96e, 0x7b201df8, 0x7beb9700, 0x18, 0xab9423a7, 15,
          0x8fdcf407, 0x1f8b57a0, 0x1f8b57b8, 0xcb1f7b5f, 0xbdafe58f, 0xb298cefd);
    TurnI(51, 0x7beb9700, 0xb298cefd, 0xf4e8e96e, 0x7b201df8, 0x0, 0xfc93a039, 21,
          0x42370791, 0xbe229e91, 0xbe229e91, 0xbab63eca, 0xd95756c7, 0x8bf025c4);
  }

  lemma From48(x: seq<bv32>)
    requires AbcWords(x)
    ensures Operations(Digest(0x7f2e507b, 0x7beb9700, 0x8fae6399, 0x99d9679d), x, 48)
         == Operations(Digest(0x7b201df8, 0x8bf025c4, 0xb298cefd, 0xf4e8e96e), x, 52)
  {
    Turns48();
    assert K(48) == 0 && K(49) == 7 && K(50) == 14 && K(51) == 5;
    FourLinks(x, 48, 0x80636261, 0x0, 0x18, 0x0,
              Digest(0x7f2e507b, 0x7beb9700, 0x8fae6399, 0x99d9679d),
              Digest(0x99d9679d, 0x7b201df8, 0x7beb9700, 0x8fae6399),
              Digest(0x8fae6399, 0xf4e8e96e, 0x7b201df8, 0x7beb9700),
              Digest(0x7beb9700, 0xb298cefd, 0xf4e8e96e, 0x7b201df8),
              Digest(0x7b201df8, 0x8bf025c4, 0xb298cefd, 0xf4e8e96e));
  }

  lemma Turns52()
    ensures Operation(Digest(0x7b201df8, 0x8bf025c4, 0xb298cefd, 0xf4e8e96e), 0x0, 52)
         == Digest(0xf4e8e96e, 0x06cc5e8a, 0x8bf025c4, 0xb298cefd)
    ensures Operation(Digest(0xf4e8e96e, 0x06cc5e8a, 0x8bf025c4, 0xb298cefd), 0x0, 53)
         == Digest(0xb298cefd, 0x5b0d97aa, 0x06cc5e8a, 0x8bf025c4)
    ensures Operation(Digest(0xb298cefd, 0x5b0d97aa, 0x06cc5e8a, 0x8bf025c4), 0x0, 54)
         == Digest(0x8bf025c4, 0x7d632dd0, 0x5b0d97aa, 0x06cc5e8a)
    ensures Operation(Digest(0x8bf025c4, 0x7d632dd0, 0x5b0d97aa, 0x06cc5e8a), 0x0, 55)
         == Digest(0x06cc5e8a, 0x3bfa2c27, 0x7d632dd0, 0x5b0d97aa)
  {
    TurnI(52, 0x7b201df8, 0x8bf025c4, 0xb298cefd, 0xf4e8e96e, 0x0, 0x655b59c3, 6,
          0x396ff928, 0xb4901720, 0xb4901720, 0x19eb70e3, 0x7adc38c6, 0x06cc5e8a);
    TurnI(53, 0xf4e8e96e, 0x06cc5e8a, 0x8bf025c4, 0xb298cefd, 0x0, 0x8f0ccc92, 10,
          0xc41f5a4e, 0xb90843bc, 0xb90843bc, 0x4815104e, 0x54413920, 0x5b0d97aa);
    TurnI(54, 0xb298cefd, 0x5b0d97aa, 0x06cc5e8a, 0x8bf025c4, 0x0, 0xffeff47d, 15,
          0x79c38131, 0x2c5c502e, 0x2c5c502e, 0x2c4c44ab, 0x22559626, 0x7d632dd0);
    TurnI(55, 0x8bf025c4, 0x7d632dd0, 0x5b0d97aa, 0x06cc5e8a, 0x0, 0x85845dd1, 21,
          0xa67e3a5f, 0x326e6023, 0x326e6023, 0xb7f2bdf4, 0xbe96fe57, 0x3bfa2c27);
  }

  lemma From52(x: seq<bv32>)
    requires AbcWords(x)
    ensures Operations(Digest(0x7b201df8, 0x8bf025c4, 0xb298cefd, 0xf4e8e96e), x, 52)
         == Operations(Digest(0x06cc5e8a, 0x3bfa2c27, 0x7d632dd0, 0x5b0d97aa), x, 56)
  {
    Turns52();
    assert K(52) == 12 && K(53) == 3 && K(54) == 10 && K(55) == 1;
    FourLinks(x, 52, 0x0, 0x0, 0x0, 0x0,
              Digest(0x7b201df8, 0x8bf025c4, 0xb298cefd, 0xf4e8e96e),
              Digest(0xf4e8e96e, 0x06cc5e8a, 0x8bf025c4, 0xb298cefd),
              Digest(0xb298cefd, 0x5b0d97aa, 0x06cc5e8a, 0x8bf025c4),
              Digest(0x8bf025c4, 0x7d632dd0, 0x5b0d97aa, 0x06cc5e8a),
              Digest(0x06cc5e8a, 0x3bfa2c27, 0x7d632dd0, 0x5b0d97aa));
  }

  lemma Turns56()
    ensures Operation(Digest(0x06cc5e8a, 0x3bfa2c27, 0x7d632dd0, 0x5b0d97aa), 0x0, 56)
         == Digest(0x5b0d97aa, 0x7f81cc35, 0x3bfa2c27, 0x7d632dd0)
    ensures Operation(Digest(0x5b0d97aa, 0x7f81cc35, 0x3bfa2c27, 0x7d632dd0), 0x0, 57)
         == Digest(0x7d632dd0, 0x094454ab, 0x7f81cc35, 0x3bfa2c27)
    ensures Operation(Digest(0x7d632dd0, 0x094454ab, 0x7f81cc35, 0x3bfa2c27), 0x0, 58)
         == Digest(0x3bfa2c27, 0x4f9dbe3f, 0x094454ab, 0x7f81cc35)
    ensures Operation(Digest(0x3bfa2c27, 0x4f9dbe3f, 0x094454ab, 0x7f81cc35), 0x0, 59)
         == Digest(0x7f81cc35, 0x7327d604, 0x4f9dbe3f, 0x094454ab)
  {
    TurnI(56, 0x06cc5e8a, 0x3bfa2c27, 0x7d632dd0, 0x5b0d97aa, 0x0, 0x6fa87e4f, 6,
          0xc29941a7, 0xc965a031, 0xc965a031, 0x390e1e80, 0x4387a00e, 0x7f81cc35);
    TurnI(57, 0x5b0d97aa, 0x7f81cc35, 0x3bfa2c27, 0x7d632dd0, 0x0, 0xfe2ce6e0, 10,
          0xc467f218, 0x1f7589c2, 0x1f7589c2, 0x1da270a2, 0x89c28876, 0x094454ab);
    TurnI(58, 0x7d632dd0, 0x094454ab, 0x7f81cc35, 0x3bfa2c27, 0x0, 0xa3014314, 15,
          0xb2c41bce, 0x3027499e, 0x3027499e, 0xd3288cb2, 0x46596994, 0x4f9dbe3f);
    TurnI(59, 0x3bfa2c27, 0x4f9dbe3f, 0x094454ab, 0x7f81cc35, 0x0, 0x4e0811a1, 21,
          0xc6bbeb54, 0x02b6177b, 0x02b6177b, 0x50be291c, 0x238a17c5, 0x7327d604);
  }

  lemma From56(x: seq<bv32>)
    requires AbcWords(x)
    ensures Operations(Digest(0x06cc5e8a, 0x3bfa2c27, 0x7d632dd0, 0x5b0d97aa), x, 56)
         == Operations(Digest(0x7f81cc35, 0x7327d604, 0x4f9dbe3f, 0x094454ab), x, 60)
  {
    Turns56();
    assert K(56) == 8 && K(57) == 15 && K(58) == 6 && K(59) == 13;
    FourLinks(x, 56, 0x0, 0x0, 0x0, 0x0,
              Digest(0x06cc5e8a, 0x3bfa2c27, 0x7d632dd0, 0x5b0d97aa),
              Digest(0x5b0d97aa, 0x7f81cc35, 0x3bfa2c27, 0x7d632dd0),
              Digest(0x7d632dd0, 0x094454ab, 0x7f81cc35, 0x3bfa2c27),
              Digest(0x3bfa2c27, 0x4f9dbe3f, 0x094454ab, 0x7f81cc35),
              Digest(0x7f81cc35, 0x7327d604, 0x4f9dbe3f, 0x094454ab));
  }

  lemma Turns60()
    ensures Operation(Digest(0x7f81cc35, 0x7327d604, 0x4f9dbe3f, 0x094454ab), 0x0, 60)
         == Digest(0x094454ab, 0x310ade8f, 0x7327d604, 0x4f9dbe3f)
    ensures Operation(Digest(0x094454ab, 0x310ade8f, 0x7327d604, 0x4f9dbe3f), 0x0, 61)
         == Digest(0x4f9dbe3f, 0x624d8cb2, 0x310ade8f, 0x7327d604)
    ensures Operation(Digest(0x4f9dbe3f, 0x624d8cb2, 0x310ade8f, 0x7327d604), 0x0, 62)
         == Digest(0x7327d604, 0xe484b9d8, 0x624d8cb2, 0x310ade8f)
    ensures Operation(Digest(0x7327d604, 0xe484b9d8, 0x624d8cb2, 0x310ade8f), 0x0, 63)
         == Digest(0x310ade8f, 0xc08226b3, 0xe484b9d8, 0x624d8cb2)
  {
    TurnI(60, 0x7f81cc35, 0x7327d604, 0x4f9dbe3f, 0x094454ab, 0x0, 0xf7537e82, 6,
          0xb822416b, 0x37a40da0, 0x37a40da0, 0x2ef78c22, 0xbde3088b, 0x310ade8f);
    TurnI(61, 0x094454ab, 0x310ade8f, 0x7327d604, 0x4f9dbe3f, 0x0, 0xbd3af235, 10,
          0xc24d09cb, 0xcb915e76, 0xcb915e76, 0x88cc50ab, 0x3142ae23, 0x624d8cb2);
    TurnI(62, 0x4f9dbe3f, 0x624d8cb2, 0x310ade8f, 0x7327d604, 0x0, 0x2ad7d2bb, 15,
          0xdfd77374, 0x2f7531b3, 0x2f7531b3, 0x5a4d046e, 0x82372d26, 0xe484b9d8);
    TurnI(63, 0x7327d604, 0xe484b9d8, 0x624d8cb2, 0x310ade8f, 0x0, 0xeb86d391, 21,
          0x8cb8354a, 0xffe00b4e, 0xffe00b4e, 0xeb66dedf, 0xdbfd6cdb, 0xc08226b3);
  }

  lemma From60(x: seq<bv32>)
    requires AbcWords(x)
    ensures Operations(Digest(0x7f81cc35, 0x7327d604, 0x4f9dbe3f, 0x094454ab), x, 60)
         == Operations(Digest(0x310ade8f, 0xc08226b3, 0xe484b9d8, 0x624d8cb2), x, 64)
  {
    Turns60();
    assert K(60) == 4 && K(61) == 11 && K(62) == 2 && K(63) == 9;
    FourLinks(x, 60, 0x0, 0x0, 0x0, 0x0,
              Digest(0x7f81cc35, 0x7327d604, 0x4f9dbe3f, 0x094454ab),
              Digest(0x094454ab, 0x310ade8f, 0x7327d604, 0x4f9dbe3f),
              Digest(0x4f9dbe3f, 0x624d8cb2, 0x310ade8f, 0x7327d604),
              Digest(0x7327d604, 0xe484b9d8, 0x624d8cb2, 0x310ade8f),
              Digest(0x310ade8f, 0xc08226b3, 0xe484b9d8, 0x624d8cb2));
  }

  lemma AllOperations(x: seq<bv32>)
    requires AbcWords(x)
    ensures Operations(INIT, x, 0) == Digest(0x310ade8f, 0xc08226b3, 0xe484b9d8, 0x624d8cb2)
  {
    From0(x);
    From4(x);
    From8(x);
    From12(x);
    From16(x);
    From20(x);
    From24(x);
    From28(x);
    From32(x);
    From36(x);
    From40(x);
    From44(x);
    From48(x);
    From52(x);
    From56(x);
    From60(x);
  }

  /** The digest of abc is 900150983cd24fb0d6963f7d28e17f72. */
  lemma DigestOfAbc()
    ensures Md5(ABC) == [0x90, 0x01, 0x50, 0x98, 0x3c, 0xd2, 0x4f, 0xb0,
                         0xd6, 0x96, 0x3f, 0x7d, 0x28, 0xe1, 0x7f, 0x72]
  {
    PaddedIsBlock();
    var block := ABC + Padding(3);
    AllOperations(Words(block));
    CompressFirst(RFC, INIT, block);
    assert block[..64] == block && block[64..] == [];
  }
}
