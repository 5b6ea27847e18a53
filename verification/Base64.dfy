/** base64_impl.c: encoding (section 4 of RFC 4648), and a decoder that skips bytes outside the alphabet. */
module Base64 {
  import opened Bytes
  import opened Buffers

  const PAD: byte := 61
  const SKIP := 255
  const PAD_CODE := 254

  type sextet = v: int | 0 <= v < 64

  /** The table `codes`. */
  function Code(v: sextet): (c: byte)
    ensures Map(c) == v
  {
    if v < 26 then 65 + v
    else if v < 52 then 97 + (v - 26)
    else if v < 62 then 48 + (v - 52)
    else if v == 62 then 43
    else 47
  }

  /** The table `map`. */
  function Map(c: byte): (v: byte)
    ensures v < 64 || v == PAD_CODE || v == SKIP
    ensures v == PAD_CODE <==> c == PAD
  {
    if 65 <= c <= 90 then c - 65
    else if 97 <= c <= 122 then c - 97 + 26
    else if 48 <= c <= 57 then c - 48 + 52
    else if c == 43 then 62
    else if c == 47 then 63
    else if c == PAD then PAD_CODE
    else SKIP
  }

  /** Table 1 of RFC 4648. */
  function Table(v: sextet): char {
    if v < 16 then "ABCDEFGHIJKLMNOP"[v]
    else if v < 32 then "QRSTUVWXYZabcdef"[v - 16]
    else if v < 48 then "ghijklmnopqrstuv"[v - 32]
    else "wxyz0123456789+/"[v - 48]
  }

  predicate InTable(v: sextet) {
    Code(v) == Table(v) as int
  }

  lemma Letters0()
    ensures forall v: sextet :: 0 <= v < 16 ==> InTable(v)
  {
    assert InTable(0) && InTable(1) && InTable(2) && InTable(3);
    assert InTable(4) && InTable(5) && InTable(6) && InTable(7);
    assert InTable(8) && InTable(9) && InTable(10) && InTable(11);
    assert InTable(12) && InTable(13) && InTable(14) && InTable(15);
  }

  lemma Letters16()
    ensures forall v: sextet :: 16 <= v < 32 ==> InTable(v)
  {
    assert InTable(16) && InTable(17) && InTable(18) && InTable(19);
    assert InTable(20) && InTable(21) && InTable(22) && InTable(23);
    assert InTable(24) && InTable(25) && InTable(26) && InTable(27);
    assert InTable(28) && InTable(29) && InTable(30) && InTable(31);
  }

  lemma Letters32()
    ensures forall v: sextet :: 32 <= v < 48 ==> InTable(v)
  {
    assert InTable(32) && InTable(33) && InTable(34) && InTable(35);
    assert InTable(36) && InTable(37) && InTable(38) && InTable(39);
    assert InTable(40) && InTable(41) && InTable(42) && InTable(43);
    assert InTable(44) && InTable(45) && InTable(46) && InTable(47);
  }

  lemma Letters48()
    ensures forall v: sextet :: 48 <= v < 64 ==> InTable(v)
  {
    assert InTable(48) && InTable(49) && InTable(50) && InTable(51);
    assert InTable(52) && InTable(53) && InTable(54) && InTable(55);
    assert InTable(56) && InTable(57) && InTable(58) && InTable(59);
    assert InTable(60) && InTable(61) && InTable(62) && InTable(63);
  }

  lemma CodeIsTable(v: sextet)
    ensures Code(v) == Table(v) as int
  {
    Letters0();
    Letters16();
    Letters32();
    Letters48();
    assert InTable(v);
  }

  // ----- what the text means

  /** Three bytes as four characters; `a`, `b`, `c` in the bits of one 24-bit group. */
  function EncodeGroup(a: byte, b: byte, c: byte): (r: seq<byte>)
    ensures |r| == 4
  {
    [Code(a / 4), Code(a % 4 * 16 + b / 16), Code(b % 16 * 4 + c / 64), Code(c % 64)]
  }

  function Encode(x: seq<byte>): seq<byte> {
    if x == [] then []
    else if |x| == 1 then EncodeGroup(x[0], 0, 0)[..2] + [PAD, PAD]
    else if |x| == 2 then EncodeGroup(x[0], x[1], 0)[..3] + [PAD]
    else EncodeGroup(x[0], x[1], x[2]) + Encode(x[3..])
  }

  ghost predicate Alphabet(c: seq<byte>) {
    forall x :: x in c ==> Map(x) != SKIP
  }

  /** The characters the decoder looks at. */
  function Clean(s: seq<byte>): (r: seq<byte>)
    ensures Alphabet(r) && |r| <= |s|
  {
    if s == [] then [] else (if Map(s[0]) == SKIP then [] else [s[0]]) + Clean(s[1..])
  }

  function Value(c: byte): (v: sextet)
    requires Map(c) != SKIP
  {
    if c == PAD then 0 else Map(c)
  }

  /** The bits of up to four characters. */
  function Bits(q: seq<byte>): (t: nat)
    requires |q| <= 4 && Alphabet(q)
    ensures |q| == 0 ==> t == 0
    ensures |q| == 1 ==> t < 64
    ensures |q| == 2 ==> t < 0x1000
    ensures |q| == 3 ==> t < 0x4_0000
    ensures t < 0x100_0000
    decreases |q|
  {
    if q == [] then 0 else Bits(q[..|q| - 1]) * 64 + Value(q[|q| - 1])
  }

  function GroupBytes(t: nat): (r: seq<byte>)
    requires t < 0x100_0000
    ensures |r| == 3
  {
    [t / 0x1_0000, t / 0x100 % 256, t % 256]
  }

  function Pads(q: seq<byte>): (e: nat)
    ensures e <= |q|
  {
    if q == [] then 0 else Pads(q[..|q| - 1]) + if q[|q| - 1] == PAD then 1 else 0
  }

  /** Padding comes last: after a pad there are only pads. */
  predicate PadsLast(q: seq<byte>) {
    forall i, j :: 0 <= i < j < |q| && q[i] == PAD ==> q[j] == PAD
  }

  datatype Decoded = Bad | Good(bytes: seq<byte>, room: nat)

  function Prepend(b: seq<byte>, d: Decoded): Decoded {
    if d.Bad? then Bad else Good(b + d.bytes, |b| + d.room)
  }

  /**
   * Decoding by groups of four characters. A group with `e` pads ends the text, asks for 3 - `e`
   * bytes of room and yields them, but at least one byte.
   */
  function Decode(c: seq<byte>): Decoded
    requires Alphabet(c)
  {
    if c == [] then Good([], 0)
    else if |c| < 4 then Bad
    else
      var q := c[..4];
      var e := Pads(q);
      var bytes := GroupBytes(Bits(q));
      if e == 0 then Prepend(bytes, Decode(c[4..]))
      else if PadsLast(q) && e <= 3 && |c| == 4 then Good(bytes[..if e == 3 then 1 else 3 - e], 3 - e)
      else Bad
  }

  lemma BitsOfFour(q: seq<byte>)
    requires |q| == 4 && Alphabet(q)
    ensures Bits(q) == ((Value(q[0]) * 64 + Value(q[1])) * 64 + Value(q[2])) * 64 + Value(q[3])
  {
    assert q[..3][..2] == q[..2] && q[..3][..2][..1] == q[..1] && q[..3][..2][..1][..0] == [];
    assert Bits(q[..1]) == Bits(q[..0]) * 64 + Value(q[0]);
    assert Bits(q[..2]) == Bits(q[..1]) * 64 + Value(q[1]);
    assert Bits(q[..3]) == Bits(q[..2]) * 64 + Value(q[2]);
  }

  lemma GroupInverts(a: byte, b: byte, c: byte)
    ensures var q := EncodeGroup(a, b, c);
            && (forall i :: 0 <= i < 4 ==> Map(q[i]) < 64)
            && Bits(q) == a * 0x1_0000 + b * 0x100 + c
            && (c == 0 ==> Value(q[3]) == 0) && (c == 0 && b == 0 ==> Value(q[2]) == 0)
  {
    BitsOfFour(EncodeGroup(a, b, c));
  }

  lemma PadsOfFour(q: seq<byte>)
    requires |q| == 4
    ensures Pads(q) == (if q[0] == PAD then 1 else 0) + (if q[1] == PAD then 1 else 0)
                     + (if q[2] == PAD then 1 else 0) + (if q[3] == PAD then 1 else 0)
  {
    assert q[..3][..2] == q[..2] && q[..2][..1] == q[..1] && q[..1][..0] == [];
    assert Pads(q[..1]) == if q[0] == PAD then 1 else 0;
    assert Pads(q[..2]) == Pads(q[..1]) + if q[1] == PAD then 1 else 0;
    assert Pads(q[..3]) == Pads(q[..2]) + if q[2] == PAD then 1 else 0;
  }

  lemma GroupBytesOf(a: byte, b: byte, c: byte)
    ensures GroupBytes(a * 0x1_0000 + b * 0x100 + c) == [a, b, c]
  {
    var t := a * 0x1_0000 + b * 0x100 + c;
    assert t / 0x100 == a * 0x100 + b;
  }

  /** Replacing codes of value 0 by pads changes no bits. */
  lemma PaddedBits(full: seq<byte>, q: seq<byte>, n: nat)
    requires |full| == |q| == 4 && 1 <= n <= 3 && q[..n + 1] == full[..n + 1]
    requires forall i :: 0 <= i < 4 ==> Map(full[i]) < 64
    requires forall i :: n < i < 4 ==> Value(full[i]) == 0 && q[i] == PAD
    ensures Alphabet(q) && Bits(q) == Bits(full)
    ensures Pads(q) == 3 - n && PadsLast(q)
  {
    forall i | 0 <= i < 4
      ensures Map(q[i]) != SKIP && Value(q[i]) == Value(full[i]) && (q[i] == PAD <==> i > n)
    {
      if i <= n {
        assert q[i] == q[..n + 1][i] == full[..n + 1][i];
      }
    }
    BitsOfFour(q);
    BitsOfFour(full);
    PadsOfFour(q);
  }

  /** The group written for one, two or three bytes carries them. */
  lemma GroupDecodes(a: byte, b: byte, c: byte, n: nat, q: seq<byte>)
    requires 1 <= n <= 3 && (n < 3 ==> c == 0) && (n < 2 ==> b == 0)
    requires q == EncodeGroup(a, b, c)[..n + 1] + if n == 3 then [] else if n == 2 then [PAD] else [PAD, PAD]
    ensures |q| == 4 && Alphabet(q)
    ensures Pads(q) == 3 - n && PadsLast(q) && GroupBytes(Bits(q)) == [a, b, c]
  {
    GroupInverts(a, b, c);
    GroupBytesOf(a, b, c);
    PaddedBits(EncodeGroup(a, b, c), q, n);
  }

  lemma {:induction false} EncodeIsClean(x: seq<byte>)
    ensures Alphabet(Encode(x))
    decreases |x|
  {
    if |x| == 1 {
      GroupDecodes(x[0], 0, 0, 1, Encode(x));
    } else if |x| == 2 {
      GroupDecodes(x[0], x[1], 0, 2, Encode(x));
    } else if |x| >= 3 {
      EncodeIsClean(x[3..]);
      GroupDecodes(x[0], x[1], x[2], 3, EncodeGroup(x[0], x[1], x[2]));
    }
  }

  /** A full group ahead of a text that decodes. */
  lemma FullGroupDecodes(a: byte, b: byte, c: byte, rest: seq<byte>, bytes: seq<byte>)
    requires Alphabet(rest) && Decode(rest) == Good(bytes, |bytes|)
    ensures var s := EncodeGroup(a, b, c) + rest;
            Alphabet(s) && Decode(s) == Good([a, b, c] + bytes, 3 + |bytes|)
  {
    var q := EncodeGroup(a, b, c);
    GroupDecodes(a, b, c, 3, q);
    assert (q + rest)[..4] == q && (q + rest)[4..] == rest;
  }

  /** A padded group on its own. */
  lemma ShortGroupDecodes(a: byte, b: byte, n: nat, q: seq<byte>)
    requires 1 <= n <= 2 && (n < 2 ==> b == 0)
    requires q == EncodeGroup(a, b, 0)[..n + 1] + if n == 2 then [PAD] else [PAD, PAD]
    ensures Alphabet(q) && Decode(q) == Good([a, b, 0][..n], n)
  {
    GroupDecodes(a, b, 0, n, q);
    assert q[..4] == q;
  }

  lemma ShortTextDecodes(x: seq<byte>)
    requires 1 <= |x| <= 2
    ensures Alphabet(Encode(x)) && Decode(Encode(x)) == Good(x, |x|)
  {
    var b: byte := if |x| == 2 then x[1] else 0;
    ShortGroupDecodes(x[0], b, |x|, Encode(x));
    assert [x[0], b, 0][..|x|] == x;
  }

  /** Decoding inverts encoding, for every number of bytes, and asks for exactly their room. */
  lemma {:induction false} DecodeInvertsEncode(x: seq<byte>)
    ensures Alphabet(Encode(x)) && Decode(Encode(x)) == Good(x, |x|)
    decreases |x|
  {
    if 1 <= |x| <= 2 {
      ShortTextDecodes(x);
    } else if |x| >= 3 {
      DecodeInvertsEncode(x[3..]);
      FullGroupDecodes(x[0], x[1], x[2], Encode(x[3..]), x[3..]);
      assert [x[0], x[1], x[2]] + x[3..] == x;
    }
  }

  lemma PadsLastBehind(c: seq<byte>)
    requires |c| >= 4 && forall i :: 0 <= i < 4 ==> c[..4][i] != PAD
    ensures PadsLast(c[4..]) <==> PadsLast(c)
  {
    assert forall i :: 0 <= i < 4 ==> c[i] == c[..4][i];
    assert forall i :: 0 <= i < |c| - 4 ==> c[4..][i] == c[i + 4];
    assert forall i :: 4 <= i < |c| ==> c[i] == c[4..][i - 4];
  }

  /** Which cleaned texts are accepted: whole groups, padding only at the end, at most three pads. */
  lemma {:induction false} AcceptedTexts(c: seq<byte>)
    requires Alphabet(c)
    ensures Decode(c).Good? <==> |c| % 4 == 0 && PadsLast(c) && (c == [] || c[|c| - 4] != PAD)
    decreases |c|
  {
    if |c| >= 4 {
      var q := c[..4];
      PadsOfFour(q);
      AcceptedTexts(c[4..]);
      assert c == q + c[4..];
      if Pads(q) == 0 {
        PadsLastBehind(c);
      } else if |c| == 4 {
        assert q == c;
      } else if PadsLast(c) && |c| % 4 == 0 {
        var i :| 0 <= i < 4 && q[i] == PAD;
        assert c[i] == PAD && i < |c| - 4;
        assert c[|c| - 4] == PAD;
      }
    }
  }

  /** Values of section 10 of RFC 4648. */
  lemma OneLetter(x: seq<byte>)
    requires x == Ascii("f")
    ensures Encode(x) == Ascii("Zg==")
  {
    var q := EncodeGroup(x[0], 0, 0);
    assert q == [90, 103, 65, 65];
    assert q[..2] + [PAD, PAD] == Ascii("Zg==");
  }

  lemma TwoLetters(x: seq<byte>)
    requires x == Ascii("fo")
    ensures Encode(x) == Ascii("Zm8=")
  {
    var q := EncodeGroup(x[0], x[1], 0);
    assert q == [90, 109, 56, 65];
    assert q[..3] + [PAD] == Ascii("Zm8=");
  }

  lemma ThreeLetters(rest: seq<byte>)
    ensures Encode(Ascii("foo") + rest) == Ascii("Zm9v") + Encode(rest)
    ensures Encode(Ascii("bar") + rest) == Ascii("YmFy") + Encode(rest)
  {
    assert (Ascii("foo") + rest)[3..] == rest && (Ascii("bar") + rest)[3..] == rest;
    assert EncodeGroup(102, 111, 111) == Ascii("Zm9v") && EncodeGroup(98, 97, 114) == Ascii("YmFy");
  }

  // ----- bytes outside the alphabet

  lemma {:induction false} CleanKeeps(s: seq<byte>)
    requires Alphabet(s)
    ensures Clean(s) == s
    decreases |s|
  {
    if s != [] {
      CleanKeeps(s[1..]);
    }
  }

  /** A byte that no encoding holds. */
  ghost predicate Noise(c: byte) {
    c != PAD && forall v: sextet :: Code(v) != c
  }

  /** The table marks exactly those bytes to be skipped. */
  lemma NoiseIsSkipped(c: byte)
    ensures Noise(c) <==> Map(c) == SKIP
  {
    if Map(c) < 64 {
      assert Code(Map(c)) == c;
    }
  }

  /** `noisy` is `text` with such bytes put in anywhere. */
  ghost predicate Interleaved(noisy: seq<byte>, text: seq<byte>) {
    if noisy == [] then text == []
    else
      (Noise(noisy[0]) && Interleaved(noisy[1..], text))
      || (text != [] && noisy[0] == text[0] && Interleaved(noisy[1..], text[1..]))
  }

  /** The decoder's filter takes out exactly what was put in. */
  lemma {:induction false} CleanIsExact(noisy: seq<byte>, text: seq<byte>)
    requires Alphabet(text)
    ensures Clean(noisy) == text <==> Interleaved(noisy, text)
    decreases |noisy|
  {
    if noisy != [] {
      var first, rest := noisy[0], noisy[1..];
      NoiseIsSkipped(first);
      if Noise(first) {
        CleanIsExact(rest, text);
        assert text != [] && first == text[0] ==> first in text;
      } else if text != [] {
        assert forall x :: x in text[1..] ==> x in text;
        CleanIsExact(rest, text[1..]);
        assert text == [text[0]] + text[1..];
        assert ([first] + Clean(rest))[1..] == Clean(rest);
      }
    }
  }

  /** A run of such bytes vanishes wherever it is put in. */
  lemma {:induction false} CleanSkips(s: seq<byte>, noise: seq<byte>, t: seq<byte>)
    requires forall x :: x in noise ==> Noise(x)
    ensures Clean(s + noise + t) == Clean(s + t)
    decreases |s| + |noise|
  {
    if s != [] {
      assert (s + noise + t)[1..] == s[1..] + noise + t && (s + t)[1..] == s[1..] + t;
      CleanSkips(s[1..], noise, t);
    } else if noise != [] {
      NoiseIsSkipped(noise[0]);
      assert noise[0] in noise && forall x :: x in noise[1..] ==> x in noise;
      assert (s + noise + t)[0] == noise[0] && (s + noise + t)[1..] == s + noise[1..] + t;
      CleanSkips(s, noise[1..], t);
    } else {
      assert s + noise + t == s + t;
    }
  }

  /** With nothing inserted. */
  lemma FilteredEncodingDecodes(x: seq<byte>)
    ensures Decode(Clean(Encode(x))) == Good(x, |x|)
  {
    DecodeInvertsEncode(x);
    CleanKeeps(Encode(x));
  }

  /** Decoding inverts encoding also with such bytes inserted anywhere. */
  lemma NoiseIsIgnored(x: seq<byte>, noisy: seq<byte>)
    requires Interleaved(noisy, Encode(x))
    ensures Decode(Clean(noisy)) == Good(x, |x|)
  {
    DecodeInvertsEncode(x);
    CleanIsExact(noisy, Encode(x));
  }

  // ----- the encoder

  /** The first loop of base64_encode: the whole groups. */
  method EncodeGroups(input: seq<byte>, out: array<byte>) returns (i: nat, p: nat)
    requires |Encode(input)| <= out.Length
    modifies out
    ensures i <= |input| < i + 3 && p <= out.Length
    ensures Encode(input) == out[..p] + Encode(input[i..])
    ensures out[p..] == old(out[..])[p..]
  {
    i, p := 0, 0;
    ghost var groups, k := |input| / 3, 0;
    var leven := 3 * (|input| / 3);
    assert leven == 3 * groups <= |input| < leven + 3;
    assert input[0..] == input && out[..0] == [];
    while i < leven
      invariant i == 3 * k && k <= groups && p <= out.Length
      invariant Encode(input) == out[..p] + Encode(input[i..])
      invariant out[p..] == old(out[..])[p..]
    {
      assert k < groups;
      WholeGroup(input, i);
      ghost var rest := Encode(input[i + 3..]);
      var q := EncodeGroup(input[i], input[i + 1], input[i + 2]);
      assert out[..p] + (q + rest) == out[..p] + q + rest;
      Store(out, p, q);
      p := p + 4;
      i, k := i + 3, k + 1;
    }
  }

  /** The rest of base64_encode: the padded group and the NUL. */
  method FinishEncoding(input: seq<byte>, i: nat, out: array<byte>, start: nat) returns (p: nat)
    requires i <= |input| < i + 3 && start + |Encode(input[i..])| < out.Length
    modifies out
    ensures p == start + |Encode(input[i..])| < out.Length
    ensures out[..p] == old(out[..start]) + Encode(input[i..]) && out[p] == NUL
    ensures out[p + 1..] == old(out[..])[p + 1..]
  {
    p := start;
    LastGroup(input, i);
    if i < |input| {
      var a := input[i];
      var b: byte := if i + 1 < |input| then input[i + 1] else 0;
      var q := EncodeGroup(a, b, 0);
      Store(out, p, [q[0], q[1], if i + 1 < |input| then q[2] else PAD, PAD]);
      p := p + 4;
    }
    ghost var written := out[..p];
    out[p] := NUL;
    assert out[..p] == written;
  }

  /**
   * base64_encode: the encoding and a NUL, or -2 and the length needed. Nothing beyond the NUL is
   * touched.
   */
  method Base64Encode(input: seq<byte>, out: array<byte>, outlen: nat) returns (ret: int, newlen: nat)
    requires outlen <= out.Length
    modifies out
    ensures |Encode(input)| == (|input| + 2) / 3 * 4
    ensures outlen <= |Encode(input)| ==> ret == -2 && newlen == |Encode(input)| + 1 && out[..] == old(out[..])
    ensures outlen > |Encode(input)| ==>
              && ret == 0 && newlen == |Encode(input)|
              && out[..newlen] == Encode(input) && out[newlen] == NUL
              && out[newlen + 1..] == old(out[..])[newlen + 1..]
  {
    EncodedLength(input);
    var len2 := 4 * ((|input| + 2) / 3);
    if outlen < len2 + 1 {
      return -2, len2 + 1;
    }
    var i, p := EncodeGroups(input, out);
    p := FinishEncoding(input, i, out, p);
    return 0, p;
  }

  lemma WholeGroup(x: seq<byte>, i: nat)
    requires i + 3 <= |x|
    ensures Encode(x[i..]) == EncodeGroup(x[i], x[i + 1], x[i + 2]) + Encode(x[i + 3..])
  {
    assert x[i..][3..] == x[i + 3..];
  }

  lemma LastGroup(x: seq<byte>, i: nat)
    requires i <= |x| < i + 3
    ensures i == |x| ==> Encode(x[i..]) == []
    ensures i < |x| ==>
              var b: byte := if i + 1 < |x| then x[i + 1] else 0;
              var q := EncodeGroup(x[i], b, 0);
              Encode(x[i..]) == [q[0], q[1], if i + 1 < |x| then q[2] else PAD, PAD]
  {
  }

  lemma {:induction false} EncodedLength(x: seq<byte>)
    ensures |Encode(x)| == (|x| + 2) / 3 * 4
    decreases |x|
  {
    if |x| >= 3 {
      EncodedLength(x[3..]);
    }
  }
}
