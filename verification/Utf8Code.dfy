/** utf8_impl.c: utf8_encode and utf8_decode_v2, whose four-byte branches shift by 15 where RFC 3629 shifts by 18. */
module Utf8Code {
  import opened Bytes
  import opened Buffers
  import Utf8

  const INVALID: bv32 := 0xFFFFFFFF

  /** The bytes of utf8_encode; none for a surrogate or a number past U+10FFFF. */
  function Encoded(v: bv32): (r: seq<bv8>)
    ensures |r| <= 4
  {
    if v <= 0x7F then [(v & 0x7F) as bv8]
    else if v <= 0x7FF then [Low(0xC0 | (v >> 6)), Low(0x80 | (v & 0x3F))]
    else if v <= 0xD7FF || 0xE000 <= v <= 0xFFFF then
      ThreeBytesOf(v)
    else if 0x10000 <= v <= 0x10FFFF then FourBytesOf(v)
    else []
  }

  /** Storing an int in a char keeps its low eight bits. */
  function Low(x: bv32): bv8 {
    (x & 0xFF) as bv8
  }

  function Wide(b: bv8): bv32 {
    b as bv32
  }

  /** utf8_encode. */
  method Encode(v: bv32, dest: array<bv8>, size: nat) returns (ret: int)
    requires size <= dest.Length
    modifies dest
    ensures var r := Encoded(v);
            && (|r| <= size ==> ret == |r| && dest[..] == r + old(dest[..])[|r|..])
            && (|r| > size ==> ret == -|r| && dest[..] == old(dest[..]))
  {
    var utf8buf := Encoded(v);
    if utf8buf == [] {
      return 0;
    }
    if size < |utf8buf| {
      return -|utf8buf|;
    }
    Store(dest, 0, utf8buf);
    return |utf8buf|;
  }

  function Join2(b0: bv8, b1: bv8): bv32 {
    (Wide(b0 & 0x1F) << 6) | Wide(b1 & 0x3F)
  }

  function Join3(b0: bv8, b1: bv8, b2: bv8): bv32 {
    (Wide(b0 & 0x0F) << 12) | (Wide(b1 & 0x3F) << 6) | Wide(b2 & 0x3F)
  }

  function Join4(b0: bv8, b1: bv8, b2: bv8, b3: bv8): bv32 {
    (Wide(b0 & 0x07) << 15) | (Wide(b1 & 0x3F) << 12) | (Wide(b2 & 0x3F) << 6) | Wide(b3 & 0x3F)
  }

  /** utf8_decode_v2 on the `size` = |c| bytes of `c`: the code point, or 0xFFFFFFFF. */
  function Decoded(c: seq<bv8>): bv32 {
    if |c| == 0 || c[0] == 0 then INVALID
    else if c[0] & 0x80 == 0 then Wide(c[0] & 0x7F)
    else if c[0] & 0xE0 == 0xC0 then
      if |c| < 2 || c[1] == 0 then INVALID
      else Join2(c[0], c[1])
    else if c[0] & 0xF0 == 0xE0 then
      if |c| < 3 || c[1] == 0 || c[2] == 0 then INVALID
      else Join3(c[0], c[1], c[2])
    else if c[0] & 0xF8 == 0xF0 then
      if |c| < 4 || c[1] == 0 || c[2] == 0 || c[3] == 0 then INVALID
      else Join4(c[0], c[1], c[2], c[3])
    else INVALID
  }

  predicate IsSurrogate(v: bv32) {
    0xD800 <= v <= 0xDFFF
  }

  lemma ContinuationIsNotNul(x: bv32)
    ensures Low(0x80 | (x & 0x3F)) != 0
  {
  }

  lemma LeadOfTwo(v: bv32)
    requires 0x80 <= v <= 0x7FF
    ensures Low(0xC0 | (v >> 6)) & 0xE0 == 0xC0
  {
  }

  lemma LeadOfThree(v: bv32)
    requires 0x800 <= v <= 0xFFFF
    ensures Low(0xE0 | (v >> 12)) & 0xF0 == 0xE0
  {
  }

  lemma LeadOfFour(v: bv32)
    requires 0x10000 <= v <= 0x10FFFF
    ensures Low(0xF0 | (v >> 15)) & 0xF0 == 0xF0
  {
  }

  /** From U+40000 on, the first byte can run into the five-byte range. */
  lemma LeadOfFourBelow(v: bv32)
    requires 0x10000 <= v < 0x40000
    ensures Low(0xF0 | (v >> 15)) & 0xF8 == 0xF0
  {
  }

  lemma LeadClasses(b: bv8)
    ensures b & 0xE0 == 0xC0 ==> b != 0 && b & 0x80 != 0
    ensures b & 0xF0 == 0xE0 ==> b != 0 && b & 0x80 != 0 && b & 0xE0 != 0xC0
    ensures b & 0xF0 == 0xF0 ==> b != 0 && b & 0x80 != 0 && b & 0xE0 != 0xC0 && b & 0xF0 != 0xE0
  {
  }

  lemma ValueOfTwo(v: bv32)
    requires 0x80 <= v <= 0x7FF
    ensures Join2(Low(0xC0 | (v >> 6)), Low(0x80 | (v & 0x3F))) == v
  {
  }

  lemma ValueOfThree(v: bv32)
    requires 0x800 <= v <= 0xFFFF
    ensures Join3(Low(0xE0 | (v >> 12)), Low(0x80 | ((v >> 6) & 0x3F)), Low(0x80 | (v & 0x3F))) == v
  {
  }

  /** Four bytes carry eighteen bits. */
  lemma ValueOfFour(v: bv32)
    requires 0x10000 <= v <= 0x10FFFF
    ensures Join4(Low(0xF0 | (v >> 15)), Low(0x80 | ((v >> 12) & 0x3F)), Low(0x80 | ((v >> 6) & 0x3F)),
                  Low(0x80 | (v & 0x3F))) == v & 0x3FFFF
  {
  }

  lemma EighteenBits(v: bv32)
    ensures v & 0x3FFFF == v <==> v < 0x40000
  {
  }

  lemma DecodesTwo(b0: bv8, b1: bv8)
    requires b0 & 0xE0 == 0xC0 && b1 != 0
    ensures Decoded([b0, b1]) == Join2(b0, b1)
  {
    LeadClasses(b0);
  }

  lemma DecodesThree(b0: bv8, b1: bv8, b2: bv8)
    requires b0 & 0xF0 == 0xE0 && b1 != 0 && b2 != 0
    ensures Decoded([b0, b1, b2]) == Join3(b0, b1, b2)
  {
    LeadClasses(b0);
  }

  lemma DecodesFour(b0: bv8, b1: bv8, b2: bv8, b3: bv8)
    requires b0 & 0xF0 == 0xF0 && b1 != 0 && b2 != 0 && b3 != 0
    ensures Decoded([b0, b1, b2, b3])
            == if b0 & 0xF8 == 0xF0 then Join4(b0, b1, b2, b3) else INVALID
  {
    LeadClasses(b0);
  }

  lemma TwoBytes(v: bv32)
    requires 0x80 <= v <= 0x7FF
    ensures Decoded(Encoded(v)) == v
  {
    LeadOfTwo(v);
    ContinuationIsNotNul(v);
    DecodesTwo(Low(0xC0 | (v >> 6)), Low(0x80 | (v & 0x3F)));
    ValueOfTwo(v);
  }

  /** The three bytes, surrogate or not. */
  function ThreeBytesOf(v: bv32): seq<bv8> {
    [Low(0xE0 | (v >> 12)), Low(0x80 | ((v >> 6) & 0x3F)), Low(0x80 | (v & 0x3F))]
  }

  lemma ThreeBytesDecode(v: bv32)
    requires 0x800 <= v <= 0xFFFF
    ensures Decoded(ThreeBytesOf(v)) == v
  {
    LeadOfThree(v);
    ContinuationIsNotNul(v);
    ContinuationIsNotNul(v >> 6);
    DecodesThree(Low(0xE0 | (v >> 12)), Low(0x80 | ((v >> 6) & 0x3F)), Low(0x80 | (v & 0x3F)));
    ValueOfThree(v);
  }

  lemma ThreeBytes(v: bv32)
    requires 0x800 <= v <= 0xFFFF && !IsSurrogate(v)
    ensures Decoded(Encoded(v)) == v
  {
    ThreeBytesDecode(v);
    assert Encoded(v) == ThreeBytesOf(v);
  }

  function FourBytesOf(v: bv32): seq<bv8> {
    [Low(0xF0 | (v >> 15)), Low(0x80 | ((v >> 12) & 0x3F)), Low(0x80 | ((v >> 6) & 0x3F)), Low(0x80 | (v & 0x3F))]
  }

  lemma FourBytesDecode(v: bv32)
    requires 0x10000 <= v <= 0x10FFFF
    ensures Decoded(FourBytesOf(v)) == if Low(0xF0 | (v >> 15)) & 0xF8 == 0xF0 then v & 0x3FFFF else INVALID
  {
    LeadOfFour(v);
    ContinuationIsNotNul(v);
    ContinuationIsNotNul(v >> 6);
    ContinuationIsNotNul(v >> 12);
    DecodesFour(Low(0xF0 | (v >> 15)), Low(0x80 | ((v >> 12) & 0x3F)), Low(0x80 | ((v >> 6) & 0x3F)),
                Low(0x80 | (v & 0x3F)));
    ValueOfFour(v);
  }

  lemma FourBytes(v: bv32)
    requires 0x10000 <= v <= 0x10FFFF
    ensures Decoded(Encoded(v)) == v <==> v < 0x40000
  {
    FourBytesDecode(v);
    EighteenBits(v);
    assert Encoded(v) == FourBytesOf(v);
    if v < 0x40000 {
      LeadOfFourBelow(v);
    }
  }

  /**
   * Decoding inverts encoding exactly for the code points from 1 to U+3FFFF that are no surrogates:
   * the shift by 15 loses the bits above, and 0 reads as the end of a string. (The error value
   * 0xFFFFFFFF has no encoding, and nothing decodes to it.)
   */
  lemma RoundTrip(v: bv32)
    ensures Decoded(Encoded(v)) == v <==> (0 < v < 0x40000 && !IsSurrogate(v)) || v == INVALID
  {
    if 0x80 <= v <= 0x7FF {
      TwoBytes(v);
    } else if 0x800 <= v <= 0xFFFF && !IsSurrogate(v) {
      ThreeBytes(v);
    } else if 0x10000 <= v <= 0x10FFFF {
      FourBytes(v);
    }
  }

  /** What section 3 of RFC 3629 prescribes; nothing for a surrogate or a number past U+10FFFF. */
  function Rfc3629(v: bv32): seq<bv8> {
    if v < 0x80 then [Low(v)]
    else if v < 0x800 then [Low(0xC0 + v / 64), Continuation(v)]
    else if v < 0x10000 then
      if IsSurrogate(v) then [] else [Low(0xE0 + v / 4096), Continuation(v / 64), Continuation(v)]
    else if v < 0x110000 then
      [Low(0xF0 + v / 0x40000), Continuation(v / 4096), Continuation(v / 64), Continuation(v)]
    else []
  }

  /** A byte 10xxxxxx with the low six bits of `v`. */
  function Continuation(v: bv32): bv8 {
    Low(0x80 + v % 64)
  }

  lemma ContinuationBits(v: bv32)
    ensures Continuation(v) == Low(0x80 | (v & 0x3F))
    ensures v / 64 == v >> 6 && v / 4096 == v >> 12 && v / 0x40000 == v >> 18
  {
  }

  lemma ShortLeads(v: bv32)
    ensures v < 0x800 ==> Low(0xC0 + (v >> 6)) == Low(0xC0 | (v >> 6))
    ensures v < 0x10000 ==> Low(0xE0 + (v >> 12)) == Low(0xE0 | (v >> 12))
  {
  }

  lemma LongLead(v: bv32)
    requires 0x10000 <= v <= 0x10FFFF
    ensures Low(0xF0 + (v >> 18)) == Low(0xF0 | (v >> 15)) <==> 0x90000 <= v < 0x98000
  {
  }

  /** The encoding is the standard one below U+10000, and above only from U+90000 to U+97FFF. */
  lemma EncodedIsStandard(v: bv32)
    ensures Encoded(v) == Rfc3629(v) <==> !(0x10000 <= v <= 0x10FFFF) || 0x90000 <= v < 0x98000
  {
    ContinuationBits(v);
    ContinuationBits(v >> 6);
    ContinuationBits(v >> 12);
    ShortLeads(v);
    if 0x10000 <= v <= 0x10FFFF {
      LongLead(v);
      assert Encoded(v)[0] == Low(0xF0 | (v >> 15)) && Rfc3629(v)[0] == Low(0xF0 + (v >> 18));
    }
  }

  // ----- encodings as characters of a string

  function AsBytes(c: seq<bv8>): (r: seq<byte>)
    ensures |r| == |c|
  {
    seq(|c|, i requires 0 <= i < |c| => c[i] as int)
  }

  lemma AnnouncedBits(b: bv8)
    ensures Utf8.Announced(b as int)
         == if b == 0 then 0
            else if b & 0x80 == 0 then 1
            else if b & 0xE0 == 0xC0 then 2
            else if b & 0xF0 == 0xE0 then 3
            else if b & 0xF8 == 0xF0 then 4
            else -1
  {
  }

  lemma ContinuationByte(x: bv32)
    ensures Low(0x80 | (x & 0x3F)) as int >= 0x80
  {
  }

  lemma FurtherBytes(v: bv32)
    ensures forall k :: 0 < k < |Encoded(v)| ==> Encoded(v)[k] as int >= 0x80
  {
    ContinuationByte(v);
    ContinuationByte(v >> 6);
    ContinuationByte(v >> 12);
  }

  /** What the first byte of an encoding announces. */
  lemma LeadIsAnnounced(v: bv32)
    requires Encoded(v) != [] && v != 0
    ensures var n := Utf8.Announced(Encoded(v)[0] as int);
            n == if v <= 0xFFFF || (v >> 15) & 0x08 == 0 then |Encoded(v)| else -1
  {
    AnnouncedBits(Encoded(v)[0]);
    LeadBits(v);
  }

  lemma LeadBits(v: bv32)
    ensures 0 < v <= 0x7F ==> (v & 0x7F) as bv8 & 0x80 == 0 && (v & 0x7F) as bv8 != 0
    ensures 0x80 <= v <= 0x7FF ==> Low(0xC0 | (v >> 6)) & 0xE0 == 0xC0
    ensures 0x800 <= v <= 0xFFFF ==> Low(0xE0 | (v >> 12)) & 0xF0 == 0xE0
    ensures 0x10000 <= v <= 0x10FFFF ==>
              Low(0xF0 | (v >> 15)) & 0xF0 == 0xF0
              && (Low(0xF0 | (v >> 15)) & 0xF8 == 0xF0 <==> (v >> 15) & 0x08 == 0)
  {
  }

  /** For the scanner an encoding is one character of its length, unless the shift spoils the first byte. */
  lemma EncodedIsCharacter(v: bv32)
    requires Encoded(v) != [] && v != 0
    ensures var s := AsBytes(Encoded(v));
            Utf8.Size(s, 0) == |s| <==> v <= 0xFFFF || (v >> 15) & 0x08 == 0
  {
    var c := Encoded(v);
    var s := AsBytes(c);
    LeadIsAnnounced(v);
    FurtherBytes(v);
    CompleteCharacter(c, if v <= 0xFFFF || (v >> 15) & 0x08 == 0 then |c| else -1);
  }

  lemma CompleteCharacter(c: seq<bv8>, n: int)
    requires c != [] && Utf8.Announced(c[0] as int) == n && (n == |c| || n == -1)
    requires forall k :: 0 < k < |c| ==> c[k] as int >= 0x80
    ensures Utf8.Size(AsBytes(c), 0) == n
  {
    var s := AsBytes(c);
    assert forall k :: 0 <= k < |c| ==> s[k] == c[k] as int;
  }
}
