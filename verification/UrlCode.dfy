/** etc.cpp: urlencode and urldecode. */
module UrlCode {
  import opened Bytes
  import opened Buffers
  import opened Sink
  import opened Number
  import opened Atoi

  const PERCENT: byte := 37

  /** The characters that stand for themselves. */
  predicate IsPlain(c: byte) {
    48 <= c <= 57 || 65 <= c <= 90 || 97 <= c <= 122 || c == 45 || c == 95 || c == 46 || c == 42
  }

  /** What snprintf prints for %%%02x. */
  function Escape(c: byte): (r: seq<byte>)
    ensures |r| == 3
  {
    [PERCENT, Digit(c / 16, false), Digit(c % 16, false)]
  }

  function EncodeOne(c: byte): seq<byte> {
    if IsPlain(c) then [c] else Escape(c)
  }

  function Encoded(s: seq<byte>): seq<byte> {
    if s == [] then [] else EncodeOne(s[0]) + Encoded(s[1..])
  }

  predicate IsHexDigit(c: byte) {
    48 <= c <= 57 || 97 <= c <= 102
  }

  /** Letters, digits and - _ . * stand for themselves, everything else becomes an escape. */
  lemma PlainOrEscaped(c: byte)
    ensures var e := EncodeOne(c);
            if 48 <= c <= 57 || 65 <= c <= 90 || 97 <= c <= 122 || c in {45, 95, 46, 42} then e == [c]
            else |e| == 3 && e[0] == 37 && IsHexDigit(e[1]) && IsHexDigit(e[2])
  {
  }

  /** So nothing else appears in an encoding. */
  lemma {:induction false} EncodingAlphabet(s: seq<byte>)
    ensures forall x :: x in Encoded(s) ==>
              48 <= x <= 57 || 65 <= x <= 90 || 97 <= x <= 122 || x in {37, 42, 45, 46, 95}
    decreases |s|
  {
    if s != [] {
      PlainOrEscaped(s[0]);
      EncodingAlphabet(s[1..]);
    }
  }

  /** Every percent sign has its two characters; without them the decoder reads past the end. */
  predicate IsEscaped(s: seq<byte>)
    decreases |s|
  {
    s == [] || (if s[0] == PERCENT then |s| >= 3 && IsEscaped(s[3..]) else IsEscaped(s[1..]))
  }

  /** The character two hexadecimal digits stand for, read by my_atoi behind 0x. */
  function Unescape(a: byte, b: byte): byte {
    var v := Accumulate([a, b], 16, 0);
    v % 256
  }

  function Decoded(s: seq<byte>): seq<byte>
    requires IsEscaped(s)
    decreases |s|
  {
    if s == [] then []
    else if s[0] == PERCENT then [Unescape(s[1], s[2])] + Decoded(s[3..])
    else [s[0]] + Decoded(s[1..])
  }

  lemma UnescapeInvertsEscape(c: byte)
    ensures Unescape(Escape(c)[1], Escape(c)[2]) == c
  {
    var a, b := Digit(c / 16, false), Digit(c % 16, false);
    DigitReads(c / 16, false, 16);
    DigitReads(c % 16, false, 16);
    assert [a, b][1..] == [b] && [b][1..] == [];
    assert Accumulate([b], 16, c / 16) == Accumulate([], 16, c / 16 * 16 + c % 16);
  }

  /** Decoding undoes encoding. */
  lemma {:induction false} DecodeInvertsEncode(s: seq<byte>)
    ensures IsEscaped(Encoded(s)) && Decoded(Encoded(s)) == s
    decreases |s|
  {
    if s != [] {
      var e := Encoded(s);
      DecodeInvertsEncode(s[1..]);
      if IsPlain(s[0]) {
        assert e[1..] == Encoded(s[1..]);
      } else {
        UnescapeInvertsEscape(s[0]);
        assert e[3..] == Encoded(s[1..]) && e[..3] == Escape(s[0]);
        assert e[1] == e[..3][1] && e[2] == e[..3][2];
      }
    }
  }

  /** Encoding goes character by character. */
  lemma {:induction false} EncodedAppend(s: seq<byte>, t: seq<byte>)
    ensures Encoded(s + t) == Encoded(s) + Encoded(t)
    decreases |s|
  {
    if s == [] {
      assert s + t == t;
    } else {
      assert (s + t)[1..] == s[1..] + t;
      EncodedAppend(s[1..], t);
    }
  }

  lemma EncodedOfOne(c: byte)
    ensures Encoded([c]) == EncodeOne(c)
  {
    assert EncodeOne(c) + Encoded([c][1..]) == EncodeOne(c);
  }

  lemma EncodedSnoc(front: seq<byte>, c: byte)
    ensures Encoded(front + [c]) == Encoded(front) + EncodeOne(c)
  {
    EncodedAppend(front, [c]);
    EncodedOfOne(c);
  }

  lemma EncodedOneMore(s: seq<byte>, n: nat)
    requires n < |s|
    ensures Encoded(s[..n + 1]) == Encoded(s[..n]) + EncodeOne(s[n])
  {
    var front, c := s[..n], s[n];
    EncodedSnoc(front, c);
    assert s[..n + 1] == front + [c];
  }

  /** The encoding of a beginning is no longer than that of the whole. */
  lemma EncodedGrows(s: seq<byte>, n: nat)
    requires n <= |s|
    ensures |Encoded(s[..n])| <= |Encoded(s)|
  {
    var front, rest := s[..n], s[n..];
    EncodedAppend(front, rest);
    assert s == front + rest;
  }

  /** The first `n` characters are as many as fit before a NUL. */
  predicate JustFit(s: seq<byte>, n: nat, size: nat) {
    n < |s| && |Encoded(s[..n])| < size <= |Encoded(s[..n + 1])|
  }

  /**
   * urlencode: the length of the encoding, or -1 when it and its NUL do not fit; as many whole
   * characters as do fit are then left, closed by a NUL. No escape is cut apart.
   */
  method UrlEncode(str: seq<byte>, dst: array<byte>, size: nat) returns (dlen: int)
    requires IsCString(str) && 0 < size <= dst.Length
    modifies dst
    ensures dlen == if |Encoded(str)| < size then |Encoded(str)| else -1
    ensures dlen >= 0 ==> dst[..dlen] == Encoded(str) && dst[dlen] == NUL
    ensures dlen < 0 ==> exists n: nat ::
                JustFit(str, n, size) && dst[..|Encoded(str[..n])| + 1] == Encoded(str[..n]) + [NUL]
    ensures dst[size..] == old(dst[size..])
  {
    var dp: nat, sp: nat := 0, 0;
    dlen := 0;
    while At(str, sp) != NUL
      invariant sp <= |str| && dp == dlen < size
      invariant dst[..dp] == Encoded(str[..sp])
      invariant dst[size..] == old(dst[size..])
      decreases |str| - sp
    {
      var text := EncodeOne(str[sp]);
      ghost var before := dst[..dp];
      EncodedOneMore(str, sp);
      dlen := dlen + |text|;
      if dlen >= size {
        EncodedGrows(str, sp + 1);
        dst[dp] := NUL;
        assert JustFit(str, sp, size) && dst[..dp + 1] == before + [NUL];
        return -1;
      }
      Store(dst, dp, text);
      assert dst[..dp + |text|] == before + text;
      dp, sp := dp + |text|, sp + 1;
    }
    assert str[..sp] == str && dst[..dp] == Encoded(str);
    dst[dp] := NUL;
  }

  /** The first `n` characters to be made come from characters and escapes that are whole. */
  predicate WholeEscapes(s: seq<byte>, n: nat)
    decreases n
  {
    n == 0 || s == []
    || (if s[0] == PERCENT then |s| >= 3 && WholeEscapes(s[3..], n - 1) else WholeEscapes(s[1..], n - 1))
  }

  /** The first `n` characters, and what is left of the string. */
  function DecodePart(s: seq<byte>, n: nat): (r: (seq<byte>, seq<byte>))
    requires WholeEscapes(s, n)
    ensures |r.0| <= n && (r.1 != [] ==> |r.0| == n)
    decreases n
  {
    if n == 0 || s == [] then ([], s)
    else
      var t := Taken(s);
      var r := DecodePart(s[t.1..], n - 1);
      ([t.0] + r.0, r.1)
  }

  /** What one turn of the loop makes, and of how much. */
  function Taken(s: seq<byte>): (r: (byte, nat))
    requires s != [] && (s[0] == PERCENT ==> |s| >= 3)
    ensures 0 < r.1 <= |s|
  {
    if s[0] == PERCENT then (Unescape(s[1], s[2]), 3) else (s[0], 1)
  }

  /** In a string whose escapes are all whole, every part is a beginning of the decoding. */
  lemma {:induction false} PartOfDecoded(s: seq<byte>, n: nat)
    requires IsEscaped(s)
    ensures WholeEscapes(s, n)
    ensures var r, full := DecodePart(s, n), Decoded(s);
            && r.0 == full[..if n < |full| then n else |full|]
            && (r.1 == [] <==> |full| <= n)
    decreases n
  {
    if s != [] {
      var t := Taken(s);
      assert Decoded(s) == [t.0] + Decoded(s[t.1..]);
      if n > 0 {
        PartOfDecoded(s[t.1..], n - 1);
      }
    }
  }

  function Behind(done: seq<byte>, r: (seq<byte>, seq<byte>)): (seq<byte>, seq<byte>) {
    (done + r.0, r.1)
  }

  /** The loop has made `done` and has room for `n` more characters from `sp` on. */
  ghost predicate Underway(full: (seq<byte>, seq<byte>), done: seq<byte>, str: seq<byte>, sp: nat, n: nat) {
    sp <= |str| && WholeEscapes(str[sp..], n) && full == Behind(done, DecodePart(str[sp..], n))
  }

  lemma FirstTurn(str: seq<byte>, n: nat)
    requires WholeEscapes(str, n)
    ensures Underway(DecodePart(str, n), [], str, 0, n)
  {
    assert str[0..] == str;
    assert [] + DecodePart(str, n).0 == DecodePart(str, n).0;
  }

  lemma OneTurn(full: (seq<byte>, seq<byte>), done: seq<byte>, str: seq<byte>, sp: nat, n: nat)
    requires Underway(full, done, str, sp, n) && sp < |str| && n > 0
    ensures str[sp] == PERCENT ==>
              sp + 3 <= |str| && Underway(full, done + [Unescape(str[sp + 1], str[sp + 2])], str, sp + 3, n - 1)
    ensures str[sp] != PERCENT ==> Underway(full, done + [str[sp]], str, sp + 1, n - 1)
  {
    var s := str[sp..];
    var t := Taken(s);
    assert s[t.1..] == str[sp + t.1..];
    var later := DecodePart(str[sp + t.1..], n - 1);
    assert done + ([t.0] + later.0) == done + [t.0] + later.0;
  }

  lemma LastTurn(full: (seq<byte>, seq<byte>), done: seq<byte>, str: seq<byte>, sp: nat, n: nat)
    requires Underway(full, done, str, sp, n) && (n == 0 || sp == |str|)
    ensures full == (done, str[sp..])
  {
    assert done + [] == done;
  }

  /**
   * urldecode: the decoding and a NUL, or as much of it as fits, a NUL, and -1. The escapes must be
   * whole as far as the buffer lets the loop come: it tests for room before it reads one.
   */
  method UrlDecode(str: seq<byte>, dst: array<byte>, size: nat) returns (dlen: int)
    requires IsCString(str) && 0 < size <= dst.Length && WholeEscapes(str, size - 1)
    modifies dst
    ensures var (text, left) := DecodePart(str, size - 1);
            && dlen == (if left == [] then |text| else -1)
            && dst[..|text|] == text && dst[|text|] == NUL
    ensures dst[size..] == old(dst[size..])
  {
    var dp: nat, sp: nat := 0, 0;
    dlen := 0;
    ghost var full, done := DecodePart(str, size - 1), [];
    FirstTurn(str, size - 1);
    while At(str, sp) != NUL
      invariant sp <= |str| && dp == dlen == |done| < size
      invariant Underway(full, done, str, sp, size - 1 - dp)
      invariant dst[..dp] == done && dst[size..] == old(dst[size..])
      decreases |str| - sp
    {
      dlen := dlen + 1;
      if dlen >= size {
        break;
      }
      OneTurn(full, done, str, sp, size - 1 - dp);
      var c := str[sp];
      if c == PERCENT {
        c := Unescape(str[sp + 1], str[sp + 2]);
        sp := sp + 2;
      }
      dst[dp] := c;
      done := done + [c];
      assert dst[..dp + 1] == done;
      dp, sp := dp + 1, sp + 1;
    }
    LastTurn(full, done, str, sp, size - 1 - dp);
    dst[dp] := NUL;
    assert dst[..dp] == done;
    if dlen >= size {
      dlen := -1;
    }
  }

  /** Decoding what urlencode wrote, in a buffer that holds the string and its NUL, gives the string. */
  lemma EncodingIsDecoded(s: seq<byte>, size: nat)
    requires |s| < size
    ensures WholeEscapes(Encoded(s), size - 1) && DecodePart(Encoded(s), size - 1) == (s, [])
  {
    DecodeInvertsEncode(s);
    PartOfDecoded(Encoded(s), size - 1);
    assert s[..|s|] == s;
  }
}
