/** What the conversions of my_vsnprintf print, said by reading it back and by literal characters. */
module FormatLaws {
  import opened Bytes
  import opened Wrappers
  import opened Sink
  import opened Number
  import opened FormatSpec
  import opened Atoi

  // ----- the text of an integer behind its leading spaces

  function Trim(s: seq<byte>): (r: seq<byte>)
    ensures r == [] || r[0] != 32
  {
    if s != [] && s[0] == 32 then Trim(s[1..]) else s
  }

  lemma {:induction false} TrimSpaces(k: int, rest: seq<byte>)
    ensures Trim(Repeat(32, k) + rest) == Trim(rest)
    decreases k
  {
    var s := Repeat(32, k) + rest;
    if k <= 0 {
      assert s == rest;
    } else {
      assert s[0] == 32 && s[1..] == Repeat(32, k - 1) + rest;
      TrimSpaces(k - 1, rest);
    }
  }

  /** Spaces, sign, prefix, zeros and digits, and spaces; the padding is in one place only. */
  lemma TextInParts(num: word64, base: nat, size: int, precision: int, f: Flags)
      returns (lead: int, pad: int, fill: int, after: int)
    requires 2 <= base <= 36
    ensures var digits := Digits(Magnitude(num, f), base, f.large);
            Text(num, base, size, precision, f)
            == Repeat(32, lead) + (SignText(num, f) + (PrefixText(base, f) + Shape(pad, fill, digits, after)))
    ensures f.left ==> lead == 0 && pad == 0
    ensures !f.left ==> after == 0
    ensures !f.left && f.zeropad ==> lead == 0
  {
    var digits := Digits(Magnitude(num, f), base, f.large);
    var sign, pre := SignText(num, f), PrefixText(base, f);
    fill := precision - |digits|;
    var zeros := Repeat(ZERO, fill);
    var room := size - |sign + pre| - |zeros + digits|;
    lead, pad, after := 0, 0, 0;
    var text := Text(num, base, size, precision, f);
    assert text == Laid(f, room, sign + pre, zeros + digits);
    if f.left {
      after := room;
      Regroup(sign, pre, [], zeros, digits, Repeat(32, room));
    } else if f.zeropad {
      pad := room;
      Regroup(sign, pre, Repeat(ZERO, room), zeros, digits, []);
    } else {
      lead := room;
      Regroup(sign, pre, [], zeros, digits, []);
      SpacesFirst(Repeat(32, room), sign, pre, zeros, digits);
    }
    if !(!f.left && !f.zeropad) {
      assert Repeat(32, 0) == [];
      assert [] + text == text;
    }
  }

  lemma SpacesFirst(spaces: seq<byte>, sign: seq<byte>, pre: seq<byte>, zeros: seq<byte>, digits: seq<byte>)
    ensures spaces + (sign + pre) + (zeros + digits)
         == spaces + (sign + (pre + ([] + (zeros + (digits + [])))))
  {
  }

  /** The sign that is left when the spaces in front are gone. */
  function PlainSign(num: word64, f: Flags): (r: seq<byte>)
    ensures r == [] || r == [43] || r == [45]
  {
    if SignText(num, f) == [32] then [] else SignText(num, f)
  }

  lemma TrimmedParts(num: word64, base: nat, size: int, precision: int, f: Flags)
      returns (pad: int, fill: int, after: int)
    requires 2 <= base <= 36
    ensures var digits := Digits(Magnitude(num, f), base, f.large);
            Trim(Text(num, base, size, precision, f))
            == PlainSign(num, f) + (PrefixText(base, f) + Shape(pad, fill, digits, after))
  {
    var lead;
    lead, pad, fill, after := TextInParts(num, base, size, precision, f);
    var digits := Digits(Magnitude(num, f), base, f.large);
    DigitsBeginWithDigit(Magnitude(num, f), base, f.large);
    ShapeHasNoSign(PrefixText(base, f), pad, fill, digits, after);
    var rest := PrefixText(base, f) + Shape(pad, fill, digits, after);
    TrimSpaces(lead, SignText(num, f) + rest);
    TrimSign(SignText(num, f), rest);
  }

  lemma TrimSign(sign: seq<byte>, rest: seq<byte>)
    requires rest != [] && rest[0] >= 48 && |sign| <= 1
    ensures Trim(sign + rest) == (if sign == [32] then [] else sign) + rest
  {
    if sign == [32] {
      assert (sign + rest)[1..] == rest && [] + rest == rest;
    }
  }

  /** Without the hexadecimal prefix it reads as the integer; with it, what follows the prefix does. */
  lemma TrimmedReads(num: word64, base: nat, size: int, precision: int, f: Flags)
    requires 2 <= base <= 16
    ensures var t := Trim(Text(num, base, size, precision, f));
            && (!(f.special && base == 16) ==> ValueOf(t, base) == Signed(num, f))
            && (f.special && base == 16 && !f.sign ==>
                  |t| >= 2 && t[0] == 48 && t[1] == (if f.large then 88 else 120)
                  && Accumulate(t[2..], 16, 0) == num)
  {
    var pad, fill, after := TrimmedParts(num, base, size, precision, f);
    var n, digits := Magnitude(num, f), Digits(Magnitude(num, f), base, f.large);
    var shape := Shape(pad, fill, digits, after);
    var rest := PrefixText(base, f) + shape;
    DigitsBeginWithDigit(n, base, f.large);
    ShapeHasNoSign(PrefixText(base, f), pad, fill, digits, after);
    if f.special && base == 16 {
      ShapeReads(pad, fill, n, base, f.large, after);
      assert rest[2..] == shape;
      assert !f.sign ==> [] + rest == rest;
    } else {
      PrefixedShapeReads(base, f, pad, fill, n, after);
      SignIsRead(PlainSign(num, f) + rest, PlainSign(num, f), rest);
    }
  }

  /** The sign: a minus exactly for what is negative, a plus only if asked for. */
  lemma SignLaw(num: word64, base: nat, size: int, precision: int, f: Flags)
    requires 2 <= base <= 36
    ensures var t := Trim(Text(num, base, size, precision, f));
            && t != []
            && (f.sign && num >= 0x8000_0000_0000_0000 ==> t[0] == 45)
            && (f.sign && num < 0x8000_0000_0000_0000 && f.plus ==> t[0] == 43)
            && (!f.sign || (num < 0x8000_0000_0000_0000 && !f.plus) ==> t[0] >= 48)
  {
    var pad, fill, after := TrimmedParts(num, base, size, precision, f);
    var digits := Digits(Magnitude(num, f), base, f.large);
    DigitsBeginWithDigit(Magnitude(num, f), base, f.large);
    ShapeHasNoSign(PrefixText(base, f), pad, fill, digits, after);
  }

  /** A field is filled at its end if left is asked for, else in front, and with zeros no space appears. */
  lemma PaddingLaw(num: word64, base: nat, size: int, precision: int, f: Flags)
    requires 2 <= base <= 36 && !f.space
    ensures var t := Text(num, base, size, precision, f);
            && t != []
            && (f.left ==> t[0] != 32)
            && (!f.left ==> t[|t| - 1] != 32)
            && (!f.left && f.zeropad ==> t[0] != 32)
  {
    var lead, pad, fill, after := TextInParts(num, base, size, precision, f);
    var digits := Digits(Magnitude(num, f), base, f.large);
    DigitsBeginWithDigit(Magnitude(num, f), base, f.large);
    DigitsEndWithDigit(Magnitude(num, f), base, f.large);
    ShapeHasNoSign(PrefixText(base, f), pad, fill, digits, after);
    var shape := Shape(pad, fill, digits, after);
    if !f.left {
      assert shape[|shape| - 1] == digits[|digits| - 1];
    }
  }

  lemma DigitsEndWithDigit(n: nat, base: nat, large: bool)
    requires 2 <= base <= 36
    ensures var d := Digits(n, base, large); d[|d| - 1] >= 48
  {
  }

  // ----- the characters of an integer

  /** The characters that stand for digits, in the letters asked for. */
  predicate IsNumeral(c: byte, base: nat, large: bool) {
    48 <= c <= 57 || (base > 10 && if large then 65 <= c <= 90 else 97 <= c <= 122)
  }

  lemma {:induction false} DigitsAreNumerals(n: nat, base: nat, large: bool)
    requires 2 <= base <= 36
    ensures forall c :: c in Digits(n, base, large) ==> IsNumeral(c, base, large)
    decreases n
  {
    if n >= base {
      QuotientIsPositive(n, base);
      DigitsAreNumerals(n / base, base, large);
    }
  }

  /** Only spaces, a sign and numerals of the one kind of letters appear. */
  lemma TextCharacters(num: word64, base: nat, size: int, precision: int, f: Flags)
    requires 2 <= base <= 36
    ensures forall c :: c in Text(num, base, size, precision, f) ==>
              c in {32, 43, 45} || IsNumeral(c, base, f.large)
  {
    DigitsAreNumerals(Magnitude(num, f), base, f.large);
  }

  // ----- the conversion letters

  /** The conversion with letter `c` of a word, as the flags of a format leave it. */
  predicate Converts(p: Spec, c: byte, w: word64) {
    p.rest != [] && p.rest[0] == c && p.args != [] && p.args[0] == Word(w) && !p.f.sign && !p.f.large
  }

  /** How many values the qualifiers h and l, L, Z, z let through; without one, those of an int. */
  function Modulus(qualifier: byte): (m: nat)
    ensures m > 0
  {
    if qualifier == 104 then 0x1_0000
    else if qualifier in {108, 76, 90, 122} then 0x1_0000_0000_0000_0000
    else 0x1_0000_0000
  }

  function AsSigned(v: nat, m: nat): int {
    if 2 * v < m then v else v - m
  }

  lemma FetchedValue(w: word64, qualifier: byte, f: Flags)
    ensures Fetched(w, qualifier, false) == w % Modulus(qualifier)
    ensures f.sign ==> Signed(Fetched(w, qualifier, true), f) == AsSigned(w % Modulus(qualifier), Modulus(qualifier))
  {
  }

  /** It takes its letter and its argument away. */
  predicate Consumed(p: Spec) {
    var c := Conversion(p);
    c.Some? && p.rest != [] && c.value.rest == p.rest[1..] && p.args != [] && c.value.args == p.args[1..]
  }

  /** The base of an integer conversion, and whether it is signed. */
  predicate IsInteger(c: byte, base: nat, signed: bool) {
    if signed then base == 10 && c in {100, 105}
    else (base == 8 && c == 111) || (base == 10 && c == 117) || (base == 16 && c in {120, 88})
  }

  lemma IntegerConversion(p: Spec, c: byte, w: word64, base: nat, signed: bool)
    requires Converts(p, c, w) && IsInteger(c, base, signed)
    ensures Consumed(p)
    ensures Conversion(p).value.text == Text(Fetched(w, p.qualifier, signed), base, p.width, EffectivePrecision(p),
                                             p.f.(sign := signed, large := c == 88))
  {
    IntegerLetter(c, p.f, base, signed);
  }

  lemma IntegerLetter(c: byte, f: Flags, base: nat, signed: bool)
    requires IsInteger(c, base, signed) && !f.sign && !f.large
    ensures IntegerBase(c, f) == Some((base, f.(sign := signed, large := c == 88)))
    ensures c !in {99, 115, 83, 112, 37, 102, 74, 110}
  {
  }

  /** u: unsigned, in base 10. */
  lemma UnsignedDecimal(p: Spec, w: word64)
    requires Converts(p, 117, w)
    ensures Consumed(p) && ValueOf(Trim(Conversion(p).value.text), 10) == w % Modulus(p.qualifier)
  {
    IntegerConversion(p, 117, w, 10, false);
    FetchedValue(w, p.qualifier, p.f);
    TrimmedReads(Fetched(w, p.qualifier, false), 10, p.width, EffectivePrecision(p), p.f);
  }

  /** o: unsigned, in base 8. */
  lemma Octal(p: Spec, w: word64)
    requires Converts(p, 111, w)
    ensures Consumed(p) && ValueOf(Trim(Conversion(p).value.text), 8) == w % Modulus(p.qualifier)
  {
    IntegerConversion(p, 111, w, 8, false);
    FetchedValue(w, p.qualifier, p.f);
    TrimmedReads(Fetched(w, p.qualifier, false), 8, p.width, EffectivePrecision(p), p.f);
  }

  /** d, i: signed, in base 10. */
  lemma SignedDecimal(p: Spec, w: word64)
    requires Converts(p, 100, w) || Converts(p, 105, w)
    ensures Consumed(p)
    ensures ValueOf(Trim(Conversion(p).value.text), 10) == AsSigned(w % Modulus(p.qualifier), Modulus(p.qualifier))
  {
    var f := p.f.(sign := true);
    IntegerConversion(p, p.rest[0], w, 10, true);
    FetchedValue(w, p.qualifier, f);
    TrimmedReads(Fetched(w, p.qualifier, true), 10, p.width, EffectivePrecision(p), f);
  }

  /** x, X: unsigned, in base 16, with small letters and with capitals, and with a prefix if it is asked for. */
  lemma Hexadecimal(p: Spec, w: word64)
    requires Converts(p, 120, w) || Converts(p, 88, w)
    ensures Consumed(p)
    ensures var text, v := Conversion(p).value.text, w % Modulus(p.qualifier);
            && (!p.f.special ==> ValueOf(Trim(text), 16) == v)
            && (p.f.special ==>
                  var t := Trim(text);
                  && |t| >= 2 && t[0] == 48 && t[1] == p.rest[0]
                  && Accumulate(t[2..], 16, 0) == v)
            && forall c :: c in text ==>
                 if p.rest[0] == 120 then !(65 <= c <= 90) else !(97 <= c <= 122)
  {
    var f := p.f.(large := p.rest[0] == 88);
    FetchedValue(w, p.qualifier, f);
    var num := Fetched(w, p.qualifier, false);
    IntegerConversion(p, p.rest[0], w, 16, false);
    TrimmedReads(num, 16, p.width, EffectivePrecision(p), f);
    TextCharacters(num, 16, p.width, EffectivePrecision(p), f);
  }

  /** p: sixteen numerals unless a width is given, that read as the whole word in base 16. */
  lemma Pointer(p: Spec, w: word64)
    requires Converts(p, 112, w) && !p.f.special
    ensures Consumed(p) && ValueOf(Trim(Conversion(p).value.text), 16) == w
    ensures p.width == -1 ==> |Conversion(p).value.text| >= 16
    ensures p.width == -1 && !p.f.space && !p.f.left ==> Conversion(p).value.text[0] != 32
  {
    var n := EffectivePrecision(p);
    if p.width == -1 {
      if !p.f.space {
        PaddingLaw(w, 16, 16, n, p.f.(zeropad := true));
      }
      TrimmedReads(w, 16, 16, n, p.f.(zeropad := true));
      TextLength(w, 16, 16, n, p.f.(zeropad := true));
    } else {
      TrimmedReads(w, 16, p.width, n, p.f);
    }
  }

  /**
   * The field of an integer: as many places as width or precision ask for, or as its digits need;
   * filled at the end if left is asked for, else in front; with zeros if those are; and a sign where
   * the conversion is signed and it is negative or a plus is asked for.
   */
  lemma IntegerField(p: Spec, c: byte, w: word64, base: nat, signed: bool)
    requires Converts(p, c, w) && IsInteger(c, base, signed) && !p.f.space && !p.f.special
    ensures Conversion(p).Some?
    ensures var m, v := Modulus(p.qualifier), w % Modulus(p.qualifier);
            var n := if p.dot && p.precision < 0 then 0 else p.precision;
            var negative := signed && 2 * v >= m;
            var signs := if negative || (signed && p.f.plus) then 1 else 0;
            var digits := |Digits(if negative then m - v else v, base, c == 88)|;
            var text := Conversion(p).value.text;
            && |text| == Max(p.width, signs + Max(digits, n)) && text != []
            && (if p.f.left then text[0] != 32 else text[|text| - 1] != 32)
            && (p.f.zeropad && !p.f.left ==> text[0] != 32)
            && (Trim(text) != [] && (Trim(text)[0] == 45 <==> negative))
            && (signed && !negative && p.f.plus ==> Trim(text)[0] == 43)
  {
    var f := p.f.(sign := signed, large := c == 88);
    IntegerConversion(p, c, w, base, signed);
    MagnitudeValue(w, p.qualifier, f);
    TextField(Fetched(w, p.qualifier, signed), base, p.width, EffectivePrecision(p), f);
  }

  lemma TextField(num: word64, base: nat, size: int, precision: int, f: Flags)
    requires 2 <= base <= 36 && !f.space && !f.special
    ensures var negative := IsNegative(num, f);
            var signs := if negative || (f.sign && f.plus) then 1 else 0;
            var digits := |Digits(Magnitude(num, f), base, f.large)|;
            var text := Text(num, base, size, precision, f);
            && |text| == Max(size, signs + Max(digits, precision)) && text != []
            && (if f.left then text[0] != 32 else text[|text| - 1] != 32)
            && (f.zeropad && !f.left ==> text[0] != 32)
            && (Trim(text) != [] && (Trim(text)[0] == 45 <==> negative))
            && (f.sign && !negative && f.plus ==> Trim(text)[0] == 43)
  {
    TextLength(num, base, size, precision, f);
    PaddingLaw(num, base, size, precision, f);
    SignLaw(num, base, size, precision, f);
  }

  lemma MagnitudeValue(w: word64, qualifier: byte, f: Flags)
    ensures var m, v := Modulus(qualifier), w % Modulus(qualifier);
            var num := Fetched(w, qualifier, f.sign);
            && (IsNegative(num, f) <==> f.sign && 2 * v >= m)
            && Magnitude(num, f) == if f.sign && 2 * v >= m then m - v else v
  {
  }

  // ----- strings and characters

  /** `core` in a field: behind the missing spaces, or in front of them. */
  predicate InField(text: seq<byte>, core: seq<byte>, width: int, left: bool) {
    && |text| == (if width > |core| then width else |core|)
    && var spaces := |text| - |core|;
       if left then
         text[..|core|] == core && forall i :: |core| <= i < |text| ==> text[i] == 32
       else
         text[spaces..] == core && forall i :: 0 <= i < spaces ==> text[i] == 32
  }

  lemma FieldOf(core: seq<byte>, width: int, left: bool)
    ensures InField(if left then core + Repeat(32, width - |core|) else Repeat(32, width - |core|) + core,
                    core, width, left)
  {
    var spaces := Repeat(32, width - |core|);
    assert (core + spaces)[..|core|] == core && (spaces + core)[|spaces|..] == core;
  }

  /** c: the low byte of the argument. */
  lemma Character(p: Spec, w: word64)
    requires Converts(p, 99, w)
    ensures Consumed(p) && InField(Conversion(p).value.text, [w % 256], p.width, p.f.left)
  {
    FieldOf([w % 256], p.width, p.f.left);
  }

  lemma StringField(s: seq<byte>, p: Spec)
    ensures var n := if p.dot && p.precision < 0 then 0 else p.precision;
            InField(StringText(s, p), if 0 <= n < |s| then s[..n] else s, p.width, p.f.left)
  {
    var n := EffectivePrecision(p);
    FieldOf(if 0 <= n < |s| then s[..n] else s, p.width, p.f.left);
  }

  /** s, S: a string up to its NUL, cut to the precision if there is one. */
  lemma String(p: Spec, str: seq<byte>)
    requires p.rest != [] && p.rest[0] in {115, 83} && p.args != [] && p.args[0] == Str(str)
    ensures Consumed(p)
    ensures var s := CStr(str);
            var n := if p.dot && p.precision < 0 then 0 else p.precision;
            InField(Conversion(p).value.text, if 0 <= n < |s| then s[..n] else s, p.width, p.f.left)
  {
    StringField(CStr(str), p);
  }

  /** And (null) for a null pointer. */
  lemma NullString(p: Spec)
    requires p.rest != [] && p.rest[0] in {115, 83} && p.args != [] && p.args[0] == NullStr
    ensures Consumed(p)
    ensures var s := Ascii("(null)");
            var n := if p.dot && p.precision < 0 then 0 else p.precision;
            InField(Conversion(p).value.text, if 0 <= n < |s| then s[..n] else s, p.width, p.f.left)
  {
    assert Ascii("(null)") == NULL_TEXT;
    StringField(NULL_TEXT, p);
  }

  /** A percent sign prints itself, and an unknown letter itself behind one. */
  lemma PercentAndOther(p: Spec)
    requires p.rest != []
    ensures p.rest[0] == 37 ==> Conversion(p) == Some(Piece([37], p.rest[1..], p.args))
    ensures p.rest[0] !in {37, 88, 99, 100, 105, 111, 112, 115, 83, 117, 120, 102, 74, 110} ==>
              Conversion(p) == Some(Piece([37, p.rest[0]], p.rest[1..], p.args))
  {
  }
}
