/** etc.cpp: my_atoi_base reads back what number prints. */
module Atoi {
  import opened Bytes
  import opened Sink
  import opened Number

  /** The value of a digit, or -1 for a character that ends the number. */
  function DigitValue(c: byte, base: int): int {
    if base <= 10 then (if ZERO <= c < base + ZERO then c as int - ZERO as int else -1)
    else if base <= 16 then
      if 48 <= c <= 57 then c as int - 48
      else if 65 <= c <= 90 then c as int - 65 + 10
      else if 97 <= c <= 122 then c as int - 97 + 10
      else -1
    else -1
  }

  /** The value after the digits at the start of `s`. */
  function Accumulate(s: seq<byte>, base: int, val: int): int {
    if s == [] || DigitValue(s[0], base) < 0 then val else Accumulate(s[1..], base, val * base + DigitValue(s[0], base))
  }

  /** No value on the way exceeds an int. */
  predicate Fits(s: seq<byte>, base: int, val: int) {
    val <= INT_MAX
    && (s == [] || DigitValue(s[0], base) < 0 || Fits(s[1..], base, val * base + DigitValue(s[0], base)))
  }

  function HasSign(s: seq<byte>): bool {
    s != [] && (s[0] == MINUS || s[0] == PLUS)
  }

  function Unsigned(s: seq<byte>): seq<byte> {
    if HasSign(s) then s[1..] else s
  }

  function ValueOf(s: seq<byte>, base: int): int {
    var v := Accumulate(Unsigned(s), base, 0);
    if s != [] && s[0] == MINUS then -v else v
  }

  /** my_atoi_base; beyond an int the source has no defined result. */
  method MyAtoiBase(str: seq<byte>, base: int) returns (r: int)
    requires IsCString(str) && Fits(Unsigned(str), base, 0)
    ensures r == ValueOf(str, base)
  {
    var val, i: nat, isnegative := 0, 0, false;
    if At(str, 0) == MINUS {
      isnegative, i := true, 1;
    } else if At(str, 0) == PLUS {
      i := 1;
    }
    assert str[0..] == str;
    while At(str, i) != NUL
      invariant i <= |str| && Fits(str[i..], base, val)
      invariant Accumulate(str[i..], base, val) == Accumulate(Unsigned(str), base, 0)
      decreases |str| - i
    {
      var nextchar := At(str, i);
      var d := -1;
      if base <= 10 {
        if nextchar >= ZERO && nextchar < base + ZERO {
          d := nextchar as int - ZERO as int;
        }
      } else if base <= 16 {
        if 48 <= nextchar <= 57 {
          d := nextchar as int - 48;
        } else if 65 <= nextchar <= 90 {
          d := nextchar as int - 65 + 10;
        } else if 97 <= nextchar <= 122 {
          d := nextchar as int - 97 + 10;
        }
      }
      if d < 0 {
        break;
      }
      assert str[i..][1..] == str[i + 1..];
      val := val * base;
      val := val + d;
      i := i + 1;
    }
    return if isnegative then -val else val;
  }

  lemma {:induction false} SkipZeros(k: int, rest: seq<byte>, base: int)
    requires 2 <= base <= 16
    ensures Accumulate(Repeat(ZERO, k) + rest, base, 0) == Accumulate(rest, base, 0)
    ensures Fits(Repeat(ZERO, k) + rest, base, 0) == Fits(rest, base, 0)
    decreases k
  {
    var s := Repeat(ZERO, k) + rest;
    if k <= 0 {
      assert s == rest;
    } else {
      assert s[1..] == Repeat(ZERO, k - 1) + rest;
      assert DigitValue(ZERO, base) == 0 && 0 * base == 0;
      SkipZeros(k - 1, rest, base);
    }
  }

  lemma DigitReads(d: int, large: bool, base: int)
    requires 2 <= base <= 16 && 0 <= d < base
    ensures DigitValue(Digit(d, large), base) == d
  {
  }

  /** Reading the digits of n gives n. */
  lemma {:induction false} DigitsRead(n: nat, base: int, large: bool, rest: seq<byte>)
    requires 2 <= base <= 16
    ensures Accumulate(Digits(n, base, large) + rest, base, 0) == Accumulate(rest, base, n)
    ensures n <= INT_MAX ==> Fits(Digits(n, base, large) + rest, base, 0) == Fits(rest, base, n)
    decreases n
  {
    if n < base {
      DigitReads(n, large, base);
      assert ([Digit(n, large)] + rest)[1..] == rest;
      assert 0 * base == 0;
    } else {
      QuotientIsPositive(n, base);
      DivMod(n, base);
      var d := Digit(n % base, large);
      DigitReads(n % base, large, base);
      assert Digits(n, base, large) + rest == Digits(n / base, base, large) + ([d] + rest);
      assert ([d] + rest)[1..] == rest;
      DigitsRead(n / base, base, large, [d] + rest);
    }
  }

  lemma DivMod(n: nat, base: nat)
    requires base > 0
    ensures n == n / base * base + n % base && 0 <= n % base < base
  {
  }

  /** The integer that number was asked to print. */
  function Signed(num: word64, f: Flags): int {
    var m: int := Magnitude(num, f);
    if IsNegative(num, f) then -m else m
  }

  /** Runs of zeros, the digits, and spaces after them. */
  function Shape(pad: int, fill: int, digits: seq<byte>, after: int): seq<byte> {
    Repeat(ZERO, pad) + (Repeat(ZERO, fill) + (digits + Repeat(SPACE, after)))
  }

  lemma ShapeReads(pad: int, fill: int, n: nat, base: int, large: bool, after: int)
    requires 2 <= base <= 16
    ensures var s := Shape(pad, fill, Digits(n, base, large), after);
            Accumulate(s, base, 0) == n && (n <= INT_MAX ==> Fits(s, base, 0))
  {
    var spaces := Repeat(SPACE, after);
    var s1 := Digits(n, base, large) + spaces;
    SkipZeros(pad, Repeat(ZERO, fill) + s1, base);
    SkipZeros(fill, s1, base);
    DigitsRead(n, base, large, spaces);
    assert DigitValue(SPACE, base) < 0;
  }

  /** A zero for a prefix changes nothing. */
  lemma OctalPrefixReads(s: seq<byte>, base: int)
    requires 2 <= base <= 16
    ensures Accumulate([ZERO] + s, base, 0) == Accumulate(s, base, 0)
    ensures Fits([ZERO] + s, base, 0) == Fits(s, base, 0)
  {
    assert ([ZERO] + s)[1..] == s;
    assert DigitValue(ZERO, base) == 0 && 0 * base == 0;
  }

  /** Starting from more, one arrives at least that much higher. */
  lemma {:induction false} AccumulateGrows(s: seq<byte>, base: int, v: nat, more: nat)
    requires base >= 1
    ensures Accumulate(s, base, v + more) >= Accumulate(s, base, v) + more
    decreases |s|
  {
    if s != [] && DigitValue(s[0], base) >= 0 {
      var next: nat := v * base + DigitValue(s[0], base);
      Distributes(v, more, base);
      AccumulateGrows(s[1..], base, next, more * base);
    }
  }

  lemma Distributes(v: nat, more: nat, base: int)
    requires base >= 1
    ensures (v + more) * base == v * base + more * base && more * base >= more && v * base >= 0
  {
  }

  /** The prefix of the alternative form is not understood: its x counts as a digit of value 33. */
  lemma HexPrefixReads(s: seq<byte>, large: bool)
    ensures Accumulate([ZERO, Digit(33, large)] + s, 16, 0) == Accumulate(s, 16, 33) >= Accumulate(s, 16, 0) + 33
  {
    var t := [ZERO, Digit(33, large)] + s;
    assert t[1..] == [Digit(33, large)] + s && t[1..][1..] == s;
    assert Accumulate(t, 16, 0) == Accumulate(t[1..], 16, 0) == Accumulate(s, 16, 33);
    AccumulateGrows(s, 16, 0, 33);
  }

  lemma {:induction false} DigitsBeginWithDigit(n: nat, base: nat, large: bool)
    requires 2 <= base <= 36
    ensures Digits(n, base, large)[0] >= ZERO
    decreases n
  {
    if n >= base {
      QuotientIsPositive(n, base);
      DigitsBeginWithDigit(n / base, base, large);
    }
  }

  /** No character of a shape is taken for a sign. */
  lemma ShapeHasNoSign(pre: seq<byte>, pad: int, fill: int, digits: seq<byte>, after: int)
    requires digits != [] && digits[0] >= ZERO && (pre != [] ==> pre[0] >= ZERO)
    ensures var s := pre + Shape(pad, fill, digits, after); s != [] && s[0] >= ZERO
  {
  }

  /** Unless it begins with a space, the text is the sign, the prefix and a shape. */
  lemma TextHasShape(num: word64, base: nat, size: int, precision: int, f: Flags)
      returns (pad: int, fill: int, after: int)
    requires 2 <= base <= 36
    requires Text(num, base, size, precision, f) != [] && Text(num, base, size, precision, f)[0] != SPACE
    ensures var digits := Digits(Magnitude(num, f), base, f.large);
            Text(num, base, size, precision, f)
            == SignText(num, f) + (PrefixText(base, f) + Shape(pad, fill, digits, after))
    ensures SignText(num, f) != [SPACE]
  {
    var digits := Digits(Magnitude(num, f), base, f.large);
    var sign, pre := SignText(num, f), PrefixText(base, f);
    fill := precision - |digits|;
    var room := size - |sign + pre| - |Repeat(ZERO, fill) + digits|;
    pad, after := if f.zeropad && !f.left then room else 0, if f.left then room else 0;
    assert Text(num, base, size, precision, f) == Laid(f, room, sign + pre, Repeat(ZERO, fill) + digits);
    PartsInOrder(sign, pre, fill, digits, room, f);
  }

  lemma PartsInOrder(sign: seq<byte>, pre: seq<byte>, fill: int, digits: seq<byte>, room: int, f: Flags)
    requires |sign| <= 1 && digits != []
    ensures var head, body := sign + pre, Repeat(ZERO, fill) + digits;
            var text := Laid(f, room, head, body);
            && text != []
            && (text[0] != SPACE ==>
                  && sign != [SPACE]
                  && text == sign + (pre + Shape(if f.zeropad && !f.left then room else 0, fill, digits,
                                                 if f.left then room else 0)))
  {
    var z3 := Repeat(ZERO, fill);
    var text := Laid(f, room, sign + pre, z3 + digits);
    if f.left {
      Regroup(sign, pre, [], z3, digits, Repeat(SPACE, room));
    } else if f.zeropad {
      Regroup(sign, pre, Repeat(ZERO, room), z3, digits, []);
    } else if room <= 0 {
      Regroup(sign, pre, [], z3, digits, []);
    } else {
      assert text[0] == Repeat(SPACE, room)[0];
    }
    if sign == [SPACE] && (f.left || f.zeropad || room <= 0) {
      assert text[0] == sign[0];
    }
  }

  lemma Regroup(sign: seq<byte>, z1: seq<byte>, z2: seq<byte>, z3: seq<byte>, digits: seq<byte>, spaces: seq<byte>)
    ensures var s := sign + (z1 + (z2 + (z3 + (digits + spaces))));
            && (z2 == [] ==> sign + z1 + (z3 + digits) + spaces == s)
            && (spaces == [] ==> sign + z1 + z2 + (z3 + digits) == s)
            && (z2 == [] && spaces == [] ==> [] + (sign + z1) + (z3 + digits) == s)
  {
  }

  /** Where there is no digit to begin with, the value is 0. */
  lemma NothingRead(s: seq<byte>, base: int)
    requires s != [] && (base > 16 || s[0] == SPACE)
    ensures ValueOf(s, base) == 0
  {
    assert DigitValue(SPACE, base) < 0;
  }

  predicate HexPrefixed(base: nat, f: Flags) {
    f.special && base == 16
  }

  /** What the digits after the sign are worth. */
  lemma PrefixedShapeReads(base: nat, f: Flags, pad: int, fill: int, n: nat, after: int)
    requires 2 <= base <= 16
    ensures var s := PrefixText(base, f) + Shape(pad, fill, Digits(n, base, f.large), after);
            && (HexPrefixed(base, f) ==> Accumulate(s, base, 0) >= n + 33)
            && (!HexPrefixed(base, f) ==> Accumulate(s, base, 0) == n && (n <= INT_MAX ==> Fits(s, base, 0)))
  {
    var shape := Shape(pad, fill, Digits(n, base, f.large), after);
    ShapeReads(pad, fill, n, base, f.large, after);
    if HexPrefixed(base, f) {
      HexPrefixReads(shape, f.large);
    } else if f.special && base == 8 {
      OctalPrefixReads(shape, base);
    } else {
      assert [] + shape == shape;
    }
  }

  /**
   * Reading undoes printing. A text that begins with a space, or that is in a base above 16, reads
   * as 0. Any other is read back as the integer printed exactly if it has no hexadecimal prefix; and
   * then, for magnitudes an int can hold, no value on the way overflows.
   */
  lemma NumberReadsBack(num: word64, base: nat, size: int, precision: int, f: Flags)
    requires 2 <= base <= 36
    ensures var text := Text(num, base, size, precision, f);
            && text != []
            && (ValueOf(text, base) == Signed(num, f)
                <==> if base > 16 || text[0] == SPACE then Signed(num, f) == 0 else !HexPrefixed(base, f))
            && (base <= 16 && text[0] != SPACE && !HexPrefixed(base, f) && Magnitude(num, f) <= INT_MAX ==>
                  Fits(Unsigned(text), base, 0))
  {
    var text := Text(num, base, size, precision, f);
    TextLength(num, base, size, precision, f);
    if base > 16 || text[0] == SPACE {
      NothingRead(text, base);
    } else {
      var n, digits := Magnitude(num, f), Digits(Magnitude(num, f), base, f.large);
      var pad, fill, after := TextHasShape(num, base, size, precision, f);
      DigitsBeginWithDigit(n, base, f.large);
      ShapeHasNoSign(PrefixText(base, f), pad, fill, digits, after);
      PrefixedShapeReads(base, f, pad, fill, n, after);
      SignIsRead(text, SignText(num, f), PrefixText(base, f) + Shape(pad, fill, digits, after));
    }
  }

  lemma SignIsRead(text: seq<byte>, sign: seq<byte>, shape: seq<byte>)
    requires text == sign + shape && shape != [] && shape[0] >= ZERO
    requires sign == [] || sign == [MINUS] || sign == [PLUS]
    ensures Unsigned(text) == shape && (text[0] == MINUS <==> sign == [MINUS])
  {
  }

  /** With the hexadecimal prefix, only a zero behind spaces is read back, because nothing is read. */
  lemma HexPrefixIsMisread(num: word64, size: int, precision: int, f: Flags)
    requires f.special
    ensures var text := Text(num, 16, size, precision, f);
            && text != []
            && (ValueOf(text, 16) == Signed(num, f) <==> text[0] == SPACE && Signed(num, f) == 0)
  {
    NumberReadsBack(num, 16, size, precision, f);
  }

  /** So 1 in that form, 0x1, is read as 529. */
  lemma HexOneIsMisread()
    ensures var f := Flags(false, false, false, false, false, true, false);
            Text(1, 16, -1, -1, f) == [ZERO, 120, 49] && ValueOf([ZERO, 120, 49], 16) == 529
  {
    var f := Flags(false, false, false, false, false, true, false);
    assert Digits(1, 16, false) == [49];
    assert Head(1, 16, f) == [] + [ZERO, 120];
    var s: seq<byte> := [ZERO, 120, 49];
    assert s[1..] == [120, 49] && s[1..][1..] == [49] && s[1..][1..][1..] == [];
    assert Accumulate(s, 16, 0) == Accumulate(s[1..], 16, 0) == Accumulate(s[1..][1..], 16, 33);
    assert Accumulate(s[1..][1..], 16, 33) == Accumulate([], 16, 529);
  }
}
