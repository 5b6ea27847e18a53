/** my_vsprintf.cpp: number prints an integer with sign, prefix, precision and padding. */
module Number {
  import opened Bytes
  import opened Sink

  const ULL := 0x1_0000_0000_0000_0000
  const LL_MIN := 0x8000_0000_0000_0000
  const ZERO: byte := 48
  const MINUS: byte := 45
  const PLUS: byte := 43

  type word64 = w: int | 0 <= w < ULL

  datatype Flags = Flags(zeropad: bool, sign: bool, plus: bool, space: bool, left: bool, special: bool, large: bool)

  /** small_digits and large_digits. */
  function Digit(d: int, large: bool): byte
    requires 0 <= d < 36
  {
    if d < 10 then ZERO + d else (if large then 65 else 97) + (d - 10)
  }

  /** The digits of a number, most significant first; one zero for zero. */
  function Digits(n: nat, base: nat, large: bool): (r: seq<byte>)
    requires 2 <= base <= 36
    ensures |r| > 0
    decreases n
  {
    if n < base then [Digit(n, large)]
    else
      assert 0 <= n / base < n && 0 <= n % base < base by { QuotientIsSmaller(n, base); }
      Digits(n / base, base, large) + [Digit(n % base, large)]
  }

  function Max(a: int, b: int): (r: int)
    ensures r >= a && r >= b && (r == a || r == b)
  {
    if a > b then a else b
  }

  predicate IsNegative(num: word64, f: Flags) {
    f.sign && num >= LL_MIN
  }

  function Magnitude(num: word64, f: Flags): word64 {
    if IsNegative(num, f) then ULL - num else num
  }

  function SignText(num: word64, f: Flags): seq<byte> {
    if !f.sign then []
    else if IsNegative(num, f) then [MINUS]
    else if f.plus then [PLUS]
    else if f.space then [SPACE]
    else []
  }

  function PrefixText(base: nat, f: Flags): seq<byte> {
    if !f.special then []
    else if base == 16 then [ZERO, Digit(33, f.large)]
    else if base == 8 then [ZERO]
    else []
  }

  /** The padding goes after everything, between prefix and digits, or before everything. */
  function Laid(f: Flags, pad: int, head: seq<byte>, body: seq<byte>): seq<byte> {
    if f.left then head + body + Repeat(SPACE, pad)
    else if f.zeropad then head + Repeat(ZERO, pad) + body
    else Repeat(SPACE, pad) + head + body
  }

  function Head(num: word64, base: nat, f: Flags): seq<byte> {
    SignText(num, f) + PrefixText(base, f)
  }

  /** Head and digits, filled up with zeros to the precision and padded to the size. */
  function Printed(head: seq<byte>, digits: seq<byte>, size: int, precision: int, f: Flags): seq<byte> {
    var body := Repeat(ZERO, precision - |digits|) + digits;
    Laid(f, size - |head| - |body|, head, body)
  }

  /** What number prints. */
  function Text(num: word64, base: nat, size: int, precision: int, f: Flags): seq<byte>
    requires 2 <= base <= 36
  {
    Printed(Head(num, base, f), Digits(Magnitude(num, f), base, f.large), size, precision, f)
  }

  /** Exactly the field width, or as much as sign, prefix and digits need. */
  lemma TextLength(num: word64, base: nat, size: int, precision: int, f: Flags)
    requires 2 <= base <= 36
    ensures |Text(num, base, size, precision, f)|
            == Max(size, |SignText(num, f)| + |PrefixText(base, f)|
                         + Max(|Digits(Magnitude(num, f), base, f.large)|, precision))
  {
  }

  lemma QuotientIsSmaller(n: nat, base: nat)
    requires n > 0 && base >= 2
    ensures 0 <= n / base < n && 0 <= n % base < base
  {
  }

  /** The digits as the conversion loop finds them, least significant first. */
  function LowFirst(n: nat, base: nat, large: bool): seq<byte>
    requires 2 <= base <= 36
    decreases n
  {
    if n == 0 then []
    else
      assert n / base < n by { QuotientIsSmaller(n, base); }
      [Digit(n % base, large)] + LowFirst(n / base, base, large)
  }

  function Reversed(s: seq<byte>): (r: seq<byte>)
    ensures |r| == |s| && forall i :: 0 <= i < |s| ==> r[i] == s[|s| - 1 - i]
  {
    if s == [] then [] else Reversed(s[1..]) + [s[0]]
  }

  lemma {:induction false} DigitsAreReversed(n: nat, base: nat, large: bool)
    requires 2 <= base <= 36 && n > 0
    ensures Digits(n, base, large) == Reversed(LowFirst(n, base, large))
    decreases n
  {
    var d, rest := Digit(n % base, large), LowFirst(n / base, base, large);
    ReversedCons(d, rest);
    if n >= base {
      QuotientIsPositive(n, base);
      DigitsAreReversed(n / base, base, large);
    } else {
      SmallQuotient(n, base);
    }
  }

  lemma ReversedCons(d: byte, rest: seq<byte>)
    ensures Reversed([d] + rest) == Reversed(rest) + [d]
  {
    assert ([d] + rest)[1..] == rest;
  }

  lemma QuotientIsPositive(n: nat, base: nat)
    requires 2 <= base <= n
    ensures 0 < n / base < n
  {
  }

  lemma SmallQuotient(n: nat, base: nat)
    requires n < base
    ensures n / base == 0 && n % base == n
  {
  }

  function Power2(k: nat): (p: nat)
    ensures p > 0
  {
    if k == 0 then 1 else 2 * Power2(k - 1)
  }

  /** A number below 2^k has at most k digits in any base: sixty-four fit the buffer of sixty-six. */
  lemma {:induction false} DigitCount(n: nat, base: nat, large: bool, k: nat)
    requires 2 <= base <= 36 && n < Power2(k)
    ensures |LowFirst(n, base, large)| <= k
    decreases k
  {
    if n > 0 {
      HalfOrLess(n, base);
      DigitCount(n / base, base, large, k - 1);
    }
  }

  lemma AtLeastTwice(q: nat, base: nat)
    requires base >= 2
    ensures q * base >= q * 2
  {
  }

  lemma HalfOrLess(n: nat, base: nat)
    requires 2 <= base
    ensures 0 <= 2 * (n / base) <= n
  {
    var q := n / base;
    assert n == q * base + n % base;
    AtLeastTwice(q, base);
  }

  lemma SixtyFour()
    ensures Power2(64) == ULL
  {
    assert Power2(8) == 0x100;
    assert Power2(16) == 0x1_0000;
    assert Power2(24) == 0x100_0000;
    assert Power2(32) == 0x1_0000_0000;
    assert Power2(40) == 0x100_0000_0000;
    assert Power2(48) == 0x1_0000_0000_0000;
    assert Power2(56) == 0x100_0000_0000_0000;
  }

  /** The conversion loop of number. */
  method ConvertLoop(num: word64, base: nat, large: bool, tmp: array<byte>) returns (i: nat)
    requires 2 <= base <= 36 && tmp.Length == 66
    modifies tmp
    ensures i <= tmp.Length && tmp[..i] == LowFirst(num, base, large)
  {
    SixtyFour();
    DigitCount(num, base, large, 64);
    i := 0;
    var n: nat := num;
    ghost var all := LowFirst(num, base, large);
    while n != 0
      invariant i <= 64 && all == tmp[..i] + LowFirst(n, base, large)
      decreases n
    {
      HalfOrLess(n, base);
      var d, q := Digit(n % base, large), n / base;
      ghost var rest := LowFirst(q, base, large);
      assert LowFirst(n, base, large) == [d] + rest;
      assert tmp[..i] + ([d] + rest) == tmp[..i] + [d] + rest;
      tmp[i] := d;
      i, n := i + 1, q;
    }
  }

  method Convert(num: word64, base: nat, large: bool, tmp: array<byte>) returns (i: nat)
    requires 2 <= base <= 36 && tmp.Length == 66
    modifies tmp
    ensures 0 < i <= tmp.Length && Digits(num, base, large) == Reversed(tmp[..i])
  {
    if num == 0 {
      tmp[0] := ZERO;
      assert tmp[..1] == [ZERO] && Reversed(tmp[..1]) == [ZERO];
      return 1;
    }
    i := ConvertLoop(num, base, large, tmp);
    DigitsAreReversed(num, base, large);
  }

  /** What the countdown of a padding loop leaves in its variable. */
  function Counted(size: int): int {
    if size > 0 then -1 else size - 1
  }

  function SignOf(sign: byte): seq<byte> {
    if sign == NUL then [] else [sign]
  }

  /** The sign and the prefix. */
  method PutHead(o: Output, sign: byte, base: int, f: Flags)
    requires o.Valid() && 2 <= base <= 36 && o.Admits(SignOf(sign) + PrefixText(base, f))
    modifies o, o.buf
    ensures o.Valid() && o.out == old(o.out) + (SignOf(sign) + PrefixText(base, f))
  {
    if sign != NUL {
      o.Put(sign);
    }
    if f.special {
      if base == 8 {
        o.Put(ZERO);
      } else if base == 16 {
        o.Put(ZERO);
        o.Put(Digit(33, f.large));
      }
    }
  }

  /** The part of the text before zeros and digits. */
  function Lead(f: Flags, pad: int, head: seq<byte>): seq<byte> {
    if f.left then head else if f.zeropad then head + Repeat(ZERO, pad) else Repeat(SPACE, pad) + head
  }

  /** The first two padding loops, around sign and prefix; at most one does anything. */
  method PutLead(o: Output, sign: byte, base: int, f: Flags, pad: int) returns (width: int)
    requires o.Valid() && 2 <= base <= 36 && o.Admits(Lead(f, pad, SignOf(sign) + PrefixText(base, f)))
    modifies o, o.buf
    ensures o.Valid() && o.out == old(o.out) + Lead(f, pad, SignOf(sign) + PrefixText(base, f))
    ensures if f.left then width == pad else width < 0
  {
    width := pad;
    if !f.zeropad && !f.left {
      o.PutMany(SPACE, width);
      width := Counted(width);
    }
    PutHead(o, sign, base, f);
    if !f.left {
      o.PutMany(if f.zeropad then ZERO else SPACE, width);
      width := Counted(width);
    }
  }

  /** What the printing half of number prints. */
  function Parts(sign: byte, base: int, f: Flags, pad: int, tmp: seq<byte>, prec: int): seq<byte>
    requires 2 <= base <= 36
  {
    Laid(f, pad, SignOf(sign) + PrefixText(base, f), Repeat(ZERO, prec - |tmp|) + Reversed(tmp))
  }

  /** The printing half of number. */
  method PutParts(o: Output, sign: byte, base: int, f: Flags, pad: int, tmp: seq<byte>, prec: int)
    requires o.Valid() && 2 <= base <= 36 && o.Admits(Parts(sign, base, f, pad, tmp, prec))
    modifies o, o.buf
    ensures o.Valid()
    ensures o.out == old(o.out) + Parts(sign, base, f, pad, tmp, prec)
  {
    ghost var start := o.out;
    ghost var head, zeros, digits := SignOf(sign) + PrefixText(base, f), Repeat(ZERO, prec - |tmp|), Reversed(tmp);
    var width := if f.left then pad else Counted(pad);
    LaidInOrder(f, pad, head, zeros, digits, width, start);
    width := PutLead(o, sign, base, f, pad);
    o.PutMany(ZERO, prec - |tmp|);
    PutDigits(o, tmp);
    o.PutMany(SPACE, width);
    LaidInOrder(f, pad, head, zeros, digits, width, start);
  }

  lemma LaidInOrder(f: Flags, pad: int, head: seq<byte>, zeros: seq<byte>, digits: seq<byte>, width: int,
                    start: seq<byte>)
    requires if f.left then width == pad else width < 0
    ensures start + Lead(f, pad, head) + zeros + digits + Repeat(SPACE, width)
            == start + Laid(f, pad, head, zeros + digits)
  {
  }

  /** The first half of number: the sign to print, the magnitude, and the width that is left. */
  method SplitSign(num: word64, base: int, size: int, f: Flags) returns (sign: byte, n: word64, width: int)
    requires 2 <= base <= 36
    ensures SignOf(sign) + PrefixText(base, f) == Head(num, base, f)
    ensures n == Magnitude(num, f) && width == size - |Head(num, base, f)|
  {
    sign, n, width := NUL, num, size;
    if f.sign {
      if num >= LL_MIN {
        sign, n, width := MINUS, ULL - num, width - 1;
      } else if f.plus {
        sign, width := PLUS, width - 1;
      } else if f.space {
        sign, width := SPACE, width - 1;
      }
    }
    if f.special {
      if base == 16 {
        width := width - 2;
      } else if base == 8 {
        width := width - 1;
      }
    }
  }

  /** The flags number works with: a left-justified field is not filled with zeros. */
  function Effective(f: Flags): Flags {
    if f.left then f.(zeropad := false) else f
  }

  /** What the two halves of number lay out is what is to be printed. */
  lemma LaidIsPrinted(head: seq<byte>, found: seq<byte>, prec: int, size: int, precision: int, flags: Flags)
    requires prec == if |found| > precision then |found| else precision
    ensures Laid(Effective(flags), size - |head| - prec, head, Repeat(ZERO, prec - |found|) + Reversed(found))
            == Printed(head, Reversed(found), size, precision, flags)
  {
    assert Repeat(ZERO, prec - |found|) == Repeat(ZERO, precision - |found|);
  }

  lemma PartsAreText(num: word64, base: int, size: int, precision: int, flags: Flags,
                     sign: byte, found: seq<byte>, prec: int)
    requires 2 <= base <= 36 && SignOf(sign) + PrefixText(base, Effective(flags)) == Head(num, base, flags)
    requires Digits(Magnitude(num, flags), base, flags.large) == Reversed(found)
    requires prec == if |found| > precision then |found| else precision
    ensures Parts(sign, base, Effective(flags), size - |Head(num, base, flags)| - prec, found, prec)
            == Text(num, base, size, precision, flags)
  {
    var head := Head(num, base, flags);
    LaidIsPrinted(head, found, prec, size, precision, flags);
    assert Parts(sign, base, Effective(flags), size - |head| - prec, found, prec)
        == Laid(Effective(flags), size - |head| - prec, head, Repeat(ZERO, prec - |found|) + Reversed(found));
    assert Text(num, base, size, precision, flags) == Printed(head, Reversed(found), size, precision, flags);
  }

  lemma SameHead(num: word64, base: int, flags: Flags)
    requires 2 <= base <= 36
    ensures Head(num, base, Effective(flags)) == Head(num, base, flags)
    ensures Magnitude(num, Effective(flags)) == Magnitude(num, flags)
  {
  }

  /** number; the result is false where the source returns NULL. */
  method PrintNumber(o: Output, num: word64, base: int, size: int, precision: int, flags: Flags) returns (ok: bool)
    requires o.Valid() && (2 <= base <= 36 ==> o.Admits(Text(num, base, size, precision, flags)))
    modifies o, o.buf
    ensures o.Valid() && ok == (2 <= base <= 36)
    ensures o.out == if ok then old(o.out) + Text(num, base, size, precision, flags) else old(o.out)
  {
    var f := Effective(flags);
    if base < 2 || base > 36 {
      return false;
    }
    SameHead(num, base, flags);
    var sign, n, width := SplitSign(num, base, size, f);
    var tmp := new byte[66](_ => 0);
    var i := Convert(n, base, f.large, tmp);
    var prec := if i > precision then i else precision;
    var found := tmp[..i];
    PartsAreText(num, base, size, precision, flags, sign, found, prec);
    PutParts(o, sign, base, f, width - prec, found, prec);
    return true;
  }

  /** The loop that prints the digits, last found first. */
  method PutDigits(o: Output, tmp: seq<byte>)
    requires o.Valid() && o.Admits(tmp)
    modifies o, o.buf
    ensures o.Valid() && o.out == old(o.out) + Reversed(tmp)
  {
    ghost var digits := Reversed(tmp);
    var i := |tmp|;
    while i > 0
      invariant 0 <= i <= |tmp| && o.Valid()
      invariant o.out == old(o.out) + digits[..|tmp| - i]
    {
      i := i - 1;
      assert digits[..|tmp| - i] == digits[..|tmp| - 1 - i] + [tmp[i]];
      o.Put(tmp[i]);
    }
    assert digits[..|tmp|] == digits;
  }
}
