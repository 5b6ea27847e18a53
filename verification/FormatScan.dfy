/** How my_vsnprintf takes a format apart: a directive written out is found again, whatever stands around it. */
module FormatScan {
  import opened Bytes
  import opened Wrappers
  import opened Number
  import opened FormatSpec
  import opened FormatLaws
  import Atoi

  // ----- the parts of a directive

  predicate IsFlag(c: byte) {
    c in {32, 35, 43, 45, 48}
  }

  /** The flags that a run of - + space # 0 sets. */
  function FlagsOf(s: seq<byte>): Flags {
    Flags(48 in s, false, 43 in s, 32 in s, 45 in s, 35 in s, false)
  }

  function Both(f: Flags, g: Flags): Flags {
    Flags(f.zeropad || g.zeropad, f.sign || g.sign, f.plus || g.plus, f.space || g.space, f.left || g.left,
          f.special || g.special, f.large || g.large)
  }

  lemma OneFlag(c: byte, f: Flags)
    requires IsFlag(c)
    ensures FlagFor(c, f) == Some(Both(f, FlagsOf([c])))
  {
  }

  lemma FlagsTogether(f: Flags, c: byte, s: seq<byte>)
    ensures Both(Both(f, FlagsOf([c])), FlagsOf(s)) == Both(f, FlagsOf([c] + s))
  {
    var t := [c] + s;
    assert forall x: byte :: x in t <==> x == c || x in s;
  }

  lemma {:induction false} FlagsAreScanned(s: seq<byte>, rest: seq<byte>, f: Flags)
    requires (forall c :: c in s ==> IsFlag(c)) && (rest != [] ==> !IsFlag(rest[0]))
    ensures ScanFlags(s + rest, f) == (Both(f, FlagsOf(s)), rest)
    decreases |s|
  {
    if s == [] {
      assert s + rest == rest;
    } else {
      var c, later := s[0], s[1..];
      assert c in s && forall x :: x in later ==> x in s;
      assert (s + rest)[0] == c && (s + rest)[1..] == later + rest;
      OneFlag(c, f);
      FlagsAreScanned(later, rest, Both(f, FlagsOf([c])));
      FlagsTogether(f, c, later);
      assert [c] + later == s;
    }
  }

  /** A number in decimal digits is scanned as that number. */
  lemma {:induction false} NumberIsScanned(n: nat, rest: seq<byte>)
    ensures ScanNumber(Digits(n, 10, false) + rest, 0) == ScanNumber(rest, n)
    decreases n
  {
    if n < 10 {
      assert ([Digit(n, false)] + rest)[1..] == rest;
    } else {
      QuotientIsPositive(n, 10);
      var d := Digit(n % 10, false);
      assert Digits(n, 10, false) + rest == Digits(n / 10, 10, false) + ([d] + rest);
      assert ([d] + rest)[1..] == rest;
      NumberIsScanned(n / 10, [d] + rest);
    }
  }

  lemma {:induction false} FirstDigit(n: nat)
    ensures var d := Digits(n, 10, false); 48 <= d[0] <= 57 && (n > 0 ==> d[0] != 48)
    decreases n
  {
    if n >= 10 {
      QuotientIsPositive(n, 10);
      FirstDigit(n / 10);
    }
  }

  /** A width, if it is not 0. */
  function WidthText(width: nat): seq<byte> {
    if width == 0 then [] else Digits(width, 10, false)
  }

  /** A dot and a precision, if there is one. */
  function PrecisionText(precision: Option<nat>): seq<byte> {
    if precision.None? then [] else [46] + Digits(precision.value, 10, false)
  }

  /** h, l, L, Z, z, ll, or nothing. */
  predicate IsQualifier(q: seq<byte>) {
    q == [] || q == [104] || q == [108] || q == [76] || q == [90] || q == [122] || q == [108, 108]
  }

  /** What ends a directive: no flag, digit, dot, star or qualifier. */
  predicate IsLetter(c: byte) {
    !IsFlag(c) && !IsDigit(c) && c !in {46, 42, 104, 108, 76, 90, 122}
  }

  function QualifierOf(q: seq<byte>): byte
    requires IsQualifier(q)
  {
    if q == [] then 0 else if q == [108, 108] then 76 else q[0]
  }

  lemma WidthIsScanned(p: Spec, width: nat, rest: seq<byte>)
    requires p.rest == WidthText(width) + rest && rest != [] && !IsDigit(rest[0]) && rest[0] != 42
    ensures ScanWidth(p) == Some(p.(width := if width == 0 then p.width else width, rest := rest))
  {
    if width == 0 {
      assert [] + rest == rest;
    } else {
      FirstDigit(width);
      NumberIsScanned(width, rest);
    }
  }

  lemma PrecisionIsScanned(p: Spec, precision: Option<nat>, rest: seq<byte>)
    requires p.rest == PrecisionText(precision) + rest && !p.dot
    requires rest != [] && !IsDigit(rest[0]) && rest[0] !in {42, 46}
    ensures ScanPrecision(p)
         == Some(p.(dot := precision.Some?, precision := if precision.None? then p.precision else precision.value,
                    rest := rest))
  {
    match precision
    case None => assert [] + rest == rest;
    case Some(n) => DotIsScanned(p, n, rest);
  }

  lemma DotIsScanned(p: Spec, n: nat, rest: seq<byte>)
    requires p.rest == [46] + Digits(n, 10, false) + rest && (rest != [] ==> !IsDigit(rest[0]))
    ensures ScanPrecision(p) == Some(p.(dot := true, precision := n, rest := rest))
  {
    var behind := Digits(n, 10, false) + rest;
    assert p.rest == [46] + behind && p.rest[1..] == behind;
    FirstDigit(n);
    NumberIsScanned(n, rest);
  }

  lemma QualifierIsScanned(p: Spec, q: seq<byte>, rest: seq<byte>)
    requires IsQualifier(q) && p.rest == q + rest && rest != [] && IsLetter(rest[0]) && p.qualifier == 0
    ensures ScanQualifier(p) == p.(qualifier := QualifierOf(q), rest := rest)
  {
    if q == [] {
      assert [] + rest == rest;
    } else if |q| == 1 {
      assert (q + rest)[1..] == rest;
    } else {
      assert (q + rest)[2..] == rest;
    }
  }

  // ----- the directive

  datatype Written = Written(flags: seq<byte>, width: nat, precision: Option<nat>, qualifier: seq<byte>, letter: byte)

  predicate IsWritten(d: Written) {
    (forall c :: c in d.flags ==> IsFlag(c)) && IsQualifier(d.qualifier) && IsLetter(d.letter)
  }

  /** Flags, width, precision, qualifier and letter, one behind the other. */
  function Spelled(d: Written): seq<byte> {
    d.flags + (WidthText(d.width) + (PrecisionText(d.precision) + (d.qualifier + [d.letter])))
  }

  /** What the format loop knows when it reaches the letter. */
  function Meant(d: Written, more: seq<byte>, args: seq<Arg>): Spec
    requires IsWritten(d)
  {
    Spec(FlagsOf(d.flags), if d.width == 0 then -1 else d.width, d.precision.Some?,
         if d.precision.None? then -1 else d.precision.value, QualifierOf(d.qualifier), [d.letter] + more, args)
  }

  lemma PartsInOrder(flags: seq<byte>, w: seq<byte>, p: seq<byte>, q: seq<byte>, c: seq<byte>, more: seq<byte>)
    ensures flags + (w + (p + (q + c))) + more == flags + (w + (p + (q + (c + more))))
  {
  }

  /** The parts of a directive are found again. */
  lemma DirectiveIsScanned(d: Written, more: seq<byte>, args: seq<Arg>)
    requires IsWritten(d)
    ensures ScanSpec(Spelled(d) + more, args) == Some(Meant(d, more, args))
  {
    var letter := [d.letter] + more;
    var behindPrecision := d.qualifier + letter;
    var behindWidth := PrecisionText(d.precision) + behindPrecision;
    var behindFlags := WidthText(d.width) + behindWidth;
    PartsInOrder(d.flags, WidthText(d.width), PrecisionText(d.precision), d.qualifier, [d.letter], more);
    if d.width > 0 {
      FirstDigit(d.width);
    }
    FlagsAreScanned(d.flags, behindFlags, NO_FLAGS);
    var p0 := Spec(FlagsOf(d.flags), -1, false, -1, NUL, behindFlags, args);
    WidthIsScanned(p0, d.width, behindWidth);
    var p1 := p0.(width := if d.width == 0 then -1 else d.width, rest := behindWidth);
    PrecisionIsScanned(p1, d.precision, behindPrecision);
    var p2 := p1.(dot := d.precision.Some?, precision := if d.precision.None? then -1 else d.precision.value,
                  rest := behindPrecision);
    QualifierIsScanned(p2, d.qualifier, letter);
  }

  // ----- a star

  /** A star takes its width from an argument; a negative one justifies left. */
  lemma StarWidth(p: Spec, w: word64)
    requires p.rest != [] && p.rest[0] == 42 && p.args != [] && p.args[0] == Word(w)
    ensures var v := AsSigned(w % 0x1_0000_0000, 0x1_0000_0000);
            ScanWidth(p) == Some(p.(f := p.f.(left := p.f.left || v < 0), width := if v < 0 then -v else v,
                                    rest := p.rest[1..], args := p.args[1..]))
  {
  }

  lemma StarPrecision(p: Spec, w: word64)
    requires |p.rest| > 1 && p.rest[0] == 46 && p.rest[1] == 42 && p.args != [] && p.args[0] == Word(w)
    ensures ScanPrecision(p)
         == Some(p.(dot := true, precision := AsSigned(w % 0x1_0000_0000, 0x1_0000_0000),
                    rest := p.rest[2..], args := p.args[1..]))
  {
    assert p.rest[1..][1..] == p.rest[2..];
  }

  // ----- directives in a format

  lemma PlainFirst(c: byte, fmt: seq<byte>, args: seq<Arg>)
    requires c != 37
    ensures Format([c] + fmt, args) == Prefixed([c], Format(fmt, args))
  {
    assert ([c] + fmt)[1..] == fmt;
  }

  /** Text before a directive is printed as it is. */
  lemma {:induction false} PlainText(before: seq<byte>, fmt: seq<byte>, args: seq<Arg>)
    requires 37 !in before
    ensures Format(before + fmt, args) == Prefixed(before, Format(fmt, args))
    decreases |before|
  {
    if before == [] {
      assert before + fmt == fmt;
      FormatStarts(fmt, args);
    } else {
      var c, later := before[0], before[1..];
      assert c in before && forall x :: x in later ==> x in before;
      PlainText(later, fmt, args);
      PlainFirst(c, later + fmt, args);
      FormatSteps([c], later, Format(fmt, args));
      assert [c] + later == before && [c] + (later + fmt) == before + fmt;
    }
  }

  /** A directive prints its conversion, and what follows goes on with what is left of the arguments. */
  lemma DirectiveIsPrinted(d: Written, more: seq<byte>, args: seq<Arg>)
    requires IsWritten(d) && Conversion(Meant(d, more, args)).Some?
    ensures var c := Conversion(Meant(d, more, args)).value;
            Format([37] + (Spelled(d) + more), args) == Prefixed(c.text, Format(c.rest, c.args))
  {
    var fmt := [37] + (Spelled(d) + more);
    assert fmt[1..] == Spelled(d) + more;
    DirectiveIsScanned(d, more, args);
  }

  /** A format that is one directive, with the one argument it takes. */
  lemma OneDirective(d: Written, arg: Arg)
    requires IsWritten(d) && Consumed(Meant(d, [], [arg]))
    ensures Format([37] + Spelled(d), [arg]) == Some(Conversion(Meant(d, [], [arg])).value.text)
  {
    assert Spelled(d) + [] == Spelled(d) && [d.letter] + [] == [d.letter];
    DirectiveIsPrinted(d, [], [arg]);
    var c := Conversion(Meant(d, [], [arg])).value;
    assert c.rest == [] && c.args == [] && c.text + [] == c.text;
  }

  /** %.Ns: the first N bytes. */
  lemma CutString(n: nat, s: seq<byte>)
    requires IsCString(s)
    ensures Format([37] + Spelled(Written([], 0, Some(n), [], 115)), [Str(s)]) == Some(if n < |s| then s[..n] else s)
  {
    var d := Written([], 0, Some(n), [], 115);
    String(Meant(d, [], [Str(s)]), s);
    OneDirective(d, Str(s));
    var text, core := Conversion(Meant(d, [], [Str(s)])).value.text, if n < |s| then s[..n] else s;
    assert InField(text, core, -1, false) && text[0..] == text;
  }

  /** %Ns: at the end of N places, behind spaces. */
  lemma RightString(n: nat, s: seq<byte>)
    requires IsCString(s) && n > 0
    ensures var t := Format([37] + Spelled(Written([], n, None, [], 115)), [Str(s)]);
            t.Some? && InField(t.value, s, n, false)
  {
    var d := Written([], n, None, [], 115);
    String(Meant(d, [], [Str(s)]), s);
    OneDirective(d, Str(s));
  }

  /** %-Ns: at the beginning, before spaces. */
  lemma LeftString(n: nat, s: seq<byte>)
    requires IsCString(s) && n > 0
    ensures var t := Format([37] + Spelled(Written([45], n, None, [], 115)), [Str(s)]);
            t.Some? && InField(t.value, s, n, true)
  {
    var d := Written([45], n, None, [], 115);
    String(Meant(d, [], [Str(s)]), s);
    OneDirective(d, Str(s));
  }

  /** %u: the low 32 bits of the argument in decimal. */
  lemma UnsignedInFormat(fmt: seq<byte>, w: word64)
    requires fmt == [37] + Spelled(Written([], 0, None, [], 117))
    ensures var t := Format(fmt, [Word(w)]);
            t.Some? && Atoi.ValueOf(Trim(t.value), 10) == w % 0x1_0000_0000
  {
    var d := Written([], 0, None, [], 117);
    UnsignedDecimal(Meant(d, [], [Word(w)]), w);
    OneDirective(d, Word(w));
  }

  lemma BehindPlainText(before: seq<byte>, fmt: seq<byte>, args: seq<Arg>)
    requires 37 !in before && Format(fmt, args).Some?
    ensures var t := Format(before + fmt, args);
            && t.Some? && |t.value| >= |before| && t.value[..|before|] == before
            && t.value[|before|..] == Format(fmt, args).value
  {
    PlainText(before, fmt, args);
    var text := Format(fmt, args).value;
    assert (before + text)[|before|..] == text && (before + text)[..|before|] == before;
  }

  lemma NoPercent(before: seq<byte>)
    requires before == Ascii("PING :PING")
    ensures 37 !in before
  {
  }

  /** As the bot sends its ping: PING :PING and a number in decimal. */
  lemma PingFormat(before: seq<byte>, fmt: seq<byte>, w: word64)
    requires before == Ascii("PING :PING") && fmt == [37] + Spelled(Written([], 0, None, [], 117))
    ensures var t := Format(before + fmt, [Word(w)]);
            && t.Some? && |t.value| >= |before| && t.value[..|before|] == before
            && Atoi.ValueOf(Trim(t.value[|before|..]), 10) == w % 0x1_0000_0000
  {
    UnsignedInFormat(fmt, w);
    NoPercent(before);
    BehindPlainText(before, fmt, [Word(w)]);
  }
}
