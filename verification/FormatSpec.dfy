/** What my_vsnprintf is to print: the full text of a format string and its arguments. */
module FormatSpec {
  import opened Bytes
  import opened Wrappers
  import opened Sink
  import opened Number

  const PERCENT: byte := 37
  const STAR: byte := 42
  const DOT: byte := 46

  /** One argument of the call: a machine word, or a string that may be a null pointer. */
  datatype Arg = Word(w: word64) | Str(s: seq<byte>) | NullStr

  const NO_FLAGS := Flags(false, false, false, false, false, false, false)

  predicate IsDigit(c: byte) {
    48 <= c <= 57
  }

  /** The low 32 bits of a word, as an int. */
  function AsInt32(w: int): (r: int)
    requires w >= 0
    ensures -0x8000_0000 <= r < 0x8000_0000
  {
    var m := w % 0x1_0000_0000;
    if m < 0x8000_0000 then m else m - 0x1_0000_0000
  }

  /** The flag characters. */
  function FlagFor(c: byte, f: Flags): Option<Flags> {
    if c == MINUS then Some(f.(left := true))
    else if c == PLUS then Some(f.(plus := true))
    else if c == SPACE then Some(f.(space := true))
    else if c == 35 then Some(f.(special := true))
    else if c == ZERO then Some(f.(zeropad := true))
    else None
  }

  function ScanFlags(s: seq<byte>, f: Flags): (r: (Flags, seq<byte>))
    ensures |r.1| <= |s|
  {
    if s == [] || FlagFor(s[0], f).None? then (f, s) else ScanFlags(s[1..], FlagFor(s[0], f).value)
  }

  function ScanNumber(s: seq<byte>, i: int): (r: (int, seq<byte>))
    ensures |r.1| <= |s|
  {
    if s == [] || !IsDigit(s[0]) then (i, s) else ScanNumber(s[1..], i * 10 + (s[0] as int - 48))
  }

  /** What is known of a conversion before its letter. */
  datatype Spec = Spec(f: Flags, width: int, dot: bool, precision: int, qualifier: byte,
                       rest: seq<byte>, args: seq<Arg>)

  /** A width: digits, or a star that takes an argument; a negative argument justifies left. */
  function ScanWidth(p: Spec): (r: Option<Spec>)
    ensures r.Some? ==> |r.value.rest| <= |p.rest|
  {
    if p.rest != [] && IsDigit(p.rest[0]) then
      var n := ScanNumber(p.rest, 0);
      Some(p.(width := n.0, rest := n.1))
    else if p.rest != [] && p.rest[0] == STAR then
      if p.args == [] || !p.args[0].Word? then None
      else
        var v := AsInt32(p.args[0].w);
        Some(p.(f := if v < 0 then p.f.(left := true) else p.f, width := if v < 0 then -v else v,
                rest := p.rest[1..], args := p.args[1..]))
    else Some(p)
  }

  /** A precision: a dot, and digits, a star, or nothing. */
  function ScanPrecision(p: Spec): (r: Option<Spec>)
    ensures r.Some? ==> |r.value.rest| <= |p.rest|
  {
    if p.rest == [] || p.rest[0] != DOT then Some(p)
    else
      var q := p.(dot := true, rest := p.rest[1..]);
      if q.rest != [] && IsDigit(q.rest[0]) then
        var n := ScanNumber(q.rest, 0);
        Some(q.(precision := n.0, rest := n.1))
      else if q.rest != [] && q.rest[0] == STAR then
        if q.args == [] || !q.args[0].Word? then None
        else Some(q.(precision := AsInt32(q.args[0].w), rest := q.rest[1..], args := q.args[1..]))
      else Some(q)
  }

  /** One of h, l, L, Z, z; two l count as L. */
  function ScanQualifier(p: Spec): (r: Spec)
    ensures |r.rest| <= |p.rest|
  {
    if p.rest != [] && p.rest[0] in {104, 108, 76, 90, 122} then
      if p.rest[0] == 108 && |p.rest| > 1 && p.rest[1] == 108 then p.(qualifier := 76, rest := p.rest[2..])
      else p.(qualifier := p.rest[0], rest := p.rest[1..])
    else p
  }

  function ScanSpec(s: seq<byte>, args: seq<Arg>): (r: Option<Spec>)
    ensures r.Some? ==> |r.value.rest| <= |s|
  {
    var fl := ScanFlags(s, NO_FLAGS);
    var w := ScanWidth(Spec(fl.0, -1, false, -1, NUL, fl.1, args));
    if w.None? then None
    else
      var p := ScanPrecision(w.value);
      if p.None? then None else Some(ScanQualifier(p.value))
  }

  /** The argument as the qualifier reads it, extended to 64 bits. */
  function Extended(w: word64, bits: int, signed: bool): word64
    requires bits == 0x1_0000 || bits == 0x1_0000_0000
  {
    var m := w % bits;
    if signed && m >= bits / 2 then m + ULL - bits else m
  }

  function Fetched(w: word64, qualifier: byte, signed: bool): word64 {
    if qualifier in {76, 108, 90, 122} then w
    else if qualifier == 104 then Extended(w, 0x1_0000, signed)
    else Extended(w, 0x1_0000_0000, signed)
  }

  /** A precision given with a dot is never negative. */
  function EffectivePrecision(p: Spec): int {
    if p.dot && p.precision < 0 then 0 else p.precision
  }

  const NULL_TEXT: seq<byte> := [40, 110, 117, 108, 108, 41]

  /** %c: one character in a field. */
  function CharText(c: byte, p: Spec): seq<byte> {
    if p.f.left then [c] + Repeat(SPACE, p.width - 1) else Repeat(SPACE, p.width - 1) + [c]
  }

  /** %s: at most `precision` characters of a string in a field. */
  function StringText(s: seq<byte>, p: Spec): seq<byte> {
    var n := EffectivePrecision(p);
    var text := if 0 <= n < |s| then s[..n] else s;
    if p.f.left then text + Repeat(SPACE, p.width - |text|) else Repeat(SPACE, p.width - |text|) + text
  }

  /** %d and its relatives. */
  function IntegerText(w: word64, base: nat, f: Flags, p: Spec): seq<byte>
    requires 2 <= base <= 36
  {
    Text(Fetched(w, p.qualifier, f.sign), base, p.width, EffectivePrecision(p), f)
  }

  function PointerText(w: word64, p: Spec): seq<byte> {
    if p.width == -1 then Text(w, 16, 16, EffectivePrecision(p), p.f.(zeropad := true))
    else Text(w, 16, p.width, EffectivePrecision(p), p.f)
  }

  /** The base and the flags of an integer conversion, if the letter is one: o, x, X, d, i, u. */
  function IntegerBase(c: byte, f: Flags): Option<(nat, Flags)>
    ensures IntegerBase(c, f).Some? ==> IntegerBase(c, f).value.0 in {8, 10, 16}
  {
    if c == 111 then Some((8, f))
    else if c == 120 then Some((16, f))
    else if c == 88 then Some((16, f.(large := true)))
    else if c == 100 || c == 105 then Some((10, f.(sign := true)))
    else if c == 117 then Some((10, f))
    else None
  }

  /** What one conversion prints, what is left of the format, and what is left of the arguments. */
  datatype Piece = Piece(text: seq<byte>, rest: seq<byte>, args: seq<Arg>)

  /**
   * The conversion letter. None where the call has no meaning (an argument missing or of the wrong
   * kind) and for %f, %J and %n.
   */
  function Conversion(p: Spec): (r: Option<Piece>)
    ensures r.Some? ==> |r.value.rest| <= |p.rest|
  {
    if p.rest == [] then Some(Piece([PERCENT], [], p.args))
    else
      var c, rest := p.rest[0], p.rest[1..];
      if c == 99 then
        if p.args == [] || !p.args[0].Word? then None
        else Some(Piece(CharText(p.args[0].w % 256, p), rest, p.args[1..]))
      else if c == 115 || c == 83 then
        if p.args == [] || p.args[0].Word? then None
        else Some(Piece(StringText(if p.args[0].Str? then CStr(p.args[0].s) else NULL_TEXT, p), rest, p.args[1..]))
      else if c == 112 then
        if p.args == [] || !p.args[0].Word? then None
        else Some(Piece(PointerText(p.args[0].w, p), rest, p.args[1..]))
      else if c == PERCENT then Some(Piece([PERCENT], rest, p.args))
      else if c in {102, 74, 110} then None
      else if IntegerBase(c, p.f).Some? then
        if p.args == [] || !p.args[0].Word? then None
        else
          var b := IntegerBase(c, p.f).value;
          Some(Piece(IntegerText(p.args[0].w, b.0, b.1, p), rest, p.args[1..]))
      else Some(Piece([PERCENT, c], rest, p.args))
  }

  /** One conversion, from behind its percent sign on. */
  function Directive(s: seq<byte>, args: seq<Arg>): (r: Option<Piece>)
    ensures r.Some? ==> |r.value.rest| <= |s|
  {
    var p := ScanSpec(s, args);
    if p.None? then None else Conversion(p.value)
  }

  function Prefixed(text: seq<byte>, rest: Option<seq<byte>>): Option<seq<byte>> {
    if rest.Some? then Some(text + rest.value) else None
  }

  /** The full text of a format, if the call has a meaning. */
  function Format(fmt: seq<byte>, args: seq<Arg>): Option<seq<byte>>
    decreases |fmt|
  {
    if fmt == [] then Some([])
    else if fmt[0] != PERCENT then Prefixed([fmt[0]], Format(fmt[1..], args))
    else
      var d := Directive(fmt[1..], args);
      if d.None? then None else Prefixed(d.value.text, Format(d.value.rest, d.value.args))
  }

  lemma FormatStarts(fmt: seq<byte>, args: seq<Arg>)
    ensures Prefixed([], Format(fmt, args)) == Format(fmt, args)
  {
    if Format(fmt, args).Some? {
      assert [] + Format(fmt, args).value == Format(fmt, args).value;
    }
  }

  lemma FormatSteps(before: seq<byte>, text: seq<byte>, rest: Option<seq<byte>>)
    ensures Prefixed(before, Prefixed(text, rest)) == Prefixed(before + text, rest)
  {
    if rest.Some? {
      assert before + (text + rest.value) == before + text + rest.value;
    }
  }
}
