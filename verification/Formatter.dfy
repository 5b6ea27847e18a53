/** my_vsprintf_core_impl.h: the format loop, which counts past the end of the buffer but writes only inside it. */
module Formatter {
  import opened Bytes
  import opened Wrappers
  import opened Sink
  import opened Number
  import opened FormatSpec

  /** The flag loop around the label `repeat`. */
  method ParseFlags(s: seq<byte>) returns (f: Flags, rest: seq<byte>)
    ensures (f, rest) == ScanFlags(s, NO_FLAGS)
  {
    f, rest := NO_FLAGS, s;
    while rest != [] && FlagFor(rest[0], f).Some?
      invariant ScanFlags(rest, f) == ScanFlags(s, NO_FLAGS)
    {
      f, rest := FlagFor(rest[0], f).value, rest[1..];
    }
  }

  /** skip_atoi. */
  method SkipAtoi(s: seq<byte>) returns (i: int, rest: seq<byte>)
    ensures (i, rest) == ScanNumber(s, 0)
  {
    i, rest := 0, s;
    while rest != [] && IsDigit(rest[0])
      invariant ScanNumber(rest, i) == ScanNumber(s, 0)
    {
      i, rest := i * 10 + (rest[0] as int - 48), rest[1..];
    }
  }

  /** The field width. */
  method ParseWidth(p0: Spec) returns (p: Spec)
    requires ScanWidth(p0).Some?
    ensures Some(p) == ScanWidth(p0)
  {
    p := p0;
    if p.rest == [] {
      return;
    }
    if IsDigit(p.rest[0]) {
      var n, r := SkipAtoi(p.rest);
      p := p.(width := n, rest := r);
    } else if p.rest[0] == STAR {
      var width := AsInt32(p.args[0].w);
      p := p.(rest := p.rest[1..], args := p.args[1..]);
      if width < 0 {
        width := -width;
        p := p.(f := p.f.(left := true));
      }
      p := p.(width := width);
    }
  }

  /** The precision. */
  method ParsePrecision(p0: Spec) returns (p: Spec)
    requires ScanPrecision(p0).Some?
    ensures Some(p) == ScanPrecision(p0)
  {
    p := p0;
    if p.rest == [] || p.rest[0] != DOT {
      return;
    }
    p := p.(dot := true, rest := p.rest[1..]);
    if p.rest == [] {
      return;
    }
    if IsDigit(p.rest[0]) {
      var n, r := SkipAtoi(p.rest);
      p := p.(precision := n, rest := r);
    } else if p.rest[0] == STAR {
      p := p.(precision := AsInt32(p.args[0].w), rest := p.rest[1..], args := p.args[1..]);
    }
  }

  /** The conversion qualifier. */
  method ParseQualifier(p0: Spec) returns (p: Spec)
    ensures p == ScanQualifier(p0)
  {
    p := p0;
    if p.rest == [] {
      return;
    }
    var c := p.rest[0];
    if c == 104 || c == 108 || c == 76 || c == 90 || c == 122 {
      p := p.(qualifier := c, rest := p.rest[1..]);
      if p.qualifier == 108 && p.rest != [] && p.rest[0] == 108 {
        p := p.(qualifier := 76, rest := p.rest[1..]);
      }
    }
  }

  /** Flags, width, precision and qualifier, in the order of the source. */
  method ParseSpec(s: seq<byte>, args: seq<Arg>) returns (p: Spec)
    requires ScanSpec(s, args).Some?
    ensures Some(p) == ScanSpec(s, args)
  {
    var f, rest := ParseFlags(s);
    p := Spec(f, -1, false, -1, NUL, rest, args);
    p := ParseWidth(p);
    p := ParsePrecision(p);
    p := ParseQualifier(p);
  }

  /** The copying loop of %s. */
  method PutAll(o: Output, s: seq<byte>)
    requires o.Valid() && o.Admits(s)
    modifies o, o.buf
    ensures o.Valid() && o.out == old(o.out) + s
  {
    for i := 0 to |s|
      invariant o.Valid() && o.out == old(o.out) + s[..i]
    {
      assert s[..i + 1] == s[..i] + [s[i]];
      o.Put(s[i]);
    }
    assert s[..|s|] == s;
  }

  method PutChar(o: Output, c: byte, p: Spec)
    requires o.Valid() && o.Admits(CharText(c, p))
    modifies o, o.buf
    ensures o.Valid() && o.out == old(o.out) + CharText(c, p)
  {
    var width := p.width;
    if !p.f.left {
      o.PutMany(SPACE, width - 1);
      width := Counted(width - 1);
    }
    o.Put(c);
    o.PutMany(SPACE, width - 1);
  }

  method PutString(o: Output, s: seq<byte>, p: Spec)
    requires o.Valid() && o.Admits(StringText(s, p))
    modifies o, o.buf
    ensures o.Valid() && o.out == old(o.out) + StringText(s, p)
  {
    var precision := EffectivePrecision(p);
    var text := if 0 <= precision < |s| then s[..precision] else s;
    var width := p.width - |text|;
    if !p.f.left {
      o.PutMany(SPACE, width);
      width := Counted(width);
    }
    PutAll(o, text);
    o.PutMany(SPACE, width);
  }

  /** The switch over the conversion letter. */
  method Convert(o: Output, p: Spec) returns (rest: seq<byte>, args: seq<Arg>)
    requires o.Valid() && Conversion(p).Some? && o.Admits(Conversion(p).value.text)
    modifies o, o.buf
    ensures o.Valid()
    ensures var piece := Conversion(p).value;
            o.out == old(o.out) + piece.text && rest == piece.rest && args == piece.args
  {
    rest, args := [], p.args;
    if p.rest == [] {
      o.Put(PERCENT);
      return;
    }
    var c := p.rest[0];
    rest := p.rest[1..];
    if c == 99 {
      PutChar(o, p.args[0].w % 256, p);
      args := p.args[1..];
    } else if c == 115 || c == 83 {
      PutString(o, if p.args[0].Str? then CStr(p.args[0].s) else NULL_TEXT, p);
      args := p.args[1..];
    } else if c == 112 {
      PutPointer(o, p.args[0].w, p);
      args := p.args[1..];
    } else if c == PERCENT {
      o.Put(PERCENT);
    } else if IntegerBase(c, p.f).Some? {
      var b := IntegerBase(c, p.f).value;
      var ok := PrintNumber(o, Fetched(p.args[0].w, p.qualifier, b.1.sign), b.0, p.width, EffectivePrecision(p), b.1);
      args := p.args[1..];
    } else {
      PutAll(o, [PERCENT, c]);
    }
  }

  method PutPointer(o: Output, w: word64, p: Spec)
    requires o.Valid() && o.Admits(PointerText(w, p))
    modifies o, o.buf
    ensures o.Valid() && o.out == old(o.out) + PointerText(w, p)
  {
    var ok;
    if p.width == -1 {
      ok := PrintNumber(o, w, 16, 16, EffectivePrecision(p), p.f.(zeropad := true));
    } else {
      ok := PrintNumber(o, w, 16, p.width, EffectivePrecision(p), p.f);
    }
  }

  /**
   * my_vsnprintf. A size that is negative as an int is refused. Otherwise the result is the length
   * of the full text, and the buffer holds as much of the text as leaves room for the NUL, the NUL,
   * and beyond it what it held before. The buffer may be shorter than the size says, if the text and
   * its NUL fit: the callers that have no size to give pass the largest int.
   */
  method Vsnprintf(buf: array<byte>, size: nat, fmt: seq<byte>, args: seq<Arg>) returns (ret: int)
    requires IsCString(fmt)
    requires AsInt32(size) >= 0 ==>
               && Format(fmt, args).Some?
               && (size <= buf.Length || |Format(fmt, args).value| < buf.Length)
    modifies buf
    ensures AsInt32(size) < 0 ==> ret == 0 && buf[..] == old(buf[..])
    ensures AsInt32(size) >= 0 ==>
              var full := Format(fmt, args).value;
              && ret == AsInt32(|full|)
              && forall k :: 0 <= k < buf.Length ==>
                   buf[k] == if k < |full| && k + 1 < size then full[k]
                             else if k < size && (k == |full| || (k < |full| && k + 1 == size)) then NUL
                             else old(buf[k])
  {
    if AsInt32(size) < 0 {
      return 0;
    }
    ghost var full := Format(fmt, args).value;
    var o := new Output(buf, size, |full|);
    var rest, left := fmt, args;
    FormatStarts(fmt, args);
    while rest != []
      invariant o.buf == buf && o.size == size && fresh(o) && o.was == old(buf[..]) && o.room == |full| && o.Valid()
      invariant Format(rest, left).Some? && Format(fmt, args) == Prefixed(o.out, Format(rest, left))
      decreases |rest|
    {
      ghost var before, after := o.out, Format(rest, left);
      if rest[0] != PERCENT {
        FormatSteps(before, [rest[0]], Format(rest[1..], left));
        o.Put(rest[0]);
        rest := rest[1..];
      } else {
        var p := ParseSpec(rest[1..], left);
        ghost var piece := Conversion(p).value;
        FormatSteps(before, piece.text, Format(piece.rest, piece.args));
        rest, left := Convert(o, p);
      }
    }
    assert Format(fmt, args).value == o.out + [] == o.out;
    o.Close();
    ret := AsInt32(o.str);
  }
}
