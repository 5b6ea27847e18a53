/** The two trifler scripts on UTF-8 text: decode, one pass over the code points, encode. */
module TriflerText {
  import opened Bytes
  import opened Hangul
  import opened Trifler

  type codepoint = cp: int | 0 <= cp <= 0x10FFFF

  const BOM: codepoint := 0xFEFF
  const BOM_BYTES: seq<byte> := [0xEF, 0xBB, 0xBF]

  /** CPUTF8. */
  function Encode(cp: codepoint): (r: seq<byte>)
    ensures 1 <= |r| <= 4
    ensures Width(r[0]) == |r|
  {
    if cp <= 127 then [cp]
    else if cp <= 2047 then
      var t := cp / 64;
      [t + 192, cp - t * 64 + 128]
    else if cp <= 65535 then
      var t := cp / 4096;
      var m := cp - t * 4096;
      var p := m / 64;
      [t + 224, p + 128, m - p * 64 + 128]
    else
      var t := cp / 262144;
      var m := cp - t * 262144;
      var p := m / 4096;
      var v := m - p * 4096;
      var a := v / 64;
      [t + 240, p + 128, a + 128, v - a * 64 + 128]
  }

  function Ord(b: byte): int {
    b
  }

  /** UTF8CP. */
  function Decode(c: seq<byte>): (cp: int)
    requires 1 <= |c| <= 4
  {
    if |c| == 1 then Ord(c[0])
    else if |c| == 2 then (Ord(c[0]) - 192) * 64 + (Ord(c[1]) - 128)
    else if |c| == 3 then (Ord(c[0]) - 224) * 4096 + (Ord(c[1]) - 128) * 64 + (Ord(c[2]) - 128)
    else (Ord(c[0]) - 240) * 262144 + (Ord(c[1]) - 128) * 4096 + (Ord(c[2]) - 128) * 64 + (Ord(c[3]) - 128)
  }

  /** The length that the decoding loop reads off the first byte; 0 where the loop would not advance. */
  function Width(b: byte): nat {
    var verint := b / 8;
    if verint <= 15 then 1
    else if 24 <= verint <= 27 then 2
    else if 28 <= verint <= 29 then 3
    else if verint == 30 then 4
    else 0
  }

  lemma DecodeInvertsEncode(cp: codepoint)
    ensures Decode(Encode(cp)) == cp
  {
  }

  /** A byte 10xxxxxx. */
  predicate IsContinuation(b: byte) {
    0x80 <= b < 0xC0
  }

  /** The forms of section 3 of RFC 3629: first bytes, further bytes, and the number they stand for. */
  lemma EncodeIsUtf8(cp: codepoint)
    ensures var r := Encode(cp);
            && (cp < 0x80 ==> r == [cp])
            && (0x80 <= cp < 0x800 ==>
                  |r| == 2 && 0xC0 <= r[0] < 0xE0 && IsContinuation(r[1])
                  && cp == (Ord(r[0]) - 0xC0) * 0x40 + (Ord(r[1]) - 0x80))
            && (0x800 <= cp < 0x1_0000 ==>
                  |r| == 3 && 0xE0 <= r[0] < 0xF0 && IsContinuation(r[1]) && IsContinuation(r[2])
                  && cp == (Ord(r[0]) - 0xE0) * 0x1000 + (Ord(r[1]) - 0x80) * 0x40 + (Ord(r[2]) - 0x80))
            && (0x1_0000 <= cp ==>
                  |r| == 4 && 0xF0 <= r[0] < 0xF5 && IsContinuation(r[1]) && IsContinuation(r[2])
                  && IsContinuation(r[3])
                  && cp == (Ord(r[0]) - 0xF0) * 0x4_0000 + (Ord(r[1]) - 0x80) * 0x1000
                           + (Ord(r[2]) - 0x80) * 0x40 + (Ord(r[3]) - 0x80))
  {
  }

  function EncodeAll(cps: seq<codepoint>): seq<byte> {
    if cps == [] then [] else Encode(cps[0]) + EncodeAll(cps[1..])
  }

  lemma {:induction false} EncodeAllAppend(s: seq<codepoint>, t: seq<codepoint>)
    ensures EncodeAll(s + t) == EncodeAll(s) + EncodeAll(t)
    decreases |s|
  {
    if s == [] {
      assert s + t == t;
    } else {
      assert (s + t)[1..] == s[1..] + t;
      EncodeAllAppend(s[1..], t);
    }
  }

  /** A text spells at most one sequence of code points. */
  lemma {:induction false} SpelledOnce(s: seq<codepoint>, t: seq<codepoint>)
    requires EncodeAll(s) == EncodeAll(t)
    ensures s == t
    decreases |s|
  {
    if s == [] {
      assert t != [] ==> |EncodeAll(t)| > 0;
    } else if t != [] {
      var x, y := Encode(s[0]), Encode(t[0]);
      assert EncodeAll(s)[0] == x[0] && EncodeAll(t)[0] == y[0];
      assert EncodeAll(s)[..|x|] == x && EncodeAll(t)[..|y|] == y;
      DecodeInvertsEncode(s[0]);
      DecodeInvertsEncode(t[0]);
      assert EncodeAll(s)[|x|..] == EncodeAll(s[1..]) && EncodeAll(t)[|y|..] == EncodeAll(t[1..]);
      SpelledOnce(s[1..], t[1..]);
    }
  }

  /** The pass on code points: syllables become syllables, so it stays within them. */
  function PassText(rule: Rule, s: seq<codepoint>): (r: seq<codepoint>)
    ensures r == Pass(rule, s)
  {
    assert forall i :: 0 <= i < |s| ==> 0 <= Pass(rule, s)[i] <= 0x10FFFF by {
      forall i | 0 <= i < |s|
        ensures 0 <= Pass(rule, s)[i] <= 0x10FFFF
      {
        PassKeeps(rule, s, i);
      }
    }
    Pass(rule, s)
  }

  lemma {:induction false} SameLength(s: seq<codepoint>, t: seq<codepoint>)
    requires |s| == |t| && forall i :: 0 <= i < |s| ==> |Encode(s[i])| == |Encode(t[i])|
    ensures |EncodeAll(s)| == |EncodeAll(t)|
    decreases |s|
  {
    if s != [] {
      SameLength(s[1..], t[1..]);
    }
  }

  lemma PassKeepsLength(rule: Rule, s: seq<codepoint>)
    ensures |EncodeAll(PassText(rule, s))| == |EncodeAll(s)|
  {
    forall i | 0 <= i < |s|
      ensures |Encode(PassText(rule, s)[i])| == |Encode(s[i])|
    {
      PassKeeps(rule, s, i);
    }
    SameLength(PassText(rule, s), s);
  }

  /** From `i` on, the text spells the code points from `n` on. */
  ghost predicate Reached(text: seq<byte>, cps: seq<codepoint>, i: nat, n: nat) {
    i <= |text| && n <= |cps| && text[i..] == EncodeAll(cps[n..])
  }

  lemma ReachedEnd(text: seq<byte>, cps: seq<codepoint>, n: nat)
    requires Reached(text, cps, |text|, n)
    ensures cps[..n] == cps
  {
    assert |EncodeAll(cps[n..])| == 0;
  }

  /** At the place `i` of the text, code point `n` is read and its spelling passed over. */
  lemma CharacterAt(text: seq<byte>, cps: seq<codepoint>, i: nat, n: nat)
    requires Reached(text, cps, i, n) && i < |text|
    ensures n < |cps| && cps[..n + 1] == cps[..n] + [cps[n]]
    ensures var width := Width(text[i]);
            && 1 <= width <= 4 && i + width <= |text|
            && Decode(text[i..i + width]) == cps[n]
            && Reached(text, cps, i + width, n + 1)
  {
    assert n < |cps| by {
      assert |text[i..]| > 0;
    }
    var c := Encode(cps[n]);
    assert cps[n..][0] == cps[n] && cps[n..][1..] == cps[n + 1..];
    assert text[i..] == c + EncodeAll(cps[n + 1..]);
    assert text[i] == text[i..][0] == c[0];
    assert text[i..i + |c|] == text[i..][..|c|] == c;
    assert text[i + |c|..] == text[i..][|c|..];
    DecodeInvertsEncode(cps[n]);
  }

  /** The first loop of Trifle, on a text that spells `cps`. */
  method DecodeText(text: seq<byte>, ghost cps: seq<codepoint>) returns (tmpStrg: seq<int>)
    requires text == EncodeAll(cps)
    ensures tmpStrg == cps
  {
    tmpStrg := [];
    var i := 0;
    ghost var n := 0;
    while i < |text|
      invariant 0 <= i <= |text| && 0 <= n <= |cps| && Reached(text, cps, i, n)
      invariant tmpStrg == cps[..n]
      decreases |text| - i
    {
      CharacterAt(text, cps, i, n);
      var width := Width(text[i]);
      tmpStrg := tmpStrg + [Decode(text[i..i + width])];
      i, n := i + width, n + 1;
    }
    ReachedEnd(text, cps, n);
  }

  lemma EncodeOneMore(s: seq<codepoint>, i: nat)
    requires i < |s|
    ensures EncodeAll(s[..i + 1]) == EncodeAll(s[..i]) + Encode(s[i])
  {
    assert s[..i + 1] == s[..i] + [s[i]];
    EncodeAllAppend(s[..i], [s[i]]);
  }

  /** The last loop of Trifle. */
  method EncodeText(tmpStrg: array<int>, ghost cps: seq<codepoint>) returns (text: seq<byte>)
    requires tmpStrg[..] == cps
    ensures text == EncodeAll(cps)
  {
    text := [];
    for i := 0 to tmpStrg.Length
      invariant text == EncodeAll(cps[..i])
    {
      EncodeOneMore(cps, i);
      assert tmpStrg[i] == tmpStrg[..][i] == cps[i];
      text := text + Encode(tmpStrg[i]);
    }
    assert cps[..tmpStrg.Length] == cps;
  }

  lemma FirstIsBom(text: seq<byte>, cps: seq<codepoint>)
    requires text == EncodeAll(cps) && |text| >= 3 && text[..3] == BOM_BYTES
    ensures cps != [] && cps[0] == BOM && text[3..] == EncodeAll(cps[1..])
  {
    var c := Encode(cps[0]);
    assert c[0] == text[0] == text[..3][0] == 0xEF;
    assert text[..3] == c;
    DecodeInvertsEncode(cps[0]);
  }

  /** A byte order mark is no syllable, so setting it aside changes nothing. */
  lemma PassSkipsBom(rule: Rule, s: seq<codepoint>)
    requires s != [] && s[0] == BOM
    ensures PassText(rule, s) == [BOM] + PassText(rule, s[1..])
  {
    forall i | 0 <= i < |s|
      ensures Pass(rule, s)[i] == ([BOM] + PassText(rule, s[1..]))[i]
    {
      if i > 0 {
        assert s[i] == s[1..][i - 1];
        assert Joined(s, i - 1) == Joined(s[1..], i - 2) && Joined(s, i) == Joined(s[1..], i - 1);
      }
    }
  }

  /** Trifle: the text of the shifted code points, on every text that spells code points. */
  method Trifle(rule: Rule, utf8str: seq<byte>, ghost cps: seq<codepoint>) returns (rtnstr: seq<byte>)
    requires utf8str == EncodeAll(cps)
    ensures rtnstr == EncodeAll(PassText(rule, cps))
    ensures |rtnstr| == |utf8str|
  {
    var text := utf8str;
    ghost var body := cps;
    var bomChk := |text| >= 3 && text[..3] == BOM_BYTES;
    if bomChk {
      FirstIsBom(text, cps);
      PassSkipsBom(rule, cps);
      text, body := text[3..], cps[1..];
    }
    var decoded := DecodeText(text, body);
    var tmpStrg := new int[|decoded|](i requires 0 <= i < |decoded| => decoded[i]);
    assert tmpStrg[..] == body;
    TriflePass(rule, tmpStrg);
    var encoded := EncodeText(tmpStrg, PassText(rule, body));
    rtnstr := (if bomChk then BOM_BYTES else []) + encoded;
    PassKeepsLength(rule, cps);
    if bomChk {
      EncodeAllAppend([BOM], PassText(rule, body));
      assert EncodeAll([BOM]) == BOM_BYTES;
    }
  }

  /** On text: the Jongseong script undoes what the Choseong script did. */
  lemma TextJongseongAbsorbsChoseong(cps: seq<codepoint>)
    ensures EncodeAll(PassText(Jongseong, PassText(Choseong, cps))) == EncodeAll(PassText(Jongseong, cps))
  {
    JongseongAbsorbsChoseong(cps);
  }

  /** On text: the other order agrees exactly when no boundary of the resisting kind occurs. */
  lemma TextChoseongAbsorbsJongseong(cps: seq<codepoint>)
    ensures EncodeAll(PassText(Choseong, PassText(Jongseong, cps))) == EncodeAll(PassText(Choseong, cps))
            <==> forall i :: !Resists(cps, i)
  {
    ChoseongAbsorbsJongseong(cps);
    var a, b := PassText(Choseong, PassText(Jongseong, cps)), PassText(Choseong, cps);
    if EncodeAll(a) == EncodeAll(b) {
      SpelledOnce(a, b);
    }
  }
}
