/** utf8_impl.c: scanning, slicing and cutting UTF-8 strings by byte position. */
module Utf8 {
  import opened Bytes

  /** utf8_getsize_char_nc: the size the first byte announces, 0 at the NUL, -1 for a stray byte. */
  function Announced(b: byte): (n: int)
    ensures n == -1 || 0 <= n <= 4
  {
    if b == NUL then 0
    else if b < 0x80 then 1
    else if 0xC0 <= b < 0xE0 then 2
    else if 0xE0 <= b < 0xF0 then 3
    else if 0xF0 <= b < 0xF8 then 4
    else -1
  }

  /** The character at `i` is complete: every further byte has its top bit set, which is all the scanner asks. */
  predicate Complete(s: seq<byte>, i: nat, n: nat) {
    i + n <= |s| && forall k :: i < k < i + n ==> s[k] >= 0x80
  }

  /** utf8_getsize_char: the size of the character at `i`, negative if it is broken. */
  function Size(s: seq<byte>, i: nat): (n: int)
    requires i < |s|
  {
    var n := Announced(s[i]);
    if n <= 1 then n else if Complete(s, i, n) then n else -n
  }

  method GetSizeChar(s: seq<byte>, i: nat) returns (len: int)
    requires IsCString(s) && i < |s|
    ensures len == Size(s, i)
  {
    len := Announced(s[i]);
    var k := 1;
    while k < len
      invariant 1 <= k && (k < len ==> i + k <= |s|)
      invariant forall j :: i < j < i + k && i + k <= |s| ==> s[j] >= 0x80
      invariant len > 1 ==> k <= len && i + k <= |s|
    {
      if At(s, i + k) == NUL || At(s, i + k) < 0x80 {
        return -len;
      }
      k := k + 1;
    }
  }

  /** The characters from `i` on, up to the first broken one. */
  function Chars(s: seq<byte>, i: nat): seq<seq<byte>>
    requires i <= |s|
    decreases |s| - i
  {
    if i == |s| || Size(s, i) <= 0 then [] else [s[i..i + Size(s, i)]] + Chars(s, i + Size(s, i))
  }

  function Flatten(cs: seq<seq<byte>>): seq<byte> {
    if cs == [] then [] else cs[0] + Flatten(cs[1..])
  }

  /** No character is broken. */
  predicate IsValid(s: seq<byte>) {
    Flatten(Chars(s, 0)) == s
  }

  lemma {:induction false} CharsAreABeginning(s: seq<byte>, i: nat)
    requires i <= |s|
    ensures i + |Flatten(Chars(s, i))| <= |s| && Flatten(Chars(s, i)) == s[i..i + |Flatten(Chars(s, i))|]
    decreases |s| - i
  {
    if i < |s| && Size(s, i) > 0 {
      var n := Size(s, i);
      CharsAreABeginning(s, i + n);
      assert Chars(s, i)[1..] == Chars(s, i + n);
    }
  }

  lemma {:induction false} FlattenAppend(a: seq<seq<byte>>, b: seq<seq<byte>>)
    ensures Flatten(a + b) == Flatten(a) + Flatten(b)
    decreases |a|
  {
    if a == [] {
      assert a + b == b;
    } else {
      assert (a + b)[1..] == a[1..] + b;
      FlattenAppend(a[1..], b);
    }
  }

  /** Where character `k` begins. */
  function Offset(cs: seq<seq<byte>>, k: nat): nat
    requires k <= |cs|
  {
    |Flatten(cs[..k])|
  }

  /** A forward scan that has passed `n` characters stands at `pos`. */
  ghost predicate Scanned(s: seq<byte>, n: nat, pos: nat) {
    var cs := Chars(s, 0);
    n <= |cs| && pos <= |s| && pos == Offset(cs, n) && Chars(s, pos) == cs[n..]
  }

  lemma ScanStart(s: seq<byte>)
    ensures Scanned(s, 0, 0)
  {
  }

  lemma ScanOne(s: seq<byte>, n: nat, pos: nat)
    requires Scanned(s, n, pos) && pos < |s| && Size(s, pos) > 0
    ensures Scanned(s, n + 1, pos + Size(s, pos))
    ensures |Chars(s, 0)[n]| == Size(s, pos)
  {
    var cs := Chars(s, 0);
    var c := s[pos..pos + Size(s, pos)];
    assert cs[n..][0] == c && cs[n..][1..] == cs[n + 1..];
    assert cs[..n + 1] == cs[..n] + [c];
    FlattenAppend(cs[..n], [c]);
    assert Flatten([c]) == c + [];
  }

  /** The scan ends at the last whole character, and at the end of the string exactly if it is valid. */
  lemma ScanEnd(s: seq<byte>, n: nat, pos: nat)
    requires Scanned(s, n, pos) && (pos == |s| || Size(s, pos) <= 0)
    ensures n == |Chars(s, 0)| && (pos == |s| <==> IsValid(s))
  {
    var cs := Chars(s, 0);
    assert cs[n..] == [] && cs[..n] == cs;
    CharsAreABeginning(s, 0);
  }

  /** utf8_strlen: the number of characters, or -1 for a string with a broken one. */
  method Strlen(str: seq<byte>) returns (len: int)
    requires IsCString(str)
    ensures len == if IsValid(str) then |Chars(str, 0)| else -1
  {
    var pos := 0;
    len := 0;
    ScanStart(str);
    while pos < |str|
      invariant 0 <= pos <= |str| && 0 <= len && Scanned(str, len, pos)
    {
      var c := GetSizeChar(str, pos);
      if c < 0 {
        ScanEnd(str, len, pos);
        return -1;
      }
      ScanOne(str, len, pos);
      pos, len := pos + c, len + 1;
    }
    ScanEnd(str, len, pos);
  }

  /** Which character a position names; a negative one counts from the end of a valid string. */
  function Named(s: seq<byte>, pos: int): (k: int)
    ensures -1 <= k < |Chars(s, 0)|
  {
    var n := |Chars(s, 0)|;
    if pos >= 0 then (if pos < n then pos else -1)
    else if IsValid(s) && n + pos >= 0 then n + pos
    else -1
  }

  /** Position -1 is the last character, and so on backwards; a broken string has no end to count from. */
  lemma CountedFromTheEnd(s: seq<byte>, k: int)
    requires k > 0
    ensures Named(s, -k) == if IsValid(s) && k <= |Chars(s, 0)| then |Chars(s, 0)| - k else -1
  {
  }

  /** utf8_strpos_getpos: place and size of one character. */
  method StrposGetpos(str: seq<byte>, pos: int) returns (ret: int, startpos: int, len: int)
    requires IsCString(str)
    ensures var k, cs := Named(str, pos), Chars(str, 0);
            && (k < 0 ==> ret == -1)
            && (k >= 0 ==> ret == startpos == Offset(cs, k) && len == |cs[k]|)
            && (k >= 0 ==> startpos + len <= |str| && str[startpos..startpos + len] == cs[k])
    decreases pos < 0
  {
    startpos, len := 0, 0;
    if pos < 0 {
      var count := Strlen(str);
      if count <= 0 || count + pos < 0 {
        return -1, 0, 0;
      }
      ret, startpos, len := StrposGetpos(str, count + pos);
      return;
    }
    var i, n := 0, 0;
    ScanStart(str);
    while i < |str|
      invariant 0 <= i <= |str| && 0 <= n <= pos && Scanned(str, n, i)
    {
      var size := GetSizeChar(str, i);
      if size < 0 {
        ScanEnd(str, n, i);
        return -1, 0, 0;
      }
      ScanOne(str, n, i);
      if pos == n {
        assert Chars(str, 0)[n..][0] == Chars(str, 0)[n];
        return i, i, size;
      }
      i, n := i + size, n + 1;
    }
    ScanEnd(str, n, i);
    return -1, 0, 0;
  }

  function Min(a: int, b: int): (r: int)
    ensures r <= a && r <= b && (r == a || r == b)
  {
    if a < b then a else b
  }

  /** utf8_substr_getpos: the byte span of a run of characters; a negative count runs to the end of the bytes. */
  method SubstrGetpos(str: seq<byte>, start: int, nchar: int) returns (ret: int, startpos: int, len: int)
    requires IsCString(str)
    ensures var k, cs := Named(str, start), Chars(str, 0);
            && (k < 0 ==> ret == -1)
            && (k >= 0 ==> ret == 0 && startpos == Offset(cs, k))
            && (k >= 0 ==> startpos + len == if nchar < 0 then |str| else Offset(cs, Min(k + nchar, |cs|)))
    decreases start < 0
  {
    startpos, len := 0, 0;
    if start < 0 {
      var count := Strlen(str);
      if count <= 0 || count + start < 0 {
        return -1, 0, 0;
      }
      ret, startpos, len := SubstrGetpos(str, count + start, nchar);
      return;
    }
    var pos, n, endpos := 0, 0, -1;
    startpos := -1;
    ScanStart(str);
    ghost var cs := Chars(str, 0);
    while pos < |str|
      invariant 0 <= pos <= |str| && 0 <= n && Scanned(str, n, pos) && endpos == -1
      invariant startpos == if n <= start then -1 else Offset(cs, start)
      invariant n > start ==> 0 <= nchar && n <= start + nchar
    {
      var size := GetSizeChar(str, pos);
      if size <= 0 {
        break;
      }
      ScanOne(str, n, pos);
      if n == start {
        startpos := pos;
        if nchar < 0 {
          endpos := |str|;
          break;
        }
      }
      if nchar >= 0 && n >= start + nchar {
        endpos := pos;
        break;
      }
      pos, n := pos + size, n + 1;
    }
    if endpos < 0 {
      ScanEnd(str, n, pos);
    }
    if startpos >= 0 {
      if endpos < 0 {
        endpos := pos;
      }
      return 0, startpos, endpos - startpos;
    }
    return -1, 0, 0;
  }

  lemma SpanOfFlatten(cs: seq<seq<byte>>, a: nat, b: nat)
    requires a <= b <= |cs|
    ensures Offset(cs, a) <= Offset(cs, b) <= |Flatten(cs)|
    ensures Flatten(cs)[Offset(cs, a)..Offset(cs, b)] == Flatten(cs[a..b])
  {
    var before, span, after := cs[..a], cs[a..b], cs[b..];
    assert cs[..b] == before + span && cs == before + span + after;
    FlattenAppend(before, span);
    FlattenAppend(before + span, after);
    MiddlePart(Flatten(before), Flatten(span), Flatten(after));
  }

  lemma SliceOfBeginning(s: seq<byte>, text: seq<byte>, i: nat, j: nat)
    requires i <= j <= |text| <= |s| && s[..|text|] == text
    ensures s[i..j] == text[i..j]
  {
    assert forall k :: 0 <= k < |text| ==> s[k] == s[..|text|][k];
  }

  lemma MiddlePart(x: seq<byte>, y: seq<byte>, z: seq<byte>)
    ensures (x + y + z)[|x|..|x + y|] == y
  {
    var text := x + y + z;
    assert forall k :: 0 <= k < |y| ==> text[|x| + k] == y[k];
  }

  /** What the span of SubstrGetpos holds: exactly the characters asked for. */
  lemma SpanHoldsCharacters(s: seq<byte>, a: nat, b: nat)
    requires a <= b <= |Chars(s, 0)|
    ensures var cs := Chars(s, 0);
            Offset(cs, a) <= Offset(cs, b) <= |s| && s[Offset(cs, a)..Offset(cs, b)] == Flatten(cs[a..b])
  {
    var cs := Chars(s, 0);
    CharsAreABeginning(s, 0);
    SpanOfFlatten(cs, a, b);
    var text := Flatten(cs);
    assert s[0..|text|] == s[..|text|];
    SliceOfBeginning(s, text, Offset(cs, a), Offset(cs, b));
  }
}
