/** Bytes and NUL-terminated strings, as the C sources see them. */
module Bytes {
  type byte = b: int | 0 <= b < 256

  const NUL: byte := 0
  const LF: byte := 10
  const CR: byte := 13
  const SPACE: byte := 32
  const COLON: byte := 58

  const INT_MAX := 0x7FFF_FFFF

  /** A text of ASCII characters. */
  function Ascii(s: string): (r: seq<byte>)
    requires forall i :: 0 <= i < |s| ==> s[i] as int < 128
    ensures |r| == |s| && forall i :: 0 <= i < |s| ==> r[i] == s[i] as int
  {
    seq(|s|, i requires 0 <= i < |s| => s[i] as int)
  }

  /** A string that C can hold: the terminating NUL is not part of it. */
  ghost predicate IsCString(s: seq<byte>) {
    NUL !in s
  }

  /** What `s.c_str()` shows of a string that may hold a NUL. */
  function CStr(s: seq<byte>): (r: seq<byte>)
    ensures IsCString(r) && r <= s && (IsCString(s) ==> r == s)
  {
    if s == [] || s[0] == NUL then [] else [s[0]] + CStr(s[1..])
  }

  /** What `s[i]` reads in C: the terminating NUL lies one past the last character. */
  function At(s: seq<byte>, i: nat): (c: byte)
    requires i <= |s|
    ensures IsCString(s) ==> (c == NUL <==> i == |s|)
  {
    if i < |s| then s[i] else NUL
  }
}
