/** The output convention of my_vsnprintf: count every character, write only those that fit. */
module Sink {
  import opened Bytes

  function Repeat(c: byte, n: int): (r: seq<byte>)
    ensures |r| == if n > 0 then n else 0
    ensures forall i :: 0 <= i < |r| ==> r[i] == c
  {
    if n <= 0 then [] else Repeat(c, n - 1) + [c]
  }

  /**
   * `str` counts past `end`, which is the last of `size` places. The buffer may have fewer, if it has
   * one for each of the `room` characters that are to come and one for the NUL.
   */
  class Output {
    const buf: array<byte>
    const size: nat
    ghost const room: nat
    var str: nat
    ghost var out: seq<byte>  // everything put so far, whether it fitted or not
    ghost const was: seq<byte>

    ghost predicate Valid()
      reads this, buf
    {
      && (if room < size then room < buf.Length else size <= buf.Length)
      && buf.Length == |was| && str == |out| <= room
      && (forall k :: 0 <= k < str && k < size ==> buf[k] == out[k])
      && (forall k :: (str <= k || size <= k) && 0 <= k < buf.Length ==> buf[k] == was[k])
    }

    /** There is room for `text` behind what has been put. */
    ghost predicate Admits(text: seq<byte>)
      reads this
    {
      |out| + |text| <= room
    }

    constructor (b: array<byte>, n: nat, ghost length: nat)
      requires if length < n then length < b.Length else n <= b.Length
      ensures buf == b && size == n && room == length && was == b[..] && out == [] && Valid()
    {
      buf, size, room, str := b, n, length, 0;
      out, was := [], b[..];
    }

    /** The macro APPEND_CHAR. */
    method Put(c: byte)
      requires Valid() && Admits([c])
      modifies this, buf
      ensures Valid() && out == old(out) + [c]
    {
      if str < size {
        buf[str] := c;
      }
      str := str + 1;
      out := out + [c];
    }

    /** The loops `while(n-- > 0)` that put one character again and again. */
    method PutMany(c: byte, n: int)
      requires Valid() && Admits(Repeat(c, n))
      modifies this, buf
      ensures Valid() && out == old(out) + Repeat(c, n)
    {
      var left, done := n, 0;
      while left > 0
        invariant Valid() && 0 <= done && left == n - done && (left >= 0 || done == 0)
        invariant out == old(out) + Repeat(c, done)
      {
        assert Repeat(c, done + 1) == Repeat(c, done) + [c];
        Put(c);
        left, done := left - 1, done + 1;
      }
    }

    /** The closing NUL: after the text, or in the last place when the text is too long. */
    method Close()
      requires Valid()
      modifies buf
      ensures forall k :: 0 <= k < buf.Length ==>
                buf[k] == if k < |out| && k + 1 < size then out[k]
                          else if k < size && (k == |out| || (k < |out| && k + 1 == size)) then NUL
                          else was[k]
    {
      if str < size {
        buf[str] := NUL;
      } else if size > 0 {
        buf[size - 1] := NUL;
      }
    }
  }
}
