/** base64_impl.c: the decoding loop, what it answers and what it stores. */
module Base64Decoder {
  import opened Bytes
  import opened Base64

  // ----- what is stored

  /** What the decoder stores for a full group with 3 - `g` pads. */
  function Written(t: nat, g: int): (r: seq<byte>)
    requires t < 0x100_0000 && 0 <= g <= 3
    ensures |r| == if g == 0 then 1 else g
  {
    GroupBytes(t)[..if g == 0 then 1 else g]
  }

  /** Everything the decoder stores until it stops, whether it accepts the text or not. */
  function Stored(c: seq<byte>, cap: nat): (r: seq<byte>)
    requires Alphabet(c)
  {
    if |c| < 4 then []
    else
      var q := c[..4];
      var e := Pads(q);
      if e == 0 then
        if cap < 3 then [] else GroupBytes(Bits(q)) + Stored(c[4..], cap - 3)
      else if PadsLast(q) && e <= 3 && 3 - e <= cap then Written(Bits(q), 3 - e)
      else []
  }

  /**
   * The first pad is the second character of its group, two more follow it, and the groups before
   * it take up all of the length given.
   */
  predicate Overruns(c: seq<byte>, outlen: nat) {
    var k := outlen / 3;
    && outlen == 3 * k && 4 * k + 3 < |c|
    && (forall i :: 0 <= i <= 4 * k ==> c[i] != PAD)
    && c[4 * k + 1] == PAD && c[4 * k + 2] == PAD && c[4 * k + 3] == PAD
  }

  lemma OverrunsHere(c: seq<byte>, cap: nat)
    requires Alphabet(c) && |c| >= 4 && Pads(c[..4]) > 0
    ensures Overruns(c, cap) <==> cap == 0 && PadsLast(c[..4]) && Pads(c[..4]) == 3
  {
    var q := c[..4];
    PadsOfFour(q);
    assert forall i :: 0 <= i < 4 ==> q[i] == c[i];
    assert cap >= 3 ==> 4 * (cap / 3) >= 4;
  }

  lemma OverrunsLater(c: seq<byte>, cap: nat)
    requires |c| >= 4 && Pads(c[..4]) == 0
    ensures Overruns(c, cap) <==> cap >= 3 && Overruns(c[4..], cap - 3)
  {
    var q, d := c[..4], c[4..];
    PadsOfFour(q);
    assert forall i :: 0 <= i < 4 ==> c[i] == q[i] != PAD;
    assert forall i :: 0 <= i < |d| ==> d[i] == c[i + 4];
    if cap >= 3 {
      var k := cap / 3;
      assert (cap - 3) / 3 == k - 1;
      if Overruns(d, cap - 3) {
        assert forall i :: 4 <= i <= 4 * k ==> c[i] == d[i - 4];
      }
    }
  }

  /** One byte is stored beyond the length exactly in that case, and never more than one. */
  lemma {:induction false} OverrunsExactly(c: seq<byte>, cap: nat)
    requires Alphabet(c)
    ensures |Stored(c, cap)| == cap + 1 <==> Overruns(c, cap)
    ensures |Stored(c, cap)| <= cap + 1
    decreases |c|
  {
    if |c| >= 4 {
      if Pads(c[..4]) == 0 {
        OverrunsLater(c, cap);
        if cap >= 3 {
          OverrunsExactly(c[4..], cap - 3);
        }
      } else {
        OverrunsHere(c, cap);
      }
    }
  }

  /** As much room as there is text is always enough. */
  lemma RoomForInput(input: seq<byte>, outlen: nat)
    requires outlen >= |input|
    ensures !Overruns(Clean(input), outlen)
  {
    assert |Clean(input)| <= |input|;
  }

  /** No encoding needs the byte beyond, even with other bytes inserted. */
  lemma EncodingsStayInside(x: seq<byte>, noisy: seq<byte>, outlen: nat)
    requires Interleaved(noisy, Encode(x))
    ensures !Overruns(Clean(noisy), outlen)
  {
    EncodeIsClean(x);
    CleanIsExact(noisy, Encode(x));
    if Overruns(Encode(x), outlen) {
      EncodingPads(x, 4 * (outlen / 3) + 1);
    }
  }

  /** An encoding does not go on behind two characters after a pad, so no three pads stand in a row. */
  lemma {:induction false} EncodingPads(x: seq<byte>, i: nat)
    requires i + 2 < |Encode(x)| && Encode(x)[i] == PAD
    ensures false
    decreases |x|
  {
    if |x| == 1 {
      EncodeGroupHasNoPad(x[0], 0, 0);
    } else if |x| == 2 {
      EncodeGroupHasNoPad(x[0], x[1], 0);
    } else if |x| >= 3 {
      EncodeGroupHasNoPad(x[0], x[1], x[2]);
      EncodingPads(x[3..], i - 4);
    }
  }

  lemma EncodeGroupHasNoPad(a: byte, b: byte, c: byte)
    ensures PAD !in EncodeGroup(a, b, c)
  {
    GroupInverts(a, b, c);
    assert Map(PAD) == PAD_CODE;
  }

  /** The shortest such text: one byte is stored although the length given is 0. */
  lemma ThreePadsOverrun()
    ensures var c: seq<byte> := [65, PAD, PAD, PAD];
            Alphabet(c) && Overruns(c, 0) && Stored(c, 0) == [0] && Decode(c) == Good([0], 0)
  {
    var c: seq<byte> := [65, PAD, PAD, PAD];
    assert c[..4] == c;
    PadsOfFour(c);
    BitsOfFour(c);
  }

  /** An accepted text yields one byte more than its room just if its last group has three pads. */
  lemma {:induction false} DecodedRoom(c: seq<byte>)
    requires Alphabet(c) && Decode(c).Good?
    ensures var d := Decode(c);
            && |d.bytes| == d.room + (if |c| >= 4 && c[|c| - 3] == PAD then 1 else 0)
            && d.room <= |c| && (c != [] ==> |d.bytes| < |c|)
    decreases |c|
  {
    if c != [] {
      var q := c[..4];
      PadsOfFour(q);
      if Pads(q) == 0 {
        DecodedRoom(c[4..]);
        if |c| >= 8 {
          assert c[|c| - 3] == c[4..][|c| - 7];
        } else {
          assert c[4..] == [];
        }
      } else {
        assert q == c;
      }
    }
  }

  // ----- the loop

  /**
   * The loop between two characters: `out` is stored, `pending` waits for its group to fill, `g` is
   * three less the pads seen, `closed` says that a padded group is over. `goal` is what the text
   * means and `all` what is stored for it.
   */
  datatype Progress = Progress(goal: Decoded, all: seq<byte>, cap: nat,
                               out: seq<byte>, pending: seq<byte>, g: int, closed: bool)

  /** What is left decides between the answers. */
  ghost predicate Reading(s: Progress, rest: seq<byte>) {
    && |s.pending| <= 3 && 0 <= s.g <= 3 && Alphabet(s.pending) && Alphabet(rest)
    && if s.closed then
         && (forall i :: 0 <= i < |s.pending| ==> s.pending[i] == PAD)
         && s.g + |s.pending| <= 2
         && (rest == [] && s.pending == [] ==> s.goal.Good? && s.goal.bytes == s.out && s.goal.room <= s.cap)
         && (rest != [] || s.pending != [] ==> s.goal == Bad)
       else
         && Pads(s.pending) == 3 - s.g && PadsLast(s.pending) && |s.out| <= s.cap
         && s.goal == Prepend(s.out, Decode(s.pending + rest))
  }

  /** What is left is still to be stored. */
  ghost predicate Storing(s: Progress, rest: seq<byte>) {
    && Alphabet(s.pending) && Alphabet(rest)
    && if s.closed then s.all == s.out
       else |s.out| <= s.cap && s.all == s.out + Stored(s.pending + rest, s.cap - |s.out|)
  }

  lemma {:induction false} PadsCounts(q: seq<byte>)
    ensures Pads(q) == 0 <==> forall i :: 0 <= i < |q| ==> q[i] != PAD
    ensures Pads(q) == |q| <==> forall i :: 0 <= i < |q| ==> q[i] == PAD
    decreases |q|
  {
    if q != [] {
      var n := |q| - 1;
      var p := q[..n];
      PadsCounts(p);
      assert forall i :: 0 <= i < n ==> p[i] == q[i];
    }
  }

  lemma PadsAppend(q: seq<byte>, c: byte)
    ensures Pads(q + [c]) == Pads(q) + if c == PAD then 1 else 0
    ensures PadsLast(q + [c]) <==> PadsLast(q) && (c == PAD || Pads(q) == 0)
  {
    var r := q + [c];
    assert r[..|q|] == q;
    PadsCounts(q);
    assert r[|q|] == c && forall i :: 0 <= i < |q| ==> r[i] == q[i];
  }

  /** A text whose first group has padding in the wrong place is refused, and nothing is stored. */
  lemma MisplacedPadding(q: seq<byte>, rest: seq<byte>, cap: nat)
    requires 0 < |q| <= 4 && Alphabet(q) && Alphabet(rest) && (!PadsLast(q) || Pads(q) > 3)
    ensures Decode(q + rest) == Bad && Stored(q + rest, cap) == []
  {
    var c := q + rest;
    if |c| >= 4 {
      var group := c[..4];
      PadsCounts(group);
      assert forall i :: 0 <= i < |q| ==> group[i] == q[i];
      if !PadsLast(q) {
        var i, j :| 0 <= i < j < |q| && q[i] == PAD && q[j] != PAD;
        assert group[i] == PAD && group[j] != PAD;
      } else {
        assert group == q;
      }
    }
  }

  /** A character that the decoder refuses makes the text bad, whatever follows. */
  lemma RefusedCharacter(s: Progress, c: byte, rest: seq<byte>)
    requires Reading(s, [c] + rest) && Storing(s, [c] + rest)
    requires if c == PAD then s.g == 0 else s.g != 3
    ensures s.goal == Bad && s.all == s.out
  {
    if !s.closed {
      PadsAppend(s.pending, c);
      PadsCounts(s.pending);
      assert s.pending + ([c] + rest) == s.pending + [c] + rest;
      MisplacedPadding(s.pending + [c], rest, s.cap - |s.out|);
    }
  }

  /** The state with `c` taken up. */
  function Taken(s: Progress, c: byte): Progress {
    s.(pending := s.pending + [c], g := if c == PAD then s.g - 1 else s.g)
  }

  /** An accepted character joins the group. */
  lemma AcceptedCharacter(s: Progress, c: byte, rest: seq<byte>)
    requires Reading(s, [c] + rest) && Storing(s, [c] + rest)
    requires if c == PAD then s.g > 0 else s.g == 3
    requires |s.pending| < 3
    ensures Reading(Taken(s, c), rest) && Storing(Taken(s, c), rest)
  {
    PadsAppend(s.pending, c);
    assert s.pending + ([c] + rest) == s.pending + [c] + rest;
  }

  lemma PrependTwice(a: seq<byte>, b: seq<byte>, d: Decoded)
    ensures Prepend(a, Prepend(b, d)) == Prepend(a + b, d)
  {
    if d.Good? {
      assert a + (b + d.bytes) == a + b + d.bytes;
    }
  }

  /** Decoding by the first group. */
  lemma DecodeFirst(q: seq<byte>, rest: seq<byte>)
    requires |q| == 4 && Alphabet(q) && Alphabet(rest) && PadsLast(q) && Pads(q) <= 3
    ensures Alphabet(q + rest)
    ensures Decode(q + rest)
            == if Pads(q) == 0 then Prepend(GroupBytes(Bits(q)), Decode(rest))
               else if rest == [] then Good(Written(Bits(q), 3 - Pads(q)), 3 - Pads(q))
               else Bad
  {
    assert (q + rest)[..4] == q && (q + rest)[4..] == rest;
  }

  /** Storing by the first group. */
  lemma StoreFirst(q: seq<byte>, rest: seq<byte>, cap: nat)
    requires |q| == 4 && Alphabet(q) && Alphabet(rest) && PadsLast(q) && Pads(q) <= 3
    ensures Alphabet(q + rest)
    ensures Stored(q + rest, cap)
            == if 3 - Pads(q) > cap then []
               else if Pads(q) == 0 then Written(Bits(q), 3) + Stored(rest, cap - 3)
               else Written(Bits(q), 3 - Pads(q))
  {
    assert (q + rest)[..4] == q && (q + rest)[4..] == rest;
    assert Written(Bits(q), 3) == GroupBytes(Bits(q));
  }

  /** The state with the group in `q` stored. */
  function Flushed(s: Progress, q: seq<byte>, g: int): Progress
    requires |q| == 4 && Alphabet(q) && 0 <= g <= 3
  {
    s.(out := s.out + Written(Bits(q), g), pending := [], g := g, closed := g < 3)
  }

  /** A full group without pads is stored, if there is room for it. */
  lemma FullGroup(s: Progress, q: seq<byte>, rest: seq<byte>)
    requires |q| == 4 && Alphabet(q) && Alphabet(rest) && PadsLast(q) && Pads(q) == 0
    requires Alphabet(q + rest) && s.goal == Prepend(s.out, Decode(q + rest))
    ensures |s.out| + 3 > s.cap ==> s.goal.Bad? || s.goal.room > s.cap
    ensures |s.out| + 3 <= s.cap ==> Reading(Flushed(s, q, 3), rest)
  {
    DecodeFirst(q, rest);
    assert Written(Bits(q), 3) == GroupBytes(Bits(q));
    PrependTwice(s.out, GroupBytes(Bits(q)), Decode(rest));
    assert [] + rest == rest;
  }

  /** A padded group is stored, if there is room for what it asks, and must be the last one. */
  lemma PaddedGroup(s: Progress, q: seq<byte>, g: int, rest: seq<byte>)
    requires |q| == 4 && Alphabet(q) && Alphabet(rest) && PadsLast(q) && Pads(q) == 3 - g && 0 <= g < 3
    requires Alphabet(q + rest) && s.goal == Prepend(s.out, Decode(q + rest))
    ensures |s.out| + g > s.cap ==> s.goal.Bad? || s.goal.room > s.cap
    ensures |s.out| + g <= s.cap ==> Reading(Flushed(s, q, g), rest)
  {
    DecodeFirst(q, rest);
  }

  lemma GroupIsStored(s: Progress, q: seq<byte>, g: int, rest: seq<byte>)
    requires |q| == 4 && Alphabet(q) && Alphabet(rest) && PadsLast(q) && Pads(q) == 3 - g && 0 <= g <= 3
    requires |s.out| <= s.cap && Alphabet(q + rest) && s.all == s.out + Stored(q + rest, s.cap - |s.out|)
    ensures |s.out| + g > s.cap ==> s.all == s.out
    ensures |s.out| + g <= s.cap ==> Storing(Flushed(s, q, g), rest)
  {
    StoreFirst(q, rest, s.cap - |s.out|);
    assert [] + rest == rest;
    if g == 3 && |s.out| + 3 <= s.cap {
      var w, later := Written(Bits(q), 3), Stored(rest, s.cap - |s.out| - 3);
      assert s.out + (w + later) == s.out + w + later;
    }
  }

  /** The character that fills a group. */
  lemma LastOfGroup(s: Progress, c: byte, rest: seq<byte>)
    requires Reading(s, [c] + rest) && Storing(s, [c] + rest)
    requires if c == PAD then s.g > 0 else s.g == 3
    requires |s.pending| == 3
    ensures Alphabet(s.pending + [c])
    ensures var q, g := s.pending + [c], if c == PAD then s.g - 1 else s.g;
            && (|s.out| + g > s.cap ==> (s.goal.Bad? || s.goal.room > s.cap) && s.all == s.out)
            && (|s.out| + g <= s.cap ==> Reading(Flushed(s, q, g), rest) && Storing(Flushed(s, q, g), rest))
  {
    PadsAppend(s.pending, c);
    var q := s.pending + [c];
    assert s.pending + ([c] + rest) == q + rest;
    PadsCounts(q);
    if c == PAD {
      PaddedGroup(s, q, s.g - 1, rest);
      GroupIsStored(s, q, s.g - 1, rest);
    } else {
      FullGroup(s, q, rest);
      GroupIsStored(s, q, 3, rest);
    }
  }

  /** The end of the text. */
  lemma EndOfText(s: Progress)
    requires Reading(s, []) && Storing(s, [])
    ensures s.pending != [] ==> s.goal == Bad
    ensures s.pending == [] ==> s.goal.Good? && s.goal.bytes == s.out && s.goal.room <= s.cap
    ensures s.all == s.out
  {
    assert s.pending + [] == s.pending;
    if !s.closed {
      assert s.out + [] == s.out;
    }
  }

  lemma CleanStep(s: seq<byte>, x: nat)
    requires x < |s|
    ensures Clean(s[x..]) == if Map(s[x]) == SKIP then Clean(s[x + 1..]) else [s[x]] + Clean(s[x + 1..])
  {
    assert s[x..][1..] == s[x + 1..];
  }

  function Start(input: seq<byte>, cap: nat): Progress {
    Progress(Decode(Clean(input)), Stored(Clean(input), cap), cap, [], [], 3, false)
  }

  lemma StartReading(input: seq<byte>, cap: nat)
    ensures Reading(Start(input, cap), Clean(input)) && Storing(Start(input, cap), Clean(input))
  {
    var d := Decode(Clean(input));
    assert [] + Clean(input) == Clean(input);
    assert [] + Stored(Clean(input), cap) == Stored(Clean(input), cap);
    if d.Good? {
      assert [] + d.bytes == d.bytes;
    }
  }

  lemma BitsAppend(q: seq<byte>, c: byte)
    requires |q| < 4 && Alphabet(q) && Map(c) != SKIP
    ensures Alphabet(q + [c]) && Bits(q + [c]) == Bits(q) * 64 + Value(c)
  {
    assert (q + [c])[..|q|] == q;
  }

  /** The stores of a full group. */
  method WriteGroup(out: array<byte>, start: nat, t: nat, g: int, ghost was: seq<byte>) returns (z: nat)
    requires t < 0x100_0000 && 0 <= g <= 3 && start + |Written(t, g)| <= out.Length == |was|
    requires out[start..] == was[start..]
    modifies out
    ensures z == start + |Written(t, g)|
    ensures out[..z] == old(out[..start]) + Written(t, g) && out[z..] == was[z..]
  {
    EndAgrees(out[..], was, start, start + |Written(t, g)|);
    z := start;
    out[z] := t / 0x1_0000;
    z := z + 1;
    if g > 1 {
      out[z] := t / 0x100 % 256;
      z := z + 1;
    }
    if g > 2 {
      out[z] := t % 256;
      z := z + 1;
    }
  }

  /** What the variables of the loop hold. */
  ghost predicate Counts(s: Progress, z: nat, y: nat, t: nat, g: int) {
    z == |s.out| && y == |s.pending| <= 3 && Alphabet(s.pending) && t == Bits(s.pending) && g == s.g
  }

  /** The buffer holds what is stored so far and is otherwise as it was. */
  ghost predicate Holds(buf: seq<byte>, s: Progress, was: seq<byte>) {
    && |s.out| <= |buf| == |was| && |s.all| <= |buf|
    && buf[..|s.out|] == s.out && buf[|s.out|..] == was[|s.out|..]
  }

  /** A full group: the room test and the stores. */
  method FlushGroup(out: array<byte>, outlen: nat, start: nat, t: nat, g: int,
                    ghost s: Progress, ghost ch: byte, ghost rest: seq<byte>, ghost was: seq<byte>)
      returns (ok: bool, z: nat, ghost s': Progress)
    requires Reading(s, [ch] + rest) && Storing(s, [ch] + rest) && s.cap == outlen
    requires |s.pending| == 3 && (if ch == PAD then s.g > 0 else s.g == 3) && Map(ch) != SKIP
    requires g == (if ch == PAD then s.g - 1 else s.g) && Alphabet(s.pending + [ch]) && t == Bits(s.pending + [ch])
    requires start == |s.out| && Holds(out[..], s, was)
    modifies out
    ensures !ok ==> s' == s && (s.goal.Bad? || s.goal.room > s.cap) && s.all == s.out && out[..] == old(out[..])
    ensures ok ==> s' == Flushed(s, s.pending + [ch], g) && Reading(s', rest) && Storing(s', rest) && z == |s'.out|
    ensures Holds(out[..], s', was)
  {
    LastOfGroup(s, ch, rest);
    z, s' := start, s;
    if z + g > outlen {
      return false, z, s';
    }
    s' := Flushed(s, s.pending + [ch], g);
    StoredSoFar(s', rest);
    z := WriteGroup(out, z, t, g, was);
    return true, z, s';
  }

  /** One character of the alphabet, or a pad. */
  method TakeCharacter(ch: byte, out: array<byte>, outlen: nat, z0: nat, y0: nat, t0: nat, g0: int,
                       ghost s: Progress, ghost rest: seq<byte>, ghost was: seq<byte>)
      returns (ok: bool, z: nat, y: nat, t: nat, g: int, ghost s': Progress)
    requires Map(ch) != SKIP && s.cap == outlen && Counts(s, z0, y0, t0, g0) && Holds(out[..], s, was)
    requires Reading(s, [ch] + rest) && Storing(s, [ch] + rest)
    modifies out
    ensures s'.goal == s.goal && s'.all == s.all && s'.cap == s.cap
    ensures !ok ==> (s.goal.Bad? || s.goal.room > s.cap) && s'.all == s'.out
    ensures ok ==> Counts(s', z, y, t, g) && Reading(s', rest) && Storing(s', rest)
    ensures Holds(out[..], s', was)
  {
    z, y, t, g, s' := z0, y0, t0, g0, s;
    var c := Map(ch);
    if c == PAD_CODE {
      c := 0;
      g := g - 1;
      if g < 0 {
        RefusedCharacter(s, ch, rest);
        ok := false;
        return;
      }
    } else if g != 3 {
      RefusedCharacter(s, ch, rest);
      ok := false;
      return;
    }
    BitsAppend(s.pending, ch);
    t := t * 64 + c;
    y := y + 1;
    if y == 4 {
      ok, z, s' := FlushGroup(out, outlen, z, t, g, s, ch, rest, was);
      y, t := 0, 0;
    } else {
      AcceptedCharacter(s, ch, rest);
      ok, s' := true, Taken(s, ch);
    }
  }

  /**
   * base64_decode. The buffer must be one byte longer than the length given just for the texts that
   * overrun it: a last group with three pads is stored as one byte although the room test counts
   * none for it.
   */
  method Base64Decode(input: seq<byte>, out: array<byte>, outlen: nat) returns (ret: int, newlen: nat)
    requires outlen <= out.Length
    requires outlen == out.Length ==> !Overruns(Clean(input), outlen)
    modifies out
    ensures ret == 0 || ret == -1
    ensures var d := Decode(Clean(input));
            && (ret == 0 <==> d.Good? && d.room <= outlen)
            && (ret == 0 ==> newlen == |d.bytes| <= out.Length && out[..newlen] == d.bytes)
            && (ret != 0 ==> newlen == outlen)
    ensures var all := Stored(Clean(input), outlen);
            |all| <= out.Length && out[..|all|] == all && out[|all|..] == old(out[..])[|all|..]
  {
    OverrunsExactly(Clean(input), outlen);
    ghost var s, was := Start(input, outlen), out[..];
    StartReading(input, outlen);
    var g, t: nat, y: nat, z: nat := 3, 0, 0, 0;
    var x := 0;
    assert input[0..] == input;
    while x < |input|
      invariant 0 <= x <= |input|
      invariant s.goal == Decode(Clean(input)) && s.all == Stored(Clean(input), outlen) && s.cap == outlen
      invariant Counts(s, z, y, t, g) && Holds(out[..], s, was)
      invariant Reading(s, Clean(input[x..])) && Storing(s, Clean(input[x..]))
    {
      CleanStep(input, x);
      var ch := input[x];
      x := x + 1;
      if Map(ch) != SKIP {
        var ok;
        ok, z, y, t, g, s := TakeCharacter(ch, out, outlen, z, y, t, g, s, Clean(input[x..]), was);
        if !ok {
          return -1, outlen;
        }
      }
    }
    EndOfText(s);
    if y != 0 {
      return -1, outlen;
    }
    return 0, z;
  }

  lemma StoredSoFar(s: Progress, rest: seq<byte>)
    requires Storing(s, rest)
    ensures |s.out| <= |s.all|
  {
  }

  lemma EndAgrees<T>(a: seq<T>, b: seq<T>, i: nat, j: nat)
    requires i <= j <= |a| == |b| && a[i..] == b[i..]
    ensures a[j..] == b[j..]
  {
    assert a[j..] == a[i..][j - i..] && b[j..] == b[i..][j - i..];
  }

  /**
   * The caller in base64.cpp: a buffer as long as the text, and a NUL behind the bytes decoded. For
   * an empty text there is no place for that NUL.
   */
  method DecodeString(data: seq<byte>) returns (result: seq<byte>)
    requires data != []
    ensures var d := Decode(Clean(data)); result == if d.Good? then CStr(d.bytes) else []
  {
    var buf := new byte[|data|](_ => 0);
    RoomForInput(data, |data|);
    var ret, size := Base64Decode(data, buf, |data|);
    if ret == 0 {
      DecodedRoom(Clean(data));
      buf[size] := NUL;
      result := CStr(buf[..size]);
    } else {
      if Decode(Clean(data)).Good? {
        DecodedRoom(Clean(data));
      }
      result := [];
    }
  }
}
