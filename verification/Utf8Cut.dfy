/** utf8_impl.c: utf8_cut_by_size scans backwards for the last character boundary that fits. */
module Utf8Cut {
  import opened Bytes
  import opened Utf8

  /** A character of section 3 of RFC 3629: its further bytes are all 10xxxxxx. */
  ghost predicate IsStrict(c: seq<byte>) {
    |c| > 0 && Announced(c[0]) == |c| && forall k :: 0 < k < |c| ==> 0x80 <= c[k] < 0xC0
  }

  ghost predicate AllStrict(cs: seq<seq<byte>>) {
    forall i :: 0 <= i < |cs| ==> IsStrict(cs[i])
  }

  /** Forwards and greedily: take whole characters while they fit. */
  function Greedy(cs: seq<seq<byte>>, max: nat): (n: nat)
    ensures n <= max
  {
    if cs == [] || |cs[0]| > max then 0 else |cs[0]| + Greedy(cs[1..], max - |cs[0]|)
  }

  /** The greedy length is a boundary, and no later boundary fits. */
  lemma {:induction false} GreedyIsLongest(cs: seq<seq<byte>>, max: nat) returns (k: nat)
    ensures k <= |cs| && Greedy(cs, max) == Offset(cs, k) <= max
    ensures forall j :: k < j <= |cs| ==> Offset(cs, j) > max || Offset(cs, j) == Offset(cs, k)
    decreases |cs|
  {
    if cs == [] || |cs[0]| > max {
      k := 0;
      forall j | 0 < j <= |cs|
        ensures Offset(cs, j) > max
      {
        OffsetSteps(cs, j);
      }
    } else {
      var k' := GreedyIsLongest(cs[1..], max - |cs[0]|);
      k := k' + 1;
      OffsetSteps(cs, k);
      forall j | k < j <= |cs|
        ensures Offset(cs, j) > max || Offset(cs, j) == Offset(cs, k)
      {
        OffsetSteps(cs, j);
        assert Offset(cs[1..], j - 1) > max - |cs[0]| || Offset(cs[1..], j - 1) == Offset(cs[1..], k');
      }
    }
  }

  lemma OffsetSteps(cs: seq<seq<byte>>, j: nat)
    requires 0 < j <= |cs|
    ensures Offset(cs, j) == |cs[0]| + Offset(cs[1..], j - 1)
  {
    assert cs[..j][1..] == cs[1..][..j - 1];
  }

  lemma GreedyOfNothing(cs: seq<seq<byte>>)
    ensures Greedy(cs, 0) == 0
  {
  }

  /** The backward scan from `p` - 1 on, in any bytes. */
  function ScanBack(s: seq<byte>, max: nat, p: nat): (n: nat)
    requires p <= max < |s|
    ensures n <= max
  {
    if p == 0 then 0
    else
      var b, size := s[p - 1], Size(s, p - 1);
      if b >= 0xC0 && size > 0 then (if p - 1 + size > max then p - 1 else p - 1 + size)
      else if b < 0x80 then p
      else ScanBack(s, max, p - 1)
  }

  function Cut(s: seq<byte>, max: nat): (n: nat)
    ensures n <= max && n <= |s|
  {
    if |s| <= max then |s| else ScanBack(s, max, max)
  }

  /** utf8_cut_by_size. */
  method CutBySize(utf8str: seq<byte>, maxsize: nat) returns (n: nat)
    requires IsCString(utf8str)
    ensures n == Cut(utf8str, maxsize)
  {
    if |utf8str| <= maxsize {
      return |utf8str|;
    }
    var p := maxsize - 1;
    while p >= 0
      invariant -1 <= p < maxsize
      invariant ScanBack(utf8str, maxsize, maxsize) == ScanBack(utf8str, maxsize, p + 1)
    {
      var c := utf8str[p];
      if c >= 0xC0 {
        var size := GetSizeChar(utf8str, p);
        if size > 0 {
          var res := p + (size - 1) + 1;
          if res > maxsize {
            return p;
          }
          return res;
        }
      } else if c < 0x80 {
        return p + 1;
      }
      p := p - 1;
    }
    return 0;
  }

  lemma {:induction false} GreedyOfAll(cs: seq<seq<byte>>, max: nat)
    requires |Flatten(cs)| <= max
    ensures Greedy(cs, max) == |Flatten(cs)|
    decreases |cs|
  {
    if cs != [] {
      GreedyOfAll(cs[1..], max - |cs[0]|);
    }
  }

  // ----- where the limit falls

  /** Nothing is broken from `i` on. */
  predicate WholeFrom(s: seq<byte>, i: nat)
    requires i <= |s|
    decreases |s| - i
  {
    i == |s| || (Size(s, i) > 0 && i + Size(s, i) <= |s| && WholeFrom(s, i + Size(s, i)))
  }

  lemma FlattenCons(c: seq<byte>, cs: seq<seq<byte>>)
    ensures Flatten([c] + cs) == c + Flatten(cs)
  {
    assert ([c] + cs)[1..] == cs;
  }

  lemma SameTail(c: seq<byte>, a: seq<byte>, b: seq<byte>)
    ensures c + a == c + b <==> a == b
  {
    assert (c + a)[|c|..] == a && (c + b)[|c|..] == b;
  }

  lemma {:induction false} ValidIsWhole(s: seq<byte>, i: nat)
    requires i <= |s|
    ensures WholeFrom(s, i) <==> Flatten(Chars(s, i)) == s[i..]
    decreases |s| - i
  {
    if i == |s| {
      assert Flatten([]) == s[i..];
    } else if Size(s, i) <= 0 {
      assert |Flatten([])| < |s[i..]|;
    } else {
      var n := Size(s, i);
      var c := s[i..i + n];
      ValidIsWhole(s, i + n);
      FlattenCons(c, Chars(s, i + n));
      assert s[i..] == c + s[i + n..];
      SameTail(c, Flatten(Chars(s, i + n)), s[i + n..]);
    }
  }

  lemma WholeFromStart(s: seq<byte>)
    ensures WholeFrom(s, 0) <==> IsValid(s)
  {
    ValidIsWhole(s, 0);
    assert s[0..] == s;
  }

  /** Where the character that holds the byte before `max` begins. */
  function Begin(s: seq<byte>, i: nat, max: nat): (o: nat)
    requires i < max <= |s| && WholeFrom(s, i)
    ensures i <= o < max <= o + Size(s, o) <= |s|
    decreases |s| - i
  {
    if max <= i + Size(s, i) then i else Begin(s, i + Size(s, i), max)
  }

  lemma GreedyCons(c: seq<byte>, cs: seq<seq<byte>>, max: nat)
    ensures Greedy([c] + cs, max) == if |c| > max then 0 else |c| + Greedy(cs, max - |c|)
  {
    assert ([c] + cs)[1..] == cs;
  }

  lemma GreedyHere(s: seq<byte>, i: nat, max: nat)
    requires i < |s| && Size(s, i) > 0 && i + Size(s, i) <= |s|
    ensures var n := Size(s, i);
            Greedy(Chars(s, i), max) == if n > max then 0 else n + Greedy(Chars(s, i + n), max - n)
  {
    var n := Size(s, i);
    CharsHere(s, i, n);
    GreedyCons(s[i..i + n], Chars(s, i + n), max);
  }

  /** The greedy length by positions. */
  function GreedyEnd(s: seq<byte>, i: nat, max: nat): (p: nat)
    requires i <= max <= |s| && WholeFrom(s, i)
    ensures i <= p <= max
    decreases |s| - i
  {
    if i == |s| || i + Size(s, i) > max then i else GreedyEnd(s, i + Size(s, i), max)
  }

  lemma {:induction false} GreedyByPosition(s: seq<byte>, i: nat, max: nat)
    requires i <= max <= |s| && WholeFrom(s, i)
    ensures i + Greedy(Chars(s, i), max - i) == GreedyEnd(s, i, max)
    decreases |s| - i
  {
    if i < |s| {
      GreedyHere(s, i, max - i);
      if i + Size(s, i) <= max {
        GreedyByPosition(s, i + Size(s, i), max);
      }
    }
  }

  /** Whole characters up to that one, and that one too if it ends at `max`. */
  lemma {:induction false} GreedyFromBegin(s: seq<byte>, i: nat, max: nat)
    requires i < max <= |s| && WholeFrom(s, i)
    ensures var o := Begin(s, i, max);
            GreedyEnd(s, i, max) == if o + Size(s, o) == max then max else o
    decreases |s| - i
  {
    var n := Size(s, i);
    if max > i + n {
      GreedyFromBegin(s, i + n, max);
    }
  }

  // ----- where the backward scan stops

  /** The scan takes this byte for the beginning of a character of several bytes. */
  predicate Lead(s: seq<byte>, k: nat) {
    k < |s| && s[k] >= 0xC0 && Size(s, k) > 0
  }

  /** The last such byte strictly between `o` and `p`, or `o`. */
  function LastLead(s: seq<byte>, o: nat, p: nat): (k: nat)
    requires o < p
    ensures o <= k < p && (k > o ==> Lead(s, k))
    ensures forall j :: k < j < p ==> !Lead(s, j)
  {
    if p == o + 1 then o else if Lead(s, p - 1) then p - 1 else LastLead(s, o, p - 1)
  }

  lemma {:induction false} ScanBackStops(s: seq<byte>, max: nat, p: nat, o: nat)
    requires o < p <= max < |s| && 0 < Size(s, o) && max <= o + Size(s, o) <= |s|
    ensures var k := LastLead(s, o, p);
            ScanBack(s, max, p) == if k + Size(s, k) > max then k else k + Size(s, k)
    decreases p
  {
    if p > o + 1 {
      assert s[p - 1] >= 0x80;
      if !Lead(s, p - 1) {
        ScanBackStops(s, max, p - 1, o);
      }
    }
  }

  /**
   * Nothing inside the character at the limit looks like the beginning of another, or what looks
   * like one ends just where that character does, at the limit.
   */
  predicate CutsWhole(s: seq<byte>, max: nat)
    requires WholeFrom(s, 0) && 0 < max < |s|
  {
    var o := Begin(s, 0, max);
    var k := LastLead(s, o, max);
    k == o || k + Size(s, k) == max == o + Size(s, o)
  }

  lemma CutInside(s: seq<byte>, max: nat)
    requires WholeFrom(s, 0) && 0 < max < |s|
    ensures Cut(s, max) == Greedy(Chars(s, 0), max) <==> CutsWhole(s, max)
  {
    var o := Begin(s, 0, max);
    GreedyFromBegin(s, 0, max);
    GreedyByPosition(s, 0, max);
    ScanBackStops(s, max, max, o);
  }

  /**
   * Cutting backwards gives the longest run of whole characters that fits, as the forward scan finds
   * it, exactly under that condition.
   */
  lemma CutIsExact(s: seq<byte>, max: nat)
    requires IsValid(s)
    ensures WholeFrom(s, 0)
    ensures Cut(s, max) == Greedy(Chars(s, 0), max) <==> !(0 < max < |s|) || CutsWhole(s, max)
  {
    WholeFromStart(s);
    if |s| <= max {
      GreedyOfAll(Chars(s, 0), max);
    } else if max == 0 {
      GreedyOfNothing(Chars(s, 0));
    } else {
      CutInside(s, max);
    }
  }

  // ----- strings of well-formed characters

  lemma StrictHere(s: seq<byte>, i: nat, c: seq<byte>, later: seq<byte>)
    requires i <= |s| && s[i..] == c + later && IsStrict(c)
    ensures i + |c| <= |s| && Size(s, i) == |c| && s[i..i + |c|] == c && s[i + |c|..] == later
  {
    var n := |c|;
    assert forall k :: 0 <= k < |s| - i ==> s[i + k] == s[i..][k];
    assert forall k :: i <= k < i + n ==> s[k] == c[k - i];
    assert s[i + n..] == s[i..][n..];
  }

  lemma CharsHere(s: seq<byte>, i: nat, n: nat)
    requires i + n <= |s| && n > 0 && i < |s| && Size(s, i) == n
    ensures Chars(s, i) == [s[i..i + n]] + Chars(s, i + n)
  {
  }

  /** Such characters are found again in the string they make. */
  lemma {:induction false} CharsOfStrict(s: seq<byte>, i: nat, cs: seq<seq<byte>>)
    requires i <= |s| && s[i..] == Flatten(cs) && AllStrict(cs)
    ensures Chars(s, i) == cs
    decreases |cs|
  {
    if cs != [] {
      var c := cs[0];
      StrictHere(s, i, c, Flatten(cs[1..]));
      CharsOfStrict(s, i + |c|, cs[1..]);
      CharsHere(s, i, |c|);
      assert [c] + cs[1..] == cs;
    }
  }

  lemma StrictIsValid(cs: seq<seq<byte>>)
    requires AllStrict(cs)
    ensures IsValid(Flatten(cs)) && Chars(Flatten(cs), 0) == cs
  {
    var s := Flatten(cs);
    assert s[0..] == s;
    CharsOfStrict(s, 0, cs);
  }

  /** With continuation bytes as section 3 of RFC 3629 wants them, the condition always holds. */
  lemma CutIsGreedy(cs: seq<seq<byte>>, max: nat)
    requires AllStrict(cs)
    ensures IsValid(Flatten(cs)) && Chars(Flatten(cs), 0) == cs
    ensures Cut(Flatten(cs), max) == Greedy(cs, max)
  {
    StrictIsValid(cs);
    CutIsExact(Flatten(cs), max);
    if 0 < max < |Flatten(cs)| {
      StrictCutsWhole(Flatten(cs), max);
    }
  }

  lemma StrictCons(c: seq<byte>, later: seq<seq<byte>>)
    requires AllStrict([c] + later)
    ensures IsStrict(c) && AllStrict(later)
  {
    var cs := [c] + later;
    assert cs[0] == c && forall i :: 0 <= i < |later| ==> later[i] == cs[i + 1];
  }

  /** All characters from `i` on are well-formed. */
  ghost predicate StrictFrom(s: seq<byte>, i: nat)
    requires i <= |s| && WholeFrom(s, i)
    decreases |s| - i
  {
    i == |s| || (IsStrict(s[i..i + Size(s, i)]) && StrictFrom(s, i + Size(s, i)))
  }

  lemma {:induction false} StrictByPosition(s: seq<byte>, i: nat)
    requires i <= |s| && WholeFrom(s, i) && AllStrict(Chars(s, i))
    ensures StrictFrom(s, i)
    decreases |s| - i
  {
    if i < |s| {
      var n := Size(s, i);
      CharsHere(s, i, n);
      StrictCons(s[i..i + n], Chars(s, i + n));
      StrictByPosition(s, i + n);
    }
  }

  /** So is the one at the limit. */
  lemma {:induction false} BeginIsStrict(s: seq<byte>, i: nat, max: nat)
    requires i < max <= |s| && WholeFrom(s, i) && StrictFrom(s, i)
    ensures var o := Begin(s, i, max); IsStrict(s[o..o + Size(s, o)])
    decreases |s| - i
  {
    if max > i + Size(s, i) {
      BeginIsStrict(s, i + Size(s, i), max);
    }
  }

  lemma StrictCutsWhole(s: seq<byte>, max: nat)
    requires WholeFrom(s, 0) && AllStrict(Chars(s, 0)) && 0 < max < |s|
    ensures CutsWhole(s, max)
  {
    StrictByPosition(s, 0);
    BeginIsStrict(s, 0, max);
    StrictHasNoLead(s, Begin(s, 0, max), max);
  }

  lemma StrictHasNoLead(s: seq<byte>, o: nat, max: nat)
    requires o < |s| && o < max <= o + Size(s, o) <= |s| && IsStrict(s[o..o + Size(s, o)])
    ensures LastLead(s, o, max) == o
  {
    var c := s[o..o + Size(s, o)];
    assert forall j :: o < j < o + |c| ==> s[j] == c[j - o];
  }

  /**
   * The further bytes must be strict: this string is one complete character for the scanner, and
   * cutting it to two bytes leaves one byte of it, which is no boundary.
   */
  lemma LaxContinuationIsCutApart()
    ensures var s: seq<byte> := [0xE0, 0xC3, 0x80];
            IsValid(s) && Chars(s, 0) == [s] && Cut(s, 2) == 1
  {
    var s: seq<byte> := [0xE0, 0xC3, 0x80];
    assert Size(s, 0) == 3 && s[0..3] == s;
    assert Flatten([s]) == s + [];
  }

  /** Yet not every such string is cut apart: here the inner byte announces one byte too many. */
  lemma LaxContinuationCanBeHarmless(max: nat)
    ensures var s: seq<byte> := [0xC3, 0xC3, 0x41];
            IsValid(s) && !IsStrict(Chars(s, 0)[0]) && Cut(s, max) == Greedy(Chars(s, 0), max)
  {
    var s: seq<byte> := [0xC3, 0xC3, 0x41];
    assert Size(s, 0) == 2 && Size(s, 1) == -2 && Size(s, 2) == 1;
    assert s[0..2] == [0xC3, 0xC3] && s[2..3] == [0x41];
    assert Chars(s, 2) == [[0x41]] + Chars(s, 3) == [[0x41]];
    assert Chars(s, 0) == [[0xC3, 0xC3]] + [[0x41]];
    assert Flatten([[0x41]]) == [0x41] + [];
    assert Chars(s, 0)[1..] == [[0x41]];
    CutIsExact(s, max);
    if 0 < max < 3 {
      WholeFromStart(s);
      assert Begin(s, 0, max) == 0;
      assert LastLead(s, 0, max) == 0;
    }
  }
}
