/** The glob matcher of wildcard.cpp: a two-pointer loop that only ever returns to the last star. */
module Wildcard {
  import opened Bytes

  const STAR: byte := 42
  const ANY: byte := 63

  /** The three character converters the template is instantiated with. */
  datatype CaseConverter = CaseSensitive | AsciiNoCase | IrcCase {
    function Apply(c: byte): (r: byte)
      ensures r == NUL <==> c == NUL
    {
      match this
      case CaseSensitive => c
      case AsciiNoCase => if 65 <= c <= 90 then c + 32 else c
      case IrcCase => if 65 <= c <= 94 then c + 32 else c
    }
  }

  /** Which characters each converter takes for the same: IRC's small letters end with the tilde. */
  lemma SameLetter(conv: CaseConverter, m: byte, c: byte)
    ensures conv.Apply(m) == conv.Apply(c) <==>
              m == c
              || (conv.AsciiNoCase? && ((65 <= m <= 90 && c == m + 32) || (65 <= c <= 90 && m == c + 32)))
              || (conv.IrcCase? && ((65 <= m <= 94 && c == m + 32) || (65 <= c <= 94 && m == c + 32)))
  {
  }

  /** The loops' test of a mask character; the NUL that ends the mask fits no character. */
  predicate Same(conv: CaseConverter, m: byte, c: byte): (same: bool)
    ensures m == NUL && c != NUL ==> !same
  {
    conv.Apply(m) == conv.Apply(c) || m == ANY
  }

  /**
   * The meaning of a mask, for the part of the mask from `i` on and the part of the string from
   * `j` on: `*` stands for any run, `?` for any character, anything else for itself.
   */
  ghost predicate Matches(conv: CaseConverter, mask: seq<byte>, str: seq<byte>, i: nat, j: nat)
    requires i <= |mask| && j <= |str|
    decreases |mask| - i + |str| - j
  {
    if i == |mask| then
      j == |str|
    else if mask[i] == STAR then
      Matches(conv, mask, str, i + 1, j) || (j < |str| && Matches(conv, mask, str, i, j + 1))
    else
      j < |str| && Same(conv, mask[i], str[j]) && Matches(conv, mask, str, i + 1, j + 1)
  }

  /** A mask that is one star matches every string, and one that is a question mark every single character. */
  lemma {:induction false} StarAndAny(conv: CaseConverter, str: seq<byte>, j: nat)
    requires j <= |str|
    ensures Matches(conv, [42], str, 0, j)
    ensures Matches(conv, [63], str, 0, j) <==> j + 1 == |str|
    decreases |str| - j
  {
    if j < |str| {
      StarAndAny(conv, str, j + 1);
    }
  }

  /** The mask from `i` on matches the string from `j` or some later place on: what a star before `i` asks. */
  ghost predicate MatchesLater(conv: CaseConverter, mask: seq<byte>, str: seq<byte>, i: nat, j: nat)
    requires i <= |mask| && j <= |str|
  {
    exists k :: j <= k <= |str| && Matches(conv, mask, str, i, k)
  }

  lemma {:induction false} StarMatchesLater(conv: CaseConverter, mask: seq<byte>, str: seq<byte>, i: nat, j: nat)
    requires i < |mask| && j <= |str| && mask[i] == STAR
    ensures Matches(conv, mask, str, i, j) <==> MatchesLater(conv, mask, str, i + 1, j)
    decreases |str| - j
  {
    if j < |str| {
      StarMatchesLater(conv, mask, str, i, j + 1);
    }
  }

  /** The star-free run mask[i..i+n] fits str[j..j+n] character by character. */
  ghost predicate Fits(conv: CaseConverter, mask: seq<byte>, str: seq<byte>, i: nat, j: nat, n: nat) {
    && i + n <= |mask| && j + n <= |str|
    && forall x :: i <= x < i + n ==> mask[x] != STAR && Same(conv, mask[x], str[x - i + j])
  }

  lemma {:induction false} FitsSkips(conv: CaseConverter, mask: seq<byte>, str: seq<byte>, i: nat, j: nat, n: nat)
    requires Fits(conv, mask, str, i, j, n)
    ensures Matches(conv, mask, str, i, j) <==> Matches(conv, mask, str, i + n, j + n)
    decreases n
  {
    if n > 0 {
      FitsSkips(conv, mask, str, i, j, n - 1);
      assert mask[i + n - 1] != STAR;
    }
  }

  /** A match begins by fitting any star-free beginning of the mask. */
  lemma {:induction false} MatchFits(conv: CaseConverter, mask: seq<byte>, str: seq<byte>, i: nat, j: nat, n: nat)
    requires i + n <= |mask| && j <= |str| && Matches(conv, mask, str, i, j)
    requires forall x :: i <= x < i + n ==> mask[x] != STAR
    ensures Fits(conv, mask, str, i, j, n)
    decreases n
  {
    if n > 0 {
      MatchFits(conv, mask, str, i, j, n - 1);
      FitsSkips(conv, mask, str, i, j, n - 1);
      assert mask[i + n - 1] != STAR;
    }
  }

  /** A mask without star and question mark matches the strings of its length with the same characters. */
  lemma LiteralMask(conv: CaseConverter, mask: seq<byte>, str: seq<byte>)
    requires 42 !in mask && 63 !in mask
    ensures Matches(conv, mask, str, 0, 0)
            <==> |mask| == |str| && forall k :: 0 <= k < |mask| ==> conv.Apply(mask[k]) == conv.Apply(str[k])
  {
    var n := |mask|;
    if Matches(conv, mask, str, 0, 0) {
      MatchFits(conv, mask, str, 0, 0, n);
      FitsSkips(conv, mask, str, 0, 0, n);
    } else if |mask| == |str| && Fits(conv, mask, str, 0, 0, n) {
      FitsSkips(conv, mask, str, 0, 0, n);
    }
  }

  ghost predicate OnlyStars(mask: seq<byte>, i: nat) {
    forall d :: i <= d < |mask| ==> mask[d] == STAR
  }

  lemma {:induction false} StarsMatchEmpty(conv: CaseConverter, mask: seq<byte>, str: seq<byte>, i: nat)
    requires i <= |mask|
    ensures Matches(conv, mask, str, i, |str|) <==> OnlyStars(mask, i)
    decreases |mask| - i
  {
    if i < |mask| {
      StarsMatchEmpty(conv, mask, str, i + 1);
    }
  }

  /**
   * Why returning to the last star is enough: once mask[i..i+n] fits at `j` and a new star follows,
   * taking this earliest fit loses no match.
   */
  lemma EarliestFitIsEnough(conv: CaseConverter, mask: seq<byte>, str: seq<byte>, i: nat, j: nat, n: nat)
    requires Fits(conv, mask, str, i, j, n) && i + n < |mask| && mask[i + n] == STAR
    ensures MatchesLater(conv, mask, str, i, j) <==> MatchesLater(conv, mask, str, i + n + 1, j + n)
  {
    FitsSkips(conv, mask, str, i, j, n);
    StarMatchesLater(conv, mask, str, i + n, j + n);
    if MatchesLater(conv, mask, str, i, j) {
      var k :| j <= k <= |str| && Matches(conv, mask, str, i, k);
      MatchFits(conv, mask, str, i, k, n);
      FitsSkips(conv, mask, str, i, k, n);
      StarMatchesLater(conv, mask, str, i + n, k + n);
    }
  }

  /** A failed attempt moves the restart point on by one and loses no match. */
  lemma FailedAttemptMovesOn(conv: CaseConverter, mask: seq<byte>, str: seq<byte>, i: nat, j: nat, n: nat)
    requires Fits(conv, mask, str, i, j, n) && j + n < |str|
    requires i + n < |mask| ==> mask[i + n] != STAR && !Same(conv, mask[i + n], str[j + n])
    ensures MatchesLater(conv, mask, str, i, j) <==> MatchesLater(conv, mask, str, i, j + 1)
    ensures !Matches(conv, mask, str, i, j)
  {
    FitsSkips(conv, mask, str, i, j, n);
  }

  /** When the string runs out during an attempt, later attempts would be even shorter. */
  lemma ExhaustedStringDecides(conv: CaseConverter, mask: seq<byte>, str: seq<byte>, i: nat, j: nat, n: nat)
    requires Fits(conv, mask, str, i, j, n) && j + n == |str|
    ensures MatchesLater(conv, mask, str, i, j) <==> OnlyStars(mask, i + n)
    ensures Matches(conv, mask, str, i, j) <==> OnlyStars(mask, i + n)
  {
    FitsSkips(conv, mask, str, i, j, n);
    StarsMatchEmpty(conv, mask, str, i + n);
    if MatchesLater(conv, mask, str, i, j) {
      var k :| j <= k <= |str| && Matches(conv, mask, str, i, k);
      MatchFits(conv, mask, str, i, k, n);
    }
  }

  /**
   * The main loop's state. After a star, the mask from `p` on is being tried at `k` and fits so
   * far; before the first star the whole mask so far is literal.
   */
  ghost predicate Underway(conv: CaseConverter, Mask: seq<byte>, Str: seq<byte>,
                           starred: bool, p: nat, k: nat, mask: nat, str: nat) {
    && p <= mask <= |Mask| && k <= str <= |Str| && mask - p == str - k
    && Fits(conv, Mask, Str, p, k, mask - p)
    && if starred then
         Matches(conv, Mask, Str, 0, 0) <==> MatchesLater(conv, Mask, Str, p, k)
       else
         p == k == 0 && (str < |Str| ==> mask < |Mask| && Mask[mask] == STAR)
  }

  /** One more character that fits. */
  lemma FitsLonger(conv: CaseConverter, mask: seq<byte>, str: seq<byte>, i: nat, j: nat, n: nat)
    requires Fits(conv, mask, str, i, j, n) && i + n < |mask| && j + n < |str|
    requires mask[i + n] != STAR && Same(conv, mask[i + n], str[j + n])
    ensures Fits(conv, mask, str, i, j, n + 1)
  {
  }

  lemma CharacterFits(conv: CaseConverter, Mask: seq<byte>, Str: seq<byte>,
                      starred: bool, p: nat, k: nat, mask: nat, str: nat)
    requires Underway(conv, Mask, Str, starred, p, k, mask, str) && starred
    requires mask < |Mask| && str < |Str| && Mask[mask] != STAR && Same(conv, Mask[mask], Str[str])
    ensures Underway(conv, Mask, Str, true, p, k, mask + 1, str + 1)
  {
    FitsLonger(conv, Mask, Str, p, k, mask - p);
  }

  lemma StarSeen(conv: CaseConverter, Mask: seq<byte>, Str: seq<byte>,
                 starred: bool, p: nat, k: nat, mask: nat, str: nat)
    requires Underway(conv, Mask, Str, starred, p, k, mask, str) && mask < |Mask| && Mask[mask] == STAR
    ensures Underway(conv, Mask, Str, true, mask + 1, str, mask + 1, str)
    ensures mask + 1 == |Mask| ==> Matches(conv, Mask, Str, 0, 0)
  {
    if starred {
      EarliestFitIsEnough(conv, Mask, Str, p, k, mask - p);
    } else {
      FitsSkips(conv, Mask, Str, 0, 0, mask);
      StarMatchesLater(conv, Mask, Str, mask, str);
    }
    assert mask + 1 == |Mask| ==> Matches(conv, Mask, Str, mask + 1, |Str|);
  }

  lemma Mismatch(conv: CaseConverter, Mask: seq<byte>, Str: seq<byte>,
                 starred: bool, p: nat, k: nat, mask: nat, str: nat)
    requires Underway(conv, Mask, Str, starred, p, k, mask, str) && str < |Str|
    requires mask < |Mask| ==> Mask[mask] != STAR && !Same(conv, Mask[mask], Str[str])
    ensures starred && Underway(conv, Mask, Str, true, p, k + 1, p, k + 1)
  {
    FailedAttemptMovesOn(conv, Mask, Str, p, k, mask - p);
  }

  lemma StringEnds(conv: CaseConverter, Mask: seq<byte>, Str: seq<byte>,
                   starred: bool, p: nat, k: nat, mask: nat)
    requires Underway(conv, Mask, Str, starred, p, k, mask, |Str|)
    ensures Matches(conv, Mask, Str, 0, 0) <==> OnlyStars(Mask, mask)
  {
    ExhaustedStringDecides(conv, Mask, Str, p, k, mask - p);
  }

  /**
   * wc_match_tmpl. `mask`, `str`, `mp` and `cp` are indices; both strings end in a NUL that the
   * loops read. `p` and `k` remember where the attempt under way began.
   */
  method WcMatch(conv: CaseConverter, Mask: seq<byte>, Str: seq<byte>) returns (matched: bool)
    requires IsCString(Mask) && IsCString(Str)
    ensures matched <==> Matches(conv, Mask, Str, 0, 0)
  {
    var mask, str: nat := 0, 0;
    while At(Str, str) != NUL && At(Mask, mask) != STAR
      invariant mask == str && Fits(conv, Mask, Str, 0, 0, mask)
      decreases |Str| - str
    {
      if !Same(conv, At(Mask, mask), At(Str, str)) {
        FailedAttemptMovesOn(conv, Mask, Str, 0, 0, mask);
        return false;
      }
      FitsLonger(conv, Mask, Str, 0, 0, mask);
      mask, str := mask + 1, str + 1;
    }
    var mp, cp: nat := 0, 0;
    ghost var starred, p, k := false, 0, 0;
    while At(Str, str) != NUL
      invariant Underway(conv, Mask, Str, starred, p, k, mask, str)
      invariant starred ==> mp == p && cp == k + 1
      decreases |Mask| - p, |Str| - k, |Str| - str
    {
      if At(Mask, mask) == STAR {
        StarSeen(conv, Mask, Str, starred, p, k, mask, str);
        mask := mask + 1;
        if At(Mask, mask) == NUL {
          return true;
        }
        mp, cp := mask, str + 1;
        starred, p, k := true, mask, str;
      } else if Same(conv, At(Mask, mask), At(Str, str)) {
        CharacterFits(conv, Mask, Str, starred, p, k, mask, str);
        mask, str := mask + 1, str + 1;
      } else {
        Mismatch(conv, Mask, Str, starred, p, k, mask, str);
        mask, str, cp := mp, cp, cp + 1;
        k := str;
      }
    }
    StringEnds(conv, Mask, Str, starred, p, k, mask);
    while At(Mask, mask) == STAR
      invariant mask <= |Mask|
      invariant Matches(conv, Mask, Str, 0, 0) <==> OnlyStars(Mask, mask)
      decreases |Mask| - mask
    {
      mask := mask + 1;
    }
    return At(Mask, mask) == NUL;
  }
}
