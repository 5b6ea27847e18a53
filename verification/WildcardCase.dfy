/** The matcher for IRC names does not see the difference between small letters and capitals. */
module WildcardCase {
  import opened Bytes
  import opened Wildcard
  import IrcLine

  /** The tables of ircstring.cpp belong together. */
  lemma TablesAgree(c: byte)
    ensures IrcCase.Apply(IrcLine.Upper(c)) == IrcCase.Apply(c)
    ensures IrcLine.Upper(IrcCase.Apply(c)) == IrcLine.Upper(c)
    ensures IrcLine.Upper(c) == 42 <==> c == 42
    ensures IrcLine.Upper(c) == 63 <==> c == 63
  {
  }

  ghost predicate SameNames(s: seq<byte>, t: seq<byte>) {
    |s| == |t| && forall i :: 0 <= i < |s| ==> IrcLine.Upper(s[i]) == IrcLine.Upper(t[i])
  }

  lemma SameCharacter(m: byte, n: byte, c: byte, d: byte)
    requires IrcLine.Upper(m) == IrcLine.Upper(n) && IrcLine.Upper(c) == IrcLine.Upper(d)
    ensures Same(IrcCase, m, c) == Same(IrcCase, n, d)
    ensures m == 42 <==> n == 42
  {
    TablesAgree(m);
    TablesAgree(n);
    TablesAgree(c);
    TablesAgree(d);
  }

  lemma {:induction false} CaseIsIgnored(mask: seq<byte>, mask': seq<byte>, str: seq<byte>, str': seq<byte>,
                                         i: nat, j: nat)
    requires SameNames(mask, mask') && SameNames(str, str') && i <= |mask| && j <= |str|
    ensures Matches(IrcCase, mask, str, i, j) <==> Matches(IrcCase, mask', str', i, j)
    decreases |mask| - i + |str| - j
  {
    if i < |mask| {
      if j < |str| {
        SameCharacter(mask[i], mask'[i], str[j], str'[j]);
        CaseIsIgnored(mask, mask', str, str', i, j + 1);
        CaseIsIgnored(mask, mask', str, str', i + 1, j + 1);
      }
      SameCharacter(mask[i], mask'[i], 0, 0);
      CaseIsIgnored(mask, mask', str, str', i + 1, j);
    }
  }

  /** Writing mask and string in capitals changes no answer. */
  lemma CapitalsMatchAlike(mask: seq<byte>, str: seq<byte>)
    ensures Matches(IrcCase, IrcLine.UpperCase(mask), str, 0, 0) <==> Matches(IrcCase, mask, str, 0, 0)
    ensures Matches(IrcCase, mask, IrcLine.UpperCase(str), 0, 0) <==> Matches(IrcCase, mask, str, 0, 0)
  {
    forall s: seq<byte>
      ensures SameNames(s, s) && SameNames(IrcLine.UpperCase(s), s)
    {
      forall i | 0 <= i < |s|
        ensures IrcLine.Upper(IrcLine.UpperCase(s)[i]) == IrcLine.Upper(s[i])
      {
        TablesAgree(s[i]);
      }
    }
    CaseIsIgnored(IrcLine.UpperCase(mask), mask, str, str, 0, 0);
    CaseIsIgnored(mask, mask, IrcLine.UpperCase(str), str, 0, 0);
  }
}
