/** The in-place passes of ChoseongTrifler.php and JongseongTrifler.php over an array of code points. */
module Trifler {
  import opened Hangul

  /** Both sides of the boundary after position `i` are syllables. */
  predicate Joined(s: seq<int>, i: int) {
    0 <= i && i + 1 < |s| && IsSyllable(s[i]) && IsSyllable(s[i + 1])
  }

  /** What the boundary after `i` becomes, judged by the original text alone. */
  function Boundary(rule: Rule, s: seq<int>, i: int): (p: Pair)
    requires Joined(s, i)
    ensures p.Pair?
  {
    var next := Disorganize(s[i + 1]);
    Shift(rule, Disorganize(s[i]).e, next.f, next.m)
  }

  /** The syllable at `i` with the initial its left boundary leaves it. */
  function Half(rule: Rule, s: seq<int>, i: int): int
    requires 0 <= i < |s|
  {
    if Joined(s, i - 1) then Organize(Disorganize(s[i]).(f := Boundary(rule, s, i - 1).f)) else s[i]
  }

  /** The syllable at `i` with the initial and the final its two boundaries leave it. */
  function Out(rule: Rule, s: seq<int>, i: int): int
    requires 0 <= i < |s|
  {
    if Joined(s, i) then Organize(Disorganize(Half(rule, s, i)).(e := Boundary(rule, s, i).e)) else Half(rule, s, i)
  }

  /** All boundaries at once. */
  function Pass(rule: Rule, s: seq<int>): (r: seq<int>)
    ensures |r| == |s|
  {
    seq(|s|, i requires 0 <= i < |s| => Out(rule, s, i))
  }

  /** What the left boundary does touches neither vowel nor final, nor anything but syllables. */
  lemma HalfKeeps(rule: Rule, s: seq<int>, i: int)
    requires 0 <= i < |s|
    ensures var h := Half(rule, s, i);
            && (IsSyllable(h) <==> IsSyllable(s[i]))
            && (!IsSyllable(s[i]) ==> h == s[i])
            && (IsSyllable(s[i]) ==>
                  Disorganize(h) == Disorganize(s[i]).(f := if Joined(s, i - 1) then Boundary(rule, s, i - 1).f
                                                            else Disorganize(s[i]).f))
  {
    if Joined(s, i - 1) {
      DisorganizeInverts(Disorganize(s[i]).(f := Boundary(rule, s, i - 1).f));
    }
  }

  /** The three parts of the new syllable. */
  lemma OutKeeps(rule: Rule, s: seq<int>, i: int)
    requires 0 <= i < |s|
    ensures var o := Out(rule, s, i);
            && (IsSyllable(o) <==> IsSyllable(s[i]))
            && (!IsSyllable(s[i]) ==> o == s[i])
            && (IsSyllable(s[i]) ==>
                  Disorganize(o) == Syllable(
                    if Joined(s, i - 1) then Boundary(rule, s, i - 1).f else Disorganize(s[i]).f,
                    Disorganize(s[i]).m,
                    if Joined(s, i) then Boundary(rule, s, i).e else Disorganize(s[i]).e))
  {
    HalfKeeps(rule, s, i);
    if Joined(s, i) {
      DisorganizeInverts(Disorganize(Half(rule, s, i)).(e := Boundary(rule, s, i).e));
    }
  }

  /** What two neighbours become. */
  predicate Shifted(rule: Rule, s1: int, s2: int, left: int, right: int) {
    if IsSyllable(s1) && IsSyllable(s2) then
      var p, q := Disorganize(s1), Disorganize(s2);
      var b := Shift(rule, p.e, q.f, q.m);
      left == Organize(p.(e := b.e)) && right == Organize(q.(f := b.f))
    else
      left == s1 && right == s2
  }

  /** One turn of the loop: rewrite the two syllables around a boundary. */
  method ShiftBoundary(rule: Rule, tmpStrg: array<int>, i: nat)
    requires i + 1 < tmpStrg.Length
    modifies tmpStrg
    ensures forall k :: 0 <= k < tmpStrg.Length && k != i && k != i + 1 ==> tmpStrg[k] == old(tmpStrg[k])
    ensures Shifted(rule, old(tmpStrg[i]), old(tmpStrg[i + 1]), tmpStrg[i], tmpStrg[i + 1])
  {
    var s1, s2 := tmpStrg[i], tmpStrg[i + 1];
    if IsSyllable(s1) && IsSyllable(s2) {
      var p, q := Disorganize(s1), Disorganize(s2);
      match rule
      case Choseong =>
        var c := Absorb(p.e, q.f);
        if c.Pair? {
          if (q.f == 3 || q.f == 16) && Palatal(q.m) {
            return;
          }
          tmpStrg[i] := Organize(p.(e := c.e));
          tmpStrg[i + 1] := Organize(q.(f := c.f));
        }
      case Jongseong =>
        var c := Release(p.e);
        if c.Pair? && q.f == 11 {
          if (p.e == 7 || p.e == 25) && Palatal(q.m) {
            return;
          }
          tmpStrg[i] := Organize(p.(e := c.e));
          tmpStrg[i + 1] := Organize(q.(f := c.f));
        }
    }
  }

  /** One turn finishes the syllable at `i` and half of the next, although it reads a rewritten one. */
  lemma TurnAgrees(rule: Rule, s: seq<int>, i: nat, left: int, right: int)
    requires i + 1 < |s| && Shifted(rule, Half(rule, s, i), s[i + 1], left, right)
    ensures left == Pass(rule, s)[i] && right == Half(rule, s, i + 1)
  {
    HalfKeeps(rule, s, i);
  }

  /** One turn, with everything before it finished and everything after it untouched. */
  method Turn(rule: Rule, tmpStrg: array<int>, i: nat, ghost s: seq<int>, ghost goal: seq<int>)
    requires i + 1 < tmpStrg.Length == |s| && goal == Pass(rule, s)
    requires tmpStrg[..i] == goal[..i] && tmpStrg[i] == Half(rule, s, i) && tmpStrg[i + 1..] == s[i + 1..]
    modifies tmpStrg
    ensures tmpStrg[..i + 1] == goal[..i + 1]
    ensures tmpStrg[i + 1] == Half(rule, s, i + 1) && tmpStrg[i + 2..] == s[i + 2..]
  {
    assert tmpStrg[i + 1] == tmpStrg[i + 1..][0];
    assert tmpStrg[i + 2..] == tmpStrg[i + 1..][1..] == s[i + 2..];
    ShiftBoundary(rule, tmpStrg, i);
    TurnAgrees(rule, s, i, tmpStrg[i], tmpStrg[i + 1]);
    assert tmpStrg[..i + 1] == tmpStrg[..i] + [tmpStrg[i]] && goal[..i + 1] == goal[..i] + [goal[i]];
  }

  /** The last syllable has no boundary after it. */
  lemma LastTurn(rule: Rule, s: seq<int>)
    requires |s| > 0
    ensures Half(rule, s, |s| - 1) == Pass(rule, s)[|s| - 1]
  {
  }

  /**
   * The loop of Trifle. Each turn reads the syllable that the turn before has rewritten, and the
   * result is nevertheless all boundaries judged on the original text.
   */
  method TriflePass(rule: Rule, tmpStrg: array<int>)
    modifies tmpStrg
    ensures tmpStrg[..] == Pass(rule, old(tmpStrg[..]))
  {
    ghost var s := tmpStrg[..];
    ghost var goal := Pass(rule, s);
    var total := tmpStrg.Length - 1;
    var i := 0;
    while i < total
      invariant 0 <= i && (i <= total || i == 0) && total == |s| - 1
      invariant tmpStrg[..i] == goal[..i]
      invariant i < |s| ==> tmpStrg[i] == Half(rule, s, i) && tmpStrg[i + 1..] == s[i + 1..]
    {
      Turn(rule, tmpStrg, i, s, goal);
      i := i + 1;
    }
    if total >= 0 {
      LastTurn(rule, s);
    }
  }

  /** A boundary of the new text: still a boundary, with the vowel it had. */
  lemma BoundaryAfter(rule: Rule, s: seq<int>, i: int)
    ensures var t := Pass(rule, s);
            && (Joined(t, i) <==> Joined(s, i))
            && (Joined(s, i) ==>
                  && Disorganize(t[i]).e == Boundary(rule, s, i).e
                  && Disorganize(t[i + 1]).f == Boundary(rule, s, i).f
                  && Disorganize(t[i + 1]).m == Disorganize(s[i + 1]).m)
  {
    if 0 <= i && i + 1 < |s| {
      OutKeeps(rule, s, i);
      OutKeeps(rule, s, i + 1);
    }
  }

  /** Every boundary of `s`, shifted by `first` and then by `second`, ends where `only` takes it. */
  ghost predicate BoundaryComposes(first: Rule, second: Rule, only: Rule, s: seq<int>, i: int) {
    Joined(s, i) ==>
      var m := Disorganize(s[i + 1]).m;
      Again(second, Boundary(first, s, i), m) == Boundary(only, s, i)
  }

  /** Two passes are one pass exactly when that holds boundary by boundary. */
  lemma PassesCompose(first: Rule, second: Rule, only: Rule, s: seq<int>)
    ensures Pass(second, Pass(first, s)) == Pass(only, s) <==> forall i :: BoundaryComposes(first, second, only, s, i)
  {
    var t := Pass(first, s);
    if forall i :: BoundaryComposes(first, second, only, s, i) {
      forall i | 0 <= i < |s|
        ensures Out(second, t, i) == Out(only, s, i)
      {
        assert BoundaryComposes(first, second, only, s, i - 1) && BoundaryComposes(first, second, only, s, i);
        SyllableComposes(first, second, only, s, i);
      }
    } else {
      var i :| !BoundaryComposes(first, second, only, s, i);
      BoundaryDiffers(first, second, only, s, i);
    }
  }

  lemma SyllableComposes(first: Rule, second: Rule, only: Rule, s: seq<int>, i: int)
    requires 0 <= i < |s|
    requires BoundaryComposes(first, second, only, s, i - 1) && BoundaryComposes(first, second, only, s, i)
    ensures Out(second, Pass(first, s), i) == Out(only, s, i)
  {
    var t := Pass(first, s);
    BoundaryAfter(first, s, i - 1);
    BoundaryAfter(first, s, i);
    OutKeeps(first, s, i);
    OutKeeps(second, t, i);
    OutKeeps(only, s, i);
    if IsSyllable(s[i]) {
      assert Disorganize(Out(second, t, i)) == Disorganize(Out(only, s, i));
      assert Organize(Disorganize(Out(second, t, i))) == Organize(Disorganize(Out(only, s, i)));
    }
  }

  lemma BoundaryDiffers(first: Rule, second: Rule, only: Rule, s: seq<int>, i: int)
    requires !BoundaryComposes(first, second, only, s, i)
    ensures Pass(second, Pass(first, s)) != Pass(only, s)
  {
    var t := Pass(first, s);
    BoundaryAfter(first, s, i);
    BoundaryAfter(second, t, i);
    BoundaryAfter(only, s, i);
  }

  /** Moving consonants back after moving them forward gives what moving them back alone gives. */
  lemma JongseongAbsorbsChoseong(s: seq<int>)
    ensures Pass(Jongseong, Pass(Choseong, s)) == Pass(Jongseong, s)
  {
    forall i
      ensures BoundaryComposes(Choseong, Jongseong, Jongseong, s, i)
    {
      if Joined(s, i) {
        var next := Disorganize(s[i + 1]);
        JongseongAfterChoseong(Disorganize(s[i]).e, next.f, next.m);
      }
    }
    PassesCompose(Choseong, Jongseong, Jongseong, s);
  }

  /** Final 13, initial 11 and a palatal vowel: the boundary that is not restored. */
  predicate Resists(s: seq<int>, i: int) {
    && Joined(s, i) && Disorganize(s[i]).e == 13
    && Disorganize(s[i + 1]).f == 11 && Disorganize(s[i + 1]).m in {2, 3, 6, 7, 12, 17, 20}
  }

  /** The other order loses nothing exactly when no boundary of that one kind occurs. */
  lemma ChoseongAbsorbsJongseong(s: seq<int>)
    ensures Pass(Choseong, Pass(Jongseong, s)) == Pass(Choseong, s) <==> forall i :: !Resists(s, i)
  {
    forall i
      ensures BoundaryComposes(Jongseong, Choseong, Choseong, s, i) <==> !Resists(s, i)
    {
      if Joined(s, i) {
        var next := Disorganize(s[i + 1]);
        ChoseongAfterJongseong(Disorganize(s[i]).e, next.f, next.m);
      }
    }
    PassesCompose(Jongseong, Choseong, Choseong, s);
    assert (forall i :: BoundaryComposes(Jongseong, Choseong, Choseong, s, i)) <==> (forall i :: !Resists(s, i));
  }

  /** Such a boundary: the final of the first syllable is split and not joined again. */
  lemma SomeTextResists()
    ensures var s := [Organize(Syllable(0, 0, 13)), Organize(Syllable(11, 2, 0))];
            && Resists(s, 0)
            && Pass(Choseong, s) == s
            && Pass(Choseong, Pass(Jongseong, s)) != s
  {
    var first, second := Syllable(0, 0, 13), Syllable(11, 2, 0);
    var s := [Organize(first), Organize(second)];
    DisorganizeInverts(first);
    DisorganizeInverts(second);
    ChoseongAbsorbsJongseong(s);
    assert Joined(s, 0) && Resists(s, 0);
    assert Boundary(Choseong, s, 0) == Pair(13, 11);
    OutKeeps(Choseong, s, 0);
    OutKeeps(Choseong, s, 1);
    assert Disorganize(Out(Choseong, s, 0)) == first && Disorganize(Out(Choseong, s, 1)) == second;
    assert Organize(Disorganize(Out(Choseong, s, 0))) == s[0] && Organize(Disorganize(Out(Choseong, s, 1))) == s[1];
    assert Pass(Choseong, s) == s;
  }

  lemma PassIsIdempotent(rule: Rule, s: seq<int>)
    ensures Pass(rule, Pass(rule, s)) == Pass(rule, s)
  {
    forall i
      ensures BoundaryComposes(rule, rule, rule, s, i)
    {
      if Joined(s, i) {
        var next := Disorganize(s[i + 1]);
        ShiftIsIdempotent(rule, Disorganize(s[i]).e, next.f, next.m);
      }
    }
    PassesCompose(rule, rule, rule, s);
  }

  /** Vowels, other characters and the places of syllables stay. */
  lemma PassKeeps(rule: Rule, s: seq<int>, i: int)
    requires 0 <= i < |s|
    ensures var o := Pass(rule, s)[i];
            && (IsSyllable(o) <==> IsSyllable(s[i]))
            && (if IsSyllable(s[i]) then Disorganize(o).m == Disorganize(s[i]).m else o == s[i])
  {
    OutKeeps(rule, s, i);
  }
}
