/** Hangul syllables as packed numbers, and the two tables of ChoseongTrifler.php and JongseongTrifler.php. */
module Hangul {
  const FIRST := 44032
  const LAST := 55203

  predicate IsSyllable(cp: int) {
    FIRST <= cp <= LAST
  }

  type initial = f: int | 0 <= f < 19
  type medial = m: int | 0 <= m < 21
  type final = e: int | 0 <= e < 28

  /** Initial consonant, vowel, final consonant. */
  datatype Syllable = Syllable(f: initial, m: medial, e: final)

  function Disorganize(cp: int): (s: Syllable)
    requires IsSyllable(cp)
    ensures Organize(s) == cp
  {
    var n := cp - FIRST;
    var e := n % 28;
    var m := (n - e) / 28 % 21;
    var f := (n - (m * 28 + e)) / 588;
    Quotients(n);
    Syllable(f, m, e)
  }

  /** The places of a number in the mixed base of syllables. */
  lemma Quotients(n: int)
    requires 0 <= n <= LAST - FIRST
    ensures var e := n % 28;
            var m := (n - e) / 28 % 21;
            var f := (n - (m * 28 + e)) / 588;
            0 <= e < 28 && 0 <= m < 21 && 0 <= f < 19 && n == f * 588 + m * 28 + e
  {
    var e, q := n % 28, n / 28;
    assert n == q * 28 + e;
    ByTwentyEight(q, e);
    var m, f := q % 21, q / 21;
    assert q == f * 21 + m;
    assert n - (m * 28 + e) == f * 588;
    BySyllables(f);
  }

  lemma ByTwentyEight(q: int, e: int)
    requires 0 <= e < 28
    ensures (q * 28 + e - e) / 28 == q
  {
  }

  lemma BySyllables(f: int)
    ensures f * 588 / 588 == f
  {
  }

  function Organize(s: Syllable): (cp: int)
    ensures IsSyllable(cp)
  {
    s.f * 588 + s.m * 28 + s.e + FIRST
  }

  lemma DisorganizeInverts(s: Syllable)
    ensures Disorganize(Organize(s)) == s
  {
    var t := Disorganize(Organize(s));
    SameNumber(t, s);
  }

  /** The arithmetic composition of section 3.12 of the Unicode standard. */
  lemma Composition(s: Syllable)
    ensures Organize(s) == 0xAC00 + (s.f * 21 + s.m) * 28 + s.e
  {
  }

  lemma SameNumber(s: Syllable, t: Syllable)
    requires Organize(s) == Organize(t)
    ensures s == t
  {
    var low, low' := s.m * 28 + s.e, t.m * 28 + t.e;
    assert 0 <= low < 588 && 0 <= low' < 588;
    assert (s.f - t.f) * 588 == low' - low;
    assert s.f == t.f;
    assert (s.m - t.m) * 28 == t.e - s.e;
  }

  datatype Rule = Choseong | Jongseong

  datatype Pair = None | Pair(e: final, f: initial)

  /** $ConversionData of ChoseongTrifler.php: the final that absorbs the next initial. */
  function Absorb(e: final, f: initial): (r: Pair) {
    if e == 0 then
      if f == 0 then Pair(1, 11) else if f == 1 then Pair(2, 11) else if f == 2 then Pair(4, 11)
      else if f == 3 then Pair(7, 11) else if f == 5 then Pair(8, 11) else if f == 6 then Pair(16, 11)
      else if f == 7 then Pair(17, 11) else if f == 9 then Pair(19, 11) else if f == 10 then Pair(20, 11)
      else if f == 12 then Pair(22, 11) else if f == 14 then Pair(23, 11) else if f == 15 then Pair(24, 11)
      else if f == 16 then Pair(25, 11) else if f == 17 then Pair(26, 11) else None
    else if e == 1 then
      if f == 9 then Pair(3, 11) else None
    else if e == 4 then
      if f == 12 then Pair(5, 11) else None
    else if e == 8 then
      if f == 0 then Pair(9, 11) else if f == 6 then Pair(10, 11) else if f == 7 then Pair(11, 11)
      else if f == 9 then Pair(12, 11) else if f == 16 then Pair(13, 11) else if f == 17 then Pair(14, 11) else None
    else if e == 17 then
      if f == 9 then Pair(18, 11) else None
    else None
  }

  /** $ConversionData of JongseongTrifler.php: what the final leaves behind, and the initial it becomes. */
  function Release(e: final): (r: Pair) {
    if e == 1 then Pair(0, 0) else if e == 2 then Pair(0, 1) else if e == 3 then Pair(1, 9)
    else if e == 4 then Pair(0, 2) else if e == 5 then Pair(4, 12) else if e == 7 then Pair(0, 3)
    else if e == 8 then Pair(0, 5) else if e == 9 then Pair(8, 0) else if e == 10 then Pair(8, 6)
    else if e == 11 then Pair(8, 7) else if e == 12 then Pair(8, 9) else if e == 13 then Pair(8, 16)
    else if e == 14 then Pair(8, 17) else if e == 16 then Pair(0, 6) else if e == 17 then Pair(0, 7)
    else if e == 18 then Pair(17, 9) else if e == 19 then Pair(0, 9) else if e == 20 then Pair(0, 10)
    else if e == 22 then Pair(0, 12) else if e == 23 then Pair(0, 14) else if e == 24 then Pair(0, 15)
    else if e == 25 then Pair(0, 16) else if e == 26 then Pair(0, 17)
    else None
  }

  /** The vowels before which a dental would palatalise. */
  predicate Palatal(m: medial) {
    m == 2 || m == 3 || m == 6 || m == 7 || m == 12 || m == 17 || m == 20
  }

  /** What one boundary becomes: final `e`, then initial `f` and medial `m` of the next syllable. */
  function Shift(rule: Rule, e: final, f: initial, m: medial): (r: Pair)
    ensures r.Pair?
  {
    match rule
    case Choseong =>
      var p := Absorb(e, f);
      if p.Pair? && !((f == 3 || f == 16) && Palatal(m)) then p else Pair(e, f)
    case Jongseong =>
      var p := Release(e);
      if p.Pair? && f == 11 && !((e == 7 || e == 25) && Palatal(m)) then p else Pair(e, f)
  }

  function Again(rule: Rule, p: Pair, m: medial): Pair
    requires p.Pair?
  {
    Shift(rule, p.e, p.f, m)
  }

  /** Which boundaries the first script leaves to the vowel, and what it makes of the others. */
  lemma ChoseongShifts(e: final, f: initial, m: medial)
    ensures Absorb(e, f).None? ==> Shift(Choseong, e, f, m) == Pair(e, f)
    ensures Absorb(e, f).Pair? ==>
              Shift(Choseong, e, f, m)
              == if f in {3, 16} && m in {2, 3, 6, 7, 12, 17, 20} then Pair(e, f) else Absorb(e, f)
  {
  }

  /** And the second; before an initial other than 11 it does nothing. */
  lemma JongseongShifts(e: final, f: initial, m: medial)
    ensures f != 11 || e in {0, 6, 15, 21, 27} ==> Shift(Jongseong, e, f, m) == Pair(e, f)
    ensures f == 11 && e !in {0, 6, 15, 21, 27} ==>
              Shift(Jongseong, e, f, m)
              == if e in {7, 25} && m in {2, 3, 6, 7, 12, 17, 20} then Pair(e, f) else Release(e)
    ensures Release(e).Pair? <==> e !in {0, 6, 15, 21, 27}
  {
  }

  // ----- the tables by letters

  /** The letter of an initial consonant, in the order of the Unicode standard. */
  function Letter(f: initial): char {
    if f == 0 then 'ㄱ' else if f == 1 then 'ㄲ' else if f == 2 then 'ㄴ' else if f == 3 then 'ㄷ'
    else if f == 4 then 'ㄸ' else if f == 5 then 'ㄹ' else if f == 6 then 'ㅁ' else if f == 7 then 'ㅂ'
    else if f == 8 then 'ㅃ' else if f == 9 then 'ㅅ' else if f == 10 then 'ㅆ' else if f == 11 then 'ㅇ'
    else if f == 12 then 'ㅈ' else if f == 13 then 'ㅉ' else if f == 14 then 'ㅊ' else if f == 15 then 'ㅋ'
    else if f == 16 then 'ㅌ' else if f == 17 then 'ㅍ' else 'ㅎ'
  }

  /** The letters of a final consonant: one or two, or none. */
  datatype Letters = Letters(first: char, second: char)

  const NONE := ' '

  function Spelled(e: final): Letters {
    if e == 0 then Letters(NONE, NONE) else if e == 1 then Letters('ㄱ', NONE)
    else if e == 2 then Letters('ㄲ', NONE) else if e == 3 then Letters('ㄱ', 'ㅅ')
    else if e == 4 then Letters('ㄴ', NONE) else if e == 5 then Letters('ㄴ', 'ㅈ')
    else if e == 6 then Letters('ㄴ', 'ㅎ') else if e == 7 then Letters('ㄷ', NONE)
    else if e == 8 then Letters('ㄹ', NONE) else if e == 9 then Letters('ㄹ', 'ㄱ')
    else if e == 10 then Letters('ㄹ', 'ㅁ') else if e == 11 then Letters('ㄹ', 'ㅂ')
    else if e == 12 then Letters('ㄹ', 'ㅅ') else if e == 13 then Letters('ㄹ', 'ㅌ')
    else if e == 14 then Letters('ㄹ', 'ㅍ') else if e == 15 then Letters('ㄹ', 'ㅎ')
    else if e == 16 then Letters('ㅁ', NONE) else if e == 17 then Letters('ㅂ', NONE)
    else if e == 18 then Letters('ㅂ', 'ㅅ') else if e == 19 then Letters('ㅅ', NONE)
    else if e == 20 then Letters('ㅆ', NONE) else if e == 21 then Letters('ㅇ', NONE)
    else if e == 22 then Letters('ㅈ', NONE) else if e == 23 then Letters('ㅊ', NONE)
    else if e == 24 then Letters('ㅋ', NONE) else if e == 25 then Letters('ㅌ', NONE)
    else if e == 26 then Letters('ㅍ', NONE) else Letters('ㅎ', NONE)
  }

  /** One letter more behind a final consonant. */
  function With(l: Letters, c: char): Letters
    requires l.second == NONE
  {
    if l.first == NONE then Letters(c, NONE) else Letters(l.first, c)
  }

  /**
   * What the first script absorbs: the final and the initial become the final that is written with
   * the letters of both. It does so wherever there is such a final, but for the silent initial and
   * the last one.
   */
  lemma AbsorbJoinsLetters(e: final, f: initial)
    ensures Absorb(e, f).Pair? ==>
              Spelled(e).second == NONE && Spelled(Absorb(e, f).e) == With(Spelled(e), Letter(f)) && f !in {11, 18}
  {
  }

  lemma LettersAreAbsorbed(e: final, f: initial, e': final)
    requires Spelled(e).second == NONE && Spelled(e') == With(Spelled(e), Letter(f)) && f !in {11, 18}
    ensures Absorb(e, f) == Pair(e', 11)
  {
  }

  /** The two tables are inverse to each other. */
  lemma TablesInvert(e: final, f: initial)
    ensures Absorb(e, f).Pair? <==> exists e': final :: Release(e') == Pair(e, f)
    ensures Absorb(e, f).Pair? ==> Absorb(e, f).f == 11 && Release(Absorb(e, f).e) == Pair(e, f)
    ensures Release(e).Pair? ==> Absorb(Release(e).e, Release(e).f) == Pair(e, 11)
  {
    ReleaseAfterAbsorb(e, f);
    AbsorbAfterRelease(e);
    if Absorb(e, f).Pair? {
      assert Release(Absorb(e, f).e) == Pair(e, f);
    }
    forall e': final | Release(e') == Pair(e, f)
      ensures Absorb(e, f).Pair?
    {
      AbsorbAfterRelease(e');
    }
  }

  lemma ReleaseAfterAbsorb(e: final, f: initial)
    ensures Absorb(e, f).Pair? ==> Absorb(e, f).f == 11 && Release(Absorb(e, f).e) == Pair(e, f)
  {
  }

  lemma AbsorbAfterRelease(e: final)
    ensures Release(e).Pair? ==> Absorb(Release(e).e, Release(e).f) == Pair(e, 11)
  {
  }

  /** Shifting a boundary forward undoes shifting it back. */
  lemma JongseongAfterChoseong(e: final, f: initial, m: medial)
    ensures Again(Jongseong, Shift(Choseong, e, f, m), m) == Shift(Jongseong, e, f, m)
  {
  }

  /** The other way round one boundary resists: the palatal test knows final 25 but not final 13. */
  lemma ChoseongAfterJongseong(e: final, f: initial, m: medial)
    ensures Again(Choseong, Shift(Jongseong, e, f, m), m) == Shift(Choseong, e, f, m)
            <==> !(e == 13 && f == 11 && m in {2, 3, 6, 7, 12, 17, 20})
  {
  }

  lemma ShiftIsIdempotent(rule: Rule, e: final, f: initial, m: medial)
    ensures Again(rule, Shift(rule, e, f, m), m) == Shift(rule, e, f, m)
  {
  }
}
