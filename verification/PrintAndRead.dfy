/** What my_vsnprintf prints for an int, my_atoi_base reads back. */
module PrintAndRead {
  import opened Bytes
  import opened Wrappers
  import opened Sink
  import opened Number
  import opened FormatSpec
  import opened Atoi

  const INT_MIN := -0x8000_0000

  /** The argument slot that holds an int. */
  function IntArg(n: int): Arg
    requires INT_MIN <= n <= INT_MAX
  {
    Word(if n < 0 then n + 0x1_0000_0000 else n)
  }

  const SIGNED := NO_FLAGS.(sign := true)
  const PERCENT_D: seq<byte> := [PERCENT, 100]

  lemma DecimalSpec(arg: Arg)
    ensures ScanSpec([100], [arg]) == Some(Spec(NO_FLAGS, -1, false, -1, NUL, [100], [arg]))
  {
    assert ScanFlags([100], NO_FLAGS) == (NO_FLAGS, [100]);
  }

  lemma DecimalConversion(w: word64)
    ensures Format(PERCENT_D, [Word(w)]) == Some(Text(Fetched(w, NUL, true), 10, -1, -1, SIGNED))
  {
    var text := Text(Fetched(w, NUL, true), 10, -1, -1, SIGNED);
    DecimalSpec(Word(w));
    assert [100][1..] == [] && [Word(w)][1..] == [] && PERCENT_D[1..] == [100];
    assert Directive([100], [Word(w)]) == Some(Piece(text, [], []));
    assert text + [] == text;
  }

  lemma DecimalFormat(n: int)
    requires INT_MIN <= n <= INT_MAX
    ensures var w := Fetched(IntArg(n).w, NUL, true);
            && Format(PERCENT_D, [IntArg(n)]) == Some(Text(w, 10, -1, -1, SIGNED))
            && Signed(w, SIGNED) == n
  {
    DecimalConversion(IntArg(n).w);
    IntArgIsSigned(n);
  }

  lemma IntArgIsSigned(n: int)
    requires INT_MIN <= n <= INT_MAX
    ensures Signed(Fetched(IntArg(n).w, NUL, true), SIGNED) == n
  {
  }

  /** A value that fits all along the way fits at its end. */
  lemma {:induction false} FitsAtTheEnd(s: seq<byte>, base: int, val: int)
    requires Fits(s, base, val)
    ensures Accumulate(s, base, val) <= INT_MAX
    decreases |s|
  {
    if s != [] && DigitValue(s[0], base) >= 0 {
      FitsAtTheEnd(s[1..], base, val * base + DigitValue(s[0], base));
    }
  }

  /**
   * Printing an int with %d and reading it in base 10 gives it back. Only for the least int does the
   * value without its sign exceed an int on the way.
   */
  lemma DecimalReadsBack(n: int)
    requires INT_MIN <= n <= INT_MAX
    ensures var text := Format(PERCENT_D, [IntArg(n)]);
            text.Some? && ValueOf(text.value, 10) == n && (Fits(Unsigned(text.value), 10, 0) <==> n != INT_MIN)
  {
    DecimalFormat(n);
    var w := Fetched(IntArg(n).w, NUL, true);
    var text := Text(w, 10, -1, -1, SIGNED);
    NumberReadsBack(w, 10, -1, -1, SIGNED);
    DigitsBeginWithDigit(Magnitude(w, SIGNED), 10, false);
    assert text[0] != SPACE;
    if n == INT_MIN {
      assert Accumulate(Unsigned(text), 10, 0) > INT_MAX;
      if Fits(Unsigned(text), 10, 0) {
        FitsAtTheEnd(Unsigned(text), 10, 0);
      }
    }
  }
}
