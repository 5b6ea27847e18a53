/**
 * The reference meaning of reading lines from a socket: one pass over the bytes, knowing nothing
 * of chunks, timeouts or push-back buffers.
 */
module LineStream {
  import opened Bytes

  /**
   * What a reader meets, in order: a byte, a moment at which nothing has arrived in time, a read
   * that fails without closing the socket, or the end that closes it.
   */
  datatype Item = Byte(b: byte) | Pause | Fault | End

  datatype Outcome = Line(text: seq<byte>) | TimedOut | SocketError

  datatype Step = Step(outcome: Outcome, partial: seq<byte>, rest: seq<Item>)

  predicate Dropped(b: byte) {
    b == CR || b == NUL
  }

  /** The byte ends the line: it is a line feed, or the line is longer than `max` already. */
  predicate Ends(partial: seq<byte>, b: byte, max: nat) {
    b == LF || |partial| > max
  }

  /** One call: consume items until a line, a pause or a failure. A closed socket is the stream [End]. */
  function Next(partial: seq<byte>, items: seq<Item>, max: nat): (r: Step)
    decreases |items|
  {
    if items == [] then Step(TimedOut, partial, [])
    else
      match items[0]
      case Pause => Step(TimedOut, partial, items[1..])
      case Fault => Step(if partial != [] then Line(partial) else SocketError, [], items[1..])
      case End => Step(if partial != [] then Line(partial) else SocketError, [], [End])
      case Byte(b) =>
        if Dropped(b) then Next(partial, items[1..], max)
        else if Ends(partial, b, max) then Step(Line(partial), [], items[1..])
        else Next(partial + [b], items[1..], max)
  }

  function AsItems(s: seq<byte>): (r: seq<Item>)
    ensures |r| == |s|
  {
    seq(|s|, i requires 0 <= i < |s| => Byte(s[i]))
  }

  lemma AsItemsFirst(s: seq<byte>, rest: seq<Item>)
    requires s != []
    ensures AsItems(s) + rest == [Byte(s[0])] + (AsItems(s[1..]) + rest)
  {
  }

  lemma NextByte(partial: seq<byte>, s: seq<byte>, rest: seq<Item>, max: nat)
    requires s != []
    ensures var tail := AsItems(s[1..]) + rest;
            Next(partial, AsItems(s) + rest, max)
            == if Dropped(s[0]) then Next(partial, tail, max)
               else if Ends(partial, s[0], max) then Step(Line(partial), [], tail)
               else Next(partial + [s[0]], tail, max)
  {
    AsItemsFirst(s, rest);
    assert (AsItems(s) + rest)[1..] == AsItems(s[1..]) + rest;
  }

  /** Where no byte comes next. */
  lemma NextOther(partial: seq<byte>, items: seq<Item>, rest: seq<Item>, max: nat)
    ensures items == [Pause] + rest ==> Next(partial, items, max) == Step(TimedOut, partial, rest)
    ensures items == [Fault] + rest ==>
              Next(partial, items, max) == Step(if partial != [] then Line(partial) else SocketError, [], rest)
    ensures items != [] && items[0] == End ==>
              Next(partial, items, max) == Step(if partial != [] then Line(partial) else SocketError, [], [End])
  {
  }

  lemma AsItemsAppend(s: seq<byte>, t: seq<byte>)
    ensures AsItems(s + t) == AsItems(s) + AsItems(t)
  {
  }

  /** The bytes that arrive before the end. */
  function Text(items: seq<Item>): seq<byte>
    decreases |items|
  {
    if items == [] || items[0] == End then []
    else if items[0].Byte? then [items[0].b] + Text(items[1..])
    else Text(items[1..])
  }

  /** The whole stream in one fold: the lines of `text` when `partial` has been read already. */
  function Split(partial: seq<byte>, text: seq<byte>, max: nat, ended: bool): seq<seq<byte>>
    decreases |text|
  {
    if text == [] then
      if ended && partial != [] then [partial] else []
    else if Dropped(text[0]) then Split(partial, text[1..], max, ended)
    else if Ends(partial, text[0], max) then [partial] + Split([], text[1..], max, ended)
    else Split(partial + [text[0]], text[1..], max, ended)
  }

  /**
   * What arrives, cut at the reads that fail without closing the socket: there the reader hands out
   * the unfinished line.
   */
  function Sections(items: seq<Item>): (r: seq<seq<byte>>)
    ensures r != []
    decreases |items|
  {
    if items == [] then [[]]
    else
      match items[0]
      case Byte(b) => BeforeFirst([b], Sections(items[1..]))
      case Pause => Sections(items[1..])
      case Fault => [[]] + Sections(items[1..])
      case End => [[]]
  }

  /** More bytes at the front of the first section. */
  function BeforeFirst(s: seq<byte>, sections: seq<seq<byte>>): (r: seq<seq<byte>>)
    requires sections != []
    ensures r != []
  {
    [s + sections[0]] + sections[1..]
  }

  /** The fold of all sections; each but the last ends its last line. */
  function SplitAll(partial: seq<byte>, sections: seq<seq<byte>>, max: nat, ended: bool): seq<seq<byte>>
    requires sections != []
    decreases |sections|
  {
    if |sections| == 1 then Split(partial, sections[0], max, ended)
    else Split(partial, sections[0], max, true) + SplitAll([], sections[1..], max, ended)
  }

  /** Where no read fails, there is one section, the text. */
  lemma {:induction false} OneSection(items: seq<Item>)
    requires Fault !in items
    ensures Sections(items) == [Text(items)]
    decreases |items|
  {
    if items != [] && items[0] != End {
      OneSection(items[1..]);
    }
  }

  /** One byte more in the first section. */
  lemma SplitAllByte(partial: seq<byte>, b: byte, sections: seq<seq<byte>>, max: nat, ended: bool)
    requires sections != []
    ensures SplitAll(partial, BeforeFirst([b], sections), max, ended)
            == if Dropped(b) then SplitAll(partial, sections, max, ended)
               else if Ends(partial, b, max) then [partial] + SplitAll([], sections, max, ended)
               else SplitAll(partial + [b], sections, max, ended)
  {
    var first, later := sections[0], sections[1..];
    var all := BeforeFirst([b], sections);
    assert all[0] == [b] + first && all[1..] == later && ([b] + first)[1..] == first;
    if later != [] && !Dropped(b) && Ends(partial, b, max) {
      assert [partial] + Split([], first, max, true) + SplitAll([], later, max, ended)
          == [partial] + (Split([], first, max, true) + SplitAll([], later, max, ended));
    }
  }

  /** A failed read ends the unfinished line. */
  lemma SplitAllFault(partial: seq<byte>, sections: seq<seq<byte>>, max: nat, ended: bool)
    requires sections != []
    ensures SplitAll(partial, [[]] + sections, max, ended)
            == (if partial != [] then [partial] else []) + SplitAll([], sections, max, ended)
  {
    assert ([[]] + sections)[1..] == sections;
  }

  /** The lines that `n` successive calls return, and the state they leave. */
  function Run(partial: seq<byte>, items: seq<Item>, max: nat, n: nat): (r: (seq<seq<byte>>, seq<byte>, seq<Item>))
    decreases n
  {
    if n == 0 then ([], partial, items)
    else
      var s := Next(partial, items, max);
      var r := Run(s.partial, s.rest, max, n - 1);
      (if s.outcome.Line? then [s.outcome.text] + r.0 else r.0, r.1, r.2)
  }

  /** One call takes from the fold exactly the line it returns. */
  lemma {:induction false} NextTakesOneLine(partial: seq<byte>, items: seq<Item>, max: nat)
    ensures var s := Next(partial, items, max);
            && (End in items <==> End in s.rest)
            && SplitAll(partial, Sections(items), max, End in items)
               == (if s.outcome.Line? then [s.outcome.text] else [])
                  + SplitAll(s.partial, Sections(s.rest), max, End in items)
    decreases |items|
  {
    if items != [] {
      var rest := items[1..];
      assert items == [items[0]] + rest;
      match items[0]
      case Byte(b) =>
        SplitAllByte(partial, b, Sections(rest), max, End in items);
        if Dropped(b) {
          NextTakesOneLine(partial, rest, max);
        } else if !Ends(partial, b, max) {
          NextTakesOneLine(partial + [b], rest, max);
        }
      case Fault => SplitAllFault(partial, Sections(rest), max, End in items);
      case End =>
      case Pause =>
    }
  }

  /**
   * Nothing is lost, repeated or reordered: after any number of calls the lines returned so far,
   * followed by the fold of what is left, are the fold of the whole stream.
   */
  lemma {:induction false} RunConservesLines(partial: seq<byte>, items: seq<Item>, max: nat, n: nat)
    ensures var r := Run(partial, items, max, n);
            && (End in items <==> End in r.2)
            && SplitAll(partial, Sections(items), max, End in items)
               == r.0 + SplitAll(r.1, Sections(r.2), max, End in items)
    decreases n
  {
    if n > 0 {
      NextTakesOneLine(partial, items, max);
      var s := Next(partial, items, max);
      RunConservesLines(s.partial, s.rest, max, n - 1);
      var r := Run(s.partial, s.rest, max, n - 1);
      var first := if s.outcome.Line? then [s.outcome.text] else [];
      var left := SplitAll(r.1, Sections(r.2), max, End in items);
      assert first + (r.0 + left) == first + r.0 + left;
    }
  }

  /** The limit bounds the line returned and the line kept. */
  lemma {:induction false} NextIsBounded(partial: seq<byte>, items: seq<Item>, max: nat)
    requires |partial| <= max + 1
    ensures var s := Next(partial, items, max);
            |s.partial| <= max + 1 && (s.outcome.Line? ==> |s.outcome.text| <= max + 1)
    decreases |items|
  {
    if items != [] && items[0].Byte? {
      if Dropped(items[0].b) {
        NextIsBounded(partial, items[1..], max);
      } else if !Ends(partial, items[0].b, max) {
        NextIsBounded(partial + [items[0].b], items[1..], max);
      }
    }
  }

  /** A call consumes something, unless the socket is closed. */
  lemma {:induction false} NextProgresses(partial: seq<byte>, items: seq<Item>, max: nat)
    requires End in items
    ensures var s := Next(partial, items, max);
            && End in s.rest
            && (|s.rest| < |items| || (s.rest == [End] && s.partial == []))
    decreases |items|
  {
    var rest := items[1..];
    assert items == [items[0]] + rest;
    if items[0].Byte? {
      if Dropped(items[0].b) {
        NextProgresses(partial, rest, max);
      } else if !Ends(partial, items[0].b, max) {
        NextProgresses(partial + [items[0].b], rest, max);
      }
    }
  }

  lemma {:induction false} RunReachesEnd(partial: seq<byte>, items: seq<Item>, max: nat, n: nat)
    requires End in items && (n > |items| || (items == [End] && partial == []))
    ensures Run(partial, items, max, n).1 == [] && Run(partial, items, max, n).2 == [End]
    decreases n
  {
    if n > 0 {
      NextProgresses(partial, items, max);
      var s := Next(partial, items, max);
      RunReachesEnd(s.partial, s.rest, max, n - 1);
    }
  }

  /**
   * However the bytes arrive, reading until the socket closes returns the fold of the bytes: two
   * streams that carry the same bytes between failed reads yield the same lines.
   */
  lemma RunReturnsTheFold(items: seq<Item>, max: nat, n: nat)
    requires End in items && n > |items|
    ensures Run([], items, max, n).0 == SplitAll([], Sections(items), max, true)
  {
    RunConservesLines([], items, max, n);
    RunReachesEnd([], items, max, n);
  }

  // ----- a caller that stops at the first failure

  function NonEmpty(lines: seq<seq<byte>>): seq<seq<byte>> {
    if lines == [] then [] else (if lines[0] != [] then [lines[0]] else []) + NonEmpty(lines[1..])
  }

  /** What up to `n` calls give a caller that skips empty lines and stops when the socket is gone. */
  function Received(partial: seq<byte>, items: seq<Item>, max: nat, n: nat):
      (r: (seq<seq<byte>>, seq<byte>, seq<Item>, bool))
    decreases n
  {
    if n == 0 then ([], partial, items, false)
    else
      var s := Next(partial, items, max);
      if s.outcome.SocketError? then ([], s.partial, s.rest, true)
      else
        var r := Received(s.partial, s.rest, max, n - 1);
        if s.outcome.Line? && s.outcome.text != [] then ([s.outcome.text] + r.0, r.1, r.2, r.3) else r
  }

  lemma {:induction false} NothingAfterEnd(max: nat, n: nat)
    ensures Run([], [End], max, n).0 == []
    decreases n
  {
    if n > 0 {
      NothingAfterEnd(max, n - 1);
    }
  }

  lemma NonEmptyCons(line: seq<byte>, lines: seq<seq<byte>>)
    ensures NonEmpty([line] + lines) == (if line != [] then [line] else []) + NonEmpty(lines)
  {
    assert ([line] + lines)[1..] == lines;
  }

  lemma {:induction false} NextKeepsFaultFree(partial: seq<byte>, items: seq<Item>, max: nat)
    requires Fault !in items
    ensures var s := Next(partial, items, max);
            && Fault !in s.rest
            && (s.outcome.SocketError? ==> s.partial == [] && s.rest == [End])
    decreases |items|
  {
    if items != [] && items[0].Byte? {
      var b := items[0].b;
      if Dropped(b) {
        NextKeepsFaultFree(partial, items[1..], max);
      } else if !Ends(partial, b, max) {
        NextKeepsFaultFree(partial + [b], items[1..], max);
      }
    }
  }

  /** Such a caller misses nothing but empty lines, as long as no read fails without closing. */
  lemma {:induction false} ReceivedIsRun(partial: seq<byte>, items: seq<Item>, max: nat, n: nat)
    requires Fault !in items
    ensures Received(partial, items, max, n).0 == NonEmpty(Run(partial, items, max, n).0)
    decreases n
  {
    if n > 0 {
      var s := Next(partial, items, max);
      NextKeepsFaultFree(partial, items, max);
      if s.outcome.SocketError? {
        NothingAfterEnd(max, n - 1);
      } else {
        ReceivedIsRun(s.partial, s.rest, max, n - 1);
        if s.outcome.Line? {
          NonEmptyCons(s.outcome.text, Run(s.partial, s.rest, max, n - 1).0);
        }
      }
    }
  }

  /** With failed reads, it gets a beginning of the lines. */
  lemma {:induction false} ReceivedIsABeginning(partial: seq<byte>, items: seq<Item>, max: nat, n: nat)
    ensures Received(partial, items, max, n).0 <= NonEmpty(Run(partial, items, max, n).0)
    decreases n
  {
    if n > 0 {
      var s := Next(partial, items, max);
      if !s.outcome.SocketError? {
        ReceivedIsABeginning(s.partial, s.rest, max, n - 1);
        if s.outcome.Line? {
          NonEmptyCons(s.outcome.text, Run(s.partial, s.rest, max, n - 1).0);
        }
      }
    }
  }

  /** On a socket that closes, it does stop. */
  lemma {:induction false} ReceivingEnds(partial: seq<byte>, items: seq<Item>, max: nat, n: nat)
    requires End in items && (n > |items| || (n > 0 && items == [End] && partial == []))
    ensures Received(partial, items, max, n).3
    decreases n
  {
    var s := Next(partial, items, max);
    if !s.outcome.SocketError? {
      NextProgresses(partial, items, max);
      ReceivingEnds(s.partial, s.rest, max, n - 1);
    }
  }

  // ----- what the fold means

  function Kept(text: seq<byte>): seq<byte> {
    if text == [] then [] else (if Dropped(text[0]) then [] else [text[0]]) + Kept(text[1..])
  }

  /** The lines written one after the other, each followed by a line feed. */
  function Terminated(lines: seq<seq<byte>>): seq<byte> {
    if lines == [] then [] else lines[0] + ([LF] + Terminated(lines[1..]))
  }

  /** Every line of at most `max` + 1 bytes that holds no CR, LF or NUL. */
  ghost predicate CleanLine(line: seq<byte>, max: nat) {
    |line| <= max + 1 && CR !in line && LF !in line && NUL !in line
  }

  lemma {:induction false} SplitLinesAreClean(partial: seq<byte>, text: seq<byte>, max: nat, ended: bool)
    requires CleanLine(partial, max)
    ensures forall line :: line in Split(partial, text, max, ended) ==> CleanLine(line, max)
    decreases |text|
  {
    if text != [] {
      if Dropped(text[0]) {
        SplitLinesAreClean(partial, text[1..], max, ended);
      } else if Ends(partial, text[0], max) {
        SplitLinesAreClean([], text[1..], max, ended);
      } else {
        SplitLinesAreClean(partial + [text[0]], text[1..], max, ended);
      }
    }
  }

  /** So it is with every section. */
  lemma {:induction false} AllLinesAreClean(partial: seq<byte>, sections: seq<seq<byte>>, max: nat, ended: bool)
    requires sections != [] && CleanLine(partial, max)
    ensures forall line :: line in SplitAll(partial, sections, max, ended) ==> CleanLine(line, max)
    decreases |sections|
  {
    SplitLinesAreClean(partial, sections[0], max, if |sections| == 1 then ended else true);
    if |sections| > 1 {
      AllLinesAreClean([], sections[1..], max, ended);
    }
  }

  /** No line of the text is so long that the limit cuts it. */
  ghost predicate WithinLimit(partial: seq<byte>, text: seq<byte>, max: nat)
    decreases |text|
  {
    if text == [] then true
    else if Dropped(text[0]) then WithinLimit(partial, text[1..], max)
    else if text[0] == LF then WithinLimit([], text[1..], max)
    else |partial| <= max && WithinLimit(partial + [text[0]], text[1..], max)
  }

  /** The text with a line feed added if its last line lacks one. */
  function WithFinalLF(text: seq<byte>): seq<byte> {
    if text == [] || text[|text| - 1] == LF then text else text + [LF]
  }

  lemma FinalLFAfterLine(line: seq<byte>, tail: seq<byte>)
    ensures WithFinalLF(line + ([LF] + tail)) == line + ([LF] + WithFinalLF(tail))
  {
    var text := line + ([LF] + tail);
    if tail != [] {
      assert text[|text| - 1] == tail[|tail| - 1];
    }
  }

  lemma SplitAtLF(partial: seq<byte>, text: seq<byte>, max: nat)
    requires text != [] && text[0] == LF
    ensures Terminated(Split(partial, text, max, true))
            == partial + ([LF] + Terminated(Split([], text[1..], max, true)))
  {
    assert ([partial] + Split([], text[1..], max, true))[1..] == Split([], text[1..], max, true);
  }

  /** One line feed of the text is one line of the result. */
  lemma JoinedAtLF(partial: seq<byte>, text: seq<byte>, max: nat)
    requires text != [] && text[0] == LF
    requires Terminated(Split([], text[1..], max, true)) == WithFinalLF(Kept(text[1..]))
    ensures Terminated(Split(partial, text, max, true)) == WithFinalLF(partial + Kept(text))
  {
    SplitAtLF(partial, text, max);
    FinalLFAfterLine(partial, Kept(text[1..]));
    assert Kept(text) == [LF] + Kept(text[1..]);
  }

  lemma JoinedAtEnd(partial: seq<byte>, max: nat)
    requires LF !in partial
    ensures Terminated(Split(partial, [], max, true)) == WithFinalLF(partial + Kept([]))
  {
    assert partial + Kept([]) == partial;
    if partial != [] {
      assert Split(partial, [], max, true) == [partial];
      assert Terminated([partial]) == partial + ([LF] + Terminated([])) == partial + [LF];
      assert partial[|partial| - 1] in partial;
    }
  }

  lemma KeptMoves(partial: seq<byte>, text: seq<byte>)
    requires text != [] && !Dropped(text[0])
    ensures partial + [text[0]] + Kept(text[1..]) == partial + Kept(text)
  {
    assert Kept(text) == [text[0]] + Kept(text[1..]);
  }

  /** Where the limit cuts nothing, the lines are the text: joining them gives it back. */
  lemma {:induction false} SplitInvertsTerminated(partial: seq<byte>, text: seq<byte>, max: nat)
    requires WithinLimit(partial, text, max) && LF !in partial
    ensures Terminated(Split(partial, text, max, true)) == WithFinalLF(partial + Kept(text))
    decreases |text|
  {
    if text == [] {
      JoinedAtEnd(partial, max);
    } else if Dropped(text[0]) {
      SplitInvertsTerminated(partial, text[1..], max);
      assert Kept(text) == Kept(text[1..]);
    } else if text[0] == LF {
      SplitInvertsTerminated([], text[1..], max);
      assert [] + Kept(text[1..]) == Kept(text[1..]);
      JoinedAtLF(partial, text, max);
    } else {
      SplitInvertsTerminated(partial + [text[0]], text[1..], max);
      KeptMoves(partial, text);
    }
  }
}
