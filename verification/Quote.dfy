/** irc.cpp: quote turns a line of text into one protocol line, which readline gives back. */
module Quote {
  import opened Bytes
  import opened LineStream
  import TcpSock

  const IRC_MAX_LINE_SIZE := 510
  const CRLF: seq<byte> := [CR, LF]

  /** The text without its line breaks. */
  function Sanitised(line: seq<byte>): (r: seq<byte>)
    ensures IsCString(line) ==> IsCString(r)
    ensures CR !in r && LF !in r
  {
    if line == [] then []
    else (if line[0] == CR || line[0] == LF then [] else [line[0]]) + Sanitised(line[1..])
  }

  function Truncated(s: seq<byte>, n: nat): seq<byte> {
    if |s| <= n then s else s[..n]
  }

  /** What one protocol line carries of `line`. */
  function Payload(line: seq<byte>): (r: seq<byte>)
    requires IsCString(line)
    ensures CleanLine(r, IRC_MAX_LINE_SIZE - 1)
  {
    Truncated(Sanitised(line), IRC_MAX_LINE_SIZE)
  }

  lemma {:induction false} SanitisedAppend(s: seq<byte>, t: seq<byte>)
    ensures Sanitised(s + t) == Sanitised(s) + Sanitised(t)
    decreases |s|
  {
    if s == [] {
      assert s + t == t;
    } else {
      assert (s + t)[1..] == s[1..] + t;
      SanitisedAppend(s[1..], t);
    }
  }

  /** What the copying loop has when it stops: at the NUL, or with a full buffer. */
  lemma PayloadRead(line: seq<byte>, src: nat, text: seq<byte>, c: byte)
    requires IsCString(line) && src <= |line| && text == Sanitised(line[..src])
    requires if |text| == IRC_MAX_LINE_SIZE then c != NUL else |text| < IRC_MAX_LINE_SIZE && src == |line| && c == NUL
    ensures Payload(line) == text
    ensures c != NUL <==> |Sanitised(line)| >= IRC_MAX_LINE_SIZE
  {
    assert line == line[..src] + line[src..];
    SanitisedAppend(line[..src], line[src..]);
  }

  /** What one turn of the copying loop adds to the text. */
  lemma SanitisedNext(line: seq<byte>, src: nat)
    requires src < |line|
    ensures Sanitised(line[..src + 1])
            == Sanitised(line[..src]) + if line[src] == CR || line[src] == LF then [] else [line[src]]
  {
    assert line[..src + 1] == line[..src] + [line[src]];
    SanitisedAppend(line[..src], [line[src]]);
    assert Sanitised([]) == [];
  }

  /** Every byte stays but line feeds and carriage returns, which go. */
  lemma {:induction false} SanitisedKeeps(line: seq<byte>)
    requires 10 !in line && 13 !in line
    ensures Sanitised(line) == line
    decreases |line|
  {
    if line != [] {
      assert line[0] in line && forall x :: x in line[1..] ==> x in line;
      SanitisedKeeps(line[1..]);
    }
  }

  lemma SanitisedDrops(before: seq<byte>, after: seq<byte>, c: byte)
    requires c == 10 || c == 13
    ensures Sanitised(before + [c] + after) == Sanitised(before + after)
  {
    SanitisedAppend(before + [c], after);
    SanitisedAppend(before, after);
    assert Sanitised(before + [c]) == Sanitised(before) by {
      SanitisedAppend(before, [c]);
      assert Sanitised([c]) == [] + Sanitised([]) == [];
    }
  }

  /** One protocol line: at most 512 bytes, ended by its only line break (section 2.3 of RFC 2812). */
  lemma ProtocolLine(line: seq<byte>)
    requires IsCString(line)
    ensures var text := Payload(line);
            && Payload(line) + CRLF == text + [13, 10] && |text + CRLF| <= 512
            && 10 !in text && 13 !in text && 0 !in text
            && text == if |Sanitised(line)| <= 510 then Sanitised(line) else Sanitised(line)[..510]
  {
  }

  /**
   * quote. The line queued is the payload and CRLF. The result is -1 as soon as the payload is
   * 510 bytes long, also when nothing was cut off: the loop then stops before it sees the NUL.
   */
  method Quote(connected: bool, line: seq<byte>) returns (ret: int, queued: seq<byte>)
    requires IsCString(line)
    ensures !connected ==> ret == -1 && queued == []
    ensures connected ==> queued == Payload(line) + CRLF
    ensures connected ==> (ret == -1 <==> |Sanitised(line)| >= 510) && (ret == 0 || ret == -1)
  {
    if !connected {
      return -1, [];
    }
    var buf := new byte[IRC_MAX_LINE_SIZE + 3](_ => 0);
    var src, len := 0, 0;
    var c := NUL;
    while len < IRC_MAX_LINE_SIZE
      invariant src <= |line| && 0 <= len <= IRC_MAX_LINE_SIZE
      invariant buf[..len] == Sanitised(line[..src])
      invariant len == IRC_MAX_LINE_SIZE ==> c != NUL
      decreases |line| - src
    {
      c := At(line, src);
      if c == NUL {
        break;
      }
      SanitisedNext(line, src);
      src := src + 1;
      if c == LF || c == CR {
        continue;
      }
      buf[len] := c;
      len := len + 1;
    }
    ghost var text := buf[..len];
    PayloadRead(line, src, text, c);
    buf[len], buf[len + 1], buf[len + 2] := CR, LF, NUL;
    assert buf[..len] == text;
    queued := buf[..len + 2];
    ret := if c != NUL then -1 else 0;
  }

  /** The bytes on the wire when the lines are sent one after the other. */
  function Sent(lines: seq<seq<byte>>): seq<byte>
    requires forall line :: line in lines ==> IsCString(line)
  {
    if lines == [] then [] else Payload(lines[0]) + CRLF + Sent(lines[1..])
  }

  function Payloads(lines: seq<seq<byte>>): (r: seq<seq<byte>>)
    requires forall line :: line in lines ==> IsCString(line)
    ensures |r| == |lines|
    ensures forall i :: 0 <= i < |lines| ==> r[i] == Payload(lines[i])
  {
    if lines == [] then [] else [Payload(lines[0])] + Payloads(lines[1..])
  }

  lemma {:induction false} SplitOneLine(partial: seq<byte>, text: seq<byte>, rest: seq<byte>, max: nat, ended: bool)
    requires CleanLine(partial + text, max)
    ensures Split(partial, text + CRLF + rest, max, ended) == [partial + text] + Split([], rest, max, ended)
    decreases |text|
  {
    var all := text + CRLF + rest;
    if text == [] {
      assert all == [CR, LF] + rest;
      assert all[1..] == [LF] + rest && all[1..][1..] == rest;
      assert partial + text == partial;
      assert Split(partial, all, max, ended) == Split(partial, all[1..], max, ended);
    } else {
      assert text[0] == (partial + text)[|partial|];
      assert all[1..] == text[1..] + CRLF + rest;
      assert partial + [text[0]] + text[1..] == partial + text;
      SplitOneLine(partial + [text[0]], text[1..], rest, max, ended);
    }
  }

  lemma {:induction false} SplitSent(lines: seq<seq<byte>>, max: nat)
    requires forall line :: line in lines ==> IsCString(line) && |Payload(line)| <= max + 1
    ensures Split([], Sent(lines), max, true) == Payloads(lines)
    decreases |lines|
  {
    if lines != [] {
      var text := Payload(lines[0]);
      assert [] + text == text;
      SplitOneLine([], text, Sent(lines[1..]), max, true);
      SplitSent(lines[1..], max);
    }
  }

  /**
   * Framing round trip: reading back what was sent gives the payloads in order exactly when the
   * reader's limit leaves room for the longest of them.
   */
  lemma SentIsReadBack(lines: seq<seq<byte>>, max: nat)
    requires forall line :: line in lines ==> IsCString(line)
    ensures Split([], Sent(lines), max, true) == Payloads(lines)
            <==> forall line :: line in lines ==> |Payload(line)| <= max + 1
  {
    if forall line :: line in lines ==> |Payload(line)| <= max + 1 {
      SplitSent(lines, max);
    } else {
      var i :| 0 <= i < |lines| && |Payload(lines[i])| > max + 1;
      SplitLinesAreClean([], Sent(lines), max, true);
      assert Payloads(lines)[i] in Payloads(lines);
    }
  }

  /** The same over a connection, however its bytes arrive and whatever is timed out in between. */
  lemma ConnectionDeliversLines(lines: seq<seq<byte>>, wire: seq<TcpSock.Arrival>, max: nat, n: nat)
    requires forall line :: line in lines ==> IsCString(line)
    requires TcpSock.Closed in wire && TcpSock.Carried(wire) == [Sent(lines)]
    requires max >= IRC_MAX_LINE_SIZE - 1 && n > |TcpSock.Items(wire)|
    ensures Run([], TcpSock.Items(wire), max, n).0 == Payloads(lines)
  {
    TcpSock.CuttingIsInvisible(wire, max, n);
    SplitSent(lines, max);
  }
}
