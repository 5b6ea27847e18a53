/** Messages of section 2.3.1 of RFC 2812, written out with one or more spaces between their parts. */
module IrcMessage {
  import opened Bytes
  import opened Wrappers
  import opened IrcLine

  datatype Message = Message(prefix: Option<seq<byte>>, command: seq<byte>, middles: seq<seq<byte>>,
                             trailing: Option<seq<byte>>)

  /** A part of a message other than its trailing text: not empty, and without space and NUL. */
  ghost predicate IsPart(t: seq<byte>) {
    t != [] && SPACE !in t && NUL !in t
  }

  /** A part that fits the token buffer. */
  ghost predicate IsToken(t: seq<byte>) {
    IsPart(t) && |t| <= MAX_TOKEN
  }

  /** Only a trailing part may be empty, hold spaces or begin with a colon. */
  ghost predicate Valid(m: Message) {
    && (m.prefix.Some? ==> IsPart(m.prefix.value))
    && IsPart(m.command) && (m.prefix.None? ==> m.command[0] != COLON)
    && (forall t :: t in m.middles ==> IsPart(t) && t[0] != COLON)
    && (m.trailing.Some? ==> NUL !in m.trailing.value)
  }

  /** Every part fits the token buffer. */
  ghost predicate Short(m: Message) {
    && (m.prefix.Some? ==> |m.prefix.value| <= MAX_TOKEN)
    && |m.command| <= MAX_TOKEN
    && forall t :: t in m.middles ==> |t| <= MAX_TOKEN
  }

  function Spaces(n: nat): (r: seq<byte>)
    ensures |r| == n && forall i :: 0 <= i < n ==> r[i] == SPACE
  {
    seq(n, _ => SPACE)
  }

  /** The middle parameters, each after one space and `extra` more. */
  function Middles(ts: seq<seq<byte>>, extra: seq<nat>): seq<byte>
    requires |extra| >= |ts|
  {
    if ts == [] then [] else Spaces(1 + extra[0]) + ts[0] + Middles(ts[1..], extra[1..])
  }

  /** The end of the line: a colon and free text, or any number of spaces. */
  function Ending(trailing: Option<seq<byte>>, extra: nat): seq<byte> {
    match trailing
    case Some(text) => Spaces(1 + extra) + [COLON] + text
    case None => Spaces(extra)
  }

  function Rendered(m: Message, afterPrefix: nat, extra: seq<nat>, last: nat): seq<byte>
    requires |extra| >= |m.middles|
  {
    (if m.prefix.Some? then [COLON] + m.prefix.value + Spaces(1 + afterPrefix) else [])
    + m.command + Middles(m.middles, extra) + Ending(m.trailing, last)
  }

  /** A run of token characters goes into the token. */
  lemma {:induction false} ScanToken(s: State, t: seq<byte>, rest: seq<byte>)
    requires SPACE !in t && |s.token| + |t| <= MAX_TOKEN
    requires t != [] ==> !(t[0] == COLON && s.space && s.phase.InParams?)
    ensures Scan(s, t + rest) == Scan(if t == [] then s else s.(token := s.token + t, space := false), rest)
    decreases |t|
  {
    if t == [] {
      assert t + rest == rest;
    } else {
      var next := s.(token := s.token + [t[0]], space := false);
      assert t[0] in t && (t + rest)[0] == t[0] && (t + rest)[1..] == t[1..] + rest;
      assert Scan(s, t + rest) == Scan(next, t[1..] + rest);
      ScanToken(next, t[1..], rest);
      assert t == [t[0]] + t[1..] && next.token + t[1..] == s.token + t;
      assert t[1..] == [] ==> next.token == s.token + t;
    }
  }

  /** Any number of spaces ends the token once. */
  lemma {:induction false} ScanSpaces(s: State, n: nat, rest: seq<byte>)
    requires n > 0
    ensures Scan(s, Spaces(n) + rest) == Scan(Commit(s).(space := true), rest)
    decreases n
  {
    var line := Spaces(n) + rest;
    assert line[1..] == Spaces(n - 1) + rest;
    if n == 1 {
      assert line[1..] == rest;
    } else {
      ScanSpaces(Commit(s).(space := true), n - 1, rest);
    }
  }

  /** The parser's state once the last of the middle parameters is in the buffer. */
  ghost function WithMiddles(s: State, ts: seq<seq<byte>>): State
    decreases |ts|
  {
    if ts == [] then s else WithMiddles(Commit(s).(token := ts[0], space := false), ts[1..])
  }

  lemma {:induction false} ScanMiddles(s: State, ts: seq<seq<byte>>, extra: seq<nat>, rest: seq<byte>)
    requires |extra| >= |ts| && forall t :: t in ts ==> IsToken(t) && t[0] != COLON
    ensures Scan(s, Middles(ts, extra) + rest) == Scan(WithMiddles(s, ts), rest)
    decreases |ts|
  {
    if ts == [] {
      assert Middles(ts, extra) + rest == rest;
    } else {
      var tail := Middles(ts[1..], extra[1..]);
      var c := Commit(s).(space := true);
      assert Middles(ts, extra) + rest == Spaces(1 + extra[0]) + (ts[0] + (tail + rest));
      ScanSpaces(s, 1 + extra[0], ts[0] + (tail + rest));
      assert ts[0] in ts && [] + ts[0] == ts[0];
      ScanToken(c, ts[0], tail + rest);
      ScanMiddles(c.(token := ts[0], space := false), ts[1..], extra[1..], rest);
    }
  }

  lemma {:induction false} MiddlesBecomeParams(s: State, ts: seq<seq<byte>>)
    requires s.token != [] && (s.phase.InCommand? || s.phase.InParams?)
    requires forall t :: t in ts ==> IsToken(t)
    ensures var c, r := Commit(s), WithMiddles(s, ts);
            && r.token != [] && (r.phase.InCommand? || r.phase.InParams?)
            && Commit(r).params == c.params + ts && Commit(r).prefix == c.prefix && Commit(r).cmd == c.cmd
    decreases |ts|
  {
    var c := Commit(s);
    if ts == [] {
      assert c.params + ts == c.params;
    } else {
      assert ts[0] in ts;
      MiddlesBecomeParams(c.(token := ts[0], space := false), ts[1..]);
      assert c.params + [ts[0]] + ts[1..] == c.params + ts;
    }
  }

  function AllParams(m: Message): seq<seq<byte>> {
    m.middles + if m.trailing.Some? then [m.trailing.value] else []
  }

  /** The end commits the last token and keeps the free text whole. */
  lemma ScanEnding(s: State, trailing: Option<seq<byte>>, last: nat)
    requires s.token != [] && (s.phase.InCommand? || s.phase.InParams?)
    ensures var r, c := Scan(s, Ending(trailing, last)), Commit(s);
            && r.phase.InParams? && r.prefix == c.prefix && r.cmd == c.cmd
            && r.params == c.params + if trailing.Some? then [trailing.value] else []
  {
    var c := Commit(s).(space := true);
    match trailing
    case Some(text) =>
      assert Ending(trailing, last) == Spaces(1 + last) + ([COLON] + text);
      ScanSpaces(s, 1 + last, [COLON] + text);
      assert ([COLON] + text)[1..] == text;
    case None =>
      if last > 0 {
        assert Spaces(last) + [] == Spaces(last);
        ScanSpaces(s, last, []);
      }
  }

  /** The line from the command on. */
  function Body(m: Message, extra: seq<nat>, last: nat): seq<byte>
    requires |extra| >= |m.middles|
  {
    m.command + Middles(m.middles, extra) + Ending(m.trailing, last)
  }

  /** From the command on. */
  lemma ScanBody(s: State, m: Message, extra: seq<nat>, last: nat)
    requires Valid(m) && Short(m) && |extra| >= |m.middles|
    requires s.phase.InCommand? && s.token == [] && s.params == []
    ensures var r := Scan(s, Body(m, extra, last));
            r.phase.InParams? && r.prefix == s.prefix && r.cmd == UpperCase(m.command) && r.params == AllParams(m)
  {
    var middles, ending := Middles(m.middles, extra), Ending(m.trailing, last);
    var t := s.(token := m.command, space := false);
    assert Scan(s, Body(m, extra, last)) == Scan(t, middles + ending) by {
      assert m.command + middles + ending == m.command + (middles + ending);
      ScanToken(s, m.command, middles + ending);
      assert [] + m.command == m.command;
    }
    assert forall x :: x in m.middles ==> IsToken(x);
    ScanMiddles(t, m.middles, extra, ending);
    MiddlesBecomeParams(t, m.middles);
    ScanEnding(WithMiddles(t, m.middles), m.trailing, last);
    assert [] + m.middles == m.middles;
  }

  lemma ScanPrefix(s: State, prefix: seq<byte>, extra: nat, rest: seq<byte>)
    requires IsToken(prefix) && s.phase.InPrefix? && s.token == []
    ensures Scan(s, prefix + (Spaces(1 + extra) + rest))
            == Scan(s.(prefix := prefix, phase := InCommand, space := true), rest)
  {
    ScanToken(s, prefix, Spaces(1 + extra) + rest);
    assert [] + prefix == prefix;
    ScanSpaces(s.(token := prefix, space := false), 1 + extra, rest);
  }

  /** The parser says success and gives the parts of the message. */
  predicate Understood(r: State, m: Message) {
    && r.phase.InParams? && r.cmd == UpperCase(m.command) && r.params == AllParams(m)
    && r.prefix == if m.prefix.Some? then m.prefix.value else []
  }

  lemma WithoutPrefix(m: Message, afterPrefix: nat, extra: seq<nat>, last: nat)
    requires Valid(m) && |extra| >= |m.middles| && m.prefix.None?
    ensures Parse(Rendered(m, afterPrefix, extra, last))
         == Scan(State([], [], [], InCommand, [], false), Body(m, extra, last))
  {
    var line := Rendered(m, afterPrefix, extra, last);
    assert line == Body(m, extra, last) && line[0] == m.command[0];
  }

  lemma WithPrefix(m: Message, afterPrefix: nat, extra: seq<nat>, last: nat)
    requires |extra| >= |m.middles| && m.prefix.Some?
    ensures Parse(Rendered(m, afterPrefix, extra, last))
         == Scan(State([], [], [], InPrefix, [], false),
                 m.prefix.value + (Spaces(1 + afterPrefix) + Body(m, extra, last)))
  {
    var line := Rendered(m, afterPrefix, extra, last);
    var rest := m.prefix.value + (Spaces(1 + afterPrefix) + Body(m, extra, last));
    assert line == [COLON] + rest;
    assert line[1..] == rest;
  }

  lemma ShortIsUnderstood(m: Message, afterPrefix: nat, extra: seq<nat>, last: nat)
    requires Valid(m) && Short(m) && |extra| >= |m.middles|
    ensures Understood(Parse(Rendered(m, afterPrefix, extra, last)), m)
  {
    match m.prefix
    case None =>
      WithoutPrefix(m, afterPrefix, extra, last);
      ScanBody(State([], [], [], InCommand, [], false), m, extra, last);
    case Some(prefix) =>
      WithPrefix(m, afterPrefix, extra, last);
      ScanPrefix(State([], [], [], InPrefix, [], false), prefix, afterPrefix, Body(m, extra, last));
      ScanBody(State(prefix, [], [], InCommand, [], true), m, extra, last);
  }

  // ----- parts that are too long

  /** What is committed stays. */
  ghost predicate Keeps(s: State, r: State) {
    && (!s.phase.InPrefix? ==> r.prefix == s.prefix && !r.phase.InPrefix?)
    && (s.phase.InParams? ==> r.cmd == s.cmd && r.phase.InParams?)
    && s.params <= r.params
  }

  lemma {:induction false} ScanKeeps(s: State, rest: seq<byte>)
    ensures Keeps(s, Scan(s, rest))
    decreases |rest|
  {
    if rest != [] {
      if rest[0] == SPACE {
        ScanKeeps(Commit(s).(space := true), rest[1..]);
      } else if rest[0] == COLON && s.space && s.phase.InParams? {
      } else if |s.token| >= MAX_TOKEN {
        ScanKeeps(Commit(s), rest[1..]);
      } else {
        ScanKeeps(s.(token := s.token + [rest[0]], space := false), rest[1..]);
      }
    }
  }

  /** Of a part that is too long, the parser commits the first 509 bytes. */
  lemma TooLongIsCut(s: State, t: seq<byte>, rest: seq<byte>)
    requires SPACE !in t && |t| > MAX_TOKEN && s.token == []
    requires !(t[0] == COLON && s.space && s.phase.InParams?)
    ensures Keeps(Commit(s.(token := t[..MAX_TOKEN], space := false)), Scan(s, t + rest))
  {
    var front, more := t[..MAX_TOKEN], t[MAX_TOKEN..] + rest;
    var full := s.(token := front, space := false);
    assert t + rest == front + more;
    assert SPACE !in front by {
      assert forall x :: x in front ==> x in t;
    }
    ScanToken(s, front, more);
    assert [] + front == front;
    assert more[0] == t[MAX_TOKEN] && t[MAX_TOKEN] in t;
    assert Scan(full, more) == Scan(Commit(full), more[1..]);
    ScanKeeps(Commit(full), more[1..]);
  }

  /** The first of the middle parameters that is too long comes out as its first 509 bytes. */
  lemma {:induction false} LongMiddle(s: State, ts: seq<seq<byte>>, extra: seq<nat>, rest: seq<byte>, i: nat)
    requires |extra| >= |ts| && i < |ts| && |ts[i]| > MAX_TOKEN
    requires forall t :: t in ts ==> IsPart(t) && t[0] != COLON
    requires forall k :: 0 <= k < i ==> |ts[k]| <= MAX_TOKEN
    requires s.token != [] && (s.phase.InCommand? || s.phase.InParams?)
    ensures var c, r := Commit(s), Scan(s, Middles(ts, extra) + rest);
            |c.params| + i < |r.params| && r.params[|c.params| + i] == ts[i][..MAX_TOKEN]
    decreases i
  {
    var c, tail := Commit(s), Middles(ts[1..], extra[1..]) + rest;
    var spaced := c.(space := true);
    assert ts[0] in ts;
    assert Scan(s, Middles(ts, extra) + rest) == Scan(spaced, ts[0] + tail) by {
      assert Middles(ts, extra) + rest == Spaces(1 + extra[0]) + (ts[0] + tail);
      ScanSpaces(s, 1 + extra[0], ts[0] + tail);
    }
    if i == 0 {
      TooLongIsCut(spaced, ts[0], tail);
    } else {
      var next := c.(token := ts[0], space := false);
      assert Scan(spaced, ts[0] + tail) == Scan(next, tail) by {
        ScanToken(spaced, ts[0], tail);
        assert [] + ts[0] == ts[0];
      }
      assert forall t :: t in ts[1..] ==> t in ts;
      LongMiddle(next, ts[1..], extra[1..], rest, i - 1);
    }
  }

  /** From the command on: a command or a middle parameter that is too long does not come back. */
  lemma LongBody(s: State, m: Message, extra: seq<nat>, last: nat)
    requires Valid(m) && |extra| >= |m.middles| && (m.prefix.Some? ==> |m.prefix.value| <= MAX_TOKEN) && !Short(m)
    requires s.phase.InCommand? && s.token == [] && s.params == []
    ensures var r := Scan(s, Body(m, extra, last));
            r.cmd != UpperCase(m.command) || r.params != AllParams(m)
  {
    var middles, ending := Middles(m.middles, extra), Ending(m.trailing, last);
    assert m.command + middles + ending == m.command + (middles + ending);
    if |m.command| > MAX_TOKEN {
      TooLongIsCut(s, m.command, middles + ending);
    } else {
      ScanToken(s, m.command, middles + ending);
      assert [] + m.command == m.command;
      var i := FirstLong(m.middles);
      LongMiddle(s.(token := m.command, space := false), m.middles, extra, ending, i);
      assert AllParams(m)[i] == m.middles[i];
    }
  }

  lemma FirstLong(ts: seq<seq<byte>>) returns (i: nat)
    requires exists t :: t in ts && |t| > MAX_TOKEN
    ensures i < |ts| && |ts[i]| > MAX_TOKEN && forall k :: 0 <= k < i ==> |ts[k]| <= MAX_TOKEN
  {
    i := 0;
    while |ts[i]| <= MAX_TOKEN
      invariant i < |ts| && forall k :: 0 <= k < i ==> |ts[k]| <= MAX_TOKEN
      decreases |ts| - i
    {
      var t :| t in ts && |t| > MAX_TOKEN;
      assert exists k :: i < k < |ts| && ts[k] == t;
      i := i + 1;
    }
  }

  lemma LongIsMisunderstood(m: Message, afterPrefix: nat, extra: seq<nat>, last: nat)
    requires Valid(m) && !Short(m) && |extra| >= |m.middles|
    ensures !Understood(Parse(Rendered(m, afterPrefix, extra, last)), m)
  {
    match m.prefix
    case None =>
      WithoutPrefix(m, afterPrefix, extra, last);
      LongBody(State([], [], [], InCommand, [], false), m, extra, last);
    case Some(prefix) =>
      WithPrefix(m, afterPrefix, extra, last);
      var s, body := State([], [], [], InPrefix, [], false), Body(m, extra, last);
      if |prefix| > MAX_TOKEN {
        TooLongIsCut(s, prefix, Spaces(1 + afterPrefix) + body);
      } else {
        ScanPrefix(s, prefix, afterPrefix, body);
        LongBody(State(prefix, [], [], InCommand, [], true), m, extra, last);
      }
  }

  /**
   * Parsing undoes formatting exactly when every part fits the token buffer: whatever the numbers of
   * spaces, a message written out is then taken apart into the same parts, with the command in upper
   * case, and the parser reports success. The trailing text may have any length.
   */
  lemma ParseInvertsRendering(m: Message, afterPrefix: nat, extra: seq<nat>, last: nat)
    requires Valid(m) && |extra| >= |m.middles|
    ensures Understood(Parse(Rendered(m, afterPrefix, extra, last)), m) <==> Short(m)
  {
    if Short(m) {
      ShortIsUnderstood(m, afterPrefix, extra, last);
    } else {
      LongIsMisunderstood(m, afterPrefix, extra, last);
    }
  }

  /** al, ping, #c, and a b. */
  const PING := Message(Some([97, 108]), [112, 105, 110, 103], [[35, 99]], Some([97, 32, 98]))

  lemma PingIsValid()
    ensures Valid(PING) && Short(PING)
  {
    assert forall t :: t in PING.middles ==> t == [35, 99];
  }

  lemma PingIsRendered()
    ensures Rendered(PING, 0, [1], 0) == Ascii(":al ping  #c :a b")
  {
    assert Middles([[35, 99]], [1]) == [32, 32, 35, 99];
    assert Ending(Some([97, 32, 98]), 0) == [32, 58, 97, 32, 98];
    assert [COLON] + [97, 108] + Spaces(1) == [58, 97, 108, 32];
  }

  lemma PingInCapitals(command: seq<byte>)
    requires command == [112, 105, 110, 103]
    ensures UpperCase(command) == Ascii("PING")
  {
  }

  lemma PingParams()
    ensures AllParams(PING) == [Ascii("#c"), Ascii("a b")] && PING.prefix == Some(Ascii("al"))
  {
    assert Ascii("#c") == [35, 99] && Ascii("a b") == [97, 32, 98] && Ascii("al") == [97, 108];
    assert [[35, 99]] + [[97, 32, 98]] == [[35, 99], [97, 32, 98]];
  }

  lemma ParsedAs(m: Message, line: seq<byte>, cmd: seq<byte>, params: seq<seq<byte>>)
    requires Valid(m) && Short(m) && |m.middles| == 1 && line == Rendered(m, 0, [1], 0)
    requires cmd == UpperCase(m.command) && params == AllParams(m) && m.prefix.Some?
    ensures var r := Parse(line);
            r.phase.InParams? && r.prefix == m.prefix.value && r.cmd == cmd && r.params == params
  {
    ParseInvertsRendering(m, 0, [1], 0);
  }

  lemma PingFacts() returns (m: Message)
    ensures Valid(m) && Short(m) && |m.middles| == 1 && m.prefix == Some(Ascii("al"))
    ensures Rendered(m, 0, [1], 0) == Ascii(":al ping  #c :a b")
    ensures UpperCase(m.command) == Ascii("PING") && AllParams(m) == [Ascii("#c"), Ascii("a b")]
  {
    m := PING;
    PingIsValid();
    PingIsRendered();
    PingInCapitals(PING.command);
    PingParams();
  }

  /** A line as it may come. */
  lemma PingIsParsed(line: seq<byte>)
    requires line == Ascii(":al ping  #c :a b")
    ensures var r := Parse(line);
            && r.phase.InParams? && r.prefix == Ascii("al") && r.cmd == Ascii("PING")
            && r.params == [Ascii("#c"), Ascii("a b")]
  {
    var m := PingFacts();
    ParsedAs(m, line, Ascii("PING"), [Ascii("#c"), Ascii("a b")]);
  }

  /** A command of 510 equal letters loses its last: it is the byte that overflows the buffer. */
  lemma LongCommandIsCut()
    ensures var m := Message(None, seq(510, _ => 65), [], None);
            Valid(m) && |Parse(Rendered(m, 0, [], 0)).cmd| == 509
  {
    var command: seq<byte> := seq(MAX_TOKEN + 1, _ => 65);
    var m := Message(None, command, [], None);
    var line := Rendered(m, 0, [], 0);
    assert line == command + [];
    TooLongIsCut(Start(line), command, []);
  }
}
