/** irc.cpp: parse_irc_line takes one protocol line apart (section 2.3.1 of RFC 2812). */
module IrcLine {
  import opened Bytes

  /** The size of the token buffer; its last byte is for the NUL. */
  const BUFSIZE := 510
  const MAX_TOKEN := BUFSIZE - 1

  datatype Phase = InPrefix | InCommand | InParams

  /** The parser's variables: what is committed, the token under way, and whether a space came last. */
  datatype State = State(prefix: seq<byte>, cmd: seq<byte>, params: seq<seq<byte>>, phase: Phase,
                         token: seq<byte>, space: bool)

  function Upper(c: byte): byte {
    if 0x61 <= c <= 0x7E then c - 32 else c
  }

  /** irc_strupper, with the tables of the extended RFC 1459 character map. */
  function UpperCase(s: seq<byte>): (r: seq<byte>)
    ensures |r| == |s| && forall i :: 0 <= i < |s| ==> r[i] == Upper(s[i])
    ensures forall i :: 0 <= i < |s| ==> r[i] == if 97 <= s[i] <= 126 then s[i] - 32 else s[i]
  {
    if s == [] then [] else [Upper(s[0])] + UpperCase(s[1..])
  }

  /** The macro COMMIT_BUFFER. */
  function Commit(s: State): (r: State)
    ensures r.token == []
  {
    if s.token == [] then s
    else
      match s.phase
      case InPrefix => s.(prefix := s.token, phase := InCommand, token := [])
      case InCommand => s.(cmd := UpperCase(s.token), phase := InParams, token := [])
      case InParams => s.(params := s.params + [s.token], token := [])
  }

  /** The scan of the rest of a line. */
  function Scan(s: State, rest: seq<byte>): State
    decreases |rest|
  {
    if rest == [] then Commit(s)
    else if rest[0] == SPACE then Scan(Commit(s).(space := true), rest[1..])
    else if rest[0] == COLON && s.space && s.phase.InParams? then s.(params := s.params + [rest[1..]])
    else if |s.token| >= MAX_TOKEN then Scan(Commit(s), rest[1..])
    else Scan(s.(token := s.token + [rest[0]], space := false), rest[1..])
  }

  function Start(line: seq<byte>): State {
    State([], [], [], if line != [] && line[0] == COLON then InPrefix else InCommand, [], false)
  }

  function Parse(line: seq<byte>): State {
    Scan(Start(line), if line != [] && line[0] == COLON then line[1..] else line)
  }

  /** parse_irc_line. The token under way is in `buf`; `s` holds the other variables. */
  method ParseIrcLine(line: seq<byte>) returns (ret: int, prefix: seq<byte>, cmd: seq<byte>, params: seq<seq<byte>>)
    ensures var s := Parse(CStr(line));
            && prefix == s.prefix && cmd == s.cmd && params == s.params
            && ret == if s.phase.InParams? then 0 else -1
  {
    var p := CStr(line);
    ghost var goal := Parse(p);
    var buf := new byte[BUFSIZE](_ => 0);
    var pos, i: nat := 0, 0;
    var s := State([], [], [], InCommand, [], false);
    if At(p, 0) == COLON {
      s := s.(phase := InPrefix);
      i := 1;
    }
    assert p[0..] == p && buf[..0] == [];
    while true
      invariant i <= |p| && pos <= MAX_TOKEN && s.token == []
      invariant goal == Scan(s.(token := buf[..pos]), p[i..])
      decreases |p| - i
    {
      var c := At(p, i);
      if c == NUL {
        s, pos := Commit(s.(token := buf[..pos])), 0;
        break;
      }
      ScanOne(s.(token := buf[..pos]), p, i);
      if c == SPACE {
        s, pos := Commit(s.(token := buf[..pos])).(space := true), 0;
      } else if c == COLON && s.space && s.phase.InParams? {
        s := s.(params := s.params + [p[i + 1..]]);
        break;
      } else if pos >= MAX_TOKEN {
        s, pos := Commit(s.(token := buf[..pos])), 0;
      } else {
        ghost var token := buf[..pos] + [c];
        buf[pos] := c;
        pos, s := pos + 1, s.(space := false);
        assert buf[..pos] == token;
      }
      assert pos == 0 ==> buf[..pos] == [];
      i := i + 1;
    }
    return if s.phase.InParams? then 0 else -1, s.prefix, s.cmd, s.params;
  }

  lemma ScanOne(s: State, p: seq<byte>, i: nat)
    requires i < |p|
    ensures Scan(s, p[i..])
            == if p[i] == SPACE then Scan(Commit(s).(space := true), p[i + 1..])
               else if p[i] == COLON && s.space && s.phase.InParams? then s.(params := s.params + [p[i + 1..]])
               else if |s.token| >= MAX_TOKEN then Scan(Commit(s), p[i + 1..])
               else Scan(s.(token := s.token + [p[i]], space := false), p[i + 1..])
  {
    assert p[i..][1..] == p[i + 1..];
  }
}
