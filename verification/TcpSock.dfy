/** tcpsock.cpp: reading lines from a socket through a push-back buffer. */
module TcpSock {
  import opened Bytes
  import opened LineStream

  const BUFSIZE := 512
  const INT_RANGE := 0x1_0000_0000

  /**
   * What the kernel has for the reader, in order: bytes that are there together, a poll that times
   * out or is interrupted, a failed read that leaves the socket open, or one that closes it.
   */
  datatype Event = Data(bytes: seq<byte>) | Quiet | Failed | Closed

  type Arrival = e: Event | e.Data? ==> e.bytes != [] witness Quiet

  function ItemsOf(e: Arrival): seq<Item> {
    match e
    case Data(bytes) => AsItems(bytes)
    case Quiet => [Pause]
    case Failed => [Fault]
    case Closed => [End]
  }

  function Items(wire: seq<Arrival>): seq<Item> {
    if wire == [] then [] else ItemsOf(wire[0]) + Items(wire[1..])
  }

  /** The int a size_t length becomes when readline returns it. */
  function AsInt(n: nat): (r: int)
    ensures n <= 0x7FFF_FFFF ==> r == n
  {
    var m := n % INT_RANGE;
    if m <= INT_MAX then m else m - INT_RANGE
  }

  /** A negative maxsize asks for no limit. */
  function Limit(maxsize: int): (n: nat)
    ensures n == if maxsize < 0 then 0x7FFF_FFFF else maxsize
  {
    if maxsize < 0 then INT_MAX else maxsize
  }

  function Result(outcome: Outcome): (int, seq<byte>) {
    match outcome
    case Line(text) => (AsInt(|text|), text)
    case TimedOut => (-1, [])
    case SocketError => (-2, [])
  }

  class Socket {
    var connected: bool
    var linebuf: seq<byte>
    var read_buffer: seq<byte>
    var wire: seq<Arrival>  // what is still to come from the kernel

    /** Between calls less than one read's worth is pushed back, and a closed socket holds nothing. */
    ghost predicate Valid()
      reads this
    {
      && |read_buffer| < BUFSIZE
      && (!connected ==> linebuf == [] && read_buffer == [])
    }

    /** Everything the reader has yet to see. */
    ghost function Pending(): seq<Item>
      reads `connected, `read_buffer, `wire
    {
      if connected then AsItems(read_buffer) + Items(wire) else [End]
    }

    constructor (arrivals: seq<Arrival>)
      ensures Valid() && connected && linebuf == [] && Pending() == Items(arrivals)
    {
      connected, linebuf, read_buffer, wire := true, [], [], arrivals;
      new;
      assert AsItems([]) + Items(arrivals) == Items(arrivals);
    }

    method Close()
      requires !connected ==> read_buffer == []
      modifies this
      ensures !connected && read_buffer == []
      ensures linebuf == old(linebuf) && wire == old(wire)
    {
      if !connected {
        return;
      }
      read_buffer := [];
      connected := false;
    }

    method AppendToReadBuffer(data: seq<byte>)
      modifies `read_buffer
      ensures read_buffer == old(read_buffer) + data
    {
      read_buffer := read_buffer + data;
    }

    /**
     * timed_read_nolock: up to `size` bytes, 0 when nothing came in time, negative on failure.
     * Pushed-back bytes go first.
     */
    method TimedRead(size: nat) returns (ret: int, data: seq<byte>)
      requires size > 0 && (!connected ==> read_buffer == [])
      modifies this
      ensures linebuf == old(linebuf)
      ensures read_buffer == if |old(read_buffer)| > size then old(read_buffer)[size..] else []
      ensures ret > 0 ==> |data| == ret <= size && connected && old(Pending()) == AsItems(data) + Pending()
      ensures ret == 0 ==>
                connected && (if old(Pending()) == [] then Pending() == [] else old(Pending()) == [Pause] + Pending())
      ensures ret < 0 && connected ==> old(Pending()) == [Fault] + Pending()
      ensures ret < 0 && !connected ==> old(Pending()) != [] && old(Pending())[0] == End
    {
      data := [];
      if !connected {
        return -1, [];
      }
      if read_buffer != [] {
        var nread := if |read_buffer| >= size then size else |read_buffer|;
        data := read_buffer[..nread];
        TakePushedBack(read_buffer, nread, Items(wire));
        if |read_buffer| > nread {
          read_buffer := read_buffer[nread..];
        } else {
          read_buffer := [];
        }
        return nread, data;
      }
      assert AsItems([]) + Items(wire) == Items(wire);
      if wire == [] {
        return 0, [];
      }
      match wire[0]
      case Quiet =>
        wire := wire[1..];
        assert AsItems([]) + Items(wire) == Items(wire);
        return 0, [];
      case Failed =>
        wire := wire[1..];
        assert AsItems([]) + Items(wire) == Items(wire);
        return -1, [];
      case Closed =>
        wire := wire[1..];
        Close();
        return -1, [];
      case Data(bytes) =>
        var nread := if |bytes| > size then size else |bytes|;
        data := bytes[..nread];
        TakeArrived(wire, nread);
        wire := (if nread < |bytes| then [Data(bytes[nread..])] else []) + wire[1..];
        assert AsItems([]) + Items(wire) == Items(wire);
        return nread, data;
    }

    /** The inner loop of readline: the bytes of one read, until a line ends. */
    method ScanChunk(buf: seq<byte>, max: nat) returns (finished: bool)
      requires connected && read_buffer == [] && |buf| <= BUFSIZE
      modifies `linebuf, `read_buffer
      ensures |read_buffer| < BUFSIZE && (!finished ==> read_buffer == [])
      ensures Next(old(linebuf), AsItems(buf) + old(Pending()), max)
              == if finished then Step(Line(linebuf), [], Pending()) else Next(linebuf, Pending(), max)
    {
      ghost var after := Pending();
      ghost var goal := Next(linebuf, AsItems(buf) + after, max);
      assert buf[0..] == buf;
      for i := 0 to |buf|
        invariant read_buffer == []
        invariant goal == Next(linebuf, AsItems(buf[i..]) + after, max)
      {
        NextByte(linebuf, buf[i..], after, max);
        assert buf[i..][1..] == buf[i + 1..];
        if Dropped(buf[i]) {
          continue;
        } else if Ends(linebuf, buf[i], max) {
          if |buf| - (i + 1) > 0 {
            AppendToReadBuffer(buf[i + 1..]);
          }
          assert read_buffer == buf[i + 1..];
          PushedBack(buf[i + 1..], wire);
          return true;
        } else {
          linebuf := linebuf + [buf[i]];
        }
      }
      assert AsItems(buf[|buf|..]) + after == after;
      return false;
    }

    /**
     * readline: reads until a line ends, pushes the unused bytes back, and keeps the unfinished
     * line across calls that time out. It agrees with the one-pass reader, however the bytes are
     * cut into arrivals.
     */
    method ReadLine(maxsize: int) returns (result: int, dest: seq<byte>)
      requires Valid()
      modifies this
      ensures Valid()
      ensures var s := Next(old(linebuf), old(Pending()), Limit(maxsize));
              (result, dest) == Result(s.outcome) && linebuf == s.partial && Pending() == s.rest
      ensures var s := Next(old(linebuf), old(Pending()), Limit(maxsize));
              && (s.outcome.TimedOut? ==> result == -1) && (s.outcome.SocketError? ==> result == -2)
              && (s.outcome.Line? ==> dest == s.outcome.text && (|dest| <= 0x7FFF_FFFF ==> result == |dest|))
    {
      if !connected {
        return -2, [];
      }
      var max := Limit(maxsize);
      ghost var goal := Next(linebuf, Pending(), max);
      var finished := false;
      while !finished
        invariant connected && |read_buffer| < BUFSIZE
        invariant goal == if finished then Step(Line(linebuf), [], Pending()) else Next(linebuf, Pending(), max)
        decreases !finished, |Pending()|
      {
        ghost var before := Pending();
        var ret, buf := TimedRead(BUFSIZE);
        NextOther(linebuf, before, Pending(), max);
        if ret < 0 {
          if linebuf != [] {
            break;
          }
          return -2, [];
        } else if ret == 0 {
          return -1, [];
        }
        finished := ScanChunk(buf, max);
      }
      result, dest := AsInt(|linebuf|), linebuf;
      linebuf := [];
    }
  }

  lemma PushedBack(pushed: seq<byte>, wire: seq<Arrival>)
    ensures AsItems(pushed) + (AsItems([]) + Items(wire)) == AsItems(pushed) + Items(wire)
  {
  }

  lemma TakePushedBack(pushed: seq<byte>, n: nat, rest: seq<Item>)
    requires n <= |pushed|
    ensures AsItems(pushed) + rest == AsItems(pushed[..n]) + (AsItems(pushed[n..]) + rest)
  {
    AsItemsAppend(pushed[..n], pushed[n..]);
    assert pushed[..n] + pushed[n..] == pushed;
  }

  lemma ItemsCons(e: Arrival, wire: seq<Arrival>)
    ensures Items([e] + wire) == ItemsOf(e) + Items(wire)
  {
    assert ([e] + wire)[1..] == wire;
  }

  /** Reading part of what is there leaves the rest there. */
  lemma TakeArrived(wire: seq<Arrival>, n: nat)
    requires wire != [] && wire[0].Data? && 0 < n <= |wire[0].bytes|
    ensures var bytes := wire[0].bytes;
            var left: seq<Arrival> := (if n < |bytes| then [Data(bytes[n..])] else []) + wire[1..];
            Items(wire) == AsItems(bytes[..n]) + Items(left)
  {
    var bytes, later := wire[0].bytes, wire[1..];
    TakePushedBack(bytes, n, Items(later));
    if n < |bytes| {
      ItemsCons(Data(bytes[n..]), later);
    } else {
      assert bytes[..n] == bytes && [] + later == later;
    }
  }

  /** The bytes the arrivals carry up to the close, cut at the reads that fail. */
  function Carried(wire: seq<Arrival>): (r: seq<seq<byte>>)
    ensures r != []
  {
    if wire == [] then [[]]
    else
      match wire[0]
      case Data(bytes) => BeforeFirst(bytes, Carried(wire[1..]))
      case Quiet => Carried(wire[1..])
      case Failed => [[]] + Carried(wire[1..])
      case Closed => [[]]
  }

  lemma {:induction false} SectionsOfBytes(s: seq<byte>, rest: seq<Item>)
    ensures Sections(AsItems(s) + rest) == BeforeFirst(s, Sections(rest))
    decreases |s|
  {
    if s == [] {
      assert AsItems(s) + rest == rest;
      assert [] + Sections(rest)[0] == Sections(rest)[0];
    } else {
      AsItemsFirst(s, rest);
      SectionsOfBytes(s[1..], rest);
      assert ([Byte(s[0])] + (AsItems(s[1..]) + rest))[1..] == AsItems(s[1..]) + rest;
      assert [s[0]] + (s[1..] + Sections(rest)[0]) == s + Sections(rest)[0];
    }
  }

  lemma {:induction false} CarriedIsSections(wire: seq<Arrival>)
    ensures Sections(Items(wire)) == Carried(wire)
    ensures Closed in wire ==> End in Items(wire)
    ensures Failed !in wire ==> Fault !in Items(wire)
    decreases |wire|
  {
    if wire != [] {
      CarriedIsSections(wire[1..]);
      var rest := Items(wire[1..]);
      match wire[0]
      case Data(bytes) => SectionsOfBytes(bytes, rest);
      case Quiet => assert ([Pause] + rest)[1..] == rest;
      case Failed => assert ([Fault] + rest)[1..] == rest;
      case Closed =>
    }
  }

  /**
   * The lines of a connection depend only on the bytes it carried between failed reads: every way of
   * cutting them into arrivals, with any timeouts in between, gives the lines of the one-pass fold.
   */
  lemma CuttingIsInvisible(wire: seq<Arrival>, max: nat, n: nat)
    requires Closed in wire && n > |Items(wire)|
    ensures Run([], Items(wire), max, n).0 == SplitAll([], Carried(wire), max, true)
  {
    CarriedIsSections(wire);
    RunReturnsTheFold(Items(wire), max, n);
  }

  /** So the loop around readline hears every line but the empty ones, and ends, if no read fails. */
  lemma CallerHearsEveryLine(wire: seq<Arrival>, max: nat, n: nat)
    requires Closed in wire && Failed !in wire && n > |Items(wire)|
    ensures var r := Received([], Items(wire), max, n);
            r.0 == NonEmpty(SplitAll([], Carried(wire), max, true)) && r.3
  {
    CarriedIsSections(wire);
    CuttingIsInvisible(wire, max, n);
    ReceivedIsRun([], Items(wire), max, n);
    ReceivingEnds([], Items(wire), max, n);
  }

  /** The size limit readline uses when its caller names none. */
  const DEFAULT_MAXSIZE := 65535

  type Reception = (seq<seq<byte>>, seq<byte>, seq<Item>, bool)

  function Joined(lines: seq<seq<byte>>, r: Reception): Reception {
    (lines + r.0, r.1, r.2, r.3)
  }

  /** What one turn of the loop makes of what readline returns. */
  lemma OneTurn(lines: seq<seq<byte>>, partial: seq<byte>, items: seq<Item>, max: nat, n: nat)
    requires n > 0 && |partial| <= max + 1 < INT_MAX
    ensures var s := Next(partial, items, max);
            var (len, line) := Result(s.outcome);
            var later := Received(s.partial, s.rest, max, n - 1);
            && |s.partial| <= max + 1
            && Joined(lines, Received(partial, items, max, n))
               == if len <= -2 then (lines, s.partial, s.rest, true)
                  else if len > 0 then Joined(lines + [line], later)
                  else Joined(lines, later)
  {
    NextIsBounded(partial, items, max);
    var s := Next(partial, items, max);
    var later := Received(s.partial, s.rest, max, n - 1);
    if s.outcome.Line? {
      assert lines + ([s.outcome.text] + later.0) == lines + [s.outcome.text] + later.0;
    }
    assert lines + [] == lines;
  }

  /**
   * The loop around readline in the bot's main thread, for up to `n` turns: empty lines and timeouts
   * are passed over, and a socket error ends it.
   */
  method ReadLines(sock: Socket, n: nat) returns (lines: seq<seq<byte>>, failed: bool)
    requires sock.Valid() && |sock.linebuf| <= DEFAULT_MAXSIZE + 1
    modifies sock
    ensures sock.Valid()
    ensures (lines, sock.linebuf, sock.Pending(), failed)
            == Received(old(sock.linebuf), old(sock.Pending()), DEFAULT_MAXSIZE, n)
  {
    lines, failed := [], false;
    ghost var all := Received(sock.linebuf, sock.Pending(), DEFAULT_MAXSIZE, n);
    assert [] + all.0 == all.0;
    var i := 0;
    while i < n && !failed
      invariant 0 <= i <= n && sock.Valid() && |sock.linebuf| <= DEFAULT_MAXSIZE + 1
      invariant all == if failed then (lines, sock.linebuf, sock.Pending(), true)
                       else Joined(lines, Received(sock.linebuf, sock.Pending(), DEFAULT_MAXSIZE, n - i))
      decreases n - i, !failed
    {
      OneTurn(lines, sock.linebuf, sock.Pending(), DEFAULT_MAXSIZE, n - i);
      var len, line := sock.ReadLine(DEFAULT_MAXSIZE);
      if len <= -2 {
        failed := true;
      } else if len > 0 {
        lines := lines + [line];
      }
      i := i + 1;
    }
    assert lines + [] == lines;
  }
}
