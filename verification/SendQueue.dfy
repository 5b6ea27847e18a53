/** irc.cpp: the outgoing queue and the sender thread that throttles itself by a message timer. */
module SendQueue {
  import opened Bytes
  import opened StableSort

  /** A line handed to the socket, and when. */
  datatype Sent = Sent(entry: Entry, at: int)

  /**
   * Where the sender thread is: blocked in pthread_cond_wait, holding the mutex, or asleep with
   * the mutex released until a given time.
   */
  datatype Phase = Waiting | Running | Sleeping(until: int)

  datatype State = State(
    flood: bool,
    queue: seq<Entry>,
    added: bool,
    phase: Phase,
    woken: bool,
    nextSend: int,
    prevNow: int,
    clock: int,
    history: seq<Entry>,  // every entry ever accepted
    wire: seq<Sent>)      // every line sent

  /** The length of the line from its first space on, and the seconds one line costs. */
  function LongPart(line: seq<byte>): (r: nat)
    ensures r <= |line|
  {
    if line == [] || line[0] == SPACE then |line| else LongPart(line[1..])
  }

  function Cost(line: seq<byte>): (r: int)
    ensures r >= 2
  {
    2 + LongPart(line) / 120
  }

  lemma {:induction false} LongPartAt(word: seq<byte>, rest: seq<byte>)
    requires 32 !in word
    ensures LongPart(word) == 0 && LongPart(word + [32] + rest) == 1 + |rest|
    decreases |word|
  {
    var line := word + [32] + rest;
    if word == [] {
      assert line == [32] + rest;
    } else {
      assert word[0] in word && line[0] == word[0] && line[1..] == word[1..] + [32] + rest;
      LongPartAt(word[1..], rest);
    }
  }

  /** Two seconds for each line, and one for each 120 bytes of what follows its first word. */
  lemma LineCosts(word: seq<byte>, rest: seq<byte>)
    requires 32 !in word
    ensures Cost(word) == 2 && Cost(word + [32] + rest) == 2 + (1 + |rest|) / 120
  {
    LongPartAt(word, rest);
  }

  // ----- the atomic steps

  function AddStep(s: State, e: Entry): State {
    if e.line == [] then s
    else if s.flood then
      s.(queue := s.queue + [e], added := true, woken := s.woken || s.phase.Waiting?, history := s.history + [e])
    else
      s.(wire := s.wire + [Sent(e, s.clock)], history := s.history + [e])
  }

  /** Sort if something was added, send the head, charge for it. */
  function TransmitStep(s: State, now: int): State
    requires s.queue != []
  {
    var q := if s.added then Sort(s.queue) else s.queue;
    s.(queue := q[1..], added := false, phase := Running, nextSend := s.nextSend + Cost(q[0].line), prevNow := now,
       clock := now, wire := s.wire + [Sent(q[0], now)])
  }

  /** The head of the inner loop: wait if there is nothing to do, sleep if the timer is far ahead. */
  function PassStep(s: State, now: int): State {
    if s.queue == [] then s.(phase := Waiting, woken := false)
    else
      var next := if !s.flood || s.nextSend < now then now else s.nextSend;
      if next - now < 10 then TransmitStep(s.(nextSend := next), now)
      else if now < s.prevNow then TransmitStep(s.(nextSend := now), now)
      else s.(nextSend := next, phase := Sleeping(next - 10), clock := now)
  }

  // ----- the same steps in place

  class Sender {
    var enable_flood_protection: bool
    var send_queue: seq<Entry>
    var sendq_added: bool
    var phase: Phase
    var signalled: bool
    var next_send: int
    var prev_now: int
    ghost var clock: int
    ghost var history: seq<Entry>
    ghost var wire: seq<Sent>

    ghost function View(): State
      reads this
    {
      State(enable_flood_protection, send_queue, sendq_added, phase, signalled, next_send, prev_now, clock,
            history, wire)
    }

    constructor (ghost start: int)
      ensures View() == Initial(start)
    {
      enable_flood_protection, send_queue, sendq_added := true, [], false;
      phase, signalled, next_send, prev_now := Waiting, false, 0, 0;
      clock, history, wire := start, [], [];
    }

    /** sock.send: from here on the line is on the wire. */
    method Send(e: Entry, ghost now: int)
      modifies `wire
      ensures wire == old(wire) + [Sent(e, now)]
    {
      wire := wire + [Sent(e, now)];
    }

    /** add_to_send_queue. */
    method AddToSendQueue(line: seq<byte>, priority: int) returns (ret: int)
      modifies this
      ensures View() == AddStep(old(View()), Entry(line, priority))
      ensures ret == if line == [] then -1 else 0
    {
      if line == [] {
        return -1;
      }
      if enable_flood_protection {
        send_queue := send_queue + [Entry(line, priority)];
        sendq_added := true;
        if phase.Waiting? {
          signalled := true;
        }
      } else {
        Send(Entry(line, priority), clock);
      }
      history := history + [Entry(line, priority)];
      return 0;
    }

    /** The loop that looks for the first space. */
    method FromFirstSpace(line: seq<byte>) returns (len: nat)
      ensures len == LongPart(line)
    {
      var p := 0;
      len := |line|;
      while len > 0 && line[p] != SPACE
        invariant 0 <= p <= |line| && len == |line| - p
        invariant LongPart(line) == LongPart(line[p..])
      {
        assert line[p..][1..] == line[p + 1..];
        p, len := p + 1, len - 1;
      }
    }

    /** The second half of the loop body, with the mutex held. */
    method Transmit(now: int)
      requires send_queue != []
      modifies this
      ensures View() == TransmitStep(old(View()), now)
    {
      if sendq_added {
        send_queue := Sort(send_queue);
        sendq_added := false;
      }
      var line := send_queue[0].line;
      Send(send_queue[0], now);
      next_send := next_send + 2;
      prev_now := now;
      var len := FromFirstSpace(line);
      next_send := next_send + len / 120;
      send_queue := send_queue[1..];
      phase := Running;
      clock := now;
    }

    /** One pass through the head of the loop, up to the sleep if there is one. */
    method Pass(now: int)
      modifies this
      ensures View() == PassStep(old(View()), now)
    {
      if send_queue == [] {
        phase, signalled := Waiting, false;
        return;
      }
      if !enable_flood_protection {
        next_send := now;
      }
      if next_send < now {
        next_send := now;
      }
      if next_send - now >= 10 {
        if now < prev_now {
          next_send := now;
        } else {
          phase := Sleeping(next_send - 10);
          clock := now;
          return;
        }
      }
      Transmit(now);
    }
  }

  // ----- runs

  function Initial(start: int): State {
    State(true, [], false, Waiting, false, 0, 0, start, [], [])
  }

  datatype Action =
    | Add(e: Entry)         // a producer
    | Wake                  // pthread_cond_wait returns, for a signal or for nothing
    | Pass(now: int)        // the loop head reads the clock
    | Resume(now: int)      // sleep is over, the mutex is taken again
    | SetFlood(on: bool)    // an administrator turns flood protection on or off

  /** Producers need the mutex, which the sender releases only while it waits or sleeps. */
  predicate Enabled(s: State, a: Action) {
    match a
    case Add(_) => s.flood ==> !s.phase.Running?
    case Wake => s.phase.Waiting?
    case Pass(_) => s.phase.Running?
    case Resume(_) => s.phase.Sleeping? && s.queue != []
    case SetFlood(_) => true
  }

  function Step(s: State, a: Action): State
    requires Enabled(s, a)
  {
    match a
    case Add(e) => AddStep(s, e)
    case Wake => s.(phase := Running, woken := false)
    case Pass(now) => PassStep(s, now)
    case Resume(now) => TransmitStep(s, now)
    case SetFlood(on) => s.(flood := on)
  }
}
