/** What every run of producers and the sender thread keeps: order, conservation, pacing. */
module SendQueueRuns {
  import opened Bytes
  import opened StableSort
  import opened SendQueue

  ghost predicate EnabledRun(s: State, acts: seq<Action>)
    decreases |acts|
  {
    acts == [] || (Enabled(s, acts[0]) && EnabledRun(Step(s, acts[0]), acts[1..]))
  }

  ghost function Run(s: State, acts: seq<Action>): State
    requires EnabledRun(s, acts)
    decreases |acts|
  {
    if acts == [] then s else Run(Step(s, acts[0]), acts[1..])
  }

  function Lines(wire: seq<Sent>): (r: seq<Entry>)
    ensures |r| == |wire|
  {
    seq(|wire|, i requires 0 <= i < |wire| => wire[i].entry)
  }

  lemma LinesAppend(wire: seq<Sent>, x: Sent)
    ensures Lines(wire + [x]) == Lines(wire) + [x.entry]
  {
  }

  // ----- safety of the queue

  /**
   * The flag tells the truth about the order, the sleeper has something to send, nobody waits
   * beside a non-empty queue without a signal on its way, and no line is lost or doubled.
   */
  ghost predicate Inv(s: State) {
    && (!s.added ==> Sorted(s.queue))
    && (s.phase.Sleeping? ==> s.queue != [])
    && (s.phase.Waiting? && s.queue != [] ==> s.woken)
    && multiset(Lines(s.wire)) + multiset(s.queue) == multiset(s.history)
  }

  /** Lines of one priority leave in the order in which they came. */
  ghost predicate Fifo(s: State) {
    forall p :: Of(Lines(s.wire), p) + Of(s.queue, p) == Of(s.history, p)
  }

  /** The queue the sender takes its head from is sorted and holds what was there, in order. */
  lemma TakesFromSorted(s: State) returns (q: seq<Entry>)
    requires Inv(s) && s.queue != []
    ensures q == (if s.added then Sort(s.queue) else s.queue) && q != []
    ensures Sorted(q) && SameByPriority(q, s.queue) && multiset(q) == multiset(s.queue)
  {
    q := if s.added then Sort(s.queue) else s.queue;
    SortIsStable(s.queue);
    SameByPriorityIsPermutation(q, s.queue);
  }

  lemma MovesOneLine(a: seq<Entry>, q: seq<Entry>)
    requires q != []
    ensures multiset(a + [q[0]]) + multiset(q[1..]) == multiset(a) + multiset(q)
  {
    assert q == [q[0]] + q[1..];
  }

  /** The loop head either falls asleep or sends with some timer. */
  lemma LoopHeadTimer(s: State, now: int) returns (next: int)
    requires s.queue != []
    ensures PassStep(s, now) == TransmitStep(s.(nextSend := next), now)
            || (PassStep(s, now) == s.(nextSend := next, phase := Sleeping(next - 10), clock := now))
  {
    next := if !s.flood || s.nextSend < now then now else s.nextSend;
    if next - now >= 10 && now < s.prevNow {
      next := now;
    }
  }

  lemma TransmitKeepsInv(s: State, now: int)
    requires Inv(s) && s.queue != []
    ensures Inv(TransmitStep(s, now))
  {
    var q := TakesFromSorted(s);
    LinesAppend(s.wire, Sent(q[0], now));
    MovesOneLine(Lines(s.wire), q);
    var t := TransmitStep(s, now);
    assert t.queue == q[1..] && t.wire == s.wire + [Sent(q[0], now)];
  }

  /** Every line but the empty one is accepted: queued last, or sent at once without flood protection. */
  lemma AddAccepts(s: State, e: Entry)
    ensures var t := AddStep(s, e);
            && t.history == s.history + (if e.line == [] then [] else [e])
            && t.queue == s.queue + (if e.line != [] && s.flood then [e] else [])
            && Lines(t.wire) == Lines(s.wire) + (if e.line != [] && !s.flood then [e] else [])
  {
    if e.line != [] && !s.flood {
      LinesAppend(s.wire, Sent(e, s.clock));
    }
  }

  lemma AddKeepsInv(s: State, e: Entry)
    requires Inv(s) && (s.flood ==> !s.phase.Running?)
    ensures Inv(AddStep(s, e))
  {
    if e.line != [] {
      if s.flood {
        assert multiset(s.queue + [e]) == multiset(s.queue) + multiset{e};
      } else {
        LinesAppend(s.wire, Sent(e, s.clock));
      }
    }
  }

  lemma StepKeepsInv(s: State, a: Action)
    requires Inv(s) && Enabled(s, a)
    ensures Inv(Step(s, a))
  {
    match a
    case Add(e) => AddKeepsInv(s, e);
    case Wake =>
    case Pass(now) =>
      if s.queue != [] {
        var next := LoopHeadTimer(s, now);
        TransmitKeepsInv(s.(nextSend := next), now);
      }
    case Resume(now) => TransmitKeepsInv(s, now);
    case SetFlood(_) =>
  }

  lemma HeadMovesOver(lines: seq<Entry>, q: seq<Entry>, p: int)
    requires q != []
    ensures Of(lines + [q[0]], p) + Of(q[1..], p) == Of(lines, p) + Of(q, p)
  {
    OfAppend(lines, [q[0]], p);
    OfAppend([q[0]], q[1..], p);
    assert [q[0]] + q[1..] == q;
  }

  lemma TransmitKeepsFifo(s: State, now: int)
    requires Inv(s) && Fifo(s) && s.queue != []
    ensures Fifo(TransmitStep(s, now))
  {
    var q := TakesFromSorted(s);
    LinesAppend(s.wire, Sent(q[0], now));
    var t := TransmitStep(s, now);
    assert t.queue == q[1..] && t.wire == s.wire + [Sent(q[0], now)];
    forall p
      ensures Of(Lines(t.wire), p) + Of(t.queue, p) == Of(t.history, p)
    {
      HeadMovesOver(Lines(s.wire), q, p);
      assert Of(q, p) == Of(s.queue, p);
    }
  }

  lemma AddKeepsFifo(s: State, e: Entry)
    requires Fifo(s) && s.flood
    ensures Fifo(AddStep(s, e))
  {
    forall p
      ensures Of(Lines(s.wire), p) + Of(s.queue + [e], p) == Of(s.history + [e], p)
    {
      var sent, queued, added := Of(Lines(s.wire), p), Of(s.queue, p), Of([e], p);
      OfAppend(s.queue, [e], p);
      OfAppend(s.history, [e], p);
      assert sent + queued == Of(s.history, p);
      assert sent + (queued + added) == sent + queued + added;
    }
  }

  lemma StepKeepsFifo(s: State, a: Action)
    requires Inv(s) && Fifo(s) && s.flood && Enabled(s, a) && !a.SetFlood?
    ensures Fifo(Step(s, a)) && Step(s, a).flood
  {
    match a
    case Add(e) => AddKeepsFifo(s, e);
    case Wake =>
    case Pass(now) =>
      if s.queue != [] {
        var next := LoopHeadTimer(s, now);
        if PassStep(s, now).wire != s.wire {
          TransmitKeepsFifo(s.(nextSend := next), now);
        }
      }
    case Resume(now) => TransmitKeepsFifo(s, now);
  }

  /** Over every run, with flood protection switched at will, no line is lost, doubled or stranded. */
  lemma {:induction false} RunsConserveLines(s: State, acts: seq<Action>)
    requires Inv(s) && EnabledRun(s, acts)
    ensures Inv(Run(s, acts))
    decreases |acts|
  {
    if acts != [] {
      StepKeepsInv(s, acts[0]);
      RunsConserveLines(Step(s, acts[0]), acts[1..]);
    }
  }

  /** Flood protection stays on. */
  ghost predicate Protected(acts: seq<Action>) {
    forall a :: a in acts ==> !a.SetFlood?
  }

  lemma {:induction false} RunsAreFifo(s: State, acts: seq<Action>)
    requires Inv(s) && Fifo(s) && s.flood && EnabledRun(s, acts) && Protected(acts)
    ensures Inv(Run(s, acts)) && Fifo(Run(s, acts)) && Run(s, acts).flood
    decreases |acts|
  {
    if acts != [] {
      assert acts[0] in acts;
      StepKeepsInv(s, acts[0]);
      StepKeepsFifo(s, acts[0]);
      RunsAreFifo(Step(s, acts[0]), acts[1..]);
    }
  }

  /**
   * From `s` to `t` one line goes out: it has the highest priority in the queue, and among all
   * lines ever added with that priority it is the first not sent yet.
   */
  ghost predicate SendsMostUrgent(s: State, t: State) {
    && |t.wire| == |s.wire| + 1 && t.wire[..|s.wire|] == s.wire
    && var e := t.wire[|s.wire|].entry;
       && e in s.queue && (forall x :: x in s.queue ==> x.priority <= e.priority)
       && Of(Lines(s.wire), e.priority) + [e] <= Of(s.history, e.priority)
  }

  lemma TransmitSendsMostUrgent(s: State, now: int)
    requires Inv(s) && Fifo(s) && s.queue != []
    ensures SendsMostUrgent(s, TransmitStep(s, now))
  {
    var q := TakesFromSorted(s);
    SortedHead(q);
    var e := q[0];
    assert e in multiset(q);
    forall x | x in s.queue
      ensures x.priority <= e.priority
    {
      assert x in multiset(s.queue);
    }
    var p := e.priority;
    assert Of(q, p) == Of(s.queue, p);
    var sent := Of(Lines(s.wire), p);
    assert sent + Of(s.queue, p) == Of(s.history, p);
    assert sent + ([e] + Of(q[1..], p)) == sent + [e] + Of(q[1..], p);
    var t := TransmitStep(s, now);
    assert t.wire == s.wire + [Sent(e, now)];
  }

  lemma StepSendsMostUrgent(s: State, a: Action)
    requires Inv(s) && Fifo(s) && s.flood && Enabled(s, a)
    ensures Step(s, a).wire == s.wire || SendsMostUrgent(s, Step(s, a))
  {
    match a
    case Pass(now) =>
      if s.queue != [] {
        var next := LoopHeadTimer(s, now);
        TransmitSendsMostUrgent(s.(nextSend := next), now);
      }
    case Resume(now) => TransmitSendsMostUrgent(s, now);
    case _ =>
  }

  /** At every point of every run with flood protection on, a step that sends sends the most urgent line. */
  lemma EverySendIsMostUrgent(start: int, acts: seq<Action>, s: State, a: Action)
    requires EnabledRun(Initial(start), acts) && Protected(acts) && s == Run(Initial(start), acts)
    requires Enabled(s, a)
    ensures Step(s, a).wire == s.wire || SendsMostUrgent(s, Step(s, a))
  {
    RunsAreFifo(Initial(start), acts);
    StepSendsMostUrgent(s, a);
  }

  // ----- the queue drains

  predicate IsSender(a: Action) {
    a.Wake? || a.Pass? || a.Resume?
  }

  /** How many steps the sender still needs: two for each line, less one if it is asleep already. */
  function StepsLeft(s: State): (n: nat)
    ensures n == 0 <==> s.queue == []
  {
    if s.queue == [] then 0
    else 2 * |s.queue| + (if s.phase.Waiting? then 1 else 0) - (if s.phase.Sleeping? then 1 else 0)
  }

  /** A sender with lines to send can always take a step; if it waits, it has been signalled. */
  lemma NeverStuck(s: State, now: int) returns (a: Action)
    requires Inv(s) && s.queue != []
    ensures IsSender(a) && Enabled(s, a) && (a.Wake? ==> s.woken)
  {
    a := match s.phase
      case Waiting => Wake
      case Running => Pass(now)
      case Sleeping(_) => Resume(now);
  }

  /** Each of its steps counts. */
  lemma StepDrains(s: State, a: Action)
    requires Enabled(s, a) && !a.Add?
    ensures StepsLeft(Step(s, a)) <= StepsLeft(s)
    ensures IsSender(a) && s.queue != [] ==> StepsLeft(Step(s, a)) < StepsLeft(s)
  {
    if a.Pass? && s.queue != [] {
      var next := LoopHeadTimer(s, a.now);
    }
  }

  function SenderSteps(acts: seq<Action>): nat {
    if acts == [] then 0 else (if IsSender(acts[0]) then 1 else 0) + SenderSteps(acts[1..])
  }

  /**
   * Once no line is added any more, the queue is empty after two steps of the sender for each line
   * and one to wake up, whatever the clock says and however flood protection is switched.
   */
  lemma {:induction false} QueueDrains(s: State, acts: seq<Action>)
    requires EnabledRun(s, acts) && (forall a :: a in acts ==> !a.Add?)
    requires SenderSteps(acts) >= StepsLeft(s)
    ensures Run(s, acts).queue == []
    decreases |acts|
  {
    if acts != [] {
      var a := acts[0];
      assert a in acts && forall x :: x in acts[1..] ==> x in acts;
      StepDrains(s, a);
      QueueDrains(Step(s, a), acts[1..]);
    }
  }

  /** Then every line ever accepted has been sent, each once. */
  lemma EverythingIsSent(start: int, acts: seq<Action>, more: seq<Action>)
    requires EnabledRun(Initial(start), acts) && EnabledRun(Run(Initial(start), acts), more)
    requires forall a :: a in more ==> !a.Add?
    requires SenderSteps(more) >= 2 * |Run(Initial(start), acts).queue| + 1
    ensures var t := Run(Run(Initial(start), acts), more);
            t.queue == [] && multiset(Lines(t.wire)) == multiset(Run(Initial(start), acts).history)
  {
    var s := Run(Initial(start), acts);
    RunsConserveLines(Initial(start), acts);
    RunsConserveLines(s, more);
    QueueDrains(s, more);
    NothingAdded(s, more);
  }

  lemma {:induction false} NothingAdded(s: State, acts: seq<Action>)
    requires EnabledRun(s, acts) && forall a :: a in acts ==> !a.Add?
    ensures Run(s, acts).history == s.history
    decreases |acts|
  {
    if acts != [] {
      assert acts[0] in acts && forall x :: x in acts[1..] ==> x in acts;
      if acts[0].Pass? && s.queue != [] {
        var next := LoopHeadTimer(s, acts[0].now);
      }
      NothingAdded(Step(s, acts[0]), acts[1..]);
    }
  }

  // ----- pacing

  /** What the sends i..j cost. */
  ghost function Charged(wire: seq<Sent>, i: nat, j: nat): int
    requires j <= |wire|
    decreases j
  {
    if j <= i then 0 else Charged(wire, i, j - 1) + Cost(wire[j - 1].entry.line)
  }

  lemma {:induction false} ChargedOfPrefix(wire: seq<Sent>, x: Sent, i: nat, j: nat)
    requires j <= |wire|
    ensures Charged(wire + [x], i, j) == Charged(wire, i, j)
    decreases j
  {
    if j > i {
      ChargedOfPrefix(wire, x, i, j - 1);
    }
  }

  lemma {:induction false} ChargedIsAtLeastTwoEach(wire: seq<Sent>, i: nat, j: nat)
    requires i <= j <= |wire|
    ensures Charged(wire, i, j) >= 2 * (j - i)
    decreases j
  {
    if i < j {
      ChargedIsAtLeastTwoEach(wire, i, j - 1);
    }
  }

  /** The clock never runs backwards and no sleep ends before its time. */
  predicate Faithful(s: State, a: Action) {
    match a
    case Pass(now) => now >= s.clock
    case Resume(now) => now >= s.clock && (s.phase.Sleeping? ==> now >= s.phase.until)
    case _ => true
  }

  ghost predicate FaithfulRun(s: State, acts: seq<Action>)
    requires EnabledRun(s, acts)
    decreases |acts|
  {
    acts == [] || (Faithful(s, acts[0]) && FaithfulRun(Step(s, acts[0]), acts[1..]))
  }

  /** What the sends strictly between `i` and `j` cost is covered by the time plus ten seconds. */
  ghost predicate Spaced(wire: seq<Sent>, i: nat, j: nat)
    requires i < j < |wire|
  {
    wire[i].at + Charged(wire, i + 1, j) <= wire[j].at + 10
  }

  ghost predicate Throttled(wire: seq<Sent>) {
    forall i: nat, j: nat :: i < j < |wire| ==> Spaced(wire, i, j)
  }

  /** The message timer covers what was charged since send `i`. */
  ghost predicate Covers(wire: seq<Sent>, nextSend: int, i: nat)
    requires i < |wire|
  {
    wire[i].at + Charged(wire, i + 1, |wire|) <= nextSend
  }

  ghost predicate TimerCovers(wire: seq<Sent>, nextSend: int, n: int) {
    forall i: nat :: i < n && i < |wire| ==> Covers(wire, nextSend, i)
  }

  ghost predicate Paced(s: State) {
    && s.flood && s.prevNow <= s.clock
    && (forall i :: 0 <= i < |s.wire| ==> s.wire[i].at <= s.clock)
    && Throttled(s.wire)
    && (if s.phase.Sleeping? then
          TimerCovers(s.wire, s.nextSend, |s.wire|) && s.nextSend == s.phase.until + 10
        else
          TimerCovers(s.wire, s.nextSend, |s.wire| - 1))
  }

  /** A send with the timer at most ten seconds ahead keeps the pace, and charges the timer. */
  lemma SendKeepsPace(wire: seq<Sent>, nextSend: int, x: Sent)
    requires Throttled(wire) && TimerCovers(wire, nextSend, |wire|) && nextSend <= x.at + 10
    ensures Throttled(wire + [x])
    ensures TimerCovers(wire + [x], nextSend + Cost(x.entry.line), |wire|)
  {
    var w := wire + [x];
    var n := |wire|;
    forall i: nat, j: nat | i < j <= n
      ensures Spaced(w, i, j)
    {
      ChargedOfPrefix(wire, x, i + 1, j);
      if j == n {
        assert Covers(wire, nextSend, i);
      } else {
        assert Spaced(wire, i, j);
      }
    }
    var charged := nextSend + Cost(x.entry.line);
    forall i: nat | i < n
      ensures Covers(w, charged, i)
    {
      ChargedOfPrefix(wire, x, i + 1, n);
      assert Covers(wire, nextSend, i);
    }
  }

  lemma TransmitKeepsPace(s: State, now: int)
    requires s.queue != [] && s.flood && now >= s.clock
    requires forall i :: 0 <= i < |s.wire| ==> s.wire[i].at <= s.clock
    requires Throttled(s.wire) && TimerCovers(s.wire, s.nextSend, |s.wire|) && s.nextSend <= now + 10
    ensures Paced(TransmitStep(s, now))
  {
    var q := if s.added then Sort(s.queue) else s.queue;
    var t := TransmitStep(s, now);
    SendKeepsPace(s.wire, s.nextSend, t.wire[|s.wire|]);
  }

  /** Raising the timer to the present makes it cover the last send as well. */
  lemma ClampedTimerCovers(wire: seq<Sent>, nextSend: int, now: int)
    requires TimerCovers(wire, nextSend, |wire| - 1)
    requires forall i :: 0 <= i < |wire| ==> wire[i].at <= now
    ensures TimerCovers(wire, if nextSend < now then now else nextSend, |wire|)
  {
    var next := if nextSend < now then now else nextSend;
    forall i: nat | i < |wire|
      ensures Covers(wire, next, i)
    {
      assert i < |wire| - 1 ==> Covers(wire, nextSend, i);
      assert Charged(wire, |wire|, |wire|) == 0;
    }
  }

  lemma StepKeepsPace(s: State, a: Action)
    requires Paced(s) && Enabled(s, a) && Faithful(s, a) && !a.SetFlood?
    ensures Paced(Step(s, a))
  {
    match a
    case Add(_) =>
    case Wake =>
    case Pass(now) =>
      if s.queue != [] {
        var next := if s.nextSend < now then now else s.nextSend;
        ClampedTimerCovers(s.wire, s.nextSend, now);
        if next - now < 10 {
          TransmitKeepsPace(s.(nextSend := next), now);
        }
      }
    case Resume(now) => TransmitKeepsPace(s, now);
  }

  lemma {:induction false} RunsKeepPace(s: State, acts: seq<Action>)
    requires Paced(s) && EnabledRun(s, acts) && FaithfulRun(s, acts) && Protected(acts)
    ensures Paced(Run(s, acts))
    decreases |acts|
  {
    if acts != [] {
      assert acts[0] in acts;
      StepKeepsPace(s, acts[0]);
      RunsKeepPace(Step(s, acts[0]), acts[1..]);
    }
  }

  lemma InitialIsPaced(start: int)
    requires start >= 0
    ensures Paced(Initial(start))
  {
  }

  // ----- the throttle asks for no more than that

  /** The timer is not ahead of what was charged since some send. */
  ghost predicate Reaches(wire: seq<Sent>, time: int, i: nat) {
    i < |wire| && time <= wire[i].at + Charged(wire, i, |wire|)
  }

  /** The timer is either not ahead of the beginning, or was driven there by sends. */
  ghost predicate Prompt(s: State, start: int) {
    && start <= s.clock
    && (s.nextSend <= start || exists i: nat :: Reaches(s.wire, s.nextSend, i))
    && (s.phase.Sleeping? ==> s.phase.until == s.nextSend - 10)
  }

  lemma SendKeepsPrompt(s: State, start: int, now: int)
    requires s.queue != [] && start <= now
    requires s.nextSend <= now || exists i: nat :: Reaches(s.wire, s.nextSend, i)
    ensures Prompt(TransmitStep(s, now), start)
  {
    var t := TransmitStep(s, now);
    var n := |s.wire|;
    var x := t.wire[n];
    assert t.wire == s.wire + [x];
    if s.nextSend <= now {
      ChargedOfPrefix(s.wire, x, n, n);
      assert Charged(t.wire, n, n + 1) == Charged(t.wire, n, n) + Cost(x.entry.line);
      assert Reaches(t.wire, t.nextSend, n);
    } else {
      var i: nat :| Reaches(s.wire, s.nextSend, i);
      ChargedOfPrefix(s.wire, x, i, n);
      assert Charged(t.wire, i, n + 1) == Charged(t.wire, i, n) + Cost(x.entry.line);
      assert Reaches(t.wire, t.nextSend, i);
    }
  }

  lemma StepKeepsPrompt(s: State, a: Action, start: int)
    requires Paced(s) && Prompt(s, start) && Enabled(s, a) && Faithful(s, a) && !a.SetFlood?
    ensures Prompt(Step(s, a), start)
  {
    match a
    case Add(_) =>
    case Wake =>
    case Pass(now) =>
      if s.queue != [] {
        var next := if s.nextSend < now then now else s.nextSend;
        if next - now < 10 {
          SendKeepsPrompt(s.(nextSend := next), start, now);
        }
      }
    case Resume(now) => SendKeepsPrompt(s, start, now);
  }

  lemma {:induction false} RunsKeepPrompt(s: State, acts: seq<Action>, start: int)
    requires Paced(s) && Prompt(s, start) && EnabledRun(s, acts) && FaithfulRun(s, acts) && Protected(acts)
    ensures Paced(Run(s, acts)) && Prompt(Run(s, acts), start)
    decreases |acts|
  {
    if acts != [] {
      assert acts[0] in acts;
      StepKeepsPace(s, acts[0]);
      StepKeepsPrompt(s, acts[0], start);
      RunsKeepPrompt(Step(s, acts[0]), acts[1..], start);
    }
  }

  /**
   * The other half of flood control: in every run, a line that could go out and does not is held
   * back by the message timer alone. The lines from some send on, each at two seconds and its
   * penalty, have used up the time since that send and ten seconds more; and the sleep that follows
   * ends no later than ten seconds before the timer they set.
   */
  lemma HeldBackByTimerOnly(start: int, acts: seq<Action>, now: int)
    requires start >= 0 && EnabledRun(Initial(start), acts) && FaithfulRun(Initial(start), acts) && Protected(acts)
    requires var s := Run(Initial(start), acts);
             && Enabled(s, Pass(now)) && Faithful(s, Pass(now))
             && s.queue != [] && Step(s, Pass(now)).wire == s.wire
    ensures var s := Run(Initial(start), acts);
            && Step(s, Pass(now)).phase.Sleeping?
            && exists i: nat ::
                 && i < |s.wire| && s.wire[i].at + Charged(s.wire, i, |s.wire|) >= now + 10
                 && Step(s, Pass(now)).phase.until <= s.wire[i].at + Charged(s.wire, i, |s.wire|) - 10
  {
    InitialIsPaced(start);
    RunsKeepPrompt(Initial(start), acts, start);
    var s := Run(Initial(start), acts);
    var i: nat :| Reaches(s.wire, s.nextSend, i);
  }

  /** Without flood protection, or when the clock has gone back, nothing is held back. */
  lemma NothingHeldBack(s: State, now: int)
    requires s.phase.Running? && s.queue != [] && (!s.flood || now < s.prevNow)
    ensures |Step(s, Pass(now)).wire| == |s.wire| + 1
  {
  }

  lemma SpacedIsBounded(wire: seq<Sent>, i: nat, j: nat)
    requires i < j < |wire| && Spaced(wire, i, j)
    ensures Charged(wire, i + 1, j) <= wire[j].at - wire[i].at + 10
    ensures 2 * (j - i - 1) <= wire[j].at - wire[i].at + 10
  {
    ChargedIsAtLeastTwoEach(wire, i + 1, j);
  }

  /**
   * Flood control: in every run, for any two sends, the two seconds per line and the long-line
   * penalties of the sends strictly in between come to at most the time between the two plus ten
   * seconds, even if sleeps overrun. So at most (T + 10) / 2 lines lie between.
   */
  lemma FloodControl(start: int, acts: seq<Action>, wire: seq<Sent>, i: nat, j: nat)
    requires start >= 0 && EnabledRun(Initial(start), acts) && FaithfulRun(Initial(start), acts) && Protected(acts)
    requires wire == Run(Initial(start), acts).wire && i < j < |wire|
    ensures Charged(wire, i + 1, j) <= wire[j].at - wire[i].at + 10
    ensures 2 * (j - i - 1) <= wire[j].at - wire[i].at + 10
  {
    InitialIsPaced(start);
    RunsKeepPace(Initial(start), acts);
    assert Spaced(wire, i, j);
    SpacedIsBounded(wire, i, j);
  }
}
