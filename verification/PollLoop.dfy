/** The two-task wake protocol: the poll loop waits for its timer or for a one-slot
    wake signal set by the notification listener, polls, and adapts its interval.
    The listener's notification is `tokio::sync::Notify::notify_one`: at most one
    stored permit, consumed only by the wake branch of the select. */
module PollLoop {
  import opened Prelude
  import opened Text

  // ----- the interval -----

  /** What `poll_and_execute` returned. */
  datatype Outcome = PollFailed | PollDone(hint: Option<nat>)

  function NextInterval(default: nat, current: nat, outcome: Outcome): nat {
    match outcome
    case PollDone(Some(h)) => if h > 0 then h else current
    case PollDone(None) => current
    case PollFailed => default
  }

  function IntervalAfter(default: nat, outcomes: seq<Outcome>): nat {
    if outcomes == [] then default
    else NextInterval(default, IntervalAfter(default, outcomes[..|outcomes| - 1]), outcomes[|outcomes| - 1])
  }

  /** Outcomes that leave the interval alone: no error and no positive hint. */
  predicate Neutral(outcome: Outcome) {
    outcome.PollDone? && (outcome.hint == None || outcome.hint == Some(0))
  }

  /** The interval is the last positive hint, unless an error came after it or there
      was none; then it is the default. */
  lemma {:induction false} IntervalLaw(default: nat, before: seq<Outcome>, last: Outcome, after: seq<Outcome>)
    requires forall o | o in after :: Neutral(o)
    ensures IntervalAfter(default, after) == default
    ensures last == PollFailed ==> IntervalAfter(default, before + [last] + after) == default
    ensures last.PollDone? && last.hint.Some? && last.hint.value > 0 ==>
              IntervalAfter(default, before + [last] + after) == last.hint.value
  {
    if after == [] {
      assert (before + [last] + after)[..|before|] == before;
    } else {
      var shorter := after[..|after| - 1];
      IntervalLaw(default, before, last, shorter);
      var final := after[|after| - 1];
      assert Neutral(final);
      var whole := before + [last] + after;
      assert whole[..|whole| - 1] == before + [last] + shorter && whole[|whole| - 1] == final;
    }
  }

  /** What came of the request for pending commands: no answer, or an answer with its
      status, its X-Poll-Interval header, and whether its body is a command list. */
  datatype Fetched = NoAnswer | Answer(status: nat, header: Option<string>, listed: bool)

  const U64_BOUND: nat := 0x1_0000_0000_0000_0000

  function Hint(header: Option<string>): Option<nat> {
    match header
    case Some(text) => ParseUnsigned(text, U64_BOUND)
    case None => None
  }

  function OutcomeOf(fetched: Fetched): Outcome {
    match fetched
    case NoAnswer => PollFailed
    case Answer(status, header, listed) =>
      if status == 204 || !(200 <= status < 300) || listed then PollDone(Hint(header)) else PollFailed
  }

  /** The server steers the interval: any answer that is not a garbled success and
      names a positive number of seconds sets it to that number, a header that names
      none leaves it alone, and no answer or a garbled one resets it. */
  lemma ServerSteers(default: nat, earlier: seq<Outcome>, status: nat, listed: bool, h: nat, junk: string,
      success: nat, header: Option<string>)
    requires status == 204 || !(200 <= status < 300) || listed
    requires 0 < h < 18446744073709551616 && ParseUnsigned(junk, 18446744073709551616) == None
    requires 200 <= success < 300 && success != 204
    ensures IntervalAfter(default, earlier + [OutcomeOf(Answer(status, Some(Print(h)), listed))]) == h
    ensures Neutral(OutcomeOf(Answer(status, Some(junk), listed))) && Neutral(OutcomeOf(Answer(status, None, listed)))
    ensures IntervalAfter(default, earlier + [OutcomeOf(NoAnswer)]) == default
    ensures IntervalAfter(default, earlier + [OutcomeOf(Answer(success, header, false))]) == default
  {
    ParsePrint(h, U64_BOUND);
    IntervalLaw(default, earlier, PollDone(Some(h)), []);
    IntervalLaw(default, earlier, PollFailed, []);
    assert earlier + [PollDone(Some(h))] + [] == earlier + [PollDone(Some(h))];
    assert earlier + [PollFailed] + [] == earlier + [PollFailed];
  }

  class Poller {
    const defaultInterval: nat
    var currentInterval: nat

    constructor (pollSec: nat)
      ensures currentInterval == defaultInterval == pollSec
    {
      defaultInterval := pollSec;
      currentInterval := pollSec;
    }

    /** The body of the loop, for as many cycles as there are outcomes. */
    method Cycles(outcomes: seq<Outcome>) returns (waits: seq<nat>)
      requires currentInterval == defaultInterval
      modifies this
      ensures |waits| == |outcomes|
      ensures forall i | 0 <= i < |waits| :: waits[i] == IntervalAfter(defaultInterval, outcomes[..i])
      ensures currentInterval == IntervalAfter(defaultInterval, outcomes)
    {
      waits := [];
      for i := 0 to |outcomes|
        invariant |waits| == i
        invariant forall j | 0 <= j < i :: waits[j] == IntervalAfter(defaultInterval, outcomes[..j])
        invariant currentInterval == IntervalAfter(defaultInterval, outcomes[..i])
      {
        waits := waits + [currentInterval];
        assert outcomes[..i + 1][..i] == outcomes[..i];
        match outcomes[i] {
          case PollDone(Some(hint)) =>
            if hint > 0 {
              var newInterval := hint;
              if newInterval != currentInterval {
                currentInterval := newInterval;
              }
            }
          case PollDone(None) =>
          case PollFailed =>
            currentInterval := defaultInterval;
        }
      }
      assert outcomes[..|outcomes|] == outcomes;
    }
  }

  // ----- the machine -----

  datatype Cause = Timer | Wake

  datatype Event =
    | Notified(at: nat)
    | Started(at: nat, cause: Cause)
    | Ended(at: nat, outcome: Outcome)

  datatype Phase = Waiting(since: nat) | Polling

  datatype State = State(clock: nat, permit: bool, phase: Phase, interval: nat, history: seq<Event>)

  datatype Label = Tick(d: nat) | Notify | TimerBranch | WakeBranch | PollEnds(outcome: Outcome)

  function Init(default: nat): State {
    State(0, false, Waiting(0), default, [])
  }

  /** The select fires as soon as one of its branches is ready: time passes during a
      wait only while there is no permit, and at most up to the timer. */
  predicate MayTick(s: State, d: nat) {
    s.phase.Waiting? ==> !s.permit && s.clock + d <= s.phase.since + s.interval
  }

  function Step(default: nat, s: State, l: Label): State {
    match l
    case Tick(d) => if MayTick(s, d) then s.(clock := s.clock + d) else s
    case Notify => s.(permit := true, history := s.history + [Notified(s.clock)])
    case TimerBranch =>
      if s.phase.Waiting? && s.clock >= s.phase.since + s.interval
      then s.(phase := Polling, history := s.history + [Started(s.clock, Timer)])
      else s
    case WakeBranch =>
      if s.phase.Waiting? && s.permit
      then s.(phase := Polling, permit := false, history := s.history + [Started(s.clock, Wake)])
      else s
    case PollEnds(outcome) =>
      if s.phase.Polling?
      then s.(phase := Waiting(s.clock), interval := NextInterval(default, s.interval, outcome),
              history := s.history + [Ended(s.clock, outcome)])
      else s
  }

  function Run(default: nat, s: State, labels: seq<Label>): State
    decreases |labels|
  {
    if labels == [] then s else Run(default, Step(default, s, labels[0]), labels[1..])
  }

  // ----- reading the history -----

  /** No poll is in progress after this history. */
  predicate InWait(h: seq<Event>) {
    h == [] || var last := h[|h| - 1]; last.Ended? || (last.Notified? && InWait(h[..|h| - 1]))
  }

  /** The permit stored after a history: set by a notification, cleared by a wake. */
  predicate PermitAfter(h: seq<Event>) {
    h != [] && match h[|h| - 1]
               case Notified(_) => true
               case Started(_, Wake) => false
               case _ => PermitAfter(h[..|h| - 1])
  }

  function LastEnd(h: seq<Event>): nat {
    if h == [] then 0
    else if h[|h| - 1].Ended? then h[|h| - 1].at else LastEnd(h[..|h| - 1])
  }

  function Outcomes(h: seq<Event>): seq<Outcome> {
    if h == [] then []
    else
      var rest := Outcomes(h[..|h| - 1]);
      if h[|h| - 1].Ended? then rest + [h[|h| - 1].outcome] else rest
  }

  // ----- the invariant of every run -----

  /** What holds of the k-th event, given the events before it. */
  predicate EventOk(default: nat, h: seq<Event>, k: nat)
    requires k < |h|
  {
    var before, e := h[..k], h[k];
    var due := LastEnd(before) + IntervalAfter(default, Outcomes(before));
    && (k > 0 ==> h[k - 1].at <= e.at)
    && (k > 0 && InWait(before) && PermitAfter(before) ==> e.at == h[k - 1].at)
    && (e.Started? <==> InWait(before) && !e.Notified?)
    && (e.Started? ==> LastEnd(before) <= e.at <= due)
    && (e.Started? && e.cause == Timer ==> e.at == due)
    && (e.Started? && e.cause == Wake ==> PermitAfter(before))
  }

  ghost predicate HistoryOk(default: nat, h: seq<Event>) {
    forall k: nat | k < |h| :: EventOk(default, h, k)
  }

  ghost predicate Inv(default: nat, s: State) {
    var h := s.history;
    && HistoryOk(default, h)
    && s.permit == PermitAfter(h)
    && s.phase.Waiting? == InWait(h)
    && s.interval == IntervalAfter(default, Outcomes(h))
    && (h != [] ==> h[|h| - 1].at <= s.clock)
    && (s.phase.Waiting? && s.permit ==> h != [] && s.clock == h[|h| - 1].at)
    && (s.phase.Waiting? ==> s.phase.since == LastEnd(h) <= s.clock <= s.phase.since + s.interval)
  }

  lemma Extended(default: nat, h: seq<Event>, e: Event)
    requires HistoryOk(default, h) && EventOk(default, h + [e], |h|)
    ensures HistoryOk(default, h + [e])
  {
    forall k: nat | k <= |h|
      ensures EventOk(default, h + [e], k)
    {
      if k < |h| {
        assert (h + [e])[..k] == h[..k];
        assert EventOk(default, h, k);
      }
    }
  }

  lemma NotifyKeepsInv(default: nat, s: State)
    requires Inv(default, s)
    ensures Inv(default, Step(default, s, Notify))
  {
    var h, e := s.history, Notified(s.clock);
    assert (h + [e])[..|h|] == h;
    assert EventOk(default, h + [e], |h|);
    Extended(default, h, e);
  }

  lemma StartKeepsInv(default: nat, s: State, cause: Cause)
    requires Inv(default, s) && s.phase.Waiting?
    requires if cause.Timer? then s.clock >= s.phase.since + s.interval else s.permit
    ensures Inv(default, Step(default, s, if cause.Timer? then TimerBranch else WakeBranch))
  {
    var h, e := s.history, Started(s.clock, cause);
    assert (h + [e])[..|h|] == h;
    assert EventOk(default, h + [e], |h|);
    Extended(default, h, e);
  }

  lemma IntervalSnoc(default: nat, h: seq<Event>, e: Event)
    requires e.Ended?
    ensures IntervalAfter(default, Outcomes(h + [e])) ==
            NextInterval(default, IntervalAfter(default, Outcomes(h)), e.outcome)
  {
    assert (h + [e])[..|h|] == h;
    var all := Outcomes(h) + [e.outcome];
    assert all[..|all| - 1] == Outcomes(h);
  }

  lemma EndKeepsInv(default: nat, s: State, outcome: Outcome)
    requires Inv(default, s) && s.phase.Polling?
    ensures Inv(default, Step(default, s, PollEnds(outcome)))
  {
    var h, e := s.history, Ended(s.clock, outcome);
    assert (h + [e])[..|h|] == h;
    assert EventOk(default, h + [e], |h|);
    Extended(default, h, e);
    IntervalSnoc(default, h, e);
  }

  lemma StepKeepsInv(default: nat, s: State, l: Label)
    requires Inv(default, s)
    ensures Inv(default, Step(default, s, l))
  {
    if Step(default, s, l) != s {
      match l {
        case Tick(d) =>
        case Notify => NotifyKeepsInv(default, s);
        case TimerBranch => StartKeepsInv(default, s, Timer);
        case WakeBranch => StartKeepsInv(default, s, Wake);
        case PollEnds(outcome) => EndKeepsInv(default, s, outcome);
      }
    }
  }

  lemma {:induction false} RunKeepsInv(default: nat, s: State, labels: seq<Label>)
    requires Inv(default, s)
    ensures Inv(default, Run(default, s, labels))
    decreases |labels|
  {
    if labels != [] {
      StepKeepsInv(default, s, labels[0]);
      RunKeepsInv(default, Step(default, s, labels[0]), labels[1..]);
    }
  }

  ghost predicate Reachable(default: nat, s: State) {
    exists labels :: s == Run(default, Init(default), labels)
  }

  lemma ReachableInv(default: nat, s: State)
    requires Reachable(default, s)
    ensures Inv(default, s)
  {
    var labels :| s == Run(default, Init(default), labels);
    RunKeepsInv(default, Init(default), labels);
  }

  // ----- no lost wake-up -----

  /** The first poll start after event i, or the end of the history. */
  function FirstStartAfter(h: seq<Event>, i: nat): (j: nat)
    requires i < |h|
    ensures i < j <= |h| && (j < |h| ==> h[j].Started?)
    ensures forall k | i < k < j :: !h[k].Started?
    decreases |h| - i
  {
    if i + 1 == |h| || h[i + 1].Started? then i + 1 else FirstStartAfter(h, i + 1)
  }

  lemma {:induction false} PermitUntilStart(h: seq<Event>, i: nat, m: nat)
    requires i < m <= |h| && h[i].Notified?
    requires forall k | i < k < m :: !h[k].Started?
    ensures PermitAfter(h[..m])
  {
    if m > i + 1 {
      PermitUntilStart(h, i, m - 1);
      assert h[..m][..m - 1] == h[..m - 1];
    }
  }

  lemma {:induction false} PromptInWait(default: nat, h: seq<Event>, i: nat, j: nat)
    requires HistoryOk(default, h) && i < j < |h|
    requires PermitAfter(h[..i + 1]) && InWait(h[..i + 1])
    requires forall k | i < k < j :: !h[k].Started?
    ensures h[j].at == h[i].at
    decreases j - i
  {
    assert EventOk(default, h, i + 1);
    if i + 1 < j {
      assert h[i + 1].Notified?;
      assert h[..i + 2][..i + 1] == h[..i + 1];
      PromptInWait(default, h, i + 1, j);
    }
  }

  lemma {:induction false} PromptAfterPoll(default: nat, h: seq<Event>, i: nat, j: nat) returns (e: nat)
    requires HistoryOk(default, h) && i < j < |h| && h[j].Started?
    requires PermitAfter(h[..i + 1]) && !InWait(h[..i + 1])
    requires forall k | i < k < j :: !h[k].Started?
    ensures i < e < j && h[e].Ended? && h[e].at == h[j].at
    decreases j - i
  {
    assert EventOk(default, h, i + 1);
    assert h[..i + 2][..i + 1] == h[..i + 1];
    if h[i + 1].Ended? {
      e := i + 1;
      PromptInWait(default, h, e, j);
    } else {
      e := PromptAfterPoll(default, h, i + 1, j);
    }
  }

  /** Every notification is served at once: if it came during a wait, a poll starts
      at that very time; if it came during a poll, the next one starts when that
      one ends.  As long as no poll has started, the permit is still stored, and a
      waiting loop can do nothing but take it. */
  lemma NoLostWakeup(default: nat, s: State, i: nat)
    requires Reachable(default, s) && i < |s.history| && s.history[i].Notified?
    ensures var j := FirstStartAfter(s.history, i);
            if j == |s.history| then
              && s.permit
              && (s.phase.Waiting? ==> Step(default, s, WakeBranch).phase.Polling?)
              && (s.phase.Waiting? ==> forall d: nat :: Step(default, s, Tick(d)).clock == s.clock)
            else if InWait(s.history[..i + 1]) then s.history[j].at == s.history[i].at
            else exists e | i < e < j :: s.history[e].Ended? && s.history[e].at == s.history[j].at
  {
    ReachableInv(default, s);
    var h := s.history;
    var j := FirstStartAfter(h, i);
    PermitUntilStart(h, i, i + 1);
    PermitUntilStart(h, i, j);
    if j == |h| {
      assert h[..j] == h;
    } else if InWait(h[..i + 1]) {
      PromptInWait(default, h, i, j);
    } else {
      var e := PromptAfterPoll(default, h, i, j);
    }
  }

  // ----- exact coalescing -----

  function Wakes(h: seq<Event>): nat {
    if h == [] then 0
    else Wakes(h[..|h| - 1]) + if h[|h| - 1].Started? && h[|h| - 1].cause.Wake? then 1 else 0
  }

  function Timers(h: seq<Event>): nat {
    if h == [] then 0
    else Timers(h[..|h| - 1]) + if h[|h| - 1].Started? && h[|h| - 1].cause.Timer? then 1 else 0
  }

  function Starts(h: seq<Event>): nat {
    if h == [] then 0
    else Starts(h[..|h| - 1]) + if h[|h| - 1].Started? then 1 else 0
  }

  function Notifications(h: seq<Event>): nat {
    if h == [] then 0
    else Notifications(h[..|h| - 1]) + if h[|h| - 1].Notified? then 1 else 0
  }

  function Bit(b: bool): nat {
    if b then 1 else 0
  }

  /** Notifications at or after `from` that found no permit stored. */
  function Effective(h: seq<Event>, from: nat): nat
    requires from <= |h|
  {
    if |h| == from then 0
    else
      var before := h[..|h| - 1];
      Effective(before, from) + Bit(h[|h| - 1].Notified? && !PermitAfter(before))
  }

  /** From any point on, wake-triggered polls are exactly the effective
      notifications plus the permit found, minus the permit left. */
  lemma {:induction false} ExactCoalescing(default: nat, h: seq<Event>, from: nat)
    requires HistoryOk(default, h) && from <= |h|
    ensures Wakes(h) + Bit(PermitAfter(h)) == Wakes(h[..from]) + Bit(PermitAfter(h[..from])) + Effective(h, from)
    ensures Effective(h, from) <= Notifications(h) - Notifications(h[..from])
    ensures Starts(h) == Timers(h) + Wakes(h)
  {
    if |h| == from {
      assert h[..from] == h;
      if h != [] {
        PrefixOk(default, h);
        ExactCoalescing(default, h[..from - 1], from - 1);
      }
    } else {
      PrefixOk(default, h);
      var before := h[..|h| - 1];
      ExactCoalescing(default, before, from);
      assert before[..from] == h[..from];
      assert EventOk(default, h, |h| - 1);
    }
  }

  lemma PrefixOk(default: nat, h: seq<Event>)
    requires HistoryOk(default, h) && h != []
    ensures HistoryOk(default, h[..|h| - 1])
  {
    var before := h[..|h| - 1];
    forall k: nat | k < |before|
      ensures EventOk(default, before, k)
    {
      assert EventOk(default, h, k);
      assert before[..k] == h[..k];
    }
  }

  /** However many notifications arrive while no poll starts, at most one of them is
      effective: those of one poll cause at most one wake-triggered poll. */
  lemma {:induction false} OneEffectivePerPoll(h: seq<Event>, from: nat)
    requires from <= |h|
    requires forall k | from <= k < |h| :: !h[k].Started?
    ensures Effective(h, from) <= 1
    ensures Effective(h, from) == 1 ==> PermitAfter(h)
    ensures PermitAfter(h[..from]) ==> Effective(h, from) == 0 && PermitAfter(h)
  {
    if |h| > from {
      OneEffectivePerPoll(h[..|h| - 1], from);
      assert h[..|h| - 1][..from] == h[..from];
    } else {
      assert h[..from] == h;
    }
  }

  /** The bounds that follow for a whole run. */
  lemma PollStartsBounded(default: nat, s: State, from: nat)
    requires Reachable(default, s) && from <= |s.history|
    ensures Starts(s.history) <= Timers(s.history) + Notifications(s.history)
    ensures Notifications(s.history) == Notifications(s.history[..from]) ==>
              Wakes(s.history) <= Wakes(s.history[..from]) + 1
  {
    ReachableInv(default, s);
    ExactCoalescing(default, s.history, 0);
    ExactCoalescing(default, s.history, from);
  }

  // ----- every wait ends in time -----

  /** A poll starts no later than the current interval after the previous one ended,
      and exactly then if the timer started it. */
  lemma WaitBounded(default: nat, s: State, k: nat)
    requires Reachable(default, s) && k < |s.history| && s.history[k].Started?
    ensures var before := s.history[..k];
            var interval := IntervalAfter(default, Outcomes(before));
            && LastEnd(before) <= s.history[k].at <= LastEnd(before) + interval
            && (s.history[k].cause == Timer ==> s.history[k].at == LastEnd(before) + interval)
            && (s.history[k].cause == Wake ==> PermitAfter(before))
  {
    ReachableInv(default, s);
    assert EventOk(default, s.history, k);
  }

  /** A waiting loop is never stuck: it can wake, time out, or let a second pass. */
  lemma NeverStuck(default: nat, s: State)
    requires Reachable(default, s) && s.phase.Waiting?
    ensures || Step(default, s, WakeBranch).phase.Polling?
            || Step(default, s, TimerBranch).phase.Polling?
            || Step(default, s, Tick(1)).clock == s.clock + 1
  {
    ReachableInv(default, s);
  }
}
