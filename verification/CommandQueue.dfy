/** The command queue: fetch the pending commands, then execute and report them one
    after the other, whatever becomes of the reports.

    Assumption on the backend: it keeps pending commands in order, never reuses an
    id, and drops a command once a report on it has been applied, be it after the
    client has given up waiting for the answer. */
module CommandQueue {

  datatype Command = Command(id: string, payload: string)

  /** What becomes of one PATCH while the client waits: applied and acknowledged,
      applied but the answer is lost, or not applied (refused, or not received yet). */
  datatype Report = Acknowledged | AnswerLost | NotApplied

  predicate Applied(r: Report) { !r.NotApplied? }

  datatype Event =
    | Executed(id: string)
    | Reported(id: string, applied: bool)
    | Restarted

  /** `batch` holds the fetched commands not yet reported; its first one has been
      executed iff `executed`. */
  datatype State = State(
    pending: seq<Command>,
    seen: set<string>,
    batch: seq<Command>,
    executed: bool,
    trace: seq<Event>)

  datatype Label =
    | Enqueue(cmd: Command)
    | Fetch
    | Execute
    | SendReport(r: Report)
    | ApplyLate(id: string)
    | Restart

  function Init(): State {
    State([], {}, [], false, [])
  }

  function Without(cmds: seq<Command>, id: string): (rest: seq<Command>)
    ensures forall c | c in rest :: c in cmds && c.id != id
    ensures forall c | c in cmds && c.id != id :: c in rest
  {
    if cmds == [] then []
    else if cmds[0].id == id then Without(cmds[1..], id)
    else [cmds[0]] + Without(cmds[1..], id)
  }

  function Step(s: State, l: Label): State {
    match l
    case Enqueue(cmd) =>
      if cmd.id in s.seen then s
      else s.(pending := s.pending + [cmd], seen := s.seen + {cmd.id})
    case Fetch =>
      if s.batch == [] then s.(batch := s.pending) else s
    case Execute =>
      if s.batch != [] && !s.executed
      then s.(executed := true, trace := s.trace + [Executed(s.batch[0].id)])
      else s
    case SendReport(r) =>
      if s.batch != [] && s.executed
      then
        var id := s.batch[0].id;
        s.(pending := if Applied(r) then Without(s.pending, id) else s.pending,
           batch := s.batch[1..], executed := false,
           trace := s.trace + [Reported(id, Applied(r))])
      else s
    case ApplyLate(id) =>
      if Reported(id, false) in s.trace then s.(pending := Without(s.pending, id)) else s
    case Restart => s.(batch := [], executed := false, trace := s.trace + [Restarted])
  }

  function Run(s: State, labels: seq<Label>): State
    decreases |labels|
  {
    if labels == [] then s else Run(Step(s, labels[0]), labels[1..])
  }

  // ----- the service side, as the loop it is -----

  /** The events of the first k commands of a batch: each executed, then reported. */
  function BatchTrace(cmds: seq<Command>, reports: seq<Report>, k: nat): seq<Event>
    requires k <= |cmds| && k <= |reports|
  {
    if k == 0 then []
    else
      var id := cmds[k - 1].id;
      BatchTrace(cmds, reports, k - 1) + [Executed(id), Reported(id, Applied(reports[k - 1]))]
  }

  /** What the backend still holds after the first k reports. */
  function PendingAfter(pending: seq<Command>, cmds: seq<Command>, reports: seq<Report>, k: nat): seq<Command>
    requires k <= |cmds| && k <= |reports|
  {
    if k == 0 then pending
    else
      var before := PendingAfter(pending, cmds, reports, k - 1);
      if Applied(reports[k - 1]) then Without(before, cmds[k - 1].id) else before
  }

  /** Exactly the commands with no applied report are kept. */
  lemma {:induction false} PendingAfterIs(pending: seq<Command>, cmds: seq<Command>, reports: seq<Report>, k: nat, c: Command)
    requires k <= |cmds| && k <= |reports|
    ensures c in PendingAfter(pending, cmds, reports, k) <==>
              c in pending && forall i | 0 <= i < k :: Applied(reports[i]) ==> cmds[i].id != c.id
  {
    if k > 0 {
      PendingAfterIs(pending, cmds, reports, k - 1, c);
    }
  }

  class Service {
    var pending: seq<Command>
    var trace: seq<Event>

    constructor (pending: seq<Command>)
      ensures this.pending == pending && trace == []
    {
      this.pending := pending;
      trace := [];
    }

    /** One poll whose i-th report has the i-th of the given fates. */
    method PollAndExecute(reports: seq<Report>)
      requires |reports| == |pending|
      modifies this
      ensures trace == old(trace) + BatchTrace(old(pending), reports, |reports|)
      ensures pending == PendingAfter(old(pending), old(pending), reports, |reports|)
    {
      var commands := pending;
      for i := 0 to |commands|
        invariant trace == old(trace) + BatchTrace(commands, reports, i)
        invariant pending == PendingAfter(commands, commands, reports, i)
      {
        var cmd := commands[i];
        trace := trace + [Executed(cmd.id)];
        trace := trace + [Reported(cmd.id, Applied(reports[i]))];
        if Applied(reports[i]) {
          pending := Without(pending, cmd.id);
        }
      }
    }
  }

  /** The labels of the first k steps of one undisturbed batch. */
  function BatchLabels(reports: seq<Report>, k: nat): seq<Label>
    requires k <= |reports|
  {
    if k == 0 then [] else BatchLabels(reports, k - 1) + [Execute, SendReport(reports[k - 1])]
  }

  /** The loop is the machine's own run of one undisturbed batch, so all that is
      proved of every run below holds of it. */
  lemma {:induction false} BatchIsRun(s: State, reports: seq<Report>, k: nat)
    requires !s.executed && k <= |s.batch| && k <= |reports|
    ensures Run(s, BatchLabels(reports, k)) ==
            s.(pending := PendingAfter(s.pending, s.batch, reports, k), batch := s.batch[k..],
               trace := s.trace + BatchTrace(s.batch, reports, k))
  {
    if k > 0 {
      BatchIsRun(s, reports, k - 1);
      RunAppend(s, BatchLabels(reports, k - 1), [Execute, SendReport(reports[k - 1])]);
      TwoSteps(Run(s, BatchLabels(reports, k - 1)), Execute, SendReport(reports[k - 1]));
    }
  }

  lemma RunAppend(s: State, a: seq<Label>, b: seq<Label>)
    ensures Run(s, a + b) == Run(Run(s, a), b)
    decreases |a|
  {
    if a == [] {
      assert a + b == b;
    } else {
      assert (a + b)[1..] == a[1..] + b;
      RunAppend(Step(s, a[0]), a[1..], b);
    }
  }

  lemma TwoSteps(s: State, l: Label, m: Label)
    ensures Run(s, [l, m]) == Step(Step(s, l), m)
  {
    assert [l, m][1..] == [m];
    assert Run(Step(s, l), [m]) == Run(Step(Step(s, l), m), []);
  }

  // ----- the invariant of every run -----

  ghost predicate DistinctIds(cmds: seq<Command>) {
    forall i, j | 0 <= i < j < |cmds| :: cmds[i].id != cmds[j].id
  }

  lemma {:induction false} WithoutDistinct(cmds: seq<Command>, id: string)
    requires DistinctIds(cmds)
    ensures DistinctIds(Without(cmds, id))
  {
    if cmds != [] {
      WithoutDistinct(cmds[1..], id);
    }
  }

  /** How the k-th event fits what came before it. */
  predicate EventOk(trace: seq<Event>, k: nat)
    requires k < |trace|
  {
    match trace[k]
    case Executed(id) => k > 0 ==> !trace[k - 1].Executed?
    case Reported(id, _) => k > 0 && trace[k - 1] == Executed(id)
    case Restarted => true
  }

  ghost predicate TraceOk(trace: seq<Event>) {
    && (forall k: nat | k < |trace| :: EventOk(trace, k))
    && (forall id, i, j | 0 <= i < j < |trace| && trace[i] == Reported(id, true) :: trace[j] != Executed(id))
  }

  ghost predicate Inv(s: State) {
    && DistinctIds(s.pending) && DistinctIds(s.batch)
    && (forall c | c in s.pending :: c.id in s.seen)
    && (forall c | c in s.batch :: c.id in s.seen)
    && (forall id, c | Reported(id, true) in s.trace && (c in s.pending || c in s.batch) :: c.id != id)
    && (forall id, applied | Reported(id, applied) in s.trace :: id in s.seen)
    && TraceOk(s.trace)
    && s.executed == (s.trace != [] && s.trace[|s.trace| - 1].Executed?)
    && (s.executed ==> s.batch != [] && s.trace[|s.trace| - 1] == Executed(s.batch[0].id))
  }

  lemma TraceExtended(trace: seq<Event>, e: Event)
    requires TraceOk(trace) && EventOk(trace + [e], |trace|)
    requires e.Executed? ==> Reported(e.id, true) !in trace
    ensures TraceOk(trace + [e])
  {
    forall k: nat | k <= |trace|
      ensures EventOk(trace + [e], k)
    {
      assert k < |trace| ==> EventOk(trace, k);
    }
  }

  lemma ReportKeepsInv(s: State, r: Report)
    requires Inv(s) && s.executed
    ensures Inv(Step(s, SendReport(r)))
  {
    var id := s.batch[0].id;
    var t := Step(s, SendReport(r));
    WithoutDistinct(s.pending, id);
    TraceExtended(s.trace, Reported(id, Applied(r)));
    forall c | c in t.batch
      ensures c in s.batch && c.id != id
    {}
    assert s.batch[0] in s.batch;
  }

  lemma StepKeepsInv(s: State, l: Label)
    requires Inv(s)
    ensures Inv(Step(s, l))
  {
    match l {
      case Enqueue(cmd) =>
      case Fetch =>
      case Execute =>
        if s.batch != [] && !s.executed {
          assert s.batch[0] in s.batch;
          TraceExtended(s.trace, Executed(s.batch[0].id));
        }
      case SendReport(r) =>
        if s.executed {
          ReportKeepsInv(s, r);
        }
      case ApplyLate(id) => WithoutDistinct(s.pending, id);
      case Restart => TraceExtended(s.trace, Restarted);
    }
  }

  lemma {:induction false} RunKeepsInv(s: State, labels: seq<Label>)
    requires Inv(s)
    ensures Inv(Run(s, labels))
    decreases |labels|
  {
    if labels != [] {
      StepKeepsInv(s, labels[0]);
      RunKeepsInv(Step(s, labels[0]), labels[1..]);
    }
  }

  ghost predicate Reachable(s: State) {
    exists labels :: s == Run(Init(), labels)
  }

  lemma ReachableInv(s: State)
    requires Reachable(s)
    ensures Inv(s)
  {
    var labels :| s == Run(Init(), labels);
    RunKeepsInv(Init(), labels);
  }

  // ----- what the backend sees over whole runs -----

  /** Once a report on a command has been applied while the client waited for it, the
      command is never executed or reported again. */
  lemma AppliedIsFinal(s: State, id: string, r: nat, k: nat)
    requires Reachable(s) && r < k < |s.trace| && s.trace[r] == Reported(id, true)
    ensures s.trace[k] != Executed(id) && forall applied :: s.trace[k] != Reported(id, applied)
  {
    ReachableInv(s);
    assert EventOk(s.trace, k);
  }

  /** Without a restart, a command whose first report is applied runs exactly once:
      in the step right before that report. */
  lemma ExactlyOnce(s: State, id: string, r: nat, k: nat)
    requires Reachable(s) && r < |s.trace| && k < |s.trace| && Restarted !in s.trace
    requires s.trace[r] == Reported(id, true)
    requires forall i, applied | 0 <= i < r :: s.trace[i] != Reported(id, applied)
    ensures s.trace[k] == Executed(id) <==> k == r - 1
  {
    ReachableInv(s);
    assert EventOk(s.trace, r);
    if s.trace[k] == Executed(id) && k + 1 < |s.trace| {
      assert EventOk(s.trace, k + 1);
    }
  }

  function Executions(trace: seq<Event>, id: string): nat {
    if trace == [] then 0
    else Executions(trace[..|trace| - 1], id) + if trace[|trace| - 1] == Executed(id) then 1 else 0
  }

  function Reports(trace: seq<Event>, id: string): nat {
    if trace == [] then 0
    else Reports(trace[..|trace| - 1], id) +
         if trace[|trace| - 1].Reported? && trace[|trace| - 1].id == id then 1 else 0
  }

  function Restarts(trace: seq<Event>): nat {
    if trace == [] then 0
    else Restarts(trace[..|trace| - 1]) + if trace[|trace| - 1].Restarted? then 1 else 0
  }

  lemma {:induction false} CountsAgree(trace: seq<Event>, id: string)
    requires TraceOk(trace)
    ensures var open := if trace != [] && trace[|trace| - 1] == Executed(id) then 1 else 0;
            Reports(trace, id) + open <= Executions(trace, id) <= Reports(trace, id) + open + Restarts(trace)
  {
    if trace != [] {
      var n := |trace| - 1;
      var before := trace[..n];
      forall k: nat | k < n
        ensures EventOk(before, k)
      {
        assert EventOk(trace, k);
      }
      assert EventOk(trace, n);
      CountsAgree(before, id);
    }
  }

  /** Executions and report attempts agree: a command is executed once per attempt,
      plus once if its report is still to come, plus at most once per restart. */
  lemma ExecutionsMatchReports(s: State, id: string)
    requires Reachable(s)
    ensures var open := if s.executed && s.batch != [] && s.batch[0].id == id then 1 else 0;
            && Reports(s.trace, id) + open <= Executions(s.trace, id)
            && Executions(s.trace, id) <= Reports(s.trace, id) + open + Restarts(s.trace)
  {
    ReachableInv(s);
    CountsAgree(s.trace, id);
  }

  /** The command has been fetched and not executed since. */
  ghost predicate Waiting(s: State, id: string) {
    exists i | (if s.executed then 1 else 0) <= i < |s.batch| :: s.batch[i].id == id
  }

  ghost predicate Dropped(s: State, id: string) {
    Inv(s) && id in s.seen && forall c | c in s.pending :: c.id != id
  }

  lemma DroppedStep(s: State, l: Label, id: string)
    requires Dropped(s, id)
    ensures var t := Step(s, l);
            && Dropped(t, id)
            && Executions(t.trace, id) + (if Waiting(t, id) then 1 else 0) <=
               Executions(s.trace, id) + (if Waiting(s, id) then 1 else 0)
  {
    var t := Step(s, l);
    StepKeepsInv(s, l);
    if t.trace != s.trace {
      assert t.trace[..|t.trace| - 1] == s.trace;
    }
    if Waiting(t, id) {
      var i :| (if t.executed then 1 else 0) <= i < |t.batch| && t.batch[i].id == id;
      if l.SendReport? && t != s {
        assert s.batch[i + 1].id == id;
      }
    }
    if l.Execute? && t != s && s.batch[0].id == id {
      assert Waiting(s, id);
    }
  }

  lemma {:induction false} DroppedRun(s: State, labels: seq<Label>, id: string)
    requires Dropped(s, id)
    ensures var t := Run(s, labels);
            Executions(t.trace, id) + (if Waiting(t, id) then 1 else 0) <=
            Executions(s.trace, id) + (if Waiting(s, id) then 1 else 0)
    decreases |labels|
  {
    if labels != [] {
      DroppedStep(s, labels[0], id);
      DroppedRun(Step(s, labels[0]), labels[1..], id);
    }
  }

  /** A report applied only after the client gave up on it: from then on the command is
      executed at most once more, and not at all unless it was fetched again before. */
  lemma LateApplication(s: State, id: string, labels: seq<Label>)
    requires Reachable(s) && Reported(id, false) in s.trace
    ensures var t := Run(Step(s, ApplyLate(id)), labels);
            Executions(t.trace, id) <= Executions(s.trace, id) + (if Waiting(s, id) then 1 else 0)
  {
    ReachableInv(s);
    StepKeepsInv(s, ApplyLate(id));
    DroppedRun(Step(s, ApplyLate(id)), labels, id);
    assert Waiting(Step(s, ApplyLate(id)), id) ==> Waiting(s, id);
  }

  /** Where a batch fetched in state `s` stands in state `t`, after this many reports. */
  predicate BatchAt(s: State, t: State, reports: seq<Report>) {
    var k := |reports|;
    && k <= |s.batch| && t.batch == s.batch[k..]
    && (t.executed ==> k < |s.batch|)
    && t.trace == s.trace + BatchTrace(s.batch, reports, k) +
                  (if t.executed then [Executed(s.batch[k].id)] else [])
  }

  lemma BatchStep(s: State, t: State, reports: seq<Report>, l: Label) returns (more: seq<Report>)
    requires BatchAt(s, t, reports) && (l.Enqueue? || l.Execute? || l.SendReport? || l.ApplyLate?)
    ensures BatchAt(s, Step(t, l), more)
  {
    more := reports;
    if l.SendReport? && t.executed {
      BatchOneMore(s.batch, reports, l.r, s.trace);
      more := reports + [l.r];
    }
  }

  /** From a fetched batch on, and however enqueuing and late reports interleave, the
      trace grows by the batch's own events in fetch order, whatever the reports
      return. */
  lemma {:induction false} BatchInOrder(s: State, labels: seq<Label>) returns (reports: seq<Report>)
    requires !s.executed
    requires forall l | l in labels :: l.Enqueue? || l.Execute? || l.SendReport? || l.ApplyLate?
    ensures BatchAt(s, Run(s, labels), reports)
    decreases |labels|
  {
    if labels == [] {
      reports := [];
    } else {
      var last, rest := labels[|labels| - 1], labels[..|labels| - 1];
      reports := BatchInOrder(s, rest);
      assert labels == rest + [last];
      RunAppend(s, rest, [last]);
      assert Run(Run(s, rest), [last]) == Run(Step(Run(s, rest), last), []);
      assert last in labels;
      reports := BatchStep(s, Run(s, rest), reports, last);
    }
  }

  /** A whole poll: from a fetch on, the trace grows by the events of everything that was
      pending, in the backend's order. */
  lemma PollDelivers(s: State, labels: seq<Label>) returns (reports: seq<Report>)
    requires s.batch == [] && !s.executed
    requires forall l | l in labels :: l.Enqueue? || l.Execute? || l.SendReport? || l.ApplyLate?
    ensures var t, k := Run(s, [Fetch] + labels), |reports|;
            && k <= |s.pending| && t.batch == s.pending[k..] && (t.executed ==> k < |s.pending|)
            && t.trace == s.trace + BatchTrace(s.pending, reports, k) +
                          (if t.executed then [Executed(s.pending[k].id)] else [])
  {
    assert ([Fetch] + labels)[1..] == labels;
    reports := BatchInOrder(Step(s, Fetch), labels);
  }

  /** What the backend holds: a new command goes last; a report that reaches it, whether
      or not the answer gets back, removes its command and no other; a report that does
      not, removes none. */
  lemma BackendHolds(s: State, cmd: Command, r: Report, c: Command)
    ensures cmd.id !in s.seen ==> Step(s, Enqueue(cmd)).pending == s.pending + [cmd]
    ensures cmd.id in s.seen ==> Step(s, Enqueue(cmd)) == s
    ensures s.batch != [] && s.executed ==>
              (c in Step(s, SendReport(r)).pending <==> c in s.pending && (r == NotApplied || c.id != s.batch[0].id))
  {}

  lemma BatchOneMore(cmds: seq<Command>, reports: seq<Report>, r: Report, trace: seq<Event>)
    requires |reports| < |cmds|
    ensures var k := |reports|;
            trace + BatchTrace(cmds, reports, k) + [Executed(cmds[k].id)] + [Reported(cmds[k].id, Applied(r))] ==
            trace + BatchTrace(cmds, reports + [r], k + 1)
  {
    BatchPrefix(cmds, reports, [r], |reports|);
  }

  lemma {:induction false} BatchPrefix(cmds: seq<Command>, reports: seq<Report>, more: seq<Report>, k: nat)
    requires k <= |cmds| && k <= |reports|
    ensures BatchTrace(cmds, reports + more, k) == BatchTrace(cmds, reports, k)
  {
    if k > 0 {
      BatchPrefix(cmds, reports, more, k - 1);
    }
  }
}
