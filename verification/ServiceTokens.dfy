/** The running service and its two uses of the command token.  It loads the
    configuration once, when it starts: inbound requests are checked against the hash
    of the effective token of that record, and the poller sends the legacy field of the
    same record.  Configuration commands run beside it and change the file only. */
module ServiceTokens {
  import opened Prelude
  import opened Token
  import opened Config
  import opened ConfigCommands
  import opened ConfigLaws
  import CmdAuth

  /** The file, and the record the running service was started on, if one is running. */
  datatype State = State(disk: Disk, service: Option<Record>)

  /** A restart that comes up; without a configuration none does. */
  datatype Label = Invoke(cmd: Cmd) | Restart

  function Step(s: State, l: Label): State {
    match l
    case Invoke(cmd) => s.(disk := Apply(s.disk, cmd))
    case Restart => s.(service := Loaded(s.disk))
  }

  function Run(s: State, labels: seq<Label>): State
    decreases |labels|
  {
    if labels == [] then s else Run(Step(s, labels[0]), labels[1..])
  }

  /** The token whose hash requests are checked against. */
  function Inbound(s: State): Option<string> {
    match s.service
    case Some(r) => CmdToken(r)
    case None => None
  }

  /** The token the poller sends; without one it does not poll. */
  function Outbound(s: State): Option<string> {
    match s.service
    case Some(r) => r.compose.cmdToken
    case None => None
  }

  /** The gate of the running service. */
  function GatePolicy(p: CmdAuth.Policy, s: State): CmdAuth.Policy {
    p.(cmdTokenHash := if Inbound(s).Some? then Some(p.hashToken(Inbound(s).value)) else None)
  }

  predicate Accepts(p: CmdAuth.Policy, s: State, token: string) {
    Inbound(s).Some? && ValidateCmdTokenFormat(token) && p.hashToken(token) == p.hashToken(Inbound(s).value)
  }

  lemma GateAccepts(p: CmdAuth.Policy, s: State, req: CmdAuth.Request, token: string)
    requires req.authorization == Some("Bearer " + token)
    ensures CmdAuth.Authenticated(GatePolicy(p, s), req) <==> Accepts(p, s, token)
  {
    assert ("Bearer " + token)[7..] == token;
  }

  // ----- what a run does to file and service -----

  function CommandsOf(labels: seq<Label>): seq<Cmd> {
    if labels == [] then []
    else if labels[0].Invoke? then [labels[0].cmd] + CommandsOf(labels[1..])
    else CommandsOf(labels[1..])
  }

  lemma {:induction false} RunDisk(s: State, labels: seq<Label>)
    ensures Run(s, labels).disk == History(s.disk, CommandsOf(labels))
    decreases |labels|
  {
    if labels != [] {
      RunDisk(Step(s, labels[0]), labels[1..]);
    }
  }

  lemma {:induction false} RunAppend(s: State, a: seq<Label>, b: seq<Label>)
    ensures Run(s, a + b) == Run(Run(s, a), b)
    decreases |a|
  {
    if a == [] {
      assert a + b == b;
    } else {
      assert (a + b)[1..] == a[1..] + b;
      RunAppend(Step(s, a[0]), a[1..], b);
    }
  }

  lemma {:induction false} CommandsAppend(a: seq<Label>, b: seq<Label>)
    ensures CommandsOf(a + b) == CommandsOf(a) + CommandsOf(b)
    decreases |a|
  {
    if a == [] {
      assert a + b == b;
    } else {
      assert (a + b)[1..] == a[1..] + b;
      CommandsAppend(a[1..], b);
    }
  }

  /** No command reaches a running service. */
  lemma {:induction false} NoRestartKeepsService(s: State, labels: seq<Label>)
    requires Restart !in labels
    ensures Run(s, labels).service == s.service
    decreases |labels|
  {
    if labels != [] {
      assert labels[0] in labels;
      NoRestartKeepsService(Step(s, labels[0]), labels[1..]);
    }
  }

  /** The running service is the file as its last start found it. */
  lemma SnapshotLaw(s: State, before: seq<Label>, after: seq<Label>)
    requires Restart !in after
    ensures Run(s, before + [Restart] + after).service == Loaded(History(s.disk, CommandsOf(before)))
  {
    var t := Run(s, before);
    RunDisk(s, before);
    assert before + [Restart] + after == before + ([Restart] + after);
    RunAppend(s, before, [Restart] + after);
    assert ([Restart] + after)[1..] == after;
    assert Run(t, [Restart] + after) == Run(Step(t, Restart), after);
    NoRestartKeepsService(Step(t, Restart), after);
  }

  // ----- when a rotated token takes effect -----

  /** No command here sets the command token, in either place. */
  predicate TokenUntouched(labels: seq<Label>) {
    forall l | l in labels && l.Invoke? ::
      !IsReset(l.cmd) && !l.cmd.RefreshCmd? && !(l.cmd.Set? && KeyOf(l.cmd.key) == Some(CmdTokenKey))
  }

  /** What a start on this file would use. */
  function OnStart(disk: Disk): (Option<string>, Option<string>) {
    (Inbound(State(disk, Loaded(disk))), Outbound(State(disk, Loaded(disk))))
  }

  lemma UntouchedStep(disk: Disk, c: Cmd)
    requires disk.Some? && TokenUntouched([Invoke(c)])
    ensures Apply(disk, c).Some? && OnStart(Apply(disk, c)) == OnStart(disk)
  {
    assert Invoke(c) in [Invoke(c)];
  }

  lemma {:induction false} UntouchedRun(s: State, labels: seq<Label>)
    requires s.disk.Some? && TokenUntouched(labels)
    ensures var t := Run(s, labels);
            (Inbound(t), Outbound(t)) == if Restart in labels then OnStart(s.disk) else (Inbound(s), Outbound(s))
    decreases |labels|
  {
    if labels != [] {
      var next, rest := Step(s, labels[0]), labels[1..];
      assert labels == [labels[0]] + rest;
      if labels[0].Invoke? {
        UntouchedStep(s.disk, labels[0].cmd);
      }
      UntouchedRun(next, rest);
    }
  }

  /** A legacy write (`refresh-cmd`, or `set compose.cmd_token`) does not reach the
      running service.  From then on, until the token is set again: the poller sends the
      new token exactly once the service has been restarted (or if it did so before),
      and requests that carry it are accepted exactly once the service has been
      restarted and the file held no command entry or one with the same hash (or if
      they were accepted before). */
  lemma LegacyWriteTakesEffectIff(p: CmdAuth.Policy, s: State, c: Cmd, after: seq<Label>)
    requires s.disk.Some? && LegacyWrite(c).Some? && TokenUntouched(after)
    ensures var t, token, held := Run(s, [Invoke(c)] + after), LegacyWrite(c).value, EffectiveCmd(s.disk);
            && (Outbound(t) == Some(token) <==> Restart in after || Outbound(s) == Some(token))
            && (Accepts(p, t, token) <==>
                  if Restart in after then held.Some? ==> p.hashToken(token) == p.hashToken(held.value)
                  else Accepts(p, s, token))
  {
    var written := Step(s, Invoke(c));
    assert ([Invoke(c)] + after)[1..] == after;
    assert Run(s, [Invoke(c)] + after) == Run(written, after);
    NoResetStep(s.disk, c);
    LegacyWriteSplitsPlaces(s.disk, c);
    UntouchedRun(written, after);
  }

  // ----- over any history -----

  /** Inbound: the last effective reset before the last start decides, or else the first
      legacy write between the two. */
  lemma InboundLaw(s: State, before: seq<Label>, reset: Cmd, between: seq<Label>, after: seq<Label>)
    requires IsReset(reset) && Writes(History(s.disk, CommandsOf(before)), reset)
    requires NoReset(Apply(History(s.disk, CommandsOf(before)), reset), CommandsOf(between))
    requires Restart !in after
    ensures Inbound(Run(s, before + [Invoke(reset)] + between + [Restart] + after)) ==
              if ResetValue(reset).Some? then ResetValue(reset) else FirstLegacyWrite(CommandsOf(between))
  {
    SnapshotLaw(s, before + [Invoke(reset)] + between, after);
    CommandsSplit(before, reset, between);
    CommandTokenLaw(s.disk, CommandsOf(before), reset, CommandsOf(between));
  }

  lemma CommandsSplit(before: seq<Label>, c: Cmd, between: seq<Label>)
    ensures CommandsOf(before + [Invoke(c)] + between) == CommandsOf(before) + [c] + CommandsOf(between)
  {
    CommandsAppend(before + [Invoke(c)], between);
    CommandsAppend(before, [Invoke(c)]);
    assert CommandsOf([Invoke(c)]) == [c];
  }

  /** The value a command writes to the legacy field, if it gets that far. */
  function FieldWrite(c: Cmd): Option<Option<string>> {
    match c
    case RefreshCmd(token, _) => Some(Some(token))
    case Set(key, value, _) =>
      if KeyOf(key) == Some(CmdTokenKey) || KeyOf(key) == Some(Command)
      then Some(NonEmpty(value)) else None
    case Register(_, _, _, _, _, _, _) => Some(ResetValue(c))
    case _ => None
  }

  predicate WritesField(disk: Disk, c: Cmd) {
    Writes(disk, c) && FieldWrite(c).Some?
  }

  ghost predicate NoFieldWrite(disk: Disk, cmds: seq<Cmd>)
    decreases |cmds|
  {
    cmds != [] ==> !WritesField(disk, cmds[0]) && NoFieldWrite(Apply(disk, cmds[0]), cmds[1..])
  }

  lemma FieldStep(disk: Disk, c: Cmd)
    requires disk.Some? || WritesField(disk, c)
    ensures Apply(disk, c).Some?
    ensures OnStart(Apply(disk, c)).1 == if WritesField(disk, c) then FieldWrite(c).value else OnStart(disk).1
  {}

  lemma {:induction false} NoFieldWriteLaw(disk: Disk, cmds: seq<Cmd>)
    requires disk.Some? && NoFieldWrite(disk, cmds)
    ensures OnStart(History(disk, cmds)).1 == OnStart(disk).1
    decreases |cmds|
  {
    if cmds != [] {
      FieldStep(disk, cmds[0]);
      NoFieldWriteLaw(Apply(disk, cmds[0]), cmds[1..]);
    }
  }

  /** Outbound: the last write of the legacy field before the last start decides,
      whichever command made it and even if it cleared the field. */
  lemma OutboundLaw(s: State, before: seq<Label>, write: Cmd, between: seq<Label>, after: seq<Label>)
    requires WritesField(History(s.disk, CommandsOf(before)), write)
    requires NoFieldWrite(Apply(History(s.disk, CommandsOf(before)), write), CommandsOf(between))
    requires Restart !in after
    ensures Outbound(Run(s, before + [Invoke(write)] + between + [Restart] + after)) == FieldWrite(write).value
  {
    var d := History(s.disk, CommandsOf(before));
    SnapshotLaw(s, before + [Invoke(write)] + between, after);
    CommandsSplit(before, write, between);
    HistorySplit(s.disk, CommandsOf(before), write, CommandsOf(between));
    FieldStep(d, write);
    NoFieldWriteLaw(Apply(d, write), CommandsOf(between));
  }
}
