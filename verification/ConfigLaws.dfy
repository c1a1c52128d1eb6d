/** What arbitrary histories of configuration commands guarantee about the two
    credentials, and what `get` answers after `set`. */
module ConfigLaws {
  import opened Prelude
  import opened Text
  import opened Token
  import opened Config
  import opened ConfigCommands

  // ----- the command credential -----

  /** The effective command token after a load. */
  function EffectiveCmd(disk: Disk): Option<string> {
    match Loaded(disk)
    case Some(r) => CmdToken(r)
    case None => None
  }

  predicate Writes(disk: Disk, c: Cmd) {
    Saves(c) && ToSave(disk, c).Some?
  }

  /** Commands that set both places of the command token: register, and `set` on the
      command entry. */
  predicate IsReset(c: Cmd) {
    c.Register? || (c.Set? && KeyOf(c.key) == Some(Command))
  }

  function ResetValue(c: Cmd): Option<string>
    requires IsReset(c)
  {
    match c
    case Register(_, _, cmdToken, _, _, response, _) =>
      if response.Some? then ResolvedCmdToken(response.value, cmdToken) else None
    case Set(_, value, _) => NonEmpty(value)
  }

  /** The non-empty token a command writes to the legacy place only, if it does. */
  function LegacyWrite(c: Cmd): Option<string> {
    match c
    case RefreshCmd(token, saved) =>
      if saved && ValidateCmdTokenFormat(token) && Sliceable(token, PREFIX_BYTES) then Some(token) else None
    case Set(key, value, saved) =>
      if saved && KeyOf(key) == Some(CmdTokenKey) && ValidateCmdTokenFormat(value) && Sliceable(value, SHOWN_BYTES)
      then Some(value) else None
    case _ => None
  }

  function FirstLegacyWrite(cmds: seq<Cmd>): Option<string> {
    if cmds == [] then None
    else if LegacyWrite(cmds[0]).Some? then LegacyWrite(cmds[0])
    else FirstLegacyWrite(cmds[1..])
  }

  /** One command that is not an effective reset: a token once set stays; otherwise a
      legacy write supplies it. */
  lemma NoResetStep(disk: Disk, c: Cmd)
    requires disk.Some? && (IsReset(c) ==> !Writes(disk, c))
    ensures Apply(disk, c).Some?
    ensures EffectiveCmd(Apply(disk, c)) ==
              if EffectiveCmd(disk).Some? then EffectiveCmd(disk) else LegacyWrite(c)
  {
    if !Writes(disk, c) {
      assert Apply(disk, c) == disk;
    } else if c.Set? {
      SetKeepsCmd(Migrated(disk.value), KeyOf(c.key).value, c.value);
    }
  }

  /** `set` of any key but the command entry, on a loaded record. */
  lemma SetKeepsCmd(r: Record, k: Key, value: string)
    requires SetField(r, k, value).Some? && !k.Command?
    ensures CmdToken(Migrated(Serialized(SetField(r, k, value).value))) ==
              if r.api.tokens.command.None? && k.CmdTokenKey? then NonEmpty(value) else CmdToken(r)
  {}

  ghost predicate NoReset(disk: Disk, cmds: seq<Cmd>)
    decreases |cmds|
  {
    cmds != [] ==>
      && (IsReset(cmds[0]) ==> !Writes(disk, cmds[0]))
      && NoReset(Apply(disk, cmds[0]), cmds[1..])
  }

  lemma {:induction false} NoResetLaw(disk: Disk, cmds: seq<Cmd>)
    requires disk.Some? && NoReset(disk, cmds)
    ensures EffectiveCmd(History(disk, cmds)) ==
              if EffectiveCmd(disk).Some? then EffectiveCmd(disk) else FirstLegacyWrite(cmds)
    decreases |cmds|
  {
    if cmds != [] {
      NoResetStep(disk, cmds[0]);
      NoResetLaw(Apply(disk, cmds[0]), cmds[1..]);
    }
  }

  lemma {:induction false} HistoryAppend(disk: Disk, a: seq<Cmd>, b: seq<Cmd>)
    ensures History(disk, a + b) == History(History(disk, a), b)
    decreases |a|
  {
    if a == [] {
      assert a + b == b;
    } else {
      assert (a + b)[1..] == a[1..] + b;
      HistoryAppend(Apply(disk, a[0]), a[1..], b);
    }
  }

  lemma HistorySplit(disk: Disk, before: seq<Cmd>, c: Cmd, after: seq<Cmd>)
    ensures History(disk, before + [c] + after) == History(Apply(History(disk, before), c), after)
  {
    HistoryAppend(disk, before, [c] + after);
    assert before + [c] + after == before + ([c] + after);
    assert ([c] + after)[1..] == after;
  }

  /** The exact law over any history: the effective command token is what the last
      effective reset set; if that left it empty, it is the first non-empty legacy
      write since then, and later ones do not change it. */
  lemma CommandTokenLaw(disk: Disk, before: seq<Cmd>, reset: Cmd, after: seq<Cmd>)
    requires IsReset(reset) && Writes(History(disk, before), reset)
    requires NoReset(Apply(History(disk, before), reset), after)
    ensures EffectiveCmd(History(disk, before + [reset] + after)) ==
              if ResetValue(reset).Some? then ResetValue(reset) else FirstLegacyWrite(after)
  {
    var d := History(disk, before);
    HistorySplit(disk, before, reset, after);
    NoResetLaw(Apply(d, reset), after);
  }

  /** Once a command entry exists, a legacy write changes nothing of the loaded record
      but the legacy field.  The two places agree afterwards exactly when there was no
      entry or it already held the written token. */
  lemma LegacyWriteSplitsPlaces(disk: Disk, c: Cmd)
    requires disk.Some? && LegacyWrite(c).Some?
    ensures var before, after := Loaded(disk).value, Loaded(Apply(disk, c)).value;
            var token := LegacyWrite(c).value;
            && (before.api.tokens.command.Some? ==>
                  after == before.(compose := before.compose.(cmdToken := Some(token))))
            && after.compose.cmdToken == Some(token)
            && (CmdToken(after) == after.compose.cmdToken <==>
                  EffectiveCmd(disk) == None || EffectiveCmd(disk) == Some(token))
  {}

  // ----- the telemetry credential -----

  /** A telemetry entry, if there is one, repeats the node's own token. */
  predicate TelemetryAgrees(r: Record) {
    r.api.tokens.telemetry.Some? ==> r.api.tokens.telemetry.value.token == r.node.token
  }

  function NodeTokenWrite(disk: Disk, c: Cmd): Option<string> {
    if !Writes(disk, c) then None
    else
      match c
      case Register(_, _, _, _, _, response, _) => if response.Some? then Some(response.value.token) else None
      case Refresh(token, _, _) => Some(token)
      case Set(key, value, _) => if KeyOf(key) == Some(Telemetry) then NonEmpty(value) else None
      case _ => None
  }

  /** The last token written by register, an accepted refresh, or a non-empty `set`. */
  function LastNodeToken(disk: Disk, cmds: seq<Cmd>, token: string): string
    decreases |cmds|
  {
    if cmds == [] then token
    else
      var w := NodeTokenWrite(disk, cmds[0]);
      LastNodeToken(Apply(disk, cmds[0]), cmds[1..], if w.Some? then w.value else token)
  }

  lemma AgreementStep(disk: Disk, c: Cmd)
    requires disk.Some? ==> TelemetryAgrees(disk.value)
    ensures Apply(disk, c).Some? ==> TelemetryAgrees(Apply(disk, c).value)
    ensures disk.Some? ==> Apply(disk, c).Some?
    ensures disk.Some? ==>
              var w := NodeTokenWrite(disk, c);
              Apply(disk, c).value.node.token == if w.Some? then w.value else disk.value.node.token
  {}

  /** From any configuration that agrees (a registered one, or a legacy one without a
      telemetry entry), every history ends in one whose effective node token is the
      node's own token: the one written last.  Clearing the entry writes none, so the
      next load brings the same token back. */
  lemma {:induction false} NodeTokenLaw(disk: Disk, cmds: seq<Cmd>)
    requires disk.Some? && TelemetryAgrees(disk.value)
    ensures var end := History(disk, cmds);
            && end.Some? && TelemetryAgrees(end.value)
            && NodeToken(Loaded(end).value) == Loaded(end).value.node.token
            && NodeToken(Loaded(end).value) == LastNodeToken(disk, cmds, disk.value.node.token)
    decreases |cmds|
  {
    if cmds != [] {
      AgreementStep(disk, cmds[0]);
      NodeTokenLaw(Apply(disk, cmds[0]), cmds[1..]);
    }
  }

  /** A refresh the backend rejects leaves the stored configuration as it was. */
  lemma RejectedRefresh(disk: Disk, token: string, saved: bool)
    ensures Apply(disk, Refresh(token, false, saved)) == disk
    ensures disk.Some? && saved && ValidateTokenFormat(token) && Migrated(disk.value).node.token != token ==>
              EffectiveNode(Apply(disk, Refresh(token, true, saved))) == Some(token)
  {}

  function EffectiveNode(disk: Disk): Option<string> {
    match Loaded(disk)
    case Some(r) => Some(NodeToken(r))
    case None => None
  }

  // ----- the push interval -----

  function EffectivePush(disk: Disk): Option<nat> {
    match Loaded(disk)
    case Some(r) => Some(r.agent.pushSec)
    case None => None
  }

  /** The interval a command sets, if it gets that far. */
  function PushWrite(c: Cmd): Option<nat> {
    match c
    case Register(_, _, _, _, _, _, _) => Some(DEFAULT_PUSH_SEC)
    case Set(key, value, _) => if KeyOf(key) == Some(PushSec) then ParseUnsigned(value, U64_BOUND) else None
    case _ => None
  }

  predicate WritesPush(disk: Disk, c: Cmd) {
    Writes(disk, c) && PushWrite(c).Some?
  }

  lemma PushStep(disk: Disk, c: Cmd)
    requires disk.Some? || WritesPush(disk, c)
    ensures Apply(disk, c).Some?
    ensures EffectivePush(Apply(disk, c)) == if WritesPush(disk, c) then PushWrite(c) else EffectivePush(disk)
  {}

  ghost predicate NoPushWrite(disk: Disk, cmds: seq<Cmd>)
    decreases |cmds|
  {
    cmds != [] ==> !WritesPush(disk, cmds[0]) && NoPushWrite(Apply(disk, cmds[0]), cmds[1..])
  }

  /** Whatever else is written, and whether or not a legacy interval is being folded
      in, the interval in force stays until a command sets it ... */
  lemma {:induction false} NoPushWriteLaw(disk: Disk, cmds: seq<Cmd>)
    requires disk.Some? && NoPushWrite(disk, cmds)
    ensures EffectivePush(History(disk, cmds)) == EffectivePush(disk)
    decreases |cmds|
  {
    if cmds != [] {
      PushStep(disk, cmds[0]);
      NoPushWriteLaw(Apply(disk, cmds[0]), cmds[1..]);
    }
  }

  /** ... and from then on it is the one set last, even if that is the default and the
      first file held a legacy interval. */
  lemma PushIntervalLaw(disk: Disk, before: seq<Cmd>, write: Cmd, after: seq<Cmd>)
    requires WritesPush(History(disk, before), write)
    requires NoPushWrite(Apply(History(disk, before), write), after)
    ensures EffectivePush(History(disk, before + [write] + after)) == PushWrite(write)
  {
    var d := History(disk, before);
    HistorySplit(disk, before, write, after);
    PushStep(d, write);
    NoPushWriteLaw(Apply(d, write), after);
  }

  /** A legacy interval in the file is in force while push_sec is the default, before and
      after the first save, until a command sets the interval; otherwise the file's own
      push_sec is. */
  lemma LegacyIntervalLaw(disk: Disk, cmds: seq<Cmd>)
    requires disk.Some? && NoPushWrite(disk, cmds)
    ensures EffectivePush(History(disk, cmds)) ==
              if disk.value.api.pushIntervalSecs.Some? && disk.value.agent.pushSec == 6
              then disk.value.api.pushIntervalSecs else Some(disk.value.agent.pushSec)
  {
    NoPushWriteLaw(disk, cmds);
    MigrationFills(disk.value);
  }

  ghost predicate AnyWrite(disk: Disk, cmds: seq<Cmd>)
    decreases |cmds|
  {
    cmds != [] && (Writes(disk, cmds[0]) || AnyWrite(Apply(disk, cmds[0]), cmds[1..]))
  }

  /** The legacy interval is in the file exactly until the first command that writes;
      after that the stored interval alone is in force, for good. */
  lemma {:induction false} LegacyIntervalUntilSave(disk: Disk, cmds: seq<Cmd>)
    requires disk.Some?
    ensures var after := History(disk, cmds);
            && after.Some?
            && (if AnyWrite(disk, cmds)
                then after.value.api.pushIntervalSecs == None && EffectivePush(after) == Some(after.value.agent.pushSec)
                else after == disk)
    decreases |cmds|
  {
    if cmds != [] {
      var next := Apply(disk, cmds[0]);
      LegacyIntervalUntilSave(next, cmds[1..]);
      if Writes(disk, cmds[0]) && !AnyWrite(next, cmds[1..]) {
        assert next.value.api.pushIntervalSecs == None;
      }
    }
  }

  // ----- get after set -----

  /** What `get` answers for the key just set. */
  function Canonical(r: Record, k: Key, value: string): string
    requires SetField(r, k, value).Some?
  {
    match k
    case PushSec => Print(ParseUnsigned(value, U64_BOUND).value)
    case PollSec => Print(ParseUnsigned(value, U64_BOUND).value)
    case Port => Print(ParseUnsigned(value, U16_BOUND).value)
    case Tags => Join(SplitTags(value), ',')
    case Telemetry => if value == "" then Shown(NonEmpty(r.node.token)) else value
    case Command => Shown(NonEmpty(value))
    case CmdTokenKey => Shown(NonEmpty(value))
    case SigningKey => Shown(NonEmpty(value))
    case _ => value
  }

  /** The couplings: setting one key moves another. */
  predicate Coupled(r: Record, k: Key, value: string, other: Key) {
    || (k.Telemetry? && other.NodeTokenKey? && value != "")
    || (k.Command? && other.CmdTokenKey?)
    || (k.CmdTokenKey? && other.Command? && value != "" && r.api.tokens.command == None)
  }

  /** Set, save, load, get: the canonical form for the key itself, the same for a
      coupled key, and the old answer for every other key. */
  lemma GetAfterSet(disk: Disk, key: string, value: string, other: Key)
    requires Writes(disk, Set(key, value, true))
    ensures var before, k := Loaded(disk).value, KeyOf(key).value;
            var after := Loaded(Apply(disk, Set(key, value, true)));
            && after.Some?
            && GetField(after.value, other) ==
               if other == k || Coupled(before, k, value, other) then Canonical(before, k, value)
               else GetField(before, other)
  {
    MigrationSettles(disk.value);
    ReadBack(Migrated(disk.value), KeyOf(key).value, value, other);
  }

  function Answer(r: Record, k: Key, value: string, other: Key): string
    requires SetField(r, k, value).Some?
  {
    if other == k || Coupled(r, k, value, other) then Canonical(r, k, value) else GetField(r, other)
  }

  lemma ReadBack(r: Record, k: Key, value: string, other: Key)
    requires Settled(r) && SetField(r, k, value).Some?
    ensures GetField(Migrated(Serialized(SetField(r, k, value).value)), other) == Answer(r, k, value, other)
  {
    if k.Telemetry? || k.Command? || k.CmdTokenKey? {
      CredentialReadBack(r, k, value, other);
    } else {
      PlainSet(r, k, value);
      PlainReadBack(r, k, value, other);
    }
  }

  lemma PlainReadBack(r: Record, k: Key, value: string, other: Key)
    requires SetField(r, k, value).Some?
    requires !k.Telemetry? && !k.Command? && !k.CmdTokenKey?
    ensures GetField(SetField(r, k, value).value, other) == Answer(r, k, value, other)
  {
    if other == k {
      PlainReadBackSame(r, k, value);
    } else {
      PlainReadBackOther(r, k, value, other);
    }
  }

  lemma PlainReadBackSame(r: Record, k: Key, value: string)
    requires SetField(r, k, value).Some?
    requires !k.Telemetry? && !k.Command? && !k.CmdTokenKey?
    ensures GetField(SetField(r, k, value).value, k) == Canonical(r, k, value)
  {}

  lemma PlainReadBackOther(r: Record, k: Key, value: string, other: Key)
    requires SetField(r, k, value).Some? && other != k
    requires !k.Telemetry? && !k.Command? && !k.CmdTokenKey?
    ensures GetField(SetField(r, k, value).value, other) == GetField(r, other)
  {}

  lemma CredentialReadBack(r: Record, k: Key, value: string, other: Key)
    requires Settled(r) && SetField(r, k, value).Some?
    requires k.Telemetry? || k.Command? || k.CmdTokenKey?
    ensures GetField(Migrated(Serialized(SetField(r, k, value).value)), other) == Answer(r, k, value, other)
  {
    match k {
      case Telemetry => TelemetryReadBack(r, value, other);
      case Command => CommandReadBack(r, value, other);
      case CmdTokenKey => CmdTokenReadBack(r, value, other);
    }
  }

  lemma TelemetryReadBack(r: Record, value: string, other: Key)
    requires Settled(r)
    ensures GetField(Migrated(Serialized(SetField(r, Telemetry, value).value)), other) ==
              Answer(r, Telemetry, value, other)
  {
    CredentialSet(r, Telemetry, value);
  }

  lemma CommandReadBack(r: Record, value: string, other: Key)
    requires Settled(r)
    ensures GetField(Migrated(Serialized(SetField(r, Command, value).value)), other) == Answer(r, Command, value, other)
  {
    CredentialSet(r, Command, value);
  }

  lemma CmdTokenReadBack(r: Record, value: string, other: Key)
    requires Settled(r) && SetField(r, CmdTokenKey, value).Some?
    ensures GetField(Migrated(Serialized(SetField(r, CmdTokenKey, value).value)), other) ==
              Answer(r, CmdTokenKey, value, other)
  {
    CredentialSet(r, CmdTokenKey, value);
  }

  lemma PlainSet(r: Record, k: Key, value: string)
    requires Settled(r) && SetField(r, k, value).Some?
    requires !k.Telemetry? && !k.Command? && !k.CmdTokenKey?
    ensures Migrated(Serialized(SetField(r, k, value).value)) == SetField(r, k, value).value
  {
    MigrationSettles(SetField(r, k, value).value);
  }

  lemma CredentialSet(r: Record, k: Key, value: string)
    requires Settled(r) && SetField(r, k, value).Some?
    requires k.Telemetry? || k.Command? || k.CmdTokenKey?
    ensures var after := Migrated(Serialized(SetField(r, k, value).value));
            && after.agent == r.agent && after.service == r.service
            && after.api == r.api.(tokens := after.api.tokens)
            && after.compose == r.compose.(cmdToken := after.compose.cmdToken)
            && after.node == r.node.(token := after.node.token)
  {}

  /** A number that `set` accepts reads back as a number that `set` accepts, with the
      same meaning. */
  lemma CanonicalNumber(value: string, bound: nat)
    requires ParseUnsigned(value, bound).Some?
    ensures ParseUnsigned(Print(ParseUnsigned(value, bound).value), bound) == ParseUnsigned(value, bound)
  {
    ParsePrint(ParseUnsigned(value, bound).value, bound);
  }

  lemma TrimAllTrimmed(tags: seq<string>)
    requires forall t | t in tags :: Trimmed(t)
    ensures TrimAll(tags) == tags
  {
    assert forall i | 0 <= i < |tags| :: tags[i] in tags;
  }

  /** Setting tags to their own `get` value gives the same tags back exactly when
      there is a tag and every tag is comma-free and trimmed ... */
  lemma TagsFixedPointIff(tags: seq<string>)
    ensures SplitTags(Join(tags, ',')) == tags <==>
            tags != [] && forall t | t in tags :: ',' !in t && Trimmed(t)
  {
    if tags != [] && forall t | t in tags :: ',' !in t && Trimmed(t) {
      SplitJoin(tags, ',');
      TrimAllTrimmed(tags);
    }
  }

  /** The tags `set` stores are the pieces between the commas, each trimmed; there is
      always one, and none has a comma. */
  lemma SplitTagsLaw(value: string)
    ensures var pieces, tags := Split(value, ','), SplitTags(value);
            && |tags| == |pieces| && (forall i | 0 <= i < |tags| :: tags[i] == Trim(pieces[i]))
            && tags != [] && forall t | t in tags :: ',' !in t && Trimmed(t)
  {
    var pieces, tags := Split(value, ','), SplitTags(value);
    forall t | t in tags
      ensures ',' !in t && Trimmed(t)
    {
      var i :| 0 <= i < |tags| && tags[i] == t;
      assert pieces[i] in pieces;
    }
  }

  /** ... which `set` itself always establishes. */
  lemma TagsSetTwice(value: string)
    ensures SplitTags(Join(SplitTags(value), ',')) == SplitTags(value)
  {
    SplitTagsLaw(value);
    TagsFixedPointIff(SplitTags(value));
  }
}
