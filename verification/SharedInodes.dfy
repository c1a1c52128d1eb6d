/** The compose file store one level down: the temporary write is an open, which
    truncates, then any number of partial writes at the writer's own offset, then a
    close; and a name is bound to an inode, so a writer that still holds the temporary
    file open when another one renames it goes on writing into the live file. */
module SharedInodes {
  import opened Prelude

  datatype Writer =
    | Validated(content: string)
    | Writing(content: string, inode: nat, offset: nat)
    | Closed(content: string)
    | RenameFailed

  /** File contents by inode, the inodes that the two names are bound to, the writers. */
  datatype State = State(inodes: seq<string>, live: Option<nat>, tmp: Option<nat>, writers: map<nat, Writer>)

  datatype Label =
    | Begin(id: nat, content: string)
    | Open(id: nat)
    | Fill(id: nat, n: nat)
    | Close(id: nat)
    | GiveUp(id: nat)
    | Rename(id: nat, ok: bool)
    | Remove(id: nat, ok: bool)
    | Crash

  function Live(s: State): Option<string> {
    if s.live.Some? && s.live.value < |s.inodes| then Some(s.inodes[s.live.value]) else None
  }

  /** A write at an offset; a gap before it reads as zeros. */
  function WriteAt(file: string, offset: nat, data: string): string {
    if data == "" then file
    else
      var padded := if |file| < offset then file + seq(offset - |file|, _ => '\0') else file;
      padded[..offset] + data + if offset + |data| < |padded| then padded[offset + |data|..] else ""
  }

  function Leave(s: State, id: nat): State {
    s.(writers := s.writers - {id})
  }

  predicate Complete(w: Writer)
    requires w.Writing?
  {
    w.offset == |w.content|
  }

  function Step(p: string -> bool, s: State, l: Label): State {
    match l
    case Begin(id, content) =>
      if id in s.writers || !p(content) then s else s.(writers := s.writers[id := Validated(content)])
    case Open(id) =>
      if id !in s.writers || !s.writers[id].Validated? then s
      else if s.tmp.Some? && s.tmp.value < |s.inodes| then
        s.(inodes := s.inodes[s.tmp.value := ""],
           writers := s.writers[id := Writing(s.writers[id].content, s.tmp.value, 0)])
      else
        s.(inodes := s.inodes + [""], tmp := Some(|s.inodes|),
           writers := s.writers[id := Writing(s.writers[id].content, |s.inodes|, 0)])
    case Fill(id, n) =>
      if id !in s.writers || !s.writers[id].Writing? then s
      else
        var Writing(content, inode, offset) := s.writers[id];
        if n > 0 && inode < |s.inodes| && offset + n <= |content| then
          s.(inodes := s.inodes[inode := WriteAt(s.inodes[inode], offset, content[offset..offset + n])],
             writers := s.writers[id := Writing(content, inode, offset + n)])
        else s
    case Close(id) =>
      if id in s.writers && s.writers[id].Writing? && Complete(s.writers[id])
      then s.(writers := s.writers[id := Closed(s.writers[id].content)])
      else s
    case GiveUp(id) =>
      if id in s.writers && (s.writers[id].Validated? || (s.writers[id].Writing? && !Complete(s.writers[id])))
      then Leave(s, id) else s
    case Rename(id, ok) =>
      if id !in s.writers || !s.writers[id].Closed? then s
      else if !ok || s.tmp.None? then s.(writers := s.writers[id := RenameFailed])
      else Leave(s, id).(live := s.tmp, tmp := None)
    case Remove(id, ok) =>
      if id in s.writers && s.writers[id].RenameFailed?
      then Leave(s, id).(tmp := if ok then None else s.tmp)
      else s
    case Crash => s.(writers := map[])
  }

  function Run(p: string -> bool, s: State, labels: seq<Label>): State
    decreases |labels|
  {
    if labels == [] then s else Run(p, Step(p, s, labels[0]), labels[1..])
  }

  /** Before the first put: what the two names are bound to, if anything. */
  function Init(yaml: Option<string>, leftover: Option<string>): State {
    var first := if yaml.Some? then [yaml.value] else [];
    var second := if leftover.Some? then [leftover.value] else [];
    State(first + second, if yaml.Some? then Some(0) else None,
          if leftover.Some? then Some(|first|) else None, map[])
  }

  // ----- the invariant of every run -----

  /** The names are bound to different inodes, and open writers have written their
      content up to their offset. */
  ghost predicate Inv(s: State) {
    && (s.live.Some? ==> s.live.value < |s.inodes|)
    && (s.tmp.Some? ==> s.tmp.value < |s.inodes| && s.tmp != s.live)
    && (forall id | id in s.writers && s.writers[id].Writing? ::
          s.writers[id].inode < |s.inodes| && s.writers[id].offset <= |s.writers[id].content|)
  }

  lemma StepKeepsInv(p: string -> bool, s: State, l: Label)
    requires Inv(s)
    ensures Inv(Step(p, s, l))
  {}

  lemma {:induction false} RunKeepsInv(p: string -> bool, s: State, labels: seq<Label>)
    requires Inv(s)
    ensures Inv(Run(p, s, labels))
    decreases |labels|
  {
    if labels != [] {
      StepKeepsInv(p, s, labels[0]);
      RunKeepsInv(p, Step(p, s, labels[0]), labels[1..]);
    }
  }

  lemma RunAppend(p: string -> bool, s: State, a: seq<Label>, b: seq<Label>)
    ensures Run(p, s, a + b) == Run(p, Run(p, s, a), b)
    decreases |a|
  {
    if a == [] {
      assert a + b == b;
    } else {
      assert (a + b)[1..] == a[1..] + b;
      RunAppend(p, Step(p, s, a[0]), a[1..], b);
    }
  }

  lemma InitInv(yaml: Option<string>, leftover: Option<string>)
    ensures Inv(Init(yaml, leftover)) && Live(Init(yaml, leftover)) == yaml
  {}

  ghost predicate Reachable(p: string -> bool, yaml: Option<string>, leftover: Option<string>, s: State) {
    exists labels :: s == Run(p, Init(yaml, leftover), labels)
  }

  lemma ReachableInv(p: string -> bool, yaml: Option<string>, leftover: Option<string>, s: State)
    requires Reachable(p, yaml, leftover, s)
    ensures Inv(s)
  {
    var labels :| s == Run(p, Init(yaml, leftover), labels);
    InitInv(yaml, leftover);
    RunKeepsInv(p, Init(yaml, leftover), labels);
  }

  lemma RunReachable(p: string -> bool, yaml: Option<string>, leftover: Option<string>, s: State, more: seq<Label>)
    requires Reachable(p, yaml, leftover, s)
    ensures Reachable(p, yaml, leftover, Run(p, s, more))
  {
    var labels :| s == Run(p, Init(yaml, leftover), labels);
    RunAppend(p, Init(yaml, leftover), labels, more);
  }

  lemma StepReachable(p: string -> bool, yaml: Option<string>, leftover: Option<string>, s: State, l: Label)
    requires Reachable(p, yaml, leftover, s)
    ensures Reachable(p, yaml, leftover, Step(p, s, l))
  {
    RunReachable(p, yaml, leftover, s, [l]);
    assert Run(p, s, [l]) == Run(p, Step(p, s, l), []);
  }

  // ----- when the live file stays as it is -----

  predicate Publishes(l: Label) {
    l.Rename? && l.ok
  }

  predicate HoldsLive(s: State, id: nat) {
    id in s.writers && s.writers[id].Writing? && Some(s.writers[id].inode) == s.live
  }

  /** What a writer has yet to write is already there. */
  predicate NothingNew(file: string, w: Writer)
    requires w.Writing?
  {
    w.offset < |w.content| ==> |w.content| <= |file| && w.content[w.offset..] == file[w.offset..|w.content|]
  }

  /** No writer still holding the live file has anything new to write into it. */
  ghost predicate Quiet(s: State) {
    forall id | HoldsLive(s, id) && Live(s).Some? :: NothingNew(Live(s).value, s.writers[id])
  }

  lemma WriteNothingNew(file: string, w: Writer, n: nat)
    requires w.Writing? && w.offset + n <= |w.content| && NothingNew(file, w)
    ensures WriteAt(file, w.offset, w.content[w.offset..w.offset + n]) == file
    ensures NothingNew(file, w.(offset := w.offset + n))
  {
    if n > 0 {
      var rest, there := w.content[w.offset..], file[w.offset..|w.content|];
      assert w.content[w.offset..w.offset + n] == rest[..n] == there[..n] == file[w.offset..w.offset + n];
      assert w.content[w.offset + n..] == rest[n..] == there[n..] == file[w.offset + n..|w.content|];
    }
  }

  lemma WriteSomethingNew(file: string, w: Writer)
    requires w.Writing? && w.offset <= |w.content| && !NothingNew(file, w)
    ensures WriteAt(file, w.offset, w.content[w.offset..]) != file
  {
    var data := w.content[w.offset..];
    var after := WriteAt(file, w.offset, data);
    assert after[w.offset..|w.content|] == data;
  }

  lemma QuietFill(p: string -> bool, s: State, id: nat, n: nat)
    requires Inv(s) && Quiet(s)
    ensures Live(Step(p, s, Fill(id, n))) == Live(s) && Quiet(Step(p, s, Fill(id, n)))
  {
    var t := Step(p, s, Fill(id, n));
    if t != s {
      var w := s.writers[id];
      if HoldsLive(s, id) {
        WriteNothingNew(Live(s).value, w, n);
      }
      assert t.writers[id] == w.(offset := w.offset + n);
      assert forall other | other != id && other in t.writers :: t.writers[other] == s.writers[other];
      assert forall other :: HoldsLive(t, other) <==> HoldsLive(s, other);
    }
  }

  lemma QuietStep(p: string -> bool, s: State, l: Label)
    requires Inv(s) && Quiet(s) && !Publishes(l)
    ensures Live(Step(p, s, l)) == Live(s) && Quiet(Step(p, s, l))
  {
    if l.Fill? {
      QuietFill(p, s, l.id, l.n);
    } else {
      var t := Step(p, s, l);
      assert Live(t) == Live(s);
      forall id | HoldsLive(t, id) && Live(t).Some?
        ensures NothingNew(Live(t).value, t.writers[id])
      {
        assert HoldsLive(s, id);
      }
    }
  }

  lemma {:induction false} QuietRun(p: string -> bool, s: State, labels: seq<Label>)
    requires Inv(s) && Quiet(s) && forall l | l in labels :: !Publishes(l)
    ensures Live(Run(p, s, labels)) == Live(s)
    decreases |labels|
  {
    if labels != [] {
      assert labels[0] in labels;
      QuietStep(p, s, labels[0]);
      StepKeepsInv(p, s, labels[0]);
      QuietRun(p, Step(p, s, labels[0]), labels[1..]);
    }
  }

  ghost predicate StaysUntilNextPublish(p: string -> bool, s: State) {
    forall labels | (forall l | l in labels :: !Publishes(l)) :: Live(Run(p, s, labels)) == Live(s)
  }

  /** In every state of every run: whatever happens next, the live file stays as it is
      until the next successful rename exactly when no writer that still holds it open
      has anything new to write.  In particular the state right after a rename decides
      for all later times. */
  lemma LiveStaysIff(p: string -> bool, yaml: Option<string>, leftover: Option<string>, s: State)
    requires Reachable(p, yaml, leftover, s)
    ensures StaysUntilNextPublish(p, s) <==> Quiet(s)
  {
    ReachableInv(p, yaml, leftover, s);
    StaysIff(p, s);
  }

  lemma StaysIff(p: string -> bool, s: State)
    requires Inv(s)
    ensures StaysUntilNextPublish(p, s) <==> Quiet(s)
  {
    if Quiet(s) {
      forall labels | (forall l | l in labels :: !Publishes(l))
        ensures Live(Run(p, s, labels)) == Live(s)
      {
        QuietRun(p, s, labels);
      }
    } else {
      var id :| HoldsLive(s, id) && Live(s).Some? && !NothingNew(Live(s).value, s.writers[id]);
      var w := s.writers[id];
      var labels := [Fill(id, |w.content| - w.offset)];
      WriteSomethingNew(Live(s).value, w);
      assert w.content[w.offset..] == w.content[w.offset..w.offset + (|w.content| - w.offset)];
      assert Run(p, s, labels) == Run(p, Step(p, s, labels[0]), []);
      assert Live(Run(p, s, labels)) != Live(s);
    }
  }

  // ----- a put that nobody disturbs -----

  /** The temporary file is this writer's, as far as written, and nobody else holds it. */
  ghost predicate Owns(s: State, id: nat) {
    && s.tmp.Some? && s.tmp.value < |s.inodes| && id in s.writers
    && (match s.writers[id]
        case Writing(content, inode, offset) =>
          inode == s.tmp.value && offset <= |content| && s.inodes[inode] == content[..offset]
        case Closed(content) => s.inodes[s.tmp.value] == content
        case _ => false)
    && NobodyElse(s, id)
  }

  ghost predicate NobodyElse(s: State, id: nat) {
    forall other | other in s.writers && other != id && s.writers[other].Writing? ::
      Some(s.writers[other].inode) != s.tmp
  }

  /** Labels by which another writer, or this one's own end, or a crash ends the
      ownership. */
  predicate Disturbs(l: Label, id: nat) {
    match l
    case Open(other) => true
    case Rename(other, ok) => true
    case Remove(other, ok) => true
    case GiveUp(other) => other == id
    case Crash => true
    case _ => false
  }

  lemma OpenOwns(p: string -> bool, s: State, id: nat)
    requires Inv(s) && id in s.writers && s.writers[id].Validated? && NobodyElse(s, id)
    ensures Owns(Step(p, s, Open(id)), id)
    ensures Step(p, s, Open(id)).writers[id].content == s.writers[id].content
  {}

  lemma OwnsStep(p: string -> bool, s: State, l: Label, id: nat)
    requires Inv(s) && Owns(s, id) && !Disturbs(l, id)
    ensures var t := Step(p, s, l); Owns(t, id) && t.writers[id].content == s.writers[id].content
  {
    if l.Fill? && l.id == id && s.writers[id].Writing? {
      var Writing(content, inode, offset) := s.writers[id];
      if offset + l.n <= |content| {
        assert content[..offset] + content[offset..offset + l.n] == content[..offset + l.n];
      }
    }
  }

  lemma {:induction false} OwnsRun(p: string -> bool, s: State, labels: seq<Label>, id: nat)
    requires Inv(s) && Owns(s, id) && forall l | l in labels :: !Disturbs(l, id)
    ensures var t := Run(p, s, labels);
            Inv(t) && Owns(t, id) && t.writers[id].content == s.writers[id].content
    decreases |labels|
  {
    if labels != [] {
      assert labels[0] in labels;
      OwnsStep(p, s, labels[0], id);
      StepKeepsInv(p, s, labels[0]);
      OwnsRun(p, Step(p, s, labels[0]), labels[1..], id);
    }
  }

  /** A put that opens the temporary file while nobody holds it, and between its open and
      its rename is the only one to open, rename or remove it, publishes its whole
      content, and the live file stays that until the next successful rename. */
  lemma UndisturbedPut(p: string -> bool, yaml: Option<string>, leftover: Option<string>, s: State, id: nat,
      labels: seq<Label>)
    requires Reachable(p, yaml, leftover, s)
    requires id in s.writers && s.writers[id].Validated? && NobodyElse(s, id)
    requires forall l | l in labels :: !Disturbs(l, id)
    requires var r := Run(p, Step(p, s, Open(id)), labels); id in r.writers && r.writers[id].Closed?
    ensures var t := Step(p, Run(p, Step(p, s, Open(id)), labels), Rename(id, true));
            Live(t) == Some(s.writers[id].content) && Quiet(t) && StaysUntilNextPublish(p, t)
  {
    ReachableInv(p, yaml, leftover, s);
    StepKeepsInv(p, s, Open(id));
    OpenOwns(p, s, id);
    OwnsRun(p, Step(p, s, Open(id)), labels, id);
    var r := Run(p, Step(p, s, Open(id)), labels);
    var t := Step(p, r, Rename(id, true));
    StepKeepsInv(p, r, Rename(id, true));
    assert forall other :: !HoldsLive(t, other);
    StaysIff(p, t);
  }

  // ----- and one that is disturbed -----

  function BothBegun(a: string, b: string): State {
    State([""], None, Some(0), map[0 := Writing(a, 0, 0), 1 := Validated(b)])
  }

  function Truncated(a: string, b: string): State {
    State([""], None, Some(0), map[0 := Closed(a), 1 := Writing(b, 0, 0)])
  }

  lemma FirstWrites(p: string -> bool, a: string, b: string)
    requires a != ""
    ensures Run(p, BothBegun(a, b), [Fill(0, |a|), Close(0), Open(1)]) == Truncated(a, b)
  {
    ThreeSteps(p, BothBegun(a, b), [Fill(0, |a|), Close(0), Open(1)]);
    assert a[0..0 + |a|] == a;
  }

  lemma SecondOverwrites(p: string -> bool, a: string, b: string)
    requires b != ""
    ensures Run(p, Truncated(a, b), [Rename(0, true), Fill(1, |b|), Close(1)]) ==
              State([b], Some(0), None, map[1 := Closed(b)])
  {
    ThreeSteps(p, Truncated(a, b), [Rename(0, true), Fill(1, |b|), Close(1)]);
    var renamed := Step(p, Truncated(a, b), Rename(0, true));
    assert renamed == State([""], Some(0), None, map[1 := Writing(b, 0, 0)]);
    assert b[0..0 + |b|] == b && WriteAt("", 0, b) == b && renamed.inodes[0 := b] == [b];
    assert Step(p, renamed, Fill(1, |b|)) == State([b], Some(0), None, map[1 := Writing(b, 0, |b|)]);
  }

  lemma BothBegin(p: string -> bool, a: string, b: string)
    requires p(a) && p(b)
    ensures Reachable(p, None, None, BothBegun(a, b))
  {
    var labels := [Begin(0, a), Begin(1, b), Open(0)];
    ThreeSteps(p, Init(None, None), labels);
    assert Run(p, Init(None, None), labels) == BothBegun(a, b);
  }

  /** The second writer opens the file the first has written, the first renames it, and
      the second fills it: the live file is the second's content, whose put then fails
      because there is no temporary file left to rename. */
  lemma LateWriterOverwrites(p: string -> bool, a: string, b: string)
    requires p(a) && p(b) && a != "" && b != ""
    ensures Reachable(p, None, None, State([b], Some(0), None, map[1 := RenameFailed]))
  {
    BothBegin(p, a, b);
    FirstWrites(p, a, b);
    RunReachable(p, None, None, BothBegun(a, b), [Fill(0, |a|), Close(0), Open(1)]);
    SecondOverwrites(p, a, b);
    RunReachable(p, None, None, Truncated(a, b), [Rename(0, true), Fill(1, |b|), Close(1)]);
    StepReachable(p, None, None, State([b], Some(0), None, map[1 := Closed(b)]), Rename(1, true));
  }

  lemma ThreeSteps(p: string -> bool, s: State, ls: seq<Label>)
    requires |ls| == 3
    ensures Run(p, s, ls) == Step(p, Step(p, Step(p, s, ls[0]), ls[1]), ls[2])
  {
    var s1 := Step(p, s, ls[0]);
    var s2 := Step(p, s1, ls[1]);
    assert ls[1..][1..] == ls[2..] && ls[2..][1..] == [];
    assert Run(p, s1, ls[1..]) == Run(p, s2, ls[2..]);
    assert Run(p, s2, ls[2..]) == Run(p, Step(p, s2, ls[2]), []);
  }
}
