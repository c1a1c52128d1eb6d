/** The compose file store: write to a temporary file, then rename it over the live
    file.  The HTTP handler and the queue poller both do this, on the same temporary
    path, and any step can fail or be the last one before a crash.  A temporary write
    is one step here, whole or torn: the writers interleave, their writes do not
    overlap.  `SharedInodes` is the store in which they may. */
module ComposeStore {
  import opened Prelude

  /** The three names the writers touch. */
  datatype Files = Files(yaml: Option<string>, yml: Option<string>, tmp: Option<string>)

  /** `find_compose_file` followed by reading it: .yaml wins over .yml. */
  function Get(f: Files): Option<string> {
    if f.yaml.Some? then f.yaml else f.yml
  }

  datatype Writer = Validated(content: string) | Written(content: string) | RenameFailed

  /** A successful rename: who did it, what it meant to publish, what it published,
      and whether that was written to the temporary file since the last crash. */
  datatype Commit = Commit(writer: nat, requested: string, published: string, recent: bool)

  datatype State = State(
    files: Files,
    recent: bool,
    writers: map<nat, Writer>,
    begun: set<string>,
    commits: seq<Commit>,
    writes: nat,
    renames: nat)

  datatype Label =
    | Begin(id: nat, content: string)
    | CannotWrite(id: nat)
    | Write(id: nat)
    | WriteTorn(id: nat, n: nat)
    | Rename(id: nat, ok: bool)
    | Remove(id: nat, ok: bool)
    | Crash

  function Init(files: Files): State {
    State(files, false, map[], {}, [], 0, 0)
  }

  predicate InPhase(s: State, id: nat, validated: bool) {
    id in s.writers && (if validated then s.writers[id].Validated? else s.writers[id].Written?)
  }

  function Leave(s: State, id: nat): State {
    s.(writers := s.writers - {id})
  }

  function Step(p: string -> bool, s: State, l: Label): State {
    match l
    case Begin(id, content) =>
      if id in s.writers || !p(content) then s
      else s.(writers := s.writers[id := Validated(content)], begun := s.begun + {content})
    case CannotWrite(id) => if InPhase(s, id, true) then Leave(s, id) else s
    case Write(id) =>
      if InPhase(s, id, true) then
        var content := s.writers[id].content;
        s.(files := s.files.(tmp := Some(content)), recent := true, writes := s.writes + 1,
           writers := s.writers[id := Written(content)])
      else s
    case WriteTorn(id, n) =>
      if InPhase(s, id, true) && n < |s.writers[id].content| then
        Leave(s, id).(files := s.files.(tmp := Some(s.writers[id].content[..n])), recent := true)
      else s
    case Rename(id, ok) =>
      if !InPhase(s, id, false) then s
      else if !ok || s.files.tmp.None? then s.(writers := s.writers[id := RenameFailed])
      else
        var published := s.files.tmp;
        Leave(s, id).(files := s.files.(yaml := published, tmp := None), renames := s.renames + 1,
                      commits := s.commits + [Commit(id, s.writers[id].content, published.value, s.recent)])
    case Remove(id, ok) =>
      if id in s.writers && s.writers[id].RenameFailed?
      then Leave(s, id).(files := if ok then s.files.(tmp := None) else s.files)
      else s
    case Crash => s.(writers := map[], recent := false)
  }

  function Run(p: string -> bool, s: State, labels: seq<Label>): State
    decreases |labels|
  {
    if labels == [] then s else Run(p, Step(p, s, labels[0]), labels[1..])
  }

  // ----- one put, as the code it is -----

  /** What the operating system does to one put. */
  datatype Fate = DirFails | OpenFails | TornAt(n: nat) | RenameFails(removed: bool) | Works

  datatype Result = Completed | InvalidYaml | CannotCreateDir | CannotWriteTmp | CannotCommit

  class Store {
    var files: Files

    constructor (files: Files)
      ensures this.files == files
    {
      this.files := files;
    }

    method Put(p: string -> bool, content: string, fate: Fate) returns (result: Result)
      requires fate.TornAt? ==> fate.n < |content|
      modifies this
      ensures result == Completed <==> p(content) && fate.Works?
      ensures result == InvalidYaml <==> !p(content)
      ensures files.yaml == if result == Completed then Some(content) else old(files.yaml)
      ensures result == Completed ==> Get(files) == Some(content) && files.tmp == None
      ensures files == Run(p, Init(old(files)), PutLabels(content, fate)).files
    {
      ghost var s := Init(files);
      ghost var s1 := Step(p, s, Begin(0, content));
      PutRun(p, s, content, fate);
      if !p(content) {
        return InvalidYaml;
      }
      if fate.DirFails? {
        return CannotCreateDir;
      }
      // fs::write
      if fate.OpenFails? {
        return CannotWriteTmp;
      } else if fate.TornAt? {
        files := files.(tmp := Some(content[..fate.n]));
        return CannotWriteTmp;
      }
      files := files.(tmp := Some(content));
      // fs::rename
      if fate.RenameFails? {
        if fate.removed {
          files := files.(tmp := None);
        }
        return CannotCommit;
      }
      files := files.(yaml := files.tmp, tmp := None);
      return Completed;
    }
  }

  function PutLabels(content: string, fate: Fate): seq<Label> {
    [Begin(0, content)] +
    match fate
    case DirFails => [CannotWrite(0)]
    case OpenFails => [CannotWrite(0)]
    case TornAt(n) => [WriteTorn(0, n)]
    case RenameFails(removed) => [Write(0), Rename(0, false), Remove(0, removed)]
    case Works => [Write(0), Rename(0, true)]
  }

  lemma RunOne(p: string -> bool, s: State, l: Label, rest: seq<Label>)
    ensures Run(p, s, [l] + rest) == Run(p, Step(p, s, l), rest)
  {}

  lemma PutRun(p: string -> bool, s: State, content: string, fate: Fate)
    requires s.writers == map[] && (fate.TornAt? ==> fate.n < |content|)
    ensures Run(p, s, PutLabels(content, fate)).files ==
              if !p(content) then s.files
              else match fate
                   case DirFails => s.files
                   case OpenFails => s.files
                   case TornAt(n) => s.files.(tmp := Some(content[..n]))
                   case RenameFails(removed) => s.files.(tmp := if removed then None else Some(content))
                   case Works => s.files.(yaml := Some(content), tmp := None)
  {
    var labels := PutLabels(content, fate);
    var s1 := Step(p, s, labels[0]);
    RunOne(p, s, labels[0], labels[1..]);
    var s2 := Step(p, s1, labels[1]);
    RunOne(p, s1, labels[1], labels[2..]);
    assert labels[1..] == [labels[1]] + labels[2..];
    if |labels| > 2 {
      RunOne(p, s2, labels[2], labels[3..]);
      assert labels[2..] == [labels[2]] + labels[3..];
      if |labels| > 3 {
        RunOne(p, Step(p, s2, labels[2]), labels[3], []);
        assert labels[3..] == [labels[3]] + [];
      }
    }
  }

  // ----- every run, with any number of writers, torn writes and crashes -----

  /** The writers between their completed write and their rename. */
  function WrittenIds(s: State): set<nat> {
    set id | id in s.writers && s.writers[id].Written?
  }

  function LastLive(initial: Option<string>, commits: seq<Commit>): Option<string> {
    if commits == [] then initial else Some(commits[|commits| - 1].published)
  }

  ghost predicate Inv(p: string -> bool, init: Files, s: State) {
    && s.files.yml == init.yml
    && s.files.yaml == LastLive(init.yaml, s.commits)
    && (forall id | id in s.writers && s.writers[id].Written? :: s.files.tmp.None? || s.recent)
    && (forall c | c in s.commits :: c.recent && c.requested in s.begun)
    && CountOk(s)
    && (forall id | id in s.writers && !s.writers[id].RenameFailed? :: s.writers[id].content in s.begun)
    && (forall c | c in s.begun :: p(c))
  }

  lemma {:induction false} RunKeepsInv(p: string -> bool, init: Files, s: State, labels: seq<Label>)
    requires Inv(p, init, s)
    ensures Inv(p, init, Run(p, s, labels))
    decreases |labels|
  {
    if labels != [] {
      StepKeepsInv(p, init, s, labels[0]);
      RunKeepsInv(p, init, Step(p, s, labels[0]), labels[1..]);
    }
  }

  lemma StepKeepsInv(p: string -> bool, init: Files, s: State, l: Label)
    requires Inv(p, init, s)
    ensures Inv(p, init, Step(p, s, l))
  {
    StepKeepsCount(p, s, l);
  }

  ghost predicate CountOk(s: State) {
    s.renames + |WrittenIds(s)| <= s.writes
  }

  /** Every rename uses up the completed write of its own writer. */
  lemma StepKeepsCount(p: string -> bool, s: State, l: Label)
    requires CountOk(s)
    ensures CountOk(Step(p, s, l))
  {
    if l.Write? {
      WriteCount(p, s, l.id);
    } else if l.Rename? {
      RenameCount(p, s, l.id, l.ok);
    } else {
      SubsetCard(WrittenIds(Step(p, s, l)), WrittenIds(s));
    }
  }

  lemma WriteCount(p: string -> bool, s: State, id: nat)
    requires CountOk(s)
    ensures CountOk(Step(p, s, Write(id)))
  {
    var t := Step(p, s, Write(id));
    if InPhase(s, id, true) {
      assert WrittenIds(t) == WrittenIds(s) + {id};
    }
  }

  lemma RenameCount(p: string -> bool, s: State, id: nat, ok: bool)
    requires CountOk(s)
    ensures CountOk(Step(p, s, Rename(id, ok)))
  {
    var t := Step(p, s, Rename(id, ok));
    if InPhase(s, id, false) {
      assert WrittenIds(t) == WrittenIds(s) - {id} && id in WrittenIds(s);
    }
  }

  lemma {:induction false} SubsetCard(a: set<nat>, b: set<nat>)
    requires a <= b
    ensures |a| <= |b|
  {
    assert b == a + (b - a);
  }

  ghost predicate Reachable(p: string -> bool, init: Files, s: State) {
    exists labels :: s == Run(p, Init(init), labels)
  }

  /** In every run the live file is the initial one or what the last rename
      published; a temporary file left by a crash is never published; and there have
      been no more successful renames than completed writes. */
  lemma LeftoverNeverPublished(p: string -> bool, init: Files, s: State)
    requires Reachable(p, init, s)
    ensures s.files.yml == init.yml && s.files.yaml == LastLive(init.yaml, s.commits)
    ensures forall c | c in s.commits :: c.recent && p(c.requested)
    ensures s.renames <= s.writes
  {
    var labels :| s == Run(p, Init(init), labels);
    RunKeepsInv(p, init, Init(init), labels);
  }

  // ----- writers whose temporary write is all or nothing -----

  predicate Atomic(labels: seq<Label>) {
    forall l | l in labels :: !l.WriteTorn?
  }

  ghost predicate AtomicInv(p: string -> bool, init: Files, s: State) {
    && Inv(p, init, s)
    && (s.recent && s.files.tmp.Some? ==> s.files.tmp.value in s.begun)
    && (forall c | c in s.commits :: c.published in s.begun)
  }

  lemma {:induction false} AtomicRun(p: string -> bool, init: Files, s: State, labels: seq<Label>)
    requires AtomicInv(p, init, s) && Atomic(labels)
    ensures AtomicInv(p, init, Run(p, s, labels))
    decreases |labels|
  {
    if labels != [] {
      var t := Step(p, s, labels[0]);
      StepKeepsInv(p, init, s, labels[0]);
      assert labels[0] in labels;
      if |t.commits| > |s.commits| {
        assert t.commits == s.commits + [t.commits[|s.commits|]];
      }
      AtomicRun(p, init, t, labels[1..]);
    }
  }

  /** Everything begun was begun by a label of the run. */
  lemma {:induction false} BegunFrom(p: string -> bool, s: State, labels: seq<Label>, content: string)
    requires content in Run(p, s, labels).begun && content !in s.begun
    ensures p(content) && exists id :: Begin(id, content) in labels
    decreases |labels|
  {
    if labels != [] {
      var l := labels[0];
      if content in Step(p, s, l).begun {
        assert Begin(l.id, content) in labels;
      } else {
        BegunFrom(p, Step(p, s, l), labels[1..], content);
        var id :| Begin(id, content) in labels[1..];
        assert Begin(id, content) in labels;
      }
    }
  }

  /** Any number of interleaved writers whose temporary write is one step: the live
      file is the initial one or a whole, accepted content of some put of this run. */
  lemma AtomicWritersSafe(p: string -> bool, init: Files, labels: seq<Label>)
    requires Atomic(labels)
    ensures var live := Run(p, Init(init), labels).files.yaml;
            live == init.yaml ||
            (live.Some? && p(live.value) && exists id :: Begin(id, live.value) in labels)
  {
    var s := Run(p, Init(init), labels);
    AtomicRun(p, init, Init(init), labels);
    if s.commits != [] {
      assert s.commits[|s.commits| - 1] in s.commits;
      BegunFrom(p, Init(init), labels, s.files.yaml.value);
    }
  }

  /** But a put that reports success may have published another writer's content. */
  lemma OtherContentPublished(p: string -> bool, init: Files, a: string, b: string)
    requires p(a) && p(b)
    ensures exists labels :: Atomic(labels) &&
              Commit(0, a, b, true) in Run(p, Init(init), labels).commits
  {
    var labels := [Begin(0, a), Begin(1, b), Write(0), Write(1), Rename(0, true)];
    FiveSteps(p, Init(init), labels);
    assert Atomic(labels);
    assert Commit(0, a, b, true) in Run(p, Init(init), labels).commits;
  }

  lemma FiveSteps(p: string -> bool, s: State, ls: seq<Label>)
    requires |ls| == 5
    ensures Run(p, s, ls) ==
            Step(p, Step(p, Step(p, Step(p, Step(p, s, ls[0]), ls[1]), ls[2]), ls[3]), ls[4])
  {
    var s1 := Step(p, s, ls[0]);
    var s2 := Step(p, s1, ls[1]);
    var s3 := Step(p, s2, ls[2]);
    var s4 := Step(p, s3, ls[3]);
    assert ls[1..][1..] == ls[2..] && ls[2..][1..] == ls[3..] && ls[3..][1..] == ls[4..] && ls[4..][1..] == [];
    assert Run(p, s1, ls[1..]) == Run(p, s2, ls[2..]);
    assert Run(p, s2, ls[2..]) == Run(p, s3, ls[3..]);
    assert Run(p, s3, ls[3..]) == Run(p, s4, ls[4..]);
    assert Run(p, s4, ls[4..]) == Run(p, Step(p, s4, ls[4]), []);
  }

  // ----- when a put publishes its own content -----

  lemma RunAppend(p: string -> bool, s: State, a: seq<Label>, b: seq<Label>)
    ensures Run(p, s, a + b) == Run(p, Run(p, s, a), b)
    decreases |a|
  {
    if a == [] {
      assert a + b == b;
    } else {
      assert (a + b)[1..] == a[1..] + b;
      RunAppend(p, Step(p, s, a[0]), a[1..], b);
    }
  }

  /** The state before the k-th label of a run. */
  function At(p: string -> bool, init: Files, labels: seq<Label>, k: nat): State
    requires k <= |labels|
  {
    Run(p, Init(init), labels[..k])
  }

  lemma AtNext(p: string -> bool, init: Files, labels: seq<Label>, k: nat)
    requires k < |labels|
    ensures At(p, init, labels, k + 1) == Step(p, At(p, init, labels, k), labels[k])
  {
    var s := At(p, init, labels, k);
    assert labels[..k + 1] == labels[..k] + [labels[k]];
    RunAppend(p, Init(init), labels[..k], [labels[k]]);
    assert Run(p, s, [labels[k]]) == Run(p, Step(p, s, labels[k]), []);
  }

  /** What a label puts into the temporary file, if it takes effect. */
  function Puts(s: State, l: Label): Option<string> {
    match l
    case Write(id) => if InPhase(s, id, true) then Some(s.writers[id].content) else None
    case WriteTorn(id, n) =>
      if InPhase(s, id, true) && n < |s.writers[id].content| then Some(s.writers[id].content[..n]) else None
    case _ => None
  }

  function PutsAt(p: string -> bool, init: Files, labels: seq<Label>, k: nat): Option<string>
    requires k < |labels|
  {
    Puts(At(p, init, labels, k), labels[k])
  }

  /** The k-th label is a rename that succeeds. */
  predicate CommitsAt(p: string -> bool, init: Files, labels: seq<Label>, k: nat)
    requires k < |labels|
  {
    var s := At(p, init, labels, k);
    labels[k].Rename? && labels[k].ok && InPhase(s, labels[k].id, false) && s.files.tmp.Some?
  }

  function CommitOf(p: string -> bool, init: Files, labels: seq<Label>, k: nat): Commit
    requires k < |labels| && CommitsAt(p, init, labels, k)
  {
    var s := At(p, init, labels, k);
    Commit(labels[k].id, s.writers[labels[k].id].content, s.files.tmp.value, s.recent)
  }

  /** The last label before the k-th that put something into the temporary file. */
  function LastPut(p: string -> bool, init: Files, labels: seq<Label>, k: nat): (last: Option<nat>)
    requires k <= |labels|
    ensures last.Some? ==> last.value < k && PutsAt(p, init, labels, last.value).Some?
    ensures forall i: nat | i < k && (last.Some? ==> last.value < i) :: PutsAt(p, init, labels, i).None?
  {
    if k == 0 then None
    else if PutsAt(p, init, labels, k - 1).Some? then Some(k - 1)
    else LastPut(p, init, labels, k - 1)
  }

  /** The temporary file, if there is one, holds what was put last. */
  lemma {:induction false} TmpIsLastPut(p: string -> bool, init: Files, labels: seq<Label>, k: nat)
    requires k <= |labels| && LastPut(p, init, labels, k).Some?
    ensures var tmp := At(p, init, labels, k).files.tmp;
            tmp.None? || tmp == PutsAt(p, init, labels, LastPut(p, init, labels, k).value)
  {
    AtNext(p, init, labels, k - 1);
    if PutsAt(p, init, labels, k - 1).None? {
      TmpIsLastPut(p, init, labels, k - 1);
    }
  }

  /** The position of a writer's own completed write; later puts are other writers'. */
  function OwnWrite(p: string -> bool, init: Files, labels: seq<Label>, k: nat, id: nat): (w: nat)
    requires k <= |labels| && InPhase(At(p, init, labels, k), id, false)
    ensures w < k && labels[w] == Write(id)
    ensures PutsAt(p, init, labels, w) == Some(At(p, init, labels, k).writers[id].content)
    ensures forall i: nat | w < i < k && PutsAt(p, init, labels, i).Some? :: labels[i].id != id
  {
    AtNext(p, init, labels, k - 1);
    if InPhase(At(p, init, labels, k - 1), id, false) then OwnWrite(p, init, labels, k - 1, id) else k - 1
  }

  /** Between the two positions, everything put that is not good is replaced by
      something good before the second. */
  ghost predicate Undisturbed(p: string -> bool, init: Files, labels: seq<Label>, w: nat, m: nat, good: string -> bool)
    requires w < m < |labels|
  {
    forall i: nat | w < i < m && PutsAt(p, init, labels, i).Some? && !good(PutsAt(p, init, labels, i).value) ::
      exists j: nat | i < j < m :: PutsAt(p, init, labels, j).Some? && good(PutsAt(p, init, labels, j).value)
  }

  /** For a rename: no other writer disturbs it between its own writer's write and it. */
  ghost predicate Safe(p: string -> bool, init: Files, labels: seq<Label>, m: nat, good: string -> bool)
    requires m < |labels| && CommitsAt(p, init, labels, m)
  {
    Undisturbed(p, init, labels, OwnWrite(p, init, labels, m, labels[m].id), m, good)
  }

  /** A successful rename publishes what was put last.  If its writer meant to publish
      something good, that is good exactly when the rename is safe. */
  lemma PublishedGoodIff(p: string -> bool, init: Files, labels: seq<Label>, m: nat, good: string -> bool)
    requires m < |labels| && CommitsAt(p, init, labels, m) && good(CommitOf(p, init, labels, m).requested)
    ensures var last := LastPut(p, init, labels, m);
            last.Some? && Some(CommitOf(p, init, labels, m).published) == PutsAt(p, init, labels, last.value)
    ensures good(CommitOf(p, init, labels, m).published) <==> Safe(p, init, labels, m, good)
  {
    var w := OwnWrite(p, init, labels, m, labels[m].id);
    assert LastPut(p, init, labels, m).Some? && w <= LastPut(p, init, labels, m).value;
    TmpIsLastPut(p, init, labels, m);
  }

  lemma {:induction false} NoCrashSince(p: string -> bool, init: Files, labels: seq<Label>, k: nat, id: nat, i: nat)
    requires k <= |labels| && InPhase(At(p, init, labels, k), id, false)
    requires OwnWrite(p, init, labels, k, id) <= i < k
    ensures labels[i] != Crash
  {
    AtNext(p, init, labels, k - 1);
    if i < k - 1 {
      NoCrashSince(p, init, labels, k - 1, id, i);
    }
  }

  /** What a rename publishes was put after the last crash, so never what a crash left. */
  lemma PublishedSinceCrash(p: string -> bool, init: Files, labels: seq<Label>, m: nat)
    requires m < |labels| && CommitsAt(p, init, labels, m)
    ensures var last := LastPut(p, init, labels, m);
            && last.Some? && Some(CommitOf(p, init, labels, m).published) == PutsAt(p, init, labels, last.value)
            && forall i: nat | last.value <= i < m :: labels[i] != Crash
  {
    PublishedGoodIff(p, init, labels, m, Exactly(CommitOf(p, init, labels, m).requested));
    forall i: nat | OwnWrite(p, init, labels, m, labels[m].id) <= i < m
      ensures labels[i] != Crash
    {
      NoCrashSince(p, init, labels, m, labels[m].id, i);
    }
  }

  /** If nothing good is put in between, safe means that nothing is put in between. */
  lemma SafeAloneIff(p: string -> bool, init: Files, labels: seq<Label>, m: nat, good: string -> bool)
    requires m < |labels| && CommitsAt(p, init, labels, m)
    requires var w := OwnWrite(p, init, labels, m, labels[m].id);
             forall i: nat | w < i < m && PutsAt(p, init, labels, i).Some? :: !good(PutsAt(p, init, labels, i).value)
    ensures var w := OwnWrite(p, init, labels, m, labels[m].id);
            Safe(p, init, labels, m, good) <==> forall i: nat | w < i < m :: PutsAt(p, init, labels, i).None?
  {}

  /** The commits of a run are those of its successful renames. */
  lemma {:induction false} CommitKept(p: string -> bool, init: Files, labels: seq<Label>, m: nat, k: nat)
    requires m < k <= |labels| && CommitsAt(p, init, labels, m)
    ensures CommitOf(p, init, labels, m) in At(p, init, labels, k).commits
  {
    AtNext(p, init, labels, k - 1);
    if m < k - 1 {
      CommitKept(p, init, labels, m, k - 1);
    }
  }

  lemma {:induction false} CommitFrom(p: string -> bool, init: Files, labels: seq<Label>, k: nat, c: Commit)
      returns (m: nat)
    requires k <= |labels| && c in At(p, init, labels, k).commits
    ensures m < k && CommitsAt(p, init, labels, m) && c == CommitOf(p, init, labels, m)
  {
    AtNext(p, init, labels, k - 1);
    if c in At(p, init, labels, k - 1).commits {
      m := CommitFrom(p, init, labels, k - 1, c);
    } else {
      m := k - 1;
    }
  }

  lemma EachCommit(p: string -> bool, init: Files, labels: seq<Label>, holds: Commit -> bool)
    ensures (forall c | c in Run(p, Init(init), labels).commits :: holds(c)) <==>
            (forall m: nat | m < |labels| && CommitsAt(p, init, labels, m) :: holds(CommitOf(p, init, labels, m)))
  {
    assert labels[..|labels|] == labels;
    forall m: nat | m < |labels| && CommitsAt(p, init, labels, m)
      ensures CommitOf(p, init, labels, m) in Run(p, Init(init), labels).commits
    {
      CommitKept(p, init, labels, m, |labels|);
    }
    forall c | c in Run(p, Init(init), labels).commits
      ensures exists m: nat | m < |labels| && CommitsAt(p, init, labels, m) :: CommitOf(p, init, labels, m) == c
    {
      var m := CommitFrom(p, init, labels, |labels|, c);
    }
  }

  ghost predicate AllSafe(p: string -> bool, init: Files, labels: seq<Label>) {
    forall m: nat | m < |labels| && CommitsAt(p, init, labels, m) :: Safe(p, init, labels, m, p)
  }

  function Exactly(content: string): string -> bool {
    c => c == content
  }

  ghost predicate AllOwn(p: string -> bool, init: Files, labels: seq<Label>) {
    forall m: nat | m < |labels| && CommitsAt(p, init, labels, m) ::
      Safe(p, init, labels, m, Exactly(CommitOf(p, init, labels, m).requested))
  }

  /** For every run: each put that reported success published its own content exactly
      when no other content was left in the temporary file between its write and its
      rename ... */
  lemma OwnContentIff(p: string -> bool, init: Files, labels: seq<Label>)
    ensures (forall c | c in Run(p, Init(init), labels).commits :: c.published == c.requested) <==>
            AllOwn(p, init, labels)
  {
    EachCommit(p, init, labels, (c: Commit) => c.published == c.requested);
    forall m: nat | m < |labels| && CommitsAt(p, init, labels, m)
      ensures var c := CommitOf(p, init, labels, m);
              c.published == c.requested <==> Safe(p, init, labels, m, Exactly(c.requested))
    {
      PublishedGoodIff(p, init, labels, m, Exactly(CommitOf(p, init, labels, m).requested));
    }
  }

  /** ... and everything published is accepted content exactly when no refused fragment
      was left there. */
  lemma AcceptedIff(p: string -> bool, init: Files, labels: seq<Label>)
    ensures (forall c | c in Run(p, Init(init), labels).commits :: p(c.published)) <==> AllSafe(p, init, labels)
  {
    EachCommit(p, init, labels, (c: Commit) => p(c.published));
    forall m: nat | m < |labels| && CommitsAt(p, init, labels, m)
      ensures p(CommitOf(p, init, labels, m).published) <==> Safe(p, init, labels, m, p)
    {
      RunKeepsInv(p, init, Init(init), labels[..m]);
      PublishedGoodIff(p, init, labels, m, p);
    }
  }

  // ----- torn writes -----

  ghost predicate AlwaysWhole(p: string -> bool) {
    forall init, labels ::
      var live := Run(p, Init(init), labels).files.yaml;
      live == init.yaml || (live.Some? && p(live.value))
  }

  ghost predicate PrefixClosed(p: string -> bool) {
    forall content: string, n: nat | n < |content| && p(content) :: p(content[..n])
  }

  ghost predicate TornInv(p: string -> bool, init: Files, s: State) {
    && Inv(p, init, s)
    && (s.recent && s.files.tmp.Some? ==> p(s.files.tmp.value))
    && (forall c | c in s.commits :: p(c.published))
  }

  lemma {:induction false} TornRun(p: string -> bool, init: Files, s: State, labels: seq<Label>)
    requires TornInv(p, init, s) && PrefixClosed(p)
    ensures TornInv(p, init, Run(p, s, labels))
    decreases |labels|
  {
    if labels != [] {
      var t := Step(p, s, labels[0]);
      StepKeepsInv(p, init, s, labels[0]);
      if |t.commits| > |s.commits| {
        assert t.commits == s.commits + [t.commits[|s.commits|]];
      }
      TornRun(p, init, t, labels[1..]);
    }
  }

  /** If temporary writes can be cut short, two writers sharing the path keep the live
      file well formed exactly when cutting never spoils an accepted content. */
  lemma SharedPathSafeIff(p: string -> bool)
    ensures AlwaysWhole(p) <==> PrefixClosed(p)
  {
    if PrefixClosed(p) {
      forall init, labels
        ensures var live := Run(p, Init(init), labels).files.yaml;
                live == init.yaml || (live.Some? && p(live.value))
      {
        var s := Run(p, Init(init), labels);
        TornRun(p, init, Init(init), labels);
        assert s.commits != [] ==> s.commits[|s.commits| - 1] in s.commits;
      }
    }
    if AlwaysWhole(p) {
      forall content: string, n: nat | n < |content| && p(content)
        ensures p(content[..n])
      {
        var init := Files(None, None, None);
        var labels := [Begin(0, content), Begin(1, content), Write(0), WriteTorn(1, n), Rename(0, true)];
        FiveSteps(p, Init(init), labels);
        assert Run(p, Init(init), labels).files.yaml == Some(content[..n]);
      }
    }
  }

  // ----- one writer at a time -----

  /** No put begins while another is in flight. */
  ghost predicate OneAtATime(p: string -> bool, s: State, labels: seq<Label>)
    decreases |labels|
  {
    labels != [] ==>
      && (labels[0].Begin? ==> s.writers == map[])
      && OneAtATime(p, Step(p, s, labels[0]), labels[1..])
  }

  ghost predicate SoleInv(p: string -> bool, init: Files, s: State) {
    && Inv(p, init, s)
    && (forall i, j | i in s.writers && j in s.writers :: i == j)
    && (forall id | id in s.writers && s.writers[id].Written? :: s.files.tmp == Some(s.writers[id].content))
    && (forall c | c in s.commits :: c.published == c.requested)
  }

  lemma {:induction false} SoleRun(p: string -> bool, init: Files, s: State, labels: seq<Label>)
    requires SoleInv(p, init, s) && OneAtATime(p, s, labels)
    ensures SoleInv(p, init, Run(p, s, labels))
    decreases |labels|
  {
    if labels != [] {
      var t := Step(p, s, labels[0]);
      StepKeepsInv(p, init, s, labels[0]);
      if |t.commits| > |s.commits| {
        assert t.commits == s.commits + [t.commits[|s.commits|]];
      }
      SoleRun(p, init, t, labels[1..]);
    }
  }

  /** A get reads the .yml only where there is no .yaml. */
  lemma GetFallsBack(f: Files, content: string)
    ensures Get(f) == Some(content) <==> f.yaml == Some(content) || (f.yaml == None && f.yml == Some(content))
  {}

  /** One writer at a time, with torn writes, failures and crashes at any step: the
      live file is the initial one or the full content of the latest successful put,
      and a get returns exactly that, even if only the .yml existed before. */
  lemma SoleWriterSafe(p: string -> bool, init: Files, labels: seq<Label>)
    requires OneAtATime(p, Init(init), labels)
    ensures var s := Run(p, Init(init), labels);
            if s.commits == [] then s.files.yaml == init.yaml && Get(s.files) == Get(init)
            else
              var last := s.commits[|s.commits| - 1];
              p(last.requested) && s.files.yaml == Some(last.requested) && Get(s.files) == Some(last.requested)
  {
    var s := Run(p, Init(init), labels);
    SoleRun(p, init, Init(init), labels);
    assert s.commits != [] ==> s.commits[|s.commits| - 1] in s.commits;
  }
}
