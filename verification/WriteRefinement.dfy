/** The coarse store, whose temporary write is one step, is exactly the store of inodes
    and partial writes restricted to runs in which nobody opens, renames or removes the
    temporary file while a writer is writing it. */
module WriteRefinement {
  import opened Prelude
  import C = ComposeStore
  import I = SharedInodes
  import Mixtures

  function Tmp(s: I.State): Option<string> {
    if s.tmp.Some? && s.tmp.value < |s.inodes| then Some(s.inodes[s.tmp.value]) else None
  }

  function Fine(w: C.Writer): I.Writer {
    match w
    case Validated(content) => I.Validated(content)
    case Written(content) => I.Closed(content)
    case RenameFailed => I.RenameFailed
  }

  /** The same writers but for these, and the same live file. */
  ghost predicate Agree(c: C.State, s: I.State, but: set<nat>) {
    && I.Inv(s) && I.Live(s) == c.files.yaml && c.writers.Keys == s.writers.Keys
    && (forall id | id in s.writers && id !in but :: s.writers[id] == Fine(c.writers[id]))
  }

  /** Nobody is writing, and the two states are the same. */
  ghost predicate Matches(c: C.State, s: I.State) {
    Agree(c, s, {}) && Tmp(s) == c.files.tmp
  }

  // ----- in the middle of a write -----

  predicate IsWriting(s: I.State, id: nat) {
    id in s.writers && s.writers[id].Writing?
  }

  /** One writer is writing; the coarse state is still the one before its write. */
  ghost predicate Amid(c: C.State, s: I.State, id: nat) {
    && Agree(c, s, {id}) && IsWriting(s, id) && C.InPhase(c, id, true)
    && var w := s.writers[id];
       c.writers[id].content == w.content && s.tmp == Some(w.inode) && Tmp(s) == Some(w.content[..w.offset])
  }

  /** The coarse write that a writer's fills amount to when it stops here. */
  function Stop(id: nat, w: I.Writer): C.Label
    requires w.Writing?
  {
    if I.Complete(w) then C.Write(id) else C.WriteTorn(id, w.offset)
  }

  lemma AppendAt(file: string, data: string)
    ensures I.WriteAt(file, |file|, data) == file + data
  {}

  lemma FillStep(p: string -> bool, c: C.State, s: I.State, id: nat, l: I.Label)
    requires Amid(c, s, id) && l.Fill?
    ensures Amid(c, I.Step(p, s, l), id)
  {
    I.StepKeepsInv(p, s, l);
    assert l.id != id && l.id in s.writers ==> s.writers[l.id] == Fine(c.writers[l.id]);
    if I.Step(p, s, l) != s {
      var w := s.writers[id];
      AppendAt(w.content[..w.offset], w.content[w.offset..w.offset + l.n]);
      assert w.content[..w.offset] + w.content[w.offset..w.offset + l.n] == w.content[..w.offset + l.n];
    }
  }

  lemma StopStep(p: string -> bool, c: C.State, s: I.State, id: nat, l: I.Label)
    requires Amid(c, s, id) && l == if I.Complete(s.writers[id]) then I.Close(id) else I.GiveUp(id)
    ensures Matches(C.Step(p, c, Stop(id, s.writers[id])), I.Step(p, s, l))
  {
    I.StepKeepsInv(p, s, l);
    var w := s.writers[id];
    assert I.Complete(w) ==> w.content[..w.offset] == w.content;
  }

  // ----- every coarse run is a run of inodes -----

  /** The labels that mean the same in both. */
  function Same(l: C.Label): I.Label
    requires !l.Write? && !l.WriteTorn?
  {
    match l
    case Begin(id, content) => I.Begin(id, content)
    case CannotWrite(id) => I.GiveUp(id)
    case Rename(id, ok) => I.Rename(id, ok)
    case Remove(id, ok) => I.Remove(id, ok)
    case Crash => I.Crash
  }

  /** What of its content a coarse write gets written. */
  function Wanted(c: C.State, l: C.Label): Option<nat> {
    match l
    case Write(id) => if C.InPhase(c, id, true) then Some(|c.writers[id].content|) else None
    case WriteTorn(id, n) => if C.InPhase(c, id, true) && n < |c.writers[id].content| then Some(n) else None
    case _ => None
  }

  function Expand(c: C.State, l: C.Label): seq<I.Label> {
    if !l.Write? && !l.WriteTorn? then [Same(l)]
    else if Wanted(c, l).None? then []
    else [I.Open(l.id), I.Fill(l.id, Wanted(c, l).value), if l.Write? then I.Close(l.id) else I.GiveUp(l.id)]
  }

  lemma RenameStep(p: string -> bool, c: C.State, s: I.State, id: nat, ok: bool)
    requires Matches(c, s)
    ensures Matches(C.Step(p, c, C.Rename(id, ok)), I.Step(p, s, I.Rename(id, ok)))
  {
    I.StepKeepsInv(p, s, I.Rename(id, ok));
    assert id in s.writers ==> s.writers[id] == Fine(c.writers[id]);
  }

  lemma SameStep(p: string -> bool, c: C.State, s: I.State, l: C.Label)
    requires Matches(c, s) && !l.Write? && !l.WriteTorn?
    ensures Matches(C.Step(p, c, l), I.Step(p, s, Same(l)))
  {
    if l.Rename? {
      RenameStep(p, c, s, l.id, l.ok);
    } else {
      I.StepKeepsInv(p, s, Same(l));
      assert !l.Crash? && l.id in s.writers ==> s.writers[l.id] == Fine(c.writers[l.id]);
    }
  }

  lemma RunOne(p: string -> bool, s: I.State, l: I.Label)
    ensures I.Run(p, s, [l]) == I.Step(p, s, l)
  {
    assert I.Run(p, s, [l]) == I.Run(p, I.Step(p, s, l), []);
  }

  lemma OpenStep(p: string -> bool, c: C.State, s: I.State, id: nat)
    requires Matches(c, s) && C.InPhase(c, id, true)
    ensures Amid(c, I.Step(p, s, I.Open(id)), id) && I.Step(p, s, I.Open(id)).writers[id].offset == 0
  {
    assert s.writers[id] == Fine(c.writers[id]);
    I.StepKeepsInv(p, s, I.Open(id));
  }

  lemma OpenFill(p: string -> bool, c: C.State, s: I.State, id: nat, n: nat)
    requires Matches(c, s) && C.InPhase(c, id, true) && n <= |c.writers[id].content|
    ensures var t := I.Step(p, I.Step(p, s, I.Open(id)), I.Fill(id, n));
            Amid(c, t, id) && t.writers[id].offset == n
  {
    OpenStep(p, c, s, id);
    FillStep(p, c, I.Step(p, s, I.Open(id)), id, I.Fill(id, n));
  }

  lemma WriteExpands(p: string -> bool, c: C.State, s: I.State, l: C.Label)
    requires Matches(c, s) && Wanted(c, l).Some?
    ensures Matches(C.Step(p, c, l), I.Run(p, s, Expand(c, l)))
  {
    var labels, n := Expand(c, l), Wanted(c, l).value;
    I.ThreeSteps(p, s, labels);
    OpenFill(p, c, s, l.id, n);
    var t := I.Step(p, I.Step(p, s, labels[0]), labels[1]);
    assert Stop(l.id, t.writers[l.id]) == l;
    StopStep(p, c, t, l.id, labels[2]);
  }

  lemma ExpandStep(p: string -> bool, c: C.State, s: I.State, l: C.Label)
    requires Matches(c, s)
    ensures Matches(C.Step(p, c, l), I.Run(p, s, Expand(c, l)))
  {
    if Wanted(c, l).Some? {
      WriteExpands(p, c, s, l);
    } else if !l.Write? && !l.WriteTorn? {
      SameStep(p, c, s, l);
      RunOne(p, s, Same(l));
    }
  }

  function ExpandAll(p: string -> bool, c: C.State, labels: seq<C.Label>): seq<I.Label>
    decreases |labels|
  {
    if labels == [] then [] else Expand(c, labels[0]) + ExpandAll(p, C.Step(p, c, labels[0]), labels[1..])
  }

  /** Every coarse run is a run of inodes, with the same files. */
  lemma {:induction false} CoarseIsFine(p: string -> bool, c: C.State, s: I.State, labels: seq<C.Label>)
    requires Matches(c, s)
    ensures Matches(C.Run(p, c, labels), I.Run(p, s, ExpandAll(p, c, labels)))
    decreases |labels|
  {
    if labels != [] {
      ExpandStep(p, c, s, labels[0]);
      CoarseIsFine(p, C.Step(p, c, labels[0]), I.Run(p, s, Expand(c, labels[0])), labels[1..]);
      I.RunAppend(p, s, Expand(c, labels[0]), ExpandAll(p, C.Step(p, c, labels[0]), labels[1..]));
    }
  }

  // ----- and every run of inodes without overlap is a coarse run -----

  /** While a writer is writing, nobody opens, renames or removes the temporary file. */
  ghost predicate Apart(s: I.State, l: I.Label) {
    (exists id :: IsWriting(s, id)) ==> !l.Open? && !l.Rename? && !l.Remove?
  }

  ghost predicate NoOverlap(p: string -> bool, s: I.State, labels: seq<I.Label>)
    decreases |labels|
  {
    labels != [] ==> Apart(s, labels[0]) && NoOverlap(p, I.Step(p, s, labels[0]), labels[1..])
  }

  ghost predicate Related(c: C.State, s: I.State) {
    Matches(c, s) || exists id :: Amid(c, s, id)
  }

  lemma CoarseOne(p: string -> bool, c: C.State, l: C.Label)
    ensures C.Run(p, c, [l]) == C.Step(p, c, l)
  {
    C.RunOne(p, c, l, []);
    assert [l] + [] == [l];
  }

  /** One step while nobody is writing. */
  lemma IdleStep(p: string -> bool, c: C.State, s: I.State, l: I.Label) returns (coarse: seq<C.Label>)
    requires Matches(c, s)
    ensures Related(C.Run(p, c, coarse), I.Step(p, s, l))
  {
    coarse := match l
      case Begin(id, content) => [C.Begin(id, content)]
      case GiveUp(id) => [C.CannotWrite(id)]
      case Rename(id, ok) => [C.Rename(id, ok)]
      case Remove(id, ok) => [C.Remove(id, ok)]
      case Crash => [C.Crash]
      case _ => [];
    if coarse != [] {
      CoarseOne(p, c, coarse[0]);
      SameStep(p, c, s, coarse[0]);
    } else {
      assert l.id in s.writers ==> s.writers[l.id] == Fine(c.writers[l.id]);
      if l.Open? && C.InPhase(c, l.id, true) {
        OpenStep(p, c, s, l.id);
      } else {
        assert I.Step(p, s, l) == s;
      }
    }
  }

  lemma CrashStep(p: string -> bool, c: C.State, s: I.State, id: nat)
    requires Amid(c, s, id)
    ensures Matches(C.Run(p, c, [Stop(id, s.writers[id]), C.Crash]), I.Step(p, s, I.Crash))
  {
    I.StepKeepsInv(p, s, I.Crash);
    var w := s.writers[id];
    assert I.Complete(w) ==> w.content[..w.offset] == w.content;
    C.RunOne(p, c, Stop(id, w), [C.Crash]);
    CoarseOne(p, C.Step(p, c, Stop(id, w)), C.Crash);
    assert [Stop(id, w)] + [C.Crash] == [Stop(id, w), C.Crash];
  }

  lemma BesideStep(p: string -> bool, c: C.State, s: I.State, id: nat, l: I.Label, coarse: C.Label)
    requires Amid(c, s, id)
    requires (l.Begin? && coarse == C.Begin(l.id, l.content)) || (l.GiveUp? && l.id != id && coarse == C.CannotWrite(l.id))
    ensures Amid(C.Step(p, c, coarse), I.Step(p, s, l), id)
  {
    I.StepKeepsInv(p, s, l);
    assert l.id != id && l.id in s.writers ==> s.writers[l.id] == Fine(c.writers[l.id]);
  }

  /** One step while a writer is writing. */
  lemma BusyStep(p: string -> bool, c: C.State, s: I.State, id: nat, l: I.Label) returns (coarse: seq<C.Label>)
    requires Amid(c, s, id) && Apart(s, l)
    ensures Related(C.Run(p, c, coarse), I.Step(p, s, l))
  {
    assert IsWriting(s, id);
    coarse := [];
    if l.Fill? {
      FillStep(p, c, s, id, l);
    } else if l.Crash? {
      CrashStep(p, c, s, id);
      coarse := [Stop(id, s.writers[id]), C.Crash];
    } else if l.Begin? || (l.GiveUp? && l.id != id) {
      var beside := if l.Begin? then C.Begin(l.id, l.content) else C.CannotWrite(l.id);
      BesideStep(p, c, s, id, l, beside);
      CoarseOne(p, c, beside);
      coarse := [beside];
    } else if I.Step(p, s, l) != s {
      assert l.id != id && l.id in s.writers ==> s.writers[l.id] == Fine(c.writers[l.id]);
      StopStep(p, c, s, id, l);
      CoarseOne(p, c, Stop(id, s.writers[id]));
      coarse := [Stop(id, s.writers[id])];
    }
  }

  lemma {:induction false} FineRun(p: string -> bool, c: C.State, s: I.State, labels: seq<I.Label>)
      returns (coarse: seq<C.Label>)
    requires Related(c, s) && NoOverlap(p, s, labels)
    ensures Related(C.Run(p, c, coarse), I.Run(p, s, labels))
    decreases |labels|
  {
    if labels == [] {
      coarse := [];
    } else {
      var first;
      if Matches(c, s) {
        first := IdleStep(p, c, s, labels[0]);
      } else {
        var id :| Amid(c, s, id);
        first := BusyStep(p, c, s, id, labels[0]);
      }
      var rest := FineRun(p, C.Run(p, c, first), I.Step(p, s, labels[0]), labels[1..]);
      C.RunAppend(p, c, first, rest);
      coarse := first + rest;
    }
  }

  // ----- both directions, from the start -----

  lemma StartsMatch(files: C.Files)
    ensures Matches(C.Init(files), I.Init(files.yaml, files.tmp))
  {
    I.InitInv(files.yaml, files.tmp);
  }

  /** Whatever the coarse store can do, the store of inodes can do. */
  lemma CoarseRunsAreFine(p: string -> bool, files: C.Files, coarse: seq<C.Label>) returns (labels: seq<I.Label>)
    ensures Matches(C.Run(p, C.Init(files), coarse), I.Run(p, I.Init(files.yaml, files.tmp), labels))
  {
    StartsMatch(files);
    labels := ExpandAll(p, C.Init(files), coarse);
    CoarseIsFine(p, C.Init(files), I.Init(files.yaml, files.tmp), coarse);
  }

  /** A run of inodes in which writes do not overlap has, at every point, the live file of
      a run of the coarse store; and its whole state whenever nobody is writing. */
  lemma ApartRunsAreCoarse(p: string -> bool, files: C.Files, labels: seq<I.Label>) returns (coarse: seq<C.Label>)
    requires NoOverlap(p, I.Init(files.yaml, files.tmp), labels)
    ensures var c, s := C.Run(p, C.Init(files), coarse), I.Run(p, I.Init(files.yaml, files.tmp), labels);
            && I.Live(s) == c.files.yaml
            && ((forall id :: !IsWriting(s, id)) ==> Matches(c, s))
  {
    StartsMatch(files);
    coarse := FineRun(p, C.Init(files), I.Init(files.yaml, files.tmp), labels);
    var c, s := C.Run(p, C.Init(files), coarse), I.Run(p, I.Init(files.yaml, files.tmp), labels);
    if !Matches(c, s) {
      var id :| Amid(c, s, id);
      assert IsWriting(s, id);
    }
  }

  /** So without overlap, closure under prefixes keeps the live file well formed. */
  lemma ApartIsSafe(p: string -> bool, files: C.Files, labels: seq<I.Label>)
    requires C.PrefixClosed(p) && NoOverlap(p, I.Init(files.yaml, files.tmp), labels)
    ensures var live := I.Live(I.Run(p, I.Init(files.yaml, files.tmp), labels));
            live == files.yaml || (live.Some? && p(live.value))
  {
    C.SharedPathSafeIff(p);
    var coarse := ApartRunsAreCoarse(p, files, labels);
  }

  // ----- where the two differ -----

  /** Either all a or all b. */
  predicate Uniform(content: string) {
    (forall c | c in content :: c == 'a') || (forall c | c in content :: c == 'b')
  }

  /** A format that closure under prefixes makes safe for the coarse store, but that
      overlapping writes break: aabb goes live. */
  lemma PrefixClosedNotEnough()
    ensures C.AlwaysWhole(Uniform) && !Mixtures.AlwaysWhole(Uniform)
  {
    forall content: string, n: nat | n < |content| && Uniform(content)
      ensures Uniform(content[..n])
    {
      assert forall c | c in content[..n] :: c in content;
    }
    C.SharedPathSafeIff(Uniform);
    Mixtures.SharedPathSafeIff(Uniform);
    Mixtures.OverlapMixes(Uniform, "aa", "bbbb");
    var file := "aa" + "bbbb"[|"aa"|..];
    assert file[0] == 'a' && file[2] == 'b';
    assert 'a' in file && 'b' in file;
  }

  /** Formats that are safe under overlap are safe without. */
  lemma SafeWithoutOverlap(p: string -> bool)
    requires Mixtures.AlwaysWhole(p)
    ensures C.AlwaysWhole(p)
  {
    Mixtures.SharedPathSafeIff(p);
    forall content: string, n: nat | n < |content| && p(content)
      ensures p(content[..n])
    {
      forall j: nat | j < n
        ensures Mixtures.Offered(p, content[..n][j], j)
      {
        assert content[j] == content[..n][j];
      }
      assert Mixtures.Mixture(p, content[..n]);
    }
    C.SharedPathSafeIff(p);
  }
}
