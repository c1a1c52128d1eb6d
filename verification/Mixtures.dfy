/** Which content formats the shared temporary path is safe for when writes overlap: the
    live file can become every position-wise mixture of accepted contents, with zeros
    where a truncation left a gap, and nothing else. */
module Mixtures {
  import opened Prelude
  import opened SharedInodes

  /** Some accepted content has this character at this position. */
  ghost predicate Offered(p: string -> bool, c: char, j: nat) {
    exists content :: p(content) && j < |content| && content[j] == c
  }

  /** Every byte is offered by some accepted content, except for zeros before the last. */
  ghost predicate Mixed(p: string -> bool, file: string) {
    forall j: nat | j < |file| :: Offered(p, file[j], j) || (file[j] == '\0' && j + 1 < |file|)
  }

  ghost predicate Mixture(p: string -> bool, file: string) {
    (exists content :: p(content)) && Mixed(p, file)
  }

  // ----- nothing else goes live -----

  predicate PastOpen(w: Writer) {
    !w.Validated?
  }

  ghost predicate MixedInode(p: string -> bool, s: State, inode: nat) {
    inode < |s.inodes| && Mixed(p, s.inodes[inode])
  }

  /** Every file that a writer holds, or may rename, is mixed; and so is the live one,
      unless it is still the initial one, which nobody holds. */
  ghost predicate MixInv(p: string -> bool, yaml: Option<string>, s: State) {
    && Inv(s)
    && (forall id | id in s.writers && !s.writers[id].RenameFailed? :: p(s.writers[id].content))
    && (forall id | id in s.writers && s.writers[id].Writing? :: MixedInode(p, s, s.writers[id].inode))
    && (forall id | id in s.writers && PastOpen(s.writers[id]) :: s.tmp.Some? ==> MixedInode(p, s, s.tmp.value))
    && (|| (Live(s) == yaml && forall id :: !HoldsLive(s, id))
        || (s.live.Some? && MixedInode(p, s, s.live.value) && exists content :: p(content)))
  }

  lemma WriteMixed(p: string -> bool, file: string, content: string, offset: nat, n: nat)
    requires Mixed(p, file) && p(content) && 0 < n && offset + n <= |content|
    ensures Mixed(p, WriteAt(file, offset, content[offset..offset + n]))
  {
    var after := WriteAt(file, offset, content[offset..offset + n]);
    forall j: nat | j < |after|
      ensures Offered(p, after[j], j) || (after[j] == '\0' && j + 1 < |after|)
    {
      if offset <= j < offset + n {
        assert after[j] == content[j];
      } else if j < |file| {
        assert after[j] == file[j];
      }
    }
  }

  lemma FillKeepsMixed(p: string -> bool, yaml: Option<string>, s: State, id: nat, n: nat)
    requires MixInv(p, yaml, s)
    ensures MixInv(p, yaml, Step(p, s, Fill(id, n)))
  {
    var t := Step(p, s, Fill(id, n));
    if t != s {
      StepKeepsInv(p, s, Fill(id, n));
      forall i | MixedInode(p, s, i)
        ensures MixedInode(p, t, i)
      {
        FillKeepsInode(p, s, id, n, i);
      }
      assert forall other | other in t.writers && other != id :: t.writers[other] == s.writers[other];
      assert forall other :: HoldsLive(t, other) <==> HoldsLive(s, other);
    }
  }

  lemma FillKeepsInode(p: string -> bool, s: State, id: nat, n: nat, i: nat)
    requires id in s.writers && s.writers[id].Writing? && p(s.writers[id].content)
    requires MixedInode(p, s, i) && MixedInode(p, s, s.writers[id].inode)
    ensures MixedInode(p, Step(p, s, Fill(id, n)), i)
  {
    var t := Step(p, s, Fill(id, n));
    if t != s {
      var Writing(content, inode, offset) := s.writers[id];
      WriteMixed(p, s.inodes[inode], content, offset, n);
      assert t.inodes[i] == if i == inode then WriteAt(s.inodes[i], offset, content[offset..offset + n]) else s.inodes[i];
    }
  }

  lemma OpenKeepsMixed(p: string -> bool, yaml: Option<string>, s: State, id: nat)
    requires MixInv(p, yaml, s)
    ensures MixInv(p, yaml, Step(p, s, Open(id)))
  {
    var t := Step(p, s, Open(id));
    assert forall i | MixedInode(p, s, i) :: MixedInode(p, t, i);
    assert forall other | HoldsLive(t, other) :: HoldsLive(s, other);
  }

  lemma RenameKeepsMixed(p: string -> bool, yaml: Option<string>, s: State, id: nat)
    requires MixInv(p, yaml, s)
    ensures MixInv(p, yaml, Step(p, s, Rename(id, true)))
  {
    var t := Step(p, s, Rename(id, true));
    assert forall i | MixedInode(p, s, i) :: MixedInode(p, t, i);
    if t.live == s.live {
      assert forall other | HoldsLive(t, other) :: HoldsLive(s, other);
    } else {
      assert p(s.writers[id].content);
    }
  }

  lemma OtherKeepsMixed(p: string -> bool, yaml: Option<string>, s: State, l: Label)
    requires MixInv(p, yaml, s) && !l.Fill? && !l.Open? && !Publishes(l)
    ensures MixInv(p, yaml, Step(p, s, l))
  {
    var t := Step(p, s, l);
    StepKeepsInv(p, s, l);
    assert t.inodes == s.inodes && t.live == s.live;
    assert forall i | MixedInode(p, s, i) :: MixedInode(p, t, i);
    assert forall other | HoldsLive(t, other) :: HoldsLive(s, other);
  }

  lemma StepKeepsMixed(p: string -> bool, yaml: Option<string>, s: State, l: Label)
    requires MixInv(p, yaml, s)
    ensures MixInv(p, yaml, Step(p, s, l))
  {
    if l.Fill? {
      FillKeepsMixed(p, yaml, s, l.id, l.n);
    } else if l.Open? {
      OpenKeepsMixed(p, yaml, s, l.id);
    } else if Publishes(l) {
      RenameKeepsMixed(p, yaml, s, l.id);
    } else {
      OtherKeepsMixed(p, yaml, s, l);
    }
  }

  lemma {:induction false} RunKeepsMixed(p: string -> bool, yaml: Option<string>, s: State, labels: seq<Label>)
    requires MixInv(p, yaml, s)
    ensures MixInv(p, yaml, Run(p, s, labels))
    decreases |labels|
  {
    if labels != [] {
      StepKeepsMixed(p, yaml, s, labels[0]);
      RunKeepsMixed(p, yaml, Step(p, s, labels[0]), labels[1..]);
    }
  }

  /** At every point of every run the live file is the initial one or a mixture. */
  lemma LiveIsMixture(p: string -> bool, yaml: Option<string>, leftover: Option<string>, s: State)
    requires Reachable(p, yaml, leftover, s)
    ensures Live(s) == yaml || (Live(s).Some? && Mixture(p, Live(s).value))
  {
    var labels :| s == Run(p, Init(yaml, leftover), labels);
    InitInv(yaml, leftover);
    RunKeepsMixed(p, yaml, Init(yaml, leftover), labels);
  }

  // ----- every mixture goes live -----

  /** An accepted content that offers this byte. */
  ghost function Offer(p: string -> bool, c: char, j: nat): (content: string)
    requires Offered(p, c, j)
    ensures p(content) && j < |content| && content[j] == c
  {
    var content :| p(content) && j < |content| && content[j] == c;
    content
  }

  /** Writer j + 1 holds the temporary file open, about to write byte j. */
  ghost predicate Poised(p: string -> bool, file: string, s: State, j: nat)
    requires j < |file|
  {
    Offered(p, file[j], j) ==>
      j + 1 in s.writers && s.writers[j + 1] == Writing(Offer(p, file[j], j), 0, j)
  }

  /** Writer 0 is about to rename; the writers for the first k bytes are poised. */
  ghost predicate Gathered(p: string -> bool, file: string, s: State, k: nat)
    requires k <= |file|
  {
    && s.tmp == Some(0) && |s.inodes| == 1
    && 0 in s.writers && s.writers[0].Closed?
    && (forall j: nat | j < k :: Poised(p, file, s, j))
    && (forall id | id in s.writers :: id <= k)
  }

  lemma Renamer(p: string -> bool, file: string, content: string) returns (s: State)
    requires p(content)
    ensures Reachable(p, None, None, s) && Gathered(p, file, s, 0)
  {
    s := Init(None, None);
    assert s == Run(p, s, []);
    s := Take(p, s, Begin(0, content));
    s := Take(p, s, Open(0));
    s := Take(p, s, Fill(0, |content|));
    s := Take(p, s, Close(0));
  }

  /** One more step of a run. */
  lemma Take(p: string -> bool, s: State, l: Label) returns (t: State)
    requires Reachable(p, None, None, s)
    ensures Reachable(p, None, None, t) && t == Step(p, s, l)
  {
    StepReachable(p, None, None, s, l);
    t := Step(p, s, l);
  }

  /** A new writer opens the only file and writes its first k bytes. */
  lemma Poise(p: string -> bool, s: State, id: nat, content: string, k: nat) returns (t: State)
    requires Reachable(p, None, None, s) && s.tmp == Some(0) && |s.inodes| == 1
    requires p(content) && k < |content| && id !in s.writers
    ensures Reachable(p, None, None, t) && t.tmp == Some(0) && |t.inodes| == 1
    ensures t.writers == s.writers[id := Writing(content, 0, k)]
  {
    t := Take(p, s, Begin(id, content));
    t := Take(p, t, Open(id));
    t := Take(p, t, Fill(id, k));
  }

  /** The writer for byte k opens the file and writes what comes before that byte. */
  lemma Gather(p: string -> bool, file: string, s: State, k: nat) returns (t: State)
    requires Reachable(p, None, None, s) && k < |file| && Gathered(p, file, s, k)
    ensures Reachable(p, None, None, t) && Gathered(p, file, t, k + 1)
  {
    t := s;
    if Offered(p, file[k], k) {
      t := Poise(p, s, k + 1, Offer(p, file[k], k), k);
    }
    forall j: nat | j < k + 1
      ensures Poised(p, file, t, j)
    {
      assert j < k ==> Poised(p, file, s, j);
    }
  }

  lemma {:induction false} GatherAll(p: string -> bool, file: string, content: string, k: nat) returns (s: State)
    requires p(content) && k <= |file|
    ensures Reachable(p, None, None, s) && Gathered(p, file, s, k)
  {
    if k == 0 {
      s := Renamer(p, file, content);
    } else {
      s := GatherAll(p, file, content, k - 1);
      s := Gather(p, file, s, k - 1);
    }
  }

  /** The part of the file that the first k bytes' writers produce. */
  ghost function Produced(p: string -> bool, file: string, k: nat): (part: string)
    requires k <= |file|
    ensures part <= file && |part| <= k
    ensures k > 0 && Offered(p, file[k - 1], k - 1) ==> |part| == k
  {
    if k == 0 then "" else if Offered(p, file[k - 1], k - 1) then file[..k] else Produced(p, file, k - 1)
  }

  /** Gathered, truncated since, and filled by the first k bytes' writers. */
  ghost predicate Filled(p: string -> bool, file: string, s: State, k: nat)
    requires k <= |file|
  {
    && s.tmp == Some(0) && s.inodes == [Produced(p, file, k)]
    && 0 in s.writers && s.writers[0].Closed?
    && (forall j: nat | k <= j < |file| :: Poised(p, file, s, j))
  }

  lemma Truncate(p: string -> bool, file: string, content: string, s: State) returns (t: State)
    requires Reachable(p, None, None, s) && p(content) && Gathered(p, file, s, |file|)
    ensures Reachable(p, None, None, t) && Filled(p, file, t, 0)
  {
    var id := |file| + 1;
    t := Take(p, s, Begin(id, content));
    t := Take(p, t, Open(id));
    forall j: nat | j < |file|
      ensures Poised(p, file, t, j)
    {
      assert Poised(p, file, s, j);
    }
  }

  /** Zeros fill the gap between what was produced and the next byte. */
  lemma GapIsZeros(p: string -> bool, file: string, k: nat, j: nat)
    requires Mixed(p, file) && k <= |file| && |Produced(p, file, k)| <= j < k
    ensures file[j] == '\0'
  {
    if j < k - 1 {
      GapIsZeros(p, file, k - 1, j);
    }
  }

  lemma ProducedNext(p: string -> bool, file: string, k: nat)
    requires Mixed(p, file) && k < |file| && Offered(p, file[k], k)
    ensures WriteAt(Produced(p, file, k), k, [file[k]]) == Produced(p, file, k + 1)
  {
    var part := Produced(p, file, k);
    forall j: nat | |part| <= j < k
      ensures file[j] == '\0'
    {
      GapIsZeros(p, file, k, j);
    }
    assert part + seq(k - |part|, _ => '\0') == file[..k];
    assert file[..k] + [file[k]] == file[..k + 1];
  }

  lemma FillByte(p: string -> bool, file: string, s: State, k: nat)
    requires Mixed(p, file) && k < |file| && Filled(p, file, s, k) && Offered(p, file[k], k)
    ensures var t := Step(p, s, Fill(k + 1, 1));
            && t.inodes == [Produced(p, file, k + 1)] && t.tmp == s.tmp
            && (forall id | id in s.writers && id != k + 1 :: id in t.writers && t.writers[id] == s.writers[id])
  {
    assert Poised(p, file, s, k);
    ProducedNext(p, file, k);
    FillOne(p, s, k + 1, Offer(p, file[k], k), k);
  }

  /** A writer's one byte into the only inode. */
  lemma FillOne(p: string -> bool, s: State, id: nat, content: string, k: nat)
    requires |s.inodes| == 1 && k < |content| && id in s.writers && s.writers[id] == Writing(content, 0, k)
    ensures var t := Step(p, s, Fill(id, 1));
            && t.inodes == [WriteAt(s.inodes[0], k, [content[k]])] && t.tmp == s.tmp
            && (forall other | other in s.writers && other != id ::
                  other in t.writers && t.writers[other] == s.writers[other])
  {
    assert content[k..k + 1] == [content[k]];
  }

  lemma FillNext(p: string -> bool, file: string, s: State, k: nat) returns (t: State)
    requires Reachable(p, None, None, s) && Mixed(p, file) && k < |file| && Filled(p, file, s, k)
    ensures Reachable(p, None, None, t) && Filled(p, file, t, k + 1)
  {
    t := s;
    if Offered(p, file[k], k) {
      t := Take(p, s, Fill(k + 1, 1));
      FillByte(p, file, s, k);
    }
    forall j: nat | k + 1 <= j < |file|
      ensures Poised(p, file, t, j)
    {
      assert Poised(p, file, s, j);
    }
  }

  lemma {:induction false} FillAll(p: string -> bool, file: string, s: State, k: nat) returns (t: State)
    requires Reachable(p, None, None, s) && Mixed(p, file) && k <= |file| && Filled(p, file, s, 0)
    ensures Reachable(p, None, None, t) && Filled(p, file, t, k)
  {
    if k == 0 {
      t := s;
    } else {
      t := FillAll(p, file, s, k - 1);
      t := FillNext(p, file, t, k - 1);
    }
  }

  /** Every mixture is what some run's put publishes and reports as a success. */
  lemma MixtureGoesLive(p: string -> bool, file: string) returns (s: State)
    requires Mixture(p, file)
    ensures Reachable(p, None, None, s) && 0 in s.writers && s.writers[0].Closed?
    ensures Reachable(p, None, None, Step(p, s, Rename(0, true)))
    ensures Live(Step(p, s, Rename(0, true))) == Some(file)
  {
    var content :| p(content);
    s := GatherAll(p, file, content, |file|);
    s := Truncate(p, file, content, s);
    s := FillAll(p, file, s, |file|);
    assert Produced(p, file, |file|) == file;
    StepReachable(p, None, None, s, Rename(0, true));
  }

  /** For example, a shorter content followed by the rest of a longer one. */
  lemma OverlapMixes(p: string -> bool, a: string, b: string)
    requires p(a) && p(b) && |a| <= |b|
    ensures Mixture(p, a + b[|a|..])
  {
    var file := a + b[|a|..];
    forall j: nat | j < |file|
      ensures Offered(p, file[j], j)
    {
      assert file[j] == if j < |a| then a[j] else b[j];
    }
  }

  // ----- the exact condition -----

  ghost predicate AlwaysWhole(p: string -> bool) {
    forall yaml, leftover, s | Reachable(p, yaml, leftover, s) ::
      Live(s) == yaml || (Live(s).Some? && p(Live(s).value))
  }

  ghost predicate MixtureClosed(p: string -> bool) {
    forall file | Mixture(p, file) :: p(file)
  }

  /** With any overlap of writes, the shared path keeps the live file well formed exactly
      for the formats that accept every mixture of accepted contents. */
  lemma SharedPathSafeIff(p: string -> bool)
    ensures AlwaysWhole(p) <==> MixtureClosed(p)
  {
    if MixtureClosed(p) {
      forall yaml, leftover, s | Reachable(p, yaml, leftover, s)
        ensures Live(s) == yaml || (Live(s).Some? && p(Live(s).value))
      {
        LiveIsMixture(p, yaml, leftover, s);
      }
    }
    if AlwaysWhole(p) {
      forall file | Mixture(p, file)
        ensures p(file)
      {
        var s := MixtureGoesLive(p, file);
        assert Live(Step(p, s, Rename(0, true))) == Some(file);
      }
    }
  }
}
