/** What a put publishes when the writes of several writers overlap: the temporary file
    is the overlay of the pieces written since it was last truncated, byte by byte. */
module Overlays {
  import opened Prelude
  import opened SharedInodes

  /** One partial write. */
  datatype Piece = Piece(offset: nat, data: string)

  function End(q: Piece): nat {
    q.offset + |q.data|
  }

  // ----- the bytes of an overlay -----

  /** The pieces written one after the other. */
  function Overlay(file: string, pieces: seq<Piece>): string {
    if pieces == [] then file
    else
      var last := pieces[|pieces| - 1];
      WriteAt(Overlay(file, pieces[..|pieces| - 1]), last.offset, last.data)
  }

  predicate Covers(q: Piece, j: nat) {
    q.offset <= j < End(q)
  }

  /** What the last of the pieces that covers this position put there. */
  function LastPut(pieces: seq<Piece>, j: nat): Option<char> {
    if pieces == [] then None
    else
      var last := pieces[|pieces| - 1];
      if Covers(last, j) then Some(last.data[j - last.offset]) else LastPut(pieces[..|pieces| - 1], j)
  }

  predicate Reached(pieces: seq<Piece>, j: nat) {
    exists k | 0 <= k < |pieces| :: pieces[k].data != "" && j < End(pieces[k])
  }

  lemma WriteAtByte(file: string, q: Piece, j: nat)
    requires q.data != ""
    ensures j < |WriteAt(file, q.offset, q.data)| <==> j < |file| || j < End(q)
    ensures j < |file| || j < End(q) ==>
              WriteAt(file, q.offset, q.data)[j] ==
                if Covers(q, j) then q.data[j - q.offset] else if j < |file| then file[j] else '\0'
  {}

  lemma {:induction false} ReachedInit(pieces: seq<Piece>, j: nat)
    requires pieces != [] && pieces[|pieces| - 1].data != ""
    ensures Reached(pieces, j) <==> Reached(pieces[..|pieces| - 1], j) || j < End(pieces[|pieces| - 1])
  {
    var n := |pieces| - 1;
    if Reached(pieces[..n], j) {
      var k :| 0 <= k < n && pieces[..n][k].data != "" && j < End(pieces[..n][k]);
      assert pieces[k].data != "" && j < End(pieces[k]);
    }
    if Reached(pieces, j) && j >= End(pieces[n]) {
      var k :| 0 <= k <= n && pieces[k].data != "" && j < End(pieces[k]);
      assert pieces[..n][k] == pieces[k];
    }
  }

  /** Length and bytes of the overlay on an empty file: it goes as far as a piece
      reaches; each byte is what was put there last, or zero in a gap. */
  lemma {:induction false} OverlayByte(pieces: seq<Piece>, j: nat)
    requires forall q | q in pieces :: q.data != ""
    ensures j < |Overlay("", pieces)| <==> Reached(pieces, j)
    ensures Reached(pieces, j) ==>
              Overlay("", pieces)[j] == if LastPut(pieces, j).Some? then LastPut(pieces, j).value else '\0'
    ensures LastPut(pieces, j).Some? ==> Reached(pieces, j)
  {
    if pieces != [] {
      var n := |pieces| - 1;
      OverlayByte(pieces[..n], j);
      ReachedInit(pieces, j);
      WriteAtByte(Overlay("", pieces[..n]), pieces[n], j);
    }
  }

  /** The pieces show this content: none reaches past its end, and for every byte the
      last piece that covers it put that byte, or it is a zero in a gap before a piece. */
  predicate Shows(pieces: seq<Piece>, content: string) {
    && (forall q | q in pieces :: End(q) <= |content|)
    && (forall j: nat | j < |content| ::
          if LastPut(pieces, j).Some? then LastPut(pieces, j) == Some(content[j])
          else content[j] == '\0' && Reached(pieces, j))
  }

  lemma OverlayShowsIff(pieces: seq<Piece>, content: string)
    requires forall q | q in pieces :: q.data != ""
    ensures Overlay("", pieces) == content <==> Shows(pieces, content)
  {
    var file := Overlay("", pieces);
    if file == content {
      OverlayIsShown(pieces);
    }
    if Shows(pieces, content) {
      OverlayByte(pieces, |content|);
      OverlayByte(pieces, |file|);
      forall j: nat | j < |content|
        ensures j < |file| && file[j] == content[j]
      {
        OverlayByte(pieces, j);
      }
    }
  }

  lemma OverlayIsShown(pieces: seq<Piece>)
    requires forall q | q in pieces :: q.data != ""
    ensures Shows(pieces, Overlay("", pieces))
  {
    var file := Overlay("", pieces);
    forall q | q in pieces
      ensures End(q) <= |file|
    {
      var k :| 0 <= k < |pieces| && pieces[k] == q;
      assert Reached(pieces, End(q) - 1);
      OverlayByte(pieces, End(q) - 1);
    }
    forall j: nat | j < |file|
      ensures if LastPut(pieces, j).Some? then LastPut(pieces, j) == Some(file[j])
              else file[j] == '\0' && Reached(pieces, j)
    {
      OverlayByte(pieces, j);
    }
  }

  // ----- the temporary file is an overlay, in every run -----

  /** The inode an open truncates or creates, if it takes effect. */
  function Truncates(s: State, l: Label): Option<nat> {
    if l.Open? && l.id in s.writers && s.writers[l.id].Validated?
    then Some(if s.tmp.Some? && s.tmp.value < |s.inodes| then s.tmp.value else |s.inodes|)
    else None
  }

  /** The piece a label writes into this inode, if it does. */
  function Puts(s: State, l: Label, inode: nat): seq<Piece> {
    if l.Fill? && l.id in s.writers && s.writers[l.id].Writing? && s.writers[l.id].inode == inode then
      var Writing(content, _, offset) := s.writers[l.id];
      if l.n > 0 && inode < |s.inodes| && offset + l.n <= |content|
      then [Piece(offset, content[offset..offset + l.n])] else []
    else []
  }

  /** The pieces written into an inode since the last open that truncated it. */
  function SinceOpen(p: string -> bool, s: State, labels: seq<Label>, inode: nat): (pieces: seq<Piece>)
    ensures forall q | q in pieces :: q.data != ""
  {
    if labels == [] then []
    else
      var n := |labels| - 1;
      var before := Run(p, s, labels[..n]);
      if Truncates(before, labels[n]) == Some(inode) then []
      else SinceOpen(p, s, labels[..n], inode) + Puts(before, labels[n], inode)
  }

  predicate Opened(p: string -> bool, s: State, labels: seq<Label>, inode: nat) {
    labels != [] &&
    var n := |labels| - 1;
    Truncates(Run(p, s, labels[..n]), labels[n]) == Some(inode) || Opened(p, s, labels[..n], inode)
  }

  lemma RunLast(p: string -> bool, s: State, labels: seq<Label>)
    requires labels != []
    ensures Run(p, s, labels) == Step(p, Run(p, s, labels[..|labels| - 1]), labels[|labels| - 1])
  {
    var n := |labels| - 1;
    assert labels == labels[..n] + [labels[n]];
    RunAppend(p, s, labels[..n], [labels[n]]);
    var t := Run(p, s, labels[..n]);
    assert Run(p, t, [labels[n]]) == Run(p, Step(p, t, labels[n]), []);
  }

  lemma InodeStep(p: string -> bool, s: State, l: Label, inode: nat)
    requires Inv(s) && inode < |Step(p, s, l).inodes|
    ensures Truncates(s, l) == Some(inode) ==> Step(p, s, l).inodes[inode] == ""
    ensures Truncates(s, l) != Some(inode) ==>
              && inode < |s.inodes|
              && Step(p, s, l).inodes[inode] == Overlay(s.inodes[inode], Puts(s, l, inode))
  {
    if |Puts(s, l, inode)| == 1 {
      assert Puts(s, l, inode)[..0] == [];
    }
  }

  lemma {:induction false} OverlayAppend(file: string, a: seq<Piece>, b: seq<Piece>)
    requires |b| <= 1
    ensures Overlay(file, a + b) == Overlay(Overlay(file, a), b)
  {
    if b == [] {
      assert a + b == a;
    } else {
      assert (a + b)[..|a|] == a && b[..0] == [];
    }
  }

  /** In every run, an inode that has been opened is the overlay, on an empty file, of
      the pieces written since it was last truncated. */
  lemma {:induction false} OverlayLaw(p: string -> bool, s: State, labels: seq<Label>, inode: nat)
    requires Inv(s) && Opened(p, s, labels, inode)
    ensures inode < |Run(p, s, labels).inodes|
    ensures Run(p, s, labels).inodes[inode] == Overlay("", SinceOpen(p, s, labels, inode))
    decreases |labels|
  {
    var n := |labels| - 1;
    var before := Run(p, s, labels[..n]);
    RunKeepsInv(p, s, labels[..n]);
    RunLast(p, s, labels);
    if Truncates(before, labels[n]) != Some(inode) {
      OverlayLaw(p, s, labels[..n], inode);
      OverlayAppend("", SinceOpen(p, s, labels[..n], inode), Puts(before, labels[n], inode));
    }
    InodesGrow(p, before, labels[n]);
    InodeStep(p, before, labels[n], inode);
  }

  lemma InodesGrow(p: string -> bool, s: State, l: Label)
    ensures |s.inodes| <= |Step(p, s, l).inodes|
    ensures Truncates(s, l).Some? ==> Truncates(s, l).value < |Step(p, s, l).inodes|
  {}

  /** Some writer has opened the temporary file since the last crash. */
  predicate PastOpen(s: State, id: nat) {
    id in s.writers && !s.writers[id].Validated?
  }

  lemma TmpStep(p: string -> bool, s: State, l: Label, id: nat)
    requires Inv(s) && Truncates(s, l).None? && PastOpen(Step(p, s, l), id) && Step(p, s, l).tmp.Some?
    ensures PastOpen(s, id) && s.tmp == Step(p, s, l).tmp
  {}

  lemma TruncatesTmp(p: string -> bool, s: State, l: Label)
    requires Inv(s) && Truncates(s, l).Some?
    ensures Step(p, s, l).tmp == Truncates(s, l)
  {}

  /** Then the file the name is bound to has been truncated in this run. */
  lemma {:induction false} TmpOpened(p: string -> bool, s: State, labels: seq<Label>, id: nat)
    requires Inv(s) && s.writers == map[]
    requires PastOpen(Run(p, s, labels), id) && Run(p, s, labels).tmp.Some?
    ensures Opened(p, s, labels, Run(p, s, labels).tmp.value)
    decreases |labels|
  {
    if labels != [] {
      var n := |labels| - 1;
      RunLast(p, s, labels);
      RunKeepsInv(p, s, labels[..n]);
      var before := Run(p, s, labels[..n]);
      if Truncates(before, labels[n]).None? {
        TmpStep(p, before, labels[n], id);
        TmpOpened(p, s, labels[..n], id);
      } else {
        TruncatesTmp(p, before, labels[n]);
      }
    }
  }

  // ----- what a successful put publishes -----

  /** The writer is about to rename, and there is a temporary file. */
  predicate MayPublish(s: State, id: nat) {
    id in s.writers && s.writers[id].Closed? && s.tmp.Some?
  }

  /** In every run: a successful rename makes live exactly the content that the pieces in
      the temporary file show. */
  lemma PublishedIff(p: string -> bool, yaml: Option<string>, leftover: Option<string>, labels: seq<Label>, id: nat,
      content: string)
    requires MayPublish(Run(p, Init(yaml, leftover), labels), id)
    ensures var s := Run(p, Init(yaml, leftover), labels);
            var pieces := SinceOpen(p, Init(yaml, leftover), labels, s.tmp.value);
            Live(Step(p, s, Rename(id, true))) == Some(content) <==> Shows(pieces, content)
  {
    var s0 := Init(yaml, leftover);
    var s := Run(p, s0, labels);
    InitInv(yaml, leftover);
    RunKeepsInv(p, s0, labels);
    TmpOpened(p, s0, labels, id);
    OverlayLaw(p, s0, labels, s.tmp.value);
    OverlayShowsIff(SinceOpen(p, s0, labels, s.tmp.value), content);
  }

  /** The m-th label is a rename that succeeds. */
  predicate PublishesAt(p: string -> bool, s: State, labels: seq<Label>, m: nat)
    requires m < |labels|
  {
    Publishes(labels[m]) && MayPublish(Run(p, s, labels[..m]), labels[m].id)
  }

  /** The pieces in the temporary file when it happens, and what is live after it. */
  function PiecesAt(p: string -> bool, s: State, labels: seq<Label>, m: nat): seq<Piece>
    requires m < |labels| && PublishesAt(p, s, labels, m)
  {
    SinceOpen(p, s, labels[..m], Run(p, s, labels[..m]).tmp.value)
  }

  function LiveAfter(p: string -> bool, s: State, labels: seq<Label>, m: nat): Option<string>
    requires m < |labels|
  {
    Live(Run(p, s, labels[..m + 1]))
  }

  function RequestedAt(p: string -> bool, s: State, labels: seq<Label>, m: nat): string
    requires m < |labels| && PublishesAt(p, s, labels, m)
  {
    Run(p, s, labels[..m]).writers[labels[m].id].content
  }

  lemma LiveAfterIff(p: string -> bool, yaml: Option<string>, leftover: Option<string>, labels: seq<Label>, m: nat,
      content: string)
    requires m < |labels| && PublishesAt(p, Init(yaml, leftover), labels, m)
    ensures LiveAfter(p, Init(yaml, leftover), labels, m) == Some(content) <==>
            Shows(PiecesAt(p, Init(yaml, leftover), labels, m), content)
  {
    RunLast(p, Init(yaml, leftover), labels[..m + 1]);
    assert labels[..m + 1][..m] == labels[..m];
    PublishedIff(p, yaml, leftover, labels[..m], labels[m].id, content);
  }

  /** For every run, with any overlap of writes: each put that reported success published
      its own content exactly when, each time, the last piece over every byte was right
      and none reached past the end ... */
  lemma OwnContentIff(p: string -> bool, yaml: Option<string>, leftover: Option<string>, labels: seq<Label>)
    ensures var s := Init(yaml, leftover);
            (forall m: nat | m < |labels| && PublishesAt(p, s, labels, m) ::
               LiveAfter(p, s, labels, m) == Some(RequestedAt(p, s, labels, m)))
            <==>
            (forall m: nat | m < |labels| && PublishesAt(p, s, labels, m) ::
               Shows(PiecesAt(p, s, labels, m), RequestedAt(p, s, labels, m)))
  {
    var s := Init(yaml, leftover);
    forall m: nat | m < |labels| && PublishesAt(p, s, labels, m)
      ensures LiveAfter(p, s, labels, m) == Some(RequestedAt(p, s, labels, m)) <==>
              Shows(PiecesAt(p, s, labels, m), RequestedAt(p, s, labels, m))
    {
      LiveAfterIff(p, yaml, leftover, labels, m, RequestedAt(p, s, labels, m));
    }
  }

  /** ... and accepted content exactly when the pieces were right for some accepted
      content. */
  lemma AcceptedIff(p: string -> bool, yaml: Option<string>, leftover: Option<string>, labels: seq<Label>, m: nat)
    requires m < |labels| && PublishesAt(p, Init(yaml, leftover), labels, m)
    ensures var live := LiveAfter(p, Init(yaml, leftover), labels, m);
            (live.Some? && p(live.value)) <==>
            exists content :: p(content) && Shows(PiecesAt(p, Init(yaml, leftover), labels, m), content)
  {
    var s := Init(yaml, leftover);
    var live := LiveAfter(p, s, labels, m);
    if live.Some? {
      LiveAfterIff(p, yaml, leftover, labels, m, live.value);
    }
    if exists content :: p(content) && Shows(PiecesAt(p, s, labels, m), content) {
      var content :| p(content) && Shows(PiecesAt(p, s, labels, m), content);
      LiveAfterIff(p, yaml, leftover, labels, m, content);
    }
  }

  // ----- and what is live at every later time -----

  lemma {:induction false} LiveOpened(p: string -> bool, s: State, labels: seq<Label>)
    requires Inv(s) && s.writers == map[]
    ensures var t := Run(p, s, labels); t.live == s.live || (t.live.Some? && Opened(p, s, labels, t.live.value))
    decreases |labels|
  {
    if labels != [] {
      var n := |labels| - 1;
      RunLast(p, s, labels);
      LiveOpened(p, s, labels[..n]);
      var before := Run(p, s, labels[..n]);
      if Run(p, s, labels).live != before.live {
        TmpOpened(p, s, labels[..n], labels[n].id);
      }
    }
  }

  /** At every point of every run the live file is still the initial one, or it is what
      the pieces written into its inode, before and after the rename, show. */
  lemma LiveIff(p: string -> bool, yaml: Option<string>, leftover: Option<string>, labels: seq<Label>, content: string)
    ensures var s0 := Init(yaml, leftover);
            var s := Run(p, s0, labels);
            s.live == s0.live ||
            (s.live.Some? && (Live(s) == Some(content) <==> Shows(SinceOpen(p, s0, labels, s.live.value), content)))
  {
    var s0 := Init(yaml, leftover);
    var s := Run(p, s0, labels);
    InitInv(yaml, leftover);
    LiveOpened(p, s0, labels);
    if s.live != s0.live {
      OverlayLaw(p, s0, labels, s.live.value);
      OverlayShowsIff(SinceOpen(p, s0, labels, s.live.value), content);
    }
  }
}
