/** The gate across restarts.  The replay cache lives in the process, so every start
    begins with an empty one; what then still limits a signed message is its timestamp.
    A history is a sequence of lifetimes in clock order, each with the configuration it
    was started on. */
module Lifetimes {
  import opened Prelude
  import opened NonceCache
  import opened CmdAuth
  import opened ReplayBounds

  /** One process: its configuration, and the state in which it ended. */
  datatype Life = Life(p: Policy, end: State)

  /** A restart may change the configuration, not the digest or the format of times. */
  ghost predicate SameLibrary(lib: Policy, p: Policy) {
    p.parseTime == lib.parseTime && p.sha256 == lib.sha256
  }

  ghost predicate IsLife(lib: Policy, l: Life) {
    SameLibrary(lib, l.p) && Reachable(l.p, l.end)
  }

  ghost predicate History(lib: Policy, lives: seq<Life>) {
    && (forall l | l in lives :: IsLife(lib, l))
    && (forall j, k | 0 <= j < k < |lives| :: lives[j].end.clock <= lives[k].end.start)
  }

  predicate ForwardedIn(l: Life, i: nat, message: string) {
    ForwardedMessage(l.p, l.end, i, message)
  }

  // ----- the timestamp window -----

  /** Every forward of a message was checked within five minutes of its timestamp,
      after the start of the process that forwarded it. */
  lemma ForwardInWindow(lib: Policy, l: Life, i: nat, req: Request, ts: Time) returns (k: nat)
    requires IsLife(lib, l) && Stamped(lib, req, ts) && ForwardedIn(l, i, Canonical(lib, req))
    ensures k < |l.end.sections| && l.end.sections[k].id == l.end.forwarded[i]
    ensures AdmittedPair(l.end, k, ts, req.nonce.value)
    ensures l.end.start <= l.end.sections[k].checkedAt <= l.end.clock
    ensures -WINDOW <= l.end.sections[k].checkedAt - ts <= WINDOW
  {
    k := ForwardSound(l.p, l.end, i);
    ReachableInv(l.p, l.end);
    assert SectionOk(l.p, l.end, k);
    assert Canonical(l.p, req) == Canonical(lib, req);
    CanonicalInjective(l.p, l.end.flights[l.end.forwarded[i]].req, req);
  }

  // ----- how often a message is forwarded in all -----

  function Forwards(l: Life, message: string): set<nat> {
    set i: nat | i < |l.end.forwarded| && ForwardedIn(l, i, message)
  }

  lemma ThreeOf(s: set<nat>) returns (a: nat, b: nat, c: nat)
    requires |s| > 2
    ensures a in s && b in s && c in s && a != b && b != c && a != c
  {
    a :| a in s;
    var rest := s - {a};
    assert |rest| == |s| - 1;
    b :| b in rest;
    assert |rest - {b}| == |s| - 2;
    c :| c in rest - {b};
  }

  lemma AtMostTwicePerLife(lib: Policy, l: Life, message: string)
    requires IsLife(lib, l) && !LongWait(l.end)
    ensures |Forwards(l, message)| <= 2
  {
    if |Forwards(l, message)| > 2 {
      var a, b, c := ThreeOf(Forwards(l, message));
      MessageForwardedAtMostTwice(l.p, l.end, a, b, c, message);
    }
  }

  function Total(lives: seq<Life>, message: string): nat {
    if lives == [] then 0
    else Total(lives[..|lives| - 1], message) + |Forwards(lives[|lives| - 1], message)|
  }

  /** Some of this process's time lies within five minutes of the timestamp. */
  predicate Open(l: Life, ts: Time) {
    l.end.start - WINDOW <= ts <= l.end.clock + WINDOW
  }

  function OpenLives(lives: seq<Life>, ts: Time): nat {
    if lives == [] then 0
    else OpenLives(lives[..|lives| - 1], ts) + if Open(lives[|lives| - 1], ts) then 1 else 0
  }

  /** This process ran both before and after the timestamp. */
  predicate Spans(l: Life, ts: Time) {
    l.end.start < ts < l.end.clock
  }

  lemma TwoOf(s: set<nat>) returns (a: nat, b: nat)
    requires |s| > 1
    ensures a in s && b in s && a != b
  {
    a :| a in s;
    assert |s - {a}| == |s| - 1;
    b :| b in s - {a};
  }

  /** A process that forwards a message twice spans its timestamp. */
  lemma TwiceSpans(lib: Policy, l: Life, req: Request, ts: Time)
    requires IsLife(lib, l) && !LongWait(l.end) && Stamped(lib, req, ts)
    requires |Forwards(l, Canonical(lib, req))| > 1
    ensures Spans(l, ts)
  {
    var message := Canonical(lib, req);
    var i, j := TwoOf(Forwards(l, message));
    var x := ForwardInWindow(lib, l, i, req, ts);
    var y := ForwardInWindow(lib, l, j, req, ts);
    ForwardsDistinct(l, i, j, message);
    var first, second := if x < y then x else y, if x < y then y else x;
    NonceGap(l.p, l.end, first, second);
    ReplayBound(l.p, l.end, first, second, ts, req.nonce.value);
    ReachableInv(l.p, l.end);
    assert SectionOk(l.p, l.end, first) && SectionOk(l.p, l.end, second);
    assert Delay(l.end.sections[second]) < MINUTE;
  }

  lemma ForwardsDistinct(l: Life, i: nat, j: nat, message: string)
    requires Reachable(l.p, l.end) && i != j && ForwardedIn(l, i, message) && ForwardedIn(l, j, message)
    ensures l.end.forwarded[i] != l.end.forwarded[j]
  {
    var k, m := ForwardedSections(l.p, l.end, i, j, message);
  }

  /** What one process adds to the total. */
  lemma OneLifeBound(lib: Policy, l: Life, req: Request, ts: Time)
    requires IsLife(lib, l) && !LongWait(l.end) && Stamped(lib, req, ts)
    ensures |Forwards(l, Canonical(lib, req))| <= (if Open(l, ts) then 1 else 0) + (if Spans(l, ts) then 1 else 0)
  {
    var message := Canonical(lib, req);
    AtMostTwicePerLife(lib, l, message);
    if Forwards(l, message) != {} {
      var i :| i in Forwards(l, message);
      var k := ForwardInWindow(lib, l, i, req, ts);
    }
    if |Forwards(l, message)| > 1 {
      TwiceSpans(lib, l, req, ts);
    }
  }

  predicate AnySpans(lives: seq<Life>, ts: Time) {
    exists k | 0 <= k < |lives| :: Spans(lives[k], ts)
  }

  lemma {:induction false} TotalWithSpan(lib: Policy, lives: seq<Life>, req: Request, ts: Time)
    requires History(lib, lives) && Stamped(lib, req, ts)
    requires forall l | l in lives :: !LongWait(l.end)
    ensures Total(lives, Canonical(lib, req)) <= OpenLives(lives, ts) + (if AnySpans(lives, ts) then 1 else 0)
  {
    if lives != [] {
      var n := |lives| - 1;
      TotalWithSpan(lib, lives[..n], req, ts);
      assert lives[n] in lives;
      OneLifeBound(lib, lives[n], req, ts);
      if AnySpans(lives[..n], ts) {
        var k :| 0 <= k < n && Spans(lives[..n][k], ts);
        assert Spans(lives[k], ts) && lives[k].end.clock <= lives[n].end.start;
      }
    }
  }

  /** In any history in which no request waits 60 s for the lock, a message is forwarded
      at most once by each process that ran within five minutes of its timestamp, and
      once more by at most one of them. */
  lemma TotalBound(lib: Policy, lives: seq<Life>, req: Request, ts: Time)
    requires History(lib, lives) && Stamped(lib, req, ts)
    requires forall l | l in lives :: !LongWait(l.end)
    ensures Total(lives, Canonical(lib, req)) <= OpenLives(lives, ts) + 1
    ensures !AnySpans(lives, ts) ==> Total(lives, Canonical(lib, req)) <= OpenLives(lives, ts)
  {
    TotalWithSpan(lib, lives, req, ts);
  }

  /** A process that starts and ends at this reading and forwards the message once. */
  ghost predicate OnceAt(l: Life, at: Time, message: string) {
    l.end.start == l.end.clock == at && |Forwards(l, message)| == 1 && !LongWait(l.end)
  }

  ghost predicate OncePerStart(lives: seq<Life>, starts: seq<Time>, message: string) {
    |lives| == |starts| && forall k | 0 <= k < |lives| :: OnceAt(lives[k], starts[k], message)
  }

  lemma {:induction false} OncePerStartTotal(lives: seq<Life>, starts: seq<Time>, message: string)
    requires OncePerStart(lives, starts, message)
    ensures Total(lives, message) == |starts|
  {
    if lives != [] {
      var n := |lives| - 1;
      OncePerStartTotal(lives[..n], starts[..n], message);
      assert OnceAt(lives[n], starts[n], message);
    }
  }

  lemma StartLife(p: Policy, req: Request, ts: Time, at: Time) returns (l: Life)
    requires Presentable(p, req, ts) && SignatureValid(p, req) && -WINDOW <= at - ts <= WINDOW
    ensures IsLife(p, l) && OnceAt(l, at, Canonical(p, req))
  {
    var s := ForwardOnce(p, req, ts, at);
    l := Life(p, s);
    OneForward(l, req);
  }

  lemma OneForward(l: Life, req: Request)
    requires HasSignatureHeaders(req) && NeedsSignature(l.p, req)
    requires l.end.forwarded == [0] && 0 in l.end.flights && l.end.flights[0].req == req
    ensures |Forwards(l, Canonical(l.p, req))| == 1
  {
    assert Forwards(l, Canonical(l.p, req)) == {0};
  }

  lemma {:induction false} StartLives(p: Policy, req: Request, ts: Time, starts: seq<Time>) returns (lives: seq<Life>)
    requires Presentable(p, req, ts) && SignatureValid(p, req)
    requires forall k | 0 <= k < |starts| :: -WINDOW <= starts[k] - ts <= WINDOW
    ensures (forall l | l in lives :: IsLife(p, l)) && OncePerStart(lives, starts, Canonical(p, req))
  {
    if starts == [] {
      lives := [];
    } else {
      var n := |starts| - 1;
      lives := StartLives(p, req, ts, starts[..n]);
      var l := StartLife(p, req, ts, starts[n]);
      lives := lives + [l];
    }
  }

  /** And restarts do add forwards: whatever the starts, as long as they are in the
      window, each of the processes can forward the message once more. */
  lemma EachStartForwards(p: Policy, req: Request, ts: Time, starts: seq<Time>) returns (lives: seq<Life>)
    requires Presentable(p, req, ts) && SignatureValid(p, req)
    requires forall k | 0 <= k < |starts| :: -WINDOW <= starts[k] - ts <= WINDOW
    requires forall j, k | 0 <= j < k < |starts| :: starts[j] <= starts[k]
    ensures History(p, lives) && OncePerStart(lives, starts, Canonical(p, req))
    ensures Total(lives, Canonical(p, req)) == |starts|
  {
    lives := StartLives(p, req, ts, starts);
    OncePerStartTotal(lives, starts, Canonical(p, req));
    forall j, k | 0 <= j < k < |lives|
      ensures lives[j].end.clock <= lives[k].end.start
    {
      assert OnceAt(lives[j], starts[j], Canonical(p, req)) && OnceAt(lives[k], starts[k], Canonical(p, req));
    }
  }

  lemma {:induction false} AllOpen(lives: seq<Life>, ts: Time)
    requires forall k | 0 <= k < |lives| :: Open(lives[k], ts)
    ensures OpenLives(lives, ts) == |lives|
  {
    if lives != [] {
      AllOpen(lives[..|lives| - 1], ts);
    }
  }

  /** A process that starts five minutes before the timestamp and forwards twice. */
  lemma LifeOfTwo(p: Policy, req: Request, ts: Time) returns (l: Life)
    requires Presentable(p, req, ts) && SignatureValid(p, req)
    ensures IsLife(p, l) && !LongWait(l.end) && Open(l, ts) && l.end.start == ts - WINDOW
    ensures |Forwards(l, Canonical(p, req))| == 2
  {
    var s := ForwardTwice(p, req, ts, ts - WINDOW, 0);
    l := Life(p, s);
    assert Forwards(l, Canonical(p, req)) == {0, 1};
  }

  lemma AddLife(lib: Policy, lives: seq<Life>, l: Life, starts: seq<Time>, message: string)
    requires OncePerStart(lives, starts, message) && (forall x | x in lives :: IsLife(lib, x)) && IsLife(lib, l)
    requires forall j, k | 0 <= j < k < |starts| :: starts[j] <= starts[k]
    requires forall j | 0 <= j < |starts| :: starts[j] <= l.end.start
    ensures History(lib, lives + [l])
  {
    forall j, k | 0 <= j < k < |lives + [l]|
      ensures (lives + [l])[j].end.clock <= (lives + [l])[k].end.start
    {
      assert OnceAt(lives[j], starts[j], message);
      assert k < |lives| ==> OnceAt(lives[k], starts[k], message);
    }
  }

  /** The bound is attained, for any number of processes. */
  lemma BoundAttained(p: Policy, req: Request, ts: Time, n: nat) returns (lives: seq<Life>)
    requires Presentable(p, req, ts) && SignatureValid(p, req)
    ensures History(p, lives) && |lives| == n + 1 && forall l | l in lives :: !LongWait(l.end)
    ensures OpenLives(lives, ts) == n + 1 && Total(lives, Canonical(p, req)) == OpenLives(lives, ts) + 1
  {
    var message, starts := Canonical(p, req), seq(n, _ => ts - WINDOW);
    var before := StartLives(p, req, ts, starts);
    var last := LifeOfTwo(p, req, ts);
    AddLife(p, before, last, starts, message);
    OncePerStartTotal(before, starts, message);
    lives := before + [last];
    assert lives[..n] == before;
    forall k | 0 <= k < |lives|
      ensures Open(lives[k], ts) && !LongWait(lives[k].end)
    {
      assert k < n ==> OnceAt(lives[k], starts[k], message);
    }
    AllOpen(lives, ts);
  }

  // ----- the exact condition for a second forward -----

  /** Process, position in its forwards, and section, of the first and of the second
      forward. */
  datatype Places = Places(a: nat, b: nat, i: nat, j: nat, k: nat, m: nat)

  /** In process `a` of the history the message is forwarded from an admission at
      reading `first`; in the same or a later process it is forwarded again, from a
      later admission with at most this delay; `restart` is the first start after the
      first admission, if there is one. */
  predicate ForwardedAgainIn(lives: seq<Life>, message: string, first: Time, delay: nat, restart: Option<Time>, x: Places) {
    var Places(a, b, i, j, k, m) := x;
    && a <= b < |lives| && (a == b ==> k < m)
    && ForwardedIn(lives[a], i, message) && ForwardedIn(lives[b], j, message)
    && k < |lives[a].end.sections| && lives[a].end.sections[k].id == lives[a].end.forwarded[i]
    && m < |lives[b].end.sections| && lives[b].end.sections[m].id == lives[b].end.forwarded[j]
    && lives[a].end.sections[k].now == first && Delay(lives[b].end.sections[m]) <= delay
    && restart == if a + 1 < |lives| then Some(lives[a + 1].end.start) else None
  }

  ghost predicate ForwardableAgain(lib: Policy, message: string, first: Time, delay: nat, restart: Option<Time>) {
    exists lives, x :: History(lib, lives) && ForwardedAgainIn(lives, message, first, delay, restart, x)
  }

  /** Within one process: the timestamp is far enough ahead, and the process lives long
      enough for the stored nonce to expire. */
  predicate AgainWithinLife(ts: Time, first: Time, delay: nat, restart: Option<Time>) {
    && ts >= first + MINUTE - delay
    && (restart.Some? ==> first + NONCE_TTL <= restart.value)
  }

  /** After a restart: the timestamp is still in the window when the service is back. */
  predicate AgainAfterRestart(ts: Time, restart: Option<Time>) {
    restart.Some? && restart.value <= ts + WINDOW
  }

  /** Two forwards by one process. */
  lemma AgainInOneLife(lib: Policy, l: Life, req: Request, ts: Time, first: Time, delay: nat, x: Places)
    requires IsLife(lib, l) && Stamped(lib, req, ts)
    requires ForwardedTwiceIn(l.p, l.end, req, first, delay, x.i, x.j, x.k, x.m)
    ensures ts >= first + MINUTE - delay && first + NONCE_TTL <= l.end.clock
  {
    assert Canonical(l.p, req) == Canonical(lib, req);
    ForwardedTwiceBound(l.p, l.end, req, ts, first, delay, x.i, x.j, x.k, x.m);
    SameNonce(lib, l, req, ts, x.i, x.k);
    SameNonce(lib, l, req, ts, x.j, x.m);
    NonceGap(l.p, l.end, x.k, x.m);
    ReachableInv(l.p, l.end);
    assert SectionOk(l.p, l.end, x.m);
  }

  /** A later process that forwards had started in the window. */
  lemma StartedInWindow(lib: Policy, lives: seq<Life>, a: nat, b: nat, j: nat, req: Request, ts: Time)
    requires History(lib, lives) && a < b < |lives| && Stamped(lib, req, ts)
    requires ForwardedIn(lives[b], j, Canonical(lib, req))
    ensures lives[a + 1].end.start <= ts + WINDOW
  {
    assert IsLife(lib, lives[b]) && IsLife(lib, lives[a + 1]);
    var y := ForwardInWindow(lib, lives[b], j, req, ts);
    ReachableInv(lives[a + 1].p, lives[a + 1].end);
  }

  lemma AgainOnlyIf(lib: Policy, lives: seq<Life>, req: Request, ts: Time, first: Time, delay: nat,
      restart: Option<Time>, x: Places)
    requires History(lib, lives) && Stamped(lib, req, ts)
    requires ForwardedAgainIn(lives, Canonical(lib, req), first, delay, restart, x)
    ensures AgainWithinLife(ts, first, delay, restart) || AgainAfterRestart(ts, restart)
  {
    if x.a == x.b {
      var l := lives[x.b];
      assert IsLife(lib, l) && Canonical(l.p, req) == Canonical(lib, req);
      AgainInOneLife(lib, l, req, ts, first, delay, x);
    } else {
      StartedInWindow(lib, lives, x.a, x.b, x.j, req, ts);
    }
  }

  lemma AgainOnly(lib: Policy, req: Request, ts: Time, first: Time, delay: nat, restart: Option<Time>)
    requires Stamped(lib, req, ts) && ForwardableAgain(lib, Canonical(lib, req), first, delay, restart)
    ensures AgainWithinLife(ts, first, delay, restart) || AgainAfterRestart(ts, restart)
  {
    var lives, x :| History(lib, lives) && ForwardedAgainIn(lives, Canonical(lib, req), first, delay, restart, x);
    AgainOnlyIf(lib, lives, req, ts, first, delay, restart, x);
  }

  lemma SameNonce(lib: Policy, l: Life, req: Request, ts: Time, i: nat, k: nat)
    requires IsLife(lib, l) && Stamped(lib, req, ts) && ForwardedIn(l, i, Canonical(lib, req))
    requires k < |l.end.sections| && l.end.sections[k].id == l.end.forwarded[i]
    ensures AdmittedPair(l.end, k, ts, req.nonce.value)
  {
    var x := ForwardInWindow(lib, l, i, req, ts);
    SectionOfId(l.p, l.end, k, x);
  }

  lemma InitReachable(p: Policy, start: Time)
    ensures Reachable(p, Init(start))
  {
    assert Init(start) == Run(p, Init(start), []);
  }

  lemma AgainIf(p: Policy, req: Request, ts: Time, first: Time, delay: nat, restart: Option<Time>)
    requires Presentable(p, req, ts) && SignatureValid(p, req) && -WINDOW <= first - ts <= WINDOW
    requires restart.Some? ==> first <= restart.value
    requires AgainWithinLife(ts, first, delay, restart) || AgainAfterRestart(ts, restart)
    ensures ForwardableAgain(p, Canonical(p, req), first, delay, restart)
  {
    if AgainAfterRestart(ts, restart) {
      var s := ForwardOnce(p, req, ts, first);
      var t := ForwardOnce(p, req, ts, restart.value);
      var lives := [Life(p, s), Life(p, t)];
      assert ForwardedAgainIn(lives, Canonical(p, req), first, delay, restart, Places(0, 1, 0, 0, 0, 0));
    } else {
      var s := ForwardTwice(p, req, ts, first, delay);
      var lives := [Life(p, s)];
      if restart.Some? {
        InitReachable(p, restart.value);
        lives := lives + [Life(p, Init(restart.value))];
      }
      assert ForwardedAgainIn(lives, Canonical(p, req), first, delay, restart, Places(0, 0, 0, 1, 0, 1));
    }
  }

  /** Replay of a valid signed write over any history of restarts: once admitted at
      `first`, it can reach the handlers again exactly in these two ways. */
  lemma ForwardableAgainIff(p: Policy, req: Request, ts: Time, first: Time, delay: nat, restart: Option<Time>)
    requires Presentable(p, req, ts) && SignatureValid(p, req) && -WINDOW <= first - ts <= WINDOW
    requires restart.Some? ==> first <= restart.value
    ensures ForwardableAgain(p, Canonical(p, req), first, delay, restart) <==>
              AgainWithinLife(ts, first, delay, restart) || AgainAfterRestart(ts, restart)
  {
    if ForwardableAgain(p, Canonical(p, req), first, delay, restart) {
      AgainOnly(p, req, ts, first, delay, restart);
    } else if AgainWithinLife(ts, first, delay, restart) || AgainAfterRestart(ts, restart) {
      AgainIf(p, req, ts, first, delay, restart);
    }
  }
}
