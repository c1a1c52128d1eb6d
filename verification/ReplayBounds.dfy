/** What the gate guarantees over every run of one process: how often one signed message can be
    admitted and forwarded, and that nothing unsigned gets through. */
module ReplayBounds {
  import opened Prelude
  import opened NonceCache
  import opened CmdAuth
  import opened Text
  import opened Token

  ghost predicate Reachable(p: Policy, s: State) {
    exists clock, labels :: s == Run(p, Init(clock), labels)
  }

  lemma ReachableInv(p: Policy, s: State)
    requires Reachable(p, s)
    ensures Inv(p, s)
  {
    var clock, labels :| s == Run(p, Init(clock), labels);
    RunKeepsInv(p, Init(clock), labels);
  }

  /** The time a request spent between its timestamp check and the lock. */
  function Delay(c: Section): Time {
    c.lockedAt - c.checkedAt
  }

  predicate AdmittedPair(s: State, k: nat, ts: Time, nonce: string) {
    k < |s.sections| && Admitted(s, k) && s.sections[k].ts == ts && s.sections[k].nonce == nonce
  }

  // ----- the bounds -----

  /** Two admissions of one nonce: the lock of the second is taken at least the
      entry's lifetime after the reading stored by the first, in any interleaving. */
  lemma NonceGap(p: Policy, s: State, i: nat, k: nat)
    requires Reachable(p, s)
    requires i < k < |s.sections| && Admitted(s, i) && Admitted(s, k)
    requires s.sections[i].nonce == s.sections[k].nonce
    ensures s.sections[k].lockedAt >= s.sections[i].now + NONCE_TTL
  {
    ReachableInv(p, s);
    var j := AdmissionsApart(Attempts(s.sections), i, k);
    assert SectionOk(p, s, j);
  }

  /** A pair first admitted at reading `now` comes back only if its timestamp is
      at least 60 s minus the second request's delay ahead of that reading. */
  lemma ReplayBound(p: Policy, s: State, i: nat, k: nat, ts: Time, nonce: string)
    requires Reachable(p, s) && i < k
    requires AdmittedPair(s, i, ts, nonce) && AdmittedPair(s, k, ts, nonce)
    ensures ts >= s.sections[i].now + MINUTE - Delay(s.sections[k])
  {
    NonceGap(p, s, i, k);
    ReachableInv(p, s);
    assert SectionOk(p, s, k);
  }

  /** Three admissions of one pair need a delay of at least 60 s. */
  lemma AtMostTwice(p: Policy, s: State, a: nat, b: nat, c: nat, ts: Time, nonce: string)
    requires Reachable(p, s) && a < b < c
    requires AdmittedPair(s, a, ts, nonce) && AdmittedPair(s, b, ts, nonce) && AdmittedPair(s, c, ts, nonce)
    ensures Delay(s.sections[b]) >= MINUTE || Delay(s.sections[c]) >= MINUTE
  {
    NonceGap(p, s, a, b);
    NonceGap(p, s, b, c);
    ReachableInv(p, s);
    assert SectionOk(p, s, a) && SectionOk(p, s, b) && SectionOk(p, s, c);
  }

  // ----- the bound is exact -----

  /** A signed write that passes everything up to the replay cache while its
      timestamp is in the window. */
  predicate Signable(p: Policy, req: Request, ts: Time) {
    && Authenticated(p, req) && NeedsSignature(p, req) && p.keyLoaded
    && HasSignatureHeaders(req) && p.parseTime(req.timestamp.value) == Some(ts)
  }

  /** The message of this request fixes its timestamp. */
  predicate Stamped(p: Policy, req: Request, ts: Time) {
    OneLineFields(req) && HasSignatureHeaders(req) && p.parseTime(req.timestamp.value) == Some(ts)
  }

  predicate Presentable(p: Policy, req: Request, ts: Time) {
    OneLineFields(req) && Signable(p, req, ts)
  }

  /** The run admits the pair at reading `first` and once more, the second time
      with at most this delay. */
  predicate ReplayedIn(p: Policy, s: State, req: Request, ts: Time, first: Time, delay: nat, i: nat, k: nat)
    requires HasSignatureHeaders(req)
  {
    && i < k && AdmittedPair(s, i, ts, req.nonce.value) && AdmittedPair(s, k, ts, req.nonce.value)
    && s.sections[i].now == first && Delay(s.sections[k]) <= delay
  }

  ghost predicate Replayable(p: Policy, req: Request, ts: Time, first: Time, delay: nat)
    requires HasSignatureHeaders(req)
  {
    exists s, i: nat, k: nat :: Reachable(p, s) && ReplayedIn(p, s, req, ts, first, delay, i, k)
  }

  /** Admitting a request once is not unconditional: whether a message accepted at
      `first` can be accepted again is decided by how far ahead its timestamp is. */
  lemma ReplayableIff(p: Policy, req: Request, ts: Time, first: Time, delay: nat)
    requires Presentable(p, req, ts) && -WINDOW <= first - ts <= WINDOW
    ensures Replayable(p, req, ts, first, delay) <==> ts >= first + MINUTE - delay
  {
    if Replayable(p, req, ts, first, delay) {
      var s, i: nat, k: nat :| Reachable(p, s) && ReplayedIn(p, s, req, ts, first, delay, i, k);
      ReplayBound(p, s, i, k, ts, req.nonce.value);
    }
    if ts >= first + MINUTE - delay {
      var once := PresentOnce(p, req, ts, first);
      var s := PresentAgain(p, once, req, ts, delay);
      assert ReplayedIn(p, s, req, ts, first, delay, 0, 1);
    }
  }

  lemma RunAppend(p: Policy, s: State, a: seq<Label>, b: seq<Label>)
    ensures Run(p, s, a + b) == Run(p, Run(p, s, a), b)
    decreases |a|
  {
    if a == [] {
      assert a + b == b;
    } else {
      assert (a + b)[1..] == a[1..] + b;
      RunAppend(p, Step(p, s, a[0]), a[1..], b);
    }
  }

  /** Extending a reachable state by one label. */
  lemma StepReachable(p: Policy, s: State, l: Label)
    requires Reachable(p, s)
    ensures Reachable(p, Step(p, s, l))
  {
    var clock, labels :| s == Run(p, Init(clock), labels);
    RunAppend(p, Init(clock), labels, [l]);
    assert Run(p, s, [l]) == Run(p, Step(p, s, l), []);
    assert Step(p, s, l) == Run(p, Init(clock), labels + [l]);
  }

  /** A fresh, timely request passes the check. */
  lemma PresentCheck(p: Policy, s: State, id: nat, req: Request, ts: Time) returns (t: State)
    requires Reachable(p, s) && id !in s.flights
    requires Presentable(p, req, ts) && -WINDOW <= s.clock - ts <= WINDOW
    ensures Reachable(p, t)
    ensures t == s.(flights := s.flights[id := Flight(req, Timely(ts, s.clock))])
  {
    StepReachable(p, s, Arrive(id, req));
    t := Step(p, s, Arrive(id, req));
    assert t.flights[id] == Flight(req, Arrived);
    StepReachable(p, t, Check(id));
    assert CheckedPhase(p, req, s.clock) == Timely(ts, s.clock);
    t := Step(p, t, Check(id));
  }

  lemma PresentRead(p: Policy, s: State, id: nat, req: Request, ts: Time, wait: nat) returns (t: State)
    requires Reachable(p, s) && id !in s.flights
    requires Presentable(p, req, ts) && -WINDOW <= s.clock - ts <= WINDOW
    ensures Reachable(p, t)
    ensures t == s.(clock := s.clock + wait,
                    flights := s.flights[id := Flight(req, Clocked(ts, s.clock, s.clock + wait))])
  {
    t := PresentCheck(p, s, id, req, ts);
    StepReachable(p, t, Tick(wait));
    t := Step(p, t, Tick(wait));
    StepReachable(p, t, ReadNow(id));
    t := Step(p, t, ReadNow(id));
  }

  /** Take a fresh request through check, reading and lock, with one wait between
      the check and the reading. */
  lemma Present(p: Policy, s: State, id: nat, req: Request, ts: Time, wait: nat) returns (t: State)
    requires Reachable(p, s) && id !in s.flights
    requires Presentable(p, req, ts) && -WINDOW <= s.clock - ts <= WINDOW
    ensures Reachable(p, t)
    ensures t.flights.Keys == s.flights.Keys + {id} && t.clock == s.clock + wait && t.start == s.start
    ensures t.sections == s.sections + [Section(id, ts, req.nonce.value, s.clock, t.clock, t.clock)]
    ensures t.forwarded == s.forwarded && t.flights[id].req == req
    ensures forall other | other in s.flights :: t.flights[other] == s.flights[other]
    ensures Admitted(t, |s.sections|) ==> t.flights[id].phase == NonceStored(|s.sections|)
  {
    var r := PresentRead(p, s, id, req, ts, wait);
    t := PresentLock(p, r, id);
  }

  lemma PresentLock(p: Policy, r: State, id: nat) returns (t: State)
    requires Reachable(p, r) && id in r.flights && r.flights[id].phase.Clocked? && r.flights[id].req.nonce.Some?
    ensures Reachable(p, t) && t == LockSection(r, id)
    ensures Admitted(t, |r.sections|) ==> t.flights[id].phase == NonceStored(|r.sections|)
  {
    StepReachable(p, r, Lock(id));
    ReachableInv(p, r);
    t := Step(p, r, Lock(id));
    LockGrows(r, id);
  }

  lemma NothingBlocks(s: State, t: State)
    requires |t.sections| == |s.sections| + 1 && s.sections <= t.sections
    requires var c := t.sections[|s.sections|];
             forall k: nat | k < |s.sections| && Admitted(s, k) && s.sections[k].nonce == c.nonce ::
               s.sections[k].now + NONCE_TTL <= c.now
    ensures Admitted(t, |s.sections|)
  {
    var n := |s.sections|;
    var log := Attempts(t.sections);
    assert log == Attempts(s.sections) + [log[n]];
    RefusedIff(log, n);
    forall i: nat | i < n
      ensures !Blocks(log, i, n)
    {
      PrefixStable(Attempts(s.sections), [log[n]], i);
      assert Admitted(t, i) == Admitted(s, i);
    }
  }

  /** Nothing but the first presentation of this request, at the current reading. */
  predicate OnceAdmitted(s: State, req: Request, ts: Time)
    requires req.nonce.Some?
  {
    && s.sections == [Section(0, ts, req.nonce.value, s.clock, s.clock, s.clock)]
    && Admitted(s, 0) && s.flights.Keys == {0} && s.flights[0].req == req
  }

  lemma PresentOnce(p: Policy, req: Request, ts: Time, first: Time) returns (s: State)
    requires Presentable(p, req, ts) && -WINDOW <= first - ts <= WINDOW
    ensures Reachable(p, s) && OnceAdmitted(s, req, ts) && s.start == s.clock == first && s.forwarded == []
    ensures s.flights[0].phase == NonceStored(0)
  {
    assert Init(first) == Run(p, Init(first), []);
    s := Present(p, Init(first), 0, req, ts, 0);
    NothingBlocks(Init(first), s);
  }

  /** Present the request again as late as its timestamp and the delay allow. */
  lemma PresentAgain(p: Policy, s: State, req: Request, ts: Time, delay: nat) returns (t: State)
    requires Reachable(p, s) && Presentable(p, req, ts) && OnceAdmitted(s, req, ts)
    requires -WINDOW <= s.clock - ts <= WINDOW && ts >= s.clock + MINUTE - delay
    ensures Reachable(p, t) && ReplayedIn(p, t, req, ts, s.clock, delay, 0, 1)
    ensures |t.sections| == 2 && t.sections[0] == s.sections[0] && t.sections[1].id == 1
    ensures t.start == s.start && t.clock == s.clock + NONCE_TTL
    ensures t.flights.Keys == {0, 1} && t.flights[0] == s.flights[0]
    ensures t.flights[1] == Flight(req, NonceStored(1)) && t.forwarded == s.forwarded
  {
    var wait: nat := if delay < NONCE_TTL then delay else NONCE_TTL;
    StepReachable(p, s, Tick(NONCE_TTL - wait));
    var r := Step(p, s, Tick(NONCE_TTL - wait));
    t := Present(p, r, 1, req, ts, wait);
    NothingBlocks(r, t);
    PrefixStable(Attempts(r.sections), [Attempts(t.sections)[1]], 0);
    assert Attempts(t.sections) == Attempts(r.sections) + [Attempts(t.sections)[1]];
  }

  // ----- what reaches the handlers -----

  /** A stored nonce and a valid signature carry a request through to the handler. */
  lemma Finish(p: Policy, s: State, id: nat) returns (t: State)
    requires Reachable(p, s) && id in s.flights && s.flights[id].phase.NonceStored?
    requires HasSignatureHeaders(s.flights[id].req) && SignatureValid(p, s.flights[id].req)
    ensures Reachable(p, t) && t.forwarded == s.forwarded + [id]
    ensures t.start == s.start && t.clock == s.clock && t.sections == s.sections
    ensures t.flights.Keys == s.flights.Keys
    ensures t.flights[id].req == s.flights[id].req
    ensures forall other | other in s.flights && other != id :: t.flights[other] == s.flights[other]
  {
    var u := Step(p, s, Verify(id, true));
    StepReachable(p, s, Verify(id, true));
    StepReachable(p, u, Forward(id));
    t := Step(p, u, Forward(id));
  }

  /** A valid signed write is forwarded unless its nonce was admitted less than the
      entry's lifetime before. */
  lemma FreshWriteForwarded(p: Policy, s: State, id: nat, req: Request, ts: Time) returns (t: State)
    requires Reachable(p, s) && id !in s.flights
    requires Presentable(p, req, ts) && SignatureValid(p, req) && -WINDOW <= s.clock - ts <= WINDOW
    requires forall k: nat | k < |s.sections| && Admitted(s, k) && s.sections[k].nonce == req.nonce.value ::
               s.sections[k].now + NONCE_TTL <= s.clock
    ensures Reachable(p, t) && t.forwarded == s.forwarded + [id]
    ensures t.start == s.start && t.clock == s.clock
    ensures id in t.flights && t.flights[id].req == req
  {
    t := Present(p, s, id, req, ts, 0);
    NothingBlocks(s, t);
    t := Finish(p, t, id);
  }

  // ----- what the gate answers -----

  /** The token behind `Bearer `, of the command format, with the configured hash. */
  predicate Carries(p: Policy, req: Request, token: string) {
    && req.authorization == Some("Bearer " + token) && "nxs_cmd_" < token
    && p.cmdTokenHash == Some(p.hashToken(token))
  }

  lemma AuthenticatedIff(p: Policy, req: Request)
    ensures Authenticated(p, req) <==> exists token :: Carries(p, req, token)
  {
    if Authenticated(p, req) {
      var header := req.authorization.value;
      assert header == "Bearer " + header[7..];
      assert Carries(p, req, header[7..]);
    }
    if exists token :: Carries(p, req, token) {
      var token :| Carries(p, req, token);
      assert ("Bearer " + token)[7..] == token;
    }
  }

  /** The check, outcome by outcome, for the four things the gate documents: whether the
      channel is configured, the token, whether signatures are required of this method,
      and, if so, the key and the three headers.  Five minutes either way are in time. */
  lemma CheckOutcome(p: Policy, req: Request, clock: Time)
    ensures var phase := CheckedPhase(p, req, clock);
            var signed := p.requireSignatures && (req.verb == "PUT" || req.verb == "POST");
            var headers := req.signature.Some? && req.timestamp.Some? && req.nonce.Some?;
            && (phase == Rejected(NotConfigured) <==> p.cmdTokenHash.None?)
            && (phase == Rejected(Unauthorized) <==> p.cmdTokenHash.Some? && !Authenticated(p, req))
            && (phase == Cleared(None) <==> Authenticated(p, req) && !signed)
            && (Authenticated(p, req) && signed ==>
                  && (phase == Rejected(KeyNotLoaded) <==> !p.keyLoaded)
                  && (phase == Rejected(HeadersMissing) <==> p.keyLoaded && !headers)
                  && (p.keyLoaded && headers ==>
                        match p.parseTime(req.timestamp.value)
                        case None => phase == Rejected(BadTimestamp)
                        case Some(ts) =>
                          if -300_000_000_000 <= clock - ts <= 300_000_000_000 then phase == Timely(ts, clock)
                          else phase == Rejected(OutsideWindow)))
  {}

  /** The statuses of the answers. */
  lemma Statuses(r: Refusal)
    ensures Status(r) == 401 <==> r == Unauthorized
    ensures Status(r) == 400 <==> r == BodyUnreadable
    ensures Status(r) == 401 || Status(r) == 400 || Status(r) == 403
  {}

  /** The signature check after the cache: at most 2 MiB of body, 64 bytes of hexadecimal
      signature, and these verify on the five lines. */
  lemma VerifyOutcome(p: Policy, req: Request, section: nat, bodyRead: bool)
    requires HasSignatureHeaders(req)
    ensures var phase := VerifiedPhase(p, req, section, bodyRead);
            var sig := HexDecode(req.signature.value);
            var message := req.verb + "\n" + req.path + "\n" + req.timestamp.value + "\n" + req.nonce.value + "\n"
                           + HexEncode(p.sha256(req.body));
            if !bodyRead || |req.body| > 2097152 then phase == Rejected(BodyUnreadable)
            else if sig == None || |sig.value| != 64 then phase == Rejected(MalformedSignature)
            else phase == if p.verify(message, sig.value) then Cleared(Some(section)) else Rejected(WrongSignature)
  {
    CanonicalText(p, req);
  }

  /** The critical section stores the nonce or refuses it as a duplicate. */
  lemma LockOutcome(p: Policy, s: State, id: nat)
    requires Reachable(p, s) && id in s.flights && s.flights[id].phase.Clocked?
    ensures var t, n := Step(p, s, Lock(id)), |s.sections|;
            && |t.sections| == n + 1
            && t.flights[id].phase == if Admitted(t, n) then NonceStored(n) else Rejected(DuplicateNonce)
  {
    ReachableInv(p, s);
    assert FlightOk(p, s, id);
    LockGrows(s, id);
  }

  lemma CanonicalText(p: Policy, req: Request)
    requires HasSignatureHeaders(req)
    ensures Canonical(p, req) == req.verb + "\n" + req.path + "\n" + req.timestamp.value + "\n" + req.nonce.value
                                 + "\n" + HexEncode(p.sha256(req.body))
  {
    var digest := HexEncode(p.sha256(req.body));
    var a, b, c, d := [req.verb], [req.path], [req.timestamp.value], [req.nonce.value];
    JoinCons(req.verb, [req.path, req.timestamp.value, req.nonce.value, digest]);
    JoinCons(req.path, [req.timestamp.value, req.nonce.value, digest]);
    JoinCons(req.timestamp.value, [req.nonce.value, digest]);
    JoinCons(req.nonce.value, [digest]);
    assert Join([digest], '\n') == digest;
  }

  lemma JoinCons(head: string, tail: seq<string>)
    requires tail != []
    ensures Join([head] + tail, '\n') == head + "\n" + Join(tail, '\n')
  {
    assert ([head] + tail)[1..] == tail;
  }

  /** A request that needs no signature, because they are off or because of its method, is
      forwarded on the token alone and leaves the replay cache untouched. */
  lemma UnsignedForwarded(p: Policy, s: State, id: nat, req: Request)
    requires id !in s.flights && OneLineFields(req)
    requires !p.requireSignatures || (req.verb != "PUT" && req.verb != "POST")
    ensures var t := Run(p, s, [Arrive(id, req), Check(id), Forward(id)]);
            && t.forwarded == s.forwarded + (if Authenticated(p, req) then [id] else [])
            && t.cache == s.cache && t.sections == s.sections
  {
    var labels := [Arrive(id, req), Check(id), Forward(id)];
    var s1 := Step(p, s, labels[0]);
    var s2 := Step(p, s1, labels[1]);
    assert labels[1..][1..] == [labels[2]];
    assert Run(p, s2, [labels[2]]) == Run(p, Step(p, s2, labels[2]), []);
  }

  /** In every run, a forwarded PUT or POST with signatures required has its three headers,
      a section of its own in which its nonce was admitted, was checked within five
      minutes of its timestamp, and carries a signature that verifies on its own five
      lines; and every forwarded request carries the command token. */
  lemma WritesAreSigned(p: Policy, s: State, i: nat)
    requires Reachable(p, s) && i < |s.forwarded|
    ensures s.forwarded[i] in s.flights
    ensures var req := s.flights[s.forwarded[i]].req;
            && (exists token :: Carries(p, req, token))
            && (p.requireSignatures && (req.verb == "PUT" || req.verb == "POST") ==>
                  && req.signature.Some? && req.timestamp.Some? && req.nonce.Some?
                  && (exists k: nat | k < |s.sections| :: SignedIn(p, s, s.forwarded[i], k))
                  && VerifiedLines(p, req))
  {
    ReachableInv(p, s);
    var id := s.forwarded[i];
    var req := s.flights[id].req;
    assert FlightOk(p, s, id);
    AuthenticatedIff(p, req);
    if p.requireSignatures && (req.verb == "PUT" || req.verb == "POST") {
      var k := ForwardSound(p, s, i);
      assert SignedIn(p, s, id, k);
      CanonicalText(p, req);
    }
  }

  /** The k-th section is this request's, and admitted its nonce in time. */
  predicate SignedIn(p: Policy, s: State, id: nat, k: nat)
    requires k < |s.sections| && id in s.flights
  {
    var req, c := s.flights[id].req, s.sections[k];
    && c.id == id && Admitted(s, k) && req.nonce == Some(c.nonce)
    && req.timestamp.Some? && p.parseTime(req.timestamp.value) == Some(c.ts)
    && -300_000_000_000 <= c.checkedAt - c.ts <= 300_000_000_000
  }

  predicate VerifiedLines(p: Policy, req: Request)
    requires req.signature.Some? && req.timestamp.Some? && req.nonce.Some?
  {
    var sig := HexDecode(req.signature.value);
    && |req.body| <= 2097152 && sig.Some? && |sig.value| == 64
    && p.verify(req.verb + "\n" + req.path + "\n" + req.timestamp.value + "\n" + req.nonce.value + "\n"
                + HexEncode(p.sha256(req.body)), sig.value)
  }

  /** And a forwarded request of any other method, or with signatures off, never entered
      the replay cache. */
  lemma OthersHaveNoSection(p: Policy, s: State, i: nat, k: nat)
    requires Reachable(p, s) && i < |s.forwarded| && s.forwarded[i] in s.flights && k < |s.sections|
    requires var req := s.flights[s.forwarded[i]].req;
             !p.requireSignatures || (req.verb != "PUT" && req.verb != "POST")
    ensures s.sections[k].id != s.forwarded[i]
  {
    ReachableInv(p, s);
    assert SectionOk(p, s, k);
  }

  /** Every forwarded write was admitted by the cache in a section of its own, was
      timely, authenticated, and verified on its own canonical message. */
  lemma ForwardSound(p: Policy, s: State, i: nat) returns (k: nat)
    requires Reachable(p, s) && i < |s.forwarded|
    requires s.forwarded[i] in s.flights ==> NeedsSignature(p, s.flights[s.forwarded[i]].req)
    ensures s.forwarded[i] in s.flights
    ensures var req := s.flights[s.forwarded[i]].req;
            && Authenticated(p, req) && OneLineFields(req)
            && k < |s.sections| && s.sections[k].id == s.forwarded[i]
            && TimelyAt(p, req, s.sections[k].ts, s.sections[k].checkedAt)
            && AdmittedPair(s, k, s.sections[k].ts, req.nonce.value)
            && SignatureValid(p, req)
  {
    ReachableInv(p, s);
    var id := s.forwarded[i];
    assert FlightOk(p, s, id);
    k := s.flights[id].phase.section.value;
    assert SectionOk(p, s, k);
  }

  predicate ForwardedMessage(p: Policy, s: State, i: nat, message: string) {
    && i < |s.forwarded| && s.forwarded[i] in s.flights
    && var req := s.flights[s.forwarded[i]].req;
       NeedsSignature(p, req) && HasSignatureHeaders(req) && Canonical(p, req) == message
  }

  /** Two forwards of one signed message stem from two different admissions of one
      (timestamp, nonce) pair. */
  lemma ForwardedSections(p: Policy, s: State, i: nat, j: nat, message: string) returns (k: nat, m: nat)
    requires Reachable(p, s) && i != j
    requires ForwardedMessage(p, s, i, message) && ForwardedMessage(p, s, j, message)
    ensures k < |s.sections| && m < |s.sections| && k != m
    ensures s.sections[k].id == s.forwarded[i] && s.sections[m].id == s.forwarded[j]
    ensures s.forwarded[i] != s.forwarded[j]
    ensures AdmittedPair(s, k, s.sections[k].ts, s.sections[k].nonce)
    ensures AdmittedPair(s, m, s.sections[k].ts, s.sections[k].nonce)
  {
    k := ForwardSound(p, s, i);
    m := ForwardSound(p, s, j);
    CanonicalInjective(p, s.flights[s.forwarded[i]].req, s.flights[s.forwarded[j]].req);
    ReachableInv(p, s);
  }

  lemma SectionOfId(p: Policy, s: State, k: nat, m: nat)
    requires Reachable(p, s) && k < |s.sections| && m < |s.sections|
    requires s.sections[k].id == s.sections[m].id
    ensures k == m
  {
    ReachableInv(p, s);
  }

  ghost predicate LongWait(s: State) {
    exists k: nat | k < |s.sections| :: Delay(s.sections[k]) >= MINUTE
  }

  lemma ThreeAdmissions(p: Policy, s: State, a: nat, b: nat, c: nat, ts: Time, nonce: string)
    requires Reachable(p, s) && a != b && b != c && a != c
    requires AdmittedPair(s, a, ts, nonce) && AdmittedPair(s, b, ts, nonce) && AdmittedPair(s, c, ts, nonce)
    ensures LongWait(s)
  {
    if a < b < c { AtMostTwice(p, s, a, b, c, ts, nonce); }
    else if a < c < b { AtMostTwice(p, s, a, c, b, ts, nonce); }
    else if b < a < c { AtMostTwice(p, s, b, a, c, ts, nonce); }
    else if b < c < a { AtMostTwice(p, s, b, c, a, ts, nonce); }
    else if c < a < b { AtMostTwice(p, s, c, a, b, ts, nonce); }
    else { AtMostTwice(p, s, c, b, a, ts, nonce); }
  }

  /** One process forwards a signed message at most twice while no request waits 60 s or
      longer for the lock ... */
  lemma MessageForwardedAtMostTwice(p: Policy, s: State, i: nat, j: nat, l: nat, message: string)
    requires Reachable(p, s) && i != j && j != l && i != l
    requires ForwardedMessage(p, s, i, message)
    requires ForwardedMessage(p, s, j, message)
    requires ForwardedMessage(p, s, l, message)
    ensures LongWait(s)
  {
    var a, b := ForwardedSections(p, s, i, j, message);
    var a', c := ForwardedSections(p, s, i, l, message);
    SectionOfId(p, s, a, a');
    var b', c' := ForwardedSections(p, s, j, l, message);
    assert b != c;
    ThreeAdmissions(p, s, a, b, c, s.sections[a].ts, s.sections[a].nonce);
  }

  /** ... and a second forward needs a timestamp that was at least 60 s, minus the
      second request's wait, ahead of the clock at the first admission. */
  lemma MessageForwardedAgain(p: Policy, s: State, i: nat, j: nat, message: string)
      returns (first: nat, second: nat)
    requires Reachable(p, s) && i != j
    requires ForwardedMessage(p, s, i, message) && ForwardedMessage(p, s, j, message)
    ensures first < second < |s.sections|
    ensures {s.sections[first].id, s.sections[second].id} == {s.forwarded[i], s.forwarded[j]}
    ensures s.sections[first].ts == s.sections[second].ts
    ensures s.sections[first].ts >= s.sections[first].now + MINUTE - Delay(s.sections[second])
  {
    var k, m := ForwardedSections(p, s, i, j, message);
    first, second := if k < m then k else m, if k < m then m else k;
    ReplayBound(p, s, first, second, s.sections[k].ts, s.sections[k].nonce);
  }

  /** The run forwards this request's message twice, from an admission at reading
      `first` and a later one with at most this delay. */
  predicate ForwardedTwiceIn(p: Policy, s: State, req: Request, first: Time, delay: nat,
      i: nat, j: nat, k: nat, m: nat)
    requires HasSignatureHeaders(req)
  {
    && ForwardedMessage(p, s, i, Canonical(p, req)) && ForwardedMessage(p, s, j, Canonical(p, req))
    && k < m < |s.sections| && s.sections[k].id == s.forwarded[i] && s.sections[m].id == s.forwarded[j]
    && s.sections[k].now == first && Delay(s.sections[m]) <= delay
  }

  ghost predicate ForwardableTwice(p: Policy, req: Request, first: Time, delay: nat)
    requires HasSignatureHeaders(req)
  {
    exists s, i: nat, j: nat, k: nat, m: nat ::
      Reachable(p, s) && ForwardedTwiceIn(p, s, req, first, delay, i, j, k, m)
  }

  lemma ForwardedTwiceBound(p: Policy, s: State, req: Request, ts: Time, first: Time, delay: nat,
      i: nat, j: nat, k: nat, m: nat)
    requires Reachable(p, s) && Stamped(p, req, ts)
    requires ForwardedTwiceIn(p, s, req, first, delay, i, j, k, m)
    ensures ts >= first + MINUTE - delay
  {
    ReachableInv(p, s);
    assert i != j;
    var a, b := ForwardedSections(p, s, i, j, Canonical(p, req));
    SectionOfId(p, s, a, k);
    SectionOfId(p, s, b, m);
    ReplayBound(p, s, k, m, s.sections[k].ts, s.sections[k].nonce);
    assert SectionOk(p, s, k) && FlightOk(p, s, s.forwarded[i]);
    CanonicalInjective(p, s.flights[s.forwarded[i]].req, req);
  }

  /** A process that forwards the request as soon as it has started. */
  lemma ForwardOnce(p: Policy, req: Request, ts: Time, first: Time) returns (s: State)
    requires Presentable(p, req, ts) && SignatureValid(p, req) && -WINDOW <= first - ts <= WINDOW
    ensures Reachable(p, s) && OnceAdmitted(s, req, ts) && s.start == s.clock == first && s.forwarded == [0]
  {
    s := PresentOnce(p, req, ts, first);
    s := Finish(p, s, 0);
  }

  lemma ForwardTwice(p: Policy, req: Request, ts: Time, first: Time, delay: nat) returns (s: State)
    requires Presentable(p, req, ts) && SignatureValid(p, req) && -WINDOW <= first - ts <= WINDOW
    requires ts >= first + MINUTE - delay
    ensures Reachable(p, s) && ForwardedTwiceIn(p, s, req, first, delay, 0, 1, 0, 1)
    ensures s.start == first && s.clock == first + NONCE_TTL && s.forwarded == [0, 1]
    ensures forall k: nat | k < |s.sections| :: Delay(s.sections[k]) <= delay
  {
    s := ForwardOnce(p, req, ts, first);
    s := PresentAgain(p, s, req, ts, delay);
    s := Finish(p, s, 1);
  }

  /** Replay of a valid signed write to one process: it can reach the handlers a second
      time exactly when its timestamp is at least 60 s, minus the allowed delay, ahead of the reading
      at which it was first admitted. */
  lemma ForwardableTwiceIff(p: Policy, req: Request, ts: Time, first: Time, delay: nat)
    requires Presentable(p, req, ts) && SignatureValid(p, req) && -WINDOW <= first - ts <= WINDOW
    ensures ForwardableTwice(p, req, first, delay) <==> ts >= first + MINUTE - delay
  {
    if ForwardableTwice(p, req, first, delay) {
      var s, i: nat, j: nat, k: nat, m: nat :|
        Reachable(p, s) && ForwardedTwiceIn(p, s, req, first, delay, i, j, k, m);
      ForwardedTwiceBound(p, s, req, ts, first, delay, i, j, k, m);
    }
    if ts >= first + MINUTE - delay {
      var s := ForwardTwice(p, req, ts, first, delay);
    }
  }
}
