/** The signed-command gate as a state machine: any number of requests in flight,
    each going through its own steps, interleaved with clock ticks.  A run is any
    sequence of labels; a label that is not enabled changes nothing. */
module CmdAuth {
  import opened Prelude
  import opened NonceCache
  import opened Text
  import opened Token

  const WINDOW: Time := 5 * MINUTE
  const MAX_BODY := 2 * 1024 * 1024
  const SIGNATURE_BYTES := 64

  /** The node's configuration, and the library functions the gate calls. */
  datatype Policy = Policy(
    cmdTokenHash: Option<string>,
    requireSignatures: bool,
    keyLoaded: bool,
    hashToken: string -> string,
    parseTime: string -> Option<Time>,
    sha256: seq<Byte> -> seq<Byte>,
    verify: (string, seq<Byte>) -> bool)

  datatype Request = Request(
    authorization: Option<string>,
    verb: string,
    path: string,
    signature: Option<string>,
    timestamp: Option<string>,
    nonce: Option<string>,
    body: seq<Byte>)

  // ----- the two gates, up to the replay cache -----

  predicate Authenticated(p: Policy, req: Request) {
    && p.cmdTokenHash.Some? && req.authorization.Some?
    && "Bearer " <= req.authorization.value
    && var token := req.authorization.value[7..];
       ValidateCmdTokenFormat(token) && p.hashToken(token) == p.cmdTokenHash.value
  }

  predicate NeedsSignature(p: Policy, req: Request) {
    (req.verb == "PUT" || req.verb == "POST") && p.requireSignatures
  }

  predicate HasSignatureHeaders(req: Request) {
    req.signature.Some? && req.timestamp.Some? && req.nonce.Some?
  }

  /** The request carries this timestamp, and it is at most the window away from
      the clock reading, in either direction. */
  predicate TimelyAt(p: Policy, req: Request, ts: Time, clock: Time) {
    && HasSignatureHeaders(req)
    && p.parseTime(req.timestamp.value) == Some(ts)
    && -WINDOW <= clock - ts <= WINDOW
  }

  // ----- the signed message -----

  function Canonical(p: Policy, req: Request): string
    requires HasSignatureHeaders(req)
  {
    Join([req.verb, req.path, req.timestamp.value, req.nonce.value, HexEncode(p.sha256(req.body))], '\n')
  }

  predicate WellFormedSignature(req: Request)
    requires req.signature.Some?
  {
    var sig := HexDecode(req.signature.value);
    sig.Some? && |sig.value| == SIGNATURE_BYTES
  }

  predicate SignatureValid(p: Policy, req: Request)
    requires HasSignatureHeaders(req)
  {
    && |req.body| <= MAX_BODY && WellFormedSignature(req)
    && p.verify(Canonical(p, req), HexDecode(req.signature.value).value)
  }

  /** What an HTTP parser delivers: no line break in the method, the path or a
      header value (section 5.5 of RFC 9110). */
  predicate OneLineFields(req: Request) {
    && '\n' !in req.verb && '\n' !in req.path
    && (req.timestamp.Some? ==> '\n' !in req.timestamp.value)
    && (req.nonce.Some? ==> '\n' !in req.nonce.value)
  }

  /** The five-line message fixes every field that was signed. */
  lemma CanonicalInjective(p: Policy, a: Request, b: Request)
    requires HasSignatureHeaders(a) && HasSignatureHeaders(b)
    requires OneLineFields(a) && OneLineFields(b)
    requires Canonical(p, a) == Canonical(p, b)
    ensures a.verb == b.verb && a.path == b.path
    ensures a.timestamp == b.timestamp && a.nonce == b.nonce
    ensures p.sha256(a.body) == p.sha256(b.body)
  {
    var digestA, digestB := HexEncode(p.sha256(a.body)), HexEncode(p.sha256(b.body));
    assert '\n' !in HEX_DIGITS;
    assert '\n' !in digestA && '\n' !in digestB;
    var fieldsA := [a.verb, a.path, a.timestamp.value, a.nonce.value, digestA];
    var fieldsB := [b.verb, b.path, b.timestamp.value, b.nonce.value, digestB];
    SplitJoin(fieldsA, '\n');
    SplitJoin(fieldsB, '\n');
    assert fieldsA == fieldsB;
    assert digestA == fieldsA[4] == fieldsB[4] == digestB;
    HexInjective(p.sha256(a.body), p.sha256(b.body));
  }

  // ----- the machine -----

  /** Why a request is refused; each has its own answer. */
  datatype Refusal =
    | NotConfigured | Unauthorized
    | KeyNotLoaded | HeadersMissing | BadTimestamp | OutsideWindow | DuplicateNonce
    | BodyUnreadable | MalformedSignature | WrongSignature

  function Status(r: Refusal): nat {
    match r
    case Unauthorized => 401
    case BodyUnreadable => 400
    case _ => 403
  }

  datatype Phase =
    | Arrived
    | Timely(ts: Time, checkedAt: Time)
    | Clocked(ts: Time, checkedAt: Time, now: Time)
    | NonceStored(stored: nat)
    | Cleared(section: Option<nat>)
    | Forwarded(section: Option<nat>)
    | Rejected(reason: Refusal)

  datatype Flight = Flight(req: Request, phase: Phase)

  /** One pass through the critical section of the replay cache. */
  datatype Section = Section(id: nat, ts: Time, nonce: string, checkedAt: Time, now: Time, lockedAt: Time)

  /** `start` is when this process started; its cache begins empty. */
  datatype State = State(
    start: Time,
    clock: Time,
    cache: map<string, Time>,
    flights: map<nat, Flight>,
    sections: seq<Section>,
    forwarded: seq<nat>)

  datatype Label =
    | Tick(d: nat)
    | Arrive(id: nat, req: Request)
    | Check(id: nat)
    | ReadNow(id: nat)
    | Lock(id: nat)
    | Verify(id: nat, bodyRead: bool)
    | Forward(id: nat)

  function Init(clock: Time): State {
    State(clock, clock, map[], map[], [], [])
  }

  function CheckedPhase(p: Policy, req: Request, clock: Time): Phase {
    if p.cmdTokenHash.None? then Rejected(NotConfigured)
    else if !Authenticated(p, req) then Rejected(Unauthorized)
    else if !NeedsSignature(p, req) then Cleared(None)
    else if !p.keyLoaded then Rejected(KeyNotLoaded)
    else if !HasSignatureHeaders(req) then Rejected(HeadersMissing)
    else
      match p.parseTime(req.timestamp.value)
      case None => Rejected(BadTimestamp)
      case Some(ts) => if TimelyAt(p, req, ts, clock) then Timely(ts, clock) else Rejected(OutsideWindow)
  }

  function VerifiedPhase(p: Policy, req: Request, section: nat, bodyRead: bool): Phase
    requires HasSignatureHeaders(req)
  {
    if !bodyRead || |req.body| > MAX_BODY then Rejected(BodyUnreadable)
    else if !WellFormedSignature(req) then Rejected(MalformedSignature)
    else if !SignatureValid(p, req) then Rejected(WrongSignature)
    else Cleared(Some(section))
  }

  function SetPhase(s: State, id: nat, phase: Phase): State
    requires id in s.flights
  {
    s.(flights := s.flights[id := s.flights[id].(phase := phase)])
  }

  function LockSection(s: State, id: nat): State
    requires id in s.flights && s.flights[id].phase.Clocked? && s.flights[id].req.nonce.Some?
  {
    var Flight(req, phase) := s.flights[id];
    var attempt := Attempt(req.nonce.value, phase.now);
    var section := Section(id, phase.ts, attempt.nonce, phase.checkedAt, phase.now, s.clock);
    var next := if Admits(s.cache, attempt) then NonceStored(|s.sections|) else Rejected(DuplicateNonce);
    SetPhase(s, id, next).(cache := Cleaned(s.cache, attempt), sections := s.sections + [section])
  }

  function Step(p: Policy, s: State, l: Label): State {
    match l
    case Tick(d) => s.(clock := s.clock + d)
    case Arrive(id, req) =>
      if id in s.flights || !OneLineFields(req) then s
      else s.(flights := s.flights[id := Flight(req, Arrived)])
    case Check(id) =>
      if id in s.flights && s.flights[id].phase.Arrived?
      then SetPhase(s, id, CheckedPhase(p, s.flights[id].req, s.clock))
      else s
    case ReadNow(id) =>
      if id in s.flights && s.flights[id].phase.Timely?
      then SetPhase(s, id, Clocked(s.flights[id].phase.ts, s.flights[id].phase.checkedAt, s.clock))
      else s
    case Lock(id) =>
      if id in s.flights && s.flights[id].phase.Clocked? && s.flights[id].req.nonce.Some?
      then LockSection(s, id)
      else s
    case Verify(id, bodyRead) =>
      if id in s.flights && s.flights[id].phase.NonceStored? && HasSignatureHeaders(s.flights[id].req)
      then SetPhase(s, id, VerifiedPhase(p, s.flights[id].req, s.flights[id].phase.stored, bodyRead))
      else s
    case Forward(id) =>
      if id in s.flights && s.flights[id].phase.Cleared?
      then SetPhase(s, id, Forwarded(s.flights[id].phase.section)).(forwarded := s.forwarded + [id])
      else s
  }

  function Run(p: Policy, s: State, labels: seq<Label>): State
    decreases |labels|
  {
    if labels == [] then s else Run(p, Step(p, s, labels[0]), labels[1..])
  }

  // ----- the invariant of every run -----

  function Attempts(sections: seq<Section>): (log: seq<Attempt>)
    ensures |log| == |sections|
    ensures forall k | 0 <= k < |log| :: log[k] == Attempt(sections[k].nonce, sections[k].now)
  {
    seq(|sections|, k requires 0 <= k < |sections| => Attempt(sections[k].nonce, sections[k].now))
  }

  predicate Admitted(s: State, k: nat)
    requires k < |s.sections|
  {
    AdmittedAt(Attempts(s.sections), k)
  }

  /** A section was entered by a timely, authenticated, signed write, with its
      clock readings in order. */
  predicate SectionOk(p: Policy, s: State, k: nat)
    requires k < |s.sections|
  {
    var c := s.sections[k];
    && c.id in s.flights
    && var req := s.flights[c.id].req;
    && Authenticated(p, req) && NeedsSignature(p, req)
    && TimelyAt(p, req, c.ts, c.checkedAt)
    && req.nonce == Some(c.nonce)
    && s.start <= c.checkedAt <= c.now <= c.lockedAt <= s.clock
  }

  predicate NoSection(s: State, id: nat) {
    forall k | 0 <= k < |s.sections| :: s.sections[k].id != id
  }

  predicate OwnsSection(s: State, id: nat, k: nat) {
    k < |s.sections| && s.sections[k].id == id && Admitted(s, k)
  }

  predicate MayProceed(p: Policy, s: State, id: nat, section: Option<nat>)
    requires id in s.flights
  {
    var req := s.flights[id].req;
    && Authenticated(p, req)
    && (if NeedsSignature(p, req)
        then section.Some? && OwnsSection(s, id, section.value)
             && HasSignatureHeaders(req) && SignatureValid(p, req)
        else section == None)
  }

  predicate FlightOk(p: Policy, s: State, id: nat)
    requires id in s.flights
  {
    var Flight(req, phase) := s.flights[id];
    && OneLineFields(req)
    && match phase
       case Arrived => NoSection(s, id)
       case Timely(ts, checkedAt) =>
         && NoSection(s, id) && Authenticated(p, req) && NeedsSignature(p, req)
         && TimelyAt(p, req, ts, checkedAt) && s.start <= checkedAt <= s.clock
       case Clocked(ts, checkedAt, now) =>
         && NoSection(s, id) && Authenticated(p, req) && NeedsSignature(p, req)
         && TimelyAt(p, req, ts, checkedAt) && s.start <= checkedAt <= now <= s.clock
       case NonceStored(k) =>
         OwnsSection(s, id, k) && Authenticated(p, req) && NeedsSignature(p, req)
       case Cleared(section) => MayProceed(p, s, id, section)
       case Forwarded(section) => MayProceed(p, s, id, section)
       case Rejected(_) => true
  }

  ghost predicate SectionsOk(p: Policy, s: State) {
    && (forall k: nat | k < |s.sections| :: SectionOk(p, s, k))
    && (forall i, k | 0 <= i < k < |s.sections| :: s.sections[i].lockedAt <= s.sections[k].lockedAt)
    && (forall i, k | 0 <= i < k < |s.sections| :: s.sections[i].id != s.sections[k].id)
  }

  ghost predicate ForwardedOk(s: State) {
    && (forall i | 0 <= i < |s.forwarded| ::
          s.forwarded[i] in s.flights && s.flights[s.forwarded[i]].phase.Forwarded?)
    && (forall i, j | 0 <= i < j < |s.forwarded| :: s.forwarded[i] != s.forwarded[j])
  }

  ghost predicate Inv(p: Policy, s: State) {
    && s.start <= s.clock
    && s.cache == EntriesAfter(Attempts(s.sections), |s.sections|)
    && SectionsOk(p, s)
    && (forall id | id in s.flights :: FlightOk(p, s, id))
    && ForwardedOk(s)
  }

  /** Time passes, sections are only appended, and requests never change. */
  ghost predicate Grows(s: State, t: State) {
    && s.start == t.start && s.clock <= t.clock && s.sections <= t.sections
    && (forall k: nat | k < |s.sections| :: Admitted(t, k) == Admitted(s, k))
    && (forall id | id in s.flights :: id in t.flights && t.flights[id].req == s.flights[id].req)
  }

  lemma FlightKept(p: Policy, s: State, t: State, id: nat)
    requires Grows(s, t) && id in s.flights && t.flights[id] == s.flights[id] && FlightOk(p, s, id)
    requires NoSection(s, id) ==> NoSection(t, id)
    ensures FlightOk(p, t, id)
  {}

  lemma SectionKept(p: Policy, s: State, t: State, k: nat)
    requires Grows(s, t) && k < |s.sections| && SectionOk(p, s, k)
    ensures SectionOk(p, t, k)
  {}

  lemma SameSectionsKept(p: Policy, s: State, t: State)
    requires Inv(p, s) && Grows(s, t) && t.sections == s.sections && t.cache == s.cache
    ensures t.cache == EntriesAfter(Attempts(t.sections), |t.sections|) && SectionsOk(p, t)
  {
    forall k: nat | k < |t.sections|
      ensures SectionOk(p, t, k)
    {
      SectionKept(p, s, t, k);
    }
  }

  lemma ArriveKeepsInv(p: Policy, s: State, id: nat, req: Request)
    requires Inv(p, s) && id !in s.flights && OneLineFields(req)
    ensures Inv(p, s.(flights := s.flights[id := Flight(req, Arrived)]))
  {
    var t := s.(flights := s.flights[id := Flight(req, Arrived)]);
    SameSectionsKept(p, s, t);
    forall k | 0 <= k < |t.sections|
      ensures t.sections[k].id != id
    {
      assert SectionOk(p, s, k);
    }
    assert NoSection(t, id);
    forall other | other in t.flights
      ensures FlightOk(p, t, other)
    {
      if other != id {
        FlightKept(p, s, t, other);
      }
    }
  }

  /** One request moves on; nobody else notices. */
  lemma PhaseKeepsInv(p: Policy, s: State, id: nat, phase: Phase)
    requires Inv(p, s) && id in s.flights && !s.flights[id].phase.Forwarded?
    requires FlightOk(p, SetPhase(s, id, phase), id)
    ensures Inv(p, SetPhase(s, id, phase))
  {
    var t := SetPhase(s, id, phase);
    SameSectionsKept(p, s, t);
    forall other | other in t.flights
      ensures FlightOk(p, t, other)
    {
      if other != id {
        FlightKept(p, s, t, other);
      }
    }
  }

  lemma TickKeepsInv(p: Policy, s: State, d: nat)
    requires Inv(p, s)
    ensures Inv(p, s.(clock := s.clock + d))
  {
    var t := s.(clock := s.clock + d);
    SameSectionsKept(p, s, t);
    forall id | id in t.flights
      ensures FlightOk(p, t, id)
    {
      FlightKept(p, s, t, id);
    }
  }

  lemma LockGrows(s: State, id: nat)
    requires id in s.flights && s.flights[id].phase.Clocked? && s.flights[id].req.nonce.Some?
    ensures Grows(s, LockSection(s, id))
    ensures s.cache == EntriesAfter(Attempts(s.sections), |s.sections|) ==>
              var t := LockSection(s, id);
              && t.cache == EntriesAfter(Attempts(t.sections), |t.sections|)
              && Admitted(t, |s.sections|) == Admits(s.cache, Attempts(t.sections)[|s.sections|])
  {
    var t := LockSection(s, id);
    var n := |s.sections|;
    var log, longer := Attempts(s.sections), Attempts(t.sections);
    assert longer == log + [longer[n]];
    forall k: nat | k <= n
      ensures EntriesAfter(longer, k) == EntriesAfter(log, k)
      ensures k < n ==> Admitted(t, k) == Admitted(s, k)
    {
      PrefixStable(log, [longer[n]], k);
    }
  }

  lemma LockKeepsSections(p: Policy, s: State, id: nat)
    requires Inv(p, s)
    requires id in s.flights && s.flights[id].phase.Clocked? && s.flights[id].req.nonce.Some?
    ensures SectionsOk(p, LockSection(s, id))
  {
    var t := LockSection(s, id);
    LockGrows(s, id);
    assert FlightOk(p, s, id);
    forall k: nat | k < |t.sections|
      ensures SectionOk(p, t, k)
    {
      if k < |s.sections| {
        SectionKept(p, s, t, k);
      }
    }
    forall i, k | 0 <= i < k < |t.sections|
      ensures t.sections[i].lockedAt <= t.sections[k].lockedAt
      ensures t.sections[i].id != t.sections[k].id
    {
      assert SectionOk(p, s, i);
    }
  }

  lemma LockKeepsInv(p: Policy, s: State, id: nat)
    requires Inv(p, s)
    requires id in s.flights && s.flights[id].phase.Clocked? && s.flights[id].req.nonce.Some?
    ensures Inv(p, LockSection(s, id))
  {
    var t := LockSection(s, id);
    LockGrows(s, id);
    LockKeepsSections(p, s, id);
    assert FlightOk(p, s, id);
    forall other | other in t.flights
      ensures FlightOk(p, t, other)
    {
      if other != id {
        FlightKept(p, s, t, other);
      }
    }
  }

  lemma StepKeepsInv(p: Policy, s: State, l: Label)
    requires Inv(p, s)
    ensures Inv(p, Step(p, s, l))
  {
    if Step(p, s, l) != s {
      match l {
        case Tick(d) => TickKeepsInv(p, s, d);
        case Arrive(id, req) => ArriveKeepsInv(p, s, id, req);
        case Lock(id) => LockKeepsInv(p, s, id);
        case Check(id) => CheckKeepsInv(p, s, id);
        case ReadNow(id) => ReadKeepsInv(p, s, id);
        case Verify(id, bodyRead) => VerifyKeepsInv(p, s, id, bodyRead);
        case Forward(id) => ForwardKeepsInv(p, s, id);
      }
    }
  }

  lemma ReadKeepsInv(p: Policy, s: State, id: nat)
    requires Inv(p, s) && id in s.flights && s.flights[id].phase.Timely?
    ensures Inv(p, Step(p, s, ReadNow(id)))
  {
    assert FlightOk(p, s, id);
    var phase := s.flights[id].phase;
    PhaseKeepsInv(p, s, id, Clocked(phase.ts, phase.checkedAt, s.clock));
  }

  lemma CheckKeepsInv(p: Policy, s: State, id: nat)
    requires Inv(p, s) && id in s.flights && s.flights[id].phase.Arrived?
    ensures Inv(p, SetPhase(s, id, CheckedPhase(p, s.flights[id].req, s.clock)))
  {
    assert FlightOk(p, s, id);
    PhaseKeepsInv(p, s, id, CheckedPhase(p, s.flights[id].req, s.clock));
  }

  lemma VerifyKeepsInv(p: Policy, s: State, id: nat, bodyRead: bool)
    requires Inv(p, s) && id in s.flights && s.flights[id].phase.NonceStored?
    requires HasSignatureHeaders(s.flights[id].req)
    ensures Inv(p, SetPhase(s, id, VerifiedPhase(p, s.flights[id].req, s.flights[id].phase.stored, bodyRead)))
  {
    assert FlightOk(p, s, id);
    PhaseKeepsInv(p, s, id, VerifiedPhase(p, s.flights[id].req, s.flights[id].phase.stored, bodyRead));
  }

  lemma ForwardKeepsInv(p: Policy, s: State, id: nat)
    requires Inv(p, s) && id in s.flights && s.flights[id].phase.Cleared?
    ensures Inv(p, Step(p, s, Forward(id)))
  {
    assert FlightOk(p, s, id);
    var next := Forwarded(s.flights[id].phase.section);
    PhaseKeepsInv(p, s, id, next);
    ListedKeepsInv(p, SetPhase(s, id, next), id);
  }

  lemma ListedKeepsInv(p: Policy, s: State, id: nat)
    requires Inv(p, s) && id in s.flights && s.flights[id].phase.Forwarded? && id !in s.forwarded
    ensures Inv(p, s.(forwarded := s.forwarded + [id]))
  {
    var t := s.(forwarded := s.forwarded + [id]);
    SameSectionsKept(p, s, t);
    forall other | other in t.flights
      ensures FlightOk(p, t, other)
    {
      FlightKept(p, s, t, other);
    }
  }

  lemma {:induction false} RunKeepsInv(p: Policy, s: State, labels: seq<Label>)
    requires Inv(p, s)
    ensures Inv(p, Run(p, s, labels))
    decreases |labels|
  {
    if labels != [] {
      StepKeepsInv(p, s, labels[0]);
      RunKeepsInv(p, Step(p, s, labels[0]), labels[1..]);
    }
  }
}
