/** The version comparison that decides whether an upgrade is offered. */
module Version {
  import opened Prelude
  import opened Text

  const U32_BOUND: nat := 0x1_0000_0000

  datatype Triple = Triple(major: nat, minor: nat, patch: nat)

  predicate Greater(a: Triple, b: Triple) {
    || a.major > b.major
    || (a.major == b.major && (a.minor > b.minor || (a.minor == b.minor && a.patch > b.patch)))
  }

  function TrimStartV(s: string): string {
    if s != "" && s[0] == 'v' then TrimStartV(s[1..]) else s
  }

  /** The pieces that parse as u32; the others are dropped. */
  function Numbers(pieces: seq<string>): seq<nat> {
    if pieces == [] then []
    else
      match ParseUnsigned(pieces[0], U32_BOUND)
      case Some(n) => [n] + Numbers(pieces[1..])
      case None => Numbers(pieces[1..])
  }

  function Parse(version: string): Triple {
    var parts := Numbers(Split(TrimStartV(version), '.'));
    Triple(if |parts| > 0 then parts[0] else 0,
           if |parts| > 1 then parts[1] else 0,
           if |parts| > 2 then parts[2] else 0)
  }

  predicate VersionNewer(latest: string, current: string) {
    Greater(Parse(latest), Parse(current))
  }

  /** A strict weak order on all strings. */
  lemma StrictWeakOrder(a: string, b: string, c: string)
    ensures !VersionNewer(a, a)
    ensures VersionNewer(a, b) && VersionNewer(b, c) ==> VersionNewer(a, c)
    ensures VersionNewer(a, b) ==> VersionNewer(a, c) || VersionNewer(c, b)
  {}

  // ----- printed versions -----

  predicate Valid(t: Triple) {
    t.major < U32_BOUND && t.minor < U32_BOUND && t.patch < U32_BOUND
  }

  function PrintTriple(t: Triple): string {
    Print(t.major) + "." + Print(t.minor) + "." + Print(t.patch)
  }

  lemma DigitsOnly(n: nat)
    ensures '.' !in Print(n) && '-' !in Print(n) && Print(n)[0] != 'v'
  {}

  lemma NumbersCons(piece: string, rest: seq<string>)
    ensures Numbers([piece] + rest) ==
            match ParseUnsigned(piece, U32_BOUND)
            case Some(n) => [n] + Numbers(rest)
            case None => Numbers(rest)
  {}

  /** Three dot-separated fields whose first two are printed numbers. */
  lemma SplitThree(major: nat, minor: nat, third: string)
    ensures Split(Print(major) + "." + Print(minor) + "." + third, '.') ==
            [Print(major), Print(minor)] + Split(third, '.')
  {
    var a, b := Print(major), Print(minor);
    DigitsOnly(major);
    DigitsOnly(minor);
    SplitFree(a, '.');
    SplitFree(b, '.');
    SplitAppend(a, b, '.');
    SplitAppend(a + "." + b, third, '.');
  }

  lemma NumbersThree(major: nat, minor: nat, rest: seq<string>)
    requires major < U32_BOUND && minor < U32_BOUND
    ensures Numbers([Print(major), Print(minor)] + rest) == [major, minor] + Numbers(rest)
  {
    ParsePrint(major, U32_BOUND);
    ParsePrint(minor, U32_BOUND);
    var pieces, tail := [Print(major), Print(minor)] + rest, [Print(minor)] + rest;
    assert tail[1..] == rest;
    assert Numbers(tail) == [minor] + Numbers(rest);
    assert pieces[1..] == tail;
    assert Numbers(pieces) == [major] + Numbers(tail);
  }

  lemma ParsePrinted(t: Triple)
    requires Valid(t)
    ensures Parse(PrintTriple(t)) == t
    ensures Parse("v" + PrintTriple(t)) == t
  {
    var s := PrintTriple(t);
    DigitsOnly(t.major);
    DigitsOnly(t.patch);
    SplitThree(t.major, t.minor, Print(t.patch));
    SplitFree(Print(t.patch), '.');
    ParsePrint(t.patch, U32_BOUND);
    NumbersThree(t.major, t.minor, [Print(t.patch)]);
    assert Numbers([Print(t.patch)]) == [t.patch];
    assert s[0] == Print(t.major)[0];
    assert ("v" + s)[1..] == s;
  }

  lemma {:induction false} TrimVs(vs: string, s: string)
    requires (forall c | c in vs :: c == 'v') && (s == "" || s[0] != 'v')
    ensures TrimStartV(vs + s) == s
  {
    if vs != "" {
      assert vs[0] in vs && (vs + s)[1..] == vs[1..] + s;
      assert forall c | c in vs[1..] :: c in vs;
      TrimVs(vs[1..], s);
    } else {
      assert vs + s == s;
    }
  }

  function PrintAll(numbers: seq<nat>): seq<string> {
    if numbers == [] then [] else [Print(numbers[0])] + PrintAll(numbers[1..])
  }

  /** The numbers that fit 32 bits; the others are dropped. */
  function Fitting(numbers: seq<nat>): seq<nat> {
    if numbers == [] then []
    else if numbers[0] < 4294967296 then [numbers[0]] + Fitting(numbers[1..]) else Fitting(numbers[1..])
  }

  lemma {:induction false} NumbersFitting(numbers: seq<nat>)
    ensures Numbers(PrintAll(numbers)) == Fitting(numbers)
    ensures |PrintAll(numbers)| == |numbers| && forall piece | piece in PrintAll(numbers) :: '.' !in piece
  {
    if numbers != [] {
      ParsePrint(numbers[0], U32_BOUND);
      DigitsOnly(numbers[0]);
      NumbersFitting(numbers[1..]);
      NumbersCons(Print(numbers[0]), PrintAll(numbers[1..]));
    }
  }

  /** Any number of leading v, and any number of numbers: the first three that fit count,
      and missing ones are zero. */
  lemma ParseNumbers(vs: string, numbers: seq<nat>)
    requires (forall c | c in vs :: c == 'v') && numbers != []
    ensures var t, fit := Parse(vs + Join(PrintAll(numbers), '.')), Fitting(numbers);
            && t.major == (if |fit| > 0 then fit[0] else 0)
            && t.minor == (if |fit| > 1 then fit[1] else 0)
            && t.patch == (if |fit| > 2 then fit[2] else 0)
  {
    var pieces := PrintAll(numbers);
    var text := Join(pieces, '.');
    NumbersFitting(numbers);
    SplitJoin(pieces, '.');
    DigitsOnly(numbers[0]);
    assert pieces[0] == Print(numbers[0]) && text[0] == pieces[0][0];
    TrimVs(vs, text);
  }

  function PrintRelease(t: Triple, prefixed: bool): string {
    if prefixed then "v" + PrintTriple(t) else PrintTriple(t)
  }

  /** On printed releases, with or without the leading v, the comparison is the
      precedence of Semantic Versioning 2.0.0, section 11. */
  lemma AgreesOnReleases(a: Triple, b: Triple, va: bool, vb: bool)
    requires Valid(a) && Valid(b)
    ensures VersionNewer(PrintRelease(a, va), PrintRelease(b, vb)) <==> Greater(a, b)
  {
    ParsePrinted(a);
    ParsePrinted(b);
  }

  // ----- precedence, section 11 of Semantic Versioning 2.0.0 -----

  /** An identifier of a pre-release: a number, or text that is not one. */
  datatype Identifier = Numeric(n: nat) | Alphanumeric(s: string)

  /** A release has no pre-release identifiers. */
  datatype SemVer = SemVer(core: Triple, pre: seq<Identifier>)

  predicate ValidIdentifier(id: Identifier) {
    id.Alphanumeric? ==>
      && (forall c | c in id.s :: IsDigit(c) || 'a' <= c <= 'z' || 'A' <= c <= 'Z' || c == '-')
      && (exists c | c in id.s :: !IsDigit(c))
  }

  predicate ValidVersion(v: SemVer) {
    Valid(v.core) && forall id | id in v.pre :: ValidIdentifier(id)
  }

  /** Lexical order in ASCII. */
  predicate TextAbove(a: string, b: string) {
    a != "" && (b == "" || a[0] > b[0] || (a[0] == b[0] && TextAbove(a[1..], b[1..])))
  }

  /** Numbers by value, text lexically, text above numbers. */
  predicate IdentifierAbove(a: Identifier, b: Identifier) {
    match (a, b)
    case (Numeric(m), Numeric(n)) => m > n
    case (Alphanumeric(s), Alphanumeric(t)) => TextAbove(s, t)
    case _ => a.Alphanumeric?
  }

  /** The first difference decides; if there is none, the longer list is above. */
  predicate PreAbove(a: seq<Identifier>, b: seq<Identifier>) {
    a != [] && (b == [] || IdentifierAbove(a[0], b[0]) || (a[0] == b[0] && PreAbove(a[1..], b[1..])))
  }

  predicate Higher(u: SemVer, v: SemVer) {
    || Greater(u.core, v.core)
    || (u.core == v.core && v.pre != [] && (u.pre == [] || PreAbove(u.pre, v.pre)))
  }

  lemma {:induction false} TextOrder(a: string, b: string, c: string)
    ensures !TextAbove(a, a)
    ensures TextAbove(a, b) && TextAbove(b, c) ==> TextAbove(a, c)
    ensures a == b || TextAbove(a, b) || TextAbove(b, a)
  {
    if a != "" && b != "" {
      TextOrder(a[1..], b[1..], if c == "" then "" else c[1..]);
      assert a == [a[0]] + a[1..] && b == [b[0]] + b[1..];
    } else if a != "" {
      TextOrder(a[1..], "", "");
    }
  }

  lemma IdentifierOrder(a: Identifier, b: Identifier, c: Identifier)
    ensures !IdentifierAbove(a, a)
    ensures IdentifierAbove(a, b) && IdentifierAbove(b, c) ==> IdentifierAbove(a, c)
    ensures a == b || IdentifierAbove(a, b) || IdentifierAbove(b, a)
  {
    TextOrder(if a.Alphanumeric? then a.s else "", if b.Alphanumeric? then b.s else "",
              if c.Alphanumeric? then c.s else "");
  }

  lemma {:induction false} PreOrder(a: seq<Identifier>, b: seq<Identifier>, c: seq<Identifier>)
    ensures !PreAbove(a, a)
    ensures PreAbove(a, b) && PreAbove(b, c) ==> PreAbove(a, c)
    ensures a == b || PreAbove(a, b) || PreAbove(b, a)
  {
    if a != [] && b != [] {
      PreOrder(a[1..], b[1..], if c == [] then [] else c[1..]);
      IdentifierOrder(a[0], b[0], if c == [] then a[0] else c[0]);
      assert a == [a[0]] + a[1..] && b == [b[0]] + b[1..];
    } else if a != [] {
      PreOrder(a[1..], [], []);
      IdentifierOrder(a[0], a[0], a[0]);
    }
  }

  /** Precedence is a strict total order: any two different versions are ranked. */
  lemma PrecedenceOrder(u: SemVer, v: SemVer, w: SemVer)
    ensures !Higher(u, u)
    ensures Higher(u, v) && Higher(v, w) ==> Higher(u, w)
    ensures u == v || Higher(u, v) || Higher(v, u)
  {
    PreOrder(u.pre, v.pre, w.pre);
    PreOrder(u.pre, u.pre, u.pre);
  }

  // ----- printed versions with pre-releases -----

  function PrintIdentifiers(ids: seq<Identifier>): seq<string> {
    if ids == [] then []
    else [if ids[0].Numeric? then Print(ids[0].n) else ids[0].s] + PrintIdentifiers(ids[1..])
  }

  function PrintPlain(v: SemVer): string {
    if v.pre == [] then PrintTriple(v.core)
    else PrintTriple(v.core) + "-" + Join(PrintIdentifiers(v.pre), '.')
  }

  function PrintVersion(v: SemVer, prefixed: bool): string {
    if prefixed then "v" + PrintPlain(v) else PrintPlain(v)
  }

  predicate SmallNumber(id: Identifier) {
    id.Numeric? && id.n < U32_BOUND
  }

  /** The first number below 2^32 among these identifiers. */
  function FirstNumber(ids: seq<Identifier>): nat {
    if ids == [] then 0
    else if SmallNumber(ids[0]) then ids[0].n
    else FirstNumber(ids[1..])
  }

  /** What the comparison takes for the patch level: of a pre-release, the first number
      after its first identifier. */
  function TakenForPatch(v: SemVer): nat {
    if v.pre == [] then v.core.patch else FirstNumber(v.pre[1..])
  }

  lemma {:induction false} NumbersFirst(ids: seq<Identifier>)
    requires forall id | id in ids :: ValidIdentifier(id)
    ensures var numbers := Numbers(PrintIdentifiers(ids));
            FirstNumber(ids) == if numbers == [] then 0 else numbers[0]
  {
    if ids != [] {
      NumbersFirst(ids[1..]);
      assert ids[0] in ids;
      if ids[0].Numeric? {
        ParsePrint(ids[0].n, U32_BOUND);
      } else {
        TextIsNoNumber(ids[0].s);
      }
      NumbersCons(PrintIdentifiers(ids)[0], PrintIdentifiers(ids[1..]));
    }
  }

  lemma TextIsNoNumber(s: string)
    requires ValidIdentifier(Alphanumeric(s))
    ensures ParseUnsigned(s, U32_BOUND) == None
  {
    assert s != "" ==> s[0] in s;
  }

  lemma {:induction false} IdentifiersDotFree(ids: seq<Identifier>)
    requires forall id | id in ids :: ValidIdentifier(id)
    ensures |PrintIdentifiers(ids)| == |ids|
    ensures forall piece | piece in PrintIdentifiers(ids) :: '.' !in piece
  {
    if ids != [] {
      assert ids[0] in ids;
      IdentifiersDotFree(ids[1..]);
    }
  }

  lemma MixedPieceDropped(n: nat, id: string)
    ensures ParseUnsigned(Print(n) + "-" + id, U32_BOUND) == None
  {
    var s := Print(n) + "-" + id;
    assert Print(n)[0] in Print(n);
    assert s[|Print(n)|] == '-' && '-' in s && !IsDigit('-');
  }

  lemma Regroup(a: string, b: string, c: string)
    ensures a + b + c == a + (b + c)
  {}

  lemma SplitHead(head: string, pieces: seq<string>)
    requires '.' !in head && pieces != [] && forall piece | piece in pieces :: '.' !in piece
    ensures Split(head + Join(pieces, '.'), '.') == [head + pieces[0]] + pieces[1..]
  {
    var rest := pieces[1..];
    assert pieces[0] in pieces;
    SplitFree(head + pieces[0], '.');
    if rest != [] {
      SplitJoin(rest, '.');
      SplitAppend(head + pieces[0], Join(rest, '.'), '.');
      Regroup(pieces[0], ".", Join(rest, '.'));
      Regroup(head, pieces[0], "." + Join(rest, '.'));
      Regroup(head + pieces[0], ".", Join(rest, '.'));
    }
  }

  lemma PreReleaseFields(t: Triple, pieces: seq<string>)
    requires pieces != [] && forall piece | piece in pieces :: '.' !in piece
    ensures Split(PrintTriple(t) + "-" + Join(pieces, '.'), '.') ==
              [Print(t.major), Print(t.minor)] + ([Print(t.patch) + "-" + pieces[0]] + pieces[1..])
  {
    var front, patch, tail := Print(t.major) + "." + Print(t.minor) + ".", Print(t.patch), Join(pieces, '.');
    DigitsOnly(t.patch);
    SplitHead(patch + "-", pieces);
    SplitThree(t.major, t.minor, patch + "-" + tail);
    Regroup(front, patch, "-");
    Regroup(front, patch + "-", tail);
  }

  lemma PreReleaseNumbers(t: Triple, pieces: seq<string>)
    requires Valid(t) && pieces != [] && forall piece | piece in pieces :: '.' !in piece
    ensures Numbers(Split(PrintTriple(t) + "-" + Join(pieces, '.'), '.')) ==
              [t.major, t.minor] + Numbers(pieces[1..])
  {
    var mixed := Print(t.patch) + "-" + pieces[0];
    PreReleaseFields(t, pieces);
    NumbersThree(t.major, t.minor, [mixed] + pieces[1..]);
    NumbersCons(mixed, pieces[1..]);
    MixedPieceDropped(t.patch, pieces[0]);
  }

  /** What any printed version is taken for. */
  lemma ParseVersion(v: SemVer, prefixed: bool)
    requires ValidVersion(v)
    ensures Parse(PrintVersion(v, prefixed)) == v.core.(patch := TakenForPatch(v))
  {
    var s := PrintPlain(v);
    DigitsOnly(v.core.major);
    assert s[0] == Print(v.core.major)[0];
    assert ("v" + s)[1..] == s;
    assert TrimStartV(PrintVersion(v, prefixed)) == s;
    if v.pre == [] {
      ParsePrinted(v.core);
    } else {
      var pieces := PrintIdentifiers(v.pre);
      IdentifiersDotFree(v.pre);
      PreReleaseNumbers(v.core, pieces);
      NumbersFirst(v.pre[1..]);
      assert pieces[1..] == PrintIdentifiers(v.pre[1..]);
    }
  }

  // ----- where the comparison agrees with precedence -----

  /** Reading two identifier lists from the left, without ranking them as a whole: does
      the first small number of each rank them as precedence does?
      A common small number hides whatever follows it; two different ones decide
      rightly; past the first difference the later numbers must rank as it does. */
  predicate RankedAlike(a: seq<Identifier>, b: seq<Identifier>) {
    if a == [] then true
    else if b == [] then FirstNumber(a) > 0
    else if a[0] == b[0] then (if SmallNumber(a[0]) then Shorter(a[1..], b[1..]) else RankedAlike(a[1..], b[1..]))
    else if SmallNumber(a[0]) && SmallNumber(b[0]) then true
    else if SmallNumber(a[0]) then a[0].n <= FirstNumber(b[1..])
    else if SmallNumber(b[0]) then FirstNumber(a[1..]) > b[0].n
    else IdentifierAbove(a[0], b[0]) <==> FirstNumber(a[1..]) > FirstNumber(b[1..])
  }

  /** After a common prefix, `a` ends or has the lower identifier: it is not above. */
  predicate Shorter(a: seq<Identifier>, b: seq<Identifier>) {
    a == [] || (b != [] && if a[0] == b[0] then Shorter(a[1..], b[1..]) else !IdentifierAbove(a[0], b[0]))
  }

  lemma {:induction false} ShorterIff(a: seq<Identifier>, b: seq<Identifier>)
    ensures Shorter(a, b) <==> !PreAbove(a, b)
  {
    if a != [] && b != [] {
      IdentifierOrder(a[0], b[0], a[0]);
      ShorterIff(a[1..], b[1..]);
    }
  }

  lemma {:induction false} RankedAlikeIff(a: seq<Identifier>, b: seq<Identifier>)
    ensures RankedAlike(a, b) <==> (PreAbove(a, b) <==> FirstNumber(a) > FirstNumber(b))
  {
    if a != [] && b != [] {
      IdentifierOrder(a[0], b[0], a[0]);
      RankedAlikeIff(a[1..], b[1..]);
      ShorterIff(a[1..], b[1..]);
    }
  }

  /** When the comparison is right about two pre-releases of one release: from their
      first identifiers if these differ, otherwise from the rest. */
  predicate CandidatesComparable(a: seq<Identifier>, b: seq<Identifier>)
    requires a != [] && b != []
  {
    if a[0] == b[0] then RankedAlike(a[1..], b[1..])
    else IdentifierAbove(a[0], b[0]) <==> FirstNumber(a[1..]) > FirstNumber(b[1..])
  }

  lemma CandidatesComparableIff(a: seq<Identifier>, b: seq<Identifier>)
    requires a != [] && b != []
    ensures CandidatesComparable(a, b) <==> (PreAbove(a, b) <==> FirstNumber(a[1..]) > FirstNumber(b[1..]))
  {
    IdentifierOrder(a[0], b[0], a[0]);
    RankedAlikeIff(a[1..], b[1..]);
  }

  /** What the caller can see of two versions that makes the comparison right. */
  predicate Comparable(u: SemVer, v: SemVer) {
    var a, b, takenA, takenB := u.core.patch, v.core.patch, TakenForPatch(u), TakenForPatch(v);
    || u.core.major != v.core.major || u.core.minor != v.core.minor
    || (u.pre == [] && v.pre == [])
    || (u.pre == [] && v.pre != [] && !(b <= a <= takenB) && !(takenB < a < b))
    || (u.pre != [] && v.pre == [] && !(a <= b < takenA) && !(takenA <= b < a))
    || (u.pre != [] && v.pre != [] && a < b && takenA <= takenB)
    || (u.pre != [] && v.pre != [] && a > b && takenA > takenB)
    || (u.pre != [] && v.pre != [] && a == b && CandidatesComparable(u.pre, v.pre))
  }

  /** Guards that suffice for two pre-releases of one release: the same first identifier,
      then different numbers below 2^32; or no number below 2^32 after the first
      identifiers, which makes the comparison call neither newer: right exactly for the
      lower or equal one. */
  lemma CandidateGuards(a: seq<Identifier>, b: seq<Identifier>)
    requires a != [] && b != []
    ensures |a| > 1 && |b| > 1 && a[0] == b[0] && SmallNumber(a[1]) && SmallNumber(b[1]) && a[1] != b[1] ==>
              CandidatesComparable(a, b)
    ensures (forall id | id in a[1..] + b[1..] :: !SmallNumber(id)) ==>
              (CandidatesComparable(a, b) <==> !PreAbove(a, b))
  {
    CandidatesComparableIff(a, b);
    if forall id | id in a[1..] + b[1..] :: !SmallNumber(id) {
      NoSmallNumber(a[1..]);
      NoSmallNumber(b[1..]);
    }
  }

  lemma {:induction false} NoSmallNumber(ids: seq<Identifier>)
    requires forall id | id in ids :: !SmallNumber(id)
    ensures FirstNumber(ids) == 0
  {
    if ids != [] {
      assert ids[0] in ids;
      NoSmallNumber(ids[1..]);
    }
  }

  /** The comparison of two printed versions, releases or pre-releases, with or without
      the leading v, is precedence exactly for these. */
  lemma AgreesIff(u: SemVer, v: SemVer, pu: bool, pv: bool)
    requires ValidVersion(u) && ValidVersion(v)
    ensures (VersionNewer(PrintVersion(u, pu), PrintVersion(v, pv)) <==> Higher(u, v)) <==> Comparable(u, v)
  {
    ParseVersion(u, pu);
    ParseVersion(v, pv);
    if u.pre != [] && v.pre != [] {
      CandidatesComparableIff(u.pre, v.pre);
    }
  }

  /** In particular a release is ranked above each of its own pre-releases exactly when
      its patch level exceeds the number taken for theirs, and below it when it is less. */
  lemma ReleaseOverPreReleaseIff(v: SemVer)
    requires ValidVersion(v) && v.pre != []
    ensures var release, candidate := PrintTriple(v.core), PrintPlain(v);
            && (VersionNewer(release, candidate) <==> v.core.patch > FirstNumber(v.pre[1..]))
            && (VersionNewer(candidate, release) <==> v.core.patch < FirstNumber(v.pre[1..]))
  {
    ParsePrinted(v.core);
    ParseVersion(v, false);
  }

  function Tagged(t: Triple, tag: string, n: nat): SemVer {
    SemVer(t, [Alphanumeric(tag), Numeric(n)])
  }

  lemma TaggedTaken(t: Triple, tag: string, n: nat)
    requires Valid(t) && n < U32_BOUND && tag != "" && forall c | c in tag :: 'a' <= c <= 'z'
    ensures ValidVersion(Tagged(t, tag, n)) && Parse(PrintPlain(Tagged(t, tag, n))) == t.(patch := n)
  {
    assert tag[0] in tag && !IsDigit(tag[0]);
    assert Tagged(t, tag, n).pre[1..] == [Numeric(n)];
    ParseVersion(Tagged(t, tag, n), false);
  }

  /** Pre-releases of one release, a label and a number each: the comparison looks at
      the numbers only, while precedence ranks by the label first. */
  lemma LabelsIgnored(t: Triple, x: string, m: nat, y: string, n: nat)
    requires Valid(t) && m < U32_BOUND && n < U32_BOUND
    requires x != "" && (forall c | c in x :: 'a' <= c <= 'z') && y != "" && (forall c | c in y :: 'a' <= c <= 'z')
    ensures var u, v := Tagged(t, x, m), Tagged(t, y, n);
            && (VersionNewer(PrintPlain(u), PrintPlain(v)) <==> m > n)
            && (Higher(u, v) <==> if x == y then m > n else TextAbove(x, y))
  {
    var u, v := Tagged(t, x, m), Tagged(t, y, n);
    TextOrder(x, y, x);
    assert u.pre[1..] == [Numeric(m)] && v.pre[1..] == [Numeric(n)];
    assert PreAbove([Numeric(m)], [Numeric(n)]) <==> m > n;
    TaggedTaken(t, x, m);
    TaggedTaken(t, y, n);
  }

  /** 1.0.1 does not count as newer than 1.0.0-rc.9 ... */
  lemma ReleaseNotNewer()
    ensures !VersionNewer(PrintTriple(Triple(1, 0, 1)), PrintPlain(Tagged(Triple(1, 0, 0), "rc", 9)))
  {
    ParsePrinted(Triple(1, 0, 1));
    TaggedTaken(Triple(1, 0, 0), "rc", 9);
  }

  /** ... and 1.0.0-rc.1 does count as newer than 1.0.0. */
  lemma CandidateCountsAsNewer()
    ensures VersionNewer("1.0.0-rc.1", "1.0.0")
  {
    var t := Triple(1, 0, 0);
    var v := Tagged(t, "rc", 1);
    assert Print(1) == "1" && Print(0) == "0";
    assert PrintTriple(t) == "1.0.0";
    assert v.pre[1..] == [Numeric(1)];
    assert PrintIdentifiers([Numeric(1)]) == ["1"];
    assert PrintIdentifiers(v.pre) == ["rc", "1"];
    assert ["rc", "1"][1..] == ["1"];
    assert Join(["rc", "1"], '.') == "rc.1";
    assert PrintPlain(v) == "1.0.0-rc.1";
    TaggedTaken(t, "rc", 1);
    ParsePrinted(t);
  }
}
