/** The replay cache: a map from nonce to expiry that is cleaned lazily, on every
    attempt, inside one critical section.  The partner of the map is the
    unbounded log of all attempts in lock order. */
module NonceCache {

  // Nanoseconds since the epoch.
  type Time = int

  const MINUTE: Time := 60_000_000_000
  const NONCE_TTL: Time := 6 * MINUTE

  datatype Attempt = Attempt(nonce: string, now: Time)

  function Retain(entries: map<string, Time>, now: Time): map<string, Time> {
    map nonce | nonce in entries && entries[nonce] > now :: entries[nonce]
  }

  predicate Admits(entries: map<string, Time>, attempt: Attempt) {
    attempt.nonce !in Retain(entries, attempt.now)
  }

  function Cleaned(entries: map<string, Time>, attempt: Attempt): map<string, Time> {
    var kept := Retain(entries, attempt.now);
    if Admits(entries, attempt) then kept[attempt.nonce := attempt.now + NONCE_TTL] else kept
  }

  /** The entries left by the first k attempts of a log kept in lock order. */
  function EntriesAfter(log: seq<Attempt>, k: nat): map<string, Time>
    requires k <= |log|
  {
    if k == 0 then map[] else Cleaned(EntriesAfter(log, k - 1), log[k - 1])
  }

  predicate AdmittedAt(log: seq<Attempt>, k: nat)
    requires k < |log|
  {
    Admits(EntriesAfter(log, k), log[k])
  }

  /** Later attempts change nothing about earlier ones. */
  lemma {:induction false} PrefixStable(log: seq<Attempt>, more: seq<Attempt>, k: nat)
    requires k <= |log|
    ensures EntriesAfter(log + more, k) == EntriesAfter(log, k)
    ensures k < |log| ==> AdmittedAt(log + more, k) == AdmittedAt(log, k)
  {
    if k > 0 {
      PrefixStable(log, more, k - 1);
    }
  }

  class Cache {
    var entries: map<string, Time>
    ghost var log: seq<Attempt>

    ghost predicate Valid()
      reads this
    {
      entries == EntriesAfter(log, |log|)
    }

    constructor ()
      ensures Valid() && log == []
    {
      entries := map[];
      log := [];
    }

    /** The critical section: drop expired entries, look the nonce up, store it. */
    method CheckAndStore(nonce: string, now: Time) returns (admitted: bool)
      requires Valid()
      modifies this
      ensures Valid() && log == old(log) + [Attempt(nonce, now)]
      ensures admitted == AdmittedAt(log, |old(log)|)
      ensures forall n :: n in entries <==>
                (n in old(entries) && old(entries)[n] > now) || n == nonce
      ensures admitted ==> entries[nonce] == now + 6 * MINUTE
      ensures forall n | n in entries && !(n == nonce && admitted) ::
                n in old(entries) && entries[n] == old(entries)[n]
    {
      ghost var attempt := Attempt(nonce, now);
      ghost var longer := log + [attempt];
      PrefixStable(log, [attempt], |log|);
      var expiry := now + NONCE_TTL;
      entries := map n | n in entries && entries[n] > now :: entries[n];
      admitted := nonce !in entries;
      if admitted {
        entries := entries[nonce := expiry];
      }
      log := longer;
    }
  }

  // ----- the map against the log -----

  /** Attempt i was admitted and none of the attempts in (i, k) came so late that
      its cleaning removed the entry again. */
  predicate Live(log: seq<Attempt>, i: nat, k: nat)
    requires i < k <= |log|
  {
    && AdmittedAt(log, i)
    && forall j | i < j < k :: log[i].now + 6 * MINUTE > log[j].now
  }

  /** Whatever the order of the clock readings, a live admission is in the map
      with its own expiry. */
  lemma {:induction false} LiveHasEntry(log: seq<Attempt>, i: nat, k: nat)
    requires i < k <= |log| && Live(log, i, k)
    ensures log[i].nonce in EntriesAfter(log, k)
    ensures EntriesAfter(log, k)[log[i].nonce] == log[i].now + 6 * MINUTE
  {
    if i < k - 1 {
      assert Live(log, i, k - 1);
      LiveHasEntry(log, i, k - 1);
    }
  }

  /** Conversely, every entry of the map is a live admission. */
  lemma {:induction false} EntryIsLive(log: seq<Attempt>, k: nat, nonce: string) returns (i: nat)
    requires k <= |log| && nonce in EntriesAfter(log, k)
    ensures i < k && log[i].nonce == nonce && Live(log, i, k)
  {
    if nonce == log[k - 1].nonce && AdmittedAt(log, k - 1) {
      i := k - 1;
    } else {
      i := EntryIsLive(log, k - 1, nonce);
      LiveHasEntry(log, i, k - 1);
    }
  }

  /** An earlier admission of the same nonce that has not expired at the k-th
      reading nor at any reading taken in between. */
  predicate Blocks(log: seq<Attempt>, i: nat, k: nat)
    requires i < k < |log|
  {
    log[i].nonce == log[k].nonce && Live(log, i, k) && log[i].now + 6 * MINUTE > log[k].now
  }

  /** An attempt is refused exactly when an unexpired admission blocks it. */
  lemma RefusedIff(log: seq<Attempt>, k: nat)
    requires k < |log|
    ensures !AdmittedAt(log, k) <==> exists i: nat | i < k :: Blocks(log, i, k)
  {
    if !AdmittedAt(log, k) {
      var i := EntryIsLive(log, k, log[k].nonce);
      LiveHasEntry(log, i, k);
      assert Blocks(log, i, k);
    }
    forall i: nat | i < k && Blocks(log, i, k)
      ensures !AdmittedAt(log, k)
    {
      LiveHasEntry(log, i, k);
    }
  }

  /** Between two admissions of one nonce some reading is at least the lifetime
      after the first. */
  lemma AdmissionsApart(log: seq<Attempt>, i: nat, k: nat) returns (j: nat)
    requires i < k < |log| && log[i].nonce == log[k].nonce
    requires AdmittedAt(log, i) && AdmittedAt(log, k)
    ensures i < j <= k && log[j].now >= log[i].now + 6 * MINUTE
  {
    RefusedIff(log, k);
    assert !Blocks(log, i, k);
    if Live(log, i, k) {
      j := k;
    } else {
      j :| i < j < k && log[i].now + NONCE_TTL <= log[j].now;
    }
  }

  predicate InClockOrder(log: seq<Attempt>) {
    forall i, j | 0 <= i < j < |log| :: log[i].now <= log[j].now
  }

  /** The log admitted this nonce at i, less than the lifetime before reading k. */
  predicate Recent(log: seq<Attempt>, i: nat, k: nat, nonce: string)
    requires i <= k < |log|
  {
    log[i].nonce == nonce && AdmittedAt(log, i) && log[i].now + 6 * MINUTE > log[k].now
  }

  /** In clock order the cache refines the unbounded log: a nonce is refused iff
      the log admitted it less than the lifetime ago. */
  lemma RefinesLog(log: seq<Attempt>, k: nat)
    requires k < |log| && InClockOrder(log)
    ensures !AdmittedAt(log, k) <==> exists i: nat | i < k :: Recent(log, i, k, log[k].nonce)
  {
    RefusedIff(log, k);
    forall i: nat | i < k
      ensures Blocks(log, i, k) <==> Recent(log, i, k, log[k].nonce)
    {}
  }

  /** ... and its keys are exactly the nonces admitted within that window. */
  lemma KeysAreRecent(log: seq<Attempt>, k: nat, nonce: string)
    requires k < |log| && InClockOrder(log)
    ensures nonce in EntriesAfter(log, k + 1) <==> exists i: nat | i <= k :: Recent(log, i, k, nonce)
  {
    if nonce in EntriesAfter(log, k + 1) {
      var i := EntryIsLive(log, k + 1, nonce);
      LiveHasEntry(log, i, k + 1);
      assert Recent(log, i, k, nonce);
    }
    forall i: nat | i <= k && Recent(log, i, k, nonce)
      ensures nonce in EntriesAfter(log, k + 1)
    {
      assert Live(log, i, k + 1);
      LiveHasEntry(log, i, k + 1);
    }
  }
}
