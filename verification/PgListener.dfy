/** The reconnect loop of the notification listener and its saturating backoff. */
module PgListener {

  const MAX_BACKOFF_SECS: nat := 30

  datatype Session = ClosedCleanly | Broken

  function Min(a: nat, b: nat): nat {
    if a < b then a else b
  }

  function Pow2(k: nat): nat {
    if k == 0 then 1 else 2 * Pow2(k - 1)
  }

  /** Consecutive failures that follow the last clean close, or the start. */
  function Streak(sessions: seq<Session>): nat {
    if sessions == [] then 0
    else if sessions[|sessions| - 1] == ClosedCleanly then 0
    else Streak(sessions[..|sessions| - 1]) + 1
  }

  /** Which delay, counted from 0 since the start or since the last clean close
      (whose own sleep takes delay 0), follows the last of these sessions. */
  function Sleeps(sessions: seq<Session>): nat
    requires sessions != []
  {
    if ClosedCleanly in sessions then Streak(sessions) else Streak(sessions) - 1
  }

  /** Counting from the start, or from a clean close, gives the number of failures. */
  lemma {:induction false} SleepsLaw(before: seq<Session>, failures: seq<Session>)
    requires forall i | 0 <= i < |failures| :: failures[i] == Broken
    ensures Streak(failures) == |failures|
    ensures failures != [] ==> Sleeps(failures) == |failures| - 1
    ensures Sleeps(before + [ClosedCleanly] + failures) == |failures|
  {
    var whole := before + [ClosedCleanly] + failures;
    assert whole[|before|] == ClosedCleanly;
    if failures != [] {
      var shorter := failures[..|failures| - 1];
      SleepsLaw(before, shorter);
      assert whole[..|whole| - 1] == before + [ClosedCleanly] + shorter;
      assert (before + [ClosedCleanly] + shorter)[|before|] == ClosedCleanly;
    }
  }

  /** The delay slept after each session. */
  ghost predicate BacksOff(sessions: seq<Session>, delays: seq<nat>) {
    && |delays| == |sessions|
    && forall i | 0 <= i < |delays| :: delays[i] == Min(Pow2(Sleeps(sessions[..i + 1])), MAX_BACKOFF_SECS)
  }

  /** The loop, for as many sessions as given. */
  method Run(sessions: seq<Session>) returns (delays: seq<nat>)
    ensures BacksOff(sessions, delays)
  {
    delays := [];
    var backoffSecs: nat := 1;
    for i := 0 to |sessions|
      invariant |delays| == i
      invariant forall j | 0 <= j < i :: delays[j] == Min(Pow2(Sleeps(sessions[..j + 1])), MAX_BACKOFF_SECS)
      invariant backoffSecs ==
                  if i == 0 then 1 else Min(Pow2(Sleeps(sessions[..i]) + 1), MAX_BACKOFF_SECS)
    {
      assert sessions[..i + 1][..i] == sessions[..i];
      match sessions[i] {
        case ClosedCleanly => backoffSecs := 1;
        case Broken =>
      }
      delays := delays + [backoffSecs];
      backoffSecs := Min(backoffSecs * 2, MAX_BACKOFF_SECS);
    }
  }

  function Sum(delays: seq<nat>): nat {
    if delays == [] then 0 else Sum(delays[..|delays| - 1]) + delays[|delays| - 1]
  }

  /** Delays counted from the first: their total doubles up to five of them and then
      grows by the maximum each. */
  lemma {:induction false} TotalFromFirst(delays: seq<nat>)
    requires forall i | 0 <= i < |delays| :: delays[i] == Min(Pow2(i), MAX_BACKOFF_SECS)
    ensures |delays| <= 5 ==> Sum(delays) == Pow2(|delays|) - 1
    ensures |delays| >= 5 ==> Sum(delays) == 31 + MAX_BACKOFF_SECS * (|delays| - 5)
  {
    if delays != [] {
      var n := |delays| - 1;
      TotalFromFirst(delays[..n]);
      Pow2Small();
      if n <= 4 {
        Pow2Monotone(n, 4);
      } else {
        Pow2Monotone(5, n);
      }
    }
  }

  /** The n sessions from this one on begin at the start of the loop or with a clean
      close, and fail otherwise. */
  predicate Outage(sessions: seq<Session>, start: nat, n: nat) {
    && start + n <= |sessions|
    && (n > 0 && sessions[start] == Broken ==> start == 0)
    && (forall i | start < i < start + n :: sessions[i] == Broken)
  }

  lemma OutageSleeps(sessions: seq<Session>, start: nat, n: nat, k: nat)
    requires Outage(sessions, start, n) && k < n
    ensures Sleeps(sessions[..start + k + 1]) == k
  {
    var upTo := sessions[..start + k + 1];
    if sessions[start] == Broken {
      SleepsLaw([], upTo);
    } else {
      assert upTo == sessions[..start] + [ClosedCleanly] + sessions[start + 1..start + k + 1];
      SleepsLaw(sessions[..start], sessions[start + 1..start + k + 1]);
    }
  }

  /** What the loop sleeps in all over n consecutive delays of one outage. */
  lemma TotalLaw(sessions: seq<Session>, delays: seq<nat>, start: nat, n: nat)
    requires BacksOff(sessions, delays) && Outage(sessions, start, n)
    ensures n <= 5 ==> Sum(delays[start..start + n]) == Pow2(n) - 1
    ensures n >= 5 ==> Sum(delays[start..start + n]) == 31 + 30 * (n - 5)
  {
    var window := delays[start..start + n];
    forall k: nat | k < n
      ensures window[k] == Min(Pow2(k), MAX_BACKOFF_SECS)
    {
      OutageSleeps(sessions, start, n, k);
    }
    TotalFromFirst(window);
  }

  /** The k-th delay of an outage, counted from 0. */
  lemma DelayLaw(sessions: seq<Session>, delays: seq<nat>, start: nat, n: nat, k: nat)
    requires BacksOff(sessions, delays) && Outage(sessions, start, n) && k < n
    ensures delays[start + k] == if k < 5 then Pow2(k) else 30
  {
    OutageSleeps(sessions, start, n, k);
    Pow2Small();
    if k < 5 {
      Pow2Monotone(k, 4);
    } else {
      Pow2Monotone(5, k);
    }
  }

  lemma Pow2Small()
    ensures Pow2(4) == 16 && Pow2(5) == 32
  {
    assert Pow2(5) == 2 * Pow2(4) == 4 * Pow2(3) == 8 * Pow2(2) == 16 * Pow2(1) == 32;
  }

  lemma {:induction false} Pow2Monotone(a: nat, b: nat)
    requires a <= b
    ensures Pow2(a) <= Pow2(b)
  {
    if a < b {
      Pow2Monotone(a, b - 1);
    }
  }
}
