/** The sequential part of fetching: a bounded retry with exponential backoff
    over the outcomes the flight service gives, and the merge of a detailed
    fetch into a flight's basic record. */
module Fetch {
  import opened Values

  /** What one call to the flight service gives: a value, or an exception. */
  datatype Outcome<T> = Ok(value: T) | Raised

  function Pow2(n: nat): (p: nat)
    ensures p >= 1
  {
    if n == 0 then 1 else 2 * Pow2(n - 1)
  }

  /** The waits after the first `n` failed attempts: 1, 2, 4, ... seconds. */
  function Backoff(n: nat): (s: seq<nat>)
    ensures |s| == n
    ensures forall j :: 0 <= j < n ==> s[j] == Pow2(j)
  {
    if n == 0 then [] else Backoff(n - 1) + [Pow2(n - 1)]
  }

  function Sum(s: seq<nat>): nat {
    if s == [] then 0 else Sum(s[..|s| - 1]) + s[|s| - 1]
  }

  /** Waiting 1, 2, ..., 2^(n-1) seconds takes 2^n - 1 seconds in all. */
  lemma {:induction false} BackoffTotal(n: nat)
    ensures Sum(Backoff(n)) == Pow2(n) - 1
  {
    if n > 0 {
      BackoffTotal(n - 1);
      assert Backoff(n)[..n - 1] == Backoff(n - 1);
    }
  }

  /** The index of the first successful outcome among the first `n`. */
  function FirstSuccess<T>(outcomes: seq<Outcome<T>>, n: nat): (k: Option<nat>)
    requires n <= |outcomes|
    ensures k.Some? ==> k.value < n && outcomes[k.value].Ok?
                        && forall j :: 0 <= j < k.value ==> outcomes[j].Raised?
    ensures k.None? ==> forall j :: 0 <= j < n ==> outcomes[j].Raised?
  {
    if n == 0 then None
    else
      match FirstSuccess(outcomes, n - 1)
      case Some(k) => Some(k)
      case None => if outcomes[n - 1].Ok? then Some(n - 1) else None
  }

  /** The value returned and the waits taken by a retry of at most `maxRetries`
      attempts: the first success ends it after one wait per earlier failure;
      with no success every attempt but the last is followed by a wait. */
  datatype RetryRun<T> = RetryRun(result: Option<T>, sleeps: seq<nat>)

  function Retried<T>(outcomes: seq<Outcome<T>>, maxRetries: nat): RetryRun<T>
    requires maxRetries <= |outcomes|
  {
    match FirstSuccess(outcomes, maxRetries)
    case Some(k) => RetryRun(Some(outcomes[k].value), Backoff(k))
    case None => RetryRun(None, Backoff(if maxRetries == 0 then 0 else maxRetries - 1))
  }

  /** Attempts 1 to `maxRetries` in turn: a success is returned at once, a
      failure of the last attempt gives None, any other failure of attempt `a`
      is followed by a wait of 2^(a-1) seconds. The calls' outcomes are given
      in order; `sleeps` records the waits. */
  method RetryWithBackoff<T>(outcomes: seq<Outcome<T>>, maxRetries: nat)
    returns (result: Option<T>, sleeps: seq<nat>)
    requires maxRetries <= |outcomes|
    ensures RetryRun(result, sleeps) == Retried(outcomes, maxRetries)
    ensures maxRetries == 0 ==> result.None? && sleeps == []
    ensures maxRetries > 0 ==> |sleeps| < maxRetries
    ensures forall j :: 0 <= j < |sleeps| ==> outcomes[j].Raised? && sleeps[j] == Pow2(j)
    ensures result.Some? ==> outcomes[|sleeps|] == Ok(result.value)
    ensures result.None? ==> forall j :: 0 <= j < maxRetries ==> outcomes[j].Raised?
  {
    sleeps := [];
    var attempt := 1;
    while attempt <= maxRetries
      invariant 1 <= attempt <= maxRetries + 1
      invariant maxRetries > 0 ==> attempt <= maxRetries
      invariant FirstSuccess(outcomes, attempt - 1).None?
      invariant sleeps == Backoff(attempt - 1)
    {
      match outcomes[attempt - 1]
      case Ok(v) =>
        assert FirstSuccess(outcomes, attempt) == Some(attempt - 1);
        FirstSuccessStable(outcomes, attempt, maxRetries);
        return Some(v), sleeps;
      case Raised =>
        if attempt == maxRetries {
          return None, sleeps;
        }
        sleeps := sleeps + [Pow2(attempt - 1)];
      attempt := attempt + 1;
    }
    return None, sleeps;
  }

  /** Once a success has been seen, looking at more outcomes does not move it. */
  lemma {:induction false} FirstSuccessStable<T>(outcomes: seq<Outcome<T>>, n: nat, m: nat)
    requires n <= m <= |outcomes| && FirstSuccess(outcomes, n).Some?
    ensures FirstSuccess(outcomes, m) == FirstSuccess(outcomes, n)
    decreases m - n
  {
    if n < m {
      FirstSuccessStable(outcomes, n, m - 1);
    }
  }

  /** A success on attempt `k + 1` follows waits totalling 2^k - 1 seconds; a
      complete failure waits 2^(n-1) - 1 seconds and never after the last try. */
  lemma RetriedWaits<T>(outcomes: seq<Outcome<T>>, maxRetries: nat)
    requires 0 < maxRetries <= |outcomes|
    ensures var run := Retried(outcomes, maxRetries);
      Sum(run.sleeps) == Pow2(|run.sleeps|) - 1
      && (run.result.Some? ==> outcomes[|run.sleeps|] == Ok(run.result.value))
      && (run.result.None? ==> |run.sleeps| == maxRetries - 1)
  {
    var run := Retried(outcomes, maxRetries);
    BackoffTotal(|run.sleeps|);
  }

  /** Two failures and then a success within five attempts: the value of the
      third call is returned after waits of 1 and 2 seconds. */
  lemma ThirdAttemptSucceeds<T>(x: T, later: seq<Outcome<T>>)
    requires |later| >= 2
    ensures Retried([Raised, Raised, Ok(x)] + later, 5) == RetryRun(Some(x), [1, 2])
  {
    var outcomes := [Raised, Raised, Ok(x)] + later;
    assert FirstSuccess(outcomes, 3) == Some(2);
    FirstSuccessStable(outcomes, 3, 5);
    assert Backoff(2) == [1, 2];
  }

  /** `_fetch_flight_details`: five attempts. */
  method FetchFlightDetails<T>(outcomes: seq<Outcome<T>>) returns (details: Option<T>, sleeps: seq<nat>)
    requires 5 <= |outcomes|
    ensures RetryRun(details, sleeps) == Retried(outcomes, 5)
    ensures |sleeps| <= 4 && Sum(sleeps) <= 15
  {
    details, sleeps := RetryWithBackoff(outcomes, 5);
    RetriedWaits(outcomes, 5);
    assert Pow2(|sleeps|) <= 16 by {
      assert Backoff(|sleeps|) == sleeps;
      assert Pow2(4) == 16;
      Pow2Mono(|sleeps|, 4);
    }
  }

  /** `_fetch_flights_with_retry`: three attempts. */
  method FetchFlightsWithRetry<T>(outcomes: seq<Outcome<T>>) returns (flights: Option<T>, sleeps: seq<nat>)
    requires 3 <= |outcomes|
    ensures RetryRun(flights, sleeps) == Retried(outcomes, 3)
    ensures |sleeps| <= 2 && Sum(sleeps) <= 3
  {
    flights, sleeps := RetryWithBackoff(outcomes, 3);
    RetriedWaits(outcomes, 3);
    assert Pow2(|sleeps|) <= 4 by {
      assert Pow2(2) == 4;
      Pow2Mono(|sleeps|, 2);
    }
  }

  lemma {:induction false} Pow2Mono(a: nat, b: nat)
    requires a <= b
    ensures Pow2(a) <= Pow2(b)
    decreases b
  {
    if a < b {
      Pow2Mono(a, b - 1);
    }
  }

  // ---------------------------------------------------------------------------
  // Merging the detailed fetch

  const DetailsFetchedKey: string := "api_details_fetch"

  /** Copies each detailed field into the basic record where the basic record
      lacks the key or holds None there, then marks the record as detailed. */
  function MergeDetails(basic: Record, detailed: Record): (r: Record)
    ensures r.Keys == basic.Keys + detailed.Keys + {DetailsFetchedKey}
    ensures r[DetailsFetchedKey] == Bool(true)
    ensures forall k :: k in basic && basic[k] != Null && k != DetailsFetchedKey ==> r[k] == basic[k]
    ensures forall k :: (k in detailed && (k !in basic || basic[k] == Null) && k != DetailsFetchedKey)
                          ==> r[k] == detailed[k]
    ensures forall k :: k in r && k != DetailsFetchedKey && r[k] != Get(basic, k) ==>
                          k in detailed && Get(basic, k) == Null
  {
    var filled := map k | k in detailed.Keys && (k !in basic || basic[k] == Null) :: detailed[k];
    (basic + filled)[DetailsFetchedKey := Bool(true)]
  }

  /** Merging the same details twice changes nothing further. */
  lemma MergeDetailsIdempotent(basic: Record, detailed: Record)
    ensures MergeDetails(MergeDetails(basic, detailed), detailed) == MergeDetails(basic, detailed)
  {
    var once := MergeDetails(basic, detailed);
    var twice := MergeDetails(once, detailed);
    forall k | k in twice ensures k in once && twice[k] == once[k] {
      if k != DetailsFetchedKey && k in detailed && once[k] == Null {
        assert k !in basic || basic[k] == Null;
        assert once[k] == detailed[k];
      }
    }
  }
}
