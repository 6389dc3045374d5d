/**
 * axiosRetry (server/server.js): up to maxRetries attempts of one request, returning the first
 * response, rethrowing the last attempt's error, and waiting 2^i seconds after failed attempt i
 * when another attempt follows. The transport is the function giving the outcome of the i-th
 * attempt; the waits are recorded instead of slept.
 */
module Retry {
  /** How one attempt of the request ends. */
  datatype Attempt<R, E> = Ok(response: R) | Failed(error: E)

  /** How axiosRetry settles: with a response, by throwing, or with undefined when the loop
      never runs. */
  datatype Outcome<R, E> = Returned(response: R) | Thrown(error: E) | NoResult

  /** The default of the maxRetries parameter, which every caller uses. */
  const DefaultRetries: int := 3

  function Pow2(n: nat): (p: nat)
    ensures p >= 1
  {
    if n == 0 then 1 else 2 * Pow2(n - 1)
  }

  /** Math.pow(2, i) * 1000: the wait in milliseconds after failed attempt i. */
  function WaitAfter(i: nat): nat {
    Pow2(i) * 1000
  }

  function Sum(s: seq<nat>): nat
    decreases |s|
  {
    if s == [] then 0 else Sum(s[..|s| - 1]) + s[|s| - 1]
  }

  /** The waits of the first k failed attempts add up to (2^k - 1) seconds. */
  lemma {:induction false} TotalWait(waits: seq<nat>)
    requires forall i :: 0 <= i < |waits| ==> waits[i] == WaitAfter(i)
    ensures Sum(waits) == (Pow2(|waits|) - 1) * 1000
    decreases |waits|
  {
    if waits != [] {
      var k := |waits| - 1;
      TotalWait(waits[..k]);
      assert Pow2(k + 1) == 2 * Pow2(k);
    }
  }

  /** Every one of the first k attempts failed. */
  ghost predicate FailedBefore<R, E>(outcomes: nat -> Attempt<R, E>, k: nat) {
    forall i: nat :: i < k ==> outcomes(i).Failed?
  }

  /** What attempts i, i+1, ... of n allowed give, when the earlier ones have failed: the
      outcome and the number of attempts made in all. */
  function RetryFrom<R, E>(outcomes: nat -> Attempt<R, E>, i: nat, n: int): (r: (Outcome<R, E>, nat))
    requires i < n
    ensures i < r.1 <= n && !r.0.NoResult?
    decreases n - i
  {
    match outcomes(i)
    case Ok(response) => (Returned(response), i + 1)
    case Failed(error) => if i == n - 1 then (Thrown(error), n) else RetryFrom(outcomes, i + 1, n)
  }

  /** The reference outcome of axiosRetry: undefined without attempts, else the first response
      or the last error. */
  function RetryOutcome<R, E>(outcomes: nat -> Attempt<R, E>, maxRetries: int): Outcome<R, E> {
    if maxRetries <= 0 then NoResult else RetryFrom(outcomes, 0, maxRetries).0
  }

  /** The number of requests axiosRetry makes. */
  function RetryAttempts<R, E>(outcomes: nat -> Attempt<R, E>, maxRetries: int): nat {
    if maxRetries <= 0 then 0 else RetryFrom(outcomes, 0, maxRetries).1
  }

  /** The reference run: the first success among the allowed attempts ends it; without one,
      every allowed attempt is made and the last error is rethrown. */
  lemma {:induction false} RetryFromSpec<R, E>(outcomes: nat -> Attempt<R, E>, i: nat, n: int)
    requires i < n && FailedBefore(outcomes, i)
    ensures var (o, k) := RetryFrom(outcomes, i, n);
            FailedBefore(outcomes, k - 1)
            && (o.Returned? ==> outcomes(k - 1) == Ok(o.response))
            && (o.Thrown? ==> k == n && outcomes(k - 1) == Failed(o.error))
    decreases n - i
  {
    if outcomes(i).Failed? && i != n - 1 {
      RetryFromSpec(outcomes, i + 1, n);
    }
  }

  /** A first attempt that succeeds ends the retry with its response, after one request. */
  lemma FirstAttemptOk<R, E>(outcomes: nat -> Attempt<R, E>, maxRetries: int)
    requires maxRetries > 0 && outcomes(0).Ok?
    ensures RetryOutcome(outcomes, maxRetries) == Returned(outcomes(0).response)
    ensures RetryAttempts(outcomes, maxRetries) == 1
  {
  }

  /** axiosRetry(config, maxRetries): attempt after attempt until one succeeds or the last
      allowed one fails. `attempts` counts the requests made and `waits` lists the pauses
      between them. */
  method AxiosRetry<R, E>(outcomes: nat -> Attempt<R, E>, maxRetries: int)
    returns (outcome: Outcome<R, E>, attempts: nat, waits: seq<nat>)
    ensures maxRetries <= 0 <==> outcome.NoResult?
    ensures maxRetries <= 0 ==> attempts == 0 && waits == []
    ensures maxRetries > 0 ==> 1 <= attempts <= maxRetries && |waits| == attempts - 1
    ensures maxRetries > 0 ==> FailedBefore(outcomes, attempts - 1)
    ensures outcome.Returned? ==> outcomes(attempts - 1) == Ok(outcome.response)
    ensures outcome.Thrown? ==> attempts == maxRetries && outcomes(attempts - 1) == Failed(outcome.error)
    ensures forall i :: 0 <= i < |waits| ==> waits[i] == WaitAfter(i)
    ensures outcome.Thrown? ==> Sum(waits) == (Pow2(attempts - 1) - 1) * 1000
    ensures outcome == RetryOutcome(outcomes, maxRetries) && attempts == RetryAttempts(outcomes, maxRetries)
  {
    outcome := NoResult;
    attempts := 0;
    waits := [];
    var i := 0;
    while i < maxRetries
      invariant 0 <= i && (maxRetries > 0 ==> i < maxRetries) && (maxRetries <= 0 ==> i == 0)
      invariant attempts == i && |waits| == i
      invariant FailedBefore(outcomes, i)
      invariant forall j :: 0 <= j < |waits| ==> waits[j] == WaitAfter(j)
      invariant maxRetries > 0 ==> RetryFrom(outcomes, 0, maxRetries) == RetryFrom(outcomes, i, maxRetries)
    {
      attempts := i + 1;
      match outcomes(i)
      case Ok(response) =>
        outcome := Returned(response);
        return;
      case Failed(error) =>
        if i == maxRetries - 1 {
          outcome := Thrown(error);
          TotalWait(waits);
          return;
        }
        waits := waits + [WaitAfter(i)];
      i := i + 1;
    }
  }
}
