/**
 * The retry loop of `fetch_url`, over a scripted network: `script(k)` is what
 * the `k`-th request (counting from 0) gets back. Up to `retries` requests are
 * made. A 429 response sleeps for its `Retry-After` seconds (60 when absent)
 * and moves on to the next attempt. Another response of status 400 or more,
 * or a client failure, sleeps `2 ** attempt` seconds before the next attempt
 * and gives `""` on the last one. Any other response gives its body. Other
 * failures, and a `Retry-After` that is not an integer, raise out of the loop.
 */
module Fetch {
  import opened PyDict
  import opened Numbers

  /** What one request gets back. */
  datatype Outcome =
    | Response(status: int, retryAfter: Option<string>, body: string)
    /** an `aiohttp.ClientError` (connection refused, payload error, ...) */
    | ClientFailure
    /** any other exception, such as a timeout */
    | OtherFailure

  datatype Fetched = Text(text: string) | Raised

  /** The result of a run, how many requests it made, and the sleeps it took,
      in order. */
  datatype FetchRun = FetchRun(result: Fetched, attempts: nat, sleeps: seq<int>)

  const RateLimited := 429
  const DefaultRetryAfter := 60

  /** `int(response.headers.get("Retry-After", 60))`; `None` where `int()`
      raises. */
  function RetryAfterSeconds(header: Option<string>): Option<int> {
    match header
    case None => Some(DefaultRetryAfter)
    case Some(h) => ParseInt(h)
  }

  /** `raise_for_status()` raises a client error for statuses from 400. */
  predicate IsClientError(o: Outcome) {
    o.ClientFailure? || (o.Response? && o.status != RateLimited && o.status >= 400)
  }

  /** An outcome after which the loop goes on to the next attempt. */
  predicate IsRetried(o: Outcome) {
    IsClientError(o) || (o.Response? && o.status == RateLimited && RetryAfterSeconds(o.retryAfter).Some?)
  }

  /** A response whose body is returned. */
  predicate IsSuccess(o: Outcome) {
    o.Response? && o.status != RateLimited && o.status < 400
  }

  function Pow2(n: nat): (r: nat)
    ensures r >= 1
  {
    if n == 0 then 1 else 2 * Pow2(n - 1)
  }

  /** One more attempt, with a sleep, before `run`. */
  function After(sleep: int, run: FetchRun): FetchRun {
    FetchRun(run.result, run.attempts + 1, [sleep] + run.sleeps)
  }

  /** The loop from attempt `attempt` on. */
  function FetchFrom(script: nat -> Outcome, retries: int, attempt: nat): (r: FetchRun)
    decreases retries - attempt
  {
    if attempt >= retries then FetchRun(Text(""), 0, [])
    else
      var o := script(attempt);
      if IsSuccess(o) then FetchRun(Text(o.body), 1, [])
      else if IsClientError(o) then
        if attempt == retries - 1 then FetchRun(Text(""), 1, [])
        else After(Pow2(attempt), FetchFrom(script, retries, attempt + 1))
      else if o.Response? then
        match RetryAfterSeconds(o.retryAfter)
        case Some(seconds) => After(seconds, FetchFrom(script, retries, attempt + 1))
        case None => FetchRun(Raised, 1, [])
      else FetchRun(Raised, 1, [])
  }

  /** A run that made `attempts` requests and took `sleeps`, followed by
      `rest`. */
  function Resume(attempts: nat, sleeps: seq<int>, rest: FetchRun): FetchRun {
    FetchRun(rest.result, attempts + rest.attempts, sleeps + rest.sleeps)
  }

  lemma ResumeAfter(attempts: nat, sleeps: seq<int>, sleep: int, rest: FetchRun)
    ensures Resume(attempts, sleeps, After(sleep, rest)) == Resume(attempts + 1, sleeps + [sleep], rest)
  {
    assert sleeps + ([sleep] + rest.sleeps) == (sleeps + [sleep]) + rest.sleeps;
  }

  /** `fetch_url(session, url, semaphore, retries)`. */
  method FetchUrl(script: nat -> Outcome, retries: int) returns (run: FetchRun)
    ensures run == FetchFrom(script, retries, 0)
  {
    var attempt: nat := 0;
    var sleeps: seq<int> := [];
    while attempt < retries
      invariant attempt == |sleeps|
      invariant attempt > 0 ==> attempt <= retries
      invariant FetchFrom(script, retries, 0) == Resume(attempt, sleeps, FetchFrom(script, retries, attempt))
      decreases retries - attempt
    {
      var o := script(attempt);
      if o.Response? && o.status == RateLimited {
        match RetryAfterSeconds(o.retryAfter)
        case None =>
          return FetchRun(Raised, attempt + 1, sleeps);
        case Some(seconds) =>
          ResumeAfter(attempt, sleeps, seconds, FetchFrom(script, retries, attempt + 1));
          sleeps := sleeps + [seconds];
          attempt := attempt + 1;
      } else if IsClientError(o) {
        if attempt == retries - 1 {
          return FetchRun(Text(""), attempt + 1, sleeps);
        }
        ResumeAfter(attempt, sleeps, Pow2(attempt), FetchFrom(script, retries, attempt + 1));
        sleeps := sleeps + [Pow2(attempt)];
        attempt := attempt + 1;
      } else if o.Response? {
        return FetchRun(Text(o.body), attempt + 1, sleeps);
      } else {
        return FetchRun(Raised, attempt + 1, sleeps);
      }
    }
    assert sleeps + [] == sleeps;
    return FetchRun(Text(""), attempt, sleeps);
  }

  /** At most `retries` requests are made, and at most one sleep follows
      each. */
  lemma {:induction false} AttemptsBounded(script: nat -> Outcome, retries: int, attempt: nat)
    ensures FetchFrom(script, retries, attempt).attempts <= if retries > attempt then retries - attempt else 0
    ensures |FetchFrom(script, retries, attempt).sleeps| <= FetchFrom(script, retries, attempt).attempts
    decreases retries - attempt
  {
    if attempt < retries {
      AttemptsBounded(script, retries, attempt + 1);
    }
  }

  /** When every attempt is retried, all `retries` attempts are made and the
      result is `""`: a 429 uses up an attempt like a client error does. */
  lemma {:induction false} ExhaustedGivesEmpty(script: nat -> Outcome, retries: int, attempt: nat)
    requires forall j :: attempt <= j < retries ==> IsRetried(script(j))
    ensures FetchFrom(script, retries, attempt).result == Text("")
    ensures FetchFrom(script, retries, attempt).attempts == if retries > attempt then retries - attempt else 0
    decreases retries - attempt
  {
    if attempt < retries {
      ExhaustedGivesEmpty(script, retries, attempt + 1);
    }
  }

  /** The first attempt that is not retried decides the result: after any
      number of retried attempts, a successful response gives its body. */
  lemma {:induction false} FirstSuccessReturned(script: nat -> Outcome, retries: int, attempt: nat, k: nat)
    requires attempt <= k < retries
    requires forall j :: attempt <= j < k ==> IsRetried(script(j))
    requires IsSuccess(script(k))
    ensures FetchFrom(script, retries, attempt).result == Text(script(k).body)
    ensures FetchFrom(script, retries, attempt).attempts == k - attempt + 1
    decreases k - attempt
  {
    if attempt < k {
      FirstSuccessReturned(script, retries, attempt + 1, k);
    }
  }

  /** When every attempt fails with a client error, the loop sleeps
      `2 ** attempt` seconds after each attempt but the last. */
  lemma {:induction false} ClientErrorsBackOff(script: nat -> Outcome, retries: int, attempt: nat)
    requires forall j :: attempt <= j < retries ==> IsClientError(script(j))
    ensures var n := if retries > attempt then retries - attempt - 1 else 0;
      FetchFrom(script, retries, attempt).sleeps == seq(n, i requires 0 <= i < n => Pow2(attempt + i))
    decreases retries - attempt
  {
    if attempt < retries - 1 {
      ClientErrorsBackOff(script, retries, attempt + 1);
    }
  }

  /** When every attempt is rate limited without a `Retry-After` header, the
      loop sleeps 60 seconds after each attempt, the last one included, and
      gives `""`. */
  lemma {:induction false} RateLimitWaits(script: nat -> Outcome, retries: int, attempt: nat)
    requires forall j :: attempt <= j < retries ==> script(j).Response? && script(j).status == RateLimited && script(j).retryAfter == None
    ensures var n := if retries > attempt then retries - attempt else 0;
      FetchFrom(script, retries, attempt).sleeps == seq(n, i => DefaultRetryAfter)
    ensures FetchFrom(script, retries, attempt).result == Text("")
    decreases retries - attempt
  {
    if attempt < retries {
      RateLimitWaits(script, retries, attempt + 1);
    }
  }
}
