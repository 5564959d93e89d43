/**
 * The attempt loop of `fetch_ptt_page_with_retry` (utils.py). One attempt is
 * an abstract outcome: `Some(response)` when the request succeeded and its
 * status check passed, `None` when it raised a request error. The headers,
 * the age-gate cookie and the sleeps themselves are not modelled; what is
 * kept of the sleeps is which delay precedes each attempt.
 */
module Retry {
  import opened Wrappers

  /** Listing pages are fetched with the default of three attempts. */
  const ListingRetries: int := 3

  /** Article pages are fetched with two attempts. */
  const ArticleRetries: int := 2

  /**
   * The delay slept before an attempt: before the first one a random
   * 0.5 to 1.5 second pause; before attempt `k > 0` a backoff of `2^k`
   * seconds plus a random jitter below one second (only the base is kept).
   */
  datatype Delay = FirstRequestPause | Backoff(baseSeconds: nat)

  function Pow2(k: nat): (p: nat)
    ensures p >= 1
  {
    if k == 0 then 1 else 2 * Pow2(k - 1)
  }

  function DelayBefore(attempt: nat): Delay
  {
    if attempt > 0 then Backoff(Pow2(attempt)) else FirstRequestPause
  }

  /** The backoff base strictly grows with the attempt number. */
  lemma {:induction false} BackoffIncreasing(j: nat, k: nat)
    requires 0 < j < k
    ensures DelayBefore(j).baseSeconds < DelayBefore(k).baseSeconds
    decreases k
  {
    if j < k - 1 {
      BackoffIncreasing(j, k - 1);
    }
  }

  /** Each backoff's base is twice the previous one's; the jitter added to it is not modelled. */
  lemma BackoffDoubles(k: nat)
    requires k > 0
    ensures DelayBefore(k + 1).baseSeconds == 2 * DelayBefore(k).baseSeconds
  {
  }

  /** The number of attempts that can be made: `range(max_retries)` is empty when it is not positive. */
  function AttemptBudget(maxRetries: int): nat
  {
    if maxRetries > 0 then maxRetries else 0
  }

  /** Attempt `k` is the first one that succeeds. */
  ghost predicate FirstSuccess<R>(attempt: nat -> Option<R>, k: nat)
  {
    attempt(k).Some? && forall j :: 0 <= j < k ==> attempt(j).None?
  }

  /** The outcome of the loop started at attempt `from`: the first success before the budget, if any. */
  function RetryFrom<R>(attempt: nat -> Option<R>, from: nat, budget: nat): (r: Option<R>)
    decreases budget - from
  {
    if from >= budget then None
    else if attempt(from).Some? then attempt(from)
    else RetryFrom(attempt, from + 1, budget)
  }

  /** What `fetch_ptt_page_with_retry(url, max_retries)` returns, given each attempt's outcome. */
  function RetryResult<R>(attempt: nat -> Option<R>, maxRetries: int): Option<R>
  {
    RetryFrom(attempt, 0, AttemptBudget(maxRetries))
  }

  /**
   * The result is the response of the first successful attempt within the
   * budget, and `None` exactly when every attempt within the budget fails.
   */
  lemma {:induction false} RetryFromCharacterized<R>(attempt: nat -> Option<R>, from: nat, budget: nat)
    requires forall j :: 0 <= j < from ==> attempt(j).None?
    ensures RetryFrom(attempt, from, budget).None? <==> forall j :: 0 <= j < budget ==> attempt(j).None?
    ensures RetryFrom(attempt, from, budget).Some? ==>
      exists k :: 0 <= k < budget && FirstSuccess(attempt, k) && RetryFrom(attempt, from, budget) == attempt(k)
    decreases budget - from
  {
    if from < budget {
      if attempt(from).Some? {
        assert FirstSuccess(attempt, from);
      } else {
        RetryFromCharacterized(attempt, from + 1, budget);
      }
    }
  }

  lemma RetryResultCharacterized<R>(attempt: nat -> Option<R>, maxRetries: int)
    ensures RetryResult(attempt, maxRetries).None? <==>
      forall j :: 0 <= j < maxRetries ==> attempt(j).None?
    ensures RetryResult(attempt, maxRetries).Some? ==>
      exists k :: 0 <= k < maxRetries && FirstSuccess(attempt, k) && RetryResult(attempt, maxRetries) == attempt(k)
  {
    RetryFromCharacterized(attempt, 0, AttemptBudget(maxRetries));
  }

  /** With no budget no attempt is made and nothing is returned. */
  lemma NoBudgetNoResponse<R>(attempt: nat -> Option<R>, maxRetries: int)
    requires maxRetries <= 0
    ensures RetryResult(attempt, maxRetries) == None
  {
  }

  /**
   * The attempt loop. `made` is the number of attempts performed and
   * `delays[k]` the delay slept before attempt `k`.
   */
  method FetchWithRetry<R>(attempt: nat -> Option<R>, maxRetries: int)
    returns (response: Option<R>, made: nat, delays: seq<Delay>)
    ensures response == RetryResult(attempt, maxRetries)
    ensures made <= AttemptBudget(maxRetries)
    ensures |delays| == made && forall k :: 0 <= k < made ==> delays[k] == DelayBefore(k)
    ensures forall k :: 0 <= k < made - 1 ==> attempt(k).None?
    ensures response.Some? ==> made >= 1 && response == attempt(made - 1)
    ensures response.None? ==> made == AttemptBudget(maxRetries) && forall k :: 0 <= k < made ==> attempt(k).None?
  {
    var budget := AttemptBudget(maxRetries);
    made := 0;
    delays := [];
    while made < budget
      invariant made <= budget
      invariant |delays| == made && forall k :: 0 <= k < made ==> delays[k] == DelayBefore(k)
      invariant forall k :: 0 <= k < made ==> attempt(k).None?
      invariant RetryFrom(attempt, made, budget) == RetryResult(attempt, maxRetries)
    {
      delays := delays + [DelayBefore(made)];
      var outcome := attempt(made);
      made := made + 1;
      if outcome.Some? {
        return outcome, made, delays;
      }
    }
    return None, made, delays;
  }
}
