/**
 * The small retry wrapper around the heater service's POST endpoints
 * (`_post_with_retry` in calendar-checker/checker.py).
 *
 * The network is replaced by the sequence of what each attempt would
 * produce, and `asyncio.sleep(1.5 * attempt)` by a recorded delay in
 * milliseconds.
 */
module Retry {
  import opened Wrappers

  /** What one POST attempt produced: a reply with its status and body, or a raised error (connection, timeout). */
  datatype Attempt = Replied(status: int, body: string) | Raised(message: string)

  /** What the wrapper re-raises. */
  datatype PostError =
    | HttpStatus(status: int, excerpt: string)  // status >= 400, with the first 300 characters of the body
    | Transport(message: string)                // the attempt's own error
    | NothingToRaise                            // no attempt ran, so `raise None` fails with a TypeError

  const DefaultTries: int := 2
  const BackoffStepMs: nat := 1500
  const ExcerptLength: nat := 300

  /** An attempt succeeds when the service replied with a status below 400. */
  predicate Succeeds(a: Attempt) {
    a.Replied? && a.status < 400
  }

  /** `text[:300]` */
  function Excerpt(s: string): (e: string)
    ensures |e| <= ExcerptLength && e <= s
    ensures |s| <= ExcerptLength ==> e == s
    ensures |s| > ExcerptLength ==> e == s[..ExcerptLength]
  {
    if |s| <= ExcerptLength then s else s[..ExcerptLength]
  }

  /** The error a failed attempt leaves in `last_err`. */
  function ErrorOf(a: Attempt): PostError
    requires !Succeeds(a)
  {
    match a
    case Replied(status, body) => HttpStatus(status, Excerpt(body))
    case Raised(message) => Transport(message)
  }

  /** The sleeps after the first `n` failed attempts: 1500 ms times the attempt number. */
  function Backoff(n: nat): (d: seq<nat>)
    ensures |d| == n
    ensures forall i :: 0 <= i < n ==> d[i] == BackoffStepMs * (i + 1)
  {
    if n == 0 then [] else Backoff(n - 1) + [BackoffStepMs * n]
  }

  function Sum(s: seq<nat>): nat {
    if s == [] then 0 else Sum(s[..|s| - 1]) + s[|s| - 1]
  }

  /** Total backoff after `n` sleeps is 750 * n * (n + 1) ms; with two tries at most one sleep of 1.5 s. */
  lemma {:induction false} TotalBackoff(n: nat)
    ensures Sum(Backoff(n)) == 750 * n * (n + 1)
  {
    if n > 0 {
      TotalBackoff(n - 1);
      assert Backoff(n)[..n - 1] == Backoff(n - 1);
      assert Sum(Backoff(n)) == 750 * (n - 1) * n + BackoffStepMs * n;
      assert 750 * (n - 1) * n + 1500 * n == 750 * n * (n + 1);
    }
  }

  /** Index of the first successful attempt among the first `n`. */
  function FirstSuccess(replies: seq<Attempt>, n: nat): (k: Option<nat>)
    requires n <= |replies|
    ensures k.Some? ==> k.value < n && Succeeds(replies[k.value])
                        && forall j :: 0 <= j < k.value ==> !Succeeds(replies[j])
    ensures k.None? ==> forall j :: 0 <= j < n ==> !Succeeds(replies[j])
  {
    if n == 0 then None
    else
      match FirstSuccess(replies, n - 1)
      case Some(k) => Some(k)
      case None => if Succeeds(replies[n - 1]) then Some(n - 1) else None
  }

  /** What the wrapper returns or raises, how many attempts it made and what it slept. */
  datatype RetryTrace = RetryTrace(result: Result<string, PostError>, attempts: nat, delaysMs: seq<nat>)

  /** Reference outcome of `_post_with_retry(url, tries=tries)` over the given replies. */
  function Retried(replies: seq<Attempt>, tries: int): RetryTrace
    requires tries <= |replies|
  {
    var n := if tries < 0 then 0 else tries;
    match FirstSuccess(replies, n)
    case Some(k) => RetryTrace(Success(replies[k].body), k + 1, Backoff(k))
    case None =>
      if n == 0 then RetryTrace(Failure(NothingToRaise), 0, [])
      else RetryTrace(Failure(ErrorOf(replies[n - 1])), n, Backoff(n - 1))
  }

  /**
   * At most `tries` attempts; the body of the first success is returned; a
   * status of 400 or more counts as a failure; a sleep of 1500 ms times the
   * attempt number follows every failed attempt but the last; when every
   * attempt fails the last error is raised.
   */
  lemma RetriedMeaning(replies: seq<Attempt>, tries: int)
    requires tries <= |replies|
    ensures var t := Retried(replies, tries);
      && t.attempts <= (if tries < 0 then 0 else tries)
      && (t.result.Success? <==> exists k :: 0 <= k < tries && Succeeds(replies[k]))
      && (t.result.Success? ==>
            && 1 <= t.attempts && Succeeds(replies[t.attempts - 1])
            && t.result.value == replies[t.attempts - 1].body
            && forall j :: 0 <= j < t.attempts - 1 ==> !Succeeds(replies[j]))
      && (t.result.Failure? && tries >= 1 ==>
            t.attempts == tries && t.result.error == ErrorOf(replies[tries - 1]))
      && (t.result.Failure? && tries < 1 ==> t.result.error == NothingToRaise)
      && (t.attempts >= 1 ==> t.delaysMs == Backoff(t.attempts - 1))
  {
  }

  /** With the default two tries and both attempts failing, the total backoff is exactly 1.5 s. */
  lemma TwoFailedTriesSleepOnce(replies: seq<Attempt>)
    requires 2 <= |replies| && !Succeeds(replies[0]) && !Succeeds(replies[1])
    ensures Retried(replies, DefaultTries).delaysMs == [1500]
    ensures Sum(Retried(replies, DefaultTries).delaysMs) == 1500
    ensures Retried(replies, DefaultTries).result == Failure(ErrorOf(replies[1]))
  {
    assert Backoff(1) == [1500];
    assert Sum([1500]) == Sum([]) + 1500;
  }

  /** The loop of `_post_with_retry`: attempt counter, last error, sleeps between attempts. */
  method PostWithRetry(replies: seq<Attempt>, tries: int) returns (r: Result<string, PostError>, attempts: nat, delaysMs: seq<nat>)
    requires tries <= |replies|
    ensures RetryTrace(r, attempts, delaysMs) == Retried(replies, tries)
  {
    var lastErr: Option<PostError> := None;
    delaysMs := [];
    var attempt := 1;
    var n := if tries < 0 then 0 else tries;
    while attempt <= tries
      invariant 1 <= attempt <= n + 1
      invariant FirstSuccess(replies, attempt - 1).None?
      invariant attempt == 1 ==> lastErr.None? && delaysMs == []
      invariant attempt >= 2 ==> lastErr == Some(ErrorOf(replies[attempt - 2]))
      invariant attempt >= 2 ==> delaysMs == Backoff(if attempt <= tries then attempt - 1 else attempt - 2)
    {
      var a := replies[attempt - 1];
      if a.Replied? && a.status < 400 {
        return Success(a.body), attempt, delaysMs;
      }
      lastErr := Some(ErrorOf(a));
      if attempt < tries {
        delaysMs := delaysMs + [BackoffStepMs * attempt];
      }
      attempt := attempt + 1;
    }
    attempts := attempt - 1;
    r := if lastErr.Some? then Failure(lastErr.value) else Failure(NothingToRaise);
  }
}
