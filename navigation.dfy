/**
 * The navigation retry policy of `get_page_content`: up to three `goto`
 * attempts with a growing pause after a failed attempt, stopping at the
 * first 200 and accepting the page only when the last response was a 200.
 * The browser is abstracted to what each attempt yields.
 */
module Navigation {

  /** What one `page.goto(...)` gives: an exception, no response, or a response with a status. */
  datatype Attempt = Raised | NoResponse | Status(code: int)

  const MaxRetries: nat := 3

  /** `2000 * (attempt + 1)` milliseconds. */
  function Backoff(attempt: nat): nat {
    2000 * (attempt + 1)
  }

  /** An outcome after which the source pauses before trying again. */
  predicate Retryable(a: Attempt) {
    a.Raised? || a.NoResponse? || (a.Status? && (a.code == 403 || a.code >= 400))
  }

  /** The record of one navigation: the page was accepted, how many attempts were made, the pauses. */
  datatype Run = Run(loaded: bool, tries: nat, waits: seq<nat>)

  /**
   * The retry policy as a recursion over the attempts from `attempt` on:
   * a 200 ends with success, anything else on the last attempt ends with
   * failure, a retryable outcome pauses and tries again, any other status
   * tries again at once.
   */
  function Policy(outcomes: nat -> Attempt, attempt: nat): (r: Run)
    requires attempt < MaxRetries
    decreases MaxRetries - attempt
  {
    var a := outcomes(attempt);
    if a == Status(200) then Run(true, 1, [])
    else if attempt == MaxRetries - 1 then Run(false, 1, [])
    else
      var rest := Policy(outcomes, attempt + 1);
      Run(rest.loaded, rest.tries + 1, (if Retryable(a) then [Backoff(attempt)] else []) + rest.waits)
  }

  /** One attempt that is neither a 200 nor the last: the policy goes on from the next attempt. */
  lemma RetryStep(outcomes: nat -> Attempt, attempt: nat, before: seq<nat>, whole: seq<nat>)
    requires attempt < MaxRetries - 1 && outcomes(attempt) != Status(200)
    requires whole == before + Policy(outcomes, attempt).waits
    ensures var next := Policy(outcomes, attempt + 1);
            && Policy(outcomes, attempt).loaded == next.loaded
            && Policy(outcomes, attempt).tries == next.tries + 1
            && whole == (before + (if Retryable(outcomes(attempt)) then [Backoff(attempt)] else [])) + next.waits
  {
    var pause: seq<nat> := if Retryable(outcomes(attempt)) then [Backoff(attempt)] else [];
    var next := Policy(outcomes, attempt + 1);
    assert Policy(outcomes, attempt).waits == pause + next.waits;
    assert before + (pause + next.waits) == (before + pause) + next.waits;
  }

  /** A 200, or the last attempt: the policy ends here. */
  lemma LastStep(outcomes: nat -> Attempt, attempt: nat, before: seq<nat>, whole: seq<nat>)
    requires attempt < MaxRetries && (attempt == MaxRetries - 1 || outcomes(attempt) == Status(200))
    requires whole == before + Policy(outcomes, attempt).waits
    ensures Policy(outcomes, attempt) == Run(outcomes(attempt) == Status(200), 1, [])
    ensures whole == before
  {
    assert before + [] == before;
  }

  /**
   * The loop of `get_page_content`, with `response` and the `raise` of the
   * last attempt as in the source; `outcomes(k)` is what attempt k yields.
   */
  method NavigateWithRetry(outcomes: nat -> Attempt) returns (loaded: bool, tries: nat, waits: seq<nat>)
    ensures Run(loaded, tries, waits) == Policy(outcomes, 0)
  {
    tries := 0;
    waits := [];
    var response: Attempt := NoResponse;
    var raised := false;
    var attempt := 0;
    var done := false;
    ghost var whole := Policy(outcomes, 0);
    while attempt < MaxRetries && !done
      invariant attempt <= MaxRetries && tries == attempt
      invariant !done ==> && attempt < MaxRetries && !raised
                          && whole.loaded == Policy(outcomes, attempt).loaded
                          && whole.tries == Policy(outcomes, attempt).tries + tries
                          && whole.waits == waits + Policy(outcomes, attempt).waits
      invariant done ==> whole.loaded == (!raised && response == Status(200)) && whole.tries == tries && whole.waits == waits
      decreases MaxRetries - attempt, if done then 0 else 1
    {
      var a := outcomes(attempt);
      tries := tries + 1;
      if a.Raised? {
        if attempt < MaxRetries - 1 {
          RetryStep(outcomes, attempt, waits, whole.waits);
          waits := waits + [Backoff(attempt)];
          attempt := attempt + 1;
        } else {
          LastStep(outcomes, attempt, waits, whole.waits);
          raised := true;
          attempt, done := attempt + 1, true;
        }
      } else {
        response := a;
        if a.NoResponse? || a.code == 403 || a.code >= 400 {
          if attempt < MaxRetries - 1 {
            RetryStep(outcomes, attempt, waits, whole.waits);
            waits := waits + [Backoff(attempt)];
            attempt := attempt + 1;
          } else {
            LastStep(outcomes, attempt, waits, whole.waits);
            attempt, done := attempt + 1, true;
          }
        } else if a.code == 200 {
          LastStep(outcomes, attempt, waits, whole.waits);
          attempt, done := attempt + 1, true;
        } else {
          // any other status falls through to the next attempt, without a pause
          if attempt < MaxRetries - 1 {
            RetryStep(outcomes, attempt, waits, whole.waits);
          } else {
            LastStep(outcomes, attempt, waits, whole.waits);
            done := true;
          }
          attempt := attempt + 1;
        }
      }
    }
    loaded := !raised && response == Status(200);
  }

  /** At least one and at most three attempts are made, and at most two pauses. */
  lemma {:induction false} AttemptsBounded(outcomes: nat -> Attempt, attempt: nat)
    requires attempt < MaxRetries
    ensures 1 <= Policy(outcomes, attempt).tries <= MaxRetries - attempt
    ensures |Policy(outcomes, attempt).waits| < Policy(outcomes, attempt).tries
    decreases MaxRetries - attempt
  {
    if outcomes(attempt) != Status(200) && attempt < MaxRetries - 1 {
      AttemptsBounded(outcomes, attempt + 1);
    }
  }

  /**
   * The page is accepted exactly when the last attempt made answered 200,
   * and every attempt before it did not.
   */
  lemma {:induction false} LoadedIffLast200(outcomes: nat -> Attempt, attempt: nat)
    requires attempt < MaxRetries
    ensures var r := Policy(outcomes, attempt);
            && 1 <= r.tries && attempt + r.tries <= MaxRetries
            && (r.loaded <==> outcomes(attempt + r.tries - 1) == Status(200))
            && forall k :: attempt <= k < attempt + r.tries - 1 ==> outcomes(k) != Status(200)
    decreases MaxRetries - attempt
  {
    if outcomes(attempt) != Status(200) && attempt < MaxRetries - 1 {
      LoadedIffLast200(outcomes, attempt + 1);
    }
  }

  /** The navigation stops at the first 200: that attempt is the last one made. */
  lemma StopsAtFirst200(outcomes: nat -> Attempt, j: nat)
    requires j < MaxRetries && outcomes(j) == Status(200)
    requires forall k :: 0 <= k < j ==> outcomes(k) != Status(200)
    ensures Policy(outcomes, 0).loaded && Policy(outcomes, 0).tries == j + 1
  {
    LoadedIffLast200(outcomes, 0);
  }

  /** Each pause is `2000 * (k + 1)` ms for an attempt k from this one on that was not the last. */
  lemma {:induction false} WaitsAreBackoffs(outcomes: nat -> Attempt, attempt: nat)
    requires attempt < MaxRetries
    ensures var w := Policy(outcomes, attempt).waits;
            forall i :: 0 <= i < |w| ==> exists k :: attempt <= k < MaxRetries - 1 && w[i] == Backoff(k)
    decreases MaxRetries - attempt
  {
    var a := outcomes(attempt);
    if a != Status(200) && attempt < MaxRetries - 1 {
      WaitsAreBackoffs(outcomes, attempt + 1);
      var rest := Policy(outcomes, attempt + 1).waits;
      var w := Policy(outcomes, attempt).waits;
      if Retryable(a) {
        assert w == [Backoff(attempt)] + rest;
        forall i | 0 <= i < |w| ensures exists k :: attempt <= k < MaxRetries - 1 && w[i] == Backoff(k) {
          if i > 0 {
            assert w[i] == rest[i - 1];
          } else {
            assert w[0] == Backoff(attempt);
          }
        }
      } else {
        assert w == rest;
      }
    }
  }

  predicate Increasing(w: seq<nat>) {
    forall i :: 0 < i < |w| ==> w[i - 1] < w[i]
  }

  lemma IncreasingCons(x: nat, rest: seq<nat>)
    requires Increasing(rest) && (rest == [] || x < rest[0])
    ensures Increasing([x] + rest)
  {
    var w := [x] + rest;
    forall i | 0 < i < |w| ensures w[i - 1] < w[i] {
      if i > 1 {
        assert w[i - 1] == rest[i - 2] && w[i] == rest[i - 1];
      }
    }
  }

  /** The pauses grow strictly, the first no less than this attempt's backoff: 2000 then 4000 ms at most. */
  lemma {:induction false} WaitsIncrease(outcomes: nat -> Attempt, attempt: nat)
    requires attempt < MaxRetries
    ensures var w := Policy(outcomes, attempt).waits;
            Increasing(w) && (w == [] || w[0] >= Backoff(attempt))
    decreases MaxRetries - attempt
  {
    var a := outcomes(attempt);
    if a != Status(200) && attempt < MaxRetries - 1 {
      WaitsIncrease(outcomes, attempt + 1);
      var rest := Policy(outcomes, attempt + 1).waits;
      if Retryable(a) {
        assert Policy(outcomes, attempt).waits == [Backoff(attempt)] + rest;
        IncreasingCons(Backoff(attempt), rest);
      } else {
        assert Policy(outcomes, attempt).waits == rest;
      }
    }
  }

  /** Three retryable failures in a row: three attempts, pauses of 2 and 4 seconds, no page. */
  lemma PersistentFailure(outcomes: nat -> Attempt)
    requires forall k :: 0 <= k < MaxRetries ==> Retryable(outcomes(k))
    ensures Policy(outcomes, 0) == Run(false, 3, [2000, 4000])
  {
    assert Retryable(outcomes(0)) && Retryable(outcomes(1)) && Retryable(outcomes(2));
    assert Policy(outcomes, 2) == Run(false, 1, []);
    assert Policy(outcomes, 1) == Run(false, 2, [4000]);
  }

  /** A status other than 200 below 400 (a redirect, say), other than 403, is retried at once. */
  lemma OtherStatusRetriedWithoutPause(outcomes: nat -> Attempt, attempt: nat)
    requires attempt < MaxRetries - 1
    requires outcomes(attempt).Status? && outcomes(attempt).code != 200 && outcomes(attempt).code < 400
    ensures Policy(outcomes, attempt).waits == Policy(outcomes, attempt + 1).waits
    ensures Policy(outcomes, attempt).tries == Policy(outcomes, attempt + 1).tries + 1
  {
    assert !Retryable(outcomes(attempt));
  }
}
