/** `safe_upload` (main.py:191-201): up to `retries` calls of the upload,
    retrying only when the call raises an HttpError whose message reports
    a rate limit. What each attempt does is abstract: `attempt(i)` is how
    the i-th call (counting from 0) ends. The ten-second pause between
    attempts is not modelled. */
module Retry {
  import opened Text

  /** How one call of `upload_to_sheet` ends: it returns, it raises an
      HttpError with the given message, or it raises some other exception. */
  datatype Outcome = Returned | HttpErrorRaised(message: string) | OtherRaised

  /** How `safe_upload` ends, with the number of calls it made: it returned
      after a call returned, it returned after using up its attempts, or
      it let the exception of the last call propagate. */
  datatype Upshot = Uploaded(calls: nat) | GaveUp(calls: nat) | Raised(calls: nat, error: Outcome)

  /** The default of the `retries` parameter. */
  const DefaultRetries := 3

  /** The test of the `except HttpError` branch: the message names the
      rate limit or the quota. */
  predicate IsRateLimit(message: string) {
    Contains(message, "RATE_LIMIT_EXCEEDED") || Contains(message, "Quota exceeded")
  }

  /** The outcomes after which the loop tries again. */
  predicate Retries(o: Outcome) {
    o.HttpErrorRaised? && IsRateLimit(o.message)
  }

  /** The loop from attempt `i` on. */
  function RetryFrom(attempt: nat -> Outcome, i: nat, retries: nat): (u: Upshot)
    requires i <= retries
    requires forall j :: 0 <= j < i ==> Retries(attempt(j))
    ensures i <= u.calls <= retries
    ensures forall j :: 0 <= j < u.calls - 1 ==> Retries(attempt(j))
    ensures u.Uploaded? ==> u.calls > 0 && attempt(u.calls - 1) == Returned
    ensures u.Raised? ==> u.calls > 0 && u.error == attempt(u.calls - 1) && !Retries(u.error) && u.error != Returned
    ensures u.GaveUp? ==> u.calls == retries && forall j :: 0 <= j < retries ==> Retries(attempt(j))
    decreases retries - i
  {
    if i == retries then GaveUp(retries)
    else
      match attempt(i)
      case Returned => Uploaded(i + 1)
      case OtherRaised => Raised(i + 1, OtherRaised)
      case HttpErrorRaised(m) =>
        if IsRateLimit(m) then RetryFrom(attempt, i + 1, retries)
        else Raised(i + 1, HttpErrorRaised(m))
  }

  /** `safe_upload(..., retries)`. At most `retries` calls are made; every
      call but the last raised a rate-limit error; the loop returns right
      after a call that returns, re-raises any other error at once, and
      returns without raising once every attempt hit the rate limit. */
  function SafeUpload(attempt: nat -> Outcome, retries: nat): (u: Upshot)
    ensures u.calls <= retries
    ensures forall j :: 0 <= j < u.calls - 1 ==> Retries(attempt(j))
    ensures u.Uploaded? ==> u.calls > 0 && attempt(u.calls - 1) == Returned
    ensures u.Raised? ==> u.calls > 0 && u.error == attempt(u.calls - 1) && !Retries(u.error) && u.error != Returned
    ensures u.GaveUp? ==> u.calls == retries && forall j :: 0 <= j < retries ==> Retries(attempt(j))
  {
    RetryFrom(attempt, 0, retries)
  }

  /** The independent reading: the first attempt that is not a rate-limit
      error decides, and it is the last attempt made. */
  lemma FirstDecisiveAttempt(attempt: nat -> Outcome, retries: nat, k: nat)
    requires k < retries
    requires forall j :: 0 <= j < k ==> Retries(attempt(j))
    requires !Retries(attempt(k))
    ensures SafeUpload(attempt, retries) ==
              if attempt(k) == Returned then Uploaded(k + 1) else Raised(k + 1, attempt(k))
  {
  }

  /** When every attempt hits the rate limit, all of them are used up and
      nothing is raised. */
  lemma AllRateLimited(attempt: nat -> Outcome, retries: nat)
    requires forall j :: 0 <= j < retries ==> Retries(attempt(j))
    ensures SafeUpload(attempt, retries) == GaveUp(retries)
  {
  }

  /** `upload_to_sheet` catches every exception itself, so with it as the
      callee the first call returns and `safe_upload` makes exactly one
      call, whatever the retry budget (as long as it is at least one). */
  lemma RealCalleeCalledOnce(retries: nat)
    requires retries >= 1
    ensures SafeUpload(_ => Returned, retries) == Uploaded(1)
  {
    FirstDecisiveAttempt(_ => Returned, retries, 0);
  }

  /** With a budget of zero nothing is attempted at all. */
  lemma NoBudgetNoCall(attempt: nat -> Outcome)
    ensures SafeUpload(attempt, 0) == GaveUp(0)
  {
  }

  /** Example error messages. */
  const LimitedMessage := "429 RATE_LIMIT_EXCEEDED"
  const QuotaMessage := "Quota exceeded"
  const NotFoundMessage := "404 not found"

  /** The first two messages report a rate limit; the third does not. */
  lemma MessageKinds()
    ensures IsRateLimit(LimitedMessage)
    ensures IsRateLimit(QuotaMessage)
    ensures !IsRateLimit(NotFoundMessage)
  {
    LimitedIsRateLimit();
    QuotaIsRateLimit();
    NotFoundIsOther();
  }

  lemma LimitedIsRateLimit()
    ensures IsRateLimit(LimitedMessage)
  {
    assert LimitedMessage[4..23] == "RATE_LIMIT_EXCEEDED";
    ContainsAt(LimitedMessage, "RATE_LIMIT_EXCEEDED", 4);
  }

  lemma QuotaIsRateLimit()
    ensures IsRateLimit(QuotaMessage)
  {
    ContainsAt(QuotaMessage, "Quota exceeded", 0);
  }

  lemma NotFoundIsOther()
    ensures !IsRateLimit(NotFoundMessage)
  {
    LongerNotContained(NotFoundMessage, "RATE_LIMIT_EXCEEDED");
    LongerNotContained(NotFoundMessage, "Quota exceeded");
  }

  /** `k` rate-limit errors followed by success, within the budget, make
      `k + 1` calls. */
  lemma LimitsThenSuccess(message: string, k: nat, retries: nat)
    requires IsRateLimit(message) && k < retries
    ensures SafeUpload(i => if i < k then HttpErrorRaised(message) else Returned, retries) == Uploaded(k + 1)
  {
    FirstDecisiveAttempt(i => if i < k then HttpErrorRaised(message) else Returned, retries, k);
  }

  /** With the default budget, two rate-limit errors and then success make
      three calls. */
  lemma TwoLimitsThenSuccess()
    ensures SafeUpload(i => if i < 2 then HttpErrorRaised(LimitedMessage) else Returned, DefaultRetries) == Uploaded(3)
  {
    LimitedIsRateLimit();
    LimitsThenSuccess(LimitedMessage, 2, DefaultRetries);
  }

  /** Any other HttpError on the first call is raised at once. */
  lemma OtherErrorRaisedAtOnce()
    ensures SafeUpload(_ => HttpErrorRaised(NotFoundMessage), DefaultRetries) == Raised(1, HttpErrorRaised(NotFoundMessage))
  {
    NotFoundIsOther();
    FirstDecisiveAttempt(_ => HttpErrorRaised(NotFoundMessage), DefaultRetries, 0);
  }

  /** Three quota errors in a row give up without raising. */
  lemma QuotaExhausted()
    ensures SafeUpload(_ => HttpErrorRaised(QuotaMessage), DefaultRetries) == GaveUp(3)
  {
    QuotaIsRateLimit();
    SameLimitThroughout(QuotaMessage, DefaultRetries);
  }

  /** The same rate-limit message on every call uses up the budget. */
  lemma SameLimitThroughout(message: string, retries: nat)
    requires IsRateLimit(message)
    ensures SafeUpload(_ => HttpErrorRaised(message), retries) == GaveUp(retries)
  {
    AllRateLimited(_ => HttpErrorRaised(message), retries);
  }
}
