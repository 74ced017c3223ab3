/**
 The retry loop around every operation on a connection, with its waits in milliseconds. The runs
 of the loop are driven by what happens around each attempt.
 */
module Retries {
  import opened Outcomes
  import C = Connections

  /** How one attempt goes: whether the context has ended before it, what the operation returns, whether the context has
      ended by then, the random wait that was drawn, and whether the context ends during the wait. `retryAfter` is what
      the server asked for, 0 if nothing. */
  datatype Attempt = Attempt(endedBefore: bool, outcome: Result<nat, C.Error>, retryAfter: nat, endedAfter: bool,
                             drawn: nat, endedInPause: bool)

  datatype Verdict = Returned(value: nat) | GaveUp(error: C.Error) | ContextEnded | StillTrying

  /** The wait before jitter: it doubles from 250 milliseconds and stops at ten seconds. */
  function Backoff(attempt: nat): nat {
    var doublings := if attempt < 6 then attempt else 6;
    var wait := 250 * Power(doublings);
    if wait < 10000 then wait else 10000
  }

  function Power(n: nat): (p: nat)
    ensures p > 0
  {
    if n == 0 then 1 else 2 * Power(n - 1)
  }

  /** The jitter keeps the drawn wait within a fifth of the backoff. */
  predicate Drawable(attempt: nat, drawn: nat) {
    Backoff(attempt) * 4 <= drawn * 5 && drawn * 5 <= Backoff(attempt) * 6
  }

  function Wait(a: Attempt): nat {
    if a.outcome.Failure? && a.outcome.error.Receiver? && a.retryAfter > a.drawn then a.retryAfter else a.drawn
  }

  /** The attempt ends the loop, and how. */
  function Ends(a: Attempt): Option<Verdict> {
    if a.endedBefore then Some(ContextEnded)
    else if a.outcome.Success? then Some(Returned(a.outcome.value))
    else if a.endedAfter then Some(ContextEnded)
    else if !C.Retryable(a.outcome.error) then Some(GaveUp(a.outcome.error))
    else if a.endedInPause then Some(ContextEnded)
    else None
  }

  ghost predicate WellDrawn(script: seq<Attempt>) {
    forall k :: 0 <= k < |script| ==> Drawable(k, script[k].drawn)
  }

  /** `retryEvent`: every attempt before the last failed with an error worth retrying; the loop ends with the first
      success, the first error that is not, or the context. Between two attempts it waits for what the server asked,
      and never less than four fifths of the backoff. */
  method RetryEvent(script: seq<Attempt>) returns (verdict: Verdict, attempts: nat, waits: seq<nat>)
    requires WellDrawn(script)
    ensures attempts <= |script|
    ensures verdict == StillTrying ==> attempts == |script|
    ensures verdict != StillTrying ==> attempts > 0 && Ends(script[attempts - 1]) == Some(verdict)
    ensures forall k :: 0 <= k < attempts && (k < attempts - 1 || verdict == StillTrying) ==>
              !script[k].endedBefore && script[k].outcome.Failure? && C.Retryable(script[k].outcome.error)
    ensures |waits| == (if verdict == StillTrying then attempts else attempts - 1)
    ensures forall k :: 0 <= k < |waits| ==> waits[k] * 5 >= Backoff(k) * 4 && waits[k] == Wait(script[k])
  {
    attempts, waits := 0, [];
    while attempts < |script|
      invariant attempts <= |script| && |waits| == attempts
      invariant forall k :: 0 <= k < attempts ==>
                  !script[k].endedBefore && script[k].outcome.Failure? && C.Retryable(script[k].outcome.error)
      invariant forall k :: 0 <= k < |waits| ==> waits[k] * 5 >= Backoff(k) * 4 && waits[k] == Wait(script[k])
    {
      var a := script[attempts];
      attempts := attempts + 1;
      if a.endedBefore {
        return ContextEnded, attempts, waits;
      }
      if a.outcome.Success? {
        return Returned(a.outcome.value), attempts, waits;
      }
      if a.endedAfter {
        return ContextEnded, attempts, waits;
      }
      assert Drawable(attempts - 1, a.drawn);
      var delay := a.drawn;
      match a.outcome.error {
        case Transport =>
        case Receiver(code, status) =>
          if code in ["unsupported", "invalid_response", "pull_unavailable", "subscription_unavailable"]
             || !(status == 0 || status == 408 || status == 429 || status >= 500) {
            return GaveUp(a.outcome.error), attempts, waits;
          }
          if delay < a.retryAfter {
            delay := a.retryAfter;
          }
      }
      if a.endedInPause {
        return ContextEnded, attempts, waits;
      }
      waits := waits + [delay];
    }
    verdict := StillTrying;
  }

  /** What is final: never an error of the transport, but what the server answers with one of four codes, or with a
      status below 500 other than 408 and 429. */
  lemma FinalExactly(e: C.Error)
    ensures !C.Retryable(e) <==>
              && e.Receiver?
              && (|| e.code == "unsupported" || e.code == "invalid_response"
                  || e.code == "pull_unavailable" || e.code == "subscription_unavailable"
                  || e.status < 0 || (0 < e.status < 500 && e.status != 408 && e.status != 429))
  {
  }

  /** How one attempt decides the loop, told by what happened around it. */
  lemma EndsExactly(a: Attempt)
    ensures forall value: nat :: Ends(a) == Some(Returned(value)) <==> !a.endedBefore && a.outcome == Success(value)
    ensures forall e :: Ends(a) == Some(GaveUp(e)) <==>
                          !a.endedBefore && !a.endedAfter && a.outcome == Failure(e) && !C.Retryable(e)
    ensures Ends(a) == Some(ContextEnded) <==>
              || a.endedBefore
              || (a.outcome.Failure? && (a.endedAfter || (C.Retryable(a.outcome.error) && a.endedInPause)))
    ensures Ends(a) != Some(StillTrying)
    ensures Ends(a).None? ==> Wait(a) >= a.drawn
    ensures a.outcome.Failure? ==>
              && (a.outcome.error.Transport? ==> Wait(a) == a.drawn)
              && (a.outcome.error.Receiver? ==> Wait(a) >= a.retryAfter && Wait(a) in {a.drawn, a.retryAfter})
  {
    hide C.Retryable;
  }

  /** The backoff starts at a quarter of a second and doubles five times; after that it is ten seconds. */
  lemma BackoffDoubles(attempt: nat)
    ensures Backoff(0) == 250
    ensures attempt < 5 ==> Backoff(attempt + 1) == 2 * Backoff(attempt)
    ensures attempt >= 6 ==> Backoff(attempt) == 10000
  {
    assert Power(2) == 4 && Power(4) == 16 && Power(6) == 64;
  }

  /** The backoff grows with the attempts and is ten seconds from the seventh wait on. */
  lemma BackoffGrows(attempt: nat, later: nat)
    requires attempt <= later
    ensures 250 <= Backoff(attempt) <= Backoff(later) <= 10000
    ensures attempt >= 6 ==> Backoff(attempt) == 10000
  {
    PowersGrow(if attempt < 6 then attempt else 6, if later < 6 then later else 6);
    assert Power(2) == 4 && Power(4) == 16 && Power(6) == 64;
  }

  lemma {:induction false} PowersGrow(n: nat, m: nat)
    requires n <= m
    ensures Power(n) <= Power(m)
  {
    if n < m {
      PowersGrow(n, m - 1);
    }
  }

  /** The two errors with which `exchange` leaves its socket open always end the loop. */
  lemma UpdateErrorsEnd(a: Attempt)
    requires !a.endedBefore && !a.endedAfter && a.outcome in {Failure(C.INVALID_RESPONSE), Failure(C.EVENT_GAP)}
    ensures Ends(a) == Some(GaveUp(a.outcome.error))
  {
  }
}
