// connect_to_endpoints: how one attempt is judged, what the retry loop reports, and when the
// report agrees with the connection that was really made.
module Connect {
  import opened Kernel

  predicate Consistent(a: Attempt) {
    (a.ready < 0 <==> a.poll != Ok) && (!a.optionRead ==> a.option != Ok)
  }

  predicate InFlight(a: Attempt) {
    a.open == Ok && (a.connect == InProgress || a.connect == WouldBlock)
  }

  datatype Verdict = Retry(error: Error) | Stop(error: Error)

  function Judge(a: Attempt): Verdict {
    if a.open != Ok then Retry(a.open)
    else if a.connect == Ok then Stop(Ok)
    else if !InFlight(a) then Retry(a.connect)
    else if a.ready < 0 then Retry(a.poll)
    else if !a.optionRead then Stop(a.option)
    else if a.pending == Ok then Stop(Ok)
    else Retry(a.pending)
  }

  // Endpoints are tried in order, none of them after the expiry.
  predicate InOrder(endpoints: seq<Endpoint>, tried: seq<Attempt>, expiry: int) {
    && |tried| <= |endpoints|
    && forall i :: 0 <= i < |tried| ==>
         Consistent(tried[i]) && tried[i].endpoint == endpoints[i] && tried[i].clock <= expiry
  }

  predicate AllFailed(tried: seq<Attempt>) {
    forall i :: 0 <= i < |tried| ==> Judge(tried[i]).Retry?
  }

  // The error left by the endpoints passed over.
  function LeftOver(tried: seq<Attempt>): Error
    requires AllFailed(tried)
  {
    if tried == [] then NotFound else Judge(Last(tried)).error
  }

  // What the loop may report, starting without an error: every endpoint failed; or the time ran out
  // before the next one; or the last one tried settled it.
  predicate Outcome(endpoints: seq<Endpoint>, tried: seq<Attempt>, expiry: int, expired: bool, ec: Error) {
    && InOrder(endpoints, tried, expiry)
    && if expired then
         |tried| < |endpoints| && AllFailed(tried) && ec == TimedOut
       else
         || (|tried| == |endpoints| && AllFailed(tried) && ec == LeftOver(tried))
         || (tried != [] && AllFailed(tried[..|tried| - 1]) && Judge(Last(tried)) == Stop(ec))
  }

  // The kernel holds a connection: connect finished, or poll saw it become ready without an error.
  predicate Established(a: Attempt) {
    a.open == Ok && (a.connect == Ok || (InFlight(a) && a.ready > 0 && a.optionRead && a.pending == Ok))
  }

  // poll_connect returned 0: the wait ran out with the connection still being made.
  predicate WaitRanOut(a: Attempt) {
    InFlight(a) && a.ready == 0 && a.optionRead && a.pending == Ok
  }

  // The system refused: the attempt failed, in one of the four ways an attempt can fail.
  predicate Refused(a: Attempt) {
    || a.open != Ok
    || (a.connect != Ok && a.connect != InProgress && a.connect != WouldBlock)
    || (InFlight(a) && a.ready < 0)
    || (InFlight(a) && a.ready >= 0 && a.optionRead && a.pending != Ok)
  }

  // The connection was being made, and how it went could not be read.
  predicate Unreadable(a: Attempt) {
    InFlight(a) && a.ready >= 0 && !a.optionRead
  }

  // The error is the answer of the last call that was made for the attempt.
  predicate AnsweredBy(a: Attempt, ec: Error) {
    if a.open != Ok then ec == a.open
    else if a.connect != InProgress && a.connect != WouldBlock then ec == a.connect
    else if a.ready < 0 then ec == a.poll
    else if !a.optionRead then ec == a.option
    else ec == a.pending
  }

  // What the loop does, told by the system's answers alone: every attempt but the last was refused,
  // and a refused attempt is followed by the next endpoint, unless there is none or the time is up.
  // The loop ends early only with a connection, with one whose wait ran out, or with one whose state
  // could not be read; and the error it leaves is the answer of the last call it made.
  lemma RefusedMeansNext(endpoints: seq<Endpoint>, tried: seq<Attempt>, expiry: int, expired: bool, ec: Error)
    requires Outcome(endpoints, tried, expiry, expired, ec)
    ensures forall i :: 0 <= i < |tried| - 1 ==> Refused(tried[i])
    ensures !expired && |tried| < |endpoints| ==>
              tried != [] && (Established(Last(tried)) || WaitRanOut(Last(tried)) || Unreadable(Last(tried)))
    ensures expired ==> ec == TimedOut && |tried| < |endpoints| && (tried != [] ==> Refused(Last(tried)))
    ensures !expired && tried == [] ==> endpoints == [] && ec == NotFound
    ensures !expired && tried != [] ==> AnsweredBy(Last(tried), ec)
    ensures forall i :: 0 <= i < |tried| ==> tried[i].endpoint == endpoints[i] && tried[i].clock <= expiry
  {
    assert forall i :: 0 <= i < |tried| - 1 ==> tried[..|tried| - 1][i] == tried[i];
    forall i | 0 <= i < |tried|
      ensures Judge(tried[i]).Retry? <==> Refused(tried[i])
    {
      RetryIffRefused(tried[i]);
    }
    if tried != [] {
      RetryIffRefused(Last(tried));
    }
  }

  lemma RetryIffRefused(a: Attempt)
    requires Consistent(a)
    ensures Judge(a).Retry? <==> Refused(a)
    ensures AnsweredBy(a, Judge(a).error)
    ensures Judge(a).Stop? <==> Established(a) || WaitRanOut(a) || Unreadable(a)
  {
  }

  lemma OkMeansRealUnlessRanOut(a: Attempt)
    requires Consistent(a)
    ensures Judge(a) == Stop(Ok) <==> Established(a) || WaitRanOut(a)
    ensures Judge(a).Retry? ==> Judge(a).error != Ok
  {
  }

  // The loop can neither stop earlier nor go further than it does: of two outcomes whose answers
  // agree as far as both go, neither cut short by the expiry, both tried the same and report the same.
  lemma OutcomeUnique(endpoints: seq<Endpoint>, tried: seq<Attempt>, tried': seq<Attempt>, expiry: int,
                      ec: Error, ec': Error)
    requires Outcome(endpoints, tried, expiry, false, ec) && Outcome(endpoints, tried', expiry, false, ec')
    requires tried <= tried'
    ensures tried == tried' && ec == ec'
  {
    assert forall i :: 0 <= i < |tried'| - 1 ==> tried'[..|tried'| - 1][i] == tried'[i];
  }

  // The error is clear exactly when some endpoint was judged connected after only failures before
  // it, and that endpoint is the last one tried.
  lemma ClearIffFirstSuccess(endpoints: seq<Endpoint>, tried: seq<Attempt>, expiry: int, expired: bool, ec: Error)
    requires Outcome(endpoints, tried, expiry, expired, ec)
    ensures ec == Ok <==> tried != [] && Judge(Last(tried)) == Stop(Ok)
    ensures ec == Ok <==> exists k :: 0 <= k < |tried| && Judge(tried[k]) == Stop(Ok) && AllFailed(tried[..k])
  {
    if tried != [] {
      var n := |tried| - 1;
      assert forall k :: 0 <= k < n ==> tried[..n][k] == tried[k];
      assert AllFailed(tried) ==> Judge(tried[n]).Retry?;
    }
  }

  // A clear error means a connection, and a connection a clear error, exactly when no wait ran
  // out on the deciding endpoint: a poll timeout leaves SO_ERROR at 0, and that is taken for success.
  lemma ClearMeansConnectedUnlessWaitRanOut(endpoints: seq<Endpoint>, tried: seq<Attempt>, expiry: int,
                                            expired: bool, ec: Error)
    requires Outcome(endpoints, tried, expiry, expired, ec)
    ensures (ec == Ok <==> tried != [] && Established(Last(tried))) <==> !(tried != [] && WaitRanOut(Last(tried)))
    ensures forall i :: 0 <= i < |tried| - 1 ==> !Established(tried[i])
  {
    ClearIffFirstSuccess(endpoints, tried, expiry, expired, ec);
    forall i | 0 <= i < |tried| - 1
      ensures !Established(tried[i])
    {
      assert AllFailed(tried[..|tried| - 1]) ==> Judge(tried[..|tried| - 1][i]).Retry?;
      assert AllFailed(tried) ==> Judge(tried[i]).Retry?;
    }
  }

  // One endpoint that never answers: the wait runs out and success is reported.
  lemma WaitRunningOutReportsSuccess(e: Endpoint)
    ensures exists a :: Outcome([e], [a], 10, false, Ok) && !Established(a)
  {
    var a := Attempt(e, 0, Ok, InProgress, 0, Ok, true, Ok, Ok);
    assert [a][..0] == [] && Last([a]) == a && [a][0] == a;
    assert Outcome([e], [a], 10, false, Ok) && !Established(a);
  }
}
