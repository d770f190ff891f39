/**
 Sequences of login requests replayed through the handler, and what the
 attempt map and the responses are after them. The count kept for an email is
 characterised by `IsStreak`: the length of the trailing run of that email's
 failures in which each failure is within the window of the previous one.
 */
module LoginPolicy {
  import opened AuthenticationService
  import opened AuthenticationController

  /** One login request: credentials and the instant it is handled. */
  datatype Try = Try(email: string, password: string, at: int)

  /** The responses to a sequence of requests, in order, and the final attempt map. */
  datatype Replay = Replay(responses: seq<Response>, attempts: LoginAttempts)

  /** Handles the requests one after another, starting from the attempt map `m`. */
  function Run(env: Env, m: LoginAttempts, tries: seq<Try>): (r: Replay)
    ensures |r.responses| == |tries|
    decreases |tries|
  {
    if |tries| == 0 then Replay([], m)
    else
      var prev := Run(env, m, tries[..|tries| - 1]);
      var t := tries[|tries| - 1];
      var out := Login(env, prev.attempts, t.email, t.password, t.at);
      Replay(prev.responses + [out.response], out.attempts)
  }

  /** The instants of the failed requests for `email`, in order. */
  function FailTimes(env: Env, tries: seq<Try>, email: string): (ts: seq<int>)
    decreases |tries|
  {
    if |tries| == 0 then []
    else
      var t := tries[|tries| - 1];
      FailTimes(env, tries[..|tries| - 1], email)
        + (if t.email == email && !CredentialsValid(env, t.email, t.password) then [t.at] else [])
  }

  /**
   `k` is the length of the trailing run of `ts`: each of its last `k` instants
   after the first is within the window of its predecessor, and the instant before
   them, if any, is not.
   */
  ghost predicate IsStreak(ts: seq<int>, k: int)
  {
    && 1 <= k <= |ts|
    && (forall i :: |ts| - k < i < |ts| ==> WithinWindow(ts[i - 1], ts[i]))
    && (k < |ts| ==> !WithinWindow(ts[|ts| - k - 1], ts[|ts| - k]))
  }

  /** The trailing-run length, computed from the end backwards (0 for no failures). */
  function Streak(ts: seq<int>): (k: nat)
    ensures |ts| == 0 ==> k == 0
    ensures |ts| > 0 ==> IsStreak(ts, k)
    decreases |ts|
  {
    if |ts| <= 1 then |ts|
    else if !WithinWindow(ts[|ts| - 2], ts[|ts| - 1]) then 1
    else
      var pre := ts[..|ts| - 1];
      var k := Streak(pre);
      assert forall i :: 0 <= i < |pre| ==> pre[i] == ts[i];
      k + 1
  }

  /** A sequence of instants has only one trailing-run length, the one `Streak` computes. */
  lemma StreakUnique(ts: seq<int>, k: int)
    requires IsStreak(ts, k)
    ensures k == Streak(ts)
  {
  }

  /** A failure within the window of the previous one lengthens the run by one. */
  lemma StreakExtend(ts: seq<int>, k: int, x: int)
    requires IsStreak(ts, k)
    requires WithinWindow(ts[|ts| - 1], x)
    ensures IsStreak(ts + [x], k + 1)
  {
  }

  /** A failure after a longer pause starts a run of one. */
  lemma StreakBreak(ts: seq<int>, x: int)
    requires |ts| > 0
    requires !WithinWindow(ts[|ts| - 1], x)
    ensures IsStreak(ts + [x], 1)
  {
  }

  /** The entry for `email` in `m` is what the failure instants `ts` say it should be. */
  ghost predicate Tracks(m: LoginAttempts, email: string, ts: seq<int>)
  {
    && (|ts| == 0 ==> email !in m)
    && (|ts| > 0 ==> email in m && IsStreak(ts, m[email].attempts) && m[email].lastAttempt == ts[|ts| - 1])
  }

  /** One more request keeps the entry for `email` in step with its failure instants. */
  lemma StepTracksStreak(env: Env, m: LoginAttempts, t: Try, email: string, ts: seq<int>)
    requires Tracks(m, email, ts)
    ensures
      var failed := t.email == email && !CredentialsValid(env, t.email, t.password);
      Tracks(Login(env, m, t.email, t.password, t.at).attempts, email, ts + (if failed then [t.at] else []))
  {
    if t.email == email && !CredentialsValid(env, t.email, t.password) && |ts| > 0 {
      if WithinWindow(m[email].lastAttempt, t.at) {
        StreakExtend(ts, m[email].attempts, t.at);
      } else {
        StreakBreak(ts, t.at);
      }
    }
  }

  /**
   Starting from a map without an entry for `email`, the replay leaves no
   entry when `email` never failed, and otherwise an entry whose count is the
   trailing-run length of its failures and whose time is the last failure.
   */
  lemma {:induction false} RunTracksStreak(env: Env, m: LoginAttempts, tries: seq<Try>, email: string)
    requires email !in m
    ensures
      var ts := FailTimes(env, tries, email);
      var r := Run(env, m, tries).attempts;
      && (|ts| == 0 ==> email !in r)
      && (|ts| > 0 ==> email in r && IsStreak(ts, r[email].attempts) && r[email].lastAttempt == ts[|ts| - 1])
    decreases |tries|
  {
    if |tries| > 0 {
      var pre := tries[..|tries| - 1];
      RunTracksStreak(env, m, pre, email);
      StepTracksStreak(env, Run(env, m, pre).attempts, tries[|tries| - 1], email, FailTimes(env, pre, email));
    }
  }

  /** The `i`-th response is the handler's answer to the `i`-th request in the map left by the earlier ones. */
  lemma {:induction false} RunStep(env: Env, m: LoginAttempts, tries: seq<Try>, i: nat)
    requires i < |tries|
    ensures Run(env, m, tries).responses[i]
         == Login(env, Run(env, m, tries[..i]).attempts, tries[i].email, tries[i].password, tries[i].at).response
    decreases |tries|
  {
    var pre := tries[..|tries| - 1];
    if i < |tries| - 1 {
      RunStep(env, m, pre, i);
      assert pre[..i] == tries[..i];
      assert pre[i] == tries[i];
    } else {
      assert pre == tries[..i];
    }
  }

  /**
   For a request whose email had no entry at the start: valid credentials
   succeed; otherwise the answer is FORBIDDEN exactly when the trailing run
   of that email's failures, this one included, has length five or more.
   */
  lemma RunResponse(env: Env, m: LoginAttempts, tries: seq<Try>, i: nat)
    requires i < |tries|
    requires tries[i].email !in m
    ensures
      var t := tries[i];
      var resp := Run(env, m, tries).responses[i];
      && (resp.Ok? <==> CredentialsValid(env, t.email, t.password))
      && (!CredentialsValid(env, t.email, t.password) ==>
            resp == (if Streak(FailTimes(env, tries[..i + 1], t.email)) >= LockoutThreshold
                     then Rejected(Forbidden, TooManyAttemptsMessage)
                     else Rejected(InvalidCredentials, WrongCredentialsMessage)))
  {
    var t := tries[i];
    var upto := tries[..i + 1];
    RunStep(env, m, tries, i);
    assert upto[..i] == tries[..i];
    assert upto[i] == t;
    var before := Run(env, m, tries[..i]).attempts;
    var out := Login(env, before, t.email, t.password, t.at);
    assert Run(env, m, upto).attempts == out.attempts;
    if !CredentialsValid(env, t.email, t.password) {
      RunTracksStreak(env, m, upto, t.email);
      var ts := FailTimes(env, upto, t.email);
      assert ts == FailTimes(env, tries[..i], t.email) + [t.at];
      StreakUnique(ts, out.attempts[t.email].attempts);
    }
  }

  /** When every request is a failure for `email`, the failure instants are exactly the request instants. */
  lemma {:induction false} FailTimesAllFailures(env: Env, tries: seq<Try>, email: string)
    requires forall i :: 0 <= i < |tries| ==> tries[i].email == email && !CredentialsValid(env, email, tries[i].password)
    ensures |FailTimes(env, tries, email)| == |tries|
    ensures forall i :: 0 <= i < |tries| ==> FailTimes(env, tries, email)[i] == tries[i].at
    decreases |tries|
  {
    if |tries| > 0 {
      var pre := tries[..|tries| - 1];
      FailTimesAllFailures(env, pre, email);
    }
  }

  /**
   From a map with no entry for `email`, consecutive failed logins for it, each
   within the window of the previous one, are answered INVALID_CREDENTIALS for
   the first four and FORBIDDEN from the fifth on.
   */
  lemma LockoutAfterFourFailures(env: Env, m: LoginAttempts, tries: seq<Try>, email: string)
    requires email !in m
    requires forall i :: 0 <= i < |tries| ==> tries[i].email == email && !CredentialsValid(env, email, tries[i].password)
    requires forall i :: 0 < i < |tries| ==> WithinWindow(tries[i - 1].at, tries[i].at)
    ensures forall i :: 0 <= i < |tries| ==>
      Run(env, m, tries).responses[i]
        == (if i < 4 then Rejected(InvalidCredentials, WrongCredentialsMessage)
            else Rejected(Forbidden, TooManyAttemptsMessage))
  {
    forall i | 0 <= i < |tries|
      ensures Run(env, m, tries).responses[i]
        == (if i < 4 then Rejected(InvalidCredentials, WrongCredentialsMessage)
            else Rejected(Forbidden, TooManyAttemptsMessage))
    {
      var upto := tries[..i + 1];
      FailTimesAllFailures(env, upto, email);
      var ts := FailTimes(env, upto, email);
      forall j | 0 < j < |ts|
        ensures WithinWindow(ts[j - 1], ts[j])
      {
        assert upto[j - 1] == tries[j - 1] && upto[j] == tries[j];
      }
      StreakUnique(ts, i + 1);
      RunResponse(env, m, tries, i);
    }
  }
}
