/**
 The login handler: runs the credential check and turns a failed verdict into
 one of two errors by looking at the attempt counter that the check has just
 updated.
 */
module AuthenticationController {
  import opened Options
  import opened AuthenticationService

  /** A counter at or above this value answers FORBIDDEN instead of INVALID_CREDENTIALS. */
  const LockoutThreshold: nat := 5

  const TooManyAttemptsMessage: string := "Limit has reached. Too many failed login attempts"
  const WrongCredentialsMessage: string := "Wrong email or password"

  datatype ErrorType = Forbidden | InvalidCredentials

  /**
   What the handler produces: status 200 with the verdict object, an error
   passed on to the error middleware, or the `TypeError` thrown by reading
   `.attempts` of a missing map entry.
   */
  datatype Response = Ok(body: LoginSuccess) | Rejected(error: ErrorType, message: string) | TypeError

  /** The response of one login together with the attempt map it leaves behind. */
  datatype Outcome = Outcome(response: Response, attempts: LoginAttempts)

  /** Decides the response from the verdict and the attempt map as it stands after the check. */
  function Respond(verdict: Option<LoginSuccess>, m: LoginAttempts, email: string): Response
  {
    match verdict
    case Some(success) => Ok(success)
    case None =>
      if email !in m then TypeError
      else if m[email].attempts >= LockoutThreshold then Rejected(Forbidden, TooManyAttemptsMessage)
      else Rejected(InvalidCredentials, WrongCredentialsMessage)
  }

  /**
   Handles one login request. Valid credentials always succeed, whatever the
   counter says, and leave the map unchanged; the counter lookup after a
   failure never misses; a failure is FORBIDDEN exactly when it extends a
   run of failures within the window to five or more.
   */
  function Login(env: Env, m: LoginAttempts, email: string, password: string, now: int): (r: Outcome)
    ensures r.response.Ok? <==> CredentialsValid(env, email, password)
    ensures !r.response.TypeError?
    ensures r.response.Ok? ==>
      var u := env.getUserByEmail(email).value;
      r.response.body == LoginSuccess(u.email, u.name, u.id, env.generateToken(u.email, u.id)) && r.attempts == m
    ensures r.response == Rejected(Forbidden, TooManyAttemptsMessage) <==>
      && !CredentialsValid(env, email, password)
      && email in m
      && WithinWindow(m[email].lastAttempt, now)
      && m[email].attempts + 1 >= LockoutThreshold
    ensures r.response == Rejected(InvalidCredentials, WrongCredentialsMessage) <==>
      && !CredentialsValid(env, email, password)
      && (email !in m || !WithinWindow(m[email].lastAttempt, now) || m[email].attempts + 1 < LockoutThreshold)
    ensures r.response.Rejected? ==> r.attempts == RecordFailure(m, email, now)
  {
    var checked := CheckLoginCredentials(env, m, email, password, now);
    Outcome(Respond(checked.verdict, checked.attempts, email), checked.attempts)
  }
}
