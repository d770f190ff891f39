/**
 Credential verification and the failed-login attempt map of the
 authentication service. The process-wide mutable object of the JavaScript service is a
 value `LoginAttempts` threaded through a pure transition; the wall clock is
 the integer millisecond parameter `now`.
 */
module AuthenticationService {
  import opened Options
  import opened Accounts

  /** The fixed string compared against when no user has the given email. */
  const Decoy: string := "<RANDOM_PASSWORD_FILLER>"

  const MinuteMs: int := 60 * 1000

  /** Failures further apart than this (strictly) start a fresh count. */
  const WindowMs: int := 30 * MinuteMs

  /**
   The collaborators the service calls but does not define: the user lookup
   of the repository, the password-hash comparison and the session-token
   minting.
   */
  datatype Env = Env(
    getUserByEmail: string -> Option<User>,
    passwordMatched: (string, string) -> bool,
    generateToken: (string, string) -> string)

  /** Failed-login bookkeeping for one email. */
  datatype Attempt = Attempt(attempts: nat, lastAttempt: int)

  type LoginAttempts = map<string, Attempt>

  /** The object returned on a successful login. */
  datatype LoginSuccess = LoginSuccess(email: string, name: string, userId: string, token: string)

  /** One call of the password comparison: the plaintext and what it was compared with. */
  datatype Comparison = Comparison(password: string, against: string)

  /**
   What one credential check yields: the verdict (`None` for JavaScript's
   `null`), the comparisons it made, in order, and the attempt map afterwards.
   */
  datatype Checked = Checked(verdict: Option<LoginSuccess>, comparisons: seq<Comparison>, attempts: LoginAttempts)

  function Abs(x: int): nat
  {
    if x < 0 then -x else x
  }

  /** Two failures at these instants belong to the same counting window. */
  predicate WithinWindow(last: int, now: int)
  {
    Abs(now - last) <= WindowMs
  }

  /** The hash the password is compared with: the stored one, or the decoy when no user was found. */
  function StoredOrDecoy(user: Option<User>): string
  {
    match user
    case Some(u) => u.password
    case None => Decoy
  }

  /** A user with this email exists and the password matches its stored hash. */
  predicate CredentialsValid(env: Env, email: string, password: string)
  {
    match env.getUserByEmail(email)
    case Some(u) => env.passwordMatched(password, u.password)
    case None => false
  }

  /**
   Records a failed login for `email` at `now`: a first failure creates the
   entry with count 1, a failure within the window of the previous one
   increments the count, and a failure after a longer pause restarts it at 1.
   Every other email keeps its entry.
   */
  function RecordFailure(m: LoginAttempts, email: string, now: int): (m': LoginAttempts)
    ensures m'.Keys == m.Keys + {email}
    ensures forall k :: k in m && k != email ==> m'[k] == m[k]
    ensures m'[email].lastAttempt == now
    ensures email !in m ==> m'[email].attempts == 1
    ensures email in m && WithinWindow(m[email].lastAttempt, now) ==> m'[email].attempts == m[email].attempts + 1
    ensures email in m && !WithinWindow(m[email].lastAttempt, now) ==> m'[email].attempts == 1
  {
    if email !in m then
      m[email := Attempt(1, now)]
    else if Abs(now - m[email].lastAttempt) > WindowMs then
      m[email := Attempt(1, now)]
    else
      m[email := Attempt(m[email].attempts + 1, now)]
  }

  /**
   Checks an email/password pair. Exactly one password comparison is made,
   against the decoy when the email is unknown, so that both paths do the
   same work. The verdict is a success only for an existing user whose hash
   matches; a success leaves the attempt map alone, a failure records it.
   */
  function CheckLoginCredentials(env: Env, m: LoginAttempts, email: string, password: string, now: int): (r: Checked)
    ensures |r.comparisons| == 1
    ensures env.getUserByEmail(email).None? ==> r.comparisons[0] == Comparison(password, Decoy)
    ensures env.getUserByEmail(email).Some? ==> r.comparisons[0] == Comparison(password, env.getUserByEmail(email).value.password)
    ensures r.verdict.Some? <==> CredentialsValid(env, email, password)
    ensures env.getUserByEmail(email).None? ==> r.verdict.None?
    ensures r.verdict.Some? ==>
      var u := env.getUserByEmail(email).value;
      r.verdict.value == LoginSuccess(u.email, u.name, u.id, env.generateToken(u.email, u.id)) && r.attempts == m
    ensures r.verdict.None? ==>
      && email in r.attempts
      && r.attempts[email].attempts >= 1
      && r.attempts[email].lastAttempt == now
      && r.attempts == RecordFailure(m, email, now)
  {
    var user := env.getUserByEmail(email);
    var compared := Comparison(password, StoredOrDecoy(user));
    var passwordChecked := env.passwordMatched(compared.password, compared.against);
    if user.Some? && passwordChecked then
      var u := user.value;
      Checked(Some(LoginSuccess(u.email, u.name, u.id, env.generateToken(u.email, u.id))), [compared], m)
    else
      Checked(None, [compared], RecordFailure(m, email, now))
  }
}
