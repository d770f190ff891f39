# Login throttling and paginated user listing — a Dafny model

This project models two pieces of a Node/Express CRUD backend.

**Login.** The authentication service checks an email/password pair. It
always runs exactly one password comparison: against the stored hash when a
user has that email, otherwise against the fixed decoy string
`<RANDOM_PASSWORD_FILLER>`, so that unknown emails are not revealed by
response time. A login succeeds only when the user exists and the hash
matches. Each failure updates a process-wide map `email → {attempts,
lastAttempt}`:

- the first failure creates `{1, now}`;
- a failure within 30 minutes of the previous one increments the count;
- a failure more than 30 minutes (strictly, absolute difference) after the
  previous one restarts at `{1, now}`.

A success does not touch the map. After a failed check the login handler
reads the counter. It answers FORBIDDEN ("too many failed login attempts")
when the counter is at least 5, and INVALID_CREDENTIALS otherwise.

In the model, the map is a value `map<string, Attempt>` threaded through pure
functions. The clock is an integer millisecond parameter `now`. The 30-minute
test `|now − last| / 60000 > 30` is exactly `|now − last| > 1 800 000` on
integer milliseconds. The user lookup, the hash comparison and the token
minting are the function-valued fields of `Env`. `LoginPolicy` replays
sequences of requests and proves the following:

- starting from a map without the email (the map starts empty when the
  process starts), the counter for an email is the length of the trailing run
  of its failures in which each failure is within the window of the previous
  one (`IsStreak`);
- from such a start, consecutive close failures get INVALID_CREDENTIALS four times and
  FORBIDDEN from the fifth on.

**Listing.** `getPaginatedUsers` computes its query arguments:

- it splits `sort` and `search` on `':'`, following JavaScript `split`;
- it maps the sort text to a field and order, and the search text to a
  case-insensitive pattern filter, with defaults;
- it computes `skip = (pageNumber − 1) · pageSize` and `limit = pageSize`;
- from the repository's count and result list it builds the page: the
  ceiling page count, the previous/next flags and the `{id, name, email}`
  projection.

The filter is kept as data; the repository calls are function parameters.

Where the code and its comments differ, the model follows the code. The
code behaves as follows:

- The decoy is `<RANDOM_PASSWORD_FILLER>`, not the `FILTER` spelling in the
  comment.
- The lockout test is `>= 5`, although the comment says "exceeds". So the
  fifth failure within the window is answered FORBIDDEN.
- A correct password succeeds whatever the counter value, because the
  counter is read only after a failed check.
- A successful login leaves the counter as it is; it is not reset.
- The search pattern and the sort order are the second `':'`-separated
  segment only. Text after a second `':'` is dropped, so `name:a:b` searches
  for `a`.

## Model

| member | source | states |
|---|---|---|
| AuthenticationService.RecordFailure | src/api/components/authentication/authentication-service.js:36-50 | The email always has an entry afterwards, stamped `now`. The count is 1 for a new entry or after a gap of more than 30 minutes. Within the window the count is the old count plus one. Every other key keeps its entry, and no key is added or removed except this email. |
| AuthenticationService.CheckLoginCredentials | src/api/components/authentication/authentication-service.js:13-54 | Exactly one comparison is made: against the stored hash when the user exists, against the decoy otherwise. The verdict succeeds iff the user exists and the hash matches, so an unknown email never succeeds even if the decoy matches. A success carries the user's email, name and id and `generateToken(email, id)`, and leaves the map unchanged. A failure returns no verdict and records the failure, so the entry exists with count ≥ 1 and time `now`. |
| AuthenticationController.Login | src/api/components/authentication/authentication-controller.js:13-42 | Success iff the credentials are valid, whatever the counter, and a success leaves the map unchanged. The counter lookup never misses, so no TypeError. FORBIDDEN iff the credentials are invalid and the email had an entry within the window whose count plus one reaches 5. INVALID_CREDENTIALS in every other failure, including the first failure after a gap of more than 30 minutes. |
| LoginPolicy.RunTracksStreak | src/api/components/authentication/authentication-service.js:36-50 | Replay any request sequence from a map without the email. If the email never failed, it has no entry. Otherwise its count is the unique trailing-run length of its failure times, and its time is the last failure. Requests for other emails and successful logins do not affect it. |
| LoginPolicy.RunResponse | src/api/components/authentication/authentication-controller.js:18-35 | Starting from a map without that email (the service's map starts as `{}`, authentication-service.js:5), each replayed request succeeds iff its credentials are valid. A failed request is FORBIDDEN iff the trailing run of that email's failures up to and including it has length ≥ 5. |
| LoginPolicy.LockoutAfterFourFailures | src/api/components/authentication/authentication-controller.js:24-35 | Consecutive failures for one email, each within 30 minutes of the previous, start from no entry. Attempts 1–4 get INVALID_CREDENTIALS and every later attempt gets FORBIDDEN. |
| TextSplit.Split | src/api/components/users/users-service.js:175 | JavaScript `split(':')`: there is always at least one piece, and no piece contains the separator. `JoinSplit` and `SplitJoin` give the rest of its meaning. |
| TextSplit.JoinSplit | src/api/components/users/users-service.js:175 | Splitting on `':'` loses nothing: joining the pieces gives back the input. |
| TextSplit.SplitJoin | src/api/components/users/users-service.js:191 | Splitting on `':'` cuts exactly at the separators. Joining colon-free pieces and splitting again gives back the pieces. |
| UsersService.SortOrder | src/api/components/users/users-service.js:177-178 | The order is always 1 or −1, and it is −1 iff the order word is exactly `desc`. |
| UsersService.ParseSort | src/api/components/users/users-service.js:175-186 | The sort order is always 1 or −1. The `SortBy*` lemmas below give its full meaning for every shape of input. |
| UsersService.ParseSearch | src/api/components/users/users-service.js:191-198 | Every pattern filter uses the case-insensitive option `i`. The `SearchBy*` lemmas below give its full meaning for every shape of input. |
| UsersService.Skip | src/api/components/users/users-service.js:173 | Skip plus page size is `pageNumber · pageSize`, so the skipped records are exactly those on the earlier pages. For page numbers from 1 on, the skip is never negative. |
| UsersService.SortByNamedField | src/api/components/users/users-service.js:175-186 | `email:<o>…` and `name:<o>…` sort on that field, descending iff `<o>` is `desc` and ascending otherwise. |
| UsersService.SortByFieldAlone | src/api/components/users/users-service.js:175-186 | A bare `email` or `name` sorts on that field, ascending. |
| UsersService.SortByUnknownField | src/api/components/users/users-service.js:181-186 | Any other first segment sorts on email ascending and ignores the order part. |
| UsersService.SearchByNamedField | src/api/components/users/users-service.js:191-197 | `email:<p>…` or `name:<p>…` is a case-insensitive (`i`) pattern filter on that field with pattern `<p>`. |
| UsersService.SearchByFieldAlone | src/api/components/users/users-service.js:191-197 | A bare `email` or `name` is a filter on that field whose pattern is undefined. |
| UsersService.SearchByUnknownField | src/api/components/users/users-service.js:191-198 | Any other first segment gives the empty filter. |
| UsersService.PlanQuery | src/api/components/users/users-service.js:173-209 | The query's limit is the page size. Skip plus limit is `pageNumber · pageSize`, so the window ends where the requested page ends. Its sort and filter come from the sort and search texts. |
| UsersService.CeilDiv | src/api/components/users/users-service.js:202 | The page count is the least `n` with `n · pageSize ≥ totalUsers`. |
| UsersService.ProjectUsers | src/api/components/users/users-service.js:217-225 | The output has one `{id, name, email}` projection per user, in the same order. |
| UsersService.HasNextPageIffRecordsBeyond | src/api/components/users/users-service.js:233 | `pageNumber < total_pages` iff some record lies beyond the page's window, that is `skip + limit < totalUsers`. |
| UsersService.HasPreviousPageIffSkips | src/api/components/users/users-service.js:232 | `pageNumber > 1` iff the page's window skips at least one record. |
| UsersService.GetPaginatedUsers | src/api/components/users/users-service.js:172-235 | The result is null iff the repository returns no list. Otherwise it holds the following: `page_number` is `pageNumber`, or 1 when it is 0; `page_size` is the page size; `count` is the number of returned users; `data` is their in-order projection; `total_pages` is the ceiling of `totalUsers / pageSize`; `has_previous_page` iff `pageNumber > 1`, iff records are skipped; `has_next_page` iff `pageNumber < total_pages`, iff records lie beyond the window. The repository is asked with the planned query. |

## Left out

- Wall clock: in one failure the service reads the clock at most twice: once at line 37, or at line 39 and then at line 45 or 48. The model uses one instant `now` per request. So it does not model a stored `lastAttempt` that is slightly later than the instant compared at line 42.
- Concurrency: concurrent requests that read and write the shared attempt object are not modelled. Requests are handled one after another.
- Password hashing, the user repository and JWT minting are uninterpreted function parameters (`Env`). Exceptions they might raise are not modelled.
- The map is a plain JavaScript object, so keys such as `constructor` or `__proto__` resolve to inherited properties. The model treats every email as an ordinary key.
- Counters are unbounded integers. JavaScript numbers stop counting exactly beyond 2^53, which is unreachable by increments of one.
- HTTP status codes beyond 200 are not modelled. The error module that maps FORBIDDEN and INVALID_CREDENTIALS to statuses is not part of this model.
- UsersService.GetPaginatedUsers: requires `pageSize ≥ 1`. The JavaScript service divides by the page size with floating point, so 0 or a missing size gives `Infinity`/`NaN` page counts, and a negative size gives a negative ceiling. For the same reason `page_size` is always `pageSize`; the `|| users.length` fallback is unreachable.
- Page numbers and sizes are integers. `NaN`, `undefined` or non-string `sort`/`search` from the query string are not modelled.
- The repository queries `countUsers` and `paginatedUsers` are parameters. Regular-expression evaluation of the filter is not modelled.
- The remaining user-service functions (getUsers, getUser, createUser, updateUser, deleteUser, emailIsRegistered, checkPassword, changePassword) and the marketplace component are pass-throughs to the database and HTTP layers. They are not part of this model.
