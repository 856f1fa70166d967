# TrikeTime core, modelled in Dafny

TrikeTime records work time for trike drivers. This project models three parts of its logic as pure functions over explicit stores:

- **Authentication and refresh tokens** (`auth.py`, record shapes in `models.py`). The users table is a sequence of `User` rows in rowid order. The refresh-token table is a map from `jti` to its row. The chain of rejections in `verify_refresh` and the error precedence of `require_auth`, `handle_refresh` and `handle_logout` follow the code. The one exception is the stored-expiry comparison, which the code as written cannot perform (see Findings). JWT signing and checking is an oracle: `encode: Claims -> string` and `decode: string -> Decoded`, where `Decoded` is one of `Verified(claims)`, `Expired` and `Malformed`. bcrypt is also an oracle: `hashOf` and `verify`. Time is a parameter `now`, in whole seconds.
- **The client activity tracker** (`static/core.js`). A one-slot current activity plus an append-only event list. The integer-millisecond aggregates `durationMs`, `computeContinuousDrive`, `fmtH`, `msToHours` and the arithmetic of `recompute` are modelled. `Date.now()` and the range start (local midnight) are parameters.
- **The shift log** (`app.py`). A sequence of `Shift` rows, with `start_shift`, `end_shift` and `history`. Timestamps are rendered with the `%Y-%m-%d %H:%M:%S` pattern.

Modules: `Wrappers` (Option), `Decimal` (digit strings), `Timestamp` (the timestamp pattern and its reading), `Models` (record shapes, defaults, table invariants), `Auth`, `Tracker` and `Shifts`.

Four behaviours of the code worth stating up front:

- `handle_refresh` does not rotate the refresh token. It issues only a new access token, and the old cookie keeps working (`Auth.RefreshDoesNotRotate`).
- `start_shift` does not refuse a second open shift (`Shifts.StartShiftAddsOpenRow`).
- `end_shift` closes every open row, not only the most recent one, and never reports a conflict.
- `start()` in the tracker reads the clock twice. The closed event's end and the new activity's start are therefore separate parameters. They coincide only when both readings are equal (`Tracker.SwitchIsSeamless`).

## Model

| member | source | states |
|---|---|---|
| Auth.MakeRefresh | auth.py:46-73 | a fresh `jti` adds exactly one row: not revoked, owned by the user, expiring `REFRESH_TTL_DAYS` days after `now`, keyed by the `jti` embedded in the signed token; existing rows are unchanged; a `jti` already stored is refused by the unique constraint and nothing changes |
| Auth.VerifyRefresh | auth.py:75-97 | the intended check (see Findings): a payload is returned iff decoding succeeds, `typ == "refresh"`, `jti` is non-empty, its row exists, is not revoked and `expires_at > now`; the payload returned is the decoded one |
| Auth.VerifyRefreshAsWritten | auth.py:75-97 | as written, a cookie that decodes, has `typ == "refresh"`, a non-empty `jti` and a stored, unrevoked row raises at the naive-versus-aware expiry comparison; every other cookie is rejected; no token is ever accepted |
| Auth.StoredExpiryComparisonRaises | auth.py:93 | for every otherwise-live cookie the code as written raises, while the intended check accepts it exactly when the stored expiry lies after `now` |
| Auth.RevokeRefresh | auth.py:99-105 | revoking flips `revoked` on the row with that `jti` and touches no other row or key |
| Auth.RevokedTokenRejected | auth.py:99-105 | after revoking `j`, every token carrying `j` is rejected by `verify_refresh` |
| Auth.RevokeLeavesOthers | auth.py:99-105 | revoking `j` does not change the verdict on any token not carrying `j` |
| Auth.RevokeIdempotent | auth.py:99-105 | revoking twice equals revoking once; revoking an absent or already revoked `jti` leaves the table unchanged |
| Auth.MadeRefreshVerifies | auth.py:46-97 | a token from `make_refresh` is accepted by `verify_refresh` until its stored expiry, given a signature check that returns the signed claims |
| Auth.MakeRefreshPreservesWellFormed | auth.py:64-72 | inserting a row for an existing user keeps every row keyed by its own `jti` and owned by an existing user |
| Auth.RevokePreservesWellFormed | auth.py:99-105 | revoking keeps the token table well-formed |
| Auth.FindByUsername | auth.py:113 | the lookup finds a user iff one has that name, and returns the first such row |
| Auth.FindById | auth.py:226 | the lookup by primary key finds a row iff one has that id |
| Auth.RegisterUser | auth.py:108-124 | a taken username gives `false` and an unchanged table; otherwise one user is appended with the hashed password, the given role and an id above every existing id, and `is_active` set as the column default does |
| Auth.RegisterDefaultsToDriver | auth.py:108 | without a role argument the new user's role is "driver", the default `register_user` and the `role` column share |
| Auth.RegisterPreservesWellFormed | auth.py:108-124 | registration keeps ids ascending and usernames unique |
| Auth.LoginUser | auth.py:126-138 | a user is returned only when the name matches, the password verifies against the stored hash and the user is active; an unknown name gives `None` |
| Auth.LoginCharacterised | auth.py:126-138 | with unique usernames, login succeeds exactly when the named user's password verifies and the user is active, and then returns that user |
| Auth.RegisterThenLogin | auth.py:108-138 | a freshly registered user logs in with the registered password |
| Auth.RequireAuth | auth.py:160-189 | decision order: a header without "Bearer " gives `no_token`; the token is the rest of the header; `Expired` gives `access_expired`; other decode errors give `bad_access_token`; `typ != "access"` gives `wrong_token_type`; a non-empty role list without the role gives `forbidden`; an empty list admits any role; a token without a subject raises |
| Auth.AccessTokenAdmitted | auth.py:30-43 | an access token built by `make_access` admits its user, with their id and role, wherever the role list is empty or contains their role |
| Auth.RefreshTokenNotAccess | auth.py:169-175 | a refresh token presented as a bearer token is refused with `wrong_token_type` |
| Auth.AccessTokenNotRefresh | auth.py:80-83 | an access token is never accepted by `verify_refresh` |
| Auth.HandleRefresh | auth.py:212-231 | a missing or empty cookie gives `no_refresh`; a failed verification gives `invalid_refresh`; a missing or inactive owner gives `user_inactive`; success returns a new access token for the active owner, and no token table comes out |
| Auth.RefreshDoesNotRotate | auth.py:212-231 | after a successful refresh the same cookie refreshes again while its row is unexpired, so no rotation happens |
| Auth.HandleLogout | auth.py:233-246 | an absent or invalid cookie leaves the table unchanged; a valid one revokes exactly its `jti` |
| Auth.LogoutThenRefreshRefused | auth.py:212-246 | after logout with a cookie, refreshing with it later gives `invalid_refresh` |
| Auth.HandleLogin | auth.py:193-210 | bad credentials give `bad_credentials` and no change; valid credentials with a fresh `jti` always log in, and a `jti` already stored faults with no change; success returns the access token, the role and a refresh cookie whose row was added |
| Auth.LoginThenRefresh | auth.py:193-231 | the cookie issued at login yields a new access token for the same user until the refresh lifetime ends |
| Models.NextId | models.py:16 | the next primary key is at least 1 and above every existing key |
| Models.JtiUnique | models.py:27 | distinct rows of a well-formed token table carry distinct `jti` values |
| Tracker.Stop | static/core.js:12-19 | with nothing running, `stop` changes nothing; otherwise exactly one event `{type, startedAt, now}` is appended, earlier events are kept and the slot is cleared |
| Tracker.Start | static/core.js:5-10 | `start(type)` closes the running activity as `stop` would, then `type` is the single current activity |
| Tracker.StopIdempotent | static/core.js:12-13 | a second `stop` is a no-op |
| Tracker.SwitchIsSeamless | static/core.js:5-19 | switching activity at one instant closes the old activity exactly where the new one starts |
| Tracker.Contribution | static/core.js:35-40 | an event contributes only for its own type, never negatively, with its start clipped to the range start, and nothing when its end is not after the clipped start |
| Tracker.DurationMs | static/core.js:31-45 | the loop computes the sum of the event contributions plus the current activity when its type matches and it started inside the range |
| Tracker.EventsMsNonNegative | static/core.js:35-40 | the event part of `durationMs` is never negative |
| Tracker.EventsMsAppend | static/core.js:35-40 | the event part is additive over concatenation of event lists |
| Tracker.OtherKindsIgnored | static/core.js:36 | events of other types contribute nothing |
| Tracker.StopKeepsDuration | static/core.js:12-45 | stopping an activity that began in the range, at the measuring instant, leaves `durationMs` of every type unchanged |
| Tracker.OngoingActivityBeforeRangeUncounted | static/core.js:41-43 | a running activity of the measured type that began before the range start counts zero, and stopping it at `now` raises `durationMs` by exactly `now - rangeStart` |
| Tracker.RunStart | static/core.js:108-115 | the stretch starts just after the last BREAK, REST_DAILY, REST_WEEKLY or OTHER_WORK event, and contains no such event |
| Tracker.ComputeContinuousDrive | static/core.js:104-120 | the backwards scan returns the DRIVE spans after the last break event plus the running DRIVE activity |
| Tracker.BreakResetsContinuousDrive | static/core.js:112-113 | a break-type event resets continuous driving to the running activity alone |
| Tracker.DriveExtendsContinuousDrive | static/core.js:110-111 | a DRIVE event extends continuous driving by its span |
| Tracker.OtherKindsTransparent | static/core.js:108-115 | other types such as AVAILABILITY are skipped without ending the stretch |
| Tracker.HoursMinutes | static/core.js:73-75 | for `ms >= 0`, `0 <= m < 60` and `h` hours plus `m` minutes is `ms` truncated to whole minutes; for negative `ms`, `h < 0` and `-60 <= m <= 0` |
| Tracker.FmtHReadsBack | static/core.js:73-77 | for `ms >= 0` the text is hours digits, "ч ", two minute digits, "м", and reading the digits back gives the whole minutes in `ms` |
| Tracker.MsToHours | static/core.js:72 | hours times 3 600 000 is the duration in ms |
| Tracker.Recompute | static/core.js:47-59 | `workToday == driveToday + otherToday`; the break warning fires iff continuous driving is at least 16 200 000 ms; the 9-hour prompt condition holds iff today's driving exceeds 32 400 000 ms |
| Timestamp.FormatParseRoundTrip | app.py:29 | a server timestamp of a second-precision wall-clock reading with a four-digit year is 19 characters long and reads back as that reading |
| Timestamp.FormatInjective | app.py:39 | distinct second-precision wall-clock readings get distinct timestamps |
| Shifts.StartShift | app.py:27-35 | one open row is appended, stamped with `now`, with an id above every existing id; earlier rows are kept |
| Shifts.StartShiftAddsOpenRow | app.py:27-35 | starting adds an open row even when one is open already |
| Shifts.EndShift | app.py:37-45 | every open row gets `end_time = now`, closed rows are unchanged, no row stays open, and the reply is always `ended` |
| Shifts.EndShiftWithoutOpenIsNoOp | app.py:37-45 | with nothing open, ending changes no row yet still replies `ended` |
| Shifts.StartThenEnd | app.py:27-45 | start then end on a table with nothing open yields one new row with both timestamps set |
| Shifts.StartShiftPreservesOrder | app.py:32 | starting keeps ids ascending in storage order |
| Shifts.EndShiftPreservesOrder | app.py:42 | ending keeps ids ascending in storage order |
| Shifts.OpenCount | models.py:38 | no open rows means no row has a null `end_time` |
| Shifts.History | app.py:47-54 | at most 10 rows in strictly descending id order, all from the table, and every row left out has a lower id than every row returned |

## Findings

| source | as written | input that shows it | evidently intended | confidence | as-written member | corrected member |
|---|---|---|---|---|---|---|
| auth.py:93 | `row.expires_at <= _utcnow()` compares the expiry read back from the SQLite `DateTime(timezone=True)` column, which comes back without an offset, with the timezone-aware `_utcnow()`; Python raises `TypeError`, which `except jwt.PyJWTError` does not catch | any refresh cookie that decodes, has `typ == "refresh"` and a non-empty `jti` whose row exists and is not revoked: `handle_refresh` and `handle_logout` answer 500, and logout revokes nothing | reject when the stored expiry is at or before now, accept otherwise | medium, not executed; rests on SQLAlchemy's SQLite DATETIME dropping the offset | Auth.StoredExpiryComparisonRaises | Auth.VerifyRefresh |

`Auth.VerifyRefreshAsWritten` models the code as written. The handlers and the lifecycle lemmas (`MadeRefreshVerifies`, `LoginThenRefresh`, `RefreshDoesNotRotate`, `LogoutThenRefreshRefused`) use the intended `Auth.VerifyRefresh`.

## Left out

- JWT encoding, signature and `exp` checking, and bcrypt are foreign libraries. They are oracle parameters, with no cryptography modelled.
- The `sub` claim is rendered with `str(user.id)` and parsed with `int(...)`. The model carries it as an integer. A missing `sub` is modelled as an uncaught exception (`Fault`); a non-numeric one is not modelled.
- Auth.VerifyRefresh: compares the stored expiry as if storage kept the timezone. As written the comparison raises (see Findings), so the refresh and logout handlers as written are not modelled on top of `Auth.VerifyRefreshAsWritten`.
- Sub-second precision of `datetime` is not modelled: token times are whole seconds. The row's `expires_at` and the token's `exp` claim therefore coincide.
- The `id` primary key of `refresh_tokens` is not modelled. Rows are keyed by their unique `jti`.
- The user foreign key of a refresh-token row is an invariant (`TokensWellFormed`) proved preserved. SQLite does not enforce it by default, and `MakeRefresh` does not check it.
- Flask request/response plumbing, cookie setting and clearing (`set_refresh_cookie`, `clear_refresh_cookie`), SQLAlchemy sessions, commits and the sqlite connections are I/O. `db.py` is not part of this model.
- Concurrency, including the check-then-insert race in `register_user`, is not modelled. Username uniqueness is the schema invariant.
- Storage failures are not modelled, apart from the unique-`jti` violation in `make_refresh`.
- Shifts.History: stated for tables whose ids ascend in storage order (`ShiftIdsAscend`). Every table built by `StartShift` and `EndShift` from the empty table has this property.
- Timestamp.FormatInjective: holds for second-precision readings only. `datetime.now()` carries microseconds that `%S` drops, so two shifts started within one second get the same `start_time`. Local time also repeats readings when daylight saving time ends.
- Timestamp.FormatParseRoundTrip: stated for four-digit years only. `%Y` of years below 1000 is platform-dependent. Days are bounded by 31 rather than by the month's length.
- Tracker.Recompute: takes one `now` and one `rangeStart`. The code reads the clock, and computes local midnight, separately in each `durationMs` call and again in `computeContinuousDrive`. These readings are merged into one.
- `persist`, `notify`, `tokenUsed`, `promptUseToken10`, `renderStatus`, `localStorage` and the DOM wiring of `static/core.js` are UI. `Recompute` returns the numbers and flags those functions consume.
- Tracker.MsToHours: modelled with exact real division rather than an IEEE double. For integer milliseconds the comparison with 9 hours agrees.
- Tracker.Contribution: JavaScript numbers are exact for integer milliseconds below 2^53. Larger values are not modelled.
- `static/ai-helper.js`, `static/lang.js`, `service-worker.js`, `triketime-spa/src/api.js` and `triketime-spa/src/components/History.jsx` are UI, floating-point animation or cache plumbing, and are not part of this model.
