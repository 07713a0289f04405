# Authentication and authorization core of a clinical glucose-management application

This project models, in Dafny, the part of the application that decides who
may do what:

- the **permission catalog** (`src/access_control.rs`): seven permissions, a
  role value holding a name and a permission set, and the four fixed roles
  (clinician, patient, caretaker, admin);
- the **in-memory session manager** (`src/session.rs`): sessions keyed by a
  64-character lower-case hex token made from 32 random bytes, valid for one
  hour, looked up through a strict expiry test and swept by a two-phase
  cleanup. It is a class with a `map<string, Session>` field; the clock is a
  `now` parameter and the random bytes are a parameter;
- the **persistent user and session store** (`src/db/queries.rs`): the
  `users` and `session` tables as sequences of rows in scan order. Statements
  that write (INSERT, DELETE) are methods of a `Database` class. Queries that
  only read are functions, or a method with a loop, of the table contents.
  Times are stored in whole seconds;
- the **login decision** (`user_login` in `src/menus/login_menu.rs`). The
  user lookup and the password verifier are passed in as functions that
  return `Result`;
- the **patient-record validator** (`validate_patient` in
  `src/menus/menu_utils.rs`). It runs four ordered checks and reports the
  first failure.

Times are integers counting nanoseconds from the UNIX epoch, and durations are
natural numbers of nanoseconds. `SystemTime::elapsed().unwrap_or_default()`
is written out: an instant in the future gives zero elapsed time. The
conversion `duration_since(UNIX_EPOCH).unwrap_or_default().as_secs()` is also
written out: it truncates, and an instant before the epoch gives 0.

Files: `wrappers.dfy` (Option, Result), `models.dfy` (User and Patient rows),
`access_control.dfy`, `sessions.dfy`, `queries.dfy`, `login.dfy`,
`menu_utils.dfy`.

Facts about the code that the model keeps as they are:

- `is_expired` uses a strict `>`, so a session exactly one hour old is still
  live.
- `clinician_role` grants `CreateClinicianAccount`.
- The code has no session supersede: creating a session leaves the user's
  earlier sessions in place. Looking up an expired session does not delete it.
  There is no fail-closed lookup from a role name to a role, and no
  `authorize` gateway.
- `Role::new` is declared to take a `HashSet`, but its callers pass a
  literal slice. It is modelled as taking the list and collecting it into a
  set, which is what its body does.
- `src/db/queries.rs` reads a `username` field of `Session`, while
  `src/session.rs` declares that field as `user`. The model has one `Session`
  datatype with field `user`. The session table has the row shape
  `queries.rs` uses: token, username, creation second, lifetime in seconds.

## Model

| member | source | states |
|---|---|---|
| AccessControl.CollectPermissions | src/access_control.rs:28 | the collected set holds exactly the listed permissions, and it is no larger than the list |
| AccessControl.NewRole | src/access_control.rs:24-34 | the role keeps the name, and `has_permission(p)` holds exactly when `p` was listed |
| AccessControl.ClinicianTableComplete | src/access_control.rs:42-50 | the clinician table lists every permission |
| AccessControl.PatientTableExact | src/access_control.rs:58-63 | the patient table lists exactly the permissions other than the two account creations and UpdatePatient |
| AccessControl.ClinicianRole | src/access_control.rs:39-52 | named "clinician"; grants every permission, CreateClinicianAccount included |
| AccessControl.PatientRole | src/access_control.rs:55-65 | named "patient"; grants p exactly when p is not CreateClinicianAccount, CreatePatientAccount or UpdatePatient |
| AccessControl.CaretakerRole | src/access_control.rs:68-76 | named "caretaker"; its set is exactly {ViewPatient, ViewGlucose} |
| AccessControl.AdminRole | src/access_control.rs:78-85 | named "admin"; its set is exactly {CreateClinicianAccount} |
| AccessControl.CaretakerIsReadOnly | src/access_control.rs:68-76 | a caretaker permission is never AddGlucose, UpdatePatient, CreateCaretakerLink or an account creation |
| AccessControl.AdminSeesNoPatientData | src/access_control.rs:78-85 | admin lacks ViewPatient and ViewGlucose, and holds nothing a clinician lacks |
| AccessControl.RolesNested | src/access_control.rs:39-76 | caretaker ⊂ patient ⊂ clinician, each inclusion strict |
| Sessions.IsExpired | src/session.rs:27-29 | expired exactly when `now - create_time > exp_time`; a session at its boundary, or created in the future, is not expired |
| Sessions.ExpiryIsPermanent | src/session.rs:27-29 | a session expired at some instant stays expired at every later instant |
| Sessions.FreshSessionLifetime | src/session.rs:56-62 | a session created at t with the one-hour lifetime is live exactly up to and including t + 3600 s |
| Sessions.HexEncode | src/session.rs:52-54 | the token has two characters per byte, each one of `0-9a-f` |
| Sessions.HexDecodeEncode | src/session.rs:54 | decoding an encoded token gives the random bytes back |
| Sessions.HexEncodeDecode | src/session.rs:54 | every even-length lower-case hex string is the encoding of its decoding |
| Sessions.HexEncodeInjective | src/session.rs:52-54 | distinct random bytes give distinct tokens |
| Sessions.LiveAtIdempotent | src/session.rs:78-89 | sweeping twice at the same instant removes nothing more |
| Sessions.LiveAtShrinks | src/session.rs:78-89 | a later sweep keeps no session that an earlier sweep removes |
| Sessions.SessionManager.constructor | src/session.rs:38-42 | a new manager has an empty map and files each session under its own token |
| Sessions.SessionManager.CreateSession | src/session.rs:45-69 | for a clock at or after the epoch: the token is the 64-character hex encoding of the 32 bytes; the map gains that token, mapped to a session for the user created at `now` with a 3600 s lifetime; every other entry is unchanged; the new session is found at `now` |
| Sessions.SessionManager.GetSession | src/session.rs:72-75 | `Some(s)` exactly when the token is filed and its session is not expired at `now`; `s` is the filed session, carries the token and has not outlived its lifetime |
| Sessions.SessionManager.CleanUpExpired | src/session.rs:78-89 | afterwards the map holds exactly the sessions live at `now`, unchanged; every remaining token is found; no lookup at `now` answers differently |
| Queries.FirstMatch | src/db/queries.rs:62-67 | the index found is the first row the WHERE clause selects; none is found only when no row is selected |
| Queries.Keep | src/db/queries.rs:160-161 | a DELETE keeps exactly the rows outside its WHERE clause and never adds rows |
| Queries.KeepAppend | src/db/queries.rs:160-161 | the DELETE works row by row: what it keeps of two stretches of a table is what it keeps of each, in order |
| Queries.KeepSingle | src/db/queries.rs:160-161 | one row is kept exactly when it is outside the WHERE clause; with KeepAppend this fixes order and multiplicity |
| Queries.CountUsersNamed | src/db/queries.rs:14-16 | the count equals the number of row positions carrying the name |
| Queries.CountUsersNamedPositive | src/db/queries.rs:12-19 | the count is positive exactly when some row carries the name |
| Queries.CheckUserNameExists | src/db/queries.rs:12-19 | true exactly when some user row carries the name |
| Queries.GetUserByUsername | src/db/queries.rs:47-68 | `None` exactly when no row carries the name; otherwise the first row carrying it |
| Queries.GetUserByUsernameUnique | src/db/queries.rs:47-68 | with unique names, the lookup returns `u` exactly when `u` is a row with that name |
| Queries.ClinicianNames | src/db/queries.rs:71-85 | a name is listed exactly when some row with role "clinician" carries it; never more names than rows |
| Queries.ClinicianNamesAppend | src/db/queries.rs:79-82 | the names of two stretches of the table are the names of each, in scan order |
| Queries.ClinicianNamesSingle | src/db/queries.rs:79-82 | one row contributes its name exactly when its role is "clinician", so each row gives at most one name |
| Queries.GetAllClinicians | src/db/queries.rs:71-85 | the loop collects exactly the clinician names in scan order |
| Queries.EpochSeconds | src/db/queries.rs:127-131 | the whole seconds since the epoch, truncated; 0 for an instant before the epoch |
| Queries.SessionRowRoundTrip | src/db/queries.rs:126-212 | storing and reloading a session keeps its token and user; it truncates the creation time to the second (0 before the epoch) and the lifetime to whole seconds; it changes nothing at second granularity; a second round trip changes nothing more |
| Queries.GetSessionById | src/db/queries.rs:191-212 | `None` exactly when no row has the token; otherwise the first such row, rebuilt, carrying the token |
| Queries.GetSession | src/db/queries.rs:166-188 | `None` exactly when no row has the username; otherwise the first such row, rebuilt, belonging to that user |
| Queries.RowExpiryAgreesWithSessionExpiry | src/db/queries.rs:216-226 | a row the SQL sweep deletes holds a session that is expired in memory; at whole-second instants the two tests agree exactly |
| Queries.Database.CreateUser | src/db/queries.rs:23-44 | a taken name gives `ExecuteReturnedResults`; a hashing failure gives `InvalidQuery`; on either error nothing is inserted; otherwise exactly one row is appended (hash, role, no last login), the new user is found by name, and usernames stay unique |
| Queries.Database.AddSessionToDb | src/db/queries.rs:126-156 | appends the session's row in whole seconds; when the token was new, looking it up gives the session back at second granularity |
| Queries.Database.RemoveSession | src/db/queries.rs:159-163 | deletes exactly the rows with the token, possibly none; every other row stays, in order; the token is then not found |
| Queries.Database.RemoveExpiredSessions | src/db/queries.rs:216-226 | keeps exactly the rows with `now_secs - creation_time <= expiration_time`; a row exactly at the boundary stays |
| Login.UserLogin | src/menus/login_menu.rs:13-56 | a lookup error, an unknown user or a verifier error gives the failed result; success exactly when the user exists and the verifier answers `Ok(true)`; on success, the stored id and role; in every result success ⇔ user_id present ⇔ role present |
| Login.LoginAgainstUsersTable | src/menus/login_menu.rs:22-46 | against a users table with unique names, a login succeeds exactly when a row with that name has a hash that the verifier accepts; it then reports that row's id and role |
| MenuUtils.TrimStart | src/menus/menu_utils.rs:43 | drops a whitespace-only prefix and leaves a suffix that does not start with whitespace |
| MenuUtils.TrimEnd | src/menus/menu_utils.rs:46 | drops a whitespace-only suffix and leaves a prefix that does not end with whitespace |
| MenuUtils.TrimEmptyIffBlank | src/menus/menu_utils.rs:43-48 | trimming leaves nothing exactly when every character is whitespace |
| MenuUtils.ValidatePatient | src/menus/menu_utils.rs:42-56 | each error is reported exactly when its check fails and every earlier check passes (blank first name, blank last name, negative dosage, low ≥ high threshold); `Ok(())` exactly when the record is well formed |

Members without a row of their own: `AccessControl.Role.HasPermission`
(src/access_control.rs:32-34) is the membership test whose meaning the
`AccessControl.NewRole` row states. `Queries.ToRow` (src/db/queries.rs:128-134)
and `Queries.FromRow` (src/db/queries.rs:181-182, 207-208) are the two
conversions that the `Queries.SessionRowRoundTrip` row states together.
`Queries.Database.constructor` builds a database with both tables empty; it
stands for a freshly initialised database, not for a function of
`src/db/queries.rs`.

## Left out

- `SessionManager::start_cleanup_task` (src/session.rs:91-100): the spawned task and its 30-second interval are scheduling. The `Arc<RwLock<…>>` sharing is concurrency. The model is one store, used by one thread at a time.
- The random generator and the system clock are parameters. Tokens can only be proved distinct when the random bytes are distinct (`HexEncodeInjective`). Global uniqueness of tokens is probabilistic and is not stated.
- Sessions.SessionManager.CreateSession: requires `now >= 0`. With a clock before the UNIX epoch, `create_session` panics through `.expect("Time went backwards")` (src/session.rs:46-48), and the model does not describe a panic.
- Sessions.SessionManager.CleanUpExpired: the whole sweep is judged at one instant `now`. In the program, every `is_expired` call during the sweep reads the clock again (src/session.rs:82), so a session can expire while the sweep is running.
- Sessions.SessionManager.CreateSession: when the random token collides with a token already filed, the new session replaces the old one, as `HashMap::insert` does. No freshness of the token is assumed.
- Errors of the SQL engine (failed `prepare`, `execute` or row decoding) are not modelled. Every statement runs, and the lookups return `Option` rather than `Result<Option<…>>`. The login decision still takes a lookup that may fail, so its error path is modelled there.
- Queries.Database.CreateUser: the Argon2 hasher is an opaque function parameter. The model states that the stored hash is the hasher's output for the password. It cannot state that this output differs from the plaintext. The UUID and the creation timestamp are parameters. A failing INSERT on a colliding UUID is not modelled.
- Password hashing and verification (`src/auth.rs`) are not part of this model. They are the collaborators passed to `CreateUser` and `UserLogin`.
- The `println!` in `user_login` on a verifier error is output only and is left out.
- Integer widths: `u64` seconds that do not fit SQLite's signed 64-bit column are not modelled, and neither is an overflowing `UNIX_EPOCH + Duration`. Times are unbounded integers.
- `src/db/initialize.rs` (lines 98-108) creates a table `sessions(session_id INTEGER, user_id …)` and never creates the table `session` that `src/db/queries.rs` uses. As written, every session statement in `queries.rs` therefore fails with "no such table". The model gives the `session` table the row shape `queries.rs` uses, as if that table existed. It does not model the failure.
- SQL `SELECT` without `ORDER BY` returns rows in scan order. The model takes scan order to be insertion order.
- `create_patient_account` in `src/db/queries.rs` is not part of this model. It is a plain INSERT into the patients table, outside authentication and authorization.
- MenuUtils.ValidatePatient: the `f32` fields are reals. NaN, which passes every `<` comparison, is not modelled.
- The interactive menus (`show_login_menu`, `get_new_account_credentials`, the role menus), the DDL in `src/db/initialize.rs`, the security event log, the glucose and insulin simulation, the CSV import and the abandoned root `session.rs` are not part of this model.
