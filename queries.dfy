/**
 * The SQL-backed user and session store (src/db/queries.rs).
 *
 * Each table is the sequence of its rows in scan order. A query that only
 * reads (SELECT) is a function or a method of the table contents; a statement
 * that writes (INSERT, DELETE) is a method of the `Database` class, which
 * holds both tables. Storage failures of the SQL engine are not modelled: every
 * statement runs.
 */
module Queries {
  import opened Wrappers
  import opened Models
  import opened Sessions

  /** The two errors `create_user` reports itself. */
  datatype DbError =
    | ExecuteReturnedResults  // the username is taken
    | InvalidQuery            // the password could not be hashed

  /** Failure of the password hasher, an opaque collaborator. */
  datatype PasswordHashError = PasswordHashError

  /** One row of the `session` table; both times are in whole seconds. */
  datatype SessionRow = SessionRow(session_id: string, username: string, creation_time: nat, expiration_time: nat)

  // ---------------------------------------------------------------------------
  // Row selection shared by the queries.

  /** The index of the first row, in scan order, that `selected` picks out. */
  function FirstMatch<T>(rows: seq<T>, selected: T -> bool): (r: Option<nat>)
    ensures r.Some? ==> r.value < |rows| && selected(rows[r.value])
    ensures r.Some? ==> forall j :: 0 <= j < r.value ==> !selected(rows[j])
    ensures r.None? <==> forall j :: 0 <= j < |rows| ==> !selected(rows[j])
  {
    if rows == [] then None
    else if selected(rows[0]) then Some(0)
    else match FirstMatch(rows[1..], selected)
      case None => None
      case Some(k) => Some(k + 1)
  }

  /** The rows a DELETE with the negation of `kept` as its WHERE clause leaves, in their order. */
  function Keep<T(!new)>(rows: seq<T>, kept: T -> bool): (r: seq<T>)
    ensures |r| <= |rows|
    ensures forall x :: x in r <==> x in rows && kept(x)
  {
    if rows == [] then []
    else (if kept(rows[0]) then [rows[0]] else []) + Keep(rows[1..], kept)
  }

  /** Keep works row by row: the rows kept from two stretches of a table are those kept from each, in order. */
  lemma {:induction false} KeepAppend<T(!new)>(a: seq<T>, b: seq<T>, kept: T -> bool)
    ensures Keep(a + b, kept) == Keep(a, kept) + Keep(b, kept)
  {
    if a == [] {
      assert a + b == b;
    } else {
      var head := if kept(a[0]) then [a[0]] else [];
      assert (a + b)[0] == a[0];
      assert (a + b)[1..] == a[1..] + b;
      calc {
        Keep(a + b, kept);
        head + Keep(a[1..] + b, kept);
        { KeepAppend(a[1..], b, kept); }
        head + (Keep(a[1..], kept) + Keep(b, kept));
        (head + Keep(a[1..], kept)) + Keep(b, kept);
        Keep(a, kept) + Keep(b, kept);
      }
    }
  }

  /** A single row is kept exactly when it is outside the WHERE clause. */
  lemma KeepSingle<T(!new)>(x: T, kept: T -> bool)
    ensures Keep([x], kept) == if kept(x) then [x] else []
  {
  }

  // ---------------------------------------------------------------------------
  // The users table.

  /** `SELECT COUNT(*) FROM users WHERE user_name = ?1`: the number of rows carrying the name. */
  function CountUsersNamed(users: seq<User>, username: string): (n: nat)
    ensures n == |set i | 0 <= i < |users| && users[i].user_name == username|
  {
    if users == [] then 0
    else
      var init, last := users[..|users| - 1], users[|users| - 1];
      var n := CountUsersNamed(init, username) + (if last.user_name == username then 1 else 0);
      assert (set i | 0 <= i < |users| && users[i].user_name == username) ==
        (set i | 0 <= i < |init| && init[i].user_name == username) +
        (if last.user_name == username then {|users| - 1} else {});
      n
  }

  /** The count is positive exactly when some row carries the name. */
  lemma CountUsersNamedPositive(users: seq<User>, username: string)
    ensures CountUsersNamed(users, username) > 0 <==>
      exists i :: 0 <= i < |users| && users[i].user_name == username
  {
  }

  /** `check_user_name_exists`: whether the name is already taken. */
  function CheckUserNameExists(users: seq<User>, username: string): (taken: bool)
    ensures taken <==> exists i :: 0 <= i < |users| && users[i].user_name == username
  {
    CountUsersNamedPositive(users, username);
    CountUsersNamed(users, username) > 0
  }

  /** Usernames are unique in the users table. */
  ghost predicate UniqueUserNames(users: seq<User>) {
    forall i, j :: 0 <= i < j < |users| ==> users[i].user_name != users[j].user_name
  }

  /** `get_user_by_username`: the first row carrying the name, if any. */
  function GetUserByUsername(users: seq<User>, username: string): (r: Option<User>)
    ensures r.None? <==> !CheckUserNameExists(users, username)
    ensures r.Some? ==> r.value.user_name == username
    ensures r.Some? ==> exists i :: (0 <= i < |users| && users[i] == r.value &&
      forall j :: 0 <= j < i ==> users[j].user_name != username)
  {
    match FirstMatch(users, (u: User) => u.user_name == username)
    case None => None
    case Some(i) => Some(users[i])
  }

  /** With unique usernames the lookup finds exactly the row carrying the name. */
  lemma GetUserByUsernameUnique(users: seq<User>, username: string, u: User)
    requires UniqueUserNames(users)
    ensures GetUserByUsername(users, username) == Some(u) <==> u in users && u.user_name == username
  {
  }

  /** The names of the clinician rows, in scan order. */
  function ClinicianNames(users: seq<User>): (names: seq<string>)
    ensures |names| <= |users|
    ensures forall name :: name in names <==>
      exists i :: 0 <= i < |users| && users[i].role == "clinician" && users[i].user_name == name
  {
    if users == [] then []
    else
      var init, last := users[..|users| - 1], users[|users| - 1];
      var names := ClinicianNames(init) + (if last.role == "clinician" then [last.user_name] else []);
      assert forall i :: 0 <= i < |init| ==> init[i] == users[i];
      names
  }

  /** Clinician names are collected row by row: two stretches of the table give their names in order. */
  lemma {:induction false} ClinicianNamesAppend(a: seq<User>, b: seq<User>)
    ensures ClinicianNames(a + b) == ClinicianNames(a) + ClinicianNames(b)
  {
    if b == [] {
      assert a + b == a;
    } else {
      var init := b[..|b| - 1];
      ClinicianNamesAppend(a, init);
      assert (a + b)[..|a + b| - 1] == a + init;
      assert (a + b)[|a + b| - 1] == b[|b| - 1];
    }
  }

  /** A single row contributes its name exactly when its role is "clinician". */
  lemma ClinicianNamesSingle(u: User)
    ensures ClinicianNames([u]) == if u.role == "clinician" then [u.user_name] else []
  {
  }

  /** `get_all_clinicians`: walks the users table and collects the name of every clinician row. */
  method GetAllClinicians(users: seq<User>) returns (usernames: seq<string>)
    ensures usernames == ClinicianNames(users)
  {
    usernames := [];
    for i := 0 to |users|
      invariant usernames == ClinicianNames(users[..i])
    {
      if users[i].role == "clinician" {
        usernames := usernames + [users[i].user_name];
      }
      assert users[..i + 1][..i] == users[..i];
    }
    assert users[..|users|] == users;
  }

  // ---------------------------------------------------------------------------
  // The session table.

  /**
   * `duration_since(UNIX_EPOCH).unwrap_or_default().as_secs()`: whole seconds
   * since the epoch, truncated; an instant before the epoch counts as zero.
   */
  function EpochSeconds(t: Time): (secs: nat)
    ensures t >= 0 ==> secs * NanosPerSecond <= t < (secs + 1) * NanosPerSecond
    ensures t < 0 ==> secs == 0
  {
    if t < 0 then 0 else t / NanosPerSecond
  }

  /** The row `add_session_to_db` writes for a session. */
  function ToRow(s: Session): SessionRow {
    SessionRow(s.session_id, s.user, EpochSeconds(s.create_time), s.exp_time / NanosPerSecond)
  }

  /** The session `get_session` and `get_session_by_id` rebuild from a row: `UNIX_EPOCH + secs`. */
  function FromRow(row: SessionRow): Session {
    Session(row.session_id, row.username, row.creation_time * NanosPerSecond, row.expiration_time * NanosPerSecond)
  }

  /**
   * Storing and reloading a session keeps its token and user, truncates its
   * creation time to the whole second (zero before the epoch) and its
   * lifetime to whole seconds; a session already at second granularity comes
   * back unchanged.
   */
  lemma SessionRowRoundTrip(s: Session)
    ensures FromRow(ToRow(s)).session_id == s.session_id && FromRow(ToRow(s)).user == s.user
    ensures s.create_time >= 0 ==>
      FromRow(ToRow(s)).create_time <= s.create_time < FromRow(ToRow(s)).create_time + NanosPerSecond
    ensures s.create_time < 0 ==> FromRow(ToRow(s)).create_time == 0
    ensures FromRow(ToRow(s)).exp_time <= s.exp_time < FromRow(ToRow(s)).exp_time + NanosPerSecond
    ensures s.create_time >= 0 && s.create_time % NanosPerSecond == 0 && s.exp_time % NanosPerSecond == 0 ==>
      FromRow(ToRow(s)) == s
    ensures ToRow(FromRow(ToRow(s))) == ToRow(s)
  {
  }

  /** `get_session_by_id`: the first session row with the token, rebuilt. */
  function GetSessionById(rows: seq<SessionRow>, session_id: string): (r: Option<Session>)
    ensures r.None? <==> forall i :: 0 <= i < |rows| ==> rows[i].session_id != session_id
    ensures r.Some? ==> r.value.session_id == session_id
    ensures r.Some? ==> exists i :: (0 <= i < |rows| && r.value == FromRow(rows[i]) &&
      forall j :: 0 <= j < i ==> rows[j].session_id != session_id)
  {
    match FirstMatch(rows, (row: SessionRow) => row.session_id == session_id)
    case None => None
    case Some(i) => Some(FromRow(rows[i]))
  }

  /** `get_session`: the first session row of the user, rebuilt. */
  function GetSession(rows: seq<SessionRow>, username: string): (r: Option<Session>)
    ensures r.None? <==> forall i :: 0 <= i < |rows| ==> rows[i].username != username
    ensures r.Some? ==> r.value.user == username
    ensures r.Some? ==> exists i :: (0 <= i < |rows| && r.value == FromRow(rows[i]) &&
      forall j :: 0 <= j < i ==> rows[j].username != username)
  {
    match FirstMatch(rows, (row: SessionRow) => row.username == username)
    case None => None
    case Some(i) => Some(FromRow(rows[i]))
  }

  /** The WHERE clause of `remove_expired_sessions`, in whole seconds. */
  predicate RowExpired(row: SessionRow, nowSecs: nat) {
    nowSecs - row.creation_time > row.expiration_time
  }

  /**
   * The SQL sweep never removes a session the in-memory expiry test still
   * considers live; at whole-second instants the two agree exactly. (Between
   * whole seconds the SQL sweep may keep an expired row until the next second.)
   */
  lemma RowExpiryAgreesWithSessionExpiry(row: SessionRow, now: Time)
    requires now >= 0
    ensures RowExpired(row, EpochSeconds(now)) ==> IsExpired(FromRow(row), now)
    ensures now % NanosPerSecond == 0 ==> (RowExpired(row, EpochSeconds(now)) <==> IsExpired(FromRow(row), now))
  {
  }

  class Database {
    var users: seq<User>
    var sessions: seq<SessionRow>

    /** The UNIQUE constraint on `user_name`, which `create_user` also checks. */
    ghost predicate Valid()
      reads this
    {
      UniqueUserNames(users)
    }

    constructor ()
      ensures Valid()
      ensures users == [] && sessions == []
    {
      users, sessions := [], [];
    }

    /**
     * `create_user`: refuses a taken username, then hashes the password
     * (`hashPassword` is the opaque hasher; `newId` and `createdAt` stand for
     * the fresh UUID and the clock), and inserts one row holding the hash, the
     * role and no last login.
     */
    method CreateUser(username: string, password: string, role: string,
                      hashPassword: string -> Result<string, PasswordHashError>,
                      newId: string, createdAt: string)
      returns (r: Result<(), DbError>)
      requires Valid()
      modifies this
      ensures Valid()
      ensures sessions == old(sessions)
      ensures CheckUserNameExists(old(users), username) ==> r == Failure(ExecuteReturnedResults)
      ensures !CheckUserNameExists(old(users), username) && hashPassword(password).Failure? ==> r == Failure(InvalidQuery)
      ensures r.Failure? ==> users == old(users)
      ensures r.Success? <==> !CheckUserNameExists(old(users), username) && hashPassword(password).Success?
      ensures r.Success? ==> users == old(users) + [User(newId, username, hashPassword(password).value, role, createdAt, None)]
      ensures r.Success? ==>
        GetUserByUsername(users, username) == Some(User(newId, username, hashPassword(password).value, role, createdAt, None))
    {
      if CheckUserNameExists(users, username) {
        return Failure(ExecuteReturnedResults);
      }
      var hashed := hashPassword(password);
      if hashed.Failure? {
        return Failure(InvalidQuery);
      }
      var newUser := User(newId, username, hashed.value, role, createdAt, None);
      users := users + [newUser];
      GetUserByUsernameUnique(users, username, newUser);
      r := Success(());
    }

    /**
     * `add_session_to_db`: appends the session's row, times in whole seconds.
     * When no row had its token before, looking the token up gives the session
     * back at second granularity.
     */
    method AddSessionToDb(session: Session)
      modifies this
      ensures users == old(users)
      ensures sessions == old(sessions) + [ToRow(session)]
      ensures old(GetSessionById(sessions, session.session_id)).None? ==>
        GetSessionById(sessions, session.session_id) == Some(FromRow(ToRow(session)))
    {
      ghost var before := sessions;
      sessions := sessions + [ToRow(session)];
      if GetSessionById(before, session.session_id).None? {
        var r := GetSessionById(sessions, session.session_id);
        assert sessions[|before|].session_id == session.session_id;
        assert r.Some?;
        var i :| 0 <= i < |sessions| && r.value == FromRow(sessions[i]) &&
          forall j :: 0 <= j < i ==> sessions[j].session_id != session.session_id;
        assert i == |before|;
      }
    }

    /**
     * `remove_session`: deletes every row with the token, which may be none;
     * every other row stays, in order.
     */
    method RemoveSession(session_id: string)
      modifies this
      ensures users == old(users)
      ensures sessions == Keep(old(sessions), (row: SessionRow) => row.session_id != session_id)
      ensures forall row :: row in sessions <==> row in old(sessions) && row.session_id != session_id
      ensures GetSessionById(sessions, session_id) == None
    {
      sessions := Keep(sessions, (row: SessionRow) => row.session_id != session_id);
    }

    /**
     * `remove_expired_sessions`: deletes, at the current whole second, exactly
     * the rows older than their lifetime; a row exactly at its lifetime stays.
     */
    method RemoveExpiredSessions(now: Time)
      modifies this
      ensures users == old(users)
      ensures sessions == Keep(old(sessions), (row: SessionRow) => !RowExpired(row, EpochSeconds(now)))
      ensures forall row :: row in sessions <==>
        row in old(sessions) && EpochSeconds(now) - row.creation_time <= row.expiration_time
      ensures forall row :: row in old(sessions) && EpochSeconds(now) - row.creation_time == row.expiration_time ==>
        row in sessions
    {
      var nowSecs := EpochSeconds(now);
      sessions := Keep(sessions, (row: SessionRow) => !RowExpired(row, nowSecs));
    }
  }
}
