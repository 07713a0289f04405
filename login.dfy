/**
 * The login decision (`user_login` in src/menus/login_menu.rs): look the user
 * up, check the password against the stored hash, and report who logged in.
 * The user lookup and the password verifier are collaborators passed in as
 * functions.
 */
module Login {
  import opened Wrappers
  import opened Models
  import opened Queries

  /** A failure of the storage engine while looking the user up. */
  datatype StorageError = StorageError

  /** A failure of the password verifier itself (for instance a stored hash it cannot parse). */
  datatype VerifyError = VerifyError

  datatype LoginResult = LoginResult(success: bool, user_id: Option<string>, role: Option<string>)

  /** The result every failed login returns. */
  const FailedLogin := LoginResult(false, None, None)

  /**
   * `user_login`: fails on a lookup error, an unknown user, a verifier error or
   * a wrong password; otherwise reports the stored user's id and role.
   */
  function UserLogin(
    lookup: string -> Result<Option<User>, StorageError>,
    verifyPassword: (string, string) -> Result<bool, VerifyError>,
    username: string,
    password: string): (r: LoginResult)
    ensures lookup(username).Failure? ==> r == FailedLogin
    ensures lookup(username) == Success(None) ==> r == FailedLogin
    ensures (lookup(username).Success? && lookup(username).value.Some? &&
             verifyPassword(password, lookup(username).value.value.password_hash).Failure?) ==>
      r == FailedLogin
    ensures r.success <==>
      && lookup(username).Success?
      && lookup(username).value.Some?
      && verifyPassword(password, lookup(username).value.value.password_hash) == Success(true)
    ensures r.success ==>
      && r.user_id == Some(lookup(username).value.value.id)
      && r.role == Some(lookup(username).value.value.role)
    ensures !r.success ==> r == FailedLogin
    ensures r.success <==> r.user_id.Some?
    ensures r.success <==> r.role.Some?
  {
    match lookup(username)
    case Failure(_) => FailedLogin
    case Success(None) => FailedLogin
    case Success(Some(user)) =>
      match verifyPassword(password, user.password_hash)
      case Failure(_) => FailedLogin
      case Success(valid) =>
        if valid then LoginResult(true, Some(user.id), Some(user.role)) else FailedLogin
  }

  /** The lookup `user_login` performs when storage does not fail: `get_user_by_username` on the users table. */
  function UsersTableLookup(users: seq<User>): string -> Result<Option<User>, StorageError> {
    (name: string) => Success(GetUserByUsername(users, name))
  }

  /**
   * Against a users table with unique names, a login succeeds exactly when
   * the table holds a row with that name whose hash the verifier accepts for
   * the password, and it then reports that row's id and role.
   */
  lemma LoginAgainstUsersTable(
    users: seq<User>,
    verifyPassword: (string, string) -> Result<bool, VerifyError>,
    username: string,
    password: string)
    requires UniqueUserNames(users)
    ensures UserLogin(UsersTableLookup(users), verifyPassword, username, password).success <==>
      exists u :: u in users && u.user_name == username && verifyPassword(password, u.password_hash) == Success(true)
    ensures forall u :: u in users && u.user_name == username ==>
      var r := UserLogin(UsersTableLookup(users), verifyPassword, username, password);
      r.success ==> r.user_id == Some(u.id) && r.role == Some(u.role)
  {
  }
}
