/** The user-table rules of the auth and admin controllers: registration,
    login, the admin's role, department and delete operations, and the
    newest-first user listing. */
module Accounts {
  import opened Common
  import opened Schema
  import opened Collections

  /** The body of a registration. An absent field is the empty string. */
  datatype Registration = Registration(name: string, email: string, password: string, department: string)

  /** Once anybody is registered, somebody is an admin. */
  predicate HasAdmin(users: seq<User>) {
    |users| > 0 ==> exists i :: 0 <= i < |users| && users[i].role == Admin
  }

  predicate IsAdmin(users: seq<User>, id: Id) {
    exists i :: 0 <= i < |users| && users[i].id == id && users[i].role == Admin
  }

  /** The invariant of the user table: unique ids, unique emails (register
      refuses a taken one), and an admin as soon as the table is not
      empty. */
  predicate TableValid(users: seq<User>) {
    && UniqueKeys(users, UserId)
    && UniqueKeys(users, UserEmail)
    && HasAdmin(users)
  }

  /** The checks of the register handler, in its order, and the role the
      new user gets: the first user of an empty table is the admin, every
      later user an employee. */
  function RegisterCheck(users: seq<User>, input: Registration): (r: Result<Role, Error>)
    ensures input.name == "" || input.email == "" || input.password == "" ==> r == Err(MissingFields)
    ensures r == Err(DuplicateEmail) <==>
              input.name != "" && input.email != "" && input.password != ""
              && exists i :: 0 <= i < |users| && users[i].email == input.email
    ensures r.Ok? <==>
              input.name != "" && input.email != "" && input.password != ""
              && forall i :: 0 <= i < |users| ==> users[i].email != input.email
    ensures r.Ok? ==> (r.value == Admin <==> |users| == 0) && (r.value == Employee <==> |users| > 0)
  {
    if input.name == "" || input.email == "" || input.password == "" then Err(MissingFields)
    else if IndexOf(users, UserEmail, input.email).Some? then Err(DuplicateEmail)
    else Ok(if |users| == 0 then Admin else Employee)
  }

  /** Appending a registered user keeps the table valid. */
  lemma {:induction false} RegisterKeepsTableValid(users: seq<User>, input: Registration, id: Id,
                                                   balance: Balance, now: int)
    requires TableValid(users) && RegisterCheck(users, input).Ok?
    requires forall i :: 0 <= i < |users| ==> users[i].id != id
    ensures TableValid(users + [User(id, input.name, input.email, input.password,
                                     RegisterCheck(users, input).value, input.department, balance, now)])
  {
    var u := User(id, input.name, input.email, input.password, RegisterCheck(users, input).value,
                  input.department, balance, now);
    var users' := users + [u];
    assert forall i :: 0 <= i < |users| ==> users'[i] == users[i];
    if |users| == 0 {
      assert users'[0].role == Admin;
    } else {
      var a :| 0 <= a < |users| && users[a].role == Admin;
      assert users'[a].role == Admin;
    }
  }

  /** The login handler: both fields required; then an unknown email and a
      wrong password give the same answer, so a caller cannot tell which
      one failed. `matches` is the password check of the user model. */
  function Login(users: seq<User>, email: string, password: string, matches: (string, string) -> bool)
    : (r: Result<User, Error>)
    ensures email == "" || password == "" ==> r == Err(MissingFields)
    ensures r.Ok? ==> r.value in users && r.value.email == email && matches(password, r.value.password)
    ensures (email != "" && password != "" && forall i :: 0 <= i < |users| ==> users[i].email != email)
              ==> r == Err(InvalidCredentials)
    ensures email != "" && password != "" && r.Err? ==> r == Err(InvalidCredentials)
    ensures UniqueKeys(users, UserEmail) && email != "" && password != "" ==>
              (r.Ok? <==> exists i :: 0 <= i < |users| && users[i].email == email && matches(password, users[i].password))
  {
    if email == "" || password == "" then Err(MissingFields)
    else match IndexOf(users, UserEmail, email)
      case None => Err(InvalidCredentials)
      case Some(i) => if matches(password, users[i].password) then Ok(users[i]) else Err(InvalidCredentials)
  }

  /** The user listing of the admin controller: every user, newest first. */
  function UsersNewestFirst(users: seq<User>): (r: seq<User>)
    ensures multiset(r) == multiset(users)
    ensures NewestFirstOrder(r, UserCreatedAt)
  {
    NewestFirst(users, UserCreatedAt)
  }

  /** The checks of the role update, in order: a known role (before any
      lookup), an existing user, not the caller. On success, the user's
      position and the new role. */
  function RoleUpdateCheck(users: seq<User>, callerId: Id, targetId: Id, role: string): (r: Result<(nat, Role), Error>)
    ensures ParseRole(role).None? ==> r == Err(InvalidRole)
    ensures ParseRole(role).Some? && IndexOf(users, UserId, targetId).None? ==> r == Err(NotFound)
    ensures r == Err(SelfRoleChange) <==> ParseRole(role).Some? && IndexOf(users, UserId, targetId).Some? && targetId == callerId
    ensures r.Ok? ==>
              && IndexOf(users, UserId, targetId) == Some(r.value.0)
              && targetId != callerId
              && ParseRole(role) == Some(r.value.1)
    ensures r.Ok? <==> ParseRole(role).Some? && IndexOf(users, UserId, targetId).Some? && targetId != callerId
  {
    match ParseRole(role)
    case None => Err(InvalidRole)
    case Some(newRole) =>
      match IndexOf(users, UserId, targetId)
      case None => Err(NotFound)
      case Some(i) => if users[i].id == callerId then Err(SelfRoleChange) else Ok((i, newRole))
  }

  /** The checks of the department update: a non-empty department, then an
      existing user. The caller's own department may change. */
  function DepartmentUpdateCheck(users: seq<User>, targetId: Id, department: string): (r: Result<nat, Error>)
    ensures department == "" ==> r == Err(DepartmentRequired)
    ensures department != "" ==> (r == Err(NotFound) <==> IndexOf(users, UserId, targetId).None?)
    ensures r.Ok? ==> IndexOf(users, UserId, targetId) == Some(r.value) && department != ""
    ensures r.Ok? <==> department != "" && IndexOf(users, UserId, targetId).Some?
  {
    if department == "" then Err(DepartmentRequired)
    else match IndexOf(users, UserId, targetId)
      case None => Err(NotFound)
      case Some(i) => Ok(i)
  }

  /** The checks of the delete handler: an existing user, not the caller. */
  function DeleteUserCheck(users: seq<User>, callerId: Id, targetId: Id): (r: Result<nat, Error>)
    ensures r == Err(NotFound) <==> IndexOf(users, UserId, targetId).None?
    ensures r == Err(SelfDelete) <==> IndexOf(users, UserId, targetId).Some? && targetId == callerId
    ensures r.Ok? ==> IndexOf(users, UserId, targetId) == Some(r.value) && targetId != callerId
    ensures r.Ok? <==> IndexOf(users, UserId, targetId).Some? && targetId != callerId
  {
    match IndexOf(users, UserId, targetId)
    case None => Err(NotFound)
    case Some(i) => if users[i].id == callerId then Err(SelfDelete) else Ok(i)
  }

  /** An admin acting on the table never removes the last admin: they
      cannot demote or delete themselves, so they stay an admin. */
  lemma {:induction false} AdminSurvivesRoleUpdate(users: seq<User>, callerId: Id, targetId: Id, role: string)
    requires TableValid(users) && IsAdmin(users, callerId)
    requires RoleUpdateCheck(users, callerId, targetId, role).Ok?
    ensures var (i, newRole) := RoleUpdateCheck(users, callerId, targetId, role).value;
            var users' := users[i := users[i].(role := newRole)];
            TableValid(users') && IsAdmin(users', callerId)
  {
    var (i, newRole) := RoleUpdateCheck(users, callerId, targetId, role).value;
    var users' := users[i := users[i].(role := newRole)];
    var c :| 0 <= c < |users| && users[c].id == callerId && users[c].role == Admin;
    assert c != i;
    assert users'[c] == users[c];
    assert forall j :: 0 <= j < |users| ==> UserId(users'[j]) == UserId(users[j]);
    assert forall j :: 0 <= j < |users| ==> UserEmail(users'[j]) == UserEmail(users[j]);
  }

  lemma {:induction false} AdminSurvivesDelete(users: seq<User>, callerId: Id, targetId: Id)
    requires TableValid(users) && IsAdmin(users, callerId)
    requires DeleteUserCheck(users, callerId, targetId).Ok?
    ensures var users' := RemoveAt(users, DeleteUserCheck(users, callerId, targetId).value);
            && TableValid(users') && IsAdmin(users', callerId)
            && IndexOf(users', UserId, targetId).None?
  {
    var i := DeleteUserCheck(users, callerId, targetId).value;
    var users' := RemoveAt(users, i);
    RemoveAtDropsKey(users, UserId, i);
    RemoveAtDropsKey(users, UserEmail, i);
    var c :| 0 <= c < |users| && users[c].id == callerId && users[c].role == Admin;
    assert c != i;
    var c' := if c < i then c else c - 1;
    assert users'[c'] == users[c];
  }
}
