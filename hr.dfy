/** The store the controllers work on: the user table and the two request
    collections, with the handlers that change them. Each handler runs the
    checks of its controller and then updates the collections in place, as
    the controllers update their documents. Ids come from a counter, so a
    new document never reuses an id; creation times are passed in. */
module Hr {
  import opened Common
  import opened Schema
  import opened Collections
  import opened Workflow
  import Leaves
  import Claims
  import Accounts

  /** A collection of requests with unique ids below the counter, each
      admitted by its schema `valid`. */
  predicate RecordsValid<D>(rs: seq<Request<D>>, nextId: Id, valid: Request<D> -> bool) {
    && UniqueKeys(rs, RequestId<D>)
    && forall i :: 0 <= i < |rs| ==> rs[i].id < nextId && valid(rs[i])
  }

  /** Unique ids below the counter in every collection, every record as
      its schema admits it (so every status is pending, approved or
      rejected, with review fields set exactly once it is not pending),
      and a valid user table. */
  predicate StoreValid(users: seq<User>, leaves: seq<Request<LeaveDetails>>,
                       claims: seq<Request<ClaimDetails>>, nextId: Id)
  {
    && Accounts.TableValid(users)
    && (forall i :: 0 <= i < |users| ==> users[i].id < nextId)
    && RecordsValid(leaves, nextId, LeaveRecordValid)
    && RecordsValid(claims, nextId, ClaimRecordValid)
  }

  /** A valid record that takes the next id can be appended. */
  lemma {:induction false} AppendKeepsRecordsValid<D>(rs: seq<Request<D>>, nextId: Id, valid: Request<D> -> bool,
                                                      r: Request<D>)
    requires RecordsValid(rs, nextId, valid) && r.id == nextId && valid(r)
    ensures RecordsValid(rs + [r], nextId + 1, valid)
  {
    var rs' := rs + [r];
    assert forall i :: 0 <= i < |rs| ==> rs'[i] == rs[i];
  }

  /** A record may be replaced by a valid one with the same id. */
  lemma {:induction false} ReplaceKeepsRecordsValid<D>(rs: seq<Request<D>>, nextId: Id, valid: Request<D> -> bool,
                                                       i: nat, r: Request<D>)
    requires RecordsValid(rs, nextId, valid) && i < |rs| && r.id == rs[i].id && valid(r)
    ensures RecordsValid(rs[i := r], nextId, valid)
  {
    var rs' := rs[i := r];
    assert forall j :: 0 <= j < |rs| ==> RequestId(rs'[j]) == RequestId(rs[j]);
  }

  /** Any record may be removed. */
  lemma {:induction false} RemoveKeepsRecordsValid<D>(rs: seq<Request<D>>, nextId: Id, valid: Request<D> -> bool,
                                                      i: nat)
    requires RecordsValid(rs, nextId, valid) && i < |rs|
    ensures RecordsValid(RemoveAt(rs, i), nextId, valid)
  {
    RemoveAtDropsKey(rs, RequestId<D>, i);
  }

  /** Storing a new valid record under the next id, and advancing the
      counter, keeps the store valid. */
  lemma AddLeaveKeepsStoreValid(users: seq<User>, leaves: seq<Request<LeaveDetails>>,
                                claims: seq<Request<ClaimDetails>>, nextId: Id, leave: Request<LeaveDetails>)
    requires StoreValid(users, leaves, claims, nextId) && leave.id == nextId && LeaveRecordValid(leave)
    ensures StoreValid(users, leaves + [leave], claims, nextId + 1)
  {
    AppendKeepsRecordsValid(leaves, nextId, LeaveRecordValid, leave);
    RecordsValidUnderLargerBound(claims, nextId, ClaimRecordValid);
  }

  lemma AddClaimKeepsStoreValid(users: seq<User>, leaves: seq<Request<LeaveDetails>>,
                                claims: seq<Request<ClaimDetails>>, nextId: Id, claim: Request<ClaimDetails>)
    requires StoreValid(users, leaves, claims, nextId) && claim.id == nextId && ClaimRecordValid(claim)
    ensures StoreValid(users, leaves, claims + [claim], nextId + 1)
  {
    AppendKeepsRecordsValid(claims, nextId, ClaimRecordValid, claim);
    RecordsValidUnderLargerBound(leaves, nextId, LeaveRecordValid);
  }

  /** A leave record the apply handler validated can be stored. */
  lemma ApplyLeaveKeepsStoreValid(users: seq<User>, leaves: seq<Request<LeaveDetails>>,
                                  claims: seq<Request<ClaimDetails>>, nextId: Id, balance: Balance,
                                  input: Leaves.LeaveInput, details: LeaveDetails, callerId: Id, now: int)
    requires StoreValid(users, leaves, claims, nextId) && Leaves.Validate(balance, input) == Ok(details)
    ensures StoreValid(users, leaves + [NewRequest(nextId, callerId, details, now)], claims, nextId + 1)
  {
    Leaves.ValidatedRecordIsValid(balance, input, details, nextId, callerId, now);
    AddLeaveKeepsStoreValid(users, leaves, claims, nextId, NewRequest(nextId, callerId, details, now));
  }

  /** A reimbursement record the apply handler validated can be stored. */
  lemma ApplyClaimKeepsStoreValid(users: seq<User>, leaves: seq<Request<LeaveDetails>>,
                                  claims: seq<Request<ClaimDetails>>, nextId: Id,
                                  input: Claims.ClaimInput, details: ClaimDetails, callerId: Id, now: int)
    requires StoreValid(users, leaves, claims, nextId) && Claims.Validate(input) == Ok(details)
    ensures StoreValid(users, leaves, claims + [NewRequest(nextId, callerId, details, now)], nextId + 1)
  {
    Claims.ValidatedRecordIsValid(input, details, nextId, callerId, now);
    AddClaimKeepsStoreValid(users, leaves, claims, nextId, NewRequest(nextId, callerId, details, now));
  }

  /** Reviewing a pending leave, and on approval debiting its owner, keeps
      the store valid. */
  lemma ReviewLeaveKeepsStoreValid(users: seq<User>, leaves: seq<Request<LeaveDetails>>,
                                   claims: seq<Request<ClaimDetails>>, nextId: Id, i: nat, status: Status,
                                   reviewer: Id, note: Option<string>, now: int)
    requires StoreValid(users, leaves, claims, nextId) && i < |leaves|
    requires leaves[i].status == Pending && status != Pending
    ensures var leave := Reviewed(leaves[i], status, reviewer, note, now);
            status == Approved ==>
              StoreValid(Leaves.Debit(users, leave.employee, leave.details.leaveType, leave.details.days),
                         leaves[i := leave], claims, nextId)
    ensures status != Approved ==> StoreValid(users, leaves[i := Reviewed(leaves[i], status, reviewer, note, now)], claims, nextId)
  {
    var leave := Reviewed(leaves[i], status, reviewer, note, now);
    ReplaceKeepsRecordsValid(leaves, nextId, LeaveRecordValid, i, leave);
    if status == Approved {
      var debited := Leaves.Debit(users, leave.employee, leave.details.leaveType, leave.details.days);
      SameAccountsKeepsValid(users, debited, leaves[i := leave], claims, nextId);
    }
  }

  lemma RecordsValidUnderLargerBound<D>(rs: seq<Request<D>>, nextId: Id, valid: Request<D> -> bool)
    requires RecordsValid(rs, nextId, valid)
    ensures RecordsValid(rs, nextId + 1, valid)
  {
  }

  /** The user table may change in any way that keeps ids, emails and
      roles. */
  lemma SameAccountsKeepsValid(users: seq<User>, users': seq<User>, leaves: seq<Request<LeaveDetails>>,
                               claims: seq<Request<ClaimDetails>>, nextId: Id)
    requires StoreValid(users, leaves, claims, nextId) && |users'| == |users|
    requires forall j :: 0 <= j < |users| ==>
               users'[j].id == users[j].id && users'[j].email == users[j].email && users'[j].role == users[j].role
    ensures StoreValid(users', leaves, claims, nextId)
  {
    assert forall j :: 0 <= j < |users| ==> UserId(users'[j]) == UserId(users[j]);
    assert forall j :: 0 <= j < |users| ==> UserEmail(users'[j]) == UserEmail(users[j]);
    if |users| > 0 {
      var a :| 0 <= a < |users| && users[a].role == Admin;
      assert users'[a].role == Admin;
    }
  }

  class HrSystem {
    var users: seq<User>
    var leaves: seq<Request<LeaveDetails>>
    var claims: seq<Request<ClaimDetails>>
    var nextId: Id

    ghost predicate Valid()
      reads this
    {
      StoreValid(users, leaves, claims, nextId)
    }

    constructor ()
      ensures Valid()
      ensures users == [] && leaves == [] && claims == []
    {
      users, leaves, claims, nextId := [], [], [], 0;
    }

    /** The caller's leave balance; the caller was resolved from the user
        table by the session middleware. */
    function CallerBalance(callerId: Id): Balance
      reads this
      requires IndexOf(users, UserId, callerId).Some?
    {
      users[IndexOf(users, UserId, callerId).value].balance
    }

    // -------------------------------------------------------------------
    // Leaves

    /** Apply for leave: on success exactly one new pending record, owned by
        the caller, is added; balances do not change. On failure nothing
        changes. */
    method ApplyLeave(callerId: Id, input: Leaves.LeaveInput, now: int)
      returns (res: Result<Request<LeaveDetails>, Error>)
      requires Valid() && IndexOf(users, UserId, callerId).Some?
      modifies this
      ensures Valid()
      ensures users == old(users) && claims == old(claims)
      ensures var check := Leaves.Validate(old(CallerBalance(callerId)), input);
              check.Err? ==> res == Err(check.error) && leaves == old(leaves) && nextId == old(nextId)
      ensures var check := Leaves.Validate(old(CallerBalance(callerId)), input);
              check.Ok? ==>
                var leave := NewRequest(old(nextId), callerId, check.value, now);
                res == Ok(leave) && leaves == old(leaves) + [leave] && nextId == old(nextId) + 1
    {
      var user := users[IndexOf(users, UserId, callerId).value];
      var check := Leaves.CheckApplication(user.balance, input);
      if check.Err? {
        return Err(check.error);
      }
      var leave := NewRequest(nextId, callerId, check.value, now);
      ApplyLeaveKeepsStoreValid(users, leaves, claims, nextId, user.balance, input, check.value, callerId, now);
      leaves := leaves + [leave];
      nextId := nextId + 1;
      res := Ok(leave);
    }

    /** Review a leave request (managers and admins only, by the route
        gate). On success the record gets the status and review fields and,
        on approval, the owner's balance of that leave type goes down by the
        record's days; a rejection touches no balance. On failure nothing
        changes. */
    method ReviewLeave(callerId: Id, callerRole: Role, id: Id, decision: string, note: Option<string>, now: int)
      returns (res: Result<Request<LeaveDetails>, Error>)
      requires Valid() && RoleOf(users, callerId) == Some(callerRole) && callerRole != Employee
      modifies this
      ensures Valid()
      ensures claims == old(claims) && nextId == old(nextId)
      ensures var check := ReviewCheck(old(leaves), old(users), callerRole, id, decision);
              check.Err? ==> res == Err(check.error) && leaves == old(leaves) && users == old(users)
      ensures var check := ReviewCheck(old(leaves), old(users), callerRole, id, decision);
              check.Ok? ==>
                var (i, status) := check.value;
                var leave := Reviewed(old(leaves)[i], status, callerId, note, now);
                && res == Ok(leave)
                && leaves == old(leaves)[i := leave]
                && users == if status == Approved
                            then Leaves.Debit(old(users), leave.employee, leave.details.leaveType, leave.details.days)
                            else old(users)
    {
      var check := ReviewCheck(leaves, users, callerRole, id, decision);
      if check.Err? {
        return Err(check.error);
      }
      var (i, status) := check.value;
      var leave := Reviewed(leaves[i], status, callerId, note, now);
      ReviewLeaveKeepsStoreValid(users, leaves, claims, nextId, i, status, callerId, note, now);
      leaves := leaves[i := leave];
      if status == Approved {
        users := Leaves.Debit(users, leave.employee, leave.details.leaveType, leave.details.days);
      }
      res := Ok(leave);
    }

    /** Delete a leave request: only its owner, only while pending. On
        success exactly that record is removed. */
    method DeleteLeave(callerId: Id, id: Id) returns (res: Result<(), Error>)
      requires Valid()
      modifies this
      ensures Valid()
      ensures users == old(users) && claims == old(claims) && nextId == old(nextId)
      ensures match DeleteCheck(old(leaves), callerId, id)
              case Err(e) => res == Err(e) && leaves == old(leaves)
              case Ok(i) => res == Ok(()) && leaves == RemoveAt(old(leaves), i)
    {
      var check := DeleteCheck(leaves, callerId, id);
      if check.Err? {
        return Err(check.error);
      }
      RemoveKeepsRecordsValid(leaves, nextId, LeaveRecordValid, check.value);
      leaves := RemoveAt(leaves, check.value);
      res := Ok(());
    }

    // -------------------------------------------------------------------
    // Reimbursements

    /** Apply for a reimbursement: on success exactly one new pending record
        owned by the caller, holding the converted amount. On failure
        nothing changes. */
    method ApplyClaim(callerId: Id, input: Claims.ClaimInput, now: int)
      returns (res: Result<Request<ClaimDetails>, Error>)
      requires Valid()
      modifies this
      ensures Valid()
      ensures users == old(users) && leaves == old(leaves)
      ensures Claims.Validate(input).Err? ==>
                res == Err(Claims.Validate(input).error) && claims == old(claims) && nextId == old(nextId)
      ensures Claims.Validate(input).Ok? ==>
                var claim := NewRequest(old(nextId), callerId, Claims.Validate(input).value, now);
                res == Ok(claim) && claims == old(claims) + [claim] && nextId == old(nextId) + 1
    {
      var check := Claims.Validate(input);
      if check.Err? {
        return Err(check.error);
      }
      var claim := NewRequest(nextId, callerId, check.value, now);
      ApplyClaimKeepsStoreValid(users, leaves, claims, nextId, input, check.value, callerId, now);
      claims := claims + [claim];
      nextId := nextId + 1;
      res := Ok(claim);
    }

    /** Review a reimbursement (managers and admins only, by the route
        gate): the same checks and record update as for leaves, and no
        balance changes. */
    method ReviewClaim(callerId: Id, callerRole: Role, id: Id, decision: string, note: Option<string>, now: int)
      returns (res: Result<Request<ClaimDetails>, Error>)
      requires Valid() && RoleOf(users, callerId) == Some(callerRole) && callerRole != Employee
      modifies this
      ensures Valid()
      ensures users == old(users) && leaves == old(leaves) && nextId == old(nextId)
      ensures match ReviewCheck(old(claims), old(users), callerRole, id, decision)
              case Err(e) => res == Err(e) && claims == old(claims)
              case Ok((i, status)) =>
                var claim := Reviewed(old(claims)[i], status, callerId, note, now);
                res == Ok(claim) && claims == old(claims)[i := claim]
    {
      var check := ReviewCheck(claims, users, callerRole, id, decision);
      if check.Err? {
        return Err(check.error);
      }
      var (i, status) := check.value;
      var claim := Reviewed(claims[i], status, callerId, note, now);
      ReplaceKeepsRecordsValid(claims, nextId, ClaimRecordValid, i, claim);
      claims := claims[i := claim];
      res := Ok(claim);
    }

    /** Delete a reimbursement: only its owner, only while pending. */
    method DeleteClaim(callerId: Id, id: Id) returns (res: Result<(), Error>)
      requires Valid()
      modifies this
      ensures Valid()
      ensures users == old(users) && leaves == old(leaves) && nextId == old(nextId)
      ensures match DeleteCheck(old(claims), callerId, id)
              case Err(e) => res == Err(e) && claims == old(claims)
              case Ok(i) => res == Ok(()) && claims == RemoveAt(old(claims), i)
    {
      var check := DeleteCheck(claims, callerId, id);
      if check.Err? {
        return Err(check.error);
      }
      RemoveKeepsRecordsValid(claims, nextId, ClaimRecordValid, check.value);
      claims := RemoveAt(claims, check.value);
      res := Ok(());
    }

    // -------------------------------------------------------------------
    // Users

    /** Register: on success exactly one new user with the given fields,
        admin when the table was empty and employee otherwise. The initial
        leave balance is the user model's default, passed in. */
    method Register(input: Accounts.Registration, defaultBalance: Balance, now: int)
      returns (res: Result<User, Error>)
      requires Valid()
      modifies this
      ensures Valid()
      ensures leaves == old(leaves) && claims == old(claims)
      ensures match Accounts.RegisterCheck(old(users), input)
              case Err(e) => res == Err(e) && users == old(users) && nextId == old(nextId)
              case Ok(role) =>
                && res == Ok(User(old(nextId), input.name, input.email, input.password, role,
                                  input.department, defaultBalance, now))
                && users == old(users) + [res.value]
                && nextId == old(nextId) + 1
    {
      var check := Accounts.RegisterCheck(users, input);
      if check.Err? {
        return Err(check.error);
      }
      var user := User(nextId, input.name, input.email, input.password, check.value,
                       input.department, defaultBalance, now);
      Accounts.RegisterKeepsTableValid(users, input, nextId, defaultBalance, now);
      users := users + [user];
      nextId := nextId + 1;
      res := Ok(user);
    }

    /** Change a user's role (admins only, by the route gate). On success
        only that user's role changes. */
    method UpdateUserRole(callerId: Id, targetId: Id, role: string) returns (res: Result<User, Error>)
      requires Valid() && Accounts.IsAdmin(users, callerId)
      modifies this
      ensures Valid() && Accounts.IsAdmin(users, callerId)
      ensures leaves == old(leaves) && claims == old(claims) && nextId == old(nextId)
      ensures match Accounts.RoleUpdateCheck(old(users), callerId, targetId, role)
              case Err(e) => res == Err(e) && users == old(users)
              case Ok((i, newRole)) =>
                var user := old(users)[i].(role := newRole);
                res == Ok(user) && users == old(users)[i := user]
    {
      var check := Accounts.RoleUpdateCheck(users, callerId, targetId, role);
      if check.Err? {
        return Err(check.error);
      }
      var (i, newRole) := check.value;
      Accounts.AdminSurvivesRoleUpdate(users, callerId, targetId, role);
      var user := users[i].(role := newRole);
      users := users[i := user];
      res := Ok(user);
    }

    /** Change a user's department (admins only, by the route gate). On
        success only that user's department changes. */
    method UpdateUserDepartment(callerId: Id, targetId: Id, department: string) returns (res: Result<User, Error>)
      requires Valid() && Accounts.IsAdmin(users, callerId)
      modifies this
      ensures Valid() && Accounts.IsAdmin(users, callerId)
      ensures leaves == old(leaves) && claims == old(claims) && nextId == old(nextId)
      ensures match Accounts.DepartmentUpdateCheck(old(users), targetId, department)
              case Err(e) => res == Err(e) && users == old(users)
              case Ok(i) =>
                var user := old(users)[i].(department := department);
                res == Ok(user) && users == old(users)[i := user]
    {
      var check := Accounts.DepartmentUpdateCheck(users, targetId, department);
      if check.Err? {
        return Err(check.error);
      }
      var i := check.value;
      var user := users[i].(department := department);
      SameAccountsKeepsValid(users, users[i := user], leaves, claims, nextId);
      users := users[i := user];
      res := Ok(user);
    }

    /** Delete a user (admins only, by the route gate). On success exactly
        that user is removed; their requests stay in the store. */
    method DeleteUser(callerId: Id, targetId: Id) returns (res: Result<(), Error>)
      requires Valid() && Accounts.IsAdmin(users, callerId)
      modifies this
      ensures Valid() && Accounts.IsAdmin(users, callerId)
      ensures leaves == old(leaves) && claims == old(claims) && nextId == old(nextId)
      ensures match Accounts.DeleteUserCheck(old(users), callerId, targetId)
              case Err(e) => res == Err(e) && users == old(users)
              case Ok(i) => res == Ok(()) && users == RemoveAt(old(users), i)
    {
      var check := Accounts.DeleteUserCheck(users, callerId, targetId);
      if check.Err? {
        return Err(check.error);
      }
      Accounts.AdminSurvivesDelete(users, callerId, targetId);
      users := RemoveAt(users, check.value);
      res := Ok(());
    }
  }
}
