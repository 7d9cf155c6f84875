/** The approval workflow shared by leave and reimbursement requests: the
    review policy between roles, listing visibility, read access, the
    pending -> approved | rejected state machine and the delete rule. Both
    controllers implement the same checks in the same order; they are
    stated here once, over `Request<D>` for either kind of details. */
module Workflow {
  import opened Common
  import opened Schema
  import opened Collections

  // ---------------------------------------------------------------------
  // Review policy

  /** Who may review whom: a manager reviews employees, an admin reviews
      managers, and nobody else reviews anybody. */
  predicate MayReview(reviewer: Role, requester: Role) {
    || (reviewer == Manager && requester == Employee)
    || (reviewer == Admin && requester == Manager)
  }

  /** The two role checks of the review handlers as written: each rejects
      one reviewer role paired with a wrong requester role. */
  predicate RolePairRejects(reviewer: Role, requester: Role) {
    || (reviewer == Manager && requester != Employee)
    || (reviewer == Admin && requester != Manager)
  }

  function Rank(r: Role): nat {
    match r
    case Employee => 0
    case Manager => 1
    case Admin => 2
  }

  /** For the reviewer roles the routes let through, the handlers' checks
      reject exactly the pairs the policy forbids. For an employee neither
      check fires: only the route's manager-or-admin gate keeps employees
      from reviewing. A permitted review always goes exactly one rank down,
      so nobody reviews an equal or higher role and admins never review
      employees directly. */
  lemma RolePairChecksArePolicy(reviewer: Role, requester: Role)
    ensures reviewer != Employee ==> (RolePairRejects(reviewer, requester) <==> !MayReview(reviewer, requester))
    ensures !RolePairRejects(Employee, requester)
    ensures MayReview(reviewer, requester) ==> Rank(requester) + 1 == Rank(reviewer)
  {
  }

  /** The review status a request body asks for, when it is one the
      handlers accept. */
  function ParseDecision(s: string): (r: Option<Status>)
    ensures r.Some? <==> s in {"approved", "rejected"}
    ensures r == Some(Approved) <==> s == "approved"
    ensures r == Some(Rejected) <==> s == "rejected"
    ensures r != Some(Pending)
  {
    if s == "approved" then Some(Approved)
    else if s == "rejected" then Some(Rejected)
    else None
  }

  /** The role of a user, when the user is in the table. */
  function RoleOf(users: seq<User>, id: Id): (r: Option<Role>)
    ensures r.Some? <==> exists i :: 0 <= i < |users| && users[i].id == id
  {
    match IndexOf(users, UserId, id)
    case None => None
    case Some(i) => Some(users[i].role)
  }

  // ---------------------------------------------------------------------
  // Listing visibility

  /** The owner filter a listing query applies. */
  datatype Query = OwnedBy(owner: Id) | OwnerRole(role: Role) | Everyone

  /** The filter built from the caller and the `mine` / `forApproval`
      flags: employees (and anybody asking for `mine`) see their own
      requests; a reviewer's approval queue holds the requests of the role
      one rank down; otherwise a reviewer sees everything. */
  function ListQuery(callerId: Id, callerRole: Role, mine: bool, forApproval: bool): Query {
    if callerRole == Employee || mine then OwnedBy(callerId)
    else if forApproval then OwnerRole(if callerRole == Manager then Employee else Manager)
    else Everyone
  }

  predicate Selects<D>(users: seq<User>, q: Query, r: Request<D>) {
    match q
    case OwnedBy(owner) => r.employee == owner
    case OwnerRole(role) => RoleOf(users, r.employee) == Some(role)
    case Everyone => true
  }

  /** The list handlers: the requests the caller may see, newest first. */
  function ListRequests<D(!new)>(rs: seq<Request<D>>, users: seq<User>, callerId: Id, callerRole: Role,
                                 mine: bool, forApproval: bool): (r: seq<Request<D>>)
    ensures NewestFirstOrder(r, RequestCreatedAt<D>)
    ensures multiset(r) <= multiset(rs)
    ensures callerRole == Employee || mine ==>
              forall x :: x in r <==> x in rs && x.employee == callerId
    ensures callerRole == Manager && !mine && forApproval ==>
              forall x :: x in r <==> x in rs && RoleOf(users, x.employee) == Some(Employee)
    ensures callerRole == Admin && !mine && forApproval ==>
              forall x :: x in r <==> x in rs && RoleOf(users, x.employee) == Some(Manager)
    ensures callerRole != Employee && !mine && !forApproval ==> multiset(r) == multiset(rs)
  {
    var q := ListQuery(callerId, callerRole, mine, forApproval);
    var selected := Filter(rs, x => Selects(users, q, x));
    var r := NewestFirst(selected, RequestCreatedAt<D>);
    assert forall x :: x in r <==> x in selected by {
      forall x ensures x in r <==> x in selected {
        assert x in r <==> x in multiset(r);
        assert x in selected <==> x in multiset(selected);
      }
    }
    r
  }

  // ---------------------------------------------------------------------
  // Reading one request

  /** The get-by-id handler: a missing record is NotFound; an employee may
      read only their own records, managers and admins may read any. For an
      employee the owner is read from the populated user, which is missing
      when the owner's account was deleted. */
  function ReadCheck<D>(rs: seq<Request<D>>, users: seq<User>, callerId: Id, callerRole: Role, id: Id)
    : (r: Result<Request<D>, Error>)
    ensures r == Err(NotFound) <==> IndexOf(rs, RequestId<D>, id).None?
    ensures r.Ok? ==> r.value in rs && r.value.id == id
    ensures r.Ok? && callerRole == Employee ==> r.value.employee == callerId
    ensures callerRole != Employee && IndexOf(rs, RequestId<D>, id).Some? ==> r.Ok?
    ensures r == Err(Forbidden) <==>
              exists i :: 0 <= i < |rs| && rs[i].id == id && IndexOf(rs, RequestId<D>, id) == Some(i)
                && callerRole == Employee && RoleOf(users, rs[i].employee).Some? && rs[i].employee != callerId
    ensures r == Err(OwnerMissing) <==>
              && IndexOf(rs, RequestId<D>, id).Some?
              && callerRole == Employee
              && RoleOf(users, rs[IndexOf(rs, RequestId<D>, id).value].employee).None?
    ensures r.Ok? <==>
              && IndexOf(rs, RequestId<D>, id).Some?
              && (|| callerRole != Employee
                  || (&& RoleOf(users, rs[IndexOf(rs, RequestId<D>, id).value].employee).Some?
                      && rs[IndexOf(rs, RequestId<D>, id).value].employee == callerId))
  {
    match IndexOf(rs, RequestId<D>, id)
    case None => Err(NotFound)
    case Some(i) =>
      if callerRole != Employee then Ok(rs[i])
      else if RoleOf(users, rs[i].employee).None? then Err(OwnerMissing)
      else if rs[i].employee != callerId then Err(Forbidden)
      else Ok(rs[i])
  }

  // ---------------------------------------------------------------------
  // Review

  /** The checks of the review handlers, in their order: the requested
      status, the record's existence, that it is still pending, the owner
      being in the user table, and the role pair. On success, the record's
      position and the new status. */
  function ReviewCheck<D>(rs: seq<Request<D>>, users: seq<User>, reviewerRole: Role, id: Id, decision: string)
    : (r: Result<(nat, Status), Error>)
    ensures ParseDecision(decision).None? ==> r == Err(InvalidStatus)
    ensures ParseDecision(decision).Some? && IndexOf(rs, RequestId<D>, id).None? ==> r == Err(NotFound)
    ensures (ParseDecision(decision).Some? && IndexOf(rs, RequestId<D>, id).Some?
               && rs[IndexOf(rs, RequestId<D>, id).value].status != Pending) ==> r == Err(AlreadyReviewed)
    ensures r.Ok? ==>
              && IndexOf(rs, RequestId<D>, id) == Some(r.value.0)
              && rs[r.value.0].status == Pending
              && ParseDecision(decision) == Some(r.value.1)
              && RoleOf(users, rs[r.value.0].employee).Some?
              && (reviewerRole != Employee ==>
                    MayReview(reviewerRole, RoleOf(users, rs[r.value.0].employee).value))
    ensures r == Err(Forbidden) <==>
              && ParseDecision(decision).Some?
              && IndexOf(rs, RequestId<D>, id).Some?
              && rs[IndexOf(rs, RequestId<D>, id).value].status == Pending
              && RoleOf(users, rs[IndexOf(rs, RequestId<D>, id).value].employee).Some?
              && reviewerRole != Employee
              && !MayReview(reviewerRole, RoleOf(users, rs[IndexOf(rs, RequestId<D>, id).value].employee).value)
    ensures r == Err(OwnerMissing) <==>
              && ParseDecision(decision).Some?
              && IndexOf(rs, RequestId<D>, id).Some?
              && rs[IndexOf(rs, RequestId<D>, id).value].status == Pending
              && RoleOf(users, rs[IndexOf(rs, RequestId<D>, id).value].employee).None?
    ensures r.Ok? <==>
              && ParseDecision(decision).Some?
              && IndexOf(rs, RequestId<D>, id).Some?
              && rs[IndexOf(rs, RequestId<D>, id).value].status == Pending
              && RoleOf(users, rs[IndexOf(rs, RequestId<D>, id).value].employee).Some?
              && !RolePairRejects(reviewerRole, RoleOf(users, rs[IndexOf(rs, RequestId<D>, id).value].employee).value)
  {
    match ParseDecision(decision)
    case None => Err(InvalidStatus)
    case Some(status) =>
      match IndexOf(rs, RequestId<D>, id)
      case None => Err(NotFound)
      case Some(i) =>
        if rs[i].status != Pending then Err(AlreadyReviewed)
        else match RoleOf(users, rs[i].employee)
          case None => Err(OwnerMissing)
          case Some(requester) =>
            if RolePairRejects(reviewerRole, requester) then Err(Forbidden)
            else Ok((i, status))
  }

  /** The record after a review: the new status with the reviewer, the
      note (empty when none is given) and the time; nothing else of the
      record changes. */
  function Reviewed<D>(r: Request<D>, status: Status, reviewer: Id, note: Option<string>, now: int)
    : (r': Request<D>)
    requires r.status == Pending && status != Pending
    ensures r'.id == r.id && r'.employee == r.employee && r'.details == r.details
    ensures r'.createdAt == r.createdAt
    ensures r'.status == status && ReviewFieldsMatchStatus(r')
    ensures r'.review.value.reviewedBy == reviewer && r'.review.value.reviewedAt == now
    ensures r'.review.value.reviewNote == if note.Some? then note.value else ""
  {
    r.(status := status, review := Some(Review(reviewer, note.GetOr(""), now)))
  }

  /** A status leaves `Pending` at most once: after a successful review,
      reviewing the same record again fails, with AlreadyReviewed whenever
      the requested status is valid, whoever reviews and whatever happened
      to the user table in between. */
  lemma {:induction false} ReviewAtMostOnce<D>(rs: seq<Request<D>>, users: seq<User>, reviewerRole: Role,
                                               id: Id, decision: string, reviewer: Id, note: Option<string>,
                                               now: int, users': seq<User>, role': Role, decision': string)
    requires UniqueKeys(rs, RequestId<D>)
    requires ReviewCheck(rs, users, reviewerRole, id, decision).Ok?
    ensures var (i, status) := ReviewCheck(rs, users, reviewerRole, id, decision).value;
            var rs' := rs[i := Reviewed(rs[i], status, reviewer, note, now)];
            && UniqueKeys(rs', RequestId<D>)
            && ReviewCheck(rs', users', role', id, decision') ==
                 if ParseDecision(decision').None? then Err(InvalidStatus) else Err(AlreadyReviewed)
  {
    var (i, status) := ReviewCheck(rs, users, reviewerRole, id, decision).value;
    var rs' := rs[i := Reviewed(rs[i], status, reviewer, note, now)];
    assert forall j :: 0 <= j < |rs| ==> RequestId(rs'[j]) == RequestId(rs[j]);
    assert UniqueKeys(rs', RequestId<D>);
    IndexOfUnique(rs', RequestId<D>, i);
  }

  // ---------------------------------------------------------------------
  // Delete

  /** The checks of the delete handlers, in their order: existence,
      ownership, still pending. On success, the record's position. */
  function DeleteCheck<D>(rs: seq<Request<D>>, callerId: Id, id: Id): (r: Result<nat, Error>)
    ensures r == Err(NotFound) <==> IndexOf(rs, RequestId<D>, id).None?
    ensures r.Ok? ==>
              && IndexOf(rs, RequestId<D>, id) == Some(r.value)
              && rs[r.value].employee == callerId
              && rs[r.value].status == Pending
    ensures (IndexOf(rs, RequestId<D>, id).Some? && rs[IndexOf(rs, RequestId<D>, id).value].employee != callerId)
              ==> r == Err(Forbidden)
    ensures (IndexOf(rs, RequestId<D>, id).Some? && rs[IndexOf(rs, RequestId<D>, id).value].employee == callerId
               && rs[IndexOf(rs, RequestId<D>, id).value].status != Pending) ==> r == Err(AlreadyReviewed)
    ensures r.Ok? <==>
              && IndexOf(rs, RequestId<D>, id).Some?
              && rs[IndexOf(rs, RequestId<D>, id).value].employee == callerId
              && rs[IndexOf(rs, RequestId<D>, id).value].status == Pending
  {
    match IndexOf(rs, RequestId<D>, id)
    case None => Err(NotFound)
    case Some(i) =>
      if rs[i].employee != callerId then Err(Forbidden)
      else if rs[i].status != Pending then Err(AlreadyReviewed)
      else Ok(i)
  }

  /** A deleted request is gone for good: looking it up again, reviewing it
      or deleting it again finds nothing. */
  lemma DeletedIsGone<D>(rs: seq<Request<D>>, callerId: Id, id: Id, users: seq<User>, role: Role,
                         decision: string, caller': Id)
    requires UniqueKeys(rs, RequestId<D>)
    requires DeleteCheck(rs, callerId, id).Ok?
    ensures var rs' := RemoveAt(rs, DeleteCheck(rs, callerId, id).value);
            && UniqueKeys(rs', RequestId<D>)
            && ReadCheck(rs', users, caller', role, id) == Err(NotFound)
            && DeleteCheck(rs', caller', id) == Err(NotFound)
            && (ParseDecision(decision).Some? ==> ReviewCheck(rs', users, role, id, decision) == Err(NotFound))
  {
    var i := DeleteCheck(rs, callerId, id).value;
    RemoveAtDropsKey(rs, RequestId<D>, i);
  }
}
