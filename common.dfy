/** Shared vocabulary: identifiers, the failure-carrying result type and the
    error outcomes the controllers answer with. */
module Common {

  /** Identifiers of users and request records (the store's ObjectIds). */
  type Id = nat

  datatype Option<+T> = None | Some(value: T) {
    function GetOr(default: T): T {
      match this
      case Some(v) => v
      case None => default
    }
  }

  datatype Result<+T, +E> = Ok(value: T) | Err(error: E)

  /** The error outcomes of the controllers. Each comment gives the HTTP
      status the handler answers with. */
  datatype Error =
    | MissingFields          // 400: a required body field is absent or empty
    | InvalidRange           // 400: start date after end date
    | NoWorkingDays          // 400: the range holds no weekday
    | InsufficientBalance    // 400: balance of the leave type below the day count
    | InvalidAmount          // 400: amount not a number, or not positive
    | SchemaRejected         // 500: the record schema refused the document
    | InvalidStatus          // 400: review status other than approved or rejected
    | NotFound               // 404: no record or user with that id
    | AlreadyReviewed        // 400: the record is no longer pending
    | Forbidden              // 403: ownership or role-pair rule violated
    | OwnerMissing           // 500: the record's owner is no longer in the user table
    | InvalidRole            // 400: role outside employee, manager, admin
    | SelfRoleChange         // 400: an admin tried to change their own role
    | SelfDelete             // 400: an admin tried to delete themselves
    | DepartmentRequired     // 400: empty department
    | DuplicateEmail         // 400: a user with this email already exists
    | InvalidCredentials     // 401: unknown email or wrong password

  /** The three roles of the organisation. */
  datatype Role = Employee | Manager | Admin

  /** The role named by a request body, as the admin controller accepts it. */
  function ParseRole(s: string): (r: Option<Role>)
    ensures r.Some? <==> s in {"employee", "manager", "admin"}
    ensures r == Some(Employee) <==> s == "employee"
    ensures r == Some(Manager) <==> s == "manager"
    ensures r == Some(Admin) <==> s == "admin"
  {
    if s == "employee" then Some(Employee)
    else if s == "manager" then Some(Manager)
    else if s == "admin" then Some(Admin)
    else None
  }
}
