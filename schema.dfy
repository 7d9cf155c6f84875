/** The stored documents: users, leave records and reimbursement records,
    with the enums, defaults and required fields of the leave and
    reimbursement schemas. */
module Schema {
  import opened Common
  import Text
  import WorkingDays

  datatype LeaveType = Casual | Sick | Annual

  datatype Category = Travel | Food | Accommodation | Equipment | Medical | Other

  /** The workflow status of a request; `Pending` is the schema default. */
  datatype Status = Pending | Approved | Rejected

  /** The leave type named by a request body; the schema's enum admits only
      these three. */
  function ParseLeaveType(s: string): (r: Option<LeaveType>)
    ensures r.Some? <==> s in {"casual", "sick", "annual"}
    ensures r == Some(Casual) <==> s == "casual"
    ensures r == Some(Sick) <==> s == "sick"
    ensures r == Some(Annual) <==> s == "annual"
  {
    if s == "casual" then Some(Casual)
    else if s == "sick" then Some(Sick)
    else if s == "annual" then Some(Annual)
    else None
  }

  /** The category named by a request body; the schema's enum admits only
      these six. */
  function ParseCategory(s: string): (r: Option<Category>)
    ensures r.Some? <==> s in {"travel", "food", "accommodation", "equipment", "medical", "other"}
    ensures r == Some(Travel) <==> s == "travel"
    ensures r == Some(Food) <==> s == "food"
    ensures r == Some(Accommodation) <==> s == "accommodation"
    ensures r == Some(Equipment) <==> s == "equipment"
    ensures r == Some(Medical) <==> s == "medical"
    ensures r == Some(Other) <==> s == "other"
  {
    if s == "travel" then Some(Travel)
    else if s == "food" then Some(Food)
    else if s == "accommodation" then Some(Accommodation)
    else if s == "equipment" then Some(Equipment)
    else if s == "medical" then Some(Medical)
    else if s == "other" then Some(Other)
    else None
  }

  /** Remaining leave days per leave type. A balance may be negative: the
      approval decrement never checks it. */
  datatype Balance = Balance(casual: int, sick: int, annual: int)

  function Get(b: Balance, t: LeaveType): int {
    match t
    case Casual => b.casual
    case Sick => b.sick
    case Annual => b.annual
  }

  /** Adds `delta` to the balance of one leave type (the `$inc` update). */
  function Adjust(b: Balance, t: LeaveType, delta: int): (r: Balance)
    ensures Get(r, t) == Get(b, t) + delta
    ensures forall u :: u != t ==> Get(r, u) == Get(b, u)
  {
    match t
    case Casual => b.(casual := b.casual + delta)
    case Sick => b.(sick := b.sick + delta)
    case Annual => b.(annual := b.annual + delta)
  }

  /** A row of the user table. The password is stored as the user model
      leaves it; hashing and matching happen outside this model. */
  datatype User = User(
    id: Id,
    name: string,
    email: string,
    password: string,
    role: Role,
    department: string,
    balance: Balance,
    createdAt: int)

  function UserId(u: User): Id { u.id }
  function UserEmail(u: User): string { u.email }
  function UserCreatedAt(u: User): int { u.createdAt }

  /** The review fields, set together when a request leaves `Pending`. */
  datatype Review = Review(reviewedBy: Id, reviewNote: string, reviewedAt: int)

  /** A request of either kind: its owner (`employee`), the kind-specific
      details, and the workflow fields shared by both schemas. */
  datatype Request<D> = Request(
    id: Id,
    employee: Id,
    details: D,
    status: Status,
    review: Option<Review>,
    createdAt: int)

  function RequestId<D>(r: Request<D>): Id { r.id }
  function RequestCreatedAt<D>(r: Request<D>): int { r.createdAt }

  /** The leave-specific fields. Dates are day numbers (see WorkingDays). */
  datatype LeaveDetails = LeaveDetails(
    leaveType: LeaveType,
    startDate: int,
    endDate: int,
    days: nat,
    reason: string)

  /** The reimbursement-specific fields. Amounts are JavaScript numbers,
      modelled as reals. */
  datatype ClaimDetails = ClaimDetails(
    amount: real,
    category: Category,
    description: string)

  /** The review fields are unset exactly while the request is pending. */
  predicate ReviewFieldsMatchStatus<D>(r: Request<D>) {
    r.review.None? <==> r.status == Pending
  }

  /** A required text field after the schema's trim: non-empty, with no
      white space at either end. */
  predicate RequiredTrimmed(s: string) {
    s != [] && !Text.IsSpace(s[0]) && !Text.IsSpace(s[|s| - 1])
  }

  /** The stored form of a required text field is exactly a non-empty text
      that trimming leaves as it is. */
  lemma RequiredTrimmedIsTrimFixedPoint(s: string)
    ensures RequiredTrimmed(s) <==> s != [] && Text.Trim(s) == s
  {
    Text.TrimProperties(s);
    if RequiredTrimmed(s) {
      Text.TrimKeepsUnpadded(s);
    }
  }

  /** A leave record as the leave schema and controller create it: the
      required reason stored trimmed, a positive day count derived from the
      date range, and consistent review fields. */
  predicate LeaveRecordValid(r: Request<LeaveDetails>) {
    && RequiredTrimmed(r.details.reason)
    && r.details.startDate <= r.details.endDate
    && r.details.days == WorkingDays.Count(r.details.startDate, r.details.endDate)
    && r.details.days > 0
    && ReviewFieldsMatchStatus(r)
  }

  /** A reimbursement record as its schema admits it: amount at least 1, the
      required description stored trimmed, consistent review fields. */
  predicate ClaimRecordValid(r: Request<ClaimDetails>) {
    && r.details.amount >= 1.0
    && RequiredTrimmed(r.details.description)
    && ReviewFieldsMatchStatus(r)
  }

  /** A freshly created record: status defaults to `Pending`, no review
      fields. */
  function NewRequest<D>(id: Id, employee: Id, details: D, now: int): (r: Request<D>)
    ensures r.id == id && r.employee == employee && r.details == details && r.createdAt == now
    ensures r.status == Pending && r.review.None?
    ensures ReviewFieldsMatchStatus(r)
  {
    Request(id, employee, details, Pending, None, now)
  }

  /** The schema's trim applied to a required text field: a value that
      passes must be non-empty after trimming, and is stored trimmed. */
  lemma TrimmedIsRequiredTrimmed(s: string)
    requires Text.Trim(s) != []
    ensures RequiredTrimmed(Text.Trim(s))
  {
    Text.TrimProperties(s);
  }
}
