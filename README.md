# Leave and reimbursement approval workflow, in Dafny

This project models the backend of a small employee-management system:
employees apply for leave and for reimbursements, managers review the
requests of employees, admins review the requests of managers, and an
approved leave is taken off the employee's leave balance. Around the
workflow sit the rules of the user table: the first registered user becomes
the admin, emails are unique, and an admin may change roles and departments
and delete users but cannot change their own role or delete themselves.

The model has two layers.

- Pure specification functions state what each handler decides, check by
  check and in the handler's order: `Leaves.Validate`, `Claims.Validate`,
  `Workflow.ListRequests`, `Workflow.ReadCheck`, `Workflow.ReviewCheck`,
  `Workflow.DeleteCheck`, `Accounts.RegisterCheck`, `Accounts.Login` and
  the three admin checks. Leave and reimbursement requests share one record
  type, `Schema.Request<D>`, so the state machine
  pending -> approved | rejected, the role-pair review rule and the delete
  rule are written once in `Workflow` and used by both.
- The store is the class `Hr.HrSystem`. Its fields are the user table and
  the two request collections, kept as sequences in insertion order, plus
  an id counter. Its methods run the handlers and update the collections in
  place. Each method's postcondition ties the new state to the
  specification function over the old state. Each method also keeps the
  invariant `Valid()`. That invariant says ids are unique, every record
  satisfies its schema (status, trimmed text, working-day count, review
  fields set exactly when reviewed), and a non-empty user table has an
  admin.

Dates are integer day numbers. Day 0 is Thursday 1970-01-01, and weekdays
are numbered as JavaScript's `getDay` numbers them. The working-day counter
`WorkingDays.CalculateDays` is the loop of `calculateDays`, proved equal to
the recursive `WorkingDays.Count`. That count is in turn proved equal to the
size of the set of Monday-to-Friday days in the range. `Leaves.CheckApplication`
runs the apply handler's checks in order with that loop and is proved to
give exactly the answer of `Leaves.Validate`.

Failure answers are the values of `Common.Error`; the comment on each
constructor gives the HTTP status the handler sends. Some inputs make the
handlers throw and answer 500. Two such cases are modelled: a record the
schema refuses (`SchemaRejected`) and a record whose owner was deleted
(`OwnerMissing`). In both, the store is left unchanged, as the handlers
leave it.

## Model

| member | source | states |
|---|---|---|
| WorkingDays.CalculateDays | backend/controllers/leaveController.js:5-16 | the counting loop returns exactly `Count(start, end)`, including 0 for an empty range |
| WorkingDays.Count | backend/controllers/leaveController.js:5-16 | the number of working days is at most the number of days in the range, and 0 when start is after end |
| WorkingDays.CountIsCardinality | backend/controllers/leaveController.js:10-14 | the count equals the size of the set of days in [start, end] whose weekday is neither Sunday nor Saturday |
| WorkingDays.CountZeroIffWeekend | backend/controllers/leaveController.js:10-14 | the count is 0 exactly when no day of the range is a working day |
| WorkingDays.WeekendHasNoWorkingDays | backend/controllers/leaveController.js:11-12 | a Saturday-Sunday range counts 0 days |
| WorkingDays.MondayToWednesday | backend/controllers/leaveController.js:5-16 | Monday 1970-01-05 to Wednesday 1970-01-07 counts 3 days |
| WorkingDays.CountSplit | backend/controllers/leaveController.js:10-14 | counting is additive over adjacent sub-ranges |
| WorkingDays.FullWeek | backend/controllers/leaveController.js:10-14 | any seven consecutive days hold exactly five working days |
| Common.ParseRole | backend/controllers/adminController.js:21-23 | a role string is accepted exactly when it is employee, manager or admin, each naming its own role |
| Text.TrimProperties | backend/models/Leave.js:26-30 | the schema's trim yields a contiguous piece of the input, cutting off only white space before and after it, with no white space at either of its ends, and empty exactly when the input is all white space |
| Text.TrimIdempotent | backend/models/Reimbursement.js:19-23 | trimming a stored, trimmed text again changes nothing |
| Text.TrimKeepsUnpadded | backend/models/Leave.js:26-30 | a non-empty text without edge white space is stored as given |
| Schema.ParseLeaveType | backend/models/Leave.js:9-13 | the leave-type enum admits exactly casual, sick and annual, each naming its own leave type |
| Schema.ParseCategory | backend/models/Reimbursement.js:14-18 | the category enum admits exactly travel, food, accommodation, equipment, medical and other, each naming its own category |
| Schema.Adjust | backend/controllers/leaveController.js:145-147 | the `$inc` update changes the one balance of the given leave type by delta and no other |
| Schema.NewRequest | backend/models/Leave.js:31-45 | a created record has the given id, owner, details and creation time, status pending and no review fields |
| Schema.RequiredTrimmedIsTrimFixedPoint | backend/models/Reimbursement.js:19-23 | a stored required text (non-empty, no white space at either end) is exactly a non-empty text that trimming leaves unchanged |
| Schema.TrimmedIsRequiredTrimmed | backend/models/Leave.js:26-30 | a text that is non-empty after trimming is stored non-empty and trimmed |
| Collections.Filter | backend/controllers/leaveController.js:76 | the query result holds exactly the records the filter selects, each no more often than in the collection |
| Collections.NewestFirst | backend/controllers/leaveController.js:79 | the sort by createdAt descending is a permutation of its input in non-increasing creation order |
| Collections.RemoveAtDropsKey | backend/controllers/leaveController.js:174 | removing a document leaves no document with its id and keeps the other ids unique |
| Workflow.ParseDecision | backend/controllers/leaveController.js:114-116 | a review status is accepted exactly when it is approved or rejected, "approved" naming Approved and "rejected" naming Rejected, and it is never pending |
| Workflow.RolePairChecksArePolicy | backend/controllers/leaveController.js:129-135 | for manager and admin reviewers the two role checks reject exactly the pairs other than manager->employee and admin->manager; for an employee reviewer neither check fires; an allowed review goes exactly one rank down |
| Workflow.ListRequests | backend/controllers/leaveController.js:64-79 | employees and `mine` callers get exactly their own requests; with `forApproval` a manager gets exactly the requests of employees and an admin those of managers; otherwise a reviewer gets all requests; always newest first; the reimbursement listing at backend/controllers/reimbursementController.js:37-53 is the same |
| Workflow.ReadCheck | backend/controllers/leaveController.js:96-102 | NotFound exactly when the id is absent; for an employee, OwnerMissing exactly when the record's owner is no longer in the user table, and otherwise Forbidden exactly when the record belongs to another user; success exactly when the record exists and the caller is a manager or admin or its owner |
| Workflow.ReviewCheck | backend/controllers/leaveController.js:114-135 | invalid status first, then NotFound, then already reviewed, then OwnerMissing exactly when the owner is no longer in the user table, then Forbidden exactly when a manager or admin reviewer and the owner's role are not an allowed pair; success exactly for a valid status on an existing pending record whose owner is in the table and whose pair the two role checks let through (every pair for an employee reviewer, whom only the route gate stops; see `Workflow.RolePairChecksArePolicy`); the reimbursement review at backend/controllers/reimbursementController.js:67-88 runs the same checks |
| Workflow.Reviewed | backend/controllers/leaveController.js:137-140 | a review sets the status, the reviewer, the note (empty when none is given) and the time, and changes nothing else of the record; the reimbursement review sets the same fields at backend/controllers/reimbursementController.js:90-93 |
| Workflow.ReviewAtMostOnce | backend/controllers/leaveController.js:122-124 | after a successful review every later review of the record fails, as already reviewed whenever its status is valid |
| Workflow.DeleteCheck | backend/controllers/leaveController.js:164-172 | NotFound exactly when the id is absent, then Forbidden for a non-owner, then refused when not pending; success exactly for the owner's pending record; the reimbursement delete at backend/controllers/reimbursementController.js:110-118 runs the same checks |
| Workflow.DeletedIsGone | backend/controllers/leaveController.js:174 | after a delete, reading, reviewing or deleting the same id finds nothing |
| Leaves.Validate | backend/controllers/leaveController.js:24-50 | missing fields first, then start after end, then NoWorkingDays exactly when the range holds no working day; InsufficientBalance exactly when the known type's balance is below the day count (equality passes); SchemaRejected exactly when the later checks pass but the type is unknown or the trimmed reason is empty; success exactly when every check and the schema pass; the record holds the parsed type, the dates, the counted days and the trimmed reason |
| Leaves.CheckApplication | backend/controllers/leaveController.js:24-41 | the handler's checks, run in order with the counting loop, give exactly the answer of `Leaves.Validate` |
| Leaves.ValidatedRecordIsValid | backend/models/Leave.js:4-46 | every leave record the apply handler creates satisfies the leave schema |
| Leaves.Debit | backend/controllers/leaveController.js:144-148 | approval lowers the owner's balance of the leave type by exactly the days, with no check, and changes no other balance and no other user |
| Leaves.ExactBalanceAccepted | backend/controllers/leaveController.js:39-41 | for every balance and application that passes the other checks, asking for exactly the remaining balance of the type is accepted, and debiting it would leave that balance at 0 |
| Leaves.ThreeOfThreeCasualDays | backend/controllers/leaveController.js:33-41 | an example: all 3 remaining casual days, Monday to Wednesday, are accepted as 3 working days |
| Leaves.ApprovalsCanOverdraw | backend/controllers/leaveController.js:144-148 | two approvals, each within the balance on its own, take a balance of 3 to -3 |
| Claims.Validate | backend/controllers/reimbursementController.js:9-28 | MissingFields exactly when a field is missing (the number 0 counts as missing), then a non-numeric or non-positive amount; SchemaRejected exactly when a positive amount is below 1, the category is unknown or the trimmed description is empty; success exactly when the amount is at least 1, the category is known and the trimmed description is non-empty; the record holds `Number(amount)` |
| Claims.ValidatedRecordIsValid | backend/models/Reimbursement.js:9-39 | every reimbursement record the apply handler creates satisfies the reimbursement schema |
| Claims.FractionalAmountFailsOnlyInSchema | backend/models/Reimbursement.js:9-13 | an amount strictly between 0 and 1 passes the handler's check and is refused by the schema's minimum |
| Claims.ZeroAmounts | backend/controllers/reimbursementController.js:9-15 | the number 0 is a missing field and the string "0" is a non-positive amount |
| Accounts.RegisterCheck | backend/controllers/authController.js:10-22 | missing name, email or password first; DuplicateEmail exactly when the email is taken; the first user is admin and every later one employee |
| Accounts.RegisterKeepsTableValid | backend/controllers/authController.js:15-24 | a registered user keeps ids and emails unique and the table with an admin |
| Accounts.Login | backend/controllers/authController.js:46-55 | missing fields first; an unknown email and a wrong password give the same InvalidCredentials; with unique emails, success exactly when the email's user matches the password |
| Accounts.UsersNewestFirst | backend/controllers/adminController.js:8 | all users, newest first |
| Accounts.RoleUpdateCheck | backend/controllers/adminController.js:21-34 | an unknown role is refused before any lookup, then NotFound, then SelfRoleChange exactly for the caller's own account; success exactly for a known role and an existing user other than the caller |
| Accounts.DepartmentUpdateCheck | backend/controllers/adminController.js:48-58 | an empty department first, then NotFound exactly when the user is absent; success exactly for a non-empty department and an existing user |
| Accounts.DeleteUserCheck | backend/controllers/adminController.js:69-76 | NotFound exactly when the user is absent, SelfDelete exactly for the caller's own account; success exactly for an existing user other than the caller |
| Accounts.AdminSurvivesRoleUpdate | backend/controllers/adminController.js:29-34 | an admin's role update keeps the table valid and the admin an admin |
| Accounts.AdminSurvivesDelete | backend/controllers/adminController.js:72-76 | an admin's delete keeps the table valid and the admin an admin, and the deleted id is gone |
| Hr.HrSystem.ApplyLeave | backend/controllers/leaveController.js:21-57 | on success exactly one pending record, owned by the caller, is appended under a fresh id and the id counter advances by one; on failure nothing changes; balances never change |
| Hr.HrSystem.ReviewLeave | backend/controllers/leaveController.js:111-156 | on success only the reviewed record changes, and on approval the owner's balance drops by the days; on failure nothing changes |
| Hr.HrSystem.DeleteLeave | backend/controllers/leaveController.js:161-179 | on success exactly the checked record is removed; on failure nothing changes |
| Hr.HrSystem.ApplyClaim | backend/controllers/reimbursementController.js:6-30 | on success exactly one pending record owned by the caller is appended under a fresh id and the id counter advances by one; on failure nothing changes |
| Hr.HrSystem.ReviewClaim | backend/controllers/reimbursementController.js:64-102 | on success only the reviewed record changes and no user does; on failure nothing changes |
| Hr.HrSystem.DeleteClaim | backend/controllers/reimbursementController.js:107-125 | on success exactly the checked record is removed; on failure nothing changes |
| Hr.HrSystem.Register | backend/controllers/authController.js:7-38 | on success exactly one user with the given fields and the computed role is appended under a fresh id and the id counter advances by one; on failure nothing changes |
| Hr.HrSystem.UpdateUserRole | backend/controllers/adminController.js:18-40 | on success only that user's role changes, and the calling admin stays an admin |
| Hr.HrSystem.UpdateUserDepartment | backend/controllers/adminController.js:45-62 | on success only that user's department changes |
| Hr.HrSystem.DeleteUser | backend/controllers/adminController.js:67-81 | on success exactly that user is removed, their requests stay, and the calling admin stays an admin |

## Left out

- Persistence: the document database, `populate`, `select` and the
  mechanics of the queries. The store is three sequences in one object.
- JavaScript `Date` parsing and time zones. Dates are day numbers. Creation
  and review times are passed in as `now`.
- Concurrency and atomicity. A review saves the record and then updates the
  balance in a separate write; the model does both in one sequential step
  and claims nothing about interleavings.
- Tokens, password hashing, `getMe` and the session middleware. The
  middleware's resolved caller is an id passed in. Where a handler reads
  the caller's user row, that row's presence is a precondition:
  `ApplyLeave` requires the caller in the user table (it reads the
  caller's balance), `ReviewLeave` and `ReviewClaim` require the caller's
  own role as the table holds it, and the admin operations require the
  caller to be an admin in the table. The other handlers use only the
  caller's id and require nothing of it.
- Route wiring, except the two role gates: reviews require a manager or an
  admin, and the admin operations require an admin. Both are preconditions
  of the methods.
- The frontend, its client-side validators and its floating-point dashboard
  sums.
- The user model file is not part of this model. The default leave balance
  of a new user is a parameter of `Register`. Any further validation that
  model applies at creation is not modelled.
- Accounts.Login: the password check is a function parameter `matches`, so
  the contract does not say how passwords are compared.
- Accounts.UsersNewestFirst: the listing keeps the password field; removing
  it from the response is not modelled.
- The 500 answers of the catch blocks. Only two of their causes are
  modelled: a record the schema refuses and a record whose owner was
  deleted.
- Response shapes: the populated owner and reviewer names, and the fields
  picked for each response.
- The `updatedAt` timestamp that `timestamps: true` keeps on leave and
  reimbursement records, and that the review's save changes. Records carry
  only `createdAt`.
- Claims.Validate: JavaScript's `Number` conversion of a string is given in
  the input (`NumericText`), and amounts are exact reals rather than
  binary floating point.
