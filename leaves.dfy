/** The leave-specific rules: the validation of a leave application and the
    balance decrement that an approval applies. */
module Leaves {
  import opened Common
  import opened Schema
  import opened Collections
  import Text
  import WorkingDays

  /** The body of a leave application. An absent or empty text field is the
      empty string; an absent date is None. Dates are day numbers. */
  datatype LeaveInput = LeaveInput(leaveType: string, startDate: Option<int>, endDate: Option<int>, reason: string)

  predicate FieldsPresent(input: LeaveInput) {
    input.leaveType != "" && input.startDate.Some? && input.endDate.Some? && input.reason != ""
  }

  /** The checks of the apply handler, in its order, and the details of the
      record it creates: all fields present; start not after end; at least
      one working day; enough balance of the requested type (an unknown
      type has no balance entry, so this check lets it through); then the
      schema's leave-type enum and its required, trimmed reason. */
  function Validate(balance: Balance, input: LeaveInput): (r: Result<LeaveDetails, Error>)
    ensures !FieldsPresent(input) ==> r == Err(MissingFields)
    ensures FieldsPresent(input) && input.startDate.value > input.endDate.value ==> r == Err(InvalidRange)
    ensures r.Ok? <==>
              && FieldsPresent(input)
              && input.startDate.value <= input.endDate.value
              && WorkingDays.Count(input.startDate.value, input.endDate.value) > 0
              && ParseLeaveType(input.leaveType).Some?
              && Get(balance, ParseLeaveType(input.leaveType).value)
                   >= WorkingDays.Count(input.startDate.value, input.endDate.value)
              && Text.Trim(input.reason) != ""
    ensures r == Err(InsufficientBalance) <==>
              && FieldsPresent(input)
              && input.startDate.value <= input.endDate.value
              && WorkingDays.Count(input.startDate.value, input.endDate.value) > 0
              && ParseLeaveType(input.leaveType).Some?
              && Get(balance, ParseLeaveType(input.leaveType).value)
                   < WorkingDays.Count(input.startDate.value, input.endDate.value)
    ensures r == Err(NoWorkingDays) <==>
              && FieldsPresent(input)
              && input.startDate.value <= input.endDate.value
              && WorkingDays.Count(input.startDate.value, input.endDate.value) == 0
    ensures r == Err(SchemaRejected) <==>
              && FieldsPresent(input)
              && input.startDate.value <= input.endDate.value
              && WorkingDays.Count(input.startDate.value, input.endDate.value) > 0
              && (|| ParseLeaveType(input.leaveType).None?
                  || (&& Get(balance, ParseLeaveType(input.leaveType).value)
                           >= WorkingDays.Count(input.startDate.value, input.endDate.value)
                      && Text.Trim(input.reason) == ""))
    ensures r.Ok? ==>
              && Some(r.value.leaveType) == ParseLeaveType(input.leaveType)
              && r.value.startDate == input.startDate.value
              && r.value.endDate == input.endDate.value
              && r.value.days == WorkingDays.Count(r.value.startDate, r.value.endDate)
              && r.value.days <= Get(balance, r.value.leaveType)
              && r.value.reason == Text.Trim(input.reason)
  {
    if !FieldsPresent(input) then Err(MissingFields)
    else
      var start, end := input.startDate.value, input.endDate.value;
      if start > end then Err(InvalidRange)
      else
        var days := WorkingDays.Count(start, end);
        if days == 0 then Err(NoWorkingDays)
        else
          var leaveType := ParseLeaveType(input.leaveType);
          if leaveType.Some? && Get(balance, leaveType.value) < days then Err(InsufficientBalance)
          else
            var reason := Text.Trim(input.reason);
            if leaveType.None? || reason == "" then Err(SchemaRejected)
            else Ok(LeaveDetails(leaveType.value, start, end, days, reason))
  }

  /** The checks of the apply handler as it runs them, counting the working
      days with the loop of `calculateDays`. */
  method CheckApplication(balance: Balance, input: LeaveInput) returns (r: Result<LeaveDetails, Error>)
    ensures r == Validate(balance, input)
  {
    if input.leaveType == "" || input.startDate.None? || input.endDate.None? || input.reason == "" {
      return Err(MissingFields);
    }
    var start, end := input.startDate.value, input.endDate.value;
    if start > end {
      return Err(InvalidRange);
    }
    var days := WorkingDays.CalculateDays(start, end);
    if days == 0 {
      return Err(NoWorkingDays);
    }
    var leaveType := ParseLeaveType(input.leaveType);
    if leaveType.Some? && Get(balance, leaveType.value) < days {
      return Err(InsufficientBalance);
    }
    var reason := Text.Trim(input.reason);
    if leaveType.None? || reason == "" {
      return Err(SchemaRejected);
    }
    r := Ok(LeaveDetails(leaveType.value, start, end, days, reason));
  }

  /** Every record the apply handler creates satisfies the leave schema. */
  lemma ValidatedRecordIsValid(balance: Balance, input: LeaveInput, details: LeaveDetails, id: Id, employee: Id,
                               now: int)
    requires Validate(balance, input) == Ok(details)
    ensures LeaveRecordValid(NewRequest(id, employee, details, now))
  {
    TrimmedIsRequiredTrimmed(input.reason);
  }

  /** Users equal but for their balances. */
  predicate SameExceptBalances(users: seq<User>, users': seq<User>) {
    |users'| == |users| && forall j :: 0 <= j < |users| ==> users'[j] == users[j].(balance := users'[j].balance)
  }

  /** The approval side effect: the owner's balance of the leave type goes
      down by `days`, unconditionally, so it may become negative. No other
      balance and no other user changes. An owner no longer in the table is
      left alone, as an update of a missing id is. */
  function Debit(users: seq<User>, owner: Id, leaveType: LeaveType, days: nat): (r: seq<User>)
    ensures SameExceptBalances(users, r)
    ensures forall j :: 0 <= j < |users| && users[j].id != owner ==> r[j] == users[j]
    ensures IndexOf(users, UserId, owner).Some? ==>
              var i := IndexOf(users, UserId, owner).value;
              && Get(r[i].balance, leaveType) == Get(users[i].balance, leaveType) - days
              && forall t :: t != leaveType ==> Get(r[i].balance, t) == Get(users[i].balance, t)
    ensures IndexOf(users, UserId, owner).None? ==> r == users
  {
    match IndexOf(users, UserId, owner)
    case None => users
    case Some(i) => users[i := users[i].(balance := Adjust(users[i].balance, leaveType, -(days as int)))]
  }

  /** The apply-time balance check is advisory: an application for exactly
      the remaining balance of its type passes it, and approving it would
      leave that balance at 0... */
  lemma ExactBalanceAccepted(balance: Balance, input: LeaveInput)
    requires FieldsPresent(input) && input.startDate.value <= input.endDate.value
    requires ParseLeaveType(input.leaveType).Some? && Text.Trim(input.reason) != ""
    requires WorkingDays.Count(input.startDate.value, input.endDate.value) > 0
    requires Get(balance, ParseLeaveType(input.leaveType).value)
               == WorkingDays.Count(input.startDate.value, input.endDate.value)
    ensures Validate(balance, input).Ok?
    ensures var details := Validate(balance, input).value;
            && details.days == Get(balance, details.leaveType)
            && Get(Adjust(balance, details.leaveType, -(details.days as int)), details.leaveType) == 0
  {
  }

  /** For instance, all 3 remaining casual days taken Monday to Wednesday of
      the first full week of 1970... */
  lemma ThreeOfThreeCasualDays()
    ensures var monToWed := LeaveInput("casual", Some(4), Some(6), "family");
            && Validate(Balance(3, 0, 0), monToWed).Ok?
            && Validate(Balance(3, 0, 0), monToWed).value.days == 3
  {
    WorkingDays.MondayToWednesday();
    Text.TrimKeepsUnpadded("family");
    assert ParseLeaveType("casual") == Some(Casual);
    ExactBalanceAccepted(Balance(3, 0, 0), LeaveInput("casual", Some(4), Some(6), "family"));
  }

  /** ... and so does a second one while the first is pending; approving
      both takes the balance to -3. */
  lemma ApprovalsCanOverdraw()
    ensures var users := [User(1, "E", "e@x", "pw", Employee, "ops", Balance(3, 0, 0), 0)];
            Get(Debit(Debit(users, 1, Casual, 3), 1, Casual, 3)[0].balance, Casual) == -3
  {
    var users := [User(1, "E", "e@x", "pw", Employee, "ops", Balance(3, 0, 0), 0)];
    assert IndexOf(users, UserId, 1) == Some(0);
    var once := Debit(users, 1, Casual, 3);
    assert Get(once[0].balance, Casual) == 0;
    assert IndexOf(once, UserId, 1) == Some(0);
  }
}
