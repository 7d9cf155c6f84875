/** The reimbursement-specific rule: the validation of a reimbursement
    application. Review and delete follow the shared workflow and have no
    side effect beyond the record. */
module Claims {
  import opened Common
  import opened Schema
  import Text

  /** The `amount` of a request body as JavaScript sees it: absent (or
      empty), a JSON number, a string that `Number` converts to a number, or
      a string it does not (NaN). */
  datatype AmountInput = NoAmount | NumberValue(n: real) | NumericText(t: real) | NonNumericText

  datatype ClaimInput = ClaimInput(amount: AmountInput, category: string, description: string)

  /** JavaScript truthiness of the amount: the number 0 is falsy, every
      non-empty string is truthy, even "0". */
  predicate Truthy(a: AmountInput) {
    match a
    case NoAmount => false
    case NumberValue(n) => n != 0.0
    case NumericText(_) => true
    case NonNumericText => true
  }

  /** `Number(amount)`, when it is not NaN. */
  function NumberOf(a: AmountInput): Option<real> {
    match a
    case NumberValue(n) => Some(n)
    case NumericText(t) => Some(t)
    case _ => None
  }

  predicate FieldsPresent(input: ClaimInput) {
    Truthy(input.amount) && input.category != "" && input.description != ""
  }

  /** The checks of the apply handler, in its order, and the details of the
      record it creates: all fields present (the number 0 counts as
      missing); the amount a number above zero; then the schema's minimum
      amount of 1, its category enum and its required, trimmed
      description. */
  function Validate(input: ClaimInput): (r: Result<ClaimDetails, Error>)
    ensures r == Err(MissingFields) <==> !FieldsPresent(input)
    ensures (FieldsPresent(input) && (NumberOf(input.amount).None? || NumberOf(input.amount).value <= 0.0))
              ==> r == Err(InvalidAmount)
    ensures r == Err(SchemaRejected) <==>
              && FieldsPresent(input)
              && NumberOf(input.amount).Some?
              && NumberOf(input.amount).value > 0.0
              && (|| NumberOf(input.amount).value < 1.0
                  || ParseCategory(input.category).None?
                  || Text.Trim(input.description) == "")
    ensures r.Ok? <==>
              && FieldsPresent(input)
              && NumberOf(input.amount).Some?
              && NumberOf(input.amount).value >= 1.0
              && ParseCategory(input.category).Some?
              && Text.Trim(input.description) != ""
    ensures r.Ok? ==>
              && Some(r.value.amount) == NumberOf(input.amount)
              && Some(r.value.category) == ParseCategory(input.category)
              && r.value.description == Text.Trim(input.description)
  {
    if !FieldsPresent(input) then Err(MissingFields)
    else match NumberOf(input.amount)
      case None => Err(InvalidAmount)
      case Some(amount) =>
        if amount <= 0.0 then Err(InvalidAmount)
        else
          var category := ParseCategory(input.category);
          var description := Text.Trim(input.description);
          if amount < 1.0 || category.None? || description == "" then Err(SchemaRejected)
          else Ok(ClaimDetails(amount, category.value, description))
  }

  /** Every record the apply handler creates satisfies the reimbursement
      schema. */
  lemma ValidatedRecordIsValid(input: ClaimInput, details: ClaimDetails, id: Id, employee: Id, now: int)
    requires Validate(input) == Ok(details)
    ensures ClaimRecordValid(NewRequest(id, employee, details, now))
  {
    TrimmedIsRequiredTrimmed(input.description);
  }

  /** An amount strictly between 0 and 1 passes the handler's own check but
      not the schema's minimum, so the handler ends in its catch-all error
      instead of a validation answer. */
  lemma FractionalAmountFailsOnlyInSchema(amount: real, category: string, description: string)
    requires 0.0 < amount < 1.0 && category != "" && description != ""
    ensures Validate(ClaimInput(NumberValue(amount), category, description)) == Err(SchemaRejected)
  {
  }

  /** The string "0" is present (truthy) but not positive; the number 0 is
      missing. Both are refused before any record exists. */
  lemma ZeroAmounts(category: string, description: string)
    requires category != "" && description != ""
    ensures Validate(ClaimInput(NumberValue(0.0), category, description)) == Err(MissingFields)
    ensures Validate(ClaimInput(NumericText(0.0), category, description)) == Err(InvalidAmount)
  {
  }
}
