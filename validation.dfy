/**
 * The three FluentValidation validators of the TodoItem requests, as pure
 * functions from a request (and today's day number, which the source reads
 * from the clock) to the list of failures the validator reports.
 *
 * Each rule's validators run in order and every failing one reports; a
 * `WithMessage` replaces the message of the validator it follows, the others
 * report the library's default message.
 */
module Validation {
  import opened Wrappers
  import opened Entities

  datatype Property = Id | Title | Description | DueDate | TodoItemStatus | PageIndex | PageSize

  datatype Validator = NotEmpty | NotNull | MaximumLength | GreaterThanOrEqualTo | IsInEnum | Must

  datatype Message = DefaultMessage | Custom(text: string)

  datatype ValidationFailure = ValidationFailure(property: Property, validator: Validator, message: Message)

  const TitleNullMessage := "Title can't be null"
  const DescriptionLengthMessage := "Description maximum length must be 80 characters"
  const CreateOverdueMessage := "Can't create overdue task"
  const UpdatePastDateMessage := "Can't update task to a past date"
  const PageIndexMessage := "PageIndex must be greater than or equal to 1"
  const PageSizeMessage := "PageSize must be at least 10."
  const InvalidStatusMessage := "Invalid status value."

  const MaxDescriptionLength: nat := 80
  const MinPageSize: int := 10

  // ---------------------------------------------------------------------------
  // What the individual validators accept
  // ---------------------------------------------------------------------------

  /** The characters `char.IsWhiteSpace` accepts. */
  predicate IsWhiteSpace(c: char)
  {
    || ('\U{0009}' <= c <= '\U{000D}') || c == '\U{0020}' || c == '\U{0085}' || c == '\U{00A0}'
    || c == '\U{1680}' || ('\U{2000}' <= c <= '\U{200A}') || c == '\U{2028}' || c == '\U{2029}'
    || c == '\U{202F}' || c == '\U{205F}' || c == '\U{3000}'
  }

  /** NotEmpty on a string: not null, not "", not white space only. */
  predicate HasText(s: Option<string>)
  {
    s.Some? && exists i :: 0 <= i < |s.value| && !IsWhiteSpace(s.value[i])
  }

  /**
   * .NET `string.Length`: the number of UTF-16 code units, one per
   * character of the Basic Multilingual Plane and two (a surrogate pair)
   * per character above U+FFFF.
   */
  function Utf16Length(s: string): (units: nat)
    ensures |s| <= units <= 2 * |s|
  {
    if s == [] then 0 else (if (s[0] as int) < 0x1_0000 then 1 else 2) + Utf16Length(s[1..])
  }

  /** A string of Basic Multilingual Plane characters has one code unit per character. */
  lemma {:induction false} BmpLength(s: string)
    requires forall i :: 0 <= i < |s| ==> (s[i] as int) < 0x1_0000
    ensures Utf16Length(s) == |s|
    decreases |s|
  {
    if s != [] {
      BmpLength(s[1..]);
    }
  }

  /** A string of characters above U+FFFF has two code units per character. */
  lemma {:induction false} SupplementaryLength(s: string)
    requires forall i :: 0 <= i < |s| ==> (s[i] as int) >= 0x1_0000
    ensures Utf16Length(s) == 2 * |s|
    decreases |s|
  {
    if s != [] {
      SupplementaryLength(s[1..]);
    }
  }

  /** MaximumLength(n): null passes; the length counted is `string.Length`. */
  predicate WithinLength(s: Option<string>, n: nat)
  {
    s.None? || Utf16Length(s.value) <= n
  }

  /** NotEmpty on `DueDate.Date`: not the default DateTime, whose date is day 0. */
  predicate IsSetDate(ticks: nat)
  {
    Day(ticks) != 0
  }

  function Check(passes: bool, property: Property, validator: Validator, message: Message): seq<ValidationFailure>
  {
    if passes then [] else [ValidationFailure(property, validator, message)]
  }

  predicate FailsOn(failures: seq<ValidationFailure>, property: Property)
  {
    exists f :: f in failures && f.property == property
  }

  /** Every failure in the list is reported on the one property. */
  predicate OnlyOn(failures: seq<ValidationFailure>, property: Property)
  {
    forall f :: f in failures ==> f.property == property
  }

  /** A concatenation fails on a property iff one of its two parts does. */
  lemma FailsOnAppend(a: seq<ValidationFailure>, b: seq<ValidationFailure>, p: Property)
    ensures FailsOn(a + b, p) <==> FailsOn(a, p) || FailsOn(b, p)
  {
    if FailsOn(a + b, p) {
      var f :| f in a + b && f.property == p;
      assert f in a || f in b;
    }
  }

  /** A list reported on one property fails on a property iff it is that one and the list is not empty. */
  lemma FailsOnOwnProperty(a: seq<ValidationFailure>, q: Property, p: Property)
    requires OnlyOn(a, q)
    ensures FailsOn(a, p) <==> a != [] && p == q
  {
    if a != [] {
      assert a[0] in a;
    }
  }

  // ---------------------------------------------------------------------------
  // CreateTodoItemRequestValidator
  // ---------------------------------------------------------------------------

  /**
   * Title: NotEmpty, then NotNull with its own message. Description:
   * MaximumLength(80). DueDate.Date: NotEmpty, then at least today's date
   * (NotNull on a DateTime never fails and is left out).
   */
  function ValidateCreate(request: CreateTodoItemRequest, today: nat): (failures: seq<ValidationFailure>)
    ensures FailsOn(failures, Title) <==> !HasText(request.title)
    ensures ValidationFailure(Title, NotNull, Custom(TitleNullMessage)) in failures <==> request.title.None?
    ensures FailsOn(failures, Description)
        <==> request.description.Some? && Utf16Length(request.description.value) > MaxDescriptionLength
    ensures FailsOn(failures, DueDate) <==> Day(request.dueDate) < today || !IsSetDate(request.dueDate)
    ensures ValidationFailure(DueDate, GreaterThanOrEqualTo, Custom(CreateOverdueMessage)) in failures
        <==> Day(request.dueDate) < today
    ensures forall f :: f in failures ==> f.property in {Title, Description, DueDate}
    ensures failures == []
        <==> HasText(request.title) && WithinLength(request.description, MaxDescriptionLength)
             && today <= Day(request.dueDate) && IsSetDate(request.dueDate)
  {
    var titleRule := Check(HasText(request.title), Title, NotEmpty, DefaultMessage)
      + Check(request.title.Some?, Title, NotNull, Custom(TitleNullMessage));
    var descriptionRule :=
      Check(WithinLength(request.description, MaxDescriptionLength), Description, MaximumLength, Custom(DescriptionLengthMessage));
    var dueDateRule := Check(IsSetDate(request.dueDate), DueDate, NotEmpty, DefaultMessage)
      + Check(Day(request.dueDate) >= today, DueDate, GreaterThanOrEqualTo, Custom(CreateOverdueMessage));
    CreateRulesFail(titleRule, descriptionRule, dueDateRule);
    titleRule + descriptionRule + dueDateRule
  }

  /** The three rule results of the create validator, concatenated, fail on each property exactly when its own rule does. */
  lemma CreateRulesFail(titleRule: seq<ValidationFailure>, descriptionRule: seq<ValidationFailure>,
                        dueDateRule: seq<ValidationFailure>)
    requires OnlyOn(titleRule, Title) && OnlyOn(descriptionRule, Description) && OnlyOn(dueDateRule, DueDate)
    ensures FailsOn(titleRule + descriptionRule + dueDateRule, Title) <==> titleRule != []
    ensures FailsOn(titleRule + descriptionRule + dueDateRule, Description) <==> descriptionRule != []
    ensures FailsOn(titleRule + descriptionRule + dueDateRule, DueDate) <==> dueDateRule != []
    ensures forall f :: f in titleRule + descriptionRule + dueDateRule ==> f.property in {Title, Description, DueDate}
    ensures titleRule + descriptionRule + dueDateRule == []
        <==> titleRule == [] && descriptionRule == [] && dueDateRule == []
    ensures forall f: ValidationFailure :: f.property == Title ==>
        (f in titleRule + descriptionRule + dueDateRule <==> f in titleRule)
    ensures forall f: ValidationFailure :: f.property == DueDate ==>
        (f in titleRule + descriptionRule + dueDateRule <==> f in dueDateRule)
  {
    var all := titleRule + descriptionRule + dueDateRule;
    forall p
      ensures FailsOn(all, p)
          <==> (p == Title && titleRule != []) || (p == Description && descriptionRule != [])
               || (p == DueDate && dueDateRule != [])
    {
      FailsOnAppend(titleRule, descriptionRule, p);
      FailsOnAppend(titleRule + descriptionRule, dueDateRule, p);
      FailsOnOwnProperty(titleRule, Title, p);
      FailsOnOwnProperty(descriptionRule, Description, p);
      FailsOnOwnProperty(dueDateRule, DueDate, p);
    }
  }

  // ---------------------------------------------------------------------------
  // UpdateTodoItemRequestValidator
  // ---------------------------------------------------------------------------

  /**
   * Id: NotEmpty. Title: NotEmpty, NotNull. Description: NotEmpty, NotNull,
   * MaximumLength(80). DueDate.Date: NotEmpty, at least today's date.
   * TodoItemStatus: IsInEnum.
   */
  function ValidateUpdate(request: UpdateTodoItemRequest, today: nat): (failures: seq<ValidationFailure>)
    ensures FailsOn(failures, Id) <==> request.id == EmptyGuid
    ensures FailsOn(failures, Title) <==> !HasText(request.title)
    ensures FailsOn(failures, Description)
        <==> !HasText(request.description) || Utf16Length(request.description.value) > MaxDescriptionLength
    ensures FailsOn(failures, DueDate) <==> Day(request.dueDate) < today || !IsSetDate(request.dueDate)
    ensures ValidationFailure(DueDate, GreaterThanOrEqualTo, Custom(UpdatePastDateMessage)) in failures
        <==> Day(request.dueDate) < today
    ensures FailsOn(failures, TodoItemStatus) <==> !IsDefinedStatus(request.status)
    ensures failures == []
        <==> request.id != EmptyGuid && HasText(request.title)
             && HasText(request.description) && Utf16Length(request.description.value) <= MaxDescriptionLength
             && today <= Day(request.dueDate) && IsSetDate(request.dueDate)
             && IsDefinedStatus(request.status)
  {
    var idRule := Check(request.id != EmptyGuid, Id, NotEmpty, DefaultMessage);
    var titleRule := UpdateTitleRule(request.title);
    var descriptionRule := UpdateDescriptionRule(request.description);
    var dueDateRule := UpdateDueDateRule(request.dueDate, today);
    var statusRule := Check(IsDefinedStatus(request.status), TodoItemStatus, IsInEnum, DefaultMessage);
    UpdateRulesFail(idRule, titleRule, descriptionRule, dueDateRule, statusRule);
    idRule + titleRule + descriptionRule + dueDateRule + statusRule
  }

  /** The five rule results of the update validator, concatenated, fail on each property exactly when its own rule does. */
  lemma UpdateRulesFail(idRule: seq<ValidationFailure>, titleRule: seq<ValidationFailure>,
                        descriptionRule: seq<ValidationFailure>, dueDateRule: seq<ValidationFailure>,
                        statusRule: seq<ValidationFailure>)
    requires OnlyOn(idRule, Id) && OnlyOn(titleRule, Title) && OnlyOn(descriptionRule, Description)
    requires OnlyOn(dueDateRule, DueDate) && OnlyOn(statusRule, TodoItemStatus)
    ensures FailsOn(idRule + titleRule + descriptionRule + dueDateRule + statusRule, Id) <==> idRule != []
    ensures FailsOn(idRule + titleRule + descriptionRule + dueDateRule + statusRule, Title) <==> titleRule != []
    ensures FailsOn(idRule + titleRule + descriptionRule + dueDateRule + statusRule, Description)
        <==> descriptionRule != []
    ensures FailsOn(idRule + titleRule + descriptionRule + dueDateRule + statusRule, DueDate) <==> dueDateRule != []
    ensures FailsOn(idRule + titleRule + descriptionRule + dueDateRule + statusRule, TodoItemStatus)
        <==> statusRule != []
    ensures idRule + titleRule + descriptionRule + dueDateRule + statusRule == []
        <==> idRule == [] && titleRule == [] && descriptionRule == [] && dueDateRule == [] && statusRule == []
    ensures forall f: ValidationFailure :: f.property == DueDate ==>
        (f in idRule + titleRule + descriptionRule + dueDateRule + statusRule <==> f in dueDateRule)
  {
    var all := idRule + titleRule + descriptionRule + dueDateRule + statusRule;
    forall p
      ensures FailsOn(all, p)
          <==> (p == Id && idRule != []) || (p == Title && titleRule != [])
               || (p == Description && descriptionRule != []) || (p == DueDate && dueDateRule != [])
               || (p == TodoItemStatus && statusRule != [])
    {
      FailsOnAppend(idRule, titleRule, p);
      FailsOnAppend(idRule + titleRule, descriptionRule, p);
      FailsOnAppend(idRule + titleRule + descriptionRule, dueDateRule, p);
      FailsOnAppend(idRule + titleRule + descriptionRule + dueDateRule, statusRule, p);
      FailsOnOwnProperty(idRule, Id, p);
      FailsOnOwnProperty(titleRule, Title, p);
      FailsOnOwnProperty(descriptionRule, Description, p);
      FailsOnOwnProperty(dueDateRule, DueDate, p);
      FailsOnOwnProperty(statusRule, TodoItemStatus, p);
    }
  }

  function UpdateTitleRule(title: Option<string>): (failures: seq<ValidationFailure>)
    ensures forall f :: f in failures ==> f.property == Title
    ensures failures == [] <==> HasText(title)
  {
    Check(HasText(title), Title, NotEmpty, DefaultMessage)
    + Check(title.Some?, Title, NotNull, DefaultMessage)
  }

  function UpdateDescriptionRule(description: Option<string>): (failures: seq<ValidationFailure>)
    ensures forall f :: f in failures ==> f.property == Description
    ensures failures == [] <==> HasText(description) && Utf16Length(description.value) <= MaxDescriptionLength
  {
    Check(HasText(description), Description, NotEmpty, DefaultMessage)
    + Check(description.Some?, Description, NotNull, DefaultMessage)
    + Check(WithinLength(description, MaxDescriptionLength), Description, MaximumLength, Custom(DescriptionLengthMessage))
  }

  function UpdateDueDateRule(dueDate: nat, today: nat): (failures: seq<ValidationFailure>)
    ensures forall f :: f in failures ==> f.property == DueDate
    ensures failures == [] <==> today <= Day(dueDate) && IsSetDate(dueDate)
    ensures ValidationFailure(DueDate, GreaterThanOrEqualTo, Custom(UpdatePastDateMessage)) in failures
        <==> Day(dueDate) < today
  {
    Check(IsSetDate(dueDate), DueDate, NotEmpty, DefaultMessage)
    + Check(Day(dueDate) >= today, DueDate, GreaterThanOrEqualTo, Custom(UpdatePastDateMessage))
  }

  // ---------------------------------------------------------------------------
  // TodoItemFilterValidator
  // ---------------------------------------------------------------------------

  /**
   * PageIndex: at least 1. PageSize: at least 10, checked twice (a comparison
   * and a `Must`) with the same message. TodoItemStatus: IsInEnum, only when a
   * status is given.
   */
  function ValidateFilter(filter: TodoItemFilter): (failures: seq<ValidationFailure>)
    ensures FailsOn(failures, PageIndex) <==> filter.pageIndex < 1
    ensures FailsOn(failures, PageSize) <==> filter.pageSize < MinPageSize
    ensures filter.pageSize < MinPageSize ==>
      ValidationFailure(PageSize, GreaterThanOrEqualTo, Custom(PageSizeMessage)) in failures
      && ValidationFailure(PageSize, Must, Custom(PageSizeMessage)) in failures
    ensures FailsOn(failures, TodoItemStatus) <==> filter.status.Some? && !IsDefinedStatus(filter.status.value)
    ensures FailsOn(failures, TodoItemStatus)
        ==> ValidationFailure(TodoItemStatus, IsInEnum, Custom(InvalidStatusMessage)) in failures
    ensures failures == []
        <==> 1 <= filter.pageIndex && MinPageSize <= filter.pageSize
             && (filter.status.Some? ==> IsDefinedStatus(filter.status.value))
  {
    Check(filter.pageIndex >= 1, PageIndex, GreaterThanOrEqualTo, Custom(PageIndexMessage))
    + Check(filter.pageSize >= MinPageSize, PageSize, GreaterThanOrEqualTo, Custom(PageSizeMessage))
    + Check(filter.pageSize >= MinPageSize, PageSize, Must, Custom(PageSizeMessage))
    + (if filter.status.Some? then Check(IsDefinedStatus(filter.status.value), TodoItemStatus, IsInEnum, Custom(InvalidStatusMessage))
       else [])
  }

  /**
   * 41 characters above U+FFFF are 82 UTF-16 code units: over the limit,
   * although the description holds only 41 characters.
   */
  lemma SurrogatePairsCountTwice(request: CreateTodoItemRequest, today: nat)
    requires request.description == Some(seq(41, i => '\U{1F600}'))
    ensures FailsOn(ValidateCreate(request, today), Description)
  {
    SupplementaryLength(request.description.value);
  }

  /** The filter a request with no query parameters binds to passes validation. */
  lemma DefaultFilterIsValid()
    ensures ValidateFilter(DefaultFilter) == []
  {}
}
