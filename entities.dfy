/**
 * The TodoItem entity, the request and response records around it, the .NET
 * date arithmetic the core relies on, and the explicit field copies that stand
 * for the AutoMapper profile.
 */
module Entities {
  import opened Wrappers

  // ---------------------------------------------------------------------------
  // Time: a DateTime is a count of 100-nanosecond ticks since 0001-01-01 00:00.
  // ---------------------------------------------------------------------------

  const TicksPerDay: nat := 864_000_000_000

  /** The day number of `t.Date`: comparing two `.Date` values compares these. */
  function Day(ticks: nat): (day: nat)
    ensures day * TicksPerDay <= ticks < (day + 1) * TicksPerDay
  {
    ticks / TicksPerDay
  }

  // ---------------------------------------------------------------------------
  // The TodoItemStatus enum, kept as its raw integer so that undefined values
  // (such as `(TodoItemStatus)999`) can be represented and rejected.
  // ---------------------------------------------------------------------------

  const Pending: int := 0
  const Completed: int := 1
  const Overdue: int := 2

  predicate IsDefinedStatus(code: int)
  {
    code == Pending || code == Completed || code == Overdue
  }

  // ---------------------------------------------------------------------------
  // Identifiers
  // ---------------------------------------------------------------------------

  type Byte = b: int | 0 <= b < 256

  /** The 16 bytes of a `Guid`, in `ToByteArray` order. */
  type Guid = s: seq<Byte> | |s| == 16 witness [0, 0, 0, 0, 0, 0, 0, 0, 0, 0, 0, 0, 0, 0, 0, 0]

  /** `Guid.Empty`. */
  const EmptyGuid: Guid := [0, 0, 0, 0, 0, 0, 0, 0, 0, 0, 0, 0, 0, 0, 0, 0]

  // ---------------------------------------------------------------------------
  // Records
  // ---------------------------------------------------------------------------

  /** The persisted entity. A `DateTime` field left unassigned holds tick 0. */
  datatype TodoItem = TodoItem(
    id: Guid,
    title: string,
    description: Option<string>,
    dueDate: nat,
    status: int,
    createdAt: nat,
    updatedAt: nat)

  /** The view of an item returned to clients: no timestamps. */
  datatype TodoItemBase = TodoItemBase(
    id: Guid,
    title: string,
    description: Option<string>,
    dueDate: nat,
    status: int)

  datatype CreateTodoItemRequest = CreateTodoItemRequest(
    title: Option<string>,
    description: Option<string>,
    dueDate: nat)

  datatype UpdateTodoItemRequest = UpdateTodoItemRequest(
    id: Guid,
    title: Option<string>,
    description: Option<string>,
    dueDate: nat,
    status: int)

  /** A read query: optional predicates and the page to return. */
  datatype TodoItemFilter = TodoItemFilter(
    status: Option<int>,
    createdAt: Option<nat>,
    dueDate: Option<nat>,
    title: Option<string>,
    pageIndex: int,
    pageSize: int)

  /** A filter with nothing set: the initial values of the record's members. */
  const DefaultFilter: TodoItemFilter := TodoItemFilter(None, None, None, None, 1, 20)

  datatype PaginatedList<T> = PaginatedList(items: seq<T>, pageIndex: int, totalPages: int)

  // ---------------------------------------------------------------------------
  // The AutoMapper profile, as explicit field copies
  // ---------------------------------------------------------------------------

  /**
   * CreateTodoItemRequest -> TodoItem. Id, CreatedAt, UpdatedAt and the status
   * are ignored by the map and keep the values a new entity starts with: the
   * generated COMB id, tick 0, tick 0 and the enum's zero value.
   */
  function MapCreateRequest(request: CreateTodoItemRequest, newId: Guid): (item: TodoItem)
    requires request.title.Some?
    ensures item.id == newId
    ensures item.title == request.title.value && item.description == request.description
    ensures item.dueDate == request.dueDate
    ensures item.createdAt == 0 && item.updatedAt == 0 && item.status == 0
  {
    TodoItem(newId, request.title.value, request.description, request.dueDate, 0, 0, 0)
  }

  /** TodoItem -> TodoItemBase: every member the two share, and nothing else. */
  function ToBase(item: TodoItem): (view: TodoItemBase)
    ensures view.id == item.id && view.title == item.title
    ensures view.description == item.description && view.dueDate == item.dueDate
    ensures view.status == item.status
  {
    TodoItemBase(item.id, item.title, item.description, item.dueDate, item.status)
  }

  /** PaginatedList<TodoItem> -> PaginatedList<TodoItemBase>. */
  function MapPage(page: PaginatedList<TodoItem>): (view: PaginatedList<TodoItemBase>)
    ensures |view.items| == |page.items|
    ensures forall i :: 0 <= i < |page.items| ==> view.items[i] == ToBase(page.items[i])
    ensures view.pageIndex == page.pageIndex && view.totalPages == page.totalPages
  {
    PaginatedList(seq(|page.items|, i requires 0 <= i < |page.items| => ToBase(page.items[i])),
                  page.pageIndex, page.totalPages)
  }
}
