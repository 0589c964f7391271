/**
 * TodoService: the outcome of each request (OK, BadRequest, NotFound or
 * InternalServerError) and its effect on the store.
 *
 * `DateTime.Now` is the parameter `now`; the COMB id a new entity is given
 * is the parameter `newId`. The only exceptions modelled are the ones the
 * model itself raises: a save that finds the id already stored, and the
 * division by a zero page size.
 */
module TodoService {
  import opened Wrappers
  import opened Entities
  import opened Repository
  import opened Validation
  import opened StatusUpdater

  const TitleExistsMessage: string := "Todo item with specified title already exist."
  const NotFoundMessage: string := "Todo item not found"

  /** An ApiResponse: the status code and, for each code, the data it carries. */
  datatype Response<T> = Ok(data: T) | BadRequest(message: string) | NotFound(message: string) | InternalServerError

  /**
   * The entity `Create` stores: the mapped request with the status set to
   * Pending and CreatedAt to now. UpdatedAt keeps its initial value.
   */
  function CreatedItem(request: CreateTodoItemRequest, newId: Guid, now: nat): (item: TodoItem)
    requires request.title.Some?
    ensures item.id == newId && item.status == Pending && item.createdAt == now
    ensures item.title == request.title.value && item.description == request.description
    ensures item.dueDate == request.dueDate
    ensures item.updatedAt == 0
  {
    MapCreateRequest(request, newId).(status := Pending, createdAt := now)
  }

  /**
   * The entity `Update` stores: the request's title, description, due date
   * and status, UpdatedAt set to now; the id and CreatedAt are kept.
   */
  function UpdatedItem(current: TodoItem, request: UpdateTodoItemRequest, now: nat): (item: TodoItem)
    requires request.title.Some?
    ensures item.id == current.id && item.createdAt == current.createdAt
    ensures item.title == request.title.value && item.description == request.description
    ensures item.dueDate == request.dueDate && item.status == request.status
    ensures item.updatedAt == now
  {
    current.(title := request.title.value, description := request.description,
             dueDate := request.dueDate, status := request.status, updatedAt := now)
  }

  class TodoService {
    const repository: TodoStore

    constructor(repository: TodoStore)
      ensures this.repository == repository
    {
      this.repository := repository;
    }

    /**
     * `Create`: BadRequest when the title is taken; otherwise the new item
     * is stored and returned. A save that finds the id taken throws, which
     * the catch turns into InternalServerError.
     */
    method Create(request: CreateTodoItemRequest, newId: Guid, now: nat) returns (response: Response<TodoItemBase>)
      requires repository.Valid() && request.title.Some?
      modifies repository
      ensures repository.Valid() && repository.updates == old(repository.updates)
      ensures TitlesUnique(old(repository.items)) ==> TitlesUnique(repository.items)
      ensures old(repository.ItemExists(request.title.value))
        ==> response == BadRequest(TitleExistsMessage) && repository.items == old(repository.items)
      ensures !old(repository.ItemExists(request.title.value)) && newId in old(repository.items)
        ==> response == InternalServerError && repository.items == old(repository.items)
      ensures !old(repository.ItemExists(request.title.value)) && newId !in old(repository.items)
        ==> (response == Ok(ToBase(CreatedItem(request, newId, now)))
             && repository.items == old(repository.items)[newId := CreatedItem(request, newId, now)])
    {
      if repository.ItemExists(request.title.value) {
        return BadRequest(TitleExistsMessage);
      }
      var item := MapCreateRequest(request, newId);
      item := item.(status := Pending, createdAt := now);
      ghost var before := repository.items;
      var saved := repository.Add(item);
      if !saved {
        return InternalServerError;
      }
      if TitlesUnique(before) {
        NewTitleKeepsTitlesUnique(before, item);
      }
      response := Ok(ToBase(item));
    }

    /** `Delete`: removes the item when it exists, NotFound otherwise. */
    method Delete(id: Guid) returns (response: Response<()>)
      requires repository.Valid()
      modifies repository
      ensures repository.Valid() && repository.updates == old(repository.updates)
      ensures id in old(repository.items) ==> response == Ok(()) && repository.items == old(repository.items) - {id}
      ensures id !in old(repository.items) ==> response == NotFound(NotFoundMessage) && repository.items == old(repository.items)
    {
      var found := repository.GetById(id);
      if found.Some? {
        var removed := repository.Delete(found.value);
        return Ok(());
      }
      response := NotFound(NotFoundMessage);
    }

    /**
     * `Update`: NotFound when the id is not stored; BadRequest when another
     * item has the requested title; otherwise the fields are copied, the
     * item is written and returned.
     */
    method Update(request: UpdateTodoItemRequest, now: nat) returns (response: Response<TodoItem>)
      requires repository.Valid() && request.title.Some?
      modifies repository
      ensures repository.Valid()
      ensures TitlesUnique(old(repository.items)) ==> TitlesUnique(repository.items)
      ensures request.id !in old(repository.items)
        ==> (response == NotFound(NotFoundMessage) && repository.items == old(repository.items)
             && repository.updates == old(repository.updates))
      ensures request.id in old(repository.items) && old(repository.ItemExistsExcept(request.title.value, request.id))
        ==> (response == BadRequest(TitleExistsMessage) && repository.items == old(repository.items)
             && repository.updates == old(repository.updates))
      ensures request.id in old(repository.items) && !old(repository.ItemExistsExcept(request.title.value, request.id))
        ==> (var item := UpdatedItem(old(repository.items)[request.id], request, now);
             response == Ok(item) && repository.items == old(repository.items)[request.id := item]
             && repository.updates == old(repository.updates) + [item])
    {
      var found := repository.GetById(request.id);
      if found.Some? && repository.ItemExistsExcept(request.title.value, request.id) {
        return BadRequest(TitleExistsMessage);
      }
      if found.Some? {
        var item := found.value.(title := request.title.value, description := request.description,
                                 dueDate := request.dueDate, status := request.status, updatedAt := now);
        ghost var before := repository.items;
        var saved := repository.Update(item);
        if TitlesUnique(before) {
          RetitleKeepsTitlesUnique(before, item);
        }
        return Ok(item);
      }
      response := NotFound(NotFoundMessage);
    }

    /**
     * `GetFilteredTodoItems`: the page of the filtered items, as views. A
     * zero page size throws on the page count and answers InternalServerError.
     */
    method GetFilteredTodoItems(filter: TodoItemFilter) returns (response: Response<PaginatedList<TodoItemBase>>)
      requires repository.Valid()
      ensures response == InternalServerError <==> filter.pageSize == 0
      ensures response.Ok? || response == InternalServerError
      ensures response.Ok? ==> exists all ::
        && IsListing(all, repository.items)
        && GetPaginatedItemsWithFilter(Filter(all, filter), filter.pageIndex, filter.pageSize).Success?
        && response.data == MapPage(GetPaginatedItemsWithFilter(Filter(all, filter), filter.pageIndex, filter.pageSize).value)
      ensures response.Ok? ==> response.data.pageIndex == filter.pageIndex
      ensures response.Ok? ==>
        response.data.totalPages == TruncatingDivide(|Matching(repository.items, filter)|, filter.pageSize) + 1
      ensures response.Ok? ==> forall view :: view in response.data.items ==>
        exists id :: id in Matching(repository.items, filter) && view == ToBase(repository.items[id])
    {
      var all := repository.GetAll();
      var filtered := Filter(all, filter);
      var result := GetPaginatedItemsWithFilter(filtered, filter.pageIndex, filter.pageSize);
      if result.Failure? {
        return InternalServerError;
      }
      FilterListing(all, repository.items, filter);
      ListingEnumerates(filtered, Matching(repository.items, filter));
      var page := result.value;
      response := Ok(MapPage(page));
      forall view | view in response.data.items
        ensures exists id :: id in Matching(repository.items, filter) && view == ToBase(repository.items[id])
      {
        var i :| 0 <= i < |response.data.items| && response.data.items[i] == view;
        var item := page.items[i];
        assert item in multiset(filtered);
        assert item.id in Matching(repository.items, filter);
      }
    }
  }

  // ---------------------------------------------------------------------------
  // Properties across operations
  // ---------------------------------------------------------------------------

  /**
   * The title checks keep titles unique: adding an item whose title no
   * stored item has keeps them unique.
   */
  lemma NewTitleKeepsTitlesUnique(m: map<Guid, TodoItem>, item: TodoItem)
    requires TitlesUnique(m) && item.id !in m
    requires forall id :: id in m ==> m[id].title != item.title
    ensures TitlesUnique(m[item.id := item])
  {
    var n := m[item.id := item];
    forall id1, id2 | id1 in n && id2 in n && n[id1].title == n[id2].title
      ensures id1 == id2
    {
      if id1 != item.id && id2 != item.id {
        assert m[id1].title == m[id2].title;
      }
    }
  }

  /**
   * Replacing a stored item by one whose title no other stored item has
   * keeps titles unique.
   */
  lemma RetitleKeepsTitlesUnique(m: map<Guid, TodoItem>, item: TodoItem)
    requires TitlesUnique(m) && item.id in m
    requires forall id :: id in m && id != item.id ==> m[id].title != item.title
    ensures TitlesUnique(m[item.id := item])
  {
    var n := m[item.id := item];
    forall id1, id2 | id1 in n && id2 in n && n[id1].title == n[id2].title
      ensures id1 == id2
    {
      if id1 != item.id && id2 != item.id {
        assert m[id1].title == m[id2].title;
      }
    }
  }

  /**
   * An item created from a request the create validator accepted on the
   * same day is Pending and not yet due, so a reconciliation cycle later
   * that day leaves it as it is; on a later day it turns Overdue exactly
   * when its due day has passed.
   */
  lemma ValidCreateNotOverdueSameDay(request: CreateTodoItemRequest, newId: Guid, now: nat, later: nat)
    requires ValidateCreate(request, Day(now)) == []
    ensures request.title.Some?
    ensures Day(later) == Day(now) ==> Transition(CreatedItem(request, newId, now), later) == CreatedItem(request, newId, now)
    ensures Transition(CreatedItem(request, newId, now), later).status == Overdue
        <==> Day(request.dueDate) < Day(later)
  {
    assert HasText(request.title);
    var item := CreatedItem(request, newId, now);
    assert IsDue(item, later) <==> Day(request.dueDate) < Day(later);
  }

  /**
   * A filter the filter validator accepts never reaches the division by
   * zero: the page is computed, holds at most `PageSize` items, and the
   * offset `(PageIndex - 1) * PageSize` is not negative before the int32
   * multiplication wraps it.
   */
  lemma ValidFilterPages(filtered: seq<TodoItem>, filter: TodoItemFilter)
    requires ValidateFilter(filter) == []
    ensures GetPaginatedItemsWithFilter(filtered, filter.pageIndex, filter.pageSize).Success?
    ensures |GetPaginatedItemsWithFilter(filtered, filter.pageIndex, filter.pageSize).value.items| <= filter.pageSize
    ensures (filter.pageIndex - 1) * filter.pageSize >= 0
  {
    MulNonNegative(filter.pageIndex - 1, filter.pageSize);
  }
}
