# TodoList-WebApi core in Dafny

This is a model of the logic of the TodoList Web API: an ASP.NET service that stores to-do items and lets clients create, update, delete and query them.

The model covers:

- **The overdue reconciliation cycle** of `TodoItemStatusUpdaterService`. The background loop reads every item and marks each Pending item whose due day has passed as Overdue, stamping UpdatedAt. It writes every changed item and sends one SignalR notification when anything changed.
- **The repository** (`TodoRepository`). Its key operations:
  - `Filter` builds a conjunction of optional predicates (status, created day, due day, title substring).
  - `GetPaginatedItemsWithFilter` counts, orders by CreatedAt descending, skips and takes.
  - The two title-existence checks.
  - Get, add, update and delete run over a map keyed by id.
- **The COMB identifier** of `CombGenerator.GenerateComb`. It keeps ten random bytes and appends the day count and the scaled time of day, most significant byte first, so that identifiers sort by creation time.
- **The service outcomes** of `TodoService`: OK, BadRequest, NotFound or InternalServerError for Create, Update, Delete and GetFilteredTodoItems, and what each does to the store.
- **The three FluentValidation validators**, for create requests, update requests and filters.

Modules, one per file:

| file | module | what it holds |
|---|---|---|
| `wrappers.dfy` | `Wrappers` | `Option` and `Result` |
| `entities.dfy` | `Entities` | the `TodoItem` entity, the request and response records, ticks and `.Date`, status codes, `Guid`, and the AutoMapper maps as field copies |
| `comb.dfy` | `Comb` | `GenerateComb` over byte arrays, and its layout, decode and ordering lemmas |
| `validation.dfy` | `Validation` | the three validators as functions from a request to its list of failures |
| `repository.dfy` | `Repository` | the `TodoStore` class, `Filter`, the ordering, `int` pagination arithmetic, and the page lemmas |
| `hubs.dfy` | `Hubs` | `NotificationHub` with a ghost log of broadcasts |
| `status_updater.dfy` | `StatusUpdater` | the reconciliation cycle as a class over the store and the hub, its specification functions and their lemmas |
| `todo_service.dfy` | `TodoService` | the `TodoService` class and the properties that span services |

Conventions:

- A `DateTime` is a natural number of 100 ns ticks. `t.Date` is compared through `Day(t) = t / 864000000000`.
- The clock (`DateTime.Now`) is a parameter `now` of every operation that reads it.
- The random GUID and the two clock readings of the COMB generator are inputs.
- The id a newly mapped entity receives is the parameter `newId`.

Three facts about the code shape the model:

- Page items are ordered by CreatedAt descending. There is no explicit tie-break, such as one on the id.
- The due-date filter also orders by DueDate. The CreatedAt ordering applied afterwards decides the page order. With the in-memory provider (`DependencyInjectionConfig.cs`), LINQ's `OrderByDescending` is a stable sort, so the earlier DueDate order can only affect the order of items with equal CreatedAt. The model leaves that order open.
- The page count is `count / qt + 1`, including the extra empty page when the count is an exact multiple of the page size.

## Model

| member | source | states |
|---|---|---|
| StatusUpdater.Transition | TodoList.Infra/Services/TodoItemStatusUpdaterService.cs:44-47 | an item changes iff it is Pending with its due day strictly before today's day; a changed item becomes Overdue with UpdatedAt = now; id, title, description, due date and CreatedAt never change; the result is never due |
| StatusUpdater.Reconciled | TodoList.Infra/Services/TodoItemStatusUpdaterService.cs:42-51 | the store after a cycle keeps the same ids, the same content per id, changes exactly the due entries, and holds no due entry |
| StatusUpdater.Flipped | TodoList.Infra/Services/TodoItemStatusUpdaterService.cs:44-49 | the entries a cycle writes are exactly the due ones, in their reconciled form |
| StatusUpdater.DueWritesListing | TodoList.Infra/Services/TodoItemStatusUpdaterService.cs:42-51 | visiting every stored item once writes every changed entry exactly once, and nothing else |
| StatusUpdater.TodoItemStatusUpdater.Visit | TodoList.Infra/Services/TodoItemStatusUpdaterService.cs:44-50 | one loop step: reports a change iff the item is due, replaces it by its transition, and logs one write exactly when it changed |
| StatusUpdater.TodoItemStatusUpdater.UpdateDueItems | TodoList.Infra/Services/TodoItemStatusUpdaterService.cs:42-51 | the foreach over a listing of the store leaves the reconciled store, logs the due writes in listing order, and sets the flag iff something was written |
| StatusUpdater.TodoItemStatusUpdater.RunCycle | TodoList.Infra/Services/TodoItemStatusUpdaterService.cs:37-56 | one cycle: the store becomes the reconciled store; the writes enumerate exactly the changed entries, once each; one "Todo items updated" broadcast iff some entry changed, none otherwise |
| StatusUpdater.TodoItemStatusUpdater.RunBackgroundService | TodoList.Infra/Services/TodoItemStatusUpdaterService.cs:33-61 | cycles run while cancellation has not been requested, one per clock reading; the loop stops at the first cancellation; the store is the result of reconciling at each instant in turn; each cycle's write log lists exactly the entries it changed, and the store's write log grows by these logs in order; the hub's log grows by one "Todo items updated" broadcast for each cycle that changed an item |
| StatusUpdater.CycleBroadcasts | TodoList.Infra/Services/TodoItemStatusUpdaterService.cs:53-56 | a run of cycles sends at most one broadcast per cycle, each on the update topic with the update message |
| StatusUpdater.CycleLogsEach | TodoList.Infra/Services/TodoItemStatusUpdaterService.cs:42-51 | the per-cycle write logs of a run: log k lists, once each, the entries due at cycle k in the store the earlier cycles left |
| StatusUpdater.ReconciledAll | TodoList.Infra/Services/TodoItemStatusUpdaterService.cs:35-58 | a run of cycles never adds or removes an id |
| StatusUpdater.ReconcileIdempotent | TodoList.Infra/Services/TodoItemStatusUpdaterService.cs:44-56 | a second cycle on the same day changes nothing and writes nothing, so it sends no notification |
| StatusUpdater.NothingDueAfterLastCycle | TodoList.Infra/Services/TodoItemStatusUpdaterService.cs:42-51 | after any run of cycles, no item is Pending with a due day before the day of the last cycle |
| StatusUpdater.IsDue | TodoList.Infra/Services/TodoItemStatusUpdaterService.cs:44 | an item is due iff it is Pending and its due date lies before the start of `now`'s day |
| StatusUpdater.SameDaySameCycle | TodoList.Infra/Services/TodoItemStatusUpdaterService.cs:44 | only the day of `now` decides which items change and what status they get |
| StatusUpdater.UntouchedItems | TodoList.Infra/Services/TodoItemStatusUpdaterService.cs:44 | Completed and Overdue items, and Pending items due today or later, are left exactly as they were and are not written |
| Hubs.NotificationHub.SendTodoUpdate | TodoList.Infra/Hubs/NotificationHub.cs:14-17 | appends one broadcast of the message on the "TodoItemUpdated" topic to the log |
| Repository.TodoStore.GetAll | TodoList.Infra/Repositories/TodoRepository.cs:19-22 | the result lists every stored item exactly once, in some order |
| Repository.TodoStore.GetById | TodoList.Infra/Repositories/TodoRepository.cs:63-66 | returns the item stored under the id, or nothing iff the id is not stored |
| Repository.TodoStore.Add | TodoList.Infra/Repositories/TodoRepository.cs:68-72 | inserts the item iff its id is new (a taken id fails the save); afterwards get-by-id returns it and every other id is unchanged |
| Repository.TodoStore.Update | TodoList.Infra/Repositories/TodoRepository.cs:74-78 | replaces the entry iff the id is stored and logs the write; otherwise the store is unchanged |
| Repository.TodoStore.Delete | TodoList.Infra/Repositories/TodoRepository.cs:80-84 | removes exactly that id; afterwards get-by-id returns nothing and every other id is unchanged |
| Repository.TodoStore.ItemExists | TodoList.Infra/Repositories/TodoRepository.cs:86-89 | true iff the title is among the stored items' titles |
| Repository.TodoStore.ItemExistsExcept | TodoList.Infra/Repositories/TodoRepository.cs:91-94 | true iff the title is among the titles of the stored items other than the excluded id |
| Repository.ItemExistsExceptIgnoresExcluded | TodoList.Infra/Repositories/TodoRepository.cs:86-94 | a conflict with an excluded id implies a conflict without it; an item whose title matches but which is excluded is the only one with that title; with an unknown excluded id both checks agree |
| Repository.KeepingOwnTitleNeverConflicts | TodoList.Infra/Repositories/TodoRepository.cs:91-94 | while titles are unique, an item never conflicts with itself when it keeps its own title |
| Repository.ListingEnumerates | TodoList.Infra/Repositories/TodoRepository.cs:19-22 | a listing of a store is exactly a sequence with distinct ids whose every element is stored and which covers every stored id |
| Repository.ListingSize | TodoList.Infra/Repositories/TodoRepository.cs:19-22 | a listing has as many elements as the store has ids |
| Repository.Contains | TodoList.Infra/Repositories/TodoRepository.cs:43 | an occurrence needs the part to be no longer than the text; the empty string, the text itself, a prefix and a suffix all occur |
| Repository.Matches | TodoList.Infra/Repositories/TodoRepository.cs:28-44 | a filter with every field unset and no title matches every item |
| Repository.DroppingAPredicateWidens | TodoList.Infra/Repositories/TodoRepository.cs:28-44 | an item matching a filter still matches after any one of its predicates is unset |
| Repository.Where | TodoList.Infra/Repositories/TodoRepository.cs:30-43 | keeps exactly the elements that satisfy the predicate, never adds any and keeps ids distinct |
| Repository.Filter | TodoList.Infra/Repositories/TodoRepository.cs:24-47 | an item is in the result iff it is in the input and satisfies every active predicate (status equal, created day and due day at most the bound's day, title containing a non-empty substring); nothing is added |
| Repository.FilterListing | TodoList.Infra/Repositories/TodoRepository.cs:24-47 | filtering a listing of the store lists exactly the matching stored entries, so the count is the number of matching entries |
| Repository.UnsetFilterKeepsAll | TodoList.Infra/Repositories/TodoRepository.cs:28-44 | unset fields and a null or empty title impose nothing: the result is the whole input, in order |
| Repository.InsertByCreated | TodoList.Infra/Repositories/TodoRepository.cs:55 | inserting into a CreatedAt-descending sequence keeps it descending and adds exactly the element |
| Repository.OrderByCreatedDescending | TodoList.Infra/Repositories/TodoRepository.cs:55 | the result is CreatedAt-descending and a permutation of the input |
| Repository.Wrap32 | TodoList.Infra/Repositories/TodoRepository.cs:56 | the result fits in `int`, is congruent to the input modulo 2^32 (unchecked wrap-around), and equals the input whenever the input fits |
| Repository.SkipCount | TodoList.Infra/Repositories/TodoRepository.cs:56 | the `int` offset `(pageIndex - 1) * qt` fits in `int`, is congruent to the mathematical offset modulo 2^32, and equals it when no step overflows |
| Repository.TruncatingDivide | TodoList.Infra/Repositories/TodoRepository.cs:52 | the quotient q of a non-negative count leaves a remainder `count - q * divisor` in `[0, abs(divisor))` and `q * divisor` is not negative: division rounding toward zero, for either sign of the divisor |
| Repository.Skip | TodoList.Infra/Repositories/TodoRepository.cs:56 | a non-positive count skips nothing; a count past the end leaves nothing |
| Repository.Take | TodoList.Infra/Repositories/TodoRepository.cs:57 | a non-positive count takes nothing; a count past the end takes everything |
| Repository.GetPaginatedItemsWithFilter | TodoList.Infra/Repositories/TodoRepository.cs:49-61 | fails (division by zero) iff the page size is 0; otherwise keeps the page index, has `count / qt + 1` pages, and returns at most `qt` filtered items in CreatedAt-descending order |
| Repository.PageWindow | TodoList.Infra/Repositories/TodoRepository.cs:51-60 | without overflow, the page is the slice `[min((k-1)*qt, n), min(k*qt, n))` of the ordered items, of length `min(qt, max(0, n - (k-1)*qt))`, and the page count is `n / qt + 1` |
| Repository.SkipCountWithoutOverflow | TodoList.Infra/Repositories/TodoRepository.cs:56 | without overflow, the `int` offset is the mathematical `(pageIndex - 1) * qt`, and it is not negative |
| Repository.ExactMultipleAddsEmptyPage | TodoList.Infra/Repositories/TodoRepository.cs:52 | when the count is an exact multiple of the page size, the announced last page exists and is empty |
| Repository.OverflowedOffset | TodoList.Infra/Repositories/TodoRepository.cs:56 | the offset of page 429496730 of size 10 wraps to -6 in `int` |
| Repository.OverflowedOffsetReturnsFirstPage | TodoList.Infra/Repositories/TodoRepository.cs:56-57 | that page therefore holds the first ten items, not an empty page |
| Comb.GetBytes | TodoList.Domain/Utils/UtilsService.cs:27-28 | a fresh array holding the little-endian two's complement bytes of the value |
| Comb.Reverse | TodoList.Domain/Utils/UtilsService.cs:31-32 | reverses the array in place |
| Comb.Copy | TodoList.Domain/Utils/UtilsService.cs:35-36 | overwrites exactly the destination range with the source range; the rest of the destination is unchanged |
| Comb.GenerateComb | TodoList.Domain/Utils/UtilsService.cs:14-39 | bytes 0..9 are the random bytes; bytes 10..11 read big-endian give the day count mod 2^16; bytes 12..15 give the tick count mod 2^32 |
| Comb.CombLayout | TodoList.Domain/Utils/UtilsService.cs:30-36 | the identifier's bytes 0..9 are the random bytes; bytes 10..11 read big-endian give the day count mod 2^16; bytes 12..15 give the tick count mod 2^32 |
| Comb.LittleEndian | TodoList.Domain/Utils/UtilsService.cs:27-28 | `BitConverter.GetBytes` gives exactly n bytes |
| Comb.LittleEndianRoundTrip | TodoList.Domain/Utils/UtilsService.cs:27-28 | reading those bytes back least significant first gives the value modulo 256^n |
| Comb.DayBytes | TodoList.Domain/Utils/UtilsService.cs:27-35 | the two bytes kept from the reversed day count decode to the day count mod 2^16 |
| Comb.TickBytes | TodoList.Domain/Utils/UtilsService.cs:28-36 | the four bytes kept from the reversed tick count decode to the tick count mod 2^32 |
| Comb.StampValue | TodoList.Domain/Utils/UtilsService.cs:30-36 | the six stamp bytes read big-endian are `(days mod 2^16) * 2^32 + ticks mod 2^32` |
| Comb.CombOrdering | TodoList.Domain/Utils/UtilsService.cs:26-36 | for in-range stamps, the last six bytes compare byte-wise exactly as (day, tick) pairs compare lexicographically, in both directions |
| Comb.CombKeepsOnlyLowBits | TodoList.Domain/Utils/UtilsService.cs:35-36 | two identifiers from the same random bytes are equal iff the low 16 day bits and low 32 tick bits agree; the higher bytes are discarded |
| Comb.LexLessIffValueLess | TodoList.Domain/Utils/UtilsService.cs:30-36 | byte-wise order of equal-length strings is the order of their big-endian values |
| Comb.BigEndianValueInjective | TodoList.Domain/Utils/UtilsService.cs:30-36 | equal-length byte strings with the same big-endian value are equal |
| Validation.ValidateCreate | TodoList.Domain/Validations/TodoItem/CreateTodoItemRequestValidator.cs:10-12 | Title fails iff null or blank, with "Title can't be null" iff null; Description fails iff longer than 80 UTF-16 code units; DueDate fails iff unset or before today, with "Can't create overdue task" iff before today; no failures iff all three hold |
| Validation.ValidateUpdate | TodoList.Domain/Validations/TodoItem/UpdateTodoItemRequestValidator.cs:10-14 | Id fails iff empty; Title iff null or blank; Description iff null, blank or longer than 80 UTF-16 code units; DueDate iff unset or before today, with "Can't update task to a past date"; status iff undefined; no failures iff all hold |
| Validation.UpdateTitleRule | TodoList.Domain/Validations/TodoItem/UpdateTodoItemRequestValidator.cs:11 | no failure iff the title has text |
| Validation.UpdateDescriptionRule | TodoList.Domain/Validations/TodoItem/UpdateTodoItemRequestValidator.cs:12 | no failure iff the description has text and at most 80 UTF-16 code units |
| Validation.Utf16Length | TodoList.Domain/Validations/TodoItem/CreateTodoItemRequestValidator.cs:11 | `string.Length` counts between one and two code units per character |
| Validation.BmpLength | TodoList.Domain/Validations/TodoItem/CreateTodoItemRequestValidator.cs:11 | a string of Basic Multilingual Plane characters has one code unit per character |
| Validation.SupplementaryLength | TodoList.Domain/Validations/TodoItem/CreateTodoItemRequestValidator.cs:11 | a string of characters above U+FFFF has two code units per character |
| Validation.SurrogatePairsCountTwice | TodoList.Domain/Validations/TodoItem/CreateTodoItemRequestValidator.cs:11 | a description of 41 characters above U+FFFF (82 code units) fails the length rule |
| Validation.UpdateDueDateRule | TodoList.Domain/Validations/TodoItem/UpdateTodoItemRequestValidator.cs:13 | no failure iff the due day is set and not before today, the past-date message iff it is before today |
| Validation.ValidateFilter | TodoList.Domain/Validations/TodoItem/TodoItemFilterValidator.cs:10-20 | PageIndex fails iff below 1; PageSize fails iff below 10, reported by both rules; status fails iff present and undefined, with "Invalid status value."; no failures iff all hold |
| Validation.DefaultFilterIsValid | TodoList.Domain/DTOs/TodoItemDTO/TodoItemFilter.cs:11-12 | the filter with no query parameters (page 1, size 20) is valid |
| Entities.Day | TodoList.Infra/Repositories/TodoRepository.cs:34 | `t.Date` as a day number: the day whose 864000000000-tick span contains t |
| Entities.MapCreateRequest | TodoList-WebApi/Configuration/AutoMapperConfig.cs:12-16 | copies title, description and due date; id, CreatedAt, UpdatedAt and status keep the new entity's initial values |
| Entities.ToBase | TodoList-WebApi/Configuration/AutoMapperConfig.cs:17 | the view carries the item's id, title, description, due date and status |
| Entities.MapPage | TodoList-WebApi/Configuration/AutoMapperConfig.cs:18 | maps each page item in order and keeps the page index and page count |
| TodoService.CreatedItem | TodoList.Domain/Services/TodoService.cs:36-39 | the created entity: the request's fields, the new id, Pending, CreatedAt = now, UpdatedAt left at tick 0 |
| TodoService.UpdatedItem | TodoList.Domain/Services/TodoService.cs:125-131 | the request's title, description, due date and status, UpdatedAt = now, id and CreatedAt kept |
| TodoService.TodoService.Create | TodoList.Domain/Services/TodoService.cs:23-55 | BadRequest with the store unchanged iff the title exists; otherwise the created item is added and OK returns its view; a taken id answers InternalServerError with the store unchanged; unique titles stay unique |
| TodoService.TodoService.Delete | TodoList.Domain/Services/TodoService.cs:57-86 | an existing id is removed, and nothing else, with OK; a missing id answers NotFound with the store unchanged |
| TodoService.TodoService.Update | TodoList.Domain/Services/TodoService.cs:110-156 | a missing id answers NotFound; another item with the title answers BadRequest; both leave the store unchanged; otherwise the updated item is written, logged and returned with OK; unique titles stay unique |
| TodoService.TodoService.GetFilteredTodoItems | TodoList.Domain/Services/TodoService.cs:88-108 | InternalServerError iff the page size is 0; otherwise OK with the mapped page of the filtered store; its page count follows from the number of matching items, and every returned view is a matching stored item |
| TodoService.NewTitleKeepsTitlesUnique | TodoList.Domain/Services/TodoService.cs:27-41 | adding an item whose title no stored item has keeps titles unique |
| TodoService.RetitleKeepsTitlesUnique | TodoList.Domain/Services/TodoService.cs:116-133 | replacing an item by one whose title no other item has keeps titles unique |
| TodoService.ValidCreateNotOverdueSameDay | TodoList.Domain/Validations/TodoItem/CreateTodoItemRequestValidator.cs:12 | an item created from a request valid today is not made Overdue by a cycle on the same day; on any later day it becomes Overdue iff its due day has passed |
| TodoService.ValidFilterPages | TodoList.Domain/Validations/TodoItem/TodoItemFilterValidator.cs:10-16 | a valid filter never divides by zero, its page holds at most PageSize items, and its mathematical offset is not negative |

## Left out

- Hosting and scheduling: `ExecuteAsync`, the registration on application start, dependency-injection scopes and the ten-minute `Task.Delay` are not modelled. The loop is driven by a sequence of clock readings and a sequence of cancellation flags, checked before each cycle. In the source, a cancellation during the delay makes `Task.Delay` throw, which ends the loop; in the model the loop ends at the next check. No further cycle runs in either case.
- Concurrency between a cycle and user requests is not modelled; each operation runs alone on the store.
- Clock reads: `DateTime.Now` is read several times per cycle and per request in the source. Here each operation reads it once, as the parameter `now`, so a cycle that crosses midnight is not represented.
- COMB inputs: `Guid.NewGuid()` becomes 16 input bytes. The floating-point `TotalMilliseconds / 3.333333` becomes an integer tick input, and the day count an integer input. `BitConverter` is taken to be little-endian. The .NET `Guid` comparison and the SQL Server sort order are not modelled.
- Entity Framework: the `DbContext`, query translation and change tracking are replaced by a map keyed by id. `SaveChangesAsync` is modelled only through its failure on a taken or missing id.
- The entity's default id (`CombGenerator.GenerateComb()` in the `TodoItem` initialiser) reaches the service as the parameter `newId`.
- `PaginatedList` is not part of this model beyond its three members, so `HasNextPage` and `HasPreviousPage` are not modelled.
- SignalR: `NotificationHub` keeps a ghost log of (topic, message) broadcasts; delivery to clients is not modelled.
- FluentValidation: only the rules, the property each failure names and the custom messages are modelled; default message texts, rule ordering and cascade modes are not. The pipeline that runs the validators before the service is not modelled.
- TodoService.TodoService.Create requires a non-null title. The title is a non-nullable `required` member, and the validator rejects null before the service runs. TodoService.TodoService.Update requires the same, for the same reason.
- TodoService exceptions: only the failures the model raises are turned into InternalServerError: a save that finds the id taken, and division by a zero page size. Other failures of foreign calls, and the `ex.Message` text returned with them, are not modelled.
- Strings are sequences of Unicode scalar values; `string.Contains` and title equality are ordinal. For valid strings these agree with .NET's UTF-16 comparisons, but strings holding unpaired surrogates are not represented. Description lengths are counted in UTF-16 code units (`Utf16Length`). Database collation is not modelled.
- The matching count is taken to fit in `int`; `count / qt + 1` is not wrapped.
- The filter's `PageIndex` and `PageSize` range over all integers, not only `int` values; the offset arithmetic wraps to 32 bits either way.
- The status enum's declaration is not part of this model; its values are taken to be 0, 1 and 2 for Pending, Completed and Overdue.
- Repository.OrderByCreatedDescending: promises only CreatedAt-descending order and a permutation. The sort is stable, so items with equal CreatedAt keep the order the query had before it: the due-date order when that filter is set, otherwise the provider's enumeration order. The model does not fix that order, so it is not specified.
- Repository.Filter: the `OrderByDescending(DueDate)` attached to the due-date predicate is not modelled. The later CreatedAt ordering is stable under the in-memory provider, so DueDate can only decide the order of items with equal CreatedAt, and the model leaves that order open.
- Items are values: the tracked entity that the source mutates in place before saving is modelled as a new value written back by id, so aliasing between the fetched entity and the stored one is not represented.
- Controllers, `Program.cs`, dependency-injection wiring and database seeding are HTTP and start-up code and are not modelled.
