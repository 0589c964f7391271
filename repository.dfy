/**
 * TodoRepository over the `TodoItems` set of the database context.
 *
 * The stored set is a map from id to item. Reading it (`GetAll`, the source
 * of every query) yields the items in some order, each once; `Filter` and
 * the pagination are functions of that sequence.
 */
module Repository {
  import opened Wrappers
  import opened Entities

  // ---------------------------------------------------------------------------
  // Stored items and their enumerations
  // ---------------------------------------------------------------------------

  /** Every entry is stored under its own id. */
  ghost predicate Keyed(m: map<Guid, TodoItem>)
  {
    forall id :: id in m ==> m[id].id == id
  }

  ghost predicate DistinctIds(s: seq<TodoItem>)
  {
    forall i, j :: 0 <= i < j < |s| ==> s[i].id != s[j].id
  }

  /** Every element of `s` is the entry stored under its id. */
  ghost predicate Stored(s: seq<TodoItem>, m: map<Guid, TodoItem>)
  {
    forall x :: x in s ==> x.id in m && m[x.id] == x
  }

  /** Every stored id occurs in `s`. */
  ghost predicate Covers(s: seq<TodoItem>, m: map<Guid, TodoItem>)
  {
    forall id :: id in m ==> exists i :: 0 <= i < |s| && s[i].id == id
  }

  /** `s` enumerates the entries of `m`: each exactly once, in some order. */
  ghost predicate Enumerates(s: seq<TodoItem>, m: map<Guid, TodoItem>)
  {
    DistinctIds(s) && Stored(s, m) && Covers(s, m)
  }

  /**
   * The same relation, element by element from the end: the last element is
   * stored under its id, and the others enumerate the remaining entries.
   */
  ghost predicate IsListing(s: seq<TodoItem>, m: map<Guid, TodoItem>)
    decreases |s|
  {
    if s == [] then m == map[]
    else
      var last := s[|s| - 1];
      last.id in m && m[last.id] == last && IsListing(s[..|s| - 1], m - {last.id})
  }

  /** The entries of `m` whose item satisfies `keep`. */
  function Restrict(m: map<Guid, TodoItem>, keep: TodoItem -> bool): map<Guid, TodoItem>
  {
    map id | id in m && keep(m[id]) :: m[id]
  }

  /** An enumeration has one element per stored entry. */
  lemma {:induction false} ListingSize(s: seq<TodoItem>, m: map<Guid, TodoItem>)
    requires IsListing(s, m)
    ensures |s| == |m|
    decreases |s|
  {
    if s != [] {
      var last := s[|s| - 1];
      ListingSize(s[..|s| - 1], m - {last.id});
      assert (m - {last.id}).Keys == m.Keys - {last.id};
    }
  }

  /** Appending an item whose id is not yet enumerated enumerates the map extended by it. */
  lemma ListingAppend(s: seq<TodoItem>, m: map<Guid, TodoItem>, x: TodoItem)
    requires IsListing(s, m) && x.id !in m
    ensures IsListing(s + [x], m[x.id := x])
  {
    assert (s + [x])[..|s|] == s;
    assert m[x.id := x] - {x.id} == m;
  }

  /** The two definitions of an enumeration agree. */
  lemma {:induction false} ListingEnumerates(s: seq<TodoItem>, m: map<Guid, TodoItem>)
    ensures IsListing(s, m) <==> Enumerates(s, m)
    decreases |s|
  {
    if s == [] {
      if Enumerates(s, m) {
        assert m.Keys == {};
      }
    } else {
      var last := s[|s| - 1];
      var rest := s[..|s| - 1];
      var smaller := m - {last.id};
      ListingEnumerates(rest, smaller);
      if IsListing(s, m) {
        EnumeratesAppend(rest, smaller, last);
        assert rest + [last] == s;
        assert smaller[last.id := last] == m;
      }
      if Enumerates(s, m) {
        assert last in s;
        EnumeratesDropLast(s, m);
      }
    }
  }

  lemma EnumeratesDropLast(s: seq<TodoItem>, m: map<Guid, TodoItem>)
    requires Enumerates(s, m) && s != []
    ensures Enumerates(s[..|s| - 1], m - {s[|s| - 1].id})
  {
    DropLastKeepsEntries(s, m);
    DropLastCoversRest(s, m);
  }

  lemma DropLastKeepsEntries(s: seq<TodoItem>, m: map<Guid, TodoItem>)
    requires Enumerates(s, m) && s != []
    ensures Stored(s[..|s| - 1], m - {s[|s| - 1].id})
  {
    var rest := s[..|s| - 1];
    var smaller := m - {s[|s| - 1].id};
    forall x | x in rest ensures x.id in smaller && smaller[x.id] == x {
      var i :| 0 <= i < |rest| && rest[i] == x;
      assert s[i] == x;
      assert s[i].id != s[|s| - 1].id;
    }
  }

  lemma DropLastCoversRest(s: seq<TodoItem>, m: map<Guid, TodoItem>)
    requires Enumerates(s, m) && s != []
    ensures Covers(s[..|s| - 1], m - {s[|s| - 1].id})
  {
    var rest := s[..|s| - 1];
    var smaller := m - {s[|s| - 1].id};
    forall id | id in smaller ensures exists i :: 0 <= i < |rest| && rest[i].id == id {
      var i :| 0 <= i < |s| && s[i].id == id;
      assert rest[i].id == id;
    }
  }

  lemma EnumeratesAppend(s: seq<TodoItem>, m: map<Guid, TodoItem>, x: TodoItem)
    requires Enumerates(s, m) && x.id !in m
    ensures Enumerates(s + [x], m[x.id := x])
  {
    var t := s + [x];
    var bigger := m[x.id := x];
    forall i, j | 0 <= i < j < |t| ensures t[i].id != t[j].id {
      if j == |s| {
        assert s[i] in s;
      }
    }
    forall y | y in t ensures y.id in bigger && bigger[y.id] == y {
      if y != x {
        assert y in s;
      }
    }
    forall id | id in bigger ensures exists i :: 0 <= i < |t| && t[i].id == id {
      if id == x.id {
        assert t[|s|].id == id;
      } else {
        var i :| 0 <= i < |s| && s[i].id == id;
        assert t[i].id == id;
      }
    }
  }

  // ---------------------------------------------------------------------------
  // The repository over the context's TodoItems set
  // ---------------------------------------------------------------------------

  /** The titles of the stored items. */
  function Titles(m: map<Guid, TodoItem>): set<string>
  {
    set id | id in m :: m[id].title
  }

  lemma TitlesWithout(m: map<Guid, TodoItem>, k: Guid, title: string)
    ensures title in Titles(m - {k}) <==> exists id :: id in m && m[id].title == title && id != k
  {
    if title in Titles(m - {k}) {
      var id :| id in m - {k} && (m - {k})[id].title == title;
      assert id in m && m[id].title == title && id != k;
    }
    if exists id :: id in m && m[id].title == title && id != k {
      var id :| id in m && m[id].title == title && id != k;
      assert id in m - {k};
    }
  }

  class TodoStore {
    var items: map<Guid, TodoItem>
    /** Every item passed to a successful `Update`, in call order. */
    ghost var updates: seq<TodoItem>

    ghost predicate Valid()
      reads this
    {
      Keyed(items)
    }

    constructor(initial: map<Guid, TodoItem>)
      requires Keyed(initial)
      ensures Valid() && items == initial && updates == []
    {
      items := initial;
      updates := [];
    }

    /** `FindAsync(id)`: the item stored under `id`, or null. */
    function GetById(id: Guid): (found: Option<TodoItem>)
      reads this
      ensures found.Some? <==> id in items
      ensures found.Some? ==> found.value == items[id]
    {
      if id in items then Some(items[id]) else None
    }

    /** `GetAll()` materialised: every stored item once, in the store's own order. */
    method GetAll() returns (all: seq<TodoItem>)
      requires Valid()
      ensures IsListing(all, items)
    {
      all := [];
      var pending := items.Keys;
      while pending != {}
        invariant pending <= items.Keys
        invariant IsListing(all, items - pending)
        decreases pending
      {
        var id :| id in pending;
        ghost var before := items - pending;
        ListingAppend(all, before, items[id]);
        pending := pending - {id};
        all := all + [items[id]];
        assert items - pending == before[id := items[id]];
      }
      assert items - pending == items;
    }

    /** `ItemExistsAsync(title)`: some stored item has exactly this title. */
    predicate ItemExists(title: string)
      reads this
      ensures ItemExists(title) <==> title in Titles(items)
    {
      exists id :: id in items && items[id].title == title
    }

    /** `ItemExistsAsync(title, excludeId)`: some other item than `excludeId` has this title. */
    predicate ItemExistsExcept(title: string, excludeId: Guid)
      reads this
      ensures ItemExistsExcept(title, excludeId) <==> title in Titles(items - {excludeId})
    {
      TitlesWithout(items, excludeId, title);
      exists id :: id in items && items[id].title == title && id != excludeId
    }

    /** `AddAsync`: inserts a new entry; an id already stored makes the save throw. */
    method Add(item: TodoItem) returns (saved: bool)
      requires Valid()
      modifies this
      ensures Valid() && updates == old(updates)
      ensures saved <==> item.id !in old(items)
      ensures items == if saved then old(items)[item.id := item] else old(items)
      ensures saved ==> GetById(item.id) == Some(item)
      ensures forall id :: id != item.id ==> GetById(id) == old(GetById(id))
    {
      saved := item.id !in items;
      if saved {
        items := items[item.id := item];
      }
    }

    /** `UpdateAsync`: replaces the stored entry; an id not stored makes the save throw. */
    method Update(item: TodoItem) returns (saved: bool)
      requires Valid()
      modifies this
      ensures Valid()
      ensures saved <==> item.id in old(items)
      ensures items == if saved then old(items)[item.id := item] else old(items)
      ensures updates == old(updates) + if saved then [item] else []
    {
      saved := item.id in items;
      if saved {
        items := items[item.id := item];
        updates := updates + [item];
      }
    }

    /** `DeleteAsync`: removes the entry; an id not stored makes the save throw. */
    method Delete(item: TodoItem) returns (saved: bool)
      requires Valid()
      modifies this
      ensures Valid() && updates == old(updates)
      ensures saved <==> item.id in old(items)
      ensures items == old(items) - {item.id}
      ensures GetById(item.id) == None
      ensures forall id :: id != item.id ==> GetById(id) == old(GetById(id))
    {
      saved := item.id in items;
      items := items - {item.id};
    }
  }

  /** With an excluded id, a title conflicts only with other items, never with the excluded one. */
  lemma ItemExistsExceptIgnoresExcluded(store: TodoStore, title: string, excludeId: Guid)
    ensures store.ItemExistsExcept(title, excludeId) ==> store.ItemExists(title)
    ensures store.ItemExists(title) && !store.ItemExistsExcept(title, excludeId)
        ==> excludeId in store.items && store.items[excludeId].title == title
    ensures excludeId !in store.items ==> (store.ItemExistsExcept(title, excludeId) <==> store.ItemExists(title))
  {}

  /** No two stored items share a title. */
  ghost predicate TitlesUnique(m: map<Guid, TodoItem>)
  {
    forall id1, id2 :: id1 in m && id2 in m && m[id1].title == m[id2].title ==> id1 == id2
  }

  /** While titles are unique, an item keeping its own title never conflicts with the others. */
  lemma KeepingOwnTitleNeverConflicts(store: TodoStore, id: Guid)
    requires TitlesUnique(store.items) && id in store.items
    ensures store.ItemExists(store.items[id].title)
    ensures !store.ItemExistsExcept(store.items[id].title, id)
  {}

  // ---------------------------------------------------------------------------
  // Filter
  // ---------------------------------------------------------------------------

  /** `string.Contains`: `part` occurs in `text` at some position (ordinal). */
  predicate Contains(text: string, part: string)
    ensures Contains(text, part) ==> |part| <= |text|
    ensures part == [] || part == text ==> Contains(text, part)
    ensures |part| <= |text| && (text[..|part|] == part || text[|text| - |part|..] == part) ==> Contains(text, part)
  {
    OccursAtEnds(text, part);
    exists i: nat | i <= |text| :: OccursAt(text, part, i)
  }

  /** A prefix occurs at the start, a suffix at the end. */
  lemma OccursAtEnds(text: string, part: string)
    ensures |part| <= |text| && text[..|part|] == part ==> OccursAt(text, part, 0)
    ensures |part| <= |text| && text[|text| - |part|..] == part ==> OccursAt(text, part, |text| - |part|)
  {}

  predicate OccursAt(text: string, part: string, i: nat)
  {
    i + |part| <= |text| && text[i..i + |part|] == part
  }

  /** A title filter restricts only when it is neither null nor "". */
  predicate TitleFilterActive(filter: TodoItemFilter)
  {
    filter.title.Some? && filter.title.value != ""
  }

  /** The conjunction of the filter's active predicates, dates compared by day. */
  predicate Matches(item: TodoItem, filter: TodoItemFilter)
    ensures filter.status.None? && filter.createdAt.None? && filter.dueDate.None? && !TitleFilterActive(filter)
      ==> Matches(item, filter)
  {
    && (filter.status.Some? ==> item.status == filter.status.value)
    && (filter.createdAt.Some? ==> Day(item.createdAt) <= Day(filter.createdAt.value))
    && (filter.dueDate.Some? ==> Day(item.dueDate) <= Day(filter.dueDate.value))
    && (TitleFilterActive(filter) ==> Contains(item.title, filter.title.value))
  }

  /** Leaving out any one predicate of a filter only widens it. */
  lemma DroppingAPredicateWidens(item: TodoItem, filter: TodoItemFilter)
    requires Matches(item, filter)
    ensures Matches(item, filter.(status := None))
    ensures Matches(item, filter.(createdAt := None))
    ensures Matches(item, filter.(dueDate := None))
    ensures Matches(item, filter.(title := None))
  {}

  /**
   * LINQ `Where`: the elements that satisfy `keep`. The contract states
   * which elements are kept, not their relative order, which the later
   * CreatedAt sort decides.
   */
  function Where(s: seq<TodoItem>, keep: TodoItem -> bool): (r: seq<TodoItem>)
    ensures forall x :: x in r <==> x in s && keep(x)
    ensures multiset(r) <= multiset(s)
    ensures DistinctIds(s) ==> DistinctIds(r)
  {
    if s == [] then []
    else
      var rest := Where(s[1..], keep);
      assert s == [s[0]] + s[1..];
      if keep(s[0]) then
        assert DistinctIds(s) ==> DistinctIds([s[0]] + rest) by {
          if DistinctIds(s) {
            forall x | x in rest ensures x.id != s[0].id {
              var k :| 0 <= k < |s[1..]| && s[1..][k] == x;
              assert s[k + 1] == x;
            }
            ConsDistinct(s[0], rest);
          }
        }
        [s[0]] + rest
      else rest
  }

  lemma ConsDistinct(x: TodoItem, s: seq<TodoItem>)
    requires DistinctIds(s)
    requires forall y :: y in s ==> y.id != x.id
    ensures DistinctIds([x] + s)
  {
    forall i, j | 0 <= i < j < |[x] + s| ensures ([x] + s)[i].id != ([x] + s)[j].id {
      if i == 0 {
        assert s[j - 1] in s;
      }
    }
  }

  /**
   * `Filter`: one `Where` per active predicate, in the source's order. The
   * due-date ordering the source attaches to the third predicate is replaced
   * by the CreatedAt ordering of the pagination and is not modelled here.
   */
  function Filter(all: seq<TodoItem>, filter: TodoItemFilter): (r: seq<TodoItem>)
    ensures forall x :: x in r <==> x in all && Matches(x, filter)
    ensures multiset(r) <= multiset(all)
    ensures DistinctIds(all) ==> DistinctIds(r)
  {
    var byStatus :=
      if filter.status.Some? then Where(all, (t: TodoItem) => t.status == filter.status.value) else all;
    var byCreated :=
      if filter.createdAt.Some? then Where(byStatus, (t: TodoItem) => Day(t.createdAt) <= Day(filter.createdAt.value))
      else byStatus;
    var byDue :=
      if filter.dueDate.Some? then Where(byCreated, (t: TodoItem) => Day(t.dueDate) <= Day(filter.dueDate.value))
      else byCreated;
    if TitleFilterActive(filter) then Where(byDue, (t: TodoItem) => Contains(t.title, filter.title.value)) else byDue
  }

  /** The stored entries a filter selects. */
  function Matching(m: map<Guid, TodoItem>, filter: TodoItemFilter): map<Guid, TodoItem>
  {
    Restrict(m, (t: TodoItem) => Matches(t, filter))
  }

  /** Filtering an enumeration of the store enumerates exactly the matching entries. */
  lemma FilterListing(all: seq<TodoItem>, m: map<Guid, TodoItem>, filter: TodoItemFilter)
    requires IsListing(all, m)
    ensures IsListing(Filter(all, filter), Matching(m, filter))
    ensures |Filter(all, filter)| == |Matching(m, filter)|
  {
    var r := Filter(all, filter);
    var selected := Matching(m, filter);
    ListingEnumerates(all, m);
    forall x | x in r ensures x.id in selected && selected[x.id] == x {
      assert x in all && Matches(x, filter);
    }
    forall id | id in selected ensures exists j :: 0 <= j < |r| && r[j].id == id {
      var i :| 0 <= i < |all| && all[i].id == id;
      assert all[i] in all;
      assert all[i] == m[id];
      assert all[i] in r;
      var j :| 0 <= j < |r| && r[j] == all[i];
    }
    assert Enumerates(r, selected);
    ListingEnumerates(r, selected);
    ListingSize(r, selected);
  }

  /** A filter with no predicate set keeps every item, in order. */
  lemma {:induction false} UnsetFilterKeepsAll(all: seq<TodoItem>, filter: TodoItemFilter)
    requires filter.status.None? && filter.createdAt.None? && filter.dueDate.None?
    requires filter.title.None? || filter.title.value == ""
    ensures Filter(all, filter) == all
  {}

  // ---------------------------------------------------------------------------
  // Ordering by CreatedAt, descending
  // ---------------------------------------------------------------------------

  ghost predicate CreatedDescending(s: seq<TodoItem>)
  {
    forall i, j :: 0 <= i < j < |s| ==> s[i].createdAt >= s[j].createdAt
  }

  function InsertByCreated(x: TodoItem, s: seq<TodoItem>): (r: seq<TodoItem>)
    requires CreatedDescending(s)
    ensures CreatedDescending(r)
    ensures multiset(r) == multiset(s) + multiset{x}
    ensures |r| == |s| + 1
  {
    if s == [] || s[0].createdAt <= x.createdAt then
      HeadIsLatest(s);
      ConsDescending(x, s);
      [x] + s
    else
      var rest := InsertByCreated(x, s[1..]);
      HeadIsLatest(s);
      BoundedAfterInsert(x, s[1..], rest, s[0].createdAt);
      ConsDescending(s[0], rest);
      assert s == [s[0]] + s[1..];
      [s[0]] + rest
  }

  /** In a CreatedAt-descending sequence no item is later than the first. */
  lemma HeadIsLatest(s: seq<TodoItem>)
    requires CreatedDescending(s)
    ensures s != [] ==> forall y :: y in s ==> y.createdAt <= s[0].createdAt
  {
    forall y | y in s ensures y.createdAt <= s[0].createdAt {
      var k :| 0 <= k < |s| && s[k] == y;
    }
  }

  /** Inserting an item no later than a bound into items no later than it keeps every item within the bound. */
  lemma BoundedAfterInsert(x: TodoItem, s: seq<TodoItem>, r: seq<TodoItem>, bound: nat)
    requires forall y :: y in s ==> y.createdAt <= bound
    requires x.createdAt <= bound
    requires multiset(r) == multiset(s) + multiset{x}
    ensures forall y :: y in r ==> y.createdAt <= bound
  {
    forall y | y in r ensures y.createdAt <= bound {
      assert y in multiset(r);
    }
  }

  lemma ConsDescending(x: TodoItem, s: seq<TodoItem>)
    requires CreatedDescending(s)
    requires forall y :: y in s ==> y.createdAt <= x.createdAt
    ensures CreatedDescending([x] + s)
  {
    forall i, j | 0 <= i < j < |[x] + s| ensures ([x] + s)[i].createdAt >= ([x] + s)[j].createdAt {
      if i == 0 {
        assert s[j - 1] in s;
      }
    }
  }

  /**
   * `OrderByDescending(t => t.CreatedAt)`. The model keeps the input order
   * among equal timestamps; the source promises no particular order there.
   */
  function OrderByCreatedDescending(s: seq<TodoItem>): (r: seq<TodoItem>)
    ensures CreatedDescending(r)
    ensures multiset(r) == multiset(s)
    ensures |r| == |s|
  {
    if s == [] then []
    else
      assert s == [s[0]] + s[1..];
      InsertByCreated(s[0], OrderByCreatedDescending(s[1..]))
  }

  // ---------------------------------------------------------------------------
  // Pagination, with C#'s 32-bit `int` arithmetic
  // ---------------------------------------------------------------------------

  predicate IsInt32(x: int)
  {
    -0x8000_0000 <= x < 0x8000_0000
  }

  /** Unchecked `int` arithmetic keeps the result modulo 2^32, as a signed value. */
  function Wrap32(x: int): (r: int)
    ensures IsInt32(r)
    ensures IsInt32(x) ==> r == x
    ensures (r - x) % 0x1_0000_0000 == 0
  {
    (x + 0x8000_0000) % 0x1_0000_0000 - 0x8000_0000
  }

  function Abs(x: int): nat { if x >= 0 then x else -x }

  /** C#'s `/` on a non-negative count: the quotient rounded toward zero. */
  function TruncatingDivide(count: nat, divisor: int): (q: int)
    requires divisor != 0
    ensures 0 <= count - q * divisor < Abs(divisor)
    ensures q * divisor >= 0
  {
    if divisor > 0 then count / divisor else -(count / -divisor)
  }

  /**
   * `(pageIndex - 1) * qt`, evaluated in `int`: an `int` congruent to the
   * mathematical offset modulo 2^32, and equal to it when it fits.
   */
  function SkipCount(pageIndex: int, qt: int): (skip: int)
    ensures IsInt32(skip)
    ensures (skip - (pageIndex - 1) * qt) % 0x1_0000_0000 == 0
    ensures IsInt32(pageIndex - 1) && IsInt32((pageIndex - 1) * qt) ==> skip == (pageIndex - 1) * qt
  {
    var index := Wrap32(pageIndex - 1);
    var product := index * qt;
    CongruentProduct(index, pageIndex - 1, qt);
    var skip := Wrap32(product);
    CongruentTrans(skip, product, (pageIndex - 1) * qt);
    skip
  }

  /** Congruence modulo 2^32 is transitive. */
  lemma CongruentTrans(a: int, b: int, c: int)
    requires (a - b) % 0x1_0000_0000 == 0 && (b - c) % 0x1_0000_0000 == 0
    ensures (a - c) % 0x1_0000_0000 == 0
  {
    var k, l := (a - b) / 0x1_0000_0000, (b - c) / 0x1_0000_0000;
    assert a - c == (k + l) * 0x1_0000_0000;
  }

  /** Multiplying congruent values by the same factor keeps them congruent modulo 2^32. */
  lemma CongruentProduct(a: int, b: int, c: int)
    requires (a - b) % 0x1_0000_0000 == 0
    ensures (a * c - b * c) % 0x1_0000_0000 == 0
  {
    var k := (a - b) / 0x1_0000_0000;
    assert a - b == k * 0x1_0000_0000;
    assert a * c - b * c == (k * c) * 0x1_0000_0000 by {
      assert a * c - b * c == (a - b) * c;
    }
  }

  /** LINQ `Skip(n)`: a non-positive count skips nothing. */
  function Skip(s: seq<TodoItem>, n: int): (r: seq<TodoItem>)
    ensures n <= 0 ==> r == s
    ensures 0 <= n <= |s| ==> r == s[n..]
    ensures n >= |s| ==> r == []
  {
    if n <= 0 then s else if n >= |s| then [] else s[n..]
  }

  /** LINQ `Take(n)`: a non-positive count takes nothing. */
  function Take(s: seq<TodoItem>, n: int): (r: seq<TodoItem>)
    ensures n <= 0 ==> r == []
    ensures 0 <= n <= |s| ==> r == s[..n]
    ensures n >= |s| ==> r == s
  {
    if n <= 0 then [] else if n >= |s| then s else s[..n]
  }

  datatype QueryError = DivideByZero

  function Min(a: int, b: int): int { if a <= b then a else b }

  function Max(a: int, b: int): int { if a >= b then a else b }

  /**
   * `GetPaginatedItemsWithFilter`: `totalPages = count / qt + 1`, then the
   * items ordered by CreatedAt descending, `Skip((pageIndex - 1) * qt)`,
   * `Take(qt)`. A zero `qt` throws on the division.
   */
  function GetPaginatedItemsWithFilter(filtered: seq<TodoItem>, pageIndex: int, qt: int)
    : (r: Result<PaginatedList<TodoItem>, QueryError>)
    ensures r.Failure? <==> qt == 0
    ensures r.Success? ==> r.value.pageIndex == pageIndex
    ensures r.Success? ==> r.value.totalPages == TruncatingDivide(|filtered|, qt) + 1
    ensures r.Success? ==> CreatedDescending(r.value.items)
    ensures r.Success? ==> multiset(r.value.items) <= multiset(filtered)
    ensures r.Success? ==> |r.value.items| <= Max(qt, 0)
  {
    if qt == 0 then Failure(DivideByZero)
    else
      var count := |filtered|;
      var totalPages := TruncatingDivide(count, qt) + 1;
      var ordered := OrderByCreatedDescending(filtered);
      var page := Take(Skip(ordered, SkipCount(pageIndex, qt)), qt);
      SkipTakeIsSlice(ordered, SkipCount(pageIndex, qt), qt);
      SliceOfSorted(ordered, WindowStart(|ordered|, SkipCount(pageIndex, qt)),
        WindowEnd(|ordered|, SkipCount(pageIndex, qt), qt));
      Success(PaginatedList(page, pageIndex, totalPages))
  }

  /** Where `Skip(skip)` starts, clamped to the sequence. */
  function WindowStart(length: nat, skip: int): (lo: nat)
    ensures lo <= length
  {
    Min(Max(skip, 0), length)
  }

  /** Where `Skip(skip).Take(take)` ends, clamped to the sequence. */
  function WindowEnd(length: nat, skip: int, take: int): (hi: nat)
    ensures WindowStart(length, skip) <= hi <= length
  {
    WindowStart(length, skip) + Min(Max(take, 0), length - WindowStart(length, skip))
  }

  /** `Skip` then `Take` is one contiguous slice. */
  lemma SkipTakeIsSlice(s: seq<TodoItem>, skip: int, take: int)
    ensures Take(Skip(s, skip), take) == s[WindowStart(|s|, skip)..WindowEnd(|s|, skip, take)]
  {}

  /** A slice of a descending sequence is descending and takes nothing new. */
  lemma SliceOfSorted(s: seq<TodoItem>, lo: nat, hi: nat)
    requires lo <= hi <= |s|
    ensures CreatedDescending(s) ==> CreatedDescending(s[lo..hi])
    ensures multiset(s[lo..hi]) <= multiset(s)
  {
    assert s == s[..lo] + s[lo..hi] + s[hi..];
  }

  /**
   * Without overflow, page `pageIndex` holds the ordered items at positions
   * `(pageIndex - 1) * qt` up to `pageIndex * qt`, as many of them as exist.
   */
  lemma PageWindow(filtered: seq<TodoItem>, pageIndex: int, qt: int)
    requires 1 <= pageIndex && 1 <= qt && IsInt32(pageIndex)
    requires IsInt32((pageIndex - 1) * qt)
    ensures var r := GetPaginatedItemsWithFilter(filtered, pageIndex, qt);
      && r.Success?
      && r.value.items == OrderByCreatedDescending(filtered)
           [WindowStart(|filtered|, (pageIndex - 1) * qt)..WindowEnd(|filtered|, (pageIndex - 1) * qt, qt)]
      && WindowStart(|filtered|, (pageIndex - 1) * qt) == Min((pageIndex - 1) * qt, |filtered|)
      && WindowEnd(|filtered|, (pageIndex - 1) * qt, qt) == Min(pageIndex * qt, |filtered|)
      && |r.value.items| == Min(qt, Max(0, |filtered| - (pageIndex - 1) * qt))
      && r.value.totalPages == |filtered| / qt + 1
  {
    var skip := (pageIndex - 1) * qt;
    SkipCountWithoutOverflow(pageIndex, qt);
    PageFromSkip(filtered, pageIndex, qt, skip);
  }

  /** Once the offset is known to be a non-negative `skip`, the page is the window after it. */
  lemma PageFromSkip(filtered: seq<TodoItem>, pageIndex: int, qt: int, skip: int)
    requires 1 <= qt && 0 <= skip && SkipCount(pageIndex, qt) == skip
    ensures var r := GetPaginatedItemsWithFilter(filtered, pageIndex, qt);
      && r.Success?
      && r.value.items == OrderByCreatedDescending(filtered)[WindowStart(|filtered|, skip)..WindowEnd(|filtered|, skip, qt)]
      && WindowStart(|filtered|, skip) == Min(skip, |filtered|)
      && WindowEnd(|filtered|, skip, qt) == Min(skip + qt, |filtered|)
      && |r.value.items| == Min(qt, Max(0, |filtered| - skip))
      && r.value.totalPages == |filtered| / qt + 1
  {
    var ordered := OrderByCreatedDescending(filtered);
    var page := Take(Skip(ordered, skip), qt);
    assert GetPaginatedItemsWithFilter(filtered, pageIndex, qt)
      == Success(PaginatedList(page, pageIndex, TruncatingDivide(|filtered|, qt) + 1));
    SkipTakeIsSlice(ordered, skip, qt);
    assert WindowStart(|ordered|, skip) == Min(skip, |filtered|);
    assert WindowEnd(|ordered|, skip, qt) == Min(skip + qt, |filtered|);
    assert |page| == Min(qt, Max(0, |filtered| - skip));
  }

  /** Without overflow the `int` offset is the mathematical one, and it is not negative. */
  lemma SkipCountWithoutOverflow(pageIndex: int, qt: int)
    requires 1 <= pageIndex && 1 <= qt && IsInt32(pageIndex)
    requires IsInt32((pageIndex - 1) * qt)
    ensures SkipCount(pageIndex, qt) == (pageIndex - 1) * qt >= 0
    ensures pageIndex * qt == (pageIndex - 1) * qt + qt
  {
    MulNonNegative(pageIndex - 1, qt);
  }

  lemma MulNonNegative(a: nat, b: nat)
    ensures a * b >= 0
  {}

  /**
   * When the count is an exact multiple of the page size, `count / qt + 1`
   * announces one page more than the items fill, and that page is empty.
   */
  lemma ExactMultipleAddsEmptyPage(filtered: seq<TodoItem>, qt: int, pages: nat)
    requires 1 <= qt && IsInt32(pages + 1) && IsInt32(pages * qt)
    requires |filtered| == pages * qt
    ensures var r := GetPaginatedItemsWithFilter(filtered, pages + 1, qt);
      r.Success? && r.value.totalPages == pages + 1 && r.value.items == []
  {
    PageWindow(filtered, pages + 1, qt);
    DivideMultiple(pages, qt);
  }

  lemma DivideMultiple(pages: nat, qt: int)
    requires 1 <= qt
    ensures pages * qt / qt == pages
  {
    var q := pages * qt / qt;
    var rem := pages * qt % qt;
    assert (pages - q) * qt == rem by {
      assert pages * qt == q * qt + rem;
    }
    if pages - q >= 1 {
      ScaleAtLeast(pages - q, qt);
    } else if pages - q <= -1 {
      ScaleAtLeast(q - pages, qt);
    }
  }

  lemma ScaleAtLeast(k: int, qt: int)
    requires k >= 1 && qt >= 1
    ensures k * qt >= qt
  {}

  /**
   * A page index whose offset overflows `int` wraps to a negative skip,
   * which `Skip` ignores: page 429496730 of size 10 returns the first page.
   */
  lemma OverflowedOffsetReturnsFirstPage(filtered: seq<TodoItem>)
    requires |filtered| >= 10
    ensures var r := GetPaginatedItemsWithFilter(filtered, 429_496_730, 10);
      r.Success? && r.value.items == OrderByCreatedDescending(filtered)[..10]
  {
    var ordered := OrderByCreatedDescending(filtered);
    OverflowedOffset();
    assert Skip(ordered, -6) == ordered;
    assert Take(ordered, 10) == ordered[..10];
    assert GetPaginatedItemsWithFilter(filtered, 429_496_730, 10)
      == Success(PaginatedList(ordered[..10], 429_496_730, TruncatingDivide(|filtered|, 10) + 1));
  }

  /** `(429496730 - 1) * 10` is 4294967290, which `int` holds as -6. */
  lemma OverflowedOffset()
    ensures SkipCount(429_496_730, 10) == -6
  {
    assert Wrap32(429_496_729) == 429_496_729;
  }
}
