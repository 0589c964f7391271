/**
 * TodoItemStatusUpdaterService: the background loop that turns Pending items
 * whose due day has passed into Overdue ones, writes each of them back and
 * notifies the clients once per cycle that changed anything.
 *
 * The clock is a parameter: `now` is the instant of one cycle, read once.
 */
module StatusUpdater {
  import opened Entities
  import opened Repository
  import opened Hubs

  const UpdateMessage: string := "Todo items updated"

  // ---------------------------------------------------------------------------
  // The reconciliation rule
  // ---------------------------------------------------------------------------

  /** A Pending item whose due day is strictly before the current day. */
  predicate IsDue(item: TodoItem, now: nat)
    ensures IsDue(item, now) <==> item.status == Pending && item.dueDate < now - now % TicksPerDay
  {
    item.status == Pending && Day(item.dueDate) < Day(now)
  }

  /** The item's fields other than the status and UpdatedAt are equal. */
  predicate SameContent(a: TodoItem, b: TodoItem)
  {
    a.id == b.id && a.title == b.title && a.description == b.description
    && a.dueDate == b.dueDate && a.createdAt == b.createdAt
  }

  /** What one cycle does to one item. */
  function Transition(item: TodoItem, now: nat): (next: TodoItem)
    ensures next != item <==> IsDue(item, now)
    ensures IsDue(item, now) ==> next.status == Overdue && next.updatedAt == now
    ensures SameContent(next, item)
    ensures !IsDue(next, now)
  {
    if IsDue(item, now) then item.(status := Overdue, updatedAt := now) else item
  }

  /** The store after a complete cycle. */
  function Reconciled(m: map<Guid, TodoItem>, now: nat): (r: map<Guid, TodoItem>)
    ensures r.Keys == m.Keys
    ensures forall id :: id in m ==> SameContent(r[id], m[id])
    ensures forall id :: id in m ==> (r[id] != m[id] <==> IsDue(m[id], now))
    ensures forall id :: id in r ==> !IsDue(r[id], now)
  {
    map id | id in m :: Transition(m[id], now)
  }

  /** The entries a cycle changes, as it writes them. */
  function Flipped(m: map<Guid, TodoItem>, now: nat): (r: map<Guid, TodoItem>)
    ensures forall id :: id in r <==> id in m && IsDue(m[id], now)
    ensures forall id :: id in r ==> r[id] == Reconciled(m, now)[id]
  {
    map id | id in m && IsDue(m[id], now) :: Transition(m[id], now)
  }

  // ---------------------------------------------------------------------------
  // What the loop has done after visiting a prefix of the listing
  // ---------------------------------------------------------------------------

  /** The store once the items of `done` have been visited. */
  ghost function PartiallyReconciled(m: map<Guid, TodoItem>, done: seq<TodoItem>, now: nat): (r: map<Guid, TodoItem>)
    ensures r.Keys == m.Keys
  {
    map id | id in m :: if m[id] in done then Transition(m[id], now) else m[id]
  }

  /** The writes issued while visiting `visited`, in order. */
  function DueWrites(visited: seq<TodoItem>, now: nat): (writes: seq<TodoItem>)
    ensures |writes| <= |visited|
  {
    if visited == [] then []
    else
      var last := visited[|visited| - 1];
      DueWrites(visited[..|visited| - 1], now) + if IsDue(last, now) then [Transition(last, now)] else []
  }

  /** Visiting a whole listing writes each changed entry once, in its changed form. */
  lemma {:induction false} DueWritesListing(s: seq<TodoItem>, m: map<Guid, TodoItem>, now: nat)
    requires IsListing(s, m)
    ensures IsListing(DueWrites(s, now), Flipped(m, now))
    decreases |s|
  {
    if s == [] {
      assert m == map[];
    } else {
      var last := s[|s| - 1];
      var rest := s[..|s| - 1];
      var smaller := m - {last.id};
      DueWritesListing(rest, smaller, now);
      FlippedWithout(m, last.id, now);
      if IsDue(last, now) {
        ListingAppend(DueWrites(rest, now), Flipped(smaller, now), Transition(last, now));
      } else {
        assert DueWrites(s, now) == DueWrites(rest, now);
      }
    }
  }

  /** The changed entries of a store, split into one entry and the rest. */
  lemma FlippedWithout(m: map<Guid, TodoItem>, k: Guid, now: nat)
    requires k in m
    ensures IsDue(m[k], now) ==> Flipped(m, now) == Flipped(m - {k}, now)[k := Transition(m[k], now)]
    ensures !IsDue(m[k], now) ==> Flipped(m, now) == Flipped(m - {k}, now)
  {
    var whole := Flipped(m, now);
    var part := Flipped(m - {k}, now);
    if IsDue(m[k], now) {
      var extended := part[k := Transition(m[k], now)];
      assert whole.Keys == extended.Keys;
      forall id | id in whole ensures whole[id] == extended[id] {
        if id != k {
          assert id in m - {k};
        }
      }
    } else {
      assert whole.Keys == part.Keys;
      forall id | id in whole ensures whole[id] == part[id] {
        assert id in m - {k};
      }
    }
  }

  lemma AppendAssociative(a: seq<TodoItem>, b: seq<TodoItem>, c: seq<TodoItem>)
    ensures (a + b) + c == a + (b + c)
  {}

  /** A step of the loop: visiting one more item of the listing. */
  lemma VisitNext(m: map<Guid, TodoItem>, s: seq<TodoItem>, i: nat, now: nat)
    requires Keyed(m) && IsListing(s, m) && i < |s|
    ensures s[..i + 1] == s[..i] + [s[i]]
    ensures s[i].id in m && m[s[i].id] == s[i]
    ensures PartiallyReconciled(m, s[..i], now)[s[i].id] == s[i]
    ensures PartiallyReconciled(m, s[..i + 1], now)
         == PartiallyReconciled(m, s[..i], now)[s[i].id := Transition(s[i], now)]
  {
    ListingEnumerates(s, m);
    VisitNextStored(m, s, i, now);
  }

  lemma VisitNextStored(m: map<Guid, TodoItem>, s: seq<TodoItem>, i: nat, now: nat)
    requires Keyed(m) && DistinctIds(s) && Stored(s, m) && i < |s|
    ensures s[..i + 1] == s[..i] + [s[i]]
    ensures s[i].id in m && m[s[i].id] == s[i]
    ensures PartiallyReconciled(m, s[..i], now)[s[i].id] == s[i]
    ensures PartiallyReconciled(m, s[..i + 1], now)
         == PartiallyReconciled(m, s[..i], now)[s[i].id := Transition(s[i], now)]
  {
    assert s[..i + 1] == s[..i] + [s[i]];
    assert s[i] in s;
    NotYetVisited(s, i);
    VisitStep(m, s[..i], s[i], now);
  }

  /** With distinct ids, the item at `i` is not among those before it. */
  lemma NotYetVisited(s: seq<TodoItem>, i: nat)
    requires DistinctIds(s) && i < |s|
    ensures s[i] !in s[..i]
  {
    forall j | 0 <= j < i ensures s[..i][j] != s[i] {
      assert s[j].id != s[i].id;
    }
  }

  lemma VisitStep(m: map<Guid, TodoItem>, done: seq<TodoItem>, x: TodoItem, now: nat)
    requires Keyed(m) && x.id in m && m[x.id] == x && x !in done
    ensures PartiallyReconciled(m, done, now)[x.id] == x
    ensures PartiallyReconciled(m, done + [x], now)
         == PartiallyReconciled(m, done, now)[x.id := Transition(x, now)]
  {
    var before := PartiallyReconciled(m, done, now);
    var after := PartiallyReconciled(m, done + [x], now);
    forall id | id in m ensures after[id] == before[x.id := Transition(x, now)][id] {
      if id != x.id {
        assert m[id] != x;
        assert m[id] in done + [x] <==> m[id] in done;
      }
    }
  }

  /** A step of the loop on the write log: visiting item `i` appends its write, if it is due. */
  lemma WritesNext(written: seq<TodoItem>, s: seq<TodoItem>, i: nat, now: nat)
    requires i < |s|
    ensures written + DueWrites(s[..i + 1], now)
         == (written + DueWrites(s[..i], now)) + if IsDue(s[i], now) then [Transition(s[i], now)] else []
  {
    assert s[..i + 1][..i] == s[..i];
  }

  /** Once the whole listing is visited, the store is reconciled. */
  lemma VisitedAll(m: map<Guid, TodoItem>, s: seq<TodoItem>, now: nat)
    requires Keyed(m) && IsListing(s, m)
    ensures PartiallyReconciled(m, s[..|s|], now) == Reconciled(m, now)
  {
    assert s[..|s|] == s;
    ListingEnumerates(s, m);
    VisitedEvery(m, s, now);
  }

  /** A sequence holding every stored entry visits all of them. */
  lemma VisitedEvery(m: map<Guid, TodoItem>, s: seq<TodoItem>, now: nat)
    requires Stored(s, m) && Covers(s, m)
    ensures PartiallyReconciled(m, s, now) == Reconciled(m, now)
  {
    var visited, reconciled := PartiallyReconciled(m, s, now), Reconciled(m, now);
    forall id | id in m ensures visited[id] == reconciled[id] {
      var i :| 0 <= i < |s| && s[i].id == id;
      assert s[i] in s;
    }
    assert visited.Keys == reconciled.Keys;
  }

  // ---------------------------------------------------------------------------
  // The service
  // ---------------------------------------------------------------------------

  class TodoItemStatusUpdater {
    const store: TodoStore
    const hub: NotificationHub

    constructor(store: TodoStore, hub: NotificationHub)
      ensures this.store == store && this.hub == hub
    {
      this.store := store;
      this.hub := hub;
    }

    /**
     * One pass of the loop body: read every item, flip the due ones to
     * Overdue with UpdatedAt = now, write each of them, and notify once if
     * any was written.
     */
    method RunCycle(now: nat) returns (ghost writes: seq<TodoItem>)
      requires store.Valid()
      modifies store, hub
      ensures store.Valid()
      ensures store.items == Reconciled(old(store.items), now)
      ensures store.updates == old(store.updates) + writes
      ensures IsListing(writes, Flipped(old(store.items), now))
      ensures hub.broadcasts == old(hub.broadcasts)
        + if Flipped(old(store.items), now) == map[] then [] else [(UpdateTopic, UpdateMessage)]
    {
      var items := store.GetAll();
      ghost var before := store.items;
      ghost var written := store.updates;
      var updated := UpdateDueItems(items, now);
      writes := DueWrites(items, now);
      DueWritesListing(items, before, now);
      ListingSize(DueWrites(items, now), Flipped(before, now));
      if updated {
        hub.SendTodoUpdate(UpdateMessage);
      }
    }

    /** The `foreach` over the items read: writes each due item in its Overdue form. */
    method UpdateDueItems(items: seq<TodoItem>, now: nat) returns (updated: bool)
      requires store.Valid() && IsListing(items, store.items)
      modifies store
      ensures store.Valid()
      ensures store.items == Reconciled(old(store.items), now)
      ensures store.updates == old(store.updates) + DueWrites(items, now)
      ensures updated <==> DueWrites(items, now) != []
    {
      ghost var before := store.items;
      ghost var written := store.updates;
      updated := false;
      var i := 0;
      while i < |items|
        invariant 0 <= i <= |items|
        invariant store.Valid()
        invariant store.items == PartiallyReconciled(before, items[..i], now)
        invariant store.updates == written + DueWrites(items[..i], now)
        invariant updated <==> DueWrites(items[..i], now) != []
      {
        var item := items[i];
        VisitNext(before, items, i, now);
        WritesNext(written, items, i, now);
        var changed := Visit(item, now);
        updated := updated || changed;
        i := i + 1;
      }
      VisitedAll(before, items, now);
      assert items[..|items|] == items;
    }

    /** The body of the `foreach`: flip and write one item if it is due. */
    method Visit(item: TodoItem, now: nat) returns (changed: bool)
      requires store.Valid() && item.id in store.items && store.items[item.id] == item
      modifies store
      ensures store.Valid()
      ensures changed <==> IsDue(item, now)
      ensures store.items == old(store.items)[item.id := Transition(item, now)]
      ensures store.updates == old(store.updates) + if changed then [Transition(item, now)] else []
    {
      changed := false;
      if item.status == Pending && Day(item.dueDate) < Day(now) {
        var next := item.(status := Overdue, updatedAt := now);
        var saved := store.Update(next);
        changed := true;
      } else {
        assert store.items[item.id := item] == store.items;
      }
    }

    /**
     * The service loop: a cycle starts only while cancellation has not been
     * requested. `cancelled[k]` is the token's state before cycle k and
     * `clock[k]` the instant of cycle k; the token is cancelled by the time
     * the instants run out.
     */
    method RunBackgroundService(clock: seq<nat>, cancelled: seq<bool>)
      returns (cycles: nat, ghost cycleWrites: seq<seq<TodoItem>>)
      requires store.Valid()
      requires |cancelled| == |clock| + 1 && cancelled[|clock|]
      modifies store, hub
      ensures store.Valid()
      ensures cycles <= |clock| && cancelled[cycles]
      ensures forall k :: 0 <= k < cycles ==> !cancelled[k]
      ensures store.items == ReconciledAll(old(store.items), clock[..cycles])
      ensures |cycleWrites| == cycles
      ensures CycleLogs(old(store.items), clock, cycleWrites)
      ensures store.updates == old(store.updates) + Concat(cycleWrites)
      ensures hub.broadcasts == old(hub.broadcasts) + CycleBroadcasts(old(store.items), clock[..cycles])
    {
      ghost var initial := store.items;
      ghost var written := store.updates;
      ghost var sent := hub.broadcasts;
      cycles, cycleWrites := 0, [];
      while !cancelled[cycles]
        invariant cycles <= |clock|
        invariant forall k :: 0 <= k < cycles ==> !cancelled[k]
        invariant store.Valid()
        invariant store.items == ReconciledAll(initial, clock[..cycles])
        invariant |cycleWrites| == cycles
        invariant CycleLogs(initial, clock, cycleWrites)
        invariant store.updates == written + Concat(cycleWrites)
        invariant hub.broadcasts == sent + CycleBroadcasts(initial, clock[..cycles])
        decreases |clock| - cycles
      {
        ghost var items, updates, broadcasts := store.items, store.updates, hub.broadcasts;
        ghost var writes := RunCycle(clock[cycles]);
        ReconciledAllStep(initial, clock, cycles);
        CycleLogsStep(initial, clock, cycleWrites, writes);
        UpdatesStep(cycleWrites, writes, written, updates, store.updates);
        BroadcastsStep(initial, clock, cycles, sent, broadcasts, hub.broadcasts);
        NotCancelledStep(cancelled, cycles);
        cycleWrites := cycleWrites + [writes];
        cycles := cycles + 1;
      }
    }
  }

  /** The store after one cycle per instant of `instants`, in order. */
  function ReconciledAll(m: map<Guid, TodoItem>, instants: seq<nat>): (r: map<Guid, TodoItem>)
    ensures r.Keys == m.Keys
  {
    if instants == [] then m else Reconciled(ReconciledAll(m, instants[..|instants| - 1]), instants[|instants| - 1])
  }

  lemma ReconciledAllStep(m: map<Guid, TodoItem>, instants: seq<nat>, k: nat)
    requires k < |instants|
    ensures ReconciledAll(m, instants[..k + 1]) == Reconciled(ReconciledAll(m, instants[..k]), instants[k])
  {
    assert instants[..k + 1][..k] == instants[..k];
  }

  /**
   * `logs[k]` lists, once each, the entries cycle k changed: those due at
   * `clock[k]` in the store left by the cycles before it.
   */
  ghost predicate CycleLogs(m: map<Guid, TodoItem>, clock: seq<nat>, logs: seq<seq<TodoItem>>)
    decreases |logs|
  {
    |logs| <= |clock|
    && (logs != [] ==>
      var k := |logs| - 1;
      CycleLogs(m, clock, logs[..k]) && IsListing(logs[k], Flipped(ReconciledAll(m, clock[..k]), clock[k])))
  }

  /** The recursive form says what it promises for every cycle. */
  lemma {:induction false} CycleLogsEach(m: map<Guid, TodoItem>, clock: seq<nat>, logs: seq<seq<TodoItem>>, k: nat)
    requires CycleLogs(m, clock, logs) && k < |logs|
    ensures IsListing(logs[k], Flipped(ReconciledAll(m, clock[..k]), clock[k]))
    decreases |logs|
  {
    if k < |logs| - 1 {
      CycleLogsEach(m, clock, logs[..|logs| - 1], k);
    }
  }

  lemma NotCancelledStep(cancelled: seq<bool>, n: nat)
    requires n < |cancelled| && !cancelled[n]
    requires forall k :: 0 <= k < n ==> !cancelled[k]
    ensures forall k :: 0 <= k < n + 1 ==> !cancelled[k]
  {}

  /** One more cycle's write log extends the logs of a run. */
  lemma CycleLogsStep(m: map<Guid, TodoItem>, clock: seq<nat>, logs: seq<seq<TodoItem>>, writes: seq<TodoItem>)
    requires |logs| < |clock| && CycleLogs(m, clock, logs)
    requires IsListing(writes, Flipped(ReconciledAll(m, clock[..|logs|]), clock[|logs|]))
    ensures CycleLogs(m, clock, logs + [writes])
  {
    assert (logs + [writes])[..|logs|] == logs;
  }

  /** One more cycle's writes extend the store's write log. */
  lemma UpdatesStep(logs: seq<seq<TodoItem>>, writes: seq<TodoItem>, written: seq<TodoItem>,
                    updates: seq<TodoItem>, updates': seq<TodoItem>)
    requires updates == written + Concat(logs) && updates' == updates + writes
    ensures updates' == written + Concat(logs + [writes])
  {
    ConcatStep(logs, writes);
    AppendAssociative(written, Concat(logs), writes);
  }

  /** One more cycle's notification, if any, extends the broadcasts of a run. */
  lemma BroadcastsStep(m: map<Guid, TodoItem>, clock: seq<nat>, k: nat, sent: seq<(string, string)>,
                       broadcasts: seq<(string, string)>, broadcasts': seq<(string, string)>)
    requires k < |clock|
    requires broadcasts == sent + CycleBroadcasts(m, clock[..k])
    requires broadcasts' == broadcasts
      + if Flipped(ReconciledAll(m, clock[..k]), clock[k]) == map[] then [] else [(UpdateTopic, UpdateMessage)]
    ensures broadcasts' == sent + CycleBroadcasts(m, clock[..k + 1])
  {
    CycleBroadcastsStep(m, clock, k);
  }

  /** The per-cycle write logs, one after the other. */
  function Concat(parts: seq<seq<TodoItem>>): (all: seq<TodoItem>)
    ensures parts == [] ==> all == []
  {
    if parts == [] then [] else Concat(parts[..|parts| - 1]) + parts[|parts| - 1]
  }

  lemma ConcatStep(parts: seq<seq<TodoItem>>, last: seq<TodoItem>)
    ensures Concat(parts + [last]) == Concat(parts) + last
  {
    assert (parts + [last])[..|parts|] == parts;
  }

  /**
   * The broadcasts of a run of cycles: one "Todo items updated" for each
   * cycle that changed some item, none for the others.
   */
  function CycleBroadcasts(m: map<Guid, TodoItem>, instants: seq<nat>): (sent: seq<(string, string)>)
    ensures |sent| <= |instants|
    ensures forall k :: 0 <= k < |sent| ==> sent[k] == (UpdateTopic, UpdateMessage)
  {
    if instants == [] then []
    else
      var before := instants[..|instants| - 1];
      CycleBroadcasts(m, before)
      + if Flipped(ReconciledAll(m, before), instants[|instants| - 1]) == map[] then [] else [(UpdateTopic, UpdateMessage)]
  }

  lemma CycleBroadcastsStep(m: map<Guid, TodoItem>, instants: seq<nat>, k: nat)
    requires k < |instants|
    ensures CycleBroadcasts(m, instants[..k + 1]) == CycleBroadcasts(m, instants[..k])
      + if Flipped(ReconciledAll(m, instants[..k]), instants[k]) == map[] then [] else [(UpdateTopic, UpdateMessage)]
  {
    assert instants[..k + 1][..k] == instants[..k];
  }

  // ---------------------------------------------------------------------------
  // Properties of the cycle
  // ---------------------------------------------------------------------------

  /**
   * A second cycle on the same day changes nothing, writes nothing and
   * sends nothing.
   */
  lemma ReconcileIdempotent(m: map<Guid, TodoItem>, now1: nat, now2: nat)
    requires Day(now1) == Day(now2)
    ensures Reconciled(Reconciled(m, now1), now2) == Reconciled(m, now1)
    ensures Flipped(Reconciled(m, now1), now2) == map[]
  {
    var once := Reconciled(m, now1);
    assert forall id :: id in once ==> !IsDue(once[id], now2);
    assert Flipped(once, now2).Keys == {};
  }

  /** After any run of at least one cycle, no item is Pending past the day of the last cycle. */
  lemma NothingDueAfterLastCycle(m: map<Guid, TodoItem>, instants: seq<nat>)
    requires instants != []
    ensures forall id :: id in ReconciledAll(m, instants) ==>
      !IsDue(ReconciledAll(m, instants)[id], instants[|instants| - 1])
  {}

  /** Only the day of `now` matters: two instants of the same day reconcile alike. */
  lemma SameDaySameCycle(m: map<Guid, TodoItem>, now1: nat, now2: nat)
    requires Day(now1) == Day(now2)
    ensures Reconciled(m, now1).Keys == Reconciled(m, now2).Keys
    ensures forall id :: id in m ==>
      Reconciled(m, now1)[id].status == Reconciled(m, now2)[id].status
    ensures Flipped(m, now1).Keys == Flipped(m, now2).Keys
  {}

  /** Completed and Overdue items, and Pending items not yet past due, are left exactly as they were. */
  lemma UntouchedItems(m: map<Guid, TodoItem>, now: nat, id: Guid)
    requires id in m
    requires m[id].status != Pending || Day(m[id].dueDate) >= Day(now)
    ensures Reconciled(m, now)[id] == m[id]
    ensures id !in Flipped(m, now)
  {}
}
