/** The todo application's state machine: the in-memory store together with
    its local-storage mirror, and the transitions the event handlers of app.js
    apply after each remote call. Remote calls are not made here: their
    outcome is an input of every transition. */
module App {
  import opened Options
  import opened Tasks
  import opened View

  /** How a remote call ended: `Succeeded` when `response.ok`, `Failed` for a
      non-success status or a rejected `fetch`. */
  datatype Outcome = Succeeded | Failed

  /** The store (`todoState`) and the mirror under the storage key; `None`
      when nothing is stored there. */
  datatype State = State(store: Store, mirror: Option<Store>)

  /** The write-through invariant: the mirror holds exactly the store. */
  predicate Synced(st: State) {
    st.mirror == Some(st.store)
  }

  /** A confirmed change: the new store, written through (`saveToLocalStorage`). */
  function Commit(store: Store): (st: State)
    ensures Synced(st) && st.store == store
  {
    State(store, Some(store))
  }

  /** The store before anything is loaded. */
  const InitialStore: Store := []

  // ---------------------------------------------------------------------
  // Startup (`fetchTodos`, `loadFromLocalStorage`)

  /** Startup: a stored list, even an empty one, becomes the store and no
      request is made; otherwise `fetched` is what the list request returned
      (`None` when it failed), which becomes the store and is written through.
      A failed request leaves the initial empty store and no mirror. */
  function Startup(mirror: Option<Store>, fetched: Option<Store>): (st: State)
    ensures Synced(st) <==> mirror.Some? || fetched.Some?
    ensures mirror.Some? ==> st.store == mirror.value && st.mirror == mirror
    ensures mirror.None? && fetched.Some? ==> st.store == fetched.value
    ensures mirror.None? && fetched.None? ==> st.store == InitialStore && st.mirror == None
  {
    match mirror
    case Some(saved) => State(saved, mirror)
    case None =>
      match fetched
      case Some(list) => Commit(list)
      case None => State(InitialStore, None)
  }

  // ---------------------------------------------------------------------
  // Create, delete, toggle

  /** `createNewTodoIte(title)` with the id `Date.now()` gave: on success the
      new incomplete task owned by user 1 goes in front and is written through;
      on failure nothing changes. */
  function Create(st: State, title: string, id: int, outcome: Outcome): (r: State)
    ensures outcome == Succeeded ==>
      && Synced(r) && |r.store| == |st.store| + 1
      && r.store[0] == Task(1, id, title, false) && r.store[1..] == st.store
    ensures outcome == Failed ==> r == st
  {
    if outcome == Succeeded then Commit(Prepend(st.store, NewTask(id, title))) else st
  }

  /** `deleteTodo` for a task with this id: on success every task carrying
      the id goes and the rest is written through; on failure nothing changes. */
  function Delete(st: State, id: int, outcome: Outcome): (r: State)
    ensures outcome == Succeeded ==>
      && Synced(r) && id !in Ids(r.store) && IsSubsequence(r.store, st.store)
      && forall t :: t in st.store && t.id != id ==> t in r.store
    ensures outcome == Succeeded ==>
      forall t :: multiset(r.store)[t] == if t.id == id then 0 else multiset(st.store)[t]
    ensures outcome == Failed ==> r == st
  {
    if outcome == Succeeded then Commit(RemoveId(st.store, id)) else st
  }

  /** `toggleTodoStatus` on the task `find` located: on success the first task
      carrying the id has its flag inverted and the store is written through;
      on failure nothing changes. */
  function Toggle(st: State, id: int, outcome: Outcome): (r: State)
    ensures outcome == Succeeded ==> Synced(r) && r.store == FlipFirst(st.store, id)
    ensures outcome == Failed ==> r == st
  {
    if outcome == Succeeded then Commit(FlipFirst(st.store, id)) else st
  }

  /** Deleting a task right after creating it, both confirmed, gives back the
      store before the creation when the id was new. */
  lemma CreateThenDelete(st: State, title: string, id: int)
    requires id !in Ids(st.store)
    ensures Delete(Create(st, title, id, Succeeded), id, Succeeded).store == st.store
  {
    RemovePrepended(st.store, id, title);
  }

  /** Toggling the same task twice, both confirmed, gives back the store. */
  lemma ToggleTwice(st: State, id: int)
    ensures Toggle(Toggle(st, id, Succeeded), id, Succeeded).store == st.store
  {
    FlipFirstTwice(st.store, id);
  }

  /** Two deletions give the same state in either order, whatever their
      outcomes: the order in which concurrent deletions complete does not
      matter. */
  lemma DeleteCommutes(st: State, a: int, oa: Outcome, b: int, ob: Outcome)
    ensures Delete(Delete(st, a, oa), b, ob) == Delete(Delete(st, b, ob), a, oa)
  {
    RemoveIdCommutes(st.store, a, b);
  }

  // ---------------------------------------------------------------------
  // Button clicks (`handleTodoAction`)

  /** A click on a row's button: the task id is read from the row's element
      id, the first task carrying it is looked up, and the button's action
      (`"toggle"` or `"delete"`) is applied to it. An id that does not parse
      or is not in the store does nothing. */
  function HandleTodoAction(st: State, elementId: string, action: string, outcome: Outcome): (r: State)
    ensures ParseElementId(elementId).None? ==> r == st
    ensures action != "toggle" && action != "delete" ==> r == st
    ensures outcome == Failed ==> r == st
    ensures r == st || Synced(r)
    ensures ParseElementId(elementId).Some? ==>
      var id := ParseElementId(elementId).value;
      && (id !in Ids(st.store) ==> r == st)
      && (id in Ids(st.store) && action == "toggle" ==> r == Toggle(st, id, outcome))
      && (id in Ids(st.store) && action == "delete" ==> r == Delete(st, id, outcome))
  {
    match ParseElementId(elementId)
    case None => st
    case Some(id) =>
      match FindFirst(st.store, id)
      case None => st
      case Some(i) =>
        var todo := st.store[i];
        if action == "toggle" then Toggle(st, todo.id, outcome)
        else if action == "delete" then Delete(st, todo.id, outcome)
        else st
  }

  /** A click in the row rendered for a task of the store acts on that task's id. */
  lemma ClickOnRow(st: State, t: Task, outcome: Outcome)
    requires t in st.store
    ensures HandleTodoAction(st, RenderRow(t).elementId, "toggle", outcome) == Toggle(st, t.id, outcome)
    ensures HandleTodoAction(st, RenderRow(t).elementId, "delete", outcome) == Delete(st, t.id, outcome)
  {
    var e := RenderRow(t).elementId;
    assert ParseElementId(e) == Some(t.id);
    assert t.id in Ids(st.store);
    var found := FindFirst(st.store, t.id);
    assert found.Some? && st.store[found.value].id == t.id;
  }

  // ---------------------------------------------------------------------
  // Clear completed (`clearCompleted`)

  /** One delete request: the id and how the request ended. */
  datatype Request = Request(id: int, outcome: Outcome)

  /** The ids whose delete request succeeded. */
  function SucceededIds(reqs: seq<Request>): set<int> {
    set q | q in reqs && q.outcome == Succeeded :: q.id
  }

  lemma SucceededIdsCons(reqs: seq<Request>)
    requires |reqs| > 0
    ensures SucceededIds(reqs)
         == SucceededIds(reqs[1..]) + (if reqs[0].outcome == Succeeded then {reqs[0].id} else {})
  {
    assert forall q :: q in reqs <==> q == reqs[0] || q in reqs[1..];
  }

  /** The requests applied one after another. */
  function DeleteAll(st: State, reqs: seq<Request>): (r: State)
    ensures r.store == Select(st.store, (t: Task) => t.id !in SucceededIds(reqs))
    ensures SucceededIds(reqs) == {} ==> r == st
    ensures SucceededIds(reqs) != {} || Synced(st) ==> Synced(r)
    decreases |reqs|
  {
    if |reqs| == 0 then
      SelectAll(st.store, (t: Task) => t.id !in SucceededIds(reqs));
      st
    else
      var next := Delete(st, reqs[0].id, reqs[0].outcome);
      var r := DeleteAll(next, reqs[1..]);
      SucceededIdsCons(reqs);
      DeleteAllStep(st.store, reqs[0], SucceededIds(reqs[1..]), SucceededIds(reqs));
      r
  }

  /** One deletion followed by removing a set of ids is removing their union. */
  lemma DeleteAllStep(s: Store, q: Request, later: set<int>, all: set<int>)
    requires all == later + (if q.outcome == Succeeded then {q.id} else {})
    ensures Select(Delete(State(s, None), q.id, q.outcome).store, (t: Task) => t.id !in later)
         == Select(s, (t: Task) => t.id !in all)
  {
    if q.outcome == Succeeded {
      var notQ := (t: Task) => t.id != q.id;
      var notLater := (t: Task) => t.id !in later;
      assert RemoveId(s, q.id) == Select(s, notQ);
      SelectSelect(s, notQ, notLater);
      SelectAgree(s, (t: Task) => notQ(t) && notLater(t), (t: Task) => t.id !in all);
    } else {
      SelectAgree(s, (t: Task) => t.id !in later, (t: Task) => t.id !in all);
    }
  }

  /** The same requests completing in any order give the same state. */
  lemma DeleteAllOrderIrrelevant(st: State, reqs: seq<Request>, reordered: seq<Request>)
    requires multiset(reqs) == multiset(reordered)
    ensures DeleteAll(st, reqs) == DeleteAll(st, reordered)
  {
    assert forall q :: q in reqs <==> q in reordered by {
      forall q ensures q in reqs <==> q in reordered {
        assert q in reqs <==> q in multiset(reqs);
        assert q in reordered <==> q in multiset(reordered);
      }
    }
    assert SucceededIds(reqs) == SucceededIds(reordered);
  }

  /** The ids of the completed tasks. */
  function CompletedIds(s: Store): set<int> {
    set t | t in s && t.completed :: t.id
  }

  /** The requests `clearCompleted` fires: one per task completed at the time
      of the click, in store order; `outcome(k)` is how the `k`-th ended. */
  function ClearRequests(s: Store, outcome: nat -> Outcome): (reqs: seq<Request>)
    ensures |reqs| == |FilterTodo(s, "completed")|
    ensures forall k :: 0 <= k < |reqs| ==> reqs[k] == Request(FilterTodo(s, "completed")[k].id, outcome(k))
  {
    var done := FilterTodo(s, "completed");
    seq(|done|, k requires 0 <= k < |done| => Request(done[k].id, outcome(k)))
  }

  /** The requested tasks are exactly the completed ones. */
  lemma CompletedView(s: Store)
    ensures forall t :: t in FilterTodo(s, "completed") <==> t in s && t.completed
  {
    var done := FilterTodo(s, "completed");
    forall t ensures t in done <==> t in s && t.completed {
      assert t in done <==> t in multiset(done);
      assert t in s <==> t in multiset(s);
    }
  }

  /** Only completed tasks' ids are requested. */
  lemma ClearedIdsCompleted(s: Store, outcome: nat -> Outcome)
    ensures SucceededIds(ClearRequests(s, outcome)) <= CompletedIds(s)
  {
    var done := FilterTodo(s, "completed");
    var reqs := ClearRequests(s, outcome);
    CompletedView(s);
    forall q | q in reqs && q.outcome == Succeeded
      ensures q.id in CompletedIds(s)
    {
      var k :| 0 <= k < |reqs| && reqs[k] == q;
      assert done[k] in done;
    }
  }

  /** When every request succeeds, every completed task's id is removed. */
  lemma ClearedIdsAll(s: Store, outcome: nat -> Outcome)
    ensures (forall k: nat :: outcome(k) == Succeeded) ==>
      SucceededIds(ClearRequests(s, outcome)) == CompletedIds(s)
  {
    var done := FilterTodo(s, "completed");
    var reqs := ClearRequests(s, outcome);
    CompletedView(s);
    ClearedIdsCompleted(s, outcome);
    forall t | t in s && t.completed && (forall k: nat :: outcome(k) == Succeeded)
      ensures t.id in SucceededIds(reqs)
    {
      var k :| 0 <= k < |done| && done[k] == t;
      assert reqs[k] in reqs;
    }
  }

  /** `clearCompleted`: a delete for every completed task, applied as each
      one's request ends. Only tasks of the store remain; an incomplete task
      whose id no completed task shares always remains; when every request
      succeeds no completed task remains. */
  function ClearCompleted(st: State, outcome: nat -> Outcome): (r: State)
    ensures forall t :: t in r.store ==> t in st.store
    ensures forall t :: t in st.store && t.id !in CompletedIds(st.store) ==> t in r.store
    ensures (forall k: nat :: outcome(k) == Succeeded) ==> forall t :: t in r.store ==> !t.completed
    ensures r == st || Synced(r)
    ensures r.store == Select(st.store, (t: Task) => t.id !in SucceededIds(ClearRequests(st.store, outcome)))
    ensures SucceededIds(ClearRequests(st.store, outcome)) == {} ==> r == st
  {
    var reqs := ClearRequests(st.store, outcome);
    ClearedIdsCompleted(st.store, outcome);
    ClearedIdsAll(st.store, outcome);
    DeleteAll(st, reqs)
  }

  /** With unique ids, clearing with every request succeeding leaves exactly
      the active tasks, in order. */
  lemma ClearCompletedUniqueIds(st: State, outcome: nat -> Outcome)
    requires UniqueIds(st.store)
    requires forall k: nat :: outcome(k) == Succeeded
    ensures ClearCompleted(st, outcome).store == FilterTodo(st.store, "active")
  {
    var s := st.store;
    ClearedIdsAll(s, outcome);
    var gone := SucceededIds(ClearRequests(s, outcome));
    assert gone == CompletedIds(s);
    forall t | t in s
      ensures (t.id !in gone) == Shown("active", t)
    {
      if t.id in gone {
        var u :| u in s && u.completed && u.id == t.id;
        SameIdSameTask(s, t, u);
      }
    }
    SelectAgree(s, (t: Task) => t.id !in gone, (t: Task) => Shown("active", t));
    assert ClearCompleted(st, outcome).store == Select(s, (t: Task) => t.id !in gone);
  }

  /** A task sharing its id with a completed task is removed by a fully
      successful clear-completed, even when it is itself incomplete: deletion
      goes by id, not by record. */
  lemma ClearCompletedSharedId(st: State, outcome: nat -> Outcome, t: Task, u: Task)
    requires forall k: nat :: outcome(k) == Succeeded
    requires t in st.store && u in st.store && u.completed && t.id == u.id
    ensures t !in ClearCompleted(st, outcome).store
  {
    ClearedIdsAll(st.store, outcome);
    assert multiset(DeleteAll(st, ClearRequests(st.store, outcome)).store)[t] == 0;
  }

  /** A clear-completed whose requests all fail changes nothing. */
  lemma ClearCompletedAllFailed(st: State, outcome: nat -> Outcome)
    requires forall k: nat :: outcome(k) == Failed
    ensures ClearCompleted(st, outcome) == st
  {
    var reqs := ClearRequests(st.store, outcome);
    forall q | q in reqs
      ensures q.outcome == Failed
    {
      var i :| 0 <= i < |reqs| && reqs[i] == q;
    }
  }

  // ---------------------------------------------------------------------
  // Sessions

  /** What the user does, together with how the remote calls it causes end. */
  datatype Event =
    | Submit(title: string, id: int, outcome: Outcome)
    | Click(elementId: string, action: string, outcome: Outcome)
    | ChooseFilter(keyword: string)
    | ClearCompletedClick(outcomes: nat -> Outcome)

  /** The effect of one event on the state. Submitting always issues the
      create request, whatever the title's length: the length test of the
      submit handler reads the input element's `length`, which is undefined,
      and `undefined < 3` is false. Choosing a filter only re-renders. */
  function Step(st: State, e: Event): (r: State)
    ensures r == st || Synced(r)
    ensures e.ChooseFilter? ==> r == st
    ensures (e.Submit? || e.Click?) && e.outcome == Failed ==> r == st
  {
    match e
    case Submit(title, id, outcome) => Create(st, title, id, outcome)
    case Click(elementId, action, outcome) => HandleTodoAction(st, elementId, action, outcome)
    case ChooseFilter(_) => st
    case ClearCompletedClick(outcomes) => ClearCompleted(st, outcomes)
  }

  /** The events applied in order. Once anything has changed the mirror equals
      the store, and a synchronised state stays synchronised. */
  function Run(st: State, events: seq<Event>): (r: State)
    ensures Synced(st) ==> Synced(r)
    ensures r == st || Synced(r)
    decreases |events|
  {
    if |events| == 0 then st else Run(Step(st, events[0]), events[1..])
  }

  /** A whole session: startup, then the events. */
  function Session(mirror: Option<Store>, fetched: Option<Store>, events: seq<Event>): (r: State)
    ensures mirror.Some? || fetched.Some? ==> Synced(r)
    ensures Synced(r) || (r.store == InitialStore && r.mirror == None)
  {
    Run(Startup(mirror, fetched), events)
  }

  /** Every title, the empty one and those shorter than three characters
      included, is submitted and, once the request succeeds, stored in front:
      the length test never rejects. */
  lemma EveryTitleIsStored(st: State, title: string, id: int)
    ensures Step(st, Submit(title, id, Succeeded)).store == [Task(CreatorId, id, title, false)] + st.store
  {
  }

  /** An empty stored list is a stored list: it is used as it is and the list
      request is not consulted. */
  lemma EmptyMirrorIsPresent(fetched: Option<Store>)
    ensures Startup(Some([]), fetched) == State([], Some([]))
  {
  }

  /** Toggling the only task, incomplete, with a successful request completes
      it, relabels its button "Undo" and leaves "0 items left". */
  lemma ToggleScenario(id: int, title: string)
    ensures
      var before := Commit([Task(CreatorId, id, title, false)]);
      var after := HandleTodoAction(before, ElementId(id), "toggle", Succeeded);
      && after.store == [Task(CreatorId, id, title, true)]
      && RenderRow(after.store[0]).toggleLabel == "Undo"
      && UpdateTodoCount(after.store) == "0 items left"
  {
    var t := Task(CreatorId, id, title, false);
    var done := Task(CreatorId, id, title, true);
    ToggleOnlyTask(t);
    assert Flip(t) == done;
    CompletedOnlyTask(done);
  }

  /** The row and the count of a store whose only task is completed. */
  lemma CompletedOnlyTask(done: Task)
    requires done.completed
    ensures RenderRow(done).toggleLabel == "Undo"
    ensures UpdateTodoCount([done]) == "0 items left"
  {
    assert forall u :: u in [done] ==> u.completed;
  }

  lemma ToggleOnlyTask(t: Task)
    ensures HandleTodoAction(Commit([t]), ElementId(t.id), "toggle", Succeeded).store == [Flip(t)]
  {
    var before := Commit([t]);
    ClickOnRow(before, t, Succeeded);
    assert RenderRow(t).elementId == ElementId(t.id);
    assert Toggle(before, t.id, Succeeded).store == FlipFirst([t], t.id);
    FlipOnly(t);
  }
}
