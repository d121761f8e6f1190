/** The task records and the pure list operations the todo application applies
    to its in-memory store (`todoState` in app.js). */
module Tasks {
  import opened Options

  /** One todo record `{userId, id, title, completed}`. */
  datatype Task = Task(userId: int, id: int, title: string, completed: bool)

  /** The store: an ordered list, newest first; display order is list order. */
  type Store = seq<Task>

  /** The owner every created task carries. */
  const CreatorId := 1

  /** `a` can be obtained from `b` by deleting elements: relative order is kept. */
  predicate IsSubsequence<T(==)>(a: seq<T>, b: seq<T>)
    decreases |b|
  {
    && |a| <= |b|
    && (|a| == 0
        || (a[0] == b[0] && IsSubsequence(a[1..], b[1..]))
        || IsSubsequence(a, b[1..]))
  }

  /** `Array.prototype.filter`: the elements that satisfy `keep`, in order. */
  function Select(s: Store, keep: Task -> bool): (r: Store)
    ensures IsSubsequence(r, s)
    ensures forall t :: multiset(r)[t] == if keep(t) then multiset(s)[t] else 0
    ensures forall t :: t in r <==> t in s && keep(t)
  {
    if |s| == 0 then []
    else
      assert s == [s[0]] + s[1..];
      var tail := Select(s[1..], keep);
      if keep(s[0]) then
        assert ([s[0]] + tail)[1..] == tail;
        [s[0]] + tail
      else tail
  }

  /** Two selections agree when their tests agree on the elements present. */
  lemma {:induction false} SelectAgree(s: Store, p: Task -> bool, q: Task -> bool)
    requires forall t :: t in s ==> p(t) == q(t)
    ensures Select(s, p) == Select(s, q)
    decreases |s|
  {
    if |s| > 0 {
      assert forall t :: t in s[1..] ==> t in s;
      SelectAgree(s[1..], p, q);
    }
  }

  /** Filtering twice is filtering once by both tests. */
  lemma {:induction false} SelectSelect(s: Store, p: Task -> bool, q: Task -> bool)
    ensures Select(Select(s, p), q) == Select(s, (t: Task) => p(t) && q(t))
    decreases |s|
  {
    if |s| > 0 {
      SelectSelect(s[1..], p, q);
      if p(s[0]) {
        var tail := Select(s[1..], p);
        assert Select(s, p) == [s[0]] + tail;
        assert ([s[0]] + tail)[1..] == tail;
      }
    }
  }

  /** A test every element passes keeps the whole list. */
  lemma {:induction false} SelectAll(s: Store, keep: Task -> bool)
    requires forall t :: t in s ==> keep(t)
    ensures Select(s, keep) == s
    decreases |s|
  {
    if |s| > 0 {
      assert forall t :: t in s[1..] ==> t in s;
      SelectAll(s[1..], keep);
      assert keep(s[0]);
      assert Select(s, keep) == [s[0]] + Select(s[1..], keep);
      assert s == [s[0]] + s[1..];
    }
  }

  /** The ids present in a store. */
  function Ids(s: Store): set<int> {
    set t | t in s :: t.id
  }

  /** No id occurs twice. */
  predicate UniqueIds(s: Store) {
    forall i, j :: 0 <= i < j < |s| ==> s[i].id != s[j].id
  }

  /** In a store with unique ids, an id names one task. */
  lemma SameIdSameTask(s: Store, t: Task, u: Task)
    requires UniqueIds(s) && t in s && u in s && t.id == u.id
    ensures t == u
  {
    var i :| 0 <= i < |s| && s[i] == t;
    var j :| 0 <= j < |s| && s[j] == u;
    assert !(i < j) && !(j < i);
  }

  // ---------------------------------------------------------------------
  // Filter (`filterTodo`)

  /** Whether a task is shown under a filter keyword: `"active"` shows the
      incomplete ones, `"completed"` the completed ones, anything else all. */
  predicate Shown(keyword: string, t: Task) {
    if keyword == "active" then !t.completed
    else if keyword == "completed" then t.completed
    else true
  }

  /** The tasks shown under a filter keyword, in store order. */
  function FilterTodo(s: Store, keyword: string): (r: Store)
    ensures IsSubsequence(r, s)
    ensures keyword == "active" ==>
      forall t :: multiset(r)[t] == if t.completed then 0 else multiset(s)[t]
    ensures keyword == "completed" ==>
      forall t :: multiset(r)[t] == if t.completed then multiset(s)[t] else 0
    ensures keyword != "active" && keyword != "completed" ==> r == s
  {
    if keyword != "active" && keyword != "completed" then
      SelectAll(s, (t: Task) => Shown(keyword, t));
      Select(s, (t: Task) => Shown(keyword, t))
    else
      Select(s, (t: Task) => Shown(keyword, t))
  }

  /** The active and the completed views split the store: every task is in
      exactly one of them. */
  lemma FilterPartition(s: Store)
    ensures multiset(FilterTodo(s, "active")) + multiset(FilterTodo(s, "completed")) == multiset(s)
    ensures |FilterTodo(s, "active")| + |FilterTodo(s, "completed")| == |s|
  {
    var a := FilterTodo(s, "active");
    var c := FilterTodo(s, "completed");
    assert multiset(a) + multiset(c) == multiset(s) by {
      forall t ensures (multiset(a) + multiset(c))[t] == multiset(s)[t] {
      }
    }
    assert |multiset(a) + multiset(c)| == |multiset(s)|;
  }

  /** Applying the same filter again changes nothing. */
  lemma FilterIdempotent(s: Store, keyword: string)
    ensures FilterTodo(FilterTodo(s, keyword), keyword) == FilterTodo(s, keyword)
  {
    var r := FilterTodo(s, keyword);
    SelectAll(r, (t: Task) => Shown(keyword, t));
  }

  // ---------------------------------------------------------------------
  // Count (`updateTodoCount`)

  /** The number of incomplete tasks. */
  function CountActive(s: Store): (n: nat)
    ensures n <= |s|
    ensures n == |s| - |FilterTodo(s, "completed")|
    ensures n == 0 <==> forall t :: t in s ==> t.completed
  {
    SelectAgree(s, (t: Task) => !t.completed, (t: Task) => Shown("active", t));
    FilterPartition(s);
    |Select(s, (t: Task) => !t.completed)|
  }

  // ---------------------------------------------------------------------
  // Delete (`deleteTodo`)

  /** The store with every task carrying `id` removed. */
  function RemoveId(s: Store, id: int): (r: Store)
    ensures IsSubsequence(r, s)
    ensures forall t :: multiset(r)[t] == if t.id == id then 0 else multiset(s)[t]
    ensures Ids(r) == Ids(s) - {id}
  {
    Select(s, (t: Task) => t.id != id)
  }

  /** Removals by id commute. */
  lemma RemoveIdCommutes(s: Store, a: int, b: int)
    ensures RemoveId(RemoveId(s, a), b) == RemoveId(RemoveId(s, b), a)
  {
    var notA := (t: Task) => t.id != a;
    var notB := (t: Task) => t.id != b;
    assert RemoveId(s, a) == Select(s, notA);
    assert RemoveId(s, b) == Select(s, notB);
    assert RemoveId(Select(s, notA), b) == Select(Select(s, notA), notB);
    assert RemoveId(Select(s, notB), a) == Select(Select(s, notB), notA);
    SelectSelect(s, notA, notB);
    SelectSelect(s, notB, notA);
    SelectAgree(s, (t: Task) => notA(t) && notB(t), (t: Task) => notB(t) && notA(t));
  }

  /** Removing an id that is not present leaves the store as it was. */
  lemma RemoveAbsentId(s: Store, id: int)
    requires id !in Ids(s)
    ensures RemoveId(s, id) == s
  {
    SelectAll(s, (t: Task) => t.id != id);
  }

  // ---------------------------------------------------------------------
  // Create (`createNewTodoIte`)

  /** The record a submission creates. */
  function NewTask(id: int, title: string): Task {
    Task(CreatorId, id, title, false)
  }

  /** The store after a created task is put in front (`unshift`). */
  function Prepend(s: Store, t: Task): (r: Store)
    ensures |r| == |s| + 1 && r[0] == t && r[1..] == s
  {
    [t] + s
  }

  /** Deleting a freshly created task by its id undoes the creation when the
      id was new. */
  lemma RemovePrepended(s: Store, id: int, title: string)
    ensures RemoveId(Prepend(s, NewTask(id, title)), id) == RemoveId(s, id)
    ensures id !in Ids(s) ==> RemoveId(Prepend(s, NewTask(id, title)), id) == s
  {
    var r := Prepend(s, NewTask(id, title));
    assert r[1..] == s;
    if id !in Ids(s) {
      RemoveAbsentId(s, id);
    }
  }

  // ---------------------------------------------------------------------
  // Lookup (`todoState.find`) and toggle (`toggleTodoStatus`)

  /** `i` is the first position holding `id`. */
  predicate IsFirst(s: Store, i: nat, id: int)
    requires i < |s|
  {
    s[i].id == id && forall j :: 0 <= j < i ==> s[j].id != id
  }

  /** The position of the first task carrying `id`, as `find` returns it. */
  function FindFirst(s: Store, id: int): (r: Option<nat>)
    ensures r.Some? ==> r.value < |s| && IsFirst(s, r.value, id)
    ensures r.None? <==> id !in Ids(s)
  {
    if |s| == 0 then None
    else if s[0].id == id then Some(0)
    else
      match FindFirst(s[1..], id)
      case None =>
        assert forall t :: t in s ==> t == s[0] || t in s[1..];
        None
      case Some(k) =>
        assert s[k + 1] == s[1..][k];
        Some(k + 1)
  }

  /** The task with its completion flag inverted. */
  function Flip(t: Task): Task {
    t.(completed := !t.completed)
  }

  /** The store after the first task carrying `id` has its flag inverted; the
      store is unchanged when no task carries it. */
  function FlipFirst(s: Store, id: int): (r: Store)
    ensures |r| == |s|
    ensures forall i :: 0 <= i < |s| ==>
      && r[i].id == s[i].id && r[i].userId == s[i].userId && r[i].title == s[i].title
      && (r[i].completed != s[i].completed <==> IsFirst(s, i, id))
  {
    match FindFirst(s, id)
    case None => s
    case Some(i) =>
      assert forall j :: 0 <= j < |s| && j != i ==> !IsFirst(s, j, id);
      s[i := Flip(s[i])]
  }

  /** Toggling the id of a store's only task flips that task. */
  lemma FlipOnly(t: Task)
    ensures FlipFirst([t], t.id) == [Flip(t)]
  {
    assert IsFirst([t], 0, t.id);
  }

  /** Toggling the same id twice restores the store. */
  lemma FlipFirstTwice(s: Store, id: int)
    ensures FlipFirst(FlipFirst(s, id), id) == s
  {
    var r := FlipFirst(s, id);
    var rr := FlipFirst(r, id);
    assert forall i :: 0 <= i < |s| ==> (IsFirst(r, i, id) <==> IsFirst(s, i, id));
    assert forall i :: 0 <= i < |s| ==> rr[i] == s[i];
  }
}
