/**
 * The task list as a value: the records the `App` component keeps in its `todos`
 * state, and the pure `map`/`filter`/`Math.max` expressions its handlers evaluate.
 */
module TodoList {
  import opened Text

  /** One task record `{id, title, completed}`. */
  datatype Todo = Todo(id: int, title: string, completed: bool)

  /** `todos.map((todo) => todo.id)` */
  function Ids(todos: seq<Todo>): (ids: seq<int>)
    ensures |ids| == |todos|
    ensures forall i :: 0 <= i < |todos| ==> ids[i] == todos[i].id
  {
    if todos == [] then [] else [todos[0].id] + Ids(todos[1..])
  }

  predicate HasId(todos: seq<Todo>, id: int)
  {
    exists i :: 0 <= i < |todos| && todos[i].id == id
  }

  /** Every id in the list is below `n` (the invariant the `nextId` counter keeps). */
  predicate IdsBelow(todos: seq<Todo>, n: int)
  {
    forall i :: 0 <= i < |todos| ==> todos[i].id < n
  }

  /** No two records share an id. */
  predicate UniqueIds(todos: seq<Todo>)
  {
    forall i, j :: 0 <= i < j < |todos| ==> todos[i].id != todos[j].id
  }

  /** `Math.max(0, ...ids)`: the largest id, or 0 when there is none or all are negative. */
  function MaxId(ids: seq<int>): (m: int)
    ensures 0 <= m
    ensures forall i :: 0 <= i < |ids| ==> ids[i] <= m
    ensures m == 0 || m in ids
  {
    if ids == [] then 0
    else
      var rest := MaxId(ids[1..]);
      if ids[0] > rest then ids[0] else rest
  }

  /**
   * The counter set at load time, `Math.max(0, ...ids) + 1`: at least 1, above every
   * loaded id, and the least such value (it is 1 or one more than some loaded id).
   */
  function InitialNextId(todos: seq<Todo>): (n: int)
    ensures 1 <= n
    ensures IdsBelow(todos, n)
    ensures n == 1 || HasId(todos, n - 1)
    ensures todos == [] ==> n == 1
  {
    var ids := Ids(todos);
    var m := MaxId(ids);
    assert m != 0 ==> exists i :: 0 <= i < |ids| && ids[i] == m;
    m + 1
  }

  /**
   * The record literal of the submit handler: it carries the counter's value, is not
   * completed, and its title is the trimmed label, which is empty exactly when the
   * label is all whitespace and otherwise has non-whitespace ends.
   */
  function NewTodo(id: int, pendingLabel: string): (t: Todo)
    ensures t.id == id && !t.completed
    ensures t.title == [] <==> AllSpace(pendingLabel)
    ensures t.title != [] ==> !IsSpace(t.title[0]) && !IsSpace(t.title[|t.title| - 1])
  {
    TrimEmptyIff(pendingLabel);
    Todo(id, Trim(pendingLabel), false)
  }

  /**
   * The `todos.map(...)` shared by the two update handlers: every record whose id is
   * `id` becomes `replacement`, every other record is kept.
   */
  function ReplaceById(todos: seq<Todo>, id: int, replacement: Todo): (r: seq<Todo>)
    ensures |r| == |todos|
    ensures forall i :: 0 <= i < |todos| && todos[i].id != id ==> r[i] == todos[i]
    ensures forall i :: 0 <= i < |todos| && todos[i].id == id ==> r[i] == replacement
  {
    if todos == [] then []
    else [if todos[0].id == id then replacement else todos[0]] + ReplaceById(todos[1..], id, replacement)
  }

  /**
   * `handleTodoCompletedChange`: records with the id of `todoToChange` become a copy of
   * `todoToChange` (not of the list's record) with `completed` set; ids never move.
   */
  function SetCompleted(todos: seq<Todo>, todoToChange: Todo, newCompleted: bool): (r: seq<Todo>)
    ensures |r| == |todos| && Ids(r) == Ids(todos)
    ensures forall i :: 0 <= i < |todos| && todos[i].id != todoToChange.id ==> r[i] == todos[i]
    ensures forall i :: 0 <= i < |todos| && todos[i].id == todoToChange.id ==>
      r[i].id == todoToChange.id && r[i].title == todoToChange.title && r[i].completed == newCompleted
  {
    ReplaceById(todos, todoToChange.id, todoToChange.(completed := newCompleted))
  }

  /**
   * `handleTodoTextChange`: records with the id of `todoToChange` become a copy of
   * `todoToChange` whose title is `newText` exactly as typed (no trim).
   */
  function SetTitle(todos: seq<Todo>, todoToChange: Todo, newText: string): (r: seq<Todo>)
    ensures |r| == |todos| && Ids(r) == Ids(todos)
    ensures forall i :: 0 <= i < |todos| && todos[i].id != todoToChange.id ==> r[i] == todos[i]
    ensures forall i :: 0 <= i < |todos| && todos[i].id == todoToChange.id ==>
      r[i].id == todoToChange.id && r[i].title == newText && r[i].completed == todoToChange.completed
  {
    ReplaceById(todos, todoToChange.id, todoToChange.(title := newText))
  }

  /** `todos.filter((todo) => todo.id !== id)`: keeps exactly the records with another id. */
  function RemoveById(todos: seq<Todo>, id: int): (r: seq<Todo>)
    ensures |r| <= |todos|
    ensures forall t :: t in r <==> t in todos && t.id != id
  {
    if todos == [] then []
    else
      var rest := RemoveById(todos[1..], id);
      assert todos == [todos[0]] + todos[1..];
      if todos[0].id != id then [todos[0]] + rest else rest
  }

  /** Number of records carrying `id`. */
  function CountId(todos: seq<Todo>, id: int): nat
  {
    if todos == [] then 0 else (if todos[0].id == id then 1 else 0) + CountId(todos[1..], id)
  }

  // ----- Properties of the update handlers -----

  /** With an id that is not in the list, both update handlers return the list unchanged. */
  lemma UpdateAbsentIsIdentity(todos: seq<Todo>, todoToChange: Todo, newCompleted: bool, newText: string)
    requires !HasId(todos, todoToChange.id)
    ensures SetCompleted(todos, todoToChange, newCompleted) == todos
    ensures SetTitle(todos, todoToChange, newText) == todos
  {
    var a := SetCompleted(todos, todoToChange, newCompleted);
    var b := SetTitle(todos, todoToChange, newText);
    assert forall i :: 0 <= i < |todos| ==> a[i] == todos[i] && b[i] == todos[i];
  }

  /** Replacing by id twice with the same arguments is replacing once. */
  lemma ReplaceByIdIdempotent(todos: seq<Todo>, id: int, replacement: Todo)
    ensures ReplaceById(ReplaceById(todos, id, replacement), id, replacement) == ReplaceById(todos, id, replacement)
  {
    var once := ReplaceById(todos, id, replacement);
    var twice := ReplaceById(once, id, replacement);
    assert forall i :: 0 <= i < |todos| ==> twice[i] == once[i];
  }

  /** Toggling completion twice with the same arguments equals toggling it once. */
  lemma SetCompletedIdempotent(todos: seq<Todo>, todoToChange: Todo, newCompleted: bool)
    ensures var once := SetCompleted(todos, todoToChange, newCompleted);
      SetCompleted(once, todoToChange, newCompleted) == once
  {
    ReplaceByIdIdempotent(todos, todoToChange.id, todoToChange.(completed := newCompleted));
  }

  /** Editing a title twice with the same text equals editing it once. */
  lemma SetTitleIdempotent(todos: seq<Todo>, todoToChange: Todo, newText: string)
    ensures var once := SetTitle(todos, todoToChange, newText);
      SetTitle(once, todoToChange, newText) == once
  {
    ReplaceByIdIdempotent(todos, todoToChange.id, todoToChange.(title := newText));
  }

  /** Id-preserving updates keep both list invariants. */
  lemma SameIdsKeepInvariants(before: seq<Todo>, after: seq<Todo>, n: int)
    requires Ids(after) == Ids(before)
    ensures IdsBelow(before, n) ==> IdsBelow(after, n)
    ensures UniqueIds(before) ==> UniqueIds(after)
  {
    assert forall i :: 0 <= i < |before| ==> after[i].id == Ids(after)[i] == before[i].id;
  }

  // ----- Properties of delete -----

  /** The filter distributes over concatenation, so relative order is kept. */
  lemma {:induction false} RemoveByIdAppend(a: seq<Todo>, b: seq<Todo>, id: int)
    ensures RemoveById(a + b, id) == RemoveById(a, id) + RemoveById(b, id)
  {
    if a == [] {
      assert a + b == b;
    } else {
      assert (a + b)[0] == a[0];
      assert (a + b)[1..] == a[1..] + b;
      RemoveByIdAppend(a[1..], b, id);
    }
  }

  /** Each record with another id keeps its multiplicity; records with the id are all gone. */
  lemma {:induction false} RemoveByIdMultiplicity(todos: seq<Todo>, id: int, t: Todo)
    ensures multiset(RemoveById(todos, id))[t] == if t.id == id then 0 else multiset(todos)[t]
  {
    if todos != [] {
      RemoveByIdMultiplicity(todos[1..], id, t);
      assert todos == [todos[0]] + todos[1..];
    }
  }

  /** Deleting an id that is not in the list leaves the list unchanged. */
  lemma {:induction false} RemoveByIdAbsent(todos: seq<Todo>, id: int)
    requires !HasId(todos, id)
    ensures RemoveById(todos, id) == todos
  {
    if todos != [] {
      assert todos[0].id != id;
      assert !HasId(todos[1..], id) by {
        forall i | 0 <= i < |todos[1..]| ensures todos[1..][i].id != id {
          assert todos[1..][i] == todos[i + 1];
        }
      }
      RemoveByIdAbsent(todos[1..], id);
      assert todos == [todos[0]] + todos[1..];
    }
  }

  /** Every record with the id goes: the result is shorter by the number of matches. */
  lemma {:induction false} RemoveByIdLength(todos: seq<Todo>, id: int)
    ensures |RemoveById(todos, id)| == |todos| - CountId(todos, id)
  {
    if todos != [] {
      RemoveByIdLength(todos[1..], id);
    }
  }

  /**
   * Under unique ids, deleting the id of the record at `k` removes exactly that one
   * record and keeps the others in order.
   */
  lemma RemoveByIdUnique(todos: seq<Todo>, k: int)
    requires UniqueIds(todos) && 0 <= k < |todos|
    ensures RemoveById(todos, todos[k].id) == todos[..k] + todos[k + 1..]
  {
    OthersLackId(todos, k);
    assert todos == todos[..k] + [todos[k]] + todos[k + 1..];
    RemoveOnlyMatch(todos[..k], todos[k], todos[k + 1..]);
  }

  /** A record whose id occurs nowhere else is the only one the filter drops. */
  lemma RemoveOnlyMatch(pre: seq<Todo>, x: Todo, post: seq<Todo>)
    requires !HasId(pre, x.id) && !HasId(post, x.id)
    ensures RemoveById(pre + [x] + post, x.id) == pre + post
  {
    var id := x.id;
    RemoveByIdAbsent(pre, id);
    RemoveByIdAbsent(post, id);
    assert RemoveById([x], id) == [] by {
      assert [x][1..] == [];
    }
    RemoveByIdAppend([x], post, id);
    RemoveByIdAppend(pre, [x] + post, id);
    assert pre + [x] + post == pre + ([x] + post);
  }

  /** Under unique ids, the id of the record at `k` occurs neither before nor after it. */
  lemma OthersLackId(todos: seq<Todo>, k: int)
    requires UniqueIds(todos) && 0 <= k < |todos|
    ensures !HasId(todos[..k], todos[k].id) && !HasId(todos[k + 1..], todos[k].id)
  {
    var pre, post := todos[..k], todos[k + 1..];
    forall i | 0 <= i < |pre| ensures pre[i].id != todos[k].id {
      assert pre[i] == todos[i];
    }
    forall i | 0 <= i < |post| ensures post[i].id != todos[k].id {
      assert post[i] == todos[k + 1 + i];
    }
  }

  /** Deleting keeps every id below the counter and keeps ids unique. */
  lemma {:induction false} RemoveByIdKeepsInvariants(todos: seq<Todo>, id: int, n: int)
    ensures IdsBelow(todos, n) ==> IdsBelow(RemoveById(todos, id), n)
    ensures UniqueIds(todos) ==> UniqueIds(RemoveById(todos, id))
  {
    var r := RemoveById(todos, id);
    forall i | 0 <= i < |r| ensures r[i] in todos {
      assert r[i] in r;
    }
    if todos != [] && UniqueIds(todos) {
      var rest := RemoveById(todos[1..], id);
      RemoveByIdKeepsInvariants(todos[1..], id, n);
      if todos[0].id != id {
        forall i | 0 <= i < |rest| ensures rest[i].id != todos[0].id {
          assert rest[i] in rest;
          var j :| 0 <= j < |todos[1..]| && todos[1..][j] == rest[i];
          assert todos[1 + j] == rest[i];
        }
        assert r == [todos[0]] + rest;
      }
    }
  }

  // ----- Properties of create -----

  /**
   * Prepending a record that takes the counter's value keeps "every id below the
   * counter" once the counter is incremented; the new id was absent, so unique ids stay unique.
   */
  lemma CreateKeepsInvariants(todos: seq<Todo>, n: int, pendingLabel: string)
    requires IdsBelow(todos, n)
    ensures !HasId(todos, n)
    ensures IdsBelow([NewTodo(n, pendingLabel)] + todos, n + 1)
    ensures UniqueIds(todos) ==> UniqueIds([NewTodo(n, pendingLabel)] + todos)
  {
    var r := [NewTodo(n, pendingLabel)] + todos;
    assert forall i :: 1 <= i < |r| ==> r[i] == todos[i - 1];
  }
}
