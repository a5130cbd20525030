/**
 * The state the `App` component owns: the loading gate around the task list, the
 * module-level `nextId` counter and the pending label of the entry form, with the
 * handlers that replace them.
 */
module App {
  import opened Text
  import opened TodoList

  /** `todos` is `null` until the initial load publishes a list. */
  datatype LoadState = Loading | Ready(todos: seq<Todo>)

  /**
   * `disabled={pendingTodoLabel.trim().length === 0}`: the submit button is enabled
   * exactly when the label is not all whitespace.
   */
  predicate SubmitEnabled(pendingLabel: string)
    ensures SubmitEnabled(pendingLabel) <==> !AllSpace(pendingLabel)
  {
    TrimEmptyIff(pendingLabel);
    |Trim(pendingLabel)| != 0
  }

  /**
   * Enabled iff the label holds a non-whitespace character; then the created title
   * is non-empty and neither starts nor ends with whitespace.
   */
  lemma SubmitEnabledMeaning(pendingLabel: string)
    ensures SubmitEnabled(pendingLabel) <==> exists i :: 0 <= i < |pendingLabel| && !IsSpace(pendingLabel[i])
    ensures SubmitEnabled(pendingLabel) ==>
      var title := Trim(pendingLabel);
      title != [] && !IsSpace(title[0]) && !IsSpace(title[|title| - 1])
  {
    TrimEmptyIff(pendingLabel);
  }

  class TodoApp {
    var pendingLabel: string
    var state: LoadState
    /** Meaningless (`undefined` in the component) until the load has run. */
    var nextId: int

    /** Once loaded, the counter is positive and above every id in the list. */
    ghost predicate Valid()
      reads this
    {
      state.Ready? ==> 1 <= nextId && IdsBelow(state.todos, nextId)
    }

    constructor ()
      ensures Valid()
      ensures state == Loading && pendingLabel == ""
    {
      pendingLabel := "";
      state := Loading;
      nextId := 0;
    }

    /**
     * End of `loadInitialTodos`: the counter becomes one more than the largest loaded
     * id (at least 1) and the loaded list is published as is.
     */
    method Load(initialTodos: seq<Todo>)
      modifies this
      ensures Valid()
      ensures state == Ready(initialTodos)
      ensures nextId == InitialNextId(initialTodos)
      ensures pendingLabel == old(pendingLabel)
    {
      var maxId := MaxId(Ids(initialTodos));
      nextId := maxId + 1;
      state := Ready(initialTodos);
    }

    /** `handlePendingTodoLabelChange`: the input's value replaces the pending label. */
    method ChangePendingLabel(value: string)
      requires Valid()
      modifies this
      ensures Valid()
      ensures pendingLabel == value
      ensures state == old(state) && nextId == old(nextId)
    {
      pendingLabel := value;
    }

    /**
     * `handlePendingTodoLabelSubmit`: clears the label, prepends a record carrying the
     * counter's value and the trimmed label, and post-increments the counter. Like the
     * handler, it does not re-check that the trimmed label is non-empty.
     */
    method Submit()
      requires Valid() && state.Ready?
      modifies this
      ensures Valid() && state.Ready?
      ensures state.todos == [Todo(old(nextId), Trim(old(pendingLabel)), false)] + old(state.todos)
      ensures SubmitEnabled(old(pendingLabel)) ==> state.todos[0].title != []
      ensures nextId == old(nextId) + 1
      ensures pendingLabel == ""
      ensures !HasId(old(state.todos), old(nextId))
      ensures UniqueIds(old(state.todos)) ==> UniqueIds(state.todos)
    {
      var submitted := pendingLabel;
      pendingLabel := "";
      var newTodo := NewTodo(nextId, submitted);
      CreateKeepsInvariants(state.todos, nextId, submitted);
      nextId := nextId + 1;
      state := Ready([newTodo] + state.todos);
    }

    /** `handleTodoCompletedChange`: records with the id of `todoToChange` become its copy with `completed` set. */
    method ChangeCompleted(todoToChange: Todo, newCompleted: bool)
      requires Valid() && state.Ready?
      modifies this
      ensures Valid() && state.Ready?
      ensures state.todos == SetCompleted(old(state.todos), todoToChange, newCompleted)
      ensures nextId == old(nextId) && pendingLabel == old(pendingLabel)
      ensures UniqueIds(old(state.todos)) ==> UniqueIds(state.todos)
    {
      var newTodos := SetCompleted(state.todos, todoToChange, newCompleted);
      SameIdsKeepInvariants(state.todos, newTodos, nextId);
      state := Ready(newTodos);
    }

    /** `handleTodoTextChange`: records with the id of `todoToChange` become its copy with the new title. */
    method ChangeText(todoToChange: Todo, newText: string)
      requires Valid() && state.Ready?
      modifies this
      ensures Valid() && state.Ready?
      ensures state.todos == SetTitle(old(state.todos), todoToChange, newText)
      ensures nextId == old(nextId) && pendingLabel == old(pendingLabel)
      ensures UniqueIds(old(state.todos)) ==> UniqueIds(state.todos)
    {
      var newTodos := SetTitle(state.todos, todoToChange, newText);
      SameIdsKeepInvariants(state.todos, newTodos, nextId);
      state := Ready(newTodos);
    }

    /** `handleTodoDelete`: every record with the id of `todoToDelete` is filtered out. */
    method Delete(todoToDelete: Todo)
      requires Valid() && state.Ready?
      modifies this
      ensures Valid() && state.Ready?
      ensures state.todos == RemoveById(old(state.todos), todoToDelete.id)
      ensures nextId == old(nextId) && pendingLabel == old(pendingLabel)
      ensures UniqueIds(old(state.todos)) ==> UniqueIds(state.todos)
    {
      var newTodos := RemoveById(state.todos, todoToDelete.id);
      RemoveByIdKeepsInvariants(state.todos, todoToDelete.id, nextId);
      state := Ready(newTodos);
    }
  }

  /** Loading `[{id: 5}]` sets the counter to 6; loading `[{id: 3}, {id: 1}]` sets it to 4. */
  method LoadScenario()
  {
    var app := new TodoApp();
    app.Load([Todo(5, "X", false)]);
    assert Ids([Todo(5, "X", false)]) == [5];
    assert app.nextId == 6;
    app.Load([Todo(3, "A", false), Todo(1, "B", true)]);
    assert Ids([Todo(3, "A", false), Todo(1, "B", true)]) == [3, 1];
    assert app.nextId == 4;
  }

  /** With counter 6 and list `[{id: 5}]`, submitting "Y" prepends record 6; deleting it restores the list. */
  method SubmitThenDeleteScenario(app: TodoApp)
    requires app.state == Ready([Todo(5, "X", false)]) && app.nextId == 6
    modifies app
  {
    assert Trim("Y") == "Y" by {
      var none: string := [];
      TrimIsMiddle(none, "Y", none);
      assert none + "Y" + none == "Y";
    }
    app.ChangePendingLabel("Y");
    app.Submit();
    assert app.state.todos == [Todo(6, "Y", false), Todo(5, "X", false)];
    app.Delete(Todo(6, "", true));
    assert app.state.todos == [Todo(5, "X", false)];
    assert app.nextId == 7;
  }
}
