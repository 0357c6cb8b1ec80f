/**
 * The todo page's event handlers as state transitions. The page's state is
 * the rendered list, the value of the filter select and the two
 * local-storage entries; each handler changes them in place.
 */
module App {
  import opened TodoModel

  class TodoPage {
    /** The rendered todos, in list order. */
    var todos: seq<Todo>
    /** The value currently selected in the filter select. */
    var filter: string
    /** The `todoContent` and `todoCompleteStatus` local-storage entries. */
    var storage: Storage

    /** Storage holds exactly the serialization of the rendered list. */
    ghost predicate Synced()
      reads this
    {
      storage == Serialize(todos)
    }

    /** The page as it is before `DOMContentLoaded`: nothing rendered yet,
        storage as an earlier visit left it. */
    constructor (stored: Storage, selected: string)
      ensures todos == [] && filter == selected && storage == stored
    {
      todos := [];
      filter := selected;
      storage := stored;
    }

    /** Runs the filter over every rendered todo (`toggleTodoVisibility`). */
    method ApplyFilter(filterValue: string)
      modifies this`todos
      ensures todos == Filtered(old(todos), filterValue)
    {
      var i := 0;
      while i < |todos|
        invariant 0 <= i <= |todos| == |old(todos)|
        invariant forall j :: 0 <= j < i ==> todos[j] == Show(filterValue, old(todos)[j])
        invariant forall j :: i <= j < |todos| ==> todos[j] == old(todos)[j]
      {
        todos := todos[i := Show(filterValue, todos[i])];
        i := i + 1;
      }
    }

    /** Overwrites both storage entries from the rendered list
        (`updateTodoLocalStorage`). */
    method Persist()
      modifies this`storage
      ensures Synced()
    {
      var content: seq<string> := [];
      var status: seq<int> := [];
      var i := 0;
      while i < |todos|
        invariant 0 <= i <= |todos|
        invariant content == Texts(todos[..i])
        invariant status == Codes(todos[..i])
      {
        assert todos[..i + 1][..i] == todos[..i];
        content := content + [todos[i].text];
        status := status + [if todos[i].complete then 1 else 0];
        i := i + 1;
      }
      assert todos[..i] == todos;
      storage := Storage(Some(content), Some(status));
    }

    /** Renders a new todo at the end of the list, runs the current filter and
        persists (`addTodo`); returns the new todo's position. */
    method AddTodo(text: string) returns (index: nat)
      modifies this`todos, this`storage
      ensures index == |old(todos)| && |todos| == index + 1
      ensures todos == Filtered(old(todos) + [NewTodo(text)], filter)
      ensures Synced()
    {
      index := |todos|;
      todos := todos + [NewTodo(text)];
      ApplyFilter(filter);
      Persist();
    }

    /** The add button's handler (`addTodoFromEvent`): only the empty string
        is turned away; whitespace is added like any other text. */
    method AddTodoFromEvent(input: string)
      modifies this`todos, this`storage
      ensures input == "" ==> todos == old(todos) && storage == old(storage)
      ensures input != "" ==> todos == Filtered(old(todos) + [NewTodo(input)], filter) && Synced()
      ensures input != "" ==> |todos| == |old(todos)| + 1 && todos[|todos| - 1].text == input
    {
      if input == "" {
        return;
      }
      var _ := AddTodo(input);
    }

    /** The complete button's branch of `removeOrCheck`: toggles the todo's
        `complete` class, runs the current filter and persists. */
    method ToggleComplete(i: nat)
      requires i < |todos|
      modifies this`todos, this`storage
      ensures todos == Filtered(Flipped(old(todos), i), filter)
      ensures Synced()
    {
      todos := Flipped(todos, i);
      ApplyFilter(filter);
      Persist();
    }

    /** The remove button's branch of `removeOrCheck`: the todo gets the
        `fall` class and stays rendered and stored until its transition ends. */
    method MarkForRemoval(i: nat)
      requires i < |todos|
      modifies this`todos
      ensures todos == old(todos)[i := old(todos)[i].(falling := true)]
      ensures Serialize(todos) == Serialize(old(todos))
      ensures old(Synced()) ==> Synced()
      ensures old(AgreesWithFilter(todos, filter)) ==> AgreesWithFilter(todos, filter)
    {
      todos := todos[i := todos[i].(falling := true)];
      assert Texts(todos) == Texts(old(todos));
      assert Codes(todos) == Codes(old(todos));
    }

    /** The `transitionend` listener of a falling todo: removes it from the
        list and persists. */
    method CommitRemoval(i: nat)
      requires i < |todos| && todos[i].falling
      modifies this`todos, this`storage
      ensures todos == old(todos)[..i] + old(todos)[i + 1..]
      ensures Synced()
      ensures old(AgreesWithFilter(todos, filter)) ==> AgreesWithFilter(todos, filter)
    {
      todos := todos[..i] + todos[i + 1..];
      Persist();
    }

    /** The filter select's handler (`filterTodo`). */
    method FilterTodo(selected: string)
      modifies this`filter, this`todos
      ensures filter == selected && todos == Filtered(old(todos), selected)
      ensures storage == old(storage)
      ensures AgreesWithFilter(todos, filter)
      ensures old(Synced()) ==> Synced()
    {
      filter := selected;
      ApplyFilter(selected);
      SameEntriesSameStorage(todos, old(todos));
    }

    /** The callback `readTodos` runs for stored text `index`: adds it as a
        new todo, then marks it complete and persists again if its status is
        1. Reports whether the status lookup threw, as it does when the
        status array is absent. */
    method ReadOne(value: string, index: nat, status: Option<seq<int>>) returns (threw: bool)
      modifies this`todos, this`storage
      ensures threw == status.None?
      ensures todos == RoundEnd(old(todos), Todo(value, Marked(status, index), true, false), filter)
      ensures Synced()
    {
      var last := AddTodo(value);
      if status.None? {
        // `status[index]` on null throws
        return true;
      }
      threw := false;
      if index < |status.value| && status.value[index] == 1 {
        MarkComplete(last);
      }
    }

    /** Sets the `complete` class of a todo just loaded and persists, without
        running the filter. */
    method MarkComplete(i: nat)
      requires i < |todos|
      modifies this`todos, this`storage
      ensures todos == Flipped(old(todos), i) && Synced()
    {
      todos := Flipped(todos, i);
      Persist();
    }

    /** The `DOMContentLoaded` handler (`readTodos`): renders one todo per
        stored text, in order, complete iff its stored status is 1. */
    method ReadTodos()
      modifies this`todos, this`storage
      ensures todos == Loaded(old(todos), old(storage), filter)
      ensures LoadCount(old(storage)) == 0 ==> storage == old(storage)
      ensures LoadCount(old(storage)) > 0 ==> Synced()
    {
      var stored := storage;
      ghost var start := todos;
      // without `todoContent` the name is undeclared and the handler throws
      // before the loop starts
      if stored.todoContent.Some? {
        var texts := stored.todoContent.value;
        var status := stored.todoCompleteStatus;
        var k := 0;
        var threw := false;
        while k < |texts| && !threw
          invariant k <= LoadCount(stored)
          invariant threw <==> status.None? && k == 1
          invariant todos == LoadedAfter(start, stored, filter, k)
          invariant k == 0 ==> storage == stored
          invariant k > 0 ==> Synced()
        {
          threw := ReadOne(texts[k], k, status);
          k := k + 1;
        }
        assert k == LoadCount(stored);
      }
      LoadedAfterAll(start, stored, filter);
    }
  }

  /** A short session: an empty page, two todos added, the first completed. */
  method Session() {
    var page := new TodoPage(Storage(None, None), AllFilter);
    page.ReadTodos();
    assert page.todos == [];
    page.AddTodoFromEvent("Buy milk");
    page.AddTodoFromEvent("");
    page.AddTodoFromEvent("Walk dog");
    page.ToggleComplete(0);
    assert Texts(page.todos) == ["Buy milk", "Walk dog"];
    assert Codes(page.todos) == [1, 0];
    assert page.todos == [Todo("Buy milk", true, true, false), Todo("Walk dog", false, true, false)];
    assert page.storage == Storage(Some(["Buy milk", "Walk dog"]), Some([1, 0]));
  }
}
