/**
 * The page's module-level `todoList` and the handlers that change it, as
 * one object that owns the list. Every handler ends by re-rendering and
 * saving; rendering is `Render`, saving is not part of this model.
 */
module Store {
  import opened Options
  import JsText
  import opened Dates
  import opened TodoList
  import opened Sorting
  import opened Render

  class TodoStore {
    var todos: seq<Todo>

    /**
     * `JSON.parse(localStorage.getItem("todoList")) || []`, given the list
     * the storage slot decodes to, or `None` when the slot is absent or decodes
     * to a falsy value (`null`, `false`, `0`, `""`).
     */
    constructor Load(stored: Option<seq<Todo>>)
      ensures todos == stored.GetOr([])
    {
      todos := stored.GetOr([]);
    }

    /**
     * The load-time backfill: every record without a truthy `createdAt` is
     * stamped. The `map` callback reads `Date.now()` afresh for each record
     * that lacks a truthy `createdAt`, so `clock[i]` is what that read returns
     * at record `i`; the readings of the other records are unused.
     */
    method BackfillCreatedAt(clock: seq<int>)
      requires |clock| == |todos|
      modifies this
      ensures |todos| == |old(todos)|
      ensures forall i :: 0 <= i < |todos| ==> todos[i] == Backfilled(old(todos)[i], clock[i])
      ensures (forall i :: 0 <= i < |clock| ==> clock[i] != 0) ==> forall i :: 0 <= i < |todos| ==> !MissingCreatedAt(todos[i])
    {
      var i := 0;
      while i < |todos|
        invariant 0 <= i <= |todos| == |old(todos)| == |clock|
        invariant forall k :: 0 <= k < i ==> todos[k] == Backfilled(old(todos)[k], clock[k])
        invariant forall k :: i <= k < |todos| ==> todos[k] == old(todos)[k]
      {
        if MissingCreatedAt(todos[i]) {
          todos := todos[i := todos[i].(createdAt := Some(clock[i]))];
        }
        i := i + 1;
      }
    }

    /**
     * The data `renderTodoList` puts on the page: the pending and the
     * completed rows in list order and the two counters it increments.
     */
    method RenderTodoList(today: Day) returns (pending: seq<Row>, completed: seq<Row>, pendingCount: nat, completedCount: nat)
      ensures pending == Group(todos, false, today) && completed == Group(todos, true, today)
      ensures pendingCount == |pending| == Count(todos, false)
      ensures completedCount == |completed| == Count(todos, true)
      ensures pendingCount + completedCount == |todos|
    {
      pending, completed, pendingCount, completedCount := [], [], 0, 0;
      var i := 0;
      while i < |todos|
        invariant 0 <= i <= |todos|
        invariant pending == Group(todos[..i], false, today) && completed == Group(todos[..i], true, today)
        invariant pendingCount == Count(todos[..i], false) && completedCount == Count(todos[..i], true)
      {
        var row := RowOf(todos[i], i, today);
        if todos[i].completed {
          completed := completed + [row];
          completedCount := completedCount + 1;
        } else {
          pending := pending + [row];
          pendingCount := pendingCount + 1;
        }
        assert todos[..i + 1][..i] == todos[..i];
        i := i + 1;
      }
      assert todos[..i] == todos;
      GroupSize(todos, false, today);
      GroupSize(todos, true, today);
      CountPartition(todos);
    }

    /**
     * `addTodo` with the typed name, the date input (`None` when empty),
     * today's day and the time `now`. `added` is false when the name is
     * whitespace only: the page then shows an alert and changes nothing.
     */
    method AddTodo(nameInput: string, dueInput: Option<Day>, today: Day, now: int) returns (added: bool)
      modifies this
      ensures added <==> !JsText.AllWhitespace(nameInput)
      ensures todos == AfterAdd(old(todos), nameInput, dueInput, today, now)
    {
      var name := JsText.Trim(nameInput);
      if name == [] {
        added := false;
        return;
      }
      var dueDate := if dueInput.Some? then dueInput.value else today;
      todos := todos + [Todo(name, Some(dueDate), false, Some(now))];
      added := true;
    }

    /** `toggleComplete(index)`; the page only passes an index of the list it just rendered (any other makes it throw). */
    method ToggleComplete(index: nat)
      requires index < |todos|
      modifies this
      ensures todos == Toggled(old(todos), index)
    {
      todos := todos[index := todos[index].(completed := !todos[index].completed)];
    }

    /** `deleteTodo(index)`: `splice(index, 1)`. */
    method DeleteTodo(index: int)
      modifies this
      ensures todos == Deleted(old(todos), index)
    {
      var k := SpliceStart(|todos|, index);
      if k < |todos| {
        todos := todos[..k] + todos[k + 1..];
      }
    }

    /** `clearAll`, where `confirmed` is the answer to the confirmation dialog (asked only when the list is not empty). */
    method ClearAll(confirmed: bool)
      modifies this
      ensures todos == AfterClear(old(todos), confirmed)
    {
      if |todos| == 0 {
        return;
      }
      if confirmed {
        todos := [];
      }
    }

    /**
     * `sortTodos(option)`: reorders the list in place with the comparator of
     * the chosen option. The result is sorted, a permutation of the list
     * before, and stable: records with equal keys keep their order, as the
     * language requires of `Array.prototype.sort`. A list already in order
     * is therefore left exactly as it was, and sorting twice gives the order
     * sorting once gave.
     */
    method SortTodos(option: string)
      modifies this
      ensures SortedBy(option, todos)
      ensures multiset(todos) == multiset(old(todos))
      ensures SameOrderPerKey(option, todos, old(todos))
      ensures SortedBy(option, old(todos)) ==> todos == old(todos)
    {
      var i := 0;
      while i < |todos|
        invariant 0 <= i <= |todos| == |old(todos)|
        invariant SortedPrefix(option, todos, i)
        invariant multiset(todos) == multiset(old(todos))
        invariant SameOrderPerKey(option, todos, old(todos))
      {
        InsertStart(option, todos, i);
        var j := i;
        while j > 0 && Compare(option, todos[j - 1], todos[j]) > 0
          invariant 0 <= j <= i < |todos| == |old(todos)|
          invariant Inserting(option, todos, i, j)
          invariant multiset(todos) == multiset(old(todos))
          invariant SameOrderPerKey(option, todos, old(todos))
        {
          InsertStep(option, todos, i, j);
          SwapKeepsOrderPerKey(option, todos, j);
          todos := SwapAdjacent(todos, j);
          j := j - 1;
        }
        InsertDone(option, todos, i, j);
        i := i + 1;
      }
      if SortedBy(option, old(todos)) {
        SortedStableUnique(option, todos, old(todos));
      }
    }
  }
}
