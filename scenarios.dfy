/**
 * Uses of the store in the order the page's own controls drive it; each
 * assertion is what the contracts above let a caller conclude.
 */
module Scenarios {
  import opened Options
  import opened Dates
  import opened JsText
  import opened TodoList
  import opened Sorting
  import opened Store

  /** Add "Buy milk" with no date, tick it, then delete it. */
  method AddToggleDelete(today: Day, now: int) {
    var store := new TodoStore.Load(None);
    TrimKeepsTrimmed("Buy milk");
    var added := store.AddTodo("Buy milk", None, today, now);
    assert added;
    assert store.todos == [Todo("Buy milk", Some(today), false, Some(now))];
    store.ToggleComplete(0);
    assert store.todos[0].completed;
    var pending, completed, pendingCount, completedCount := store.RenderTodoList(today);
    assert pendingCount == 0 && completedCount == 1;
    store.DeleteTodo(0);
    assert store.todos == [];
  }

  /** A name of spaces only is refused and the list stays as it was. */
  method BlankNameRefused(today: Day, now: int) {
    var store := new TodoStore.Load(Some([Todo("Walk", None, true, Some(1))]));
    var added := store.AddTodo("  \t ", Some(today), today, now);
    assert !added;
    assert store.todos == [Todo("Walk", None, true, Some(1))];
  }

  /** Add "A" due 2025-01-01, then "B" due 2024-06-01. */
  method AddAThenB(today: Day, now: int) returns (store: TodoStore)
    ensures fresh(store)
    ensures store.todos == [Todo("A", Some(Day(2025, 1, 1)), false, Some(now)), Todo("B", Some(Day(2024, 6, 1)), false, Some(now))]
  {
    store := new TodoStore.Load(None);
    TrimKeepsTrimmed("A");
    TrimKeepsTrimmed("B");
    var addedA := store.AddTodo("A", Some(Day(2025, 1, 1)), today, now);
    var addedB := store.AddTodo("B", Some(Day(2024, 6, 1)), today, now);
  }

  /** "A" and "B" added in that order and sorted by date come out B before A. */
  method SortByDate(today: Day, now: int) {
    var a := Todo("A", Some(Day(2025, 1, 1)), false, Some(now));
    var b := Todo("B", Some(Day(2024, 6, 1)), false, Some(now));
    var store := AddAThenB(today, now);
    store.SortTodos("date");
    SortedPair("date", store.todos, a, b);
    assert store.todos == [b, a];
  }

  /** The stable sort of two records with different keys, out of order, exchanges them. */
  lemma SortedPair(option: string, s: seq<Todo>, x: Todo, y: Todo)
    requires SortedBy(option, s) && SameOrderPerKey(option, s, [x, y])
    requires SortKey(option, y) < SortKey(option, x)
    ensures s == [y, x]
  {
    SwapKeepsOrderPerKey(option, [x, y], 1);
    assert SwapAdjacent([x, y], 1) == [y, x];
    SortedStableUnique(option, s, [y, x]);
  }

  /** A record saved without `createdAt` is stamped with the load time and sorts before a later addition. */
  method BackfillThenDefaultSort(today: Day, loadTime: int, later: int)
    requires 0 < loadTime < later
  {
    var legacy := Todo("Old", None, false, None);
    var store := new TodoStore.Load(Some([legacy]));
    store.BackfillCreatedAt([loadTime]);
    assert store.todos == [legacy.(createdAt := Some(loadTime))];
    TrimKeepsTrimmed("New");
    var added := store.AddTodo("New", None, today, later);
    var stamped := [legacy.(createdAt := Some(loadTime)), Todo("New", Some(today), false, Some(later))];
    assert store.todos == stamped;
    assert SortedBy("default", stamped);
    store.SortTodos("default");
    assert store.todos == stamped;
  }

  /** Two saved records without `createdAt`, stamped by successive clock reads, keep their order under the default sort; a record that already had one is not restamped. */
  method BackfillTwoLegacy(first: int, second: int)
    requires 0 < first < second
  {
    var x, y, z := Todo("X", None, false, None), Todo("Y", None, true, Some(0)), Todo("Z", None, false, Some(first + second));
    var store := new TodoStore.Load(Some([x, y, z]));
    store.BackfillCreatedAt([first, second, first]);
    var stamped := [x.(createdAt := Some(first)), y.(createdAt := Some(second)), z];
    assert store.todos == stamped;
    assert SortedBy("default", stamped);
    store.SortTodos("default");
    assert store.todos == stamped;
  }
}
