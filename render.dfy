/**
 * The data side of `renderTodoList`: the rows it builds for the pending and
 * the completed region and the two counters it shows.
 */
module Render {
  import opened Dates
  import opened TodoList

  /**
   * One rendered row: the list index its checkbox and delete button act on,
   * the task text (also its tooltip), whether the checkbox is ticked and the
   * day the due-date cell shows.
   */
  datatype Row = Row(index: nat, text: string, checked: bool, dueLabel: Day)

  /** `todo.dueDate || getTodayDate()`: the record's due date, or today when it has none. */
  function DueLabel(t: Todo, today: Day): (d: Day)
    ensures t.dueDate.Some? ==> d == t.dueDate.value
    ensures t.dueDate.None? ==> d == today
  {
    t.dueDate.GetOr(today)
  }

  function RowOf(t: Todo, i: nat, today: Day): Row {
    Row(i, t.name, t.completed, DueLabel(t, today))
  }

  /**
   * The rows of the records whose `completed` flag is `done`, in list order,
   * each carrying its record's index.
   */
  function Group(s: seq<Todo>, done: bool, today: Day): (rows: seq<Row>)
    ensures |rows| <= |s|
    ensures forall k :: 0 <= k < |rows| ==>
      rows[k].index < |s| && s[rows[k].index].completed == done && rows[k] == RowOf(s[rows[k].index], rows[k].index, today)
    ensures forall k, l :: 0 <= k < l < |rows| ==> rows[k].index < rows[l].index
    decreases |s|
  {
    if s == [] then []
    else
      var n := |s| - 1;
      var rest := Group(s[..n], done, today);
      if s[n].completed == done then rest + [RowOf(s[n], n, today)] else rest
  }

  /** A group has one row per record of its kind. */
  lemma {:induction false} GroupSize(s: seq<Todo>, done: bool, today: Day)
    ensures |Group(s, done, today)| == Count(s, done)
    decreases |s|
  {
    if s != [] {
      GroupSize(s[..|s| - 1], done, today);
    }
  }

  /** Every record of the group's kind has a row. */
  lemma {:induction false} GroupComplete(s: seq<Todo>, done: bool, today: Day, i: nat)
    requires i < |s| && s[i].completed == done
    ensures exists k :: 0 <= k < |Group(s, done, today)| && Group(s, done, today)[k].index == i
    decreases |s|
  {
    var n := |s| - 1;
    var rows := Group(s, done, today);
    if i == n {
      assert rows[|rows| - 1].index == i;
    } else {
      var rest := Group(s[..n], done, today);
      GroupComplete(s[..n], done, today, i);
      var k :| 0 <= k < |rest| && rest[k].index == i;
      assert rows[k] == rest[k];
    }
  }

  /** The two regions together hold one row per record. */
  lemma GroupsPartition(s: seq<Todo>, today: Day)
    ensures |Group(s, false, today)| + |Group(s, true, today)| == |s|
  {
    GroupSize(s, false, today);
    GroupSize(s, true, today);
    CountPartition(s);
  }
}
