/**
 * The task records and what each list operation of the page does to the
 * list, as functions of the list before it. The class in `Store` performs
 * these operations in place and is proved to agree with them.
 */
module TodoList {
  import opened Options
  import opened Dates
  import opened JsText

  /**
   * One task. `dueDate` is the day its `yyyy-mm-dd` value names, or `None`
   * when the value is empty or absent (the two are equally falsy to the
   * page). `createdAt` is a millisecond timestamp, `None` when a record
   * saved by an older version lacks it.
   */
  datatype Todo = Todo(name: string, dueDate: Option<Day>, completed: bool, createdAt: Option<int>)

  /** `!item.createdAt`: the field is absent or the falsy number 0. */
  predicate MissingCreatedAt(t: Todo) {
    t.createdAt == None || t.createdAt == Some(0)
  }

  /** One record after the load-time backfill with the current time `now`. */
  function Backfilled(t: Todo, now: int): (r: Todo)
    ensures r.name == t.name && r.dueDate == t.dueDate && r.completed == t.completed
    ensures !MissingCreatedAt(t) ==> r == t
    ensures MissingCreatedAt(t) ==> r.createdAt == Some(now)
    ensures now != 0 ==> !MissingCreatedAt(r)
  {
    if MissingCreatedAt(t) then t.(createdAt := Some(now)) else t
  }

  /** The number of records whose `completed` flag equals `done`. */
  function Count(s: seq<Todo>, done: bool): (n: nat)
    ensures n <= |s|
    decreases |s|
  {
    if s == [] then 0 else Count(s[..|s| - 1], done) + (if s[|s| - 1].completed == done then 1 else 0)
  }

  lemma {:induction false} CountAppend(a: seq<Todo>, b: seq<Todo>, done: bool)
    ensures Count(a + b, done) == Count(a, done) + Count(b, done)
    decreases |b|
  {
    if b == [] {
      assert a + b == a;
    } else {
      assert (a + b)[..|a + b| - 1] == a + b[..|b| - 1];
      CountAppend(a, b[..|b| - 1], done);
    }
  }

  lemma CountOne(t: Todo, done: bool)
    ensures Count([t], done) == if t.completed == done then 1 else 0
  {
    assert [t][..0] == [];
  }

  /** Every record is either pending or completed. */
  lemma {:induction false} CountPartition(s: seq<Todo>)
    ensures Count(s, false) + Count(s, true) == |s|
    decreases |s|
  {
    if s != [] {
      CountPartition(s[..|s| - 1]);
    }
  }

  /** Splitting `s` around position `i` splits the count. */
  lemma CountAround(s: seq<Todo>, i: nat, done: bool)
    requires i < |s|
    ensures Count(s, done) == Count(s[..i], done) + (if s[i].completed == done then 1 else 0) + Count(s[i + 1..], done)
  {
    assert s == s[..i] + [s[i]] + s[i + 1..];
    CountAppend(s[..i] + [s[i]], s[i + 1..], done);
    CountAppend(s[..i], [s[i]], done);
    CountOne(s[i], done);
  }

  /** The list after `addTodo` with the typed name, the date input (`None` when empty), today's day and the time `now`. */
  function AfterAdd(s: seq<Todo>, nameInput: string, dueInput: Option<Day>, today: Day, now: int): (r: seq<Todo>)
    ensures AllWhitespace(nameInput) ==> r == s
    ensures !AllWhitespace(nameInput) ==>
      && |r| == |s| + 1 && r[..|s|] == s
      && r[|s|] == Todo(Trim(nameInput), Some(dueInput.GetOr(today)), false, Some(now))
    ensures Count(r, true) == Count(s, true)
    ensures Count(r, false) == Count(s, false) + (if AllWhitespace(nameInput) then 0 else 1)
  {
    var name := Trim(nameInput);
    if name == [] then s
    else
      var t := Todo(name, Some(dueInput.GetOr(today)), false, Some(now));
      assert (s + [t])[..|s|] == s;
      s + [t]
  }

  /** The list after `toggleComplete(i)`. */
  function Toggled(s: seq<Todo>, i: nat): (r: seq<Todo>)
    requires i < |s|
    ensures |r| == |s|
    ensures r[i].completed == !s[i].completed && r[i].(completed := s[i].completed) == s[i]
    ensures forall j :: 0 <= j < |s| && j != i ==> r[j] == s[j]
  {
    s[i := s[i].(completed := !s[i].completed)]
  }

  /** Toggling the same record twice restores the list. */
  lemma ToggleTwice(s: seq<Todo>, i: nat)
    requires i < |s|
    ensures Toggled(Toggled(s, i), i) == s
  {
  }

  /** Toggling moves exactly one record from one group to the other. */
  lemma ToggleCount(s: seq<Todo>, i: nat, done: bool)
    requires i < |s|
    ensures Count(Toggled(s, i), done) as int == Count(s, done) as int + (if s[i].completed == done then -1 else 1)
  {
    var r := Toggled(s, i);
    CountAround(s, i, done);
    CountAround(r, i, done);
    assert r[..i] == s[..i] && r[i + 1..] == s[i + 1..];
  }

  /** Where `splice(index, 1)` starts on a list of length `len`: a negative index counts from the end, and neither end is overrun. */
  function SpliceStart(len: nat, index: int): (k: nat)
    ensures k <= len
  {
    if index < 0 then (if len + index < 0 then 0 else len + index)
    else if index > len then len
    else index
  }

  /**
   * The list after `deleteTodo(index)`. The record at the splice start is
   * removed and every later record moves down one place; an index past the
   * end removes nothing.
   */
  function Deleted(s: seq<Todo>, index: int): (r: seq<Todo>)
    ensures 0 <= index <= |s| ==> SpliceStart(|s|, index) == index
    ensures -|s| <= index < 0 ==> SpliceStart(|s|, index) == |s| + index
    ensures var k := SpliceStart(|s|, index);
      if k < |s| then
        && |r| == |s| - 1
        && (forall j :: 0 <= j < k ==> r[j] == s[j])
        && (forall j :: k <= j < |r| ==> r[j] == s[j + 1])
        && multiset(r) + multiset{s[k]} == multiset(s)
      else r == s
  {
    var k := SpliceStart(|s|, index);
    if k < |s| then
      assert s == s[..k] + [s[k]] + s[k + 1..];
      s[..k] + s[k + 1..]
    else s
  }

  /** Deleting a record takes it out of its group's count and leaves the other count alone. */
  lemma DeleteCount(s: seq<Todo>, i: nat, done: bool)
    requires i < |s|
    ensures Count(Deleted(s, i), done) == Count(s, done) - (if s[i].completed == done then 1 else 0)
  {
    CountAround(s, i, done);
    CountAppend(s[..i], s[i + 1..], done);
  }

  /** The list after `clearAll` when the confirmation dialog is answered with `confirmed`; on an empty list nothing is asked. */
  function AfterClear(s: seq<Todo>, confirmed: bool): (r: seq<Todo>)
    ensures r == [] <==> s == [] || confirmed
    ensures r != [] ==> r == s
  {
    if s == [] then s else if confirmed then [] else s
  }
}
