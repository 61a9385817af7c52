/**
 * The two orders `sortTodos` can put the list in: by due date, with a
 * missing date treated as the latest date a JavaScript `Date` can hold, or
 * by creation time, with a missing timestamp treated as 0.
 */
module Sorting {
  import opened Options
  import opened Dates
  import opened TodoList

  /** The day of JavaScript's largest time value, 8.64e15 ms after the epoch (+275760-09-13). */
  const LatestDay: Day := Day(275760, 9, 13)

  /**
   * Month 1 to 12, day 1 to 31, before the year in which JavaScript's dates
   * end. Every day a date value can name before year 275760 is valid, but
   * so are a few fields that name none, such as February 30 and 31.
   */
  predicate ValidDay(d: Day) {
    1 <= d.month <= 12 && 1 <= d.day <= 31 && d.year < LatestDay.year
  }

  /** A number that grows with the calendar order of valid days. */
  function DayNumber(d: Day): int {
    d.year * 372 + (d.month - 1) * 31 + (d.day - 1)
  }

  /** The key of a record that has no due date. */
  const FarFuture: int := DayNumber(LatestDay)

  predicate CalendarBefore(a: Day, b: Day) {
    || a.year < b.year
    || (a.year == b.year && a.month < b.month)
    || (a.year == b.year && a.month == b.month && a.day < b.day)
  }

  /** Comparing day numbers is comparing calendar days. */
  lemma DayNumberOrder(a: Day, b: Day)
    requires ValidDay(a) && ValidDay(b)
    ensures DayNumber(a) < DayNumber(b) <==> CalendarBefore(a, b)
    ensures DayNumber(a) == DayNumber(b) <==> a == b
  {
  }

  /** Every valid day sorts before a missing date. */
  lemma ValidDayBeforeFarFuture(d: Day)
    requires ValidDay(d)
    ensures DayNumber(d) < FarFuture
  {
  }

  /** The "date" comparator's key: `a.dueDate ? new Date(a.dueDate) : new Date(8640000000000000)`. */
  function DueKey(t: Todo): int {
    match t.dueDate
    case None => FarFuture
    case Some(d) => DayNumber(d)
  }

  /** The default comparator's key: `a.createdAt || 0`. */
  function CreatedKey(t: Todo): int {
    match t.createdAt
    case None => 0
    case Some(c) => c
  }

  /** The key the chosen sort option compares: "date" sorts by due date, any other option by creation time. */
  function SortKey(option: string, t: Todo): int {
    if option == "date" then DueKey(t) else CreatedKey(t)
  }

  /** The comparator handed to `sort`: negative, zero or positive as `a` belongs before, level with or after `b`. */
  function Compare(option: string, a: Todo, b: Todo): (c: int)
    ensures c <= 0 <==> SortKey(option, a) <= SortKey(option, b)
    ensures c == 0 <==> SortKey(option, a) == SortKey(option, b)
  {
    SortKey(option, a) - SortKey(option, b)
  }

  /** `s` is in non-decreasing key order. */
  ghost predicate SortedBy(option: string, s: seq<Todo>) {
    forall i, j :: 0 <= i < j < |s| ==> SortKey(option, s[i]) <= SortKey(option, s[j])
  }

  /** Sorted by date, the records without a due date come after every record with one. */
  lemma SortedByDateUndatedLast(s: seq<Todo>)
    requires SortedBy("date", s)
    requires forall i :: 0 <= i < |s| && s[i].dueDate.Some? ==> ValidDay(s[i].dueDate.value)
    ensures forall i, j :: 0 <= i < j < |s| && s[i].dueDate.None? ==> s[j].dueDate.None?
  {
    forall i, j | 0 <= i < j < |s| && s[i].dueDate.None?
      ensures s[j].dueDate.None?
    {
      assert SortKey("date", s[i]) <= SortKey("date", s[j]);
      if s[j].dueDate.Some? {
        ValidDayBeforeFarFuture(s[j].dueDate.value);
      }
    }
  }

  /** The records of `s` whose key is `k`, in list order. */
  function WithKey(option: string, s: seq<Todo>, k: int): (r: seq<Todo>)
    ensures |r| <= |s|
    ensures forall t :: t in r ==> t in s && SortKey(option, t) == k
    decreases |s|
  {
    if s == [] then []
    else WithKey(option, s[..|s| - 1], k) + (if SortKey(option, s[|s| - 1]) == k then [s[|s| - 1]] else [])
  }

  /**
   * `t` is a stable reordering of `s`: for every key, the records with that
   * key come in the same order in both. This is what a stable `sort`
   * keeps.
   */
  ghost predicate SameOrderPerKey(option: string, s: seq<Todo>, t: seq<Todo>) {
    forall k :: WithKey(option, s, k) == WithKey(option, t, k)
  }

  lemma {:induction false} WithKeyAppend(option: string, a: seq<Todo>, b: seq<Todo>, k: int)
    ensures WithKey(option, a + b, k) == WithKey(option, a, k) + WithKey(option, b, k)
    decreases |b|
  {
    if b == [] {
      assert a + b == a;
    } else {
      var b', last := b[..|b| - 1], b[|b| - 1];
      var tail := if SortKey(option, last) == k then [last] else [];
      assert (a + b)[..|a + b| - 1] == a + b' && (a + b)[|a + b| - 1] == last;
      assert WithKey(option, b, k) == WithKey(option, b', k) + tail;
      assert WithKey(option, a + b, k) == WithKey(option, a + b', k) + tail;
      WithKeyAppend(option, a, b', k);
      assert WithKey(option, a + b, k) == WithKey(option, a, k) + (WithKey(option, b', k) + tail);
    }
  }

  /** Two records with different keys, in either order, contribute the same records to every key. */
  lemma WithKeyPair(option: string, x: Todo, y: Todo, k: int)
    requires SortKey(option, x) != SortKey(option, y)
    ensures WithKey(option, [x, y], k) == WithKey(option, [y, x], k)
  {
    assert [x, y][..1] == [x] && [y, x][..1] == [y];
    assert [x][..0] == [] && [y][..0] == [];
  }

  /** Exchanging two neighbours with different keys keeps the order within every key. */
  lemma SwapKeepsOrderPerKey(option: string, s: seq<Todo>, j: nat)
    requires 0 < j < |s| && SortKey(option, s[j - 1]) != SortKey(option, s[j])
    ensures SameOrderPerKey(option, SwapAdjacent(s, j), s)
  {
    var r := SwapAdjacent(s, j);
    var a, x, y, b := s[..j - 1], s[j - 1], s[j], s[j + 1..];
    assert s == (a + [x, y]) + b;
    assert r == (a + [y, x]) + b;
    forall k
      ensures WithKey(option, r, k) == WithKey(option, s, k)
    {
      WithKeyAppend(option, a + [x, y], b, k);
      WithKeyAppend(option, a, [x, y], k);
      WithKeyAppend(option, a + [y, x], b, k);
      WithKeyAppend(option, a, [y, x], k);
      WithKeyPair(option, x, y, k);
    }
  }

  /** In a sorted list no record keys above the last one. */
  lemma SortedLastIsGreatest(option: string, s: seq<Todo>, t: Todo)
    requires SortedBy(option, s) && t in s
    ensures SortKey(option, t) <= SortKey(option, s[|s| - 1])
  {
    var i :| 0 <= i < |s| && s[i] == t;
    if i < |s| - 1 {
      assert SortKey(option, s[i]) <= SortKey(option, s[|s| - 1]);
    }
  }

  /** A non-empty list has a record with the key of its last record. */
  lemma LastKeyPresent(option: string, s: seq<Todo>)
    requires s != []
    ensures s[|s| - 1] in WithKey(option, s, SortKey(option, s[|s| - 1]))
  {
  }

  /** Sorted lists with the same order per key end with the same record, and agree per key without it. */
  lemma SortedSameLast(option: string, s: seq<Todo>, t: seq<Todo>)
    requires s != [] && t != []
    requires SortedBy(option, s) && SortedBy(option, t) && SameOrderPerKey(option, s, t)
    ensures s[|s| - 1] == t[|t| - 1]
    ensures SameOrderPerKey(option, s[..|s| - 1], t[..|t| - 1])
  {
    var s', x := s[..|s| - 1], s[|s| - 1];
    var t', y := t[..|t| - 1], t[|t| - 1];
    var kx, ky := SortKey(option, x), SortKey(option, y);
    LastKeyPresent(option, s);
    LastKeyPresent(option, t);
    assert WithKey(option, s, ky) == WithKey(option, t, ky);
    assert WithKey(option, s, kx) == WithKey(option, t, kx);
    SortedLastIsGreatest(option, t, x);
    SortedLastIsGreatest(option, s, y);
    var a, b := WithKey(option, s', kx), WithKey(option, t', kx);
    assert a + [x] == b + [y];
    assert a == (a + [x])[..|a|] && b == (b + [y])[..|b|];
    forall k
      ensures WithKey(option, s', k) == WithKey(option, t', k)
    {
      assert WithKey(option, s, k) == WithKey(option, t, k);
      if k != kx {
        assert WithKey(option, s, k) == WithKey(option, s', k);
        assert WithKey(option, t, k) == WithKey(option, t', k);
      }
    }
  }

  /**
   * Two sorted lists that keep the records of every key in the same order
   * are the same list: a stable sort's result is fully determined, so the
   * insertion sort of `Store` and any other stable sort with this
   * comparator agree.
   */
  lemma {:induction false} SortedStableUnique(option: string, s: seq<Todo>, t: seq<Todo>)
    requires SortedBy(option, s) && SortedBy(option, t) && SameOrderPerKey(option, s, t)
    ensures s == t
    decreases |s| + |t|
  {
    if s != [] && t != [] {
      SortedSameLast(option, s, t);
      SortedStableUnique(option, s[..|s| - 1], t[..|t| - 1]);
      assert s == s[..|s| - 1] + [s[|s| - 1]] && t == t[..|t| - 1] + [t[|t| - 1]];
    } else if s != [] {
      LastKeyPresent(option, s);
    } else if t != [] {
      LastKeyPresent(option, t);
    }
  }

  /** The first `i` records are in key order. */
  ghost predicate SortedPrefix(option: string, s: seq<Todo>, i: nat)
    requires i <= |s|
  {
    forall p, q :: 0 <= p < q < i ==> SortKey(option, s[p]) <= SortKey(option, s[q])
  }

  /**
   * Insertion of the record now at `j` into the sorted records `0..i`: all
   * of them but the one at `j` are in order, and it keys below all that
   * follow it up to `i`.
   */
  ghost predicate Inserting(option: string, s: seq<Todo>, i: nat, j: nat)
    requires j <= i < |s|
  {
    && (forall p, q :: 0 <= p < q <= i && p != j && q != j ==> SortKey(option, s[p]) <= SortKey(option, s[q]))
    && (forall q :: j < q <= i ==> SortKey(option, s[j]) < SortKey(option, s[q]))
  }

  lemma InsertStart(option: string, s: seq<Todo>, i: nat)
    requires i < |s| && SortedPrefix(option, s, i)
    ensures Inserting(option, s, i, i)
  {
  }

  /** Moving the inserted record one place left keeps the insertion state. */
  lemma InsertStep(option: string, s: seq<Todo>, i: nat, j: nat)
    requires 0 < j <= i < |s| && Inserting(option, s, i, j)
    requires SortKey(option, s[j - 1]) > SortKey(option, s[j])
    ensures Inserting(option, SwapAdjacent(s, j), i, j - 1)
  {
    var r := SwapAdjacent(s, j);
    forall p, q | 0 <= p < q <= i && p != j - 1 && q != j - 1
      ensures SortKey(option, r[p]) <= SortKey(option, r[q])
    {
      var p' := if p == j then j - 1 else p;
      var q' := if q == j then j - 1 else q;
      assert r[p] == s[p'] && r[q] == s[q'];
    }
  }

  /** Once the inserted record keys no lower than its left neighbour, the records `0..i` are in order. */
  lemma InsertDone(option: string, s: seq<Todo>, i: nat, j: nat)
    requires j <= i < |s| && Inserting(option, s, i, j)
    requires j == 0 || SortKey(option, s[j - 1]) <= SortKey(option, s[j])
    ensures SortedPrefix(option, s, i + 1)
  {
  }

  /** `s` with the neighbours at `j - 1` and `j` exchanged. */
  function SwapAdjacent(s: seq<Todo>, j: nat): (r: seq<Todo>)
    requires 0 < j < |s|
    ensures |r| == |s| && r[j - 1] == s[j] && r[j] == s[j - 1]
    ensures forall k :: 0 <= k < |s| && k != j - 1 && k != j ==> r[k] == s[k]
    ensures multiset(r) == multiset(s)
  {
    s[j - 1 := s[j]][j := s[j - 1]]
  }
}
