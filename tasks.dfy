/**
 * Shared entity types of the to-do application and the sequence helpers the
 * derived views are built from.
 *
 * Time is abstract: an `Instant` is a point on the time line (milliseconds
 * since the epoch, as `Date.getTime()` gives it) and a `Day` is the key of a
 * local calendar day. Which day an instant falls on is a parameter
 * `dayOf: Instant -> Day` of every view that needs it, so that "same day",
 * "today" and "tomorrow" are comparisons of days while "past", "overdue" and
 * "after" are comparisons of instants.
 */
module Tasks {

  type Instant = int
  type Day = int

  datatype Option<T> = None | Some(value: T)

  /**
   * The `priority` column: typed as "low" | "medium" | "high", while the views
   * still handle any other text that arrives (`Unknown`).
   */
  datatype Priority = Low | Medium | High | Unknown(text: OtherPriorityText)

  /** Any priority text other than the three known names. */
  type OtherPriorityText = s: string | s != "low" && s != "medium" && s != "high" witness ""

  /** The `priority` column's text, read as a `Priority`. */
  function PriorityOf(text: string): (p: Priority)
    ensures p == High <==> text == "high"
    ensures p == Medium <==> text == "medium"
    ensures p == Low <==> text == "low"
    ensures p.Unknown? ==> p.text == text
  {
    if text == "high" then High
    else if text == "medium" then Medium
    else if text == "low" then Low
    else Unknown(text)
  }

  /** A row of the `todos` table, as the views receive it. */
  datatype Todo = Todo(
    id: string,
    title: string,
    description: string,
    completed: bool,
    priority: Priority,
    due: Option<Instant>,     // due_date, null when absent
    categoryId: Option<string>
  )

  /** A day assignment is lawful when later instants never fall on earlier days. */
  ghost predicate Monotone(dayOf: Instant -> Day) {
    forall s, t :: s <= t ==> dayOf(s) <= dayOf(t)
  }

  /** `Array.prototype.filter`: the elements satisfying `p`, in their original order. */
  function Filter<T(!new)>(s: seq<T>, p: T -> bool): (r: seq<T>)
    ensures |r| <= |s|
    ensures forall x :: x in r <==> x in s && p(x)
  {
    if s == [] then []
    else if p(s[0]) then [s[0]] + Filter(s[1..], p)
    else Filter(s[1..], p)
  }

  /** Each element is kept as many times as it occurs when it passes, and dropped otherwise. */
  lemma {:induction false} FilterMultiset<T(!new)>(s: seq<T>, p: T -> bool)
    ensures forall x :: multiset(Filter(s, p))[x] == if p(x) then multiset(s)[x] else 0
  {
    if s != [] {
      FilterMultiset(s[1..], p);
      assert s == [s[0]] + s[1..];
    }
  }

  /** The positions of `s` whose element passes `p`. */
  ghost function PassingIndices<T>(s: seq<T>, p: T -> bool): set<int> {
    set i | 0 <= i < |s| && p(s[i])
  }

  /** The length of a filter is the number of positions whose element passes. */
  lemma {:induction false} FilterCount<T(!new)>(s: seq<T>, p: T -> bool)
    ensures |Filter(s, p)| == |PassingIndices(s, p)|
  {
    if s != [] {
      var n := |s| - 1;
      var init := s[..n];
      assert |Filter(s, p)| == |Filter(init, p)| + (if p(s[n]) then 1 else 0) by {
        assert s == init + [s[n]];
        FilterConcat(init, [s[n]], p);
        assert [s[n]][1..] == [];
      }
      FilterCount(init, p);
      PassingIndicesSnoc(s, p);
    }
  }

  /** The passing positions of `s` are those of its front and, when its last element passes, the last one. */
  lemma PassingIndicesSnoc<T>(s: seq<T>, p: T -> bool)
    requires s != []
    ensures var n := |s| - 1;
      |PassingIndices(s, p)| == |PassingIndices(s[..n], p)| + (if p(s[n]) then 1 else 0)
  {
    var n := |s| - 1;
    var before := PassingIndices(s[..n], p);
    var all := PassingIndices(s, p);
    var last: set<int> := if p(s[n]) then {n} else {};
    forall i | i in all ensures i in before + last {
      if i < n {
        assert s[..n][i] == s[i];
      }
    }
    assert all == before + last;
    assert n !in before;
  }

  /** Filtering twice is filtering once by both conditions. */
  lemma {:induction false} FilterFilter<T(!new)>(s: seq<T>, p: T -> bool, q: T -> bool, both: T -> bool)
    requires forall x :: both(x) == (p(x) && q(x))
    ensures Filter(Filter(s, p), q) == Filter(s, both)
  {
    if s != [] {
      FilterFilter(s[1..], p, q, both);
      if p(s[0]) {
        assert ([s[0]] + Filter(s[1..], p))[1..] == Filter(s[1..], p);
      }
    }
  }

  /** The filter is empty exactly when no element passes. */
  lemma FilterEmpty<T(!new)>(s: seq<T>, p: T -> bool)
    ensures Filter(s, p) == [] <==> forall i :: 0 <= i < |s| ==> !p(s[i])
  {
    if Filter(s, p) == [] {
      forall i | 0 <= i < |s| ensures !p(s[i]) {
        assert s[i] in s;
      }
    } else {
      assert Filter(s, p)[0] in Filter(s, p);
    }
  }

  /** Filtering distributes over concatenation: the order of the input is kept. */
  lemma {:induction false} FilterConcat<T(!new)>(a: seq<T>, b: seq<T>, p: T -> bool)
    ensures Filter(a + b, p) == Filter(a, p) + Filter(b, p)
  {
    if a == [] {
      assert a + b == b;
    } else {
      var tail := a[1..] + b;
      assert a + b == [a[0]] + tail;
      assert Filter(tail, p) == Filter(a[1..], p) + Filter(b, p) by {
        FilterConcat(a[1..], b, p);
      }
      if p(a[0]) {
        calc {
          Filter([a[0]] + tail, p);
          { assert ([a[0]] + tail)[1..] == tail; }
          [a[0]] + Filter(tail, p);
          [a[0]] + Filter(a[1..], p) + Filter(b, p);
        }
      } else {
        assert ([a[0]] + tail)[1..] == tail;
      }
    }
  }

  /** Every element of `s` is kept by exactly one of two complementary filters. */
  lemma {:induction false} FilterComplement<T(!new)>(s: seq<T>, p: T -> bool, q: T -> bool)
    requires forall x :: q(x) == !p(x)
    ensures |Filter(s, p)| + |Filter(s, q)| == |s|
  {
    if s != [] {
      FilterComplement(s[1..], p, q);
    }
  }

  /** A stronger filter keeps no more elements than a weaker one. */
  lemma {:induction false} FilterMonotone<T(!new)>(s: seq<T>, p: T -> bool, q: T -> bool)
    requires forall x :: p(x) ==> q(x)
    ensures |Filter(s, p)| <= |Filter(s, q)|
  {
    if s != [] {
      FilterMonotone(s[1..], p, q);
    }
  }

  /** A filter that every element passes returns its input. */
  lemma {:induction false} FilterKeepsAll<T(!new)>(s: seq<T>, p: T -> bool)
    requires forall i :: 0 <= i < |s| ==> p(s[i])
    ensures Filter(s, p) == s
  {
    if s != [] {
      FilterKeepsAll(s[1..], p);
    }
  }

  /**
   * The dated tasks whose due instant falls on the same local day as `at`, in
   * list order. The calendar lists these for the selected date, and the
   * dashboard's "due today" list is this at the current instant.
   */
  function DueOnDayOf(todos: seq<Todo>, at: Instant, dayOf: Instant -> Day): (r: seq<Todo>)
    ensures forall i :: 0 <= i < |r| ==>
      r[i] in todos && r[i].due.Some? && dayOf(r[i].due.value) == dayOf(at)
    ensures forall i :: 0 <= i < |todos| && todos[i].due.Some? && dayOf(todos[i].due.value) == dayOf(at) ==>
      todos[i] in r
    ensures forall t :: multiset(r)[t] == (if t.due.Some? && dayOf(t.due.value) == dayOf(at) then multiset(todos)[t] else 0)
  {
    FilterMultiset(todos, (t: Todo) => t.due.Some? && dayOf(t.due.value) == dayOf(at));
    var r := Filter(todos, (t: Todo) => t.due.Some? && dayOf(t.due.value) == dayOf(at));
    assert forall i :: 0 <= i < |r| ==> r[i] in r;
    r
  }

  /** The same-day list keeps the order of the task list: it distributes over concatenation. */
  lemma DueOnDayKeepsOrder(front: seq<Todo>, back: seq<Todo>, at: Instant, dayOf: Instant -> Day)
    ensures DueOnDayOf(front + back, at, dayOf) == DueOnDayOf(front, at, dayOf) + DueOnDayOf(back, at, dayOf)
  {
    FilterConcat(front, back, (t: Todo) => t.due.Some? && dayOf(t.due.value) == dayOf(at));
  }
}
