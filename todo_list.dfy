/**
 * The task list view (components/todo-list.tsx): the order in which tasks are
 * displayed and the due-date badge shown beside each one.
 *
 * The view sorts a copy of the task array with a comparator; JavaScript's
 * `Array.prototype.sort` is stable, so the displayed order is the stable
 * sort of the input by that comparator. It is modelled as a pure function
 * on sequences (a sequence is a value, so the caller's sequence is never
 * changed, as the copy `[...todos]` ensures in the source).
 */
module TodoList {
  import opened Tasks

  /** The priority weight `priorityOrder[p] || 2`: unknown priorities rank as "medium". */
  function PriorityRank(p: Priority): (r: int)
    ensures 1 <= r <= 3
    ensures r == 3 <==> p == High
    ensures r == 1 <==> p == Low
    ensures r == 2 <==> p.Medium? || p.Unknown?
  {
    match p
    case High => 3
    case Medium => 2
    case Low => 1
    case Unknown(_) => 2
  }

  /** Ranking the column's text: "high" alone ranks 3, "low" alone 1, any other text 2. */
  lemma RankOfPriorityText(text: string)
    ensures PriorityRank(PriorityOf(text)) == 3 <==> text == "high"
    ensures PriorityRank(PriorityOf(text)) == 1 <==> text == "low"
    ensures PriorityRank(PriorityOf(text)) == 2 <==> text != "high" && text != "low"
  {
  }

  /**
   * The display comparator: negative when `a` is shown before `b`, positive
   * when after, zero when the two tie. Its value is what the source returns
   * (a difference of ranks or of due instants), not only its sign.
   */
  function Compare(a: Todo, b: Todo): (r: int)
    ensures r == 0 <==> KeyOf(a) == KeyOf(b)
  {
    if a.completed != b.completed then
      (if a.completed then 1 else -1)
    else if PriorityRank(a.priority) != PriorityRank(b.priority) then
      PriorityRank(b.priority) - PriorityRank(a.priority)
    else if a.due.Some? && b.due.Some? then
      a.due.value - b.due.value
    else if a.due.Some? then -1
    else if b.due.Some? then 1
    else 0
  }

  // ---------------------------------------------------------------------------
  // The comparator against an independent reference: a lexicographic key.
  // ---------------------------------------------------------------------------

  /** What the display order looks at, most significant first. */
  datatype SortKey = SortKey(done: int, urgency: int, undated: int, instant: int)

  function KeyOf(t: Todo): SortKey {
    SortKey(
      if t.completed then 1 else 0,
      -PriorityRank(t.priority),
      if t.due.Some? then 0 else 1,
      if t.due.Some? then t.due.value else 0)
  }

  /** Strict lexicographic order on keys. */
  predicate KeyBefore(k: SortKey, l: SortKey) {
    || k.done < l.done
    || (k.done == l.done && k.urgency < l.urgency)
    || (k.done == l.done && k.urgency == l.urgency && k.undated < l.undated)
    || (k.done == l.done && k.urgency == l.urgency && k.undated == l.undated && k.instant < l.instant)
  }

  /** The comparator orders tasks exactly as their keys order lexicographically. */
  lemma CompareIsKeyOrder(a: Todo, b: Todo)
    ensures Compare(a, b) < 0 <==> KeyBefore(KeyOf(a), KeyOf(b))
    ensures Compare(a, b) > 0 <==> KeyBefore(KeyOf(b), KeyOf(a))
    ensures Compare(a, b) == 0 <==> KeyOf(a) == KeyOf(b)
  {
  }

  /** Swapping the arguments negates the result: sign(cmp(a,b)) = -sign(cmp(b,a)). */
  lemma CompareAntisymmetric(a: Todo, b: Todo)
    ensures Compare(a, b) == -Compare(b, a)
  {
  }

  /** "Shown no later than" is a total preorder: total, reflexive and transitive. */
  lemma CompareTotalPreorder(a: Todo, b: Todo, c: Todo)
    ensures Compare(a, a) == 0
    ensures Compare(a, b) <= 0 || Compare(b, a) <= 0
    ensures Compare(a, b) <= 0 && Compare(b, c) <= 0 ==> Compare(a, c) <= 0
    ensures Compare(a, b) == 0 && Compare(b, c) == 0 ==> Compare(a, c) == 0
  {
    CompareIsKeyOrder(a, b);
    CompareIsKeyOrder(b, c);
    CompareIsKeyOrder(a, c);
  }

  // ---------------------------------------------------------------------------
  // The comparator's rules, one by one.
  // ---------------------------------------------------------------------------

  /** Any incomplete task is shown before any completed one. */
  lemma IncompleteFirst(a: Todo, b: Todo)
    requires !a.completed && b.completed
    ensures Compare(a, b) < 0 && Compare(b, a) > 0
  {
  }

  /** With equal completion, the higher priority rank is shown first. */
  lemma HigherPriorityFirst(a: Todo, b: Todo)
    requires a.completed == b.completed
    requires PriorityRank(a.priority) > PriorityRank(b.priority)
    ensures Compare(a, b) < 0 && Compare(b, a) > 0
  {
  }

  /** With equal completion and rank, two dated tasks go by ascending due instant. */
  lemma DatedByDueInstant(a: Todo, b: Todo)
    requires a.completed == b.completed
    requires PriorityRank(a.priority) == PriorityRank(b.priority)
    requires a.due.Some? && b.due.Some?
    ensures Compare(a, b) < 0 <==> a.due.value < b.due.value
    ensures Compare(a, b) == 0 <==> a.due.value == b.due.value
  {
  }

  /** With equal completion and rank, a dated task precedes an undated one, and two undated tasks tie. */
  lemma DatedBeforeUndated(a: Todo, b: Todo)
    requires a.completed == b.completed
    requires PriorityRank(a.priority) == PriorityRank(b.priority)
    requires a.due.None?
    ensures b.due.Some? ==> Compare(b, a) < 0
    ensures b.due.None? ==> Compare(a, b) == 0
  {
  }

  // ---------------------------------------------------------------------------
  // The stable sort.
  // ---------------------------------------------------------------------------

  ghost predicate SortedByCompare(s: seq<Todo>) {
    forall i, j :: 0 <= i < j < |s| ==> Compare(s[i], s[j]) <= 0
  }

  /** The tasks of `s` that tie with `y`, in their order in `s`. */
  function TiedWith(s: seq<Todo>, y: Todo): seq<Todo>
    decreases |s|
  {
    if s == [] then []
    else TiedWith(s[..|s| - 1], y) + (if Compare(s[|s| - 1], y) == 0 then [s[|s| - 1]] else [])
  }

  lemma TiedWithSnoc(s: seq<Todo>, e: Todo, y: Todo)
    ensures TiedWith(s + [e], y) == TiedWith(s, y) + (if Compare(e, y) == 0 then [e] else [])
  {
    assert (s + [e])[..|s|] == s;
  }

  /**
   * Inserts `x` into the sorted `s`, after every task that is not shown
   * later than `x` (so after the tasks it ties with).
   */
  function Insert(s: seq<Todo>, x: Todo): (r: seq<Todo>)
    ensures multiset(r) == multiset(s) + multiset{x}
    decreases |s|
  {
    if s == [] || Compare(s[|s| - 1], x) <= 0 then s + [x]
    else
      assert s == s[..|s| - 1] + [s[|s| - 1]];
      Insert(s[..|s| - 1], x) + [s[|s| - 1]]
  }

  /** Appending a task that no earlier task follows keeps a sequence sorted. */
  lemma SortedSnoc(s: seq<Todo>, e: Todo)
    requires SortedByCompare(s)
    requires forall i :: 0 <= i < |s| ==> Compare(s[i], e) <= 0
    ensures SortedByCompare(s + [e])
  {
    var r := s + [e];
    forall i, j | 0 <= i < j < |r| ensures Compare(r[i], r[j]) <= 0 {
      assert r[i] == s[i];
      if j < |s| {
        assert r[j] == s[j];
      }
    }
  }

  /** Every task of `Insert(s, x)` is `x` or a task of `s`. */
  lemma InsertElements(s: seq<Todo>, x: Todo, e: Todo)
    requires e in Insert(s, x)
    ensures e == x || e in s
  {
    assert e in multiset(Insert(s, x));
  }

  lemma {:induction false} InsertSorted(s: seq<Todo>, x: Todo)
    requires SortedByCompare(s)
    ensures SortedByCompare(Insert(s, x))
    decreases |s|
  {
    if s == [] || Compare(s[|s| - 1], x) <= 0 {
      forall i | 0 <= i < |s| ensures Compare(s[i], x) <= 0 {
        CompareTotalPreorder(s[i], s[|s| - 1], x);
      }
      SortedSnoc(s, x);
    } else {
      var init, last := s[..|s| - 1], s[|s| - 1];
      assert SortedByCompare(init) by {
        forall i, j | 0 <= i < j < |init| ensures Compare(init[i], init[j]) <= 0 {
          assert init[i] == s[i] && init[j] == s[j];
        }
      }
      InsertSorted(init, x);
      var front := Insert(init, x);
      forall i | 0 <= i < |front| ensures Compare(front[i], last) <= 0 {
        InsertElements(init, x, front[i]);
        if front[i] == x {
          CompareAntisymmetric(last, x);
        } else {
          var k :| 0 <= k < |init| && init[k] == front[i];
          assert s[k] == init[k];
        }
      }
      SortedSnoc(front, last);
      assert Insert(s, x) == front + [last];
    }
  }

  /** A task shown after `x` cannot tie with a task `x` ties with. */
  lemma TiesExclusive(later: Todo, x: Todo, y: Todo)
    requires Compare(later, x) > 0
    ensures !(Compare(x, y) == 0 && Compare(later, y) == 0)
  {
    CompareIsKeyOrder(later, x);
    CompareIsKeyOrder(x, y);
    CompareIsKeyOrder(later, y);
  }

  lemma {:induction false} InsertTies(s: seq<Todo>, x: Todo, y: Todo)
    ensures TiedWith(Insert(s, x), y) == TiedWith(s, y) + (if Compare(x, y) == 0 then [x] else [])
    decreases |s|
  {
    if s == [] || Compare(s[|s| - 1], x) <= 0 {
      TiedWithSnoc(s, x, y);
    } else {
      var init, last := s[..|s| - 1], s[|s| - 1];
      var front := Insert(init, x);
      var tiedX := if Compare(x, y) == 0 then [x] else [];
      var tiedLast := if Compare(last, y) == 0 then [last] else [];
      assert Insert(s, x) == front + [last];
      assert TiedWith(front + [last], y) == TiedWith(front, y) + tiedLast by {
        TiedWithSnoc(front, last, y);
      }
      assert TiedWith(front, y) == TiedWith(init, y) + tiedX by {
        InsertTies(init, x, y);
      }
      assert TiedWith(s, y) == TiedWith(init, y) + tiedLast by {
        assert s == init + [last];
        TiedWithSnoc(init, last, y);
      }
      assert tiedX == [] || tiedLast == [] by {
        TiesExclusive(last, x, y);
      }
      assert TiedWith(init, y) + tiedX + tiedLast == TiedWith(init, y) + tiedLast + tiedX;
    }
  }

  /**
   * `[...todos].sort(Compare)`: a sorted permutation of the input in which
   * tasks that tie keep their input order.
   */
  function SortForDisplay(todos: seq<Todo>): (r: seq<Todo>)
    ensures multiset(r) == multiset(todos)
    ensures SortedByCompare(r)
    ensures forall y :: TiedWith(r, y) == TiedWith(todos, y)
    decreases |todos|
  {
    if todos == [] then []
    else
      var init, last := todos[..|todos| - 1], todos[|todos| - 1];
      assert todos == init + [last];
      var sortedInit := SortForDisplay(init);
      InsertSorted(sortedInit, last);
      forall y ensures TiedWith(Insert(sortedInit, last), y) == TiedWith(todos, y) {
        InsertTies(sortedInit, last, y);
      }
      Insert(sortedInit, last)
  }

  /**
   * The worked example: a low-priority undated task A, a high-priority dated
   * task B and a completed high-priority task C are shown as B, A, C.
   */
  lemma ExampleOrder(due: Instant)
    ensures
      var a := Todo("1", "A", "", false, Low, None, None);
      var b := Todo("2", "B", "", false, High, Some(due), None);
      var c := Todo("3", "C", "", true, High, None, None);
      SortForDisplay([a, b, c]) == [b, a, c]
  {
    var a := Todo("1", "A", "", false, Low, None, None);
    var b := Todo("2", "B", "", false, High, Some(due), None);
    var c := Todo("3", "C", "", true, High, None, None);
    assert [a, b, c][..2] == [a, b];
    assert [a, b][..1] == [a];
    assert [a][..0] == [];
  }

  // ---------------------------------------------------------------------------
  // The due-date badge.
  // ---------------------------------------------------------------------------

  /** The badge of `getDueDateDisplay`; `OnDate` stands for the "MMM d" text. */
  datatype DueLabel = Today | Tomorrow | Overdue | OnDate(date: Instant)

  /** `getDueDateDisplay`: no badge without a due date; otherwise the first of Today, Tomorrow, Overdue that applies. */
  function DueDateDisplay(due: Option<Instant>, now: Instant, dayOf: Instant -> Day): (r: Option<DueLabel>)
    ensures r.None? <==> due.None?
  {
    match due
    case None => None
    case Some(d) =>
      if dayOf(d) == dayOf(now) then Some(Today)
      else if dayOf(d) == dayOf(now) + 1 then Some(Tomorrow)
      else if d < now then Some(Overdue)
      else Some(OnDate(d))
  }

  /** The checks apply in the order Today, Tomorrow, Overdue, plain date. */
  lemma DueLabelPrecedence(d: Instant, now: Instant, dayOf: Instant -> Day)
    ensures DueDateDisplay(Some(d), now, dayOf) == Some(Today) <==> dayOf(d) == dayOf(now)
    ensures DueDateDisplay(Some(d), now, dayOf) == Some(Tomorrow) <==> dayOf(d) == dayOf(now) + 1
    ensures DueDateDisplay(Some(d), now, dayOf) == Some(Overdue)
      <==> dayOf(d) != dayOf(now) && dayOf(d) != dayOf(now) + 1 && d < now
    ensures DueDateDisplay(Some(d), now, dayOf) == Some(OnDate(d))
      <==> dayOf(d) != dayOf(now) && dayOf(d) != dayOf(now) + 1 && now <= d
  {
  }

  /** A task due earlier today is labelled "Today", never "Overdue". */
  lemma TodayBeatsOverdue(d: Instant, now: Instant, dayOf: Instant -> Day)
    requires d < now && dayOf(d) == dayOf(now)
    ensures DueDateDisplay(Some(d), now, dayOf) == Some(Today)
  {
  }

  /**
   * When days follow the time line, the badge depends on the due day alone:
   * "Overdue" exactly for earlier days, a plain date exactly for days after
   * tomorrow.
   */
  lemma DueLabelByDay(d: Instant, now: Instant, dayOf: Instant -> Day)
    requires Monotone(dayOf)
    ensures DueDateDisplay(Some(d), now, dayOf) == Some(Overdue) <==> dayOf(d) < dayOf(now)
    ensures DueDateDisplay(Some(d), now, dayOf).value.OnDate? <==> dayOf(d) > dayOf(now) + 1
  {
    if d < now {
      assert dayOf(d) <= dayOf(now);
    } else {
      assert dayOf(now) <= dayOf(d);
    }
  }
}
