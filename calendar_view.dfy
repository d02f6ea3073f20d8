/**
 * The calendar view (components/calendar-view.tsx): the tasks of the selected
 * day, the days marked as having tasks, the "Upcoming Tasks" list, the
 * priority dot colour and the month navigation that moves the selected date.
 */
module CalendarView {
  import opened Tasks
  import TodoList

  // ---------------------------------------------------------------------------
  // Projections of the task list.
  // ---------------------------------------------------------------------------

  /** The days on which some task of `todos` is due. */
  ghost function DueDays(todos: seq<Todo>, dayOf: Instant -> Day): set<Day> {
    set i | 0 <= i < |todos| && todos[i].due.Some? :: dayOf(todos[i].due.value)
  }

  /** `datesWithTodos`: the set built by adding the day key of every dated task. */
  method DatesWithTodos(todos: seq<Todo>, dayOf: Instant -> Day) returns (dates: set<Day>)
    ensures dates == DueDays(todos, dayOf)
    ensures forall d :: d in dates <==>
      exists i :: 0 <= i < |todos| && todos[i].due.Some? && dayOf(todos[i].due.value) == d
  {
    dates := {};
    var k := 0;
    while k < |todos|
      invariant 0 <= k <= |todos|
      invariant dates == DueDays(todos[..k], dayOf)
    {
      var t := todos[k];
      if t.due.Some? {
        dates := dates + {dayOf(t.due.value)};
      }
      assert todos[..k + 1] == todos[..k] + [t];
      k := k + 1;
    }
    assert todos[..k] == todos;
  }

  /** The `hasTodos` modifier of a calendar cell. */
  predicate HasTodos(dates: set<Day>, date: Instant, dayOf: Instant -> Day) {
    dayOf(date) in dates
  }

  /** A calendar cell is marked exactly when selecting it would list at least one task. */
  lemma MarkedIffTasksListed(todos: seq<Todo>, date: Instant, dayOf: Instant -> Day)
    ensures HasTodos(DueDays(todos, dayOf), date, dayOf) <==> |DueOnDayOf(todos, date, dayOf)| > 0
  {
    var listed := DueOnDayOf(todos, date, dayOf);
    if HasTodos(DueDays(todos, dayOf), date, dayOf) {
      var i :| 0 <= i < |todos| && todos[i].due.Some? && dayOf(todos[i].due.value) == dayOf(date);
      assert todos[i] in listed;
    }
    if |listed| > 0 {
      assert listed[0] in todos;
      var i :| 0 <= i < |todos| && todos[i] == listed[0];
      assert dayOf(todos[i].due.value) in DueDays(todos, dayOf);
    }
  }

  predicate IsUpcoming(t: Todo, selected: Instant) {
    t.due.Some? && !t.completed && t.due.value > selected
  }

  /** All open dated tasks due after the selected instant, in list order. */
  function AllUpcoming(todos: seq<Todo>, selected: Instant): seq<Todo> {
    Filter(todos, (t: Todo) => IsUpcoming(t, selected))
  }

  /** The "Upcoming Tasks" list: the first five of `AllUpcoming` (`.slice(0, 5)`). */
  function UpcomingTasks(todos: seq<Todo>, selected: Instant): (r: seq<Todo>)
    ensures |r| <= 5
    ensures forall i :: 0 <= i < |r| ==>
      r[i] in todos && r[i].due.Some? && !r[i].completed && r[i].due.value > selected
    ensures r <= AllUpcoming(todos, selected)
    ensures |r| < 5 ==> r == AllUpcoming(todos, selected)
  {
    var all := AllUpcoming(todos, selected);
    assert forall i :: 0 <= i < |all| ==> all[i] in all;
    if |all| <= 5 then all else all[..5]
  }

  /** Entries keep the task list's order: upcoming tasks of a prefix come first. */
  lemma UpcomingKeepsOrder(front: seq<Todo>, back: seq<Todo>, selected: Instant)
    ensures AllUpcoming(front + back, selected) == AllUpcoming(front, selected) + AllUpcoming(back, selected)
  {
    FilterConcat(front, back, (t: Todo) => IsUpcoming(t, selected));
  }

  // ---------------------------------------------------------------------------
  // Priority dot.
  // ---------------------------------------------------------------------------

  datatype Dot = Red | Yellow | Green | Gray

  /** `getPriorityColor`. */
  function PriorityColor(p: Priority): (c: Dot)
    ensures c == Red <==> p == High
    ensures c == Yellow <==> p == Medium
    ensures c == Green <==> p == Low
    ensures c == Gray <==> p.Unknown?
  {
    match p
    case High => Red
    case Medium => Yellow
    case Low => Green
    case Unknown(_) => Gray
  }

  /**
   * The dot agrees with the list's sort rank: red for rank 3, green for rank 1,
   * and yellow or gray for rank 2 (gray being the unknown priorities the
   * sort ranks as medium).
   */
  lemma PriorityColorAgreesWithRank(p: Priority)
    ensures TodoList.PriorityRank(p) == 3 <==> PriorityColor(p) == Red
    ensures TodoList.PriorityRank(p) == 1 <==> PriorityColor(p) == Green
    ensures TodoList.PriorityRank(p) == 2 <==> PriorityColor(p) in {Yellow, Gray}
  {
  }

  // ---------------------------------------------------------------------------
  // Month navigation.
  // ---------------------------------------------------------------------------

  /** A local year and month; `month` counts from 0 (January) as `Date.getMonth()` does. */
  datatype YearMonth = YearMonth(year: int, month: int)

  predicate ValidYearMonth(ym: YearMonth) {
    0 <= ym.month < 12
  }

  /** `new Date(year, month)` accepts any month and carries the excess into the year. */
  function Normalize(year: int, month: int): (ym: YearMonth)
    ensures ValidYearMonth(ym)
    ensures ym.year * 12 + ym.month == year * 12 + month
  {
    YearMonth(year + month / 12, month % 12)
  }

  /** The target of the "previous month" button. */
  function PreviousMonth(ym: YearMonth): (r: YearMonth)
    ensures ValidYearMonth(r)
    ensures r.year * 12 + r.month == ym.year * 12 + ym.month - 1
  {
    Normalize(ym.year, ym.month - 1)
  }

  /** The target of the "next month" button. */
  function NextMonth(ym: YearMonth): (r: YearMonth)
    ensures ValidYearMonth(r)
    ensures r.year * 12 + r.month == ym.year * 12 + ym.month + 1
  {
    Normalize(ym.year, ym.month + 1)
  }

  /** January goes back to December of the year before, December forward to January of the year after. */
  lemma MonthCarry(ym: YearMonth)
    requires ValidYearMonth(ym)
    ensures PreviousMonth(ym) == if ym.month == 0 then YearMonth(ym.year - 1, 11) else YearMonth(ym.year, ym.month - 1)
    ensures NextMonth(ym) == if ym.month == 11 then YearMonth(ym.year + 1, 0) else YearMonth(ym.year, ym.month + 1)
    ensures NextMonth(PreviousMonth(ym)) == ym && PreviousMonth(NextMonth(ym)) == ym
  {
  }

  /**
   * The local calendar of the browser: which day and month an instant falls
   * in, and the first instant (day 1, midnight) of a month.
   */
  datatype LocalCalendar = LocalCalendar(
    dayOf: Instant -> Day,
    monthOf: Instant -> YearMonth,
    monthStart: YearMonth -> Instant)

  /** A calendar is lawful when months are well formed and `monthStart` is the earliest instant of its month. */
  ghost predicate Lawful(cal: LocalCalendar) {
    && (forall t :: ValidYearMonth(cal.monthOf(t)))
    && (forall ym :: ValidYearMonth(ym) ==> cal.monthOf(cal.monthStart(ym)) == ym)
    && (forall ym, t :: ValidYearMonth(ym) && cal.monthOf(t) == ym ==> cal.monthStart(ym) <= t)
  }

  /** The calendar's `selectedDate` state and the handlers that overwrite it. */
  class Selection {
    var selectedDate: Instant

    /** `useState(new Date())`. */
    constructor(now: Instant)
      ensures selectedDate == now
    {
      selectedDate := now;
    }

    /** The "<" button: day 1 of the month before the selected one. */
    method GoToPreviousMonth(cal: LocalCalendar)
      modifies this
      ensures selectedDate == cal.monthStart(PreviousMonth(cal.monthOf(old(selectedDate))))
    {
      selectedDate := cal.monthStart(PreviousMonth(cal.monthOf(selectedDate)));
    }

    /** The ">" button: day 1 of the month after the selected one. */
    method GoToNextMonth(cal: LocalCalendar)
      modifies this
      ensures selectedDate == cal.monthStart(NextMonth(cal.monthOf(old(selectedDate))))
    {
      selectedDate := cal.monthStart(NextMonth(cal.monthOf(selectedDate)));
    }

    /** The "Today" button. */
    method GoToToday(now: Instant)
      modifies this
      ensures selectedDate == now
    {
      selectedDate := now;
    }

    /** `onSelect={(date) => date && setSelectedDate(date)}`: a cleared selection is ignored. */
    method Select(date: Option<Instant>)
      modifies this
      ensures selectedDate == if date.Some? then date.value else old(selectedDate)
    {
      if date.Some? {
        selectedDate := date.value;
      }
    }
  }

  /**
   * Under a lawful calendar, "<" and ">" land on the first instant of the
   * month before and after the selected one, and ">" after "<" comes back to
   * the month one started in.
   */
  lemma MonthButtonsLand(cal: LocalCalendar, t: Instant)
    requires Lawful(cal)
    ensures var p := cal.monthStart(PreviousMonth(cal.monthOf(t)));
      && cal.monthOf(p) == PreviousMonth(cal.monthOf(t))
      && (forall u :: cal.monthOf(u) == cal.monthOf(p) ==> p <= u)
      && cal.monthOf(cal.monthStart(NextMonth(cal.monthOf(p)))) == cal.monthOf(t)
    ensures var n := cal.monthStart(NextMonth(cal.monthOf(t)));
      && cal.monthOf(n) == NextMonth(cal.monthOf(t))
      && (forall u :: cal.monthOf(u) == cal.monthOf(n) ==> n <= u)
  {
    var ym := cal.monthOf(t);
    MonthCarry(ym);
    var p := cal.monthStart(PreviousMonth(ym));
    assert cal.monthOf(p) == PreviousMonth(ym);
    assert NextMonth(PreviousMonth(ym)) == ym;
    assert cal.monthOf(cal.monthStart(NextMonth(ym))) == NextMonth(ym);
  }
}
