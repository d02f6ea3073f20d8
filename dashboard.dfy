/**
 * The dashboard's summary figures (app/dashboard/page.tsx): counts, the
 * progress percentage, the "due today", "overdue" and "high priority" lists
 * and the per-category completed/total badge. Every figure is recomputed
 * from the fetched task list on each render.
 */
module Dashboard {
  import opened Tasks

  predicate IsCompleted(t: Todo) { t.completed }
  predicate IsOpen(t: Todo) { !t.completed }

  /** `completedTodos`: how many tasks are completed. */
  function CompletedTodos(todos: seq<Todo>): (n: nat)
    ensures n <= |todos|
    ensures n == 0 <==> forall i :: 0 <= i < |todos| ==> !todos[i].completed
  {
    FilterEmpty(todos, IsCompleted);
    |Filter(todos, IsCompleted)|
  }

  /** `tasksLeft = totalTodos - completedTodos`: exactly the number of open tasks. */
  function TasksLeft(todos: seq<Todo>): (n: int)
    ensures n == |Filter(todos, IsOpen)|
    ensures n + CompletedTodos(todos) == |todos|
  {
    FilterComplement(todos, IsCompleted, IsOpen);
    |todos| - CompletedTodos(todos)
  }

  /** `progressPercentage`, in exact arithmetic (the display rounds it with `toFixed(0)`). */
  function ProgressPercentage(todos: seq<Todo>): (p: real)
    ensures 0.0 <= p <= 100.0
    ensures |todos| == 0 ==> p == 0.0
    ensures p == 0.0 <==> CompletedTodos(todos) == 0
    ensures p == 100.0 <==> |todos| > 0 && TasksLeft(todos) == 0
  {
    var total := |todos|;
    var done := CompletedTodos(todos);
    if total > 0 then
      RatioBounds(done, total);
      (done as real / total as real) * 100.0
    else 0.0
  }

  lemma RatioBounds(done: nat, total: nat)
    requires 0 < total && done <= total
    ensures 0.0 <= done as real / total as real <= 1.0
    ensures done as real / total as real == 0.0 <==> done == 0
    ensures done as real / total as real == 1.0 <==> done == total
  {
    var r := done as real / total as real;
    assert r * total as real == done as real;
  }

  predicate IsOverdue(t: Todo, now: Instant) {
    t.due.Some? && !t.completed && t.due.value < now
  }

  /** `overdueTodos`: the open dated tasks due strictly before now. */
  function OverdueTodos(todos: seq<Todo>, now: Instant): (r: seq<Todo>)
    ensures forall i :: 0 <= i < |r| ==>
      r[i] in todos && r[i].due.Some? && !r[i].completed && r[i].due.value < now
    ensures forall i :: 0 <= i < |todos| && todos[i].due.Some? && !todos[i].completed && todos[i].due.value < now ==>
      todos[i] in r
    ensures forall t :: multiset(r)[t] == (if IsOverdue(t, now) then multiset(todos)[t] else 0)
  {
    FilterMultiset(todos, (t: Todo) => IsOverdue(t, now));
    var r := Filter(todos, (t: Todo) => IsOverdue(t, now));
    assert forall i :: 0 <= i < |r| ==> r[i] in r;
    r
  }

  predicate IsHighPriorityOpen(t: Todo) {
    t.priority == High && !t.completed
  }

  /** `highPriorityTodos`: the open tasks of high priority. */
  function HighPriorityTodos(todos: seq<Todo>): (r: seq<Todo>)
    ensures forall i :: 0 <= i < |r| ==> r[i] in todos && r[i].priority == High && !r[i].completed
    ensures forall i :: 0 <= i < |todos| && todos[i].priority == High && !todos[i].completed ==> todos[i] in r
    ensures forall t :: multiset(r)[t] == (if t.priority == High && !t.completed then multiset(todos)[t] else 0)
  {
    FilterMultiset(todos, IsHighPriorityOpen);
    var r := Filter(todos, IsHighPriorityOpen);
    assert forall i :: 0 <= i < |r| ==> r[i] in r;
    r
  }

  /** A task due exactly now is not yet overdue. */
  lemma DueNowIsNotOverdue(todos: seq<Todo>, now: Instant)
    ensures forall i :: 0 <= i < |OverdueTodos(todos, now)| ==> OverdueTodos(todos, now)[i].due != Some(now)
  {
  }

  /** Both the overdue and the high-priority figures count open tasks only, so neither exceeds the tasks left. */
  lemma AlertsWithinTasksLeft(todos: seq<Todo>, now: Instant)
    ensures |OverdueTodos(todos, now)| <= TasksLeft(todos)
    ensures |HighPriorityTodos(todos)| <= TasksLeft(todos)
  {
    FilterMonotone(todos, (t: Todo) => IsOverdue(t, now), IsOpen);
    FilterMonotone(todos, IsHighPriorityOpen, IsOpen);
  }

  /** Completing every task empties the alert lists and leaves no task. */
  lemma AllDoneClearsAlerts(todos: seq<Todo>, now: Instant)
    requires forall i :: 0 <= i < |todos| ==> todos[i].completed
    ensures TasksLeft(todos) == 0
    ensures OverdueTodos(todos, now) == [] && HighPriorityTodos(todos) == []
  {
    AlertsWithinTasksLeft(todos, now);
    FilterKeepsAll(todos, IsCompleted);
  }

  /**
   * The dashboard's "due today" list (`todayTodos`, `DueOnDayOf` at now) and
   * its "overdue" list can share a task: one due
   * earlier today is in both, while the task list labels it "Today".
   */
  lemma TodayAndOverdueOverlap()
    ensures
      var t := Todo("1", "call", "", false, Medium, Some(9), None);
      var dayOf := (i: Instant) => i / 24;
      DueOnDayOf([t], 10, dayOf) == [t] && OverdueTodos([t], 10) == [t]
  {
    var t := Todo("1", "call", "", false, Medium, Some(9), None);
    var dayOf := (i: Instant) => i / 24;
    assert [t][1..] == [];
  }

  // ---------------------------------------------------------------------------
  // Category rollup.
  // ---------------------------------------------------------------------------

  datatype Category = Category(id: string, name: string, color: string, icon: string)

  /** The "completed/total" badge of one category. */
  datatype CategoryBadge = CategoryBadge(category: string, completed: nat, total: nat)

  /** `categoryTodos` and `completedInCategory` for one category. */
  function CategoryRollup(todos: seq<Todo>, c: Category): (b: CategoryBadge)
    ensures b.category == c.id
    ensures b.completed <= b.total <= |todos|
    ensures b.total == 0 <==> forall i :: 0 <= i < |todos| ==> todos[i].categoryId != Some(c.id)
    ensures b.total == |PassingIndices(todos, (t: Todo) => t.categoryId == Some(c.id))|
    ensures b.completed == |PassingIndices(todos, (t: Todo) => t.categoryId == Some(c.id) && t.completed)|
  {
    var inCategory := Filter(todos, (t: Todo) => t.categoryId == Some(c.id));
    var done := Filter(inCategory, IsCompleted);
    CategoryCounts(todos, c);
    CategoryBadge(c.id, |done|, |inCategory|)
  }

  /** The two filters of the rollup count the category's positions and its completed positions. */
  lemma CategoryCounts(todos: seq<Todo>, c: Category)
    ensures var inCategory := Filter(todos, (t: Todo) => t.categoryId == Some(c.id));
      && (inCategory == [] <==> forall i :: 0 <= i < |todos| ==> todos[i].categoryId != Some(c.id))
      && |inCategory| == |PassingIndices(todos, (t: Todo) => t.categoryId == Some(c.id))|
      && |Filter(inCategory, IsCompleted)|
         == |PassingIndices(todos, (t: Todo) => t.categoryId == Some(c.id) && t.completed)|
  {
    FilterEmpty(todos, (t: Todo) => t.categoryId == Some(c.id));
    FilterCount(todos, (t: Todo) => t.categoryId == Some(c.id));
    FilterFilter(todos, (t: Todo) => t.categoryId == Some(c.id), IsCompleted, (t: Todo) => t.categoryId == Some(c.id) && t.completed);
    FilterCount(todos, (t: Todo) => t.categoryId == Some(c.id) && t.completed);
  }

  /** `categories.map(...)`: one badge per category, in the categories' order. */
  function CategoryRollups(todos: seq<Todo>, categories: seq<Category>): (r: seq<CategoryBadge>)
    ensures |r| == |categories|
    ensures forall i :: 0 <= i < |r| ==> r[i] == CategoryRollup(todos, categories[i])
    ensures forall i :: 0 <= i < |r| ==> r[i].category == categories[i].id && r[i].completed <= r[i].total
  {
    seq(|categories|, i requires 0 <= i < |categories| => CategoryRollup(todos, categories[i]))
  }

  /** A category with no tasks reports 0/0. */
  lemma EmptyCategoryReportsZero(todos: seq<Todo>, c: Category)
    requires forall i :: 0 <= i < |todos| ==> todos[i].categoryId != Some(c.id)
    ensures CategoryRollup(todos, c).completed == 0 && CategoryRollup(todos, c).total == 0
  {
  }
}
