# Roki to-do app: derived state and list updates, in Dafny

This project models the small amount of logic in the Roki to-do web app's
views, and proves what that logic promises. It covers:

- **Task list** (`TodoList`, components/todo-list.tsx). This is the display
  order: a stable sort of a copy of the task array by the view's comparator. It
  also covers the due-date badge (Today, Tomorrow, Overdue or a plain date).
- **Dashboard** (`Dashboard`, app/dashboard/page.tsx). This covers the completed
  and open counts, the progress percentage, the "due today", "overdue" and
  "high priority" lists, and the per-category completed/total badge.
- **Calendar** (`CalendarView`, components/calendar-view.tsx). This covers the
  tasks of the selected day, the set of days marked as having tasks, the
  "Upcoming Tasks" list and the priority dot colour. The selected date is a
  small class whose handlers move it: previous month, next month, today and a
  day clicked in the calendar.
- **Notification centre** (`NotificationCenter`,
  components/notification-center.tsx). This is a class that holds the
  notification list, the loading flag and the selected tab. Fetch, mark-one-read,
  mark-all-read and delete replace the list only when their backend write
  succeeds. The tab filters and the counts are functions of the list.
- **Team manager** (`TeamManager`, components/team-manager.tsx). This is a class
  that holds the backend's `teams` and `team_members` tables as sequences of
  rows, together with the component's form fields and `loading` flag.
  `createTeam` and `joinTeam` are methods built from the same steps as the
  source, with the same early exits. The member counts of the team list are a
  function of the tables. The invariant kept is that ids and invite codes are
  unique and that no `(team, user)` pair has two membership rows.

Shared entities (`Todo`, `Priority`, `Option`), the generic `Filter`, which is
`Array.prototype.filter`, and the same-day filter used by both the calendar and
the dashboard live in module `Tasks`.

Time is abstract. An instant is an integer. The local calendar day of an
instant is given by a function `dayOf`, and "now" is a parameter. So "today",
"tomorrow" and "same day" compare days, while "overdue", "upcoming" and the sort
compare instants, as the source does. Month navigation takes a `LocalCalendar`
that supplies the month of an instant and the first instant of a month.

Every backend call is a parameter saying whether the backend accepted the write
or whether the query answered. In the source, a failed write throws before the
local state is touched, so a refused write leaves the model's state as it was.
The team tables are held in the model, so a query that answers returns the
rows the tables hold. A query that fails is handled as the source handles it:

- A failed invite-code look-up reads as "Invalid invite code".
- A failed existing-member check leaves no row to see, so the insert is
  attempted anyway. The table's unique `(team, user)` key then refuses it when
  the pair is already present.
- A failed member-count query shows a count of 0 (`count || 0`).

The unique keys of the tables (team invite code, `(team, user)` membership
pair) are modelled as inserts that the backend refuses. The "no duplicate
membership" invariant rests on those keys, not on the existence check.

Some choices follow the code where a simpler reading of the app would differ:

- `markAsRead` marks every entry with the given id, not exactly one record.
  Ids are unique in practice, but the code's `map` does not depend on that.
- The invite-code look-up uses `.single()`, so it succeeds only when exactly one
  team has the code. The existing-member check also uses `.single()`, so it sees
  a membership only when exactly one row matches. Under the table invariant,
  this is the same as membership (`ExistingRowIsMembership`).
- Team creation makes two separate writes, the team row and then the owner's
  membership row, with no rollback between them. The model keeps that:
  `OrphanedTeamIsListedNowhere` shows what a refused owner row leaves behind.
- `priority` is typed `"low" | "medium" | "high"`, but the views handle any other
  value. The sort ranks it like "medium" and the dot turns gray. It is modelled
  as `Unknown(text)`, where the text is none of the three known names
  (`PriorityOf` reads the column's text).

## Model

| member | source | states |
|---|---|---|
| Tasks.PriorityOf | components/todo-list.tsx:163-165 | the texts "high", "medium" and "low" read as those priorities, and exactly those; any other text is kept as an unknown priority |
| TodoList.RankOfPriorityText | components/todo-list.tsx:163-165 | the weight of the column's text is 3 exactly for "high", 1 exactly for "low", and 2 for every other text |
| TodoList.PriorityRank | components/todo-list.tsx:163-165 | the rank is 3 exactly for high, 1 exactly for low, and 2 for medium and for any unknown priority |
| TodoList.Compare | components/todo-list.tsx:156-179 | the comparator returns 0 exactly when the two tasks agree on completion, rank, having a due date and the due instant |
| TodoList.CompareIsKeyOrder | components/todo-list.tsx:156-179 | the comparator's sign is the lexicographic order of the key (completed, minus rank, undated, due instant); it returns 0 exactly when the keys are equal |
| TodoList.CompareAntisymmetric | components/todo-list.tsx:156-179 | swapping the two tasks negates the comparator's result |
| TodoList.CompareTotalPreorder | components/todo-list.tsx:156-179 | "shown no later than" is reflexive, total and transitive, and ties are transitive |
| TodoList.IncompleteFirst | components/todo-list.tsx:158-160 | any incomplete task comes before any completed one, whichever side it is on |
| TodoList.HigherPriorityFirst | components/todo-list.tsx:163-169 | with equal completion, the higher rank comes first |
| TodoList.DatedByDueInstant | components/todo-list.tsx:172-174 | with equal completion and rank, two dated tasks are ordered by due instant and tie exactly at equal instants |
| TodoList.DatedBeforeUndated | components/todo-list.tsx:175-178 | with equal completion and rank, a dated task comes before an undated one, and two undated tasks tie |
| TodoList.Insert | components/todo-list.tsx:156 | one insertion step of the sort returns the sorted prefix plus the new task, as a multiset |
| TodoList.InsertSorted | components/todo-list.tsx:156-179 | inserting into a sequence sorted by the comparator keeps it sorted |
| TodoList.InsertTies | components/todo-list.tsx:156-179 | an inserted task goes after every task it ties with, and the other ties keep their order |
| TodoList.SortForDisplay | components/todo-list.tsx:156-179 | the displayed order is a permutation of the input, is sorted by the comparator, and keeps each group of tied tasks in input order (stability) |
| TodoList.ExampleOrder | components/todo-list.tsx:156-179 | low undated A, high dated B and completed high C are displayed as B, A, C |
| TodoList.DueDateDisplay | components/todo-list.tsx:114-115 | there is no badge exactly when there is no due date |
| TodoList.DueLabelPrecedence | components/todo-list.tsx:120-128 | the badge is Today, then Tomorrow, then Overdue, then the plain date, each only when the earlier checks fail |
| TodoList.TodayBeatsOverdue | components/todo-list.tsx:120-125 | a task due at an hour of today that has already passed is labelled Today, not Overdue |
| TodoList.DueLabelByDay | components/todo-list.tsx:120-128 | when days follow the time line, Overdue means exactly an earlier day and a plain date means exactly a day after tomorrow |
| Tasks.DueOnDayOf | components/calendar-view.tsx:39-44 | exactly the dated tasks due on the local day of the given instant, completed or not, each as many times as in the input; the dashboard's "due today" list (app/dashboard/page.tsx:147-152) is this at now |
| Tasks.DueOnDayKeepsOrder | components/calendar-view.tsx:39-44 | the same-day list keeps the task list's order: it distributes over concatenation |
| Dashboard.CompletedTodos | app/dashboard/page.tsx:142 | the count is at most the number of tasks, and is 0 exactly when no task is completed |
| Dashboard.TasksLeft | app/dashboard/page.tsx:142-145 | tasks left is the number of open tasks, and tasks left plus completed is the total |
| Dashboard.ProgressPercentage | app/dashboard/page.tsx:144 | the percentage lies in [0, 100]; it is 0 with no tasks or none completed, and 100 exactly when there are tasks and none is open |
| Dashboard.OverdueTodos | app/dashboard/page.tsx:154-157 | exactly the open dated tasks due strictly before now, each as many times as in the input, so its length is the count shown |
| Dashboard.HighPriorityTodos | app/dashboard/page.tsx:159 | exactly the open tasks of high priority, each as many times as in the input |
| Dashboard.DueNowIsNotOverdue | app/dashboard/page.tsx:154-157 | no overdue task is due exactly now |
| Dashboard.AlertsWithinTasksLeft | app/dashboard/page.tsx:145-159 | the overdue and high-priority counts each are at most the tasks left |
| Dashboard.AllDoneClearsAlerts | app/dashboard/page.tsx:142-159 | when every task is completed, nothing is left and both alert lists are empty |
| Dashboard.TodayAndOverdueOverlap | app/dashboard/page.tsx:147-157 | a task due earlier today is in both the "due today" and the "overdue" list |
| Dashboard.CategoryRollup | app/dashboard/page.tsx:474-476 | the total is the number of tasks with the category and completed the number of those that are completed; completed ≤ total ≤ all tasks, and the total is 0 exactly when no task has the category |
| Dashboard.CategoryRollups | app/dashboard/page.tsx:474-476 | there is one badge per category, in the categories' order, each the rollup of that category |
| Dashboard.EmptyCategoryReportsZero | app/dashboard/page.tsx:475-476 | a category with no tasks reports 0/0 |
| CalendarView.DatesWithTodos | components/calendar-view.tsx:47-55 | the loop builds exactly the set of days on which some task is due |
| CalendarView.HasTodos | components/calendar-view.tsx:142 | a cell is marked when its day is in the set of days with tasks |
| CalendarView.MarkedIffTasksListed | components/calendar-view.tsx:142 | a calendar cell is marked exactly when selecting it lists at least one task |
| CalendarView.UpcomingTasks | components/calendar-view.tsx:249-255 | at most 5 entries, each open, dated and due strictly after the selected instant; they are the first of all such tasks in list order, and all of them when there are fewer than 5 |
| CalendarView.UpcomingKeepsOrder | components/calendar-view.tsx:249-255 | the upcoming tasks of a list are those of its front followed by those of its back |
| CalendarView.PriorityColor | components/calendar-view.tsx:57-68 | high is red, medium yellow, low green, and any other value gray |
| CalendarView.PriorityColorAgreesWithRank | components/calendar-view.tsx:57-68 | red is exactly rank 3, green exactly rank 1, and yellow or gray exactly rank 2 |
| CalendarView.Normalize | components/calendar-view.tsx:113-128 | the `new Date(year, month)` carry gives a month in 0..11 and keeps year*12+month |
| CalendarView.PreviousMonth | components/calendar-view.tsx:113 | the month before, as a valid month: one less in year*12+month |
| CalendarView.NextMonth | components/calendar-view.tsx:128 | the month after, as a valid month: one more in year*12+month |
| CalendarView.MonthCarry | components/calendar-view.tsx:113-128 | January goes back to December of the year before, December forward to January of the year after, and previous and next are inverse |
| CalendarView.MonthButtonsLand | components/calendar-view.tsx:113-128 | under a lawful calendar, "<" and ">" land on the first instant of the adjacent month, and ">" after "<" returns to the starting month |
| CalendarView.Selection.constructor | components/calendar-view.tsx:35 | the selected date starts at now |
| CalendarView.Selection.GoToPreviousMonth | components/calendar-view.tsx:113 | the selected date becomes the first instant of the month before the selected one |
| CalendarView.Selection.GoToToday | components/calendar-view.tsx:120 | the selected date becomes now |
| CalendarView.Selection.GoToNextMonth | components/calendar-view.tsx:128 | the selected date becomes the first instant of the month after the selected one |
| CalendarView.Selection.Select | components/calendar-view.tsx:139 | a clicked date is selected, and a cleared selection leaves the date as it was |
| NotificationCenter.MarkRead | components/notification-center.tsx:75 | same length and order; an entry becomes read exactly when it was read or has the id, and nothing else in it changes |
| NotificationCenter.MarkAllRead | components/notification-center.tsx:95 | same length and order; every entry is the old one with `read` set |
| NotificationCenter.Remove | components/notification-center.tsx:116 | exactly the entries with another id stay |
| NotificationCenter.UnreadCount | components/notification-center.tsx:132 | at most the list length, and 0 exactly when every entry is read |
| NotificationCenter.ReadCount | components/notification-center.tsx:179 | the "Read" tab count, length minus unread, is the number of read entries |
| NotificationCenter.Visible | components/notification-center.tsx:126-130 | "All" shows the list; "Unread" shows exactly the unread entries and "Read" exactly the read ones; the sizes match the tab counts |
| NotificationCenter.MarkReadIdempotent | components/notification-center.tsx:75 | marking the same id read twice is the same as once |
| NotificationCenter.MarkReadUnreadCount | components/notification-center.tsx:75 | after marking an id read, the unread entries are exactly the unread ones with another id |
| NotificationCenter.MarkAllReadClears | components/notification-center.tsx:95 | afterwards nothing is unread, ids are kept, and a second call changes nothing |
| NotificationCenter.MarkAllReadChangesIffUnread | components/notification-center.tsx:157 | "Mark all read" changes the list exactly when something is unread, which is when the button is rendered |
| NotificationCenter.MarkAllReadAbsorbs | components/notification-center.tsx:75-95 | marking all read after marking one read is the same as marking all read |
| NotificationCenter.ExampleCounts | components/notification-center.tsx:132 | unread, read, unread gives an unread count of 2, and 0 after marking all read |
| NotificationCenter.VisibleKeepsOrder | components/notification-center.tsx:126-130 | every tab shows its entries in the list's order: the tab's view of a concatenation is the concatenation of the views |
| NotificationCenter.RemoveKeepsOrder | components/notification-center.tsx:116 | deletion keeps the list order (it distributes over concatenation) |
| NotificationCenter.RemoveIdempotent | components/notification-center.tsx:116 | deleting an absent id changes nothing, and deleting twice is deleting once |
| NotificationCenter.Center.constructor | components/notification-center.tsx:32-34 | the list starts empty and loading, on the "All" tab |
| NotificationCenter.Center.MarkAllOffered | components/notification-center.tsx:157 | the button is shown exactly when some notification is unread, which is exactly when marking all read would change the list |
| NotificationCenter.Center.Fetch | components/notification-center.tsx:44-63 | a failed query keeps the list, a successful one installs its rows (or nothing), and loading stops either way |
| NotificationCenter.Center.MarkAsRead | components/notification-center.tsx:65-83 | on a successful write the list becomes `MarkRead` of the old one, and otherwise it is unchanged |
| NotificationCenter.Center.MarkAllAsRead | components/notification-center.tsx:85-108 | on a successful write every entry becomes read and nothing is unread, and otherwise the list is unchanged |
| NotificationCenter.Center.DeleteNotification | components/notification-center.tsx:110-124 | on a successful write the entries with the id leave the list, and otherwise it is unchanged |
| NotificationCenter.Center.SelectTab | components/notification-center.tsx:183 | a tab button selects its tab |
| TeamManager.Trim | components/team-manager.tsx:129 | the trimmed string is never longer than the input (what it removes is stated by TrimSpec) |
| TeamManager.TrimSpec | components/team-manager.tsx:129 | the trimmed string neither starts nor ends with white space, and the input is that string with only white space around it |
| TeamManager.TrimBlank | components/team-manager.tsx:129 | the trim is empty exactly when the string is blank, which is the guard's condition |
| TeamManager.TrimOfTrimmed | components/team-manager.tsx:137-138 | a string without outer white space is its own trim |
| TeamManager.TrimIdempotent | components/team-manager.tsx:187 | trimming twice is trimming once |
| TeamManager.MembershipRows | components/team-manager.tsx:193-198 | the look-up finds rows exactly when the user is a member of the team |
| TeamManager.TeamByCode | components/team-manager.tsx:184-190 | a found team is in the table and carries the code |
| TeamManager.AtMostOneMembershipRow | components/team-manager.tsx:193-202 | without duplicate pairs, the membership look-up finds at most one row |
| TeamManager.MemberCount | components/team-manager.tsx:81-86 | the count is the number of `team_members` rows of the team |
| TeamManager.MemberCounted | components/team-manager.tsx:79-88 | a team the user belongs to has a member count of at least 1 |
| TeamManager.MemberCountAppend | components/team-manager.tsx:81-86 | a new row adds one to its team's count and leaves the other teams' counts alone |
| TeamManager.TeamsOf | components/team-manager.tsx:63-98 | the list holds exactly the teams the user belongs to, one entry per such team; each shows its number of member rows, which is at least 1, when its count query answered, and 0 when it did not |
| TeamManager.TeamInsertKeepsValid | components/team-manager.tsx:133-145 | a team with the next id and an unused code keeps the tables valid |
| TeamManager.MemberInsertKeepsValid | components/team-manager.tsx:205-213 | a row for an issued team and an absent pair keeps the tables valid |
| TeamManager.FreshTeamHasNoMembers | components/team-manager.tsx:148-154 | no membership row refers to the id of a team being created |
| TeamManager.ExistingRowIsMembership | components/team-manager.tsx:193-202 | under the invariant, `.single()` finds a row exactly when the user is a member |
| TeamManager.CodeFindsTeam | components/team-manager.tsx:184-190 | under the invariant, a team's own code finds that team |
| TeamManager.JoinNeverDuplicates | components/team-manager.tsx:193-213 | whatever the look-ups answered, a successful join inserts a pair that was absent, so no duplicate pair arises |
| TeamManager.RejoinFails | components/team-manager.tsx:184-213 | joining with the code of a team one already belongs to never succeeds: it fails as an invalid code when the code query fails, as AlreadyMember when the check answers, and as a refused insert when the check fails |
| TeamManager.UnknownCodeFails | components/team-manager.tsx:184-190 | a code that no team carries fails as an invalid invite code, whatever the queries answer |
| TeamManager.OrphanedTeamIsListedNowhere | components/team-manager.tsx:148-156 | a team whose owner row was refused is in nobody's team list |
| TeamManager.JoinAddsOneMember | components/team-manager.tsx:205-213 | a join raises that team's member count by one and no other team's |
| TeamManager.Manager.constructor | components/team-manager.tsx:47-53 | forms start empty and not loading, over tables that are valid |
| TeamManager.Manager.EditTeamForm | components/team-manager.tsx:421-435 | typing sets the name and description fields |
| TeamManager.Manager.EditInviteCode | components/team-manager.tsx:467 | typing sets the invite-code field |
| TeamManager.Manager.InsertTeam | components/team-manager.tsx:133-145 | the insert succeeds exactly when accepted and the code is unused; it appends the team with the next id and the current user as owner and keeps the tables valid |
| TeamManager.Manager.InsertMember | components/team-manager.tsx:148-156 | the insert succeeds exactly when the backend accepts it and the `(team, user)` pair is absent; it appends the row and keeps the tables valid |
| TeamManager.Manager.InsertTeamWithOwner | components/team-manager.tsx:133-156 | the team row, then the owner row; a refused team row writes nothing, and a refused owner row leaves the team row |
| TeamManager.Manager.SubmitTeam | components/team-manager.tsx:131-173 | `loading` ends false; the form is cleared only when both inserts succeed |
| TeamManager.Manager.CreateTeam | components/team-manager.tsx:127-175 | a blank name writes nothing and leaves `loading`; otherwise it writes the team with trimmed name and description and the user's owner row, as far as the backend accepts, ends not loading, and keeps the tables valid |
| TeamManager.Manager.InsertJoin | components/team-manager.tsx:184-213 | a failed or empty code look-up, an existing membership seen by the check, and a refused insert write nothing; a failed check goes on to the insert; otherwise exactly one member row is appended, and the tables stay valid |
| TeamManager.Manager.JoinTeam | components/team-manager.tsx:177-231 | a blank code does nothing; otherwise it writes at most the one member row for the team of the trimmed code, clears the code on success, ends not loading, and never duplicates a pair, whatever the look-ups answered |

## Left out

- Rendering: JSX, CSS classes, the badge colours, the icons (`getPriorityIcon`, `getNotificationIcon`, `getRoleIcon`), modals, the agenda view and the disabled state of buttons.
- The hosted backend, the auth context, toasts and router redirects. Each query or write is a parameter: accepted or refused, or the rows returned.
- The other components and pages (auth, task form, category manager, email service, e-mail API route): they are outside this model.
- `fetchTeamMembers` and `copyInviteCode`. They only read the tables or use the clipboard.
- The refetches that follow each successful write. The team list is stated as a function of the tables (`TeamsOf`) instead.
- TeamManager.TeamsOf: does not model a failed team-list query, which only shows an error toast and keeps the list shown before. The list on screen is not part of the model's state.
- TeamManager.Trim: its own contract only bounds the length. What it removes is stated by the lemmas `TrimSpec`, `TrimBlank` and `TrimIdempotent`, so the methods that call it stay cheap to verify.
- The `Promise.all` fan-out in `fetchTeams` and any interleaving of asynchronous calls. Each action runs to completion.
- date-fns and time zones. `isToday`, `isTomorrow`, `isPast`, `isSameDay` and `toDateString` become `dayOf` and `now`. The "MMM d" text is the opaque label `OnDate(date)`. The "yyyy-MM-dd" key is the day number.
- Dates that do not parse (`new Date` giving NaN): a due date is either absent or a valid instant.
- Dashboard.ProgressPercentage: uses exact reals, without floating point or the `toFixed(0)` rounding of the display.
- TodoList.PriorityRank: does not model priority strings that name a property inherited by the rank object, such as "constructor". For those, `priorityOrder[p] || 2` is not a number.
- TeamManager.IsWhitespace: lists the common white-space characters and line terminators, not every Unicode space separator that `trim` removes.
- TeamManager.Manager.InsertTeam: uses a counter for team ids instead of backend-generated UUIDs. The invite code generated by the backend is a parameter of `createTeam`, and its uniqueness is the table's constraint.
