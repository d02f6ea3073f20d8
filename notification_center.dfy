/**
 * The notification centre (components/notification-center.tsx): an in-memory
 * list of the user's notifications that each action replaces after its write
 * to the backend succeeds, with the all/unread/read tabs and the counts shown
 * on them.
 *
 * The backend is not modelled; each action receives whether its write
 * succeeded. When it did not, the source throws before touching the list,
 * so the list is left as it was.
 */
module NotificationCenter {
  import opened Tasks

  datatype Notification = Notification(
    id: string,
    title: string,
    message: string,
    kind: string,                 // "reminder", "overdue" or anything else
    read: bool,
    scheduledFor: Option<Instant>,
    sentAt: Option<Instant>,
    createdAt: Instant,
    todoId: Option<string>)

  /** The filter tabs. */
  datatype Tab = All | Unread | Read

  predicate IsUnread(n: Notification) { !n.read }
  predicate IsRead(n: Notification) { n.read }

  // ---------------------------------------------------------------------------
  // The list updates, as functions of the old list.
  // ---------------------------------------------------------------------------

  /** `prev.map(n => n.id === id ? { ...n, read: true } : n)`. */
  function MarkRead(ns: seq<Notification>, id: string): (r: seq<Notification>)
    ensures |r| == |ns|
    ensures forall i :: 0 <= i < |r| ==> r[i].(read := ns[i].read) == ns[i]
    ensures forall i :: 0 <= i < |r| ==> r[i].read == (ns[i].read || ns[i].id == id)
  {
    if ns == [] then []
    else [if ns[0].id == id then ns[0].(read := true) else ns[0]] + MarkRead(ns[1..], id)
  }

  /** `prev.map(n => ({ ...n, read: true }))`. */
  function MarkAllRead(ns: seq<Notification>): (r: seq<Notification>)
    ensures |r| == |ns|
    ensures forall i :: 0 <= i < |r| ==> r[i] == ns[i].(read := true)
  {
    if ns == [] then [] else [ns[0].(read := true)] + MarkAllRead(ns[1..])
  }

  /** `prev.filter(n => n.id !== id)`. */
  function Remove(ns: seq<Notification>, id: string): (r: seq<Notification>)
    ensures forall i :: 0 <= i < |r| ==> r[i] in ns && r[i].id != id
    ensures forall i :: 0 <= i < |ns| && ns[i].id != id ==> ns[i] in r
  {
    Filter(ns, (n: Notification) => n.id != id)
  }

  // ---------------------------------------------------------------------------
  // Projections and counts.
  // ---------------------------------------------------------------------------

  /** `unreadCount`. */
  function UnreadCount(ns: seq<Notification>): (c: nat)
    ensures c <= |ns|
    ensures c == 0 <==> forall i :: 0 <= i < |ns| ==> ns[i].read
  {
    FilterEmpty(ns, IsUnread);
    |Filter(ns, IsUnread)|
  }

  /** The count on the "Read" tab, `notifications.length - unreadCount`: the read entries. */
  function ReadCount(ns: seq<Notification>): (c: int)
    ensures c == |Filter(ns, IsRead)|
    ensures c + UnreadCount(ns) == |ns|
  {
    FilterComplement(ns, IsUnread, IsRead);
    |ns| - UnreadCount(ns)
  }

  /** `filteredNotifications`: what the selected tab shows, in list order. */
  function Visible(ns: seq<Notification>, tab: Tab): (r: seq<Notification>)
    ensures tab == All ==> r == ns
    ensures tab == Unread ==> |r| == UnreadCount(ns)
    ensures tab == Read ==> |r| == ReadCount(ns)
    ensures forall i :: 0 <= i < |r| ==> r[i] in ns
    ensures forall i :: 0 <= i < |r| ==> (tab == Unread ==> !r[i].read) && (tab == Read ==> r[i].read)
    ensures forall i :: 0 <= i < |ns| && (tab == All || (tab == Unread) == !ns[i].read) ==> ns[i] in r
  {
    match tab
    case All =>
      FilterKeepsAll(ns, (n: Notification) => true);
      Filter(ns, (n: Notification) => true)
    case Unread => Filter(ns, IsUnread)
    case Read => Filter(ns, IsRead)
  }

  // ---------------------------------------------------------------------------
  // Properties of the updates.
  // ---------------------------------------------------------------------------

  /** Marking one notification read twice is the same as once. */
  lemma MarkReadIdempotent(ns: seq<Notification>, id: string)
    ensures MarkRead(MarkRead(ns, id), id) == MarkRead(ns, id)
  {
  }

  /** Marking one notification read removes from the unread count exactly its unread entries. */
  lemma {:induction false} MarkReadUnreadCount(ns: seq<Notification>, id: string)
    ensures UnreadCount(MarkRead(ns, id)) == |Filter(ns, (n: Notification) => !n.read && n.id != id)|
  {
    if ns != [] {
      MarkReadUnreadCount(ns[1..], id);
      assert MarkRead(ns, id)[1..] == MarkRead(ns[1..], id);
    }
  }

  /** After "Mark all read" nothing is unread, and doing it again changes nothing. */
  lemma MarkAllReadClears(ns: seq<Notification>)
    ensures UnreadCount(MarkAllRead(ns)) == 0
    ensures MarkAllRead(MarkAllRead(ns)) == MarkAllRead(ns)
    ensures forall i :: 0 <= i < |ns| ==> MarkAllRead(ns)[i].id == ns[i].id
  {
  }

  /** "Mark all read" changes the list exactly when something is unread, which is when the button is shown. */
  lemma MarkAllReadChangesIffUnread(ns: seq<Notification>)
    ensures MarkAllRead(ns) != ns <==> UnreadCount(ns) > 0
  {
    if UnreadCount(ns) > 0 {
      var i :| 0 <= i < |ns| && !ns[i].read;
      assert MarkAllRead(ns)[i] != ns[i];
    }
  }

  /** Marking all read subsumes marking any one read. */
  lemma MarkAllReadAbsorbs(ns: seq<Notification>, id: string)
    ensures MarkAllRead(MarkRead(ns, id)) == MarkAllRead(ns)
  {
  }

  /** Two unread entries and one read one: two unread, and none after "Mark all read". */
  lemma ExampleCounts(n: Notification)
    ensures var ns := [n.(read := false), n.(read := true), n.(read := false)];
      UnreadCount(ns) == 2 && UnreadCount(MarkAllRead(ns)) == 0
      && forall i :: 0 <= i < 3 ==> MarkAllRead(ns)[i].read
  {
    var ns := [n.(read := false), n.(read := true), n.(read := false)];
    var last := ns[1..][1..];
    assert last == [ns[2]] && last[1..] == [];
    assert Filter(last, IsUnread) == [ns[2]];
    assert Filter(ns[1..], IsUnread) == [ns[2]];
    assert Filter(ns, IsUnread) == [ns[0], ns[2]];
    MarkAllReadClears(ns);
  }

  /** Every tab shows its entries in the list's order: the tab filter distributes over concatenation. */
  lemma VisibleKeepsOrder(front: seq<Notification>, back: seq<Notification>, tab: Tab)
    ensures Visible(front + back, tab) == Visible(front, tab) + Visible(back, tab)
  {
    match tab
    case All =>
    case Unread => FilterConcat(front, back, IsUnread);
    case Read => FilterConcat(front, back, IsRead);
  }

  /** Deleting removes every entry with that id and keeps the others in order. */
  lemma {:induction false} RemoveKeepsOrder(front: seq<Notification>, back: seq<Notification>, id: string)
    ensures Remove(front + back, id) == Remove(front, id) + Remove(back, id)
  {
    FilterConcat(front, back, (n: Notification) => n.id != id);
  }

  /** Deleting an id that is not in the list changes nothing; deleting twice is deleting once. */
  lemma {:induction false} RemoveIdempotent(ns: seq<Notification>, id: string)
    ensures (forall i :: 0 <= i < |ns| ==> ns[i].id != id) ==> Remove(ns, id) == ns
    ensures Remove(Remove(ns, id), id) == Remove(ns, id)
  {
    if forall i :: 0 <= i < |ns| ==> ns[i].id != id {
      FilterKeepsAll(ns, (n: Notification) => n.id != id);
    }
    var r := Remove(ns, id);
    FilterKeepsAll(r, (n: Notification) => n.id != id);
  }

  // ---------------------------------------------------------------------------
  // The component's state.
  // ---------------------------------------------------------------------------

  class Center {
    var notifications: seq<Notification>
    var loading: bool
    var tab: Tab

    constructor()
      ensures notifications == [] && loading && tab == All
    {
      notifications := [];
      loading := true;
      tab := All;
    }

    /** The "Mark all read" button is rendered only while something is unread. */
    predicate MarkAllOffered(): (b: bool)
      reads this
      ensures b <==> exists i :: 0 <= i < |notifications| && !notifications[i].read
      ensures b <==> MarkAllRead(notifications) != notifications
    {
      MarkAllReadChangesIffUnread(notifications);
      UnreadCount(notifications) > 0
    }

    /**
     * `fetchNotifications`: a query that fails keeps the list; one that
     * succeeds replaces it with its rows, or with the empty list when it
     * returns no data. Either way the spinner stops.
     */
    method Fetch(queryOk: bool, data: Option<seq<Notification>>)
      modifies this`notifications, this`loading
      ensures notifications == (if !queryOk then old(notifications) else if data.Some? then data.value else [])
      ensures !loading
    {
      if queryOk {
        notifications := if data.Some? then data.value else [];
      }
      loading := false;
    }

    /** `markAsRead`: on a successful write, marks the entries with that id. */
    method MarkAsRead(id: string, writeOk: bool) returns (ok: bool)
      modifies this`notifications
      ensures ok == writeOk
      ensures notifications == (if writeOk then MarkRead(old(notifications), id) else old(notifications))
    {
      if !writeOk {
        return false;
      }
      notifications := MarkRead(notifications, id);
      return true;
    }

    /** `markAllAsRead`: on a successful write, every entry becomes read. */
    method MarkAllAsRead(writeOk: bool) returns (ok: bool)
      modifies this`notifications
      ensures ok == writeOk
      ensures notifications == (if writeOk then MarkAllRead(old(notifications)) else old(notifications))
      ensures ok ==> UnreadCount(notifications) == 0
    {
      if !writeOk {
        return false;
      }
      notifications := MarkAllRead(notifications);
      MarkAllReadClears(old(notifications));
      return true;
    }

    /** `deleteNotification`: on a successful write, the entries with that id leave the list. */
    method DeleteNotification(id: string, writeOk: bool) returns (ok: bool)
      modifies this`notifications
      ensures ok == writeOk
      ensures notifications == (if writeOk then Remove(old(notifications), id) else old(notifications))
    {
      if !writeOk {
        return false;
      }
      notifications := Remove(notifications, id);
      return true;
    }

    /** A tab button. */
    method SelectTab(t: Tab)
      modifies this`tab
      ensures tab == t
    {
      tab := t;
    }
  }
}
