/** The notification list kept by `NotificationProvider` in
    `src/components/Notifications.tsx`: new entries are prepended, removal
    filters by id, marking as read maps over the list, the container shows
    the first five and the bell shows the unread count. The clock is a
    parameter; the auto-close timer is modelled as the removal it
    eventually performs. */
module Notifications {
  import opened Common
  import opened Decimal
  import Seqs

  datatype Kind = Info | Success | Warning | Error

  datatype Notification = Notification(id: string, kind: Kind, title: string, message: Option<string>,
                                       timestamp: int, read: bool, autoClose: bool, duration: int)

  /** What a caller passes to `addNotification`; `None` is an omitted field. */
  datatype NotificationInput = NotificationInput(kind: Kind, title: string, message: Option<string>,
                                                 autoClose: Option<bool>, duration: Option<int>)

  const DefaultDuration: int := 5000

  /** The number of entries shown by the container. */
  const VisibleLimit: nat := 5

  /** `addNotification(input)` at time `now` (ms): the new entry, its id the
      decimal rendering of `now`, goes first. */
  function AddNotification(list: seq<Notification>, input: NotificationInput, now: int): (r: seq<Notification>)
    ensures |r| == |list| + 1 && r[1..] == list
    ensures r[0].id == IntToString(now) && r[0].timestamp == now && !r[0].read
    ensures r[0].kind == input.kind && r[0].title == input.title && r[0].message == input.message
    ensures r[0].autoClose == (input.autoClose.None? || input.autoClose.value)
    ensures r[0].duration == (if input.duration.Some? then input.duration.value else DefaultDuration)
  {
    var n := Notification(IntToString(now), input.kind, input.title, input.message, now, false,
                          input.autoClose.GetOr(true), input.duration.GetOr(DefaultDuration));
    [n] + list
  }

  /** The delay after which the new entry's timer removes it, if it has one. */
  function AutoCloseDelay(n: Notification): (d: Option<int>)
    ensures d.Some? <==> n.autoClose
    ensures d.Some? ==> d.value == n.duration
  {
    if n.autoClose then Some(n.duration) else None
  }

  /** `removeNotification(id)`. */
  function RemoveNotification(list: seq<Notification>, id: string): (r: seq<Notification>)
    ensures |r| <= |list|
    ensures forall k :: 0 <= k < |r| ==> r[k].id != id && r[k] in list
    ensures forall k :: 0 <= k < |list| && list[k].id != id ==> list[k] in r
    decreases |list|
  {
    if |list| == 0 then []
    else if list[0].id == id then RemoveNotification(list[1..], id)
    else [list[0]] + RemoveNotification(list[1..], id)
  }

  /** `markAsRead(id)`. */
  function MarkAsRead(list: seq<Notification>, id: string): (r: seq<Notification>)
    ensures |r| == |list|
    ensures forall k :: 0 <= k < |list| ==>
      r[k] == (if list[k].id == id then list[k].(read := true) else list[k])
    decreases |list|
  {
    if |list| == 0 then []
    else [if list[0].id == id then list[0].(read := true) else list[0]] + MarkAsRead(list[1..], id)
  }

  /** `clearAll()`. */
  function ClearAll(list: seq<Notification>): (r: seq<Notification>)
    ensures |r| == 0
  {
    []
  }

  /** `unreadCount`: the number of entries not yet read. */
  function UnreadCount(list: seq<Notification>): (c: nat)
    ensures c <= |list|
    ensures c == 0 <==> forall k :: 0 <= k < |list| ==> list[k].read
    decreases |list|
  {
    if |list| == 0 then 0
    else (if list[0].read then 0 else 1) + UnreadCount(list[1..])
  }

  /** The filter of `notifications.filter(n => !n.read)`. */
  predicate IsUnread(n: Notification) { !n.read }

  /** `unreadCount` is the length of the list of unread entries, as the
      component computes it. */
  lemma {:induction false} UnreadCountIsFilterLength(list: seq<Notification>)
    ensures UnreadCount(list) == |Seqs.FilterSeq(list, IsUnread)|
    decreases |list|
  {
    if |list| > 0 {
      UnreadCountIsFilterLength(list[1..]);
    }
  }

  /** The entries the container renders: `notifications.slice(0, 5)`. */
  function Visible(list: seq<Notification>): (r: seq<Notification>)
    ensures |r| == (if |list| < VisibleLimit then |list| else VisibleLimit)
    ensures r <= list
  {
    if |list| < VisibleLimit then list else list[..VisibleLimit]
  }

  /** The bell's badge: nothing when all is read, the count up to nine,
      and "9+" beyond. */
  function Badge(unread: nat): (b: Option<string>)
    ensures b.None? <==> unread == 0
    ensures b == Some("9+") <==> unread > 9
    ensures b.Some? && unread <= 9 ==> ParseIntDecimal(b.value) == Some(unread)
    ensures b.Some? ==> 1 <= |b.value| <= 2
  {
    if unread == 0 then None
    else if unread > 9 then Some("9+")
    else
      DecimalRoundTrip(unread);
      Some(IntToString(unread))
  }

  // ---------------------------------------------------------------------
  // Properties
  // ---------------------------------------------------------------------

  /** The id a notification added at `now` receives is taken by no entry. */
  predicate FreshId(list: seq<Notification>, now: int) {
    forall k :: 0 <= k < |list| ==> list[k].id != IntToString(now)
  }

  /** Removal splits over concatenation, so it keeps the surviving entries
      in their order. */
  lemma {:induction false} RemoveConcat(a: seq<Notification>, b: seq<Notification>, id: string)
    ensures RemoveNotification(a + b, id) == RemoveNotification(a, id) + RemoveNotification(b, id)
    decreases |a|
  {
    if |a| > 0 {
      assert (a + b)[1..] == a[1..] + b;
      RemoveConcat(a[1..], b, id);
    } else {
      assert a + b == b;
    }
  }

  /** Removing an id no entry carries changes nothing. */
  lemma {:induction false} RemoveAbsent(list: seq<Notification>, id: string)
    requires forall k :: 0 <= k < |list| ==> list[k].id != id
    ensures RemoveNotification(list, id) == list
    decreases |list|
  {
    if |list| > 0 {
      RemoveAbsent(list[1..], id);
    }
  }

  /** Removing twice is removing once. */
  lemma RemoveIdempotent(list: seq<Notification>, id: string)
    ensures RemoveNotification(RemoveNotification(list, id), id) == RemoveNotification(list, id)
  {
    RemoveAbsent(RemoveNotification(list, id), id);
  }

  /** The auto-close removal of an entry with a fresh id gives back the list
      as it was before the entry was added. */
  lemma AddThenRemove(list: seq<Notification>, input: NotificationInput, now: int)
    requires FreshId(list, now)
    ensures RemoveNotification(AddNotification(list, input, now), IntToString(now)) == list
  {
    RemoveAbsent(list, IntToString(now));
  }

  /** Ids come from the clock: two notifications added in the same
      millisecond share an id, and the first one's auto-close removes the
      second as well. */
  lemma SameMillisecondRemovesBoth(list: seq<Notification>, first: NotificationInput,
                                   second: NotificationInput, now: int)
    requires FreshId(list, now)
    ensures var both := AddNotification(AddNotification(list, first, now), second, now);
      && both[0].id == both[1].id
      && RemoveNotification(both, both[1].id) == list
  {
    RemoveAbsent(list, IntToString(now));
  }

  /** A newly added entry is unread and shown first. */
  lemma AddIsVisibleAndUnread(list: seq<Notification>, input: NotificationInput, now: int)
    ensures var after := AddNotification(list, input, now);
      && Visible(after)[0] == after[0]
      && UnreadCount(after) == UnreadCount(list) + 1
  {
  }

  /** The number of unread entries carrying `id`. */
  function UnreadWithId(list: seq<Notification>, id: string): (c: nat)
    ensures c <= UnreadCount(list)
    ensures c == 0 <==> forall k :: 0 <= k < |list| && list[k].id == id ==> list[k].read
    decreases |list|
  {
    if |list| == 0 then 0
    else (if !list[0].read && list[0].id == id then 1 else 0) + UnreadWithId(list[1..], id)
  }

  /** Marking an id as read lowers the unread count by exactly the unread
      entries with that id. */
  lemma {:induction false} MarkAsReadCount(list: seq<Notification>, id: string)
    ensures UnreadCount(MarkAsRead(list, id)) == UnreadCount(list) - UnreadWithId(list, id)
    decreases |list|
  {
    if |list| > 0 {
      MarkAsReadCount(list[1..], id);
      assert MarkAsRead(list, id)[1..] == MarkAsRead(list[1..], id);
    }
  }

  /** Removing an id lowers the unread count by exactly the unread entries
      with that id. */
  lemma {:induction false} RemoveCount(list: seq<Notification>, id: string)
    ensures UnreadCount(RemoveNotification(list, id)) == UnreadCount(list) - UnreadWithId(list, id)
    decreases |list|
  {
    if |list| > 0 {
      RemoveCount(list[1..], id);
      if list[0].id != id {
        assert ([list[0]] + RemoveNotification(list[1..], id))[1..] == RemoveNotification(list[1..], id);
      }
    }
  }

  /** Marking as read twice is marking once, and it changes nothing but the
      read flag. */
  lemma MarkAsReadIdempotent(list: seq<Notification>, id: string)
    ensures MarkAsRead(MarkAsRead(list, id), id) == MarkAsRead(list, id)
    ensures forall k :: 0 <= k < |list| ==> MarkAsRead(list, id)[k].(read := list[k].read) == list[k]
  {
  }

  /** After clearing, the bell shows nothing. */
  lemma ClearAllSilencesBell(list: seq<Notification>)
    ensures Badge(UnreadCount(ClearAll(list))).None?
    ensures Visible(ClearAll(list)) == []
  {
  }
}
