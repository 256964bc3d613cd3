/** The notification panel (`NotificationPanel.tsx`): nothing when there
    are no notifications, otherwise a header with their count and one entry
    per notification with its icon, message and age. Times are
    milliseconds since the epoch, as `Date.getTime()` returns them. */
module Notifications {
  import opened Basics
  import opened Numbers

  const MinuteMs := 60000
  const HourMs := 3600000

  datatype Notification = Notification(id: string, kind: string, message: string, timestamp: int)

  /** `getIcon`: one icon per known kind; anything else is shown as info. */
  function GetIcon(kind: string): (icon: string)
    ensures kind == "success" ==> icon == "✓"
    ensures kind == "error" ==> icon == "✕"
    ensures kind == "warning" ==> icon == "⚠"
    ensures icon == "ℹ" <==> kind != "success" && kind != "error" && kind != "warning"
  {
    match kind
    case "success" => "✓"
    case "error" => "✕"
    case "warning" => "⚠"
    case "info" => "ℹ"
    case _ => "ℹ"
  }

  /** `formatTimestamp`: whole minutes up to an hour, whole hours after it.
      `Math.floor` of a division by a positive constant is Dafny's `/`. */
  function FormatTimestamp(now: int, timestamp: int): (r: string)
    ensures now - timestamp < MinuteMs ==> r == "только что"
    ensures MinuteMs <= now - timestamp < HourMs ==>
      1 <= (now - timestamp) / MinuteMs < 60 && r == IntToString((now - timestamp) / MinuteMs) + " мин назад"
    ensures HourMs <= now - timestamp ==>
      (now - timestamp) / HourMs >= 1 && r == IntToString((now - timestamp) / HourMs) + " ч назад"
  {
    var diff := now - timestamp;
    var minutes := diff / MinuteMs;
    if minutes < 1 then "только что"
    else if minutes < 60 then IntToString(minutes) + " мин назад"
    else
      HoursOfMinutes(diff);
      IntToString(minutes / 60) + " ч назад"
  }

  /** Whole hours of whole minutes are the whole hours. */
  lemma HoursOfMinutes(diff: int)
    ensures diff / MinuteMs / 60 == diff / HourMs
  {
    var q := diff / MinuteMs;
    var r := diff % MinuteMs;
    var h := q / 60;
    var m := q % 60;
    assert diff == HourMs * h + (MinuteMs * m + r);
    assert 0 <= MinuteMs * m + r < HourMs;
  }

  datatype Entry = Entry(id: string, className: string, icon: string, message: string, age: string)

  datatype PanelView = PanelView(header: string, entries: seq<Entry>)

  function Render(n: Notification, now: int): Entry {
    Entry(n.id, "notification-item notification-" + n.kind, GetIcon(n.kind), n.message, FormatTimestamp(now, n.timestamp))
  }

  /** The panel: absent for an empty list, otherwise one entry per
      notification, in list order, under a header that counts them. */
  function Panel(notifications: seq<Notification>, now: int): (r: Option<PanelView>)
    ensures r.None? <==> |notifications| == 0
    ensures r.Some? ==>
      r.value.header == "Уведомления (" + NatToString(|notifications|) + ")"
      && |r.value.entries| == |notifications|
      && forall i :: 0 <= i < |notifications| ==>
        r.value.entries[i].id == notifications[i].id
        && r.value.entries[i].message == notifications[i].message
        && r.value.entries[i].icon == GetIcon(notifications[i].kind)
        && r.value.entries[i].className == "notification-item notification-" + notifications[i].kind
        && r.value.entries[i].age == FormatTimestamp(now, notifications[i].timestamp)
  {
    if |notifications| == 0 then None
    else
      Some(PanelView(
        "Уведомления (" + NatToString(|notifications|) + ")",
        seq(|notifications|, i requires 0 <= i < |notifications| => Render(notifications[i], now))))
  }

  /** Closing one notification (the `×` button) leaves the panel with the
      other entries, unchanged and in order, and a header that counts one
      fewer; closing the last one hides the panel. */
  lemma ClosingDropsOneEntry(notifications: seq<Notification>, i: nat, now: int)
    requires i < |notifications|
    ensures var rest := notifications[..i] + notifications[i + 1..];
      && (Panel(rest, now).None? <==> |notifications| == 1)
      && (Panel(rest, now).Some? ==>
            && Panel(rest, now).value.header == "Уведомления (" + NatToString(|notifications| - 1) + ")"
            && Panel(rest, now).value.entries
               == Panel(notifications, now).value.entries[..i] + Panel(notifications, now).value.entries[i + 1..])
  {
    var rest := notifications[..i] + notifications[i + 1..];
    if |rest| > 0 {
      var a := Panel(rest, now).value.entries;
      var b := Panel(notifications, now).value.entries;
      assert |a| == |b[..i] + b[i + 1..]|;
      forall j | 0 <= j < |a| ensures a[j] == (b[..i] + b[i + 1..])[j] {
        if j < i {
          assert rest[j] == notifications[j];
        } else {
          assert rest[j] == notifications[j + 1];
        }
      }
    }
  }
}
