/** The calendar screen's events: the map from `YYYY-MM-DD` keys to each
    day's events that `addEvent` and `deleteEvent` hand to the store's
    setter, the reminder each of them asks for, the month grid and the
    ordering of the selected day's events. Generated ids, the selected date
    and today's date are parameters. */
module CalendarEvents {
  import opened Wrappers
  import opened Types
  import opened Seqs
  import opened Strings
  import opened CalendarDates
  import Notifications
  import Sorting

  /** The stored events: for each date key, that day's events in the order added. */
  type EventMap = map<string, seq<CalendarEvent>>

  /** The invariant of the stored map: no bucket is empty, and every event
      sits under its own date. */
  predicate WellFormed(m: EventMap) {
    forall d :: d in m ==> m[d] != [] && forall i :: 0 <= i < |m[d]| ==> m[d][i].dateStr == d
  }

  /** `events[dateStr] && events[dateStr].length > 0`: the grid's dot under a day. */
  predicate HasEvents(m: EventMap, d: string) {
    d in m && |m[d]| > 0
  }

  /** In a well-formed map a day has events exactly when its key is stored. */
  lemma HasEventsIffKey(m: EventMap, d: string)
    requires WellFormed(m)
    ensures HasEvents(m, d) <==> d in m
  {
  }

  function EventHasId(id: string): CalendarEvent -> bool {
    (e: CalendarEvent) => e.id == id
  }

  /** The failure of `prev[dateStr].filter(...)` when the key is missing:
      reading a method of `undefined` throws a TypeError. */
  datatype UpdateError = TypeError

  // ------------------------------------------------------------ adding

  /** `dateOverride || selectedDateStr`: an absent or empty override falls back. */
  function TargetDate(dateOverride: Option<string>, selected: string): (d: string)
    ensures Truthy(dateOverride) ==> d == dateOverride.value
    ensures !Truthy(dateOverride) ==> d == selected
  {
    if Truthy(dateOverride) then dateOverride.value else selected
  }

  const ReminderTitle: string := "MindFlow Reminder"

  /** The arguments of a `scheduleNotification` call. */
  datatype ScheduleCall = ScheduleCall(id: string, title: string, body: string, dateStr: string, timeStr: string)

  /** What `addEvent` leads to: the next event map, the reminder it asks
      for, and the date selected afterwards. */
  datatype AddOutcome = AddOutcome(events: EventMap, reminder: Option<ScheduleCall>, selected: string)

  /** `addEvent(title, dateOverride, timeOverride)`: the new event goes at the
      end of its date's bucket (a new bucket when there is none) and every
      other bucket stays as it was; a reminder is asked for only when a
      (non-empty) time is given; an override date different from the
      selected one becomes the selected date. */
  function AddEvent(prev: EventMap, selected: string, eventId: string, title: string,
                    dateOverride: Option<string>, timeOverride: Option<string>): (r: AddOutcome)
    ensures var d := TargetDate(dateOverride, selected);
      && r.events.Keys == prev.Keys + {d}
      && r.events[d] == (if d in prev then prev[d] else []) + [CalendarEvent(eventId, d, title, timeOverride, None)]
      && (forall k :: k in prev && k != d ==> r.events[k] == prev[k])
      && (r.reminder.Some? <==> Truthy(timeOverride))
      && (r.reminder.Some? ==> r.reminder.value == ScheduleCall(eventId, ReminderTitle, title, d, timeOverride.value))
      && r.selected == d
  {
    var target := TargetDate(dateOverride, selected);
    var newEvent := CalendarEvent(eventId, target, title, timeOverride, None);
    var events := prev[target := (if target in prev then prev[target] else []) + [newEvent]];
    var reminder := if Truthy(timeOverride) then Some(ScheduleCall(eventId, ReminderTitle, title, target, timeOverride.value)) else None;
    var nextSelected := if Truthy(dateOverride) && dateOverride.value != selected then dateOverride.value else selected;
    AddOutcome(events, reminder, nextSelected)
  }

  /** What the assistant suggests for a typed event: a title and, when it
      found them, a date and a time. */
  datatype Suggestion = Suggestion(title: string, date: Option<string>, time: Option<string>)

  /** `suggestion.date || undefined`. */
  function OrUndefined(v: Option<string>): (r: Option<string>)
    ensures Truthy(r) == Truthy(v) && (r.Some? ==> r == v)
  {
    if Truthy(v) then v else None
  }

  /** `handleAiAdd`: blank input does nothing; otherwise the suggestion is
      added, an empty date or time counting as none. */
  function AiAdd(prev: EventMap, selected: string, input: string, eventId: string, suggestion: Suggestion): (r: Option<AddOutcome>)
    ensures r.None? <==> IsBlank(input)
    ensures r.Some? ==> var d := TargetDate(suggestion.date, selected);
      && r.value.events.Keys == prev.Keys + {d}
      && r.value.events[d] == (if d in prev then prev[d] else [])
                               + [CalendarEvent(eventId, d, suggestion.title, OrUndefined(suggestion.time), None)]
      && (forall k :: k in prev && k != d ==> r.value.events[k] == prev[k])
      && (r.value.reminder.Some? <==> Truthy(suggestion.time))
      && (r.value.reminder.Some? ==>
            r.value.reminder.value == ScheduleCall(eventId, ReminderTitle, suggestion.title, d, suggestion.time.value))
      && r.value.selected == d
  {
    if IsBlank(input) then None
    else Some(AddEvent(prev, selected, eventId, suggestion.title, OrUndefined(suggestion.date), OrUndefined(suggestion.time)))
  }

  /** Adding keeps the map well formed. */
  lemma AddPreservesWellFormed(prev: EventMap, selected: string, eventId: string, title: string,
                               dateOverride: Option<string>, timeOverride: Option<string>)
    requires WellFormed(prev)
    ensures WellFormed(AddEvent(prev, selected, eventId, title, dateOverride, timeOverride).events)
  {
    var d := TargetDate(dateOverride, selected);
    var next: EventMap := AddEvent(prev, selected, eventId, title, dateOverride, timeOverride).events;
    forall k | k in next
      ensures next[k] != [] && forall i :: 0 <= i < |next[k]| ==> next[k][i].dateStr == k
    {
      if k == d {
        var bucket := if d in prev then prev[d] else [];
        forall i | 0 <= i < |next[k]|
          ensures next[k][i].dateStr == k
        {
          if i < |bucket| {
            assert next[k][i] == bucket[i];
          }
        }
      }
    }
  }

  // ---------------------------------------------------------- deleting

  /** What `deleteEvent` leads to: the id whose reminder is cancelled, and
      the next event map or the error the update throws. */
  datatype DeleteOutcome = DeleteOutcome(cancelled: string, events: Result<EventMap, UpdateError>)

  /** `deleteEvent(dateStr, id)`: cancels the event's reminder, then drops the
      events with that id from the bucket of `dateStr`, removing the key when
      the bucket becomes empty; no other bucket changes. A date without a
      bucket makes the update throw. */
  function DeleteEvent(prev: EventMap, dateStr: string, id: string): (r: DeleteOutcome)
    ensures r.cancelled == id
    ensures r.events.Failure? <==> dateStr !in prev
    ensures r.events.Success? ==> var next := r.events.value;
      && (forall k :: k != dateStr ==> (k in next <==> k in prev))
      && (forall k :: k in prev && k != dateStr ==> next[k] == prev[k])
      && (dateStr in next <==> exists i :: 0 <= i < |prev[dateStr]| && prev[dateStr][i].id != id)
      && (dateStr in next ==> next[dateStr] == Filter(prev[dateStr], Not(EventHasId(id))))
      && (dateStr in next ==> forall i :: 0 <= i < |next[dateStr]| ==> next[dateStr][i].id != id)
  {
    if dateStr !in prev then DeleteOutcome(id, Failure(TypeError))
    else
      var rest := Filter(prev[dateStr], Not(EventHasId(id)));
      FilterEmptyIffNonePass(prev[dateStr], Not(EventHasId(id)));
      if rest == [] then DeleteOutcome(id, Success(prev - {dateStr}))
      else DeleteOutcome(id, Success(prev[dateStr := rest]))
  }

  /** Deleting keeps the map well formed. */
  lemma DeletePreservesWellFormed(prev: EventMap, dateStr: string, id: string)
    requires WellFormed(prev)
    requires DeleteEvent(prev, dateStr, id).events.Success?
    ensures WellFormed(DeleteEvent(prev, dateStr, id).events.value)
  {
    var next: EventMap := DeleteEvent(prev, dateStr, id).events.value;
    if dateStr in next {
      var rest := next[dateStr];
      forall i | 0 <= i < |rest|
        ensures rest[i].dateStr == dateStr
      {
        FilterMember(prev[dateStr], Not(EventHasId(id)), rest[i]);
      }
    }
  }

  /** Deleting a just-added event, under an id no event of its day had,
      gives back the map as it was. */
  lemma DeleteUndoesAdd(prev: EventMap, selected: string, eventId: string, title: string,
                        dateOverride: Option<string>, timeOverride: Option<string>)
    requires WellFormed(prev)
    requires var d := TargetDate(dateOverride, selected);
      d in prev ==> forall i :: 0 <= i < |prev[d]| ==> prev[d][i].id != eventId
    ensures var d := TargetDate(dateOverride, selected);
      DeleteEvent(AddEvent(prev, selected, eventId, title, dateOverride, timeOverride).events, d, eventId).events
        == Success(prev)
  {
    var d := TargetDate(dateOverride, selected);
    var e := CalendarEvent(eventId, d, title, timeOverride, None);
    var bucket := if d in prev then prev[d] else [];
    assert AddEvent(prev, selected, eventId, title, dateOverride, timeOverride).events == prev[d := bucket + [e]];
    DropLast(bucket, e);
    DeleteFromPut(prev, d, bucket + [e], bucket, eventId);
  }

  /** Filtering an id out of a bucket whose last event alone has it drops that event. */
  lemma DropLast(bucket: seq<CalendarEvent>, e: CalendarEvent)
    requires forall i :: 0 <= i < |bucket| ==> bucket[i].id != e.id
    ensures Filter(bucket + [e], Not(EventHasId(e.id))) == bucket
  {
    var p := Not(EventHasId(e.id));
    FilterAppend(bucket, [e], p);
    FilterAll(bucket, p);
    assert Filter([e], p) == [];
  }

  /** Putting a bucket under `d` and deleting an id from it gives the map
      with the filtered bucket, or without `d` when nothing is left. */
  lemma DeleteFromPut(prev: EventMap, d: string, put: seq<CalendarEvent>, kept: seq<CalendarEvent>, id: string)
    requires Filter(put, Not(EventHasId(id))) == kept
    requires d in prev ==> prev[d] == kept && kept != []
    requires d !in prev ==> kept == []
    ensures DeleteEvent(prev[d := put], d, id).events == Success(prev)
  {
    var next: EventMap := DeleteEvent(prev[d := put], d, id).events.value;
    assert next.Keys == prev.Keys;
    forall k | k in prev
      ensures next[k] == prev[k]
    {
    }
    assert next == prev;
  }

  /** The reminder `addEvent` schedules is the one `deleteEvent` cancels:
      both derive the plugin's integer id from the event id the same way. */
  lemma DeleteCancelsAddedReminder(prev: EventMap, selected: string, eventId: string, title: string,
                                   dateOverride: Option<string>, timeOverride: Option<string>,
                                   isNative: bool, now: int, scheduleDate: Option<int>, later: EventMap, dateStr: string)
    requires AddEvent(prev, selected, eventId, title, dateOverride, timeOverride).reminder.Some?
    ensures var c := AddEvent(prev, selected, eventId, title, dateOverride, timeOverride).reminder.value;
      var n := Notifications.ScheduleNotification(isNative, now, c.id, c.title, c.body, c.dateStr, c.timeStr, scheduleDate);
      n.Some? ==> Notifications.CancelNotification(isNative, DeleteEvent(later, dateStr, eventId).cancelled) == Some(n.value.id)
  {
    var c := AddEvent(prev, selected, eventId, title, dateOverride, timeOverride).reminder.value;
    var n := Notifications.ScheduleNotification(isNative, now, c.id, c.title, c.body, c.dateStr, c.timeStr, scheduleDate);
    if n.Some? {
      Notifications.CancelMatchesSchedule(isNative, now, c.id, c.title, c.body, c.dateStr, c.timeStr, scheduleDate);
    }
  }

  // ------------------------------------------------ histories of edits

  /** One call of the screen's handlers that changes the map. */
  datatype Edit =
    | Add(selected: string, eventId: string, title: string, dateOverride: Option<string>, timeOverride: Option<string>)
    | Delete(dateStr: string, id: string)

  function ApplyEdit(m: EventMap, e: Edit): Result<EventMap, UpdateError> {
    match e
    case Add(selected, eventId, title, dateOverride, timeOverride) =>
      Success(AddEvent(m, selected, eventId, title, dateOverride, timeOverride).events)
    case Delete(dateStr, id) => DeleteEvent(m, dateStr, id).events
  }

  /** The map after a run of edits from `m`, or the first error thrown. */
  function Replay(m: EventMap, edits: seq<Edit>): Result<EventMap, UpdateError>
    decreases |edits|
  {
    if edits == [] then Success(m)
    else match ApplyEdit(m, edits[0])
      case Success(next) => Replay(next, edits[1..])
      case Failure(err) => Failure(err)
  }

  /** Starting from a well-formed map (the store's default `{}` is one),
      every run of edits that does not throw leaves it well formed, so a day
      has events exactly when its key is present. */
  lemma {:induction false} ReplayWellFormed(m: EventMap, edits: seq<Edit>)
    requires WellFormed(m)
    requires Replay(m, edits).Success?
    ensures WellFormed(Replay(m, edits).value)
    ensures forall d :: HasEvents(Replay(m, edits).value, d) <==> d in Replay(m, edits).value
    decreases |edits|
  {
    if edits != [] {
      match edits[0]
      case Add(selected, eventId, title, dateOverride, timeOverride) =>
        AddPreservesWellFormed(m, selected, eventId, title, dateOverride, timeOverride);
        ReplayWellFormed(ApplyEdit(m, edits[0]).value, edits[1..]);
      case Delete(dateStr, id) =>
        DeletePreservesWellFormed(m, dateStr, id);
        ReplayWellFormed(ApplyEdit(m, edits[0]).value, edits[1..]);
    }
  }

  /** Starting from the store's initial `{}`, every run of adds and deletes
      that does not throw leaves a well-formed map. */
  lemma ReplayFromEmpty(edits: seq<Edit>)
    requires Replay(map[], edits).Success?
    ensures WellFormed(Replay(map[], edits).value)
  {
    ReplayWellFormed(map[], edits);
  }

  // --------------------------------------------------------- the grid

  /** A cell of the month grid: a blank before the first, or a day of the month. */
  datatype Cell = Blank | Day(day: int)

  /** The key a day cell stands for, the `dateStr` the grid computes for it. */
  function CellKey(ym: YearMonth, c: Cell): string
    requires c.Day?
  {
    DateKey(ym.year, ym.month, c.day)
  }

  /** `isSelected`: the cell's key is the selected date. */
  predicate IsSelected(ym: YearMonth, c: Cell, selected: string) {
    c.Day? && CellKey(ym, c) == selected
  }

  /** `isToday`: the cell's key is today's date. */
  predicate IsToday(ym: YearMonth, c: Cell, today: string) {
    c.Day? && CellKey(ym, c) == today
  }

  /** `hasEvents && !isSelected`: the dot under a day. */
  predicate ShowsDot(ym: YearMonth, c: Cell, events: EventMap, selected: string) {
    c.Day? && HasEvents(events, CellKey(ym, c)) && !IsSelected(ym, c, selected)
  }

  /** `handleDateClick(day)`: the key of that day of the displayed month. */
  function SelectDay(ym: YearMonth, day: int): string {
    DateKey(ym.year, ym.month, day)
  }

  /** The cells of days 1 to `n`. */
  function DayCells(n: nat): (days: seq<Cell>)
    ensures |days| == n
    ensures forall j :: 0 <= j < n ==> days[j] == Day(j + 1)
  {
    if n == 0 then [] else DayCells(n - 1) + [Day(n)]
  }

  /** `n` blank cells. */
  function Blanks(n: nat): (cells: seq<Cell>)
    ensures |cells| == n && forall i :: 0 <= i < n ==> cells[i] == Blank
  {
    if n == 0 then [] else Blanks(n - 1) + [Blank]
  }

  /** The grid of the displayed month: `firstDay` blank cells, then one cell
      per day of the month, in order. */
  function MonthGrid(ym: YearMonth): (cells: seq<Cell>)
    ensures |cells| == FirstDayOfMonth(ym.year, ym.month) + DaysInMonth(ym.year, ym.month)
    ensures forall i :: 0 <= i < FirstDayOfMonth(ym.year, ym.month) ==> cells[i] == Blank
    ensures forall i :: FirstDayOfMonth(ym.year, ym.month) <= i < |cells| ==>
      cells[i] == Day(i - FirstDayOfMonth(ym.year, ym.month) + 1)
  {
    var first := FirstDayOfMonth(ym.year, ym.month);
    var blanks := Blanks(first);
    var days := DayCells(DaysInMonth(ym.year, ym.month));
    forall i | first <= i < first + |days|
      ensures (blanks + days)[i] == days[i - first]
    {
      AppendAt(blanks, days, i);
    }
    blanks + days
  }

  /** Clicking a day of the grid highlights exactly that day's cell, in any
      year; for a four-digit year the selected key is ten characters long. */
  lemma ClickSelectsOneCell(ym: YearMonth, day: int)
    requires 1 <= day <= DaysInMonth(ym.year, ym.month)
    ensures 1000 <= ym.year <= 9999 && 0 <= ym.month < 12 ==> |SelectDay(ym, day)| == 10
    ensures var cells := MonthGrid(ym);
      forall j :: 0 <= j < |cells| ==> (IsSelected(ym, cells[j], SelectDay(ym, day)) <==> cells[j] == Day(day))
  {
    if 1000 <= ym.year <= 9999 && 0 <= ym.month < 12 {
      DateKeyRoundTrip(ym.year, ym.month, day);
    }
    var cells := MonthGrid(ym);
    forall j | 0 <= j < |cells|
      ensures IsSelected(ym, cells[j], SelectDay(ym, day)) <==> cells[j] == Day(day)
    {
      SelectedCellIsDay(ym, cells[j], day);
    }
  }

  /** A day cell is selected by a click on day `day` exactly when it is that
      day's cell. */
  lemma SelectedCellIsDay(ym: YearMonth, c: Cell, day: int)
    requires 1 <= day <= 31
    requires c.Day? ==> 1 <= c.day <= 31
    ensures IsSelected(ym, c, SelectDay(ym, day)) <==> c == Day(day)
  {
    if c.Day? {
      DayKeyInjective(ym.year, ym.month, c.day, day);
    }
  }

  /** Whatever today's key is, at most one cell of the grid is marked as today. */
  lemma TodayMarksAtMostOneCell(ym: YearMonth, today: string)
    ensures var cells := MonthGrid(ym);
      forall i, j :: 0 <= i < j < |cells| ==> !(IsToday(ym, cells[i], today) && IsToday(ym, cells[j], today))
  {
    var cells := MonthGrid(ym);
    var first := FirstDayOfMonth(ym.year, ym.month);
    forall i, j | 0 <= i < j < |cells| && IsToday(ym, cells[i], today)
      ensures !IsToday(ym, cells[j], today)
    {
      DayKeyInjective(ym.year, ym.month, i - first + 1, j - first + 1);
    }
  }

  /** In a well-formed map the dot is drawn under a day of the grid exactly
      when its key is stored and it is not the selected day. */
  lemma GridDotsMatchKeys(ym: YearMonth, events: EventMap, selected: string)
    requires WellFormed(events)
    ensures var cells := MonthGrid(ym);
      forall i :: 0 <= i < |cells| && cells[i].Day? ==>
        (ShowsDot(ym, cells[i], events, selected) <==> CellKey(ym, cells[i]) in events && CellKey(ym, cells[i]) != selected)
  {
    var cells := MonthGrid(ym);
    forall i | 0 <= i < |cells| && cells[i].Day?
      ensures ShowsDot(ym, cells[i], events, selected) <==> CellKey(ym, cells[i]) in events && CellKey(ym, cells[i]) != selected
    {
      HasEventsIffKey(events, CellKey(ym, cells[i]));
    }
  }

  // ------------------------------------------ the selected day's events

  /** `events[selectedDateStr] || []`. */
  function SelectedEvents(m: EventMap, selected: string): seq<CalendarEvent> {
    if selected in m then m[selected] else []
  }

  /** `evt.time || ''`. */
  function TimeKey(e: CalendarEvent): string {
    e.time.GetOr("")
  }

  /** The comparator of the day's list: `localeCompare` on the times. */
  function CompareByTime(a: CalendarEvent, b: CalendarEvent): int {
    LexCompare(TimeKey(a), TimeKey(b))
  }

  lemma CompareByTimeConsistent()
    ensures Sorting.Consistent(CompareByTime)
  {
    forall x: CalendarEvent, y: CalendarEvent
      ensures CompareByTime(x, y) <= 0 || CompareByTime(y, x) <= 0
    {
      LexCompareAntisymmetric(TimeKey(x), TimeKey(y));
    }
    forall x: CalendarEvent, y: CalendarEvent, z: CalendarEvent |
      CompareByTime(x, y) <= 0 && CompareByTime(y, z) <= 0
      ensures CompareByTime(x, z) <= 0
    {
      LexCompareTransitive(TimeKey(x), TimeKey(y), TimeKey(z));
    }
  }

  /** A list in time order has its untimed events first. */
  lemma UntimedFirst(shown: seq<CalendarEvent>)
    requires Sorting.SortedBy(shown, CompareByTime)
    ensures forall i, j :: 0 <= i < j < |shown| ==> LexCompare(TimeKey(shown[i]), TimeKey(shown[j])) <= 0
    ensures forall i, j :: 0 <= i < j < |shown| && TimeKey(shown[j]) == "" ==> TimeKey(shown[i]) == ""
  {
    forall i, j | 0 <= i < j < |shown|
      ensures LexCompare(TimeKey(shown[i]), TimeKey(shown[j])) <= 0
    {
      assert CompareByTime(shown[i], shown[j]) <= 0;
    }
    forall i, j | 0 <= i < j < |shown| && TimeKey(shown[j]) == ""
      ensures TimeKey(shown[i]) == ""
    {
      AtMostEmpty(TimeKey(shown[i]));
    }
  }

  /** Only the empty string is at most the empty string. */
  lemma AtMostEmpty(s: string)
    requires LexCompare(s, "") <= 0
    ensures s == ""
  {
  }

  /** `selectedEvents.sort(...)`: sorts the selected day's stored array in
      place, so the list shown is in time order, events without a time first,
      and the stored bucket itself is left in that order. */
  method SortSelectedEvents(events: EventMap, selected: string) returns (shown: seq<CalendarEvent>, after: EventMap)
    ensures multiset(shown) == multiset(SelectedEvents(events, selected))
    ensures forall i, j :: 0 <= i < j < |shown| ==> LexCompare(TimeKey(shown[i]), TimeKey(shown[j])) <= 0
    ensures forall i, j :: 0 <= i < j < |shown| && TimeKey(shown[j]) == "" ==> TimeKey(shown[i]) == ""
    ensures after.Keys == events.Keys
    ensures forall d :: d in events && d != selected ==> after[d] == events[d]
    ensures selected in events ==> after[selected] == shown
    ensures WellFormed(events) ==> WellFormed(after)
  {
    var bucket := SelectedEvents(events, selected);
    var a := new CalendarEvent[|bucket|](i requires 0 <= i < |bucket| => bucket[i]);
    assert a[..] == bucket;
    CompareByTimeConsistent();
    Sorting.InsertionSort(a, CompareByTime);
    shown := a[..];
    UntimedFirst(shown);
    after := if selected in events then events[selected := shown] else events;
    if WellFormed(events) && selected in events {
      ReorderedBucket(events, selected, shown);
    }
  }

  /** Putting a reordering of a bucket back in its place keeps the map well formed. */
  lemma ReorderedBucket(events: EventMap, d: string, shown: seq<CalendarEvent>)
    requires WellFormed(events) && d in events
    requires multiset(shown) == multiset(events[d])
    ensures WellFormed(events[d := shown])
  {
    forall i | 0 <= i < |shown|
      ensures shown[i].dateStr == d
    {
      assert shown[i] in multiset(events[d]);
    }
    assert |shown| == |multiset(events[d])| == |events[d]|;
  }
}
