/** The reminder service: the integer id derived from an event's string id,
    and the payloads handed to the local-notification plugin when a reminder
    is scheduled, snoozed or cancelled. The platform check, the clock and
    the parsed reminder time are parameters; the plugin itself is not
    modelled, only what it is asked to do. */
module Notifications {
  import opened Wrappers
  import opened Strings

  const TWO_31: int := 0x8000_0000
  const TWO_32: int := 0x1_0000_0000

  /** ECMAScript ToInt32: the 32-bit two's-complement value congruent to `x`. */
  function ToInt32(x: int): (r: int)
    ensures -TWO_31 <= r < TWO_31
    ensures (x - r) % TWO_32 == 0
  {
    var m := x % TWO_32;
    if m >= TWO_31 then m - TWO_32 else m
  }

  /** Range and congruence pin ToInt32 down. */
  lemma ToInt32Unique(x: int, r: int)
    requires -TWO_31 <= r < TWO_31 && (x - r) % TWO_32 == 0
    ensures ToInt32(x) == r
  {
    var t := ToInt32(x);
    assert (t - r) % TWO_32 == 0 by {
      assert t - r == (x - r) - (x - t);
    }
  }

  // ------------------------------------------------------------- hashing

  /** The UTF-16 code units of a character, what `charCodeAt` reads. */
  function Utf16(c: char): (u: seq<int>)
    ensures 1 <= |u| <= 2 && forall i :: 0 <= i < |u| ==> 0 <= u[i] < 0x1_0000
  {
    var n := c as int;
    if n < 0x1_0000 then [n]
    else var v := n - 0x1_0000; [0xD800 + v / 0x400, 0xDC00 + v % 0x400]
  }

  /** A string as JavaScript holds it: a sequence of UTF-16 code units. */
  function CodeUnits(s: string): (u: seq<int>)
    ensures |u| >= |s|
    ensures forall i :: 0 <= i < |u| ==> 0 <= u[i] < 0x1_0000
  {
    if s == [] then [] else Utf16(s[0]) + CodeUnits(s[1..])
  }

  /** One iteration of the loop: the 32-bit hash shifted left by five, minus
      the hash, plus the code unit, then truncated to 32 bits by the bitwise
      and of the hash with itself. */
  function HashStep(hash: int, unit: int): int {
    ToInt32(ToInt32(ToInt32(hash) * 32) - hash + unit)
  }

  /** `hash` after the loop has read the code units `u`. */
  function FoldHash(u: seq<int>): (h: int)
    ensures -TWO_31 <= h < TWO_31
  {
    if u == [] then 0 else HashStep(FoldHash(u[..|u| - 1]), u[|u| - 1])
  }

  /** The untruncated polynomial Σ u[i]·31^(n-1-i) of Java's String.hashCode. */
  function PolyHash(u: seq<int>): int {
    if u == [] then 0 else 31 * PolyHash(u[..|u| - 1]) + u[|u| - 1]
  }

  /** Congruent arguments truncate to the same 32-bit value. */
  lemma ToInt32Congruent(a: int, b: int)
    requires (a - b) % TWO_32 == 0
    ensures ToInt32(a) == ToInt32(b)
  {
    var r := ToInt32(b);
    assert (a - r) % TWO_32 == 0 by {
      MultipleSum(a - b, b - r);
    }
    ToInt32Unique(a, r);
  }

  /** Multiples of 2^32 are closed under addition. */
  lemma MultipleSum(x: int, y: int)
    requires x % TWO_32 == 0 && y % TWO_32 == 0
    ensures (x + y) % TWO_32 == 0
  {
    var i, j := x / TWO_32, y / TWO_32;
    assert x + y == TWO_32 * (i + j);
  }

  /** Multiples of 2^32 stay multiples when scaled. */
  lemma MultipleScaled(x: int, k: int)
    requires x % TWO_32 == 0
    ensures (k * x) % TWO_32 == 0
  {
    var i := x / TWO_32;
    assert x == TWO_32 * i;
    assert k * x == TWO_32 * (k * i);
  }

  /** For a 32-bit `hash` the shift-and-subtract step is `31 * hash + char`, truncated. */
  lemma HashStepIsTimes31(hash: int, unit: int)
    requires -TWO_31 <= hash < TWO_31
    ensures HashStep(hash, unit) == ToInt32(31 * hash + unit)
  {
    var shifted := ToInt32(hash * 32);
    assert (shifted - hash * 32) % TWO_32 == 0 by {
      MultipleScaled(hash * 32 - shifted, -1);
    }
    ToInt32Congruent(shifted - hash + unit, 31 * hash + unit);
  }

  /** The loop computes Java's 31-multiplier string hash, folded to signed 32 bits. */
  lemma {:induction false} FoldHashIsJavaHash(u: seq<int>)
    ensures FoldHash(u) == ToInt32(PolyHash(u))
  {
    if u != [] {
      var init, c := u[..|u| - 1], u[|u| - 1];
      FoldHashIsJavaHash(init);
      var h, p := FoldHash(init), PolyHash(init);
      HashStepIsTimes31(h, c);
      assert (h - p) % TWO_32 == 0 by {
        MultipleScaled(p - h, -1);
      }
      MultipleScaled(h - p, 31);
      assert (31 * h + c) - (31 * p + c) == 31 * (h - p);
      ToInt32Congruent(31 * h + c, 31 * p + c);
    }
  }

  /** `Math.abs` on a double: no overflow, so abs(-2^31) is 2^31. */
  function Abs(x: int): (r: int)
    ensures r >= 0 && (r == x || r == -x)
  {
    if x < 0 then -x else x
  }

  /** `hashCode(str)`: the absolute value of the 32-bit hash. It is never
      negative and is at most 2^31, reached only when the 32-bit hash is -2^31. */
  function HashCodeOf(s: string): (h: int)
    ensures 0 <= h <= TWO_31
    ensures h == TWO_31 <==> FoldHash(CodeUnits(s)) == -TWO_31
  {
    Abs(FoldHash(CodeUnits(s)))
  }

  /** The loop of `hashCode`, step by step. */
  method HashCode(s: string) returns (hash: int)
    ensures hash == HashCodeOf(s)
  {
    var units := CodeUnits(s);
    hash := 0;
    var i := 0;
    while i < |units|
      invariant 0 <= i <= |units|
      invariant hash == FoldHash(units[..i])
    {
      var unit := units[i];
      hash := ToInt32(ToInt32(hash) * 32) - hash + unit;
      hash := ToInt32(hash);
      assert units[..i + 1][..i] == units[..i];
      i := i + 1;
    }
    assert units[..i] == units;
    if hash < 0 {
      hash := -hash;
    }
  }

  /** The empty id hashes to 0. */
  lemma HashCodeEmpty()
    ensures HashCodeOf("") == 0
  {
  }

  // ------------------------------------------------------------ payloads

  const ReminderChannelId: string := "mindflow_alerts_v2"
  const ReminderActionType: string := "EVENT_REMINDER_ACTIONS"
  const SmallIcon: string := "ic_stat_icon_config_sample"
  /** Ten minutes, in milliseconds. */
  const SnoozeDelay: int := 10 * 60 * 1000

  /** The `extra` payload a reminder carries back to the app. */
  datatype Extra = Extra(
    eventId: Option<string>,
    dateStr: Option<string>,
    originalTitle: Option<string>,
    originalBody: Option<string>)

  /** A notification as handed to the plugin's `schedule`. `at` is `None`
      for an invalid `Date`. */
  datatype LocalNotification = LocalNotification(
    title: string,
    body: string,
    id: int,
    at: Option<int>,
    allowWhileIdle: bool,
    channelId: string,
    actionTypeId: string,
    smallIcon: string,
    extra: Option<Extra>)

  /** A delivered notification, as the action listener passes it to `snoozeNotification`. */
  datatype Delivered = Delivered(id: int, title: string, body: string, extra: Option<Extra>)

  function Reminder(title: string, body: string, id: int, at: Option<int>, extra: Option<Extra>): LocalNotification {
    LocalNotification(title, body, id, at, true, ReminderChannelId, ReminderActionType, SmallIcon, extra)
  }

  /** `scheduleNotification(id, title, body, dateStr, timeStr)`. `scheduleDate`
      is `new Date(dateStr + "T" + timeStr + ":00")` read in local time. Off a
      native platform, or when that instant is not after `now`, nothing is
      scheduled; an invalid date fails no comparison, so it gets through. */
  function ScheduleNotification(isNative: bool, now: int, id: string, title: string, body: string,
                                dateStr: string, timeStr: string, scheduleDate: Option<int>): (r: Option<LocalNotification>)
    ensures r.Some? <==> isNative && !(scheduleDate.Some? && scheduleDate.value <= now)
    ensures r.Some? ==>
      && r.value.id == HashCodeOf(id) && r.value.title == title && r.value.at == scheduleDate
      && r.value.body == (if body != "" then body else "Reminder for " + timeStr)
      && r.value.extra == Some(Extra(Some(id), Some(dateStr), Some(title), Some(body)))
      && r.value.allowWhileIdle && r.value.channelId == ReminderChannelId
      && r.value.actionTypeId == ReminderActionType
  {
    if !isNative then None
    else if scheduleDate.Some? && scheduleDate.value <= now then None
    else
      var fallback := if body != "" then body else "Reminder for " + timeStr;
      Some(Reminder(title, fallback, HashCodeOf(id), scheduleDate,
                    Some(Extra(Some(id), Some(dateStr), Some(title), Some(body)))))
  }

  /** `snoozeNotification(notification)`: the same reminder again ten minutes
      from now under the next id, preferring the original title and body. */
  function SnoozeNotification(isNative: bool, now: int, n: Delivered): (r: Option<LocalNotification>)
    ensures r.Some? <==> isNative
    ensures r.Some? ==>
      && r.value.id == n.id + 1 && r.value.at == Some(now + SnoozeDelay)
      && r.value.title == (if n.extra.Some? && Truthy(n.extra.value.originalTitle)
                           then n.extra.value.originalTitle.value else n.title)
      && r.value.body == "\U{1F4A4} Snoozed: " + (if n.extra.Some? && Truthy(n.extra.value.originalBody)
                                                 then n.extra.value.originalBody.value else n.body)
      && r.value.extra == n.extra
  {
    if !isNative then None
    else
      var title := if n.extra.Some? && Truthy(n.extra.value.originalTitle) then n.extra.value.originalTitle.value else n.title;
      var body := if n.extra.Some? && Truthy(n.extra.value.originalBody) then n.extra.value.originalBody.value else n.body;
      Some(Reminder(title, "\U{1F4A4} Snoozed: " + body, n.id + 1, Some(now + SnoozeDelay), n.extra))
  }

  /** `cancelNotification(id)`: the integer id the plugin is asked to cancel. */
  function CancelNotification(isNative: bool, id: string): (r: Option<int>)
    ensures r.Some? <==> isNative
    ensures r.Some? ==> r.value == HashCodeOf(id) && 0 <= r.value <= TWO_31
  {
    if isNative then Some(HashCodeOf(id)) else None
  }

  /** Cancelling an event's reminder targets the id its scheduling used. */
  lemma CancelMatchesSchedule(isNative: bool, now: int, id: string, title: string, body: string,
                              dateStr: string, timeStr: string, scheduleDate: Option<int>)
    requires ScheduleNotification(isNative, now, id, title, body, dateStr, timeStr, scheduleDate).Some?
    ensures CancelNotification(isNative, id)
         == Some(ScheduleNotification(isNative, now, id, title, body, dateStr, timeStr, scheduleDate).value.id)
  {
  }

  /** Snoozing a scheduled reminder repeats its title and shown body (the
      original ones, or the fallbacks the schedule chose), keeps its extra
      payload and takes the next id, which cancelling the event does not reach. */
  lemma SnoozeOfScheduled(isNative: bool, now: int, later: int, id: string, title: string, body: string,
                          dateStr: string, timeStr: string, scheduleDate: Option<int>)
    requires ScheduleNotification(isNative, now, id, title, body, dateStr, timeStr, scheduleDate).Some?
    ensures var n := ScheduleNotification(isNative, now, id, title, body, dateStr, timeStr, scheduleDate).value;
      var s := SnoozeNotification(isNative, later, Delivered(n.id, n.title, n.body, n.extra));
      && s.Some? && s.value.title == n.title
      && s.value.body == "\U{1F4A4} Snoozed: " + n.body
      && s.value.extra == n.extra && s.value.at == Some(later + SnoozeDelay)
      && Some(s.value.id) != CancelNotification(isNative, id)
  {
  }

  /** PolyHash reads one more code unit. */
  lemma PolyHashSnoc(u: seq<int>, k: int)
    requires 0 <= k < |u|
    ensures PolyHash(u[..k + 1]) == 31 * PolyHash(u[..k]) + u[k]
  {
    assert u[..k + 1][..k] == u[..k];
  }

  /** A string of the Basic Multilingual Plane is read one code unit per
      character, each its code point. */
  lemma {:induction false} BmpUnits(s: string)
    requires forall i :: 0 <= i < |s| ==> s[i] as int < 0x1_0000
    ensures |CodeUnits(s)| == |s|
    ensures forall i :: 0 <= i < |s| ==> CodeUnits(s)[i] == s[i] as int
  {
    if s != [] {
      BmpUnits(s[1..]);
      assert CodeUnits(s) == [s[0] as int] + CodeUnits(s[1..]);
    }
  }

  /** An ASCII id is read as its character codes. */
  lemma WitnessUnits()
    ensures CodeUnits("xfjfxtf") == [120, 102, 106, 102, 120, 116, 102]
  {
    var s := "xfjfxtf";
    BmpUnits(s);
    var u := CodeUnits(s);
    assert u[0] == 120 && u[1] == 102 && u[2] == 106 && u[3] == 102;
    assert u[4] == 120 && u[5] == 116 && u[6] == 102;
  }

  /** Its untruncated polynomial hash. */
  lemma WitnessPolyHash(u: seq<int>)
    requires u == [120, 102, 106, 102, 120, 116, 102]
    ensures PolyHash(u) == 109521666048
  {
    assert u[..0] == [];
    PolyHashSnoc(u, 0);
    PolyHashSnoc(u, 1);
    PolyHashSnoc(u, 2);
    PolyHashSnoc(u, 3);
    PolyHashSnoc(u, 4);
    PolyHashSnoc(u, 5);
    PolyHashSnoc(u, 6);
    assert u[..7] == u;
  }

  /** ... which is 2^31 modulo 2^32. */
  lemma WitnessTruncates()
    ensures ToInt32(109521666048) == -TWO_31
  {
  }

  /** The boundary case of `Math.abs`: this id's 32-bit hash is -2^31, so
      its notification id is 2^31. */
  lemma HashCodeReachesTwoTo31()
    ensures HashCodeOf("xfjfxtf") == TWO_31
  {
    WitnessUnits();
    var u := CodeUnits("xfjfxtf");
    WitnessPolyHash(u);
    WitnessTruncates();
    FoldHashIsJavaHash(u);
  }
}
