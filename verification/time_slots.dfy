/** The time labels shown beside the timetable rows: a default half-hour
    ladder from 1:00, or a ladder computed from the page's time settings
    (start hour with its AM/PM half, start minute, interval). Label text
    formatting (zero padding) is left to the renderer; a label is the four
    numbers it prints. */
module TimeSlots {
  import opened Wrappers
  import opened Interfaces

  /** `start-end`, each as hour and minute. */
  datatype TimeLabel = TimeLabel(startHour: int, startMinute: int, endHour: int, endMinute: int)

  /** Minutes since midnight of an hour/minute pair. */
  function Minutes(hour: int, minute: int): int { hour * 60 + minute }

  // ---------------------------------------------------------------------
  // generateDefaultTimes
  // ---------------------------------------------------------------------

  /** The half-hour step of the default ladder: the minute wraps to 0. */
  function DefaultStep(hour: int, minute: int): (int, int) {
    if minute + 30 >= 60 then (hour + 1, 0) else (hour, minute + 30)
  }

  function DefaultFrom(n: nat, hour: int, minute: int): (labels: seq<TimeLabel>)
    ensures |labels| == n
  {
    if n == 0 then []
    else
      var next := DefaultStep(hour, minute);
      [TimeLabel(hour, minute, next.0, next.1)] + DefaultFrom(n - 1, next.0, next.1)
  }

  /** `generateDefaultTimes`: one label per time row, from 1:00 in 30-minute steps. */
  function DefaultTimes(timeRows: nat): (labels: seq<TimeLabel>)
    ensures |labels| == timeRows
    ensures forall i :: 0 <= i < timeRows ==>
      && Minutes(labels[i].startHour, labels[i].startMinute) == 60 + 30 * i
      && Minutes(labels[i].endHour, labels[i].endMinute) == 60 + 30 * (i + 1)
  {
    forall i | 0 <= i < timeRows
      ensures var l := DefaultFrom(timeRows, 1, 0)[i];
        Minutes(l.startHour, l.startMinute) == 60 + 30 * i && Minutes(l.endHour, l.endMinute) == 60 + 30 * (i + 1)
    {
      DefaultFromSpans(timeRows, 1, 0, i);
    }
    DefaultFrom(timeRows, 1, 0)
  }

  lemma {:induction false} DefaultFromSpans(n: nat, hour: int, minute: int, i: nat)
    requires minute == 0 || minute == 30
    requires i < n
    ensures var l := DefaultFrom(n, hour, minute)[i];
      && Minutes(l.startHour, l.startMinute) == Minutes(hour, minute) + 30 * i
      && Minutes(l.endHour, l.endMinute) == Minutes(hour, minute) + 30 * (i + 1)
      && (l.startMinute == 0 || l.startMinute == 30)
  {
    if i > 0 {
      var next := DefaultStep(hour, minute);
      DefaultFromSpans(n - 1, next.0, next.1, i - 1);
    }
  }

  /** Default slot i runs from 1:00 + 30i minutes to 1:00 + 30(i+1) minutes,
      so each slot ends where the next begins. */
  lemma DefaultTimesSpans(timeRows: nat, i: nat)
    requires i < timeRows
    ensures var l := DefaultTimes(timeRows)[i];
      && Minutes(l.startHour, l.startMinute) == 60 + 30 * i
      && Minutes(l.endHour, l.endMinute) == 60 + 30 * (i + 1)
      && 0 <= l.startMinute < 60 && 0 <= l.endMinute < 60
  {
    DefaultFromSpans(timeRows, 1, 0, i);
    DefaultEndMinute(timeRows, 1, 0, i);
  }

  lemma {:induction false} DefaultEndMinute(n: nat, hour: int, minute: int, i: nat)
    requires minute == 0 || minute == 30
    requires i < n
    ensures var l := DefaultFrom(n, hour, minute)[i]; l.endMinute == 0 || l.endMinute == 30
  {
    if i > 0 {
      var next := DefaultStep(hour, minute);
      DefaultEndMinute(n - 1, next.0, next.1, i - 1);
    }
  }

  // ---------------------------------------------------------------------
  // calculateTimes
  // ---------------------------------------------------------------------

  /** The AM/PM conversion: PM adds 12 except at 12, and 12 AM is hour 0. */
  function ToHour24(h: StartHour): int {
    if h.isPM && h.hour != 12 then h.hour + 12
    else if !h.isPM && h.hour == 12 then 0
    else h.hour
  }

  /** `format12Hour`: 0 shows as 12 and afternoon hours lose 12. */
  function Format12Hour(h: int): int {
    if h == 0 then 12 else if h > 12 then h - 12 else h
  }

  /** The interval step: a minute count reaching 60 carries one hour and loses 60 once. */
  function IntervalStep(hour: int, minute: int, interval: int): (int, int) {
    var m := minute + interval;
    if m >= 60 then (hour + 1, m - 60) else (hour, m)
  }

  /** The slots in 24-hour clock values, before formatting. */
  function ClockSlots(n: nat, hour: int, minute: int, interval: int): (slots: seq<TimeLabel>)
    ensures |slots| == n
  {
    if n == 0 then []
    else
      var next := IntervalStep(hour, minute, interval);
      [TimeLabel(hour, minute, next.0, next.1)] + ClockSlots(n - 1, next.0, next.1, interval)
  }

  function Format(l: TimeLabel): TimeLabel {
    TimeLabel(Format12Hour(l.startHour), l.startMinute, Format12Hour(l.endHour), l.endMinute)
  }

  function FormatAll(slots: seq<TimeLabel>): (labels: seq<TimeLabel>)
    ensures |labels| == |slots|
    ensures forall i :: 0 <= i < |slots| ==> labels[i] == Format(slots[i])
  {
    if |slots| == 0 then [] else [Format(slots[0])] + FormatAll(slots[1..])
  }

  /** All three settings are non-empty strings. */
  predicate SettingsComplete(ts: TimeSettings) {
    ts.startHour.Some? && ts.startMinute.Some? && ts.interval.Some?
  }

  /** `calculateTimes`: empty unless all settings are filled in, otherwise
      one label per time row. */
  function CalculateTimes(ts: TimeSettings): (labels: seq<TimeLabel>)
    ensures |labels| == if SettingsComplete(ts) then ts.timeRows else 0
  {
    if !SettingsComplete(ts) then []
    else FormatAll(ClockSlots(ts.timeRows, ToHour24(ts.startHour.value), ts.startMinute.value, ts.interval.value))
  }

  lemma {:induction false} ClockSlotsSpans(n: nat, hour: int, minute: int, interval: int, i: nat)
    requires i < n
    ensures var l := ClockSlots(n, hour, minute, interval)[i];
      && Minutes(l.startHour, l.startMinute) == Minutes(hour, minute) + interval * i
      && Minutes(l.endHour, l.endMinute) == Minutes(hour, minute) + interval * (i + 1)
  {
    if i > 0 {
      var next := IntervalStep(hour, minute, interval);
      ClockSlotsSpans(n - 1, next.0, next.1, interval, i - 1);
    }
  }

  lemma {:induction false} ClockSlotsMinutes(n: nat, hour: int, minute: int, interval: int, i: nat)
    requires 0 <= minute < 60 && 0 <= interval <= 60
    requires i < n
    ensures var l := ClockSlots(n, hour, minute, interval)[i];
      0 <= l.startMinute < 60 && 0 <= l.endMinute < 60
  {
    if i > 0 {
      var next := IntervalStep(hour, minute, interval);
      ClockSlotsMinutes(n - 1, next.0, next.1, interval, i - 1);
    }
  }

  lemma {:induction false} ClockSlotsChain(n: nat, hour: int, minute: int, interval: int, i: nat)
    requires i + 1 < n
    ensures var s := ClockSlots(n, hour, minute, interval);
      s[i].endHour == s[i + 1].startHour && s[i].endMinute == s[i + 1].startMinute
  {
    if i > 0 {
      var next := IntervalStep(hour, minute, interval);
      ClockSlotsChain(n - 1, next.0, next.1, interval, i - 1);
    }
  }

  /** With complete settings, slot i starts interval * i minutes after the
      converted start time and ends where slot i + 1 begins; with an interval
      of at most an hour and a start minute below 60 every minute shown lies
      in 0 .. 59. */
  lemma CalculatedSlots(ts: TimeSettings, i: nat)
    requires SettingsComplete(ts) && i < ts.timeRows
    ensures var h := ToHour24(ts.startHour.value);
      var m := ts.startMinute.value;
      var d := ts.interval.value;
      var l := ClockSlots(ts.timeRows, h, m, d)[i];
      && CalculateTimes(ts)[i] == Format(l)
      && Minutes(l.startHour, l.startMinute) == Minutes(h, m) + d * i
      && Minutes(l.endHour, l.endMinute) == Minutes(h, m) + d * (i + 1)
      && (i + 1 < ts.timeRows ==>
            CalculateTimes(ts)[i].endMinute == CalculateTimes(ts)[i + 1].startMinute &&
            CalculateTimes(ts)[i].endHour == CalculateTimes(ts)[i + 1].startHour)
      && (m < 60 && d <= 60 ==> 0 <= l.startMinute < 60 && 0 <= l.endMinute < 60)
  {
    var h := ToHour24(ts.startHour.value);
    var m := ts.startMinute.value;
    var d := ts.interval.value;
    ClockSlotsSpans(ts.timeRows, h, m, d, i);
    if i + 1 < ts.timeRows {
      ClockSlotsChain(ts.timeRows, h, m, d, i);
    }
    if m < 60 && d <= 60 {
      ClockSlotsMinutes(ts.timeRows, h, m, d, i);
    }
  }

  /** The 12-hour display undoes the AM/PM conversion for the hours the time
      dialog offers, and AM and PM of the same hour differ after conversion. */
  lemma Hour24RoundTrip(h: StartHour)
    requires 1 <= h.hour <= 12
    ensures Format12Hour(ToHour24(h)) == h.hour
    ensures 0 <= ToHour24(h) <= 23
    ensures ToHour24(h) >= 12 <==> h.isPM
  {
  }

  /** format12Hour yields an hour of 1 .. 12 exactly for hours 0 .. 24. */
  lemma Format12HourRange(h: int)
    requires h >= 0
    ensures 1 <= Format12Hour(h) <= 12 <==> h <= 24
  {
  }

  /** The row label: the computed label when there is one, the default one
      otherwise (`calculateTimes[i] || generateDefaultTimes[i]`; labels are
      never empty strings). */
  function RowLabel(ts: TimeSettings, i: nat): (l: TimeLabel)
    requires i < ts.timeRows
    ensures SettingsComplete(ts) ==> l == CalculateTimes(ts)[i]
    ensures !SettingsComplete(ts) ==> l == DefaultTimes(ts.timeRows)[i]
  {
    var computed := CalculateTimes(ts);
    if i < |computed| then computed[i] else DefaultTimes(ts.timeRows)[i]
  }
}
