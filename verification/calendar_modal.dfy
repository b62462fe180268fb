/** The date picker: month navigation, the day grid of one month, and the
    "month/day" text a click on a day produces. */
module CalendarModal {
  import opened Wrappers
  import opened Text

  /** The shown month; `month` counts from 0 (January) as JavaScript does. */
  datatype CalState = CalState(year: int, month: int)

  predicate Valid(st: CalState) {
    0 <= st.month <= 11
  }

  /** The months elapsed since January of year 0, a reference numbering. */
  function MonthIndex(st: CalState): int {
    st.year * 12 + st.month
  }

  /** `handlePrevMonth`: January goes back to December of the year before. */
  function PrevMonth(st: CalState): (st': CalState)
    ensures Valid(st) ==> Valid(st') && MonthIndex(st') == MonthIndex(st) - 1
  {
    if st.month == 0 then CalState(st.year - 1, 11) else st.(month := st.month - 1)
  }

  /** `handleNextMonth`: December goes on to January of the next year. */
  function NextMonth(st: CalState): (st': CalState)
    ensures Valid(st) ==> Valid(st') && MonthIndex(st') == MonthIndex(st) + 1
  {
    if st.month == 11 then CalState(st.year + 1, 0) else st.(month := st.month + 1)
  }

  /** A valid state is determined by its month number. */
  lemma MonthIndexInjective(a: CalState, b: CalState)
    requires Valid(a) && Valid(b) && MonthIndex(a) == MonthIndex(b)
    ensures a == b
  {
  }

  /** Next and previous undo each other on valid states. */
  lemma NextPrevInverse(st: CalState)
    requires Valid(st)
    ensures PrevMonth(NextMonth(st)) == st
    ensures NextMonth(PrevMonth(st)) == st
  {
    MonthIndexInjective(PrevMonth(NextMonth(st)), st);
    MonthIndexInjective(NextMonth(PrevMonth(st)), st);
  }

  /** The grid cells: `firstDayOfWeek` blanks (Sunday = 0) and then the
      days 1 to `daysInMonth`, built by the same two loops. */
  method CalendarDays(firstDayOfWeek: nat, daysInMonth: nat) returns (cells: seq<Option<nat>>)
    ensures |cells| == firstDayOfWeek + daysInMonth
    ensures forall i :: 0 <= i < firstDayOfWeek ==> cells[i] == None
    ensures forall k :: 1 <= k <= daysInMonth ==> cells[firstDayOfWeek + k - 1] == Some(k)
  {
    cells := [];
    var i := 0;
    while i < firstDayOfWeek
      invariant 0 <= i <= firstDayOfWeek && |cells| == i
      invariant forall j :: 0 <= j < i ==> cells[j] == None
    {
      cells := cells + [None];
      i := i + 1;
    }
    var day := 1;
    while day <= daysInMonth
      invariant 1 <= day <= daysInMonth + 1 && |cells| == firstDayOfWeek + day - 1
      invariant forall j :: 0 <= j < firstDayOfWeek ==> cells[j] == None
      invariant forall k :: 1 <= k < day ==> cells[firstDayOfWeek + k - 1] == Some(k)
    {
      cells := cells + [Some(day)];
      day := day + 1;
    }
  }

  /** What a click on a day reports: first the date, then the close. */
  datatype Effect = SelectDate(text: string) | Close

  /** `handleDateClick`: the text "month/day" with the month counted from
      1, then the dialog closes. */
  function DateClick(st: CalState, day: nat): (effects: seq<Effect>)
    requires Valid(st)
    ensures |effects| == 2 && effects[0].SelectDate? && effects[1] == Close
  {
    [SelectDate(NatToString(st.month + 1) + "/" + NatToString(day)), Close]
  }

  /** The reported text splits at its one '/' into the month counted from 1
      and the day, each read back from its digits. */
  lemma DateTextRoundTrip(st: CalState, day: nat)
    requires Valid(st)
    ensures var t := DateClick(st, day)[0].text;
      exists k :: 0 < k < |t| - 1 && t[k] == '/' &&
        (forall i :: 0 <= i < |t| && i != k ==> IsDigit(t[i])) &&
        DigitsValue(t[..k]) == st.month + 1 && DigitsValue(t[k + 1..]) == day
  {
    var a, b := NatToString(st.month + 1), NatToString(day);
    NatToStringRoundTrip(st.month + 1);
    NatToStringRoundTrip(day);
    SlashJoin(a, b);
    var t := a + "/" + b;
    assert t == DateClick(st, day)[0].text;
    var k := |a|;
    assert 0 < k < |t| - 1 && t[k] == '/' &&
      (forall i :: 0 <= i < |t| && i != k ==> IsDigit(t[i])) &&
      DigitsValue(t[..k]) == st.month + 1 && DigitsValue(t[k + 1..]) == day;
  }

  /** Two digit strings joined by '/' split back at the slash. */
  lemma SlashJoin(a: string, b: string)
    requires forall i :: 0 <= i < |a| ==> IsDigit(a[i])
    requires forall i :: 0 <= i < |b| ==> IsDigit(b[i])
    ensures var t := a + "/" + b;
      t[|a|] == '/' && t[..|a|] == a && t[|a| + 1..] == b &&
      forall i :: 0 <= i < |t| && i != |a| ==> IsDigit(t[i])
  {
    var t := a + "/" + b;
    assert t[..|a|] == a;
    assert t[|a| + 1..] == b;
    forall i | 0 <= i < |t| && i != |a| ensures IsDigit(t[i]) {
      if i < |a| { assert t[i] == a[i]; } else { assert t[i] == b[i - |a| - 1]; }
    }
  }
}
