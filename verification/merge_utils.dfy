/** The merge resolver over the sparse schedule: which stored cells fall in
    a lane range, which text a merge keeps, and whether a range touches an
    existing merge. A lane is one (teacherId, day) column of the timetable. */
module MergeUtils {
  import opened Wrappers
  import opened Text
  import opened Seqs
  import opened Interfaces

  predicate InLane(c: ScheduleCell, teacherId: nat, day: DayOfWeek) {
    c.teacherId == teacherId && c.day == day
  }

  /** `rowspan && rowspan > 1`: the cell is the primary cell of a merge. */
  predicate IsPrimary(c: ScheduleCell) {
    c.rowspan.Some? && c.rowspan.value > 1
  }

  /** `isMergedChild` is truthy. */
  predicate IsChild(c: ScheduleCell) {
    c.isMergedChild == Some(true)
  }

  /** The slots a primary cell covers: timeSlot .. timeSlot + rowspan - 1. */
  function SpanEnd(c: ScheduleCell): int
    requires IsPrimary(c)
  {
    c.timeSlot + c.rowspan.value - 1
  }

  // ---------------------------------------------------------------------
  // findMergeCells
  // ---------------------------------------------------------------------

  predicate InLaneRange(c: ScheduleCell, teacherId: nat, day: DayOfWeek, start: int, end: int) {
    InLane(c, teacherId, day) && start <= c.timeSlot <= end
  }

  /** `findMergeCells`: the stored cells of the lane whose slot lies in
      [start, end], in storage order. */
  function FindMergeCells(schedules: seq<ScheduleCell>, teacherId: nat, day: DayOfWeek, start: int, end: int): (r: seq<ScheduleCell>)
    ensures forall c :: c in r <==> c in schedules && InLaneRange(c, teacherId, day, start, end)
    ensures forall c :: multiset(r)[c] == if InLaneRange(c, teacherId, day, start, end) then multiset(schedules)[c] else 0
    ensures start > end ==> r == []
  {
    var r := Filter(schedules, c => InLaneRange(c, teacherId, day, start, end));
    forall c ensures multiset(r)[c] == if InLaneRange(c, teacherId, day, start, end) then multiset(schedules)[c] else 0 {
      FilterCounts(schedules, c => InLaneRange(c, teacherId, day, start, end), c);
    }
    forall c ensures c in r <==> c in schedules && InLaneRange(c, teacherId, day, start, end) {
      FilterMembers(schedules, c => InLaneRange(c, teacherId, day, start, end), c);
    }
    r
  }

  /** The result keeps storage order: it distributes over concatenation. */
  lemma FindMergeCellsAppend(a: seq<ScheduleCell>, b: seq<ScheduleCell>, teacherId: nat, day: DayOfWeek, start: int, end: int)
    ensures FindMergeCells(a + b, teacherId, day, start, end) ==
            FindMergeCells(a, teacherId, day, start, end) + FindMergeCells(b, teacherId, day, start, end)
  {
    FilterAppend(a, b, c => InLaneRange(c, teacherId, day, start, end));
  }

  // ---------------------------------------------------------------------
  // getMergedText
  // ---------------------------------------------------------------------

  predicate NonBlank(c: ScheduleCell) {
    Trim(c.content) != ""
  }

  function SlotKey(c: ScheduleCell): int { c.timeSlot }

  /** `getMergedText`: drop cells whose content trims to nothing, sort the rest
      by slot (stably), and keep the first one's content as written. */
  function GetMergedText(cells: seq<ScheduleCell>): (text: string)
    ensures text == "" <==> forall c :: c in cells ==> !NonBlank(c)
    ensures text != "" ==> exists c :: c in cells && NonBlank(c) && c.content == text
  {
    var kept := Filter(cells, NonBlank);
    var sorted := SortBy(kept, SlotKey);
    if |sorted| > 0 then
      SortByPermutes(kept, SlotKey);
      assert sorted[0] in multiset(kept);
      FilterMembers(cells, NonBlank, sorted[0]);
      sorted[0].content
    else
      forall c | c in cells && NonBlank(c) ensures c in kept {
        FilterMembers(cells, NonBlank, c);
      }
      ""
  }

  /** The merge keeps the text of the non-blank cell with the smallest slot;
      among several such cells, the one stored first. */
  lemma GetMergedTextEarliestTop(cells: seq<ScheduleCell>, i: nat)
    requires i < |cells| && NonBlank(cells[i])
    requires forall j :: 0 <= j < |cells| && NonBlank(cells[j]) ==> cells[i].timeSlot <= cells[j].timeSlot
    requires forall j :: 0 <= j < i && NonBlank(cells[j]) ==> cells[j].timeSlot != cells[i].timeSlot
    ensures GetMergedText(cells) == cells[i].content
  {
    var kept := Filter(cells, NonBlank);
    var k := cells[i].timeSlot;
    FilterFirstWithKey(cells, NonBlank, SlotKey, i);
    FilterMembers(cells, NonBlank, cells[i]);
    forall y | y in kept ensures SlotKey(cells[i]) <= SlotKey(y) {
      FilterMembers(cells, NonBlank, y);
    }
    SortByHeadMinKey(kept, SlotKey, cells[i]);
    SortByStable(kept, SlotKey, k);
    WithKeyHead(SortBy(kept, SlotKey), SlotKey, k);
  }

  // ---------------------------------------------------------------------
  // hasOverlappingMerge
  // ---------------------------------------------------------------------

  /** A lane cell in [start, end] that is a primary or a child cell. */
  function AnyMergedInRange(schedules: seq<ScheduleCell>, teacherId: nat, day: DayOfWeek, start: int, end: int): (b: bool)
    ensures b <==> exists i :: 0 <= i < |schedules| && InLaneRange(schedules[i], teacherId, day, start, end) &&
                             (IsPrimary(schedules[i]) || IsChild(schedules[i]))
  {
    if |schedules| == 0 then false
    else
      var c := schedules[|schedules| - 1];
      var rest := AnyMergedInRange(schedules[..|schedules| - 1], teacherId, day, start, end);
      assert forall i :: 0 <= i < |schedules| - 1 ==> schedules[..|schedules| - 1][i] == schedules[i];
      rest || (InLaneRange(c, teacherId, day, start, end) && (IsPrimary(c) || IsChild(c)))
  }

  /** A lane primary above `start` whose span reaches `start`. */
  function AnySpanFromAbove(schedules: seq<ScheduleCell>, teacherId: nat, day: DayOfWeek, start: int): (b: bool)
    ensures b <==> exists i :: 0 <= i < |schedules| && InLane(schedules[i], teacherId, day) &&
                             schedules[i].timeSlot < start && IsPrimary(schedules[i]) && SpanEnd(schedules[i]) >= start
  {
    if |schedules| == 0 then false
    else
      var c := schedules[|schedules| - 1];
      var rest := AnySpanFromAbove(schedules[..|schedules| - 1], teacherId, day, start);
      assert forall i :: 0 <= i < |schedules| - 1 ==> schedules[..|schedules| - 1][i] == schedules[i];
      rest || (InLane(c, teacherId, day) && c.timeSlot < start && IsPrimary(c) && SpanEnd(c) >= start)
  }

  /** `hasOverlappingMerge`: the range holds a merged cell, or a merge that
      starts above it reaches into it. */
  function HasOverlappingMerge(schedules: seq<ScheduleCell>, teacherId: nat, day: DayOfWeek, start: int, end: int): (b: bool)
    ensures b <==>
      (exists c :: c in schedules && InLaneRange(c, teacherId, day, start, end) && (IsPrimary(c) || IsChild(c))) ||
      (exists c :: c in schedules && InLane(c, teacherId, day) && c.timeSlot < start && IsPrimary(c) && SpanEnd(c) >= start)
  {
    AnyMergedInRange(schedules, teacherId, day, start, end) || AnySpanFromAbove(schedules, teacherId, day, start)
  }

  /** The span of a primary cell meets [start, end]. */
  predicate SpanMeets(c: ScheduleCell, start: int, end: int) {
    IsPrimary(c) && c.timeSlot <= end && SpanEnd(c) >= start
  }

  /** When no overlap is reported, no merge of the lane covers any slot of a
      non-empty range, and no child cell sits in it. */
  lemma NoOverlapMeansFreeRange(schedules: seq<ScheduleCell>, teacherId: nat, day: DayOfWeek, start: int, end: int)
    requires start <= end
    requires !HasOverlappingMerge(schedules, teacherId, day, start, end)
    ensures forall c :: c in schedules && InLane(c, teacherId, day) ==> !SpanMeets(c, start, end)
    ensures forall c :: c in schedules && InLaneRange(c, teacherId, day, start, end) ==> !IsChild(c)
  {
  }

  /** Monotone in the range: an overlap found in a range is found in any
      range containing it. */
  lemma OverlapMonotone(schedules: seq<ScheduleCell>, teacherId: nat, day: DayOfWeek, s1: int, e1: int, s2: int, e2: int)
    requires s2 <= s1 <= e1 <= e2
    requires HasOverlappingMerge(schedules, teacherId, day, s1, e1)
    ensures HasOverlappingMerge(schedules, teacherId, day, s2, e2)
  {
    if !AnyMergedInRange(schedules, teacherId, day, s1, e1) {
      var c :| c in schedules && InLane(c, teacherId, day) && c.timeSlot < s1 && IsPrimary(c) && SpanEnd(c) >= s1;
      if c.timeSlot < s2 {
        assert SpanEnd(c) >= s2;
      } else {
        assert InLaneRange(c, teacherId, day, s2, e2);
      }
    }
  }

  /** Cells of other lanes never change the answer: any two schedules with the
      same cells in this lane agree. */
  lemma OverlapIgnoresOtherLanes(s: seq<ScheduleCell>, t: seq<ScheduleCell>, teacherId: nat, day: DayOfWeek, start: int, end: int)
    requires forall c :: InLane(c, teacherId, day) ==> (c in s <==> c in t)
    ensures HasOverlappingMerge(s, teacherId, day, start, end) == HasOverlappingMerge(t, teacherId, day, start, end)
  {
  }
}
