/** The timetable of one weekday: a grid whose row 0 holds the teacher names
    and whose row r >= 1 holds time slot r - 1, one column per teacher. This
    module is the adapter between that grid and the sparse schedule: merge
    information for the navigation engine, the cells a Delete clears, and
    the selection reported to the page. */
module TimeTable {
  import opened Wrappers
  import opened Interfaces
  import opened NavigationTypes
  import opened TableNavigation
  import MergeUtils

  /** `schedules.find(...)`: the first stored cell with this key. */
  function FindCell(schedules: seq<ScheduleCell>, teacherId: nat, day: DayOfWeek, slot: int): (r: Option<ScheduleCell>)
    ensures r.None? <==> forall i :: 0 <= i < |schedules| ==> KeyOf(schedules[i]) != CellKey(teacherId, day, slot)
    ensures r.Some? ==> exists i :: (0 <= i < |schedules| && schedules[i] == r.value &&
      KeyOf(schedules[i]) == CellKey(teacherId, day, slot) &&
      forall j :: 0 <= j < i ==> KeyOf(schedules[j]) != CellKey(teacherId, day, slot))
  {
    if |schedules| == 0 then None
    else if KeyOf(schedules[0]) == CellKey(teacherId, day, slot) then Some(schedules[0])
    else
      var r := FindCell(schedules[1..], teacherId, day, slot);
      assert forall i :: 1 <= i < |schedules| ==> schedules[1..][i - 1] == schedules[i];
      r
  }

  /** The first stored primary cell (rowspan > 1) with this key. */
  function FindPrimary(schedules: seq<ScheduleCell>, teacherId: nat, day: DayOfWeek, slot: int): (r: Option<ScheduleCell>)
    ensures r.None? <==> forall i :: 0 <= i < |schedules| ==>
      !(KeyOf(schedules[i]) == CellKey(teacherId, day, slot) && MergeUtils.IsPrimary(schedules[i]))
    ensures r.Some? ==> r.value in schedules && KeyOf(r.value) == CellKey(teacherId, day, slot) && MergeUtils.IsPrimary(r.value)
  {
    if |schedules| == 0 then None
    else if KeyOf(schedules[0]) == CellKey(teacherId, day, slot) && MergeUtils.IsPrimary(schedules[0]) then Some(schedules[0])
    else
      var r := FindPrimary(schedules[1..], teacherId, day, slot);
      assert forall i :: 1 <= i < |schedules| ==> schedules[1..][i - 1] == schedules[i];
      r
  }

  /** The primary at slot t covers `slot`. */
  predicate Covers(schedules: seq<ScheduleCell>, teacherId: nat, day: DayOfWeek, t: int, slot: int) {
    var p := FindPrimary(schedules, teacherId, day, t);
    p.Some? && t + p.value.rowspan.value > slot
  }

  /** No primary at a slot strictly between lo and hi covers `slot`. */
  predicate NoCoverBetween(schedules: seq<ScheduleCell>, teacherId: nat, day: DayOfWeek, lo: int, hi: int, slot: int) {
    forall u :: lo < u < hi ==> !Covers(schedules, teacherId, day, u, slot)
  }

  /** The search of a child cell for its primary: slots t, t-1, .. 0, the
      first whose primary covers `slot`; yields that slot and its rowspan. */
  function CoveringPrimary(schedules: seq<ScheduleCell>, teacherId: nat, day: DayOfWeek, slot: int, t: int): (r: Option<(int, int)>)
    ensures r.Some? ==>
      (0 <= r.value.0 <= t && Covers(schedules, teacherId, day, r.value.0, slot)
       && r.value.1 == FindPrimary(schedules, teacherId, day, r.value.0).value.rowspan.value
       && forall u :: r.value.0 < u <= t ==> !Covers(schedules, teacherId, day, u, slot))
    ensures r.None? ==> forall u :: 0 <= u <= t ==> !Covers(schedules, teacherId, day, u, slot)
    decreases t + 1
  {
    if t < 0 then None
    else if Covers(schedules, teacherId, day, t, slot) then
      Some((t, FindPrimary(schedules, teacherId, day, t).value.rowspan.value))
    else CoveringPrimary(schedules, teacherId, day, slot, t - 1)
  }

  /** `getMergeInfo` of the timetable grid. */
  function GetMergeInfo(teachers: seq<Teacher>, schedules: seq<ScheduleCell>, day: DayOfWeek, row: int, col: int): (mi: MergeInfo)
    ensures row == 0 || col < 0 || col >= |teachers| ==> mi == NoMerge(row)
  {
    if row == 0 || col < 0 || col >= |teachers| then NoMerge(row)
    else
      var tid := teachers[col].id;
      var slot := row - 1;
      match FindCell(schedules, tid, day, slot)
      case Some(c) =>
        if MergeUtils.IsPrimary(c) then MergeInfo(true, true, row, c.rowspan.value)
        else if MergeUtils.IsChild(c) then
          match CoveringPrimary(schedules, tid, day, slot, slot - 1)
          case Some((t, span)) => MergeInfo(true, false, t + 1, span)
          case None => NoMerge(row)
        else NoMerge(row)
      case None => NoMerge(row)
  }

  /** A stored primary at the row's slot makes the row the main cell of its
      group, with that cell's rowspan. */
  lemma MainCellInfo(teachers: seq<Teacher>, schedules: seq<ScheduleCell>, day: DayOfWeek, row: int, col: int)
    requires row != 0 && 0 <= col < |teachers|
    requires var c := FindCell(schedules, teachers[col].id, day, row - 1); c.Some? && MergeUtils.IsPrimary(c.value)
    ensures var mi := GetMergeInfo(teachers, schedules, day, row, col);
      mi.isMerged && mi.isMainCell && mi.mainRow == row &&
      mi.rowspan == FindCell(schedules, teachers[col].id, day, row - 1).value.rowspan.value && mi.rowspan > 1
  {
  }

  /** A child cell is reported inside the group of the nearest primary above
      it whose span reaches it; its main row lies strictly above it and its
      row lies within the group. */
  lemma ChildCellInfo(teachers: seq<Teacher>, schedules: seq<ScheduleCell>, day: DayOfWeek, row: int, col: int)
    requires row != 0 && 0 <= col < |teachers|
    requires GetMergeInfo(teachers, schedules, day, row, col).isMerged
    requires !GetMergeInfo(teachers, schedules, day, row, col).isMainCell
    ensures var mi := GetMergeInfo(teachers, schedules, day, row, col);
      var tid := teachers[col].id;
      && 1 <= mi.mainRow < row <= mi.mainRow + mi.rowspan - 1
      && FindCell(schedules, tid, day, row - 1).Some? && MergeUtils.IsChild(FindCell(schedules, tid, day, row - 1).value)
      && Covers(schedules, tid, day, mi.mainRow - 1, row - 1)
      && mi.rowspan == FindPrimary(schedules, tid, day, mi.mainRow - 1).value.rowspan.value
      && NoCoverBetween(schedules, tid, day, mi.mainRow - 1, row - 1, row - 1)
  {
  }

  /** Every other cell of the grid (absent, plain, or a child no primary above
      reaches) is reported unmerged. */
  lemma UnmergedInfo(teachers: seq<Teacher>, schedules: seq<ScheduleCell>, day: DayOfWeek, row: int, col: int)
    requires row != 0 && 0 <= col < |teachers|
    requires var c := FindCell(schedules, teachers[col].id, day, row - 1);
      c.None? || (!MergeUtils.IsPrimary(c.value) && !MergeUtils.IsChild(c.value)) ||
      (MergeUtils.IsChild(c.value) && !MergeUtils.IsPrimary(c.value) &&
       NoCoverBetween(schedules, teachers[col].id, day, -1, row - 1, row - 1))
    ensures GetMergeInfo(teachers, schedules, day, row, col) == NoMerge(row)
  {
  }

  /** The navigation grid of one weekday. Rows are the name row plus one per
      time slot, columns are the teachers, and the name row is skipped by
      the arrow keys. */
  function Grid(teachers: seq<Teacher>, ts: TimeSettings, schedules: seq<ScheduleCell>, day: DayOfWeek, isActive: bool,
                registered: (int, int) -> bool, content: (int, int) -> string): (cfg: NavigationConfig)
    ensures cfg.rows == ts.timeRows + 1 && cfg.cols == |teachers|
    ensures cfg.shouldSkipRow(0) && forall r :: r != 0 ==> !cfg.shouldSkipRow(r)
  {
    NavigationConfig(ts.timeRows + 1, |teachers|, false, isActive, true, registered, content,
                     (r, c) => GetMergeInfo(teachers, schedules, day, r, c), r => r == 0)
  }

  /** Whatever the stored cells, the timetable reports well-formed merge
      groups, so navigation on it keeps its state valid. */
  lemma GridMergeWellFormed(teachers: seq<Teacher>, ts: TimeSettings, schedules: seq<ScheduleCell>, day: DayOfWeek, isActive: bool,
                            registered: (int, int) -> bool, content: (int, int) -> string)
    ensures WellFormedMerge(Grid(teachers, ts, schedules, day, isActive, registered, content))
  {
    var cfg := Grid(teachers, ts, schedules, day, isActive, registered, content);
    forall r, c | InBounds(cfg, r, c) ensures MergeInfoSound(cfg.getMergeInfo(r, c), r) {
      var mi := GetMergeInfo(teachers, schedules, day, r, c);
      if mi.isMerged && !mi.isMainCell {
        ChildCellInfo(teachers, schedules, day, r, c);
      }
    }
  }

  /** Any sequence of events from the weekday grid keeps navigation valid. */
  lemma GridNavigationValid(teachers: seq<Teacher>, ts: TimeSettings, schedules: seq<ScheduleCell>, day: DayOfWeek, isActive: bool,
                            registered: (int, int) -> bool, content: (int, int) -> string, es: seq<Event>)
    requires forall i :: 0 <= i < |es| ==> EventInGrid(Grid(teachers, ts, schedules, day, isActive, registered, content), es[i])
    ensures var cfg := Grid(teachers, ts, schedules, day, isActive, registered, content);
      Valid(cfg, Replay(cfg, InitialState, es))
  {
    GridMergeWellFormed(teachers, ts, schedules, day, isActive, registered, content);
    EventsPreserveValid(Grid(teachers, ts, schedules, day, isActive, registered, content), es);
  }

  // ---------------------------------------------------------------------
  // onClearCells
  // ---------------------------------------------------------------------

  /** What one Delete asks of the page: the teachers whose names are blanked
      (one `onUpdateTeacherName(id, "")` each, in order), and the single
      batch of schedule cells handed to `onClearMultipleCells`, if any. */
  datatype ClearRequest = ClearRequest(names: seq<nat>, batch: Option<seq<CellKey>>)

  function NameClears(teachers: seq<Teacher>, cells: seq<CellPosition>): (ids: seq<nat>)
  {
    if |cells| == 0 then []
    else
      var p := cells[0];
      (if 0 <= p.col < |teachers| && p.row == 0 then [teachers[p.col].id] else []) + NameClears(teachers, cells[1..])
  }

  function SlotClears(teachers: seq<Teacher>, timeRows: nat, day: DayOfWeek, cells: seq<CellPosition>): (keys: seq<CellKey>)
  {
    if |cells| == 0 then []
    else
      var p := cells[0];
      (if 0 <= p.col < |teachers| && 1 <= p.row <= timeRows then [CellKey(teachers[p.col].id, day, p.row - 1)] else [])
      + SlotClears(teachers, timeRows, day, cells[1..])
  }

  /** TimeTable's `onClearCells`: every name cell in the selection blanks
      its teacher's name, and the time-row cells go to the page as one
      batch, which is sent only when it is non-empty. */
  function ClearCells(teachers: seq<Teacher>, timeRows: nat, day: DayOfWeek, cells: seq<CellPosition>): (req: ClearRequest)
    ensures req.names == NameClears(teachers, cells)
    ensures req.batch.Some? <==> |SlotClears(teachers, timeRows, day, cells)| > 0
    ensures req.batch.Some? ==> req.batch.value == SlotClears(teachers, timeRows, day, cells)
    ensures req.batch.Some? ==> |req.batch.value| > 0
  {
    var keys := SlotClears(teachers, timeRows, day, cells);
    ClearRequest(NameClears(teachers, cells), if |keys| > 0 then Some(keys) else None)
  }

  /** A teacher's name is blanked exactly when a cleared cell lies in that
      teacher's column of the name row. */
  lemma {:induction false} NameClearsMembers(teachers: seq<Teacher>, cells: seq<CellPosition>, id: nat)
    ensures id in NameClears(teachers, cells) <==>
      exists p :: p in cells && p.row == 0 && 0 <= p.col < |teachers| && teachers[p.col].id == id
  {
    if |cells| > 0 {
      NameClearsMembers(teachers, cells[1..], id);
      assert forall p :: p in cells <==> p == cells[0] || p in cells[1..];
    }
  }

  /** A schedule key is cleared exactly when a cleared cell of a time row maps
      to it (teacher of the column, this weekday, slot row - 1); cells outside
      the grid are ignored. */
  lemma {:induction false} SlotClearsMembers(teachers: seq<Teacher>, timeRows: nat, day: DayOfWeek, cells: seq<CellPosition>, k: CellKey)
    ensures k in SlotClears(teachers, timeRows, day, cells) <==>
      exists p :: p in cells && 1 <= p.row <= timeRows && 0 <= p.col < |teachers| &&
                  k == CellKey(teachers[p.col].id, day, p.row - 1)
  {
    if |cells| > 0 {
      SlotClearsMembers(teachers, timeRows, day, cells[1..], k);
      assert forall p :: p in cells <==> p == cells[0] || p in cells[1..];
    }
  }

  // ---------------------------------------------------------------------
  // onSelectionChange
  // ---------------------------------------------------------------------

  /** The selection as the schedule page sees it. */
  datatype ScheduleSelection = ScheduleSelection(teacherId: nat, day: DayOfWeek, startRow: int, endRow: int, startCol: int, endCol: int)

  /** TimeTable's `onSelectionChange`: grid rows normalised, the teacher of
      the start column, nothing when that column has no teacher. */
  function SelectionToSchedule(teachers: seq<Teacher>, day: DayOfWeek, range: Option<SelectionRange>): (sel: Option<ScheduleSelection>)
    ensures sel.Some? <==> range.Some? && 0 <= range.value.start.col < |teachers|
    ensures sel.Some? ==>
      && sel.value.teacherId == teachers[range.value.start.col].id && sel.value.day == day
      && sel.value.startRow <= sel.value.endRow
      && {sel.value.startRow, sel.value.endRow} == {range.value.start.row, range.value.end.row}
      && sel.value.startCol == range.value.start.col && sel.value.endCol == range.value.end.col
  {
    match range
    case None => None
    case Some(r) =>
      if 0 <= r.start.col < |teachers| then
        Some(ScheduleSelection(teachers[r.start.col].id, day, Min(r.start.row, r.end.row), Max(r.start.row, r.end.row),
                               r.start.col, r.end.col))
      else None
  }
}
