/** The keyboard and mouse state machine of the grid navigation hook: focus,
    rectangular selection, edit mode and drag selection over a rows x cols
    grid. Every handler is a pure transition from the current state. */
module TableNavigation {
  import opened Wrappers
  import opened Text
  import opened NavigationTypes

  // ---------------------------------------------------------------------
  // Grid geometry and the cell registry
  // ---------------------------------------------------------------------

  predicate InBounds(cfg: NavigationConfig, row: int, col: int) {
    0 <= row < cfg.rows && 0 <= col < cfg.cols
  }

  /** `cellRefs.current[row]?.[col]` holds an element. */
  predicate HasElement(cfg: NavigationConfig, row: int, col: int) {
    InBounds(cfg, row, col) && cfg.registered(row, col)
  }

  /** `cellRefs.current[row]?.[col] === null`: inside the grid, no element. */
  predicate IsNullRef(cfg: NavigationConfig, row: int, col: int) {
    InBounds(cfg, row, col) && !cfg.registered(row, col)
  }

  /** What every caller's `getMergeInfo` reports about a grid cell: a merged
      cell's group starts at or above it, the main cell's group starts at it,
      and a group spans at least one row. */
  predicate MergeInfoSound(mi: MergeInfo, row: int) {
    mi.isMerged ==> 0 <= mi.mainRow <= row && mi.rowspan >= 1 && (mi.isMainCell ==> mi.mainRow == row)
  }

  ghost predicate WellFormedMerge(cfg: NavigationConfig) {
    forall r, c :: InBounds(cfg, r, c) ==> MergeInfoSound(cfg.getMergeInfo(r, c), r)
  }

  /** The cell reached from `p` after `k` steps of (dr, dc). */
  function Ray(p: CellPosition, dr: int, dc: int, k: nat): CellPosition {
    if k == 0 then p else var q := Ray(p, dr, dc, k - 1); CellPosition(q.row + dr, q.col + dc)
  }

  // ---------------------------------------------------------------------
  // Small transitions
  // ---------------------------------------------------------------------

  /** `focusCell`: focus moves only onto a cell with a registered element. */
  function FocusCell(cfg: NavigationConfig, st: NavigationState, row: int, col: int): (st': NavigationState)
    ensures st'.focusedCell == (if HasElement(cfg, row, col) then Some(CellPosition(row, col)) else st.focusedCell)
    ensures st'.selectedRange == st.selectedRange && st'.editingCell == st.editingCell
    ensures st'.isSelecting == st.isSelecting && st'.dragStartCell == st.dragStartCell
  {
    if HasElement(cfg, row, col) then st.(focusedCell := Some(CellPosition(row, col))) else st
  }

  /** `clearSelection`: the selection and the drag anchor go; focus, edit
      mode and the pressed-button flag stay. */
  function ClearSelection(st: NavigationState): (st': NavigationState)
    ensures st'.selectedRange.None? && st'.dragStartCell.None?
    ensures st'.focusedCell == st.focusedCell && st'.editingCell == st.editingCell && st'.isSelecting == st.isSelecting
  {
    st.(selectedRange := None, dragStartCell := None)
  }

  /** `enterEditMode`: the given cell becomes the edited one; nothing else
      in the state changes. */
  function EnterEditMode(st: NavigationState, row: int, col: int): (st': NavigationState)
    ensures st'.editingCell == Some(CellPosition(row, col))
    ensures st'.(editingCell := st.editingCell) == st
  {
    st.(editingCell := Some(CellPosition(row, col)))
  }

  /** `exitEditMode`: no cell is edited any more; nothing else changes. */
  function ExitEditMode(st: NavigationState): (st': NavigationState)
    ensures st'.editingCell.None?
    ensures st'.(editingCell := st.editingCell) == st
  {
    st.(editingCell := None)
  }

  /** The state reset run whenever `rows` or `cols` changes. */
  function ResetOnResize(st: NavigationState): NavigationState {
    st.(isSelecting := false, dragStartCell := None, selectedRange := None)
  }

  /** Resizing drops the drag and the selection, but keeps focus and edit
      mode, which may now name a cell outside the new grid. */
  lemma ResizeKeepsFocusAndEdit(st: NavigationState)
    ensures var st' := ResetOnResize(st);
      && st'.selectedRange.None? && st'.dragStartCell.None? && !st'.isSelecting
      && st'.focusedCell == st.focusedCell && st'.editingCell == st.editingCell
      && ClearSelection(st') == st'
  {
  }

  // ---------------------------------------------------------------------
  // moveCell
  // ---------------------------------------------------------------------

  /** The wrap-around adjustment: below zero goes to the last index, past the
      end goes to zero. */
  function WrapIndex(x: int, n: nat): int {
    var y := if x < 0 then n - 1 else x;
    if y >= n then 0 else y
  }

  /** One step of (dr, dc) with moveCell's boundary policy; None aborts. */
  function StepFrom(cfg: NavigationConfig, p: CellPosition, dr: int, dc: int): Option<CellPosition> {
    var r := p.row + dr;
    var c := p.col + dc;
    if cfg.wrapAround then Some(CellPosition(WrapIndex(r, cfg.rows), WrapIndex(c, cfg.cols)))
    else if InBounds(cfg, r, c) then Some(CellPosition(r, c))
    else None
  }

  lemma ProductPositive(a: nat, b: nat)
    requires a * b > 0
    ensures a > 0 && b > 0
  {
  }

  /** The null-skipping loop of moveCell: keeps stepping while the cell has no
      element, at most rows * cols times; None aborts the move. */
  function SkipNullRefs(cfg: NavigationConfig, p: CellPosition, dr: int, dc: int, attempts: nat): (res: Option<CellPosition>)
    requires InBounds(cfg, p.row, p.col) || cfg.rows * cfg.cols == 0
    ensures res.Some? ==> HasElement(cfg, res.value.row, res.value.col)
    decreases cfg.rows * cfg.cols - attempts
  {
    if IsNullRef(cfg, p.row, p.col) && attempts < cfg.rows * cfg.cols then
      ProductPositive(cfg.rows, cfg.cols);
      match StepFrom(cfg, p, dr, dc)
      case None => None
      case Some(q) => SkipNullRefs(cfg, q, dr, dc, attempts + 1)
    else if attempts >= cfg.rows * cfg.cols then None
    else Some(p)
  }

  /** Landing on a non-main cell of a merge group: downward moves jump past
      the group (aborting past the last row), other moves go to its main row. */
  function RedirectMerged(cfg: NavigationConfig, p: CellPosition, dr: int): Option<CellPosition> {
    var mi := cfg.getMergeInfo(p.row, p.col);
    if mi.isMerged && !mi.isMainCell then
      if dr > 0 then
        if mi.mainRow + mi.rowspan >= cfg.rows then None else Some(CellPosition(mi.mainRow + mi.rowspan, p.col))
      else Some(CellPosition(mi.mainRow, p.col))
    else Some(p)
  }

  /** Landing on a flagged row: vertical moves take one more step (aborting
      outside the grid), horizontal moves abort. */
  function SkipFlaggedRow(cfg: NavigationConfig, p: CellPosition, dr: int): Option<CellPosition> {
    if cfg.shouldSkipRow(p.row) then
      if dr != 0 then
        if p.row + dr < 0 || p.row + dr >= cfg.rows then None else Some(CellPosition(p.row + dr, p.col))
      else None
    else Some(p)
  }

  /** The last row of the selection a landing on `p` makes: the end of its
      merge group when `p` is merged, `p` itself otherwise. */
  function SelectionEndRow(cfg: NavigationConfig, p: CellPosition): int {
    var mi := cfg.getMergeInfo(p.row, p.col);
    if mi.isMerged then mi.mainRow + mi.rowspan - 1 else p.row
  }

  /** Focus and select the landing cell of a move. */
  function Land(cfg: NavigationConfig, st: NavigationState, p: CellPosition): NavigationState {
    FocusCell(cfg, st, p.row, p.col).(selectedRange := Some(SelectionRange(p, CellPosition(SelectionEndRow(cfg, p), p.col))))
  }

  /** Where moveCell lands, or None when it leaves the state alone. */
  function MoveTarget(cfg: NavigationConfig, row: int, col: int, dr: int, dc: int): Option<CellPosition> {
    match StepFrom(cfg, CellPosition(row, col), dr, dc)
    case None => None
    case Some(p0) =>
      if !InBounds(cfg, p0.row, p0.col) && cfg.rows * cfg.cols != 0 then None  // unreachable: see MoveTargetFirstStep
      else
        match SkipNullRefs(cfg, p0, dr, dc, 0)
        case None => None
        case Some(p1) =>
          match RedirectMerged(cfg, p1, dr)
          case None => None
          case Some(p2) => SkipFlaggedRow(cfg, p2, dr)
  }

  /** The first step of moveCell lands inside the grid whenever the grid has
      cells, so the guard in MoveTarget never fires. */
  lemma MoveTargetFirstStep(cfg: NavigationConfig, row: int, col: int, dr: int, dc: int)
    requires cfg.rows * cfg.cols != 0
    ensures var p0 := StepFrom(cfg, CellPosition(row, col), dr, dc);
      p0.Some? ==> InBounds(cfg, p0.value.row, p0.value.col)
  {
    ProductPositive(cfg.rows, cfg.cols);
  }

  /** `moveCell`: a one-cell step that skips cells without elements, leaves
      merge groups and flagged rows, then focuses and selects the landing. */
  function MoveCell(cfg: NavigationConfig, st: NavigationState, row: int, col: int, dr: int, dc: int): (st': NavigationState)
    ensures !cfg.wrapAround && !InBounds(cfg, row + dr, col + dc) ==> st' == st
    ensures st'.isSelecting == st.isSelecting && st'.dragStartCell == st.dragStartCell
    ensures st'.editingCell == st.editingCell
    ensures st'.focusedCell != st.focusedCell ==>
      st'.focusedCell.Some? && HasElement(cfg, st'.focusedCell.value.row, st'.focusedCell.value.col)
  {
    match MoveTarget(cfg, row, col, dr, dc)
    case None => st
    case Some(p) => Land(cfg, st, p)
  }

  /** Where a move ends once the null-skipping walk has found the cell `p1`:
      on a non-main cell of a merge group a downward move goes to the row
      after the group (aborting past the last row) and any other move to the
      group's main row; a flagged row then takes one more vertical step
      (aborting outside the grid) and aborts a horizontal move. A first step
      or a walk that aborts aborts the move. */
  lemma MoveTargetSteps(cfg: NavigationConfig, row: int, col: int, dr: int, dc: int)
    ensures var p0 := StepFrom(cfg, CellPosition(row, col), dr, dc);
      p0.Some? ==> InBounds(cfg, p0.value.row, p0.value.col) || cfg.rows * cfg.cols == 0
    ensures StepFrom(cfg, CellPosition(row, col), dr, dc).None? ==> MoveTarget(cfg, row, col, dr, dc).None?
    ensures var p0 := StepFrom(cfg, CellPosition(row, col), dr, dc);
      p0.Some? && SkipNullRefs(cfg, p0.value, dr, dc, 0).None? ==> MoveTarget(cfg, row, col, dr, dc).None?
    ensures var p0 := StepFrom(cfg, CellPosition(row, col), dr, dc);
      p0.Some? && SkipNullRefs(cfg, p0.value, dr, dc, 0).Some? ==>
        var p1 := SkipNullRefs(cfg, p0.value, dr, dc, 0).value;
        var mi := cfg.getMergeInfo(p1.row, p1.col);
        var p2: Option<CellPosition> :=
          if mi.isMerged && !mi.isMainCell then
            if dr > 0 then
              if mi.mainRow + mi.rowspan >= cfg.rows then None else Some(CellPosition(mi.mainRow + mi.rowspan, p1.col))
            else Some(CellPosition(mi.mainRow, p1.col))
          else Some(p1);
        MoveTarget(cfg, row, col, dr, dc) ==
          if p2.None? then None
          else if !cfg.shouldSkipRow(p2.value.row) then p2
          else if dr != 0 && 0 <= p2.value.row + dr < cfg.rows then Some(CellPosition(p2.value.row + dr, p2.value.col))
          else None
  {
    if cfg.rows * cfg.cols != 0 {
      MoveTargetFirstStep(cfg, row, col, dr, dc);
    }
  }

  /** A move that finds a target focuses it when it has an element and
      selects it, together with the rest of its merge group when it is
      merged; a move without a target changes nothing. */
  lemma MoveCellLanding(cfg: NavigationConfig, st: NavigationState, row: int, col: int, dr: int, dc: int)
    ensures MoveTarget(cfg, row, col, dr, dc).None? ==> MoveCell(cfg, st, row, col, dr, dc) == st
    ensures MoveTarget(cfg, row, col, dr, dc).Some? ==>
      var p := MoveTarget(cfg, row, col, dr, dc).value;
      var mi := cfg.getMergeInfo(p.row, p.col);
      var st' := MoveCell(cfg, st, row, col, dr, dc);
      && st'.selectedRange == Some(SelectionRange(p, CellPosition(if mi.isMerged then mi.mainRow + mi.rowspan - 1 else p.row, p.col)))
      && st'.focusedCell == (if HasElement(cfg, p.row, p.col) then Some(p) else st.focusedCell)
  {
  }

  /** Without wrap-around, when the null-skipping walk meets only cells without
      elements and then leaves the grid, moveCell changes nothing. */
  lemma {:induction false} SkipLeavingGridAborts(cfg: NavigationConfig, p0: CellPosition, dr: int, dc: int, a: nat, j: nat)
    requires !cfg.wrapAround && a <= j
    requires InBounds(cfg, Ray(p0, dr, dc, a).row, Ray(p0, dr, dc, a).col)
    requires forall i :: a <= i < j ==> IsNullRef(cfg, Ray(p0, dr, dc, i).row, Ray(p0, dr, dc, i).col)
    requires !InBounds(cfg, Ray(p0, dr, dc, j).row, Ray(p0, dr, dc, j).col)
    ensures SkipNullRefs(cfg, Ray(p0, dr, dc, a), dr, dc, a) == None
    decreases j - a
  {
    var p := Ray(p0, dr, dc, a);
    assert IsNullRef(cfg, p.row, p.col);
    if a < cfg.rows * cfg.cols {
      assert StepFrom(cfg, p, dr, dc) == (if a + 1 == j then None else Some(Ray(p0, dr, dc, a + 1)));
      if a + 1 < j {
        SkipLeavingGridAborts(cfg, p0, dr, dc, a + 1, j);
      }
    }
  }

  /** Without wrap-around, the null-skipping walk stops on the first cell of
      the ray that has an element, provided it is reached within rows * cols
      steps. */
  lemma {:induction false} SkipStopsAtFirstElement(cfg: NavigationConfig, p0: CellPosition, dr: int, dc: int, a: nat, j: nat)
    requires !cfg.wrapAround && a <= j < cfg.rows * cfg.cols
    requires forall i :: a <= i < j ==> IsNullRef(cfg, Ray(p0, dr, dc, i).row, Ray(p0, dr, dc, i).col)
    requires HasElement(cfg, Ray(p0, dr, dc, j).row, Ray(p0, dr, dc, j).col)
    requires InBounds(cfg, Ray(p0, dr, dc, a).row, Ray(p0, dr, dc, a).col)
    ensures SkipNullRefs(cfg, Ray(p0, dr, dc, a), dr, dc, a) == Some(Ray(p0, dr, dc, j))
    decreases j - a
  {
    var p := Ray(p0, dr, dc, a);
    if a < j {
      assert IsNullRef(cfg, p.row, p.col);
      var q := Ray(p0, dr, dc, a + 1);
      assert StepFrom(cfg, p, dr, dc) == Some(q) by {
        if a + 1 < j {
          assert IsNullRef(cfg, q.row, q.col);
        }
      }
      SkipStopsAtFirstElement(cfg, p0, dr, dc, a + 1, j);
    }
  }

  /** moveCell without wrap-around is a no-op when the walk over cells without
      elements runs off the grid. */
  lemma MoveCellRunsOffGrid(cfg: NavigationConfig, st: NavigationState, row: int, col: int, dr: int, dc: int, j: nat)
    requires !cfg.wrapAround && 1 <= j
    requires forall i :: 1 <= i < j ==> IsNullRef(cfg, Ray(CellPosition(row, col), dr, dc, i).row, Ray(CellPosition(row, col), dr, dc, i).col)
    requires !InBounds(cfg, Ray(CellPosition(row, col), dr, dc, j).row, Ray(CellPosition(row, col), dr, dc, j).col)
    ensures MoveCell(cfg, st, row, col, dr, dc) == st
  {
    var o := CellPosition(row, col);
    var p0 := Ray(o, dr, dc, 1);
    assert Ray(o, dr, dc, 0) == o;
    assert p0 == CellPosition(row + dr, col + dc);
    if j > 1 {
      assert IsNullRef(cfg, p0.row, p0.col);
      assert StepFrom(cfg, o, dr, dc) == Some(p0);
      forall i | 0 <= i < j - 1
        ensures IsNullRef(cfg, Ray(p0, dr, dc, i).row, Ray(p0, dr, dc, i).col)
      {
        RayShift(o, dr, dc, i);
        assert IsNullRef(cfg, Ray(o, dr, dc, i + 1).row, Ray(o, dr, dc, i + 1).col);
      }
      RayShift(o, dr, dc, j - 1);
      assert Ray(o, dr, dc, 0) == o;
      SkipLeavingGridAborts(cfg, p0, dr, dc, 0, j - 1);
    }
  }

  /** Walking k steps from the first step equals walking k + 1 from the start. */
  lemma {:induction false} RayShift(o: CellPosition, dr: int, dc: int, k: nat)
    ensures Ray(Ray(o, dr, dc, 1), dr, dc, k) == Ray(o, dr, dc, k + 1)
  {
    if k > 0 {
      RayShift(o, dr, dc, k - 1);
    }
  }

  /** moveCell never lands outside the grid when every merge group the
      caller reports starts inside the grid. */
  lemma MoveTargetInBounds(cfg: NavigationConfig, row: int, col: int, dr: int, dc: int)
    requires WellFormedMerge(cfg)
    ensures var t := MoveTarget(cfg, row, col, dr, dc);
      t.Some? ==> InBounds(cfg, t.value.row, t.value.col)
  {
    var p0 := StepFrom(cfg, CellPosition(row, col), dr, dc);
    if p0.Some? && (InBounds(cfg, p0.value.row, p0.value.col) || cfg.rows * cfg.cols == 0) {
      var p1 := SkipNullRefs(cfg, p0.value, dr, dc, 0);
      if p1.Some? {
        var p := p1.value;
        assert MergeInfoSound(cfg.getMergeInfo(p.row, p.col), p.row);
      }
    }
  }

  // ---------------------------------------------------------------------
  // moveToEnd (Ctrl + arrow)
  // ---------------------------------------------------------------------

  /** A cell whose trimmed value is non-empty. */
  predicate HasText(cfg: NavigationConfig, p: CellPosition) {
    Trim(cfg.content(p.row, p.col)) != ""
  }

  /** A cell moveToEnd walks over without stopping: a flagged row during a
      vertical move, or an empty cell with an element. */
  predicate Crossable(cfg: NavigationConfig, p: CellPosition, dr: int) {
    InBounds(cfg, p.row, p.col) &&
    (if cfg.shouldSkipRow(p.row) then dr != 0 else cfg.registered(p.row, p.col) && !HasText(cfg, p))
  }

  /** A cell moveToEnd stops on and selects: an unflagged cell with an
      element and text. */
  predicate StopsOn(cfg: NavigationConfig, p: CellPosition) {
    InBounds(cfg, p.row, p.col) && !cfg.shouldSkipRow(p.row) && cfg.registered(p.row, p.col) && HasText(cfg, p)
  }

  function EndMeasure(cfg: NavigationConfig, p: CellPosition, dr: int, dc: int): int {
    if dr > 0 then cfg.rows - p.row
    else if dr < 0 then p.row + 1
    else if dc > 0 then cfg.cols - p.col
    else p.col + 1
  }

  /** The scanning loop of moveToEnd: from `p`, with `last` the last cell the
      scan may land on so far. */
  function EndScan(cfg: NavigationConfig, p: CellPosition, dr: int, dc: int, last: CellPosition): (r: CellPosition)
    requires dr != 0 || dc != 0
    ensures r == last || InBounds(cfg, r.row, r.col)
    decreases EndMeasure(cfg, p, dr, dc)
  {
    var q := CellPosition(p.row + dr, p.col + dc);
    if !InBounds(cfg, q.row, q.col) then last
    else if cfg.shouldSkipRow(q.row) then
      if dr != 0 then EndScan(cfg, q, dr, dc, last) else last
    else if !cfg.registered(q.row, q.col) then last
    else if HasText(cfg, q) then q
    else EndScan(cfg, q, dr, dc, q)
  }

  /** `moveToEnd`: jump along a direction to the first cell with text, or to
      the last empty cell before the edge, and select just that cell. The
      direction is never (0, 0): only the arrow keys call it. */
  function MoveToEnd(cfg: NavigationConfig, st: NavigationState, row: int, col: int, dr: int, dc: int): (st': NavigationState)
    requires dr != 0 || dc != 0
    ensures st'.selectedRange.Some? && st'.selectedRange.value.start == st'.selectedRange.value.end
    ensures var e := st'.selectedRange.value.end;
      e == CellPosition(row, col) || InBounds(cfg, e.row, e.col)
    ensures st'.isSelecting == st.isSelecting && st'.dragStartCell == st.dragStartCell
    ensures st'.editingCell == st.editingCell
  {
    var o := CellPosition(row, col);
    var last := EndScan(cfg, o, dr, dc, o);
    FocusCell(cfg, st, last.row, last.col).(selectedRange := Some(SelectionRange(last, last)))
  }

  /** The scan from `o` crosses the cells 1 .. t-1 of the ray and is stopped
      by cell t. */
  predicate ScanStopsAt(cfg: NavigationConfig, o: CellPosition, dr: int, dc: int, t: nat) {
    1 <= t &&
    (forall j :: 0 < j < t ==> Crossable(cfg, Ray(o, dr, dc, j), dr)) &&
    !Crossable(cfg, Ray(o, dr, dc, t), dr)
  }

  /** Cell r of the ray is the origin or unflagged, and cells r+1 .. t-1 are
      all flagged rows. */
  predicate LastUnflaggedBefore(cfg: NavigationConfig, o: CellPosition, dr: int, dc: int, r: nat, t: nat) {
    r < t &&
    (r == 0 || !cfg.shouldSkipRow(Ray(o, dr, dc, r).row)) &&
    (forall j :: r < j < t ==> cfg.shouldSkipRow(Ray(o, dr, dc, j).row))
  }

  /** The landing of moveToEnd described without the loop: the scan crosses
      the cells 1 .. t-1 of the ray and is stopped by cell t; it lands on t
      exactly when t holds text, otherwise on the last unflagged cell before
      t (or stays put). */
  lemma MoveToEndLanding(cfg: NavigationConfig, st: NavigationState, row: int, col: int, dr: int, dc: int, t: nat, r: nat)
    requires dr != 0 || dc != 0
    requires ScanStopsAt(cfg, CellPosition(row, col), dr, dc, t)
    requires if StopsOn(cfg, Ray(CellPosition(row, col), dr, dc, t)) then r == t
             else LastUnflaggedBefore(cfg, CellPosition(row, col), dr, dc, r, t)
    ensures MoveToEnd(cfg, st, row, col, dr, dc).selectedRange ==
      Some(SelectionRange(Ray(CellPosition(row, col), dr, dc, r), Ray(CellPosition(row, col), dr, dc, r)))
  {
    var o := CellPosition(row, col);
    assert Ray(o, dr, dc, 0) == o;
    EndScanFrom(cfg, o, dr, dc, t, r, 0, 0);
  }

  /** The loop invariant of the scan: at ray cell k, with `last` at ray cell
      l, the last unflagged cell crossed so far. */
  lemma {:induction false} EndScanFrom(cfg: NavigationConfig, o: CellPosition, dr: int, dc: int, t: nat, r: nat, k: nat, l: nat)
    requires dr != 0 || dc != 0
    requires ScanStopsAt(cfg, o, dr, dc, t)
    requires if StopsOn(cfg, Ray(o, dr, dc, t)) then r == t else LastUnflaggedBefore(cfg, o, dr, dc, r, t)
    requires k < t && LastUnflaggedBefore(cfg, o, dr, dc, l, k + 1)
    ensures EndScan(cfg, Ray(o, dr, dc, k), dr, dc, Ray(o, dr, dc, l)) == Ray(o, dr, dc, r)
    decreases t - k
  {
    if k + 1 == t {
      EndScanLastStep(cfg, o, dr, dc, t, r, l);
    } else {
      var l' := if cfg.shouldSkipRow(Ray(o, dr, dc, k + 1).row) then l else k + 1;
      assert LastUnflaggedBefore(cfg, o, dr, dc, l', k + 2) by {
        LastUnflaggedExtends(cfg, o, dr, dc, l, k + 1);
      }
      assert EndScan(cfg, Ray(o, dr, dc, k), dr, dc, Ray(o, dr, dc, l)) ==
             EndScan(cfg, Ray(o, dr, dc, k + 1), dr, dc, Ray(o, dr, dc, l')) by {
        var p := Ray(o, dr, dc, k);
        var q := Ray(o, dr, dc, k + 1);
        assert q == CellPosition(p.row + dr, p.col + dc);
        assert Crossable(cfg, q, dr);
        ScanStepCrosses(cfg, p, dr, dc, Ray(o, dr, dc, l));
      }
      EndScanFrom(cfg, o, dr, dc, t, r, k + 1, l');
    }
  }

  /** The step that meets the stopping cell t. */
  lemma EndScanLastStep(cfg: NavigationConfig, o: CellPosition, dr: int, dc: int, t: nat, r: nat, l: nat)
    requires dr != 0 || dc != 0
    requires 1 <= t && !Crossable(cfg, Ray(o, dr, dc, t), dr)
    requires if StopsOn(cfg, Ray(o, dr, dc, t)) then r == t else LastUnflaggedBefore(cfg, o, dr, dc, r, t)
    requires LastUnflaggedBefore(cfg, o, dr, dc, l, t)
    ensures EndScan(cfg, Ray(o, dr, dc, t - 1), dr, dc, Ray(o, dr, dc, l)) == Ray(o, dr, dc, r)
  {
    var p := Ray(o, dr, dc, t - 1);
    var q := Ray(o, dr, dc, t);
    assert q == CellPosition(p.row + dr, p.col + dc);
    if StopsOn(cfg, q) {
      ScanStepStopsOn(cfg, p, dr, dc, Ray(o, dr, dc, l));
    } else {
      ScanStepHalts(cfg, p, dr, dc, Ray(o, dr, dc, l));
      LastUnflaggedUnique(cfg, o, dr, dc, t, r, l);
    }
  }

  lemma ScanStepStopsOn(cfg: NavigationConfig, p: CellPosition, dr: int, dc: int, last: CellPosition)
    requires dr != 0 || dc != 0
    requires StopsOn(cfg, CellPosition(p.row + dr, p.col + dc))
    ensures EndScan(cfg, p, dr, dc, last) == CellPosition(p.row + dr, p.col + dc)
  {
  }

  lemma ScanStepHalts(cfg: NavigationConfig, p: CellPosition, dr: int, dc: int, last: CellPosition)
    requires dr != 0 || dc != 0
    requires !StopsOn(cfg, CellPosition(p.row + dr, p.col + dc))
    requires !Crossable(cfg, CellPosition(p.row + dr, p.col + dc), dr)
    ensures EndScan(cfg, p, dr, dc, last) == last
  {
  }

  lemma ScanStepCrosses(cfg: NavigationConfig, p: CellPosition, dr: int, dc: int, last: CellPosition)
    requires dr != 0 || dc != 0
    requires Crossable(cfg, CellPosition(p.row + dr, p.col + dc), dr)
    ensures var q := CellPosition(p.row + dr, p.col + dc);
      EndScan(cfg, p, dr, dc, last) == if cfg.shouldSkipRow(q.row) then EndScan(cfg, q, dr, dc, last) else EndScan(cfg, q, dr, dc, q)
  {
  }

  /** Crossing one more cell: a flagged row keeps the last unflagged cell,
      any other cell becomes it. */
  lemma LastUnflaggedExtends(cfg: NavigationConfig, o: CellPosition, dr: int, dc: int, l: nat, k: nat)
    requires LastUnflaggedBefore(cfg, o, dr, dc, l, k)
    ensures LastUnflaggedBefore(cfg, o, dr, dc, if cfg.shouldSkipRow(Ray(o, dr, dc, k).row) then l else k, k + 1)
  {
  }

  /** Both indices name the last unflagged cell before t (or the origin). */
  lemma LastUnflaggedUnique(cfg: NavigationConfig, o: CellPosition, dr: int, dc: int, t: nat, r: nat, l: nat)
    requires LastUnflaggedBefore(cfg, o, dr, dc, r, t) && LastUnflaggedBefore(cfg, o, dr, dc, l, t)
    ensures r == l
  {
  }

  // ---------------------------------------------------------------------
  // extendSelection (Shift + arrow)
  // ---------------------------------------------------------------------

  /** The new selection end of extendSelection: one step without wrapping,
      then the same merge-group and flagged-row rules as moveCell. */
  function ExtendTarget(cfg: NavigationConfig, row: int, col: int, dr: int, dc: int): Option<CellPosition> {
    if !InBounds(cfg, row + dr, col + dc) then None
    else
      match RedirectMerged(cfg, CellPosition(row + dr, col + dc), dr)
      case None => None
      case Some(p) => SkipFlaggedRow(cfg, p, dr)
  }

  /** `extendSelection`: move the selection's end, keeping its anchor; the
      first extension anchors the selection at the current cell. */
  function ExtendSelection(cfg: NavigationConfig, st: NavigationState, row: int, col: int, dr: int, dc: int): (st': NavigationState)
    ensures ExtendTarget(cfg, row, col, dr, dc).None? ==> st' == st
    ensures ExtendTarget(cfg, row, col, dr, dc).Some? ==>
      st'.selectedRange == Some(SelectionRange(
        if st.selectedRange.Some? then st.selectedRange.value.start else CellPosition(row, col),
        ExtendTarget(cfg, row, col, dr, dc).value))
    ensures st'.isSelecting == st.isSelecting && st'.dragStartCell == st.dragStartCell
    ensures st'.editingCell == st.editingCell
  {
    match ExtendTarget(cfg, row, col, dr, dc)
    case None => st
    case Some(p) =>
      var start := if st.selectedRange.Some? then st.selectedRange.value.start else CellPosition(row, col);
      FocusCell(cfg, st, p.row, p.col).(selectedRange := Some(SelectionRange(start, p)))
  }

  /** Two Shift-steps keep the anchor of the first. */
  lemma ExtendKeepsAnchor(cfg: NavigationConfig, st: NavigationState, r1: int, c1: int, d1r: int, d1c: int, r2: int, c2: int, d2r: int, d2c: int)
    requires st.selectedRange.None?
    requires ExtendTarget(cfg, r1, c1, d1r, d1c).Some?
    ensures var st2 := ExtendSelection(cfg, ExtendSelection(cfg, st, r1, c1, d1r, d1c), r2, c2, d2r, d2c);
      st2.selectedRange.Some? && st2.selectedRange.value.start == CellPosition(r1, c1)
  {
  }

  /** extendSelection lands inside the grid. */
  lemma ExtendTargetInBounds(cfg: NavigationConfig, row: int, col: int, dr: int, dc: int)
    requires WellFormedMerge(cfg)
    ensures var t := ExtendTarget(cfg, row, col, dr, dc);
      t.Some? ==> InBounds(cfg, t.value.row, t.value.col)
  {
    if InBounds(cfg, row + dr, col + dc) {
      assert MergeInfoSound(cfg.getMergeInfo(row + dr, col + dc), row + dr);
    }
  }

  // ---------------------------------------------------------------------
  // Mouse
  // ---------------------------------------------------------------------

  /** `handleMouseDown`: start a drag; a click on a merged cell selects the
      whole group. A click on the cell being edited is ignored. */
  function MouseDown(cfg: NavigationConfig, st: NavigationState, row: int, col: int): (st': NavigationState)
    ensures st.editingCell == Some(CellPosition(row, col)) ==> st' == st
    ensures st.editingCell != Some(CellPosition(row, col)) ==>
      && st'.isSelecting && st'.dragStartCell.Some?
      && st'.selectedRange.Some? && st'.selectedRange.value.start == st'.dragStartCell.value
      && st'.dragStartCell.value.col == col && st'.selectedRange.value.end.col == col
  {
    if st.editingCell == Some(CellPosition(row, col)) then st
    else
      var mi := cfg.getMergeInfo(row, col);
      var startRow := if mi.isMerged then mi.mainRow else row;
      var endRow := if mi.isMerged then mi.mainRow + mi.rowspan - 1 else row;
      var st1 := st.(isSelecting := true, dragStartCell := Some(CellPosition(startRow, col)),
                     selectedRange := Some(SelectionRange(CellPosition(startRow, col), CellPosition(endRow, col))));
      FocusCell(cfg, st1, startRow, col)
  }

  /** `handleMouseEnter`: while dragging, the selection runs from the drag
      start to the entered cell. */
  function MouseEnter(cfg: NavigationConfig, st: NavigationState, row: int, col: int): (st': NavigationState)
    ensures !st.isSelecting || st.dragStartCell.None? ==> st' == st
    ensures st.isSelecting && st.dragStartCell.Some? ==>
      st'.selectedRange == Some(SelectionRange(st.dragStartCell.value, CellPosition(row, col)))
    ensures st'.isSelecting == st.isSelecting && st'.dragStartCell == st.dragStartCell
    ensures st'.editingCell == st.editingCell
  {
    if !st.isSelecting || st.dragStartCell.None? then st
    else FocusCell(cfg, st.(selectedRange := Some(SelectionRange(st.dragStartCell.value, CellPosition(row, col)))), row, col)
  }

  /** `handleMouseUp` and the document-level mouseup listener: the drag ends. */
  function MouseUp(st: NavigationState): (st': NavigationState)
    ensures !st'.isSelecting
    ensures st'.(isSelecting := st.isSelecting) == st
  {
    if st.isSelecting then st.(isSelecting := false) else st
  }

  /** A click on a merged cell selects its whole group, rows mainRow through
      mainRow + rowspan - 1, and the drag anchors at the group's main row. */
  lemma MouseDownSelectsGroup(cfg: NavigationConfig, st: NavigationState, row: int, col: int)
    requires st.editingCell != Some(CellPosition(row, col))
    requires cfg.getMergeInfo(row, col).isMerged
    ensures var mi := cfg.getMergeInfo(row, col);
      var st' := MouseDown(cfg, st, row, col);
      st'.selectedRange == Some(SelectionRange(CellPosition(mi.mainRow, col), CellPosition(mi.mainRow + mi.rowspan - 1, col)))
      && st'.dragStartCell == Some(CellPosition(mi.mainRow, col))
  {
  }

  /** After the mouse is released, entering cells no longer changes anything;
      releasing twice is the same as once. */
  lemma EnterAfterUpIsInert(cfg: NavigationConfig, st: NavigationState, row: int, col: int)
    ensures MouseEnter(cfg, MouseUp(st), row, col) == MouseUp(st)
    ensures MouseUp(MouseUp(st)) == MouseUp(st)
  {
  }

  /** A drag keeps its anchor over any number of entered cells: the selection
      always starts at the mouse-down cell and ends at the last entered one. */
  lemma {:induction false} DragAnchored(cfg: NavigationConfig, st: NavigationState, path: seq<CellPosition>)
    requires st.isSelecting && st.dragStartCell.Some?
    requires |path| > 0
    ensures DragThrough(cfg, st, path).selectedRange == Some(SelectionRange(st.dragStartCell.value, path[|path| - 1]))
    ensures DragThrough(cfg, st, path).dragStartCell == st.dragStartCell
  {
    if |path| > 1 {
      DragAnchored(cfg, st, path[..|path| - 1]);
    }
  }

  function DragThrough(cfg: NavigationConfig, st: NavigationState, path: seq<CellPosition>): (st': NavigationState)
    ensures st'.isSelecting == st.isSelecting && st'.dragStartCell == st.dragStartCell
  {
    if |path| == 0 then st
    else MouseEnter(cfg, DragThrough(cfg, st, path[..|path| - 1]), path[|path| - 1].row, path[|path| - 1].col)
  }

  // ---------------------------------------------------------------------
  // The selection rectangle
  // ---------------------------------------------------------------------

  function Min(a: int, b: int): int { if a <= b then a else b }
  function Max(a: int, b: int): int { if a <= b then b else a }

  /** The cell lies in the rectangle the two corners span, in any order. */
  predicate InRange(range: SelectionRange, row: int, col: int) {
    Min(range.start.row, range.end.row) <= row <= Max(range.start.row, range.end.row) &&
    Min(range.start.col, range.end.col) <= col <= Max(range.start.col, range.end.col)
  }

  /** Cells (r, c0) .. (r, c1), left to right. */
  function RowCells(r: int, c0: int, c1: int): (cells: seq<CellPosition>)
    ensures |cells| == if c0 <= c1 then c1 - c0 + 1 else 0
    ensures forall i :: 0 <= i < |cells| ==> cells[i] == CellPosition(r, c0 + i)
    decreases c1 - c0
  {
    if c0 > c1 then [] else [CellPosition(r, c0)] + RowCells(r, c0 + 1, c1)
  }

  /** Cells of rows r0 .. r1 and columns c0 .. c1 in row-major order. */
  function RectCells(r0: int, r1: int, c0: int, c1: int): (cells: seq<CellPosition>)
    ensures |cells| == if r0 <= r1 && c0 <= c1 then (r1 - r0 + 1) * (c1 - c0 + 1) else 0
    decreases r1 - r0
  {
    if r0 > r1 then [] else RowCells(r0, c0, c1) + RectCells(r0 + 1, r1, c0, c1)
  }

  /** Every cell of the rectangle is listed, nothing else is. */
  lemma {:induction false} RectCellsMembers(r0: int, r1: int, c0: int, c1: int, p: CellPosition)
    ensures p in RectCells(r0, r1, c0, c1) <==> r0 <= p.row <= r1 && c0 <= p.col <= c1
    decreases r1 - r0
  {
    if r0 <= r1 {
      var row := RowCells(r0, c0, c1);
      assert p in row <==> p.row == r0 && c0 <= p.col <= c1 by {
        if p.row == r0 && c0 <= p.col <= c1 {
          assert row[p.col - c0] == p;
        }
      }
      RectCellsMembers(r0 + 1, r1, c0, c1, p);
    }
  }

  /** No cell is listed twice. */
  lemma {:induction false} RectCellsDistinct(r0: int, r1: int, c0: int, c1: int)
    ensures forall i, j :: 0 <= i < j < |RectCells(r0, r1, c0, c1)| ==> RectCells(r0, r1, c0, c1)[i] != RectCells(r0, r1, c0, c1)[j]
    decreases r1 - r0
  {
    if r0 <= r1 {
      var row := RowCells(r0, c0, c1);
      var rest := RectCells(r0 + 1, r1, c0, c1);
      RectCellsDistinct(r0 + 1, r1, c0, c1);
      forall k | 0 <= k < |rest| ensures rest[k].row > r0 {
        RectCellsMembers(r0 + 1, r1, c0, c1, rest[k]);
      }
      var all := row + rest;
      forall i, j | 0 <= i < j < |all| ensures all[i] != all[j] {
        if j < |row| {
        } else if i < |row| {
          assert all[j] == rest[j - |row|];
        } else {
          assert all[i] == rest[i - |row|] && all[j] == rest[j - |row|];
        }
      }
    }
  }

  /** The cells the Delete key hands to `onClearCells`: the whole selection
      rectangle row by row, or just the current cell. */
  function CellsToClear(st: NavigationState, row: int, col: int): seq<CellPosition> {
    match st.selectedRange
    case None => [CellPosition(row, col)]
    case Some(range) =>
      RectCells(Min(range.start.row, range.end.row), Max(range.start.row, range.end.row),
                Min(range.start.col, range.end.col), Max(range.start.col, range.end.col))
  }

  // ---------------------------------------------------------------------
  // Keyboard
  // ---------------------------------------------------------------------

  datatype Key = Enter | Tab | F2 | Delete | Escape | ArrowLeft | ArrowRight | ArrowUp | ArrowDown | OtherKey

  datatype KeyEvent = KeyEvent(key: Key, ctrl: bool, shift: bool)

  /** The new state, and the cells handed to `onClearCells` if it was called. */
  datatype KeyOutcome = KeyOutcome(state: NavigationState, cleared: Option<seq<CellPosition>>)

  predicate IsArrow(k: Key) {
    k == ArrowLeft || k == ArrowRight || k == ArrowUp || k == ArrowDown
  }

  function ArrowRowDelta(k: Key): int {
    match k
    case ArrowUp => -1
    case ArrowDown => 1
    case _ => 0
  }

  function ArrowColDelta(k: Key): int {
    match k
    case ArrowLeft => -1
    case ArrowRight => 1
    case _ => 0
  }

  /** The cell (row, col) is the one in edit mode. */
  predicate IsEditing(st: NavigationState, row: int, col: int) {
    st.editingCell == Some(CellPosition(row, col))
  }

  /** Leave edit mode and focus the cell again (Enter, Tab or Escape while editing). */
  function FinishEditing(cfg: NavigationConfig, st: NavigationState, row: int, col: int): NavigationState {
    FocusCell(cfg, ExitEditMode(st), row, col)
  }

  /** `handleKeyDown` for a key pressed in cell (row, col). */
  function HandleKeyDown(cfg: NavigationConfig, st: NavigationState, ev: KeyEvent, row: int, col: int): (out: KeyOutcome)
    ensures out.cleared.Some? ==> ev.key == Delete && !IsEditing(st, row, col) && cfg.hasClearCells
    ensures IsEditing(st, row, col) && (IsArrow(ev.key) || ev.key in {F2, Delete, OtherKey}) ==> out == KeyOutcome(st, None)
  {
    var editing := IsEditing(st, row, col);
    match ev.key
    case Enter =>
      KeyOutcome(if editing then FinishEditing(cfg, st, row, col) else MoveCell(cfg, st, row, col, 1, 0), None)
    case Tab =>
      KeyOutcome(if editing then FinishEditing(cfg, st, row, col) else MoveCell(cfg, st, row, col, 0, 1), None)
    case F2 =>
      KeyOutcome(if editing then st else EnterEditMode(st, row, col), None)
    case Delete =>
      KeyOutcome(st, if !editing && cfg.hasClearCells then Some(CellsToClear(st, row, col)) else None)
    case Escape =>
      KeyOutcome(if editing then FinishEditing(cfg, st, row, col) else st, None)
    case OtherKey =>
      KeyOutcome(st, None)
    case _ =>
      var dr := ArrowRowDelta(ev.key);
      var dc := ArrowColDelta(ev.key);
      if editing then KeyOutcome(st, None)
      else if ev.ctrl then KeyOutcome(MoveToEnd(cfg, st, row, col, dr, dc), None)
      else if ev.shift then KeyOutcome(ExtendSelection(cfg, st, row, col, dr, dc), None)
      else KeyOutcome(MoveCell(cfg, st, row, col, dr, dc), None)
  }

  /** Outside edit mode, Enter moves down and Tab moves right; an arrow jumps
      to the end with Ctrl, otherwise extends the selection with Shift,
      otherwise moves one cell; Escape and other keys do nothing. None of
      these clears cells. */
  lemma KeyDownDispatch(cfg: NavigationConfig, st: NavigationState, ev: KeyEvent, row: int, col: int)
    requires !IsEditing(st, row, col)
    ensures ev.key == Enter ==> HandleKeyDown(cfg, st, ev, row, col) == KeyOutcome(MoveCell(cfg, st, row, col, 1, 0), None)
    ensures ev.key == Tab ==> HandleKeyDown(cfg, st, ev, row, col) == KeyOutcome(MoveCell(cfg, st, row, col, 0, 1), None)
    ensures ev.key == Escape || ev.key == OtherKey ==> HandleKeyDown(cfg, st, ev, row, col) == KeyOutcome(st, None)
    ensures ev.key == ArrowUp ==> ArrowRowDelta(ev.key) == -1 && ArrowColDelta(ev.key) == 0
    ensures ev.key == ArrowDown ==> ArrowRowDelta(ev.key) == 1 && ArrowColDelta(ev.key) == 0
    ensures ev.key == ArrowLeft ==> ArrowRowDelta(ev.key) == 0 && ArrowColDelta(ev.key) == -1
    ensures ev.key == ArrowRight ==> ArrowRowDelta(ev.key) == 0 && ArrowColDelta(ev.key) == 1
    ensures IsArrow(ev.key) ==>
      var dr, dc := ArrowRowDelta(ev.key), ArrowColDelta(ev.key);
      && (dr != 0 || dc != 0)
      && HandleKeyDown(cfg, st, ev, row, col) == KeyOutcome(
           if ev.ctrl then MoveToEnd(cfg, st, row, col, dr, dc)
           else if ev.shift then ExtendSelection(cfg, st, row, col, dr, dc)
           else MoveCell(cfg, st, row, col, dr, dc), None)
  {
  }

  /** Delete outside edit mode clears exactly the highlighted rectangle (or the
      current cell when nothing is selected), each cell once, and changes no
      navigation state. */
  lemma DeleteClearsSelection(cfg: NavigationConfig, st: NavigationState, ev: KeyEvent, row: int, col: int)
    requires ev.key == Delete && !IsEditing(st, row, col) && cfg.hasClearCells
    ensures var out := HandleKeyDown(cfg, st, ev, row, col);
      && out.state == st && out.cleared.Some?
      && (forall p :: p in out.cleared.value <==>
            (if st.selectedRange.Some? then InRange(st.selectedRange.value, p.row, p.col) else p == CellPosition(row, col)))
      && (forall i, j :: 0 <= i < j < |out.cleared.value| ==> out.cleared.value[i] != out.cleared.value[j])
  {
    var out := HandleKeyDown(cfg, st, ev, row, col);
    if st.selectedRange.Some? {
      var range := st.selectedRange.value;
      var r0, r1 := Min(range.start.row, range.end.row), Max(range.start.row, range.end.row);
      var c0, c1 := Min(range.start.col, range.end.col), Max(range.start.col, range.end.col);
      forall p ensures p in out.cleared.value <==> InRange(range, p.row, p.col) {
        RectCellsMembers(r0, r1, c0, c1, p);
      }
      RectCellsDistinct(r0, r1, c0, c1);
    }
  }

  /** Enter, Tab and Escape in the edited cell leave edit mode. */
  lemma FinishKeysLeaveEditMode(cfg: NavigationConfig, st: NavigationState, ev: KeyEvent, row: int, col: int)
    requires IsEditing(st, row, col) && ev.key in {Enter, Tab, Escape}
    ensures HandleKeyDown(cfg, st, ev, row, col).state.editingCell.None?
    ensures HandleKeyDown(cfg, st, ev, row, col).state.selectedRange == st.selectedRange
  {
  }

  /** F2 outside edit mode enters it for this cell, and F2 again is ignored. */
  lemma F2EntersEditMode(cfg: NavigationConfig, st: NavigationState, ev: KeyEvent, row: int, col: int)
    requires ev.key == F2
    ensures var st' := HandleKeyDown(cfg, st, ev, row, col).state;
      IsEditing(st', row, col) && HandleKeyDown(cfg, st', ev, row, col).state == st'
  {
  }

  // ---------------------------------------------------------------------
  // getCellStyle
  // ---------------------------------------------------------------------

  datatype CellStyle = Unstyled | SelectedStyle | FocusedStyle

  /** `getCellStyle`: focus outranks selection; an inactive table is unstyled. */
  function GetCellStyle(cfg: NavigationConfig, st: NavigationState, row: int, col: int): (s: CellStyle)
    ensures s == FocusedStyle <==> cfg.isActive && st.focusedCell == Some(CellPosition(row, col))
    ensures s == SelectedStyle <==>
      (cfg.isActive && st.focusedCell != Some(CellPosition(row, col)) &&
       st.selectedRange.Some? && InRange(st.selectedRange.value, row, col))
  {
    if !cfg.isActive then Unstyled
    else if st.focusedCell == Some(CellPosition(row, col)) then FocusedStyle
    else if st.selectedRange.Some? && InRange(st.selectedRange.value, row, col) then SelectedStyle
    else Unstyled
  }

  /** With an active selection, the Delete key clears exactly the cells drawn
      as selected plus the focused cell when it lies in the rectangle. */
  lemma StyleMatchesDelete(cfg: NavigationConfig, st: NavigationState, ev: KeyEvent, row: int, col: int, p: CellPosition)
    requires cfg.isActive && st.selectedRange.Some?
    requires ev.key == Delete && !IsEditing(st, row, col) && cfg.hasClearCells
    requires st.focusedCell != Some(p)
    ensures p in HandleKeyDown(cfg, st, ev, row, col).cleared.value <==> GetCellStyle(cfg, st, p.row, p.col) == SelectedStyle
  {
    DeleteClearsSelection(cfg, st, ev, row, col);
  }

  // ---------------------------------------------------------------------
  // The state invariant
  // ---------------------------------------------------------------------

  /** Focus is on a cell with an element, and every anchor the state keeps
      (selection start, drag start, edited cell) lies inside the grid. */
  predicate Valid(cfg: NavigationConfig, st: NavigationState) {
    && (st.focusedCell.Some? ==> HasElement(cfg, st.focusedCell.value.row, st.focusedCell.value.col))
    && (st.selectedRange.Some? ==> InBounds(cfg, st.selectedRange.value.start.row, st.selectedRange.value.start.col))
    && (st.dragStartCell.Some? ==> InBounds(cfg, st.dragStartCell.value.row, st.dragStartCell.value.col))
    && (st.editingCell.Some? ==> InBounds(cfg, st.editingCell.value.row, st.editingCell.value.col))
  }

  /** What a rendered cell can deliver to the hook. */
  datatype Event =
    | KeyDown(ev: KeyEvent, row: int, col: int)
    | MouseDownAt(row: int, col: int)
    | MouseEnterAt(row: int, col: int)
    | MouseRelease
    | ClearSelectionCall

  function Dispatch(cfg: NavigationConfig, st: NavigationState, e: Event): NavigationState {
    match e
    case KeyDown(ev, row, col) => HandleKeyDown(cfg, st, ev, row, col).state
    case MouseDownAt(row, col) => MouseDown(cfg, st, row, col)
    case MouseEnterAt(row, col) => MouseEnter(cfg, st, row, col)
    case MouseRelease => MouseUp(st)
    case ClearSelectionCall => ClearSelection(st)
  }

  predicate EventInGrid(cfg: NavigationConfig, e: Event) {
    match e
    case KeyDown(_, row, col) => InBounds(cfg, row, col)
    case MouseDownAt(row, col) => InBounds(cfg, row, col)
    case MouseEnterAt(row, col) => InBounds(cfg, row, col)
    case _ => true
  }

  lemma MoveCellValid(cfg: NavigationConfig, st: NavigationState, row: int, col: int, dr: int, dc: int)
    requires WellFormedMerge(cfg) && Valid(cfg, st)
    ensures Valid(cfg, MoveCell(cfg, st, row, col, dr, dc))
  {
    MoveTargetInBounds(cfg, row, col, dr, dc);
  }

  lemma ExtendSelectionValid(cfg: NavigationConfig, st: NavigationState, row: int, col: int, dr: int, dc: int)
    requires WellFormedMerge(cfg) && Valid(cfg, st) && InBounds(cfg, row, col)
    ensures Valid(cfg, ExtendSelection(cfg, st, row, col, dr, dc))
  {
  }

  lemma MoveToEndValid(cfg: NavigationConfig, st: NavigationState, row: int, col: int, dr: int, dc: int)
    requires Valid(cfg, st) && InBounds(cfg, row, col) && (dr != 0 || dc != 0)
    ensures Valid(cfg, MoveToEnd(cfg, st, row, col, dr, dc))
  {
  }

  lemma KeyDownValid(cfg: NavigationConfig, st: NavigationState, ev: KeyEvent, row: int, col: int)
    requires WellFormedMerge(cfg) && Valid(cfg, st) && InBounds(cfg, row, col)
    ensures Valid(cfg, HandleKeyDown(cfg, st, ev, row, col).state)
  {
    var editing := IsEditing(st, row, col);
    if IsArrow(ev.key) && !editing {
      var dr, dc := ArrowRowDelta(ev.key), ArrowColDelta(ev.key);
      if ev.ctrl {
        MoveToEndValid(cfg, st, row, col, dr, dc);
      } else if ev.shift {
        ExtendSelectionValid(cfg, st, row, col, dr, dc);
      } else {
        MoveCellValid(cfg, st, row, col, dr, dc);
      }
    } else if ev.key == Enter && !editing {
      MoveCellValid(cfg, st, row, col, 1, 0);
    } else if ev.key == Tab && !editing {
      MoveCellValid(cfg, st, row, col, 0, 1);
    }
  }

  lemma MouseDownValid(cfg: NavigationConfig, st: NavigationState, row: int, col: int)
    requires WellFormedMerge(cfg) && Valid(cfg, st) && InBounds(cfg, row, col)
    ensures Valid(cfg, MouseDown(cfg, st, row, col))
  {
    assert MergeInfoSound(cfg.getMergeInfo(row, col), row);
  }

  /** Every event from a cell of the grid keeps the state valid. */
  lemma DispatchPreservesValid(cfg: NavigationConfig, st: NavigationState, e: Event)
    requires WellFormedMerge(cfg) && Valid(cfg, st) && EventInGrid(cfg, e)
    ensures Valid(cfg, Dispatch(cfg, st, e))
  {
    match e
    case KeyDown(ev, row, col) => KeyDownValid(cfg, st, ev, row, col);
    case MouseDownAt(row, col) => MouseDownValid(cfg, st, row, col);
    case _ =>
  }

  /** Validity holds along any sequence of grid events from the initial state. */
  lemma {:induction false} EventsPreserveValid(cfg: NavigationConfig, es: seq<Event>)
    requires WellFormedMerge(cfg)
    requires forall i :: 0 <= i < |es| ==> EventInGrid(cfg, es[i])
    ensures Valid(cfg, Replay(cfg, InitialState, es))
  {
    if |es| > 0 {
      EventsPreserveValid(cfg, es[..|es| - 1]);
      DispatchPreservesValid(cfg, Replay(cfg, InitialState, es[..|es| - 1]), es[|es| - 1]);
    }
  }

  function Replay(cfg: NavigationConfig, st: NavigationState, es: seq<Event>): NavigationState {
    if |es| == 0 then st else Dispatch(cfg, Replay(cfg, st, es[..|es| - 1]), es[|es| - 1])
  }
}
