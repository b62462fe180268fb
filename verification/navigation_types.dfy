/** Coordinates, ranges, configuration and state of the grid navigation hook. */
module NavigationTypes {
  import opened Wrappers

  datatype CellPosition = CellPosition(row: int, col: int)

  /** A rectangular range; `start` and `end` are unordered corners. */
  datatype SelectionRange = SelectionRange(start: CellPosition, end: CellPosition)

  datatype MergeInfo = MergeInfo(isMerged: bool, isMainCell: bool, mainRow: int, rowspan: int)

  /** The hook's configuration. The DOM cell registry becomes `registered`
      (is an element stored at row, col) and `content` (that element's value);
      an absent `getMergeInfo` behaves as one that never reports a merge and an
      absent `shouldSkipRow` as one that skips nothing. */
  datatype NavigationConfig = NavigationConfig(
    rows: nat,
    cols: nat,
    wrapAround: bool,
    isActive: bool,
    hasClearCells: bool,
    registered: (int, int) -> bool,
    content: (int, int) -> string,
    getMergeInfo: (int, int) -> MergeInfo,
    shouldSkipRow: int -> bool)

  datatype NavigationState = NavigationState(
    focusedCell: Option<CellPosition>,
    selectedRange: Option<SelectionRange>,
    isSelecting: bool,
    dragStartCell: Option<CellPosition>,
    editingCell: Option<CellPosition>)

  /** The state a grid starts in. */
  const InitialState := NavigationState(None, None, false, None, None)

  /** The report for a cell outside every merge group; a table without
      `getMergeInfo` behaves as if every cell reported this. */
  function NoMerge(row: int): MergeInfo {
    MergeInfo(false, false, row, 1)
  }
}
