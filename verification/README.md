# vmanager core in Dafny

vmanager is the front end of an academy's administration tool. It keeps one
shared document (`AppData`). The document holds:

- three class rosters (elementary, middle, high school);
- weekly teacher timetables;
- payment lists (pages of three tables: elementary, middle, high);
- tables of new and leaving students.

This project models the logic behind those screens as pure Dafny functions
over immutable datatypes. A React handler becomes a function from the old
state (and the event's arguments) to the new state. Modules follow the
source files:

- **Shared types.** `Interfaces`, `AppDataTypes` and `NavigationTypes` hold the
  records of `util/interfaces.ts`, `types/appData.ts` and `types/navigation.ts`.
  `Wrappers`, `Text` and `Seqs` hold the generic helpers: `Option`, whitespace
  trimming, decimal digits, filtering, stable sorting and duplicate-freedom.
- **`TableNavigation`.** The spreadsheet-style keyboard and mouse navigation
  hook (`useTableNavigation`). It covers focus, arrows with wrap-around, and
  skipping of cells without elements, merged cells and skipped rows. It also
  covers Ctrl+arrow jumps, Shift+arrow selection, mouse drag selection, Delete
  clearing, edit mode and cell styling.
- **`MergeUtils`, `TimeTable`, `TimeSlots`.** The timetable grid: merged-cell
  lookup, the merge-overlap test, the grid handed to the navigation hook, the
  clear and selection callbacks, and the time labels beside the rows.
- **Page modules.**
  - `SchedulePage` handles teachers and timetable cells.
  - `ClassPages` and `ClassTable` handle the three roster pages and one class
    table. As written, a class table keeps its rows to itself (see "Left
    out").
  - `PaymentPage` handles payment pages, their rows and the import of students
    from the rosters.
  - `InOutPage` handles the new-and-leaving-student tables.
- **Shared components.** `PageTab`, `NewPageModal` and `CalendarModal` are
  small components with their own state.
- **`AppDataContext`.** The default document, the migration applied to a
  loaded document, and `updateData`.

JavaScript details are written out where they matter:

- the truncating `%`;
- the falsiness behind `x || default`;
- `Array.find` returning the first match;
- `Object.values` visiting integer keys in ascending order;
- the stability of `Array.prototype.sort`.

## Model

| member | source | states |
|---|---|---|
| TableNavigation.FocusCell | src/hooks/useTableNavigation.ts:58-64 | focus moves to the cell only when that cell has a rendered element; selection, edit and drag state are untouched |
| TableNavigation.ClearSelection | src/hooks/useTableNavigation.ts:67-70 | the selection and the drag anchor are dropped; focus, edit mode and the pressed-button flag stay |
| TableNavigation.EnterEditMode | src/hooks/useTableNavigation.ts:73-87 | the given cell becomes the edited one and nothing else changes |
| TableNavigation.ExitEditMode | src/hooks/useTableNavigation.ts:89-91 | no cell is edited afterwards and nothing else changes |
| TableNavigation.ResizeKeepsFocusAndEdit | src/hooks/useTableNavigation.ts:43-47 | the resize reset drops the selection and the drag but keeps the focused and the edited cell |
| TableNavigation.MoveCell | src/hooks/useTableNavigation.ts:94-182 | without wrap-around a step that leaves the grid changes nothing; a move only ever focuses a cell with an element; the edit and drag state are kept |
| TableNavigation.MoveTargetFirstStep | src/hooks/useTableNavigation.ts:99-108 | on a non-empty grid the first step of a move, with wrap-around applied, lands inside the grid |
| TableNavigation.SkipStopsAtFirstElement | src/hooks/useTableNavigation.ts:110-130 | the null-element skip lands on the first cell along the direction that has an element |
| TableNavigation.SkipLeavingGridAborts | src/hooks/useTableNavigation.ts:110-130 | a run of element-less cells that reaches the edge of the grid aborts the move |
| TableNavigation.MoveTargetSteps | src/hooks/useTableNavigation.ts:132-164 | after the null-skipping walk, a non-main merged cell sends a downward move to the row after its group (aborting past the last row) and any other move to the group's main row; a flagged row then takes one more vertical step (aborting outside the grid) or aborts a horizontal move |
| TableNavigation.MoveCellLanding | src/hooks/useTableNavigation.ts:166-181 | a move without a target changes nothing; one with a target selects it down to the last row of its merge group and focuses it when it has an element |
| TableNavigation.MoveCellRunsOffGrid | src/hooks/useTableNavigation.ts:110-130 | when every cell up to the edge lacks an element, the move leaves the state as it was |
| TableNavigation.MoveTargetInBounds | src/hooks/useTableNavigation.ts:132-164 | after the merge redirect and the skipped-row step, the target of a move is still inside the grid |
| TableNavigation.MoveToEnd | src/hooks/useTableNavigation.ts:185-233 | Ctrl+arrow selects exactly one cell, which is the start cell or a cell in the grid; edit and drag state are kept |
| TableNavigation.MoveToEndLanding | src/hooks/useTableNavigation.ts:185-233 | Ctrl+arrow lands on the first cell holding text, or failing that on the last non-skipped cell before the scan stops |
| TableNavigation.ScanStepCrosses | src/hooks/useTableNavigation.ts:191-223 | an empty cell is crossed, and it becomes the new fallback only when its row is not skipped |
| TableNavigation.ExtendSelection | src/hooks/useTableNavigation.ts:236-296 | Shift+arrow keeps the existing anchor (or anchors at the current cell) and moves only the range's end to the target |
| TableNavigation.ExtendKeepsAnchor | src/hooks/useTableNavigation.ts:236-296 | two Shift+arrow steps from no selection keep the first start cell as the anchor |
| TableNavigation.ExtendTargetInBounds | src/hooks/useTableNavigation.ts:236-296 | the end of an extended selection stays inside the grid |
| TableNavigation.MouseDown | src/hooks/useTableNavigation.ts:299-324 | a press on the edited cell does nothing; otherwise dragging starts and the anchor and range start lie in the pressed column |
| TableNavigation.MouseDownSelectsGroup | src/hooks/useTableNavigation.ts:305-322 | a press on any cell of a merged group selects the whole group, from its main row to its last row |
| TableNavigation.MouseEnter | src/hooks/useTableNavigation.ts:327-341 | while dragging, the range runs from the drag start to the entered cell; otherwise nothing changes |
| TableNavigation.MouseUp | src/hooks/useTableNavigation.ts:344-348 | releasing ends the drag and changes nothing else |
| TableNavigation.EnterAfterUpIsInert | src/hooks/useTableNavigation.ts:28-40 | after a release, entering cells does nothing, and a second release changes nothing |
| TableNavigation.DragAnchored | src/hooks/useTableNavigation.ts:327-341 | dragging through a path selects from the fixed drag start to the last cell of the path |
| TableNavigation.RectCellsMembers | src/hooks/useTableNavigation.ts:400-412 | the cells Delete clears from a range are exactly those inside the range's bounding rectangle |
| TableNavigation.RectCellsDistinct | src/hooks/useTableNavigation.ts:400-412 | no cell is listed twice |
| TableNavigation.HandleKeyDown | src/hooks/useTableNavigation.ts:351-452 | cells are reported cleared only for Delete outside edit mode with a clear callback; in edit mode, arrows, F2, Delete and other keys change nothing |
| TableNavigation.KeyDownDispatch | src/hooks/useTableNavigation.ts:356-451 | outside edit mode Enter moves down, Tab moves right, an arrow jumps to the end with Ctrl, else extends the selection with Shift, else moves one cell in its direction; Escape and other keys do nothing; none of these clears cells |
| TableNavigation.DeleteClearsSelection | src/hooks/useTableNavigation.ts:393-420 | Delete reports each cell of the selection once, or the current cell alone when nothing is selected, and keeps the state |
| TableNavigation.FinishKeysLeaveEditMode | src/hooks/useTableNavigation.ts:356-381 | Enter, Tab and Escape in edit mode leave edit mode and keep the selection |
| TableNavigation.F2EntersEditMode | src/hooks/useTableNavigation.ts:384-390 | F2 puts the current cell in edit mode, and a second F2 is ignored |
| TableNavigation.GetCellStyle | src/hooks/useTableNavigation.ts:455-484 | the focus style is used exactly for the focused cell of an active table; the selection style exactly for the other cells in the range |
| TableNavigation.StyleMatchesDelete | src/hooks/useTableNavigation.ts:393-484 | in an active table, an unfocused cell is cleared by Delete exactly when it is drawn as selected |
| TableNavigation.EventsPreserveValid | src/hooks/useTableNavigation.ts:94-348 | any sequence of in-grid events from the initial state keeps focus on cells with elements and every anchor (the selection's start, the drag start and the edited cell) inside the grid |
| TableNavigation.DispatchPreservesValid | src/hooks/useTableNavigation.ts:94-348 | a single key or mouse event preserves that invariant |
| MergeUtils.FindMergeCells | src/util/mergeUtils.ts:12-25 | the result holds exactly the cells of that teacher and day whose slot is in the range, with their multiplicities |
| MergeUtils.FindMergeCellsAppend | src/util/mergeUtils.ts:19-24 | filtering distributes over concatenation, so the original order is kept |
| MergeUtils.GetMergedText | src/util/mergeUtils.ts:33-39 | the merged text is empty exactly when every cell is blank, and otherwise is the content of one of the non-blank cells |
| MergeUtils.GetMergedTextEarliestTop | src/util/mergeUtils.ts:33-39 | the text chosen is that of the non-blank cell with the earliest slot |
| MergeUtils.HasOverlappingMerge | src/util/mergeUtils.ts:50-87 | an overlap exists exactly when a merged cell lies in the range or a merge from an earlier slot reaches into it |
| MergeUtils.NoOverlapMeansFreeRange | src/util/mergeUtils.ts:50-87 | with no overlap, no merge of that lane meets the range and no merged child lies in it |
| MergeUtils.OverlapMonotone | src/util/mergeUtils.ts:50-87 | an overlap found for a range is also found for every range containing it |
| MergeUtils.OverlapIgnoresOtherLanes | src/util/mergeUtils.ts:58-84 | cells of other teachers or days never affect the answer |
| TimeTable.FindCell | src/components/TimeTable.tsx:129-133 | the lookup returns the first cell with that teacher, day and slot, and nothing exactly when there is no such cell |
| TimeTable.GetMergeInfo | src/components/TimeTable.tsx:120-155 | the name row and columns outside the teachers are never merged |
| TimeTable.MainCellInfo | src/components/TimeTable.tsx:129-137 | a merged primary cell is the main cell of its group, with the stored row span |
| TimeTable.ChildCellInfo | src/components/TimeTable.tsx:138-152 | a merged child belongs to the nearest primary above it whose span covers it, with that primary's span |
| TimeTable.UnmergedInfo | src/components/TimeTable.tsx:120-155 | a missing cell, a plain cell, or a child with no covering primary is reported unmerged |
| TimeTable.Grid | src/components/TimeTable.tsx:64-65 | the grid has one row per time slot plus the name row, one column per teacher, and skips only the name row |
| TimeTable.GridMergeWellFormed | src/components/TimeTable.tsx:120-156 | for every cell of the grid, the merge information the timetable hands to navigation names a main row at or above the cell, a span of at least one, and the cell itself as main row of a main cell |
| TimeTable.GridNavigationValid | src/components/TimeTable.tsx:64-156 | navigating the timetable with any in-grid events keeps the navigation invariant |
| TimeTable.ClearCells | src/components/TimeTable.tsx:68-97 | the names blanked are those of the name-row cells in the selection, and the batch is exactly the selection's time-row cells, sent only when there is at least one (their meaning is given by `NameClearsMembers` and `SlotClearsMembers`) |
| TimeTable.NameClearsMembers | src/components/TimeTable.tsx:68-97 | a teacher's name is cleared exactly when a cleared cell lies in that teacher's column of the name row |
| TimeTable.SlotClearsMembers | src/components/TimeTable.tsx:68-97 | a schedule slot is cleared exactly when a cleared cell in the time rows maps to that teacher, day and slot |
| TimeTable.SelectionToSchedule | src/components/TimeTable.tsx:98-119 | a selection is reported exactly when its start column is a teacher, with rows put in order and columns kept |
| TimeSlots.DefaultTimesSpans | src/components/TeacherTable.tsx:40-62 | default label i covers the half hour starting 30·i minutes after 1:00 |
| TimeSlots.DefaultTimes | src/components/TimeTable.tsx:160-180 | one label per time row; label i runs from 30·i to 30·(i+1) minutes after 1:00 |
| TimeSlots.DefaultFromSpans | src/components/TeacherTable.tsx:45-58 | from any start on the hour or half hour, each default label spans the next thirty minutes |
| TimeSlots.CalculateTimes | src/components/TeacherTable.tsx:64-103 | labels are computed only when start hour, start minute and interval are all given, one per time row |
| TimeSlots.CalculatedSlots | src/components/TeacherTable.tsx:64-103 | computed label i spans the interval starting interval·i minutes after the start, consecutive labels meet, and minutes stay below 60 |
| TimeSlots.ClockSlotsChain | src/components/TeacherTable.tsx:78-89 | each computed slot ends where the next begins |
| TimeSlots.ClockSlotsMinutes | src/components/TeacherTable.tsx:78-89 | minute overflow rolls into the hour, so minutes stay in 0..59 |
| TimeSlots.Hour24RoundTrip | src/components/TeacherTable.tsx:69-72 | converting a 12-hour hour with AM/PM to 24-hour form and back gives the hour again, and PM is exactly the afternoon |
| TimeSlots.Format12HourRange | src/components/TeacherTable.tsx:92-96 | the 12-hour display of a 24-hour hour lies in 1..12 exactly up to hour 24 |
| TimeSlots.RowLabel | src/components/TeacherTable.tsx:130 | a row shows its computed label when the settings are complete, and its default label otherwise |
| SchedulePage.InitialValid | src/pages/SchedulePage.tsx:14-22 | the initial page has one teacher with an id below the counter and no cells |
| SchedulePage.AddTeacher | src/pages/SchedulePage.tsx:25-28 | a nameless teacher with the next id is appended, and the counter advances |
| SchedulePage.AddTeacherValid | src/pages/SchedulePage.tsx:25-28 | adding keeps teacher ids fresh and cell keys unique |
| SchedulePage.DeleteTeacher | src/pages/SchedulePage.tsx:30-35 | after confirmation the teacher and all of their cells are gone and nothing else is, with the remaining columns and cells in their old order; without it nothing changes |
| SchedulePage.DeleteTeacherValid | src/pages/SchedulePage.tsx:30-35 | after deletion the teacher's name and every cell content read back empty |
| SchedulePage.UpdateTeacherName | src/pages/SchedulePage.tsx:37-39 | only the teachers with that id are renamed |
| SchedulePage.RenameThenGet | src/pages/SchedulePage.tsx:37-39 | a renamed teacher's name reads back as the new name |
| SchedulePage.GetTeacherName | src/pages/SchedulePage.tsx:67-70 | the name of the first teacher with that id |
| SchedulePage.GetCellContent | src/pages/SchedulePage.tsx:62-65 | the content of the first stored cell with that teacher, day and slot, and "" when no cell has that key |
| SchedulePage.FindIndex | src/pages/SchedulePage.tsx:44 | the index found is the first cell with that key |
| SchedulePage.UpdateScheduleCell | src/pages/SchedulePage.tsx:42-54 | only the cell list changes |
| SchedulePage.UpdateThenGet | src/pages/SchedulePage.tsx:42-65 | the content written for a key reads back through getCellContent |
| SchedulePage.UpdateFrame | src/pages/SchedulePage.tsx:42-65 | writing one key leaves the content of every other key unchanged |
| SchedulePage.UpdateKeepsCells | src/pages/SchedulePage.tsx:42-54 | an update keeps every existing cell's key and merge fields and the key is present afterwards; it adds at most one cell, and adds one exactly when the key was absent, as a plain cell with no merge fields |
| SchedulePage.AddTimeRow | src/pages/SchedulePage.tsx:57-59 | one more time row and nothing else changes |
| SchedulePage.TimeApply | src/pages/SchedulePage.tsx:72-79 | the start and interval are replaced, the row count is kept, and nothing else changes |
| ClassPages.AddClass | src/pages/ElementaryPage.tsx:55-65 | a level-1 class with the next id and an empty student list is added, and the counter advances |
| ClassPages.DeleteClass | src/pages/ElementaryPage.tsx:13-24 | after confirmation the class and its students are removed and nothing else is; the remaining classes keep their order and the counter is kept |
| ClassPages.LevelChange | src/pages/ElementaryPage.tsx:26-33 | only the class with that id takes the new level |
| ClassPages.ClassInfoChange | src/pages/ElementaryPage.tsx:67-74 | only the class with that id takes the new name and teacher |
| ClassPages.StudentsChange | src/pages/ElementaryPage.tsx:76-84 | the students of that class are replaced and every other class's students are kept |
| ClassPages.SortOrders | src/pages/ElementaryPage.tsx:35-53 | sorting orders classes by level and is a permutation of them |
| ClassPages.SortStable | src/pages/ElementaryPage.tsx:35-53 | classes of equal level keep their order |
| ClassPages.SortMovesStudents | src/pages/ElementaryPage.tsx:40-45 | after renumbering, each position carries the students of the class that moved there |
| ClassPages.MaxLevel | src/pages/MiddlePage.tsx:11 | elementary has six levels, middle and high school three |
| ClassPages.ToggleLevel | src/pages/ElementaryPage.tsx:87-91 | toggling flips the membership of that level alone |
| ClassPages.ToggleKeepsNoDup | src/pages/ElementaryPage.tsx:87-91 | toggling never duplicates a level |
| ClassPages.ToggleTwice | src/pages/ElementaryPage.tsx:87-91 | toggling a level twice restores the membership of every level |
| ClassPages.ToggleAll | src/pages/ElementaryPage.tsx:94-100 | with all levels selected the toggle clears them, and otherwise it selects exactly all levels |
| ClassPages.FilteredClasses | src/pages/ElementaryPage.tsx:103-105 | exactly the classes whose level is selected are shown |
| ClassPages.FilteredClassesOrder | src/pages/ElementaryPage.tsx:103-105 | the filter keeps the page order |
| ClassPages.AllLevelsShowAll | src/pages/HighPage.tsx:11 | with the initial selection of all levels, every class whose level is in range is shown, in order |
| ClassTable.LevelClick | src/components/ClassTable.tsx:33-38 | from a non-negative level a click reports a level in 1..max |
| ClassTable.LevelClickRange | src/components/ClassTable.tsx:33-38 | a click from a non-negative level gives a level in 1..max |
| ClassTable.LevelClickCycles | src/components/ClassTable.tsx:33-38 | a click raises a level by one below the top, and the top level goes back to 1 |
| ClassTable.FullCycle | src/components/ClassTable.tsx:33-38 | clicking as many times as there are levels returns to the starting level |
| ClassTable.LevelClickNegative | src/components/ClassTable.tsx:35-36 | a negative stored level never clicks back into range, because the remainder is truncating |
| ClassTable.JsRem | src/components/ClassTable.tsx:36 | the truncating remainder takes the sign of the dividend and pairs with truncating division |
| ClassTable.AddStudent | src/components/ClassTable.tsx:22-25 | a blank row with the next id and the row count as idx is appended, keeping ids distinct |
| ClassTable.DeleteStudent | src/components/ClassTable.tsx:27-31 | after confirmation exactly the rows with that id go; the others keep their order and their idx |
| ClassTable.AddedIdxIsPosition | src/components/ClassTable.tsx:19-25 | rows added to a fresh table carry their position as id and idx |
| ClassTable.IdxNotRenumbered | src/components/ClassTable.tsx:22-31 | deleting row k of a table built by additions removes exactly that row and keeps the others, so every later row's stored idx is one more than its new position |
| PaymentPage.CurrentPage | src/pages/PaymentPage.tsx:136-142 | the current page is the first page with the current id, or the first page when none matches, and none only without pages |
| PaymentPage.CurrentIndex | src/pages/PaymentPage.tsx:136-142 | in a valid section the current page is the one page with the current id |
| PaymentPage.UpdateCurrentPageEffect | src/pages/PaymentPage.tsx:145-150 | updating the current page replaces that page alone |
| PaymentPage.UpdateWithoutCurrentIsLost | src/pages/PaymentPage.tsx:136-150 | when no page has the current id, the first page is shown but an update changes nothing |
| PaymentPage.CreateEmptyPage | src/pages/PaymentPage.tsx:153-161 | a new page with that id and name and three empty tables |
| PaymentPage.CreateCopyPage | src/pages/PaymentPage.tsx:164-184 | a new page with that id and name whose tables equal the source's |
| PaymentPage.CreatePage | src/pages/PaymentPage.tsx:187-198 | the page is appended under the next id and becomes current; copying with no page does nothing |
| PaymentPage.CreatePageSelectsNew | src/pages/PaymentPage.tsx:187-198 | after creation the current page is the new page, empty or a copy of the old current page |
| PaymentPage.DeletePage | src/pages/PaymentPage.tsx:200-214 | the last page and unconfirmed deletions are refused; otherwise the page goes and the first remaining page becomes current if it was current |
| PaymentPage.DeletePageValid | src/pages/PaymentPage.tsx:200-214 | deletion keeps the section valid and another current page unchanged |
| PaymentPage.RenamePageEffect | src/pages/PaymentPage.tsx:216-221 | only the page with that id takes the new name |
| PaymentPage.RenamePage | src/pages/PaymentPage.tsx:216-221 | every page keeps its id and tables and only the pages with that id take the new name; the current and next ids stay |
| PaymentPage.SwitchPage | src/pages/PaymentPage.tsx:223-228 | switching to an existing page makes it current and keeps the pages |
| PaymentPage.EditTableEffect | src/pages/PaymentPage.tsx:231-299 | a table edit changes that table of the current page alone |
| PaymentPage.AddRowTo | src/pages/PaymentPage.tsx:231-258 | a blank row with the next id is appended and ids stay fresh |
| PaymentPage.DeleteRowFrom | src/pages/PaymentPage.tsx:260-273 | exactly the rows with that id go; the others keep their order |
| PaymentPage.UpdateRowIn | src/pages/PaymentPage.tsx:275-286 | only that field of the rows with that id changes |
| PaymentPage.UpdateTableTitle | src/pages/PaymentPage.tsx:288-299 | retitling gives the chosen table of the current page the new title, keeps its rows and counter and the other tables, and keeps the section valid |
| PaymentPage.UpdateStudentsEffect | src/pages/PaymentPage.tsx:302-384 | the import appends the roster's students after the existing rows and advances the counter by their number |
| PaymentPage.UpdateStudents | src/pages/PaymentPage.tsx:302-384 | only the page carrying the current id changes; with no page nothing changes; the page count and both ids stay |
| PaymentPage.CollectRowsContents | src/pages/PaymentPage.tsx:309-359 | imported rows are the students with ids numbered from the counter, each id once, ordered by name |
| PaymentPage.RosterStudents | src/pages/PaymentPage.tsx:309-322 | the roster holds exactly the students of all classes |
| PaymentPage.StaleClearKeepsName | src/pages/PaymentPage.tsx:77-89 | clearing two cells of one row as written empties only the last one |
| PaymentPage.ClearCellsClearsAll | src/pages/PaymentPage.tsx:77-89 | clearing cells one after another empties every cell in the grid |
| InOutPage.AddTable | src/pages/InOutPage.tsx:153-167 | an empty new-student table with the next id is appended |
| InOutPage.DeleteTable | src/pages/InOutPage.tsx:170-177 | after confirmation exactly the tables with that id go; the others keep their order |
| InOutPage.DeleteOnlyTable | src/pages/InOutPage.tsx:170-177 | the last table may be deleted |
| InOutPage.ApplyHeader | src/pages/InOutPage.tsx:180-197 | a month edit replaces only the month and a type edit only the type; the id and rows stay |
| InOutPage.UpdateHeader | src/pages/InOutPage.tsx:180-197 | only the tables with that id take the new month or type, the others stay where they were, and the section stays valid |
| InOutPage.AddRowTo | src/pages/InOutPage.tsx:200-219 | a blank row with the next id is appended |
| InOutPage.DeleteRowFrom | src/pages/InOutPage.tsx:222-236 | exactly the rows with that id go; the others keep their order |
| InOutPage.UpdateRowIn | src/pages/InOutPage.tsx:239-253 | only that field of the rows with that id changes |
| InOutPage.MapTableEffect | src/pages/InOutPage.tsx:180-253 | a table edit replaces only the table with that id |
| InOutPage.StaleClearKeepsName | src/pages/InOutPage.tsx:84-96 | clearing two cells of one row as written empties only the last one |
| InOutPage.ClearCellsClearsAll | src/pages/InOutPage.tsx:84-96 | clearing cells one after another empties every cell in the grid |
| AppDataContext.DefaultDataValid | src/contexts/AppDataContext.tsx:14-45 | the default document satisfies every page's invariant, and its payment page is the page a fresh section would create |
| AppDataContext.DefaultScheduleMatchesInitial | src/contexts/AppDataContext.tsx:14-45 | the default schedule page is a schedule page's initial state, with an empty date for every weekday |
| AppDataContext.OrString | src/contexts/AppDataContext.tsx:63-86 | a missing or empty string takes the default |
| AppDataContext.OrNat | src/contexts/AppDataContext.tsx:88-119 | a missing or zero number takes the default |
| AppDataContext.Migrate | src/contexts/AppDataContext.tsx:63-125 | each section of a loaded document is migrated by its own rule: the rosters, the schedule, the payment and the intake/withdrawal sections |
| AppDataContext.MigrateClass | src/contexts/AppDataContext.tsx:63-86 | missing class names and teachers become empty |
| AppDataContext.MigrateSchedule | src/contexts/AppDataContext.tsx:88-102 | an empty page list gets the default page and the counters default to 0 and 1 |
| AppDataContext.MigratePayment | src/contexts/AppDataContext.tsx:103-119 | an empty page list gets the default page and the counters default to 0 and 1 |
| AppDataContext.MigrateInOut | src/contexts/AppDataContext.tsx:120-125 | missing tables become none and the counter defaults to 0 |
| AppDataContext.Load | src/contexts/AppDataContext.tsx:55-133 | a failed load keeps the current document; a successful one replaces it with the migrated document |
| AppDataContext.RosterRoundTrip | src/contexts/AppDataContext.tsx:63-86 | a saved roster migrates back unchanged |
| AppDataContext.MigrateRoundTrip | src/contexts/AppDataContext.tsx:63-125 | saving and migrating gives the same document exactly when both page lists are non-empty and both page counters are non-zero |
| AppDataContext.MigrateIdempotent | src/contexts/AppDataContext.tsx:63-125 | migrating a migrated document again changes nothing |
| AppDataContext.MigratedEmptyPaymentShowsDefault | src/contexts/AppDataContext.tsx:103-119 | after migrating an empty payment list, the default page is shown |
| AppDataContext.ZeroCounterBecomesOne | src/contexts/AppDataContext.tsx:103-119 | a stored page counter of 0 is read back as 1 |
| AppDataContext.UpdateData | src/contexts/AppDataContext.tsx:140-145 | the named section takes the new value and every other section is kept |
| AppDataContext.UpdateLastWins | src/contexts/AppDataContext.tsx:140-145 | two writes to one section leave only the second |
| AppDataContext.UpdateCommutes | src/contexts/AppDataContext.tsx:140-145 | writes to different sections commute |
| AppDataContext.UpdateWithCurrentIsIdentity | src/contexts/AppDataContext.tsx:140-145 | writing a section's current value back changes nothing |
| PageTab.Initial | src/components/PageTab.tsx:13-15 | a tab starts outside edit mode, not hovered, with the page name in the editor |
| PageTab.HandleSave | src/components/PageTab.tsx:17-24 | a non-blank name is reported trimmed; a blank one restores the page name; editing ends either way |
| PageTab.HandleDoubleClick | src/components/PageTab.tsx:26-29 | a double click starts editing from the page's name |
| PageTab.Handle | src/components/PageTab.tsx:17-62 | a rename is reported only from edit mode, trimmed and non-blank; delete exactly on a click of the shown button; select exactly on a click outside edit mode |
| PageTab.ClicksSuppressedWhileEditing | src/components/PageTab.tsx:41-42 | clicks and double clicks do nothing while editing |
| PageTab.RenamedNameIsTrimmed | src/components/PageTab.tsx:17-24 | a reported name is non-blank and trimming it again changes nothing |
| PageTab.EnterIsBlur | src/components/PageTab.tsx:47-53 | Enter and leaving the field save the same way |
| PageTab.SaveEndsEditing | src/components/PageTab.tsx:17-53 | typing and then leaving the field always ends editing |
| PageTab.DoubleClickThenBlur | src/components/PageTab.tsx:17-29 | opening and leaving the editor untouched reports the page name trimmed, or nothing when it is blank |
| NewPageModal.Initial | src/components/NewPageModal.tsx:11-12 | given the counter the dialog declares, the proposed name is "시간표" followed by the digits of the next page's number, and the type is an empty page |
| NewPageModal.RenderedProposalIsNaN | src/pages/PaymentPage.tsx:442 | as the payment page opens the dialog, without a counter, the proposal reads "시간표NaN", which is none of the names the dialog is meant to propose |
| NewPageModal.InitialNamesDistinct | src/components/NewPageModal.tsx:11 | different page counters propose different names |
| NewPageModal.InitialAccepted | src/components/NewPageModal.tsx:11-20 | confirming the proposed name right away creates an empty page under it |
| NewPageModal.HandleCreate | src/components/NewPageModal.tsx:14-20 | a blank name raises the alert; any other name is passed on untrimmed with the chosen type |
| NewPageModal.Handle | src/components/NewPageModal.tsx:14-71 | a page is created only under a non-blank name; the dialog closes exactly on cancel or a backdrop click |
| NewPageModal.EnterIsConfirm | src/components/NewPageModal.tsx:36 | Enter does what the confirm button does |
| NewPageModal.TypeThenConfirm | src/components/NewPageModal.tsx:14-36 | typing a name and confirming creates a page exactly when the name is not blank, and alerts otherwise |
| CalendarModal.PrevMonth | src/components/CalendarModal.tsx:27-34 | the previous month is a valid month one month earlier |
| CalendarModal.NextMonth | src/components/CalendarModal.tsx:36-43 | the next month is a valid month one month later |
| CalendarModal.NextPrevInverse | src/components/CalendarModal.tsx:27-43 | next and previous undo each other |
| CalendarModal.CalendarDays | src/components/CalendarModal.tsx:19-25 | the grid holds one blank per weekday before the first, then the days 1 to the month's length in order |
| CalendarModal.DateClick | src/components/CalendarModal.tsx:45-49 | a click reports the date and then closes the dialog |
| CalendarModal.DateTextRoundTrip | src/components/CalendarModal.tsx:45-49 | the reported text splits at its one '/' into digits reading back as the month counted from 1 and the day |

## Left out

- Network I/O is not modelled: loading and saving through `services/api.ts`, the asynchronous effects, `isSaving` and `lastSaved`. A load is modelled as its optional result (`AppDataContext.Load`).
- DOM work is not modelled: focusing elements, `setTimeout`, caret placement (`setSelectionRange`) and the document-level `mouseup` listener. The listener is modelled as the `MouseRelease` event.
- `confirm` and `alert` dialogs appear as a boolean argument (the user's answer) or as an `Alert` effect.
- Styles are abstracted to which style a cell gets (focused, selected, plain). CSS values and rendering-only files (`Header`, `Layout`, `Overlay`, `TeacherCol`, `StudentRowInClassTable`, `SetTimeModal` markup, `App`) are left out.
- PaymentPage.UpdateStudentsEffect: name order is stated against an abstract `rank` function, not Korean `localeCompare`.
- CalendarModal.CalendarDays: the weekday of the first and the month's length are inputs, because JavaScript `Date` arithmetic is not modelled.
- CalendarModal.DateClick: requires a month in 0..11. The month always comes from `getMonth()` or from navigation, which keeps it there.
- TableNavigation.MoveToEnd: requires a non-zero direction. With a zero delta the source's scan would never end, and every caller passes an arrow direction.
- Text formatting is not modelled: zero padding (`padStart`), `parseInt`, and the regular expressions of the time dialog. Time labels are the four numbers they print.
- TableNavigation.EventsPreserveValid: the invariant does not bound the selection's end row. A move or a press onto a merged cell selects down to `mainRow + rowspan - 1` (src/hooks/useTableNavigation.ts:166-181), and the hook never checks that this row is inside the grid. A stored `rowspan` that runs past the last time row would put the end outside it.
- Class tables do not pass their rows to the page. `ClassTable` takes only `tableId`, `level`, `currentLevel`, `onDeleteClassTable` and `onLevelChange`, and keeps its student rows in local state (src/components/ClassTable.tsx:6-20). It ignores the `className`, `teacher`, `onClassInfoChange`, `students`, `nextStudentId` and `onStudentsChange` props that the roster pages pass (src/pages/ElementaryPage.tsx:148-155). So, as written, `ClassPages.ClassInfoChange` and `ClassPages.StudentsChange` are never called, and students typed into a class table never reach `studentsData`, which is the roster the payment import reads (`PaymentPage.UpdateStudents`). The model keeps the page handlers and the import as the pages define them; the missing wiring is not modelled.
- The page-side handlers for a batch clear and for deleting a time row are not modelled, because they do not exist. TimeTable declares `onClearMultipleCells` and `onDeleteTimeRow` as props (src/components/TimeTable.tsx:26-28) and calls them (lines 95 and 245). SchedulePage never passes either prop (src/pages/SchedulePage.tsx:103-117). The request the timetable would send is modelled (`TimeTable.ClearCells`); what the page would do with it is not.
- Merging and unmerging schedule cells are not modelled. The merge flags are only read (`TimeTable.GetMergeInfo`); no code in the repository sets them.
- A stored document with no intake/withdrawal section at all is not modelled as a raw document. The migration reads `serverData.inout.tables` (src/contexts/AppDataContext.tsx:121-124), which throws when the section is missing; the catch then keeps the default data. The model's raw document always has the section, and only its fields may be missing (`AppDataContext.MigrateInOut`). A failed load in general is modelled (`AppDataContext.Load`).
- Writing empty content into a schedule cell stores the empty string; it does not remove the cell (src/pages/SchedulePage.tsx:42-54). The model does the same (`SchedulePage.UpdateScheduleCell`).

## Findings

| source | as written | input that shows it | evidently intended | confidence | as-written member | corrected member |
|---|---|---|---|---|---|---|
| src/pages/PaymentPage.tsx:77-89 | each cleared cell calls `onUpdateRow`, which rebuilds the whole section from the same stale page data and replaces it, so only the last cell's clear survives | Delete over a selection of the name and school cells of one row whose name is "a" | every selected cell is emptied | not executed | PaymentPage.StaleClearKeepsName | PaymentPage.ClearCellsClearsAll |
| src/pages/InOutPage.tsx:84-96 | the same pattern: each clear rebuilds the section from the stale table list, so earlier clears are lost | Delete over the name and school cells of one row whose name is "a" | every selected cell is emptied | not executed | InOutPage.StaleClearKeepsName | InOutPage.ClearCellsClearsAll |
| src/pages/PaymentPage.tsx:442 | the dialog is rendered without the `nextPageId` prop it declares (src/components/NewPageModal.tsx:5,11), so the proposed name is `시간표${undefined + 1}`, that is "시간표NaN", on every opening | opening the new-page dialog from any payment page | propose "시간표" followed by the next page's number | not executed | NewPageModal.RenderedProposalIsNaN | NewPageModal.InitialNamesDistinct |
