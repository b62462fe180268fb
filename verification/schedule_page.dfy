/** The timetable page's own state: the teacher columns with their id
    counter, the sparse schedule cells, and the time settings. */
module SchedulePage {
  import opened Wrappers
  import opened Seqs
  import opened Interfaces
  import TimeTable

  datatype ScheduleState = ScheduleState(
    teachers: seq<Teacher>,
    nextTeacherId: nat,
    schedules: seq<ScheduleCell>,
    timeSettings: TimeSettings)

  /** The page's initial state: one unnamed teacher with id 0, no cells,
      empty time settings and 8 time rows. */
  const Initial := ScheduleState([Teacher(0, "")], 1, [], TimeSettings(None, None, None, 8))

  /** Teacher ids are distinct and all below the counter. */
  predicate TeacherIdsFresh(st: ScheduleState) {
    (forall i :: 0 <= i < |st.teachers| ==> st.teachers[i].id < st.nextTeacherId) &&
    (forall i, j :: 0 <= i < j < |st.teachers| ==> st.teachers[i].id != st.teachers[j].id)
  }

  /** At most one stored cell per (teacher, day, slot). */
  predicate UniqueKeys(schedules: seq<ScheduleCell>) {
    forall i, j :: 0 <= i < j < |schedules| ==> KeyOf(schedules[i]) != KeyOf(schedules[j])
  }

  predicate Valid(st: ScheduleState) {
    TeacherIdsFresh(st) && UniqueKeys(st.schedules)
  }

  lemma InitialValid()
    ensures Valid(Initial)
  {
  }

  // ---------------------------------------------------------------------
  // Teachers
  // ---------------------------------------------------------------------

  /** `handleAddTeacher`: a new unnamed column with the next id. */
  function AddTeacher(st: ScheduleState): (st': ScheduleState)
    ensures st'.teachers == st.teachers + [Teacher(st.nextTeacherId, "")]
    ensures st'.nextTeacherId == st.nextTeacherId + 1
    ensures st'.schedules == st.schedules && st'.timeSettings == st.timeSettings
  {
    st.(teachers := st.teachers + [Teacher(st.nextTeacherId, "")], nextTeacherId := st.nextTeacherId + 1)
  }

  /** Adding teachers keeps ids unique: the counter stays above every id. */
  lemma AddTeacherValid(st: ScheduleState)
    requires Valid(st)
    ensures Valid(AddTeacher(st))
  {
  }

  /** `handleDeleteTeacher`: after confirmation, the column and every cell of
      that teacher go; everything else stays, in order. */
  function DeleteTeacher(st: ScheduleState, id: nat, confirmed: bool): (st': ScheduleState)
    ensures !confirmed ==> st' == st
    ensures confirmed ==> forall t :: t in st'.teachers <==> t in st.teachers && t.id != id
    ensures confirmed ==> forall c :: c in st'.schedules <==> c in st.schedules && c.teacherId != id
    ensures confirmed ==> st'.teachers == Filter(st.teachers, (t: Teacher) => t.id != id)
    ensures confirmed ==> st'.schedules == Filter(st.schedules, (c: ScheduleCell) => c.teacherId != id)
    ensures st'.nextTeacherId == st.nextTeacherId && st'.timeSettings == st.timeSettings
  {
    if !confirmed then st
    else
      var keepTeacher := (t: Teacher) => t.id != id;
      var keepCell := (c: ScheduleCell) => c.teacherId != id;
      forall t ensures t in Filter(st.teachers, keepTeacher) <==> t in st.teachers && t.id != id {
        FilterMembers(st.teachers, keepTeacher, t);
      }
      forall c ensures c in Filter(st.schedules, keepCell) <==> c in st.schedules && c.teacherId != id {
        FilterMembers(st.schedules, keepCell, c);
      }
      st.(teachers := Filter(st.teachers, keepTeacher), schedules := Filter(st.schedules, keepCell))
  }

  /** Position i holds the first teacher with this id. */
  predicate FirstWithId(teachers: seq<Teacher>, id: nat, i: int) {
    0 <= i < |teachers| && teachers[i].id == id && forall j :: 0 <= j < i ==> teachers[j].id != id
  }

  /** Teacher names are looked up by id (`getTeacherName`); "" when absent. */
  function GetTeacherName(st: ScheduleState, id: nat): (name: string)
    ensures (forall i :: 0 <= i < |st.teachers| ==> st.teachers[i].id != id) ==> name == ""
    ensures forall i :: FirstWithId(st.teachers, id, i) ==> name == st.teachers[i].name
  {
    FindName(st.teachers, id)
  }

  function FindName(teachers: seq<Teacher>, id: nat): (name: string)
    ensures (forall i :: 0 <= i < |teachers| ==> teachers[i].id != id) ==> name == ""
    ensures forall i :: FirstWithId(teachers, id, i) ==> name == teachers[i].name
  {
    if |teachers| == 0 then ""
    else if teachers[0].id == id then teachers[0].name
    else
      var name := FindName(teachers[1..], id);
      assert forall i :: 1 <= i < |teachers| ==> teachers[1..][i - 1] == teachers[i];
      assert forall i :: FirstWithId(teachers, id, i) ==> FirstWithId(teachers[1..], id, i - 1);
      name
  }

  /** Index i holds the first cell with this key. */
  predicate FirstWithKey(schedules: seq<ScheduleCell>, key: CellKey, i: int) {
    0 <= i < |schedules| && KeyOf(schedules[i]) == key && forall j :: 0 <= j < i ==> KeyOf(schedules[j]) != key
  }

  /** `getCellContent`: the content of the first stored cell with this key,
      "" when there is none. */
  function GetCellContent(st: ScheduleState, teacherId: nat, day: DayOfWeek, slot: int): (content: string)
    ensures (forall i :: 0 <= i < |st.schedules| ==> KeyOf(st.schedules[i]) != CellKey(teacherId, day, slot)) ==> content == ""
    ensures forall i :: FirstWithKey(st.schedules, CellKey(teacherId, day, slot), i) ==> content == st.schedules[i].content
  {
    forall i | FirstWithKey(st.schedules, CellKey(teacherId, day, slot), i)
      ensures TimeTable.FindCell(st.schedules, teacherId, day, slot) == Some(st.schedules[i])
    {
      FirstMatchIsCell(st.schedules, CellKey(teacherId, day, slot), i);
    }
    match TimeTable.FindCell(st.schedules, teacherId, day, slot)
    case Some(c) => c.content
    case None => ""
  }

  /** Deleting a teacher keeps the state valid, and afterwards the deleted
      teacher has no name and no cells. */
  lemma DeleteTeacherValid(st: ScheduleState, id: nat, day: DayOfWeek, slot: int)
    requires Valid(st)
    ensures Valid(DeleteTeacher(st, id, true))
    ensures GetTeacherName(DeleteTeacher(st, id, true), id) == ""
    ensures GetCellContent(DeleteTeacher(st, id, true), id, day, slot) == ""
  {
    var st' := DeleteTeacher(st, id, true);
    FilterKeepsDistinct(st.teachers, (t: Teacher) => t.id != id, (t: Teacher) => t.id);
    FilterKeepsDistinct(st.schedules, (c: ScheduleCell) => c.teacherId != id, KeyOf);
    forall i | 0 <= i < |st'.teachers| ensures st'.teachers[i].id < st'.nextTeacherId {
      assert st'.teachers[i] in st.teachers;
    }
    forall i | 0 <= i < |st'.teachers| ensures st'.teachers[i].id != id {
      assert st'.teachers[i] in st'.teachers;
    }
    forall i | 0 <= i < |st'.schedules| ensures KeyOf(st'.schedules[i]) != CellKey(id, day, slot) {
      assert st'.schedules[i] in st'.schedules;
    }
  }

  /** `handleUpdateTeacherName`: only the teacher with this id is renamed. */
  function UpdateTeacherName(st: ScheduleState, id: nat, name: string): (st': ScheduleState)
    ensures |st'.teachers| == |st.teachers|
    ensures forall i :: 0 <= i < |st.teachers| ==>
      st'.teachers[i] == if st.teachers[i].id == id then Teacher(id, name) else st.teachers[i]
    ensures st'.nextTeacherId == st.nextTeacherId && st'.schedules == st.schedules && st'.timeSettings == st.timeSettings
  {
    st.(teachers := Rename(st.teachers, id, name))
  }

  function Rename(teachers: seq<Teacher>, id: nat, name: string): (r: seq<Teacher>)
    ensures |r| == |teachers|
    ensures forall i :: 0 <= i < |teachers| ==> r[i] == if teachers[i].id == id then Teacher(id, name) else teachers[i]
  {
    if |teachers| == 0 then []
    else [if teachers[0].id == id then teachers[0].(name := name) else teachers[0]] + Rename(teachers[1..], id, name)
  }

  /** After a rename the teacher's name reads back, when the teacher exists
      and ids are unique; validity is kept. */
  lemma RenameThenGet(st: ScheduleState, i: nat, name: string)
    requires Valid(st) && i < |st.teachers|
    ensures Valid(UpdateTeacherName(st, st.teachers[i].id, name))
    ensures GetTeacherName(UpdateTeacherName(st, st.teachers[i].id, name), st.teachers[i].id) == name
  {
    var id := st.teachers[i].id;
    var st' := UpdateTeacherName(st, id, name);
    assert st'.teachers[i] == Teacher(id, name);
    assert forall j :: 0 <= j < |st'.teachers| ==> st'.teachers[j].id == st.teachers[j].id;
  }

  // ---------------------------------------------------------------------
  // Schedule cells
  // ---------------------------------------------------------------------

  /** `findIndex`: the position of the first cell with this key. */
  function FindIndex(schedules: seq<ScheduleCell>, key: CellKey): (r: Option<nat>)
    ensures r.Some? ==>
      (r.value < |schedules| && KeyOf(schedules[r.value]) == key &&
       forall j :: 0 <= j < r.value ==> KeyOf(schedules[j]) != key)
    ensures r.None? ==> forall j :: 0 <= j < |schedules| ==> KeyOf(schedules[j]) != key
  {
    if |schedules| == 0 then None
    else if KeyOf(schedules[0]) == key then Some(0)
    else
      match FindIndex(schedules[1..], key)
      case None => None
      case Some(k) => Some(k + 1)
  }

  /** `handleUpdateScheduleCell`: an upsert. An existing cell gets only its
      content replaced (merge fields stay); otherwise a plain cell is
      appended. Empty content is stored like any other. */
  function UpdateScheduleCell(st: ScheduleState, teacherId: nat, day: DayOfWeek, slot: int, content: string): (st': ScheduleState)
    ensures st'.teachers == st.teachers && st'.nextTeacherId == st.nextTeacherId && st'.timeSettings == st.timeSettings
  {
    var key := CellKey(teacherId, day, slot);
    match FindIndex(st.schedules, key)
    case Some(i) => st.(schedules := st.schedules[i := st.schedules[i].(content := content)])
    case None => st.(schedules := st.schedules + [ScheduleCell(teacherId, day, slot, content, None, None)])
  }

  /** Reading a key back after writing it gives the written content. */
  lemma UpdateThenGet(st: ScheduleState, teacherId: nat, day: DayOfWeek, slot: int, content: string)
    ensures GetCellContent(UpdateScheduleCell(st, teacherId, day, slot, content), teacherId, day, slot) == content
  {
    var key := CellKey(teacherId, day, slot);
    var s' := UpdateScheduleCell(st, teacherId, day, slot, content).schedules;
    match FindIndex(st.schedules, key)
    case Some(i) =>
      FirstMatchIsCell(s', key, i);
    case None =>
      FirstMatchIsCell(s', key, |st.schedules|);
  }

  /** When index i is the first with this key, FindCell returns that cell. */
  lemma {:induction false} FirstMatchIsCell(s: seq<ScheduleCell>, key: CellKey, i: nat)
    requires i < |s| && KeyOf(s[i]) == key
    requires forall j :: 0 <= j < i ==> KeyOf(s[j]) != key
    ensures TimeTable.FindCell(s, key.teacherId, key.day, key.timeSlot) == Some(s[i])
  {
    if i > 0 {
      FirstMatchIsCell(s[1..], key, i - 1);
    }
  }

  /** Writing one key leaves every other key's content alone. */
  lemma UpdateFrame(st: ScheduleState, teacherId: nat, day: DayOfWeek, slot: int, content: string, other: CellKey)
    requires other != CellKey(teacherId, day, slot)
    ensures GetCellContent(UpdateScheduleCell(st, teacherId, day, slot, content), other.teacherId, other.day, other.timeSlot)
         == GetCellContent(st, other.teacherId, other.day, other.timeSlot)
  {
    var key := CellKey(teacherId, day, slot);
    var s := st.schedules;
    var s' := UpdateScheduleCell(st, teacherId, day, slot, content).schedules;
    assert forall j :: 0 <= j < |s| ==> KeyOf(s'[j]) == KeyOf(s[j]);
    match FindIndex(s, other)
    case Some(i) =>
      FirstMatchIsCell(s, other, i);
      FirstMatchIsCell(s', other, i);
      assert s'[i].content == s[i].content;
    case None =>
      assert forall j :: 0 <= j < |s'| ==> KeyOf(s'[j]) != other;
  }

  /** The upsert keeps at most one cell per key, keeps an existing cell's
      merge fields, and never removes a cell (an empty text is stored); a
      new key, and only a new key, appends one plain cell without merge
      fields. */
  lemma UpdateKeepsCells(st: ScheduleState, teacherId: nat, day: DayOfWeek, slot: int, content: string)
    requires Valid(st)
    ensures var st' := UpdateScheduleCell(st, teacherId, day, slot, content);
      && Valid(st')
      && |st.schedules| <= |st'.schedules| <= |st.schedules| + 1
      && (|st'.schedules| == |st.schedules| <==> FindIndex(st.schedules, CellKey(teacherId, day, slot)).Some?)
      && (|st'.schedules| > |st.schedules| ==>
            st'.schedules[|st.schedules|] == ScheduleCell(teacherId, day, slot, content, None, None))
      && (forall j :: 0 <= j < |st.schedules| ==>
            st'.schedules[j].rowspan == st.schedules[j].rowspan &&
            st'.schedules[j].isMergedChild == st.schedules[j].isMergedChild &&
            KeyOf(st'.schedules[j]) == KeyOf(st.schedules[j]))
      && exists j :: 0 <= j < |st'.schedules| && KeyOf(st'.schedules[j]) == CellKey(teacherId, day, slot)
  {
    var key := CellKey(teacherId, day, slot);
    var st' := UpdateScheduleCell(st, teacherId, day, slot, content);
    match FindIndex(st.schedules, key)
    case Some(i) =>
      assert KeyOf(st'.schedules[i]) == key;
    case None =>
      assert KeyOf(st'.schedules[|st.schedules|]) == key;
  }

  // ---------------------------------------------------------------------
  // Time settings
  // ---------------------------------------------------------------------

  /** `handleAddTimeRow`: one more time row; cells are untouched. */
  function AddTimeRow(st: ScheduleState): (st': ScheduleState)
    ensures st'.timeSettings.timeRows == st.timeSettings.timeRows + 1
    ensures st'.timeSettings.(timeRows := st.timeSettings.timeRows) == st.timeSettings
    ensures st'.(timeSettings := st.timeSettings) == st
  {
    st.(timeSettings := st.timeSettings.(timeRows := st.timeSettings.timeRows + 1))
  }

  /** `handleTimeApply`: the three settings from the time dialog; the row
      count is kept. */
  function TimeApply(st: ScheduleState, hour: Option<StartHour>, minute: Option<nat>, interval: Option<nat>): (st': ScheduleState)
    ensures st'.timeSettings == TimeSettings(hour, minute, interval, st.timeSettings.timeRows)
    ensures st'.(timeSettings := st.timeSettings) == st
  {
    st.(timeSettings := st.timeSettings.(startHour := hour, startMinute := minute, interval := interval))
  }
}
