/** The records of the application's shared interface file: roster classes,
    student rows, teachers, schedule cells, schedule and payment pages. */
module Interfaces {
  import opened Wrappers

  /** One class of a roster (`IClassTable`). */
  datatype RosterClass = RosterClass(tableId: nat, currentLevel: int, className: string, teacher: string)

  /** One student line of a class table (`IStudentRowsInClassTable`). */
  datatype StudentRow = StudentRow(studentId: nat, idx: nat, name: string, school: string, grade: string)

  datatype Teacher = Teacher(id: nat, name: string)

  /** The seven weekday tags 월 화 수 목 금 토 일, Monday first. */
  datatype DayOfWeek = Mon | Tue | Wed | Thu | Fri | Sat | Sun

  /** A stored schedule cell. `rowspan` is present on the top cell of a
      vertical merge group, `isMergedChild` on the cells it covers; JavaScript
      leaves both fields absent on plain cells. */
  datatype ScheduleCell = ScheduleCell(
    teacherId: nat,
    day: DayOfWeek,
    timeSlot: int,
    content: string,
    rowspan: Option<int>,
    isMergedChild: Option<bool>)

  /** The (teacher, day, slot) key of a schedule cell. */
  datatype CellKey = CellKey(teacherId: nat, day: DayOfWeek, timeSlot: int)

  function KeyOf(c: ScheduleCell): CellKey {
    CellKey(c.teacherId, c.day, c.timeSlot)
  }

  /** The start-hour choice "오전 h" / "오후 h" of the time settings. */
  datatype StartHour = StartHour(isPM: bool, hour: nat)

  /** Time settings of a schedule page. The three text settings are empty
      strings until the time dialog is applied; an empty string is `None`. */
  datatype TimeSettings = TimeSettings(
    startHour: Option<StartHour>,
    startMinute: Option<nat>,
    interval: Option<nat>,
    timeRows: nat)

  datatype SchedulePageData = SchedulePageData(
    pageId: nat,
    pageName: string,
    teachers: seq<Teacher>,
    nextTeacherId: nat,
    schedules: seq<ScheduleCell>,
    timeSettings: TimeSettings,
    dayDates: map<DayOfWeek, string>)

  /** "empty" or "copy" in the new-page dialog. */
  datatype CreatePageType = EmptyPage | CopyPage

  datatype PaymentRow = PaymentRow(
    id: nat,
    name: string,
    school: string,
    grade: string,
    paymentDate: string,
    vehicle: string,
    tuition: string,
    notes: string)

  datatype PaymentTable = PaymentTable(title: string, rows: seq<PaymentRow>, nextRowId: nat)

  datatype PaymentTables = PaymentTables(elementary: PaymentTable, middle: PaymentTable, high: PaymentTable)

  datatype PaymentPageData = PaymentPageData(pageId: nat, pageName: string, tables: PaymentTables)
}
