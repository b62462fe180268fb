/** The sections of the persisted document: rosters, schedule, payment and
    intake/withdrawal tables, and the aggregate document itself. */
module AppDataTypes {
  import opened Interfaces

  datatype InOutRow = InOutRow(id: nat, name: string, school: string, grade: string, reason: string)

  /** '신입' (new student) or '중퇴' (withdrawal). */
  datatype InOutType = NewStudent | Withdrawal

  datatype InOutTable = InOutTable(id: nat, month: string, kind: InOutType, rows: seq<InOutRow>, nextRowId: nat)

  datatype ClassStudentsData = ClassStudentsData(students: seq<StudentRow>, nextStudentId: nat)

  /** A roster section; `studentsData` is keyed by `tableId`. */
  datatype ClassSectionData = ClassSectionData(
    classes: seq<RosterClass>,
    nextId: nat,
    studentsData: map<nat, ClassStudentsData>)

  datatype ScheduleSectionData = ScheduleSectionData(pages: seq<SchedulePageData>, currentPageId: nat, nextPageId: nat)

  datatype PaymentSectionData = PaymentSectionData(pages: seq<PaymentPageData>, currentPageId: nat, nextPageId: nat)

  datatype InOutSectionData = InOutSectionData(tables: seq<InOutTable>, nextTableId: nat)

  datatype AppData = AppData(
    elementary: ClassSectionData,
    middle: ClassSectionData,
    high: ClassSectionData,
    schedule: ScheduleSectionData,
    payment: PaymentSectionData,
    inout: InOutSectionData)
}
