/** The shared document provider: the default document, the migration
    applied to a document loaded from the server, and `updateData`, which
    replaces one section of the document. */
module AppDataContext {
  import opened Wrappers
  import opened Interfaces
  import opened AppDataTypes
  import PaymentPage
  import InOutPage
  import ClassPages
  import SchedulePage

  // ---------------------------------------------------------------------
  // The default document
  // ---------------------------------------------------------------------

  /** Every weekday tag mapped to the empty date. */
  const NoDates: map<DayOfWeek, string> :=
    map[Mon := "", Tue := "", Wed := "", Thu := "", Fri := "", Sat := "", Sun := ""]

  /** The schedule page "시간표1": one unnamed teacher, no cells, eight rows. */
  const DefaultSchedulePage :=
    SchedulePageData(0, "시간표1", [Teacher(0, "")], 1, [], TimeSettings(None, None, None, 8), NoDates)

  /** The payment page "입금명단1" with three empty tables. */
  const DefaultPaymentPage := PaymentPageData(0, "입금명단1",
    PaymentTables(PaymentTable("", [], 0), PaymentTable("", [], 0), PaymentTable("", [], 0)))

  const EmptyRoster := ClassSectionData([], 0, map[])

  const DefaultData := AppData(
    EmptyRoster, EmptyRoster, EmptyRoster,
    ScheduleSectionData([DefaultSchedulePage], 0, 1),
    PaymentSectionData([DefaultPaymentPage], 0, 1),
    InOutSectionData([], 0))

  /** The default schedule page carries exactly the local state a schedule
      page starts from, and a date entry for every weekday. */
  lemma DefaultScheduleMatchesInitial()
    ensures DefaultSchedulePage.teachers == SchedulePage.Initial.teachers
    ensures DefaultSchedulePage.nextTeacherId == SchedulePage.Initial.nextTeacherId
    ensures DefaultSchedulePage.schedules == SchedulePage.Initial.schedules
    ensures DefaultSchedulePage.timeSettings == SchedulePage.Initial.timeSettings
    ensures forall d: DayOfWeek :: d in DefaultSchedulePage.dayDates && DefaultSchedulePage.dayDates[d] == ""
  {
    forall d: DayOfWeek ensures d in NoDates && NoDates[d] == "" {
      match d
      case Mon => case Tue => case Wed => case Thu => case Fri => case Sat => case Sun =>
    }
  }

  /** The default document satisfies every section's invariant, and its
      payment page is the one the page module creates for an empty page. */
  lemma DefaultDataValid()
    ensures ClassPages.Valid(DefaultData.elementary)
    ensures ClassPages.Valid(DefaultData.middle)
    ensures ClassPages.Valid(DefaultData.high)
    ensures PaymentPage.Valid(DefaultData.payment)
    ensures InOutPage.Valid(DefaultData.inout)
    ensures DefaultPaymentPage == PaymentPage.CreateEmptyPage(0, "입금명단1")
    ensures PaymentPage.CurrentPage(DefaultData.payment) == Some(DefaultPaymentPage)
  {
    assert PaymentPage.HasPage(DefaultData.payment.pages, 0) by {
      assert DefaultData.payment.pages[0].pageId == 0;
    }
  }

  // ---------------------------------------------------------------------
  // The loaded document
  // ---------------------------------------------------------------------

  /** A class as stored by an older version: name and teacher may be absent
      (`None`) as well as empty. */
  datatype RawClass = RawClass(tableId: nat, currentLevel: int, className: Option<string>, teacher: Option<string>)

  datatype RawClassSection = RawClassSection(
    classes: seq<RawClass>,
    nextId: nat,
    studentsData: map<nat, ClassStudentsData>)

  /** Page counters may be absent from a stored page section. */
  datatype RawScheduleSection = RawScheduleSection(
    pages: seq<SchedulePageData>,
    currentPageId: Option<nat>,
    nextPageId: Option<nat>)

  datatype RawPaymentSection = RawPaymentSection(
    pages: seq<PaymentPageData>,
    currentPageId: Option<nat>,
    nextPageId: Option<nat>)

  /** Fields of the intake/withdrawal section that an older document may lack. */
  datatype RawInOutSection = RawInOutSection(tables: Option<seq<InOutTable>>, nextTableId: Option<nat>)

  datatype RawAppData = RawAppData(
    elementary: RawClassSection,
    middle: RawClassSection,
    high: RawClassSection,
    schedule: RawScheduleSection,
    payment: RawPaymentSection,
    inout: RawInOutSection)

  /** JavaScript's `s || d` on an optional string: an absent or empty string
      is falsy. */
  function OrString(o: Option<string>, d: string): (r: string)
    ensures o.Some? && o.value != "" ==> r == o.value
    ensures (o.None? || o.value == "") ==> r == d
  {
    if o.Some? && o.value != "" then o.value else d
  }

  /** JavaScript's `n || d` on an optional number: absent and 0 are falsy. */
  function OrNat(o: Option<nat>, d: nat): (r: nat)
    ensures o.Some? && o.value != 0 ==> r == o.value
    ensures (o.None? || o.value == 0) ==> r == d
  {
    if o.Some? && o.value != 0 then o.value else d
  }

  function MigrateClass(c: RawClass): (r: RosterClass)
    ensures r.tableId == c.tableId && r.currentLevel == c.currentLevel
    ensures r.className == OrString(c.className, "") && r.teacher == OrString(c.teacher, "")
  {
    RosterClass(c.tableId, c.currentLevel, OrString(c.className, ""), OrString(c.teacher, ""))
  }

  /** Classes migrate one by one in place; the counter and the students
      are taken over. */
  function MigrateRoster(s: RawClassSection): (r: ClassSectionData)
    ensures |r.classes| == |s.classes|
    ensures forall i :: 0 <= i < |s.classes| ==> r.classes[i] == MigrateClass(s.classes[i])
    ensures r.nextId == s.nextId && r.studentsData == s.studentsData
  {
    ClassSectionData(seq(|s.classes|, i requires 0 <= i < |s.classes| => MigrateClass(s.classes[i])),
      s.nextId, s.studentsData)
  }

  /** An empty page list gets the default page; `currentPageId || 0` and
      `nextPageId || 1`. */
  function MigrateSchedule(s: RawScheduleSection): (r: ScheduleSectionData)
    ensures |r.pages| > 0
    ensures |s.pages| > 0 ==> r.pages == s.pages
    ensures |s.pages| == 0 ==> r.pages == [DefaultSchedulePage]
    ensures r.currentPageId == OrNat(s.currentPageId, 0) && r.nextPageId == OrNat(s.nextPageId, 1)
  {
    ScheduleSectionData(if |s.pages| == 0 then [DefaultSchedulePage] else s.pages,
      OrNat(s.currentPageId, 0), OrNat(s.nextPageId, 1))
  }

  function MigratePayment(s: RawPaymentSection): (r: PaymentSectionData)
    ensures |r.pages| > 0
    ensures |s.pages| > 0 ==> r.pages == s.pages
    ensures |s.pages| == 0 ==> r.pages == [DefaultPaymentPage]
    ensures r.currentPageId == OrNat(s.currentPageId, 0) && r.nextPageId == OrNat(s.nextPageId, 1)
  {
    PaymentSectionData(if |s.pages| == 0 then [DefaultPaymentPage] else s.pages,
      OrNat(s.currentPageId, 0), OrNat(s.nextPageId, 1))
  }

  /** Missing tables become the empty list (an empty list is truthy and is
      kept as it is); `nextTableId || 0`. */
  function MigrateInOut(s: RawInOutSection): (r: InOutSectionData)
    ensures s.tables.Some? ==> r.tables == s.tables.value
    ensures s.tables.None? ==> r.tables == []
    ensures r.nextTableId == OrNat(s.nextTableId, 0)
  {
    InOutSectionData(if s.tables.Some? then s.tables.value else [], OrNat(s.nextTableId, 0))
  }

  /** The migration run on the loaded document. */
  function Migrate(raw: RawAppData): (d: AppData)
    ensures d.elementary == MigrateRoster(raw.elementary)
    ensures d.middle == MigrateRoster(raw.middle)
    ensures d.high == MigrateRoster(raw.high)
    ensures d.schedule == MigrateSchedule(raw.schedule)
    ensures d.payment == MigratePayment(raw.payment)
    ensures d.inout == MigrateInOut(raw.inout)
  {
    AppData(MigrateRoster(raw.elementary), MigrateRoster(raw.middle), MigrateRoster(raw.high),
      MigrateSchedule(raw.schedule), MigratePayment(raw.payment), MigrateInOut(raw.inout))
  }

  /** A load that failed (`None`) keeps the document in memory; a load that
      succeeded replaces it with the migrated document. */
  function Load(current: AppData, loaded: Option<RawAppData>): (d: AppData)
    ensures loaded.None? ==> d == current
    ensures loaded.Some? ==> d == Migrate(loaded.value)
  {
    if loaded.Some? then Migrate(loaded.value) else current
  }

  /** A document as the server stores it, every optional field present. */
  function ToRaw(d: AppData): (raw: RawAppData)
    ensures raw.schedule.pages == d.schedule.pages && raw.payment.pages == d.payment.pages
    ensures raw.inout.tables == Some(d.inout.tables)
  {
    RawAppData(RosterToRaw(d.elementary), RosterToRaw(d.middle), RosterToRaw(d.high),
      RawScheduleSection(d.schedule.pages, Some(d.schedule.currentPageId), Some(d.schedule.nextPageId)),
      RawPaymentSection(d.payment.pages, Some(d.payment.currentPageId), Some(d.payment.nextPageId)),
      RawInOutSection(Some(d.inout.tables), Some(d.inout.nextTableId)))
  }

  function RosterToRaw(s: ClassSectionData): (r: RawClassSection)
    ensures |r.classes| == |s.classes|
  {
    RawClassSection(seq(|s.classes|, i requires 0 <= i < |s.classes| =>
      RawClass(s.classes[i].tableId, s.classes[i].currentLevel, Some(s.classes[i].className), Some(s.classes[i].teacher))),
      s.nextId, s.studentsData)
  }

  lemma RosterRoundTrip(s: ClassSectionData)
    ensures MigrateRoster(RosterToRaw(s)) == s
  {
    var r := MigrateRoster(RosterToRaw(s));
    assert r.classes == s.classes by {
      forall i | 0 <= i < |s.classes| ensures r.classes[i] == s.classes[i] {
      }
    }
  }

  /** What the migration leaves alone: saving a document and loading it
      back gives the same document exactly when both page lists are
      non-empty and neither page counter is 0. */
  lemma MigrateRoundTrip(d: AppData)
    ensures Migrate(ToRaw(d)) == d <==>
      |d.schedule.pages| > 0 && |d.payment.pages| > 0 &&
      d.schedule.nextPageId != 0 && d.payment.nextPageId != 0
  {
    RosterRoundTrip(d.elementary);
    RosterRoundTrip(d.middle);
    RosterRoundTrip(d.high);
    var m := Migrate(ToRaw(d));
    if |d.schedule.pages| == 0 {
      assert |m.schedule.pages| != |d.schedule.pages|;
    } else if |d.payment.pages| == 0 {
      assert |m.payment.pages| != |d.payment.pages|;
    } else if d.schedule.nextPageId == 0 {
      assert m.schedule.nextPageId == 1;
    } else if d.payment.nextPageId == 0 {
      assert m.payment.nextPageId == 1;
    }
  }

  /** Loading a saved migrated document migrates nothing further. */
  lemma MigrateIdempotent(raw: RawAppData)
    ensures Migrate(ToRaw(Migrate(raw))) == Migrate(raw)
  {
    MigrateRoundTrip(Migrate(raw));
  }

  /** The migration does not check the stored current page id: when the
      stored payment page list is empty, the page shown is the default page
      whatever id was stored. */
  lemma MigratedEmptyPaymentShowsDefault(raw: RawAppData)
    requires |raw.payment.pages| == 0
    ensures PaymentPage.CurrentPage(Migrate(raw).payment) == Some(DefaultPaymentPage)
  {
  }

  /** A stored counter of 0 is read as 1: the counter is not preserved. */
  lemma ZeroCounterBecomesOne()
    ensures MigratePayment(RawPaymentSection([DefaultPaymentPage], Some(0), Some(0))).nextPageId == 1
    ensures MigratePayment(RawPaymentSection([DefaultPaymentPage], Some(0), Some(0))).currentPageId == 0
  {
  }

  // ---------------------------------------------------------------------
  // updateData
  // ---------------------------------------------------------------------

  datatype Section = Elementary | Middle | High | Schedule | Payment | InOut

  /** The value of one section. */
  datatype SectionValue =
    | ClassValue(classes: ClassSectionData)
    | ScheduleValue(schedule: ScheduleSectionData)
    | PaymentValue(payment: PaymentSectionData)
    | InOutValue(inout: InOutSectionData)

  function SectionOf(d: AppData, s: Section): SectionValue {
    match s
    case Elementary => ClassValue(d.elementary)
    case Middle => ClassValue(d.middle)
    case High => ClassValue(d.high)
    case Schedule => ScheduleValue(d.schedule)
    case Payment => PaymentValue(d.payment)
    case InOut => InOutValue(d.inout)
  }

  /** A call `updateData(section, newData)` whose value has that section's
      type. */
  datatype Update =
    | SetElementary(ev: ClassSectionData)
    | SetMiddle(mv: ClassSectionData)
    | SetHigh(hv: ClassSectionData)
    | SetSchedule(sv: ScheduleSectionData)
    | SetPayment(pv: PaymentSectionData)
    | SetInOut(iv: InOutSectionData)

  function Target(u: Update): Section {
    match u
    case SetElementary(_) => Elementary
    case SetMiddle(_) => Middle
    case SetHigh(_) => High
    case SetSchedule(_) => Schedule
    case SetPayment(_) => Payment
    case SetInOut(_) => InOut
  }

  function Value(u: Update): SectionValue {
    match u
    case SetElementary(v) => ClassValue(v)
    case SetMiddle(v) => ClassValue(v)
    case SetHigh(v) => ClassValue(v)
    case SetSchedule(v) => ScheduleValue(v)
    case SetPayment(v) => PaymentValue(v)
    case SetInOut(v) => InOutValue(v)
  }

  /** `updateData`: the named section becomes the given value as a whole;
      every other section is kept. */
  function UpdateData(d: AppData, u: Update): (d': AppData)
    ensures SectionOf(d', Target(u)) == Value(u)
    ensures forall s :: s != Target(u) ==> SectionOf(d', s) == SectionOf(d, s)
  {
    match u
    case SetElementary(v) => d.(elementary := v)
    case SetMiddle(v) => d.(middle := v)
    case SetHigh(v) => d.(high := v)
    case SetSchedule(v) => d.(schedule := v)
    case SetPayment(v) => d.(payment := v)
    case SetInOut(v) => d.(inout := v)
  }

  /** A document is determined by its six sections. */
  lemma SectionsDetermine(d1: AppData, d2: AppData)
    requires forall s :: SectionOf(d1, s) == SectionOf(d2, s)
    ensures d1 == d2
  {
    assert SectionOf(d1, Elementary) == SectionOf(d2, Elementary);
    assert SectionOf(d1, Middle) == SectionOf(d2, Middle);
    assert SectionOf(d1, High) == SectionOf(d2, High);
    assert SectionOf(d1, Schedule) == SectionOf(d2, Schedule);
    assert SectionOf(d1, Payment) == SectionOf(d2, Payment);
    assert SectionOf(d1, InOut) == SectionOf(d2, InOut);
  }

  /** Two updates of the same section: the second one wins, whatever the
      first wrote. This is why handlers that each build a whole section from
      the same stale value lose all but the last edit. */
  lemma UpdateLastWins(d: AppData, u1: Update, u2: Update)
    requires Target(u1) == Target(u2)
    ensures UpdateData(UpdateData(d, u1), u2) == UpdateData(d, u2)
  {
    var a, b := UpdateData(UpdateData(d, u1), u2), UpdateData(d, u2);
    forall s ensures SectionOf(a, s) == SectionOf(b, s) {
    }
    SectionsDetermine(a, b);
  }

  /** Updates of different sections do not interfere. */
  lemma UpdateCommutes(d: AppData, u1: Update, u2: Update)
    requires Target(u1) != Target(u2)
    ensures UpdateData(UpdateData(d, u1), u2) == UpdateData(UpdateData(d, u2), u1)
  {
    var a, b := UpdateData(UpdateData(d, u1), u2), UpdateData(UpdateData(d, u2), u1);
    forall s ensures SectionOf(a, s) == SectionOf(b, s) {
    }
    SectionsDetermine(a, b);
  }

  /** Writing a section's own value back changes nothing. */
  lemma UpdateWithCurrentIsIdentity(d: AppData, u: Update)
    requires Value(u) == SectionOf(d, Target(u))
    ensures UpdateData(d, u) == d
  {
    var a := UpdateData(d, u);
    forall s ensures SectionOf(a, s) == SectionOf(d, s) {
    }
    SectionsDetermine(a, d);
  }
}
