/** The payment-list page: a section of pages, each holding an elementary,
    a middle and a high-school table of payment rows. Every handler rebuilds
    the whole payment section from the section it was rendered with. */
module PaymentPage {
  import opened Wrappers
  import opened Seqs
  import opened Interfaces
  import opened AppDataTypes
  import opened NavigationTypes

  /** The three tables of a page. */
  datatype TableType = Elementary | Middle | High

  /** The editable columns of a payment row, left to right. */
  datatype PaymentField = Name | School | Grade | PaymentDate | Vehicle | Tuition | Notes

  /** Column order of the table grid (`fieldMap`). */
  const Fields: seq<PaymentField> := [Name, School, Grade, PaymentDate, Vehicle, Tuition, Notes]

  function GetTable(ts: PaymentTables, tt: TableType): PaymentTable {
    match tt
    case Elementary => ts.elementary
    case Middle => ts.middle
    case High => ts.high
  }

  /** Replace one table; the other two are untouched. */
  function SetTable(ts: PaymentTables, tt: TableType, t: PaymentTable): (r: PaymentTables)
    ensures GetTable(r, tt) == t
    ensures forall u :: u != tt ==> GetTable(r, u) == GetTable(ts, u)
  {
    match tt
    case Elementary => ts.(elementary := t)
    case Middle => ts.(middle := t)
    case High => ts.(high := t)
  }

  function GetField(r: PaymentRow, f: PaymentField): string {
    match f
    case Name => r.name
    case School => r.school
    case Grade => r.grade
    case PaymentDate => r.paymentDate
    case Vehicle => r.vehicle
    case Tuition => r.tuition
    case Notes => r.notes
  }

  /** `{ ...row, [field]: value }`: the field reads back, nothing else moves. */
  function SetField(r: PaymentRow, f: PaymentField, v: string): (r': PaymentRow)
    ensures GetField(r', f) == v
    ensures forall g :: g != f ==> GetField(r', g) == GetField(r, g)
    ensures r'.id == r.id
  {
    match f
    case Name => r.(name := v)
    case School => r.(school := v)
    case Grade => r.(grade := v)
    case PaymentDate => r.(paymentDate := v)
    case Vehicle => r.(vehicle := v)
    case Tuition => r.(tuition := v)
    case Notes => r.(notes := v)
  }

  // ---------------------------------------------------------------------
  // Invariant of the section
  // ---------------------------------------------------------------------

  /** Row ids of a table are distinct and below its counter. */
  predicate RowIdsFresh(t: PaymentTable) {
    (forall i :: 0 <= i < |t.rows| ==> t.rows[i].id < t.nextRowId) &&
    (forall i, j :: 0 <= i < j < |t.rows| ==> t.rows[i].id != t.rows[j].id)
  }

  predicate TablesFresh(ts: PaymentTables) {
    RowIdsFresh(ts.elementary) && RowIdsFresh(ts.middle) && RowIdsFresh(ts.high)
  }

  predicate HasPage(pages: seq<PaymentPageData>, id: nat) {
    exists i :: 0 <= i < |pages| && pages[i].pageId == id
  }

  /** Page ids are distinct and below the page counter. */
  predicate PageIdsFresh(pd: PaymentSectionData) {
    (forall i :: 0 <= i < |pd.pages| ==> pd.pages[i].pageId < pd.nextPageId) &&
    (forall i, j :: 0 <= i < j < |pd.pages| ==> pd.pages[i].pageId != pd.pages[j].pageId)
  }

  /** The state the page keeps when used through its own handlers: at least
      one page, fresh page and row ids, and a current id naming a page. */
  predicate Valid(pd: PaymentSectionData) {
    |pd.pages| > 0 && PageIdsFresh(pd) && HasPage(pd.pages, pd.currentPageId) &&
    forall i :: 0 <= i < |pd.pages| ==> TablesFresh(pd.pages[i].tables)
  }

  // ---------------------------------------------------------------------
  // Current page
  // ---------------------------------------------------------------------

  /** Position i holds the first page with this id. */
  predicate FirstPageWithId(pages: seq<PaymentPageData>, id: nat, i: int) {
    0 <= i < |pages| && pages[i].pageId == id && forall j :: 0 <= j < i ==> pages[j].pageId != id
  }

  /** `pages.find(p => p.pageId === id)`. */
  function FindPage(pages: seq<PaymentPageData>, id: nat): (r: Option<PaymentPageData>)
    ensures r.None? <==> !HasPage(pages, id)
    ensures forall i :: FirstPageWithId(pages, id, i) ==> r == Some(pages[i])
  {
    if |pages| == 0 then None
    else if pages[0].pageId == id then Some(pages[0])
    else
      var r := FindPage(pages[1..], id);
      assert forall i :: FirstPageWithId(pages, id, i) ==> FirstPageWithId(pages[1..], id, i - 1);
      assert HasPage(pages[1..], id) ==> HasPage(pages, id) by {
        if HasPage(pages[1..], id) {
          var k :| 0 <= k < |pages[1..]| && pages[1..][k].pageId == id;
          assert pages[k + 1].pageId == id;
        }
      }
      assert HasPage(pages, id) ==> HasPage(pages[1..], id) by {
        if HasPage(pages, id) {
          var k :| 0 <= k < |pages| && pages[k].pageId == id;
          assert pages[1..][k - 1].pageId == id;
        }
      }
      r
  }

  /** `currentPage`: the first page with the current id, else the first page;
      nothing when there are no pages. */
  function CurrentPage(pd: PaymentSectionData): (r: Option<PaymentPageData>)
    ensures r.None? <==> |pd.pages| == 0
    ensures forall i :: FirstPageWithId(pd.pages, pd.currentPageId, i) ==> r == Some(pd.pages[i])
    ensures !HasPage(pd.pages, pd.currentPageId) && |pd.pages| > 0 ==> r == Some(pd.pages[0])
  {
    match FindPage(pd.pages, pd.currentPageId)
    case Some(p) => Some(p)
    case None => if |pd.pages| == 0 then None else Some(pd.pages[0])
  }

  /** In a valid section the current id names exactly one page, and that page
      is the current page. */
  lemma CurrentIndex(pd: PaymentSectionData) returns (i: nat)
    requires Valid(pd)
    ensures i < |pd.pages| && pd.pages[i].pageId == pd.currentPageId
    ensures forall j :: 0 <= j < |pd.pages| && j != i ==> pd.pages[j].pageId != pd.currentPageId
    ensures CurrentPage(pd) == Some(pd.pages[i])
  {
    i :| 0 <= i < |pd.pages| && pd.pages[i].pageId == pd.currentPageId;
    assert FirstPageWithId(pd.pages, pd.currentPageId, i);
  }

  /** `updateCurrentPage`: every page carrying the current id is rewritten. */
  function UpdateCurrentPage(pd: PaymentSectionData, f: PaymentPageData -> PaymentPageData): (pd': PaymentSectionData)
    ensures |pd'.pages| == |pd.pages|
    ensures pd'.currentPageId == pd.currentPageId && pd'.nextPageId == pd.nextPageId
  {
    pd.(pages := seq(|pd.pages|, i requires 0 <= i < |pd.pages| =>
      if pd.pages[i].pageId == pd.currentPageId then f(pd.pages[i]) else pd.pages[i]))
  }

  /** In a valid section an update changes exactly the current page, and the
      current page afterwards is the updated one. */
  lemma UpdateCurrentPageEffect(pd: PaymentSectionData, f: PaymentPageData -> PaymentPageData) returns (i: nat)
    requires Valid(pd)
    requires f(CurrentPage(pd).value).pageId == pd.currentPageId
    ensures i < |pd.pages| && CurrentPage(pd) == Some(pd.pages[i])
    ensures UpdateCurrentPage(pd, f).pages == pd.pages[i := f(pd.pages[i])]
    ensures CurrentPage(UpdateCurrentPage(pd, f)) == Some(f(pd.pages[i]))
  {
    i := CurrentIndex(pd);
    var pd' := UpdateCurrentPage(pd, f);
    assert pd'.pages == pd.pages[i := f(pd.pages[i])];
    assert FirstPageWithId(pd'.pages, pd.currentPageId, i);
  }

  /** When the current id names no page, the page on screen is the first one
      but every update through `updateCurrentPage` is dropped. */
  lemma UpdateWithoutCurrentIsLost(pd: PaymentSectionData, f: PaymentPageData -> PaymentPageData)
    requires |pd.pages| > 0 && !HasPage(pd.pages, pd.currentPageId)
    ensures CurrentPage(pd) == Some(pd.pages[0])
    ensures UpdateCurrentPage(pd, f) == pd
  {
    assert UpdateCurrentPage(pd, f).pages == pd.pages;
  }

  // ---------------------------------------------------------------------
  // Pages
  // ---------------------------------------------------------------------

  const EmptyTable := PaymentTable("", [], 0)

  /** `createEmptyPage`: three untitled tables without rows, counters at 0. */
  function CreateEmptyPage(id: nat, name: string): (p: PaymentPageData)
    ensures p.pageId == id && p.pageName == name
    ensures forall tt :: GetTable(p.tables, tt) == EmptyTable
  {
    PaymentPageData(id, name, PaymentTables(EmptyTable, EmptyTable, EmptyTable))
  }

  /** `createCopyPage`: a new id and name over the source page's titles, rows
      and row counters (row records are copied, which immutable values make
      the same thing as sharing them). */
  function CreateCopyPage(source: PaymentPageData, id: nat, name: string): (p: PaymentPageData)
    ensures p.pageId == id && p.pageName == name
    ensures forall tt :: GetTable(p.tables, tt) == GetTable(source.tables, tt)
  {
    PaymentPageData(id, name, source.tables)
  }

  /** `handleCreatePage`: append the new page under the next page id and
      select it. Copying when there is no page to copy throws before the
      update, leaving the section as it was. */
  function CreatePage(pd: PaymentSectionData, name: string, kind: CreatePageType): (pd': PaymentSectionData)
    ensures kind == CopyPage && |pd.pages| == 0 ==> pd' == pd
    ensures kind == EmptyPage || |pd.pages| > 0 ==>
      && |pd'.pages| == |pd.pages| + 1
      && pd'.pages[..|pd.pages|] == pd.pages
      && pd'.pages[|pd.pages|].pageId == pd.nextPageId
      && pd'.pages[|pd.pages|].pageName == name
      && pd'.currentPageId == pd.nextPageId
      && pd'.nextPageId == pd.nextPageId + 1
  {
    match kind
    case EmptyPage =>
      var p := CreateEmptyPage(pd.nextPageId, name);
      PaymentSectionData(pd.pages + [p], pd.nextPageId, pd.nextPageId + 1)
    case CopyPage =>
      match CurrentPage(pd)
      case None => pd
      case Some(cur) =>
        var p := CreateCopyPage(cur, pd.nextPageId, name);
        PaymentSectionData(pd.pages + [p], pd.nextPageId, pd.nextPageId + 1)
  }

  /** A created page becomes the current page: empty, or a copy of the page
      that was current; the section stays valid. */
  lemma CreatePageSelectsNew(pd: PaymentSectionData, name: string, kind: CreatePageType)
    requires Valid(pd)
    ensures Valid(CreatePage(pd, name, kind))
    ensures var cur' := CurrentPage(CreatePage(pd, name, kind));
      && cur'.Some? && cur'.value.pageId == pd.nextPageId && cur'.value.pageName == name
      && forall tt :: GetTable(cur'.value.tables, tt) ==
           if kind == EmptyPage then EmptyTable else GetTable(CurrentPage(pd).value.tables, tt)
  {
    var i := CurrentIndex(pd);
    var pd' := CreatePage(pd, name, kind);
    var n := |pd.pages|;
    assert pd'.pages[n].pageId == pd'.currentPageId;
    assert FirstPageWithId(pd'.pages, pd'.currentPageId, n);
    assert TablesFresh(pd'.pages[n].tables) by {
      if kind == CopyPage {
        assert pd'.pages[n].tables == pd.pages[i].tables;
      }
    }
    assert forall j :: 0 <= j < n ==> pd'.pages[j] == pd.pages[j];
  }

  /** `handleDeletePage`. The last page is never deleted; an unconfirmed
      delete does nothing; otherwise the pages with that id go, and if the
      current page went, the first remaining page becomes current (when none
      remains the lookup throws before the update). */
  function DeletePage(pd: PaymentSectionData, pageId: nat, confirmed: bool): (pd': PaymentSectionData)
    ensures |pd.pages| == 1 || !confirmed ==> pd' == pd
    ensures pd' != pd ==> forall p :: p in pd'.pages <==> p in pd.pages && p.pageId != pageId
    ensures pd'.nextPageId == pd.nextPageId
    ensures pd'.currentPageId != pd.currentPageId ==>
      pd.currentPageId == pageId && |pd'.pages| > 0 && pd'.currentPageId == pd'.pages[0].pageId
  {
    if |pd.pages| == 1 || !confirmed then pd
    else
      var keep := (p: PaymentPageData) => p.pageId != pageId;
      var remaining := Filter(pd.pages, keep);
      forall p ensures p in remaining <==> p in pd.pages && p.pageId != pageId {
        FilterMembers(pd.pages, keep, p);
      }
      if pd.currentPageId == pageId then
        if |remaining| == 0 then pd
        else pd.(pages := remaining, currentPageId := remaining[0].pageId)
      else pd.(pages := remaining)
  }

  /** What survives a delete keeps fresh ids and tables. */
  lemma RemainingFresh(pd: PaymentSectionData, pageId: nat)
    requires Valid(pd)
    ensures var remaining := Filter(pd.pages, (p: PaymentPageData) => p.pageId != pageId);
      && (forall i, j :: 0 <= i < j < |remaining| ==> remaining[i].pageId != remaining[j].pageId)
      && forall j :: 0 <= j < |remaining| ==>
           remaining[j].pageId < pd.nextPageId && TablesFresh(remaining[j].tables) && remaining[j].pageId != pageId
  {
    var keep := (p: PaymentPageData) => p.pageId != pageId;
    var remaining := Filter(pd.pages, keep);
    FilterKeepsDistinct(pd.pages, keep, (p: PaymentPageData) => p.pageId);
    forall j | 0 <= j < |remaining|
      ensures remaining[j].pageId < pd.nextPageId && TablesFresh(remaining[j].tables) && remaining[j].pageId != pageId
    {
      assert remaining[j] in remaining;
      FilterMembers(pd.pages, keep, remaining[j]);
      var m :| 0 <= m < |pd.pages| && pd.pages[m] == remaining[j];
    }
  }

  /** A confirmed delete of one of several pages leaves the filtered,
      non-empty page list. */
  lemma DeleteResult(pd: PaymentSectionData, pageId: nat)
    requires Valid(pd) && |pd.pages| > 1
    ensures var remaining := Filter(pd.pages, (p: PaymentPageData) => p.pageId != pageId);
      && |remaining| > 0
      && DeletePage(pd, pageId, true) == pd.(pages := remaining,
           currentPageId := if pd.currentPageId == pageId then remaining[0].pageId else pd.currentPageId)
  {
    var keep := (p: PaymentPageData) => p.pageId != pageId;
    var remaining := Filter(pd.pages, keep);
    // of two pages with distinct ids, one survives
    var k := if pd.pages[0].pageId != pageId then 0 else 1;
    assert pd.pages[k] in remaining by { FilterMembers(pd.pages, keep, pd.pages[k]); }
  }

  /** A confirmed delete of one of several pages removes it, keeps the
      section valid and keeps the current page when another page was
      deleted. */
  lemma DeletePageValid(pd: PaymentSectionData, pageId: nat)
    requires Valid(pd) && |pd.pages| > 1
    ensures Valid(DeletePage(pd, pageId, true))
    ensures !HasPage(DeletePage(pd, pageId, true).pages, pageId)
    ensures pd.currentPageId != pageId ==> CurrentPage(DeletePage(pd, pageId, true)) == CurrentPage(pd)
  {
    var keep := (p: PaymentPageData) => p.pageId != pageId;
    var remaining := Filter(pd.pages, keep);
    DeleteResult(pd, pageId);
    RemainingFresh(pd, pageId);
    var pd' := pd.(pages := remaining,
      currentPageId := if pd.currentPageId == pageId then remaining[0].pageId else pd.currentPageId);
    assert PageIdsFresh(pd');
    assert !HasPage(remaining, pageId);
    var i := CurrentIndex(pd);
    if pd.currentPageId != pageId {
      assert pd.pages[i] in remaining by { FilterMembers(pd.pages, keep, pd.pages[i]); }
      var m :| 0 <= m < |remaining| && remaining[m] == pd.pages[i];
      assert FirstPageWithId(remaining, pd.currentPageId, m);
      assert HasPage(remaining, pd'.currentPageId);
    } else {
      assert HasPage(remaining, pd'.currentPageId);
    }
    assert Valid(pd');
  }

  /** `handleRenamePage`: pages with that id get the new name. */
  function RenamePage(pd: PaymentSectionData, pageId: nat, newName: string): (pd': PaymentSectionData)
    ensures |pd'.pages| == |pd.pages|
    ensures forall i :: 0 <= i < |pd.pages| ==>
      pd'.pages[i].pageId == pd.pages[i].pageId && pd'.pages[i].tables == pd.pages[i].tables
    ensures forall i :: 0 <= i < |pd.pages| ==>
      pd'.pages[i].pageName == if pd.pages[i].pageId == pageId then newName else pd.pages[i].pageName
    ensures pd'.currentPageId == pd.currentPageId && pd'.nextPageId == pd.nextPageId
  {
    pd.(pages := seq(|pd.pages|, i requires 0 <= i < |pd.pages| =>
      if pd.pages[i].pageId == pageId then pd.pages[i].(pageName := newName) else pd.pages[i]))
  }

  /** Renaming a page touches that page's name alone, and the current page
      is the same page before and after. */
  lemma RenamePageEffect(pd: PaymentSectionData, pageId: nat, newName: string)
    requires Valid(pd)
    ensures Valid(RenamePage(pd, pageId, newName))
    ensures forall i :: 0 <= i < |pd.pages| ==>
      RenamePage(pd, pageId, newName).pages[i].pageName ==
        if pd.pages[i].pageId == pageId then newName else pd.pages[i].pageName
    ensures CurrentPage(RenamePage(pd, pageId, newName)).value.pageId == pd.currentPageId
  {
    var i := CurrentIndex(pd);
    var pd' := RenamePage(pd, pageId, newName);
    assert FirstPageWithId(pd'.pages, pd.currentPageId, i);
  }

  /** `handleSwitchPage`: only the current id changes. */
  function SwitchPage(pd: PaymentSectionData, pageId: nat): (pd': PaymentSectionData)
    ensures pd'.pages == pd.pages && pd'.nextPageId == pd.nextPageId
    ensures HasPage(pd.pages, pageId) ==> CurrentPage(pd').value.pageId == pageId
    ensures Valid(pd) && HasPage(pd.pages, pageId) ==> Valid(pd')
  {
    var pd' := pd.(currentPageId := pageId);
    assert HasPage(pd.pages, pageId) ==> CurrentPage(pd').value.pageId == pageId by {
      if HasPage(pd.pages, pageId) {
        var i :| 0 <= i < |pd.pages| && pd.pages[i].pageId == pageId;
        var j := FirstIndex(pd.pages, pageId, i);
      }
    }
    pd'
  }

  /** Some position at or before i holds the first page with the id. */
  lemma {:induction false} FirstIndex(pages: seq<PaymentPageData>, id: nat, i: nat) returns (j: nat)
    requires i < |pages| && pages[i].pageId == id
    ensures j <= i && FirstPageWithId(pages, id, j)
  {
    if forall k :: 0 <= k < i ==> pages[k].pageId != id {
      j := i;
    } else {
      var k :| 0 <= k < i && pages[k].pageId == id;
      j := FirstIndex(pages, id, k);
    }
  }

  // ---------------------------------------------------------------------
  // Rows of one table of the current page
  // ---------------------------------------------------------------------

  /** Apply a table edit to the chosen table of the current page. */
  function EditTable(pd: PaymentSectionData, tt: TableType, g: PaymentTable -> PaymentTable): (pd': PaymentSectionData)
    ensures |pd'.pages| == |pd.pages|
    ensures pd'.currentPageId == pd.currentPageId && pd'.nextPageId == pd.nextPageId
  {
    UpdateCurrentPage(pd, (p: PaymentPageData) => p.(tables := SetTable(p.tables, tt, g(GetTable(p.tables, tt)))))
  }

  /** A table edit changes only the chosen table of the current page: the
      other pages and the page's other two tables stay as they were. */
  lemma EditTableEffect(pd: PaymentSectionData, tt: TableType, g: PaymentTable -> PaymentTable) returns (i: nat)
    requires Valid(pd)
    ensures i < |pd.pages| && CurrentPage(pd) == Some(pd.pages[i])
    ensures var pd' := EditTable(pd, tt, g);
      && |pd'.pages| == |pd.pages|
      && (forall j :: 0 <= j < |pd.pages| && j != i ==> pd'.pages[j] == pd.pages[j])
      && CurrentPage(pd') == Some(pd'.pages[i])
      && pd'.pages[i].pageId == pd.pages[i].pageId && pd'.pages[i].pageName == pd.pages[i].pageName
      && GetTable(pd'.pages[i].tables, tt) == g(GetTable(pd.pages[i].tables, tt))
      && forall u :: u != tt ==> GetTable(pd'.pages[i].tables, u) == GetTable(pd.pages[i].tables, u)
  {
    var f := (p: PaymentPageData) => p.(tables := SetTable(p.tables, tt, g(GetTable(p.tables, tt))));
    i := UpdateCurrentPageEffect(pd, f);
  }

  /** An edit that keeps a table's row ids fresh keeps the section valid. */
  lemma EditTableValid(pd: PaymentSectionData, tt: TableType, g: PaymentTable -> PaymentTable)
    requires Valid(pd)
    requires forall t :: RowIdsFresh(t) ==> RowIdsFresh(g(t))
    ensures Valid(EditTable(pd, tt, g))
  {
    var i := EditTableEffect(pd, tt, g);
    var pd' := EditTable(pd, tt, g);
    var ts := pd'.pages[i].tables;
    assert RowIdsFresh(GetTable(ts, Elementary)) && RowIdsFresh(GetTable(ts, Middle)) && RowIdsFresh(GetTable(ts, High)) by {
      assert RowIdsFresh(GetTable(pd.pages[i].tables, tt));
    }
    assert pd'.pages[i].pageId == pd.currentPageId;
  }

  function BlankRow(id: nat): PaymentRow {
    PaymentRow(id, "", "", "", "", "", "", "")
  }

  /** `handleAddRow` on one table: a blank row under the next row id. */
  function AddRowTo(t: PaymentTable): (t': PaymentTable)
    ensures t'.rows == t.rows + [BlankRow(t.nextRowId)]
    ensures forall f :: GetField(t'.rows[|t.rows|], f) == ""
    ensures t'.nextRowId == t.nextRowId + 1 && t'.title == t.title
    ensures RowIdsFresh(t) ==> RowIdsFresh(t')
  {
    t.(rows := t.rows + [BlankRow(t.nextRowId)], nextRowId := t.nextRowId + 1)
  }

  function AddRow(pd: PaymentSectionData, tt: TableType): (pd': PaymentSectionData)
    ensures Valid(pd) ==> Valid(pd')
  {
    EditTableValidIf(pd, tt, AddRowTo);
    EditTable(pd, tt, AddRowTo)
  }

  lemma EditTableValidIf(pd: PaymentSectionData, tt: TableType, g: PaymentTable -> PaymentTable)
    requires forall t :: RowIdsFresh(t) ==> RowIdsFresh(g(t))
    ensures Valid(pd) ==> Valid(EditTable(pd, tt, g))
  {
    if Valid(pd) {
      EditTableValid(pd, tt, g);
    }
  }

  /** `handleDeleteRow` on one table: the rows with that id go, the counter
      stays (ids are never reused). */
  function DeleteRowFrom(t: PaymentTable, rowId: nat): (t': PaymentTable)
    ensures forall r :: r in t'.rows <==> r in t.rows && r.id != rowId
    ensures t'.rows == Filter(t.rows, (r: PaymentRow) => r.id != rowId)
    ensures t'.nextRowId == t.nextRowId && t'.title == t.title
    ensures RowIdsFresh(t) ==> RowIdsFresh(t')
  {
    var keep := (r: PaymentRow) => r.id != rowId;
    forall r ensures r in Filter(t.rows, keep) <==> r in t.rows && r.id != rowId {
      FilterMembers(t.rows, keep, r);
    }
    assert RowIdsFresh(t) ==> RowIdsFresh(t.(rows := Filter(t.rows, keep))) by {
      if RowIdsFresh(t) {
        FilterRowsFresh(t, keep);
      }
    }
    t.(rows := Filter(t.rows, keep))
  }

  lemma FilterRowsFresh(t: PaymentTable, keep: PaymentRow -> bool)
    requires RowIdsFresh(t)
    ensures RowIdsFresh(t.(rows := Filter(t.rows, keep)))
  {
    var r := Filter(t.rows, keep);
    FilterKeepsDistinct(t.rows, keep, (x: PaymentRow) => x.id);
    forall i | 0 <= i < |r| ensures r[i].id < t.nextRowId {
      assert r[i] in r;
      FilterMembers(t.rows, keep, r[i]);
      var m :| 0 <= m < |t.rows| && t.rows[m] == r[i];
    }
  }

  /** Unconfirmed deletes change nothing. */
  function DeleteRow(pd: PaymentSectionData, tt: TableType, rowId: nat, confirmed: bool): (pd': PaymentSectionData)
    ensures !confirmed ==> pd' == pd
    ensures Valid(pd) ==> Valid(pd')
  {
    if !confirmed then pd
    else
      var g := (t: PaymentTable) => DeleteRowFrom(t, rowId);
      EditTableValidIf(pd, tt, g);
      EditTable(pd, tt, g)
  }

  /** `handleUpdateRow` on one table: one field of the rows with that id. */
  function UpdateRowIn(t: PaymentTable, rowId: nat, f: PaymentField, v: string): (t': PaymentTable)
    ensures |t'.rows| == |t.rows|
    ensures forall i :: 0 <= i < |t.rows| ==> t'.rows[i].id == t.rows[i].id
    ensures forall i :: 0 <= i < |t.rows| && t.rows[i].id == rowId ==> GetField(t'.rows[i], f) == v
    ensures forall i, g :: 0 <= i < |t.rows| && (t.rows[i].id != rowId || g != f) ==>
      GetField(t'.rows[i], g) == GetField(t.rows[i], g)
    ensures t'.nextRowId == t.nextRowId && t'.title == t.title
    ensures RowIdsFresh(t) ==> RowIdsFresh(t')
  {
    t.(rows := seq(|t.rows|, i requires 0 <= i < |t.rows| =>
      if t.rows[i].id == rowId then SetField(t.rows[i], f, v) else t.rows[i]))
  }

  function UpdateRow(pd: PaymentSectionData, tt: TableType, rowId: nat, f: PaymentField, v: string): (pd': PaymentSectionData)
    ensures |pd'.pages| == |pd.pages|
    ensures Valid(pd) ==> Valid(pd')
  {
    var g := (t: PaymentTable) => UpdateRowIn(t, rowId, f, v);
    EditTableValidIf(pd, tt, g);
    EditTable(pd, tt, g)
  }

  /** `handleUpdateTableTitle`: the chosen table of the current page takes
      the title; its rows and the other tables stay. */
  function UpdateTableTitle(pd: PaymentSectionData, tt: TableType, title: string): (pd': PaymentSectionData)
    ensures Valid(pd) ==> Valid(pd')
    ensures Valid(pd) ==> CurrentPage(pd').Some? && CurrentPage(pd).Some?
    ensures Valid(pd) ==>
      var t, t' := GetTable(CurrentPage(pd).value.tables, tt), GetTable(CurrentPage(pd').value.tables, tt);
      t'.title == title && t'.rows == t.rows && t'.nextRowId == t.nextRowId
    ensures Valid(pd) ==> forall u :: u != tt ==>
      GetTable(CurrentPage(pd').value.tables, u) == GetTable(CurrentPage(pd).value.tables, u)
  {
    var g := (t: PaymentTable) => t.(title := title);
    EditTableValidIf(pd, tt, g);
    assert Valid(pd) ==> CurrentPage(EditTable(pd, tt, g)).Some? by {
      if Valid(pd) {
        var i := EditTableEffect(pd, tt, g);
      }
    }
    EditTable(pd, tt, g)
  }

  // ---------------------------------------------------------------------
  // Importing students from the rosters
  // ---------------------------------------------------------------------

  /** The smallest key of a non-empty key set. */
  ghost function MinKey(keys: set<nat>): (m: nat)
    requires keys != {}
    ensures m in keys && forall k :: k in keys ==> m <= k
    decreases keys
  {
    var k :| k in keys;
    var rest := keys - {k};
    assert forall x :: x in keys ==> x == k || x in rest;
    if rest == {} then
      k
    else
      var m := MinKey(rest);
      if k < m then k else m
  }

  /** Integer-like keys in ascending order, the order `Object.values` visits
      them in. */
  ghost function AscendingKeys(keys: set<nat>): (r: seq<nat>)
    ensures forall k :: k in r <==> k in keys
    ensures forall i, j :: 0 <= i < j < |r| ==> r[i] < r[j]
    decreases keys
  {
    if keys == {} then []
    else
      var m := MinKey(keys);
      [m] + AscendingKeys(keys - {m})
  }

  /** The students of the listed classes, class after class. */
  ghost function StudentsOf(m: map<nat, ClassStudentsData>, keys: seq<nat>): (r: seq<StudentRow>)
    requires forall k :: k in keys ==> k in m
    ensures forall i, s :: 0 <= i < |keys| && s in m[keys[i]].students ==> s in r
    ensures forall s :: s in r ==> exists i :: 0 <= i < |keys| && s in m[keys[i]].students
  {
    if |keys| == 0 then []
    else
      var rest := StudentsOf(m, keys[1..]);
      assert forall i :: 1 <= i < |keys| ==> keys[i] == keys[1..][i - 1];
      m[keys[0]].students + rest
  }

  /** Every student of a roster section, classes in ascending key order. */
  ghost function RosterStudents(m: map<nat, ClassStudentsData>): (r: seq<StudentRow>)
    ensures forall k, s :: k in m && s in m[k].students ==> s in r
    ensures forall s :: s in r ==> exists k :: k in m && s in m[k].students
  {
    var keys := AscendingKeys(m.Keys);
    var r := StudentsOf(m, keys);
    assert forall k :: k in m ==> exists i :: 0 <= i < |keys| && keys[i] == k;
    r
  }

  /** The payment row a student becomes: name, school and grade copied, the
      payment fields blank. */
  function StudentPaymentRow(s: StudentRow, id: nat): PaymentRow {
    PaymentRow(id, s.name, s.school, s.grade, "", "", "", "")
  }

  /** The rows numbered from `base` in collection order. */
  function NumberedRows(students: seq<StudentRow>, base: nat): (r: seq<PaymentRow>)
    ensures |r| == |students|
    ensures forall i :: 0 <= i < |r| ==> r[i] == StudentPaymentRow(students[i], base + i)
  {
    seq(|students|, i requires 0 <= i < |students| => StudentPaymentRow(students[i], base + i))
  }

  /** The collected rows sorted by name. Korean collation is abstracted as a
      rank of each name; the sort is stable like `Array.prototype.sort`. */
  function CollectRows(students: seq<StudentRow>, base: nat, rank: string -> int): seq<PaymentRow> {
    SortBy(NumberedRows(students, base), (r: PaymentRow) => rank(r.name))
  }

  /** Some row carries this id. */
  predicate HasRowId(rows: seq<PaymentRow>, id: nat) {
    exists i :: 0 <= i < |rows| && rows[i].id == id
  }

  /** The collected rows are the students' rows under the ids
      base .. base+n-1, each id once, ordered by name rank. */
  lemma CollectRowsContents(students: seq<StudentRow>, base: nat, rank: string -> int)
    ensures var r := CollectRows(students, base, rank);
      && |r| == |students|
      && (forall x :: x in r ==> base <= x.id < base + |students| && x == StudentPaymentRow(students[x.id - base], x.id))
      && (forall id :: base <= id < base + |students| ==> HasRowId(r, id))
      && (forall i, j :: 0 <= i < j < |r| ==> r[i].id != r[j].id)
      && (forall i, j :: 0 <= i < j < |r| ==> rank(r[i].name) <= rank(r[j].name))
  {
    SortBySorted(NumberedRows(students, base), (x: PaymentRow) => rank(x.name));
    CollectedRowsAreStudents(students, base, rank);
    CollectedIdsCover(students, base, rank);
    CollectedIdsDistinct(students, base, rank);
  }

  lemma CollectedRowsAreStudents(students: seq<StudentRow>, base: nat, rank: string -> int)
    ensures forall x :: x in CollectRows(students, base, rank) ==>
      base <= x.id < base + |students| && x == StudentPaymentRow(students[x.id - base], x.id)
  {
    var numbered := NumberedRows(students, base);
    var r := CollectRows(students, base, rank);
    SortByPermutes(numbered, (x: PaymentRow) => rank(x.name));
    forall x | x in r ensures base <= x.id < base + |students| && x == StudentPaymentRow(students[x.id - base], x.id) {
      assert x in multiset(numbered);
      var k :| 0 <= k < |numbered| && numbered[k] == x;
    }
  }

  lemma CollectedIdsCover(students: seq<StudentRow>, base: nat, rank: string -> int)
    ensures forall id :: base <= id < base + |students| ==> HasRowId(CollectRows(students, base, rank), id)
  {
    var numbered := NumberedRows(students, base);
    var r := CollectRows(students, base, rank);
    SortByPermutes(numbered, (x: PaymentRow) => rank(x.name));
    forall id | base <= id < base + |students| ensures HasRowId(r, id) {
      var x := numbered[id - base];
      assert x in multiset(r);
      var k :| 0 <= k < |r| && r[k] == x;
    }
  }

  lemma CollectedIdsDistinct(students: seq<StudentRow>, base: nat, rank: string -> int)
    ensures var r := CollectRows(students, base, rank);
      forall i, j :: 0 <= i < j < |r| ==> r[i].id != r[j].id
  {
    var numbered := NumberedRows(students, base);
    var r := CollectRows(students, base, rank);
    SortByPermutes(numbered, (x: PaymentRow) => rank(x.name));
    NumberedNoDup(students, base);
    PermutationNoDup(numbered, r);
    CollectedRowsAreStudents(students, base, rank);
    forall i, j | 0 <= i < j < |r| ensures r[i].id != r[j].id {
      assert r[i] != r[j];
      DistinctRowsDistinctIds(r, students, base, i, j);
    }
  }

  /** Two different collected rows carry different ids: a row is fixed by its id. */
  lemma DistinctRowsDistinctIds(r: seq<PaymentRow>, students: seq<StudentRow>, base: nat, i: nat, j: nat)
    requires forall x :: x in r ==> base <= x.id < base + |students| && x == StudentPaymentRow(students[x.id - base], x.id)
    requires i < |r| && j < |r|
    ensures r[i] != r[j] ==> r[i].id != r[j].id
  {
    assert r[i] in r && r[j] in r;
  }

  lemma NumberedNoDup(students: seq<StudentRow>, base: nat)
    ensures NoDup(NumberedRows(students, base))
  {
    var numbered := NumberedRows(students, base);
    forall i, j | 0 <= i < j < |numbered| ensures numbered[i] != numbered[j] {
      assert numbered[i].id == base + i;
    }
  }

  /** Rows appended after the existing ones, the counter advanced past them. */
  function AppendRows(t: PaymentTable, rows: seq<PaymentRow>): (t': PaymentTable)
    ensures |t'.rows| == |t.rows| + |rows|
    ensures t'.rows[..|t.rows|] == t.rows && t'.rows[|t.rows|..] == rows
    ensures t'.nextRowId == t.nextRowId + |rows| && t'.title == t.title
  {
    assert (t.rows + rows)[..|t.rows|] == t.rows;
    t.(rows := t.rows + rows, nextRowId := t.nextRowId + |rows|)
  }

  /** `handleUpdateStudents`: each roster's students are numbered from the
      current page's row counter of the matching table, sorted by name, and
      appended to that table of the page carrying the current id. */
  ghost function UpdateStudents(data: AppData, rank: string -> int): (pd': PaymentSectionData)
    ensures pd'.currentPageId == data.payment.currentPageId && pd'.nextPageId == data.payment.nextPageId
    ensures |pd'.pages| == |data.payment.pages|
    ensures CurrentPage(data.payment).None? ==> pd' == data.payment
    ensures forall i :: 0 <= i < |data.payment.pages| && data.payment.pages[i].pageId != data.payment.currentPageId ==>
      pd'.pages[i] == data.payment.pages[i]
  {
    var pd := data.payment;
    match CurrentPage(pd)
    case None => pd
    case Some(cur) =>
      var e := CollectRows(RosterStudents(data.elementary.studentsData), cur.tables.elementary.nextRowId, rank);
      var m := CollectRows(RosterStudents(data.middle.studentsData), cur.tables.middle.nextRowId, rank);
      var h := CollectRows(RosterStudents(data.high.studentsData), cur.tables.high.nextRowId, rank);
      UpdateCurrentPage(pd, (p: PaymentPageData) => p.(tables := PaymentTables(
        AppendRows(p.tables.elementary, e), AppendRows(p.tables.middle, m), AppendRows(p.tables.high, h))))
  }

  /** The students of the roster for a table. */
  ghost function RosterFor(data: AppData, tt: TableType): seq<StudentRow> {
    match tt
    case Elementary => RosterStudents(data.elementary.studentsData)
    case Middle => RosterStudents(data.middle.studentsData)
    case High => RosterStudents(data.high.studentsData)
  }

  /** In a valid section, importing keeps the existing rows of each table of
      the current page as a prefix, appends exactly one row per roster
      student under the ids [nextRowId, nextRowId+n), advances the counter
      by n, and keeps the section valid. */
  lemma UpdateStudentsEffect(data: AppData, rank: string -> int, tt: TableType)
    requires Valid(data.payment)
    ensures Valid(UpdateStudents(data, rank))
    ensures var t := GetTable(CurrentPage(data.payment).value.tables, tt);
      var t' := GetTable(CurrentPage(UpdateStudents(data, rank)).value.tables, tt);
      var n := |RosterFor(data, tt)|;
      && t'.rows[..|t.rows|] == t.rows
      && t'.rows[|t.rows|..] == CollectRows(RosterFor(data, tt), t.nextRowId, rank)
      && |t'.rows| == |t.rows| + n
      && t'.nextRowId == t.nextRowId + n
      && t'.title == t.title
  {
    UpdateStudentsValid(data, rank);
    var pd := data.payment;
    var cur := CurrentPage(pd).value;
    var e := CollectRows(RosterStudents(data.elementary.studentsData), cur.tables.elementary.nextRowId, rank);
    var m := CollectRows(RosterStudents(data.middle.studentsData), cur.tables.middle.nextRowId, rank);
    var h := CollectRows(RosterStudents(data.high.studentsData), cur.tables.high.nextRowId, rank);
    var f := (p: PaymentPageData) => p.(tables := PaymentTables(
      AppendRows(p.tables.elementary, e), AppendRows(p.tables.middle, m), AppendRows(p.tables.high, h)));
    var i := UpdateCurrentPageEffect(pd, f);
    assert UpdateStudents(data, rank) == UpdateCurrentPage(pd, f);
  }

  /** Importing keeps the section valid: the new rows' ids are distinct and
      start at each table's counter. */
  lemma UpdateStudentsValid(data: AppData, rank: string -> int)
    requires Valid(data.payment)
    ensures Valid(UpdateStudents(data, rank))
  {
    var pd := data.payment;
    var cur := CurrentPage(pd).value;
    var e := CollectRows(RosterStudents(data.elementary.studentsData), cur.tables.elementary.nextRowId, rank);
    var m := CollectRows(RosterStudents(data.middle.studentsData), cur.tables.middle.nextRowId, rank);
    var h := CollectRows(RosterStudents(data.high.studentsData), cur.tables.high.nextRowId, rank);
    var f := (p: PaymentPageData) => p.(tables := PaymentTables(
      AppendRows(p.tables.elementary, e), AppendRows(p.tables.middle, m), AppendRows(p.tables.high, h)));
    var i := UpdateCurrentPageEffect(pd, f);
    var pd' := UpdateStudents(data, rank);
    assert pd' == UpdateCurrentPage(pd, f);
    CollectRowsContents(RosterStudents(data.elementary.studentsData), cur.tables.elementary.nextRowId, rank);
    CollectRowsContents(RosterStudents(data.middle.studentsData), cur.tables.middle.nextRowId, rank);
    CollectRowsContents(RosterStudents(data.high.studentsData), cur.tables.high.nextRowId, rank);
    AppendFresh(cur.tables.elementary, e);
    AppendFresh(cur.tables.middle, m);
    AppendFresh(cur.tables.high, h);
    assert pd'.pages[i].pageId == pd.currentPageId;
  }


  /** Appending rows whose ids are distinct and fill [nextRowId, nextRowId+n)
      keeps the row ids fresh. */
  lemma AppendFresh(t: PaymentTable, rows: seq<PaymentRow>)
    requires RowIdsFresh(t)
    requires forall x :: x in rows ==> t.nextRowId <= x.id < t.nextRowId + |rows|
    requires forall i, j :: 0 <= i < j < |rows| ==> rows[i].id != rows[j].id
    ensures RowIdsFresh(AppendRows(t, rows))
  {
    var t' := AppendRows(t, rows);
    var n := |t.rows|;
    forall i | 0 <= i < |t'.rows| ensures t'.rows[i].id < t'.nextRowId {
      if i >= n { assert t'.rows[i] == rows[i - n]; assert rows[i - n] in rows; }
    }
    forall i, j | 0 <= i < j < |t'.rows| ensures t'.rows[i].id != t'.rows[j].id {
      if j >= n {
        assert t'.rows[j] == rows[j - n];
        assert rows[j - n] in rows;
        if i >= n { assert t'.rows[i] == rows[i - n]; }
      }
    }
  }

  // ---------------------------------------------------------------------
  // Delete over a selection (`onClearCells` of the table grid)
  // ---------------------------------------------------------------------

  /** A grid coordinate that names a row and one of the seven columns. */
  predicate InGrid(c: CellPosition, rowCount: nat) {
    0 <= c.row < rowCount && 0 <= c.col < |Fields|
  }

  /** The chosen table of the current page; a page exists whenever the table
      is on screen. */
  function CurrentTable(pd: PaymentSectionData, tt: TableType): PaymentTable
    requires |pd.pages| > 0
  {
    GetTable(CurrentPage(pd).value.tables, tt)
  }

  /** One `onUpdateRow(rowData.id, field, '')` call, resolved against the
      rows the grid was rendered with, applied to the section `pd`. */
  function ClearOne(pd: PaymentSectionData, tt: TableType, rows: seq<PaymentRow>, c: CellPosition): (pd': PaymentSectionData)
    ensures |pd'.pages| == |pd.pages|
    ensures !InGrid(c, |rows|) ==> pd' == pd
  {
    if InGrid(c, |rows|) then UpdateRow(pd, tt, rows[c.row].id, Fields[c.col], "") else pd
  }

  /** The source as written: every call rebuilds the section from the same
      rendered `paymentData`, and `updateData` replaces the whole section, so
      the last in-grid cell's update is the only one that survives. */
  function ClearCellsAsWritten(pd: PaymentSectionData, tt: TableType, cells: seq<CellPosition>): (pd': PaymentSectionData)
    ensures |pd'.pages| == |pd.pages|
    ensures |pd.pages| > 0 && (forall k :: 0 <= k < |cells| ==> !InGrid(cells[k], |CurrentTable(pd, tt).rows|)) ==> pd' == pd
  {
    if |pd.pages| == 0 then pd
    else LastWins(pd, tt, CurrentTable(pd, tt).rows, cells)
  }

  function LastWins(pd: PaymentSectionData, tt: TableType, rows: seq<PaymentRow>, cells: seq<CellPosition>): (pd': PaymentSectionData)
    ensures |pd'.pages| == |pd.pages|
    ensures (forall k :: 0 <= k < |cells| ==> !InGrid(cells[k], |rows|)) ==> pd' == pd
  {
    if |cells| == 0 then pd
    else if InGrid(cells[|cells| - 1], |rows|) then ClearOne(pd, tt, rows, cells[|cells| - 1])
    else LastWins(pd, tt, rows, cells[..|cells| - 1])
  }

  /** A one-row table whose name and school are filled in. */
  const SampleSection := PaymentSectionData(
    [PaymentPageData(0, "p", PaymentTables(PaymentTable("", [PaymentRow(0, "a", "b", "", "", "", "", "")], 1), EmptyTable, EmptyTable))],
    0, 1)

  /** Deleting the selection (0,0)-(0,1) clears the school but leaves the
      name, although both cells were selected. */
  lemma StaleClearKeepsName()
    ensures var t := CurrentTable(ClearCellsAsWritten(SampleSection, Elementary, [CellPosition(0, 0), CellPosition(0, 1)]), Elementary);
      |t.rows| == 1 && t.rows[0].name == "a" && t.rows[0].school == ""
  {
    var pd := SampleSection;
    assert FirstPageWithId(pd.pages, 0, 0);
    var cells := [CellPosition(0, 0), CellPosition(0, 1)];
    assert ClearCellsAsWritten(pd, Elementary, cells) == UpdateRow(pd, Elementary, 0, School, "");
    var pd' := UpdateRow(pd, Elementary, 0, School, "");
    var t' := UpdateRowIn(pd.pages[0].tables.elementary, 0, School, "");
    assert pd'.pages[0] == pd.pages[0].(tables := SetTable(pd.pages[0].tables, Elementary, t'));
    assert FirstPageWithId(pd'.pages, 0, 0);
  }

  /** The same selection cleared one update after another empties both
      cells. */
  lemma SequentialClearEmptiesBoth()
    ensures var t := CurrentTable(ClearCells(SampleSection, Elementary, [CellPosition(0, 0), CellPosition(0, 1)]), Elementary);
      |t.rows| == 1 && t.rows[0].name == "" && t.rows[0].school == ""
  {
    var pd := SampleSection;
    var cells := [CellPosition(0, 0), CellPosition(0, 1)];
    assert FirstPageWithId(pd.pages, 0, 0);
    assert Valid(pd);
    ClearCellsClearsAll(pd, Elementary, cells);
    ClearEachClearsAll(pd, Elementary, CurrentTable(pd, Elementary).rows, cells);
    assert Cleared(ClearCells(pd, Elementary, cells), Elementary, cells[0]);
    assert Cleared(ClearCells(pd, Elementary, cells), Elementary, cells[1]);
  }

  /** Clear the cells one after another, each update applied to the result
      of the previous one. */
  function ClearEach(pd: PaymentSectionData, tt: TableType, rows: seq<PaymentRow>, cells: seq<CellPosition>): (pd': PaymentSectionData)
    ensures |pd'.pages| == |pd.pages|
    ensures Valid(pd) ==> Valid(pd')
    decreases |cells|
  {
    if |cells| == 0 then pd
    else ClearEach(ClearOne(pd, tt, rows, cells[0]), tt, rows, cells[1..])
  }

  /** Delete over a selection as evidently intended: every selected cell of
      the table is cleared. */
  function ClearCells(pd: PaymentSectionData, tt: TableType, cells: seq<CellPosition>): (pd': PaymentSectionData)
    ensures |pd'.pages| == |pd.pages|
    ensures Valid(pd) ==> Valid(pd')
  {
    if |pd.pages| == 0 then pd
    else ClearEach(pd, tt, CurrentTable(pd, tt).rows, cells)
  }

  /** The current table has the rendered rows' length and ids. */
  predicate SameShape(pd: PaymentSectionData, tt: TableType, rows: seq<PaymentRow>)
    requires |pd.pages| > 0
  {
    |CurrentTable(pd, tt).rows| == |rows| &&
    forall i :: 0 <= i < |rows| ==> CurrentTable(pd, tt).rows[i].id == rows[i].id
  }

  /** The field at (r, col) of the current table is empty. */
  predicate Cleared(pd: PaymentSectionData, tt: TableType, c: CellPosition)
    requires |pd.pages| > 0
  {
    InGrid(c, |CurrentTable(pd, tt).rows|) && GetField(CurrentTable(pd, tt).rows[c.row], Fields[c.col]) == ""
  }

  /** One clear keeps the shape, clears its cell and keeps every cleared
      cell cleared. */
  lemma ClearOneEffect(pd: PaymentSectionData, tt: TableType, rows: seq<PaymentRow>, c: CellPosition)
    requires Valid(pd) && SameShape(pd, tt, rows)
    ensures Valid(ClearOne(pd, tt, rows, c)) && SameShape(ClearOne(pd, tt, rows, c), tt, rows)
    ensures InGrid(c, |rows|) ==> Cleared(ClearOne(pd, tt, rows, c), tt, c)
    ensures forall d :: Cleared(pd, tt, d) ==> Cleared(ClearOne(pd, tt, rows, c), tt, d)
  {
    if InGrid(c, |rows|) {
      var g := (t: PaymentTable) => UpdateRowIn(t, rows[c.row].id, Fields[c.col], "");
      var i := EditTableEffect(pd, tt, g);
      var pd' := ClearOne(pd, tt, rows, c);
      assert pd' == EditTable(pd, tt, g);
      assert CurrentTable(pd', tt) == g(CurrentTable(pd, tt));
    }
  }

  /** Clearing one after another clears every selected in-grid cell. */
  lemma {:induction false} ClearEachClearsAll(pd: PaymentSectionData, tt: TableType, rows: seq<PaymentRow>, cells: seq<CellPosition>)
    requires Valid(pd) && SameShape(pd, tt, rows)
    ensures var pd' := ClearEach(pd, tt, rows, cells);
      && SameShape(pd', tt, rows)
      && (forall k :: 0 <= k < |cells| && InGrid(cells[k], |rows|) ==> Cleared(pd', tt, cells[k]))
      && (forall d :: Cleared(pd, tt, d) ==> Cleared(pd', tt, d))
    decreases |cells|
  {
    if |cells| > 0 {
      var next := ClearOne(pd, tt, rows, cells[0]);
      ClearOneEffect(pd, tt, rows, cells[0]);
      ClearEachClearsAll(next, tt, rows, cells[1..]);
      assert forall k :: 1 <= k < |cells| ==> cells[k] == cells[1..][k - 1];
    }
  }

  /** Every selected cell of the rendered table is empty afterwards. */
  lemma ClearCellsClearsAll(pd: PaymentSectionData, tt: TableType, cells: seq<CellPosition>)
    requires Valid(pd)
    ensures forall k :: 0 <= k < |cells| && InGrid(cells[k], |CurrentTable(pd, tt).rows|) ==>
      Cleared(ClearCells(pd, tt, cells), tt, cells[k])
  {
    ClearEachClearsAll(pd, tt, CurrentTable(pd, tt).rows, cells);
  }
}
