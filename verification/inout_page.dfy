/** The intake/withdrawal page: a list of monthly tables, each marked
    신입 (new students) or 중퇴 (withdrawals), each with its own rows and
    row counter. Every handler rebuilds the whole section from the section it
    was rendered with. */
module InOutPage {
  import opened Seqs
  import opened AppDataTypes
  import opened NavigationTypes

  /** The editable columns of a row, left to right. */
  datatype InOutField = Name | School | Grade | Reason

  /** Column order of the table grid (`fieldMap`). */
  const Fields: seq<InOutField> := [Name, School, Grade, Reason]

  function GetField(r: InOutRow, f: InOutField): string {
    match f
    case Name => r.name
    case School => r.school
    case Grade => r.grade
    case Reason => r.reason
  }

  /** `{ ...row, [field]: value }`: the field reads back, nothing else moves. */
  function SetField(r: InOutRow, f: InOutField, v: string): (r': InOutRow)
    ensures GetField(r', f) == v
    ensures forall g :: g != f ==> GetField(r', g) == GetField(r, g)
    ensures r'.id == r.id
  {
    match f
    case Name => r.(name := v)
    case School => r.(school := v)
    case Grade => r.(grade := v)
    case Reason => r.(reason := v)
  }

  /** Row ids of a table are distinct and below its counter. */
  predicate RowIdsFresh(t: InOutTable) {
    (forall i :: 0 <= i < |t.rows| ==> t.rows[i].id < t.nextRowId) &&
    (forall i, j :: 0 <= i < j < |t.rows| ==> t.rows[i].id != t.rows[j].id)
  }

  /** Table ids are distinct and below the table counter; row ids are fresh
      in every table. */
  predicate Valid(sd: InOutSectionData) {
    (forall i :: 0 <= i < |sd.tables| ==> sd.tables[i].id < sd.nextTableId && RowIdsFresh(sd.tables[i])) &&
    (forall i, j :: 0 <= i < j < |sd.tables| ==> sd.tables[i].id != sd.tables[j].id)
  }

  /** `tables.map(t => t.id === tableId ? g(t) : t)`. */
  function MapTable(sd: InOutSectionData, tableId: nat, g: InOutTable -> InOutTable): (sd': InOutSectionData)
    ensures |sd'.tables| == |sd.tables| && sd'.nextTableId == sd.nextTableId
  {
    sd.(tables := seq(|sd.tables|, i requires 0 <= i < |sd.tables| =>
      if sd.tables[i].id == tableId then g(sd.tables[i]) else sd.tables[i]))
  }

  /** In a valid section a per-table edit changes the one table with that id
      and nothing else; with no such table it changes nothing. */
  lemma MapTableEffect(sd: InOutSectionData, tableId: nat, g: InOutTable -> InOutTable, i: nat)
    requires Valid(sd) && i < |sd.tables| && sd.tables[i].id == tableId
    ensures MapTable(sd, tableId, g).tables == sd.tables[i := g(sd.tables[i])]
  {
  }

  lemma MapTableMissing(sd: InOutSectionData, tableId: nat, g: InOutTable -> InOutTable)
    requires forall i :: 0 <= i < |sd.tables| ==> sd.tables[i].id != tableId
    ensures MapTable(sd, tableId, g) == sd
  {
    assert MapTable(sd, tableId, g).tables == sd.tables;
  }

  /** An edit that keeps table ids and fresh row ids keeps the section valid. */
  lemma MapTableValid(sd: InOutSectionData, tableId: nat, g: InOutTable -> InOutTable)
    requires Valid(sd)
    requires forall t :: g(t).id == t.id && (RowIdsFresh(t) ==> RowIdsFresh(g(t)))
    ensures Valid(MapTable(sd, tableId, g))
  {
    var sd' := MapTable(sd, tableId, g);
    assert forall i :: 0 <= i < |sd.tables| ==> sd'.tables[i].id == sd.tables[i].id;
  }

  // ---------------------------------------------------------------------
  // Tables
  // ---------------------------------------------------------------------

  /** `handleAddTable`: an empty 신입 table under the next table id. */
  function AddTable(sd: InOutSectionData): (sd': InOutSectionData)
    ensures sd'.tables == sd.tables + [InOutTable(sd.nextTableId, "", NewStudent, [], 0)]
    ensures sd'.nextTableId == sd.nextTableId + 1
    ensures Valid(sd) ==> Valid(sd')
  {
    InOutSectionData(sd.tables + [InOutTable(sd.nextTableId, "", NewStudent, [], 0)], sd.nextTableId + 1)
  }

  /** `handleDeleteTable`: after confirmation the tables with that id go;
      unlike the page lists, the last table may be deleted too. */
  function DeleteTable(sd: InOutSectionData, tableId: nat, confirmed: bool): (sd': InOutSectionData)
    ensures !confirmed ==> sd' == sd
    ensures confirmed ==> forall t :: t in sd'.tables <==> t in sd.tables && t.id != tableId
    ensures confirmed ==> sd'.tables == Filter(sd.tables, (t: InOutTable) => t.id != tableId)
    ensures sd'.nextTableId == sd.nextTableId
    ensures Valid(sd) ==> Valid(sd')
  {
    if !confirmed then sd
    else
      var keep := (t: InOutTable) => t.id != tableId;
      forall t ensures t in Filter(sd.tables, keep) <==> t in sd.tables && t.id != tableId {
        FilterMembers(sd.tables, keep, t);
      }
      assert Valid(sd) ==> Valid(sd.(tables := Filter(sd.tables, keep))) by {
        if Valid(sd) {
          FilterKeepsDistinct(sd.tables, keep, (t: InOutTable) => t.id);
          forall k | 0 <= k < |Filter(sd.tables, keep)|
            ensures Filter(sd.tables, keep)[k].id < sd.nextTableId && RowIdsFresh(Filter(sd.tables, keep)[k])
          {
            assert Filter(sd.tables, keep)[k] in Filter(sd.tables, keep);
          }
        }
      }
      sd.(tables := Filter(sd.tables, keep))
  }

  /** Deleting the only table leaves none: there is no last-table guard. */
  lemma DeleteOnlyTable(sd: InOutSectionData)
    requires |sd.tables| == 1
    ensures DeleteTable(sd, sd.tables[0].id, true).tables == []
  {
    var r := DeleteTable(sd, sd.tables[0].id, true).tables;
    assert forall t :: t !in r;
  }

  /** The two header fields of a table the page can set. */
  datatype HeaderEdit = SetMonth(month: string) | SetKind(kind: InOutType)

  /** `{ ...table, month }` or `{ ...table, type }`: one header field is
      replaced; the id and the rows stay. */
  function ApplyHeader(t: InOutTable, e: HeaderEdit): (t': InOutTable)
    ensures t'.id == t.id && t'.rows == t.rows && t'.nextRowId == t.nextRowId
    ensures e.SetMonth? ==> t'.month == e.month && t'.kind == t.kind
    ensures e.SetKind? ==> t'.kind == e.kind && t'.month == t.month
  {
    match e
    case SetMonth(month) => t.(month := month)
    case SetKind(kind) => t.(kind := kind)
  }

  /** `handleUpdateMonth` and `handleUpdateType`: only the tables with that
      id take the new header field; the list keeps its length and order. */
  function UpdateHeader(sd: InOutSectionData, tableId: nat, e: HeaderEdit): (sd': InOutSectionData)
    ensures |sd'.tables| == |sd.tables| && sd'.nextTableId == sd.nextTableId
    ensures forall i :: 0 <= i < |sd.tables| ==>
      sd'.tables[i] == if sd.tables[i].id == tableId then ApplyHeader(sd.tables[i], e) else sd.tables[i]
    ensures Valid(sd) ==> Valid(sd')
  {
    var g := (t: InOutTable) => ApplyHeader(t, e);
    assert Valid(sd) ==> Valid(MapTable(sd, tableId, g)) by {
      if Valid(sd) { MapTableValid(sd, tableId, g); }
    }
    MapTable(sd, tableId, g)
  }

  /** `handleUpdateMonth`. */
  function UpdateMonth(sd: InOutSectionData, tableId: nat, month: string): InOutSectionData {
    UpdateHeader(sd, tableId, SetMonth(month))
  }

  /** `handleUpdateType`. */
  function UpdateType(sd: InOutSectionData, tableId: nat, kind: InOutType): InOutSectionData {
    UpdateHeader(sd, tableId, SetKind(kind))
  }

  // ---------------------------------------------------------------------
  // Rows
  // ---------------------------------------------------------------------

  function BlankRow(id: nat): InOutRow {
    InOutRow(id, "", "", "", "")
  }

  /** A blank row under the table's next row id; only this table's counter
      moves. */
  function AddRowTo(t: InOutTable): (t': InOutTable)
    ensures t'.rows == t.rows + [BlankRow(t.nextRowId)]
    ensures forall f :: GetField(t'.rows[|t.rows|], f) == ""
    ensures t'.nextRowId == t.nextRowId + 1
    ensures t'.id == t.id && t'.month == t.month && t'.kind == t.kind
    ensures RowIdsFresh(t) ==> RowIdsFresh(t')
  {
    t.(rows := t.rows + [BlankRow(t.nextRowId)], nextRowId := t.nextRowId + 1)
  }

  /** `handleAddRow`. */
  function AddRow(sd: InOutSectionData, tableId: nat): (sd': InOutSectionData)
    ensures Valid(sd) ==> Valid(sd')
  {
    assert Valid(sd) ==> Valid(MapTable(sd, tableId, AddRowTo)) by {
      if Valid(sd) { MapTableValid(sd, tableId, AddRowTo); }
    }
    MapTable(sd, tableId, AddRowTo)
  }

  /** The rows with that id go; the counter stays. */
  function DeleteRowFrom(t: InOutTable, rowId: nat): (t': InOutTable)
    ensures forall r :: r in t'.rows <==> r in t.rows && r.id != rowId
    ensures t'.rows == Filter(t.rows, (r: InOutRow) => r.id != rowId)
    ensures t'.nextRowId == t.nextRowId && t'.id == t.id && t'.month == t.month && t'.kind == t.kind
    ensures RowIdsFresh(t) ==> RowIdsFresh(t')
  {
    var keep := (r: InOutRow) => r.id != rowId;
    forall r ensures r in Filter(t.rows, keep) <==> r in t.rows && r.id != rowId {
      FilterMembers(t.rows, keep, r);
    }
    assert RowIdsFresh(t) ==> RowIdsFresh(t.(rows := Filter(t.rows, keep))) by {
      if RowIdsFresh(t) {
        FilterKeepsDistinct(t.rows, keep, (x: InOutRow) => x.id);
        forall k | 0 <= k < |Filter(t.rows, keep)| ensures Filter(t.rows, keep)[k].id < t.nextRowId {
          assert Filter(t.rows, keep)[k] in Filter(t.rows, keep);
        }
      }
    }
    t.(rows := Filter(t.rows, keep))
  }

  /** `handleDeleteRow`: unconfirmed deletes change nothing. */
  function DeleteRow(sd: InOutSectionData, tableId: nat, rowId: nat, confirmed: bool): (sd': InOutSectionData)
    ensures !confirmed ==> sd' == sd
    ensures Valid(sd) ==> Valid(sd')
  {
    if !confirmed then sd
    else
      var g := (t: InOutTable) => DeleteRowFrom(t, rowId);
      assert Valid(sd) ==> Valid(MapTable(sd, tableId, g)) by {
        if Valid(sd) { MapTableValid(sd, tableId, g); }
      }
      MapTable(sd, tableId, g)
  }

  /** One field of the rows with that id. */
  function UpdateRowIn(t: InOutTable, rowId: nat, f: InOutField, v: string): (t': InOutTable)
    ensures |t'.rows| == |t.rows|
    ensures forall i :: 0 <= i < |t.rows| ==> t'.rows[i].id == t.rows[i].id
    ensures forall i :: 0 <= i < |t.rows| && t.rows[i].id == rowId ==> GetField(t'.rows[i], f) == v
    ensures forall i, g :: 0 <= i < |t.rows| && (t.rows[i].id != rowId || g != f) ==>
      GetField(t'.rows[i], g) == GetField(t.rows[i], g)
    ensures t'.nextRowId == t.nextRowId && t'.id == t.id && t'.month == t.month && t'.kind == t.kind
    ensures RowIdsFresh(t) ==> RowIdsFresh(t')
  {
    t.(rows := seq(|t.rows|, i requires 0 <= i < |t.rows| =>
      if t.rows[i].id == rowId then SetField(t.rows[i], f, v) else t.rows[i]))
  }

  /** `handleUpdateRow`. */
  function UpdateRow(sd: InOutSectionData, tableId: nat, rowId: nat, f: InOutField, v: string): (sd': InOutSectionData)
    ensures |sd'.tables| == |sd.tables|
    ensures Valid(sd) ==> Valid(sd')
  {
    var g := (t: InOutTable) => UpdateRowIn(t, rowId, f, v);
    assert Valid(sd) ==> Valid(MapTable(sd, tableId, g)) by {
      if Valid(sd) { MapTableValid(sd, tableId, g); }
    }
    MapTable(sd, tableId, g)
  }

  // ---------------------------------------------------------------------
  // Delete over a selection (`onClearCells` of a table grid)
  // ---------------------------------------------------------------------

  /** A coordinate naming a row of the rendered table and one of its four
      columns; all other coordinates are ignored. */
  predicate InGrid(c: CellPosition, rowCount: nat) {
    0 <= c.row < rowCount && 0 <= c.col < |Fields|
  }

  /** One `onUpdateRow(rowData.id, field, '')` call for the rendered table. */
  function ClearOne(sd: InOutSectionData, table: InOutTable, c: CellPosition): (sd': InOutSectionData)
    ensures |sd'.tables| == |sd.tables|
    ensures !InGrid(c, |table.rows|) ==> sd' == sd
  {
    if InGrid(c, |table.rows|) then UpdateRow(sd, table.id, table.rows[c.row].id, Fields[c.col], "") else sd
  }

  /** The source as written: each call rebuilds the section from the same
      rendered `inoutData`, and `updateData` replaces the whole section, so
      only the last in-grid cell's update survives. */
  function ClearCellsAsWritten(sd: InOutSectionData, table: InOutTable, cells: seq<CellPosition>): (sd': InOutSectionData)
    ensures |sd'.tables| == |sd.tables|
    ensures (forall k :: 0 <= k < |cells| ==> !InGrid(cells[k], |table.rows|)) ==> sd' == sd
  {
    if |cells| == 0 then sd
    else if InGrid(cells[|cells| - 1], |table.rows|) then ClearOne(sd, table, cells[|cells| - 1])
    else ClearCellsAsWritten(sd, table, cells[..|cells| - 1])
  }

  const SampleTable := InOutTable(0, "", NewStudent, [InOutRow(0, "a", "b", "", "")], 1)

  /** One table with one row whose name and school are filled in. */
  const SampleSection := InOutSectionData([SampleTable], 1)

  /** Deleting the selection (0,0)-(0,1) clears the school but leaves the
      name, although both cells were selected. */
  lemma StaleClearKeepsName()
    ensures var ts := ClearCellsAsWritten(SampleSection, SampleTable, [CellPosition(0, 0), CellPosition(0, 1)]).tables;
      |ts| == 1 && |ts[0].rows| == 1 && ts[0].rows[0].name == "a" && ts[0].rows[0].school == ""
  {
    var cells := [CellPosition(0, 0), CellPosition(0, 1)];
    assert ClearCellsAsWritten(SampleSection, SampleTable, cells) == UpdateRow(SampleSection, 0, 0, School, "");
    MapTableEffect(SampleSection, 0, (t: InOutTable) => UpdateRowIn(t, 0, School, ""), 0);
  }

  /** Delete over a selection as evidently intended: the cells are cleared
      one after another, each update applied to the previous result. */
  function ClearCells(sd: InOutSectionData, table: InOutTable, cells: seq<CellPosition>): (sd': InOutSectionData)
    ensures |sd'.tables| == |sd.tables|
    ensures Valid(sd) ==> Valid(sd')
    decreases |cells|
  {
    if |cells| == 0 then sd
    else ClearCells(ClearOne(sd, table, cells[0]), table, cells[1..])
  }

  /** Table i still has the rendered table's id, row count and row ids. */
  predicate SameShape(sd: InOutSectionData, i: nat, table: InOutTable) {
    i < |sd.tables| && sd.tables[i].id == table.id && |sd.tables[i].rows| == |table.rows| &&
    forall r :: 0 <= r < |table.rows| ==> sd.tables[i].rows[r].id == table.rows[r].id
  }

  /** The field at c of table i is empty. */
  predicate Cleared(sd: InOutSectionData, i: nat, c: CellPosition) {
    i < |sd.tables| && InGrid(c, |sd.tables[i].rows|) && GetField(sd.tables[i].rows[c.row], Fields[c.col]) == ""
  }

  lemma ClearOneEffect(sd: InOutSectionData, i: nat, table: InOutTable, c: CellPosition)
    requires Valid(sd) && SameShape(sd, i, table)
    ensures SameShape(ClearOne(sd, table, c), i, table)
    ensures InGrid(c, |table.rows|) ==> Cleared(ClearOne(sd, table, c), i, c)
    ensures forall d :: Cleared(sd, i, d) ==> Cleared(ClearOne(sd, table, c), i, d)
  {
    if InGrid(c, |table.rows|) {
      var g := (t: InOutTable) => UpdateRowIn(t, table.rows[c.row].id, Fields[c.col], "");
      MapTableEffect(sd, table.id, g, i);
    }
  }

  lemma {:induction false} ClearCellsEffect(sd: InOutSectionData, i: nat, table: InOutTable, cells: seq<CellPosition>)
    requires Valid(sd) && SameShape(sd, i, table)
    ensures var sd' := ClearCells(sd, table, cells);
      && SameShape(sd', i, table)
      && (forall k :: 0 <= k < |cells| && InGrid(cells[k], |table.rows|) ==> Cleared(sd', i, cells[k]))
      && (forall d :: Cleared(sd, i, d) ==> Cleared(sd', i, d))
    decreases |cells|
  {
    if |cells| > 0 {
      ClearOneEffect(sd, i, table, cells[0]);
      ClearCellsEffect(ClearOne(sd, table, cells[0]), i, table, cells[1..]);
      assert forall k :: 1 <= k < |cells| ==> cells[k] == cells[1..][k - 1];
    }
  }

  /** Clearing the rendered table i empties every selected in-grid cell. */
  lemma ClearCellsClearsAll(sd: InOutSectionData, i: nat, cells: seq<CellPosition>)
    requires Valid(sd) && i < |sd.tables|
    ensures forall k :: 0 <= k < |cells| && InGrid(cells[k], |sd.tables[i].rows|) ==>
      Cleared(ClearCells(sd, sd.tables[i], cells), i, cells[k])
  {
    ClearCellsEffect(sd, i, sd.tables[i], cells);
  }
}
