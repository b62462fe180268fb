/** One class table of a roster page: the level button and the student
    rows the table keeps in its own state. */
module ClassTable {
  import opened Seqs
  import opened Interfaces

  /** JavaScript's integer division truncated toward zero. */
  function JsQuot(a: int, b: int): int
    requires b > 0
  {
    if a >= 0 then a / b else -((-a) / b)
  }

  /** The integer remainder of JavaScript's `%`: truncating, so the result
      takes the sign of the dividend. */
  function JsRem(a: int, b: int): (r: int)
    requires b > 0
    ensures a >= 0 ==> 0 <= r < b
    ensures a < 0 ==> -b < r <= 0
    ensures a == JsQuot(a, b) * b + r
  {
    if a >= 0 then a % b
    else
      var q, m := (-a) / b, (-a) % b;
      assert -a == q * b + m;
      assert a == (-q) * b - m;
      -m
  }

  /** Six levels for the "E" (elementary) tables, three for every other tag. */
  function MaxLevelFor(level: string): (n: nat)
    ensures n == 6 || n == 3
  {
    if level == "E" then 6 else 3
  }

  /** `handleLevelClick`: the level reported to the page. */
  function LevelClick(level: string, currentLevel: int): (r: int)
    ensures 0 <= currentLevel ==> 1 <= r <= MaxLevelFor(level)
  {
    JsRem(currentLevel, MaxLevelFor(level)) + 1
  }

  /** For a non-negative level the result is a valid level. */
  lemma LevelClickRange(level: string, currentLevel: int)
    requires currentLevel >= 0
    ensures 1 <= LevelClick(level, currentLevel) <= MaxLevelFor(level)
  {
  }

  /** Levels cycle: k goes to k+1 below the top level and the top level
      goes back to 1. */
  lemma LevelClickCycles(level: string, k: int)
    requires 1 <= k <= MaxLevelFor(level)
    ensures LevelClick(level, k) == if k < MaxLevelFor(level) then k + 1 else 1
  {
  }

  /** A negative stored level maps to at most 1, and to at most 0 unless it
      is a multiple of the level count: such a level never gets back into
      range by clicking. */
  lemma LevelClickNegative(level: string, currentLevel: int)
    requires currentLevel < 0
    ensures LevelClick(level, currentLevel) <= 1
    ensures currentLevel % MaxLevelFor(level) != 0 ==> LevelClick(level, currentLevel) <= 0
  {
  }

  /** Clicking n times. */
  function Clicks(level: string, currentLevel: int, n: nat): int
    decreases n
  {
    if n == 0 then currentLevel else Clicks(level, LevelClick(level, currentLevel), n - 1)
  }

  /** Clicking as many times as there are levels returns to the start. */
  lemma {:induction false} FullCycle(level: string, k: int)
    requires 1 <= k <= MaxLevelFor(level)
    ensures Clicks(level, k, MaxLevelFor(level)) == k
  {
    var n := MaxLevelFor(level);
    ClicksFrom(level, k, n - k + 1);
    assert Clicks(level, k, n - k + 1) == 1;
    ClicksFrom(level, 1, k - 1);
    ClicksSplit(level, k, n - k + 1, k - 1);
  }

  /** From level k, j clicks with j <= max-k climb by j; one more wraps to 1. */
  lemma {:induction false} ClicksFrom(level: string, k: int, j: nat)
    requires 1 <= k <= MaxLevelFor(level) && j <= MaxLevelFor(level) - k + 1
    ensures Clicks(level, k, j) == if j == MaxLevelFor(level) - k + 1 then 1 else k + j
    decreases j
  {
    if j > 0 {
      LevelClickCycles(level, k);
      if k < MaxLevelFor(level) {
        ClicksFrom(level, k + 1, j - 1);
      }
    }
  }

  lemma {:induction false} ClicksSplit(level: string, k: int, a: nat, b: nat)
    ensures Clicks(level, k, a + b) == Clicks(level, Clicks(level, k, a), b)
    decreases a
  {
    if a > 0 {
      ClicksSplit(level, LevelClick(level, k), a - 1, b);
    }
  }

  // ---------------------------------------------------------------------
  // Student rows
  // ---------------------------------------------------------------------

  datatype TableState = TableState(studentRows: seq<StudentRow>, nextStudentId: nat)

  /** A table starts with no rows and the counter at 0. */
  const Initial := TableState([], 0)

  /** Student ids are distinct and below the counter. */
  predicate Valid(st: TableState) {
    (forall i :: 0 <= i < |st.studentRows| ==> st.studentRows[i].studentId < st.nextStudentId) &&
    (forall i, j :: 0 <= i < j < |st.studentRows| ==> st.studentRows[i].studentId != st.studentRows[j].studentId)
  }

  /** `handleAddStudent`: a blank row under the next id whose `idx` is the
      row count at that moment. */
  function AddStudent(st: TableState): (st': TableState)
    ensures st'.studentRows == st.studentRows + [StudentRow(st.nextStudentId, |st.studentRows|, "", "", "")]
    ensures st'.nextStudentId == st.nextStudentId + 1
    ensures Valid(st) ==> Valid(st')
  {
    TableState(st.studentRows + [StudentRow(st.nextStudentId, |st.studentRows|, "", "", "")], st.nextStudentId + 1)
  }

  /** `handleDeleteStudent`: after confirmation the rows with that id go;
      the stored `idx` of the others is kept, not renumbered. */
  function DeleteStudent(st: TableState, id: nat, confirmed: bool): (st': TableState)
    ensures !confirmed ==> st' == st
    ensures confirmed ==> forall r :: r in st'.studentRows <==> r in st.studentRows && r.studentId != id
    ensures confirmed ==> st'.studentRows == Filter(st.studentRows, (r: StudentRow) => r.studentId != id)
    ensures st'.nextStudentId == st.nextStudentId
    ensures Valid(st) ==> Valid(st')
  {
    if !confirmed then st
    else
      var keep := (r: StudentRow) => r.studentId != id;
      forall r ensures r in Filter(st.studentRows, keep) <==> r in st.studentRows && r.studentId != id {
        FilterMembers(st.studentRows, keep, r);
      }
      assert Valid(st) ==> Valid(st.(studentRows := Filter(st.studentRows, keep))) by {
        if Valid(st) {
          FilterKeepsDistinct(st.studentRows, keep, (r: StudentRow) => r.studentId);
          forall k | 0 <= k < |Filter(st.studentRows, keep)|
            ensures Filter(st.studentRows, keep)[k].studentId < st.nextStudentId
          {
            assert Filter(st.studentRows, keep)[k] in Filter(st.studentRows, keep);
          }
        }
      }
      st.(studentRows := Filter(st.studentRows, keep))
  }

  /** Rows added to a fresh table carry idx equal to their position. */
  lemma {:induction false} AddedIdxIsPosition(n: nat)
    ensures var st := AddAll(Initial, n);
      |st.studentRows| == n && st.nextStudentId == n &&
      forall i :: 0 <= i < n ==> st.studentRows[i].idx == i && st.studentRows[i].studentId == i
  {
    if n > 0 {
      AddedIdxIsPosition(n - 1);
    }
  }

  /** Adding n rows. */
  function AddAll(st: TableState, n: nat): TableState {
    if n == 0 then st else AddStudent(AddAll(st, n - 1))
  }

  /** Deleting row k of a table built by n additions removes exactly that
      row and leaves the others untouched, so every row after it now sits
      one place before the position its stored idx names: the table
      numbers rows by position, not by the stored idx. */
  lemma {:induction false} IdxNotRenumbered(n: nat, k: nat)
    requires k < n
    ensures var rows := AddAll(Initial, n).studentRows;
      var st := DeleteStudent(AddAll(Initial, n), k, true);
      && |rows| == n
      && st.studentRows == rows[..k] + rows[k + 1..]
      && (forall j :: 0 <= j < k ==> st.studentRows[j].idx == j)
      && (forall j :: k <= j < n - 1 ==> st.studentRows[j].idx == j + 1)
  {
    AddedIdxIsPosition(n);
    var st0 := AddAll(Initial, n);
    FilterOutPosition(st0.studentRows, k);
    assert DeleteStudent(st0, k, true).studentRows == Filter(st0.studentRows, (r: StudentRow) => r.studentId != k);
  }

  /** Rows whose ids are their positions: filtering out id k removes
      exactly position k. */
  lemma FilterOutPosition(rows: seq<StudentRow>, k: nat)
    requires k < |rows|
    requires forall i :: 0 <= i < |rows| ==> rows[i].studentId == i
    ensures Filter(rows, (r: StudentRow) => r.studentId != k) == rows[..k] + rows[k + 1..]
  {
    var keep := (r: StudentRow) => r.studentId != k;
    FilterRemovesOne(rows, keep, k);
  }
}
