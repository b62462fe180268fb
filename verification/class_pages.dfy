/** The three roster pages (elementary, middle and high school). They differ
    only in their number of levels, so one module parameterised by the
    division models all three. */
module ClassPages {
  import opened Seqs
  import opened Interfaces
  import opened AppDataTypes

  datatype Division = Elementary | Middle | High

  /** Elementary school has levels 1..6, middle and high school 1..3. */
  function MaxLevel(d: Division): (n: nat)
    ensures n == 6 || n == 3
  {
    if d == Elementary then 6 else 3
  }

  /** [1, 2, ..., MaxLevel(d)]. */
  function AllLevels(d: Division): (r: seq<int>)
    ensures |r| == MaxLevel(d)
    ensures forall i :: 0 <= i < |r| ==> r[i] == i + 1
  {
    if d == Elementary then [1, 2, 3, 4, 5, 6] else [1, 2, 3]
  }

  /** Class ids are distinct and below the id counter. */
  predicate Valid(cs: ClassSectionData) {
    (forall i :: 0 <= i < |cs.classes| ==> cs.classes[i].tableId < cs.nextId) &&
    (forall i, j :: 0 <= i < j < |cs.classes| ==> cs.classes[i].tableId != cs.classes[j].tableId)
  }

  // ---------------------------------------------------------------------
  // Classes
  // ---------------------------------------------------------------------

  /** `handleAddClass`: a level-1 class without name or teacher under the
      next id, with an empty student list stored under the same id. */
  function AddClass(cs: ClassSectionData): (cs': ClassSectionData)
    ensures cs'.classes == cs.classes + [RosterClass(cs.nextId, 1, "", "")]
    ensures cs'.studentsData == cs.studentsData[cs.nextId := ClassStudentsData([], 0)]
    ensures cs'.nextId == cs.nextId + 1
    ensures Valid(cs) ==> Valid(cs')
  {
    ClassSectionData(
      cs.classes + [RosterClass(cs.nextId, 1, "", "")],
      cs.nextId + 1,
      cs.studentsData[cs.nextId := ClassStudentsData([], 0)])
  }

  /** `handleDeleteClass`: after confirmation the class and its student
      list go; every other class and student list stays. */
  function DeleteClass(cs: ClassSectionData, id: nat, confirmed: bool): (cs': ClassSectionData)
    ensures !confirmed ==> cs' == cs
    ensures confirmed ==> forall c :: c in cs'.classes <==> c in cs.classes && c.tableId != id
    ensures confirmed ==> cs'.classes == Filter(cs.classes, (c: RosterClass) => c.tableId != id)
    ensures confirmed ==> cs'.studentsData.Keys == cs.studentsData.Keys - {id}
    ensures forall k :: k in cs'.studentsData ==> k in cs.studentsData && cs'.studentsData[k] == cs.studentsData[k]
    ensures cs'.nextId == cs.nextId
    ensures Valid(cs) ==> Valid(cs')
  {
    if !confirmed then cs
    else
      var keep := (c: RosterClass) => c.tableId != id;
      forall c ensures c in Filter(cs.classes, keep) <==> c in cs.classes && c.tableId != id {
        FilterMembers(cs.classes, keep, c);
      }
      assert Valid(cs) ==> Valid(cs.(classes := Filter(cs.classes, keep))) by {
        if Valid(cs) {
          FilterKeepsDistinct(cs.classes, keep, (c: RosterClass) => c.tableId);
          forall k | 0 <= k < |Filter(cs.classes, keep)| ensures Filter(cs.classes, keep)[k].tableId < cs.nextId {
            assert Filter(cs.classes, keep)[k] in Filter(cs.classes, keep);
          }
        }
      }
      ClassSectionData(Filter(cs.classes, keep), cs.nextId, cs.studentsData - {id})
  }

  /** `classes.map(c => c.tableId === tableId ? g(c) : c)`. */
  function MapClass(cs: ClassSectionData, tableId: nat, g: RosterClass -> RosterClass): (cs': ClassSectionData)
    ensures |cs'.classes| == |cs.classes|
    ensures cs'.nextId == cs.nextId && cs'.studentsData == cs.studentsData
  {
    cs.(classes := seq(|cs.classes|, i requires 0 <= i < |cs.classes| =>
      if cs.classes[i].tableId == tableId then g(cs.classes[i]) else cs.classes[i]))
  }

  /** `handleLevelChange`: only the class with that id gets the new level. */
  function LevelChange(cs: ClassSectionData, tableId: nat, newLevel: int): (cs': ClassSectionData)
    ensures |cs'.classes| == |cs.classes|
    ensures forall i :: 0 <= i < |cs.classes| ==>
      cs'.classes[i] == if cs.classes[i].tableId == tableId then cs.classes[i].(currentLevel := newLevel) else cs.classes[i]
    ensures cs'.nextId == cs.nextId && cs'.studentsData == cs.studentsData
    ensures Valid(cs) ==> Valid(cs')
  {
    var cs' := MapClass(cs, tableId, (c: RosterClass) => c.(currentLevel := newLevel));
    assert forall i :: 0 <= i < |cs.classes| ==> cs'.classes[i].tableId == cs.classes[i].tableId;
    cs'
  }

  /** `handleClassInfoChange`: only the class with that id gets the new name
      and teacher. */
  function ClassInfoChange(cs: ClassSectionData, tableId: nat, className: string, teacher: string): (cs': ClassSectionData)
    ensures |cs'.classes| == |cs.classes|
    ensures forall i :: 0 <= i < |cs.classes| ==>
      cs'.classes[i] == if cs.classes[i].tableId == tableId then cs.classes[i].(className := className, teacher := teacher) else cs.classes[i]
    ensures cs'.nextId == cs.nextId && cs'.studentsData == cs.studentsData
    ensures Valid(cs) ==> Valid(cs')
  {
    var cs' := MapClass(cs, tableId, (c: RosterClass) => c.(className := className, teacher := teacher));
    assert forall i :: 0 <= i < |cs.classes| ==> cs'.classes[i].tableId == cs.classes[i].tableId;
    cs'
  }

  /** `handleStudentsChange`: the student list under that id is replaced
      (or created); classes and other lists are untouched. */
  function StudentsChange(cs: ClassSectionData, tableId: nat, students: seq<StudentRow>, nextStudentId: nat): (cs': ClassSectionData)
    ensures cs'.studentsData.Keys == cs.studentsData.Keys + {tableId}
    ensures cs'.studentsData[tableId] == ClassStudentsData(students, nextStudentId)
    ensures forall k :: k in cs.studentsData && k != tableId ==> cs'.studentsData[k] == cs.studentsData[k]
    ensures cs'.classes == cs.classes && cs'.nextId == cs.nextId
  {
    cs.(studentsData := cs.studentsData[tableId := ClassStudentsData(students, nextStudentId)])
  }

  // ---------------------------------------------------------------------
  // Sorting
  // ---------------------------------------------------------------------

  function LevelOf(c: RosterClass): int { c.currentLevel }

  /** The classes in the order `sort((a, b) => a.currentLevel - b.currentLevel)`
      leaves them. */
  function SortedClasses(cs: ClassSectionData): (r: seq<RosterClass>)
    ensures |r| == |cs.classes|
  {
    SortBy(cs.classes, LevelOf)
  }

  /** `handleSort`: classes ordered by level, ids renumbered by position,
      each student list moved to its class's new id, and the counter reset
      to the number of classes. */
  function Sort(cs: ClassSectionData): (cs': ClassSectionData)
    ensures |cs'.classes| == |cs.classes| && cs'.nextId == |cs.classes|
  {
    var sorted := SortedClasses(cs);
    ClassSectionData(
      seq(|sorted|, i requires 0 <= i < |sorted| => sorted[i].(tableId := i)),
      |sorted|,
      map i: nat | i < |sorted| && sorted[i].tableId in cs.studentsData :: cs.studentsData[sorted[i].tableId])
  }

  /** After sorting, levels never decrease, class i has id i, the counter
      is the class count, the section is valid, and the classes are the old
      ones (as a multiset) apart from their ids. */
  lemma SortOrders(cs: ClassSectionData)
    ensures var cs' := Sort(cs);
      && Valid(cs')
      && (forall i, j :: 0 <= i < j < |cs'.classes| ==> cs'.classes[i].currentLevel <= cs'.classes[j].currentLevel)
      && (forall i :: 0 <= i < |cs'.classes| ==> cs'.classes[i].tableId == i)
      && multiset(SortedClasses(cs)) == multiset(cs.classes)
      && forall i :: 0 <= i < |cs'.classes| ==> cs'.classes[i] == SortedClasses(cs)[i].(tableId := i)
  {
    SortBySorted(cs.classes, LevelOf);
    SortByPermutes(cs.classes, LevelOf);
  }

  /** The sort is stable: the classes of each level keep their relative
      order. */
  lemma SortStable(cs: ClassSectionData, level: int)
    ensures WithKey(SortedClasses(cs), LevelOf, level) == WithKey(cs.classes, LevelOf, level)
  {
    SortByStable(cs.classes, LevelOf, level);
  }

  /** Student lists follow their class: the list now under id i is the one
      that was under the old id of the class now at position i, and there
      is none when that class had none. */
  lemma SortMovesStudents(cs: ClassSectionData)
    ensures var cs' := Sort(cs);
      && (forall k :: k in cs'.studentsData ==> k < |cs'.classes|)
      && forall i :: 0 <= i < |cs'.classes| ==>
           (i in cs'.studentsData <==> SortedClasses(cs)[i].tableId in cs.studentsData) &&
           (i in cs'.studentsData ==> cs'.studentsData[i] == cs.studentsData[SortedClasses(cs)[i].tableId])
  {
  }

  // ---------------------------------------------------------------------
  // Level filter
  // ---------------------------------------------------------------------

  /** `handleToggleLevel`: remove the level if selected, else append it. */
  function ToggleLevel(levels: seq<int>, level: int): (r: seq<int>)
    ensures level in r <==> level !in levels
    ensures forall l :: l != level ==> (l in r <==> l in levels)
  {
    if level in levels then
      var keep := (l: int) => l != level;
      forall l ensures l in Filter(levels, keep) <==> l in levels && l != level {
        FilterMembers(levels, keep, l);
      }
      Filter(levels, keep)
    else levels + [level]
  }

  /** Toggling never creates duplicates. */
  lemma ToggleKeepsNoDup(levels: seq<int>, level: int)
    requires NoDup(levels)
    ensures NoDup(ToggleLevel(levels, level))
  {
    if level in levels {
      FilterKeepsDistinct(levels, (l: int) => l != level, (l: int) => l);
    }
  }

  /** Toggling the same level twice selects the same levels as before. */
  lemma ToggleTwice(levels: seq<int>, level: int, l: int)
    ensures l in ToggleLevel(ToggleLevel(levels, level), level) <==> l in levels
  {
  }

  /** `handleToggleAll`: a selection of full length is cleared, anything
      else becomes every level. */
  function ToggleAll(d: Division, levels: seq<int>): (r: seq<int>)
    ensures |levels| == MaxLevel(d) ==> r == []
    ensures |levels| != MaxLevel(d) ==> forall l :: l in r <==> 1 <= l <= MaxLevel(d)
  {
    if |levels| == MaxLevel(d) then [] else AllLevels(d)
  }

  /** `filteredClasses`: the classes whose level is selected, in order. */
  function FilteredClasses(classes: seq<RosterClass>, levels: seq<int>): (r: seq<RosterClass>)
    ensures forall c :: c in r <==> c in classes && c.currentLevel in levels
  {
    var keep := (c: RosterClass) => c.currentLevel in levels;
    forall c ensures c in Filter(classes, keep) <==> c in classes && c.currentLevel in levels {
      FilterMembers(classes, keep, c);
    }
    Filter(classes, keep)
  }

  /** The filter preserves order: filtering a concatenation concatenates
      the filtered parts. */
  lemma FilteredClassesOrder(a: seq<RosterClass>, b: seq<RosterClass>, levels: seq<int>)
    ensures FilteredClasses(a + b, levels) == FilteredClasses(a, levels) + FilteredClasses(b, levels)
  {
    FilterAppend(a, b, (c: RosterClass) => c.currentLevel in levels);
  }

  /** With every level selected (the page's initial filter), every class
      with a level in range is shown. */
  lemma AllLevelsShowAll(d: Division, classes: seq<RosterClass>)
    requires forall i :: 0 <= i < |classes| ==> 1 <= classes[i].currentLevel <= MaxLevel(d)
    ensures FilteredClasses(classes, AllLevels(d)) == classes
  {
    var keep := (c: RosterClass) => c.currentLevel in AllLevels(d);
    FilterAll(classes, keep);
  }
}
