/**
 * Construction of the course catalog from the three source tables and the
 * embedded prerequisite table: rename to the canonical labels, left-merge
 * the semester-wise table with the slot table on `CourseNo` and with the
 * category table on `Category`, keep the first row of each `CourseNo`, and
 * left-merge the prerequisites.
 */
module KnowledgeBase {
  import opened Wrappers
  import opened Seqs
  import opened Frames

  /** `Course Number` is called `CourseNo` in the semester-wise table. */
  function StandardizeSemWise(t: Table): Table {
    RenameColumn(t, "Course Number", "CourseNo")
  }

  /** `BaseCourseNo` is called `CourseNo` in the slot table. */
  function StandardizeSlotWise(t: Table): Table {
    RenameColumn(t, "BaseCourseNo", "CourseNo")
  }

  /** `Code` is called `Category` and `Course Category` is called `CourseType` in the category table. */
  function StandardizeCourseTypes(t: Table): Table {
    RenameColumn(RenameColumn(t, "Code", "Category"), "Course Category", "CourseType")
  }

  /**
   * The prerequisite table embedded in the builder as CSV text: each line's
   * course number and prerequisite cell, as pandas reads them (an empty
   * field is missing, and the comment line becomes a row whose `CourseNo` is
   * the whole line).
   */
  const PREREQUISITE_ENTRIES: seq<(string, Cell)> := [
    ("AM1100", Null),
    ("AS2010", Null),
    ("AS2030", Null),
    ("AS2040", Null),
    ("AS2050", Null),
    ("AS2070", Str("AS2010")),
    ("AS2080", Str("AM1100")),
    ("# ... (and so on for all other prerequisites)", Null),
    ("CS3500", Str("CS2600;CS2700"))
  ]

  /** The embedded prerequisite table, one row per CSV line. */
  const PREREQUISITE_DATA: Table := Table({"CourseNo", "Prerequisite"}, PrerequisiteRows(PREREQUISITE_ENTRIES))

  /** One row per entry: its course number and its prerequisite cell. */
  function PrerequisiteRows(entries: seq<(string, Cell)>): (rows: seq<Row>)
    ensures |rows| == |entries|
    ensures forall i :: 0 <= i < |entries| ==> rows[i] == map["CourseNo" := Str(entries[i].0), "Prerequisite" := entries[i].1]
  {
    if entries == [] then []
    else [map["CourseNo" := Str(entries[0].0), "Prerequisite" := entries[0].1]] + PrerequisiteRows(entries[1..])
  }

  /** The columns the merges and the deduplication look up; a missing one makes pandas raise. */
  predicate Mergeable(sem: Table, slots: Table, types: Table) {
    && "CourseNo" in sem.columns && "Category" in sem.columns
    && "CourseNo" in slots.columns && "Slot" in slots.columns
    && "Category" in types.columns && "CourseType" in types.columns
  }

  /**
   * A renaming that gives a merge key a second column with the same label:
   * the table already has the canonical label beside the one renamed to it,
   * and pandas refuses to merge on a label that is not unique.
   */
  predicate KeyLabelClash(semWise: Table, slotWise: Table, courseTypes: Table) {
    || ("Course Number" in semWise.columns && "CourseNo" in semWise.columns)
    || ("BaseCourseNo" in slotWise.columns && "CourseNo" in slotWise.columns)
    || ("Code" in courseTypes.columns && "Category" in courseTypes.columns)
  }

  /** The two core merges, before deduplication. */
  function MergedRows(sem: seq<Row>, slots: seq<Row>, types: seq<Row>): seq<Row> {
    LeftJoinRows(LeftJoinRows(sem, slots, "CourseNo", "Slot"), types, "Category", "CourseType")
  }

  /** The catalog rows: the merges, the first row per course, and the prerequisite merge. */
  function CatalogRows(sem: seq<Row>, slots: seq<Row>, types: seq<Row>, prereqs: seq<Row>): seq<Row> {
    LeftJoinRows(DropDuplicates(MergedRows(sem, slots, types), "CourseNo"), prereqs, "CourseNo", "Prerequisite")
  }

  /**
   * The catalog, or `None` when a source table could not be read (`None`
   * stands for the missing file), when a renaming duplicates a merge key, or
   * when a table lacks a column the merges need. The prerequisites merged
   * are the embedded table, whose only columns are `CourseNo` and
   * `Prerequisite`.
   */
  function CreateKnowledgeBase(semWise: Option<Table>, slotWise: Option<Table>, courseTypes: Option<Table>): (r: Option<Table>)
    ensures r.Some? <==> semWise.Some? && slotWise.Some? && courseTypes.Some?
                         && !KeyLabelClash(semWise.value, slotWise.value, courseTypes.value)
                         && Mergeable(StandardizeSemWise(semWise.value), StandardizeSlotWise(slotWise.value),
                                      StandardizeCourseTypes(courseTypes.value))
    ensures r.Some? ==> r.value.columns == StandardizeSemWise(semWise.value).columns + {"Slot", "CourseType", "Prerequisite"}
    ensures r.Some? ==> r.value.rows == CatalogRows(StandardizeSemWise(semWise.value).rows, StandardizeSlotWise(slotWise.value).rows,
                                                    StandardizeCourseTypes(courseTypes.value).rows, PREREQUISITE_DATA.rows)
  {
    if semWise.None? || slotWise.None? || courseTypes.None? then None
    else
      var sem := StandardizeSemWise(semWise.value);
      var slots := StandardizeSlotWise(slotWise.value);
      var types := StandardizeCourseTypes(courseTypes.value);
      if KeyLabelClash(semWise.value, slotWise.value, courseTypes.value) || !Mergeable(sem, slots, types) then None
      else
        var master := MergedRows(sem.rows, slots.rows, types.rows);
        var deduped := DropDuplicates(master, "CourseNo");
        Some(Table(sem.columns + {"Slot", "CourseType", "Prerequisite"},
                   LeftJoinRows(deduped, PREREQUISITE_DATA.rows, "CourseNo", "Prerequisite")))
  }

  /** The catalog row built from the first semester-wise row `l` of a course. */
  function CatalogRow(l: Row, slots: seq<Row>, types: seq<Row>, prereqs: seq<Row>): Row {
    l["Slot" := FirstMatch(slots, "CourseNo", Get(l, "CourseNo"), "Slot")]
     ["CourseType" := FirstMatch(types, "Category", Get(l, "Category"), "CourseType")]
     ["Prerequisite" := FirstMatch(prereqs, "CourseNo", Get(l, "CourseNo"), "Prerequisite")]
  }

  /** Some row of `rows` has `v` in column `col`. */
  predicate HasKey(rows: seq<Row>, col: string, v: Cell) {
    exists i | 0 <= i < |rows| :: Get(rows[i], col) == v
  }

  // ---------------------------------------------------------------------
  // Properties

  /** The renamings are fixed: each canonical label carries the cell of its source label. */
  lemma RenamingIsFixed(semWise: Table, slotWise: Table, courseTypes: Table, i: nat, j: nat, k: nat)
    requires i < |semWise.rows| && j < |slotWise.rows| && k < |courseTypes.rows|
    requires "Course Number" in semWise.rows[i] && "BaseCourseNo" in slotWise.rows[j]
    requires "Code" in courseTypes.rows[k] && "Course Category" in courseTypes.rows[k]
    ensures Get(StandardizeSemWise(semWise).rows[i], "CourseNo") == semWise.rows[i]["Course Number"]
    ensures Get(StandardizeSlotWise(slotWise).rows[j], "CourseNo") == slotWise.rows[j]["BaseCourseNo"]
    ensures Get(StandardizeCourseTypes(courseTypes).rows[k], "Category") == courseTypes.rows[k]["Code"]
    ensures Get(StandardizeCourseTypes(courseTypes).rows[k], "CourseType") == courseTypes.rows[k]["Course Category"]
  {
  }

  /**
   * After the two merges every semester-wise row is still there, in its
   * original order, extended by the cells of its first matches: none is
   * dropped for lack of a slot or a type.
   */
  lemma {:induction false} MergeKeepsSemesterRows(sem: seq<Row>, slots: seq<Row>, types: seq<Row>)
    ensures IsSubseq(LookupJoin(LookupJoin(sem, slots, "CourseNo", "Slot"), types, "Category", "CourseType"),
                     MergedRows(sem, slots, types))
  {
    var once := LookupJoin(sem, slots, "CourseNo", "Slot");
    var joined := LeftJoinRows(sem, slots, "CourseNo", "Slot");
    LookupIsSubseqOfLeftJoin(sem, slots, "CourseNo", "Slot");
    LookupIsSubseqOfLeftJoin(once, types, "Category", "CourseType");
    LeftJoinMonotone(once, joined, types, "Category", "CourseType");
    SubseqTransitive(LookupJoin(once, types, "Category", "CourseType"),
                     LeftJoinRows(once, types, "Category", "CourseType"),
                     MergedRows(sem, slots, types));
  }

  /** Keeping the first row per course after the merges is keeping the first semester-wise row and joining it to its first matches. */
  lemma DedupOfMerged(sem: seq<Row>, slots: seq<Row>, types: seq<Row>)
    ensures DropDuplicates(MergedRows(sem, slots, types), "CourseNo")
         == LookupJoin(LookupJoin(DropDuplicates(sem, "CourseNo"), slots, "CourseNo", "Slot"), types, "Category", "CourseType")
  {
    DedupAfterJoin(LeftJoinRows(sem, slots, "CourseNo", "Slot"), types, "Category", "CourseType", "CourseNo", {});
    DedupAfterJoin(sem, slots, "CourseNo", "Slot", "CourseNo", {});
  }

  /**
   * With unique prerequisite keys, the catalog has one row per course of the
   * semester-wise table, built from the first semester-wise row of that
   * course: the `Slot` of its first slot-table match, the `CourseType` of its
   * category's first match and its prerequisite, each missing when there is
   * no match.
   */
  lemma CatalogIsFirstRowPerCourse(sem: seq<Row>, slots: seq<Row>, types: seq<Row>, prereqs: seq<Row>)
    requires UniqueKeys(prereqs, "CourseNo")
    ensures var first := DropDuplicates(sem, "CourseNo");
            var catalog := CatalogRows(sem, slots, types, prereqs);
            && |catalog| == |first|
            && forall i :: 0 <= i < |first| ==> catalog[i] == CatalogRow(first[i], slots, types, prereqs)
  {
    DedupOfMerged(sem, slots, types);
    var looked := LookupJoin(LookupJoin(DropDuplicates(sem, "CourseNo"), slots, "CourseNo", "Slot"), types, "Category", "CourseType");
    LeftJoinUniqueIsLookup(looked, prereqs, "CourseNo", "Prerequisite");
  }

  /** Each row kept for a course is the first semester-wise row of that course. */
  lemma FirstRowPerCourse(sem: seq<Row>, i: nat)
    requires i < |DropDuplicates(sem, "CourseNo")|
    ensures var f := DropDuplicates(sem, "CourseNo")[i];
            FirstBy(sem, Column("CourseNo"), Get(f, "CourseNo")) == Some(f)
  {
    KeepFirstByIsFirst(sem, Column("CourseNo"), {}, i);
  }

  /** With unique prerequisite keys, each catalog row carries the course of the kept semester-wise row at its position. */
  lemma CatalogKeysAreFirstKeys(sem: seq<Row>, slots: seq<Row>, types: seq<Row>, prereqs: seq<Row>)
    requires UniqueKeys(prereqs, "CourseNo")
    ensures var first := DropDuplicates(sem, "CourseNo");
            var catalog := CatalogRows(sem, slots, types, prereqs);
            && |catalog| == |first|
            && forall i :: 0 <= i < |first| ==> Get(catalog[i], "CourseNo") == Get(first[i], "CourseNo")
  {
    CatalogIsFirstRowPerCourse(sem, slots, types, prereqs);
  }

  /** With unique prerequisite keys, `CourseNo` is unique in the catalog. */
  lemma CatalogCourseNosUnique(sem: seq<Row>, slots: seq<Row>, types: seq<Row>, prereqs: seq<Row>)
    requires UniqueKeys(prereqs, "CourseNo")
    ensures UniqueKeys(CatalogRows(sem, slots, types, prereqs), "CourseNo")
  {
    CatalogKeysAreFirstKeys(sem, slots, types, prereqs);
  }

  /** Keeping the first row per course loses no course. */
  lemma DedupKeepsCourses(sem: seq<Row>, v: Cell)
    ensures HasKey(DropDuplicates(sem, "CourseNo"), "CourseNo", v) <==> HasKey(sem, "CourseNo", v)
  {
    var first := DropDuplicates(sem, "CourseNo");
    if HasKey(first, "CourseNo", v) {
      var i :| 0 <= i < |first| && Get(first[i], "CourseNo") == v;
      FirstRowPerCourse(sem, i);
      var k :| 0 <= k < |sem| && sem[k] == first[i];
    }
    if HasKey(sem, "CourseNo", v) {
      var k :| 0 <= k < |sem| && Get(sem[k], "CourseNo") == v;
      KeepFirstByCovers(sem, Column("CourseNo"), {}, sem[k]);
      var w := FirstBy(first, Column("CourseNo"), v).value;
      var i :| 0 <= i < |first| && first[i] == w;
    }
  }

  /** With unique prerequisite keys, the catalog's courses are exactly the semester-wise table's. */
  lemma CatalogCourseSet(sem: seq<Row>, slots: seq<Row>, types: seq<Row>, prereqs: seq<Row>, v: Cell)
    requires UniqueKeys(prereqs, "CourseNo")
    ensures HasKey(CatalogRows(sem, slots, types, prereqs), "CourseNo", v) <==> HasKey(sem, "CourseNo", v)
  {
    var first := DropDuplicates(sem, "CourseNo");
    var catalog := CatalogRows(sem, slots, types, prereqs);
    CatalogKeysAreFirstKeys(sem, slots, types, prereqs);
    DedupKeepsCourses(sem, v);
    if HasKey(catalog, "CourseNo", v) {
      var i :| 0 <= i < |catalog| && Get(catalog[i], "CourseNo") == v;
      assert Get(first[i], "CourseNo") == v;
    }
    if HasKey(first, "CourseNo", v) {
      var i :| 0 <= i < |first| && Get(first[i], "CourseNo") == v;
      assert Get(catalog[i], "CourseNo") == v;
    }
  }

  /** A course without a slot-table row has a missing `Slot`; a category without a type row has a missing `CourseType`. */
  lemma CatalogNullFilling(l: Row, slots: seq<Row>, types: seq<Row>, prereqs: seq<Row>)
    ensures (forall j :: 0 <= j < |slots| ==> Get(slots[j], "CourseNo") != Get(l, "CourseNo"))
            ==> Get(CatalogRow(l, slots, types, prereqs), "Slot") == Null
    ensures (forall j :: 0 <= j < |types| ==> Get(types[j], "Category") != Get(l, "Category"))
            ==> Get(CatalogRow(l, slots, types, prereqs), "CourseType") == Null
    ensures (forall j :: 0 <= j < |prereqs| ==> Get(prereqs[j], "CourseNo") != Get(l, "CourseNo"))
            ==> Get(CatalogRow(l, slots, types, prereqs), "Prerequisite") == Null
  {
    if forall j :: 0 <= j < |slots| ==> Get(slots[j], "CourseNo") != Get(l, "CourseNo") {
      NoMatchGetsNull(slots, "CourseNo", Get(l, "CourseNo"), "Slot");
    }
    if forall j :: 0 <= j < |types| ==> Get(types[j], "Category") != Get(l, "Category") {
      NoMatchGetsNull(types, "Category", Get(l, "Category"), "CourseType");
    }
    if forall j :: 0 <= j < |prereqs| ==> Get(prereqs[j], "CourseNo") != Get(l, "CourseNo") {
      NoMatchGetsNull(prereqs, "CourseNo", Get(l, "CourseNo"), "Prerequisite");
    }
  }

  /** Only `Slot`, `CourseType` and `Prerequisite` are added; every semester-wise cell is kept. */
  lemma CatalogRowKeepsSemesterCells(l: Row, slots: seq<Row>, types: seq<Row>, prereqs: seq<Row>, c: string)
    requires c !in {"Slot", "CourseType", "Prerequisite"}
    ensures Get(CatalogRow(l, slots, types, prereqs), c) == Get(l, c)
    ensures CatalogRow(l, slots, types, prereqs).Keys == l.Keys + {"Slot", "CourseType", "Prerequisite"}
  {
  }

  /** The embedded prerequisite table has one row per course, so its merge adds no rows. */
  lemma PrerequisiteKeysUnique()
    ensures UniqueKeys(PREREQUISITE_DATA.rows, "CourseNo")
  {
    PrerequisiteCoursesDistinct();
    DistinctCoursesUniqueKeys(PREREQUISITE_ENTRIES);
  }

  /** Entries with distinct course numbers give rows with distinct `CourseNo` cells. */
  lemma DistinctCoursesUniqueKeys(entries: seq<(string, Cell)>)
    requires forall i, j :: 0 <= i < j < |entries| ==> entries[i].0 != entries[j].0
    ensures UniqueKeys(PrerequisiteRows(entries), "CourseNo")
  {
    var rows := PrerequisiteRows(entries);
    forall i, j | 0 <= i < j < |rows| ensures Get(rows[i], "CourseNo") != Get(rows[j], "CourseNo") {
      assert Get(rows[i], "CourseNo") == Str(entries[i].0);
      assert Get(rows[j], "CourseNo") == Str(entries[j].0);
    }
  }

  /** The course numbers of the embedded prerequisite entries are distinct. */
  lemma PrerequisiteCoursesDistinct()
    ensures forall i, j :: 0 <= i < j < |PREREQUISITE_ENTRIES| ==> PREREQUISITE_ENTRIES[i].0 != PREREQUISITE_ENTRIES[j].0
  {
  }
}
