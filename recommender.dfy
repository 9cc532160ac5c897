/**
 * The rules that turn a stored profile and the course catalog into advice:
 * the department code, the slots taken by the student's mandatory courses,
 * the elective pipeline (electives only, the performance gate, the
 * preference search, free slots, the first five) and the suggested
 * questions. Every stage of the pipeline is a boolean-mask selection over
 * the catalog rows, kept in catalog order.
 */
module Recommender {
  import opened Wrappers
  import opened Seqs
  import opened Text
  import opened Frames
  import opened GradeCard

  /** The elective categories (`isin(['H', 'M', 'FRE', 'MNS'])`). */
  const ELECTIVE_CATEGORIES: seq<Cell> := [Str("H"), Str("M"), Str("FRE"), Str("MNS")]

  /** The words that mark a technical course. */
  const CODING_KEYWORDS: seq<string> := ["programming", "data", "algorithm", "software", "computing", "machine learning"]

  /** The departments whose students are never steered away from technical courses. */
  const EXEMPT_DEPARTMENTS: seq<string> := ["Computer Science", "AI & DS"]

  /** The grades that count as poor in a coding course. */
  const POOR_GRADES: seq<string> := ["C", "D", "E"]

  /** How many recommendations are returned at most (`head(5)`). */
  const RECOMMENDATION_LIMIT: nat := 5

  /** The department names with a known code; every other department gets `XX`. */
  const DEPARTMENT_CODES: map<string, string> := map["Civil Engineering" := "CE", "Aerospace Engineering" := "AE"]

  const FIRST_QUESTION: string := "Suggest some 9 credit electives"
  const MORE_HUMANITIES: string := "Show me more humanities electives in my free slots"
  const SOME_HUMANITIES: string := "Suggest some humanities courses for me"
  const LAST_QUESTION: string := "Find management electives"

  // ---------------------------------------------------------------------
  // Department code and occupied slots

  /** `dept_code_map.get(department, 'XX')`. */
  function DepartmentCode(department: string): (code: string)
    ensures code in {"CE", "AE", "XX"}
    ensures code == "CE" <==> department == "Civil Engineering"
    ensures code == "AE" <==> department == "Aerospace Engineering"
  {
    if department in DEPARTMENT_CODES then DEPARTMENT_CODES[department] else "XX"
  }

  predicate IsElective(r: Row) {
    Get(r, "Category") in ELECTIVE_CATEGORIES
  }

  /** A course the student must take this semester: the department's, the semester's, and not an elective. */
  predicate IsMandatoryFor(r: Row, code: string, semester: int) {
    Get(r, "Department") == Str(code) && Get(r, "Semester") == Num(semester) && !IsElective(r)
  }

  /** The `Slot` column of some rows. */
  function SlotColumn(rows: seq<Row>): (slots: seq<Cell>)
    ensures |slots| == |rows|
    ensures forall i :: 0 <= i < |rows| ==> slots[i] == Get(rows[i], "Slot")
  {
    seq(|rows|, i requires 0 <= i < |rows| => Get(rows[i], "Slot"))
  }

  /**
   * `mandatory_courses['Slot'].dropna().unique().tolist()`: the slots of the
   * mandatory courses, without missing ones, each once, in order of first
   * appearance.
   */
  function OccupiedSlots(rows: seq<Row>, code: string, semester: int): (slots: seq<Cell>)
    ensures forall i, j :: 0 <= i < j < |slots| ==> slots[i] != slots[j]
  {
    Unique(Filter(SlotColumn(Filter(rows, r => IsMandatoryFor(r, code, semester))), c => c != Null))
  }

  /** Every occupied slot is the slot of a mandatory course. */
  lemma OccupiedSlotsSound(rows: seq<Row>, code: string, semester: int, c: Cell)
    requires c in OccupiedSlots(rows, code, semester)
    ensures c != Null && exists i :: 0 <= i < |rows| && IsMandatoryFor(rows[i], code, semester) && Get(rows[i], "Slot") == c
  {
    var mandatory := Filter(rows, r => IsMandatoryFor(r, code, semester));
    var column := SlotColumn(mandatory);
    var k :| 0 <= k < |column| && column[k] == c;
    assert mandatory[k] in mandatory;
    assert IsMandatoryFor(mandatory[k], code, semester) && mandatory[k] in rows;
  }

  /** The slot of every mandatory course that has one is occupied. */
  lemma OccupiedSlotsComplete(rows: seq<Row>, code: string, semester: int, i: nat)
    requires i < |rows| && IsMandatoryFor(rows[i], code, semester) && Get(rows[i], "Slot") != Null
    ensures Get(rows[i], "Slot") in OccupiedSlots(rows, code, semester)
  {
    var mandatory := Filter(rows, r => IsMandatoryFor(r, code, semester));
    assert rows[i] in mandatory;
    var k :| 0 <= k < |mandatory| && mandatory[k] == rows[i];
    assert SlotColumn(mandatory)[k] == Get(rows[i], "Slot");
  }

  // ---------------------------------------------------------------------
  // The elective pipeline

  predicate PoorCodingGrade(c: CourseTaken) {
    StartsWith(c.courseNo, "CS") && c.grade in POOR_GRADES
  }

  /** `has_poor_coding_perf`: some taken course starts with `CS` and has grade C, D or E. */
  predicate HasPoorCodingPerformance(courses: seq<CourseTaken>) {
    exists k :: 0 <= k < |courses| && PoorCodingGrade(courses[k])
  }

  /** The performance gate fires for a student with a poor coding grade outside the exempt departments. */
  predicate GateFires(p: Profile) {
    HasPoorCodingPerformance(p.coursesTaken) && p.department !in EXEMPT_DEPARTMENTS
  }

  /**
   * `str.contains(needle, case=False, na=False)` on one cell, with the needle
   * taken literally: a missing or non-text cell does not match.
   */
  predicate CellContains(c: Cell, needle: string) {
    c.Str? && ContainsIgnoringCase(c.text, needle)
  }

  /** The cell matches the alternation of the coding keywords. */
  predicate MentionsCoding(c: Cell) {
    exists k :: 0 <= k < |CODING_KEYWORDS| && CellContains(c, CODING_KEYWORDS[k])
  }

  /** Neither the course name nor the description mentions a coding keyword. */
  predicate NonTechnical(r: Row) {
    !MentionsCoding(Get(r, "Course Name")) && !MentionsCoding(Get(r, "Description"))
  }

  /** The query occurs in the course name, the course type or the description. */
  predicate MatchesQuery(r: Row, query: string) {
    CellContains(Get(r, "Course Name"), query) || CellContains(Get(r, "CourseType"), query)
    || CellContains(Get(r, "Description"), query)
  }

  predicate InFreeSlot(r: Row, occupied: seq<Cell>) {
    Get(r, "Slot") !in occupied
  }

  /** Stage 1: the electives. */
  function Electives(rows: seq<Row>): seq<Row> {
    Filter(rows, IsElective)
  }

  /** Stage 2: when the gate fires, the non-technical courses only. */
  function AfterGate(rows: seq<Row>, gate: bool): seq<Row> {
    if gate then Filter(rows, NonTechnical) else rows
  }

  /** Stage 3: for a non-empty query, the courses that mention it. */
  function AfterQuery(rows: seq<Row>, query: string): seq<Row> {
    if query != "" then Filter(rows, r => MatchesQuery(r, query)) else rows
  }

  /** Stage 4: the courses outside the occupied slots. */
  function FreeOnly(rows: seq<Row>, occupied: seq<Cell>): seq<Row> {
    Filter(rows, r => InFreeSlot(r, occupied))
  }

  /** Every stage in order, before the truncation. */
  function Candidates(rows: seq<Row>, gate: bool, query: string, occupied: seq<Cell>): seq<Row> {
    FreeOnly(AfterQuery(AfterGate(Electives(rows), gate), query), occupied)
  }

  /** The recommendations: the first five candidates. */
  function Recommend(rows: seq<Row>, gate: bool, query: string, occupied: seq<Cell>): (recs: seq<Row>)
    ensures |recs| <= RECOMMENDATION_LIMIT && |recs| <= |Candidates(rows, gate, query, occupied)|
    ensures recs == Candidates(rows, gate, query, occupied)[..|recs|]
    ensures |recs| < RECOMMENDATION_LIMIT ==> recs == Candidates(rows, gate, query, occupied)
  {
    Take(Candidates(rows, gate, query, occupied), RECOMMENDATION_LIMIT)
  }

  /** The reference selection: everything the four stages ask of one course, at once. */
  predicate Selected(r: Row, gate: bool, query: string, occupied: seq<Cell>) {
    && IsElective(r)
    && (gate ==> NonTechnical(r))
    && (query != "" ==> MatchesQuery(r, query))
    && InFreeSlot(r, occupied)
  }

  // ---------------------------------------------------------------------
  // Properties of the pipeline

  /** The four stages in a row select what the reference selection selects, in catalog order. */
  lemma CandidatesAreSelection(rows: seq<Row>, gate: bool, query: string, occupied: seq<Cell>)
    ensures Candidates(rows, gate, query, occupied) == Filter(rows, r => Selected(r, gate, query, occupied))
  {
    var e: Row -> bool := IsElective;
    var g: Row -> bool := r => gate ==> NonTechnical(r);
    var q: Row -> bool := r => query != "" ==> MatchesQuery(r, query);
    var f: Row -> bool := r => InFreeSlot(r, occupied);
    var eg: Row -> bool := r => e(r) && g(r);
    var egq: Row -> bool := r => eg(r) && q(r);
    var all: Row -> bool := r => Selected(r, gate, query, occupied);
    var afterGate := AfterGate(Electives(rows), gate);
    if gate {
      FilterFilter(rows, e, NonTechnical, eg);
    } else {
      FilterFilter(rows, e, g, eg);
      FilterAll(Electives(rows), g);
    }
    assert afterGate == Filter(rows, eg);
    if query != "" {
      FilterFilter(rows, eg, r => MatchesQuery(r, query), egq);
    } else {
      FilterFilter(rows, eg, q, egq);
      FilterAll(afterGate, q);
    }
    FilterFilter(rows, egq, f, all);
  }

  /** A course is a candidate exactly when it is in the catalog and passes every stage. */
  lemma CandidateIff(rows: seq<Row>, gate: bool, query: string, occupied: seq<Cell>, x: Row)
    ensures x in Candidates(rows, gate, query, occupied) <==> x in rows && Selected(x, gate, query, occupied)
  {
    CandidatesAreSelection(rows, gate, query, occupied);
  }

  /**
   * Every recommendation is an elective outside the occupied slots, without
   * a coding keyword when the gate fires and mentioning the query when there
   * is one; there are at most five, in catalog order.
   */
  lemma RecommendSound(rows: seq<Row>, gate: bool, query: string, occupied: seq<Cell>)
    ensures forall x :: x in Recommend(rows, gate, query, occupied) ==> x in rows && Selected(x, gate, query, occupied)
    ensures IsSubseq(Recommend(rows, gate, query, occupied), rows)
  {
    var cands := Candidates(rows, gate, query, occupied);
    CandidatesAreSelection(rows, gate, query, occupied);
    TakeSubseq(cands, RECOMMENDATION_LIMIT);
    SubseqTransitive(Recommend(rows, gate, query, occupied), cands, rows);
  }

  /** A query only narrows the candidates: with a query they are a subsequence of those without one. */
  lemma QueryNarrows(rows: seq<Row>, gate: bool, query: string, occupied: seq<Cell>)
    ensures IsSubseq(Candidates(rows, gate, query, occupied), Candidates(rows, gate, "", occupied))
  {
    CandidatesAreSelection(rows, gate, query, occupied);
    CandidatesAreSelection(rows, gate, "", occupied);
    FilterStronger(rows, r => Selected(r, gate, query, occupied), r => Selected(r, gate, "", occupied));
  }

  /** The gate only narrows the candidates. */
  lemma GateNarrows(rows: seq<Row>, query: string, occupied: seq<Cell>)
    ensures IsSubseq(Candidates(rows, true, query, occupied), Candidates(rows, false, query, occupied))
  {
    CandidatesAreSelection(rows, true, query, occupied);
    CandidatesAreSelection(rows, false, query, occupied);
    FilterStronger(rows, r => Selected(r, true, query, occupied), r => Selected(r, false, query, occupied));
  }

  /**
   * No recommendation shares a slot with a mandatory course of the student's
   * department and semester, when the occupied slots are the ones computed
   * for that department and semester.
   */
  lemma RecommendAvoidsMandatorySlots(rows: seq<Row>, gate: bool, query: string, code: string, semester: int, x: Row, m: Row)
    requires x in Recommend(rows, gate, query, OccupiedSlots(rows, code, semester))
    requires m in rows && IsMandatoryFor(m, code, semester) && Get(m, "Slot") != Null
    ensures Get(x, "Slot") != Get(m, "Slot")
  {
    var occupied := OccupiedSlots(rows, code, semester);
    RecommendSound(rows, gate, query, occupied);
    var i :| 0 <= i < |rows| && rows[i] == m;
    OccupiedSlotsComplete(rows, code, semester, i);
  }

  // ---------------------------------------------------------------------
  // Suggested questions

  predicate IsHumanities(c: CourseTaken) {
    StartsWith(c.courseNo, "HS")
  }

  /** The number of taken courses whose number starts with `HS`. */
  function HumanitiesCount(courses: seq<CourseTaken>): (n: nat)
    ensures n <= |courses|
    decreases |courses|
  {
    if courses == [] then 0 else (if IsHumanities(courses[0]) then 1 else 0) + HumanitiesCount(courses[1..])
  }

  /** The three suggested questions; the middle one asks for more humanities after two humanities courses. */
  function SuggestedQuestions(courses: seq<CourseTaken>): (qs: seq<string>)
    ensures |qs| == 3 && qs[0] == FIRST_QUESTION && qs[2] == LAST_QUESTION
    ensures qs[1] == MORE_HUMANITIES <==> |Filter(courses, IsHumanities)| >= 2
    ensures qs[1] == SOME_HUMANITIES <==> |Filter(courses, IsHumanities)| < 2
  {
    HumanitiesCountIsFilter(courses);
    [FIRST_QUESTION, if HumanitiesCount(courses) >= 2 then MORE_HUMANITIES else SOME_HUMANITIES, LAST_QUESTION]
  }

  /** The count is the number of humanities courses among the taken ones. */
  lemma {:induction false} HumanitiesCountIsFilter(courses: seq<CourseTaken>)
    ensures HumanitiesCount(courses) == |Filter(courses, IsHumanities)|
    decreases |courses|
  {
    if courses != [] {
      HumanitiesCountIsFilter(courses[1..]);
    }
  }

  /** Taking more courses never withdraws the question about more humanities. */
  lemma MoreHumanitiesStays(a: seq<CourseTaken>, b: seq<CourseTaken>)
    requires IsSubseq(a, b)
    requires SuggestedQuestions(a)[1] == MORE_HUMANITIES
    ensures SuggestedQuestions(b)[1] == MORE_HUMANITIES
  {
    SubseqFilter(a, b, IsHumanities);
    SubseqLength(Filter(a, IsHumanities), Filter(b, IsHumanities));
  }
}
