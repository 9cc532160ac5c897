/**
 * The server's state and its two endpoints. The loaded catalog is a value
 * (it is read once at start-up and never changed); the student sessions are
 * a store keyed by roll number that the endpoints update in place. Each
 * endpoint is specified by a function of the old store and its inputs that
 * gives the new store and the response, and the store's methods are proved
 * against it.
 */
module Sessions {
  import opened Wrappers
  import opened Seqs
  import opened Text
  import opened Frames
  import opened GradeCard
  import opened Recommender

  /** Why a request is answered with an error. */
  datatype Failure =
    | NoFile                              // the upload has no grade card part
    | InvalidGradeCard(error: ParseError) // a field is missing or the CGPA is not a number
    | CatalogUnavailable                  // the catalog was not loaded, or lacks a column the request reads
    | SessionNotFound                     // no roll number, or none stored under it

  /** The answer to a successful upload: the stored profile and the suggested questions. */
  datatype Greeting = Greeting(profile: Profile, suggestedQuestions: seq<string>)

  /** The columns the occupied slots are computed from. */
  const SLOT_COLUMNS: set<string> := {"Department", "Semester", "Category", "Slot"}

  // ---------------------------------------------------------------------
  // Loading the catalog

  /** One row as loaded: a missing description becomes the empty text. */
  function LoadRow(r: Row): (r': Row)
    ensures Get(r', "Description") == if Get(r, "Description") == Null then Str("") else Get(r, "Description")
    ensures Get(r', "Description") != Null
    ensures forall c :: c != "Description" ==> Get(r', c) == Get(r, c)
  {
    r["Description" := if Get(r, "Description") == Null then Str("") else Get(r, "Description")]
  }

  /** The catalog as loaded: it always has a `Description` column, with no missing entries. */
  function LoadCatalog(t: Table): (t': Table)
    ensures t'.columns == t.columns + {"Description"}
    ensures |t'.rows| == |t.rows|
    ensures forall i :: 0 <= i < |t.rows| ==> t'.rows[i] == LoadRow(t.rows[i])
  {
    Table(t.columns + {"Description"}, seq(|t.rows|, i requires 0 <= i < |t.rows| => LoadRow(t.rows[i])))
  }

  /** An empty text contains no non-empty needle. */
  lemma EmptyContainsNothing(needle: string)
    requires needle != []
    ensures !CellContains(Str(""), needle)
  {
    assert |Lower(needle)| == |needle|;
  }

  /** Filling the missing descriptions changes no stage of the recommendation for any row. */
  lemma LoadingKeepsSelection(r: Row, gate: bool, query: string, occupied: seq<Cell>)
    ensures Selected(LoadRow(r), gate, query, occupied) == Selected(r, gate, query, occupied)
  {
    if Get(r, "Description") == Null {
      forall k | 0 <= k < |CODING_KEYWORDS|
        ensures !CellContains(Get(LoadRow(r), "Description"), CODING_KEYWORDS[k])
      {
        EmptyContainsNothing(CODING_KEYWORDS[k]);
      }
      if query != "" {
        EmptyContainsNothing(query);
      }
    }
  }

  // ---------------------------------------------------------------------
  // The endpoints, as functions of the store

  /**
   * Storing a profile that was read from a grade card: it is stored under its
   * roll number (replacing any earlier session) before the catalog is
   * consulted, so when the catalog cannot answer, the profile stays stored
   * without occupied slots; otherwise the session gets the slots of the
   * student's mandatory courses and the greeting shows that session.
   */
  function Admit(store: map<string, Profile>, catalog: Option<Table>, p: Profile)
    : (out: (map<string, Profile>, Result<Greeting, Failure>))
    ensures out.0.Keys == store.Keys + {p.rollNo}
    ensures forall k :: k in store && k != p.rollNo ==> out.0[k] == store[k]
    ensures out.0[p.rollNo].(occupiedSlots := p.occupiedSlots) == p
    ensures out.1.Ok? <==> catalog.Some? && SLOT_COLUMNS <= catalog.value.columns
    ensures out.1.Err? ==> out.1 == Err(CatalogUnavailable) && out.0[p.rollNo] == p
    ensures out.1.Ok? ==> && out.1.value.profile == out.0[p.rollNo]
                          && out.0[p.rollNo].occupiedSlots == Some(OccupiedSlots(catalog.value.rows, DepartmentCode(p.department), p.semester))
                          && out.1.value.suggestedQuestions == SuggestedQuestions(p.coursesTaken)
  {
    if catalog.None? || !(SLOT_COLUMNS <= catalog.value.columns) then (store[p.rollNo := p], Err(CatalogUnavailable))
    else
      var slots := OccupiedSlots(catalog.value.rows, DepartmentCode(p.department), p.semester);
      var p' := p.(occupiedSlots := Some(slots));
      (store[p.rollNo := p'], Ok(Greeting(p', SuggestedQuestions(p.coursesTaken))))
  }

  /**
   * The upload endpoint: the new store and the response. A grade card that
   * cannot be read leaves the store as it was; a readable one is admitted.
   */
  function Init(store: map<string, Profile>, catalog: Option<Table>, upload: Option<string>, nowYear: int, nowMonth: int)
    : (out: (map<string, Profile>, Result<Greeting, Failure>))
    ensures upload.None? ==> out == (store, Err(NoFile))
    ensures upload.Some? && ProfileFromText(upload.value, nowYear, nowMonth).Err? ==>
              out == (store, Err(InvalidGradeCard(ProfileFromText(upload.value, nowYear, nowMonth).error)))
    ensures upload.Some? && ProfileFromText(upload.value, nowYear, nowMonth).Ok? ==>
              out == Admit(store, catalog, ProfileFromText(upload.value, nowYear, nowMonth).value)
  {
    if upload.None? then (store, Err(NoFile))
    else match ProfileFromText(upload.value, nowYear, nowMonth)
      case Err(e) => (store, Err(InvalidGradeCard(e)))
      case Ok(p) => Admit(store, catalog, p)
  }

  /** The columns the recommendation reads: always the category and the slot, the names and descriptions for the gate, and the three searched columns for a query. */
  function ColumnsRead(gate: bool, query: string): (cols: set<string>)
    ensures "Category" in cols && "Slot" in cols
    ensures "Course Name" in cols <==> gate || query != ""
    ensures "Description" in cols <==> gate || query != ""
    ensures "CourseType" in cols <==> query != ""
    ensures forall c :: c in cols ==> c in {"Category", "Slot", "Course Name", "CourseType", "Description"}
  {
    {"Category", "Slot"}
    + (if gate then {"Course Name", "Description"} else {})
    + (if query != "" then {"Course Name", "CourseType", "Description"} else {})
  }

  /** The session's occupied slots; a session stored without them occupies none. */
  function OccupiedOf(p: Profile): seq<Cell> {
    p.occupiedSlots.GetOr([])
  }

  /**
   * The recommendation endpoint: a missing or empty roll number, or one
   * without a session, is refused first; then the catalog must have the
   * columns the request reads; then the recommendation is computed for the
   * lower-cased preference (empty when absent).
   */
  function RecommendFor(store: map<string, Profile>, catalog: Option<Table>, rollNo: Option<string>, preference: Option<string>)
    : (r: Result<seq<Row>, Failure>)
    ensures r == Err(SessionNotFound) <==> rollNo.None? || rollNo.value == "" || rollNo.value !in store
    ensures r == Err(CatalogUnavailable) <==>
              && rollNo.Some? && rollNo.value != "" && rollNo.value in store
              && (catalog.None? || !(ColumnsRead(GateFires(store[rollNo.value]), Lower(preference.GetOr(""))) <= catalog.value.columns))
    ensures r.Ok? ==> && catalog.Some? && |r.value| <= RECOMMENDATION_LIMIT
                      && r.value == Recommend(catalog.value.rows, GateFires(store[rollNo.value]),
                                              Lower(preference.GetOr("")), OccupiedOf(store[rollNo.value]))
  {
    if rollNo.None? || rollNo.value == "" || rollNo.value !in store then Err(SessionNotFound)
    else
      var p := store[rollNo.value];
      var query := Lower(preference.GetOr(""));
      var gate := GateFires(p);
      if catalog.None? || !(ColumnsRead(gate, query) <= catalog.value.columns) then Err(CatalogUnavailable)
      else Ok(Recommend(catalog.value.rows, gate, query, OccupiedOf(p)))
  }

  // ---------------------------------------------------------------------
  // The session store

  class SessionStore {
    /** The sessions, keyed by roll number. */
    var sessions: map<string, Profile>

    constructor()
      ensures sessions == map[]
    {
      sessions := map[];
    }

    /** Stores a profile under its roll number; the last one stored wins. */
    method Save(p: Profile)
      modifies this
      ensures sessions == old(sessions)[p.rollNo := p]
    {
      sessions := sessions[p.rollNo := p];
    }

    /** Records the occupied slots in a stored session. */
    method AttachOccupiedSlots(rollNo: string, slots: seq<Cell>)
      requires rollNo in sessions
      modifies this
      ensures sessions == old(sessions)[rollNo := old(sessions)[rollNo].(occupiedSlots := Some(slots))]
    {
      sessions := sessions[rollNo := sessions[rollNo].(occupiedSlots := Some(slots))];
    }

    /** Stores a profile read from a grade card, then attaches the occupied slots when the catalog can give them. */
    method AdmitProfile(catalog: Option<Table>, p: Profile) returns (r: Result<Greeting, Failure>)
      modifies this
      ensures (sessions, r) == Admit(old(sessions), catalog, p)
    {
      Save(p);
      if catalog.None? || !(SLOT_COLUMNS <= catalog.value.columns) {
        r := Err(CatalogUnavailable);
        assert (sessions, r) == Admit(old(sessions), catalog, p);
        return;
      }
      var code := DepartmentCode(p.department);
      var slots := OccupiedSlots(catalog.value.rows, code, p.semester);
      AttachOccupiedSlots(p.rollNo, slots);
      var p' := p.(occupiedSlots := Some(slots));
      assert sessions == old(sessions)[p.rollNo := p'];
      r := Ok(Greeting(p', SuggestedQuestions(p.coursesTaken)));
      assert Admit(old(sessions), catalog, p) == (old(sessions)[p.rollNo := p'], r);
    }

    /** The upload endpoint: read the grade card, then admit the profile. */
    method InitFromGradeCard(catalog: Option<Table>, upload: Option<string>, nowYear: int, nowMonth: int)
      returns (r: Result<Greeting, Failure>)
      modifies this
      ensures (sessions, r) == Init(old(sessions), catalog, upload, nowYear, nowMonth)
    {
      if upload.None? {
        return Err(NoFile);
      }
      var parsed := ExtractProfile(upload.value, nowYear, nowMonth);
      if parsed.Err? {
        return Err(InvalidGradeCard(parsed.error));
      }
      r := AdmitProfile(catalog, parsed.value);
    }

    /** The recommendation endpoint; it reads the store and changes nothing. */
    method RecommendElectives(catalog: Option<Table>, rollNo: Option<string>, preference: Option<string>)
      returns (r: Result<seq<Row>, Failure>)
      ensures r == RecommendFor(sessions, catalog, rollNo, preference)
    {
      if rollNo.None? || rollNo.value == "" || rollNo.value !in sessions {
        return Err(SessionNotFound);
      }
      var p := sessions[rollNo.value];
      var query := Lower(preference.GetOr(""));
      var gate := GateFires(p);
      if catalog.None? || !(ColumnsRead(gate, query) <= catalog.value.columns) {
        return Err(CatalogUnavailable);
      }
      r := Ok(Recommend(catalog.value.rows, gate, query, OccupiedOf(p)));
    }
  }

  // ---------------------------------------------------------------------
  // Properties across the endpoints

  /** A grade card that is read has a non-empty roll number. */
  lemma ParsedRollNoNonEmpty(text: string, nowYear: int, nowMonth: int)
    requires ProfileFromText(text, nowYear, nowMonth).Ok?
    ensures ProfileFromText(text, nowYear, nowMonth).value.rollNo != ""
  {
    FieldShape(text, RollNoField);
  }

  /**
   * After a profile with a roll number is admitted, a recommendation request
   * for that roll number finds the session; and when the admission got the
   * occupied slots, no recommendation shares a slot with a mandatory course
   * of the student's department and semester.
   */
  lemma AdmitThenRecommend(store: map<string, Profile>, catalog: Option<Table>, p: Profile,
                           preference: Option<string>, x: Row, m: Row)
    requires p.rollNo != ""
    ensures var out := Admit(store, catalog, p);
            var recs := RecommendFor(out.0, catalog, Some(p.rollNo), preference);
            && recs != Err(SessionNotFound)
            && (out.1.Ok? && recs.Ok? && x in recs.value && m in catalog.value.rows
                && IsMandatoryFor(m, DepartmentCode(p.department), p.semester) && Get(m, "Slot") != Null
                ==> Get(x, "Slot") != Get(m, "Slot"))
  {
    var out := Admit(store, catalog, p);
    var recs := RecommendFor(out.0, catalog, Some(p.rollNo), preference);
    if out.1.Ok? && recs.Ok? && x in recs.value && m in catalog.value.rows
       && IsMandatoryFor(m, DepartmentCode(p.department), p.semester) && Get(m, "Slot") != Null {
      var stored := out.0[p.rollNo];
      var code := DepartmentCode(p.department);
      assert OccupiedOf(stored) == OccupiedSlots(catalog.value.rows, code, p.semester);
      RecommendAvoidsMandatorySlots(catalog.value.rows, GateFires(stored), Lower(preference.GetOr("")), code, p.semester, x, m);
    }
  }

  /** After an upload whose grade card is read, a recommendation request for its roll number finds the session. */
  lemma InitThenRecommend(store: map<string, Profile>, catalog: Option<Table>, text: string, nowYear: int, nowMonth: int,
                          preference: Option<string>)
    requires ProfileFromText(text, nowYear, nowMonth).Ok?
    ensures var out := Init(store, catalog, Some(text), nowYear, nowMonth);
            RecommendFor(out.0, catalog, Some(ProfileFromText(text, nowYear, nowMonth).value.rollNo), preference) != Err(SessionNotFound)
  {
    var p := ProfileFromText(text, nowYear, nowMonth).value;
    ParsedRollNoNonEmpty(text, nowYear, nowMonth);
    assert Init(store, catalog, Some(text), nowYear, nowMonth) == Admit(store, catalog, p);
    AdmitThenRecommend(store, catalog, p, preference, map[], map[]);
  }

  /** A session stored without occupied slots is recommended electives in any slot. */
  lemma NoSlotsMeansAnySlot(rows: seq<Row>, gate: bool, query: string)
    ensures Candidates(rows, gate, query, []) == AfterQuery(AfterGate(Electives(rows), gate), query)
  {
    var before := AfterQuery(AfterGate(Electives(rows), gate), query);
    FilterAll(before, r => InFreeSlot(r, []));
  }

  /** Every recommendation the endpoint returns is a catalog row that passes every stage for the stored session. */
  lemma RecommendForSound(store: map<string, Profile>, catalog: Option<Table>, rollNo: Option<string>, preference: Option<string>)
    requires RecommendFor(store, catalog, rollNo, preference).Ok?
    ensures var p := store[rollNo.value];
            forall x :: x in RecommendFor(store, catalog, rollNo, preference).value ==>
              x in catalog.value.rows && Selected(x, GateFires(p), Lower(preference.GetOr("")), OccupiedOf(p))
  {
    var p := store[rollNo.value];
    RecommendSound(catalog.value.rows, GateFires(p), Lower(preference.GetOr("")), OccupiedOf(p));
  }

  /** Admitting the same profile again leaves the store and the response as they were after the first time. */
  lemma AdmitIdempotent(store: map<string, Profile>, catalog: Option<Table>, p: Profile)
    requires p.occupiedSlots.None?
    ensures var once := Admit(store, catalog, p);
            Admit(once.0, catalog, p) == once
  {
    var once := Admit(store, catalog, p);
    var twice := Admit(once.0, catalog, p);
    assert twice.0 == once.0;
  }

  /** Uploading the same grade card again gives the same store and the same response as uploading it once. */
  lemma InitIdempotent(store: map<string, Profile>, catalog: Option<Table>, upload: Option<string>, nowYear: int, nowMonth: int)
    ensures var once := Init(store, catalog, upload, nowYear, nowMonth);
            Init(once.0, catalog, upload, nowYear, nowMonth) == once
  {
    if upload.Some? && ProfileFromText(upload.value, nowYear, nowMonth).Ok? {
      AdmitIdempotent(store, catalog, ProfileFromText(upload.value, nowYear, nowMonth).value);
    }
  }
}
