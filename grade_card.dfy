/**
 * The student profile read from the text of a grade card: four labelled
 * fields found by leftmost pattern search, and every course row found by a
 * non-overlapping scan. Each pattern is modelled by what it matches: a
 * label, whitespace, and a maximal run of a character class; `.*?` is the
 * shortest gap on one line after which the rest of the pattern matches.
 */
module GradeCard {
  import opened Wrappers
  import opened Seqs
  import opened Text
  import opened Frames
  import opened Calendar

  /** One entry of `courses_taken`. */
  datatype CourseTaken = CourseTaken(courseNo: string, title: string, credits: int, grade: string)

  /**
   * A stored student profile. `cgpa` keeps the captured text, which is known
   * to be a valid decimal literal; `occupiedSlots` is `None` until the
   * occupied slots are attached.
   */
  datatype Profile = Profile(rollNo: string, name: string, department: string, cgpa: string,
                             coursesTaken: seq<CourseTaken>, semester: int, occupiedSlots: Option<seq<Cell>>)

  /** Why a grade card is rejected: a labelled field is missing, or the CGPA text is not a number. */
  datatype ParseError = FieldNotFound(field: string) | NotANumber(text: string)

  const ROLL_LABEL: string := "Roll No:"
  const NAME_LABEL: string := "Name:"
  const DEPARTMENT_LABEL: string := "Department:"
  const CGPA_LABEL: string := "average secured"
  const CGPA_MARKER: string := "is"

  /** The classes of the four captured fields: `[A-Z0-9]`, `[A-Z\s]`, `[A-Za-z\s]` and `[\d\.]`. */
  const ROLL_CLASS: CharClass := CapitalsOrDigits
  const NAME_CLASS: CharClass := CapitalsOrWhitespace
  const DEPARTMENT_CLASS: CharClass := LettersOrWhitespace
  const NUMBER_CLASS: CharClass := DigitsOrDots

  // ---------------------------------------------------------------------
  // Labelled fields

  /**
   * `tag\s*([...]+)` at `i`, for a class `p` without whitespace: the tag,
   * all the whitespace after it, and a non-empty maximal run of `p`.
   */
  function TokenAfter(s: string, i: nat, tag: string, cls: CharClass): (r: Option<string>)
    ensures r.Some? ==> |r.value| >= 1 && forall k :: 0 <= k < |r.value| ==> In(r.value[k], cls)
  {
    if !OccursAt(s, i, tag) then None
    else
      var j := i + |tag| + Run(s, i + |tag|, Whitespace);
      var n := Run(s, j, cls);
      RunSlice(s, j, cls, s[j..j + n]);
      if n == 0 then None else Some(s[j..j + n])
  }

  /**
   * `tag\s*([...]+)` at `i` followed by `.strip()`, for a class `p` that
   * contains the whitespace: the maximal run of `p` right after the tag
   * (it takes up what `\s*` would), non-empty, without surrounding whitespace.
   */
  function StrippedRunAfter(s: string, i: nat, tag: string, cls: CharClass): (r: Option<string>)
    ensures r.Some? ==> r.value == [] || (!IsSpace(r.value[0]) && !IsSpace(r.value[|r.value| - 1]))
    ensures r.Some? ==> forall k :: 0 <= k < |r.value| ==> In(r.value[k], cls)
  {
    if !OccursAt(s, i, tag) then None
    else
      var j := i + |tag|;
      var n := Run(s, j, cls);
      if n == 0 then None
      else
        RunSlice(s, j, cls, s[j..j + n]);
        StripChars(s[j..j + n], cls);
        Some(Strip(s[j..j + n]))
  }

  /** The token after the leftmost position in `j..hi` at which `marker`, whitespace and a run of `cls` follow. */
  function MarkerToken(s: string, j: nat, hi: nat, marker: string, cls: CharClass): Option<string>
    decreases hi + 1 - j
  {
    if j > hi then None
    else
      match TokenAfter(s, j, marker, cls)
      case Some(x) => Some(x)
      case None => MarkerToken(s, j + 1, hi, marker, cls)
  }

  /**
   * `tag.*?marker\s*([...]+)` at `i`: after the tag, the shortest gap on the
   * same line after which the marker, whitespace and a run of `cls` follow.
   */
  function LazyTokenAfter(s: string, i: nat, tag: string, marker: string, cls: CharClass): Option<string> {
    if !OccursAt(s, i, tag) then None
    else
      var g := i + |tag|;
      MarkerToken(s, g, g + Run(s, g, NonNewline), marker, cls)
  }

  /** What the marker search finds is a token of the class. */
  lemma {:induction false} MarkerTokenShape(s: string, j: nat, hi: nat, marker: string, cls: CharClass)
    requires MarkerToken(s, j, hi, marker, cls).Some?
    ensures var x := MarkerToken(s, j, hi, marker, cls).value;
            |x| >= 1 && forall k :: 0 <= k < |x| ==> In(x[k], cls)
    decreases hi + 1 - j
  {
    if TokenAfter(s, j, marker, cls).None? {
      MarkerTokenShape(s, j + 1, hi, marker, cls);
    }
  }

  /** The four labelled fields of a grade card. */
  datatype Field = RollNoField | NameField | DepartmentField | CgpaField

  /** The pattern of field `f` tried at `i`, and what it captures there. */
  function FieldAt(s: string, i: nat, f: Field): Option<string> {
    match f
    case RollNoField => TokenAfter(s, i, ROLL_LABEL, ROLL_CLASS)
    case NameField => StrippedRunAfter(s, i, NAME_LABEL, NAME_CLASS)
    case DepartmentField => StrippedRunAfter(s, i, DEPARTMENT_LABEL, DEPARTMENT_CLASS)
    case CgpaField => LazyTokenAfter(s, i, CGPA_LABEL, CGPA_MARKER, NUMBER_CLASS)
  }

  /** The leftmost position from `i` on at which the pattern of `f` matches. */
  function FieldPos(s: string, i: nat, f: Field): (r: Option<nat>)
    ensures r.Some? ==> i <= r.value <= |s|
    decreases |s| + 1 - i
  {
    if i > |s| then None else if FieldAt(s, i, f).Some? then Some(i) else FieldPos(s, i + 1, f)
  }

  /** `re.search` for field `f` over the whole text: the capture of the leftmost match, if any. */
  function Search(s: string, f: Field): Option<string> {
    match FieldPos(s, 0, f)
    case None => None
    case Some(i) => FieldAt(s, i, f)
  }

  /** `re.search(r"Roll No:\s*([A-Z0-9]+)", text).group(1)`. */
  function RollNo(s: string): Option<string> { Search(s, RollNoField) }

  /** `re.search(r"Name:\s*([A-Z\s]+)", text).group(1).strip()`. */
  function Name(s: string): Option<string> { Search(s, NameField) }

  /** `re.search(r"Department:\s*([A-Za-z\s]+)", text).group(1).strip()`. */
  function Department(s: string): Option<string> { Search(s, DepartmentField) }

  /** `re.search(r"average secured.*?is\s*([\d\.]+)", text).group(1)`. */
  function Cgpa(s: string): Option<string> { Search(s, CgpaField) }

  // Search is leftmost

  lemma FieldPosHere(s: string, i: nat, f: Field)
    requires i <= |s| && FieldAt(s, i, f).Some?
    ensures FieldPos(s, i, f) == Some(i)
  {
  }

  lemma FieldPosSkip(s: string, i: nat, f: Field)
    requires i <= |s| && FieldAt(s, i, f).None?
    ensures FieldPos(s, i, f) == FieldPos(s, i + 1, f)
  {
  }

  /** The search stops only where the pattern matches. */
  lemma {:induction false} FieldPosMatches(s: string, i: nat, f: Field)
    requires FieldPos(s, i, f).Some?
    ensures FieldAt(s, FieldPos(s, i, f).value, f).Some?
    decreases |s| + 1 - i
  {
    if FieldAt(s, i, f).None? {
      FieldPosSkip(s, i, f);
      FieldPosMatches(s, i + 1, f);
    }
  }

  /** The search stops at the leftmost match: whenever the pattern matches at `j`, the search from `i <= j` stops at or before `j`. */
  lemma {:induction false} FieldPosLeftmost(s: string, i: nat, f: Field, j: nat)
    requires i <= j <= |s| && FieldAt(s, j, f).Some?
    ensures FieldPos(s, i, f).Some? && FieldPos(s, i, f).value <= j
    decreases j - i
  {
    if i == j || FieldAt(s, i, f).Some? {
      FieldPosHere(s, i, f);
    } else {
      FieldPosSkip(s, i, f);
      FieldPosLeftmost(s, i + 1, f, j);
    }
  }

  /** A field is found exactly when its pattern matches somewhere, and then it is the capture at the leftmost match. */
  lemma SearchIsLeftmostMatch(s: string, f: Field, j: nat)
    requires j <= |s|
    ensures FieldAt(s, j, f).Some? ==> Search(s, f).Some?
    ensures Search(s, f).Some? ==> FieldPos(s, 0, f).Some? && Search(s, f) == FieldAt(s, FieldPos(s, 0, f).value, f)
    ensures Search(s, f).Some? && FieldAt(s, j, f).Some? ==> FieldPos(s, 0, f).value <= j
  {
    if FieldAt(s, j, f).Some? {
      FieldPosLeftmost(s, 0, f, j);
      FieldPosMatches(s, 0, f);
    } else if FieldPos(s, 0, f).Some? {
      FieldPosMatches(s, 0, f);
    }
  }

  /** A match at the start of the text is the one found. */
  lemma SearchAtStart(s: string, f: Field, x: string)
    requires FieldAt(s, 0, f) == Some(x)
    ensures Search(s, f) == Some(x)
  {
    FieldPosHere(s, 0, f);
  }

  /**
   * What the capture of each field looks like: a roll number is a non-empty
   * run of capitals and digits, a name capitals and whitespace, a department
   * letters and whitespace, both stripped, and a CGPA a non-empty run of
   * digits and dots.
   */
  predicate Shaped(f: Field, x: string) {
    match f
    case RollNoField => |x| >= 1 && forall k :: 0 <= k < |x| ==> In(x[k], ROLL_CLASS)
    case NameField => (forall k :: 0 <= k < |x| ==> In(x[k], NAME_CLASS)) && (x == [] || (!IsSpace(x[0]) && !IsSpace(x[|x| - 1])))
    case DepartmentField => (forall k :: 0 <= k < |x| ==> In(x[k], DEPARTMENT_CLASS)) && (x == [] || (!IsSpace(x[0]) && !IsSpace(x[|x| - 1])))
    case CgpaField => |x| >= 1 && forall k :: 0 <= k < |x| ==> In(x[k], NUMBER_CLASS)
  }

  lemma FieldAtShape(s: string, i: nat, f: Field)
    requires FieldAt(s, i, f).Some?
    ensures Shaped(f, FieldAt(s, i, f).value)
  {
    if f == CgpaField {
      var g := i + |CGPA_LABEL|;
      MarkerTokenShape(s, g, g + Run(s, g, NonNewline), CGPA_MARKER, NUMBER_CLASS);
    }
  }

  /** Every field that is found has the shape of its pattern's group. */
  lemma FieldShape(s: string, f: Field)
    requires Search(s, f).Some?
    ensures Shaped(f, Search(s, f).value)
  {
    FieldPosMatches(s, 0, f);
    FieldAtShape(s, FieldPos(s, 0, f).value, f);
  }

  /** What `float()` accepts among strings of digits and dots: at least one digit and at most one dot. */
  predicate IsDecimalLiteral(t: string) {
    && (exists k | 0 <= k < |t| :: IsDigit(t[k]))
    && forall a, b :: 0 <= a < b < |t| && t[a] == '.' ==> t[b] != '.'
  }

  // ---------------------------------------------------------------------
  // Course rows

  /** The four groups of one course-row match; an optional group that did not take part is empty. */
  datatype RowMatch = RowMatch(courseNo: string, title: string, credits: string, grade: string)

  /**
   * Where one course-row match lies in the text (the spans of its groups):
   * the opening quote at `start`, the course number up to `courseEnd`, the
   * title from `titleStart` to `titleEnd`, the credits from `titleEnd + 3`
   * to `creditsEnd`, the grade from `creditsEnd + 3` to `gradeEnd`, and the
   * closing quote at `gradeEnd`.
   */
  datatype RowSpan = RowSpan(start: nat, courseEnd: nat, titleStart: nat, titleEnd: nat, creditsEnd: nat, gradeEnd: nat)

  /** The spans of a match are in order and inside the text. */
  predicate InText(s: string, sp: RowSpan) {
    && sp.start + 1 <= sp.courseEnd <= sp.titleStart <= sp.titleEnd
    && sp.titleEnd + 3 <= sp.creditsEnd && sp.creditsEnd + 3 <= sp.gradeEnd < |s|
  }

  /**
   * The characters of `s` from `a` up to `b`, built one character at a
   * time; `CutIsSlice` shows it is the slice `s[a..b]`.
   */
  function Cut(s: string, a: nat, b: nat): (r: string)
    requires a <= b <= |s|
    ensures |r| == b - a
    decreases b - a
  {
    if a == b then [] else Cut(s, a, b - 1) + [s[b - 1]]
  }

  lemma {:induction false} CutIsSlice(s: string, a: nat, b: nat)
    requires a <= b <= |s|
    ensures Cut(s, a, b) == s[a..b]
    decreases b - a
  {
    if a < b {
      CutIsSlice(s, a, b - 1);
      assert s[a..b] == s[a..b - 1] + [s[b - 1]];
    }
  }

  /** The groups of a match, cut out of the text. */
  function Groups(s: string, sp: RowSpan): RowMatch
    requires InText(s, sp)
  {
    RowMatch(Cut(s, sp.start + 1, sp.courseEnd), Cut(s, sp.titleStart, sp.titleEnd),
             Cut(s, sp.titleEnd + 3, sp.creditsEnd), Cut(s, sp.creditsEnd + 3, sp.gradeEnd))
  }

  /** The groups are the four slices of the text. */
  lemma GroupsAreSlices(s: string, sp: RowSpan)
    requires InText(s, sp)
    ensures Groups(s, sp) == RowMatch(s[sp.start + 1..sp.courseEnd], s[sp.titleStart..sp.titleEnd],
                                      s[sp.titleEnd + 3..sp.creditsEnd], s[sp.creditsEnd + 3..sp.gradeEnd])
  {
    CutIsSlice(s, sp.start + 1, sp.courseEnd);
    CutIsSlice(s, sp.titleStart, sp.titleEnd);
    CutIsSlice(s, sp.titleEnd + 3, sp.creditsEnd);
    CutIsSlice(s, sp.creditsEnd + 3, sp.gradeEnd);
  }

  /** The separator `","` between the quoted fields of a row. */
  const SEP: string := "\",\""

  predicate SepAt(s: string, t: nat) {
    t + 3 <= |s| && s[t] == '"' && s[t + 1] == ',' && s[t + 2] == '"'
  }

  lemma SepOccurs(s: string, t: nat)
    requires OccursAt(s, t, SEP)
    ensures SepAt(s, t)
  {
    assert s[t] == SEP[0] && s[t + 1] == SEP[1] && s[t + 2] == SEP[2];
  }

  /** `c` is two capitals, then digits up to position `d` (at least three of them), then capitals only. */
  predicate CourseNoSplitAt(c: string, d: nat) {
    && 5 <= d <= |c| && IsUpper(c[0]) && IsUpper(c[1])
    && (forall j :: 2 <= j < d ==> IsDigit(c[j]))
    && (forall j :: d <= j < |c| ==> IsUpper(c[j]))
  }

  /** `[A-Z]{2}\d{3,}[A-Z]*`: two capitals, a run of at least three digits, and a run of capitals, nothing else. */
  predicate IsCourseNo(c: string) {
    exists d | 5 <= d <= |c| :: CourseNoSplitAt(c, d)
  }

  /** The shape of every match: the course number, a one-line title, digits, and up to two capitals. */
  predicate WellFormed(m: RowMatch) {
    && IsCourseNo(m.courseNo)
    && (forall k :: 0 <= k < |m.title| ==> In(m.title[k], NonNewline))
    && IsDigits(m.credits)
    && |m.grade| <= 2 && (forall k :: 0 <= k < |m.grade| ==> IsUpper(m.grade[k]))
  }

  /**
   * The end of the course-number group of a row starting at `i`: a quote,
   * two capitals, a maximal digit run of at least three and a maximal run of
   * capitals. The pattern's trailing `C?` never adds to the group: after the
   * greedy capitals the next character is no capital, and giving one back
   * to `C?` resumes at the same position.
   */
  function CourseNoEnd(s: string, i: nat): (e: Option<nat>)
    ensures e.Some? ==> i + 6 <= e.value <= |s|
  {
    if i + 3 <= |s| && s[i] == '"' && IsUpper(s[i + 1]) && IsUpper(s[i + 2]) then
      var d := Run(s, i + 3, Digits);
      if d < 3 then None else Some(i + 3 + d + Run(s, i + 3 + d, Capitals))
    else None
  }

  /** The group is a course number, and it cannot be extended by a capital. */
  lemma CourseNoEndSound(s: string, i: nat)
    requires CourseNoEnd(s, i).Some?
    ensures IsCourseNo(s[i + 1..CourseNoEnd(s, i).value])
    ensures CourseNoEnd(s, i).value == |s| || !IsUpper(s[CourseNoEnd(s, i).value])
  {
    var d := Run(s, i + 3, Digits);
    RunChars(s, i + 3, Digits);
    RunChars(s, i + 3 + d, Capitals);
    var e := CourseNoEnd(s, i).value;
    var c := s[i + 1..e];
    assert forall j :: 0 <= j < |c| ==> c[j] == s[i + 1 + j];
    assert CourseNoSplitAt(c, 2 + d);
  }

  /**
   * `","(\d+)?","([A-Z]{1,2})?"` at `t`: where the credits digits end and
   * where the grade (the first one or two of a run of capitals) ends, just
   * before the closing quote.
   */
  function TailAt(s: string, t: nat): (r: Option<(nat, nat)>)
    ensures r.Some? ==> t + 3 <= r.value.0 && r.value.0 + 3 <= r.value.1 < |s|
  {
    if !SepAt(s, t) then None
    else
      var p := t + 3 + Run(s, t + 3, Digits);
      if !SepAt(s, p) then None
      else
        var u := Run(s, p + 3, Capitals);
        var q := p + 3 + (if u > 2 then 2 else u);
        if q < |s| && s[q] == '"' then Some((p, q)) else None
  }

  /** The credits are digits and the grade is at most two capitals. */
  lemma TailAtSound(s: string, t: nat)
    requires TailAt(s, t).Some?
    ensures IsDigits(s[t + 3..TailAt(s, t).value.0])
    ensures var g := s[TailAt(s, t).value.0 + 3..TailAt(s, t).value.1];
            |g| <= 2 && forall k :: 0 <= k < |g| ==> IsUpper(g[k])
  {
    var (p, q) := TailAt(s, t).value;
    RunChars(s, t + 3, Digits);
    RunChars(s, p + 3, Capitals);
    var cr := s[t + 3..p];
    assert forall k :: 0 <= k < |cr| ==> cr[k] == s[t + 3 + k];
    var gr := s[p + 3..q];
    assert forall k :: 0 <= k < |gr| ==> gr[k] == s[p + 3 + k];
  }

  /** The first position in `t..hi` at which the tail matches. */
  function FirstTail(s: string, t: nat, hi: nat): (r: Option<nat>)
    ensures r.Some? ==> t <= r.value <= hi
    decreases hi + 1 - t
  {
    if t > hi then None else if TailAt(s, t).Some? then Some(t) else FirstTail(s, t + 1, hi)
  }

  /** The search stops only where the tail matches. */
  lemma {:induction false} FirstTailMatches(s: string, t: nat, hi: nat)
    requires FirstTail(s, t, hi).Some?
    ensures TailAt(s, FirstTail(s, t, hi).value).Some?
    decreases hi + 1 - t
  {
    if TailAt(s, t).None? {
      FirstTailMatches(s, t + 1, hi);
    }
  }

  lemma {:induction false} FirstTailLeftmost(s: string, t: nat, hi: nat)
    ensures FirstTail(s, t, hi).Some? ==> forall u :: t <= u < FirstTail(s, t, hi).value ==> TailAt(s, u).None?
    ensures FirstTail(s, t, hi).None? ==> forall u :: t <= u <= hi ==> TailAt(s, u).None?
    decreases hi + 1 - t
  {
    if t <= hi && TailAt(s, t).None? {
      FirstTailLeftmost(s, t + 1, hi);
    }
  }

  /**
   * Where the title of a row whose title starts at `t0` ends: the shortest
   * gap on the line after which the tail matches (the lazy `(.*?)`).
   */
  function TitleEnd(s: string, t0: nat): (r: Option<nat>)
    requires t0 <= |s|
    ensures r.Some? ==> t0 <= r.value <= t0 + Run(s, t0, NonNewline)
  {
    FirstTail(s, t0, t0 + Run(s, t0, NonNewline))
  }

  /**
   * The course-row pattern at `i`: the course number, whitespace, a
   * separator, then the shortest one-line title after which the tail
   * matches.
   */
  function RowAt(s: string, i: nat): (r: Option<RowSpan>)
    ensures r.Some? ==> r.value.start == i && InText(s, r.value)
  {
    match CourseNoEnd(s, i)
    case None => None
    case Some(e) =>
      var w := Run(s, e, Whitespace);
      if !SepAt(s, e + w) then None
      else
        var t0 := e + w + 3;
        match TitleEnd(s, t0)
        case None => None
        case Some(t) =>
          FirstTailMatches(s, t0, t0 + Run(s, t0, NonNewline));
          var (p, q) := TailAt(s, t).value;
          Some(RowSpan(i, e, t0, t, p, q))
  }

  /** What a row match is made of: the course-number group, the separator, the title and the tail at the title's end. */
  lemma RowAtParts(s: string, i: nat)
    requires RowAt(s, i).Some?
    ensures var sp := RowAt(s, i).value;
            && CourseNoEnd(s, i) == Some(sp.courseEnd)
            && sp.titleStart <= |s| && TitleEnd(s, sp.titleStart) == Some(sp.titleEnd)
            && TailAt(s, sp.titleEnd) == Some((sp.creditsEnd, sp.gradeEnd))
  {
    var e := CourseNoEnd(s, i).value;
    var t0 := e + Run(s, e, Whitespace) + 3;
    FirstTailMatches(s, t0, t0 + Run(s, t0, NonNewline));
  }

  /** The groups of the parts of a row match have the shape of a course row. */
  lemma PartsWellFormed(s: string, sp: RowSpan)
    requires InText(s, sp) && CourseNoEnd(s, sp.start) == Some(sp.courseEnd)
    requires sp.titleStart <= |s| && TitleEnd(s, sp.titleStart) == Some(sp.titleEnd)
    requires TailAt(s, sp.titleEnd) == Some((sp.creditsEnd, sp.gradeEnd))
    ensures WellFormed(Groups(s, sp))
  {
    var g := s[sp.creditsEnd + 3..sp.gradeEnd];
    assert IsCourseNo(s[sp.start + 1..sp.courseEnd]) by { CourseNoEndSound(s, sp.start); }
    assert IsDigits(s[sp.titleEnd + 3..sp.creditsEnd]) && |g| <= 2 && (forall k :: 0 <= k < |g| ==> IsUpper(g[k])) by {
      TailAtSound(s, sp.titleEnd);
    }
    assert forall k :: 0 <= k < |s[sp.titleStart..sp.titleEnd]| ==> In(s[sp.titleStart..sp.titleEnd][k], NonNewline) by {
      TitleOneLine(s, sp.titleStart, sp.titleEnd);
    }
    GroupsWellFormed(s, sp);
  }

  /** The groups are well formed when each of the four slices has its shape. */
  lemma GroupsWellFormed(s: string, sp: RowSpan)
    requires InText(s, sp) && IsCourseNo(s[sp.start + 1..sp.courseEnd])
    requires forall k :: 0 <= k < |s[sp.titleStart..sp.titleEnd]| ==> In(s[sp.titleStart..sp.titleEnd][k], NonNewline)
    requires IsDigits(s[sp.titleEnd + 3..sp.creditsEnd])
    requires var g := s[sp.creditsEnd + 3..sp.gradeEnd]; |g| <= 2 && forall k :: 0 <= k < |g| ==> IsUpper(g[k])
    ensures WellFormed(Groups(s, sp))
  {
    GroupsAreSlices(s, sp);
  }

  /** The title lies on one line. */
  lemma TitleOneLine(s: string, t0: nat, t: nat)
    requires t0 <= |s| && TitleEnd(s, t0) == Some(t)
    ensures forall k :: 0 <= k < |s[t0..t]| ==> In(s[t0..t][k], NonNewline)
  {
    RunChars(s, t0, NonNewline);
  }

  /** Every match has the shape of a course row. */
  lemma RowAtSound(s: string, i: nat)
    requires RowAt(s, i).Some?
    ensures WellFormed(Groups(s, RowAt(s, i).value))
  {
    RowAtParts(s, i);
    PartsWellFormed(s, RowAt(s, i).value);
  }

  /** The leftmost row match from `pos` on. */
  function NextRow(s: string, pos: nat): (r: Option<RowSpan>)
    ensures r.Some? ==> pos <= r.value.start && InText(s, r.value)
    decreases |s| + 1 - pos
  {
    if pos > |s| then None
    else
      match RowAt(s, pos)
      case Some(sp) => Some(sp)
      case None => NextRow(s, pos + 1)
  }

  lemma NextRowHere(s: string, pos: nat)
    requires pos <= |s| && RowAt(s, pos).Some?
    ensures NextRow(s, pos) == RowAt(s, pos)
  {
  }

  lemma NextRowSkip(s: string, pos: nat)
    requires pos <= |s| && RowAt(s, pos).None?
    ensures NextRow(s, pos) == NextRow(s, pos + 1)
  {
  }

  /** Every row the scan reports has the shape of a course row. */
  lemma {:induction false} NextRowSound(s: string, pos: nat)
    requires NextRow(s, pos).Some?
    ensures WellFormed(Groups(s, NextRow(s, pos).value))
    decreases |s| + 1 - pos
  {
    if RowAt(s, pos).None? {
      NextRowSkip(s, pos);
      NextRowSound(s, pos + 1);
    } else {
      NextRowHere(s, pos);
      RowAtSound(s, pos);
    }
  }

  /** The scan moves to the first position where a row matches: no row matches at a position it skips. */
  lemma {:induction false} NextRowLeftmost(s: string, pos: nat, i: nat)
    requires pos <= i <= |s|
    requires NextRow(s, pos).None? || i < NextRow(s, pos).value.start
    ensures RowAt(s, i).None?
    decreases i - pos
  {
    if RowAt(s, pos).None? && i > pos {
      NextRowSkip(s, pos);
      NextRowLeftmost(s, pos + 1, i);
    }
  }

  /** The leftmost match from `pos` on: its groups and the position after its closing quote. */
  function NextMatch(s: string, pos: nat): (r: Option<(RowMatch, nat)>)
    ensures r.None? <==> NextRow(s, pos).None?
    ensures r.Some? ==> r.value.0 == Groups(s, NextRow(s, pos).value) && r.value.1 == NextRow(s, pos).value.gradeEnd + 1
    ensures r.Some? ==> pos < r.value.1 <= |s|
  {
    match NextRow(s, pos)
    case None => None
    case Some(sp) => Some((Groups(s, sp), sp.gradeEnd + 1))
  }

  /** `findall` from `pos`: the leftmost match, then the scan resumes after its closing quote. */
  function FindAllRows(s: string, pos: nat): seq<RowMatch>
    decreases |s| - pos
  {
    match NextMatch(s, pos)
    case None => []
    case Some((m, next)) => [m] + FindAllRows(s, next)
  }

  /** Every match the scan reports has the shape of a course row. */
  lemma NextMatchSound(s: string, pos: nat)
    requires NextMatch(s, pos).Some?
    ensures WellFormed(NextMatch(s, pos).value.0)
  {
    NextRowSound(s, pos);
  }

  lemma {:induction false} FindAllRowsWellFormed(s: string, pos: nat)
    ensures forall k :: 0 <= k < |FindAllRows(s, pos)| ==> WellFormed(FindAllRows(s, pos)[k])
    decreases |s| - pos
  {
    match NextMatch(s, pos)
    case None =>
      FindAllEnd(s, pos);
    case Some((m, next)) =>
      NextMatchSound(s, pos);
      FindAllRowsWellFormed(s, next);
      FindAllStep(s, pos, m, next);
      AllWellFormedCons(m, FindAllRows(s, next));
  }

  lemma AllWellFormedCons(m: RowMatch, rest: seq<RowMatch>)
    requires WellFormed(m) && forall k :: 0 <= k < |rest| ==> WellFormed(rest[k])
    ensures forall k :: 0 <= k < |[m] + rest| ==> WellFormed(([m] + rest)[k])
  {
  }

  // ---------------------------------------------------------------------
  // Round trips: a rendered row is read back

  /** The part of a rendered row after the title. */
  function RenderTail(credits: string, grade: string): string {
    SEP + (credits + (SEP + (grade + "\"")))
  }

  /** A course row as it appears in the text: four quoted fields separated by commas. */
  function Render(m: RowMatch): string {
    "\"" + (m.courseNo + (SEP + (m.title + RenderTail(m.credits, m.grade))))
  }

  /** Rows written one after the other. */
  function RenderAll(ms: seq<RowMatch>): string
    decreases |ms|
  {
    if ms == [] then [] else Render(ms[0]) + RenderAll(ms[1..])
  }

  /** After the leading capitals, a course number is a digit run followed by capitals only. */
  lemma CourseNoShape(cn: string)
    requires IsCourseNo(cn)
    ensures CourseNoSplitAt(cn, 2 + Run(cn, 2, Digits))
  {
    var d :| 5 <= d <= |cn| && CourseNoSplitAt(cn, d);
    RunCovers(cn, 2, d - 2, Digits);
    RunChars(cn, 2, Digits);
    if d < |cn| {
      assert IsUpper(cn[d]);
    }
  }

  /** Inside a rendered course number the digit run and the capital run are those of the course number. */
  lemma CourseNoRuns(s: string, i: nat, cn: string)
    requires IsCourseNo(cn) && OccursAt(s, i + 1, cn)
    requires i + 1 + |cn| < |s| && s[i + 1 + |cn|] == '"'
    ensures Run(s, i + 3, Digits) == Run(cn, 2, Digits) >= 3
    ensures Run(s, i + 3 + Run(cn, 2, Digits), Capitals) == |cn| - 2 - Run(cn, 2, Digits)
  {
    CourseNoShape(cn);
    var d := 2 + Run(cn, 2, Digits);
    RunInfix(s, i + 1, cn, 2, Digits);
    RunCovers(cn, d, |cn| - d, Capitals);
    RunInfix(s, i + 1, cn, d, Capitals);
  }

  /** The course-number group from the character facts it is defined by. */
  lemma CourseNoEndOf(s: string, i: nat, d: nat, c: nat)
    requires i + 3 <= |s| && s[i] == '"' && IsUpper(s[i + 1]) && IsUpper(s[i + 2])
    requires Run(s, i + 3, Digits) == d >= 3 && i + 3 + d <= |s| && Run(s, i + 3 + d, Capitals) == c
    ensures CourseNoEnd(s, i) == Some(i + 3 + d + c)
  {
  }

  /** The course-number group of a rendered row ends where the course number does. */
  lemma CourseNoEndRendered(s: string, i: nat, cn: string)
    requires IsCourseNo(cn) && i + 1 + |cn| < |s|
    requires s[i] == '"' && OccursAt(s, i + 1, cn) && s[i + 1 + |cn|] == '"'
    ensures CourseNoEnd(s, i) == Some(i + 1 + |cn|)
  {
    assert s[i + 1] == cn[0] && s[i + 2] == cn[1];
    CourseNoRuns(s, i, cn);
    CourseNoEndOf(s, i, Run(cn, 2, Digits), |cn| - 2 - Run(cn, 2, Digits));
  }

  /** The tail from the facts it is defined by, for a grade of at most two capitals. */
  lemma TailAtOf(s: string, t: nat, c: nat, g: nat)
    requires SepAt(s, t) && Run(s, t + 3, Digits) == c && SepAt(s, t + 3 + c) && g <= 2
    requires Run(s, t + 6 + c, Capitals) == g && t + 6 + c + g < |s| && s[t + 6 + c + g] == '"'
    ensures TailAt(s, t) == Some((t + 3 + c, t + 6 + c + g))
  {
  }

  /** The occurrences that make up a rendered tail. */
  lemma TailParts(s: string, t: nat, cr: string, gr: string)
    requires OccursAt(s, t, RenderTail(cr, gr))
    ensures SepAt(s, t) && OccursAt(s, t + 3, cr) && SepAt(s, t + 3 + |cr|)
    ensures OccursAt(s, t + 6 + |cr|, gr) && t + 6 + |cr| + |gr| < |s| && s[t + 6 + |cr| + |gr|] == '"'
  {
    OccursSplit(s, t, SEP, cr + (SEP + (gr + "\"")));
    OccursSplit(s, t + 3, cr, SEP + (gr + "\""));
    OccursSplit(s, t + 3 + |cr|, SEP, gr + "\"");
    OccursSplit(s, t + 6 + |cr|, gr, "\"");
    SepOccurs(s, t);
    SepOccurs(s, t + 3 + |cr|);
    assert s[t + 6 + |cr| + |gr|] == "\""[0];
  }

  /** The tail pattern finds the credits and grade of a rendered tail. */
  lemma TailAtRendered(s: string, t: nat, cr: string, gr: string)
    requires IsDigits(cr) && |gr| <= 2 && forall k :: 0 <= k < |gr| ==> IsUpper(gr[k])
    requires OccursAt(s, t, RenderTail(cr, gr))
    ensures TailAt(s, t) == Some((t + 3 + |cr|, t + 6 + |cr| + |gr|))
  {
    TailParts(s, t, cr, gr);
    RunOfOccurrence(s, t + 3, cr, Digits);
    RunOfOccurrence(s, t + 6 + |cr|, gr, Capitals);
    TailAtOf(s, t, |cr|, |gr|);
  }

  /** No tail starts at a character other than a quote. */
  lemma NoTailAt(s: string, t: nat)
    requires t < |s| && s[t] != '"'
    ensures TailAt(s, t).None?
  {
  }

  /** The shortest gap before a tail match is the whole title, when the title has no quote and no newline. */
  lemma TitleRendered(s: string, t0: nat, ti: string)
    requires '"' !in ti && forall k :: 0 <= k < |ti| ==> In(ti[k], NonNewline)
    requires OccursAt(s, t0, ti) && TailAt(s, t0 + |ti|).Some?
    ensures TitleEnd(s, t0) == Some(t0 + |ti|)
  {
    FirstTailLeftmost(s, t0, t0 + Run(s, t0, NonNewline));
    assert forall j :: t0 <= j < t0 + |ti| ==> s[j] == ti[j - t0];
    RunCovers(s, t0, |ti|, NonNewline);
    forall t | t0 <= t < t0 + |ti| ensures TailAt(s, t).None? {
      assert t < |s| && s[t] == ti[t - t0] && ti[t - t0] in ti;
      NoTailAt(s, t);
    }
    var hi := t0 + Run(s, t0, NonNewline);
    assert FirstTail(s, t0, hi).Some?;
    FirstTailMatches(s, t0, hi);
  }

  /** A row match from the facts it is defined by. */
  lemma RowAtOf(s: string, i: nat, e: nat, t: nat, p: nat, q: nat)
    requires CourseNoEnd(s, i) == Some(e) && SepAt(s, e)
    requires e + 3 <= t <= |s| && TitleEnd(s, e + 3) == Some(t) && TailAt(s, t) == Some((p, q))
    ensures RowAt(s, i) == Some(RowSpan(i, e, e + 3, t, p, q))
  {
    assert Run(s, e, Whitespace) == 0;
  }

  /** The occurrences that make up a rendered row. */
  lemma RowParts(s: string, i: nat, m: RowMatch)
    requires OccursAt(s, i, Render(m))
    ensures i + 1 + |m.courseNo| < |s| && s[i] == '"'
    ensures OccursAt(s, i + 1, m.courseNo) && SepAt(s, i + 1 + |m.courseNo|)
    ensures OccursAt(s, i + 4 + |m.courseNo|, m.title)
    ensures OccursAt(s, i + 4 + |m.courseNo| + |m.title|, RenderTail(m.credits, m.grade))
    ensures s[i + 1 + |m.courseNo|] == '"'
  {
    var cn, ti := m.courseNo, m.title;
    var e := i + 1 + |cn|;
    OccursSplit(s, i, "\"", cn + (SEP + (ti + RenderTail(m.credits, m.grade))));
    OccursSplit(s, i + 1, cn, SEP + (ti + RenderTail(m.credits, m.grade)));
    OccursSplit(s, e, SEP, ti + RenderTail(m.credits, m.grade));
    OccursSplit(s, e + 3, ti, RenderTail(m.credits, m.grade));
    SepOccurs(s, e);
    assert s[i] == "\""[0];
  }

  /** The span the pattern finds for a rendered row. */
  function RenderedSpan(i: nat, m: RowMatch): RowSpan {
    var e := i + 1 + |m.courseNo|;
    var t := e + 3 + |m.title|;
    RowSpan(i, e, e + 3, t, t + 3 + |m.credits|, t + 6 + |m.credits| + |m.grade|)
  }

  /** In a rendered well-formed row whose title has no quote, each part of the pattern finds its field. */
  lemma RowComponents(s: string, i: nat, m: RowMatch)
    requires WellFormed(m) && '"' !in m.title
    requires OccursAt(s, i, Render(m))
    ensures var sp := RenderedSpan(i, m);
            && CourseNoEnd(s, i) == Some(sp.courseEnd) && SepAt(s, sp.courseEnd)
            && sp.titleStart <= sp.titleEnd <= |s| && TitleEnd(s, sp.titleStart) == Some(sp.titleEnd)
            && TailAt(s, sp.titleEnd) == Some((sp.creditsEnd, sp.gradeEnd))
  {
    var e := i + 1 + |m.courseNo|;
    var t := e + 3 + |m.title|;
    RowParts(s, i, m);
    CourseNoEndRendered(s, i, m.courseNo);
    TailAtRendered(s, t, m.credits, m.grade);
    TitleRendered(s, e + 3, m.title);
  }

  /** The groups of a span are the fields that occur where the span says. */
  lemma GroupsOfFields(s: string, sp: RowSpan, m: RowMatch)
    requires InText(s, sp)
    requires sp.courseEnd == sp.start + 1 + |m.courseNo| && OccursAt(s, sp.start + 1, m.courseNo)
    requires sp.titleEnd == sp.titleStart + |m.title| && OccursAt(s, sp.titleStart, m.title)
    requires sp.creditsEnd == sp.titleEnd + 3 + |m.credits| && OccursAt(s, sp.titleEnd + 3, m.credits)
    requires sp.gradeEnd == sp.creditsEnd + 3 + |m.grade| && OccursAt(s, sp.creditsEnd + 3, m.grade)
    ensures Groups(s, sp) == m
  {
    OccursSlice(s, sp.start + 1, m.courseNo);
    OccursSlice(s, sp.titleStart, m.title);
    OccursSlice(s, sp.titleEnd + 3, m.credits);
    OccursSlice(s, sp.creditsEnd + 3, m.grade);
    GroupsAreSlices(s, sp);
  }

  /** The groups cut out of a rendered row are the row's fields. */
  lemma GroupsRendered(s: string, i: nat, m: RowMatch)
    requires OccursAt(s, i, Render(m))
    ensures InText(s, RenderedSpan(i, m)) && Groups(s, RenderedSpan(i, m)) == m
  {
    var sp := RenderedSpan(i, m);
    RowParts(s, i, m);
    TailParts(s, sp.titleEnd, m.credits, m.grade);
    GroupsOfFields(s, sp, m);
  }

  /** The scan's step at a position where a row matches. */
  lemma NextMatchAt(s: string, pos: nat, sp: RowSpan)
    requires pos <= |s| && RowAt(s, pos) == Some(sp)
    ensures NextMatch(s, pos) == Some((Groups(s, sp), sp.gradeEnd + 1))
  {
    NextRowHere(s, pos);
  }

  /** The scan finds nothing at the end of the text. */
  lemma NothingAtEnd(s: string)
    ensures NextMatch(s, |s|).None?
  {
    assert RowAt(s, |s|).None?;
    NextRowSkip(s, |s|);
  }

  /**
   * The steps of the scan from `ps[0]`: the step at `ps[k]` reports `ms[k]`
   * and resumes at `ps[k + 1]`, and the step at the last position finds
   * nothing.
   */
  predicate Steps(s: string, ps: seq<nat>, ms: seq<RowMatch>) {
    && |ps| == |ms| + 1
    && (forall k {:trigger NextMatch(s, ps[k])} :: 0 <= k < |ms| ==> NextMatch(s, ps[k]) == Some((ms[k], ps[k + 1])))
    && NextMatch(s, ps[|ms|]).None?
  }

  /** A step that reports a match puts it in front of what `findall` collects from where it resumes. */
  lemma FindAllStep(s: string, pos: nat, m: RowMatch, next: nat)
    requires NextMatch(s, pos) == Some((m, next))
    ensures FindAllRows(s, pos) == [m] + FindAllRows(s, next)
  {
  }

  /** A step that finds nothing ends `findall`. */
  lemma FindAllEnd(s: string, pos: nat)
    requires NextMatch(s, pos).None?
    ensures FindAllRows(s, pos) == []
  {
  }

  lemma SliceCons<T>(xs: seq<T>, k: nat)
    requires k < |xs|
    ensures xs[k..] == [xs[k]] + xs[k + 1..]
  {
  }

  /** `findall` collects what the successive steps report. */
  lemma {:induction false} StepsFindAll(s: string, ps: seq<nat>, ms: seq<RowMatch>, k: nat)
    requires Steps(s, ps, ms) && k <= |ms|
    ensures FindAllRows(s, ps[k]) == ms[k..]
    decreases |ms| - k
  {
    if k < |ms| {
      StepsFindAll(s, ps, ms, k + 1);
      FindAllStep(s, ps[k], ms[k], ps[k + 1]);
      SliceCons(ms, k);
    } else {
      FindAllEnd(s, ps[k]);
    }
  }

  /** The scan's step from the parts of a row match. */
  lemma StepOf(s: string, pos: nat, sp: RowSpan, m: RowMatch)
    requires sp.start == pos && sp.titleStart == sp.courseEnd + 3 && InText(s, sp)
    requires CourseNoEnd(s, pos) == Some(sp.courseEnd) && SepAt(s, sp.courseEnd)
    requires TitleEnd(s, sp.titleStart) == Some(sp.titleEnd)
    requires TailAt(s, sp.titleEnd) == Some((sp.creditsEnd, sp.gradeEnd))
    requires Groups(s, sp) == m
    ensures NextMatch(s, pos) == Some((m, sp.gradeEnd + 1))
  {
    RowAtOf(s, pos, sp.courseEnd, sp.titleEnd, sp.creditsEnd, sp.gradeEnd);
    NextMatchAt(s, pos, sp);
  }

  /**
   * What the pattern finds in a row rendered at `pos`: each of its parts
   * matches at the place the rendering put it, and the groups are the row's
   * fields.
   */
  predicate RowFound(s: string, pos: nat, m: RowMatch) {
    var sp := RenderedSpan(pos, m);
    && InText(s, sp) && Groups(s, sp) == m
    && CourseNoEnd(s, pos) == Some(sp.courseEnd) && SepAt(s, sp.courseEnd)
    && TitleEnd(s, sp.titleStart) == Some(sp.titleEnd)
    && TailAt(s, sp.titleEnd) == Some((sp.creditsEnd, sp.gradeEnd))
  }

  /** A well-formed row whose title has no quote is found where it was rendered, and ends where its rendering does. */
  lemma RenderedFound(s: string, pos: nat, m: RowMatch)
    requires WellFormed(m) && '"' !in m.title
    requires OccursAt(s, pos, Render(m))
    ensures RowFound(s, pos, m) && RenderedSpan(pos, m).gradeEnd + 1 == pos + |Render(m)|
  {
    RowComponents(s, pos, m);
    GroupsRendered(s, pos, m);
  }

  /** The step at a row that is found reports it and resumes after its closing quote. */
  lemma FoundStep(s: string, pos: nat, m: RowMatch)
    requires RowFound(s, pos, m)
    ensures NextMatch(s, pos) == Some((m, RenderedSpan(pos, m).gradeEnd + 1))
  {
    StepOf(s, pos, RenderedSpan(pos, m), m);
  }

  /** Where each of the rows `ms`, rendered one after the other from `pos`, starts, and where the last one ends. */
  function Offsets(pos: nat, ms: seq<RowMatch>): (ps: seq<nat>)
    ensures |ps| == |ms| + 1 && ps[0] == pos
    decreases |ms|
  {
    if ms == [] then [pos] else [pos] + Offsets(pos + |Render(ms[0])|, ms[1..])
  }

  /** The offsets after the first row are those of the remaining rows. */
  lemma OffsetsTail(pos: nat, ms: seq<RowMatch>)
    requires ms != []
    ensures Offsets(pos, ms)[1..] == Offsets(pos + |Render(ms[0])|, ms[1..])
  {
  }

  /** In rendered rows, row `k` occurs at its offset, and the next offset is right after it. */
  lemma {:induction false} RenderedAt(s: string, pos: nat, ms: seq<RowMatch>, k: nat)
    requires OccursAt(s, pos, RenderAll(ms)) && k < |ms|
    ensures OccursAt(s, Offsets(pos, ms)[k], Render(ms[k]))
    ensures Offsets(pos, ms)[k + 1] == Offsets(pos, ms)[k] + |Render(ms[k])|
    decreases k
  {
    var R := Render(ms[0]);
    OccursSplit(s, pos, R, RenderAll(ms[1..]));
    OffsetsTail(pos, ms);
    if k > 0 {
      RenderedAt(s, pos + |R|, ms[1..], k - 1);
      assert ms[1..][k - 1] == ms[k];
    }
  }

  /** The last offset of rendered rows is where their rendering ends. */
  lemma {:induction false} RenderedEnd(pos: nat, ms: seq<RowMatch>)
    ensures Offsets(pos, ms)[|ms|] == pos + |RenderAll(ms)|
    decreases |ms|
  {
    if ms != [] {
      var R, rest := Render(ms[0]), ms[1..];
      RenderedEnd(pos + |R|, rest);
      OffsetsTail(pos, ms);
      assert Offsets(pos, ms)[|ms|] == Offsets(pos + |R|, rest)[|rest|];
      assert |RenderAll(ms)| == |R| + |RenderAll(rest)|;
    }
  }

  /** In rendered rows, each row occurs at its offset, and the last offset is the end of the text. */
  lemma RenderedAtOffsets(s: string, pos: nat, ms: seq<RowMatch>)
    requires OccursAt(s, pos, RenderAll(ms)) && pos + |RenderAll(ms)| == |s|
    ensures forall k {:trigger ms[k]} :: 0 <= k < |ms| ==> OccursAt(s, Offsets(pos, ms)[k], Render(ms[k]))
    ensures forall k {:trigger ms[k]} :: 0 <= k < |ms| ==> Offsets(pos, ms)[k + 1] == Offsets(pos, ms)[k] + |Render(ms[k])|
    ensures Offsets(pos, ms)[|ms|] == |s|
  {
    forall k | 0 <= k < |ms|
      ensures OccursAt(s, Offsets(pos, ms)[k], Render(ms[k]))
      ensures Offsets(pos, ms)[k + 1] == Offsets(pos, ms)[k] + |Render(ms[k])|
    {
      RenderedAt(s, pos, ms, k);
    }
    RenderedEnd(pos, ms);
  }

  /** Rows occurring at their offsets are found there. */
  lemma RenderedFoundAll(s: string, ps: seq<nat>, ms: seq<RowMatch>)
    requires |ps| == |ms| + 1
    requires forall k :: 0 <= k < |ms| ==> WellFormed(ms[k]) && '"' !in ms[k].title
    requires forall k {:trigger ms[k]} :: 0 <= k < |ms| ==> OccursAt(s, ps[k], Render(ms[k]))
    requires forall k {:trigger ms[k]} :: 0 <= k < |ms| ==> ps[k + 1] == ps[k] + |Render(ms[k])|
    ensures forall k {:trigger ms[k]} :: 0 <= k < |ms| ==> RowFound(s, ps[k], ms[k]) && ps[k + 1] == RenderedSpan(ps[k], ms[k]).gradeEnd + 1
  {
    forall k | 0 <= k < |ms|
      ensures RowFound(s, ps[k], ms[k]) && ps[k + 1] == RenderedSpan(ps[k], ms[k]).gradeEnd + 1
    {
      RenderedFound(s, ps[k], ms[k]);
    }
  }

  /** Rows found one after the other, up to the end of the text, are what the successive steps report. */
  lemma FoundSteps(s: string, ps: seq<nat>, ms: seq<RowMatch>)
    requires |ps| == |ms| + 1 && ps[|ms|] == |s|
    requires forall k {:trigger ms[k]} :: 0 <= k < |ms| ==> RowFound(s, ps[k], ms[k]) && ps[k + 1] == RenderedSpan(ps[k], ms[k]).gradeEnd + 1
    ensures Steps(s, ps, ms)
  {
    forall k | 0 <= k < |ms|
      ensures NextMatch(s, ps[k]) == Some((ms[k], ps[k + 1]))
    {
      FoundStep(s, ps[k], ms[k]);
    }
    assert NextMatch(s, ps[|ms|]).None? by { NothingAtEnd(s); }
  }

  /** Scanning rendered rows finds exactly those rows, in order. */
  lemma FindAllRendered(s: string, pos: nat, ms: seq<RowMatch>)
    requires forall k :: 0 <= k < |ms| ==> WellFormed(ms[k]) && '"' !in ms[k].title
    requires OccursAt(s, pos, RenderAll(ms)) && pos + |RenderAll(ms)| == |s|
    ensures FindAllRows(s, pos) == ms
  {
    RenderedAtOffsets(s, pos, ms);
    RenderedFoundAll(s, Offsets(pos, ms), ms);
    FoundSteps(s, Offsets(pos, ms), ms);
    StepsFindAll(s, Offsets(pos, ms), ms, 0);
  }

  // ---------------------------------------------------------------------
  // Round trips: a labelled field is read back

  /** A tag, one space, a token that does not start with whitespace, and then a character outside the token's class: the token is read back. */
  lemma TokenAfterReads(s: string, i: nat, tag: string, x: string, cls: CharClass)
    requires OccursAt(s, i, tag) && i + |tag| < |s| && s[i + |tag|] == ' '
    requires |x| >= 1 && !IsSpace(x[0]) && OccursAt(s, i + |tag| + 1, x) && forall k :: 0 <= k < |x| ==> In(x[k], cls)
    requires i + |tag| + 1 + |x| == |s| || !In(s[i + |tag| + 1 + |x|], cls)
    ensures TokenAfter(s, i, tag, cls) == Some(x)
  {
    var j := i + |tag| + 1;
    assert s[j] == x[0];
    SingleSpace(s, i + |tag|);
    RunOfOccurrence(s, j, x, cls);
    TokenAfterOf(s, i, tag, cls, 1, |x|);
  }

  /** One space followed by a character that is not whitespace is a whitespace run of length one. */
  lemma SingleSpace(s: string, p: nat)
    requires p + 1 < |s| && s[p] == ' ' && !IsSpace(s[p + 1])
    ensures Run(s, p, Whitespace) == 1
  {
  }

  /** The token from the runs it is defined by. */
  lemma TokenAfterOf(s: string, i: nat, tag: string, cls: CharClass, w: nat, n: nat)
    requires OccursAt(s, i, tag) && Run(s, i + |tag|, Whitespace) == w
    requires Run(s, i + |tag| + w, cls) == n >= 1
    ensures TokenAfter(s, i, tag, cls) == Some(s[i + |tag| + w..i + |tag| + w + n])
  {
  }

  /** A tag and a run of a class that holds of whitespace, then a character outside the class: the stripped run is read back. */
  lemma StrippedRunReads(s: string, i: nat, tag: string, run: string, cls: CharClass)
    requires OccursAt(s, i, tag) && OccursAt(s, i + |tag|, run) && |run| >= 1
    requires forall k :: 0 <= k < |run| ==> In(run[k], cls)
    requires i + |tag| + |run| == |s| || !In(s[i + |tag| + |run|], cls)
    ensures StrippedRunAfter(s, i, tag, cls) == Some(Strip(run))
  {
    RunOfOccurrence(s, i + |tag|, run, cls);
    StrippedRunOf(s, i, tag, run, cls);
  }

  lemma StrippedRunOf(s: string, i: nat, tag: string, run: string, cls: CharClass)
    requires OccursAt(s, i, tag) && i + |tag| <= |s| && |run| >= 1
    requires Run(s, i + |tag|, cls) == |run| && s[i + |tag|..i + |tag| + |run|] == run
    ensures StrippedRunAfter(s, i, tag, cls) == Some(Strip(run))
  {
  }

  /** The parts of a line made of a tag, a space, a value and the rest of the text. */
  lemma LineParts(s: string, tag: string, x: string, rest: string, cls: CharClass)
    requires s == tag + (" " + (x + rest)) && |x| >= 1
    requires rest == [] || !In(rest[0], cls)
    ensures OccursAt(s, 0, tag) && |tag| < |s| && s[|tag|] == ' ' && OccursAt(s, |tag| + 1, x)
    ensures |tag| + 1 + |x| == |s| || !In(s[|tag| + 1 + |x|], cls)
  {
    OccursConcat(s, tag, " ", x + rest);
    OccursSplit(s, |tag| + 1, x, rest);
    assert s[|tag|] == " "[0];
    if rest != [] {
      assert s[|tag| + 1 + |x|] == rest[0];
    }
  }

  /** `Roll No:`, a space, a roll number and then anything that does not continue it: the roll number is read back. */
  lemma RollNoOfLine(roll: string, rest: string)
    requires |roll| >= 1 && forall k :: 0 <= k < |roll| ==> In(roll[k], ROLL_CLASS)
    requires rest == [] || !In(rest[0], ROLL_CLASS)
    ensures RollNo(ROLL_LABEL + (" " + (roll + rest))) == Some(roll)
  {
    var s := ROLL_LABEL + (" " + (roll + rest));
    LineParts(s, ROLL_LABEL, roll, rest, ROLL_CLASS);
    TokenAfterReads(s, 0, ROLL_LABEL, roll, ROLL_CLASS);
    SearchAtStart(s, RollNoField, roll);
  }

  /** A tag followed by a run of a class that holds of whitespace: the parts of the line. */
  lemma PaddedLineParts(s: string, tag: string, run: string, rest: string, cls: CharClass)
    requires s == tag + (run + rest) && |run| >= 1
    requires rest == [] || !In(rest[0], cls)
    ensures OccursAt(s, 0, tag) && OccursAt(s, |tag|, run)
    ensures |tag| + |run| == |s| || !In(s[|tag| + |run|], cls)
  {
    OccursSplit(s, 0, tag, run + rest);
    OccursSplit(s, |tag|, run, rest);
    if rest != [] {
      assert s[|tag| + |run|] == rest[0];
    }
  }

  /** `x` padded by whitespace on both sides, all of it in a class that holds of whitespace. */
  predicate PaddedIn(pre: string, x: string, post: string, cls: CharClass) {
    && x != [] && !IsSpace(x[0]) && !IsSpace(x[|x| - 1])
    && (forall k :: 0 <= k < |pre| ==> IsSpace(pre[k]) && In(pre[k], cls))
    && (forall k :: 0 <= k < |x| ==> In(x[k], cls))
    && (forall k :: 0 <= k < |post| ==> IsSpace(post[k]) && In(post[k], cls))
  }

  /** A tag, a padded value and a character that does not continue the run: the stripped value is read back. */
  lemma StrippedLineReads(s: string, tag: string, pre: string, x: string, post: string, rest: string, cls: CharClass)
    requires PaddedIn(pre, x, post, cls) && |pre| >= 1
    requires s == tag + (pre + x + post + rest)
    requires rest == [] || !In(rest[0], cls)
    ensures StrippedRunAfter(s, 0, tag, cls) == Some(x)
  {
    var run := pre + x + post;
    assert forall k :: 0 <= k < |run| ==> In(run[k], cls) by {
      assert forall k :: 0 <= k < |pre| ==> run[k] == pre[k];
      assert forall k :: 0 <= k < |x| ==> run[|pre| + k] == x[k];
      assert forall k :: 0 <= k < |post| ==> run[|pre| + |x| + k] == post[k];
    }
    PaddedLineParts(s, tag, run, rest, cls);
    StrippedRunReads(s, 0, tag, run, cls);
    StripPadded(pre, x, post);
  }

  /** `Name:`, a space, a name, whitespace, and then a character that does not continue the name: the name is read back. */
  lemma NameOfLine(name: string, pad: string, rest: string)
    requires PaddedIn(" ", name, pad, NAME_CLASS)
    requires rest == [] || !In(rest[0], NAME_CLASS)
    ensures Name(NAME_LABEL + (" " + name + pad + rest)) == Some(name)
  {
    var s := NAME_LABEL + (" " + name + pad + rest);
    StrippedLineReads(s, NAME_LABEL, " ", name, pad, rest, NAME_CLASS);
    SearchAtStart(s, NameField, name);
  }

  /** `Department:`, a space, a department, whitespace, and then a character that does not continue it: the department is read back. */
  lemma DepartmentOfLine(dept: string, pad: string, rest: string)
    requires PaddedIn(" ", dept, pad, DEPARTMENT_CLASS)
    requires rest == [] || !In(rest[0], DEPARTMENT_CLASS)
    ensures Department(DEPARTMENT_LABEL + (" " + dept + pad + rest)) == Some(dept)
  {
    var s := DEPARTMENT_LABEL + (" " + dept + pad + rest);
    StrippedLineReads(s, DEPARTMENT_LABEL, " ", dept, pad, rest, DEPARTMENT_CLASS);
    SearchAtStart(s, DepartmentField, dept);
  }

  /**
   * The name class takes in line breaks: a name line followed directly by
   * the department line reads as the name, a line break and the `D` of
   * `Department:`.
   */
  lemma NameRunsIntoNextLine(name: string, rest: string)
    requires PaddedIn(" ", name, [], NAME_CLASS)
    ensures Name(NAME_LABEL + (" " + (name + "\nD") + [] + ("epartment:" + rest))) == Some(name + "\nD")
  {
    var x := name + "\nD";
    assert forall k :: 0 <= k < |name| ==> x[k] == name[k];
    assert x[|name|] == '\n' && x[|name| + 1] == 'D';
    assert PaddedIn(" ", x, [], NAME_CLASS);
    var s := NAME_LABEL + (" " + x + [] + ("epartment:" + rest));
    assert (" " + x + [] + ("epartment:" + rest)) == " " + (name + "\nD") + [] + ("epartment:" + rest);
    NameOfLine(x, [], "epartment:" + rest);
  }

  /** The department class has no `&`: `AI & DS` reads as `AI`. */
  lemma DepartmentStopsAtAmpersand(a: string, b: string)
    requires PaddedIn(" ", a, " ", DEPARTMENT_CLASS)
    ensures Department(DEPARTMENT_LABEL + (" " + a + " " + ("& " + b))) == Some(a)
  {
    DepartmentOfLine(a, " ", "& " + b);
  }

  /** The CGPA line: after the tag, one space, then `is`, a space and the number: the number is read back. */
  lemma CgpaOfLine(x: string, rest: string)
    requires |x| >= 1 && forall k :: 0 <= k < |x| ==> In(x[k], NUMBER_CLASS)
    requires rest == [] || !In(rest[0], NUMBER_CLASS)
    ensures Cgpa(CGPA_LABEL + (" " + (CGPA_MARKER + (" " + (x + rest))))) == Some(x)
  {
    var s := CGPA_LABEL + (" " + (CGPA_MARKER + (" " + (x + rest))));
    assert !IsSpace(x[0]);
    MarkedLineParts(s, CGPA_LABEL, CGPA_MARKER, x, rest, NUMBER_CLASS);
    LazyLineReads(s, CGPA_LABEL, CGPA_MARKER, x, NUMBER_CLASS);
    SearchAtStart(s, CgpaField, x);
  }

  /** The parts of a line made of a tag, a space, a marker, a space, a value and the rest of the text. */
  lemma MarkedLineParts(s: string, tag: string, marker: string, x: string, rest: string, cls: CharClass)
    requires s == tag + (" " + (marker + (" " + (x + rest))))
    requires rest == [] || !In(rest[0], cls)
    ensures OccursAt(s, 0, tag) && s[|tag|] == ' ' && OccursAt(s, |tag| + 1, marker)
    ensures |tag| + 1 + |marker| < |s| && s[|tag| + 1 + |marker|] == ' ' && OccursAt(s, |tag| + |marker| + 2, x)
    ensures |tag| + |marker| + 2 + |x| == |s| || !In(s[|tag| + |marker| + 2 + |x|], cls)
  {
    var p := |tag| + |marker| + 2;
    assert s[|tag|] == ' ' && s[|tag| + 1 + |marker|] == ' ';
    assert forall k :: 0 <= k < |tag| ==> s[k] == tag[k];
    assert forall k :: 0 <= k < |marker| ==> s[|tag| + 1 + k] == marker[k];
    assert forall k :: 0 <= k < |x| ==> s[p + k] == x[k];
    if rest != [] {
      assert s[p + |x|] == rest[0];
    }
  }

  /** A tag, a space, a marker, a space, a token and a character that does not continue it: the lazy pattern reads the token. */
  lemma LazyLineReads(s: string, tag: string, marker: string, x: string, cls: CharClass)
    requires |marker| >= 1 && marker[0] != ' ' && marker[0] != '\n'
    requires OccursAt(s, 0, tag) && |tag| < |s| && s[|tag|] == ' ' && OccursAt(s, |tag| + 1, marker)
    requires |tag| + 1 + |marker| < |s| && s[|tag| + 1 + |marker|] == ' '
    requires |x| >= 1 && !IsSpace(x[0]) && OccursAt(s, |tag| + |marker| + 2, x) && forall k :: 0 <= k < |x| ==> In(x[k], cls)
    requires |tag| + |marker| + 2 + |x| == |s| || !In(s[|tag| + |marker| + 2 + |x|], cls)
    ensures LazyTokenAfter(s, 0, tag, marker, cls) == Some(x)
  {
    MarkerAfterSpace(s, |tag|, marker, x, cls);
    LazyAfterOneSpace(s, tag, marker, x, cls);
  }

  /** After a space, the marker, a space and the token: the token is read at the marker and not at the space. */
  lemma MarkerAfterSpace(s: string, g: nat, marker: string, x: string, cls: CharClass)
    requires |marker| >= 1 && marker[0] != ' ' && marker[0] != '\n'
    requires g < |s| && s[g] == ' ' && OccursAt(s, g + 1, marker)
    requires g + 1 + |marker| < |s| && s[g + 1 + |marker|] == ' '
    requires |x| >= 1 && !IsSpace(x[0]) && OccursAt(s, g + |marker| + 2, x) && forall k :: 0 <= k < |x| ==> In(x[k], cls)
    requires g + |marker| + 2 + |x| == |s| || !In(s[g + |marker| + 2 + |x|], cls)
    ensures TokenAfter(s, g, marker, cls).None?
    ensures TokenAfter(s, g + 1, marker, cls) == Some(x)
    ensures Run(s, g, NonNewline) >= 2
  {
    assert s[g + 1] == marker[0];
    TokenAfterReads(s, g + 1, marker, x, cls);
    NoMarkerAtSpace(s, g, marker, cls);
    RunCovers(s, g, 2, NonNewline);
  }

  /** The lazy pattern when the marker is found one character after the tag. */
  lemma LazyAfterOneSpace(s: string, tag: string, marker: string, x: string, cls: CharClass)
    requires OccursAt(s, 0, tag) && |tag| < |s|
    requires TokenAfter(s, |tag|, marker, cls).None? && TokenAfter(s, |tag| + 1, marker, cls) == Some(x)
    requires Run(s, |tag|, NonNewline) >= 2
    ensures LazyTokenAfter(s, 0, tag, marker, cls) == Some(x)
  {
    MarkerTokenSecond(s, |tag|, |tag| + Run(s, |tag|, NonNewline), marker, cls, x);
  }

  /** The marker does not start at a space. */
  lemma NoMarkerAtSpace(s: string, g: nat, marker: string, cls: CharClass)
    requires |marker| >= 1 && marker[0] != ' ' && g < |s| && s[g] == ' '
    ensures TokenAfter(s, g, marker, cls).None?
  {
  }

  /** The marker search when the marker is not at the first position but at the second. */
  lemma MarkerTokenSecond(s: string, j: nat, hi: nat, marker: string, cls: CharClass, x: string)
    requires j < hi
    requires TokenAfter(s, j, marker, cls).None? && TokenAfter(s, j + 1, marker, cls) == Some(x)
    ensures MarkerToken(s, j, hi, marker, cls) == Some(x)
  {
    assert MarkerToken(s, j + 1, hi, marker, cls) == Some(x);
  }

  // ---------------------------------------------------------------------
  // From matches to courses

  /** One `courses_taken` entry: quotes removed from the title, empty credits as 0, an empty grade as `N/A`. */
  function ToCourse(m: RowMatch): (c: CourseTaken)
    ensures c.courseNo == m.courseNo
    ensures '"' !in c.title && IsSubseq(c.title, m.title)
    ensures forall x :: x in m.title && x != '"' ==> x in c.title
    ensures forall x :: multiset(c.title)[x] == if x == '"' then 0 else multiset(m.title)[x]
    ensures m.credits == [] ==> c.credits == 0
    ensures m.credits != [] ==> c.credits == DigitsValue(m.credits)
    ensures m.grade == [] ==> c.grade == "N/A"
    ensures m.grade != [] ==> c.grade == m.grade
  {
    var notQuote := (x: char) => x != '"';
    FilterCounts(m.title, notQuote);
    CourseTaken(m.courseNo,
                Filter(m.title, notQuote),
                if m.credits == [] then 0 else DigitsValue(m.credits),
                if m.grade == [] then "N/A" else m.grade)
  }

  /** The specification of the append loop: one entry per match, in match order. */
  function Courses(ms: seq<RowMatch>): (cs: seq<CourseTaken>)
    ensures |cs| == |ms|
    ensures forall k :: 0 <= k < |ms| ==> cs[k] == ToCourse(ms[k])
  {
    seq(|ms|, k requires 0 <= k < |ms| => ToCourse(ms[k]))
  }

  /** The loop that appends one `courses_taken` entry per match. */
  method CoursesTaken(ms: seq<RowMatch>) returns (courses: seq<CourseTaken>)
    ensures courses == Courses(ms)
  {
    courses := [];
    for i := 0 to |ms|
      invariant |courses| == i
      invariant forall k :: 0 <= k < i ==> courses[k] == ToCourse(ms[k])
    {
      courses := courses + [ToCourse(ms[i])];
    }
  }

  // ---------------------------------------------------------------------
  // The profile

  /**
   * The profile read from a grade card's text, or the first failure in the
   * order the fields are read: roll number, name, department, CGPA, and the
   * CGPA's conversion to a number.
   */
  function ProfileFromText(text: string, nowYear: int, nowMonth: int): (r: Result<Profile, ParseError>)
    ensures RollNo(text).None? ==> r == Err(FieldNotFound("rollNo"))
    ensures RollNo(text).Some? && Name(text).None? ==> r == Err(FieldNotFound("name"))
    ensures RollNo(text).Some? && Name(text).Some? && Department(text).None? ==> r == Err(FieldNotFound("department"))
    ensures RollNo(text).Some? && Name(text).Some? && Department(text).Some? && Cgpa(text).None? ==>
              r == Err(FieldNotFound("cgpa"))
    ensures RollNo(text).Some? && Name(text).Some? && Department(text).Some? && Cgpa(text).Some?
              && !IsDecimalLiteral(Cgpa(text).value) ==>
              r == Err(NotANumber(Cgpa(text).value))
    ensures r.Ok? <==> RollNo(text).Some? && Name(text).Some? && Department(text).Some? && Cgpa(text).Some?
                       && IsDecimalLiteral(Cgpa(text).value)
    ensures r.Ok? ==> r.value.rollNo == RollNo(text).value && r.value.name == Name(text).value
                      && r.value.department == Department(text).value && r.value.cgpa == Cgpa(text).value
    ensures r.Ok? ==> r.value.coursesTaken == Courses(FindAllRows(text, 0))
    ensures r.Ok? ==> r.value.semester == SemesterAndYear(r.value.rollNo, nowYear, nowMonth).0 && r.value.semester >= 1
    ensures r.Ok? ==> r.value.occupiedSlots.None?
  {
    if RollNo(text).None? then Err(FieldNotFound("rollNo"))
    else if Name(text).None? then Err(FieldNotFound("name"))
    else if Department(text).None? then Err(FieldNotFound("department"))
    else if Cgpa(text).None? then Err(FieldNotFound("cgpa"))
    else if !IsDecimalLiteral(Cgpa(text).value) then Err(NotANumber(Cgpa(text).value))
    else
      var roll := RollNo(text).value;
      Ok(Profile(roll, Name(text).value, Department(text).value, Cgpa(text).value,
                 Courses(FindAllRows(text, 0)), SemesterAndYear(roll, nowYear, nowMonth).0, None))
  }

  /** Reading a grade card: the fields, then the course rows one by one, then the semester. */
  method ExtractProfile(text: string, nowYear: int, nowMonth: int) returns (r: Result<Profile, ParseError>)
    ensures r == ProfileFromText(text, nowYear, nowMonth)
  {
    var roll := RollNo(text);
    if roll.None? { return Err(FieldNotFound("rollNo")); }
    var name := Name(text);
    if name.None? { return Err(FieldNotFound("name")); }
    var department := Department(text);
    if department.None? { return Err(FieldNotFound("department")); }
    var cgpa := Cgpa(text);
    if cgpa.None? { return Err(FieldNotFound("cgpa")); }
    if !IsDecimalLiteral(cgpa.value) { return Err(NotANumber(cgpa.value)); }
    var courses := CoursesTaken(FindAllRows(text, 0));
    var semester := SemesterAndYear(roll.value, nowYear, nowMonth).0;
    r := Ok(Profile(roll.value, name.value, department.value, cgpa.value, courses, semester, None));
  }
}
