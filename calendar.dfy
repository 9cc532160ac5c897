/**
 * The current semester and academic year of a student, derived from the
 * entry year written in the roll number. The reference date (the clock's
 * year and month) is a parameter.
 */
module Calendar {
  import opened Wrappers
  import opened Text

  /** Two upper-case letters followed by two digits start at `i` (the pattern `[A-Z]{2}(\d{2})`). */
  predicate EntryTokenAt(roll: string, i: nat) {
    i + 4 <= |roll| && IsUpper(roll[i]) && IsUpper(roll[i + 1]) && IsDigit(roll[i + 2]) && IsDigit(roll[i + 3])
  }

  /** The value of the decimal digit `c`. */
  function DigitValue(c: char): int {
    c as int - '0' as int
  }

  /**
   * The entry year: `20` followed by the two digits of the leftmost token,
   * or `None` when the roll number has no token.
   */
  function EntryYear(roll: string): (r: Option<int>)
    ensures r.None? <==> forall i :: !EntryTokenAt(roll, i)
    ensures r.Some? ==> 2000 <= r.value <= 2099
    ensures r.Some? ==> exists i ::
              && EntryTokenAt(roll, i)
              && (forall k :: k < i ==> !EntryTokenAt(roll, k))
              && r.value == 2000 + 10 * DigitValue(roll[i + 2]) + DigitValue(roll[i + 3])
  {
    var at := (k: nat) => if EntryTokenAt(roll, k) then Some(k) else None;
    assert forall k: nat :: at(k).Some? <==> EntryTokenAt(roll, k);
    match Leftmost(0, |roll|, at)
    case None => None
    case Some(i) =>
      assert EntryTokenAt(roll, i);
      Some(2000 + 10 * DigitValue(roll[i + 2]) + DigitValue(roll[i + 3]))
  }

  /**
   * `(semester, year)`: without a token, `(1, 1)`; otherwise, with `d` the
   * number of calendar years since entry, the semester is `2d`, plus one from
   * July on, and at least 1, and the year is `d + 1`.
   */
  function SemesterAndYear(roll: string, nowYear: int, nowMonth: int): (r: (int, int))
    ensures r.0 >= 1
    ensures EntryYear(roll).None? ==> r == (1, 1)
    ensures EntryYear(roll).Some? ==> r.1 == nowYear - EntryYear(roll).value + 1
  {
    match EntryYear(roll)
    case None => (1, 1)
    case Some(entry) =>
      var yearDiff := nowYear - entry;
      var semester := yearDiff * 2 + (if nowMonth >= 7 then 1 else 0);
      (if semester > 0 then semester else 1, yearDiff + 1)
  }

  /**
   * The reference definition: the number of the six-month term (July to
   * December, January to June) running in `month` of `year`, counting the
   * term that starts in July of the entry year as the first.
   */
  function TermNumber(entry: int, year: int, month: int): int {
    (12 * (year - entry) + month - 7) / 6 + 1
  }

  // ---------------------------------------------------------------------
  // Properties

  /** For a month of the calendar, the semester is the running term number, and 1 before the first term. */
  lemma SemesterIsTermNumber(roll: string, nowYear: int, nowMonth: int)
    requires 1 <= nowMonth <= 12
    requires EntryYear(roll).Some?
    ensures var t := TermNumber(EntryYear(roll).value, nowYear, nowMonth);
            SemesterAndYear(roll, nowYear, nowMonth).0 == if t >= 1 then t else 1
  {
    var d := nowYear - EntryYear(roll).value;
    var q := 12 * d + nowMonth - 7;
    if nowMonth >= 7 {
      assert q == 6 * (2 * d) + (nowMonth - 7);
    } else {
      assert q == 6 * (2 * d - 1) + (nowMonth - 1);
    }
  }

  /** The examples: `CE21B001` is in its sixth semester in March 2024 and its seventh in August, both in year four. */
  lemma Examples()
    ensures SemesterAndYear("CE21B001", 2024, 3) == (6, 4)
    ensures SemesterAndYear("CE21B001", 2024, 8) == (7, 4)
  {
    var roll := "CE21B001";
    assert EntryTokenAt(roll, 0);
    assert EntryYear(roll) == Some(2021);
  }

  /** A roll number without a letter-letter-digit-digit token is a first-year, first-semester one. */
  lemma NoTokenIsFirstSemester(roll: string, nowYear: int, nowMonth: int)
    requires forall i :: 0 <= i && i + 4 <= |roll| ==> !(IsUpper(roll[i]) && IsUpper(roll[i + 1]) && IsDigit(roll[i + 2]) && IsDigit(roll[i + 3]))
    ensures SemesterAndYear(roll, nowYear, nowMonth) == (1, 1)
  {
    assert forall i :: !EntryTokenAt(roll, i);
  }

  /** Once past the first year, a year later is two semesters and one year later. */
  lemma NextYearAddsTwoSemesters(roll: string, nowYear: int, nowMonth: int)
    requires SemesterAndYear(roll, nowYear, nowMonth).1 >= 2
    ensures SemesterAndYear(roll, nowYear + 1, nowMonth).0 == SemesterAndYear(roll, nowYear, nowMonth).0 + 2
    ensures SemesterAndYear(roll, nowYear + 1, nowMonth).1 == SemesterAndYear(roll, nowYear, nowMonth).1 + 1
  {
  }

  /** Past the clamp, odd semesters are exactly the ones from July on. */
  lemma SemesterParity(roll: string, nowYear: int, nowMonth: int)
    requires SemesterAndYear(roll, nowYear, nowMonth).1 >= 2
    ensures SemesterAndYear(roll, nowYear, nowMonth).0 % 2 == 1 <==> nowMonth >= 7
  {
  }

  /** The year is not clamped: an entry year after the reference year gives a year below 1 while the semester is 1. */
  lemma FutureEntryYear()
    ensures SemesterAndYear("CE99X", 2024, 3) == (1, -74)
  {
    assert EntryTokenAt("CE99X", 0);
  }
}
