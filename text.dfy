/**
 * Character classes and the small scanning vocabulary that the transcript
 * patterns and the keyword searches are written in. Whitespace is Python's
 * `str.isspace` set (the one `\s` and `str.strip()` use on text); case and
 * digits are treated as ASCII.
 */
module Text {
  import opened Wrappers

  predicate IsUpper(c: char) { 'A' <= c <= 'Z' }
  predicate IsLower(c: char) { 'a' <= c <= 'z' }
  predicate IsLetter(c: char) { IsUpper(c) || IsLower(c) }
  predicate IsDigit(c: char) { '0' <= c <= '9' }

  /**
   * `\s` and `str.strip()` on text: the characters of `str.isspace` — tab,
   * newline, vertical tab, form feed, carriage return, the four separators
   * 0x1C-0x1F, space, next line (0x85), no-break space (0xA0), and the
   * Unicode space separators and line and paragraph separators.
   */
  predicate IsSpace(c: char) {
    var n := c as int;
    (9 <= n <= 13) || (28 <= n <= 32) || n == 0x85 || n == 0xA0 || n == 0x1680
    || (0x2000 <= n <= 0x200A) || n == 0x2028 || n == 0x2029 || n == 0x202F || n == 0x205F || n == 0x3000
  }

  predicate IsDigits(s: string) {
    forall i :: 0 <= i < |s| ==> IsDigit(s[i])
  }

  /** The character classes the patterns are written with (`\d`, `[A-Z]`, `\s`, `.`, and the bracketed classes). */
  datatype CharClass = Digits | Capitals | Whitespace | NonNewline | CapitalsOrDigits | CapitalsOrWhitespace | LettersOrWhitespace | DigitsOrDots

  predicate In(c: char, k: CharClass) {
    match k
    case Digits => IsDigit(c)
    case Capitals => IsUpper(c)
    case Whitespace => IsSpace(c)
    case NonNewline => c != '\n'
    case CapitalsOrDigits => IsUpper(c) || IsDigit(c)
    case CapitalsOrWhitespace => IsUpper(c) || IsSpace(c)
    case LettersOrWhitespace => IsLetter(c) || IsSpace(c)
    case DigitsOrDots => IsDigit(c) || c == '.'
  }

  /** Length of the longest run of characters of class `k` starting at `i` (a greedy `[...]*`). */
  function Run(s: string, i: nat, k: CharClass): (n: nat)
    requires i <= |s|
    ensures i + n <= |s|
    ensures i + n < |s| ==> !In(s[i + n], k)
    decreases |s| - i
  {
    if i < |s| && In(s[i], k) then 1 + Run(s, i + 1, k) else 0
  }

  /** Every character of a run is in the class. */
  lemma {:induction false} RunChars(s: string, i: nat, k: CharClass)
    requires i <= |s|
    ensures forall j :: i <= j < i + Run(s, i, k) ==> In(s[j], k)
    decreases |s| - i
  {
    if i < |s| && In(s[i], k) {
      RunChars(s, i + 1, k);
    }
  }

  /** The run cut out of the text holds only characters of the class. */
  lemma RunSlice(s: string, i: nat, k: CharClass, r: string)
    requires i <= |s| && r == s[i..i + Run(s, i, k)]
    ensures forall m :: 0 <= m < |r| ==> In(r[m], k)
  {
    RunChars(s, i, k);
  }

  /**
   * A run inside an occurrence of `t` in `s` is the run inside `t`, when it
   * stops before the end of `t` or `t` is followed by a character outside
   * the class.
   */
  lemma {:induction false} RunInfix(s: string, i: nat, t: string, j: nat, k: CharClass)
    requires OccursAt(s, i, t) && j <= |t|
    requires Run(t, j, k) < |t| - j || i + |t| == |s| || !In(s[i + |t|], k)
    ensures Run(s, i + j, k) == Run(t, j, k)
    decreases |t| - j
  {
    if j < |t| {
      assert s[i + j] == t[j];
      if In(t[j], k) {
        RunInfix(s, i, t, j + 1, k);
      }
    }
  }

  /** An occurrence of a word of class `k` that is not followed by another character of `k` is a maximal run. */
  lemma RunOfOccurrence(s: string, j: nat, x: string, k: CharClass)
    requires OccursAt(s, j, x) && forall m :: 0 <= m < |x| ==> In(x[m], k)
    requires j + |x| == |s| || !In(s[j + |x|], k)
    ensures Run(s, j, k) == |x| && s[j..j + |x|] == x
  {
    RunInfix(s, j, x, 0, k);
    RunCovers(x, 0, |x|, k);
    OccursSlice(s, j, x);
  }

  /** A run covers at least the characters known to be in the class. */
  lemma {:induction false} RunCovers(s: string, i: nat, n: nat, k: CharClass)
    requires i + n <= |s|
    requires forall j :: i <= j < i + n ==> In(s[j], k)
    ensures Run(s, i, k) >= n
    decreases n
  {
    if n > 0 {
      RunCovers(s, i + 1, n - 1, k);
    }
  }

  /** `needle` occurs in `s` starting at position `i`. */
  predicate OccursAt(s: string, i: nat, needle: string) {
    i + |needle| <= |s| && forall k :: 0 <= k < |needle| ==> s[i + k] == needle[k]
  }

  /** An occurrence of `a + b` is an occurrence of `a` followed by one of `b`. */
  lemma OccursSplit(s: string, i: nat, a: string, b: string)
    requires OccursAt(s, i, a + b)
    ensures OccursAt(s, i, a) && OccursAt(s, i + |a|, b)
  {
    assert forall k :: 0 <= k < |a| ==> (a + b)[k] == a[k];
    assert forall k :: 0 <= k < |b| ==> (a + b)[|a| + k] == b[k];
  }

  /** The three parts of `a + (b + c)` occur one after the other. */
  lemma OccursConcat(s: string, a: string, b: string, c: string)
    requires s == a + (b + c)
    ensures OccursAt(s, 0, a) && OccursAt(s, |a|, b) && OccursAt(s, |a| + |b|, c)
  {
    assert OccursAt(s, 0, a + (b + c));
    OccursSplit(s, 0, a, b + c);
    OccursSplit(s, |a|, b, c);
  }

  /** An occurrence read as a slice. */
  lemma OccursSlice(s: string, i: nat, x: string)
    requires OccursAt(s, i, x)
    ensures s[i..i + |x|] == x
  {
  }

  predicate StartsWith(s: string, prefix: string) {
    OccursAt(s, 0, prefix)
  }

  /** Literal substring test. */
  predicate Contains(hay: string, needle: string) {
    exists i | 0 <= i <= |hay| - |needle| :: OccursAt(hay, i, needle)
  }

  function LowerChar(c: char): (d: char)
    ensures !IsUpper(d)
    ensures IsUpper(c) ==> d as int == c as int + 32
    ensures !IsUpper(c) ==> d == c
  {
    if IsUpper(c) then (c as int + 32) as char else c
  }

  /** ASCII lower-casing (`str.lower()` on ASCII text). */
  function Lower(s: string): (r: string)
    ensures |r| == |s|
    ensures forall i :: 0 <= i < |s| ==> r[i] == LowerChar(s[i])
  {
    seq(|s|, i requires 0 <= i < |s| => LowerChar(s[i]))
  }

  /** Case-insensitive literal substring test (`str.contains(needle, case=False)` without regex syntax). */
  predicate ContainsIgnoringCase(hay: string, needle: string) {
    Contains(Lower(hay), Lower(needle))
  }

  /** Number of whitespace characters at the end of `s`. */
  function TrailingSpaces(s: string): (n: nat)
    ensures n <= |s|
    ensures forall k :: |s| - n <= k < |s| ==> IsSpace(s[k])
    ensures n < |s| ==> !IsSpace(s[|s| - n - 1])
    decreases |s|
  {
    if s != [] && IsSpace(s[|s| - 1]) then 1 + TrailingSpaces(s[..|s| - 1]) else 0
  }

  /** `str.strip()`: `s` without its leading and trailing whitespace. */
  function Strip(s: string): (r: string)
    ensures r == [] || (!IsSpace(r[0]) && !IsSpace(r[|r| - 1]))
    ensures Run(s, 0, Whitespace) + |r| <= |s|
    ensures r == s[Run(s, 0, Whitespace)..Run(s, 0, Whitespace) + |r|]
    ensures forall k :: 0 <= k < |s| && (k < Run(s, 0, Whitespace) || Run(s, 0, Whitespace) + |r| <= k) ==> IsSpace(s[k])
  {
    RunChars(s, 0, Whitespace);
    var a := Run(s, 0, Whitespace);
    if a == |s| then []
    else
      var t := s[a..];
      var b := TrailingSpaces(t);
      assert b < |t| by { assert !IsSpace(t[0]); }
      t[..|t| - b]
  }

  /** Stripping keeps only characters of the text. */
  lemma StripChars(t: string, k: CharClass)
    requires forall m :: 0 <= m < |t| ==> In(t[m], k)
    ensures forall m :: 0 <= m < |Strip(t)| ==> In(Strip(t)[m], k)
  {
    var a := Run(t, 0, Whitespace);
    assert forall m :: 0 <= m < |Strip(t)| ==> Strip(t)[m] == t[a + m];
  }

  /** Stripping whitespace padding gives back the padded text. */
  lemma StripPadded(pre: string, x: string, post: string)
    requires forall k :: 0 <= k < |pre| ==> IsSpace(pre[k])
    requires forall k :: 0 <= k < |post| ==> IsSpace(post[k])
    requires x != [] && !IsSpace(x[0]) && !IsSpace(x[|x| - 1])
    ensures Strip(pre + x + post) == x
  {
    var s := pre + x + post;
    assert s[|pre|] == x[0];
    RunCovers(s, 0, |pre|, Whitespace);
    RunChars(s, 0, Whitespace);
    var a := Run(s, 0, Whitespace);
    assert a == |pre|;
    var r := Strip(s);
    assert s[|pre| + |x| - 1] == x[|x| - 1];
    assert |r| == |x|;
    assert r == s[|pre|..|pre| + |x|] == x;
  }

  /** `int(s)` for a string of ASCII digits (positional value of the characters' digit values). */
  function DigitsValue(s: string): (n: int)
    ensures s == [] ==> n == 0
    ensures |s| == 1 ==> n == s[0] as int - '0' as int
    ensures IsDigits(s) ==> n >= 0
    decreases |s|
  {
    if s == [] then 0 else 10 * DigitsValue(s[..|s| - 1]) + (s[|s| - 1] as int - '0' as int)
  }

  function Pow10(e: nat): (p: nat)
    ensures p >= 1
  {
    if e == 0 then 1 else 10 * Pow10(e - 1)
  }

  /** Digits read positionally: the digits in front are worth ten to the number of digits behind them. */
  lemma {:induction false} DigitsValueAppend(a: string, b: string)
    ensures DigitsValue(a + b) == DigitsValue(a) * Pow10(|b|) + DigitsValue(b)
    decreases |b|
  {
    if b == [] {
      assert a + b == a;
    } else {
      var b' := b[..|b| - 1];
      var d := b[|b| - 1] as int - '0' as int;
      assert (a + b)[..|a + b| - 1] == a + b';
      assert DigitsValue(a + b) == 10 * DigitsValue(a + b') + d;
      assert DigitsValue(b) == 10 * DigitsValue(b') + d;
      DigitsValueAppend(a, b');
      ShiftDigit(DigitsValue(a), Pow10(|b'|), DigitsValue(b'), d);
    }
  }

  lemma ShiftDigit(va: int, p: int, vb: int, d: int)
    ensures 10 * (va * p + vb) + d == va * (10 * p) + (10 * vb + d)
  {
  }

  /** A digit string is worth less than ten to its length. */
  lemma {:induction false} DigitsValueBound(s: string)
    requires IsDigits(s)
    ensures DigitsValue(s) < Pow10(|s|)
    decreases |s|
  {
    if s != [] {
      DigitsValueBound(s[..|s| - 1]);
    }
  }

  /** The decimal rendering of a natural number, without leading zeros (`str(n)`). */
  function Decimal(n: nat): (s: string)
    ensures s != [] && IsDigits(s)
    ensures |s| > 1 ==> s[0] != '0'
  {
    if n < 10 then [('0' as int + n) as char]
    else Decimal(n / 10) + [('0' as int + n % 10) as char]
  }

  /** `int(str(n)) == n`. */
  lemma {:induction false} DigitsValueOfDecimal(n: nat)
    ensures DigitsValue(Decimal(n)) == n
  {
    if n >= 10 {
      var s := Decimal(n);
      assert s[..|s| - 1] == Decimal(n / 10);
      DigitsValueOfDecimal(n / 10);
    }
  }

  /**
   * The leftmost position in `lo..hi` at which `at` matches: how a regular
   * expression search picks its match among the candidate start positions.
   */
  function Leftmost<T>(lo: nat, hi: nat, at: nat -> Option<T>): (r: Option<nat>)
    ensures r.Some? ==> lo <= r.value <= hi && at(r.value).Some?
    ensures r.Some? ==> forall k :: lo <= k < r.value ==> at(k).None?
    ensures r.None? ==> forall k :: lo <= k <= hi ==> at(k).None?
    decreases hi + 1 - lo
  {
    if lo > hi then None
    else if at(lo).Some? then Some(lo)
    else Leftmost(lo + 1, hi, at)
  }

  /** The leftmost match is at `k` when `at` matches at `k` and at no earlier candidate. */
  lemma LeftmostIs<T>(lo: nat, hi: nat, at: nat -> Option<T>, k: nat)
    requires lo <= k <= hi && at(k).Some?
    requires forall j :: lo <= j < k ==> at(j).None?
    ensures Leftmost(lo, hi, at) == Some(k)
  {
  }
}
