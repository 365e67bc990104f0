/**
 * The pure helpers of src/utils.py: basis-point deltas, range validation,
 * `YYYYMMDD` filename dates, column-name normalisation and lookup, and the
 * month-over-month / year-to-date delta maps of `create_summary_dict`.
 */
module Utils {
  import opened Wrappers
  import opened Calendar
  import opened Dicts
  import opened Config

  // ---------------------------------------------------------------- deltas

  /** `calculate_bps_change`: the move from `oldRate` to `newRate`, in basis points. */
  function CalculateBpsChange(oldRate: real, newRate: real): (bps: real)
    ensures oldRate + bps / 10000.0 == newRate
    ensures bps == 0.0 <==> oldRate == newRate
    ensures bps > 0.0 <==> newRate > oldRate
  {
    (newRate - oldRate) * 10000.0
  }

  lemma BpsAntisymmetric(a: real, b: real)
    ensures CalculateBpsChange(a, b) == -CalculateBpsChange(b, a)
  {
  }

  // ------------------------------------------------------------ validation

  /** `validate_rate`: the closed range [MIN_RATE, MAX_RATE], both bounds accepted. */
  predicate ValidateRate(rate: real, cfg: Config)
  {
    cfg.minRate <= rate <= cfg.maxRate
  }

  /** `validate_va`: the closed range [MIN_VA, MAX_VA], both bounds accepted. */
  predicate ValidateVa(va: real, cfg: Config)
  {
    cfg.minVa <= va <= cfg.maxVa
  }

  /** With the shipped configuration the bounds themselves pass and anything beyond them fails. */
  lemma ValidationBounds(x: real)
    ensures ValidateRate(-0.05, DefaultConfig()) && ValidateRate(0.15, DefaultConfig())
    ensures ValidateVa(0.0, DefaultConfig()) && ValidateVa(0.02, DefaultConfig())
    ensures ValidateRate(x, DefaultConfig()) <==> -0.05 <= x <= 0.15
    ensures ValidateVa(x, DefaultConfig()) <==> 0.0 <= x <= 0.02
  {
  }

  // -------------------------------------------------------- filename dates

  predicate IsDigit(c: char) {
    '0' <= c <= '9'
  }

  predicate AllDigits(s: string) {
    forall i :: 0 <= i < |s| ==> IsDigit(s[i])
  }

  function DigitValue(c: char): nat
    requires IsDigit(c)
  {
    (c as int) - ('0' as int)
  }

  function DigitChar(n: nat): (c: char)
    requires n < 10
    ensures IsDigit(c) && DigitValue(c) == n
  {
    (n + '0' as int) as char
  }

  /** Eight digits in a row start at `j`. */
  predicate RunAt(s: string, j: int) {
    0 <= j && j + 8 <= |s| && AllDigits(s[j..j + 8])
  }

  /** The first index at or after `k` where eight digits in a row start: `re.search(r'(\d{8})')`. */
  function FirstDigitRunFrom(s: string, k: nat): (r: Option<nat>)
    requires k <= |s|
    ensures r.Some? ==> k <= r.value && RunAt(s, r.value)
    ensures r.Some? ==> forall j :: k <= j < r.value ==> !RunAt(s, j)
    ensures r.None? ==> forall j :: k <= j ==> !RunAt(s, j)
    decreases |s| - k
  {
    if k + 8 > |s| then None
    else if RunAt(s, k) then Some(k)
    else FirstDigitRunFrom(s, k + 1)
  }

  /** A field matched by one alternative of a `strptime` directive, and the position after it. */
  datatype Span = Span(value: nat, end: nat)

  /** The alternatives of CPython's `%m` pattern, `1[0-2]|0[1-9]|[1-9]`, that match at `p`, in the order tried. */
  function MonthAlternatives(s: string, p: nat): seq<Span>
    requires AllDigits(s)
  {
    (if p + 1 < |s| && s[p] == '1' && '0' <= s[p + 1] <= '2' then [Span(10 + DigitValue(s[p + 1]), p + 2)] else [])
    + (if p + 1 < |s| && s[p] == '0' && '1' <= s[p + 1] <= '9' then [Span(DigitValue(s[p + 1]), p + 2)] else [])
    + (if p < |s| && '1' <= s[p] <= '9' then [Span(DigitValue(s[p]), p + 1)] else [])
  }

  /** The alternatives of CPython's `%d` pattern, `3[01]|[12]\d|0[1-9]|[1-9]| [1-9]`, that match at `p`, in the order tried. */
  function DayAlternatives(s: string, p: nat): seq<Span>
    requires AllDigits(s)
  {
    (if p + 1 < |s| && s[p] == '3' && '0' <= s[p + 1] <= '1' then [Span(30 + DigitValue(s[p + 1]), p + 2)] else [])
    + (if p + 1 < |s| && (s[p] == '1' || s[p] == '2') then [Span(10 * DigitValue(s[p]) + DigitValue(s[p + 1]), p + 2)] else [])
    + (if p + 1 < |s| && s[p] == '0' && '1' <= s[p + 1] <= '9' then [Span(DigitValue(s[p + 1]), p + 2)] else [])
    + (if p < |s| && '1' <= s[p] <= '9' then [Span(DigitValue(s[p]), p + 1)] else [])
  }

  /** The regex engine's first success: the first month alternative after which some day alternative matches. */
  function FirstMonthDay(s: string, months: seq<Span>): Option<(Span, Span)>
    requires AllDigits(s)
  {
    if months == [] then None
    else
      var days := DayAlternatives(s, months[0].end);
      if days != [] then Some((months[0], days[0])) else FirstMonthDay(s, months[1..])
  }

  function YearValue(s: string): nat
    requires |s| >= 4 && AllDigits(s)
  {
    1000 * DigitValue(s[0]) + 100 * DigitValue(s[1]) + 10 * DigitValue(s[2]) + DigitValue(s[3])
  }

  /**
   * `datetime.strptime(s, '%Y%m%d')` on eight digits: `%Y` takes four digits, the
   * pattern must consume the whole string ("unconverted data remains"), and the
   * fields must form a date of year 1 or later; any failure is the `ValueError`
   * that `parse_date_from_filename` turns into `None`.
   */
  function StrptimeYmd(s: string): Option<Date>
    requires |s| == 8 && AllDigits(s)
  {
    match FirstMonthDay(s, MonthAlternatives(s, 4))
    case None => None
    case Some((m, d)) =>
      var date := YMD(YearValue(s), m.value, d.value);
      if d.end == |s| && date.year >= 1 && IsCalendarDate(date) then Some(date) else None
  }

  /** The strict reading of eight digits as year, month and day fields of widths 4, 2 and 2. */
  function StrictYmd(s: string): Option<Date>
    requires |s| == 8 && AllDigits(s)
  {
    var date := YMD(YearValue(s), StrictMonth(s), StrictDay(s));
    if date.year >= 1 && IsCalendarDate(date) then Some(date) else None
  }

  /**
   * The backtracking of `%m` and `%d` never produces another full-width match:
   * `strptime` accepts eight digits exactly when they read as a valid date field
   * by field, and then returns that date.
   */
  lemma StrptimeIsStrict(s: string)
    requires |s| == 8 && AllDigits(s)
    ensures StrptimeYmd(s) == StrictYmd(s)
  {
    if StrptimeYmd(s).Some? {
      StrptimeOnlyStrict(s);
    } else if StrictYmd(s).Some? {
      StrictIsStrptime(s);
    }
  }

  function StrictMonth(s: string): nat
    requires |s| == 8 && AllDigits(s)
  {
    10 * DigitValue(s[4]) + DigitValue(s[5])
  }

  function StrictDay(s: string): nat
    requires |s| == 8 && AllDigits(s)
  {
    10 * DigitValue(s[6]) + DigitValue(s[7])
  }

  /** A full-width match can only come from a two-digit month followed by a two-digit day. */
  lemma StrptimeOnlyStrict(s: string)
    requires |s| == 8 && AllDigits(s)
    requires StrptimeYmd(s).Some?
    ensures StrptimeYmd(s) == StrictYmd(s)
  {
    var months := MonthAlternatives(s, 4);
    var (m, d) := FirstMonthDay(s, months).value;
    FirstMonthDayFrom(s, months);
    MonthSpan(s, 4, m);
    DaySpan(s, m.end, d);
    assert d.end == 8;
    assert m.end == 6;
    assert m.value == StrictMonth(s) && d.value == StrictDay(s);
  }

  /** A valid two-digit month and day are what the regex engine tries first, and they succeed. */
  lemma StrictIsStrptime(s: string)
    requires |s| == 8 && AllDigits(s)
    requires StrictYmd(s).Some?
    ensures StrptimeYmd(s) == StrictYmd(s)
  {
    var months := MonthAlternatives(s, 4);
    assert 1 <= StrictMonth(s) <= 12 && 1 <= StrictDay(s) <= 31;
    MonthTwoDigits(s);
    DayTwoDigits(s);
    assert FirstMonthDay(s, months) == Some((Span(StrictMonth(s), 6), Span(StrictDay(s), 8)));
  }

  lemma MonthTwoDigits(s: string)
    requires |s| == 8 && AllDigits(s) && 1 <= StrictMonth(s) <= 12
    ensures MonthAlternatives(s, 4) != [] && MonthAlternatives(s, 4)[0] == Span(StrictMonth(s), 6)
  {
    assert s[4] == '0' || s[4] == '1';
  }

  lemma DayTwoDigits(s: string)
    requires |s| == 8 && AllDigits(s) && 1 <= StrictDay(s) <= 31
    ensures DayAlternatives(s, 6) != [] && DayAlternatives(s, 6)[0] == Span(StrictDay(s), 8)
  {
    assert s[6] == '0' || s[6] == '1' || s[6] == '2' || s[6] == '3';
  }

  /** A month alternative takes one digit, or two digits read as a two-digit number. */
  lemma MonthSpan(s: string, p: nat, sp: Span)
    requires AllDigits(s) && sp in MonthAlternatives(s, p)
    ensures sp.end == p + 1 || (sp.end == p + 2 && p + 1 < |s| && sp.value == 10 * DigitValue(s[p]) + DigitValue(s[p + 1]))
  {
  }

  /** A day alternative takes one digit, or two digits read as a two-digit number. */
  lemma DaySpan(s: string, p: nat, sp: Span)
    requires AllDigits(s) && sp in DayAlternatives(s, p)
    ensures sp.end == p + 1 || (sp.end == p + 2 && p + 1 < |s| && sp.value == 10 * DigitValue(s[p]) + DigitValue(s[p + 1]))
  {
  }

  /** The regex engine's pick is one of the month alternatives, followed by a day alternative matching after it. */
  lemma {:induction false} FirstMonthDayFrom(s: string, months: seq<Span>)
    requires AllDigits(s)
    requires FirstMonthDay(s, months).Some?
    ensures var (m, d) := FirstMonthDay(s, months).value;
      m in months && DayAlternatives(s, m.end) != [] && d == DayAlternatives(s, m.end)[0]
  {
    if DayAlternatives(s, months[0].end) == [] {
      FirstMonthDayFrom(s, months[1..]);
    }
  }

  /** `parse_date_from_filename`: the date in the first run of eight digits, if they form one. */
  function ParseDateFromFilename(filename: string): (r: Option<Date>)
    ensures FirstDigitRunFrom(filename, 0).None? ==> r.None?
    ensures FirstDigitRunFrom(filename, 0).Some? ==>
              var k := FirstDigitRunFrom(filename, 0).value;
              r == StrictYmd(filename[k..k + 8])
    ensures r.Some? ==> 1 <= r.value.year <= 9999
  {
    match FirstDigitRunFrom(filename, 0)
    case None => None
    case Some(k) =>
      StrptimeIsStrict(filename[k..k + 8]);
      StrptimeYmd(filename[k..k + 8])
  }

  /** `format_date_eiopa`: `strftime('%Y%m%d')`, the year zero-padded to four digits. */
  function FormatDateEiopa(d: Date): (s: string)
    requires 1 <= d.year <= 9999
    ensures |s| == 8 && AllDigits(s)
  {
    [DigitChar(d.year / 1000), DigitChar(d.year / 100 % 10), DigitChar(d.year / 10 % 10), DigitChar(d.year % 10),
     DigitChar(d.month / 10), DigitChar(d.month % 10),
     DigitChar(d.day / 10), DigitChar(d.day % 10)]
  }

  lemma FourDigits(y: int)
    requires 0 <= y <= 9999
    ensures 1000 * (y / 1000) + 100 * (y / 100 % 10) + 10 * (y / 10 % 10) + y % 10 == y
  {
    var q1, q2, q3 := y / 10, y / 100, y / 1000;
    assert y == 10 * q1 + y % 10;
    assert q2 == q1 / 10;
    assert q1 == 10 * q2 + q1 % 10;
    assert q3 == q2 / 10;
    assert q2 == 10 * q3 + q2 % 10;
  }

  /** Formatting a date and reading the eight digits back gives the same date. */
  lemma FormatStrptimeRoundTrip(d: Date)
    requires 1 <= d.year <= 9999
    ensures StrptimeYmd(FormatDateEiopa(d)) == Some(d)
  {
    var s := FormatDateEiopa(d);
    FourDigits(d.year);
    assert YearValue(s) == d.year;
    assert 10 * DigitValue(s[4]) + DigitValue(s[5]) == d.month;
    assert 10 * DigitValue(s[6]) + DigitValue(s[7]) == d.day;
    StrptimeIsStrict(s);
  }

  /** A date embedded after a digit-free prefix, as in `EIOPA_RFR_20241231.zip`, is the one parsed. */
  lemma ParseEmbeddedDate(prefix: string, d: Date, suffix: string)
    requires 1 <= d.year <= 9999
    requires forall i :: 0 <= i < |prefix| ==> !IsDigit(prefix[i])
    ensures ParseDateFromFilename(prefix + FormatDateEiopa(d) + suffix) == Some(d)
  {
    var f := FormatDateEiopa(d);
    var s := prefix + f + suffix;
    var k := |prefix|;
    assert s[k..k + 8] == f;
    assert RunAt(s, k);
    forall j | 0 <= j < k
      ensures !RunAt(s, j)
    {
      if j + 8 <= |s| {
        assert s[j..j + 8][0] == prefix[j];
      }
    }
    var r := FirstDigitRunFrom(s, 0);
    assert r == Some(k);
    FormatStrptimeRoundTrip(d);
  }

  /** Formatting a date and parsing it back as a filename gives the same date. */
  lemma FormatParseRoundTrip(d: Date)
    requires 1 <= d.year <= 9999
    ensures ParseDateFromFilename(FormatDateEiopa(d)) == Some(d)
  {
    ParseEmbeddedDate([], d, []);
    assert [] + FormatDateEiopa(d) + [] == FormatDateEiopa(d);
  }

  // ------------------------------------------------------ column names

  /** `str.isspace()`: the characters `str.strip()` removes. */
  predicate IsSpace(c: char) {
    var n := c as int;
    (0x09 <= n <= 0x0D) || (0x1C <= n <= 0x20) || n == 0x85 || n == 0xA0 || n == 0x1680
    || (0x2000 <= n <= 0x200A) || n == 0x2028 || n == 0x2029 || n == 0x202F || n == 0x205F || n == 0x3000
  }

  /** Every character is whitespace. */
  predicate AllSpace(s: string) {
    s == [] || (IsSpace(s[0]) && AllSpace(s[1..]))
  }

  /** `AllSpace` holds exactly when each character is whitespace. */
  lemma {:induction false} AllSpaceExactly(s: string)
    ensures AllSpace(s) <==> forall i :: 0 <= i < |s| ==> IsSpace(s[i])
  {
    if s != [] {
      AllSpaceExactly(s[1..]);
      assert forall i :: 1 <= i < |s| ==> s[i] == s[1..][i - 1];
    }
  }

  /** Whitespace followed by one more whitespace character is whitespace. */
  lemma {:induction false} AllSpaceSnoc(s: string, c: char)
    requires AllSpace(s) && IsSpace(c)
    ensures AllSpace(s + [c])
  {
    if s != [] {
      assert (s + [c])[1..] == s[1..] + [c];
      AllSpaceSnoc(s[1..], c);
    }
  }

  /** `str.lstrip()`: the input without its leading whitespace. */
  function StripLeft(s: string): (r: string)
    ensures r == [] || !IsSpace(r[0])
    ensures |r| <= |s| && r == s[|s| - |r|..]
    ensures AllSpace(s[..|s| - |r|])
  {
    if s != [] && IsSpace(s[0]) then
      var r := StripLeft(s[1..]);
      assert s[..|s| - |r|][1..] == s[1..][..|s| - 1 - |r|];
      r
    else s
  }

  /** `str.rstrip()`: the input without its trailing whitespace. */
  function StripRight(s: string): (r: string)
    ensures r == [] || !IsSpace(r[|r| - 1])
    ensures |r| <= |s| && r == s[..|r|]
    ensures AllSpace(s[|r|..])
  {
    if s != [] && IsSpace(s[|s| - 1]) then
      var r := StripRight(s[..|s| - 1]);
      assert s[|r|..] == s[..|s| - 1][|r|..] + [s[|s| - 1]];
      AllSpaceSnoc(s[..|s| - 1][|r|..], s[|s| - 1]);
      r
    else s
  }

  /** `s[a..b]` is what remains of `s` once whitespace is removed before `a` and from `b` on. */
  predicate TrimmedAt(s: string, a: int, b: int) {
    0 <= a <= b <= |s| && AllSpace(s[..a]) && AllSpace(s[b..])
  }

  /** `str.strip()`: the input without its leading and trailing whitespace. */
  function Strip(s: string): (r: string)
    ensures r == [] || (!IsSpace(r[0]) && !IsSpace(r[|r| - 1]))
    ensures |r| <= |s|
    ensures exists a, b :: TrimmedAt(s, a, b) && r == s[a..b]
  {
    var l := StripLeft(s);
    var r := StripRight(l);
    assert r != [] ==> r[0] == l[0];
    TrimmedTwice(s, l, r);
    r
  }

  /** A whitespace prefix cut from `s`, then a whitespace suffix cut from what remains, leaves a trimmed slice of `s`. */
  lemma TrimmedTwice(s: string, l: string, r: string)
    requires |l| <= |s| && l == s[|s| - |l|..] && AllSpace(s[..|s| - |l|])
    requires |r| <= |l| && r == l[..|r|] && AllSpace(l[|r|..])
    ensures TrimmedAt(s, |s| - |l|, |s| - |l| + |r|) && r == s[|s| - |l|..|s| - |l| + |r|]
  {
    var a := |s| - |l|;
    assert s[a + |r|..] == l[|r|..];
  }

  function LowerChar(c: char): char {
    if 'A' <= c <= 'Z' then (c as int + 32) as char else c
  }

  /** `str.lower()` on ASCII letters. */
  function Lower(s: string): (r: string)
    ensures |r| == |s|
  {
    seq(|s|, i requires 0 <= i < |s| => LowerChar(s[i]))
  }

  /** `str.replace(' ', '_')`. */
  function ReplaceSpaces(s: string): (r: string)
    ensures |r| == |s|
  {
    seq(|s|, i requires 0 <= i < |s| => if s[i] == ' ' then '_' else s[i])
  }

  /** One character as `.lower().replace(' ', '_')` rewrites it. */
  function NormalizeChar(c: char): char {
    if c == ' ' then '_' else LowerChar(c)
  }

  /** `r` is `t` rewritten character by character. */
  predicate CharwiseNormalized(t: string, r: string) {
    |r| == |t| && (t == [] || (r[0] == NormalizeChar(t[0]) && CharwiseNormalized(t[1..], r[1..])))
  }

  /** `CharwiseNormalized` holds exactly when the lengths agree and each character is rewritten. */
  lemma {:induction false} CharwiseNormalizedExactly(t: string, r: string)
    ensures CharwiseNormalized(t, r) <==> |r| == |t| && forall i :: 0 <= i < |t| ==> r[i] == NormalizeChar(t[i])
  {
    if t != [] && |r| == |t| {
      CharwiseNormalizedExactly(t[1..], r[1..]);
      assert forall i :: 1 <= i < |t| ==> t[i] == t[1..][i - 1] && r[i] == r[1..][i - 1];
    }
  }

  /** One column label as `normalize_column_names` rewrites it: stripped, lower-cased, spaces to underscores. */
  function NormalizeColumnName(s: string): (r: string)
    ensures CharwiseNormalized(Strip(s), r)
    ensures forall i :: 0 <= i < |r| ==> r[i] != ' ' && !('A' <= r[i] <= 'Z')
    ensures r == [] || (!IsSpace(r[0]) && !IsSpace(r[|r| - 1]))
    ensures |r| <= |s|
  {
    var t := Strip(s);
    NormalizedChars(t);
    ReplaceSpaces(Lower(t))
  }

  /** Lower-casing then replacing spaces leaves no space and no capital, and keeps exactly the characters `isspace` accepts except the ordinary space. */
  lemma NormalizedChars(t: string)
    ensures forall i :: 0 <= i < |t| ==> ReplaceSpaces(Lower(t))[i] != ' ' && !('A' <= ReplaceSpaces(Lower(t))[i] <= 'Z')
    ensures forall i :: 0 <= i < |t| ==> (IsSpace(ReplaceSpaces(Lower(t))[i]) ==> IsSpace(t[i]))
    ensures CharwiseNormalized(t, ReplaceSpaces(Lower(t)))
  {
    var l := Lower(t);
    var r := ReplaceSpaces(l);
    forall i | 0 <= i < |t|
      ensures r[i] != ' ' && !('A' <= r[i] <= 'Z')
      ensures IsSpace(r[i]) ==> IsSpace(t[i])
      ensures r[i] == NormalizeChar(t[i])
    {
      assert l[i] == LowerChar(t[i]);
      assert r[i] == if l[i] == ' ' then '_' else l[i];
    }
    CharwiseNormalizedExactly(t, r);
  }

  /** `normalize_column_names`: every label normalised, in place. */
  function NormalizeColumnNames(columns: seq<string>): (r: seq<string>)
    ensures |r| == |columns|
  {
    seq(|columns|, i requires 0 <= i < |columns| => NormalizeColumnName(columns[i]))
  }

  /** Normalising twice changes nothing more than normalising once. */
  lemma NormalizeIdempotent(s: string)
    ensures NormalizeColumnName(NormalizeColumnName(s)) == NormalizeColumnName(s)
  {
    var n := NormalizeColumnName(s);
    assert StripLeft(n) == n;
    assert StripRight(n) == n;
    assert Lower(n) == n;
    assert ReplaceSpaces(n) == n;
  }

  /** How `find_column` rewrites a candidate name: lower-cased and spaces to underscores, not stripped. */
  function NormalizeCandidate(s: string): string {
    ReplaceSpaces(Lower(s))
  }

  predicate ColumnMatches(columns: seq<string>, name: string, j: int) {
    0 <= j < |columns| && NormalizeCandidate(name) == NormalizeColumnName(columns[j])
  }

  /** Name `i` is the first candidate that matches some column, and `j` the first column it matches. */
  ghost predicate FirstColumnMatch(columns: seq<string>, possibleNames: seq<string>, i: int, j: int) {
    && 0 <= i < |possibleNames|
    && ColumnMatches(columns, possibleNames[i], j)
    && (forall i', j' :: 0 <= i' < i ==> !ColumnMatches(columns, possibleNames[i'], j'))
    && (forall j' :: 0 <= j' < j ==> !ColumnMatches(columns, possibleNames[i], j'))
  }

  /** `name in labels` followed by `labels.index(name)`: the first position holding `name`. */
  method FirstIndexOf(labels: seq<string>, name: string) returns (r: Option<nat>)
    ensures r.Some? ==> r.value < |labels| && labels[r.value] == name
    ensures r.Some? ==> forall j :: 0 <= j < r.value ==> labels[j] != name
    ensures r.None? ==> forall j :: 0 <= j < |labels| ==> labels[j] != name
  {
    for j := 0 to |labels|
      invariant forall j' :: 0 <= j' < j ==> labels[j'] != name
    {
      if labels[j] == name {
        return Some(j);
      }
    }
    return None;
  }

  /** A candidate matches column `j` exactly when it equals that column's normalised label. */
  lemma ColumnMatchesNormalized(columns: seq<string>, name: string)
    ensures forall j :: 0 <= j < |columns| ==>
              (ColumnMatches(columns, name, j) <==> NormalizeColumnNames(columns)[j] == NormalizeCandidate(name))
    ensures forall j :: !(0 <= j < |columns|) ==> !ColumnMatches(columns, name, j)
  {
  }

  /**
   * `find_column`: the original label of the first column that the first
   * matching candidate name (in the caller's order) equals after normalisation.
   */
  method FindColumn(columns: seq<string>, possibleNames: seq<string>) returns (r: Option<string>)
    ensures r.None? <==> forall i, j :: 0 <= i < |possibleNames| ==> !ColumnMatches(columns, possibleNames[i], j)
    ensures r.Some? ==> exists i, j :: FirstColumnMatch(columns, possibleNames, i, j) && r.value == columns[j]
  {
    var normalized := NormalizeColumnNames(columns);
    for i := 0 to |possibleNames|
      invariant forall i', j' :: 0 <= i' < i ==> !ColumnMatches(columns, possibleNames[i'], j')
    {
      var name := NormalizeCandidate(possibleNames[i]);
      var k := FirstIndexOf(normalized, name);
      ColumnMatchesNormalized(columns, possibleNames[i]);
      if k.Some? {
        assert FirstColumnMatch(columns, possibleNames, i, k.value);
        return Some(columns[k.value]);
      }
    }
    return None;
  }

  // ------------------------------------------------------------- summary

  /** A key of `changes_mom` / `changes_ytd`: a maturity, or the `'va'` pseudo-maturity. */
  datatype DeltaKey = MaturityKey(maturity: nat) | VaKey

  /** The dictionary `create_summary_dict` returns. */
  datatype Summary = Summary(
    referenceDate: Date,
    country: string,
    rates: Dict<nat, real>,
    va: Option<real>,
    changesMom: Dict<DeltaKey, real>,
    changesYtd: Dict<DeltaKey, real>)

  /** `None - float` in `calculate_bps_change`: an anchor carries a VA and the current record does not. */
  datatype SummaryError = VaMissing

  /** One delta per current maturity that the anchor also quotes, in the order of the current rates. */
  function RateChanges(rates: Dict<nat, real>, anchor: Dict<nat, real>): Dict<DeltaKey, real>
  {
    if rates == [] then []
    else
      var (m, v) := rates[|rates| - 1];
      RateChanges(rates[..|rates| - 1], anchor)
      + match Get(anchor, m)
        case Some(a) => [(MaturityKey(m), CalculateBpsChange(a, v))]
        case None => []
  }

  /** One of the two delta blocks: nothing unless the anchor rates are present and non-empty (Python truthiness). */
  function ChangesAgainst(rates: Dict<nat, real>, va: Option<real>, anchorRates: Option<Dict<nat, real>>, anchorVa: Option<real>)
    : Result<Dict<DeltaKey, real>, SummaryError>
  {
    if anchorRates.None? || anchorRates.value == [] then Ok([])
    else
      var changes := RateChanges(rates, anchorRates.value);
      if anchorVa.None? then Ok(changes)
      else if va.None? then Err(VaMissing)
      else Ok(changes + [(VaKey, CalculateBpsChange(anchorVa.value, va.value))])
  }

  function SummaryOf(referenceDate: Date, country: string, rates: Dict<nat, real>, va: Option<real>,
                     previousRates: Option<Dict<nat, real>>, previousVa: Option<real>,
                     ytdRates: Option<Dict<nat, real>>, ytdVa: Option<real>): Result<Summary, SummaryError>
  {
    match ChangesAgainst(rates, va, previousRates, previousVa)
    case Err(e) => Err(e)
    case Ok(mom) =>
      match ChangesAgainst(rates, va, ytdRates, ytdVa)
      case Err(e) => Err(e)
      case Ok(ytd) => Ok(Summary(referenceDate, country, rates, va, mom, ytd))
  }

  /** The delta loop of `create_summary_dict` for one anchor. */
  method ComputeChanges(rates: Dict<nat, real>, va: Option<real>, anchorRates: Option<Dict<nat, real>>, anchorVa: Option<real>)
    returns (r: Result<Dict<DeltaKey, real>, SummaryError>)
    ensures r == ChangesAgainst(rates, va, anchorRates, anchorVa)
  {
    if anchorRates.None? || anchorRates.value == [] {
      return Ok([]);
    }
    var anchor := anchorRates.value;
    var changes: Dict<DeltaKey, real> := [];
    for i := 0 to |rates|
      invariant changes == RateChanges(rates[..i], anchor)
    {
      var (m, v) := rates[i];
      assert rates[..i + 1][..i] == rates[..i];
      match Get(anchor, m) {
        case Some(a) =>
          changes := changes + [(MaturityKey(m), CalculateBpsChange(a, v))];
        case None =>
      }
    }
    assert rates[..|rates|] == rates;
    if anchorVa.Some? {
      if va.None? {
        return Err(VaMissing);
      }
      changes := changes + [(VaKey, CalculateBpsChange(anchorVa.value, va.value))];
    }
    return Ok(changes);
  }

  /** `create_summary_dict`: the current record with its month-over-month and year-to-date deltas. */
  method CreateSummaryDict(referenceDate: Date, country: string, rates: Dict<nat, real>, va: Option<real>,
                           previousRates: Option<Dict<nat, real>>, previousVa: Option<real>,
                           ytdRates: Option<Dict<nat, real>>, ytdVa: Option<real>)
    returns (r: Result<Summary, SummaryError>)
    ensures r == SummaryOf(referenceDate, country, rates, va, previousRates, previousVa, ytdRates, ytdVa)
  {
    var mom := ComputeChanges(rates, va, previousRates, previousVa);
    if mom.Err? {
      return Err(mom.error);
    }
    var ytd := ComputeChanges(rates, va, ytdRates, ytdVa);
    if ytd.Err? {
      return Err(ytd.error);
    }
    return Ok(Summary(referenceDate, country, rates, va, mom.value, ytd.value));
  }

  /**
   * A maturity delta exists exactly for the maturities both sides quote, and it
   * is the move from the anchor's rate to the current one; no `'va'` key arises here.
   */
  lemma {:induction false} RateChangesExactly(rates: Dict<nat, real>, anchor: Dict<nat, real>, m: nat, x: real)
    ensures (MaturityKey(m), x) in RateChanges(rates, anchor)
        <==> exists v :: (m, v) in rates && Get(anchor, m).Some? && x == CalculateBpsChange(Get(anchor, m).value, v)
    ensures !HasKey(RateChanges(rates, anchor), VaKey)
  {
    if rates != [] {
      var init := rates[..|rates| - 1];
      RateChangesExactly(init, anchor, m, x);
      assert rates == init + [rates[|rates| - 1]];
      var tail := match Get(anchor, rates[|rates| - 1].0)
        case Some(a) => [(MaturityKey(rates[|rates| - 1].0), CalculateBpsChange(a, rates[|rates| - 1].1))]
        case None => [];
      assert RateChanges(rates, anchor) == RateChanges(init, anchor) + tail;
    }
  }

  /**
   * The key set of one delta block: a maturity key only where the current and the
   * anchor rates both quote it, a `'va'` key only for a non-empty anchor with a VA,
   * and nothing at all for a missing or empty anchor.
   */
  lemma ChangesKeys(rates: Dict<nat, real>, va: Option<real>, anchorRates: Option<Dict<nat, real>>, anchorVa: Option<real>, m: nat)
    requires ChangesAgainst(rates, va, anchorRates, anchorVa).Ok?
    ensures var ch := ChangesAgainst(rates, va, anchorRates, anchorVa).value;
      && (HasKey(ch, MaturityKey(m)) <==> anchorRates.Some? && HasKey(rates, m) && HasKey(anchorRates.value, m))
      && (HasKey(ch, VaKey) <==> anchorRates.Some? && anchorRates.value != [] && anchorVa.Some?)
      && (anchorRates.None? || anchorRates.value == [] ==> ch == [])
  {
    var ch := ChangesAgainst(rates, va, anchorRates, anchorVa).value;
    if anchorRates.Some? && anchorRates.value != [] {
      var changes := RateChanges(rates, anchorRates.value);
      if HasKey(ch, MaturityKey(m)) {
        var i :| 0 <= i < |ch| && ch[i].0 == MaturityKey(m);
        assert i < |changes|;
        RateChangesExactly(rates, anchorRates.value, m, ch[i].1);
        assert changes[i] in changes;
      }
      if HasKey(rates, m) && HasKey(anchorRates.value, m) {
        var i :| 0 <= i < |rates| && rates[i].0 == m;
        var x := CalculateBpsChange(Get(anchorRates.value, m).value, rates[i].1);
        assert rates[i] in rates;
        RateChangesExactly(rates, anchorRates.value, m, x);
        var k :| 0 <= k < |changes| && changes[k] == (MaturityKey(m), x);
        assert ch[k] == changes[k];
      }
      RateChangesExactly(rates, anchorRates.value, m, 0.0);
      if anchorVa.Some? {
        assert ch[|ch| - 1].0 == VaKey;
      } else {
        assert ch == changes;
      }
    }
  }

  /** The only failure: a non-empty anchor carries a VA while the current record has none. */
  lemma ChangesFailure(rates: Dict<nat, real>, va: Option<real>, anchorRates: Option<Dict<nat, real>>, anchorVa: Option<real>)
    ensures ChangesAgainst(rates, va, anchorRates, anchorVa).Err?
        <==> anchorRates.Some? && anchorRates.value != [] && anchorVa.Some? && va.None?
  {
  }
}
