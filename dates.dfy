/**
 * Calendar dates and the `datetime.strptime(text, "%Y-%m-%d").date()` call
 * that the journey list uses to read its `departure-date` parameter.
 *
 * Python builds one regular expression from the format: `%Y` is four digits,
 * `%m` is `1[0-2]|0[1-9]|[1-9]`, `%d` is `3[01]|[12]\d|0[1-9]|[1-9]| [1-9]`,
 * and `-` is literal. The first alternative that matches is taken, text left
 * after the match is an error ("unconverted data remains"), and the fields
 * must then form a real date with a year in 1..9999. Every failure is a
 * `ValueError`, modelled here as `None`.
 */
module Dates {
  import opened Common
  import opened Text

  datatype Date = Date(year: int, month: int, day: int)

  /** A point in time: its calendar date and the second within that day. */
  datatype DateTime = DateTime(date: Date, secondOfDay: int)

  predicate IsLeapYear(y: int)
  {
    y % 4 == 0 && (y % 100 != 0 || y % 400 == 0)
  }

  function DaysInMonth(y: int, m: int): (n: int)
    requires 1 <= m <= 12
    ensures 28 <= n <= 31
  {
    if m == 2 then (if IsLeapYear(y) then 29 else 28)
    else if m == 4 || m == 6 || m == 9 || m == 11 then 30
    else 31
  }

  /** What Python's `date` constructor accepts. */
  predicate IsValidDate(d: Date)
  {
    1 <= d.year <= 9999 && 1 <= d.month <= 12 && 1 <= d.day <= DaysInMonth(d.year, d.month)
  }

  /** A matched group of the pattern: the number it denotes and the index just past it. */
  datatype Group = Group(value: int, end: nat)

  predicate DigitAt(s: string, i: nat) { i < |s| && IsDigit(s[i]) }

  predicate CharInAt(s: string, i: nat, lo: char, hi: char) { i < |s| && lo <= s[i] <= hi }

  /** `%Y`: exactly four digits. */
  function MatchYear(s: string, i: nat): (g: Option<Group>)
    ensures g.Some? ==> g.value.end == i + 4 && 0 <= g.value.value <= 9999
  {
    if DigitAt(s, i) && DigitAt(s, i + 1) && DigitAt(s, i + 2) && DigitAt(s, i + 3) then
      Some(Group(1000 * DigitValue(s[i]) + 100 * DigitValue(s[i + 1])
                 + 10 * DigitValue(s[i + 2]) + DigitValue(s[i + 3]), i + 4))
    else None
  }

  /** `%m`: `1[0-2]`, else `0[1-9]`, else `[1-9]`. */
  function MatchMonth(s: string, i: nat): (g: Option<Group>)
    ensures g.Some? ==> i < g.value.end <= i + 2 && 1 <= g.value.value <= 12
  {
    if CharInAt(s, i, '1', '1') && CharInAt(s, i + 1, '0', '2') then
      Some(Group(10 + DigitValue(s[i + 1]), i + 2))
    else if CharInAt(s, i, '0', '0') && CharInAt(s, i + 1, '1', '9') then
      Some(Group(DigitValue(s[i + 1]), i + 2))
    else if CharInAt(s, i, '1', '9') then
      Some(Group(DigitValue(s[i]), i + 1))
    else None
  }

  /** `%d`: `3[01]`, else `[12]\d`, else `0[1-9]`, else `[1-9]`, else a space and `[1-9]`. */
  function MatchDay(s: string, i: nat): (g: Option<Group>)
    ensures g.Some? ==> i < g.value.end <= i + 2 && 1 <= g.value.value <= 31
  {
    if CharInAt(s, i, '3', '3') && CharInAt(s, i + 1, '0', '1') then
      Some(Group(30 + DigitValue(s[i + 1]), i + 2))
    else if CharInAt(s, i, '1', '2') && DigitAt(s, i + 1) then
      Some(Group(10 * DigitValue(s[i]) + DigitValue(s[i + 1]), i + 2))
    else if CharInAt(s, i, '0', '0') && CharInAt(s, i + 1, '1', '9') then
      Some(Group(DigitValue(s[i + 1]), i + 2))
    else if CharInAt(s, i, '1', '9') then
      Some(Group(DigitValue(s[i]), i + 1))
    else if CharInAt(s, i, ' ', ' ') && CharInAt(s, i + 1, '1', '9') then
      Some(Group(DigitValue(s[i + 1]), i + 2))
    else None
  }

  predicate DashAt(s: string, i: nat) { i < |s| && s[i] == '-' }

  /** `datetime.strptime(s, "%Y-%m-%d").date()`; `None` where Python raises `ValueError`. */
  function ParseIsoDate(s: string): (r: Option<Date>)
    ensures r.Some? ==> IsValidDate(r.value)
  {
    match MatchYear(s, 0)
    case None => None
    case Some(y) =>
      if !DashAt(s, y.end) then None
      else match MatchMonth(s, y.end + 1)
      case None => None
      case Some(m) =>
        if !DashAt(s, m.end) then None
        else match MatchDay(s, m.end + 1)
        case None => None
        case Some(d) =>
          if d.end != |s| then None
          else if IsValidDate(Date(y.value, m.value, d.value)) then Some(Date(y.value, m.value, d.value))
          else None
  }

  /** Two zero-padded digits. */
  function Pad2(n: nat): (s: string)
    requires n < 100
  {
    [DigitChar(n / 10), DigitChar(n % 10)]
  }

  /** Four zero-padded digits. */
  function Pad4(n: nat): (s: string)
    requires n < 10000
  {
    Pad2(n / 100) + Pad2(n % 100)
  }

  /** `date.isoformat()`: the `YYYY-MM-DD` text a client sends as `departure-date`. */
  function FormatIsoDate(d: Date): (s: string)
    requires IsValidDate(d)
  {
    Pad4(d.year) + "-" + Pad2(d.month) + "-" + Pad2(d.day)
  }

  lemma MonthOfPad2(s: string, i: nat, m: int)
    requires 1 <= m <= 12 && i + 2 <= |s| && s[i..i + 2] == Pad2(m)
    ensures MatchMonth(s, i) == Some(Group(m, i + 2))
  {
    assert s[i] == s[i..i + 2][0] && s[i + 1] == s[i..i + 2][1];
    assert DigitValue(s[i + 1]) == m % 10;
  }

  lemma DayOfPad2(s: string, i: nat, d: int)
    requires 1 <= d <= 31 && i + 2 <= |s| && s[i..i + 2] == Pad2(d)
    ensures MatchDay(s, i) == Some(Group(d, i + 2))
  {
    assert s[i] == s[i..i + 2][0] && s[i + 1] == s[i..i + 2][1];
    assert DigitValue(s[i]) == d / 10 && DigitValue(s[i + 1]) == d % 10;
  }

  lemma YearOfPad4(s: string, y: int)
    requires 0 <= y <= 9999 && 4 <= |s| && s[..4] == Pad4(y)
    ensures MatchYear(s, 0) == Some(Group(y, 4))
  {
    var hi, lo := y / 100, y % 100;
    assert s[0] == s[..4][0] && s[1] == s[..4][1] && s[2] == s[..4][2] && s[3] == s[..4][3];
    assert DigitValue(s[0]) == hi / 10 && DigitValue(s[1]) == hi % 10;
    assert DigitValue(s[2]) == lo / 10 && DigitValue(s[3]) == lo % 10;
    assert 10 * (hi / 10) + hi % 10 == hi && 10 * (lo / 10) + lo % 10 == lo;
    assert 100 * hi + lo == y;
  }

  /** Every real date, written the ISO way, is read back as itself. */
  lemma ParseFormatRoundTrip(d: Date)
    requires IsValidDate(d)
    ensures ParseIsoDate(FormatIsoDate(d)) == Some(d)
  {
    var s := FormatIsoDate(d);
    assert |s| == 10;
    assert s[..4] == Pad4(d.year);
    YearOfPad4(s, d.year);
    assert s[5..7] == Pad2(d.month);
    MonthOfPad2(s, 5, d.month);
    assert s[8..10] == Pad2(d.day);
    DayOfPad2(s, 8, d.day);
  }

  /** Python also takes one-digit months and days. */
  lemma ParseShortFields()
    ensures ParseIsoDate("2024-2-9") == Some(Date(2024, 2, 9))
  {
  }

  /** A 29 February outside a leap year is not a date. */
  lemma ParseRejectsNonLeapLeapDay()
    ensures ParseIsoDate("2023-02-29") == None
  {
  }

  /** `32` matches `%d` only as far as `3`; the `2` left over is an error. */
  lemma ParseRejectsLeftover()
    ensures ParseIsoDate("2023-01-32") == None
  {
  }
}
