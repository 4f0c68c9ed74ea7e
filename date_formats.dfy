/**
 * The three `datetime.strptime` formats the script uses, modelled on how
 * Python's `_strptime` turns a format into a regular expression that must
 * match the WHOLE input: `%m` is `1[0-2]|0[1-9]|[1-9]`, `%d` is
 * `3[01]|[12]\d|0[1-9]|[1-9]| [1-9]`, `%Y` is four digits and `%y` two; the
 * fields are then handed to the `datetime` constructor, which rejects a day
 * past the end of the month and the year 0. This is a model of the library,
 * taken as given: it is what the script relies on, not something it computes.
 */
module DateFormats {
  import opened Common
  import opened Calendar
  import opened Text

  /** `%m/%d/%Y`, `%m-%d-%Y` and `%m/%d/%y`. */
  datatype Format = SlashLongYear | DashLongYear | SlashShortYear

  /** Both are `ValueError` in Python: the regex did not match, or the date does not exist. */
  datatype ParseError = Unmatched | OutOfRange

  function Separator(f: Format): char
  {
    if f == DashLongYear then '-' else '/'
  }

  /** A `%m` field: one or two digits naming a month. */
  predicate IsMonthField(t: string)
  {
    1 <= |t| <= 2 && AllDigits(t) && 1 <= DigitsValue(t) <= 12
  }

  /** The `" [1-9]"` alternative of `%d`: a day padded with a space. */
  predicate IsSpacePaddedDay(t: string)
  {
    |t| == 2 && t[0] == ' ' && IsDigit(t[1]) && t[1] != '0'
  }

  /** A `%d` field: one or two digits from 1 to 31, or a space-padded digit. */
  predicate IsDayField(t: string)
  {
    (1 <= |t| <= 2 && AllDigits(t) && 1 <= DigitsValue(t) <= 31) || IsSpacePaddedDay(t)
  }

  function DayFieldValue(t: string): (v: int)
    requires IsDayField(t)
    ensures 1 <= v <= 31
  {
    if IsSpacePaddedDay(t) then DigitValue(t[1]) else DigitsValue(t)
  }

  /** A `%Y` field is exactly four digits, a `%y` field exactly two. */
  predicate IsYearField(t: string, f: Format)
  {
    AllDigits(t) && |t| == (if f == SlashShortYear then 2 else 4)
  }

  /**
   * The century `strptime` gives a `%y` year (the POSIX rule): 00-68 are
   * 2000-2068 and 69-99 are 1969-1999. A property of the library, assumed here.
   */
  function ShortYearToYear(yy: nat): (y: int)
    requires yy < 100
    ensures 1969 <= y <= 2068 && y % 100 == yy
  {
    if yy <= 68 then 2000 + yy else 1900 + yy
  }

  function YearFieldValue(t: string, f: Format): int
    requires IsYearField(t, f)
  {
    if f == SlashShortYear then ShortYearToYear(DigitsValue(t)) else DigitsValue(t)
  }

  predicate FieldsMatch(m: string, d: string, y: string, f: Format)
  {
    IsMonthField(m) && IsDayField(d) && IsYearField(y, f)
  }

  function FieldsDate(m: string, d: string, y: string, f: Format): Date
    requires FieldsMatch(m, d, y, f)
  {
    Date(YearFieldValue(y, f), DigitsValue(m), DayFieldValue(d))
  }

  /**
   * `datetime.strptime(s, f)`. No field can contain the separator, so the
   * regular expression matches `s` exactly when splitting `s` at the
   * separator gives three fields that match their directives.
   */
  function Strptime(s: string, f: Format): (r: Result<Date, ParseError>)
    ensures r.Ok? ==> IsValid(r.value)
  {
    var fields := Split(s, Separator(f));
    if |fields| != 3 || !FieldsMatch(fields[0], fields[1], fields[2], f) then Err(Unmatched)
    else
      var d := FieldsDate(fields[0], fields[1], fields[2], f);
      if IsValid(d) then Ok(d) else Err(OutOfRange)
  }

  /** Writes a date the way the format prints it, with zero padding (the partner of `Strptime`). */
  function Render(d: Date, f: Format): string
    requires IsValid(d)
  {
    var sep := Separator(f);
    TwoDigits(d.month) + [sep] + TwoDigits(d.day) + [sep]
      + (if f == SlashShortYear then TwoDigits(d.year % 100) else FourDigits(d.year))
  }

  /** Every character of a matching field is a digit or a space, so never a separator. */
  lemma FieldAvoids(t: string, c: char)
    requires IsMonthField(t) || IsDayField(t) || AllDigits(t)
    requires c == '/' || c == '-'
    ensures c !in t
  {
  }

  /** Whatever `Strptime` accepts is the three matching fields joined by the separator. */
  lemma {:induction false} StrptimeSound(s: string, f: Format)
    requires Strptime(s, f).Ok?
    ensures var fs := Split(s, Separator(f));
      && |fs| == 3
      && s == fs[0] + [Separator(f)] + fs[1] + [Separator(f)] + fs[2]
      && FieldsMatch(fs[0], fs[1], fs[2], f)
      && Strptime(s, f) == Ok(FieldsDate(fs[0], fs[1], fs[2], f))
  {
    var sep := Separator(f);
    var fs := Split(s, sep);
    JoinSplit(s, sep);
    assert Join(fs, sep) == fs[0] + [sep] + Join(fs[1..], sep);
    assert Join(fs[1..], sep) == fs[1] + [sep] + Join(fs[2..], sep);
  }

  /** Conversely, three matching fields joined by the separator are accepted, or rejected only as a date that does not exist. */
  lemma {:induction false} StrptimeComplete(m: string, d: string, y: string, f: Format)
    requires FieldsMatch(m, d, y, f)
    ensures var s := m + [Separator(f)] + d + [Separator(f)] + y;
      Strptime(s, f) == if IsValid(FieldsDate(m, d, y, f)) then Ok(FieldsDate(m, d, y, f)) else Err(OutOfRange)
  {
    var sep := Separator(f);
    var fs := [m, d, y];
    FieldAvoids(m, sep);
    FieldAvoids(d, sep);
    FieldAvoids(y, sep);
    assert fs[1..] == [d, y] && fs[1..][1..] == [y];
    assert Join([d, y], sep) == d + [sep] + y;
    assert Join(fs, sep) == m + [sep] + (d + [sep] + y);
    assert m + [sep] + (d + [sep] + y) == m + [sep] + d + [sep] + y;
    SplitJoin(fs, sep);
  }

  /** Round trip: a printed date is parsed back to itself (for `%y`, inside the century window). */
  lemma RenderRoundTrip(d: Date, f: Format)
    requires IsValid(d)
    requires f == SlashShortYear ==> 1969 <= d.year <= 2068
    ensures Strptime(Render(d, f), f) == Ok(d)
  {
    var m, dd := TwoDigits(d.month), TwoDigits(d.day);
    var y := if f == SlashShortYear then TwoDigits(d.year % 100) else FourDigits(d.year);
    assert FieldsMatch(m, dd, y, f);
    assert FieldsDate(m, dd, y, f) == d;
    StrptimeComplete(m, dd, y, f);
  }

  /** No string is accepted by two of the formats. */
  lemma FormatsExclusive(s: string, f: Format, g: Format)
    requires f != g && Strptime(s, f).Ok?
    ensures Strptime(s, g).Err?
  {
    StrptimeSound(s, f);
    var sep, other := Separator(f), Separator(g);
    if sep != other {
      var fs := Split(s, sep);
      FieldAvoids(fs[0], other);
      FieldAvoids(fs[1], other);
      FieldAvoids(fs[2], other);
      JoinSplit(s, sep);
      JoinAvoids(fs, sep, other);
      assert other !in s;
    }
  }
}
