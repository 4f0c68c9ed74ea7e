/**
 * `calculate_age`: parse a birth date with an ordered fallback over three
 * formats, then count the completed years up to "today". The clock read of
 * `datetime.today()` is the parameter `today`.
 */
module Age {
  import opened Common
  import opened Calendar
  import opened Text
  import opened DateFormats

  /** The order in which `calculate_age` tries the formats. */
  const TRIAL_ORDER: seq<Format> := [SlashLongYear, DashLongYear, SlashShortYear]

  /**
   * Nested `try`/`except ValueError`: the first format that accepts `s`
   * gives the date; when every format fails, the last failure propagates.
   */
  function FirstMatch(s: string, formats: seq<Format>): (r: Result<Date, ParseError>)
    requires |formats| >= 1
    ensures r.Ok? ==> IsValid(r.value)
  {
    match Strptime(s, formats[0])
    case Ok(d) => Ok(d)
    case Err(e) => if |formats| == 1 then Err(e) else FirstMatch(s, formats[1..])
  }

  /** A format is reached only when every earlier one has failed, and its success ends the search. */
  lemma {:induction false} FirstMatchIsFirstSuccess(s: string, formats: seq<Format>, i: nat)
    requires i < |formats|
    requires Strptime(s, formats[i]).Ok?
    requires forall j :: 0 <= j < i ==> Strptime(s, formats[j]).Err?
    ensures FirstMatch(s, formats) == Strptime(s, formats[i])
  {
    if i > 0 {
      assert Strptime(s, formats[0]).Err?;
      FirstMatchIsFirstSuccess(s, formats[1..], i - 1);
    }
  }

  /** A success comes from some format all of whose predecessors failed. */
  lemma {:induction false} FirstMatchSucceeds(s: string, formats: seq<Format>)
    requires |formats| >= 1 && FirstMatch(s, formats).Ok?
    ensures exists i :: 0 <= i < |formats| && Strptime(s, formats[i]) == FirstMatch(s, formats)
                        && forall j :: 0 <= j < i ==> Strptime(s, formats[j]).Err?
  {
    if Strptime(s, formats[0]).Err? {
      FirstMatchSucceeds(s, formats[1..]);
      var i :| 0 <= i < |formats[1..]| && Strptime(s, formats[1..][i]) == FirstMatch(s, formats[1..])
               && forall j :: 0 <= j < i ==> Strptime(s, formats[1..][j]).Err?;
      assert forall j :: 0 <= j < i + 1 ==> Strptime(s, formats[j]).Err? by {
        forall j | 0 <= j < i + 1 ensures Strptime(s, formats[j]).Err? {
          if j > 0 { assert formats[j] == formats[1..][j - 1]; }
        }
      }
      assert Strptime(s, formats[i + 1]) == FirstMatch(s, formats);
    }
  }

  /** The search fails exactly when every format fails, and then with the last format's error. */
  lemma {:induction false} FirstMatchFails(s: string, formats: seq<Format>)
    requires |formats| >= 1
    ensures FirstMatch(s, formats).Err? <==> forall j :: 0 <= j < |formats| ==> Strptime(s, formats[j]).Err?
    ensures FirstMatch(s, formats).Err? ==> FirstMatch(s, formats) == Strptime(s, formats[|formats| - 1])
  {
    if |formats| > 1 && Strptime(s, formats[0]).Err? {
      FirstMatchFails(s, formats[1..]);
      assert forall j :: 1 <= j < |formats| ==> formats[j] == formats[1..][j - 1];
    }
  }

  /** The birth-date parse of `calculate_age`. */
  function ParseBirthDate(s: string): (r: Result<Date, ParseError>)
    ensures r.Ok? ==> IsValid(r.value)
  {
    FirstMatch(s, TRIAL_ORDER)
  }

  /**
   * Since no string fits two formats, the fallback order never changes the
   * outcome: whichever format accepts `s`, its date is the one returned.
   */
  lemma ParseBirthDateAnyFormat(s: string, f: Format, d: Date)
    requires Strptime(s, f) == Ok(d)
    ensures ParseBirthDate(s) == Ok(d)
  {
    var i := if f == SlashLongYear then 0 else if f == DashLongYear then 1 else 2;
    assert TRIAL_ORDER[i] == f;
    forall j | 0 <= j < i ensures Strptime(s, TRIAL_ORDER[j]).Err? {
      FormatsExclusive(s, f, TRIAL_ORDER[j]);
    }
    FirstMatchIsFirstSuccess(s, TRIAL_ORDER, i);
  }

  /** With no format accepting the string, the error of the last attempt, `%m/%d/%y`, propagates. */
  lemma ParseBirthDateFails(s: string)
    ensures ParseBirthDate(s).Err? <==> forall f :: Strptime(s, f).Err?
    ensures ParseBirthDate(s).Err? ==> ParseBirthDate(s) == Strptime(s, SlashShortYear)
  {
    FirstMatchFails(s, TRIAL_ORDER);
    if ParseBirthDate(s).Err? {
      forall f ensures Strptime(s, f).Err? {
        assert f == TRIAL_ORDER[0] || f == TRIAL_ORDER[1] || f == TRIAL_ORDER[2];
      }
    }
  }

  /**
   * `today.year - dob.year - ((today.month, today.day) < (dob.month, dob.day))`:
   * the year difference or one less, and negative exactly when the birth date
   * lies after today.
   */
  function RawAge(dob: Date, today: Date): (age: int)
    ensures today.year - dob.year - 1 <= age <= today.year - dob.year
    ensures age < 0 <==> Before(today, dob)
  {
    today.year - dob.year - (if MonthDayBefore(today, dob) then 1 else 0)
  }

  /** The raw age is the number of anniversaries of `dob` reached by `today`. */
  lemma RawAgeCountsAnniversaries(dob: Date, today: Date)
    ensures !Before(today, Anniversary(dob, RawAge(dob, today)))
    ensures Before(today, Anniversary(dob, RawAge(dob, today) + 1))
  {
  }

  /** ... and it is the only such number. */
  lemma RawAgeUnique(dob: Date, today: Date, n: int)
    requires !Before(today, Anniversary(dob, n)) && Before(today, Anniversary(dob, n + 1))
    ensures n == RawAge(dob, today)
  {
  }

  /** On the birthday itself nothing is subtracted. */
  lemma RawAgeOnBirthday(dob: Date, today: Date)
    requires today.month == dob.month && today.day == dob.day
    ensures RawAge(dob, today) == today.year - dob.year
  {
  }

  /** `if age < 0: age = abs(age)`. */
  function NonNegativeAge(raw: int): (age: nat)
    ensures age == raw || age == -raw
  {
    if raw < 0 then -raw else raw
  }

  /** `calculate_age(dob_str)`, with the clock reading passed in as `today`. */
  function CalculateAge(s: string, today: Date): Result<nat, ParseError>
  {
    match ParseBirthDate(s)
    case Ok(dob) => Ok(NonNegativeAge(RawAge(dob, today)))
    case Err(e) => Err(e)
  }

  /** Whichever format reads the birth date, the age is that of the date it reads. */
  lemma CalculateAgeOfParsed(s: string, today: Date, f: Format, dob: Date)
    requires Strptime(s, f) == Ok(dob)
    ensures CalculateAge(s, today) == Ok(NonNegativeAge(RawAge(dob, today)))
  {
    ParseBirthDateAnyFormat(s, f, dob);
  }

  /** No age is produced exactly when no format accepts the string. */
  lemma CalculateAgeFails(s: string, today: Date)
    ensures CalculateAge(s, today).Err? <==> forall f :: Strptime(s, f).Err?
  {
    ParseBirthDateFails(s);
  }

  /** A valid date printed in a format is aged like the date itself. */
  lemma AgeOfRendered(d: Date, today: Date, f: Format)
    requires IsValid(d)
    requires f == SlashShortYear ==> 1969 <= d.year <= 2068
    ensures CalculateAge(Render(d, f), today) == Ok(NonNegativeAge(RawAge(d, today)))
  {
    RenderRoundTrip(d, f);
    CalculateAgeOfParsed(Render(d, f), today, f, d);
  }

  /** One date written in any of the three formats gives one age (for `%y`, inside its century window). */
  lemma CalculateAgeSameDate(d: Date, today: Date, f: Format, g: Format)
    requires IsValid(d)
    requires f == SlashShortYear || g == SlashShortYear ==> 1969 <= d.year <= 2068
    ensures CalculateAge(Render(d, f), today) == CalculateAge(Render(d, g), today)
  {
    AgeOfRendered(d, today, f);
    AgeOfRendered(d, today, g);
  }

  lemma ExampleSlashLongYear()
    ensures CalculateAge("01/01/1990", Date(2024, 6, 1)) == Ok(34)
  {
    AgeOfRendered(Date(1990, 1, 1), Date(2024, 6, 1), SlashLongYear);
    assert Render(Date(1990, 1, 1), SlashLongYear) == "01/01/1990";
  }

  lemma ExampleDashLongYear()
    ensures CalculateAge("02-15-1990", Date(2024, 6, 1)) == Ok(34)
  {
    AgeOfRendered(Date(1990, 2, 15), Date(2024, 6, 1), DashLongYear);
    assert Render(Date(1990, 2, 15), DashLongYear) == "02-15-1990";
  }

  /**
   * A two-digit year below 69 is read as 20xx, so a birth date of 1952 comes
   * out as 2052, the raw age is negative, and its absolute value (28) is
   * returned rather than the person's age (72).
   */
  lemma ExampleShortYearRollover()
    ensures CalculateAge("05/22/52", Date(2024, 6, 1)) == Ok(28)
  {
    AgeOfRendered(Date(2052, 5, 22), Date(2024, 6, 1), SlashShortYear);
    assert Render(Date(2052, 5, 22), SlashShortYear) == "05/22/52";
    assert RawAge(Date(2052, 5, 22), Date(2024, 6, 1)) == -28;
  }

  /**
   * A two-digit year no later than today's is read in this century with a
   * non-negative raw age, so `abs` never runs: "05/22/10" is 14 on 2024-06-01,
   * whatever the century meant.
   */
  lemma ExampleShortYearPast()
    ensures CalculateAge("05/22/10", Date(2024, 6, 1)) == Ok(14)
  {
    AgeOfRendered(Date(2010, 5, 22), Date(2024, 6, 1), SlashShortYear);
    assert Render(Date(2010, 5, 22), SlashShortYear) == "05/22/10";
  }

  /** A birthday later in today's own two-digit year gives raw age -1, returned as 1. */
  lemma ExampleShortYearLaterThisYear()
    ensures CalculateAge("12/31/24", Date(2024, 6, 1)) == Ok(1)
  {
    AgeOfRendered(Date(2024, 12, 31), Date(2024, 6, 1), SlashShortYear);
    assert Render(Date(2024, 12, 31), SlashShortYear) == "12/31/24";
    assert RawAge(Date(2024, 12, 31), Date(2024, 6, 1)) == -1;
  }
}
