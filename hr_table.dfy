/**
 * The HR data frame and the steps of the script that reshape it or count
 * over it: the derived `Age` column, the coercion of `DateofHire` followed by
 * dropping the rows without one, and the counts behind the bar, pie and
 * stacked-bar charts.
 */
module HRTable {
  import opened Common
  import opened Calendar
  import opened DateFormats
  import opened Age
  import opened Seqs
  import opened Counting

  /** A `DateofHire` cell: the text read from the file, a parsed date (datetime64), or missing (NaN / NaT). */
  datatype HireDate = HireText(text: string) | HireDay(date: Date) | HireMissing

  /**
   * One employee row: the columns the modelled steps read or write, plus the
   * remaining columns (salary, absences, survey scores, ...) as text.
   */
  datatype Row = Row(
    sex: Option<string>,
    maritalDesc: Option<string>,
    dob: Option<string>,
    department: Option<string>,
    employmentStatus: Option<string>,
    termd: Option<int>,
    termReason: Option<string>,
    dateOfHire: HireDate,
    age: Option<nat>,
    otherColumns: map<string, string>)

  /** Why `calculate_age` raises for a row: a missing birth date (TypeError) or no format reads it (ValueError). */
  datatype AgeError = MissingBirthDate | UnreadableBirthDate(cause: ParseError)

  /** `calculate_age` applied to one `DOB` cell. */
  function RowAge(dob: Option<string>, today: Date): Result<nat, AgeError>
  {
    match dob
    case None => Err(MissingBirthDate)
    case Some(s) =>
      match CalculateAge(s, today)
      case Ok(a) => Ok(a)
      case Err(e) => Err(UnreadableBirthDate(e))
  }

  /**
   * A missing cell raises TypeError, which no `except ValueError` catches;
   * text gives an age exactly when some format reads it, and otherwise the
   * `%m/%d/%y` error propagates.
   */
  lemma RowAgeOutcome(dob: Option<string>, today: Date)
    ensures dob.None? ==> RowAge(dob, today) == Err(MissingBirthDate)
    ensures dob.Some? ==> (RowAge(dob, today).Ok? <==> exists f :: Strptime(dob.value, f).Ok?)
    ensures dob.Some? && RowAge(dob, today).Err? ==>
              RowAge(dob, today) == Err(UnreadableBirthDate(Strptime(dob.value, SlashShortYear).error))
  {
    if dob.Some? {
      CalculateAgeFails(dob.value, today);
      ParseBirthDateFails(dob.value);
    }
  }

  /**
   * `data['DOB'].apply(calculate_age)`: one age per row, in row order, or the
   * exception of the first row whose birth date cannot be read.
   */
  function DeriveAges(rows: seq<Row>, today: Date): (r: Result<seq<nat>, AgeError>)
    ensures r.Ok? <==> forall i :: 0 <= i < |rows| ==> RowAge(rows[i].dob, today).Ok?
    ensures r.Ok? ==> |r.value| == |rows|
    ensures r.Ok? ==> forall i :: 0 <= i < |rows| ==> RowAge(rows[i].dob, today) == Ok(r.value[i])
  {
    if |rows| == 0 then Ok([])
    else
      var init := rows[..|rows| - 1];
      assert forall i :: 0 <= i < |init| ==> init[i] == rows[i];
      match DeriveAges(init, today)
      case Err(e) => Err(e)
      case Ok(ages) =>
        match RowAge(rows[|rows| - 1].dob, today)
        case Err(e) => Err(e)
        case Ok(a) => Ok(ages + [a])
  }

  /** The failure `DeriveAges` reports is that of the first row that fails. */
  lemma {:induction false} DeriveAgesFirstFailure(rows: seq<Row>, i: nat, today: Date)
    requires i < |rows|
    requires forall j :: 0 <= j < i ==> RowAge(rows[j].dob, today).Ok?
    requires RowAge(rows[i].dob, today).Err?
    ensures DeriveAges(rows, today) == Err(RowAge(rows[i].dob, today).error)
  {
    var init := rows[..|rows| - 1];
    if i < |rows| - 1 {
      assert forall j :: 0 <= j <= i ==> init[j] == rows[j];
      DeriveAgesFirstFailure(init, i, today);
    } else {
      assert forall j :: 0 <= j < |init| ==> init[j] == rows[j];
    }
  }

  /** The frame after `data['Age'] = ages`: each row gains its age, every other column as it was. */
  function WithAges(rows: seq<Row>, ages: seq<nat>): (r: seq<Row>)
    requires |ages| == |rows|
    ensures |r| == |rows|
    ensures forall i :: 0 <= i < |rows| ==> r[i].age == Some(ages[i]) && r[i].(age := rows[i].age) == rows[i]
  {
    seq(|rows|, i requires 0 <= i < |rows| => rows[i].(age := Some(ages[i])))
  }

  /**
   * `pd.to_datetime(cell, format="%m/%d/%Y", errors='coerce')`: text is parsed
   * with the `%m/%d/%Y` model and becomes missing when it does not parse; a
   * date stays the date it is, a missing cell stays missing.
   */
  function CoerceHireDate(h: HireDate): (c: HireDate)
    ensures !c.HireText?
    ensures h.HireDay? ==> c == h
    ensures c.HireMissing? <==> h.HireMissing? || (h.HireText? && Strptime(h.text, SlashLongYear).Err?)
    ensures h.HireText? && c.HireDay? ==> Strptime(h.text, SlashLongYear) == Ok(c.date)
  {
    match h
    case HireText(t) =>
      (match Strptime(t, SlashLongYear)
       case Ok(d) => HireDay(d)
       case Err(_) => HireMissing)
    case HireDay(_) => h
    case HireMissing => h
  }

  lemma CoerceHireDateIdempotent(h: HireDate)
    ensures CoerceHireDate(CoerceHireDate(h)) == CoerceHireDate(h)
  {
  }

  /** The frame after `data['DateofHire'] = pd.to_datetime(...)`. */
  function CoercedHireDates(rows: seq<Row>): (r: seq<Row>)
    ensures |r| == |rows|
  {
    seq(|rows|, i requires 0 <= i < |rows| => rows[i].(dateOfHire := CoerceHireDate(rows[i].dateOfHire)))
  }

  /** The mask of `dropna(subset=['DateofHire'])`. */
  predicate HasHireDate(r: Row)
  {
    !r.dateOfHire.HireMissing?
  }

  /** Coercion followed by the drop: the frame the later charts see. */
  function HireDateStep(rows: seq<Row>): (r: seq<Row>)
    ensures |r| <= |rows|
    ensures forall k :: 0 <= k < |r| ==> r[k].dateOfHire.HireDay?
  {
    FilterKeeps(CoercedHireDates(rows), HasHireDate);
    Filter(CoercedHireDates(rows), HasHireDate)
  }

  /**
   * After the hire-date step, with `idx` the kept positions (strictly
   * increasing): row k is input row `idx[k]` with only its hire date
   * replaced, that date is present, and it is what `%m/%d/%Y` reads from the
   * original text; an input row is dropped exactly when its text does not
   * parse or its cell was missing.
   */
  lemma HireDateStepSpec(rows: seq<Row>)
    ensures var out, idx := HireDateStep(rows), KeptIndices(CoercedHireDates(rows), HasHireDate);
      && |idx| == |out|
      && StrictlyIncreasing(idx)
      && (forall k :: 0 <= k < |idx| ==> idx[k] < |rows| && out[k] == rows[idx[k]].(dateOfHire := out[k].dateOfHire))
      && (forall k :: 0 <= k < |out| ==> out[k].dateOfHire.HireDay?)
      && (forall k :: 0 <= k < |idx| ==> out[k].dateOfHire == CoerceHireDate(rows[idx[k]].dateOfHire))
      && (forall i :: 0 <= i < |rows| ==>
            (i !in idx <==> rows[i].dateOfHire.HireMissing?
                            || (rows[i].dateOfHire.HireText? && Strptime(rows[i].dateOfHire.text, SlashLongYear).Err?)))
  {
    var coerced := CoercedHireDates(rows);
    FilterKeeps(coerced, HasHireDate);
  }

  /** Running the coercion and the drop a second time changes nothing. */
  lemma HireDateStepIdempotent(rows: seq<Row>)
    ensures HireDateStep(HireDateStep(rows)) == HireDateStep(rows)
  {
    var once := HireDateStep(rows);
    forall k | 0 <= k < |once| ensures !once[k].dateOfHire.HireText? {
      FilterMembership(CoercedHireDates(rows), HasHireDate, once[k]);
    }
    assert CoercedHireDates(once) == once;
    FilterIdempotent(CoercedHireDates(rows), HasHireDate);
  }

  /** Column selectors. */
  function SexOf(r: Row): Option<string> { r.sex }
  function MaritalDescOf(r: Row): Option<string> { r.maritalDesc }
  function DepartmentOf(r: Row): Option<string> { r.department }
  function EmploymentStatusOf(r: Row): Option<string> { r.employmentStatus }
  function TermReasonOf(r: Row): Option<string> { r.termReason }

  /** The values of one column, missing cells included. */
  function Column(rows: seq<Row>, f: Row -> Option<string>): (c: seq<Option<string>>)
    ensures |c| == |rows|
  {
    seq(|rows|, i requires 0 <= i < |rows| => f(rows[i]))
  }

  /** A `groupby` key pair, missing when either key is missing (`dropna=True`). */
  function KeyPair(a: Option<string>, b: Option<string>): Option<(string, string)>
  {
    if a.Some? && b.Some? then Some((a.value, b.value)) else None
  }

  function PairColumn(rows: seq<Row>, f: Row -> Option<string>, g: Row -> Option<string>): (c: seq<Option<(string, string)>>)
    ensures |c| == |rows|
  {
    seq(|rows|, i requires 0 <= i < |rows| => KeyPair(f(rows[i]), g(rows[i])))
  }

  /** Rows whose column `f` holds `k`: the row-level reference for the count charts. */
  function RowsWith(rows: seq<Row>, f: Row -> Option<string>, k: string): nat
  {
    if |rows| == 0 then 0
    else RowsWith(rows[..|rows| - 1], f, k) + (if f(rows[|rows| - 1]) == Some(k) then 1 else 0)
  }

  /** Rows whose columns `f` and `g` hold `a` and `b`. */
  function RowsWithPair(rows: seq<Row>, f: Row -> Option<string>, g: Row -> Option<string>, a: string, b: string): nat
  {
    if |rows| == 0 then 0
    else
      var x := rows[|rows| - 1];
      RowsWithPair(rows[..|rows| - 1], f, g, a, b) + (if f(x) == Some(a) && g(x) == Some(b) then 1 else 0)
  }

  lemma ColumnSnoc(rows: seq<Row>, x: Row, f: Row -> Option<string>)
    ensures Column(rows + [x], f) == Column(rows, f) + [f(x)]
  {
    var lhs, rhs := Column(rows + [x], f), Column(rows, f) + [f(x)];
    forall i | 0 <= i < |lhs| ensures lhs[i] == rhs[i] {
      if i < |rows| { assert (rows + [x])[i] == rows[i]; }
    }
  }

  lemma PairColumnSnoc(rows: seq<Row>, x: Row, f: Row -> Option<string>, g: Row -> Option<string>)
    ensures PairColumn(rows + [x], f, g) == PairColumn(rows, f, g) + [KeyPair(f(x), g(x))]
  {
    var lhs := PairColumn(rows + [x], f, g);
    var rhs := PairColumn(rows, f, g) + [KeyPair(f(x), g(x))];
    forall i | 0 <= i < |lhs| ensures lhs[i] == rhs[i] {
      if i < |rows| { assert (rows + [x])[i] == rows[i]; }
    }
  }

  /** Counting a key in a column counts the rows holding it. */
  lemma {:induction false} ColumnCount(rows: seq<Row>, f: Row -> Option<string>, k: string)
    ensures Count(Column(rows, f), k) == RowsWith(rows, f, k)
  {
    if |rows| > 0 {
      var init, x := rows[..|rows| - 1], rows[|rows| - 1];
      assert rows == init + [x];
      ColumnCount(init, f, k);
      ColumnSnoc(init, x, f);
      CountSnoc(Column(init, f), f(x), k);
    }
  }

  lemma ColumnCounts(rows: seq<Row>, f: Row -> Option<string>)
    ensures forall k :: Count(Column(rows, f), k) == RowsWith(rows, f, k)
  {
    forall k ensures Count(Column(rows, f), k) == RowsWith(rows, f, k) {
      ColumnCount(rows, f, k);
    }
  }

  /** Counting a key pair in a pair column counts the rows holding both keys. */
  lemma {:induction false} PairCount(rows: seq<Row>, f: Row -> Option<string>, g: Row -> Option<string>, a: string, b: string)
    ensures Count(PairColumn(rows, f, g), (a, b)) == RowsWithPair(rows, f, g, a, b)
  {
    if |rows| > 0 {
      var init, x := rows[..|rows| - 1], rows[|rows| - 1];
      assert rows == init + [x];
      PairCount(init, f, g, a, b);
      PairColumnSnoc(init, x, f, g);
      CountSnoc(PairColumn(init, f, g), KeyPair(f(x), g(x)), (a, b));
      assert (KeyPair(f(x), g(x)) == Some((a, b))) == (f(x) == Some(a) && g(x) == Some(b));
    }
  }

  lemma PairCounts(rows: seq<Row>, f: Row -> Option<string>, g: Row -> Option<string>)
    ensures forall a, b :: Count(PairColumn(rows, f, g), (a, b)) == RowsWithPair(rows, f, g, a, b)
  {
    forall a, b ensures Count(PairColumn(rows, f, g), (a, b)) == RowsWithPair(rows, f, g, a, b) {
      PairCount(rows, f, g, a, b);
    }
  }

  /** `data['Sex'].value_counts()`: one entry per sex that occurs, holding the number of rows with it. */
  function GenderCounts(rows: seq<Row>): (t: Tally<string>)
    ensures Distinct(Keys(t))
    ensures forall k :: k in Keys(t) <==> RowsWith(rows, SexOf, k) > 0
    ensures forall k :: Lookup(t, k) == RowsWith(rows, SexOf, k)
  {
    ColumnCounts(rows, SexOf);
    ValueCounts(Column(rows, SexOf))
  }

  /** `data['MaritalDesc'].value_counts()`. */
  function MaritalStatusCounts(rows: seq<Row>): (t: Tally<string>)
    ensures Distinct(Keys(t))
    ensures forall k :: k in Keys(t) <==> RowsWith(rows, MaritalDescOf, k) > 0
    ensures forall k :: Lookup(t, k) == RowsWith(rows, MaritalDescOf, k)
  {
    ColumnCounts(rows, MaritalDescOf);
    ValueCounts(Column(rows, MaritalDescOf))
  }

  /** `data['Department'].value_counts()`. */
  function DepartmentCounts(rows: seq<Row>): (t: Tally<string>)
    ensures Distinct(Keys(t))
    ensures forall k :: k in Keys(t) <==> RowsWith(rows, DepartmentOf, k) > 0
    ensures forall k :: Lookup(t, k) == RowsWith(rows, DepartmentOf, k)
  {
    ColumnCounts(rows, DepartmentOf);
    ValueCounts(Column(rows, DepartmentOf))
  }

  /**
   * `data.groupby(['EmploymentStatus', 'Sex']).size().unstack(fill_value=0)`:
   * every cell holds the number of rows with its status and sex.
   */
  function StatusBySex(rows: seq<Row>): (g: Grid<string, string>)
    ensures WellShaped(g)
    ensures forall i, j :: 0 <= i < |g.index| && 0 <= j < |g.columns| ==>
              g.cells[i][j] == RowsWithPair(rows, EmploymentStatusOf, SexOf, g.index[i], g.columns[j])
  {
    PairCounts(rows, EmploymentStatusOf, SexOf);
    Pivot(PairColumn(rows, EmploymentStatusOf, SexOf))
  }

  /** The mask `data['Termd'] == 1` (a missing `Termd` compares unequal). */
  predicate IsTerminated(r: Row)
  {
    r.termd == Some(1)
  }

  /**
   * `data[data['Termd'] == 1].groupby(['Department', 'TermReason']).size().unstack(fill_value=0)`:
   * every cell counts exactly the terminated rows with its department and reason.
   */
  function Terminations(rows: seq<Row>): (g: Grid<string, string>)
    ensures WellShaped(g)
    ensures forall i, j :: 0 <= i < |g.index| && 0 <= j < |g.columns| ==>
              g.cells[i][j] == CountTerminated(rows, g.index[i], g.columns[j])
  {
    TerminatedPairCounts(rows);
    Pivot(PairColumn(Filter(rows, IsTerminated), DepartmentOf, TermReasonOf))
  }

  /** Rows with `Termd == 1`, department `a` and termination reason `b`. */
  function CountTerminated(rows: seq<Row>, a: string, b: string): nat
  {
    if |rows| == 0 then 0
    else
      var r := rows[|rows| - 1];
      CountTerminated(rows[..|rows| - 1], a, b)
        + (if IsTerminated(r) && r.department == Some(a) && r.termReason == Some(b) then 1 else 0)
  }

  lemma {:induction false} TerminatedPairCount(rows: seq<Row>, a: string, b: string)
    ensures Count(PairColumn(Filter(rows, IsTerminated), DepartmentOf, TermReasonOf), (a, b))
            == CountTerminated(rows, a, b)
  {
    if |rows| > 0 {
      var init := rows[..|rows| - 1];
      var x := rows[|rows| - 1];
      TerminatedPairCount(init, a, b);
      var kept := Filter(init, IsTerminated);
      assert Filter(rows, IsTerminated) == kept + (if IsTerminated(x) then [x] else []);
      if IsTerminated(x) {
        var col := PairColumn(kept, DepartmentOf, TermReasonOf);
        PairColumnSnoc(kept, x, DepartmentOf, TermReasonOf);
        CountSnoc(col, KeyPair(x.department, x.termReason), (a, b));
        assert (KeyPair(x.department, x.termReason) == Some((a, b)))
               == (x.department == Some(a) && x.termReason == Some(b));
        assert Count(PairColumn(Filter(rows, IsTerminated), DepartmentOf, TermReasonOf), (a, b))
               == Count(col, (a, b)) + (if x.department == Some(a) && x.termReason == Some(b) then 1 else 0);
        assert CountTerminated(rows, a, b) == CountTerminated(init, a, b)
               + (if x.department == Some(a) && x.termReason == Some(b) then 1 else 0);
      } else {
        assert Filter(rows, IsTerminated) == kept;
        assert CountTerminated(rows, a, b) == CountTerminated(init, a, b);
      }
    }
  }

  lemma TerminatedPairCounts(rows: seq<Row>)
    ensures forall a, b :: Count(PairColumn(Filter(rows, IsTerminated), DepartmentOf, TermReasonOf), (a, b))
                           == CountTerminated(rows, a, b)
  {
    forall a, b ensures Count(PairColumn(Filter(rows, IsTerminated), DepartmentOf, TermReasonOf), (a, b))
                        == CountTerminated(rows, a, b) {
      TerminatedPairCount(rows, a, b);
    }
  }

  /** A row whose `Termd` is not 1 changes nothing in the termination chart, whatever its reason. */
  lemma TerminationsIgnoreActive(before: seq<Row>, r: Row, after: seq<Row>)
    requires !IsTerminated(r)
    ensures Terminations(before + [r] + after) == Terminations(before + after)
  {
    FilterConcat(before + [r], after, IsTerminated);
    FilterConcat(before, [r], IsTerminated);
    FilterConcat(before, after, IsTerminated);
    assert [r][..0] == [];
    assert Filter([r], IsTerminated) == [];
    assert Filter(before + [r], IsTerminated) == Filter(before, IsTerminated);
  }

  function SexOnly(sex: string): Row
  {
    Row(Some(sex), None, None, None, None, None, None, HireMissing, None, map[])
  }

  /** The `Sex` column of three rows M, F, F. */
  lemma SexColumnExample()
    ensures Column([SexOnly("M"), SexOnly("F"), SexOnly("F")], SexOf) == [Some("M"), Some("F"), Some("F")]
  {
    var rows := [SexOnly("M"), SexOnly("F"), SexOnly("F")];
    var col := Column(rows, SexOf);
    assert col[0] == SexOf(rows[0]) && col[1] == SexOf(rows[1]) && col[2] == SexOf(rows[2]);
  }

  /** Counting M once and F twice in the column M, F, F. */
  lemma SexCountsExample()
    ensures Count([Some("M"), Some("F"), Some("F")], "M") == 1
    ensures Count([Some("M"), Some("F"), Some("F")], "F") == 2
    ensures Present([Some("M"), Some("F"), Some("F")]) == 3
  {
    var c1: seq<Option<string>> := [Some("M")];
    var c2 := c1 + [Some("F")];
    assert c2 + [Some("F")] == [Some("M"), Some("F"), Some("F")];
    assert [] + c1 == c1;
    assert "M" != "F" by { assert "M"[0] != "F"[0]; }
    CountSnoc([], Some("M"), "M");
    CountSnoc([], Some("M"), "F");
    CountSnoc(c1, Some("F"), "M");
    CountSnoc(c1, Some("F"), "F");
    CountSnoc(c2, Some("F"), "M");
    CountSnoc(c2, Some("F"), "F");
    PresentSnoc([], Some("M"));
    PresentSnoc(c1, Some("F"));
    PresentSnoc(c2, Some("F"));
  }

  lemma GenderCountsExample()
    ensures var t := GenderCounts([SexOnly("M"), SexOnly("F"), SexOnly("F")]);
      Lookup(t, "M") == 1 && Lookup(t, "F") == 2 && Total(t) == 3
  {
    SexColumnExample();
    SexCountsExample();
  }

  /** The result of the whole script's data preparation: the counts behind each counting chart. */
  datatype Report = Report(
    genderCounts: Tally<string>,
    maritalStatusCounts: Tally<string>,
    ages: seq<nat>,
    statusBySex: Grid<string, string>,
    departmentCounts: Tally<string>,
    terminations: Grid<string, string>)

  /** The loaded data frame, which the script changes in place. */
  class Dataset {
    var rows: seq<Row>

    constructor (loaded: seq<Row>)
      ensures rows == loaded
    {
      rows := loaded;
    }

    /**
     * `data['Age'] = data['DOB'].apply(calculate_age)`: the ages are computed
     * row by row; the first row that raises stops the statement before the
     * column is assigned, leaving the frame as it was.
     */
    method AddAgeColumn(today: Date) returns (r: Result<seq<nat>, AgeError>)
      modifies this
      ensures r == DeriveAges(old(rows), today)
      ensures r.Ok? ==> rows == WithAges(old(rows), r.value)
      ensures r.Err? ==> rows == old(rows)
    {
      var ages: seq<nat> := [];
      var i := 0;
      while i < |rows|
        invariant 0 <= i <= |rows|
        invariant DeriveAges(rows[..i], today) == Ok(ages)
      {
        var a := RowAge(rows[i].dob, today);
        if a.Err? {
          DeriveAgesFirstFailure(rows, i, today);
          return Err(a.error);
        }
        assert rows[..i + 1][..i] == rows[..i];
        ages := ages + [a.value];
        i := i + 1;
      }
      assert rows[..i] == rows;
      rows := WithAges(rows, ages);
      r := Ok(ages);
    }

    /** `data['DateofHire'] = pd.to_datetime(data['DateofHire'], format="%m/%d/%Y", errors='coerce')`. */
    method CoerceHireDates()
      modifies this
      ensures rows == CoercedHireDates(old(rows))
    {
      rows := CoercedHireDates(rows);
    }

    /** `data.dropna(subset=['DateofHire'], inplace=True)`. */
    method DropMissingHireDates()
      modifies this
      ensures rows == Filter(old(rows), HasHireDate)
    {
      rows := Filter(rows, HasHireDate);
    }
  }

  /**
   * The script's data preparation in program order. The gender and marital
   * counts and the status-by-sex pivot see the frame as loaded (the last one
   * with the `Age` column); the department counts and the termination pivot see
   * it after the hire-date step. An unreadable birth date halts the run.
   */
  method Analyse(data: Dataset, today: Date) returns (r: Result<Report, AgeError>)
    modifies data
    ensures DeriveAges(old(data.rows), today).Err? ==>
              r == Err(DeriveAges(old(data.rows), today).error) && data.rows == old(data.rows)
    ensures DeriveAges(old(data.rows), today).Ok? ==>
              var ages := DeriveAges(old(data.rows), today).value;
              var withAges := WithAges(old(data.rows), ages);
              && data.rows == HireDateStep(withAges)
              && r == Ok(Report(GenderCounts(old(data.rows)), MaritalStatusCounts(old(data.rows)), ages,
                                StatusBySex(withAges), DepartmentCounts(data.rows), Terminations(data.rows)))
  {
    var genders := GenderCounts(data.rows);
    var marital := MaritalStatusCounts(data.rows);
    var aged := data.AddAgeColumn(today);
    if aged.Err? {
      return Err(aged.error);
    }
    var statusBySex := StatusBySex(data.rows);
    data.CoerceHireDates();
    data.DropMissingHireDates();
    var departments := DepartmentCounts(data.rows);
    var terminations := Terminations(data.rows);
    r := Ok(Report(genders, marital, aged.value, statusBySex, departments, terminations));
  }
}
