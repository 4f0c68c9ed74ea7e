# HR dataset preparation, modelled in Dafny

`HRDataset_visualisation.py` loads an HR table (one row per employee) and draws a series of
charts from it. Apart from the plotting, it does a small amount of real data preparation, and that
is what this project models and proves things about:

- **`calculate_age`** reads a birth date. It tries `%m/%d/%Y`, then `%m-%d-%Y`, then `%m/%d/%y`,
  and stops at the first format that succeeds. If all three fail, the error propagates. It then
  counts the completed years up to today and returns the absolute value when the result is
  negative. The clock read `datetime.today()` is the parameter `today`, read once for the whole column.
- **The `Age` column**: `calculate_age` applied to every row's `DOB`.
- **The hire-date step**: `DateofHire` is coerced to a date or to missing with `%m/%d/%Y`, and
  the rows with a missing date are dropped in place. Every chart after this step sees the smaller table.
- **The counting aggregations**: `value_counts` of `Sex`, `MaritalDesc` and `Department`; the
  `(EmploymentStatus, Sex)` count pivot with zero fill; and the `(Department, TermReason)` pivot
  over the rows with `Termd == 1`.

Layout, one module per file:

| file | module | contents |
|---|---|---|
| `common.dfy` | `Common` | `Option` (missing cells) and `Result` (exceptions) |
| `calendar.dfy` | `Calendar` | dates, leap years, the dates `datetime` accepts, date order |
| `text.dfy` | `Text` | digit strings, zero-padded printing, `split`/`join` |
| `date_formats.dfy` | `DateFormats` | `strptime` for the three formats, and a printer as its inverse |
| `age.dfy` | `Age` | the fallback chain and the age arithmetic |
| `seqs.dfy` | `Seqs` | row filters (boolean masks, `dropna`) |
| `counting.dfy` | `Counting` | `value_counts`, `unique`, `groupby(...).size().unstack(fill_value=0)` |
| `hr_table.dfy` | `HRTable` | rows, the `Dataset` class with the in-place steps, the chart aggregations, the run in program order |

The data frame is a class, `HRTable.Dataset`, holding a sequence of rows. The script changes it in
place at three points, and each point is a method with `modifies`:

- `AddAgeColumn` (line 62). It works row by row, as `apply` does, and leaves the table unchanged
  when a row raises.
- `CoerceHireDates` (line 137).
- `DropMissingHireDates` (line 140).

The calculations are functions: `calculate_age` and the aggregations. `HRTable.Analyse` runs the
steps in the script's order and says which version of the table each chart counts over.

How `strptime` and `pd.to_datetime` parse is an assumption about the libraries, not something
the script computes. `DateFormats` states it concretely:

- `%m` is 1-2 digits for 1-12.
- `%d` is 1-2 digits for 1-31, or a space followed by a digit from 1 to 9.
- `%Y` is exactly four digits and `%y` exactly two.
- The whole string must match.
- The date must exist, with year 1 or later and the day within its month.

The century rule for `%y` (`ShortYearToYear`: 00-68 means 2000-2068 and 69-99 means 1969-1999) is
also taken as given. No field can contain the separator, so the format's regular expression matches
exactly when splitting at the separator gives three fields that each match.

## Model

| member | source | states |
|---|---|---|
| `DateFormats.Strptime` | HRDataset_visualisation.py:43-50 | a format only ever yields a date that exists |
| `DateFormats.ShortYearToYear` | HRDataset_visualisation.py:50 | a `%y` year lies in 1969-2068 and keeps its last two digits (assumed rule of the library) |
| `DateFormats.StrptimeSound` | HRDataset_visualisation.py:43-50 | an accepted string is exactly three matching fields joined by the format's separator, and the date is read from those fields |
| `DateFormats.StrptimeComplete` | HRDataset_visualisation.py:43-50 | three matching fields joined by the separator are accepted; the only possible failure is a date that does not exist |
| `DateFormats.RenderRoundTrip` | HRDataset_visualisation.py:43-50 | a valid date printed in a format parses back to itself; for `%y` this holds inside the century window |
| `DateFormats.FormatsExclusive` | HRDataset_visualisation.py:42-50 | no string is accepted by two of the three formats |
| `Age.FirstMatch` | HRDataset_visualisation.py:42-50 | the nested `try`/`except ValueError` over a list of formats only ever yields a date that exists; what it returns is stated by the three `FirstMatch` lemmas below |
| `Age.FirstMatchIsFirstSuccess` | HRDataset_visualisation.py:42-50 | the fallback returns the result of the first format that succeeds; a later format is tried only when every earlier one failed |
| `Age.FirstMatchSucceeds` | HRDataset_visualisation.py:42-50 | every successful result comes from a tried format whose predecessors all failed |
| `Age.FirstMatchFails` | HRDataset_visualisation.py:42-50 | the fallback fails exactly when every format fails, and then with the error of the last one |
| `Age.ParseBirthDate` | HRDataset_visualisation.py:42-50 | the fallback over `%m/%d/%Y`, `%m-%d-%Y`, `%m/%d/%y` only ever yields a date that exists; the lemmas below state which date and which error |
| `Age.ParseBirthDateAnyFormat` | HRDataset_visualisation.py:42-50 | whichever of the three formats reads the string, the birth date returned is the date that format reads, so the trial order never changes the result |
| `Age.ParseBirthDateFails` | HRDataset_visualisation.py:50 | no birth date is produced exactly when no format accepts the string; the `%m/%d/%y` error is the one that propagates |
| `Age.RawAge` | HRDataset_visualisation.py:53 | the age before the sign fix is the year difference or one less, and it is negative exactly when the birth date lies after today |
| `Age.RawAgeCountsAnniversaries` | HRDataset_visualisation.py:53 | the year difference, less one when today's (month, day) comes first, is the number of birthday anniversaries reached by today: the last one is not after today and the next one is |
| `Age.RawAgeUnique` | HRDataset_visualisation.py:53 | that anniversary count is the only integer with this property |
| `Age.RawAgeOnBirthday` | HRDataset_visualisation.py:53 | on the birthday itself nothing is subtracted |
| `Age.NonNegativeAge` | HRDataset_visualisation.py:56-57 | the returned age is non-negative and is either the raw age or its negation |
| `Age.CalculateAge` | HRDataset_visualisation.py:40-59 | `calculate_age` with today as a parameter; it has no contract of its own, and `CalculateAgeOfParsed` and `CalculateAgeFails` state its result in both cases |
| `Age.CalculateAgeOfParsed` | HRDataset_visualisation.py:40-59 | whichever format reads the birth date, the age is the non-negative age of that date on `today` |
| `Age.CalculateAgeFails` | HRDataset_visualisation.py:40-59 | `calculate_age` fails exactly when none of the three formats accepts the string |
| `Age.AgeOfRendered` | HRDataset_visualisation.py:40-59 | a valid date printed in any of the formats (for `%y`, inside its window) is aged as the date itself: the non-negative age of that date on `today` |
| `Age.CalculateAgeSameDate` | HRDataset_visualisation.py:42-53 | a valid date gives the same age whichever of the three formats it is written in; when `%m/%d/%y` is one of the two, the date must lie in its window 1969-2068 |
| `Age.ExampleSlashLongYear` | HRDataset_visualisation.py:40-59 | `"01/01/1990"` on 2024-06-01 gives 34 |
| `Age.ExampleDashLongYear` | HRDataset_visualisation.py:40-59 | `"02-15-1990"` on 2024-06-01 gives 34 |
| `Age.ExampleShortYearRollover` | HRDataset_visualisation.py:50-57 | `"05/22/52"` is read as 2052, so on 2024-06-01 the raw age is -28 and 28 is returned |
| `Age.ExampleShortYearPast` | HRDataset_visualisation.py:50-53 | `"05/22/10"` on 2024-06-01 gives 14: a two-digit year up to today's is read in this century and `abs` does not run |
| `Age.ExampleShortYearLaterThisYear` | HRDataset_visualisation.py:50-57 | `"12/31/24"` on 2024-06-01 has raw age -1 and gives 1 |
| `HRTable.RowAge` | HRDataset_visualisation.py:40-59 | `calculate_age` on one `DOB` cell; it has no contract of its own, and `RowAgeOutcome` states its outcome |
| `HRTable.RowAgeOutcome` | HRDataset_visualisation.py:40-59 | a missing cell raises (TypeError at line 43 is not caught by `except ValueError`); text gives an age exactly when some format reads it, and otherwise the `%m/%d/%y` error propagates |
| `HRTable.DeriveAges` | HRDataset_visualisation.py:62 | the `Age` column exists exactly when every row's birth date can be read; it then has one age per row, in row order, each equal to `calculate_age` of that row's `DOB` |
| `HRTable.DeriveAgesFirstFailure` | HRDataset_visualisation.py:62 | when some row cannot be read, the failure reported is that of the first such row |
| `HRTable.Dataset.AddAgeColumn` | HRDataset_visualisation.py:62 | on success every row gains its own age and keeps all other columns; on failure the table is unchanged and the first row's error is returned |
| `HRTable.WithAges` | HRDataset_visualisation.py:62 | `data['Age'] = ...`: row i gains age i and every other column of the row is unchanged |
| `HRTable.CoerceHireDate` | HRDataset_visualisation.py:137 | a coerced cell is never text; it is missing exactly when it was missing or its text does not parse as `%m/%d/%Y`; otherwise it is the date parsed from the text, or the date it already held |
| `HRTable.CoerceHireDateIdempotent` | HRDataset_visualisation.py:137 | coercing a coerced cell again changes nothing |
| `HRTable.Dataset.CoerceHireDates` | HRDataset_visualisation.py:137 | the table afterwards is the row-by-row coercion of the table before |
| `HRTable.Dataset.DropMissingHireDates` | HRDataset_visualisation.py:140 | the table afterwards holds exactly the rows that have a hire date, in their original order |
| `Seqs.FilterKeeps` | HRDataset_visualisation.py:140 | a row filter keeps exactly the rows satisfying the mask, unchanged and in order: the kept positions strictly increase and include a position exactly when its row satisfies the mask |
| `Seqs.FilterIdempotent` | HRDataset_visualisation.py:140 | filtering again with the same mask changes nothing |
| `HRTable.HireDateStep` | HRDataset_visualisation.py:137-140 | coercion then `dropna`: the result is no longer than the input and every row in it has a hire date; `HireDateStepSpec` states the rest |
| `HRTable.HireDateStepSpec` | HRDataset_visualisation.py:137-140 | after coercion and drop: every row has a hire date parsed from its original text or already held; each row is an input row with only its hire date changed; rows keep their order; an input row is removed exactly when its cell was missing or its text is not `%m/%d/%Y` |
| `HRTable.HireDateStepIdempotent` | HRDataset_visualisation.py:137-140 | applying coercion and drop a second time changes nothing |
| `Counting.Count` | HRDataset_visualisation.py:11 | the number of entries carrying a key is at most the column length, and it is zero exactly when the key does not occur |
| `Counting.Bump` | HRDataset_visualisation.py:11 | recording one more occurrence of a key adds 1 to that key's count, leaves other counts alone, adds the key if it was new, and adds 1 to the total |
| `Counting.ValueCounts` | HRDataset_visualisation.py:11 | `value_counts` (also at lines 26 and 164) has one entry per distinct non-missing key and no other entries. Each entry's count is the number of rows carrying that key, and the counts sum to the number of rows with a non-missing key |
| `Counting.Unique` | HRDataset_visualisation.py:97 | the label list of a pivot axis holds each value once, and exactly the values of its input |
| `Counting.Pivot` | HRDataset_visualisation.py:97 | the row labels are exactly the first keys that occur and the column labels are exactly the second keys. Every cell holds the exact count of its pair, and a cell is 0 exactly when its pair never occurs (the fill value) |
| `Counting.PivotTotal` | HRDataset_visualisation.py:97 | the cells of a pivot add up to the number of rows with both keys present |
| `HRTable.ColumnCount` | HRDataset_visualisation.py:11 | counting a key in a column equals the number of rows that hold it |
| `HRTable.GenderCounts` | HRDataset_visualisation.py:11 | `data['Sex'].value_counts()`: one entry per sex that occurs in some row, and each entry's count is the number of rows with that sex |
| `HRTable.MaritalStatusCounts` | HRDataset_visualisation.py:26 | the same for `MaritalDesc` |
| `HRTable.DepartmentCounts` | HRDataset_visualisation.py:164 | the same for `Department` |
| `HRTable.PairCount` | HRDataset_visualisation.py:97 | counting a key pair in a pair column equals the number of rows that hold both keys |
| `HRTable.StatusBySex` | HRDataset_visualisation.py:97 | the status-by-sex pivot is well shaped, and every cell is the number of rows with that employment status and sex |
| `HRTable.TerminatedPairCount` | HRDataset_visualisation.py:182 | after the `Termd == 1` mask, the count of a (department, reason) pair is the number of rows with `Termd == 1` and that department and reason |
| `HRTable.IsTerminated` | HRDataset_visualisation.py:182 | the mask `data['Termd'] == 1`, under which a missing `Termd` compares unequal; no contract of its own, and `TerminatedPairCount` states what it selects |
| `HRTable.Terminations` | HRDataset_visualisation.py:182 | the termination pivot is well shaped, and every cell counts exactly the rows with `Termd == 1` and its department and reason |
| `HRTable.TerminationsIgnoreActive` | HRDataset_visualisation.py:182 | inserting a row whose `Termd` is not 1 anywhere in the table leaves the termination pivot unchanged, whatever its `TermReason` |
| `HRTable.GenderCountsExample` | HRDataset_visualisation.py:11 | rows with `Sex` M, F, F count M once and F twice, 3 in all |
| `HRTable.Analyse` | HRDataset_visualisation.py:11-182 | the steps run in the script's order. Gender and marital counts use the table as loaded; the status-by-sex pivot uses it with ages added; department counts and the termination pivot use it after the hire-date step. An unreadable birth date halts the run and leaves the table unchanged |

## Left out

- Loading the CSV file (line 7) is file I/O; `Dataset`'s constructor takes the rows as loaded.
  Missing cells are `None`. `Termd` is an optional integer. Columns the modelled steps do not
  touch are kept as text in `otherColumns`.
- Every `plt.*` and `sns.heatmap` call is rendering with no result to state.
- The histogram binning (line 66), the pie-chart percentages (line 30) and the correlation matrix
  (lines 203-210) are floating-point calculations done inside numpy and pandas.
- The salary box plot (line 84) and the engagement/satisfaction scatter (lines 118-123) pass
  columns straight to the plotting library.
- Absences summed by hire date (line 143) is a grouping like the ones modelled. It works on
  summed values, and its chronological order comes from pandas' date sorting.
- `datetime.today()` (line 52) reads the clock, so it is the parameter `today`.
  The script reads the clock once per row during `apply` (lines 52 and 62). `DeriveAges`,
  `Dataset.AddAgeColumn` and `Analyse` use one `today` for the whole column. The two differ only
  when the `apply` runs across midnight.
- `value_counts` sorts its result by descending count, and pandas leaves the order of ties
  unspecified. `groupby` sorts its keys. `Counting.ValueCounts` and `Counting.Pivot` keep
  first-seen order instead. These orders only affect the bars' layout.
- `strptime`'s `\d` also matches non-ASCII decimal digits; the model accepts ASCII digits only.
- Some behaviour of `pd.to_datetime` is not modelled. The strings `"now"` and `"today"` become the
  current time. Dates outside the nanosecond `Timestamp` range (1677-2262) become missing. The
  model coerces every valid `%m/%d/%Y` date to a date.
- The two-digit-year reading is modelled as written, and it goes wrong in two separate ways for a
  20th-century birth year written with `%y` from 00 to 68, which is read as 20xx:
  - When that 20xx date is no later than today, the raw age is non-negative but 100 years short.
    This is the century rule alone, and lines 56-57 do not run (`Age.ExampleShortYearPast`).
  - Only when the 20xx date lies after today is the raw age negative (`Age.RawAge` states this
    exactly). Then the absolute value at lines 56-57 returns a number that is not the person's
    age (`Age.ExampleShortYearRollover`, `Age.ExampleShortYearLaterThisYear`).

  The code does not say which behaviour is intended, so neither is reported as a defect.
