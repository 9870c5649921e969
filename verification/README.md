# Student record and degree classification, in Dafny

A model of the `Student` entity of a small Java program that tracks a
student through a three-year degree: each student has an identity, a
current year of study, a list of per-year mark sets (six module marks per
completed year, drawn at random from 40 to 100), and a degree classification
that stays `Pending` until the student graduates. Advancing the year records
the marks of the year just completed, and advancing past the final year
graduates the student. On graduation the classification is computed from a
weighted average in which year `i` weighs `2^i`.

The model is functional: a record is an immutable `Student` value, and each
mutating method becomes a function from the old record to a `Result` holding
the new one. A Java exception becomes a `Failure(fault)`. The random source is
a parameter.

| file | module | models |
|---|---|---|
| `outcomes.dfy` | `Outcomes` | the two run-time faults (list read and array read past the end) and `Result` |
| `marks.dfy` | `Marks` | `generateMarks` and the `nextInt(40, 101)` draw |
| `classification.dfy` | `Classification` | `calculateClassification`: year averages, weights, divisor, thresholds |
| `student.dfy` | `Students` | constructor, `incrementYear`, `graduate`, and the branches of `printDetails` / `printMarks` |

Three behaviours of the Java code that are easy to miss, all modelled as
written:

- The constructor never graduates anyone. A student created in year 4 keeps
  the classification `Pending`, and the details header for that record still
  takes the graduate branch. Every record the constructor and
  `incrementYear` produce is `Pending` while its year is at most 3
  (`WellFormed`), but a year past 3 does not imply a computed classification.
- `graduate()` and `calculateClassification()` are public. A direct call to
  `graduate()` can set a classification before year 4, so `Graduate` does not
  preserve `WellFormed` (`DirectGraduationCanComeEarly`).
- `Student.java` accepts any starting year. A starting year of 1 or less
  draws no marks. So one mark set per completed year (`YearsInStep`) holds
  for starting years of at least 1. For every starting year the history
  covers at least the completed years (`WellFormed`).
- `incrementYear` has no guard against advancing a graduated record. Every
  such advance appends a mark set and recomputes the classification.
  `RepeatGraduationKeepsClassification` proves that the recomputed value is
  always the same.

## Model

| member | source | states |
|---|---|---|
| `Marks.NextInt` | src/student/Student.java:54 | a draw `nextInt(origin, bound)` lies in the half-open range `[origin, bound)` |
| `Marks.NextIntReachesEveryValue` | src/student/Student.java:54 | every value of `[origin, bound)` is the outcome of some draw, so 100 is reachable and 101 is not |
| `Marks.GenerateMarks` | src/student/Student.java:49-58 | a generated set has exactly six marks, each in [40, 100], and mark `j` comes from draw `j` |
| `Marks.DrawableIffValid` | src/student/Student.java:49-58 | a mark set can be generated if and only if it has six marks, each in [40, 100] |
| `Classification.TextIdentifiesDegree` | src/student/Student.java:138-146 | the five stored classification strings are pairwise distinct |
| `Classification.Pow2` | src/student/Student.java:126 | the weight `2^i` of year `i` is a positive integer, so the divisor `2^3 - 1` is positive |
| `Classification.YearAverage` | src/student/Student.java:117-122 | the truncated mean of six marks in [40, 100] is itself in [40, 100] |
| `Classification.WeightedTotal` | src/student/Student.java:124-133 | with every year average in [40, 100], the weighted total of `n` years lies between 40 and 100 times the sum of the weights `2^n - 1` |
| `Classification.OverallMark` | src/student/Student.java:135 | year averages in [40, 100] give an overall mark in [40, 100] |
| `Classification.Tier` | src/student/Student.java:138-146 | the thresholds always give one of the four honours degrees, never `Pending` |
| `Classification.Quot` | src/student/Student.java:122 | integer division truncates toward zero: the quotient is bounded by the dividend on its own side of zero, within one divisor |
| `Classification.FirstFault` | src/student/Student.java:113-121 | when the history is incomplete, the first failing read is either the missing year at the end of the list or the first year whose array has fewer than six marks |
| `Classification.Classify` | src/student/Student.java:108-147 | the classification succeeds exactly when the first three sets exist with six marks each, is never `Pending`, and otherwise reports the first failing read |
| `Classification.WeightsSumToDivisor` | src/student/Student.java:124-135 | the weights `1, 2, 4, ...` of `n` years sum to the divisor `2^n - 1` |
| `Classification.EqualYearAveragesGiveThatMark` | src/student/Student.java:113-146 | when every year has the same average `v`, the overall mark is `v` and the classification is the band of `v` |
| `Classification.SumMonotone` | src/student/Student.java:118-121 | raising marks pointwise cannot lower their sum |
| `Classification.QuotMonotone` | src/student/Student.java:135 | truncating division by a positive divisor is monotone in the dividend |
| `Classification.YearAverageMonotone` | src/student/Student.java:117-122 | raising a year's marks cannot lower its truncated average |
| `Classification.WeightedTotalMonotone` | src/student/Student.java:124-133 | raising year averages cannot lower the weighted total |
| `Classification.OverallMarkMonotone` | src/student/Student.java:113-135 | raising any marks the classification reads cannot lower the overall mark |
| `Classification.TierMonotone` | src/student/Student.java:138-146 | the thresholds map a higher mark to an equal or higher honours band, never to `Pending` |
| `Classification.ClassificationMonotone` | src/student/Student.java:108-146 | raising marks pointwise never lowers the classification |
| `Classification.UniformMark` | src/student/Student.java:113-135 | a history in which every mark is `v` has overall mark `v` |
| `Classification.OverallMarkInMarkRange` | src/student/Student.java:113-135 | when every mark read lies in [40, 100], so does the overall mark |
| `Classification.ClassifyReadsFirstYearsOnly` | src/student/Student.java:113-115 | two histories that agree on their first three sets have the same classification outcome |
| `Classification.ClassifyIgnoresLaterYears` | src/student/Student.java:113-115 | appending sets to a complete history does not change its classification |
| `Classification.AllHundredsIsFirstClass` | src/student/Student.java:113-146 | three years of 100s give overall mark 100 and First Class Honours |
| `Classification.AllFortiesIsThirdClass` | src/student/Student.java:113-146 | three years of 40s give overall mark 40 and Third Class Honours |
| `Classification.DescendingAveragesIsLowerSecond` | src/student/Student.java:113-146 | year averages 70, 60, 50 give weighted total 390, overall 55 and the lower-division second |
| `Students.Create` | src/student/Student.java:30-43 | the constructor keeps identity and year, sets `Pending`, draws `year - 1` valid sets from consecutive draws (none for a starting year of 1 or less), and yields a well-formed record |
| `Students.Graduate` | src/student/Student.java:152-158 | graduation succeeds exactly when the history is complete, changes only the classification, and sets it to the band of the overall mark |
| `Students.IncrementYear` | src/student/Student.java:92-103 | an advance raises the year by one, appends exactly the completed set, keeps identity, recomputes the classification only past the final year, and fails only there when the history is incomplete |
| `Students.IncrementPreservesWellFormed` | src/student/Student.java:92-103 | advancing a well-formed record with a valid set never fails and keeps the record well-formed |
| `Students.IncrementKeepsYearsInStep` | src/student/Student.java:94-97 | `|marks| == year - 1` and valid sets are preserved by an advance |
| `Students.AdvancePreservesWellFormed` | src/student/Student.java:92-103 | after `k` advances the year has risen by `k`, the `k` sets are appended in order, identity is unchanged and the record stays well-formed |
| `Students.GraduatesAfterFinalYear` | src/student/Student.java:99-102 | from year 1 the classification is `Pending` exactly until the third advance, which sets it to the band of the three recorded years |
| `Students.AdvanceLastStepGraduates` | src/student/Student.java:100-102 | any run of advances that ends past the final year leaves a classification other than `Pending` |
| `Students.RepeatGraduationKeepsClassification` | src/student/Student.java:92-103 | advancing a graduated record only appends the set and raises the year; the classification is unchanged |
| `Students.DirectGraduationCanComeEarly` | src/student/Student.java:152-154 | a record started in year 0 and advanced three times is well-formed in year 3, and a direct call to `graduate()` then sets First Class Honours in year 3, leaving it not well-formed |
| `Students.FullName` | src/student/Student.java:64-66 | the full name is the forename, one space and the surname, and both parts can be read back from it |
| `Students.DetailsHeader` | src/student/Student.java:74-78 | the details header takes the graduate branch exactly when the year is past the final one |
| `Students.MarksListing` | src/student/Student.java:163-176 | the listing says "no modules" exactly in year 1, otherwise lists the first `year - 1` sets in order, and fails only when fewer are recorded |
| `Students.ReportListsWholeHistory` | src/student/Student.java:163-176 | for a record with one set per completed year the report never fails and lists the whole history |
| `Students.ReportDetails` | src/student/Student.java:71-86 | the report fails only when the history is shorter than the completed years; its header is the graduate one exactly past year 3 and then shows the stored classification; it lists no modules exactly in year 1 |
| `Students.GraduateReportAfterFinalYear` | src/student/Student.java:71-86 | after three advances from year 1 the report shows a graduate with the computed honours band and all three mark sets |

## Left out

- Console output: the text of `printDetails`, `printMarks` and `graduate` is not produced. The report is modelled as data: which header branch is taken and which mark sets are listed.
- The distribution of the random draws (uniform in `Student.java`) is not modelled. A draw is an arbitrary natural number reduced into the range, which fixes only which marks can occur.
- `Math.pow` on doubles is replaced by `Pow2` on integers. For exponents below 4 and these magnitudes the doubles are exact, and the `(int)` cast of the final quotient equals truncating integer division.
- Students.IncrementYear: does not model the record's state after a failing advance. In Java the year and the list are already updated when the classification throws; the model returns only the fault.
- Classification.Classify: does not model 32-bit wrap-around of the sums, because integers are unbounded here. Marks that can exist lie in [40, 100], so no sum can come near `2^31`.
- Students.Create: does not model 32-bit wrap-around of `year - 1` at the smallest `int`, because integers are unbounded here. At that value the Java loop would need about `2^31` mark sets.
- Students.IncrementYear: does not model 32-bit wrap-around of `year++` at the largest `int`, because integers are unbounded here. Reaching it takes about `2^31` advances.
- `Main.java`, the fixed three-student demo that builds records and prints them, is not part of this model.
