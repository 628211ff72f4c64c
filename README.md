# Student performance analysis, modelled in Dafny

`StudentPerformanceAnalysis.py` loads student records from a comma-separated text file. The first line names the columns. The first column is the student's name; every other column is an integer score.

The script keeps each record as a dictionary and analyses the list:
- the average, highest and lowest score per subject;
- a total and a rank per student, from a stable sort by total, largest first;
- the failing students;
- percentages;
- the top N students;
- how many students fall in each of seven score ranges per subject.

This project models those routines and proves what they promise.

Modules, one file each:
- `Records` (`records.dfy`) — the record.
  - A record's contents are a `Row`: a map from column name to `Field`, which is either `Text` or `Number`.
  - A `Student` object holds a `Row` in a mutable field, because `add_total_and_rank` writes `total` and `rank` into the same dictionaries that the loaded list holds.
- `Strings` (`strings.dfy`) — the parts of Python's `str.strip()`, `str.split(',')` and `int(str)` that the loader relies on, plus `str(int)`, which writes a data line back out for the round-trip lemmas.
- `Parsing` (`parsing.dfy`) — the line processing of `read_students_from_file`:
  - pure functions for one line and for all lines;
  - the loading loop as a method that allocates one `Student` per data line.
- `Statistics` (`statistics.dfy`) — the read-only analyses. They take the dictionaries' current contents as a `seq<Row>`.
- `Ranking` (`ranking.dfy`) — `calculate_total_score` and `add_total_and_rank`:
  - the stable descending sort is specified on input positions, by `StableOrder`;
  - `AddTotalAndRank` is a method that updates the `Student` objects in place and returns the re-ordered list.
- `Distribution` (`distribution.dfy`) — `subject_distribution`: a counting loop over a dictionary with seven keys.
- `Analysis` (`analysis.dfy`) — facts about the list that `main` passes on after ranking.
- `Sequences` (`sequences.dfy`) — counting the occurrences of a value in a sequence, shared by `Strings` and `Distribution`.

Behaviour of the script that the model keeps:
- A data line with more fields than there are column names loads without error. The extra fields are ignored, because the comprehension only runs over the header's indexes.
- A blank data line makes the whole load return `[]` when the header has two or more columns: `values[1]` raises `IndexError`. With one column, a blank line loads as a record with an empty name.
- `top_n_students(students, n)` is `students[:n]`. For a negative `n` it returns all students except the last `-n`.
- The percentage always divides by 300.
- A score field with one of U+001C..U+001F in it fails the load, even when the character sits next to the digits: `strip()` counts those characters as whitespace, but `int()` does not skip them. Only at the two ends of a whole line does `strip()` remove them before `int()` sees the field.
- "Failing" looks only at math, science and history.
- Ranking writes `total` and `rank` into the caller's dictionaries. It returns a new list in ranked order; the input list keeps its order.
- The analyses read the key `"name"`, whatever the header calls its first column. When no record has a `name` key, `highest_score` and `lowest_score` raise `KeyError`, and so does `failing_students` as soon as one student fails. The model makes that key a precondition where it is read.

## Model

| member | source | states |
|---|---|---|
| Parsing.ReadStudents | StudentPerformanceAnalysis.py:6-14 | The loading loop returns distinct, newly allocated records, one per data line, each holding the parsed dictionary of its line; a failing line makes it return the empty list (`ParseLines`) |
| Parsing.ParseLines | StudentPerformanceAnalysis.py:6-20 | The loaded records: none without a header line; otherwise either none or exactly one per data line, each the parse of its line |
| Parsing.ParseLinesSucceeds | StudentPerformanceAnalysis.py:6-14 | When every data line parses, the load has exactly one record per line after the header, each the parse of that line, in file order |
| Parsing.ParseLinesFails | StudentPerformanceAnalysis.py:9-20 | A single failing data line, wherever it is, makes the whole load `[]`, with no partial list |
| Parsing.Header | StudentPerformanceAnalysis.py:6 | The column names, joined back with commas, are the stripped first line, and no name contains a comma |
| Parsing.ParseRow | StudentPerformanceAnalysis.py:10-11 | A data line, stripped and split on commas, yields a dictionary keyed by exactly the column names, or fails |
| Parsing.ParseRows | StudentPerformanceAnalysis.py:9-12 | Parsing the data lines succeeds iff every line parses; it then yields one dictionary per line, in order |
| Parsing.BuildRow | StudentPerformanceAnalysis.py:11 | The dictionary comprehension succeeds iff the line has at least as many fields as there are column names and every field after the first is an integer |
| Parsing.BuildRowKeys | StudentPerformanceAnalysis.py:11 | A parsed dictionary's keys are exactly the column names |
| Parsing.BuildRowLastWins | StudentPerformanceAnalysis.py:11 | Column `i`'s value (text for column 0, `int()` otherwise) is stored under its name unless a later column repeats the name |
| Parsing.ParseRowOfFormatLine | StudentPerformanceAnalysis.py:10-11 | A line written as name and decimal scores separated by commas, under distinct column names, parses back to exactly that record |
| Strings.Strip | StudentPerformanceAnalysis.py:6 | `strip()` leaves no whitespace at either end of its result |
| Strings.StripSpec | StudentPerformanceAnalysis.py:6 | `strip()` removes only whitespace, and only from the two ends: its result is a middle slice of the input |
| Strings.Split | StudentPerformanceAnalysis.py:10 | `split(',')` always yields at least one piece |
| Strings.SplitPiecesHaveNoSeparator | StudentPerformanceAnalysis.py:10 | No piece of a split contains the separator |
| Strings.SplitCount | StudentPerformanceAnalysis.py:10 | A split yields one more piece than there are separators |
| Strings.JoinSplit | StudentPerformanceAnalysis.py:10 | Joining the pieces of a split with the separator gives back the original string |
| Strings.SplitJoin | StudentPerformanceAnalysis.py:10 | Splitting the join of separator-free pieces gives back the pieces |
| Strings.ParseInt | StudentPerformanceAnalysis.py:11 | `int()` succeeds exactly on a text with no U+001C..U+001F character whose stripped form is an optional sign and one or more ASCII digits; a negative result comes from a leading minus |
| Strings.ParseIntSkipsIntSpace | StudentPerformanceAnalysis.py:11 | `int()` succeeds iff what is left after removing its own whitespace (`str.isspace` characters except U+001C..U+001F) from both ends is an optional sign and one or more ASCII digits, and that text is the stripped one |
| Strings.IntToString | StudentPerformanceAnalysis.py:11 | Decimal text is digits with an optional leading minus, ending in a digit (so it holds no comma and no whitespace) |
| Strings.ParseIntOfIntToString | StudentPerformanceAnalysis.py:11 | `int(str(n)) == n` for every integer |
| Statistics.AverageScore | StudentPerformanceAnalysis.py:23-25 | The average times the number of students is the sum of the subject's scores |
| Statistics.SumScores | StudentPerformanceAnalysis.py:24 | The sum over a single student is that student's score |
| Statistics.SumScoresFront | StudentPerformanceAnalysis.py:24 | Adding from the first student forward gives the same sum as adding from the last back |
| Statistics.SumScoresBounds | StudentPerformanceAnalysis.py:24 | The sum of N scores in [lo, hi] lies in [N*lo, N*hi] |
| Statistics.AverageWithinBounds | StudentPerformanceAnalysis.py:23-25 | The average lies between any lower and upper bound of all the scores |
| Statistics.FirstMax | StudentPerformanceAnalysis.py:33 | `max` with a key picks a position whose score is at least every other, and the first such position |
| Statistics.HighestScore | StudentPerformanceAnalysis.py:32-34 | Returns the name and score of the first student holding the top score; the score bounds every student's score |
| Statistics.FirstMin | StudentPerformanceAnalysis.py:43 | `min` with a key picks a position whose score is at most every other, and the first such position |
| Statistics.LowestScore | StudentPerformanceAnalysis.py:42-44 | Returns the name and score of the first student holding the bottom score; the score is at most every student's score |
| Statistics.FailingIffSomeSubjectBelow40 | StudentPerformanceAnalysis.py:69 | The minimum of the three subjects is below 40 iff some one of math, science and history is below 40 |
| Statistics.FailingPositions | StudentPerformanceAnalysis.py:69 | The failing positions are strictly increasing, and a position is among them iff that student fails |
| Statistics.FailingStudentsSpec | StudentPerformanceAnalysis.py:68-69 | `failing_students` lists exactly the names at the failing positions, in list order |
| Statistics.FailingStudents | StudentPerformanceAnalysis.py:68-69 | The result holds one name per failing position, the name stored at that position, in list order |
| Statistics.CalculatePercentage | StudentPerformanceAnalysis.py:76-78 | The percentage is the stored total over 300, times 100: three times the percentage is the total |
| Statistics.PercentageWithinBounds | StudentPerformanceAnalysis.py:76-78 | A total in [0, 300] gives a percentage in [0, 100] |
| Statistics.TopN | StudentPerformanceAnalysis.py:85-86 | `students[:n]` is a prefix of the list: of length min(n, N) for n >= 0, and N - (-n) (or 0) for negative n |
| Statistics.TopNAreBest | StudentPerformanceAnalysis.py:85-86 | On a list sorted by total, every student in the top n has a total at least that of every student left out |
| Ranking.TotalScore | StudentPerformanceAnalysis.py:52-53 | The total of three scores in [0, 100] lies in [0, 300] |
| Ranking.Totals | StudentPerformanceAnalysis.py:52-53 | The sort keys: one per student, each the sum of math, science and history |
| Ranking.InsertByKey | StudentPerformanceAnalysis.py:61 | Inserting a later position into a stable descending order keeps the order stable and descending, and adds exactly that position |
| Ranking.StableOrder | StudentPerformanceAnalysis.py:61 | `sorted(..., key=total, reverse=True)`: every input position exactly once, totals non-increasing, equal totals in input order |
| Ranking.StableOrderPermutation | StudentPerformanceAnalysis.py:61 | The sorted order never repeats a position, so it is a permutation |
| Ranking.RankRowsStable | StudentPerformanceAnalysis.py:61 | Two students with equal totals keep their input order in the ranked list |
| Ranking.Arrange | StudentPerformanceAnalysis.py:61-63 | The ranked list holds the dictionaries in sorted order, each with its total and with ranks counting up by one |
| Ranking.RankRows | StudentPerformanceAnalysis.py:56-65 | The ranked list has one dictionary per student; the one at position k is some input dictionary with its total and rank k + 1 |
| Ranking.RankRowsSorted | StudentPerformanceAnalysis.py:56-65 | In the returned list every record has a total and a rank, the ranks are 1..N in list order, and the totals never increase |
| Ranking.AnnotateEntries | StudentPerformanceAnalysis.py:52-63 | Ranking adds exactly the keys `total` (math + science + history) and `rank`, and leaves every other entry as it was |
| Ranking.AddTotalAndRank | StudentPerformanceAnalysis.py:56-65 | Returns the same student objects in stable descending order of total; each object's dictionary is its old contents plus its total and its 1-based rank |
| Ranking.AddTotals | StudentPerformanceAnalysis.py:57-58 | The first loop: every dictionary gains its total and nothing else changes |
| Ranking.StoredTotals | StudentPerformanceAnalysis.py:61 | The sort key `x['total']` read from every dictionary, in list order |
| Ranking.AssignRanks | StudentPerformanceAnalysis.py:62-63 | The second loop: the student at sorted position p gains rank p + 1, and nothing else changes |
| Distribution.Bucket | StudentPerformanceAnalysis.py:106-121 | The if/elif chain puts a score in a range whose bounds contain it, and in no other range |
| Distribution.CountBucket | StudentPerformanceAnalysis.py:106-121 | A range's count among the first n students is at most n |
| Distribution.CountBucketIsCardinality | StudentPerformanceAnalysis.py:106-121 | A range's count is the number of students whose score the if/elif chain puts in that range |
| Distribution.SumBucketsIsCount | StudentPerformanceAnalysis.py:106-121 | Every student is counted in exactly one range: the seven counts add up to the number of students |
| Distribution.SubjectDistribution | StudentPerformanceAnalysis.py:95-123 | The result has exactly the seven range keys; each holds the number of students whose score lies in that range; the counts add up to the number of students |
| Analysis.RankedIsSortedByTotal | StudentPerformanceAnalysis.py:154 | The list `main` keeps after ranking is sorted by stored total, largest first |
| Analysis.TopOfRanked | StudentPerformanceAnalysis.py:85-92 | The top n of the ranked list carry ranks 1, 2, ... in order, and no student left out has a larger total than any of them |
| Analysis.RankedPercentages | StudentPerformanceAnalysis.py:76-82 | With subject scores in [0, 100], every ranked student's percentage lies in [0, 100] |

## Left out

- Opening and reading the file, and the error messages printed for a missing file or another failure. The model starts from the list of lines that `readlines()` returns; every failure is the empty list.
- `main`'s interactive menu, `setup_switch_case` and the `print_*` report functions: console I/O only. Option 4 calls `print_student_ranks`, which the script never defines, so choosing it raises `NameError`.
- `TkinterGymsurvey.py`: an unrelated GUI program, not part of this model.
- Floating-point division in `average_score` and `calculate_percentage`: the model uses exact reals. Binary rounding and two-decimal printing are not modelled.
- Strings.ParseInt: covers ASCII decimal digits with an optional sign and the surrounding whitespace `int()` skips. Python's `int()` also accepts `_` digit separators and non-ASCII decimal digits; those lines fail to load in the model. CPython 3.11 and later also raise `ValueError` for a text of more than 4300 digits, which `ParseInt` accepts at any length.
- Strings.IsSpace: the whitespace `strip()` removes, and `int()` skips, is modelled up to U+00FF. Wider Unicode whitespace is not.
- Statistics.HighestScore, Statistics.LowestScore, Statistics.AverageScore, Distribution.SubjectDistribution: the subject must hold integers in every record. Python would also compare or add text values for the name column (or raise `TypeError`); that path is a precondition here.
- Statistics.AverageScore, Statistics.HighestScore, Statistics.LowestScore: an empty list raises `ZeroDivisionError` or `ValueError` in Python. A missing key raises `KeyError`. Both are preconditions here, not modelled error results. `main` never reaches them with an empty list.
- Ranking.AddTotalAndRank, Ranking.AddTotals, Ranking.Totals, Ranking.TotalScore, Ranking.RankRows, Statistics.FailingStudents: every record must hold integers under `math`, `science` and `history`. Python raises `KeyError` when one is missing, or `TypeError` when one of them names the text column 0. `main` calls `add_total_and_rank` outside any `try`, so such a file stops the script right after loading. The model makes these keys a precondition and does not model the crash.
- Ranking.AddTotalAndRank: requires the list to hold distinct dictionary objects. Python tolerates the same dictionary twice, but the loader never produces that (`ReadStudents` ensures `Distinct`).
- Dictionary iteration order of `subject_distribution`'s result: the model keeps it as the `Ranges` sequence, not in the map.
