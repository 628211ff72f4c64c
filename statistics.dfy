/** The read-only analyses over the loaded (and ranked) dictionaries: `average_score`,
    `highest_score`, `lowest_score`, `failing_students`, `calculate_percentage` and
    `top_n_students`. They read the dictionaries' current contents, so they take rows. */
module Statistics {
  import opened Records

  /** Every row has an integer under `subject` (otherwise Python raises KeyError or TypeError). */
  predicate AllScored(rows: seq<Row>, subject: string)
  {
    forall k :: 0 <= k < |rows| ==> HasNumber(rows[k], subject)
  }

  /** `sum(student[subject] for student in students)`, added up from the last student back. */
  function SumScores(rows: seq<Row>, subject: string): (sum: int)
    requires AllScored(rows, subject)
    ensures |rows| == 1 ==> sum == Score(rows[0], subject)
  {
    if rows == [] then 0 else SumScores(rows[..|rows| - 1], subject) + Score(rows[|rows| - 1], subject)
  }

  /** Adding up from the first student forward, the order Python's `sum` takes, gives the same total. */
  lemma {:induction false} SumScoresFront(rows: seq<Row>, subject: string)
    requires rows != [] && AllScored(rows, subject)
    ensures SumScores(rows, subject) == Score(rows[0], subject) + SumScores(rows[1..], subject)
  {
    if |rows| > 1 {
      var init := rows[..|rows| - 1];
      SumScoresFront(init, subject);
      assert init[1..] == rows[1..][..|rows| - 2];
    }
  }

  /** `average_score`: the sum of the subject's scores divided by the number of students.
      Python raises ZeroDivisionError on an empty list, so the list must not be empty. */
  function AverageScore(rows: seq<Row>, subject: string): (average: real)
    requires |rows| > 0 && AllScored(rows, subject)
    ensures average * (|rows| as real) == SumScores(rows, subject) as real
  {
    SumScores(rows, subject) as real / |rows| as real
  }

  /** The sum of `n` scores that all lie in `[lo, hi]` lies in `[n * lo, n * hi]`. */
  lemma {:induction false} SumScoresBounds(rows: seq<Row>, subject: string, lo: int, hi: int)
    requires AllScored(rows, subject)
    requires forall k :: 0 <= k < |rows| ==> lo <= Score(rows[k], subject) <= hi
    ensures |rows| * lo <= SumScores(rows, subject) <= |rows| * hi
  {
    if rows != [] {
      var init := rows[..|rows| - 1];
      SumScoresBounds(init, subject, lo, hi);
      assert |rows| * lo == |init| * lo + lo;
      assert |rows| * hi == |init| * hi + hi;
    }
  }

  /** The average lies between the smallest and the largest possible score: with every score
      in [0, 100], so is the average. */
  lemma AverageWithinBounds(rows: seq<Row>, subject: string, lo: int, hi: int)
    requires |rows| > 0 && AllScored(rows, subject)
    requires forall k :: 0 <= k < |rows| ==> lo <= Score(rows[k], subject) <= hi
    ensures lo as real <= AverageScore(rows, subject) <= hi as real
  {
    SumScoresBounds(rows, subject, lo, hi);
    var n := |rows| as real;
    var average := AverageScore(rows, subject);
    assert average * n == SumScores(rows, subject) as real;
    assert (lo as real) * n <= average * n;
    assert average * n <= (hi as real) * n;
  }

  /** The position Python's `max(students, key=lambda x: x[subject])` picks among the first `n`
      rows: a largest score, the first such one (it replaces its candidate only on a strictly
      larger score). */
  function FirstMax(rows: seq<Row>, subject: string, n: nat): (i: nat)
    requires 0 < n <= |rows| && AllScored(rows, subject)
    ensures i < n
    ensures forall k :: 0 <= k < n ==> Score(rows[k], subject) <= Score(rows[i], subject)
    ensures forall k :: 0 <= k < i ==> Score(rows[k], subject) < Score(rows[i], subject)
  {
    if n == 1 then 0
    else
      var best := FirstMax(rows, subject, n - 1);
      if Score(rows[n - 1], subject) > Score(rows[best], subject) then n - 1 else best
  }

  /** The position `min(students, key=lambda x: x[subject])` picks: a smallest score, the first such one. */
  function FirstMin(rows: seq<Row>, subject: string, n: nat): (i: nat)
    requires 0 < n <= |rows| && AllScored(rows, subject)
    ensures i < n
    ensures forall k :: 0 <= k < n ==> Score(rows[i], subject) <= Score(rows[k], subject)
    ensures forall k :: 0 <= k < i ==> Score(rows[i], subject) < Score(rows[k], subject)
  {
    if n == 1 then 0
    else
      var best := FirstMin(rows, subject, n - 1);
      if Score(rows[n - 1], subject) < Score(rows[best], subject) then n - 1 else best
  }

  /** `highest_score`: the name and score of the first student with the top score in `subject`.
      Python's `max` raises ValueError on an empty list, and reading the winner's "name" raises
      KeyError when it has none. */
  function HighestScore(rows: seq<Row>, subject: string): (result: (Field, int))
    requires |rows| > 0 && AllScored(rows, subject)
    requires "name" in rows[FirstMax(rows, subject, |rows|)]
    ensures forall k :: 0 <= k < |rows| ==> Score(rows[k], subject) <= result.1
    ensures exists i :: 0 <= i < |rows| && "name" in rows[i] && result == (rows[i]["name"], Score(rows[i], subject))
                        && forall k :: 0 <= k < i ==> Score(rows[k], subject) < result.1
  {
    var i := FirstMax(rows, subject, |rows|);
    (rows[i]["name"], Score(rows[i], subject))
  }

  /** `lowest_score`: the name and score of the first student with the bottom score in `subject`. */
  function LowestScore(rows: seq<Row>, subject: string): (result: (Field, int))
    requires |rows| > 0 && AllScored(rows, subject)
    requires "name" in rows[FirstMin(rows, subject, |rows|)]
    ensures forall k :: 0 <= k < |rows| ==> result.1 <= Score(rows[k], subject)
    ensures exists i :: 0 <= i < |rows| && "name" in rows[i] && result == (rows[i]["name"], Score(rows[i], subject))
                        && forall k :: 0 <= k < i ==> result.1 < Score(rows[k], subject)
  {
    var i := FirstMin(rows, subject, |rows|);
    (rows[i]["name"], Score(rows[i], subject))
  }

  /** `min(student['math'], student['science'], student['history']) < 40`. */
  predicate IsFailing(row: Row)
    requires HasSubjectScores(row)
  {
    Min(Min(Score(row, "math"), Score(row, "science")), Score(row, "history")) < 40
  }

  function Min(a: int, b: int): int
  {
    if a <= b then a else b
  }

  /** A student fails exactly when some one of the three subjects is below 40. */
  lemma FailingIffSomeSubjectBelow40(row: Row)
    requires HasSubjectScores(row)
    ensures IsFailing(row) <==> exists subject :: subject in Subjects && Score(row, subject) < 40
  {
    if IsFailing(row) {
      var subject := if Score(row, "math") < 40 then "math" else if Score(row, "science") < 40 then "science" else "history";
      assert subject in Subjects;
    }
  }

  /** What `failing_students` needs of each row: the three subjects, and a "name" for a failing one. */
  predicate FailingReadable(rows: seq<Row>)
  {
    forall k :: 0 <= k < |rows| ==> HasSubjectScores(rows[k]) && (IsFailing(rows[k]) ==> "name" in rows[k])
  }

  /** The positions of the failing students among the first `n`, in increasing order. */
  function FailingPositions(rows: seq<Row>, n: nat): (positions: seq<nat>)
    requires n <= |rows| && FailingReadable(rows)
    ensures forall p :: 0 <= p < |positions| ==> positions[p] < n
    ensures forall p, q :: 0 <= p < q < |positions| ==> positions[p] < positions[q]
    ensures forall i: int :: i in positions <==> 0 <= i < n && IsFailing(rows[i])
  {
    if n == 0 then []
    else FailingPositions(rows, n - 1) + (if IsFailing(rows[n - 1]) then [n - 1] else [])
  }

  /** `failing_students`: the names of the failing students, in list order: one name per
      failing position, and nothing else. */
  function FailingStudents(rows: seq<Row>): (names: seq<Field>)
    requires FailingReadable(rows)
    ensures var positions := FailingPositions(rows, |rows|);
      && |names| == |positions|
      && forall k :: 0 <= k < |names| ==> names[k] == rows[positions[k]]["name"]
  {
    FailingStudentsSpec(rows, |rows|);
    FailingNames(rows, |rows|)
  }

  function FailingNames(rows: seq<Row>, n: nat): seq<Field>
    requires n <= |rows| && FailingReadable(rows)
  {
    if n == 0 then []
    else FailingNames(rows, n - 1) + (if IsFailing(rows[n - 1]) then [rows[n - 1]["name"]] else [])
  }

  /** The failing names are exactly the names at the failing positions, in list order: every
      student with a score below 40 is listed once, and no one else. */
  lemma {:induction false} FailingStudentsSpec(rows: seq<Row>, n: nat)
    requires n <= |rows| && FailingReadable(rows)
    ensures var positions := FailingPositions(rows, n);
      && |FailingNames(rows, n)| == |positions|
      && forall k :: 0 <= k < |positions| ==> FailingNames(rows, n)[k] == rows[positions[k]]["name"]
  {
    if n > 0 {
      FailingStudentsSpec(rows, n - 1);
    }
  }

  /** `calculate_percentage`: the stored total as a percentage of 300 (three subjects out of 100). */
  function CalculatePercentage(row: Row): (percentage: real)
    requires HasNumber(row, "total")
    ensures percentage * 3.0 == Score(row, "total") as real
  {
    (Score(row, "total") as real / 300.0) * 100.0
  }

  /** A total in [0, 300] gives a percentage in [0, 100]. */
  lemma PercentageWithinBounds(row: Row)
    requires HasNumber(row, "total") && 0 <= Score(row, "total") <= 300
    ensures 0.0 <= CalculatePercentage(row) <= 100.0
  {
  }

  /** `top_n_students`: Python's `students[:n]`. For `n >= 0` that is the first `min(n, len)`
      students; a negative `n` drops the last `-n` students. */
  function TopN<T>(students: seq<T>, n: int): (top: seq<T>)
    ensures n >= 0 ==> |top| == if n <= |students| then n else |students|
    ensures n < 0 ==> |top| == if -n <= |students| then |students| + n else 0
    ensures top == students[..|top|]
  {
    var end := if n >= 0 then n else |students| + n;
    if end <= 0 then [] else if end >= |students| then students else students[..end]
  }

  /** `students` is ordered by stored total, largest first (as `add_total_and_rank` returns it). */
  predicate SortedByTotal(rows: seq<Row>)
  {
    && (forall k :: 0 <= k < |rows| ==> HasNumber(rows[k], "total"))
    && (forall p, q :: 0 <= p < q < |rows| ==> Score(rows[p], "total") >= Score(rows[q], "total"))
  }

  /** On a list sorted by total, the top `n` have totals at least as large as every student left out. */
  lemma TopNAreBest(rows: seq<Row>, n: int)
    requires SortedByTotal(rows)
    ensures var top := TopN(rows, n);
      forall p, q :: 0 <= p < |top| <= q < |rows| ==> Score(top[p], "total") >= Score(rows[q], "total")
  {
  }
}
