/** `subject_distribution`: how many students fall in each of seven score ranges. */
module Distribution {
  import opened Records
  import opened Statistics
  import opened Sequences

  /** The seven score ranges, from the top one down. */
  datatype Range = From90 | From80 | From70 | From60 | From50 | From40 | Below40

  /** The dictionary key of each range. */
  function Name(r: Range): string
  {
    match r
    case From90 => "90-100"
    case From80 => "80-89"
    case From70 => "70-79"
    case From60 => "60-69"
    case From50 => "50-59"
    case From40 => "40-49"
    case Below40 => "Below 40"
  }

  /** The ranges in the order the dictionary is built (and printed). */
  const Ranges: seq<Range> := [From90, From80, From70, From60, From50, From40, Below40]

  /** The seven dictionary keys. */
  const Names: set<string> := {"90-100", "80-89", "70-79", "60-69", "50-59", "40-49", "Below 40"}

  /** No two ranges share a key. */
  lemma NameInjective(a: Range, b: Range)
    requires Name(a) == Name(b)
    ensures a == b
  {
  }

  /** The scores each range stands for. Nothing is checked against 0 or 100: any score of at least
      90 is in "90-100" and any score below 40, negative ones included, is in "Below 40". */
  predicate InRange(r: Range, score: int)
  {
    match r
    case From90 => 90 <= score
    case From80 => 80 <= score < 90
    case From70 => 70 <= score < 80
    case From60 => 60 <= score < 70
    case From50 => 50 <= score < 60
    case From40 => 40 <= score < 50
    case Below40 => score < 40
  }

  /** The range the `if score >= 90 ... elif score >= 40 ... else` chain counts a score in: the
      first threshold, from 90 down to 40, that the score reaches. It is the one range whose
      bounds contain the score. */
  function Bucket(score: int): (r: Range)
    ensures InRange(r, score)
    ensures forall other :: InRange(other, score) ==> other == r
  {
    if score >= 90 then From90
    else if score >= 80 then From80
    else if score >= 70 then From70
    else if score >= 60 then From60
    else if score >= 50 then From50
    else if score >= 40 then From40
    else Below40
  }

  /** How many of the first `n` students have their `subject` score in range `r`. */
  function CountBucket(rows: seq<Row>, subject: string, r: Range, n: nat): (count: nat)
    requires n <= |rows| && AllScored(rows, subject)
    ensures count <= n
  {
    if n == 0 then 0
    else CountBucket(rows, subject, r, n - 1) + (if Bucket(Score(rows[n - 1], subject)) == r then 1 else 0)
  }

  /** The positions among the first `n` whose `subject` score falls in range `r`. */
  function InRangePositions(rows: seq<Row>, subject: string, r: Range, n: nat): set<nat>
    requires n <= |rows| && AllScored(rows, subject)
  {
    set k: nat | k < n && Bucket(Score(rows[k], subject)) == r
  }

  /** Looking at one more student adds its position exactly when its score falls in `r`. */
  lemma InRangePositionsStep(rows: seq<Row>, subject: string, r: Range, n: nat)
    requires 0 < n <= |rows| && AllScored(rows, subject)
    ensures var before := InRangePositions(rows, subject, r, n - 1);
      && n - 1 !in before
      && InRangePositions(rows, subject, r, n)
         == if Bucket(Score(rows[n - 1], subject)) == r then before + {n - 1} else before
  {
  }

  /** The count for a range is the number of students whose score falls in that range. */
  lemma {:induction false} CountBucketIsCardinality(rows: seq<Row>, subject: string, r: Range, n: nat)
    requires n <= |rows| && AllScored(rows, subject)
    ensures CountBucket(rows, subject, r, n) == |InRangePositions(rows, subject, r, n)|
  {
    if n > 0 {
      CountBucketIsCardinality(rows, subject, r, n - 1);
      InRangePositionsStep(rows, subject, r, n);
    }
  }

  /** The sum of the dictionary's counts for the ranges in `rs`. */
  function SumCounts(counts: map<string, int>, rs: seq<Range>): int
    requires forall k :: 0 <= k < |rs| ==> Name(rs[k]) in counts
  {
    if rs == [] then 0 else counts[Name(rs[0])] + SumCounts(counts, rs[1..])
  }

  /** The same sum taken directly over the students' ranges. */
  function SumBuckets(rows: seq<Row>, subject: string, rs: seq<Range>, n: nat): nat
    requires n <= |rows| && AllScored(rows, subject)
  {
    if rs == [] then 0 else CountBucket(rows, subject, rs[0], n) + SumBuckets(rows, subject, rs[1..], n)
  }

  /** Counting one more student adds one to the sum for each time its range occurs in `rs`. */
  lemma {:induction false} SumBucketsStep(rows: seq<Row>, subject: string, rs: seq<Range>, n: nat)
    requires 0 < n <= |rows| && AllScored(rows, subject)
    ensures SumBuckets(rows, subject, rs, n)
         == SumBuckets(rows, subject, rs, n - 1) + Occurrences(rs, Bucket(Score(rows[n - 1], subject)))
  {
    if rs != [] {
      SumBucketsStep(rows, subject, rs[1..], n);
    }
  }

  /** In a list without repetitions, each of its elements occurs once. */
  lemma {:induction false} OccursOnce(rs: seq<Range>, r: Range)
    requires r in rs
    requires forall i, j :: 0 <= i < j < |rs| ==> rs[i] != rs[j]
    ensures Occurrences(rs, r) == 1
  {
    if rs[0] == r {
      NotOccurring(rs[1..], r);
    } else {
      OccursOnce(rs[1..], r);
    }
  }

  lemma {:induction false} NotOccurring(rs: seq<Range>, r: Range)
    requires r !in rs
    ensures Occurrences(rs, r) == 0
  {
    if rs != [] {
      NotOccurring(rs[1..], r);
    }
  }

  /** Every range occurs exactly once among the seven. */
  lemma RangesOccurOnce(r: Range)
    ensures Occurrences(Ranges, r) == 1
  {
    OccursOnce(Ranges, r);
  }

  /** Before any student is counted, every sum is 0. */
  lemma {:induction false} SumBucketsNone(rows: seq<Row>, subject: string, rs: seq<Range>)
    requires AllScored(rows, subject)
    ensures SumBuckets(rows, subject, rs, 0) == 0
  {
    if rs != [] {
      SumBucketsNone(rows, subject, rs[1..]);
    }
  }

  /** Every student is counted in exactly one range, so the seven counts add up to the number of students. */
  lemma {:induction false} SumBucketsIsCount(rows: seq<Row>, subject: string, n: nat)
    requires n <= |rows| && AllScored(rows, subject)
    ensures SumBuckets(rows, subject, Ranges, n) == n
  {
    if n == 0 {
      SumBucketsNone(rows, subject, Ranges);
    } else {
      SumBucketsIsCount(rows, subject, n - 1);
      SumBucketsStep(rows, subject, Ranges, n);
      RangesOccurOnce(Bucket(Score(rows[n - 1], subject)));
    }
  }

  /** A dictionary holding each range's count sums to the same as the counts themselves. */
  lemma {:induction false} SumCountsOfBuckets(counts: map<string, int>, rows: seq<Row>, subject: string, rs: seq<Range>)
    requires AllScored(rows, subject)
    requires forall k :: 0 <= k < |rs| ==> Name(rs[k]) in counts && counts[Name(rs[k])] == CountBucket(rows, subject, rs[k], |rows|)
    ensures SumCounts(counts, rs) == SumBuckets(rows, subject, rs, |rows|)
  {
    if rs != [] {
      SumCountsOfBuckets(counts, rows, subject, rs[1..]);
    }
  }

  /** `subject_distribution`: starts every range at 0 and adds 1 to the range of each student's
      score. The result has exactly the seven keys; each holds the number of students whose score
      lies in its range; together they count every student once. */
  method SubjectDistribution(rows: seq<Row>, subject: string) returns (ranges: map<string, int>)
    requires AllScored(rows, subject)
    ensures ranges.Keys == Names
    ensures forall r :: ranges[Name(r)] == CountBucket(rows, subject, r, |rows|)
    ensures SumCounts(ranges, Ranges) == |rows|
  {
    ranges := map["90-100" := 0, "80-89" := 0, "70-79" := 0, "60-69" := 0, "50-59" := 0, "40-49" := 0, "Below 40" := 0];
    for i := 0 to |rows|
      invariant ranges.Keys == Names
      invariant forall r :: ranges[Name(r)] == CountBucket(rows, subject, r, i)
    {
      var score := Score(rows[i], subject);
      var key := if score >= 90 then "90-100"
                 else if score >= 80 then "80-89"
                 else if score >= 70 then "70-79"
                 else if score >= 60 then "60-69"
                 else if score >= 50 then "50-59"
                 else if score >= 40 then "40-49"
                 else "Below 40";
      assert key == Name(Bucket(score));
      ranges := ranges[key := ranges[key] + 1];
      forall r ensures r != Bucket(score) ==> Name(r) != key {
        if Name(r) == key {
          NameInjective(r, Bucket(score));
        }
      }
    }
    SumCountsOfBuckets(ranges, rows, subject, Ranges);
    SumBucketsIsCount(rows, subject, |rows|);
  }
}
