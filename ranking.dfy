/** Totals and ranks: `calculate_total_score` and `add_total_and_rank`. */
module Ranking {
  import opened Records

  /** A student's total: math + science + history. */
  function TotalScore(row: Row): (total: int)
    requires HasSubjectScores(row)
    ensures 0 <= Score(row, "math") <= 100 && 0 <= Score(row, "science") <= 100 && 0 <= Score(row, "history") <= 100
            ==> 0 <= total <= 300
  {
    Score(row, "math") + Score(row, "science") + Score(row, "history")
  }

  /** The totals of a list of rows, in list order (the sort keys). */
  function Totals(rows: seq<Row>): (keys: seq<int>)
    requires forall k :: 0 <= k < |rows| ==> HasSubjectScores(rows[k])
    ensures |keys| == |rows|
    ensures forall k :: 0 <= k < |rows| ==> keys[k] == TotalScore(rows[k])
  {
    if rows == [] then [] else Totals(rows[..|rows| - 1]) + [TotalScore(rows[|rows| - 1])]
  }

  /** In a stable sort by descending key, input position `a` comes before input position `b`:
      a larger key first, and equal keys in input order. */
  predicate Precedes(keys: seq<int>, a: nat, b: nat)
    requires a < |keys| && b < |keys|
  {
    keys[a] > keys[b] || (keys[a] == keys[b] && a < b)
  }

  /** `order` lists input positions, each before every position it precedes: so the keys are
      non-increasing along `order`, equal keys keep their input order, and no position repeats. */
  predicate RankOrdered(keys: seq<int>, order: seq<nat>)
  {
    && (forall p :: 0 <= p < |order| ==> order[p] < |keys|)
    && (forall p, q {:trigger Precedes(keys, order[p], order[q])} :: 0 <= p < q < |order| ==> Precedes(keys, order[p], order[q]))
  }

  /** One step of a stable insertion sort: position `i`, later in the input than every position
      in `order`, goes after every position whose key is at least its own. */
  function InsertByKey(keys: seq<int>, order: seq<nat>, i: nat): (r: seq<nat>)
    requires i < |keys| && RankOrdered(keys, order)
    requires forall p :: 0 <= p < |order| ==> order[p] < i
    ensures |r| == |order| + 1
    ensures forall x :: x in r <==> x in order || x == i
    ensures RankOrdered(keys, r)
  {
    if order == [] || keys[order[0]] < keys[i] then
      assert forall q :: 0 <= q < |order| ==> keys[order[q]] <= keys[order[0]] by {
        forall q | 0 < q < |order| ensures keys[order[q]] <= keys[order[0]] {
          assert Precedes(keys, order[0], order[q]);
        }
      }
      [i] + order
    else
      var rest := InsertByKey(keys, order[1..], i);
      assert forall q :: 0 <= q < |rest| ==> Precedes(keys, order[0], rest[q]) by {
        forall q | 0 <= q < |rest| ensures Precedes(keys, order[0], rest[q]) {
          if rest[q] != i {
            assert rest[q] in order[1..];
            var p :| 0 <= p < |order[1..]| && order[1..][p] == rest[q];
            assert Precedes(keys, order[0], order[p + 1]);
          }
        }
      }
      [order[0]] + rest
  }

  /** The order Python's stable `sorted(..., reverse=True)` gives the first `n` input positions:
      every one of them exactly once, keys non-increasing, equal keys in input order. */
  function StableOrder(keys: seq<int>, n: nat): (order: seq<nat>)
    requires n <= |keys|
    ensures |order| == n
    ensures forall x: int :: x in order <==> 0 <= x < n
    ensures RankOrdered(keys, order)
  {
    if n == 0 then []
    else
      var prefix := StableOrder(keys, n - 1);
      assert forall p :: 0 <= p < |prefix| ==> prefix[p] in prefix;
      InsertByKey(keys, prefix, n - 1)
  }

  /** Reordering distinct students along a rank order keeps them distinct. */
  lemma RankedDistinct(students: seq<Student>, keys: seq<int>, order: seq<nat>, ranked: seq<Student>)
    requires Distinct(students) && |keys| == |students| && RankOrdered(keys, order)
    requires |ranked| == |order| && forall k :: 0 <= k < |order| ==> ranked[k] == students[order[k]]
    ensures Distinct(ranked)
  {
    forall p, q | 0 <= p < q < |ranked| ensures ranked[p] != ranked[q] {
      assert Precedes(keys, order[p], order[q]);
    }
  }

  /** The dictionary after ranking: the original entries plus "total" and "rank". */
  function Annotate(row: Row, rank: int): Row
    requires HasSubjectScores(row)
  {
    row["total" := Number(TotalScore(row))]["rank" := Number(rank)]
  }

  /** The contents of the list `add_total_and_rank` returns, given the dictionaries it starts from. */
  function RankRows(rows: seq<Row>): (ranked: seq<Row>)
    requires forall k :: 0 <= k < |rows| ==> HasSubjectScores(rows[k])
    ensures |ranked| == |rows|
    ensures forall k :: 0 <= k < |ranked| ==>
      exists i :: 0 <= i < |rows| && ranked[k] == Annotate(rows[i], k + 1)
  {
    Arrange(rows, StableOrder(Totals(rows), |rows|), 1)
  }

  /** The rows at the positions `order` lists, in that order, each with its total and with
      ranks counting up from `first`. */
  function Arrange(rows: seq<Row>, order: seq<nat>, first: int): (ranked: seq<Row>)
    requires forall k :: 0 <= k < |rows| ==> HasSubjectScores(rows[k])
    requires forall p :: 0 <= p < |order| ==> order[p] < |rows|
    ensures |ranked| == |order|
    ensures forall p :: 0 <= p < |order| ==> ranked[p] == Annotate(rows[order[p]], first + p)
  {
    if order == [] then [] else [Annotate(rows[order[0]], first)] + Arrange(rows, order[1..], first + 1)
  }

  /** In the ranked list the totals never increase and the ranks are 1, 2, ..., N in list order. */
  lemma RankRowsSorted(rows: seq<Row>)
    requires forall k :: 0 <= k < |rows| ==> HasSubjectScores(rows[k])
    ensures var ranked := RankRows(rows);
      && (forall k :: 0 <= k < |ranked| ==> HasNumber(ranked[k], "total") && HasNumber(ranked[k], "rank"))
      && (forall k :: 0 <= k < |ranked| ==> Score(ranked[k], "rank") == k + 1)
      && (forall p, q :: 0 <= p < q < |ranked| ==> Score(ranked[p], "total") >= Score(ranked[q], "total"))
  {
    var keys := Totals(rows);
    var order := StableOrder(keys, |rows|);
    var ranked := RankRows(rows);
    forall p, q | 0 <= p < q < |ranked| ensures Score(ranked[p], "total") >= Score(ranked[q], "total") {
      assert Precedes(keys, order[p], order[q]);
    }
  }

  /** Ranking adds exactly two entries to a dictionary: "total", the sum of the three subject
      scores, and "rank"; every other entry stays as it was. */
  lemma AnnotateEntries(row: Row, rank: int)
    requires HasSubjectScores(row)
    ensures Annotate(row, rank).Keys == row.Keys + {"total", "rank"}
    ensures Annotate(row, rank)["total"] == Number(Score(row, "math") + Score(row, "science") + Score(row, "history"))
    ensures Annotate(row, rank)["rank"] == Number(rank)
    ensures forall key :: key in row && key != "total" && key != "rank" ==> Annotate(row, rank)[key] == row[key]
  {
  }

  /** Stability: records with equal totals keep their input order in the ranked list. */
  lemma RankRowsStable(rows: seq<Row>, p: nat, q: nat)
    requires forall k :: 0 <= k < |rows| ==> HasSubjectScores(rows[k])
    requires p < q < |rows|
    requires var order := StableOrder(Totals(rows), |rows|);
      TotalScore(rows[order[p]]) == TotalScore(rows[order[q]])
    ensures StableOrder(Totals(rows), |rows|)[p] < StableOrder(Totals(rows), |rows|)[q]
  {
    var keys := Totals(rows);
    assert Precedes(keys, StableOrder(keys, |rows|)[p], StableOrder(keys, |rows|)[q]);
  }

  /** Permutation: the ranked list takes every input position, and (this lemma) none twice. */
  lemma StableOrderPermutation(keys: seq<int>, n: nat)
    requires n <= |keys|
    ensures var order := StableOrder(keys, n);
      forall p, q :: 0 <= p < q < n ==> order[p] != order[q]
  {
    var order := StableOrder(keys, n);
    forall p, q | 0 <= p < q < n ensures order[p] != order[q] {
      assert Precedes(keys, order[p], order[q]);
    }
  }

  /** `add_total_and_rank`: writes each student's total into its dictionary, sorts the list by
      total (descending, stable) into a new list, and writes the 1-based position of each
      student in that list into its dictionary as its rank. The input list keeps its order;
      its dictionaries are the ones updated. */
  method AddTotalAndRank(students: seq<Student>) returns (ranked: seq<Student>)
    requires Distinct(students)
    requires forall s :: s in students ==> HasSubjectScores(s.fields)
    modifies students
    ensures var before := old(Rows(students));
      var order := StableOrder(Totals(before), |students|);
      && |ranked| == |students|
      && forall k :: 0 <= k < |ranked| ==> ranked[k] == students[order[k]] && ranked[k].fields == RankRows(before)[k]
  {
    ghost var before := Rows(students);
    AddTotals(students);
    var keys := StoredTotals(students);
    assert keys == Totals(before) by {
      forall j | 0 <= j < |students| ensures keys[j] == Totals(before)[j] {
        assert students[j].fields["total"] == Number(TotalScore(before[j]));
      }
    }
    var order := StableOrder(keys, |students|);
    ranked := seq(|students|, k requires 0 <= k < |students| => students[order[k]]);
    RankedDistinct(students, keys, order, ranked);
    ghost var sorted := Rows(ranked);
    AssignRanks(ranked);
    forall k | 0 <= k < |ranked|
      ensures ranked[k].fields == RankRows(before)[k]
    {
      assert sorted[k] == before[order[k]]["total" := Number(TotalScore(before[order[k]]))];
    }
  }

  /** The first loop of `add_total_and_rank`: `student['total'] = calculate_total_score(student)`. */
  method AddTotals(students: seq<Student>)
    requires Distinct(students)
    requires forall s :: s in students ==> HasSubjectScores(s.fields)
    modifies students
    ensures forall j :: 0 <= j < |students| ==>
      students[j].fields == old(students[j].fields)["total" := Number(TotalScore(old(students[j].fields)))]
  {
    for i := 0 to |students|
      invariant forall j :: 0 <= j < |students| ==>
        students[j].fields == if j < i then old(students[j].fields)["total" := Number(TotalScore(old(students[j].fields)))]
                              else old(students[j].fields)
    {
      students[i].fields := students[i].fields["total" := Number(TotalScore(students[i].fields))];
    }
  }

  /** The second loop of `add_total_and_rank`: `student['rank'] = rank` along the sorted list,
      counting from 1. */
  method AssignRanks(ranked: seq<Student>)
    requires Distinct(ranked)
    modifies ranked
    ensures forall p :: 0 <= p < |ranked| ==> ranked[p].fields == old(ranked[p].fields)["rank" := Number(p + 1)]
  {
    for k := 0 to |ranked|
      invariant forall p :: 0 <= p < |ranked| ==>
        ranked[p].fields == if p < k then old(ranked[p].fields)["rank" := Number(p + 1)] else old(ranked[p].fields)
    {
      ranked[k].fields := ranked[k].fields["rank" := Number(k + 1)];
    }
  }

  /** The "total" entries of the dictionaries, in list order: the sort key `x['total']`. */
  method StoredTotals(students: seq<Student>) returns (keys: seq<int>)
    requires forall s :: s in students ==> HasNumber(s.fields, "total")
    ensures |keys| == |students|
    ensures forall k :: 0 <= k < |students| ==> keys[k] == Score(students[k].fields, "total")
  {
    keys := [];
    for i := 0 to |students|
      invariant |keys| == i
      invariant forall k :: 0 <= k < i ==> keys[k] == Score(students[k].fields, "total")
    {
      keys := keys + [Score(students[i].fields, "total")];
    }
  }
}
