/** The script's flow after loading: `main` replaces the loaded list by the ranked one, and the
    menu's reports (percentages, top students) read that ranked list. */
module Analysis {
  import opened Records
  import opened Ranking
  import opened Statistics

  /** The ranked list is what `top_n_students` relies on: ordered by stored total, largest first. */
  lemma RankedIsSortedByTotal(rows: seq<Row>)
    requires forall k :: 0 <= k < |rows| ==> HasSubjectScores(rows[k])
    ensures SortedByTotal(RankRows(rows))
  {
    RankRowsSorted(rows);
  }

  /** The top `n` of the ranked list carry ranks 1, 2, ... in order, and none of the students
      left out has a larger total than any of them. */
  lemma TopOfRanked(rows: seq<Row>, n: int)
    requires forall k :: 0 <= k < |rows| ==> HasSubjectScores(rows[k])
    ensures var ranked := RankRows(rows);
      var top := TopN(ranked, n);
      && (forall p :: 0 <= p < |top| ==> HasNumber(top[p], "rank") && Score(top[p], "rank") == p + 1)
      && (forall p, q :: 0 <= p < |top| <= q < |ranked| ==> Score(top[p], "total") >= Score(ranked[q], "total"))
  {
    RankRowsSorted(rows);
    RankedIsSortedByTotal(rows);
    TopNAreBest(RankRows(rows), n);
  }

  /** With every subject score between 0 and 100, every ranked student's percentage is between 0 and 100. */
  lemma RankedPercentages(rows: seq<Row>)
    requires forall k :: 0 <= k < |rows| ==>
      && HasSubjectScores(rows[k])
      && 0 <= Score(rows[k], "math") <= 100 && 0 <= Score(rows[k], "science") <= 100 && 0 <= Score(rows[k], "history") <= 100
    ensures var ranked := RankRows(rows);
      forall k :: 0 <= k < |ranked| ==> HasNumber(ranked[k], "total") && 0.0 <= CalculatePercentage(ranked[k]) <= 100.0
  {
    var keys := Totals(rows);
    var order := StableOrder(keys, |rows|);
    var ranked := RankRows(rows);
    forall k | 0 <= k < |ranked|
      ensures HasNumber(ranked[k], "total") && 0.0 <= CalculatePercentage(ranked[k]) <= 100.0
    {
      var row := rows[order[k]];
      AnnotateEntries(row, k + 1);
      assert 0 <= Score(ranked[k], "total") <= 300;
      PercentageWithinBounds(ranked[k]);
    }
  }
}
