/** A worked instance of the summary order. */
module Examples {
  import opened Summary

  /** Totals Food 50, Transport 120 and Bills 120 are listed as Bills,
      Transport, Food: larger totals first, equal totals by name. */
  lemma SummaryOrderExample()
    ensures SortByTotal([("Food", 50), ("Transport", 120), ("Bills", 120)])
            == [("Bills", 120), ("Transport", 120), ("Food", 50)]
  {
    var ts: seq<Total> := [("Food", 50), ("Transport", 120), ("Bills", 120)];
    assert ts[1..][1..] == [("Bills", 120)];
    assert SortByTotal([("Bills", 120)]) == [("Bills", 120)];
    assert LexLe("Bills", "Transport");
    assert SortByTotal(ts[1..]) == [("Bills", 120), ("Transport", 120)];
  }
}
