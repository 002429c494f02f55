/** The search end to end: merge the two exports, look a rank up, and format
    what filter.py displays for the row found (rank text and best result). */
module Search {
  import opened Wrappers
  import opened Rankings
  import opened Display
  import opened ResultFormat

  /** The worked competitor: one results row, one ranks row, and the merged
      row they make. */
  const AliceResult := ResultRow("2009ALIC01", "333", "US", 610, "Alice")
  const AliceRank := RankRow("2009ALIC01", "333", 1, 610)
  const Alice := Row("2009ALIC01", "333", "US", 610, "Alice", 1)

  /** The two one-row exports merge into the one row. */
  lemma AliceMerged()
    ensures Merge([AliceResult], [AliceRank]) == [Alice]
  {
    assert Partners(AliceResult, [AliceRank]) == [Alice];
  }

  /** Lookups in the one-row table. */
  lemma AliceLookups()
    ensures GetPersonByRank([Alice], "333", "US", Number(1)) == Some(Alice)
    ensures GetPersonByRank([Alice], "333", "US", Lowest) == Some(Alice)
    ensures GetPersonByRank([Alice], "333", "GB", Lowest) == None
    ensures GetPersonByRank([Alice], "333", "US", Number(2)) == None
  {
    assert Select([Alice], "333", "US") == [Alice];
    assert Select([Alice], "333", "GB") == [];
    assert MaxRank([Alice]) == 1;
  }

  /** One competitor ranked 1st in the US for 3x3 with 6.10 seconds: the
      lookup by rank 1 and by "lowest" both find them, and they display as
      1st with 6.10. */
  lemma SingleCompetitorExample()
    ensures var rows := Merge([AliceResult], [AliceRank]);
      && rows == [Alice]
      && GetPersonByRank(rows, "333", "US", Number(1)) == Some(Alice)
      && GetPersonByRank(rows, "333", "US", Lowest) == Some(Alice)
      && GetPersonByRank(rows, "333", "GB", Lowest) == None
      && GetPersonByRank(rows, "333", "US", Number(2)) == None
      && FormatRank(Alice.countryRank) == "1st"
      && FormatBestResult(Alice.eventId, Alice.best) == "6.10"
  {
    AliceMerged();
    AliceLookups();
    FormatRankExamples();
    FormatTimeExamples();
    assert FormatBestResult("333", 610) == FormatTime(610);
  }
}
