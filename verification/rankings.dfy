/** The relational part of filter.py: the inner merge of the results table
    with the country-ranks table (merge_data), the event and region choices
    drawn from it (`unique()`), and the rank lookup get_person_by_rank.
    Tables are sequences of rows in file order. */
module Rankings {
  import opened Wrappers

  /** One row of the results export: a competitor's best in one event. */
  datatype ResultRow = ResultRow(personId: string, eventId: string, personCountryId: string,
                                 best: int, personName: string)

  /** One row of the single-ranks export. The source stores countryRank as a
      float32 that holds whole numbers; it is an integer here. */
  datatype RankRow = RankRow(personId: string, eventId: string, countryRank: int, best: int)

  /** One row of the merged table: the results columns plus countryRank. */
  datatype Row = Row(personId: string, eventId: string, personCountryId: string,
                     best: int, personName: string, countryRank: int)

  /* ---------------- merge_data ---------------- */

  /** The merge keys: personId, eventId and best all equal. */
  predicate SameKey(l: ResultRow, r: RankRow) {
    l.personId == r.personId && l.eventId == r.eventId && l.best == r.best
  }

  function Combine(l: ResultRow, r: RankRow): Row {
    Row(l.personId, l.eventId, l.personCountryId, l.best, l.personName, r.countryRank)
  }

  /** The merged rows one results row contributes: one per matching ranks
      row, in ranks order. At most one per ranks row, and none exactly when
      no ranks row matches. */
  function Partners(l: ResultRow, ranks: seq<RankRow>): (p: seq<Row>)
    ensures |p| <= |ranks|
    ensures p == [] <==> forall j :: 0 <= j < |ranks| ==> !SameKey(l, ranks[j])
  {
    if |ranks| == 0 then []
    else
      assert forall j :: 1 <= j < |ranks| ==> ranks[j] == ranks[1..][j - 1];
      (if SameKey(l, ranks[0]) then [Combine(l, ranks[0])] else []) + Partners(l, ranks[1..])
  }

  /** merge_data: `pd.merge(results, ranks, on=[personId, eventId, best],
      how="inner")`, rows in the order of the results table. Duplicate keys
      give one row per matching pair, so the merge can be longer than
      either table but not than their product. */
  function Merge(results: seq<ResultRow>, ranks: seq<RankRow>): (m: seq<Row>)
    ensures |m| <= |results| * |ranks|
  {
    if |results| == 0 then []
    else
      assert forall i :: 1 <= i < |results| ==> results[i] == results[1..][i - 1];
      assert |ranks| + (|results| - 1) * |ranks| == |results| * |ranks|;
      Partners(results[0], ranks) + Merge(results[1..], ranks)
  }

  lemma {:induction false} PartnersSound(l: ResultRow, ranks: seq<RankRow>, k: nat)
    requires k < |Partners(l, ranks)|
    ensures exists j :: 0 <= j < |ranks| && SameKey(l, ranks[j]) && Partners(l, ranks)[k] == Combine(l, ranks[j])
  {
    var head := if SameKey(l, ranks[0]) then [Combine(l, ranks[0])] else [];
    if k < |head| {
      assert Partners(l, ranks)[k] == Combine(l, ranks[0]);
    } else {
      PartnersSound(l, ranks[1..], k - |head|);
      var j :| 0 <= j < |ranks[1..]| && SameKey(l, ranks[1..][j])
               && Partners(l, ranks[1..])[k - |head|] == Combine(l, ranks[1..][j]);
      assert ranks[1..][j] == ranks[j + 1];
    }
  }

  /** Every merged row pairs a results row with a ranks row that agrees on
      all three keys. */
  lemma {:induction false} MergeSound(results: seq<ResultRow>, ranks: seq<RankRow>, k: nat)
    requires k < |Merge(results, ranks)|
    ensures exists i, j :: 0 <= i < |results| && 0 <= j < |ranks| && SameKey(results[i], ranks[j])
                           && Merge(results, ranks)[k] == Combine(results[i], ranks[j])
  {
    var p := Partners(results[0], ranks);
    if k < |p| {
      PartnersSound(results[0], ranks, k);
      var j :| 0 <= j < |ranks| && SameKey(results[0], ranks[j]) && p[k] == Combine(results[0], ranks[j]);
      assert Merge(results, ranks)[k] == Combine(results[0], ranks[j]);
    } else {
      MergeSound(results[1..], ranks, k - |p|);
      var i, j :| 0 <= i < |results[1..]| && 0 <= j < |ranks| && SameKey(results[1..][i], ranks[j])
                  && Merge(results[1..], ranks)[k - |p|] == Combine(results[1..][i], ranks[j]);
      assert results[1..][i] == results[i + 1];
    }
  }

  lemma {:induction false} PartnersComplete(l: ResultRow, ranks: seq<RankRow>, j: nat)
    requires j < |ranks| && SameKey(l, ranks[j])
    ensures Combine(l, ranks[j]) in Partners(l, ranks)
  {
    if j > 0 {
      PartnersComplete(l, ranks[1..], j - 1);
      assert ranks[1..][j - 1] == ranks[j];
    }
  }

  /** Every results row and ranks row that agree on all three keys meet in
      the merge. */
  lemma {:induction false} MergeComplete(results: seq<ResultRow>, ranks: seq<RankRow>, i: nat, j: nat)
    requires i < |results| && j < |ranks| && SameKey(results[i], ranks[j])
    ensures Combine(results[i], ranks[j]) in Merge(results, ranks)
  {
    if i == 0 {
      PartnersComplete(results[0], ranks, j);
    } else {
      MergeComplete(results[1..], ranks, i - 1, j);
      assert results[1..][i - 1] == results[i];
    }
  }

  /** The head and tail of a concatenation with a non-empty front. */
  lemma ConsAppend<T>(a: seq<T>, b: seq<T>)
    requires |a| > 0
    ensures (a + b)[0] == a[0] && (a + b)[1..] == a[1..] + b
  {
  }

  /** The merge keeps the order of the results table: merging a
      concatenation is concatenating the merges. */
  lemma {:induction false} MergeAppend(a: seq<ResultRow>, b: seq<ResultRow>, ranks: seq<RankRow>)
    ensures Merge(a + b, ranks) == Merge(a, ranks) + Merge(b, ranks)
  {
    if |a| == 0 {
      assert a + b == b;
    } else {
      MergeAppend(a[1..], b, ranks);
      var ab := a + b;
      ConsAppend(a, b);
      var p := Partners(a[0], ranks);
      calc {
        Merge(ab, ranks);
        p + Merge(a[1..] + b, ranks);
        p + (Merge(a[1..], ranks) + Merge(b, ranks));
        (p + Merge(a[1..], ranks)) + Merge(b, ranks);
        Merge(a, ranks) + Merge(b, ranks);
      }
    }
  }

  /** Merging a one-row results table gives exactly that row's partners.
      With MergeAppend this pins the whole merge: one merged row per
      matching (results, ranks) pair, results order first, ranks order
      within a row. */
  lemma MergeOne(l: ResultRow, ranks: seq<RankRow>)
    ensures Merge([l], ranks) == Partners(l, ranks)
  {
    assert [l][1..] == [];
  }

  /** One results row's partners keep the order of the ranks table:
      pairing with a concatenation concatenates the pairings. With the
      one-row case this fixes the partners as one merged row per matching
      ranks row, in ranks order. */
  lemma {:induction false} PartnersAppend(l: ResultRow, a: seq<RankRow>, b: seq<RankRow>)
    ensures Partners(l, a + b) == Partners(l, a) + Partners(l, b)
  {
    if |a| == 0 {
      assert a + b == b;
    } else {
      PartnersAppend(l, a[1..], b);
      ConsAppend(a, b);
      var h := if SameKey(l, a[0]) then [Combine(l, a[0])] else [];
      calc {
        Partners(l, a + b);
        h + Partners(l, a[1..] + b);
        h + (Partners(l, a[1..]) + Partners(l, b));
        (h + Partners(l, a[1..])) + Partners(l, b);
        Partners(l, a) + Partners(l, b);
      }
    }
  }

  /** The merge is empty exactly when no results row and ranks row agree on
      all three keys. */
  lemma MergeEmpty(results: seq<ResultRow>, ranks: seq<RankRow>)
    ensures Merge(results, ranks) == []
        <==> forall i, j :: 0 <= i < |results| && 0 <= j < |ranks| ==> !SameKey(results[i], ranks[j])
  {
    if Merge(results, ranks) != [] {
      MergeSound(results, ranks, 0);
    } else {
      forall i, j | 0 <= i < |results| && 0 <= j < |ranks|
        ensures !SameKey(results[i], ranks[j])
      {
        if SameKey(results[i], ranks[j]) {
          MergeComplete(results, ranks, i, j);
        }
      }
    }
  }

  /** A results row with no ranks partner is dropped without a trace. */
  lemma MergeDropsUnmatched(pre: seq<ResultRow>, x: ResultRow, post: seq<ResultRow>, ranks: seq<RankRow>)
    requires forall j :: 0 <= j < |ranks| ==> !SameKey(x, ranks[j])
    ensures Merge(pre + [x] + post, ranks) == Merge(pre + post, ranks)
  {
    var tail := [x] + post;
    assert pre + [x] + post == pre + tail;
    assert tail[0] == x && tail[1..] == post;
    assert Merge(tail, ranks) == Merge(post, ranks);
    MergeAppend(pre, tail, ranks);
    MergeAppend(pre, post, ranks);
  }

  /* ---------------- available_events / available_regions ---------------- */

  predicate NoDuplicates<T(==)>(xs: seq<T>) {
    forall i, j :: 0 <= i < j < |xs| ==> xs[i] != xs[j]
  }

  /** pandas `unique()`: each distinct value once, in order of first
      appearance. */
  function Unique<T(==,!new)>(xs: seq<T>): (u: seq<T>)
    ensures forall x :: x in u <==> x in xs
    ensures NoDuplicates(u)
  {
    if |xs| == 0 then []
    else
      var u := Unique(xs[..|xs| - 1]);
      var x := xs[|xs| - 1];
      assert forall y :: y in xs <==> y in xs[..|xs| - 1] || y == x by {
        assert xs == xs[..|xs| - 1] + [x];
      }
      if x in u then u else u + [x]
  }

  /** Appending rows only appends choices: the values already listed keep
      their places, which is order of first appearance. */
  lemma {:induction false} UniquePrefix<T(!new)>(xs: seq<T>, ys: seq<T>)
    ensures Unique(xs) <= Unique(xs + ys)
  {
    if |ys| > 0 {
      var ys' := ys[..|ys| - 1];
      UniquePrefix(xs, ys');
      assert (xs + ys)[..|xs + ys| - 1] == xs + ys';
    } else {
      assert xs + ys == xs;
    }
  }

  function EventIds(rows: seq<Row>): seq<string> {
    seq(|rows|, i requires 0 <= i < |rows| => rows[i].eventId)
  }

  function RegionIds(rows: seq<Row>): seq<string> {
    seq(|rows|, i requires 0 <= i < |rows| => rows[i].personCountryId)
  }

  /** available_events: each event id of the merged table once. */
  function AvailableEvents(rows: seq<Row>): (events: seq<string>)
    ensures NoDuplicates(events)
    ensures forall e :: e in events <==> exists i :: 0 <= i < |rows| && rows[i].eventId == e
  {
    var ids := EventIds(rows);
    assert forall e :: e in ids <==> exists i :: 0 <= i < |rows| && rows[i].eventId == e by {
      forall e | e in ids
        ensures exists i :: 0 <= i < |rows| && rows[i].eventId == e
      {
        var i :| 0 <= i < |ids| && ids[i] == e;
      }
      forall i | 0 <= i < |rows|
        ensures rows[i].eventId in ids
      {
        assert ids[i] == rows[i].eventId;
      }
    }
    Unique(ids)
  }

  /** available_regions: each personCountryId of the merged table once. */
  function AvailableRegions(rows: seq<Row>): (regions: seq<string>)
    ensures NoDuplicates(regions)
    ensures forall c :: c in regions <==> exists i :: 0 <= i < |rows| && rows[i].personCountryId == c
  {
    var ids := RegionIds(rows);
    assert forall c :: c in ids <==> exists i :: 0 <= i < |rows| && rows[i].personCountryId == c by {
      forall c | c in ids
        ensures exists i :: 0 <= i < |rows| && rows[i].personCountryId == c
      {
        var i :| 0 <= i < |ids| && ids[i] == c;
      }
      forall i | 0 <= i < |rows|
        ensures rows[i].personCountryId in ids
      {
        assert ids[i] == rows[i].personCountryId;
      }
    }
    Unique(ids)
  }

  /* ---------------- get_person_by_rank ---------------- */

  /** What the rank box resolves to: the word "lowest" or a number. */
  datatype RankSpec = Lowest | Number(n: int)

  predicate InGroup(row: Row, eventId: string, region: string) {
    row.eventId == eventId && row.personCountryId == region
  }

  /** A row of the event and region holding exactly the given rank. */
  predicate Holds(row: Row, eventId: string, region: string, rank: int) {
    InGroup(row, eventId, region) && row.countryRank == rank
  }

  /** The `query` of get_person_by_rank: the rows of one event and region,
      in table order. */
  function Select(rows: seq<Row>, eventId: string, region: string): (group: seq<Row>)
    ensures |group| <= |rows|
    ensures forall k :: 0 <= k < |group| ==> InGroup(group[k], eventId, region)
  {
    if |rows| == 0 then []
    else (if InGroup(rows[0], eventId, region) then [rows[0]] else []) + Select(rows[1..], eventId, region)
  }

  /** The filtered rows are exactly the rows of the table in the event and
      region. */
  lemma {:induction false} SelectMembers(rows: seq<Row>, eventId: string, region: string)
    ensures forall r :: r in Select(rows, eventId, region) <==> r in rows && InGroup(r, eventId, region)
  {
    if |rows| > 0 {
      SelectMembers(rows[1..], eventId, region);
      assert forall r :: r in rows <==> r == rows[0] || r in rows[1..] by {
        assert rows == [rows[0]] + rows[1..];
      }
    }
  }

  /** The filter keeps table order and every row's multiplicity: filtering
      a concatenation concatenates the filtered parts. */
  lemma {:induction false} SelectAppend(a: seq<Row>, b: seq<Row>, eventId: string, region: string)
    ensures Select(a + b, eventId, region) == Select(a, eventId, region) + Select(b, eventId, region)
  {
    if |a| == 0 {
      assert a + b == b;
    } else {
      SelectAppend(a[1..], b, eventId, region);
      var ab := a + b;
      ConsAppend(a, b);
      var h := if InGroup(a[0], eventId, region) then [a[0]] else [];
      calc {
        Select(ab, eventId, region);
        h + Select(a[1..] + b, eventId, region);
        h + (Select(a[1..], eventId, region) + Select(b, eventId, region));
        (h + Select(a[1..], eventId, region)) + Select(b, eventId, region);
        Select(a, eventId, region) + Select(b, eventId, region);
      }
    }
  }

  /** `max()` of the countryRank column of a non-empty table. */
  function MaxRank(rows: seq<Row>): (m: int)
    requires |rows| > 0
    ensures exists i :: 0 <= i < |rows| && rows[i].countryRank == m
    ensures forall i :: 0 <= i < |rows| ==> rows[i].countryRank <= m
  {
    if |rows| == 1 then rows[0].countryRank
    else
      var m := MaxRank(rows[1..]);
      assert forall i :: 1 <= i < |rows| ==> rows[i] == rows[1..][i - 1];
      if rows[0].countryRank >= m then rows[0].countryRank else m
  }

  /** `.loc[countryRank == rank].head(1)`, squeezed to one row: the first
      row with that rank, or None. */
  function FirstWithRank(rows: seq<Row>, rank: int): (r: Option<Row>)
    ensures r.Some? ==> exists k :: 0 <= k < |rows| && rows[k] == r.value && rows[k].countryRank == rank
                          && forall j :: 0 <= j < k ==> rows[j].countryRank != rank
    ensures r.None? <==> forall i :: 0 <= i < |rows| ==> rows[i].countryRank != rank
  {
    if |rows| == 0 then None
    else if rows[0].countryRank == rank then Some(rows[0])
    else
      var r := FirstWithRank(rows[1..], rank);
      assert forall i :: 1 <= i < |rows| ==> rows[i] == rows[1..][i - 1];
      assert r.Some? ==> exists k :: 0 <= k < |rows| && rows[k] == r.value && rows[k].countryRank == rank
                          && forall j :: 0 <= j < k ==> rows[j].countryRank != rank
      by {
        if r.Some? {
          var k' :| 0 <= k' < |rows[1..]| && rows[1..][k'] == r.value && rows[1..][k'].countryRank == rank
                    && forall j :: 0 <= j < k' ==> rows[1..][j].countryRank != rank;
          assert rows[k' + 1] == r.value;
        }
      }
      r
  }

  /** get_person_by_rank: filter to the event and region; "lowest" becomes
      the largest countryRank there (no rank at all when there are no rows);
      then the first row holding that rank. Whatever is found is a merged
      row of that event and region, and a numeric lookup finds that rank. */
  function GetPersonByRank(rows: seq<Row>, eventId: string, region: string, spec: RankSpec): (res: Option<Row>)
    ensures res.Some? ==> res.value in rows && InGroup(res.value, eventId, region)
    ensures res.Some? && spec.Number? ==> res.value.countryRank == spec.n
  {
    var group := Select(rows, eventId, region);
    SelectMembers(rows, eventId, region);
    var res := match spec
      case Number(n) => FirstWithRank(group, n)
      case Lowest => if |group| == 0 then None else FirstWithRank(group, MaxRank(group));
    assert res.Some? ==> res.value in group;
    res
  }

  /** Looking a number up in a non-empty table: the first row if it holds
      the rank in the group, otherwise the lookup in the rest. */
  lemma NumberLookupStep(rows: seq<Row>, eventId: string, region: string, n: int)
    requires |rows| > 0
    ensures GetPersonByRank(rows, eventId, region, Number(n))
         == if Holds(rows[0], eventId, region, n) then Some(rows[0])
            else GetPersonByRank(rows[1..], eventId, region, Number(n))
  {
    var group := Select(rows, eventId, region);
    var tail := Select(rows[1..], eventId, region);
    if InGroup(rows[0], eventId, region) {
      assert group == [rows[0]] + tail;
      assert group[0] == rows[0] && group[1..] == tail;
    } else {
      assert group == tail;
    }
  }

  /** A numeric rank finds the first row of the merged table with that
      event, region and rank, and nothing exactly when no row has all three. */
  lemma {:induction false} GetPersonByRankNumber(rows: seq<Row>, eventId: string, region: string, n: int)
    ensures var res := GetPersonByRank(rows, eventId, region, Number(n));
      && (res.None? <==> forall k :: 0 <= k < |rows| ==> !Holds(rows[k], eventId, region, n))
      && (res.Some? ==> exists k :: 0 <= k < |rows| && rows[k] == res.value
                          && Holds(rows[k], eventId, region, n)
                          && forall j :: 0 <= j < k ==> !Holds(rows[j], eventId, region, n))
  {
    if |rows| > 0 {
      var rest := rows[1..];
      GetPersonByRankNumber(rest, eventId, region, n);
      NumberLookupStep(rows, eventId, region, n);
      assert forall k :: 1 <= k < |rows| ==> rows[k] == rest[k - 1];
      var res := GetPersonByRank(rows, eventId, region, Number(n));
      if res.Some? && !Holds(rows[0], eventId, region, n) {
        var k' :| 0 <= k' < |rest| && rest[k'] == res.value && Holds(rest[k'], eventId, region, n)
                  && forall j :: 0 <= j < k' ==> !Holds(rest[j], eventId, region, n);
        assert rows[k' + 1] == res.value;
      }
    }
  }

  /** "lowest" finds nothing exactly when the event and region have no rows;
      otherwise it finds a row of that event and region whose countryRank is
      at least every other's there, the first such row. */
  lemma GetPersonByRankLowest(rows: seq<Row>, eventId: string, region: string)
    ensures var res := GetPersonByRank(rows, eventId, region, Lowest);
      && (res.None? <==> forall k :: 0 <= k < |rows| ==> !InGroup(rows[k], eventId, region))
      && (res.Some? ==>
            && res.value in rows && InGroup(res.value, eventId, region)
            && (forall k :: 0 <= k < |rows| && InGroup(rows[k], eventId, region) ==>
                  rows[k].countryRank <= res.value.countryRank)
            && res == GetPersonByRank(rows, eventId, region, Number(res.value.countryRank)))
  {
    var group := Select(rows, eventId, region);
    SelectMembers(rows, eventId, region);
    if |group| > 0 {
      var m := MaxRank(group);
      var res := FirstWithRank(group, m);
      assert res.Some? ==> res.value in group;
      forall k | 0 <= k < |rows| && InGroup(rows[k], eventId, region)
        ensures rows[k].countryRank <= m
      {
        assert rows[k] in group;
      }
    } else {
      forall k | 0 <= k < |rows|
        ensures !InGroup(rows[k], eventId, region)
      {
        assert rows[k] !in group;
      }
    }
  }
}
