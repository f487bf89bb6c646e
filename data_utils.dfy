/** The county-level aggregation of data_utils.py: the county filter, the state-average
    table and the burden calculator. */
module DataUtils {
  import opened Wrappers
  import opened Seqs
  import opened Coordinates

  /** One row of the health-indicator table, restricted to the columns the core reads.
      A missing value (NaN after `pd.to_numeric(errors='coerce')`) is `None`. */
  datatype Record = Record(county: string, topic: Option<string>, indicator: Option<string>, rate: Option<real>)

  /** The row that carries the statewide rates. */
  const StateName: string := "New York State"

  /** The 13 aggregate regions that are not counties. */
  const ExcludedRegions: seq<string> := [
    "New York State", "New York State (excluding NYC)", "New York City",
    "Capital Region", "Central NY", "Finger Lakes", "Long Island",
    "Mid-Hudson", "Mohawk Valley", "North Country", "Southern Tier",
    "Tug Hill Seaway", "Western NY"
  ]

  /** A region name denotes a single county: it is not an aggregate region and has no
      '/', which joins the names of a multi-county combination. */
  predicate IsCounty(name: string)
    ensures IsCounty(name) ==> name != StateName
    ensures IsCounty(name) ==> forall k | 0 <= k < |name| :: name[k] != '/'
  {
    name !in ExcludedRegions && '/' !in name
  }

  // ---------------------------------------------------------------------------
  // get_counties

  /** The rows of real counties, in input order; every other row is dropped. */
  function GetCounties(df: seq<Record>): (out: seq<Record>)
    ensures |out| <= |df|
    ensures forall i :: 0 <= i < |out| ==> IsCounty(out[i].county)
  {
    if df == [] then []
    else (if IsCounty(df[0].county) then [df[0]] else []) + GetCounties(df[1..])
  }

  /** A row is kept exactly when its region is a county, and then as often as it occurs
      in the input. */
  lemma {:induction false} GetCountiesKeeps(df: seq<Record>, r: Record)
    ensures multiset(GetCounties(df))[r] == if IsCounty(r.county) then multiset(df)[r] else 0
  {
    if df != [] {
      GetCountiesKeeps(df[1..], r);
      assert df == [df[0]] + df[1..];
    }
  }

  /** Filtering distributes over concatenation, so it keeps the input order. */
  lemma {:induction false} GetCountiesAppend(a: seq<Record>, b: seq<Record>)
    ensures GetCounties(a + b) == GetCounties(a) + GetCounties(b)
  {
    if a == [] {
      assert a + b == b;
    } else {
      var head := if IsCounty(a[0].county) then [a[0]] else [];
      assert (a + b)[0] == a[0] && (a + b)[1..] == a[1..] + b;
      assert GetCounties(a + b) == head + GetCounties(a[1..] + b);
      GetCountiesAppend(a[1..], b);
    }
  }

  /** The filtered rows are an order-preserving subsequence of the input. */
  lemma {:induction false} GetCountiesSubsequence(df: seq<Record>)
    ensures IsSubsequence(GetCounties(df), df)
  {
    if df != [] {
      GetCountiesSubsequence(df[1..]);
      if IsCounty(df[0].county) {
        assert GetCounties(df) == [df[0]] + GetCounties(df[1..]);
      } else {
        assert GetCounties(df) == GetCounties(df[1..]);
        SubsequenceOfTail(GetCounties(df[1..]), df);
      }
    }
  }

  lemma {:induction false} GetCountiesIdempotent(df: seq<Record>)
    ensures GetCounties(GetCounties(df)) == GetCounties(df)
  {
    if df != [] {
      GetCountiesIdempotent(df[1..]);
      var head := if IsCounty(df[0].county) then [df[0]] else [];
      GetCountiesAppend(head, GetCounties(df[1..]));
    }
  }

  /** Manhattan ("New York") is a county; the city and the state are not, nor is a
      multi-county combination. */
  lemma CountyExamples()
    ensures IsCounty("New York")
    ensures !IsCounty("New York City") && !IsCounty("New York State")
    ensures !IsCounty("Essex/Hamilton")
  {
    assert "Essex/Hamilton"[5] == '/';
  }

  /** Every name in the coordinate table passes the county filter. */
  lemma Part0Counties() ensures forall i | 0 <= i < |Part0| :: IsCounty(Part0[i].0) {}
  lemma Part1Counties() ensures forall i | 0 <= i < |Part1| :: IsCounty(Part1[i].0) {}
  lemma Part2Counties() ensures forall i | 0 <= i < |Part2| :: IsCounty(Part2[i].0) {}
  lemma Part3Counties() ensures forall i | 0 <= i < |Part3| :: IsCounty(Part3[i].0) {}

  lemma CoordsAreCounties()
    ensures forall name | name in Coords :: IsCounty(name)
  {
    Part0Counties(); Part1Counties(); Part2Counties(); Part3Counties();
    forall i | 0 <= i < |CountyTable| ensures IsCounty(CountyTable[i].0) {
      if i < 16 { assert CountyTable[i] == Part0[i]; }
      else if i < 32 { assert CountyTable[i] == Part1[i - 16]; }
      else if i < 48 { assert CountyTable[i] == Part2[i - 32]; }
      else { assert CountyTable[i] == Part3[i - 48]; }
    }
  }

  // ---------------------------------------------------------------------------
  // get_state_avgs

  /** A statewide row that gives a rate for `indicator`. */
  predicate IsStateRow(r: Record, indicator: string) {
    r.county == StateName && r.indicator == Some(indicator)
  }

  /** Row `i` is the last statewide row for `indicator`. */
  ghost predicate LastStateRow(df: seq<Record>, indicator: string, i: int) {
    0 <= i < |df| && IsStateRow(df[i], indicator)
    && forall j :: i < j < |df| ==> !IsStateRow(df[j], indicator)
  }

  /** `dict(zip(indicator, percent_rate))` over the statewide rows: a left fold in input
      order in which a later row overwrites an earlier one for the same indicator. The
      rate stored may itself be missing. */
  function GetStateAvgs(df: seq<Record>): (avgs: map<string, Option<real>>)
    ensures |avgs| <= |df|
    decreases |df|
  {
    if df == [] then map[]
    else
      var r := df[|df| - 1];
      if r.county == StateName && r.indicator.Some? then
        GetStateAvgs(df[..|df| - 1])[r.indicator.value := r.rate]
      else
        GetStateAvgs(df[..|df| - 1])
  }

  /** The keys are exactly the indicators of the statewide rows, and each maps to the
      rate of the last statewide row for it in input order. */
  lemma {:induction false} StateAvgsLastWins(df: seq<Record>, ind: string)
    ensures ind in GetStateAvgs(df) <==> exists i :: 0 <= i < |df| && IsStateRow(df[i], ind)
    ensures ind in GetStateAvgs(df) ==> exists i :: LastStateRow(df, ind, i) && GetStateAvgs(df)[ind] == df[i].rate
    decreases |df|
  {
    if df != [] {
      var init := df[..|df| - 1];
      var r := df[|df| - 1];
      var prev := GetStateAvgs(init);
      StateAvgsLastWins(init, ind);
      assert forall i :: 0 <= i < |init| ==> init[i] == df[i];
      if IsStateRow(r, ind) {
        assert GetStateAvgs(df) == prev[ind := r.rate];
        assert LastStateRow(df, ind, |df| - 1);
      } else {
        assert ind in GetStateAvgs(df) <==> ind in prev;
        if ind in prev {
          assert GetStateAvgs(df)[ind] == prev[ind];
          var i :| LastStateRow(init, ind, i) && prev[ind] == init[i].rate;
          assert LastStateRow(df, ind, i);
        }
      }
    }
  }

  // ---------------------------------------------------------------------------
  // compute_burden

  /** `savgs.get(indicator)`: missing when the row has no indicator, when the indicator
      has no statewide row, or when its statewide rate is missing. */
  function StateAvgOf(r: Record, savgs: map<string, Option<real>>): (sa: Option<real>)
    ensures sa.Some? <==> r.indicator.Some? && r.indicator.value in savgs && savgs[r.indicator.value].Some?
    ensures sa.Some? ==> sa == savgs[r.indicator.value]
  {
    if r.indicator.Some? && r.indicator.value in savgs then savgs[r.indicator.value] else None
  }

  /** A row yields a ratio when its own rate is present and its indicator has a present,
      non-zero state average. */
  predicate Contributes(r: Record, savgs: map<string, Option<real>>)
    ensures Contributes(r, savgs) <==>
      && r.rate.Some? && r.indicator.Some? && r.indicator.value in savgs
      && savgs[r.indicator.value].Some? && savgs[r.indicator.value].value != 0.0
  {
    r.rate.Some? && StateAvgOf(r, savgs).Some? && StateAvgOf(r, savgs).value != 0.0
  }

  function Ratio(r: Record, savgs: map<string, Option<real>>): real
    requires Contributes(r, savgs)
  {
    r.rate.value / StateAvgOf(r, savgs).value
  }

  /** The `rows` list that compute_burden's loop builds: one (county, ratio) pair per
      contributing row, in input order. */
  function Ratios(dfc: seq<Record>, savgs: map<string, Option<real>>): (rows: seq<(string, real)>)
    ensures |rows| <= |dfc|
    decreases |dfc|
  {
    if dfc == [] then []
    else
      var init := dfc[..|dfc| - 1];
      var r := dfc[|dfc| - 1];
      if Contributes(r, savgs) then Ratios(init, savgs) + [(r.county, Ratio(r, savgs))]
      else Ratios(init, savgs)
  }

  /** The loop's rows are exactly the (county, ratio) pairs of the contributing rows. */
  lemma {:induction false} RatiosMembers(dfc: seq<Record>, savgs: map<string, Option<real>>, p: (string, real))
    ensures p in Ratios(dfc, savgs) <==>
      exists i :: 0 <= i < |dfc| && Contributes(dfc[i], savgs) && p == (dfc[i].county, Ratio(dfc[i], savgs))
    decreases |dfc|
  {
    if dfc != [] {
      var init := dfc[..|dfc| - 1];
      var r := dfc[|dfc| - 1];
      RatiosMembers(init, savgs, p);
      assert forall i :: 0 <= i < |init| ==> init[i] == dfc[i];
      if p in Ratios(dfc, savgs) && !(p in Ratios(init, savgs)) {
        assert Contributes(dfc[|dfc| - 1], savgs) && p == (dfc[|dfc| - 1].county, Ratio(dfc[|dfc| - 1], savgs));
      }
      if exists i :: 0 <= i < |dfc| && Contributes(dfc[i], savgs) && p == (dfc[i].county, Ratio(dfc[i], savgs)) {
        var i :| 0 <= i < |dfc| && Contributes(dfc[i], savgs) && p == (dfc[i].county, Ratio(dfc[i], savgs));
        if i < |init| {
          assert init[i] == dfc[i];
        }
      }
    }
  }

  /** The counties that occur in a list of pairs. */
  function Keys(ps: seq<(string, real)>): (ks: set<string>)
    ensures forall c :: c in ks <==> exists i :: 0 <= i < |ps| && ps[i].0 == c
  {
    if ps == [] then {} else {ps[0].0} + Keys(ps[1..])
  }

  /** The ratios of one county, in list order: its group under `groupby('county')`. */
  function RatiosFor(ps: seq<(string, real)>, c: string): seq<real> {
    if ps == [] then []
    else (if ps[0].0 == c then [ps[0].1] else []) + RatiosFor(ps[1..], c)
  }

  /** A county's group is non-empty exactly when the county occurs in the list. */
  lemma {:induction false} RatiosForNonEmpty(ps: seq<(string, real)>, c: string)
    ensures |RatiosFor(ps, c)| > 0 <==> c in Keys(ps)
  {
    if ps != [] {
      RatiosForNonEmpty(ps[1..], c);
      assert Keys(ps) == {ps[0].0} + Keys(ps[1..]);
    }
  }

  /** `groupby('county')['ratio'].mean()`. */
  function GroupMean(ps: seq<(string, real)>): (m: map<string, real>)
    ensures forall c :: c in m <==> exists i :: 0 <= i < |ps| && ps[i].0 == c
  {
    map c | c in Keys(ps) :: RatiosForNonEmpty(ps, c); Mean(RatiosFor(ps, c))
  }

  /** The burden of each county, as a mapping: what compute_burden's result holds once
      its order is set aside. */
  function Burden(dfc: seq<Record>, savgs: map<string, Option<real>>): (b: map<string, real>)
    ensures forall c | c in b :: exists i :: 0 <= i < |dfc| && dfc[i].county == c && Contributes(dfc[i], savgs)
  {
    var ps := Ratios(dfc, savgs);
    forall c | c in GroupMean(ps)
      ensures exists i :: 0 <= i < |dfc| && dfc[i].county == c && Contributes(dfc[i], savgs)
    {
      var j :| 0 <= j < |ps| && ps[j].0 == c;
      RatiosMembers(dfc, savgs, ps[j]);
    }
    GroupMean(ps)
  }

  /** Values do not increase from left to right. */
  predicate NonIncreasing(ps: seq<(string, real)>) {
    forall i, j :: 0 <= i < j < |ps| ==> ps[i].1 >= ps[j].1
  }

  /** `ps` lists the mapping `m`: each key once, with its value. */
  ghost predicate Lists(ps: seq<(string, real)>, m: map<string, real>) {
    && (forall i, j :: 0 <= i < j < |ps| ==> ps[i].0 != ps[j].0)
    && Keys(ps) == m.Keys
    && (forall i :: 0 <= i < |ps| ==> ps[i].0 in m && ps[i].1 == m[ps[i].0])
  }

  /** Sort key for descending order of value. */
  function NegatedValue(p: (string, real)): real { -p.1 }

  function CountyOf(p: (string, real)): string { p.0 }

  function CountyColumn(ps: seq<(string, real)>): (cs: seq<string>)
    ensures |cs| == |ps| && forall i :: 0 <= i < |ps| ==> cs[i] == ps[i].0
  {
    seq(|ps|, i requires 0 <= i < |ps| => ps[i].0)
  }

  /** The (county, mean) entries of the group means, in order of the counties' last
      appearance in the list. */
  function MeanEntries(ps: seq<(string, real)>): (entries: seq<(string, real)>)
    ensures forall i, j :: 0 <= i < j < |entries| ==> entries[i].0 != entries[j].0
    ensures forall e :: e in entries <==> e.0 in GroupMean(ps) && e.1 == GroupMean(ps)[e.0]
  {
    var means := GroupMean(ps);
    var counties := Dedup(CountyColumn(ps));
    assert forall c :: c in counties <==> c in means;
    var entries := seq(|counties|, k requires 0 <= k < |counties| => (counties[k], means[counties[k]]));
    forall e: (string, real) | e.0 in means && e.1 == means[e.0] ensures e in entries {
      var k :| 0 <= k < |counties| && counties[k] == e.0;
      assert entries[k] == e;
    }
    entries
  }

  /** `groupby('county')['ratio'].mean().sort_values(ascending=False)`: the group means,
      largest mean first. */
  function RankedMeans(ps: seq<(string, real)>): (ranked: seq<(string, real)>)
    ensures NonIncreasing(ranked)
    ensures forall e :: e in ranked <==> e in MeanEntries(ps)
  {
    var ranked := Sort(MeanEntries(ps), NegatedValue);
    assert forall i, j :: 0 <= i < j < |ranked| ==> NegatedValue(ranked[i]) <= NegatedValue(ranked[j]);
    ranked
  }

  /** No county appears twice in the ranking. */
  lemma RankedMeansDistinct(ps: seq<(string, real)>)
    ensures var ranked := RankedMeans(ps);
      forall i, j :: 0 <= i < j < |ranked| ==> ranked[i].0 != ranked[j].0
  {
    var entries := MeanEntries(ps);
    var ranked := RankedMeans(ps);
    assert ranked == Sort(entries, NegatedValue);
    assert NoDup(entries) by {
      forall i, j | 0 <= i < j < |entries| ensures entries[i] != entries[j] {
        assert entries[i].0 != entries[j].0;
      }
    }
    SortKeepsNoDup(entries, NegatedValue);
    DistinctKeysOfSubset(ranked, entries, CountyOf);
  }

  /** The ranking lists every county of the group means once, with its mean. */
  lemma RankedMeansLists(ps: seq<(string, real)>)
    ensures Lists(RankedMeans(ps), GroupMean(ps))
  {
    var means := GroupMean(ps);
    var ranked := RankedMeans(ps);
    RankedMeansDistinct(ps);
    forall i | 0 <= i < |ranked| ensures ranked[i].0 in means && ranked[i].1 == means[ranked[i].0] {
      assert ranked[i] in MeanEntries(ps);
    }
    forall c | c in means ensures c in Keys(ranked) {
      assert (c, means[c]) in ranked;
    }
  }

  /** The loop collects at least one row exactly when some row contributes. */
  lemma {:induction false} SomeRatioIffSomeContribution(dfc: seq<Record>, savgs: map<string, Option<real>>)
    ensures Ratios(dfc, savgs) != [] <==> exists i :: 0 <= i < |dfc| && Contributes(dfc[i], savgs)
    decreases |dfc|
  {
    if dfc != [] {
      var init := dfc[..|dfc| - 1];
      SomeRatioIffSomeContribution(init, savgs);
      assert forall i :: 0 <= i < |init| ==> init[i] == dfc[i];
      if !Contributes(dfc[|dfc| - 1], savgs) {
        assert (exists i :: 0 <= i < |dfc| && Contributes(dfc[i], savgs)) <==>
          (exists i :: 0 <= i < |init| && Contributes(init[i], savgs));
      }
    }
  }

  /** compute_burden's failure: the frame built from an empty `rows` list has no
      'county' column, so `groupby('county')` raises a KeyError. */
  datatype BurdenError = MissingColumn(name: string)

  /** compute_burden: the loop collects the ratio of every contributing county row, then
      the ratios are averaged per county and ranked by descending mean. Fails when no
      row contributes. */
  method ComputeBurden(dfc: seq<Record>, savgs: map<string, Option<real>>)
    returns (result: Result<seq<(string, real)>, BurdenError>)
    ensures result.Failure? <==> forall i :: 0 <= i < |dfc| ==> !Contributes(dfc[i], savgs)
    ensures result.Failure? ==> result.error == MissingColumn("county")
    ensures result.Success? ==> NonIncreasing(result.value) && Lists(result.value, Burden(dfc, savgs))
  {
    var rows: seq<(string, real)> := [];
    for i := 0 to |dfc|
      invariant rows == Ratios(dfc[..i], savgs)
    {
      var r := dfc[i];
      var sa := if r.indicator.Some? && r.indicator.value in savgs then savgs[r.indicator.value] else None;
      var cr := r.rate;
      if cr.Some? && sa.Some? && sa.value != 0.0 {
        rows := rows + [(r.county, cr.value / sa.value)];
      }
      assert dfc[..i + 1][..i] == dfc[..i];
    }
    assert dfc[..|dfc|] == dfc;
    SomeRatioIffSomeContribution(dfc, savgs);
    if rows == [] {
      return Failure(MissingColumn("county"));
    }
    RankedMeansLists(rows);
    return Success(RankedMeans(rows));
  }

  // ---------------------------------------------------------------------------
  // What the burden mapping means, stated on the input rows

  /** The ratios of county `c`'s contributing rows, in input order. */
  function CountyRatios(dfc: seq<Record>, savgs: map<string, Option<real>>, c: string): (xs: seq<real>)
    ensures |xs| > 0 <==> exists i :: 0 <= i < |dfc| && dfc[i].county == c && Contributes(dfc[i], savgs)
    decreases |dfc|
  {
    if dfc == [] then []
    else
      var init := dfc[..|dfc| - 1];
      var r := dfc[|dfc| - 1];
      assert forall i :: 0 <= i < |init| ==> init[i] == dfc[i];
      if r.county == c && Contributes(r, savgs) then CountyRatios(init, savgs, c) + [Ratio(r, savgs)]
      else CountyRatios(init, savgs, c)
  }

  lemma {:induction false} RatiosForAppend(a: seq<(string, real)>, b: seq<(string, real)>, c: string)
    ensures RatiosFor(a + b, c) == RatiosFor(a, c) + RatiosFor(b, c)
  {
    if a == [] {
      assert a + b == b;
    } else {
      var head := if a[0].0 == c then [a[0].1] else [];
      assert (a + b)[0] == a[0] && (a + b)[1..] == a[1..] + b;
      RatiosForAppend(a[1..], b, c);
      calc {
        RatiosFor(a + b, c);
        head + RatiosFor(a[1..] + b, c);
        head + (RatiosFor(a[1..], c) + RatiosFor(b, c));
        (head + RatiosFor(a[1..], c)) + RatiosFor(b, c);
      }
    }
  }

  lemma {:induction false} RatiosForCounty(dfc: seq<Record>, savgs: map<string, Option<real>>, c: string)
    ensures RatiosFor(Ratios(dfc, savgs), c) == CountyRatios(dfc, savgs, c)
    decreases |dfc|
  {
    if dfc != [] {
      var init := dfc[..|dfc| - 1];
      var r := dfc[|dfc| - 1];
      RatiosForCounty(init, savgs, c);
      if Contributes(r, savgs) {
        RatiosForAppend(Ratios(init, savgs), [(r.county, Ratio(r, savgs))], c);
      }
    }
  }

  /** A county is in the burden mapping exactly when one of its rows contributes a
      ratio, and its burden is the mean of exactly those ratios. */
  lemma BurdenOfCounty(dfc: seq<Record>, savgs: map<string, Option<real>>, c: string)
    ensures c in Burden(dfc, savgs) <==> exists i :: 0 <= i < |dfc| && dfc[i].county == c && Contributes(dfc[i], savgs)
    ensures c in Burden(dfc, savgs) ==> Burden(dfc, savgs)[c] == Mean(CountyRatios(dfc, savgs, c))
  {
    RatiosForCounty(dfc, savgs, c);
    RatiosForNonEmpty(Ratios(dfc, savgs), c);
  }

  lemma {:induction false} RatiosAppend(a: seq<Record>, b: seq<Record>, savgs: map<string, Option<real>>)
    ensures Ratios(a + b, savgs) == Ratios(a, savgs) + Ratios(b, savgs)
    decreases |b|
  {
    if b == [] {
      assert a + b == a;
    } else {
      var ab := a + b;
      assert ab[..|ab| - 1] == a + b[..|b| - 1];
      assert ab[|ab| - 1] == b[|b| - 1];
      RatiosAppend(a, b[..|b| - 1], savgs);
    }
  }

  /** A row that does not contribute (missing rate, missing or zero state average)
      leaves every burden unchanged wherever it stands: it is skipped, never counted as
      a ratio of 0. */
  lemma NonContributingRowIgnored(a: seq<Record>, r: Record, b: seq<Record>, savgs: map<string, Option<real>>)
    requires !Contributes(r, savgs)
    ensures Burden(a + [r] + b, savgs) == Burden(a + b, savgs)
  {
    RatiosAppend(a + [r], b, savgs);
    RatiosAppend(a, [r], savgs);
    RatiosAppend(a, b, savgs);
    assert Ratios([r], savgs) == [] by { assert [r][..0] == []; }
  }

  // ---------------------------------------------------------------------------
  // Worked examples

  lemma RatiosSingleton(r: Record, savgs: map<string, Option<real>>)
    ensures Ratios([r], savgs) == if Contributes(r, savgs) then [(r.county, Ratio(r, savgs))] else []
  {
    assert [r][..0] == [];
  }

  /** Each example row on its own: three ratios against a state average of 100, and a
      row whose indicator has no statewide row. */
  lemma ExampleRowRatios(a: Record, b: Record, c: Record, d: Record, savgs: map<string, Option<real>>)
    requires savgs == map["Asthma" := Some(100.0)]
    requires a == Record("Albany", None, Some("Asthma"), Some(50.0))
    requires b == Record("Bronx", None, Some("Asthma"), Some(100.0))
    requires c == Record("Chemung", None, Some("Asthma"), Some(150.0))
    requires d == Record("Delaware", None, Some("COPD"), Some(80.0))
    ensures Ratios([a], savgs) == [("Albany", 0.5)] && Ratios([b], savgs) == [("Bronx", 1.0)]
    ensures Ratios([c], savgs) == [("Chemung", 1.5)] && Ratios([d], savgs) == []
  {
    RatiosSingleton(a, savgs);
    RatiosSingleton(b, savgs);
    RatiosSingleton(c, savgs);
    RatiosSingleton(d, savgs);
  }

  lemma ExampleRatios(a: Record, b: Record, c: Record, d: Record, savgs: map<string, Option<real>>)
    requires savgs == map["Asthma" := Some(100.0)]
    requires a == Record("Albany", None, Some("Asthma"), Some(50.0))
    requires b == Record("Bronx", None, Some("Asthma"), Some(100.0))
    requires c == Record("Chemung", None, Some("Asthma"), Some(150.0))
    requires d == Record("Delaware", None, Some("COPD"), Some(80.0))
    ensures Ratios([a, b, c, d], savgs) == [("Albany", 0.5), ("Bronx", 1.0), ("Chemung", 1.5)]
  {
    ExampleRowRatios(a, b, c, d, savgs);
    RatiosAppend([a], [b], savgs);
    assert [a] + [b] == [a, b];
    RatiosAppend([a, b], [c], savgs);
    assert [a, b] + [c] == [a, b, c];
    RatiosAppend([a, b, c], [d], savgs);
    assert [a, b, c] + [d] == [a, b, c, d];
  }

  lemma ExampleMeans()
    ensures GroupMean([("Albany", 0.5), ("Bronx", 1.0), ("Chemung", 1.5)])
      == map["Albany" := 0.5, "Bronx" := 1.0, "Chemung" := 1.5]
  {
    var rows := [("Albany", 0.5), ("Bronx", 1.0), ("Chemung", 1.5)];
    assert rows[1..] == [("Bronx", 1.0), ("Chemung", 1.5)];
    assert rows[1..][1..] == [("Chemung", 1.5)];
    assert Keys(rows) == {"Albany", "Bronx", "Chemung"};
    assert RatiosFor(rows, "Albany") == [0.5];
    assert RatiosFor(rows, "Bronx") == [1.0];
    assert RatiosFor(rows, "Chemung") == [1.5];
    assert Mean([0.5]) == 0.5 && Mean([1.0]) == 1.0 && Mean([1.5]) == 1.5;
  }

  /** Three counties with rates 50, 100 and 150 against a state rate of 100 have
      burdens 0.5, 1.0 and 1.5; a fourth county whose only indicator has no statewide
      row is absent, not 0. */
  lemma BurdenExample()
    ensures Burden([
        Record("Albany", None, Some("Asthma"), Some(50.0)),
        Record("Bronx", None, Some("Asthma"), Some(100.0)),
        Record("Chemung", None, Some("Asthma"), Some(150.0)),
        Record("Delaware", None, Some("COPD"), Some(80.0))
      ], map["Asthma" := Some(100.0)])
      == map["Albany" := 0.5, "Bronx" := 1.0, "Chemung" := 1.5]
  {
    ExampleRatios(
      Record("Albany", None, Some("Asthma"), Some(50.0)),
      Record("Bronx", None, Some("Asthma"), Some(100.0)),
      Record("Chemung", None, Some("Asthma"), Some(150.0)),
      Record("Delaware", None, Some("COPD"), Some(80.0)),
      map["Asthma" := Some(100.0)]);
    ExampleMeans();
  }

  /** The loop's rows for a county with a missing rate, or a recorded 0, beside a
      COPD rate of 50 against a state rate of 50. */
  lemma MissingRateRows()
    ensures var savgs := map["Asthma" := Some(100.0), "COPD" := Some(50.0)];
      && Ratios([Record("Albany", None, Some("Asthma"), None), Record("Albany", None, Some("COPD"), Some(50.0))], savgs)
        == [("Albany", 1.0)]
      && Ratios([Record("Albany", None, Some("Asthma"), Some(0.0)), Record("Albany", None, Some("COPD"), Some(50.0))], savgs)
        == [("Albany", 0.0), ("Albany", 1.0)]
  {
    var savgs := map["Asthma" := Some(100.0), "COPD" := Some(50.0)];
    var missing, zero, copd :=
      Record("Albany", None, Some("Asthma"), None),
      Record("Albany", None, Some("Asthma"), Some(0.0)),
      Record("Albany", None, Some("COPD"), Some(50.0));
    RatiosAppend([missing], [copd], savgs);
    RatiosAppend([zero], [copd], savgs);
    RatiosSingleton(missing, savgs); RatiosSingleton(zero, savgs); RatiosSingleton(copd, savgs);
    assert [missing] + [copd] == [missing, copd] && [zero] + [copd] == [zero, copd];
  }

  /** The group means of those rows: 1 for the single ratio, 0.5 for the two. */
  lemma MissingRateMeans()
    ensures GroupMean([("Albany", 1.0)]) == map["Albany" := 1.0]
    ensures GroupMean([("Albany", 0.0), ("Albany", 1.0)]) == map["Albany" := 0.5]
  {
    var one, two := [("Albany", 1.0)], [("Albany", 0.0), ("Albany", 1.0)];
    assert two[1..] == one;
    assert Keys(one) == {"Albany"} && Keys(two) == {"Albany"};
    assert RatiosFor(one, "Albany") == [1.0];
    assert RatiosFor(two, "Albany") == [0.0, 1.0];
    assert Mean([1.0]) == 1.0;
    assert Sum([0.0, 1.0]) == 1.0 by { assert [0.0, 1.0][1..] == [1.0]; }
  }

  /** A missing rate is not a rate of 0: with one rate missing the county's burden is
      that of its other row alone, whereas a recorded 0 halves it. */
  lemma MissingRateIsNotZero()
    ensures var savgs := map["Asthma" := Some(100.0), "COPD" := Some(50.0)];
      && Burden([Record("Albany", None, Some("Asthma"), None), Record("Albany", None, Some("COPD"), Some(50.0))], savgs)
        == map["Albany" := 1.0]
      && Burden([Record("Albany", None, Some("Asthma"), Some(0.0)), Record("Albany", None, Some("COPD"), Some(50.0))], savgs)
        == map["Albany" := 0.5]
  {
    MissingRateRows();
    MissingRateMeans();
  }
}
