/** The tables the overview page (app.py) derives from the filtered county rows and the
    burden ranking: the headline figures, the per-topic record counts and the
    burden-to-map join. */
module Overview {
  import opened Wrappers
  import opened Seqs
  import opened Coordinates
  import opened DataUtils

  // ---------------------------------------------------------------------------
  // Headline figures

  function CountyNames(dfc: seq<Record>): (col: seq<Option<string>>)
    ensures |col| == |dfc| && forall i :: 0 <= i < |dfc| ==> col[i] == Some(dfc[i].county)
  {
    seq(|dfc|, i requires 0 <= i < |dfc| => Some(dfc[i].county))
  }

  function Topics(dfc: seq<Record>): (col: seq<Option<string>>)
    ensures |col| == |dfc| && forall i :: 0 <= i < |dfc| ==> col[i] == dfc[i].topic
  {
    seq(|dfc|, i requires 0 <= i < |dfc| => dfc[i].topic)
  }

  function Indicators(dfc: seq<Record>): (col: seq<Option<string>>)
    ensures |col| == |dfc| && forall i :: 0 <= i < |dfc| ==> col[i] == dfc[i].indicator
  {
    seq(|dfc|, i requires 0 <= i < |dfc| => dfc[i].indicator)
  }

  /** The non-missing values of a column, in order. */
  function Present(xs: seq<Option<string>>): (vs: seq<string>)
    ensures |vs| <= |xs|
    ensures forall v :: v in vs <==> Some(v) in xs
  {
    if xs == [] then []
    else (if xs[0].Some? then [xs[0].value] else []) + Present(xs[1..])
  }

  /** The distinct non-missing values of a column. */
  ghost function Values(xs: seq<Option<string>>): set<string> {
    set o | o in xs && o.Some? :: o.value
  }

  /** `nunique()`: the number of distinct values, missing values not counted. */
  function NUnique(xs: seq<Option<string>>): (n: nat)
    ensures n == |Values(xs)|
    ensures n <= |xs|
  {
    var d := Dedup(Present(xs));
    DedupCardinality(Present(xs));
    assert Elements(Present(xs)) == Values(xs);
    |d|
  }

  datatype Headline = Headline(counties: nat, topics: nat, indicators: nat, records: nat)

  /** The four headline figures: distinct counties, distinct health topics, distinct
      indicators (missing values not counted) and the number of rows. */
  function HeadlineCounts(dfc: seq<Record>): (h: Headline)
    ensures h.counties == |set r | r in dfc :: r.county|
    ensures h.topics == |set r | r in dfc && r.topic.Some? :: r.topic.value|
    ensures h.indicators == |set r | r in dfc && r.indicator.Some? :: r.indicator.value|
    ensures h.records == |dfc|
    ensures h.counties <= h.records && h.topics <= h.records && h.indicators <= h.records
  {
    var counties, topics, indicators := CountyNames(dfc), Topics(dfc), Indicators(dfc);
    assert Values(counties) == set r | r in dfc :: r.county by {
      forall c | c in Values(counties) ensures c in set r | r in dfc :: r.county {
        var i :| 0 <= i < |counties| && counties[i] == Some(c);
        assert dfc[i] in dfc;
      }
    }
    assert Values(topics) == set r | r in dfc && r.topic.Some? :: r.topic.value by {
      forall t | t in Values(topics) ensures t in set r | r in dfc && r.topic.Some? :: r.topic.value {
        var i :| 0 <= i < |topics| && topics[i] == Some(t);
        assert dfc[i] in dfc;
      }
    }
    assert Values(indicators) == set r | r in dfc && r.indicator.Some? :: r.indicator.value by {
      forall t | t in Values(indicators) ensures t in set r | r in dfc && r.indicator.Some? :: r.indicator.value {
        var i :| 0 <= i < |indicators| && indicators[i] == Some(t);
        assert dfc[i] in dfc;
      }
    }
    Headline(NUnique(counties), NUnique(topics), NUnique(indicators), |dfc|)
  }

  // ---------------------------------------------------------------------------
  // Records per health topic

  /** The text that `str.replace(' Indicators', '')` removes from a topic name. */
  const Suffix: string := " Indicators"

  /** `pat` occurs in `s` at position `i`. */
  predicate OccursAt(pat: string, s: string, i: int) {
    0 <= i && i + |pat| <= |s| && s[i..i + |pat|] == pat
  }

  ghost predicate Occurs(pat: string, s: string) {
    exists i :: OccursAt(pat, s, i)
  }

  /** Dropping the first character of a string without an occurrence leaves none. */
  lemma AbsentFromTail(pat: string, s: string)
    requires s != [] && !Occurs(pat, s)
    ensures !Occurs(pat, s[1..])
  {
    forall i | 0 <= i && i + |pat| <= |s| - 1 ensures !OccursAt(pat, s[1..], i) {
      assert s[1..][i..i + |pat|] == s[i + 1..i + 1 + |pat|];
      assert !OccursAt(pat, s, i + 1);
    }
  }

  /** `s.replace(pat, '')`: scanning from the left, every occurrence of `pat` that does
      not overlap an earlier removed one is removed. */
  function RemoveAll(s: string, pat: string): (r: string)
    requires |pat| > 0
    ensures |r| <= |s|
    decreases |s|
  {
    if |s| < |pat| then s
    else if s[..|pat|] == pat then RemoveAll(s[|pat|..], pat)
    else [s[0]] + RemoveAll(s[1..], pat)
  }

  /** The short label shown for a topic. */
  function ShortLabel(topic: string): (short: string)
    ensures |short| <= |topic|
  {
    RemoveAll(topic, Suffix)
  }

  /** A string without an occurrence is left as it is. */
  lemma {:induction false} RemoveAllAbsent(s: string, pat: string)
    requires |pat| > 0 && !Occurs(pat, s)
    ensures RemoveAll(s, pat) == s
    decreases |s|
  {
    if |s| >= |pat| {
      assert s[0..|pat|] == s[..|pat|];
      assert !OccursAt(pat, s, 0);
      AbsentFromTail(pat, s);
      RemoveAllAbsent(s[1..], pat);
      assert s == [s[0]] + s[1..];
    }
  }

  /** A topic named "<name> Indicators", where the name itself does not contain
      " Indicators", gets the label "<name>". */
  lemma {:induction false} ShortLabelStripsSuffix(name: string)
    requires !Occurs(Suffix, name)
    ensures ShortLabel(name + Suffix) == name
    decreases |name|
  {
    var s := name + Suffix;
    if name == [] {
      assert s == Suffix;
      assert s[..|Suffix|] == Suffix && s[|Suffix|..] == [];
      assert RemoveAll(s, Suffix) == RemoveAll([], Suffix) == [];
    } else {
      assert s[..|Suffix|] != Suffix by {
        if |name| >= |Suffix| {
          assert s[..|Suffix|] == name[0..|Suffix|];
          assert !OccursAt(Suffix, name, 0);
        } else {
          // The suffix's leading blank would face a letter of the suffix itself.
          assert s[..|Suffix|][|name|] == ' ' && Suffix[|name|] != ' ';
        }
      }
      AbsentFromTail(Suffix, name);
      ShortLabelStripsSuffix(name[1..]);
      assert s[1..] == name[1..] + Suffix;
      assert RemoveAll(s, Suffix) == [s[0]] + RemoveAll(s[1..], Suffix);
      assert name == [name[0]] + name[1..];
    }
  }

  /** Topic names as they appear in the data. */
  lemma ShortLabelExamples()
    ensures ShortLabel("Cancer Indicators") == "Cancer"
    ensures ShortLabel("Tobacco Use") == "Tobacco Use"
  {
    assert "Cancer Indicators" == "Cancer" + Suffix;
    ShortLabelStripsSuffix("Cancer");
    forall i ensures !OccursAt(Suffix, "Tobacco Use", i) {
      if i == 0 {
        assert "Tobacco Use"[0..|Suffix|][0] != Suffix[0];
      }
    }
    RemoveAllAbsent("Tobacco Use", Suffix);
  }

  /** The number of rows of `topic` whose indicator is present: pandas' `count()`
      skips missing values. */
  function IndicatorCount(dfc: seq<Record>, topic: string): (n: nat)
    ensures n <= |dfc|
  {
    if dfc == [] then 0
    else (if dfc[0].topic == Some(topic) && dfc[0].indicator.Some? then 1 else 0) + IndicatorCount(dfc[1..], topic)
  }

  /** One bar of the topic chart: topic, record count, short label. */
  datatype TopicRow = TopicRow(topic: string, records: nat, short: string)

  function RecordsKey(row: TopicRow): real { row.records as real }

  function TopicOf(row: TopicRow): string { row.topic }

  /** One bar per topic of `topics`, in the same order. */
  function TopicRows(dfc: seq<Record>, topics: seq<string>): (rows: seq<TopicRow>)
    ensures |rows| == |topics|
    ensures forall k :: 0 <= k < |topics| ==>
      rows[k] == TopicRow(topics[k], IndicatorCount(dfc, topics[k]), ShortLabel(topics[k]))
  {
    seq(|topics|, k requires 0 <= k < |topics| =>
      TopicRow(topics[k], IndicatorCount(dfc, topics[k]), ShortLabel(topics[k])))
  }

  /** The distinct non-missing topics of the rows, in order of last appearance. */
  function DistinctTopics(dfc: seq<Record>): (ts: seq<string>)
    ensures NoDup(ts)
    ensures forall t :: t in ts <==> exists r :: r in dfc && r.topic == Some(t)
  {
    var ts := Dedup(Present(Topics(dfc)));
    forall t | t in ts ensures exists r :: r in dfc && r.topic == Some(t) {
      var i :| 0 <= i < |dfc| && Topics(dfc)[i] == Some(t);
      assert dfc[i] in dfc;
    }
    forall t | exists r :: r in dfc && r.topic == Some(t) ensures t in ts {
      var r :| r in dfc && r.topic == Some(t);
      var i :| 0 <= i < |dfc| && dfc[i] == r;
      assert Topics(dfc)[i] == Some(t);
    }
    ts
  }

  /** `groupby('health_topic')['indicator'].count().sort_values(ascending=True)` with the
      'Short' column: one row per distinct non-missing topic, fewest records first, each
      row counting the present indicators of its topic and carrying its short label. */
  function TopicCounts(dfc: seq<Record>): (table: seq<TopicRow>)
    ensures forall i, j :: 0 <= i < j < |table| ==> table[i].records <= table[j].records
    ensures forall row :: row in table ==>
      row.records == IndicatorCount(dfc, row.topic) && row.short == ShortLabel(row.topic)
  {
    Sort(TopicRows(dfc, DistinctTopics(dfc)), RecordsKey)
  }

  /** A topic has a row exactly when some row of the data carries it. */
  lemma TopicCountsCover(dfc: seq<Record>, t: string)
    ensures (exists row :: row in TopicCounts(dfc) && row.topic == t) <==>
      (exists r :: r in dfc && r.topic == Some(t))
  {
    var topics := DistinctTopics(dfc);
    var entries := TopicRows(dfc, topics);
    var table := TopicCounts(dfc);
    assert table == Sort(entries, RecordsKey);
    if exists r :: r in dfc && r.topic == Some(t) {
      var k :| 0 <= k < |topics| && topics[k] == t;
      assert entries[k] in table;
    }
    if exists row :: row in table && row.topic == t {
      var row :| row in table && row.topic == t;
      var k :| 0 <= k < |entries| && entries[k] == row;
      assert topics[k] in topics;
    }
  }

  /** Each topic has exactly one row, so the table has as many rows as the headline
      counts distinct topics. */
  lemma TopicCountsDistinct(dfc: seq<Record>)
    ensures var table := TopicCounts(dfc);
      (forall i, j :: 0 <= i < j < |table| ==> table[i].topic != table[j].topic) &&
      |table| == HeadlineCounts(dfc).topics
  {
    var topics := DistinctTopics(dfc);
    var entries := TopicRows(dfc, topics);
    var table := TopicCounts(dfc);
    assert table == Sort(entries, RecordsKey);
    assert NoDup(entries) by {
      forall i, j | 0 <= i < j < |entries| ensures entries[i] != entries[j] {
        assert entries[i].topic == topics[i] && entries[j].topic == topics[j];
      }
    }
    SortKeepsNoDup(entries, RecordsKey);
    DistinctKeysOfSubset(table, entries, TopicOf);
    NoDupCardinality(topics);
    assert Elements(topics) == set r | r in dfc && r.topic.Some? :: r.topic.value;
  }

  // ---------------------------------------------------------------------------
  // The overview map

  /** One marker of the overview map. */
  datatype MapPoint = MapPoint(county: string, ratio: real, lat: real, lon: real)

  /** `bmap`: the burden ranking with each county's centroid looked up through
      `COORDS.get(name, (None, None))`, rows with a missing coordinate dropped. A marker
      is a ranked county with its ratio and its table coordinates, and every ranked
      county that the table knows gets one. */
  function MapPoints(burden: seq<(string, real)>): (points: seq<MapPoint>)
    ensures |points| <= |burden|
  {
    if burden == [] then []
    else
      var ll := Lookup(burden[0].0);
      var rest := MapPoints(burden[1..]);
      if ll.0.Some? && ll.1.Some? then [MapPoint(burden[0].0, burden[0].1, ll.0.value, ll.1.value)] + rest
      else rest
  }

  /** Each marker is a ranked county, with its ratio, and its centroid from the table. */
  lemma {:induction false} MapPointsSound(burden: seq<(string, real)>, p: MapPoint)
    requires p in MapPoints(burden)
    ensures (p.county, p.ratio) in burden && p.county in Coords && (p.lat, p.lon) == Coords[p.county]
  {
    var rest := MapPoints(burden[1..]);
    if burden[0].0 in Coords {
      var head := MapPoint(burden[0].0, burden[0].1, Coords[burden[0].0].0, Coords[burden[0].0].1);
      assert MapPoints(burden) == [head] + rest;
      if p != head {
        MapPointsSound(burden[1..], p);
      }
    } else {
      assert MapPoints(burden) == rest;
      MapPointsSound(burden[1..], p);
    }
  }

  /** Every ranked county that has a centroid gets its marker. */
  lemma {:induction false} MapPointsComplete(burden: seq<(string, real)>, c: string, ratio: real)
    requires (c, ratio) in burden && c in Coords
    ensures MapPoint(c, ratio, Coords[c].0, Coords[c].1) in MapPoints(burden)
  {
    var rest := MapPoints(burden[1..]);
    if burden[0] != (c, ratio) {
      MapPointsComplete(burden[1..], c, ratio);
    }
    if burden[0].0 in Coords {
      var head := MapPoint(burden[0].0, burden[0].1, Coords[burden[0].0].0, Coords[burden[0].0].1);
      assert MapPoints(burden) == [head] + rest;
    } else {
      assert MapPoints(burden) == rest;
    }
  }

  /** The (county, ratio) rows behind the markers, in marker order. */
  function Placed(points: seq<MapPoint>): (pairs: seq<(string, real)>)
    ensures |pairs| == |points|
    ensures forall i :: 0 <= i < |points| ==> pairs[i] == (points[i].county, points[i].ratio)
  {
    seq(|points|, i requires 0 <= i < |points| => (points[i].county, points[i].ratio))
  }

  /** `dropna` only removes rows: the markers are rows of the ranking, in the ranking's
      own order, ties included. */
  lemma {:induction false} MapPointsInRankingOrder(burden: seq<(string, real)>)
    ensures IsSubsequence(Placed(MapPoints(burden)), burden)
  {
    if burden != [] {
      var rest := MapPoints(burden[1..]);
      MapPointsInRankingOrder(burden[1..]);
      if burden[0].0 in Coords {
        var head := MapPoint(burden[0].0, burden[0].1, Coords[burden[0].0].0, Coords[burden[0].0].1);
        assert MapPoints(burden) == [head] + rest;
        var placed := Placed(MapPoints(burden));
        assert placed[0] == burden[0];
        assert placed[1..] == Placed(rest);
      } else {
        assert MapPoints(burden) == rest;
        SubsequenceOfTail(Placed(rest), burden);
      }
    }
  }

  /** Markers run from the highest ratio down. */
  predicate RatiosDescend(points: seq<MapPoint>) {
    forall i, j :: 0 <= i < j < |points| ==> points[i].ratio >= points[j].ratio
  }

  /** No county has two markers. */
  predicate CountiesDistinct(points: seq<MapPoint>) {
    forall i, j :: 0 <= i < j < |points| ==> points[i].county != points[j].county
  }

  /** A marker put in front of a descending run that it does not undercut. */
  lemma ConsRatiosDescend(head: MapPoint, rest: seq<MapPoint>)
    requires RatiosDescend(rest)
    requires forall j | 0 <= j < |rest| :: head.ratio >= rest[j].ratio
    ensures RatiosDescend([head] + rest)
  {
    var points := [head] + rest;
    forall i, j | 0 <= i < j < |points| ensures points[i].ratio >= points[j].ratio {
      assert points[j] == rest[j - 1];
      if i > 0 {
        assert points[i] == rest[i - 1];
      }
    }
  }

  /** A marker put in front of markers for other counties. */
  lemma ConsCountiesDistinct(head: MapPoint, rest: seq<MapPoint>)
    requires CountiesDistinct(rest)
    requires forall j | 0 <= j < |rest| :: head.county != rest[j].county
    ensures CountiesDistinct([head] + rest)
  {
    var points := [head] + rest;
    forall i, j | 0 <= i < j < |points| ensures points[i].county != points[j].county {
      assert points[j] == rest[j - 1];
      if i > 0 {
        assert points[i] == rest[i - 1];
      }
    }
  }

  /** Dropping rows keeps the order of the ranking: the markers, too, run from the
      highest burden down. */
  lemma {:induction false} MapPointsKeepRanking(burden: seq<(string, real)>)
    requires NonIncreasing(burden)
    ensures RatiosDescend(MapPoints(burden))
  {
    if burden != [] {
      var rest := MapPoints(burden[1..]);
      var points := MapPoints(burden);
      MapPointsKeepRanking(burden[1..]);
      if burden[0].0 in Coords {
        var head := MapPoint(burden[0].0, burden[0].1, Coords[burden[0].0].0, Coords[burden[0].0].1);
        assert points == [head] + rest;
        forall j | 0 <= j < |rest| ensures burden[0].1 >= rest[j].ratio {
          MapPointsSound(burden[1..], rest[j]);
          var k :| 0 <= k < |burden[1..]| && burden[1..][k] == (rest[j].county, rest[j].ratio);
          assert burden[k + 1] == burden[1..][k];
        }
        ConsRatiosDescend(head, rest);
      } else {
        assert points == rest;
      }
    }
  }

  /** The map of a ranking that lists the burden mapping `m`: one marker per county that
      has a burden and a centroid, carrying that county's burden and centroid. */
  lemma MapOfBurden(burden: seq<(string, real)>, m: map<string, real>, c: string)
    requires Lists(burden, m)
    ensures CountiesDistinct(MapPoints(burden))
    ensures (exists p :: p in MapPoints(burden) && p.county == c) <==> c in m && c in Coords
    ensures forall p | p in MapPoints(burden) && p.county == c ::
      c in m && c in Coords && p.ratio == m[c] && (p.lat, p.lon) == Coords[c]
  {
    var points := MapPoints(burden);
    MapPointsDistinct(burden);
    if c in m && c in Coords {
      assert c in Keys(burden);
      var i :| 0 <= i < |burden| && burden[i].0 == c;
      MapPointsComplete(burden, c, m[c]);
    }
    forall p | p in points && p.county == c
      ensures c in m && c in Coords && p.ratio == m[c] && (p.lat, p.lon) == Coords[c]
    {
      MapPointsSound(burden, p);
      var i :| 0 <= i < |burden| && burden[i] == (p.county, p.ratio);
    }
  }

  /** Markers of a ranking without repeated counties have no repeated counties. */
  lemma {:induction false} MapPointsDistinct(burden: seq<(string, real)>)
    requires forall i, j :: 0 <= i < j < |burden| ==> burden[i].0 != burden[j].0
    ensures CountiesDistinct(MapPoints(burden))
  {
    if burden != [] {
      var rest := MapPoints(burden[1..]);
      var points := MapPoints(burden);
      MapPointsDistinct(burden[1..]);
      if burden[0].0 in Coords {
        var head := MapPoint(burden[0].0, burden[0].1, Coords[burden[0].0].0, Coords[burden[0].0].1);
        assert points == [head] + rest;
        forall j | 0 <= j < |rest| ensures burden[0].0 != rest[j].county {
          MapPointsSound(burden[1..], rest[j]);
          var k :| 0 <= k < |burden[1..]| && burden[1..][k] == (rest[j].county, rest[j].ratio);
          assert burden[k + 1] == burden[1..][k];
        }
        ConsCountiesDistinct(head, rest);
      } else {
        assert points == rest;
      }
    }
  }
}
