/** The constant county-coordinate table of the dashboard (data_utils.py:10-32) and
    its lookup with a missing default (data_utils.py:58-59). */
module Coordinates {
  import opened Wrappers
  import opened Seqs

  /** One table entry: county name, latitude, longitude. */
  type Entry = (string, real, real)

  // The 62 entries of COORDS. The dict lists the five New York City boroughs last;
  // here all names are in alphabetical order, which is what the distinctness proof
  // below compares, and the entries are split into four parts. A map has no order,
  // so the order of the dict's keys is not modelled.
  const Part0: seq<Entry> := [
    ("Albany", 42.65, -73.76), ("Allegany", 42.26, -78.03), ("Bronx", 40.84, -73.86),
    ("Broome", 42.16, -75.82), ("Cattaraugus", 42.25, -78.68), ("Cayuga", 42.93, -76.57),
    ("Chautauqua", 42.30, -79.41), ("Chemung", 42.14, -76.76), ("Chenango", 42.49, -75.61),
    ("Clinton", 44.75, -73.68), ("Columbia", 42.25, -73.63), ("Cortland", 42.60, -76.18),
    ("Delaware", 42.20, -74.97), ("Dutchess", 41.77, -73.74), ("Erie", 42.75, -78.78),
    ("Essex", 44.12, -73.78)
  ]

  const Part1: seq<Entry> := [
    ("Franklin", 44.59, -74.30), ("Fulton", 43.11, -74.42), ("Genesee", 43.00, -78.19),
    ("Greene", 42.28, -74.13), ("Hamilton", 43.66, -74.50), ("Herkimer", 43.42, -74.96),
    ("Jefferson", 44.00, -75.86), ("Kings", 40.63, -73.95), ("Lewis", 43.78, -75.45),
    ("Livingston", 42.73, -77.79), ("Madison", 42.91, -75.67), ("Monroe", 43.16, -77.61),
    ("Montgomery", 42.91, -74.44), ("Nassau", 40.74, -73.59), ("New York", 40.78, -73.97),
    ("Niagara", 43.17, -78.83)
  ]

  const Part2: seq<Entry> := [
    ("Oneida", 43.24, -75.44), ("Onondaga", 43.05, -76.15), ("Ontario", 42.85, -77.30),
    ("Orange", 41.40, -74.27), ("Orleans", 43.34, -78.22), ("Oswego", 43.46, -76.21),
    ("Otsego", 42.63, -75.03), ("Putnam", 41.43, -73.76), ("Queens", 40.72, -73.79),
    ("Rensselaer", 42.71, -73.51), ("Richmond", 40.58, -74.15), ("Rockland", 41.15, -74.02),
    ("Saratoga", 43.10, -73.86), ("Schenectady", 42.81, -74.06), ("Schoharie", 42.59, -74.45),
    ("Schuyler", 42.39, -76.88)
  ]

  const Part3: seq<Entry> := [
    ("Seneca", 42.78, -76.82), ("St. Lawrence", 44.49, -75.11), ("Steuben", 42.27, -77.39),
    ("Suffolk", 40.94, -72.68), ("Sullivan", 41.72, -74.77), ("Tioga", 42.17, -76.31),
    ("Tompkins", 42.45, -76.47), ("Ulster", 41.89, -74.26), ("Warren", 43.56, -73.84),
    ("Washington", 43.31, -73.43), ("Wayne", 43.07, -77.06), ("Westchester", 41.12, -73.79),
    ("Wyoming", 42.70, -78.23), ("Yates", 42.63, -77.11)
  ]

  const CountyTable: seq<Entry> := Part0 + Part1 + Part2 + Part3

  /** A dictionary built from entries: a later entry overwrites an earlier one with the
      same name, as in a Python dict display. */
  function BuildMap(t: seq<Entry>): (m: map<string, (real, real)>)
    ensures forall name :: name in m <==> exists i :: 0 <= i < |t| && t[i].0 == name
    decreases |t|
  {
    if t == [] then map[]
    else
      var last := t[|t| - 1];
      BuildMap(t[..|t| - 1])[last.0 := (last.1, last.2)]
  }

  /** The COORDS dictionary: county name to (latitude, longitude). */
  const Coords: map<string, (real, real)> := BuildMap(CountyTable)

  /** The coordinate columns that load_data derives for a county name:
      `COORDS.get(name, (nan, nan))`, split into latitude and longitude. A name that is
      not in the table gets two missing values, never a coordinate. */
  function Lookup(name: string): (ll: (Option<real>, Option<real>))
    ensures ll.0.Some? <==> name in Coords
    ensures ll.1.Some? <==> name in Coords
    ensures name in Coords ==> (ll.0.value, ll.1.value) == Coords[name]
  {
    if name in Coords then (Some(Coords[name].0), Some(Coords[name].1)) else (None, None)
  }

  // ---------------------------------------------------------------------------
  // The table has 62 distinct names.

  /** `a` comes strictly before `b` in character order, and they first differ at `k`. */
  predicate DiffersAt(a: string, b: string, k: nat) {
    k < |a| && k < |b| && a[..k] == b[..k] && a[k] < b[k]
  }

  ghost predicate Before(a: string, b: string) {
    exists k :: DiffersAt(a, b, k)
  }

  ghost predicate AdjacentAscending(t: seq<Entry>) {
    forall i :: 0 <= i < |t| - 1 ==> Before(t[i].0, t[i + 1].0)
  }

  ghost predicate Ascending(t: seq<Entry>) {
    forall i, j :: 0 <= i < j < |t| ==> Before(t[i].0, t[j].0)
  }

  ghost predicate DistinctNames(t: seq<Entry>) {
    forall i, j :: 0 <= i < j < |t| ==> t[i].0 != t[j].0
  }

  lemma BeforeTransitive(a: string, b: string, c: string)
    requires Before(a, b) && Before(b, c)
    ensures Before(a, c)
  {
    var k1: nat :| DiffersAt(a, b, k1);
    var k2: nat :| DiffersAt(b, c, k2);
    if k1 < k2 {
      assert a[..k1] == c[..k1] by { assert b[..k1] == b[..k2][..k1]; assert c[..k1] == c[..k2][..k1]; }
      assert DiffersAt(a, c, k1);
    } else if k2 < k1 {
      assert a[..k2] == c[..k2] by { assert a[..k2] == a[..k1][..k2]; assert b[..k2] == b[..k1][..k2]; }
      assert DiffersAt(a, c, k2);
    } else {
      assert DiffersAt(a, c, k1);
    }
  }

  lemma {:induction false} AdjacentToAscending(t: seq<Entry>)
    requires AdjacentAscending(t)
    ensures Ascending(t)
  {
    if |t| > 1 {
      AdjacentToAscending(t[1..]);
      forall i, j | 0 <= i < j < |t| ensures Before(t[i].0, t[j].0) {
        if i == 0 && j > 1 {
          assert Before(t[1].0, t[j].0) by { assert t[1..][0] == t[1] && t[1..][j - 1] == t[j]; }
          BeforeTransitive(t[0].0, t[1].0, t[j].0);
        } else if i > 0 {
          assert t[1..][i - 1] == t[i] && t[1..][j - 1] == t[j];
        }
      }
    }
  }

  lemma AscendingDistinct(t: seq<Entry>)
    requires Ascending(t)
    ensures DistinctNames(t)
  {
    forall i, j | 0 <= i < j < |t| ensures t[i].0 != t[j].0 {
      var k :| DiffersAt(t[i].0, t[j].0, k);
    }
  }

  lemma Part0Ascending()
    ensures AdjacentAscending(Part0)
  {
    assert DiffersAt(Part0[0].0, Part0[1].0, 2);
    assert DiffersAt(Part0[1].0, Part0[2].0, 0);
    assert DiffersAt(Part0[2].0, Part0[3].0, 3);
    assert DiffersAt(Part0[3].0, Part0[4].0, 0);
    assert DiffersAt(Part0[4].0, Part0[5].0, 2);
    assert DiffersAt(Part0[5].0, Part0[6].0, 1);
    assert DiffersAt(Part0[6].0, Part0[7].0, 2);
    assert DiffersAt(Part0[7].0, Part0[8].0, 3);
    assert DiffersAt(Part0[8].0, Part0[9].0, 1);
    assert DiffersAt(Part0[9].0, Part0[10].0, 1);
    assert DiffersAt(Part0[10].0, Part0[11].0, 2);
    assert DiffersAt(Part0[11].0, Part0[12].0, 0);
    assert DiffersAt(Part0[12].0, Part0[13].0, 1);
    assert DiffersAt(Part0[13].0, Part0[14].0, 0);
    assert DiffersAt(Part0[14].0, Part0[15].0, 1);
  }

  lemma Part1Ascending()
    ensures AdjacentAscending(Part1)
  {
    assert DiffersAt(Part1[0].0, Part1[1].0, 1);
    assert DiffersAt(Part1[1].0, Part1[2].0, 0);
    assert DiffersAt(Part1[2].0, Part1[3].0, 1);
    assert DiffersAt(Part1[3].0, Part1[4].0, 0);
    assert DiffersAt(Part1[4].0, Part1[5].0, 1);
    assert DiffersAt(Part1[5].0, Part1[6].0, 0);
    assert DiffersAt(Part1[6].0, Part1[7].0, 0);
    assert DiffersAt(Part1[7].0, Part1[8].0, 0);
    assert DiffersAt(Part1[8].0, Part1[9].0, 1);
    assert DiffersAt(Part1[9].0, Part1[10].0, 0);
    assert DiffersAt(Part1[10].0, Part1[11].0, 1);
    assert DiffersAt(Part1[11].0, Part1[12].0, 3);
    assert DiffersAt(Part1[12].0, Part1[13].0, 0);
    assert DiffersAt(Part1[13].0, Part1[14].0, 1);
    assert DiffersAt(Part1[14].0, Part1[15].0, 1);
  }

  lemma Part2Ascending()
    ensures AdjacentAscending(Part2)
  {
    assert DiffersAt(Part2[0].0, Part2[1].0, 2);
    assert DiffersAt(Part2[1].0, Part2[2].0, 2);
    assert DiffersAt(Part2[2].0, Part2[3].0, 1);
    assert DiffersAt(Part2[3].0, Part2[4].0, 2);
    assert DiffersAt(Part2[4].0, Part2[5].0, 1);
    assert DiffersAt(Part2[5].0, Part2[6].0, 1);
    assert DiffersAt(Part2[6].0, Part2[7].0, 0);
    assert DiffersAt(Part2[7].0, Part2[8].0, 0);
    assert DiffersAt(Part2[8].0, Part2[9].0, 0);
    assert DiffersAt(Part2[9].0, Part2[10].0, 1);
    assert DiffersAt(Part2[10].0, Part2[11].0, 1);
    assert DiffersAt(Part2[11].0, Part2[12].0, 0);
    assert DiffersAt(Part2[12].0, Part2[13].0, 1);
    assert DiffersAt(Part2[13].0, Part2[14].0, 3);
    assert DiffersAt(Part2[14].0, Part2[15].0, 3);
  }

  lemma Part3Ascending()
    ensures AdjacentAscending(Part3)
  {
    assert DiffersAt(Part3[0].0, Part3[1].0, 1);
    assert DiffersAt(Part3[1].0, Part3[2].0, 2);
    assert DiffersAt(Part3[2].0, Part3[3].0, 1);
    assert DiffersAt(Part3[3].0, Part3[4].0, 2);
    assert DiffersAt(Part3[4].0, Part3[5].0, 0);
    assert DiffersAt(Part3[5].0, Part3[6].0, 1);
    assert DiffersAt(Part3[6].0, Part3[7].0, 0);
    assert DiffersAt(Part3[7].0, Part3[8].0, 0);
    assert DiffersAt(Part3[8].0, Part3[9].0, 2);
    assert DiffersAt(Part3[9].0, Part3[10].0, 2);
    assert DiffersAt(Part3[10].0, Part3[11].0, 1);
    assert DiffersAt(Part3[11].0, Part3[12].0, 1);
    assert DiffersAt(Part3[12].0, Part3[13].0, 0);
  }

  lemma {:induction false} TableAscending()
    ensures AdjacentAscending(CountyTable)
  {
    Part0Ascending(); Part1Ascending(); Part2Ascending(); Part3Ascending();
    assert DiffersAt(Part0[15].0, Part1[0].0, 0);
    assert DiffersAt(Part1[15].0, Part2[0].0, 0);
    assert DiffersAt(Part2[15].0, Part3[0].0, 1);
    forall i | 0 <= i < |CountyTable| - 1
      ensures Before(CountyTable[i].0, CountyTable[i + 1].0)
    {
      if i < 15 { assert CountyTable[i] == Part0[i] && CountyTable[i + 1] == Part0[i + 1]; }
      else if i == 15 { assert CountyTable[i] == Part0[15] && CountyTable[i + 1] == Part1[0]; }
      else if i < 31 { assert CountyTable[i] == Part1[i - 16] && CountyTable[i + 1] == Part1[i - 15]; }
      else if i == 31 { assert CountyTable[i] == Part1[15] && CountyTable[i + 1] == Part2[0]; }
      else if i < 47 { assert CountyTable[i] == Part2[i - 32] && CountyTable[i + 1] == Part2[i - 31]; }
      else if i == 47 { assert CountyTable[i] == Part2[15] && CountyTable[i + 1] == Part3[0]; }
      else { assert CountyTable[i] == Part3[i - 48] && CountyTable[i + 1] == Part3[i - 47]; }
    }
  }

  lemma TableDistinct()
    ensures DistinctNames(CountyTable)
  {
    TableAscending();
    AdjacentToAscending(CountyTable);
    AscendingDistinct(CountyTable);
  }

  /** With distinct names, the dictionary has one key per entry and each key maps to
      its own entry's coordinates. */
  lemma {:induction false} BuildMapOfDistinct(t: seq<Entry>)
    requires DistinctNames(t)
    ensures |BuildMap(t)| == |t|
    ensures forall i :: 0 <= i < |t| ==> BuildMap(t)[t[i].0] == (t[i].1, t[i].2)
    decreases |t|
  {
    if t != [] {
      var init := t[..|t| - 1];
      assert DistinctNames(init);
      BuildMapOfDistinct(init);
      var last := t[|t| - 1];
      forall i | 0 <= i < |init| ensures init[i].0 != last.0 {
        assert init[i] == t[i];
      }
      assert last.0 !in BuildMap(init);
      forall i | 0 <= i < |t| - 1 ensures BuildMap(t)[t[i].0] == (t[i].1, t[i].2) {
        assert init[i] == t[i];
      }
    }
  }

  /** COORDS has exactly 62 entries, and each table entry is what COORDS gives for its name. */
  lemma CoordsTable()
    ensures |Coords| == 62
    ensures forall i :: 0 <= i < |CountyTable| ==> Coords[CountyTable[i].0] == (CountyTable[i].1, CountyTable[i].2)
  {
    TableDistinct();
    BuildMapOfDistinct(CountyTable);
  }
}
