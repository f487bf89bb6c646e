# NYS County Health Explorer — verified model of the data core

The NYS County Health Explorer is a Streamlit dashboard. It runs over the New York
State Community Health Indicator Reports. This project models the data derivations at
its core and proves properties of them.

From `data_utils.py` it models:
- the county filter `get_counties`;
- the statewide-average table `get_state_avgs`;
- the burden calculator `compute_burden`, which gives each county the mean of its
  rate / state-average ratios, highest first;
- the `COORDS` table of 62 county centroids, and the lookup that gives a missing
  coordinate for an unknown name.

From `app.py` (the overview page) it models:
- the four headline figures;
- the per-topic record counts with their short labels;
- the join of the burden ranking with the centroids that feeds the overview map.

Modules:
- `Wrappers`: `Option` and `Result`.
- `Seqs`: generic sequence facts, with `Dedup` and a stable insertion sort by a real key
  that stands in for `sort_values`.
- `Coordinates`: the `COORDS` table, its lookup, and the proof that its 62 names are
  distinct.
- `DataUtils`: the three functions of `data_utils.py`.
- `Overview`: the derivations of `app.py`.

A row of the data frame is a `Record`. It keeps only the columns the core reads:
- county name;
- health topic;
- indicator;
- percent rate.

A value that pandas holds as NaN (after `to_numeric(errors='coerce')`) is `None`.

`compute_burden` is modelled as a method with the source's loop over the rows. Its
`groupby('county').mean().sort_values(ascending=False)` step is modelled by the
function `RankedMeans`. When no row yields a ratio, pandas fails: the empty frame has
no `county` column to group by. The model returns `Failure(MissingColumn("county"))`
in that case.

## Model

| member | source | states |
|---|---|---|
| DataUtils.IsCounty | data_utils.py:65-70 | the two masks of get_counties: a kept name is never the statewide row and contains no '/' |
| DataUtils.GetCounties | data_utils.py:64-70 | at most as many rows as the input; every kept row names a county, i.e. not one of the 13 aggregate regions and without '/' |
| DataUtils.GetCountiesKeeps | data_utils.py:64-70 | a row is kept exactly as often as it occurs in the input if it names a county, and never otherwise |
| DataUtils.GetCountiesSubsequence | data_utils.py:69-70 | the kept rows are a subsequence of the input: `.copy()` of boolean masks keeps input order |
| DataUtils.GetCountiesAppend | data_utils.py:64-70 | filtering distributes over concatenation (a row-wise filter) |
| DataUtils.GetCountiesIdempotent | data_utils.py:64-70 | filtering the filtered rows changes nothing |
| DataUtils.CountyExamples | data_utils.py:65-70 | "New York" (Manhattan) is a county; "New York City", "New York State" and "Essex/Hamilton" are not |
| DataUtils.CoordsAreCounties | data_utils.py:10-32 | every name in COORDS passes the county filter |
| DataUtils.GetStateAvgs | data_utils.py:74-76 | `dict(zip(indicator, percent_rate))` over the "New York State" rows: no more entries than rows; what the entries are is StateAvgsLastWins |
| DataUtils.StateAvgsLastWins | data_utils.py:74-76 | an indicator has a state average iff some "New York State" row carries it; its value is the rate of the last such row |
| DataUtils.StateAvgOf | data_utils.py:83 | `savgs.get(indicator)` is present iff the row has an indicator whose state average is present, and then it is that average |
| DataUtils.Contributes | data_utils.py:84-85 | a row yields a ratio iff its rate is present and its indicator's state average is present and non-zero |
| DataUtils.Ratios | data_utils.py:81-86 | the `rows` list the loop builds has at most one pair per row; its pairs are those of RatiosMembers |
| DataUtils.RatiosMembers | data_utils.py:81-86 | the loop's rows are exactly the (county, rate / state average) pairs of rows with a rate and a present, non-zero state average |
| DataUtils.SomeRatioIffSomeContribution | data_utils.py:81-86 | the row list is non-empty iff some row has a rate and a present non-zero state average |
| DataUtils.RatiosForNonEmpty | data_utils.py:87 | a county has a non-empty group under `groupby('county')` iff it occurs in the rows |
| DataUtils.GroupMean | data_utils.py:87 | `groupby('county')['ratio'].mean()` has a key exactly for each county in the rows; its values are BurdenOfCounty's means |
| DataUtils.Burden | data_utils.py:80-87 | every county in the burden mapping has a row that yields a ratio; BurdenOfCounty gives the converse and the value |
| DataUtils.MeanEntries | data_utils.py:87 | the group means as (county, mean) pairs: each county once, and a pair is listed iff it is a county's mean |
| DataUtils.RankedMeans | data_utils.py:87 | `sort_values(ascending=False)`: means in non-increasing order, and exactly the (county, mean) pairs of the group means |
| DataUtils.RankedMeansDistinct | data_utils.py:87 | no county appears twice in the ranking |
| DataUtils.RankedMeansLists | data_utils.py:87 | the ranking lists every county of the group means once, with its mean |
| DataUtils.ComputeBurden | data_utils.py:80-87 | fails, with the missing 'county' column, iff no row yields a ratio; otherwise returns each county once with its mean ratio, highest first |
| DataUtils.CountyRatios | data_utils.py:81-87 | a county's group of ratios is non-empty iff one of its rows yields a ratio |
| DataUtils.RatiosForCounty | data_utils.py:81-87 | grouping the loop's rows by county gives each county its own ratios in input order |
| DataUtils.BurdenOfCounty | data_utils.py:80-87 | a county has a burden iff one of its rows yields a ratio, and that burden is the mean of its ratios |
| DataUtils.RatiosAppend | data_utils.py:81-86 | the loop's rows for a concatenation are the rows of each part, in order |
| DataUtils.NonContributingRowIgnored | data_utils.py:85 | inserting a row without a rate or without a usable state average leaves every burden unchanged |
| DataUtils.ExampleRatios | data_utils.py:81-86 | the loop over rates 50, 100, 150 against a state average of 100, plus a row whose indicator has no state row, collects the ratios 0.5, 1.0, 1.5 in order |
| DataUtils.BurdenExample | data_utils.py:80-87 | rates 50, 100, 150 against a state average of 100 give burdens 0.5, 1.0, 1.5; a county whose indicator has no state row gets none |
| DataUtils.MissingRateIsNotZero | data_utils.py:85 | a missing rate is skipped, whereas a recorded rate of 0 enters the mean |
| Coordinates.BuildMap | data_utils.py:10-32 | a dict display: a name is a key iff some entry carries it; with distinct names each key holds its entry (BuildMapOfDistinct) |
| Coordinates.Lookup | data_utils.py:58-59 | both coordinates are present iff the name is in COORDS, and then they are its table entry |
| Coordinates.CoordsTable | data_utils.py:10-32 | COORDS has 62 entries, each name mapped to its listed latitude and longitude |
| Coordinates.TableDistinct | data_utils.py:10-32 | the 62 names of the table are pairwise distinct |
| Coordinates.BuildMapOfDistinct | data_utils.py:10-32 | a dict built from distinct names has one key per entry, each with its own value |
| Seqs.Sort | data_utils.py:87 | the result is ordered by the key and is a permutation of the input |
| Overview.NUnique | app.py:22-24 | `nunique()` is the number of distinct present values, at most the number of rows |
| Overview.HeadlineCounts | app.py:22-25 | the counts of distinct counties, topics and indicators (missing not counted) and of rows; none exceeds the row count |
| Overview.RemoveAll | app.py:55 | `str.replace(pat, '')` never lengthens a string; RemoveAllAbsent and ShortLabelStripsSuffix say what it removes |
| Overview.ShortLabel | app.py:55 | the 'Short' column is never longer than the topic name |
| Overview.RemoveAllAbsent | app.py:55 | `str.replace` leaves a string without an occurrence unchanged |
| Overview.ShortLabelStripsSuffix | app.py:55 | the label of "<name> Indicators" is "<name>" when the name itself has no " Indicators" |
| Overview.ShortLabelExamples | app.py:55 | "Cancer Indicators" is shown as "Cancer", "Tobacco Use" as itself |
| Overview.IndicatorCount | app.py:52 | `count()` of a topic's indicators: the rows of that topic whose indicator is present, at most the number of rows |
| Overview.TopicCounts | app.py:52-55 | topics in non-decreasing order of record count; each row counts the topic's rows with a present indicator and carries its short label |
| Overview.TopicCountsCover | app.py:52-53 | a topic has a row iff some row of the data carries it (missing topics are dropped by groupby) |
| Overview.TopicCountsDistinct | app.py:52-53 | each topic has one row, so the chart has as many bars as the headline has topics |
| Overview.MapPoints | app.py:79-83 | `bmap` after `dropna`: no more markers than ranked counties; MapPointsSound, MapPointsComplete and MapPointsInRankingOrder say which |
| Overview.MapPointsSound | app.py:79-83 | every marker is a ranked county with its ratio and its COORDS centroid |
| Overview.MapPointsComplete | app.py:81-83 | every ranked county that COORDS knows gets its marker |
| Overview.MapPointsInRankingOrder | app.py:79-83 | `dropna` only removes rows: the markers' (county, ratio) rows are a subsequence of the ranking, in its order, ties included |
| Overview.MapPointsKeepRanking | app.py:79-83 | over a ranking that runs from the highest burden down, the markers do too |
| Overview.MapPointsDistinct | app.py:79-83 | a ranking without repeated counties gives markers without repeated counties |
| Overview.MapOfBurden | app.py:79-83 | over a burden ranking: one marker per county with both a burden and a centroid, carrying that burden and centroid |

## Left out

- `load_data` (data_utils.py:38-60): the HTTP download, the CSV cache and `to_numeric` parsing are I/O. The model takes already-parsed rows.
- The `lat`/`lon` columns that `load_data` adds to every row are not stored in `Record`. Their lookup is `Coordinates.Lookup`.
- `@st.cache_data`, `inject_theme_css`, colours, and every chart and page layout are presentation only.
- The clustering and correlation pages are not part of this model.
- Record columns that the core does not read are dropped.
- Reals are exact. IEEE rounding of `cr / sa` and of the mean is not modelled.
- County names are never missing in the model. The `na=False` branch of `str.contains` (data_utils.py:70) is therefore not modelled.
- DataUtils.GetStateAvgs: a "New York State" row with a missing indicator adds no key. pandas would add a NaN key. Whether a county row with a missing indicator then finds it depends on NaN object identity.
- DataUtils.RankedMeans: `sort_values` is not stable. The model sorts stably, and its contract does not fix the order of counties with equal burdens.
- Overview.TopicCounts: the order of topics with equal counts is likewise not fixed.
- Coordinates.CoordsTable: a Python dict keeps insertion order. The model's entry list is alphabetical, whereas the source lists the five New York City boroughs last (data_utils.py:30-31). The model's map has no order, which nothing in the core relies on.
