# Maximal Covering Location search and top-n filter, in Dafny

This project models the algorithmic core of `geopandas_demo2.py`, a workshop script
that sites clinics over county subdivisions. Two parts are modelled.

- **The Maximal Covering Location search in `mclp1`.** The input is `m` sites, an
  `m x m` distance matrix `D`, a radius `r`, a demand per site and a facility count `n`.
  The search enumerates every `n`-combination of `range(m)` in lexicographic order. For
  each one it collects the distance rows of the chosen facilities. It then adds the
  demand of every site that lies within `r` of at least one chosen facility. A site
  counts once: the inner scan stops at the first facility that reaches it. The search
  also records the covered sites, and replaces its running best (`maxneed`, `bestloc`,
  `bestcovered`, `bestdistances`) only on strict improvement.
- **The "top n with ties" row filter.** It appears in `topn` and again, with `n = 3`,
  after the search. It sorts a column in descending order and copies the sorted values
  into a list. It reads the `n`-th value with Python indexing, so `n - 1` may be negative
  and an out-of-range index raises. It keeps every row whose value is at least that
  threshold.

Modules, one per component:

- `Wrappers` (`wrappers.dfy`): `Option`.
- `Combinations` (`combinations.dfy`): `Combos(lo, m, n)` gives the order in which
  `itertools.combinations` yields tuples. Lemmas prove that it lists every
  n-combination, lists nothing else, lists no tuple twice, and lists them in strictly
  increasing lexicographic order. It lists C(m, n) tuples.
- `Coverage` (`coverage.dfy`): `Covered`, `CoverSum`/`Total` and `CoverMap` are the
  meaning of one evaluation. The imperative `Evaluate` has the source's nested loops and
  its `break`. Lemmas cover union semantics, independence from facility order, and
  monotonicity in the radius and in the facility set.
- `Mclp` (`mclp.dfy`): `Optimum` is the best coverage over all n-combinations, floored
  at 0. The imperative `Solve` is the search loop. Its contract says the result is the
  lexicographically first combination of largest positive coverage, or `None` when no
  combination covers more than 0.
- `TopN` (`topn.dfy`): `SortDesc` stands in for the dataframe sort. The imperative
  `TopN` copies the sorted values, indexes them the Python way and filters the rows.
  `NthLargestRank` states what the threshold is without reference to the sort.
- `Scenarios` (`scenarios.dfy`): three configurations on four sites at the corners of a
  100 x 100 square. Each outcome is derived from the contracts of `Solve` and the
  `Optimum` lemmas alone.

Distances and demands are integers. The distance matrix is an input. In the source it
comes from centroid geometry (`centroids.distance`), which is not part of this model.

At the edges the model follows the code:

- With `n > m` the search itself does not fail: `combinations` yields nothing and the loop
  ends with `maxneed = 0, bestloc = None`. `Solve` does the same (`TooManyFacilitiesNoSolution`).
  `mclp1` then raises later, at `list(bestloc)` (geopandas_demo2.py:223), or first at
  `curcolsorted[3-1]` (geopandas_demo2.py:209) when there are fewer than 3 rows. Both lie
  outside the modelled search; see "## Left out".
- So one more facility never lowers the optimum only while `n < m` (`OptimumMonotoneInCount`).
  Going from `n = m` to `n = m + 1` lowers a positive optimum to 0 (`Scenarios.CountPastAllSites`).
- The code does not validate `r` or the demands. The model places no requirement on them.
  Negative demand is allowed in `Solve`. The monotonicity lemmas assume non-negative
  demand.

## Model

| member | source | states |
|---|---|---|
| `Combinations.CombosSound` | geopandas_demo2.py:172 | every tuple the enumeration yields is a sorted n-tuple of distinct indices in `0..m-1` |
| `Combinations.CombosComplete` | geopandas_demo2.py:172 | every sorted n-tuple of distinct indices in `0..m-1` is yielded |
| `Combinations.CombosLexSorted` | geopandas_demo2.py:172 | tuples are yielded in strictly increasing lexicographic order |
| `Combinations.CombosDistinct` | geopandas_demo2.py:172 | no tuple is yielded twice |
| `Combinations.CombosEmptyWhenTooMany` | geopandas_demo2.py:172 | asking for more elements than the range holds yields no tuple |
| `Combinations.CombosCount` | geopandas_demo2.py:172 | the enumeration yields C(m - lo, n) tuples, so exactly one (the empty tuple) for `n = 0` |
| `Coverage.Evaluate` | geopandas_demo2.py:174-189 | `dists[k]` is the distance row of the k-th chosen facility; `covered` has a key for site j iff some chosen facility is within `r` of j, with value `demand[j]`; `need` is the demand summed over exactly those sites |
| `Coverage.CoveredIsUnion` | geopandas_demo2.py:182-189 | the first-hit scan with `break` marks a site iff it lies in the union of the per-facility coverage sets |
| `Coverage.CoverMapIsUnion` | geopandas_demo2.py:187 | the keys of the coverage map are exactly the union of the sites each chosen facility reaches |
| `Coverage.TotalMatchesMap` | geopandas_demo2.py:186-187 | `need` equals the sum of the values recorded in the coverage map, with no site missed or counted twice |
| `Coverage.CoverageOrderFree` | geopandas_demo2.py:177-189 | covered total and coverage map depend only on the set of chosen facilities, not on their order |
| `Coverage.MoreFacilitiesCoverMore` | geopandas_demo2.py:182-189 | with non-negative demand, adding facilities never lowers the covered total |
| `Coverage.LargerRadiusCoversMore` | geopandas_demo2.py:184 | with non-negative demand, a larger radius never lowers the covered total of a fixed facility set |
| `Coverage.NoFacilitiesCoverNothing` | geopandas_demo2.py:183-189 | with no facility chosen the inner scan never hits: total 0 and an empty coverage map |
| `Coverage.ZeroDemandCoversNothing` | geopandas_demo2.py:186 | with all-zero demand the covered total is 0 |
| `Mclp.MaxCoverIsMaximum` | geopandas_demo2.py:192-194 | the running maximum over a prefix of candidates is at least 0, bounds every candidate, and is 0 or attained by one |
| `Mclp.OptimumIsBest` | geopandas_demo2.py:168-197 | the optimum is the largest coverage of any n-combination, floored at 0, and is attained whenever it is positive |
| `Mclp.OptimumCharacterized` | geopandas_demo2.py:192-194 | a value that is at least 0, bounds every enumerated combination and is 0 or attained equals the optimum |
| `Mclp.FirstMaximizerIsLexLeast` | geopandas_demo2.py:192-197 | if no earlier combination in the enumeration reaches the coverage of the one at a given position, every other combination with that coverage is lexicographically greater |
| `Mclp.Solve` | geopandas_demo2.py:168-197 | `maxneed` is the optimum; `bestloc` is `None` iff `maxneed = 0`, and then `bestcovered` and `bestdistances` are empty; otherwise `bestloc` is an n-combination with coverage `maxneed`, `bestcovered` and `bestdistances` are its coverage map and distance rows, and every other combination with coverage `maxneed` is lexicographically greater, so ties never replace the incumbent |
| `Mclp.NoFacilitiesNoSolution` | geopandas_demo2.py:168-172 | for `n = 0` the only combination covers nothing, so the optimum stays 0 and there is no solution |
| `Mclp.TooManyFacilitiesNoSolution` | geopandas_demo2.py:172 | for `n > m` nothing is enumerated and the optimum stays 0 |
| `Mclp.ZeroDemandNoSolution` | geopandas_demo2.py:192 | with all-zero demand nothing strictly improves on 0 |
| `Mclp.OptimumMonotoneInRadius` | geopandas_demo2.py:184 | with non-negative demand, a larger radius never lowers the optimum |
| `Mclp.ExtendCombination` | geopandas_demo2.py:172 | for `n < m`, each n-combination extends to an (n+1)-combination that contains it |
| `Mclp.OptimumMonotoneInCount` | geopandas_demo2.py:172-197 | for `n < m`, with non-negative demand, one more facility never lowers the optimum |
| `Mclp.FullCoverageCeiling` | geopandas_demo2.py:172-189 | for `n = m` the only combination is all sites, so the optimum is the demand within `r` of any site, floored at 0 |
| `Scenarios.OneFacilityOptimum` | geopandas_demo2.py:168-197 | four sites on a square, `n = 1`, `r = 50`: optimum 20, reached only by site 1 |
| `Scenarios.OneFacilityScenario` | geopandas_demo2.py:168-197 | calling the search on the same sites with `n = 1`, `r = 50` yields `maxneed = 20`, `bestloc = (1,)` and the coverage map `{1: 20}` |
| `Scenarios.CountPastAllSites` | geopandas_demo2.py:168-197 | same sites, `r = 50`: choosing all four sites gives optimum 50, while `n = 5` enumerates nothing and the optimum is 0 |
| `Scenarios.TieBreakScenario` | geopandas_demo2.py:192-197 | same sites, `n = 2`, `r = 150`: every pair covers 50 and the search returns `(0, 1)` |
| `TopN.SortDescSorted` | geopandas_demo2.py:101 | the descending sort yields a non-increasing sequence |
| `TopN.SortDescPermutes` | geopandas_demo2.py:101 | the descending sort is a permutation of the column |
| `TopN.SortDescCounts` | geopandas_demo2.py:101 | sorting keeps the number of values at or above, and strictly above, any threshold |
| `TopN.SortedRank` | geopandas_demo2.py:105 | in a descending sequence the k-th entry has at most k entries above it and at least k+1 at or above it |
| `TopN.NthLargestRank` | geopandas_demo2.py:105 | the threshold read from the sorted list is a value of the column with at most k values strictly above it and at least k+1 at or above it |
| `TopN.TopN` | geopandas_demo2.py:100-105 | raises (None) iff `n - 1` is out of range for the list; otherwise keeps exactly the rows whose value is at least the threshold, at least `n` of them when `n >= 1`, and every kept value is strictly greater than every dropped value |
| `TopN.TopThree` | geopandas_demo2.py:204-209 | the filter run after the search, with `n = 3`: raises iff there are fewer than 3 rows; otherwise returns each kept row once, in increasing order and in range, keeps at least 3 rows, and keeps exactly those at or above the third-largest value |

## Left out

- Reading the GeoJSON and CSV files, dropping the county row and merging dataframes (geopandas_demo2.py:56-72, 124-141): file I/O and library calls.
- Coordinate reprojection, centroid computation and `.distance` (geopandas_demo2.py:144-153, 178). This is foreign floating-point geometry, so the distance rows are taken from a given matrix `D`. The source recomputes each chosen facility's row inside the search; reading it from `D` gives the same values.
- Floating-point demand and distances: both are integers here, so rounding in `need += float(...)` is not modelled.
- The weighted-need column (geopandas_demo2.py:83-88), all plotting, annotation and buffer sizing (geopandas_demo2.py:108-114, 204-260 apart from the filter), and `print` diagnostics (geopandas_demo2.py:63, 69, 149-153, 199).
- The use of `bestloc` for plotting after the search (geopandas_demo2.py:222-223) is not part of this model. There, `list(bestloc)` raises a TypeError when `n > 0` and the search found no solution, for example when `n > m`. With fewer than 3 rows the filter at geopandas_demo2.py:209 raises an IndexError first (`TopN.TopThree` returns `None` there).
- Mclp.Solve: takes `n` as a natural number. In the source a negative `n` makes `combinations(range(m), n)` raise a ValueError (geopandas_demo2.py:172); the type excludes that input, so the model has no such error path. `Mclp.Optimum` and `Combinations.Combos` take a natural `n` for the same reason.
- `combinations` is a lazy generator in the source. `Solve` walks the fully built sequence `Combos(0, m, n)` in the same order.
- Coverage.Evaluate: keys the coverage map by site index. The source keys it by the part of the site name before the first comma, so two sites with the same prefix would share one entry there. The source also stores the raw column cell `gdf[colname][j]` in the map (geopandas_demo2.py:187), while `need` adds `float(...)` of it (geopandas_demo2.py:186). The model stores the integer `demand[j]` in both places.
- TopN.TopN: returns the kept rows as ascending row indices. The source keeps them in sorted (descending value) order, and the order among equal values depends on the dataframe sort. The set of kept rows is the same.
- TopN.TopThree: same row-order difference as `TopN.TopN`. This is also the call site that reads the column `mclp1` never converts to a number (geopandas_demo2.py:205-209). If that column holds text, the source's sort and its `>=` compare strings, so for example "9" ranks above "10". The model compares integers.
- TopN.TopN: compares integers. The source compares whatever the dataframe column holds, and in `mclp1` that column is not converted to a number before the sort at geopandas_demo2.py:205.
