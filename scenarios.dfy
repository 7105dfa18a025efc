/**
  Four sites on a 100 x 100 square, with demands 10, 20, 5 and 15 (distances rounded
  down to whole units). Three configurations: one facility with radius 50, all
  four or five facilities with radius 50, and two facilities with radius 150. The
  two clients of the search show that its contract alone determines the outcome.
 */
module Scenarios {
  import opened Wrappers
  import opened Combinations
  import opened Coverage
  import opened Mclp

  function Square(): seq<seq<int>> {
    [[0, 100, 100, 141],
     [100, 0, 141, 100],
     [100, 141, 0, 100],
     [141, 100, 100, 0]]
  }

  function SquareDemand(): seq<int> {
    [10, 20, 5, 15]
  }

  /** Within 50 of site i there is only site i itself. */
  lemma OnlySelfWithin50(i: nat, j: nat)
    requires i < 4 && j < 4
    ensures Square()[i][j] <= 50 <==> i == j
  {
  }

  /** With radius 50 a single facility covers only its own site. */
  lemma SingleSiteCoverage(i: nat)
    requires i < 4
    ensures Total(Square(), 50, SquareDemand(), [i]) == SquareDemand()[i]
  {
    var D, dem := Square(), SquareDemand();
    forall j: nat | j < 4 ensures Covered(D, 50, [i], j) <==> j == i {
      OnlySelfWithin50(i, j);
      assert [i][0] == i;
    }
    assert CoverSum(D, 50, dem, [i], 1) == (if i == 0 then 10 else 0);
    assert CoverSum(D, 50, dem, [i], 2) == (if i <= 1 then dem[i] else 0);
    assert CoverSum(D, 50, dem, [i], 3) == (if i <= 2 then dem[i] else 0);
    assert CoverSum(D, 50, dem, [i], 4) == dem[i];
  }

  /** With radius 50 the coverage map of a single facility holds only its own site. */
  lemma SingleSiteMap(i: nat)
    requires i < 4
    ensures CoverMap(Square(), 50, SquareDemand(), [i], 4) == map[i := SquareDemand()[i]]
  {
    var D, dem := Square(), SquareDemand();
    forall j: nat | j < 4 ensures Covered(D, 50, [i], j) <==> j == i {
      OnlySelfWithin50(i, j);
      assert [i][0] == i;
    }
  }

  /** Each single facility covers its own demand, and only site 1 reaches 20. */
  lemma SingleFacilityTotal(c: seq<nat>)
    requires IsCombination(c, 0, 4, 1)
    ensures Total(Square(), 50, SquareDemand(), c) <= 20
    ensures Total(Square(), 50, SquareDemand(), c) == 20 ==> c == [1]
  {
    assert c == [c[0]];
    SingleSiteCoverage(c[0]);
  }

  /** With one facility and radius 50 the best choice is site 1 alone, covering 20. */
  lemma OneFacilityOptimum()
    ensures Optimum(Square(), 50, SquareDemand(), 1) == 20
    ensures forall c :: IsCombination(c, 0, 4, 1) && Total(Square(), 50, SquareDemand(), c) == 20 ==> c == [1]
  {
    var D, dem := Square(), SquareDemand();
    OptimumIsBest(D, 50, dem, 1);
    forall c | IsCombination(c, 0, 4, 1)
      ensures Total(D, 50, dem, c) <= 20 && (Total(D, 50, dem, c) == 20 ==> c == [1])
    {
      SingleFacilityTotal(c);
    }
    assert IsCombination([1], 0, 4, 1);
    SingleSiteCoverage(1);
  }

  /**
    Past the number of sites the optimum drops: choosing all four sites covers 50,
    but asking for five enumerates nothing and the optimum falls back to 0.
   */
  lemma CountPastAllSites()
    ensures Optimum(Square(), 50, SquareDemand(), 4) == 50
    ensures Optimum(Square(), 50, SquareDemand(), 5) == 0
  {
    var D, dem := Square(), SquareDemand();
    var all := AllSites(4);
    forall j: nat | j < 4 ensures Covered(D, 50, all, j) {
      assert all[j] == j && D[j][j] == 0;
    }
    assert CoverSum(D, 50, dem, all, 1) == 10;
    assert CoverSum(D, 50, dem, all, 2) == 30;
    assert CoverSum(D, 50, dem, all, 3) == 35;
    assert CoverSum(D, 50, dem, all, 4) == 50;
    FullCoverageCeiling(D, 50, dem);
    TooManyFacilitiesNoSolution(D, 50, dem, 5);
  }

  /** With radius 150 any two facilities cover all four sites, for a total of 50. */
  lemma PairCoversAll(c: seq<nat>)
    requires IsCombination(c, 0, 4, 2)
    ensures Total(Square(), 150, SquareDemand(), c) == 50
  {
    var D, dem := Square(), SquareDemand();
    forall j: nat | j < 4 ensures Covered(D, 150, c, j) {
      assert D[c[0]][j] <= 141;
    }
    assert CoverSum(D, 150, dem, c, 1) == 10;
    assert CoverSum(D, 150, dem, c, 2) == 30;
    assert CoverSum(D, 150, dem, c, 3) == 35;
    assert CoverSum(D, 150, dem, c, 4) == 50;
  }

  /**
    With one facility and radius 50 the search returns site 1 alone, covering 20,
    with the coverage map {1: 20}.
   */
  method OneFacilityScenario() returns (maxneed: int, bestloc: Option<seq<nat>>, bestcovered: map<nat, int>)
    ensures maxneed == 20 && bestloc == Some([1]) && bestcovered == map[1 := 20]
  {
    var D, dem := Square(), SquareDemand();
    var bestdistances;
    maxneed, bestloc, bestcovered, bestdistances := Solve(D, 50, dem, 1);
    OneFacilityOptimum();
    SingleSiteMap(1);
  }

  /** No 2-combination of the four sites comes before (0, 1) in lexicographic order. */
  lemma FirstPair(c: seq<nat>)
    requires IsCombination(c, 0, 4, 2)
    ensures !LexLess(c, [0, 1])
  {
    var t, u := c[1..], [0, 1][1..];
    assert t == [c[1]] && u == [1];
    assert c[0] < c[1];
  }

  /** With two facilities and radius 150 every pair ties, and the search returns (0, 1). */
  method TieBreakScenario() returns (maxneed: int, bestloc: Option<seq<nat>>)
    ensures maxneed == 50 && bestloc == Some([0, 1])
  {
    var D, dem := Square(), SquareDemand();
    var bestcovered, bestdistances;
    maxneed, bestloc, bestcovered, bestdistances := Solve(D, 150, dem, 2);
    assert IsCombination([0, 1], 0, 4, 2);
    PairCoversAll([0, 1]);
    OptimumIsBest(D, 150, dem, 2);
    var best := bestloc.value;
    PairCoversAll(best);
    FirstPair(best);
  }
}
