/**
  Coverage of demand points by a set of chosen facility sites.

  Sites are numbered 0 .. m-1. `D` is the m x m distance relation between them
  (row i holds the distances from site i), `r` the coverage radius and `demand[j]`
  the need at site j. A site is covered when at least one chosen facility lies
  within `r` of it; its demand then counts once, however many facilities reach it.
 */
module Coverage {

  /** `D` is an m x m matrix and `demand` has one entry per site. */
  predicate WellFormed(D: seq<seq<int>>, demand: seq<int>) {
    |demand| == |D| && forall i :: 0 <= i < |D| ==> |D[i]| == |D|
  }

  /** Every chosen facility is a site index. */
  predicate ValidLocs(D: seq<seq<int>>, locs: seq<nat>) {
    forall k :: 0 <= k < |locs| ==> locs[k] < |D|
  }

  /** Site `j` lies within `r` of some chosen facility. */
  predicate Covered(D: seq<seq<int>>, r: int, locs: seq<nat>, j: nat)
    requires ValidLocs(D, locs) && forall i :: 0 <= i < |D| ==> |D[i]| == |D|
    requires j < |D|
  {
    exists k :: 0 <= k < |locs| && D[locs[k]][j] <= r
  }

  /** Demand covered among the sites 0 .. upto-1, each counted at most once. */
  function CoverSum(D: seq<seq<int>>, r: int, demand: seq<int>, locs: seq<nat>, upto: nat): int
    requires WellFormed(D, demand) && ValidLocs(D, locs) && upto <= |D|
  {
    if upto == 0 then 0
    else CoverSum(D, r, demand, locs, upto - 1) + (if Covered(D, r, locs, upto - 1) then demand[upto - 1] else 0)
  }

  /** Total demand covered by the facilities `locs`. */
  function Total(D: seq<seq<int>>, r: int, demand: seq<int>, locs: seq<nat>): int
    requires WellFormed(D, demand) && ValidLocs(D, locs)
  {
    CoverSum(D, r, demand, locs, |D|)
  }

  /** The covered sites among 0 .. upto-1, each mapped to its demand. */
  function CoverMap(D: seq<seq<int>>, r: int, demand: seq<int>, locs: seq<nat>, upto: nat): map<nat, int>
    requires WellFormed(D, demand) && ValidLocs(D, locs) && upto <= |D|
  {
    map j: nat | j < upto && Covered(D, r, locs, j) :: demand[j]
  }

  /** The distance rows of the chosen facilities, in the order of `locs`. */
  function Rows(D: seq<seq<int>>, locs: seq<nat>): seq<seq<int>>
    requires ValidLocs(D, locs)
  {
    seq(|locs|, k requires 0 <= k < |locs| => D[locs[k]])
  }

  /**
    Evaluates one candidate set of facilities: collects the distance row of each
    chosen facility, then for every site scans the facilities until the first one
    within `r` and, on that hit, adds the site's demand and records the site.
   */
  method Evaluate(D: seq<seq<int>>, r: int, demand: seq<int>, locs: seq<nat>)
    returns (need: int, covered: map<nat, int>, dists: seq<seq<int>>)
    requires WellFormed(D, demand) && ValidLocs(D, locs)
    ensures |dists| == |locs| && forall k :: 0 <= k < |locs| ==> dists[k] == D[locs[k]]
    ensures covered.Keys == set j: nat | j < |D| && Covered(D, r, locs, j)
    ensures forall j :: j in covered ==> covered[j] == demand[j]
    ensures need == Total(D, r, demand, locs)
  {
    need := 0;
    covered := map[];
    dists := [];
    for q := 0 to |locs|
      invariant dists == Rows(D, locs[..q])
    {
      dists := dists + [D[locs[q]]];
    }
    assert locs[..|locs|] == locs;
    assert forall k :: 0 <= k < |locs| ==> dists[k] == D[locs[k]];
    for j := 0 to |D|
      invariant need == CoverSum(D, r, demand, locs, j)
      invariant covered == CoverMap(D, r, demand, locs, j)
    {
      var k := 0;
      while k < |locs|
        invariant k <= |locs|
        invariant forall k' :: 0 <= k' < k ==> dists[k'][j] > r
      {
        if dists[k][j] <= r {
          assert Covered(D, r, locs, j);
          assert CoverMap(D, r, demand, locs, j + 1) == covered[j := demand[j]];
          need := need + demand[j];
          covered := covered[j := demand[j]];
          break;
        }
        k := k + 1;
      }
      if k == |locs| {
        assert CoverMap(D, r, demand, locs, j + 1) == covered;
      }
    }
  }

  /** The sites within `r` of the single facility `i`. */
  function Within(D: seq<seq<int>>, r: int, i: nat): set<nat>
    requires i < |D| && |D[i]| == |D|
  {
    set j: nat | j < |D| && D[i][j] <= r
  }

  /** The union, over the chosen facilities, of the sites each one reaches. */
  function Reach(D: seq<seq<int>>, r: int, locs: seq<nat>): set<nat>
    requires ValidLocs(D, locs) && forall i :: 0 <= i < |D| ==> |D[i]| == |D|
  {
    if locs == [] then {} else Within(D, r, locs[0]) + Reach(D, r, locs[1..])
  }

  /**
    Union semantics: the first-hit scan marks exactly the sites in the union of the
    per-facility coverage sets, so stopping at the first hit and scanning every
    facility agree.
   */
  lemma {:induction false} CoveredIsUnion(D: seq<seq<int>>, r: int, locs: seq<nat>, j: nat)
    requires ValidLocs(D, locs) && forall i :: 0 <= i < |D| ==> |D[i]| == |D|
    requires j < |D|
    ensures Covered(D, r, locs, j) <==> j in Reach(D, r, locs)
    decreases |locs|
  {
    if locs != [] {
      var rest := locs[1..];
      CoveredIsUnion(D, r, rest, j);
      if Covered(D, r, locs, j) {
        var k :| 0 <= k < |locs| && D[locs[k]][j] <= r;
        if k > 0 {
          assert rest[k - 1] == locs[k];
        }
      }
      if Covered(D, r, rest, j) {
        var k :| 0 <= k < |rest| && D[rest[k]][j] <= r;
        assert locs[k + 1] == rest[k];
      }
      if j in Within(D, r, locs[0]) {
        assert D[locs[0]][j] <= r;
      }
    }
  }

  /** The evaluator's covered sites are exactly the union of what each facility reaches. */
  lemma CoverMapIsUnion(D: seq<seq<int>>, r: int, demand: seq<int>, locs: seq<nat>)
    requires WellFormed(D, demand) && ValidLocs(D, locs)
    ensures CoverMap(D, r, demand, locs, |D|).Keys == Reach(D, r, locs)
  {
    forall j: nat | j < |D| {
      CoveredIsUnion(D, r, locs, j);
    }
    forall j | j in Reach(D, r, locs) ensures j < |D| {
      ReachInRange(D, r, locs, j);
    }
  }

  lemma {:induction false} ReachInRange(D: seq<seq<int>>, r: int, locs: seq<nat>, j: nat)
    requires ValidLocs(D, locs) && forall i :: 0 <= i < |D| ==> |D[i]| == |D|
    requires j in Reach(D, r, locs)
    ensures j < |D|
    decreases |locs|
  {
    if j !in Within(D, r, locs[0]) {
      ReachInRange(D, r, locs[1..], j);
    }
  }

  /** Sum over sites 0 .. upto-1 of the values a coverage map records. */
  function MapTotal(covered: map<nat, int>, upto: nat): int {
    if upto == 0 then 0
    else MapTotal(covered, upto - 1) + (if upto - 1 in covered then covered[upto - 1] else 0)
  }

  /**
    The covered total is the sum of the demands recorded in the coverage map:
    no covered site is missed and none is counted twice.
   */
  lemma {:induction false} TotalMatchesMap(D: seq<seq<int>>, r: int, demand: seq<int>, locs: seq<nat>, upto: nat)
    requires WellFormed(D, demand) && ValidLocs(D, locs) && upto <= |D|
    ensures CoverSum(D, r, demand, locs, upto) == MapTotal(CoverMap(D, r, demand, locs, |D|), upto)
  {
    if upto > 0 {
      TotalMatchesMap(D, r, demand, locs, upto - 1);
    }
  }

  /**
    Pointwise comparison of coverage: if every site covered under (r, locs) is also
    covered under (r', locs') and no demand is negative, the covered total cannot drop.
   */
  lemma {:induction false} CoverSumMonotone(D: seq<seq<int>>, demand: seq<int>, r: int, locs: seq<nat>, r': int, locs': seq<nat>, upto: nat)
    requires WellFormed(D, demand) && ValidLocs(D, locs) && ValidLocs(D, locs') && upto <= |D|
    requires forall j :: 0 <= j < |demand| ==> demand[j] >= 0
    requires forall j: nat :: j < upto && Covered(D, r, locs, j) ==> Covered(D, r', locs', j)
    ensures CoverSum(D, r, demand, locs, upto) <= CoverSum(D, r', demand, locs', upto)
  {
    if upto > 0 {
      CoverSumMonotone(D, demand, r, locs, r', locs', upto - 1);
    }
  }

  /** Coverage depends on the set of chosen facilities only, not on their order. */
  lemma {:induction false} CoverageOrderFree(D: seq<seq<int>>, r: int, demand: seq<int>, locs: seq<nat>, locs': seq<nat>, upto: nat)
    requires WellFormed(D, demand) && ValidLocs(D, locs) && ValidLocs(D, locs') && upto <= |D|
    requires forall i :: i in locs <==> i in locs'
    ensures CoverSum(D, r, demand, locs, upto) == CoverSum(D, r, demand, locs', upto)
    ensures CoverMap(D, r, demand, locs, upto) == CoverMap(D, r, demand, locs', upto)
  {
    forall j: nat | j < |D| ensures Covered(D, r, locs, j) <==> Covered(D, r, locs', j) {
      SubsetCovers(D, r, locs, locs', j);
      SubsetCovers(D, r, locs', locs, j);
    }
    if upto > 0 {
      CoverageOrderFree(D, r, demand, locs, locs', upto - 1);
    }
  }

  /** A site covered by some facilities stays covered when facilities are added. */
  lemma SubsetCovers(D: seq<seq<int>>, r: int, locs: seq<nat>, locs': seq<nat>, j: nat)
    requires ValidLocs(D, locs) && ValidLocs(D, locs') && forall i :: 0 <= i < |D| ==> |D[i]| == |D|
    requires j < |D|
    requires forall i :: i in locs ==> i in locs'
    ensures Covered(D, r, locs, j) ==> Covered(D, r, locs', j)
  {
    if Covered(D, r, locs, j) {
      var k :| 0 <= k < |locs| && D[locs[k]][j] <= r;
      assert locs[k] in locs';
      var k' :| 0 <= k' < |locs'| && locs'[k'] == locs[k];
    }
  }

  /** Adding facilities never lowers the covered total when demand is non-negative. */
  lemma MoreFacilitiesCoverMore(D: seq<seq<int>>, r: int, demand: seq<int>, locs: seq<nat>, locs': seq<nat>)
    requires WellFormed(D, demand) && ValidLocs(D, locs) && ValidLocs(D, locs')
    requires forall j :: 0 <= j < |demand| ==> demand[j] >= 0
    requires forall i :: i in locs ==> i in locs'
    ensures Total(D, r, demand, locs) <= Total(D, r, demand, locs')
  {
    forall j: nat | j < |D| ensures Covered(D, r, locs, j) ==> Covered(D, r, locs', j) {
      SubsetCovers(D, r, locs, locs', j);
    }
    CoverSumMonotone(D, demand, r, locs, r, locs', |D|);
  }

  /** A larger radius never lowers the covered total when demand is non-negative. */
  lemma LargerRadiusCoversMore(D: seq<seq<int>>, demand: seq<int>, locs: seq<nat>, r: int, r': int)
    requires WellFormed(D, demand) && ValidLocs(D, locs)
    requires forall j :: 0 <= j < |demand| ==> demand[j] >= 0
    requires r <= r'
    ensures Total(D, r, demand, locs) <= Total(D, r', demand, locs)
  {
    forall j: nat | j < |D| ensures Covered(D, r, locs, j) ==> Covered(D, r', locs, j) {
      if Covered(D, r, locs, j) {
        var k :| 0 <= k < |locs| && D[locs[k]][j] <= r;
        assert D[locs[k]][j] <= r';
      }
    }
    CoverSumMonotone(D, demand, r, locs, r', locs, |D|);
  }

  /** With no facility chosen, nothing is covered. */
  lemma {:induction false} NoFacilitiesCoverNothing(D: seq<seq<int>>, r: int, demand: seq<int>, upto: nat)
    requires WellFormed(D, demand) && upto <= |D|
    ensures CoverSum(D, r, demand, [], upto) == 0
    ensures CoverMap(D, r, demand, [], upto) == map[]
  {
    if upto > 0 {
      NoFacilitiesCoverNothing(D, r, demand, upto - 1);
    }
  }

  /** With zero demand everywhere, the covered total is zero. */
  lemma {:induction false} ZeroDemandCoversNothing(D: seq<seq<int>>, r: int, demand: seq<int>, locs: seq<nat>, upto: nat)
    requires WellFormed(D, demand) && ValidLocs(D, locs) && upto <= |D|
    requires forall j :: 0 <= j < |demand| ==> demand[j] == 0
    ensures CoverSum(D, r, demand, locs, upto) == 0
  {
    if upto > 0 {
      ZeroDemandCoversNothing(D, r, demand, locs, upto - 1);
    }
  }
}
