/**
  Maximal Covering Location search: choose `n` of the `m` sites as facilities so
  that the demand within radius `r` of at least one facility is largest, by
  trying every n-combination in lexicographic order and keeping the first one
  that strictly beats the running best.
 */
module Mclp {
  import opened Wrappers
  import opened Combinations
  import opened Coverage

  /** Every tuple of `cs` names valid sites. */
  predicate AllValid(D: seq<seq<int>>, cs: seq<seq<nat>>) {
    forall i :: 0 <= i < |cs| ==> ValidLocs(D, cs[i])
  }

  /** The best covered total over the candidates `cs`, floored at 0 (the initial best). */
  function MaxCover(D: seq<seq<int>>, r: int, demand: seq<int>, cs: seq<seq<nat>>): int
    requires WellFormed(D, demand) && AllValid(D, cs)
  {
    if cs == [] then 0
    else
      var prev := MaxCover(D, r, demand, cs[..|cs| - 1]);
      var last := Total(D, r, demand, cs[|cs| - 1]);
      if last > prev then last else prev
  }

  /** MaxCover is 0 or attained, and bounds every candidate from above. */
  lemma {:induction false} MaxCoverIsMaximum(D: seq<seq<int>>, r: int, demand: seq<int>, cs: seq<seq<nat>>)
    requires WellFormed(D, demand) && AllValid(D, cs)
    ensures MaxCover(D, r, demand, cs) >= 0
    ensures forall i :: 0 <= i < |cs| ==> Total(D, r, demand, cs[i]) <= MaxCover(D, r, demand, cs)
    ensures MaxCover(D, r, demand, cs) == 0 ||
            exists i :: 0 <= i < |cs| && Total(D, r, demand, cs[i]) == MaxCover(D, r, demand, cs)
  {
    if cs != [] {
      var init := cs[..|cs| - 1];
      MaxCoverIsMaximum(D, r, demand, init);
      assert forall i :: 0 <= i < |init| ==> init[i] == cs[i];
    }
  }

  lemma CombosValid(m: nat, n: nat, D: seq<seq<int>>)
    requires m == |D|
    ensures AllValid(D, Combos(0, m, n))
  {
    CombosSound(0, m, n);
  }

  /** The optimum the search reaches: the best covered total over all n-combinations, or 0. */
  function Optimum(D: seq<seq<int>>, r: int, demand: seq<int>, n: nat): int
    requires WellFormed(D, demand)
  {
    CombosValid(|D|, n, D);
    MaxCover(D, r, demand, Combos(0, |D|, n))
  }

  /**
    The optimum is the largest covered total of any n-combination of the sites,
    floored at 0, and it is attained by a combination whenever it is positive.
   */
  lemma OptimumIsBest(D: seq<seq<int>>, r: int, demand: seq<int>, n: nat)
    requires WellFormed(D, demand)
    ensures Optimum(D, r, demand, n) >= 0
    ensures forall c :: IsCombination(c, 0, |D|, n) ==> Total(D, r, demand, c) <= Optimum(D, r, demand, n)
    ensures Optimum(D, r, demand, n) == 0 ||
            exists c :: IsCombination(c, 0, |D|, n) && Total(D, r, demand, c) == Optimum(D, r, demand, n)
  {
    var cs := Combos(0, |D|, n);
    CombosValid(|D|, n, D);
    CombosSound(0, |D|, n);
    MaxCoverIsMaximum(D, r, demand, cs);
    forall c | IsCombination(c, 0, |D|, n) ensures Total(D, r, demand, c) <= Optimum(D, r, demand, n) {
      CombosComplete(c, 0, |D|, n);
    }
  }

  /**
    A value that is at least 0, bounds every enumerated combination's coverage and
    is 0 or attained is the optimum.
   */
  lemma OptimumCharacterized(D: seq<seq<int>>, r: int, demand: seq<int>, n: nat, x: int)
    requires WellFormed(D, demand)
    requires AllValid(D, Combos(0, |D|, n))
    requires x >= 0
    requires forall i :: 0 <= i < |Combos(0, |D|, n)| ==> Total(D, r, demand, Combos(0, |D|, n)[i]) <= x
    requires x == 0 || exists i :: 0 <= i < |Combos(0, |D|, n)| && Total(D, r, demand, Combos(0, |D|, n)[i]) == x
    ensures x == Optimum(D, r, demand, n)
  {
    OptimumIsBest(D, r, demand, n);
    CombosSound(0, |D|, n);
    if Optimum(D, r, demand, n) != 0 {
      var c :| IsCombination(c, 0, |D|, n) && Total(D, r, demand, c) == Optimum(D, r, demand, n);
      CombosComplete(c, 0, |D|, n);
    }
  }

  /**
    Tie-break: when no earlier combination in the enumeration reaches the coverage
    of the one at `idx`, every other combination with that coverage comes later in
    lexicographic order.
   */
  lemma FirstMaximizerIsLexLeast(D: seq<seq<int>>, r: int, demand: seq<int>, n: nat, idx: nat)
    requires WellFormed(D, demand)
    requires AllValid(D, Combos(0, |D|, n))
    requires idx < |Combos(0, |D|, n)|
    requires forall i :: 0 <= i < idx ==>
      Total(D, r, demand, Combos(0, |D|, n)[i]) < Total(D, r, demand, Combos(0, |D|, n)[idx])
    ensures forall c :: IsCombination(c, 0, |D|, n) && Total(D, r, demand, c) == Total(D, r, demand, Combos(0, |D|, n)[idx]) ==>
      c == Combos(0, |D|, n)[idx] || LexLess(Combos(0, |D|, n)[idx], c)
  {
    var combos := Combos(0, |D|, n);
    forall c | IsCombination(c, 0, |D|, n) && Total(D, r, demand, c) == Total(D, r, demand, combos[idx])
      ensures c == combos[idx] || LexLess(combos[idx], c)
    {
      CombosComplete(c, 0, |D|, n);
      var j :| 0 <= j < |combos| && combos[j] == c;
      if j != idx {
        assert j > idx;
        CombosLexBefore(0, |D|, n, idx, j);
      }
    }
  }

  /**
    The search. For each combination in enumeration order it evaluates the covered
    demand and replaces the incumbent only on strict improvement, so the result is
    the lexicographically first combination of largest positive coverage, or `None`
    with `maxneed == 0` when no combination covers more than 0.
   */
  method Solve(D: seq<seq<int>>, r: int, demand: seq<int>, n: nat)
    returns (maxneed: int, bestloc: Option<seq<nat>>, bestcovered: map<nat, int>, bestdistances: seq<seq<int>>)
    requires WellFormed(D, demand)
    ensures maxneed == Optimum(D, r, demand, n)
    ensures bestloc.None? <==> maxneed == 0
    ensures bestloc.None? ==> bestcovered == map[] && bestdistances == []
    ensures bestloc.Some? ==>
      && IsCombination(bestloc.value, 0, |D|, n)
      && Total(D, r, demand, bestloc.value) == maxneed
      && bestcovered == CoverMap(D, r, demand, bestloc.value, |D|)
      && bestdistances == Rows(D, bestloc.value)
    ensures bestloc.Some? ==>
      forall c :: IsCombination(c, 0, |D|, n) && Total(D, r, demand, c) == maxneed ==>
        c == bestloc.value || LexLess(bestloc.value, c)
  {
    var combos := Combos(0, |D|, n);
    CombosValid(|D|, n, D);
    maxneed := 0;
    bestloc := None;
    bestcovered := map[];
    bestdistances := [];
    ghost var bestIdx := 0;
    for i := 0 to |combos|
      invariant maxneed >= 0
      invariant forall i' :: 0 <= i' < i ==> Total(D, r, demand, combos[i']) <= maxneed
      invariant bestloc.None? <==> maxneed == 0
      invariant bestloc.None? ==> bestcovered == map[] && bestdistances == []
      invariant bestloc.Some? ==>
        && bestIdx < i && bestloc.value == combos[bestIdx]
        && Total(D, r, demand, combos[bestIdx]) == maxneed
        && bestcovered == CoverMap(D, r, demand, bestloc.value, |D|)
        && bestdistances == Rows(D, bestloc.value)
        && forall i' :: 0 <= i' < bestIdx ==> Total(D, r, demand, combos[i']) < maxneed
    {
      var locs := combos[i];
      var need, covered, dists := Evaluate(D, r, demand, locs);
      if need > maxneed {
        maxneed := need;
        bestloc := Some(locs);
        bestcovered := covered;
        bestdistances := dists;
        bestIdx := i;
      }
    }
    OptimumCharacterized(D, r, demand, n, maxneed);
    if bestloc.Some? {
      CombosSound(0, |D|, n);
      FirstMaximizerIsLexLeast(D, r, demand, n, bestIdx);
    }
  }

  /** Choosing no facility never beats the initial best, so the search reports no solution. */
  lemma NoFacilitiesNoSolution(D: seq<seq<int>>, r: int, demand: seq<int>)
    requires WellFormed(D, demand)
    ensures Optimum(D, r, demand, 0) == 0
  {
    OptimumIsBest(D, r, demand, 0);
    NoFacilitiesCoverNothing(D, r, demand, |D|);
  }

  /** Asking for more facilities than sites leaves nothing to enumerate, so no solution. */
  lemma TooManyFacilitiesNoSolution(D: seq<seq<int>>, r: int, demand: seq<int>, n: nat)
    requires WellFormed(D, demand) && n > |D|
    ensures Optimum(D, r, demand, n) == 0
  {
    CombosEmptyWhenTooMany(0, |D|, n);
  }

  /** With zero demand at every site no combination improves on 0, so no solution. */
  lemma ZeroDemandNoSolution(D: seq<seq<int>>, r: int, demand: seq<int>, n: nat)
    requires WellFormed(D, demand)
    requires forall j :: 0 <= j < |demand| ==> demand[j] == 0
    ensures Optimum(D, r, demand, n) == 0
  {
    OptimumIsBest(D, r, demand, n);
    if Optimum(D, r, demand, n) != 0 {
      var c :| IsCombination(c, 0, |D|, n) && Total(D, r, demand, c) == Optimum(D, r, demand, n);
      ZeroDemandCoversNothing(D, r, demand, c, |D|);
    }
  }

  /** For a fixed number of facilities, a larger radius never lowers the optimum. */
  lemma OptimumMonotoneInRadius(D: seq<seq<int>>, demand: seq<int>, n: nat, r: int, r': int)
    requires WellFormed(D, demand)
    requires forall j :: 0 <= j < |demand| ==> demand[j] >= 0
    requires r <= r'
    ensures Optimum(D, r, demand, n) <= Optimum(D, r', demand, n)
  {
    OptimumIsBest(D, r, demand, n);
    OptimumIsBest(D, r', demand, n);
    if Optimum(D, r, demand, n) != 0 {
      var c :| IsCombination(c, 0, |D|, n) && Total(D, r, demand, c) == Optimum(D, r, demand, n);
      LargerRadiusCoversMore(D, demand, c, r, r');
    }
  }

  /** Each entry of a sorted tuple of distinct indices is at least its position. */
  lemma {:induction false} EntryAtLeastPosition(c: seq<nat>, i: nat)
    requires Increasing(c) && i < |c|
    ensures c[i] >= i
  {
    if i > 0 {
      EntryAtLeastPosition(c, i - 1);
    }
  }

  /** The smallest site missing from a sorted tuple of n < m distinct sites. */
  lemma FirstGap(c: seq<nat>, m: nat, n: nat) returns (k: nat)
    requires IsCombination(c, 0, m, n) && n < m
    ensures k <= n
    ensures forall i :: 0 <= i < k ==> c[i] == i
    ensures forall i :: k <= i < n ==> c[i] > k
  {
    k := 0;
    while k < n && c[k] == k
      invariant k <= n
      invariant forall i :: 0 <= i < k ==> c[i] == i
    {
      k := k + 1;
    }
    if k < n {
      EntryAtLeastPosition(c, k);
      assert forall i :: k < i < n ==> c[k] < c[i];
    }
  }

  /**
    With fewer facilities than sites, some site is unchosen: adding it gives an
    (n+1)-combination that contains every facility of `c`.
   */
  lemma ExtendCombination(c: seq<nat>, m: nat, n: nat) returns (c': seq<nat>)
    requires IsCombination(c, 0, m, n) && n < m
    ensures IsCombination(c', 0, m, n + 1)
    ensures forall i :: i in c ==> i in c'
  {
    var k := FirstGap(c, m, n);
    c' := c[..k] + [k] + c[k..];
    assert |c'| == n + 1;
    assert forall i :: 0 <= i < k ==> c'[i] == i;
    assert c'[k] == k;
    assert forall i :: k < i <= n ==> c'[i] == c[i - 1];
    forall a, b | 0 <= a < b < |c'| ensures c'[a] < c'[b] {
      if b <= k {
      } else if a <= k {
        assert c'[b] == c[b - 1] > k;
      } else {
        assert c'[a] == c[a - 1] && c'[b] == c[b - 1];
      }
    }
    forall x | x in c ensures x in c' {
      var j :| 0 <= j < |c| && c[j] == x;
      if j < k {
        assert c'[j] == x;
      } else {
        assert c'[j + 1] == x;
      }
    }
  }

  /**
    For a fixed radius and non-negative demand, allowing one more facility never
    lowers the optimum.
   */
  lemma OptimumMonotoneInCount(D: seq<seq<int>>, r: int, demand: seq<int>, n: nat)
    requires WellFormed(D, demand) && n < |D|
    requires forall j :: 0 <= j < |demand| ==> demand[j] >= 0
    ensures Optimum(D, r, demand, n) <= Optimum(D, r, demand, n + 1)
  {
    OptimumIsBest(D, r, demand, n);
    OptimumIsBest(D, r, demand, n + 1);
    if Optimum(D, r, demand, n) != 0 {
      var c :| IsCombination(c, 0, |D|, n) && Total(D, r, demand, c) == Optimum(D, r, demand, n);
      var c' := ExtendCombination(c, |D|, n);
      MoreFacilitiesCoverMore(D, r, demand, c, c');
    }
  }

  /** All sites 0 .. m-1, in order. */
  function AllSites(m: nat): (c: seq<nat>)
    ensures IsCombination(c, 0, m, m)
  {
    seq(m, i requires 0 <= i < m => i)
  }

  lemma {:induction false} ChooseAll(k: nat)
    ensures Choose(k, k) == 1
  {
    if k > 0 {
      ChooseAll(k - 1);
      ChooseNone(k - 1, k);
    }
  }

  lemma {:induction false} ChooseNone(k: nat, n: nat)
    requires n > k
    ensures Choose(k, n) == 0
  {
    if k > 0 {
      ChooseNone(k - 1, n - 1);
      ChooseNone(k - 1, n);
    }
  }

  /**
    Full coverage ceiling: choosing every site is the only combination of size m,
    so the optimum for n = m is the demand within r of any site (floored at 0).
   */
  lemma FullCoverageCeiling(D: seq<seq<int>>, r: int, demand: seq<int>)
    requires WellFormed(D, demand)
    ensures Optimum(D, r, demand, |D|) == if Total(D, r, demand, AllSites(|D|)) > 0 then Total(D, r, demand, AllSites(|D|)) else 0
  {
    var cs := Combos(0, |D|, |D|);
    CombosCount(0, |D|, |D|);
    ChooseAll(|D|);
    CombosComplete(AllSites(|D|), 0, |D|, |D|);
    assert cs == [AllSites(|D|)];
    assert cs[..0] == [];
    assert Optimum(D, r, demand, |D|) == MaxCover(D, r, demand, cs);
  }
}
