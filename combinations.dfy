/**
  The enumeration `combinations(range(m), n)` that drives the facility search:
  every n-element subset of {0, ..., m-1}, each written as a sorted index tuple,
  in lexicographic order.
 */
module Combinations {

  /** A sorted tuple without repeated indices. */
  predicate Increasing(c: seq<nat>) {
    forall a, b :: 0 <= a < b < |c| ==> c[a] < c[b]
  }

  /** `c` is an n-combination of {lo, ..., m-1}, written as a sorted tuple. */
  predicate IsCombination(c: seq<nat>, lo: nat, m: nat, n: nat) {
    |c| == n && Increasing(c) && forall k :: 0 <= k < |c| ==> lo <= c[k] < m
  }

  /** Strict lexicographic order on index tuples. */
  predicate LexLess(a: seq<nat>, b: seq<nat>) {
    |a| > 0 && |b| > 0 && (a[0] < b[0] || (a[0] == b[0] && LexLess(a[1..], b[1..])))
  }

  /** Puts `x` in front of every tuple of `cs`. */
  function Prepend(x: nat, cs: seq<seq<nat>>): seq<seq<nat>> {
    seq(|cs|, i requires 0 <= i < |cs| => [x] + cs[i])
  }

  /**
    All n-combinations of {lo, ..., m-1}, in the order the standard generator yields
    them: first those that start with `lo`, then those that do not.
   */
  function Combos(lo: nat, m: nat, n: nat): seq<seq<nat>>
    decreases m - lo, n
  {
    if n == 0 then [[]]
    else if lo >= m then []
    else Prepend(lo, Combos(lo + 1, m, n - 1)) + Combos(lo + 1, m, n)
  }

  /** Number of n-subsets of a k-set (Pascal's rule). */
  function Choose(k: nat, n: nat): nat {
    if n == 0 then 1
    else if k == 0 then 0
    else Choose(k - 1, n - 1) + Choose(k - 1, n)
  }

  /** Every tuple the enumeration yields is an n-combination of {lo, ..., m-1}. */
  lemma {:induction false} CombosSound(lo: nat, m: nat, n: nat)
    ensures forall i :: 0 <= i < |Combos(lo, m, n)| ==> IsCombination(Combos(lo, m, n)[i], lo, m, n)
    decreases m - lo, n
  {
    if n == 0 || lo >= m {
    } else {
      CombosSound(lo + 1, m, n - 1);
      CombosSound(lo + 1, m, n);
      var p, q := Combos(lo + 1, m, n - 1), Combos(lo + 1, m, n);
      var cs := Combos(lo, m, n);
      assert cs == Prepend(lo, p) + q;
      forall i | 0 <= i < |cs| ensures IsCombination(cs[i], lo, m, n) {
        if i < |p| {
          var c := [lo] + p[i];
          assert cs[i] == c;
          assert forall k :: 1 <= k < |c| ==> c[k] == p[i][k - 1];
        } else {
          assert cs[i] == q[i - |p|];
        }
      }
    }
  }

  /** The only 0-combination is the empty tuple. */
  lemma EmptyIsOnlyZeroCombination(c: seq<nat>, lo: nat, m: nat)
    requires IsCombination(c, lo, m, 0)
    ensures c in Combos(lo, m, 0)
  {
    assert c == [];
    assert Combos(lo, m, 0) == [[]];
  }

  /** Dropping the leading `lo` leaves a combination of the remaining range. */
  lemma TailIsCombination(c: seq<nat>, lo: nat, m: nat, n: nat)
    requires IsCombination(c, lo, m, n) && n > 0 && c[0] == lo
    ensures IsCombination(c[1..], lo + 1, m, n - 1)
  {
    assert forall k :: 0 <= k < n - 1 ==> c[1..][k] == c[k + 1] && c[0] < c[k + 1];
  }

  /** A combination that does not start with `lo` avoids `lo` altogether. */
  lemma SkipIsCombination(c: seq<nat>, lo: nat, m: nat, n: nat)
    requires IsCombination(c, lo, m, n) && n > 0 && c[0] != lo
    ensures IsCombination(c, lo + 1, m, n)
  {
    assert forall k :: 0 < k < n ==> c[0] < c[k];
  }

  /** The first part of the enumeration is `lo` followed by each (n-1)-combination of the rest. */
  lemma PrependedIsListed(rest: seq<nat>, lo: nat, m: nat, n: nat)
    requires 0 < n && lo < m && rest in Combos(lo + 1, m, n - 1)
    ensures [lo] + rest in Combos(lo, m, n)
  {
    var p := Combos(lo + 1, m, n - 1);
    var i :| 0 <= i < |p| && p[i] == rest;
    assert Combos(lo, m, n)[i] == Prepend(lo, p)[i];
  }

  /** The second part of the enumeration lists the n-combinations that avoid `lo`. */
  lemma SkippedIsListed(c: seq<nat>, lo: nat, m: nat, n: nat)
    requires 0 < n && lo < m && c in Combos(lo + 1, m, n)
    ensures c in Combos(lo, m, n)
  {
    var p, q := Combos(lo + 1, m, n - 1), Combos(lo + 1, m, n);
    var i :| 0 <= i < |q| && q[i] == c;
    assert Combos(lo, m, n)[|p| + i] == q[i];
  }

  /** A combination starting with `lo` appears in the first part of the enumeration. */
  lemma {:induction false} InFirstPart(c: seq<nat>, lo: nat, m: nat, n: nat)
    requires IsCombination(c, lo, m, n) && n > 0 && c[0] == lo
    ensures c in Combos(lo, m, n)
    decreases m - lo, n, 0
  {
    TailIsCombination(c, lo, m, n);
    CombosComplete(c[1..], lo + 1, m, n - 1);
    PrependedIsListed(c[1..], lo, m, n);
    assert c == [lo] + c[1..];
  }

  /** A combination not starting with `lo` appears in the second part of the enumeration. */
  lemma {:induction false} InSecondPart(c: seq<nat>, lo: nat, m: nat, n: nat)
    requires IsCombination(c, lo, m, n) && n > 0 && c[0] != lo
    ensures c in Combos(lo, m, n)
    decreases m - lo, n, 0
  {
    SkipIsCombination(c, lo, m, n);
    CombosComplete(c, lo + 1, m, n);
    SkippedIsListed(c, lo, m, n);
  }

  /** Every n-combination of {lo, ..., m-1} is yielded. */
  lemma {:induction false} CombosComplete(c: seq<nat>, lo: nat, m: nat, n: nat)
    requires IsCombination(c, lo, m, n)
    ensures c in Combos(lo, m, n)
    decreases m - lo, n, 1
  {
    if n == 0 {
      EmptyIsOnlyZeroCombination(c, lo, m);
    } else if c[0] == lo {
      InFirstPart(c, lo, m, n);
    } else {
      InSecondPart(c, lo, m, n);
    }
  }

  /** One instance of the lexicographic ordering of the enumeration. */
  lemma CombosLexBefore(lo: nat, m: nat, n: nat, i: nat, j: nat)
    requires i < j < |Combos(lo, m, n)|
    ensures LexLess(Combos(lo, m, n)[i], Combos(lo, m, n)[j])
  {
    CombosLexSorted(lo, m, n);
  }

  /** Asking for more elements than the range holds yields nothing. */
  lemma {:induction false} CombosEmptyWhenTooMany(lo: nat, m: nat, n: nat)
    requires lo <= m && lo + n > m
    ensures Combos(lo, m, n) == []
    decreases m - lo, n
  {
    if lo < m {
      CombosEmptyWhenTooMany(lo + 1, m, n - 1);
      CombosEmptyWhenTooMany(lo + 1, m, n);
    }
  }

  /** The enumeration yields C(m - lo, n) tuples. */
  lemma {:induction false} CombosCount(lo: nat, m: nat, n: nat)
    requires lo <= m
    ensures |Combos(lo, m, n)| == Choose(m - lo, n)
    decreases m - lo, n
  {
    if n != 0 && lo < m {
      CombosCount(lo + 1, m, n - 1);
      CombosCount(lo + 1, m, n);
    }
  }

  lemma {:induction false} LexLessIrreflexive(a: seq<nat>)
    ensures !LexLess(a, a)
    decreases |a|
  {
    if |a| > 0 {
      LexLessIrreflexive(a[1..]);
    }
  }

  lemma PrependLexLess(x: nat, a: seq<nat>, b: seq<nat>)
    requires LexLess(a, b)
    ensures LexLess([x] + a, [x] + b)
  {
    assert ([x] + a)[1..] == a && ([x] + b)[1..] == b;
  }

  /**
    The enumeration is strictly increasing in lexicographic order, so it visits
    no tuple twice and an earlier tuple is always lexicographically smaller.
   */
  lemma {:induction false} CombosLexSorted(lo: nat, m: nat, n: nat)
    ensures forall i, j :: 0 <= i < j < |Combos(lo, m, n)| ==> LexLess(Combos(lo, m, n)[i], Combos(lo, m, n)[j])
    decreases m - lo, n
  {
    if n == 0 || lo >= m {
    } else {
      var p, q := Combos(lo + 1, m, n - 1), Combos(lo + 1, m, n);
      var cs := Combos(lo, m, n);
      assert cs == Prepend(lo, p) + q;
      CombosLexSorted(lo + 1, m, n - 1);
      CombosLexSorted(lo + 1, m, n);
      CombosSound(lo + 1, m, n);
      forall i, j | 0 <= i < j < |cs| ensures LexLess(cs[i], cs[j]) {
        if j < |p| {
          PrependLexLess(lo, p[i], p[j]);
        } else if i < |p| {
          var b := q[j - |p|];
          assert cs[j] == b && IsCombination(b, lo + 1, m, n);
          assert cs[i][0] == lo < b[0];
        } else {
          assert cs[i] == q[i - |p|] && cs[j] == q[j - |p|];
        }
      }
    }
  }

  /** No tuple is visited twice. */
  lemma CombosDistinct(lo: nat, m: nat, n: nat)
    ensures forall i, j :: 0 <= i < j < |Combos(lo, m, n)| ==> Combos(lo, m, n)[i] != Combos(lo, m, n)[j]
  {
    CombosLexSorted(lo, m, n);
    forall i, j | 0 <= i < j < |Combos(lo, m, n)| ensures Combos(lo, m, n)[i] != Combos(lo, m, n)[j] {
      LexLessIrreflexive(Combos(lo, m, n)[i]);
    }
  }
}
