/**
  The "top n with ties" row filter: sort the values in descending order, read the
  n-th largest with Python list indexing, and keep every row whose value is at
  least that threshold.
 */
module TopN {
  import opened Wrappers
  import opened Combinations

  predicate SortedDesc(s: seq<int>) {
    forall a, b :: 0 <= a < b < |s| ==> s[a] >= s[b]
  }

  /** Inserts `x` into a descending sequence before the first smaller element. */
  function Insert(x: int, s: seq<int>): seq<int> {
    if s == [] || x >= s[0] then [x] + s else [s[0]] + Insert(x, s[1..])
  }

  /** The values in descending order (the dataframe sort). */
  function SortDesc(s: seq<int>): seq<int> {
    if s == [] then [] else Insert(s[0], SortDesc(s[1..]))
  }

  /** Number of entries of `s` that are at least `t`. */
  function CountAtLeast(s: seq<int>, t: int): nat {
    if s == [] then 0 else (if s[0] >= t then 1 else 0) + CountAtLeast(s[1..], t)
  }

  /** Number of entries of `s` that are strictly above `t`. */
  function CountAbove(s: seq<int>, t: int): nat {
    if s == [] then 0 else (if s[0] > t then 1 else 0) + CountAbove(s[1..], t)
  }

  /** Inserting adds exactly one occurrence of `x`. */
  lemma {:induction false} InsertPermutes(x: int, s: seq<int>)
    ensures multiset(Insert(x, s)) == multiset(s) + multiset{x}
    ensures |Insert(x, s)| == |s| + 1
  {
    if s != [] && x < s[0] {
      InsertPermutes(x, s[1..]);
      assert s == [s[0]] + s[1..];
    }
  }

  /** Inserting into a descending sequence keeps it descending. */
  lemma {:induction false} InsertSorted(x: int, s: seq<int>)
    requires SortedDesc(s)
    ensures SortedDesc(Insert(x, s))
    ensures Insert(x, s)[0] == (if s == [] || x >= s[0] then x else s[0])
  {
    if s != [] && x < s[0] {
      var rest := Insert(x, s[1..]);
      InsertSorted(x, s[1..]);
      InsertPermutes(x, s[1..]);
      assert rest[0] <= s[0] by {
        if |s| > 1 { assert s[1] <= s[0]; }
      }
      var r := [s[0]] + rest;
      assert Insert(x, s) == r;
      forall a, b | 0 <= a < b < |r| ensures r[a] >= r[b] {
        if a == 0 {
          assert r[b] == rest[b - 1] <= rest[0];
        } else {
          assert r[a] == rest[a - 1] && r[b] == rest[b - 1];
        }
      }
    }
  }

  /** Inserting `x` changes each threshold count by the contribution of `x` alone. */
  lemma {:induction false} InsertCounts(x: int, s: seq<int>, t: int)
    ensures CountAtLeast(Insert(x, s), t) == (if x >= t then 1 else 0) + CountAtLeast(s, t)
    ensures CountAbove(Insert(x, s), t) == (if x > t then 1 else 0) + CountAbove(s, t)
  {
    if s == [] || x >= s[0] {
      assert ([x] + s)[1..] == s;
    } else {
      InsertCounts(x, s[1..], t);
      assert ([s[0]] + Insert(x, s[1..]))[1..] == Insert(x, s[1..]);
    }
  }

  /** The sort is a permutation of its input. */
  lemma {:induction false} SortDescPermutes(s: seq<int>)
    ensures multiset(SortDesc(s)) == multiset(s)
    ensures |SortDesc(s)| == |s|
  {
    if s != [] {
      SortDescPermutes(s[1..]);
      InsertPermutes(s[0], SortDesc(s[1..]));
      assert s == [s[0]] + s[1..];
    }
  }

  /** The sort yields a descending sequence. */
  lemma {:induction false} SortDescSorted(s: seq<int>)
    ensures SortedDesc(SortDesc(s))
  {
    if s != [] {
      SortDescSorted(s[1..]);
      InsertSorted(s[0], SortDesc(s[1..]));
    }
  }

  /** The sort keeps every threshold count. */
  lemma {:induction false} SortDescCounts(s: seq<int>, t: int)
    ensures CountAtLeast(SortDesc(s), t) == CountAtLeast(s, t)
    ensures CountAbove(SortDesc(s), t) == CountAbove(s, t)
  {
    if s != [] {
      SortDescCounts(s[1..], t);
      InsertCounts(s[0], SortDesc(s[1..]), t);
    }
  }

  /** The threshold count extends by the new last entry. */
  lemma {:induction false} CountAtLeastAppend(s: seq<int>, x: int, t: int)
    ensures CountAtLeast(s + [x], t) == CountAtLeast(s, t) + (if x >= t then 1 else 0)
  {
    if s != [] {
      assert (s + [x])[1..] == s[1..] + [x];
      CountAtLeastAppend(s[1..], x, t);
    }
  }

  /** Nothing in a sequence bounded by `t` lies strictly above `t`. */
  lemma {:induction false} NoneAbove(s: seq<int>, t: int)
    requires forall i :: 0 <= i < |s| ==> s[i] <= t
    ensures CountAbove(s, t) == 0
  {
    if s != [] {
      NoneAbove(s[1..], t);
    }
  }

  /** In a descending sequence, s[k] has at most k entries above it and at least k+1 at or above it. */
  lemma {:induction false} SortedRank(s: seq<int>, k: nat)
    requires SortedDesc(s) && k < |s|
    ensures CountAbove(s, s[k]) <= k < CountAtLeast(s, s[k])
  {
    if k == 0 {
      NoneAbove(s[1..], s[0]);
    } else {
      assert s[k] == s[1..][k - 1];
      SortedRank(s[1..], k - 1);
    }
  }

  /** The (k+1)-th largest value, counting repeated values separately. */
  function NthLargest(values: seq<int>, k: nat): int
    requires k < |values|
  {
    SortDescPermutes(values);
    SortDesc(values)[k]
  }

  /**
    The (k+1)-th largest value occurs among the values, at most k values lie strictly
    above it and at least k+1 lie at or above it.
   */
  lemma NthLargestRank(values: seq<int>, k: nat)
    requires k < |values|
    ensures NthLargest(values, k) in values
    ensures CountAbove(values, NthLargest(values, k)) <= k < CountAtLeast(values, NthLargest(values, k))
  {
    SortDescPermutes(values);
    SortDescSorted(values);
    SortedRank(SortDesc(values), k);
    SortDescCounts(values, NthLargest(values, k));
    assert NthLargest(values, k) in multiset(SortDesc(values));
  }

  /** Python list indexing: negative positions count from the end; out of range is an IndexError. */
  function PyIndex(len: nat, i: int): Option<nat> {
    if 0 <= i < len then Some(i) else if -(len as int) <= i < 0 then Some(len + i) else None
  }

  /**
    The top-n filter over the rows `values`. Returns `None` where reading the
    (n-1)-th sorted value raises an IndexError, and otherwise the indices of the
    kept rows, ascending: exactly the rows whose value is at least the threshold.
   */
  method TopN(values: seq<int>, n: int) returns (kept: Option<seq<nat>>)
    ensures kept.None? <==> !(-|values| <= n - 1 < |values|)
    ensures kept.Some? ==>
      var t := NthLargest(values, PyIndex(|values|, n - 1).value);
      && Increasing(kept.value)
      && (forall q :: 0 <= q < |kept.value| ==> kept.value[q] < |values|)
      && (forall i :: 0 <= i < |values| ==> (i in kept.value <==> values[i] >= t))
      && |kept.value| == CountAtLeast(values, t)
    ensures kept.Some? && 1 <= n ==> |kept.value| >= n
    ensures kept.Some? ==>
      forall a, b :: a in kept.value && 0 <= b < |values| && b !in kept.value ==> values[a] > values[b]
  {
    var sorted := SortDesc(values);
    SortDescPermutes(values);
    var curcolsorted := [];
    for q := 0 to |sorted|
      invariant curcolsorted == sorted[..q]
    {
      curcolsorted := curcolsorted + [sorted[q]];
    }
    assert curcolsorted == sorted;
    var pos := PyIndex(|curcolsorted|, n - 1);
    if pos.None? {
      return None;
    }
    var t := curcolsorted[pos.value];
    var rows: seq<nat> := [];
    for i := 0 to |values|
      invariant Increasing(rows)
      invariant forall q :: 0 <= q < |rows| ==> rows[q] < i
      invariant forall x: nat :: x < i ==> (x in rows <==> values[x] >= t)
      invariant |rows| == CountAtLeast(values[..i], t)
    {
      CountAtLeastAppend(values[..i], values[i], t);
      assert values[..i + 1] == values[..i] + [values[i]];
      if values[i] >= t {
        rows := rows + [i];
      }
    }
    assert values[..|values|] == values;
    NthLargestRank(values, pos.value);
    kept := Some(rows);
  }

  /**
    The same filter as run after the facility search, with n fixed at 3: it raises
    an IndexError when there are fewer than three rows, and otherwise keeps at least
    three rows, exactly those at or above the third-largest value.
   */
  method TopThree(values: seq<int>) returns (kept: Option<seq<nat>>)
    ensures kept.None? <==> |values| < 3
    ensures kept.Some? ==>
      && Increasing(kept.value)
      && (forall q :: 0 <= q < |kept.value| ==> kept.value[q] < |values|)
      && |kept.value| >= 3
      && |kept.value| == CountAtLeast(values, NthLargest(values, 2))
      && forall i :: 0 <= i < |values| ==> (i in kept.value <==> values[i] >= NthLargest(values, 2))
  {
    kept := TopN(values, 3);
  }
}
