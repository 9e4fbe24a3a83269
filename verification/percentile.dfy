/** The controller's nearest-rank percentile: sort a copy of the samples and
    pick the element at `int(len * p / 100)`, clamped to the last index. */
module Percentile {

  predicate Sorted(s: seq<real>)
  {
    forall i, j :: 0 <= i < j < |s| ==> s[i] <= s[j]
  }

  /** Inserts `x` into a sorted sequence, keeping it sorted. */
  function Insert(x: real, s: seq<real>): (r: seq<real>)
    requires Sorted(s)
    ensures Sorted(r)
    ensures multiset(r) == multiset(s) + multiset{x}
    ensures |r| == |s| + 1
    ensures r[0] == if |s| == 0 || x <= s[0] then x else s[0]
  {
    if |s| == 0 then [x]
    else if x <= s[0] then [x] + s
    else
      assert s == [s[0]] + s[1..];
      var t := Insert(x, s[1..]);
      LeadsSorted(s[0], t);
      [s[0]] + t
  }

  /** Prefixing a sorted sequence with a value no larger than its head keeps it
      sorted. */
  lemma LeadsSorted(h: real, t: seq<real>)
    requires Sorted(t)
    requires |t| > 0 ==> h <= t[0]
    ensures Sorted([h] + t)
  {
  }

  /** `sorted(values)`: an ascending permutation of the input. */
  function Sort(s: seq<real>): (r: seq<real>)
    ensures Sorted(r)
    ensures multiset(r) == multiset(s)
    ensures |r| == |s|
  {
    if |s| == 0 then []
    else
      assert s == [s[0]] + s[1..];
      Insert(s[0], Sort(s[1..]))
  }

  /** Python's `int()` of the quotient `a / d`: truncation toward zero, which
      differs from Dafny's Euclidean `/` when `a` is negative. */
  function TruncDiv(a: int, d: int): (r: int)
    requires d > 0
    ensures 0 <= a ==> r == a / d
    ensures a < 0 ==> r <= 0
  {
    if a >= 0 then a / d else -((-a) / d)
  }

  /** The outcome of `pct`: `None` for no samples, a picked sample, or the
      `IndexError` Python raises for an index below `-len`. */
  datatype Pick = NoValues | Picked(v: real) | IndexError

  /** The sequence position Python reads for index `i` on a sequence of length
      `n`: negative indices count from the end. */
  function PyPosition(n: nat, i: int): (k: int)
    ensures -(n as int) <= i < n ==> 0 <= k < n
    ensures 0 <= i ==> k == i
  {
    if i >= 0 then i else n + i
  }

  /** The index `pct` reads before Python's negative-index rule applies. */
  function RankIndex(n: nat, p: int): (i: int)
    requires n > 0
    ensures i <= n - 1
    ensures 0 <= p ==> 0 <= i
    ensures 100 <= p ==> i == n - 1
  {
    var idx := TruncDiv(n * p, 100);
    if idx < n - 1 then idx else n - 1
  }

  /** `pct(values, p)`. */
  function Pct(values: seq<real>, p: int): (r: Pick)
    ensures r == NoValues <==> |values| == 0
    ensures r.Picked? ==> r.v in values
    ensures |values| > 0 && 0 <= p ==> r.Picked?
    ensures r == IndexError ==> p < 0
  {
    if |values| == 0 then NoValues
    else
      var sorted := Sort(values);
      var i := RankIndex(|values|, p);
      if i < -|values| then IndexError
      else
        var k := PyPosition(|values|, i);
        assert sorted[k] in multiset(values);
        Picked(sorted[k])
  }

  /** `pct(values, 0)` is the smallest sample. */
  lemma PctZeroIsMinimum(values: seq<real>)
    requires |values| > 0
    ensures Pct(values, 0).Picked?
    ensures forall x :: x in values ==> Pct(values, 0).v <= x
  {
    var sorted := Sort(values);
    forall x | x in values
      ensures sorted[0] <= x
    {
      assert x in multiset(sorted);
      var j :| 0 <= j < |sorted| && sorted[j] == x;
    }
  }

  /** `pct(values, p)` with `p >= 100` is the largest sample. */
  lemma PctFullIsMaximum(values: seq<real>, p: int)
    requires |values| > 0 && 100 <= p
    ensures Pct(values, p).Picked?
    ensures forall x :: x in values ==> x <= Pct(values, p).v
  {
    var sorted := Sort(values);
    forall x | x in values
      ensures x <= sorted[|sorted| - 1]
    {
      assert x in multiset(sorted);
      var j :| 0 <= j < |sorted| && sorted[j] == x;
    }
  }

  lemma RankIndexMonotone(n: nat, p: int, q: int)
    requires n > 0 && 0 <= p <= q
    ensures RankIndex(n, p) <= RankIndex(n, q)
  {
    assert n * p <= n * q by {
      assert n * q - n * p == n * (q - p);
    }
  }

  /** For non-negative percentages the picked sample never decreases as `p` grows. */
  lemma PctMonotone(values: seq<real>, p: int, q: int)
    requires |values| > 0 && 0 <= p <= q
    ensures Pct(values, p).Picked? && Pct(values, q).Picked?
    ensures Pct(values, p).v <= Pct(values, q).v
  {
    var sorted := Sort(values);
    var i, j := RankIndex(|values|, p), RankIndex(|values|, q);
    RankIndexMonotone(|values|, p, q);
    assert Pct(values, p) == Picked(sorted[i]);
    assert Pct(values, q) == Picked(sorted[j]);
    assert i == j || sorted[i] <= sorted[j];
  }

  /** The picked sample does not depend on the order the samples were collected
      in: `pct` sorts its own copy. */
  lemma PctOrderInsensitive(a: seq<real>, b: seq<real>, p: int)
    requires multiset(a) == multiset(b)
    ensures Pct(a, p) == Pct(b, p)
  {
    assert |a| == |multiset(a)| == |multiset(b)| == |b|;
    SortUnique(Sort(a), Sort(b));
  }

  lemma {:induction false} SortUnique(s: seq<real>, t: seq<real>)
    requires Sorted(s) && Sorted(t) && multiset(s) == multiset(t)
    ensures s == t
  {
    assert |s| == |multiset(s)| == |multiset(t)| == |t|;
    if |s| > 0 {
      SameHead(s, t);
      var s', t' := s[1..], t[1..];
      TailSorted(s);
      TailSorted(t);
      TailMultiset(s, t);
      SortUnique(s', t');
      assert s == [s[0]] + s';
      assert t == [t[0]] + t';
    }
  }

  lemma TailMultiset(s: seq<real>, t: seq<real>)
    requires |s| > 0 && |t| > 0 && s[0] == t[0] && multiset(s) == multiset(t)
    ensures multiset(s[1..]) == multiset(t[1..])
  {
    assert s == [s[0]] + s[1..];
    assert t == [t[0]] + t[1..];
    var m := multiset{s[0]};
    assert multiset(s) == m + multiset(s[1..]);
    assert multiset(t) == m + multiset(t[1..]);
    assert multiset(s[1..]) == multiset(s) - m;
    assert multiset(t[1..]) == multiset(t) - m;
  }

  lemma SameHead(s: seq<real>, t: seq<real>)
    requires Sorted(s) && Sorted(t) && multiset(s) == multiset(t)
    requires |s| > 0
    ensures |t| > 0 && s[0] == t[0]
  {
    assert |s| == |multiset(s)| == |multiset(t)| == |t|;
    assert t[0] in multiset(t);
    HeadIsLeast(s, t[0]);
    assert s[0] in multiset(s);
    HeadIsLeast(t, s[0]);
  }

  lemma TailSorted(s: seq<real>)
    requires Sorted(s) && |s| > 0
    ensures Sorted(s[1..])
  {
  }

  /** The head of a sorted sequence is at most any of its elements. */
  lemma HeadIsLeast(s: seq<real>, x: real)
    requires Sorted(s) && x in multiset(s)
    ensures s[0] <= x
  {
    var j :| 0 <= j < |s| && s[j] == x;
  }
}
