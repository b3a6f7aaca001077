/** Exact-real stand-ins for the number handling of the client: `Math.round`,
    the `reduce((sum, v) => sum + v, 0) / length` mean with its "0 when there
    is nothing" fallback, and facts about both. */
module Numeric {

  /** `Math.round(x)` on an exact real: the nearest integer, halves rounded up. */
  function Round(x: real): (r: int)
    ensures r as real <= x + 0.5 < r as real + 1.0
  {
    (x + 0.5).Floor
  }

  /** `Math.round` leaves integers alone. */
  lemma RoundOfInteger(n: int)
    ensures Round(n as real) == n
  {
  }

  /** A value rounds into the open interval (0, extent) exactly when it lies in
      [1/2, extent - 1/2); in particular it then lies in (0, extent) itself. */
  lemma RoundInside(x: real, extent: int)
    ensures 0 < Round(x) < extent <==> 0.5 <= x && x + 0.5 < extent as real
  {
  }

  /** Left-to-right sum, as `reduce((sum, val) => sum + val, 0)`. */
  function Sum(xs: seq<real>): real
  {
    if |xs| == 0 then 0.0 else Sum(xs[..|xs| - 1]) + xs[|xs| - 1]
  }

  /** Arithmetic mean, or 0 for an empty list (the client's fallback). */
  function Mean(xs: seq<real>): real
  {
    if |xs| == 0 then 0.0 else Sum(xs) / (|xs| as real)
  }

  lemma {:induction false} SumAppend(a: seq<real>, b: seq<real>)
    ensures Sum(a + b) == Sum(a) + Sum(b)
    decreases |b|
  {
    if |b| == 0 {
      assert a + b == a;
    } else {
      assert (a + b)[..|a + b| - 1] == a + b[..|b| - 1];
      SumAppend(a, b[..|b| - 1]);
    }
  }

  /** Every value in [lo, hi] bounds the sum by lo·n and hi·n. */
  lemma {:induction false} SumBounds(xs: seq<real>, lo: real, hi: real)
    requires forall i :: 0 <= i < |xs| ==> lo <= xs[i] <= hi
    ensures lo * (|xs| as real) <= Sum(xs) <= hi * (|xs| as real)
  {
    if |xs| > 0 {
      SumBounds(xs[..|xs| - 1], lo, hi);
    }
  }

  /** The mean of a non-empty list lies between any bounds of its values. */
  lemma MeanBounds(xs: seq<real>, lo: real, hi: real)
    requires |xs| > 0
    requires forall i :: 0 <= i < |xs| ==> lo <= xs[i] <= hi
    ensures lo <= Mean(xs) <= hi
  {
    SumBounds(xs, lo, hi);
    var n := |xs| as real;
    assert lo * n <= Sum(xs) <= hi * n;
    assert Sum(xs) / n >= lo by {
      assert (Sum(xs) / n) * n == Sum(xs);
    }
    assert Sum(xs) / n <= hi by {
      assert (Sum(xs) / n) * n == Sum(xs);
    }
  }

  /** The mean of a list of equal values is that value. */
  lemma MeanOfConstant(xs: seq<real>, c: real)
    requires |xs| > 0
    requires forall i :: 0 <= i < |xs| ==> xs[i] == c
    ensures Mean(xs) == c
  {
    MeanBounds(xs, c, c);
  }
}

/** Ordering helpers for integer pixel lists: the numeric `sort((a, b) => a - b)`,
    the first-occurrence de-duplication of `[...new Set(xs)]`, and the facts
    that make sorted, duplicate-free lists unique. */
module Ordering {

  predicate StrictlyAscending(s: seq<int>) {
    forall i, j :: 0 <= i < j < |s| ==> s[i] < s[j]
  }

  predicate Sorted(s: seq<int>) {
    forall i, j :: 0 <= i < j < |s| ==> s[i] <= s[j]
  }

  predicate Distinct(s: seq<int>) {
    forall i, j :: 0 <= i < j < |s| ==> s[i] != s[j]
  }

  /** Places `x` before the first element not smaller than it. */
  function Insert(x: int, s: seq<int>): (r: seq<int>)
    ensures |r| == |s| + 1
    ensures forall y :: y in r <==> y == x || y in s
    ensures multiset(r) == multiset(s) + multiset{x}
  {
    if |s| == 0 then [x]
    else if x <= s[0] then [x] + s
    else
      assert s == [s[0]] + s[1..];
      [s[0]] + Insert(x, s[1..])
  }

  lemma {:induction false} InsertSorted(x: int, s: seq<int>)
    requires Sorted(s)
    ensures Sorted(Insert(x, s))
  {
    if |s| > 0 && x > s[0] {
      InsertSorted(x, s[1..]);
      var t := Insert(x, s[1..]);
      forall j | 0 <= j < |t|
        ensures s[0] <= t[j]
      {
        assert t[j] in t;
        if t[j] != x {
          var k :| 0 <= k < |s[1..]| && s[1..][k] == t[j];
          assert s[k + 1] == t[j];
        }
      }
    }
  }

  lemma {:induction false} InsertStrict(x: int, s: seq<int>)
    requires StrictlyAscending(s) && x !in s
    ensures StrictlyAscending(Insert(x, s))
  {
    if |s| > 0 && x > s[0] {
      InsertStrict(x, s[1..]);
      var t := Insert(x, s[1..]);
      forall j | 0 <= j < |t|
        ensures s[0] < t[j]
      {
        assert t[j] in t;
        if t[j] != x {
          var k :| 0 <= k < |s[1..]| && s[1..][k] == t[j];
          assert s[k + 1] == t[j];
        }
      }
    }
  }

  /** Numeric ascending sort (insertion sort; the order among equal integers
      is irrelevant). */
  function Sort(s: seq<int>): (r: seq<int>)
    ensures |r| == |s|
    ensures forall y :: y in r <==> y in s
    ensures multiset(r) == multiset(s)
  {
    if |s| == 0 then []
    else
      assert s == [s[0]] + s[1..];
      Insert(s[0], Sort(s[1..]))
  }

  lemma {:induction false} SortSorted(s: seq<int>)
    ensures Sorted(Sort(s))
  {
    if |s| > 0 {
      SortSorted(s[1..]);
      InsertSorted(s[0], Sort(s[1..]));
    }
  }

  /** Sorting a duplicate-free list makes it strictly ascending. */
  lemma {:induction false} SortDistinct(s: seq<int>)
    requires Distinct(s)
    ensures StrictlyAscending(Sort(s))
  {
    if |s| > 0 {
      assert s[0] !in s[1..];
      SortDistinct(s[1..]);
      InsertStrict(s[0], Sort(s[1..]));
    }
  }

  /** `[...new Set(s)]`: first occurrences, in order. */
  function Dedupe(s: seq<int>): (r: seq<int>)
    ensures Distinct(r)
    ensures forall y :: y in r <==> y in s
    ensures |r| <= |s|
  {
    if |s| == 0 then []
    else
      var t := Dedupe(s[..|s| - 1]);
      assert forall y :: y in s <==> y in s[..|s| - 1] || y == s[|s| - 1];
      if s[|s| - 1] in t then t else t + [s[|s| - 1]]
  }

  /** Sorting an already strictly ascending list changes nothing. */
  lemma {:induction false} SortOfStrict(s: seq<int>)
    requires StrictlyAscending(s)
    ensures Sort(s) == s
  {
    if |s| > 0 {
      SortOfStrict(s[1..]);
      assert s == [s[0]] + s[1..];
    }
  }

  /** Two strictly ascending lists with the same elements are equal. */
  lemma {:induction false} StrictUnique(a: seq<int>, b: seq<int>)
    requires StrictlyAscending(a) && StrictlyAscending(b)
    requires forall y :: y in a <==> y in b
    ensures a == b
  {
    if |a| == 0 {
      HeadIsElement(b);
    } else {
      assert a[0] in a && b[0] in b;
      assert a[0] in b;
      assert b[0] in a;
      assert a[0] == b[0];
      forall y
        ensures y in a[1..] <==> y in b[1..]
      {
        if y in a[1..] {
          assert y in b;
          assert y != b[0];
        }
        if y in b[1..] {
          assert y in a;
          assert y != a[0];
        }
      }
      StrictUnique(a[1..], b[1..]);
      assert a == [a[0]] + a[1..] && b == [b[0]] + b[1..];
    }
  }

  lemma HeadIsElement(s: seq<int>)
    ensures |s| == 0 || s[0] in s
  {
  }

  /** In a strictly ascending list the least element comes first. */
  lemma FirstIsLeast(s: seq<int>, x: int)
    requires StrictlyAscending(s) && x in s
    requires forall y :: y in s ==> x <= y
    ensures s[0] == x
  {
    assert s[0] in s;
  }

  /** In a strictly ascending list the greatest element comes last. */
  lemma LastIsGreatest(s: seq<int>, x: int)
    requires StrictlyAscending(s) && x in s
    requires forall y :: y in s ==> y <= x
    ensures s[|s| - 1] == x
  {
    assert s[|s| - 1] in s;
  }

  /** A strictly ascending list holds each value at most once. */
  lemma {:induction false} StrictCountsOne(s: seq<int>, v: int)
    requires StrictlyAscending(s)
    ensures multiset(s)[v] <= 1
  {
    if |s| > 0 {
      assert s == [s[0]] + s[1..];
      StrictCountsOne(s[1..], v);
      if v == s[0] {
        assert v !in s[1..];
      }
    }
  }

  /** A repeated value is counted at least twice. */
  lemma RepeatCountsTwo(s: seq<int>, i: int, j: int)
    requires 0 <= i < j < |s| && s[i] == s[j]
    ensures multiset(s)[s[i]] >= 2
  {
    assert s == s[..j] + [s[j]] + s[j + 1..];
    assert s[i] in s[..j];
  }

  /** Sorting yields a strictly ascending list only for duplicate-free input. */
  lemma SortStrictOnlyIfDistinct(s: seq<int>)
    requires StrictlyAscending(Sort(s))
    ensures Distinct(s)
  {
    forall i, j | 0 <= i < j < |s|
      ensures s[i] != s[j]
    {
      if s[i] == s[j] {
        RepeatCountsTwo(s, i, j);
        StrictCountsOne(Sort(s), s[i]);
      }
    }
  }
}
