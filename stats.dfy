/** The reductions a table library applies to a column or a group of cells:
    sum, mean, minimum and median (the median of an even number of values
    is the mean of the two middle ones). */
module Stats {

  function Sum(s: seq<real>): real {
    if |s| == 0 then 0.0 else s[0] + Sum(s[1..])
  }

  function Mean(s: seq<real>): real
    requires |s| > 0
  {
    Sum(s) / (|s| as real)
  }

  ghost predicate Bounded(s: seq<real>, lo: real, hi: real) {
    forall i :: 0 <= i < |s| ==> lo <= s[i] <= hi
  }

  lemma {:induction false} SumBounds(s: seq<real>, lo: real, hi: real)
    requires Bounded(s, lo, hi)
    ensures (|s| as real) * lo <= Sum(s) <= (|s| as real) * hi
  {
    if |s| > 0 {
      SumBounds(s[1..], lo, hi);
      var m := |s[1..]| as real;
      assert (|s| as real) * lo == lo + m * lo;
      assert (|s| as real) * hi == hi + m * hi;
      assert lo <= s[0] <= hi;
    }
  }

  /** The mean of values that all lie in [lo, hi] lies in [lo, hi]. */
  lemma MeanBounds(s: seq<real>, lo: real, hi: real)
    requires |s| > 0 && Bounded(s, lo, hi)
    ensures lo <= Mean(s) <= hi
  {
    SumBounds(s, lo, hi);
    var n := |s| as real;
    assert n * lo <= Sum(s) <= n * hi;
    assert Mean(s) * n == Sum(s);
  }

  lemma {:induction false} SumConcat(u: seq<real>, v: seq<real>)
    ensures Sum(u + v) == Sum(u) + Sum(v)
  {
    if |u| > 0 {
      SumConcat(u[1..], v);
      assert (u + v)[1..] == u[1..] + v;
    } else {
      assert u + v == v;
    }
  }

  /** Taking out the value at `k` takes its amount out of the sum. */
  lemma SumRemoveAt(b: seq<real>, k: nat)
    requires k < |b|
    ensures Sum(b) == b[k] + Sum(b[..k] + b[k + 1..])
  {
    var tail := [b[k]] + b[k + 1..];
    assert b == b[..k] + tail;
    SumConcat(b[..k], tail);
    SumConcat(b[..k], b[k + 1..]);
    assert tail[1..] == b[k + 1..];
  }

  /** Taking out the value at `k` takes one occurrence of it out of the
      multiset. */
  lemma MultisetRemoveAt(b: seq<real>, k: nat)
    requires k < |b|
    ensures multiset(b[..k] + b[k + 1..]) + multiset{b[k]} == multiset(b)
  {
    assert b == b[..k] + [b[k]] + b[k + 1..];
  }

  lemma MultisetCancel(x: multiset<real>, y: multiset<real>, c: real)
    requires x + multiset{c} == y + multiset{c}
    ensures x == y
  {
    forall e ensures x[e] == y[e] {
      assert (x + multiset{c})[e] == x[e] + multiset{c}[e];
      assert (y + multiset{c})[e] == y[e] + multiset{c}[e];
    }
  }

  /** The sum depends only on how often each value occurs, not on order. */
  lemma {:induction false} SumPermutation(a: seq<real>, b: seq<real>)
    requires multiset(a) == multiset(b)
    ensures Sum(a) == Sum(b)
    decreases |a|
  {
    if |a| > 0 {
      assert a[0] in multiset(b);
      var k :| 0 <= k < |b| && b[k] == a[0];
      var rest := b[..k] + b[k + 1..];
      MultisetRemoveAt(b, k);
      assert a == [a[0]] + a[1..];
      assert multiset(a[1..]) + multiset{a[0]} == multiset(rest) + multiset{a[0]};
      MultisetCancel(multiset(a[1..]), multiset(rest), a[0]);
      SumPermutation(a[1..], rest);
      SumRemoveAt(b, k);
    } else {
      assert |b| == |multiset(b)| == 0;
    }
  }

  /** The mean depends only on how often each value occurs. */
  lemma MeanPermutation(a: seq<real>, b: seq<real>)
    requires |a| > 0 && multiset(a) == multiset(b)
    ensures |b| == |a| && Mean(a) == Mean(b)
  {
    assert |multiset(a)| == |multiset(b)|;
    SumPermutation(a, b);
  }

  /** The smallest value; the source reduces a column with min(). */
  function MinOf(s: seq<real>): (m: real)
    requires |s| > 0
    ensures m in s
    ensures forall i :: 0 <= i < |s| ==> m <= s[i]
  {
    if |s| == 1 then s[0]
    else
      var rest := MinOf(s[1..]);
      assert forall i :: 1 <= i < |s| ==> s[i] == s[1..][i - 1];
      if s[0] <= rest then s[0] else rest
  }

  ghost predicate Sorted(s: seq<real>) {
    forall i, j :: 0 <= i <= j < |s| ==> s[i] <= s[j]
  }

  /** `x` inserted into sorted `s` before the first value not below it. */
  function Insert(x: real, s: seq<real>): (r: seq<real>)
    requires Sorted(s)
    ensures Sorted(r) && |r| == |s| + 1
    ensures r[0] == x || (|s| > 0 && r[0] == s[0])
  {
    if |s| == 0 || x <= s[0] then [x] + s
    else [s[0]] + Insert(x, s[1..])
  }

  /** Insertion adds exactly one occurrence of `x`. */
  lemma {:induction false} InsertPermutes(x: real, s: seq<real>)
    requires Sorted(s)
    ensures multiset(Insert(x, s)) == multiset(s) + multiset{x}
  {
    if |s| > 0 && s[0] < x {
      InsertPermutes(x, s[1..]);
      assert s == [s[0]] + s[1..];
    }
  }

  /** The values of `s` in ascending order. */
  function Sort(s: seq<real>): (r: seq<real>)
    ensures Sorted(r) && |r| == |s|
  {
    if |s| == 0 then []
    else Insert(s[0], Sort(s[1..]))
  }

  /** Sorting permutes its input. */
  lemma {:induction false} SortPermutes(s: seq<real>)
    ensures multiset(Sort(s)) == multiset(s)
  {
    if |s| > 0 {
      SortPermutes(s[1..]);
      InsertPermutes(s[0], Sort(s[1..]));
      assert s == [s[0]] + s[1..];
    }
  }

  function Median(s: seq<real>): real
    requires |s| > 0
  {
    var t := Sort(s);
    var n := |t|;
    if n % 2 == 1 then t[n / 2] else (t[n / 2 - 1] + t[n / 2]) / 2.0
  }

  lemma SortedTail(a: seq<real>)
    requires Sorted(a) && |a| > 0
    ensures Sorted(a[1..])
  {
    forall i, j | 0 <= i <= j < |a| - 1 ensures a[1..][i] <= a[1..][j] {
      assert a[1..][i] == a[i + 1] && a[1..][j] == a[j + 1];
    }
  }

  /** The first value of a sorted sequence is its least. */
  lemma SortedHead(a: seq<real>, x: real)
    requires Sorted(a) && x in multiset(a)
    ensures |a| > 0 && a[0] <= x
  {
    var k :| 0 <= k < |a| && a[k] == x;
    assert a[0] <= a[k];
  }

  /** A sorted sequence is determined by how often each value occurs. */
  lemma {:induction false} SortedUnique(a: seq<real>, b: seq<real>)
    requires Sorted(a) && Sorted(b) && multiset(a) == multiset(b)
    ensures a == b
    decreases |a|
  {
    assert |a| == |multiset(a)| == |multiset(b)| == |b|;
    if |a| > 0 {
      SortedHead(b, a[0]);
      SortedHead(a, b[0]);
      var c := a[0];
      assert multiset(a) == multiset(a[1..]) + multiset{c} by {
        assert a == [c] + a[1..];
      }
      assert multiset(b) == multiset(b[1..]) + multiset{c} by {
        assert b == [c] + b[1..];
      }
      MultisetCancel(multiset(a[1..]), multiset(b[1..]), c);
      SortedTail(a);
      SortedTail(b);
      SortedUnique(a[1..], b[1..]);
      assert a == [c] + a[1..] && b == [c] + b[1..];
    }
  }

  /** The median depends only on how often each value occurs, not on
      order. */
  lemma MedianPermutation(a: seq<real>, b: seq<real>)
    requires |a| > 0 && multiset(a) == multiset(b)
    ensures |b| == |a| && Median(a) == Median(b)
  {
    assert |a| == |multiset(a)| == |multiset(b)| == |b|;
    SortPermutes(a);
    SortPermutes(b);
    SortedUnique(Sort(a), Sort(b));
  }

  /** The median of values that all lie in [lo, hi] lies in [lo, hi]; in
      particular the median of one value is that value. */
  lemma MedianBounds(s: seq<real>, lo: real, hi: real)
    requires |s| > 0 && Bounded(s, lo, hi)
    ensures lo <= Median(s) <= hi
  {
    var t := Sort(s);
    SortPermutes(s);
    forall k | 0 <= k < |t| ensures lo <= t[k] <= hi {
      assert t[k] in multiset(t);
      assert t[k] in multiset(s);
      var i :| 0 <= i < |s| && s[i] == t[k];
    }
  }

  /** How many times `c` occurs in `s`. */
  function Count(s: seq<real>, c: real): (n: nat)
    ensures n <= |s|
  {
    if |s| == 0 then 0
    else (if s[0] == c then 1 else 0) + Count(s[1..], c)
  }

  /** `Count` is the multiplicity of `c` in the multiset of `s`. */
  lemma {:induction false} CountIsMultiplicity(s: seq<real>, c: real)
    ensures Count(s, c) == multiset(s)[c]
  {
    if |s| > 0 {
      CountIsMultiplicity(s[1..], c);
      assert s == [s[0]] + s[1..];
    }
  }

  /** A value occurs in a sequence at most as often as the sequence is long. */
  lemma {:induction false} CountAtMostLength(b: seq<real>, c: real)
    ensures multiset(b)[c] <= |b|
  {
    if |b| > 0 {
      assert b == [b[0]] + b[1..];
      CountAtMostLength(b[1..], c);
    }
  }

  /** In a sorted sequence, a value above the middle element can only occur
      after it, and a value below it only before it. */
  lemma MiddleSplitsCount(t: seq<real>, c: real, m: nat)
    requires Sorted(t) && m < |t|
    ensures t[m] < c ==> multiset(t)[c] <= |t| - m - 1
    ensures c < t[m] ==> multiset(t)[c] <= m
  {
    if t[m] < c {
      assert t == t[..m + 1] + t[m + 1..];
      assert multiset(t) == multiset(t[..m + 1]) + multiset(t[m + 1..]);
      assert c !in t[..m + 1] by {
        forall k | 0 <= k <= m ensures t[k] != c {
          assert t[k] <= t[m];
        }
      }
      CountAtMostLength(t[m + 1..], c);
    }
    if c < t[m] {
      assert t == t[..m] + t[m..];
      assert multiset(t) == multiset(t[..m]) + multiset(t[m..]);
      assert c !in t[m..] by {
        forall k | m <= k < |t| ensures t[k] != c {
          assert t[m] <= t[k];
        }
      }
      CountAtMostLength(t[..m], c);
    }
  }

  /** The median of an odd number of values is robust: a value held by a
      strict majority of them is the median, whatever the others are. */
  lemma MedianOfMajority(s: seq<real>, c: real)
    requires |s| % 2 == 1 && Count(s, c) > |s| / 2
    ensures Median(s) == c
  {
    var t := Sort(s);
    CountIsMultiplicity(s, c);
    SortPermutes(s);
    MiddleSplitsCount(t, c, |t| / 2);
  }

  /** The median of two readings is their mean: 40 and 42 give 41. */
  lemma MedianOfTwoReadings()
    ensures Median([40.0, 42.0]) == 41.0
  {
    assert Sort([42.0]) == [42.0];
    assert Sort([40.0, 42.0]) == [40.0, 42.0] by {
      assert [40.0, 42.0][1..] == [42.0];
    }
  }
}
