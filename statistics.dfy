/**
 * The numeric library calls the cleaning stage relies on: the median that pandas'
 * `Series.median()` computes over the non-null values of a column, and the
 * truncation that `astype(int)` applies to a floating-point value.  Values are
 * exact reals, so a median that falls halfway between two values is kept exactly.
 */
module Statistics {
  import opened Wrappers

  predicate IsSorted(s: seq<real>) {
    forall i, j :: 0 <= i < j < |s| ==> s[i] <= s[j]
  }

  /** `x` inserted into the sorted sequence `s`. */
  function Insert(x: real, s: seq<real>): (r: seq<real>)
    requires IsSorted(s)
    ensures IsSorted(r)
    ensures multiset(r) == multiset(s) + multiset{x}
    ensures |r| == |s| + 1 && r[0] == if s == [] || x <= s[0] then x else s[0]
  {
    if s == [] then [x]
    else if x <= s[0] then [x] + s
    else
      var tail := Insert(x, s[1..]);
      assert multiset(s) == multiset{s[0]} + multiset(s[1..]) by {
        assert s == [s[0]] + s[1..];
      }
      SortedCons(s[0], tail);
      [s[0]] + tail
  }

  lemma SortedCons(a: real, t: seq<real>)
    requires IsSorted(t) && (t != [] ==> a <= t[0])
    ensures IsSorted([a] + t)
  {
    var r := [a] + t;
    forall i, j | 0 <= i < j < |r| ensures r[i] <= r[j] {
      assert r[j] == t[j - 1];
      if i > 0 {
        assert r[i] == t[i - 1];
      } else {
        assert t[0] <= t[j - 1];
      }
    }
  }

  /** The values of `xs` in ascending order. */
  function Sort(xs: seq<real>): (s: seq<real>)
    ensures IsSorted(s)
    ensures multiset(s) == multiset(xs)
    ensures |s| == |xs|
  {
    if xs == [] then []
    else
      assert xs == [xs[0]] + xs[1..];
      Insert(xs[0], Sort(xs[1..]))
  }

  /**
   * The median of `xs`: the middle value in sorted order, or the mean of the two
   * middle values when there is an even number of them; absent for no values
   * (pandas returns NaN there).
   */
  function Median(xs: seq<real>): (m: Option<real>)
    ensures m.None? <==> xs == []
  {
    MiddleOf(Sort(xs))
  }

  /** The middle value of a sorted sequence, or the mean of its two middle values. */
  function MiddleOf(s: seq<real>): Option<real> {
    if s == [] then None
    else
      var n := |s|;
      if n % 2 == 1 then Some(s[n / 2]) else Some((s[n / 2 - 1] + s[n / 2]) / 2.0)
  }

  /** Two sorted sequences with the same elements are equal. */
  lemma {:induction false} SortedUnique(a: seq<real>, b: seq<real>)
    requires IsSorted(a) && IsSorted(b)
    requires multiset(a) == multiset(b)
    ensures a == b
  {
    if a != [] {
      assert b != [] by {
        assert a[0] in multiset(b);
      }
      SortedHeads(a, b);
      MultisetTail(a);
      MultisetTail(b);
      SortedUnique(a[1..], b[1..]);
      assert a == [a[0]] + a[1..] && b == [b[0]] + b[1..];
    } else {
      assert |b| == |multiset(b)| == 0;
    }
  }

  /** Two sorted sequences with the same elements start with the same value. */
  lemma SortedHeads(a: seq<real>, b: seq<real>)
    requires IsSorted(a) && IsSorted(b) && a != [] && b != []
    requires multiset(a) == multiset(b)
    ensures a[0] == b[0]
  {
    assert a[0] in multiset(b);
    var k :| 0 <= k < |b| && b[k] == a[0];
    assert b[0] in multiset(a);
    var l :| 0 <= l < |a| && a[l] == b[0];
    assert b[0] <= b[k] && a[0] <= a[l];
  }

  lemma MultisetTail(a: seq<real>)
    requires a != []
    ensures multiset(a[1..]) == multiset(a) - multiset{a[0]}
  {
    assert a == [a[0]] + a[1..];
  }

  /** The median depends only on the values, not on the order of the rows. */
  lemma MedianIgnoresOrder(xs: seq<real>, ys: seq<real>)
    requires multiset(xs) == multiset(ys)
    ensures Median(xs) == Median(ys)
  {
    SortedUnique(Sort(xs), Sort(ys));
  }

  /** The median lies between the smallest and the largest value. */
  lemma MedianWithinRange(xs: seq<real>)
    requires xs != []
    ensures exists i :: 0 <= i < |xs| && xs[i] <= Median(xs).value
    ensures exists j :: 0 <= j < |xs| && Median(xs).value <= xs[j]
  {
    var s := Sort(xs);
    var n := |s|;
    var m := Median(xs).value;
    var lo, hi := s[(n - 1) / 2], s[n / 2];
    MiddleBetween(s);
    assert lo in multiset(xs) && hi in multiset(xs);
    var i :| 0 <= i < |xs| && xs[i] == lo;
    var j :| 0 <= j < |xs| && xs[j] == hi;
  }

  /** The middle of a sorted sequence lies between its two middle values. */
  lemma MiddleBetween(s: seq<real>)
    requires s != [] && IsSorted(s)
    ensures s[(|s| - 1) / 2] <= MiddleOf(s).value <= s[|s| / 2]
  {
    if |s| % 2 == 1 {
      assert (|s| - 1) / 2 == |s| / 2;
    } else {
      assert (|s| - 1) / 2 == |s| / 2 - 1;
    }
  }

  predicate IsIntegral(x: real) {
    x == x.Floor as real
  }

  /**
   * The median of whole numbers is a whole number or lies exactly halfway
   * between two: twice the median is always whole.
   */
  lemma MedianOfIntegralsIsHalfIntegral(xs: seq<real>)
    requires xs != []
    requires forall i :: 0 <= i < |xs| ==> IsIntegral(xs[i])
    ensures IsIntegral(2.0 * Median(xs).value)
  {
    var s := Sort(xs);
    var n := |s|;
    var a, b := s[(n - 1) / 2], s[n / 2];
    assert a in multiset(xs) && b in multiset(xs);
    var i :| 0 <= i < |xs| && xs[i] == a;
    var j :| 0 <= j < |xs| && xs[j] == b;
    TwiceMiddle(s);
    IntegralSum(a, b);
  }

  /** Twice the middle of a sorted sequence is the sum of its two middle values (one value twice when odd). */
  lemma TwiceMiddle(s: seq<real>)
    requires s != []
    ensures 2.0 * MiddleOf(s).value == s[(|s| - 1) / 2] + s[|s| / 2]
  {
    if |s| % 2 == 1 {
      assert (|s| - 1) / 2 == |s| / 2;
    }
  }

  lemma IntegralSum(a: real, b: real)
    requires IsIntegral(a) && IsIntegral(b)
    ensures IsIntegral(a + b)
  {
    assert a + b == (a.Floor + b.Floor) as real;
  }

  /**
   * `astype(int)` on a finite float: truncation toward zero, so a fractional part is
   * discarded, downward for positive values and upward for negative ones.
   */
  function Truncate(x: real): (k: int)
    ensures 0.0 <= x ==> k as real <= x < k as real + 1.0
    ensures x < 0.0 ==> k as real - 1.0 < x <= k as real
  {
    if x >= 0.0 then x.Floor else -((-x).Floor)
  }

  /** Truncation leaves a whole number as it is. */
  lemma TruncateIntegral(x: real)
    requires IsIntegral(x)
    ensures Truncate(x) as real == x
  {
    if x < 0.0 {
      assert (-x).Floor == -(x.Floor);
    }
  }
}
