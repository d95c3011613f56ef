/**
 * The order in which `pd.get_dummies` lays out its indicator columns: the distinct
 * values of the encoded column, sorted the way Python compares strings (code point
 * by code point, a proper prefix first).
 */
module Collation {

  /** `a` sorts strictly before `b`. */
  predicate Below(a: string, b: string) {
    if |a| == 0 then |b| > 0
    else if |b| == 0 then false
    else if a[0] == b[0] then Below(a[1..], b[1..])
    else a[0] < b[0]
  }

  lemma {:induction false} BelowIrreflexive(a: string)
    ensures !Below(a, a)
  {
    if |a| > 0 {
      BelowIrreflexive(a[1..]);
    }
  }

  lemma {:induction false} BelowTransitive(a: string, b: string, c: string)
    requires Below(a, b) && Below(b, c)
    ensures Below(a, c)
  {
    if |a| > 0 && |b| > 0 && |c| > 0 && a[0] == b[0] && b[0] == c[0] {
      BelowTransitive(a[1..], b[1..], c[1..]);
    }
  }

  lemma {:induction false} BelowTotal(a: string, b: string)
    ensures a == b || Below(a, b) || Below(b, a)
  {
    if |a| > 0 && |b| > 0 && a[0] == b[0] {
      BelowTotal(a[1..], b[1..]);
      assert a == [a[0]] + a[1..] && b == [b[0]] + b[1..];
    }
  }

  predicate StrictlySorted(s: seq<string>) {
    forall i, j :: 0 <= i < j < |s| ==> Below(s[i], s[j])
  }

  /** A strictly sorted sequence has no repeated element. */
  lemma StrictlySortedIsDistinct(s: seq<string>, i: int, j: int)
    requires StrictlySorted(s)
    requires 0 <= i < |s| && 0 <= j < |s| && i != j
    ensures s[i] != s[j]
  {
    if i < j { BelowIrreflexive(s[i]); } else { BelowIrreflexive(s[j]); }
  }

  /** `x` added to the strictly sorted `s`, unless it is already there. */
  function InsertDistinct(x: string, s: seq<string>): (r: seq<string>)
    requires StrictlySorted(s)
    ensures StrictlySorted(r)
    ensures forall c :: c in r <==> c in s || c == x
  {
    if s == [] then [x]
    else if x == s[0] then s
    else if Below(x, s[0]) then
      assert forall k :: 0 < k < |s| ==> Below(x, s[k]) by {
        forall k | 0 < k < |s| { BelowTransitive(x, s[0], s[k]); }
      }
      [x] + s
    else
      BelowTotal(x, s[0]);
      var tail := InsertDistinct(x, s[1..]);
      assert forall c :: c in s <==> c == s[0] || c in s[1..] by {
        assert s == [s[0]] + s[1..];
      }
      assert forall k :: 0 <= k < |tail| ==> Below(s[0], tail[k]) by {
        forall k | 0 <= k < |tail| ensures Below(s[0], tail[k]) {
          assert tail[k] in tail;
        }
      }
      [s[0]] + tail
  }

  /** The distinct elements of `xs`, in sorted order. */
  function SortedDistinct(xs: seq<string>): (r: seq<string>)
    ensures StrictlySorted(r)
    ensures forall c :: c in r <==> c in xs
  {
    if xs == [] then []
    else
      assert forall c :: c in xs <==> c == xs[0] || c in xs[1..] by {
        assert xs == [xs[0]] + xs[1..];
      }
      InsertDistinct(xs[0], SortedDistinct(xs[1..]))
  }
}
