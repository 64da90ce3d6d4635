/** Exact arithmetic that stands in for the program's floating point: sums,
    SQL's NULL-ignoring SUM, and rounding to two decimal places. */
module Numbers {
  import opened Wrappers

  /** Rounding to hundredths, half-up, on exact reals. Stands in for both
      Python's `round(x, 2)` and SQLite's `ROUND(x, 2)`. */
  function Round2(x: real): (r: real)
    ensures x - 0.005 < r <= x + 0.005
    ensures r * 100.0 == (r * 100.0).Floor as real
  {
    ((x * 100.0 + 0.5).Floor as real) / 100.0
  }

  /** A value that is already a whole number of hundredths is left alone. */
  lemma Round2Hundredths(k: int)
    ensures Round2(k as real / 100.0) == k as real / 100.0
  {
    var y := (k as real / 100.0) * 100.0 + 0.5;
    assert y == k as real + 0.5;
    assert y.Floor == k;
  }

  /** Rounding twice is rounding once. */
  lemma Round2Idempotent(x: real)
    ensures Round2(Round2(x)) == Round2(x)
  {
    var r := Round2(x);
    var k := (r * 100.0).Floor;
    assert r == k as real / 100.0;
    Round2Hundredths(k);
  }

  /** SQL `ROUND` propagates NULL. */
  function RoundOpt(x: Option<real>): (r: Option<real>)
    ensures r.None? <==> x.None?
    ensures x.Some? ==> r.value == Round2(x.value)
  {
    match x
    case None => None
    case Some(v) => Some(Round2(v))
  }

  /** The sum of `f` over the elements of `s`. */
  function SumBy<T>(s: seq<T>, f: T -> real): real
  {
    if |s| == 0 then 0.0 else SumBy(s[..|s| - 1], f) + f(s[|s| - 1])
  }

  lemma {:induction false} SumByAppend<T>(s: seq<T>, t: seq<T>, f: T -> real)
    ensures SumBy(s + t, f) == SumBy(s, f) + SumBy(t, f)
    decreases |t|
  {
    if |t| == 0 {
      assert s + t == s;
    } else {
      var t' := t[..|t| - 1];
      assert (s + t)[..|s + t| - 1] == s + t';
      SumByAppend(s, t', f);
    }
  }

  /** Terms between `lo` and `hi` put the sum between `|s|` times each. */
  lemma {:induction false} SumByBounds<T>(s: seq<T>, f: T -> real, lo: real, hi: real)
    requires forall k :: 0 <= k < |s| ==> lo <= f(s[k]) <= hi
    ensures |s| as real * lo <= SumBy(s, f) <= |s| as real * hi
  {
    if |s| > 0 {
      var init := s[..|s| - 1];
      assert forall k :: 0 <= k < |init| ==> init[k] == s[k];
      SumByBounds(init, f, lo, hi);
      assert |s| as real * lo == |init| as real * lo + lo;
      assert |s| as real * hi == |init| as real * hi + hi;
    }
  }

  /** Taking one term out of a sum. */
  lemma SumByRemove<T>(b: seq<T>, j: int, f: T -> real)
    requires 0 <= j < |b|
    ensures SumBy(b, f) == SumBy(b[..j] + b[j + 1..], f) + f(b[j])
  {
    var pre, x, post := b[..j], b[j], b[j + 1..];
    assert b[..j + 1] == pre + [x];
    assert b == b[..j + 1] + post;
    SumBySplice(pre, x, post, f);
  }

  lemma SumBySplice<T>(pre: seq<T>, x: T, post: seq<T>, f: T -> real)
    ensures SumBy((pre + [x]) + post, f) == SumBy(pre + post, f) + f(x)
  {
    SumByAppend(pre + [x], post, f);
    SumByAppend(pre, [x], f);
    SumByAppend(pre, post, f);
    SumBySingle(x, f);
  }

  lemma SumBySingle<T>(x: T, f: T -> real)
    ensures SumBy([x], f) == f(x)
  {
    assert [x][..0] == [];
  }

  /** Taking out the element at `j` takes one copy of it out of the multiset. */
  lemma MultisetSplitAt<T>(b: seq<T>, j: int)
    requires 0 <= j < |b|
    ensures multiset(b) == multiset(b[..j] + b[j + 1..]) + multiset{b[j]}
  {
    assert b == b[..j] + [b[j]] + b[j + 1..];
  }

  lemma MultisetCancel<T>(a: seq<T>, b: seq<T>, j: int)
    requires |a| > 0 && 0 <= j < |b| && b[j] == a[|a| - 1]
    requires multiset(a) == multiset(b)
    ensures multiset(a[..|a| - 1]) == multiset(b[..j] + b[j + 1..])
  {
    var x := b[j];
    MultisetSplitAt(a, |a| - 1);
    assert a[..|a| - 1] + a[|a|..] == a[..|a| - 1];
    MultisetSplitAt(b, j);
    var ma, mb := multiset(a[..|a| - 1]), multiset(b[..j] + b[j + 1..]);
    assert ma + multiset{x} == mb + multiset{x};
    assert ma == ma + multiset{x} - multiset{x};
    assert mb == mb + multiset{x} - multiset{x};
  }

  /** A sum does not depend on the order of its terms. */
  lemma {:induction false} SumByPermutation<T>(a: seq<T>, b: seq<T>, f: T -> real)
    requires multiset(a) == multiset(b)
    ensures SumBy(a, f) == SumBy(b, f)
    decreases |a|
  {
    if |a| == 0 {
      assert |b| == |multiset(b)| == 0;
    } else {
      var x := a[|a| - 1];
      assert x in multiset(b);
      var j :| 0 <= j < |b| && b[j] == x;
      MultisetCancel(a, b, j);
      SumByPermutation(a[..|a| - 1], b[..j] + b[j + 1..], f);
      SumByRemove(b, j, f);
    }
  }


  /** SQL `SUM` over a column: NULLs are skipped, and the result is NULL when
      every value is NULL (in particular over no rows at all). */
  function SqlSum(xs: seq<Option<real>>): (r: Option<real>)
    ensures r.None? <==> forall i :: 0 <= i < |xs| ==> xs[i].None?
    ensures r.Some? ==> r.value == SumBy(xs, OrZero)
  {
    if |xs| == 0 then None
    else
      var init := xs[..|xs| - 1];
      var r := SqlSum(init);
      assert forall i :: 0 <= i < |init| ==> init[i] == xs[i];
      NullsSumToZero(init);
      match xs[|xs| - 1]
      case None => r
      case Some(v) => Some(r.GetOr(0.0) + v)
  }

  lemma {:induction false} NullsSumToZero(xs: seq<Option<real>>)
    ensures (forall i :: 0 <= i < |xs| ==> xs[i].None?) ==> SumBy(xs, OrZero) == 0.0
  {
    if |xs| > 0 {
      var init := xs[..|xs| - 1];
      assert forall i :: 0 <= i < |init| ==> init[i] == xs[i];
      NullsSumToZero(init);
    }
  }

  function OrZero(x: Option<real>): real { x.GetOr(0.0) }

  /** One more non-NULL value makes the SQL sum that value larger. */
  lemma SqlSumSnoc(xs: seq<Option<real>>, v: real)
    ensures SqlSum(xs + [Some(v)]) == Some(SumBy(xs, OrZero) + v)
  {
    var ys := xs + [Some(v)];
    assert ys[|xs|].Some?;
    assert ys[..|ys| - 1] == xs;
  }
}
