/**
 Real polynomials as coefficient sequences, with the three numpy operations
 the certificate search relies on, re-expressed as pure sequence functions:
 `np.dot`, slicing with `[::-1]`, and `np.polyval` (Horner's rule on a
 highest-degree-first sequence).
 */
module Polynomials {

  /** `np.dot` of two vectors of equal length. */
  function Dot(a: seq<real>, b: seq<real>): real
    requires |a| == |b|
    decreases |a|
  {
    if |a| == 0 then 0.0 else a[0] * b[0] + Dot(a[1..], b[1..])
  }

  lemma DotOfPairs(a: seq<real>, b: seq<real>)
    requires |a| == 2 && |b| == 2
    ensures Dot(a, b) == a[0] * b[0] + a[1] * b[1]
  {
    assert a[1..][1..] == [] && b[1..][1..] == [];
    assert Dot(a[1..], b[1..]) == a[1] * b[1] + Dot(a[1..][1..], b[1..][1..]);
  }

  function Pow(x: real, n: nat): real {
    if n == 0 then 1.0 else x * Pow(x, n - 1)
  }

  /** The monomial vector (1, x, x^2, ..., x^(n-1)). */
  function Powers(n: nat, x: real): seq<real> {
    seq(n, j requires 0 <= j < n => Pow(x, j))
  }

  /** Every entry of `a` multiplied by `x`. */
  function Scale(x: real, a: seq<real>): seq<real> {
    seq(|a|, j requires 0 <= j < |a| => x * a[j])
  }

  /** `s[::-1]`. */
  function Reverse<T>(s: seq<T>): (r: seq<T>)
    ensures |r| == |s|
    ensures forall i :: 0 <= i < |s| ==> r[i] == s[|s| - 1 - i]
    decreases |s|
  {
    if |s| == 0 then [] else Reverse(s[1..]) + [s[0]]
  }

  /** `np.polyval(p, x)`: the coefficients run from the highest degree down to the constant term. */
  function Polyval(p: seq<real>, x: real): real
    decreases |p|
  {
    if |p| == 0 then 0.0 else Polyval(p[..|p| - 1], x) * x + p[|p| - 1]
  }

  /** The value of c[0] + c[1]*x + ... + c[n-1]*x^(n-1): coefficients lowest degree first. */
  function EvalLowFirst(c: seq<real>, x: real): real
    decreases |c|
  {
    if |c| == 0 then 0.0 else c[0] + x * EvalLowFirst(c[1..], x)
  }

  /** Reversing a lowest-degree-first sequence and handing it to `polyval` evaluates the same polynomial. */
  lemma {:induction false} PolyvalOfReverse(c: seq<real>, x: real)
    ensures Polyval(Reverse(c), x) == EvalLowFirst(c, x)
    decreases |c|
  {
    if |c| > 0 {
      var r := Reverse(c);
      assert r[..|r| - 1] == Reverse(c[1..]);
      assert r[|r| - 1] == c[0];
      PolyvalOfReverse(c[1..], x);
    }
  }

  lemma {:induction false} DotScaled(a: seq<real>, b: seq<real>, x: real)
    requires |a| == |b|
    ensures Dot(Scale(x, a), b) == x * Dot(a, b)
    decreases |a|
  {
    if |a| > 0 {
      var s := Scale(x, a);
      assert forall j :: 0 <= j < |a| - 1 ==> s[1..][j] == Scale(x, a[1..])[j];
      assert s[1..] == Scale(x, a[1..]);
      DotScaled(a[1..], b[1..], x);
    }
  }

  /** The dot product of the monomial vector with a coefficient row is that row's polynomial. */
  lemma {:induction false} DotPowers(c: seq<real>, x: real)
    ensures Dot(Powers(|c|, x), c) == EvalLowFirst(c, x)
    decreases |c|
  {
    if |c| > 0 {
      var m := Powers(|c|, x);
      var tail := Powers(|c| - 1, x);
      assert forall j :: 0 <= j < |tail| ==> m[1..][j] == Scale(x, tail)[j];
      assert m[1..] == Scale(x, tail);
      DotScaled(tail, c[1..], x);
      DotPowers(c[1..], x);
    }
  }

  /** `np.polyval(c[::-1], x)` equals `np.dot((1, x, ..., x^(n-1)), c)`. */
  lemma PolyvalOfReverseIsDot(c: seq<real>, x: real)
    ensures Polyval(Reverse(c), x) == Dot(Powers(|c|, x), c)
  {
    PolyvalOfReverse(c, x);
    DotPowers(c, x);
  }
}
