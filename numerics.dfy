/** The numeric facilities the capacity code relies on: Python's two-argument
    min and max, NumPy's sum and min reductions, scalar-times-array, and the
    float64 values (finite, infinite, not-a-number) that a division can
    produce. Arithmetic is exact over `real`; IEEE rounding is not modelled. */
module Numerics {

  /** A float64 result: a finite value or one of IEEE-754's special values. */
  datatype Float = Finite(value: real) | PosInf | NegInf | NaN

  /** The exceptions the modelled code can raise. */
  datatype Error =
    | EmptyReduction      // np.min over a zero-length array (ValueError)
    | ZeroDivision        // Python float division by 0.0 (ZeroDivisionError)
    | OptimizationFailed  // the explicit ValueError("Optimization failed")

  datatype Result<T> = Ok(value: T) | Err(error: Error)

  /** Python's built-in min(a, b): the first argument unless the second is smaller. */
  function Min(a: real, b: real): (r: real)
    ensures r <= a && r <= b
    ensures r == a || r == b
  {
    if b < a then b else a
  }

  /** Python's built-in max(a, b): the first argument unless the second is larger. */
  function Max(a: real, b: real): (r: real)
    ensures r >= a && r >= b
    ensures r == a || r == b
  {
    if b > a then b else a
  }

  /** Division of two float64 operands that are finite: a finite quotient when
      the divisor is non-zero, otherwise an infinity of the dividend's sign,
      or NaN for 0/0. */
  function Divide(a: real, b: real): (r: Float)
    ensures r.Finite? <==> b != 0.0
    ensures r.Finite? ==> r.value * b == a
    ensures r == PosInf <==> b == 0.0 && a > 0.0
  {
    if b != 0.0 then Finite(a / b)
    else if a > 0.0 then PosInf
    else if a < 0.0 then NegInf
    else NaN
  }

  /** np.sum over a one-dimensional array. */
  function Sum(s: seq<real>): real
  {
    if |s| == 0 then 0.0 else s[0] + Sum(s[1..])
  }

  /** NumPy's array-times-scalar, element by element. */
  function Scale(s: seq<real>, k: real): (r: seq<real>)
    ensures |r| == |s|
  {
    seq(|s|, i requires 0 <= i < |s| => s[i] * k)
  }

  /** np.min over a non-empty one-dimensional array: an element of the array
      that no element is below. */
  function Minimum(s: seq<real>): (m: real)
    requires |s| > 0
    ensures m in s
    ensures forall i :: 0 <= i < |s| ==> m <= s[i]
  {
    if |s| == 1 then s[0] else Min(s[0], Minimum(s[1..]))
  }

  lemma {:induction false} SumScale(s: seq<real>, k: real)
    ensures Sum(Scale(s, k)) == k * Sum(s)
  {
    if |s| > 0 {
      forall i | 0 <= i < |s| - 1 ensures Scale(s, k)[1..][i] == Scale(s[1..], k)[i] {
        assert Scale(s, k)[i + 1] == s[i + 1] * k;
      }
      assert Scale(s, k)[1..] == Scale(s[1..], k);
      SumScale(s[1..], k);
    }
  }

  lemma {:induction false} SumNonNegative(s: seq<real>)
    requires forall i :: 0 <= i < |s| ==> s[i] >= 0.0
    ensures Sum(s) >= 0.0
  {
    if |s| > 0 {
      SumNonNegative(s[1..]);
    }
  }

  lemma {:induction false} SumMonotone(a: seq<real>, b: seq<real>)
    requires |a| == |b|
    requires forall i :: 0 <= i < |a| ==> a[i] <= b[i]
    ensures Sum(a) <= Sum(b)
  {
    if |a| > 0 {
      SumMonotone(a[1..], b[1..]);
    }
  }

  lemma MinimumMonotone(a: seq<real>, b: seq<real>)
    requires |a| == |b| > 0
    requires forall i :: 0 <= i < |a| ==> a[i] <= b[i]
    ensures Minimum(a) <= Minimum(b)
  {
    var j :| 0 <= j < |b| && b[j] == Minimum(b);
    assert Minimum(a) <= a[j];
  }

  /** np.min(s) >= v exactly when every element is at least v. */
  lemma MinimumAtLeast(s: seq<real>, v: real)
    requires |s| > 0
    ensures Minimum(s) >= v <==> forall i :: 0 <= i < |s| ==> s[i] >= v
  {
    if Minimum(s) < v {
      var j :| 0 <= j < |s| && s[j] == Minimum(s);
      assert s[j] < v;
    }
  }

  lemma MulNonNegative(a: real, b: real)
    requires a >= 0.0 && b >= 0.0
    ensures a * b >= 0.0
  {
  }

  lemma MulPositive(a: real, b: real)
    requires a > 0.0 && b > 0.0
    ensures a * b > 0.0
  {
  }

  /** Equal factors give equal products (a hint for the solver, which does
      not always rewrite inside a product). */
  lemma MulCongruence(k: real, a: real, b: real)
    requires a == b
    ensures k * a == k * b
  {
  }

  lemma MulMonotone(k: real, a: real, b: real)
    requires k >= 0.0 && a <= b
    ensures k * a <= k * b
  {
    MulNonNegative(k, b - a);
  }

  lemma AddMonotone(a: real, a': real, b: real, b': real)
    requires a <= a' && b <= b'
    ensures a + b <= a' + b'
  {
  }

  /** A non-negative dividend over a positive divisor: finite and non-negative. */
  lemma DivideNonNegative(a: real, b: real)
    requires a >= 0.0 && b > 0.0
    ensures Divide(a, b).Finite? && Divide(a, b).value >= 0.0
  {
  }

  /** Over a positive divisor the quotient grows with the dividend. */
  lemma DivideMonotone(a: real, a': real, b: real)
    requires a <= a' && b > 0.0
    ensures Divide(a, b).Finite? && Divide(a', b).Finite?
    ensures Divide(a, b).value <= Divide(a', b).value
  {
    assert a / b <= a' / b;
  }
}
