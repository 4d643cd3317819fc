/** Finite real vectors and matrices, as the NumPy references use them. */
module Vectors {
  type Vec = seq<real>
  type Mat = seq<Vec>

  predicate IsMat(m: Mat, rows: nat, cols: nat) {
    |m| == rows && forall i :: 0 <= i < rows ==> |m[i]| == cols
  }

  /** The sum of the first `n` entries. */
  function SumN(a: Vec, n: nat): real
    requires n <= |a|
  {
    if n == 0 then 0.0 else SumN(a, n - 1) + a[n - 1]
  }

  function Sum(a: Vec): real {
    SumN(a, |a|)
  }

  /** The dot product over the first `n` entries. */
  function DotN(a: Vec, b: Vec, n: nat): real
    requires n <= |a| && n <= |b|
  {
    if n == 0 then 0.0 else DotN(a, b, n - 1) + a[n - 1] * b[n - 1]
  }

  function Dot(a: Vec, b: Vec): real
    requires |a| == |b|
  {
    DotN(a, b, |a|)
  }

  /** `x @ m.T` for one row `x`. */
  function MatVec(m: Mat, x: Vec): (r: Vec)
    requires IsMat(m, |m|, |x|)
  {
    seq(|m|, i requires 0 <= i < |m| => Dot(m[i], x))
  }

  function Scale(a: Vec, c: real): (r: Vec) {
    seq(|a|, i requires 0 <= i < |a| => a[i] * c)
  }

  function Divide(a: Vec, c: real): (r: Vec)
    requires c != 0.0
  {
    seq(|a|, i requires 0 <= i < |a| => a[i] / c)
  }

  function Add(a: Vec, b: Vec): (r: Vec)
    requires |a| == |b|
  {
    seq(|a|, i requires 0 <= i < |a| => a[i] + b[i])
  }

  function Times(a: Vec, b: Vec): (r: Vec)
    requires |a| == |b|
  {
    seq(|a|, i requires 0 <= i < |a| => a[i] * b[i])
  }

  function Map(f: real -> real, a: Vec): (r: Vec) {
    seq(|a|, i requires 0 <= i < |a| => f(a[i]))
  }

  /** Column `j` of the rows of `m`. */
  function Column(m: Mat, j: nat): (r: Vec)
    requires forall i :: 0 <= i < |m| ==> j < |m[i]|
  {
    seq(|m|, i requires 0 <= i < |m| => m[i][j])
  }

  /** Row `h` of a two-dimensional array. */
  function Row(v: array2<real>, h: nat): (r: Vec)
    requires h < v.Length0
    reads v
  {
    seq(v.Length1, j requires 0 <= j < v.Length1 reads v => v[h, j])
  }

  function Rows(v: array2<real>): (r: Mat)
    reads v
  {
    seq(v.Length0, h requires 0 <= h < v.Length0 reads v => Row(v, h))
  }

  lemma {:induction false} SumPrefix(a: Vec, b: Vec, n: nat)
    requires n <= |a| && n <= |b|
    requires forall i :: 0 <= i < n ==> a[i] == b[i]
    ensures SumN(a, n) == SumN(b, n)
  {
    if n > 0 {
      SumPrefix(a, b, n - 1);
    }
  }

  lemma {:induction false} DotPrefix(a: Vec, b: Vec, c: Vec, d: Vec, n: nat)
    requires n <= |a| && n <= |b| && n <= |c| && n <= |d|
    requires forall i :: 0 <= i < n ==> a[i] == c[i] && b[i] == d[i]
    ensures DotN(a, b, n) == DotN(c, d, n)
  {
    if n > 0 {
      DotPrefix(a, b, c, d, n - 1);
    }
  }

  /** Entries past `n` that are zero in the left factor add nothing. */
  lemma {:induction false} DotZeroTail(a: Vec, b: Vec, n: nat, m: nat)
    requires n <= m <= |a| && m <= |b|
    requires forall i :: n <= i < m ==> a[i] == 0.0
    ensures DotN(a, b, m) == DotN(a, b, n)
  {
    if m > n {
      DotZeroTail(a, b, n, m - 1);
    }
  }

  lemma {:induction false} SumZeroTail(a: Vec, n: nat, m: nat)
    requires n <= m <= |a|
    requires forall i :: n <= i < m ==> a[i] == 0.0
    ensures SumN(a, m) == SumN(a, n)
  {
    if m > n {
      SumZeroTail(a, n, m - 1);
    }
  }

  lemma {:induction false} SumScaled(a: Vec, b: Vec, c: real, n: nat)
    requires n <= |a| && n <= |b|
    requires forall i :: 0 <= i < n ==> b[i] == a[i] * c
    ensures SumN(b, n) == SumN(a, n) * c
  {
    if n > 0 {
      SumScaled(a, b, c, n - 1);
    }
  }

  lemma {:induction false} DotDivided(a: Vec, b: Vec, c: real, n: nat)
    requires n <= |a| && n <= |b| && c != 0.0
    ensures DotN(Divide(a, c), b, n) == DotN(a, b, n) / c
  {
    if n > 0 {
      DotDivided(a, b, c, n - 1);
      DivideStep(DotN(a, b, n - 1), a[n - 1], b[n - 1], c);
    }
  }

  lemma DivideStep(d: real, x: real, y: real, c: real)
    requires c != 0.0
    ensures d / c + (x / c) * y == (d + x * y) / c
  {
    var p := x / c;
    assert p * c == x;
    assert (p * y) * c == x * y;
    assert (x * y) / c == p * y;
  }

  lemma {:induction false} SumPositive(a: Vec, n: nat)
    requires n <= |a|
    requires forall i :: 0 <= i < n ==> a[i] >= 0.0
    ensures SumN(a, n) >= 0.0
    ensures forall i :: 0 <= i < n ==> SumN(a, n) >= a[i]
  {
    if n > 0 {
      SumPositive(a, n - 1);
    }
  }

  /** `c` is `a + k * b` over the first `n` entries. */
  lemma {:induction false} DotLinear(a: Vec, b: Vec, c: Vec, k: real, x: Vec, n: nat)
    requires n <= |a| && n <= |b| && n <= |c| && n <= |x|
    requires forall i :: 0 <= i < n ==> c[i] == a[i] + k * b[i]
    ensures DotN(c, x, n) == DotN(a, x, n) + k * DotN(b, x, n)
  {
    if n > 0 {
      DotLinear(a, b, c, k, x, n - 1);
      LinearStep(DotN(a, x, n - 1), DotN(b, x, n - 1), a[n - 1], b[n - 1], k, x[n - 1]);
    }
  }

  lemma LinearStep(d: real, e: real, a: real, b: real, k: real, x: real)
    ensures d + k * e + (a + k * b) * x == d + a * x + k * (e + b * x)
  {
  }

  lemma ProductOfThree(a: real, b: real, c: real, ab: real, bc: real)
    requires ab == a * b && bc == b * c
    ensures ab * c == a * bc
  {
  }

  lemma {:induction false} DotCommutes(a: Vec, b: Vec, n: nat)
    requires n <= |a| && n <= |b|
    ensures DotN(a, b, n) == DotN(b, a, n)
  {
    if n > 0 {
      DotCommutes(a, b, n - 1);
    }
  }
}
