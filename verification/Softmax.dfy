/** The masked, max-stabilised softmax of one score row. A masked score is
    minus infinity, which the exponential sends to zero. */
module Softmax {
  import opened Vectors

  datatype Score = NegInf | Fin(v: real)

  ghost predicate ExpLawsAt(exp: real -> real, x: real, y: real) {
    exp(x) > 0.0 && exp(x + y) == exp(x) * exp(y)
  }

  /** The two laws of the exponential the proofs use: it is positive and
      turns sums into products. */
  ghost predicate ExpLaws(exp: real -> real) {
    forall x, y :: ExpLawsAt(exp, x, y)
  }

  lemma ExpIsPositive(exp: real -> real, x: real)
    requires ExpLaws(exp)
    ensures exp(x) > 0.0
  {
    assert ExpLawsAt(exp, x, x);
  }

  ghost predicate HasFinite(s: seq<Score>) {
    exists i :: 0 <= i < |s| && s[i].Fin?
  }

  function Larger(a: Score, b: Score): Score {
    match (a, b)
    case (NegInf, _) => b
    case (_, NegInf) => a
    case (Fin(x), Fin(y)) => if x < y then b else a
  }

  /** The maximum of the first `n` scores; minus infinity is the least score. */
  function MaxN(s: seq<Score>, n: nat): Score
    requires n <= |s|
  {
    if n == 0 then NegInf else Larger(MaxN(s, n - 1), s[n - 1])
  }

  /** `exp(score - m)`, with `exp(-inf) == 0`. */
  function ExpShifted(exp: real -> real, m: real, s: Score): real {
    match s
    case NegInf => 0.0
    case Fin(v) => exp(v - m)
  }

  function Exps(exp: real -> real, m: real, s: seq<Score>): (e: Vec) {
    seq(|s|, i requires 0 <= i < |s| => ExpShifted(exp, m, s[i]))
  }

  /** Exponentials are never negative, and positive on finite scores. */
  lemma ExpsSigns(exp: real -> real, m: real, s: seq<Score>)
    requires ExpLaws(exp)
    ensures forall i :: 0 <= i < |s| ==> (if s[i].NegInf? then Exps(exp, m, s)[i] == 0.0 else Exps(exp, m, s)[i] > 0.0)
  {
    forall i | 0 <= i < |s| && s[i].Fin?
      ensures Exps(exp, m, s)[i] > 0.0
    {
      ExpIsPositive(exp, s[i].v - m);
    }
  }

  lemma {:induction false} MaxIsLargest(s: seq<Score>, n: nat)
    requires n <= |s|
    ensures forall i :: 0 <= i < n && s[i].Fin? ==> MaxN(s, n).Fin? && s[i].v <= MaxN(s, n).v
    ensures MaxN(s, n).Fin? ==> exists i :: 0 <= i < n && s[i] == MaxN(s, n)
  {
    if n > 0 {
      MaxIsLargest(s, n - 1);
      if MaxN(s, n).Fin? && MaxN(s, n) != s[n - 1] {
        var i :| 0 <= i < n - 1 && s[i] == MaxN(s, n - 1);
        assert s[i] == MaxN(s, n);
      }
    }
  }

  /** The row's normaliser: positive, because some score is finite. */
  lemma {:induction false} NormaliserPositive(exp: real -> real, m: real, s: seq<Score>)
    requires ExpLaws(exp) && HasFinite(s)
    ensures Sum(Exps(exp, m, s)) > 0.0
  {
    var i :| 0 <= i < |s| && s[i].Fin?;
    var e := Exps(exp, m, s);
    ExpsSigns(exp, m, s);
    SumPositive(e, |e|);
    assert e[i] > 0.0;
  }

  /** One softmax row, as the reference computes it: subtract the row
      maximum, exponentiate, divide by the sum. */
  function SoftmaxRow(exp: real -> real, s: seq<Score>): (w: Vec)
    requires ExpLaws(exp) && HasFinite(s)
    ensures |w| == |s|
  {
    MaxIsLargest(s, |s|);
    var m := MaxN(s, |s|).v;
    NormaliserPositive(exp, m, s);
    var e := Exps(exp, m, s);
    var z := Sum(e);
    seq(|s|, i requires 0 <= i < |s| => e[i] / z)
  }

  /** Shifting every score by a constant scales every exponential alike. */
  lemma ExpsShift(exp: real -> real, m: real, s: seq<Score>)
    requires ExpLaws(exp)
    ensures |Exps(exp, m, s)| == |Exps(exp, 0.0, s)| == |s|
    ensures forall i :: 0 <= i < |s| ==> Exps(exp, m, s)[i] == Exps(exp, 0.0, s)[i] * exp(-m)
  {
    forall i | 0 <= i < |s|
      ensures Exps(exp, m, s)[i] == Exps(exp, 0.0, s)[i] * exp(-m)
    {
      if s[i].Fin? {
        assert ExpLawsAt(exp, s[i].v, -m);
        assert s[i].v - m == s[i].v + -m && s[i].v - 0.0 == s[i].v;
      }
    }
  }

  /** Scaling both parts of a quotient. */
  lemma QuotientOfScaled(a: real, b: real, c: real, x: real, y: real)
    requires b > 0.0 && c > 0.0 && x == a * c && y == b * c
    ensures y > 0.0 && x / y == a / b
  {
    var q := a / b;
    assert a == q * b;
    ProductOfThree(q, b, c, a, y);
    assert x == q * y;
  }

  lemma QuotientSign(a: real, b: real)
    requires a >= 0.0 && b > 0.0
    ensures a / b >= 0.0 && (a > 0.0 ==> a / b > 0.0)
    ensures a / b == a * (1.0 / b)
  {
  }

  /** The stabilisation is exact: subtracting the row maximum leaves the
      weights those of the plain softmax. */
  lemma StabilisationIsExact(exp: real -> real, s: seq<Score>)
    requires ExpLaws(exp) && HasFinite(s)
    ensures Sum(Exps(exp, 0.0, s)) > 0.0
    ensures forall i :: 0 <= i < |s| ==>
      SoftmaxRow(exp, s)[i] == ExpShifted(exp, 0.0, s[i]) / Sum(Exps(exp, 0.0, s))
  {
    MaxIsLargest(s, |s|);
    var m := MaxN(s, |s|).v;
    var e, e0 := Exps(exp, m, s), Exps(exp, 0.0, s);
    NormaliserPositive(exp, m, s);
    NormaliserPositive(exp, 0.0, s);
    ExpsShift(exp, m, s);
    SumScaled(e0, e, exp(-m), |s|);
    ExpIsPositive(exp, -m);
    forall i | 0 <= i < |s|
      ensures SoftmaxRow(exp, s)[i] == e0[i] / Sum(e0)
    {
      QuotientOfScaled(e0[i], Sum(e0), exp(-m), e[i], Sum(e));
    }
  }

  /** Dividing non-negative numbers by their sum. */
  lemma Normalised(e: Vec, w: Vec)
    requires Sum(e) > 0.0 && |w| == |e|
    requires forall i :: 0 <= i < |e| ==> e[i] >= 0.0 && w[i] == e[i] / Sum(e)
    ensures Sum(w) == 1.0
    ensures forall i :: 0 <= i < |e| ==> (if e[i] == 0.0 then w[i] == 0.0 else w[i] > 0.0)
  {
    var c := 1.0 / Sum(e);
    forall i | 0 <= i < |e|
      ensures w[i] == e[i] * c && w[i] >= 0.0 && (e[i] > 0.0 ==> w[i] > 0.0)
    {
      QuotientSign(e[i], Sum(e));
    }
    SumScaled(e, w, c, |e|);
  }

  /** The weights are a probability distribution supported exactly on the
      unmasked columns. */
  lemma SoftmaxIsDistribution(exp: real -> real, s: seq<Score>)
    requires ExpLaws(exp) && HasFinite(s)
    ensures Sum(SoftmaxRow(exp, s)) == 1.0
    ensures forall i :: 0 <= i < |s| ==> (if s[i].NegInf? then SoftmaxRow(exp, s)[i] == 0.0 else SoftmaxRow(exp, s)[i] > 0.0)
  {
    MaxIsLargest(s, |s|);
    var m := MaxN(s, |s|).v;
    NormaliserPositive(exp, m, s);
    ExpsSigns(exp, m, s);
    Normalised(Exps(exp, m, s), SoftmaxRow(exp, s));
  }

  /** A masked tail changes no weight and adds only zeros. */
  lemma MaskedTail(exp: real -> real, s: seq<Score>, t: seq<Score>)
    requires ExpLaws(exp) && HasFinite(s) && |s| <= |t| && s == t[..|s|]
    requires forall i :: |s| <= i < |t| ==> t[i].NegInf?
    ensures HasFinite(t)
    ensures SoftmaxRow(exp, t)[..|s|] == SoftmaxRow(exp, s)
    ensures forall i :: |s| <= i < |t| ==> SoftmaxRow(exp, t)[i] == 0.0
  {
    var k :| 0 <= k < |s| && s[k].Fin?;
    assert t[k].Fin?;
    StabilisationIsExact(exp, s);
    StabilisationIsExact(exp, t);
    var e, f := Exps(exp, 0.0, s), Exps(exp, 0.0, t);
    SumZeroTail(f, |s|, |t|);
    SumPrefix(e, f, |s|);
    SoftmaxIsDistribution(exp, t);
  }

  /** A weighted sum under non-negative weights is bounded by any bounds on
      the entries that carry weight. */
  lemma {:induction false} WeightedBounds(w: Vec, x: Vec, lo: real, hi: real, n: nat)
    requires n <= |w| && n <= |x|
    requires forall i :: 0 <= i < n ==> w[i] >= 0.0
    requires forall i :: 0 <= i < n && w[i] != 0.0 ==> lo <= x[i] <= hi
    ensures lo * SumN(w, n) <= DotN(w, x, n) <= hi * SumN(w, n)
  {
    if n > 0 {
      WeightedBounds(w, x, lo, hi, n - 1);
      var t, d, v := SumN(w, n - 1), DotN(w, x, n - 1), w[n - 1];
      TermBounds(v, x[n - 1], lo, hi);
      BoundStep(v, lo, t, d, lo * t, v * x[n - 1], lo * v);
      BoundStep(v, hi, t, hi * t, d, hi * v, v * x[n - 1]);
    }
  }

  /** One weighted entry within its bounds. */
  lemma TermBounds(w: real, x: real, lo: real, hi: real)
    requires w >= 0.0 && (w != 0.0 ==> lo <= x <= hi)
    ensures lo * w <= w * x <= hi * w
  {
    if w != 0.0 {
      Product(w, lo, x);
      Product(w, x, hi);
    }
  }

  lemma Product(w: real, a: real, b: real)
    requires w >= 0.0 && a <= b
    ensures w * a <= w * b
  {
  }

  /** Adding `w` to the total adds `bound * w` to its bound. */
  lemma BoundStep(w: real, bound: real, total: real, more: real, less: real, moreTerm: real, lessTerm: real)
    requires less <= more && lessTerm <= moreTerm
    ensures less + lessTerm <= more + moreTerm
    ensures bound * (total + w) == bound * total + bound * w
  {
  }

  /** Softmax attention is a convex combination of the unmasked values. */
  lemma SoftmaxIsConvex(exp: real -> real, s: seq<Score>, x: Vec, lo: real, hi: real)
    requires ExpLaws(exp) && HasFinite(s) && |x| == |s|
    requires forall i :: 0 <= i < |s| && s[i].Fin? ==> lo <= x[i] <= hi
    ensures lo <= Dot(SoftmaxRow(exp, s), x) <= hi
  {
    SoftmaxIsDistribution(exp, s);
    WeightedBounds(SoftmaxRow(exp, s), x, lo, hi, |s|);
  }
}
