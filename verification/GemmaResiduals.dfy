/** What the normalisation and the two residual branches of the reference
    forward pass do to a row. */
module GemmaResiduals {
  import opened Vectors
  import opened GemmaForward

  /* ---- normalisation ---- */

  lemma {:induction false} DotOfScaled(a: Vec, b: Vec, a': Vec, b': Vec, c: real, e: real, n: nat)
    requires n <= |a| && n <= |b| && n <= |a'| && n <= |b'|
    requires forall i :: 0 <= i < n ==> a'[i] == a[i] * c && b'[i] == b[i] * e
    ensures DotN(a', b', n) == DotN(a, b, n) * (c * e)
  {
    if n > 0 {
      DotOfScaled(a, b, a', b', c, e, n - 1);
      ScaledProduct(a[n - 1], b[n - 1], c, e);
      Distribute(DotN(a, b, n - 1), a[n - 1] * b[n - 1], c * e);
    }
  }

  lemma ScaledProduct(x: real, y: real, c: real, e: real)
    ensures (x * c) * (y * e) == (x * y) * (c * e)
  {
  }

  lemma Distribute(a: real, b: real, k: real)
    ensures (a + b) * k == a * k + b * k
  {
  }

  /** A row of ones. */
  function Ones(n: nat): (r: Vec) {
    seq(n, _ => 1.0)
  }

  /** The mean square of a row. */
  function MeanSquare(x: Vec): real
    requires x != []
  {
    Dot(x, x) / |x| as real
  }

  /** Quotients by `z`, where `z * z` is `ms + eps`. */
  lemma NormalisedMean(dot: real, n: real, z: real, eps: real)
    requires n > 0.0 && z > 0.0 && z * z == dot / n + eps
    ensures dot / n + eps > 0.0
    ensures dot * ((1.0 / z) * (1.0 / z)) / n == (dot / n) / (dot / n + eps)
  {
    var w, ms := 1.0 / z, dot / n;
    assert z * w == 1.0;
    calc {
      (z * z) * (w * w);
      (z * w) * (z * w);
      1.0;
    }
    var s, v := z * z, w * w;
    assert s > 0.0 && s * v == 1.0;
    assert ms * n == dot;
    Reciprocal(ms, s, v);
    calc {
      dot * v / n;
      (ms * v * n) / n;
      ms * v;
    }
  }

  lemma Reciprocal(ms: real, s: real, v: real)
    requires s > 0.0 && s * v == 1.0
    ensures ms * v == ms / s
  {
    var q := ms / s;
    assert q * s == ms;
    assert ms * v == q * (s * v);
  }

  /** RMS normalisation: with unit gain the mean square of the result is
      `ms / (ms + EPS)`, whatever the row was. */
  lemma RmsNormalises(g: Gemma, x: Vec)
    requires g.Valid() && |x| == g.d.nEmbd
    requires forall v :: v > 0.0 ==> g.sqrt(v) * g.sqrt(v) == v
    ensures MeanSquare(x) >= 0.0
    ensures MeanSquare(g.Rms(x, Ones(g.d.nEmbd))) == MeanSquare(x) / (MeanSquare(x) + EPS)
  {
    SumOfSquares(x, |x|);
    Gemma.MeanNonNegative(Dot(x, x), |x| as real);
    var z := g.sqrt(MeanSquare(x) + EPS);
    var r := g.Rms(x, Ones(g.d.nEmbd));
    RmsScales(g, x, z, r);
    RowNormalised(x, r, z, EPS);
  }

  lemma RowNormalised(x: Vec, r: Vec, z: real, eps: real)
    requires |r| == |x| > 0 && z > 0.0 && z * z == MeanSquare(x) + eps
    requires forall i :: 0 <= i < |x| ==> r[i] == x[i] * (1.0 / z)
    ensures MeanSquare(x) + eps > 0.0 && MeanSquare(r) == MeanSquare(x) / (MeanSquare(x) + eps)
  {
    DotOfScaled(x, x, r, r, 1.0 / z, 1.0 / z, |x|);
    NormalisedMean(Dot(x, x), |x| as real, z, eps);
  }

  lemma RmsScales(g: Gemma, x: Vec, z: real, r: Vec)
    requires g.Valid() && |x| == g.d.nEmbd && Dot(x, x) / |x| as real + EPS > 0.0
    requires z == g.sqrt(Dot(x, x) / |x| as real + EPS) && r == g.Rms(x, Ones(g.d.nEmbd))
    ensures z > 0.0 && |r| == |x| && forall i :: 0 <= i < |x| ==> r[i] == x[i] * (1.0 / z)
  {
    forall i | 0 <= i < |x| ensures r[i] == x[i] * (1.0 / z) {
      Quotient(x[i], z);
    }
  }

  lemma Quotient(x: real, z: real)
    requires z > 0.0
    ensures x / z * 1.0 == x * (1.0 / z)
  {
  }

  /* ---- the branches ---- */

  predicate IsZero(m: Mat) {
    forall i, j :: 0 <= i < |m| && 0 <= j < |m[i]| ==> m[i][j] == 0.0
  }

  lemma ZeroMatVec(m: Mat, x: Vec)
    requires IsMat(m, |m|, |x|) && IsZero(m)
    ensures forall i :: 0 <= i < |m| ==> MatVec(m, x)[i] == 0.0
  {
    forall i | 0 <= i < |m| ensures MatVec(m, x)[i] == 0.0 {
      DotZeroTail(m[i], x, 0, |x|);
    }
  }

  lemma ZeroAdds(x: Vec, z: Vec)
    requires |x| == |z| && forall i :: 0 <= i < |z| ==> z[i] == 0.0
    ensures Add(x, z) == x
  {
  }

  /** Both branches are residual: a layer whose output and down projections
      are zero leaves every row as it was. */
  lemma SilentLayerKeepsRows(g: Gemma, l: Layer, x: Mat, s: int)
    requires g.Valid() && l.Valid(g.d) && IsMat(x, |x|, g.d.nEmbd)
    requires IsZero(l.output) && IsZero(l.down)
    ensures g.LayerStep(l, x, s) == x
  {
    forall r: Vec, att: Mat | |r| == g.d.nEmbd && IsMat(att, g.d.nHead, g.d.hd)
      ensures g.Residuals(l, r, att) == r
    {
      SilentResiduals(g, l, r, att);
    }
  }

  lemma SilentResiduals(g: Gemma, l: Layer, r: Vec, att: Mat)
    requires g.Valid() && l.Valid(g.d) && |r| == g.d.nEmbd && IsMat(att, g.d.nHead, g.d.hd)
    requires IsZero(l.output) && IsZero(l.down)
    ensures g.Residuals(l, r, att) == r
  {
    ZeroMatVec(l.output, Flatten(att, g.d.nHead, g.d.hd));
    ZeroAdds(r, g.AttentionOut(l, att));
    var h := g.Rms(r, l.ffnNorm);
    ZeroMatVec(l.down, Times(Map(g.gelu, MatVec(l.gate, h)), MatVec(l.up, h)));
    ZeroAdds(r, g.FeedForward(l, r));
  }

  /** `a` is the attention half of `l`, `f` its feed-forward half: the same
      layer with the other branch's last projection zero. */
  ghost predicate AreHalves(g: Gemma, l: Layer, a: Layer, f: Layer)
    requires g.Valid() && l.Valid(g.d)
  {
    && a.Valid(g.d) && f.Valid(g.d)
    && a == l.(down := a.down) && IsZero(a.down)
    && f == l.(output := f.output) && IsZero(f.output)
  }

  lemma AttentionHalf(g: Gemma, l: Layer, a: Layer, f: Layer, r: Vec, att: Mat)
    requires g.Valid() && l.Valid(g.d) && AreHalves(g, l, a, f) && |r| == g.d.nEmbd && IsMat(att, g.d.nHead, g.d.hd)
    ensures g.Residuals(a, r, att) == Add(r, g.AttentionOut(l, att))
  {
    var x1 := Add(r, g.AttentionOut(l, att));
    var h := g.Rms(x1, a.ffnNorm);
    ZeroMatVec(a.down, Times(Map(g.gelu, MatVec(a.gate, h)), MatVec(a.up, h)));
    ZeroAdds(x1, g.FeedForward(a, x1));
  }

  lemma FeedForwardHalf(g: Gemma, l: Layer, a: Layer, f: Layer, r: Vec, att: Mat)
    requires g.Valid() && l.Valid(g.d) && AreHalves(g, l, a, f) && |r| == g.d.nEmbd && IsMat(att, g.d.nHead, g.d.hd)
    ensures g.Residuals(f, r, att) == Add(r, g.FeedForward(l, r))
  {
    ZeroMatVec(f.output, Flatten(att, g.d.nHead, g.d.hd));
    ZeroAdds(r, g.AttentionOut(f, att));
  }

  lemma HalvesInTurn(g: Gemma, l: Layer, a: Layer, f: Layer, r: Vec, att: Mat, att': Mat)
    requires g.Valid() && l.Valid(g.d) && AreHalves(g, l, a, f) && |r| == g.d.nEmbd
    requires IsMat(att, g.d.nHead, g.d.hd) && IsMat(att', g.d.nHead, g.d.hd)
    ensures g.Residuals(f, g.Residuals(a, r, att), att') == g.Residuals(l, r, att)
  {
    AttentionHalf(g, l, a, f, r, att);
    FeedForwardHalf(g, l, a, f, g.Residuals(a, r, att), att');
  }

  /** A layer is its attention half followed by its feed-forward half: the
      feed-forward branch reads the rows the attention branch has left. */
  lemma LayerIsTwoHalves(g: Gemma, l: Layer, a: Layer, f: Layer, x: Mat, s: int)
    requires g.Valid() && l.Valid(g.d) && AreHalves(g, l, a, f) && IsMat(x, |x|, g.d.nEmbd)
    ensures g.LayerStep(f, g.LayerStep(a, x, s), s) == g.LayerStep(l, x, s)
  {
    var y := g.LayerStep(a, x, s);
    var q, k, v := g.AllQueries(l, x, s), g.AllKeys(l, x, s), g.AllValues(l, x);
    SameHeads(g, l, a, x, s);
    forall t | 0 <= t < |x| ensures g.LayerStep(f, y, s)[t] == g.LayerStep(l, x, s)[t] {
      var att := Attend(g.exp, g.d, q, k, v, t);
      var att' := Attend(g.exp, g.d, g.AllQueries(f, y, s), g.AllKeys(f, y, s), g.AllValues(f, y), t);
      HalvesInTurn(g, l, a, f, x[t], att, att');
    }
  }

  lemma SameHeads(g: Gemma, l: Layer, a: Layer, x: Mat, s: int)
    requires g.Valid() && l.Valid(g.d) && a.Valid(g.d) && a == l.(down := a.down) && IsMat(x, |x|, g.d.nEmbd)
    ensures g.AllQueries(a, x, s) == g.AllQueries(l, x, s)
    ensures g.AllKeys(a, x, s) == g.AllKeys(l, x, s) && g.AllValues(a, x) == g.AllValues(l, x)
  {
  }

  /** `u + c * v`, entry by entry. */
  function Combined(u: Vec, v: Vec, c: real): (r: Vec)
    requires |u| == |v|
  {
    Add(u, Scale(v, c))
  }

  function CombinedRows(u: Mat, v: Mat, c: real): (r: Mat)
    requires |u| == |v| && forall i :: 0 <= i < |u| ==> |u[i]| == |v[i]|
  {
    seq(|u|, i requires 0 <= i < |u| => Combined(u[i], v[i], c))
  }

  lemma DotOfCombined(u: Vec, v: Vec, c: real, x: Vec)
    requires |u| == |v| == |x|
    ensures Dot(Combined(u, v, c), x) == Dot(u, x) + c * Dot(v, x)
  {
    forall i | 0 <= i < |u| ensures Combined(u, v, c)[i] == u[i] + c * v[i] {}
    DotLinear(u, v, Combined(u, v, c), c, x, |x|);
  }

  lemma MatVecOfCombinedRows(u: Mat, v: Mat, c: real, x: Vec)
    requires IsMat(u, |u|, |x|) && IsMat(v, |u|, |x|)
    ensures MatVec(CombinedRows(u, v, c), x) == Combined(MatVec(u, x), MatVec(v, x), c)
  {
    var a, b := MatVec(CombinedRows(u, v, c), x), Combined(MatVec(u, x), MatVec(v, x), c);
    forall i | 0 <= i < |u| ensures a[i] == b[i] {
      DotOfCombined(u[i], v[i], c, x);
    }
    assert a == b;
  }

  lemma MatVecOfCombined(m: Mat, u: Vec, v: Vec, c: real)
    requires |u| == |v| && IsMat(m, |m|, |u|)
    ensures MatVec(m, Combined(u, v, c)) == Combined(MatVec(m, u), MatVec(m, v), c)
  {
    var a, b := MatVec(m, Combined(u, v, c)), Combined(MatVec(m, u), MatVec(m, v), c);
    forall i | 0 <= i < |m| ensures a[i] == b[i] {
      DotOfCombined(u, v, c, m[i]);
      DotCommutes(m[i], Combined(u, v, c), |u|);
      DotCommutes(m[i], u, |u|);
      DotCommutes(m[i], v, |u|);
    }
    assert a == b;
  }

  lemma TimesCombined(a: Vec, u: Vec, v: Vec, c: real)
    requires |a| == |u| == |v|
    ensures Times(a, Combined(u, v, c)) == Combined(Times(a, u), Times(a, v), c)
  {
    var x, y := Times(a, Combined(u, v, c)), Combined(Times(a, u), Times(a, v), c);
    forall i | 0 <= i < |a| ensures x[i] == y[i] {
      GatedTerm(a[i], u[i], v[i], c, Scale(v, c)[i], Times(a, v)[i]);
    }
    assert x == y;
  }

  lemma GatedTerm(a: real, u: real, v: real, c: real, vc: real, av: real)
    requires vc == v * c && av == a * v
    ensures a * (u + vc) == a * u + av * c
  {
    ProductOfThree(a, v, c, av, vc);
  }

  /** The feed-forward branch is linear in the up projection, whatever the
      activation of the gate is. */
  lemma FeedForwardIsLinearInUp(g: Gemma, l: Layer, u: Mat, v: Mat, c: real, x: Vec)
    requires g.Valid() && |x| == g.d.nEmbd && l.(up := u).Valid(g.d) && l.(up := v).Valid(g.d)
    ensures l.(up := CombinedRows(u, v, c)).Valid(g.d)
    ensures g.FeedForward(l.(up := CombinedRows(u, v, c)), x)
         == Combined(g.FeedForward(l.(up := u), x), g.FeedForward(l.(up := v), x), c)
  {
    var h := g.Rms(x, l.ffnNorm);
    var gate := Map(g.gelu, MatVec(l.gate, h));
    MatVecOfCombinedRows(u, v, c, h);
    TimesCombined(gate, MatVec(u, h), MatVec(v, h), c);
    MatVecOfCombined(l.down, Times(gate, MatVec(u, h)), Times(gate, MatVec(v, h)), c);
  }
}
