/** The Gemma reference forward pass: RMS norm, rotary grouped-query causal
    attention, gated feed-forward, residuals, over any number of layers.
    Head `hh` of the queries reads key/value head `hh / rep`. */
module GemmaForward {
  import opened Vectors
  import opened Softmax
  import opened Rope

  const EPS: real := 0.00001

  datatype Dims = Dims(nEmbd: nat, nHead: nat, nKv: nat, hd: nat, nFf: nat) {
    predicate Valid() {
      && nEmbd > 0 && nHead > 0 && nKv > 0 && hd > 0 && hd % 2 == 0
      && nHead % nKv == 0
    }

    /** How many query heads share one key/value head. */
    function Rep(): (r: nat)
      requires Valid()
      ensures r > 0
    {
      nHead / nKv
    }

    /** Every query head maps to a key/value head that exists. */
    lemma KvHeadInRange(hh: nat)
      requires Valid() && hh < nHead
      ensures 0 <= hh / Rep() < nKv
    {
      DivideBelow(hh, nKv, Rep());
    }
  }

  datatype Layer = Layer(attnNorm: Vec, q: Mat, k: Mat, v: Mat, output: Mat, ffnNorm: Vec, gate: Mat, up: Mat, down: Mat) {
    predicate Valid(d: Dims) {
      && |attnNorm| == d.nEmbd && |ffnNorm| == d.nEmbd
      && IsMat(q, d.nHead * d.hd, d.nEmbd) && IsMat(k, d.nKv * d.hd, d.nEmbd) && IsMat(v, d.nKv * d.hd, d.nEmbd)
      && IsMat(output, d.nEmbd, d.nHead * d.hd)
      && IsMat(gate, d.nFf, d.nEmbd) && IsMat(up, d.nFf, d.nEmbd) && IsMat(down, d.nEmbd, d.nFf)
    }
  }

  /** `heads` holds `n` positions of `count` heads, each `hd` wide. */
  predicate IsHeads(heads: seq<Mat>, n: nat, count: nat, hd: nat) {
    |heads| == n && forall t :: 0 <= t < n ==> IsMat(heads[t], count, hd)
  }

  lemma ScaledBounds(a: nat, b: nat, c: nat)
    requires a <= b
    ensures a * c <= b * c
  {
  }

  lemma DivideBelow(c: nat, count: nat, hd: nat)
    requires hd > 0 && c < count * hd
    ensures c / hd < count
  {
    if count <= c / hd {
      ScaledBounds(count, c / hd, hd);
    }
  }

  /** `row.reshape(count, hd)`. */
  function Reshape(row: Vec, count: nat, hd: nat): (r: Mat)
    requires |row| == count * hd
    ensures IsMat(r, count, hd)
  {
    seq(count, h requires 0 <= h < count => HeadOf(row, count, hd, h))
  }

  function HeadOf(row: Vec, count: nat, hd: nat, h: nat): (r: Vec)
    requires |row| == count * hd && h < count
    ensures |r| == hd
  {
    ScaledBounds(h + 1, count, hd);
    assert (h + 1) * hd == h * hd + hd;
    row[h * hd..h * hd + hd]
  }

  /** `heads.reshape(count * hd)`: head-major concatenation. */
  function Flatten(heads: Mat, count: nat, hd: nat): (r: Vec)
    requires hd > 0 && IsMat(heads, count, hd)
    ensures |r| == count * hd
  {
    seq(count * hd, c requires 0 <= c < count * hd =>
      assert c / hd < count by { DivideBelow(c, count, hd); }
      heads[c / hd][c % hd])
  }

  lemma {:induction false} SumOfSquares(x: Vec, n: nat)
    requires n <= |x|
    ensures DotN(x, x, n) >= 0.0
  {
    if n > 0 {
      SumOfSquares(x, n - 1);
    }
  }

  /** The scores of query head `hh` at position `t` against every position,
      masked to minus infinity above the diagonal. */
  function Scores(d: Dims, q: seq<Mat>, k: seq<Mat>, t: nat, hh: nat): (s: seq<Score>)
    requires d.Valid() && IsHeads(q, |q|, d.nHead, d.hd) && IsHeads(k, |q|, d.nKv, d.hd)
    requires t < |q| && hh < d.nHead
    ensures |s| == |q| && HasFinite(s)
  {
    d.KvHeadInRange(hh);
    var s := seq(|q|, u requires 0 <= u < |q| => if u > t then NegInf else Fin(Dot(q[t][hh], k[u][hh / d.Rep()])));
    assert s[t].Fin?;
    s
  }

  /** Component `j` of every position's value in key/value head `kv`. */
  function ValueColumn(v: seq<Mat>, count: nat, hd: nat, kv: nat, j: nat): (c: Vec)
    requires IsHeads(v, |v|, count, hd) && kv < count && j < hd
    ensures |c| == |v|
  {
    seq(|v|, u requires 0 <= u < |v| => v[u][kv][j])
  }

  /** The attention output of one query head at one position. */
  function HeadOut(exp: real -> real, d: Dims, q: seq<Mat>, k: seq<Mat>, v: seq<Mat>, t: nat, hh: nat): (r: Vec)
    requires ExpLaws(exp) && d.Valid()
    requires IsHeads(q, |q|, d.nHead, d.hd) && IsHeads(k, |q|, d.nKv, d.hd) && IsHeads(v, |q|, d.nKv, d.hd)
    requires t < |q| && hh < d.nHead
    ensures |r| == d.hd
  {
    d.KvHeadInRange(hh);
    var w := SoftmaxRow(exp, Scores(d, q, k, t, hh));
    seq(d.hd, j requires 0 <= j < d.hd => Dot(w, ValueColumn(v, d.nKv, d.hd, hh / d.Rep(), j)))
  }

  function Attend(exp: real -> real, d: Dims, q: seq<Mat>, k: seq<Mat>, v: seq<Mat>, t: nat): (r: Mat)
    requires ExpLaws(exp) && d.Valid()
    requires IsHeads(q, |q|, d.nHead, d.hd) && IsHeads(k, |q|, d.nKv, d.hd) && IsHeads(v, |q|, d.nKv, d.hd)
    requires t < |q|
    ensures IsMat(r, d.nHead, d.hd)
  {
    seq(d.nHead, hh requires 0 <= hh < d.nHead => HeadOut(exp, d, q, k, v, t, hh))
  }

  /** A whole model: dimensions, scalar functions, weights. `gelu` is the
      argument of `run`. */
  datatype Gemma = Gemma(
    d: Dims, exp: real -> real, sqrt: real -> real, rotary: Rotary, gelu: real -> real,
    emb: Mat, layers: seq<Layer>, outputNorm: Vec) {

    ghost predicate Valid() {
      && d.Valid() && ExpLaws(exp)
      && (forall x :: x > 0.0 ==> sqrt(x) > 0.0)
      && IsMat(emb, |emb|, d.nEmbd) && |outputNorm| == d.nEmbd
      && forall il :: 0 <= il < |layers| ==> layers[il].Valid(d)
    }

    /** Root-mean-square normalisation with gain `g`. */
    function Rms(x: Vec, g: Vec): (r: Vec)
      requires Valid() && |x| == |g| == d.nEmbd
      ensures |r| == d.nEmbd
    {
      SumOfSquares(x, |x|);
      MeanNonNegative(Dot(x, x), d.nEmbd as real);
      var z := sqrt(Dot(x, x) / d.nEmbd as real + EPS);
      seq(d.nEmbd, i requires 0 <= i < d.nEmbd => x[i] / z * g[i])
    }

    static lemma MeanNonNegative(a: real, n: real)
      requires a >= 0.0 && n > 0.0
      ensures a / n >= 0.0
    {
    }

    function Queries(l: Layer, x: Vec, pos: int): (r: Mat)
      requires Valid() && l.Valid(d) && |x| == d.nEmbd
      ensures IsMat(r, d.nHead, d.hd)
    {
      var h := Reshape(MatVec(l.q, Rms(x, l.attnNorm)), d.nHead, d.hd);
      seq(d.nHead, hh requires 0 <= hh < d.nHead => Divide(rotary.Rotate(h[hh], pos), sqrt(d.hd as real)))
    }

    function Keys(l: Layer, x: Vec, pos: int): (r: Mat)
      requires Valid() && l.Valid(d) && |x| == d.nEmbd
      ensures IsMat(r, d.nKv, d.hd)
    {
      var h := Reshape(MatVec(l.k, Rms(x, l.attnNorm)), d.nKv, d.hd);
      seq(d.nKv, kv requires 0 <= kv < d.nKv => rotary.Rotate(h[kv], pos))
    }

    function Values(l: Layer, x: Vec): (r: Mat)
      requires Valid() && l.Valid(d) && |x| == d.nEmbd
      ensures IsMat(r, d.nKv, d.hd)
    {
      Reshape(MatVec(l.v, Rms(x, l.attnNorm)), d.nKv, d.hd)
    }

    /** The queries of every position, position `t` rotated to `t + s`. */
    function AllQueries(l: Layer, x: Mat, s: int): (r: seq<Mat>)
      requires Valid() && l.Valid(d) && IsMat(x, |x|, d.nEmbd)
      ensures IsHeads(r, |x|, d.nHead, d.hd)
    {
      seq(|x|, t requires 0 <= t < |x| => Queries(l, x[t], t + s))
    }

    function AllKeys(l: Layer, x: Mat, s: int): (r: seq<Mat>)
      requires Valid() && l.Valid(d) && IsMat(x, |x|, d.nEmbd)
      ensures IsHeads(r, |x|, d.nKv, d.hd)
    {
      seq(|x|, t requires 0 <= t < |x| => Keys(l, x[t], t + s))
    }

    function AllValues(l: Layer, x: Mat): (r: seq<Mat>)
      requires Valid() && l.Valid(d) && IsMat(x, |x|, d.nEmbd)
      ensures IsHeads(r, |x|, d.nKv, d.hd)
    {
      seq(|x|, t requires 0 <= t < |x| => Values(l, x[t]))
    }

    /** The gated feed-forward branch of one position. */
    function FeedForward(l: Layer, x: Vec): (r: Vec)
      requires Valid() && l.Valid(d) && |x| == d.nEmbd
      ensures |r| == d.nEmbd
    {
      var h := Rms(x, l.ffnNorm);
      MatVec(l.down, Times(Map(gelu, MatVec(l.gate, h)), MatVec(l.up, h)))
    }

    /** The attention branch of one position, given its attention heads. */
    function AttentionOut(l: Layer, att: Mat): (r: Vec)
      requires Valid() && l.Valid(d) && IsMat(att, d.nHead, d.hd)
      ensures |r| == d.nEmbd
    {
      MatVec(l.output, Flatten(att, d.nHead, d.hd))
    }

    /** Both residual branches of one position. */
    function Residuals(l: Layer, x: Vec, att: Mat): (r: Vec)
      requires Valid() && l.Valid(d) && |x| == d.nEmbd && IsMat(att, d.nHead, d.hd)
      ensures |r| == d.nEmbd
    {
      var x1 := Add(x, AttentionOut(l, att));
      Add(x1, FeedForward(l, x1))
    }

    function LayerStep(l: Layer, x: Mat, s: int): (r: Mat)
      requires Valid() && l.Valid(d) && IsMat(x, |x|, d.nEmbd)
      ensures IsMat(r, |x|, d.nEmbd)
    {
      var q, k, v := AllQueries(l, x, s), AllKeys(l, x, s), AllValues(l, x);
      seq(|x|, t requires 0 <= t < |x| => Residuals(l, x[t], Attend(exp, d, q, k, v, t)))
    }

    ghost predicate InVocabulary(toks: seq<nat>) {
      forall t :: 0 <= t < |toks| ==> toks[t] < |emb|
    }

    function Embed(toks: seq<nat>): (x: Mat)
      requires Valid() && InVocabulary(toks)
      ensures IsMat(x, |toks|, d.nEmbd)
    {
      seq(|toks|, t requires 0 <= t < |toks| => Scale(emb[toks[t]], sqrt(d.nEmbd as real)))
    }

    /** The hidden rows after the first `depth` layers, positions starting
        at `s`. */
    function Hidden(toks: seq<nat>, s: int, depth: nat): (x: Mat)
      requires Valid() && InVocabulary(toks) && depth <= |layers|
      ensures IsMat(x, |toks|, d.nEmbd)
    {
      if depth == 0 then Embed(toks)
      else LayerStep(layers[depth - 1], Hidden(toks, s, depth - 1), s)
    }

    /** The output head of one row, tied to `emb`. */
    function Head(x: Vec): (r: Vec)
      requires Valid() && |x| == d.nEmbd
      ensures |r| == |emb|
    {
      MatVec(emb, Rms(x, outputNorm))
    }

    /** The logits read off position `t`. */
    function Logits(toks: seq<nat>, s: int, t: nat): (r: Vec)
      requires Valid() && InVocabulary(toks) && t < |toks|
      ensures |r| == |emb|
    {
      Head(Hidden(toks, s, |layers|)[t])
    }
  }
}
