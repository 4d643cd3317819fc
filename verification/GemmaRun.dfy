/** `run` as the reference executes it: layer by layer over a rebound `x`,
    rotating every position's heads and filling the attention block head by
    head. Proved against the specification in GemmaForward. */
module GemmaRun {
  import opened Vectors
  import opened Softmax
  import opened Rope
  import opened GemmaForward
  import GemmaTextbook

  /** `rope_neox` on one position's heads, given as rows. */
  method RotateHeads(rotary: Rotary, heads: Mat, width: nat, pos: int) returns (r: Mat)
    requires width % 2 == 0 && IsMat(heads, |heads|, width)
    ensures r == RotateAll(rotary, heads, pos, width)
  {
    var v := new real[|heads|, width]((h, j) requires 0 <= h < |heads| && 0 <= j < width => heads[h][j]);
    assert Rows(v) == heads by {
      forall h | 0 <= h < |heads| ensures Row(v, h) == heads[h] {}
    }
    var out := RopeNeox(rotary, v, pos);
    r := Rows(out);
  }

  /** The three projections of every position, queries and keys rotated to
      their own position and queries scaled. */
  method Project(g: Gemma, l: Layer, x: Mat) returns (q: seq<Mat>, k: seq<Mat>, v: seq<Mat>)
    requires g.Valid() && l.Valid(g.d) && IsMat(x, |x|, g.d.nEmbd)
    ensures q == g.AllQueries(l, x, 0) && k == g.AllKeys(l, x, 0) && v == g.AllValues(l, x)
  {
    q, k, v := [], [], [];
    var d := g.d;
    for t := 0 to |x|
      invariant q == g.AllQueries(l, x, 0)[..t]
      invariant k == g.AllKeys(l, x, 0)[..t]
      invariant v == g.AllValues(l, x)[..t]
    {
      var h := g.Rms(x[t], l.attnNorm);
      var qh := RotateHeads(g.rotary, Reshape(MatVec(l.q, h), d.nHead, d.hd), d.hd, t);
      var scaled := seq(d.nHead, hh requires 0 <= hh < d.nHead => Divide(qh[hh], g.sqrt(d.hd as real)));
      assert scaled == g.Queries(l, x[t], t + 0);
      var kh := RotateHeads(g.rotary, Reshape(MatVec(l.k, h), d.nKv, d.hd), d.hd, t);
      assert kh == g.Keys(l, x[t], t + 0);
      q, k, v := q + [scaled], k + [kh], v + [Reshape(MatVec(l.v, h), d.nKv, d.hd)];
    }
  }

  /** One head of the attention block: every position and component of head
      `hh` of `att` is written, no other head is touched. */
  method FillHead(exp: real -> real, d: Dims, q: seq<Mat>, k: seq<Mat>, v: seq<Mat>, hh: nat, att: array3<real>)
    requires ExpLaws(exp) && d.Valid() && hh < d.nHead
    requires IsHeads(q, |q|, d.nHead, d.hd) && IsHeads(k, |q|, d.nKv, d.hd) && IsHeads(v, |q|, d.nKv, d.hd)
    requires att.Length0 == |q| && att.Length1 == d.nHead && att.Length2 == d.hd
    modifies att
    ensures forall t, j :: 0 <= t < |q| && 0 <= j < d.hd ==>
      att[t, hh, j] == HeadOut(exp, d, q, k, v, t, hh)[j]
    ensures forall t, h, j :: 0 <= t < |q| && 0 <= h < d.nHead && 0 <= j < d.hd && h != hh ==>
      att[t, h, j] == old(att[t, h, j])
  {
    for u := 0 to |q|
      invariant forall t, j :: 0 <= t < u && 0 <= j < d.hd ==> att[t, hh, j] == HeadOut(exp, d, q, k, v, t, hh)[j]
      invariant forall t, h, j :: 0 <= t < |q| && 0 <= h < d.nHead && 0 <= j < d.hd && h != hh ==>
        att[t, h, j] == old(att[t, h, j])
    {
      var row := HeadOut(exp, d, q, k, v, u, hh);
      for i := 0 to d.hd
        invariant forall t, j :: 0 <= t < u && 0 <= j < d.hd ==> att[t, hh, j] == HeadOut(exp, d, q, k, v, t, hh)[j]
        invariant forall j :: 0 <= j < i ==> att[u, hh, j] == row[j]
        invariant forall t, h, j :: 0 <= t < |q| && 0 <= h < d.nHead && 0 <= j < d.hd && h != hh ==>
          att[t, h, j] == old(att[t, h, j])
      {
        att[u, hh, i] := row[i];
      }
    }
  }

  /** The heads of position `t` in the attention block. */
  function Block(att: array3<real>, t: nat): (r: Mat)
    requires t < att.Length0
    reads att
  {
    seq(att.Length1, h requires 0 <= h < att.Length1 reads att =>
      seq(att.Length2, j requires 0 <= j < att.Length2 reads att => att[t, h, j]))
  }

  /** The attention block, filled head by head. */
  method Attention(exp: real -> real, d: Dims, q: seq<Mat>, k: seq<Mat>, v: seq<Mat>) returns (att: array3<real>)
    requires ExpLaws(exp) && d.Valid()
    requires IsHeads(q, |q|, d.nHead, d.hd) && IsHeads(k, |q|, d.nKv, d.hd) && IsHeads(v, |q|, d.nKv, d.hd)
    ensures fresh(att) && att.Length0 == |q|
    ensures forall t :: 0 <= t < |q| ==> Block(att, t) == Attend(exp, d, q, k, v, t)
  {
    att := new real[|q|, d.nHead, d.hd]((t, h, j) => 0.0);
    for hh := 0 to d.nHead
      invariant forall t, h, j :: 0 <= t < |q| && 0 <= h < hh && 0 <= j < d.hd ==>
        att[t, h, j] == HeadOut(exp, d, q, k, v, t, h)[j]
    {
      FillHead(exp, d, q, k, v, hh, att);
    }
    forall t | 0 <= t < |q|
      ensures Block(att, t) == Attend(exp, d, q, k, v, t)
    {
      forall h | 0 <= h < d.nHead
        ensures Block(att, t)[h] == HeadOut(exp, d, q, k, v, t, h)
      {
      }
    }
  }

  /** One iteration of the layer loop: attention and feed-forward, each
      added to the rows it reads. */
  method RunLayer(g: Gemma, l: Layer, x: Mat) returns (y: Mat)
    requires g.Valid() && l.Valid(g.d) && IsMat(x, |x|, g.d.nEmbd)
    ensures y == g.LayerStep(l, x, 0)
  {
    var q, k, v := Project(g, l, x);
    var att := Attention(g.exp, g.d, q, k, v);
    ghost var step := g.LayerStep(l, x, 0);
    forall t | 0 <= t < |x| ensures IsStep(g, l, step, x[t], Block(att, t), t) {
      StepAt(g, l, x, q, k, v, t);
    }
    y := RunRows(g, l, x, att, step);
  }

  /** Row `t` of a layer's result is the row's residuals over these heads. */
  ghost predicate IsStep(g: Gemma, l: Layer, step: Mat, row: Vec, heads: Mat, t: nat)
    requires t < |step| && g.Valid() && l.Valid(g.d) && |row| == g.d.nEmbd
  {
    IsMat(heads, g.d.nHead, g.d.hd) && step[t] == g.Residuals(l, row, heads)
  }

  lemma StepAt(g: Gemma, l: Layer, x: Mat, q: seq<Mat>, k: seq<Mat>, v: seq<Mat>, t: nat)
    requires g.Valid() && l.Valid(g.d) && IsMat(x, |x|, g.d.nEmbd) && t < |x|
    requires q == g.AllQueries(l, x, 0) && k == g.AllKeys(l, x, 0) && v == g.AllValues(l, x)
    ensures IsStep(g, l, g.LayerStep(l, x, 0), x[t], Attend(g.exp, g.d, q, k, v, t), t)
  {
  }

  /** The rows of `x`, updated one by one. */
  method RunRows(g: Gemma, l: Layer, x: Mat, att: array3<real>, ghost step: Mat) returns (y: Mat)
    requires g.Valid() && l.Valid(g.d) && IsMat(x, |x|, g.d.nEmbd) && |step| == |x| == att.Length0
    requires forall t :: 0 <= t < |x| ==> IsStep(g, l, step, x[t], Block(att, t), t)
    ensures y == step
  {
    y := [];
    for t := 0 to |x|
      invariant |y| == t && forall i :: 0 <= i < t ==> y[i] == step[i]
    {
      assert IsStep(g, l, step, x[t], Block(att, t), t);
      var row := RunResiduals(g, l, x[t], Block(att, t));
      y := y + [row];
    }
  }

  /** The two updates of one row of `x`. */
  method RunResiduals(g: Gemma, l: Layer, row: Vec, heads: Mat) returns (r: Vec)
    requires g.Valid() && l.Valid(g.d) && |row| == g.d.nEmbd && IsMat(heads, g.d.nHead, g.d.hd)
    ensures r == g.Residuals(l, row, heads)
  {
    r := Add(row, MatVec(l.output, Flatten(heads, g.d.nHead, g.d.hd)));
    var h2 := g.Rms(r, l.ffnNorm);
    var gate, up := MatVec(l.gate, h2), MatVec(l.up, h2);
    r := Add(r, MatVec(l.down, Times(Map(g.gelu, gate), up)));
  }

  /** `run`: the logits of the prompt's last position, which are those of the
      textbook's sums. */
  method Run(g: Gemma, toks: seq<nat>) returns (logits: Vec)
    requires g.Valid() && g.InVocabulary(toks) && toks != []
    ensures logits == g.Logits(toks, 0, |toks| - 1)
    ensures GemmaTextbook.IsLogits(g, toks, |toks| - 1, logits)
  {
    logits := LastLogits(g, toks);
    GemmaTextbook.AllLogitsAreTextbook(g, toks, |toks| - 1, logits);
  }

  /** Embedding, layers, output head. */
  method LastLogits(g: Gemma, toks: seq<nat>) returns (logits: Vec)
    requires g.Valid() && g.InVocabulary(toks) && toks != []
    ensures logits == g.Logits(toks, 0, |toks| - 1)
  {
    var x := RunLayers(g, toks, g.Embed(toks));
    logits := g.Head(x[|x| - 1]);
  }

  /** The layer loop. */
  method RunLayers(g: Gemma, toks: seq<nat>, embedded: Mat) returns (x: Mat)
    requires g.Valid() && g.InVocabulary(toks) && embedded == g.Embed(toks)
    ensures x == g.Hidden(toks, 0, |g.layers|)
  {
    x := embedded;
    for il := 0 to |g.layers|
      invariant x == g.Hidden(toks, 0, il)
    {
      x := RunLayer(g, g.layers[il], x);
    }
  }
}
