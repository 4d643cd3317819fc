/** The forward pass as the textbook has it, entry by entry: causal sums
    instead of a mask, no maximum subtracted, no blocks of heads, every
    constant spelled out. The vectorised pass computes exactly this. */
module GemmaTextbook {
  import opened Vectors
  import opened Softmax
  import opened Rope
  import opened GemmaForward

  type Entries = int -> real

  /** `f(0) + ... + f(n - 1)`. */
  function Total(n: nat, f: Entries): real {
    if n == 0 then 0.0 else Total(n - 1, f) + f(n - 1)
  }

  /** `f(0) * h(0) + ... + f(n - 1) * h(n - 1)`. */
  function Products(n: nat, f: Entries, h: Entries): real {
    if n == 0 then 0.0 else Products(n - 1, f, h) + f(n - 1) * h(n - 1)
  }

  function Of(v: Vec): Entries {
    i => if 0 <= i < |v| then v[i] else 0.0
  }

  function RowAt(x: Mat, t: int): Vec {
    if 0 <= t < |x| then x[t] else []
  }

  /** A quotient, where nothing is divided by zero. */
  function Over(a: real, z: real): real {
    if z == 0.0 then 0.0 else a / z
  }

  /** Root-mean-square normalisation. */
  function Norm(sqrt: real -> real, x: Vec, gain: Vec): Entries {
    i => if x == [] then 0.0
         else Over(Of(x)(i), sqrt(Products(|x|, Of(x), Of(x)) / |x| as real + 0.00001)) * Of(gain)(i)
  }

  /** A projection of a normalised row. */
  function Projected(sqrt: real -> real, m: Mat, x: Vec, gain: Vec): Entries {
    r => Products(|x|, Of(RowAt(m, r)), Norm(sqrt, x, gain))
  }

  /** Head `h` of a projection. */
  function HeadIn(f: Entries, hd: nat, h: nat): Entries {
    i => f(h * hd + i)
  }

  /** The point `(a, b)` turned by the angle whose cosine and sine are `c`
      and `s`. */
  function TurnedX(a: real, b: real, c: real, s: real): real {
    a * c - b * s
  }

  function TurnedY(a: real, b: real, c: real, s: real): real {
    a * s + b * c
  }

  function Angle(rotary: Rotary, pos: int, i: nat): real {
    pos as real * rotary.freq(i)
  }

  /** A head turned to `pos`: dimension `i` pairs with dimension
      `i + half`, and the pair turns by `pos * freq(i)`. */
  function Turned(rotary: Rotary, head: Entries, half: nat, pos: int): Entries {
    j => if j < 0 then 0.0
         else if j < half then
           var theta := Angle(rotary, pos, j);
           TurnedX(head(j), head(j + half), rotary.cos(theta), rotary.sin(theta))
         else
           var theta := Angle(rotary, pos, j - half);
           TurnedY(head(j - half), head(j), rotary.cos(theta), rotary.sin(theta))
  }

  /** Query head `hh` at position `t`. */
  function Query(g: Gemma, l: Layer, x: Mat, t: int, hh: nat): Entries {
    j => Over(Turned(g.rotary, HeadIn(Projected(g.sqrt, l.q, RowAt(x, t), l.attnNorm), g.d.hd, hh), g.d.hd / 2, t)(j),
              g.sqrt(g.d.hd as real))
  }

  /** Key head `kv` at position `u`. */
  function Key(g: Gemma, l: Layer, x: Mat, u: int, kv: nat): Entries {
    Turned(g.rotary, HeadIn(Projected(g.sqrt, l.k, RowAt(x, u), l.attnNorm), g.d.hd, kv), g.d.hd / 2, u)
  }

  function Value(g: Gemma, l: Layer, x: Mat, u: int, kv: nat): Entries {
    HeadIn(Projected(g.sqrt, l.v, RowAt(x, u), l.attnNorm), g.d.hd, kv)
  }

  /** The key/value head of a query head. */
  function GroupOf(d: Dims, hh: nat): (kv: nat)
    requires d.Valid()
  {
    assert d.Rep() > 0;
    hh / (d.nHead / d.nKv)
  }

  /** The scores of position `t` against every position. */
  function ScoreOf(g: Gemma, l: Layer, x: Mat, t: nat, hh: nat, kv: nat): Entries {
    u => Products(g.d.hd, Query(g, l, x, t, hh), Key(g, l, x, u, kv))
  }

  function ExpOf(exp: real -> real, f: Entries): Entries {
    u => exp(f(u))
  }

  /** The plain softmax over the positions up to `t`. */
  function Weights(exp: real -> real, t: nat, score: Entries): Entries {
    u => Over(exp(score(u)), Total(t + 1, ExpOf(exp, score)))
  }

  /** Component `j` of every position's value. */
  function ValuesOf(g: Gemma, l: Layer, x: Mat, kv: nat, j: nat): Entries {
    u => Value(g, l, x, u, kv)(j)
  }

  function Head(k: nat, hd: nat): nat
    requires hd > 0
  {
    k / hd
  }

  function Component(k: nat, hd: nat): nat
    requires hd > 0
  {
    k % hd
  }

  /** Component `j` of what query head `hh` gathers at position `t`. */
  function GatheredBy(g: Gemma, l: Layer, x: Mat, t: nat, hh: nat, kv: nat, j: nat): real {
    Products(t + 1, Weights(g.exp, t, ScoreOf(g, l, x, t, hh, kv)), ValuesOf(g, l, x, kv, j))
  }

  /** What position `t` gathers, all query heads in a row: entry `k` is
      component `k % hd` of head `k / hd`. */
  function Gathered(g: Gemma, l: Layer, x: Mat, t: nat): Entries
    requires g.d.Valid()
  {
    k => if k < 0 then 0.0
         else GatheredBy(g, l, x, t, Head(k, g.d.hd), GroupOf(g.d, Head(k, g.d.hd)), Component(k, g.d.hd))
  }

  /** A row with `out @ f` added. */
  function Plus(x: Vec, out: Mat, width: nat, f: Entries): (r: Vec) {
    seq(|x|, c requires 0 <= c < |x| => x[c] + Products(width, Of(RowAt(out, c)), f))
  }

  /** The row at `t` behind the attention branch. */
  function Middle(g: Gemma, l: Layer, x: Mat, t: nat): Vec
    requires g.d.Valid()
  {
    Plus(RowAt(x, t), l.output, g.d.nHead * g.d.hd, Gathered(g, l, x, t))
  }

  /** The gated hidden units of a row. */
  function Gated(g: Gemma, l: Layer, m: Vec): Entries {
    f => g.gelu(Projected(g.sqrt, l.gate, m, l.ffnNorm)(f)) * Projected(g.sqrt, l.up, m, l.ffnNorm)(f)
  }

  /** The row at `t` behind both branches: the feed-forward branch reads the
      row the attention branch has been added to. */
  function Behind(g: Gemma, l: Layer, x: Mat, t: nat): Vec
    requires g.d.Valid()
  {
    var m := Middle(g, l, x, t);
    Plus(m, l.down, g.d.nFf, Gated(g, l, m))
  }

  function LayerBehind(g: Gemma, l: Layer, x: Mat): (r: Mat)
    requires g.d.Valid()
    ensures |r| == |x|
  {
    seq(|x|, t requires 0 <= t < |x| => Behind(g, l, x, t))
  }

  /** The embedding row of each token, times the root of the width. */
  function Embedded(g: Gemma, toks: seq<nat>): (r: Mat)
    ensures |r| == |toks|
  {
    seq(|toks|, t requires 0 <= t < |toks| => Times(RowAt(g.emb, toks[t]), Repeat(g.sqrt(g.d.nEmbd as real), |RowAt(g.emb, toks[t])|)))
  }

  function Repeat(z: real, n: nat): (r: Vec)
    ensures |r| == n
  {
    seq(n, _ => z)
  }

  /** The rows behind the first `depth` layers, first layer first. */
  function RowsBehind(g: Gemma, toks: seq<nat>, depth: nat): (x: Mat)
    requires g.d.Valid() && depth <= |g.layers|
    ensures |x| == |toks|
  {
    if depth == 0 then Embedded(g, toks) else LayerBehind(g, g.layers[depth - 1], RowsBehind(g, toks, depth - 1))
  }

  /** The logit of vocabulary entry `v` at position `t`. */
  function Logit(g: Gemma, toks: seq<nat>, t: nat, v: nat): real
    requires g.d.Valid() && t < |toks|
  {
    Projected(g.sqrt, g.emb, RowsBehind(g, toks, |g.layers|)[t], g.outputNorm)(v)
  }

  /* ---- sums ---- */

  /** `f` gives the entries of `v`. */
  ghost predicate Is(f: Entries, v: Vec) {
    forall i :: 0 <= i < |v| ==> f(i) == v[i]
  }

  lemma {:induction false} ProductsAre(a: Vec, b: Vec, f: Entries, h: Entries, n: nat)
    requires n <= |a| && n <= |b|
    requires forall k :: 0 <= k < n ==> f(k) == a[k] && h(k) == b[k]
    ensures DotN(a, b, n) == Products(n, f, h)
  {
    if n > 0 {
      ProductsAre(a, b, f, h, n - 1);
    }
  }

  lemma {:induction false} TotalIs(a: Vec, f: Entries, n: nat)
    requires n <= |a| && forall k :: 0 <= k < n ==> f(k) == a[k]
    ensures SumN(a, n) == Total(n, f)
  {
    if n > 0 {
      TotalIs(a, f, n - 1);
    }
  }

  lemma DotIs(a: Vec, b: Vec, f: Entries, h: Entries)
    requires |a| == |b| && Is(f, a) && Is(h, b)
    ensures Dot(a, b) == Products(|a|, f, h)
  {
    ProductsAre(a, b, f, h, |a|);
  }

  /* ---- projections and heads ---- */

  lemma NormIs(g: Gemma, x: Vec, gain: Vec)
    requires g.Valid() && |x| == |gain| == g.d.nEmbd
    ensures Is(Norm(g.sqrt, x, gain), g.Rms(x, gain))
  {
    DotIs(x, x, Of(x), Of(x));
    SumOfSquares(x, |x|);
    Gemma.MeanNonNegative(Dot(x, x), |x| as real);
  }

  lemma ProjectionIs(g: Gemma, m: Mat, x: Vec, gain: Vec)
    requires g.Valid() && |x| == |gain| == g.d.nEmbd && IsMat(m, |m|, g.d.nEmbd)
    ensures Is(Projected(g.sqrt, m, x, gain), MatVec(m, g.Rms(x, gain)))
  {
    NormIs(g, x, gain);
    forall r | 0 <= r < |m| ensures Projected(g.sqrt, m, x, gain)(r) == Dot(m[r], g.Rms(x, gain)) {
      DotIs(m[r], g.Rms(x, gain), Of(RowAt(m, r)), Norm(g.sqrt, x, gain));
    }
  }

  lemma HeadIs(f: Entries, row: Vec, count: nat, hd: nat, h: nat)
    requires |row| == count * hd && h < count && Is(f, row)
    ensures Is(HeadIn(f, hd, h), Reshape(row, count, hd)[h])
  {
    ScaledBounds(h + 1, count, hd);
    assert (h + 1) * hd == h * hd + hd;
    forall i | 0 <= i < hd ensures HeadIn(f, hd, h)(i) == Reshape(row, count, hd)[h][i] {
      assert f(h * hd + i) == row[h * hd + i];
    }
  }

  lemma SameTurn(a: real, b: real, c: real, s: real)
    ensures TurnedLow(a, b, c, s) == TurnedX(a, b, c, s) && TurnedHigh(a, b, c, s) == TurnedY(a, b, c, s)
  {
  }

  lemma SameAngle(rotary: Rotary, pos: int, i: nat)
    ensures rotary.Theta(pos, i) == Angle(rotary, pos, i)
  {
  }

  /** The two entries of a turned pair, on both sides. */
  lemma TurnedEntries(rotary: Rotary, f: Entries, half: nat, pos: int, i: nat, theta: real)
    requires i < half && theta == Angle(rotary, pos, i)
    ensures Turned(rotary, f, half, pos)(i) == TurnedX(f(i), f(i + half), rotary.cos(theta), rotary.sin(theta))
    ensures Turned(rotary, f, half, pos)(i + half) == TurnedY(f(i), f(i + half), rotary.cos(theta), rotary.sin(theta))
  {
    assert i + half - half == i;
  }

  lemma RotatedEntries(rotary: Rotary, v: Vec, half: nat, pos: int, i: nat, theta: real)
    requires |v| == 2 * half && i < half && theta == rotary.Theta(pos, i)
    ensures rotary.Rotate(v, pos)[i] == TurnedLow(v[i], v[i + half], rotary.cos(theta), rotary.sin(theta))
    ensures rotary.Rotate(v, pos)[i + half] == TurnedHigh(v[i], v[i + half], rotary.cos(theta), rotary.sin(theta))
  {
    assert i + half - half == i;
  }

  lemma TurnedPair(rotary: Rotary, v: Vec, f: Entries, half: nat, pos: int, i: nat)
    requires |v| == 2 * half && i < half && f(i) == v[i] && f(i + half) == v[i + half]
    ensures Turned(rotary, f, half, pos)(i) == rotary.Rotate(v, pos)[i]
    ensures Turned(rotary, f, half, pos)(i + half) == rotary.Rotate(v, pos)[i + half]
  {
    var theta := Angle(rotary, pos, i);
    SameAngle(rotary, pos, i);
    TurnedEntries(rotary, f, half, pos, i, theta);
    RotatedEntries(rotary, v, half, pos, i, theta);
    SameTurn(v[i], v[i + half], rotary.cos(theta), rotary.sin(theta));
  }

  lemma TurnedIs(rotary: Rotary, v: Vec, f: Entries, half: nat, pos: int)
    requires |v| == 2 * half && Is(f, v)
    ensures Is(Turned(rotary, f, half, pos), rotary.Rotate(v, pos))
  {
    assert |v| / 2 == half;
    forall j | 0 <= j < |v| ensures Turned(rotary, f, half, pos)(j) == rotary.Rotate(v, pos)[j] {
      if j < half {
        TurnedPair(rotary, v, f, half, pos, j);
      } else {
        TurnedPair(rotary, v, f, half, pos, j - half);
      }
    }
  }

  /** A head of a projection. */
  lemma ProjectedHead(g: Gemma, m: Mat, x: Vec, gain: Vec, count: nat, h: nat)
    requires g.Valid() && |x| == |gain| == g.d.nEmbd && IsMat(m, count * g.d.hd, g.d.nEmbd) && h < count
    ensures Is(HeadIn(Projected(g.sqrt, m, x, gain), g.d.hd, h), Reshape(MatVec(m, g.Rms(x, gain)), count, g.d.hd)[h])
  {
    ProjectionIs(g, m, x, gain);
    HeadIs(Projected(g.sqrt, m, x, gain), MatVec(m, g.Rms(x, gain)), count, g.d.hd, h);
  }

  lemma KeyIs(g: Gemma, l: Layer, x: Mat, u: nat, kv: nat)
    requires g.Valid() && l.Valid(g.d) && IsMat(x, |x|, g.d.nEmbd) && u < |x| && kv < g.d.nKv
    ensures Is(Key(g, l, x, u, kv), g.Keys(l, x[u], u)[kv])
  {
    ProjectedHead(g, l.k, x[u], l.attnNorm, g.d.nKv, kv);
    TurnedIs(g.rotary, Reshape(MatVec(l.k, g.Rms(x[u], l.attnNorm)), g.d.nKv, g.d.hd)[kv],
             HeadIn(Projected(g.sqrt, l.k, RowAt(x, u), l.attnNorm), g.d.hd, kv), g.d.hd / 2, u);
  }

  lemma QueryIs(g: Gemma, l: Layer, x: Mat, t: nat, hh: nat)
    requires g.Valid() && l.Valid(g.d) && IsMat(x, |x|, g.d.nEmbd) && t < |x| && hh < g.d.nHead
    ensures Is(Query(g, l, x, t, hh), g.Queries(l, x[t], t)[hh])
  {
    ProjectedHead(g, l.q, x[t], l.attnNorm, g.d.nHead, hh);
    TurnedIs(g.rotary, Reshape(MatVec(l.q, g.Rms(x[t], l.attnNorm)), g.d.nHead, g.d.hd)[hh],
             HeadIn(Projected(g.sqrt, l.q, RowAt(x, t), l.attnNorm), g.d.hd, hh), g.d.hd / 2, t);
  }

  /* ---- attention ---- */

  lemma ScoreIs(g: Gemma, l: Layer, x: Mat, t: nat, u: nat, hh: nat, kv: nat)
    requires g.Valid() && l.Valid(g.d) && IsMat(x, |x|, g.d.nEmbd) && t < |x| && u < |x| && hh < g.d.nHead && kv < g.d.nKv
    ensures Dot(g.Queries(l, x[t], t)[hh], g.Keys(l, x[u], u)[kv]) == ScoreOf(g, l, x, t, hh, kv)(u)
  {
    QueryIs(g, l, x, t, hh);
    KeyIs(g, l, x, u, kv);
    DotIs(g.Queries(l, x[t], t)[hh], g.Keys(l, x[u], u)[kv], Query(g, l, x, t, hh), Key(g, l, x, u, kv));
  }

  /** The normaliser of a masked row is that of the positions it sees. */
  lemma CausalNormaliser(exp: real -> real, s: seq<Score>, t: nat, f: Entries)
    requires t < |s| && forall u :: 0 <= u < |s| ==> s[u] == if u > t then NegInf else Fin(f(u))
    ensures Sum(Exps(exp, 0.0, s)) == Total(t + 1, ExpOf(exp, f))
  {
    var e := Exps(exp, 0.0, s);
    SumZeroTail(e, t + 1, |s|);
    forall u | 0 <= u <= t ensures e[u] == ExpOf(exp, f)(u) {
      assert f(u) - 0.0 == f(u);
    }
    TotalIs(e, ExpOf(exp, f), t + 1);
  }

  /** A masked softmax row, without its mask and its maximum. */
  lemma CausalSoftmax(exp: real -> real, s: seq<Score>, t: nat, f: Entries)
    requires ExpLaws(exp) && HasFinite(s) && t < |s|
    requires forall u :: 0 <= u < |s| ==> s[u] == if u > t then NegInf else Fin(f(u))
    ensures forall u :: 0 <= u <= t ==> SoftmaxRow(exp, s)[u] == Weights(exp, t, f)(u)
    ensures forall u :: t < u < |s| ==> SoftmaxRow(exp, s)[u] == 0.0
  {
    StabilisationIsExact(exp, s);
    CausalNormaliser(exp, s, t, f);
    forall u | 0 <= u <= t ensures SoftmaxRow(exp, s)[u] == Weights(exp, t, f)(u) {
      assert ExpShifted(exp, 0.0, s[u]) == exp(f(u)) by { assert f(u) - 0.0 == f(u); }
    }
    forall u | t < u < |s| ensures SoftmaxRow(exp, s)[u] == 0.0 {
      assert ExpShifted(exp, 0.0, s[u]) == 0.0;
    }
  }

  lemma ScoresAre(g: Gemma, l: Layer, x: Mat, t: nat, hh: nat, kv: nat)
    requires g.Valid() && l.Valid(g.d) && IsMat(x, |x|, g.d.nEmbd) && t < |x| && hh < g.d.nHead
    requires kv < g.d.nKv && kv == hh / g.d.Rep()
    ensures var s := Scores(g.d, g.AllQueries(l, x, 0), g.AllKeys(l, x, 0), t, hh);
      forall u :: 0 <= u < |x| ==> s[u] == if u > t then NegInf else Fin(ScoreOf(g, l, x, t, hh, kv)(u))
  {
    forall u | 0 <= u <= t
      ensures Dot(g.AllQueries(l, x, 0)[t][hh], g.AllKeys(l, x, 0)[u][kv]) == ScoreOf(g, l, x, t, hh, kv)(u)
    {
      ScoreIs(g, l, x, t, u, hh, kv);
    }
  }

  lemma ValueIs(g: Gemma, l: Layer, x: Mat, u: nat, kv: nat)
    requires g.Valid() && l.Valid(g.d) && IsMat(x, |x|, g.d.nEmbd) && u < |x| && kv < g.d.nKv
    ensures Is(Value(g, l, x, u, kv), g.Values(l, x[u])[kv])
  {
    ProjectedHead(g, l.v, x[u], l.attnNorm, g.d.nKv, kv);
  }

  lemma ValueEntry(g: Gemma, l: Layer, x: Mat, u: nat, kv: nat, j: nat)
    requires g.Valid() && l.Valid(g.d) && IsMat(x, |x|, g.d.nEmbd) && u < |x| && kv < g.d.nKv && j < g.d.hd
    ensures ValuesOf(g, l, x, kv, j)(u) == g.Values(l, x[u])[kv][j]
  {
    ValueIs(g, l, x, u, kv);
  }

  lemma ValuesAre(g: Gemma, l: Layer, x: Mat, v: seq<Mat>, kv: nat, j: nat)
    requires g.Valid() && l.Valid(g.d) && IsMat(x, |x|, g.d.nEmbd) && kv < g.d.nKv && j < g.d.hd && v == g.AllValues(l, x)
    ensures Is(ValuesOf(g, l, x, kv, j), ValueColumn(v, g.d.nKv, g.d.hd, kv, j))
  {
    var f := ValuesOf(g, l, x, kv, j);
    forall u | 0 <= u < |x| ensures f(u) == v[u][kv][j] {
      ValueEntry(g, l, x, u, kv, j);
    }
  }

  /** One component of one head, from its scores and values. */
  lemma HeadEntry(exp: real -> real, d: Dims, q: seq<Mat>, k: seq<Mat>, v: seq<Mat>, t: nat, hh: nat, kv: nat, j: nat, score: Entries, value: Entries)
    requires ExpLaws(exp) && d.Valid() && t < |q| && hh < d.nHead && j < d.hd && kv < d.nKv && kv == hh / d.Rep()
    requires IsHeads(q, |q|, d.nHead, d.hd) && IsHeads(k, |q|, d.nKv, d.hd) && IsHeads(v, |q|, d.nKv, d.hd)
    requires var s := Scores(d, q, k, t, hh); forall u :: 0 <= u < |q| ==> s[u] == if u > t then NegInf else Fin(score(u))
    requires Is(value, ValueColumn(v, d.nKv, d.hd, kv, j))
    ensures HeadOut(exp, d, q, k, v, t, hh)[j] == Products(t + 1, Weights(exp, t, score), value)
  {
    var s := Scores(d, q, k, t, hh);
    var w, c := SoftmaxRow(exp, s), ValueColumn(v, d.nKv, d.hd, kv, j);
    CausalSoftmax(exp, s, t, score);
    DotZeroTail(w, c, t + 1, |q|);
    ProductsAre(w, c, Weights(exp, t, score), value, t + 1);
  }

  lemma HeadOutIs(g: Gemma, l: Layer, x: Mat, q: seq<Mat>, k: seq<Mat>, v: seq<Mat>, t: nat, hh: nat, kv: nat, j: nat)
    requires g.Valid() && l.Valid(g.d) && IsMat(x, |x|, g.d.nEmbd) && t < |x| && hh < g.d.nHead && j < g.d.hd
    requires kv < g.d.nKv && kv == hh / g.d.Rep()
    requires q == g.AllQueries(l, x, 0) && k == g.AllKeys(l, x, 0) && v == g.AllValues(l, x)
    ensures HeadOut(g.exp, g.d, q, k, v, t, hh)[j] == GatheredBy(g, l, x, t, hh, kv, j)
  {
    ScoresAre(g, l, x, t, hh, kv);
    ValuesAre(g, l, x, v, kv, j);
    HeadEntry(g.exp, g.d, q, k, v, t, hh, kv, j, ScoreOf(g, l, x, t, hh, kv), ValuesOf(g, l, x, kv, j));
  }

  lemma FlattenedAt(heads: Mat, count: nat, hd: nat, k: nat)
    requires hd > 0 && IsMat(heads, count, hd) && k < count * hd
    ensures 0 <= k / hd < count && 0 <= k % hd < hd && Flatten(heads, count, hd)[k] == heads[k / hd][k % hd]
  {
    DivideBelow(k, count, hd);
  }

  lemma GatheredIs(g: Gemma, l: Layer, x: Mat, q: seq<Mat>, k: seq<Mat>, v: seq<Mat>, t: nat, att: Mat)
    requires g.Valid() && l.Valid(g.d) && IsMat(x, |x|, g.d.nEmbd) && t < |x|
    requires q == g.AllQueries(l, x, 0) && k == g.AllKeys(l, x, 0) && v == g.AllValues(l, x)
    requires att == Attend(g.exp, g.d, q, k, v, t)
    ensures Is(Gathered(g, l, x, t), Flatten(att, g.d.nHead, g.d.hd))
  {
    forall c | 0 <= c < g.d.nHead * g.d.hd ensures Gathered(g, l, x, t)(c) == Flatten(att, g.d.nHead, g.d.hd)[c] {
      FlattenedAt(att, g.d.nHead, g.d.hd, c);
      var hh, j := Head(c, g.d.hd), Component(c, g.d.hd);
      g.d.KvHeadInRange(hh);
      var kv := GroupOf(g.d, hh);
      HeadOutIs(g, l, x, q, k, v, t, hh, kv, j);
    }
  }

  /* ---- both branches ---- */

  lemma PlusIs(x: Vec, out: Mat, f: Entries, v: Vec)
    requires IsMat(out, |x|, |v|) && Is(f, v)
    ensures Plus(x, out, |v|, f) == Add(x, MatVec(out, v))
  {
    forall c | 0 <= c < |x| ensures Plus(x, out, |v|, f)[c] == x[c] + Dot(out[c], v) {
      DotIs(out[c], v, Of(RowAt(out, c)), f);
    }
  }

  lemma GatedIs(g: Gemma, l: Layer, m: Vec)
    requires g.Valid() && l.Valid(g.d) && |m| == g.d.nEmbd
    ensures var h := g.Rms(m, l.ffnNorm); Is(Gated(g, l, m), Times(Map(g.gelu, MatVec(l.gate, h)), MatVec(l.up, h)))
  {
    ProjectionIs(g, l.gate, m, l.ffnNorm);
    ProjectionIs(g, l.up, m, l.ffnNorm);
  }

  lemma BranchIs(g: Gemma, l: Layer, m: Vec)
    requires g.Valid() && l.Valid(g.d) && |m| == g.d.nEmbd
    ensures Plus(m, l.down, g.d.nFf, Gated(g, l, m)) == Add(m, g.FeedForward(l, m))
  {
    var h := g.Rms(m, l.ffnNorm);
    GatedIs(g, l, m);
    PlusIs(m, l.down, Gated(g, l, m), Times(Map(g.gelu, MatVec(l.gate, h)), MatVec(l.up, h)));
  }

  lemma BehindIs(g: Gemma, l: Layer, x: Mat, t: nat)
    requires g.Valid() && l.Valid(g.d) && IsMat(x, |x|, g.d.nEmbd) && t < |x|
    ensures Behind(g, l, x, t) == g.LayerStep(l, x, 0)[t]
  {
    var q, k, v := g.AllQueries(l, x, 0), g.AllKeys(l, x, 0), g.AllValues(l, x);
    var att := Attend(g.exp, g.d, q, k, v, t);
    GatheredIs(g, l, x, q, k, v, t, att);
    PlusIs(x[t], l.output, Gathered(g, l, x, t), Flatten(att, g.d.nHead, g.d.hd));
    BranchIs(g, l, Middle(g, l, x, t));
  }

  lemma LayerIs(g: Gemma, l: Layer, x: Mat)
    requires g.Valid() && l.Valid(g.d) && IsMat(x, |x|, g.d.nEmbd)
    ensures LayerBehind(g, l, x) == g.LayerStep(l, x, 0)
  {
    forall t | 0 <= t < |x| ensures LayerBehind(g, l, x)[t] == g.LayerStep(l, x, 0)[t] {
      BehindIs(g, l, x, t);
    }
  }

  lemma ScaleIs(x: Vec, z: real)
    ensures Times(x, Repeat(z, |x|)) == Scale(x, z)
  {
    var a, b := Times(x, Repeat(z, |x|)), Scale(x, z);
    forall i | 0 <= i < |x| ensures a[i] == b[i] {
      assert Repeat(z, |x|)[i] == z;
    }
    assert a == b;
  }

  lemma EmbeddedIs(g: Gemma, toks: seq<nat>)
    requires g.Valid() && g.InVocabulary(toks)
    ensures Embedded(g, toks) == g.Embed(toks)
  {
    forall t | 0 <= t < |toks| ensures Embedded(g, toks)[t] == g.Embed(toks)[t] {
      ScaleIs(g.emb[toks[t]], g.sqrt(g.d.nEmbd as real));
    }
  }

  lemma HiddenNext(g: Gemma, toks: seq<nat>, depth: nat, x: Mat)
    requires g.Valid() && g.InVocabulary(toks) && 0 < depth <= |g.layers| && x == g.Hidden(toks, 0, depth - 1)
    ensures IsMat(x, |x|, g.d.nEmbd) && g.layers[depth - 1].Valid(g.d)
    ensures g.Hidden(toks, 0, depth) == g.LayerStep(g.layers[depth - 1], x, 0)
  {
  }

  lemma RowsNext(g: Gemma, toks: seq<nat>, depth: nat, x: Mat)
    requires g.d.Valid() && 0 < depth <= |g.layers| && x == RowsBehind(g, toks, depth - 1)
    ensures RowsBehind(g, toks, depth) == LayerBehind(g, g.layers[depth - 1], x)
  {
  }

  lemma RowsAreOn(g: Gemma, toks: seq<nat>, depth: nat, x: Mat)
    requires g.Valid() && g.InVocabulary(toks) && 0 < depth <= |g.layers|
    requires x == RowsBehind(g, toks, depth - 1) && x == g.Hidden(toks, 0, depth - 1)
    ensures RowsBehind(g, toks, depth) == g.Hidden(toks, 0, depth)
  {
    HiddenNext(g, toks, depth, x);
    RowsNext(g, toks, depth, x);
    LayerIs(g, g.layers[depth - 1], x);
  }

  lemma RowsStart(g: Gemma, toks: seq<nat>)
    requires g.Valid() && g.InVocabulary(toks)
    ensures RowsBehind(g, toks, 0) == g.Hidden(toks, 0, 0)
  {
    EmbeddedIs(g, toks);
  }

  /** Every hidden row of every layer is the textbook's. */
  lemma {:induction false} RowsAre(g: Gemma, toks: seq<nat>, depth: nat)
    requires g.Valid() && g.InVocabulary(toks) && depth <= |g.layers|
    ensures RowsBehind(g, toks, depth) == g.Hidden(toks, 0, depth)
  {
    RowsStart(g, toks);
    if depth > 0 {
      RowsAre(g, toks, depth - 1);
      var x := g.Hidden(toks, 0, depth - 1);
      RowsAreOn(g, toks, depth, x);
    }
  }

  /** The logits of the pass are the textbook's, entry by entry. */
  lemma LogitsAreTextbook(g: Gemma, toks: seq<nat>, t: nat, v: nat)
    requires g.Valid() && g.InVocabulary(toks) && t < |toks| && v < |g.emb|
    ensures g.Logits(toks, 0, t)[v] == Logit(g, toks, t, v)
  {
    RowsAre(g, toks, |g.layers|);
    ProjectionIs(g, g.emb, g.Hidden(toks, 0, |g.layers|)[t], g.outputNorm);
  }

  /** `logits` are the textbook's logits of position `t`. */
  ghost predicate IsLogits(g: Gemma, toks: seq<nat>, t: nat, logits: Vec)
    requires g.d.Valid() && t < |toks|
  {
    |logits| == |g.emb| && forall v :: 0 <= v < |logits| ==> logits[v] == Logit(g, toks, t, v)
  }

  lemma AllLogitsAreTextbook(g: Gemma, toks: seq<nat>, t: nat, logits: Vec)
    requires g.Valid() && g.InVocabulary(toks) && t < |toks| && logits == g.Logits(toks, 0, t)
    ensures IsLogits(g, toks, t, logits)
  {
    forall v | 0 <= v < |logits| ensures logits[v] == Logit(g, toks, t, v) {
      LogitsAreTextbook(g, toks, t, v);
    }
  }
}
