/** What the reference forward pass guarantees over every prompt: causality,
    dependence on relative positions only, and convex attention. */
module GemmaTheorems {
  import opened Vectors
  import opened Softmax
  import opened Rope
  import opened GemmaForward

  /** `a` holds the first `|a|` entries of `b`. */
  ghost predicate Begins<T>(a: seq<T>, b: seq<T>) {
    |a| <= |b| && forall i :: 0 <= i < |a| ==> a[i] == b[i]
  }

  /* ---- causality ---- */

  /** Extending the sequence leaves the attention of an old position alone:
      the new columns are masked, so they carry weight zero. */
  lemma HeadOutPrefix(exp: real -> real, d: Dims, q: seq<Mat>, k: seq<Mat>, v: seq<Mat>,
                      q': seq<Mat>, k': seq<Mat>, v': seq<Mat>, t: nat, hh: nat)
    requires ExpLaws(exp) && d.Valid() && t < |q| && hh < d.nHead
    requires IsHeads(q, |q|, d.nHead, d.hd) && IsHeads(k, |q|, d.nKv, d.hd) && IsHeads(v, |q|, d.nKv, d.hd)
    requires IsHeads(q', |q'|, d.nHead, d.hd) && IsHeads(k', |q'|, d.nKv, d.hd) && IsHeads(v', |q'|, d.nKv, d.hd)
    requires Begins(q, q') && Begins(k, k') && Begins(v, v')
    ensures HeadOut(exp, d, q, k, v, t, hh) == HeadOut(exp, d, q', k', v', t, hh)
  {
    d.KvHeadInRange(hh);
    var n, kv := |q|, hh / d.Rep();
    var s, s' := Scores(d, q, k, t, hh), Scores(d, q', k', t, hh);
    MaskedTail(exp, s, s');
    var w, w' := SoftmaxRow(exp, s), SoftmaxRow(exp, s');
    forall j | 0 <= j < d.hd
      ensures HeadOut(exp, d, q, k, v, t, hh)[j] == HeadOut(exp, d, q', k', v', t, hh)[j]
    {
      var c, c' := ValueColumn(v, d.nKv, d.hd, kv, j), ValueColumn(v', d.nKv, d.hd, kv, j);
      forall i | 0 <= i < n
        ensures w[i] == w'[i] && c[i] == c'[i]
      {
        assert w[i] == w'[..n][i];
      }
      DotPrefix(w, c, w', c', n);
      DotZeroTail(w', c', n, |q'|);
    }
  }

  lemma StepPrefix(g: Gemma, l: Layer, x: Mat, y: Mat, s: int)
    requires g.Valid() && l.Valid(g.d) && IsMat(x, |x|, g.d.nEmbd) && IsMat(y, |y|, g.d.nEmbd)
    requires Begins(x, y)
    ensures Begins(g.LayerStep(l, x, s), g.LayerStep(l, y, s))
  {
    var q, k, v := g.AllQueries(l, x, s), g.AllKeys(l, x, s), g.AllValues(l, x);
    var q', k', v' := g.AllQueries(l, y, s), g.AllKeys(l, y, s), g.AllValues(l, y);
    forall t | 0 <= t < |x|
      ensures Attend(g.exp, g.d, q, k, v, t) == Attend(g.exp, g.d, q', k', v', t)
    {
      forall hh | 0 <= hh < g.d.nHead
        ensures HeadOut(g.exp, g.d, q, k, v, t, hh) == HeadOut(g.exp, g.d, q', k', v', t, hh)
      {
        HeadOutPrefix(g.exp, g.d, q, k, v, q', k', v', t, hh);
      }
    }
  }

  /** One layer keeps the rows of a prefix. */
  lemma StepKeepsPrefix(g: Gemma, l: Layer, x: Mat, y: Mat, s: int, n: nat)
    requires g.Valid() && l.Valid(g.d) && IsMat(x, n, g.d.nEmbd) && IsMat(y, |y|, g.d.nEmbd)
    requires n <= |y| && y[..n] == x
    ensures g.LayerStep(l, y, s)[..n] == g.LayerStep(l, x, s)
  {
    forall i | 0 <= i < n ensures x[i] == y[i] { assert y[..n][i] == y[i]; }
    StepPrefix(g, l, x, y, s);
  }

  lemma EmbedPrefix(g: Gemma, toks: seq<nat>, more: seq<nat>)
    requires g.Valid() && g.InVocabulary(toks) && g.InVocabulary(more) && g.InVocabulary(toks + more)
    ensures g.Embed(toks + more)[..|toks|] == g.Embed(toks)
  {
  }

  /** Causality through every layer: running any extension of a prompt
      leaves all hidden rows of the prompt unchanged. */
  lemma {:induction false} HiddenIsCausal(g: Gemma, toks: seq<nat>, more: seq<nat>, s: int, depth: nat)
    requires g.Valid() && g.InVocabulary(toks) && g.InVocabulary(more) && depth <= |g.layers|
    ensures g.InVocabulary(toks + more)
    ensures g.Hidden(toks + more, s, depth)[..|toks|] == g.Hidden(toks, s, depth)
  {
    if depth == 0 {
      EmbedPrefix(g, toks, more);
    } else {
      HiddenIsCausal(g, toks, more, s, depth - 1);
      StepKeepsPrefix(g, g.layers[depth - 1], g.Hidden(toks, s, depth - 1), g.Hidden(toks + more, s, depth - 1), s, |toks|);
    }
  }

  /** Two prompts that agree on tokens `0..t` have the same hidden row `t` at
      every depth and the same logits at `t`, whatever follows. */
  lemma RowDependsOnPrefixOnly(g: Gemma, a: seq<nat>, b: seq<nat>, s: int, t: nat, depth: nat)
    requires g.Valid() && g.InVocabulary(a) && g.InVocabulary(b) && depth <= |g.layers|
    requires t < |a| && t < |b| && a[..t + 1] == b[..t + 1]
    ensures g.Hidden(a, s, depth)[t] == g.Hidden(b, s, depth)[t]
    ensures g.Logits(a, s, t) == g.Logits(b, s, t)
  {
    RowOfPrefix(g, a, s, t, depth);
    RowOfPrefix(g, b, s, t, depth);
    RowOfPrefix(g, a, s, t, |g.layers|);
    RowOfPrefix(g, b, s, t, |g.layers|);
  }

  lemma RowOfPrefix(g: Gemma, a: seq<nat>, s: int, t: nat, depth: nat)
    requires g.Valid() && g.InVocabulary(a) && t < |a| && depth <= |g.layers|
    ensures g.InVocabulary(a[..t + 1])
    ensures g.Hidden(a, s, depth)[t] == g.Hidden(a[..t + 1], s, depth)[t]
  {
    HiddenIsCausal(g, a[..t + 1], a[t + 1..], s, depth);
    assert a[..t + 1] + a[t + 1..] == a;
    var y := g.Hidden(a, s, depth);
    assert y[..|a[..t + 1]|][t] == y[t];
  }

  /** `run` on a prompt returns the row its last token has in any longer
      run. */
  lemma LastLogitsAreCausal(g: Gemma, toks: seq<nat>, more: seq<nat>, s: int)
    requires g.Valid() && g.InVocabulary(toks) && g.InVocabulary(more) && toks != []
    ensures g.InVocabulary(toks + more)
    ensures g.Logits(toks, s, |toks| - 1) == g.Logits(toks + more, s, |toks| - 1)
  {
    assert (toks + more)[..|toks|] == toks[..|toks|];
    RowDependsOnPrefixOnly(g, toks, toks + more, s, |toks| - 1, 0);
  }

  /* ---- relative positions ---- */

  /** An attention score does not see where the sequence starts. */
  lemma ScoreShift(g: Gemma, q: Vec, k: Vec, a: int, b: int, s: int)
    requires g.Valid() && g.rotary.Laws() && |q| == |k| && |q| % 2 == 0
    requires g.sqrt(g.d.hd as real) != 0.0
    ensures Dot(Divide(g.rotary.Rotate(q, a + s), g.sqrt(g.d.hd as real)), g.rotary.Rotate(k, b + s))
         == Dot(Divide(g.rotary.Rotate(q, a), g.sqrt(g.d.hd as real)), g.rotary.Rotate(k, b))
  {
    g.rotary.ScoreIsRelative(q, k, a + s, b + s);
    g.rotary.ScoreIsRelative(q, k, a, b);
    assert a + s - (b + s) == a - b;
    EqualDotsDivided(g.rotary.Rotate(q, a + s), g.rotary.Rotate(k, b + s),
                     g.rotary.Rotate(q, a), g.rotary.Rotate(k, b), g.sqrt(g.d.hd as real));
  }

  lemma EqualDotsDivided(x: Vec, y: Vec, x': Vec, y': Vec, c: real)
    requires |x| == |y| == |x'| == |y'| && c != 0.0 && Dot(x, y) == Dot(x', y')
    ensures Dot(Divide(x, c), y) == Dot(Divide(x', c), y')
  {
    DotDivided(x, y, c, |x|);
    DotDivided(x', y', c, |x|);
  }

  lemma PairShift(g: Gemma, l: Layer, x: Vec, y: Vec, a: int, b: int, s: int, hh: nat, kv: nat, qs: Mat, ks: Mat, q0: Mat, k0: Mat)
    requires g.Valid() && g.rotary.Laws() && l.Valid(g.d) && |x| == |y| == g.d.nEmbd
    requires hh < g.d.nHead && kv < g.d.nKv
    requires qs == g.Queries(l, x, a + s) && ks == g.Keys(l, y, b + s)
    requires q0 == g.Queries(l, x, a) && k0 == g.Keys(l, y, b)
    ensures Dot(qs[hh], ks[kv]) == Dot(q0[hh], k0[kv])
  {
    var q := Reshape(MatVec(l.q, g.Rms(x, l.attnNorm)), g.d.nHead, g.d.hd)[hh];
    var k := Reshape(MatVec(l.k, g.Rms(y, l.attnNorm)), g.d.nKv, g.d.hd)[kv];
    ScoreShift(g, q, k, a, b, s);
  }

  lemma AllQueriesAt(g: Gemma, l: Layer, x: Mat, s: int, t: nat, pos: int)
    requires g.Valid() && l.Valid(g.d) && IsMat(x, |x|, g.d.nEmbd) && t < |x| && pos == t + s
    ensures g.AllQueries(l, x, s)[t] == g.Queries(l, x[t], pos)
  {
  }

  lemma AllKeysAt(g: Gemma, l: Layer, x: Mat, s: int, t: nat, pos: int)
    requires g.Valid() && l.Valid(g.d) && IsMat(x, |x|, g.d.nEmbd) && t < |x| && pos == t + s
    ensures g.AllKeys(l, x, s)[t] == g.Keys(l, x[t], pos)
  {
  }

  /** Every query head's product with every key head stays. */
  ghost predicate SameProducts(q: seq<Mat>, k: seq<Mat>, q': seq<Mat>, k': seq<Mat>, d: Dims, t: nat, hh: nat, kv: nat)
    requires t < |q| && hh < d.nHead && kv < d.nKv
    requires IsHeads(q, |q|, d.nHead, d.hd) && IsHeads(k, |q|, d.nKv, d.hd)
    requires IsHeads(q', |q|, d.nHead, d.hd) && IsHeads(k', |q|, d.nKv, d.hd)
  {
    forall u :: 0 <= u < |q| ==> Dot(q[t][hh], k[u][kv]) == Dot(q'[t][hh], k'[u][kv])
  }

  lemma ProductShift(g: Gemma, l: Layer, x: Mat, s: int, t: nat, u: nat, hh: nat, kv: nat, qs: seq<Mat>, ks: seq<Mat>, q0: seq<Mat>, k0: seq<Mat>)
    requires g.Valid() && g.rotary.Laws() && l.Valid(g.d) && IsMat(x, |x|, g.d.nEmbd)
    requires t < |x| && u < |x| && hh < g.d.nHead && kv < g.d.nKv
    requires qs == g.AllQueries(l, x, s) && ks == g.AllKeys(l, x, s) && q0 == g.AllQueries(l, x, 0) && k0 == g.AllKeys(l, x, 0)
    ensures Dot(qs[t][hh], ks[u][kv]) == Dot(q0[t][hh], k0[u][kv])
  {
    AllQueriesAt(g, l, x, s, t, t + s);
    AllQueriesAt(g, l, x, 0, t, t);
    AllKeysAt(g, l, x, s, u, u + s);
    AllKeysAt(g, l, x, 0, u, u);
    PairShift(g, l, x[t], x[u], t, u, s, hh, kv, qs[t], ks[u], q0[t], k0[u]);
  }

  lemma EqualScores(d: Dims, q: seq<Mat>, k: seq<Mat>, q': seq<Mat>, k': seq<Mat>, t: nat, hh: nat, kv: nat)
    requires d.Valid() && t < |q| == |q'| && hh < d.nHead && kv < d.nKv && kv == hh / d.Rep()
    requires IsHeads(q, |q|, d.nHead, d.hd) && IsHeads(k, |q|, d.nKv, d.hd)
    requires IsHeads(q', |q|, d.nHead, d.hd) && IsHeads(k', |q|, d.nKv, d.hd)
    requires SameProducts(q, k, q', k', d, t, hh, kv)
    ensures Scores(d, q, k, t, hh) == Scores(d, q', k', t, hh)
  {
  }

  lemma ScoresShift(g: Gemma, l: Layer, x: Mat, s: int, t: nat, hh: nat)
    requires g.Valid() && g.rotary.Laws() && l.Valid(g.d) && IsMat(x, |x|, g.d.nEmbd)
    requires t < |x| && hh < g.d.nHead
    ensures Scores(g.d, g.AllQueries(l, x, s), g.AllKeys(l, x, s), t, hh)
         == Scores(g.d, g.AllQueries(l, x, 0), g.AllKeys(l, x, 0), t, hh)
  {
    g.d.KvHeadInRange(hh);
    var kv := hh / g.d.Rep();
    var qs, ks, q0, k0 := g.AllQueries(l, x, s), g.AllKeys(l, x, s), g.AllQueries(l, x, 0), g.AllKeys(l, x, 0);
    forall u | 0 <= u < |x|
      ensures Dot(qs[t][hh], ks[u][kv]) == Dot(q0[t][hh], k0[u][kv])
    {
      ProductShift(g, l, x, s, t, u, hh, kv, qs, ks, q0, k0);
    }
    EqualScores(g.d, qs, ks, q0, k0, t, hh, kv);
  }

  lemma StepShift(g: Gemma, l: Layer, x: Mat, s: int)
    requires g.Valid() && g.rotary.Laws() && l.Valid(g.d) && IsMat(x, |x|, g.d.nEmbd)
    ensures g.LayerStep(l, x, s) == g.LayerStep(l, x, 0)
  {
    var d := g.d;
    var qs, ks, q0, k0 := g.AllQueries(l, x, s), g.AllKeys(l, x, s), g.AllQueries(l, x, 0), g.AllKeys(l, x, 0);
    var v := g.AllValues(l, x);
    forall t | 0 <= t < |x|
      ensures Attend(g.exp, d, qs, ks, v, t) == Attend(g.exp, d, q0, k0, v, t)
    {
      forall hh | 0 <= hh < d.nHead
        ensures HeadOut(g.exp, d, qs, ks, v, t, hh) == HeadOut(g.exp, d, q0, k0, v, t, hh)
      {
        ScoresShift(g, l, x, s, t, hh);
      }
    }
  }

  /** Position-shift invariance: starting the positions at any offset leaves
      every hidden row of every layer unchanged. */
  lemma {:induction false} HiddenIsShiftInvariant(g: Gemma, toks: seq<nat>, s: int, depth: nat)
    requires g.Valid() && g.rotary.Laws() && g.InVocabulary(toks) && depth <= |g.layers|
    ensures g.Hidden(toks, s, depth) == g.Hidden(toks, 0, depth)
  {
    if depth > 0 {
      HiddenIsShiftInvariant(g, toks, s, depth - 1);
      StepShift(g, g.layers[depth - 1], g.Hidden(toks, 0, depth - 1), s);
    }
  }

  /** ... and so the logits, of every position. */
  lemma LogitsAreShiftInvariant(g: Gemma, toks: seq<nat>, s: int, t: nat)
    requires g.Valid() && g.rotary.Laws() && g.InVocabulary(toks) && t < |toks|
    ensures g.Logits(toks, s, t) == g.Logits(toks, 0, t)
  {
    HiddenIsShiftInvariant(g, toks, s, |g.layers|);
  }

  /* ---- convexity ---- */

  /** Every component a query head outputs at position `t` lies within any
      bounds on that component of the value rows of positions `0..t` in the
      key/value head it is mapped to. */
  lemma AttentionIsConvex(exp: real -> real, d: Dims, q: seq<Mat>, k: seq<Mat>, v: seq<Mat>,
                          t: nat, hh: nat, j: nat, lo: real, hi: real)
    requires ExpLaws(exp) && d.Valid() && t < |q| && hh < d.nHead && j < d.hd
    requires IsHeads(q, |q|, d.nHead, d.hd) && IsHeads(k, |q|, d.nKv, d.hd) && IsHeads(v, |q|, d.nKv, d.hd)
    requires 0 <= hh / d.Rep() < d.nKv
    requires forall u :: 0 <= u <= t ==> lo <= v[u][hh / d.Rep()][j] <= hi
    ensures lo <= HeadOut(exp, d, q, k, v, t, hh)[j] <= hi
  {
    SoftmaxIsConvex(exp, Scores(d, q, k, t, hh), ValueColumn(v, d.nKv, d.hd, hh / d.Rep(), j), lo, hi);
  }
}
