/** The MLA decompression matrix, split per head into a transposed key half
    and a value half; and what the split keeps: attention computed in latent
    space equals attention over the expanded keys and values. */
module MlaSplit {
  import opened Vectors

  /** `m.T` of a `rows` by `cols` matrix. */
  function Transpose(m: Mat, rows: nat, cols: nat): (t: Mat)
    requires IsMat(m, rows, cols)
    ensures IsMat(t, cols, rows)
  {
    seq(cols, c requires 0 <= c < cols => seq(rows, r requires 0 <= r < rows => m[r][c]))
  }

  lemma TransposeTwice(m: Mat, rows: nat, cols: nat)
    requires IsMat(m, rows, cols)
    ensures Transpose(Transpose(m, rows, cols), cols, rows) == m
  {
    forall r | 0 <= r < rows ensures Transpose(Transpose(m, rows, cols), cols, rows)[r] == m[r] {}
  }

  lemma Distribute(a: nat, b: nat, wide: nat)
    ensures (a + b) * wide == a * wide + b * wide
  {
  }

  lemma ProductIsNatural(a: nat, b: nat)
    ensures a * b >= 0
  {
  }

  lemma HeadBounds(h: nat, heads: nat, wide: nat)
    requires h < heads
    ensures 0 <= h * wide <= (h + 1) * wide == h * wide + wide <= heads * wide
  {
    Distribute(h, 1, wide);
    Distribute(h + 1, heads - h - 1, wide);
    ProductIsNatural(h, wide);
    ProductIsNatural(heads - h - 1, wide);
  }

  datatype Shape = Shape(heads: nat, nope: nat, vdim: nat, lora: nat) {
    function Wide(): nat {
      nope + vdim
    }

    /** The combined matrix: `heads * (nope + vdim)` rows, head-major. */
    predicate IsKvB(kvB: Mat) {
      IsMat(kvB, heads * Wide(), lora)
    }

    predicate IsKB(kB: seq<Mat>) {
      |kB| == heads && forall h :: 0 <= h < heads ==> IsMat(kB[h], lora, nope)
    }

    predicate IsVB(vB: seq<Mat>) {
      |vB| == heads && forall h :: 0 <= h < heads ==> IsMat(vB[h], vdim, lora)
    }

    /** Head `h` of `kv_b.reshape(heads, nope + vdim, lora)`. */
    function PerHead(kvB: Mat, h: nat): (m: Mat)
      requires IsKvB(kvB) && h < heads
      ensures IsMat(m, Wide(), lora)
    {
      HeadBounds(h, heads, Wide());
      kvB[h * Wide()..(h + 1) * Wide()]
    }

    /** `attn_k_b`: per head, the first `nope` rows, transposed. */
    function SplitK(kvB: Mat): (kB: seq<Mat>)
      requires IsKvB(kvB)
      ensures IsKB(kB)
    {
      seq(heads, h requires 0 <= h < heads => Transpose(PerHead(kvB, h)[..nope], nope, lora))
    }

    /** `attn_v_b`: per head, the remaining rows as they are. */
    function SplitV(kvB: Mat): (vB: seq<Mat>)
      requires IsKvB(kvB)
      ensures IsVB(vB)
    {
      seq(heads, h requires 0 <= h < heads => PerHead(kvB, h)[nope..])
    }

    /** Entry by entry, in the combined matrix's own row numbers, which are
        all in range. */
    lemma SplitEntries(kvB: Mat, h: nat, r: nat, c: nat)
      requires IsKvB(kvB) && h < heads && r < Wide() && c < lora
      ensures h * Wide() + r < |kvB|
      ensures kvB[h * Wide() + r][c] == (if r < nope then SplitK(kvB)[h][c][r] else SplitV(kvB)[h][r - nope][c])
    {
      HeadBounds(h, heads, Wide());
      assert PerHead(kvB, h)[r] == kvB[h * Wide() + r];
      if r >= nope {
        assert SplitV(kvB)[h][r - nope] == PerHead(kvB, h)[r];
      }
    }

    /** The rows of head `h` of two halves. */
    function JoinHead(kB: seq<Mat>, vB: seq<Mat>, h: nat): (m: Mat)
      requires IsKB(kB) && IsVB(vB) && h < heads
      ensures IsMat(m, Wide(), lora)
    {
      Transpose(kB[h], lora, nope) + vB[h]
    }

    /** The combined matrix of two halves, its first `n` heads. */
    function Join(kB: seq<Mat>, vB: seq<Mat>, n: nat): (kvB: Mat)
      requires IsKB(kB) && IsVB(vB) && n <= heads
      ensures IsMat(kvB, n * Wide(), lora)
    {
      if n == 0 then []
      else
        HeadBounds(n - 1, heads, Wide());
        Join(kB, vB, n - 1) + JoinHead(kB, vB, n - 1)
    }

    /** Head `h` of a join, its rows from `lo` to `hi`. */
    lemma {:induction false} JoinedRows(kB: seq<Mat>, vB: seq<Mat>, n: nat, h: nat, lo: nat, hi: nat)
      requires IsKB(kB) && IsVB(vB) && h < n <= heads && lo == h * Wide() && hi == lo + Wide()
      ensures hi <= |Join(kB, vB, n)| && Join(kB, vB, n)[lo..hi] == JoinHead(kB, vB, h)
      decreases n
    {
      var before, last := Join(kB, vB, n - 1), JoinHead(kB, vB, n - 1);
      if h < n - 1 {
        JoinedRows(kB, vB, n - 1, h, lo, hi);
        SliceOfPrefix(before, last, lo, hi);
      } else {
        SliceOfRest(before, last);
      }
    }

    static lemma SliceOfPrefix(a: Mat, b: Mat, lo: nat, hi: nat)
      requires lo <= hi <= |a|
      ensures (a + b)[lo..hi] == a[lo..hi]
    {
    }

    static lemma SliceOfRest(a: Mat, b: Mat)
      ensures (a + b)[|a|..|a| + |b|] == b
    {
    }

    lemma JoinedHead(kB: seq<Mat>, vB: seq<Mat>, n: nat, h: nat)
      requires IsKB(kB) && IsVB(vB) && h < n <= heads
      ensures (h + 1) * Wide() <= n * Wide() && h * Wide() <= (h + 1) * Wide()
      ensures Join(kB, vB, n)[h * Wide()..(h + 1) * Wide()] == JoinHead(kB, vB, h)
    {
      HeadBounds(h, n, Wide());
      JoinedRows(kB, vB, n, h, h * Wide(), (h + 1) * Wide());
    }

    lemma JoinHeadOfSplit(kvB: Mat, h: nat)
      requires IsKvB(kvB) && h < heads
      ensures JoinHead(SplitK(kvB), SplitV(kvB), h) == PerHead(kvB, h)
    {
      var m := PerHead(kvB, h);
      TransposeTwice(m[..nope], nope, lora);
      assert m == m[..nope] + m[nope..];
    }

    static lemma PrefixGrows(m: Mat, a: nat, b: nat)
      requires a <= b <= |m|
      ensures m[..b] == m[..a] + m[a..b]
    {
    }

    /** One more head, its rows from `lo` to `hi`. */
    lemma JoinsOn(kvB: Mat, h: nat, lo: nat, hi: nat)
      requires IsKvB(kvB) && h < heads && lo == h * Wide() && hi == (h + 1) * Wide() && lo <= hi <= |kvB|
      ensures kvB[..lo] + JoinHead(SplitK(kvB), SplitV(kvB), h) == kvB[..hi]
    {
      JoinHeadOfSplit(kvB, h);
      PrefixGrows(kvB, lo, hi);
    }

    lemma {:induction false} JoinOfSplit(kvB: Mat, n: nat)
      requires IsKvB(kvB) && n <= heads
      ensures 0 <= n * Wide() <= |kvB| && Join(SplitK(kvB), SplitV(kvB), n) == kvB[..n * Wide()]
      decreases n
    {
      if n > 0 {
        HeadBounds(n - 1, heads, Wide());
        JoinOfSplit(kvB, n - 1);
        JoinsOn(kvB, n - 1, (n - 1) * Wide(), n * Wide());
      }
    }

    /** The split is a bijection: joining the halves of a matrix gives the
        matrix back ... */
    lemma JoinInvertsSplit(kvB: Mat)
      requires IsKvB(kvB)
      ensures Join(SplitK(kvB), SplitV(kvB), heads) == kvB
    {
      JoinOfSplit(kvB, heads);
    }

    /** ... and splitting a joined matrix gives back its halves. */
    lemma SplitInvertsJoin(kB: seq<Mat>, vB: seq<Mat>)
      requires IsKB(kB) && IsVB(vB)
      ensures SplitK(Join(kB, vB, heads)) == kB && SplitV(Join(kB, vB, heads)) == vB
    {
      var kvB := Join(kB, vB, heads);
      forall h | 0 <= h < heads ensures SplitK(kvB)[h] == kB[h] && SplitV(kvB)[h] == vB[h] {
        JoinedHead(kB, vB, heads, h);
        var m := PerHead(kvB, h);
        assert m == JoinHead(kB, vB, h);
        assert m[..nope] == Transpose(kB[h], lora, nope) && m[nope..] == vB[h];
        TransposeTwice(kB[h], lora, nope);
      }
    }

    /* ---- attention, both ways ---- */

    /** The key of a latent, expanded: the first `nope` rows times it. */
    function ExpandedKey(kvB: Mat, h: nat, latent: Vec): (k: Vec)
      requires IsKvB(kvB) && h < heads && |latent| == lora
      ensures |k| == nope
    {
      MatVec(PerHead(kvB, h)[..nope], latent)
    }

    function ExpandedValue(kvB: Mat, h: nat, latent: Vec): (v: Vec)
      requires IsKvB(kvB) && h < heads && |latent| == lora
      ensures |v| == vdim
    {
      MatVec(PerHead(kvB, h)[nope..], latent)
    }

    predicate IsLatents(latents: Mat) {
      IsMat(latents, |latents|, lora)
    }

    /** Naive attention of one head: expand every latent, score, weigh, sum.
        `rope` is the rotary part of each score, `weigh` the softmax. */
    function NaiveHead(kvB: Mat, h: nat, q: Vec, latents: Mat, rope: Vec, weigh: Vec -> Vec): (out: Vec)
      requires IsKvB(kvB) && h < heads && |q| == nope && IsLatents(latents) && |rope| == |latents|
      requires forall s :: |weigh(s)| == |s|
    {
      var scores := seq(|latents|, u requires 0 <= u < |latents| => Dot(q, ExpandedKey(kvB, h, latents[u])) + rope[u]);
      var w := weigh(scores);
      seq(vdim, v requires 0 <= v < vdim =>
        Dot(w, seq(|latents|, u requires 0 <= u < |latents| => ExpandedValue(kvB, h, latents[u])[v])))
    }

    /** Absorbed attention of one head: the query goes through `k_b` once,
        the weights sum latents, and the sum goes through `v_b` once. */
    function AbsorbedHead(kB: seq<Mat>, vB: seq<Mat>, h: nat, q: Vec, latents: Mat, rope: Vec, weigh: Vec -> Vec): (out: Vec)
      requires IsKB(kB) && IsVB(vB) && h < heads && |q| == nope && IsLatents(latents) && |rope| == |latents|
      requires forall s :: |weigh(s)| == |s|
    {
      var absorbed := MatVec(kB[h], q);
      var scores := seq(|latents|, u requires 0 <= u < |latents| => Dot(absorbed, latents[u]) + rope[u]);
      var w := weigh(scores);
      var mixed := seq(lora, c requires 0 <= c < lora => Dot(w, Column(latents, c)));
      MatVec(vB[h], mixed)
    }

    lemma ScoresAgree(kvB: Mat, h: nat, q: Vec, latent: Vec)
      requires IsKvB(kvB) && h < heads && |q| == nope && |latent| == lora
      ensures Dot(q, ExpandedKey(kvB, h, latent)) == Dot(MatVec(SplitK(kvB)[h], q), latent)
    {
      var m := PerHead(kvB, h)[..nope];
      var t := SplitK(kvB)[h];
      forall c | 0 <= c < lora ensures t[c] == Column(m, c) {}
      ExchangeSums(m, q, latent, MatVec(t, q));
    }

    lemma ValuesAgree(kvB: Mat, h: nat, w: Vec, latents: Mat, v: nat)
      requires IsKvB(kvB) && h < heads && IsLatents(latents) && |w| == |latents| && v < vdim
      ensures var mixed := seq(lora, c requires 0 <= c < lora => Dot(w, Column(latents, c)));
        Dot(w, seq(|latents|, u requires 0 <= u < |latents| => ExpandedValue(kvB, h, latents[u])[v]))
        == MatVec(SplitV(kvB)[h], mixed)[v]
    {
      var row := SplitV(kvB)[h][v];
      var mixed := seq(lora, c requires 0 <= c < lora => Dot(w, Column(latents, c)));
      var values := seq(|latents|, u requires 0 <= u < |latents| => ExpandedValue(kvB, h, latents[u])[v]);
      forall u | 0 <= u < |latents| ensures values[u] == MatVec(latents, row)[u] {
        DotCommutes(row, latents[u], lora);
      }
      assert values == MatVec(latents, row);
      forall c | 0 <= c < lora ensures mixed[c] == Dot(Column(latents, c), w) {
        DotCommutes(w, Column(latents, c), |w|);
      }
      ExchangeSums(latents, w, row, mixed);
      DotCommutes(mixed, row, lora);
    }

    /** Absorbed equals naive: for every head, query, latents, rotary part and
        weighting, both give the same output. */
    lemma AbsorbedEqualsNaive(kvB: Mat, h: nat, q: Vec, latents: Mat, rope: Vec, weigh: Vec -> Vec)
      requires IsKvB(kvB) && h < heads && |q| == nope && IsLatents(latents) && |rope| == |latents|
      requires forall s :: |weigh(s)| == |s|
      ensures AbsorbedHead(SplitK(kvB), SplitV(kvB), h, q, latents, rope, weigh) == NaiveHead(kvB, h, q, latents, rope, weigh)
    {
      var n := |latents|;
      var naive := seq(n, u requires 0 <= u < n => Dot(q, ExpandedKey(kvB, h, latents[u])) + rope[u]);
      var absorbed := seq(n, u requires 0 <= u < n => Dot(MatVec(SplitK(kvB)[h], q), latents[u]) + rope[u]);
      forall u | 0 <= u < n ensures naive[u] == absorbed[u] {
        ScoresAgree(kvB, h, q, latents[u]);
      }
      assert naive == absorbed;
      var w := weigh(naive);
      forall v | 0 <= v < vdim
        ensures AbsorbedHead(SplitK(kvB), SplitV(kvB), h, q, latents, rope, weigh)[v]
             == NaiveHead(kvB, h, q, latents, rope, weigh)[v]
      {
        ValuesAgree(kvB, h, w, latents, v);
      }
    }
  }

  /** The column sums of the first `r` rows of `m` weighted by `q`. */
  function PartialSums(m: Mat, q: Vec, cols: nat, r: nat): (s: Vec)
    requires IsMat(m, |m|, cols) && r <= |m| && |q| == |m|
    ensures |s| == cols
  {
    seq(cols, c requires 0 <= c < cols => DotN(Column(m, c), q, r))
  }

  lemma {:induction false} ExchangePartial(m: Mat, q: Vec, x: Vec, r: nat)
    requires IsMat(m, |m|, |x|) && |q| == |m| && r <= |m|
    ensures DotN(q, MatVec(m, x), r) == Dot(PartialSums(m, q, |x|, r), x)
  {
    var sums := PartialSums(m, q, |x|, r);
    if r == 0 {
      DotZeroTail(sums, x, 0, |x|);
    } else {
      ExchangePartial(m, q, x, r - 1);
      var before := PartialSums(m, q, |x|, r - 1);
      forall c | 0 <= c < |x| ensures sums[c] == before[c] + q[r - 1] * m[r - 1][c] {
        assert Column(m, c)[r - 1] == m[r - 1][c];
      }
      DotLinear(before, m[r - 1], sums, q[r - 1], x, |x|);
    }
  }

  /** Summing over rows first or over columns first is the same. */
  lemma ExchangeSums(m: Mat, q: Vec, x: Vec, s: Vec)
    requires IsMat(m, |m|, |x|) && |q| == |m| && |s| == |x|
    requires forall c :: 0 <= c < |x| ==> s[c] == Dot(Column(m, c), q)
    ensures Dot(q, MatVec(m, x)) == Dot(s, x)
  {
    ExchangePartial(m, q, x, |m|);
    assert s == PartialSums(m, q, |x|, |m|);
  }
}
