/** Grouped-query attention is full attention over repeated heads. */
module GemmaGroups {
  import opened Vectors
  import opened Softmax
  import opened GemmaForward

  function Copies(h: Vec, n: nat): (r: Mat) {
    seq(n, _ => h)
  }

  /** Every head `rep` times, in order. */
  function Repeated(heads: Mat, rep: nat): Mat {
    if heads == [] then [] else Copies(heads[0], rep) + Repeated(heads[1..], rep)
  }

  lemma {:induction false} RepeatedLength(heads: Mat, rep: nat)
    ensures |Repeated(heads, rep)| == |heads| * rep
  {
    if heads != [] {
      RepeatedLength(heads[1..], rep);
      assert |heads| * rep == rep + (|heads| - 1) * rep;
    }
  }

  /** Copy `c` of head `kv`. */
  lemma {:induction false} RepeatedAt(heads: Mat, rep: nat, kv: nat, c: nat, hh: nat)
    requires kv < |heads| && c < rep && hh == kv * rep + c
    ensures hh < |Repeated(heads, rep)| && Repeated(heads, rep)[hh] == heads[kv]
    decreases |heads|
  {
    if kv > 0 {
      assert kv * rep == rep + (kv - 1) * rep;
      RepeatedAt(heads[1..], rep, kv - 1, c, hh - rep);
    }
  }

  function RepeatedAll(heads: seq<Mat>, rep: nat): (r: seq<Mat>) {
    seq(|heads|, t requires 0 <= t < |heads| => Repeated(heads[t], rep))
  }

  lemma QuotientAndRest(a: nat, b: nat)
    requires b > 0
    ensures a == a / b * b + a % b && 0 <= a % b < b && 0 <= a / b
  {
  }

  lemma RepeatedHead(heads: Mat, d: Dims, hh: nat)
    requires d.Valid() && IsMat(heads, d.nKv, d.hd) && hh < d.nHead
    ensures |Repeated(heads, d.Rep())| == d.nHead
    ensures 0 <= hh / d.Rep() < d.nKv && Repeated(heads, d.Rep())[hh] == heads[hh / d.Rep()]
  {
    var rep := d.Rep();
    QuotientAndRest(d.nHead, d.nKv);
    RepeatedLength(heads, rep);
    d.KvHeadInRange(hh);
    QuotientAndRest(hh, rep);
    RepeatedAt(heads, rep, hh / rep, hh % rep, hh);
  }

  lemma RepeatedMat(heads: Mat, d: Dims)
    requires d.Valid() && IsMat(heads, d.nKv, d.hd)
    ensures IsMat(Repeated(heads, d.Rep()), d.nHead, d.hd)
  {
    RepeatedHead(heads, d, 0);
    forall hh | 0 <= hh < d.nHead ensures |Repeated(heads, d.Rep())[hh]| == d.hd {
      RepeatedHead(heads, d, hh);
    }
  }

  lemma RepeatedHeads(heads: seq<Mat>, d: Dims, hh: nat)
    requires d.Valid() && IsHeads(heads, |heads|, d.nKv, d.hd) && hh < d.nHead
    ensures IsHeads(RepeatedAll(heads, d.Rep()), |heads|, d.nHead, d.hd)
    ensures 0 <= hh / d.Rep() < d.nKv
    ensures forall t :: 0 <= t < |heads| ==> RepeatedAll(heads, d.Rep())[t][hh] == heads[t][hh / d.Rep()]
  {
    d.KvHeadInRange(hh);
    forall t | 0 <= t < |heads|
      ensures IsMat(Repeated(heads[t], d.Rep()), d.nHead, d.hd) && Repeated(heads[t], d.Rep())[hh] == heads[t][hh / d.Rep()]
    {
      RepeatedMat(heads[t], d);
      RepeatedHead(heads[t], d, hh);
    }
  }

  /** The same queries over as many key/value heads as query heads, each the
      group's own repeated: the output of every head is the same. */
  lemma GroupedIsRepeated(exp: real -> real, d: Dims, q: seq<Mat>, k: seq<Mat>, v: seq<Mat>, t: nat, hh: nat)
    requires ExpLaws(exp) && d.Valid() && t < |q| && hh < d.nHead
    requires IsHeads(q, |q|, d.nHead, d.hd) && IsHeads(k, |q|, d.nKv, d.hd) && IsHeads(v, |q|, d.nKv, d.hd)
    ensures var full, k', v' := d.(nKv := d.nHead), RepeatedAll(k, d.Rep()), RepeatedAll(v, d.Rep());
      && full.Valid() && IsHeads(k', |q|, d.nHead, d.hd) && IsHeads(v', |q|, d.nHead, d.hd)
      && HeadOut(exp, full, q, k', v', t, hh) == HeadOut(exp, d, q, k, v, t, hh)
  {
    var full, k', v' := d.(nKv := d.nHead), RepeatedAll(k, d.Rep()), RepeatedAll(v, d.Rep());
    RepeatedHeads(k, d, hh);
    RepeatedHeads(v, d, hh);
    assert full.Rep() == 1 && hh / full.Rep() == hh;
    SameScores(full, d, q, k', k, t, hh);
    SameColumns(full, d, v', v, hh);
  }

  lemma SameScores(full: Dims, d: Dims, q: seq<Mat>, k': seq<Mat>, k: seq<Mat>, t: nat, hh: nat)
    requires d.Valid() && full.Valid() && full == d.(nKv := d.nHead) && t < |q| && hh < d.nHead
    requires IsHeads(q, |q|, d.nHead, d.hd) && IsHeads(k, |q|, d.nKv, d.hd) && IsHeads(k', |q|, d.nHead, d.hd)
    requires hh / full.Rep() == hh && 0 <= hh / d.Rep() < d.nKv
    requires forall u :: 0 <= u < |q| ==> k'[u][hh] == k[u][hh / d.Rep()]
    ensures Scores(full, q, k', t, hh) == Scores(d, q, k, t, hh)
  {
  }

  lemma SameColumns(full: Dims, d: Dims, v': seq<Mat>, v: seq<Mat>, hh: nat)
    requires d.Valid() && hh < d.nHead && 0 <= hh / d.Rep() < d.nKv && |v'| == |v|
    requires IsHeads(v, |v|, d.nKv, d.hd) && IsHeads(v', |v|, d.nHead, d.hd)
    requires forall u :: 0 <= u < |v| ==> v'[u][hh] == v[u][hh / d.Rep()]
    ensures forall j :: 0 <= j < d.hd ==> ValueColumn(v', d.nHead, d.hd, hh, j) == ValueColumn(v, d.nKv, d.hd, hh / d.Rep(), j)
  {
  }
}
