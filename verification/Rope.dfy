/** NEOX rotary position embedding: dimension `i` of a head is paired with
    dimension `i + half` and the pair is turned by `pos * freq(i)`. */
module Rope {
  import opened Vectors

  /** The two halves of a pair `(a, b)` turned by an angle with cosine `c`
      and sine `s`. */
  function TurnedLow(a: real, b: real, c: real, s: real): real {
    a * c - b * s
  }

  function TurnedHigh(a: real, b: real, c: real, s: real): real {
    a * s + b * c
  }

  /** Cosine, sine and the per-band frequency `BASE ** (-2 * i / HD)`. */
  datatype Rotary = Rotary(cos: real -> real, sin: real -> real, freq: nat -> real) {

    ghost predicate AngleLawsAt(x: real, y: real) {
      && cos(x + y) == cos(x) * cos(y) - sin(x) * sin(y)
      && sin(x + y) == sin(x) * cos(y) + cos(x) * sin(y)
      && cos(y) * cos(y) + sin(y) * sin(y) == 1.0
    }

    /** The angle-sum identities and the Pythagorean identity. */
    ghost predicate Laws() {
      forall x, y :: AngleLawsAt(x, y)
    }

    function Theta(pos: int, band: nat): real {
      pos as real * freq(band)
    }

    /** One head, rotated to position `pos`. */
    function Rotate(v: Vec, pos: int): (r: Vec)
      requires |v| % 2 == 0
      ensures |r| == |v|
    {
      var half := |v| / 2;
      seq(|v|, j requires 0 <= j < |v| =>
        if j < half then TurnedLow(v[j], v[j + half], cos(Theta(pos, j)), sin(Theta(pos, j)))
        else TurnedHigh(v[j - half], v[j], cos(Theta(pos, j - half)), sin(Theta(pos, j - half))))
    }

    /** What band `i` of two heads contributes to a score at position
        difference `delta`: no absolute position appears. */
    function BandScore(q: Vec, k: Vec, delta: int, i: nat): real
      requires |q| == |k| && |q| % 2 == 0 && i < |q| / 2
    {
      var h := |q| / 2;
      (q[i] * k[i] + q[i + h] * k[i + h]) * cos(Theta(delta, i))
      + (q[i] * k[i + h] - q[i + h] * k[i]) * sin(Theta(delta, i))
    }

    function RelativeScore(q: Vec, k: Vec, delta: int, bands: nat): real
      requires |q| == |k| && |q| % 2 == 0 && bands <= |q| / 2
    {
      if bands == 0 then 0.0
      else RelativeScore(q, k, delta, bands - 1) + BandScore(q, k, delta, bands - 1)
    }

    lemma DifferenceOfAngles(x: real, y: real)
      requires Laws()
      ensures cos(x) * cos(y) + sin(x) * sin(y) == cos(x - y)
      ensures sin(x) * cos(y) - cos(x) * sin(y) == sin(x - y)
    {
      assert AngleLawsAt(x - y, y) && x - y + y == x;
      Resolve(cos(x - y), sin(x - y), cos(y), sin(y));
    }

    static lemma Resolve(c: real, s: real, cy: real, sy: real)
      requires cy * cy + sy * sy == 1.0
      ensures (c * cy - s * sy) * cy + (s * cy + c * sy) * sy == c
      ensures (s * cy + c * sy) * cy - (c * cy - s * sy) * sy == s
    {
      calc {
        (c * cy - s * sy) * cy + (s * cy + c * sy) * sy;
        c * (cy * cy) - s * sy * cy + s * cy * sy + c * (sy * sy);
        c * (cy * cy + sy * sy);
      }
      calc {
        (s * cy + c * sy) * cy - (c * cy - s * sy) * sy;
        s * (cy * cy) + c * sy * cy - c * cy * sy + s * (sy * sy);
        s * (cy * cy + sy * sy);
      }
    }

    /** Two rotated pairs multiply out to a function of the two sums of
        products that only see the angle difference. */
    static lemma PairProduct(a: real, b: real, a': real, b': real, c1: real, s1: real, c2: real, s2: real)
      ensures (a * c1 - b * s1) * (a' * c2 - b' * s2) + (a * s1 + b * c1) * (a' * s2 + b' * c2)
           == (a * a' + b * b') * (c1 * c2 + s1 * s2) + (a * b' - b * a') * (s1 * c2 - c1 * s2)
    {
      calc {
        (a * c1 - b * s1) * (a' * c2 - b' * s2);
        a * a' * (c1 * c2) - a * b' * (c1 * s2) - b * a' * (s1 * c2) + b * b' * (s1 * s2);
      }
      calc {
        (a * s1 + b * c1) * (a' * s2 + b' * c2);
        a * a' * (s1 * s2) + a * b' * (s1 * c2) + b * a' * (c1 * s2) + b * b' * (c1 * c2);
      }
    }

    /** Band `i` of `x` and `y` multiplies out to the relative band score of
        `q` and `k`. */
    ghost predicate BandMatches(q: Vec, k: Vec, delta: int, x: Vec, y: Vec, i: nat)
      requires |q| == |k| == |x| == |y| && |q| % 2 == 0 && i < |q| / 2
    {
      x[i] * y[i] + x[i + |q| / 2] * y[i + |q| / 2] == BandScore(q, k, delta, i)
    }

    /** Two turned pairs multiply out to a function of the angle difference. */
    lemma TurnedPairs(a: real, b: real, a': real, b': real, t: real, u: real)
      requires Laws()
      ensures TurnedLow(a, b, cos(t), sin(t)) * TurnedLow(a', b', cos(u), sin(u))
            + TurnedHigh(a, b, cos(t), sin(t)) * TurnedHigh(a', b', cos(u), sin(u))
           == (a * a' + b * b') * cos(t - u) + (a * b' - b * a') * sin(t - u)
    {
      DifferenceOfAngles(t, u);
      PairProduct(a, b, a', b', cos(t), sin(t), cos(u), sin(u));
    }

    lemma BandIsRelative(q: Vec, k: Vec, a: int, b: int, i: nat)
      requires Laws() && |q| == |k| && |q| % 2 == 0 && i < |q| / 2
      ensures BandMatches(q, k, a - b, Rotate(q, a), Rotate(k, b), i)
    {
      var h := |q| / 2;
      ThetaDifference(a, b, i);
      TurnedPairs(q[i], q[i + h], k[i], k[i + h], Theta(a, i), Theta(b, i));
    }

    lemma ThetaDifference(a: int, b: int, i: nat)
      ensures Theta(a, i) - Theta(b, i) == Theta(a - b, i)
    {
      assert (a - b) as real == a as real - b as real;
      assert (a as real - b as real) * freq(i) == a as real * freq(i) - b as real * freq(i);
    }

    /** The first `n` bands of two even-length vectors, paired up. */
    static function PairedDot(x: Vec, y: Vec, n: nat): real
      requires |x| == |y| && |x| % 2 == 0 && n <= |x| / 2
    {
      if n == 0 then 0.0
      else PairedDot(x, y, n - 1) + (x[n - 1] * y[n - 1] + x[n - 1 + |x| / 2] * y[n - 1 + |x| / 2])
    }

    static lemma {:induction false} DotByBands(x: Vec, y: Vec, n: nat)
      requires |x| == |y| && |x| % 2 == 0 && n <= |x| / 2
      ensures DotN(x, y, n) + (DotN(x, y, |x| / 2 + n) - DotN(x, y, |x| / 2)) == PairedDot(x, y, n)
    {
      if n > 0 {
        DotByBands(x, y, n - 1);
      }
    }

    lemma {:induction false} PairedIsRelative(q: Vec, k: Vec, delta: int, x: Vec, y: Vec, n: nat)
      requires |q| == |k| == |x| == |y| && |q| % 2 == 0 && n <= |q| / 2
      requires forall i :: 0 <= i < n ==> BandMatches(q, k, delta, x, y, i)
      ensures PairedDot(x, y, n) == RelativeScore(q, k, delta, n)
    {
      if n > 0 {
        PairedIsRelative(q, k, delta, x, y, n - 1);
        assert BandMatches(q, k, delta, x, y, n - 1);
      }
    }

    lemma DotIsRelative(q: Vec, k: Vec, delta: int, x: Vec, y: Vec)
      requires |q| == |k| == |x| == |y| && |q| % 2 == 0
      requires forall i :: 0 <= i < |q| / 2 ==> BandMatches(q, k, delta, x, y, i)
      ensures Dot(x, y) == RelativeScore(q, k, delta, |q| / 2)
    {
      PairedIsRelative(q, k, delta, x, y, |q| / 2);
      DotByBands(x, y, |q| / 2);
    }

    /** A rotated score is a function of the unrotated heads and the position
        difference alone. */
    lemma ScoreIsRelative(q: Vec, k: Vec, a: int, b: int)
      requires Laws() && |q| == |k| && |q| % 2 == 0
      ensures Dot(Rotate(q, a), Rotate(k, b)) == RelativeScore(q, k, a - b, |q| / 2)
    {
      var delta, x, y := a - b, Rotate(q, a), Rotate(k, b);
      forall i | 0 <= i < |q| / 2
        ensures BandMatches(q, k, delta, x, y, i)
      {
        BandIsRelative(q, k, a, b, i);
      }
      DotIsRelative(q, k, delta, x, y);
    }

    lemma {:induction false} RelativeAtZero(q: Vec, k: Vec, n: nat)
      requires Laws() && |q| == |k| && |q| % 2 == 0 && n <= |q| / 2
      ensures RelativeScore(q, k, 0, n) == PairedDot(q, k, n)
    {
      if n > 0 {
        RelativeAtZero(q, k, n - 1);
        DifferenceOfAngles(0.0, 0.0);
        assert AngleLawsAt(0.0, 0.0);
        assert Theta(0, n - 1) == 0.0;
        assert cos(0.0) == 1.0 && sin(0.0) == 0.0;
      }
    }

    /** Rotating both heads to one position is an isometry: it preserves
        every dot product, in particular the norm of a head. */
    lemma RotationIsIsometry(q: Vec, k: Vec, a: int)
      requires Laws() && |q| == |k| && |q| % 2 == 0
      ensures Dot(Rotate(q, a), Rotate(k, a)) == Dot(q, k)
    {
      ScoreIsRelative(q, k, a, a);
      RelativeAtZero(q, k, |q| / 2);
      DotByBands(q, k, |q| / 2);
    }
  }

  /** `out` holds column `j` of `rotated`. */
  ghost predicate ColumnDone(rotated: Mat, out: array2<real>, j: nat)
    requires IsMat(rotated, out.Length0, out.Length1) && j < out.Length1
    reads out
  {
    forall h :: 0 <= h < out.Length0 ==> out[h, j] == rotated[h][j]
  }

  ghost function RotateAll(rotary: Rotary, heads: Mat, pos: int, width: nat): (r: Mat)
    requires width % 2 == 0 && IsMat(heads, |heads|, width)
    ensures IsMat(r, |heads|, width)
  {
    seq(|heads|, h requires 0 <= h < |heads| => rotary.Rotate(heads[h], pos))
  }

  /** Band `i` of the target is the turned band `i` of the heads. */
  ghost predicate BandIs(target: Mat, v: array2<real>, rotary: Rotary, pos: int, i: nat)
    requires v.Length1 % 2 == 0 && i < v.Length1 / 2 && IsMat(target, v.Length0, v.Length1)
    reads v
  {
    var half, c, s := v.Length1 / 2, rotary.cos(rotary.Theta(pos, i)), rotary.sin(rotary.Theta(pos, i));
    forall h :: 0 <= h < v.Length0 ==>
      && target[h][i] == TurnedLow(v[h, i], v[h, i + half], c, s)
      && target[h][i + half] == TurnedHigh(v[h, i], v[h, i + half], c, s)
  }

  lemma BandsOfRotated(rotary: Rotary, v: array2<real>, pos: int, i: nat)
    requires v.Length1 % 2 == 0 && i < v.Length1 / 2
    ensures BandIs(RotateAll(rotary, Rows(v), pos, v.Length1), v, rotary, pos, i)
  {
  }

  /** One band of every head: columns `i` and `i + half` of `out` become the
      turned pair, read from `v`; every other column stays. */
  method TurnBand(v: array2<real>, out: array2<real>, i: nat, half: nat, c: real, s: real)
    requires v != out && v.Length0 == out.Length0 && v.Length1 == out.Length1
    requires i < half && i + half < v.Length1
    modifies out
    ensures forall h :: 0 <= h < v.Length0 ==> out[h, i] == TurnedLow(v[h, i], v[h, i + half], c, s)
    ensures forall h :: 0 <= h < v.Length0 ==> out[h, i + half] == TurnedHigh(v[h, i], v[h, i + half], c, s)
    ensures forall h, j :: 0 <= h < v.Length0 && 0 <= j < v.Length1 && j != i && j != i + half ==>
      out[h, j] == old(out[h, j])
  {
    for g := 0 to v.Length0
      invariant forall h :: 0 <= h < g ==> out[h, i] == TurnedLow(v[h, i], v[h, i + half], c, s)
      invariant forall h :: 0 <= h < g ==> out[h, i + half] == TurnedHigh(v[h, i], v[h, i + half], c, s)
      invariant forall h, j :: 0 <= h < v.Length0 && 0 <= j < v.Length1 && j != i && j != i + half ==>
        out[h, j] == old(out[h, j])
    {
      var a, b := v[g, i], v[g, i + half];
      out[g, i] := a * c - b * s;
      out[g, i + half] := a * s + b * c;
    }
  }

  /** The same against a target: columns done stay done, and the band's two
      columns join them. */
  method TurnBandTo(ghost target: Mat, rotary: Rotary, v: array2<real>, out: array2<real>, pos: int, i: nat)
    requires v != out && v.Length0 == out.Length0 && v.Length1 == out.Length1
    requires v.Length1 % 2 == 0 && i < v.Length1 / 2 && IsMat(target, v.Length0, v.Length1)
    requires BandIs(target, v, rotary, pos, i)
    modifies out
    ensures ColumnDone(target, out, i) && ColumnDone(target, out, i + v.Length1 / 2)
    ensures forall j :: 0 <= j < v.Length1 && old(ColumnDone(target, out, j)) ==> ColumnDone(target, out, j)
  {
    var theta := rotary.Theta(pos, i);
    var c, s := rotary.cos(theta), rotary.sin(theta);
    TurnBand(v, out, i, v.Length1 / 2, c, s);
  }

  /** The band loop of `rope_neox`. */
  method TurnBands(ghost target: Mat, rotary: Rotary, v: array2<real>, out: array2<real>, pos: int)
    requires v != out && v.Length0 == out.Length0 && v.Length1 == out.Length1
    requires v.Length1 % 2 == 0 && IsMat(target, v.Length0, v.Length1)
    requires forall i :: 0 <= i < v.Length1 / 2 ==> BandIs(target, v, rotary, pos, i)
    modifies out
    ensures Rows(out) == target
  {
    var half := v.Length1 / 2;
    for i := 0 to half
      invariant forall j :: 0 <= j < i || half <= j < half + i ==> ColumnDone(target, out, j)
    {
      TurnBandTo(target, rotary, v, out, pos, i);
    }
    forall h | 0 <= h < v.Length0
      ensures Row(out, h) == target[h]
    {
      forall j | 0 <= j < v.Length1
        ensures Row(out, h)[j] == target[h][j]
      {
        assert ColumnDone(target, out, j);
      }
    }
  }

  /** `rope_neox`: copy the heads, then overwrite the two halves band by
      band, reading only the original. */
  method RopeNeox(rotary: Rotary, v: array2<real>, pos: int) returns (out: array2<real>)
    requires v.Length1 % 2 == 0
    ensures fresh(out) && out.Length0 == v.Length0 && out.Length1 == v.Length1
    ensures Rows(out) == RotateAll(rotary, Rows(v), pos, v.Length1)
  {
    out := new real[v.Length0, v.Length1]((h, j) requires 0 <= h < v.Length0 && 0 <= j < v.Length1 reads v => v[h, j]);
    ghost var target := RotateAll(rotary, Rows(v), pos, v.Length1);
    forall i | 0 <= i < v.Length1 / 2
      ensures BandIs(target, v, rotary, pos, i)
    {
      BandsOfRotated(rotary, v, pos, i);
    }
    TurnBands(target, rotary, v, out, pos);
  }
}
