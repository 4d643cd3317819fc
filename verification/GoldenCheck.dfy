/** The check of one golden: compare with a fresh answer, rewrite the file
    when it is further off than the tolerance, and what a second check with
    the same answer then says. */
module GoldenCheck {
  import opened Options
  import opened Texts
  import opened RustGoldens

  /** The verdicts, and the ways the script stops instead: no such constant,
      a literal `float` refuses, or the maximum of no values. */
  datatype Verdict = Same | Rewritten | Fail | Missing | BadFloat | NoValues

  function Abs(x: real): real {
    if x < 0.0 then -x else x
  }

  /** `max(abs(a - b) for a, b in zip(as, bs))` over the first `n` pairs. */
  function MaxDelta(a: seq<real>, b: seq<real>, n: nat): (r: real)
    requires 0 < n <= |a| && n <= |b|
  {
    var d := Abs(a[n - 1] - b[n - 1]);
    if n == 1 then d
    else
      var before := MaxDelta(a, b, n - 1);
      if d > before then d else before
  }

  method ComputeMaxDelta(a: seq<real>, b: seq<real>) returns (r: real)
    requires 0 < |a| == |b|
    ensures r == MaxDelta(a, b, |a|)
  {
    r := Abs(a[0] - b[0]);
    for i := 1 to |a|
      invariant r == MaxDelta(a, b, i)
    {
      var d := Abs(a[i] - b[i]);
      if d > r {
        r := d;
      }
    }
  }

  /** Neither value is more than the tolerance above the other. */
  predicate Near(a: real, b: real, tol: real) {
    a - b <= tol && b - a <= tol
  }

  /** The delta is within the tolerance exactly when every pair is. */
  lemma {:induction false} DeltaWithin(a: seq<real>, b: seq<real>, n: nat, tol: real)
    requires 0 < n <= |a| && n <= |b|
    ensures MaxDelta(a, b, n) <= tol <==> forall i :: 0 <= i < n ==> Near(a[i], b[i], tol)
  {
    if n > 1 {
      DeltaWithin(a, b, n - 1, tol);
    }
  }

  /** Every literal's value, if `float` accepts them all. */
  function ParseAll(f: Floats, lits: seq<string>): (r: Option<seq<real>>)
    ensures r.Some? ==> |r.value| == |lits|
  {
    if lits == [] then Some([])
    else
      var first, rest := f.value(lits[0]), ParseAll(f, lits[1..]);
      if first.Some? && rest.Some? then Some([first.value] + rest.value) else None
  }

  function Rounded(f: Floats, vals: seq<real>): (r: seq<real>) {
    seq(|vals|, k requires 0 <= k < |vals| => f.Round(vals[k]))
  }

  lemma PrintsTail(f: Floats, vals: seq<real>)
    requires vals != [] && f.Prints(vals)
    ensures f.LawsAt(vals[0]) && f.Prints(vals[1..])
  {
    forall k | 0 <= k < |vals[1..]| ensures f.LawsAt(vals[1..][k]) { assert f.LawsAt(vals[k + 1]); }
  }

  lemma ParseCons(f: Floats, lit: string, v: real, lits: seq<string>, rest: seq<real>)
    requires f.value(lit) == Some(v) && ParseAll(f, lits) == Some(rest)
    ensures ParseAll(f, [lit] + lits) == Some([v] + rest)
  {
    assert ([lit] + lits)[1..] == lits;
  }

  lemma RoundedCons(f: Floats, vals: seq<real>)
    requires vals != []
    ensures Rounded(f, vals) == [f.Round(vals[0])] + Rounded(f, vals[1..])
  {
  }

  lemma {:induction false} PrintedParse(f: Floats, vals: seq<real>)
    requires f.Prints(vals)
    ensures ParseAll(f, Printed(f, vals)) == Some(Rounded(f, vals))
    decreases |vals|
  {
    if vals != [] {
      var rest := vals[1..];
      PrintsTail(f, vals);
      PrintedCons(f, vals);
      PrintedParse(f, rest);
      ParseCons(f, f.literal(vals[0]), f.Round(vals[0]), Printed(f, rest), Rounded(f, rest));
      RoundedCons(f, vals);
    } else {
      assert Printed(f, vals) == [] && Rounded(f, vals) == [];
    }
  }

  /** The values `rust_golden` reads out of a match. */
  function ReadValues(f: Floats, s: string, m: Found): Option<seq<real>>
    requires m.body <= m.end <= |s|
  {
    ParseAll(f, Numbers(Body(s, m), 0))
  }

  predicate IsHeadGolden(name: string) {
    |name| >= 5 && name[|name| - 5..] == "_HEAD"
  }

  /** The part of the answer a golden pins: its leading values when the name
      says so. */
  function Wanted(name: string, answer: seq<real>, n: nat): seq<real> {
    if IsHeadGolden(name) && |answer| > n then answer[..n] else answer
  }

  datatype Checked = Checked(verdict: Verdict, text: string)

  /** `check`, for a Rust golden: the verdict and the text it leaves. */
  function CheckText(f: Floats, s: string, name: string, answer: seq<real>, tol: real): Checked {
    match Search(s, 0, Head(name))
    case None => Checked(Missing, s)
    case Some(m) => CheckFound(f, s, m, name, answer, tol)
  }

  /** The check of the array found at `m`. */
  function CheckFound(f: Floats, s: string, m: Found, name: string, answer: seq<real>, tol: real): Checked
    requires m.body <= m.end <= |s|
  {
    match ReadValues(f, s, m)
    case None => Checked(BadFloat, s)
    case Some(was) =>
      var vals := Wanted(name, answer, |was|);
      if |vals| != |was| then Checked(Fail, s)
      else if was == [] then Checked(NoValues, s)
      else if MaxDelta(was, vals, |was|) > tol then Checked(Rewritten, Rewrite(f, s, m, vals))
      else Checked(Same, s)
  }

  /** A golden file on disk. */
  class GoldenFile {
    var text: string

    constructor (text: string)
      ensures this.text == text
    {
      this.text := text;
    }

    /** `check`, overwriting the file when it rewrites. */
    method Check(f: Floats, name: string, answer: seq<real>, tol: real) returns (verdict: Verdict)
      modifies this
      ensures Checked(verdict, text) == CheckText(f, old(text), name, answer, tol)
    {
      var found := Search(text, 0, Head(name));
      if found.None? {
        return Missing;
      }
      var m := found.value;
      var read := ReadValues(f, text, m);
      if read.None? {
        return BadFloat;
      }
      var vals := answer;
      if IsHeadGolden(name) && |answer| > |read.value| {
        vals := answer[..|read.value|];
      }
      if |vals| != |read.value| {
        return Fail;
      }
      if read.value == [] {
        return NoValues;
      }
      var delta := ComputeMaxDelta(read.value, vals);
      if delta > tol {
        text := Rewrite(f, text, m, vals);
        return Rewritten;
      }
      return Same;
    }
  }

  /** Where a rewritten array is: everything but the end of the body stays. */
  function Moved(f: Floats, s: string, m: Found, vals: seq<real>): Found
    requires m.body <= m.end <= |s|
  {
    m.(end := m.body + |Inner(f, Body(s, m), vals)|)
  }

  /** A written body reads back, in the layout it was written in. */
  lemma InnerReadsBack(f: Floats, body: string, vals: seq<real>)
    requires f.Prints(vals)
    ensures ParseAll(f, Numbers(Inner(f, body, vals), 0)) == Some(Rounded(f, vals))
    ensures ('\n' in Inner(f, body, vals)) <==> ('\n' in body)
    ensures ']' !in Inner(f, body, vals)
  {
    InnerRead(f, body, vals);
    InnerPlain(f, body, vals);
    PrintedParse(f, vals);
  }

  /** What a rewrite leaves: the same array at the same start with the same
      declared length, holding the fresh values as their literals read back,
      and the same text outside the body. */
  lemma RewriteReadsBack(f: Floats, s: string, head: string, m: Found, vals: seq<real>, t: string, m': Found)
    requires f.Prints(vals) && IsHead(head) && Search(s, 0, head) == Some(m)
    requires t == Rewrite(f, s, m, vals) && m' == Moved(f, s, m, vals)
    ensures Search(t, 0, head) == Some(m') && m'.end <= |t|
    ensures ReadValues(f, t, m') == Some(Rounded(f, vals))
    ensures t[..m.body] == s[..m.body] && t[m'.end..] == s[m.end..]
    ensures ('\n' in Body(t, m')) <==> ('\n' in Body(s, m))
  {
    InnerReadsBack(f, Body(s, m), vals);
    SpliceReadsBack(f, s, head, m, Inner(f, Body(s, m), vals), Rounded(f, vals), t, m');
  }

  /** A body spliced in is found and read. */
  lemma SpliceReadsBack(f: Floats, s: string, head: string, m: Found, inner: string, read: seq<real>, t: string, m': Found)
    requires IsHead(head) && Search(s, 0, head) == Some(m) && ']' !in inner
    requires ParseAll(f, Numbers(inner, 0)) == Some(read)
    requires t == s[..m.body] + inner + s[m.end..] && m' == m.(end := m.body + |inner|)
    ensures Search(t, 0, head) == Some(m') && m'.end <= |t|
    ensures ReadValues(f, t, m') == Some(read) && Body(t, m') == inner
    ensures t[..m.body] == s[..m.body] && t[m'.end..] == s[m.end..]
  {
    SpliceFound(s, head, m, t, inner);
    BodyRead(f, t, m', inner, read);
  }

  lemma BodyRead(f: Floats, t: string, m: Found, inner: string, vals: seq<real>)
    requires m.body <= m.end <= |t| && t[m.body..m.end] == inner && ParseAll(f, Numbers(inner, 0)) == Some(vals)
    ensures ReadValues(f, t, m) == Some(vals) && Body(t, m) == inner
  {
  }

  /** A rewritten golden held other values, as many as are wanted. */
  lemma RewrittenIsRewrite(f: Floats, s: string, m: Found, name: string, answer: seq<real>, tol: real, was: seq<real>, t: string)
    requires m.body <= m.end <= |s| && ReadValues(f, s, m) == Some(was)
    requires CheckFound(f, s, m, name, answer, tol) == Checked(Rewritten, t)
    ensures var vals := Wanted(name, answer, |was|);
      |vals| == |was| > 0 && MaxDelta(was, vals, |was|) > tol && t == Rewrite(f, s, m, vals)
  {
  }

  /** Every value is within the tolerance of what its literal reads back as. */
  ghost predicate ReadsBackWithin(f: Floats, vals: seq<real>, tol: real) {
    forall i :: 0 <= i < |vals| ==> Near(Rounded(f, vals)[i], vals[i], tol)
  }

  /** Rewriting converges: a second check with the same answer leaves the
      file as the first left it, and says SAME exactly when every fresh value
      is within the tolerance of what its literal reads back as. */
  lemma RewriteConverges(f: Floats, s: string, name: string, answer: seq<real>, tol: real, m: Found, was: seq<real>, t: string)
    requires Search(s, 0, Head(name)) == Some(m) && ReadValues(f, s, m) == Some(was)
    requires f.Prints(Wanted(name, answer, |was|))
    requires CheckText(f, s, name, answer, tol) == Checked(Rewritten, t)
    ensures CheckText(f, t, name, answer, tol) ==
            Checked(if ReadsBackWithin(f, Wanted(name, answer, |was|), tol) then Same else Rewritten, t)
  {
    HeadsAreHeads(name);
    var m' := FoundConverges(f, s, Head(name), name, answer, tol, m, was, t);
  }

  lemma FoundConverges(f: Floats, s: string, head: string, name: string, answer: seq<real>, tol: real, m: Found, was: seq<real>, t: string)
    returns (m': Found)
    requires IsHead(head) && Search(s, 0, head) == Some(m) && ReadValues(f, s, m) == Some(was)
    requires f.Prints(Wanted(name, answer, |was|))
    requires CheckFound(f, s, m, name, answer, tol) == Checked(Rewritten, t)
    ensures Search(t, 0, head) == Some(m')
    ensures CheckFound(f, t, m', name, answer, tol) ==
            Checked(if ReadsBackWithin(f, Wanted(name, answer, |was|), tol) then Same else Rewritten, t)
  {
    var vals := Wanted(name, answer, |was|);
    m' := Moved(f, s, m, vals);
    RewrittenIsRewrite(f, s, m, name, answer, tol, was, t);
    RewriteReadsBack(f, s, head, m, vals, t, m');
    CheckedAgain(f, s, name, answer, tol, m, vals, t, m');
  }

  lemma CheckedAgain(f: Floats, s: string, name: string, answer: seq<real>, tol: real, m: Found, vals: seq<real>, t: string, m': Found)
    requires m.body <= m.end <= |s| && t == Rewrite(f, s, m, vals) && m' == Moved(f, s, m, vals) && m'.end <= |t|
    requires ('\n' in Body(t, m')) <==> ('\n' in Body(s, m))
    requires ReadValues(f, t, m') == Some(Rounded(f, vals)) && |vals| > 0 && vals == Wanted(name, answer, |vals|)
    ensures CheckFound(f, t, m', name, answer, tol) == Checked(if ReadsBackWithin(f, vals, tol) then Same else Rewritten, t)
  {
    RewriteAgain(f, s, m, vals, t, m');
    DeltaWithin(Rounded(f, vals), vals, |vals|, tol);
    SecondCheck(f, t, name, answer, tol, m', vals, Rounded(f, vals));
  }

  /** The second check, taken apart. */
  lemma SecondCheck(f: Floats, t: string, name: string, answer: seq<real>, tol: real, m: Found, vals: seq<real>, read: seq<real>)
    requires m.body <= m.end <= |t| && ReadValues(f, t, m) == Some(read)
    requires |read| == |vals| > 0 && vals == Wanted(name, answer, |vals|)
    requires Rewrite(f, t, m, vals) == t
    ensures CheckFound(f, t, m, name, answer, tol) ==
            Checked(if MaxDelta(read, vals, |vals|) > tol then Rewritten else Same, t)
  {
  }

  /** Writing the same values again writes the same text. */
  lemma RewriteAgain(f: Floats, s: string, m: Found, vals: seq<real>, t: string, m': Found)
    requires m.body <= m.end <= |s| && t == Rewrite(f, s, m, vals) && m' == Moved(f, s, m, vals) && m'.end <= |t|
    requires ('\n' in Body(t, m')) <==> ('\n' in Body(s, m))
    ensures Rewrite(f, t, m', vals) == t
  {
    var inner := Inner(f, Body(s, m), vals);
    assert Inner(f, Body(t, m'), vals) == inner;
    assert t[..m.body] == s[..m.body] && t[m'.end..] == s[m.end..];
  }
}
