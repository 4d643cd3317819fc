/** The C++ declaration scanner: `skip_literal` and `matching_paren`. The
    scan steps over string and char literals (with backslash escapes) and
    line comments, and counts parentheses everywhere else. */
module CppScanner {
  /** Python's IndexError, `str.index`'s ValueError, and the scanner's own
      ValueError. */
  datatype Failure = IndexError | NoNewline | Unbalanced

  datatype Outcome = At(index: nat) | Raises(error: Failure)

  predicate IsQuote(c: char) {
    c == '"' || c == '\''
  }

  predicate CommentAt(src: string, i: nat) {
    i + 1 < |src| && src[i] == '/' && src[i + 1] == '/'
  }

  /** Where the literal whose body starts at `i` ends (just past its closing
      quote). */
  function LiteralEnd(src: string, i: nat, quote: char): (r: Outcome)
    ensures r.At? ==> i < r.index <= |src|
    decreases |src| - i
  {
    if i >= |src| then Raises(IndexError)
    else if src[i] == quote then At(i + 1)
    else LiteralEnd(src, if src[i] == '\\' then i + 2 else i + 1, quote)
  }

  /** `src.index("\n", i)`. */
  function NewlineFrom(src: string, i: nat): (r: Outcome)
    ensures r.At? ==> i <= r.index < |src| && src[r.index] == '\n'
    decreases |src| - i
  {
    if i >= |src| then Raises(NoNewline)
    else if src[i] == '\n' then At(i)
    else NewlineFrom(src, i + 1)
  }

  /** One step of the scan from position `i`. */
  function Step(src: string, i: nat): (r: Outcome)
    requires i < |src|
    ensures r.At? ==> i < r.index <= |src|
  {
    if IsQuote(src[i]) then LiteralEnd(src, i + 1, src[i])
    else if CommentAt(src, i) then NewlineFrom(src, i)
    else At(i + 1)
  }

  /** What a scan position adds to the depth. */
  function Delta(c: char): int {
    if c == '(' then 1 else if c == ')' then -1 else 0
  }

  /** The scan from position `i` at depth `depth`. */
  function Match(src: string, i: nat, depth: int): (r: Outcome)
    ensures r.At? ==> i <= r.index < |src| && src[r.index] == ')'
    decreases |src| - i
  {
    if i >= |src| then Raises(Unbalanced)
    else if src[i] == ')' && depth == 1 then At(i)
    else match Step(src, i)
      case Raises(e) => Raises(e)
      case At(j) => Match(src, j, depth + Delta(src[i]))
  }

  /** `skip_literal`. */
  method SkipLiteral(src: string, start: nat) returns (r: Outcome)
    requires start < |src|
    ensures r == LiteralEnd(src, start + 1, src[start])
  {
    var quote, i := src[start], start + 1;
    while i < |src| && src[i] != quote
      invariant LiteralEnd(src, i, quote) == LiteralEnd(src, start + 1, quote)
    {
      i := if src[i] == '\\' then i + 2 else i + 1;
    }
    return if i < |src| then At(i + 1) else Raises(IndexError);
  }

  method IndexOfNewline(src: string, start: nat) returns (r: Outcome)
    ensures r == NewlineFrom(src, start)
  {
    var i := start;
    while i < |src| && src[i] != '\n'
      invariant NewlineFrom(src, i) == NewlineFrom(src, start)
    {
      i := i + 1;
    }
    return if i < |src| then At(i) else Raises(NoNewline);
  }

  /** `matching_paren`. */
  method MatchingParen(src: string, openAt: nat) returns (r: Outcome)
    ensures r == Match(src, openAt, 0)
  {
    var depth, i := 0, openAt;
    while i < |src|
      invariant Match(src, i, depth) == Match(src, openAt, 0)
      decreases |src| - i
    {
      var c := src[i];
      if IsQuote(c) {
        var j := SkipLiteral(src, i);
        if j.Raises? {
          return j;
        }
        i := j.index;
        continue;
      }
      if CommentAt(src, i) {
        var j := IndexOfNewline(src, i);
        if j.Raises? {
          return j;
        }
        i := j.index;
        continue;
      }
      if c == '(' {
        depth := depth + 1;
      } else if c == ')' {
        depth := depth - 1;
        if depth == 0 {
          return At(i);
        }
      }
      i := i + 1;
    }
    return Raises(Unbalanced);
  }

  /* ---- arbitrary text ---- */

  /** `path` lists consecutive scan positions. */
  ghost predicate IsScan(src: string, path: seq<nat>) {
    && (forall k :: 0 <= k < |path| ==> path[k] < |src|)
    && (forall k :: 0 <= k < |path| - 1 ==> Step(src, path[k]) == At(path[k + 1]))
  }

  /** The depth after the first `n` positions of a scan. */
  ghost function DepthAfter(src: string, path: seq<nat>, n: nat): int
    requires n <= |path| && forall k :: 0 <= k < |path| ==> path[k] < |src|
  {
    if n == 0 then 0 else DepthAfter(src, path, n - 1) + Delta(src[path[n - 1]])
  }

  /** The last position of `path` is the first `)` of the scan that brings
      the depth, counted from `depth`, to zero. */
  ghost predicate ClosesFirst(src: string, path: seq<nat>, depth: int) {
    && path != [] && IsScan(src, path)
    && src[path[|path| - 1]] == ')' && depth + DepthAfter(src, path, |path|) == 0
    && forall k :: 0 <= k < |path| - 1 ==> !(src[path[k]] == ')' && depth + DepthAfter(src, path, k + 1) == 0)
  }

  lemma {:induction false} DepthOfTail(src: string, path: seq<nat>, n: nat)
    requires 1 <= n <= |path| && forall k :: 0 <= k < |path| ==> path[k] < |src|
    ensures DepthAfter(src, path, n) == Delta(src[path[0]]) + DepthAfter(src, path[1..], n - 1)
  {
    if n > 1 {
      DepthOfTail(src, path, n - 1);
    }
  }

  /** Prepending a scan position to a closing scan. */
  lemma ClosesFirstStep(src: string, path: seq<nat>, depth: int)
    requires |path| >= 2 && IsScan(src, path)
    ensures ClosesFirst(src, path, depth) <==>
      (!(src[path[0]] == ')' && depth == 1) && ClosesFirst(src, path[1..], depth + Delta(src[path[0]])))
  {
    var rest, e := path[1..], depth + Delta(src[path[0]]);
    assert IsScan(src, rest) by {
      forall k | 0 <= k < |rest| - 1 ensures Step(src, rest[k]) == At(rest[k + 1]) {
        assert Step(src, path[k + 1]) == At(path[k + 1 + 1]);
      }
    }
    assert DepthAfter(src, path, 1) == Delta(src[path[0]]);
    forall n | 1 <= n <= |path|
      ensures depth + DepthAfter(src, path, n) == e + DepthAfter(src, rest, n - 1)
    {
      DepthOfTail(src, path, n);
    }
    if ClosesFirst(src, path, depth) {
      forall k | 0 <= k < |rest| - 1
        ensures !(src[rest[k]] == ')' && e + DepthAfter(src, rest, k + 1) == 0)
      {
        assert rest[k] == path[k + 1];
        assert !(src[path[k + 1]] == ')' && depth + DepthAfter(src, path, k + 1 + 1) == 0);
      }
    } else if ClosesFirst(src, rest, e) {
      forall k | 1 <= k < |path| - 1
        ensures !(src[path[k]] == ')' && depth + DepthAfter(src, path, k + 1) == 0)
      {
        assert path[k] == rest[k - 1];
        assert !(src[rest[k - 1]] == ')' && e + DepthAfter(src, rest, k - 1 + 1) == 0);
      }
    }
  }

  /** A returned index ends a scan that closes there first. */
  lemma {:induction false} FoundHasScan(src: string, i: nat, depth: int) returns (path: seq<nat>)
    requires Match(src, i, depth).At?
    ensures ClosesFirst(src, path, depth) && path[0] == i && path[|path| - 1] == Match(src, i, depth).index
    decreases |src| - i
  {
    if src[i] == ')' && depth == 1 {
      path := [i];
      assert DepthAfter(src, path, 1) == DepthAfter(src, path, 0) + Delta(src[i]);
    } else {
      var j := Step(src, i).index;
      var rest := FoundHasScan(src, j, depth + Delta(src[i]));
      path := [i] + rest;
      assert path[1..] == rest;
      assert IsScan(src, path) by {
        forall k | 0 <= k < |path| - 1 ensures Step(src, path[k]) == At(path[k + 1]) {
          if k > 0 { assert Step(src, rest[k - 1]) == At(rest[k - 1 + 1]); }
        }
      }
      ClosesFirstStep(src, path, depth);
    }
  }

  /** A scan that closes determines the answer. */
  lemma {:induction false} ScanIsFound(src: string, path: seq<nat>, depth: int)
    requires ClosesFirst(src, path, depth)
    ensures Match(src, path[0], depth) == At(path[|path| - 1])
    decreases |path|
  {
    if |path| == 1 {
      assert DepthAfter(src, path, 1) == DepthAfter(src, path, 0) + Delta(src[path[0]]);
    } else {
      ClosesFirstStep(src, path, depth);
      assert Step(src, path[0]) == At(path[0 + 1]);
      ScanIsFound(src, path[1..], depth + Delta(src[path[0]]));
    }
  }

  /** On arbitrary text: the answer is `r` exactly when `r` ends the scan
      from `openAt` that first closes; so a failure means there is none. */
  lemma MatchCharacterised(src: string, openAt: nat, r: nat)
    ensures Match(src, openAt, 0) == At(r) <==>
      exists path :: ClosesFirst(src, path, 0) && path[0] == openAt && path[|path| - 1] == r
  {
    if Match(src, openAt, 0) == At(r) {
      var path := FoundHasScan(src, openAt, 0);
    }
    forall path | ClosesFirst(src, path, 0) && path[0] == openAt && path[|path| - 1] == r
      ensures Match(src, openAt, 0) == At(r)
    {
      ScanIsFound(src, path, 0);
    }
  }

  /** From an opening parenthesis, every earlier scan position has depth at
      least one. */
  lemma {:induction false} DepthStaysPositive(src: string, path: seq<nat>, n: nat)
    requires ClosesFirst(src, path, 0) && src[path[0]] == '(' && 1 <= n < |path|
    ensures DepthAfter(src, path, n) >= 1
  {
    if n == 1 {
      assert DepthAfter(src, path, 1) == DepthAfter(src, path, 0) + Delta(src[path[0]]);
    } else {
      DepthStaysPositive(src, path, n - 1);
      assert !(src[path[n - 1]] == ')' && 0 + DepthAfter(src, path, n - 1 + 1) == 0);
    }
  }

  /* ---- failures ---- */

  /** Where a scan that does not close stops: at an unfinished literal, at a
      line comment without a newline, or behind the text. */
  ghost predicate StopsAt(src: string, p: nat, e: Failure) {
    match e
    case IndexError => p < |src| && (src[p] == '"' || src[p] == '\'') && LiteralEnd(src, p + 1, src[p]).Raises?
    case NoNewline =>
      && p + 1 < |src| && src[p] == '/' && src[p + 1] == '/'
      && forall k :: p <= k < |src| ==> src[k] != '\n'
    case Unbalanced => p >= |src|
  }

  lemma {:induction false} LiteralRaises(src: string, i: nat, quote: char)
    ensures LiteralEnd(src, i, quote).Raises? ==> LiteralEnd(src, i, quote) == Raises(IndexError)
    decreases |src| - i
  {
    if i < |src| && src[i] != quote {
      LiteralRaises(src, if src[i] == '\\' then i + 2 else i + 1, quote);
    }
  }

  lemma {:induction false} NewlineRaises(src: string, i: nat)
    ensures NewlineFrom(src, i).Raises? ==> NewlineFrom(src, i) == Raises(NoNewline)
    decreases |src| - i
  {
    if i < |src| && src[i] != '\n' {
      NewlineRaises(src, i + 1);
    }
  }

  lemma StepRaises(src: string, i: nat)
    requires i < |src| && Step(src, i).Raises?
    ensures StopsAt(src, i, Step(src, i).error)
  {
    LiteralRaises(src, i + 1, src[i]);
    NewlineRaises(src, i);
    NoNewlineBefore(src, i);
  }

  /** Every failure has its reason, at or behind the place it was met from. */
  lemma {:induction false} FailureHasReason(src: string, i: nat, depth: int) returns (p: nat)
    requires Match(src, i, depth).Raises?
    ensures i <= p && StopsAt(src, p, Match(src, i, depth).error)
    decreases |src| - i
  {
    if i >= |src| {
      p := i;
    } else if Step(src, i).Raises? {
      StepRaises(src, i);
      p := i;
    } else {
      p := FailureHasReason(src, Step(src, i).index, depth + Delta(src[i]));
    }
  }

  /* ---- locality ---- */

  lemma {:induction false} NoNewlineBefore(src: string, i: nat)
    ensures var r := NewlineFrom(src, i);
            forall k :: i <= k < (if r.At? then r.index else |src|) ==> src[k] != '\n'
    decreases |src| - i
  {
    if i < |src| && src[i] != '\n' {
      NoNewlineBefore(src, i + 1);
    }
  }

  lemma {:induction false} FirstNewline(src: string, i: nat, e: nat)
    requires i <= e < |src| && src[e] == '\n' && forall k :: i <= k < e ==> src[k] != '\n'
    ensures NewlineFrom(src, i) == At(e)
    decreases e - i
  {
    if i < e {
      FirstNewline(src, i + 1, e);
    }
  }

  lemma {:induction false} LiteralEndLocal(src: string, more: string, m: nat, i: nat, quote: char)
    requires m <= |src| && LiteralEnd(src, i, quote).At? && LiteralEnd(src, i, quote).index <= m
    ensures LiteralEnd(src[..m] + more, i, quote) == LiteralEnd(src, i, quote)
    decreases |src| - i
  {
    assert (src[..m] + more)[i] == src[i];
    if src[i] != quote {
      LiteralEndLocal(src, more, m, if src[i] == '\\' then i + 2 else i + 1, quote);
    }
  }

  lemma {:induction false} NewlineLocal(src: string, more: string, m: nat, i: nat)
    requires m <= |src| && NewlineFrom(src, i).At? && NewlineFrom(src, i).index < m
    ensures NewlineFrom(src[..m] + more, i) == NewlineFrom(src, i)
    decreases |src| - i
  {
    assert (src[..m] + more)[i] == src[i];
    if src[i] != '\n' {
      NewlineLocal(src, more, m, i + 1);
    }
  }

  /** The answer does not depend on any text after it. */
  lemma {:induction false} MatchLocal(src: string, more: string, i: nat, depth: int)
    requires Match(src, i, depth).At?
    ensures var r := Match(src, i, depth); Match(src[..r.index + 1] + more, i, depth) == r
    decreases |src| - i
  {
    var m := Match(src, i, depth).index + 1;
    var cut := src[..m] + more;
    assert cut[i] == src[i];
    if !(src[i] == ')' && depth == 1) {
      var j := Step(src, i).index;
      assert j < m;
      if IsQuote(src[i]) {
        LiteralEndLocal(src, more, m, i + 1, src[i]);
      } else {
        assert cut[i + 1] == src[i + 1];
        if CommentAt(src, i) {
          NewlineLocal(src, more, m, i);
        }
      }
      assert Step(cut, i) == At(j);
      MatchLocal(src, more, j, depth + Delta(src[i]));
    }
  }
}
