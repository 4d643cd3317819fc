/** When the scanner does skip comments. It knows line comments only; measured
    against a scan that also steps over block comments, it gives the same answer
    exactly as long as every block comment, read as code, comes back to its
    own end at the depth it started with. */
module CppBlockComments {
  import opened Options
  import opened CppScanner

  predicate BlockAt(src: string, i: nat) {
    i + 1 < |src| && src[i] == '/' && src[i + 1] == '*'
  }

  /** Just past the first end mark at or after `i`. */
  function BlockEnd(src: string, i: nat): (r: Outcome)
    ensures r.At? ==> i + 2 <= r.index <= |src|
    decreases |src| - i
  {
    if i + 1 >= |src| then Raises(Unbalanced)
    else if src[i] == '*' && src[i + 1] == '/' then At(i + 2)
    else BlockEnd(src, i + 1)
  }

  /** One step of the scan that skips both kinds of comment. */
  function FullStep(src: string, i: nat): (r: Outcome)
    requires i < |src|
    ensures r.At? ==> i < r.index <= |src|
  {
    if BlockAt(src, i) then BlockEnd(src, i + 2) else Step(src, i)
  }

  /** `matching_paren` as documented: literals and all comments skipped. */
  function FullMatch(src: string, i: nat, depth: int): (r: Outcome)
    ensures r.At? ==> i <= r.index < |src| && src[r.index] == ')'
    decreases |src| - i
  {
    if i >= |src| then Raises(Unbalanced)
    else if src[i] == ')' && depth == 1 then At(i)
    else match FullStep(src, i)
      case Raises(e) => Raises(e)
      case At(j) => FullMatch(src, j, depth + Delta(src[i]))
  }

  /** The depth at `e` of reading `[i, e)` as code, if the reading comes to
      `e` and does not close before it. */
  function Read(src: string, i: nat, e: nat, depth: int): Option<int>
    requires e <= |src|
    decreases |src| - i
  {
    if i == e then Some(depth)
    else if i > e || (src[i] == ')' && depth == 1) then None
    else match Step(src, i)
      case Raises(_) => None
      case At(j) => Read(src, j, e, depth + Delta(src[i]))
  }

  /** Every block comment the full scan skips is neutral: read as code it
      comes back to its own end at the depth it started with. */
  predicate AllNeutral(src: string, i: nat, depth: int)
    decreases |src| - i
  {
    if i >= |src| || (src[i] == ')' && depth == 1) then true
    else match FullStep(src, i)
      case Raises(_) => !BlockAt(src, i)
      case At(j) =>
        && (BlockAt(src, i) ==> Read(src, i, j, depth) == Some(depth))
        && AllNeutral(src, j, depth + Delta(src[i]))
  }

  /* ---- when the two scans agree ---- */

  lemma {:induction false} ReadThenMatch(src: string, i: nat, e: nat, depth: int)
    requires e <= |src| && Read(src, i, e, depth).Some?
    ensures Match(src, i, depth) == Match(src, e, Read(src, i, e, depth).value)
    decreases |src| - i
  {
    if i != e {
      ReadThenMatch(src, Step(src, i).index, e, depth + Delta(src[i]));
    }
  }

  /** Neutral block comments do no harm: the answers, errors included, are
      those of the scan that skips them. */
  lemma {:induction false} NeutralCommentsAgree(src: string, i: nat, depth: int)
    requires AllNeutral(src, i, depth)
    ensures Match(src, i, depth) == FullMatch(src, i, depth)
    decreases |src| - i
  {
    if i < |src| && !(src[i] == ')' && depth == 1) && FullStep(src, i).At? {
      var j := FullStep(src, i).index;
      NeutralCommentsAgree(src, j, depth + Delta(src[i]));
      if BlockAt(src, i) {
        ReadThenMatch(src, i, j, depth);
      }
    }
  }

  /** No block comment opens from `i` up to `m`. */
  ghost predicate NoBlocks(src: string, i: nat, m: nat) {
    forall k :: i <= k < m ==> !BlockAt(src, k)
  }

  /** Where the answer, or the text, ends. */
  function AnswerEnd(src: string, r: Outcome): nat {
    if r.At? then r.index else |src|
  }

  /** An answer with no block comment opening before it is right. */
  lemma {:induction false} NoBlocksAgree(src: string, i: nat, depth: int)
    requires NoBlocks(src, i, AnswerEnd(src, Match(src, i, depth)))
    ensures Match(src, i, depth) == FullMatch(src, i, depth)
    decreases |src| - i
  {
    if i < |src| && !(src[i] == ')' && depth == 1) {
      assert !BlockAt(src, i);
      if Step(src, i).At? {
        NoBlocksAgree(src, Step(src, i).index, depth + Delta(src[i]));
      }
    }
  }

  /* ---- the first block comment ---- */

  /** The depth at `p` of a scan from `i`, if it comes to `p` without closing
      and without a block comment on its way. */
  function Reach(src: string, i: nat, p: nat, depth: int): Option<int>
    requires p <= |src|
    decreases |src| - i
  {
    if i == p then Some(depth)
    else if i > p || (src[i] == ')' && depth == 1) || BlockAt(src, i) then None
    else match Step(src, i)
      case Raises(_) => None
      case At(j) => Reach(src, j, p, depth + Delta(src[i]))
  }

  /** Both scans arrive at `p` alike. */
  lemma {:induction false} BothReach(src: string, i: nat, p: nat, depth: int)
    requires p <= |src| && Reach(src, i, p, depth).Some?
    ensures var d := Reach(src, i, p, depth).value;
      Match(src, i, depth) == Match(src, p, d) && FullMatch(src, i, depth) == FullMatch(src, p, d)
    decreases |src| - i
  {
    if i != p {
      BothReach(src, Step(src, i).index, p, depth + Delta(src[i]));
    }
  }

  /** `[p, e)` is the first block comment of a scan from `i`, at depth `d`. */
  ghost predicate FirstBlock(src: string, i: nat, depth: int, p: nat, e: nat, d: int) {
    && p < e <= |src| && d >= 1 && BlockAt(src, p) && BlockEnd(src, p + 2) == At(e)
    && Reach(src, i, p, depth) == Some(d)
  }

  lemma FirstBlockScans(src: string, i: nat, depth: int, p: nat, e: nat, d: int)
    requires FirstBlock(src, i, depth, p, e, d)
    ensures Match(src, i, depth) == Match(src, p, d) && FullMatch(src, i, depth) == FullMatch(src, e, d)
  {
    BothReach(src, i, p, depth);
    assert FullStep(src, p) == At(e) && Delta(src[p]) == 0;
  }

  /** From different depths, one position is not the answer of both. */
  lemma {:induction false} DepthsDiffer(src: string, i: nat, d: int, d': int)
    requires d != d' && Match(src, i, d).At?
    ensures Match(src, i, d') != Match(src, i, d)
    decreases |src| - i
  {
    if src[i] == ')' && (d == 1 || d' == 1) {
      assert Step(src, i) == At(i + 1);
    } else {
      DepthsDiffer(src, Step(src, i).index, d + Delta(src[i]), d' + Delta(src[i]));
    }
  }

  /** Nothing in `[i, e)` starts a literal or a line comment. */
  ghost predicate Quiet(src: string, i: nat, e: nat)
    requires e <= |src|
  {
    forall k :: i <= k < e ==> !IsQuote(src[k]) && !CommentAt(src, k)
  }

  /** Quiet text read as code comes to its end, unless it closes inside. */
  lemma {:induction false} QuietRead(src: string, i: nat, e: nat, depth: int)
    requires i <= e <= |src| && Quiet(src, i, e)
    ensures Read(src, i, e, depth).Some? || (Match(src, i, depth).At? && Match(src, i, depth).index < e)
    decreases e - i
  {
    if i < e && !(src[i] == ')' && depth == 1) {
      assert Step(src, i) == At(i + 1);
      QuietRead(src, i + 1, e, depth + Delta(src[i]));
    }
  }

  /** One block comment, nothing in it that starts a literal or a line
      comment, and a closing parenthesis that the full scan finds: the answer
      is right if and only if the parentheses in the comment balance without
      closing. (Where the full scan finds none, an unbalanced comment can leave
      both scans with the same error.) */
  lemma OneCommentExactly(src: string, i: nat, depth: int, p: nat, e: nat, d: int)
    requires FirstBlock(src, i, depth, p, e, d) && Quiet(src, p, e) && NoBlocks(src, e, |src|)
    requires FullMatch(src, i, depth).At?
    ensures Match(src, i, depth) == FullMatch(src, i, depth) <==> Read(src, p, e, d) == Some(d)
  {
    FirstBlockScans(src, i, depth, p, e, d);
    NoBlocksAgree(src, e, d);
    QuietRead(src, p, e, d);
    if Read(src, p, e, d).Some? {
      var x := Read(src, p, e, d).value;
      ReadThenMatch(src, p, e, d);
      if x != d {
        DepthsDiffer(src, e, d, x);
      }
    }
  }

  /* ---- any first block comment, any continuation ---- */

  lemma StepLocal(src: string, rest: string, i: nat)
    requires i < |src| && Step(src, i).At? && (i + 1 < |src| || rest == "" || rest[0] != '/')
    ensures Step(src + rest, i) == Step(src, i)
  {
    assert src[..|src|] == src;
    if IsQuote(src[i]) {
      LiteralEndLocal(src, rest, |src|, i + 1, src[i]);
    } else if CommentAt(src, i) {
      NewlineLocal(src, rest, |src|, i);
    }
  }

  lemma {:induction false} ReachLocal(src: string, rest: string, i: nat, p: nat, depth: int)
    requires p + 2 <= |src| && Reach(src, i, p, depth).Some?
    ensures Reach(src + rest, i, p, depth) == Reach(src, i, p, depth)
    decreases |src| - i
  {
    if i != p {
      StepLocal(src, rest, i);
      ReachLocal(src, rest, Step(src, i).index, p, depth + Delta(src[i]));
    }
  }

  lemma {:induction false} ReadLocal(src: string, rest: string, i: nat, depth: int)
    requires (rest == "" || rest[0] != '/') && Read(src, i, |src|, depth).Some?
    ensures Read(src + rest, i, |src|, depth) == Read(src, i, |src|, depth)
    decreases |src| - i
  {
    if i != |src| {
      StepLocal(src, rest, i);
      ReadLocal(src, rest, Step(src, i).index, depth + Delta(src[i]));
    }
  }

  lemma {:induction false} BlockEndLocal(src: string, rest: string, i: nat)
    requires BlockEnd(src, i).At?
    ensures BlockEnd(src + rest, i) == BlockEnd(src, i)
    decreases |src| - i
  {
    if !(src[i] == '*' && src[i + 1] == '/') {
      BlockEndLocal(src, rest, i + 1);
    }
  }

  lemma FirstBlockLocal(src: string, rest: string, i: nat, depth: int, p: nat, d: int)
    requires FirstBlock(src, i, depth, p, |src|, d)
    ensures FirstBlock(src + rest, i, depth, p, |src|, d)
  {
    ReachLocal(src, rest, i, p, depth);
    BlockEndLocal(src, rest, p + 2);
  }

  function Closers(n: nat): string {
    seq(n, _ => ')')
  }

  /** Both scans count off closing parentheses. */
  lemma {:induction false} ClosersCounted(src: string, n: nat, i: nat, depth: int)
    requires depth >= 1 && |src| <= i <= |src| + n
    ensures var text := src + Closers(n);
      && (i + depth <= |text| ==> Match(text, i, depth) == FullMatch(text, i, depth) == At(i + depth - 1))
      && (i + depth > |text| ==> Match(text, i, depth).Raises?)
    decreases |src| + n - i
  {
    var text := src + Closers(n);
    if i < |text| {
      assert text[i] == ')';
      if depth > 1 {
        ClosersCounted(src, n, i + 1, depth - 1);
      }
    }
  }

  lemma {:induction false} LiteralStaysOpen(src: string, n: nat, i: nat, quote: char)
    requires IsQuote(quote) && LiteralEnd(src, i, quote).Raises?
    ensures LiteralEnd(src + Closers(n), i, quote).Raises?
    decreases |src| + n - i
  {
    var text := src + Closers(n);
    if i < |text| {
      assert text[i] == if i < |src| then src[i] else ')';
      LiteralStaysOpen(src, n, if text[i] == '\\' then i + 2 else i + 1, quote);
    }
  }

  lemma {:induction false} CommentStaysOpen(src: string, n: nat, i: nat)
    requires NewlineFrom(src, i).Raises?
    ensures NewlineFrom(src + Closers(n), i).Raises?
    decreases |src| + n - i
  {
    if i < |src| + n {
      assert (src + Closers(n))[i] == if i < |src| then src[i] else ')';
      CommentStaysOpen(src, n, i + 1);
    }
  }

  /** A step that raises on the text alone raises before `n` closers too. */
  lemma StepStaysOpen(src: string, n: nat, i: nat)
    requires i < |src| && Step(src, i).Raises?
    ensures Step(src + Closers(n), i).Raises?
  {
    if IsQuote(src[i]) {
      LiteralStaysOpen(src, n, i + 1, src[i]);
    } else {
      CommentStaysOpen(src, n, i);
    }
  }

  /** Unless reading a text as code ends at depth `n`, the `n`th of the
      closing parentheses behind it is not the answer. */
  lemma {:induction false} ReadElsewhere(src: string, n: nat, i: nat, depth: int)
    requires n >= 1 && depth >= 1 && i <= |src| && Read(src, i, |src|, depth) != Some(n)
    ensures Match(src + Closers(n), i, depth) != At(|src| + n - 1)
    decreases |src| - i
  {
    var text := src + Closers(n);
    if i == |src| {
      ClosersCounted(src, n, i, depth);
    } else if !(src[i] == ')' && depth == 1) {
      assert text[i] == src[i];
      if Step(src, i).Raises? {
        StepStaysOpen(src, n, i);
      } else {
        StepLocal(src, Closers(n), i);
        ReadElsewhere(src, n, Step(src, i).index, depth + Delta(src[i]));
      }
    }
  }

  /** A continuation without block comments that does not start with a slash:
      behind the end mark, one more slash makes a line comment of it. */
  ghost predicate Plain(rest: string) {
    (rest == "" || rest[0] != '/') && NoBlocks(rest, 0, |rest|)
  }

  ghost predicate AgreeBefore(src: string, rest: string, i: nat, depth: int) {
    Match(src + rest, i, depth) == FullMatch(src + rest, i, depth)
  }

  lemma NeutralThenAgree(src: string, rest: string, i: nat, depth: int, p: nat, d: int)
    requires FirstBlock(src, i, depth, p, |src|, d) && Read(src, p, |src|, d) == Some(d) && Plain(rest)
    ensures AgreeBefore(src, rest, i, depth)
  {
    var text := src + rest;
    FirstBlockLocal(src, rest, i, depth, p, d);
    FirstBlockScans(text, i, depth, p, |src|, d);
    ReadLocal(src, rest, p, d);
    ReadThenMatch(text, p, |src|, d);
    forall k | |src| <= k < |text| ensures !BlockAt(text, k) {
      assert !BlockAt(rest, k - |src|);
    }
    NoBlocksAgree(text, |src|, d);
  }

  lemma OtherwiseDisagree(src: string, i: nat, depth: int, p: nat, d: int)
    requires FirstBlock(src, i, depth, p, |src|, d) && Read(src, p, |src|, d) != Some(d)
    ensures Plain(Closers(d)) && !AgreeBefore(src, Closers(d), i, depth)
  {
    FirstBlockLocal(src, Closers(d), i, depth, p, d);
    FirstBlockScans(src + Closers(d), i, depth, p, |src|, d);
    ReadElsewhere(src, d, p, d);
    ClosersCounted(src, d, |src|, d);
  }

  /** The exact guard: after a scan's first block comment, the answer is right
      for every continuation that holds no block comment and does not start
      with a slash if and only if the comment is neutral, whatever literals or
      line comments it seems to open. */
  lemma NeutralExactly(src: string, i: nat, depth: int, p: nat, d: int)
    requires FirstBlock(src, i, depth, p, |src|, d)
    ensures (forall rest :: Plain(rest) ==> AgreeBefore(src, rest, i, depth)) <==> Read(src, p, |src|, d) == Some(d)
  {
    if Read(src, p, |src|, d) == Some(d) {
      forall rest | Plain(rest) ensures AgreeBefore(src, rest, i, depth) {
        NeutralThenAgree(src, rest, i, depth, p, d);
      }
    } else {
      OtherwiseDisagree(src, i, depth, p, d);
    }
  }

  /* ---- a slash behind the comment ---- */

  lemma {:induction false} LiteralEndsBehindQuote(src: string, i: nat, quote: char)
    requires LiteralEnd(src, i, quote).At?
    ensures src[LiteralEnd(src, i, quote).index - 1] == quote
    decreases |src| - i
  {
    if src[i] != quote {
      LiteralEndsBehindQuote(src, if src[i] == '\\' then i + 2 else i + 1, quote);
    }
  }

  lemma {:induction false} BlockEndsInSlash(src: string, i: nat)
    requires BlockEnd(src, i).At?
    ensures src[BlockEnd(src, i).index - 1] == '/'
    decreases |src| - i
  {
    if !(src[i] == '*' && src[i + 1] == '/') {
      BlockEndsInSlash(src, i + 1);
    }
  }

  /** A step to the end of a text that ends in a slash starts at the slash. */
  lemma StepBeforeSlash(src: string, i: nat)
    requires i + 1 < |src| && src[|src| - 1] == '/' && Step(src, i).At?
    ensures Step(src, i).index < |src|
  {
    if IsQuote(src[i]) {
      LiteralEndsBehindQuote(src, i + 1, src[i]);
    }
  }

  /** Reading a text that ends in a slash as code comes to that slash, at the
      depth it ends with. */
  lemma {:induction false} ReadToSlash(src: string, rest: string, i: nat, depth: int)
    requires i < |src| && src[|src| - 1] == '/' && Read(src, i, |src|, depth).Some?
    ensures Match(src + rest, i, depth) == Match(src + rest, |src| - 1, Read(src, i, |src|, depth).value)
    decreases |src| - i
  {
    if i + 1 < |src| {
      StepBeforeSlash(src, i);
      StepLocal(src, rest, i);
      ReadToSlash(src, rest, Step(src, i).index, depth + Delta(src[i]));
    }
  }

  /** A line comment at `i`: the scan goes on at its newline, if it has one. */
  function AtNewline(src: string, i: nat, depth: int): Outcome {
    match NewlineFrom(src, i)
    case Raises(e) => Raises(e)
    case At(j) => Match(src, j, depth)
  }

  /** Behind a neutral first block comment, a continuation that starts with a
      slash is lost up to its newline, where the full scan reads on. */
  lemma SlashBehind(src: string, rest: string, i: nat, depth: int, p: nat, d: int)
    requires FirstBlock(src, i, depth, p, |src|, d) && Read(src, p, |src|, d) == Some(d)
    requires rest != "" && rest[0] == '/'
    ensures Match(src + rest, i, depth) == AtNewline(src + rest, |src| - 1, d)
    ensures FullMatch(src + rest, i, depth) == FullMatch(src + rest, |src|, d)
  {
    var text, last := src + rest, |src| - 1;
    FirstBlockLocal(src, rest, i, depth, p, d);
    FirstBlockScans(text, i, depth, p, |src|, d);
    BlockEndsInSlash(src, p + 2);
    ReadToSlash(src, rest, p, d);
    assert text[last] == '/' && text[|src|] == '/' && CommentAt(text, last);
  }

  /** Behind a neutral first block comment, a continuation that starts with a
      slash, holds no block comment and whose first line reads as code to its
      newline: the answer is right if and only if that line leaves the depth
      as it was. */
  lemma SlashBehindExactly(src: string, rest: string, i: nat, depth: int, p: nat, d: int, j: nat, x: int)
    requires FirstBlock(src, i, depth, p, |src|, d) && Read(src, p, |src|, d) == Some(d)
    requires rest != "" && rest[0] == '/' && NoBlocks(src + rest, |src|, |src + rest|)
    requires NewlineFrom(src + rest, |src|) == At(j) && Read(src + rest, |src|, j, d) == Some(x)
    requires FullMatch(src + rest, i, depth).At?
    ensures AgreeBefore(src, rest, i, depth) <==> x == d
  {
    var text := src + rest;
    SlashBehind(src, rest, i, depth, p, d);
    BlockEndsInSlash(src, p + 2);
    assert text[|src| - 1] == '/' && NewlineFrom(text, |src| - 1) == NewlineFrom(text, |src|);
    NoBlocksAgree(text, |src|, d);
    ReadThenMatch(text, |src|, j, d);
    if x != d {
      DepthsDiffer(text, j, x, d);
    }
  }

  /** So no first block comment is safe before everything: a slash and the
      closing parentheses behind it are never seen. */
  lemma SlashMisleads(src: string, i: nat, depth: int, p: nat, d: int)
    requires FirstBlock(src, i, depth, p, |src|, d) && Read(src, p, |src|, d) == Some(d)
    ensures Match(src + "/" + Closers(d), i, depth) == Raises(NoNewline)
    ensures FullMatch(src + "/" + Closers(d), i, depth) == At(|src| + d)
  {
    var more := src + "/";
    var text := more + Closers(d);
    assert text == src + ("/" + Closers(d));
    SlashBehind(src, "/" + Closers(d), i, depth, p, d);
    BlockEndsInSlash(src, p + 2);
    NoNewlineIn(text, |src| - 1, src, d);
    ClosersCounted(more, d, |more|, d);
    assert !BlockAt(text, |src|) && FullStep(text, |src|) == At(|more|);
  }

  lemma {:induction false} NoNewlineIn(text: string, i: nat, src: string, d: nat)
    requires text == src + "/" + Closers(d) && |src| <= i + 1 && (i < |src| ==> src[i] == '/')
    ensures NewlineFrom(text, i) == Raises(NoNewline)
    decreases |text| - i
  {
    if i < |text| {
      assert text[i] == if i <= |src| then '/' else ')';
      NoNewlineIn(text, i + 1, src, d);
    }
  }

  /* ---- inputs ---- */

  /** The parenthesis in the comment is returned for the one behind it. */
  lemma CommentMisleads()
    ensures Match("(/*)*/)", 0, 0) == At(3) && FullMatch("(/*)*/)", 0, 0) == At(6)
  {
    var src := "(/*)*/)";
    assert Step(src, 0) == At(1) && Step(src, 1) == At(2) && Step(src, 2) == At(3);
    assert Match(src, 3, 1) == At(3);
    assert Match(src, 2, 1) == Match(src, 3, 1);
    assert Match(src, 1, 1) == Match(src, 2, 1);
    assert BlockEnd(src, 3) == BlockEnd(src, 4) == At(6);
    assert FullMatch(src, 1, 1) == FullMatch(src, 6, 1) == At(6);
  }

  /** A neutral comment and a slash behind it. */
  lemma SlashInput()
    ensures Match("(/**//)", 0, 0) == Raises(NoNewline) && FullMatch("(/**//)", 0, 0) == At(6)
  {
    var src := "(/**/";
    assert Reach(src, 0, 1, 0) == Some(1) by {
      assert Step(src, 0) == At(1);
    }
    assert BlockEnd(src, 3) == At(5);
    assert Read(src, 4, 5, 1) == Some(1);
    assert Read(src, 3, 5, 1) == Some(1);
    assert Read(src, 2, 5, 1) == Some(1);
    assert FirstBlock(src, 0, 0, 1, |src|, 1);
    SlashMisleads(src, 0, 0, 1, 1);
    assert src + "/" + Closers(1) == "(/**//)";
  }

  lemma CodeStep(src: string, i: nat, depth: int)
    requires i < |src| && !IsQuote(src[i]) && !CommentAt(src, i) && !(src[i] == ')' && depth == 1)
    ensures Match(src, i, depth) == Match(src, i + 1, depth + Delta(src[i]))
  {
    assert Step(src, i) == At(i + 1);
  }

  /** Two block comments, one with a `(` and one with a `)`. */
  ghost predicate IsCancelling(src: string) {
    && |src| == 13 && src[0] == '(' && src[1] == '/' && src[2] == '*' && src[3] == '(' && src[4] == '*' && src[5] == '/'
    && src[6] == ' ' && src[7] == '/' && src[8] == '*' && src[9] == ')' && src[10] == '*' && src[11] == '/' && src[12] == ')'
  }

  lemma CancellingAsCode(src: string)
    requires IsCancelling(src)
    ensures Match(src, 0, 0) == At(12)
  {
    CodeStep(src, 0, 0);
    CodeStep(src, 1, 1);
    CodeStep(src, 2, 1);
    CodeStep(src, 3, 1);
    CodeStep(src, 4, 2);
    CodeStep(src, 5, 2);
    CodeStep(src, 6, 2);
    CodeStep(src, 7, 2);
    CodeStep(src, 8, 2);
    CodeStep(src, 9, 2);
    CodeStep(src, 10, 1);
    CodeStep(src, 11, 1);
    assert Match(src, 12, 1) == At(12);
  }

  lemma FullStepTo(src: string, i: nat, j: nat, depth: int)
    requires i < |src| && FullStep(src, i) == At(j) && !(src[i] == ')' && depth == 1)
    ensures FullMatch(src, i, depth) == FullMatch(src, j, depth + Delta(src[i]))
  {
  }

  lemma CancellingInFull(src: string)
    requires IsCancelling(src)
    ensures FullMatch(src, 0, 0) == At(12)
  {
    assert BlockEnd(src, 3) == At(6) && BlockEnd(src, 9) == At(12);
    FullStepTo(src, 0, 1, 0);
    FullStepTo(src, 1, 6, 1);
    FullStepTo(src, 6, 7, 1);
    FullStepTo(src, 7, 12, 1);
    assert FullMatch(src, 12, 1) == At(12);
  }

  /** Two comments that are not neutral can cancel out, so a comment that is
      not neutral need not show in every text. */
  lemma CommentsCancel()
    ensures var src := "(/*(*/ /*)*/)"; Match(src, 0, 0) == At(12) && FullMatch(src, 0, 0) == At(12)
  {
    var src := "(/*(*/ /*)*/)";
    assert IsCancelling(src);
    CancellingAsCode(src);
    CancellingInFull(src);
  }
}
