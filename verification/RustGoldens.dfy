/** Goldens kept as Rust array constants: find the array, compare, splice in
    fresh values, and find them again. */
module RustGoldens {
  import opened Options
  import opened Texts

  predicate IsDigit(c: char) {
    '0' <= c <= '9'
  }

  /** A character a float literal continues with. */
  predicate LiteralChar(c: char) {
    IsDigit(c) || c == '.' || c == 'e' || c == 'E' || c == '+' || c == '-'
  }

  /** Does a float literal start at `i`? */
  predicate LiteralAt(s: string, i: nat) {
    || (i < |s| && IsDigit(s[i]))
    || (i + 1 < |s| && s[i] == '-' && IsDigit(s[i + 1]))
  }

  /** A character of a number, spelled out. */
  predicate NumberChar(c: char) {
    || c == '0' || c == '1' || c == '2' || c == '3' || c == '4' || c == '5' || c == '6' || c == '7' || c == '8' || c == '9'
    || c == '.' || c == 'e' || c == 'E' || c == '+' || c == '-'
  }

  /** A whole number: a sign or none, a digit, then number characters. */
  predicate IsLiteral(s: string) {
    && (forall i :: 0 <= i < |s| ==> NumberChar(s[i]))
    && ((|s| >= 1 && '0' <= s[0] <= '9') || (|s| >= 2 && s[0] == '-' && '0' <= s[1] <= '9'))
  }

  /** The end of the run of literal characters from `i`. */
  function LiteralRun(s: string, i: nat): (r: nat)
    requires i <= |s|
    ensures i <= r <= |s| && (r < |s| ==> !LiteralChar(s[r]))
    ensures i < |s| && LiteralChar(s[i]) ==> i < r
    decreases |s| - i
  {
    if i < |s| && LiteralChar(s[i]) then LiteralRun(s, i + 1) else i
  }

  /** All float literals of a body, left to right. */
  function Numbers(s: string, i: nat): seq<string>
    requires i <= |s|
    decreases |s| - i
  {
    if i == |s| then []
    else if LiteralAt(s, i) then [s[i..LiteralRun(s, i)]] + Numbers(s, LiteralRun(s, i))
    else Numbers(s, i + 1)
  }

  /* ---- the search ---- */

  function DigitsEnd(s: string, i: nat): (r: nat)
    requires i <= |s|
    ensures i <= r <= |s| && (forall k :: i <= k < r ==> IsDigit(s[k])) && (r < |s| ==> !IsDigit(s[r]))
    decreases |s| - i
  {
    if i < |s| && IsDigit(s[i]) then DigitsEnd(s, i + 1) else i
  }

  /** The first closing bracket at or after `i`, or the length. */
  function Bracket(s: string, i: nat): (r: nat)
    requires i <= |s|
    ensures i <= r <= |s| && (forall k :: i <= k < r ==> s[k] != ']') && (r < |s| ==> s[r] == ']')
    decreases |s| - i
  {
    if i < |s| && s[i] != ']' then Bracket(s, i + 1) else i
  }

  /** Where an array constant was found: its `const`, the digits of its
      declared length, and its body. */
  datatype Found = Found(start: nat, digits: nat, close: nat, body: nat, end: nat)

  /** The fixed text before the declared length. */
  function Head(name: string): (r: string)
    ensures |r| == |name| + 14
  {
    "const " + name + ": [f32; "
  }

  /** The text between the declared length and the body. */
  predicate OpensAt(s: string, i: nat) {
    i + 5 <= |s| && s[i] == ']' && s[i + 1] == ' ' && s[i + 2] == '=' && s[i + 3] == ' ' && s[i + 4] == '['
  }

  /** The array pattern, its fixed head given, matched at `p`. */
  function MatchAt(s: string, p: nat, head: string): (r: Option<Found>)
    requires p <= |s|
    ensures r.Some? ==> var m := r.value; m.start == p <= m.digits < m.close < m.body <= m.end < |s| - 1
  {
    if !Holds(s, p, head) then None
    else
      var digits := p + |head|;
      var close := DigitsEnd(s, digits);
      if close == digits || !OpensAt(s, close) then None
      else
        var end := Bracket(s, close + 5);
        if end + 1 < |s| && s[end + 1] == ';' then Some(Found(p, digits, close, close + 5, end)) else None
  }

  /** `re.search`: the leftmost match at or after `p`. */
  function Search(s: string, p: nat, head: string): (r: Option<Found>)
    requires p <= |s|
    ensures r.Some? ==> p <= r.value.start < r.value.body <= r.value.end < |s| - 1
    decreases |s| - p
  {
    var here := MatchAt(s, p, head);
    if here.Some? then here
    else if p == |s| then None
    else Search(s, p + 1, head)
  }

  lemma {:induction false} SearchIsLeftmost(s: string, p: nat, head: string, q: nat)
    requires p <= q <= |s|
    ensures MatchAt(s, q, head).Some? ==> Search(s, p, head).Some? && Search(s, p, head).value.start <= q
    ensures Search(s, p, head).Some? ==> MatchAt(s, Search(s, p, head).value.start, head) == Search(s, p, head)
    decreases |s| - p
  {
    if MatchAt(s, p, head).None? && p < |s| {
      SearchIsLeftmost(s, p + 1, head, if q == p then p + 1 else q);
    }
  }

  /** A match with none before it is what the search finds. */
  lemma {:induction false} LeftmostIsFound(s: string, p: nat, head: string, q: nat)
    requires p <= q <= |s| && MatchAt(s, q, head).Some?
    requires forall k :: p <= k < q ==> MatchAt(s, k, head).None?
    ensures Search(s, p, head) == MatchAt(s, q, head)
    decreases q - p
  {
    if p < q {
      LeftmostIsFound(s, p + 1, head, q);
    }
  }

  /* ---- literals and the rewrite ---- */

  /** `f32_literal` and `float`: printing gives a literal, and parsing it
      gives the value rounded to what a literal of that width can hold. */
  datatype Floats = Floats(literal: real -> string, value: string -> Option<real>) {
    ghost predicate LawsAt(v: real) {
      IsLiteral(literal(v)) && value(literal(v)).Some?
    }

    /** What is asked of the values written: each one's literal is a number
        the pattern sees whole and `float` takes. */
    ghost predicate Prints(vals: seq<real>) {
      forall k :: 0 <= k < |vals| ==> LawsAt(vals[k])
    }

    /** The value a literal reads back as. */
    function Round(v: real): real {
      match value(literal(v)) case Some(r) => r case None => v
    }
  }

  /** One line per value, behind a first newline. */
  function Lines(f: Floats, vals: seq<real>): string {
    if vals == [] then "" else "    " + f.literal(vals[0]) + ",\n" + Lines(f, vals[1..])
  }

  /** All values on one line, comma-separated. */
  function OneLine(f: Floats, vals: seq<real>): string {
    if vals == [] then ""
    else if |vals| == 1 then f.literal(vals[0])
    else f.literal(vals[0]) + ", " + OneLine(f, vals[1..])
  }

  function Inner(f: Floats, body: string, vals: seq<real>): string {
    if '\n' in body then "\n" + Lines(f, vals) else OneLine(f, vals)
  }

  function Body(s: string, m: Found): string
    requires m.body <= m.end <= |s|
  {
    s[m.body..m.end]
  }

  /** `rewrite_rust`. */
  function Rewrite(f: Floats, s: string, m: Found, vals: seq<real>): string
    requires m.body <= m.end <= |s|
  {
    s[..m.body] + Inner(f, Body(s, m), vals) + s[m.end..]
  }

  function Printed(f: Floats, vals: seq<real>): (r: seq<string>) {
    seq(|vals|, k requires 0 <= k < |vals| => f.literal(vals[k]))
  }

  /* ---- the literals are read back ---- */

  /** A character that neither continues nor starts a literal. */
  predicate Separator(c: char) {
    !NumberChar(c)
  }

  /** The reader's character class is the one spelled out. */
  lemma NumberChars(c: char)
    ensures LiteralChar(c) <==> NumberChar(c)
  {
  }

  lemma {:induction false} SeparatorsSkipped(s: string, i: nat, j: nat)
    requires i <= j <= |s| && forall k :: i <= k < j ==> Separator(s[k])
    ensures Numbers(s, i) == Numbers(s, j)
    decreases j - i
  {
    if i < j {
      NumberChars(s[i]);
      SeparatorsSkipped(s, i + 1, j);
    }
  }

  lemma {:induction false} RunEnds(s: string, i: nat, j: nat)
    requires i <= j <= |s| && (forall k :: i <= k < j ==> LiteralChar(s[k])) && (j < |s| ==> !LiteralChar(s[j]))
    ensures LiteralRun(s, i) == j
    decreases j - i
  {
    if i < j {
      RunEnds(s, i + 1, j);
    }
  }

  /** A literal in place, with a separator or nothing behind it. */
  lemma LiteralRead(s: string, i: nat, lit: string, j: nat)
    requires IsLiteral(lit) && Holds(s, i, lit) && j == i + |lit|
    requires j < |s| ==> Separator(s[j])
    ensures Numbers(s, i) == [lit] + Numbers(s, j)
  {
    HoldsAt(s, i, lit, 0);
    if |lit| > 1 {
      HoldsAt(s, i, lit, 1);
    }
    forall k | i <= k < j ensures LiteralChar(s[k]) {
      HoldsAt(s, i, lit, k - i);
      NumberChars(s[k]);
    }
    if j < |s| {
      NumberChars(s[j]);
    }
    RunEnds(s, i, j);
    assert s[i..j] == lit;
  }

  lemma SeparatorRead(s: string, i: nat, sep: string, j: nat)
    requires Holds(s, i, sep) && j == i + |sep| && forall k :: 0 <= k < |sep| ==> Separator(sep[k])
    ensures Numbers(s, i) == Numbers(s, j)
  {
    forall k | i <= k < j ensures Separator(s[k]) { HoldsAt(s, i, sep, k - i); }
    SeparatorsSkipped(s, i, j);
  }

  /** A literal, a separator, and whatever is behind them. */
  lemma LiteralThen(s: string, i: nat, lit: string, sep: string, rest: string, j: nat)
    requires IsLiteral(lit) && |sep| > 0 && (forall k :: 0 <= k < |sep| ==> Separator(sep[k]))
    requires Holds(s, i, lit + (sep + rest)) && j == i + |lit| + |sep|
    ensures Numbers(s, i) == [lit] + Numbers(s, j) && Holds(s, j, rest)
  {
    var p := i + |lit|;
    HoldsParts(s, i, lit, sep + rest, p);
    HoldsParts(s, p, sep, rest, j);
    HoldsAt(s, p, sep, 0);
    LiteralRead(s, i, lit, p);
    SeparatorRead(s, p, sep, j);
  }

  lemma {:induction false} LinesRead(f: Floats, s: string, i: nat, vals: seq<real>)
    requires f.Prints(vals) && Holds(s, i, Lines(f, vals)) && i + |Lines(f, vals)| == |s|
    ensures Numbers(s, i) == Printed(f, vals)
    decreases |vals|
  {
    if vals != [] {
      var lit, rest := f.literal(vals[0]), Lines(f, vals[1..]);
      assert f.LawsAt(vals[0]);
      assert Lines(f, vals) == "    " + (lit + (",\n" + rest));
      HoldsParts(s, i, "    ", lit + (",\n" + rest), i + 4);
      SeparatorRead(s, i, "    ", i + 4);
      LiteralThen(s, i + 4, lit, ",\n", rest, i + 6 + |lit|);
      LinesRead(f, s, i + 6 + |lit|, vals[1..]);
      PrintedCons(f, vals);
    }
  }

  lemma {:induction false} OneLineRead(f: Floats, s: string, i: nat, vals: seq<real>)
    requires f.Prints(vals) && Holds(s, i, OneLine(f, vals)) && i + |OneLine(f, vals)| == |s|
    ensures Numbers(s, i) == Printed(f, vals)
    decreases |vals|
  {
    if vals != [] {
      var lit := f.literal(vals[0]);
      assert f.LawsAt(vals[0]);
      if |vals| == 1 {
        LiteralRead(s, i, lit, |s|);
      } else {
        var rest := OneLine(f, vals[1..]);
        assert OneLine(f, vals) == lit + (", " + rest);
        LiteralThen(s, i, lit, ", ", rest, i + 2 + |lit|);
        OneLineRead(f, s, i + 2 + |lit|, vals[1..]);
      }
      PrintedCons(f, vals);
    }
  }

  lemma PrintedCons(f: Floats, vals: seq<real>)
    requires vals != []
    ensures Printed(f, vals) == [f.literal(vals[0])] + Printed(f, vals[1..])
  {
  }

  /** Whichever layout the old body had, the new body reads back as exactly
      the literals written. */
  lemma InnerRead(f: Floats, body: string, vals: seq<real>)
    requires f.Prints(vals)
    ensures Numbers(Inner(f, body, vals), 0) == Printed(f, vals)
  {
    var inner := Inner(f, body, vals);
    if '\n' in body {
      SeparatorsSkipped(inner, 0, 1);
      HoldsParts(inner, 0, "\n", Lines(f, vals), 1);
      LinesRead(f, inner, 1, vals);
    } else {
      OneLineRead(f, inner, 0, vals);
    }
  }

  /** No bracket in what is written; a newline exactly in the line layout. */
  lemma {:induction false} LinesPlain(f: Floats, vals: seq<real>)
    requires f.Prints(vals)
    ensures ']' !in Lines(f, vals)
    decreases |vals|
  {
    if vals != [] {
      LinesPlain(f, vals[1..]);
      assert f.LawsAt(vals[0]);
    }
  }

  lemma {:induction false} OneLinePlain(f: Floats, vals: seq<real>)
    requires f.Prints(vals)
    ensures ']' !in OneLine(f, vals) && '\n' !in OneLine(f, vals)
    decreases |vals|
  {
    if vals != [] {
      assert f.LawsAt(vals[0]);
      OneLinePlain(f, vals[1..]);
    }
  }

  lemma InnerPlain(f: Floats, body: string, vals: seq<real>)
    requires f.Prints(vals)
    ensures ']' !in Inner(f, body, vals)
    ensures '\n' in Inner(f, body, vals) <==> '\n' in body
  {
    LinesPlain(f, vals);
    OneLinePlain(f, vals);
  }

  /* ---- the rewrite converges ---- */

  /** Two texts that agree up to `b`. */
  ghost predicate Agree(s: string, t: string, b: nat) {
    b <= |s| && b <= |t| && s[..b] == t[..b]
  }

  lemma AgreeAt(s: string, t: string, b: nat, i: nat)
    requires Agree(s, t, b) && i < b
    ensures s[i] == t[i]
  {
    assert s[..b][i] == t[..b][i];
  }

  lemma AgreeHas(s: string, t: string, b: nat, i: nat, w: string)
    requires Agree(s, t, b) && i + |w| <= b
    ensures Holds(s, i, w) <==> Holds(t, i, w)
  {
    forall k | i <= k < i + |w| ensures s[k] == t[k] { AgreeAt(s, t, b, k); }
  }

  lemma {:induction false} AgreeDigits(s: string, t: string, b: nat, i: nat)
    requires Agree(s, t, b) && i <= |s| && DigitsEnd(s, i) < b
    ensures DigitsEnd(t, i) == DigitsEnd(s, i)
    decreases b - i
  {
    AgreeAt(s, t, b, i);
    if IsDigit(s[i]) {
      AgreeDigits(s, t, b, i + 1);
    }
  }

  lemma {:induction false} BracketIs(s: string, i: nat, e: nat)
    requires i <= e < |s| && s[e] == ']' && forall k :: i <= k < e ==> s[k] != ']'
    ensures Bracket(s, i) == e
    decreases e - i
  {
    if i < e {
      BracketIs(s, i + 1, e);
    }
  }

  /** The header of a match lies where both texts agree: so it is matched in
      the other text too, up to its body. */
  lemma HeaderCarries(s: string, t: string, b: nat, p: nat, head: string)
    requires Agree(s, t, b) && p <= |s| && p <= |t| && MatchAt(s, p, head).Some?
    requires MatchAt(s, p, head).value.body <= b
    ensures var m := MatchAt(s, p, head).value;
      && Holds(t, p, head) && m.digits == p + |head| <= |t| && DigitsEnd(t, m.digits) == m.close
      && m.close > m.digits && OpensAt(t, m.close) && m.body == m.close + 5
  {
    var m := MatchAt(s, p, head).value;
    AgreeHas(s, t, b, p, head);
    AgreeDigits(s, t, b, m.digits);
    forall k | m.close <= k < m.body ensures s[k] == t[k] { AgreeAt(s, t, b, k); }
  }

  /** A match that ends where both texts still agree is a match of both. */
  lemma MatchCarries(s: string, t: string, b: nat, p: nat, head: string)
    requires Agree(s, t, b) && p <= |s| && p <= |t| && MatchAt(s, p, head).Some?
    requires MatchAt(s, p, head).value.end + 1 < b
    ensures MatchAt(t, p, head) == MatchAt(s, p, head)
  {
    var m := MatchAt(s, p, head).value;
    HeaderCarries(s, t, b, p, head);
    forall k | m.body <= k <= m.end + 1 ensures s[k] == t[k] { AgreeAt(s, t, b, k); }
    BracketIs(t, m.body, m.end);
  }

  /** A head whose one bracket, an opening one, is its sixth last character. */
  ghost predicate IsHead(head: string) {
    |head| >= 6 && head[|head| - 6] == '['
    && forall k :: |head| - 6 < k < |head| ==> head[k] != '[' && head[k] != ']'
  }

  lemma HeadsAreHeads(name: string)
    ensures IsHead(Head(name))
  {
    var head, tail := Head(name), ": [f32; ";
    forall k | 0 <= k < 8 ensures head[|head| - 8 + k] == tail[k] {}
    forall k | |head| - 6 < k < |head| ensures head[k] != '[' && head[k] != ']' {
      assert head[|head| - 8 + (k - |head| + 8)] == tail[k - |head| + 8];
    }
  }

  /** Where the brackets of a match are. */
  lemma MatchBrackets(s: string, p: nat, head: string)
    requires p <= |s| && MatchAt(s, p, head).Some? && IsHead(head)
    ensures var m := MatchAt(s, p, head).value; var o := m.digits - 6;
      && s[o] == '[' && s[m.close] == ']' && s[m.close + 4] == '['
      && (forall k :: o < k < m.close ==> s[k] != '[' && s[k] != ']')
      && (forall k :: m.close < k < m.close + 4 ==> s[k] != '[' && s[k] != ']')
      && m.body == m.close + 5 && m.digits == p + |head|
  {
    var m := MatchAt(s, p, head).value;
    forall k | p <= k < m.digits ensures s[k] == head[k - p] {
      assert s[p..m.digits][k - p] == head[k - p];
    }
  }

  /** A match that starts earlier ends before the later match's body: its
      brackets leave no other room. This holds even when the text behind the
      later header differs. */
  lemma EarlierEndsBefore(s: string, t: string, p: nat, q: nat, head: string)
    requires q < p && p <= |s| && q <= |t| && IsHead(head) && MatchAt(s, p, head).Some? && MatchAt(t, q, head).Some?
    requires Agree(s, t, MatchAt(s, p, head).value.body)
    ensures MatchAt(t, q, head).value.end <= MatchAt(s, p, head).value.close
  {
    var m, e := MatchAt(s, p, head).value, MatchAt(t, q, head).value;
    MatchBrackets(s, p, head);
    MatchBrackets(t, q, head);
    var o := m.digits - 6;
    AgreeAt(s, t, m.body, o);
    AgreeAt(s, t, m.body, m.close);
    assert t[o] == '[' && t[m.close] == ']';
    assert e.close < o;
    assert e.close + 4 <= o;
    assert e.body <= m.close;
  }

  /** After a rewrite, searching the same head finds the array at the same
      start, with the same declared length, its body now the one written; no
      character outside the body has changed. */
  lemma RewriteIsFound(f: Floats, s: string, head: string, m: Found, vals: seq<real>, t: string, inner: string)
    requires f.Prints(vals) && IsHead(head) && Search(s, 0, head) == Some(m)
    requires inner == Inner(f, Body(s, m), vals) && t == Rewrite(f, s, m, vals)
    ensures Search(t, 0, head) == Some(m.(end := m.body + |inner|))
    ensures m.body + |inner| <= |t| && t[m.body..m.body + |inner|] == inner
    ensures t[..m.body] == s[..m.body] && t[m.body + |inner|..] == s[m.end..]
  {
    InnerPlain(f, Body(s, m), vals);
    SpliceFound(s, head, m, t, inner);
  }

  lemma SpliceFound(s: string, head: string, m: Found, t: string, inner: string)
    requires IsHead(head) && Search(s, 0, head) == Some(m) && ']' !in inner && t == s[..m.body] + inner + s[m.end..]
    ensures Search(t, 0, head) == Some(m.(end := m.body + |inner|))
    ensures m.body + |inner| <= |t| && t[m.body..m.body + |inner|] == inner
    ensures t[..m.body] == s[..m.body] && t[m.body + |inner|..] == s[m.end..]
  {
    FoundMatches(s, head, m);
    Spliced(s, m, inner, t);
    SplicedIsFound(s, t, head, m, inner);
  }

  lemma FoundMatches(s: string, head: string, m: Found)
    requires Search(s, 0, head) == Some(m)
    ensures m.start <= |s| && MatchAt(s, m.start, head) == Some(m) && m.body <= m.end < |s| - 1
  {
    SearchIsLeftmost(s, 0, head, 0);
  }

  lemma SplicedIsFound(s: string, t: string, head: string, m: Found, inner: string)
    requires IsHead(head) && Search(s, 0, head) == Some(m) && ']' !in inner && m.end < |s| - 1
    requires m.start <= |s| && MatchAt(s, m.start, head) == Some(m) && SplicedInto(s, t, m, inner)
    ensures Search(t, 0, head) == Some(m.(end := m.body + |inner|))
  {
    RewrittenMatches(s, t, head, m, inner);
    NothingBefore(s, t, head, m);
    LeftmostIsFound(t, 0, head, m.start);
  }

  lemma NothingBefore(s: string, t: string, head: string, m: Found)
    requires IsHead(head) && Search(s, 0, head) == Some(m) && Agree(s, t, m.body)
    ensures forall q :: 0 <= q < m.start ==> MatchAt(t, q, head).None?
  {
    forall q | 0 <= q < m.start ensures MatchAt(t, q, head).None? {
      NothingEarlier(s, t, q, head);
    }
  }

  /** `t` is `s` with the body of `m` replaced by `inner`. */
  ghost predicate SplicedInto(s: string, t: string, m: Found, inner: string)
    requires m.end < |s| - 1
  {
    && Agree(s, t, m.body) && m.body + |inner| + 1 < |t|
    && (forall k :: m.body <= k < m.body + |inner| ==> t[k] == inner[k - m.body])
    && t[m.body + |inner|] == s[m.end] && t[m.body + |inner| + 1] == s[m.end + 1]
  }

  /** A splice, index by index. */
  lemma Spliced(s: string, m: Found, inner: string, t: string)
    requires m.body <= m.end < |s| - 1 && t == s[..m.body] + inner + s[m.end..]
    ensures SplicedInto(s, t, m, inner)
    ensures m.body + |inner| <= |t| && t[m.body..m.body + |inner|] == inner
    ensures t[..m.body] == s[..m.body] && t[m.body + |inner|..] == s[m.end..]
  {
  }

  lemma RewrittenMatches(s: string, t: string, head: string, m: Found, inner: string)
    requires m.start <= |s| && MatchAt(s, m.start, head) == Some(m) && ']' !in inner
    requires SplicedInto(s, t, m, inner)
    ensures m.start <= |t| && MatchAt(t, m.start, head) == Some(m.(end := m.body + |inner|))
  {
    HeaderCarries(s, t, m.body, m.start, head);
    BracketIs(t, m.body, m.body + |inner|);
    MatchIntro(t, m.start, head, m.digits, m.close, m.body, m.body + |inner|);
  }

  lemma MatchIntro(t: string, p: nat, head: string, digits: nat, close: nat, body: nat, end: nat)
    requires p <= |t| && Holds(t, p, head) && digits == p + |head|
    requires digits <= |t| && DigitsEnd(t, digits) == close && close > digits
    requires OpensAt(t, close) && body == close + 5 && Bracket(t, body) == end
    requires end + 1 < |t| && t[end + 1] == ';'
    ensures MatchAt(t, p, head) == Some(Found(p, digits, close, body, end))
  {
  }

  lemma NothingEarlier(s: string, t: string, q: nat, head: string)
    requires IsHead(head) && Search(s, 0, head).Some? && q < Search(s, 0, head).value.start && q <= |t|
    requires Agree(s, t, Search(s, 0, head).value.body)
    ensures MatchAt(t, q, head).None?
  {
    SearchIsLeftmost(s, 0, head, q);
    var m := Search(s, 0, head).value;
    if MatchAt(t, q, head).Some? {
      EarlierEndsBefore(s, t, m.start, q, head);
      MatchCarries(t, s, m.body, q, head);
    }
  }
}
