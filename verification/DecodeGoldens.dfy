/** The decode golden format: printed by the C++ dumper, parsed and compared
    by the golden check. */
module DecodeGoldens {
  import opened Options
  import opened Sequences
  import opened Texts
  import opened Greedy
  import opened GoldenCheck

  /* ---- printing ---- */

  function DigitText(n: nat): string
    requires n < 10
  {
    ["0123456789"[n]]
  }

  /** `%d` of a non-negative number. */
  function NatText(n: nat): (s: string)
    ensures s != "" && forall i :: 0 <= i < |s| ==> '0' <= s[i] <= '9'
  {
    if n < 10 then DigitText(n) else NatText(n / 10) + DigitText(n % 10)
  }

  function IntText(n: int): (s: string)
    ensures IsToken(s)
  {
    if n < 0 then "-" + NatText(-n) else NatText(n)
  }

  /** `%.9g`, and the `float` that reads it back. */
  datatype Decimal = Decimal(text: real -> string, value: string -> Option<real>) {
    ghost predicate LawsAt(v: real) {
      IsToken(text(v)) && value(text(v)) == Some(v)
    }

    /** The printed values of a row hold no whitespace and read back
        exactly. */
    ghost predicate Prints(row: seq<real>) {
      forall k :: 0 <= k < |row| ==> LawsAt(row[k])
    }

    ghost predicate PrintsAll(rows: seq<seq<real>>) {
      forall r :: 0 <= r < |rows| ==> Prints(rows[r])
    }
  }

  /** A non-empty stretch of text without whitespace. */
  predicate IsToken(s: string) {
    s != "" && forall i :: 0 <= i < |s| ==> !IsSpace(s[i])
  }

  /** Each token behind one space. */
  function Spread(tokens: seq<string>): string {
    if tokens == [] then "" else " " + tokens[0] + Spread(tokens[1..])
  }

  function IntTexts(ns: seq<int>): (r: seq<string>) {
    seq(|ns|, k requires 0 <= k < |ns| => IntText(ns[k]))
  }

  function RowTexts(d: Decimal, row: seq<real>): (r: seq<string>) {
    seq(|row|, k requires 0 <= k < |row| => d.text(row[k]))
  }

  /** A keyword, its arguments behind spaces, a newline, and the text below. */
  function Line(keyword: string, tokens: seq<string>, rest: string): string {
    keyword + Spread(tokens) + "\n" + rest
  }

  function PrintRows(d: Decimal, rows: seq<seq<real>>): string {
    if rows == [] then "" else Line("logits", RowTexts(d, rows[0]), PrintRows(d, rows[1..]))
  }

  /** The words of the first comment line. */
  const ABOUT: seq<string> :=
    ["llama.cpp", "greedy", "decode:", "the", "prompt", "as", "one", "batch,", "then", "one-token", "batches"]

  /** The words of the second. */
  function Invocation(nSteps: int): seq<string> {
    ["scripts/" + ("gptoss_" + ("reference_" + "logits.cpp")), "with", "REF_DECODE" + ("_STEPS=" + IntText(nSteps))]
  }

  /** Two comment lines, the prompt, the picked tokens and the rows. */
  function PrintRun(d: Decimal, about: seq<string>, invocation: seq<string>, prompt: seq<Token>, picked: seq<Token>, rows: seq<seq<real>>): string {
    Line("#", about, Line("#", invocation, Line("prompt", IntTexts(prompt), Line("tokens", IntTexts(picked), PrintRows(d, rows)))))
  }

  /** What the C++ dumper prints. */
  function PrintDecode(d: Decimal, prompt: seq<Token>, picked: seq<Token>, rows: seq<seq<real>>, nSteps: int): string {
    PrintRun(d, ABOUT, Invocation(nSteps), prompt, picked, rows)
  }

  /* ---- parsing ---- */

  /** The characters `str.splitlines` breaks at. */
  predicate IsBreak(c: char) {
    || '\n' <= c <= '\r' || '\U{1c}' <= c <= '\U{1e}' || c == '\U{85}' || c == '\U{2028}' || c == '\U{2029}'
  }

  /** `splitlines` from the middle of a line; a carriage return and a newline
      behind it break once. */
  function SplitLines(text: string, line: string): seq<string> {
    if text == "" then if line == "" then [] else [line]
    else if !IsBreak(text[0]) then SplitLines(text[1..], line + [text[0]])
    else if text[0] == '\r' && |text| > 1 && text[1] == '\n' then [line] + SplitLines(text[2..], "")
    else [line] + SplitLines(text[1..], "")
  }

  /** The end of the token at `i`. */
  function TokenEnd(s: string, i: nat): (r: nat)
    requires i <= |s|
    ensures i <= r <= |s| && (i < |s| && !IsSpace(s[i]) ==> i < r)
    decreases |s| - i
  {
    if i < |s| && !IsSpace(s[i]) then TokenEnd(s, i + 1) else i
  }

  /** `str.split()` from position `i`. */
  function SplitTokens(s: string, i: nat): seq<string>
    requires i <= |s|
    decreases |s| - i
  {
    var p := SkipSpace(s, i);
    if p == |s| then [] else [s[p..TokenEnd(s, p)]] + SplitTokens(s, TokenEnd(s, p))
  }

  predicate StartsWith(s: string, t: string) {
    |t| <= |s| && s[..|t|] == t
  }

  /** `line.split()[1:]`. */
  function Arguments(line: string): seq<string> {
    var tokens := SplitTokens(line, 0);
    if tokens == [] then [] else tokens[1..]
  }

  function Floats(d: Decimal, tokens: seq<string>): (r: Option<seq<real>>) {
    if tokens == [] then Some([])
    else
      var first, rest := d.value(tokens[0]), Floats(d, tokens[1..]);
      if first.Some? && rest.Some? then Some([first.value] + rest.value) else None
  }

  /** The tokens line and the logits; a literal `float` refuses stops it. */
  datatype Parsed = Parsed(tokens: Option<seq<string>>, logits: seq<real>) | Refused

  function AddLine(d: Decimal, line: string, before: Parsed): Parsed {
    if before.Refused? then Refused
    else if StartsWith(line, "tokens") then Parsed(Some(Arguments(line)), before.logits)
    else if StartsWith(line, "logits") then
      var values := Floats(d, Arguments(line));
      if values.None? then Refused else Parsed(before.tokens, before.logits + values.value)
    else before
  }

  function AddLines(d: Decimal, lines: seq<string>, before: Parsed): Parsed {
    if lines == [] then before else AddLines(d, lines[1..], AddLine(d, lines[0], before))
  }

  /** `parse_decode`. */
  function ParseDecode(d: Decimal, text: string): Parsed {
    AddLines(d, SplitLines(text, ""), Parsed(None, []))
  }

  /** `parse_decode`, as it loops over the lines. */
  method RunParseDecode(d: Decimal, text: string) returns (r: Parsed)
    ensures r == ParseDecode(d, text)
  {
    var lines := SplitLines(text, "");
    var tokens: Option<seq<string>>, logits: seq<real> := None, [];
    for i := 0 to |lines|
      invariant AddLines(d, lines[i..], Parsed(tokens, logits)) == ParseDecode(d, text)
    {
      var line := lines[i];
      assert lines[i..][0] == line && lines[i..][1..] == lines[i + 1..];
      if StartsWith(line, "tokens") {
        tokens := Some(Arguments(line));
      } else if StartsWith(line, "logits") {
        var values := Floats(d, Arguments(line));
        if values.None? {
          RefusedStays(d, lines[i + 1..]);
          return Refused;
        }
        logits := logits + values.value;
      }
    }
    assert lines[|lines|..] == [];
    return Parsed(tokens, logits);
  }

  lemma {:induction false} RefusedStays(d: Decimal, lines: seq<string>)
    ensures AddLines(d, lines, Refused) == Refused
    decreases |lines|
  {
    if lines != [] {
      RefusedStays(d, lines[1..]);
    }
  }

  /* ---- the round trip ---- */

  predicate NoBreak(s: string) {
    forall i :: 0 <= i < |s| ==> !IsBreak(s[i])
  }

  /** A line without breaks and its newline are split off whole. */
  lemma {:induction false} LineSplit(line: string, rest: string, before: string)
    requires NoBreak(line)
    ensures SplitLines(line + "\n" + rest, before) == [before + line] + SplitLines(rest, "")
    decreases |line|
  {
    var text := line + "\n" + rest;
    if line == "" {
      assert text[0] == '\n' && text[1..] == rest && before + line == before;
    } else {
      assert text[0] == line[0] && text[1..] == line[1..] + "\n" + rest;
      LineSplit(line[1..], rest, before + [line[0]]);
      assert before + [line[0]] + line[1..] == before + line;
    }
  }

  /** A token in place, followed by whitespace or nothing. */
  lemma {:induction false} TokenEnds(s: string, i: nat, j: nat)
    requires i <= j <= |s| && (forall k :: i <= k < j ==> !IsSpace(s[k])) && (j < |s| ==> IsSpace(s[j]))
    ensures TokenEnd(s, i) == j
    decreases j - i
  {
    if i < j {
      TokenEnds(s, i + 1, j);
    }
  }

  lemma TokenSplit(s: string, i: nat, t: string, j: nat)
    requires IsToken(t) && Holds(s, i, t) && j == i + |t| && (j < |s| ==> IsSpace(s[j]))
    ensures SplitTokens(s, i) == [t] + SplitTokens(s, j)
  {
    forall k | i <= k < j ensures !IsSpace(s[k]) { HoldsAt(s, i, t, k - i); }
    TokenEnds(s, i, j);
    assert s[i..j] == t;
  }

  ghost predicate AllTokens(tokens: seq<string>) {
    forall k :: 0 <= k < |tokens| ==> IsToken(tokens[k])
  }

  lemma {:induction false} SpreadSplit(s: string, i: nat, tokens: seq<string>)
    requires AllTokens(tokens) && Holds(s, i, Spread(tokens)) && i + |Spread(tokens)| == |s|
    ensures SplitTokens(s, i) == tokens
    decreases |tokens|
  {
    if tokens != [] {
      var t, rest := tokens[0], Spread(tokens[1..]);
      var j := i + 1 + |t|;
      assert Spread(tokens) == " " + (t + rest);
      HoldsParts(s, i, " ", t + rest, i + 1);
      HoldsParts(s, i + 1, t, rest, j);
      HoldsAt(s, i, " ", 0);
      HoldsAt(s, i + 1, t, 0);
      assert IsToken(t);
      if j < |s| {
        HoldsAt(s, j, rest, 0);
        assert rest[0] == ' ';
      }
      SpaceThenToken(s, i);
      TokenSplit(s, i + 1, t, j);
      SpreadSplit(s, j, tokens[1..]);
      assert tokens == [t] + tokens[1..];
    }
  }

  lemma SpaceThenToken(s: string, i: nat)
    requires i + 1 < |s| && IsSpace(s[i]) && !IsSpace(s[i + 1])
    ensures SplitTokens(s, i) == SplitTokens(s, i + 1)
  {
    assert SkipSpace(s, i) == i + 1 == SkipSpace(s, i + 1);
  }

  /** The arguments of a printed line are the tokens behind its keyword. */
  lemma ArgumentsOfLine(keyword: string, tokens: seq<string>)
    requires IsToken(keyword) && AllTokens(tokens)
    ensures Arguments(keyword + Spread(tokens)) == tokens
  {
    var line := keyword + Spread(tokens);
    HoldsParts(line, 0, keyword, Spread(tokens), |keyword|);
    assert tokens != [] ==> line[|keyword|] == Spread(tokens)[0] == ' ';
    TokenSplit(line, 0, keyword, |keyword|);
    SpreadSplit(line, |keyword|, tokens);
  }

  lemma {:induction false} SpreadHasNoBreak(tokens: seq<string>)
    requires AllTokens(tokens)
    ensures NoBreak(Spread(tokens))
    decreases |tokens|
  {
    if tokens != [] {
      SpreadHasNoBreak(tokens[1..]);
      var t := tokens[0];
      assert IsToken(t);
      TokenHasNoBreak(t);
    }
  }

  lemma TokenHasNoBreak(t: string)
    requires IsToken(t)
    ensures NoBreak(t)
  {
    forall i | 0 <= i < |t| ensures !IsBreak(t[i]) { BreakIsSpace(t[i]); }
  }

  lemma BreakIsSpace(c: char)
    ensures IsBreak(c) ==> IsSpace(c)
  {
  }

  lemma IntTextsAreTokens(ns: seq<int>)
    ensures AllTokens(IntTexts(ns))
  {
  }

  lemma RowTextsAreTokens(d: Decimal, row: seq<real>)
    requires d.Prints(row)
    ensures AllTokens(RowTexts(d, row))
  {
    forall k | 0 <= k < |row| ensures IsToken(RowTexts(d, row)[k]) { assert d.LawsAt(row[k]); }
  }

  lemma {:induction false} FloatsOfRow(d: Decimal, row: seq<real>)
    requires d.Prints(row)
    ensures Floats(d, RowTexts(d, row)) == Some(row)
    decreases |row|
  {
    if row != [] {
      assert d.LawsAt(row[0]);
      assert RowTexts(d, row)[1..] == RowTexts(d, row[1..]);
      FloatsOfRow(d, row[1..]);
      assert [row[0]] + row[1..] == row;
    }
  }

  /** A keyword line, parsed off the front of the text. */
  lemma KeywordLine(d: Decimal, keyword: string, tokens: seq<string>, rest: string, before: Parsed)
    requires IsToken(keyword) && AllTokens(tokens)
    ensures AddLines(d, SplitLines(Line(keyword, tokens, rest), ""), before)
         == AddLines(d, SplitLines(rest, ""), AddLine(d, keyword + Spread(tokens), before))
  {
    var line := keyword + Spread(tokens);
    TokenHasNoBreak(keyword);
    SpreadHasNoBreak(tokens);
    LineSplit(line, rest, "");
    assert "" + line == line;
    var lines := [line] + SplitLines(rest, "");
    assert lines[0] == line && lines[1..] == SplitLines(rest, "");
  }

  /** A text that starts with another letter does not start with `t`. */
  lemma OtherLetter(line: string, t: string)
    requires line != "" && t != "" && line[0] != t[0]
    ensures !StartsWith(line, t)
  {
    if |t| <= |line| {
      assert line[..|t|][0] == line[0];
    }
  }

  lemma StartsWithKeyword(keyword: string, rest: string)
    ensures StartsWith(keyword + rest, keyword)
  {
  }

  lemma LogitsLine(d: Decimal, texts: seq<string>, tokens: Option<seq<string>>, logits: seq<real>, row: seq<real>)
    requires Arguments("logits" + Spread(texts)) == texts && Floats(d, texts) == Some(row)
    ensures AddLine(d, "logits" + Spread(texts), Parsed(tokens, logits)) == Parsed(tokens, logits + row)
  {
    var line := "logits" + Spread(texts);
    OtherLetter(line, "tokens");
    StartsWithKeyword("logits", Spread(texts));
  }

  lemma TokensLine(d: Decimal, texts: seq<string>, tokens: Option<seq<string>>, logits: seq<real>)
    requires Arguments("tokens" + Spread(texts)) == texts
    ensures AddLine(d, "tokens" + Spread(texts), Parsed(tokens, logits)) == Parsed(Some(texts), logits)
  {
    StartsWithKeyword("tokens", Spread(texts));
  }

  /** Neither keyword starts a line that begins with another letter. */
  lemma OtherLine(d: Decimal, line: string, before: Parsed)
    requires line != "" && line[0] != 't' && line[0] != 'l'
    ensures AddLine(d, line, before) == before
  {
    OtherLetter(line, "tokens");
    OtherLetter(line, "logits");
  }

  /** Such a line, parsed off the front of the text, adds nothing. */
  lemma LinePassed(d: Decimal, keyword: string, tokens: seq<string>, rest: string, before: Parsed)
    requires IsToken(keyword) && AllTokens(tokens) && keyword[0] != 't' && keyword[0] != 'l'
    ensures AddLines(d, SplitLines(Line(keyword, tokens, rest), ""), before) == AddLines(d, SplitLines(rest, ""), before)
  {
    KeywordLine(d, keyword, tokens, rest, before);
    OtherLine(d, keyword + Spread(tokens), before);
  }

  lemma {:induction false} ConcatCons<T>(row: seq<T>, rows: seq<seq<T>>)
    ensures Concat([row] + rows) == row + Concat(rows)
    decreases |rows|
  {
    var all := [row] + rows;
    if rows == [] {
      assert all[..0] == [] && Concat<T>([]) == [];
    } else {
      var last := rows[|rows| - 1];
      assert all[..|all| - 1] == [row] + rows[..|rows| - 1];
      ConcatCons(row, rows[..|rows| - 1]);
      Assoc(row, Concat(rows[..|rows| - 1]), last);
    }
  }

  /** One printed row, parsed off the front of the text. */
  lemma RowParses(d: Decimal, row: seq<real>, rest: string, tokens: Option<seq<string>>, logits: seq<real>)
    requires d.Prints(row)
    ensures AddLines(d, SplitLines(Line("logits", RowTexts(d, row), rest), ""), Parsed(tokens, logits))
         == AddLines(d, SplitLines(rest, ""), Parsed(tokens, logits + row))
  {
    var texts := RowTexts(d, row);
    RowTextsAreTokens(d, row);
    KeywordLine(d, "logits", texts, rest, Parsed(tokens, logits));
    ArgumentsOfLine("logits", texts);
    FloatsOfRow(d, row);
    LogitsLine(d, texts, tokens, logits, row);
  }

  lemma {:induction false} RowsParse(d: Decimal, rows: seq<seq<real>>, tokens: Option<seq<string>>, logits: seq<real>)
    requires d.PrintsAll(rows)
    ensures AddLines(d, SplitLines(PrintRows(d, rows), ""), Parsed(tokens, logits)) == Parsed(tokens, logits + Concat(rows))
    decreases |rows|
  {
    if rows == [] {
      assert logits + [] == logits;
    } else {
      RowParses(d, rows[0], PrintRows(d, rows[1..]), tokens, logits);
      RowsParse(d, rows[1..], tokens, logits + rows[0]);
      Assoc(logits, rows[0], Concat(rows[1..]));
      ConcatCons(rows[0], rows[1..]);
      assert [rows[0]] + rows[1..] == rows;
    }
  }

  lemma TokenParts(a: string, b: string)
    requires IsToken(a) && IsToken(b)
    ensures IsToken(a + b)
  {
  }

  lemma InvocationIsTokens(nSteps: int)
    ensures AllTokens(Invocation(nSteps))
  {
    ScriptIsToken();
    StepsIsToken(IntText(nSteps));
    assert IsToken("with");
  }

  lemma ScriptIsToken()
    ensures IsToken("scripts/" + ("gptoss_" + ("reference_" + "logits.cpp")))
  {
    TokenParts("reference_", "logits.cpp");
    TokenParts("gptoss_", "reference_" + "logits.cpp");
    TokenParts("scripts/", "gptoss_" + ("reference_" + "logits.cpp"));
  }

  lemma StepsIsToken(n: string)
    requires IsToken(n)
    ensures IsToken("REF_DECODE" + ("_STEPS=" + n))
  {
    TokenParts("_STEPS=", n);
    TokenParts("REF_DECODE", "_STEPS=" + n);
  }

  lemma AboutIsTokens()
    ensures AllTokens(ABOUT)
  {
  }

  /** The tokens line, parsed off the front of the text. */
  lemma TokensParse(d: Decimal, picked: seq<Token>, rest: string)
    ensures AddLines(d, SplitLines(Line("tokens", IntTexts(picked), rest), ""), Parsed(None, []))
         == AddLines(d, SplitLines(rest, ""), Parsed(Some(IntTexts(picked)), []))
  {
    IntTextsAreTokens(picked);
    KeywordLine(d, "tokens", IntTexts(picked), rest, Parsed(None, []));
    ArgumentsOfLine("tokens", IntTexts(picked));
    TokensLine(d, IntTexts(picked), None, []);
  }

  lemma CommentsPassed(d: Decimal, about: seq<string>, invocation: seq<string>, rest: string, before: Parsed)
    requires AllTokens(about) && AllTokens(invocation)
    ensures AddLines(d, SplitLines(Line("#", about, Line("#", invocation, rest)), ""), before) == AddLines(d, SplitLines(rest, ""), before)
  {
    LinePassed(d, "#", about, Line("#", invocation, rest), before);
    LinePassed(d, "#", invocation, rest, before);
  }

  lemma RunParses(d: Decimal, about: seq<string>, invocation: seq<string>, prompt: seq<Token>, picked: seq<Token>, rows: seq<seq<real>>)
    requires d.PrintsAll(rows) && AllTokens(about) && AllTokens(invocation)
    ensures ParseDecode(d, PrintRun(d, about, invocation, prompt, picked, rows)) == Parsed(Some(IntTexts(picked)), Concat(rows))
  {
    var start := Parsed(None, []);
    var rowText := PrintRows(d, rows);
    var tokenText := Line("tokens", IntTexts(picked), rowText);
    var promptText := Line("prompt", IntTexts(prompt), tokenText);
    CommentsPassed(d, about, invocation, promptText, start);
    IntTextsAreTokens(prompt);
    LinePassed(d, "prompt", IntTexts(prompt), tokenText, start);
    TokensParse(d, picked, rowText);
    RowsParse(d, rows, Some(IntTexts(picked)), []);
    assert [] + Concat(rows) == Concat(rows);
  }

  /** The round trip across the two languages: parsing what the C++ dumper
      prints gives the picked tokens and the rows concatenated in order,
      whatever the prompt and the comment lines are. */
  lemma DecodeRoundTrips(d: Decimal, prompt: seq<Token>, picked: seq<Token>, rows: seq<seq<real>>, nSteps: int)
    requires d.PrintsAll(rows)
    ensures ParseDecode(d, PrintDecode(d, prompt, picked, rows, nSteps)) == Parsed(Some(IntTexts(picked)), Concat(rows))
  {
    AboutIsTokens();
    InvocationIsTokens(nSteps);
    RunParses(d, ABOUT, Invocation(nSteps), prompt, picked, rows);
  }

  /** One more token behind one more blank. */
  lemma {:induction false} SpreadSnoc(tokens: seq<string>, t: string)
    ensures Spread(tokens + [t]) == Spread(tokens) + (" " + t)
    decreases |tokens|
  {
    var all := tokens + [t];
    if tokens == [] {
      assert all[1..] == [] && all[0] == t;
    } else {
      assert all[0] == tokens[0] && all[1..] == tokens[1..] + [t];
      SpreadSnoc(tokens[1..], t);
      Assoc(" " + tokens[0], Spread(tokens[1..]), " " + t);
    }
  }

  /** The printed rows, one more line at a time. */
  lemma {:induction false} RowsSnoc(d: Decimal, rows: seq<seq<real>>, row: seq<real>)
    ensures PrintRows(d, rows + [row]) == PrintRows(d, rows) + ("logits" + Spread(RowTexts(d, row)) + "\n")
    decreases |rows|
  {
    var all := rows + [row];
    if rows == [] {
      assert all[1..] == [] && all[0] == row;
    } else {
      assert all[0] == rows[0] && all[1..] == rows[1..] + [row];
      RowsSnoc(d, rows[1..], row);
      Assoc("logits" + Spread(RowTexts(d, rows[0])) + "\n", PrintRows(d, rows[1..]), "logits" + Spread(RowTexts(d, row)) + "\n");
    }
  }

  /** The text of a run, in the pieces the dumper prints. */
  lemma PrintedText(d: Decimal, prompt: seq<Token>, picked: seq<Token>, rows: seq<seq<real>>, nSteps: int)
    ensures PrintDecode(d, prompt, picked, rows, nSteps) ==
            "#" + Spread(ABOUT) + "\n" + "#" + Spread(Invocation(nSteps)) + "\n"
            + "prompt" + Spread(IntTexts(prompt)) + "\ntokens" + Spread(IntTexts(picked)) + "\n" + PrintRows(d, rows)
  {
    PrintedPieces("#" + Spread(ABOUT), "#" + Spread(Invocation(nSteps)), "prompt" + Spread(IntTexts(prompt)),
                  Spread(IntTexts(picked)), PrintRows(d, rows));
    Assoc("#" + Spread(ABOUT) + "\n", "#", Spread(Invocation(nSteps)));
    Assoc("#" + Spread(ABOUT) + "\n" + ("#" + Spread(Invocation(nSteps))) + "\n", "prompt", Spread(IntTexts(prompt)));
  }

  lemma PrintedPieces(a: string, b: string, c: string, t: string, r: string)
    ensures a + "\n" + (b + "\n" + (c + "\n" + ("tokens" + t + "\n" + r))) == a + "\n" + b + "\n" + c + "\ntokens" + t + "\n" + r
  {
    assert "\ntokens" == "\n" + "tokens";
  }

  /** A line split off, whatever the text below. */
  lemma LineFirst(keyword: string, tokens: seq<string>, rest: string)
    requires IsToken(keyword) && AllTokens(tokens)
    ensures SplitLines(Line(keyword, tokens, rest), "") == [keyword + Spread(tokens)] + SplitLines(rest, "")
  {
    TokenHasNoBreak(keyword);
    SpreadHasNoBreak(tokens);
    LineSplit(keyword + Spread(tokens), rest, "");
    assert "" + (keyword + Spread(tokens)) == keyword + Spread(tokens);
  }

  /** Each row's line. */
  function RowLines(d: Decimal, rows: seq<seq<real>>): (r: seq<string>) {
    seq(|rows|, k requires 0 <= k < |rows| => "logits" + Spread(RowTexts(d, rows[k])))
  }

  lemma {:induction false} RowLinesSplit(d: Decimal, rows: seq<seq<real>>)
    requires d.PrintsAll(rows)
    ensures SplitLines(PrintRows(d, rows), "") == RowLines(d, rows)
    decreases |rows|
  {
    if rows != [] {
      RowTextsAreTokens(d, rows[0]);
      LineFirst("logits", RowTexts(d, rows[0]), PrintRows(d, rows[1..]));
      RowLinesSplit(d, rows[1..]);
      assert RowLines(d, rows) == ["logits" + Spread(RowTexts(d, rows[0]))] + RowLines(d, rows[1..]);
    }
  }

  /** The two lines of tokens, above whatever text follows. */
  lemma TokenLines(prompt: seq<Token>, picked: seq<Token>, rest: string)
    ensures SplitLines(Line("prompt", IntTexts(prompt), Line("tokens", IntTexts(picked), rest)), "") ==
            ["prompt" + Spread(IntTexts(prompt))] + (["tokens" + Spread(IntTexts(picked))] + SplitLines(rest, ""))
  {
    IntTextsAreTokens(prompt);
    IntTextsAreTokens(picked);
    LineFirst("prompt", IntTexts(prompt), Line("tokens", IntTexts(picked), rest));
    LineFirst("tokens", IntTexts(picked), rest);
  }

  lemma CommentLines(about: seq<string>, invocation: seq<string>, rest: string)
    requires AllTokens(about) && AllTokens(invocation)
    ensures SplitLines(Line("#", about, Line("#", invocation, rest)), "") ==
            ["#" + Spread(about)] + (["#" + Spread(invocation)] + SplitLines(rest, ""))
  {
    LineFirst("#", about, Line("#", invocation, rest));
    LineFirst("#", invocation, rest);
  }

  lemma RunLines(d: Decimal, about: seq<string>, invocation: seq<string>, prompt: seq<Token>, picked: seq<Token>, rows: seq<seq<real>>)
    requires d.PrintsAll(rows) && AllTokens(about) && AllTokens(invocation)
    ensures SplitLines(PrintRun(d, about, invocation, prompt, picked, rows), "") ==
            ["#" + Spread(about)] + (["#" + Spread(invocation)] + (["prompt" + Spread(IntTexts(prompt))]
            + (["tokens" + Spread(IntTexts(picked))] + RowLines(d, rows))))
  {
    var tokenText := Line("tokens", IntTexts(picked), PrintRows(d, rows));
    CommentLines(about, invocation, Line("prompt", IntTexts(prompt), tokenText));
    TokenLines(prompt, picked, PrintRows(d, rows));
    RowLinesSplit(d, rows);
  }

  /** The lines of a printed run: two comments, the prompt, the tokens picked,
      and the rows, in order. */
  lemma PrintedLines(d: Decimal, prompt: seq<Token>, picked: seq<Token>, rows: seq<seq<real>>, nSteps: int)
    requires d.PrintsAll(rows)
    ensures SplitLines(PrintDecode(d, prompt, picked, rows, nSteps), "") ==
            ["#" + Spread(ABOUT)] + (["#" + Spread(Invocation(nSteps))] + (["prompt" + Spread(IntTexts(prompt))]
            + (["tokens" + Spread(IntTexts(picked))] + RowLines(d, rows))))
  {
    AboutIsTokens();
    InvocationIsTokens(nSteps);
    RunLines(d, ABOUT, Invocation(nSteps), prompt, picked, rows);
  }

  /* ---- token texts determine the tokens ---- */

  function DigitsValue(s: string): int
    requires forall i :: 0 <= i < |s| ==> '0' <= s[i] <= '9'
  {
    if s == "" then 0 else 10 * DigitsValue(s[..|s| - 1]) + (s[|s| - 1] as int - '0' as int)
  }

  lemma {:induction false} NatTextReads(n: nat)
    ensures DigitsValue(NatText(n)) == n
  {
    var s, low := NatText(n), DigitText(n % 10);
    assert "0123456789"[n % 10] as int - '0' as int == n % 10;
    if n >= 10 {
      NatTextReads(n / 10);
      assert s[..|s| - 1] == NatText(n / 10) && s[|s| - 1] == low[0];
    } else {
      assert DigitsValue("") == 0 && s[..0] == "";
    }
  }

  lemma NatTextInjective(a: nat, b: nat)
    requires NatText(a) == NatText(b)
    ensures a == b
  {
    NatTextReads(a);
    NatTextReads(b);
  }

  /** The sign tells negative numbers apart from the others. */
  lemma SignShows(n: int)
    ensures IntText(n)[0] == '-' <==> n < 0
    ensures IntText(n) == if n < 0 then ['-'] + NatText(-n) else NatText(n)
  {
  }

  lemma IntTextInjective(a: int, b: int)
    requires IntText(a) == IntText(b)
    ensures a == b
  {
    SignShows(a);
    SignShows(b);
    if a < 0 {
      DropFirst('-', NatText(-a), NatText(-b));
      NatTextInjective(-a, -b);
    } else {
      NatTextInjective(a, b);
    }
  }

  lemma DropFirst(c: char, a: string, b: string)
    requires [c] + a == [c] + b
    ensures a == b
  {
    assert ([c] + a)[1..] == a && ([c] + b)[1..] == b;
  }

  lemma IntTextsInjective(a: seq<int>, b: seq<int>)
    ensures IntTexts(a) == IntTexts(b) <==> a == b
  {
    if IntTexts(a) == IntTexts(b) {
      assert |a| == |IntTexts(a)| == |b|;
      forall k | 0 <= k < |a| ensures a[k] == b[k] {
        assert IntTexts(a)[k] == IntTexts(b)[k];
        IntTextInjective(a[k], b[k]);
      }
    }
  }

  /* ---- the check ---- */

  /** `check`, for a decode golden: the verdict and the text it leaves. Rows
      of different lengths are infinitely far apart; two files without any
      logits leave no values to take the maximum of. */
  function CheckDecode(d: Decimal, was: string, out: string, tol: real): Checked {
    var p0, p1 := ParseDecode(d, was), ParseDecode(d, out);
    if p0.Refused? || p1.Refused? then Checked(BadFloat, was)
    else if |p0.logits| != |p1.logits| then Checked(Rewritten, out)
    else if p0.logits == [] then Checked(NoValues, was)
    else if p0.tokens != p1.tokens || MaxDelta(p0.logits, p1.logits, |p0.logits|) > tol then Checked(Rewritten, out)
    else Checked(Same, was)
  }

  /** Two files say the same run: the same picked tokens and as many logits,
      each within the tolerance of its counterpart. */
  ghost predicate Agree(tokens0: seq<Token>, logits0: seq<real>, tokens1: seq<Token>, logits1: seq<real>, tol: real) {
    && tokens0 == tokens1 && |logits0| == |logits1|
    && forall i :: 0 <= i < |logits0| ==> Near(logits0[i], logits1[i], tol)
  }

  /** A decode golden on disk. */
  class DecodeFile {
    var text: string

    constructor (text: string)
      ensures this.text == text
    {
      this.text := text;
    }

    /** `check`, overwriting the file when it rewrites. */
    method Check(d: Decimal, out: string, tol: real) returns (verdict: Verdict)
      modifies this
      ensures Checked(verdict, text) == CheckDecode(d, old(text), out, tol)
    {
      var p0 := RunParseDecode(d, text);
      var p1 := RunParseDecode(d, out);
      if p0.Refused? || p1.Refused? {
        return BadFloat;
      }
      var near := false;
      if |p0.logits| == |p1.logits| {
        if p0.logits == [] {
          return NoValues;
        }
        var delta := ComputeMaxDelta(p0.logits, p1.logits);
        near := delta <= tol;
      }
      if p0.tokens != p1.tokens || !near {
        text := out;
        return Rewritten;
      }
      return Same;
    }
  }

  /** The whole check of two texts, spelled out. */
  lemma CheckDecodeSays(d: Decimal, was: string, out: string, tol: real)
    ensures var p, q := ParseDecode(d, was), ParseDecode(d, out);
      CheckDecode(d, was, out, tol) ==
      if p.Refused? || q.Refused? then Checked(BadFloat, was)
      else if |p.logits| == 0 && |q.logits| == 0 then Checked(NoValues, was)
      else if p.tokens == q.tokens && |p.logits| == |q.logits|
           && forall i :: 0 <= i < |p.logits| ==> p.logits[i] - q.logits[i] <= tol && q.logits[i] - p.logits[i] <= tol
      then Checked(Same, was)
      else Checked(Rewritten, out)
  {
    var p, q := ParseDecode(d, was), ParseDecode(d, out);
    if p.Parsed? && q.Parsed? && |p.logits| == |q.logits| > 0 {
      DeltaWithin(p.logits, q.logits, |p.logits|, tol);
      assert (forall i :: 0 <= i < |p.logits| ==> Near(p.logits[i], q.logits[i], tol)) <==>
        forall i :: 0 <= i < |p.logits| ==> p.logits[i] - q.logits[i] <= tol && q.logits[i] - p.logits[i] <= tol;
    }
  }

  lemma CheckComparesParsed(d: Decimal, was: string, out: string, tol: real,
      picked0: seq<Token>, logits0: seq<real>, picked1: seq<Token>, logits1: seq<real>)
    requires logits1 != []
    requires ParseDecode(d, was) == Parsed(Some(IntTexts(picked0)), logits0)
    requires ParseDecode(d, out) == Parsed(Some(IntTexts(picked1)), logits1)
    ensures CheckDecode(d, was, out, tol) ==
            if Agree(picked0, logits0, picked1, logits1, tol) then Checked(Same, was) else Checked(Rewritten, out)
  {
    IntTextsInjective(picked0, picked1);
    if |logits0| == |logits1| {
      DeltaWithin(logits0, logits1, |logits0|, tol);
    }
  }

  /** A check of one printed run against another says SAME, and leaves the
      file alone, exactly when the two runs agree; otherwise the file becomes
      the fresh run's. Prompts and step counts are not compared. */
  lemma CheckComparesRuns(d: Decimal, was: string, out: string, tol: real, prompt: seq<Token>, picked: seq<Token>,
      rows: seq<seq<real>>, nSteps: int, prompt': seq<Token>, picked': seq<Token>, rows': seq<seq<real>>, nSteps': int)
    requires d.PrintsAll(rows) && d.PrintsAll(rows') && Concat(rows') != []
    requires was == PrintDecode(d, prompt, picked, rows, nSteps)
    requires out == PrintDecode(d, prompt', picked', rows', nSteps')
    ensures CheckDecode(d, was, out, tol) ==
            if Agree(picked, Concat(rows), picked', Concat(rows'), tol) then Checked(Same, was) else Checked(Rewritten, out)
  {
    DecodeRoundTrips(d, prompt, picked, rows, nSteps);
    DecodeRoundTrips(d, prompt', picked', rows', nSteps');
    CheckComparesParsed(d, was, out, tol, picked, Concat(rows), picked', Concat(rows'));
  }

  /** Rewriting a decode golden converges on any output, printed by the dumper
      or not: a second check with the same output says SAME if and only if the
      output holds a logit and the tolerance is not negative. Without a logit
      the second check stops on the maximum of nothing. */
  lemma DecodeRewriteConverges(d: Decimal, was: string, out: string, tol: real, t: string)
    requires CheckDecode(d, was, out, tol) == Checked(Rewritten, t)
    ensures t == out && ParseDecode(d, out).Parsed?
    ensures CheckDecode(d, t, out, tol) ==
            Checked(if ParseDecode(d, out).logits == [] then NoValues else if tol < 0.0 then Rewritten else Same, t)
  {
    var l := ParseDecode(d, out).logits;
    if l != [] {
      DeltaWithin(l, l, |l|, tol);
      assert Near(l[0], l[0], tol) <==> 0.0 <= tol;
    }
  }

  /** A printer of one value. */
  function OnlyOne(): Decimal {
    Decimal(_ => "1", _ => Some(1.0))
  }

  lemma OneFloatParses(d: Decimal)
    ensures ParseDecode(d, "1\n") == Parsed(None, [])
  {
    LinePassed(d, "1", [], "", Parsed(None, []));
    assert Line("1", [], "") == "1\n" && SplitLines("", "") == [];
  }

  /** An output without logits replaces a golden that has some, and then
      leaves the next check none. */
  lemma ReplacedThenStops(d: Decimal, was: string, out: string, tol: real)
    requires ParseDecode(d, was).Parsed? && |ParseDecode(d, was).logits| > 0
    requires ParseDecode(d, out).Parsed? && ParseDecode(d, out).logits == []
    ensures CheckDecode(d, was, out, tol) == Checked(Rewritten, out) && CheckDecode(d, out, out, tol) == Checked(NoValues, out)
  {
  }

  /** The output of a dumper that was not told a step count: one float a
      line. It replaces the golden, and the next check with that output stops
      on the maximum of nothing. */
  lemma EmptyOutputStops(was: string, tol: real)
    requires was == PrintDecode(OnlyOne(), [3], [5], [[1.0]], 1)
    ensures CheckDecode(OnlyOne(), was, "1\n", tol) == Checked(Rewritten, "1\n")
    ensures CheckDecode(OnlyOne(), "1\n", "1\n", tol) == Checked(NoValues, "1\n")
  {
    OneRowParses(was);
    OneFloatParses(OnlyOne());
    ReplacedThenStops(OnlyOne(), was, "1\n", tol);
  }

  lemma OneRowParses(was: string)
    requires was == PrintDecode(OnlyOne(), [3], [5], [[1.0]], 1)
    ensures ParseDecode(OnlyOne(), was).Parsed? && |ParseDecode(OnlyOne(), was).logits| == 1
  {
    var rows := [[1.0]];
    assert OnlyOne().LawsAt(1.0);
    DecodeRoundTrips(OnlyOne(), [3], [5], rows, 1);
    assert rows[..0] == [] && Concat(rows) == [] + [1.0];
  }
}
