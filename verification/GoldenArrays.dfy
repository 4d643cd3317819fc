/** The golden check on a whole file, spelled out: an array constant in any
    layout, its numbers, the verdict, and the text it leaves. */
module GoldenArrays {
  import opened Options
  import opened Sequences
  import opened Texts
  import opened RustGoldens
  import opened GoldenCheck

  /* ---- numbers in any layout ---- */

  /** A number and what stands before it. */
  datatype Cell = Cell(before: string, number: string)

  predicate AllSeparators(s: string) {
    forall i :: 0 <= i < |s| ==> Separator(s[i])
  }

  /** Cells whose numbers are kept apart. */
  predicate Apart(cells: seq<Cell>) {
    forall k :: 0 <= k < |cells| ==>
      AllSeparators(cells[k].before) && IsLiteral(cells[k].number) && (k > 0 ==> cells[k].before != "")
  }

  function PrintCells(cells: seq<Cell>, tail: string): string {
    if cells == [] then tail else cells[0].before + (cells[0].number + PrintCells(cells[1..], tail))
  }

  function NumbersOf(cells: seq<Cell>): (r: seq<string>) {
    seq(|cells|, k requires 0 <= k < |cells| => cells[k].number)
  }

  lemma NumbersCons(cells: seq<Cell>)
    requires cells != []
    ensures NumbersOf(cells) == [cells[0].number] + NumbersOf(cells[1..])
  {
  }

  lemma PrintStarts(cells: seq<Cell>, tail: string)
    requires Apart(cells) && AllSeparators(tail) && (cells != [] ==> cells[0].before != "")
    ensures PrintCells(cells, tail) != "" ==> Separator(PrintCells(cells, tail)[0])
  {
  }

  lemma SkipBefore(s: string, i: nat, before: string, j: nat)
    requires AllSeparators(before) && Holds(s, i, before) && j == i + |before|
    ensures Numbers(s, i) == Numbers(s, j)
  {
    SeparatorRead(s, i, before, j);
  }

  /** Whatever separates them, the numbers of a body are read whole and in
      order, signs included. */
  lemma {:induction false} CellsRead(s: string, i: nat, cells: seq<Cell>, tail: string)
    requires Apart(cells) && AllSeparators(tail) && Holds(s, i, PrintCells(cells, tail)) && i + |PrintCells(cells, tail)| == |s|
    ensures Numbers(s, i) == NumbersOf(cells)
    decreases |cells|
  {
    if cells == [] {
      SkipBefore(s, i, tail, |s|);
    } else {
      var c, rest := cells[0], PrintCells(cells[1..], tail);
      var p := i + |c.before|;
      var q := p + |c.number|;
      HoldsParts(s, i, c.before, c.number + rest, p);
      HoldsParts(s, p, c.number, rest, q);
      SkipBefore(s, i, c.before, p);
      assert Apart(cells[1..]);
      if q < |s| {
        HoldsAt(s, q, rest, 0);
        PrintStarts(cells[1..], tail);
      }
      LiteralRead(s, p, c.number, q);
      CellsRead(s, q, cells[1..], tail);
      NumbersCons(cells);
    }
  }

  /** A number alone is read whole. */
  lemma NumberRead(s: string)
    requires IsLiteral(s)
    ensures Numbers(s, 0) == [s]
  {
    var cells := [Cell("", s)];
    assert cells[1..] == [];
    assert PrintCells(cells, "") == "" + (s + PrintCells([], "")) == s;
    CellsRead(s, 0, cells, "");
    assert NumbersOf(cells) == [s];
  }

  /** A negative literal keeps its sign. */
  lemma SignIsRead()
    ensures Numbers("-1.5", 0) == ["-1.5"]
  {
    NumberRead("-1.5");
  }

  /* ---- what is written ---- */

  /** One line per literal, built from the last one back. */
  function LineBody(lits: seq<string>): string {
    if lits == [] then "\n" else LineBody(lits[..|lits| - 1]) + "    " + lits[|lits| - 1] + ",\n"
  }

  /** Literals joined by a comma and a space. */
  function CommaBody(lits: seq<string>): string {
    if lits == [] then ""
    else if |lits| == 1 then lits[0]
    else CommaBody(lits[..|lits| - 1]) + ", " + lits[|lits| - 1]
  }

  lemma {:induction false} LinesSnoc(f: Floats, vals: seq<real>, v: real)
    ensures Lines(f, vals + [v]) == Lines(f, vals) + ("    " + f.literal(v) + ",\n")
    decreases |vals|
  {
    var all := vals + [v];
    if vals == [] {
      assert all[1..] == [] && all[0] == v;
    } else {
      assert all[0] == vals[0] && all[1..] == vals[1..] + [v];
      LinesSnoc(f, vals[1..], v);
      Assoc("    " + f.literal(vals[0]) + ",\n", Lines(f, vals[1..]), "    " + f.literal(v) + ",\n");
    }
  }

  lemma {:induction false} LinesAre(f: Floats, vals: seq<real>)
    ensures "\n" + Lines(f, vals) == LineBody(Printed(f, vals))
    decreases |vals|
  {
    if vals == [] {
      assert Printed(f, vals) == [];
    } else {
      var init, v := vals[..|vals| - 1], vals[|vals| - 1];
      var lits := Printed(f, vals);
      assert lits[..|lits| - 1] == Printed(f, init) && vals == init + [v];
      LinesAre(f, init);
      LinesSnoc(f, init, v);
      Assoc("\n", Lines(f, init), "    " + f.literal(v) + ",\n");
      Assoc(LineBody(Printed(f, init)), "    " + f.literal(v), ",\n");
      Assoc(LineBody(Printed(f, init)), "    ", f.literal(v));
    }
  }

  lemma {:induction false} OneLineSnoc(f: Floats, vals: seq<real>, v: real)
    requires vals != []
    ensures OneLine(f, vals + [v]) == OneLine(f, vals) + (", " + f.literal(v))
    decreases |vals|
  {
    var all := vals + [v];
    assert all[0] == vals[0] && all[1..] == vals[1..] + [v];
    if |vals| == 1 {
      assert vals[1..] + [v] == [v];
    } else {
      OneLineSnoc(f, vals[1..], v);
      Assoc(f.literal(vals[0]) + ", ", OneLine(f, vals[1..]), ", " + f.literal(v));
    }
  }

  lemma {:induction false} OneLineIs(f: Floats, vals: seq<real>)
    ensures OneLine(f, vals) == CommaBody(Printed(f, vals))
    decreases |vals|
  {
    if |vals| > 1 {
      var init, v := vals[..|vals| - 1], vals[|vals| - 1];
      var lits := Printed(f, vals);
      assert lits[..|lits| - 1] == Printed(f, init) && vals == init + [v];
      OneLineIs(f, init);
      OneLineSnoc(f, init, v);
      Assoc(CommaBody(Printed(f, init)), ", ", f.literal(v));
    }
  }

  /** A rewritten body: one literal a line behind four blanks and before a
      comma where the old body had a newline, else all on one line. */
  function NewBody(was: string, lits: seq<string>): string {
    if '\n' in was then LineBody(lits) else CommaBody(lits)
  }

  lemma InnerIs(f: Floats, body: string, vals: seq<real>)
    ensures Inner(f, body, vals) == NewBody(body, Printed(f, vals))
  {
    LinesAre(f, vals);
    OneLineIs(f, vals);
  }

  /* ---- the array ---- */

  /** An array constant: its name, the digits of its length, its body. */
  function ArrayText(name: string, digits: string, body: string, after: string): string {
    "const " + name + ": [f32; " + (digits + ("] = [" + (body + ("];" + after))))
  }

  predicate IsDigits(s: string) {
    s != "" && forall i :: 0 <= i < |s| ==> '0' <= s[i] <= '9'
  }

  lemma ArrayParts(s: string, name: string, digits: string, body: string, after: string, m: Found)
    requires s == ArrayText(name, digits, body, after)
    requires m == ArrayAt(name, digits, body)
    ensures Holds(s, 0, Head(name)) && Holds(s, m.digits, digits) && Holds(s, m.close, "] = [")
    ensures Holds(s, m.body, body) && Holds(s, m.end, "];" + after) && |s| == m.end + 2 + |after|
  {
    var r3 := "];" + after;
    var r2 := body + r3;
    var r1 := "] = [" + r2;
    HoldsParts(s, 0, Head(name), digits + r1, m.digits);
    HoldsParts(s, m.digits, digits, r1, m.close);
    HoldsParts(s, m.close, "] = [", r2, m.body);
    HoldsParts(s, m.body, body, r3, m.end);
  }

  /** Where the parts of an array constant are. */
  function ArrayAt(name: string, digits: string, body: string): Found {
    var d := |name| + 14;
    Found(0, d, d + |digits|, d + |digits| + 5, d + |digits| + 5 + |body|)
  }

  lemma BracketHeld(s: string, i: nat, body: string, end: nat)
    requires ']' !in body && Holds(s, i, body) && end == i + |body| < |s| && s[end] == ']'
    ensures Bracket(s, i) == end && s[i..end] == body
  {
    forall k | i <= k < end ensures s[k] == body[k - i] && s[k] != ']' {
      HoldsAt(s, i, body, k - i);
      assert body[k - i] in body;
    }
    BracketIs(s, i, end);
  }

  lemma OpensHeld(s: string, i: nat)
    requires Holds(s, i, "] = [")
    ensures OpensAt(s, i) && DigitsEnd(s, i) == i
  {
    HoldsAt(s, i, "] = [", 0);
    HoldsAt(s, i, "] = [", 1);
    HoldsAt(s, i, "] = [", 2);
    HoldsAt(s, i, "] = [", 3);
    HoldsAt(s, i, "] = [", 4);
  }

  lemma {:induction false} DigitsPass(s: string, i: nat, j: nat)
    requires i <= j <= |s| && (forall k :: i <= k < j ==> '0' <= s[k] <= '9') && DigitsEnd(s, j) == j
    ensures DigitsEnd(s, i) == j
    decreases j - i
  {
    if i < j {
      DigitsPass(s, i + 1, j);
    }
  }

  lemma DigitsHeld(s: string, i: nat, digits: string, j: nat)
    requires IsDigits(digits) && Holds(s, i, digits) && j == i + |digits| && DigitsEnd(s, j) == j
    ensures DigitsEnd(s, i) == j
  {
    forall k | i <= k < j ensures '0' <= s[k] <= '9' { HoldsAt(s, i, digits, k - i); }
    DigitsPass(s, i, j);
  }

  /** An array constant at the start of a file is found, with its body. */
  lemma ArrayFound(s: string, name: string, digits: string, body: string, after: string)
    requires s == ArrayText(name, digits, body, after) && IsDigits(digits) && ']' !in body
    ensures var m := ArrayAt(name, digits, body);
      Search(s, 0, Head(name)) == Some(m) && m.end < |s| && Body(s, m) == body
  {
    var m := ArrayAt(name, digits, body);
    ArrayParts(s, name, digits, body, after, m);
    HoldsAt(s, m.end, "];" + after, 0);
    HoldsAt(s, m.end, "];" + after, 1);
    OpensHeld(s, m.close);
    DigitsHeld(s, m.digits, digits, m.close);
    BracketHeld(s, m.body, body, m.end);
    MatchIntro(s, 0, Head(name), m.digits, m.close, m.body, m.end);
  }

  /** Splicing another body into an array constant. */
  lemma ArraySpliced(s: string, name: string, digits: string, body: string, after: string, inner: string)
    requires s == ArrayText(name, digits, body, after)
    ensures var m := ArrayAt(name, digits, body);
      m.body <= m.end <= |s| && s[..m.body] + inner + s[m.end..] == ArrayText(name, digits, inner, after)
  {
    var m := ArrayAt(name, digits, body);
    var front, back := Head(name) + (digits + "] = ["), "];" + after;
    assert s == front + (body + back);
    assert s[..m.body] == front && s[m.end..] == back;
    assert front + inner + back == ArrayText(name, digits, inner, after);
  }

  /* ---- the check ---- */

  /** The values a golden named so is compared with: the answer, cut to the
      golden's length if the name ends in _HEAD. */
  function Compared(name: string, answer: seq<real>, n: nat): seq<real> {
    if |name| >= 5 && name[|name| - 5] == '_' && name[|name| - 4] == 'H' && name[|name| - 3] == 'E'
       && name[|name| - 2] == 'A' && name[|name| - 1] == 'D' && |answer| > n
    then answer[..n] else answer
  }

  lemma ComparedIs(name: string, answer: seq<real>, n: nat)
    ensures Wanted(name, answer, n) == Compared(name, answer, n)
  {
    if |name| >= 5 {
      var t := name[|name| - 5..];
      assert t == [name[|name| - 5], name[|name| - 4], name[|name| - 3], name[|name| - 2], name[|name| - 1]];
    }
  }

  /** Each literal's value. */
  ghost predicate HasValues(f: Floats, lits: seq<string>, vals: seq<real>) {
    |vals| == |lits| && forall k :: 0 <= k < |lits| ==> f.value(lits[k]) == Some(vals[k])
  }

  lemma {:induction false} ValuesParse(f: Floats, lits: seq<string>, vals: seq<real>)
    requires HasValues(f, lits, vals)
    ensures ParseAll(f, lits) == Some(vals)
    decreases |lits|
  {
    if lits != [] {
      assert HasValues(f, lits[1..], vals[1..]);
      ValuesParse(f, lits[1..], vals[1..]);
      assert [vals[0]] + vals[1..] == vals;
    }
  }

  ghost predicate AllNear(a: seq<real>, b: seq<real>, tol: real)
    requires |a| == |b|
  {
    forall i :: 0 <= i < |a| ==> a[i] - b[i] <= tol && b[i] - a[i] <= tol
  }

  lemma FoundSays(f: Floats, s: string, m: Found, name: string, answer: seq<real>, tol: real, was: seq<real>)
    requires m.body <= m.end <= |s| && ReadValues(f, s, m) == Some(was)
    ensures var vals := Compared(name, answer, |was|);
      CheckFound(f, s, m, name, answer, tol) ==
      if |vals| != |was| then Checked(Fail, s)
      else if was == [] then Checked(NoValues, s)
      else if AllNear(was, vals, tol) then Checked(Same, s)
      else Checked(Rewritten, Rewrite(f, s, m, vals))
  {
    ComparedIs(name, answer, |was|);
    var vals := Compared(name, answer, |was|);
    if |vals| == |was| > 0 {
      DeltaWithin(was, vals, |was|, tol);
      assert AllNear(was, vals, tol) <==> forall i :: 0 <= i < |was| ==> Near(was[i], vals[i], tol);
    }
  }

  /** The whole check, on a file that starts with the array: its numbers in
      any layout, compared value by value; the file is left alone, or gets
      the compared values in the layout it had. */
  lemma CheckSays(f: Floats, s: string, name: string, digits: string, cells: seq<Cell>, tail: string, after: string,
                  was: seq<real>, answer: seq<real>, tol: real)
    requires IsDigits(digits) && Apart(cells) && AllSeparators(tail) && HasValues(f, NumbersOf(cells), was)
    requires ']' !in PrintCells(cells, tail) && s == ArrayText(name, digits, PrintCells(cells, tail), after)
    ensures var vals := Compared(name, answer, |was|);
      CheckText(f, s, name, answer, tol) ==
      if |vals| != |was| then Checked(Fail, s)
      else if was == [] then Checked(NoValues, s)
      else if AllNear(was, vals, tol) then Checked(Same, s)
      else Checked(Rewritten, ArrayText(name, digits, NewBody(PrintCells(cells, tail), Printed(f, vals)), after))
  {
    var body, m := PrintCells(cells, tail), ArrayAt(name, digits, PrintCells(cells, tail));
    var vals := Compared(name, answer, |was|);
    ArrayFound(s, name, digits, body, after);
    CellsRead(body, 0, cells, tail);
    ValuesParse(f, NumbersOf(cells), was);
    FoundSays(f, s, m, name, answer, tol, was);
    InnerIs(f, body, vals);
    ArraySpliced(s, name, digits, body, after, Inner(f, body, vals));
  }

  /* ---- a rewrite that never settles ---- */

  /** Two literals: one exact, one of the eight digits an f32 takes. */
  function EightDigits(): Floats {
    Floats(v => if v == 0.0 then "0.0" else "1000.1235",
           s => if s == "0.0" then Some(0.0) else if s == "1000.1235" then Some(1000.1235) else None)
  }

  lemma EightDigitsPrint()
    ensures var f := EightDigits();
      && IsLiteral("0.0") && IsLiteral("1000.1235")
      && f.literal(1000.12347) == "1000.1235" && f.value("0.0") == Some(0.0) && f.value("1000.1235") == Some(1000.1235)
  {
    assert "0.0"[1] != "1000.1235"[1];
  }

  lemma OneCell(lit: string)
    ensures PrintCells([Cell("", lit)], "") == lit && NumbersOf([Cell("", lit)]) == [lit]
  {
    var cells := [Cell("", lit)];
    assert cells[1..] == [];
    assert PrintCells(cells, "") == "" + (lit + PrintCells([], "")) == lit;
  }

  /** The check of an array of one number. */
  lemma OneNumberSays(f: Floats, lit: string, was: real, v: real, tol: real)
    requires IsLiteral(lit) && f.value(lit) == Some(was)
    ensures CheckText(f, ArrayText("A", "1", lit, ""), "A", [v], tol) ==
      if was - v <= tol && v - was <= tol then Checked(Same, ArrayText("A", "1", lit, ""))
      else Checked(Rewritten, ArrayText("A", "1", f.literal(v), ""))
  {
    var cells := [Cell("", lit)];
    OneCell(lit);
    NoBreaks(lit);
    CheckSays(f, ArrayText("A", "1", lit, ""), "A", "1", cells, "", "", [was], [v], tol);
    assert Compared("A", [v], 1) == [v];
    assert Printed(f, [v]) == [f.literal(v)];
    assert AllNear([was], [v], tol) <==> was - v <= tol && v - was <= tol;
  }

  lemma NoBreaks(lit: string)
    requires IsLiteral(lit)
    ensures ']' !in lit && '\n' !in lit
  {
  }

  /** The answer 1000.12347 is written as 1000.1235, which is further off than
      the default tolerance: every check with that answer rewrites the file,
      to the same text. */
  lemma NeverSettles()
    ensures var f, t := EightDigits(), ArrayText("A", "1", "1000.1235", "");
      && CheckText(f, ArrayText("A", "1", "0.0", ""), "A", [1000.12347], 0.000003) == Checked(Rewritten, t)
      && CheckText(f, t, "A", [1000.12347], 0.000003) == Checked(Rewritten, t)
  {
    EightDigitsPrint();
    OneNumberSays(EightDigits(), "0.0", 0.0, 1000.12347, 0.000003);
    OneNumberSays(EightDigits(), "1000.1235", 1000.1235, 1000.12347, 0.000003);
  }
}
