/** Nested token trees of C++ text and their printer. The scanner finds the
    closing parenthesis of exactly the texts that print a group. */
module CppTrees {
  import opened CppScanner
  import opened Sequences
  import opened Texts

  /** A character of a literal's body, bare or behind a backslash. */
  datatype Piece = Plain(c: char) | Escaped(c: char)

  datatype Item =
    | Text(s: string)
    | Literal(quote: char, body: seq<Piece>)
    | Comment(s: string)
    | Group(items: Items)

  datatype Items = Nil | Cons(head: Item, tail: Items)

  function PrintPiece(piece: Piece): string {
    match piece
    case Plain(c) => [c]
    case Escaped(c) => ['\\', c]
  }

  function PrintBody(body: seq<Piece>): string {
    if body == [] then ""
    else PrintPiece(body[0]) + PrintBody(body[1..])
  }

  function Print(item: Item): string {
    match item
    case Text(s) => s
    case Literal(quote, body) => [quote] + PrintBody(body) + [quote]
    case Comment(s) => "//" + s + "\n"
    case Group(items) => "(" + PrintAll(items) + ")"
  }

  function PrintAll(items: Items): string {
    match items
    case Nil => ""
    case Cons(h, t) => Print(h) + PrintAll(t)
  }

  /** Characters a text item may hold: no quote, no parenthesis. */
  predicate IsPlainText(s: string) {
    && (forall i :: 0 <= i < |s| ==> s[i] != '"' && s[i] != '\'' && s[i] != '(' && s[i] != ')')
    && (forall i :: 0 <= i < |s| - 1 ==> !(s[i] == '/' && s[i + 1] == '/'))
  }

  predicate IsBody(quote: char, body: seq<Piece>) {
    forall i :: 0 <= i < |body| && body[i].Plain? ==> body[i].c != quote && body[i].c != '\\'
  }

  predicate WellFormed(item: Item) {
    match item
    case Text(s) => IsPlainText(s)
    case Literal(quote, body) => (quote == '"' || quote == '\'') && IsBody(quote, body)
    case Comment(s) => '\n' !in s
    case Group(items) => AllWellFormed(items)
  }

  /** A text does not end in a slash that the next item's first slash would
      turn into a comment. */
  predicate JoinsCleanly(head: Item, rest: string) {
    head.Text? && head.s != "" && head.s[|head.s| - 1] == '/' ==> rest == "" || rest[0] != '/'
  }

  predicate AllWellFormed(items: Items) {
    match items
    case Nil => true
    case Cons(h, t) => WellFormed(h) && AllWellFormed(t) && JoinsCleanly(h, PrintAll(t))
  }

  /* ---- the scanner inverts the printer ---- */

  lemma {:induction false} LiteralBodyEnds(src: string, i: nat, quote: char, body: seq<Piece>)
    requires IsQuote(quote) && IsBody(quote, body) && Holds(src, i, PrintBody(body) + [quote])
    ensures LiteralEnd(src, i, quote) == At(i + |PrintBody(body)| + 1)
    decreases |body|
  {
    if body == [] {
      HoldsAt(src, i, PrintBody(body) + [quote], 0);
    } else {
      var p := PrintBody([body[0]]);
      assert [body[0]][1..] == [] && PrintBody([]) == "";
      assert PrintBody(body) == p + PrintBody(body[1..]);
      assert PrintBody(body) + [quote] == p + (PrintBody(body[1..]) + [quote]);
      HoldsParts(src, i, p, PrintBody(body[1..]) + [quote], i + |p|);
      HoldsAt(src, i, p, 0);
      LiteralBodyEnds(src, i + |p|, quote, body[1..]);
    }
  }

  lemma {:induction false} PlainTextPasses(src: string, i: nat, s: string, k: nat, depth: int)
    requires Holds(src, i, s) && k <= |s| && IsPlainText(s)
    requires s != "" && s[|s| - 1] == '/' ==> i + |s| >= |src| || src[i + |s|] != '/'
    ensures Match(src, i + k, depth) == Match(src, i + |s|, depth)
    decreases |s| - k
  {
    if k < |s| {
      assert src[i + k] == s[k] && !CommentAt(s, k);
      if k + 1 < |s| {
        assert src[i + (k + 1)] == s[k + 1];
      }
      assert !CommentAt(src, i + k);
      assert Step(src, i + k) == At(i + k + 1);
      PlainTextPasses(src, i, s, k + 1, depth);
    }
  }

  /** The text of a cons, split: the head, what follows it, and that the two
      join cleanly. */
  lemma ConsHolds(src: string, i: nat, h: Item, t: Items)
    requires JoinsCleanly(h, PrintAll(t)) && Holds(src, i, PrintAll(Cons(h, t)) + ")")
    ensures Holds(src, i, Print(h)) && Holds(src, i + |Print(h)|, PrintAll(t) + ")")
    ensures i + |Print(h)| < |src| && JoinsCleanly(h, src[i + |Print(h)|..])
  {
    var p, rest := Print(h), PrintAll(t) + ")";
    assert PrintAll(Cons(h, t)) + ")" == p + rest;
    HoldsParts(src, i, p, rest, i + |p|);
    HoldsAt(src, i + |p|, rest, 0);
    assert src[i + |p|..][0] == rest[0];
  }

  /** Scanning printed items leaves the depth as it was. */
  lemma {:induction false} ItemsPass(src: string, i: nat, items: Items, depth: int)
    requires depth >= 1 && AllWellFormed(items) && Holds(src, i, PrintAll(items) + ")")
    ensures Match(src, i, depth) == Match(src, i + |PrintAll(items)|, depth)
    decreases items, 0
  {
    match items
    case Nil =>
    case Cons(h, t) =>
      ConsHolds(src, i, h, t);
      ItemPasses(src, i, h, depth);
      ItemsPass(src, i + |Print(h)|, t, depth);
  }

  lemma {:induction false} ItemPasses(src: string, i: nat, item: Item, depth: int)
    requires depth >= 1 && WellFormed(item) && Holds(src, i, Print(item)) && i + |Print(item)| < |src|
    requires JoinsCleanly(item, src[i + |Print(item)|..])
    ensures Match(src, i, depth) == Match(src, i + |Print(item)|, depth)
    decreases item
  {
    match item
    case Text(s) =>
      PlainTextPasses(src, i, s, 0, depth);
    case Literal(quote, body) =>
      LiteralPasses(src, i, quote, body, depth);
    case Comment(s) =>
      CommentPasses(src, i, s, depth);
    case Group(items) =>
      GroupPasses(src, i, items, depth);
  }

  lemma {:induction false} GroupPasses(src: string, i: nat, items: Items, depth: int)
    requires depth >= 1 && AllWellFormed(items) && Holds(src, i, Print(Group(items)))
    ensures Match(src, i, depth) == Match(src, i + |Print(Group(items))|, depth)
    decreases items, 1
  {
    var j := i + 1 + |PrintAll(items)|;
    GroupHolds(src, i, items);
    OpenStep(src, i, depth);
    ItemsPass(src, i + 1, items, depth + 1);
    CloseStep(src, j, depth + 1);
    assert i + |Print(Group(items))| == j + 1;
  }

  lemma GroupHolds(src: string, i: nat, items: Items)
    requires Holds(src, i, Print(Group(items)))
    ensures Holds(src, i + 1, PrintAll(items) + ")")
    ensures i + 1 + |PrintAll(items)| < |src| && src[i] == '(' && src[i + 1 + |PrintAll(items)|] == ')'
  {
    var p := Print(Group(items));
    assert p == "(" + (PrintAll(items) + ")");
    HoldsParts(src, i, "(", PrintAll(items) + ")", i + 1);
    HoldsAt(src, i, p, 0);
    HoldsAt(src, i, p, |p| - 1);
  }

  lemma OpenStep(src: string, i: nat, depth: int)
    requires i < |src| && src[i] == '('
    ensures Match(src, i, depth) == Match(src, i + 1, depth + 1)
  {
    assert Step(src, i) == At(i + 1);
  }

  lemma CloseStep(src: string, i: nat, depth: int)
    requires i < |src| && src[i] == ')' && depth > 1
    ensures Match(src, i, depth) == Match(src, i + 1, depth - 1)
  {
    assert Step(src, i) == At(i + 1);
  }

  lemma LiteralPasses(src: string, i: nat, quote: char, body: seq<Piece>, depth: int)
    requires IsQuote(quote) && IsBody(quote, body) && Holds(src, i, Print(Literal(quote, body)))
    ensures Match(src, i, depth) == Match(src, i + |Print(Literal(quote, body))|, depth)
  {
    var p := Print(Literal(quote, body));
    assert p == [quote] + (PrintBody(body) + [quote]);
    HoldsParts(src, i, [quote], PrintBody(body) + [quote], i + 1);
    HoldsAt(src, i, p, 0);
    LiteralBodyEnds(src, i + 1, quote, body);
    assert Step(src, i) == At(i + |p|);
  }

  lemma CommentPasses(src: string, i: nat, s: string, depth: int)
    requires '\n' !in s && Holds(src, i, "//" + s + "\n")
    ensures Match(src, i, depth) == Match(src, i + |s| + 3, depth)
  {
    var p := "//" + s + "\n";
    var e := i + 2 + |s|;
    HoldsAt(src, i, p, 0);
    HoldsAt(src, i, p, 1);
    HoldsAt(src, i, p, 2 + |s|);
    forall k | i <= k < e ensures src[k] != '\n' { HoldsAt(src, i, p, k - i); }
    FirstNewline(src, i, e);
    assert Step(src, i) == At(e);
    assert Step(src, e) == At(e + 1);
  }

  /** Between any prefix and any suffix, the scanner returns a printed
      group's own closing parenthesis. */
  lemma ScannerInvertsPrinter(prefix: string, items: Items, suffix: string)
    requires AllWellFormed(items)
    ensures var g := Print(Group(items));
            Match(prefix + g + suffix, |prefix|, 0) == At(|prefix| + |g| - 1)
  {
    var body := PrintAll(items);
    var src, i := prefix + Print(Group(items)) + suffix, |prefix|;
    GroupHolds(src, i, items);
    OpenStep(src, i, 0);
    ItemsPass(src, i + 1, items, 1);
  }

  /** The law of literals: a string or char literal in parentheses is passed
      over whole, whatever quotes of the other kind, parentheses, slashes or
      escaped characters it holds. */
  lemma LiteralInParentheses(quote: char, body: seq<Piece>)
    requires quote == '"' || quote == '\''
    requires forall i :: 0 <= i < |body| && body[i].Plain? ==> body[i].c != quote && body[i].c != '\\'
    ensures var src := "(" + ([quote] + PrintBody(body) + [quote]) + ")";
      Match(src, 0, 0) == At(|src| - 1)
  {
    var items := Cons(Literal(quote, body), Nil);
    var src := "(" + ([quote] + PrintBody(body) + [quote]) + ")";
    assert PrintAll(items) == Print(Literal(quote, body)) + "";
    assert Print(Group(items)) == src;
    ScannerInvertsPrinter("", items, "");
    assert "" + src + "" == src;
  }

  /* ---- and only printed groups are found ---- */

  lemma PieceThenBody(piece: Piece, rest: seq<Piece>)
    ensures PrintBody([piece] + rest) == PrintPiece(piece) + PrintBody(rest)
  {
    assert ([piece] + rest)[1..] == rest;
  }

  lemma PieceCut(src: string, i: nat, next: nat, end: nat, piece: Piece)
    requires i < next <= end <= |src|
    requires piece == if src[i] == '\\' && i + 1 < |src| then Escaped(src[i + 1]) else Plain(src[i])
    requires next == i + |PrintPiece(piece)|
    ensures src[i..end] == PrintPiece(piece) + src[next..end]
  {
    assert src[i..next] == PrintPiece(piece);
  }

  lemma {:induction false} BodyOfLiteral(src: string, i: nat, quote: char) returns (body: seq<Piece>)
    requires IsQuote(quote) && LiteralEnd(src, i, quote).At?
    ensures IsBody(quote, body) && PrintBody(body) + [quote] == src[i..LiteralEnd(src, i, quote).index]
    decreases |src| - i
  {
    var end := LiteralEnd(src, i, quote).index;
    if src[i] == quote {
      body := [];
    } else {
      var escaped := src[i] == '\\';
      var next := if escaped then i + 2 else i + 1;
      var rest := BodyOfLiteral(src, next, quote);
      var piece := if escaped then Escaped(src[i + 1]) else Plain(src[i]);
      body := [piece] + rest;
      PieceThenBody(piece, rest);
      PieceCut(src, i, next, end, piece);
      Assoc(PrintPiece(piece), PrintBody(rest), [quote]);
    }
  }

  lemma LiteralHead(src: string, i: nat, next: nat) returns (head: Item)
    requires i < |src| && IsQuote(src[i]) && Step(src, i) == At(next)
    ensures src[i..next] == Print(head) && WellFormed(head) && !head.Text?
  {
    var body := BodyOfLiteral(src, i + 1, src[i]);
    head := Literal(src[i], body);
    assert src[i..next] == [src[i]] + src[i + 1..next];
    assert Print(head) == [src[i]] + (PrintBody(body) + [src[i]]);
  }

  /** Scanning goes on behind a step over anything but a parenthesis. */
  lemma StepPasses(src: string, i: nat, depth: int)
    requires Match(src, i, depth).At? && src[i] != '(' && src[i] != ')'
    ensures Step(src, i).At? && Match(src, Step(src, i).index, depth) == Match(src, i, depth)
  {
  }

  lemma NewlinePasses(src: string, i: nat, depth: int)
    requires i < |src| && src[i] == '\n'
    ensures Match(src, i + 1, depth) == Match(src, i, depth)
  {
    assert Step(src, i) == At(i + 1);
  }

  /** `head` is an item of a level, printed from `i`; the scan resumes
      behind it. */
  ghost predicate IsHead(src: string, i: nat, resume: nat, head: Item, depth: int) {
    && i < resume <= |src| && src[i..resume] == Print(head) && WellFormed(head) && JoinsCleanly(head, src[resume..])
    && Match(src, resume, depth) == Match(src, i, depth)
  }

  /** `items` print the text from `i` up to the parenthesis at `j` that closes
      the level. */
  ghost predicate IsLevel(src: string, i: nat, j: nat, items: Items, depth: int) {
    && i <= j < |src| && src[j] == ')' && src[i..j] == PrintAll(items) && AllWellFormed(items)
    && Match(src, j, depth) == Match(src, i, depth)
  }

  /** One item of a level, read off a scan position that is no parenthesis. A
      comment's item includes its newline. */
  lemma HeadItem(src: string, i: nat, depth: int) returns (head: Item, resume: nat)
    requires Match(src, i, depth).At? && src[i] != '(' && src[i] != ')'
    ensures IsHead(src, i, resume, head, depth)
  {
    resume := Step(src, i).index;
    StepPasses(src, i, depth);
    if IsQuote(src[i]) {
      head := LiteralHead(src, i, resume);
    } else if CommentAt(src, i) {
      head := Comment(src[i + 2..resume]);
      NewlinePasses(src, resume, depth);
      CommentText(src, i, resume);
      resume := resume + 1;
    } else {
      head := Text([src[i]]);
    }
  }

  /** From any position at depth at least one of a scan that succeeds, the
      text up to the parenthesis closing the current level prints items. */
  lemma {:induction false} LevelPrints(src: string, i: nat, depth: int) returns (items: Items, j: nat)
    requires depth >= 1 && Match(src, i, depth).At?
    ensures IsLevel(src, i, j, items, depth)
    decreases |src| - i
  {
    if src[i] == ')' {
      items, j := Nil, i;
    } else if src[i] == '(' {
      OpenStep(src, i, depth);
      var inner, c := LevelPrints(src, i + 1, depth + 1);
      GroupScans(src, i, c, depth);
      var tail;
      tail, j := LevelPrints(src, c + 1, depth);
      items := Cons(Group(inner), tail);
      JoinGroup(src, i, c, j, inner, tail, depth);
    } else {
      var head, resume := HeadItem(src, i, depth);
      var tail;
      tail, j := LevelPrints(src, resume, depth);
      items := Cons(head, tail);
      JoinHead(src, i, resume, j, head, tail, depth);
    }
  }

  lemma GroupScans(src: string, i: nat, c: nat, depth: int)
    requires depth >= 1 && i < c < |src| && src[i] == '(' && src[c] == ')'
    requires Match(src, c, depth + 1) == Match(src, i + 1, depth + 1)
    ensures Match(src, c + 1, depth) == Match(src, i, depth)
  {
    OpenStep(src, i, depth);
    CloseStep(src, c, depth + 1);
  }

  lemma JoinHead(src: string, i: nat, resume: nat, j: nat, head: Item, tail: Items, depth: int)
    requires IsHead(src, i, resume, head, depth) && IsLevel(src, resume, j, tail, depth)
    ensures IsLevel(src, i, j, Cons(head, tail), depth)
  {
    assert src[i..j] == src[i..resume] + src[resume..j];
    assert resume < j ==> src[resume..j][0] == src[resume..][0];
  }

  lemma SliceAround(src: string, i: nat, c: nat, j: nat)
    requires i < c < j <= |src|
    ensures src[i..j] == [src[i]] + src[i + 1..c] + [src[c]] + src[c + 1..j]
  {
  }

  lemma JoinGroup(src: string, i: nat, c: nat, j: nat, inner: Items, tail: Items, depth: int)
    requires depth >= 1 && i < |src| && src[i] == '('
    requires IsLevel(src, i + 1, c, inner, depth + 1) && IsLevel(src, c + 1, j, tail, depth)
    ensures IsLevel(src, i, j, Cons(Group(inner), tail), depth)
  {
    GroupScans(src, i, c, depth);
    SliceAround(src, i, c, j);
  }

  lemma CommentText(src: string, i: nat, next: nat)
    requires i + 2 <= next < |src| && NewlineFrom(src, i) == At(next) && CommentAt(src, i)
    ensures '\n' !in src[i + 2..next] && src[i..next + 1] == Print(Comment(src[i + 2..next]))
  {
    assert src[i..next + 1] == "//" + src[i + 2..next] + "\n";
    NoNewlineBefore(src, i);
    var inside := src[i + 2..next];
    forall k | 0 <= k < |inside| ensures inside[k] != '\n' {
      assert inside[k] == src[i + 2 + k];
    }
  }

  lemma Enclosed(src: string, i: nat, j: nat)
    requires i < j < |src|
    ensures src[i..j + 1] == [src[i]] + src[i + 1..j] + [src[j]]
  {
  }

  lemma FoundIsPrinted(src: string, openAt: nat) returns (items: Items)
    requires openAt < |src| && src[openAt] == '(' && Match(src, openAt, 0).At?
    ensures AllWellFormed(items)
    ensures var r := Match(src, openAt, 0).index; src[openAt..r + 1] == Print(Group(items))
  {
    OpenStep(src, openAt, 0);
    var j;
    items, j := LevelPrints(src, openAt + 1, 1);
    Enclosed(src, openAt, j);
  }

  lemma PrintedIsFound(src: string, openAt: nat, r: nat, items: Items)
    requires AllWellFormed(items) && openAt <= r < |src| && src[openAt..r + 1] == Print(Group(items))
    ensures Match(src, openAt, 0) == At(r)
  {
    ScannerInvertsPrinter(src[..openAt], items, src[r + 1..]);
    assert src == src[..openAt] + src[openAt..r + 1] + src[r + 1..];
  }

  /** Exactness: from an opening parenthesis, the scanner returns `r` if and
      only if the text from there through `r` prints a group. */
  lemma FoundExactlyGroups(src: string, openAt: nat, r: nat)
    requires openAt < |src| && src[openAt] == '('
    ensures Match(src, openAt, 0) == At(r) <==>
      exists items :: AllWellFormed(items) && openAt <= r < |src| && src[openAt..r + 1] == Print(Group(items))
  {
    if Match(src, openAt, 0) == At(r) {
      var items := FoundIsPrinted(src, openAt);
    }
    forall items | AllWellFormed(items) && openAt <= r < |src| && src[openAt..r + 1] == Print(Group(items))
      ensures Match(src, openAt, 0) == At(r)
    {
      PrintedIsFound(src, openAt, r, items);
    }
  }
}
