/** One declaration: from the parenthesis behind `add_opt`, the scanner cuts
    out the body, and the two lists are read behind `common_arg(`. */
module CppDeclarations {
  import opened Options
  import opened Sequences
  import opened Texts
  import opened CppScanner
  import opened CppTrees
  import opened CppSpellings

  const OPENER := "common_arg("

  /** `text.index(word)` from position `i` on. */
  function IndexFrom(text: string, word: string, i: nat): (r: Option<nat>)
    ensures r.Some? ==> i <= r.value && r.value + |word| <= |text|
    decreases |text| - i
  {
    if i + |word| > |text| then None
    else if text[i..i + |word|] == word then Some(i)
    else if i == |text| then None
    else IndexFrom(text, word, i + 1)
  }

  /** The spellings behind an opener in a declaration's body. */
  function ReadBehind(body: string, opener: string): Spellings {
    match IndexFrom(body, opener, 0)
    case None => Broken
    case Some(at) => ReadSpellings(body, at + |opener|)
  }

  /** The declaration's own text, from its outer parenthesis at `openAt`. */
  function CutOut(src: string, openAt: nat): Option<string> {
    match Match(src, openAt, 0)
    case Raises(_) => None
    case At(close) => Some(src[openAt..close + 1])
  }

  /** What `common_rows` reads off a declaration; `Broken` stands for the
      errors of the scan. */
  function ReadDeclaration(src: string, openAt: nat): Spellings {
    match CutOut(src, openAt)
    case None => Broken
    case Some(body) => ReadBehind(body, OPENER)
  }

  lemma OpenerBehindParenthesis(body: string, rest: string)
    requires Holds(body, 0, "(" + (OPENER + rest))
    ensures IndexFrom(body, OPENER, 0) == Some(1) && Holds(body, 1 + |OPENER|, rest)
  {
    HoldsParts(body, 0, "(", OPENER + rest, 1);
    HoldsParts(body, 1, OPENER, rest, 1 + |OPENER|);
    HoldsAt(body, 0, "(", 0);
    assert body[0..|OPENER|][0] == '(' && OPENER[0] == 'c';
    assert body[1..1 + |OPENER|] == OPENER;
  }

  lemma HeldSlice(text: string, i: nat, s: string, j: nat)
    requires Holds(text, i, s) && j == i + |s|
    ensures text[i..j] == s
  {
  }

  lemma BodyRead(body: string, first: ListText, tail: Tail)
    requires first.Valid() && tail.Valid()
    requires Holds(body, 0, "(" + (OPENER + (first.Print() + tail.Print())))
    ensures ReadBehind(body, OPENER) == Declared(Strings(first.elements), tail.Negations())
  {
    OpenerBehindParenthesis(body, first.Print() + tail.Print());
    SpellingsRead(body, 1 + |OPENER|, first, tail);
  }

  lemma GroupCutOut(src: string, openAt: nat, items: Items)
    requires AllWellFormed(items) && Holds(src, openAt, Print(Group(items)))
    ensures CutOut(src, openAt) == Some(Print(Group(items)))
  {
    var close := openAt + |PrintAll(items)| + 1;
    HeldSlice(src, openAt, Print(Group(items)), close + 1);
    PrintedIsFound(src, openAt, close, items);
  }

  lemma GroupRead(items: Items, first: ListText, tail: Tail, body: string)
    requires first.Valid() && tail.Valid()
    requires PrintAll(items) + ")" == OPENER + (first.Print() + tail.Print()) && body == Print(Group(items))
    ensures ReadBehind(body, OPENER) == Declared(Strings(first.elements), tail.Negations())
  {
    Assoc("(", PrintAll(items), ")");
    BodyRead(body, first, tail);
  }

  /** A well-formed declaration gives its spellings and, if a second list
      follows directly behind a comma, its negations, wherever it stands in
      the source and whatever else its arguments are: the scanner cuts out
      exactly its own text. */
  lemma DeclarationRead(src: string, openAt: nat, items: Items, first: ListText, tail: Tail)
    requires AllWellFormed(items) && first.Valid() && tail.Valid()
    requires PrintAll(items) + ")" == OPENER + (first.Print() + tail.Print())
    requires Holds(src, openAt, Print(Group(items)))
    ensures ReadDeclaration(src, openAt) == Declared(Strings(first.elements), tail.Negations())
  {
    GroupCutOut(src, openAt, items);
    GroupRead(items, first, tail, Print(Group(items)));
  }
}
