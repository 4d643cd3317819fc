/** `string_list`: the braced list of quoted spellings of a declaration,
    behind whitespace and line comments, and the pair of lists a declaration
    may open with. */
module CppSpellings {
  import opened Options
  import opened CppScanner
  import opened Sequences
  import opened Texts

  /** A list of strings with the position just past its brace, no list, or
      the ValueError of an unterminated comment. */
  datatype Listing = Found(strings: seq<string>, end: nat) | NoList | CommentOpen

  /** The first double quote at or after `i`. */
  function QuoteFrom(text: string, i: nat): (r: nat)
    requires i <= |text|
    ensures i <= r <= |text| && (r < |text| ==> text[r] == '"')
    decreases |text| - i
  {
    if i < |text| && text[i] != '"' then QuoteFrom(text, i + 1) else i
  }

  /** Where the optional comma and its surrounding whitespace end. */
  function PastComma(text: string, i: nat): (r: nat)
    requires i <= |text|
    ensures i <= r <= |text|
  {
    var p := SkipSpace(text, i);
    if p < |text| && text[p] == ',' then SkipSpace(text, p + 1) else p
  }

  /** A quoted string and where the text behind it and its comma goes on. */
  datatype Quoted = Quoted(s: string, next: nat)

  function QuotedAt(text: string, i: nat): (r: Option<Quoted>)
    requires i <= |text|
    ensures r.Some? ==> i < r.value.next <= |text|
  {
    if i == |text| || text[i] != '"' then None
    else
      var close := QuoteFrom(text, i + 1);
      if close == |text| then None
      else Some(Quoted(text[i + 1..close], PastComma(text, close + 1)))
  }

  /** One or more quoted strings from `i`, then the closing brace. */
  function Elements(text: string, i: nat): (r: Listing)
    requires i <= |text|
    ensures r.Found? ==> r.strings != [] && i < r.end <= |text|
    decreases |text| - i
  {
    match QuotedAt(text, i)
    case None => NoList
    case Some(Quoted(s, p)) =>
      if p < |text| && text[p] == '}' then Found([s], p + 1)
      else match Elements(text, p)
        case Found(rest, end) => Found([s] + rest, end)
        case other => other
  }

  /** `STRING_LIST.match(text, at)`. */
  function Braced(text: string, at: nat): (r: Listing)
    requires at <= |text|
    ensures r.Found? ==> at < r.end <= |text|
  {
    var p := SkipSpace(text, at);
    if p < |text| && text[p] == '{' then Elements(text, SkipSpace(text, p + 1)) else NoList
  }

  function StringList(text: string, at: nat): (r: Listing)
    requires at <= |text|
    ensures r.Found? ==> at < r.end <= |text|
    decreases |text| - at
  {
    var stripped := SkipSpace(text, at);
    if CommentAt(text, stripped) then
      match NewlineFrom(text, stripped)
      case Raises(_) => CommentOpen
      case At(j) => StringList(text, j)
    else Braced(text, at)
  }

  /** `string_list`, as it loops over comments. */
  method ReadStringList(text: string, start: nat) returns (r: Listing)
    requires start <= |text|
    ensures r == StringList(text, start)
  {
    var at := start;
    while true
      invariant at <= |text| && StringList(text, at) == StringList(text, start)
      decreases |text| - at
    {
      var stripped := SkipSpace(text, at);
      if CommentAt(text, stripped) {
        var newline := IndexOfNewline(text, stripped);
        if newline.Raises? {
          return CommentOpen;
        }
        at := newline.index;
      } else {
        break;
      }
    }
    return Braced(text, at);
  }

  /** The spellings and negated spellings a declaration body opens with: a
      first list, and a second one directly behind a comma. */
  datatype Spellings = Declared(spellings: seq<string>, neg: seq<string>) | NoSpellings | Broken

  function ReadSpellings(body: string, inner: nat): Spellings
    requires inner <= |body|
  {
    AfterFirst(body, StringList(body, inner))
  }

  /** What follows from the first list. */
  function AfterFirst(body: string, first: Listing): Spellings
    requires first.Found? ==> first.end <= |body|
  {
    match first
    case NoList => NoSpellings
    case CommentOpen => Broken
    case Found(spellings, after) =>
      var p := SkipSpace(body, after);
      if p < |body| && body[p] == ',' then WithSecond(spellings, StringList(body, p + 1))
      else Declared(spellings, [])
  }

  function WithSecond(spellings: seq<string>, second: Listing): Spellings {
    match second
    case Found(neg, _) => Declared(spellings, neg)
    case NoList => Declared(spellings, [])
    case CommentOpen => Broken
  }

  /* ---- the printed form ---- */

  ghost predicate IsFound(r: Listing, strings: seq<string>, end: int) {
    r.Found? && r.strings == strings && r.end == end
  }

  /** A quoted string and the layout behind it. */
  datatype Element = Element(s: string, before: string, comma: bool, behind: string) {
    predicate Valid() {
      '"' !in s && AllSpace(before) && AllSpace(behind)
    }

    function Gap(): string {
      before + (if comma then "," else "") + behind
    }

    function Print(): string {
      "\"" + s + "\"" + Gap()
    }
  }

  /** A comment line and the whitespace before it. */
  datatype CommentLine = CommentLine(indent: string, s: string) {
    predicate Valid() {
      AllSpace(indent) && '\n' !in s
    }

    function Print(): string {
      indent + "//" + s + "\n"
    }
  }

  function PrintElements(es: seq<Element>): string {
    if es == [] then "}" else es[0].Print() + PrintElements(es[1..])
  }

  function PrintComments(cs: seq<CommentLine>): string {
    if cs == [] then "" else cs[0].Print() + PrintComments(cs[1..])
  }

  function Strings(es: seq<Element>): seq<string> {
    seq(|es|, i requires 0 <= i < |es| => es[i].s)
  }

  lemma {:induction false} QuoteFound(text: string, i: nat, j: nat)
    requires i <= j < |text| && text[j] == '"' && forall k :: i <= k < j ==> text[k] != '"'
    ensures QuoteFrom(text, i) == j
    decreases j - i
  {
    if i < j {
      QuoteFound(text, i + 1, j);
    }
  }

  lemma CommaGapPasses(text: string, i: nat, before: string, behind: string, j: nat)
    requires AllSpace(before) && AllSpace(behind) && Holds(text, i, before + ("," + behind))
    requires j == i + |before| + 1 + |behind| < |text| && !IsSpace(text[j])
    ensures PastComma(text, i) == j
  {
    var p := i + |before|;
    HoldsParts(text, i, before, "," + behind, p);
    HoldsParts(text, p, ",", behind, p + 1);
    HoldsAt(text, p, ",", 0);
    SpacesPass(text, i, before);
    SpacesPass(text, p + 1, behind);
  }

  lemma GapPasses(text: string, i: nat, e: Element)
    requires e.Valid() && Holds(text, i, e.Gap()) && i + |e.Gap()| < |text|
    requires text[i + |e.Gap()|] == '"' || text[i + |e.Gap()|] == '}'
    ensures PastComma(text, i) == i + |e.Gap()|
  {
    if e.comma {
      assert e.Gap() == e.before + ("," + e.behind);
      CommaGapPasses(text, i, e.before, e.behind, i + |e.Gap()|);
    } else {
      assert e.Gap() == e.before + e.behind;
      SpacesPass(text, i, e.before + e.behind);
    }
  }

  lemma HeldUnquoted(text: string, i: nat, s: string, j: nat)
    requires '"' !in s && Holds(text, i, s) && j == i + |s|
    ensures text[i..j] == s && forall k :: i <= k < j ==> text[k] != '"'
  {
    forall k | i <= k < j ensures text[k] == s[k - i] && text[k] != '"' {
      HoldsAt(text, i, s, k - i);
      assert s[k - i] in s;
    }
  }

  /** A quoted string, then more from `p` on. */
  lemma QuotedRead(text: string, i: nat, s: string, more: string, p: nat)
    requires '"' !in s && Holds(text, i, "\"" + (s + ("\"" + more))) && p == i + 2 + |s|
    ensures p <= |text| && text[i] == '"' && QuoteFrom(text, i + 1) == p - 1
    ensures text[i + 1..p - 1] == s && Holds(text, p, more)
  {
    HoldsParts(text, i, "\"", s + ("\"" + more), i + 1);
    HoldsParts(text, i + 1, s, "\"" + more, p - 1);
    HoldsParts(text, p - 1, "\"", more, p);
    HoldsAt(text, i, "\"", 0);
    HoldsAt(text, p - 1, "\"", 0);
    HeldUnquoted(text, i + 1, s, p - 1);
    QuoteFound(text, i + 1, p - 1);
  }

  /** One step of the element loop. */
  lemma ElementStep(text: string, i: nat, e: Element, more: string, p: nat)
    requires e.Valid() && Holds(text, i, e.Print() + more) && more != "" && (more[0] == '"' || more[0] == '}')
    requires p == i + |e.Print()|
    ensures Holds(text, p, more) && p < |text| && text[p] == more[0] && QuotedAt(text, i) == Some(Quoted(e.s, p))
  {
    assert e.Print() + more == "\"" + (e.s + ("\"" + (e.Gap() + more)));
    var q := i + 2 + |e.s|;
    QuotedRead(text, i, e.s, e.Gap() + more, q);
    assert p == q + |e.Gap()|;
    HoldsParts(text, q, e.Gap(), more, p);
    HoldsAt(text, p, more, 0);
    GapPasses(text, q, e);
  }

  lemma StringsCons(es: seq<Element>)
    requires es != []
    ensures Strings(es) == [es[0].s] + Strings(es[1..])
  {
  }

  lemma {:induction false} ElementsRead(text: string, i: nat, es: seq<Element>)
    requires es != [] && (forall k :: 0 <= k < |es| ==> es[k].Valid())
    requires Holds(text, i, PrintElements(es))
    ensures IsFound(Elements(text, i), Strings(es), i + |PrintElements(es)|)
    decreases |es|
  {
    var e, more := es[0], PrintElements(es[1..]);
    assert more[0] == (if |es| == 1 then '}' else '"');
    var p := i + |e.Print()|;
    ElementStep(text, i, e, more, p);
    StringsCons(es);
    if |es| > 1 {
      ElementsRead(text, p, es[1..]);
    }
  }

  /** A whole list: comment lines, then the braced elements, with whitespace
      before and behind the brace. */
  datatype ListText = ListText(comments: seq<CommentLine>, indent: string, inside: string, elements: seq<Element>) {
    predicate Valid() {
      && (forall k :: 0 <= k < |comments| ==> comments[k].Valid())
      && AllSpace(indent) && AllSpace(inside)
      && elements != [] && (forall k :: 0 <= k < |elements| ==> elements[k].Valid())
    }

    function Braces(): string {
      indent + ("{" + (inside + PrintElements(elements)))
    }

    function Print(): string {
      PrintComments(comments) + Braces()
    }
  }

  /** The brace behind the indentation, and the first element behind it. */
  lemma BraceSeen(text: string, at: nat, indent: string, inside: string, body: string, p: nat, q: nat)
    requires AllSpace(indent) && AllSpace(inside) && body != "" && !IsSpace(body[0])
    requires Holds(text, at, indent + ("{" + (inside + body))) && p == at + |indent| && q == p + 1 + |inside|
    ensures SkipSpace(text, at) == p < |text| && text[p] == '{' && SkipSpace(text, p + 1) == q && Holds(text, q, body)
  {
    HoldsParts(text, at, indent, "{" + (inside + body), p);
    HoldsParts(text, p, "{", inside + body, p + 1);
    HoldsParts(text, p + 1, inside, body, q);
    HoldsAt(text, p, "{", 0);
    SpacesPass(text, at, indent);
    HoldsAt(text, q, body, 0);
    SpacesPass(text, p + 1, inside);
  }

  lemma BracedRead(text: string, at: nat, l: ListText)
    requires l.Valid() && Holds(text, at, l.Braces())
    ensures SkipSpace(text, at) == at + |l.indent| < |text| && text[at + |l.indent|] == '{'
    ensures IsFound(Braced(text, at), Strings(l.elements), at + |l.Braces()|)
  {
    var body, p := PrintElements(l.elements), at + |l.indent|;
    assert body[0] == '"';
    BraceSeen(text, at, l.indent, l.inside, body, p, p + 1 + |l.inside|);
    ElementsRead(text, p + 1 + |l.inside|, l.elements);
  }

  /** A comment line is seen as one: skipping whitespace stops at its
      slashes and its newline is the first behind them. */
  lemma CommentSeen(text: string, at: nat, c: CommentLine, p: nat, e: nat)
    requires c.Valid() && Holds(text, at, c.Print()) && p == at + |c.indent| && e == p + 2 + |c.s|
    ensures SkipSpace(text, at) == p && CommentAt(text, p) && NewlineFrom(text, p) == At(e)
  {
    var line := "//" + c.s + "\n";
    assert c.Print() == c.indent + line;
    HoldsParts(text, at, c.indent, line, p);
    HoldsAt(text, p, line, 0);
    HoldsAt(text, p, line, 1);
    HoldsAt(text, p, line, 2 + |c.s|);
    SpacesPass(text, at, c.indent);
    forall k | p <= k < e ensures text[k] != '\n' {
      HoldsAt(text, p, line, k - p);
    }
    FirstNewline(text, p, e);
  }

  lemma CommentSkipped(text: string, at: nat, p: nat, e: nat)
    requires at <= |text| && SkipSpace(text, at) == p && CommentAt(text, p) && NewlineFrom(text, p) == At(e)
    ensures StringList(text, at) == StringList(text, e)
  {
  }

  lemma SpaceSkipped(text: string, e: nat)
    requires e < |text| && IsSpace(text[e])
    ensures StringList(text, e) == StringList(text, e + 1)
  {
    assert SkipSpace(text, e) == SkipSpace(text, e + 1);
  }

  /** A comment at `at`, behind whitespace, ends with the newline before
      `next`. */
  ghost predicate StepsOver(text: string, at: nat, next: nat) {
    && at <= |text| && next >= 1 && CommentAt(text, SkipSpace(text, at))
    && NewlineFrom(text, SkipSpace(text, at)) == At(next - 1)
  }

  /** One round of the comment loop: the scan resumes at the comment's
      newline, which is whitespace to whatever comes next. */
  lemma RoundPassed(text: string, at: nat, next: nat)
    requires StepsOver(text, at, next)
    ensures next <= |text| && StringList(text, at) == StringList(text, next)
  {
    CommentSkipped(text, at, SkipSpace(text, at), next - 1);
    SpaceSkipped(text, next - 1);
  }

  lemma CommentHeld(text: string, at: nat, c: CommentLine, rest: string, next: nat)
    requires c.Valid() && Holds(text, at, c.Print() + rest) && next == at + |c.Print()|
    ensures Holds(text, next, rest) && StepsOver(text, at, next)
  {
    HoldsParts(text, at, c.Print(), rest, next);
    CommentSeen(text, at, c, at + |c.indent|, next - 1);
  }

  /** Comment lines from `at` to `next`. */
  ghost predicate Lines(text: string, at: nat, cs: seq<CommentLine>, next: nat)
    decreases |cs|
  {
    if cs == [] then at == next
    else StepsOver(text, at, at + |cs[0].Print()|) && Lines(text, at + |cs[0].Print()|, cs[1..], next)
  }

  lemma {:induction false} LinesHeld(text: string, at: nat, cs: seq<CommentLine>, more: string, next: nat)
    requires (forall k :: 0 <= k < |cs| ==> cs[k].Valid()) && Holds(text, at, PrintComments(cs) + more)
    requires next == at + |PrintComments(cs)|
    ensures Holds(text, next, more) && Lines(text, at, cs, next)
    decreases |cs|
  {
    if cs == [] {
      assert PrintComments(cs) + more == more;
    } else {
      var c, rest := cs[0], PrintComments(cs[1..]);
      Assoc(c.Print(), rest, more);
      CommentHeld(text, at, c, rest + more, at + |c.Print()|);
      LinesHeld(text, at + |c.Print()|, cs[1..], more, next);
    }
  }

  /** What every round of the comment loop keeps, comment lines keep. */
  lemma {:induction false} LinesKeep(text: string, at: nat, cs: seq<CommentLine>, next: nat, f: nat -> Listing)
    requires at <= |text| && Lines(text, at, cs, next)
    requires forall a: nat, b: nat :: StepsOver(text, a, b) ==> b <= |text| && f(a) == f(b)
    ensures next <= |text| && f(at) == f(next)
    decreases |cs|
  {
    if cs != [] {
      LinesKeep(text, at + |cs[0].Print()|, cs[1..], next, f);
    }
  }

  lemma LinesPassed(text: string, at: nat, cs: seq<CommentLine>, next: nat)
    requires at <= |text| && Lines(text, at, cs, next)
    ensures next <= |text| && StringList(text, at) == StringList(text, next)
  {
    var f := (p: nat) => if p <= |text| then StringList(text, p) else NoList;
    forall a: nat, b: nat | StepsOver(text, a, b) ensures b <= |text| && f(a) == f(b) {
      RoundPassed(text, a, b);
    }
    LinesKeep(text, at, cs, next, f);
  }

  lemma CommentsPassed(text: string, at: nat, cs: seq<CommentLine>, more: string, next: nat)
    requires (forall k :: 0 <= k < |cs| ==> cs[k].Valid()) && Holds(text, at, PrintComments(cs) + more)
    requires next == at + |PrintComments(cs)|
    ensures Holds(text, next, more) && StringList(text, at) == StringList(text, next)
  {
    LinesHeld(text, at, cs, more, next);
    LinesPassed(text, at, cs, next);
  }

  lemma NoCommentThere(text: string, at: nat)
    requires at <= |text| && !CommentAt(text, SkipSpace(text, at))
    ensures StringList(text, at) == Braced(text, at)
  {
  }

  /** `string_list` inverts every layout of a list: comment lines before it,
      whitespace anywhere between tokens, commas present or not. */
  lemma ListRead(text: string, at: nat, l: ListText)
    requires l.Valid() && Holds(text, at, l.Print())
    ensures IsFound(StringList(text, at), Strings(l.elements), at + |l.Print()|)
  {
    var next := at + |PrintComments(l.comments)|;
    CommentsPassed(text, at, l.comments, l.Braces(), next);
    BracedRead(text, next, l);
    NoCommentThere(text, next);
  }

  /** The start of something that is no braced list of strings: not a
      comment, and a brace only if no string opens behind it. */
  predicate NoListAt(rest: string) {
    && rest != "" && !IsSpace(rest[0])
    && (rest[0] == '/' ==> |rest| >= 2 && rest[1] != '/')
    && (rest[0] == '{' ==> SkipSpace(rest, 1) < |rest| && rest[SkipSpace(rest, 1)] != '"')
  }

  /** What stands behind a declaration's first list: a comma and a second
      list, a comma and another argument behind comment lines, or no comma. */
  datatype Tail =
    | Second(gap: string, list: ListText, more: string)
    | Argument(gap: string, comments: seq<CommentLine>, indent: string, rest: string)
    | NoComma(gap: string, rest: string)
  {
    predicate Valid() {
      match this
      case Second(gap, list, more) => AllSpace(gap) && list.Valid()
      case Argument(gap, comments, indent, rest) =>
        AllSpace(gap) && (forall k :: 0 <= k < |comments| ==> comments[k].Valid()) && AllSpace(indent) && NoListAt(rest)
      case NoComma(gap, rest) => AllSpace(gap) && rest != "" && !IsSpace(rest[0]) && rest[0] != ','
    }

    function Print(): string {
      match this
      case Second(gap, list, more) => gap + ("," + (list.Print() + more))
      case Argument(gap, comments, indent, rest) => gap + ("," + (PrintComments(comments) + (indent + rest)))
      case NoComma(gap, rest) => gap + rest
    }

    /** The negated spellings it declares. */
    function Negations(): seq<string> {
      match this
      case Second(_, list, _) => Strings(list.elements)
      case _ => []
    }
  }

  /** A declaration that opens with a list and goes on with any tail yields
      the list's strings, and those of a second list directly behind a comma,
      if there is one. */
  lemma SpellingsRead(text: string, at: nat, first: ListText, tail: Tail)
    requires first.Valid() && tail.Valid() && Holds(text, at, first.Print() + tail.Print())
    ensures at <= |text| && ReadSpellings(text, at) == Declared(Strings(first.elements), tail.Negations())
  {
    var after := at + |first.Print()|;
    HoldsParts(text, at, first.Print(), tail.Print(), after);
    var a := ListReadAs(text, at, first, after);
    TailRead(text, after, a, tail);
  }

  lemma TailRead(text: string, after: nat, first: Listing, tail: Tail)
    requires tail.Valid() && Holds(text, after, tail.Print()) && first.Found? && first.end == after
    ensures first.end <= |text| && AfterFirst(text, first) == Declared(first.strings, tail.Negations())
  {
    match tail
    case Second(gap, list, more) => SecondRead(text, first, gap, list, more);
    case Argument(gap, comments, indent, rest) => ArgumentRead(text, first, gap, comments, indent, rest);
    case NoComma(gap, rest) => FirstSeen(text, after, gap, rest, after + |gap|);
  }

  lemma SecondRead(text: string, first: Listing, gap: string, list: ListText, more: string)
    requires first.Found? && AllSpace(gap) && list.Valid() && Holds(text, first.end, gap + ("," + (list.Print() + more)))
    ensures first.end <= |text| && AfterFirst(text, first) == Declared(first.strings, Strings(list.elements))
  {
    var comma := first.end + |gap|;
    CommaSeen(text, first.end, gap, list.Print() + more, comma);
    var b := ListBefore(text, comma + 1, list, more);
    CommaThen(text, comma, first, b);
  }

  lemma ArgumentRead(text: string, first: Listing, gap: string, comments: seq<CommentLine>, indent: string, rest: string)
    requires first.Found? && Argument(gap, comments, indent, rest).Valid()
    requires Holds(text, first.end, gap + ("," + (PrintComments(comments) + (indent + rest))))
    ensures first.end <= |text| && AfterFirst(text, first) == Declared(first.strings, [])
  {
    var comma := first.end + |gap|;
    var next := comma + 1 + |PrintComments(comments)|;
    CommaSeen(text, first.end, gap, PrintComments(comments) + (indent + rest), comma);
    CommentsPassed(text, comma + 1, comments, indent + rest, next);
    NoListSeen(text, next, indent, rest);
    CommaThen(text, comma, first, NoList);
  }

  lemma CommaThen(text: string, comma: nat, first: Listing, second: Listing)
    requires first.Found? && first.end <= |text| && SkipSpace(text, first.end) == comma < |text| && text[comma] == ','
    requires StringList(text, comma + 1) == second
    ensures AfterFirst(text, first) == WithSecond(first.strings, second)
  {
  }

  lemma FirstSeen(text: string, at: nat, gap: string, rest: string, p: nat)
    requires AllSpace(gap) && rest != "" && !IsSpace(rest[0]) && Holds(text, at, gap + rest) && p == at + |gap|
    ensures SkipSpace(text, at) == p < |text| && text[p] == rest[0]
  {
    HoldsParts(text, at, gap, rest, p);
    HoldsAt(text, p, rest, 0);
    SpacesPass(text, at, gap);
  }

  /** Whitespace is skipped alike in a text and in a string it holds. */
  lemma {:induction false} SkipsAlike(text: string, at: nat, rest: string, i: nat)
    requires Holds(text, at, rest) && i <= |rest| && SkipSpace(rest, i) < |rest|
    ensures SkipSpace(text, at + i) == at + SkipSpace(rest, i)
    decreases |rest| - i
  {
    HoldsAt(text, at, rest, i);
    if IsSpace(rest[i]) {
      SkipsAlike(text, at, rest, i + 1);
    }
  }

  lemma NoListSeen(text: string, at: nat, indent: string, rest: string)
    requires AllSpace(indent) && NoListAt(rest) && Holds(text, at, indent + rest)
    ensures at <= |text| && StringList(text, at) == NoList
  {
    var p := at + |indent|;
    HoldsParts(text, at, indent, rest, p);
    FirstSeen(text, at, indent, rest, p);
    if rest[0] == '/' {
      HoldsAt(text, p, rest, 1);
    }
    NoCommentThere(text, at);
    if rest[0] == '{' {
      var q := SkipSpace(rest, 1);
      SkipsAlike(text, p, rest, 1);
      HoldsAt(text, p, rest, q);
      assert QuotedAt(text, p + q).None?;
    }
  }

  lemma ListBefore(text: string, at: nat, l: ListText, more: string) returns (r: Listing)
    requires l.Valid() && Holds(text, at, l.Print() + more)
    ensures at <= |text| && r == StringList(text, at) && r.Found? && r.strings == Strings(l.elements)
  {
    HoldsParts(text, at, l.Print(), more, at + |l.Print()|);
    r := ListReadAs(text, at, l, at + |l.Print()|);
  }

  lemma ListReadAs(text: string, at: nat, l: ListText, end: nat) returns (r: Listing)
    requires l.Valid() && Holds(text, at, l.Print()) && end == at + |l.Print()|
    ensures at <= |text| && r == StringList(text, at) && r == Found(Strings(l.elements), end)
  {
    ListRead(text, at, l);
    r := StringList(text, at);
  }

  lemma CommaSeen(text: string, after: nat, gap: string, more: string, comma: nat)
    requires AllSpace(gap) && Holds(text, after, gap + ("," + more)) && comma == after + |gap|
    ensures SkipSpace(text, after) == comma < |text| && text[comma] == ',' && Holds(text, comma + 1, more)
  {
    HoldsParts(text, after, gap, "," + more, comma);
    HoldsParts(text, comma, ",", more, comma + 1);
    HoldsAt(text, comma, ",", 0);
    SpacesPass(text, after, gap);
  }
}
