/** When the splitter does split on punctuation. It keeps `_` inside words, so
    it splits like the plain rule on exactly the texts whose underscores stand
    apart from word characters. */
module PunctuationSplit {
  import opened WordPiece

  /** `_` is a character of its own: not whitespace, not alphanumeric. */
  predicate UnderscoreIsMark(cs: Chars) {
    !cs.isSpace('_') && !cs.isAlnum('_')
  }

  /** A character that is neither whitespace nor alphanumeric. */
  predicate IsMark(cs: Chars, c: char) {
    !cs.isSpace(c) && !cs.isAlnum(c)
  }

  /** The plain rule: every mark is a word of its own. */
  function PlainFrom(cs: Chars, text: string, cur: string): seq<string> {
    if text == "" then Chars.Flush(cur)
    else if cs.isSpace(text[0]) then Chars.Flush(cur) + PlainFrom(cs, text[1..], "")
    else if !cs.isAlnum(text[0]) then Chars.Flush(cur) + ([[text[0]]] + PlainFrom(cs, text[1..], ""))
    else PlainFrom(cs, text[1..], cur + [text[0]])
  }

  function PlainSplit(cs: Chars, text: string): seq<string> {
    PlainFrom(cs, text, "")
  }

  /** No mark shares a word with another character. */
  ghost predicate MarksAlone(cs: Chars, words: seq<string>) {
    forall k, i :: 0 <= k < |words| && 0 <= i < |words[k]| && IsMark(cs, words[k][i]) ==> |words[k]| == 1
  }

  /** No `_` stands next to an alphanumeric character or another `_`. */
  ghost predicate Isolated(cs: Chars, text: string) {
    forall k :: 0 <= k < |text| && text[k] == '_' ==> FreeAt(cs, text, k)
  }

  ghost predicate FreeAt(cs: Chars, text: string, k: nat)
    requires k < |text|
  {
    (k > 0 ==> !cs.WordChar(text[k - 1])) && (k + 1 < |text| ==> !cs.WordChar(text[k + 1]))
  }

  ghost predicate AllAlnum(cs: Chars, s: string) {
    forall i :: 0 <= i < |s| ==> cs.isAlnum(s[i])
  }

  lemma MarksAloneJoin(cs: Chars, a: seq<string>, b: seq<string>)
    requires MarksAlone(cs, a) && MarksAlone(cs, b)
    ensures MarksAlone(cs, a + b)
  {
    var ab := a + b;
    forall k, i | 0 <= k < |ab| && 0 <= i < |ab[k]| && IsMark(cs, ab[k][i]) ensures |ab[k]| == 1 {
      assert ab[k] == if k < |a| then a[k] else b[k - |a|];
    }
  }

  /** The plain rule isolates every mark. */
  lemma {:induction false} PlainIsolates(cs: Chars, text: string, cur: string)
    requires AllAlnum(cs, cur)
    ensures MarksAlone(cs, PlainFrom(cs, text, cur))
    decreases |text|
  {
    assert MarksAlone(cs, Chars.Flush(cur));
    if text != "" {
      var c, rest := text[0], text[1..];
      if cs.isSpace(c) {
        PlainIsolates(cs, rest, "");
        MarksAloneJoin(cs, Chars.Flush(cur), PlainFrom(cs, rest, ""));
      } else if !cs.isAlnum(c) {
        PlainIsolates(cs, rest, "");
        MarksAloneJoin(cs, [[c]], PlainFrom(cs, rest, ""));
        MarksAloneJoin(cs, Chars.Flush(cur), [[c]] + PlainFrom(cs, rest, ""));
      } else {
        PlainIsolates(cs, rest, cur + [c]);
      }
    }
  }

  lemma WordStep(cs: Chars, c: char, rest: string, cur: string)
    requires cs.WordChar(c)
    ensures cs.SplitFrom([c] + rest, cur) == cs.SplitFrom(rest, cur + [c])
  {
    assert ([c] + rest)[1..] == rest;
  }

  /** What was read of a word is the start of the first word split off. */
  lemma {:induction false} FirstWordBegins(cs: Chars, text: string, cur: string)
    requires cur != ""
    ensures var words := cs.SplitFrom(text, cur); words != [] && |cur| <= |words[0]| && words[0][..|cur|] == cur
    decreases |text|
  {
    if text != "" && cs.WordChar(text[0]) {
      FirstWordBegins(cs, text[1..], cur + [text[0]]);
      var w := cs.SplitFrom(text, cur)[0];
      assert w[..|cur|] == w[..|cur| + 1][..|cur|];
    }
  }

  /** Two neighbouring word characters end up in one word. */
  lemma {:induction false} NeighboursShareWord(cs: Chars, text: string, cur: string, k: nat) returns (j: nat)
    requires k + 1 < |text| && cs.WordChar(text[k]) && cs.WordChar(text[k + 1])
    ensures var words := cs.SplitFrom(text, cur);
      j < |words| && |words[j]| >= 2 && text[k] in words[j] && text[k + 1] in words[j]
    decreases |text|
  {
    var c, rest := text[0], text[1..];
    if k == 0 {
      var both := cur + [c] + [rest[0]];
      assert text == [c] + rest && rest == [rest[0]] + rest[1..];
      WordStep(cs, c, rest, cur);
      WordStep(cs, rest[0], rest[1..], cur + [c]);
      FirstWordBegins(cs, rest[1..], both);
      j := 0;
      var w := cs.SplitFrom(text, cur)[0];
      assert w[|cur|] == both[|cur|] && w[|cur| + 1] == both[|cur| + 1];
    } else if cs.WordChar(c) {
      j := NeighboursShareWord(cs, rest, cur + [c], k - 1);
    } else {
      var inner := NeighboursShareWord(cs, rest, "", k - 1);
      j := inner + |Chars.Flush(cur)| + (if cs.isSpace(c) then 0 else 1);
    }
  }

  /** A word ends where no word character follows. */
  lemma WordEnds(cs: Chars, text: string, cur: string)
    requires text == "" || !cs.WordChar(text[0])
    ensures cs.SplitFrom(text, cur) == Chars.Flush(cur) + cs.SplitFrom(text, "")
  {
  }

  lemma IsolatedTail(cs: Chars, text: string)
    requires text != "" && Isolated(cs, text)
    ensures Isolated(cs, text[1..])
  {
    var rest := text[1..];
    forall k | 0 <= k < |rest| && rest[k] == '_' ensures FreeAt(cs, rest, k) {
      assert FreeAt(cs, text, k + 1);
    }
  }

  lemma {:induction false} IsolatedSplitsPlainly(cs: Chars, text: string, cur: string)
    requires UnderscoreIsMark(cs) && Isolated(cs, text) && (cur != "" && text != "" ==> text[0] != '_')
    ensures cs.SplitFrom(text, cur) == PlainFrom(cs, text, cur)
    decreases |text|
  {
    if text != "" {
      var c, rest := text[0], text[1..];
      IsolatedTail(cs, text);
      if c == '_' {
        assert FreeAt(cs, text, 0);
        assert cur + [c] == [c];
        WordEnds(cs, rest, [c]);
        IsolatedSplitsPlainly(cs, rest, "");
      } else if cs.WordChar(c) {
        IsolatedSplitsPlainly(cs, rest, cur + [c]);
      } else {
        IsolatedSplitsPlainly(cs, rest, "");
      }
    }
  }

  lemma AloneMeansIsolated(cs: Chars, text: string)
    requires UnderscoreIsMark(cs) && MarksAlone(cs, cs.Split(text))
    ensures Isolated(cs, text)
  {
    forall k | 0 <= k < |text| && text[k] == '_' ensures FreeAt(cs, text, k) {
      if k > 0 && cs.WordChar(text[k - 1]) {
        var j := NeighboursShareWord(cs, text, "", k - 1);
        MarkInLongWord(cs, cs.Split(text), j);
      }
      if k + 1 < |text| && cs.WordChar(text[k + 1]) {
        var j := NeighboursShareWord(cs, text, "", k);
        MarkInLongWord(cs, cs.Split(text), j);
      }
    }
  }

  lemma MarkInLongWord(cs: Chars, words: seq<string>, j: nat)
    requires UnderscoreIsMark(cs) && j < |words| && |words[j]| >= 2 && '_' in words[j]
    ensures !MarksAlone(cs, words)
  {
    var i :| 0 <= i < |words[j]| && words[j][i] == '_';
    assert IsMark(cs, words[j][i]);
  }

  /** The splitter splits on punctuation, giving every mark a word of its own
      as the plain rule does, if and only if no `_` stands next to an
      alphanumeric character or another `_`. */
  lemma SplitsOnPunctuation(cs: Chars, text: string)
    requires UnderscoreIsMark(cs)
    ensures cs.Split(text) == PlainSplit(cs, text) <==> Isolated(cs, text)
    ensures MarksAlone(cs, cs.Split(text)) <==> Isolated(cs, text)
  {
    PlainIsolates(cs, text, "");
    if Isolated(cs, text) {
      IsolatedSplitsPlainly(cs, text, "");
    }
    if MarksAlone(cs, cs.Split(text)) {
      AloneMeansIsolated(cs, text);
    }
  }

  /** `_` between letters is not split off. */
  lemma UnderscoreJoins(cs: Chars)
    requires UnderscoreIsMark(cs) && (forall c :: c == 'a' || c == 'b' ==> cs.isAlnum(c) && !cs.isSpace(c))
    ensures cs.Split("a_b") == ["a_b"] && PlainSplit(cs, "a_b") == ["a", "_", "b"]
  {
    WordStep(cs, 'a', "_b", "");
    WordStep(cs, '_', "b", "a");
    WordStep(cs, 'b', "", "a_");
    assert ['a'] + "_b" == "a_b" && ['_'] + "b" == "_b" && ['b'] + "" == "b";
    assert "" + ['a'] == "a" && "a" + ['_'] == "a_" && "a_" + ['b'] == "a_b" && "" + ['b'] == "b";
    PlainStep(cs, 'b', "", "");
    PlainMark(cs, '_', "b", "a");
    PlainStep(cs, 'a', "_b", "");
  }

  lemma PlainStep(cs: Chars, c: char, rest: string, cur: string)
    requires !cs.isSpace(c) && cs.isAlnum(c)
    ensures PlainFrom(cs, [c] + rest, cur) == PlainFrom(cs, rest, cur + [c])
  {
    assert ([c] + rest)[1..] == rest;
  }

  lemma PlainMark(cs: Chars, c: char, rest: string, cur: string)
    requires !cs.isSpace(c) && !cs.isAlnum(c)
    ensures PlainFrom(cs, [c] + rest, cur) == Chars.Flush(cur) + ([[c]] + PlainFrom(cs, rest, ""))
  {
    assert ([c] + rest)[1..] == rest;
  }
}
