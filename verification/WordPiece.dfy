/** The reranker reference's tokenizer: words split on whitespace and
    punctuation, each matched greedily against the vocabulary, longest piece
    first, with `##` continuations and an [UNK] fallback. Text enters already
    lower-cased, decomposed and stripped of combining marks. */
module WordPiece {
  import opened Options

  /** The two character tests of the splitter. */
  datatype Chars = Chars(isSpace: char -> bool, isAlnum: char -> bool) {
    /** What is known of the marks the vocabulary uses. */
    ghost predicate Laws() {
      && !isSpace('#') && !isAlnum('#') && !isSpace('[') && !isAlnum('[')
    }

    predicate WordChar(c: char) {
      !isSpace(c) && (isAlnum(c) || c == '_')
    }

    predicate Punct(c: char) {
      !isSpace(c) && !isAlnum(c) && c != '_'
    }

    /** A run of word characters, or one punctuation character. */
    predicate IsWord(w: string) {
      || (w != "" && forall i :: 0 <= i < |w| ==> WordChar(w[i]))
      || (|w| == 1 && Punct(w[0]))
    }

    /** The words of `text`, with `cur` already read of the first. */
    function SplitFrom(text: string, cur: string): seq<string> {
      if text == "" then Flush(cur)
      else if isSpace(text[0]) then Flush(cur) + SplitFrom(text[1..], "")
      else if Punct(text[0]) then Flush(cur) + ([[text[0]]] + SplitFrom(text[1..], ""))
      else SplitFrom(text[1..], cur + [text[0]])
    }

    static function Flush(cur: string): seq<string> {
      if cur == "" then [] else [cur]
    }

    function Split(text: string): seq<string> {
      SplitFrom(text, "")
    }

    /** The splitting loop. */
    method SplitWords(text: string) returns (words: seq<string>)
      ensures words == Split(text)
    {
      words := [];
      var cur := "";
      for i := 0 to |text|
        invariant words + SplitFrom(text[i..], cur) == Split(text)
      {
        var ch, before := text[i], words;
        assert text[i..][1..] == text[i + 1..];
        if isSpace(ch) {
          if cur != "" {
            words := words + [cur];
          }
          assert before + (Flush(cur) + SplitFrom(text[i + 1..], "")) == words + SplitFrom(text[i + 1..], "");
          cur := "";
        } else if !isAlnum(ch) && ch != '_' {
          if cur != "" {
            words := words + [cur];
          }
          assert before + (Flush(cur) + ([[ch]] + SplitFrom(text[i + 1..], ""))) == words + [[ch]] + SplitFrom(text[i + 1..], "");
          cur := "";
          words := words + [[ch]];
        } else {
          cur := cur + [ch];
        }
      }
      if cur != "" {
        words := words + [cur];
      }
    }

    ghost predicate AllWords(ws: seq<string>) {
      forall k :: 0 <= k < |ws| ==> IsWord(ws[k])
    }

    ghost predicate Run(s: string) {
      forall i :: 0 <= i < |s| ==> WordChar(s[i])
    }

    /** Everything split off is a word. */
    lemma {:induction false} SplitGivesWords(text: string, cur: string)
      requires Run(cur)
      ensures AllWords(SplitFrom(text, cur))
      decreases |text|
    {
      if text != "" {
        if isSpace(text[0]) || Punct(text[0]) {
          SplitGivesWords(text[1..], "");
        } else {
          SplitGivesWords(text[1..], cur + [text[0]]);
        }
      }
    }

    function Unspaced(text: string): string {
      if text == "" then "" else (if isSpace(text[0]) then "" else [text[0]]) + Unspaced(text[1..])
    }

    static function Joined(ws: seq<string>): string {
      if ws == [] then "" else ws[0] + Joined(ws[1..])
    }

    static lemma {:induction false} JoinedSplit(a: seq<string>, b: seq<string>)
      ensures Joined(a + b) == Joined(a) + Joined(b)
      decreases |a|
    {
      if a == [] {
        assert a + b == b;
      } else {
        assert (a + b)[1..] == a[1..] + b;
        JoinedSplit(a[1..], b);
      }
    }

    /** Splitting loses nothing but whitespace. */
    lemma {:induction false} SplitKeepsText(text: string, cur: string)
      ensures Joined(SplitFrom(text, cur)) == cur + Unspaced(text)
      decreases |text|
    {
      assert Joined(Flush(cur)) == cur;
      if text != "" {
        var c, rest := text[0], text[1..];
        if isSpace(c) {
          JoinedSplit(Flush(cur), SplitFrom(rest, ""));
          SplitKeepsText(rest, "");
        } else if Punct(c) {
          JoinedSplit(Flush(cur), [[c]] + SplitFrom(rest, ""));
          JoinedSplit([[c]], SplitFrom(rest, ""));
          assert Joined([[c]]) == [c];
          SplitKeepsText(rest, "");
          assert cur + ([c] + Unspaced(rest)) == cur + Unspaced(text);
        } else {
          SplitKeepsText(rest, cur + [c]);
          assert cur + [c] + Unspaced(rest) == cur + ([c] + Unspaced(rest));
        }
      }
    }

    /** Words, each followed by the same space. */
    static function Spaced(ws: seq<string>, space: char): string {
      if ws == [] then "" else ws[0] + [space] + Spaced(ws[1..], space)
    }

    lemma {:induction false} RunAbsorbed(run: string, cur: string, more: string)
      requires Run(run)
      ensures SplitFrom(run + more, cur) == SplitFrom(more, cur + run)
      decreases |run|
    {
      if run == "" {
        assert run + more == more && cur + run == cur;
      } else {
        assert (run + more)[1..] == run[1..] + more;
        RunAbsorbed(run[1..], cur + [run[0]], more);
        assert cur + [run[0]] + run[1..] == cur + run;
      }
    }

    lemma WordThenSpace(w: string, space: char, rest: string)
      requires IsWord(w) && isSpace(space)
      ensures Split(w + ([space] + rest)) == [w] + Split(rest)
    {
      var tail := [space] + rest;
      assert tail[1..] == rest;
      if Run(w) {
        RunAbsorbed(w, "", tail);
        assert "" + w == w;
      } else {
        assert (w + tail)[1..] == tail && w == [w[0]];
        assert SplitFrom(tail, "") == Flush("") + SplitFrom(rest, "");
      }
    }

    /** Splitting inverts spacing out: any list of words comes back. */
    lemma {:induction false} SplitInvertsSpaced(ws: seq<string>, space: char)
      requires AllWords(ws) && isSpace(space)
      ensures Split(Spaced(ws, space)) == ws
      decreases |ws|
    {
      if ws != [] {
        var rest := Spaced(ws[1..], space);
        WordThenSpace(ws[0], space, rest);
        assert Spaced(ws, space) == ws[0] + ([space] + rest);
        SplitInvertsSpaced(ws[1..], space);
      }
    }
  }

  /* ---- the vocabulary ---- */

  /** `load`'s token map: the position of each line, the last one winning. */
  function Load(lines: seq<string>): (tok: map<string, nat>)
    ensures forall t :: t in tok <==> t in lines
    ensures forall t :: t in tok ==> tok[t] < |lines| && lines[tok[t]] == t
    ensures forall t, k :: t in tok && tok[t] < k < |lines| ==> lines[k] != t
  {
    if lines == [] then map[]
    else
      var n := |lines| - 1;
      assert forall t :: t in lines <==> t in lines[..n] || t == lines[n];
      Load(lines[..n])[lines[n] := n]
  }

  /* ---- greedy matching ---- */

  /** The vocabulary entry that `word[start..end]` has to be. */
  function Piece(word: string, start: nat, end: nat): string
    requires start <= end <= |word|
  {
    if start > 0 then "##" + word[start..end] else word[start..end]
  }

  /** The largest end up to `end` whose piece is known; `start` if none is. */
  function LongestEnd(tok: map<string, nat>, word: string, start: nat, end: nat): (r: nat)
    requires start <= end <= |word|
    ensures start <= r <= end
    ensures r > start ==> Piece(word, start, r) in tok
    ensures forall e :: r < e <= end ==> Piece(word, start, e) !in tok
  {
    if end == start then start
    else if Piece(word, start, end) in tok then end
    else LongestEnd(tok, word, start, end - 1)
  }

  function Segment(tok: map<string, nat>, word: string, start: nat): (r: Option<seq<string>>)
    requires start <= |word|
    ensures r.Some? ==> forall k :: 0 <= k < |r.value| ==> r.value[k] in tok
    ensures r.Some? ==> (r.value == [] <==> start == |word|)
    decreases |word| - start
  {
    if start == |word| then Some([])
    else
      var end := LongestEnd(tok, word, start, |word|);
      if end == start then None
      else
        var rest := Segment(tok, word, end);
        if rest.None? then None else Some([Piece(word, start, end)] + rest.value)
  }

  const UNK := "[UNK]"

  datatype Ids = Ids(ids: seq<nat>) | KeyError(key: string)

  function Lookup(tok: map<string, nat>, pieces: seq<string>): seq<nat>
    requires forall k :: 0 <= k < |pieces| ==> pieces[k] in tok
  {
    seq(|pieces|, k requires 0 <= k < |pieces| => tok[pieces[k]])
  }

  /** The tokens of one word: its segmentation, or one [UNK]. */
  function WordTokens(tok: map<string, nat>, word: string): seq<string> {
    var r := Segment(tok, word, 0);
    if r.Some? then r.value else [UNK]
  }

  function WordIds(tok: map<string, nat>, word: string): Ids {
    var r := Segment(tok, word, 0);
    if r.Some? then Ids(Lookup(tok, r.value))
    else if UNK in tok then Ids([tok[UNK]])
    else KeyError(UNK)
  }

  function AllIds(tok: map<string, nat>, words: seq<string>): Ids {
    if words == [] then Ids([])
    else
      var before := AllIds(tok, words[..|words| - 1]);
      if before.KeyError? then before
      else
        var last := WordIds(tok, words[|words| - 1]);
        if last.KeyError? then last else Ids(before.ids + last.ids)
  }

  /** `wordpiece`, on normalised text. */
  function Wordpiece(cs: Chars, tok: map<string, nat>, text: string): Ids {
    AllIds(tok, cs.Split(text))
  }

  /** The inner loop: the longest known piece from `start`. */
  method LongestPiece(tok: map<string, nat>, word: string, start: nat) returns (hit: Option<string>, end: nat)
    requires start < |word|
    ensures end == LongestEnd(tok, word, start, |word|)
    ensures hit == (if end == start then None else Some(Piece(word, start, end)))
  {
    end, hit := |word|, None;
    while start < end
      invariant start <= end <= |word|
      invariant LongestEnd(tok, word, start, end) == LongestEnd(tok, word, start, |word|)
    {
      var sub := word[start..end];
      if start > 0 {
        sub := "##" + sub;
      }
      if sub in tok {
        return Some(sub), end;
      }
      end := end - 1;
    }
  }

  /** The middle loop: the pieces of one word, or the fallback. */
  method MatchWord(tok: map<string, nat>, word: string) returns (r: Ids)
    ensures r == WordIds(tok, word)
  {
    var start, pieces: seq<string>, ok := 0, [], true;
    ghost var whole := Segment(tok, word, 0);
    assert whole.Some? ==> [] + whole.value == whole.value;
    while start < |word|
      invariant start <= |word| && forall k :: 0 <= k < |pieces| ==> pieces[k] in tok
      invariant var rest := Segment(tok, word, start);
        whole == (if rest.None? then None else Some(pieces + rest.value))
    {
      var hit, end := LongestPiece(tok, word, start);
      if hit.None? {
        ok := false;
        break;
      }
      ghost var rest := Segment(tok, word, end);
      assert rest.Some? ==> pieces + ([hit.value] + rest.value) == pieces + [hit.value] + rest.value;
      pieces := pieces + [hit.value];
      start := end;
    }
    if ok {
      assert pieces + [] == pieces;
      return Ids(Lookup(tok, pieces));
    }
    if UNK in tok {
      return Ids([tok[UNK]]);
    }
    return KeyError(UNK);
  }

  /** `wordpiece`. */
  method RunWordpiece(cs: Chars, tok: map<string, nat>, text: string) returns (r: Ids)
    ensures r == Wordpiece(cs, tok, text)
  {
    var words := cs.SplitWords(text);
    var ids: seq<nat> := [];
    for i := 0 to |words|
      invariant AllIds(tok, words[..i]) == Ids(ids)
    {
      assert words[..i + 1][..i] == words[..i];
      var one := MatchWord(tok, words[i]);
      if one.KeyError? {
        FirstErrorWins(tok, words, i + 1);
        return one;
      }
      ids := ids + one.ids;
    }
    assert words[..|words|] == words;
    return Ids(ids);
  }

  lemma {:induction false} FirstErrorWins(tok: map<string, nat>, words: seq<string>, n: nat)
    requires n <= |words| && AllIds(tok, words[..n]).KeyError?
    ensures AllIds(tok, words) == AllIds(tok, words[..n])
    decreases |words|
  {
    if n == |words| {
      assert words[..n] == words;
    } else {
      var init := words[..|words| - 1];
      assert init[..n] == words[..n];
      FirstErrorWins(tok, init, n);
    }
  }
}
