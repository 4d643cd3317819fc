/** What the tokenizer guarantees: longest-match segmentations, lossless
    tokens, and a pair framing that can be taken apart again. */
module WordPieceTheorems {
  import opened Options
  import opened WordPiece

  /* ---- the greedy match ---- */

  /** `cuts` divides the word into longest known pieces, left to right. */
  ghost predicate IsGreedy(tok: map<string, nat>, word: string, cuts: seq<nat>) {
    && cuts != [] && cuts[|cuts| - 1] == |word|
    && (forall k :: 0 <= k < |cuts| ==> cuts[k] <= |word|)
    && forall k :: 0 <= k < |cuts| - 1 ==> IsLongest(tok, word, cuts[k], cuts[k + 1])
  }

  /** `end` closes the longest piece known from `start`. */
  ghost predicate IsLongest(tok: map<string, nat>, word: string, start: nat, end: nat) {
    && start < end <= |word| && Piece(word, start, end) in tok
    && forall e :: end < e <= |word| ==> Piece(word, start, e) !in tok
  }

  ghost function PiecesOf(word: string, cuts: seq<nat>): (r: seq<string>)
    requires forall k :: 0 <= k < |cuts| ==> cuts[k] <= |word|
    requires forall k :: 0 <= k < |cuts| - 1 ==> cuts[k] <= cuts[k + 1]
  {
    seq(if cuts == [] then 0 else |cuts| - 1, k requires 0 <= k < |cuts| - 1 => Piece(word, cuts[k], cuts[k + 1]))
  }

  lemma TailIsGreedy(tok: map<string, nat>, word: string, cuts: seq<nat>)
    requires IsGreedy(tok, word, cuts) && |cuts| > 1
    ensures IsGreedy(tok, word, cuts[1..])
  {
    var rest := cuts[1..];
    forall k | 0 <= k < |rest| - 1 ensures IsLongest(tok, word, rest[k], rest[k + 1]) {
      assert IsLongest(tok, word, cuts[k + 1], cuts[k + 1 + 1]);
    }
  }

  lemma PiecesOfTail(word: string, cuts: seq<nat>)
    requires |cuts| > 1 && (forall k :: 0 <= k < |cuts| ==> cuts[k] <= |word|)
    requires forall k :: 0 <= k < |cuts| - 1 ==> cuts[k] <= cuts[k + 1]
    ensures var rest := cuts[1..];
      && (forall k :: 0 <= k < |rest| - 1 ==> rest[k] <= rest[k + 1])
      && PiecesOf(word, cuts) == [Piece(word, cuts[0], cuts[1])] + PiecesOf(word, rest)
  {
    var rest := cuts[1..];
    forall k | 0 <= k < |rest| - 1 ensures rest[k] <= rest[k + 1] {
      assert cuts[k + 1] <= cuts[k + 1 + 1];
    }
  }

  lemma GreedyAscends(tok: map<string, nat>, word: string, cuts: seq<nat>)
    requires IsGreedy(tok, word, cuts)
    ensures forall k :: 0 <= k < |cuts| - 1 ==> cuts[k] <= cuts[k + 1]
  {
    forall k | 0 <= k < |cuts| - 1 ensures cuts[k] <= cuts[k + 1] {
      assert IsLongest(tok, word, cuts[k], cuts[k + 1]);
    }
  }

  /** From `start`: the matcher succeeds with the pieces of a greedy division
      whenever there is one ... */
  lemma {:induction false} GreedyIsFound(tok: map<string, nat>, word: string, cuts: seq<nat>)
    requires IsGreedy(tok, word, cuts)
    ensures forall k :: 0 <= k < |cuts| - 1 ==> cuts[k] <= cuts[k + 1]
    ensures Segment(tok, word, cuts[0]) == Some(PiecesOf(word, cuts))
    decreases |cuts|
  {
    GreedyAscends(tok, word, cuts);
    if |cuts| > 1 {
      assert IsLongest(tok, word, cuts[0], cuts[0 + 1]);
      assert LongestEnd(tok, word, cuts[0], |word|) == cuts[1];
      TailIsGreedy(tok, word, cuts);
      GreedyIsFound(tok, word, cuts[1..]);
      PiecesOfTail(word, cuts);
      assert cuts[1..][0] == cuts[1];
    } else {
      assert PiecesOf(word, cuts) == [];
    }
  }

  /** ... and only then. */
  lemma {:induction false} FoundIsGreedy(tok: map<string, nat>, word: string, start: nat) returns (cuts: seq<nat>)
    requires start <= |word| && Segment(tok, word, start).Some?
    ensures IsGreedy(tok, word, cuts) && cuts[0] == start
    decreases |word| - start
  {
    if start == |word| {
      cuts := [start];
    } else {
      var end := LongestEnd(tok, word, start, |word|);
      var rest := FoundIsGreedy(tok, word, end);
      cuts := [start] + rest;
      forall k | 0 <= k < |cuts| - 1 ensures IsLongest(tok, word, cuts[k], cuts[k + 1]) {
        if k > 0 { assert IsLongest(tok, word, rest[k - 1], rest[k - 1 + 1]); }
      }
    }
  }

  /** A word has at most one greedy division. */
  lemma {:induction false} GreedyIsUnique(tok: map<string, nat>, word: string, a: seq<nat>, b: seq<nat>)
    requires IsGreedy(tok, word, a) && IsGreedy(tok, word, b) && a[0] == b[0]
    ensures a == b
    decreases |a|
  {
    if a[0] == |word| {
      assert |a| > 1 ==> IsLongest(tok, word, a[0], a[0 + 1]);
      assert |b| > 1 ==> IsLongest(tok, word, b[0], b[0 + 1]);
    } else {
      assert IsLongest(tok, word, a[0], a[0 + 1]) && IsLongest(tok, word, b[0], b[0 + 1]);
      assert a[1] == b[1];
      TailIsGreedy(tok, word, a);
      TailIsGreedy(tok, word, b);
      GreedyIsUnique(tok, word, a[1..], b[1..]);
      assert a == [a[0]] + a[1..] && b == [b[0]] + b[1..];
    }
  }

  /** The tokens of `word` are the pieces between `cuts`. */
  ghost predicate Divides(tok: map<string, nat>, word: string, cuts: seq<nat>) {
    && (forall k :: 0 <= k < |cuts| ==> cuts[k] <= |word|)
    && (forall k :: 0 <= k < |cuts| - 1 ==> cuts[k] <= cuts[k + 1])
    && WordTokens(tok, word) == PiecesOf(word, cuts)
  }

  /** A word is matched exactly when it has a greedy division, and then the
      tokens are that division's pieces; otherwise it is one [UNK]. */
  lemma MatchCharacterised(tok: map<string, nat>, word: string)
    ensures Segment(tok, word, 0).Some? <==> exists cuts :: IsGreedy(tok, word, cuts) && cuts[0] == 0
    ensures forall cuts :: IsGreedy(tok, word, cuts) && cuts[0] == 0 ==> Divides(tok, word, cuts)
    ensures Segment(tok, word, 0).None? ==> WordTokens(tok, word) == ["[UNK]"]
  {
    if Segment(tok, word, 0).Some? {
      var cuts := FoundIsGreedy(tok, word, 0);
    }
    forall cuts | IsGreedy(tok, word, cuts) && cuts[0] == 0
      ensures Segment(tok, word, 0).Some? && Divides(tok, word, cuts)
    {
      GreedyIsFound(tok, word, cuts);
    }
  }

  /** A vocabulary holding every character of a word, bare and as a
      continuation, never falls back. */
  lemma {:induction false} CharactersSuffice(tok: map<string, nat>, word: string, start: nat)
    requires start <= |word|
    requires forall i :: 0 <= i < |word| ==> [word[i]] in tok && "##" + [word[i]] in tok
    ensures Segment(tok, word, start).Some?
    decreases |word| - start
  {
    if start < |word| {
      assert word[start..start + 1] == [word[start]];
      assert Piece(word, start, start + 1) in tok;
      CharactersSuffice(tok, word, LongestEnd(tok, word, start, |word|));
    }
  }

  /* ---- lossless tokens ---- */

  predicate IsContinuation(t: string) {
    |t| >= 2 && t[0] == '#' && t[1] == '#'
  }

  /** The words a token list spells: a continuation extends the word before
      it, [UNK] is a word not known. */
  function Spell(tokens: seq<string>): seq<Option<string>> {
    if tokens == [] then []
    else
      var before, t := Spell(tokens[..|tokens| - 1]), tokens[|tokens| - 1];
      if IsContinuation(t) && before != [] && before[|before| - 1].Some? then
        before[..|before| - 1] + [Some(before[|before| - 1].value + t[2..])]
      else before + [if t == UNK then None else Some(t)]
  }

  /** What a word is worth after tokenizing. */
  function Known(tok: map<string, nat>, word: string): Option<string> {
    if Segment(tok, word, 0).Some? then Some(word) else None
  }

  function AllTokens(tok: map<string, nat>, words: seq<string>): seq<string> {
    if words == [] then []
    else AllTokens(tok, words[..|words| - 1]) + WordTokens(tok, words[|words| - 1])
  }

  /** A first piece never looks like a continuation or a special token. */
  lemma FirstPieceIsPlain(cs: Chars, word: string, end: nat)
    requires cs.Laws() && cs.IsWord(word) && 0 < end <= |word|
    ensures var p := Piece(word, 0, end); !IsContinuation(p) && !(|p| > 1 && p[0] == '[')
  {
    assert word[0..end][0] == word[0];
  }

  /** The pieces from `start` on extend the last word spelled. */
  lemma {:induction false} ContinuationsExtend(tok: map<string, nat>, word: string, start: nat, tokens: seq<string>, before: seq<Option<string>>)
    requires 0 < start <= |word| && Segment(tok, word, start).Some?
    requires Spell(tokens) == before + [Some(word[..start])]
    ensures Spell(tokens + Segment(tok, word, start).value) == before + [Some(word)]
    decreases |word| - start
  {
    if start == |word| {
      assert word[..start] == word && tokens + [] == tokens;
    } else {
      var end := LongestEnd(tok, word, start, |word|);
      var p, rest := Piece(word, start, end), Segment(tok, word, end).value;
      ExtendOnce(tokens, before, word[..start], p);
      PieceExtends(word, start, end);
      ContinuationsExtend(tok, word, end, tokens + [p], before);
      MoveOne(tokens, p, rest);
    }
  }

  lemma PieceExtends(word: string, start: nat, end: nat)
    requires 0 < start < end <= |word|
    ensures IsContinuation(Piece(word, start, end)) && word[..start] + Piece(word, start, end)[2..] == word[..end]
  {
    assert Piece(word, start, end)[2..] == word[start..end];
  }

  lemma MoveOne(tokens: seq<string>, p: string, rest: seq<string>)
    ensures tokens + [p] + rest == tokens + ([p] + rest)
  {
  }

  lemma ExtendOnce(tokens: seq<string>, before: seq<Option<string>>, w: string, p: string)
    requires IsContinuation(p) && Spell(tokens) == before + [Some(w)]
    ensures Spell(tokens + [p]) == before + [Some(w + p[2..])]
  {
    assert (tokens + [p])[..|tokens|] == tokens;
    assert (before + [Some(w)])[..|before|] == before;
  }

  /** The tokens of one word spell that word, or nothing known. */
  lemma WordSpelled(cs: Chars, tok: map<string, nat>, word: string, tokens: seq<string>)
    requires cs.Laws() && cs.IsWord(word)
    ensures Spell(tokens + WordTokens(tok, word)) == Spell(tokens) + [Known(tok, word)]
  {
    if Segment(tok, word, 0).None? {
      assert (tokens + [UNK])[..|tokens|] == tokens;
    } else {
      var end := LongestEnd(tok, word, 0, |word|);
      var p, rest := Piece(word, 0, end), Segment(tok, word, end).value;
      FirstPieceIsPlain(cs, word, end);
      assert (tokens + [p])[..|tokens|] == tokens;
      assert p == word[..end] && p != UNK;
      ContinuationsExtend(tok, word, end, tokens + [p], Spell(tokens));
      MoveOne(tokens, p, rest);
    }
  }

  ghost function AllKnown(tok: map<string, nat>, words: seq<string>): (r: seq<Option<string>>) {
    seq(|words|, k requires 0 <= k < |words| => Known(tok, words[k]))
  }

  lemma {:induction false} AllSpelled(cs: Chars, tok: map<string, nat>, words: seq<string>)
    requires cs.Laws() && cs.AllWords(words)
    ensures Spell(AllTokens(tok, words)) == AllKnown(tok, words)
    decreases |words|
  {
    if words != [] {
      var init, w := words[..|words| - 1], words[|words| - 1];
      AllSpelled(cs, tok, init);
      WordSpelled(cs, tok, w, AllTokens(tok, init));
      AllKnownSnoc(tok, words);
    }
  }

  lemma AllKnownSnoc(tok: map<string, nat>, words: seq<string>)
    requires words != []
    ensures AllKnown(tok, words) == AllKnown(tok, words[..|words| - 1]) + [Known(tok, words[|words| - 1])]
  {
  }

  /** The vocabulary lines a list of ids names. */
  function Detokenize(lines: seq<string>, ids: seq<nat>): (r: seq<string>)
    requires forall k :: 0 <= k < |ids| ==> ids[k] < |lines|
  {
    seq(|ids|, k requires 0 <= k < |ids| => lines[ids[k]])
  }

  lemma DetokenizeConcat(lines: seq<string>, a: seq<nat>, b: seq<nat>)
    requires (forall k :: 0 <= k < |a| ==> a[k] < |lines|) && (forall k :: 0 <= k < |b| ==> b[k] < |lines|)
    ensures Detokenize(lines, a + b) == Detokenize(lines, a) + Detokenize(lines, b)
  {
  }

  /** Every entry's number is the position of a line that holds it. */
  ghost predicate Numbers(tok: map<string, nat>, lines: seq<string>) {
    forall t :: t in tok ==> tok[t] < |lines| && lines[tok[t]] == t
  }

  lemma NumberedWord(tok: map<string, nat>, lines: seq<string>, word: string)
    requires Numbers(tok, lines) && WordIds(tok, word).Ids?
    ensures var ids := WordIds(tok, word).ids;
      (forall k :: 0 <= k < |ids| ==> ids[k] < |lines|) && Detokenize(lines, ids) == WordTokens(tok, word)
  {
  }

  lemma WordIdsName(lines: seq<string>, word: string)
    ensures var tok, r := Load(lines), WordIds(Load(lines), word);
      && (r.KeyError? <==> UNK !in lines && Segment(tok, word, 0).None?)
      && (r.Ids? ==> (forall k :: 0 <= k < |r.ids| ==> r.ids[k] < |lines|)
                     && Detokenize(lines, r.ids) == WordTokens(tok, word))
  {
    if WordIds(Load(lines), word).Ids? {
      NumberedWord(Load(lines), lines, word);
    }
  }

  /** The ids of matched words name exactly their tokens. */
  lemma {:induction false} IdsNameTokens(lines: seq<string>, words: seq<string>)
    requires AllIds(Load(lines), words).Ids?
    ensures var ids := AllIds(Load(lines), words).ids;
      (forall k :: 0 <= k < |ids| ==> ids[k] < |lines|) && Detokenize(lines, ids) == AllTokens(Load(lines), words)
    decreases |words|
  {
    if words != [] {
      var init, w := words[..|words| - 1], words[|words| - 1];
      IdsNameTokens(lines, init);
      WordIdsName(lines, w);
      DetokenizeConcat(lines, AllIds(Load(lines), init).ids, WordIds(Load(lines), w).ids);
    }
  }

  ghost predicate Unmatched(tok: map<string, nat>, words: seq<string>) {
    exists k :: 0 <= k < |words| && Segment(tok, words[k], 0).None?
  }

  lemma {:induction false} IdsFailWithoutUnk(tok: map<string, nat>, words: seq<string>)
    ensures AllIds(tok, words).KeyError? <==> UNK !in tok && Unmatched(tok, words)
    ensures AllIds(tok, words).KeyError? ==> AllIds(tok, words).key == "[UNK]"
    decreases |words|
  {
    if words != [] {
      var n := |words| - 1;
      IdsFailWithoutUnk(tok, words[..n]);
      UnmatchedSnoc(tok, words);
    }
  }

  lemma UnmatchedSnoc(tok: map<string, nat>, words: seq<string>)
    requires words != []
    ensures var n := |words| - 1;
      Unmatched(tok, words) <==> Unmatched(tok, words[..n]) || Segment(tok, words[n], 0).None?
  {
    var n := |words| - 1;
    if Unmatched(tok, words[..n]) {
      var k :| 0 <= k < n && Segment(tok, words[..n][k], 0).None?;
      assert Segment(tok, words[k], 0).None?;
    }
    if Unmatched(tok, words) && Segment(tok, words[n], 0).Some? {
      var k :| 0 <= k < |words| && Segment(tok, words[k], 0).None?;
      assert words[..n][k] == words[k];
    }
  }

  /** The only failure is a word that needs an [UNK] the vocabulary does not
      have. */
  lemma FailsWithoutUnk(lines: seq<string>, words: seq<string>)
    ensures AllIds(Load(lines), words).KeyError? <==> "[UNK]" !in lines && Unmatched(Load(lines), words)
    ensures AllIds(Load(lines), words).KeyError? ==> AllIds(Load(lines), words).key == "[UNK]"
  {
    IdsFailWithoutUnk(Load(lines), words);
  }

  /** Lossless: from the ids alone one reads off how many words the text has
      and, for every word that was matched, the word itself. */
  lemma WordpieceIsLossless(cs: Chars, lines: seq<string>, text: string)
    requires cs.Laws() && Wordpiece(cs, Load(lines), text).Ids?
    ensures var ids := Wordpiece(cs, Load(lines), text).ids;
      && (forall k :: 0 <= k < |ids| ==> ids[k] < |lines|)
      && Spell(Detokenize(lines, ids)) == AllKnown(Load(lines), cs.Split(text))
  {
    cs.SplitGivesWords(text, "");
    IdsNameTokens(lines, cs.Split(text));
    AllSpelled(cs, Load(lines), cs.Split(text));
  }

  /* ---- framing a pair ---- */

  const CLS := "[CLS]"
  const SEP := "[SEP]"

  datatype Framed = Framed(ids: seq<nat>, seg: seq<nat>) | NoKey(key: string)

  /** `score`'s framing: [CLS] a [SEP] b [SEP], and its segment ids. */
  function Frame(cs: Chars, tok: map<string, nat>, query: string, document: string, segmentIds: bool): Framed {
    var a, b := Wordpiece(cs, tok, query), Wordpiece(cs, tok, document);
    if a.KeyError? then NoKey(a.key)
    else if b.KeyError? then NoKey(b.key)
    else if CLS !in tok then NoKey(CLS)
    else if SEP !in tok then NoKey(SEP)
    else
      var ids := [tok[CLS]] + a.ids + [tok[SEP]] + b.ids + [tok[SEP]];
      Framed(ids, if segmentIds then seq(|a.ids| + 2, _ => 0) + seq(|b.ids| + 1, _ => 1) else seq(|ids|, _ => 0))
  }

  ghost predicate IsSpecial(t: string) {
    t == CLS || t == SEP
  }

  lemma {:induction false} PiecesArePlain(cs: Chars, tok: map<string, nat>, word: string, start: nat)
    requires cs.Laws() && cs.IsWord(word) && start <= |word| && Segment(tok, word, start).Some?
    ensures forall k :: 0 <= k < |Segment(tok, word, start).value| ==> !IsSpecial(Segment(tok, word, start).value[k])
    decreases |word| - start
  {
    if start < |word| {
      var end := LongestEnd(tok, word, start, |word|);
      PiecesArePlain(cs, tok, word, end);
      if start == 0 {
        FirstPieceIsPlain(cs, word, end);
      } else {
        assert Piece(word, start, end)[0] == '#';
      }
    }
  }

  lemma {:induction false} TokensArePlain(cs: Chars, tok: map<string, nat>, words: seq<string>)
    requires cs.Laws() && cs.AllWords(words)
    ensures forall t :: t in AllTokens(tok, words) ==> !IsSpecial(t)
    decreases |words|
  {
    if words != [] {
      var w := words[|words| - 1];
      TokensArePlain(cs, tok, words[..|words| - 1]);
      if Segment(tok, w, 0).Some? {
        PiecesArePlain(cs, tok, w, 0);
      } else {
        assert UNK[1] != CLS[1] && UNK[1] != SEP[1];
      }
    }
  }

  /** No text produces the id of [CLS] or [SEP]. */
  lemma TextIdsArePlain(cs: Chars, lines: seq<string>, text: string)
    requires cs.Laws() && "[CLS]" in lines && "[SEP]" in lines && Wordpiece(cs, Load(lines), text).Ids?
    ensures var tok, ids := Load(lines), Wordpiece(cs, Load(lines), text).ids;
            tok["[CLS]"] !in ids && tok["[SEP]"] !in ids && tok["[CLS]"] != tok["[SEP]"]
  {
    var tok, ids := Load(lines), Wordpiece(cs, Load(lines), text).ids;
    var words := cs.Split(text);
    cs.SplitGivesWords(text, "");
    IdsNameTokens(lines, words);
    TokensArePlain(cs, tok, words);
    PlainIds(lines, ids, AllTokens(tok, words), tok[CLS], tok[SEP]);
  }

  lemma PlainIds(lines: seq<string>, ids: seq<nat>, tokens: seq<string>, c: nat, s: nat)
    requires (forall k :: 0 <= k < |ids| ==> ids[k] < |lines|) && Detokenize(lines, ids) == tokens
    requires c < |lines| && lines[c] == CLS && s < |lines| && lines[s] == SEP
    requires forall t :: t in tokens ==> !IsSpecial(t)
    ensures c !in ids && s !in ids && c != s
  {
    forall k | 0 <= k < |ids| ensures ids[k] != c && ids[k] != s {
      assert tokens[k] == lines[ids[k]] && tokens[k] in tokens;
    }
    assert CLS[1] != SEP[1];
  }

  /** The first position of `x`, or the length. */
  function IndexOf(ids: seq<nat>, x: nat): (r: nat)
    ensures r <= |ids| && (r < |ids| ==> ids[r] == x) && forall k :: 0 <= k < r ==> ids[k] != x
  {
    if ids == [] || ids[0] == x then 0 else 1 + IndexOf(ids[1..], x)
  }

  /** Taking a framed sequence apart at its first separator. */
  function Unframe(ids: seq<nat>, sep: nat): (r: (seq<nat>, seq<nat>)) {
    var k := IndexOf(ids, sep);
    if 1 <= k && k + 2 <= |ids| then (ids[1..k], ids[k + 1..|ids| - 1]) else ([], [])
  }

  /** A framed sequence, index by index. */
  lemma FrameShape(c: nat, s: nat, a: seq<nat>, b: seq<nat>, ids: seq<nat>)
    requires ids == [c] + a + [s] + b + [s] && c != s && c !in a && c !in b && s !in a && s !in b
    ensures forall i :: 0 <= i < |ids| ==> (ids[i] == c <==> i == 0)
    ensures forall i :: 0 <= i < |ids| ==> (ids[i] == s <==> i == |a| + 1 || i == |ids| - 1)
    ensures IndexOf(ids, s) == |a| + 1 && Unframe(ids, s) == (a, b)
  {
    var cut := |a| + 1;
    assert ids[0] == c && ids[cut] == s && ids[|ids| - 1] == s;
    forall i | 0 <= i < |ids|
      ensures ids[i] == c <==> i == 0
      ensures ids[i] == s <==> i == cut || i == |ids| - 1
    {
      if 1 <= i < cut { assert ids[i] == a[i - 1] && a[i - 1] in a; }
      if cut < i < |ids| - 1 { assert ids[i] == b[i - cut - 1] && b[i - cut - 1] in b; }
    }
    var k := IndexOf(ids, s);
    assert k == cut;
    assert ids[1..cut] == a && ids[cut + 1..|ids| - 1] == b;
  }

  /** The framing is uniquely decodable: one [CLS] at the front, exactly two
      [SEP], and both texts' ids come back; with segment ids, the segments
      are as long as the ids and flip right after the first [SEP]. */
  lemma FrameIsDecodable(cs: Chars, lines: seq<string>, query: string, document: string, segmentIds: bool)
    requires cs.Laws() && Frame(cs, Load(lines), query, document, segmentIds).Framed?
    ensures var tok, f := Load(lines), Frame(cs, Load(lines), query, document, segmentIds);
      var a, b := Wordpiece(cs, tok, query), Wordpiece(cs, tok, document);
      && a.Ids? && b.Ids? && "[CLS]" in tok && "[SEP]" in tok
      && (forall i :: 0 <= i < |f.ids| ==> (f.ids[i] == tok["[CLS]"] <==> i == 0))
      && (forall i :: 0 <= i < |f.ids| ==> (f.ids[i] == tok["[SEP]"] <==> i == |a.ids| + 1 || i == |f.ids| - 1))
      && Unframe(f.ids, tok["[SEP]"]) == (a.ids, b.ids)
      && |f.seg| == |f.ids|
      && (forall i :: 0 <= i < |f.seg| ==>
            f.seg[i] == (if segmentIds && i > IndexOf(f.ids, tok["[SEP]"]) then 1 else 0))
  {
    var tok, f := Load(lines), Frame(cs, Load(lines), query, document, segmentIds);
    var a, b := Wordpiece(cs, tok, query).ids, Wordpiece(cs, tok, document).ids;
    TextIdsArePlain(cs, lines, query);
    TextIdsArePlain(cs, lines, document);
    FrameShape(tok[CLS], tok[SEP], a, b, f.ids);
  }
}
