/** The FXTK files byte by byte, without the codecs: what a zero exit of the
    tokenizer has written, and where an accepted case file keeps its texts. */
module FxtkLayout {
  import opened Sequences
  import opened Fxtk
  import opened LlamaTokenize

  /** The four bytes at `at` spell `v`, the least significant first. */
  ghost predicate LittleEndianAt(blob: seq<Byte>, at: int, v: int) {
    && 0 <= at && at + 4 <= |blob|
    && v == blob[at] as int + 256 * (blob[at + 1] as int) + 65536 * (blob[at + 2] as int) + 16777216 * (blob[at + 3] as int)
  }

  /** The four bytes that spell `v`. */
  ghost function LittleEndian(v: U32): (r: seq<Byte>)
    ensures |r| == 4 && LittleEndianAt(r, 0, v)
  {
    WordSplits(v);
    var r: seq<Byte> :| |r| == 4 && LittleEndianAt(r, 0, v);
    r
  }

  /** The writer's words are little-endian, and so are the reader's. */
  lemma WordsAreLittleEndian(v: U32)
    ensures WriteU32(v) == LittleEndian(v) && ReadU32(LittleEndian(v), 0) == v
  {
    WordUnique(WriteU32(v), LittleEndian(v));
  }

  /** Two's complement. */
  function Unsigned(id: int): U32
    requires -2147483648 <= id < 2147483648
  {
    if id < 0 then id + 4294967296 else id
  }

  ghost function IdBytes(ids: seq<I32>): seq<Byte> {
    if ids == [] then [] else LittleEndian(Unsigned(ids[0])) + IdBytes(ids[1..])
  }

  /** A run: its length and its ids. */
  ghost function RunBytes(ids: seq<I32>): seq<Byte>
    requires |ids| < 4294967296
  {
    LittleEndian(|ids|) + IdBytes(ids)
  }

  lemma {:induction false} IdsAre(ids: seq<I32>)
    ensures EncodeIds(ids) == IdBytes(ids)
  {
    if ids != [] {
      WordsAreLittleEndian(Unsigned(ids[0]));
      IdsAre(ids[1..]);
    }
  }

  lemma RunIs(ids: seq<I32>)
    requires |ids| < 4294967296
    ensures EncodeRun(ids) == RunBytes(ids)
  {
    WordsAreLittleEndian(|ids|);
    IdsAre(ids);
  }

  /** Every text fits: its two answers have at most one id a byte and four. */
  ghost predicate Fits(w: TokenizeWorld, texts: seq<Text>) {
    forall k, special :: 0 <= k < |texts| ==> |w.tokenize(texts[k], special)| <= |texts[k]| + 4 < 0x8000_0000
  }

  /** The runs of the texts from `i` on, in order, parse_special false before
      true. */
  ghost function CaseRuns(w: TokenizeWorld, texts: seq<Text>, i: nat): seq<Byte>
    requires Fits(w, texts) && i <= |texts|
    decreases |texts| - i
  {
    if i == |texts| then []
    else RunBytes(w.tokenize(texts[i], false)) + RunBytes(w.tokenize(texts[i], true)) + CaseRuns(w, texts, i + 1)
  }

  /** What one case puts in the file, whether or not both answers fit. */
  lemma CaseBytesSpelled(w: TokenizeWorld, t: Text, i: nat)
    requires |t| < 0x8000_0000 - 4
    ensures var plain, special := w.tokenize(t, false), w.tokenize(t, true);
      w.CaseBytes(t, i) ==
      if !w.toksMalloc(i) || |plain| > |t| + 4 then []
      else if |special| > |t| + 4 then RunBytes(plain)
      else RunBytes(plain) + RunBytes(special)
  {
    var plain, special := w.tokenize(t, false), w.tokenize(t, true);
    if |plain| <= |t| + 4 {
      RunIs(plain);
    }
    if |special| <= |t| + 4 {
      RunIs(special);
    }
  }

  lemma CaseIs(w: TokenizeWorld, texts: seq<Text>, i: nat)
    requires Fits(w, texts) && i < |texts| && w.Short(texts) && w.CaseFits(texts[i], i)
    ensures w.CaseBytes(texts[i], i) == RunBytes(w.tokenize(texts[i], false)) + RunBytes(w.tokenize(texts[i], true))
  {
    CaseBytesSpelled(w, texts[i], i);
  }

  lemma WrittenNext(w: TokenizeWorld, texts: seq<Text>, i: nat)
    requires i < |texts| && w.Short(texts) && w.CaseFits(texts[i], i)
    ensures w.Written(texts, i) == w.CaseBytes(texts[i], i) + w.Written(texts, i + 1)
  {
  }

  lemma CaseRunsNext(w: TokenizeWorld, texts: seq<Text>, i: nat, both: seq<Byte>)
    requires Fits(w, texts) && i < |texts|
    requires both == RunBytes(w.tokenize(texts[i], false)) + RunBytes(w.tokenize(texts[i], true))
    ensures CaseRuns(w, texts, i) == both + CaseRuns(w, texts, i + 1)
  {
  }

  lemma CaseRunsStep(w: TokenizeWorld, texts: seq<Text>, i: nat, both: seq<Byte>, rest: seq<Byte>)
    requires Fits(w, texts) && i < |texts| && w.Short(texts)
    requires w.Written(texts, i) == both + rest && CaseRuns(w, texts, i) == both + CaseRuns(w, texts, i + 1)
    requires rest == CaseRuns(w, texts, i + 1)
    ensures w.Written(texts, i) == CaseRuns(w, texts, i)
  {
  }

  lemma {:induction false} CaseRunsAre(w: TokenizeWorld, texts: seq<Text>, i: nat)
    requires Fits(w, texts) && i <= |texts| && w.Short(texts) && w.FitUpTo(texts, |texts|)
    ensures w.Written(texts, i) == CaseRuns(w, texts, i)
    decreases |texts| - i
  {
    if i < |texts| {
      CaseRunsAre(w, texts, i + 1);
      CaseWritten(w, texts, i);
    }
  }

  lemma CaseWritten(w: TokenizeWorld, texts: seq<Text>, i: nat)
    requires Fits(w, texts) && i < |texts| && w.Short(texts) && w.FitUpTo(texts, |texts|)
    requires w.Written(texts, i + 1) == CaseRuns(w, texts, i + 1)
    ensures w.Written(texts, i) == CaseRuns(w, texts, i)
  {
    assert w.CaseFits(texts[i], i);
    CaseIs(w, texts, i);
    WrittenNext(w, texts, i);
    CaseRunsNext(w, texts, i, w.CaseBytes(texts[i], i));
    CaseRunsStep(w, texts, i, w.CaseBytes(texts[i], i), w.Written(texts, i + 1));
  }

  /** FXTK, version 2, the flags (1 for add_bos, 2 for add_eos), the
      vocabulary's size, the number of texts. */
  ghost function HeaderBytes(addBos: bool, addEos: bool, nVocab: U32, n: U32): seq<Byte> {
    var magic: seq<Byte> := ['F' as int, 'X' as int, 'T' as int, 'K' as int];
    magic + LittleEndian(2) + LittleEndian((if addBos then 1 else 0) + (if addEos then 2 else 0)) + LittleEndian(nVocab) + LittleEndian(n)
  }

  lemma HeaderIs(addBos: bool, addEos: bool, nVocab: U32, n: U32)
    ensures EncodeHeader(FlagWord(addBos, addEos), nVocab, n) == HeaderBytes(addBos, addEos, nVocab, n)
  {
    WordsAreLittleEndian(2);
    WordsAreLittleEndian(FlagWord(addBos, addEos));
    WordsAreLittleEndian(nVocab);
    WordsAreLittleEndian(n);
  }

  lemma ZeroExitFits(w: TokenizeWorld, blob: seq<Byte>)
    requires |blob| < 0x8000_0000 - 4 && w.Exit(blob) == 0
    ensures Fits(w, CaseTexts(blob)) && w.Short(CaseTexts(blob)) && w.FitUpTo(CaseTexts(blob), |CaseTexts(blob)|)
  {
    var texts := CaseTexts(blob);
    forall k, special | 0 <= k < |texts| ensures |w.tokenize(texts[k], special)| <= |texts[k]| + 4 < 0x8000_0000 {
      assert w.CaseFits(texts[k], k);
    }
  }

  /** After a zero exit the bytes written are the header and both runs of
      every text. */
  lemma ZeroExitBytes(w: TokenizeWorld, blob: seq<Byte>)
    requires |blob| < 0x8000_0000 - 4 && w.Exit(blob) == 0
    ensures Fits(w, CaseTexts(blob))
    ensures w.Output(blob) ==
            HeaderBytes(w.addBos, w.addEos, w.nVocab, |CaseTexts(blob)|) + CaseRuns(w, CaseTexts(blob), 0)
  {
    ZeroExitFits(w, blob);
    CaseRunsAre(w, CaseTexts(blob), 0);
    HeaderIs(w.addBos, w.addEos, w.nVocab, |CaseTexts(blob)|);
  }

  /** Where the spans of a case file are: the first length is at 8, each text
      is right behind its length, each length right behind the text before
      it. */
  ghost predicate IsChain(blob: seq<Byte>, at: nat, spans: seq<Span>) {
    forall k :: 0 <= k < |spans| ==>
      && spans[k].offset == (if k == 0 then at else spans[k - 1].offset + spans[k - 1].length) + 4
      && spans[k].offset + spans[k].length <= |blob|
      && LittleEndianAt(blob, spans[k].offset - 4, spans[k].length)
  }

  lemma {:induction false} ScanIsChain(blob: seq<Byte>, at: nat, i: nat, n: nat)
    requires i <= n && at <= |blob| && Scan(blob, at, i, n).Cases?
    ensures |Scan(blob, at, i, n).spans| == n - i && IsChain(blob, at, Scan(blob, at, i, n).spans)
    decreases n - i
  {
    if i < n {
      var len: nat := ReadU32(blob, at);
      var next := at + 4 + len;
      ScanIsChain(blob, next, i + 1, n);
      ScanNext(blob, at, i, n, len, next);
      ChainCons(blob, at, Span(at + 4, len), Scan(blob, next, i + 1, n).spans);
    }
  }

  lemma ChainCons(blob: seq<Byte>, at: nat, s: Span, rest: seq<Span>)
    requires s.offset == at + 4 && s.offset + s.length <= |blob| && LittleEndianAt(blob, at, s.length)
    requires IsChain(blob, s.offset + s.length, rest)
    ensures IsChain(blob, at, [s] + rest)
  {
    var all := [s] + rest;
    forall k | 0 <= k < |all|
      ensures all[k].offset == (if k == 0 then at else all[k - 1].offset + all[k - 1].length) + 4
      ensures all[k].offset + all[k].length <= |blob| && LittleEndianAt(blob, all[k].offset - 4, all[k].length)
    {
      if k > 0 {
        assert all[k] == rest[k - 1];
        assert k > 1 ==> all[k - 1] == rest[k - 2];
      }
    }
  }

  /** An accepted case file starts with FXTK and its number of texts, and
      holds that many chained spans. */
  lemma AcceptedLayout(blob: seq<Byte>)
    requires ParseCases(blob).Cases?
    ensures |blob| >= 8 && blob[..4] == ['F' as int, 'X' as int, 'T' as int, 'K' as int]
    ensures LittleEndianAt(blob, 4, |ParseCases(blob).spans|) && IsChain(blob, 8, ParseCases(blob).spans)
  {
    ScanIsChain(blob, 8, 0, ReadU32(blob, 4));
  }
}
