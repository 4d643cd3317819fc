/** The FXTK wire format: little-endian words, length-prefixed cases in,
    length-prefixed id runs out. */
module Fxtk {
  import opened Sequences

  type Byte = b: int | 0 <= b < 256
  type U32 = v: int | 0 <= v < 0x1_0000_0000
  type I32 = v: int | -0x8000_0000 <= v < 0x8000_0000

  const MAGIC: seq<Byte> := [70, 88, 84, 75]
  const VERSION: U32 := 2

  /* ---- words ---- */

  function Word(a: int, b: int, c: int, d: int): int {
    a + 0x100 * b + 0x1_0000 * c + 0x100_0000 * d
  }

  /** `rd_u32`. */
  function ReadU32(bs: seq<Byte>, at: nat): U32
    requires at + 4 <= |bs|
  {
    Word(bs[at], bs[at + 1], bs[at + 2], bs[at + 3])
  }

  predicate IsWord(r: seq<Byte>, v: int) {
    |r| == 4 && Word(r[0], r[1], r[2], r[3]) == v
  }

  /** The four bytes of a word, least significant first. */
  ghost function WriteU32(v: U32): (r: seq<Byte>)
    ensures IsWord(r, v)
  {
    WordSplits(v);
    var r: seq<Byte> :| IsWord(r, v);
    r
  }

  /** `wr_u32`: shift and mask. */
  method WrU32(v: U32) returns (r: seq<Byte>)
    ensures r == WriteU32(v)
  {
    r := [v % 0x100, v / 0x100 % 0x100, v / 0x1_0000 % 0x100, v / 0x100_0000 % 0x100];
    WordSplits(v);
    WordUnique(r, WriteU32(v));
  }

  /** The cast of a signed word to an unsigned one. */
  function ToUnsigned(v: I32): U32 {
    if v < 0 then v + 0x1_0000_0000 else v
  }

  function ToSigned(v: U32): I32 {
    if v >= 0x8000_0000 then v - 0x1_0000_0000 else v
  }

  /** What `wr_i32` writes, through the unsigned writer. */
  ghost function WriteI32(v: I32): (r: seq<Byte>)
    ensures |r| == 4
  {
    WriteU32(ToUnsigned(v))
  }

  lemma NestedShift(v: nat)
    ensures v / 0x1_0000 == v / 0x100 / 0x100
    ensures v / 0x100_0000 == v / 0x100 / 0x100 / 0x100
  {
  }

  lemma Shift(v: nat)
    ensures v == v % 0x100 + 0x100 * (v / 0x100)
  {
  }

  lemma WordSplits(v: U32)
    ensures IsWord([v % 0x100, v / 0x100 % 0x100, v / 0x1_0000 % 0x100, v / 0x100_0000 % 0x100], v)
  {
    NestedShift(v);
    var x: nat := v / 0x100;
    var y: nat := x / 0x100;
    var z: nat := y / 0x100;
    Shift(v);
    Shift(x);
    Shift(y);
    assert z < 0x100;
  }

  lemma LowDigit(a: Byte, a': Byte, x: int, x': int)
    requires a + 0x100 * x == a' + 0x100 * x'
    ensures a == a' && x == x'
  {
  }

  /** A word has one spelling. */
  lemma WordUnique(r: seq<Byte>, s: seq<Byte>)
    requires |r| == |s| == 4 && Word(r[0], r[1], r[2], r[3]) == Word(s[0], s[1], s[2], s[3])
    ensures r == s
  {
    LowDigit(r[0], s[0], Word(r[1], r[2], r[3], 0), Word(s[1], s[2], s[3], 0));
    LowDigit(r[1], s[1], Word(r[2], r[3], 0, 0), Word(s[2], s[3], 0, 0));
    LowDigit(r[2], s[2], r[3], s[3]);
  }

  /** Reading undoes writing, at any place in a buffer. */
  lemma ReadWritten(before: seq<Byte>, v: U32, after: seq<Byte>)
    ensures ReadU32(before + WriteU32(v) + after, |before|) == v
  {
    var bs, w := before + WriteU32(v) + after, WriteU32(v);
    assert bs[|before|] == w[0] && bs[|before| + 1] == w[1] && bs[|before| + 2] == w[2] && bs[|before| + 3] == w[3];
  }

  /** ... and writing undoes reading. */
  lemma WriteRead(bs: seq<Byte>, at: nat)
    requires at + 4 <= |bs|
    ensures WriteU32(ReadU32(bs, at)) == bs[at..at + 4]
  {
    WordUnique(WriteU32(ReadU32(bs, at)), bs[at..at + 4]);
  }

  lemma SliceJoin(bs: seq<Byte>, a: nat, b: nat, c: nat)
    requires a <= b <= c <= |bs|
    ensures bs[a..c] == bs[a..b] + bs[b..c]
  {
  }

  /** Taking a first part off what a buffer holds from `at` on. */
  lemma Advance(bs: seq<Byte>, at: nat, a: seq<Byte>, rest: seq<Byte>, next: nat)
    requires at <= |bs| && bs[at..] == a + rest && next == at + |a|
    ensures next <= |bs| && bs[at..next] == a && bs[next..] == rest
  {
    assert bs[at..next] == bs[at..][..|a|];
    assert bs[next..] == bs[at..][|a|..];
  }

  lemma WordAt(bs: seq<Byte>, at: nat, v: U32, rest: seq<Byte>, next: nat)
    requires at <= |bs| && bs[at..] == WriteU32(v) + rest && next == at + 4
    ensures next <= |bs| && ReadU32(bs, at) == v && bs[next..] == rest
  {
    Advance(bs, at, WriteU32(v), rest, next);
    var w := WriteU32(v);
    forall k | 0 <= k < 4 ensures bs[at + k] == w[k] {
      assert bs[at..next][k] == bs[at + k];
    }
  }

  /** Signed ids survive the unsigned writer. */
  lemma SignedAt(bs: seq<Byte>, at: nat, v: I32, rest: seq<Byte>, next: nat)
    requires at <= |bs| && bs[at..] == WriteI32(v) + rest && next == at + 4
    ensures next <= |bs| && ToSigned(ReadU32(bs, at)) == v && bs[next..] == rest
  {
    WordAt(bs, at, ToUnsigned(v), rest, next);
  }

  /* ---- case files ---- */

  /** A text as a case file can hold it. */
  type Text = t: seq<Byte> | |t| < 0x1_0000_0000

  datatype Span = Span(offset: nat, length: nat)

  datatype Parsed = Cases(spans: seq<Span>) | NotFxtk | LengthTruncated(i: nat) | BodyTruncated(i: nat)

  ghost function EncodeTexts(texts: seq<Text>): seq<Byte> {
    if texts == [] then [] else WriteU32(|texts[0]|) + texts[0] + EncodeTexts(texts[1..])
  }

  ghost function EncodeCases(texts: seq<Text>): seq<Byte>
    requires |texts| < 0x1_0000_0000
  {
    MAGIC + WriteU32(|texts|) + EncodeTexts(texts)
  }

  /** The validating pass from case `i` of `n`, cursor at `at`. */
  function Scan(blob: seq<Byte>, at: nat, i: nat, n: nat): (r: Parsed)
    requires i <= n && at <= |blob|
    ensures r.Cases? ==> |r.spans| == n - i
    ensures !r.NotFxtk?
    decreases n - i
  {
    if i == n then Cases([])
    else if at + 4 > |blob| then LengthTruncated(i)
    else
      var len := ReadU32(blob, at);
      if at + 4 + len > |blob| then BodyTruncated(i)
      else
        var rest := Scan(blob, at + 4 + len, i + 1, n);
        if rest.Cases? then Cases([Span(at + 4, len)] + rest.spans) else rest
  }

  /** One case of a scan: what it adds to the cases behind it. */
  lemma ScanNext(blob: seq<Byte>, at: nat, i: nat, n: nat, len: nat, next: nat)
    requires i < n && next == at + 4 + len && next <= |blob| && ReadU32(blob, at) == len
    ensures var here, rest := Scan(blob, at, i, n), Scan(blob, next, i + 1, n);
      (here.Cases? <==> rest.Cases?) && (here.Cases? ==> here.spans == [Span(at + 4, len)] + rest.spans)
  {
  }

  lemma HeadOfTail(spans: seq<Span>, i: nat, s: Span, rest: seq<Span>)
    requires i <= |spans| && spans[i..] == [s] + rest
    ensures i < |spans| && spans[i] == s && spans[i + 1..] == rest
  {
    assert spans[i..][0] == s && spans[i..][1..] == rest;
  }

  function ParseCases(blob: seq<Byte>): Parsed {
    if |blob| < 8 || blob[..4] != MAGIC then NotFxtk
    else Scan(blob, 8, 0, ReadU32(blob, 4))
  }

  predicate InBlob(blob: seq<Byte>, s: Span) {
    s.offset + s.length <= |blob|
  }

  function Slice(blob: seq<Byte>, s: Span): seq<Byte>
    requires InBlob(blob, s)
  {
    blob[s.offset..s.offset + s.length]
  }

  ghost predicate AllInBlob(blob: seq<Byte>, spans: seq<Span>) {
    forall k :: 0 <= k < |spans| ==> InBlob(blob, spans[k]) && spans[k].length < 0x1_0000_0000
  }

  ghost function Texts(blob: seq<Byte>, spans: seq<Span>): (r: seq<Text>)
    requires AllInBlob(blob, spans)
  {
    seq(|spans|, k requires 0 <= k < |spans| => Slice(blob, spans[k]))
  }

  /** An accepted scan slices out texts whose encoding is what it consumed,
      and its cursor stayed within the blob. */
  lemma {:induction false} ScanIsCanonical(blob: seq<Byte>, at: nat, i: nat, n: nat) returns (end: nat)
    requires i <= n && at <= |blob| && Scan(blob, at, i, n).Cases?
    ensures var spans := Scan(blob, at, i, n).spans;
      AllInBlob(blob, spans) && at <= end <= |blob| && EncodeTexts(Texts(blob, spans)) == blob[at..end]
    decreases n - i
  {
    if i == n {
      end := at;
    } else {
      var len := ReadU32(blob, at);
      var body := at + 4;
      var next := body + len;
      end := ScanIsCanonical(blob, next, i + 1, n);
      var rest := Scan(blob, next, i + 1, n).spans;
      TextsCons(blob, Span(body, len), rest);
      var texts := Texts(blob, [Span(body, len)] + rest);
      assert texts[1..] == Texts(blob, rest);
      WriteRead(blob, at);
      SliceJoin(blob, at, body, next);
      SliceJoin(blob, at, next, end);
    }
  }

  /** Slicing a cons of spans. */
  lemma TextsCons(blob: seq<Byte>, s: Span, rest: seq<Span>)
    requires AllInBlob(blob, rest) && InBlob(blob, s) && s.length < 0x1_0000_0000
    ensures AllInBlob(blob, [s] + rest) && Texts(blob, [s] + rest) == [Slice(blob, s)] + Texts(blob, rest)
  {
    var spans := [s] + rest;
    forall k | 0 <= k < |spans| ensures InBlob(blob, spans[k]) && spans[k].length < 0x1_0000_0000 {
      if k > 0 { assert spans[k] == rest[k - 1]; }
    }
  }

  lemma ScanExtends(blob: seq<Byte>, at: nat, i: nat, n: nat, t: Text, rest: seq<Text>, next: nat)
    requires i < n && next == at + 4 + |t| && next <= |blob| && ReadU32(blob, at) == |t| && blob[at + 4..next] == t
    requires var r := Scan(blob, next, i + 1, n); r.Cases? && AllInBlob(blob, r.spans) && Texts(blob, r.spans) == rest
    ensures var r := Scan(blob, at, i, n); r.Cases? && AllInBlob(blob, r.spans) && Texts(blob, r.spans) == [t] + rest
  {
    ScanNext(blob, at, i, n, |t|, next);
    TextsCons(blob, Span(at + 4, |t|), Scan(blob, next, i + 1, n).spans);
  }

  /** Scanning an encoding slices out exactly the texts encoded. */
  lemma {:induction false} ScanEncoded(blob: seq<Byte>, at: nat, texts: seq<Text>, after: seq<Byte>, i: nat, n: nat)
    requires i + |texts| == n && at <= |blob| && blob[at..] == EncodeTexts(texts) + after
    ensures var r := Scan(blob, at, i, n);
      r.Cases? && AllInBlob(blob, r.spans) && Texts(blob, r.spans) == texts
    decreases |texts|
  {
    if texts != [] {
      var t, rest := texts[0], EncodeTexts(texts[1..]) + after;
      var next := at + 4 + |t|;
      TextSeen(blob, at, t, EncodeTexts(texts[1..]), after, next);
      ScanEncoded(blob, next, texts[1..], after, i + 1, n);
      ScanExtends(blob, at, i, n, t, texts[1..], next);
      assert [t] + texts[1..] == texts;
    }
  }

  lemma TextSeen(blob: seq<Byte>, at: nat, t: Text, e: seq<Byte>, after: seq<Byte>, next: nat)
    requires at <= |blob| && blob[at..] == WriteU32(|t|) + t + e + after && next == at + 4 + |t|
    ensures next <= |blob| && ReadU32(blob, at) == |t| && blob[at + 4..next] == t && blob[next..] == e + after
  {
    Assoc(WriteU32(|t|) + t, e, after);
    Assoc(WriteU32(|t|), t, e + after);
    WordAt(blob, at, |t|, t + (e + after), at + 4);
    Advance(blob, at + 4, t, e + after, next);
  }

  /** Parsing is exact: an encoding followed by any bytes gives back the
      texts encoded. */
  lemma ParseInvertsEncode(texts: seq<Text>, after: seq<Byte>)
    requires |texts| < 0x1_0000_0000
    ensures var blob := EncodeCases(texts) + after;
      var r := ParseCases(blob);
      r.Cases? && AllInBlob(blob, r.spans) && Texts(blob, r.spans) == texts
  {
    var blob := EncodeCases(texts) + after;
    var rest := EncodeTexts(texts) + after;
    CasesSplit(texts, after);
    Advance(blob, 0, MAGIC, WriteU32(|texts|) + rest, 4);
    WordAt(blob, 4, |texts|, rest, 8);
    ScanEncoded(blob, 8, texts, after, 0, |texts|);
    assert blob[..4] == blob[0..4];
  }

  lemma CasesSplit(texts: seq<Text>, after: seq<Byte>)
    requires |texts| < 0x1_0000_0000
    ensures (EncodeCases(texts) + after)[0..] == MAGIC + (WriteU32(|texts|) + (EncodeTexts(texts) + after))
  {
    var w := WriteU32(|texts|);
    Assoc(MAGIC + w, EncodeTexts(texts), after);
    Assoc(MAGIC, w, EncodeTexts(texts) + after);
  }

  /** An accepted blob re-encodes to its own consumed prefix. */
  lemma AcceptedIsEncoding(blob: seq<Byte>) returns (end: nat)
    requires ParseCases(blob).Cases?
    ensures var spans := ParseCases(blob).spans;
      && AllInBlob(blob, spans) && |spans| < 0x1_0000_0000 && 8 <= end <= |blob|
      && EncodeCases(Texts(blob, spans)) == blob[..end]
  {
    var spans := ParseCases(blob).spans;
    end := ScanIsCanonical(blob, 8, 0, ReadU32(blob, 4));
    WriteRead(blob, 4);
    SliceJoin(blob, 0, 4, 8);
    SliceJoin(blob, 0, 8, end);
    assert blob[..end] == blob[0..end] && blob[..4] == blob[0..4];
  }

  lemma AcceptedInBlob(blob: seq<Byte>)
    requires ParseCases(blob).Cases?
    ensures AllInBlob(blob, ParseCases(blob).spans) && |ParseCases(blob).spans| < 0x1_0000_0000
  {
    var end := AcceptedIsEncoding(blob);
  }

  /** Every proper prefix of an encoding is rejected. */
  lemma ProperPrefixRejected(texts: seq<Text>, m: nat)
    requires |texts| < 0x1_0000_0000 && m < |EncodeCases(texts)|
    ensures !ParseCases(EncodeCases(texts)[..m]).Cases?
  {
    var whole := EncodeCases(texts);
    if ParseCases(whole[..m]).Cases? {
      var end := AcceptedIsEncoding(whole[..m]);
      var shorter := Texts(whole[..m], ParseCases(whole[..m]).spans);
      assert whole[..m][..end] == whole[..end];
      PrefixFree(shorter, texts, whole[end..]);
    }
  }

  /** No case file is a proper prefix of another. */
  lemma PrefixFree(shorter: seq<Text>, texts: seq<Text>, more: seq<Byte>)
    requires |shorter| < 0x1_0000_0000 && |texts| < 0x1_0000_0000
    requires EncodeCases(texts) == EncodeCases(shorter) + more
    ensures more == []
  {
    ParseInvertsEncode(shorter, more);
    ParseInvertsEncode(texts, []);
    assert EncodeCases(texts) + [] == EncodeCases(texts);
  }

  /* ---- result files ---- */

  /** A case's ids under parse_special false and true. */
  datatype TwoRuns = TwoRuns(plain: seq<I32>, special: seq<I32>)

  datatype Result = Result(flags: U32, nVocab: U32, cases: seq<TwoRuns>)

  ghost function EncodeIds(ids: seq<I32>): (r: seq<Byte>)
    ensures |r| == 4 * |ids|
  {
    if ids == [] then [] else WriteI32(ids[0]) + EncodeIds(ids[1..])
  }

  ghost function EncodeRun(ids: seq<I32>): seq<Byte>
    requires |ids| < 0x1_0000_0000
  {
    WriteU32(|ids|) + EncodeIds(ids)
  }

  predicate Encodable(c: TwoRuns) {
    |c.plain| < 0x1_0000_0000 && |c.special| < 0x1_0000_0000
  }

  ghost function EncodeTwoRuns(c: TwoRuns): seq<Byte>
    requires Encodable(c)
  {
    EncodeRun(c.plain) + EncodeRun(c.special)
  }

  ghost function EncodeAll(cases: seq<TwoRuns>): seq<Byte>
    requires forall k :: 0 <= k < |cases| ==> Encodable(cases[k])
  {
    if cases == [] then [] else EncodeTwoRuns(cases[0]) + EncodeAll(cases[1..])
  }

  ghost function EncodeHeader(flags: U32, nVocab: U32, nCases: U32): (r: seq<Byte>)
    ensures |r| == 20
  {
    MAGIC + WriteU32(VERSION) + WriteU32(flags) + WriteU32(nVocab) + WriteU32(nCases)
  }

  predicate ValidResult(r: Result) {
    |r.cases| < 0x1_0000_0000 && forall k :: 0 <= k < |r.cases| ==> Encodable(r.cases[k])
  }

  /** The whole result file. */
  ghost function EncodeResult(r: Result): seq<Byte>
    requires ValidResult(r)
  {
    EncodeHeader(r.flags, r.nVocab, |r.cases|) + EncodeAll(r.cases)
  }

  /* ---- the reader on the other side ---- */

  datatype ReadError = Foreign | WrongVersion(version: U32) | Truncated | TooManyIds(i: nat) | NegativeId(i: nat) | Trailing

  datatype Read<T> = Got(value: T, next: nat) | Bad(error: ReadError)

  /** The ids of one run; a negative id is refused. */
  function ReadIds(bs: seq<Byte>, at: nat, n: nat, i: nat): (r: Read<seq<I32>>)
    requires at + 4 * n <= |bs|
    ensures r.Got? ==> r.next == at + 4 * n && |r.value| == n
    decreases n
  {
    if n == 0 then Got([], at)
    else
      var id := ToSigned(ReadU32(bs, at));
      if id < 0 then Bad(NegativeId(i))
      else
        var rest := ReadIds(bs, at + 4, n - 1, i);
        if rest.Got? then Got([id] + rest.value, rest.next) else rest
  }

  function ReadRun(bs: seq<Byte>, at: nat, i: nat): (r: Read<seq<I32>>)
    requires at <= |bs|
    ensures r.Got? ==> at + 4 <= r.next <= |bs| && |r.value| < 0x1_0000_0000
  {
    if at + 4 > |bs| then Bad(Truncated)
    else
      var n := ReadU32(bs, at);
      if n > (|bs| - (at + 4)) / 4 then Bad(TooManyIds(i))
      else ReadIds(bs, at + 4, n, i)
  }

  function ReadTwoRuns(bs: seq<Byte>, at: nat, i: nat): (r: Read<TwoRuns>)
    requires at <= |bs|
    ensures r.Got? ==> at < r.next <= |bs| && Encodable(r.value)
  {
    var plain := ReadRun(bs, at, i);
    if plain.Bad? then Bad(plain.error)
    else
      var special := ReadRun(bs, plain.next, i);
      if special.Bad? then Bad(special.error)
      else Got(TwoRuns(plain.value, special.value), special.next)
  }

  /** Cases `i` to `n`, which must end the file. */
  function ReadCases(bs: seq<Byte>, at: nat, i: nat, n: nat): (r: Read<seq<TwoRuns>>)
    requires i <= n && at <= |bs|
    ensures r.Got? ==> |r.value| == n - i && forall k :: 0 <= k < |r.value| ==> Encodable(r.value[k])
    decreases n - i
  {
    if i == n then if at == |bs| then Got([], at) else Bad(Trailing)
    else
      var first := ReadTwoRuns(bs, at, i);
      if first.Bad? then Bad(first.error)
      else
        var rest := ReadCases(bs, first.next, i + 1, n);
        if rest.Got? then Got([first.value] + rest.value, rest.next) else rest
  }

  /** The fields of a result file, word for word. */
  function ReadResult(bs: seq<Byte>): (r: Read<Result>)
    ensures r.Got? ==> ValidResult(r.value)
  {
    if |bs| < 4 || bs[..4] != MAGIC then Bad(Foreign)
    else if |bs| < 8 then Bad(Truncated)
    else if ReadU32(bs, 4) != 2 then Bad(WrongVersion(ReadU32(bs, 4)))
    else if |bs| < 20 then Bad(Truncated)
    else
      var cases := ReadCases(bs, 20, 0, ReadU32(bs, 16));
      if cases.Bad? then Bad(cases.error)
      else Got(Result(ReadU32(bs, 8), ReadU32(bs, 12), cases.value), |bs|)
  }

  /** What the reader keeps: of the flag word, its two low bits. */
  datatype Reference = Reference(addBos: bool, addEos: bool, nVocab: U32, cases: seq<TwoRuns>)

  function ReferenceOf(r: Result): Reference {
    Reference(r.flags % 2 == 1, r.flags / 2 % 2 == 1, r.nVocab, r.cases)
  }

  /** The flag word the two bits stand for. */
  function FlagWord(addBos: bool, addEos: bool): (v: U32)
    ensures v < 4
  {
    (if addBos then 1 else 0) + (if addEos then 2 else 0)
  }

  function ResultOf(r: Reference): Result {
    Result(FlagWord(r.addBos, r.addEos), r.nVocab, r.cases)
  }

  /** `parse_result`. */
  function ParseResult(bs: seq<Byte>): (r: Read<Reference>)
    ensures r.Got? ==> ValidResult(ResultOf(r.value))
  {
    match ReadResult(bs)
    case Bad(e) => Bad(e)
    case Got(r, next) => Got(ReferenceOf(r), next)
  }

  predicate NonNegative(ids: seq<I32>) {
    forall k :: 0 <= k < |ids| ==> ids[k] >= 0
  }

  ghost predicate NonNegativeResult(r: Result) {
    forall k :: 0 <= k < |r.cases| ==> NonNegative(r.cases[k].plain) && NonNegative(r.cases[k].special)
  }

  lemma {:induction false} IdsRead(bs: seq<Byte>, at: nat, ids: seq<I32>, after: seq<Byte>, i: nat, next: nat)
    requires at <= |bs| && bs[at..] == EncodeIds(ids) + after && next == at + 4 * |ids|
    ensures next <= |bs| && bs[next..] == after
    ensures ReadIds(bs, at, |ids|, i) == (if NonNegative(ids) then Got(ids, next) else Bad(NegativeId(i)))
    decreases |ids|
  {
    if ids != [] {
      var rest := EncodeIds(ids[1..]) + after;
      assert EncodeIds(ids) + after == WriteI32(ids[0]) + rest;
      SignedAt(bs, at, ids[0], rest, at + 4);
      IdsRead(bs, at + 4, ids[1..], after, i, next);
      NonNegativeCons(ids);
    } else {
      assert EncodeIds(ids) + after == after;
    }
  }

  lemma NonNegativeCons(ids: seq<I32>)
    requires ids != []
    ensures NonNegative(ids) <==> ids[0] >= 0 && NonNegative(ids[1..])
    ensures [ids[0]] + ids[1..] == ids
  {
    if ids[0] >= 0 && NonNegative(ids[1..]) {
      forall k | 0 <= k < |ids| ensures ids[k] >= 0 { if k > 0 { assert ids[1..][k - 1] >= 0; } }
    }
  }

  lemma RunRead(bs: seq<Byte>, at: nat, ids: seq<I32>, after: seq<Byte>, i: nat, next: nat)
    requires |ids| < 0x1_0000_0000 && at <= |bs| && bs[at..] == EncodeRun(ids) + after && next == at + |EncodeRun(ids)|
    ensures next <= |bs| && bs[next..] == after
    ensures ReadRun(bs, at, i) == (if NonNegative(ids) then Got(ids, next) else Bad(NegativeId(i)))
  {
    assert EncodeRun(ids) + after == WriteU32(|ids|) + (EncodeIds(ids) + after);
    WordAt(bs, at, |ids|, EncodeIds(ids) + after, at + 4);
    IdsRead(bs, at + 4, ids, after, i, next);
  }

  lemma TwoRunsRead(bs: seq<Byte>, at: nat, c: TwoRuns, after: seq<Byte>, i: nat, next: nat)
    requires Encodable(c) && at <= |bs| && bs[at..] == EncodeTwoRuns(c) + after && next == at + |EncodeTwoRuns(c)|
    ensures next <= |bs| && bs[next..] == after
    ensures ReadTwoRuns(bs, at, i) ==
            (if NonNegative(c.plain) && NonNegative(c.special) then Got(c, next) else Bad(NegativeId(i)))
  {
    var middle := at + |EncodeRun(c.plain)|;
    assert EncodeTwoRuns(c) + after == EncodeRun(c.plain) + (EncodeRun(c.special) + after);
    RunRead(bs, at, c.plain, EncodeRun(c.special) + after, i, middle);
    RunRead(bs, middle, c.special, after, i, next);
  }

  lemma {:induction false} CasesRead(bs: seq<Byte>, at: nat, cases: seq<TwoRuns>, i: nat, n: nat)
    requires i + |cases| == n && (forall k :: 0 <= k < |cases| ==> Encodable(cases[k]))
    requires at <= |bs| && bs[at..] == EncodeAll(cases)
    requires forall k :: 0 <= k < |cases| ==> NonNegative(cases[k].plain) && NonNegative(cases[k].special)
    ensures ReadCases(bs, at, i, n) == Got(cases, |bs|)
    decreases |cases|
  {
    if cases != [] {
      var c, rest := cases[0], EncodeAll(cases[1..]);
      var next := at + |EncodeTwoRuns(c)|;
      TwoRunsRead(bs, at, c, rest, i, next);
      CasesRead(bs, next, cases[1..], i + 1, n);
      assert [c] + cases[1..] == cases;
    }
  }

  lemma HeaderRead(bs: seq<Byte>, flags: U32, nVocab: U32, nCases: U32, more: seq<Byte>)
    requires bs == EncodeHeader(flags, nVocab, nCases) + more
    ensures bs[..4] == MAGIC && ReadU32(bs, 4) == VERSION && ReadU32(bs, 8) == flags
    ensures ReadU32(bs, 12) == nVocab && ReadU32(bs, 16) == nCases && bs[20..] == more
  {
    var r16 := WriteU32(nCases) + more;
    var r12 := WriteU32(nVocab) + r16;
    var r8 := WriteU32(flags) + r12;
    var r4 := WriteU32(VERSION) + r8;
    assert bs[0..] == MAGIC + r4;
    Advance(bs, 0, MAGIC, r4, 4);
    WordAt(bs, 4, VERSION, r8, 8);
    WordAt(bs, 8, flags, r12, 12);
    WordAt(bs, 12, nVocab, r16, 16);
    WordAt(bs, 16, nCases, more, 20);
  }

  lemma ResultRead(r: Result)
    requires ValidResult(r) && NonNegativeResult(r)
    ensures ReadResult(EncodeResult(r)) == Got(r, |EncodeResult(r)|)
  {
    var bs := EncodeResult(r);
    HeaderRead(bs, r.flags, r.nVocab, |r.cases|, EncodeAll(r.cases));
    CasesRead(bs, 20, r.cases, 0, |r.cases|);
  }

  /** The two bits stand for the flag word they came from exactly when it has
      no other bit. */
  lemma BitsOfFlags(flags: U32)
    ensures FlagWord(flags % 2 == 1, flags / 2 % 2 == 1) == flags <==> flags < 4
  {
  }

  /** The reader recovers every result of non-negative ids; what it returns
      is the whole result if and only if the flag word is below 4. */
  lemma ReaderInvertsWriter(r: Result)
    requires ValidResult(r) && NonNegativeResult(r)
    ensures ParseResult(EncodeResult(r)) == Got(ReferenceOf(r), |EncodeResult(r)|)
    ensures ResultOf(ReferenceOf(r)) == r <==> r.flags < 4
  {
    ResultRead(r);
    BitsOfFlags(r.flags);
  }

  /* ---- what the reader accepts ---- */

  lemma WriteSigned(v: U32)
    ensures WriteI32(ToSigned(v)) == WriteU32(v)
  {
  }

  lemma {:induction false} IdsCanonical(bs: seq<Byte>, at: nat, n: nat, i: nat)
    requires at + 4 * n <= |bs| && ReadIds(bs, at, n, i).Got?
    ensures EncodeIds(ReadIds(bs, at, n, i).value) == bs[at..at + 4 * n]
    decreases n
  {
    if n > 0 {
      IdsCanonical(bs, at + 4, n - 1, i);
      WriteSigned(ReadU32(bs, at));
      WriteRead(bs, at);
      SliceJoin(bs, at, at + 4, at + 4 * n);
    }
  }

  lemma RunCanonical(bs: seq<Byte>, at: nat, i: nat)
    requires at <= |bs| && ReadRun(bs, at, i).Got?
    ensures var r := ReadRun(bs, at, i); EncodeRun(r.value) == bs[at..r.next]
  {
    var n: nat := ReadU32(bs, at);
    IdsCanonical(bs, at + 4, n, i);
    WriteRead(bs, at);
    SliceJoin(bs, at, at + 4, at + 4 + 4 * n);
  }

  lemma TwoRunsCanonical(bs: seq<Byte>, at: nat, i: nat)
    requires at <= |bs| && ReadTwoRuns(bs, at, i).Got?
    ensures var r := ReadTwoRuns(bs, at, i); EncodeTwoRuns(r.value) == bs[at..r.next]
  {
    var middle, next := ReadRun(bs, at, i).next, ReadTwoRuns(bs, at, i).next;
    RunCanonical(bs, at, i);
    RunCanonical(bs, middle, i);
    SliceJoin(bs, at, middle, next);
  }

  lemma {:induction false} CasesCanonical(bs: seq<Byte>, at: nat, i: nat, n: nat)
    requires i <= n && at <= |bs| && ReadCases(bs, at, i, n).Got?
    ensures EncodeAll(ReadCases(bs, at, i, n).value) == bs[at..]
    decreases n - i
  {
    if i < n {
      var next := ReadTwoRuns(bs, at, i).next;
      TwoRunsCanonical(bs, at, i);
      CasesCanonical(bs, next, i + 1, n);
      SliceJoin(bs, at, next, |bs|);
    }
  }

  /** Only a whole result file is read, and its words encode it. */
  lemma ReadIsCanonical(bs: seq<Byte>)
    requires ReadResult(bs).Got?
    ensures EncodeResult(ReadResult(bs).value) == bs
  {
    CasesCanonical(bs, 20, 0, ReadU32(bs, 16));
    WriteRead(bs, 4);
    WriteRead(bs, 8);
    WriteRead(bs, 12);
    WriteRead(bs, 16);
    SliceJoin(bs, 0, 4, 8);
    SliceJoin(bs, 0, 8, 12);
    SliceJoin(bs, 0, 12, 16);
    SliceJoin(bs, 0, 16, 20);
    SliceJoin(bs, 0, 20, |bs|);
  }

  /** The words at the front of an encoded result. */
  lemma FlagsAt(r: Result)
    requires ValidResult(r)
    ensures |EncodeResult(r)| >= 20 && ReadU32(EncodeResult(r), 8) == r.flags
  {
    HeaderRead(EncodeResult(r), r.flags, r.nVocab, |r.cases|, EncodeAll(r.cases));
  }

  /** The file of what the reader returned, with this flag word. */
  ghost predicate IsFileOf(bs: seq<Byte>, r: Reference, flags: U32) {
    && ValidResult(Result(flags, r.nVocab, r.cases)) && bs == EncodeResult(Result(flags, r.nVocab, r.cases))
    && r.addBos == (flags % 2 == 1) && r.addEos == (flags / 2 % 2 == 1)
  }

  /** The reader accepts nothing but whole result files, and what it returns
      encodes to the file again if and only if the file's flag word is below
      4: the higher bits are dropped. */
  lemma AcceptedIsResult(bs: seq<Byte>)
    requires ParseResult(bs).Got?
    ensures |bs| >= 20 && exists flags: U32 :: IsFileOf(bs, ParseResult(bs).value, flags)
    ensures EncodeResult(ResultOf(ParseResult(bs).value)) == bs <==> ReadU32(bs, 8) < 4
  {
    var raw, kept := ReadResult(bs).value, ResultOf(ParseResult(bs).value);
    ReadIsCanonical(bs);
    BitsOfFlags(raw.flags);
    assert IsFileOf(bs, ParseResult(bs).value, raw.flags);
    FlagsAt(raw);
    FlagsAt(kept);
  }

  /** A file with flag word 4 is accepted, and what the reader returns encodes
      to another file. */
  lemma FlagsDropped()
    ensures var bs := EncodeResult(Result(4, 1, []));
      ParseResult(bs).Got? && EncodeResult(ResultOf(ParseResult(bs).value)) != bs
  {
    var r := Result(4, 1, []);
    ReaderInvertsWriter(r);
    FlagsAt(r);
    AcceptedIsResult(EncodeResult(r));
  }

  /** The length of a case is fixed by the bytes its encoding starts with. */
  lemma TwoRunsPrefixFree(c: TwoRuns, d: TwoRuns, a: seq<Byte>, b: seq<Byte>)
    requires Encodable(c) && Encodable(d) && EncodeTwoRuns(c) + a == EncodeTwoRuns(d) + b
    ensures |EncodeTwoRuns(c)| == |EncodeTwoRuns(d)| && a == b
  {
    var bs := EncodeTwoRuns(c) + a;
    TwoRunsWords(c, a);
    TwoRunsWords(d, b);
    var ca, da := EncodeIds(c.plain), EncodeIds(d.plain);
    var cs, ds := EncodeRun(c.special) + a, EncodeRun(d.special) + b;
    var m := 4 + 4 * |c.plain|;
    WordAt(bs, 0, |c.plain|, ca + cs, 4);
    WordAt(bs, 0, |d.plain|, da + ds, 4);
    Advance(bs, 4, ca, cs, m);
    Advance(bs, 4, da, ds, m);
    WordAt(bs, m, |c.special|, EncodeIds(c.special) + a, m + 4);
    WordAt(bs, m, |d.special|, EncodeIds(d.special) + b, m + 4);
    Advance(bs, m + 4, EncodeIds(c.special), a, m + 4 + 4 * |c.special|);
    Advance(bs, m + 4, EncodeIds(d.special), b, m + 4 + 4 * |c.special|);
  }

  /** A case's encoding, word by word. */
  lemma TwoRunsWords(c: TwoRuns, a: seq<Byte>)
    requires Encodable(c)
    ensures var bs, cs := EncodeTwoRuns(c) + a, EncodeRun(c.special) + a;
      && bs[0..] == WriteU32(|c.plain|) + (EncodeIds(c.plain) + cs)
      && cs == WriteU32(|c.special|) + (EncodeIds(c.special) + a)
      && |EncodeTwoRuns(c)| == 8 + 4 * |c.plain| + 4 * |c.special|
  {
    var p, q := WriteU32(|c.plain|), EncodeIds(c.plain);
    Assoc(EncodeRun(c.plain), EncodeRun(c.special), a);
    Assoc(p, q, EncodeRun(c.special) + a);
    Assoc(WriteU32(|c.special|), EncodeIds(c.special), a);
    assert (EncodeTwoRuns(c) + a)[0..] == EncodeTwoRuns(c) + a;
  }

  lemma {:induction false} AllPrefixFree(cs: seq<TwoRuns>, ds: seq<TwoRuns>, a: seq<Byte>)
    requires |cs| == |ds| && (forall k :: 0 <= k < |cs| ==> Encodable(cs[k]) && Encodable(ds[k]))
    requires EncodeAll(cs) + a == EncodeAll(ds)
    ensures a == []
    decreases |cs|
  {
    if cs != [] {
      Assoc(EncodeTwoRuns(cs[0]), EncodeAll(cs[1..]), a);
      TwoRunsPrefixFree(cs[0], ds[0], EncodeAll(cs[1..]) + a, EncodeAll(ds[1..]));
      AllPrefixFree(cs[1..], ds[1..], a);
    }
  }

  /** No result file is a proper prefix of another: the reader refuses every
      truncated one, whatever ids it holds. */
  lemma TruncatedResultRefused(r: Result, m: nat)
    requires ValidResult(r) && m < |EncodeResult(r)|
    ensures ParseResult(EncodeResult(r)[..m]).Bad?
  {
    var whole := EncodeResult(r);
    assert whole == whole[..m] + whole[m..];
    PartNotRead(r, whole[..m], whole[m..]);
  }

  lemma PartNotRead(r: Result, part: seq<Byte>, more: seq<Byte>)
    requires ValidResult(r) && EncodeResult(r) == part + more && more != []
    ensures ReadResult(part).Bad?
  {
    var read := ReadResult(part);
    if read.Got? {
      ReadIsCanonical(part);
      ResultPrefixFree(read.value, r, more);
    }
  }

  /** Equal files have equal case counts and equal bytes behind the header. */
  lemma HeadersAgree(bs: seq<Byte>, r: Result, more: seq<Byte>, q: Result, more': seq<Byte>)
    requires |r.cases| < 0x1_0000_0000 && |q.cases| < 0x1_0000_0000
    requires bs == EncodeHeader(r.flags, r.nVocab, |r.cases|) + more
    requires bs == EncodeHeader(q.flags, q.nVocab, |q.cases|) + more'
    ensures |r.cases| == |q.cases| && more == more'
  {
    HeaderRead(bs, r.flags, r.nVocab, |r.cases|, more);
    HeaderRead(bs, q.flags, q.nVocab, |q.cases|, more');
  }

  lemma ResultPrefixFree(shorter: Result, r: Result, more: seq<Byte>)
    requires ValidResult(shorter) && ValidResult(r) && EncodeResult(r) == EncodeResult(shorter) + more
    ensures more == []
  {
    Assoc(EncodeHeader(shorter.flags, shorter.nVocab, |shorter.cases|), EncodeAll(shorter.cases), more);
    HeadersAgree(EncodeResult(r), shorter, EncodeAll(shorter.cases) + more, r, EncodeAll(r.cases));
    AllPrefixFree(shorter.cases, r.cases, more);
  }

  /** A negative id anywhere is refused too, so the reader accepts exactly
      the whole files of non-negative ids. */
  lemma AcceptedIdsNonNegative(r: Result)
    requires ValidResult(r)
    ensures ParseResult(EncodeResult(r)).Got? <==> NonNegativeResult(r)
  {
    if NonNegativeResult(r) {
      ReaderInvertsWriter(r);
    }
    if ParseResult(EncodeResult(r)).Got? {
      var bs := EncodeResult(r);
      HeaderRead(bs, r.flags, r.nVocab, |r.cases|, EncodeAll(r.cases));
      GotCasesNonNegative(bs, 20, r.cases, 0, |r.cases|);
    }
  }

  lemma {:induction false} GotCasesNonNegative(bs: seq<Byte>, at: nat, cases: seq<TwoRuns>, i: nat, n: nat)
    requires i + |cases| == n && (forall k :: 0 <= k < |cases| ==> Encodable(cases[k]))
    requires at <= |bs| && bs[at..] == EncodeAll(cases) && ReadCases(bs, at, i, n).Got?
    ensures forall k :: 0 <= k < |cases| ==> NonNegative(cases[k].plain) && NonNegative(cases[k].special)
    decreases |cases|
  {
    if cases != [] {
      var next := at + |EncodeTwoRuns(cases[0])|;
      TwoRunsRead(bs, at, cases[0], EncodeAll(cases[1..]), i, next);
      GotCasesNonNegative(bs, next, cases[1..], i + 1, n);
      forall k | 0 <= k < |cases| ensures NonNegative(cases[k].plain) && NonNegative(cases[k].special) {
        if k > 0 { assert cases[k] == cases[1..][k - 1]; }
      }
    }
  }
}
