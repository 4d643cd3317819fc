/** The dumper's `--tokenize` command: every exit, every acquisition, and the
    bytes of the result file. */
module LlamaTokenize {
  import opened LlamaRuntime
  import opened Sequences
  import opened Fxtk

  /** The system calls of `read_all` that may fail. */
  datatype ReadWorld = ReadWorld(opens: bool, seeks: bool, tells: bool, mallocs: bool, filled: bool) {
    predicate Readable(empty: bool) {
      opens && seeks && tells && mallocs && (empty || filled)
    }
  }

  /** `read_all`: the blob's buffer, or NULL with nothing left acquired. */
  method ReadAll(rt: Runtime, w: ReadWorld, empty: bool) returns (h: Handle)
    requires rt.Valid() && rt.live == map[]
    modifies rt
    ensures rt.Valid()
    ensures if w.Readable(empty) then h.Handle? && rt.live == map[h.id := Memory] else h == Null && rt.live == map[]
  {
    var f := rt.Acquire(File, w.opens);
    if f == Null {
      return Null;
    }
    if !w.seeks {
      rt.Release(f, File);
      return Null;
    }
    if !w.tells {
      rt.Release(f, File);
      return Null;
    }
    var buf := rt.Acquire(Memory, w.mallocs);
    if buf == Null {
      rt.Release(f, File);
      return Null;
    }
    if !empty && !w.filled {
      rt.Free(buf);
      rt.Release(f, File);
      return Null;
    }
    rt.Release(f, File);
    return buf;
  }

  /** The texts of an accepted case file. */
  ghost function CaseTexts(blob: seq<Byte>): (r: seq<Text>)
    requires ParseCases(blob).Cases?
    ensures AllInBlob(blob, ParseCases(blob).spans) && r == Texts(blob, ParseCases(blob).spans)
    ensures |r| < 0x1_0000_0000
  {
    AcceptedInBlob(blob);
    Texts(blob, ParseCases(blob).spans)
  }

  /** What can go wrong outside the program, and the tokenizer's answers. */
  datatype TokenizeWorld = TokenizeWorld(
    read: ReadWorld, offsetsMalloc: bool, lengthsMalloc: bool, loads: bool, opens: bool, toksMalloc: nat -> bool,
    addBos: bool, addEos: bool, nVocab: U32, tokenize: (seq<Byte>, bool) -> seq<I32>) {

    /** Bit 0 for add_bos, bit 1 for add_eos, as the vocabulary reports them. */
    function Flags(): U32 {
      FlagWord(addBos, addEos)
    }

    /** The buffer a text gets: one token per byte and a few to spare. */
    function Cap(text: seq<Byte>): nat {
      |text| + 4
    }

    /** Whether case `i` is written whole. */
    predicate CaseFits(text: seq<Byte>, i: nat) {
      toksMalloc(i) && |tokenize(text, false)| <= Cap(text) && |tokenize(text, true)| <= Cap(text)
    }

    function Runs(text: seq<Byte>): TwoRuns {
      TwoRuns(tokenize(text, false), tokenize(text, true))
    }

    /** The bytes case `i` puts in the file: both runs, or the first alone
        when the second is the one that does not fit, or nothing. */
    ghost function CaseBytes(t: Text, i: nat): seq<Byte>
      requires |t| < 0x8000_0000 - 4
    {
      if CaseFits(t, i) then EncodeTwoRuns(Runs(t))
      else if toksMalloc(i) && |tokenize(t, false)| <= Cap(t) then EncodeRun(tokenize(t, false))
      else []
    }

    /** The first `n` cases are written whole. */
    ghost predicate FitUpTo(texts: seq<Text>, n: nat)
      requires n <= |texts|
    {
      forall k :: 0 <= k < n ==> CaseFits(texts[k], k)
    }

    lemma FitStep(texts: seq<Text>, n: nat)
      requires n < |texts| && FitUpTo(texts, n)
      ensures FitUpTo(texts, n + 1) <==> CaseFits(texts[n], n)
      ensures !CaseFits(texts[n], n) ==> !FitUpTo(texts, |texts|)
    {
    }

    ghost predicate Short(texts: seq<Text>) {
      forall k :: 0 <= k < |texts| ==> |texts[k]| < 0x8000_0000 - 4
    }

    /** The bytes of cases `i` on, up to the first that does not fit. */
    ghost function Written(texts: seq<Text>, i: nat): seq<Byte>
      requires Short(texts) && i <= |texts|
      decreases |texts| - i
    {
      if i == |texts| then []
      else CaseBytes(texts[i], i) + (if CaseFits(texts[i], i) then Written(texts, i + 1) else [])
    }

    /** Moving one case from what is still to be written to what is done. */
    lemma WrittenStep(texts: seq<Text>, i: nat, sofar: seq<Byte>, whole: seq<Byte>)
      requires Short(texts) && i < |texts| && sofar + Written(texts, i) == whole
      ensures var done := sofar + CaseBytes(texts[i], i);
              whole == (if CaseFits(texts[i], i) then done + Written(texts, i + 1) else done)
    {
      var rest := if CaseFits(texts[i], i) then Written(texts, i + 1) else [];
      Assoc(sofar, CaseBytes(texts[i], i), rest);
    }

    /** What a run that opens its output file writes to it. */
    ghost function Output(blob: seq<Byte>): seq<Byte>
      requires |blob| < 0x8000_0000 - 4 && ParseCases(blob).Cases?
    {
      EncodeHeader(Flags(), nVocab, |CaseTexts(blob)|) + Written(CaseTexts(blob), 0)
    }

    /** The exit code, in the order the checks are made. */
    ghost function Exit(blob: seq<Byte>): nat {
      if !read.Readable(blob == []) then 1
      else if ParseCases(blob).NotFxtk? then 2
      else if !offsetsMalloc || !lengthsMalloc then 1
      else if !ParseCases(blob).Cases? then 2
      else if !loads then EXIT_MODEL_UNSUPPORTED
      else if !opens then 1
      else if FitUpTo(CaseTexts(blob), |CaseTexts(blob)|) then 0
      else 1
    }

    /** The output file is opened. */
    predicate Opens(blob: seq<Byte>) {
      && read.Readable(blob == []) && offsetsMalloc && lengthsMalloc
      && ParseCases(blob).Cases? && loads && opens
    }

    /** The result a complete run stands for: both runs of every case, in
        case order, parse_special false before true. */
    ghost function Answer(texts: seq<Text>): (r: Result)
      ensures |r.cases| == |texts|
    {
      Result(Flags(), nVocab, seq(|texts|, k requires 0 <= k < |texts| => Runs(texts[k])))
    }

    lemma AnswerIsValid(texts: seq<Text>)
      requires Short(texts) && |texts| < 0x1_0000_0000 && FitUpTo(texts, |texts|)
      ensures ValidResult(Answer(texts))
    {
      forall k | 0 <= k < |texts| ensures Encodable(Answer(texts).cases[k]) {
        assert CaseFits(texts[k], k);
      }
    }

    lemma {:induction false} WrittenIsEncoded(texts: seq<Text>, i: nat)
      requires Short(texts) && |texts| < 0x1_0000_0000 && FitUpTo(texts, |texts|) && i <= |texts|
      ensures ValidResult(Answer(texts)) && Written(texts, i) == EncodeAll(Answer(texts).cases[i..])
      decreases |texts| - i
    {
      AnswerIsValid(texts);
      var cases := Answer(texts).cases;
      if i < |texts| {
        WrittenIsEncoded(texts, i + 1);
        assert cases[i..][0] == Runs(texts[i]) && cases[i..][1..] == cases[i + 1..];
        assert CaseFits(texts[i], i);
      }
    }

    /** A zero exit writes the encoding of the complete answer ... */
    lemma ZeroExitOutput(blob: seq<Byte>)
      requires |blob| < 0x8000_0000 - 4 && Exit(blob) == 0
      ensures Opens(blob) && ValidResult(Answer(CaseTexts(blob)))
      ensures Output(blob) == EncodeResult(Answer(CaseTexts(blob)))
    {
      var texts := CaseTexts(blob);
      WrittenIsEncoded(texts, 0);
      assert Answer(texts).cases[0..] == Answer(texts).cases;
    }

    lemma AnswerRead(blob: seq<Byte>, room: nat)
      requires |blob| < 0x8000_0000 - 4 && Exit(blob) == 0
      ensures var answer, r := Answer(CaseTexts(blob)), ParseResult(Take(Output(blob), room));
        && (r.Got? <==> |Output(blob)| <= room && NonNegativeResult(answer))
        && (r.Got? ==> r.value == Reference(addBos, addEos, nVocab, answer.cases) && ResultOf(r.value) == answer)
    {
      ZeroExitOutput(blob);
      var answer, whole := Answer(CaseTexts(blob)), Output(blob);
      if |whole| <= room {
        AcceptedIdsNonNegative(answer);
        if NonNegativeResult(answer) {
          ReaderInvertsWriter(answer);
        }
      } else {
        TruncatedResultRefused(answer, room);
      }
    }

    /** No text gets a negative id under either setting. */
    ghost predicate AllNonNegative(texts: seq<Text>) {
      forall k, i, special :: 0 <= k < |texts| && 0 <= i < |tokenize(texts[k], special)| ==> tokenize(texts[k], special)[i] >= 0
    }

    lemma AnswerNonNegative(texts: seq<Text>)
      ensures NonNegativeResult(Answer(texts)) <==> AllNonNegative(texts)
    {
      var r := Answer(texts);
      if NonNegativeResult(r) {
        forall k, i, special | 0 <= k < |texts| && 0 <= i < |tokenize(texts[k], special)|
          ensures tokenize(texts[k], special)[i] >= 0
        {
          assert r.cases[k] == Runs(texts[k]);
          assert NonNegative(r.cases[k].plain) && NonNegative(r.cases[k].special);
        }
      }
    }

    /** After a zero exit the reader recovers the vocabulary's two flags and
        its size, and for every text, in order, what the tokenizer answers
        with parse_special false and with parse_special true: exactly when
        the device had room for the file and no id is negative. Otherwise it
        refuses the file. */
    lemma ZeroExitIsComplete(blob: seq<Byte>, room: nat)
      requires |blob| < 0x8000_0000 - 4 && Exit(blob) == 0
      ensures var texts, r := CaseTexts(blob), ParseResult(Take(Output(blob), room));
        && (r.Got? <==> |Output(blob)| <= room && AllNonNegative(texts))
        && (r.Got? ==>
              && r.value.addBos == addBos && r.value.addEos == addEos && r.value.nVocab == nVocab
              && |r.value.cases| == |texts|
              && forall k :: 0 <= k < |texts| ==>
                r.value.cases[k].plain == tokenize(texts[k], false) && r.value.cases[k].special == tokenize(texts[k], true))
    {
      AnswerRead(blob, room);
      AnswerNonNegative(CaseTexts(blob));
    }

    /** The exit codes, spelled out: 2 for a file that is no case file or is
        cut, 3 for a checkpoint that cannot be loaded, 0 when everything works
        and both answers for every text fit one token a byte and four. */
    lemma ExitExactly(blob: seq<Byte>)
      ensures var readable := read.opens && read.seeks && read.tells && read.mallocs && (blob == [] || read.filled);
        var started := readable && offsetsMalloc && lengthsMalloc && ParseCases(blob).Cases?;
        && (Exit(blob) == 2 <==> readable && (ParseCases(blob).NotFxtk? || (offsetsMalloc && lengthsMalloc && !ParseCases(blob).Cases?)))
        && (Exit(blob) == 3 <==> started && !loads)
        && (Exit(blob) == 0 <==> started && loads && opens && forall k :: 0 <= k < |CaseTexts(blob)| ==>
              && toksMalloc(k)
              && |tokenize(CaseTexts(blob)[k], false)| <= |CaseTexts(blob)[k]| + 4
              && |tokenize(CaseTexts(blob)[k], true)| <= |CaseTexts(blob)[k]| + 4)
    {
      if ParseCases(blob).Cases? {
        FitsSpelled(CaseTexts(blob));
      }
    }

    lemma FitsSpelled(texts: seq<Text>)
      ensures FitUpTo(texts, |texts|) <==> forall k :: 0 <= k < |texts| ==>
        && toksMalloc(k)
        && |tokenize(texts[k], false)| <= |texts[k]| + 4
        && |tokenize(texts[k], true)| <= |texts[k]| + 4
    {
      if FitUpTo(texts, |texts|) {
        forall k | 0 <= k < |texts|
          ensures toksMalloc(k)
          ensures |tokenize(texts[k], false)| <= |texts[k]| + 4 && |tokenize(texts[k], true)| <= |texts[k]| + 4
        {
          assert CaseFits(texts[k], k);
        }
      }
    }
  }

  /** The validating pass over the blob, filling both arrays while the cursor
      advances. `rc` is 0, or 2 for a truncated file. */
  method ValidateCases(blob: seq<Byte>, nCases: nat, offsets: array<nat>, lengths: array<nat>) returns (rc: nat)
    requires |blob| >= 8 && offsets != lengths && offsets.Length >= nCases && lengths.Length >= nCases
    modifies offsets, lengths
    ensures rc == (if Scan(blob, 8, 0, nCases).Cases? then 0 else 2)
    ensures rc == 0 ==> forall k :: 0 <= k < nCases ==>
      Span(offsets[k], lengths[k]) == Scan(blob, 8, 0, nCases).spans[k]
  {
    var at: nat := 8;
    ghost var whole := Scan(blob, at, 0, nCases);
    for i := 0 to nCases
      invariant at <= |blob| && (whole.Cases? <==> Scan(blob, at, i, nCases).Cases?)
      invariant whole.Cases? ==> whole.spans[i..] == Scan(blob, at, i, nCases).spans
      invariant whole.Cases? ==> forall k :: 0 <= k < i ==> Span(offsets[k], lengths[k]) == whole.spans[k]
    {
      ghost var start := at;
      if at + 4 > |blob| {
        return 2;
      }
      var len: nat := ReadU32(blob, at);
      at := at + 4;
      if at + len > |blob| {
        return 2;
      }
      ScanNext(blob, start, i, nCases, len, at + len);
      if whole.Cases? {
        HeadOfTail(whole.spans, i, Span(at, len), Scan(blob, at + len, i + 1, nCases).spans);
      }
      offsets[i] := at;
      lengths[i] := len;
      at := at + len;
    }
    return 0;
  }

  lemma {:induction false} EncodeIdsSnoc(ids: seq<I32>, t: nat)
    requires t < |ids|
    ensures EncodeIds(ids[..t + 1]) == EncodeIds(ids[..t]) + WriteI32(ids[t])
    decreases t
  {
    if t == 0 {
      assert ids[..1] == [ids[0]] && [ids[0]][1..] == [] && ids[..0] == [];
      assert EncodeIds([]) == [];
    } else {
      var rest := ids[1..];
      assert ids[..t + 1][1..] == rest[..t] && ids[..t][1..] == rest[..t - 1];
      EncodeIdsSnoc(rest, t - 1);
      Assoc(WriteI32(ids[0]), EncodeIds(rest[..t - 1]), WriteI32(ids[t]));
    }
  }

  /** One word on top of what was written so far, `sofar`. */
  method WriteWord(out: OutFile<Byte>, v: U32, ghost sofar: seq<Byte>)
    requires out.content == Take(sofar, out.room)
    modifies out
    ensures out.content == Take(sofar + WriteU32(v), out.room)
  {
    var word := WrU32(v);
    TakeAppend(sofar, word, out.room);
    out.Write(word);
  }

  /** One run: the count, then the ids, through the unsigned writer. */
  method WriteRun(out: OutFile<Byte>, ids: seq<I32>, ghost sofar: seq<Byte>)
    requires |ids| < 0x8000_0000 && out.content == Take(sofar, out.room)
    modifies out
    ensures out.content == Take(sofar + EncodeRun(ids), out.room)
  {
    WriteWord(out, |ids|, sofar);
    for t := 0 to |ids|
      invariant out.content == Take(sofar + (WriteU32(|ids|) + EncodeIds(ids[..t])), out.room)
    {
      RunSnoc(sofar, ids, t);
      WriteWord(out, ToUnsigned(ids[t]), sofar + (WriteU32(|ids|) + EncodeIds(ids[..t])));
    }
    assert ids[..|ids|] == ids;
  }

  lemma RunSnoc(before: seq<Byte>, ids: seq<I32>, t: nat)
    requires t < |ids| < 0x1_0000_0000
    ensures before + (WriteU32(|ids|) + EncodeIds(ids[..t])) + WriteI32(ids[t])
         == before + (WriteU32(|ids|) + EncodeIds(ids[..t + 1]))
  {
    EncodeIdsSnoc(ids, t);
    Assoc(before, WriteU32(|ids|) + EncodeIds(ids[..t]), WriteI32(ids[t]));
    Assoc(WriteU32(|ids|), EncodeIds(ids[..t]), WriteI32(ids[t]));
  }

  method WriteHeader(out: OutFile<Byte>, flags: U32, nVocab: U32, nCases: U32)
    requires out.content == []
    modifies out
    ensures out.content == Take(EncodeHeader(flags, nVocab, nCases), out.room)
  {
    out.Write(MAGIC);
    WriteWord(out, VERSION, MAGIC);
    WriteWord(out, flags, MAGIC + WriteU32(VERSION));
    WriteWord(out, nVocab, MAGIC + WriteU32(VERSION) + WriteU32(flags));
    WriteWord(out, nCases, MAGIC + WriteU32(VERSION) + WriteU32(flags) + WriteU32(nVocab));
  }

  /** Both runs of one case; false when one does not fit its buffer. */
  method WriteCase(rt: Runtime, w: TokenizeWorld, text: Text, i: nat, out: OutFile<Byte>, ghost sofar: seq<Byte>) returns (ok: bool)
    requires rt.Valid() && |text| < 0x8000_0000 - 4 && out.content == Take(sofar, out.room)
    modifies rt, out
    ensures rt.Valid() && rt.live == old(rt.live)
    ensures ok == w.CaseFits(text, i)
    ensures out.content == Take(sofar + w.CaseBytes(text, i), out.room)
  {
    var toks := rt.Acquire(Memory, w.toksMalloc(i));
    if toks == Null {
      assert sofar + [] == sofar;
      return false;
    }
    var plain := w.tokenize(text, false);
    if |plain| > w.Cap(text) {
      rt.Free(toks);
      assert sofar + [] == sofar;
      return false;
    }
    WriteRun(out, plain, sofar);
    var special := w.tokenize(text, true);
    if |special| > w.Cap(text) {
      rt.Free(toks);
      return false;
    }
    WriteRun(out, special, sofar + EncodeRun(plain));
    Assoc(sofar, EncodeRun(plain), EncodeRun(special));
    rt.Free(toks);
    return true;
  }

  /** The case loop: stops at the first case that does not fit. */
  method WriteCases(rt: Runtime, w: TokenizeWorld, blob: seq<Byte>, ghost spans: seq<Span>, nCases: nat,
                    offsets: array<nat>, lengths: array<nat>, out: OutFile<Byte>, ghost sofar: seq<Byte>) returns (rc: nat)
    requires rt.Valid() && |blob| < 0x8000_0000 - 4 && AllInBlob(blob, spans)
    requires |spans| == nCases && offsets.Length == nCases && lengths.Length == nCases
    requires forall k :: 0 <= k < |spans| ==> Span(offsets[k], lengths[k]) == spans[k]
    requires out.content == Take(sofar, out.room)
    modifies rt, out
    ensures rt.Valid() && rt.live == old(rt.live)
    ensures rc == (if w.FitUpTo(Texts(blob, spans), |spans|) then 0 else 1)
    ensures out.content == Take(sofar + w.Written(Texts(blob, spans), 0), out.room)
  {
    ghost var texts := Texts(blob, spans);
    ghost var done, whole := sofar, sofar + w.Written(texts, 0);
    for i := 0 to nCases
      invariant rt.Valid() && rt.live == old(rt.live)
      invariant out.content == Take(done, out.room) && done + w.Written(texts, i) == whole
      invariant w.FitUpTo(texts, i)
    {
      var text: Text := blob[offsets[i]..offsets[i] + lengths[i]];
      assert spans[i] == Span(offsets[i], lengths[i]) && text == Slice(blob, spans[i]) == texts[i];
      w.WrittenStep(texts, i, done, whole);
      w.FitStep(texts, i);
      var ok := WriteCase(rt, w, text, i, out, done);
      if !ok {
        return 1;
      }
      done := done + w.CaseBytes(text, i);
    }
    assert done + [] == done;
    return 0;
  }

  /** The half of `--tokenize` behind the validation: model, file, cases. */
  method TokenizeInto(rt: Runtime, w: TokenizeWorld, blob: seq<Byte>, ghost spans: seq<Span>, nCases: U32,
                      offsets: array<nat>, lengths: array<nat>, out: OutFile<Byte>) returns (rc: nat)
    requires rt.Valid() && (forall id :: id in rt.live ==> rt.live[id] == Memory)
    requires |blob| < 0x8000_0000 - 4 && AllInBlob(blob, spans) && |spans| == nCases
    requires offsets.Length == nCases && lengths.Length == nCases
    requires forall k :: 0 <= k < nCases ==> Span(offsets[k], lengths[k]) == spans[k]
    modifies rt, out
    ensures rt.Valid() && rt.live == old(rt.live)
    ensures rc == (if !w.loads then EXIT_MODEL_UNSUPPORTED else if !w.opens then 1
                   else if w.FitUpTo(Texts(blob, spans), |spans|) then 0 else 1)
    ensures !(w.loads && w.opens) ==> out.content == old(out.content)
    ensures w.loads && w.opens ==>
      out.content == Take(EncodeHeader(w.Flags(), w.nVocab, |spans|) + w.Written(Texts(blob, spans), 0), out.room)
  {
    ghost var before := rt.live;
    var model := rt.Acquire(Model, w.loads);
    if model == Null {
      return EXIT_MODEL_UNSUPPORTED;
    }
    PutTake(before, model.id, Model);
    ghost var loaded := rt.live;
    var f := rt.Acquire(File, w.opens);
    if f == Null {
      rt.Release(model, Model);
      return 1;
    }
    PutTake(loaded, f.id, File);
    out.Truncate();
    WriteHeader(out, w.Flags(), w.nVocab, nCases);
    rc := WriteCases(rt, w, blob, spans, nCases, offsets, lengths, out, EncodeHeader(w.Flags(), w.nVocab, nCases));
    rt.Release(f, File);
    rt.Release(model, Model);
  }

  function Ids(h: Handle): set<nat> {
    if h.Handle? then {h.id} else {}
  }

  /** The three `free` calls an exit behind the allocations makes; either of
      the first two pointers may be NULL. */
  method FreeThree(rt: Runtime, a: Handle, b: Handle, c: Handle)
    requires rt.Valid() && c.Handle?
    requires rt.live.Keys == Ids(a) + Ids(b) + Ids(c) && forall id :: id in rt.live ==> rt.live[id] == Memory
    requires Ids(a) !! Ids(b) && Ids(a) !! Ids(c) && Ids(b) !! Ids(c)
    modifies rt
    ensures rt.Valid() && rt.live == map[]
  {
    rt.Free(a);
    rt.Free(b);
    rt.Free(c);
    assert rt.live.Keys == {};
  }

  /** `--tokenize`: every exit, everything acquired released, and the bytes
      that reached the output file. */
  method CmdTokenize(rt: Runtime, w: TokenizeWorld, blob: seq<Byte>, out: OutFile<Byte>) returns (rc: nat)
    requires rt.Valid() && rt.live == map[] && |blob| < 0x8000_0000 - 4
    modifies rt, out
    ensures rt.Valid() && rt.live == map[]
    ensures rc == w.Exit(blob)
    ensures !w.Opens(blob) ==> out.content == old(out.content)
    ensures w.Opens(blob) ==> out.content == Take(w.Output(blob), out.room)
  {
    var buf := ReadAll(rt, w.read, blob == []);
    if buf == Null {
      return 1;
    }
    if |blob| < 8 || blob[..4] != MAGIC {
      rt.Free(buf);
      return 2;
    }
    rc := TokenizeCases(rt, w, blob, buf, out);
  }

  /** The command behind the header check: both arrays, the validating pass,
      the model and the file. */
  method TokenizeCases(rt: Runtime, w: TokenizeWorld, blob: seq<Byte>, buf: Handle, out: OutFile<Byte>) returns (rc: nat)
    requires |blob| < 0x8000_0000 - 4 && |blob| >= 8 && blob[..4] == MAGIC && w.read.Readable(blob == [])
    requires rt.Valid() && buf.Handle? && buf.id < rt.given && rt.live == map[buf.id := Memory]
    modifies rt, out
    ensures rt.Valid() && rt.live == map[]
    ensures rc == w.Exit(blob)
    ensures !w.Opens(blob) ==> out.content == old(out.content)
    ensures w.Opens(blob) ==> out.content == Take(w.Output(blob), out.room)
  {
    var nCases: nat := ReadU32(blob, 4);
    var offsetsBuf := rt.Acquire(Memory, w.offsetsMalloc);
    var lengthsBuf := rt.Acquire(Memory, w.lengthsMalloc);
    if offsetsBuf == Null || lengthsBuf == Null {
      FreeThree(rt, offsetsBuf, lengthsBuf, buf);
      return 1;
    }
    var offsets, lengths := new nat[nCases](_ => 0), new nat[nCases](_ => 0);
    rc := ValidateCases(blob, nCases, offsets, lengths);
    if rc == 0 {
      ghost var texts := CaseTexts(blob);
      rc := TokenizeInto(rt, w, blob, ParseCases(blob).spans, nCases, offsets, lengths, out);
    }
    FreeThree(rt, offsetsBuf, lengthsBuf, buf);
  }

  /* ---- a zero exit with an incomplete file ---- */

  /** Everything works, and there is nothing to tokenize. */
  function EasyWorld(): TokenizeWorld {
    TokenizeWorld(ReadWorld(true, true, true, true, true), true, true, true, true, _ => true, true, false, 32000, (_, _) => [])
  }

  /** A case file without cases, and a device with room for one byte less than
      the header: the exit is zero, the file is cut, and the reader refuses
      it. */
  lemma ZeroExitCutFile()
    ensures var w, blob := EasyWorld(), EncodeCases([]);
      && |blob| < 0x8000_0000 - 4 && w.Exit(blob) == 0 && w.Opens(blob)
      && |w.Output(blob)| == 20 && ParseResult(Take(w.Output(blob), 19)).Bad?
  {
    var w, blob := EasyWorld(), EncodeCases([]);
    assert EncodeTexts([]) == [];
    ParseInvertsEncode([], []);
    assert blob + [] == blob && |blob| == 8;
    assert CaseTexts(blob) == [];
    w.ZeroExitIsComplete(blob, 19);
  }
}
