/** Greedy decoding twice: the C dumper's default command, which writes rows
    to a file as it goes and releases everything on every exit, and the C++
    reference dumper, which captures rows and tokens in memory. */
module LlamaDecode {
  import opened Vectors
  import opened Greedy
  import opened LlamaContext
  import opened LlamaRuntime

  /** The key/value element type `FRINK_CTK` asks for. */
  datatype CacheType = Unset | F16 | F32 | Unknown

  /** What a context is made with: an f32 key/value cache or the f16 default,
      flash attention off or left to llama.cpp. The answers depend on both. */
  datatype Config = Config(f32Cache: bool, flashOff: bool)

  /** The C driver's setting: f16 unless told f32, flash attention left alone
      unless told off. */
  function ConfigOf(cache: CacheType, flashOff: bool): Config {
    Config(cache.F32?, flashOff)
  }

  /** The C++ driver's, always. */
  const REFERENCE: Config := Config(true, true)

  /** llama.cpp with one checkpoint: a deterministic model for each setting. */
  datatype Engine = Engine(nVocab: nat, next: (Config, seq<Token>) -> seq<real>) {
    ghost predicate Valid() {
      nVocab > 0 && forall c, history :: |next(c, history)| == nVocab
    }

    function At(c: Config): (m: Llama)
      ensures m.nVocab == nVocab
      ensures Valid() ==> m.Valid()
    {
      Llama(nVocab, history => next(c, history))
    }
  }

  /** What can go wrong outside the program: calls are numbered from the
      prompt's (0). */
  datatype DecodeWorld = DecodeWorld(
    tokensMalloc: bool, loads: bool, creates: bool, opens: bool, decodeFails: nat -> bool, noLogits: nat -> bool) {

    predicate StepFails(step: nat) {
      decodeFails(step) || noLogits(step)
    }

    /** How many of the first `n` rows a driver gets out: it stops before the
        first call that fails. */
    function RowsOut(n: nat): (r: nat)
      ensures r <= n && (r < n ==> StepFails(r)) && forall k :: 0 <= k < r ==> !StepFails(k)
    {
      if n == 0 then 0
      else
        var before := RowsOut(n - 1);
        if before < n - 1 || StepFails(n - 1) then before else n
    }

    /** The exit code of the C command, in the order the checks are made. */
    function Exit(nSteps: int, cache: CacheType): nat {
      if !tokensMalloc then 1
      else if !loads then EXIT_MODEL_UNSUPPORTED
      else if nSteps < 1 || cache.Unknown? || !creates || StepFails(0) || !opens then 1
      else if RowsOut(nSteps) < nSteps then 1
      else 0
    }

    predicate Opens(nSteps: int, cache: CacheType) {
      tokensMalloc && loads && nSteps >= 1 && !cache.Unknown? && creates && !StepFails(0) && opens
    }
  }

  lemma RowsOutAt(w: DecodeWorld, n: nat, r: nat)
    requires r <= n && (r < n ==> w.StepFails(r)) && forall k :: 0 <= k < r ==> !w.StepFails(k)
    ensures w.RowsOut(n) == r
  {
    var q := w.RowsOut(n);
    assert q < n ==> w.StepFails(q);
  }

  /** The exit codes of the C command, spelled out: 3 for a checkpoint that
      cannot be loaded, 0 when everything works and no step fails. */
  lemma ExitExactly(w: DecodeWorld, nSteps: int, cache: CacheType)
    ensures w.Exit(nSteps, cache) == 3 <==> w.tokensMalloc && !w.loads
    ensures w.Exit(nSteps, cache) == 0 <==>
      && w.tokensMalloc && w.loads && nSteps >= 1 && cache != Unknown && w.creates && w.opens
      && forall k :: 0 <= k < nSteps ==> !w.decodeFails(k) && !w.noLogits(k)
    ensures w.Exit(nSteps, cache) == 0 || w.Exit(nSteps, cache) == 1 || w.Exit(nSteps, cache) == 3
  {
    if nSteps >= 1 {
      var r := w.RowsOut(nSteps);
      assert r < nSteps ==> w.StepFails(r);
      forall k | 0 <= k < r ensures !w.decodeFails(k) && !w.noLogits(k) { assert !w.StepFails(k); }
    }
  }

  /** The prompt as a batch, logits wanted where `wanted` says. */
  function PromptBatch(toks: seq<Token>, wanted: nat -> bool): (batch: seq<Slot>)
    ensures Tokens(batch) == toks
  {
    seq(|toks|, i requires 0 <= i < |toks| => Slot(toks[i], i, wanted(i)))
  }

  lemma {:induction false} OnlyLastWanted(toks: seq<Token>, k: nat)
    requires k <= |toks|
    ensures var batch := PromptBatch(toks, i => i + 1 == |toks|);
            Wanted(batch, k) == (if k > 0 && k == |toks| then 1 else 0)
  {
    if k > 0 {
      OnlyLastWanted(toks, k - 1);
    }
  }

  lemma {:induction false} AllWanted(toks: seq<Token>, k: nat)
    requires k <= |toks|
    ensures Wanted(PromptBatch(toks, i => true), k) == k
  {
    if k > 0 {
      AllWanted(toks, k - 1);
    }
  }

  /** One fed token: `llama_decode` of a batch of one, read at its only
      output row. */
  method FeedOne(ctx: Context, slot: Slot, index: int, fails: bool, missing: bool) returns (ok: bool, row: nat)
    requires ctx.Valid() && ctx.buffer.Length0 >= 1
    requires slot.wanted && slot.pos == |ctx.history| && (index == 0 || index == -1)
    modifies ctx, ctx.buffer
    ensures ctx.Valid() && ok == !(fails || missing)
    ensures ok ==> ctx.history == old(ctx.history) + [slot.token] && row == 0
    ensures ok ==> Row(ctx.buffer, 0) == ctx.llama.next(old(ctx.history) + [slot.token])
  {
    var batch := [slot];
    assert Wanted(batch, 0) == 0 && Wanted(batch, 1) == 1;
    ghost var before := ctx.history;
    var status := ctx.Decode(batch, fails);
    if status != 0 {
      return false, 0;
    }
    assert Tokens(batch) == [slot.token] && Tokens(batch)[..1] == [slot.token];
    assert Row(ctx.buffer, Wanted(batch, 0)) == ctx.Answer(before, batch, 0);
    var r := ctx.GetLogitsIth(index, missing);
    if r < 0 {
      return false, 0;
    }
    return true, r;
  }

  /* ---- the C driver ---- */

  /** The prompt in one batch. Its last entry wants logits, and both ways of
      asking for the others leave the answer to the whole prompt in the row
      the last entry reads. */
  method DecodePrompt(ctx: Context, batch: seq<Slot>, fails: bool, missing: bool) returns (ok: bool, row: nat)
    requires ctx.Valid() && ctx.history == [] && batch != [] && batch[|batch| - 1].wanted
    requires Wanted(batch, |batch|) <= ctx.buffer.Length0
    requires forall k :: 0 <= k < |batch| ==> batch[k].pos == k
    modifies ctx, ctx.buffer
    ensures ctx.Valid() && ok == !(fails || missing)
    ensures ok ==> ctx.history == Tokens(batch) && row < ctx.buffer.Length0
    ensures ok ==> Row(ctx.buffer, row) == ctx.llama.next(Tokens(batch))
  {
    var n := |batch| - 1;
    var status := ctx.Decode(batch, fails);
    if status != 0 {
      return false, 0;
    }
    LastAnswer(ctx, batch);
    var r := ctx.GetLogitsIth(n, missing);
    if r < 0 {
      return false, 0;
    }
    return true, r;
  }

  lemma LastAnswer(ctx: Context, batch: seq<Slot>)
    requires batch != [] && batch[|batch| - 1].wanted && ctx.Answered([], batch, |batch|)
    ensures var n := |batch| - 1;
      && Wanted(batch, n) < ctx.buffer.Length0 && Row(ctx.buffer, Wanted(batch, n)) == ctx.llama.next(Tokens(batch))
      && [] + Tokens(batch) == Tokens(batch)
  {
    var n := |batch| - 1;
    assert [] + Tokens(batch)[..n + 1] == Tokens(batch);
    assert Row(ctx.buffer, Wanted(batch, n)) == ctx.Answer([], batch, n);
  }

  lemma RowsSnoc(m: Llama, prompt: seq<Token>, n: nat)
    requires m.Valid()
    ensures Concat(GreedyRows(m, prompt, n + 1)) == Concat(GreedyRows(m, prompt, n)) + RowAt(m, prompt, n)
  {
    var rows := GreedyRows(m, prompt, n + 1);
    assert rows[..n] == GreedyRows(m, prompt, n) && rows[n] == RowAt(m, prompt, n);
  }

  lemma PicksSnoc(m: Llama, prompt: seq<Token>, n: nat)
    requires m.Valid() && n >= 1
    ensures prompt + Picks(m, prompt, n) == prompt + Picks(m, prompt, n - 1) + [Argmax(RowAt(m, prompt, n - 1))]
  {
  }

  /** Write the prompt's row, then feed the first maximum back, one token a
      call, writing each answer before the next call overwrites it. */
  method DecodeLoop(ctx: Context, w: DecodeWorld, toks: seq<Token>, nSteps: nat, first: nat,
                    out: OutFile<real>) returns (done: nat)
    requires ctx.Valid() && first < ctx.buffer.Length0 && nSteps >= 1 && !w.StepFails(0)
    requires ctx.history == toks && Row(ctx.buffer, first) == RowAt(ctx.llama, toks, 0) && out.content == []
    modifies ctx, ctx.buffer, out
    ensures done == w.RowsOut(nSteps)
    ensures out.content == Take(Concat(GreedyRows(ctx.llama, toks, done)), out.room)
    ensures done == nSteps ==> ctx.history == toks + Picks(ctx.llama, toks, nSteps - 1)
  {
    var m := ctx.llama;
    var logits: nat := first;
    RowsSnoc(m, toks, 0);
    RowsOutAt(w, 1, 1);
    assert GreedyRows(m, toks, 0) == [] && toks + Picks(m, toks, 0) == toks;
    out.Write(Row(ctx.buffer, logits));
    for step := 1 to nSteps
      invariant ctx.Valid() && logits < ctx.buffer.Length0 && w.RowsOut(step) == step
      invariant ctx.history == toks + Picks(m, toks, step - 1)
      invariant Row(ctx.buffer, logits) == RowAt(m, toks, step - 1)
      invariant out.content == Take(Concat(GreedyRows(m, toks, step)), out.room)
    {
      var next := FirstMaximum(ctx.buffer, logits);
      PicksSnoc(m, toks, step);
      var ok, row := FeedOne(ctx, ctx.BatchOfOne(next), -1, w.decodeFails(step), w.noLogits(step));
      if !ok {
        RowsOutAt(w, nSteps, step);
        return step;
      }
      logits := row;
      RowsSnoc(m, toks, step);
      TakeAppend(Concat(GreedyRows(m, toks, step)), RowAt(m, toks, step), out.room);
      out.Write(Row(ctx.buffer, logits));
    }
    return nSteps;
  }

  /** The C dumper's default command: every exit, everything acquired
      released in an order that frees a context before its model, and the
      rows that reached the file. */
  method CmdLogits(rt: Runtime, w: DecodeWorld, e: Engine, toks: seq<Token>, nSteps: int, cache: CacheType, flashOff: bool,
                   out: OutFile<real>)
    returns (rc: nat, ghost fed: seq<Token>)
    requires rt.Valid() && rt.live == map[] && e.Valid() && toks != []
    modifies rt, out
    ensures rt.Valid() && rt.live == map[]
    ensures rc == w.Exit(nSteps, cache)
    ensures !w.Opens(nSteps, cache) ==> out.content == old(out.content)
    ensures w.Opens(nSteps, cache) ==> out.content == Take(Concat(GreedyRows(e.At(ConfigOf(cache, flashOff)), toks, w.RowsOut(nSteps))), out.room)
    ensures rc == 0 ==> nSteps >= 1 && fed == toks + Picks(e.At(ConfigOf(cache, flashOff)), toks, nSteps - 1)
  {
    fed := [];
    var tokens := rt.Acquire(Memory, w.tokensMalloc);
    if tokens == Null {
      return 1, fed;
    }
    var model := rt.Acquire(Model, w.loads);
    if model == Null {
      rt.Free(tokens);
      return EXIT_MODEL_UNSUPPORTED, fed;
    }
    if nSteps < 1 {
      rt.Free(tokens);
      rt.Release(model, Model);
      return 1, fed;
    }
    if cache.Unknown? {
      rt.Release(model, Model);
      rt.Free(tokens);
      return 1, fed;
    }
    var context := rt.Acquire(Kind.Context, w.creates);
    if context == Null {
      rt.Release(model, Model);
      rt.Free(tokens);
      return 1, fed;
    }
    rc, fed := LogitsFrom(rt, w, e.At(ConfigOf(cache, flashOff)), toks, nSteps, out, tokens, model, context);
  }

  /** The five calls that end a run of the command. */
  method ReleaseAll(rt: Runtime, batch: Handle, context: Handle, model: Handle, tokens: Handle)
    requires rt.Valid() && batch.Handle? && context.Handle? && model.Handle? && tokens.Handle?
    requires tokens.id < model.id < context.id < batch.id
    requires rt.live == map[tokens.id := Memory, model.id := Model, context.id := Kind.Context, batch.id := Batch]
    modifies rt
    ensures rt.Valid() && rt.live == map[]
  {
    rt.Release(batch, Batch);
    rt.Release(context, Kind.Context);
    rt.Release(model, Model);
    rt.Free(tokens);
  }

  /** The command from the batch on, with the context made. */
  method LogitsFrom(rt: Runtime, w: DecodeWorld, m: Llama, toks: seq<Token>, nSteps: nat, out: OutFile<real>,
                    tokens: Handle, model: Handle, context: Handle) returns (rc: nat, ghost fed: seq<Token>)
    requires rt.Valid() && m.Valid() && toks != [] && nSteps >= 1
    requires tokens.Handle? && model.Handle? && context.Handle? && tokens.id < model.id < context.id < rt.given
    requires rt.live == map[tokens.id := Memory, model.id := Model, context.id := Kind.Context]
    modifies rt, out
    ensures rt.Valid() && rt.live == map[]
    ensures rc == (if w.StepFails(0) || !w.opens || w.RowsOut(nSteps) < nSteps then 1 else 0)
    ensures w.StepFails(0) || !w.opens ==> out.content == old(out.content)
    ensures !w.StepFails(0) && w.opens ==>
      out.content == Take(Concat(GreedyRows(m, toks, w.RowsOut(nSteps))), out.room)
    ensures rc == 0 ==> fed == toks + Picks(m, toks, nSteps - 1)
  {
    fed := [];
    var ctx := new Context(m, |toks|);
    var batch := rt.Acquire(Batch, true);
    var slots := PromptBatch(toks, i => i + 1 == |toks|);
    OnlyLastWanted(toks, |toks|);
    var ok: bool, logits: nat;
    ok, logits := DecodePrompt(ctx, slots, w.decodeFails(0), w.noLogits(0));
    if !ok {
      ReleaseAll(rt, batch, context, model, tokens);
      return 1, fed;
    }
    var f := rt.Acquire(File, w.opens);
    if f == Null {
      ReleaseAll(rt, batch, context, model, tokens);
      return 1, fed;
    }
    out.Truncate();
    assert toks + Picks(m, toks, 0) == toks;
    var done := DecodeLoop(ctx, w, toks, nSteps, logits, out);
    rt.Release(f, File);
    ReleaseAll(rt, batch, context, model, tokens);
    if done < nSteps {
      return 1, fed;
    }
    fed := ctx.history;
    return 0, fed;
  }

  /* ---- the C++ driver ---- */

  /** What the C++ dumper ends with: the tokens it picked and the rows it
      captured, the exit of a step count that does not fit, or a failed call
      (it then leaves without releasing anything). */
  datatype Dump = Dumped(picked: seq<Token>, rows: seq<seq<real>>) | DoesNotFit | DecodeFailed

  /** The C++ driver's decode mode: all prompt positions wanted, explicit
      positions, rows copied out before the next call overwrites them. A
      prompt longer than the context makes its decode call fail. */
  method DumpGreedy(w: DecodeWorld, e: Engine, toks: seq<Token>, nSteps: int, nCtx: nat) returns (d: Dump, ghost fed: seq<Token>)
    requires e.Valid() && toks != []
    ensures w.decodeFails(0) || |toks| > nCtx ==> d == DecodeFailed
    ensures !w.decodeFails(0) && |toks| <= nCtx ==> (d == DoesNotFit <==> nSteps < 1 || |toks| + nSteps > nCtx)
    ensures d.Dumped? ==> nSteps >= 1 && d.picked == Picks(e.At(REFERENCE), toks, nSteps) && d.rows == GreedyRows(e.At(REFERENCE), toks, nSteps)
    ensures d.Dumped? ==> fed == toks + Picks(e.At(REFERENCE), toks, nSteps - 1)
    ensures nSteps >= 1 && |toks| + nSteps <= nCtx ==>
      (d.Dumped? <==> forall k :: 0 <= k < nSteps ==> !w.decodeFails(k))
  {
    fed := [];
    if |toks| > nCtx {
      return DecodeFailed, fed;
    }
    var ctx := new Context(e.At(REFERENCE), nCtx);
    var slots := PromptBatch(toks, i => true);
    AllWanted(toks, |toks|);
    var ok: bool, logits: nat;
    ok, logits := DecodePrompt(ctx, slots, w.decodeFails(0), false);
    if !ok {
      return DecodeFailed, fed;
    }
    if nSteps < 1 || |toks| + nSteps > nCtx {
      return DoesNotFit, fed;
    }
    assert toks + Picks(e.At(REFERENCE), toks, 0) == toks;
    var picked: seq<Token>, rows: seq<seq<real>>;
    ok, picked, rows := CaptureLoop(ctx, w, toks, nSteps, logits);
    if !ok {
      return DecodeFailed, fed;
    }
    fed := ctx.history;
    return Dumped(picked, rows), fed;
  }

  /** One more row captured and one more token picked. */
  lemma CaptureStep(m: Llama, prompt: seq<Token>, n: nat)
    requires m.Valid()
    ensures GreedyRows(m, prompt, n + 1) == GreedyRows(m, prompt, n) + [RowAt(m, prompt, n)]
    ensures Picks(m, prompt, n + 1) == Picks(m, prompt, n) + [Argmax(RowAt(m, prompt, n))]
    ensures prompt + Picks(m, prompt, n + 1) == prompt + Picks(m, prompt, n) + [Argmax(RowAt(m, prompt, n))]
  {
  }

  /** The capture loop: copy the row, pick its first maximum, and feed it
      unless it is the last. */
  method CaptureLoop(ctx: Context, w: DecodeWorld, toks: seq<Token>, nSteps: nat, first: nat)
    returns (ok: bool, picked: seq<Token>, rows: seq<seq<real>>)
    requires ctx.Valid() && first < ctx.buffer.Length0 && nSteps >= 1 && !w.decodeFails(0)
    requires ctx.history == toks && Row(ctx.buffer, first) == RowAt(ctx.llama, toks, 0)
    modifies ctx, ctx.buffer
    ensures ok <==> forall k :: 0 <= k < nSteps ==> !w.decodeFails(k)
    ensures ok ==> picked == Picks(ctx.llama, toks, nSteps) && rows == GreedyRows(ctx.llama, toks, nSteps)
    ensures ok ==> ctx.history == toks + Picks(ctx.llama, toks, nSteps - 1)
  {
    var m := ctx.llama;
    var step, logits: nat := 0, first;
    picked, rows := [], [];
    while true
      invariant ctx.Valid() && logits < ctx.buffer.Length0 && step < nSteps
      invariant forall k :: 0 <= k <= step ==> !w.decodeFails(k)
      invariant ctx.history == toks + Picks(m, toks, step) && Row(ctx.buffer, logits) == RowAt(m, toks, step)
      invariant picked == Picks(m, toks, step) && rows == GreedyRows(m, toks, step)
      decreases nSteps - step
    {
      CaptureStep(m, toks, step);
      rows := rows + [Row(ctx.buffer, logits)];
      var best := FirstMaximum(ctx.buffer, logits);
      picked := picked + [best];
      if step + 1 == nSteps {
        return true, picked, rows;
      }
      var slot := Slot(best, |toks| + step, true);
      ok, logits := FeedOne(ctx, slot, 0, w.decodeFails(step + 1), false);
      if !ok {
        return false, picked, rows;
      }
      step := step + 1;
    }
  }

  /* ---- both drivers ---- */

  /** Row `i` of equally long rows, in their concatenation. */
  lemma {:induction false} ChunkIsRow(rows: seq<seq<real>>, width: nat, i: nat)
    requires i < |rows| && forall k :: 0 <= k < |rows| ==> |rows[k]| == width
    ensures |Concat(rows)| == |rows| * width && 0 <= i * width <= i * width + width <= |Concat(rows)|
    ensures Concat(rows)[i * width..i * width + width] == rows[i]
    decreases |rows|
  {
    var n := |rows| - 1;
    var init := rows[..n];
    ConcatLength(init, width);
    assert (n + 1) * width == n * width + width;
    if i < n {
      ChunkIsRow(init, width, i);
    }
  }

  lemma {:induction false} ConcatLength(rows: seq<seq<real>>, width: nat)
    requires forall k :: 0 <= k < |rows| ==> |rows[k]| == width
    ensures |Concat(rows)| == |rows| * width
    decreases |rows|
  {
    if rows != [] {
      ConcatLength(rows[..|rows| - 1], width);
      assert |rows| * width == (|rows| - 1) * width + width;
    }
  }

  lemma EqualChunks(rows: seq<seq<real>>, rows': seq<seq<real>>, width: nat)
    requires |rows| == |rows'| && Concat(rows) == Concat(rows')
    requires forall k :: 0 <= k < |rows| ==> |rows[k]| == |rows'[k]| == width
    ensures rows == rows'
  {
    forall i | 0 <= i < |rows| ensures rows[i] == rows'[i] {
      ChunkIsRow(rows, width, i);
      ChunkIsRow(rows', width, i);
    }
  }

  lemma FilesAgreeExactly(m: Llama, m': Llama, prompt: seq<Token>, n: nat)
    requires m.Valid() && m'.Valid() && m.nVocab == m'.nVocab
    ensures Concat(GreedyRows(m, prompt, n)) == Concat(GreedyRows(m', prompt, n)) <==> AlikeAlong(m, m', prompt, n)
    ensures AlikeAlong(m, m', prompt, n) ==> GreedyRows(m, prompt, n) == GreedyRows(m', prompt, n)
  {
    var rows, rows' := GreedyRows(m, prompt, n), GreedyRows(m', prompt, n);
    RunsAgreeExactly(m, m', prompt, n);
    if Concat(rows) == Concat(rows') {
      EqualChunks(rows, rows', m.nVocab);
    }
  }

  lemma EqualConfigsAlike(m: Llama, prompt: seq<Token>, n: nat)
    requires m.Valid()
    ensures AlikeAlong(m, m, prompt, n)
  {
  }

  lemma AlikePrefix(m: Llama, m': Llama, prompt: seq<Token>, n: nat)
    requires m.Valid() && m'.Valid() && n >= 1 && AlikeAlong(m, m', prompt, n)
    ensures Picks(m, prompt, n - 1) == Picks(m', prompt, n - 1)
  {
    AlikePicks(m, m', prompt, n - 1);
  }

  lemma TakeAll(s: seq<real>, t: seq<real>, room: nat)
    requires |s| == |t| <= room
    ensures Take(s, room) == t <==> s == t
  {
  }

  /** What the rows of the second model say of a file of the first's. */
  lemma FileAgainstRows(m: Llama, m': Llama, prompt: seq<Token>, n: nat, room: nat)
    requires m.Valid() && m'.Valid() && m.nVocab == m'.nVocab && n >= 1
    ensures var file, rows := Take(Concat(GreedyRows(m, prompt, n)), room), GreedyRows(m', prompt, n);
      && (AlikeAlong(m, m', prompt, n) ==> file == Take(Concat(rows), room) && Picks(m, prompt, n - 1) == Picks(m', prompt, n - 1))
      && (|Concat(rows)| <= room ==> (file == Concat(rows) <==> AlikeAlong(m, m', prompt, n)))
  {
    var c, x := GreedyRows(m, prompt, n), GreedyRows(m', prompt, n);
    FilesAgreeExactly(m, m', prompt, n);
    ConcatLength(c, m.nVocab);
    ConcatLength(x, m.nVocab);
    if |Concat(x)| <= room {
      TakeAll(Concat(c), Concat(x), room);
    }
    if AlikeAlong(m, m', prompt, n) {
      AlikePrefix(m, m', prompt, n);
    }
  }

  /** The two drivers, run on the same checkpoint, prompt and step count, when
      both come through. The C++ driver's rows are the greedy run of the
      reference setting. The C driver's file is their concatenation, as far as
      the device had room, and both fed the same tokens, if its own setting
      answers alike on the histories of that run; with room enough, only if it
      does. With an f32 cache and flash attention off it always does. */
  method CompareDrivers(rt: Runtime, wc: DecodeWorld, wx: DecodeWorld, e: Engine, toks: seq<Token>, nSteps: int,
                        cache: CacheType, flashOff: bool, nCtx: nat, out: OutFile<real>)
    returns (rc: nat, d: Dump, ghost fedC: seq<Token>, ghost fedX: seq<Token>)
    requires rt.Valid() && rt.live == map[] && e.Valid() && toks != []
    modifies rt, out
    ensures rc == 0 && d.Dumped? ==>
      && nSteps >= 1 && |d.picked| == nSteps && |d.rows| == nSteps && toks <= fedX
      && IsGreedyRun(e.At(REFERENCE), toks, d.rows, fedX[|toks|..]) && d.picked[..nSteps - 1] == fedX[|toks|..]
    ensures rc == 0 && d.Dumped? && AlikeAlong(e.At(ConfigOf(cache, flashOff)), e.At(REFERENCE), toks, nSteps) ==>
      out.content == Take(Concat(d.rows), out.room) && fedC == fedX
    ensures rc == 0 && d.Dumped? && |Concat(d.rows)| <= out.room ==>
      (out.content == Concat(d.rows) <==> AlikeAlong(e.At(ConfigOf(cache, flashOff)), e.At(REFERENCE), toks, nSteps))
    ensures cache.F32? && flashOff && nSteps >= 0 ==>
      AlikeAlong(e.At(ConfigOf(cache, flashOff)), e.At(REFERENCE), toks, nSteps)
  {
    rc, fedC := CmdLogits(rt, wc, e, toks, nSteps, cache, flashOff, out);
    d, fedX := DumpGreedy(wx, e, toks, nSteps, nCtx);
    ghost var c, x := e.At(ConfigOf(cache, flashOff)), e.At(REFERENCE);
    if nSteps >= 0 {
      EqualConfigsAlike(x, toks, nSteps);
    }
    if rc == 0 && d.Dumped? {
      RowsAreGreedy(x, toks, nSteps);
      PicksPrefix(x, toks, nSteps - 1, nSteps);
      assert fedX[|toks|..] == Picks(x, toks, nSteps - 1);
      FileAgainstRows(c, x, toks, nSteps, out.room);
    }
  }

  /** Engines that one switch, or both, turn from token 1 to token 0. */
  function CacheSensitive(): Engine {
    Engine(2, (c: Config, _: seq<Token>) => if c.f32Cache then [0.0, 1.0] else [1.0, 0.0])
  }

  function FlashSensitive(): Engine {
    Engine(2, (c: Config, _: seq<Token>) => if c.flashOff then [0.0, 1.0] else [1.0, 0.0])
  }

  function Sensitive(): Engine {
    Engine(2, (c: Config, _: seq<Token>) => if c.f32Cache && c.flashOff then [0.0, 1.0] else [1.0, 0.0])
  }

  /** The first row and the first token of a run. */
  ghost predicate Starts(m: Llama, prompt: seq<Token>, row: seq<real>, token: Token)
    requires m.Valid()
  {
    GreedyRows(m, prompt, 1) == [row] && Picks(m, prompt, 1) == [token]
  }

  lemma StartsWith(m: Llama, prompt: seq<Token>, row: seq<real>)
    requires m.Valid() && m.next(prompt) == row && |row| == 2 && row[0] != row[1]
    ensures Starts(m, prompt, row, if row[1] > row[0] then 1 else 0)
  {
    assert prompt + Picks(m, prompt, 0) == prompt;
    assert RowAt(m, prompt, 0) == row;
    assert Argmax(row) == if row[1] > row[0] then 1 else 0;
  }

  /** The cache switch reaches the context: only an f32 cache starts with
      token 1. */
  lemma CacheReaches(prompt: seq<Token>, cache: CacheType, flashOff: bool)
    ensures var e := CacheSensitive();
      && e.Valid()
      && (if cache == F32 then Starts(e.At(ConfigOf(cache, flashOff)), prompt, [0.0, 1.0], 1)
          else Starts(e.At(ConfigOf(cache, flashOff)), prompt, [1.0, 0.0], 0))
  {
    var m := CacheSensitive().At(ConfigOf(cache, flashOff));
    StartsWith(m, prompt, m.next(prompt));
  }

  /** The flash-attention switch reaches the context. */
  lemma FlashReaches(prompt: seq<Token>, cache: CacheType, flashOff: bool)
    ensures var e := FlashSensitive();
      && e.Valid()
      && (if flashOff then Starts(e.At(ConfigOf(cache, flashOff)), prompt, [0.0, 1.0], 1)
          else Starts(e.At(ConfigOf(cache, flashOff)), prompt, [1.0, 0.0], 0))
  {
    var m := FlashSensitive().At(ConfigOf(cache, flashOff));
    StartsWith(m, prompt, m.next(prompt));
  }

  /** The C++ driver's context has an f32 cache and no flash attention. */
  lemma ReferenceSetting(prompt: seq<Token>)
    ensures CacheSensitive().Valid() && Starts(CacheSensitive().At(REFERENCE), prompt, [0.0, 1.0], 1)
    ensures FlashSensitive().Valid() && Starts(FlashSensitive().At(REFERENCE), prompt, [0.0, 1.0], 1)
    ensures Sensitive().Valid() && Starts(Sensitive().At(REFERENCE), prompt, [0.0, 1.0], 1)
  {
    StartsWith(CacheSensitive().At(REFERENCE), prompt, [0.0, 1.0]);
    StartsWith(FlashSensitive().At(REFERENCE), prompt, [0.0, 1.0]);
    StartsWith(Sensitive().At(REFERENCE), prompt, [0.0, 1.0]);
  }

  /** With any setting but f32 and flash attention off the two drivers can
      disagree, from the first row and token on. */
  lemma DefaultsDisagree(prompt: seq<Token>, cache: CacheType, flashOff: bool)
    requires !(cache == F32 && flashOff)
    ensures var e := Sensitive();
      && e.Valid()
      && Starts(e.At(ConfigOf(cache, flashOff)), prompt, [1.0, 0.0], 0) && Starts(e.At(REFERENCE), prompt, [0.0, 1.0], 1)
  {
    var m := Sensitive().At(ConfigOf(cache, flashOff));
    StartsWith(m, prompt, m.next(prompt));
    ReferenceSetting(prompt);
  }

  /** Both drivers answer alike for this engine, prompt and step count. */
  ghost predicate Alike(e: Engine, cache: CacheType, flashOff: bool, prompt: seq<Token>, n: nat) {
    e.Valid() ==> AlikeAlong(e.At(ConfigOf(cache, flashOff)), e.At(REFERENCE), prompt, n)
  }

  /** The drivers agree on every engine, prompt and step count if and only if
      the C driver is told f32 and no flash attention. */
  lemma SettingsAgreeExactly(cache: CacheType, flashOff: bool)
    ensures (forall e, prompt, n :: Alike(e, cache, flashOff, prompt, n)) <==> cache == F32 && flashOff
  {
    if cache == F32 && flashOff {
      forall e, prompt, n ensures Alike(e, cache, flashOff, prompt, n) {
        if e.Valid() {
          EqualConfigsAlike(e.At(REFERENCE), prompt, n);
        }
      }
    } else {
      DefaultsDisagree([], cache, flashOff);
      var e := Sensitive();
      if Alike(e, cache, flashOff, [], 1) {
        RunsAgreeExactly(e.At(ConfigOf(cache, flashOff)), e.At(REFERENCE), [], 1);
      }
      assert !Alike(e, cache, flashOff, [], 1);
    }
  }
}
