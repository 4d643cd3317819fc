/** The dumper's `--embed` command: a buffer grown on demand, and one exit
    path that every decode outcome shares. */
module LlamaEmbed {
  import opened Greedy
  import opened LlamaRuntime

  /** What can go wrong outside the program, and the library's answers: the
      number of tokens the text needs, the tokens, `llama_decode`'s status
      and the pooled vector, if there is one. */
  datatype EmbedWorld = EmbedWorld(
    loads: bool, toksMalloc: bool, reallocs: bool, creates: bool,
    ids: seq<Token>, status: int, pooled: seq<Token> -> Pooled) {

    /** The exit code, in the order the checks are made: a positive decode
        status is a warning, not a failure. */
    function Exit(textLen: nat): nat {
      if !loads then EXIT_MODEL_UNSUPPORTED
      else if !toksMalloc then 1
      else if |ids| > textLen + 8 && !reallocs then 1
      else if ids == [] || !creates || status < 0 || pooled(ids).NoVector? then 1
      else 0
    }
  }

  /** The exit codes, spelled out. */
  lemma ExitExactly(w: EmbedWorld, textLen: nat)
    ensures w.Exit(textLen) == 3 <==> !w.loads
    ensures w.Exit(textLen) == 0 <==>
      && w.loads && w.toksMalloc && (|w.ids| <= textLen + 8 || w.reallocs) && |w.ids| > 0
      && w.creates && w.status >= 0 && w.pooled(w.ids).Vector?
    ensures w.Exit(textLen) == 0 || w.Exit(textLen) == 1 || w.Exit(textLen) == 3
  {
  }

  datatype Pooled = NoVector | Vector(v: seq<real>)

  /** `llama_tokenize` into a buffer of `cap`: how many it wrote, or minus
      how many it needs. */
  function Tokenize(ids: seq<Token>, cap: nat): int {
    if |ids| <= cap then |ids| else -|ids|
  }

  /** `realloc`: on failure the old block stays live; on success it is gone
      and the new one is. */
  method Realloc(rt: Runtime, h: Handle, ok: bool) returns (grown: Handle)
    requires rt.Valid() && h.Handle? && h.id in rt.live && rt.live[h.id] == Memory
    modifies rt
    ensures rt.Valid()
    ensures !ok ==> grown == Null && rt.live == old(rt.live)
    ensures ok ==> grown.Handle? && grown.id == old(rt.given) < rt.given && grown.id !in old(rt.live)
                   && rt.live == old(rt.live)[grown.id := Memory] - {h.id}
  {
    if !ok {
      return Null;
    }
    grown := rt.Acquire(Memory, true);
    rt.Free(h);
  }

  /** `--embed`: the vector printed, every exit, everything released. */
  method CmdEmbed(rt: Runtime, w: EmbedWorld, textLen: nat) returns (rc: nat, printed: seq<real>)
    requires rt.Valid() && rt.live == map[]
    modifies rt
    ensures rt.Valid() && rt.live == map[]
    ensures rc == w.Exit(textLen)
    ensures rc == 0 ==> w.pooled(w.ids) == Vector(printed)
    ensures rc != 0 ==> printed == []
  {
    printed := [];
    var model := rt.Acquire(Model, w.loads);
    if model == Null {
      return EXIT_MODEL_UNSUPPORTED, [];
    }
    var toks := rt.Acquire(Memory, w.toksMalloc);
    if toks == Null {
      rt.Release(model, Model);
      return 1, [];
    }
    var n := Tokenize(w.ids, textLen + 8);
    if n < 0 {
      var grown := Realloc(rt, toks, w.reallocs);
      if grown == Null {
        rt.Free(toks);
        rt.Release(model, Model);
        return 1, [];
      }
      toks := grown;
      n := Tokenize(w.ids, -n);
    }
    assert rt.live == map[model.id := Model, toks.id := Memory] && model.id < toks.id < rt.given;
    if n <= 0 {
      rt.Free(toks);
      rt.Release(model, Model);
      return 1, [];
    }
    var context := rt.Acquire(Kind.Context, w.creates);
    if context == Null {
      rt.Free(toks);
      rt.Release(model, Model);
      return 1, [];
    }
    rc, printed := EmbedWith(rt, w, model, toks, context);
  }

  /** Dropping the last of three and of two. */
  lemma Dropped(a: nat, b: nat, c: nat, x: Kind, y: Kind, z: Kind)
    requires a < b < c
    ensures map[a := x, b := y, c := z] - {c} == map[a := x, b := y]
    ensures map[a := x, b := y] - {a} == map[b := y]
    ensures map[b := y] - {b} == map[]
  {
  }

  /** The exit every outcome takes. */
  method ReleaseAll(rt: Runtime, model: Handle, toks: Handle, context: Handle, batch: Handle)
    requires rt.Valid() && model.Handle? && toks.Handle? && context.Handle? && batch.Handle?
    requires model.id < toks.id < context.id < batch.id
    requires rt.live == map[model.id := Model, toks.id := Memory, context.id := Kind.Context][batch.id := Batch]
    modifies rt
    ensures rt.Valid() && rt.live == map[]
  {
    PutTake(map[model.id := Model, toks.id := Memory, context.id := Kind.Context], batch.id, Batch);
    Dropped(model.id, toks.id, context.id, Model, Memory, Kind.Context);
    rt.Release(batch, Batch);
    rt.Release(context, Kind.Context);
    rt.Release(model, Model);
    rt.Free(toks);
  }

  /** Batch, decode and pool. */
  method EmbedWith(rt: Runtime, w: EmbedWorld, model: Handle, toks: Handle, context: Handle) returns (rc: nat, printed: seq<real>)
    requires rt.Valid() && model.Handle? && toks.Handle? && context.Handle?
    requires model.id < toks.id < context.id < rt.given
    requires rt.live == map[model.id := Model, toks.id := Memory, context.id := Kind.Context]
    modifies rt
    ensures rt.Valid() && rt.live == map[]
    ensures rc == (if w.status < 0 || w.pooled(w.ids).NoVector? then 1 else 0)
    ensures if rc == 0 then w.pooled(w.ids) == Vector(printed) else printed == []
  {
    var batch := rt.Acquire(Batch, true);
    rc, printed := 0, [];
    if w.status < 0 {
      rc := 1;
    } else {
      match w.pooled(w.ids)
      case NoVector =>
        rc := 1;
      case Vector(v) =>
        printed := v;
    }
    ReleaseAll(rt, model, toks, context, batch);
  }
}
