/** From a model to its decode golden: the C++ driver's run, the file it
    prints, and what the golden check reads in it. */
module GoldenRuns {
  import opened Options
  import opened Greedy
  import opened GoldenCheck
  import opened DecodeGoldens
  import LlamaDecode

  /** The file of a greedy run of `n` steps. */
  ghost function GreedyFile(d: Decimal, m: Llama, prompt: seq<Token>, n: nat): string
    requires m.Valid()
  {
    PrintDecode(d, prompt, Picks(m, prompt, n), GreedyRows(m, prompt, n), n)
  }

  /** What parsing that file has to give. */
  ghost function ParsedRun(m: Llama, prompt: seq<Token>, n: nat): Parsed
    requires m.Valid()
  {
    Parsed(Some(IntTexts(Picks(m, prompt, n))), Concat(GreedyRows(m, prompt, n)))
  }

  /** A successful run of the driver prints the greedy file of the reference
      setting, and parsing it gives back the picked tokens and the greedy
      rows, concatenated. */
  method DumpToGolden(w: LlamaDecode.DecodeWorld, d: Decimal, e: LlamaDecode.Engine, prompt: seq<Token>, nSteps: int, nCtx: nat)
    returns (text: Option<string>)
    requires e.Valid() && prompt != []
    ensures text.Some? <==>
      nSteps >= 1 && |prompt| + nSteps <= nCtx && forall k :: 0 <= k < nSteps ==> !w.decodeFails(k)
    ensures text.Some? ==> text.value == GreedyFile(d, e.At(LlamaDecode.REFERENCE), prompt, nSteps)
    ensures text.Some? && d.PrintsAll(GreedyRows(e.At(LlamaDecode.REFERENCE), prompt, nSteps)) ==>
      ParseDecode(d, text.value) == ParsedRun(e.At(LlamaDecode.REFERENCE), prompt, nSteps)
  {
    var dump, fed := LlamaDecode.DumpGreedy(w, e, prompt, nSteps, nCtx);
    if !dump.Dumped? {
      return None;
    }
    if d.PrintsAll(dump.rows) {
      DecodeRoundTrips(d, prompt, dump.picked, dump.rows, nSteps);
    }
    return Some(PrintDecode(d, prompt, dump.picked, dump.rows, nSteps));
  }

  lemma {:induction false} SomeLogit(rows: seq<seq<real>>, width: nat)
    requires rows != [] && width > 0 && forall k :: 0 <= k < |rows| ==> |rows[k]| == width
    ensures Concat(rows) != []
  {
    assert |rows[|rows| - 1]| == width;
  }

  /** Checking the golden of one model against a run of another says SAME if
      and only if both pick the same tokens and every logit of every row is
      within the tolerance of its counterpart. */
  lemma GoldenComparesModels(d: Decimal, m: Llama, m': Llama, prompt: seq<Token>, n: nat, tol: real)
    requires m.Valid() && m'.Valid() && n >= 1
    requires d.PrintsAll(GreedyRows(m, prompt, n)) && d.PrintsAll(GreedyRows(m', prompt, n))
    ensures var was, out := GreedyFile(d, m, prompt, n), GreedyFile(d, m', prompt, n);
      CheckDecode(d, was, out, tol) ==
      if Agree(Picks(m, prompt, n), Concat(GreedyRows(m, prompt, n)),
               Picks(m', prompt, n), Concat(GreedyRows(m', prompt, n)), tol)
      then Checked(Same, was) else Checked(Rewritten, out)
  {
    var rows, rows' := GreedyRows(m, prompt, n), GreedyRows(m', prompt, n);
    SomeLogit(rows', m'.nVocab);
    DecodeRoundTrips(d, prompt, Picks(m, prompt, n), rows, n);
    DecodeRoundTrips(d, prompt, Picks(m', prompt, n), rows', n);
    CheckComparesParsed(d, GreedyFile(d, m, prompt, n), GreedyFile(d, m', prompt, n), tol,
                        Picks(m, prompt, n), Concat(rows), Picks(m', prompt, n), Concat(rows'));
  }
}
