/** A llama.cpp context as the drivers use it: a token history, and one
    buffer of output rows that every decode call overwrites. */
module LlamaContext {
  import opened Vectors
  import opened Greedy

  /** One batch entry: a token, its position, whether its logits are wanted. */
  datatype Slot = Slot(token: Token, pos: int, wanted: bool)

  function Tokens(batch: seq<Slot>): (r: seq<Token>) {
    seq(|batch|, i requires 0 <= i < |batch| => batch[i].token)
  }

  /** How many of the first `k` entries want logits: the buffer row of entry
      `k`, if it wants one. */
  function Wanted(batch: seq<Slot>, k: nat): (r: nat)
    requires k <= |batch|
    ensures r <= k
  {
    if k == 0 then 0 else Wanted(batch, k - 1) + (if batch[k - 1].wanted then 1 else 0)
  }

  lemma {:induction false} WantedMonotone(batch: seq<Slot>, k: nat, l: nat)
    requires k <= l <= |batch|
    ensures Wanted(batch, k) <= Wanted(batch, l)
    decreases l - k
  {
    if k < l {
      WantedMonotone(batch, k, l - 1);
    }
  }

  /** Wanted entries take distinct buffer rows, in order. */
  lemma WantedBefore(batch: seq<Slot>, i: nat)
    requires i <= |batch|
    ensures forall k :: 0 <= k < i && batch[k].wanted ==> Wanted(batch, k) < Wanted(batch, i)
  {
    forall k | 0 <= k < i && batch[k].wanted ensures Wanted(batch, k) < Wanted(batch, i) {
      WantedMonotone(batch, k + 1, i);
    }
  }

  class Context {
    const llama: Llama
    const buffer: array2<real>
    var history: seq<Token>
    var rowOf: seq<int>
    var outputs: nat

    ghost predicate Valid()
      reads this
    {
      && llama.Valid() && buffer.Length1 == llama.nVocab && outputs <= buffer.Length0
      && forall k :: 0 <= k < |rowOf| ==> -1 <= rowOf[k] < outputs
    }

    constructor (llama: Llama, rows: nat)
      requires llama.Valid()
      ensures Valid() && fresh(buffer) && this.llama == llama && buffer.Length0 == rows && history == []
    {
      this.llama, buffer := llama, new real[rows, llama.nVocab]((i, j) => 0.0);
      history, rowOf, outputs := [], [], 0;
    }

    /** The answer to the history extended by the batch up to entry `k`. */
    ghost function Answer(before: seq<Token>, batch: seq<Slot>, k: nat): seq<real>
      requires k < |batch|
    {
      llama.next(before + Tokens(batch)[..k + 1])
    }

    /** The wanted rows of the first `i` entries are in the buffer. */
    ghost predicate Answered(before: seq<Token>, batch: seq<Slot>, i: nat)
      requires i <= |batch|
      reads buffer
    {
      forall k :: 0 <= k < i && batch[k].wanted ==>
        Wanted(batch, k) < buffer.Length0 && Row(buffer, Wanted(batch, k)) == Answer(before, batch, k)
    }

    /** `llama_decode`: unless it fails, the batch joins the history and the
        wanted rows overwrite the buffer from its start. Positions must
        continue the history. */
    method Decode(batch: seq<Slot>, fails: bool) returns (status: int)
      requires Valid() && Wanted(batch, |batch|) <= buffer.Length0
      requires forall k :: 0 <= k < |batch| ==> batch[k].pos == |history| + k
      modifies this, buffer
      ensures Valid()
      ensures fails ==> status != 0 && history == old(history)
      ensures !fails ==> status == 0 && history == old(history) + Tokens(batch)
      ensures !fails ==> outputs == Wanted(batch, |batch|) && |rowOf| == |batch|
      ensures !fails ==> forall k :: 0 <= k < |batch| ==>
        rowOf[k] == (if batch[k].wanted then Wanted(batch, k) else -1)
      ensures !fails ==> Answered(old(history), batch, |batch|)
    {
      if fails {
        return 1;
      }
      var rows: seq<int> := [];
      var n: nat := 0;
      for i := 0 to |batch|
        invariant n == Wanted(batch, i) && |rows| == i && history == old(history)
        invariant forall k :: 0 <= k < i ==> rows[k] == (if batch[k].wanted then Wanted(batch, k) else -1)
        invariant Answered(history, batch, i)
      {
        WantedMonotone(batch, i + 1, |batch|);
        if batch[i].wanted {
          WantedBefore(batch, i);
          WriteRow(n, llama.next(history + Tokens(batch)[..i + 1]));
          rows, n := rows + [n], n + 1;
        } else {
          rows := rows + [-1];
        }
      }
      WantedBefore(batch, |batch|);
      history, rowOf, outputs := history + Tokens(batch), rows, n;
      return 0;
    }

    method WriteRow(r: nat, row: seq<real>)
      requires r < buffer.Length0 && |row| == buffer.Length1
      modifies buffer
      ensures Row(buffer, r) == row
      ensures forall i :: 0 <= i < buffer.Length0 && i != r ==> Row(buffer, i) == old(Row(buffer, i))
    {
      for v := 0 to |row|
        invariant forall j :: 0 <= j < v ==> buffer[r, j] == row[j]
        invariant forall i, j :: 0 <= i < buffer.Length0 && 0 <= j < buffer.Length1 && i != r ==>
          buffer[i, j] == old(buffer[i, j])
      {
        buffer[r, v] := row[v];
      }
    }

    /** `llama_get_logits_ith`: the buffer row of batch entry `i`, counted
        from the last output when negative; -1 stands for NULL. */
    method GetLogitsIth(i: int, missing: bool) returns (r: int)
      requires Valid()
      ensures -1 <= r < outputs
      ensures !missing ==> r == (if i >= 0 then (if i < |rowOf| then rowOf[i] else -1)
                              else if outputs + i >= 0 then outputs + i else -1)
      ensures missing ==> r == -1
    {
      if missing {
        return -1;
      }
      if i >= 0 {
        return if i < |rowOf| then rowOf[i] else -1;
      }
      return if outputs + i >= 0 then outputs + i else -1;
    }

    /** `llama_batch_get_one`: one token, position left to the context, its
        logits wanted. */
    function BatchOfOne(token: Token): Slot
      reads this
    {
      Slot(token, |history|, true)
    }
  }

  /** The argmax loop both drivers share, over a row of the live buffer. */
  method FirstMaximum(buffer: array2<real>, row: nat) returns (best: nat)
    requires row < buffer.Length0 && buffer.Length1 > 0
    ensures best == Argmax(Row(buffer, row))
  {
    best := 0;
    for v := 1 to buffer.Length1
      invariant best == ArgmaxN(Row(buffer, row), v)
    {
      if buffer[row, v] > buffer[row, best] {
        best := v;
      }
    }
  }
}
