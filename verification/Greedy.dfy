/** Greedy decoding, as a function of an abstract deterministic model: what
    both drivers are measured against. */
module Greedy {
  type Token = int

  /** A model: the logits of the position behind a token history. */
  datatype Llama = Llama(nVocab: nat, next: seq<Token> -> seq<real>) {
    ghost predicate Valid() {
      nVocab > 0 && forall history :: |next(history)| == nVocab
    }
  }

  /** The position the argmax loop holds after `n` logits. */
  function ArgmaxN(row: seq<real>, n: nat): (r: nat)
    requires 0 < n <= |row|
    ensures r < n
  {
    if n == 1 then 0
    else
      var best := ArgmaxN(row, n - 1);
      if row[n - 1] > row[best] then n - 1 else best
  }

  function Argmax(row: seq<real>): (r: nat)
    requires row != []
    ensures r < |row|
  {
    ArgmaxN(row, |row|)
  }

  /** `best` is the first maximum of a row. */
  ghost predicate IsFirstMaximum(row: seq<real>, best: int) {
    && 0 <= best < |row|
    && (forall v :: 0 <= v < |row| ==> row[v] <= row[best])
    && (forall v :: 0 <= v < best ==> row[v] < row[best])
  }

  lemma {:induction false} ArgmaxNIsFirst(row: seq<real>, n: nat)
    requires 0 < n <= |row|
    ensures var best := ArgmaxN(row, n);
      && (forall v :: 0 <= v < n ==> row[v] <= row[best])
      && (forall v :: 0 <= v < best ==> row[v] < row[best])
  {
    if n > 1 {
      ArgmaxNIsFirst(row, n - 1);
    }
  }

  /** The loop finds the first maximum, and there is only one. */
  lemma ArgmaxIsFirstMaximum(row: seq<real>, best: int)
    requires row != []
    ensures IsFirstMaximum(row, best) <==> best == Argmax(row)
  {
    ArgmaxNIsFirst(row, |row|);
    var a := Argmax(row);
    assert IsFirstMaximum(row, a);
  }

  /** The first `n` tokens picked. */
  ghost function Picks(m: Llama, prompt: seq<Token>, n: nat): (r: seq<Token>)
    requires m.Valid()
    ensures |r| == n
  {
    if n == 0 then []
    else
      var before := Picks(m, prompt, n - 1);
      before + [Argmax(m.next(prompt + before))]
  }

  /** The row the `i`th token is picked from. */
  ghost function RowAt(m: Llama, prompt: seq<Token>, i: nat): (r: seq<real>)
    requires m.Valid()
    ensures |r| == m.nVocab
  {
    m.next(prompt + Picks(m, prompt, i))
  }

  ghost function GreedyRows(m: Llama, prompt: seq<Token>, n: nat): (r: seq<seq<real>>)
    requires m.Valid()
    ensures |r| == n
  {
    seq(n, i requires 0 <= i < n => RowAt(m, prompt, i))
  }

  function Concat<T>(rows: seq<seq<T>>): seq<T> {
    if rows == [] then [] else Concat(rows[..|rows| - 1]) + rows[|rows| - 1]
  }

  /** A greedy run: every row is the model's answer to the prompt and the
      tokens fed before it, and every token fed is the first maximum of the
      row before it. */
  ghost predicate IsGreedyRun(m: Llama, prompt: seq<Token>, rows: seq<seq<real>>, fed: seq<Token>) {
    && |rows| >= 1 && |fed| == |rows| - 1
    && (forall i :: 0 <= i < |rows| ==> rows[i] == m.next(prompt + fed[..i]))
    && (forall i :: 0 <= i < |fed| ==> IsFirstMaximum(rows[i], fed[i]))
  }

  lemma {:induction false} PicksPrefix(m: Llama, prompt: seq<Token>, i: nat, n: nat)
    requires m.Valid() && i <= n
    ensures Picks(m, prompt, n)[..i] == Picks(m, prompt, i)
    ensures i < n ==> Picks(m, prompt, n)[i] == Argmax(RowAt(m, prompt, i))
    decreases n
  {
    if i < n {
      PicksPrefix(m, prompt, i, n - 1);
      if i == n - 1 {
        assert Picks(m, prompt, n)[i] == Argmax(m.next(prompt + Picks(m, prompt, n - 1)));
      }
    }
  }

  /** The specification is a greedy run ... */
  lemma RowsAreGreedy(m: Llama, prompt: seq<Token>, n: nat)
    requires m.Valid() && n >= 1
    ensures IsGreedyRun(m, prompt, GreedyRows(m, prompt, n), Picks(m, prompt, n - 1))
  {
    var rows, fed := GreedyRows(m, prompt, n), Picks(m, prompt, n - 1);
    forall i | 0 <= i < n ensures rows[i] == m.next(prompt + fed[..i]) {
      PicksPrefix(m, prompt, i, n - 1);
    }
    forall i | 0 <= i < n - 1 ensures IsFirstMaximum(rows[i], fed[i]) {
      PicksPrefix(m, prompt, i, n - 1);
      ArgmaxIsFirstMaximum(rows[i], fed[i]);
    }
  }

  /** A longer greedy run contains a shorter one. */
  lemma ShorterRun(m: Llama, prompt: seq<Token>, rows: seq<seq<real>>, fed: seq<Token>, n: nat)
    requires IsGreedyRun(m, prompt, rows, fed) && n == |rows| >= 2
    ensures IsGreedyRun(m, prompt, rows[..n - 1], fed[..n - 2])
  {
    forall i | 0 <= i < n - 1 ensures rows[i] == m.next(prompt + fed[..n - 2][..i]) {
      assert fed[..n - 2][..i] == fed[..i];
    }
  }

  /** One more pick, from the row it is the first maximum of. */
  lemma PickedNext(m: Llama, prompt: seq<Token>, row: seq<real>, token: Token, k: nat)
    requires m.Valid() && row == RowAt(m, prompt, k) && IsFirstMaximum(row, token)
    ensures Picks(m, prompt, k + 1) == Picks(m, prompt, k) + [token]
  {
    ArgmaxIsFirstMaximum(row, token);
  }

  lemma Extend<T>(s: seq<T>, t: seq<T>, n: nat)
    requires |s| == |t| == n + 1 && s[..n] == t[..n] && s[n] == t[n]
    ensures s == t
  {
    forall k | 0 <= k < n ensures s[k] == t[k] { assert s[..n][k] == t[..n][k]; }
  }

  /** ... and the only one of its length. */
  lemma {:induction false} GreedyRunIsUnique(m: Llama, prompt: seq<Token>, rows: seq<seq<real>>, fed: seq<Token>)
    requires m.Valid() && IsGreedyRun(m, prompt, rows, fed)
    ensures rows == GreedyRows(m, prompt, |rows|) && fed == Picks(m, prompt, |fed|)
    decreases |rows|
  {
    var n := |rows| - 1;
    assert fed[..n] == fed;
    if n == 0 {
      assert fed == [];
    } else {
      ShorterRun(m, prompt, rows, fed, n + 1);
      GreedyRunIsUnique(m, prompt, rows[..n], fed[..n - 1]);
      assert rows[n - 1] == rows[..n][n - 1] == RowAt(m, prompt, n - 1);
      PickedNext(m, prompt, rows[n - 1], fed[n - 1], n - 1);
      assert fed == fed[..n - 1] + [fed[n - 1]];
    }
    assert rows[n] == RowAt(m, prompt, n);
    assert GreedyRows(m, prompt, n + 1)[..n] == GreedyRows(m, prompt, n);
    Extend(rows, GreedyRows(m, prompt, n + 1), n);
  }

  /* ---- two models ---- */

  /** Both answer alike on every history the first `n` steps of the second
      one's run feed. */
  ghost predicate AlikeAlong(m: Llama, m': Llama, prompt: seq<Token>, n: nat)
    requires m.Valid() && m'.Valid()
  {
    forall i :: 0 <= i < n ==> m.next(prompt + Picks(m', prompt, i)) == RowAt(m', prompt, i)
  }

  lemma {:induction false} AlikePicks(m: Llama, m': Llama, prompt: seq<Token>, n: nat)
    requires m.Valid() && m'.Valid() && AlikeAlong(m, m', prompt, n)
    ensures Picks(m, prompt, n) == Picks(m', prompt, n)
  {
    if n > 0 {
      AlikePicks(m, m', prompt, n - 1);
      assert m.next(prompt + Picks(m', prompt, n - 1)) == RowAt(m', prompt, n - 1);
    }
  }

  lemma {:induction false} EqualRowsPicks(m: Llama, m': Llama, prompt: seq<Token>, n: nat)
    requires m.Valid() && m'.Valid() && forall i: nat :: i < n ==> RowAt(m, prompt, i) == RowAt(m', prompt, i)
    ensures Picks(m, prompt, n) == Picks(m', prompt, n)
  {
    if n > 0 {
      EqualRowsPicks(m, m', prompt, n - 1);
      assert RowAt(m, prompt, n - 1) == RowAt(m', prompt, n - 1);
    }
  }

  /** Two models run greedily to the same rows if and only if they answer
      alike on the histories of one run. */
  lemma RunsAgreeExactly(m: Llama, m': Llama, prompt: seq<Token>, n: nat)
    requires m.Valid() && m'.Valid()
    ensures GreedyRows(m, prompt, n) == GreedyRows(m', prompt, n) <==> AlikeAlong(m, m', prompt, n)
  {
    var rows, rows' := GreedyRows(m, prompt, n), GreedyRows(m', prompt, n);
    if AlikeAlong(m, m', prompt, n) {
      forall i | 0 <= i < n ensures rows[i] == rows'[i] {
        AlikePicks(m, m', prompt, i);
        assert m.next(prompt + Picks(m', prompt, i)) == RowAt(m', prompt, i);
      }
    }
    if rows == rows' {
      forall i: nat | i < n ensures RowAt(m, prompt, i) == RowAt(m', prompt, i) {
        assert rows[i] == rows'[i];
      }
      forall i | 0 <= i < n ensures m.next(prompt + Picks(m', prompt, i)) == RowAt(m', prompt, i) {
        EqualRowsPicks(m, m', prompt, i);
      }
    }
  }
}
