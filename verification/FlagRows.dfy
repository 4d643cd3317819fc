/** The flag table: which tools a declaration lands in, and the merge of the
    declarations of one spelling list. */
module FlagRows {
  import opened Options

  datatype FlagRow = FlagRow(tools: set<string>, spellings: seq<string>, neg: seq<string>, env: Option<string>)

  /** What `common_rows` reads off one `common_arg(...)` declaration. */
  datatype Declaration = Declaration(
    spellings: seq<string>, neg: seq<string>, env: Option<string>,
    examples: seq<string>, excludes: seq<string>, presetOnly: bool)

  const COMMON := "LLAMA_EXAMPLE_COMMON"

  /** The example column of each tool (`TOOLS`). */
  const EXAMPLE_OF: map<string, string> := map["cli" := "LLAMA_EXAMPLE_CLI", "server" := "LLAMA_EXAMPLE_SERVER"]

  /** `enum_list("set_examples") or [COMMON]`. */
  function Examples(d: Declaration): seq<string> {
    if d.examples == [] then [COMMON] else d.examples
  }

  /** `add_opt`'s rule: in the example, or common, and not excluded. */
  predicate Admits(d: Declaration, tool: string) {
    && tool in EXAMPLE_OF
    && (EXAMPLE_OF[tool] in Examples(d) || COMMON in Examples(d))
    && EXAMPLE_OF[tool] !in d.excludes
  }

  function ToolsOf(d: Declaration): (r: set<string>)
    ensures forall tool :: tool in r <==> Admits(d, tool)
  {
    set tool | tool in EXAMPLE_OF && Admits(d, tool)
  }

  /** The row of a declaration; a preset-only declaration or one no tool
      admits has none. */
  function RowOf(d: Declaration): Option<FlagRow> {
    if d.presetOnly || ToolsOf(d) == {} then None
    else Some(FlagRow(ToolsOf(d), d.spellings, d.neg, d.env))
  }

  function RowsOf(ds: seq<Declaration>): seq<FlagRow> {
    if ds == [] then []
    else RowsOf(ds[..|ds| - 1]) + (match RowOf(ds[|ds| - 1]) case None => [] case Some(r) => [r])
  }

  datatype Merged = Rows(rows: seq<FlagRow>) | Disagree(key: seq<string>)

  /** The position of a spelling list among merged rows. */
  function Find(out: seq<FlagRow>, key: seq<string>): (r: nat)
    ensures r <= |out| && (r < |out| ==> out[r].spellings == key)
    ensures forall k :: 0 <= k < r ==> out[k].spellings != key
  {
    if out == [] || out[0].spellings == key then 0 else 1 + Find(out[1..], key)
  }

  /** One iteration of the merge loop. */
  function Insert(out: seq<FlagRow>, r: FlagRow): Merged {
    var k := Find(out, r.spellings);
    if k == |out| then Rows(out + [r])
    else if out[k].env != r.env || out[k].neg != r.neg then Disagree(r.spellings)
    else Rows(out[k := out[k].(tools := out[k].tools + r.tools)])
  }

  function Merge(rows: seq<FlagRow>): Merged {
    if rows == [] then Rows([])
    else match Merge(rows[..|rows| - 1])
      case Disagree(key) => Disagree(key)
      case Rows(out) => Insert(out, rows[|rows| - 1])
  }

  /* ---- what the merge means ---- */

  /** `i` is the first row with its spelling list. */
  ghost predicate IsFirst(rows: seq<FlagRow>, i: nat) {
    i < |rows| && forall j :: 0 <= j < i ==> rows[j].spellings != rows[i].spellings
  }

  /** Some row with these spellings lists `tool`. */
  ghost predicate Lists(rows: seq<FlagRow>, key: seq<string>, tool: string) {
    exists i :: 0 <= i < |rows| && rows[i].spellings == key && tool in rows[i].tools
  }

  /** One spelling list, two declarations of it that disagree. */
  predicate Clash(a: FlagRow, b: FlagRow) {
    a.spellings == b.spellings && (a.env != b.env || a.neg != b.neg)
  }

  ghost predicate Conflict(rows: seq<FlagRow>, i: nat, j: nat) {
    i < |rows| && j < |rows| && Clash(rows[i], rows[j])
  }

  /** `out` is the ordered union of `rows`, `at[k]` being the row that
      introduced the `k`th merged row. */
  ghost predicate IsUnion(rows: seq<FlagRow>, out: seq<FlagRow>, at: seq<nat>) {
    && |at| == |out|
    && (forall k :: 0 <= k < |at| ==> IsFirst(rows, at[k]) && SameFlag(out[k], rows[at[k]]))
    && (forall k, l :: 0 <= k < l < |at| ==> at[k] < at[l])
    && (forall i :: 0 <= i < |rows| && IsFirst(rows, i) ==> i in at)
    && (forall k, tool :: 0 <= k < |out| ==> (tool in out[k].tools <==> Lists(rows, out[k].spellings, tool)))
  }

  ghost predicate SameFlag(a: FlagRow, b: FlagRow) {
    a.spellings == b.spellings && a.env == b.env && a.neg == b.neg
  }

  ghost predicate KeysDistinct(rows: seq<FlagRow>) {
    forall k, l :: 0 <= k < l < |rows| ==> rows[k].spellings != rows[l].spellings
  }

  lemma {:induction false} FirstOf(rows: seq<FlagRow>, i: nat) returns (f: nat)
    requires i < |rows|
    ensures f <= i && IsFirst(rows, f) && rows[f].spellings == rows[i].spellings
    decreases i
  {
    if IsFirst(rows, i) {
      f := i;
    } else {
      var j :| 0 <= j < i && rows[j].spellings == rows[i].spellings;
      f := FirstOf(rows, j);
    }
  }

  /** Appending a row: who is first, and who lists what. */
  lemma AppendRow(rows: seq<FlagRow>, r: FlagRow)
    ensures forall i :: 0 <= i < |rows| ==> (IsFirst(rows + [r], i) <==> IsFirst(rows, i))
    ensures IsFirst(rows + [r], |rows|) <==> forall j :: 0 <= j < |rows| ==> rows[j].spellings != r.spellings
    ensures forall key, tool :: Lists(rows + [r], key, tool) <==> Lists(rows, key, tool) || (key == r.spellings && tool in r.tools)
  {
    var all := rows + [r];
    forall i | 0 <= i < |rows| ensures IsFirst(all, i) <==> IsFirst(rows, i) {
      forall j | 0 <= j <= i ensures all[j] == rows[j] {}
    }
    forall j | 0 <= j < |rows| ensures all[j] == rows[j] {}
    forall key, tool
      ensures Lists(all, key, tool) <==> Lists(rows, key, tool) || (key == r.spellings && tool in r.tools)
    {
      if Lists(rows, key, tool) {
        var i :| 0 <= i < |rows| && rows[i].spellings == key && tool in rows[i].tools;
        assert all[i] == rows[i];
      }
      if key == r.spellings && tool in r.tools {
        assert all[|rows|] == r;
      }
    }
  }

  lemma InsertKeepsUnion(rows: seq<FlagRow>, r: FlagRow, out: seq<FlagRow>, at: seq<nat>) returns (at': seq<nat>)
    requires IsUnion(rows, out, at) && Insert(out, r).Rows?
    ensures IsUnion(rows + [r], Insert(out, r).rows, at')
  {
    var all, k, out' := rows + [r], Find(out, r.spellings), Insert(out, r).rows;
    AppendRow(rows, r);
    if k == |out| {
      forall j | 0 <= j < |rows| ensures rows[j].spellings != r.spellings {
        var f := FirstOf(rows, j);
        var l :| 0 <= l < |at| && at[l] == f;
        assert out[l].spellings == rows[f].spellings;
      }
      at' := at + [|rows|];
      forall i | 0 <= i < |all| && IsFirst(all, i) ensures i in at' {
        if i < |rows| {
          var l :| 0 <= l < |at| && at[l] == i;
          assert at'[l] == i;
        } else {
          assert at'[|at|] == i;
        }
      }
      forall l, tool | 0 <= l < |out'| ensures tool in out'[l].tools <==> Lists(all, out'[l].spellings, tool) {
        if l < |out| {
          assert tool in out[l].tools <==> Lists(rows, out[l].spellings, tool);
        }
      }
    } else {
      at' := at;
      assert SameFlag(out[k], rows[at[k]]) && IsFirst(rows, at[k]);
      forall l | 0 <= l < |out| && l != k ensures out[l].spellings != r.spellings {
        assert SameFlag(out[l], rows[at[l]]) && IsFirst(rows, at[l]);
        assert at[l] != at[k];
      }
      forall i | 0 <= i < |all| && IsFirst(all, i) ensures i in at' {
        assert rows[at[k]].spellings == r.spellings;
      }
      forall l, tool | 0 <= l < |out'| ensures tool in out'[l].tools <==> Lists(all, out'[l].spellings, tool) {
        assert tool in out[l].tools <==> Lists(rows, out[l].spellings, tool);
      }
    }
  }

  /** A merge that succeeds is the ordered union of its rows. */
  lemma {:induction false} MergeIsUnion(rows: seq<FlagRow>) returns (at: seq<nat>)
    requires Merge(rows).Rows?
    ensures IsUnion(rows, Merge(rows).rows, at)
    decreases |rows|
  {
    if rows == [] {
      at := [];
    } else {
      var init, r := rows[..|rows| - 1], rows[|rows| - 1];
      var before := MergeIsUnion(init);
      at := InsertKeepsUnion(init, r, Merge(init).rows, before);
      assert rows == init + [r];
    }
  }

  ghost predicate HasConflict(rows: seq<FlagRow>) {
    exists i: nat, j: nat :: Conflict(rows, i, j)
  }

  ghost predicate ClashesWith(rows: seq<FlagRow>, r: FlagRow) {
    exists j: nat :: j < |rows| && Clash(rows[j], r)
  }

  /** A new row's conflicts are old ones or its own. */
  lemma ConflictSnoc(rows: seq<FlagRow>, r: FlagRow)
    ensures HasConflict(rows + [r]) <==> HasConflict(rows) || ClashesWith(rows, r)
  {
    var all, n := rows + [r], |rows|;
    if HasConflict(rows) {
      var i: nat, j: nat :| Conflict(rows, i, j);
      assert Conflict(all, i, j);
    }
    if ClashesWith(rows, r) {
      var j: nat :| j < n && Clash(rows[j], r);
      assert Conflict(all, j, n);
    }
    if HasConflict(all) {
      var i: nat, j: nat :| Conflict(all, i, j);
      if i < n && j < n {
        assert Conflict(rows, i, j);
      } else {
        var k := if i < n then i else j;
        assert k < n && Clash(rows[k], r);
      }
    }
  }

  /** Where the merged row of a row is. */
  lemma MergedAt(rows: seq<FlagRow>, out: seq<FlagRow>, at: seq<nat>, j: nat) returns (k: nat)
    requires IsUnion(rows, out, at) && !HasConflict(rows) && j < |rows|
    ensures k < |out| && k == Find(out, rows[j].spellings) && SameFlag(out[k], rows[j])
  {
    var f := FirstOf(rows, j);
    k :| 0 <= k < |at| && at[k] == f;
    assert SameFlag(out[k], rows[f]) && !Conflict(rows, f, j);
    KeysDiffer(rows, out, at);
  }

  lemma InsertFails(rows: seq<FlagRow>, r: FlagRow, out: seq<FlagRow>, at: seq<nat>)
    requires IsUnion(rows, out, at) && !HasConflict(rows)
    ensures Insert(out, r).Disagree? <==> ClashesWith(rows, r)
  {
    var k := Find(out, r.spellings);
    if Insert(out, r).Disagree? {
      assert SameFlag(out[k], rows[at[k]]) && IsFirst(rows, at[k]);
      assert Clash(rows[at[k]], r);
    }
    if ClashesWith(rows, r) {
      var j: nat :| j < |rows| && Clash(rows[j], r);
      var l := MergedAt(rows, out, at, j);
    }
  }

  /** It fails exactly when two declarations of one spelling list disagree on
      the environment variable or the negations. */
  lemma {:induction false} MergeFailsOnConflict(rows: seq<FlagRow>)
    ensures Merge(rows).Disagree? <==> exists i: nat, j: nat :: Conflict(rows, i, j)
    decreases |rows|
  {
    if rows != [] {
      var init, r := rows[..|rows| - 1], rows[|rows| - 1];
      assert rows == init + [r];
      MergeFailsOnConflict(init);
      assert HasConflict(init) <==> Merge(init).Disagree?;
      ConflictSnoc(init, r);
      if Merge(init).Rows? {
        var at := MergeIsUnion(init);
        InsertFails(init, r, Merge(init).rows, at);
      }
      assert HasConflict(rows) <==> Merge(rows).Disagree?;
    }
  }

  /** One merged row per spelling list. */
  lemma KeysDiffer(rows: seq<FlagRow>, out: seq<FlagRow>, at: seq<nat>)
    requires IsUnion(rows, out, at)
    ensures KeysDistinct(out)
  {
    forall k, l | 0 <= k < l < |out| ensures out[k].spellings != out[l].spellings {
      assert SameFlag(out[k], rows[at[k]]) && SameFlag(out[l], rows[at[l]]);
      assert at[k] < at[l] && IsFirst(rows, at[l]);
    }
  }

  lemma MergeSnoc(rows: seq<FlagRow>, r: FlagRow, out: seq<FlagRow>)
    requires Merge(rows) == Rows(out)
    ensures Merge(rows + [r]) == Insert(out, r)
  {
    assert (rows + [r])[..|rows|] == rows;
  }

  lemma NewKey(rows: seq<FlagRow>, r: FlagRow)
    requires KeysDistinct(rows + [r])
    ensures KeysDistinct(rows) && Insert(rows, r) == Rows(rows + [r])
  {
    var all := rows + [r];
    forall i, j | 0 <= i < j < |rows| ensures rows[i].spellings != rows[j].spellings {
      assert all[i] == rows[i] && all[j] == rows[j];
    }
    forall i | 0 <= i < |rows| ensures rows[i].spellings != r.spellings {
      assert all[i] == rows[i] && all[|rows|] == r;
    }
  }

  /** Rows with distinct spelling lists merge to themselves. */
  lemma {:induction false} DistinctRowsStay(rows: seq<FlagRow>)
    requires KeysDistinct(rows)
    ensures Merge(rows) == Rows(rows)
    decreases |rows|
  {
    if rows != [] {
      var init, last := rows[..|rows| - 1], rows[|rows| - 1];
      assert rows == init + [last];
      NewKey(init, last);
      DistinctRowsStay(init);
      MergeSnoc(init, last, init);
    }
  }

  /** Merging again changes nothing. */
  lemma MergeIsIdempotent(rows: seq<FlagRow>)
    requires Merge(rows).Rows?
    ensures Merge(Merge(rows).rows) == Merge(rows)
  {
    var out := Merge(rows).rows;
    var at := MergeIsUnion(rows);
    KeysDiffer(rows, out, at);
    DistinctRowsStay(out);
  }

  ghost function SpellingSet(r: FlagRow): set<string> {
    set s | s in r.spellings
  }

  /** The merge is keyed by the spelling LIST: it leaves one row per spelling
      SET exactly when no two rows list the same spellings in different
      orders or multiplicities. */
  lemma OneRowPerSpellingSet(rows: seq<FlagRow>)
    requires Merge(rows).Rows?
    ensures var out := Merge(rows).rows;
      (forall k, l :: 0 <= k < l < |out| ==> SpellingSet(out[k]) != SpellingSet(out[l]))
      <==> (forall i, j :: 0 <= i < |rows| && 0 <= j < |rows| && SpellingSet(rows[i]) == SpellingSet(rows[j]) ==>
              rows[i].spellings == rows[j].spellings)
  {
    var out := Merge(rows).rows;
    var at := MergeIsUnion(rows);
    if forall k, l :: 0 <= k < l < |out| ==> SpellingSet(out[k]) != SpellingSet(out[l]) {
      forall i, j | 0 <= i < |rows| && 0 <= j < |rows| && SpellingSet(rows[i]) == SpellingSet(rows[j])
        ensures rows[i].spellings == rows[j].spellings
      {
        var k := MergedRowOf(rows, out, at, i);
        var l := MergedRowOf(rows, out, at, j);
        assert SpellingSet(out[k]) == SpellingSet(out[l]);
      }
    }
    if forall i, j :: 0 <= i < |rows| && 0 <= j < |rows| && SpellingSet(rows[i]) == SpellingSet(rows[j]) ==>
         rows[i].spellings == rows[j].spellings {
      forall k, l | 0 <= k < l < |out| ensures SpellingSet(out[k]) != SpellingSet(out[l]) {
        assert SameFlag(out[k], rows[at[k]]) && SameFlag(out[l], rows[at[l]]);
        assert SpellingSet(rows[at[k]]) == SpellingSet(out[k]) && SpellingSet(rows[at[l]]) == SpellingSet(out[l]);
        KeysDiffer(rows, out, at);
      }
    }
  }

  lemma MergedRowOf(rows: seq<FlagRow>, out: seq<FlagRow>, at: seq<nat>, i: nat) returns (k: nat)
    requires IsUnion(rows, out, at) && i < |rows|
    ensures k < |out| && out[k].spellings == rows[i].spellings
  {
    var f := FirstOf(rows, i);
    k :| 0 <= k < |at| && at[k] == f;
    assert SameFlag(out[k], rows[f]);
  }

  /** Two orders of one spelling set stay two rows. */
  lemma ReorderedSpellingsStayApart(env: Option<string>)
    ensures var a, b := FlagRow({"cli"}, ["-n", "-np"], [], env), FlagRow({"server"}, ["-np", "-n"], [], env);
            SpellingSet(a) == SpellingSet(b) && Merge([a, b]) == Rows([a, b])
  {
    var a, b := FlagRow({"cli"}, ["-n", "-np"], [], env), FlagRow({"server"}, ["-np", "-n"], [], env);
    assert a.spellings[0] != b.spellings[0] && b.spellings[0] == a.spellings[1] && b.spellings[1] == a.spellings[0];
    forall s ensures s in a.spellings <==> s in b.spellings {}
    DistinctRowsStay([a, b]);
  }

  /* ---- from declarations ---- */

  /** The two tools, spelled out: a declaration lands in one if it is not
      excluded from it and names it, or names common, or names nothing. */
  lemma ToolsSpelled(d: Declaration, tool: string)
    ensures tool in ToolsOf(d) <==>
      || (tool == "cli" && "LLAMA_EXAMPLE_CLI" !in d.excludes
          && ("LLAMA_EXAMPLE_CLI" in d.examples || "LLAMA_EXAMPLE_COMMON" in d.examples || d.examples == []))
      || (tool == "server" && "LLAMA_EXAMPLE_SERVER" !in d.excludes
          && ("LLAMA_EXAMPLE_SERVER" in d.examples || "LLAMA_EXAMPLE_COMMON" in d.examples || d.examples == []))
  {
    assert "cli"[0] != "server"[0];
    assert "LLAMA_EXAMPLE_CLI"[15] != "LLAMA_EXAMPLE_COMMON"[15] && "LLAMA_EXAMPLE_SERVER"[14] != "LLAMA_EXAMPLE_COMMON"[14];
  }

  /** `from[k]` is the declaration that row `k` comes from. */
  ghost predicate ComeFrom(ds: seq<Declaration>, rows: seq<FlagRow>, from: seq<nat>) {
    && |from| == |rows|
    && (forall k :: 0 <= k < |from| ==> from[k] < |ds| && RowIs(rows[k], ds[from[k]]))
    && (forall k, l :: 0 <= k < l < |from| ==> from[k] < from[l])
    && (forall i :: 0 <= i < |ds| && !ds[i].presetOnly && ToolsOf(ds[i]) != {} ==> i in from)
  }

  /** A declaration's row: its own lists and variable, and its tools. */
  ghost predicate RowIs(r: FlagRow, d: Declaration) {
    && !d.presetOnly && ToolsOf(d) != {}
    && r.tools == ToolsOf(d) && r.spellings == d.spellings && r.neg == d.neg && r.env == d.env
  }

  lemma RowsSnoc(ds: seq<Declaration>, d: Declaration)
    ensures RowsOf(ds + [d]) == RowsOf(ds) + (if RowOf(d).Some? then [RowOf(d).value] else [])
  {
    assert (ds + [d])[..|ds|] == ds;
  }

  lemma RowOfIs(d: Declaration)
    ensures if !d.presetOnly && ToolsOf(d) != {} then RowOf(d).Some? && RowIs(RowOf(d).value, d) else RowOf(d) == None
  {
  }

  lemma ComeFromSkip(ds: seq<Declaration>, d: Declaration, rows: seq<FlagRow>, from: seq<nat>)
    requires ComeFrom(ds, rows, from) && (d.presetOnly || ToolsOf(d) == {})
    ensures ComeFrom(ds + [d], rows, from)
  {
    var all := ds + [d];
    forall k | 0 <= k < |from| ensures from[k] < |all| && RowIs(rows[k], all[from[k]]) {
      assert all[from[k]] == ds[from[k]];
    }
    forall i | 0 <= i < |all| && !all[i].presetOnly && ToolsOf(all[i]) != {} ensures i in from {
      assert i < |ds| && all[i] == ds[i];
    }
  }

  lemma ComeFromAdd(ds: seq<Declaration>, d: Declaration, rows: seq<FlagRow>, row: FlagRow, from: seq<nat>)
    requires ComeFrom(ds, rows, from) && RowIs(row, d)
    ensures ComeFrom(ds + [d], rows + [row], from + [|ds|])
  {
    var all, grown := ds + [d], from + [|ds|];
    forall k | 0 <= k < |grown| ensures grown[k] < |all| && RowIs((rows + [row])[k], all[grown[k]]) {
      if k < |from| {
        assert all[from[k]] == ds[from[k]];
      }
    }
    forall i | 0 <= i < |all| && !all[i].presetOnly && ToolsOf(all[i]) != {} ensures i in grown {
      if i < |ds| {
        assert all[i] == ds[i] && i in from;
      } else {
        assert grown[|from|] == i;
      }
    }
  }

  /** The rows are those of the declarations that are not preset-only and
      land in some tool, in order. */
  lemma {:induction false} RowsComeFrom(ds: seq<Declaration>) returns (from: seq<nat>)
    ensures ComeFrom(ds, RowsOf(ds), from)
    decreases |ds|
  {
    if ds == [] {
      from := [];
    } else {
      var init, d := ds[..|ds| - 1], ds[|ds| - 1];
      assert ds == init + [d];
      var before := RowsComeFrom(init);
      RowsSnoc(init, d);
      RowOfIs(d);
      if RowOf(d).Some? {
        ComeFromAdd(init, d, RowsOf(init), RowOf(d).value, before);
        from := before + [|init|];
      } else {
        ComeFromSkip(init, d, RowsOf(init), before);
        from := before;
      }
    }
  }

  /** A declaration that yields a row with this key and this tool. */
  ghost predicate Declares(ds: seq<Declaration>, key: seq<string>, tool: string) {
    exists i :: 0 <= i < |ds| && ds[i].spellings == key && !ds[i].presetOnly && Admits(ds[i], tool)
  }

  lemma {:induction false} RowsListDeclared(ds: seq<Declaration>, key: seq<string>, tool: string)
    ensures Lists(RowsOf(ds), key, tool) <==> Declares(ds, key, tool)
    decreases |ds|
  {
    if ds != [] {
      var n := |ds| - 1;
      var init, d := ds[..n], ds[n];
      RowsListDeclared(init, key, tool);
      if Declares(init, key, tool) {
        var i :| 0 <= i < |init| && init[i].spellings == key && !init[i].presetOnly && Admits(init[i], tool);
        assert ds[i] == init[i];
      }
      match RowOf(d) {
        case None => assert RowsOf(ds) == RowsOf(init);
        case Some(r) => AppendRow(RowsOf(init), r);
      }
    }
  }

  /** The tools of a merged flag are exactly those some declaration with its
      spellings admits. */
  lemma MergedToolsAreDeclared(ds: seq<Declaration>, k: nat, tool: string)
    requires Merge(RowsOf(ds)).Rows? && k < |Merge(RowsOf(ds)).rows|
    ensures var out := Merge(RowsOf(ds)).rows;
            tool in out[k].tools <==> Declares(ds, out[k].spellings, tool)
  {
    var at := MergeIsUnion(RowsOf(ds));
    RowsListDeclared(ds, Merge(RowsOf(ds)).rows[k].spellings, tool);
  }

  /* ---- the merge in place ---- */

  /** A row as the script holds it: a dictionary whose tool set the merge
      grows in place. */
  class Row {
    var tools: set<string>
    const spellings: seq<string>
    const neg: seq<string>
    const env: Option<string>

    constructor (r: FlagRow)
      ensures Value() == r
    {
      tools, spellings, neg, env := r.tools, r.spellings, r.neg, r.env;
    }

    function Value(): FlagRow
      reads this
    {
      FlagRow(tools, spellings, neg, env)
    }
  }

  function Values(rows: seq<Row>): (r: seq<FlagRow>)
    reads rows
  {
    seq(|rows|, i requires 0 <= i < |rows| reads rows => rows[i].Value())
  }

  predicate Distinct(rows: seq<Row>) {
    forall i, j :: 0 <= i < j < |rows| ==> rows[i] != rows[j]
  }

  datatype MergedRows = Kept(rows: seq<Row>) | Refused(key: seq<string>)

  /** Where the dictionary `out`, listed in insertion order, holds `key`. */
  method Lookup(out: seq<Row>, key: seq<string>) returns (k: nat)
    ensures k == Find(Values(out), key)
  {
    k := 0;
    while k < |out| && out[k].spellings != key
      invariant k <= |out| && forall i :: 0 <= i < k ==> out[i].spellings != key
    {
      k := k + 1;
    }
    var f := Find(Values(out), key);
    assert f < |out| ==> Values(out)[f].spellings == out[f].spellings;
    assert k < |out| ==> Values(out)[k].spellings == out[k].spellings;
  }

  /** A later row of a known spelling list: its tools join the kept row's in
      place, before the two are compared. */
  method Absorb(out: seq<Row>, k: nat, row: Row) returns (agree: bool)
    requires Distinct(out) && k < |out| && row !in out
    modifies out[k]
    ensures agree == (out[k].env == row.env && out[k].neg == row.neg)
    ensures Values(out) == old(Values(out))[k := old(Values(out))[k].(tools := old(out[k].tools) + row.tools)]
  {
    var prev := out[k];
    prev.tools := prev.tools + row.tools;
    return prev.env == row.env && prev.neg == row.neg;
  }

  /** One iteration of the merge loop, on the rows kept so far. */
  method MergeRow(out: seq<Row>, row: Row) returns (next: MergedRows)
    requires Distinct(out) && row !in out
    modifies out
    ensures Insert(old(Values(out)), row.Value()) ==
            match next case Kept(kept) => Rows(Values(kept)) case Refused(key) => Disagree(key)
    ensures next.Kept? ==> next.rows == out || next.rows == out + [row]
  {
    var k := Lookup(out, row.spellings);
    if k == |out| {
      assert Values(out + [row]) == Values(out) + [row.Value()];
      return Kept(out + [row]);
    }
    var agree := Absorb(out, k, row);
    return if agree then Kept(out) else Refused(row.spellings);
  }

  /** `merge`: the first row of a spelling list is kept, and takes the tools
      of every later one, in place. The kept objects are rows that were
      passed in; a row that was not kept is as it was. */
  method MergeInPlace(rows: seq<Row>) returns (r: MergedRows)
    requires Distinct(rows)
    modifies rows
    ensures Merge(old(Values(rows))) ==
            match r case Kept(out) => Rows(Values(out)) case Refused(key) => Disagree(key)
    ensures r.Kept? ==> forall k :: 0 <= k < |r.rows| ==> r.rows[k] in rows
    ensures r.Kept? ==> forall i :: 0 <= i < |rows| && rows[i] !in r.rows ==> rows[i].tools == old(rows[i].tools)
  {
    var out: seq<Row> := [];
    ghost var was := Values(rows);
    for i := 0 to |rows|
      invariant Merge(was[..i]) == Rows(Values(out)) && Distinct(out)
      invariant forall k :: 0 <= k < |out| ==> out[k] in rows[..i]
      invariant forall j :: 0 <= j < |rows| && rows[j] !in out ==> rows[j].Value() == was[j]
    {
      var row := rows[i];
      NotYetKept(rows, i, out);
      MergeStep(was, i, Values(out));
      var next := MergeRow(out, row);
      if next.Refused? {
        MergeConflicts(was, i);
        return next;
      }
      KeptFrom(rows, i, out, next.rows);
      out := next.rows;
    }
    assert was[..|rows|] == was;
    return Kept(out);
  }

  lemma NotYetKept(rows: seq<Row>, i: nat, out: seq<Row>)
    requires Distinct(rows) && i < |rows| && forall k :: 0 <= k < |out| ==> out[k] in rows[..i]
    ensures rows[i] !in out
  {
  }

  lemma KeptFrom(rows: seq<Row>, i: nat, out: seq<Row>, next: seq<Row>)
    requires i < |rows| && Distinct(out) && rows[i] !in out && (next == out || next == out + [rows[i]])
    requires forall k :: 0 <= k < |out| ==> out[k] in rows[..i]
    ensures Distinct(next) && forall k :: 0 <= k < |next| ==> next[k] in rows[..i + 1]
  {
    assert rows[..i + 1] == rows[..i] + [rows[i]];
  }

  lemma MergeStep(was: seq<FlagRow>, i: nat, out: seq<FlagRow>)
    requires i < |was| && Merge(was[..i]) == Rows(out)
    ensures Merge(was[..i + 1]) == Insert(out, was[i])
  {
    assert was[..i + 1][..i] == was[..i];
  }

  /** A conflict met on the way is the answer. */
  lemma {:induction false} MergeConflicts(was: seq<FlagRow>, i: nat)
    requires i < |was| && Merge(was[..i + 1]).Disagree?
    ensures Merge(was) == Merge(was[..i + 1])
    decreases |was|
  {
    if i + 1 == |was| {
      assert was[..i + 1] == was;
    } else {
      var init := was[..|was| - 1];
      assert init[..i + 1] == was[..i + 1];
      MergeConflicts(init, i);
    }
  }

  /** `common_rows`, from the declarations on: a new row for each one that is
      not preset-only and lands in some tool, in order, then the merge. */
  method CommonRows(ds: seq<Declaration>) returns (r: MergedRows)
    ensures Merge(RowsOf(ds)) ==
            match r case Kept(out) => Rows(Values(out)) case Refused(key) => Disagree(key)
  {
    var rows: seq<Row> := [];
    for i := 0 to |ds|
      invariant Distinct(rows) && (forall k :: 0 <= k < |rows| ==> fresh(rows[k]))
      invariant Values(rows) == RowsOf(ds[..i])
    {
      var d := ds[i];
      assert ds[..i + 1][..i] == ds[..i];
      if d.presetOnly || ToolsOf(d) == {} {
        continue;
      }
      var row := new Row(FlagRow(ToolsOf(d), d.spellings, d.neg, d.env));
      assert Values(rows + [row]) == Values(rows) + [row.Value()];
      rows := rows + [row];
    }
    assert ds[..|ds|] == ds;
    r := MergeInPlace(rows);
  }
}
