/** The table readers and the bar-chart writer of the result-plotting
    script. Python dictionaries keep their keys in insertion order, so a
    dictionary is an association list here; assigning to a present key
    keeps its place. */
module ReportData {
  import opened Wrappers
  import opened ReportText

  // ----- Dictionaries ----------------------------------------------------

  /** A dictionary: its entries in insertion order. */
  type Dict<V> = seq<(string, V)>

  function Keys<V>(d: Dict<V>): seq<string> {
    seq(|d|, i requires 0 <= i < |d| => d[i].0)
  }

  predicate Distinct(ks: seq<string>) {
    forall i, j :: 0 <= i < j < |ks| ==> ks[i] != ks[j]
  }

  lemma KeysTail<V>(d: Dict<V>)
    requires |d| > 0
    ensures Keys(d) == [d[0].0] + Keys(d[1..])
  {
  }

  /** `d[k]`, absent keys giving `None`. */
  function Lookup<V>(d: Dict<V>, k: string): (r: Option<V>)
    ensures r.None? <==> k !in Keys(d)
    decreases |d|
  {
    if |d| == 0 then None
    else
      KeysTail(d);
      if d[0].0 == k then Some(d[0].1) else Lookup(d[1..], k)
  }

  /** In a dictionary with distinct keys every entry is found under its
      key. */
  lemma {:induction false} LookupEntry<V>(d: Dict<V>, i: nat)
    requires Distinct(Keys(d)) && i < |d|
    ensures Lookup(d, d[i].0) == Some(d[i].1)
    decreases i
  {
    if i > 0 {
      assert Keys(d)[0] != Keys(d)[i];
      KeysTail(d);
      assert Keys(d[1..]) == Keys(d)[1..];
      LookupEntry(d[1..], i - 1);
    }
  }

  /** `d[k] = v`. */
  function Put<V>(d: Dict<V>, k: string, v: V): (r: Dict<V>)
    ensures Lookup(r, k) == Some(v)
    ensures forall k' :: k' != k ==> Lookup(r, k') == Lookup(d, k')
    ensures Keys(r) == if k in Keys(d) then Keys(d) else Keys(d) + [k]
    decreases |d|
  {
    if |d| == 0 then [(k, v)]
    else
      KeysTail(d);
      if d[0].0 == k then
        var r := [(k, v)] + d[1..];
        KeysTail(r);
        assert r[1..] == d[1..];
        r
      else
        var rest := Put(d[1..], k, v);
        var r := [d[0]] + rest;
        KeysTail(r);
        assert r[1..] == rest;
        r
  }

  /** Assignment keeps the keys distinct. */
  lemma PutKeepsDistinct<V>(d: Dict<V>, k: string, v: V)
    ensures Distinct(Keys(d)) ==> Distinct(Keys(Put(d, k, v)))
  {
    var ks := Keys(Put(d, k, v));
    if Distinct(Keys(d)) && k !in Keys(d) {
      forall i, j | 0 <= i < j < |ks|
        ensures ks[i] != ks[j]
      {
        if j < |d| {
          assert ks[i] == Keys(d)[i] && ks[j] == Keys(d)[j];
        } else {
          assert ks[i] == Keys(d)[i];
        }
      }
    }
  }

  lemma KeysSnoc<V>(pre: Dict<V>, e: (string, V))
    ensures Keys(pre + [e]) == Keys(pre) + [e.0]
  {
  }

  lemma DistinctSnoc(ks: seq<string>, k: string)
    ensures Distinct(ks + [k]) <==> Distinct(ks) && k !in ks
  {
    var s := ks + [k];
    assert forall i :: 0 <= i < |ks| ==> s[i] == ks[i];
    if Distinct(s) {
      forall i | 0 <= i < |ks|
        ensures ks[i] != k
      {
        assert s[i] == ks[i] && s[|ks|] == k;
      }
    }
  }

  /** Looking up in a dictionary with one more entry at the end. */
  lemma {:induction false} LookupSnoc<V>(pre: Dict<V>, k0: string, v0: V, k: string)
    ensures Lookup(pre + [(k0, v0)], k) ==
              if k in Keys(pre) then Lookup(pre, k) else if k == k0 then Some(v0) else None
    decreases |pre|
  {
    var d := pre + [(k0, v0)];
    if |pre| == 0 {
      assert d[1..] == [];
    } else {
      KeysTail(pre);
      assert d[1..] == pre[1..] + [(k0, v0)];
      LookupSnoc(pre[1..], k0, v0, k);
    }
  }

  /** `d[k]` for a key the code always sets first. */
  function Get<V>(d: Dict<Dict<V>>, k: string): Dict<V> {
    Lookup(d, k).GetOr([])
  }

  // ----- Reading rows ----------------------------------------------------

  /** `[c.strip() for c in row.split('&')]`: the cells of a row. */
  function RowCells(row: string): (r: seq<string>)
    ensures |r| == |Split(row, "&")|
  {
    var cells := Split(row, "&");
    seq(|cells|, j requires 0 <= j < |cells| => Strip(cells[j]))
  }

  /** The cells of every row. */
  function TableCells(rows: seq<string>): (r: seq<seq<string>>)
    ensures |r| == |rows|
  {
    seq(|rows|, i requires 0 <= i < |rows| => RowCells(rows[i]))
  }

  /** Every row has `n` cells. */
  predicate EachHas(rows: seq<seq<string>>, n: nat) {
    forall i :: 0 <= i < |rows| ==> |rows[i]| == n
  }

  /** Cell `c` of a row; empty past the last cell. */
  function CellAt(cells: seq<string>, c: nat): string {
    if c < |cells| then cells[c] else ""
  }

  /** What a row contributes: its name and its cell in column `col`. */
  function Entries(rows: seq<seq<string>>, col: nat): (r: Dict<string>)
    ensures |r| == |rows|
  {
    seq(|rows|, i requires 0 <= i < |rows| => (CellAt(rows[i], 0), CellAt(rows[i], col)))
  }

  /** The value of the last entry named `name`. */
  function LastOf(es: Dict<string>, name: string): Option<string>
    decreases |es|
  {
    if |es| == 0 then None
    else if es[|es| - 1].0 == name then Some(es[|es| - 1].1)
    else LastOf(es[..|es| - 1], name)
  }

  /** Column `col` of the last row whose first cell is `name`. */
  function LastValue(rows: seq<seq<string>>, name: string, col: nat): Option<string> {
    LastOf(Entries(rows, col), name)
  }

  /** Entry `i` is `(name, v)` and no later entry has that name. */
  ghost predicate LastSays(es: Dict<string>, name: string, v: string, i: int) {
    0 <= i < |es| && es[i] == (name, v) &&
    forall j :: i < j < |es| ==> es[j].0 != name
  }

  /** What `LastOf` means: a later entry with the same name wins. */
  lemma {:induction false} LastOfMeaning(es: Dict<string>, name: string, v: string)
    ensures LastOf(es, name) == Some(v) <==> exists i :: LastSays(es, name, v, i)
    ensures LastOf(es, name).None? <==> name !in Keys(es)
    decreases |es|
  {
    if |es| > 0 {
      var n := |es| - 1;
      var pre := es[..n];
      LastOfMeaning(pre, name, v);
      assert Keys(es) == Keys(pre) + [es[n].0];
      if es[n].0 == name {
        if LastOf(es, name) == Some(v) {
          assert LastSays(es, name, v, n);
        }
        if exists i :: LastSays(es, name, v, i) {
          var i :| LastSays(es, name, v, i);
          assert i == n;
        }
      } else {
        if LastOf(es, name) == Some(v) {
          var i :| LastSays(pre, name, v, i);
          assert LastSays(es, name, v, i);
        }
        if exists i :: LastSays(es, name, v, i) {
          var i :| LastSays(es, name, v, i);
          assert LastSays(pre, name, v, i);
        }
      }
    }
  }

  lemma EachHasPrefix(rows: seq<seq<string>>, n: nat)
    requires |rows| > 0
    ensures EachHas(rows, n) <==>
              EachHas(rows[..|rows| - 1], n) && |rows[|rows| - 1]| == n
  {
    var pre := rows[..|rows| - 1];
    assert forall j :: 0 <= j < |pre| ==> pre[j] == rows[j];
  }

  /** The last row decides first. */
  lemma LastValueSnoc(rows: seq<seq<string>>, col: nat)
    requires |rows| > 0
    ensures forall x :: LastValue(rows, x, col) ==
              if x == CellAt(rows[|rows| - 1], 0) then Some(CellAt(rows[|rows| - 1], col))
              else LastValue(rows[..|rows| - 1], x, col)
  {
    var n := |rows| - 1;
    assert Entries(rows[..n], col) == Entries(rows, col)[..n];
  }

  /** One row of `parse_rows_single`: two cells, else the assert fails;
      then `rv[type][name] = value`. */
  function SingleRow(d: Dict<string>, cells: seq<string>): (r: Result<Dict<string>>)
    ensures r.Failure? <==> |cells| != 2
    ensures r.Failure? ==> r.error == AssertionFailed
    ensures r.Success? && Distinct(Keys(d)) ==> Distinct(Keys(r.value))
    ensures r.Success? ==>
              forall x :: Lookup(r.value, x) == if x == CellAt(cells, 0) then Some(CellAt(cells, 1)) else Lookup(d, x)
  {
    if |cells| != 2 then Failure(AssertionFailed)
    else
      PutKeepsDistinct(d, cells[0], cells[1]);
      Success(Put(d, cells[0], cells[1]))
  }

  /** The loop of `parse_rows_single` over the rows of a table: each must
      have two cells, and the second is stored under the first. */
  function SingleRows(rows: seq<seq<string>>): (r: Result<Dict<string>>)
    ensures r.Failure? <==> !EachHas(rows, 2)
    ensures r.Failure? ==> r.error == AssertionFailed
    ensures r.Success? ==> Distinct(Keys(r.value))
    ensures r.Success? ==> forall name :: Lookup(r.value, name) == LastValue(rows, name, 1)
    decreases |rows|
  {
    if |rows| == 0 then Success([])
    else
      var n := |rows| - 1;
      LastValueSnoc(rows, 1);
      EachHasPrefix(rows, 2);
      match SingleRows(rows[..n])
      case Failure(err) => Failure(err)
      case Success(d) => SingleRow(d, rows[n])
  }

  /** The table text of a LaTeX table file, split into tables and rows. */
  type Tables = seq<seq<string>>

  /** The cells of the non-header rows of a table. */
  function Body(rows: seq<string>): seq<seq<string>> {
    if |rows| == 0 then [] else TableCells(rows[1..])
  }

  /** `parse_rows_single(type, table)`: nothing for no tables; otherwise the
      first table's rows under the single key `kind`. */
  function ParseRowsSingle(kind: string, table: Tables): (r: Result<Option<Dict<Dict<string>>>>)
    ensures r == Success(None) <==> |table| == 0
    ensures r.Failure? <==> |table| > 0 && !EachHas(Body(table[0]), 2)
    ensures r.Failure? ==> r.error == AssertionFailed
    ensures r.Success? && r.value.Some? ==>
              Keys(r.value.value) == [kind] &&
              forall name :: Lookup(Get(r.value.value, kind), name) == LastValue(Body(table[0]), name, 1)
  {
    if |table| == 0 then Success(None)
    else
      match SingleRows(Body(table[0]))
      case Failure(err) => Failure(err)
      case Success(inner) =>
        var d := Put([], kind, inner);
        Success(Some(d))
  }

  const Control: string := "control"

  /** One row of `parse_rows_combined`: four cells, else the assert fails;
      then `rv[type][name] = a` and `rv["control"][name] = b`. */
  function CombinedRow(d: Dict<Dict<string>>, kind: string, cells: seq<string>): (r: Result<Dict<Dict<string>>>)
    ensures r.Failure? <==> |cells| != 4
    ensures r.Failure? ==> r.error == AssertionFailed
    ensures r.Success? && kind in Keys(d) && Control in Keys(d) ==> Keys(r.value) == Keys(d)
    ensures r.Success? && kind != Control ==>
              forall x :: Lookup(Get(r.value, kind), x) ==
                if x == CellAt(cells, 0) then Some(CellAt(cells, 1)) else Lookup(Get(d, kind), x)
    ensures r.Success? ==>
              forall x :: Lookup(Get(r.value, Control), x) ==
                if x == CellAt(cells, 0) then Some(CellAt(cells, 2)) else Lookup(Get(d, Control), x)
  {
    if |cells| != 4 then Failure(AssertionFailed)
    else
      var name := cells[0];
      var d1 := Put(d, kind, Put(Get(d, kind), name, cells[1]));
      Success(Put(d1, Control, Put(Get(d1, Control), name, cells[2])))
  }

  /** `{type: {}, "control": {}}`: one key when `kind` is `control`. */
  function InitCombined(kind: string): (r: Dict<Dict<string>>)
    ensures Keys(r) == if kind == Control then [Control] else [kind, Control]
    ensures Get(r, kind) == [] && Get(r, Control) == []
  {
    var d := Put([], kind, []);
    assert Keys(d) == [kind];
    Put(d, Control, [])
  }

  /** The loop of `parse_rows_combined` over the rows of a table, on the
      dictionary `{type: {}, "control": {}}`: each row must have four cells;
      the second goes under `kind` and the third under `control`. Both
      inner dictionaries are reached through the outer one, so when `kind`
      is `control` itself the third cell overwrites the second. */
  function CombinedRows(kind: string, rows: seq<seq<string>>): (r: Result<Dict<Dict<string>>>)
    ensures r.Failure? <==> !EachHas(rows, 4)
    ensures r.Failure? ==> r.error == AssertionFailed
    ensures r.Success? ==> Keys(r.value) == if kind == Control then [Control] else [kind, Control]
    ensures r.Success? && kind != Control ==>
              forall name :: Lookup(Get(r.value, kind), name) == LastValue(rows, name, 1)
    ensures r.Success? ==> forall name :: Lookup(Get(r.value, Control), name) == LastValue(rows, name, 2)
    decreases |rows|
  {
    if |rows| == 0 then Success(InitCombined(kind))
    else
      var n := |rows| - 1;
      LastValueSnoc(rows, 1);
      LastValueSnoc(rows, 2);
      EachHasPrefix(rows, 4);
      match CombinedRows(kind, rows[..n])
      case Failure(err) => Failure(err)
      case Success(d) => CombinedRow(d, kind, rows[n])
  }

  /** `parse_rows_combined(type, table)`: nothing for no tables; otherwise
      the second table, which must exist, read into the `kind` and
      `control` columns. */
  function ParseRowsCombined(kind: string, table: Tables): (r: Result<Option<Dict<Dict<string>>>>)
    ensures r == Success(None) <==> |table| == 0
    ensures |table| == 1 ==> r == Failure(IndexError)
    ensures |table| >= 2 ==> (r.Failure? <==> !EachHas(Body(table[1]), 4))
    ensures |table| >= 2 && r.Failure? ==> r.error == AssertionFailed
    ensures r.Success? && r.value.Some? && kind != Control ==>
              forall name :: Lookup(Get(r.value.value, kind), name) == LastValue(Body(table[1]), name, 1)
    ensures r.Success? && r.value.Some? ==>
              forall name :: Lookup(Get(r.value.value, Control), name) == LastValue(Body(table[1]), name, 2)
  {
    if |table| == 0 then Success(None)
    else if |table| < 2 then Failure(IndexError)
    else
      match CombinedRows(kind, Body(table[1]))
      case Failure(err) => Failure(err)
      case Success(d) => Success(Some(d))
  }

  // ----- Bar chart -------------------------------------------------------

  /** The results of one model: per run type, its table of named cells. */
  type Data = Dict<Dict<string>>

  /** `{escape(key): data[key] for key in data}`. */
  function EscapeKeys<V>(data: Dict<V>): Dict<V>
    decreases |data|
  {
    if |data| == 0 then []
    else
      var n := |data| - 1;
      Put(EscapeKeys(data[..n]), Escape(data[n].0), data[n].1)
  }

  /** Every entry with its name escaped. */
  function EscapedNames<V>(data: Dict<V>): (r: Dict<V>)
    ensures |r| == |data|
  {
    seq(|data|, i requires 0 <= i < |data| => (Escape(data[i].0), data[i].1))
  }

  lemma EscapedNamesSnoc<V>(data: Dict<V>)
    requires |data| > 0
    ensures EscapedNames(data) ==
              EscapedNames(data[..|data| - 1]) + [(Escape(data[|data| - 1].0), data[|data| - 1].1)]
  {
    var n := |data| - 1;
    var a := EscapedNames(data);
    var b := EscapedNames(data[..n]) + [(Escape(data[n].0), data[n].1)];
    forall i | 0 <= i < |a|
      ensures a[i] == b[i]
    {
      if i < n {
        assert data[..n][i] == data[i];
      }
    }
  }

  lemma EscapeDistinct(a: string, b: string)
    requires a != b
    ensures Escape(a) != Escape(b)
  {
    if Escape(a) == Escape(b) {
      EscapeInjective(a, b);
    }
  }

  /** Escaping keeps distinct names distinct. */
  lemma EscapedNamesDistinct<V>(data: Dict<V>)
    requires Distinct(Keys(data))
    ensures Distinct(Keys(EscapedNames(data)))
  {
    var ks := Keys(EscapedNames(data));
    forall a, b | 0 <= a < b < |ks|
      ensures ks[a] != ks[b]
    {
      assert Keys(data)[a] != Keys(data)[b];
      EscapeDistinct(data[a].0, data[b].0);
    }
  }

  /** Escaping merges no keys: distinct names stay distinct entries, in
      the same order. */
  lemma {:induction false} EscapeKeysDistinct<V>(data: Dict<V>)
    requires Distinct(Keys(data))
    ensures EscapeKeys(data) == EscapedNames(data)
    decreases |data|
  {
    if |data| > 0 {
      var n := |data| - 1;
      var pre := data[..n];
      assert Keys(pre) == Keys(data)[..n];
      EscapeKeysDistinct(pre);
      var e := EscapedNames(pre);
      var k := Escape(data[n].0);
      forall i | 0 <= i < |e|
        ensures e[i].0 != k
      {
        assert Keys(data)[i] != Keys(data)[n];
        EscapeDistinct(data[i].0, data[n].0);
      }
      AppendFresh(e, k, data[n].1);
      EscapedNamesSnoc(data);
    }
  }

  /** Putting a key not yet present appends it. */
  lemma {:induction false} AppendFresh<V>(d: Dict<V>, k: string, v: V)
    requires forall i :: 0 <= i < |d| ==> d[i].0 != k
    ensures Put(d, k, v) == d + [(k, v)]
    decreases |d|
  {
    if |d| > 0 {
      AppendFresh(d[1..], k, v);
      assert [d[0]] + (d[1..] + [(k, v)]) == d + [(k, v)];
    }
  }

  const AvgTime: string := "avg time"
  const StdDevTime: string := "std dev time"

  /** A table without one of the two time rows: the lookup raises
      `KeyError`. */
  predicate LacksTimes(t: Dict<string>) {
    AvgTime !in Keys(t) || StdDevTime !in Keys(t)
  }

  /** Some run type of a model lacks a time row. */
  predicate AnyLacks(d: Data) {
    exists j :: 0 <= j < |d| && LacksTimes(d[j].1)
  }

  lemma AnyLacksSnoc(pre: Data, e: (string, Dict<string>))
    ensures AnyLacks(pre + [e]) <==> AnyLacks(pre) || LacksTimes(e.1)
  {
    var d := pre + [e];
    if AnyLacks(pre) {
      var j :| 0 <= j < |pre| && LacksTimes(pre[j].1);
      assert d[j] == pre[j];
    }
    if LacksTimes(e.1) {
      assert d[|pre|] == e;
    }
    if AnyLacks(d) {
      var j :| 0 <= j < |d| && LacksTimes(d[j].1);
      if j < |pre| {
        assert d[j] == pre[j];
      }
    }
  }

  /** The mean time and its deviation read from a table. */
  function Times(t: Dict<string>): (string, string) {
    (GetTimeVal(Lookup(t, AvgTime).GetOr("")), GetTimeVal(Lookup(t, StdDevTime).GetOr("")))
  }

  /** `output[type][model] = times`, the inner dictionary made on first
      use. */
  function FileTimes(out: Dict<Dict<(string, string)>>, kind: string, model: string, times: (string, string)): (r: Dict<Dict<(string, string)>>)
    ensures forall k, x :: Lookup(Get(r, k), x) ==
              if k == kind && x == model then Some(times) else Lookup(Get(out, k), x)
  {
    Put(out, kind, Put(Get(out, kind), model, times))
  }

  /** The inner loop of `bar_data` for one model: for each run type, the
      model's times go into that type's entry of `out`. */
  function AddTypes(out: Dict<Dict<(string, string)>>, model: string, d: Data): (r: Result<Dict<Dict<(string, string)>>>)
    ensures r.Failure? <==> AnyLacks(d)
    ensures r.Failure? ==> r.error == KeyError
    ensures r.Success? && Distinct(Keys(d)) ==>
              forall kind, name :: Lookup(Get(r.value, kind), name) ==
                (if name == model && kind in Keys(d) then Some(Times(Lookup(d, kind).value))
                 else Lookup(Get(out, kind), name))
    decreases |d|
  {
    if |d| == 0 then Success(out)
    else
      var n := |d| - 1;
      var pre := d[..n];
      assert d == pre + [d[n]];
      AnyLacksSnoc(pre, d[n]);
      KeysSnoc(pre, d[n]);
      DistinctSnoc(Keys(pre), d[n].0);
      match AddTypes(out, model, pre)
      case Failure(err) => Failure(err)
      case Success(o) =>
        var (kind, t) := d[n];
        if LacksTimes(t) then Failure(KeyError)
        else
          forall k
            ensures Lookup(d, k) == if k in Keys(pre) then Lookup(pre, k) else if k == kind then Some(t) else None
          {
            LookupSnoc(pre, kind, t, k);
          }
          Success(FileTimes(o, kind, model, Times(t)))
  }

  /** `output[type][model]` for every model with data, or `None` for one
      that has none or lacks that type. */
  function Expected(models: Dict<Option<Data>>, kind: string, name: string): Option<(string, string)> {
    var entry := Lookup(models, name);
    if entry.Some? && entry.value.Some? && kind in Keys(entry.value.value) then
      Some(Times(Lookup(entry.value.value, kind).value))
    else None
  }

  /** Every model's run types have distinct names. */
  ghost predicate TypesDistinct(models: Dict<Option<Data>>) {
    forall i :: 0 <= i < |models| && models[i].1.Some? ==> Distinct(Keys(models[i].1.value))
  }

  /** Some model with data lacks a time row. */
  predicate SomeLacks(models: Dict<Option<Data>>) {
    exists i :: 0 <= i < |models| && models[i].1.Some? && AnyLacks(models[i].1.value)
  }

  lemma SomeLacksSnoc(pre: Dict<Option<Data>>, e: (string, Option<Data>))
    ensures SomeLacks(pre + [e]) <==> SomeLacks(pre) || (e.1.Some? && AnyLacks(e.1.value))
  {
    var d := pre + [e];
    if SomeLacks(pre) {
      var j :| 0 <= j < |pre| && pre[j].1.Some? && AnyLacks(pre[j].1.value);
      assert d[j] == pre[j];
    }
    if e.1.Some? && AnyLacks(e.1.value) {
      assert d[|pre|] == e;
    }
    if SomeLacks(d) {
      var j :| 0 <= j < |d| && d[j].1.Some? && AnyLacks(d[j].1.value);
      if j < |pre| {
        assert d[j] == pre[j];
      }
    }
  }

  /** The first loop of `bar_data`: models without data are skipped, every
      other model's times are filed under each of its run types. */
  function Collect(models: Dict<Option<Data>>): (r: Result<Dict<Dict<(string, string)>>>)
    ensures r.Failure? <==> SomeLacks(models)
    ensures r.Failure? ==> r.error == KeyError
    ensures r.Success? && Distinct(Keys(models)) && TypesDistinct(models) ==>
              forall kind, name :: Lookup(Get(r.value, kind), name) == Expected(models, kind, name)
    decreases |models|
  {
    if |models| == 0 then Success([])
    else
      var n := |models| - 1;
      var pre := models[..n];
      assert models == pre + [models[n]];
      SomeLacksSnoc(pre, models[n]);
      KeysSnoc(pre, models[n]);
      DistinctSnoc(Keys(pre), models[n].0);
      assert TypesDistinct(models) ==> TypesDistinct(pre) by {
        assert forall i :: 0 <= i < n ==> pre[i] == models[i];
      }
      match Collect(pre)
      case Failure(err) => Failure(err)
      case Success(out) =>
        var (name, entry) := models[n];
        forall kind, x
          ensures Expected(models, kind, x) ==
                    if x in Keys(pre) then Expected(pre, kind, x)
                    else if x == name && entry.Some? && kind in Keys(entry.value) then
                      Some(Times(Lookup(entry.value, kind).value))
                    else None
        {
          LookupSnoc(pre, name, entry, x);
        }
        if entry.None? then Success(out)
        else AddTypes(out, name, entry.value)
  }

  const Letters: string := "abcdefghijklmnopqrstuvwxyz"

  /** One bar: the model's letter, its time and deviation, and its name. */
  function Bar(letter: char, model: string, times: (string, string)): string {
    "(" + [letter] + ", " + times.0 + ") +- (0, " + times.1 + ")\t% " + model + "\n"
  }

  /** The bars of one run type for the models from position `i` on, each
      model paired with the next letter; `zip` stops at the last letter. */
  function Listing(per: Dict<(string, string)>, models: seq<string>, i: nat): string
    decreases |models| - i
  {
    if i >= |models| || i >= |Letters| then ""
    else
      (match Lookup(per, models[i])
       case Some(times) => Bar(Letters[i], models[i], times)
       case None => "???") + Listing(per, models, i + 1)
  }

  /** Models past the 26th never appear: what follows them changes
      nothing. */
  lemma {:induction false} LateModelsDropped(per: Dict<(string, string)>, models: seq<string>, extra: seq<string>, i: nat)
    requires |models| >= |Letters|
    ensures Listing(per, models + extra, i) == Listing(per, models, i)
    decreases |models| - i
  {
    if i < |models| && i < |Letters| {
      assert (models + extra)[i] == models[i];
      LateModelsDropped(per, models, extra, i + 1);
    }
  }

  /** The second loop of `bar_data`: each run type, then its bars. */
  function Sections(out: Dict<Dict<(string, string)>>, models: seq<string>): string
    decreases |out|
  {
    if |out| == 0 then ""
    else out[0].0 + "\n" + Listing(out[0].1, models, 0) + "\n" + Sections(out[1..], models)
  }

  const Header: string := "PGFPLOT DATA\n"

  /** `bar_data`: the chart data for the models, whose names are escaped. */
  function BarData(data: Dict<Option<Data>>): (r: Result<string>)
    ensures r.Failure? <==> SomeLacks(EscapeKeys(data))
    ensures r.Failure? ==> r.error == KeyError
    ensures r.Success? ==> Header <= r.value
  {
    var esc := EscapeKeys(data);
    match Collect(esc)
    case Failure(err) => Failure(err)
    case Success(out) => Success(Header + Sections(out, Keys(esc)))
  }

  /** With distinct model names and run types, the chart files every
      model's times under its escaped name, and a model without data has
      no bar in any run type. */
  lemma BarDataFilesTimes(data: Dict<Option<Data>>, kind: string, i: nat)
    requires Distinct(Keys(data)) && TypesDistinct(data) && i < |data|
    requires Collect(EscapeKeys(data)).Success?
    ensures var out := Collect(EscapeKeys(data)).value;
            var name := Escape(data[i].0);
            Lookup(Get(out, kind), name) ==
              (if data[i].1.Some? && kind in Keys(data[i].1.value) then
                 Some(Times(Lookup(data[i].1.value, kind).value))
               else None)
  {
    EscapeKeysDistinct(data);
    EscapedNamesDistinct(data);
    var esc := EscapeKeys(data);
    assert esc[i] == (Escape(data[i].0), data[i].1);
    assert TypesDistinct(esc);
    LookupEntry(esc, i);
  }
}
