/** What the cells of an aggregated row are, over the values of their group. */
module AggregateMeaning {
  import opened Sequences
  import opened Expr
  import opened Aggregation

  /* ---------- one aggregate ---------- */

  /** The answer of an aggregate over the values `vs`, NULLs left out. */
  ghost predicate Answers(kind: string, vs: seq<Value>, cell: Value) {
    && (kind == "COUNT" ==> cell == Int(NonNull(vs)))
    && (kind == "SUM" ==> IsNumber(cell) && Number(cell) == Sum(vs) && (Wholes(vs) ==> cell.Int?))
    && (kind == "AVG" ==>
          if NonNull(vs) == 0 then cell == Null else cell.Float? && cell.r * (NonNull(vs) as real) == Sum(vs))
    && (kind == "MIN" || kind == "MAX" ==> Best(kind, cell, vs))
  }

  /** Integers and booleans only, besides NULLs. */
  ghost predicate Wholes(vs: seq<Value>) {
    forall v :: v in vs ==> v.Null? || v.Int? || v.Bool?
  }

  lemma {:induction false} WholeSum(vs: seq<Value>)
    requires Wholes(vs) && Fold(NewAgg("SUM"), vs).Some?
    ensures Fold(NewAgg("SUM"), vs).value.kind == "SUM" && Fold(NewAgg("SUM"), vs).value.total.Int?
    decreases |vs|
  {
    KindsDiffer();
    if vs != [] {
      var n := |vs| - 1;
      assert forall v :: v in vs[..n] ==> v in vs;
      WholeSum(vs[..n]);
      assert vs[n] in vs;
    }
  }

  lemma KindsDiffer()
    ensures "COUNT" != "SUM" && "COUNT" != "AVG" && "SUM" != "AVG" && "COUNT" != "MIN" && "COUNT" != "MAX"
    ensures "SUM" != "MIN" && "SUM" != "MAX" && "AVG" != "MIN" && "AVG" != "MAX" && "MIN" != "MAX"
  {
    assert "COUNT"[0] == 'C' && "SUM"[0] == 'S' && "AVG"[0] == 'A' && "MIN"[0] == 'M' && "MAX"[0] == 'M';
    assert "MIN"[1] == 'I' && "MAX"[1] == 'A';
  }

  /** The result after folding the values is their answer. */
  lemma FoldAnswers(kind: string, vs: seq<Value>, a: Agg)
    requires Fold(NewAgg(kind), vs) == Some(a)
    ensures Answers(kind, vs, Result(a))
  {
    FoldCounts(kind, vs);
    if kind == "SUM" && Wholes(vs) { WholeSum(vs); }
    if kind == "MIN" || kind == "MAX" { FoldBest(kind, vs); }
    StateAnswers(kind, vs, a);
  }

  lemma StateAnswers(kind: string, vs: seq<Value>, a: Agg)
    requires a.kind == kind && (kind == "COUNT" || kind == "AVG" ==> a.count == NonNull(vs))
    requires kind == "SUM" || kind == "AVG" ==> Number(a.total) == Sum(vs)
    requires kind == "SUM" && Wholes(vs) ==> a.total.Int?
    requires kind == "MIN" || kind == "MAX" ==> Best(kind, a.best, vs)
    ensures Answers(kind, vs, Result(a))
  {
    KindsDiffer();
    if kind == "AVG" { AverageIs(a, vs); }
  }

  lemma AverageIs(a: Agg, vs: seq<Value>)
    requires a.kind == "AVG" && a.count == NonNull(vs) && Number(a.total) == Sum(vs)
    ensures if NonNull(vs) == 0 then Result(a) == Null
            else Result(a).Float? && Result(a).r * (NonNull(vs) as real) == Sum(vs)
  {
    KindsDiffer();
    if a.count > 0 { Quotient(Number(a.total), a.count as real); }
  }

  lemma Quotient(x: real, n: real)
    requires n > 0.0
    ensures x / n * n == x
  {
  }

  /** The values an aggregate takes are those of its argument on the rows, 1 each for `*`. */
  lemma {:induction false} InputsMean(e: Expr, rows: seq<Row>)
    requires e.Call?
    ensures Inputs(e, rows).None? <==> !e.arg.Star? && exists i :: 0 <= i < |rows| && Eval(e.arg, rows[i]) == Raise
    ensures Inputs(e, rows).Some? ==> |Inputs(e, rows).value| == |rows| && forall i :: 0 <= i < |rows| ==>
      Val(Inputs(e, rows).value[i]) == if e.arg.Star? then Val(Int(1)) else Eval(e.arg, rows[i])
    decreases |rows|
  {
    if rows != [] {
      InputsMean(e, rows[..|rows| - 1]);
    }
  }

  /* ---------- groups ---------- */

  /** The value under a column, NULL if there is none. */
  function Under(row: Row, col: string): (v: Value) {
    if Get(row, col).Some? then Get(row, col).value else Null
  }

  /** Two rows are in one group exactly when Python calls their group-by values equal. */
  lemma SameGroupIff(cols: seq<string>, a: Row, b: Row)
    ensures KeyOf(cols, a) == KeyOf(cols, b) <==> forall col :: col in cols ==> SameValue(Under(a, col), Under(b, col))
  {
    forall i | 0 <= i < |cols|
      ensures KeyOf(cols, a)[i] == KeyOf(cols, b)[i] <==> SameValue(Under(a, cols[i]), Under(b, cols[i]))
    {
      KeysMeet(Under(a, cols[i]), Under(b, cols[i]));
    }
    if KeyOf(cols, a) == KeyOf(cols, b) {
      forall col | col in cols ensures SameValue(Under(a, col), Under(b, col)) {
        var i :| 0 <= i < |cols| && cols[i] == col;
        assert KeyOf(cols, a)[i] == KeyOf(cols, b)[i];
      }
    }
    if forall col :: col in cols ==> SameValue(Under(a, col), Under(b, col)) {
      forall i | 0 <= i < |cols| ensures KeyOf(cols, a)[i] == KeyOf(cols, b)[i] { assert cols[i] in cols; }
    }
  }

  /** The rows of a group stand in input order, and they are all that have its key. */
  lemma {:induction false} RowsWithPicks(cols: seq<string>, k: seq<Value>, rows: seq<Row>) returns (at: seq<nat>)
    ensures Picked(RowsWith(cols, k, rows), rows, at)
    ensures forall i: nat :: i < |rows| ==> (i in at <==> KeyOf(cols, rows[i]) == k)
    decreases |rows|
  {
    at := [];
    if rows != [] {
      var n := |rows| - 1;
      var fewer := RowsWithPicks(cols, k, rows[..n]);
      at := LastPick(cols, k, rows, fewer);
    }
  }

  lemma LastPick(cols: seq<string>, k: seq<Value>, rows: seq<Row>, fewer: seq<nat>) returns (at: seq<nat>)
    requires rows != [] && Picked(RowsWith(cols, k, rows[..|rows| - 1]), rows[..|rows| - 1], fewer)
    requires forall i: nat :: i < |rows| - 1 ==> (i in fewer <==> KeyOf(cols, rows[..|rows| - 1][i]) == k)
    ensures Picked(RowsWith(cols, k, rows), rows, at)
    ensures forall i: nat :: i < |rows| ==> (i in at <==> KeyOf(cols, rows[i]) == k)
  {
    var n := |rows| - 1;
    at := PickedSnoc(RowsWith(cols, k, rows[..n]), rows, fewer, KeyOf(cols, rows[n]) == k);
    var all := at;
    forall i: nat | i < |rows| ensures i in all <==> KeyOf(cols, rows[i]) == k {
      if i < n { assert rows[..n][i] == rows[i]; }
    }
  }

  /* ---------- cells ---------- */

  /** No later item writes the same name. */
  ghost predicate LastNamed(items: seq<SelectItem>, c: nat) {
    c < |items| && forall d :: c < d < |items| ==> OutName(items[d]) != OutName(items[c])
  }

  lemma {:induction false} OutRowGet(items: seq<SelectItem>, cols: seq<string>, values: seq<Value>,
                                     states: seq<Option<Agg>>, c: nat)
    requires |cols| == |values| && |states| == |items| && LastNamed(items, c)
    ensures Get(OutRow(items, cols, values, states), OutName(items[c])) == Some(Cell(items[c], cols, values, states[c]))
    decreases |items|
  {
    var n := |items| - 1;
    if c < n {
      LastNamedBefore(items, c);
      OutRowGet(items[..n], cols, values, states[..n], c);
      OutRowNext(items, cols, values, states, OutRow(items[..n], cols, values, states[..n]), OutName(items[c]));
    }
  }

  lemma OutRowNext(items: seq<SelectItem>, cols: seq<string>, values: seq<Value>, states: seq<Option<Agg>>, before: Row,
                   name: string)
    requires |cols| == |values| && |states| == |items| > 0 && name != OutName(items[|items| - 1])
    requires before == OutRow(items[..|items| - 1], cols, values, states[..|items| - 1])
    ensures Get(OutRow(items, cols, values, states), name) == Get(before, name)
  {
    var n := |items| - 1;
    PutKeeps(before, OutName(items[n]), Cell(items[n], cols, values, states[n]), name);
  }

  lemma LastNamedBefore(items: seq<SelectItem>, c: nat)
    requires LastNamed(items, c) && c < |items| - 1
    ensures LastNamed(items[..|items| - 1], c) && OutName(items[|items| - 1]) != OutName(items[c])
  {
  }

  lemma PutKeeps(row: Row, key: string, v: Value, other: string)
    requires other != key
    ensures Get(Put(row, key, v), other) == Get(row, other)
  {
  }

  lemma {:induction false} ValueOfColumn(cols: seq<string>, row: Row, name: string)
    ensures ValueOf(cols, Values(cols, row), name) == if name in cols then Under(row, name) else Null
    decreases |cols|
  {
    if cols != [] {
      ValueOfColumn(cols[1..], row, name);
      assert Values(cols, row)[1..] == Values(cols[1..], row);
      assert name in cols <==> name == cols[0] || name in cols[1..];
    }
  }

  /** What stands in a group's row under an item: the answer of its aggregate over the group's
      values, or the group-by column's value in the group's first row. */
  ghost predicate CellMeans(item: SelectItem, cols: seq<string>, first: Row, rs: seq<Row>, cell: Value) {
    if item.expr.Call? then
      Inputs(item.expr, rs).Some? && Answers(item.expr.name, Inputs(item.expr, rs).value, cell)
    else
      var name := if item.expr.Column? then item.expr.name else OutName(item);
      cell == if name in cols then Under(first, name) else Null
  }

  lemma CellIs(item: SelectItem, cols: seq<string>, first: Row, rs: seq<Row>, st: Option<Agg>)
    requires if item.expr.Call? then st.Some? && FoldRows(item.expr, rs) == st else st.None?
    ensures CellMeans(item, cols, first, rs, Cell(item, cols, Values(cols, first), st))
  {
    if item.expr.Call? {
      FoldRowsIsFold(item.expr, rs);
      FoldAnswers(item.expr.name, Inputs(item.expr, rs).value, st.value);
    } else {
      ValueOfColumn(cols, first, if item.expr.Column? then item.expr.name else OutName(item));
    }
  }

  lemma NoneRaises(cols: seq<string>, items: seq<SelectItem>, rows: seq<Row>, k: seq<Value>, c: nat)
    requires !AnyRaises(cols, items, rows) && k in FirstKeys(cols, rows) && c < |items| && items[c].expr.Call?
    ensures FoldRows(items[c].expr, RowsWith(cols, k, rows)).Some?
  {
    assert items[c] in items;
  }

  /** Every row that aggregation returns: group `g`, in order of first appearance, and under each
      item's name the cell of that item. */
  lemma GroupedMeans(cols: seq<string>, items: seq<SelectItem>, rows: seq<Row>, g: nat, c: nat)
    requires Grouped(cols, items, rows).Some? && rows != [] && g < |FirstKeys(cols, rows)| && LastNamed(items, c)
    ensures |Grouped(cols, items, rows).value| == |FirstKeys(cols, rows)|
    ensures var k := FirstKeys(cols, rows)[g];
            var cell := Get(Grouped(cols, items, rows).value[g], OutName(items[c]));
            && First(cols, rows, k) < |rows| && cell.Some?
            && CellMeans(items[c], cols, rows[First(cols, rows, k)], RowsWith(cols, k, rows), cell.value)
  {
    var k := FirstKeys(cols, rows)[g];
    FirstKeysOrdered(cols, rows);
    assert k in FirstKeys(cols, rows);
    var first, rs := rows[First(cols, rows, k)], RowsWith(cols, k, rows);
    var states := StatesFor(items, rs);
    OutRowGet(items, cols, Values(cols, first), states, c);
    if items[c].expr.Call? { NoneRaises(cols, items, rows, k, c); }
    CellIs(items[c], cols, first, rs, states[c]);
  }

  /** Without input there is a row only if there is no GROUP BY, with the answers over nothing
      and no other column. */
  lemma {:induction false} EmptyRowMeans(items: seq<SelectItem>, c: nat)
    requires c < |items| && items[c].expr.Call?
    requires forall d :: c < d < |items| && items[d].expr.Call? ==> OutName(items[d]) != OutName(items[c])
    ensures var cell := Get(EmptyRow(items), OutName(items[c]));
            cell.Some? && Answers(items[c].expr.name, [], cell.value)
    decreases |items|
  {
    var n := |items| - 1;
    if c < n {
      assert forall d :: c < d < n ==> items[..n][d] == items[d];
      EmptyRowMeans(items[..n], c);
    } else {
      FoldAnswers(items[c].expr.name, [], NewAgg(items[c].expr.name));
    }
  }

  lemma {:induction false} EmptyRowHasOnly(items: seq<SelectItem>, name: string)
    requires forall d :: 0 <= d < |items| && items[d].expr.Call? ==> OutName(items[d]) != name
    ensures Get(EmptyRow(items), name).None?
    decreases |items|
  {
    if items != [] { EmptyRowHasOnly(items[..|items| - 1], name); }
  }

  lemma NoInputMeans(cols: seq<string>, items: seq<SelectItem>)
    ensures Grouped(cols, items, []) == Some(if cols == [] then [EmptyRow(items)] else [])
  {
    assert FirstKeys(cols, []) == [];
    assert !AnyRaises(cols, items, []);
  }

  /* ---------- names ---------- */

  const Small := "abcdefghijklmnopqrstuvwxyz"
  const Large := "ABCDEFGHIJKLMNOPQRSTUVWXYZ"

  lemma LowerMeans(c: char, k: nat)
    ensures |Small| == 26 && |Large| == 26
    ensures k < 26 && c == Large[k] ==> LowerChar(c) == Small[k]
    ensures c !in Large ==> LowerChar(c) == c
  {
    if 'A' <= c <= 'Z' {
      var i := (c - 'A') as nat;
      assert Large[i] == c;
    }
  }

  /** The name of an output column: its alias, else the column's name, else the function's in
      small letters, else `expr`. */
  lemma OutNameMeans(item: SelectItem, i: nat)
    ensures item.alias.Some? && item.alias.value != "" ==> OutName(item) == item.alias.value
    ensures (item.alias.None? || item.alias.value == "") && item.expr.Column? ==> OutName(item) == item.expr.name
    ensures (item.alias.None? || item.alias.value == "") && item.expr.Call? ==>
      && |OutName(item)| == |item.expr.name|
      && (i < |item.expr.name| ==> OutName(item)[i] == LowerChar(item.expr.name[i]))
    ensures (item.alias.None? || item.alias.value == "") && !item.expr.Column? && !item.expr.Call? ==>
      OutName(item) == "expr"
  {
  }
}
