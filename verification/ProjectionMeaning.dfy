/** Which columns a projected row shows, and which tuples a base scan does. */
module ProjectionMeaning {
  import opened Sequences
  import opened Expr
  import opened Aggregation
  import opened AggregateMeaning
  import Executor

  /* ---------- SELECT * ---------- */

  /** Keys with a dot, and those that begin with two underscores, are not shown. */
  ghost predicate Hidden(key: string) {
    (|key| >= 2 && key[0] == '_' && key[1] == '_') || exists i :: 0 <= i < |key| && key[i] == '.'
  }

  lemma HiddenIs(key: string)
    ensures Hidden(key) <==> (|key| >= 2 && key[..2] == "__") || Executor.HasDot(key)
  {
    if |key| >= 2 { assert key[..2] == [key[0], key[1]]; }
  }

  /** `SELECT *` shows the other columns, in the row's order. */
  lemma {:induction false} StarShows(row: Row) returns (at: seq<nat>)
    ensures Picked(Executor.BareColumns(row), row, at)
    ensures forall i: nat :: i < |row| ==> (i in at <==> !Hidden(row[i].0))
    decreases |row|
  {
    at := [];
    if row != [] {
      HiddenIs(row[0].0);
      var rest := StarShows(row[1..]);
      at := PickedCons(Executor.BareColumns(row[1..]), row, rest, !Hidden(row[0].0));
    }
  }

  /* ---------- a list of items ---------- */

  lemma {:induction false} PutNew(row: Row, key: string, v: Value)
    requires forall i :: 0 <= i < |row| ==> row[i].0 != key
    ensures Put(row, key, v) == row + [(key, v)]
    decreases |row|
  {
    if row != [] { PutNew(row[1..], key, v); }
  }

  /** It raises exactly when some item does. */
  lemma {:induction false} SelectRaises(items: seq<SelectItem>, row: Row)
    ensures Executor.Select(items, row).None? <==> exists i :: 0 <= i < |items| && Eval(items[i].expr, row) == Raise
    decreases |items|
  {
    if items != [] {
      var n := |items| - 1;
      SelectRaises(items[..n], row);
      assert forall i :: 0 <= i < n ==> items[..n][i] == items[i];
    }
  }

  ghost predicate DistinctNames(items: seq<SelectItem>) {
    forall i, j :: 0 <= i < j < |items| ==> OutName(items[i]) != OutName(items[j])
  }

  /** Cell `i` has item `i`'s name and value. */
  ghost predicate ShowsItem(item: SelectItem, row: Row, cell: (string, Value)) {
    cell.0 == OutName(item) && Eval(item.expr, row) == Val(cell.1)
  }

  /** Otherwise, with different names, the row has the items' values under their names, in order. */
  lemma {:induction false} SelectShows(items: seq<SelectItem>, row: Row)
    requires DistinctNames(items) && Executor.Select(items, row).Some?
    ensures var out := Executor.Select(items, row).value;
            |out| == |items| && forall i :: 0 <= i < |items| ==> ShowsItem(items[i], row, out[i])
    decreases |items|
  {
    if items != [] {
      var n := |items| - 1;
      var before := Executor.Select(items[..n], row).value;
      SelectShows(items[..n], row);
      forall i | 0 <= i < n ensures before[i].0 != OutName(items[n]) && ShowsItem(items[i], row, before[i]) {
        assert ShowsItem(items[..n][i], row, before[i]);
      }
      PutNew(before, OutName(items[n]), Eval(items[n].expr, row).v);
    }
  }

  /** And with a name given twice, the later item's value. */
  lemma {:induction false} LaterItemWins(items: seq<SelectItem>, row: Row, c: nat)
    requires Executor.Select(items, row).Some? && LastNamed(items, c)
    ensures Eval(items[c].expr, row).Val?
    ensures Get(Executor.Select(items, row).value, OutName(items[c])) == Some(Eval(items[c].expr, row).v)
    decreases |items|
  {
    var n := |items| - 1;
    if c < n {
      LastNamedBefore(items, c);
      LaterItemWins(items[..n], row, c);
      var before := Executor.Select(items[..n], row).value;
      PutKeeps(before, OutName(items[n]), Eval(items[n].expr, row).v, OutName(items[c]));
    }
  }

  /** A projected row is one or the other. */
  lemma ProjectMeans(items: seq<SelectItem>, row: Row)
    ensures |items| == 1 && items[0].expr.Star? ==> Executor.ProjectRow(items, row) == Some(Executor.BareColumns(row))
    ensures !(|items| == 1 && items[0].expr.Star?) ==> Executor.ProjectRow(items, row) == Executor.Select(items, row)
  {
  }

  /* ---------- base scans ---------- */

  /** A base scan delivers the rows of the visible versions, in heap or index order. */
  lemma {:induction false} ScanShows(cells: seq<Executor.Stored>) returns (at: seq<nat>, versions: seq<Executor.Stored>)
    ensures Picked(versions, cells, at) && |versions| == |Executor.Seen(cells)|
    ensures forall j :: 0 <= j < |versions| ==> versions[j].Version? && versions[j].row == Executor.Seen(cells)[j]
    ensures forall i: nat :: i < |cells| ==> (i in at <==> cells[i].Version? && cells[i].visible)
    decreases |cells|
  {
    at, versions := [], [];
    if cells != [] {
      var rest, behind := ScanShows(cells[1..]);
      var take := cells[0].Version? && cells[0].visible;
      at := PickedCons(behind, cells, rest, take);
      versions := if take then [cells[0]] + behind else behind;
    }
  }
}
