/** Hash aggregation: groups in first-appearance order, one running state per aggregate. */
module Aggregation {
  import opened Sequences
  import opened Expr
  import opened Sorting

  /** A selected expression and its alias, if any. */
  datatype SelectItem = SelectItem(expr: Expr, alias: Option<string>)

  function LowerChar(c: char): char {
    if 'A' <= c <= 'Z' then c - 'A' + 'a' else c
  }

  /** `_default_column_name`. */
  function DefaultName(e: Expr): (name: string) {
    match e
    case Column(name, _) => name
    case Call(name, _) => seq(|name|, i requires 0 <= i < |name| => LowerChar(name[i]))
    case _ => "expr"
  }

  /** The alias, unless it is empty, or the default. */
  function OutName(item: SelectItem): (name: string) {
    if item.alias.Some? && item.alias.value != "" then item.alias.value else DefaultName(item.expr)
  }

  /** Assigning a dict entry: an old key keeps its place. */
  function Put(row: Row, key: string, v: Value): (r: Row)
    ensures Get(r, key) == Some(v)
    ensures forall k :: k != key ==> Get(r, k) == Get(row, k)
  {
    if row == [] then [(key, v)]
    else if row[0].0 == key then [(key, v)] + row[1..]
    else [row[0]] + Put(row[1..], key, v)
  }

  type Numeric = v: Value | IsNumber(v) witness Int(0)

  /* ---------- one aggregate ---------- */

  /** `_AggState`; `best` is Null until a value was seen. */
  datatype Agg = Agg(kind: string, count: nat, total: Numeric, best: Value)

  function NewAgg(kind: string): (a: Agg) { Agg(kind, 0, Int(0), Null) }

  /** Python's `+` on numbers; None when it raises. */
  function Plus(a: Value, b: Value): (v: Option<Value>)
    ensures v.Some? <==> IsNumber(a) && IsNumber(b)
    ensures v.Some? ==> IsNumber(v.value) && Number(v.value) == Number(a) + Number(b)
  {
    if !IsNumber(a) || !IsNumber(b) then None
    else if a.Float? || b.Float? then Some(Float(Number(a) + Number(b)))
    else Some(Int(Whole(a) + Whole(b)))
  }

  function Whole(v: Value): (n: int)
    requires v.Int? || v.Bool?
    ensures n as real == Number(v)
  {
    if v.Int? then v.n else if v.b then 1 else 0
  }

  /** `_AggState.add`; None when the value's type is refused. */
  function Add(a: Agg, v: Value): (r: Option<Agg>) {
    if v.Null? then Some(a)
    else if a.kind == "COUNT" then Some(a.(count := a.count + 1))
    else if a.kind == "SUM" then
      (match Plus(a.total, v) case None => None case Some(t) => Some(a.(total := t)))
    else if a.kind == "AVG" then
      (match Plus(a.total, v) case None => None case Some(t) => Some(a.(total := t, count := a.count + 1)))
    else if a.kind == "MIN" || a.kind == "MAX" then
      if a.best.Null? then Some(a.(best := v))
      else if !Comparable(a.best, v) then None
      else if (if a.kind == "MIN" then LessThan(v, a.best) else LessThan(a.best, v)) then Some(a.(best := v))
      else Some(a)
    else Some(a)
  }

  function Result(a: Agg): (v: Value) {
    if a.kind == "COUNT" then Int(a.count)
    else if a.kind == "SUM" then a.total
    else if a.kind == "AVG" then (if a.count == 0 then Null else Float(Number(a.total) / (a.count as real)))
    else a.best
  }

  /** All values in turn. */
  function Fold(a: Agg, vs: seq<Value>): (r: Option<Agg>) {
    if vs == [] then Some(a)
    else
      match Fold(a, vs[..|vs| - 1])
      case None => None
      case Some(b) => Add(b, vs[|vs| - 1])
  }

  function NonNull(vs: seq<Value>): (n: nat)
    ensures n <= |vs|
  {
    if vs == [] then 0 else NonNull(vs[..|vs| - 1]) + if vs[|vs| - 1].Null? then 0 else 1
  }

  function Sum(vs: seq<Value>): (x: real) {
    if vs == [] then 0.0
    else Sum(vs[..|vs| - 1]) + if IsNumber(vs[|vs| - 1]) then Number(vs[|vs| - 1]) else 0.0
  }

  /** COUNT counts the values that are there; SUM and AVG add them up. */
  lemma {:induction false} FoldCounts(kind: string, vs: seq<Value>)
    ensures Fold(NewAgg(kind), vs).Some? ==>
      var a := Fold(NewAgg(kind), vs).value;
      && a.kind == kind
      && (kind == "COUNT" || kind == "AVG" ==> a.count == NonNull(vs))
      && (kind == "SUM" || kind == "AVG" ==> Number(a.total) == Sum(vs))
    ensures kind == "COUNT" ==> Fold(NewAgg(kind), vs).Some?
    decreases |vs|
  {
    if vs != [] { FoldCounts(kind, vs[..|vs| - 1]); }
  }

  /** `best` is one of the values and no value beats it. */
  ghost predicate Best(kind: string, best: Value, vs: seq<Value>) {
    if best.Null? then forall v :: v in vs ==> v.Null?
    else best in vs && forall v :: v in vs && !v.Null? ==>
      Comparable(best, v) && !(if kind == "MIN" then LessThan(v, best) else LessThan(best, v))
  }

  lemma BestStep(kind: string, a: Agg, vs: seq<Value>, v: Value)
    requires (kind == "MIN" || kind == "MAX") && a.kind == kind && Best(kind, a.best, vs) && Add(a, v).Some?
    ensures Best(kind, Add(a, v).value.best, vs + [v])
  {
    var b := Add(a, v).value.best;
    assert b in vs + [v] || b.Null?;
    forall w | w in vs + [v] && !w.Null? && !b.Null?
      ensures Comparable(b, w) && !(if kind == "MIN" then LessThan(w, b) else LessThan(b, w))
    {
      BelowOrder(w, v, a.best);
      BelowOrder(a.best, v, w);
      BelowOrder(w, w, w);
    }
  }

  lemma {:induction false} FoldBest(kind: string, vs: seq<Value>)
    requires kind == "MIN" || kind == "MAX"
    ensures Fold(NewAgg(kind), vs).Some? ==>
      Fold(NewAgg(kind), vs).value.kind == kind && Best(kind, Fold(NewAgg(kind), vs).value.best, vs)
    decreases |vs|
  {
    if vs != [] {
      var n := |vs| - 1;
      FoldBest(kind, vs[..n]);
      assert vs == vs[..n] + [vs[n]];
      if Fold(NewAgg(kind), vs).Some? { BestStep(kind, Fold(NewAgg(kind), vs[..n]).value, vs[..n], vs[n]); }
    }
  }

  /* ---------- rows of one group ---------- */

  /** What an aggregate takes from a row; None when evaluating raises. */
  function Input(e: Expr, row: Row): (v: Option<Value>)
    requires e.Call?
  {
    if e.arg.Star? then Some(Int(1))
    else match Eval(e.arg, row) case Raise => None case Val(v) => Some(v)
  }

  function Feed(e: Expr, a: Agg, row: Row): (r: Option<Agg>)
    requires e.Call?
  {
    match Input(e, row) case None => None case Some(v) => Add(a, v)
  }

  /** The state of one aggregate over some rows. */
  function FoldRows(e: Expr, rows: seq<Row>): (r: Option<Agg>)
    requires e.Call?
  {
    if rows == [] then Some(NewAgg(e.name))
    else
      match FoldRows(e, rows[..|rows| - 1])
      case None => None
      case Some(a) => Feed(e, a, rows[|rows| - 1])
  }

  function Inputs(e: Expr, rows: seq<Row>): (vs: Option<seq<Value>>)
    requires e.Call?
  {
    if rows == [] then Some([])
    else
      match Inputs(e, rows[..|rows| - 1])
      case None => None
      case Some(vs) => (match Input(e, rows[|rows| - 1]) case None => None case Some(v) => Some(vs + [v]))
  }

  /** An aggregate over rows is the fold of its argument's values. */
  lemma {:induction false} FoldRowsIsFold(e: Expr, rows: seq<Row>)
    requires e.Call?
    ensures FoldRows(e, rows).Some? <==> Inputs(e, rows).Some? && Fold(NewAgg(e.name), Inputs(e, rows).value).Some?
    ensures FoldRows(e, rows).Some? ==> FoldRows(e, rows) == Fold(NewAgg(e.name), Inputs(e, rows).value)
    decreases |rows|
  {
    if rows != [] {
      FoldRowsIsFold(e, rows[..|rows| - 1]);
      if Inputs(e, rows).Some? {
        var vs := Inputs(e, rows).value;
        assert vs[..|vs| - 1] == Inputs(e, rows[..|rows| - 1]).value;
      }
    }
  }

  /** COUNT(*) counts rows. */
  lemma {:induction false} CountStarCounts(e: Expr, rows: seq<Row>)
    requires e.Call? && e.name == "COUNT" && e.arg.Star?
    ensures FoldRows(e, rows).Some? && FoldRows(e, rows).value.kind == "COUNT"
    ensures FoldRows(e, rows).value.count == |rows|
    decreases |rows|
  {
    if rows != [] { CountStarCounts(e, rows[..|rows| - 1]); }
  }

  /* ---------- groups ---------- */

  /** `row.get(col)`. */
  function Lookup(row: Row, col: string): (v: Value) {
    match Get(row, col) case None => Null case Some(v) => v
  }

  /** Equal numbers are one dict key, whatever their type. */
  function AsKey(v: Value): (k: Value) {
    if IsNumber(v) then Float(Number(v)) else v
  }

  lemma KeysMeet(v: Value, w: Value)
    ensures AsKey(v) == AsKey(w) <==> SameValue(v, w)
  {
  }

  function Values(cols: seq<string>, row: Row): (vs: seq<Value>)
    ensures |vs| == |cols|
  {
    seq(|cols|, i requires 0 <= i < |cols| => Lookup(row, cols[i]))
  }

  function KeyOf(cols: seq<string>, row: Row): (k: seq<Value>)
    ensures |k| == |cols|
  {
    seq(|cols|, i requires 0 <= i < |cols| => AsKey(Lookup(row, cols[i])))
  }

  /** Distinct keys, in the order of their first row. */
  function FirstKeys(cols: seq<string>, rows: seq<Row>): (ks: seq<seq<Value>>) {
    if rows == [] then []
    else
      var ks, k := FirstKeys(cols, rows[..|rows| - 1]), KeyOf(cols, rows[|rows| - 1]);
      if k in ks then ks else ks + [k]
  }

  /** The rows with one key, in input order. */
  function RowsWith(cols: seq<string>, k: seq<Value>, rows: seq<Row>): (rs: seq<Row>) {
    if rows == [] then []
    else
      var rs := RowsWith(cols, k, rows[..|rows| - 1]);
      if KeyOf(cols, rows[|rows| - 1]) == k then rs + [rows[|rows| - 1]] else rs
  }

  /** The first row with key `k`, or the number of rows. */
  function First(cols: seq<string>, rows: seq<Row>, k: seq<Value>): (i: nat)
    ensures i <= |rows|
    ensures i < |rows| ==> KeyOf(cols, rows[i]) == k
    ensures forall j :: 0 <= j < i ==> KeyOf(cols, rows[j]) != k
  {
    if rows == [] then 0
    else
      var n := |rows| - 1;
      var i := First(cols, rows[..n], k);
      if i < n then i else if KeyOf(cols, rows[n]) == k then n else n + 1
  }

  /** The key list has every key once, ordered by first row. */
  lemma {:induction false} FirstKeysOrdered(cols: seq<string>, rows: seq<Row>)
    ensures var ks := FirstKeys(cols, rows);
            && (forall k :: k in ks <==> First(cols, rows, k) < |rows|)
            && (forall a, b :: 0 <= a < b < |ks| ==> First(cols, rows, ks[a]) < First(cols, rows, ks[b]))
    decreases |rows|
  {
    if rows != [] {
      var fewer := rows[..|rows| - 1];
      FirstKeysOrdered(cols, fewer);
      var ks, before := FirstKeys(cols, rows), FirstKeys(cols, fewer);
      forall a, b | 0 <= a < b < |ks| ensures First(cols, rows, ks[a]) < First(cols, rows, ks[b]) {
        assert ks[a] == before[a];
        if b < |before| { assert ks[b] == before[b]; }
      }
    }
  }

  /* ---------- the hash table ---------- */

  /** One dict entry: key, the first row's group-by values, one state per aggregate item. */
  datatype Group = Group(key: seq<Value>, values: seq<Value>, states: seq<Option<Agg>>)

  function Fresh(items: seq<SelectItem>): (states: seq<Option<Agg>>)
    ensures |states| == |items|
  {
    seq(|items|, i requires 0 <= i < |items| => if items[i].expr.Call? then Some(NewAgg(items[i].expr.name)) else None)
  }

  /** `st` is the state of item `i` over `rows`. */
  ghost predicate StateOf(item: SelectItem, st: Option<Agg>, rows: seq<Row>) {
    if item.expr.Call? then st.Some? && FoldRows(item.expr, rows) == st else st.None?
  }

  ghost predicate StatesOf(items: seq<SelectItem>, states: seq<Option<Agg>>, rows: seq<Row>) {
    |states| == |items| && forall i :: 0 <= i < |items| ==> StateOf(items[i], states[i], rows)
  }

  /** Some aggregate raises over `rows`. */
  ghost predicate Raises(items: seq<SelectItem>, rows: seq<Row>) {
    exists item :: item in items && item.expr.Call? && FoldRows(item.expr, rows).None?
  }

  lemma {:induction false} RaisesOn(e: Expr, rows: seq<Row>, more: seq<Row>)
    requires e.Call? && FoldRows(e, rows).None?
    ensures FoldRows(e, rows + more).None?
    decreases |more|
  {
    if more == [] {
      assert rows + more == rows;
    } else {
      var n := |more| - 1;
      RaisesOn(e, rows, more[..n]);
      assert (rows + more)[..|rows + more| - 1] == rows + more[..n];
    }
  }

  /** The inner loop: every aggregate of the group takes the row. */
  method FeedGroup(items: seq<SelectItem>, states: seq<Option<Agg>>, row: Row, ghost rows: seq<Row>)
    returns (r: Option<seq<Option<Agg>>>)
    requires StatesOf(items, states, rows)
    ensures r.None? <==> Raises(items, rows + [row])
    ensures r.Some? ==> StatesOf(items, r.value, rows + [row])
  {
    var next: seq<Option<Agg>> := [];
    ghost var more := rows + [row];
    assert more[..|more| - 1] == rows;
    for i := 0 to |items|
      invariant |next| == i
      invariant forall j :: 0 <= j < i ==> StateOf(items[j], next[j], more)
    {
      assert StateOf(items[i], states[i], rows);
      if items[i].expr.Call? {
        var st := Feed(items[i].expr, states[i].value, row);
        assert FoldRows(items[i].expr, more) == st;
        if st.None? {
          assert items[i] in items;
          return None;
        }
        next := next + [st];
      } else {
        next := next + [None];
      }
    }
    forall item | item in items && item.expr.Call? ensures FoldRows(item.expr, more).Some? {
      var i :| 0 <= i < |items| && items[i] == item;
      assert StateOf(items[i], next[i], more);
    }
    return Some(next);
  }

  /** The table after some rows: one entry per key, in first-appearance order, with the
      group-by values of its first row and the fold of its rows. */
  ghost predicate EntryOf(cols: seq<string>, items: seq<SelectItem>, rows: seq<Row>, k: seq<Value>, g: Group) {
    && g.key == k && First(cols, rows, k) < |rows|
    && g.values == Values(cols, rows[First(cols, rows, k)])
    && StatesOf(items, g.states, RowsWith(cols, k, rows))
  }

  ghost predicate TableOf(cols: seq<string>, items: seq<SelectItem>, rows: seq<Row>, groups: seq<Group>) {
    && |groups| == |FirstKeys(cols, rows)|
    && forall i :: 0 <= i < |groups| ==> EntryOf(cols, items, rows, FirstKeys(cols, rows)[i], groups[i])
  }

  /** The position of a key in the table. */
  method FindGroup(groups: seq<Group>, k: seq<Value>) returns (i: nat)
    ensures i <= |groups| && (i < |groups| ==> groups[i].key == k)
    ensures forall j :: 0 <= j < i ==> groups[j].key != k
  {
    i := 0;
    while i < |groups| && groups[i].key != k
      invariant i <= |groups| && forall j :: 0 <= j < i ==> groups[j].key != k
    {
      i := i + 1;
    }
  }

  /** A row of another key leaves an entry as it is. */
  lemma OtherEntry(cols: seq<string>, items: seq<SelectItem>, rows: seq<Row>, row: Row, k: seq<Value>, g: Group)
    requires EntryOf(cols, items, rows, k, g) && KeyOf(cols, row) != k
    ensures EntryOf(cols, items, rows + [row], k, g)
  {
    assert (rows + [row])[..|rows + [row]| - 1] == rows;
  }

  /** A row of this key extends the group's rows. */
  lemma OwnEntry(cols: seq<string>, items: seq<SelectItem>, rows: seq<Row>, row: Row, g: Group,
                 states: seq<Option<Agg>>)
    requires EntryOf(cols, items, rows, g.key, g) && KeyOf(cols, row) == g.key
    requires StatesOf(items, states, RowsWith(cols, g.key, rows) + [row])
    ensures EntryOf(cols, items, rows + [row], g.key, g.(states := states))
  {
    assert (rows + [row])[..|rows + [row]| - 1] == rows;
  }

  lemma {:induction false} NoRowsWith(cols: seq<string>, k: seq<Value>, rows: seq<Row>)
    requires First(cols, rows, k) == |rows|
    ensures RowsWith(cols, k, rows) == []
    decreases |rows|
  {
    if rows != [] { NoRowsWith(cols, k, rows[..|rows| - 1]); }
  }

  /** The first row of a new key opens an entry at the end. */
  lemma NewEntry(cols: seq<string>, items: seq<SelectItem>, rows: seq<Row>, row: Row, states: seq<Option<Agg>>)
    requires KeyOf(cols, row) !in FirstKeys(cols, rows) && StatesOf(items, states, [row])
    ensures EntryOf(cols, items, rows + [row], KeyOf(cols, row), Group(KeyOf(cols, row), Values(cols, row), states))
  {
    var k := KeyOf(cols, row);
    assert (rows + [row])[..|rows + [row]| - 1] == rows;
    FirstKeysOrdered(cols, rows);
    NoRowsWith(cols, k, rows);
    assert RowsWith(cols, k, rows + [row]) == [row];
  }

  /** The table after a row of a known key. */
  lemma TableOwn(cols: seq<string>, items: seq<SelectItem>, rows: seq<Row>, groups: seq<Group>, row: Row, i: nat,
                 states: seq<Option<Agg>>)
    requires TableOf(cols, items, rows, groups) && i < |groups| && groups[i].key == KeyOf(cols, row)
    requires StatesOf(items, states, RowsWith(cols, KeyOf(cols, row), rows) + [row])
    ensures TableOf(cols, items, rows + [row], groups[i := groups[i].(states := states)])
  {
    var ks, next := FirstKeys(cols, rows), groups[i := groups[i].(states := states)];
    assert (rows + [row])[..|rows + [row]| - 1] == rows;
    assert EntryOf(cols, items, rows, ks[i], groups[i]);
    FirstKeysOrdered(cols, rows);
    forall j | 0 <= j < |groups| ensures EntryOf(cols, items, rows + [row], ks[j], next[j]) {
      assert EntryOf(cols, items, rows, ks[j], groups[j]);
      if j != i {
        OtherEntry(cols, items, rows, row, ks[j], groups[j]);
      } else {
        OwnEntry(cols, items, rows, row, groups[i], states);
      }
    }
  }

  /** The table after the first row of a new key. */
  lemma TableNew(cols: seq<string>, items: seq<SelectItem>, rows: seq<Row>, groups: seq<Group>, row: Row,
                 states: seq<Option<Agg>>)
    requires TableOf(cols, items, rows, groups)
    requires KeyOf(cols, row) !in FirstKeys(cols, rows) && StatesOf(items, states, [row])
    ensures TableOf(cols, items, rows + [row], groups + [Group(KeyOf(cols, row), Values(cols, row), states)])
  {
    var ks := FirstKeys(cols, rows);
    assert (rows + [row])[..|rows + [row]| - 1] == rows;
    NewEntry(cols, items, rows, row, states);
    forall j | 0 <= j < |groups| ensures EntryOf(cols, items, rows + [row], ks[j], groups[j]) {
      assert EntryOf(cols, items, rows, ks[j], groups[j]);
      OtherEntry(cols, items, rows, row, ks[j], groups[j]);
    }
  }

  /** One input row: its group, or a new one, takes it. */
  method AddRow(cols: seq<string>, items: seq<SelectItem>, groups: seq<Group>, row: Row, ghost rows: seq<Row>)
    returns (r: Option<seq<Group>>)
    requires TableOf(cols, items, rows, groups)
    ensures r.None? <==> Raises(items, RowsWith(cols, KeyOf(cols, row), rows + [row]))
    ensures r.Some? ==> TableOf(cols, items, rows + [row], r.value)
  {
    var k := KeyOf(cols, row);
    var i := FindGroup(groups, k);
    ghost var ks, more := FirstKeys(cols, rows), rows + [row];
    assert more[..|more| - 1] == rows;
    assert forall j :: 0 <= j < |groups| ==> EntryOf(cols, items, rows, ks[j], groups[j]);
    FirstKeysOrdered(cols, rows);
    if i < |groups| {
      assert ks[i] == k;
      var states := FeedGroup(items, groups[i].states, row, RowsWith(cols, k, rows));
      if states.None? { return None; }
      TableOwn(cols, items, rows, groups, row, i, states.value);
      r := Some(groups[i := groups[i].(states := states.value)]);
    } else {
      assert k !in ks;
      NoRowsWith(cols, k, rows);
      assert [] + [row] == [row];
      var states := FeedGroup(items, Fresh(items), row, []);
      if states.None? { return None; }
      TableNew(cols, items, rows, groups, row, states.value);
      r := Some(groups + [Group(k, Values(cols, row), states.value)]);
    }
  }

  lemma {:induction false} RowsWithConcat(cols: seq<string>, k: seq<Value>, a: seq<Row>, b: seq<Row>)
    ensures RowsWith(cols, k, a + b) == RowsWith(cols, k, a) + RowsWith(cols, k, b)
    decreases |b|
  {
    if b == [] {
      assert a + b == a;
    } else {
      assert (a + b)[..|a + b| - 1] == a + b[..|b| - 1];
      RowsWithConcat(cols, k, a, b[..|b| - 1]);
    }
  }

  /** Aggregating raises: some group's fold does. */
  ghost predicate AnyRaises(cols: seq<string>, items: seq<SelectItem>, rows: seq<Row>) {
    exists k :: k in FirstKeys(cols, rows) && Raises(items, RowsWith(cols, k, rows))
  }

  /** A group that raises on the rows so far raises on all rows. */
  lemma RaisesAtTheEnd(cols: seq<string>, items: seq<SelectItem>, rows: seq<Row>, n: nat)
    requires n < |rows| && Raises(items, RowsWith(cols, KeyOf(cols, rows[n]), rows[..n + 1]))
    ensures AnyRaises(cols, items, rows)
  {
    var k := KeyOf(cols, rows[n]);
    var part := RowsWith(cols, k, rows[..n + 1]);
    assert rows == rows[..n + 1] + rows[n + 1..];
    RowsWithConcat(cols, k, rows[..n + 1], rows[n + 1..]);
    var item :| item in items && item.expr.Call? && FoldRows(item.expr, part).None?;
    RaisesOn(item.expr, part, RowsWith(cols, k, rows[n + 1..]));
    FirstKeysOrdered(cols, rows);
    assert k in FirstKeys(cols, rows);
  }

  lemma TableNeverRaises(cols: seq<string>, items: seq<SelectItem>, rows: seq<Row>, groups: seq<Group>)
    requires TableOf(cols, items, rows, groups)
    ensures !AnyRaises(cols, items, rows)
  {
    forall k | k in FirstKeys(cols, rows) ensures !Raises(items, RowsWith(cols, k, rows)) {
      var i :| 0 <= i < |groups| && FirstKeys(cols, rows)[i] == k;
      assert EntryOf(cols, items, rows, k, groups[i]);
      forall item | item in items && item.expr.Call? ensures FoldRows(item.expr, RowsWith(cols, k, rows)).Some? {
        var j :| 0 <= j < |items| && items[j] == item;
        assert StateOf(items[j], groups[i].states[j], RowsWith(cols, k, rows));
      }
    }
  }

  /** The loop over the child's rows. */
  method BuildTable(cols: seq<string>, items: seq<SelectItem>, rows: seq<Row>) returns (r: Option<seq<Group>>)
    ensures r.None? <==> AnyRaises(cols, items, rows)
    ensures r.Some? ==> TableOf(cols, items, rows, r.value)
  {
    var groups: seq<Group> := [];
    for n := 0 to |rows|
      invariant TableOf(cols, items, rows[..n], groups)
    {
      assert rows[..n + 1] == rows[..n] + [rows[n]];
      var next := AddRow(cols, items, groups, rows[n], rows[..n]);
      if next.None? {
        RaisesAtTheEnd(cols, items, rows, n);
        return None;
      }
      groups := next.value;
    }
    assert rows[..|rows|] == rows;
    TableNeverRaises(cols, items, rows, groups);
    return Some(groups);
  }

  /* ---------- counting ---------- */

  function Total(cols: seq<string>, ks: seq<seq<Value>>, rows: seq<Row>): (n: nat) {
    if ks == [] then 0 else Total(cols, ks[..|ks| - 1], rows) + |RowsWith(cols, ks[|ks| - 1], rows)|
  }

  lemma {:induction false} TotalStep(cols: seq<string>, ks: seq<seq<Value>>, rows: seq<Row>)
    requires rows != [] && forall a, b :: 0 <= a < b < |ks| ==> ks[a] != ks[b]
    ensures Total(cols, ks, rows)
         == Total(cols, ks, rows[..|rows| - 1]) + if KeyOf(cols, rows[|rows| - 1]) in ks then 1 else 0
    decreases |ks|
  {
    if ks != [] {
      TotalStep(cols, ks[..|ks| - 1], rows);
      assert ks == ks[..|ks| - 1] + [ks[|ks| - 1]];
    }
  }

  /** The groups share the input out: their sizes add up to it. */
  lemma {:induction false} GroupsPartition(cols: seq<string>, rows: seq<Row>)
    ensures Total(cols, FirstKeys(cols, rows), rows) == |rows|
    decreases |rows|
  {
    if rows != [] {
      var fewer, k := rows[..|rows| - 1], KeyOf(cols, rows[|rows| - 1]);
      GroupsPartition(cols, fewer);
      FirstKeysOrdered(cols, fewer);
      FirstKeysOrdered(cols, rows);
      var ks, before := FirstKeys(cols, rows), FirstKeys(cols, fewer);
      TotalStep(cols, ks, rows);
      if k !in before {
        assert ks[..|ks| - 1] == before;
        NoRowsWith(cols, k, fewer);
      }
    }
  }

  /** The count a group's item `c` has reached. */
  function CountOf(g: Group, c: nat): (n: nat) {
    if c < |g.states| && g.states[c].Some? then g.states[c].value.count else 0
  }

  /** The sum of one COUNT column over a table. */
  function CountSum(groups: seq<Group>, c: nat): (n: nat) {
    if groups == [] then 0 else CountSum(groups[..|groups| - 1], c) + CountOf(groups[|groups| - 1], c)
  }

  lemma {:induction false} CountSumIsTotal(cols: seq<string>, items: seq<SelectItem>, rows: seq<Row>,
                                           groups: seq<Group>, ks: seq<seq<Value>>, c: nat)
    requires c < |items| && items[c].expr == Call("COUNT", Star) && |groups| == |ks|
    requires forall i :: 0 <= i < |groups| ==> EntryOf(cols, items, rows, ks[i], groups[i])
    ensures CountSum(groups, c) == Total(cols, ks, rows)
    decreases |ks|
  {
    if ks != [] {
      var n := |ks| - 1;
      CountSumIsTotal(cols, items, rows, groups[..n], ks[..n], c);
      CountOfEntry(cols, items, rows, ks[n], groups[n], c);
    }
  }

  lemma CountOfEntry(cols: seq<string>, items: seq<SelectItem>, rows: seq<Row>, k: seq<Value>, g: Group, c: nat)
    requires EntryOf(cols, items, rows, k, g) && c < |items| && items[c].expr == Call("COUNT", Star)
    ensures CountOf(g, c) == |RowsWith(cols, k, rows)|
  {
    assert StateOf(items[c], g.states[c], RowsWith(cols, k, rows));
    CountStarCounts(items[c].expr, RowsWith(cols, k, rows));
  }

  /** The COUNT(*) values of all groups add up to the number of input rows. */
  lemma CountStarConserves(cols: seq<string>, items: seq<SelectItem>, rows: seq<Row>, groups: seq<Group>, c: nat)
    requires TableOf(cols, items, rows, groups) && c < |items| && items[c].expr == Call("COUNT", Star)
    ensures CountSum(groups, c) == |rows|
  {
    CountSumIsTotal(cols, items, rows, groups, FirstKeys(cols, rows), c);
    GroupsPartition(cols, rows);
  }

  /* ---------- output rows ---------- */

  /** `group_values[key].get(name)`. */
  function ValueOf(cols: seq<string>, values: seq<Value>, name: string): (v: Value)
    requires |cols| == |values|
  {
    if cols == [] then Null else if cols[0] == name then values[0] else ValueOf(cols[1..], values[1..], name)
  }

  function Cell(item: SelectItem, cols: seq<string>, values: seq<Value>, st: Option<Agg>): (v: Value)
    requires |cols| == |values|
  {
    if st.Some? then Result(st.value)
    else ValueOf(cols, values, if item.expr.Column? then item.expr.name else OutName(item))
  }

  /** One output row. */
  function OutRow(items: seq<SelectItem>, cols: seq<string>, values: seq<Value>, states: seq<Option<Agg>>): (row: Row)
    requires |cols| == |values| && |states| == |items|
  {
    if items == [] then []
    else
      var n := |items| - 1;
      Put(OutRow(items[..n], cols, values, states[..n]), OutName(items[n]), Cell(items[n], cols, values, states[n]))
  }

  /** The row for no input at all: only the aggregates. */
  function EmptyRow(items: seq<SelectItem>): (row: Row) {
    if items == [] then []
    else
      var n := |items| - 1;
      if items[n].expr.Call? then Put(EmptyRow(items[..n]), OutName(items[n]), Result(NewAgg(items[n].expr.name)))
      else EmptyRow(items[..n])
  }

  /** The states of all items over `rows`. */
  function StatesFor(items: seq<SelectItem>, rows: seq<Row>): (states: seq<Option<Agg>>)
    ensures |states| == |items|
  {
    seq(|items|, i requires 0 <= i < |items| => if items[i].expr.Call? then FoldRows(items[i].expr, rows) else None)
  }

  /** The list meaning: one row per distinct key, in first-appearance order. */
  ghost function Grouped(cols: seq<string>, items: seq<SelectItem>, rows: seq<Row>): (out: Option<seq<Row>>) {
    if AnyRaises(cols, items, rows) then None
    else if rows == [] && cols == [] then Some([EmptyRow(items)])
    else
      Some(GroupRows(cols, items, rows))
  }

  ghost function GroupRows(cols: seq<string>, items: seq<SelectItem>, rows: seq<Row>): (out: seq<Row>)
    ensures |out| == |FirstKeys(cols, rows)|
  {
    var ks := FirstKeys(cols, rows);
    seq(|ks|, i requires 0 <= i < |ks| => GroupRow(cols, items, rows, ks[i]))
  }

  ghost function GroupRow(cols: seq<string>, items: seq<SelectItem>, rows: seq<Row>, k: seq<Value>): (row: Row) {
    var first := if First(cols, rows, k) < |rows| then rows[First(cols, rows, k)] else [];
    OutRow(items, cols, Values(cols, first), StatesFor(items, RowsWith(cols, k, rows)))
  }

  lemma EntryRow(cols: seq<string>, items: seq<SelectItem>, rows: seq<Row>, k: seq<Value>, g: Group)
    requires EntryOf(cols, items, rows, k, g)
    ensures |g.values| == |cols| && |g.states| == |items|
    ensures OutRow(items, cols, g.values, g.states) == GroupRow(cols, items, rows, k)
  {
    var rs := RowsWith(cols, k, rows);
    forall i | 0 <= i < |items| ensures g.states[i] == StatesFor(items, rs)[i] {
      assert StateOf(items[i], g.states[i], rs);
    }
    assert g.states == StatesFor(items, rs);
  }

  lemma NoKeys(cols: seq<string>, rows: seq<Row>)
    ensures FirstKeys(cols, rows) == [] <==> rows == []
  {
    FirstKeysOrdered(cols, rows);
    if rows != [] { assert First(cols, rows, KeyOf(cols, rows[0])) < |rows|; }
  }

  lemma NextRow(want: seq<Row>, i: nat)
    requires i < |want|
    ensures want[..i + 1] == want[..i] + [want[i]]
  {
  }

  /** The loop over the table's entries. */
  method OutRows(cols: seq<string>, items: seq<SelectItem>, groups: seq<Group>, ghost rows: seq<Row>)
    returns (result: seq<Row>)
    requires TableOf(cols, items, rows, groups)
    ensures result == GroupRows(cols, items, rows)
  {
    result := [];
    ghost var ks, want := FirstKeys(cols, rows), GroupRows(cols, items, rows);
    for i := 0 to |groups|
      invariant result == want[..i]
    {
      assert EntryOf(cols, items, rows, ks[i], groups[i]);
      EntryRow(cols, items, rows, ks[i], groups[i]);
      NextRow(want, i);
      result := result + [OutRow(items, cols, groups[i].values, groups[i].states)];
    }
  }

  /** `HashAggregateOperator.open` on the rows of its child. */
  method Aggregate(cols: seq<string>, items: seq<SelectItem>, rows: seq<Row>) returns (out: Option<seq<Row>>)
    ensures out == Grouped(cols, items, rows)
  {
    var groups := BuildTable(cols, items, rows);
    if groups.None? { return None; }
    NoKeys(cols, rows);
    var result := OutRows(cols, items, groups.value, rows);
    if groups.value == [] && cols == [] { result := [EmptyRow(items)]; }
    return Some(result);
  }
}
