/** ORDER BY: one stable sort per key, last key first. */
module Sorting {
  import opened Sequences
  import opened Expr

  datatype OrderItem = OrderItem(expr: Expr, descending: bool)

  /* ---------- the order of key values ---------- */

  function Rank(v: Value): nat {
    if v.Null? then 0 else if v.Text? then 2 else 1
  }

  /** `LessThan`, extended to values Python would refuse to compare. */
  predicate Below(a: Value, b: Value) {
    Rank(a) < Rank(b) || (Comparable(a, b) && LessThan(a, b))
  }

  lemma {:induction false} TextOrder(a: string, b: string, c: string)
    ensures !Before(a, a)
    ensures Before(a, b) ==> !Before(b, a)
    ensures Before(a, b) && Before(b, c) ==> Before(a, c)
    ensures Before(a, c) ==> Before(a, b) || Before(b, c)
    decreases |a|
  {
    if a != [] {
      TextOrder(a[1..], if b == [] then [] else b[1..], if c == [] then [] else c[1..]);
    }
  }

  /** Key values are strictly weakly ordered. */
  lemma BelowOrder(a: Value, b: Value, c: Value)
    ensures Below(a, b) ==> !Below(b, a)
    ensures Below(a, b) && Below(b, c) ==> Below(a, c)
    ensures Below(a, c) ==> Below(a, b) || Below(b, c)
  {
    if a.Text? && b.Text? && c.Text? { TextOrder(a.s, b.s, c.s); }
    if a.Text? && b.Text? { TextOrder(a.s, b.s, b.s); }
  }

  function Key(o: OrderItem, row: Row): (v: Value) {
    match Eval(o.expr, row)
    case Val(v) => v
    case Raise => Null
  }

  /** By this key alone, `a` has to come before `b`. */
  predicate Goes(o: OrderItem, a: Row, b: Row) {
    if o.descending then Below(Key(o, b), Key(o, a)) else Below(Key(o, a), Key(o, b))
  }

  lemma GoesOrder(o: OrderItem, a: Row, b: Row, c: Row)
    ensures Goes(o, a, b) ==> !Goes(o, b, a)
    ensures Goes(o, a, b) && Goes(o, b, c) ==> Goes(o, a, c)
    ensures Goes(o, a, c) ==> Goes(o, a, b) || Goes(o, b, c)
  {
    BelowOrder(Key(o, a), Key(o, b), Key(o, c));
    BelowOrder(Key(o, c), Key(o, b), Key(o, a));
  }

  /* ---------- one stable pass ---------- */

  /** A row with its position in the input. */
  datatype Item = Item(row: Row, at: nat)

  function Insert(o: OrderItem, x: Item, s: seq<Item>): (r: seq<Item>)
    ensures multiset(r) == multiset(s) + multiset{x}
  {
    if s == [] || !Goes(o, s[0].row, x.row) then
      [x] + s
    else
      assert s == [s[0]] + s[1..];
      [s[0]] + Insert(o, x, s[1..])
  }

  /** A stable sort by one key, ascending or descending. */
  function StableSort(o: OrderItem, s: seq<Item>): (r: seq<Item>)
    ensures multiset(r) == multiset(s)
  {
    if s == [] then []
    else
      assert s == [s[0]] + s[1..];
      Insert(o, s[0], StableSort(o, s[1..]))
  }

  /** The passes from the last key to the first. */
  function SortBy(order: seq<OrderItem>, s: seq<Item>): (r: seq<Item>)
    ensures multiset(r) == multiset(s)
  {
    if order == [] then s else StableSort(order[0], SortBy(order[1..], s))
  }

  /** Lexicographic in the keys, full ties in input order. */
  predicate Lex(order: seq<OrderItem>, a: Item, b: Item) {
    if order == [] then a.at < b.at
    else Goes(order[0], a.row, b.row) || (!Goes(order[0], b.row, a.row) && Lex(order[1..], a, b))
  }

  ghost predicate Ordered(order: seq<OrderItem>, s: seq<Item>) {
    forall i, j :: 0 <= i < j < |s| ==> Lex(order, s[i], s[j])
  }

  ghost predicate Leads(order: seq<OrderItem>, x: Item, s: seq<Item>) {
    forall y :: y in s ==> Lex(order, x, y)
  }

  lemma OrderedCons(order: seq<OrderItem>, x: Item, s: seq<Item>)
    ensures Ordered(order, [x] + s) <==> Leads(order, x, s) && Ordered(order, s)
  {
    var t := [x] + s;
    if Ordered(order, t) {
      forall y | y in s ensures Lex(order, x, y) {
        var i :| 0 <= i < |s| && s[i] == y;
        assert t[0] == x && t[i + 1] == y;
      }
      forall i, j | 0 <= i < j < |s| ensures Lex(order, s[i], s[j]) { assert t[i + 1] == s[i] && t[j + 1] == s[j]; }
    }
  }

  /** Inserting an item that ties before everything keeps the finer order. */
  lemma {:induction false} InsertOrders(order: seq<OrderItem>, x: Item, s: seq<Item>)
    requires order != [] && Ordered(order, s) && Leads(order[1..], x, s)
    ensures Ordered(order, Insert(order[0], x, s))
    decreases |s|
  {
    var o := order[0];
    if s == [] || !Goes(o, s[0].row, x.row) {
      forall y | y in s ensures Lex(order, x, y) {
        var i :| 0 <= i < |s| && s[i] == y;
        assert i > 0 ==> Lex(order, s[0], y);
        GoesOrder(o, y.row, s[0].row, x.row);
        GoesOrder(o, s[0].row, y.row, x.row);
      }
      OrderedCons(order, x, s);
    } else {
      var tail := Insert(o, x, s[1..]);
      assert s == [s[0]] + s[1..];
      OrderedCons(order, s[0], s[1..]);
      InsertOrders(order, x, s[1..]);
      forall y | y in tail ensures Lex(order, s[0], y) {
        assert y in multiset(tail);
        GoesOrder(o, s[0].row, x.row, s[0].row);
      }
      OrderedCons(order, s[0], tail);
    }
  }

  lemma {:induction false} PassOrders(order: seq<OrderItem>, s: seq<Item>)
    requires order != [] && Ordered(order[1..], s)
    ensures Ordered(order, StableSort(order[0], s))
    decreases |s|
  {
    if s != [] {
      assert s == [s[0]] + s[1..];
      OrderedCons(order[1..], s[0], s[1..]);
      PassOrders(order, s[1..]);
      var tail := StableSort(order[0], s[1..]);
      forall y | y in tail ensures Lex(order[1..], s[0], y) { assert y in multiset(tail); }
      InsertOrders(order, s[0], tail);
    }
  }

  function Tagged(rows: seq<Row>): (s: seq<Item>)
    ensures |s| == |rows|
  {
    seq(|rows|, i requires 0 <= i < |rows| => Item(rows[i], i))
  }

  /** The passes give the lexicographic order with ties in input order. */
  lemma {:induction false} SortOrders(order: seq<OrderItem>, rows: seq<Row>)
    ensures Ordered(order, SortBy(order, Tagged(rows)))
    ensures multiset(SortBy(order, Tagged(rows))) == multiset(Tagged(rows))
    decreases |order|
  {
    if order != [] {
      SortOrders(order[1..], rows);
      PassOrders(order, SortBy(order[1..], Tagged(rows)));
    }
  }

  lemma {:induction false} LexAsymmetric(order: seq<OrderItem>, a: Item, b: Item)
    requires Lex(order, a, b)
    ensures !Lex(order, b, a)
    decreases |order|
  {
    if order != [] {
      GoesOrder(order[0], a.row, b.row, a.row);
      if !Goes(order[0], a.row, b.row) && !Goes(order[0], b.row, a.row) { LexAsymmetric(order[1..], a, b); }
    }
  }

  /** There is only one such order, so any stable sort gives this list. */
  lemma {:induction false} OrderedUnique(order: seq<OrderItem>, s: seq<Item>, t: seq<Item>)
    requires Ordered(order, s) && Ordered(order, t) && multiset(s) == multiset(t)
    ensures s == t
    decreases |s|
  {
    assert |s| == |multiset(s)| == |t|;
    if s != [] {
      SameHead(order, s, t);
      assert s == [s[0]] + s[1..] && t == [t[0]] + t[1..];
      OrderedCons(order, s[0], s[1..]);
      OrderedCons(order, t[0], t[1..]);
      assert multiset(s[1..]) == multiset(s) - multiset{s[0]};
      assert multiset(t[1..]) == multiset(t) - multiset{t[0]};
      OrderedUnique(order, s[1..], t[1..]);
    }
  }

  lemma SameHead(order: seq<OrderItem>, s: seq<Item>, t: seq<Item>)
    requires Ordered(order, s) && Ordered(order, t) && multiset(s) == multiset(t) && s != [] && t != []
    ensures s[0] == t[0]
  {
    LeadsRest(order, s, t[0]);
    LeadsRest(order, t, s[0]);
    assert s[0] in multiset(t) && t[0] in multiset(s);
    if s[0] != t[0] { LexAsymmetric(order, s[0], t[0]); }
  }

  /** Every other item comes behind the first. */
  lemma LeadsRest(order: seq<OrderItem>, s: seq<Item>, x: Item)
    requires Ordered(order, s) && s != []
    ensures x in s ==> x == s[0] || Lex(order, s[0], x)
  {
    if x in s {
      var i :| 0 <= i < |s| && s[i] == x;
    }
  }

  /* ---------- when sorting raises ---------- */

  /** Every key evaluates, and no comparison the sort may make is refused. */
  predicate Sortable(o: OrderItem, rows: seq<Row>) {
    && (forall r :: r in rows ==> Eval(o.expr, r).Val?)
    && (|rows| >= 2 ==> forall a, b :: a in rows && b in rows ==> KeysCompare(o, a, b))
  }

  predicate KeysCompare(o: OrderItem, a: Row, b: Row) {
    match (Eval(o.expr, a), Eval(o.expr, b))
    case (Val(x), Val(y)) => Comparable(x, y)
    case _ => false
  }

  function Rows(s: seq<Item>): (rows: seq<Row>)
    ensures |rows| == |s|
  {
    seq(|s|, i requires 0 <= i < |s| => s[i].row)
  }

  /** On a sortable list the key order is Python's own comparison. */
  lemma SortableOrder(o: OrderItem, rows: seq<Row>, a: Row, b: Row)
    requires Sortable(o, rows) && |rows| >= 2 && a in rows && b in rows
    ensures Comparable(Key(o, a), Key(o, b)) && (Below(Key(o, a), Key(o, b)) <==> LessThan(Key(o, a), Key(o, b)))
  {
  }

  /** In terms of Python's comparison: the first key that tells two rows apart decides,
      ascending or descending, and input order if none does. */
  predicate Precedes(order: seq<OrderItem>, a: Item, b: Item) {
    if order == [] then a.at < b.at
    else
      match (Eval(order[0].expr, a.row), Eval(order[0].expr, b.row))
      case (Val(x), Val(y)) =>
        && Comparable(x, y)
        && if LessThan(x, y) then !order[0].descending
           else if LessThan(y, x) then order[0].descending
           else Precedes(order[1..], a, b)
      case _ => false
  }

  lemma {:induction false} LexIsPrecedes(order: seq<OrderItem>, rows: seq<Row>, a: Item, b: Item)
    requires |rows| >= 2 && a.row in rows && b.row in rows && forall o :: o in order ==> Sortable(o, rows)
    ensures Lex(order, a, b) <==> Precedes(order, a, b)
    decreases |order|
  {
    if order != [] {
      var o := order[0];
      SortableOrder(o, rows, a.row, b.row);
      SortableOrder(o, rows, b.row, a.row);
      BelowOrder(Key(o, a.row), Key(o, b.row), Key(o, b.row));
      LexIsPrecedes(order[1..], rows, a, b);
    }
  }

  /** Reordering does not change whether a key can be sorted by. */
  lemma SortableSame(o: OrderItem, s: seq<Item>, t: seq<Item>)
    requires multiset(s) == multiset(t)
    ensures Sortable(o, Rows(s)) <==> Sortable(o, Rows(t))
  {
    assert |multiset(s)| == |s| && |multiset(t)| == |t|;
    SameRows(s, t);
    SameRows(t, s);
  }

  lemma SameRows(s: seq<Item>, t: seq<Item>)
    requires multiset(s) == multiset(t)
    ensures forall r :: r in Rows(s) ==> r in Rows(t)
  {
    forall r | r in Rows(s) ensures r in Rows(t) {
      var i :| 0 <= i < |s| && Rows(s)[i] == r;
      assert s[i] in multiset(t);
      var j :| 0 <= j < |t| && t[j] == s[i];
      assert Rows(t)[j] == r;
    }
  }

  lemma SortSizes(s: seq<Item>, rows: seq<Row>)
    requires multiset(s) == multiset(Tagged(rows))
    ensures |s| == |rows| && forall i :: 0 <= i < |s| ==> s[i].row in rows
  {
    assert |multiset(s)| == |s| && |multiset(Tagged(rows))| == |Tagged(rows)|;
    SameRows(s, Tagged(rows));
    forall i | 0 <= i < |s| ensures s[i].row in rows {
      assert Rows(s)[i] == s[i].row;
      assert s[i].row in Rows(Tagged(rows));
    }
  }

  /** `SortOperator.open` on the rows it has collected; None when a pass raises. */
  method SortRows(rows: seq<Row>, order: seq<OrderItem>) returns (out: Option<seq<Item>>)
    ensures out.None? <==> exists o :: o in order && !Sortable(o, rows)
    ensures out.Some? ==> out.value == SortBy(order, Tagged(rows))
  {
    var items := Tagged(rows);
    assert Rows(Tagged(rows)) == rows;
    assert order[|order|..] == [];
    for k := |order| downto 0
      invariant items == SortBy(order[k..], Tagged(rows)) && SortableFrom(order, rows, k)
    {
      SortableSame(order[k], items, Tagged(rows));
      var sortable := Sortable(order[k], Rows(items));
      PassSorts(order, rows, k, sortable);
      if !sortable { return None; }
      items := StableSort(order[k], items);
    }
    assert order[0..] == order;
    AllSortable(order, rows);
    return Some(items);
  }

  /** The keys from number `k` on can be sorted by. */
  ghost predicate SortableFrom(order: seq<OrderItem>, rows: seq<Row>, k: nat) {
    forall i :: k <= i < |order| ==> Sortable(order[i], rows)
  }

  lemma PassSorts(order: seq<OrderItem>, rows: seq<Row>, k: nat, sortable: bool)
    requires k < |order| && SortableFrom(order, rows, k + 1) && sortable == Sortable(order[k], rows)
    ensures sortable ==> SortableFrom(order, rows, k)
    ensures !sortable ==> exists o :: o in order && !Sortable(o, rows)
    ensures SortBy(order[k..], Tagged(rows)) == StableSort(order[k], SortBy(order[k + 1..], Tagged(rows)))
  {
    assert order[k] in order;
    assert order[k..][0] == order[k] && order[k..][1..] == order[k + 1..];
  }

  lemma AllSortable(order: seq<OrderItem>, rows: seq<Row>)
    requires SortableFrom(order, rows, 0)
    ensures forall o :: o in order ==> Sortable(o, rows)
  {
    forall o | o in order ensures Sortable(o, rows) {
      var i :| 0 <= i < |order| && order[i] == o;
    }
  }
}
