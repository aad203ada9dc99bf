/** Volcano operators: cursors that are pulled row by row, against the list a plan means. */
module Executor {
  import opened Sequences
  import opened Expr
  import opened Sorting
  import opened Aggregation
  import opened BTreeEntries
  import opened Pushdown

  /* ---------- answers ---------- */

  /** What pulling to exhaustion delivers: rows, then the end or an exception. */
  datatype Answer = Answer(rows: seq<Row>, raises: bool)

  const Nothing := Answer([], false)
  const Failure := Answer([], true)

  function Then(a: Answer, b: Answer): (r: Answer) {
    if a.raises then a else Answer(a.rows + b.rows, b.raises)
  }

  function Tail(a: Answer): (r: Answer)
    requires a.rows != []
  {
    Answer(a.rows[1..], a.raises)
  }

  function Cons(row: Row, a: Answer): (r: Answer) { Answer([row] + a.rows, a.raises) }

  /** Filtering: the rows the predicate accepts, up to the first it raises on. */
  function Kept(a: Answer, test: Expr): (r: Answer)
    decreases |a.rows|
  {
    if a.rows == [] then a
    else
      match Judge(test, a.rows[0])
      case Yes => Cons(a.rows[0], Kept(Tail(a), test))
      case No => Kept(Tail(a), test)
      case Error => Failure
  }

  /** `{**left, **right}`. */
  function Merge(l: Row, r: Row): (row: Row) {
    if r == [] then l else Put(Merge(l, r[..|r| - 1]), r[|r| - 1].0, r[|r| - 1].1)
  }

  function MergeAll(l: Row, rs: seq<Row>): (rows: seq<Row>)
    ensures |rows| == |rs|
  {
    seq(|rs|, i requires 0 <= i < |rs| => Merge(l, rs[i]))
  }

  /** The matches of one left row. */
  function Matches(l: Row, right: Answer, on: Expr): (r: Answer) {
    Kept(Answer(MergeAll(l, right.rows), right.raises), on)
  }

  /** A nested-loop join: the matches of every left row in turn. */
  function Joined(left: Answer, right: Answer, on: Expr): (r: Answer)
    decreases |left.rows|
  {
    if left.rows == [] then left
    else Then(Matches(left.rows[0], right, on), Joined(Tail(left), right, on))
  }

  function Cut(a: Answer, n: nat): (r: Answer) {
    if n <= |a.rows| then Answer(a.rows[..n], false) else a
  }

  predicate HasDot(s: string) { '.' in s }

  /** `SELECT *` shows the bare columns. */
  function BareColumns(row: Row): (r: Row) {
    if row == [] then []
    else if (|row[0].0| >= 2 && row[0].0[..2] == "__") || HasDot(row[0].0) then BareColumns(row[1..])
    else [row[0]] + BareColumns(row[1..])
  }

  function Select(items: seq<SelectItem>, row: Row): (r: Option<Row>) {
    if items == [] then Some([])
    else
      var n := |items| - 1;
      match Select(items[..n], row)
      case None => None
      case Some(out) =>
        match Eval(items[n].expr, row)
        case Raise => None
        case Val(v) => Some(Put(out, OutName(items[n]), v))
  }

  function ProjectRow(items: seq<SelectItem>, row: Row): (r: Option<Row>) {
    if |items| == 1 && items[0].expr.Star? then Some(BareColumns(row)) else Select(items, row)
  }

  function Projected(a: Answer, items: seq<SelectItem>): (r: Answer)
    decreases |a.rows|
  {
    if a.rows == [] then a
    else
      match ProjectRow(items, a.rows[0])
      case None => Failure
      case Some(row) => Cons(row, Projected(Tail(a), items))
  }

  /** Sorting needs every row, so an exception below or in a key leaves nothing. */
  ghost function Sorted(a: Answer, order: seq<OrderItem>): (r: Answer) {
    if a.raises || (exists o :: o in order && !Sortable(o, a.rows)) then Failure
    else Answer(Rows(SortBy(order, Tagged(a.rows))), false)
  }

  ghost function Grouping(a: Answer, cols: seq<string>, items: seq<SelectItem>): (r: Answer) {
    if a.raises then Failure
    else match Grouped(cols, items, a.rows) case None => Failure case Some(rows) => Answer(rows, false)
  }

  /* ---------- plans ---------- */

  /** A stored tuple as a base scan meets it: reclaimed, or a version with its row. */
  datatype Stored = Gone | Version(visible: bool, row: Row)

  function Seen(cells: seq<Stored>): (rows: seq<Row>) {
    if cells == [] then []
    else if cells[0].Version? && cells[0].visible then [cells[0].row] + Seen(cells[1..])
    else Seen(cells[1..])
  }

  datatype Plan =
    | ScanPlan(cells: seq<Stored>)
    | FilterPlan(child: Plan, test: Expr)
    | JoinPlan(left: Plan, right: Plan, on: Expr)
    | ProjectPlan(child: Plan, items: seq<SelectItem>)
    | SortPlan(child: Plan, order: seq<OrderItem>)
    | LimitPlan(child: Plan, limit: nat)
    | AggregatePlan(child: Plan, groupBy: seq<string>, items: seq<SelectItem>)

  /** The list a plan stands for. */
  ghost function Meaning(p: Plan): (a: Answer) {
    match p
    case ScanPlan(cells) => Answer(Seen(cells), false)
    case FilterPlan(child, test) => Kept(Meaning(child), test)
    case JoinPlan(left, right, on) => Joined(Meaning(left), Meaning(right), on)
    case ProjectPlan(child, items) => Projected(Meaning(child), items)
    case SortPlan(child, order) => Sorted(Meaning(child), order)
    case LimitPlan(child, limit) => if OpenFails(child) then Failure else Cut(Meaning(child), limit)
    case AggregatePlan(child, cols, items) => Grouping(Meaning(child), cols, items)
  }

  /** The exception comes from `open` already, so that even LIMIT 0 meets it. */
  ghost predicate OpenFails(p: Plan) {
    match p
    case ScanPlan(_) => false
    case FilterPlan(child, _) => OpenFails(child)
    case JoinPlan(left, right, _) => Meaning(left) == Failure || (Meaning(left).rows != [] && OpenFails(right))
    case ProjectPlan(child, _) => OpenFails(child)
    case SortPlan(child, order) => Sorted(Meaning(child), order) == Failure
    case LimitPlan(child, _) => OpenFails(child)
    case AggregatePlan(child, cols, items) => Grouping(Meaning(child), cols, items) == Failure
  }

  function Weight(p: Plan): (n: nat)
    ensures n > 0
  {
    match p
    case ScanPlan(_) => 1
    case FilterPlan(child, _) => 1 + Weight(child)
    case JoinPlan(left, right, _) => 1 + Weight(left) + Weight(right)
    case ProjectPlan(child, _) => 1 + Weight(child)
    case SortPlan(child, _) => 1 + Weight(child)
    case LimitPlan(child, _) => 1 + Weight(child)
    case AggregatePlan(child, _, _) => 1 + Weight(child)
  }

  /* ---------- opened operators ---------- */

  /** An opened operator with its cursor fields. */
  datatype Cursor =
    | ScanCursor(cells: seq<Stored>)
    | FilterCursor(child: Cursor, test: Expr)
    | JoinCursor(left: Cursor, leftRow: Option<Row>, right: Cursor, factory: Plan, on: Expr)
    | ProjectCursor(child: Cursor, items: seq<SelectItem>)
    | LimitCursor(child: Cursor, limit: nat, count: nat)
    | RowsCursor(rows: seq<Row>, pos: nat)

  function Load(c: Cursor): (n: nat)
    ensures n > 0
  {
    match c
    case ScanCursor(_) => 1
    case FilterCursor(child, _) => 1 + Load(child)
    case JoinCursor(left, _, _, factory, _) => 1 + Load(left) + Weight(factory)
    case ProjectCursor(child, _) => 1 + Load(child)
    case LimitCursor(child, _, _) => 1 + Load(child)
    case RowsCursor(_, _) => 1
  }

  ghost predicate Sane(c: Cursor) {
    match c
    case FilterCursor(child, _) => Sane(child)
    case JoinCursor(left, _, right, factory, _) => Sane(left) && Sane(right) && Load(right) <= Weight(factory)
    case ProjectCursor(child, _) => Sane(child)
    case LimitCursor(child, limit, count) => Sane(child) && count <= limit
    case RowsCursor(rows, pos) => pos <= |rows|
    case ScanCursor(_) => true
  }

  /** What is still to come. */
  ghost function Rest(c: Cursor): (a: Answer)
    requires Sane(c)
  {
    match c
    case ScanCursor(cells) => Answer(Seen(cells), false)
    case FilterCursor(child, test) => Kept(Rest(child), test)
    case JoinCursor(left, leftRow, right, factory, on) =>
      if leftRow.None? then Nothing
      else Then(Matches(leftRow.value, Rest(right), on), Joined(Rest(left), Meaning(factory), on))
    case ProjectCursor(child, items) => Projected(Rest(child), items)
    case LimitCursor(child, limit, count) => Cut(Rest(child), limit - count)
    case RowsCursor(rows, pos) => Answer(rows[pos..], false)
  }

  datatype Pulled = Got(row: Row) | Done | Raised

  /** One `next()`: the first row of what was to come, or the end, or the exception. */
  ghost predicate Pulls(before: Answer, r: Pulled, after: Answer) {
    match r
    case Got(row) => before.rows != [] && before.rows[0] == row && after == Tail(before)
    case Done => before == Nothing && after == Nothing
    case Raised => before == Failure
  }

  /** What `next` promises about the operator it leaves. */
  ghost predicate Moves(c: Cursor, r: Pulled, d: Cursor)
    requires Sane(c)
  {
    Sane(d) && Load(d) <= Load(c) && Pulls(Rest(c), r, Rest(d))
  }

  /* ---------- steps of the answers ---------- */

  lemma KeptStep(a: Answer, test: Expr)
    ensures a.rows == [] ==> Kept(a, test) == a
    ensures a.rows != [] && Judge(test, a.rows[0]) == Yes ==> Kept(a, test) == Cons(a.rows[0], Kept(Tail(a), test))
    ensures a.rows != [] && Judge(test, a.rows[0]) == No ==> Kept(a, test) == Kept(Tail(a), test)
    ensures a.rows != [] && Judge(test, a.rows[0]) == Error ==> Kept(a, test) == Failure
  {
  }

  lemma MatchesStep(l: Row, a: Answer, on: Expr)
    ensures a.rows == [] ==> Matches(l, a, on) == a
    ensures a.rows != [] ==>
      match Judge(on, Merge(l, a.rows[0]))
      case Yes => Matches(l, a, on) == Cons(Merge(l, a.rows[0]), Matches(l, Tail(a), on))
      case No => Matches(l, a, on) == Matches(l, Tail(a), on)
      case Error => Matches(l, a, on) == Failure
  {
    if a.rows != [] {
      assert MergeAll(l, a.rows)[1..] == MergeAll(l, a.rows[1..]);
    }
  }

  lemma ThenCons(row: Row, a: Answer, b: Answer)
    ensures Then(Cons(row, a), b) == Cons(row, Then(a, b))
    ensures Tail(Cons(row, a)) == a
    ensures Then(Nothing, b) == b && Then(Failure, b) == Failure
  {
    assert [row] + a.rows + b.rows == [row] + (a.rows + b.rows);
    assert [] + b.rows == b.rows;
  }

  lemma CutStep(a: Answer, n: nat)
    ensures n > 0 && a.rows != [] ==>
      Cut(a, n).rows != [] && Cut(a, n).rows[0] == a.rows[0] && Tail(Cut(a, n)) == Cut(Tail(a), n - 1)
    ensures n > 0 && a.rows == [] ==> Cut(a, n) == a
    ensures n == 0 ==> Cut(a, n) == Nothing
  {
    if n > 0 && n <= |a.rows| { assert a.rows[..n][1..] == a.rows[1..][..n - 1]; }
  }

  lemma JoinedStep(l: Answer, r: Answer, on: Expr)
    ensures l.rows == [] ==> Joined(l, r, on) == l
    ensures l.rows != [] ==> Joined(l, r, on) == Then(Matches(l.rows[0], r, on), Joined(Tail(l), r, on))
  {
  }

  /** An exception from `open` leaves no row. */
  lemma {:induction false} OpenFailsIsFailure(p: Plan)
    requires OpenFails(p)
    ensures Meaning(p) == Failure
  {
    match p
    case FilterPlan(child, _) => OpenFailsIsFailure(child);
    case JoinPlan(left, right, on) =>
      JoinedStep(Meaning(left), Meaning(right), on);
      if Meaning(left) != Failure {
        OpenFailsIsFailure(right);
        MatchesStep(Meaning(left).rows[0], Failure, on);
      }
    case ProjectPlan(child, _) => OpenFailsIsFailure(child);
    case _ =>
  }

  /* ---------- the operators ---------- */

  /** `open`: None when it raises. */
  method Open(p: Plan) returns (c: Option<Cursor>)
    ensures c.None? <==> OpenFails(p)
    ensures c.Some? ==> Sane(c.value) && Load(c.value) <= Weight(p) && Rest(c.value) == Meaning(p)
    decreases Weight(p), 2
  {
    match p
    case ScanPlan(cells) => return Some(ScanCursor(cells));
    case FilterPlan(child, test) =>
      var d := Open(child);
      return if d.None? then None else Some(FilterCursor(d.value, test));
    case ProjectPlan(child, items) =>
      var d := Open(child);
      return if d.None? then None else Some(ProjectCursor(d.value, items));
    case LimitPlan(child, limit) =>
      var d := Open(child);
      return if d.None? then None else Some(LimitCursor(d.value, limit, 0));
    case JoinPlan(left, right, on) =>
      c := OpenJoin(left, right, on);
    case SortPlan(child, order) =>
      var a := Drain(child);
      if a.raises { return None; }
      var sorted := SortRows(a.rows, order);
      if sorted.None? { return None; }
      return Some(RowsCursor(Rows(sorted.value), 0));
    case AggregatePlan(child, cols, items) =>
      var a := Drain(child);
      if a.raises { return None; }
      var rows := Aggregate(cols, items, a.rows);
      if rows.None? { return None; }
      return Some(RowsCursor(rows.value, 0));
  }

  /** Opening a join pulls its first left row. */
  method OpenJoin(left: Plan, right: Plan, on: Expr) returns (c: Option<Cursor>)
    ensures c.None? <==> OpenFails(JoinPlan(left, right, on))
    ensures c.Some? ==> Sane(c.value) && Load(c.value) <= Weight(JoinPlan(left, right, on))
    ensures c.Some? ==> Rest(c.value) == Meaning(JoinPlan(left, right, on))
    decreases Weight(left) + Weight(right), 3
  {
    var l := Open(left);
    if l.None? {
      OpenFailsIsFailure(left);
      return None;
    }
    var first, rest := Next(l.value);
    JoinedStep(Meaning(left), Meaning(right), on);
    match first
    case Raised => return None;
    case Done => return Some(JoinCursor(rest, None, RowsCursor([], 0), right, on));
    case Got(row) =>
      var r := Open(right);
      if r.None? { return None; }
      return Some(JoinCursor(rest, Some(row), r.value, right, on));
  }

  /** Iterating an operator tree: open it and pull until the end or an exception. */
  method Drain(p: Plan) returns (a: Answer)
    ensures a == Meaning(p)
    decreases Weight(p), 3
  {
    var c := Open(p);
    if c.None? {
      OpenFailsIsFailure(p);
      return Failure;
    }
    var out, d := [], c.value;
    while true
      invariant Sane(d) && Load(d) <= Weight(p)
      invariant Meaning(p) == Answer(out + Rest(d).rows, Rest(d).raises)
      decreases |Rest(d).rows|
    {
      var r, e := Next(d);
      match r
      case Done => return Answer(out, false);
      case Raised => return Answer(out, true);
      case Got(row) =>
        HeadMoves(out, Rest(d).rows);
        out := out + [row];
        d := e;
    }
  }

  lemma HeadMoves(a: seq<Row>, b: seq<Row>)
    requires b != []
    ensures a + b == (a + [b[0]]) + b[1..]
  {
  }

  /** `next`. */
  method Next(c: Cursor) returns (r: Pulled, d: Cursor)
    requires Sane(c)
    ensures Moves(c, r, d)
    decreases Load(c), 2
  {
    match c
    case ScanCursor(_) => r, d := NextVisible(c);
    case FilterCursor(_, _) => r, d := NextKept(c);
    case JoinCursor(_, _, _, _, _) => r, d := NextMatch(c);
    case ProjectCursor(child, items) =>
      var a, e := Next(child);
      d := ProjectCursor(e, items);
      if a.Got? {
        var out := ProjectRow(items, a.row);
        r := if out.Some? then Got(out.value) else Raised;
      } else {
        r := a;
      }
    case LimitCursor(child, limit, count) =>
      CutStep(Rest(child), limit - count);
      if count >= limit { return Done, c; }
      var a, e := Next(child);
      r := a;
      d := LimitCursor(e, limit, if a.Got? then count + 1 else count);
      CutStep(Rest(e), limit - count);
    case RowsCursor(rows, pos) =>
      if pos >= |rows| { return Done, c; }
      return Got(rows[pos]), RowsCursor(rows, pos + 1);
  }

  /** The scans: skip what is reclaimed or not visible. */
  method NextVisible(c: Cursor) returns (r: Pulled, d: Cursor)
    requires c.ScanCursor?
    ensures Moves(c, r, d)
  {
    var cells := c.cells;
    while cells != []
      invariant Seen(cells) == Seen(c.cells)
      decreases |cells|
    {
      var cell := cells[0];
      cells := cells[1..];
      if cell.Version? && cell.visible { return Got(cell.row), ScanCursor(cells); }
    }
    return Done, ScanCursor([]);
  }

  method NextKept(c: Cursor) returns (r: Pulled, d: Cursor)
    requires Sane(c) && c.FilterCursor?
    ensures Moves(c, r, d)
    decreases Load(c), 1
  {
    var child := c.child;
    while true
      invariant Sane(child) && Load(child) <= Load(c.child) && Kept(Rest(child), c.test) == Rest(c)
      decreases |Rest(child).rows|
    {
      var a, e := Next(child);
      KeptStep(Rest(child), c.test);
      d := FilterCursor(e, c.test);
      if !a.Got? { return a, d; }
      match Judge(c.test, a.row)
      case Yes => return a, d;
      case Error => return Raised, d;
      case No => child := e;
    }
  }

  method NextMatch(c: Cursor) returns (r: Pulled, d: Cursor)
    requires Sane(c) && c.JoinCursor?
    ensures Moves(c, r, d)
    decreases Load(c), 1
  {
    d := c;
    while d.leftRow.Some?
      invariant d.JoinCursor? && d.factory == c.factory && d.on == c.on && Sane(d) && Load(d) <= Load(c)
      invariant Rest(d) == Rest(c)
      decreases if d.leftRow.Some? then 1 + |Rest(d.left).rows| else 0, |Rest(d.right).rows|
    {
      var l := d.leftRow.value;
      var a, right := Next(d.right);
      MatchesStep(l, Rest(d.right), d.on);
      ghost var later := Joined(Rest(d.left), Meaning(d.factory), d.on);
      if a.Raised? { return Raised, d; }
      if a.Got? {
        var merged := Merge(l, a.row);
        ThenCons(merged, Matches(l, Rest(right), d.on), later);
        d := d.(right := right);
        match Judge(d.on, merged)
        case Yes => return Got(merged), d;
        case Error => return Raised, d;
        case No =>
      } else {
        ThenCons(l, Nothing, later);
        r, d := NextLeft(d);
        if r.Raised? { return; }
      }
    }
    return Done, d;
  }

  /** The right side is used up: the next left row, with the right side opened again. */
  method NextLeft(c: Cursor) returns (r: Pulled, d: Cursor)
    requires Sane(c) && c.JoinCursor?
    ensures r.Raised? ==> Joined(Rest(c.left), Meaning(c.factory), c.on) == Failure
    ensures d.JoinCursor? && d.factory == c.factory && d.on == c.on && Sane(d) && Load(d) <= Load(c)
    ensures !r.Raised? ==> Rest(d) == Joined(Rest(c.left), Meaning(c.factory), c.on)
    ensures d.leftRow.Some? && !r.Raised? ==> |Rest(d.left).rows| < |Rest(c.left).rows|
    decreases Load(c), 0
  {
    d := c;
    var a, left := Next(c.left);
    r := a;
    JoinedStep(Rest(c.left), Meaning(c.factory), c.on);
    match a
    case Raised => return;
    case Done => d := c.(left := left, leftRow := None);
    case Got(row) =>
      var right := Open(c.factory);
      if right.None? {
        OpenFailsIsFailure(c.factory);
        MatchesStep(row, Failure, c.on);
        return Raised, c;
      }
      d := c.(left := left, leftRow := Some(row), right := right.value);
  }

  /* ---------- what the answers are ---------- */

  /** Filtering one list after another is filtering both. */
  lemma {:induction false} KeptThen(a: Answer, b: Answer, test: Expr)
    requires !a.raises
    ensures Kept(Then(a, b), test) == Then(Kept(a, test), Kept(b, test))
    decreases |a.rows|
  {
    KeptStep(a, test);
    if a.rows == [] {
      ThenCons([], Nothing, b);
      ThenCons([], Nothing, Kept(b, test));
    } else {
      var t := Tail(a);
      assert a == Cons(a.rows[0], t);
      ThenCons(a.rows[0], t, b);
      KeptStep(Then(a, b), test);
      KeptThen(t, b, test);
      ThenCons(a.rows[0], Kept(t, test), Kept(b, test));
    }
  }

  /** A filter that never raises keeps exactly the accepted rows, and raises exactly
      when some row before the end does. */
  lemma {:induction false} KeptContents(a: Answer, test: Expr)
    ensures Kept(a, test).raises <==> a.raises || exists r :: r in a.rows && Judge(test, r) == Error
    ensures !Kept(a, test).raises ==>
      forall r :: multiset(Kept(a, test).rows)[r] == if Judge(test, r) == Yes then multiset(a.rows)[r] else 0
    decreases |a.rows|
  {
    KeptStep(a, test);
    if a.rows != [] {
      KeptContents(Tail(a), test);
      assert a.rows == [a.rows[0]] + a.rows[1..];
    }
  }

  /** The cross product, left-major. */
  function Product(ls: seq<Row>, rs: seq<Row>): (rows: seq<Row>)
    ensures |rows| == |ls| * |rs|
  {
    if ls == [] then [] else
      assert |ls| * |rs| == |rs| + |ls[1..]| * |rs|;
      MergeAll(ls[0], rs) + Product(ls[1..], rs)
  }

  lemma {:induction false} ProductAt(ls: seq<Row>, rs: seq<Row>, i: nat, j: nat)
    requires i < |ls| && j < |rs|
    ensures i * |rs| + j < |Product(ls, rs)| && Product(ls, rs)[i * |rs| + j] == Merge(ls[i], rs[j])
    decreases i
  {
    if i > 0 {
      ProductAt(ls[1..], rs, i - 1, j);
      assert i * |rs| == |rs| + (i - 1) * |rs|;
    }
  }

  /** A nested-loop join is its ON filter over the cross product of its inputs. */
  lemma {:induction false} JoinIsFilteredProduct(l: Answer, rs: seq<Row>, on: Expr)
    ensures Joined(l, Answer(rs, false), on) == Kept(Answer(Product(l.rows, rs), l.raises), on)
    decreases |l.rows|
  {
    var r := Answer(rs, false);
    JoinedStep(l, r, on);
    if l.rows != [] {
      JoinIsFilteredProduct(Tail(l), rs, on);
      KeptThen(Answer(MergeAll(l.rows[0], rs), false), Answer(Product(l.rows[1..], rs), l.raises), on);
    }
  }

  /** In a merged row the right side's columns win. */
  lemma {:induction false} MergeGet(l: Row, r: Row, key: string)
    requires forall i, j :: 0 <= i < j < |r| ==> r[i].0 != r[j].0
    ensures Get(Merge(l, r), key) == if Get(r, key).Some? then Get(r, key) else Get(l, key)
    decreases |r|
  {
    if r != [] {
      var n := |r| - 1;
      MergeGet(l, r[..n], key);
      GetSnoc(r[..n], r[n], key);
      assert r == r[..n] + [r[n]];
    }
  }

  lemma {:induction false} GetSnoc(row: Row, cell: (string, Value), key: string)
    ensures Get(row + [cell], key) ==
      if Get(row, key).Some? then Get(row, key) else if cell.0 == key then Some(cell.1) else None
    decreases |row|
  {
    if row == [] {
      assert row + [cell] == [cell];
    } else {
      assert (row + [cell])[1..] == row[1..] + [cell];
      GetSnoc(row[1..], cell, key);
    }
  }

  /** Sorting delivers a permutation of its input in ORDER BY order by Python's own
      comparison, ties in input order. */
  lemma SortedContents(a: Answer, order: seq<OrderItem>) returns (items: seq<Item>)
    requires !Sorted(a, order).raises
    ensures Rows(items) == Sorted(a, order).rows && multiset(items) == multiset(Tagged(a.rows))
    ensures forall i, j :: 0 <= i < j < |items| ==> Precedes(order, items[i], items[j])
  {
    SortOrders(order, a.rows);
    items := SortBy(order, Tagged(a.rows));
    var s := items;
    SortSizes(s, a.rows);
    forall i, j | 0 <= i < j < |s| ensures Precedes(order, s[i], s[j]) {
      LexIsPrecedes(order, a.rows, s[i], s[j]);
    }
  }

  /* ---------- the planner's scans are these operators ---------- */

  function Cells(t: Table, rids: seq<RID>): (cells: seq<Stored>)
    requires WellTyped(t) && forall r :: r in rids ==> r in t.tuples
    ensures |cells| == |rids|
  {
    seq(|rids|, i requires 0 <= i < |rids| => Version(rids[i] in t.visible, RowOf(t, rids[i])))
  }

  ghost function RowsOf(t: Table, rids: seq<RID>): (rows: seq<Row>)
    requires WellTyped(t) && forall r :: r in rids ==> r in t.tuples
  {
    seq(|rids|, i requires 0 <= i < |rids| => RowOf(t, rids[i]))
  }

  /** A base scan and, if there is a condition, the filter on it. */
  function FilteredScan(cells: seq<Stored>, where: Option<Expr>): (p: Plan) {
    if where.None? then ScanPlan(cells) else FilterPlan(ScanPlan(cells), where.value)
  }

  /** A filtered scan, drained, is the pulled scan the pushdown theorem speaks of. */
  lemma {:induction false} FilteredScanIsPull(t: Table, rids: seq<RID>, where: Option<Expr>)
    requires WellTyped(t) && forall r :: r in rids ==> r in t.tuples
    ensures var a := Meaning(FilteredScan(Cells(t, rids), where));
            var out := Pull(t, rids, where);
            && (a.raises <==> out.None?)
            && (out.Some? ==> (forall r :: r in out.value ==> r in t.tuples) && a.rows == RowsOf(t, out.value))
    decreases |rids|
  {
    if rids != [] {
      var cells := Cells(t, rids);
      assert cells[1..] == Cells(t, rids[1..]);
      FilteredScanIsPull(t, rids[1..], where);
      if where.Some? { KeptStep(Answer(Seen(cells), false), where.value); }
      if rids[0] in t.visible { assert Seen(cells)[1..] == Seen(cells[1..]); }
    }
  }
}
