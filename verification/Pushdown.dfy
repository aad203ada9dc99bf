/** The index scan with its residual filter against the sequential scan with the
    whole WHERE. */
module Pushdown {
  import opened Sequences
  import opened BTreeEntries
  import opened Expr
  import opened Planner

  /** A table as one statement sees it: every stored tuple, and which RIDs the
      statement's snapshot shows. */
  datatype Table = Table(alias: string, columns: seq<string>, tuples: map<RID, seq<Value>>, visible: set<RID>)

  ghost predicate PlainName(s: string) {
    '.' !in s
  }

  ghost predicate WellTyped(t: Table) {
    && (forall i, j :: 0 <= i < j < |t.columns| ==> t.columns[i] != t.columns[j])
    && (forall i :: 0 <= i < |t.columns| ==> PlainName(t.columns[i]))
    && (forall r :: r in t.tuples ==> |t.tuples[r]| == |t.columns|)
    && (forall r :: r in t.tuples ==> Null !in t.tuples[r])
  }

  function Bare(columns: seq<string>, values: seq<Value>): (row: Row)
    requires |columns| == |values|
  {
    seq(|columns|, i requires 0 <= i < |columns| => (columns[i], values[i]))
  }

  function Qualified(alias: string, columns: seq<string>, values: seq<Value>): (row: Row)
    requires |columns| == |values|
  {
    seq(|columns|, i requires 0 <= i < |columns| => (alias + "." + columns[i], values[i]))
  }

  /** `_row_from_tuple`: qualified keys, then bare ones. */
  function RowFrom(alias: string, columns: seq<string>, values: seq<Value>): (row: Row)
    requires |columns| == |values|
  {
    Qualified(alias, columns, values) + Bare(columns, values)
  }

  function RowOf(t: Table, r: RID): (row: Row)
    requires WellTyped(t) && r in t.tuples
  {
    RowFrom(t.alias, t.columns, t.tuples[r])
  }

  lemma {:induction false} GetAt(row: Row, key: string, i: nat)
    requires i < |row| && row[i].0 == key && forall j :: 0 <= j < i ==> row[j].0 != key
    ensures Get(row, key) == Some(row[i].1)
    decreases i
  {
    if i > 0 {
      GetAt(row[1..], key, i - 1);
    }
  }

  lemma DottedName(alias: string, a: string, b: string)
    ensures alias + "." + a == alias + "." + b ==> a == b
    ensures PlainName(b) ==> alias + "." + a != b
  {
    var x, y := alias + "." + a, alias + "." + b;
    assert x[|alias| + 1..] == a && y[|alias| + 1..] == b;
    assert x[|alias|] == '.';
  }

  /** Both forms of a reference to a column of the table find its value. */
  lemma ResolveOwnColumn(t: Table, r: RID, j: nat, table: Option<string>)
    requires WellTyped(t) && r in t.tuples && j < |t.columns| && (table.None? || table.value == t.alias)
    ensures Resolve(RowOf(t, r), t.columns[j], table) == Val(t.tuples[r][j])
  {
    var row, n, name := RowOf(t, r), |t.columns|, t.columns[j];
    if table.Some? {
      forall i | 0 <= i < j ensures row[i].0 != t.alias + "." + name {
        DottedName(t.alias, t.columns[i], name);
      }
      GetAt(row, t.alias + "." + name, j);
    } else {
      forall i | 0 <= i < n + j ensures row[i].0 != name {
        if i < n { DottedName(t.alias, t.columns[i], name); }
      }
      GetAt(row, name, n + j);
    }
  }

  /* ---------- scans ---------- */

  /** A scan with its filter, pulled to exhaustion; None when the filter raises. */
  ghost function Pull(t: Table, rids: seq<RID>, where: Option<Expr>): (out: Option<seq<RID>>)
    requires WellTyped(t) && forall r :: r in rids ==> r in t.tuples
  {
    if rids == [] then Some([])
    else if rids[0] !in t.visible then Pull(t, rids[1..], where)
    else
      match JudgeWhere(where, RowOf(t, rids[0]))
      case Error => None
      case No => Pull(t, rids[1..], where)
      case Yes => (match Pull(t, rids[1..], where) case None => None case Some(rest) => Some([rids[0]] + rest))
  }

  ghost predicate Distinct(rids: seq<RID>) {
    forall i, j :: 0 <= i < j < |rids| ==> rids[i] != rids[j]
  }

  /** What a pulled scan holds, and when it raises. */
  lemma {:induction false} PullContents(t: Table, rids: seq<RID>, where: Option<Expr>)
    requires WellTyped(t) && forall r :: r in rids ==> r in t.tuples
    ensures var out := Pull(t, rids, where);
            && (out.None? <==> exists r :: r in rids && r in t.visible && JudgeWhere(where, RowOf(t, r)) == Error)
            && (out.Some? ==>
                  forall r :: r in out.value <==> r in rids && r in t.visible && JudgeWhere(where, RowOf(t, r)) == Yes)
            && (out.Some? && Distinct(rids) ==> Distinct(out.value))
    decreases |rids|
  {
    if rids != [] {
      PullContents(t, rids[1..], where);
      assert rids == [rids[0]] + rids[1..];
      assert Distinct(rids) ==> rids[0] !in rids[1..];
    }
  }

  /** A key as the index stores it: TEXT is cut to eight bytes and loses trailing
      NULs when it is read back. */
  function IndexKey(v: Value): (k: Value) {
    match v
    case Text(s) => Text(Strip(if |s| > 8 then s[..8] else s))
    case _ => v
  }

  function Strip(s: string): (r: string) {
    if s != "" && s[|s| - 1] == '\0' then Strip(s[..|s| - 1]) else s
  }

  /** The key of a text is what is left of its first eight characters without trailing NULs. */
  lemma IndexKeyMeans(v: Value) returns (n: nat)
    ensures !v.Text? ==> IndexKey(v) == v
    ensures v.Text? ==>
      && n <= |v.s| && n <= 8 && IndexKey(v) == Text(v.s[..n]) && (n > 0 ==> v.s[n - 1] != '\0')
      && forall i :: n <= i < |v.s| && i < 8 ==> v.s[i] == '\0'
  {
    n := 0;
    if v.Text? {
      var cut := if |v.s| > 8 then v.s[..8] else v.s;
      StripMeans(cut);
      n := |Strip(cut)|;
    }
  }

  lemma {:induction false} StripMeans(s: string)
    ensures |Strip(s)| <= |s| && Strip(s) == s[..|Strip(s)|]
    ensures Strip(s) != "" ==> s[|Strip(s)| - 1] != '\0'
    ensures forall i :: |Strip(s)| <= i < |s| ==> s[i] == '\0'
    decreases |s|
  {
    if s != "" && s[|s| - 1] == '\0' { StripMeans(s[..|s| - 1]); }
  }

  type Entries = seq<(Value, RID)>

  /** The index on column `j` has at most one entry per stored tuple, under that
      tuple's key. */
  ghost predicate Faithful(t: Table, j: nat, entries: Entries)
    requires WellTyped(t) && j < |t.columns|
  {
    && (forall i :: 0 <= i < |entries| ==>
          entries[i].1 in t.tuples && entries[i].0 == IndexKey(t.tuples[entries[i].1][j]))
    && (forall i, k :: 0 <= i < k < |entries| ==> entries[i].1 != entries[k].1)
  }

  ghost predicate InIndex(entries: Entries, r: RID) {
    exists i :: 0 <= i < |entries| && entries[i].1 == r
  }

  /** And one for every visible tuple. */
  ghost predicate Covering(t: Table, j: nat, entries: Entries)
    requires WellTyped(t) && j < |t.columns|
  {
    Faithful(t, j, entries) && forall r :: r in t.tuples && r in t.visible ==> InIndex(entries, r)
  }

  /** Entries an inclusive scan from the literal to itself meets; a NULL bound is
      no bound. */
  predicate Meets(key: Value, literal: Value) {
    literal == Null || SameValue(key, literal)
  }

  function Met(entries: Entries, literal: Value): (rids: seq<RID>)
    ensures forall r :: r in rids <==>
      (exists i :: 0 <= i < |entries| && entries[i].1 == r && Meets(entries[i].0, literal))
  {
    if entries == [] then []
    else
      var rest := Met(entries[1..], literal);
      if Meets(entries[0].0, literal) then
        assert entries == [entries[0]] + entries[1..];
        [entries[0].1] + rest
      else
        assert entries == [entries[0]] + entries[1..];
        rest
  }

  /** Bisecting compares the literal with stored keys, and comparing values of
      different kinds raises. */
  predicate ScanRaises(entries: Entries, literal: Value) {
    literal != Null && exists i :: 0 <= i < |entries| && !Comparable(entries[i].0, literal)
  }

  lemma {:induction false} MetDistinct(entries: Entries, literal: Value)
    requires forall i, k :: 0 <= i < k < |entries| ==> entries[i].1 != entries[k].1
    ensures Distinct(Met(entries, literal))
    decreases |entries|
  {
    if entries != [] {
      var rest := entries[1..];
      MetDistinct(rest, literal);
      forall i | 0 <= i < |rest| ensures rest[i].1 != entries[0].1 {
        assert rest[i] == entries[i + 1];
      }
      var m := Met(rest, literal);
      assert entries[0].1 !in m;
      forall i, k | 0 <= i < k < |Met(entries, literal)| ensures Met(entries, literal)[i] != Met(entries, literal)[k] {
        if Meets(entries[0].0, literal) { assert Met(entries, literal)[k] == m[k - 1]; }
      }
    }
  }

  /** The pushed conjunct says Yes exactly when the column equals the literal. */
  lemma PushedMeaning(t: Table, r: RID, c: Expr, indexed: map<string, string>, p: Pushed, j: nat)
    requires WellTyped(t) && r in t.tuples && j < |t.columns| && t.columns[j] == p.column
    requires MatchingEquality(c, t.alias, indexed) == Some(p)
    ensures Judge(c, RowOf(t, r)) == if p.literal != Null && SameValue(t.tuples[r][j], p.literal) then Yes else No
  {
    var row := RowOf(t, r);
    var v := t.tuples[r][j];
    assert v in t.tuples[r];
    assert "=" != "AND" && "=" != "OR";
    if ColumnLiteral(c.left, c.right, t.alias, indexed) == Some(p) {
      ResolveOwnColumn(t, r, j, c.left.table);
      assert Eval(c.left, row) == Val(v) && Eval(c.right, row) == Val(p.literal);
    } else {
      ResolveOwnColumn(t, r, j, c.right.table);
      assert Eval(c.right, row) == Val(v) && Eval(c.left, row) == Val(p.literal);
    }
  }

  /** The index tells column values that equal the literal from those that do not. */
  ghost predicate KeyTells(t: Table, j: nat, literal: Value, r: RID)
    requires WellTyped(t) && r in t.tuples && j < |t.columns|
  {
    Meets(IndexKey(t.tuples[r][j]), literal) <==> literal != Null && SameValue(t.tuples[r][j], literal)
  }

  /** The sequential plan. */
  ghost predicate HeapOrder(t: Table, order: seq<RID>) {
    Distinct(order) && forall r :: r in order <==> r in t.tuples
  }

  lemma WhereIsConjuncts(where: Option<Expr>, row: Row)
    ensures JudgeWhere(where, row) == JudgeAll(FlattenWhere(where), row)
  {
    if where.Some? { FlattenKeepsMeaning(where.value, row); }
  }

  /** One row: what the WHERE makes of it, by the residual and the literal. */
  lemma RowAgrees(t: Table, r: RID, cs: seq<Expr>, at: nat, indexed: map<string, string>, p: Pushed, j: nat)
    requires WellTyped(t) && r in t.tuples && j < |t.columns| && t.columns[j] == p.column
    requires at < |cs| && MatchingEquality(cs[at], t.alias, indexed) == Some(p) && JudgeAll(cs, RowOf(t, r)) != Error
    ensures var equal := p.literal != Null && SameValue(t.tuples[r][j], p.literal);
            && (JudgeAll(cs, RowOf(t, r)) == Yes <==> equal && JudgeAll(Without(cs, at), RowOf(t, r)) == Yes)
            && (equal ==> JudgeAll(Without(cs, at), RowOf(t, r)) != Error)
  {
    PushedMeaning(t, r, cs[at], indexed, p, j);
    DropConjunct(cs, at, RowOf(t, r));
  }

  /** The key tells for every visible row that the residual does not reject. */
  ghost predicate KeysTell(t: Table, j: nat, literal: Value, residual: Option<Expr>)
    requires WellTyped(t) && j < |t.columns|
  {
    forall r :: r in t.tuples && r in t.visible && JudgeWhere(residual, RowOf(t, r)) != No ==>
      KeyTells(t, j, literal, r)
  }

  /** The index scan meets the row exactly if its value is the literal. */
  ghost predicate MetRightly(t: Table, j: nat, entries: Entries, literal: Value, r: RID)
    requires WellTyped(t) && r in t.tuples && j < |t.columns|
  {
    InIndex(entries, r) && Meets(IndexKey(t.tuples[r][j]), literal)
    <==> literal != Null && SameValue(t.tuples[r][j], literal)
  }

  /** So it is for every visible row that the residual does not reject. */
  ghost predicate AllMetRightly(t: Table, j: nat, entries: Entries, literal: Value, residual: Option<Expr>)
    requires WellTyped(t) && j < |t.columns|
  {
    forall r :: r in t.tuples && r in t.visible && JudgeWhere(residual, RowOf(t, r)) != No ==>
      MetRightly(t, j, entries, literal, r)
  }

  /** For a covering index it is a matter of the keys alone. */
  lemma CoveringMeets(t: Table, j: nat, entries: Entries, literal: Value, residual: Option<Expr>)
    requires WellTyped(t) && j < |t.columns| && Covering(t, j, entries)
    ensures AllMetRightly(t, j, entries, literal, residual) <==> KeysTell(t, j, literal, residual)
  {
    forall r | r in t.tuples && r in t.visible
      ensures MetRightly(t, j, entries, literal, r) <==> KeyTells(t, j, literal, r)
    {
    }
  }

  /** The two plans agree: the index plan does not raise and returns the rows of the
      sequential plan, each once. */
  ghost predicate PlansAgree(t: Table, order: seq<RID>, where: Option<Expr>, entries: Entries, literal: Value,
                             residual: Option<Expr>)
    requires WellTyped(t) && (forall r :: r in order ==> r in t.tuples)
    requires forall r :: r in Met(entries, literal) ==> r in t.tuples
    requires Pull(t, order, where).Some?
  {
    && !ScanRaises(entries, literal) && Pull(t, Met(entries, literal), residual).Some?
    && SameRows(Pull(t, order, where).value, Pull(t, Met(entries, literal), residual).value)
  }

  /** Where the sequential plan does not raise, pushing the equality down preserves the
      result if and only if the literal compares with the index keys and the scan meets
      exactly the rows with its value, among the visible rows the residual does not reject. */
  lemma PushdownIff(t: Table, order: seq<RID>, where: Option<Expr>, residual: Option<Expr>, at: nat,
                    indexed: map<string, string>, p: Pushed, j: nat, entries: Entries)
    requires WellTyped(t) && HeapOrder(t, order) && j < |t.columns| && t.columns[j] == p.column
    requires Faithful(t, j, entries) && PushedAt(FlattenWhere(where), t.alias, indexed, p, residual, at)
    requires Pull(t, order, where).Some?
    ensures forall r :: r in Met(entries, p.literal) ==> r in t.tuples
    ensures PlansAgree(t, order, where, entries, p.literal, residual)
       <==> !ScanRaises(entries, p.literal) && AllMetRightly(t, j, entries, p.literal, residual)
  {
    var met := Met(entries, p.literal);
    MetDistinct(entries, p.literal);
    MetIsKeys(t, j, entries, p.literal);
    PullContents(t, order, where);
    PullContents(t, met, residual);
    forall r | r in t.tuples && r in t.visible
      ensures var equal := p.literal != Null && SameValue(t.tuples[r][j], p.literal);
              && (JudgeWhere(where, RowOf(t, r)) == Yes <==> equal && JudgeWhere(residual, RowOf(t, r)) == Yes)
              && (equal ==> JudgeWhere(residual, RowOf(t, r)) != Error)
              && (r in met <==> InIndex(entries, r) && Meets(IndexKey(t.tuples[r][j]), p.literal))
    {
      WhereIsConjuncts(where, RowOf(t, r));
      assert r in order;
      RowAgrees(t, r, FlattenWhere(where), at, indexed, p, j);
    }
  }

  ghost predicate SameRows(a: seq<RID>, b: seq<RID>) {
    Distinct(a) && Distinct(b) && forall r :: r in a <==> r in b
  }

  lemma MetIsKeys(t: Table, j: nat, entries: Entries, literal: Value)
    requires WellTyped(t) && j < |t.columns| && Faithful(t, j, entries)
    ensures forall r :: r in Met(entries, literal) ==> r in t.tuples && Meets(IndexKey(t.tuples[r][j]), literal)
    ensures forall r :: r in Met(entries, literal) ==> InIndex(entries, r)
    ensures forall r :: r in t.tuples && InIndex(entries, r) && Meets(IndexKey(t.tuples[r][j]), literal) ==>
              r in Met(entries, literal)
  {
    forall r | r in t.tuples && InIndex(entries, r) && Meets(IndexKey(t.tuples[r][j]), literal)
      ensures r in Met(entries, literal)
    {
      var i :| 0 <= i < |entries| && entries[i].1 == r;
    }
  }

  /** When keys tell: numbers always; text when it fits the key; NULL never, for
      a table with a visible row. */
  lemma NumbersTell(t: Table, j: nat, literal: Value, r: RID)
    requires WellTyped(t) && r in t.tuples && j < |t.columns|
    requires IsNumber(t.tuples[r][j]) && literal != Null
    ensures KeyTells(t, j, literal, r)
  {
  }

  /** A text tells a literal unless its key was cut or stripped and the literal is
      the text or its key. */
  lemma TextTellsIff(t: Table, j: nat, literal: Value, r: RID)
    requires WellTyped(t) && r in t.tuples && j < |t.columns|
    requires t.tuples[r][j].Text? && literal != Null
    ensures var v := t.tuples[r][j];
            KeyTells(t, j, literal, r) <==> IndexKey(v) == v || (literal != v && literal != IndexKey(v))
  {
  }

  /** The column and the literal are both numbers, or both text that fits its key. */
  ghost predicate Typed(t: Table, j: nat, literal: Value)
    requires WellTyped(t) && j < |t.columns|
  {
    || (IsNumber(literal) && forall r :: r in t.tuples ==> IsNumber(t.tuples[r][j]))
    || (literal.Text? && forall r :: r in t.tuples ==>
          t.tuples[r][j].Text? && IndexKey(t.tuples[r][j]) == t.tuples[r][j])
  }

  /** For a literal of the column's type the pushdown always preserves the result. */
  lemma TypedPushdown(t: Table, order: seq<RID>, where: Option<Expr>, residual: Option<Expr>, at: nat,
                      indexed: map<string, string>, p: Pushed, j: nat, entries: Entries)
    requires WellTyped(t) && HeapOrder(t, order) && j < |t.columns| && t.columns[j] == p.column
    requires Covering(t, j, entries) && PushedAt(FlattenWhere(where), t.alias, indexed, p, residual, at)
    requires Pull(t, order, where).Some? && Typed(t, j, p.literal)
    ensures forall r :: r in Met(entries, p.literal) ==> r in t.tuples
    ensures PlansAgree(t, order, where, entries, p.literal, residual)
  {
    forall r | r in t.tuples ensures KeyTells(t, j, p.literal, r) {
      if IsNumber(p.literal) {
        NumbersTell(t, j, p.literal, r);
      } else {
        TextTellsIff(t, j, p.literal, r);
      }
    }
    PushdownIff(t, order, where, residual, at, indexed, p, j, entries);
    CoveringMeets(t, j, entries, p.literal, residual);
  }

  /** `col = NULL` never holds, but the scan it becomes has no bounds: every row
      is met. */
  lemma NullMeetsEverything(t: Table, j: nat, entries: Entries, r: RID)
    requires WellTyped(t) && j < |t.columns| && Covering(t, j, entries) && r in t.tuples && r in t.visible
    ensures r in Met(entries, Null) && !KeyTells(t, j, Null, r)
  {
    MetIsKeys(t, j, entries, Null);
  }

  /** A ten-byte text is not found under itself, but under its first eight bytes. */
  lemma LongTextIsLost()
    ensures !Meets(IndexKey(Text("long value")), Text("long value"))
    ensures Meets(IndexKey(Text("long value")), Text("long val"))
  {
    var s := "long value";
    assert s[..8] == "long val";
    assert Strip("long val") == "long val";
  }
}
