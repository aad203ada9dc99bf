/** Index pushdown: which conjunct is taken out of the WHERE, and why the plan
    still means the same. */
module Planner {
  import opened Sequences
  import opened Expr

  /* ---------- conjuncts ---------- */

  /** `_flatten_and`. */
  function Flatten(e: Expr): (cs: seq<Expr>)
    ensures cs != []
  {
    if e.Binary? && e.op == "AND" then Flatten(e.left) + Flatten(e.right) else [e]
  }

  function FlattenWhere(where: Option<Expr>): (cs: seq<Expr>) {
    if where.None? then [] else Flatten(where.value)
  }

  /** Conjuncts judged left to right, stopping at the first that is not Yes. */
  function JudgeAll(cs: seq<Expr>, row: Row): (v: Verdict) {
    if cs == [] then Yes
    else if Judge(cs[0], row) != Yes then Judge(cs[0], row)
    else JudgeAll(cs[1..], row)
  }

  function JudgeWhere(where: Option<Expr>, row: Row): (v: Verdict) {
    if where.None? then Yes else Judge(where.value, row)
  }

  lemma {:induction false} JudgeConcat(a: seq<Expr>, b: seq<Expr>, row: Row)
    ensures JudgeAll(a + b, row) == if JudgeAll(a, row) == Yes then JudgeAll(b, row) else JudgeAll(a, row)
  {
    if a == [] {
      assert a + b == b;
    } else {
      assert (a + b)[0] == a[0] && (a + b)[1..] == a[1..] + b;
      JudgeConcat(a[1..], b, row);
    }
  }

  lemma JudgeAnd(l: Expr, r: Expr, row: Row)
    ensures Judge(Binary("AND", l, r), row) == if Judge(l, row) == Yes then Judge(r, row) else Judge(l, row)
  {
  }

  /** Splitting a WHERE into conjuncts loses nothing, exceptions included. */
  lemma {:induction false} FlattenKeepsMeaning(e: Expr, row: Row)
    ensures JudgeAll(Flatten(e), row) == Judge(e, row)
  {
    if e.Binary? && e.op == "AND" {
      FlattenKeepsMeaning(e.left, row);
      FlattenKeepsMeaning(e.right, row);
      JudgeConcat(Flatten(e.left), Flatten(e.right), row);
      JudgeAnd(e.left, e.right, row);
    } else {
      assert [e][1..] == [];
    }
  }

  /** `_rebuild_and`. */
  method RebuildAnd(cs: seq<Expr>) returns (where: Option<Expr>)
    ensures where.None? <==> cs == []
    ensures forall row :: JudgeWhere(where, row) == JudgeAll(cs, row)
  {
    if cs == [] {
      return None;
    }
    var e := cs[0];
    assert cs[..1] == [cs[0]] && cs[..1][1..] == [];
    for i := 1 to |cs|
      invariant forall row :: Judge(e, row) == JudgeAll(cs[..i], row)
    {
      forall row ensures Judge(Binary("AND", e, cs[i]), row) == JudgeAll(cs[..i + 1], row) {
        JudgeAnd(e, cs[i], row);
        JudgeConcat(cs[..i], [cs[i]], row);
        assert [cs[i]][1..] == [];
        assert cs[..i + 1] == cs[..i] + [cs[i]];
      }
      e := Binary("AND", e, cs[i]);
    }
    assert cs[..|cs|] == cs;
    return Some(e);
  }

  function Without(cs: seq<Expr>, i: nat): (r: seq<Expr>)
    requires i < |cs|
  {
    cs[..i] + cs[i + 1..]
  }

  /** A conjunct that holds can be dropped; one that does not can only turn the
      verdict into No, or leave an exception raised before it. */
  lemma DropConjunct(cs: seq<Expr>, i: nat, row: Row)
    requires i < |cs|
    ensures Judge(cs[i], row) == Yes ==> JudgeAll(cs, row) == JudgeAll(Without(cs, i), row)
    ensures Judge(cs[i], row) != Yes ==> JudgeAll(cs, row) != Yes
    ensures JudgeAll(cs, row) != Error && Judge(cs[i], row) == Yes ==> JudgeAll(Without(cs, i), row) != Error
  {
    var a, c, b := cs[..i], [cs[i]], cs[i + 1..];
    assert cs == a + (c + b);
    JudgeConcat(a, c + b, row);
    JudgeConcat(c, b, row);
    JudgeConcat(a, b, row);
    assert c[1..] == [];
  }

  /* ---------- the pushed-down equality ---------- */

  datatype Pushed = Pushed(index: string, column: string, literal: Value)

  function ColumnLiteral(c: Expr, l: Expr, alias: string, indexed: map<string, string>): (r: Option<Pushed>) {
    if c.Column? && l.Literal? && (c.table.None? || c.table.value == alias) && c.name in indexed
    then Some(Pushed(indexed[c.name], c.name, l.value)) else None
  }

  /** `_matching_equality`: column = literal, in either order. */
  function MatchingEquality(c: Expr, alias: string, indexed: map<string, string>): (r: Option<Pushed>) {
    if !(c.Binary? && c.op == "=") then None
    else
      var first := ColumnLiteral(c.left, c.right, alias, indexed);
      if first.Some? then first else ColumnLiteral(c.right, c.left, alias, indexed)
  }

  /** A reference to the table's own column. */
  ghost predicate Refers(e: Expr, alias: string, name: string) {
    e == Column(name, None) || e == Column(name, Some(alias))
  }

  /** A conjunct can be pushed exactly when it is an equality between an indexed column of the
      table and a literal, in either order. */
  lemma PushableIff(c: Expr, alias: string, indexed: map<string, string>, p: Pushed)
    ensures MatchingEquality(c, alias, indexed) == Some(p) <==>
      && p.column in indexed && indexed[p.column] == p.index && c.Binary? && c.op == "="
      && (|| (Refers(c.left, alias, p.column) && c.right == Literal(p.literal))
          || (Refers(c.right, alias, p.column) && c.left == Literal(p.literal)))
  {
    if c.Binary? {
      ColumnLiteralIff(c.left, c.right, alias, indexed, p);
      ColumnLiteralIff(c.right, c.left, alias, indexed, p);
    }
  }

  lemma ColumnLiteralIff(c: Expr, l: Expr, alias: string, indexed: map<string, string>, p: Pushed)
    ensures ColumnLiteral(c, l, alias, indexed) == Some(p) <==>
      && p.column in indexed && indexed[p.column] == p.index
      && Refers(c, alias, p.column) && l == Literal(p.literal)
  {
    if c.Column? {
      assert Refers(c, alias, c.name) <==> c.table.None? || c.table.value == alias;
    }
  }

  datatype Plan =
    | SeqPlan(residual: Option<Expr>)
    | IndexPlan(pushed: Pushed, residual: Option<Expr>)

  /** The first conjunct with a usable index, number `at`, is pushed; the residual is the others. */
  ghost predicate PushedAt(cs: seq<Expr>, alias: string, indexed: map<string, string>, pushed: Pushed,
                           residual: Option<Expr>, at: nat) {
    && at < |cs| && MatchingEquality(cs[at], alias, indexed) == Some(pushed)
    && (forall i :: 0 <= i < at ==> MatchingEquality(cs[i], alias, indexed).None?)
    && forall row :: JudgeWhere(residual, row) == JudgeAll(Without(cs, at), row)
  }

  /** `build_base_scan`: the first conjunct with a usable index is pushed down. */
  method BuildBaseScan(alias: string, indexed: map<string, string>, where: Option<Expr>) returns (plan: Plan)
    ensures var cs := FlattenWhere(where);
            match plan
            case SeqPlan(residual) =>
              residual == where && forall i :: 0 <= i < |cs| ==> MatchingEquality(cs[i], alias, indexed).None?
            case IndexPlan(pushed, residual) =>
              exists at :: PushedAt(cs, alias, indexed, pushed, residual, at)
  {
    var cs := FlattenWhere(where);
    for i := 0 to |cs|
      invariant forall j :: 0 <= j < i ==> MatchingEquality(cs[j], alias, indexed).None?
    {
      var m := MatchingEquality(cs[i], alias, indexed);
      if m.Some? {
        var residual := RebuildAnd(cs[..i] + cs[i + 1..]);
        assert PushedAt(cs, alias, indexed, m.value, residual, i);
        return IndexPlan(m.value, residual);
      }
    }
    return SeqPlan(where);
  }
}
