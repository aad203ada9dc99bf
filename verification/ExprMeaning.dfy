/** What expressions mean, over integers, reals and characters. */
module ExprMeaning {
  import opened Sequences
  import opened Expr

  /* ---------- the order of values ---------- */

  /** The first `i` characters agree; then `s` ends or has the smaller character. */
  ghost predicate PartAt(s: string, t: string, i: int) {
    0 <= i <= |s| && i < |t| && s[..i] == t[..i] && (i == |s| || s[i] < t[i])
  }

  /** Dictionary order. */
  ghost predicate Earlier(s: string, t: string) {
    exists i :: PartAt(s, t, i)
  }

  lemma {:induction false} BeforeIsEarlier(s: string, t: string)
    ensures Before(s, t) <==> Earlier(s, t)
    decreases |s|
  {
    if s != [] && t != [] && s[0] == t[0] {
      BeforeIsEarlier(s[1..], t[1..]);
      EarlierTail(s, t);
    } else {
      DifferAtOnce(s, t);
    }
  }

  lemma EarlierTail(s: string, t: string)
    requires s != [] && t != [] && s[0] == t[0]
    ensures Earlier(s, t) <==> Earlier(s[1..], t[1..])
  {
    var a, b := s[1..], t[1..];
    if i :| PartAt(s, t, i) {
      assert i > 0 && a[..i - 1] == s[..i][1..] && b[..i - 1] == t[..i][1..];
      assert PartAt(a, b, i - 1);
    }
    if i :| PartAt(a, b, i) {
      assert s[..i + 1] == [s[0]] + a[..i] && t[..i + 1] == [t[0]] + b[..i];
      assert PartAt(s, t, i + 1);
    }
  }

  lemma SameStart(s: string, t: string, i: int)
    requires PartAt(s, t, i)
    ensures i > 0 ==> s != [] && t != [] && s[0] == t[0]
  {
    if i > 0 { assert s[0] == s[..i][0] && t[0] == t[..i][0]; }
  }

  lemma DifferAtOnce(s: string, t: string)
    requires s == [] || t == [] || s[0] != t[0]
    ensures Earlier(s, t) <==> t != [] && (s == [] || s[0] < t[0])
  {
    forall i | PartAt(s, t, i) ensures i == 0 { SameStart(s, t, i); }
    if t != [] && (s == [] || s[0] < t[0]) { assert PartAt(s, t, 0); }
  }

  /** `LessThan` is the order of the numbers and of the dictionary. */
  lemma LessThanMeans(m: int, n: int, x: real, y: real, s: string, t: string)
    ensures LessThan(Int(m), Int(n)) <==> m < n
    ensures LessThan(Float(x), Float(y)) <==> x < y
    ensures LessThan(Int(m), Float(y)) <==> m as real < y
    ensures LessThan(Float(x), Int(n)) <==> x < n as real
    ensures LessThan(Bool(false), Int(n)) <==> 0 < n
    ensures LessThan(Bool(true), Int(n)) <==> 1 < n
    ensures LessThan(Text(s), Text(t)) <==> Earlier(s, t)
  {
    BeforeIsEarlier(s, t);
  }

  /* ---------- comparisons ---------- */

  ghost predicate Gives(op: string, l: Expr, r: Expr, row: Row, b: bool) {
    Eval(Binary(op, l, r), row) == Val(Bool(b))
  }

  /** An operator on two values that are there. */
  lemma GivesOn(op: string, l: Expr, r: Expr, row: Row, a: Value, b: Value)
    requires Eval(l, row) == Val(a) && Eval(r, row) == Val(b) && a != Null && b != Null
    requires op in ["=", "<>", "<", "<=", ">", ">="]
    ensures Eval(Binary(op, l, r), row) == Compare(op, a, b)
  {
    OperatorsDiffer();
  }

  lemma Orders(a: Value, b: Value)
    requires Comparable(a, b)
    ensures Compare("<", a, b) == Val(Bool(LessThan(a, b))) && Compare("<=", a, b) == Val(Bool(!LessThan(b, a)))
    ensures Compare(">", a, b) == Val(Bool(LessThan(b, a))) && Compare(">=", a, b) == Val(Bool(!LessThan(a, b)))
  {
    OperatorsDiffer();
  }

  lemma Equals(a: Value, b: Value)
    ensures Compare("=", a, b) == Val(Bool(SameValue(a, b))) && Compare("<>", a, b) == Val(Bool(!SameValue(a, b)))
  {
    OperatorsDiffer();
  }

  /** What the six operators give on comparable values. */
  lemma SixOperators(l: Expr, r: Expr, row: Row, a: Value, b: Value)
    requires Eval(l, row) == Val(a) && Eval(r, row) == Val(b) && Comparable(a, b)
    ensures Gives("=", l, r, row, SameValue(a, b)) && Gives("<>", l, r, row, !SameValue(a, b))
    ensures Gives("<", l, r, row, LessThan(a, b)) && Gives("<=", l, r, row, !LessThan(b, a))
    ensures Gives(">", l, r, row, LessThan(b, a)) && Gives(">=", l, r, row, !LessThan(a, b))
  {
    Orders(a, b);
    Equals(a, b);
    GivesOn("=", l, r, row, a, b);
    GivesOn("<>", l, r, row, a, b);
    GivesOn("<", l, r, row, a, b);
    GivesOn("<=", l, r, row, a, b);
    GivesOn(">", l, r, row, a, b);
    GivesOn(">=", l, r, row, a, b);
  }

  lemma ComparesInts(l: Expr, r: Expr, row: Row, m: int, n: int)
    requires Eval(l, row) == Val(Int(m)) && Eval(r, row) == Val(Int(n))
    ensures Gives("=", l, r, row, m == n) && Gives("<>", l, r, row, m != n)
    ensures Gives("<", l, r, row, m < n) && Gives("<=", l, r, row, m <= n)
    ensures Gives(">", l, r, row, m > n) && Gives(">=", l, r, row, m >= n)
  {
    SixOperators(l, r, row, Int(m), Int(n));
  }

  lemma ComparesReals(l: Expr, r: Expr, row: Row, x: real, y: real)
    requires Eval(l, row) == Val(Float(x)) && Eval(r, row) == Val(Float(y))
    ensures Gives("=", l, r, row, x == y) && Gives("<>", l, r, row, x != y)
    ensures Gives("<", l, r, row, x < y) && Gives("<=", l, r, row, x <= y)
    ensures Gives(">", l, r, row, x > y) && Gives(">=", l, r, row, x >= y)
  {
    SixOperators(l, r, row, Float(x), Float(y));
  }

  /** A boolean, integer or real, as Python sees it among numbers. */
  ghost predicate Amounts(v: Value, x: real) {
    (v == Bool(false) && x == 0.0) || (v == Bool(true) && x == 1.0) || (v.Int? && v.n as real == x) || v == Float(x)
  }

  lemma AmountsNumber(v: Value, x: real)
    ensures Amounts(v, x) <==> IsNumber(v) && Number(v) == x
  {
  }

  /** Numbers of different kinds compare by amount. */
  lemma ComparesNumbers(l: Expr, r: Expr, row: Row, a: Value, b: Value, x: real, y: real)
    requires Eval(l, row) == Val(a) && Eval(r, row) == Val(b) && Amounts(a, x) && Amounts(b, y)
    ensures Gives("=", l, r, row, x == y) && Gives("<>", l, r, row, x != y)
    ensures Gives("<", l, r, row, x < y) && Gives("<=", l, r, row, x <= y)
    ensures Gives(">", l, r, row, x > y) && Gives(">=", l, r, row, x >= y)
  {
    AmountsNumber(a, x);
    AmountsNumber(b, y);
    SixOperators(l, r, row, a, b);
  }

  lemma ComparesTexts(l: Expr, r: Expr, row: Row, s: string, t: string)
    requires Eval(l, row) == Val(Text(s)) && Eval(r, row) == Val(Text(t))
    ensures Gives("=", l, r, row, s == t) && Gives("<>", l, r, row, s != t)
    ensures Gives("<", l, r, row, Earlier(s, t)) && Gives("<=", l, r, row, s == t || Earlier(s, t))
    ensures Gives(">", l, r, row, Earlier(t, s)) && Gives(">=", l, r, row, s == t || Earlier(t, s))
  {
    SixOperators(l, r, row, Text(s), Text(t));
    BeforeIsEarlier(s, t);
    BeforeIsEarlier(t, s);
    Trichotomy(s, t);
    Trichotomy(t, s);
  }

  lemma {:induction false} Trichotomy(s: string, t: string)
    ensures !Before(t, s) <==> s == t || Before(s, t)
    decreases |s|
  {
    if s != [] && t != [] {
      Trichotomy(s[1..], t[1..]);
      assert s == [s[0]] + s[1..] && t == [t[0]] + t[1..];
    }
  }

  /** Between a text and a number only equality is defined, and it fails. */
  lemma ComparesKinds(l: Expr, r: Expr, row: Row, s: string, b: Value, x: real, op: string)
    requires Eval(l, row) == Val(Text(s)) && Eval(r, row) == Val(b) && Amounts(b, x)
    requires op in ["<", "<=", ">", ">="]
    ensures Gives("=", l, r, row, false) && Gives("<>", l, r, row, true)
    ensures Gives("=", r, l, row, false) && Gives("<>", r, l, row, true)
    ensures Eval(Binary(op, l, r), row) == Raise && Eval(Binary(op, r, l), row) == Raise
  {
    OperatorsDiffer();
  }

  /** With NULL on a side no comparison holds, not even of NULL with itself. */
  lemma ComparesNull(l: Expr, r: Expr, row: Row, op: string)
    requires Eval(l, row).Val? && Eval(r, row).Val? && (Eval(l, row) == Val(Null) || Eval(r, row) == Val(Null))
    requires op in ["=", "<>", "<", "<=", ">", ">="]
    ensures Gives(op, l, r, row, false)
  {
    OperatorsDiffer();
  }

  lemma OperatorsDiffer()
    ensures forall op :: op in ["=", "<>", "<", "<=", ">", ">="] ==> op != "AND" && op != "OR"
    ensures "<" != "=" && "<" != "<>" && "<=" != "=" && "<=" != "<>" && "<=" != "<"
    ensures ">" != "=" && ">" != "<>" && ">" != "<" && ">" != "<=" && ">=" != "=" && ">=" != "<>"
    ensures ">=" != "<" && ">=" != "<=" && ">=" != ">" && "<>" != "="
  {
    assert "AND"[0] == 'A' && "OR"[0] == 'O';
    assert "="[0] == '=' && "<"[0] == '<' && ">"[0] == '>' && "<>"[1] == '>' && "<="[1] == '=';
  }

  /* ---------- truth ---------- */

  /** What Python takes for false. */
  lemma TruthyMeans(v: Value)
    ensures !Truthy(v) <==> v in {Null, Bool(false), Int(0), Float(0.0), Text("")}
  {
  }

  /** AND, OR and NOT on values; the right side is looked at only if it matters. */
  lemma ConnectivesMean(l: Expr, r: Expr, row: Row, a: Value, b: Value)
    requires Eval(l, row) == Val(a)
    ensures Eval(Unary("NOT", l), row) == Val(Bool(!Truthy(a)))
    ensures Eval(r, row) == Val(b) ==> Gives("AND", l, r, row, Truthy(a) && Truthy(b))
    ensures Eval(r, row) == Val(b) ==> Gives("OR", l, r, row, Truthy(a) || Truthy(b))
    ensures Eval(r, row) == Raise ==> Eval(Binary("AND", l, r), row) == if Truthy(a) then Raise else Val(Bool(false))
    ensures Eval(r, row) == Raise ==> Eval(Binary("OR", l, r), row) == if Truthy(a) then Val(Bool(true)) else Raise
  {
    assert "AND" != "OR" by { assert "AND"[0] != "OR"[0]; }
  }

  /** An exception on the left is an exception, and so are a star, an aggregate and an unknown operator. */
  lemma RaisesMean(l: Expr, r: Expr, row: Row, op: string, f: string)
    ensures Eval(l, row) == Raise ==> Eval(Binary(op, l, r), row) == Raise && Eval(Unary(op, l), row) == Raise
    ensures Eval(Star, row) == Raise && Eval(Call(f, l), row) == Raise
    ensures op != "NOT" ==> Eval(Unary(op, l), row) == Raise
  {
  }

  /** A filter accepts exactly the rows on which the condition is true. */
  lemma JudgeMeans(e: Expr, row: Row)
    ensures Judge(e, row) == Error <==> Eval(e, row) == Raise
    ensures Judge(e, row) == No <==>
      Eval(e, row).Val? && Eval(e, row).v in {Null, Bool(false), Int(0), Float(0.0), Text("")}
  {
    if Eval(e, row).Val? { TruthyMeans(Eval(e, row).v); }
  }

  /* ---------- columns ---------- */

  /** The key is the column's name behind some qualifier. */
  ghost predicate Qualifies(key: string, name: string) {
    exists p: string :: key == p + "." + name
  }

  lemma EndsWithMeans(key: string, name: string)
    ensures EndsWith(key, "." + name) <==> Qualifies(key, name)
  {
    var suffix := "." + name;
    if EndsWith(key, suffix) {
      var p := key[..|key| - |suffix|];
      assert key == p + suffix && p + suffix == p + "." + name;
    }
    if p :| key == p + "." + name {
      assert key == p + suffix;
      assert key[|key| - |suffix|..] == suffix;
    }
  }

  /** Position `i` is the only one with such a key. */
  ghost predicate OnlyAt(row: Row, name: string, i: int) {
    0 <= i < |row| && forall j :: 0 <= j < |row| ==> (Qualifies(row[j].0, name) <==> j == i)
  }

  lemma {:induction false} SuffixedEmpty(row: Row, name: string)
    ensures Suffixed(row, "." + name) == [] <==> forall j :: 0 <= j < |row| ==> !Qualifies(row[j].0, name)
    decreases |row|
  {
    if row != [] {
      EndsWithMeans(row[0].0, name);
      SuffixedEmpty(row[1..], name);
      assert forall j :: 1 <= j < |row| ==> row[j] == row[1..][j - 1];
      assert (forall j :: 0 <= j < |row| ==> !Qualifies(row[j].0, name))
        <==> !Qualifies(row[0].0, name) && forall j :: 0 <= j < |row[1..]| ==> !Qualifies(row[1..][j].0, name);
    }
  }

  lemma {:induction false} SuffixedOne(row: Row, name: string, v: Value)
    ensures Suffixed(row, "." + name) == [v] <==> exists i :: OnlyAt(row, name, i) && row[i].1 == v
    decreases |row|
  {
    if row != [] {
      EndsWithMeans(row[0].0, name);
      SuffixedEmpty(row[1..], name);
      SuffixedOne(row[1..], name, v);
      OnlyAtTail(row, name, v);
    }
  }

  lemma OnlyAtTail(row: Row, name: string, v: Value)
    requires row != []
    ensures (exists i :: OnlyAt(row, name, i) && row[i].1 == v) <==>
      if Qualifies(row[0].0, name)
      then row[0].1 == v && forall j :: 0 <= j < |row[1..]| ==> !Qualifies(row[1..][j].0, name)
      else exists i :: OnlyAt(row[1..], name, i) && row[1..][i].1 == v
  {
    var rest := row[1..];
    if i :| OnlyAt(row, name, i) && row[i].1 == v {
      if i > 0 {
        forall j | 0 <= j < |rest| ensures Qualifies(rest[j].0, name) <==> j == i - 1 { assert rest[j] == row[j + 1]; }
        assert OnlyAt(rest, name, i - 1);
      } else {
        forall j | 0 <= j < |rest| ensures !Qualifies(rest[j].0, name) { assert rest[j] == row[j + 1]; }
      }
    }
    if !Qualifies(row[0].0, name) {
      if i :| OnlyAt(rest, name, i) && rest[i].1 == v {
        forall j | 0 <= j < |row| ensures Qualifies(row[j].0, name) <==> j == i + 1 {
          if j > 0 { assert rest[j - 1] == row[j]; }
        }
        assert OnlyAt(row, name, i + 1);
      }
    } else if row[0].1 == v && forall j :: 0 <= j < |rest| ==> !Qualifies(rest[j].0, name) {
      forall j | 0 <= j < |row| ensures Qualifies(row[j].0, name) <==> j == 0 {
        if j > 0 { assert rest[j - 1] == row[j]; }
      }
      assert OnlyAt(row, name, 0);
    }
  }

  /** A reference finds the first key it spells out; an unqualified one also the only key
      that ends in its name; everything else raises. */
  lemma ResolveMeans(row: Row, name: string, table: string, v: Value)
    ensures Eval(Column(name, Some(table)), row)
         == if Get(row, table + "." + name).Some? then Val(Get(row, table + "." + name).value) else Raise
    ensures Get(row, name).Some? ==> Eval(Column(name, None), row) == Val(Get(row, name).value)
    ensures Get(row, name).None? ==>
      (Eval(Column(name, None), row) == Val(v) <==> exists i :: OnlyAt(row, name, i) && row[i].1 == v)
  {
    SuffixedOne(row, name, v);
  }

  /** `Get` is the value at the key's first position. */
  lemma {:induction false} GetMeans(row: Row, key: string, v: Value)
    ensures Get(row, key) == Some(v) <==>
      exists i :: 0 <= i < |row| && row[i] == (key, v) && forall j :: 0 <= j < i ==> row[j].0 != key
    decreases |row|
  {
    if row != [] && row[0].0 != key {
      var rest := row[1..];
      GetMeans(rest, key, v);
      if i :| 0 <= i < |rest| && rest[i] == (key, v) && forall j :: 0 <= j < i ==> rest[j].0 != key {
        forall j | 0 <= j < i + 1 ensures row[j].0 != key { if j > 0 { assert rest[j - 1] == row[j]; } }
        assert row[i + 1] == (key, v);
      }
      if i :| 0 <= i < |row| && row[i] == (key, v) && forall j :: 0 <= j < i ==> row[j].0 != key {
        assert rest[i - 1] == (key, v);
        forall j | 0 <= j < i - 1 ensures rest[j].0 != key { assert rest[j] == row[j + 1]; }
      }
    } else if row != [] {
      if row[0].1 == v { assert row[0] == (key, v); }
    }
  }
}
