/** SQL expressions and their value on a row. */
module Expr {
  import opened Sequences

  datatype Value = Null | Bool(b: bool) | Int(n: int) | Float(r: real) | Text(s: string)

  datatype Expr =
    | Literal(value: Value)
    | Column(name: string, table: Option<string>)
    | Star
    | Unary(op: string, operand: Expr)
    | Binary(op: string, left: Expr, right: Expr)
    | Call(name: string, arg: Expr)

  /** A row dict: its keys in insertion order, each with a value. */
  type Row = seq<(string, Value)>

  /** What evaluating gives: a value, or some exception. */
  datatype Outcome = Val(v: Value) | Raise

  function Get(row: Row, key: string): (v: Option<Value>)
    ensures v.Some? <==> exists i :: 0 <= i < |row| && row[i].0 == key
  {
    if row == [] then None
    else if row[0].0 == key then Some(row[0].1)
    else Get(row[1..], key)
  }

  predicate EndsWith(s: string, suffix: string) {
    |suffix| <= |s| && s[|s| - |suffix|..] == suffix
  }

  /** The values under keys of the form `*.name`. */
  function Suffixed(row: Row, suffix: string): (vs: seq<Value>) {
    if row == [] then []
    else if EndsWith(row[0].0, suffix) then [row[0].1] + Suffixed(row[1..], suffix)
    else Suffixed(row[1..], suffix)
  }

  /** `resolve_column`. */
  function Resolve(row: Row, name: string, table: Option<string>): (o: Outcome) {
    if table.Some? then
      match Get(row, table.value + "." + name)
      case Some(v) => Val(v)
      case None => Raise
    else
      match Get(row, name)
      case Some(v) => Val(v)
      case None =>
        var matches := Suffixed(row, "." + name);
        if |matches| == 1 then Val(matches[0]) else Raise
  }

  predicate IsNumber(v: Value) { v.Bool? || v.Int? || v.Float? }

  function Number(v: Value): (x: real)
    requires IsNumber(v)
  {
    match v
    case Bool(b) => if b then 1.0 else 0.0
    case Int(n) => n as real
    case Float(r) => r
  }

  /** Python's `==` on these values: numbers by amount, otherwise by kind. */
  predicate SameValue(a: Value, b: Value) {
    if IsNumber(a) && IsNumber(b) then Number(a) == Number(b) else a == b
  }

  /** Python's `<` is defined between numbers and between strings. */
  predicate Comparable(a: Value, b: Value) {
    (IsNumber(a) && IsNumber(b)) || (a.Text? && b.Text?)
  }

  predicate Before(a: string, b: string) {
    b != [] && (a == [] || a[0] < b[0] || (a[0] == b[0] && Before(a[1..], b[1..])))
  }

  predicate LessThan(a: Value, b: Value)
    requires Comparable(a, b)
  {
    if a.Text? then Before(a.s, b.s) else Number(a) < Number(b)
  }

  function Compare(op: string, a: Value, b: Value): (o: Outcome) {
    if op == "=" then Val(Bool(SameValue(a, b)))
    else if op == "<>" then Val(Bool(!SameValue(a, b)))
    else if op !in ["<", "<=", ">", ">="] || !Comparable(a, b) then Raise
    else if op == "<" then Val(Bool(LessThan(a, b)))
    else if op == "<=" then Val(Bool(!LessThan(b, a)))
    else if op == ">" then Val(Bool(LessThan(b, a)))
    else Val(Bool(!LessThan(a, b)))
  }

  /** Python's `bool(value)`. */
  predicate Truthy(v: Value) {
    match v
    case Null => false
    case Bool(b) => b
    case Int(n) => n != 0
    case Float(r) => r != 0.0
    case Text(s) => s != ""
  }

  /** `evaluate`. */
  function Eval(e: Expr, row: Row): (o: Outcome) {
    match e
    case Literal(v) => Val(v)
    case Column(name, table) => Resolve(row, name, table)
    case Star => Raise
    case Unary(op, x) =>
      if op != "NOT" then Raise
      else (match Eval(x, row) case Raise => Raise case Val(v) => Val(Bool(!Truthy(v))))
    case Binary(op, l, r) =>
      (match Eval(l, row)
       case Raise => Raise
       case Val(a) =>
         if op == "AND" && !Truthy(a) then Val(Bool(false))
         else if op == "OR" && Truthy(a) then Val(Bool(true))
         else
           match Eval(r, row)
           case Raise => Raise
           case Val(b) =>
             if op == "AND" || op == "OR" then Val(Bool(Truthy(b)))
             else if a.Null? || b.Null? then Val(Bool(false))
             else Compare(op, a, b))
    case Call(_, _) => Raise
  }

  /** What a filter makes of a predicate on a row. */
  datatype Verdict = Yes | No | Error

  function Judge(e: Expr, row: Row): (v: Verdict) {
    match Eval(e, row)
    case Raise => Error
    case Val(x) => if Truthy(x) then Yes else No
  }
}
