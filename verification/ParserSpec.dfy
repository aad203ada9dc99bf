/** The recursive-descent expression parser as a function of the token list and
    a position, and the proof that it accepts exactly the grammar. */
module ParserSpec {
  import opened Sequences
  import opened Expr
  import opened Grammar

  datatype Parsed = Ok(tree: Expr, next: nat) | Fail

  /** The cursor stands on a token and the list ends in EOF. */
  ghost predicate AtToken(ts: seq<Token>, p: nat) {
    p < |ts| && ts[|ts| - 1] == Eof
  }

  ghost predicate MovedOn(ts: seq<Token>, p: nat, r: Parsed) {
    r.Ok? ==> p < r.next < |ts|
  }

  ghost function ParseOr(ts: seq<Token>, p: nat): (r: Parsed)
    requires AtToken(ts, p)
    ensures MovedOn(ts, p, r)
    decreases |ts| - p, 4, 0
  {
    match ParseAnd(ts, p)
    case Fail => Fail
    case Ok(left, q) => OrTail(ts, q, left)
  }

  ghost function OrTail(ts: seq<Token>, p: nat, left: Expr): (r: Parsed)
    requires AtToken(ts, p)
    ensures r.Ok? ==> p <= r.next < |ts|
    decreases |ts| - p, 4, 1
  {
    if ts[p] != Keyword("OR") then Ok(left, p)
    else
      match ParseAnd(ts, p + 1)
      case Fail => Fail
      case Ok(right, q) => OrTail(ts, q, Binary("OR", left, right))
  }

  ghost function ParseAnd(ts: seq<Token>, p: nat): (r: Parsed)
    requires AtToken(ts, p)
    ensures MovedOn(ts, p, r)
    decreases |ts| - p, 3, 0
  {
    match ParseNot(ts, p)
    case Fail => Fail
    case Ok(left, q) => AndTail(ts, q, left)
  }

  ghost function AndTail(ts: seq<Token>, p: nat, left: Expr): (r: Parsed)
    requires AtToken(ts, p)
    ensures r.Ok? ==> p <= r.next < |ts|
    decreases |ts| - p, 3, 1
  {
    if ts[p] != Keyword("AND") then Ok(left, p)
    else
      match ParseNot(ts, p + 1)
      case Fail => Fail
      case Ok(right, q) => AndTail(ts, q, Binary("AND", left, right))
  }

  ghost function ParseNot(ts: seq<Token>, p: nat): (r: Parsed)
    requires AtToken(ts, p)
    ensures MovedOn(ts, p, r)
    decreases |ts| - p, 2, 0
  {
    if ts[p] == Keyword("NOT") then
      match ParseNot(ts, p + 1)
      case Fail => Fail
      case Ok(e, q) => Ok(Unary("NOT", e), q)
    else ParseComparison(ts, p)
  }

  ghost function ParseComparison(ts: seq<Token>, p: nat): (r: Parsed)
    requires AtToken(ts, p)
    ensures MovedOn(ts, p, r)
    decreases |ts| - p, 1, 0
  {
    match ParsePrimary(ts, p)
    case Fail => Fail
    case Ok(left, q) =>
      if !IsComparison(ts[q]) then Ok(left, q)
      else
        match ParsePrimary(ts, q + 1)
        case Fail => Fail
        case Ok(right, z) => Ok(Binary(Canonical(ts[q].text), left, right), z)
  }

  ghost function ParsePrimary(ts: seq<Token>, p: nat): (r: Parsed)
    requires AtToken(ts, p)
    ensures MovedOn(ts, p, r)
    decreases |ts| - p, 0, 1
  {
    match ts[p]
    case Whole(n) => Ok(Literal(Int(n)), p + 1)
    case Decimal(x) => Ok(Literal(Float(x)), p + 1)
    case Str(s) => Ok(Literal(Text(s)), p + 1)
    case Keyword(k) =>
      if k == "TRUE" then Ok(Literal(Bool(true)), p + 1)
      else if k == "FALSE" then Ok(Literal(Bool(false)), p + 1)
      else if k == "NULL" then Ok(Literal(Null), p + 1)
      else Fail
    case Op(o) =>
      if o == "-" then ParseMinus(ts, p)
      else if o == "(" then Closed(ts, ParseOr(ts, p + 1))
      else if o == "*" then Ok(Star, p + 1)
      else Fail
    case Ident(s) =>
      if ts[p + 1] == Op("(") then ParseCall(ts, p)
      else if ts[p + 1] == Op(".") then
        if ts[p + 2].Ident? then Ok(Column(ts[p + 2].text, Some(s)), p + 3) else Fail
      else Ok(Column(s, None), p + 1)
    case Eof => Fail
  }

  ghost function ParseMinus(ts: seq<Token>, p: nat): (r: Parsed)
    requires AtToken(ts, p) && ts[p] == Op("-")
    ensures MovedOn(ts, p, r)
    decreases |ts| - p, 0, 0
  {
    match ParsePrimary(ts, p + 1)
    case Fail => Fail
    case Ok(e, q) =>
      var v := NegateTree(Some(e));
      if v.Some? then Ok(v.value, q) else Fail
  }

  /** Expect the closing parenthesis. */
  ghost function Closed(ts: seq<Token>, r: Parsed): (z: Parsed)
    requires ts != [] && ts[|ts| - 1] == Eof && (r.Ok? ==> r.next < |ts|)
    ensures z.Ok? ==> r.Ok? && r.next < z.next < |ts|
  {
    if r.Ok? && ts[r.next] == Op(")") then Ok(r.tree, r.next + 1) else Fail
  }

  ghost function ParseCall(ts: seq<Token>, p: nat): (r: Parsed)
    requires AtToken(ts, p) && ts[p].Ident? && p + 1 < |ts| && ts[p + 1] == Op("(")
    ensures MovedOn(ts, p, r)
    decreases |ts| - p, 0, 0
  {
    var arg := if ts[p + 2] == Op("*") then Ok(Star, p + 2) else ParseOr(ts, p + 2);
    match Closed(ts, SkipStar(ts, arg))
    case Fail => Fail
    case Ok(e, q) => Ok(Call(Upper(ts[p].text), e), q)
  }

  /** After a star argument one `*` is taken if there is one. */
  ghost function SkipStar(ts: seq<Token>, r: Parsed): (z: Parsed)
    requires ts != [] && ts[|ts| - 1] == Eof && (r.Ok? ==> r.next < |ts|)
    ensures z.Ok? <==> r.Ok?
    ensures z.Ok? ==> r.next <= z.next < |ts| && z.tree == r.tree
  {
    if r.Ok? && r.tree == Star && ts[r.next] == Op("*") then Ok(r.tree, r.next + 1) else r
  }

  /** Parse at one level of the grammar. */
  ghost function Parse(level: nat, ts: seq<Token>, p: nat): (r: Parsed)
    requires AtToken(ts, p)
    ensures MovedOn(ts, p, r)
  {
    if level == 0 then ParsePrimary(ts, p)
    else if level == 1 then ParseComparison(ts, p)
    else if level == 2 then ParseNot(ts, p)
    else if level == 3 then ParseAnd(ts, p)
    else ParseOr(ts, p)
  }

  /* ---------- tokens in place ---------- */

  /** `ys` stands in `ts` at `p`, with a token after it. */
  ghost predicate Here(ts: seq<Token>, p: nat, ys: seq<Token>) {
    p + |ys| < |ts| && ts[p..p + |ys|] == ys
  }

  lemma HereConcat(ts: seq<Token>, p: nat, a: seq<Token>, b: seq<Token>)
    requires b != []
    ensures Here(ts, p, a + b) <==> Here(ts, p, a) && Here(ts, p + |a|, b)
  {
    if Here(ts, p, a + b) {
      assert ts[p..p + |a|] == ts[p..p + |a + b|][..|a|];
      assert ts[p + |a|..p + |a| + |b|] == ts[p..p + |a + b|][|a|..];
    }
    if Here(ts, p, a) && Here(ts, p + |a|, b) {
      assert ts[p..p + |a + b|] == ts[p..p + |a|] + ts[p + |a|..p + |a| + |b|];
    }
  }

  lemma HereOne(ts: seq<Token>, p: nat, t: Token)
    ensures Here(ts, p, [t]) <==> p + 1 < |ts| && ts[p] == t
  {
    if p + 1 < |ts| { assert ts[p..p + 1] == [ts[p]]; }
  }

  /** The two-sided forms. */
  lemma HereInfix(ts: seq<Token>, p: nat, a: seq<Token>, t: Token, b: seq<Token>)
    requires b != []
    ensures Here(ts, p, a + [t] + b) <==>
      Here(ts, p, a) && ts[p + |a|] == t && Here(ts, p + |a| + 1, b)
  {
    HereConcat(ts, p, a + [t], b);
    HereConcat(ts, p, a, [t]);
    HereOne(ts, p + |a|, t);
  }

  lemma HerePrefix(ts: seq<Token>, p: nat, t: Token, b: seq<Token>)
    requires b != []
    ensures Here(ts, p, [t] + b) <==> p < |ts| && ts[p] == t && Here(ts, p + 1, b)
  {
    HereConcat(ts, p, [t], b);
    HereOne(ts, p, t);
  }
}
