/** The parser object: a cursor over the token list, moved by mutually recursive methods. */
module Parser {
  import opened Sequences
  import opened Expr
  import opened Grammar
  import opened ParserSpec
  import opened ParserProof

  datatype Reply = Parsed(tree: Expr) | ParseError

  class Parser {
    const tokens: seq<Token>
    var pos: nat

    /** The cursor never leaves the list, so no read goes past the EOF token. */
    ghost predicate Valid()
      reads this
    {
      AtToken(tokens, pos)
    }

    constructor (ts: seq<Token>)
      requires ts != [] && ts[|ts| - 1] == Eof
      ensures Valid() && tokens == ts && pos == 0
    {
      tokens, pos := ts, 0;
    }

    /** What a parsing method leaves: its reply, and on success the cursor behind what it read. */
    ghost predicate Did(r: Reply, spec: ParserSpec.Parsed)
      reads this
    {
      match spec
      case Fail => r.ParseError?
      case Ok(e, q) => r == Parsed(e) && pos == q
    }

    method Advance() returns (t: Token)
      requires Valid() && tokens[pos] != Eof
      modifies this`pos
      ensures Valid() && pos == old(pos) + 1 && t == tokens[old(pos)]
    {
      t := tokens[pos];
      pos := pos + 1;
    }

    /** `_match`: take the token if it is the next one. */
    method Match(t: Token) returns (taken: bool)
      requires Valid() && t != Eof
      modifies this`pos
      ensures Valid() && taken == (tokens[old(pos)] == t) && pos == old(pos) + if taken then 1 else 0
    {
      taken := tokens[pos] == t;
      if taken { var _ := Advance(); }
    }

    method ParseExpr() returns (r: Reply)
      requires Valid()
      modifies this`pos
      ensures Valid() && Did(r, ParseOr(tokens, old(pos)))
      decreases |tokens| - pos, 5
    {
      r := ParseOrExpr();
    }

    method ParseOrExpr() returns (r: Reply)
      requires Valid()
      modifies this`pos
      ensures Valid() && Did(r, ParseOr(tokens, old(pos)))
      decreases |tokens| - pos, 4
    {
      r := ParseAndExpr();
      if r.ParseError? { return; }
      while true
        invariant Valid() && pos > old(pos) && r.Parsed?
        invariant ParseOr(tokens, old(pos)) == OrTail(tokens, pos, r.tree)
        decreases |tokens| - pos
      {
        var more := Match(Keyword("OR"));
        if !more { return; }
        var right := ParseAndExpr();
        if right.ParseError? { return ParseError; }
        r := Parsed(Binary("OR", r.tree, right.tree));
      }
    }

    method ParseAndExpr() returns (r: Reply)
      requires Valid()
      modifies this`pos
      ensures Valid() && Did(r, ParseAnd(tokens, old(pos)))
      decreases |tokens| - pos, 3
    {
      r := ParseNotExpr();
      if r.ParseError? { return; }
      while true
        invariant Valid() && pos > old(pos) && r.Parsed?
        invariant ParseAnd(tokens, old(pos)) == AndTail(tokens, pos, r.tree)
        decreases |tokens| - pos
      {
        var more := Match(Keyword("AND"));
        if !more { return; }
        var right := ParseNotExpr();
        if right.ParseError? { return ParseError; }
        r := Parsed(Binary("AND", r.tree, right.tree));
      }
    }

    method ParseNotExpr() returns (r: Reply)
      requires Valid()
      modifies this`pos
      ensures Valid() && Did(r, ParseNot(tokens, old(pos)))
      decreases |tokens| - pos, 2
    {
      var negated := Match(Keyword("NOT"));
      if negated {
        r := ParseNotExpr();
        if r.Parsed? { r := Parsed(Unary("NOT", r.tree)); }
      } else {
        r := ParseComparisonExpr();
      }
    }

    method ParseComparisonExpr() returns (r: Reply)
      requires Valid()
      modifies this`pos
      ensures Valid() && Did(r, ParseComparison(tokens, old(pos)))
      decreases |tokens| - pos, 1
    {
      r := ParsePrimaryExpr();
      if r.Parsed? && IsComparison(tokens[pos]) {
        var op := Advance();
        var right := ParsePrimaryExpr();
        if right.ParseError? { return ParseError; }
        r := Parsed(Binary(Canonical(op.text), r.tree, right.tree));
      }
    }

    method ParsePrimaryExpr() returns (r: Reply)
      requires Valid()
      modifies this`pos
      ensures Valid() && Did(r, ParsePrimary(tokens, old(pos)))
      decreases |tokens| - pos, 0, 1
    {
      var t := tokens[pos];
      if t == Op("-") {
        assert ParsePrimary(tokens, pos) == ParseMinus(tokens, pos);
        var _ := Advance();
        var operand := ParsePrimaryExpr();
        if operand.ParseError? || !operand.tree.Literal? { return ParseError; }
        var v := Negate(operand.tree.value);
        return if v.Some? then Parsed(Literal(v.value)) else ParseError;
      }
      if t == Op("(") {
        var _ := Advance();
        var inner := ParseExpr();
        if inner.ParseError? { return ParseError; }
        var closed := Match(Op(")"));
        return if closed then inner else ParseError;
      }
      if t.Ident? {
        r := ParseIdent();
        return;
      }
      r := ParseAtom();
    }

    /** Numbers, strings, TRUE, FALSE, NULL and the star. */
    method ParseAtom() returns (r: Reply)
      requires Valid() && !tokens[pos].Ident? && tokens[pos] != Op("-") && tokens[pos] != Op("(")
      modifies this`pos
      ensures Valid() && Did(r, ParsePrimary(tokens, old(pos)))
    {
      var t := tokens[pos];
      if t.Whole? {
        r := Parsed(Literal(Int(t.n)));
      } else if t.Decimal? {
        r := Parsed(Literal(Float(t.r)));
      } else if t.Str? {
        r := Parsed(Literal(Text(t.text)));
      } else if t == Keyword("TRUE") {
        r := Parsed(Literal(Bool(true)));
      } else if t == Keyword("FALSE") {
        r := Parsed(Literal(Bool(false)));
      } else if t == Keyword("NULL") {
        r := Parsed(Literal(Null));
      } else if t == Op("*") {
        r := Parsed(Star);
      } else {
        return ParseError;
      }
      var _ := Advance();
    }

    /** Behind `name (`: the argument and the closing parenthesis. */
    method ParseArgument(name: string) returns (r: Reply)
      requires Valid() && pos >= 2 && tokens[pos - 2] == Ident(name) && tokens[pos - 1] == Op("(")
      modifies this`pos
      ensures Valid() && Did(r, ParseCall(tokens, old(pos) - 2))
      decreases |tokens| - pos, 6
    {
      var arg := Parsed(Star);
      if tokens[pos] != Op("*") {
        arg := ParseExpr();
        if arg.ParseError? { return ParseError; }
      }
      if arg.tree == Star { var _ := Match(Op("*")); }
      var closed := Match(Op(")"));
      return if closed then Parsed(Call(Upper(name), arg.tree)) else ParseError;
    }

    /** A call, a qualified column or a bare column. */
    method ParseIdent() returns (r: Reply)
      requires Valid() && tokens[pos].Ident?
      modifies this`pos
      ensures Valid() && Did(r, ParsePrimary(tokens, old(pos)))
      decreases |tokens| - pos, 0, 0
    {
      var t := Advance();
      var called := Match(Op("("));
      if called {
        r := ParseArgument(t.text);
        return;
      }
      var dotted := Match(Op("."));
      if dotted {
        if !tokens[pos].Ident? { return ParseError; }
        var column := Advance();
        return Parsed(Column(column.text, Some(t.text)));
      }
      return Parsed(Column(t.text, None));
    }
  }

  /** Print, parse from the first token, and the same tree comes back. */
  method PrintThenParse(e: Expr) returns (r: Reply)
    requires Printable(e)
    ensures r == Parsed(e)
  {
    var ts := Yield(Print(e)) + [Eof];
    RoundTrip([], e, [Eof]);
    assert [] + Yield(Print(e)) + [Eof] == ts;
    var parser := new Parser(ts);
    r := parser.ParseExpr();
  }
}
