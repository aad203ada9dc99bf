/** What the parser makes of operators, aggregate names and signs, token by token. */
module ParserMeaning {
  import opened Sequences
  import opened Expr
  import opened ExprMeaning
  import opened Grammar
  import opened ParserSpec
  import opened ParserProof
  import Parser

  /** The operator of the tree: `!=` is another spelling of `<>`. */
  function TreeOperator(op: string): (o: string) {
    match op
    case "!=" => "<>"
    case _ => op
  }

  /** The comparison operators of the language. */
  ghost predicate ComparesBy(op: string) {
    op == "=" || op == "<>" || op == "!=" || op == "<" || op == "<=" || op == ">" || op == ">="
  }

  lemma SpellingsDiffer()
    ensures "!=" != "=" && "!=" != "<>" && "!=" != "<" && "!=" != "<=" && "!=" != ">" && "!=" != ">="
  {
    assert "!="[0] == '!' && "="[0] == '=' && "<"[0] == '<' && ">"[0] == '>' && "<>"[0] == '<' && "<="[0] == '<';
    assert ">="[0] == '>';
  }

  /** Every comparison between two primaries is a form, of the tree with that operator. */
  lemma ComparisonTree(op: string, l: Form, r: Form)
    requires ComparesBy(op) && Good(l) && Good(r) && Level(l) == 0 && Level(r) == 0
    ensures Good(CmpForm(op, l, r))
    ensures op == "!=" ==> Tree(CmpForm(op, l, r)) == Some(Binary("<>", Tree(l).value, Tree(r).value))
    ensures op != "!=" ==> Tree(CmpForm(op, l, r)) == Some(Binary(op, Tree(l).value, Tree(r).value))
  {
    SpellingsDiffer();
  }

  /** So the parser reads it, wherever it stands. */
  lemma ComparisonParses(before: seq<Token>, op: string, l: Form, r: Form, behind: seq<Token>)
    requires ComparesBy(op) && Good(l) && Good(r) && Level(l) == 0 && Level(r) == 0
    requires behind != [] && behind[|behind| - 1] == Eof && Stops(4, CmpForm(op, l, r), behind[0])
    ensures var ts := before + Yield(CmpForm(op, l, r)) + behind;
            && AtToken(ts, |before|)
            && ParseOr(ts, |before|) == Ok(Binary(TreeOperator(op), Tree(l).value, Tree(r).value),
                                           |before| + |Yield(l)| + 1 + |Yield(r)|)
  {
    var c := CmpForm(op, l, r);
    ComparisonTree(op, l, r);
    SpellingsDiffer();
    FormInPlace(before, c, behind);
    ExprComplete(before + Yield(c) + behind, |before|, c);
  }

  /** The parser object on `l op r` alone. */
  method ParseComparison(op: string, l: Form, r: Form) returns (reply: Parser.Reply)
    requires ComparesBy(op) && Good(l) && Good(r) && Level(l) == 0 && Level(r) == 0
    ensures op == "!=" ==> reply == Parser.Parsed(Binary("<>", Tree(l).value, Tree(r).value))
    ensures op != "!=" ==> reply == Parser.Parsed(Binary(op, Tree(l).value, Tree(r).value))
  {
    var c := CmpForm(op, l, r);
    ComparisonTree(op, l, r);
    ReadAlone(c);
    var parser := new Parser.Parser(Yield(c) + [Eof]);
    reply := parser.ParseExpr();
  }

  /* ---------- a condition from its tokens to its verdict ---------- */

  /** What the operator says of two integers. */
  ghost predicate Relates(op: string, m: int, n: int) {
    || (op == "=" && m == n) || ((op == "<>" || op == "!=") && m != n)
    || (op == "<" && m < n) || (op == "<=" && m <= n) || (op == ">" && m > n) || (op == ">=" && m >= n)
  }

  /** `column op number`, parsed and evaluated, accepts exactly the rows it says. */
  lemma ConditionMeans(name: string, op: string, n: nat, row: Row, m: int)
    requires ComparesBy(op) && Get(row, name) == Some(Int(m))
    ensures var p := ParseOr([Ident(name), Op(op), Whole(n), Eof], 0);
            p.Ok? && p.next == 3 && Judge(p.tree, row) == if Relates(op, m, n) then Yes else No
  {
    var l, r := NameForm(name), NumForm(n);
    var c := CmpForm(op, l, r);
    ComparisonTree(op, l, r);
    ReadAlone(c);
    assert Yield(c) + [Eof] == [Ident(name), Op(op), Whole(n), Eof];
    SpellingsDiffer();
    OperatorsDiffer();
    ComparesInts(Column(name, None), Literal(Int(n)), row, m, n);
  }

  /* ---------- letters and signs ---------- */

  const Small := "abcdefghijklmnopqrstuvwxyz"
  const Large := "ABCDEFGHIJKLMNOPQRSTUVWXYZ"

  /** An aggregate's name is read in capitals, letter by letter. */
  lemma UpperMeans(s: string, i: nat, k: nat)
    requires i < |s|
    ensures k < 26 && s[i] == Small[k] ==> Upper(s)[i] == Large[k]
    ensures s[i] !in Small ==> Upper(s)[i] == s[i]
  {
    LettersAt(k);
    SmallHas(s[i]);
  }

  lemma LettersAt(k: nat)
    ensures |Small| == 26 && |Large| == 26
    ensures k < 26 ==> Small[k] == 'a' + k as char && Large[k] == 'A' + k as char
  {
  }

  lemma SmallHas(c: char)
    ensures 'a' <= c <= 'z' ==> c in Small
  {
    if 'a' <= c <= 'z' {
      var k := (c - 'a') as nat;
      LettersAt(k);
      assert Small[k] in Small;
    }
  }

  /** A minus sign before a number, and before TRUE and FALSE, which are numbers. */
  lemma MinusMeans(c: Form, n: int, x: real)
    ensures Tree(c) == Some(Literal(Int(n))) ==> Tree(MinusForm(c)) == Some(Literal(Int(-n)))
    ensures Tree(c) == Some(Literal(Float(x))) ==> Tree(MinusForm(c)) == Some(Literal(Float(-x)))
    ensures Tree(c) == Some(Literal(Bool(true))) ==> Tree(MinusForm(c)) == Some(Literal(Int(-1)))
    ensures Tree(c) == Some(Literal(Bool(false))) ==> Tree(MinusForm(c)) == Some(Literal(Int(0)))
    ensures Tree(c).Some? && (!Tree(c).value.Literal? || Tree(c).value.value.Null? || Tree(c).value.value.Text?) ==>
      Tree(MinusForm(c)).None?
  {
  }
}
