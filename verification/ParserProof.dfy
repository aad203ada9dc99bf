/** The parser accepts exactly the forms of the grammar, with their trees. */
module ParserProof {
  import opened Sequences
  import opened Expr
  import opened Grammar
  import opened ParserSpec

  /* ---------- every form is parsed to its tree ---------- */

  /** The parser at `level`, started on `c`, returns its tree and stops behind it. */
  ghost predicate Reads(level: nat, ts: seq<Token>, p: nat, c: Form) {
    AtToken(ts, p) && Good(c) && Parse(level, ts, p) == Ok(Tree(c).value, p + |Yield(c)|)
  }

  ghost predicate Stands(ts: seq<Token>, p: nat, c: Form) {
    AtToken(ts, p) && Good(c) && Here(ts, p, Yield(c))
  }

  function After(p: nat, c: Form): nat { p + |Yield(c)| }

  /** Reading a primary. */
  lemma {:induction false} PrimaryComplete(ts: seq<Token>, p: nat, c: Form)
    requires Stands(ts, p, c) && Level(c) == 0 && Stops(0, c, ts[After(p, c)])
    ensures Reads(0, ts, p, c)
    decreases c, 0
  {
    if c.ParenForm? {
      ParenComplete(ts, p, c.inner);
    } else if c.MinusForm? {
      MinusComplete(ts, p, c.inner);
    } else if c.CallForm? {
      CallComplete(ts, p, c);
    } else if c.DottedForm? {
      assert ts[p] == ts[p..p + 3][0] && ts[p + 1] == ts[p..p + 3][1] && ts[p + 2] == ts[p..p + 3][2];
    } else {
      AtomComplete(ts, p, c);
    }
  }

  /** Forms of one token. */
  predicate Atom(c: Form) {
    c.NumForm? || c.DecForm? || c.StrForm? || c.WordForm? || c.StarForm? || c.NameForm?
  }

  lemma AtomComplete(ts: seq<Token>, p: nat, c: Form)
    requires Stands(ts, p, c) && Atom(c) && Stops(0, c, ts[After(p, c)])
    ensures Reads(0, ts, p, c)
  {
    assert ts[p] == ts[p..p + 1][0] == Yield(c)[0];
  }

  lemma MinusGood(x: Form)
    requires Good(MinusForm(x))
    ensures Good(x) && Level(x) == 0 && !x.NameForm? && Tree(MinusForm(x)) == NegateTree(Some(Tree(x).value))
  {
    assert Tree(MinusForm(x)) == NegateTree(Tree(x));
  }

  lemma ParenHere(ts: seq<Token>, p: nat, x: Form)
    ensures Here(ts, p, Yield(ParenForm(x))) <==>
      && p < |ts| && ts[p] == Op("(") && Here(ts, p + 1, Yield(x))
      && After(p + 1, x) + 1 < |ts| && ts[After(p + 1, x)] == Op(")")
    ensures After(p, ParenForm(x)) == After(p + 1, x) + 1
  {
    var a := Yield(x);
    assert Yield(ParenForm(x)) == [Op("(")] + (a + [Op(")")]);
    HerePrefix(ts, p, Op("("), a + [Op(")")]);
    HereConcat(ts, p + 1, a, [Op(")")]);
    HereOne(ts, p + 1 + |a|, Op(")"));
  }

  lemma {:induction false} ParenComplete(ts: seq<Token>, p: nat, x: Form)
    requires Stands(ts, p, ParenForm(x))
    ensures Reads(0, ts, p, ParenForm(x))
    decreases x, 6
  {
    ParenHere(ts, p, x);
    ExprComplete(ts, p + 1, x);
  }

  lemma {:induction false} MinusComplete(ts: seq<Token>, p: nat, x: Form)
    requires Stands(ts, p, MinusForm(x))
    ensures Reads(0, ts, p, MinusForm(x))
    decreases x, 6
  {
    HerePrefix(ts, p, Op("-"), Yield(x));
    MinusGood(x);
    PrimaryComplete(ts, p + 1, x);
    assert ParsePrimary(ts, p) == ParseMinus(ts, p);
  }

  lemma {:induction false} CallComplete(ts: seq<Token>, p: nat, c: Form)
    requires Stands(ts, p, c) && c.CallForm?
    ensures Reads(0, ts, p, c)
    decreases c.arg, 6
  {
    CallHere(ts, p, c);
    assert ts[p + 2] == ts[p + 2..After(p + 2, c.arg)][0] == Yield(c.arg)[0];
    if c.arg != StarForm { ExprComplete(ts, p + 2, c.arg); }
    CallSteps(ts, p, c);
    assert Tree(c) == Some(Call(Upper(c.name), Tree(c.arg).value));
  }

  lemma CallGood(c: Form)
    requires c.CallForm? && Good(c.arg)
    requires Yield(c.arg)[0] == Op("*") ==> c.arg == StarForm && !c.extraStar
    requires c.extraStar ==> Tree(c.arg) == Some(Star)
    ensures Good(c) && Tree(c) == Some(Call(Upper(c.name), Tree(c.arg).value))
  {
  }

  /** The brackets of a call around its argument. */
  ghost predicate Bracketed(ts: seq<Token>, p: nat, c: Form)
    requires c.CallForm?
  {
    var q := After(p + 2, c.arg);
    && p + 1 < |ts| && ts[p] == Ident(c.name) && ts[p + 1] == Op("(")
    && Here(ts, p + 2, Yield(c.arg))
    && (if c.extraStar then q + 2 < |ts| && ts[q] == Op("*") && ts[q + 1] == Op(")")
        else q + 1 < |ts| && ts[q] == Op(")"))
  }

  lemma CallHere(ts: seq<Token>, p: nat, c: Form)
    requires c.CallForm?
    ensures Here(ts, p, Yield(c)) <==> Bracketed(ts, p, c)
    ensures After(p, c) == After(p + 2, c.arg) + if c.extraStar then 2 else 1
  {
    CallYield(c);
    CallParts(ts, p, c.name, Yield(c.arg), Close(c.extraStar));
    CloseHere(ts, After(p + 2, c.arg), c.extraStar);
  }

  lemma CallParts(ts: seq<Token>, p: nat, name: string, ys: seq<Token>, close: seq<Token>)
    requires close != []
    ensures Here(ts, p, [Ident(name)] + ([Op("(")] + (ys + close)))
       <==> p + 1 < |ts| && ts[p] == Ident(name) && ts[p + 1] == Op("(")
            && Here(ts, p + 2, ys) && Here(ts, p + 2 + |ys|, close)
  {
    HerePrefix(ts, p, Ident(name), [Op("(")] + (ys + close));
    HerePrefix(ts, p + 1, Op("("), ys + close);
    HereConcat(ts, p + 2, ys, close);
  }

  function Close(extraStar: bool): seq<Token> {
    if extraStar then [Op("*")] + [Op(")")] else [Op(")")]
  }

  lemma CallYield(c: Form)
    requires c.CallForm?
    ensures Yield(c) == [Ident(c.name)] + ([Op("(")] + (Yield(c.arg) + Close(c.extraStar)))
    ensures |Yield(c)| == 2 + |Yield(c.arg)| + if c.extraStar then 2 else 1
  {
    assert Close(c.extraStar) == if c.extraStar then [Op("*"), Op(")")] else [Op(")")];
  }

  lemma CloseHere(ts: seq<Token>, q: nat, extraStar: bool)
    ensures Here(ts, q, Close(extraStar)) <==>
      if extraStar then q + 2 < |ts| && ts[q] == Op("*") && ts[q + 1] == Op(")") else q + 1 < |ts| && ts[q] == Op(")")
  {
    HerePrefix(ts, q, Op("*"), [Op(")")]);
    HereOne(ts, q + 1, Op(")"));
    HereOne(ts, q, Op(")"));
  }

  lemma CallSteps(ts: seq<Token>, p: nat, c: Form)
    requires AtToken(ts, p) && c.CallForm? && Good(c) && Bracketed(ts, p, c)
    requires ts[p + 2] == Yield(c.arg)[0]
    requires c.arg != StarForm ==> ParseOr(ts, p + 2) == Ok(Tree(c.arg).value, After(p + 2, c.arg))
    ensures ParsePrimary(ts, p)
         == Ok(Call(Upper(c.name), Tree(c.arg).value), After(p + 2, c.arg) + if c.extraStar then 2 else 1)
  {
    assert ParsePrimary(ts, p) == ParseCall(ts, p);
  }

  /** The middle token of a two-sided form. */
  function Middle(c: Form): Token
    requires Infix(c)
  {
    if c.CmpForm? then Op(c.op) else if c.AndForm? then Keyword("AND") else Keyword("OR")
  }

  predicate Infix(c: Form) { c.CmpForm? || c.AndForm? || c.OrForm? }

  lemma InfixYield(c: Form)
    requires Infix(c)
    ensures Yield(c) == Yield(c.left) + [Middle(c)] + Yield(c.right)
    ensures Good(c) ==> Good(c.left) && Good(c.right)
  {
  }

  /** A two-sided form stands where its left side, its operator and its right side stand. */
  lemma InfixParts(ts: seq<Token>, p: nat, c: Form)
    requires Infix(c) && AtToken(ts, p) && Good(c)
    ensures var m := After(p, c.left);
            Stands(ts, p, c) <==> Stands(ts, p, c.left) && ts[m] == Middle(c) && Stands(ts, m + 1, c.right)
    ensures After(p, c) == After(After(p, c.left) + 1, c.right)
  {
    InfixYield(c);
    var a, t, b := Yield(c.left), Middle(c), Yield(c.right);
    HereInfix(ts, p, a, t, b);
    assert |a + [t] + b| == |a| + 1 + |b|;
  }

  lemma FirstToken(c: Form)
    requires Formed(c) && Level(c) <= 1
    ensures Yield(c)[0] != Keyword("NOT")
  {
  }

  lemma {:induction false} ComparisonComplete(ts: seq<Token>, p: nat, c: Form)
    requires Level(c) <= 1 && Stands(ts, p, c) && Stops(1, c, ts[After(p, c)])
    ensures Reads(1, ts, p, c)
    decreases c, 1
  {
    if c.CmpForm? {
      InfixParts(ts, p, c);
      PrimaryComplete(ts, p, c.left);
      PrimaryComplete(ts, After(p, c.left) + 1, c.right);
      ComparisonReads(ts, p, c);
    } else {
      PrimaryComplete(ts, p, c);
    }
  }

  lemma ComparisonReads(ts: seq<Token>, p: nat, c: Form)
    requires c.CmpForm? && Stands(ts, p, c) && Reads(0, ts, p, c.left) && Reads(0, ts, After(p, c.left) + 1, c.right)
    requires ts[After(p, c.left)] == Middle(c) && After(p, c) == After(After(p, c.left) + 1, c.right)
    ensures Reads(1, ts, p, c)
  {
  }

  lemma {:induction false} NotComplete(ts: seq<Token>, p: nat, c: Form)
    requires Level(c) <= 2 && Stands(ts, p, c) && Stops(2, c, ts[After(p, c)])
    ensures Reads(2, ts, p, c)
    decreases c, 2
  {
    if c.NotForm? {
      HerePrefix(ts, p, Keyword("NOT"), Yield(c.operand));
      NotComplete(ts, p + 1, c.operand);
    } else {
      FirstToken(c);
      assert ts[p] == ts[p..After(p, c)][0];
      ComparisonComplete(ts, p, c);
    }
  }

  /** Having read an AND chain the parser stands in its loop, whatever follows. */
  lemma {:induction false} AndRuns(ts: seq<Token>, p: nat, c: Form)
    requires Level(c) <= 3 && Stands(ts, p, c) && Stops(2, c, ts[After(p, c)])
    ensures ParseAnd(ts, p) == AndTail(ts, After(p, c), Tree(c).value)
    decreases c, 3
  {
    if c.AndForm? {
      InfixParts(ts, p, c);
      AndRuns(ts, p, c.left);
      NotComplete(ts, After(p, c.left) + 1, c.right);
      AndReads(ts, p, c);
    } else {
      NotComplete(ts, p, c);
    }
  }

  lemma AndReads(ts: seq<Token>, p: nat, c: Form)
    requires c.AndForm? && Stands(ts, p, c) && Stands(ts, p, c.left) && ts[After(p, c.left)] == Middle(c)
    requires ParseAnd(ts, p) == AndTail(ts, After(p, c.left), Tree(c.left).value)
    requires Reads(2, ts, After(p, c.left) + 1, c.right) && After(p, c) == After(After(p, c.left) + 1, c.right)
    ensures ParseAnd(ts, p) == AndTail(ts, After(p, c), Tree(c).value)
  {
  }

  lemma {:induction false} OrRuns(ts: seq<Token>, p: nat, c: Form)
    requires Stands(ts, p, c) && Stops(3, c, ts[After(p, c)])
    ensures ParseOr(ts, p) == OrTail(ts, After(p, c), Tree(c).value)
    decreases c, 4
  {
    if c.OrForm? {
      InfixParts(ts, p, c);
      OrRuns(ts, p, c.left);
      AndRuns(ts, After(p, c.left) + 1, c.right);
    } else {
      AndRuns(ts, p, c);
    }
  }

  /** Reading a whole expression. */
  lemma {:induction false} ExprComplete(ts: seq<Token>, p: nat, c: Form)
    requires Stands(ts, p, c) && Stops(4, c, ts[After(p, c)])
    ensures ParseOr(ts, p) == Ok(Tree(c).value, After(p, c))
    decreases c, 5
  {
    OrRuns(ts, p, c);
  }

  /* ---------- whatever is parsed is a form ---------- */

  /** `c` is what the parser read at `level` from `p` to `q`, as the tree `e`. */
  ghost predicate Found(level: nat, ts: seq<Token>, p: nat, q: nat, e: Expr, c: Form) {
    Stands(ts, p, c) && Level(c) <= level && Tree(c) == Some(e) && After(p, c) == q && Stops(level, c, ts[q])
  }

  lemma {:induction false} PrimarySound(ts: seq<Token>, p: nat) returns (c: Form)
    requires AtToken(ts, p) && ParsePrimary(ts, p).Ok?
    ensures Found(0, ts, p, ParsePrimary(ts, p).next, ParsePrimary(ts, p).tree, c)
    decreases |ts| - p, 0, 1
  {
    if ts[p] == Op("-") {
      var x := PrimarySound(ts, p + 1);
      c := MinusForm(x);
      HerePrefix(ts, p, Op("-"), Yield(x));
    } else if ts[p] == Op("(") {
      var x := OrSound(ts, p + 1);
      c := ParenForm(x);
      ParenHere(ts, p, x);
    } else if ts[p].Ident? && ts[p + 1] == Op("(") {
      c := CallSound(ts, p);
    } else if ts[p].Ident? && ts[p + 1] == Op(".") {
      c := DottedForm(ts[p].text, ts[p + 2].text);
      assert ts[p..p + 3] == Yield(c);
    } else {
      c := AtomSound(ts, p);
    }
  }

  lemma AtomSound(ts: seq<Token>, p: nat) returns (c: Form)
    requires AtToken(ts, p) && ParsePrimary(ts, p).Ok? && ts[p] != Op("-") && ts[p] != Op("(")
    requires ts[p].Ident? ==> ts[p + 1] != Op("(") && ts[p + 1] != Op(".")
    ensures Found(0, ts, p, ParsePrimary(ts, p).next, ParsePrimary(ts, p).tree, c)
  {
    var t := ts[p];
    c := match t
      case Whole(n) => NumForm(n)
      case Decimal(x) => DecForm(x)
      case Str(s) => StrForm(s)
      case Ident(s) => NameForm(s)
      case Keyword(k) => WordForm(if k == "TRUE" then Bool(true) else if k == "FALSE" then Bool(false) else Null)
      case _ => StarForm;
    HereOne(ts, p, t);
    assert Yield(c) == [t];
  }

  lemma {:induction false} CallSound(ts: seq<Token>, p: nat) returns (c: Form)
    requires AtToken(ts, p) && ts[p].Ident? && p + 1 < |ts| && ts[p + 1] == Op("(") && ParseCall(ts, p).Ok?
    ensures c.CallForm? && Found(0, ts, p, ParseCall(ts, p).next, ParseCall(ts, p).tree, c)
    decreases |ts| - p, 0, 0
  {
    if ts[p + 2] == Op("*") {
      HereOne(ts, p + 2, Op("*"));
      c := CallForm(ts[p].text, StarForm, false);
      assert After(p + 2, StarForm) == p + 3;
    } else {
      var x := OrSound(ts, p + 2);
      assert ts[p + 2] == ts[p + 2..After(p + 2, x)][0];
      c := CallForm(ts[p].text, x, Tree(x) == Some(Star) && ts[After(p + 2, x)] == Op("*"));
    }
    assert Bracketed(ts, p, c);
    CallGood(c);
    CallHere(ts, p, c);
  }

  lemma {:induction false} ComparisonSound(ts: seq<Token>, p: nat) returns (c: Form)
    requires AtToken(ts, p) && ParseComparison(ts, p).Ok?
    ensures Found(1, ts, p, ParseComparison(ts, p).next, ParseComparison(ts, p).tree, c)
    decreases |ts| - p, 1, 0
  {
    var l := PrimarySound(ts, p);
    var q := After(p, l);
    if IsComparison(ts[q]) {
      var r := PrimarySound(ts, q + 1);
      c := CmpForm(ts[q].text, l, r);
      InfixParts(ts, p, c);
    } else {
      c := l;
    }
  }

  lemma {:induction false} NotSound(ts: seq<Token>, p: nat) returns (c: Form)
    requires AtToken(ts, p) && ParseNot(ts, p).Ok?
    ensures Found(2, ts, p, ParseNot(ts, p).next, ParseNot(ts, p).tree, c)
    decreases |ts| - p, 2, 0
  {
    if ts[p] == Keyword("NOT") {
      var x := NotSound(ts, p + 1);
      c := NotForm(x);
      HerePrefix(ts, p, Keyword("NOT"), Yield(x));
    } else {
      c := ComparisonSound(ts, p);
    }
  }

  lemma {:induction false} AndTailSound(ts: seq<Token>, p: nat, q: nat, e: Expr, l: Form) returns (c: Form)
    requires AtToken(ts, p) && p < q < |ts| && Stands(ts, p, l) && Level(l) <= 3 && Tree(l) == Some(e)
    requires After(p, l) == q && Stops(2, l, ts[q]) && AndTail(ts, q, e).Ok?
    ensures Found(3, ts, p, AndTail(ts, q, e).next, AndTail(ts, q, e).tree, c)
    decreases |ts| - q, 3, 1
  {
    if ts[q] == Keyword("AND") {
      var r := NotSound(ts, q + 1);
      InfixParts(ts, p, AndForm(l, r));
      c := AndTailSound(ts, p, After(q + 1, r), Binary("AND", e, Tree(r).value), AndForm(l, r));
    } else {
      c := l;
    }
  }

  lemma {:induction false} AndSound(ts: seq<Token>, p: nat) returns (c: Form)
    requires AtToken(ts, p) && ParseAnd(ts, p).Ok?
    ensures Found(3, ts, p, ParseAnd(ts, p).next, ParseAnd(ts, p).tree, c)
    decreases |ts| - p, 3, 0
  {
    var l := NotSound(ts, p);
    c := AndTailSound(ts, p, After(p, l), Tree(l).value, l);
  }

  lemma {:induction false} OrTailSound(ts: seq<Token>, p: nat, q: nat, e: Expr, l: Form) returns (c: Form)
    requires AtToken(ts, p) && p < q < |ts| && Stands(ts, p, l) && Tree(l) == Some(e)
    requires After(p, l) == q && Stops(3, l, ts[q]) && OrTail(ts, q, e).Ok?
    ensures Found(4, ts, p, OrTail(ts, q, e).next, OrTail(ts, q, e).tree, c)
    decreases |ts| - q, 4, 1
  {
    if ts[q] == Keyword("OR") {
      var r := AndSound(ts, q + 1);
      InfixParts(ts, p, OrForm(l, r));
      c := OrTailSound(ts, p, After(q + 1, r), Binary("OR", e, Tree(r).value), OrForm(l, r));
    } else {
      c := l;
    }
  }

  lemma {:induction false} OrSound(ts: seq<Token>, p: nat) returns (c: Form)
    requires AtToken(ts, p) && ParseOr(ts, p).Ok?
    ensures Found(4, ts, p, ParseOr(ts, p).next, ParseOr(ts, p).tree, c)
    decreases |ts| - p, 4, 0
  {
    var l := AndSound(ts, p);
    c := OrTailSound(ts, p, After(p, l), Tree(l).value, l);
  }

  /* ---------- main results ---------- */

  /** The parser reads tree `e` from `p` up to `q` exactly when those tokens are a form
      of `e` that the token at `q` does not continue. */
  lemma ParsesExactlyTheGrammar(ts: seq<Token>, p: nat, q: nat, e: Expr)
    requires AtToken(ts, p)
    ensures ParseOr(ts, p) == Ok(e, q) <==> exists c :: Found(4, ts, p, q, e, c)
  {
    if ParseOr(ts, p) == Ok(e, q) { var c := OrSound(ts, p); }
    if c :| Found(4, ts, p, q, e, c) { ExprComplete(ts, p, c); }
  }

  lemma FormInPlace(before: seq<Token>, c: Form, behind: seq<Token>)
    requires Good(c) && behind != [] && behind[|behind| - 1] == Eof
    ensures var ts := before + Yield(c) + behind;
            Stands(ts, |before|, c) && ts[After(|before|, c)] == behind[0]
  {
    MiddleSlice(before, Yield(c), behind);
  }

  lemma ReadAlone(c: Form)
    requires Good(c)
    ensures ParseOr(Yield(c) + [Eof], 0) == Ok(Tree(c).value, |Yield(c)|)
  {
    FormInPlace([], c, [Eof]);
    assert [] + Yield(c) + [Eof] == Yield(c) + [Eof];
    ExprComplete(Yield(c) + [Eof], 0, c);
  }

  /** No token list has two readings. */
  lemma Unambiguous(a: Form, b: Form)
    requires Good(a) && Good(b) && Yield(a) == Yield(b)
    ensures Tree(a) == Tree(b)
  {
    ReadAlone(a);
    ReadAlone(b);
  }

  /** Printing a tree and parsing it again, in any surroundings, gives the tree back. */
  lemma RoundTrip(before: seq<Token>, e: Expr, behind: seq<Token>)
    requires Printable(e) && behind != [] && behind[|behind| - 1] == Eof && Stops(4, Print(e), behind[0])
    ensures var ts := before + Yield(Print(e)) + behind;
            ParseOr(ts, |before|) == Ok(e, |before| + |Yield(Print(e))|)
  {
    var c := Print(e);
    PrintGood(e);
    FormInPlace(before, c, behind);
    ExprComplete(before + Yield(c) + behind, |before|, c);
  }

  /** What the parser returns can be printed: parsing is onto the printable trees and nothing else. */
  lemma ParsedIsPrintable(ts: seq<Token>, p: nat)
    requires AtToken(ts, p) && ParseOr(ts, p).Ok?
    ensures Printable(ParseOr(ts, p).tree)
  {
    var c := OrSound(ts, p);
    TreePrintable(c);
  }
}
