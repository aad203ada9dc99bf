/** The expression grammar as concrete syntax: what each form looks like in tokens,
    and which tree it stands for. */
module Grammar {
  import opened Sequences
  import opened Expr

  /** What a NUMBER with a point denotes. */
  type Amount = r: real | r >= 0.0

  datatype Token =
    | Keyword(text: string)
    | Ident(text: string)
    | Whole(n: nat)
    | Decimal(r: Amount)
    | Str(text: string)
    | Op(text: string)
    | Eof

  const Comparisons: seq<string> := ["=", "<>", "!=", "<", "<=", ">", ">="]

  predicate IsComparison(t: Token) {
    t.Op? && t.text in Comparisons
  }

  /** `!=` is another spelling of `<>`. */
  function Canonical(op: string): string {
    if op == "!=" then "<>" else op
  }

  function UpperChar(c: char): char {
    if 'a' <= c <= 'z' then c - 'a' + 'A' else c
  }

  function Upper(s: string): (r: string)
    ensures |r| == |s|
  {
    seq(|s|, i requires 0 <= i < |s| => UpperChar(s[i]))
  }

  /** A unary minus folds into a number; booleans are numbers too. */
  function Negate(v: Value): (r: Option<Value>) {
    match v
    case Int(n) => Some(Int(-n))
    case Float(x) => Some(Float(-x))
    case Bool(b) => Some(Int(if b then -1 else 0))
    case _ => None
  }

  datatype Form =
    | NumForm(n: nat)
    | DecForm(r: Amount)
    | StrForm(s: string)
    | WordForm(value: Value)
    | ParenForm(inner: Form)
    | StarForm
    | MinusForm(inner: Form)
    | NameForm(name: string)
    | DottedForm(table: string, name: string)
    | CallForm(name: string, arg: Form, extraStar: bool)
    | CmpForm(op: string, left: Form, right: Form)
    | NotForm(operand: Form)
    | AndForm(left: Form, right: Form)
    | OrForm(left: Form, right: Form)

  /** Primary 0, comparison 1, NOT 2, AND 3, OR 4. */
  function Level(c: Form): (l: nat)
    ensures l <= 4
  {
    match c
    case CmpForm(_, _, _) => 1
    case NotForm(_) => 2
    case AndForm(_, _) => 3
    case OrForm(_, _) => 4
    case _ => 0
  }

  function Word(v: Value): (t: Token) {
    Keyword(if v == Bool(true) then "TRUE" else if v == Bool(false) then "FALSE" else "NULL")
  }

  /** The tokens of a form. */
  function Yield(c: Form): (ts: seq<Token>)
    ensures |ts| > 0
  {
    match c
    case NumForm(n) => [Whole(n)]
    case DecForm(r) => [Decimal(r)]
    case StrForm(s) => [Str(s)]
    case WordForm(v) => [Word(v)]
    case ParenForm(x) => [Op("(")] + Yield(x) + [Op(")")]
    case StarForm => [Op("*")]
    case MinusForm(x) => [Op("-")] + Yield(x)
    case NameForm(s) => [Ident(s)]
    case DottedForm(t, s) => [Ident(t), Op("."), Ident(s)]
    case CallForm(f, x, extra) => [Ident(f), Op("(")] + Yield(x) + (if extra then [Op("*"), Op(")")] else [Op(")")])
    case CmpForm(op, l, r) => Yield(l) + [Op(op)] + Yield(r)
    case NotForm(x) => [Keyword("NOT")] + Yield(x)
    case AndForm(l, r) => Yield(l) + [Keyword("AND")] + Yield(r)
    case OrForm(l, r) => Yield(l) + [Keyword("OR")] + Yield(r)
  }

  /** The tree of a form; None where a minus stands before something else than a number. */
  function Tree(c: Form): (e: Option<Expr>) {
    match c
    case NumForm(n) => Some(Literal(Int(n)))
    case DecForm(r) => Some(Literal(Float(r)))
    case StrForm(s) => Some(Literal(Text(s)))
    case WordForm(v) => Some(Literal(v))
    case ParenForm(x) => Tree(x)
    case StarForm => Some(Star)
    case MinusForm(x) => NegateTree(Tree(x))
    case NameForm(s) => Some(Column(s, None))
    case DottedForm(t, s) => Some(Column(s, Some(t)))
    case CallForm(f, x, _) => (match Tree(x) case None => None case Some(e) => Some(Call(Upper(f), e)))
    case CmpForm(op, l, r) => Both(Canonical(op), Tree(l), Tree(r))
    case NotForm(x) => (match Tree(x) case None => None case Some(e) => Some(Unary("NOT", e)))
    case AndForm(l, r) => Both("AND", Tree(l), Tree(r))
    case OrForm(l, r) => Both("OR", Tree(l), Tree(r))
  }

  function Both(op: string, l: Option<Expr>, r: Option<Expr>): (e: Option<Expr>) {
    if l.None? || r.None? then None else Some(Binary(op, l.value, r.value))
  }

  function NegateTree(e: Option<Expr>): (r: Option<Expr>) {
    if e.None? || !e.value.Literal? then None
    else match Negate(e.value.value) case None => None case Some(v) => Some(Literal(v))
  }

  /** The grammar: which forms may stand where. */
  ghost predicate Formed(c: Form) {
    match c
    case WordForm(v) => v in {Bool(true), Bool(false), Null}
    case ParenForm(x) => Formed(x)
    case MinusForm(x) => Formed(x) && Level(x) == 0
    case CallForm(_, x, extra) =>
      && Formed(x)
      && (Yield(x)[0] == Op("*") ==> x == StarForm && !extra)
      && (extra ==> Tree(x) == Some(Star))
    case CmpForm(op, l, r) => op in Comparisons && Formed(l) && Formed(r) && Level(l) == 0 && Level(r) == 0
    case NotForm(x) => Formed(x) && Level(x) <= 2
    case AndForm(l, r) => Formed(l) && Formed(r) && Level(l) <= 3 && Level(r) <= 2
    case OrForm(l, r) => Formed(l) && Formed(r) && Level(r) <= 3
    case _ => true
  }

  /** A form the parser accepts. */
  ghost predicate Good(c: Form) {
    Formed(c) && Tree(c).Some?
  }

  /* ---------- what may follow ---------- */

  function LastComparison(c: Form): (r: Form)
    ensures Level(r) <= 1
  {
    match c
    case NotForm(x) => LastComparison(x)
    case AndForm(_, r) => LastComparison(r)
    case OrForm(_, r) => LastComparison(r)
    case _ => c
  }

  predicate ExtendsName(c: Form, t: Token) {
    c.NameForm? && t in [Op("("), Op(".")]
  }

  predicate ExtendsComparison(c: Form, t: Token) {
    if c.CmpForm? then ExtendsName(c.right, t) else ExtendsName(c, t) || IsComparison(t)
  }

  /** After `c`, parsed at level `level`, the parser stops in front of `t`. */
  predicate Stops(level: nat, c: Form, t: Token) {
    && (if level == 0 then !ExtendsName(c, t) else !ExtendsComparison(LastComparison(c), t))
    && (level >= 3 ==> t != Keyword("AND"))
    && (level >= 4 ==> t != Keyword("OR"))
  }

  /* ---------- printing ---------- */

  /** The trees SQL text can denote. */
  predicate Printable(e: Expr) {
    match e
    case Literal(_) => true
    case Column(_, _) => true
    case Star => true
    case Unary(op, x) => op == "NOT" && Printable(x)
    case Binary(op, l, r) => op in ["AND", "OR", "=", "<>", "<", "<=", ">", ">="] && Printable(l) && Printable(r)
    case Call(f, x) => Upper(f) == f && Printable(x)
  }

  function Wrap(c: Form, level: nat): (r: Form)
    ensures Level(r) <= level
    ensures Tree(r) == Tree(c)
  {
    if Level(c) <= level then c else ParenForm(c)
  }

  function PrintNumber(v: Value): (c: Form)
    requires v.Int? || v.Float?
  {
    match v
    case Int(n) => if n >= 0 then NumForm(n) else MinusForm(NumForm(-n))
    case Float(r) => if r >= 0.0 then DecForm(r) else MinusForm(DecForm(-r))
  }

  /** An argument that only begins with a star has to be parenthesised. */
  function WrapArgument(c: Form): (r: Form)
    ensures Tree(r) == Tree(c)
  {
    if Yield(c)[0] == Op("*") && c != StarForm then ParenForm(c) else c
  }

  /** Print with parentheses only where the grammar needs them. */
  function Print(e: Expr): (c: Form)
    requires Printable(e)
  {
    match e
    case Literal(v) =>
      (match v
       case Int(_) => PrintNumber(v)
       case Float(_) => PrintNumber(v)
       case Text(s) => StrForm(s)
       case _ => WordForm(v))
    case Column(s, None) => NameForm(s)
    case Column(s, Some(t)) => DottedForm(t, s)
    case Star => StarForm
    case Unary(_, x) => NotForm(Wrap(Print(x), 2))
    case Binary(op, l, r) =>
      if op == "AND" then AndForm(Wrap(Print(l), 3), Wrap(Print(r), 2))
      else if op == "OR" then OrForm(Print(l), Wrap(Print(r), 3))
      else CmpForm(op, Wrap(Print(l), 0), Wrap(Print(r), 0))
    case Call(f, x) => CallForm(f, WrapArgument(Print(x)), false)
  }

  lemma {:induction false} PrintGood(e: Expr)
    requires Printable(e)
    ensures Formed(Print(e)) && Tree(Print(e)) == Some(e)
  {
    match e
    case Literal(v) => PrintLiteral(v);
    case Unary(_, x) => PrintGood(x);
    case Binary(op, l, r) =>
      PrintGood(l);
      PrintGood(r);
      PrintBinary(op, l, r);
    case Call(f, x) => PrintGood(x);
    case _ =>
  }

  lemma PrintBinary(op: string, l: Expr, r: Expr)
    requires Printable(Binary(op, l, r))
    requires Formed(Print(l)) && Tree(Print(l)) == Some(l) && Formed(Print(r)) && Tree(Print(r)) == Some(r)
    ensures Formed(Print(Binary(op, l, r))) && Tree(Print(Binary(op, l, r))) == Some(Binary(op, l, r))
  {
  }

  lemma PrintLiteral(v: Value)
    ensures Formed(Print(Literal(v))) && Tree(Print(Literal(v))) == Some(Literal(v))
  {
    if v.Int? && v.n < 0 { assert Tree(NumForm(-v.n)) == Some(Literal(Int(-v.n))); }
    if v.Float? && v.r < 0.0 { assert Tree(DecForm(-v.r)) == Some(Literal(Float(-v.r))); }
  }

  /** Every tree a form stands for is printable. */
  lemma {:induction false} TreePrintable(c: Form)
    requires Good(c)
    ensures Printable(Tree(c).value)
  {
    match c
    case ParenForm(x) => TreePrintable(x);
    case CallForm(f, x, _) => TreePrintable(x); UpperTwice(f);
    case CmpForm(op, l, r) => TreePrintable(l); TreePrintable(r);
    case NotForm(x) => TreePrintable(x);
    case AndForm(l, r) => TreePrintable(l); TreePrintable(r);
    case OrForm(l, r) => TreePrintable(l); TreePrintable(r);
    case _ =>
  }

  lemma UpperTwice(s: string)
    ensures Upper(Upper(s)) == Upper(s)
  {
    forall i | 0 <= i < |s| ensures UpperChar(UpperChar(s[i])) == UpperChar(s[i]) { }
  }
}
