/** Column types: what a literal becomes when a row is stored, and which rows can be. */
module Schema {
  import opened Sequences
  import opened Expr
  import opened Bytes

  type Tuple = seq<Value>

  datatype ColumnType = INT | FLOAT | TEXT | BOOL

  /** Python's own conversions: `int(text)`, `float(text)` (None when they raise) and `str(value)`. */
  datatype Casts = Casts(intOf: string -> Option<int>, floatOf: string -> Option<real>, textOf: Value -> string)

  function InWord(n: int): (v: Option<Value>) {
    if -TWO_63 <= n < TWO_63 then Some(Int(n)) else None
  }

  /** `int(x)` drops the fraction. */
  function Truncate(x: real): (n: int)
    ensures x >= 0.0 ==> n as real <= x < n as real + 1.0
    ensures x < 0.0 ==> n as real - 1.0 < x <= n as real
  {
    if x >= 0.0 then x.Floor else -((-x).Floor)
  }

  /** `encode_value` followed by `decode_value`: what is stored for `v` in a column of
      type `t`; None when encoding raises. */
  function Coerce(c: Casts, t: ColumnType, v: Value): (r: Option<Value>) {
    match t
    case INT =>
      (match v
       case Null => None
       case Text(s) => (match c.intOf(s) case None => None case Some(n) => InWord(n))
       case _ => InWord(Truncate(Number(v))))
    case FLOAT =>
      (match v
       case Null => None
       case Text(s) => (match c.floatOf(s) case None => None case Some(x) => Some(Float(x)))
       case _ => Some(Float(Number(v))))
    case BOOL => Some(Bool(Truthy(v)))
    case TEXT =>
      var s := if v.Text? then v.s else c.textOf(v);
      if |s| > 0xFFFF then None else Some(Text(s))
  }

  predicate HasType(t: ColumnType, v: Value) {
    match t
    case INT => v.Int? && -TWO_63 <= v.n < TWO_63
    case FLOAT => v.Float?
    case BOOL => v.Bool?
    case TEXT => v.Text? && |v.s| <= 0xFFFF
  }

  /** Storing gives a value of the column's type, and changes no value that has it. */
  lemma CoerceTyped(c: Casts, t: ColumnType, v: Value)
    ensures Coerce(c, t, v).Some? ==> HasType(t, Coerce(c, t, v).value)
    ensures HasType(t, v) ==> Coerce(c, t, v) == Some(v)
  {
    if t == INT && v.Int? { assert Truncate(Number(v)) == v.n; }
  }

  /** What numbers become: an integer column drops the fraction and takes 64 bits, a real column
      keeps the amount; NULL has none. */
  lemma NumbersStored(c: Casts, n: int, x: real, b: bool)
    ensures Coerce(c, INT, Int(n)) == if -TWO_63 <= n < TWO_63 then Some(Int(n)) else None
    ensures Coerce(c, INT, Bool(b)) == Some(Int(if b then 1 else 0))
    ensures Coerce(c, INT, Float(x)).Some? <==> -(TWO_63 as real) - 1.0 < x < TWO_63 as real
    ensures var r := Coerce(c, INT, Float(x));
            r.Some? ==>
              && r.value.Int? && (x >= 0.0 ==> r.value.n as real <= x < (r.value.n + 1) as real)
              && (x < 0.0 ==> (r.value.n - 1) as real < x <= r.value.n as real)
    ensures Coerce(c, FLOAT, Int(n)) == Some(Float(n as real)) && Coerce(c, FLOAT, Float(x)) == Some(Float(x))
    ensures Coerce(c, FLOAT, Bool(b)) == Some(Float(if b then 1.0 else 0.0))
    ensures Coerce(c, INT, Null) == None && Coerce(c, FLOAT, Null) == None
  {
    assert Truncate(n as real) == n;
    if b { assert Truncate(1.0) == 1; } else { assert Truncate(0.0) == 0; }
  }

  /** What a text or boolean column makes of a value. */
  lemma OthersStored(c: Casts, v: Value, s: string)
    ensures Coerce(c, BOOL, v) == Some(Bool(v !in {Null, Bool(false), Int(0), Float(0.0), Text("")}))
    ensures Coerce(c, TEXT, Text(s)) == if |s| <= 65535 then Some(Text(s)) else None
    ensures !v.Text? ==> Coerce(c, TEXT, v) == if |c.textOf(v)| <= 65535 then Some(Text(c.textOf(v))) else None
    ensures Coerce(c, INT, Text(s)).Some? <==> c.intOf(s).Some? && -TWO_63 <= c.intOf(s).value < TWO_63
    ensures Coerce(c, INT, Text(s)).Some? ==> Coerce(c, INT, Text(s)).value == Int(c.intOf(s).value)
    ensures Coerce(c, FLOAT, Text(s)) == if c.floatOf(s).Some? then Some(Float(c.floatOf(s).value)) else None
  {
  }

  predicate TypedRow(types: seq<ColumnType>, row: Tuple) {
    |row| == |types| && forall i :: 0 <= i < |row| ==> HasType(types[i], row[i])
  }

  /** The bytes of a stored value. */
  function Width(v: Value): (n: nat) {
    match v
    case Bool(_) => 1
    case Text(s) => 2 + |s|
    case _ => 8
  }

  function PayloadSize(row: Tuple): (n: nat) {
    if row == [] then 0 else Width(row[0]) + PayloadSize(row[1..])
  }

  /** The most a tuple may have besides its eight header bytes: page size less page header,
      slot and tuple header. */
  const MAX_PAYLOAD := 4096 - 9 - 4 - 8

  function CoerceAll(c: Casts, types: seq<ColumnType>, row: Tuple): (r: Option<Tuple>)
    requires |row| == |types|
    ensures r.Some? ==> |r.value| == |row|
  {
    if row == [] then Some([])
    else
      match Coerce(c, types[0], row[0])
      case None => None
      case Some(v) => (match CoerceAll(c, types[1..], row[1..]) case None => None case Some(rest) => Some([v] + rest))
  }

  /** `encode_row` and the heap's size check: the tuple that is stored, or None when one of
      the two raises. */
  function StoredRow(c: Casts, types: seq<ColumnType>, row: Tuple): (r: Option<Tuple>)
    requires |row| == |types|
    ensures r.Some? ==> |r.value| == |row|
  {
    match CoerceAll(c, types, row)
    case None => None
    case Some(stored) => if PayloadSize(stored) <= MAX_PAYLOAD then Some(stored) else None
  }

  lemma {:induction false} CoerceAllAt(c: Casts, types: seq<ColumnType>, row: Tuple)
    requires |row| == |types|
    ensures CoerceAll(c, types, row).Some? <==> forall i :: 0 <= i < |row| ==> Coerce(c, types[i], row[i]).Some?
    ensures CoerceAll(c, types, row).Some? ==>
      forall i :: 0 <= i < |row| ==> Coerce(c, types[i], row[i]) == Some(CoerceAll(c, types, row).value[i])
    decreases |row|
  {
    if row != [] {
      CoerceAllAt(c, types[1..], row[1..]);
      assert forall i :: 1 <= i < |row| ==> row[i] == row[1..][i - 1] && types[i] == types[1..][i - 1];
    }
  }

  /** A stored row has the schema's types, value by value what its columns make of it. */
  lemma StoredIsTyped(c: Casts, types: seq<ColumnType>, row: Tuple)
    requires |row| == |types|
    ensures var r := StoredRow(c, types, row);
            r.Some? ==>
              && TypedRow(types, r.value)
              && forall i :: 0 <= i < |row| ==> Coerce(c, types[i], row[i]) == Some(r.value[i])
  {
    CoerceAllAt(c, types, row);
    if CoerceAll(c, types, row).Some? {
      forall i | 0 <= i < |row| ensures HasType(types[i], CoerceAll(c, types, row).value[i]) {
        CoerceTyped(c, types[i], row[i]);
      }
    }
  }

  /** Storing a stored row again changes nothing. */
  lemma StoredTwice(c: Casts, types: seq<ColumnType>, row: Tuple)
    requires |row| == |types| && StoredRow(c, types, row).Some?
    ensures var r := StoredRow(c, types, row).value; |r| == |types| && StoredRow(c, types, r) == Some(r)
  {
    var r := StoredRow(c, types, row).value;
    StoredIsTyped(c, types, row);
    forall i | 0 <= i < |r| ensures Coerce(c, types[i], r[i]) == Some(r[i]) { CoerceTyped(c, types[i], r[i]); }
    CoerceAllAt(c, types, r);
    assert CoerceAll(c, types, r).value == r;
  }
}
