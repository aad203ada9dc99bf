/** The write-ahead log as bytes: framing, cutting at any byte, and what replay
    takes from what is left. */
module Wal {
  import opened Sequences
  import opened Bytes

  datatype Kind = BEGIN | OP | COMMIT | ABORT | CHECKPOINT

  /** One log record; the payload is the encoded JSON text, empty for all but OP. */
  datatype Record = Record(kind: Kind, txn: nat, payload: seq<Byte>)

  predicate Loggable(r: Record) {
    r.txn < TWO_32 && |r.payload| < TWO_32
  }

  /** Which bodies `json.loads` accepts. */
  type Decoder = seq<Byte> -> bool

  /** What `json.dumps` writes is printable ASCII. */
  predicate Printable(s: seq<Byte>) {
    forall i :: 0 <= i < |s| ==> 0x20 <= s[i] <= 0x7E
  }

  /** A body that turns from printable text to a byte between 1 and 5. */
  ghost predicate Spoiled(s: seq<Byte>) {
    exists i :: 0 <= i < |s| && 1 <= s[i] <= 5 && Printable(s[..i])
  }

  /** JSON has no such text: these bytes are control characters, which it allows neither
      inside nor outside strings. */
  ghost predicate Honest(d: Decoder) {
    forall s :: Spoiled(s) ==> !d(s)
  }

  /** A payload that was written by `json.dumps`, or none. */
  predicate Written(d: Decoder, r: Record) {
    r.payload == [] || (Printable(r.payload) && d(r.payload))
  }

  ghost predicate AllWritten(d: Decoder, rs: seq<Record>) {
    forall i :: 0 <= i < |rs| ==> Written(d, rs[i])
  }

  function KindByte(k: Kind): (b: Byte) {
    match k
    case BEGIN => 1
    case OP => 2
    case COMMIT => 3
    case ABORT => 4
    case CHECKPOINT => 5
  }

  /** None stands for the ValueError of an unknown record type. */
  function ByteKind(b: Byte): (k: Option<Kind>)
    ensures k.Some? ==> KindByte(k.value) == b
    ensures 1 <= b <= 5 ==> k.Some?
  {
    match b
    case 1 => Some(BEGIN)
    case 2 => Some(OP)
    case 3 => Some(COMMIT)
    case 4 => Some(ABORT)
    case 5 => Some(CHECKPOINT)
    case _ => None
  }

  const HEADER := 9

  /** `_append`: header then body. */
  function Encode(r: Record): (s: seq<Byte>)
    requires Loggable(r)
    ensures |s| == HEADER + |r.payload|
  {
    [KindByte(r.kind)] + U32(r.txn) + U32(|r.payload|) + r.payload
  }

  ghost predicate AllLoggable(rs: seq<Record>) {
    forall i :: 0 <= i < |rs| ==> Loggable(rs[i])
  }

  function EncodeAll(rs: seq<Record>): (s: seq<Byte>)
    requires AllLoggable(rs)
  {
    if rs == [] then [] else Encode(rs[0]) + EncodeAll(rs[1..])
  }

  /** Whether a whole record starts the bytes. */
  predicate WholeFrame(s: seq<Byte>) {
    |s| >= HEADER && |s| >= HEADER + FromU32(s[5..9])
  }

  /** What the reading loop makes of a byte string: None when it raises, for a body that
      does not decode or an unknown record type. */
  function Parse(d: Decoder, s: seq<Byte>): (r: Option<seq<Record>>)
    decreases |s|
  {
    if !WholeFrame(s) then Some([])
    else
      var n := HEADER + FromU32(s[5..9]);
      if n > HEADER && !d(s[9..n]) then None
      else
        match ByteKind(s[0])
        case None => None
        case Some(k) => After([Record(k, FromU32(s[1..5]), s[9..n])], Parse(d, s[n..]))
  }

  /** Records read so far, then the rest. */
  function After(done: seq<Record>, rest: Option<seq<Record>>): (r: Option<seq<Record>>) {
    match rest case None => None case Some(t) => Some(done + t)
  }

  lemma AfterStep(done: seq<Record>, rec: Record, rest: Option<seq<Record>>)
    ensures After(done, After([rec], rest)) == After(done + [rec], rest)
    ensures After([], rest) == rest
  {
    if rest.Some? {
      Assoc(done, [rec], rest.value);
      assert [] + rest.value == rest.value;
    }
  }

  /** `_iter_records`: the loop with a moving offset. */
  method IterRecords(d: Decoder, log: seq<Byte>) returns (r: Option<seq<Record>>)
    ensures r == Parse(d, log)
  {
    var records: seq<Record> := [];
    var offset := 0;
    assert log[0..] == log;
    AfterStep([], Record(BEGIN, 0, []), Parse(d, log));
    while true
      invariant 0 <= offset <= |log|
      invariant Parse(d, log) == After(records, Parse(d, log[offset..]))
      decreases |log| - offset
    {
      var rest := log[offset..];
      if |log| - offset < HEADER {
        break;
      }
      var len := FromU32(log[offset + 5..offset + 9]);
      assert log[offset + 5..offset + 9] == rest[5..9];
      if |log| - (offset + HEADER) < len {
        break;
      }
      var next := offset + HEADER + len;
      assert rest[9..HEADER + len] == log[offset + 9..next];
      if len > 0 && !d(log[offset + 9..next]) {
        return None;
      }
      var kind := ByteKind(log[offset]);
      if kind.None? {
        return None;
      }
      ParseStep(d, log, offset);
      var rec := Record(kind.value, FromU32(log[offset + 1..offset + 5]), log[offset + 9..next]);
      AfterStep(records, rec, Parse(d, log[next..]));
      records := records + [rec];
      offset := next;
    }
    assert records + [] == records;
    return Some(records);
  }

  lemma ParseStep(d: Decoder, log: seq<Byte>, offset: nat)
    requires offset <= |log| && WholeFrame(log[offset..]) && ByteKind(log[offset]).Some?
    requires var len := FromU32(log[offset..][5..9]); len == 0 || d(log[offset + 9..offset + HEADER + len])
    ensures var rest := log[offset..];
            var next := offset + HEADER + FromU32(rest[5..9]);
            && rest[5..9] == log[offset + 5..offset + 9]
            && next <= |log|
            && var kind, txn := ByteKind(log[offset]).value, FromU32(log[offset + 1..offset + 5]);
               var rec := Record(kind, txn, log[offset + 9..next]);
               Parse(d, rest) == After([rec], Parse(d, log[next..]))
  {
    var rest := log[offset..];
    var n := HEADER + FromU32(rest[5..9]);
    assert rest[n..] == log[offset + n..];
    assert rest[1..5] == log[offset + 1..offset + 5];
    assert rest[9..n] == log[offset + 9..offset + n];
    assert rest[5..9] == log[offset + 5..offset + 9];
  }

  /* ---------- framing ---------- */

  lemma EncodeParts(r: Record, t: seq<Byte>)
    requires Loggable(r)
    ensures var s := Encode(r) + t;
            && |s| >= HEADER && s[0] == KindByte(r.kind)
            && s[1..5] == U32(r.txn) && s[5..9] == U32(|r.payload|)
            && s[9..HEADER + |r.payload|] == r.payload && s[HEADER + |r.payload|..] == t
  {
    var a, b, c := [KindByte(r.kind)], U32(r.txn), U32(|r.payload|);
    assert Encode(r) == a + b + c + r.payload;
  }

  /** A whole record is read back, and reading goes on after it. */
  lemma ParseEncode(d: Decoder, r: Record, t: seq<Byte>)
    requires Loggable(r) && Written(d, r)
    ensures Parse(d, Encode(r) + t) == After([r], Parse(d, t))
  {
    EncodeParts(r, t);
    assert ByteKind(KindByte(r.kind)) == Some(r.kind);
  }

  /** A record cut short is not read. */
  lemma ParseTorn(d: Decoder, r: Record, c: nat)
    requires Loggable(r) && c < |Encode(r)|
    ensures Parse(d, Encode(r)[..c]) == Some([])
  {
    var s := Encode(r)[..c];
    if c >= HEADER {
      EncodeParts(r, []);
      assert Encode(r) + [] == Encode(r);
      assert s[5..9] == Encode(r)[5..9];
    }
  }

  /** How many whole records survive when the log is cut after `c` bytes. */
  function Survivors(rs: seq<Record>, c: nat): (k: nat)
    requires AllLoggable(rs)
    ensures k <= |rs|
  {
    if rs == [] || c < |Encode(rs[0])| then 0 else 1 + Survivors(rs[1..], c - |Encode(rs[0])|)
  }

  /** It is the longest prefix that fits. */
  lemma {:induction false} SurvivorsLongest(rs: seq<Record>, c: nat, k: nat)
    requires AllLoggable(rs) && k <= |rs|
    ensures |EncodeAll(rs[..k])| <= c <==> k <= Survivors(rs, c)
    decreases |rs|
  {
    if k > 0 {
      assert rs[..k][0] == rs[0] && rs[..k][1..] == rs[1..][..k - 1];
      if |Encode(rs[0])| <= c {
        SurvivorsLongest(rs[1..], c - |Encode(rs[0])|, k - 1);
      }
    }
  }

  lemma CutStep(d: Decoder, r: Record, t: seq<Byte>, c: nat)
    requires Loggable(r) && Written(d, r) && c <= |Encode(r)| + |t|
    ensures Parse(d, (Encode(r) + t)[..c]) ==
            if c < |Encode(r)| then Some([]) else After([r], Parse(d, t[..c - |Encode(r)|]))
  {
    TakeConcat(Encode(r), t, c);
    if c < |Encode(r)| {
      ParseTorn(d, r, c);
    } else {
      ParseEncode(d, r, t[..c - |Encode(r)|]);
    }
  }

  /** For every log and every cut, reading yields exactly the records that
      survive whole, in order. */
  lemma {:induction false} ParseCut(d: Decoder, rs: seq<Record>, c: nat)
    requires AllLoggable(rs) && AllWritten(d, rs) && c <= |EncodeAll(rs)|
    ensures Parse(d, EncodeAll(rs)[..c]) == Some(rs[..Survivors(rs, c)])
    decreases |rs|
  {
    if rs == [] {
      assert EncodeAll(rs)[..c] == [] && rs[..0] == [];
    } else {
      var h := Encode(rs[0]);
      CutStep(d, rs[0], EncodeAll(rs[1..]), c);
      if c >= |h| {
        ParseCut(d, rs[1..], c - |h|);
        ConsTake(rs, Survivors(rs[1..], c - |h|));
      }
    }
  }

  /** Reading back a log that was not cut. */
  lemma RoundTrip(d: Decoder, rs: seq<Record>)
    requires AllLoggable(rs) && AllWritten(d, rs)
    ensures Parse(d, EncodeAll(rs)) == Some(rs)
  {
    var s := EncodeAll(rs);
    ParseCut(d, rs, |s|);
    assert s[..|s|] == s && rs[..|rs|] == rs;
    SurvivorsLongest(rs, |s|, |rs|);
  }

  lemma {:induction false} EncodeConcat(xs: seq<Record>, ys: seq<Record>)
    requires AllLoggable(xs) && AllLoggable(ys)
    ensures AllLoggable(xs + ys) && EncodeAll(xs + ys) == EncodeAll(xs) + EncodeAll(ys)
    decreases |xs|
  {
    if xs == [] {
      assert xs + ys == ys;
    } else {
      EncodeConcat(xs[1..], ys);
      assert (xs + ys)[0] == xs[0] && (xs + ys)[1..] == xs[1..] + ys;
      Assoc(Encode(xs[0]), EncodeAll(xs[1..]), EncodeAll(ys));
    }
  }

  /** Appending to a log that ends on a record boundary loses nothing. */
  lemma AppendAfterCleanEnd(d: Decoder, xs: seq<Record>, ys: seq<Record>)
    requires AllLoggable(xs) && AllLoggable(ys) && AllWritten(d, xs) && AllWritten(d, ys)
    ensures Parse(d, EncodeAll(xs) + EncodeAll(ys)) == Some(xs + ys)
  {
    EncodeConcat(xs, ys);
    RoundTrip(d, xs + ys);
  }

  /* ---------- torn tails ---------- */

  lemma {:induction false} ParseConcat(d: Decoder, xs: seq<Record>, t: seq<Byte>)
    requires AllLoggable(xs) && AllWritten(d, xs)
    ensures Parse(d, EncodeAll(xs) + t) == After(xs, Parse(d, t))
    decreases |xs|
  {
    if xs == [] {
      assert EncodeAll(xs) + t == t;
      if Parse(d, t).Some? { assert [] + Parse(d, t).value == Parse(d, t).value; }
    } else {
      Assoc(Encode(xs[0]), EncodeAll(xs[1..]), t);
      ParseEncode(d, xs[0], EncodeAll(xs[1..]) + t);
      ParseConcat(d, xs[1..], t);
      if Parse(d, t).Some? { Assoc([xs[0]], xs[1..], Parse(d, t).value); }
      assert [xs[0]] + xs[1..] == xs;
    }
  }

  /** The bytes that reading leaves over. */
  function Residue(s: seq<Byte>): (t: seq<Byte>)
    ensures |t| <= |s| && !WholeFrame(t)
    decreases |s|
  {
    if !WholeFrame(s) then s else Residue(s[HEADER + FromU32(s[5..9])..])
  }

  lemma U32Back(s: seq<Byte>)
    requires |s| == 4
    ensures U32(FromU32(s)) == s
  {
    var u := U32(FromU32(s));
    assert FromU32(u) == FromU32(s);
    FromU32Injective(u, s);
  }

  lemma LowByte(a: Byte, p: int, b: Byte, q: int)
    requires a as int + 256 * p == b as int + 256 * q
    ensures a == b && p == q
  {
  }

  lemma FromU32Injective(a: seq<Byte>, b: seq<Byte>)
    requires |a| == 4 && |b| == 4 && FromU32(a) == FromU32(b)
    ensures a == b
  {
    var x, y := a[2] as int + 256 * (a[3] as int), b[2] as int + 256 * (b[3] as int);
    LowByte(a[0], a[1] as int + 256 * x, b[0], b[1] as int + 256 * y);
    LowByte(a[1], x, b[1], y);
    LowByte(a[2], a[3] as int, b[2], b[3] as int);
  }

  /** What is read is what the bytes begin with; the rest is the residue. */
  lemma {:induction false} ParseConsumes(d: Decoder, s: seq<Byte>)
    requires Parse(d, s).Some?
    ensures AllLoggable(Parse(d, s).value) && s == EncodeAll(Parse(d, s).value) + Residue(s)
    decreases |s|
  {
    if !WholeFrame(s) {
      assert [] + s == s;
    } else {
      var n := HEADER + FromU32(s[5..9]);
      ParseConsumes(d, s[n..]);
      FrameIsEncoded(s);
      ConsumedStep(s, n, Record(ByteKind(s[0]).value, FromU32(s[1..5]), s[9..n]), Parse(d, s[n..]).value, Residue(s));
    }
  }

  lemma ConsumedStep(s: seq<Byte>, n: nat, r: Record, rest: seq<Record>, left: seq<Byte>)
    requires n <= |s| && Loggable(r) && Encode(r) == s[..n] && AllLoggable(rest) && s[n..] == EncodeAll(rest) + left
    ensures AllLoggable([r] + rest) && s == EncodeAll([r] + rest) + left
  {
    assert ([r] + rest)[1..] == rest;
    Assoc(Encode(r), EncodeAll(rest), left);
    assert s == s[..n] + s[n..];
  }

  lemma FrameIsEncoded(s: seq<Byte>)
    requires WholeFrame(s) && ByteKind(s[0]).Some?
    ensures var n := HEADER + FromU32(s[5..9]);
            var r := Record(ByteKind(s[0]).value, FromU32(s[1..5]), s[9..n]);
            Loggable(r) && Encode(r) == s[..n]
  {
    var n := HEADER + FromU32(s[5..9]);
    U32Back(s[1..5]);
    U32Back(s[5..9]);
    assert s[..n] == [s[0]] + s[1..5] + s[5..9] + s[9..n];
  }

  lemma CutApart(torn: seq<Byte>, more: seq<Byte>, n: nat)
    requires HEADER <= |torn| <= n <= |torn| + |more|
    ensures (torn + more)[n..] == more[n - |torn|..]
    ensures (torn + more)[9..n] == torn[9..] + more[..n - |torn|]
  {
  }

  /** Left-over bytes with a whole header take the next `m` appended bytes, as many as
      they lack, for the end of their body: until then nothing is read, and from then on
      the body decides. */
  lemma TornRecordSwallows(d: Decoder, torn: seq<Byte>, kind: Kind, more: seq<Byte>)
    requires |torn| >= HEADER && !WholeFrame(torn) && torn[0] == KindByte(kind)
    ensures var m := HEADER + FromU32(torn[5..9]) - |torn|;
            Parse(d, torn + more) ==
            if |more| < m then Some([])
            else if !d(torn[HEADER..] + more[..m]) then None
            else After([Record(kind, FromU32(torn[1..5]), torn[HEADER..] + more[..m])], Parse(d, more[m..]))
  {
    var s, n := torn + more, HEADER + FromU32(torn[5..9]);
    assert s[1..5] == torn[1..5] && s[5..9] == torn[5..9];
    if |more| >= n - |torn| {
      CutApart(torn, more, n);
      if d(torn[HEADER..] + more[..n - |torn|]) {
        ParseFrame(d, s, kind, FromU32(torn[1..5]), torn[HEADER..] + more[..n - |torn|], more[n - |torn|..]);
      }
    }
  }

  /** The first bytes of a record that was being written, header included. */
  ghost predicate TornRecord(torn: seq<Byte>, kind: Kind) {
    |torn| >= HEADER && !WholeFrame(torn) && torn[0] == KindByte(kind) && Printable(torn[HEADER..])
  }

  /** A record's kind is no printable byte, so whatever is appended spoils the body. */
  lemma AppendedSpoils(text: seq<Byte>, more: seq<Byte>)
    requires Printable(text) && more != [] && 1 <= more[0] <= 5
    ensures Spoiled(text + more)
  {
    var s := text + more;
    assert s[|text|] == more[0] && s[..|text|] == text;
  }

  /** Behind a torn record, the log can be read if and only if fewer bytes were appended
      than the record lacks; from then on every open raises. */
  lemma TornRecordBlocks(d: Decoder, xs: seq<Record>, torn: seq<Byte>, kind: Kind, more: seq<Byte>)
    requires Honest(d) && AllLoggable(xs) && AllWritten(d, xs) && TornRecord(torn, kind)
    requires more == [] || 1 <= more[0] <= 5
    ensures Parse(d, EncodeAll(xs) + (torn + more))
         == if |more| < HEADER + FromU32(torn[5..9]) - |torn| then Some(xs) else None
  {
    var m := HEADER + FromU32(torn[5..9]) - |torn|;
    TornRecordSwallows(d, torn, kind, more);
    ParseConcat(d, xs, torn + more);
    assert xs + [] == xs;
    if |more| >= m { AppendedSpoils(torn[HEADER..], more[..m]); }
  }

  lemma ParseFrame(d: Decoder, s: seq<Byte>, kind: Kind, txn: nat, payload: seq<Byte>, rest: seq<Byte>)
    requires WholeFrame(s) && s[0] == KindByte(kind) && FromU32(s[1..5]) == txn
    requires var n := HEADER + FromU32(s[5..9]); s[9..n] == payload && s[n..] == rest
    requires payload == [] || d(payload)
    ensures Parse(d, s) == After([Record(kind, txn, payload)], Parse(d, rest))
  {
    assert ByteKind(KindByte(kind)) == Some(kind);
  }

  /** So whole transactions disappear: a restart reads only what was there before the
      tear exactly as long as fewer than the missing bytes were appended. */
  lemma TornTailHides(d: Decoder, xs: seq<Record>, torn: seq<Byte>, kind: Kind, ys: seq<Record>)
    requires AllLoggable(xs) && AllWritten(d, xs) && AllLoggable(ys)
    requires |torn| >= HEADER && !WholeFrame(torn) && torn[0] == KindByte(kind)
    ensures Parse(d, EncodeAll(xs) + (torn + EncodeAll(ys))) == Some(xs)
            <==> |EncodeAll(ys)| < HEADER + FromU32(torn[5..9]) - |torn|
  {
    var more, m := EncodeAll(ys), HEADER + FromU32(torn[5..9]) - |torn|;
    TornRecordSwallows(d, torn, kind, more);
    ParseConcat(d, xs, torn + more);
    assert xs + [] == xs;
    if |more| >= m && Parse(d, torn + more).Some? {
      assert |After(xs, Parse(d, torn + more)).value| > |xs|;
    }
  }

  /** Bytes that repeat at distance `p`. */
  ghost predicate Periodic(e: seq<Byte>, p: nat) {
    forall i :: p <= i < |e| ==> e[i] == e[i - p]
  }

  lemma PeriodChain(e: seq<Byte>, p: nat)
    requires |e| == HEADER && 1 <= p < HEADER && Periodic(e, p)
    ensures e[0] == e[5] || e[0] == e[6] || e[0] == e[7] || e[0] == e[8]
  {
    if p == 1 {
      assert e[5] == e[4] && e[4] == e[3] && e[3] == e[2] && e[2] == e[1] && e[1] == e[0];
    } else if p == 2 {
      assert e[6] == e[4] && e[4] == e[2] && e[2] == e[0];
    } else if p == 3 {
      assert e[6] == e[3] && e[3] == e[0];
    } else if p == 4 {
      assert e[8] == e[4] && e[4] == e[0];
    } else {
      assert e[p] == e[0];
    }
  }

  /** A record without payload does not repeat itself at a shorter distance. */
  lemma BareHasNoPeriod(r: Record, p: nat)
    requires Loggable(r) && r.payload == [] && 1 <= p < HEADER
    ensures !Periodic(Encode(r), p)
  {
    var e := Encode(r);
    EncodeParts(r, []);
    assert e + [] == e;
    assert U32(0) == [0, 0, 0, 0];
    assert e[5] == e[5..9][0] && e[6] == e[5..9][1] && e[7] == e[5..9][2] && e[8] == e[5..9][3];
    if Periodic(e, p) { PeriodChain(e, p); }
  }

  /** If reading back gives what was appended, the first bytes agree. */
  lemma SamePrefix(d: Decoder, torn: seq<Byte>, ys: seq<Record>)
    requires AllLoggable(ys) && ys != []
    ensures Parse(d, torn + EncodeAll(ys)) == Some(ys) ==> Encode(ys[0]) <= torn + EncodeAll(ys)
  {
    var s := torn + EncodeAll(ys);
    if Parse(d, s) == Some(ys) {
      ParseConsumes(d, s);
      Assoc(Encode(ys[0]), EncodeAll(ys[1..]), Residue(s));
    }
  }

  lemma PrefixIsPeriodic(torn: seq<Byte>, e: seq<Byte>, h: seq<Byte>)
    requires h <= e && h <= torn + e && |torn| <= |h|
    ensures Periodic(h, |torn|)
  {
    forall i | |torn| <= i < |h| ensures h[i] == h[i - |torn|] {
      assert (torn + e)[i] == e[i - |torn|];
    }
  }

  lemma BareIsWhole(torn: seq<Byte>, e: seq<Byte>, r: Record)
    requires Loggable(r) && r.payload == [] && Encode(r) <= torn + e && |torn| >= HEADER
    ensures WholeFrame(torn)
  {
    EncodeParts(r, []);
    var h := Encode(r);
    assert h + [] == h;
    assert h == (torn + e)[..HEADER] == torn[..HEADER];
    assert torn[5..9] == h[5..9];
  }

  lemma AppendedFirst(d: Decoder, torn: seq<Byte>, ys: seq<Record>)
    requires AllLoggable(ys) && ys != [] && ys[0].payload == [] && torn != []
    ensures Parse(d, torn + EncodeAll(ys)) == Some(ys) ==> WholeFrame(torn)
  {
    SamePrefix(d, torn, ys);
    if Encode(ys[0]) <= torn + EncodeAll(ys) {
      if |torn| >= HEADER {
        BareIsWhole(torn, EncodeAll(ys), ys[0]);
      } else {
        BareHasNoPeriod(ys[0], |torn|);
        PrefixIsPeriodic(torn, EncodeAll(ys), Encode(ys[0]));
      }
    }
  }

  lemma Cancel<T>(xs: seq<T>, a: seq<T>, b: seq<T>)
    ensures xs + a == xs + b <==> a == b
  {
    assert (xs + a)[|xs|..] == a && (xs + b)[|xs|..] == b;
  }

  /** Records appended behind left-over bytes are read back if and only if there were
      none; the first record an engine writes has no payload. */
  lemma AppendKeptIff(d: Decoder, xs: seq<Record>, torn: seq<Byte>, ys: seq<Record>)
    requires AllLoggable(xs) && AllLoggable(ys) && AllWritten(d, xs) && AllWritten(d, ys)
    requires !WholeFrame(torn) && ys != [] && ys[0].payload == []
    ensures Parse(d, EncodeAll(xs) + (torn + EncodeAll(ys))) == Some(xs + ys) <==> torn == []
  {
    var s := torn + EncodeAll(ys);
    ParseConcat(d, xs, s);
    if Parse(d, s).Some? { Cancel(xs, Parse(d, s).value, ys); }
    if torn == [] {
      assert s == EncodeAll(ys);
      RoundTrip(d, ys);
    } else {
      AppendedFirst(d, torn, ys);
    }
  }

  /** Behind the first byte of a record, the BEGIN of `t` is read as a record that nobody
      wrote: of the torn record's kind, for transaction 1 + 256 t. */
  lemma ShortTearForges(d: Decoder, kind: Kind, t: nat)
    requires t < TWO_32 / 256
    ensures Loggable(Record(BEGIN, t, []))
    ensures Parse(d, [KindByte(kind)] + Encode(Record(BEGIN, t, []))) == Some([Record(kind, 1 + 256 * t, [])])
  {
    var r := Record(BEGIN, t, []);
    var e := Encode(r);
    var s := [KindByte(kind)] + e;
    EncodeParts(r, []);
    assert e + [] == e;
    var a, b := U32(t), U32(0);
    assert e[1] == a[0] && e[2] == a[1] && e[3] == a[2] && e[4] == a[3] == 0;
    assert e[5] == b[0] && e[6] == b[1] && e[7] == b[2];
    assert b == [0, 0, 0, 0];
    assert s[1..5] == [1, a[0], a[1], a[2]] && s[5..9] == [0, 0, 0, 0];
    assert FromU32(s[1..5]) == 1 + 256 * t && FromU32(s[5..9]) == 0;
    ParseFrame(d, s, kind, 1 + 256 * t, [], s[9..]);
    assert !WholeFrame(s[9..]);
    assert [Record(kind, 1 + 256 * t, [])] + [] == [Record(kind, 1 + 256 * t, [])];
  }
}
