/** Typed values and their byte form, with nested arrays and dictionaries. */
module Values {
  import opened Bytes
  import opened ByteOrder
  import opened Results

  type i16 = v: int | -0x8000 <= v < 0x8000
  type i32 = v: int | -0x8000_0000 <= v < 0x8000_0000
  type i64 = v: int | -0x8000_0000_0000_0000 <= v < 0x8000_0000_0000_0000
  type u32 = v: nat | v < U32
  type u64 = v: nat | v < U64
  type code = v: nat | v < U16
  type key = seq<byte>
  type uuid = u: seq<byte> | |u| == 16 witness seq(16, _ => 0)

  // The stored type codes; 0 is the NULL type, which has no values of its own.
  const BOOLEAN: code := 1
  const SMALL_INT: code := 2
  const INTEGER: code := 3
  const BIG_INT: code := 4
  const REAL: code := 5
  const DOUBLE: code := 6
  const NUMERIC: code := 7
  const CHAR: code := 8
  const VAR_CHAR: code := 9
  const TEXT: code := 10
  const BYTEA: code := 11
  const DATE: code := 12
  const TIME: code := 13
  const TIMESTAMP: code := 14
  const TIMESTAMP_TZ: code := 15
  const INTERVAL: code := 16
  const UUID: code := 17
  const JSON: code := 18
  const DICT: code := 19
  const ARRAY: code := 20
  const ENUM: code := 21
  const INVALID: code := 22

  const QUOTE: byte := 0x22

  datatype TextKind = CharText | VarCharText | PlainText

  /**
   * Floating-point values are their bit patterns. A JSON value is its rendering, which is all that its equality
   * and its byte form look at.
   */
  datatype Value =
    | Null(typ: code)
    | Boolean(flag: bool)
    | SmallInt(small: i16)
    | Integer(int32: i32)
    | BigInt(int64: i64)
    | Real(bits32: u32)
    | Double(bits64: u64)
    | Numeric(coefficient: i64, scale: byte)
    | Text(kind: TextKind, chars: seq<byte>)
    | Bytea(bytes: seq<byte>)
    | Date(days: i32)
    | Time(micros: i64)
    | Timestamp(instant: i64, zoned: bool)
    | Interval(months: i32, dayCount: i32, rest: i64)
    | Uuid(id: uuid)
    | Json(rendered: seq<byte>)
    | Array(element: code, items: seq<Value>)
    | Dict(entries: map<key, Value>)
    | Enum(ordinal: u32, name: seq<byte>)

  function TextCode(k: TextKind): (c: code) {
    match k
    case CharText => CHAR
    case VarCharText => VAR_CHAR
    case PlainText => TEXT
  }

  function Code(v: Value): (c: code) {
    match v
    case Null(t) => t
    case Boolean(_) => BOOLEAN
    case SmallInt(_) => SMALL_INT
    case Integer(_) => INTEGER
    case BigInt(_) => BIG_INT
    case Real(_) => REAL
    case Double(_) => DOUBLE
    case Numeric(_, _) => NUMERIC
    case Text(k, _) => TextCode(k)
    case Bytea(_) => BYTEA
    case Date(_) => DATE
    case Time(_) => TIME
    case Timestamp(_, z) => if z then TIMESTAMP_TZ else TIMESTAMP
    case Interval(_, _, _) => INTERVAL
    case Uuid(_) => UUID
    case Json(_) => JSON
    case Array(_, _) => ARRAY
    case Dict(_) => DICT
    case Enum(_, _) => ENUM
  }

  // ---------- canonical key order ----------

  ghost predicate Ascending(ks: seq<key>) {
    forall i, j :: 0 <= i < j < |ks| ==> Below(ks[i], ks[j])
  }

  ghost predicate Lists(ks: seq<key>, s: set<key>) {
    Ascending(ks) && forall k :: k in ks <==> k in s
  }

  lemma {:induction false} AscendingUnique(a: seq<key>, b: seq<key>)
    requires Ascending(a) && Ascending(b) && forall k :: k in a <==> k in b
    ensures a == b
  {
    FirstIsIn(a);
    FirstIsIn(b);
    if a != [] {
      SameFirst(a, b);
      forall k
        ensures k in a[1..] <==> k in b[1..]
      {
        InTail(a, k);
        InTail(b, k);
      }
      AscendingUnique(a[1..], b[1..]);
      assert a == [a[0]] + a[1..] && b == [b[0]] + b[1..];
    }
  }

  lemma FirstIsIn(a: seq<key>)
    ensures a != [] ==> a[0] in a
  {
  }

  lemma SameFirst(a: seq<key>, b: seq<key>)
    requires Ascending(a) && Ascending(b) && a != [] && b != [] && a[0] in b && b[0] in a
    ensures a[0] == b[0]
  {
    BelowTotal(a[0], b[0]);
    var i :| 0 <= i < |b| && b[i] == a[0];
    var j :| 0 <= j < |a| && a[j] == b[0];
  }

  lemma InTail(a: seq<key>, k: key)
    requires Ascending(a) && a != []
    ensures k in a[1..] <==> k in a && k != a[0]
  {
    BelowTotal(a[0], a[0]);
    assert a == [a[0]] + a[1..];
    if k in a[1..] {
      var i :| 0 <= i < |a[1..]| && a[1..][i] == k;
      assert a[i + 1] == k;
    }
  }

  lemma {:induction false} ListExists(s: set<key>)
    ensures exists ks :: Lists(ks, s)
    decreases s
  {
    if s == {} {
      assert Lists([], s);
    } else {
      var k :| k in s;
      ListExists(s - {k});
      var rest :| Lists(rest, s - {k});
      InsertedLists(rest, k, s - {k});
      assert s - {k} + {k} == s;
    }
  }

  function Inserted(ks: seq<key>, k: key): (r: seq<key>) {
    if ks == [] || Below(k, ks[0]) then [k] + ks else [ks[0]] + Inserted(ks[1..], k)
  }

  lemma {:induction false} InsertedLists(ks: seq<key>, k: key, s: set<key>)
    requires Lists(ks, s) && k !in s
    ensures Lists(Inserted(ks, k), s + {k})
  {
    InsertedMembers(ks, k);
    assert k !in ks;
    InsertedAscends(ks, k);
  }

  lemma {:induction false} InsertedMembers(ks: seq<key>, k: key)
    ensures forall x :: x in Inserted(ks, k) <==> x in ks || x == k
  {
    if ks != [] && !Below(k, ks[0]) {
      InsertedMembers(ks[1..], k);
      assert ks == [ks[0]] + ks[1..];
    }
  }

  lemma {:induction false} InsertedAscends(ks: seq<key>, k: key)
    requires Ascending(ks) && k !in ks
    ensures Ascending(Inserted(ks, k))
  {
    if ks == [] {
    } else if Below(k, ks[0]) {
      FrontAscends(k, ks);
    } else {
      BelowTotal(k, ks[0]);
      assert ks[0] in ks;
      assert ks == [ks[0]] + ks[1..];
      InsertedAscends(ks[1..], k);
      InsertedMembers(ks[1..], k);
      var t := Inserted(ks[1..], k);
      forall j | 0 <= j < |t|
        ensures Below(ks[0], t[j])
      {
        assert t[j] in t;
      }
    }
  }

  lemma FrontAscends(k: key, ks: seq<key>)
    requires Ascending(ks) && ks != [] && Below(k, ks[0])
    ensures Ascending([k] + ks)
  {
    forall j | 0 <= j < |ks|
      ensures Below(k, ks[j])
    {
      BelowTotal(k, ks[0]);
      if j > 0 { BelowTransitive(k, ks[0], ks[j]); }
    }
  }

  ghost function SortedKeys(s: set<key>): (ks: seq<key>)
    ensures Lists(ks, s)
  {
    ListExists(s);
    var ks :| Lists(ks, s);
    ks
  }

  /** Collects the keys in whatever order the map hands them out and sorts them; the order does not matter. */
  method SortKeys(s: set<key>) returns (ks: seq<key>)
    ensures ks == SortedKeys(s)
  {
    ks := [];
    var left := s;
    while left != {}
      invariant left <= s && Lists(ks, s - left)
      decreases left
    {
      var k :| k in left;
      InsertedLists(ks, k, s - left);
      ks := Inserted(ks, k);
      assert s - left + {k} == s - (left - {k});
      left := left - {k};
    }
    assert s - left == s;
    AscendingUnique(ks, SortedKeys(s));
  }

  // ---------- numbers ----------

  function WriteSigned(v: int, width: nat): (b: seq<byte>)
    requires width == 2 || width == 4 || width == 8
    requires -(Half(width) as int) <= v < Half(width)
    ensures |b| == width
  {
    WriteLE(if v < 0 then v + 2 * Half(width) else v, width)
  }

  function ReadSigned(b: seq<byte>): (v: int)
    requires |b| == 2 || |b| == 4 || |b| == 8
    ensures -(Half(|b|) as int) <= v < Half(|b|)
  {
    HalfIsHalf(|b|);
    var u := ReadLE(b);
    if u < Half(|b|) then u else u - 2 * Half(|b|)
  }

  function Half(width: nat): (n: nat) {
    if width == 2 then 0x8000 else if width == 4 then 0x8000_0000 else 0x8000_0000_0000_0000
  }

  lemma HalfIsHalf(width: nat)
    requires width == 2 || width == 4 || width == 8
    ensures Pow256(width) == 2 * Half(width)
  {
    Pow256Values();
  }

  lemma SignedRoundTrip(v: int, width: nat)
    requires width == 2 || width == 4 || width == 8
    requires -(Half(width) as int) <= v < Half(width)
    ensures ReadSigned(WriteSigned(v, width)) == v
  {
    HalfIsHalf(width);
    ReadWriteLE(if v < 0 then v + 2 * Half(width) else v, width);
  }

  /** Signed numbers are stored in two's complement: the bytes read as unsigned agree modulo 256 to the width. */
  lemma TwosComplement(v: int, width: nat)
    requires width == 2 || width == 4 || width == 8
    requires -(Half(width) as int) <= v < Half(width)
    ensures ReadLE(WriteSigned(v, width)) == if v < 0 then v + Pow256(width) else v
  {
    HalfIsHalf(width);
    ReadWriteLE(if v < 0 then v + 2 * Half(width) else v, width);
  }

  // ---------- values to bytes ----------

  function Scalar(v: Value): (b: seq<byte>)
    requires !v.Array? && !v.Dict? && !v.Enum?
  {
    match v
    case Null(_) => []
    case Boolean(f) => [if f then 1 else 0]
    case SmallInt(n) => WriteSigned(n, 2)
    case Integer(n) => WriteSigned(n, 4)
    case BigInt(n) => WriteSigned(n, 8)
    case Real(n) => WriteLE(n, 4)
    case Double(n) => WriteLE(n, 8)
    case Numeric(c, s) => WriteSigned(c, 8) + [s]
    case Text(_, t) => t
    case Bytea(t) => t
    case Date(n) => WriteSigned(n, 4)
    case Time(n) => WriteSigned(n, 8)
    case Timestamp(n, _) => WriteSigned(n, 8)
    case Interval(m, d, r) => WriteSigned(m, 4) + WriteSigned(d, 4) + WriteSigned(r, 8)
    case Uuid(u) => u
    case Json(t) => t
  }

  /** The bytes of a value; refused when it is or contains an enum value. */
  ghost function Encode(v: Value): (r: Result<seq<byte>>)
    decreases v
  {
    match v
    case Array(_, items) =>
      var body := EncodeItems(items);
      if body.Ok? then Ok(WriteLE(|items|, 4) + body.value) else body
    case Dict(m) =>
      var body := EncodePairs(v, SortedKeys(m.Keys));
      if body.Ok? then Ok(WriteLE(|m.Keys|, 4) + body.value) else body
    case Enum(_, _) => Err(InternalError)
    case _ => Ok(Scalar(v))
  }

  /** A nested value: its type code, its length and its bytes. */
  function Item(c: code, b: seq<byte>): (r: seq<byte>) {
    WriteLE(c, 2) + WriteLE(|b|, 4) + b
  }

  ghost function EncodeItems(items: seq<Value>): (r: Result<seq<byte>>)
    decreases items
  {
    if items == [] then Ok([])
    else
      var first := Encode(items[0]);
      if first.Err? then first
      else
        var more := EncodeItems(items[1..]);
        if more.Err? then more else Ok(Item(Code(items[0]), first.value) + more.value)
  }

  ghost function EncodePairs(v: Value, ks: seq<key>): (r: Result<seq<byte>>)
    requires v.Dict? && forall k :: k in ks ==> k in v.entries
    decreases v, |ks|
  {
    if ks == [] then Ok([])
    else
      var elem := v.entries[ks[0]];
      var first := Encode(elem);
      if first.Err? then first
      else
        var more := EncodePairs(v, ks[1..]);
        if more.Err? then more
        else Ok(Pair(ks[0], elem, first.value) + more.value)
  }

  function Pair(k: key, elem: Value, b: seq<byte>): (r: seq<byte>) {
    WriteLE(|k|, 4) + k + Item(Code(elem), b)
  }

  /** The stored type codes. */
  lemma TypeCodes(v: Value)
    ensures v.Boolean? ==> Code(v) == 1
    ensures v.SmallInt? ==> Code(v) == 2
    ensures v.Integer? ==> Code(v) == 3
    ensures v.BigInt? ==> Code(v) == 4
    ensures v.Real? ==> Code(v) == 5
    ensures v.Double? ==> Code(v) == 6
    ensures v.Numeric? ==> Code(v) == 7
    ensures v.Text? ==> Code(v) == if v.kind.CharText? then 8 else if v.kind.VarCharText? then 9 else 10
    ensures v.Bytea? ==> Code(v) == 11
    ensures v.Date? ==> Code(v) == 12
    ensures v.Time? ==> Code(v) == 13
    ensures v.Timestamp? ==> Code(v) == if v.zoned then 15 else 14
    ensures v.Interval? ==> Code(v) == 16
    ensures v.Uuid? ==> Code(v) == 17
    ensures v.Json? ==> Code(v) == 18
    ensures v.Dict? ==> Code(v) == 19
    ensures v.Array? ==> Code(v) == 20
    ensures v.Enum? ==> Code(v) == 21
  {
  }

  /** A decimal is its coefficient, then its scale; an interval is its months, days and microseconds. */
  lemma PartsLayout(c: i64, scale: byte, m: i32, d: i32, r: i64)
    ensures var s := Scalar(Numeric(c, scale)); |s| == 9 && ReadSigned(s[..8]) == c && s[8] == scale
    ensures var s := Scalar(Interval(m, d, r));
            |s| == 16 && ReadSigned(s[..4]) == m && ReadSigned(s[4..8]) == d && ReadSigned(s[8..]) == r
  {
    hide WriteSigned, ReadSigned;
    SignedRoundTrip(c, 8);
    SignedRoundTrip(m, 4);
    SignedRoundTrip(d, 4);
    SignedRoundTrip(r, 8);
    WriteSignedLength(c, 8);
    WriteSignedLength(m, 4);
    WriteSignedLength(d, 4);
    WriteSignedLength(r, 8);
    Slices(WriteSigned(c, 8), [scale], [], []);
    assert Scalar(Numeric(c, scale)) + [] + [] == Scalar(Numeric(c, scale));
    Slices(WriteSigned(m, 4), WriteSigned(d, 4), WriteSigned(r, 8), []);
    assert Scalar(Interval(m, d, r)) + [] == Scalar(Interval(m, d, r));
  }

  lemma WriteSignedLength(v: int, width: nat)
    requires width == 2 || width == 4 || width == 8
    requires -(Half(width) as int) <= v < Half(width)
    ensures |WriteSigned(v, width)| == width
  {
  }

  /** Where the parts of a nested value and of a dictionary's pair stand. */
  lemma NestedLayout(k: key, v: Value, b: seq<byte>)
    requires |b| < U32 && |k| < U32
    ensures var s := Item(Code(v), b); ReadLE(s[..2]) == Code(v) && ReadLE(s[2..6]) == |b| && s[6..] == b
    ensures var s := Pair(k, v, b); ReadLE(s[..4]) == |k| && s[4..4 + |k|] == k && s[4 + |k|..] == Item(Code(v), b)
  {
    hide WriteLE, ReadLE, Code;
    Pow256Values();
    ReadWriteLE(Code(v), 2);
    ReadWriteLE(|b|, 4);
    ReadWriteLE(|k|, 4);
    var item := Item(Code(v), b);
    Slices(WriteLE(Code(v), 2), WriteLE(|b|, 4), b, []);
    assert item + [] == item;
    Slices(WriteLE(|k|, 4), k, [], item);
    assert WriteLE(|k|, 4) + k + [] + item == Pair(k, v, b);
  }

  // ---------- bytes to values ----------

  /** Stored JSON is not parsed: its text becomes one JSON string, which renders between quotes. */
  function Quoted(text: seq<byte>): (t: seq<byte>) {
    [QUOTE] + text + [QUOTE]
  }

  function DecodeScalar(b: seq<byte>, c: code): (r: Result<Value>) {
    if c == BOOLEAN then (if |b| < 1 then Err(InternalError) else Ok(Boolean(b[0] != 0)))
    else if c == SMALL_INT then (if |b| < 2 then Err(InternalError) else Ok(SmallInt(ReadSigned(b[..2]))))
    else if c == INTEGER then (if |b| < 4 then Err(InternalError) else Ok(Integer(ReadSigned(b[..4]))))
    else if c == BIG_INT then (if |b| < 8 then Err(InternalError) else Ok(BigInt(ReadSigned(b[..8]))))
    else if c == REAL then (if |b| < 4 then Err(InternalError) else Pow256Values(); Ok(Real(ReadLE(b[..4]))))
    else if c == DOUBLE then (if |b| < 8 then Err(InternalError) else Pow256Values(); Ok(Double(ReadLE(b[..8]))))
    else if c == NUMERIC then (if |b| < 9 then Err(InternalError) else Ok(Numeric(ReadSigned(b[..8]), b[8])))
    else if c == CHAR then Ok(Text(CharText, b))
    else if c == VAR_CHAR then Ok(Text(VarCharText, b))
    else if c == TEXT then Ok(Text(PlainText, b))
    else if c == BYTEA then Ok(Bytea(b))
    else if c == DATE then (if |b| < 4 then Err(InternalError) else Ok(Date(ReadSigned(b[..4]))))
    else if c == TIME then (if |b| < 8 then Err(InternalError) else Ok(Time(ReadSigned(b[..8]))))
    else if c == TIMESTAMP || c == TIMESTAMP_TZ then
      (if |b| < 8 then Err(InternalError) else Ok(Timestamp(ReadSigned(b[..8]), false)))
    else if c == INTERVAL then
      (if |b| < 16 then Err(InternalError)
       else Ok(Interval(ReadSigned(b[..4]), ReadSigned(b[4..8]), ReadSigned(b[8..16]))))
    else if c == UUID then (if |b| < 16 then Err(InternalError) else Ok(Uuid(b[..16])))
    else if c == JSON then Ok(Json(Quoted(b)))
    else Err(InternalError)
  }

  function Decode(b: seq<byte>, c: code): (r: Result<Value>)
    decreases |b|, 2
  {
    if c == ARRAY then
      if |b| < 4 then Err(InternalError)
      else
        var items := DecodeItems(b[4..], ReadLE(b[..4]));
        if items.Ok? then Ok(Array(INVALID, items.value)) else Err(items.error)
    else if c == DICT then
      if |b| < 4 then Err(InternalError)
      else
        var m := DecodePairs(b[4..], ReadLE(b[..4]), map[]);
        if m.Ok? then Ok(Dict(m.value)) else Err(m.error)
    else
      DecodeScalar(b, c)
  }

  /** A nested value at the front of `b`, and how many bytes it takes. */
  function DecodeItem(b: seq<byte>): (r: Result<(Value, nat)>)
    ensures r.Ok? ==> 6 <= r.value.1 <= |b|
    decreases |b|, 0
  {
    if |b| < 6 then Err(InternalError)
    else
      Pow256Values();
      var c, n := ReadLE(b[..2]), ReadLE(b[2..6]);
      if 6 + n > |b| then Err(InternalError)
      else
        var v := Decode(b[6..6 + n], c);
        if v.Ok? then Ok((v.value, 6 + n)) else Err(v.error)
  }

  function DecodeItems(b: seq<byte>, n: nat): (r: Result<seq<Value>>)
    decreases |b|, 1
  {
    if n == 0 then Ok([])
    else
      var first := DecodeItem(b);
      if first.Err? then Err(first.error)
      else
        var more := DecodeItems(b[first.value.1..], n - 1);
        if more.Ok? then Ok([first.value.0] + more.value) else more
  }

  /** Each pair is stored into the dictionary built so far; a later pair replaces an earlier one. */
  function DecodePairs(b: seq<byte>, n: nat, m: map<key, Value>): (r: Result<map<key, Value>>)
    decreases |b|, 1
  {
    if n == 0 then Ok(m)
    else if |b| < 4 then Err(InternalError)
    else
      var size := ReadLE(b[..4]);
      if 4 + size > |b| then Err(InternalError)
      else
        var k, rest := b[4..4 + size], b[4 + size..];
        var elem := DecodeItem(rest);
        if elem.Err? then Err(elem.error)
        else DecodePairs(rest[elem.value.1..], n - 1, m[k := elem.value.0])
  }

  // ---------- the round trip ----------

  /** Every length and count of the byte form fits its four-byte field. */
  ghost predicate Sized(v: Value)
    decreases v, 0
  {
    match v
    case Array(_, items) => |items| < U32 && forall i :: 0 <= i < |items| ==> SizedItem(items[i])
    case Dict(m) => |m.Keys| < U32 && forall k :: k in m ==> |k| < U32 && SizedItem(m[k])
    case _ => true
  }

  ghost predicate SizedItem(v: Value)
    decreases v, 1
  {
    Sized(v) && (Encode(v).Ok? ==> |Encode(v).value| < U32)
  }

  /** No null, no enum, no JSON and no zoned timestamp anywhere, and arrays without an element type. */
  predicate Plain(v: Value)
    decreases v
  {
    match v
    case Null(_) => false
    case Enum(_, _) => false
    case Json(_) => false
    case Timestamp(_, z) => !z
    case Array(t, items) => t == INVALID && forall i :: 0 <= i < |items| ==> Plain(items[i])
    case Dict(m) => forall k :: k in m ==> Plain(m[k])
    case _ => true
  }

  lemma ScalarRoundTrip(v: Value)
    requires Plain(v) && !v.Array? && !v.Dict?
    ensures DecodeScalar(Scalar(v), Code(v)) == Ok(v)
  {
    hide ReadSigned, WriteSigned, ReadLE, WriteLE;
    Pow256Values();
    var b := Scalar(v);
    if v.Numeric? || v.Interval? || v.Uuid? {
      PartedRoundTrip(v);
      return;
    }
    match v
    case SmallInt(n) => Whole(b); SignedRoundTrip(n, 2);
    case Integer(n) => Whole(b); SignedRoundTrip(n, 4);
    case BigInt(n) => Whole(b); SignedRoundTrip(n, 8);
    case Real(n) => Whole(b); ReadWriteLE(n, 4);
    case Double(n) => Whole(b); ReadWriteLE(n, 8);
    case Date(n) => Whole(b); SignedRoundTrip(n, 4);
    case Time(n) => Whole(b); SignedRoundTrip(n, 8);
    case Timestamp(n, _) => Whole(b); SignedRoundTrip(n, 8);
    case _ =>
  }

  lemma PartedRoundTrip(v: Value)
    requires v.Numeric? || v.Interval? || v.Uuid?
    ensures DecodeScalar(Scalar(v), Code(v)) == Ok(v)
  {
    hide ReadSigned, WriteSigned, ReadLE, WriteLE;
    var b := Scalar(v);
    match v
    case Numeric(c, s) => PartsLayout(c, s, 0, 0, 0);
    case Interval(m, d, r) =>
      PartsLayout(0, 0, m, d, r);
      assert b[8..16] == b[8..];
    case Uuid(u) => Whole(b);
  }

  lemma Whole(b: seq<byte>)
    ensures b[..|b|] == b
  {
  }

  /** A nested value's bytes are found whatever follows them. */
  lemma ItemRead(c: code, b: seq<byte>, rest: seq<byte>)
    requires |b| < U32
    ensures var s, q := Item(c, b) + rest, Decode(b, c);
            DecodeItem(s) == (if q.Ok? then Ok((q.value, 6 + |b|)) else Err(q.error)) && s[6 + |b|..] == rest
  {
    hide Decode, ReadLE, WriteLE;
    Pow256Values();
    ReadWriteLE(c, 2);
    ReadWriteLE(|b|, 4);
    Slices(WriteLE(c, 2), WriteLE(|b|, 4), b, rest);
  }

  /** Nested values are read back whatever follows them. */
  lemma {:induction false} ItemsRoundTrip(items: seq<Value>, rest: seq<byte>)
    requires forall i :: 0 <= i < |items| ==> Plain(items[i]) && SizedItem(items[i])
    ensures EncodeItems(items).Ok?
    ensures DecodeItems(EncodeItems(items).value + rest, |items|) == Ok(items)
    decreases items
  {
    hide Encode, Decode, DecodeItem, Plain, Item;
    if items != [] {
      RoundTrip(items[0]);
      ItemsRoundTrip(items[1..], rest);
      var b, more := Encode(items[0]).value, EncodeItems(items[1..]).value;
      ItemRead(Code(items[0]), b, more + rest);
      assert Item(Code(items[0]), b) + more + rest == Item(Code(items[0]), b) + (more + rest);
      assert items == [items[0]] + items[1..];
    }
  }

  ghost function Restrict(m: map<key, Value>, ks: seq<key>): (r: map<key, Value>)
    requires forall k :: k in ks ==> k in m
  {
    map k | k in ks :: m[k]
  }

  lemma {:induction false} PairsRoundTrip(v: Value, ks: seq<key>, rest: seq<byte>, m: map<key, Value>)
    requires v.Dict? && forall k :: k in ks ==> k in v.entries
    requires forall k :: k in v.entries ==> Plain(v.entries[k]) && |k| < U32 && SizedItem(v.entries[k])
    ensures EncodePairs(v, ks).Ok?
    ensures DecodePairs(EncodePairs(v, ks).value + rest, |ks|, m) == Ok(m + Restrict(v.entries, ks))
    decreases v, 0, |ks|
  {
    hide Encode, Decode, DecodePairs, EncodePairs, Plain, SizedItem, Restrict, Pair, Code;
    if ks == [] {
      NoPairs(v, rest, m);
    } else {
      var k, elem := ks[0], v.entries[ks[0]];
      EncodedItem(elem);
      PairsRoundTrip(v, ks[1..], rest, m[k := elem]);
      var b, more := Encode(elem).value, EncodePairs(v, ks[1..]).value;
      EncodePairsStep(v, ks);
      AppendAssociates(Pair(k, elem, b), more, rest);
      DecodePairsStep(k, elem, b, more + rest, |ks| - 1, m);
      RestrictStep(v.entries, ks, m);
    }
  }

  lemma NoPairs(v: Value, rest: seq<byte>, m: map<key, Value>)
    requires v.Dict?
    ensures EncodePairs(v, []) == Ok([]) && DecodePairs([] + rest, 0, m) == Ok(m + Restrict(v.entries, []))
  {
    assert m + Restrict(v.entries, []) == m;
  }

  lemma EncodePairsStep(v: Value, ks: seq<key>)
    requires v.Dict? && ks != [] && forall k :: k in ks ==> k in v.entries
    requires Encode(v.entries[ks[0]]).Ok? && EncodePairs(v, ks[1..]).Ok?
    ensures var elem := v.entries[ks[0]];
            EncodePairs(v, ks) == Ok(Pair(ks[0], elem, Encode(elem).value) + EncodePairs(v, ks[1..]).value)
  {
    hide Encode, Item;
  }

  lemma DecodePairsStep(k: key, elem: Value, b: seq<byte>, after: seq<byte>, n: nat, m: map<key, Value>)
    requires |k| < U32 && |b| < U32
    ensures var q := Decode(b, Code(elem));
            DecodePairs(Pair(k, elem, b) + after, n + 1, m) ==
            if q.Ok? then DecodePairs(after, n, m[k := q.value]) else Err(q.error)
  {
    hide Decode, DecodeItem, Item, ReadLE, WriteLE;
    PairRead(k, elem, b, after);
  }

  lemma EncodedItem(v: Value)
    requires Plain(v) && SizedItem(v)
    ensures Encode(v).Ok? && |Encode(v).value| < U32 && Decode(Encode(v).value, Code(v)) == Ok(v)
    decreases v, 3
  {
    RoundTrip(v);
  }

  lemma RestrictStep(m: map<key, Value>, ks: seq<key>, before: map<key, Value>)
    requires ks != [] && forall k :: k in ks ==> k in m
    ensures before[ks[0] := m[ks[0]]] + Restrict(m, ks[1..]) == before + Restrict(m, ks)
  {
    assert ks == [ks[0]] + ks[1..];
  }

  lemma PairRead(k: key, elem: Value, b: seq<byte>, after: seq<byte>)
    requires |k| < U32 && |b| < U32
    ensures var s, q := Pair(k, elem, b) + after, Decode(b, Code(elem));
            |s| >= 4 + |k| && ReadLE(s[..4]) == |k| && s[4..4 + |k|] == k
            && DecodeItem(s[4 + |k|..]) == (if q.Ok? then Ok((q.value, 6 + |b|)) else Err(q.error))
            && |s[4 + |k|..]| >= 6 + |b| && s[4 + |k|..][6 + |b|..] == after
  {
    hide Decode, Code, ReadLE, WriteLE, DecodeItem;
    Pow256Values();
    ReadWriteLE(|k|, 4);
    ItemRead(Code(elem), b, after);
    Slices(WriteLE(|k|, 4), k, [], Item(Code(elem), b) + after);
    assert WriteLE(|k|, 4) + k + [] + (Item(Code(elem), b) + after)
        == WriteLE(|k|, 4) + k + Item(Code(elem), b) + after;
  }

  /** A plain value is read back from its own bytes. */
  lemma {:induction false} RoundTrip(v: Value)
    requires Plain(v) && Sized(v)
    ensures Encode(v).Ok? && Decode(Encode(v).value, Code(v)) == Ok(v)
    decreases v, 2
  {
    hide Sized, Encode, Decode, DecodeScalar, Scalar;
    match v
    case Array(_, _) => ArrayRoundTrip(v);
    case Dict(_) => DictRoundTrip(v);
    case _ =>
      ScalarRoundTrip(v);
      ScalarForms(v);
  }

  lemma ScalarForms(v: Value)
    requires !v.Array? && !v.Dict? && !v.Enum? && !v.Null?
    ensures Encode(v) == Ok(Scalar(v)) && forall b :: Decode(b, Code(v)) == DecodeScalar(b, Code(v))
  {
  }

  lemma {:induction false} ArrayRoundTrip(v: Value)
    requires v.Array? && Plain(v) && Sized(v)
    ensures Encode(v).Ok? && Decode(Encode(v).value, Code(v)) == Ok(v)
    decreases v, 1
  {
    hide EncodeItems, DecodeItems, ReadLE, WriteLE, SizedItem;
    ItemsRoundTrip(v.items, []);
    CountRead(|v.items|, EncodeItems(v.items).value);
  }

  lemma {:induction false} DictRoundTrip(v: Value)
    requires v.Dict? && Plain(v) && Sized(v)
    ensures Encode(v).Ok? && Decode(Encode(v).value, Code(v)) == Ok(v)
    decreases v, 1
  {
    hide Encode, Decode, EncodePairs, DecodePairs, ReadLE, WriteLE, Plain, Sized, Restrict, Lists;
    var ks := SortedKeys(v.entries.Keys);
    DictParts(v, ks);
    PairsRoundTrip(v, ks, [], map[]);
    ListLength(ks, v.entries.Keys);
    var body := EncodePairs(v, ks).value;
    CountRead(|ks|, body);
    DictForms(v, ks);
    RestrictAll(v.entries, ks);
  }

  lemma DictParts(v: Value, ks: seq<key>)
    requires v.Dict? && Plain(v) && Sized(v) && Lists(ks, v.entries.Keys)
    ensures |v.entries.Keys| < U32 && forall k :: k in ks ==> k in v.entries
    ensures forall k :: k in v.entries ==> Plain(v.entries[k]) && |k| < U32 && SizedItem(v.entries[k])
  {
    hide SizedItem;
  }

  lemma DictForms(v: Value, ks: seq<key>)
    requires v.Dict? && ks == SortedKeys(v.entries.Keys) && EncodePairs(v, ks).Ok? && |ks| == |v.entries.Keys|
    requires var b := WriteLE(|ks|, 4) + EncodePairs(v, ks).value; ReadLE(b[..4]) == |ks|
    ensures Encode(v) == Ok(WriteLE(|ks|, 4) + EncodePairs(v, ks).value)
    ensures var b := Encode(v).value;
            var m := DecodePairs(b[4..], |ks|, map[]);
            Decode(b, Code(v)) == if m.Ok? then Ok(Dict(m.value)) else Err(m.error)
  {
    hide EncodePairs, DecodePairs, ReadLE, WriteLE, Lists;
  }

  lemma RestrictAll(m: map<key, Value>, ks: seq<key>)
    requires Lists(ks, m.Keys)
    ensures (forall k :: k in ks ==> k in m) && map[] + Restrict(m, ks) == m
  {
    assert forall k :: k in ks <==> k in m;
  }

  lemma CountRead(n: nat, body: seq<byte>)
    requires n < U32
    ensures var s := WriteLE(n, 4) + body; ReadLE(s[..4]) == n && s[4..] == body + []
  {
    Pow256Values();
    ReadWriteLE(n, 4);
    assert (WriteLE(n, 4) + body)[..4] == WriteLE(n, 4);
  }

  lemma {:induction false} ListLength(ks: seq<key>, s: set<key>)
    requires Lists(ks, s)
    ensures |ks| == |s|
  {
    if ks == [] {
      assert s == {};
    } else {
      forall k
        ensures k in ks[1..] <==> k in s - {ks[0]}
      {
        InTail(ks, k);
      }
      assert ks[0] in ks;
      ListLength(ks[1..], s - {ks[0]});
    }
  }

  // ---------- exactly the plain values ----------

  ghost predicate ReadBack(v: Value) {
    Encode(v).Ok? && Decode(Encode(v).value, Code(v)) == Ok(v)
  }

  /** A sequence is read back only when each of its values is. */
  lemma {:induction false} ItemsReadBack(items: seq<Value>, rest: seq<byte>)
    requires (forall i :: 0 <= i < |items| ==> SizedItem(items[i])) && EncodeItems(items).Ok?
    requires DecodeItems(EncodeItems(items).value + rest, |items|) == Ok(items)
    ensures forall i :: 0 <= i < |items| ==> ReadBack(items[i])
  {
    hide Encode, Decode, DecodeItem, Item, Sized;
    if items != [] {
      var b, more := Encode(items[0]).value, EncodeItems(items[1..]).value;
      assert SizedItem(items[0]);
      ItemRead(Code(items[0]), b, more + rest);
      assert Item(Code(items[0]), b) + more + rest == Item(Code(items[0]), b) + (more + rest);
      var read := DecodeItems(more + rest, |items| - 1).value;
      assert ([Decode(b, Code(items[0])).value] + read)[1..] == read;
      assert items == [items[0]] + items[1..];
      ItemsReadBack(items[1..], rest);
    }
  }

  /** A dictionary's value under a key is read back only when it is read back by itself. */
  lemma {:induction false} PairsReadBack(v: Value, ks: seq<key>, rest: seq<byte>, m: map<key, Value>)
    requires v.Dict? && Ascending(ks) && (forall k :: k in ks ==> k in v.entries) && EncodePairs(v, ks).Ok?
    requires forall k :: k in v.entries ==> |k| < U32 && SizedItem(v.entries[k])
    requires DecodePairs(EncodePairs(v, ks).value + rest, |ks|, m).Ok?
    ensures var f := DecodePairs(EncodePairs(v, ks).value + rest, |ks|, m).value;
            (forall k :: k in m && k !in ks ==> k in f && f[k] == m[k])
            && forall k :: k in ks ==> k in f && (f[k] == v.entries[k] ==> ReadBack(v.entries[k]))
  {
    hide Encode, Decode, DecodePairs, EncodePairs, Item, Sized, Below;
    if ks == [] {
      NoPairs(v, rest, m);
      assert [] + rest == rest;
    } else {
      var k, elem := ks[0], v.entries[ks[0]];
      FirstEncodes(v, ks);
      var b, more := Encode(elem).value, EncodePairs(v, ks[1..]).value;
      EncodePairsStep(v, ks);
      assert Pair(k, elem, b) + more + rest == Pair(k, elem, b) + (more + rest);
      DecodePairsStep(k, elem, b, more + rest, |ks| - 1, m);
      PairsReadBack(v, ks[1..], rest, m[k := Decode(b, Code(elem)).value]);
      forall x
        ensures x in ks[1..] <==> x in ks && x != k
      {
        InTail(ks, x);
      }
    }
  }

  lemma FirstEncodes(v: Value, ks: seq<key>)
    requires v.Dict? && ks != [] && (forall k :: k in ks ==> k in v.entries) && EncodePairs(v, ks).Ok?
    ensures Encode(v.entries[ks[0]]).Ok? && EncodePairs(v, ks[1..]).Ok?
  {
  }

  lemma {:induction false} ReadBackPlain(v: Value)
    requires Sized(v) && ReadBack(v)
    ensures Plain(v)
    decreases v, 1
  {
    hide Encode, Decode, DecodeScalar, Scalar, Sized;
    match v
    case Array(_, _) => ArrayReadBack(v);
    case Dict(_) => DictReadBack(v);
    case _ => ScalarReadBack(v);
  }

  lemma ScalarReadBack(v: Value)
    requires ReadBack(v) && !v.Array? && !v.Dict?
    ensures Plain(v)
  {
  }

  lemma {:induction false} ArrayReadBack(v: Value)
    requires v.Array? && Sized(v) && ReadBack(v)
    ensures Plain(v)
    decreases v, 0
  {
    hide EncodeItems, DecodeItems, ReadLE, WriteLE, Plain;
    CountRead(|v.items|, EncodeItems(v.items).value);
    ItemsReadBack(v.items, []);
    forall i | 0 <= i < |v.items|
      ensures Plain(v.items[i])
    {
      ReadBackPlain(v.items[i]);
    }
    ArrayPlain(v);
  }

  lemma ArrayPlain(v: Value)
    requires v.Array? && v.element == INVALID && forall i :: 0 <= i < |v.items| ==> Plain(v.items[i])
    ensures Plain(v)
  {
  }

  lemma {:induction false} DictReadBack(v: Value)
    requires v.Dict? && Sized(v) && ReadBack(v)
    ensures Plain(v)
    decreases v, 0
  {
    hide Encode, Decode, EncodePairs, DecodePairs, ReadLE, WriteLE, Lists, Plain;
    var ks := SortedKeys(v.entries.Keys);
    DictEncodes(v, ks);
    ListLength(ks, v.entries.Keys);
    CountRead(|ks|, EncodePairs(v, ks).value);
    DictForms(v, ks);
    PairsReadBack(v, ks, [], map[]);
    forall k | k in v.entries
      ensures Plain(v.entries[k])
    {
      ReadBackPlain(v.entries[k]);
    }
    DictPlain(v);
  }

  lemma DictEncodes(v: Value, ks: seq<key>)
    requires v.Dict? && Sized(v) && Encode(v).Ok? && ks == SortedKeys(v.entries.Keys)
    ensures Ascending(ks) && (forall k :: k in ks <==> k in v.entries) && EncodePairs(v, ks).Ok?
    ensures |v.entries.Keys| < U32 && forall k :: k in v.entries ==> |k| < U32 && SizedItem(v.entries[k])
  {
    hide EncodePairs, SizedItem;
  }

  lemma DictPlain(v: Value)
    requires v.Dict? && forall k :: k in v.entries ==> Plain(v.entries[k])
    ensures Plain(v)
  {
  }

  /** Reading inverts writing for exactly the plain values, at any depth of nesting. */
  lemma RoundTripExact(v: Value)
    requires Sized(v)
    ensures Encode(v).Ok? && Decode(Encode(v).value, Code(v)) == Ok(v) <==> Plain(v)
  {
    hide Encode, Decode, Plain, Sized;
    if Plain(v) {
      RoundTrip(v);
    }
    if ReadBack(v) {
      ReadBackPlain(v);
    }
  }

  /** No JSON value is read back: its rendering returns as the text of a JSON string. */
  lemma JsonBecomesString(t: seq<byte>)
    ensures Encode(Json(t)) == Ok(t) && Decode(t, JSON) == Ok(Json([0x22] + t + [0x22])) && [0x22] + t + [0x22] != t
  {
    assert |Quoted(t)| == |t| + 2;
  }

  // ---------- what reading can produce ----------

  /** As `Plain`, but with the JSON strings that reading makes of stored JSON. */
  predicate Producible(v: Value)
    decreases v
  {
    match v
    case Null(_) => false
    case Enum(_, _) => false
    case Json(t) => |t| >= 2 && t == Quoted(t[1..|t| - 1])
    case Timestamp(_, z) => !z
    case Array(t, items) => t == INVALID && forall i :: 0 <= i < |items| ==> Producible(items[i])
    case Dict(m) => forall k :: k in m ==> Producible(m[k])
    case _ => true
  }

  lemma {:induction false} DecodedIsProducible(b: seq<byte>, c: code)
    requires Decode(b, c).Ok?
    ensures Producible(Decode(b, c).value)
    decreases |b|, 2
  {
    hide DecodeItems, DecodePairs, ReadLE;
    if c == ARRAY {
      DecodedItemsProducible(b[4..], ReadLE(b[..4]));
    } else if c == DICT {
      DecodedPairsProducible(b[4..], ReadLE(b[..4]), map[]);
    } else if c == JSON {
      assert Quoted(b)[1..|b| + 1] == b;
    }
  }

  lemma {:induction false} DecodedItemProducible(b: seq<byte>)
    requires DecodeItem(b).Ok?
    ensures Producible(DecodeItem(b).value.0)
    decreases |b|, 0
  {
    hide Decode, Producible, ReadLE;
    Pow256Values();
    DecodedIsProducible(b[6..6 + ReadLE(b[2..6])], ReadLE(b[..2]));
  }

  lemma {:induction false} DecodedItemsProducible(b: seq<byte>, n: nat)
    requires DecodeItems(b, n).Ok?
    ensures forall i :: 0 <= i < |DecodeItems(b, n).value| ==> Producible(DecodeItems(b, n).value[i])
    decreases |b|, 1
  {
    hide DecodeItem, Producible;
    if n > 0 {
      DecodedItemProducible(b);
      DecodedItemsProducible(b[DecodeItem(b).value.1..], n - 1);
    }
  }

  lemma {:induction false} DecodedPairsProducible(b: seq<byte>, n: nat, m: map<key, Value>)
    requires DecodePairs(b, n, m).Ok? && forall k :: k in m ==> Producible(m[k])
    ensures forall k :: k in DecodePairs(b, n, m).value ==> Producible(DecodePairs(b, n, m).value[k])
    decreases |b|, 1
  {
    hide DecodeItem, Producible, ReadLE;
    if n > 0 {
      var size := ReadLE(b[..4]);
      var k, rest := b[4..4 + size], b[4 + size..];
      DecodedItemProducible(rest);
      var elem := DecodeItem(rest).value;
      DecodedPairsProducible(rest[elem.1..], n - 1, m[k := elem.0]);
    }
  }

  /** Among plain values of one type, equal bytes mean equal values. */
  lemma EqualBytes(v: Value, w: Value)
    requires Plain(v) && Sized(v) && Plain(w) && Sized(w) && Code(v) == Code(w)
    ensures Encode(v) == Encode(w) <==> v == w
  {
    hide Encode, Decode, Plain, Sized, Code;
    RoundTrip(v);
    RoundTrip(w);
  }

  // ---------- no value is read from fewer bytes than it is written to ----------

  lemma {:induction false} PlainEncodes(v: Value)
    requires Plain(v)
    ensures Encode(v).Ok?
    decreases v, 1
  {
    hide EncodeItems, EncodePairs;
    match v
    case Array(_, items) => PlainItemsEncode(items);
    case Dict(m) => PlainPairsEncode(v, SortedKeys(m.Keys));
    case _ =>
  }

  lemma {:induction false} PlainItemsEncode(items: seq<Value>)
    requires forall i :: 0 <= i < |items| ==> Plain(items[i])
    ensures EncodeItems(items).Ok?
    decreases items
  {
    hide Encode, Plain;
    if items != [] {
      PlainEncodes(items[0]);
      PlainItemsEncode(items[1..]);
    }
  }

  lemma {:induction false} PlainPairsEncode(v: Value, ks: seq<key>)
    requires v.Dict? && (forall k :: k in ks ==> k in v.entries) && forall k :: k in v.entries ==> Plain(v.entries[k])
    ensures EncodePairs(v, ks).Ok?
    ensures |EncodePairs(v, ks).value| == PairsSize(v.entries, ks)
    decreases v, 0, |ks|
  {
    hide Encode, Plain;
    if ks != [] {
      PlainEncodes(v.entries[ks[0]]);
      PlainPairsEncode(v, ks[1..]);
    }
  }

  /** The bytes of a plain value. */
  ghost function ValueSize(v: Value): (n: nat) {
    if Plain(v) && Encode(v).Ok? then |Encode(v).value| else 0
  }

  /** The bytes of the pairs with the given keys. */
  ghost function PairsSize(m: map<key, Value>, ks: seq<key>): (n: nat)
    requires forall k :: k in ks ==> k in m
  {
    if ks == [] then 0 else 10 + |ks[0]| + ValueSize(m[ks[0]]) + PairsSize(m, ks[1..])
  }

  ghost function DictSize(m: map<key, Value>): (n: nat) {
    PairsSize(m, SortedKeys(m.Keys))
  }

  lemma {:induction false} InsertedSize(m: map<key, Value>, ks: seq<key>, k: key)
    requires (forall x :: x in ks ==> x in m) && k in m
    ensures forall x :: x in Inserted(ks, k) ==> x in m
    ensures PairsSize(m, Inserted(ks, k)) == PairsSize(m, ks) + 10 + |k| + ValueSize(m[k])
  {
    hide ValueSize, Below;
    InsertedMembers(ks, k);
    if ks == [] || Below(k, ks[0]) {
      assert ([k] + ks)[1..] == ks;
    } else {
      InsertedMembers(ks[1..], k);
      InsertedSize(m, ks[1..], k);
      assert ([ks[0]] + Inserted(ks[1..], k))[1..] == Inserted(ks[1..], k);
    }
  }

  lemma {:induction false} ReplacedSize(m: map<key, Value>, ks: seq<key>, k: key, v: Value)
    requires Ascending(ks) && (forall x :: x in ks ==> x in m) && k in m
    ensures PairsSize(m[k := v], ks)
            == PairsSize(m, ks) + if k in ks then ValueSize(v) - ValueSize(m[k]) else 0
  {
    hide ValueSize;
    if ks != [] {
      InTail(ks, k);
      ReplacedSize(m, ks[1..], k, v);
    }
  }

  lemma {:induction false} SameSize(m: map<key, Value>, w: map<key, Value>, ks: seq<key>)
    requires forall x :: x in ks ==> x in m && x in w && m[x] == w[x]
    ensures PairsSize(m, ks) == PairsSize(w, ks)
  {
    if ks != [] { SameSize(m, w, ks[1..]); }
  }

  /** Storing a pair adds at most its own bytes. */
  lemma StoredSize(m: map<key, Value>, k: key, v: Value)
    ensures DictSize(m[k := v]) <= DictSize(m) + 10 + |k| + ValueSize(v)
  {
    hide ValueSize, Inserted;
    var ks, w := SortedKeys(m.Keys), m[k := v];
    if k in m {
      assert w.Keys == m.Keys;
      ReplacedSize(m, ks, k, v);
    } else {
      assert w.Keys == m.Keys + {k};
      InsertedLists(ks, k, m.Keys);
      AscendingUnique(Inserted(ks, k), SortedKeys(w.Keys));
      InsertedSize(w, ks, k);
      SameSize(m, w, ks);
    }
  }

  /** Reading a plain value takes at least as many bytes as writing it produces. */
  lemma {:induction false} DecodeNeeds(b: seq<byte>, c: code)
    requires Decode(b, c).Ok?
    ensures var v := Decode(b, c).value; Plain(v) ==> Encode(v).Ok? && |Encode(v).value| <= |b|
    decreases |b|, 2
  {
    hide DecodeItems, DecodePairs, EncodeItems, EncodePairs, DecodeScalar, Scalar, ReadLE, WriteLE, SortedKeys;
    if c == ARRAY {
      ItemsNeed(b[4..], ReadLE(b[..4]));
    } else if c == DICT {
      var m := DecodePairs(b[4..], ReadLE(b[..4]), map[]).value;
      NoPairsSize();
      PairsNeed(b[4..], ReadLE(b[..4]), map[]);
      if Plain(Dict(m)) { DictBytes(m); }
    } else {
      ScalarNeeds(b, c);
    }
  }

  lemma NoPairsSize()
    ensures DictSize(map[]) == 0
  {
    var m: map<key, Value> := map[];
    FirstIsIn(SortedKeys(m.Keys));
  }

  lemma DictBytes(m: map<key, Value>)
    requires Plain(Dict(m))
    ensures Encode(Dict(m)).Ok? && |Encode(Dict(m)).value| == 4 + DictSize(m)
  {
    hide EncodePairs, PairsSize;
    PlainPairsEncode(Dict(m), SortedKeys(m.Keys));
  }

  lemma ScalarNeeds(b: seq<byte>, c: code)
    requires DecodeScalar(b, c).Ok?
    ensures var v := DecodeScalar(b, c).value;
            !v.Array? && !v.Dict? && !v.Enum? && (v.Json? || |Scalar(v)| <= |b|)
  {
    hide ReadSigned, WriteSigned, ReadLE, WriteLE;
  }

  lemma {:induction false} ItemNeeds(b: seq<byte>)
    requires DecodeItem(b).Ok?
    ensures var r := DecodeItem(b).value; 6 + ValueSize(r.0) <= r.1
    decreases |b|, 0
  {
    hide Decode, Encode, ReadLE;
    Pow256Values();
    DecodeNeeds(b[6..6 + ReadLE(b[2..6])], ReadLE(b[..2]));
  }

  lemma {:induction false} ItemsNeed(b: seq<byte>, n: nat)
    requires DecodeItems(b, n).Ok?
    ensures var items := DecodeItems(b, n).value;
            (forall i :: 0 <= i < |items| ==> Plain(items[i]))
            ==> EncodeItems(items).Ok? && |EncodeItems(items).value| <= |b|
    decreases |b|, 1
  {
    hide DecodeItem, Encode, Code, Plain;
    if n > 0 {
      ItemNeeds(b);
      var first := DecodeItem(b).value;
      ItemsNeed(b[first.1..], n - 1);
      var more := DecodeItems(b[first.1..], n - 1).value;
      assert ([first.0] + more)[1..] == more;
      if forall i :: 0 <= i < |[first.0] + more| ==> Plain(([first.0] + more)[i]) {
        assert Plain(([first.0] + more)[0]);
        PlainEncodes(first.0);
        forall i | 0 <= i < |more|
          ensures Plain(more[i])
        {
          assert ([first.0] + more)[i + 1] == more[i];
        }
      }
    }
  }

  lemma {:induction false} PairsNeed(b: seq<byte>, n: nat, m: map<key, Value>)
    requires DecodePairs(b, n, m).Ok?
    ensures DictSize(DecodePairs(b, n, m).value) <= DictSize(m) + |b|
    decreases |b|, 1
  {
    hide DecodeItem, Encode, ReadLE, DictSize;
    if n > 0 {
      var size := ReadLE(b[..4]);
      var k, rest := b[4..4 + size], b[4 + size..];
      ItemNeeds(rest);
      var elem := DecodeItem(rest).value;
      StoredSize(m, k, elem.0);
      PairsNeed(rest[elem.1..], n - 1, m[k := elem.0]);
    }
  }

  // ---------- the loops that build and take apart the bytes ----------

  ghost function After(prefix: seq<byte>, r: Result<seq<byte>>): (q: Result<seq<byte>>) {
    if r.Ok? then Ok(prefix + r.value) else r
  }

  method Serialize(v: Value) returns (r: Result<seq<byte>>)
    ensures r == Encode(v)
    decreases v
  {
    hide EncodeItems, EncodePairs, Scalar, WriteLE;
    match v {
      case Array(_, items) =>
        r := SerializeItems(v, WriteLE(|items|, 4));
      case Dict(m) =>
        var keys := SortKeys(m.Keys);
        ListLength(keys, m.Keys);
        r := SerializePairs(v, keys, WriteLE(|keys|, 4));
      case Enum(_, _) => return Err(InternalError);
      case _ => return Ok(Scalar(v));
    }
  }

  method SerializeItems(v: Value, start: seq<byte>) returns (r: Result<seq<byte>>)
    requires v.Array?
    ensures r == After(start, EncodeItems(v.items))
    decreases v, 0
  {
    hide Encode, EncodeItems;
    var items := v.items;
    var res := start;
    var i := 0;
    assert items[0..] == items;
    while i < |items|
      invariant 0 <= i <= |items|
      invariant After(start, EncodeItems(items)) == After(res, EncodeItems(items[i..]))
    {
      ItemsStep(items, i, res);
      var elem := items[i];
      var bytes := Serialize(elem);
      if bytes.Err? { return bytes; }
      res := res + Item(Code(elem), bytes.value);
      i := i + 1;
    }
    NoItems(items[i..]);
    r := Ok(res);
    assert res + [] == res;
  }

  lemma NoItems(items: seq<Value>)
    requires items == []
    ensures EncodeItems(items) == Ok([])
  {
  }

  lemma ItemsStep(items: seq<Value>, i: nat, res: seq<byte>)
    requires i < |items|
    ensures var first := Encode(items[i]);
            After(res, EncodeItems(items[i..])) ==
            if first.Err? then first
            else After(res + Item(Code(items[i]), first.value), EncodeItems(items[i + 1..]))
  {
    hide Encode, Item;
    assert items[i..][1..] == items[i + 1..];
    var first, more := Encode(items[i]), EncodeItems(items[i + 1..]);
    if first.Ok? && more.Ok? {
      var x := Item(Code(items[i]), first.value);
      assert res + (x + more.value) == res + x + more.value;
    }
  }

  method SerializePairs(v: Value, keys: seq<key>, start: seq<byte>) returns (r: Result<seq<byte>>)
    requires v.Dict? && forall k :: k in keys ==> k in v.entries
    ensures r == After(start, EncodePairs(v, keys))
    decreases v, 0
  {
    hide Encode, EncodePairs;
    var res := start;
    var i := 0;
    assert keys[0..] == keys;
    while i < |keys|
      invariant 0 <= i <= |keys|
      invariant After(start, EncodePairs(v, keys)) == After(res, EncodePairs(v, keys[i..]))
    {
      PairsStep(v, keys, i, res);
      var elem := v.entries[keys[i]];
      var bytes := Serialize(elem);
      if bytes.Err? { return bytes; }
      res := res + Pair(keys[i], elem, bytes.value);
      i := i + 1;
    }
    NoPairs(v, [], map[]);
    assert keys[i..] == [];
    r := Ok(res);
    assert res + [] == res;
  }

  lemma PairsStep(v: Value, keys: seq<key>, i: nat, res: seq<byte>)
    requires v.Dict? && i < |keys| && forall k :: k in keys ==> k in v.entries
    ensures var elem := v.entries[keys[i]];
            After(res, EncodePairs(v, keys[i..])) ==
            if Encode(elem).Err? then Encode(elem)
            else After(res + Pair(keys[i], elem, Encode(elem).value), EncodePairs(v, keys[i + 1..]))
  {
    hide Encode, Pair;
    assert keys[i..][1..] == keys[i + 1..];
    var elem := v.entries[keys[i]];
    var first, more := Encode(elem), EncodePairs(v, keys[i + 1..]);
    if first.Ok? && more.Ok? {
      var x := Pair(keys[i], elem, first.value);
      assert res + (x + more.value) == res + x + more.value;
    }
  }

  method Deserialize(b: seq<byte>, c: code) returns (r: Result<Value>)
    ensures r == Decode(b, c)
    decreases |b|, 2
  {
    hide DecodeItems, DecodePairs, DecodeScalar, ReadLE;
    if c == ARRAY {
      if |b| < 4 { return Err(InternalError); }
      r := DeserializeItems(b, ReadLE(b[..4]));
    } else if c == DICT {
      if |b| < 4 { return Err(InternalError); }
      r := DeserializePairs(b, ReadLE(b[..4]));
    } else {
      r := DecodeScalar(b, c);
    }
  }

  /** A nested value at `offset`, and the offset after it. */
  method DeserializeItem(b: seq<byte>, offset: nat) returns (r: Result<(Value, nat)>)
    requires 4 <= offset <= |b|
    ensures var q := DecodeItem(b[offset..]);
            r == if q.Ok? then Ok((q.value.0, offset + q.value.1)) else Err(q.error)
    decreases |b|, 0
  {
    hide Decode, ReadLE;
    var rest := b[offset..];
    if offset + 2 > |b| { return Err(InternalError); }
    Pow256Values();
    var tid := ReadLE(b[offset..offset + 2]);
    assert b[offset..offset + 2] == rest[..2];
    if offset + 2 + 4 > |b| { return Err(InternalError); }
    var size := ReadLE(b[offset + 2..offset + 6]);
    assert b[offset + 2..offset + 6] == rest[2..6];
    if offset + 6 + size > |b| { return Err(InternalError); }
    assert b[offset + 6..offset + 6 + size] == rest[6..6 + size];
    var elem := Deserialize(b[offset + 6..offset + 6 + size], tid);
    r := if elem.Ok? then Ok((elem.value, offset + 6 + size)) else Err(elem.error);
  }

  method DeserializeItems(b: seq<byte>, count: nat) returns (r: Result<Value>)
    requires |b| >= 4
    ensures var items := DecodeItems(b[4..], count);
            r == if items.Ok? then Ok(Array(INVALID, items.value)) else Err(items.error)
    decreases |b|, 1
  {
    hide DecodeItem, Decode;
    var offset := 4;
    var items: seq<Value> := [];
    var i := 0;
    ItemsBefore([], b[4..], count);
    while i < count
      invariant 0 <= i <= count && 4 <= offset <= |b|
      invariant DecodeItems(b[4..], count) == Joined(items, DecodeItems(b[offset..], count - i))
      decreases count - i
    {
      var elem := DeserializeItem(b, offset);
      if elem.Err? { return Err(elem.error); }
      assert b[offset..][elem.value.1 - offset..] == b[elem.value.1..];
      JoinedStep(items, elem.value.0, DecodeItems(b[elem.value.1..], count - i - 1));
      items := items + [elem.value.0];
      offset := elem.value.1;
      i := i + 1;
    }
    assert items + [] == items;
    r := Ok(Array(INVALID, items));
  }

  ghost function Joined(items: seq<Value>, r: Result<seq<Value>>): (q: Result<seq<Value>>) {
    if r.Ok? then Ok(items + r.value) else r
  }

  lemma ItemsBefore(none: seq<Value>, b: seq<byte>, n: nat)
    requires none == []
    ensures Joined(none, DecodeItems(b, n)) == DecodeItems(b, n)
  {
    var r := DecodeItems(b, n);
    if r.Ok? { assert none + r.value == r.value; }
  }

  lemma JoinedStep(items: seq<Value>, v: Value, more: Result<seq<Value>>)
    ensures Joined(items, if more.Ok? then Ok([v] + more.value) else more) == Joined(items + [v], more)
  {
    if more.Ok? { assert items + ([v] + more.value) == items + [v] + more.value; }
  }

  lemma DecodePairsAt(b: seq<byte>, offset: nat, n: nat, m: map<key, Value>)
    requires offset <= |b| && n > 0
    ensures DecodePairs(b[offset..], n, m) ==
            if offset + 4 > |b| then Err(InternalError)
            else
              var size := ReadLE(b[offset..offset + 4]);
              if offset + 4 + size > |b| then Err(InternalError)
              else
                var k, elem := b[offset + 4..offset + 4 + size], DecodeItem(b[offset + 4 + size..]);
                if elem.Err? then Err(elem.error)
                else DecodePairs(b[offset + 4 + size + elem.value.1..], n - 1, m[k := elem.value.0])
  {
    hide DecodeItem, ReadLE;
    var rest := b[offset..];
    if |rest| >= 4 {
      assert rest[..4] == b[offset..offset + 4];
      var size := ReadLE(rest[..4]);
      if 4 + size <= |rest| {
        assert rest[4..4 + size] == b[offset + 4..offset + 4 + size];
        assert rest[4 + size..] == b[offset + 4 + size..];
        var elem := DecodeItem(rest[4 + size..]);
        if elem.Ok? {
          assert rest[4 + size..][elem.value.1..] == b[offset + 4 + size + elem.value.1..];
        }
      }
    }
  }

  method DeserializePairs(b: seq<byte>, count: nat) returns (r: Result<Value>)
    requires |b| >= 4
    ensures var m := DecodePairs(b[4..], count, map[]);
            r == if m.Ok? then Ok(Dict(m.value)) else Err(m.error)
    decreases |b|, 1
  {
    hide DecodeItem, Decode, DecodePairs, ReadLE;
    var offset := 4;
    var dict: map<key, Value> := map[];
    var i := 0;
    while i < count
      invariant 0 <= i <= count && 4 <= offset <= |b|
      invariant DecodePairs(b[4..], count, map[]) == DecodePairs(b[offset..], count - i, dict)
      decreases count - i
    {
      DecodePairsAt(b, offset, count - i, dict);
      if offset + 4 > |b| { return Err(InternalError); }
      var size := ReadLE(b[offset..offset + 4]);
      if offset + 4 + size > |b| { return Err(InternalError); }
      var k := b[offset + 4..offset + 4 + size];
      var elem := DeserializeItem(b, offset + 4 + size);
      if elem.Err? { return Err(elem.error); }
      dict := dict[k := elem.value.0];
      offset := elem.value.1;
      i := i + 1;
    }
    NoPairsLeft(b[offset..], dict);
    r := Ok(Dict(dict));
  }

  lemma NoPairsLeft(b: seq<byte>, m: map<key, Value>)
    ensures DecodePairs(b, 0, m) == Ok(m)
  {
  }
}
