/** Composite index keys: a counted list of values, NULL marked by the largest length. */
module IndexKeys {
  import opened Bytes
  import opened Results
  import opened Values

  const NULL_MARK := 0xffff_ffff

  ghost function Part(v: Value): (r: Result<seq<byte>>) {
    if v.Null? then Ok(WriteLE(NULL_MARK, 4))
    else if Encode(v).Err? then Encode(v)
    else Ok(WriteLE(|Encode(v).value|, 4) + Encode(v).value)
  }

  ghost function Parts(vs: seq<Value>): (r: Result<seq<byte>>) {
    if vs == [] then Ok([])
    else if Part(vs[0]).Err? then Part(vs[0])
    else
      var more := Parts(vs[1..]);
      if more.Err? then more else Ok(Part(vs[0]).value + more.value)
  }

  ghost function KeyBytes(vs: seq<Value>): (r: Result<seq<byte>>) {
    After(WriteLE(|vs|, 4), Parts(vs))
  }

  /** One value of type `c` at the front of `b`, and how many bytes it takes. */
  function ReadPart(b: seq<byte>, c: code): (r: Result<(Value, nat)>)
    ensures r.Ok? ==> 4 <= r.value.1 <= |b|
  {
    if |b| < 4 then Err(InternalError)
    else
      var n := ReadLE(b[..4]);
      if n == NULL_MARK then Ok((Null(c), 4))
      else if 4 + n > |b| then Err(InternalError)
      else
        var v := Decode(b[4..4 + n], c);
        if v.Ok? then Ok((v.value, 4 + n)) else Err(v.error)
  }

  function ReadParts(b: seq<byte>, types: seq<code>): (r: Result<seq<Value>>)
    decreases |types|
  {
    if types == [] then Ok([])
    else
      var first := ReadPart(b, types[0]);
      if first.Err? then Err(first.error)
      else
        var more := ReadParts(b[first.value.1..], types[1..]);
        if more.Ok? then Ok([first.value.0] + more.value) else more
  }

  function ReadKey(b: seq<byte>, types: seq<code>): (r: Result<seq<Value>>) {
    if |b| < 4 then Err(InternalError)
    else
      var count := ReadLE(b[..4]);
      if count > |types| then Err(InternalError) else ReadParts(b[4..], types[..count])
  }

  // ---------- the round trip ----------

  ghost predicate Keyable(v: Value, c: code) {
    Code(v) == c
    && (v.Null? || (Plain(v) && Sized(v) && (Encode(v).Ok? ==> |Encode(v).value| < NULL_MARK)))
  }

  /** A key for the given column types: a value or NULL per column, for all columns or a prefix of them. */
  ghost predicate KeyFor(vs: seq<Value>, types: seq<code>) {
    |vs| <= |types| && |vs| < U32 && forall i :: 0 <= i < |vs| ==> Keyable(vs[i], types[i])
  }

  lemma PartRoundTrip(v: Value, c: code, rest: seq<byte>)
    requires Keyable(v, c)
    ensures Part(v).Ok?
    ensures var s := Part(v).value + rest;
            ReadPart(s, c) == Ok((v, |Part(v).value|)) && s[|Part(v).value|..] == rest
  {
    hide Encode, Decode, Plain, Sized, ReadLE, WriteLE;
    Pow256Values();
    if v.Null? {
      ReadWriteLE(NULL_MARK, 4);
      assert (WriteLE(NULL_MARK, 4) + rest)[..4] == WriteLE(NULL_MARK, 4);
    } else {
      RoundTrip(v);
      var b := Encode(v).value;
      ReadWriteLE(|b|, 4);
      Slices(WriteLE(|b|, 4), b, [], rest);
      assert WriteLE(|b|, 4) + b + [] + rest == WriteLE(|b|, 4) + b + rest;
    }
  }

  lemma {:induction false} PartsRoundTrip(vs: seq<Value>, types: seq<code>)
    requires |vs| == |types| && forall i :: 0 <= i < |vs| ==> Keyable(vs[i], types[i])
    ensures Parts(vs).Ok? && ReadParts(Parts(vs).value, types) == Ok(vs)
    decreases |vs|
  {
    hide Part, ReadPart, Keyable;
    if vs != [] {
      PartsRoundTrip(vs[1..], types[1..]);
      PartRoundTrip(vs[0], types[0], Parts(vs[1..]).value);
      assert vs == [vs[0]] + vs[1..];
    }
  }

  /** Reading a key's bytes with its column types gives the key back, NULLs included. */
  lemma KeyRoundTrip(vs: seq<Value>, types: seq<code>)
    requires KeyFor(vs, types)
    ensures KeyBytes(vs).Ok? && ReadKey(KeyBytes(vs).value, types) == Ok(vs)
  {
    hide Parts, ReadParts, Keyable, ReadLE, WriteLE;
    PartsRoundTrip(vs, types[..|vs|]);
    Pow256Values();
    CountRead(|vs|, Parts(vs).value);
    assert Parts(vs).value + [] == Parts(vs).value;
  }

  /** For fixed column types, two keys have equal bytes exactly when they are the same key. */
  lemma KeyBytesIdentify(a: seq<Value>, b: seq<Value>, types: seq<code>)
    requires KeyFor(a, types) && KeyFor(b, types)
    ensures KeyBytes(a) == KeyBytes(b) <==> a == b
  {
    hide KeyBytes, ReadKey, KeyFor;
    KeyRoundTrip(a, types);
    KeyRoundTrip(b, types);
  }

  // ---------- the loops ----------

  method SerializeKey(vs: seq<Value>) returns (r: Result<seq<byte>>)
    ensures r == KeyBytes(vs)
  {
    hide Encode, Parts, Part, WriteLE;
    var buffer := WriteLE(|vs|, 4);
    var i := 0;
    assert vs[0..] == vs;
    while i < |vs|
      invariant 0 <= i <= |vs|
      invariant KeyBytes(vs) == After(buffer, Parts(vs[i..]))
    {
      PartsStep(vs, i, buffer);
      var part := SerializePart(vs[i]);
      if part.Err? { return part; }
      buffer := buffer + part.value;
      i := i + 1;
    }
    NoParts(vs[i..]);
    assert buffer + [] == buffer;
    r := Ok(buffer);
  }

  method SerializePart(v: Value) returns (r: Result<seq<byte>>)
    ensures r == Part(v)
  {
    if v.Null? { return Ok(WriteLE(NULL_MARK, 4)); }
    var bytes := Serialize(v);
    if bytes.Err? { return bytes; }
    r := Ok(WriteLE(|bytes.value|, 4) + bytes.value);
  }

  lemma NoParts(vs: seq<Value>)
    requires vs == []
    ensures Parts(vs) == Ok([])
  {
  }

  lemma PartsStep(vs: seq<Value>, i: nat, buffer: seq<byte>)
    requires i < |vs|
    ensures After(buffer, Parts(vs[i..])) ==
            if Part(vs[i]).Err? then Part(vs[i]) else After(buffer + Part(vs[i]).value, Parts(vs[i + 1..]))
  {
    hide Part;
    assert vs[i..][1..] == vs[i + 1..];
    var first, more := Part(vs[i]), Parts(vs[i + 1..]);
    if first.Ok? && more.Ok? {
      assert buffer + (first.value + more.value) == buffer + first.value + more.value;
    }
  }

  method DeserializeKey(b: seq<byte>, types: seq<code>) returns (r: Result<seq<Value>>)
    ensures r == ReadKey(b, types)
  {
    hide ReadPart, ReadLE;
    if |b| < 4 { return Err(InternalError); }
    var count := ReadLE(b[..4]);
    if count > |types| { return Err(InternalError); }
    ghost var cols := types[..count];
    var values: seq<Value> := [];
    var offset, i := 4, 0;
    assert cols[0..] == cols;
    NothingJoined(ReadParts(b[4..], cols));
    while i < count
      invariant 0 <= i <= count && 4 <= offset <= |b|
      invariant ReadParts(b[4..], cols) == Joined(values, ReadParts(b[offset..], cols[i..]))
      decreases count - i
    {
      var part := DeserializePart(b, offset, types[i]);
      if part.Err? { return Err(part.error); }
      assert cols[i..][1..] == cols[i + 1..];
      assert b[offset..][part.value.1 - offset..] == b[part.value.1..];
      JoinedStep(values, part.value.0, ReadParts(b[part.value.1..], cols[i + 1..]));
      values := values + [part.value.0];
      offset := part.value.1;
      i := i + 1;
    }
    assert values + [] == values;
    r := Ok(values);
  }

  lemma NothingJoined(r: Result<seq<Value>>)
    ensures Joined([], r) == r
  {
    if r.Ok? { assert [] + r.value == r.value; }
  }

  method DeserializePart(b: seq<byte>, offset: nat, c: code) returns (r: Result<(Value, nat)>)
    requires offset <= |b|
    ensures var q := ReadPart(b[offset..], c);
            r == if q.Ok? then Ok((q.value.0, offset + q.value.1)) else Err(q.error)
  {
    hide Decode, ReadLE;
    if offset + 4 > |b| { return Err(InternalError); }
    var len := ReadLE(b[offset..offset + 4]);
    assert b[offset..offset + 4] == b[offset..][..4];
    if len == NULL_MARK { return Ok((Null(c), offset + 4)); }
    if offset + 4 + len > |b| { return Err(InternalError); }
    assert b[offset + 4..offset + 4 + len] == b[offset..][4..4 + len];
    var v := Deserialize(b[offset + 4..offset + 4 + len], c);
    r := if v.Ok? then Ok((v.value, offset + 4 + len)) else Err(v.error);
  }
}
