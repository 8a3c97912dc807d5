/** Log records and their byte format. */
module LogRecords {
  import opened Bytes
  import opened Checksum
  import opened Results

  const HEADER_SIZE := 41

  // Record types, with their codes on disk.
  const TXN_BEGIN: byte := 1
  const TXN_COMMIT: byte := 2
  const TXN_ABORT: byte := 3
  const TXN_END: byte := 4
  const INSERT: byte := 10
  const UPDATE: byte := 11
  const DELETE: byte := 12
  const CLR: byte := 30

  datatype LogRecord = LogRecord(
    lsn: nat, txnId: nat, prevLsn: nat, undoNextLsn: nat, kind: byte, payload: seq<byte>)
  {
    /** Every field fits its width on disk, and the record size fits 32 bits. */
    ghost predicate InRange() {
      lsn < U64 && txnId < U64 && prevLsn < U64 && undoNextLsn < U64 && Size() < U32
    }

    function Size(): nat { HEADER_SIZE + |payload| }
  }

  /** The header fields before the checksum. */
  function Fields(r: LogRecord): (s: seq<byte>)
    ensures |s| == 37
  {
    WriteLE(r.lsn, 8) + WriteLE(r.txnId, 8) + WriteLE(r.prevLsn, 8) + WriteLE(r.undoNextLsn, 8)
    + [r.kind] + WriteLE(|r.payload|, 4)
  }

  /** The checksum of everything but the checksum field itself. */
  function RecordCrc(r: LogRecord): (c: nat)
    ensures c < U32
  {
    assert Pow2(32) == U32 by { Pow2Of31(); }
    FromBits(Crc(LogPolynomial(), Fields(r) + r.payload))
  }

  lemma NoBytes(poly: Word, crc: Word)
    ensures BitwiseUpdate(poly, crc, []) == crc
  {
  }

  lemma OneByteMore(poly: Word, crc: Word, data: seq<byte>, i: nat)
    requires i < |data|
    ensures BitwiseUpdate(poly, crc, data[..i + 1])
            == ShiftBits(poly, Xor(BitwiseUpdate(poly, crc, data[..i]), Widen(data[i])), 8)
  {
    hide ShiftBits, Widen, Xor;
    assert data[..i + 1][..i] == data[..i];
  }

  lemma NoBits(poly: Word, c: Word)
    ensures ShiftBits(poly, c, 0) == c
  {
  }

  lemma OneBitMore(poly: Word, c: Word, j: nat)
    ensures var d := ShiftBits(poly, c, j);
            ShiftBits(poly, c, j + 1) == if d[0] then Xor(ShiftRight(d, 1), poly) else ShiftRight(d, 1)
  {
    var d := ShiftBits(poly, c, j);
    assert Xor(ShiftRight(d, 1), poly) == Xor(poly, ShiftRight(d, 1));
  }

  /** The log's own checksum loop: eight shifts a byte, no table. */
  method LogChecksum(data: seq<byte>) returns (crc: Word)
    ensures crc == Crc(LogPolynomial(), data)
  {
    hide ShiftBits, ShiftOnce, BitwiseUpdate, LogPolynomial, Widen, Ones;
    crc := Ones();
    NoBytes(LogPolynomial(), crc);
    assert data[..0] == [];
    for i := 0 to |data|
      invariant crc == BitwiseUpdate(LogPolynomial(), Ones(), data[..i])
    {
      OneByteMore(LogPolynomial(), Ones(), data, i);
      crc := Xor(crc, Widen(data[i]));
      ghost var start := crc;
      NoBits(LogPolynomial(), start);
      for j := 0 to 8
        invariant crc == ShiftBits(LogPolynomial(), start, j)
      {
        OneBitMore(LogPolynomial(), start, j);
        crc := if crc[0] then Xor(ShiftRight(crc, 1), LogPolynomial()) else ShiftRight(crc, 1);
      }
    }
    assert data[..|data|] == data;
    crc := Xor(crc, Ones());
  }

  function Encode(r: LogRecord): (s: seq<byte>)
    ensures |s| == r.Size()
  {
    Fields(r) + WriteLE(RecordCrc(r), 4) + r.payload
  }

  function Encodings(rs: seq<LogRecord>): (parts: seq<seq<byte>>)
    ensures |parts| == |rs|
  {
    seq(|rs|, i requires 0 <= i < |rs| => Encode(rs[i]))
  }

  function EncodeAll(rs: seq<LogRecord>): (s: seq<byte>) {
    Concat(Encodings(rs))
  }

  function PayloadSize(s: seq<byte>): (n: nat)
    requires |s| >= HEADER_SIZE
    ensures n < U32
  {
    Pow256Values();
    ReadLE(s[33..37])
  }

  /** The record at the front of `s`, if it is complete and its checksum matches. */
  function Decode(s: seq<byte>): (r: Option<LogRecord>)
    ensures r.Some? ==> r.value.Size() <= |s|
  {
    if |s| < HEADER_SIZE then None
    else
      var n := PayloadSize(s);
      if |s| < HEADER_SIZE + n then None
      else
        var r := LogRecord(ReadLE(s[0..8]), ReadLE(s[8..16]), ReadLE(s[16..24]), ReadLE(s[24..32]),
                           s[32], s[41..41 + n]);
        if ReadLE(s[37..41]) == RecordCrc(r) then Some(r) else None
  }

  /** A complete header of `r` gives back its fields, whatever follows. */
  lemma ReadFields(r: LogRecord, s: seq<byte>)
    requires r.InRange() && HEADER_SIZE <= |s| && s[..37] == Fields(r)
    ensures ReadLE(s[0..8]) == r.lsn && ReadLE(s[8..16]) == r.txnId && ReadLE(s[16..24]) == r.prevLsn
    ensures ReadLE(s[24..32]) == r.undoNextLsn && s[32] == r.kind && PayloadSize(s) == |r.payload|
  {
    var f := Fields(r);
    assert s[0..8] == f[0..8] == WriteLE(r.lsn, 8);
    assert s[8..16] == f[8..16] == WriteLE(r.txnId, 8);
    assert s[16..24] == f[16..24] == WriteLE(r.prevLsn, 8);
    assert s[24..32] == f[24..32] == WriteLE(r.undoNextLsn, 8);
    assert s[32] == f[32];
    assert s[33..37] == f[33..37] == WriteLE(|r.payload|, 4);
    Pow256Values();
    ReadWriteLE(r.lsn, 8);
    ReadWriteLE(r.txnId, 8);
    ReadWriteLE(r.prevLsn, 8);
    ReadWriteLE(r.undoNextLsn, 8);
    ReadWriteLE(|r.payload|, 4);
  }

  /** Decoding inverts encoding, whatever bytes follow the record. */
  lemma DecodeEncode(r: LogRecord, rest: seq<byte>)
    requires r.InRange()
    ensures Decode(Encode(r) + rest) == Some(r)
  {
    var s := Encode(r) + rest;
    Slices(Fields(r), WriteLE(RecordCrc(r), 4), r.payload, rest);
    ReadFields(r, s);
    Pow256Values();
    ReadWriteLE(RecordCrc(r), 4);
  }

  /** Where each field stands in a record's bytes, and what its checksum covers. */
  lemma RecordLayout(r: LogRecord)
    requires r.InRange()
    ensures var s := Encode(r);
            |s| == 41 + |r.payload| && ReadLE(s[0..8]) == r.lsn && ReadLE(s[8..16]) == r.txnId
            && ReadLE(s[16..24]) == r.prevLsn && ReadLE(s[24..32]) == r.undoNextLsn && s[32] == r.kind
            && ReadLE(s[33..37]) == |r.payload| && s[41..] == r.payload
            && ReadLE(s[37..41]) == FromBits(Crc(LogPolynomial(), s[..37] + s[41..]))
  {
    hide ReadLE, WriteLE, Crc, FromBits;
    var s := Encode(r);
    Slices(Fields(r), WriteLE(RecordCrc(r), 4), r.payload, []);
    assert s + [] == s;
    ReadFields(r, s);
    Pow256Values();
    ReadWriteLE(RecordCrc(r), 4);
  }

  lemma EncodeAllAppend(a: seq<LogRecord>, b: seq<LogRecord>)
    ensures EncodeAll(a + b) == EncodeAll(a) + EncodeAll(b)
  {
    assert Encodings(a + b) == Encodings(a) + Encodings(b);
    ConcatAppend(Encodings(a), Encodings(b));
  }

  lemma EncodeAllFirst(rs: seq<LogRecord>)
    requires rs != []
    ensures EncodeAll(rs) == Encode(rs[0]) + EncodeAll(rs[1..])
  {
    assert Encodings(rs)[1..] == Encodings(rs[1..]);
  }

  lemma EmptyEncoding(rs: seq<LogRecord>)
    ensures EncodeAll(rs) == [] <==> rs == []
  {
    if rs != [] { EncodeAllFirst(rs); }
  }

  lemma EncodeAllOne(r: LogRecord)
    ensures EncodeAll([r]) == Encode(r)
  {
    EncodeAllFirst([r]);
  }

  lemma JoinFields(s: seq<byte>)
    requires |s| >= 37
    ensures s[0..8] + s[8..16] + s[16..24] + s[24..32] + [s[32]] + s[33..37] == s[..37]
  {
  }

  /** Decoding loses nothing: the decoded fields re-encode to the header bytes read. */
  lemma FieldsOfDecoded(s: seq<byte>, q: LogRecord)
    requires HEADER_SIZE <= |s| && |q.payload| == PayloadSize(s)
    requires q.lsn == ReadLE(s[0..8]) && q.txnId == ReadLE(s[8..16]) && q.prevLsn == ReadLE(s[16..24])
    requires q.undoNextLsn == ReadLE(s[24..32]) && q.kind == s[32]
    ensures Fields(q) == s[..37]
  {
    WriteReadLE(s[0..8]);
    WriteReadLE(s[8..16]);
    WriteReadLE(s[16..24]);
    WriteReadLE(s[24..32]);
    WriteReadLE(s[33..37]);
    JoinFields(s);
  }

  /** The bytes a record's checksum covers, taken from its encoding. */
  function Covered(s: seq<byte>, n: nat): (c: seq<byte>)
    requires HEADER_SIZE + n <= |s|
    ensures |c| == 37 + n
  {
    s[..37] + s[41..41 + n]
  }

  /** A complete record is accepted exactly when its checksum field matches the bytes it covers. */
  lemma DecodeChecks(s: seq<byte>)
    requires HEADER_SIZE <= |s| && HEADER_SIZE + PayloadSize(s) <= |s|
    ensures Decode(s).Some? <==>
            ReadLE(s[37..41]) == FromBits(Crc(LogPolynomial(), Covered(s, PayloadSize(s))))
  {
    hide Crc, FromBits, LogPolynomial, ReadLE, WriteLE, Fields;
    var n := PayloadSize(s);
    var q := LogRecord(ReadLE(s[0..8]), ReadLE(s[8..16]), ReadLE(s[16..24]), ReadLE(s[24..32]),
                       s[32], s[41..41 + n]);
    FieldsOfDecoded(s, q);
  }

  lemma CoveredUpdate(s: seq<byte>, n: nat, i: nat, b: byte)
    requires HEADER_SIZE + n <= |s| && (i < 37 || 41 <= i < 41 + n)
    ensures var j := if i < 37 then i else i - 4;
            |Covered(s, n)| == 37 + n && Covered(s, n)[j] == s[i] && Covered(s[i := b], n) == Covered(s, n)[j := b]
  {
    var t, j := s[i := b], if i < 37 then i else i - 4;
    forall k | 0 <= k < 37 + n
      ensures Covered(t, n)[k] == Covered(s, n)[j := b][k]
    {
    }
  }

  lemma CoveredChange(s: seq<byte>, n: nat, i: nat, b: byte)
    requires HEADER_SIZE + n <= |s| && (i < 37 || 41 <= i < 41 + n) && s[i] != b
    ensures Crc(LogPolynomial(), Covered(s[i := b], n)) != Crc(LogPolynomial(), Covered(s, n))
  {
    hide Crc, LogPolynomial, Covered;
    var j := if i < 37 then i else i - 4;
    CoveredUpdate(s, n, i, b);
    PolynomialTopBit();
    OneByteChangeDetected(LogPolynomial(), Covered(s, n), j, b);
  }

  /** No single-byte change of a record, outside its length field, goes unnoticed. */
  lemma CorruptRecordRejected(s: seq<byte>, i: nat, b: byte)
    requires Decode(s).Some? && i < HEADER_SIZE + PayloadSize(s) && !(33 <= i < 37) && s[i] != b
    ensures Decode(s[i := b]) == None
  {
    var t := s[i := b];
    var n := PayloadSize(s);
    assert t[33..37] == s[33..37];
    DecodeChecks(s);
    DecodeChecks(t);
    if 37 <= i < 41 {
      assert Covered(t, n) == Covered(s, n);
      assert t[37..41][i - 37] == b && s[37..41][i - 37] == s[i];
      WriteReadLE(t[37..41]);
      WriteReadLE(s[37..41]);
    } else {
      CoveredChange(s, n, i, b);
      ToFromBits(Crc(LogPolynomial(), Covered(s, n)));
      ToFromBits(Crc(LogPolynomial(), Covered(t, n)));
      assert t[37..41] == s[37..41];
    }
  }
}
