/** Reading the log back: the cursor over segments, torn tails, and seeking to an LSN. */
module LogReading {
  import opened Bytes
  import opened LogRecords
  import opened Results
  import WriteAheadLog

  /**
   * The record at `off` of one segment's record area; `full_size` is a 32-bit sum, so a payload size
   * that would overflow it gives a short buffer, which does not parse.
   */
  function ParseAt(area: seq<byte>, off: nat): (r: Option<LogRecord>)
    requires off <= |area|
    ensures r.Some? ==> off + r.value.Size() <= |area|
  {
    var rest := area[off..];
    if |rest| < HEADER_SIZE then None
    else
      var fullSize := HEADER_SIZE + PayloadSize(rest);
      if |rest| < fullSize || fullSize >= U32 then None
      else Decode(rest[..fullSize])
  }

  /** Everything that repeated `read_next` returns from segment `idx`, offset `off`, on. */
  function Remaining(areas: seq<seq<byte>>, idx: nat, off: nat): (rs: seq<LogRecord>)
    requires idx < |areas| && off <= |areas[idx]|
    decreases |areas| - idx, |areas[idx]| - off
  {
    if |areas[idx]| - off < HEADER_SIZE then
      if idx + 1 < |areas| then Remaining(areas, idx + 1, 0) else []
    else
      var r := ParseAt(areas[idx], off);
      if r.None? then [] else [r.value] + Remaining(areas, idx, off + r.value.Size())
  }

  /** The whole log as a reader sees it from its first segment. */
  function ReadAll(areas: seq<seq<byte>>): (rs: seq<LogRecord>) {
    if areas == [] then [] else Remaining(areas, 0, 0)
  }

  // ---------- torn tails ----------

  /** How many of `rs` lie wholly within the first `cut` bytes of their encoding. */
  function FitsBefore(rs: seq<LogRecord>, cut: nat): (k: nat)
    ensures k <= |rs|
  {
    if rs == [] || cut < rs[0].Size() then 0
    else 1 + FitsBefore(rs[1..], cut - rs[0].Size())
  }

  ghost predicate AllInRange(rs: seq<LogRecord>) {
    forall i :: 0 <= i < |rs| ==> rs[i].InRange()
  }

  lemma FieldsFirst(r: LogRecord)
    ensures |Encode(r)| == r.Size() >= 41 && Encode(r)[0..37] == Encode(r)[..37] == Fields(r)
  {
  }

  lemma ParseRecord(area: seq<byte>, off: nat, r: LogRecord)
    requires r.InRange() && off + r.Size() <= |area| && area[off..off + r.Size()] == Encode(r)
    ensures ParseAt(area, off) == Some(r)
  {
    hide Decode, Fields, Encode, PayloadSize;
    var rest := area[off..];
    SliceOfSlice(area, off, |area|, 0, r.Size());
    assert rest[..r.Size()] == rest[0..r.Size()] == Encode(r);
    LengthFirst(rest, r);
    DecodeEncode(r, []);
    assert Encode(r) + [] == Encode(r);
  }

  lemma LengthFirst(rest: seq<byte>, r: LogRecord)
    requires r.InRange() && r.Size() <= |rest| && rest[..r.Size()] == Encode(r)
    ensures |rest| >= HEADER_SIZE && PayloadSize(rest) == |r.payload|
  {
    hide Decode, Fields, Encode, PayloadSize;
    SliceOfSlice(rest, 0, r.Size(), 0, 37);
    assert rest[0..r.Size()] == rest[..r.Size()] && rest[0..37] == rest[..37];
    FieldsFirst(r);
    ReadFields(r, rest);
  }

  /** A record cut short, whether in its header or in its payload, is not returned. */
  lemma ParseTorn(area: seq<byte>, off: nat, r: LogRecord)
    requires r.InRange() && off <= |area| < off + r.Size() && area[off..] == Encode(r)[..|area| - off]
    ensures ParseAt(area, off) == None
  {
    var rest := area[off..];
    if |rest| >= HEADER_SIZE {
      assert rest[..37] == Encode(r)[..37] == Fields(r);
      ReadFields(r, rest);
    }
  }

  lemma RemainingRecord(areas: seq<seq<byte>>, idx: nat, off: nat, r: LogRecord)
    requires idx < |areas| && off <= |areas[idx]| && ParseAt(areas[idx], off) == Some(r)
    ensures Remaining(areas, idx, off) == [r] + Remaining(areas, idx, off + r.Size())
  {
    hide Decode;
  }

  lemma SliceAt(area: seq<byte>, off: nat, e: seq<byte>, t: seq<byte>)
    requires off <= |area| && area[off..] == e + t
    ensures |area| - off == |e| + |t| && area[off..off + |e|] == e && area[off + |e|..] == t
  {
    assert area[off..][..|e|] == e && area[off..][|e|..] == t;
  }

  lemma CutPastFirst(e: seq<byte>, t: seq<byte>, cut: nat)
    requires |e| <= cut <= |e| + |t|
    ensures (e + t)[..cut] == e + t[..cut - |e|]
  {
  }

  /** From a record boundary of the last segment: the records before the cut, then nothing. */
  lemma {:induction false} ReadCutSegment(areas: seq<seq<byte>>, off: nat, rs: seq<LogRecord>, cut: nat)
    requires areas != [] && AllInRange(rs) && cut <= |EncodeAll(rs)|
    requires var last := areas[|areas| - 1]; off <= |last| && last[off..] == EncodeAll(rs)[..cut]
    ensures Remaining(areas, |areas| - 1, off) == rs[..FitsBefore(rs, cut)]
    decreases |rs|
  {
    hide ParseAt, Encode, EncodeAll;
    EmptyEncoding(rs);
    var i := |areas| - 1;
    if rs == [] {
      assert |areas[i]| - off == 0;
    } else {
      EncodeAllFirst(rs);
      var e, t := Encode(rs[0]), EncodeAll(rs[1..]);
      if cut < |e| {
        assert areas[i][off..] == e[..cut];
        ParseTorn(areas[i], off, rs[0]);
      } else {
        CutPastFirst(e, t, cut);
        SliceAt(areas[i], off, e, t[..cut - |e|]);
        ParseRecord(areas[i], off, rs[0]);
        RemainingRecord(areas, i, off, rs[0]);
        ReadCutSegment(areas, off + |e|, rs[1..], cut - |e|);
        assert rs[..FitsBefore(rs, cut)] == [rs[0]] + rs[1..][..FitsBefore(rs[1..], cut - |e|)];
      }
    }
  }

  /** From a record boundary of a complete segment: its records, then the next segment. */
  lemma {:induction false} ReadWholeSegment(areas: seq<seq<byte>>, idx: nat, off: nat, rs: seq<LogRecord>)
    requires idx + 1 < |areas| && AllInRange(rs)
    requires off <= |areas[idx]| && areas[idx][off..] == EncodeAll(rs)
    ensures Remaining(areas, idx, off) == rs + Remaining(areas, idx + 1, 0)
    decreases |rs|
  {
    hide ParseAt, Encode, EncodeAll;
    EmptyEncoding(rs);
    if rs == [] {
      assert |areas[idx]| - off == 0;
    } else {
      EncodeAllFirst(rs);
      var e := Encode(rs[0]);
      SliceAt(areas[idx], off, e, EncodeAll(rs[1..]));
      ParseRecord(areas[idx], off, rs[0]);
      RemainingRecord(areas, idx, off, rs[0]);
      ReadWholeSegment(areas, idx, off + |e|, rs[1..]);
      assert rs == [rs[0]] + rs[1..];
    }
  }

  /** The segment files of a log whose last segment lost everything from byte `cut` on. */
  ghost predicate TornLog(areas: seq<seq<byte>>, segments: seq<seq<LogRecord>>, cut: nat) {
    && |areas| == |segments| > 0
    && (forall i :: 0 <= i < |segments| ==> AllInRange(segments[i]))
    && (forall i :: 0 <= i < |areas| - 1 ==> areas[i] == EncodeAll(segments[i]))
    && cut <= |EncodeAll(segments[|segments| - 1])|
    && areas[|areas| - 1] == EncodeAll(segments[|segments| - 1])[..cut]
  }

  lemma RecordsAssociate(a: seq<LogRecord>, b: seq<LogRecord>, c: seq<LogRecord>)
    ensures a + b + c == a + (b + c)
  {
  }

  lemma {:induction false} FlattenFirst(segments: seq<seq<LogRecord>>)
    requires segments != []
    ensures WriteAheadLog.Flatten(segments) == segments[0] + WriteAheadLog.Flatten(segments[1..])
    decreases |segments|
  {
    var n := |segments| - 1;
    if n == 0 {
      assert segments[..0] == [] && segments[1..] == [];
    } else {
      FlattenFirst(segments[..n]);
      assert segments[1..][..n - 1] == segments[..n][1..];
      RecordsAssociate(segments[0], WriteAheadLog.Flatten(segments[..n][1..]), segments[n]);
    }
  }

  lemma FlattenSlice(segments: seq<seq<LogRecord>>, idx: nat)
    requires idx < |segments|
    ensures WriteAheadLog.Flatten(segments[idx..]) == segments[idx] + WriteAheadLog.Flatten(segments[idx + 1..])
  {
    FlattenFirst(segments[idx..]);
    assert segments[idx..][1..] == segments[idx + 1..];
  }

  lemma {:induction false} ReadTornFrom(
      areas: seq<seq<byte>>, segments: seq<seq<LogRecord>>, cut: nat, idx: nat)
    requires TornLog(areas, segments, cut) && idx < |areas|
    ensures var last := segments[|segments| - 1];
            Remaining(areas, idx, 0)
            == WriteAheadLog.Flatten(segments[idx..|segments| - 1]) + last[..FitsBefore(last, cut)]
    decreases |areas| - idx
  {
    hide Remaining, EncodeAll, FitsBefore;
    var last := segments[|segments| - 1];
    assert areas[idx][0..] == areas[idx];
    if idx == |areas| - 1 {
      ReadCutSegment(areas, 0, last, cut);
    } else {
      ReadWholeSegment(areas, idx, 0, segments[idx]);
      ReadTornFrom(areas, segments, cut, idx + 1);
      FlattenSlice(segments[..|segments| - 1], idx);
      assert segments[idx..|segments| - 1] == segments[..|segments| - 1][idx..];
      assert segments[idx + 1..|segments| - 1] == segments[..|segments| - 1][idx + 1..];
    }
  }

  /**
   * Cutting the last segment at any byte makes the reader return exactly the records that fit wholly
   * before the cut, in order, and then stop.
   */
  lemma ReadTornLog(areas: seq<seq<byte>>, segments: seq<seq<LogRecord>>, cut: nat)
    requires TornLog(areas, segments, cut)
    ensures var last := segments[|segments| - 1];
            ReadAll(areas)
            == WriteAheadLog.Flatten(segments[..|segments| - 1]) + last[..FitsBefore(last, cut)]
  {
    ReadTornFrom(areas, segments, cut, 0);
    assert segments[0..|segments| - 1] == segments[..|segments| - 1];
  }

  lemma {:induction false} AllFit(rs: seq<LogRecord>)
    ensures FitsBefore(rs, |EncodeAll(rs)|) == |rs|
  {
    if rs != [] {
      EncodeAllFirst(rs);
      AllFit(rs[1..]);
    }
  }

  /** Reading back an undamaged log returns every record the writer put into segments, in LSN order. */
  lemma ReadBackWritten(w: WriteAheadLog.Log, areas: seq<seq<byte>>)
    requires w.segments != [] && WriteAheadLog.Encodes(areas, w.segments)
    requires forall i :: 0 <= i < |w.segments| ==> AllInRange(w.segments[i])
    ensures ReadAll(areas) == WriteAheadLog.Flatten(w.segments)
  {
    hide ReadAll, EncodeAll, FitsBefore;
    var last := w.segments[|w.segments| - 1];
    assert EncodeAll(last)[..|EncodeAll(last)|] == EncodeAll(last);
    AllFit(last);
    ReadTornLog(areas, w.segments, |EncodeAll(last)|);
    assert last[..|last|] == last;
  }

  lemma DecodedInRange(s: seq<byte>)
    requires Decode(s).Some?
    ensures Decode(s).value.lsn < U64
  {
    Pow256Values();
  }

  lemma {:induction false} RemainingInRange(areas: seq<seq<byte>>, idx: nat, off: nat)
    requires idx < |areas| && off <= |areas[idx]|
    ensures forall i :: 0 <= i < |Remaining(areas, idx, off)| ==> Remaining(areas, idx, off)[i].lsn < U64
    decreases |areas| - idx, |areas[idx]| - off
  {
    hide Decode, PayloadSize;
    var area := areas[idx];
    if |area| - off < HEADER_SIZE {
      if idx + 1 < |areas| { RemainingInRange(areas, idx + 1, 0); }
    } else {
      var r := ParseAt(area, off);
      if r.Some? {
        DecodedInRange(area[off..][..HEADER_SIZE + PayloadSize(area[off..])]);
        RemainingInRange(areas, idx, off + r.value.Size());
      }
    }
  }

  /** Whatever bytes the segments hold, the LSNs read are 64-bit. */
  lemma ReadInRange(areas: seq<seq<byte>>)
    ensures forall i :: 0 <= i < |ReadAll(areas)| ==> ReadAll(areas)[i].lsn < U64
  {
    if areas != [] { RemainingInRange(areas, 0, 0); }
  }

  // ---------- the cursor ----------

  /** The records from the first one with an LSN of at least `l`. */
  function FromLsn(rs: seq<LogRecord>, l: nat): (t: seq<LogRecord>) {
    if rs == [] || rs[0].lsn >= l then rs else FromLsn(rs[1..], l)
  }

  /** The header first, for the payload size; then the whole record. */
  method ReadHere(area: seq<byte>, off: nat) returns (r: Option<LogRecord>)
    requires off + HEADER_SIZE <= |area|
    ensures r == ParseAt(area, off)
  {
    hide Decode;
    var rest := area[off..];
    var fullSize := HEADER_SIZE + PayloadSize(rest[..HEADER_SIZE]);
    assert rest[..HEADER_SIZE][33..37] == rest[33..37];
    if |rest| < fullSize || fullSize >= U32 { return None; }
    r := Decode(rest[..fullSize]);
  }

  class LogReader {
    const areas: seq<seq<byte>>
    var isOpen: bool
    var index: nat
    var offset: nat

    ghost predicate Valid()
      reads this
    {
      isOpen ==> index < |areas| && offset <= |areas[index]|
    }

    /** What the cursor has still to return. */
    ghost function ToRead(): (rs: seq<LogRecord>)
      requires Valid()
      reads this
    {
      if isOpen then Remaining(areas, index, offset) else []
    }

    constructor (areas: seq<seq<byte>>)
      ensures Valid() && this.areas == areas && !isOpen
    {
      this.areas := areas;
      isOpen, index, offset := false, 0, 0;
    }

    method SeekToFirst() returns (ok: bool)
      requires Valid()
      modifies this
      ensures Valid() && ok == (areas != [])
      ensures ok ==> isOpen && ToRead() == ReadAll(areas)
      ensures !ok ==> !isOpen && ToRead() == []
    {
      if |areas| == 0 {
        isOpen := false;
        return false;
      }
      isOpen, index, offset := true, 0, 0;
      return true;
    }

    method ReadNext() returns (r: Option<LogRecord>)
      requires Valid()
      modifies this
      ensures Valid() && isOpen == old(isOpen)
      ensures old(ToRead()) == [] ==> r == None && ToRead() == []
      ensures old(ToRead()) != [] ==>
                r == Some(old(ToRead())[0]) && ToRead() == old(ToRead())[1..]
                && r.value.Size() <= offset
                && Remaining(areas, index, offset - r.value.Size()) == old(ToRead())
    {
      hide ParseAt;
      if !isOpen { return None; }
      while |areas[index]| - offset < HEADER_SIZE
        invariant Valid() && isOpen && Remaining(areas, index, offset) == old(ToRead())
        decreases |areas| - index
      {
        if index + 1 >= |areas| { return None; }
        index, offset := index + 1, 0;
      }
      r := ReadHere(areas[index], offset);
      if r.Some? {
        RemainingRecord(areas, index, offset, r.value);
        offset := offset + r.value.Size();
      }
    }

    /** Positions the cursor on the first record whose LSN is at least `lsn`. */
    method SeekToLsn(lsn: nat) returns (found: bool)
      requires Valid()
      modifies this
      ensures Valid()
      ensures found == (FromLsn(ReadAll(areas), lsn) != [])
      ensures found ==> isOpen && ToRead() == FromLsn(ReadAll(areas), lsn)
    {
      hide Remaining, FromLsn;
      FromNothing(lsn);
      var ok := SeekToFirst();
      if !ok { return false; }
      while true
        invariant Valid() && isOpen
        invariant FromLsn(ToRead(), lsn) == FromLsn(ReadAll(areas), lsn)
        decreases |ToRead()|
      {
        FromFirst(ToRead(), lsn);
        var r := ReadNext();
        if r.None? { return false; }
        if r.value.lsn >= lsn {
          offset := offset - r.value.Size();
          return true;
        }
      }
    }
  }

  lemma FromNothing(l: nat)
    ensures FromLsn([], l) == []
  {
  }

  lemma FromFirst(rs: seq<LogRecord>, l: nat)
    ensures rs != [] ==> FromLsn(rs, l) == if rs[0].lsn >= l then rs else FromLsn(rs[1..], l)
  {
  }
}
