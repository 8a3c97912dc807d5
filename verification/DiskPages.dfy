/** The page header codec and the checksum protocol of the disk manager. */
module DiskPages {
  import opened Arith
  import opened Bytes
  import opened Checksum
  import opened Results

  const HEADER_SIZE := 36
  const CHECKSUM_AT := 32
  const LSN_AT := 12
  const INVALID_PAGE_ID := U64 - 1

  datatype PageHeader = PageHeader(
    pageId: nat, pageType: byte, flags: byte, headerVersion: nat,
    lsn: nat, generation: nat, payloadSize: nat, checksum: nat)
  {
    /** Every field fits its on-disk width. */
    ghost predicate InRange() {
      pageId < U64 && headerVersion < U16 && lsn < U64 && generation < U64
      && payloadSize < U32 && checksum < U32
    }
  }

  function SerializeHeader(h: PageHeader): (s: seq<byte>)
    ensures |s| == HEADER_SIZE
  {
    WriteLE(h.pageId, 8) + [h.pageType] + [h.flags] + WriteLE(h.headerVersion, 2)
    + WriteLE(h.lsn, 8) + WriteLE(h.generation, 8) + WriteLE(h.payloadSize, 4) + WriteLE(h.checksum, 4)
  }

  function DeserializeHeader(s: seq<byte>): (h: PageHeader)
    requires |s| >= HEADER_SIZE
  {
    PageHeader(ReadLE(s[0..8]), s[8], s[9], ReadLE(s[10..12]),
               ReadLE(s[12..20]), ReadLE(s[20..28]), ReadLE(s[28..32]), ReadLE(s[32..36]))
  }

  lemma HeaderSlices(h: PageHeader)
    ensures var s := SerializeHeader(h);
            s[0..8] == WriteLE(h.pageId, 8) && s[8] == h.pageType && s[9] == h.flags
            && s[10..12] == WriteLE(h.headerVersion, 2) && s[12..20] == WriteLE(h.lsn, 8)
            && s[20..28] == WriteLE(h.generation, 8) && s[28..32] == WriteLE(h.payloadSize, 4)
            && s[32..36] == WriteLE(h.checksum, 4)
  {
    var front := WriteLE(h.pageId, 8) + [h.pageType] + [h.flags];
    var version, lsn, generation := WriteLE(h.headerVersion, 2), WriteLE(h.lsn, 8), WriteLE(h.generation, 8);
    var size, checksum := WriteLE(h.payloadSize, 4), WriteLE(h.checksum, 4);
    Joined(front, version, lsn, generation, size, checksum);
    Slices(WriteLE(h.pageId, 8), [h.pageType], [h.flags], version + lsn + (generation + size + checksum));
  }

  lemma Joined(a: seq<byte>, b: seq<byte>, c: seq<byte>, d: seq<byte>, e: seq<byte>, f: seq<byte>)
    ensures var s := a + b + c + d + e + f;
            s == a + (b + c + (d + e + f)) && s[|a|..|a| + |b|] == b && s[|a| + |b|..|a| + |b| + |c|] == c
            && (var n := |a| + |b| + |c|;
                s[n..n + |d|] == d && s[n + |d|..n + |d| + |e|] == e && s[n + |d| + |e|..] == f)
  {
    Slices(a, b, c, d + e + f);
    assert a + b + c + (d + e + f) == a + b + c + d + e + f;
    Slices(a + b + c, d, e, f);
  }

  lemma HeaderRoundTrip(h: PageHeader)
    requires h.InRange()
    ensures DeserializeHeader(SerializeHeader(h)) == h
  {
    hide ReadLE, WriteLE;
    HeaderSlices(h);
    Pow256Values();
    ReadWriteLE(h.pageId, 8);
    ReadWriteLE(h.headerVersion, 2);
    ReadWriteLE(h.lsn, 8);
    ReadWriteLE(h.generation, 8);
    ReadWriteLE(h.payloadSize, 4);
    ReadWriteLE(h.checksum, 4);
  }

  /** Where each field stands in a page header's bytes. */
  lemma HeaderLayout(h: PageHeader)
    requires h.InRange()
    ensures var s := SerializeHeader(h);
            ReadLE(s[0..8]) == h.pageId && s[8] == h.pageType && s[9] == h.flags && ReadLE(s[10..12]) == h.headerVersion
            && ReadLE(s[12..20]) == h.lsn && ReadLE(s[20..28]) == h.generation && ReadLE(s[28..32]) == h.payloadSize
            && ReadLE(s[32..36]) == h.checksum
  {
    hide ReadLE, WriteLE;
    HeaderRoundTrip(h);
  }

  // ---------- page images ----------

  type PageImage = p: seq<byte> | |p| >= HEADER_SIZE witness seq(36, i => 0)

  function StoredChecksum(p: PageImage): (c: nat)
    ensures c < U32
  {
    Pow256Values();
    ReadLE(p[32..36])
  }

  function PageLsn(p: PageImage): (l: nat)
    ensures l < U64
  {
    Pow256Values();
    ReadLE(p[12..20])
  }

  /** `p` with one header field replaced. */
  function SetChecksum(p: PageImage, c: nat): (r: PageImage)
    requires c < U32
    ensures |r| == |p| && StoredChecksum(r) == c && PageLsn(r) == PageLsn(p)
    ensures r[..32] == p[..32] && r[36..] == p[36..]
  {
    Pow256Values();
    ReadWriteLE(c, 4);
    var r := Overwrite(p, CHECKSUM_AT, WriteLE(c, 4));
    assert r[12..20] == r[..32][12..20] == p[..32][12..20] == p[12..20];
    r
  }

  function SetLsn(p: PageImage, l: nat): (r: PageImage)
    requires l < U64
    ensures |r| == |p| && PageLsn(r) == l
  {
    Pow256Values();
    ReadWriteLE(l, 8);
    Overwrite(p, LSN_AT, WriteLE(l, 8))
  }

  /** The bytes of a page that a caller owns: everything but the checksum field. */
  function Body(p: PageImage): (b: seq<byte>)
    ensures |b| == |p| - 4
  {
    p[..32] + p[36..]
  }

  /** Reading the header and writing it back with other LSN and checksum fields touches only them. */
  lemma RewriteHeader(p: PageImage, l: nat, c: nat)
    requires l < U64 && c < U32
    ensures var h := DeserializeHeader(p).(lsn := l, checksum := c);
            Overwrite(p, 0, SerializeHeader(h)) == SetChecksum(SetLsn(p, l), c)
  {
    var h := DeserializeHeader(p).(lsn := l, checksum := c);
    WriteReadLE(p[0..8]);
    WriteReadLE(p[10..12]);
    WriteReadLE(p[20..28]);
    WriteReadLE(p[28..32]);
    assert SerializeHeader(h) == p[..12] + WriteLE(l, 8) + p[20..32] + WriteLE(c, 4);
  }

  lemma SetLsnSame(p: PageImage)
    ensures SetLsn(p, PageLsn(p)) == p
  {
    WriteReadLE(p[12..20]);
  }

  /** The checksum field as `write_page` computes it: over the page with that field zeroed. */
  function PageCrc(p: PageImage): (c: nat)
    ensures c < U32
  {
    assert Pow2(32) == U32 by { Pow2Of31(); }
    FromBits(Crc(Castagnoli(), SetChecksum(p, 0)))
  }

  function Stamp(p: PageImage): (r: PageImage)
    ensures |r| == |p| && Body(r) == Body(p) && PageLsn(r) == PageLsn(p)
  {
    SetChecksum(p, PageCrc(p))
  }

  predicate Verifies(p: PageImage) {
    StoredChecksum(p) == PageCrc(p)
  }

  /** What `write_page` leaves in the buffer and on disk; page 0 has no checksum field. */
  function Stored(id: nat, p: PageImage): (r: PageImage)
    ensures |r| == |p| && Readable(id, r) && (id != 0 ==> Body(r) == Body(p) && PageLsn(r) == PageLsn(p))
  {
    StampVerifies(p);
    if id == 0 then p else Stamp(p)
  }

  /** What `read_page` accepts. */
  predicate Readable(id: nat, p: PageImage) {
    id == 0 || Verifies(p)
  }

  lemma StampVerifies(p: PageImage)
    ensures Verifies(Stamp(p))
  {
    assert SetChecksum(Stamp(p), 0) == SetChecksum(p, 0);
  }

  /** A page that verifies is exactly the stamp of its own body. */
  lemma VerifiedIsStamp(p: PageImage)
    requires Verifies(p)
    ensures Stamp(p) == p
  {
    WriteReadLE(p[32..36]);
  }

  lemma FromBitsInjective(a: seq<bool>, b: seq<bool>)
    requires |a| == |b| && FromBits(a) == FromBits(b)
    ensures a == b
  {
    ToFromBits(a);
    ToFromBits(b);
  }

  lemma ReadLEInjective(a: seq<byte>, b: seq<byte>)
    requires |a| == |b| && ReadLE(a) == ReadLE(b)
    ensures a == b
  {
    WriteReadLE(a);
    WriteReadLE(b);
  }

  lemma FieldChangeRejected(p: PageImage, i: nat, b: byte)
    requires Verifies(p) && 32 <= i < 36 && p[i] != b
    ensures !Verifies(p[i := b])
  {
    var q: PageImage := p[i := b];
    assert SetChecksum(q, 0) == SetChecksum(p, 0);
    assert q[32..36][i - 32] == b && p[32..36][i - 32] == p[i];
    if StoredChecksum(q) == StoredChecksum(p) {
      ReadLEInjective(q[32..36], p[32..36]);
    }
  }

  lemma ZeroedChange(p: PageImage, i: nat, b: byte)
    requires i < |p| && !(32 <= i < 36)
    ensures SetChecksum(p[i := b], 0) == SetChecksum(p, 0)[i := b]
    ensures SetChecksum(p, 0)[i] == p[i] && StoredChecksum(p[i := b]) == StoredChecksum(p)
  {
    assert p[i := b][32..36] == p[32..36];
  }

  lemma BodyChangeRejected(p: PageImage, i: nat, b: byte)
    requires Verifies(p) && i < |p| && !(32 <= i < 36) && p[i] != b
    ensures !Verifies(p[i := b])
  {
    var q: PageImage := p[i := b];
    var z := SetChecksum(p, 0);
    ZeroedChange(p, i, b);
    PolynomialTopBit();
    OneByteChangeDetected(Castagnoli(), z, i, b);
    if PageCrc(q) == PageCrc(p) {
      FromBitsInjective(Crc(Castagnoli(), z), Crc(Castagnoli(), z[i := b]));
    }
  }

  /** A stored page changed in exactly one byte never verifies, wherever the byte is. */
  lemma OneByteChangeRejected(p: PageImage, i: nat, b: byte)
    requires Verifies(p) && i < |p| && p[i] != b
    ensures !Verifies(p[i := b])
  {
    if 32 <= i < 36 {
      FieldChangeRejected(p, i, b);
    } else {
      BodyChangeRejected(p, i, b);
    }
  }

  /** Zeroing the checksum does not disturb any other header field. */
  lemma HeaderOfZeroed(p: PageImage)
    ensures DeserializeHeader(SetChecksum(p, 0)) == DeserializeHeader(p).(checksum := 0)
  {
    var z := SetChecksum(p, 0);
    assert z[0..8] == p[0..8] && z[10..12] == p[10..12] && z[20..28] == p[20..28] && z[28..32] == p[28..32];
    assert z[8] == z[..32][8] == p[..32][8] && z[9] == z[..32][9] == p[..32][9];
  }

  /**
   * The protocol of both directions: zero the field through the header, then put a checksum back
   * through the header read before. Only the four checksum bytes end up different.
   */
  lemma RewriteChecksum(p: PageImage, c: nat)
    requires c < U32
    ensures var h := DeserializeHeader(p).(checksum := 0);
            Overwrite(p, 0, SerializeHeader(h)) == SetChecksum(p, 0)
            && Overwrite(SetChecksum(p, 0), 0, SerializeHeader(h.(checksum := c))) == SetChecksum(p, c)
  {
    RewriteHeader(p, PageLsn(p), 0);
    SetLsnSame(p);
    var z := SetChecksum(p, 0);
    HeaderOfZeroed(p);
    RewriteHeader(z, PageLsn(z), c);
    SetLsnSame(z);
    assert SetChecksum(z, c) == SetChecksum(p, c);
  }

  // ---------- the disk manager ----------

  /** `page_id * page_size` in 64-bit arithmetic, refused when the product wrapped. */
  function CalculateOffset(pageId: nat, pageSize: nat): (r: Result<nat>)
    requires pageId < U64 && 0 < pageSize < U64
    ensures r.Ok? <==> pageId != INVALID_PAGE_ID && pageId * pageSize < U64
    ensures r.Ok? ==> r.value == pageId * pageSize
  {
    if pageId == INVALID_PAGE_ID then Err(InvalidArgument)
    else
      var offset := (pageId * pageSize) % U64;
      OffsetCheckExact(pageId, pageSize);
      if offset / pageSize != pageId then Err(InvalidArgument) else Ok(offset)
  }

  lemma OffsetCheckExact(pageId: nat, pageSize: nat)
    requires pageSize > 0
    ensures ((pageId * pageSize) % U64) / pageSize == pageId <==> pageId * pageSize < U64
  {
    var n := pageId * pageSize;
    QuotientBounds(n % U64, pageSize);
    var q := (n % U64) / pageSize;
    if q < pageId { MulGap(q, pageId, pageSize); }
    if pageId < q { MulGap(pageId, q, pageSize); }
  }

  class DiskManager {
    var isOpen: bool
    var file: map<nat, seq<byte>>   // the database file, one image per page id
    const pageSize: nat
    const table: array<Word>

    ghost predicate Valid()
      reads this, table
    {
      HEADER_SIZE <= pageSize < U64
      && table.Length == 256
      && (forall i: byte :: table[i] == ShiftBits(Castagnoli(), Widen(i), 8))
      && (forall id :: id in file ==> |file[id]| == pageSize)
    }

    constructor (pageSize: nat)
      requires HEADER_SIZE <= pageSize < U64
      ensures Valid() && fresh(table) && this.pageSize == pageSize && file == map[] && isOpen
    {
      this.pageSize := pageSize;
      isOpen := true;
      file := map[];
      var t := BuildTable(Castagnoli());
      table := t;
    }

    /** Stamps the caller's buffer in place and stores it; page 0 is stored as it is. */
    method WritePage(id: nat, page: array<byte>) returns (r: Result<()>)
      requires Valid() && id < U64 && page.Length == pageSize && page as object != table
      modifies `file, page
      ensures Valid()
      ensures var image := Stored(id, old(page[..]));
              var fits := id != INVALID_PAGE_ID && id * pageSize < U64;
              if !isOpen then r == Err(InvalidState) && file == old(file) && page[..] == old(page[..])
              else if !fits then r == Err(InvalidArgument) && file == old(file) && page[..] == old(page[..])
              else r == Ok(()) && page[..] == image && file == old(file)[id := image]
    {
      if !isOpen { return Err(InvalidState); }
      var offset := CalculateOffset(id, pageSize);
      if offset.Err? { return Err(offset.error); }
      if id != 0 {
        ghost var original: PageImage := page[..];
        var header := DeserializeHeader(page[..]).(checksum := 0);
        RewriteChecksum(original, PageCrc(original));
        CopyInto(page, 0, SerializeHeader(header));
        var crc := CalculateChecksum(Castagnoli(), table, page[..]);
        CopyInto(page, 0, SerializeHeader(header.(checksum := FromBits(crc))));
      }
      file := file[id := page[..]];
      return Ok(());
    }

    /** Returns the stored image, or an error when it does not verify. */
    method ReadPage(id: nat) returns (r: Result<seq<byte>>)
      requires Valid() && id < U64
      ensures var fits := id != INVALID_PAGE_ID && id * pageSize < U64;
              if !isOpen then r == Err(InvalidState)
              else if !fits then r == Err(InvalidArgument)
              else if id !in file then r == Err(IOError)
              else if !Readable(id, file[id]) then r == Err(Corruption)
              else r == Ok(file[id])
    {
      if !isOpen { return Err(InvalidState); }
      var offset := CalculateOffset(id, pageSize);
      if offset.Err? { return Err(offset.error); }
      if id !in file { return Err(IOError); }
      var page: seq<byte> := file[id];
      if id != 0 {
        ghost var original: PageImage := page;
        var header := DeserializeHeader(page);
        var stored := header.checksum;
        RewriteChecksum(original, stored);
        page := Overwrite(page, 0, SerializeHeader(header.(checksum := 0)));
        var crc := CalculateChecksum(Castagnoli(), table, page);
        if stored != FromBits(crc) { return Err(Corruption); }
        page := Overwrite(page, 0, SerializeHeader(header.(checksum := stored)));
        VerifiedIsStamp(original);
      }
      return Ok(page);
    }
  }
}
