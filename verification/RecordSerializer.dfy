/** Writing a row of values in passes, and reading one field at a time. */
module RecordSerializer {
  import opened Bytes
  import opened Results
  import opened Values
  import opened Records
  import Checksum

  // ---------- rows of values ----------

  ghost function CellOf(v: Value): (c: Cell) {
    if v.Null? then None else if Encode(v).Ok? then Some(Encode(v).value) else Some([])
  }

  ghost function CellsOf(row: seq<Value>): (cells: seq<Cell>)
    ensures |cells| == |row|
  {
    seq(|row|, i requires 0 <= i < |row| => CellOf(row[i]))
  }

  /**
   * What the writer accepts: values it can encode, at the stored size of their column where that is fixed. It
   * does not look at columns without a size when the layout has no variable-length type.
   */
  ghost predicate Writable(row: seq<Value>, cols: seq<Column>) {
    |row| == |cols|
    && forall i :: 0 <= i < |row| && (!Variable(cols[i]) || VariableCount(cols) > 0) ==> WritableField(row[i], cols[i])
  }

  ghost predicate WritableField(v: Value, col: Column) {
    v.Null? || (Encode(v).Ok? && (Variable(col) || |Encode(v).value| == col.fixedLength))
  }

  /** Values of the columns' types that the type serializer reads back. */
  ghost predicate RowFor(row: seq<Value>, cols: seq<Column>) {
    |row| == |cols|
    && forall i :: 0 <= i < |row| ==> Code(row[i]) == cols[i].typ && (row[i].Null? || (Plain(row[i]) && Sized(row[i])))
  }

  lemma FixedWidth(v: Value)
    requires !v.Null? && Plain(v) && FixedLength(Code(v)) > 0
    ensures Encode(v).Ok? && |Encode(v).value| == FixedLength(Code(v))
  {
    hide WriteLE;
  }

  lemma RowIsWritable(row: seq<Value>, cols: seq<Column>)
    requires RowFor(row, cols) && LaidOut(cols)
    ensures Writable(row, cols) && CellsFit(cols, CellsOf(row))
    ensures forall i :: 0 <= i < |row| ==> (CellsOf(row)[i].None? <==> row[i].Null?)
    ensures forall i :: 0 <= i < |row| && !row[i].Null? ==> Decode(CellsOf(row)[i].value, cols[i].typ) == Ok(row[i])
  {
    hide Plain, Sized, Encode, Decode, FixedLength;
    forall i | 0 <= i < |row| && !row[i].Null?
      ensures Encode(row[i]).Ok? && Decode(Encode(row[i]).value, cols[i].typ) == Ok(row[i])
      ensures Variable(cols[i]) || |Encode(row[i]).value| == cols[i].fixedLength
    {
      RoundTrip(row[i]);
      if FixedLength(cols[i].typ) > 0 { FixedWidth(row[i]); }
    }
  }

  /** What the reader returns for field `i`. */
  function FieldOf(b: seq<byte>, cols: seq<Column>, i: nat): (r: Result<Value>)
    requires i < |cols|
  {
    var v := OpenView(b, cols);
    if v.Err? then Err(v.error)
    else
      var c := ReadCell(b, cols, v.value, i);
      if c.Err? then Err(c.error)
      else if c.value.None? then Ok(Null(cols[i].typ))
      else Decode(c.value.value, cols[i].typ)
  }

  /** The bytes and layout of a stored row of values. */
  ghost predicate StoredRow(b: seq<byte>, m: Image, row: seq<Value>, cols: seq<Column>) {
    RowFor(row, cols) && LaidOut(cols) && RealTypes(cols)
    && b == m.Bytes() && IsImage(m, cols, CellsOf(row)) && |m.data| < U32
  }

  /**
   * NULL and fixed-length fields are read back from every stored row, whatever else in it is NULL, and the
   * variable-length ones when none of them is NULL.
   */
  lemma FieldRoundTrip(b: seq<byte>, m: Image, row: seq<Value>, cols: seq<Column>, i: nat)
    requires StoredRow(b, m, row, cols) && i < |row|
    requires row[i].Null? || !Variable(cols[i]) || AllPresent(cols, CellsOf(row))
    ensures FieldOf(b, cols, i) == Ok(row[i])
  {
    hide IsImage, LaidOut, RealTypes, OpenView, ReadCell, Decode, Plain, Sized, CellsFit;
    RowIsWritable(row, cols);
    FieldIsRight(b, m, cols, CellsOf(row), i);
  }

  /** The last present variable field of a mixed row is not read back: it is read from too few bytes. */
  lemma LastFieldLost(b: seq<byte>, m: Image, row: seq<Value>, cols: seq<Column>, i: nat)
    requires StoredRow(b, m, row, cols)
    requires LastActive(cols, CellsOf(row), i) && !AllPresent(cols, CellsOf(row))
    ensures FieldOf(b, cols, i) != Ok(row[i])
  {
    hide IsImage, LaidOut, RealTypes, OpenView, ReadCell, Decode, Encode, Plain, Sized, CellsFit, Shift, IsNull;
    var cells := CellsOf(row);
    RowIsWritable(row, cols);
    ViewIsRight(b, m, cols, cells);
    ShiftNotNegative(b, m, cols, cells);
    LastFieldExact(b, m, cols, cells, i);
    RoundTrip(row[i]);
    var value, shift := cells[i].value, Shift(cols, cells);
    if shift <= |value| && Decode(value[shift..], cols[i].typ).Ok? {
      DecodeNeeds(value[shift..], cols[i].typ);
    }
  }

  /** A stored row is read back if and only if its variable-length fields are all present or all NULL. */
  lemma RowRoundTripExact(b: seq<byte>, m: Image, row: seq<Value>, cols: seq<Column>)
    requires StoredRow(b, m, row, cols)
    ensures (forall i :: 0 <= i < |row| ==> FieldOf(b, cols, i) == Ok(row[i])) <==>
            AllPresent(cols, CellsOf(row)) || AllAbsent(cols, CellsOf(row))
  {
    hide StoredRow, FieldOf, CellOf;
    RowShape(b, m, row, cols);
    if AllPresent(cols, CellsOf(row)) || AllAbsent(cols, CellsOf(row)) {
      forall i | 0 <= i < |row|
        ensures FieldOf(b, cols, i) == Ok(row[i])
      {
        FieldRoundTrip(b, m, row, cols, i);
      }
    } else {
      var i := FindLastActive(cols, CellsOf(row), |cols|);
      LastFieldLost(b, m, row, cols, i);
    }
  }

  lemma RowShape(b: seq<byte>, m: Image, row: seq<Value>, cols: seq<Column>)
    requires StoredRow(b, m, row, cols)
    ensures |row| == |cols| && forall i :: 0 <= i < |row| ==> (CellsOf(row)[i].None? <==> row[i].Null?)
  {
    hide Encode;
  }

  // ---------- the null bitmap ----------

  function SetBit(b: byte, k: nat): (r: byte)
    requires k < 8
  {
    SetBitInRange(b, k);
    Checksum.FromBits(Checksum.ToBits(b, 8)[k := true])
  }

  lemma SetBitInRange(b: byte, k: nat)
    requires k < 8
    ensures Checksum.FromBits(Checksum.ToBits(b, 8)[k := true]) < 256
  {
    assert Checksum.Pow2(4) == 16;
    assert Checksum.Pow2(8) == 256;
  }

  lemma SetBitSets(b: byte, k: nat, j: nat)
    requires k < 8 && j < 8
    ensures GetBit(SetBit(b, k), j) == (j == k || GetBit(b, j))
  {
    Checksum.ToFromBits(Checksum.ToBits(b, 8)[k := true]);
  }

  lemma {:induction false} ZeroBits(n: nat, j: nat)
    requires j < n
    ensures !Checksum.ToBits(0, n)[j]
  {
    if j > 0 { ZeroBits(n - 1, j - 1); }
  }

  method WriteBitmap(row: seq<Value>) returns (bitmap: seq<byte>)
    ensures |bitmap| == BitmapBytes(|row|)
    ensures forall i :: 0 <= i < |row| ==> GetBit(bitmap[i / 8], i % 8) == row[i].Null?
  {
    hide GetBit, SetBit;
    bitmap := Zeros(BitmapBytes(|row|));
    var i := 0;
    forall j | 0 <= j < |row| ensures !GetBit(bitmap[j / 8], j % 8) { ClearBit(j % 8); }
    while i < |row|
      invariant 0 <= i <= |row| && |bitmap| == BitmapBytes(|row|)
      invariant forall j :: 0 <= j < |row| ==> GetBit(bitmap[j / 8], j % 8) == (j < i && row[j].Null?)
    {
      if row[i].Null? {
        var at := i / 8;
        ghost var before := bitmap;
        bitmap := bitmap[at := SetBit(bitmap[at], i % 8)];
        forall j | 0 <= j < |row|
          ensures GetBit(bitmap[j / 8], j % 8) == (j == i || GetBit(before[j / 8], j % 8))
        {
          SetBitSets(before[at], i % 8, j % 8);
        }
      }
      i := i + 1;
    }
  }

  lemma ClearBit(k: nat)
    requires k < 8
    ensures !GetBit(0, k)
  {
    ZeroBits(8, k);
  }

  // ---------- the fixed area ----------

  /** The first `i` columns are in place and the rest of the area is still zero. */
  ghost predicate FixedSoFar(area: seq<byte>, row: seq<Value>, cols: seq<Column>, i: nat)
    requires i <= |row| == |cols|
  {
    var done := Concat(FixedPieces(cols, CellsOf(row))[..i]);
    |done| == FixedSize(cols[..i]) <= FixedSize(cols) && area == done + Zeros(FixedSize(cols) - |done|)
  }

  /** Zeroes, then each present fixed field copied to its column's offset. */
  method WriteFixed(row: seq<Value>, cols: seq<Column>) returns (r: Result<seq<byte>>)
    requires |row| == |cols| && LaidOut(cols)
    ensures r.Ok? <==> forall i :: 0 <= i < |row| && !Variable(cols[i]) ==> WritableField(row[i], cols[i])
    ensures r.Ok? ==> r.value == Concat(FixedPieces(cols, CellsOf(row)))
  {
    hide Encode, Concat, WritableField, FixedSoFar, FixedPieces, CellsOf, LaidOut, Overwrite;
    var area := Zeros(FixedSize(cols));
    var i := 0;
    FixedStarts(row, cols);
    while i < |cols|
      invariant 0 <= i <= |cols| && FixedSoFar(area, row, cols, i)
      invariant forall j :: 0 <= j < i && !Variable(cols[j]) ==> WritableField(row[j], cols[j])
    {
      FieldCases(row[i], cols[i]);
      if cols[i].fixedLength > 0 && !row[i].Null? {
        var bytes := Serialize(row[i]);
        if bytes.Err? || |bytes.value| != cols[i].fixedLength { return Err(InternalError); }
        FixedCopied(area, row, cols, i);
        area := Overwrite(area, cols[i].offset, bytes.value);
      } else {
        FixedSkipped(area, row, cols, i);
      }
      i := i + 1;
    }
    FixedEnds(area, row, cols);
    r := Ok(area);
  }

  lemma FixedStarts(row: seq<Value>, cols: seq<Column>)
    requires |row| == |cols|
    ensures FixedSoFar(Zeros(FixedSize(cols)), row, cols, 0)
  {
    var z := Zeros(FixedSize(cols));
    assert cols[..0] == [] && [] + z == z;
  }

  lemma FixedEnds(area: seq<byte>, row: seq<Value>, cols: seq<Column>)
    requires |row| == |cols| && FixedSoFar(area, row, cols, |cols|)
    ensures area == Concat(FixedPieces(cols, CellsOf(row)))
  {
    hide Concat;
    var ps := FixedPieces(cols, CellsOf(row));
    assert ps[..|cols|] == ps && cols[..|cols|] == cols;
    assert Concat(ps) + Zeros(0) == Concat(ps);
  }

  lemma FixedPieceAt(row: seq<Value>, cols: seq<Column>, i: nat)
    requires i < |row| == |cols|
    ensures |FixedPieces(cols, CellsOf(row))| == |cols|
    ensures cols[i].fixedLength > 0 && !row[i].Null? && Encode(row[i]).Ok? ==>
              FixedPieces(cols, CellsOf(row))[i] == Encode(row[i]).value
    ensures cols[i].fixedLength == 0 || row[i].Null? ==>
              FixedPieces(cols, CellsOf(row))[i] == Zeros(cols[i].fixedLength)
  {
    hide Encode;
    NoZeros();
  }

  lemma FixedCopied(area: seq<byte>, row: seq<Value>, cols: seq<Column>, i: nat)
    requires i < |row| == |cols| && LaidOut(cols) && FixedSoFar(area, row, cols, i)
    requires cols[i].fixedLength > 0 && !row[i].Null?
    requires Encode(row[i]).Ok? && |Encode(row[i]).value| == cols[i].fixedLength
    ensures cols[i].offset + cols[i].fixedLength <= |area|
    ensures FixedSoFar(Overwrite(area, cols[i].offset, Encode(row[i]).value), row, cols, i + 1)
  {
    hide Concat, Encode, Overwrite, Zeros, FixedSize, FixedPieces, CellsOf, FixedLength;
    var ps := FixedPieces(cols, CellsOf(row));
    FixedPieceAt(row, cols, i);
    FixedSizeStep(cols, i);
    PieceAppends(ps, i);
    CopyOverZeros(Concat(ps[..i]), FixedSize(cols) - FixedSize(cols[..i]), Encode(row[i]).value);
  }

  lemma FixedSkipped(area: seq<byte>, row: seq<Value>, cols: seq<Column>, i: nat)
    requires i < |row| == |cols| && FixedSoFar(area, row, cols, i)
    requires cols[i].fixedLength == 0 || row[i].Null?
    ensures FixedSoFar(area, row, cols, i + 1)
  {
    hide Concat, Encode, Zeros, FixedSize, FixedPieces, CellsOf;
    var ps := FixedPieces(cols, CellsOf(row));
    FixedPieceAt(row, cols, i);
    FixedSizeStep(cols, i);
    PieceAppends(ps, i);
    ZerosSplit(Concat(ps[..i]), FixedSize(cols) - FixedSize(cols[..i]), cols[i].fixedLength);
  }

  lemma NoZeros()
    ensures Zeros(0) == []
  {
  }

  lemma FieldCases(v: Value, col: Column)
    ensures v.Null? ==> WritableField(v, col) && CellOf(v).None?
    ensures !v.Null? && !Variable(col) ==>
              (WritableField(v, col) <==> Encode(v).Ok? && |Encode(v).value| == col.fixedLength)
    ensures !v.Null? && Encode(v).Ok? ==> CellOf(v) == Some(Encode(v).value)
  {
  }

  lemma FixedSizeStep(cols: seq<Column>, i: nat)
    requires i < |cols|
    ensures FixedSize(cols[..i + 1]) == FixedSize(cols[..i]) + cols[i].fixedLength
    ensures FixedSize(cols[..i + 1]) <= FixedSize(cols)
  {
    assert cols[..i + 1][..i] == cols[..i];
    PrefixSize(cols, i + 1);
  }

  lemma {:induction false} PrefixSize(cols: seq<Column>, i: nat)
    requires i <= |cols|
    ensures FixedSize(cols[..i]) <= FixedSize(cols)
    decreases |cols|
  {
    if i < |cols| {
      PrefixSize(cols[..|cols| - 1], i);
      assert cols[..|cols| - 1][..i] == cols[..i];
    } else {
      assert cols[..i] == cols;
    }
  }

  lemma PieceAppends(ps: seq<seq<byte>>, i: nat)
    requires i < |ps|
    ensures Concat(ps[..i + 1]) == Concat(ps[..i]) + ps[i]
  {
    hide Concat;
    assert ps[..i + 1] == ps[..i] + [ps[i]];
    ConcatAppend(ps[..i], [ps[i]]);
    ConcatOne(ps[i]);
  }

  lemma CopyOverZeros(done: seq<byte>, n: nat, bytes: seq<byte>)
    requires |bytes| <= n
    ensures |done + Zeros(n)| == |done| + n
    ensures Overwrite(done + Zeros(n), |done|, bytes) == done + bytes + Zeros(n - |bytes|)
  {
  }

  lemma ZerosSplit(done: seq<byte>, n: nat, k: nat)
    requires k <= n
    ensures done + Zeros(n) == done + Zeros(k) + Zeros(n - k)
  {
  }

  // ---------- the variable area ----------

  ghost predicate VarSoFar(offsets: seq<byte>, data: seq<byte>, row: seq<Value>, cols: seq<Column>, i: nat)
    requires i <= |row| == |cols|
  {
    var cells := CellsOf(row);
    var total, done := ActiveBefore(cols, cells, |cols|), ActiveBefore(cols, cells, i);
    done <= total && data == Concat(VarPieces(cols, cells)[..i])
    && offsets == Concat(OffsetPieces(cols, cells)[..i]) + Zeros(4 * (total - done))
  }

  lemma {:induction false} ActiveGrows(cols: seq<Column>, cells: seq<Cell>, i: nat, j: nat)
    requires i <= j <= |cols| == |cells|
    ensures ActiveBefore(cols, cells, i) <= ActiveBefore(cols, cells, j)
    decreases j
  {
    if i < j { ActiveGrows(cols, cells, i, j - 1); }
  }

  method CountActive(row: seq<Value>, cols: seq<Column>) returns (n: nat)
    requires |row| == |cols|
    ensures n == ActiveBefore(cols, CellsOf(row), |cols|)
  {
    hide Encode;
    n := 0;
    var i := 0;
    while i < |cols|
      invariant 0 <= i <= |cols| && n == ActiveBefore(cols, CellsOf(row), i)
    {
      if cols[i].fixedLength == 0 && !row[i].Null? { n := n + 1; }
      i := i + 1;
    }
  }

  /** Room for the offsets, then for each present variable field its offset and its bytes. */
  method WriteVariable(row: seq<Value>, cols: seq<Column>) returns (r: Result<(seq<byte>, seq<byte>)>)
    requires |row| == |cols|
    ensures r.Ok? <==> forall i :: 0 <= i < |row| && Variable(cols[i]) ==> WritableField(row[i], cols[i])
    ensures r.Ok? ==> r.value.0 == Concat(OffsetPieces(cols, CellsOf(row)))
    ensures r.Ok? ==> r.value.1 == Concat(VarPieces(cols, CellsOf(row)))
  {
    hide Encode, Concat, VarSoFar, OffsetPieces, VarPieces, CellsOf, Overwrite, ActiveBefore, Zeros, WritableField;
    var active := CountActive(row, cols);
    var offsets, data: seq<byte> := Zeros(active * 4), [];
    var i, varIdx := 0, 0;
    VarStarts(row, cols);
    while i < |cols|
      invariant 0 <= i <= |cols| && VarSoFar(offsets, data, row, cols, i)
      invariant varIdx == ActiveBefore(cols, CellsOf(row), i)
      invariant forall j :: 0 <= j < i && Variable(cols[j]) ==> WritableField(row[j], cols[j])
    {
      VarCases(row[i], cols[i]);
      if cols[i].fixedLength == 0 && !row[i].Null? {
        var bytes := Serialize(row[i]);
        if bytes.Err? { return Err(InternalError); }
        VarAdded(offsets, data, row, cols, i);
        offsets := Overwrite(offsets, varIdx * 4, WriteLE(|data|, 4));
        data := data + bytes.value;
        varIdx := varIdx + 1;
      } else {
        VarSkipped(offsets, data, row, cols, i);
      }
      i := i + 1;
    }
    VarEnds(offsets, data, row, cols);
    r := Ok((offsets, data));
  }

  lemma VarCases(v: Value, col: Column)
    ensures Variable(col) ==> (WritableField(v, col) <==> v.Null? || Encode(v).Ok?)
  {
  }

  lemma VarStarts(row: seq<Value>, cols: seq<Column>)
    requires |row| == |cols|
    ensures VarSoFar(Zeros(ActiveBefore(cols, CellsOf(row), |cols|) * 4), [], row, cols, 0)
    ensures ActiveBefore(cols, CellsOf(row), 0) == 0
  {
    var z := Zeros(ActiveBefore(cols, CellsOf(row), |cols|) * 4);
    assert [] + z == z;
  }

  lemma VarEnds(offsets: seq<byte>, data: seq<byte>, row: seq<Value>, cols: seq<Column>)
    requires |row| == |cols| && VarSoFar(offsets, data, row, cols, |cols|)
    ensures offsets == Concat(OffsetPieces(cols, CellsOf(row))) && data == Concat(VarPieces(cols, CellsOf(row)))
  {
    hide Concat, ActiveBefore;
    var ps, qs := OffsetPieces(cols, CellsOf(row)), VarPieces(cols, CellsOf(row));
    assert ps[..|cols|] == ps && qs[..|cols|] == qs;
    assert Concat(ps) + Zeros(0) == Concat(ps);
  }

  lemma VarSkipped(offsets: seq<byte>, data: seq<byte>, row: seq<Value>, cols: seq<Column>, i: nat)
    requires i < |row| == |cols| && VarSoFar(offsets, data, row, cols, i) && !(Variable(cols[i]) && !row[i].Null?)
    ensures VarSoFar(offsets, data, row, cols, i + 1)
    ensures ActiveBefore(cols, CellsOf(row), i + 1) == ActiveBefore(cols, CellsOf(row), i)
  {
    hide Concat, Encode, Zeros, DataBefore;
    var ps, qs := OffsetPieces(cols, CellsOf(row)), VarPieces(cols, CellsOf(row));
    PieceAppends(ps, i);
    PieceAppends(qs, i);
    assert ps[i] == [] && qs[i] == [];
    assert Concat(ps[..i]) + [] == Concat(ps[..i]) && Concat(qs[..i]) + [] == Concat(qs[..i]);
  }

  lemma VarAdded(offsets: seq<byte>, data: seq<byte>, row: seq<Value>, cols: seq<Column>, i: nat)
    requires i < |row| == |cols| && VarSoFar(offsets, data, row, cols, i)
    requires Variable(cols[i]) && !row[i].Null? && Encode(row[i]).Ok?
    ensures var k := ActiveBefore(cols, CellsOf(row), i);
            k * 4 + 4 <= |offsets| && ActiveBefore(cols, CellsOf(row), i + 1) == k + 1
            && VarSoFar(Overwrite(offsets, k * 4, WriteLE(|data|, 4)), data + Encode(row[i]).value, row, cols, i + 1)
  {
    hide Concat, Encode, Zeros, Overwrite, WriteLE;
    var cells := CellsOf(row);
    var ps, qs := OffsetPieces(cols, cells), VarPieces(cols, cells);
    var k, total := ActiveBefore(cols, cells, i), ActiveBefore(cols, cells, |cols|);
    assert Active(cols, cells, i);
    ActiveGrows(cols, cells, i + 1, |cols|);
    OffsetsBefore(cols, cells, i);
    PieceAppends(ps, i);
    PieceAppends(qs, i);
    CopyOverZeros(Concat(ps[..i]), 4 * (total - k), WriteLE(|data|, 4));
  }

  // ---------- the whole row ----------

  method HasNulls(row: seq<Value>) returns (nulls: bool)
    ensures nulls <==> exists i :: 0 <= i < |row| && row[i].Null?
  {
    nulls := false;
    var i := 0;
    while i < |row|
      invariant 0 <= i <= |row| && !nulls
      invariant forall j :: 0 <= j < i ==> !row[j].Null?
    {
      if row[i].Null? { return true; }
      i := i + 1;
    }
  }

  /**
   * The stored bytes of a row, `mvcc` being the version fields of a fresh header. Refused exactly when the
   * row has the wrong number of fields or a field that cannot be stored in its column.
   */
  method SerializeRow(row: seq<Value>, layout: TupleLayout, mvcc: seq<byte>)
    returns (r: Result<seq<byte>>, ghost m: Image)
    requires layout.Valid() && |mvcc| == HEADER_SIZE - 6
    ensures |row| != |layout.columns| ==> r == Err(InvalidArgument)
    ensures r.Ok? <==> Writable(row, layout.columns)
    ensures r.Ok? ==> r.value == m.Bytes() && IsImage(m, layout.columns, CellsOf(row))
    ensures r.Ok? ==> m.header[..4] == WriteLE(|r.value|, 4) && m.header[6..] == mvcc
  {
    hide Concat, FixedPieces, OffsetPieces, VarPieces, WritableField, LaidOut, VariableCount, FixedSize;
    hide WriteLE, CellsOf;
    m := Image([], [], [], [], []);
    var cols := layout.columns;
    if |row| != |cols| { r := Err(InvalidArgument); return; }
    var nulls := HasNulls(row);
    NullsAgree(row);
    var buffer := Zeros(HEADER_SIZE);
    var bitmap: seq<byte> := [];
    if nulls { bitmap := WriteBitmap(row); }
    var fixed := WriteFixed(row, cols);
    if fixed.Err? { r := Err(InternalError); return; }
    var varlen := layout.variableCount > 0;
    var offsets, data: seq<byte> := [], [];
    if varlen {
      var vars := WriteVariable(row, cols);
      if vars.Err? { r := Err(InternalError); return; }
      offsets, data := vars.value.0, vars.value.1;
    }
    buffer := buffer + bitmap + fixed.value + offsets + data;
    var header := Header(|buffer|, Flags(nulls, varlen), mvcc);
    HeaderParts(|buffer|, Flags(nulls, varlen), mvcc);
    m := Image(header, bitmap, fixed.value, offsets, data);
    Backfilled(header, bitmap, fixed.value, offsets, data);
    r := Ok(Overwrite(buffer, 0, header));
  }

  lemma NullsAgree(row: seq<Value>)
    ensures AnyNull(CellsOf(row)) <==> exists i :: 0 <= i < |row| && row[i].Null?
    ensures forall i :: 0 <= i < |row| ==> (CellsOf(row)[i].None? <==> row[i].Null?)
    ensures |CellsOf(row)| == |row|
  {
    hide Encode;
    var cells := CellsOf(row);
    assert forall i :: 0 <= i < |row| ==> (cells[i].None? <==> row[i].Null?);
    if i :| 0 <= i < |row| && row[i].Null? {
      assert cells[i].None?;
    }
  }

  lemma HeaderParts(size: nat, flags: nat, mvcc: seq<byte>)
    requires |mvcc| == HEADER_SIZE - 6
    ensures var h := Header(size, flags, mvcc);
            h[..4] == WriteLE(size, 4) && h[4..6] == WriteLE(flags, 2) && h[6..] == mvcc
  {
    Slices(WriteLE(size, 4), WriteLE(flags, 2), mvcc, []);
  }

  lemma Backfilled(header: seq<byte>, bitmap: seq<byte>, fixed: seq<byte>, offsets: seq<byte>, data: seq<byte>)
    requires |header| == HEADER_SIZE
    ensures Overwrite(Zeros(HEADER_SIZE) + bitmap + fixed + offsets + data, 0, header)
            == header + bitmap + fixed + offsets + data
  {
  }

  // ---------- the reader ----------

  class RecordView {
    const bytes: seq<byte>
    const columns: seq<Column>
    const view: View

    ghost predicate Valid() {
      OpenView(bytes, columns) == Ok(view)
    }

    constructor (bytes: seq<byte>, columns: seq<Column>)
      requires |bytes| >= HEADER_SIZE
      ensures Valid() && this.bytes == bytes && this.columns == columns
    {
      this.bytes, this.columns := bytes, columns;
      this.view := OpenView(bytes, columns).value;
    }

    /** A view over bytes too short for a header is refused. */
    static method Open(bytes: seq<byte>, columns: seq<Column>) returns (r: Result<RecordView>)
      ensures r.Ok? <==> |bytes| >= HEADER_SIZE
      ensures r.Ok? ==> r.value.Valid() && r.value.bytes == bytes && r.value.columns == columns
    {
      if |bytes| < HEADER_SIZE { return Err(InternalError); }
      var v := new RecordView(bytes, columns);
      r := Ok(v);
    }

    method FieldIsNull(i: nat) returns (none: bool)
      ensures none == IsNull(bytes, view, i)
    {
      if !view.hasNulls { return false; }
      var at := HEADER_SIZE + i / 8;
      none := at < |bytes| && GetBit(bytes[at], i % 8);
    }

    method Field(i: nat) returns (r: Result<Value>)
      requires Valid() && i < |columns|
      ensures r == FieldOf(bytes, columns, i)
    {
      hide OpenView, NextOffset, VarIndex, ReadSlot, IsNull, Decode;
      var none := FieldIsNull(i);
      if none { return Ok(Null(columns[i].typ)); }
      var found: Result<seq<byte>>;
      if columns[i].fixedLength > 0 {
        found := Slice(bytes, view.fixedAt + columns[i].offset, columns[i].fixedLength);
      } else {
        var k := CountBefore(i);
        var current := ReadSlot(bytes, view, k);
        var next := FindNext(i + 1, k + 1);
        if current.Err? { return Err(current.error); }
        if next.Err? { return Err(next.error); }
        found := Slice(bytes, view.dataAt + current.value, (next.value - current.value) % U32);
      }
      if found.Err? { return Err(found.error); }
      r := Deserialize(found.value, columns[i].typ);
    }

    method CountBefore(i: nat) returns (k: nat)
      requires i <= |columns|
      ensures k == VarIndex(bytes, columns, view, i)
    {
      k := 0;
      var j := 0;
      while j < i
        invariant 0 <= j <= i && k == VarIndex(bytes, columns, view, j)
      {
        var none := FieldIsNull(j);
        if columns[j].fixedLength == 0 && !none { k := k + 1; }
        j := j + 1;
      }
    }

    method FindNext(from: nat, slot: nat) returns (r: Result<int>)
      requires from <= |columns|
      ensures r == NextOffset(bytes, columns, view, from, slot)
    {
      hide ReadSlot, IsNull;
      var j, next := from, slot;
      while j < |columns|
        invariant from <= j <= |columns|
        invariant NextOffset(bytes, columns, view, from, slot) == NextOffset(bytes, columns, view, j, next)
      {
        var none := FieldIsNull(j);
        if columns[j].fixedLength == 0 && !none {
          var s := ReadSlot(bytes, view, next);
          return if s.Ok? then Ok(s.value) else Err(s.error);
        }
        if columns[j].fixedLength == 0 { next := next + 1; }
        j := j + 1;
      }
      r := Ok(|bytes| - view.dataAt);
    }
  }
}
