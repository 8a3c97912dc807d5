/** Stored rows: header, null bitmap, fixed area, offset array and variable area, and the lazy reader over them. */
module Records {
  import opened Bytes
  import opened Results
  import opened Values
  import Checksum

  const HEADER_SIZE := 40
  const HAS_NULLS := 2
  const HAS_VARLEN := 4

  // ---------- layouts ----------

  datatype Column = Column(typ: code, offset: nat, fixedLength: nat)

  /** The stored size of a type; zero for variable-length types. */
  function FixedLength(c: code): (n: nat) {
    if c == BOOLEAN then 1
    else if c == SMALL_INT then 2
    else if c == INTEGER || c == REAL || c == DATE || c == ENUM then 4
    else if c == BIG_INT || c == DOUBLE || c == TIME || c == TIMESTAMP || c == TIMESTAMP_TZ then 8
    else if c == INTERVAL || c == UUID then 16
    else 0
  }

  predicate IsVariable(c: code) {
    c == NUMERIC || c == CHAR || c == VAR_CHAR || c == TEXT || c == BYTEA || c == JSON || c == DICT || c == ARRAY
  }

  function FixedSize(cols: seq<Column>): (n: nat) {
    if cols == [] then 0 else FixedSize(cols[..|cols| - 1]) + cols[|cols| - 1].fixedLength
  }

  function VariableCount(cols: seq<Column>): (n: nat) {
    if cols == [] then 0 else VariableCount(cols[..|cols| - 1]) + if IsVariable(cols[|cols| - 1].typ) then 1 else 0
  }

  ghost predicate LaidOut(cols: seq<Column>) {
    forall i :: 0 <= i < |cols| ==>
      cols[i].fixedLength == FixedLength(cols[i].typ)
      && (cols[i].fixedLength > 0 ==> cols[i].offset == FixedSize(cols[..i]))
  }

  lemma TypeKinds(c: code)
    ensures IsVariable(c) ==> FixedLength(c) == 0
  {
  }

  lemma ColumnAdded(cols: seq<Column>, col: Column)
    requires LaidOut(cols) && col.fixedLength == FixedLength(col.typ)
    requires col.fixedLength > 0 ==> col.offset == FixedSize(cols)
    ensures LaidOut(cols + [col]) && FixedSize(cols + [col]) == FixedSize(cols) + col.fixedLength
    ensures VariableCount(cols + [col]) == VariableCount(cols) + if IsVariable(col.typ) then 1 else 0
  {
    hide FixedLength, IsVariable;
    var more := cols + [col];
    assert more[..|cols|] == cols;
    forall i | 0 <= i < |cols|
      ensures more[..i] == cols[..i] && more[i] == cols[i]
    {
    }
  }

  class TupleLayout {
    var columns: seq<Column>
    var fixedSize: nat
    var variableCount: nat

    ghost predicate Valid()
      reads this
    {
      LaidOut(columns) && fixedSize == FixedSize(columns) && variableCount == VariableCount(columns)
    }

    constructor ()
      ensures Valid() && columns == []
    {
      columns, fixedSize, variableCount := [], 0, 0;
    }

    method AddColumn(typ: code)
      requires Valid()
      modifies this
      ensures Valid() && |columns| == |old(columns)| + 1 && columns[..|old(columns)|] == old(columns)
      ensures columns[|old(columns)|].typ == typ
    {
      hide FixedLength, IsVariable, LaidOut, FixedSize, VariableCount;
      TypeKinds(typ);
      var col := if IsVariable(typ) then Column(typ, 0, 0) else Column(typ, fixedSize, FixedLength(typ));
      ColumnAdded(columns, col);
      columns := columns + [col];
      if IsVariable(typ) {
        variableCount := variableCount + 1;
      } else {
        fixedSize := fixedSize + FixedLength(typ);
      }
    }
  }

  // ---------- the stored image of a row of cells ----------

  type Cell = Option<seq<byte>>     // None is NULL

  predicate Variable(col: Column) { col.fixedLength == 0 }

  /** The column takes a slot in the offset array. */
  predicate Active(cols: seq<Column>, cells: seq<Cell>, i: nat)
    requires i < |cols| == |cells|
  {
    Variable(cols[i]) && cells[i].Some?
  }

  function Zeros(n: nat): (s: seq<byte>)
    ensures |s| == n
  {
    seq(n, _ => 0)
  }

  function FixedPieces(cols: seq<Column>, cells: seq<Cell>): (ps: seq<seq<byte>>)
    requires |cols| == |cells|
    ensures |ps| == |cols|
  {
    seq(|cols|, i requires 0 <= i < |cols| =>
      if Variable(cols[i]) then [] else if cells[i].None? then Zeros(cols[i].fixedLength) else cells[i].value)
  }

  function VarPieces(cols: seq<Column>, cells: seq<Cell>): (ps: seq<seq<byte>>)
    requires |cols| == |cells|
    ensures |ps| == |cols|
  {
    seq(|cols|, i requires 0 <= i < |cols| => if Active(cols, cells, i) then cells[i].value else [])
  }

  /** Where column `i`'s data starts in the variable area. */
  function DataBefore(cols: seq<Column>, cells: seq<Cell>, i: nat): (n: nat)
    requires i <= |cols| == |cells|
  {
    |Concat(VarPieces(cols, cells)[..i])|
  }

  function OffsetPieces(cols: seq<Column>, cells: seq<Cell>): (ps: seq<seq<byte>>)
    requires |cols| == |cells|
    ensures |ps| == |cols|
  {
    seq(|cols|, i requires 0 <= i < |cols| =>
      if Active(cols, cells, i) then WriteLE(DataBefore(cols, cells, i), 4) else [])
  }

  function ActiveBefore(cols: seq<Column>, cells: seq<Cell>, i: nat): (n: nat)
    requires i <= |cols| == |cells|
  {
    if i == 0 then 0 else ActiveBefore(cols, cells, i - 1) + if Active(cols, cells, i - 1) then 1 else 0
  }

  predicate AnyNull(cells: seq<Cell>) {
    exists i :: 0 <= i < |cells| && cells[i].None?
  }

  function BitmapBytes(n: nat): (k: nat) { (n + 7) / 8 }

  function GetBit(b: byte, k: nat): (bit: bool)
    requires k < 8
  {
    Checksum.ToBits(b, 8)[k]
  }

  /** The bitmap marks exactly the NULL cells. */
  ghost predicate IsBitmap(bitmap: seq<byte>, cells: seq<Cell>) {
    |bitmap| == BitmapBytes(|cells|)
    && forall i :: 0 <= i < |cells| ==> GetBit(bitmap[i / 8], i % 8) == cells[i].None?
  }

  function Flags(nulls: bool, varlen: bool): (f: nat) {
    (if nulls then HAS_NULLS else 0) + (if varlen then HAS_VARLEN else 0)
  }

  function Header(size: nat, flags: nat, mvcc: seq<byte>): (h: seq<byte>)
    requires |mvcc| == HEADER_SIZE - 6
    ensures |h| == HEADER_SIZE
  {
    WriteLE(size, 4) + WriteLE(flags, 2) + mvcc
  }

  /** The five parts of a stored row. */
  datatype Image = Image(header: seq<byte>, bitmap: seq<byte>, fixed: seq<byte>, offsets: seq<byte>, data: seq<byte>) {
    function Bytes(): (b: seq<byte>) { header + bitmap + fixed + offsets + data }
  }

  ghost predicate IsImage(m: Image, cols: seq<Column>, cells: seq<Cell>) {
    |cols| == |cells| && |m.header| == HEADER_SIZE
    && m.header[4..6] == WriteLE(Flags(AnyNull(cells), VariableCount(cols) > 0), 2)
    && (if AnyNull(cells) then IsBitmap(m.bitmap, cells) else m.bitmap == [])
    && m.fixed == Concat(FixedPieces(cols, cells))
    && m.offsets == (if VariableCount(cols) > 0 then Concat(OffsetPieces(cols, cells)) else [])
    && m.data == (if VariableCount(cols) > 0 then Concat(VarPieces(cols, cells)) else [])
  }

  // ---------- the reader ----------

  datatype View = View(hasNulls: bool, fixedAt: nat, offsetsAt: nat, dataAt: nat)

  function OpenView(b: seq<byte>, cols: seq<Column>): (r: Result<View>) {
    if |b| < HEADER_SIZE then Err(InternalError)
    else
      var flags := ReadLE(b[4..6]);
      var nulls, varlen := flags / HAS_NULLS % 2 == 1, flags / HAS_VARLEN % 2 == 1;
      var fixedAt := HEADER_SIZE + if nulls then BitmapBytes(|cols|) else 0;
      var offsetsAt := fixedAt + FixedSize(cols);
      Ok(View(nulls, fixedAt, offsetsAt, offsetsAt + if varlen then 4 * VariableCount(cols) else 0))
  }

  predicate IsNull(b: seq<byte>, v: View, i: nat) {
    v.hasNulls && HEADER_SIZE + i / 8 < |b| && GetBit(b[HEADER_SIZE + i / 8], i % 8)
  }

  function Slice(b: seq<byte>, at: nat, n: nat): (r: Result<seq<byte>>) {
    if at + n <= |b| then Ok(b[at..at + n]) else Err(Corruption)
  }

  function ReadSlot(b: seq<byte>, v: View, k: nat): (r: Result<nat>)
    ensures r.Ok? ==> r.value < U32
  {
    Pow256Values();
    var s := Slice(b, v.offsetsAt + 4 * k, 4);
    if s.Ok? then Ok(ReadLE(s.value)) else Err(s.error)
  }

  function VarIndex(b: seq<byte>, cols: seq<Column>, v: View, i: nat): (k: nat)
    requires i <= |cols|
  {
    if i == 0 then 0
    else VarIndex(b, cols, v, i - 1) + if Variable(cols[i - 1]) && !IsNull(b, v, i - 1) then 1 else 0
  }

  /** Where the next variable field starts, scanning from column `j`; every column skipped moves the slot on. */
  function NextOffset(b: seq<byte>, cols: seq<Column>, v: View, j: nat, slot: nat): (r: Result<int>)
    requires j <= |cols|
    decreases |cols| - j
  {
    if j == |cols| then Ok(|b| - v.dataAt)
    else if Variable(cols[j]) && !IsNull(b, v, j) then
      var s := ReadSlot(b, v, slot);
      if s.Ok? then Ok(s.value) else Err(s.error)
    else NextOffset(b, cols, v, j + 1, slot + if Variable(cols[j]) then 1 else 0)
  }

  /** The bytes that hold field `i`, or None for NULL. Lengths are 32-bit differences. */
  function ReadCell(b: seq<byte>, cols: seq<Column>, v: View, i: nat): (r: Result<Cell>)
    requires i < |cols|
  {
    if IsNull(b, v, i) then Ok(None)
    else if cols[i].fixedLength > 0 then Found(Slice(b, v.fixedAt + cols[i].offset, cols[i].fixedLength))
    else
      var k := VarIndex(b, cols, v, i);
      var current := ReadSlot(b, v, k);
      var next := NextOffset(b, cols, v, i + 1, k + 1);
      if current.Err? then Err(current.error)
      else if next.Err? then Err(next.error)
      else Found(Slice(b, v.dataAt + current.value, (next.value - current.value) % U32))
  }

  function Found(s: Result<seq<byte>>): (r: Result<Cell>) {
    if s.Ok? then Ok(Some(s.value)) else Err(s.error)
  }

  // ---------- finding pieces again ----------

  /** Each piece of a concatenation sits after all the pieces before it. */
  lemma PieceAt(ps: seq<seq<byte>>, i: nat)
    requires i < |ps|
    ensures var at := |Concat(ps[..i])|;
            at + |ps[i]| <= |Concat(ps)| && Concat(ps)[at..at + |ps[i]|] == ps[i]
    ensures |Concat(ps[..i + 1])| == |Concat(ps[..i])| + |ps[i]|
  {
    hide Concat;
    ConcatAppend(ps[..i], ps[i..]);
    ConcatAppend([ps[i]], ps[i + 1..]);
    ConcatAppend(ps[..i], [ps[i]]);
    ConcatOne(ps[i]);
    assert ps == ps[..i] + ps[i..] && ps[i..] == [ps[i]] + ps[i + 1..] && ps[..i + 1] == ps[..i] + [ps[i]];
    Slices(Concat(ps[..i]), ps[i], [], Concat(ps[i + 1..]));
    assert Concat(ps) == Concat(ps[..i]) + ps[i] + [] + Concat(ps[i + 1..]);
  }

  lemma ConcatOne(p: seq<byte>)
    ensures Concat([p]) == p
  {
    assert [p][1..] == [];
    assert p + [] == p;
  }

  ghost predicate CellsFit(cols: seq<Column>, cells: seq<Cell>) {
    |cols| == |cells|
    && (forall i :: 0 <= i < |cols| && !Variable(cols[i]) && cells[i].Some? ==> |cells[i].value| == cols[i].fixedLength)
  }

  lemma {:induction false} FixedBefore(cols: seq<Column>, cells: seq<Cell>, i: nat)
    requires CellsFit(cols, cells) && i <= |cols|
    ensures |Concat(FixedPieces(cols, cells)[..i])| == FixedSize(cols[..i])
    decreases i
  {
    hide Concat;
    if i == 0 {
      NoPieces(FixedPieces(cols, cells)[..0]);
    } else {
      FixedBefore(cols, cells, i - 1);
      PieceAt(FixedPieces(cols, cells), i - 1);
      assert cols[..i][..i - 1] == cols[..i - 1];
    }
  }

  lemma NoPieces(ps: seq<seq<byte>>)
    requires ps == []
    ensures Concat(ps) == []
  {
  }

  lemma {:induction false} OffsetsBefore(cols: seq<Column>, cells: seq<Cell>, i: nat)
    requires i <= |cols| == |cells|
    ensures |Concat(OffsetPieces(cols, cells)[..i])| == 4 * ActiveBefore(cols, cells, i)
    decreases i
  {
    hide Concat, DataBefore;
    if i == 0 {
      NoPieces(OffsetPieces(cols, cells)[..0]);
    } else {
      OffsetsBefore(cols, cells, i - 1);
      PieceAt(OffsetPieces(cols, cells), i - 1);
    }
  }

  /** A slice inside the middle of three parts. */
  lemma Within(a: seq<byte>, x: seq<byte>, c: seq<byte>, at: nat, n: nat)
    requires at + n <= |x|
    ensures var b := a + x + c; |a| + at + n <= |b| && b[|a| + at..|a| + at + n] == x[at..at + n]
  {
  }

  lemma ByteWithin(a: seq<byte>, x: seq<byte>, c: seq<byte>, k: nat)
    requires k < |x|
    ensures |a| + k < |a + x + c| && (a + x + c)[|a| + k] == x[k]
  {
  }

  lemma {:induction false} VariablesActive(cols: seq<Column>, cells: seq<Cell>, i: nat)
    requires i <= |cols| == |cells| && LaidOut(cols) && RealTypes(cols)
    ensures ActiveBefore(cols, cells, i) <= VariableCount(cols[..i])
    ensures ActiveBefore(cols, cells, i) == VariableCount(cols[..i]) <==>
            forall j :: 0 <= j < i && Variable(cols[j]) ==> cells[j].Some?
    decreases i
  {
    hide FixedSize, FixedLength, IsVariable;
    if i > 0 {
      VariablesActive(cols, cells, i - 1);
      assert cols[..i][..i - 1] == cols[..i - 1];
      TypeKinds(cols[i - 1].typ);
    }
  }

  /** Every column has a type that can hold a value. */
  predicate RealTypes(cols: seq<Column>) {
    forall i :: 0 <= i < |cols| ==> FixedLength(cols[i].typ) > 0 || IsVariable(cols[i].typ)
  }

  // ---------- reading an image ----------

  /** The row that the reader sees is the one the writer stored. */
  ghost predicate Stored(b: seq<byte>, m: Image, cols: seq<Column>, cells: seq<Cell>) {
    b == m.Bytes() && IsImage(m, cols, cells) && CellsFit(cols, cells) && LaidOut(cols) && RealTypes(cols)
    && |m.data| < U32
  }

  ghost function ViewOf(m: Image, cols: seq<Column>, cells: seq<Cell>): (v: View) {
    var fixedAt := HEADER_SIZE + |m.bitmap|;
    var offsetsAt := fixedAt + |m.fixed|;
    View(AnyNull(cells), fixedAt, offsetsAt, offsetsAt + 4 * VariableCount(cols))
  }

  lemma ViewIsRight(b: seq<byte>, m: Image, cols: seq<Column>, cells: seq<Cell>)
    requires Stored(b, m, cols, cells)
    ensures OpenView(b, cols) == Ok(ViewOf(m, cols, cells)) && |m.fixed| == FixedSize(cols)
  {
    hide Concat, ReadLE, WriteLE, FixedPieces, OffsetPieces, VarPieces, IsBitmap, LaidOut, RealTypes;
    FixedBefore(cols, cells, |cols|);
    assert FixedPieces(cols, cells)[..|cols|] == FixedPieces(cols, cells) && cols[..|cols|] == cols;
    assert b[4..6] == m.header[4..6];
    var f := Flags(AnyNull(cells), VariableCount(cols) > 0);
    Pow256Values();
    ReadWriteLE(f, 2);
    BitmapLength(m, cells);
  }

  lemma BitmapLength(m: Image, cells: seq<Cell>)
    requires if AnyNull(cells) then IsBitmap(m.bitmap, cells) else m.bitmap == []
    ensures |m.bitmap| == if AnyNull(cells) then BitmapBytes(|cells|) else 0
  {
  }

  lemma NullIsRight(b: seq<byte>, m: Image, cols: seq<Column>, cells: seq<Cell>, i: nat)
    requires Stored(b, m, cols, cells) && i < |cells|
    ensures IsNull(b, ViewOf(m, cols, cells), i) == cells[i].None?
  {
    hide Concat, WriteLE, FixedPieces, OffsetPieces, VarPieces, GetBit, LaidOut, RealTypes;
    if AnyNull(cells) {
      assert i / 8 < |m.bitmap|;
      ByteWithin(m.header, m.bitmap, m.fixed + m.offsets + m.data, i / 8);
      assert b == m.header + m.bitmap + (m.fixed + m.offsets + m.data);
    }
  }

  lemma FixedIsRight(b: seq<byte>, m: Image, cols: seq<Column>, cells: seq<Cell>, i: nat)
    requires Stored(b, m, cols, cells) && i < |cells| && cells[i].Some? && !Variable(cols[i])
    ensures var v := ViewOf(m, cols, cells);
            Slice(b, v.fixedAt + cols[i].offset, cols[i].fixedLength) == Ok(cells[i].value)
  {
    hide Concat, WriteLE, OffsetPieces, VarPieces, IsBitmap, RealTypes;
    FixedBefore(cols, cells, i);
    PieceAt(FixedPieces(cols, cells), i);
    Within(m.header + m.bitmap, m.fixed, m.offsets + m.data, cols[i].offset, cols[i].fixedLength);
    assert b == m.header + m.bitmap + m.fixed + (m.offsets + m.data);
  }

  lemma {:induction false} VarIndexIsRight(b: seq<byte>, m: Image, cols: seq<Column>, cells: seq<Cell>, i: nat)
    requires Stored(b, m, cols, cells) && i <= |cells|
    ensures VarIndex(b, cols, ViewOf(m, cols, cells), i) == ActiveBefore(cols, cells, i)
    decreases i
  {
    hide Stored, ViewOf, IsNull;
    if i > 0 {
      VarIndexIsRight(b, m, cols, cells, i - 1);
      NullIsRight(b, m, cols, cells, i - 1);
    }
  }

  lemma {:induction false} SomeVariable(cols: seq<Column>, i: nat)
    requires i < |cols| && IsVariable(cols[i].typ)
    ensures VariableCount(cols) > 0
    decreases |cols|
  {
    if i < |cols| - 1 { SomeVariable(cols[..|cols| - 1], i); }
  }

  lemma DataIsRight(b: seq<byte>, m: Image, cols: seq<Column>, cells: seq<Cell>, i: nat)
    requires |cols| == |cells| && Stored(b, m, cols, cells) && i < |cells| && Active(cols, cells, i)
    ensures DataBefore(cols, cells, i) + |cells[i].value| <= |m.data| == |Concat(VarPieces(cols, cells))|
    ensures m.data[DataBefore(cols, cells, i)..DataBefore(cols, cells, i) + |cells[i].value|] == cells[i].value
  {
    hide Concat, FixedPieces, OffsetPieces, IsBitmap;
    SomeVariable(cols, i);
    PieceAt(VarPieces(cols, cells), i);
  }

  lemma OffsetIsRight(b: seq<byte>, m: Image, cols: seq<Column>, cells: seq<Cell>, i: nat)
    requires |cols| == |cells| && Stored(b, m, cols, cells) && i < |cells| && Active(cols, cells, i)
    ensures var at := 4 * ActiveBefore(cols, cells, i);
            at + 4 <= |m.offsets| && m.offsets[at..at + 4] == WriteLE(DataBefore(cols, cells, i), 4)
  {
    hide Concat, WriteLE, FixedPieces, VarPieces, IsBitmap, DataBefore;
    SomeVariable(cols, i);
    OffsetsBefore(cols, cells, i);
    PieceAt(OffsetPieces(cols, cells), i);
  }

  lemma SlotIsRight(b: seq<byte>, m: Image, cols: seq<Column>, cells: seq<Cell>, i: nat)
    requires |cols| == |cells| && Stored(b, m, cols, cells) && i < |cells| && Active(cols, cells, i)
    ensures ReadSlot(b, ViewOf(m, cols, cells), ActiveBefore(cols, cells, i)) == Ok(DataBefore(cols, cells, i))
    ensures DataBefore(cols, cells, i) + |cells[i].value| <= |m.data| == |Concat(VarPieces(cols, cells))|
    ensures m.data[DataBefore(cols, cells, i)..DataBefore(cols, cells, i) + |cells[i].value|] == cells[i].value
  {
    hide Concat, WriteLE, ReadLE, FixedPieces, VarPieces, OffsetPieces, IsBitmap, DataBefore, ActiveBefore, CellsFit;
    DataIsRight(b, m, cols, cells, i);
    OffsetIsRight(b, m, cols, cells, i);
    Within(m.header + m.bitmap + m.fixed, m.offsets, m.data, 4 * ActiveBefore(cols, cells, i), 4);
    Pow256Values();
    ReadWriteLE(DataBefore(cols, cells, i), 4);
  }

  ghost predicate AllPresent(cols: seq<Column>, cells: seq<Cell>)
    requires |cols| == |cells|
  {
    forall i :: 0 <= i < |cols| && Variable(cols[i]) ==> cells[i].Some?
  }

  ghost predicate AllAbsent(cols: seq<Column>, cells: seq<Cell>)
    requires |cols| == |cells|
  {
    forall i :: 0 <= i < |cols| && Variable(cols[i]) ==> cells[i].None?
  }

  /** With every variable field present, the reader's data area starts where the writer's does. */
  lemma DataAreaIsRight(b: seq<byte>, m: Image, cols: seq<Column>, cells: seq<Cell>)
    requires Stored(b, m, cols, cells)
    ensures |m.offsets| == 4 * ActiveBefore(cols, cells, |cols|)
    ensures |m.offsets| == 4 * VariableCount(cols) <==> AllPresent(cols, cells)
    ensures |b| == HEADER_SIZE + |m.bitmap| + |m.fixed| + |m.offsets| + |m.data|
  {
    hide Concat, WriteLE, FixedPieces, VarPieces, IsBitmap, OffsetPieces;
    OffsetsBefore(cols, cells, |cols|);
    VariablesActive(cols, cells, |cols|);
    assert OffsetPieces(cols, cells)[..|cols|] == OffsetPieces(cols, cells) && cols[..|cols|] == cols;
  }

  lemma {:induction false} NextIsRight(b: seq<byte>, m: Image, cols: seq<Column>, cells: seq<Cell>, j: nat)
    requires Stored(b, m, cols, cells) && AllPresent(cols, cells) && j <= |cols| && VariableCount(cols) > 0
    ensures NextOffset(b, cols, ViewOf(m, cols, cells), j, ActiveBefore(cols, cells, j))
            == Ok(DataBefore(cols, cells, j))
    decreases |cols| - j
  {
    hide Concat, WriteLE, ReadLE, FixedPieces, IsBitmap, IsNull, ReadSlot, OffsetPieces, LaidOut, RealTypes;
    if j == |cols| {
      DataAreaIsRight(b, m, cols, cells);
      assert VarPieces(cols, cells)[..j] == VarPieces(cols, cells);
    } else {
      NullIsRight(b, m, cols, cells, j);
      if Variable(cols[j]) {
        SlotIsRight(b, m, cols, cells, j);
      } else {
        NextIsRight(b, m, cols, cells, j + 1);
        PieceAt(VarPieces(cols, cells), j);
      }
    }
  }

  /** NULL and fixed-length fields are read back from every row; variable ones when none of them is NULL. */
  lemma FieldIsRight(b: seq<byte>, m: Image, cols: seq<Column>, cells: seq<Cell>, i: nat)
    requires |cols| == |cells| && Stored(b, m, cols, cells) && i < |cells|
    requires !Active(cols, cells, i) || AllPresent(cols, cells)
    ensures OpenView(b, cols) == Ok(ViewOf(m, cols, cells))
    ensures ReadCell(b, cols, ViewOf(m, cols, cells), i) == Ok(cells[i])
  {
    hide Stored, ViewOf, IsNull, OpenView, NextOffset, ReadSlot, VarIndex, DataBefore, ActiveBefore, VariableCount;
    ViewIsRight(b, m, cols, cells);
    NullIsRight(b, m, cols, cells, i);
    if cells[i].Some? {
      if Variable(cols[i]) {
        VariableIsRight(b, m, cols, cells, i);
      } else {
        FixedIsRight(b, m, cols, cells, i);
      }
    }
  }

  lemma VariableIsRight(b: seq<byte>, m: Image, cols: seq<Column>, cells: seq<Cell>, i: nat)
    requires |cols| == |cells| && Stored(b, m, cols, cells) && i < |cells| && Active(cols, cells, i)
    requires AllPresent(cols, cells)
    ensures ReadCell(b, cols, ViewOf(m, cols, cells), i) == Ok(cells[i])
  {
    hide Stored, IsNull, ReadSlot, NextOffset, VarIndex, DataBefore, ActiveBefore, VariableCount, ViewOf;
    NullIsRight(b, m, cols, cells, i);
    VarIndexIsRight(b, m, cols, cells, i);
    SlotIsRight(b, m, cols, cells, i);
    StoredActive(b, m, cols, cells, i);
    NextIsRight(b, m, cols, cells, i + 1);
    DataIsAt(b, m, cols, cells, i);
  }

  lemma StoredActive(b: seq<byte>, m: Image, cols: seq<Column>, cells: seq<Cell>, i: nat)
    requires |cols| == |cells| && Stored(b, m, cols, cells) && i < |cells| && Active(cols, cells, i)
    ensures VariableCount(cols) > 0 && ActiveBefore(cols, cells, i + 1) == ActiveBefore(cols, cells, i) + 1
    ensures DataBefore(cols, cells, i + 1) == DataBefore(cols, cells, i) + |cells[i].value| && |cells[i].value| < U32
  {
    hide Concat, OffsetPieces, FixedPieces, IsBitmap;
    SlotIsRight(b, m, cols, cells, i);
    PieceAt(VarPieces(cols, cells), i);
    SomeVariable(cols, i);
  }

  /** Where the writer put the bytes of field `i`. */
  ghost function WrittenAt(m: Image, cols: seq<Column>, cells: seq<Cell>, i: nat): (at: nat)
    requires i < |cols| == |cells|
  {
    |m.header| + |m.bitmap| + |m.fixed| + |m.offsets| + DataBefore(cols, cells, i)
  }

  lemma {:induction false} DataIsAt(b: seq<byte>, m: Image, cols: seq<Column>, cells: seq<Cell>, i: nat)
    requires |cols| == |cells| && Stored(b, m, cols, cells) && i < |cells| && Active(cols, cells, i)
    ensures var at := WrittenAt(m, cols, cells, i);
            Slice(b, at, |cells[i].value|) == Ok(cells[i].value)
            && ViewOf(m, cols, cells).dataAt + DataBefore(cols, cells, i)
               == at + 4 * (VariableCount(cols) - ActiveBefore(cols, cells, |cols|))
    ensures AllPresent(cols, cells) <==> VariableCount(cols) == ActiveBefore(cols, cells, |cols|)
  {
    hide Concat, WriteLE, ReadLE, FixedPieces, IsBitmap, OffsetPieces, VarPieces, LaidOut, RealTypes;
    SlotIsRight(b, m, cols, cells, i);
    DataAreaIsRight(b, m, cols, cells);
    Within(m.header + m.bitmap + m.fixed + m.offsets, m.data, [], DataBefore(cols, cells, i), |cells[i].value|);
    assert b == m.header + m.bitmap + m.fixed + m.offsets + m.data + [];
  }

  /**
   * The reader looks for a variable field where the writer put it if and only if no variable field of the
   * row is NULL; each NULL one moves it four bytes too far.
   */
  lemma StartExact(b: seq<byte>, m: Image, cols: seq<Column>, cells: seq<Cell>, i: nat)
    requires |cols| == |cells| && Stored(b, m, cols, cells) && i < |cells| && Active(cols, cells, i)
    ensures var v := ViewOf(m, cols, cells);
            var slot := ReadSlot(b, v, VarIndex(b, cols, v, i));
            slot.Ok?
            && v.dataAt + slot.value
               == WrittenAt(m, cols, cells, i) + 4 * (VariableCount(cols) - ActiveBefore(cols, cells, |cols|))
            && (v.dataAt + slot.value == WrittenAt(m, cols, cells, i) <==> AllPresent(cols, cells))
  {
    hide Stored, IsNull, ReadSlot, VarIndex, DataBefore, ActiveBefore, VariableCount, ViewOf, WrittenAt;
    VarIndexIsRight(b, m, cols, cells, i);
    SlotIsRight(b, m, cols, cells, i);
    DataIsAt(b, m, cols, cells, i);
  }

  ghost predicate LastActive(cols: seq<Column>, cells: seq<Cell>, i: nat)
    requires |cols| == |cells|
  {
    i < |cols| && Active(cols, cells, i) && forall j :: i < j < |cols| ==> !Active(cols, cells, j)
  }

  lemma {:induction false} FindLastActive(cols: seq<Column>, cells: seq<Cell>, n: nat) returns (i: nat)
    requires n <= |cols| == |cells| && forall j :: n <= j < |cols| ==> !Active(cols, cells, j)
    requires !AllAbsent(cols, cells)
    ensures LastActive(cols, cells, i)
    decreases n
  {
    if n > 0 && Active(cols, cells, n - 1) {
      i := n - 1;
    } else if n > 0 {
      i := FindLastActive(cols, cells, n - 1);
    } else {
      var j :| 0 <= j < |cols| && Variable(cols[j]) && cells[j].Some?;
      assert Active(cols, cells, j);
      assert false;
    }
  }

  /** After the last present variable field the scan runs off the end. */
  lemma {:induction false} NextRunsOut(
      b: seq<byte>, m: Image, cols: seq<Column>, cells: seq<Cell>, i: nat, j: nat, slot: nat)
    requires |cols| == |cells| && Stored(b, m, cols, cells) && LastActive(cols, cells, i) && i < j <= |cols|
    ensures var v := ViewOf(m, cols, cells); NextOffset(b, cols, v, j, slot) == Ok(|b| - v.dataAt)
    decreases |cols| - j
  {
    hide Stored, ViewOf, IsNull, ReadSlot;
    if j < |cols| {
      assert !Active(cols, cells, j);
      NullIsRight(b, m, cols, cells, j);
      NextRunsOut(b, m, cols, cells, i, j + 1, slot + if Variable(cols[j]) then 1 else 0);
    }
  }

  /** The last present variable field's data ends the row. */
  lemma {:induction false} LastDataEnds(cols: seq<Column>, cells: seq<Cell>, i: nat, j: nat)
    requires |cols| == |cells| && LastActive(cols, cells, i) && i < j <= |cols|
    ensures DataBefore(cols, cells, j) == DataBefore(cols, cells, i) + |cells[i].value|
    decreases j
  {
    hide Concat;
    PieceAt(VarPieces(cols, cells), j - 1);
    if j > i + 1 { LastDataEnds(cols, cells, i, j - 1); }
  }

  /** How far the reader's data area lies past the writer's. */
  ghost function Shift(cols: seq<Column>, cells: seq<Cell>): (d: int)
    requires |cols| == |cells|
  {
    4 * (VariableCount(cols) - ActiveBefore(cols, cells, |cols|))
  }

  lemma LastEndsRow(b: seq<byte>, m: Image, cols: seq<Column>, cells: seq<Cell>, i: nat)
    requires |cols| == |cells| && Stored(b, m, cols, cells) && LastActive(cols, cells, i)
    ensures WrittenAt(m, cols, cells, i) + |cells[i].value| == |b|
  {
    hide Concat, WriteLE, ReadLE, FixedPieces, IsBitmap, OffsetPieces, LaidOut, RealTypes;
    LastDataEnds(cols, cells, i, |cols|);
    assert VarPieces(cols, cells)[..|cols|] == VarPieces(cols, cells);
    SlotIsRight(b, m, cols, cells, i);
    DataAreaIsRight(b, m, cols, cells);
  }

  /**
   * The last present variable field of any row is read from its writer's place shifted, and without as many
   * bytes as the shift; or the read runs outside the row when the field is shorter than that.
   */
  lemma LastFieldExact(b: seq<byte>, m: Image, cols: seq<Column>, cells: seq<Cell>, i: nat)
    requires |cols| == |cells| && Stored(b, m, cols, cells) && LastActive(cols, cells, i)
    ensures var r := ReadCell(b, cols, ViewOf(m, cols, cells), i);
            var value, shift := cells[i].value, Shift(cols, cells);
            0 <= shift && r == if shift <= |value| then Ok(Some(value[shift..])) else Err(Corruption)
  {
    hide Stored, IsNull, ReadSlot, NextOffset, VarIndex, DataBefore, ActiveBefore, VariableCount, ViewOf, WrittenAt;
    var value, shift := cells[i].value, Shift(cols, cells);
    NullIsRight(b, m, cols, cells, i);
    VarIndexIsRight(b, m, cols, cells, i);
    SlotIsRight(b, m, cols, cells, i);
    DataIsAt(b, m, cols, cells, i);
    LastEndsRow(b, m, cols, cells, i);
    NextRunsOut(b, m, cols, cells, i, i + 1, ActiveBefore(cols, cells, i) + 1);
    ShiftNotNegative(b, m, cols, cells);
    StoredActive(b, m, cols, cells, i);
    var v, cur, at := ViewOf(m, cols, cells), DataBefore(cols, cells, i), WrittenAt(m, cols, cells, i);
    assert v.dataAt + cur == at + shift && |b| - v.dataAt - cur == |value| - shift;
    if shift <= |value| {
      SmallMod(|value| - shift);
      assert b[at..at + |value|] == value;
      assert b[at + shift..at + shift + (|value| - shift)] == value[shift..];
    } else {
      WrappedMod(|value| - shift);
    }
  }

  lemma SmallMod(n: int)
    requires 0 <= n < U32
    ensures n % U32 == n
  {
  }

  lemma WrappedMod(n: int)
    requires n < 0
    ensures n % U32 > n
  {
  }

  lemma ShiftNotNegative(b: seq<byte>, m: Image, cols: seq<Column>, cells: seq<Cell>)
    requires |cols| == |cells| && Stored(b, m, cols, cells)
    ensures 0 <= Shift(cols, cells) && (Shift(cols, cells) == 0 <==> AllPresent(cols, cells))
  {
    hide IsImage, CellsFit;
    VariablesActive(cols, cells, |cols|);
    assert cols[..|cols|] == cols;
  }

  /** A stored row is read back whole if and only if its variable-length fields are all present or all NULL. */
  lemma RowReadBackExact(b: seq<byte>, m: Image, cols: seq<Column>, cells: seq<Cell>)
    requires |cols| == |cells| && Stored(b, m, cols, cells)
    ensures (forall i :: 0 <= i < |cells| ==> ReadCell(b, cols, ViewOf(m, cols, cells), i) == Ok(cells[i]))
            <==> AllPresent(cols, cells) || AllAbsent(cols, cells)
  {
    hide Stored, ViewOf, ReadCell, Shift;
    if AllPresent(cols, cells) || AllAbsent(cols, cells) {
      forall i | 0 <= i < |cells|
        ensures ReadCell(b, cols, ViewOf(m, cols, cells), i) == Ok(cells[i])
      {
        FieldIsRight(b, m, cols, cells, i);
      }
    } else {
      var i := FindLastActive(cols, cells, |cols|);
      ShiftNotNegative(b, m, cols, cells);
      LastFieldExact(b, m, cols, cells, i);
    }
  }

  /** A text followed by a NULL text is read back without its first four bytes. */
  lemma TextBeforeNullIsCut(b: seq<byte>, m: Image, t: seq<byte>)
    requires 4 <= |t|
    requires Stored(b, m, [Column(TEXT, 0, 0), Column(TEXT, 0, 0)], [Some(t), None])
    ensures var cols := [Column(TEXT, 0, 0), Column(TEXT, 0, 0)];
            var v := ViewOf(m, cols, [Some(t), None]);
            OpenView(b, cols) == Ok(v) && ReadCell(b, cols, v, 0) == Ok(Some(t[4..]))
  {
    hide Stored, ViewOf, OpenView, ReadCell;
    var cols, cells := [Column(TEXT, 0, 0), Column(TEXT, 0, 0)], [Some(t), None];
    ViewIsRight(b, m, cols, cells);
    assert cols[..1][..0] == [];
    assert VariableCount(cols[..1][..0]) == 0;
    assert VariableCount(cols[..1]) == 1;
    assert ActiveBefore(cols, cells, 0) == 0;
    assert ActiveBefore(cols, cells, 1) == 1;
    LastFieldExact(b, m, cols, cells, 0);
  }
}
