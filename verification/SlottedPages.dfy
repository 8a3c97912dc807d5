/** Slotted pages: a slot directory, records packed from the end, and compaction in place. */
module SlottedPages {
  import opened Bytes

  datatype Slot = Slot(offset: nat, length: nat, live: bool) {
    function End(): nat { offset + length }
  }

  type Slots = seq<Slot>

  function BytesOf(d: seq<byte>, s: Slot): (b: seq<byte>)
    requires s.End() <= |d|
    ensures |b| == s.length
  {
    d[s.offset..s.End()]
  }

  // ---------- what a page holds ----------

  predicate InBounds(slots: Slots, upper: nat, size: nat) {
    forall i :: 0 <= i < |slots| && slots[i].live ==> upper <= slots[i].offset && slots[i].End() <= size
  }

  predicate Apart(a: Slot, b: Slot) {
    a.End() <= b.offset || b.End() <= a.offset
  }

  /** Live records never overlap. */
  predicate Disjoint(slots: Slots) {
    forall i, j :: 0 <= i < j < |slots| && slots[i].live && slots[j].live ==> Apart(slots[i], slots[j])
  }

  /** The page as a map from slot id to record bytes. */
  function Records(slots: Slots, d: seq<byte>): (m: map<nat, seq<byte>>)
    requires InBounds(slots, 0, |d|)
  {
    map i: nat | i < |slots| && slots[i].live :: BytesOf(d, slots[i])
  }

  function LiveBytes(slots: Slots): (n: nat) {
    if slots == [] then 0
    else LiveBytes(slots[..|slots| - 1]) + if slots[|slots| - 1].live then slots[|slots| - 1].length else 0
  }

  function LiveCount(slots: Slots): (n: nat)
    ensures n <= |slots|
  {
    if slots == [] then 0
    else LiveCount(slots[..|slots| - 1]) + if slots[|slots| - 1].live then 1 else 0
  }

  lemma {:induction false} LiveCountUpdate(slots: Slots, i: nat, s: Slot)
    requires i < |slots|
    ensures LiveCount(slots[i := s]) + (if slots[i].live then 1 else 0) == LiveCount(slots) + (if s.live then 1 else 0)
    decreases |slots|
  {
    var n := |slots| - 1;
    var t := slots[i := s];
    if i < n {
      LiveCountUpdate(slots[..n], i, s);
      assert t[..n] == slots[..n][i := s];
    } else {
      assert t[..n] == slots[..n];
    }
  }

  lemma CopyElsewhere(d: seq<byte>, at: nat, src: seq<byte>, s: Slot)
    requires at + |src| <= |d| && s.End() <= |d|
    requires s.End() <= at || at + |src| <= s.offset
    ensures BytesOf(Overwrite(d, at, src), s) == BytesOf(d, s)
  {
    var r := Overwrite(d, at, src);
    if s.End() <= at {
      SameBefore(r, d, at, s.offset, s.End());
    } else {
      SameAfter(r, d, at + |src|, s.offset, s.End());
    }
  }

  // ---------- compaction ----------

  /** `order` lists the live ones among the first `n` slots, by descending offset. */
  ghost predicate IsPartialOrder(slots: Slots, n: nat, order: seq<nat>)
    requires n <= |slots|
  {
    && (forall k :: 0 <= k < |order| ==> order[k] < n && slots[order[k]].live)
    && (forall k, l :: 0 <= k < l < |order| ==> order[k] != order[l])
    && (forall k, l :: 0 <= k < l < |order| ==> slots[order[l]].offset <= slots[order[k]].offset)
    && (forall i :: 0 <= i < n && slots[i].live ==> i in order)
  }

  ghost predicate IsOrder(slots: Slots, order: seq<nat>) {
    IsPartialOrder(slots, |slots|, order)
  }

  function SumLengths(slots: Slots, ids: seq<nat>): (n: nat)
    requires forall k :: 0 <= k < |ids| ==> ids[k] < |slots|
  {
    if ids == [] then 0 else slots[ids[0]].length + SumLengths(slots, ids[1..])
  }

  lemma {:induction false} SumLengthsAppend(slots: Slots, a: seq<nat>, b: seq<nat>)
    requires forall k :: 0 <= k < |a| ==> a[k] < |slots|
    requires forall k :: 0 <= k < |b| ==> b[k] < |slots|
    ensures SumLengths(slots, a + b) == SumLengths(slots, a) + SumLengths(slots, b)
  {
    if a == [] {
      assert a + b == b;
    } else {
      SumLengthsAppend(slots, a[1..], b);
      assert (a + b)[1..] == a[1..] + b;
    }
  }

  function InsertedAt(order: seq<nat>, k: nat, i: nat): (r: seq<nat>)
    requires k <= |order|
    ensures |r| == |order| + 1
    ensures forall l :: 0 <= l < |r| ==> r[l] == if l < k then order[l] else if l == k then i else order[l - 1]
  {
    order[..k] + [i] + order[k..]
  }

  lemma InsertKeepsMembers(order: seq<nat>, k: nat, i: nat, j: nat)
    requires k <= |order| && (j in order || j == i)
    ensures j in InsertedAt(order, k, i)
  {
    if j == i {
      assert InsertedAt(order, k, i)[k] == j;
    } else {
      var l :| 0 <= l < |order| && order[l] == j;
      assert InsertedAt(order, k, i)[if l < k then l else l + 1] == j;
    }
  }

  /** Slot `i` belongs at position `k` of the list of the slots before it. */
  ghost predicate GoesAt(slots: Slots, i: nat, order: seq<nat>, k: nat) {
    i < |slots| && slots[i].live && IsPartialOrder(slots, i, order) && k <= |order|
    && (forall l :: 0 <= l < k ==> slots[order[l]].offset > slots[i].offset)
    && (k < |order| ==> slots[order[k]].offset <= slots[i].offset)
  }

  lemma InsertedElement(slots: Slots, i: nat, order: seq<nat>, k: nat, a: nat)
    requires GoesAt(slots, i, order, k) && a <= |order|
    ensures var r := InsertedAt(order, k, i); r[a] < i + 1 && slots[r[a]].live
  {
  }

  lemma InsertedPair(slots: Slots, i: nat, order: seq<nat>, k: nat, a: nat, b: nat)
    requires GoesAt(slots, i, order, k) && a < b <= |order|
    ensures var r := InsertedAt(order, k, i);
            r[a] < |slots| && r[b] < |slots| && r[a] != r[b] && slots[r[b]].offset <= slots[r[a]].offset
  {
    var x, y := if a < k then a else a - 1, if b <= k then b else b - 1;
    if a == k {
      assert order[b - 1] < i;
      assert b - 1 == k || slots[order[b - 1]].offset <= slots[order[k]].offset;
    } else if b == k {
      assert order[a] < i;
    } else {
      assert order[x] != order[b - if b < k then 0 else 1];
    }
  }

  lemma InsertKeepsOrder(slots: Slots, i: nat, order: seq<nat>, k: nat)
    requires GoesAt(slots, i, order, k)
    ensures IsPartialOrder(slots, i + 1, InsertedAt(order, k, i))
  {
    var r := InsertedAt(order, k, i);
    assert |r| == |order| + 1;
    hide InsertedAt;
    forall a | 0 <= a < |r| ensures r[a] < i + 1 && slots[r[a]].live { InsertedElement(slots, i, order, k, a); }
    forall a, b | 0 <= a < b < |r|
      ensures r[a] != r[b] && slots[r[b]].offset <= slots[r[a]].offset
    {
      InsertedPair(slots, i, order, k, a, b);
    }
    forall j | 0 <= j < i + 1 && slots[j].live
      ensures j in r
    {
      InsertKeepsMembers(order, k, i, j);
    }
  }

  /** Lists the live slots of the directory, largest offset first. */
  method SortLive(slots: Slots) returns (order: seq<nat>)
    ensures IsOrder(slots, order) && SumLengths(slots, order) == LiveBytes(slots)
  {
    order := [];
    for i := 0 to |slots|
      invariant IsPartialOrder(slots, i, order)
      invariant SumLengths(slots, order) == LiveBytes(slots[..i])
    {
      assert slots[..i + 1][..i] == slots[..i];
      if slots[i].live {
        order := InsertByOffset(slots, order, i);
      } else {
        SkipDead(slots, i, order);
      }
    }
    assert slots[..|slots|] == slots;
  }

  lemma SkipDead(slots: Slots, i: nat, order: seq<nat>)
    requires i < |slots| && !slots[i].live && IsPartialOrder(slots, i, order)
    ensures IsPartialOrder(slots, i + 1, order)
  {
  }

  method InsertByOffset(slots: Slots, order: seq<nat>, i: nat) returns (r: seq<nat>)
    requires i < |slots| && slots[i].live && IsPartialOrder(slots, i, order)
    ensures IsPartialOrder(slots, i + 1, r)
    ensures SumLengths(slots, r) == SumLengths(slots, order) + slots[i].length
  {
    hide SumLengths, InsertedAt;
    var k := 0;
    while k < |order| && slots[order[k]].offset > slots[i].offset
      invariant 0 <= k <= |order|
      invariant forall l :: 0 <= l < k ==> slots[order[l]].offset > slots[i].offset
    {
      k := k + 1;
    }
    InsertKeepsOrder(slots, i, order, k);
    SumWithInsert(slots, order, k, i);
    r := InsertedAt(order, k, i);
  }

  lemma SumWithInsert(slots: Slots, ids: seq<nat>, k: nat, i: nat)
    requires k <= |ids| && i < |slots| && forall l :: 0 <= l < |ids| ==> ids[l] < |slots|
    ensures SumLengths(slots, InsertedAt(ids, k, i)) == SumLengths(slots, ids) + slots[i].length
  {
    SumLengthsAppend(slots, ids[..k], ids[k..]);
    assert ids[..k] + ids[k..] == ids;
    SumLengthsAppend(slots, ids[..k] + [i], ids[k..]);
    SumLengthsAppend(slots, ids[..k], [i]);
    assert [i][1..] == [];
  }

  /**
   * Compaction after `k` moves: records already moved lie packed from `cursor` up, the others are
   * untouched below it, and every live record has the bytes it started with.
   */
  ghost predicate Moving(slots0: Slots, d0: seq<byte>, slots: Slots, d: seq<byte>, order: seq<nat>, k: nat, cursor: nat)
  {
    && |slots| == |slots0| && |d| == |d0| && IsOrder(slots0, order) && k <= |order| && cursor <= |d|
    && InBounds(slots0, 0, |d0|) && Disjoint(slots0)
    && (forall i :: 0 <= i < |slots| ==> slots[i].live == slots0[i].live && slots[i].length == slots0[i].length)
    && (forall i :: 0 <= i < |slots| && slots[i].live ==>
          slots[i].End() <= |d| && BytesOf(d, slots[i]) == BytesOf(d0, slots0[i]))
    && (forall m :: 0 <= m < k ==> cursor <= slots[order[m]].offset)
    && (forall m, n :: 0 <= m < n < k ==> slots[order[n]].End() <= slots[order[m]].offset)
    && (forall m :: k <= m < |order| ==> slots[order[m]] == slots0[order[m]] && slots[order[m]].End() <= cursor)
  }

  ghost predicate InOrder(slots: Slots, order: seq<nat>) {
    forall k :: 0 <= k < |order| ==> order[k] < |slots|
  }

  lemma MoveNothing(slots: Slots, d: seq<byte>, order: seq<nat>, upper: nat)
    requires IsOrder(slots, order) && InBounds(slots, upper, |d|) && Disjoint(slots)
    ensures Moving(slots, d, slots, d, order, 0, |d|) && InOrder(slots, order)
    ensures forall k :: 0 <= k < |order| ==> upper <= slots[order[k]].offset
  {
  }

  /** The next record keeps its bytes when it is moved up against the cursor, and so do all others. */
  lemma MoveKeepsBytes(slots0: Slots, d0: seq<byte>, slots: Slots, d: seq<byte>, order: seq<nat>, k: nat,
                       cursor: nat, i: nat)
    requires Moving(slots0, d0, slots, d, order, k, cursor) && k < |order| && i < |slots| && slots[i].live
    ensures var s := slots[order[k]];
            s.length <= cursor && s.End() <= |d|
            && var to := cursor - s.length;
               var moved := slots[order[k] := s.(offset := to)];
               moved[i].End() <= |d|
               && BytesOf(Overwrite(d, to, BytesOf(d, s)), moved[i]) == BytesOf(d0, slots0[i])
  {
    var id := order[k];
    var s := slots[id];
    if i != id {
      MoveMisses(slots0, d0, slots, d, order, k, cursor, i);
      CopyElsewhere(d, cursor - s.length, BytesOf(d, s), slots[i]);
    }
  }

  /** The page and directory after the next record has been moved up against the cursor. */
  lemma MoveStep(slots0: Slots, d0: seq<byte>, slots: Slots, d: seq<byte>, order: seq<nat>, k: nat, cursor: nat)
    requires Moving(slots0, d0, slots, d, order, k, cursor) && k < |order|
    ensures var id := order[k];
            id < |slots| == |slots0| && slots[id].length == slots0[id].length <= cursor && slots[id].End() <= |d|
            && cursor <= |d| && var to := cursor - slots[id].length;
               slots0[id].offset <= to && Moving(slots0, d0, slots[id := slots[id].(offset := to)],
                      Overwrite(d, to, BytesOf(d, slots[id])), order, k + 1, to)
  {
    hide BytesOf, Overwrite, Disjoint;
    var id := order[k];
    var s := slots[id];
    var to := cursor - s.length;
    var slots' := slots[id := s.(offset := to)];
    forall i | 0 <= i < |slots| && slots[i].live
      ensures slots'[i].End() <= |d|
              && BytesOf(Overwrite(d, to, BytesOf(d, s)), slots'[i]) == BytesOf(d0, slots0[i])
    {
      MoveKeepsBytes(slots0, d0, slots, d, order, k, cursor, i);
    }
    forall m | k + 1 <= m < |order|
      ensures slots'[order[m]].End() <= to
    {
      OrderedApart(slots0, order, k, m);
    }
  }

  /** A later record in the order ends where the earlier one starts, unless one of them is empty. */
  lemma OrderedApart(slots: Slots, order: seq<nat>, k: nat, m: nat)
    requires IsOrder(slots, order) && Disjoint(slots) && k < m < |order|
    ensures var a, b := slots[order[k]], slots[order[m]];
            b.End() <= a.offset || (a.length == 0 && b.offset == a.offset)
  {
    var i, j := order[k], order[m];
    assert i != j;
    if i < j { assert Apart(slots[i], slots[j]); } else { assert Apart(slots[j], slots[i]); }
  }

  lemma MoveMisses(slots0: Slots, d0: seq<byte>, slots: Slots, d: seq<byte>, order: seq<nat>, k: nat,
                   cursor: nat, i: nat)
    requires Moving(slots0, d0, slots, d, order, k, cursor) && k < |order|
    requires i < |slots| && slots[i].live && i != order[k]
    ensures var s := slots[order[k]];
            s.length <= cursor && (s.length == 0 || slots[i].End() <= cursor - s.length || cursor <= slots[i].offset)
  {
    var m :| 0 <= m < |order| && order[m] == i;
    if m > k { OrderedApart(slots0, order, k, m); }
  }

  /** What compaction keeps: which slots are live, their lengths, and every live record's bytes. */
  ghost predicate SameRecords(a: Slots, da: seq<byte>, b: Slots, db: seq<byte>) {
    |a| == |b| && |da| == |db|
    && forall i :: 0 <= i < |a| ==>
         a[i].live == b[i].live && a[i].length == b[i].length
         && (a[i].live ==> a[i].End() <= |da| && b[i].End() <= |db| && BytesOf(da, a[i]) == BytesOf(db, b[i]))
  }

  lemma FinishMoves(slots0: Slots, d0: seq<byte>, slots: Slots, d: seq<byte>, order: seq<nat>, cursor: nat)
    requires Moving(slots0, d0, slots, d, order, |order|, cursor)
    ensures InBounds(slots, cursor, |d|) && Disjoint(slots) && cursor <= |d|
    ensures SameRecords(slots, d, slots0, d0)
  {
    hide BytesOf;
    forall i | 0 <= i < |slots| && slots[i].live
      ensures cursor <= slots[i].offset
    {
      var m :| 0 <= m < |order| && order[m] == i;
    }
    forall i, j | 0 <= i < j < |slots| && slots[i].live && slots[j].live
      ensures Apart(slots[i], slots[j])
    {
      var m :| 0 <= m < |order| && order[m] == i;
      var n :| 0 <= n < |order| && order[n] == j;
      assert m != n;
    }
  }

  /**
   * Packs the live records against the end of the page, in place: largest offset first, each through
   * a temporary copy. Every live slot keeps its bytes, and no byte above the new bound is wasted.
   */
  method Repack(data: array<byte>, slots0: Slots, upper: nat) returns (slots: Slots, cursor: nat)
    requires InBounds(slots0, upper, data.Length) && Disjoint(slots0) && upper <= data.Length
    modifies data
    ensures InBounds(slots, cursor, data.Length) && Disjoint(slots) && upper <= cursor <= data.Length
    ensures SameRecords(slots, data[..], slots0, old(data[..]))
    ensures cursor == data.Length - LiveBytes(slots0)
  {
    hide Moving, IsPartialOrder, LiveBytes, InBounds, Disjoint, SameRecords;
    var order := SortLive(slots0);
    slots, cursor := slots0, data.Length;
    MoveNothing(slots, data[..], order, upper);
    var k := 0;
    assert order[0..] == order;
    while k < |order|
      invariant 0 <= k <= |order|
      invariant Moving(slots0, old(data[..]), slots, data[..], order, k, cursor)
      invariant InOrder(slots0, order)
      invariant cursor + LiveBytes(slots0) == data.Length + SumLengths(slots0, order[k..])
      invariant upper <= cursor <= data.Length
    {
      assert order[k..][1..] == order[k + 1..];
      slots, cursor := MoveOne(data, slots, order, k, cursor, slots0, old(data[..]));
      k := k + 1;
    }
    FinishMoves(slots0, old(data[..]), slots, data[..], order, cursor);
  }

  /** Moves the record of `order[k]` up against the cursor, through a temporary copy. */
  method MoveOne(data: array<byte>, slots: Slots, order: seq<nat>, k: nat, cursor: nat,
                 ghost slots0: Slots, ghost d0: seq<byte>)
    returns (moved: Slots, to: nat)
    requires Moving(slots0, d0, slots, data[..], order, k, cursor) && k < |order| && order[k] < |slots0|
    modifies data
    ensures Moving(slots0, d0, moved, data[..], order, k + 1, to)
    ensures to + slots0[order[k]].length == cursor && slots0[order[k]].offset <= to
  {
    hide *;
    MoveStep(slots0, d0, slots, data[..], order, k, cursor);
    var slot := slots[order[k]];
    to := cursor - slot.length;
    MoveBytes(data, slot, to);
    moved := slots[order[k] := slot.(offset := to)];
  }

  /** A record whose place does not change is left alone; another is copied out and back in. */
  method MoveBytes(data: array<byte>, slot: Slot, to: nat)
    requires slot.End() <= data.Length && to + slot.length <= data.Length
    modifies data
    ensures data[..] == Overwrite(old(data[..]), to, BytesOf(old(data[..]), slot))
  {
    hide Overwrite;
    ghost var d := data[..];
    if slot.offset != to {
      var temp := data[slot.offset..slot.offset + slot.length];
      assert temp == d[slot.offset..slot.offset + slot.length];
      CopyInto(data, to, temp);
    } else {
      OverwriteSelf(d, slot);
    }
  }

  lemma OverwriteSelf(d: seq<byte>, s: Slot)
    requires s.End() <= |d|
    ensures Overwrite(d, s.offset, BytesOf(d, s)) == d
  {
  }

  lemma {:induction false} SameLiveBytes(a: Slots, b: Slots)
    requires |a| == |b| && forall i :: 0 <= i < |a| ==> a[i].live == b[i].live && a[i].length == b[i].length
    ensures LiveBytes(a) == LiveBytes(b) && LiveCount(a) == LiveCount(b)
  {
    if a != [] {
      SameLiveBytes(a[..|a| - 1], b[..|b| - 1]);
    }
  }

  // ---------- changing one record ----------

  /** Writing `record` into free space at `upper` and pointing slot `id` at it. */
  lemma InsertedRecords(slots0: Slots, d0: seq<byte>, slots: Slots, d: seq<byte>, id: nat, record: seq<byte>,
                        upper: nat)
    requires upper + |record| <= |d0| && InBounds(slots0, upper + |record|, |d0|) && Disjoint(slots0)
    requires d == Overwrite(d0, upper, record) && id <= |slots0|
    requires slots == if id == |slots0| then slots0 + [Slot(upper, |record|, true)]
                      else slots0[id := Slot(upper, |record|, true)]
    ensures InBounds(slots, upper, |d|) && Disjoint(slots)
    ensures InBounds(slots0, 0, |d0|) && InBounds(slots, 0, |d|)
    ensures Records(slots, d) == Records(slots0, d0)[id := record]
  {
    InsertedApart(slots0, slots, id, Slot(upper, |record|, true), |d0|);
    InsertedBytes(slots0, d0, slots, d, id, record, upper);
  }

  lemma InsertedApart(slots0: Slots, slots: Slots, id: nat, s: Slot, size: nat)
    requires InBounds(slots0, s.End(), size) && Disjoint(slots0) && id <= |slots0| && s.live && s.End() <= size
    requires slots == if id == |slots0| then slots0 + [s] else slots0[id := s]
    ensures InBounds(slots, s.offset, size) && Disjoint(slots)
  {
    forall i, j | 0 <= i < j < |slots| && slots[i].live && slots[j].live
      ensures Apart(slots[i], slots[j])
    {
      if i != id && j != id { assert Apart(slots0[i], slots0[j]); }
    }
  }

  lemma InsertedBytes(slots0: Slots, d0: seq<byte>, slots: Slots, d: seq<byte>, id: nat, record: seq<byte>, upper: nat)
    requires upper + |record| <= |d0| && InBounds(slots0, upper + |record|, |d0|)
    requires d == Overwrite(d0, upper, record) && id <= |slots0| && InBounds(slots, 0, |d|)
    requires slots == if id == |slots0| then slots0 + [Slot(upper, |record|, true)]
                      else slots0[id := Slot(upper, |record|, true)]
    ensures InBounds(slots0, 0, |d0|) && Records(slots, d) == Records(slots0, d0)[id := record]
  {
    assert BytesOf(d, slots[id]) == record;
    hide BytesOf, Overwrite;
    forall i | 0 <= i < |slots0| && slots0[i].live && i != id
      ensures BytesOf(d, slots[i]) == BytesOf(d0, slots0[i])
    {
      CopyElsewhere(d0, upper, record, slots0[i]);
    }
    RecordsDiffer(slots0, d0, slots, d, id, record);
  }

  /** Two pages whose live slots agree except at `id`. */
  lemma RecordsDiffer(slots0: Slots, d0: seq<byte>, slots: Slots, d: seq<byte>, id: nat, record: seq<byte>)
    requires InBounds(slots0, 0, |d0|) && InBounds(slots, 0, |d|) && |slots0| <= |slots| && id < |slots| <= |slots0| + 1
    requires |slots| == |slots0| || id == |slots0|
    requires slots[id].live && BytesOf(d, slots[id]) == record
    requires forall i :: 0 <= i < |slots0| && i != id ==> slots[i].live == slots0[i].live
    requires forall i :: 0 <= i < |slots0| && slots0[i].live && i != id ==>
               BytesOf(d, slots[i]) == BytesOf(d0, slots0[i])
    ensures Records(slots, d) == Records(slots0, d0)[id := record]
  {
    hide BytesOf;
    var m := Records(slots0, d0)[id := record];
    assert forall i :: i in Records(slots, d) <==> i in m;
  }

  /** Overwriting the front of slot `id` with a shorter record. */
  lemma ShrunkRecords(slots0: Slots, d0: seq<byte>, slots: Slots, d: seq<byte>, id: nat, record: seq<byte>, upper: nat)
    requires id < |slots0| && slots0[id].live && |record| <= slots0[id].length
    requires InBounds(slots0, upper, |d0|) && Disjoint(slots0)
    requires d == Overwrite(d0, slots0[id].offset, record)
    requires slots == slots0[id := slots0[id].(length := |record|)]
    ensures InBounds(slots, upper, |d|) && Disjoint(slots)
    ensures InBounds(slots0, 0, |d0|) && InBounds(slots, 0, |d|)
    ensures Records(slots, d) == Records(slots0, d0)[id := record]
  {
    assert BytesOf(d, slots[id]) == record;
    forall i | 0 <= i < |slots0| && slots0[i].live && i != id
      ensures BytesOf(d, slots[i]) == BytesOf(d0, slots0[i]) && Apart(slots[i], slots[id])
    {
      assert if i < id then Apart(slots0[i], slots0[id]) else Apart(slots0[id], slots0[i]);
      CopyElsewhere(d0, slots0[id].offset, record, slots0[i]);
    }
    RecordsDiffer(slots0, d0, slots, d, id, record);
    forall i, j | 0 <= i < j < |slots| && slots[i].live && slots[j].live
      ensures Apart(slots[i], slots[j])
    {
      if i != id && j != id { assert Apart(slots0[i], slots0[j]); }
    }
  }

  // ---------- how much a page can hold ----------

  ghost function Range(a: nat, b: nat): (s: set<nat>)
    ensures forall p :: p in s <==> a <= p < b
    ensures |s| == if a <= b then b - a else 0
    decreases b
  {
    if a >= b then {} else Range(a, b - 1) + {b - 1}
  }

  lemma {:induction false} SubsetSize(s: set<nat>, t: set<nat>)
    requires s <= t
    ensures |s| <= |t|
    decreases s
  {
    if s != {} {
      var p :| p in s;
      SubsetSize(s - {p}, t - {p});
    }
  }

  /** The bytes that live records occupy. */
  ghost function Covered(slots: Slots): (s: set<nat>) {
    if slots == [] then {}
    else
      var last := slots[|slots| - 1];
      Covered(slots[..|slots| - 1]) + if last.live then Range(last.offset, last.End()) else {}
  }

  lemma {:induction false} CoveredBy(slots: Slots, p: nat) returns (i: nat)
    requires p in Covered(slots)
    ensures i < |slots| && slots[i].live && slots[i].offset <= p < slots[i].End()
    decreases |slots|
  {
    var n := |slots| - 1;
    if slots[n].live && p in Range(slots[n].offset, slots[n].End()) {
      i := n;
    } else {
      i := CoveredBy(slots[..n], p);
    }
  }

  lemma {:induction false} CoveredSize(slots: Slots)
    requires Disjoint(slots)
    ensures |Covered(slots)| == LiveBytes(slots)
    decreases |slots|
  {
    if slots != [] {
      var n := |slots| - 1;
      var rest, last := slots[..n], slots[n];
      CoveredSize(rest);
      if last.live {
        forall p | p in Covered(rest)
          ensures p !in Range(last.offset, last.End())
        {
          var i := CoveredBy(rest, p);
          assert Apart(slots[i], slots[n]);
        }
      }
    }
  }

  /** Live records that do not overlap need at least their total length: no page holds more. */
  lemma LiveBytesFit(slots: Slots, lo: nat, hi: nat)
    requires InBounds(slots, lo, hi) && Disjoint(slots) && lo <= hi
    ensures LiveBytes(slots) <= hi - lo
  {
    hide LiveBytes, Covered;
    CoveredSize(slots);
    forall p | p in Covered(slots)
      ensures p in Range(lo, hi)
    {
      var i := CoveredBy(slots, p);
    }
    SubsetSize(Covered(slots), Range(lo, hi));
  }
}
