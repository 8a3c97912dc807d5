/** B+ tree leaf pages: a slotted page that refines a sorted list of entries. */
module BPlusLeaves {
  import opened Bytes
  import opened ByteOrder
  import opened SlottedPages
  import opened IndexEntries

  const DIRECTORY_AT := 88          // page header and leaf header; offsets count from the page header
  const SLOT_SIZE := 4

  // ---------- entries as bytes ----------

  function EncodeEntry(e: Entry): (b: seq<byte>)
    ensures |b| == |e.key| + 8
  {
    e.key + WriteLE(e.page, 4) + WriteLE(e.slot, 4)
  }

  function DecodeEntry(b: seq<byte>): (e: Entry)
    requires |b| >= 8
  {
    Entry(b[..|b| - 8], ReadLE(b[|b| - 8..|b| - 4]), ReadLE(b[|b| - 4..]))
  }

  lemma EntryRoundTrip(e: Entry)
    requires IsEntry(e)
    ensures DecodeEntry(EncodeEntry(e)) == e
  {
    Pow256Values();
    ReadWriteLE(e.page, 4);
    ReadWriteLE(e.slot, 4);
    var b := EncodeEntry(e);
    assert b[..|b| - 8] == e.key && b[|b| - 8..|b| - 4] == WriteLE(e.page, 4) && b[|b| - 4..] == WriteLE(e.slot, 4);
  }

  ghost predicate Filled(slots: Slots, size: nat) {
    forall i :: 0 <= i < |slots| ==> slots[i].live && slots[i].length >= 8 && slots[i].End() <= size
  }

  function EntriesOf(slots: Slots, d: seq<byte>): (es: seq<Entry>)
    requires Filled(slots, |d|)
    ensures |es| == |slots|
    ensures forall i :: 0 <= i < |es| ==> es[i] == DecodeEntry(BytesOf(d, slots[i]))
  {
    seq(|slots|, i requires 0 <= i < |slots| => DecodeEntry(BytesOf(d, slots[i])))
  }

  lemma DecodedLength(b: seq<byte>)
    requires |b| >= 8
    ensures |DecodeEntry(b).key| + 8 == |b|
  {
  }

  lemma TotalNone()
    ensures TotalBytes([]) == 0
  {
  }

  lemma {:induction false} LiveIsTotal(slots: Slots, d: seq<byte>)
    requires Filled(slots, |d|)
    ensures LiveBytes(slots) == TotalBytes(EntriesOf(slots, d))
  {
    hide DecodeEntry, TotalBytes;
    if slots == [] {
      TotalNone();
    } else {
      var n := |slots| - 1;
      LiveIsTotal(slots[..n], d);
      var es := EntriesOf(slots, d);
      DecodedLength(BytesOf(d, slots[n]));
      assert es == EntriesOf(slots[..n], d) + [es[n]];
      TotalAppend(EntriesOf(slots[..n], d), [es[n]]);
      TotalOne(es[n]);
    }
  }

  lemma RepackedEntries(slots: Slots, d: seq<byte>, slots0: Slots, d0: seq<byte>)
    requires Filled(slots0, |d0|) && SameRecords(slots, d, slots0, d0)
    ensures |slots| == |slots0| && |d| == |d0| && Filled(slots, |d|) && EntriesOf(slots, d) == EntriesOf(slots0, d0)
  {
    hide BytesOf, DecodeEntry;
  }

  // ---------- directory changes ----------

  function SlotsWith(slots: Slots, i: nat, s: Slot): (r: Slots)
    requires i <= |slots|
    ensures |r| == |slots| + 1
    ensures forall k :: 0 <= k < |r| ==> r[k] == if k < i then slots[k] else if k == i then s else slots[k - 1]
  {
    slots[..i] + [s] + slots[i..]
  }

  function SlotsWithout(slots: Slots, i: nat): (r: Slots)
    requires i < |slots|
    ensures |r| == |slots| - 1
    ensures forall k :: 0 <= k < |r| ==> r[k] == if k < i then slots[k] else slots[k + 1]
  {
    slots[..i] + slots[i + 1..]
  }

  lemma DirectoryAfter(slots: Slots, i: nat, s: Slot)
    requires i <= |slots|
    ensures SlotsWith(slots, i, Slot(0, 0, true))[i := s] == SlotsWith(slots, i, s)
  {
  }

  lemma InsertedSlot(slots: Slots, i: nat, s: Slot, size: nat)
    requires i <= |slots| && InBounds(slots, s.End(), size) && Disjoint(slots) && Filled(slots, size)
    requires s.live && s.length >= 8 && s.End() <= size
    ensures var r := SlotsWith(slots, i, s); InBounds(r, s.offset, size) && Disjoint(r) && Filled(r, size)
  {
    var r := SlotsWith(slots, i, s);
    forall a, b | 0 <= a < b < |r|
      ensures Apart(r[a], r[b])
    {
      if a != i && b != i {
        assert Apart(slots[if a < i then a else a - 1], slots[if b < i then b else b - 1]);
      }
    }
  }

  lemma ErasedSlot(slots: Slots, i: nat, upper: nat, d: seq<byte>)
    requires i < |slots| && InBounds(slots, upper, |d|) && Disjoint(slots) && Filled(slots, |d|)
    ensures var r := SlotsWithout(slots, i);
            InBounds(r, upper, |d|) && Disjoint(r) && Filled(r, |d|)
            && EntriesOf(r, d) == Without(EntriesOf(slots, d), i)
  {
    hide BytesOf, DecodeEntry;
  }

  /** A new entry written into free space and pointed to by a slot at position `i`. */
  lemma InsertedEntry(slots: Slots, d0: seq<byte>, i: nat, e: Entry, upper: nat)
    requires IsEntry(e) && i <= |slots| && Filled(slots, |d0|) && upper + |e.key| + 8 <= |d0|
    requires InBounds(slots, upper + |e.key| + 8, |d0|)
    ensures var d := Overwrite(d0, upper, EncodeEntry(e));
            var r := SlotsWith(slots, i, Slot(upper, |e.key| + 8, true));
            Filled(r, |d|) && EntriesOf(r, d) == With(EntriesOf(slots, d0), i, e)
  {
    var d := Overwrite(d0, upper, EncodeEntry(e));
    var s := Slot(upper, |e.key| + 8, true);
    var r := SlotsWith(slots, i, s);
    assert BytesOf(d, s) == EncodeEntry(e);
    EntryRoundTrip(e);
    InsertedElsewhere(slots, d0, e, upper);
    SpliceEntries(slots, d0, i, s, d, e);
  }

  lemma InsertedElsewhere(slots: Slots, d0: seq<byte>, e: Entry, upper: nat)
    requires Filled(slots, |d0|) && upper + |e.key| + 8 <= |d0| && InBounds(slots, upper + |e.key| + 8, |d0|)
    ensures forall k :: 0 <= k < |slots| ==>
              BytesOf(Overwrite(d0, upper, EncodeEntry(e)), slots[k]) == BytesOf(d0, slots[k])
  {
    forall k | 0 <= k < |slots|
      ensures BytesOf(Overwrite(d0, upper, EncodeEntry(e)), slots[k]) == BytesOf(d0, slots[k])
    {
      CopyElsewhere(d0, upper, EncodeEntry(e), slots[k]);
    }
  }

  lemma SpliceEntries(slots: Slots, d0: seq<byte>, i: nat, s: Slot, d: seq<byte>, e: Entry)
    requires i <= |slots| && Filled(slots, |d0|) && |d| == |d0|
    requires s.live && s.length >= 8 && s.End() <= |d| && DecodeEntry(BytesOf(d, s)) == e
    requires forall k :: 0 <= k < |slots| ==> BytesOf(d, slots[k]) == BytesOf(d0, slots[k])
    ensures Filled(SlotsWith(slots, i, s), |d|)
    ensures EntriesOf(SlotsWith(slots, i, s), d) == With(EntriesOf(slots, d0), i, e)
  {
    hide BytesOf, DecodeEntry;
  }

  // ---------- the page ----------

  class Leaf {
    const data: array<byte>
    var slots: Slots
    var lower: nat
    var upper: nat
    var freeSpace: nat

    ghost predicate Shaped()
      reads this, data
    {
      && DIRECTORY_AT <= data.Length < U16
      && DIRECTORY_AT + SLOT_SIZE * |slots| <= lower <= upper <= data.Length
      && InBounds(slots, upper, data.Length) && Disjoint(slots) && Filled(slots, data.Length)
    }

    ghost function Entries(): (es: seq<Entry>)
      requires Filled(slots, data.Length)
      reads this, data
      ensures |es| == |slots|
    {
      EntriesOf(slots, data[..])
    }

    ghost predicate Valid()
      reads this, data
    {
      Shaped() && freeSpace == upper - lower && TotalBytes(Entries()) <= data.Length - upper && Sorted(Entries())
    }

    constructor (size: nat)
      requires DIRECTORY_AT <= size < U16
      ensures Valid() && fresh(data) && data.Length == size && Entries() == [] && lower == DIRECTORY_AT
    {
      data := new byte[size](i => 0);
      slots, lower, upper, freeSpace := [], DIRECTORY_AT, size, size - DIRECTORY_AT;
    }

    method KeyAt(i: nat) returns (key: seq<byte>)
      requires Shaped() && i < |slots|
      ensures key == Entries()[i].key
    {
      var s := slots[i];
      key := data[s.offset..s.offset + s.length - 8];
      LastWords(data[..], s);
      assert key == data[..][s.offset..s.End() - 8];
    }

    method RecordIdAt(i: nat) returns (page: nat, slot: nat)
      requires Shaped() && i < |slots|
      ensures page == Entries()[i].page && slot == Entries()[i].slot && page < U32 && slot < U32
    {
      Pow256Values();
      var s := slots[i];
      var end := s.offset + s.length;
      page, slot := ReadLE(data[end - 8..end - 4]), ReadLE(data[end - 4..end]);
      LastWords(data[..], s);
      assert data[end - 8..end - 4] == data[..][end - 8..end - 4];
      assert data[end - 4..end] == data[..][end - 4..end];
    }

    /** The first position whose key is not below `key`, and whether that key is equal. */
    method FindLowerBound(key: seq<byte>) returns (index: nat, exact: bool)
      requires Valid()
      ensures IsLowerBound(Entries(), key, index)
      ensures exact <==> exists i :: 0 <= i < |Entries()| && Entries()[i].key == key
      ensures exact ==> index < |Entries()| && Entries()[index].key == key
    {
      hide InBounds, Disjoint, Filled, EntriesOf, TotalBytes, Sorted, Below;
      index, exact := |slots|, false;
      var i := 0;
      while i < |slots|
        invariant 0 <= i <= |slots| && index == |slots| && !exact
        invariant forall k :: 0 <= k < i ==> Below(Entries()[k].key, key)
      {
        var kb := KeyAt(i);
        var cmp := CompareKeys(kb, key);
        if cmp == 0 {
          index, exact := i, true;
          break;
        }
        if cmp > 0 {
          index := i;
          break;
        }
        i := i + 1;
      }
      SearchStopped(Entries(), key, index, exact);
    }

    /**
     * The entry goes after every entry whose key is not above it. Refused exactly when it would not
     * fit even after compaction; then the entries are unchanged.
     */
    method Insert(key: seq<byte>, page: nat, slot: nat) returns (ok: bool)
      requires Valid() && IsEntry(Entry(key, page, slot))
      modifies this, data
      ensures Valid()
      ensures ok <==> |key| + 8 + SLOT_SIZE <= data.Length - old(lower) - TotalBytes(old(Entries()))
      ensures lower == old(lower) + if ok then SLOT_SIZE else 0
      ensures !ok ==> Entries() == old(Entries())
      ensures ok ==> Entries() == With(old(Entries()), UpperBound(old(Entries()), key), Entry(key, page, slot))
    {
      hide InBounds, Disjoint, Filled, EntriesOf, TotalBytes, Sorted;
      var entrySize := |key| + 8;
      if entrySize + SLOT_SIZE > freeSpace {
        Compact();
        if entrySize + SLOT_SIZE > freeSpace { return false; }
      }
      var index := FindInsertPosition(key);
      UpperBoundUnique(Entries(), key, index);
      Place(index, Entry(key, page, slot));
      return true;
    }

    method FindInsertPosition(key: seq<byte>) returns (index: nat)
      requires Valid()
      ensures IsUpperBound(Entries(), key, index)
    {
      hide InBounds, Disjoint, Filled, EntriesOf, TotalBytes, Sorted, Below;
      var exact;
      index, exact := FindLowerBound(key);
      ghost var first := index;
      if exact {
        while index < |slots|
          invariant first <= index <= |slots|
          invariant forall k :: first <= k < index ==> Entries()[k].key == key
        {
          var kb := KeyAt(index);
          if kb != key { break; }
          index := index + 1;
        }
      }
      AfterEqualKeys(Entries(), key, first, index, exact);
    }

    /** Shifts the directory, writes the entry below the others and points the new slot at it. */
    method Place(index: nat, e: Entry)
      requires Valid() && IsEntry(e) && |e.key| + 8 + SLOT_SIZE <= freeSpace
      requires IsUpperBound(Entries(), e.key, index)
      modifies this, data
      ensures Valid() && Entries() == With(old(Entries()), index, e) && lower == old(lower) + SLOT_SIZE
    {
      hide EntriesOf, TotalBytes, Sorted, Overwrite;
      ghost var es, slots0, d0 := Entries(), slots, data[..];
      var entry := EncodeEntry(e);
      MakeSlotRoom(index);
      var offset := WriteEntry(entry);
      slots := slots[index := Slot(offset, |entry|, true)];
      freeSpace := upper - lower;
      DirectoryAfter(slots0, index, Slot(upper, |e.key| + 8, true));
      InsertedSlot(slots0, index, Slot(upper, |e.key| + 8, true), data.Length);
      InsertedEntry(slots0, d0, index, e, upper);
      WithSorted(es, index, e);
      TotalWith(es, index, e);
    }

    method MakeSlotRoom(index: nat)
      requires index <= |slots|
      modifies `slots, `lower
      ensures slots == SlotsWith(old(slots), index, Slot(0, 0, true))
      ensures lower == old(lower) + SLOT_SIZE
    {
      slots := slots[..index] + [Slot(0, 0, true)] + slots[index..];
      lower := lower + SLOT_SIZE;
    }

    method WriteEntry(entry: seq<byte>) returns (offset: nat)
      requires |entry| <= upper <= data.Length
      modifies `upper, data
      ensures offset == upper == old(upper) - |entry| && data[..] == Overwrite(old(data[..]), upper, entry)
    {
      upper := upper - |entry|;
      CopyInto(data, upper, entry);
      offset := upper;
    }

    method EraseSlot(index: nat)
      requires index < |slots| && lower >= SLOT_SIZE
      modifies `slots, `lower
      ensures slots == SlotsWithout(old(slots), index) && lower == old(lower) - SLOT_SIZE
    {
      slots := slots[..index] + slots[index + 1..];
      lower := lower - SLOT_SIZE;
    }

    /** Removes the first entry equal to the given one, if there is any. */
    method Remove(key: seq<byte>, page: nat, slot: nat) returns (ok: bool)
      requires Valid()
      modifies this
      ensures Valid()
      ensures ok <==> Entry(key, page, slot) in old(Entries())
      ensures Entries() == if ok then WithoutFirst(old(Entries()), Entry(key, page, slot)) else old(Entries())
      ensures lower == old(lower) - if ok then SLOT_SIZE else 0
    {
      hide InBounds, Disjoint, Filled, EntriesOf, TotalBytes, Sorted;
      var index := FindEntry(key, page, slot);
      if index == |slots| { return false; }
      Take(index);
      return true;
    }

    method FindEntry(key: seq<byte>, page: nat, slot: nat) returns (index: nat)
      requires Valid()
      ensures index <= |slots| && Entry(key, page, slot) !in Entries()[..index]
      ensures if index < |slots| then Entries()[index] == Entry(key, page, slot)
              else Entry(key, page, slot) !in Entries()
    {
      hide InBounds, Disjoint, Filled, EntriesOf, TotalBytes, Sorted, Below;
      var exact;
      index, exact := FindLowerBound(key);
      if exact {
        index := ScanEqual(key, page, slot, index);
      } else {
        index := |slots|;
        NoSuchKey(Entries(), Entry(key, page, slot));
      }
    }

    /** Scans the entries with the given key, from the first of them on. */
    method ScanEqual(key: seq<byte>, page: nat, slot: nat, first: nat) returns (index: nat)
      requires Valid() && IsLowerBound(Entries(), key, first)
      ensures index <= |slots| && Entry(key, page, slot) !in Entries()[..index]
      ensures if index < |slots| then Entries()[index] == Entry(key, page, slot)
              else Entry(key, page, slot) !in Entries()
    {
      hide InBounds, Disjoint, Filled, EntriesOf, TotalBytes, Sorted, Below;
      ghost var es, e := Entries(), Entry(key, page, slot);
      index := first;
      while index < |slots|
        invariant first <= index <= |slots|
        invariant forall k :: first <= k < index ==> es[k] != e
      {
        var kb := KeyAt(index);
        if kb != key {
          PastEqualKeys(es, e, first, index);
          index := |slots|;
          assert es[..index] == es;
          return;
        }
        var p, s := RecordIdAt(index);
        if p == page && s == slot {
          PastLowerKeys(es, e, first, index);
          return;
        }
        index := index + 1;
      }
      PastLowerKeys(es, e, first, index);
      assert es[..index] == es;
    }

    method Take(index: nat)
      requires Valid() && index < |slots| && Entries()[index] !in Entries()[..index]
      modifies this
      ensures Valid() && Entries() == WithoutFirst(old(Entries()), old(Entries()[index]))
      ensures lower == old(lower) - SLOT_SIZE
    {
      hide EntriesOf, TotalBytes, InBounds, Disjoint, Filled;
      ghost var es := Entries();
      ErasedSlot(slots, index, upper, data[..]);
      EraseSlot(index);
      freeSpace := upper - lower;
      WithoutFirstAt(es, index);
      TotalWithout(es, index);
      WithoutSorted(es, index);
    }

    /** Packs the entries against the end of the page; nothing else changes. */
    method Compact()
      requires Shaped() && Sorted(Entries())
      modifies this, data
      ensures Valid() && Entries() == old(Entries()) && lower == old(lower)
      ensures freeSpace == data.Length - lower - TotalBytes(Entries())
    {
      hide InBounds, Disjoint, SameRecords, EntriesOf, TotalBytes, Sorted, Filled, LiveBytes;
      ghost var slots0, d0 := slots, data[..];
      slots, upper := Repack(data, slots, upper);
      RepackedEntries(slots, data[..], slots0, d0);
      LiveIsTotal(slots0, d0);
      freeSpace := upper - lower;
    }

    /**
     * Moves the upper half of the entries to a new leaf of the same size and returns the first key of
     * the new leaf. No entry is lost or invented, and the returned key separates the two leaves.
     */
    method Split(newLeaf: Leaf) returns (separator: seq<byte>)
      requires Valid() && newLeaf.Valid() && newLeaf != this && newLeaf.data != data && slots != []
      requires newLeaf.Entries() == [] && newLeaf.lower == DIRECTORY_AT && newLeaf.data.Length == data.Length
      modifies this, data, newLeaf, newLeaf.data
      ensures Valid() && newLeaf.Valid()
      ensures Entries() + newLeaf.Entries() == old(Entries())
      ensures |Entries()| == |old(Entries())| / 2
      ensures newLeaf.Entries() != [] && separator == newLeaf.Entries()[0].key
      ensures Separates(Entries(), separator, newLeaf.Entries())
      ensures lower == old(lower)
    {
      hide InBounds, Disjoint, EntriesOf, TotalBytes, Sorted, Filled, Below, Separates;
      ghost var es := Entries();
      var mid := |slots| / 2;
      CopyFrom(mid, newLeaf);
      separator := KeyAt(mid);
      Truncate(mid);
      SplitSeparates(es, mid);
      assert es[mid..][0] == es[mid];
    }

    method CopyFrom(mid: nat, newLeaf: Leaf)
      requires Valid() && newLeaf.Valid() && newLeaf != this && newLeaf.data != data && mid <= |slots|
      requires newLeaf.Entries() == [] && newLeaf.lower == DIRECTORY_AT && newLeaf.data.Length == data.Length
      modifies newLeaf, newLeaf.data
      ensures newLeaf.Valid() && newLeaf.Entries() == Entries()[mid..]
    {
      hide InBounds, Disjoint, EntriesOf, TotalBytes, Sorted, Filled, Below;
      ghost var es := Entries();
      assert newLeaf.Entries() == es[mid..mid];
      var i := mid;
      while i < |slots|
        invariant mid <= i <= |slots|
        invariant newLeaf.Valid() && newLeaf.Entries() == es[mid..i]
        invariant newLeaf.lower == DIRECTORY_AT + SLOT_SIZE * (i - mid)
      {
        CopyOne(mid, i, newLeaf);
        i := i + 1;
      }
      assert es[mid..|es|] == es[mid..];
    }

    method CopyOne(ghost mid: nat, i: nat, newLeaf: Leaf)
      requires Valid() && newLeaf.Valid() && newLeaf != this && newLeaf.data != data && mid <= i < |slots|
      requires newLeaf.Entries() == Entries()[mid..i] && newLeaf.data.Length == data.Length
      requires newLeaf.lower == DIRECTORY_AT + SLOT_SIZE * (i - mid)
      modifies newLeaf, newLeaf.data
      ensures newLeaf.Valid() && newLeaf.Entries() == Entries()[mid..i + 1]
      ensures newLeaf.lower == DIRECTORY_AT + SLOT_SIZE * (i + 1 - mid)
    {
      hide InBounds, Disjoint, EntriesOf, TotalBytes, Sorted, Filled, Below, IsUpperBound;
      var key := KeyAt(i);
      var page, slot := RecordIdAt(i);
      HalfFits(slots, data[..], mid, i, lower, upper);
      var ok := newLeaf.Insert(key, page, slot);
      AppendNext(Entries(), mid, i);
    }

    /** Keeps the first `mid` entries; the directory's bound is left where it was. */
    method Truncate(mid: nat)
      requires Valid() && mid <= |slots|
      modifies this, data
      ensures Valid() && Entries() == old(Entries())[..mid] && lower == old(lower)
    {
      hide EntriesOf, TotalBytes, Sorted;
      ghost var es := Entries();
      FirstSlots(slots, data[..], mid);
      PrefixSorted(es, mid);
      slots := slots[..mid];
      Compact();
    }
  }

  // ---------- facts about the loops ----------

  lemma LastWords(d: seq<byte>, s: Slot)
    requires s.length >= 8 && s.End() <= |d|
    ensures var b := BytesOf(d, s);
            b[..|b| - 8] == d[s.offset..s.End() - 8]
            && b[|b| - 8..|b| - 4] == d[s.End() - 8..s.End() - 4] && b[|b| - 4..] == d[s.End() - 4..s.End()]
  {
    var n := s.length;
    SliceOfSlice(d, s.offset, s.End(), 0, n - 8);
    SliceOfSlice(d, s.offset, s.End(), n - 8, n - 4);
    SliceOfSlice(d, s.offset, s.End(), n - 4, n);
  }

  lemma SearchStopped(es: seq<Entry>, key: seq<byte>, index: nat, exact: bool)
    requires Sorted(es) && index <= |es| && forall k :: 0 <= k < index ==> Below(es[k].key, key)
    requires exact ==> index < |es| && es[index].key == key
    requires !exact && index < |es| ==> !Below(es[index].key, key) && es[index].key != key
    ensures IsLowerBound(es, key, index)
    ensures exact <==> exists i :: 0 <= i < |es| && es[i].key == key
  {
    BelowTotal(key, key);
    forall k | index <= k < |es|
      ensures !Below(es[k].key, key) && (!exact ==> es[k].key != key)
    {
      BelowTotal(es[index].key, key);
      if k > index { NotBelowChain(es[k].key, es[index].key, key); }
    }
  }

  /** `x` is not below `y` and `y` is not below `key`, so `x` is not below `key`; strictly if `y` is above. */
  lemma NotBelowChain(x: seq<byte>, y: seq<byte>, key: seq<byte>)
    requires !Below(x, y) && !Below(y, key)
    ensures !Below(x, key) && (y != key ==> x != key)
  {
    BelowTotal(y, key);
    BelowTotal(x, key);
    if Below(x, key) { BelowTransitive(y, x, key); }
  }

  lemma AfterEqualKeys(es: seq<Entry>, key: seq<byte>, first: nat, index: nat, exact: bool)
    requires Sorted(es) && IsLowerBound(es, key, first) && first <= index <= |es|
    requires forall k :: first <= k < index ==> es[k].key == key
    requires index < |es| ==> es[index].key != key
    requires exact || first == index
    ensures IsUpperBound(es, key, index)
  {
    BelowTotal(key, key);
    forall k | 0 <= k < first ensures !Below(key, es[k].key) { BelowTotal(key, es[k].key); }
    forall k | index <= k < |es|
      ensures Below(key, es[k].key)
    {
      BelowTotal(key, es[index].key);
      if k > index { BelowTotal(key, es[k].key); NotBelowChain(es[k].key, es[index].key, key); }
    }
  }

  lemma NoSuchKey(es: seq<Entry>, e: Entry)
    requires forall i :: 0 <= i < |es| ==> es[i].key != e.key
    ensures e !in es && e !in es[..|es|]
  {
  }

  lemma PastLowerKeys(es: seq<Entry>, e: Entry, first: nat, index: nat)
    requires IsLowerBound(es, e.key, first) && first <= index <= |es|
    requires forall k :: first <= k < index ==> es[k] != e
    ensures e !in es[..index]
  {
    BelowTotal(e.key, e.key);
  }

  lemma PastEqualKeys(es: seq<Entry>, e: Entry, first: nat, index: nat)
    requires Sorted(es) && IsLowerBound(es, e.key, first) && first <= index < |es| && es[index].key != e.key
    requires forall k :: first <= k < index ==> es[k] != e
    ensures e !in es
  {
    PastLowerKeys(es, e, first, index);
    forall k | index < k < |es|
      ensures es[k].key != e.key
    {
      NotBelowChain(es[k].key, es[index].key, e.key);
    }
    assert forall k :: 0 <= k < index ==> es[k] in es[..index];
  }

  lemma WithoutSorted(es: seq<Entry>, i: nat)
    requires Sorted(es) && i < |es|
    ensures Sorted(Without(es, i))
  {
  }

  /** Inserting the entries of a sorted list in order appends each of them. */
  lemma AppendNext(es: seq<Entry>, mid: nat, i: nat)
    requires Sorted(es) && mid <= i < |es|
    ensures With(es[mid..i], UpperBound(es[mid..i], es[i].key), es[i]) == es[mid..i + 1]
  {
    hide Below, UpperBound;
    UpperBoundUnique(es[mid..i], es[i].key, i - mid);
  }

  lemma PrefixSorted(es: seq<Entry>, mid: nat)
    requires Sorted(es) && mid <= |es|
    ensures Sorted(es[..mid])
  {
  }

  lemma FirstSlots(slots: Slots, d: seq<byte>, mid: nat)
    requires Filled(slots, |d|) && mid <= |slots|
    ensures Filled(slots[..mid], |d|) && EntriesOf(slots[..mid], d) == EntriesOf(slots, d)[..mid]
  {
  }

  /** The entries of a page and their slots leave room for any part of them on a fresh page. */
  lemma HalfFits(slots: Slots, d: seq<byte>, mid: nat, i: nat, lower: nat, upper: nat)
    requires Filled(slots, |d|) && mid <= i < |slots|
    requires DIRECTORY_AT + SLOT_SIZE * |slots| <= lower <= upper <= |d|
    requires TotalBytes(EntriesOf(slots, d)) <= |d| - upper
    ensures var es := EntriesOf(slots, d);
            |es[i].key| + 8 + SLOT_SIZE <= |d| - (DIRECTORY_AT + SLOT_SIZE * (i - mid)) - TotalBytes(es[mid..i])
  {
    hide EntriesOf;
    var es := EntriesOf(slots, d);
    PartBytes(es, mid, i);
  }

  lemma PartBytes(es: seq<Entry>, mid: nat, i: nat)
    requires mid <= i < |es|
    ensures TotalBytes(es[mid..i]) + |es[i].key| + 8 <= TotalBytes(es)
  {
    hide TotalBytes;
    TotalAppend(es[..mid], es[mid..]);
    TotalAppend(es[mid..i], es[i..]);
    TotalAppend(es[i..i + 1], es[i + 1..]);
    TotalOne(es[i]);
    assert es[..mid] + es[mid..] == es && es[mid..i] + es[i..] == es[mid..];
    assert es[i..i + 1] == [es[i]] && es[i..i + 1] + es[i + 1..] == es[i..];
  }
}
