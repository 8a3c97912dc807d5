/** Slotted table pages: a slot directory growing up, records growing down, compaction in place. */
module TablePages {
  import opened Bytes
  import opened Results
  import opened SlottedPages

  const PAGE_HEADER_SIZE := 40
  const TABLE_HEADER_SIZE := 32
  const SLOT_SIZE := 12
  const DIRECTORY_AT := PAGE_HEADER_SIZE + TABLE_HEADER_SIZE   // offsets count from the start of the page header

  /** The directory without its dead tail. */
  function Trimmed(slots: Slots): (r: Slots)
    ensures |r| <= |slots| && r == slots[..|r|]
    ensures r != [] ==> r[|r| - 1].live
    ensures forall i :: |r| <= i < |slots| ==> !slots[i].live
  {
    if slots == [] || slots[|slots| - 1].live then slots else Trimmed(slots[..|slots| - 1])
  }

  lemma TrimmedAlready(slots: Slots)
    requires slots == [] || slots[|slots| - 1].live
    ensures Trimmed(slots) == slots
  {
  }

  lemma TrimOne(slots: Slots, d: seq<byte>, upper: nat)
    requires InBounds(slots, upper, |d|) && Disjoint(slots) && slots != [] && !slots[|slots| - 1].live
    ensures var r := slots[..|slots| - 1];
            InBounds(r, upper, |d|) && Disjoint(r) && InBounds(slots, 0, |d|) && InBounds(r, 0, |d|)
            && Records(r, d) == Records(slots, d) && Trimmed(r) == Trimmed(slots)
            && LiveCount(r) == LiveCount(slots) && LiveBytes(r) == LiveBytes(slots)
  {
  }

  lemma {:induction false} SameTrim(a: Slots, b: Slots)
    requires |a| == |b| && forall i :: 0 <= i < |a| ==> a[i].live == b[i].live
    ensures |Trimmed(a)| == |Trimmed(b)|
  {
    if a != [] && !a[|a| - 1].live {
      SameTrim(a[..|a| - 1], b[..|b| - 1]);
    }
  }

  lemma ErasedRecords(slots: Slots, d: seq<byte>, upper: nat, id: nat)
    requires InBounds(slots, upper, |d|) && Disjoint(slots) && id < |slots| && slots[id].live
    ensures var r := slots[id := slots[id].(live := false)];
            InBounds(r, upper, |d|) && Disjoint(r) && InBounds(slots, 0, |d|) && InBounds(r, 0, |d|)
            && Records(r, d) == Records(slots, d) - {id} && LiveCount(r) == LiveCount(slots) - 1
  {
    LiveCountUpdate(slots, id, slots[id].(live := false));
  }

  lemma AfterRepack(slots0: Slots, d0: seq<byte>, slots: Slots, d: seq<byte>)
    requires SameRecords(slots, d, slots0, d0)
    ensures InBounds(slots0, 0, |d0|) && InBounds(slots, 0, |d|) && Records(slots, d) == Records(slots0, d0)
    ensures LiveBytes(slots) == LiveBytes(slots0) && LiveCount(slots) == LiveCount(slots0)
    ensures |slots| == |slots0| && |Trimmed(slots)| == |Trimmed(slots0)|
  {
    hide BytesOf;
    SameLiveBytes(slots, slots0);
    SameTrim(slots, slots0);
  }

  // ---------- the page ----------

  function FirstDead(slots: Slots): (i: nat)
    ensures i <= |slots| && (i < |slots| ==> !slots[i].live)
    ensures forall k :: 0 <= k < i ==> slots[k].live
  {
    FirstDeadFrom(slots, 0)
  }

  function FirstDeadFrom(slots: Slots, i: nat): (r: nat)
    requires i <= |slots| && forall k :: 0 <= k < i ==> slots[k].live
    ensures i <= r <= |slots| && (r < |slots| ==> !slots[r].live)
    ensures forall k :: 0 <= k < r ==> slots[k].live
    decreases |slots| - i
  {
    if i < |slots| && slots[i].live then FirstDeadFrom(slots, i + 1) else i
  }

  class TablePage {
    const pageId: nat
    const data: array<byte>       // page_size() bytes from the start of the page header
    var slots: Slots
    var lower: nat
    var upper: nat
    var liveCount: nat

    ghost predicate Valid()
      reads this, data
    {
      && DIRECTORY_AT + SLOT_SIZE <= data.Length < U32
      && lower == DIRECTORY_AT + SLOT_SIZE * |slots| && lower <= upper <= data.Length
      && InBounds(slots, upper, data.Length) && Disjoint(slots)
      && liveCount == LiveCount(slots)
    }

    /** The page as a map from slot id to bytes. */
    ghost function Contents(): (m: map<nat, seq<byte>>)
      requires Valid()
      reads this, data
    {
      Records(slots, data[..])
    }

    constructor (pageId: nat, size: nat)
      requires DIRECTORY_AT + SLOT_SIZE <= size < U32
      ensures Valid() && fresh(data) && Contents() == map[] && data.Length == size && this.pageId == pageId
      ensures slots == [] && upper == size
    {
      this.pageId := pageId;
      data := new byte[size](i => 0);
      slots, lower, upper, liveCount := [], DIRECTORY_AT, size, 0;
    }

    function FreeSpace(): nat
      reads this
    {
      if upper >= lower then upper - lower else 0
    }

    /** A record in the first dead slot, or in a new one; refused when the gap is too small. */
    method Insert(record: seq<byte>) returns (r: Result<nat>)
      requires Valid()
      modifies this, data
      ensures Valid()
      ensures var slot := FirstDead(old(slots));
              var needed := |record| + (if slot == |old(slots)| then SLOT_SIZE else 0);
              if |record| > data.Length - DIRECTORY_AT - SLOT_SIZE then r == Err(InvalidArgument)
              else if needed > old(upper) - old(lower) then r == Err(InternalError)
              else r == Ok(slot)
      ensures r.Ok? ==> r.value !in old(Contents()) && Contents() == old(Contents())[r.value := record]
      ensures r.Err? ==> unchanged(this) && unchanged(data)
    {
      if |record| > data.Length - DIRECTORY_AT - SLOT_SIZE { return Err(InvalidArgument); }
      var target := |slots|;
      var i := 0;
      while i < |slots|
        invariant 0 <= i <= |slots| && target == |slots|
        invariant forall k :: 0 <= k < i ==> slots[k].live
      {
        if !slots[i].live {
          target := i;
          break;
        }
        i := i + 1;
      }
      assert target == FirstDead(slots);
      var required := |record| + (if target == |slots| then SLOT_SIZE else 0);
      if required > FreeSpace() { return Err(InternalError); }
      ghost var slots0, d0 := slots, data[..];
      upper := upper - |record|;
      CopyInto(data, upper, record);
      var slot := Slot(upper, |record|, true);
      if target == |slots| {
        slots := slots + [slot];
        lower := lower + SLOT_SIZE;
        assert slots[..|slots| - 1] == slots0;
      } else {
        LiveCountUpdate(slots, target, slot);
        slots := slots[target := slot];
      }
      liveCount := liveCount + 1;
      InsertedRecords(slots0, d0, slots, data[..], target, record, upper);
      return Ok(target);
    }

    method Get(page: nat, id: nat) returns (r: Result<seq<byte>>)
      requires Valid()
      ensures r == if page != pageId then Err(InvalidArgument)
                   else if id in Contents() then Ok(Contents()[id]) else Err(NotFound)
    {
      if page != pageId { return Err(InvalidArgument); }
      if id >= |slots| { return Err(NotFound); }
      var slot := slots[id];
      if !slot.live { return Err(NotFound); }
      if slot.offset + slot.length > data.Length { return Err(InternalError); }
      return Ok(data[slot.offset..slot.offset + slot.length]);
    }

    method EraseSlot(page: nat, id: nat) returns (r: Result<()>)
      requires Valid()
      modifies this
      ensures Valid()
      ensures r == if page != pageId then Err(InvalidArgument)
                   else if id in old(Contents()) then Ok(()) else Err(NotFound)
      ensures Contents() == if r.Ok? then old(Contents()) - {id} else old(Contents())
      ensures r.Err? ==> unchanged(this)
    {
      if page != pageId { return Err(InvalidArgument); }
      if id >= |slots| { return Err(NotFound); }
      var slot := slots[id];
      if !slot.live { return Err(NotFound); }
      ErasedRecords(slots, data[..], upper, id);
      slots := slots[id := slot.(live := false)];
      liveCount := liveCount - 1;
      return Ok(());
    }

    /** In place when the new bytes are no longer than the old; otherwise into fresh space. */
    method Update(page: nat, id: nat, record: seq<byte>) returns (r: Result<()>)
      requires Valid()
      modifies this, data
      ensures Valid()
      ensures if page != pageId then r == Err(InvalidArgument)
              else if id !in old(Contents()) then r == Err(NotFound)
              else if |record| > |old(Contents())[id]| && |record| > old(upper) - old(lower) then
                r == Err(InternalError)
              else r == Ok(())
      ensures Contents() == if r.Ok? then old(Contents())[id := record] else old(Contents())
      ensures r.Err? ==> unchanged(this) && unchanged(data)
    {
      if page != pageId { return Err(InvalidArgument); }
      if id >= |slots| { return Err(NotFound); }
      var slot := slots[id];
      if !slot.live { return Err(NotFound); }
      ghost var slots0, d0 := slots, data[..];
      if |record| <= slot.length {
        CopyInto(data, slot.offset, record);
        LiveCountUpdate(slots, id, slot.(length := |record|));
        slots := slots[id := slot.(length := |record|)];
        ShrunkRecords(slots0, d0, slots, data[..], id, record, upper);
        return Ok(());
      }
      if |record| > FreeSpace() { return Err(InternalError); }
      upper := upper - |record|;
      CopyInto(data, upper, record);
      LiveCountUpdate(slots, id, Slot(upper, |record|, true));
      slots := slots[id := Slot(upper, |record|, true)];
      InsertedRecords(slots0, d0, slots, data[..], id, record, upper);
      return Ok(());
    }

    /**
     * Packs the live records against the end of the page, in place, and drops dead slots at the end of
     * the directory. Every live id keeps its bytes, and no reclaimable byte is left unclaimed.
     */
    method Compact()
      requires Valid()
      modifies this, data
      ensures Valid() && Contents() == old(Contents())
      ensures upper == data.Length - LiveBytes(slots) && LiveBytes(slots) == LiveBytes(old(slots))
      ensures old(upper) <= upper && lower <= old(lower)
      ensures |slots| == |Trimmed(old(slots))|
      ensures slots != [] ==> slots[|slots| - 1].live
    {
      hide LiveBytes, LiveCount, InBounds, Disjoint, Records, SameRecords;
      ghost var slots0, d0 := slots, data[..];
      slots, upper := Repack(data, slots, upper);
      AfterRepack(slots0, d0, slots, data[..]);
      TrimDirectory();
    }

    /** Dead slots at the end of the directory give their space back. */
    method TrimDirectory()
      requires Valid()
      modifies `slots, `lower
      ensures Valid() && slots == Trimmed(old(slots)) && Contents() == old(Contents())
      ensures LiveBytes(slots) == LiveBytes(old(slots))
    {
      hide InBounds, Disjoint, Records, Trimmed, LiveCount, LiveBytes;
      while slots != [] && !slots[|slots| - 1].live
        invariant Valid() && Trimmed(slots) == Trimmed(old(slots)) && Contents() == old(Contents())
        invariant LiveBytes(slots) == LiveBytes(old(slots))
        decreases |slots|
      {
        TrimOne(slots, data[..], upper);
        slots := slots[..|slots| - 1];
        lower := lower - SLOT_SIZE;
      }
      TrimmedAlready(slots);
    }
  }

  /** A directory and its records laid out on a page of `size` bytes in any way at all. */
  ghost predicate Arranged(slots: Slots, size: nat) {
    DIRECTORY_AT + SLOT_SIZE * |slots| <= size
    && InBounds(slots, DIRECTORY_AT + SLOT_SIZE * |slots|, size) && Disjoint(slots)
  }

  /**
   * On a compacted page an insertion is refused only when the page is truly full: no arrangement of a page
   * of that size holds so many live bytes together with the record and a directory that long.
   */
  lemma RefusedMeansFull(slots: Slots, record: seq<byte>, upper: nat, size: nat, other: Slots)
    requires upper == size - LiveBytes(slots) && DIRECTORY_AT + SLOT_SIZE * |slots| <= upper
    requires var extra := if FirstDead(slots) == |slots| then SLOT_SIZE else 0;
             |record| + extra > upper - (DIRECTORY_AT + SLOT_SIZE * |slots|)
    requires Arranged(other, size) && |other| >= |slots| + if FirstDead(slots) == |slots| then 1 else 0
    ensures LiveBytes(other) < LiveBytes(slots) + |record|
  {
    hide LiveBytes, FirstDead, InBounds, Disjoint;
    LiveBytesFit(other, DIRECTORY_AT + SLOT_SIZE * |other|, size);
  }
}
