/** The transaction manager with its registry, and the table heap, as objects. */
module Transactions {
  import opened Results
  import opened Mvcc

  const TXN_MAX := 0xFFFF_FFFF_FFFF_FFFF

  // ---------- snapshots ----------

  /** The registry's unfinished transactions, in whatever order the table yields them. */
  method GetActive(reg: Registry) returns (active: seq<Txn>)
    ensures forall t :: t in active <==> t in reg && Unfinished(reg[t])
  {
    active := [];
    var todo := reg.Keys;
    while todo != {}
      invariant todo <= reg.Keys
      invariant forall t :: t in active <==> t in reg && t !in todo && Unfinished(reg[t])
      decreases |todo|
    {
      var t :| t in todo;
      if Unfinished(reg[t]) { active := active + [t]; }
      todo := todo - {t};
    }
  }

  /** The smallest unfinished transaction id, or the invalid id when there is none. */
  method GetOldestActive(reg: Registry) returns (oldest: Txn)
    requires forall t :: t in reg ==> INITIAL_TXN <= t < TXN_MAX
    ensures oldest == INVALID_TXN <==> forall t :: t in reg ==> !Unfinished(reg[t])
    ensures oldest != INVALID_TXN ==> oldest in reg && Unfinished(reg[oldest])
    ensures oldest != INVALID_TXN ==> forall t :: t in reg && Unfinished(reg[t]) ==> oldest <= t
  {
    var m := TXN_MAX;
    var todo := reg.Keys;
    while todo != {}
      invariant todo <= reg.Keys && m <= TXN_MAX
      invariant m != TXN_MAX ==> m in reg && Unfinished(reg[m])
      invariant forall t :: t in reg && t !in todo && Unfinished(reg[t]) ==> m <= t
      decreases |todo|
    {
      var t :| t in todo;
      if Unfinished(reg[t]) && t < m { m := t; }
      todo := todo - {t};
    }
    oldest := if m == TXN_MAX then INVALID_TXN else m;
  }

  /** Insertion into a sorted list. */
  method InsertSorted(s: seq<Txn>, t: Txn) returns (r: seq<Txn>)
    requires Sorted(s)
    ensures Sorted(r) && multiset(r) == multiset(s) + multiset{t}
  {
    hide Sorted;
    var i := 0;
    while i < |s| && s[i] < t
      invariant 0 <= i <= |s| && forall k :: 0 <= k < i ==> s[k] < t
    {
      i := i + 1;
    }
    r := s[..i] + [t] + s[i..];
    InsertedSorted(s, i, t);
    assert s == s[..i] + s[i..];
  }

  lemma InsertedSorted(s: seq<Txn>, i: nat, t: Txn)
    requires Sorted(s) && i <= |s| && (forall k :: 0 <= k < i ==> s[k] < t) && (i < |s| ==> t <= s[i])
    ensures Sorted(s[..i] + [t] + s[i..])
  {
    var r := s[..i] + [t] + s[i..];
    assert forall k :: 0 <= k < i ==> r[k] == s[k];
    assert forall k :: i < k < |r| ==> r[k] == s[k - 1];
  }

  method SortActive(s: seq<Txn>) returns (r: seq<Txn>)
    ensures Sorted(r) && multiset(r) == multiset(s)
  {
    r := [];
    for i := 0 to |s|
      invariant Sorted(r) && multiset(r) == multiset(s[..i])
    {
      assert s[..i + 1] == s[..i] + [s[i]];
      r := InsertSorted(r, s[i]);
    }
    assert s[..|s|] == s;
  }

  /** The binary search of `Snapshot::is_active`. */
  method SearchActive(s: Snapshot, t: Txn) returns (found: bool)
    requires Sorted(s.active)
    ensures found == IsActive(s, t)
  {
    if t < s.xmin { return false; }
    if t >= s.xmax { return true; }
    var lo, hi := 0, |s.active|;
    while lo < hi
      invariant 0 <= lo <= hi <= |s.active|
      invariant forall k :: 0 <= k < lo ==> s.active[k] < t
      invariant forall k :: hi <= k < |s.active| ==> t <= s.active[k]
    {
      var mid := (lo + hi) / 2;
      if s.active[mid] < t { lo := mid + 1; } else { hi := mid; }
    }
    found := lo < |s.active| && s.active[lo] == t;
  }

  class TransactionManager {
    var nextTxn: Txn
    var reg: Registry

    ghost predicate Valid()
      reads this
    {
      INITIAL_TXN <= nextTxn && forall t :: t in reg <==> INITIAL_TXN <= t < nextTxn
    }

    constructor ()
      ensures Valid() && nextTxn == INITIAL_TXN && reg == map[]
    {
      nextTxn, reg := INITIAL_TXN, map[];
    }

    method BeginTxn() returns (t: Txn)
      requires Valid()
      modifies this
      ensures Valid() && t == old(nextTxn)
      ensures forall heap :: Db(nextTxn, reg, heap) == Step(Db(old(nextTxn), old(reg), heap), Begin)
    {
      t := nextTxn;
      nextTxn := nextTxn + 1;
      reg := reg[t := Active];
    }

    method CommitTxn(t: Txn) returns (r: Result<()>)
      requires Valid()
      modifies `reg
      ensures Valid() && (r.Ok? <==> t in old(reg) && old(reg)[t] == Active)
      ensures forall heap :: Db(nextTxn, reg, heap) == Step(Db(nextTxn, old(reg), heap), Commit(t))
    {
      if t !in reg || reg[t] != Active { return Err(InvalidState); }
      reg := reg[t := Committed];
      return Ok(());
    }

    method AbortTxn(t: Txn) returns (r: Result<()>)
      requires Valid()
      modifies `reg
      ensures Valid() && (r.Ok? <==> t in old(reg) && old(reg)[t] == Active)
      ensures forall heap :: Db(nextTxn, reg, heap) == Step(Db(nextTxn, old(reg), heap), Abort(t))
    {
      if t !in reg || reg[t] != Active { return Err(InvalidState); }
      reg := reg[t := Aborted];
      return Ok(());
    }

    method CreateSnapshot() returns (s: Snapshot)
      requires Valid() && nextTxn < TXN_MAX
      ensures IsSnapshotOf(s, nextTxn, reg)
    {
      var xmax := nextTxn;
      var xmin := GetOldestActive(reg);
      if xmin == INVALID_TXN || xmin > xmax { xmin := xmax; }
      var active := GetActive(reg);
      var sorted := SortActive(active);
      assert forall t :: t in sorted <==> t in multiset(sorted);
      assert forall t :: t in active <==> t in multiset(active);
      s := Snapshot(xmin, xmax, sorted);
    }
  }

  // ---------- the heap ----------

  class TableHeap {
    var heap: Heap

    constructor ()
      ensures heap == map[]
    {
      heap := map[];
    }

    /** A new record in the slot `at` that a page offered. */
    method InsertRecord(t: Txn, at: RecordId, data: seq<int>)
      requires at !in heap
      modifies this
      ensures forall n, reg :: Db(n, reg, heap) == Step(Db(n, reg, old(heap)), Insert(t, at, data))
      ensures forall reg, s :: Lookup(heap, reg, s, t, at) == Ok(data)
    {
      heap := heap[at := Version(t, INVALID_TXN, None, data)];
    }

    /** Walks the version chain from `id`; `born` is the order in which versions were created. */
    method GetRecord(id: RecordId, reg: Registry, s: Snapshot, me: Txn, ghost born: map<RecordId, nat>)
      returns (r: Result<seq<int>>)
      requires forall k :: k in heap ==> k in born
      requires forall k :: k in heap && heap[k].prev.Some? ==>
                 heap[k].prev.value in heap && born[heap[k].prev.value] < born[k]
      ensures r == Lookup(heap, reg, s, me, id)
    {
      hide IsVisible;
      var current := Some(id);
      ghost var rest := heap;
      while current.Some?
        invariant current.Some? ==> Lookup(rest, reg, s, me, current.value) == Lookup(heap, reg, s, me, id)
        invariant current.None? ==> Lookup(heap, reg, s, me, id) == Err(NotFound)
        invariant forall k :: k in rest ==> k in heap && rest[k] == heap[k]
        invariant current.Some? && current.value in heap ==>
                    forall k :: k in heap && born[k] <= born[current.value] ==> k in rest
        decreases |rest|, current.Some?
      {
        var k := current.value;
        if k !in heap { return Err(NotFound); }
        if IsVisible(reg, heap[k], s, me) { return Ok(heap[k].data); }
        current := heap[k].prev;
        assert (rest - {k}).Keys == rest.Keys - {k};
        rest := rest - {k};
      }
      return Err(NotFound);
    }

    /** Marks the old version and adds the new one, if some page has room for it. */
    method UpdateRecord(t: Txn, target: RecordId, slot: Option<RecordId>, data: seq<int>) returns (r: Result<()>)
      requires slot.Some? ==> slot.value !in heap
      modifies this
      ensures forall n, reg :: Db(n, reg, heap) == Step(Db(n, reg, old(heap)), Update(t, target, slot, data))
      ensures r == if target !in old(heap) then Err(NotFound)
                   else if Conflict(old(heap)[target], t) then Err(TransactionAborted)
                   else if slot.None? then Err(InternalError)
                   else Ok(())
      ensures r.Ok? ==> forall reg, s :: Lookup(heap, reg, s, t, slot.value) == Ok(data)
    {
      if target !in heap { return Err(NotFound); }
      var v := heap[target];
      if v.xmax != INVALID_TXN && v.xmax != t { return Err(TransactionAborted); }
      heap := heap[target := v.(xmax := t)];
      if slot.None? { return Err(InternalError); }
      heap := heap[slot.value := Version(t, INVALID_TXN, Some(target), data)];
      return Ok(());
    }

    method EraseRecord(t: Txn, target: RecordId) returns (r: Result<()>)
      modifies this
      ensures forall n, reg :: Db(n, reg, heap) == Step(Db(n, reg, old(heap)), Erase(t, target))
      ensures r == if target !in old(heap) then Err(NotFound)
                   else if Conflict(old(heap)[target], t) then Err(TransactionAborted)
                   else Ok(())
    {
      if target !in heap { return Err(NotFound); }
      var v := heap[target];
      if v.xmax != INVALID_TXN && v.xmax != t { return Err(TransactionAborted); }
      heap := heap[target := v.(xmax := t)];
      return Ok(());
    }
  }
}
