/** Snapshots, visibility, the transaction registry and the heap's version chains. */
module Mvcc {
  import opened Results

  type Txn = nat
  type RecordId = nat

  const INVALID_TXN: Txn := 0
  const INITIAL_TXN: Txn := 1

  datatype TxnState = Active | Committing | Committed | Aborting | Aborted

  type Registry = map<Txn, TxnState>

  predicate Unfinished(s: TxnState) {
    s == Active || s == Committing || s == Aborting
  }

  predicate IsCommitted(reg: Registry, t: Txn) {
    t in reg && reg[t] == Committed
  }

  // ---------- snapshots ----------

  datatype Snapshot = Snapshot(xmin: Txn, xmax: Txn, active: seq<Txn>)

  /** Whether the snapshot counts `t` as still running. */
  predicate IsActive(s: Snapshot, t: Txn) {
    if t < s.xmin then false else if t >= s.xmax then true else t in s.active
  }

  predicate Sorted(s: seq<Txn>) {
    forall i, j :: 0 <= i < j < |s| ==> s[i] <= s[j]
  }

  /** What `create_snapshot` builds from the id counter and the registry. */
  ghost predicate IsSnapshotOf(s: Snapshot, nextTxn: Txn, reg: Registry) {
    && s.xmax == nextTxn && Sorted(s.active)
    && (forall t :: t in s.active <==> t in reg && Unfinished(reg[t]))
    && s.xmin <= s.xmax && (forall t :: t in reg && Unfinished(reg[t]) ==> s.xmin <= t)
  }

  // ---------- versions and visibility ----------

  datatype Version = Version(xmin: Txn, xmax: Txn, prev: Option<RecordId>, data: seq<int>)

  type Heap = map<RecordId, Version>

  predicate CreatorSeen(reg: Registry, s: Snapshot, me: Txn, creator: Txn) {
    creator == me || (!IsActive(s, creator) && IsCommitted(reg, creator))
  }

  /** The branches of `is_visible`. */
  predicate IsVisible(reg: Registry, v: Version, s: Snapshot, me: Txn) {
    var created :=
      if v.xmin == me then true
      else if IsActive(s, v.xmin) then false
      else IsCommitted(reg, v.xmin);
    if !created then false
    else if v.xmax == INVALID_TXN then true
    else
      var deleted :=
        if v.xmax == me then true
        else if IsActive(s, v.xmax) then false
        else IsCommitted(reg, v.xmax);
      !deleted
  }

  /** Follows `prev` from `id` to the first visible version. */
  function Lookup(heap: Heap, reg: Registry, s: Snapshot, me: Txn, id: RecordId): (r: Result<seq<int>>)
    decreases |heap|
  {
    if id !in heap then Err(NotFound)
    else if IsVisible(reg, heap[id], s, me) then Ok(heap[id].data)
    else if heap[id].prev.None? then Err(NotFound)
    else
      assert |heap - {id}| < |heap| by { assert (heap - {id}).Keys == heap.Keys - {id}; }
      Lookup(heap - {id}, reg, s, me, heap[id].prev.value)
  }

  // ---------- the steps ----------

  datatype Db = Db(nextTxn: Txn, reg: Registry, heap: Heap)

  datatype Op =
    | Begin
    | Commit(txn: Txn)
    | Abort(txn: Txn)
    | Insert(txn: Txn, at: RecordId, data: seq<int>)
    | Update(txn: Txn, target: RecordId, slot: Option<RecordId>, data: seq<int>)   // no slot: no page has room
    | Erase(txn: Txn, target: RecordId)

  /** Another transaction has deleted or replaced this version. */
  predicate Conflict(v: Version, txn: Txn) {
    v.xmax != INVALID_TXN && v.xmax != txn
  }

  function Step(d: Db, op: Op): (r: Db) {
    match op
    case Begin => d.(reg := d.reg[d.nextTxn := Active], nextTxn := d.nextTxn + 1)
    case Commit(t) => if t in d.reg && d.reg[t] == Active then d.(reg := d.reg[t := Committed]) else d
    case Abort(t) => if t in d.reg && d.reg[t] == Active then d.(reg := d.reg[t := Aborted]) else d
    case Insert(t, at, data) => d.(heap := d.heap[at := Version(t, INVALID_TXN, None, data)])
    case Update(t, target, slot, data) =>
      if target !in d.heap || Conflict(d.heap[target], t) then d
      else
        var marked := d.heap[target := d.heap[target].(xmax := t)];
        d.(heap := if slot.Some? then marked[slot.value := Version(t, INVALID_TXN, Some(target), data)] else marked)
    case Erase(t, target) =>
      if target !in d.heap || Conflict(d.heap[target], t) then d
      else d.(heap := d.heap[target := d.heap[target].(xmax := t)])
  }

  /** Only active transactions write, and new versions go to unused slots. */
  predicate Enabled(d: Db, op: Op) {
    match op
    case Insert(t, at, _) => t in d.reg && d.reg[t] == Active && at !in d.heap
    case Update(t, target, slot, _) =>
      t in d.reg && d.reg[t] == Active && (slot.Some? ==> slot.value !in d.heap && slot.value != target)
    case Erase(t, target) => t in d.reg && d.reg[t] == Active
    case _ => true
  }

  /** The transaction a step belongs to. */
  function Actor(d: Db, op: Op): Txn {
    if op.Begin? then d.nextTxn else op.txn
  }

  /** Ids are handed out in order from 1, and every version points at versions that exist. */
  ghost predicate DbOk(d: Db) {
    && d.nextTxn >= INITIAL_TXN
    && (forall t :: t in d.reg <==> INITIAL_TXN <= t < d.nextTxn)
    && (forall k :: k in d.heap ==>
          d.heap[k].xmin in d.reg && (d.heap[k].xmax == INVALID_TXN || d.heap[k].xmax in d.reg))
    && (forall k :: k in d.heap && d.heap[k].prev.Some? ==> d.heap[k].prev.value in d.heap)
  }

  lemma StepDbOk(d: Db, op: Op)
    requires DbOk(d) && Enabled(d, op)
    ensures DbOk(Step(d, op))
  {
  }

  // ---------- repeatable reads ----------

  /** Everything unfinished in `d`, or not even begun, counts as running in the snapshot. */
  ghost predicate Covers(s: Snapshot, d: Db) {
    forall t :: (t >= d.nextTxn || (t in d.reg && Unfinished(d.reg[t]))) ==> IsActive(s, t)
  }

  lemma FreshSnapshotCovers(s: Snapshot, d: Db)
    requires IsSnapshotOf(s, d.nextTxn, d.reg)
    ensures Covers(s, d)
  {
  }

  lemma CoversStep(s: Snapshot, d: Db, op: Op)
    requires Covers(s, d)
    ensures Covers(s, Step(d, op))
  {
  }

  /** A step by another transaction changes neither visibility nor links of any version. */
  lemma StepKeepsVisibility(s: Snapshot, d: Db, op: Op, me: Txn, k: RecordId)
    requires DbOk(d) && Enabled(d, op) && Covers(s, d) && Actor(d, op) != me && k in d.heap
    ensures var e := Step(d, op);
            k in e.heap && e.heap[k].prev == d.heap[k].prev && e.heap[k].data == d.heap[k].data
            && IsVisible(e.reg, e.heap[k], s, me) == IsVisible(d.reg, d.heap[k], s, me)
  {
    hide IsActive;
    assert !IsCommitted(d.reg, d.nextTxn);
  }

  lemma {:induction false} LookupStable(
      h: Heap, g: Heap, r1: Registry, r2: Registry, s: Snapshot, me: Txn, id: RecordId)
    requires forall k :: k in h ==>
               k in g && g[k].prev == h[k].prev && g[k].data == h[k].data
               && IsVisible(r2, g[k], s, me) == IsVisible(r1, h[k], s, me)
    requires forall k :: k in h && h[k].prev.Some? && h[k].prev.value in g ==> h[k].prev.value in h
    requires id in g ==> id in h
    ensures Lookup(g, r2, s, me, id) == Lookup(h, r1, s, me, id)
    decreases |h|
  {
    hide IsVisible;
    if id in h && !IsVisible(r1, h[id], s, me) && h[id].prev.Some? {
      assert (h - {id}).Keys == h.Keys - {id};
      LookupStable(h - {id}, g - {id}, r1, r2, s, me, h[id].prev.value);
    }
  }

  /** One step by another transaction leaves every read of an existing record as it was. */
  lemma StepKeepsRead(s: Snapshot, d: Db, op: Op, me: Txn, id: RecordId)
    requires DbOk(d) && Enabled(d, op) && Covers(s, d) && Actor(d, op) != me && id in d.heap
    ensures var e := Step(d, op); Lookup(e.heap, e.reg, s, me, id) == Lookup(d.heap, d.reg, s, me, id)
  {
    hide IsVisible, IsActive, Covers, Lookup;
    var e := Step(d, op);
    forall k | k in d.heap
      ensures k in e.heap && e.heap[k].prev == d.heap[k].prev && e.heap[k].data == d.heap[k].data
              && IsVisible(e.reg, e.heap[k], s, me) == IsVisible(d.reg, d.heap[k], s, me)
    {
      StepKeepsVisibility(s, d, op, me, k);
    }
    LookupStable(d.heap, e.heap, d.reg, e.reg, s, me, id);
  }

  ghost predicate IsRun(ds: seq<Db>, ops: seq<Op>) {
    |ds| == |ops| + 1 && DbOk(ds[0])
    && forall i :: 0 <= i < |ops| ==> Enabled(ds[i], ops[i]) && ds[i + 1] == Step(ds[i], ops[i])
  }

  lemma {:induction false} RunDbOk(ds: seq<Db>, ops: seq<Op>, i: nat)
    requires IsRun(ds, ops) && i <= |ops|
    ensures DbOk(ds[i])
    decreases i
  {
    hide DbOk, Enabled, Step;
    if i > 0 {
      RunDbOk(ds, ops, i - 1);
      assert ds[i - 1 + 1] == Step(ds[i - 1], ops[i - 1]);
      StepDbOk(ds[i - 1], ops[i - 1]);
    }
  }

  lemma {:induction false} RunCovers(ds: seq<Db>, ops: seq<Op>, s: Snapshot, k: nat, i: nat)
    requires IsRun(ds, ops) && k <= i <= |ops| && IsSnapshotOf(s, ds[k].nextTxn, ds[k].reg)
    ensures Covers(s, ds[i])
    decreases i
  {
    hide DbOk, Enabled, Step, Covers, IsSnapshotOf;
    if i == k {
      FreshSnapshotCovers(s, ds[k]);
    } else {
      RunCovers(ds, ops, s, k, i - 1);
      assert ds[i - 1 + 1] == Step(ds[i - 1], ops[i - 1]);
      CoversStep(s, ds[i - 1], ops[i - 1]);
    }
  }

  /**
   * Repeatable reads: with a snapshot taken at step `k` of any run, a read of the same record gives the
   * same answer at step `i` and at step `j`, whatever other transactions did in between.
   */
  lemma {:induction false} RepeatableRead(
      ds: seq<Db>, ops: seq<Op>, s: Snapshot, k: nat, i: nat, j: nat, me: Txn, id: RecordId)
    requires IsRun(ds, ops) && k <= i <= j <= |ops| && IsSnapshotOf(s, ds[k].nextTxn, ds[k].reg)
    requires id in ds[i].heap
    requires forall n :: i <= n < j ==> Actor(ds[n], ops[n]) != me
    ensures id in ds[j].heap
    ensures Lookup(ds[j].heap, ds[j].reg, s, me, id) == Lookup(ds[i].heap, ds[i].reg, s, me, id)
    decreases j
  {
    hide DbOk, Enabled, Step, Covers, IsSnapshotOf, Lookup, Actor;
    if i < j {
      RepeatableRead(ds, ops, s, k, i, j - 1, me, id);
      var d, op := ds[j - 1], ops[j - 1];
      assert ds[j - 1 + 1] == Step(d, op);
      RunDbOk(ds, ops, j - 1);
      RunCovers(ds, ops, s, k, j - 1);
      StepKeepsRead(s, d, op, me, id);
      StepKeepsRecords(d, op, id);
    }
  }

  lemma StepKeepsRecords(d: Db, op: Op, id: RecordId)
    requires id in d.heap
    ensures id in Step(d, op).heap
  {
  }

  /** What the snapshot calls finished has kept its state since the snapshot was taken. */
  lemma {:induction false} FinishedIsFrozen(ds: seq<Db>, ops: seq<Op>, s: Snapshot, k: nat, i: nat, t: Txn)
    requires IsRun(ds, ops) && k <= i <= |ops| && IsSnapshotOf(s, ds[k].nextTxn, ds[k].reg)
    requires !IsActive(s, t)
    ensures (t in ds[i].reg <==> t in ds[k].reg) && (t in ds[k].reg ==> ds[i].reg[t] == ds[k].reg[t])
    decreases i
  {
    hide DbOk, Enabled, IsSnapshotOf;
    if k < i {
      FinishedIsFrozen(ds, ops, s, k, i - 1, t);
      RunCovers(ds, ops, s, k, i - 1);
      assert ds[i - 1 + 1] == Step(ds[i - 1], ops[i - 1]);
    }
  }

  /** `t` is the reader or had committed when the snapshot was taken at step `k`. */
  ghost predicate SeenBy(ds: seq<Db>, k: nat, me: Txn, t: Txn)
    requires k < |ds|
  {
    t == me || IsCommitted(ds[k].reg, t)
  }

  /**
   * Visibility, exactly, at any later step of the run: the creator is the reader or had committed
   * before the snapshot, and the deleter, if any, is neither.
   */
  lemma VisibilityExact(ds: seq<Db>, ops: seq<Op>, s: Snapshot, k: nat, i: nat, me: Txn, v: Version)
    requires IsRun(ds, ops) && k <= i <= |ops| && IsSnapshotOf(s, ds[k].nextTxn, ds[k].reg)
    ensures IsVisible(ds[i].reg, v, s, me) <==>
            SeenBy(ds, k, me, v.xmin) && (v.xmax == INVALID_TXN || !SeenBy(ds, k, me, v.xmax))
  {
    CommittedBefore(ds, ops, s, k, i, v.xmin);
    CommittedBefore(ds, ops, s, k, i, v.xmax);
  }

  lemma CommittedBefore(ds: seq<Db>, ops: seq<Op>, s: Snapshot, k: nat, i: nat, t: Txn)
    requires IsRun(ds, ops) && k <= i <= |ops| && IsSnapshotOf(s, ds[k].nextTxn, ds[k].reg)
    ensures !IsActive(s, t) && IsCommitted(ds[i].reg, t) <==> IsCommitted(ds[k].reg, t)
  {
    hide Step, Enabled;
    RunDbOk(ds, ops, k);
    if !IsActive(s, t) {
      FinishedIsFrozen(ds, ops, s, k, i, t);
    }
  }

  // ---------- first updater wins ----------

  lemma {:induction false} DeleterNeverChanges(ds: seq<Db>, ops: seq<Op>, i: nat, j: nat, k: RecordId)
    requires IsRun(ds, ops) && i <= j <= |ops| && k in ds[i].heap && ds[i].heap[k].xmax != INVALID_TXN
    ensures k in ds[j].heap && ds[j].heap[k].xmax == ds[i].heap[k].xmax
    decreases j
  {
    hide DbOk;
    if i < j {
      DeleterNeverChanges(ds, ops, i, j - 1, k);
      assert ds[j - 1 + 1] == Step(ds[j - 1], ops[j - 1]);
    }
  }

  /**
   * Once a transaction has updated or erased a version, every other transaction's update or erase of it
   * is refused from then on, even after the first one has aborted: nothing ever resets the mark.
   */
  lemma LaterUpdatersRefused(ds: seq<Db>, ops: seq<Op>, i: nat, j: nat, k: RecordId, other: Txn,
                             slot: Option<RecordId>, data: seq<int>)
    requires IsRun(ds, ops) && i <= j <= |ops| && k in ds[i].heap
    requires ds[i].heap[k].xmax != INVALID_TXN && other != ds[i].heap[k].xmax
    ensures Step(ds[j], Update(other, k, slot, data)) == ds[j] && Step(ds[j], Erase(other, k)) == ds[j]
  {
    DeleterNeverChanges(ds, ops, i, j, k);
  }

  // ---------- version chains ----------

  /**
   * The database with its history: when each transaction committed, under a snapshot of what time each
   * version was written, and in which order versions were created.
   */
  datatype History = History(
    db: Db, clock: nat, commitTime: map<Txn, nat>, snapTime: map<RecordId, nat>, born: map<RecordId, nat>)

  /** A step with the snapshot its transaction worked under, and the time that was taken. */
  datatype Move = Move(op: Op, snap: Snapshot, taken: nat)

  function NewSlot(d: Db, op: Op): Option<RecordId> {
    if op.Insert? then Some(op.at)
    else if op.Update? && op.target in d.heap && !Conflict(d.heap[op.target], op.txn) then op.slot
    else None
  }

  function Play(h: History, m: Move): (r: History) {
    var d, op := h.db, m.op;
    var slot := NewSlot(d, op);
    History(Step(d, op), h.clock + 1,
            if op.Commit? && op.txn in d.reg && d.reg[op.txn] == Active then h.commitTime[op.txn := h.clock]
            else h.commitTime,
            if slot.Some? then h.snapTime[slot.value := m.taken] else h.snapTime,
            if slot.Some? then h.born[slot.value := h.clock] else h.born)
  }

  predicate CommittedAsOf(h: History, t: Txn, time: nat) {
    t in h.commitTime && h.commitTime[t] < time
  }

  /** The snapshot shows exactly what had committed before time `taken`. */
  ghost predicate TakenAt(h: History, s: Snapshot, taken: nat) {
    && taken <= h.clock && Covers(s, h.db)
    && forall t :: CommittedAsOf(h, t, taken) <==> !IsActive(s, t) && IsCommitted(h.db.reg, t)
  }

  ghost predicate TimesOk(h: History) {
    && DbOk(h.db)
    && (forall t :: t in h.commitTime <==> IsCommitted(h.db.reg, t))
    && (forall t :: t in h.commitTime ==> h.commitTime[t] < h.clock)
    && (forall k :: k in h.db.heap ==>
          k in h.snapTime && h.snapTime[k] <= h.clock && k in h.born && h.born[k] < h.clock)
    && (forall k :: k in h.db.heap && h.db.heap[k].xmin in h.commitTime ==>
          h.snapTime[k] <= h.commitTime[h.db.heap[k].xmin])
  }

  /** Each version is replaced by its deleter, once, and was written by someone who saw its predecessor. */
  ghost predicate LinkOk(h: History, k: RecordId)
    requires k in h.db.heap
  {
    var v := h.db.heap[k];
    v.prev.Some? ==>
      v.prev.value in h.db.heap && v.prev.value in h.born && k in h.born && k in h.snapTime
      && h.born[v.prev.value] < h.born[k]
      && h.db.heap[v.prev.value].xmax == v.xmin
      && (h.db.heap[v.prev.value].xmin == v.xmin || CommittedAsOf(h, h.db.heap[v.prev.value].xmin, h.snapTime[k]))
  }

  /** No version has two successors. */
  ghost predicate Linear(heap: Heap) {
    forall a, b :: a in heap && b in heap && a != b && heap[a].prev.Some? ==> heap[a].prev != heap[b].prev
  }

  ghost predicate ChainsOk(h: History) {
    TimesOk(h) && Linear(h.db.heap) && forall k :: k in h.db.heap ==> LinkOk(h, k)
  }

  /** Updates and erases go to versions that their transaction sees; inserts use current snapshots. */
  ghost predicate Disciplined(h: History, m: Move) {
    && Enabled(h.db, m.op) && m.taken <= h.clock
    && ((m.op.Update? || m.op.Erase?) && m.op.target in h.db.heap ==>
          TakenAt(h, m.snap, m.taken) && IsVisible(h.db.reg, h.db.heap[m.op.target], m.snap, m.op.txn))
  }

  lemma FreshSnapshotTaken(h: History, s: Snapshot)
    requires TimesOk(h) && IsSnapshotOf(s, h.db.nextTxn, h.db.reg)
    ensures TakenAt(h, s, h.clock)
  {
    FreshSnapshotCovers(s, h.db);
  }

  lemma TakenAtStep(h: History, m: Move, s: Snapshot, taken: nat)
    requires TimesOk(h) && Disciplined(h, m) && TakenAt(h, s, taken)
    ensures TakenAt(Play(h, m), s, taken)
  {
    hide IsVisible, IsActive;
    CoversStep(s, h.db, m.op);
  }

  lemma NextIsNew(d: Db)
    requires DbOk(d)
    ensures d.nextTxn !in d.reg
  {
  }

  lemma CommitTimesStep(h: History, m: Move)
    requires TimesOk(h)
    ensures var r := Play(h, m);
            (forall t :: t in r.commitTime <==> IsCommitted(r.db.reg, t))
            && (forall t :: t in r.commitTime ==> r.commitTime[t] < r.clock)
  {
    hide DbOk;
    NextIsNew(h.db);
  }

  /** Steps add at most one version, and keep the creator of every other. */
  lemma HeapStep(d: Db, op: Op, k: RecordId)
    requires Enabled(d, op) && k in Step(d, op).heap
    ensures if k in d.heap then NewSlot(d, op) != Some(k) && Step(d, op).heap[k].xmin == d.heap[k].xmin
            else NewSlot(d, op) == Some(k) && Step(d, op).heap[k].xmin == op.txn
                 && op.txn in d.reg && d.reg[op.txn] == Active
  {
  }

  lemma VersionTimesStep(h: History, m: Move, k: RecordId)
    requires TimesOk(h) && Enabled(h.db, m.op) && m.taken <= h.clock && k in Play(h, m).db.heap
    ensures var r := Play(h, m);
            k in r.snapTime && r.snapTime[k] <= r.clock && k in r.born && r.born[k] < r.clock
            && (r.db.heap[k].xmin in r.commitTime ==> r.snapTime[k] <= r.commitTime[r.db.heap[k].xmin])
  {
    hide DbOk, Step, Enabled, NewSlot;
    HeapStep(h.db, m.op, k);
  }

  lemma TimesOkStep(h: History, m: Move)
    requires TimesOk(h) && Enabled(h.db, m.op) && m.taken <= h.clock
    ensures TimesOk(Play(h, m))
  {
    hide DbOk, Step, Enabled, NewSlot;
    StepDbOk(h.db, m.op);
    CommitTimesStep(h, m);
    forall k | k in Play(h, m).db.heap { VersionTimesStep(h, m, k); }
  }

  /** A version that its writer sees and may replace has not been replaced before. */
  lemma TargetIsLast(h: History, m: Move)
    requires ChainsOk(h) && Disciplined(h, m) && (m.op.Update? || m.op.Erase?) && m.op.target in h.db.heap
    requires !Conflict(h.db.heap[m.op.target], m.op.txn)
    ensures h.db.heap[m.op.target].xmax == INVALID_TXN
    ensures forall k :: k in h.db.heap ==> h.db.heap[k].prev != Some(m.op.target)
    ensures var v := h.db.heap[m.op.target];
            v.xmin == m.op.txn || CommittedAsOf(h, v.xmin, m.taken)
  {
    forall k | k in h.db.heap
      ensures h.db.heap[k].prev != Some(m.op.target)
    {
      assert LinkOk(h, k);
    }
  }

  /** The step marks a version as deleted by its transaction. */
  predicate Marks(d: Db, op: Op) {
    (op.Update? || op.Erase?) && op.target in d.heap && !Conflict(d.heap[op.target], op.txn)
  }

  lemma LinkKept(h: History, m: Move, k: RecordId)
    requires ChainsOk(h) && Disciplined(h, m) && k in h.db.heap
    ensures k in Play(h, m).db.heap && LinkOk(Play(h, m), k)
  {
    hide IsVisible, IsActive, Covers, TakenAt, Linear, DbOk;
    assert LinkOk(h, k);
    assert NewSlot(h.db, m.op) != Some(k);
    if Marks(h.db, m.op) { TargetIsLast(h, m); }
  }

  lemma LinkNew(h: History, m: Move, k: RecordId)
    requires ChainsOk(h) && Disciplined(h, m) && NewSlot(h.db, m.op) == Some(k)
    ensures k in Play(h, m).db.heap && LinkOk(Play(h, m), k)
  {
    hide IsVisible, IsActive, Covers, TakenAt, Linear, DbOk, LinkOk;
    if m.op.Update? { TargetIsLast(h, m); }
    var r := Play(h, m);
    assert LinkOk(r, k) by {
      NewLinkShape(h, m, k);
    }
  }

  lemma NewLinkShape(h: History, m: Move, k: RecordId)
    requires TimesOk(h) && Enabled(h.db, m.op) && NewSlot(h.db, m.op) == Some(k)
    requires m.op.Update? ==> var v := h.db.heap[m.op.target];
                              v.xmin == m.op.txn || CommittedAsOf(h, v.xmin, m.taken)
    ensures k in Play(h, m).db.heap && LinkOk(Play(h, m), k)
  {
    hide DbOk;
  }

  lemma LinearStep(h: History, m: Move)
    requires ChainsOk(h) && Disciplined(h, m)
    ensures Linear(Play(h, m).db.heap)
  {
    hide IsVisible, IsActive, Covers, TakenAt, TimesOk, LinkOk;
    if Marks(h.db, m.op) { TargetIsLast(h, m); }
  }

  /** Every disciplined step keeps the chains linear, acyclic and properly linked. */
  lemma ChainsOkStep(h: History, m: Move)
    requires ChainsOk(h) && Disciplined(h, m)
    ensures ChainsOk(Play(h, m))
  {
    hide IsVisible, IsActive, Covers, TimesOk, LinkOk, Linear, TakenAt;
    TimesOkStep(h, m);
    LinearStep(h, m);
    forall k | k in Play(h, m).db.heap
      ensures LinkOk(Play(h, m), k)
    {
      if k in h.db.heap { LinkKept(h, m, k); } else { LinkNew(h, m, k); }
    }
  }

  // ---------- at most one visible version ----------

  /** The records met when following `prev` from `id`. */
  function Chain(heap: Heap, id: RecordId): (c: seq<RecordId>)
    ensures forall i :: 0 <= i < |c| ==> c[i] in heap
    decreases |heap|
  {
    if id !in heap then []
    else if heap[id].prev.None? then [id]
    else
      assert |heap - {id}| < |heap| by { assert (heap - {id}).Keys == heap.Keys - {id}; }
      [id] + Chain(heap - {id}, heap[id].prev.value)
  }

  /** The reader never reads with a snapshot older than one it wrote under. */
  ghost predicate ReadsForward(h: History, me: Txn, taken: nat) {
    forall k :: k in h.db.heap && k in h.snapTime && h.db.heap[k].xmin == me ==> h.snapTime[k] <= taken
  }

  ghost predicate Reader(h: History, s: Snapshot, taken: nat, me: Txn) {
    ChainsOk(h) && TakenAt(h, s, taken) && ReadsForward(h, me, taken)
  }

  /** Whoever sees a version's creator sees its predecessor's creator and deleter. */
  lemma CreatorSeenDown(h: History, s: Snapshot, taken: nat, me: Txn, k: RecordId)
    requires Reader(h, s, taken, me) && k in h.db.heap && h.db.heap[k].prev.Some?
    requires CreatorSeen(h.db.reg, s, me, h.db.heap[k].xmin)
    ensures var p := h.db.heap[k].prev.value;
            p in h.db.heap && CreatorSeen(h.db.reg, s, me, h.db.heap[p].xmin)
            && !IsVisible(h.db.reg, h.db.heap[p], s, me)
  {
    hide IsActive, Covers;
    assert LinkOk(h, k);
    var p := h.db.heap[k].prev.value;
    var t, u := h.db.heap[k].xmin, h.db.heap[p].xmin;
    assert t != INVALID_TXN;
    if u != t && t != me {
      assert CommittedAsOf(h, t, taken);
    }
  }

  lemma {:induction false} TailInvisible(
      h: History, s: Snapshot, taken: nat, me: Txn, heap: Heap, id: RecordId, i: nat)
    requires Reader(h, s, taken, me) && id in heap && CreatorSeen(h.db.reg, s, me, heap[id].xmin)
    requires forall k :: k in heap ==> k in h.db.heap && heap[k] == h.db.heap[k]
    requires 0 < i < |Chain(heap, id)|
    ensures !IsVisible(h.db.reg, h.db.heap[Chain(heap, id)[i]], s, me)
    decreases |heap|
  {
    hide Reader, IsVisible, CreatorSeen;
    CreatorSeenDown(h, s, taken, me, id);
    var p := heap[id].prev.value;
    assert (heap - {id}).Keys == heap.Keys - {id};
    if i > 1 {
      TailInvisible(h, s, taken, me, heap - {id}, p, i - 1);
    }
  }

  lemma {:induction false} OneVisible(
      h: History, s: Snapshot, taken: nat, me: Txn, heap: Heap, id: RecordId, i: nat, j: nat)
    requires Reader(h, s, taken, me)
    requires forall k :: k in heap ==> k in h.db.heap && heap[k] == h.db.heap[k]
    requires i < j < |Chain(heap, id)| && IsVisible(h.db.reg, h.db.heap[Chain(heap, id)[i]], s, me)
    ensures !IsVisible(h.db.reg, h.db.heap[Chain(heap, id)[j]], s, me)
    decreases |heap|
  {
    hide Reader;
    if i == 0 {
      TailInvisible(h, s, taken, me, heap, id, j);
    } else {
      assert (heap - {id}).Keys == heap.Keys - {id};
      OneVisible(h, s, taken, me, heap - {id}, heap[id].prev.value, i - 1, j - 1);
    }
  }

  /** At most one version of a chain is visible to a reader. */
  lemma AtMostOneVisible(h: History, s: Snapshot, taken: nat, me: Txn, id: RecordId, i: nat, j: nat)
    requires Reader(h, s, taken, me) && i < |Chain(h.db.heap, id)| && j < |Chain(h.db.heap, id)|
    requires IsVisible(h.db.reg, h.db.heap[Chain(h.db.heap, id)[i]], s, me)
    requires IsVisible(h.db.reg, h.db.heap[Chain(h.db.heap, id)[j]], s, me)
    ensures i == j
  {
    hide Reader, IsVisible;
    if i < j {
      OneVisible(h, s, taken, me, h.db.heap, id, i, j);
    } else if j < i {
      OneVisible(h, s, taken, me, h.db.heap, id, j, i);
    }
  }

  lemma {:induction false} FoundIsVisible(heap: Heap, reg: Registry, s: Snapshot, me: Txn, id: RecordId)
    returns (i: nat)
    requires Lookup(heap, reg, s, me, id).Ok?
    ensures i < |Chain(heap, id)| && IsVisible(reg, heap[Chain(heap, id)[i]], s, me)
    ensures Lookup(heap, reg, s, me, id).value == heap[Chain(heap, id)[i]].data
    decreases |heap|
  {
    hide IsVisible;
    if IsVisible(reg, heap[id], s, me) {
      i := 0;
    } else {
      var rest := heap - {id};
      assert rest.Keys == heap.Keys - {id};
      var k := FoundIsVisible(rest, reg, s, me, heap[id].prev.value);
      i := k + 1;
    }
  }

  lemma {:induction false} VisibleIsFound(heap: Heap, reg: Registry, s: Snapshot, me: Txn, id: RecordId, i: nat)
    requires i < |Chain(heap, id)| && IsVisible(reg, heap[Chain(heap, id)[i]], s, me)
    ensures Lookup(heap, reg, s, me, id).Ok?
    decreases |heap|
  {
    hide IsVisible;
    if !IsVisible(reg, heap[id], s, me) {
      var rest := heap - {id};
      assert rest.Keys == heap.Keys - {id};
      VisibleIsFound(rest, reg, s, me, heap[id].prev.value, i - 1);
    }
  }

  /** The read returns a visible version of the chain, and fails exactly when there is none. */
  lemma LookupFindsVisible(heap: Heap, reg: Registry, s: Snapshot, me: Txn, id: RecordId)
    ensures Lookup(heap, reg, s, me, id).Err? <==>
            forall i :: 0 <= i < |Chain(heap, id)| ==> !IsVisible(reg, heap[Chain(heap, id)[i]], s, me)
    ensures Lookup(heap, reg, s, me, id).Ok? ==>
            exists i :: 0 <= i < |Chain(heap, id)| && IsVisible(reg, heap[Chain(heap, id)[i]], s, me)
                        && Lookup(heap, reg, s, me, id).value == heap[Chain(heap, id)[i]].data
  {
    hide IsVisible, Lookup, Chain;
    if Lookup(heap, reg, s, me, id).Ok? {
      var i := FoundIsVisible(heap, reg, s, me, id);
    }
    forall i | 0 <= i < |Chain(heap, id)| && IsVisible(reg, heap[Chain(heap, id)[i]], s, me)
      ensures Lookup(heap, reg, s, me, id).Ok?
    {
      VisibleIsFound(heap, reg, s, me, id, i);
    }
  }

  /** The chain is complete: following `prev` ends only where there is no predecessor. */
  lemma {:induction false} ChainComplete(h: History, heap: Heap, id: RecordId, i: nat)
    requires ChainsOk(h) && id in heap
    requires forall k :: k in heap ==> k in h.db.heap && heap[k] == h.db.heap[k]
    requires forall k :: k in h.db.heap && k in h.born && id in h.born && h.born[k] <= h.born[id] ==> k in heap
    requires i < |Chain(heap, id)|
    ensures var c := Chain(heap, id);
            if i + 1 < |c| then h.db.heap[c[i]].prev == Some(c[i + 1]) else h.db.heap[c[i]].prev.None?
    decreases |heap|
  {
    hide TimesOk, Linear;
    assert LinkOk(h, id);
    if heap[id].prev.Some? {
      var rest, p := heap - {id}, heap[id].prev.value;
      assert rest.Keys == heap.Keys - {id};
      assert p in rest;
      assert Chain(rest, p)[0] == p;
      if i > 0 { ChainComplete(h, rest, p, i - 1); }
    }
  }

  // ---------- runs of disciplined steps ----------

  ghost predicate IsDisciplinedRun(hs: seq<History>, ms: seq<Move>) {
    |hs| == |ms| + 1 && hs[0] == History(Db(INITIAL_TXN, map[], map[]), 0, map[], map[], map[])
    && forall i :: 0 <= i < |ms| ==> Disciplined(hs[i], ms[i]) && hs[i + 1] == Play(hs[i], ms[i])
  }

  lemma EmptyChainsOk()
    ensures ChainsOk(History(Db(INITIAL_TXN, map[], map[]), 0, map[], map[], map[]))
  {
  }

  /** In every state of every disciplined run, chains are linear, acyclic and well linked. */
  lemma {:induction false} RunChainsOk(hs: seq<History>, ms: seq<Move>, i: nat)
    requires IsDisciplinedRun(hs, ms) && i <= |ms|
    ensures ChainsOk(hs[i])
    decreases i
  {
    hide Disciplined, Play, ChainsOk;
    EmptyChainsOk();
    if i > 0 {
      RunChainsOk(hs, ms, i - 1);
      assert hs[i - 1 + 1] == Play(hs[i - 1], ms[i - 1]);
      ChainsOkStep(hs[i - 1], ms[i - 1]);
    }
  }

  lemma {:induction false} RunTakenAt(hs: seq<History>, ms: seq<Move>, k: nat, i: nat, s: Snapshot)
    requires IsDisciplinedRun(hs, ms) && k <= i <= |ms|
    requires IsSnapshotOf(s, hs[k].db.nextTxn, hs[k].db.reg)
    ensures TakenAt(hs[i], s, hs[k].clock)
    decreases i
  {
    hide Disciplined, Play, TakenAt, IsSnapshotOf, TimesOk, Linear, LinkOk;
    if i == k {
      RunChainsOk(hs, ms, k);
      FreshSnapshotTaken(hs[k], s);
    } else {
      RunTakenAt(hs, ms, k, i - 1, s);
      RunChainsOk(hs, ms, i - 1);
      assert hs[i - 1 + 1] == Play(hs[i - 1], ms[i - 1]);
      TakenAtStep(hs[i - 1], ms[i - 1], s, hs[k].clock);
    }
  }

  /**
   * Reading from a chain's head in any disciplined run, with a snapshot of the run that is not older
   * than one the reader wrote under, returns the one version of the chain that the reader sees.
   */
  lemma RunReadsTheVisibleVersion(
      hs: seq<History>, ms: seq<Move>, k: nat, n: nat, s: Snapshot, me: Txn, id: RecordId, i: nat)
    requires IsDisciplinedRun(hs, ms) && k <= n <= |ms|
    requires IsSnapshotOf(s, hs[k].db.nextTxn, hs[k].db.reg) && ReadsForward(hs[n], me, hs[k].clock)
    requires var d := hs[n].db; i < |Chain(d.heap, id)| && IsVisible(d.reg, d.heap[Chain(d.heap, id)[i]], s, me)
    ensures var d := hs[n].db; Lookup(d.heap, d.reg, s, me, id) == Ok(d.heap[Chain(d.heap, id)[i]].data)
  {
    hide IsVisible, Lookup, IsSnapshotOf, TakenAt, ChainsOk, ReadsForward, Chain, Disciplined, Play;
    RunChainsOk(hs, ms, n);
    RunTakenAt(hs, ms, k, n, s);
    var d := hs[n].db;
    LookupFindsVisible(d.heap, d.reg, s, me, id);
    var c := Chain(d.heap, id);
    var j :| 0 <= j < |c| && IsVisible(d.reg, d.heap[c[j]], s, me)
             && Lookup(d.heap, d.reg, s, me, id).value == d.heap[c[j]].data;
    AtMostOneVisible(hs[n], s, hs[k].clock, me, id, i, j);
  }

  /**
   * Without the discipline chains fork: a transaction that updates the same version twice leaves two
   * versions of one record, both visible to it.
   */
  lemma UpdatingTwiceForks(d: Db, t: Txn, v: RecordId, a: RecordId, b: RecordId, x: seq<int>, y: seq<int>, s: Snapshot)
    requires Enabled(d, Update(t, v, Some(a), x)) && v in d.heap && !Conflict(d.heap[v], t)
    requires a != b && b != v && b !in d.heap && t != INVALID_TXN
    ensures var e := Step(Step(d, Update(t, v, Some(a), x)), Update(t, v, Some(b), y));
            Enabled(Step(d, Update(t, v, Some(a), x)), Update(t, v, Some(b), y))
            && !Linear(e.heap)
            && IsVisible(e.reg, e.heap[a], s, t) && IsVisible(e.reg, e.heap[b], s, t)
  {
    var e := Step(Step(d, Update(t, v, Some(a), x)), Update(t, v, Some(b), y));
    assert e.heap[a].prev == Some(v) && e.heap[b].prev == Some(v);
  }

  /** No version has replaced `v` so far. */
  ghost predicate NotReplaced(heap: Heap, v: RecordId) {
    forall k :: k in heap ==> heap[k].prev != Some(v)
  }

  /** The step adds a second successor to its target: an update that goes through, of a replaced version. */
  ghost predicate Forks(d: Db, op: Op) {
    op.Update? && op.target in d.heap && !Conflict(d.heap[op.target], op.txn) && op.slot.Some?
    && !NotReplaced(d.heap, op.target)
  }

  /** A step keeps the chains linear if and only if it does not fork one. */
  lemma LinearExact(d: Db, op: Op)
    requires Linear(d.heap) && Enabled(d, op)
    ensures Linear(Step(d, op).heap) <==> !Forks(d, op)
  {
    var e := Step(d, op);
    if op.Update? && op.target in d.heap && !Conflict(d.heap[op.target], op.txn) && op.slot.Some? {
      var a := op.slot.value;
      assert e.heap[a].prev == Some(op.target);
      forall k | k in d.heap
        ensures k in e.heap && k != a && e.heap[k].prev == d.heap[k].prev
      {
      }
      if k :| k in d.heap && d.heap[k].prev == Some(op.target) {
        assert !Linear(e.heap);
      }
    } else {
      assert forall k :: k in e.heap && e.heap[k].prev.Some? ==> k in d.heap && e.heap[k].prev == d.heap[k].prev;
    }
  }

  lemma ForkStays(d: Db, op: Op)
    requires Enabled(d, op) && !Linear(d.heap)
    ensures !Linear(Step(d, op).heap)
  {
    var a, b :| a in d.heap && b in d.heap && a != b && d.heap[a].prev.Some? && d.heap[a].prev == d.heap[b].prev;
    var e := Step(d, op);
    assert a in e.heap && b in e.heap && e.heap[a].prev == e.heap[b].prev && e.heap[a].prev.Some?;
  }

  /** In every run, linear chains are linear at a later step if and only if no step in between forked one. */
  lemma {:induction false} LinearRunExact(ds: seq<Db>, ops: seq<Op>, n: nat)
    requires IsRun(ds, ops) && n <= |ops|
    ensures Linear(ds[n].heap) <==> Linear(ds[0].heap) && forall i :: 0 <= i < n ==> !Forks(ds[i], ops[i])
    decreases n
  {
    hide Forks, Linear, Enabled, Step;
    if n > 0 {
      LinearRunExact(ds, ops, n - 1);
      assert ds[n - 1 + 1] == Step(ds[n - 1], ops[n - 1]);
      if Linear(ds[n - 1].heap) {
        LinearExact(ds[n - 1], ops[n - 1]);
      } else {
        ForkStays(ds[n - 1], ops[n - 1]);
      }
    }
  }

  // ---------- what a run holds, from its operations alone ----------

  /** Step `j` goes through and writes a new version into slot `a`. */
  ghost predicate Writes(ds: seq<Db>, ops: seq<Op>, j: nat, a: RecordId)
    requires IsRun(ds, ops)
  {
    j < |ops|
    && ((ops[j].Insert? && ops[j].at == a)
        || (ops[j].Update? && ops[j].slot == Some(a) && ops[j].target in ds[j].heap
            && ds[j].heap[ops[j].target].xmax in {INVALID_TXN, ops[j].txn}))
  }

  /** Step `j` goes through and deletes or replaces version `k` on behalf of `t`. */
  ghost predicate Deletes(ds: seq<Db>, ops: seq<Op>, j: nat, k: RecordId, t: Txn)
    requires IsRun(ds, ops)
  {
    j < |ops| && (ops[j].Update? || ops[j].Erase?) && ops[j].target == k && ops[j].txn == t
    && k in ds[j].heap && ds[j].heap[k].xmax in {INVALID_TXN, t}
  }

  lemma StepKeepsVersion(d: Db, op: Op, k: RecordId)
    requires Enabled(d, op) && k in d.heap
    ensures k in Step(d, op).heap && Step(d, op).heap[k] == d.heap[k].(xmax := Step(d, op).heap[k].xmax)
  {
  }

  /** A version keeps for ever the creator, the data and the predecessor that the step writing it gave it. */
  lemma {:induction false} WrittenStays(ds: seq<Db>, ops: seq<Op>, j: nat, n: nat, a: RecordId)
    requires IsRun(ds, ops) && Writes(ds, ops, j, a) && j < n <= |ops|
    ensures a !in ds[j].heap && a in ds[n].heap
    ensures var v, op := ds[n].heap[a], ops[j];
            v.xmin == op.txn && v.data == op.data && v.prev == if op.Update? then Some(op.target) else None
    decreases n
  {
    hide DbOk;
    var d, op := ds[n - 1], ops[n - 1];
    assert ds[n - 1 + 1] == Step(d, op) && Enabled(d, op);
    if j < n - 1 {
      WrittenStays(ds, ops, j, n - 1, a);
      StepKeepsVersion(d, op, a);
    }
  }

  /** The slots in use are those in use at the start and those written since. */
  lemma {:induction false} SlotsExact(ds: seq<Db>, ops: seq<Op>, n: nat, a: RecordId)
    requires IsRun(ds, ops) && n <= |ops|
    ensures a in ds[n].heap <==> a in ds[0].heap || exists j: nat :: j < n && Writes(ds, ops, j, a)
    decreases n
  {
    hide DbOk, Writes;
    if n > 0 {
      SlotsExact(ds, ops, n - 1, a);
      assert ds[n - 1 + 1] == Step(ds[n - 1], ops[n - 1]) && Enabled(ds[n - 1], ops[n - 1]);
      SlotStep(ds, ops, n - 1, a);
    }
  }

  lemma SlotStep(ds: seq<Db>, ops: seq<Op>, j: nat, a: RecordId)
    requires IsRun(ds, ops) && j < |ops|
    ensures a in ds[j + 1].heap <==> a in ds[j].heap || Writes(ds, ops, j, a)
  {
    hide DbOk;
    assert ds[j + 1] == Step(ds[j], ops[j]) && Enabled(ds[j], ops[j]);
  }

  lemma DeleterStep(ds: seq<Db>, ops: seq<Op>, j: nat, k: RecordId, t: Txn)
    requires IsRun(ds, ops) && j < |ops| && k in ds[j].heap && t != INVALID_TXN
    ensures k in ds[j + 1].heap
    ensures ds[j + 1].heap[k].xmax == t <==> ds[j].heap[k].xmax == t || Deletes(ds, ops, j, k, t)
  {
    RunDbOk(ds, ops, j);
    assert ds[j + 1] == Step(ds[j], ops[j]) && Enabled(ds[j], ops[j]);
  }

  /** A version's deleter is the transaction, if any, whose deletion or replacement of it went through. */
  lemma {:induction false} DeleterExact(ds: seq<Db>, ops: seq<Op>, i: nat, n: nat, k: RecordId, t: Txn)
    requires IsRun(ds, ops) && i <= n <= |ops| && k in ds[i].heap && t != INVALID_TXN
    ensures k in ds[n].heap
    ensures ds[n].heap[k].xmax == t <==>
            ds[i].heap[k].xmax == t || exists j: nat :: i <= j < n && Deletes(ds, ops, j, k, t)
    decreases n
  {
    hide IsRun, Deletes;
    if i < n {
      DeleterExact(ds, ops, i, n - 1, k, t);
      DeleterStep(ds, ops, n - 1, k, t);
    }
  }

  lemma CommitStep(ds: seq<Db>, ops: seq<Op>, j: nat, t: Txn)
    requires IsRun(ds, ops) && j < |ops|
    ensures IsCommitted(ds[j + 1].reg, t) <==> IsCommitted(ds[j].reg, t) || (ops[j] == Commit(t) && IsOpen(ds[j], t))
    ensures IsOpen(ds[j + 1], t) <==>
            (ops[j] == Begin && t == ds[j].nextTxn) || (IsOpen(ds[j], t) && ops[j] != Commit(t) && ops[j] != Abort(t))
  {
    RunDbOk(ds, ops, j);
    assert ds[j + 1] == Step(ds[j], ops[j]);
  }

  predicate IsOpen(d: Db, t: Txn) {
    t in d.reg && d.reg[t] == Active
  }

  /** A transaction is open at step `n` exactly when it began and neither committed nor aborted since. */
  lemma {:induction false} OpenExact(ds: seq<Db>, ops: seq<Op>, n: nat, t: Txn)
    requires IsRun(ds, ops) && n <= |ops| && !IsOpen(ds[0], t)
    ensures IsOpen(ds[n], t) <==>
            exists b: nat :: b < n && ops[b] == Begin && ds[b].nextTxn == t
                             && forall j :: b < j < n ==> ops[j] != Commit(t) && ops[j] != Abort(t)
    decreases n
  {
    hide DbOk, Step, Enabled, IsOpen;
    if n > 0 {
      OpenExact(ds, ops, n - 1, t);
      CommitStep(ds, ops, n - 1, t);
      if IsOpen(ds[n], t) && !(ops[n - 1] == Begin && ds[n - 1].nextTxn == t) {
        var b: nat :| b < n - 1 && ops[b] == Begin && ds[b].nextTxn == t
                      && forall j :: b < j < n - 1 ==> ops[j] != Commit(t) && ops[j] != Abort(t);
      }
    }
  }

  /** A transaction has committed by step `n` exactly when it had before or an open one's commit went through. */
  lemma {:induction false} CommittedExact(ds: seq<Db>, ops: seq<Op>, i: nat, n: nat, t: Txn)
    requires IsRun(ds, ops) && i <= n <= |ops|
    ensures IsCommitted(ds[n].reg, t) <==>
            IsCommitted(ds[i].reg, t) || exists j: nat :: i <= j < n && ops[j] == Commit(t) && IsOpen(ds[j], t)
    decreases n
  {
    hide IsOpen, IsCommitted;
    if i < n {
      CommittedExact(ds, ops, i, n - 1, t);
      CommitStep(ds, ops, n - 1, t);
    }
  }

  // ---------- what readers get ----------

  /** A transaction reads what it has just written, under whatever snapshot. */
  lemma ReadsOwnWrite(d: Db, t: Txn, v: RecordId, a: RecordId, x: seq<int>, s: Snapshot)
    ensures Enabled(d, Insert(t, a, x)) ==>
            var e := Step(d, Insert(t, a, x)); Lookup(e.heap, e.reg, s, t, a) == Ok(x)
    ensures Enabled(d, Update(t, v, Some(a), x)) && v in d.heap && d.heap[v].xmax in {INVALID_TXN, t} ==>
            var e := Step(d, Update(t, v, Some(a), x)); Lookup(e.heap, e.reg, s, t, a) == Ok(x)
  {
  }

  /** And it no longer sees what it has just erased or replaced. */
  lemma OwnDeletionSeen(d: Db, t: Txn, k: RecordId, slot: Option<RecordId>, x: seq<int>, s: Snapshot)
    requires t != INVALID_TXN && k in d.heap && d.heap[k].xmax in {INVALID_TXN, t} && slot != Some(k)
    ensures var e := Step(d, Erase(t, k)); !IsVisible(e.reg, e.heap[k], s, t)
    ensures var e := Step(d, Update(t, k, slot, x)); !IsVisible(e.reg, e.heap[k], s, t)
  {
  }

  /** Someone the reader sees has deleted or replaced version `k` by step `n`. */
  ghost predicate DeletedFor(ds: seq<Db>, ops: seq<Op>, from: nat, n: nat, at: nat, me: Txn, k: RecordId)
    requires IsRun(ds, ops) && at < |ds|
  {
    exists j: nat, t: Txn :: from <= j < n && Deletes(ds, ops, j, k, t) && SeenBy(ds, at, me, t)
  }

  /**
   * Reads, from the operations alone: the version that step `j` wrote is visible at step `n`, under a snapshot
   * taken at step `at`, exactly when its writer is the reader or had committed by then and no such transaction
   * has deleted or replaced it since.
   */
  lemma WrittenVisibleExact(
      ds: seq<Db>, ops: seq<Op>, j: nat, at: nat, n: nat, s: Snapshot, me: Txn, a: RecordId)
    requires IsRun(ds, ops) && Writes(ds, ops, j, a) && j < n <= |ops| && at <= n
    requires IsSnapshotOf(s, ds[at].nextTxn, ds[at].reg)
    ensures a in ds[n].heap
    ensures IsVisible(ds[n].reg, ds[n].heap[a], s, me) <==>
            SeenBy(ds, at, me, ops[j].txn) && !DeletedFor(ds, ops, j + 1, n, at, me, a)
  {
    hide DbOk, Step, Enabled, Writes, Deletes, IsVisible, IsSnapshotOf, SeenBy;
    WrittenStays(ds, ops, j, n, a);
    VisibilityExact(ds, ops, s, at, n, me, ds[n].heap[a]);
    WrittenStays(ds, ops, j, j + 1, a);
    NewlyWritten(ds, ops, j, a);
    var t := ds[n].heap[a].xmax;
    if t != INVALID_TXN {
      DeleterExact(ds, ops, j + 1, n, a, t);
    }
    forall i: nat, u: Txn | j + 1 <= i < n && Deletes(ds, ops, i, a, u)
      ensures u == t != INVALID_TXN
    {
      DeleterIsReal(ds, ops, i, a, u);
      DeleterExact(ds, ops, j + 1, n, a, u);
    }
  }

  lemma NewlyWritten(ds: seq<Db>, ops: seq<Op>, j: nat, a: RecordId)
    requires IsRun(ds, ops) && Writes(ds, ops, j, a)
    ensures a in ds[j + 1].heap && ds[j + 1].heap[a].xmax == INVALID_TXN
  {
    hide DbOk;
    assert ds[j + 1] == Step(ds[j], ops[j]) && Enabled(ds[j], ops[j]);
  }

  lemma DeleterIsReal(ds: seq<Db>, ops: seq<Op>, j: nat, k: RecordId, t: Txn)
    requires IsRun(ds, ops) && Deletes(ds, ops, j, k, t)
    ensures t != INVALID_TXN
  {
    RunDbOk(ds, ops, j);
    assert Enabled(ds[j], ops[j]);
  }

  /** Whoever's snapshot covers the writer's commit reads the data written, until someone it sees replaces it. */
  lemma ReadsCommittedWrite(
      ds: seq<Db>, ops: seq<Op>, j: nat, at: nat, n: nat, s: Snapshot, me: Txn, a: RecordId)
    requires IsRun(ds, ops) && Writes(ds, ops, j, a) && j < n <= |ops| && at <= n
    requires IsSnapshotOf(s, ds[at].nextTxn, ds[at].reg)
    requires SeenBy(ds, at, me, ops[j].txn) && !DeletedFor(ds, ops, j + 1, n, at, me, a)
    ensures Lookup(ds[n].heap, ds[n].reg, s, me, a) == Ok(ops[j].data)
  {
    hide Writes, Deletes, DeletedFor, IsVisible, IsSnapshotOf, SeenBy, DbOk, Step;
    WrittenStays(ds, ops, j, n, a);
    WrittenVisibleExact(ds, ops, j, at, n, s, me, a);
  }

  /** A deletion or replacement hides the version from every snapshot taken after its commit. */
  lemma DeletedIsGone(
      ds: seq<Db>, ops: seq<Op>, j: nat, at: nat, n: nat, s: Snapshot, me: Txn, k: RecordId, t: Txn)
    requires IsRun(ds, ops) && Deletes(ds, ops, j, k, t) && j < n <= |ops| && at <= n
    requires IsSnapshotOf(s, ds[at].nextTxn, ds[at].reg) && SeenBy(ds, at, me, t)
    ensures k in ds[n].heap && !IsVisible(ds[n].reg, ds[n].heap[k], s, me)
  {
    hide Deletes, IsVisible, IsSnapshotOf, SeenBy, DbOk, Step;
    DeleterIsReal(ds, ops, j, k, t);
    DeletedHere(ds, ops, j, k, t);
    DeleterExact(ds, ops, j, n, k, t);
    VisibilityExact(ds, ops, s, at, n, me, ds[n].heap[k]);
  }

  lemma DeletedHere(ds: seq<Db>, ops: seq<Op>, j: nat, k: RecordId, t: Txn)
    requires IsRun(ds, ops) && Deletes(ds, ops, j, k, t)
    ensures k in ds[j].heap
  {
  }

  /** A version whose creator the reader sees but which it does not see is gone with all its predecessors. */
  lemma GoneWithItsPast(h: History, s: Snapshot, taken: nat, me: Txn, k: RecordId)
    requires Reader(h, s, taken, me) && k in h.db.heap && CreatorSeen(h.db.reg, s, me, h.db.heap[k].xmin)
    requires !IsVisible(h.db.reg, h.db.heap[k], s, me)
    ensures Lookup(h.db.heap, h.db.reg, s, me, k) == Err(NotFound)
  {
    hide Reader, IsVisible, CreatorSeen, Lookup;
    var c := Chain(h.db.heap, k);
    forall i | 0 <= i < |c|
      ensures !IsVisible(h.db.reg, h.db.heap[c[i]], s, me)
    {
      if i > 0 { TailInvisible(h, s, taken, me, h.db.heap, k, i); }
    }
    LookupFindsVisible(h.db.heap, h.db.reg, s, me, k);
    OnlyNotFound(h.db.heap, h.db.reg, s, me, k);
  }

  lemma {:induction false} OnlyNotFound(heap: Heap, reg: Registry, s: Snapshot, me: Txn, id: RecordId)
    ensures Lookup(heap, reg, s, me, id).Err? ==> Lookup(heap, reg, s, me, id) == Err(NotFound)
    decreases |heap|
  {
    hide IsVisible;
    if id in heap && !IsVisible(reg, heap[id], s, me) && heap[id].prev.Some? {
      assert (heap - {id}).Keys == heap.Keys - {id};
      OnlyNotFound(heap - {id}, reg, s, me, heap[id].prev.value);
    }
  }
}
