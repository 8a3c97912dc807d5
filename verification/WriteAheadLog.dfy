/** The log writer: a bounded buffer of encoded records in front of a list of segments. */
module WriteAheadLog {
  import opened Bytes
  import opened LogRecords
  import opened Results

  const SEGMENT_HEADER_SIZE := 24
  const MAX_SEGMENT_SIZE := 16 * 1024 * 1024

  /** The writer's state over records; the class below holds the same state over bytes. */
  datatype Log = Log(
    nextLsn: nat, flushedLsn: nat, capacity: nat,
    buffered: seq<LogRecord>, segments: seq<seq<LogRecord>>)

  function Flatten(segments: seq<seq<LogRecord>>): (rs: seq<LogRecord>) {
    if segments == [] then [] else Flatten(segments[..|segments| - 1]) + segments[|segments| - 1]
  }

  /** Every record accepted so far, written or still buffered, in append order. */
  function AllRecords(w: Log): (rs: seq<LogRecord>) {
    Flatten(w.segments) + w.buffered
  }

  function Empty(capacity: nat): (w: Log) {
    Log(1, 0, capacity, [], [[]])
  }

  function SegmentSize(rs: seq<LogRecord>): (n: nat) {
    SEGMENT_HEADER_SIZE + |EncodeAll(rs)|
  }

  predicate Fits(w: Log, r: LogRecord) {
    |EncodeAll(w.buffered)| + r.Size() <= w.capacity
  }

  /** A new segment when the current one has reached its size limit. */
  function Rolled(segments: seq<seq<LogRecord>>): (r: seq<seq<LogRecord>>)
    requires segments != []
    ensures r != []
  {
    if SegmentSize(segments[|segments| - 1]) >= MAX_SEGMENT_SIZE then segments + [[]] else segments
  }

  /** More records at the end of the current segment. */
  function Extended(segments: seq<seq<LogRecord>>, rs: seq<LogRecord>): (r: seq<seq<LogRecord>>)
    requires segments != []
    ensures r != []
  {
    segments[|segments| - 1 := segments[|segments| - 1] + rs]
  }

  function Flush(w: Log): (r: Log)
    requires w.segments != [] && w.nextLsn > 0
    ensures r.segments != []
  {
    if w.buffered == [] then w
    else
      w.(segments := Extended(Rolled(w.segments), w.buffered), buffered := [],
         flushedLsn := if w.nextLsn - 1 > w.flushedLsn then w.nextLsn - 1 else w.flushedLsn)
  }

  function FlushUpTo(w: Log, target: nat): (r: Log)
    requires w.segments != [] && w.nextLsn > 0
    ensures r.segments != []
  {
    if target <= w.flushedLsn then w else Flush(w)
  }

  /** The LSN is taken first; a full buffer is flushed and tried once more. */
  function Append(w: Log, r: LogRecord): (res: (Log, Result<nat>))
    requires w.segments != [] && w.nextLsn > 0
    ensures res.0.segments != []
  {
    var r' := r.(lsn := w.nextLsn);
    var w1 := w.(nextLsn := w.nextLsn + 1);
    if Fits(w1, r') then (w1.(buffered := w1.buffered + [r']), Ok(w.nextLsn))
    else
      var w2 := Flush(w1);
      if Fits(w2, r') then (w2.(buffered := w2.buffered + [r']), Ok(w.nextLsn))
      else (w2, Err(InternalError))
  }

  // ---------- conservation and order ----------

  lemma FlattenAppendToLast(segments: seq<seq<LogRecord>>, rs: seq<LogRecord>)
    requires segments != []
    ensures Flatten(Extended(segments, rs)) == Flatten(segments) + rs
  {
    var last := |segments| - 1;
    assert Extended(segments, rs)[..last] == segments[..last];
  }

  lemma FlattenRolled(segments: seq<seq<LogRecord>>)
    requires segments != []
    ensures Flatten(Rolled(segments)) == Flatten(segments)
  {
    var s' := segments + [[]];
    assert s'[..|s'| - 1] == segments;
  }

  /** Flushing and rolling move records; they neither lose, invent nor reorder any. */
  lemma FlushConserves(w: Log)
    requires w.segments != [] && w.nextLsn > 0
    ensures AllRecords(Flush(w)) == AllRecords(w)
    ensures w.buffered != [] ==> Flatten(Flush(w).segments) == AllRecords(w)
  {
    if w.buffered != [] {
      FlattenRolled(w.segments);
      FlattenAppendToLast(Rolled(w.segments), w.buffered);
    }
  }

  lemma AppendConserves(w: Log, r: LogRecord)
    requires w.segments != [] && w.nextLsn > 0
    ensures var (w', res) := Append(w, r);
            AllRecords(w') == if res.Ok? then AllRecords(w) + [r.(lsn := w.nextLsn)] else AllRecords(w)
  {
    var r' := r.(lsn := w.nextLsn);
    var w1 := w.(nextLsn := w.nextLsn + 1);
    assert AllRecords(w1) == AllRecords(w);
    FlushConserves(w1);
  }

  lemma EmptyLog(capacity: nat)
    ensures AllRecords(Empty(capacity)) == []
  {
    var segments: seq<seq<LogRecord>> := [[]];
    assert segments[..0] == [];
  }

  /** LSNs increase along the log and stay below the next one to be given out. */
  ghost predicate Ordered(rs: seq<LogRecord>, nextLsn: nat) {
    && (forall i, j :: 0 <= i < j < |rs| ==> rs[i].lsn < rs[j].lsn)
    && (forall i :: 0 <= i < |rs| ==> 0 < rs[i].lsn < nextLsn)
  }

  datatype Op = AppendOp(record: LogRecord) | FlushOp | FlushUpToOp(target: nat)

  function Step(w: Log, op: Op): (r: Log)
    requires w.segments != [] && w.nextLsn > 0
    ensures r.segments != [] && r.nextLsn > 0
  {
    match op
    case AppendOp(record) => Append(w, record).0
    case FlushOp => Flush(w)
    case FlushUpToOp(target) => FlushUpTo(w, target)
  }

  function Run(w: Log, ops: seq<Op>): (r: Log)
    requires w.segments != [] && w.nextLsn > 0
    ensures r.segments != [] && r.nextLsn > 0
  {
    if ops == [] then w else Step(Run(w, ops[..|ops| - 1]), ops[|ops| - 1])
  }

  /** The record that one operation adds to the log, with the LSN it was given. */
  function Added(w: Log, op: Op): (rs: seq<LogRecord>)
    requires w.segments != [] && w.nextLsn > 0
  {
    if op.AppendOp? && Append(w, op.record).1.Ok? then [op.record.(lsn := w.nextLsn)] else []
  }

  /** The records that a run's appends accepted. */
  function Accepted(w: Log, ops: seq<Op>): (rs: seq<LogRecord>)
    requires w.segments != [] && w.nextLsn > 0
  {
    if ops == [] then []
    else Accepted(w, ops[..|ops| - 1]) + Added(Run(w, ops[..|ops| - 1]), ops[|ops| - 1])
  }

  lemma StepExtends(w: Log, op: Op)
    requires w.segments != [] && w.nextLsn > 0
    ensures AllRecords(Step(w, op)) == AllRecords(w) + Added(w, op)
    ensures w.nextLsn + |Added(w, op)| <= Step(w, op).nextLsn
  {
    match op
    case AppendOp(record) => AppendConserves(w, record);
    case FlushOp => FlushConserves(w);
    case FlushUpToOp(target) => FlushConserves(w);
  }

  lemma OrderedGrows(w: Log, op: Op)
    requires w.segments != [] && w.nextLsn > 0 && Ordered(AllRecords(w), w.nextLsn)
    ensures Ordered(AllRecords(Step(w, op)), Step(w, op).nextLsn)
  {
    StepExtends(w, op);
    var rs, next := AllRecords(w), Step(w, op).nextLsn;
    var grown := rs + Added(w, op);
    forall i | 0 <= i < |grown|
      ensures 0 < grown[i].lsn < next && (i < |rs| ==> grown[i].lsn < w.nextLsn)
    {
      assert i < |rs| ==> grown[i] == rs[i];
    }
  }

  /** After any run, segments followed by buffer hold exactly the accepted records, in LSN order. */
  lemma {:induction false} RunHoldsAccepted(capacity: nat, ops: seq<Op>)
    ensures var w := Run(Empty(capacity), ops);
            AllRecords(w) == Accepted(Empty(capacity), ops) && Ordered(AllRecords(w), w.nextLsn)
  {
    EmptyLog(capacity);
    if ops != [] {
      RunHoldsAccepted(capacity, ops[..|ops| - 1]);
      StepExtends(Run(Empty(capacity), ops[..|ops| - 1]), ops[|ops| - 1]);
      OrderedGrows(Run(Empty(capacity), ops[..|ops| - 1]), ops[|ops| - 1]);
    }
  }

  // ---------- durability ----------

  /** LSN `l` was given to the record at position `l - 1`: none was skipped. */
  ghost predicate Dense(w: Log) {
    && w.segments != [] && w.nextLsn == |AllRecords(w)| + 1
    && forall i :: 0 <= i < |AllRecords(w)| ==> AllRecords(w)[i].lsn == i + 1
  }

  /** The published LSN counts exactly the records that are in segments. */
  ghost predicate Durable(w: Log) {
    w.flushedLsn == |Flatten(w.segments)|
  }

  /** The promise of `get_flushed_lsn`: each LSN up to it names a record that is in a segment. */
  ghost predicate FlushedAreWritten(w: Log) {
    forall l :: 1 <= l <= w.flushedLsn ==> Written(w, l)
  }

  ghost predicate Written(w: Log, l: nat) {
    HasLsn(Flatten(w.segments), l)
  }

  ghost predicate HasLsn(rs: seq<LogRecord>, l: nat) {
    exists i :: 0 <= i < |rs| && rs[i].lsn == l
  }

  lemma DurableMeansWritten(w: Log)
    requires Dense(w) && Durable(w)
    ensures FlushedAreWritten(w)
  {
    forall l | 1 <= l <= w.flushedLsn
      ensures Written(w, l)
    {
      assert AllRecords(w)[l - 1] == Flatten(w.segments)[l - 1];
    }
  }

  /**
   * An append keeps the log dense and durable exactly when its record fits the buffer as it stands.
   * On the other path the LSN is already taken when the flush publishes it, so the published LSN runs
   * one ahead of the segments; or the record fits no buffer and its LSN is lost.
   */
  lemma AppendDurableIffFits(w: Log, r: LogRecord)
    requires Dense(w) && Durable(w)
    ensures var w' := Append(w, r).0;
            Dense(w') && Durable(w') <==> Fits(w, r)
  {
    AppendConserves(w, r);
    if !Fits(w, r) {
      var w1 := w.(nextLsn := w.nextLsn + 1);
      assert AllRecords(w1) == AllRecords(w);
      FlushConserves(w1);
    }
  }

  /** On the full-buffer path a published LSN names a record that is in no segment. */
  lemma FullBufferBreaksPromise(w: Log, r: LogRecord)
    requires Dense(w) && Durable(w) && w.buffered != [] && !Fits(w, r)
    ensures !FlushedAreWritten(Append(w, r).0)
  {
    var w' := Append(w, r).0;
    var w1 := w.(nextLsn := w.nextLsn + 1);
    FlushConserves(w1);
    assert AllRecords(w1) == AllRecords(w);
    assert w'.flushedLsn == w.nextLsn;
    assert Flatten(w'.segments) == AllRecords(w);
    assert !Written(w', w.nextLsn);
  }

  /**
   * The promise itself: an append keeps it if and only if its record fits the buffer as it stands, or the
   * buffer is empty, so that nothing is published; then the record fits no buffer and its LSN is lost.
   */
  lemma AppendPromiseExact(w: Log, r: LogRecord)
    requires Dense(w) && Durable(w)
    ensures FlushedAreWritten(Append(w, r).0) <==> Fits(w, r) || w.buffered == []
  {
    if Fits(w, r) {
      AppendDurableIffFits(w, r);
      DurableMeansWritten(Append(w, r).0);
    } else if w.buffered == [] {
      DurableMeansWritten(w);
      var w' := Append(w, r).0;
      assert w'.segments == w.segments && w'.flushedLsn == w.flushedLsn;
      assert forall l :: Written(w', l) <==> Written(w, l);
    } else {
      FullBufferBreaksPromise(w, r);
    }
  }

  // ---------- lost LSNs ----------

  /** How many appends of a run were refused. */
  function Refused(w: Log, ops: seq<Op>): (n: nat)
    requires w.segments != [] && w.nextLsn > 0
  {
    if ops == [] then 0
    else
      var op := ops[|ops| - 1];
      Refused(w, ops[..|ops| - 1])
      + if op.AppendOp? && Append(Run(w, ops[..|ops| - 1]), op.record).1.Err? then 1 else 0
  }

  /** Every LSN handed out is in the log or was lost to a refused append. */
  lemma {:induction false} LostExact(capacity: nat, ops: seq<Op>)
    ensures var w := Run(Empty(capacity), ops);
            w.nextLsn - 1 == |AllRecords(w)| + Refused(Empty(capacity), ops)
  {
    hide Step, Append, AllRecords;
    EmptyLog(capacity);
    if ops == [] {
      NothingWritten(capacity);
    } else {
      LostExact(capacity, ops[..|ops| - 1]);
      StepCounts(Run(Empty(capacity), ops[..|ops| - 1]), ops[|ops| - 1]);
    }
  }

  lemma NothingWritten(capacity: nat)
    ensures AllRecords(Empty(capacity)) == []
  {
    EmptyLog(capacity);
  }

  lemma StepCounts(w: Log, op: Op)
    requires w.segments != [] && w.nextLsn > 0
    ensures var lost := if op.AppendOp? && Append(w, op.record).1.Err? then 1 else 0;
            Step(w, op).nextLsn - w.nextLsn == |AllRecords(Step(w, op))| - |AllRecords(w)| + lost
  {
    hide AllRecords, Fits, Rolled, Extended;
    StepExtends(w, op);
  }

  lemma {:induction false} LsnAtLeast(rs: seq<LogRecord>, nextLsn: nat, i: nat)
    requires Ordered(rs, nextLsn) && i < |rs|
    ensures i + 1 <= rs[i].lsn && |rs| - i <= nextLsn - rs[i].lsn
    decreases i
  {
    if i > 0 { LsnAtLeast(rs, nextLsn, i - 1); }
    LsnAtMost(rs, nextLsn, i);
  }

  lemma {:induction false} LsnAtMost(rs: seq<LogRecord>, nextLsn: nat, i: nat)
    requires Ordered(rs, nextLsn) && i < |rs|
    ensures |rs| - i <= nextLsn - rs[i].lsn
    decreases |rs| - i
  {
    if i + 1 < |rs| { LsnAtMost(rs, nextLsn, i + 1); }
  }

  /** An ordered log is dense exactly when its records are as many as the LSNs handed out. */
  lemma DenseWhenNoneLost(w: Log)
    requires w.segments != [] && w.nextLsn > 0 && Ordered(AllRecords(w), w.nextLsn)
    ensures Dense(w) <==> w.nextLsn - 1 == |AllRecords(w)|
  {
    var rs := AllRecords(w);
    if w.nextLsn - 1 == |rs| {
      forall i | 0 <= i < |rs| ensures rs[i].lsn == i + 1 { LsnAtLeast(rs, w.nextLsn, i); }
    }
  }

  /** After a flush of a non-empty buffer the promise holds if and only if no LSN was lost before it. */
  lemma FlushPromiseExact(w: Log)
    requires w.segments != [] && w.nextLsn > 0 && w.buffered != [] && w.flushedLsn < w.nextLsn
    requires Ordered(AllRecords(w), w.nextLsn)
    ensures FlushedAreWritten(Flush(w)) <==> Dense(w)
  {
    FlushConserves(w);
    var rs, f := AllRecords(w), Flush(w);
    assert Flatten(f.segments) == rs && f.flushedLsn == w.nextLsn - 1;
    if Dense(w) {
      forall l | 1 <= l <= f.flushedLsn ensures Written(f, l) { assert rs[l - 1].lsn == l; }
    }
    if FlushedAreWritten(f) {
      forall l | 1 <= l < w.nextLsn ensures HasLsn(rs, l) { assert Written(f, l); }
      AllWrittenDense(rs, w.nextLsn, |rs|);
      DenseWhenNoneLost(w);
      assert |rs| < w.nextLsn - 1 ==> HasLsn(rs, |rs| + 1);
      if rs != [] { LsnAtLeast(rs, w.nextLsn, 0); }
    }
  }

  lemma {:induction false} AllWrittenDense(rs: seq<LogRecord>, nextLsn: nat, n: nat)
    requires Ordered(rs, nextLsn) && n <= |rs|
    requires forall l :: 1 <= l < nextLsn ==> HasLsn(rs, l)
    ensures forall i :: 0 <= i < n ==> rs[i].lsn == i + 1
  {
    if n > 0 {
      AllWrittenDense(rs, nextLsn, n - 1);
      LsnAtLeast(rs, nextLsn, n - 1);
      assert HasLsn(rs, n);
      var i :| 0 <= i < |rs| && rs[i].lsn == n;
    }
  }

  /** In every run with something buffered, flushing makes the promise good exactly when no append was refused. */
  lemma RunFlushPromiseExact(capacity: nat, ops: seq<Op>)
    requires Run(Empty(capacity), ops).buffered != []
    ensures FlushedAreWritten(Flush(Run(Empty(capacity), ops))) <==> Refused(Empty(capacity), ops) == 0
  {
    var w := Run(Empty(capacity), ops);
    RunHoldsAccepted(capacity, ops);
    LostExact(capacity, ops);
    PublishedBelowNext(capacity, ops);
    DenseWhenNoneLost(w);
    FlushPromiseExact(w);
  }

  lemma {:induction false} PublishedBelowNext(capacity: nat, ops: seq<Op>)
    ensures var w := Run(Empty(capacity), ops); w.flushedLsn < w.nextLsn
  {
    hide Flatten;
    if ops != [] {
      PublishedBelowNext(capacity, ops[..|ops| - 1]);
      StepPublishes(Run(Empty(capacity), ops[..|ops| - 1]), ops[|ops| - 1]);
    }
  }

  lemma StepPublishes(w: Log, op: Op)
    requires w.segments != [] && w.flushedLsn < w.nextLsn
    ensures Step(w, op).flushedLsn < Step(w, op).nextLsn
  {
    hide Fits, Rolled, Extended;
  }

  lemma FlushKeepsDurable(w: Log)
    requires Dense(w) && Durable(w)
    ensures Dense(Flush(w)) && Durable(Flush(w))
    ensures Flush(w).flushedLsn == w.nextLsn - 1
  {
    FlushConserves(w);
  }

  /** The write-ahead rule's work horse: after `flush_up_to(l)`, record `l` is in a segment. */
  lemma FlushUpToWrites(w: Log, target: nat)
    requires Dense(w) && Durable(w) && 1 <= target < w.nextLsn
    ensures var w' := FlushUpTo(w, target);
            Dense(w') && Durable(w') && target <= w'.flushedLsn && Written(w', target)
  {
    FlushKeepsDurable(w);
    DurableMeansWritten(FlushUpTo(w, target));
  }

  /** Every append of the run finds room in the buffer. */
  ghost predicate NeverFull(w: Log, ops: seq<Op>)
    requires w.segments != [] && w.nextLsn > 0
  {
    ops == [] ||
    (NeverFull(w, ops[..|ops| - 1])
     && (ops[|ops| - 1].AppendOp? ==> Fits(Run(w, ops[..|ops| - 1]), ops[|ops| - 1].record)))
  }

  lemma StepKeepsDurable(w: Log, op: Op)
    requires Dense(w) && Durable(w) && (op.AppendOp? ==> Fits(w, op.record))
    ensures Dense(Step(w, op)) && Durable(Step(w, op))
  {
    match op
    case AppendOp(record) => AppendDurableIffFits(w, record);
    case FlushOp => FlushKeepsDurable(w);
    case FlushUpToOp(target) => FlushKeepsDurable(w);
  }

  /** In every run that never finds the buffer full, the published LSN keeps its promise. */
  lemma {:induction false} RunDurable(capacity: nat, ops: seq<Op>)
    requires NeverFull(Empty(capacity), ops)
    ensures var w := Run(Empty(capacity), ops);
            Dense(w) && Durable(w) && FlushedAreWritten(w)
  {
    if ops == [] {
      EmptyLog(capacity);
    } else {
      RunDurable(capacity, ops[..|ops| - 1]);
      StepKeepsDurable(Run(Empty(capacity), ops[..|ops| - 1]), ops[|ops| - 1]);
    }
    DurableMeansWritten(Run(Empty(capacity), ops));
  }

  // ---------- the bounds, in bytes ----------

  /** A record takes its 41-byte header and its payload. */
  lemma RecordBytes(r: LogRecord)
    ensures |Encode(r)| == 41 + |r.payload|
  {
  }

  lemma BytesWithOne(rs: seq<LogRecord>, r: LogRecord)
    ensures |EncodeAll(rs + [r])| == |EncodeAll(rs)| + 41 + |r.payload|
  {
    hide EncodeAll, Encode;
    EncodeAllAppend(rs, [r]);
    EncodeAllOne(r);
    RecordBytes(r);
  }

  /**
   * An append, exactly: a record longer than the whole buffer is refused; buffered records that leave no room
   * for it go to the segments first, and only then.
   */
  lemma AppendExact(w: Log, r: LogRecord)
    requires w.segments != [] && w.nextLsn > 0
    ensures var (w', res) := Append(w, r);
            var stamped, size := r.(lsn := w.nextLsn), 41 + |r.payload|;
            var moves := w.buffered != [] && |EncodeAll(w.buffered)| + size > w.capacity;
            (res.Err? <==> size > w.capacity) && (res.Ok? ==> res.value == w.nextLsn)
            && w'.nextLsn == w.nextLsn + 1 && w'.capacity == w.capacity
            && (if moves then Flatten(w'.segments) == AllRecords(w) else w'.segments == w.segments)
            && w'.buffered == (if moves then [] else w.buffered) + if res.Ok? then [stamped] else []
  {
    hide EncodeAll, Flatten, Rolled, Extended;
    RecordBytes(r);
    NothingEncoded();
    FlushConserves(w.(nextLsn := w.nextLsn + 1));
  }

  lemma FlushMoves(w: Log)
    requires w.segments != [] && w.nextLsn > 0
    ensures Flatten(Flush(w).segments) == AllRecords(w)
  {
    FlushConserves(w);
    assert Flush(w).buffered == [];
  }

  lemma FlushEmpties(w: Log)
    requires w.segments != [] && w.nextLsn > 0
    ensures Flush(w).buffered == []
  {
  }

  lemma NothingEncoded()
    ensures EncodeAll([]) == []
  {
  }

  /** Closed segments have reached the limit, and none has outgrown it by more than a buffer. */
  ghost predicate Bounded(w: Log) {
    |EncodeAll(w.buffered)| <= w.capacity
    && (forall i :: 0 <= i < |w.segments| ==> 24 + |EncodeAll(w.segments[i])| < 16 * 1024 * 1024 + w.capacity)
    && (forall i :: 0 <= i < |w.segments| - 1 ==> 24 + |EncodeAll(w.segments[i])| >= 16 * 1024 * 1024)
  }

  lemma FlushBounded(w: Log)
    requires w.segments != [] && w.nextLsn > 0 && Bounded(w)
    ensures Bounded(Flush(w))
  {
    hide EncodeAll;
    NothingEncoded();
    var rolled := Rolled(w.segments);
    EncodeAllAppend(rolled[|rolled| - 1], w.buffered);
  }

  lemma AppendBounded(w: Log, r: LogRecord)
    requires w.segments != [] && w.nextLsn > 0 && Bounded(w)
    ensures Bounded(Append(w, r).0)
  {
    hide EncodeAll, Flush;
    var w1, stamped := w.(nextLsn := w.nextLsn + 1), r.(lsn := w.nextLsn);
    FlushBounded(w1);
    RecordBytes(stamped);
    BytesWithOne(w1.buffered, stamped);
    BytesWithOne(Flush(w1).buffered, stamped);
  }

  /** In every state of every run the buffer stays within its capacity and the segments within theirs. */
  lemma {:induction false} RunBounded(capacity: nat, ops: seq<Op>)
    ensures Bounded(Run(Empty(capacity), ops))
  {
    hide Bounded, Append, Flush;
    if ops == [] {
      EmptyBounded(capacity);
    } else {
      var w := Run(Empty(capacity), ops[..|ops| - 1]);
      RunBounded(capacity, ops[..|ops| - 1]);
      match ops[|ops| - 1]
      case AppendOp(record) => AppendBounded(w, record);
      case FlushOp => FlushBounded(w);
      case FlushUpToOp(target) => FlushBounded(w);
    }
  }

  lemma EmptyBounded(capacity: nat)
    ensures Bounded(Empty(capacity))
  {
    NothingEncoded();
  }

  // ---------- the writer over bytes ----------

  /** Each segment's record area is the encoding of its records. */
  ghost predicate Encodes(areas: seq<seq<byte>>, segments: seq<seq<LogRecord>>) {
    |areas| == |segments| && forall i :: 0 <= i < |areas| ==> areas[i] == EncodeAll(segments[i])
  }

  lemma EncodesMore(areas: seq<seq<byte>>, segments: seq<seq<LogRecord>>, rs: seq<LogRecord>)
    requires Encodes(areas, segments) && segments != []
    ensures var last := |areas| - 1;
            Encodes(areas[last := areas[last] + EncodeAll(rs)], Extended(segments, rs))
  {
    EncodeAllAppend(segments[|areas| - 1], rs);
  }

  lemma EncodesNew(areas: seq<seq<byte>>, segments: seq<seq<LogRecord>>)
    requires Encodes(areas, segments)
    ensures Encodes(areas + [[]], segments + [[]])
  {
  }

  class WalManager {
    var nextLsn: nat
    var flushedLsn: nat
    const capacity: nat
    var buffer: seq<byte>
    var segments: seq<seq<byte>>   // the record area of each segment file; the last is current
    ghost var view: Log

    ghost predicate Valid()
      reads this
    {
      && view.segments != [] && nextLsn > 0
      && view.nextLsn == nextLsn && view.flushedLsn == flushedLsn && view.capacity == capacity
      && buffer == EncodeAll(view.buffered) && |buffer| <= capacity
      && Encodes(segments, view.segments)
    }

    constructor (capacity: nat)
      ensures Valid() && view == Empty(capacity)
    {
      this.capacity := capacity;
      nextLsn, flushedLsn := 1, 0;
      buffer, segments := [], [[]];
      view := Empty(capacity);
    }

    method AppendRecord(record: LogRecord) returns (r: Result<nat>)
      requires Valid()
      modifies this
      ensures Valid() && (view, r) == Append(old(view), record)
      ensures r.Err? <==> 41 + |record.payload| > capacity
      ensures old(|buffer|) + 41 + |record.payload| <= capacity ==>
                segments == old(segments) && |buffer| == old(|buffer|) + 41 + |record.payload|
    {
      hide EncodeAll, Encode, Flush, Flatten;
      RecordBytes(record);
      NothingEncoded();
      var lsn := nextLsn;
      nextLsn := nextLsn + 1;
      view := view.(nextLsn := nextLsn);
      var rec := record.(lsn := lsn);
      if |buffer| + rec.Size() > capacity {
        FlushEmpties(view);
        FlushBuffer();
        if |buffer| + rec.Size() > capacity { return Err(InternalError); }
      }
      EncodeAllAppend(view.buffered, [rec]);
      EncodeAllOne(rec);
      buffer := buffer + Encode(rec);
      view := view.(buffered := view.buffered + [rec]);
      return Ok(lsn);
    }

    method FlushBuffer()
      requires Valid()
      modifies this
      ensures Valid() && view == Flush(old(view))
      ensures buffer == [] && Flatten(view.segments) == AllRecords(old(view)) && nextLsn == old(nextLsn)
      ensures flushedLsn == if old(buffer) == [] || nextLsn - 1 <= old(flushedLsn) then old(flushedLsn) else nextLsn - 1
    {
      hide Flatten, AllRecords, EncodeAll, Encodes, Rolled, Extended;
      FlushMoves(view);
      NothingEncoded();
      EmptyEncoding(view.buffered);
      if buffer == [] { return; }
      RollSegmentIfNeeded();
      AppendToCurrent(buffer, view.buffered);
      buffer := [];
      var safelyFlushed := nextLsn - 1;
      if safelyFlushed > flushedLsn { flushedLsn := safelyFlushed; }
      view := view.(buffered := [], flushedLsn := flushedLsn);
    }

    method AppendToCurrent(data: seq<byte>, ghost records: seq<LogRecord>)
      requires Valid() && data == EncodeAll(records)
      modifies `segments, `view
      ensures Valid() && view == old(view).(segments := Extended(old(view).segments, records))
    {
      var last := |segments| - 1;
      EncodesMore(segments, view.segments, records);
      segments := segments[last := segments[last] + data];
      view := view.(segments := Extended(view.segments, records));
    }

    method RollSegmentIfNeeded()
      requires Valid()
      modifies `segments, `view
      ensures Valid() && view == old(view).(segments := Rolled(old(view).segments))
    {
      if SEGMENT_HEADER_SIZE + |segments[|segments| - 1]| >= MAX_SEGMENT_SIZE {
        EncodesNew(segments, view.segments);
        segments := segments + [[]];
        view := view.(segments := view.segments + [[]]);
      }
    }

    method FlushLogUpTo(target: nat)
      requires Valid()
      modifies this
      ensures Valid() && view == FlushUpTo(old(view), target)
      ensures target <= old(flushedLsn) ==> buffer == old(buffer) && segments == old(segments)
      ensures target > old(flushedLsn) ==> buffer == [] && Flatten(view.segments) == AllRecords(old(view))
    {
      if target <= flushedLsn { return; }
      FlushBuffer();
    }
  }
}
