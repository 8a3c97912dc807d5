/** Crash recovery: the analysis pass and the redo pass. */
module Recovery {
  import opened Bytes
  import opened DiskPages
  import opened LogReading
  import WriteAheadLog
  import LR = LogRecords
  import opened Results

  type LogRecord = LR.LogRecord
  type Pages = map<nat, PageImage>

  const LSN_MAX := U64 - 1

  // ---------- records ----------

  predicate IsPhysical(r: LogRecord) {
    r.kind == LR.INSERT || r.kind == LR.UPDATE || r.kind == LR.DELETE || r.kind == LR.CLR
  }

  /** The page a physical record names in its first four payload bytes. */
  function TouchedPage(r: LogRecord): (p: Option<nat>) {
    if IsPhysical(r) && |r.payload| >= 4 then Some(ReadLE(r.payload[..4])) else None
  }

  function UpdateOffset(r: LogRecord): nat
    requires |r.payload| >= 8
  {
    ReadLE(r.payload[4..6])
  }

  function UpdateLength(r: LogRecord): nat
    requires |r.payload| >= 8
  {
    ReadLE(r.payload[6..8])
  }

  /** Only an update whose payload holds its whole after-image changes a page. */
  predicate Effective(r: LogRecord) {
    r.kind == LR.UPDATE && |r.payload| >= 8 && |r.payload| >= 8 + UpdateLength(r)
  }

  /** The after-image lies within a page of `size` bytes; the source copies without checking. */
  predicate InPage(r: LogRecord, size: nat) {
    Effective(r) ==> UpdateOffset(r) + UpdateLength(r) <= size
  }

  ghost predicate Replayable(log: seq<LogRecord>, size: nat) {
    forall i :: 0 <= i < |log| ==> InPage(log[i], size) && log[i].lsn < U64
  }

  // ---------- redo of one record ----------

  /** Byte overwrite, then the record's LSN into the page header. */
  function Apply(page: PageImage, r: LogRecord): (q: PageImage)
    ensures |q| == |page|
    ensures r.lsn < U64 && Effective(r) && InPage(r, |page|) ==> PageLsn(q) == r.lsn
    ensures !Effective(r) ==> q == page
  {
    if r.lsn < U64 && Effective(r) && InPage(r, |page|) then
      SetLsn(Overwrite(page, UpdateOffset(r), r.payload[8..8 + UpdateLength(r)]), r.lsn)
    else page
  }

  /** The page-LSN guard: a page that already has the record's effects is left alone. */
  function Guarded(page: PageImage, r: LogRecord): (q: PageImage)
    ensures |q| == |page|
  {
    if PageLsn(page) >= r.lsn then page else Apply(page, r)
  }

  /** One page under a whole log, with the page-LSN guard alone. */
  function ReplayPage(page: PageImage, p: nat, log: seq<LogRecord>): (q: PageImage)
    ensures |q| == |page|
  {
    if log == [] then page
    else
      var before := ReplayPage(page, p, log[..|log| - 1]);
      var r := log[|log| - 1];
      if TouchedPage(r) == Some(p) then Guarded(before, r) else before
  }

  /** All pages under a whole log; records for pages that cannot be fetched are skipped. */
  function Replay(pages: Pages, log: seq<LogRecord>): (r: Pages)
    ensures r.Keys == pages.Keys
  {
    map p | p in pages :: ReplayPage(pages[p], p, log)
  }

  // ---------- the analysis pass ----------

  function NoteDirty(dpt: map<nat, nat>, r: LogRecord): (d: map<nat, nat>) {
    var p := TouchedPage(r);
    if p.None? || p.value in dpt then dpt else dpt[p.value := r.lsn]
  }

  /** The dirty page table: the LSN of the first record that touched each page. */
  function Analyze(log: seq<LogRecord>): (dpt: map<nat, nat>) {
    if log == [] then map[] else NoteDirty(Analyze(log[..|log| - 1]), log[|log| - 1])
  }

  ghost predicate Increasing(log: seq<LogRecord>) {
    forall i, j :: 0 <= i < j < |log| ==> log[i].lsn < log[j].lsn
  }

  /** The table filter never drops a record of the log it was built from. */
  lemma {:induction false} AnalyzeCovers(log: seq<LogRecord>, i: nat)
    requires Increasing(log) && i < |log| && TouchedPage(log[i]).Some?
    ensures var p := TouchedPage(log[i]).value;
            p in Analyze(log) && Analyze(log)[p] <= log[i].lsn
    decreases |log|
  {
    var n := |log| - 1;
    if i < n {
      AnalyzeCovers(log[..n], i);
    } else {
      AnalyzeBounded(log[..n], log[n].lsn);
    }
  }

  lemma {:induction false} AnalyzeBounded(log: seq<LogRecord>, bound: nat)
    requires forall i :: 0 <= i < |log| ==> log[i].lsn < bound
    ensures forall p :: p in Analyze(log) ==> Analyze(log)[p] < bound
  {
    if log != [] {
      AnalyzeBounded(log[..|log| - 1], bound);
    }
  }

  /** `m` is the smallest LSN in the table, or the largest LSN of all when the table is empty. */
  ghost predicate IsRedoStart(dpt: map<nat, nat>, m: nat) {
    (forall p :: p in dpt ==> m <= dpt[p]) && m <= LSN_MAX
    && (m == LSN_MAX || exists p :: p in dpt && dpt[p] == m)
  }

  // ---------- the redo pass ----------

  /** One record under the dirty-page filter and the page-LSN guard. */
  function Redo(dpt: map<nat, nat>, pages: Pages, r: LogRecord): (q: Pages)
    ensures q.Keys == pages.Keys
  {
    var p := TouchedPage(r);
    if p.None? || p.value !in dpt || dpt[p.value] > r.lsn || p.value !in pages then pages
    else pages[p.value := Guarded(pages[p.value], r)]
  }

  function RedoAll(dpt: map<nat, nat>, pages: Pages, log: seq<LogRecord>): (q: Pages)
    ensures q.Keys == pages.Keys
  {
    if log == [] then pages else Redo(dpt, RedoAll(dpt, pages, log[..|log| - 1]), log[|log| - 1])
  }

  /** The filter passes every record of `log`. */
  ghost predicate FilterPasses(dpt: map<nat, nat>, log: seq<LogRecord>) {
    forall i :: 0 <= i < |log| && TouchedPage(log[i]).Some? ==>
      TouchedPage(log[i]).value in dpt && dpt[TouchedPage(log[i]).value] <= log[i].lsn
  }

  lemma {:induction false} UnfilteredRedo(dpt: map<nat, nat>, pages: Pages, log: seq<LogRecord>)
    requires FilterPasses(dpt, log)
    ensures RedoAll(dpt, pages, log) == Replay(pages, log)
  {
    hide Guarded, TouchedPage;
    if log == [] {
      assert Replay(pages, log) == pages;
    } else {
      var n := |log| - 1;
      var before, r := log[..n], log[n];
      assert FilterPasses(dpt, before) by {
        assert forall i :: 0 <= i < n ==> before[i] == log[i];
      }
      UnfilteredRedo(dpt, pages, before);
      var p := TouchedPage(r);
      forall x | x in pages
        ensures RedoAll(dpt, pages, log)[x] == ReplayPage(pages[x], x, log)
      {
      }
    }
  }

  /** Records below the start LSN touch no page. */
  lemma {:induction false} SkippedPrefix(log: seq<LogRecord>, start: nat, page: PageImage, p: nat)
    requires forall i :: 0 <= i < |log| && TouchedPage(log[i]).Some? ==> start <= log[i].lsn
    ensures ReplayPage(page, p, log) == ReplayPage(page, p, FromLsn(log, start))
    decreases |log|
  {
    hide Guarded, TouchedPage;
    if log != [] && log[0].lsn < start {
      SkippedPrefix(log[1..], start, page, p);
      DropUntouched(page, p, log);
    }
  }

  lemma {:induction false} DropUntouched(page: PageImage, p: nat, log: seq<LogRecord>)
    requires log != [] && TouchedPage(log[0]) != Some(p)
    ensures ReplayPage(page, p, log) == ReplayPage(page, p, log[1..])
    decreases |log|
  {
    hide Guarded, TouchedPage;
    var n := |log| - 1;
    if n == 0 {
      assert log[..0] == [] && log[1..] == [];
    } else {
      DropUntouched(page, p, log[..n]);
      assert log[..n][1..] == log[1..][..n - 1];
    }
  }

  /** What the redo pass reads: from the start LSN, or everything when no record reaches it. */
  function RedoLog(log: seq<LogRecord>, start: nat): (rs: seq<LogRecord>) {
    if FromLsn(log, start) != [] then FromLsn(log, start) else log
  }

  lemma {:induction false} FromLsnSuffix(log: seq<LogRecord>, l: nat) returns (k: nat)
    ensures k <= |log| && FromLsn(log, l) == log[k..]
  {
    if log == [] || log[0].lsn >= l {
      k := 0;
    } else {
      var j := FromLsnSuffix(log[1..], l);
      k := j + 1;
    }
  }

  /**
   * Redo from the computed start under the dirty-page filter does exactly what applying every record
   * from the first under the page-LSN guard alone would do.
   */
  lemma RedoIsFullReplay(log: seq<LogRecord>, pages: Pages, start: nat)
    requires Increasing(log) && IsRedoStart(Analyze(log), start)
    ensures RedoAll(Analyze(log), pages, RedoLog(log, start)) == Replay(pages, log)
  {
    hide Guarded, TouchedPage, ReplayPage, Analyze;
    var dpt := Analyze(log);
    forall i | 0 <= i < |log| && TouchedPage(log[i]).Some?
      ensures TouchedPage(log[i]).value in dpt && dpt[TouchedPage(log[i]).value] <= log[i].lsn
      ensures start <= log[i].lsn
    {
      AnalyzeCovers(log, i);
    }
    var k := FromLsnSuffix(log, start);
    var rs := RedoLog(log, start);
    assert FilterPasses(dpt, rs) by {
      assert forall i :: 0 <= i < |log| - k ==> log[k..][i] == log[k + i];
    }
    UnfilteredRedo(dpt, pages, rs);
    forall p | p in pages
      ensures ReplayPage(pages[p], p, rs) == ReplayPage(pages[p], p, log)
    {
      SkippedPrefix(log, start, pages[p], p);
    }
  }

  // ---------- crashes during redo ----------

  lemma {:induction false} LsnNeverDrops(page: PageImage, p: nat, log: seq<LogRecord>)
    ensures PageLsn(page) <= PageLsn(ReplayPage(page, p, log))
  {
    hide TouchedPage, Effective, UpdateOffset, UpdateLength, PageLsn, SetLsn;
    if log != [] {
      LsnNeverDrops(page, p, log[..|log| - 1]);
    }
  }

  /** A record that has been replayed has no further effect. */
  lemma {:induction false} ReplayedIsInert(page: PageImage, p: nat, log: seq<LogRecord>, i: nat)
    requires i < |log| && TouchedPage(log[i]) == Some(p)
    ensures var q := ReplayPage(page, p, log); Guarded(q, log[i]) == q
    decreases |log|
  {
    hide TouchedPage, UpdateOffset, UpdateLength, PageLsn, SetLsn;
    var n := |log| - 1;
    var before := ReplayPage(page, p, log[..n]);
    if i < n {
      ReplayedIsInert(page, p, log[..n], i);
      assert log[..n][i] == log[i];
      LsnOneStep(page, p, log);
    }
  }

  lemma LsnOneStep(page: PageImage, p: nat, log: seq<LogRecord>)
    requires log != []
    ensures PageLsn(ReplayPage(page, p, log[..|log| - 1])) <= PageLsn(ReplayPage(page, p, log))
  {
  }

  /** Replaying to `j` a page already replayed to `k` leaves it at the later of the two. */
  lemma {:induction false} ReplayFrom(page: PageImage, p: nat, log: seq<LogRecord>, k: nat, j: nat)
    requires k <= |log| && j <= |log|
    ensures ReplayPage(ReplayPage(page, p, log[..k]), p, log[..j])
            == ReplayPage(page, p, log[..if j < k then k else j])
    decreases j
  {
    hide Guarded, TouchedPage;
    var q := ReplayPage(page, p, log[..k]);
    if j == 0 {
      assert log[..0] == [];
    } else {
      ReplayFrom(page, p, log, k, j - 1);
      assert log[..j][..j - 1] == log[..j - 1];
      if j <= k && TouchedPage(log[j - 1]) == Some(p) {
        assert log[..k][j - 1] == log[j - 1];
        ReplayedIsInert(page, p, log[..k], j - 1);
      }
    }
  }

  /** The same page but for the checksum field, which every write to the disk sets anew. */
  ghost predicate SameBody(a: PageImage, b: PageImage) {
    Body(a) == Body(b)
  }

  ghost predicate SamePages(a: Pages, b: Pages) {
    a.Keys == b.Keys && forall p :: p in a ==> SameBody(a[p], b[p])
  }

  lemma BodyElements(a: PageImage, b: PageImage)
    ensures SameBody(a, b) <==> |a| == |b| && forall i :: 0 <= i < |a| && !(32 <= i < 36) ==> a[i] == b[i]
  {
    if SameBody(a, b) {
      forall i | 0 <= i < |a| && !(32 <= i < 36)
        ensures a[i] == b[i]
      {
        var k := if i < 32 then i else i - 4;
        assert Body(a)[k] == a[i] && Body(b)[k] == b[i];
      }
    }
  }

  lemma OverwriteSame(a: PageImage, b: PageImage, at: nat, src: seq<byte>)
    requires SameBody(a, b) && at + |src| <= |a|
    ensures |a| == |b| && SameBody(Overwrite(a, at, src), Overwrite(b, at, src))
  {
    BodyElements(a, b);
    BodyElements(Overwrite(a, at, src), Overwrite(b, at, src));
  }

  lemma LsnSame(a: PageImage, b: PageImage)
    requires SameBody(a, b)
    ensures PageLsn(a) == PageLsn(b)
  {
    BodyElements(a, b);
    assert a[12..20] == b[12..20];
  }

  lemma {:induction false} ReplaySame(a: PageImage, b: PageImage, p: nat, log: seq<LogRecord>)
    requires SameBody(a, b)
    ensures SameBody(ReplayPage(a, p, log), ReplayPage(b, p, log))
  {
    hide SameBody, TouchedPage;
    if log != [] {
      var before, r := log[..|log| - 1], log[|log| - 1];
      ReplaySame(a, b, p, before);
      GuardedSame(ReplayPage(a, p, before), ReplayPage(b, p, before), r);
    }
  }

  lemma GuardedSame(a: PageImage, b: PageImage, r: LogRecord)
    requires SameBody(a, b)
    ensures SameBody(Guarded(a, r), Guarded(b, r))
  {
    hide SameBody, Overwrite, Effective, InPage, PageLsn;
    LsnSame(a, b);
    BodyElements(a, b);
    ApplySame(a, b, r);
  }

  lemma ApplySame(a: PageImage, b: PageImage, r: LogRecord)
    requires SameBody(a, b)
    ensures SameBody(Apply(a, r), Apply(b, r))
  {
    hide SameBody, Overwrite, PageLsn;
    BodyElements(a, b);
    if r.lsn < U64 && Effective(r) && InPage(r, |a|) {
      var at, src := UpdateOffset(r), r.payload[8..8 + UpdateLength(r)];
      OverwriteSame(a, b, at, src);
      OverwriteSame(Overwrite(a, at, src), Overwrite(b, at, src), LSN_AT, WriteLE(r.lsn, 8));
    }
  }

  /**
   * A crash during redo: each page of `after` is, but for its checksum field, `before`'s page with some prefix
   * of the log replayed, whether it reached the disk or not.
   */
  ghost predicate Interrupted(before: Pages, after: Pages, log: seq<LogRecord>) {
    after.Keys == before.Keys && forall p :: p in before ==> PrefixState(before[p], after[p], p, log)
  }

  ghost predicate PrefixState(from: PageImage, to: PageImage, p: nat, log: seq<LogRecord>) {
    exists k: nat :: k <= |log| && SameBody(to, ReplayPage(from, p, log[..k]))
  }

  /** Whatever intermediate state a crash left each page in, running redo again reaches the same pages. */
  lemma RedoAgain(before: Pages, after: Pages, log: seq<LogRecord>)
    requires Interrupted(before, after, log)
    ensures SamePages(Replay(after, log), Replay(before, log))
  {
    hide ReplayPage, SameBody;
    assert log[..|log|] == log;
    forall p | p in before
      ensures SameBody(ReplayPage(after[p], p, log), ReplayPage(before[p], p, log))
    {
      assert PrefixState(before[p], after[p], p, log);
      var k: nat :| k <= |log| && SameBody(after[p], ReplayPage(before[p], p, log[..k]));
      ReplaySame(after[p], ReplayPage(before[p], p, log[..k]), p, log);
      ReplayFrom(before[p], p, log, k, |log|);
    }
  }

  lemma SamePagesChain(a: Pages, b: Pages, c: Pages)
    ensures SamePages(a, a)
    ensures SamePages(a, b) && SamePages(b, c) ==> SamePages(a, c)
  {
  }

  /** And so after any number of crashes. */
  lemma {:induction false} RedoSurvivesCrashes(stores: seq<Pages>, log: seq<LogRecord>)
    requires stores != []
    requires forall i :: 0 <= i < |stores| - 1 ==> Interrupted(stores[i], stores[i + 1], log)
    ensures SamePages(Replay(stores[|stores| - 1], log), Replay(stores[0], log))
    decreases |stores|
  {
    hide Replay, Interrupted, SamePages;
    var n := |stores| - 1;
    if n == 0 {
      SamePagesChain(Replay(stores[0], log), Replay(stores[0], log), Replay(stores[0], log));
    } else {
      RedoSurvivesCrashes(stores[..n], log);
      assert Interrupted(stores[n - 1], stores[n - 1 + 1], log);
      RedoAgain(stores[n - 1], stores[n], log);
      SamePagesChain(Replay(stores[n], log), Replay(stores[n - 1], log), Replay(stores[0], log));
    }
  }

  // ---------- what replay means ----------

  /** The page with the given records applied in order, unconditionally. */
  function ApplyAll(page: PageImage, rs: seq<LogRecord>): (q: PageImage)
    ensures |q| == |page|
  {
    if rs == [] then page else Apply(ApplyAll(page, rs[..|rs| - 1]), rs[|rs| - 1])
  }

  /** The log's updates of page `p` that are newer than `lsn`, in log order. */
  function NewerUpdates(log: seq<LogRecord>, p: nat, lsn: nat): (rs: seq<LogRecord>) {
    if log == [] then []
    else
      var before := NewerUpdates(log[..|log| - 1], p, lsn);
      var r := log[|log| - 1];
      if TouchedPage(r) == Some(p) && r.lsn > lsn then before + [r] else before
  }

  lemma {:induction false} LsnBelowNext(page: PageImage, p: nat, log: seq<LogRecord>, bound: nat)
    requires PageLsn(page) < bound && forall i :: 0 <= i < |log| ==> log[i].lsn < bound
    ensures PageLsn(ReplayPage(page, p, log)) < bound
  {
    hide TouchedPage, Effective, UpdateOffset, UpdateLength, PageLsn, SetLsn;
    if log != [] {
      LsnBelowNext(page, p, log[..|log| - 1], bound);
      ApplyLsn(ReplayPage(page, p, log[..|log| - 1]), log[|log| - 1]);
    }
  }

  lemma ApplyLsn(page: PageImage, r: LogRecord)
    ensures PageLsn(Apply(page, r)) == PageLsn(page) || PageLsn(Apply(page, r)) == r.lsn
  {
  }

  /** The guard, record by record, selects exactly the updates newer than the page was at the start. */
  lemma {:induction false} ReplayAppliesNewer(page: PageImage, p: nat, log: seq<LogRecord>)
    requires Increasing(log)
    ensures ReplayPage(page, p, log) == ApplyAll(page, NewerUpdates(log, p, PageLsn(page)))
  {
    hide TouchedPage, Apply, PageLsn;
    if log != [] {
      var n := |log| - 1;
      var before, r := log[..n], log[n];
      ReplayAppliesNewer(page, p, before);
      LsnNeverDrops(page, p, before);
      if r.lsn > PageLsn(page) {
        LsnBelowNext(page, p, before, r.lsn);
      }
      var rs := NewerUpdates(before, p, PageLsn(page));
      assert (rs + [r])[..|rs|] == rs;
    }
  }

  // ---------- what replay means for each byte ----------

  function TwoBytesAt(b: seq<byte>, i: nat): (v: nat)
    requires i + 2 <= |b|
  {
    b[i] as int + 0x100 * b[i + 1] as int
  }

  function FourBytesAt(b: seq<byte>, i: nat): (v: nat)
    requires i + 4 <= |b|
  {
    TwoBytesAt(b, i) + 0x1_0000 * TwoBytesAt(b, i + 2)
  }

  /**
   * The record is an update that writes byte `x` of page `p`. The payload is the page number in four bytes, an
   * offset and a length in two bytes each, all least significant first, and the new bytes.
   */
  ghost predicate Writes(r: LogRecord, p: nat, x: nat) {
    Stamps(r, p)
    && var off, len := TwoBytesAt(r.payload, 4), TwoBytesAt(r.payload, 6); off <= x < off + len
  }

  /** It is an update, kind 11, of page `p` that holds all the bytes it announces. */
  ghost predicate Stamps(r: LogRecord, p: nat) {
    r.kind == 11 && |r.payload| >= 8 && FourBytesAt(r.payload, 0) == p
    && 8 + TwoBytesAt(r.payload, 6) <= |r.payload|
  }

  /** The byte that it writes there. */
  ghost function NewByte(r: LogRecord, p: nat, x: nat): (b: byte)
    requires Writes(r, p, x)
  {
    r.payload[8 + x - TwoBytesAt(r.payload, 4)]
  }

  /** Record `i` is the last one in the log to write byte `x` of page `p`, and it is newer than `lsn`. */
  ghost predicate LastWriter(log: seq<LogRecord>, p: nat, x: nat, lsn: nat, i: nat) {
    i < |log| && Writes(log[i], p, x) && log[i].lsn > lsn && forall j :: i < j < |log| ==> !Writes(log[j], p, x)
  }

  ghost predicate NoWriter(log: seq<LogRecord>, p: nat, x: nat, lsn: nat) {
    forall i :: 0 <= i < |log| && Writes(log[i], p, x) ==> log[i].lsn <= lsn
  }

  /** Byte `x` is what its last writer newer than the page left there, or unchanged when there is none. */
  ghost predicate ByteRestored(page: PageImage, q: PageImage, p: nat, log: seq<LogRecord>, x: nat)
    requires x < |page| == |q|
  {
    (forall i: nat :: LastWriter(log, p, x, PageLsn(page), i) ==> q[x] == NewByte(log[i], p, x))
    && (NoWriter(log, p, x, PageLsn(page)) ==> q[x] == page[x])
  }

  /** The page LSN is that of the last update of the page, when one is newer than the page was. */
  ghost predicate LsnRestored(page: PageImage, q: PageImage, p: nat, log: seq<LogRecord>) {
    (forall i :: 0 <= i < |log| && Stamps(log[i], p) ==> log[i].lsn <= PageLsn(q))
    && (PageLsn(q) == PageLsn(page)
        || exists i :: 0 <= i < |log| && Stamps(log[i], p) && log[i].lsn == PageLsn(q) > PageLsn(page))
  }

  /** And so every byte outside the LSN field. */
  ghost predicate BytesRestored(page: PageImage, q: PageImage, p: nat, log: seq<LogRecord>) {
    |q| == |page| && forall x: nat :: x < |q| && !(12 <= x < 20) ==> ByteRestored(page, q, p, log, x)
  }

  /** An insert, update, delete or compensation record (kinds 10, 11, 12, 30) that names page `p`. */
  ghost predicate Names(r: LogRecord, p: nat) {
    r.kind in {10, 11, 12, 30} && |r.payload| >= 4 && FourBytesAt(r.payload, 0) == p
  }

  /** The dirty page table, exactly: the pages named in the log, each with the LSN of the first record to name it. */
  lemma {:induction false} DirtyPagesExact(log: seq<LogRecord>, p: nat)
    ensures p in Analyze(log) <==> exists i :: 0 <= i < |log| && Names(log[i], p)
    ensures forall i :: 0 <= i < |log| && Names(log[i], p) && (forall j :: 0 <= j < i ==> !Names(log[j], p)) ==>
              p in Analyze(log) && Analyze(log)[p] == log[i].lsn
  {
    hide Names, TouchedPage;
    if log != [] {
      var n := |log| - 1;
      DirtyPagesExact(log[..n], p);
      NamesExact(log[n], p);
      assert forall i :: 0 <= i < n ==> log[..n][i] == log[i];
    }
  }

  lemma NamesExact(r: LogRecord, p: nat)
    ensures Names(r, p) <==> TouchedPage(r) == Some(p)
  {
    hide ReadLE;
    if |r.payload| >= 4 { ReadFour(r.payload[..4]); }
  }

  lemma ReadTwo(b: seq<byte>)
    requires |b| == 2
    ensures ReadLE(b) == TwoBytesAt(b, 0)
  {
    assert ReadLE(b[1..]) == b[1] as int + 256 * ReadLE(b[1..][1..]);
  }

  lemma ReadFour(b: seq<byte>)
    requires |b| == 4
    ensures ReadLE(b) == FourBytesAt(b, 0)
  {
    ReadTwo(b[2..]);
    assert b[1..][1..] == b[2..];
  }

  lemma FieldsOf(r: LogRecord)
    requires |r.payload| >= 8
    ensures UpdateOffset(r) == TwoBytesAt(r.payload, 4) && UpdateLength(r) == TwoBytesAt(r.payload, 6)
    ensures ReadLE(r.payload[..4]) == FourBytesAt(r.payload, 0)
  {
    hide ReadLE;
    ReadFour(r.payload[..4]);
    ReadTwo(r.payload[4..6]);
    ReadTwo(r.payload[6..8]);
  }

  /** One record that passes the guard writes its bytes and, outside the LSN field, nothing else. */
  lemma AppliedByte(page: PageImage, r: LogRecord, p: nat, x: nat)
    requires InPage(r, |page|) && r.lsn < U64 && TouchedPage(r) == Some(p) && x < |page| && !(12 <= x < 20)
    ensures Apply(page, r)[x] == if Writes(r, p, x) then NewByte(r, p, x) else page[x]
  {
    hide ReadLE, WriteLE, PageLsn, Overwrite;
    if |r.payload| >= 8 { FieldsOf(r); }
    if Effective(r) {
      var at, src := UpdateOffset(r), r.payload[8..8 + UpdateLength(r)];
      OverwriteByte(page, at, src, x);
      SetLsnByte(Overwrite(page, at, src), r.lsn, x);
    }
  }

  lemma SetLsnByte(page: PageImage, l: nat, x: nat)
    requires l < U64 && x < |page| && !(12 <= x < 20)
    ensures SetLsn(page, l)[x] == page[x]
  {
    hide Overwrite, ReadLE;
    OverwriteByte(page, 12, WriteLE(l, 8), x);
  }

  lemma {:induction false} ReplayRestoresLsn(page: PageImage, p: nat, log: seq<LogRecord>)
    requires Replayable(log, |page|)
    ensures LsnRestored(page, ReplayPage(page, p, log), p, log)
  {
    hide TouchedPage, Apply, PageLsn, Stamps, InPage;
    if log != [] {
      var n := |log| - 1;
      ReplayRestoresLsn(page, p, log[..n]);
      var before := ReplayPage(page, p, log[..n]);
      StampedLsn(before, log[n], p);
      assert forall i :: 0 <= i < n ==> log[..n][i] == log[i];
    }
  }

  lemma StampedLsn(page: PageImage, r: LogRecord, p: nat)
    requires InPage(r, |page|) && r.lsn < U64
    ensures Stamps(r, p) ==> TouchedPage(r) == Some(p)
    ensures TouchedPage(r) == Some(p) ==> PageLsn(Apply(page, r)) == if Stamps(r, p) then r.lsn else PageLsn(page)
  {
    hide ReadLE, WriteLE, PageLsn, Overwrite;
    if |r.payload| >= 8 { FieldsOf(r); }
  }

  lemma WriterTouches(r: LogRecord, p: nat, x: nat)
    requires Writes(r, p, x)
    ensures TouchedPage(r) == Some(p)
  {
    hide ReadLE;
    FieldsOf(r);
  }

  /** Replay leaves every byte as its last newer writer in the log left it, or as it was. */
  lemma {:induction false} ReplayRestoresBytes(page: PageImage, p: nat, log: seq<LogRecord>)
    requires Increasing(log) && Replayable(log, |page|)
    ensures BytesRestored(page, ReplayPage(page, p, log), p, log)
  {
    hide TouchedPage, Guarded, PageLsn, Writes, InPage;
    if log != [] {
      var n := |log| - 1;
      ReplayRestoresBytes(page, p, log[..n]);
      LsnNeverDrops(page, p, log[..n]);
      if log[n].lsn > PageLsn(page) { LsnBelowNext(page, p, log[..n], log[n].lsn); }
      forall x: nat | x < |page| && !(12 <= x < 20)
        ensures ByteRestored(page, ReplayPage(page, p, log), p, log, x)
      {
        ReplayedByte(page, ReplayPage(page, p, log[..n]), p, log, x);
      }
    }
  }

  lemma ReplayedByte(page: PageImage, before: PageImage, p: nat, log: seq<LogRecord>, x: nat)
    requires log != [] && Increasing(log) && x < |page| == |before| && !(12 <= x < 20)
    requires var r := log[|log| - 1];
             InPage(r, |page|) && r.lsn < U64 && (PageLsn(before) < r.lsn <==> PageLsn(page) < r.lsn)
    requires ByteRestored(page, before, p, log[..|log| - 1], x)
    ensures var r := log[|log| - 1];
            ByteRestored(page, if TouchedPage(r) == Some(p) then Guarded(before, r) else before, p, log, x)
  {
    hide TouchedPage, Apply, PageLsn, Writes, InPage;
    var n := |log| - 1;
    var r, lsn := log[n], PageLsn(page);
    if Writes(r, p, x) { WriterTouches(r, p, x); }
    if TouchedPage(r) == Some(p) { AppliedByte(before, r, p, x); }
    if Writes(r, p, x) && r.lsn > lsn {
      assert forall i: nat :: LastWriter(log, p, x, lsn, i) ==> i == n;
    } else {
      OlderWriters(log, p, x, lsn);
    }
  }

  lemma OlderWriters(log: seq<LogRecord>, p: nat, x: nat, lsn: nat)
    requires log != [] && Increasing(log) && !(Writes(log[|log| - 1], p, x) && log[|log| - 1].lsn > lsn)
    ensures forall i: nat :: LastWriter(log, p, x, lsn, i) ==>
              i < |log| - 1 && LastWriter(log[..|log| - 1], p, x, lsn, i)
    ensures NoWriter(log, p, x, lsn) ==> NoWriter(log[..|log| - 1], p, x, lsn)
  {
    hide Writes;
  }

  // ---------- losers ----------

  datatype TxnState = Active | Committed | Aborted

  datatype TxnEntry = TxnEntry(state: TxnState, lastLsn: nat, undoNextLsn: nat)

  function NoteTxn(table: map<nat, TxnEntry>, r: LogRecord): (t: map<nat, TxnEntry>) {
    if r.kind == LR.TXN_BEGIN || IsPhysical(r) then UpdateTxn(table, r, Active)
    else if r.kind == LR.TXN_COMMIT then UpdateTxn(table, r, Committed)
    else if r.kind == LR.TXN_ABORT then UpdateTxn(table, r, Aborted)
    else if r.kind == LR.TXN_END then table - {r.txnId}
    else table
  }

  /** A transaction's undo LSN keeps the first valid LSN it was given. */
  function UpdateTxn(table: map<nat, TxnEntry>, r: LogRecord, state: TxnState): (t: map<nat, TxnEntry>) {
    var undo := if r.txnId in table then table[r.txnId].undoNextLsn else 0;
    table[r.txnId := TxnEntry(state, r.lsn, if undo != 0 then undo else r.lsn)]
  }

  function AnalyzeTxns(log: seq<LogRecord>): (table: map<nat, TxnEntry>) {
    if log == [] then map[] else NoteTxn(AnalyzeTxns(log[..|log| - 1]), log[|log| - 1])
  }

  predicate TellsState(r: LogRecord) {
    IsPhysical(r) || r.kind == LR.TXN_BEGIN || r.kind == LR.TXN_COMMIT
    || r.kind == LR.TXN_ABORT || r.kind == LR.TXN_END
  }

  /** The kind of the last record in the log that says anything about transaction `t`. */
  function LastWord(log: seq<LogRecord>, t: nat): (k: Option<byte>) {
    if log == [] then None
    else
      var r := log[|log| - 1];
      if r.txnId == t && TellsState(r) then Some(r.kind) else LastWord(log[..|log| - 1], t)
  }

  predicate IsLoser(table: map<nat, TxnEntry>, t: nat) {
    t in table && table[t].state != Committed
  }

  /** The losers are the transactions whose last word in the log is neither commit nor end. */
  lemma {:induction false} LosersExact(log: seq<LogRecord>, t: nat)
    ensures IsLoser(AnalyzeTxns(log), t) <==>
            LastWord(log, t).Some? && LastWord(log, t) != Some(LR.TXN_COMMIT)
            && LastWord(log, t) != Some(LR.TXN_END)
    ensures t in AnalyzeTxns(log) <==> LastWord(log, t).Some? && LastWord(log, t) != Some(LR.TXN_END)
  {
    if log != [] {
      LosersExact(log[..|log| - 1], t);
    }
  }

  predicate Tells(r: LogRecord, t: nat) { r.txnId == t && TellsState(r) }

  /**
   * A table entry, exactly: its state and last LSN are those of the transaction's last record, and its undo
   * LSN is that of the first record since the log last ended the transaction.
   */
  lemma {:induction false} EntryExact(log: seq<LogRecord>, t: nat) returns (first: nat, last: nat)
    requires t in AnalyzeTxns(log) && forall i :: 0 <= i < |log| ==> 0 < log[i].lsn
    ensures first <= last < |log| && Tells(log[first], t) && Tells(log[last], t)
    ensures var e := AnalyzeTxns(log)[t];
            e.lastLsn == log[last].lsn && e.undoNextLsn == log[first].lsn
            && (e.state == Committed <==> log[last].kind == LR.TXN_COMMIT)
            && (e.state == Aborted <==> log[last].kind == LR.TXN_ABORT)
    ensures forall k :: last < k < |log| ==> !Tells(log[k], t)
    ensures forall k :: first <= k < |log| && Tells(log[k], t) ==> log[k].kind != LR.TXN_END
    ensures LastWord(log[..first], t).None? || LastWord(log[..first], t) == Some(LR.TXN_END)
    decreases |log|
  {
    var n := |log| - 1;
    var before, r := log[..n], log[n];
    LosersExact(before, t);
    if t in AnalyzeTxns(before) {
      first, last := EntryExact(before, t);
      assert before[..first] == log[..first];
      if Tells(r, t) { last := n; }
    } else {
      first, last := n, n;
    }
  }

  /** What is left of any run's log after a cut has positive, increasing LSNs: recovery can be run on it. */
  lemma RunLogQualifies(capacity: nat, ops: seq<WriteAheadLog.Op>, k: nat)
    requires var w := WriteAheadLog.Run(WriteAheadLog.Empty(capacity), ops); k <= |w.segments[|w.segments| - 1]|
    ensures var segments := WriteAheadLog.Run(WriteAheadLog.Empty(capacity), ops).segments;
            var n := |segments| - 1;
            var log := WriteAheadLog.Flatten(segments[..n]) + segments[n][..k];
            Increasing(log) && forall i :: 0 <= i < |log| ==> 0 < log[i].lsn
  {
    hide WriteAheadLog.Run;
    WriteAheadLog.RunHoldsAccepted(capacity, ops);
    var w := WriteAheadLog.Run(WriteAheadLog.Empty(capacity), ops);
    var n := |w.segments| - 1;
    var log := WriteAheadLog.Flatten(w.segments[..n]) + w.segments[n][..k];
    FrontOf(WriteAheadLog.Flatten(w.segments[..n]), w.segments[n], w.buffered, k);
    FrontQualifies(WriteAheadLog.AllRecords(w), w.nextLsn, |log|);
  }

  lemma FrontOf(a: seq<LogRecord>, b: seq<LogRecord>, c: seq<LogRecord>, k: nat)
    requires k <= |b|
    ensures a + b[..k] == (a + b + c)[..|a| + k]
  {
  }

  lemma FrontQualifies(rs: seq<LogRecord>, nextLsn: nat, n: nat)
    requires WriteAheadLog.Ordered(rs, nextLsn) && n <= |rs|
    ensures Increasing(rs[..n]) && forall i :: 0 <= i < n ==> 0 < rs[..n][i].lsn
  {
  }

  // ---------- the recovery manager ----------

  class RecoveryManager {
    const areas: seq<seq<byte>>        // the record areas of the log's segment files
    const pageSize: nat
    var dirtyPages: map<nat, nat>
    var txns: map<nat, TxnEntry>
    var redoStart: nat
    var pages: Pages                   // the pages as the buffer pool shows them

    ghost predicate Valid()
      reads this
    {
      HEADER_SIZE <= pageSize && forall p :: p in pages ==> |pages[p]| == pageSize
    }

    constructor (areas: seq<seq<byte>>, pageSize: nat, pages: Pages)
      requires HEADER_SIZE <= pageSize && forall p :: p in pages ==> |pages[p]| == pageSize
      ensures Valid() && this.areas == areas && this.pageSize == pageSize && this.pages == pages
      ensures dirtyPages == map[] && txns == map[] && redoStart == 0
    {
      this.areas, this.pageSize, this.pages := areas, pageSize, pages;
      dirtyPages, txns, redoStart := map[], map[], 0;
    }

    /** Scans the log from its first record; no checkpoint. */
    method PhaseAnalysis()
      requires Valid() && dirtyPages == map[] && txns == map[] && redoStart == 0
      modifies `dirtyPages, `txns, `redoStart
      ensures dirtyPages == Analyze(ReadAll(areas)) && txns == AnalyzeTxns(ReadAll(areas))
      ensures if areas == [] then redoStart == 0 else IsRedoStart(dirtyPages, redoStart)
    {
      hide Remaining, NoteDirty, NoteTxn, Analyze, AnalyzeTxns;
      AnalyzeNothing();
      var reader := new LogReader(areas);
      if |areas| == 0 { return; }
      var ok := reader.SeekToFirst();
      ghost var log := ReadAll(areas);
      ghost var n := 0;
      var next := reader.ReadNext();
      while next.Some?
        invariant fresh(reader) && reader.Valid() && reader.areas == areas && n <= |log|
        invariant next.Some? ==> n < |log| && next.value == log[n] && reader.ToRead() == log[n + 1..]
        invariant next.None? ==> n == |log|
        invariant dirtyPages == Analyze(log[..n]) && txns == AnalyzeTxns(log[..n])
        decreases |log| - n
      {
        AnalyzeOneMore(log, n);
        NoteRecord(next.value);
        n := n + 1;
        next := reader.ReadNext();
      }
      assert log[..n] == log;
      redoStart := RedoStartLsn(dirtyPages);
    }

    /** The switch over record types. */
    method NoteRecord(r: LogRecord)
      modifies `dirtyPages, `txns
      ensures dirtyPages == NoteDirty(old(dirtyPages), r) && txns == NoteTxn(old(txns), r)
    {
      if r.kind == LR.TXN_BEGIN {
        txns := UpdateTxn(txns, r, Active);
      } else if r.kind == LR.TXN_COMMIT {
        txns := UpdateTxn(txns, r, Committed);
      } else if r.kind == LR.TXN_ABORT {
        txns := UpdateTxn(txns, r, Aborted);
      } else if r.kind == LR.TXN_END {
        txns := txns - {r.txnId};
      } else if IsPhysical(r) {
        txns := UpdateTxn(txns, r, Active);
        if |r.payload| >= 4 {
          var p := ReadLE(r.payload[..4]);
          if p !in dirtyPages { dirtyPages := dirtyPages[p := r.lsn]; }
        }
      }
    }

    method PhaseRedo()
      requires Valid() && Replayable(ReadAll(areas), pageSize)
      modifies `pages
      ensures Valid()
      ensures pages == if redoStart == 0 || areas == [] then old(pages)
                       else RedoAll(dirtyPages, old(pages), RedoLog(ReadAll(areas), redoStart))
    {
      hide Remaining, FromLsn, RedoAll;
      if redoStart == 0 { return; }
      var reader := new LogReader(areas);
      if |areas| == 0 { return; }
      var found := reader.SeekToLsn(redoStart);
      if !found {
        var ok := reader.SeekToFirst();
      }
      ghost var k := FromLsnSuffix(ReadAll(areas), redoStart);
      assert Replayable(reader.ToRead(), pageSize);
      RedoRemaining(reader);
    }

    /** Reads to the end of the log, redoing each physical record. */
    method RedoRemaining(reader: LogReader)
      requires Valid() && reader.Valid() && Replayable(reader.ToRead(), pageSize)
      modifies `pages, reader
      ensures Valid() && pages == RedoAll(dirtyPages, old(pages), old(reader.ToRead()))
    {
      hide Remaining, Redo, InPage, RedoAll;
      ghost var log := reader.ToRead();
      ghost var n := 0;
      RedoNothing(dirtyPages, pages, log[..0]);
      var next := reader.ReadNext();
      while next.Some?
        invariant reader.Valid() && n <= |log| && Valid()
        invariant next.Some? ==> n < |log| && next.value == log[n] && reader.ToRead() == log[n + 1..]
        invariant next.None? ==> n == |log|
        invariant pages == RedoAll(dirtyPages, old(pages), log[..n])
        decreases |log| - n
      {
        RedoOneMore(dirtyPages, old(pages), log, n);
        RedoRecord(next.value);
        n := n + 1;
        next := reader.ReadNext();
      }
      assert log[..n] == log;
    }

    method RedoRecord(r: LogRecord)
      requires Valid() && InPage(r, pageSize) && r.lsn < U64
      modifies `pages
      ensures Valid() && pages == Redo(dirtyPages, old(pages), r)
    {
      if !IsPhysical(r) { return; }
      if |r.payload| < 4 { return; }
      var p := ReadLE(r.payload[..4]);
      if p !in dirtyPages { return; }
      if dirtyPages[p] > r.lsn { return; }
      if p !in pages { return; }
      var page := pages[p];
      if PageLsn(page) < r.lsn {
        page := RedoOnPage(page, r);
        pages := pages[p := page];
      } else {
        assert pages[p := page] == pages;
      }
    }

    /** Copies the after-image and stamps the record's LSN through the page header. */
    method RedoOnPage(page: PageImage, r: LogRecord) returns (q: PageImage)
      requires InPage(r, |page|) && r.lsn < U64
      ensures q == Apply(page, r)
      ensures Redone(page, q, r)
    {
      hide Redone;
      ApplyRedoes(page, r);
      q := page;
      if r.kind == LR.UPDATE && |r.payload| >= 8 {
        var offset, length := ReadLE(r.payload[4..6]), ReadLE(r.payload[6..8]);
        if |r.payload| >= 8 + length {
          q := Overwrite(q, offset, r.payload[8..8 + length]);
          var header := DeserializeHeader(q);
          RewriteHeader(q, r.lsn, StoredChecksum(q));
          SetLsnKeepsChecksum(q, r.lsn);
          q := Overwrite(q, 0, SerializeHeader(header.(lsn := r.lsn)));
        }
      }
    }

    /**
     * Analysis then redo over a log whose last segment was cut at any byte: the pages end up with the
     * records that lie wholly before the cut replayed, and the losers of those records are known.
     */
    method Recover(ghost segments: seq<seq<LogRecord>>, ghost cut: nat)
      requires Valid() && dirtyPages == map[] && txns == map[] && redoStart == 0
      requires TornLog(areas, segments, cut)
      requires var log := ReadAll(areas);
               Increasing(log) && forall i :: 0 <= i < |log| ==> InPage(log[i], pageSize) && 0 < log[i].lsn
      modifies this
      ensures Valid()
      ensures var last := segments[|segments| - 1];
              var log := WriteAheadLog.Flatten(segments[..|segments| - 1]) + last[..FitsBefore(last, cut)];
              pages == Replay(old(pages), log) && txns == AnalyzeTxns(log)
              && forall p :: p in pages ==>
                   BytesRestored(old(pages)[p], pages[p], p, log) && LsnRestored(old(pages)[p], pages[p], p, log)
    {
      hide BytesRestored, LsnRestored, ReplayPage, InPage;
      ghost var log := ReadAll(areas);
      ReadTornLog(areas, segments, cut);
      ReadInRange(areas);
      PhaseAnalysis();
      StartIsValid(log, redoStart);
      RedoIsFullReplay(log, pages, redoStart);
      forall p | p in pages
        ensures BytesRestored(pages[p], ReplayPage(pages[p], p, log), p, log)
        ensures LsnRestored(pages[p], ReplayPage(pages[p], p, log), p, log)
      {
        ReplayRestoresBytes(pages[p], p, log);
        ReplayRestoresLsn(pages[p], p, log);
      }
      PhaseRedo();
    }
  }

  /** `q` is the page `r` names with `r`'s bytes in it and its LSN stamped, or untouched when `r` is no such update. */
  ghost predicate Redone(page: PageImage, q: PageImage, r: LogRecord) {
    |q| == |page|
    && (forall p, x: nat :: Names(r, p) && x < |page| && !(12 <= x < 20) ==>
          q[x] == if Writes(r, p, x) then NewByte(r, p, x) else page[x])
    && (forall p :: Names(r, p) ==> PageLsn(q) == if Stamps(r, p) then r.lsn else PageLsn(page))
  }

  lemma ApplyRedoes(page: PageImage, r: LogRecord)
    requires InPage(r, |page|) && r.lsn < U64
    ensures Redone(page, Apply(page, r), r)
  {
    ApplyLength(page, r);
    hide Apply, Writes, Stamps, PageLsn, InPage;
    forall p | Names(r, p)
      ensures PageLsn(Apply(page, r)) == if Stamps(r, p) then r.lsn else PageLsn(page)
    {
      NamesExact(r, p);
      StampedLsn(page, r, p);
    }
    forall p, x: nat | Names(r, p) && x < |page| && !(12 <= x < 20)
      ensures Apply(page, r)[x] == if Writes(r, p, x) then NewByte(r, p, x) else page[x]
    {
      NamesExact(r, p);
      AppliedByte(page, r, p, x);
    }
  }

  lemma ApplyLength(page: PageImage, r: LogRecord)
    ensures |Apply(page, r)| == |page|
  {
  }

  lemma AnalyzeNothing()
    ensures Analyze([]) == map[] && AnalyzeTxns([]) == map[]
  {
  }

  lemma AnalyzeOneMore(log: seq<LogRecord>, n: nat)
    requires n < |log|
    ensures Analyze(log[..n + 1]) == NoteDirty(Analyze(log[..n]), log[n])
    ensures AnalyzeTxns(log[..n + 1]) == NoteTxn(AnalyzeTxns(log[..n]), log[n])
  {
    hide NoteDirty, NoteTxn;
    assert log[..n + 1][..n] == log[..n];
  }

  lemma RedoNothing(dpt: map<nat, nat>, pages: Pages, log: seq<LogRecord>)
    requires log == []
    ensures RedoAll(dpt, pages, log) == pages
  {
  }

  lemma RedoOneMore(dpt: map<nat, nat>, pages: Pages, log: seq<LogRecord>, n: nat)
    requires n < |log|
    ensures RedoAll(dpt, pages, log[..n + 1]) == Redo(dpt, RedoAll(dpt, pages, log[..n]), log[n])
  {
    hide Redo;
    assert log[..n + 1][..n] == log[..n];
  }

  lemma SetLsnKeepsChecksum(p: PageImage, l: nat)
    requires l < U64
    ensures SetChecksum(SetLsn(p, l), StoredChecksum(p)) == SetLsn(p, l)
  {
    assert SetLsn(p, l)[32..36] == p[32..36];
    WriteReadLE(p[32..36]);
  }

  /** The smallest LSN in the dirty page table. */
  method RedoStartLsn(dpt: map<nat, nat>) returns (m: nat)
    ensures IsRedoStart(dpt, m)
  {
    m := LSN_MAX;
    var todo := dpt.Keys;
    while todo != {}
      invariant todo <= dpt.Keys && m <= LSN_MAX
      invariant forall p :: p in dpt && p !in todo ==> m <= dpt[p]
      invariant m == LSN_MAX || exists p :: p in dpt && dpt[p] == m
      decreases |todo|
    {
      var p :| p in todo;
      if dpt[p] < m { m := dpt[p]; }
      todo := todo - {p};
    }
  }

  lemma StartIsValid(log: seq<LogRecord>, start: nat)
    requires IsRedoStart(Analyze(log), start) && forall i :: 0 <= i < |log| ==> 0 < log[i].lsn
    ensures start > 0
  {
    DirtyLsnsPositive(log);
  }

  lemma {:induction false} DirtyLsnsPositive(log: seq<LogRecord>)
    requires forall i :: 0 <= i < |log| ==> 0 < log[i].lsn
    ensures forall p :: p in Analyze(log) ==> 0 < Analyze(log)[p]
  {
    if log != [] {
      DirtyLsnsPositive(log[..|log| - 1]);
    }
  }
}
