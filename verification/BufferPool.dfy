/** The buffer pool: a cache of frames in front of the disk, with the write-ahead rule. */
module BufferPool {
  import opened Bytes
  import opened DiskPages
  import opened ClockReplacer
  import opened Results
  import WAL = WriteAheadLog
  import LR = LogRecords

  datatype Frame = Frame(pageId: nat, valid: bool, dirty: bool, pins: nat, page: PageImage)

  /** The pool, the disk below it and the log beside it. */
  datatype Pool = Pool(
    frames: seq<Frame>, table: map<nat, nat>, free: seq<nat>, clock: Clock,
    disk: map<nat, PageImage>, log: WAL.Log)

  /** The bytes of a page that callers see: all of them but the checksum field. */
  function Seen(id: nat, p: PageImage): (b: seq<byte>) {
    if id == 0 then p else Body(p)
  }

  // ---------- operations ----------

  /** First half of a page write: the log up to the page's LSN. */
  function LogFlushed(s: Pool, f: nat): (r: Pool)
    requires f < |s.frames| && s.log.segments != [] && s.log.nextLsn > 0
    ensures r.log.segments != []
  {
    var lsn := PageLsn(s.frames[f].page);
    s.(log := if lsn != 0 then WAL.FlushUpTo(s.log, lsn) else s.log)
  }

  /** Second half: the page itself. */
  function PageWritten(s: Pool, f: nat): (r: Pool)
    requires f < |s.frames|
  {
    var frame := s.frames[f];
    var image := Stored(frame.pageId, frame.page);
    s.(disk := s.disk[frame.pageId := image], frames := s.frames[f := frame.(page := image, dirty := false)])
  }

  /** Log first, then the page: the rule at all three places that write a page. */
  function WriteOut(s: Pool, f: nat): (r: Pool)
    requires f < |s.frames| && s.log.segments != [] && s.log.nextLsn > 0
    ensures r.log.segments != []
  {
    PageWritten(LogFlushed(s, f), f)
  }

  function Cleaned(s: Pool, f: nat): (r: Pool)
    requires f < |s.frames| && s.log.segments != [] && s.log.nextLsn > 0
    ensures r.log.segments != [] && |r.frames| == |s.frames| && r.log.nextLsn == s.log.nextLsn
  {
    if s.frames[f].valid && s.frames[f].dirty then WriteOut(s, f) else s
  }

  /** The frame for a miss: the head of the free list, or else a victim. */
  function Claim(s: Pool): (r: (Option<nat>, Pool))
    requires s.clock.Valid()
  {
    if s.free != [] then (Some(s.free[0]), s.(free := s.free[1..]))
    else var (v, clock) := Victim(s.clock); (v, s.(clock := clock))
  }

  /** The claimed frame's page, if any, is written back when dirty and loses its table entry. */
  function Vacated(s: Pool, f: nat): (r: Pool)
    requires f < |s.frames| && s.log.segments != [] && s.log.nextLsn > 0
    ensures |r.frames| == |s.frames|
  {
    var c := Cleaned(s, f);
    c.(table := if c.frames[f].valid then c.table - {c.frames[f].pageId} else c.table)
  }

  /** The vacated frame `f` once `id` has been read into it. */
  function Installed(s: Pool, f: nat, id: nat): (r: Pool)
    requires f < |s.frames| && id in s.disk
  {
    s.(frames := s.frames[f := Frame(id, true, false, s.frames[f].pins + 1, s.disk[id])],
       table := s.table[id := f],
       clock := Access(PinFrame(s.clock, f), f))
  }

  /** The vacated frame `f` when the page could not be read: unpinned and back on the free list. */
  function Abandoned(s: Pool, f: nat): (r: Pool)
    requires f < |s.frames|
  {
    s.(free := s.free + [f], clock := UnpinFrame(PinFrame(s.clock, f), f))
  }

  function Fetch(s: Pool, id: nat): (r: (Pool, Result<nat>))
    requires Inv(s)
  {
    if id in s.table then
      var f := s.table[id];
      (s.(frames := s.frames[f := s.frames[f].(pins := s.frames[f].pins + 1)],
          clock := Access(PinFrame(s.clock, f), f)), Ok(f))
    else
      ClaimIsIdle(s);
      var (v, s1) := Claim(s);
      if v.None? then (s1, Err(InternalError))
      else
        var s2 := Vacated(s1, v.value);
        if id in s2.disk && Readable(id, s2.disk[id]) then (Installed(s2, v.value, id), Ok(v.value))
        else (Abandoned(s2, v.value), Err(IOError))
  }

  /** Dropping a handle on frame `f`. */
  function Drop(s: Pool, f: nat): (r: Pool)
    requires f < |s.frames| && s.frames[f].pins > 0
  {
    var pins := s.frames[f].pins - 1;
    s.(frames := s.frames[f := s.frames[f].(pins := pins)],
       clock := if pins == 0 then UnpinFrame(s.clock, f) else s.clock)
  }

  /** Writing through a handle on frame `f`. */
  function Write(s: Pool, f: nat, page: PageImage): (r: Pool)
    requires f < |s.frames|
  {
    s.(frames := s.frames[f := s.frames[f].(page := page, dirty := true)])
  }

  function FlushPage(s: Pool, id: nat): (r: Pool)
    requires Inv(s)
  {
    if id in s.table then Cleaned(s, s.table[id]) else s
  }

  /** Flushing the cached pages one after another, in the order in which the table yields them. */
  ghost function FlushPages(s: Pool, order: seq<nat>): (r: Pool)
    requires Inv(s)
    ensures Inv(r)
  {
    if order == [] then s
    else
      var before := FlushPages(s, order[..|order| - 1]);
      FlushPageInv(before, order[|order| - 1]);
      FlushPage(before, order[|order| - 1])
  }

  // ---------- the invariant ----------

  /** The page table is exact, hence injective; each mapped frame's page exists on disk. */
  ghost predicate TableOk(s: Pool) {
    forall id :: id in s.table ==>
      s.table[id] < |s.frames| && s.frames[s.table[id]].valid && s.frames[s.table[id]].pageId == id
      && id in s.disk
  }

  ghost predicate Mapped(s: Pool, f: nat)
    requires f < |s.frames|
  {
    s.frames[f].valid && s.frames[f].pageId in s.table && s.table[s.frames[f].pageId] == f
  }

  /** Every frame is either on the free list or mapped. */
  ghost predicate FramesOk(s: Pool) {
    forall f :: 0 <= f < |s.frames| ==> Mapped(s, f) || f in s.free
  }

  /** Free frames are distinct, idle, clean and unmapped; one that still holds a page is alone. */
  ghost predicate FreeOk(s: Pool) {
    (forall i, j :: 0 <= i < j < |s.free| ==> s.free[i] != s.free[j])
    && (forall i :: 0 <= i < |s.free| ==>
          s.free[i] < |s.frames| && s.frames[s.free[i]].pins == 0 && !s.frames[s.free[i]].dirty
          && !Mapped(s, s.free[i])
          && (s.frames[s.free[i]].valid ==> |s.free| == 1 && s.frames[s.free[i]].pageId !in s.table))
  }

  ghost predicate ClockOk(s: Pool) {
    s.clock.Valid() && |s.clock.frames| == |s.frames|
    && forall f :: 0 <= f < |s.frames| ==>
         s.clock.frames[f].isPinned == (s.frames[f].pins > 0)
         && (s.clock.frames[f].isEmpty ==> f in s.free)
  }

  /** Every stored page verifies, and a clean mapped frame is its page on disk. */
  ghost predicate DiskOk(s: Pool) {
    (forall id :: id in s.disk ==> Readable(id, s.disk[id]))
    && (forall f :: 0 <= f < |s.frames| && Mapped(s, f) && !s.frames[f].dirty && s.frames[f].pageId in s.disk ==>
          s.frames[f].page == s.disk[s.frames[f].pageId])
  }

  ghost predicate Inv(s: Pool) {
    TableOk(s) && FramesOk(s) && FreeOk(s) && ClockOk(s) && DiskOk(s)
    && s.log.segments != [] && s.log.nextLsn > 0
  }

  function Start(n: nat, disk: map<nat, PageImage>, log: WAL.Log): (s: Pool) {
    Pool(seq(n, i => Frame(INVALID_PAGE_ID, false, false, 0, seq(HEADER_SIZE, j => 0))), map[],
         seq(n, i => i), Clock(0, seq(n, i => FrameState(false, false, true))), disk, log)
  }

  lemma StartInv(n: nat, disk: map<nat, PageImage>, log: WAL.Log)
    requires forall id :: id in disk ==> Readable(id, disk[id])
    requires log.segments != [] && log.nextLsn > 0
    ensures Inv(Start(n, disk, log))
  {
    hide Readable;
    var s := Start(n, disk, log);
    forall f | 0 <= f < n ensures f in s.free { assert s.free[f] == f; }
  }

  // ---------- choosing a frame ----------

  /** The claimed frame has no live handle; and none can be claimed only when every frame has one. */
  lemma ClaimIsIdle(s: Pool)
    requires Inv(s)
    ensures var (v, s1) := Claim(s);
            (v.None? <==> forall f :: 0 <= f < |s.frames| ==> s.frames[f].pins > 0)
            && (v.None? ==> s1 == s)
            && (v.Some? ==> v.value < |s.frames| && s.frames[v.value].pins == 0)
            && s1.frames == s.frames && s1.table == s.table && s1.disk == s.disk && s1.log == s.log
  {
    hide Victim, Readable, DiskOk, TableOk, FramesOk;
    if s.free == [] {
      VictimExact(s.clock);
      if Victim(s.clock).0.None? {
        forall f | 0 <= f < |s.frames|
          ensures s.frames[f].pins > 0
        {
          assert !EvictableAt(s.clock, f);
        }
      } else {
        assert EvictableAt(s.clock, Victim(s.clock).0.value);
      }
    } else {
      assert s.frames[s.free[0]].pins == 0;
    }
  }

  /** Choosing a victim changes no bit but reference bits and the victim's own. */
  lemma VictimBits(c: Clock)
    requires c.Valid()
    ensures forall g :: 0 <= g < |c.frames| ==>
              Victim(c).1.frames[g].isPinned == c.frames[g].isPinned
              && (Victim(c).0 != Some(g) ==> Victim(c).1.frames[g].isEmpty == c.frames[g].isEmpty)
  {
    VictimExact(c);
  }

  // ---------- what callers see ----------

  /** The page `id` as any reader sees it: the cached copy if there is one, else the stored one. */
  function Shows(s: Pool, id: nat): (b: seq<byte>)
    requires id in s.disk && (id in s.table ==> s.table[id] < |s.frames|)
  {
    Seen(id, if id in s.table then s.frames[s.table[id]].page else s.disk[id])
  }

  /** The pool as a plain map from page id to bytes. */
  ghost function View(s: Pool): (m: map<nat, seq<byte>>)
    requires TableOk(s)
  {
    map id | id in s.disk :: Shows(s, id)
  }

  lemma StoredSeen(id: nat, p: PageImage)
    ensures Seen(id, Stored(id, p)) == Seen(id, p) && Readable(id, Stored(id, p))
    ensures PageLsn(Stored(id, p)) == PageLsn(p)
  {
    StampVerifies(p);
  }

  // ---------- vacating a frame ----------

  /** The invariant while frame `f` is claimed: neither free nor mapped, idle and clean. */
  ghost predicate Hole(s: Pool, f: nat) {
    f < |s.frames| && TableOk(s) && FreeOk(s) && DiskOk(s)
    && f !in s.free && !Mapped(s, f) && s.frames[f].pins == 0 && !s.frames[f].dirty
    && (s.frames[f].valid ==> s.free == [] && s.frames[f].pageId !in s.table)
    && (forall i :: 0 <= i < |s.free| ==> !s.frames[s.free[i]].valid)
    && (forall g :: 0 <= g < |s.frames| && g != f ==> Mapped(s, g) || g in s.free)
    && s.clock.Valid() && |s.clock.frames| == |s.frames|
    && (forall g :: 0 <= g < |s.frames| && g != f ==>
          s.clock.frames[g].isPinned == (s.frames[g].pins > 0) && (s.clock.frames[g].isEmpty ==> g in s.free))
    && s.log.segments != [] && s.log.nextLsn > 0
  }

  lemma CleanedStructure(s: Pool, f: nat)
    requires Inv(s) && f < |s.frames| && Mapped(s, f)
    ensures var r := Cleaned(s, f);
            TableOk(r) && FramesOk(r) && FreeOk(r) && ClockOk(r) && !r.frames[f].dirty
            && r.disk.Keys == s.disk.Keys && r.table == s.table
            && forall g :: 0 <= g < |s.frames| ==> Mapped(r, g) == Mapped(s, g)
  {
    hide Stored, Readable, PageLsn, WAL.FlushUpTo, DiskOk;
    var r := Cleaned(s, f);
    assert forall g :: 0 <= g < |s.frames| ==> Mapped(r, g) == Mapped(s, g);
  }

  lemma CleanedDisk(s: Pool, f: nat)
    requires Inv(s) && f < |s.frames| && Mapped(s, f)
    ensures DiskOk(Cleaned(s, f))
  {
    hide Stored, Seen, Readable, PageLsn, WAL.FlushUpTo, FramesOk, FreeOk, ClockOk;
    CleanedStructure(s, f);
    StoredSeen(s.frames[f].pageId, s.frames[f].page);
    var r := Cleaned(s, f);
    var id := s.frames[f].pageId;
    forall x | x in r.disk ensures Readable(x, r.disk[x]) { }
    forall g | 0 <= g < |s.frames| && Mapped(r, g) && !r.frames[g].dirty
      ensures r.frames[g].page == r.disk[r.frames[g].pageId]
    {
      assert Mapped(s, g);
    }
  }

  lemma CleanedView(s: Pool, f: nat)
    requires Inv(s) && f < |s.frames| && Mapped(s, f)
    ensures TableOk(Cleaned(s, f)) && View(Cleaned(s, f)) == View(s)
  {
    hide Stored, Seen, PageLsn, Readable, WAL.FlushUpTo, FramesOk, FreeOk, ClockOk, DiskOk;
    CleanedStructure(s, f);
    StoredSeen(s.frames[f].pageId, s.frames[f].page);
    var r := Cleaned(s, f);
    forall x | x in s.disk ensures Shows(r, x) == Shows(s, x) { }
  }

  /** Writing a mapped frame back changes nothing that callers see. */
  lemma CleanedInv(s: Pool, f: nat)
    requires Inv(s) && f < |s.frames| && Mapped(s, f)
    ensures Inv(Cleaned(s, f)) && View(Cleaned(s, f)) == View(s)
    ensures !Cleaned(s, f).frames[f].dirty
  {
    hide FramesOk, FreeOk, ClockOk, DiskOk, View, Cleaned;
    CleanedStructure(s, f);
    CleanedDisk(s, f);
    CleanedView(s, f);
  }

  /** Unmapping a clean idle frame changes nothing that callers see. */
  lemma UnmapHole(s: Pool, clock: Clock, f: nat)
    requires Inv(s) && s.free == [] && f < |s.frames| && s.frames[f].pins == 0 && !s.frames[f].dirty
    requires clock.Valid() && |clock.frames| == |s.frames|
    requires forall g :: 0 <= g < |s.frames| && g != f ==>
               clock.frames[g].isPinned == s.clock.frames[g].isPinned
               && clock.frames[g].isEmpty == s.clock.frames[g].isEmpty
    ensures var r := s.(clock := clock, table := s.table - {s.frames[f].pageId});
            Hole(r, f) && View(r) == View(s)
  {
    hide Stored, Seen, Readable, PageLsn;
    assert Mapped(s, f);
    var r := s.(clock := clock, table := s.table - {s.frames[f].pageId});
    assert forall g :: 0 <= g < |s.frames| ==> Mapped(r, g) == (g != f && Mapped(s, g));
    forall x | x in s.disk
      ensures Shows(r, x) == Shows(s, x)
    {
    }
  }

  lemma ClaimedHole(s: Pool)
    requires Inv(s) && Claim(s).0.Some?
    ensures var (v, s1) := Claim(s);
            v.value < |s.frames| && Hole(Vacated(s1, v.value), v.value)
            && View(Vacated(s1, v.value)) == View(s)
  {
    hide Stored, Seen, Readable, PageLsn, WAL.FlushUpTo, Victim, View, Hole, TableOk, DiskOk, FreeOk;
    ClaimIsIdle(s);
    var (v, s1) := Claim(s);
    var f := v.value;
    if s.free == [] {
      VictimBits(s.clock);
      CleanedInv(s, f);
      UnmapHole(Cleaned(s, f), s1.clock, f);
    } else {
      FreeHole(s);
    }
  }

  lemma FreeTail(free: seq<nat>, g: nat)
    requires g in free && g != free[0]
    ensures g in free[1..]
  {
    var i :| 0 <= i < |free| && free[i] == g;
    assert free[1..][i - 1] == g;
  }

  lemma FreeTailOk(s: Pool)
    requires FreeOk(s) && s.free != []
    ensures var f := s.free[0];
            var s1 := s.(free := s.free[1..]);
            FreeOk(s1) && f !in s1.free
            && (forall i :: 0 <= i < |s1.free| ==> s1.free[i] < |s.frames| && !s.frames[s1.free[i]].valid)
  {
    var s1 := s.(free := s.free[1..]);
    assert forall i :: 0 <= i < |s1.free| ==> s1.free[i] == s.free[i + 1];
    assert forall g :: 0 <= g < |s.frames| ==> Mapped(s1, g) == Mapped(s, g);
  }

  lemma FreeHole(s: Pool)
    requires Inv(s) && s.free != []
    ensures var f := s.free[0];
            var s1 := s.(free := s.free[1..]);
            f < |s.frames| && Vacated(s1, f) == s1 && Hole(s1, f) && View(s1) == View(s)
  {
    hide Stored, Seen, Readable, PageLsn, WriteOut;
    var f := s.free[0];
    var s1 := s.(free := s.free[1..]);
    FreeTailOk(s);
    assert s.frames[f].valid ==> s.table - {s.frames[f].pageId} == s.table;
    forall g | 0 <= g < |s.frames| && g != f && g in s.free
      ensures g in s1.free
    {
      FreeTail(s.free, g);
    }
    assert forall g :: 0 <= g < |s.frames| ==> Mapped(s1, g) == Mapped(s, g);
  }

  // ---------- filling a vacated frame ----------

  lemma InstalledInv(s: Pool, f: nat, id: nat)
    requires Hole(s, f) && id !in s.table && id in s.disk
    ensures Inv(Installed(s, f, id)) && View(Installed(s, f, id)) == View(s)
  {
    hide TableOk, FreeOk, FramesOk, ClockOk, DiskOk, View, Installed;
    InstalledTable(s, f, id);
    InstalledFree(s, f, id);
    InstalledClock(s, f, id);
    HoleLog(s, f, id);
  }

  lemma HoleLog(s: Pool, f: nat, id: nat)
    requires Hole(s, f) && id in s.disk
    ensures Installed(s, f, id).log == s.log && s.log.segments != [] && s.log.nextLsn > 0
  {
    hide TableOk, FreeOk, DiskOk;
  }

  lemma InstalledTable(s: Pool, f: nat, id: nat)
    requires Hole(s, f) && id !in s.table && id in s.disk
    ensures var r := Installed(s, f, id); TableOk(r) && DiskOk(r) && View(r) == View(s)
  {
    hide Stored, Seen, Readable, PageLsn, Access, PinFrame, FreeOk;
    var r := Installed(s, f, id);
    assert forall g :: 0 <= g < |s.frames| && g != f ==> Mapped(r, g) == Mapped(s, g);
    forall x | x in s.disk
      ensures Shows(r, x) == Shows(s, x)
    {
    }
  }

  lemma InstalledFree(s: Pool, f: nat, id: nat)
    requires Hole(s, f) && id !in s.table && id in s.disk
    ensures FreeOk(Installed(s, f, id)) && FramesOk(Installed(s, f, id))
  {
    hide Stored, Seen, Readable, PageLsn, DiskOk, Access, PinFrame;
    var r := Installed(s, f, id);
    assert forall g :: 0 <= g < |s.frames| && g != f ==> Mapped(r, g) == Mapped(s, g);
    assert Mapped(r, f);
  }

  lemma InstalledClock(s: Pool, f: nat, id: nat)
    requires Hole(s, f) && id in s.disk
    ensures ClockOk(Installed(s, f, id))
  {
    hide Stored, Seen, Readable, PageLsn, TableOk, DiskOk;
  }

  lemma AbandonedInv(s: Pool, f: nat)
    requires Hole(s, f)
    ensures Inv(Abandoned(s, f)) && View(Abandoned(s, f)) == View(s)
  {
    hide Stored, Seen, Readable, PageLsn, ClockOk, UnpinFrame, PinFrame, FreeOk, FramesOk;
    AbandonedClock(s, f);
    AbandonedFree(s, f);
    var r := Abandoned(s, f);
    assert forall g :: 0 <= g < |s.frames| ==> Mapped(r, g) == Mapped(s, g);
    forall x | x in s.disk ensures Shows(r, x) == Shows(s, x) { }
  }

  lemma FreeGrows(free: seq<nat>, f: nat)
    ensures forall g :: g in free + [f] <==> g in free || g == f
  {
  }

  lemma AbandonedFree(s: Pool, f: nat)
    requires Hole(s, f)
    ensures FreeOk(Abandoned(s, f)) && FramesOk(Abandoned(s, f))
  {
    hide Stored, Readable, TableOk, DiskOk, UnpinFrame, PinFrame;
    var r := Abandoned(s, f);
    FreeGrows(s.free, f);
    assert forall i :: 0 <= i < |s.free| ==> r.free[i] == s.free[i];
    assert forall g :: 0 <= g < |s.frames| ==> Mapped(r, g) == Mapped(s, g);
  }

  lemma AbandonedClock(s: Pool, f: nat)
    requires Hole(s, f)
    ensures ClockOk(Abandoned(s, f))
  {
    hide Stored, Readable, TableOk, DiskOk, FreeOk;
    FreeGrows(s.free, f);
  }

  // ---------- fetch ----------

  lemma HitInv(s: Pool, id: nat)
    requires Inv(s) && id in s.table
    ensures Inv(Fetch(s, id).0) && View(Fetch(s, id).0) == View(s)
  {
    hide Stored, Seen, Readable, PageLsn, Fetch, ClockOk, Access, PinFrame;
    var r := Fetch(s, id).0;
    FetchHit(s, id);
    HitClock(s, id);
    assert Mapped(s, s.table[id]);
    assert forall g :: 0 <= g < |s.frames| ==> Mapped(r, g) == Mapped(s, g);
    forall x | x in s.disk ensures Shows(r, x) == Shows(s, x) { }
  }

  lemma HitClock(s: Pool, id: nat)
    requires Inv(s) && id in s.table
    ensures ClockOk(Fetch(s, id).0)
  {
    hide Stored, Readable, Fetch, DiskOk, FreeOk, FramesOk;
    FetchHit(s, id);
  }

  /** A fetch, hit or miss, successful or not, shows every caller the same pages as before. */
  lemma FetchInv(s: Pool, id: nat)
    requires Inv(s)
    ensures Inv(Fetch(s, id).0) && View(Fetch(s, id).0) == View(s)
  {
    hide Readable, View, Hole, DiskOk, FreeOk, FramesOk, Claim, Vacated, Installed, Abandoned;
    if id in s.table {
      HitInv(s, id);
    } else {
      ClaimIsIdle(s);
      var (v, s1) := Claim(s);
      if v.Some? {
        ClaimedHole(s);
        var s2 := Vacated(s1, v.value);
        VacatedTable(s, v.value, id);
        AbandonedInv(s2, v.value);
        if id in s2.disk { InstalledInv(s2, v.value, id); }
      }
    }
  }

  lemma VacatedTable(s: Pool, f: nat, id: nat)
    requires Inv(s) && id !in s.table && Claim(s).0 == Some(f)
    ensures f < |s.frames| && id !in Vacated(Claim(s).1, f).table
    ensures var r := Vacated(Claim(s).1, f);
            r.disk.Keys == s.disk.Keys && r.frames[f].pins == 0
            && (forall g :: 0 <= g < |s.frames| && g != f ==> r.frames[g] == s.frames[g])
            && (forall x :: x in r.disk ==> Readable(x, r.disk[x]))
  {
    hide Stored, Seen, Readable, PageLsn, WAL.FlushUpTo, Victim;
    ClaimIsIdle(s);
    StoredSeen(s.frames[f].pageId, s.frames[f].page);
    assert Mapped(s, f) || f in s.free;
  }

  /**
   * Fetch, exactly: it fails only for an uncached page that is not on disk or when every frame is
   * pinned; it pins one frame, which then holds the page; and no pinned frame is evicted or changed.
   */
  lemma FetchExact(s: Pool, id: nat)
    requires Inv(s)
    ensures var (r, res) := Fetch(s, id);
            (res.Ok? <==> id in s.table
                          || (id in s.disk && exists f :: 0 <= f < |s.frames| && s.frames[f].pins == 0))
            && |r.frames| == |s.frames|
            && (res.Ok? ==> res.value < |r.frames| && id in r.table && r.table[id] == res.value)
            && (forall g :: 0 <= g < |s.frames| ==>
                  r.frames[g].pins == s.frames[g].pins + (if res == Ok(g) then 1 else 0))
            && (forall g :: 0 <= g < |s.frames| && s.frames[g].pins > 0 ==>
                  r.frames[g] == s.frames[g].(pins := r.frames[g].pins))
  {
    hide Stored, Seen, Readable, PageLsn, DiskOk, View, WAL.FlushUpTo, Victim;
    if id !in s.table {
      ClaimIsIdle(s);
      var v := Claim(s).0;
      if v.Some? { VacatedTable(s, v.value, id); }
    }
  }

  /** The frame fetched counts as accessed, and the replacer will not choose it. */
  lemma FetchProtects(s: Pool, id: nat)
    requires Inv(s) && Fetch(s, id).1.Ok?
    ensures var (r, res) := Fetch(s, id);
            Referenced(r.clock, res.value) && !EvictableAt(r.clock, res.value)
            && r.clock.Valid() && Victim(r.clock).0 != Some(res.value)
  {
    hide Fetch, Inv, Victim;
    FetchExact(s, id);
    FetchInv(s, id);
    var (r, res) := Fetch(s, id);
    FetchAccesses(s, id);
    ClockIsValid(r);
    VictimExact(r.clock);
  }

  lemma ClockIsValid(s: Pool)
    requires Inv(s)
    ensures s.clock.Valid()
  {
  }

  lemma FetchAccesses(s: Pool, id: nat)
    requires Inv(s) && Fetch(s, id).1.Ok?
    ensures var (r, res) := Fetch(s, id); Referenced(r.clock, res.value) && !EvictableAt(r.clock, res.value)
  {
    hide Stored, Seen, Readable, PageLsn, DiskOk, View, WAL.FlushUpTo, Victim, FreeOk, FramesOk;
    if id in s.table {
      FetchHit(s, id);
    } else {
      ClaimIsIdle(s);
      FetchMiss(s, id);
      ClaimKeepsClock(s);
    }
  }

  lemma ClaimKeepsClock(s: Pool)
    requires Inv(s)
    ensures |Claim(s).1.clock.frames| == |s.frames|
  {
    hide Victim, DiskOk, TableOk, FramesOk, FreeOk;
    VictimSize(s.clock);
  }

  lemma VictimSize(c: Clock)
    requires c.Valid()
    ensures |Victim(c).1.frames| == |c.frames|
  {
  }

  lemma FetchHit(s: Pool, id: nat)
    requires Inv(s) && id in s.table
    ensures s.table[id] < |s.frames|
    ensures var f := s.table[id];
            Fetch(s, id)
            == (s.(frames := s.frames[f := s.frames[f].(pins := s.frames[f].pins + 1)],
                   clock := Access(PinFrame(s.clock, f), f)), Ok(f))
  {
    hide Stored, Readable, FramesOk, FreeOk, ClockOk, DiskOk;
  }

  lemma FetchMiss(s: Pool, id: nat)
    requires Inv(s) && id !in s.table
    ensures var (v, s1) := Claim(s); v.Some? ==> v.value < |s.frames| == |s1.frames| && s1.log == s.log
    ensures s.log.segments != [] && s.log.nextLsn > 0
    ensures var (v, s1) := Claim(s);
            Fetch(s, id)
            == if v.None? then (s1, Err(InternalError))
               else var s2 := Vacated(s1, v.value);
                    if id in s2.disk && Readable(id, s2.disk[id]) then (Installed(s2, v.value, id), Ok(v.value))
                    else (Abandoned(s2, v.value), Err(IOError))
  {
    hide Stored, Readable, TableOk, FramesOk, FreeOk, ClockOk, DiskOk;
    ClaimIsIdle(s);
  }

  // ---------- the other operations ----------

  lemma DropInv(s: Pool, f: nat)
    requires Inv(s) && f < |s.frames| && s.frames[f].pins > 0
    ensures Inv(Drop(s, f)) && View(Drop(s, f)) == View(s)
  {
    hide Stored, Seen, Readable, PageLsn;
    var r := Drop(s, f);
    assert forall g :: 0 <= g < |s.frames| ==> Mapped(r, g) == Mapped(s, g);
    forall x | x in s.disk ensures Shows(r, x) == Shows(s, x) { }
  }

  /** Writing through a handle changes exactly the page that its frame holds. */
  lemma WriteClock(s: Pool, f: nat, page: PageImage)
    requires ClockOk(s) && f < |s.frames|
    ensures ClockOk(Write(s, f, page))
  {
  }

  lemma PinnedIsMapped(s: Pool, f: nat)
    requires Inv(s) && f < |s.frames| && s.frames[f].pins > 0
    ensures Mapped(s, f)
  {
    hide Readable, DiskOk, ClockOk, TableOk;
  }

  lemma WriteInv(s: Pool, f: nat, page: PageImage)
    requires Inv(s) && f < |s.frames| && s.frames[f].pins > 0
    ensures Inv(Write(s, f, page))
    ensures var id := s.frames[f].pageId;
            id in s.disk && View(Write(s, f, page)) == View(s)[id := Seen(id, page)]
  {
    hide Stored, Seen, Readable, PageLsn, ClockOk;
    WriteClock(s, f, page);
    PinnedIsMapped(s, f);
    var r := Write(s, f, page);
    var id := s.frames[f].pageId;
    assert forall g :: 0 <= g < |s.frames| ==> Mapped(r, g) == Mapped(s, g);
    forall x | x in s.disk ensures Shows(r, x) == if x == id then Seen(id, page) else Shows(s, x) { }
  }

  lemma FlushPageInv(s: Pool, id: nat)
    requires Inv(s)
    ensures Inv(FlushPage(s, id)) && View(FlushPage(s, id)) == View(s)
    ensures id in s.table ==> FlushPage(s, id).table == s.table && !FlushPage(s, id).frames[s.table[id]].dirty
  {
    hide Stored, Readable;
    if id in s.table {
      assert Mapped(s, s.table[id]);
      CleanedInv(s, s.table[id]);
    }
  }

  // ---------- whole runs ----------

  /** A live handle: the frame it pins and the page it was fetched for. */
  datatype Handle = Handle(frame: nat, pageId: nat)

  datatype Session = Session(pool: Pool, handles: map<nat, Handle>)

  datatype Op =
    | FetchOp(id: nat, handle: nat)
    | DropOp(handle: nat)
    | WriteOp(handle: nat, page: PageImage)
    | FlushOp(id: nat)
    | FlushAllOp(order: seq<nat>)
    | AppendOp(record: LR.LogRecord)

  ghost function HandlesOn(handles: map<nat, Handle>, f: nat): (hs: set<nat>) {
    set h | h in handles && handles[h].frame == f
  }

  /** Pin counts are handle counts, and a handle's frame holds the page it was fetched for. */
  ghost predicate SessionOk(t: Session) {
    Inv(t.pool)
    && (forall f :: 0 <= f < |t.pool.frames| ==> t.pool.frames[f].pins == |HandlesOn(t.handles, f)|)
    && (forall h :: h in t.handles ==>
          t.handles[h].frame < |t.pool.frames| && t.pool.frames[t.handles[h].frame].pins > 0
          && t.pool.frames[t.handles[h].frame].pageId == t.handles[h].pageId)
  }

  /** New handles get unused names; only live handles are written through or dropped. */
  ghost predicate Enabled(t: Session, op: Op) {
    match op
    case FetchOp(_, h) => h !in t.handles
    case DropOp(h) => h in t.handles
    case WriteOp(h, _) => h in t.handles
    case FlushAllOp(order) => Lists(order, t.pool.table.Keys)
    case _ => true
  }

  /** `order` is an iteration order of the page table. */
  ghost predicate Lists(order: seq<nat>, ids: set<nat>) {
    (forall i, j :: 0 <= i < j < |order| ==> order[i] != order[j]) && forall id :: id in order <==> id in ids
  }

  ghost function Next(t: Session, op: Op): (u: Session)
    requires SessionOk(t) && Enabled(t, op)
  {
    match op
    case FetchOp(id, h) =>
      var (pool, res) := Fetch(t.pool, id);
      Session(pool, if res.Ok? then t.handles[h := Handle(res.value, id)] else t.handles)
    case DropOp(h) => Session(Drop(t.pool, t.handles[h].frame), t.handles - {h})
    case WriteOp(h, page) => t.(pool := Write(t.pool, t.handles[h].frame, page))
    case FlushOp(id) => t.(pool := FlushPage(t.pool, id))
    case FlushAllOp(order) => t.(pool := FlushPages(t.pool, order))
    case AppendOp(record) => t.(pool := t.pool.(log := WAL.Append(t.pool.log, record).0))
  }

  /** What the operation does to the plain map: only a write changes it, at the handle's own page. */
  ghost function Effect(t: Session, op: Op, m: map<nat, seq<byte>>): (n: map<nat, seq<byte>>) {
    if op.WriteOp? && op.handle in t.handles
    then m[t.handles[op.handle].pageId := Seen(t.handles[op.handle].pageId, op.page)]
    else m
  }

  lemma CountFetch(handles: map<nat, Handle>, h: nat, e: Handle, f: nat)
    requires h !in handles
    ensures |HandlesOn(handles[h := e], f)| == |HandlesOn(handles, f)| + (if e.frame == f then 1 else 0)
  {
    assert HandlesOn(handles[h := e], f) == HandlesOn(handles, f) + if e.frame == f then {h} else {};
  }

  lemma CountDrop(handles: map<nat, Handle>, h: nat, f: nat)
    requires h in handles
    ensures |HandlesOn(handles - {h}, f)| == |HandlesOn(handles, f)| - (if handles[h].frame == f then 1 else 0)
  {
    assert HandlesOn(handles - {h}, f) == HandlesOn(handles, f) - {h};
  }

  lemma FetchOk(t: Session, id: nat, h: nat)
    requires SessionOk(t) && h !in t.handles
    ensures SessionOk(Next(t, FetchOp(id, h)))
    ensures View(Next(t, FetchOp(id, h)).pool) == View(t.pool)
  {
    hide Inv, View, HandlesOn, Fetch, Drop, Write, FlushPage, FlushPages, WAL.Append;
    FetchInv(t.pool, id);
    FetchExact(t.pool, id);
    var (pool, res) := Fetch(t.pool, id);
    if res.Ok? {
      forall f | 0 <= f < |pool.frames|
        ensures pool.frames[f].pins == |HandlesOn(t.handles[h := Handle(res.value, id)], f)|
      {
        CountFetch(t.handles, h, Handle(res.value, id), f);
      }
      assert pool.frames[res.value].pageId == id by { TableHolds(pool, id); }
    }
  }

  lemma TableHolds(s: Pool, id: nat)
    requires Inv(s) && id in s.table
    ensures s.table[id] < |s.frames| && s.frames[s.table[id]].pageId == id
  {
    hide Readable;
  }

  lemma DropOk(t: Session, h: nat)
    requires SessionOk(t) && h in t.handles
    ensures SessionOk(Next(t, DropOp(h))) && View(Next(t, DropOp(h)).pool) == View(t.pool)
  {
    hide Inv, View, HandlesOn, Fetch, Write, FlushPage, FlushPages, WAL.Append, UnpinFrame;
    var f := t.handles[h].frame;
    DropInv(t.pool, f);
    var u := Next(t, DropOp(h));
    forall g | 0 <= g < |u.pool.frames|
      ensures u.pool.frames[g].pins == |HandlesOn(u.handles, g)|
    {
      CountDrop(t.handles, h, g);
    }
    forall k | k in u.handles
      ensures u.pool.frames[u.handles[k].frame].pins > 0
    {
      CountMember(u.handles, k);
    }
  }

  lemma CountMember(handles: map<nat, Handle>, h: nat)
    requires h in handles
    ensures |HandlesOn(handles, handles[h].frame)| > 0
  {
    assert h in HandlesOn(handles, handles[h].frame);
  }

  lemma FlushKeepsFrames(s: Pool, id: nat)
    requires Inv(s)
    ensures |FlushPage(s, id).frames| == |s.frames|
    ensures forall f :: 0 <= f < |s.frames| ==>
              FlushPage(s, id).frames[f].pins == s.frames[f].pins
              && FlushPage(s, id).frames[f].pageId == s.frames[f].pageId
  {
    hide Readable, Stored, WAL.FlushUpTo;
  }

  lemma AppendStarted(w: WAL.Log, record: LR.LogRecord)
    requires w.segments != [] && w.nextLsn > 0
    ensures WAL.Append(w, record).0.segments != [] && WAL.Append(w, record).0.nextLsn > 0
  {
  }

  lemma AppendKeepsPool(s: Pool, record: LR.LogRecord)
    requires Inv(s)
    ensures var r := s.(log := WAL.Append(s.log, record).0); Inv(r) && View(r) == View(s)
  {
    hide Readable, WAL.Append, Seen;
    LogStarted(s);
    AppendStarted(s.log, record);
    var r := s.(log := WAL.Append(s.log, record).0);
    assert forall f :: 0 <= f < |s.frames| ==> Mapped(r, f) == Mapped(s, f);
    forall x | x in s.disk ensures Shows(r, x) == Shows(s, x) { }
  }

  lemma WriteOk(t: Session, h: nat, page: PageImage)
    requires SessionOk(t) && h in t.handles
    ensures SessionOk(Next(t, WriteOp(h, page)))
    ensures View(Next(t, WriteOp(h, page)).pool) == Effect(t, WriteOp(h, page), View(t.pool))
  {
    hide Inv, View, HandlesOn, Seen;
    WriteInv(t.pool, t.handles[h].frame, page);
  }

  lemma FlushOk(t: Session, id: nat)
    requires SessionOk(t)
    ensures SessionOk(Next(t, FlushOp(id))) && View(Next(t, FlushOp(id)).pool) == View(t.pool)
  {
    hide Inv, View, HandlesOn, FlushPage;
    FlushPageInv(t.pool, id);
    FlushKeepsFrames(t.pool, id);
  }

  lemma {:induction false} FlushAllOk(t: Session, order: seq<nat>)
    requires SessionOk(t)
    ensures var u := t.(pool := FlushPages(t.pool, order)); SessionOk(u) && View(u.pool) == View(t.pool)
    decreases |order|
  {
    hide Inv, View, HandlesOn, FlushPage;
    if order != [] {
      var before := order[..|order| - 1];
      FlushAllOk(t, before);
      FlushOk(t.(pool := FlushPages(t.pool, before)), order[|order| - 1]);
    }
  }

  /** One step: the invariant holds again and the pool shows what the plain map does. */
  lemma StepRefines(t: Session, op: Op)
    requires SessionOk(t) && Enabled(t, op)
    ensures SessionOk(Next(t, op))
    ensures View(Next(t, op).pool) == Effect(t, op, View(t.pool))
  {
    hide Inv, View, HandlesOn, Fetch, Drop, Write, FlushPage, FlushPages, WAL.Append;
    match op
    case FetchOp(id, h) => FetchOk(t, id, h);
    case DropOp(h) => DropOk(t, h);
    case WriteOp(h, page) => WriteOk(t, h, page);
    case FlushOp(id) => FlushOk(t, id);
    case FlushAllOp(order) => FlushAllOk(t, order);
    case AppendOp(record) => AppendKeepsPool(t.pool, record);
  }

  /** A run: each operation is enabled where it is issued. */
  ghost predicate IsRun(ts: seq<Session>, ops: seq<Op>) {
    |ts| == |ops| + 1 && SessionOk(ts[0])
    && forall i :: 0 <= i < |ops| ==>
         SessionOk(ts[i]) && Enabled(ts[i], ops[i]) && ts[i + 1] == Next(ts[i], ops[i])
  }

  lemma RunPrefix(ts: seq<Session>, ops: seq<Op>)
    requires IsRun(ts, ops) && ops != []
    ensures IsRun(ts[..|ops|], ops[..|ops| - 1])
  {
    hide SessionOk, Enabled, Next;
    var n := |ops|;
    var us, os := ts[..n], ops[..n - 1];
    forall i | 0 <= i < n - 1
      ensures SessionOk(us[i]) && Enabled(us[i], os[i]) && us[i + 1] == Next(us[i], os[i])
    {
      assert us[i] == ts[i] && us[i + 1] == ts[i + 1] && os[i] == ops[i];
    }
  }

  /** The plain map after the writes of a run. */
  ghost function Writes(ts: seq<Session>, ops: seq<Op>, m: map<nat, seq<byte>>): (n: map<nat, seq<byte>>)
    requires |ts| >= |ops|
  {
    if ops == [] then m
    else Effect(ts[|ops| - 1], ops[|ops| - 1], Writes(ts, ops[..|ops| - 1], m))
  }

  /**
   * Every sequential run of fetches, writes through handles, drops, flushes of one page or of all, and log
   * appends shows for each page exactly the last bytes written to it, with pin counts equal to live handles
   * throughout.
   */
  lemma {:induction false} RunShowsLastWrites(ts: seq<Session>, ops: seq<Op>)
    requires IsRun(ts, ops)
    ensures SessionOk(ts[|ops|])
    ensures View(ts[|ops|].pool) == Writes(ts, ops, View(ts[0].pool))
    decreases |ops|
  {
    hide TableOk, FramesOk, FreeOk, ClockOk, DiskOk, View, Next, Effect, Enabled, HandlesOn;
    var n := |ops|;
    if n > 0 {
      var ts', ops' := ts[..n], ops[..n - 1];
      RunPrefix(ts, ops);
      RunShowsLastWrites(ts', ops');
      WritesPrefix(ts, ts', ops', View(ts[0].pool));
      StepRefines(ts[n - 1], ops[n - 1]);
      assert ts[n - 1 + 1] == Next(ts[n - 1], ops[n - 1]);
    }
  }

  lemma {:induction false} WritesPrefix(ts: seq<Session>, us: seq<Session>, ops: seq<Op>, m: map<nat, seq<byte>>)
    requires |ops| <= |us| <= |ts| && us == ts[..|us|]
    ensures Writes(ts, ops, m) == Writes(us, ops, m)
  {
    if ops != [] {
      WritesPrefix(ts, us, ops[..|ops| - 1], m);
    }
  }

  // ---------- the write-ahead rule ----------

  /** Page LSNs are LSNs that the log has given out, and those on disk have been written to a segment. */
  ghost predicate LoggedFirst(s: Pool) {
    WAL.Dense(s.log) && WAL.Durable(s.log)
    && (forall f :: 0 <= f < |s.frames| && s.frames[f].valid && s.frames[f].pageId != 0 ==>
          PageLsn(s.frames[f].page) < s.log.nextLsn)
    && (forall id :: id in s.disk && id != 0 ==> PageLsn(s.disk[id]) <= s.log.flushedLsn)
  }

  /** Every page on disk carries LSN 0 or the LSN of a record that is in a segment. */
  lemma DiskIsLogged(s: Pool, id: nat)
    requires LoggedFirst(s) && id in s.disk && id != 0
    ensures PageLsn(s.disk[id]) == 0 || WAL.Written(s.log, PageLsn(s.disk[id]))
  {
    hide PageLsn;
    WAL.DurableMeansWritten(s.log);
  }

  lemma CleanedLogged(s: Pool, f: nat)
    requires LoggedFirst(s) && f < |s.frames|
    ensures s.log.segments != [] && s.log.nextLsn > 0 && LoggedFirst(Cleaned(s, f))
  {
    hide PageLsn, Stored, WAL.Dense, WAL.Durable, WAL.FlushUpTo;
    LogBasics(s.log);
    var frame := s.frames[f];
    var lsn := PageLsn(frame.page);
    StoredSeen(frame.pageId, frame.page);
    if lsn != 0 { FlushUpToLogged(s.log, lsn); }
  }

  lemma LogBasics(w: WAL.Log)
    requires WAL.Dense(w) && WAL.Durable(w)
    ensures w.segments != [] && w.nextLsn > 0 && w.flushedLsn < w.nextLsn
  {
  }

  lemma FlushUpToLogged(w: WAL.Log, lsn: nat)
    requires WAL.Dense(w) && WAL.Durable(w) && lsn > 0
    ensures w.segments != [] && w.nextLsn > 0
    ensures var v := WAL.FlushUpTo(w, lsn);
            WAL.Dense(v) && WAL.Durable(v) && w.flushedLsn <= v.flushedLsn && v.nextLsn == w.nextLsn
            && (lsn < w.nextLsn ==> lsn <= v.flushedLsn)
  {
    WAL.FlushKeepsDurable(w);
  }

  /** Writes stamp a page with an LSN already given out, and appends find room in the log buffer. */
  ghost predicate Disciplined(t: Session, op: Op) {
    (op.WriteOp? ==> PageLsn(op.page) < t.pool.log.nextLsn)
    && (op.AppendOp? ==> WAL.Fits(t.pool.log, op.record))
  }

  lemma VacatedLogged(s: Pool)
    requires Inv(s) && LoggedFirst(s) && Claim(s).0.Some?
    ensures Claim(s).0.value < |s.frames| && LoggedFirst(Vacated(Claim(s).1, Claim(s).0.value))
  {
    hide PageLsn, Stored, Readable, WAL.Dense, WAL.Durable, WAL.FlushUpTo, Victim, Cleaned;
    hide TableOk, FreeOk, FramesOk, DiskOk;
    ClaimIsIdle(s);
    var (v, s1) := Claim(s);
    CleanedLogged(s1, v.value);
  }

  lemma FetchLogged(s: Pool, id: nat)
    requires Inv(s) && LoggedFirst(s)
    ensures LoggedFirst(Fetch(s, id).0)
  {
    hide PageLsn, Readable, WAL.Dense, WAL.Durable, Vacated, Claim, FreeOk, FramesOk, DiskOk;
    ClaimIsIdle(s);
    if id in s.table {
      TableHolds(s, id);
    } else {
      var (v, s1) := Claim(s);
      if v.Some? {
        VacatedLogged(s);
        FilledLogged(Vacated(s1, v.value), v.value, id);
      }
    }
  }

  lemma FilledLogged(s: Pool, f: nat, id: nat)
    requires LoggedFirst(s) && f < |s.frames|
    ensures LoggedFirst(Abandoned(s, f))
    ensures id in s.disk ==> LoggedFirst(Installed(s, f, id))
  {
    hide PageLsn, WAL.Dense, WAL.Durable;
    LogBasics(s.log);
  }

  /** Every LSN on disk is 0 or names a record that is in a segment. Page 0 holds no page header. */
  ghost predicate RuleHolds(s: Pool) {
    forall id :: id in s.disk && id != 0 ==> MayBeOnDisk(s.log, id, s.disk[id])
  }

  ghost predicate MayBeOnDisk(log: WAL.Log, id: nat, image: PageImage) {
    id == 0 || PageLsn(image) == 0 || WAL.Written(log, PageLsn(image))
  }

  lemma LoggedFirstRules(s: Pool)
    requires LoggedFirst(s)
    ensures RuleHolds(s)
  {
    hide PageLsn;
    forall id | id in s.disk && id != 0 ensures MayBeOnDisk(s.log, id, s.disk[id]) { DiskIsLogged(s, id); }
  }

  /** The states a crash can find while frame `f` is written back: the log flushed, then the page written too. */
  ghost function WriteBackStates(s: Pool, f: nat): (ms: seq<Pool>)
    requires f < |s.frames| && s.log.segments != [] && s.log.nextLsn > 0
  {
    if s.frames[f].valid && s.frames[f].dirty then [LogFlushed(s, f), WriteOut(s, f)] else []
  }

  /** The states a crash can find during a step, in order. */
  ghost function StatesDuring(s: Pool, op: Op): (ms: seq<Pool>)
    requires Inv(s)
  {
    match op
    case FetchOp(id, _) =>
      ClaimIsIdle(s);
      var (v, s1) := Claim(s);
      if id in s.table || v.None? then [] else WriteBackStates(s1, v.value)
    case FlushOp(id) => if id in s.table then WriteBackStates(s, s.table[id]) else []
    case FlushAllOp(order) => FlushAllStates(s, order)
    case _ => []
  }

  ghost function FlushAllStates(s: Pool, order: seq<nat>): (ms: seq<Pool>)
    requires Inv(s)
    decreases |order|
  {
    if order == [] then []
    else
      var before, id := FlushPages(s, order[..|order| - 1]), order[|order| - 1];
      FlushAllStates(s, order[..|order| - 1])
      + if id in before.table then WriteBackStates(before, before.table[id]) else []
  }

  lemma LogFlushedLogged(s: Pool, f: nat)
    requires LoggedFirst(s) && f < |s.frames|
    ensures s.log.segments != [] && s.log.nextLsn > 0 && LoggedFirst(LogFlushed(s, f))
  {
    hide PageLsn, WAL.Dense, WAL.Durable, WAL.FlushUpTo;
    LogBasics(s.log);
    var lsn := PageLsn(s.frames[f].page);
    if lsn != 0 { FlushUpToLogged(s.log, lsn); }
  }

  lemma WriteBackRules(s: Pool, f: nat)
    requires LoggedFirst(s) && f < |s.frames|
    ensures s.log.segments != [] && s.log.nextLsn > 0
    ensures forall k :: 0 <= k < |WriteBackStates(s, f)| ==> RuleHolds(WriteBackStates(s, f)[k])
  {
    hide LoggedFirst, RuleHolds, LogFlushed, WriteOut;
    LogFlushedLogged(s, f);
    CleanedLogged(s, f);
    LoggedFirstRules(LogFlushed(s, f));
    LoggedFirstRules(Cleaned(s, f));
  }

  lemma {:induction false} FlushAllLogged(s: Pool, order: seq<nat>)
    requires Inv(s) && LoggedFirst(s)
    ensures LoggedFirst(FlushPages(s, order))
    ensures forall k :: 0 <= k < |FlushAllStates(s, order)| ==> RuleHolds(FlushAllStates(s, order)[k])
    decreases |order|
  {
    hide LoggedFirst, RuleHolds, Inv, WriteBackStates, Cleaned;
    if order != [] {
      var init, id := order[..|order| - 1], order[|order| - 1];
      FlushAllLogged(s, init);
      var before := FlushPages(s, init);
      if id in before.table {
        TableHolds(before, id);
        CleanedLogged(before, before.table[id]);
        WriteBackRules(before, before.table[id]);
      }
    }
  }

  lemma ClaimLogged(s: Pool)
    requires Inv(s) && LoggedFirst(s)
    ensures LoggedFirst(Claim(s).1) && |Claim(s).1.frames| == |s.frames|
  {
    hide PageLsn, Victim, WAL.Dense, WAL.Durable;
  }

  /** No state during a step, and so no crash in one, finds a page on disk before its record is in a segment. */
  lemma StepPassesRule(t: Session, op: Op)
    requires SessionOk(t) && LoggedFirst(t.pool)
    ensures forall k :: 0 <= k < |StatesDuring(t.pool, op)| ==> RuleHolds(StatesDuring(t.pool, op)[k])
  {
    hide LoggedFirst, RuleHolds, WriteBackStates, FlushAllStates, Claim, TableOk, FramesOk, FreeOk, DiskOk;
    var s := t.pool;
    match op {
      case FetchOp(id, h) =>
        ClaimIsIdle(s);
        ClaimLogged(s);
        var (v, s1) := Claim(s);
        if id !in s.table && v.Some? { WriteBackRules(s1, v.value); }
      case FlushOp(id) =>
        if id in s.table {
          TableHolds(s, id);
          WriteBackRules(s, s.table[id]);
        }
      case FlushAllOp(order) => FlushAllLogged(s, order);
      case _ =>
    }
  }

  /** Every disciplined step of any kind keeps page LSNs handed out and those on disk in segments. */
  lemma StepKeepsRule(t: Session, op: Op)
    requires SessionOk(t) && Enabled(t, op) && Disciplined(t, op) && LoggedFirst(t.pool)
    ensures LoggedFirst(Next(t, op).pool)
  {
    hide PageLsn, Readable, WAL.Dense, WAL.Durable, WAL.Append, WAL.Fits, HandlesOn, Fetch, Cleaned, FlushPages;
    hide TableOk, FreeOk, FramesOk, ClockOk, DiskOk, Lists;
    match op {
      case FetchOp(id, h) => FetchLogged(t.pool, id);
      case DropOp(h) =>
      case WriteOp(h, page) =>
      case FlushOp(id) =>
        if id in t.pool.table {
          TableHolds(t.pool, id);
          CleanedLogged(t.pool, t.pool.table[id]);
        }
      case FlushAllOp(order) => FlushAllLogged(t.pool, order);
      case AppendOp(record) =>
        AppendLogged(t.pool.log, record);
    }
  }

  lemma AppendLogged(w: WAL.Log, record: LR.LogRecord)
    requires WAL.Dense(w) && WAL.Durable(w) && WAL.Fits(w, record)
    ensures var v := WAL.Append(w, record).0;
            WAL.Dense(v) && WAL.Durable(v) && v.flushedLsn == w.flushedLsn && w.nextLsn < v.nextLsn
  {
    WAL.AppendDurableIffFits(w, record);
  }

  /** The write-ahead rule in every state of every disciplined run, and in every state during its steps. */
  lemma {:induction false} RunObeysRule(ts: seq<Session>, ops: seq<Op>, i: nat)
    requires IsRun(ts, ops) && LoggedFirst(ts[0].pool) && i <= |ops|
    requires forall k :: 0 <= k < |ops| ==> Disciplined(ts[k], ops[k])
    ensures RuleHolds(ts[i].pool)
    ensures i < |ops| ==> forall k :: 0 <= k < |StatesDuring(ts[i].pool, ops[i])| ==>
                            RuleHolds(StatesDuring(ts[i].pool, ops[i])[k])
  {
    hide RuleHolds, LoggedFirst, Enabled, Disciplined, Next, StatesDuring, TableOk, FramesOk, FreeOk, ClockOk, DiskOk;
    var k := 0;
    while k < i
      invariant k <= i && LoggedFirst(ts[k].pool)
    {
      StepKeepsRule(ts[k], ops[k]);
      assert ts[k + 1] == Next(ts[k], ops[k]);
      k := k + 1;
    }
    LoggedFirstRules(ts[i].pool);
    if i < |ops| { StepPassesRule(ts[i], ops[i]); }
  }

  /** A pool just started over a disk whose pages are logged can begin a disciplined run. */
  lemma StartOk(n: nat, disk: map<nat, PageImage>, log: WAL.Log)
    requires (forall id :: id in disk ==> Readable(id, disk[id])) && WAL.Dense(log) && WAL.Durable(log)
    requires forall id :: id in disk && id != 0 ==> PageLsn(disk[id]) <= log.flushedLsn
    ensures var t := Session(Start(n, disk, log), map[]); SessionOk(t) && LoggedFirst(t.pool)
  {
    hide Readable, PageLsn;
    LogBasics(log);
    StartInv(n, disk, log);
    assert forall f :: HandlesOn(map[], f) == {};
  }

  // ---------- the pool ----------

  class BufferPoolManager {
    var frames: seq<Frame>
    var table: map<nat, nat>
    var free: seq<nat>
    var disk: map<nat, PageImage>      // the disk manager, by what its write and read do to a page
    const replacer: Replacer
    const wal: WAL.WalManager
    ghost var ruleKept: bool           // each page written so far had its log record in a segment at that moment

    ghost function State(): (s: Pool)
      reads this, replacer, wal
    {
      Pool(frames, table, free, replacer.clock, disk, wal.view)
    }

    ghost predicate Valid()
      reads this, replacer, wal
    {
      replacer.Valid() && wal.Valid() && Inv(State())
    }

    constructor (n: nat, disk: map<nat, PageImage>, wal: WAL.WalManager)
      requires wal.Valid() && forall id :: id in disk ==> Readable(id, disk[id])
      ensures Valid() && fresh(replacer) && this.wal == wal
      ensures State() == Start(n, disk, wal.view) && ruleKept
    {
      hide Readable;
      this.disk, this.wal, ruleKept := disk, wal, true;
      frames := seq(n, i => Frame(INVALID_PAGE_ID, false, false, 0, seq(HEADER_SIZE, j => 0)));
      free := seq(n, i => i);
      table := map[];
      var r := new Replacer(n);
      replacer := r;
      StartInv(n, disk, wal.view);
    }

    lemma StateParts()
      requires Valid()
      ensures replacer.Valid() && wal.Valid() && Inv(State())
      ensures var s := State();
              s.table == table && s.frames == frames && s.clock == replacer.clock && s.log == wal.view
    {
      hide Inv;
    }

    lemma IsValid()
      requires replacer.Valid() && wal.Valid() && Inv(State())
      ensures Valid()
    {
      hide Inv;
    }

    method FetchPage(id: nat) returns (r: Result<nat>)
      requires Valid()
      modifies this, replacer, wal
      ensures Valid() && (State(), r) == Fetch(old(State()), id)
      ensures old(ruleKept && LoggedFirst(State())) ==> ruleKept
    {
      hide *;
      ghost var s := State();
      StateParts();
      FetchInv(s, id);
      if id in table {
        FetchHit(s, id);
        PinCached(table[id]);
        r := Ok(table[id]);
      } else {
        FetchMiss(s, id);
        if LoggedFirst(s) { ClaimLogged(s); }
        r := FetchMissing(id);
      }
      assert (State(), r) == Fetch(s, id);
      IsValid();
    }

    method PinCached(f: nat)
      requires f < |frames| && replacer.Valid()
      modifies `frames, replacer
      ensures replacer.Valid()
      ensures State() == old(State()).(frames := old(frames)[f := old(frames)[f].(pins := old(frames)[f].pins + 1)],
                                       clock := Access(PinFrame(old(replacer.clock), f), f))
    {
      frames := frames[f := frames[f].(pins := frames[f].pins + 1)];
      replacer.Pin(f);
      replacer.RecordAccess(f);
    }

    method FetchMissing(id: nat) returns (r: Result<nat>)
      requires replacer.Valid() && wal.Valid() && id !in table
      requires wal.view.segments != [] && wal.view.nextLsn > 0
      requires var v := Claim(State()).0; v.Some? ==> v.value < |frames|
      modifies this, replacer, wal
      ensures replacer.Valid() && wal.Valid()
      ensures var (v, s1) := Claim(old(State()));
              (State(), r)
              == if v.None? then (s1, Err(InternalError))
                 else var s2 := Vacated(s1, v.value);
                      if id in s2.disk && Readable(id, s2.disk[id]) then (Installed(s2, v.value, id), Ok(v.value))
                      else (Abandoned(s2, v.value), Err(IOError))
      ensures old(ruleKept && LoggedFirst(Claim(State()).1)) ==> ruleKept
    {
      hide Readable, Claim, Vacated, LoggedFirst, Installed, Abandoned, PageLsn, Victim, Access, PinFrame;
      var v := ClaimFrame();
      if v.None? { return Err(InternalError); }
      var f := v.value;
      VacateFrame(f);
      if id !in disk || !Readable(id, disk[id]) {
        ReturnFrame(f);
        return Err(IOError);
      }
      InstallPage(f, id);
      return Ok(f);
    }

    /** The page just read into frame `f` is entered into the table, pinned and counted as accessed. */
    method InstallPage(f: nat, id: nat)
      requires f < |frames| && id in disk && replacer.Valid()
      modifies `frames, `table, replacer
      ensures replacer.Valid() && State() == Installed(old(State()), f, id)
    {
      table := table[id := f];
      frames := frames[f := Frame(id, true, false, frames[f].pins + 1, disk[id])];
      replacer.Pin(f);
      replacer.RecordAccess(f);
    }

    method ClaimFrame() returns (v: Option<nat>)
      requires replacer.Valid()
      modifies `free, replacer
      ensures replacer.Valid() && (v, State()) == Claim(old(State()))
    {
      hide Victim;
      if free != [] {
        v, free := Some(free[0]), free[1..];
      } else {
        v := replacer.ChooseVictim();
      }
    }

    method VacateFrame(f: nat)
      requires f < |frames| && wal.Valid() && wal.view.segments != [] && wal.view.nextLsn > 0
      modifies `frames, `disk, `table, `ruleKept, wal
      ensures wal.Valid() && State() == Vacated(old(State()), f)
      ensures old(ruleKept && LoggedFirst(State())) ==> ruleKept
    {
      hide Cleaned, LoggedFirst;
      WriteBackIfDirty(f);
      if frames[f].valid { table := table - {frames[f].pageId}; }
    }

    method ReturnFrame(f: nat)
      requires f < |frames| && replacer.Valid()
      modifies `free, replacer
      ensures replacer.Valid() && State() == Abandoned(old(State()), f)
    {
      replacer.Pin(f);
      replacer.Unpin(f);
      free := free + [f];
    }

    /**
     * The log up to the page's LSN first, then the page: when page LSNs are LSNs handed out, the page's record
     * is in a segment at the moment the page is written.
     */
    method WriteBackIfDirty(f: nat)
      requires f < |frames| && wal.Valid() && wal.view.segments != [] && wal.view.nextLsn > 0
      modifies `frames, `disk, `ruleKept, wal
      ensures wal.Valid() && State() == Cleaned(old(State()), f)
      ensures old(ruleKept && LoggedFirst(State())) ==> ruleKept
    {
      hide WAL.FlushUpTo, PageLsn, Stored, LoggedFirst, MayBeOnDisk;
      if frames[f].valid && frames[f].dirty {
        var lsn := PageLsn(frames[f].page);
        if LoggedFirst(State()) { FlushedBeforeWrite(State(), f); }
        if lsn != 0 { wal.FlushLogUpTo(lsn); }
        var image := Stored(frames[f].pageId, frames[f].page);
        WriteToDisk(frames[f].pageId, image);
        frames := frames[f := frames[f].(page := image, dirty := false)];
      }
    }

    /** The one place where a page reaches the disk. */
    method WriteToDisk(id: nat, image: PageImage)
      modifies `disk, `ruleKept
      ensures disk == old(disk)[id := image]
      ensures ruleKept == (old(ruleKept) && MayBeOnDisk(wal.view, id, image))
    {
      disk := disk[id := image];
      ruleKept := ruleKept && MayBeOnDisk(wal.view, id, image);
    }

    /** Dropping a page handle. */
    method DropHandle(f: nat)
      requires Valid() && f < |frames| && frames[f].pins > 0
      modifies `frames, replacer
      ensures Valid() && State() == Drop(old(State()), f)
    {
      hide TableOk, FramesOk, FreeOk, ClockOk, DiskOk;
      DropInv(State(), f);
      frames := frames[f := frames[f].(pins := frames[f].pins - 1)];
      if frames[f].pins == 0 { replacer.Unpin(f); }
    }

    /** Write access through a page handle marks the frame dirty. */
    method WriteThrough(f: nat, page: PageImage)
      requires Valid() && f < |frames| && frames[f].pins > 0
      modifies `frames
      ensures Valid() && State() == Write(old(State()), f, page)
    {
      hide TableOk, FramesOk, FreeOk, ClockOk, DiskOk;
      WriteInv(State(), f, page);
      frames := frames[f := frames[f].(page := page, dirty := true)];
    }

    method FlushOne(id: nat)
      requires Valid()
      modifies `frames, `disk, `ruleKept, wal
      ensures Valid() && State() == FlushPage(old(State()), id)
      ensures old(ruleKept && LoggedFirst(State())) ==> ruleKept
    {
      hide TableOk, FramesOk, FreeOk, ClockOk, DiskOk, Cleaned, LoggedFirst;
      FlushPageInv(State(), id);
      if id in table {
        TableHolds(State(), id);
        WriteBackIfDirty(table[id]);
      }
    }

    /**
     * Flushes the cached pages in whatever order the table yields them; afterwards none is dirty, callers see
     * what they saw, and the write-ahead rule was kept at every page.
     */
    method FlushAll() returns (ghost order: seq<nat>)
      requires Valid()
      modifies `frames, `disk, `ruleKept, wal
      ensures Valid() && Lists(order, table.Keys) && State() == FlushPages(old(State()), order)
      ensures table == old(table) && View(State()) == old(View(State()))
      ensures forall id :: id in table ==> id in disk && !frames[table[id]].dirty
      ensures old(LoggedFirst(State())) ==> LoggedFirst(State()) && (old(ruleKept) ==> ruleKept)
    {
      hide View, FlushPage, FlushPages, Inv, LoggedFirst, CleanExcept, Lists;
      var todo := table.Keys;
      order := [];
      ghost var s0 := State();
      FlushNone(s0);
      while todo != {}
        invariant Valid() && table == old(table) && todo <= table.Keys
        invariant Lists(order, table.Keys - todo) && Inv(s0) && State() == FlushPages(s0, order)
        invariant old(ruleKept) && LoggedFirst(s0) ==> ruleKept
        decreases |todo|
      {
        var id :| id in todo;
        if LoggedFirst(s0) { FlushAllLogged(s0, order); }
        FlushOne(id);
        FlushOneMore(s0, order, id, todo);
        order := order + [id];
        todo := todo - {id};
      }
      assert table.Keys - todo == table.Keys;
      FlushEnds(s0, order);
      if LoggedFirst(s0) { FlushAllLogged(s0, order); }
    }
  }

  lemma FlushNone(s: Pool)
    requires Inv(s)
    ensures FlushPages(s, []) == s && Lists([], s.table.Keys - s.table.Keys)
  {
  }

  lemma FlushOneMore(s: Pool, order: seq<nat>, id: nat, todo: set<nat>)
    requires Inv(s) && id in todo && todo <= s.table.Keys && Lists(order, s.table.Keys - todo)
    ensures FlushPages(s, order + [id]) == FlushPage(FlushPages(s, order), id)
    ensures FlushPages(s, order + [id]).table == s.table && Lists(order + [id], s.table.Keys - (todo - {id}))
  {
    hide FlushPage, Inv, View;
    var more := order + [id];
    assert more[..|order|] == order;
    FlushAllCleans(s, more);
  }

  lemma FlushEnds(s: Pool, order: seq<nat>)
    requires Inv(s) && Lists(order, s.table.Keys)
    ensures var r := FlushPages(s, order);
            View(r) == View(s)
            && forall id :: id in r.table ==> id in r.disk && r.table[id] < |r.frames| && !r.frames[r.table[id]].dirty
  {
    hide FlushPages, FlushPage, Inv, View, CleanExcept;
    FlushAllCleans(s, order);
    NothingDirty(FlushPages(s, order), order);
  }

  lemma NothingDirty(s: Pool, order: seq<nat>)
    requires Inv(s) && Lists(order, s.table.Keys) && CleanExcept(s, s.table.Keys - set id | id in order)
    ensures forall id :: id in s.table ==> id in s.disk && s.table[id] < |s.frames| && !s.frames[s.table[id]].dirty
  {
    hide Readable, FramesOk, FreeOk, ClockOk, DiskOk;
  }

  /** Flushing pages one after another leaves each of them clean, and changes nothing that callers see. */
  lemma {:induction false} FlushAllCleans(s: Pool, order: seq<nat>)
    requires Inv(s) && forall id :: id in order ==> id in s.table
    ensures var r := FlushPages(s, order);
            r.table == s.table && View(r) == View(s) && CleanExcept(r, s.table.Keys - set id | id in order)
    decreases |order|
  {
    hide View, FlushPage, FramesOk, FreeOk, ClockOk, DiskOk, Readable;
    if order != [] {
      var init, id := order[..|order| - 1], order[|order| - 1];
      FlushAllCleans(s, init);
      var before := FlushPages(s, init);
      var todo := s.table.Keys - set x | x in init;
      FlushPageInv(before, id);
      FlushCleans(before, id, todo);
      assert order == init + [id];
      assert todo - {id} == s.table.Keys - set x | x in order;
    }
  }

  /** A page flushed before a crash is found on the disk by the next pool as callers last saw it. */
  lemma FlushedSurvives(s: Pool, id: nat, n: nat, log: WAL.Log)
    requires Inv(s) && id in s.table
    ensures var disk := FlushPage(s, id).disk;
            id in disk && View(Start(n, disk, log))[id] == View(s)[id]
  {
    hide Stored, Seen, Readable, FlushPage;
    FlushPageInv(s, id);
    var r := FlushPage(s, id);
    assert View(r)[id] == View(s)[id];
  }

  /** After a flush of all pages a crash loses nothing that callers saw. */
  lemma AllFlushedSurvives(s: Pool, order: seq<nat>, n: nat, log: WAL.Log)
    requires Inv(s) && Lists(order, s.table.Keys)
    ensures View(Start(n, FlushPages(s, order).disk, log)) == View(s)
  {
    hide Stored, Seen, Readable, FlushPages, Lists;
    FlushEnds(s, order);
    CleanSurvives(FlushPages(s, order), n, log);
  }

  lemma CleanSurvives(s: Pool, n: nat, log: WAL.Log)
    requires Inv(s) && forall id :: id in s.table ==> !s.frames[s.table[id]].dirty
    ensures View(Start(n, s.disk, log)) == View(s)
  {
    hide Stored, Seen, Readable;
    var r := Start(n, s.disk, log);
    forall id | id in s.disk
      ensures Shows(r, id) == Shows(s, id)
    {
      if id in s.table { assert Mapped(s, s.table[id]); }
    }
  }

  /** After the log flush a page's record is in a segment, so the page may be written. */
  lemma FlushedBeforeWrite(s: Pool, f: nat)
    requires LoggedFirst(s) && f < |s.frames| && s.frames[f].valid && s.log.segments != [] && s.log.nextLsn > 0
    ensures var frame := s.frames[f];
            MayBeOnDisk(LogFlushed(s, f).log, frame.pageId, Stored(frame.pageId, frame.page))
  {
    hide PageLsn, WAL.Dense, WAL.Durable, WAL.FlushUpTo, WAL.Written, Stored;
    var frame := s.frames[f];
    var lsn := PageLsn(frame.page);
    StoredSeen(frame.pageId, frame.page);
    if lsn != 0 && frame.pageId != 0 {
      FlushUpToLogged(s.log, lsn);
      WrittenUpTo(WAL.FlushUpTo(s.log, lsn), lsn);
    }
  }

  lemma WrittenUpTo(w: WAL.Log, lsn: nat)
    requires WAL.Dense(w) && WAL.Durable(w) && 1 <= lsn <= w.flushedLsn
    ensures WAL.Written(w, lsn)
  {
    WAL.DurableMeansWritten(w);
  }

  ghost predicate CleanExcept(s: Pool, todo: set<nat>)
    requires TableOk(s)
  {
    forall id :: id in s.table && id !in todo ==> !s.frames[s.table[id]].dirty
  }

  lemma FlushCleans(s: Pool, id: nat, todo: set<nat>)
    requires Inv(s) && CleanExcept(s, todo) && id in s.table
    ensures var r := FlushPage(s, id); TableOk(r) && r.table == s.table && CleanExcept(r, todo - {id})
  {
    hide Readable, Stored, PageLsn, WAL.FlushUpTo, FramesOk, FreeOk, ClockOk, DiskOk;
    var f := s.table[id];
    CleanedStructure(s, f);
    var r := Cleaned(s, f);
    forall x | x in s.table && x !in todo - {id}
      ensures !r.frames[s.table[x]].dirty
    {
    }
  }

  lemma LogStarted(s: Pool)
    requires Inv(s)
    ensures s.log.segments != [] && s.log.nextLsn > 0
  {
  }
}
