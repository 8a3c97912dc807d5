/** Second-chance (clock) choice of the frame to evict. */
module ClockReplacer {
  import opened Results

  datatype FrameState = FrameState(isPinned: bool, referenceBit: bool, isEmpty: bool) {
    predicate Evictable() { !isPinned && !isEmpty }
  }

  /** Hand position and per-frame bits. */
  datatype Clock = Clock(hand: nat, frames: seq<FrameState>) {
    predicate Valid() { if |frames| == 0 then hand == 0 else hand < |frames| }

    /** How many frames the hand passes before it reaches `f`. */
    function Distance(f: nat): (d: nat)
      requires Valid() && f < |frames|
      ensures d < |frames|
    {
      if hand <= f then f - hand else f + |frames| - hand
    }

    predicate SecondChanceSpent(f: nat)
      requires f < |frames|
    {
      frames[f].Evictable() && !frames[f].referenceBit
    }
  }

  /** The position `k` frames ahead of the hand. */
  function Ahead(c: Clock, k: nat): (f: nat)
    requires c.Valid() && |c.frames| > 0 && k <= |c.frames|
    ensures f < |c.frames|
    ensures k < |c.frames| ==> c.Distance(f) == k
  {
    if c.hand + k < |c.frames| then c.hand + k else c.hand + k - |c.frames|
  }

  function NextHand(c: Clock): (h: nat)
    requires c.Valid() && |c.frames| > 0
    ensures h == Ahead(c, 1)
  {
    (c.hand + 1) % |c.frames|
  }

  /** The hand moves over one frame that it does not evict, clearing its reference bit. */
  function Pass(c: Clock): (r: Clock)
    requires c.Valid() && |c.frames| > 0
    ensures r.Valid() && |r.frames| == |c.frames|
  {
    var f := c.frames[c.hand];
    Clock(NextHand(c), if f.Evictable() then c.frames[c.hand := f.(referenceBit := false)] else c.frames)
  }

  function Evict(c: Clock): (r: Clock)
    requires c.Valid() && |c.frames| > 0
    ensures r.Valid() && |r.frames| == |c.frames|
  {
    Clock(NextHand(c), c.frames[c.hand := c.frames[c.hand].(isEmpty := true)])
  }

  /** At most `steps` moves of the hand. */
  function Sweep(c: Clock, steps: nat): (r: (Option<nat>, Clock))
    requires c.Valid() && |c.frames| > 0
    ensures r.1.Valid() && |r.1.frames| == |c.frames|
    ensures r.0.Some? ==> r.0.value < |c.frames|
    decreases steps
  {
    if steps == 0 then (None, c)
    else if c.SecondChanceSpent(c.hand) then (Some(c.hand), Evict(c))
    else Sweep(Pass(c), steps - 1)
  }

  function Victim(c: Clock): (r: (Option<nat>, Clock))
    requires c.Valid()
    ensures r.1.Valid() && |r.1.frames| == |c.frames|
    ensures r.0.Some? ==> r.0.value < |c.frames|
  {
    if |c.frames| == 0 then (None, c) else Sweep(c, 2 * |c.frames|)
  }

  /** The bits after the hand has moved `k` frames past `c` without evicting. */
  function Passed(c: Clock, k: nat): (frames: seq<FrameState>)
    requires c.Valid()
    ensures |frames| == |c.frames|
  {
    seq(|c.frames|, f requires 0 <= f < |c.frames| =>
      if c.frames[f].Evictable() && c.Distance(f) < k
      then c.frames[f].(referenceBit := false) else c.frames[f])
  }

  /** None of the first `k` frames from the hand would be evicted. */
  ghost predicate QuietFor(c: Clock, k: nat)
    requires c.Valid()
  {
    forall f :: 0 <= f < |c.frames| && c.Distance(f) < k ==> !c.SecondChanceSpent(f)
  }

  lemma PassDistance(c: Clock, f: nat)
    requires c.Valid() && f < |c.frames|
    ensures Pass(c).Distance(f) == if f == c.hand then |c.frames| - 1 else c.Distance(f) - 1
  {
  }

  lemma PassMovesOne(c: Clock, k: nat)
    requires c.Valid() && 0 < k <= |c.frames|
    ensures Passed(Pass(c), k - 1) == Passed(c, k)
    ensures Ahead(Pass(c), k - 1) == Ahead(c, k)
  {
    forall f | 0 <= f < |c.frames|
      ensures Passed(Pass(c), k - 1)[f] == Passed(c, k)[f]
    {
      PassDistance(c, f);
    }
  }

  lemma PassKeepsQuiet(c: Clock, k: nat)
    requires c.Valid() && 0 < k <= |c.frames| && QuietFor(c, k)
    ensures QuietFor(Pass(c), k - 1)
  {
    forall f | 0 <= f < |c.frames| && Pass(c).Distance(f) < k - 1
      ensures !Pass(c).SecondChanceSpent(f)
    {
      PassDistance(c, f);
    }
  }

  lemma QuietNow(c: Clock, k: nat)
    requires c.Valid() && 0 < k && QuietFor(c, k)
    ensures QuietFor(c, 1)
  {
  }

  lemma NonePassed(c: Clock)
    requires c.Valid() && 0 < |c.frames|
    ensures Clock(Ahead(c, 0), Passed(c, 0)) == c
  {
    assert Passed(c, 0) == c.frames;
  }

  lemma SweepStep(c: Clock, steps: nat)
    requires c.Valid() && 0 < |c.frames| && 0 < steps && QuietFor(c, 1)
    ensures Sweep(c, steps) == Sweep(Pass(c), steps - 1)
  {
    assert c.Distance(c.hand) == 0;
  }

  lemma {:induction false} SweepOver(c: Clock, k: nat, steps: nat)
    requires c.Valid() && 0 < |c.frames| && k <= |c.frames| && k <= steps && QuietFor(c, k)
    ensures Sweep(c, steps) == Sweep(Clock(Ahead(c, k), Passed(c, k)), steps - k)
    decreases k
  {
    hide Passed, Ahead, Sweep, QuietFor;
    if k == 0 {
      NonePassed(c);
    } else {
      PassMovesOne(c, k);
      PassKeepsQuiet(c, k);
      QuietNow(c, k);
      SweepStep(c, steps);
      SweepOver(Pass(c), k - 1, steps - 1);
    }
  }

  // ---------- what the sweep chooses ----------

  predicate EvictableAt(c: Clock, f: nat) {
    f < |c.frames| && c.frames[f].Evictable()
  }

  /** An evictable frame that has already had its second chance. */
  predicate SpentAt(c: Clock, f: nat) {
    f < |c.frames| && c.SecondChanceSpent(f)
  }

  ghost predicate NoneEvictable(c: Clock) {
    forall f: nat :: !EvictableAt(c, f)
  }

  ghost predicate NoneSpent(c: Clock) {
    forall f: nat :: !SpentAt(c, f)
  }

  /** The evictable frame that the hand reaches first. */
  ghost predicate FirstEvictable(c: Clock, f: nat)
    requires c.Valid()
  {
    EvictableAt(c, f) && forall g: nat :: EvictableAt(c, g) ==> c.Distance(f) <= c.Distance(g)
  }

  /** The frame with a spent second chance that the hand reaches first. */
  ghost predicate FirstSpent(c: Clock, f: nat)
    requires c.Valid()
  {
    SpentAt(c, f) && forall g: nat :: SpentAt(c, g) ==> c.Distance(f) <= c.Distance(g)
  }

  lemma ExistsFirstSpent(c: Clock, g: nat) returns (f: nat)
    requires c.Valid() && SpentAt(c, g)
    ensures FirstSpent(c, f)
    decreases c.Distance(g)
  {
    if h: nat :| SpentAt(c, h) && c.Distance(h) < c.Distance(g) {
      f := ExistsFirstSpent(c, h);
    } else {
      f := g;
    }
  }

  /** The clock once `f`, reached after the bits in `frames` were cleared, is evicted. */
  function Evicted(frames: seq<FrameState>, f: nat): (c: Clock)
    requires f < |frames|
  {
    Clock(if f + 1 == |frames| then 0 else f + 1, frames[f := frames[f].(isEmpty := true)])
  }

  lemma SweepFinds(c: Clock, f: nat, steps: nat)
    requires c.Valid() && 0 < |c.frames| <= steps && FirstSpent(c, f)
    ensures Sweep(c, steps) == (Some(f), Evicted(Passed(c, c.Distance(f)), f))
  {
    var k := c.Distance(f);
    forall g | 0 <= g < |c.frames| && c.Distance(g) < k
      ensures !c.SecondChanceSpent(g)
    {
      assert !SpentAt(c, g);
    }
    SweepOver(c, k, steps);
    assert Ahead(c, k) == f;
    assert Passed(c, k)[f] == c.frames[f];
  }

  /** The clock after one full turn over frames none of which is evicted. */
  function Turned(c: Clock): (d: Clock)
    requires c.Valid()
    ensures d.Valid() && |d.frames| == |c.frames| && d.hand == c.hand
  {
    Clock(c.hand, Passed(c, |c.frames|))
  }

  lemma FullTurn(c: Clock, steps: nat)
    requires c.Valid() && 0 < |c.frames| <= steps && NoneSpent(c)
    ensures Sweep(c, steps) == Sweep(Turned(c), steps - |c.frames|)
  {
    forall g | 0 <= g < |c.frames| ensures !c.SecondChanceSpent(g) { assert !SpentAt(c, g); }
    SweepOver(c, |c.frames|, steps);
  }

  lemma TurnedFrames(c: Clock)
    requires c.Valid()
    ensures forall f: nat :: SpentAt(Turned(c), f) <==> EvictableAt(c, f)
    ensures forall k: nat :: Passed(Turned(c), k) == Turned(c).frames
    ensures NoneEvictable(c) ==> Turned(c) == c
  {
    var d := Turned(c);
    forall f: nat
      ensures SpentAt(d, f) <==> EvictableAt(c, f)
    {
      if f < |c.frames| { assert c.Distance(f) < |c.frames|; }
    }
    forall k: nat
      ensures Passed(d, k) == d.frames
    {
      assert forall f :: 0 <= f < |c.frames| ==> Passed(d, k)[f] == d.frames[f];
    }
    if NoneEvictable(c) {
      forall f | 0 <= f < |c.frames|
        ensures d.frames[f] == c.frames[f]
      {
        assert !EvictableAt(c, f);
      }
    }
  }

  lemma SecondTurn(c: Clock)
    requires c.Valid() && 0 < |c.frames| && NoneSpent(c)
    ensures NoneEvictable(c) ==> Victim(c) == (None, c)
    ensures !NoneEvictable(c) ==>
              Victim(c).0.Some? && FirstEvictable(c, Victim(c).0.value)
              && Victim(c).1 == Evicted(Turned(c).frames, Victim(c).0.value)
  {
    var n := |c.frames|;
    FullTurn(c, 2 * n);
    TurnedFrames(c);
    var d := Turned(c);
    if NoneEvictable(c) {
      FullTurn(c, n);
    } else {
      var g: nat :| EvictableAt(c, g);
      var f := ExistsFirstSpent(d, g);
      assert forall h :: 0 <= h < n ==> d.Distance(h) == c.Distance(h);
      SweepFinds(d, f, n);
    }
  }

  /**
   * The victim, exactly: nothing when no frame is evictable; the first evictable frame with a clear
   * reference bit; or, when every evictable frame is referenced, the first evictable frame, found on
   * the second turn. The bits cleared are those of the evictable frames the hand passed.
   */
  lemma VictimExact(c: Clock)
    requires c.Valid()
    ensures Victim(c).0.None? <==> NoneEvictable(c)
    ensures Victim(c).0.None? ==> Victim(c).1 == c
    ensures Victim(c).0.Some? && !NoneSpent(c) ==>
              var f := Victim(c).0.value;
              FirstSpent(c, f) && Victim(c).1 == Evicted(Passed(c, c.Distance(f)), f)
    ensures Victim(c).0.Some? && NoneSpent(c) ==>
              var f := Victim(c).0.value;
              FirstEvictable(c, f) && Victim(c).1 == Evicted(Turned(c).frames, f)
  {
    if !NoneSpent(c) {
      var g: nat :| SpentAt(c, g);
      var f := ExistsFirstSpent(c, g);
      SweepFinds(c, f, 2 * |c.frames|);
      assert EvictableAt(c, f);
    } else if |c.frames| > 0 {
      SecondTurn(c);
    }
  }

  // ---------- the replacer ----------

  class Replacer {
    var clock: Clock

    ghost predicate Valid()
      reads this
    {
      clock.Valid()
    }

    constructor (n: nat)
      ensures Valid()
      ensures clock == Clock(0, seq(n, i => FrameState(false, false, true)))
    {
      clock := Clock(0, seq(n, i => FrameState(false, false, true)));
    }

    /** Two turns of the hand at most. */
    method ChooseVictim() returns (r: Option<nat>)
      requires Valid()
      modifies this
      ensures Valid() && (r, clock) == Victim(old(clock))
    {
      var n := |clock.frames|;
      if n == 0 { return None; }
      var i := 0;
      while i < n * 2
        invariant 0 <= i <= 2 * n && Valid() && |clock.frames| == n
        invariant Sweep(clock, 2 * n - i) == Victim(old(clock))
      {
        var f, next := clock.frames[clock.hand], NextHand(clock);
        if f.isPinned || f.isEmpty {
          clock := Clock(next, clock.frames);
        } else if f.referenceBit {
          clock := Clock(next, clock.frames[clock.hand := f.(referenceBit := false)]);
        } else {
          r := Some(clock.hand);
          clock := Clock(next, clock.frames[clock.hand := f.(isEmpty := true)]);
          return;
        }
        i := i + 1;
      }
      return None;
    }

    /** The frame is no candidate any more; every other frame is what it was. */
    method Pin(f: nat)
      requires Valid()
      modifies this
      ensures Valid() && clock == PinFrame(old(clock), f)
      ensures forall g: nat :: Referenced(clock, g) <==> Referenced(old(clock), g)
      ensures forall g: nat :: EvictableAt(clock, g) <==> g != f && EvictableAt(old(clock), g)
      ensures forall g: nat :: SpentAt(clock, g) <==> g != f && SpentAt(old(clock), g)
    {
      if f >= |clock.frames| { return; }
      clock := clock.(frames := clock.frames[f := clock.frames[f].(isPinned := true, isEmpty := false)]);
    }

    /** The frame becomes a candidate, with the reference bit it had. */
    method Unpin(f: nat)
      requires Valid()
      modifies this
      ensures Valid() && clock == UnpinFrame(old(clock), f)
      ensures forall g: nat :: EvictableAt(clock, g) <==> EvictableAt(old(clock), g) || g == f < |clock.frames|
      ensures forall g: nat :: Referenced(clock, g) <==> Referenced(old(clock), g)
    {
      if f >= |clock.frames| { return; }
      clock := clock.(frames := clock.frames[f := clock.frames[f].(isPinned := false, isEmpty := false)]);
    }

    /** The candidates stay the same; the frame gets its second chance back. */
    method RecordAccess(f: nat)
      requires Valid()
      modifies this
      ensures Valid() && clock == Access(old(clock), f)
      ensures forall g: nat :: Referenced(clock, g) <==> Referenced(old(clock), g) || g == f < |clock.frames|
      ensures forall g: nat :: EvictableAt(clock, g) <==> EvictableAt(old(clock), g)
      ensures forall g: nat :: SpentAt(clock, g) <==> g != f && SpentAt(old(clock), g)
    {
      if f >= |clock.frames| { return; }
      clock := clock.(frames := clock.frames[f := clock.frames[f].(referenceBit := true)]);
    }
  }

  predicate Referenced(c: Clock, f: nat) {
    f < |c.frames| && c.frames[f].referenceBit
  }

  function PinFrame(c: Clock, f: nat): (r: Clock) {
    if f >= |c.frames| then c
    else c.(frames := c.frames[f := c.frames[f].(isPinned := true, isEmpty := false)])
  }

  function UnpinFrame(c: Clock, f: nat): (r: Clock) {
    if f >= |c.frames| then c
    else c.(frames := c.frames[f := c.frames[f].(isPinned := false, isEmpty := false)])
  }

  function Access(c: Clock, f: nat): (r: Clock) {
    if f >= |c.frames| then c
    else c.(frames := c.frames[f := c.frames[f].(referenceBit := true)])
  }

  /** A pinned frame is never the victim, and pinning only ever takes that one frame out of the choice. */
  lemma PinProtects(c: Clock, f: nat)
    requires c.Valid()
    ensures Victim(PinFrame(c, f)).0 != Some(f)
    ensures Victim(PinFrame(c, f)).0.None? <==> forall g: nat :: EvictableAt(c, g) ==> g == f
  {
    hide Victim;
    VictimExact(PinFrame(c, f));
    assert forall g: nat :: EvictableAt(PinFrame(c, f), g) <==> g != f && EvictableAt(c, g);
  }

  /** Unpinning undoes pinning for every candidate. */
  lemma UnpinUndoesPin(c: Clock, f: nat)
    requires EvictableAt(c, f)
    ensures UnpinFrame(PinFrame(c, f), f) == c
  {
    assert c.frames[f := c.frames[f]] == c.frames;
  }

  /** A frame just accessed is the victim only when no candidate has a clear reference bit. */
  lemma AccessDefers(c: Clock, f: nat)
    requires c.Valid() && Victim(Access(c, f)).0 == Some(f)
    ensures forall g: nat :: g != f ==> !SpentAt(c, g)
  {
    hide Victim;
    VictimExact(Access(c, f));
    assert forall g: nat :: SpentAt(Access(c, f), g) <==> g != f && SpentAt(c, g);
  }
}
