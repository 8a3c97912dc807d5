/** Lock modes, and the grant, wait, upgrade and release steps of the lock table. */
module LockManager {
  import opened Results
  import opened WaitForGraph

  datatype LockMode = Shared | Exclusive | IntentShared | IntentExclusive | SharedIntentExclusive

  predicate IsCompatible(existing: LockMode, requested: LockMode) {
    match existing
    case IntentShared => requested != Exclusive
    case IntentExclusive => requested == IntentShared || requested == IntentExclusive
    case Shared => requested == IntentShared || requested == Shared
    case SharedIntentExclusive => requested == IntentShared
    case Exclusive => false
  }

  lemma CompatibilitySymmetric(a: LockMode, b: LockMode)
    ensures IsCompatible(a, b) == IsCompatible(b, a)
  {
  }

  // What a mode lets its holder do: read or write everything the resource contains, or only some parts of it.
  predicate ReadsAll(m: LockMode) { m == Shared || m == SharedIntentExclusive || m == Exclusive }
  predicate WritesAll(m: LockMode) { m == Exclusive }
  predicate WritesSome(m: LockMode) { m == IntentExclusive || m == SharedIntentExclusive || m == Exclusive }

  /** Every mode reads some parts, so one that writes everything excludes all others. */
  predicate Excludes(a: LockMode, b: LockMode) {
    WritesAll(a) || (ReadsAll(a) && WritesSome(b))
  }

  /** The compatibility table says exactly that neither mode excludes what the other may do. */
  lemma CompatibilityExact(a: LockMode, b: LockMode)
    ensures IsCompatible(a, b) <==> !Excludes(a, b) && !Excludes(b, a)
  {
  }

  datatype Request = Request(txn: Txn, mode: LockMode)

  /** One resource's holders and queue. */
  datatype LockState = LockState(holders: map<Txn, LockMode>, waiters: seq<Request>)

  datatype Outcome = Granted | Waiting

  predicate CanGrant(s: LockState, mode: LockMode) {
    forall t :: t in s.holders ==> IsCompatible(s.holders[t], mode)
  }

  predicate OthersAllow(s: LockState, txn: Txn, mode: LockMode) {
    forall t :: t in s.holders && t != txn ==> IsCompatible(s.holders[t], mode)
  }

  predicate IsWaiting(s: LockState, txn: Txn) {
    exists i :: 0 <= i < |s.waiters| && s.waiters[i].txn == txn
  }

  /** A request up to the point where it returns or starts to wait. */
  function Ask(s: LockState, txn: Txn, mode: LockMode): (r: (LockState, Outcome)) {
    if txn in s.holders then
      var held := s.holders[txn];
      if held == mode || IsCompatible(mode, held) then (s, Granted)
      else if OthersAllow(s, txn, mode) then (s.(holders := s.holders[txn := mode]), Granted)
      else (s.(waiters := [Request(txn, mode)] + s.waiters), Waiting)
    else if s.waiters == [] && CanGrant(s, mode) then (s.(holders := s.holders[txn := mode]), Granted)
    else (s.(waiters := s.waiters + [Request(txn, mode)]), Waiting)
  }

  /** The wait predicate, and the grant when it holds. */
  function Wake(s: LockState, txn: Txn): (r: (LockState, Outcome)) {
    if s.waiters != [] && s.waiters[0].txn == txn && CanGrant(s, s.waiters[0].mode) then
      (LockState(s.holders[txn := s.waiters[0].mode], s.waiters[1..]), Granted)
    else (s, Waiting)
  }

  function RemoveRequests(ws: seq<Request>, txn: Txn): (r: seq<Request>)
  {
    if ws == [] then []
    else if ws[0].txn == txn then RemoveRequests(ws[1..], txn)
    else [ws[0]] + RemoveRequests(ws[1..], txn)
  }

  /** A waiter that timed out or was aborted leaves the queue. */
  function GiveUp(s: LockState, txn: Txn): (r: LockState) {
    s.(waiters := RemoveRequests(s.waiters, txn))
  }

  function Release(s: LockState, txn: Txn): (r: LockState) {
    s.(holders := s.holders - {txn})
  }

  /** Holding `held` rules out everything that holding `mode` would: the holder is served as well as by `mode`. */
  ghost predicate Covers(held: LockMode, mode: LockMode) {
    forall other :: IsCompatible(held, other) ==> IsCompatible(mode, other)
  }

  /**
   * A holder whose repeated request is granted may end up with less than it asked for, or less than it had.
   * It has what it asked for unless it held the intention to read and asked for more that is compatible with
   * it; it keeps what it had if and only if the request changed nothing or the new mode covers the old.
   */
  lemma RepeatedRequestExact(s: LockState, txn: Txn, mode: LockMode)
    requires txn in s.holders && Ask(s, txn, mode).1.Granted?
    ensures var held, after := s.holders[txn], Ask(s, txn, mode).0.holders[txn];
            (Covers(after, mode) <==> !(held == IntentShared && mode != IntentShared && mode != Exclusive))
            && (Covers(after, held) <==> held == mode || IsCompatible(mode, held) || Covers(mode, held))
  {
    var held, after := s.holders[txn], Ask(s, txn, mode).0.holders[txn];
    assert after == if held == mode || IsCompatible(mode, held) then held else mode;
    assert IsCompatible(IntentShared, Shared) && IsCompatible(IntentShared, IntentExclusive);
    assert !IsCompatible(Shared, IntentExclusive) && !IsCompatible(IntentExclusive, Shared);
    assert !IsCompatible(SharedIntentExclusive, Shared);
  }

  /** The only holder of an exclusive lock that asks to read is granted, and is then only a reader. */
  lemma ExclusiveHolderDowngraded(txn: Txn)
    ensures var s := LockState(map[txn := Exclusive], []);
            Ask(s, txn, Shared) == (LockState(map[txn := Shared], []), Granted) && !Covers(Shared, Exclusive)
  {
    var s := LockState(map[txn := Exclusive], []);
    assert s.holders[txn := Shared] == map[txn := Shared];
    assert IsCompatible(Shared, Shared) && !IsCompatible(Exclusive, Shared);
  }

  // ---------- the invariant ----------

  /** Distinct holders are pairwise compatible. */
  ghost predicate HoldersCompatible(s: LockState) {
    forall a, b :: a in s.holders && b in s.holders && a != b ==> IsCompatible(s.holders[a], s.holders[b])
  }

  /**
   * A transaction waits at most once; a waiter that already holds a lock waits for a mode that its own
   * lock excludes, and stands before every waiter that holds none.
   */
  ghost predicate QueueOk(s: LockState) {
    (forall i, j :: 0 <= i < j < |s.waiters| ==> s.waiters[i].txn != s.waiters[j].txn)
    && (forall i :: 0 <= i < |s.waiters| && s.waiters[i].txn in s.holders ==>
          !IsCompatible(s.holders[s.waiters[i].txn], s.waiters[i].mode))
    && (forall i, j :: 0 <= i < j < |s.waiters| && s.waiters[j].txn in s.holders ==>
          s.waiters[i].txn in s.holders)
  }

  /** Waiters that hold no lock stand in the order in which they arrived. */
  ghost predicate ArrivalOrder(s: LockState, arrival: map<Txn, nat>) {
    (forall i :: 0 <= i < |s.waiters| ==> s.waiters[i].txn in arrival)
    && (forall i, j :: 0 <= i < j < |s.waiters| && s.waiters[i].txn !in s.holders ==>
          arrival[s.waiters[i].txn] < arrival[s.waiters[j].txn])
  }

  ghost predicate Inv(s: LockState) {
    HoldersCompatible(s) && QueueOk(s)
  }

  /** An exclusive holder is alone. */
  lemma ExclusiveIsAlone(s: LockState, t: Txn, a: Txn)
    requires Inv(s) && t in s.holders && s.holders[t] == Exclusive && a in s.holders
    ensures a == t
  {
  }

  lemma SetHolderCompatible(s: LockState, txn: Txn, mode: LockMode)
    requires HoldersCompatible(s) && OthersAllow(s, txn, mode)
    ensures HoldersCompatible(s.(holders := s.holders[txn := mode]))
  {
    forall a | a in s.holders && a != txn
      ensures IsCompatible(mode, s.holders[a])
    {
      CompatibilitySymmetric(s.holders[a], mode);
    }
  }

  /** A holder queued for an upgrade goes to the front. */
  lemma UpgradeQueued(s: LockState, r: Request)
    requires QueueOk(s) && !IsWaiting(s, r.txn) && r.txn in s.holders
    requires !IsCompatible(s.holders[r.txn], r.mode)
    ensures QueueOk(s.(waiters := [r] + s.waiters))
  {
    hide IsCompatible;
    var ws := [r] + s.waiters;
    assert forall i :: 0 <= i < |s.waiters| ==> s.waiters[i].txn != r.txn;
    assert forall i :: 0 < i < |ws| ==> ws[i] == s.waiters[i - 1];
  }

  /** A newcomer goes to the back. */
  lemma NewcomerQueued(s: LockState, r: Request)
    requires QueueOk(s) && !IsWaiting(s, r.txn) && r.txn !in s.holders
    ensures QueueOk(s.(waiters := s.waiters + [r]))
  {
    hide IsCompatible;
    var ws := s.waiters + [r];
    assert forall i :: 0 <= i < |s.waiters| ==> s.waiters[i].txn != r.txn && ws[i] == s.waiters[i];
  }

  lemma HolderChanged(s: LockState, txn: Txn, mode: LockMode)
    requires QueueOk(s) && !IsWaiting(s, txn) && (txn in s.holders || s.waiters == [])
    ensures QueueOk(s.(holders := s.holders[txn := mode]))
  {
    hide IsCompatible;
    assert forall i :: 0 <= i < |s.waiters| ==> s.waiters[i].txn != txn;
  }

  lemma AskInv(s: LockState, txn: Txn, mode: LockMode)
    requires Inv(s) && !IsWaiting(s, txn)
    ensures Inv(Ask(s, txn, mode).0)
  {
    hide IsCompatible, QueueOk, HoldersCompatible, IsWaiting;
    var (r, o) := Ask(s, txn, mode);
    if o.Granted? && r != s {
      SetHolderCompatible(s, txn, mode);
      HolderChanged(s, txn, mode);
    } else if o.Waiting? {
      SameHolders(s, r);
      if txn in s.holders {
        CompatibilitySymmetric(s.holders[txn], mode);
        UpgradeQueued(s, Request(txn, mode));
      } else {
        NewcomerQueued(s, Request(txn, mode));
      }
    }
  }

  lemma SameHolders(s: LockState, r: LockState)
    requires HoldersCompatible(s) && r.holders == s.holders
    ensures HoldersCompatible(r)
  {
  }

  /**
   * A waiting request is granted exactly when it is first in the queue, compatible with every holder,
   * and its transaction holds nothing there: a queued upgrade is never granted.
   */
  lemma WakeExact(s: LockState, txn: Txn)
    requires Inv(s)
    ensures Inv(Wake(s, txn).0)
    ensures Wake(s, txn).1.Granted? <==>
            s.waiters != [] && s.waiters[0].txn == txn && txn !in s.holders && CanGrant(s, s.waiters[0].mode)
  {
    hide IsCompatible;
    var (r, o) := Wake(s, txn);
    if o.Granted? {
      SetHolderCompatible(s, txn, s.waiters[0].mode);
      assert forall i :: 0 <= i < |r.waiters| ==> r.waiters[i] == s.waiters[i + 1];
    }
  }

  lemma {:induction false} RemoveAbsent(ws: seq<Request>, txn: Txn)
    requires forall i :: 0 <= i < |ws| ==> ws[i].txn != txn
    ensures RemoveRequests(ws, txn) == ws
  {
    if ws != [] {
      RemoveAbsent(ws[1..], txn);
    }
  }

  lemma {:induction false} RemoveOnly(ws: seq<Request>, txn: Txn, i: nat)
    requires forall j, k :: 0 <= j < k < |ws| ==> ws[j].txn != ws[k].txn
    requires i < |ws| && ws[i].txn == txn
    ensures RemoveRequests(ws, txn) == ws[..i] + ws[i + 1..]
  {
    if i == 0 {
      RemoveAbsent(ws[1..], txn);
    } else {
      RemoveOnly(ws[1..], txn, i - 1);
    }
  }

  /** Giving up removes the transaction's request and keeps the queue's order. */
  lemma GiveUpKeeps(s: LockState, txn: Txn) returns (at: nat)
    requires QueueOk(s)
    ensures at <= |s.waiters|
    ensures at < |s.waiters| ==> s.waiters[at].txn == txn
    ensures at == |s.waiters| ==> !IsWaiting(s, txn) && GiveUp(s, txn) == s
    ensures at < |s.waiters| ==> GiveUp(s, txn).waiters == s.waiters[..at] + s.waiters[at + 1..]
  {
    if i :| 0 <= i < |s.waiters| && s.waiters[i].txn == txn {
      at := i;
      RemoveOnly(s.waiters, txn, i);
    } else {
      at := |s.waiters|;
      RemoveAbsent(s.waiters, txn);
    }
  }

  /** Position `i` of the shortened queue, seen in the original one. */
  function Original(i: nat, at: nat): nat {
    if i < at then i else i + 1
  }

  lemma GiveUpInv(s: LockState, txn: Txn)
    requires Inv(s)
    ensures Inv(GiveUp(s, txn)) && !IsWaiting(GiveUp(s, txn), txn)
  {
    hide IsCompatible, HoldersCompatible, RemoveRequests;
    var at := GiveUpKeeps(s, txn);
    var r := GiveUp(s, txn);
    SameHolders(s, r);
    if at < |s.waiters| {
      forall i | 0 <= i < |r.waiters|
        ensures r.waiters[i] == s.waiters[Original(i, at)] && r.waiters[i].txn != txn
      {
      }
    }
  }

  lemma ReleaseInv(s: LockState, txn: Txn)
    requires Inv(s) && !IsWaiting(s, txn)
    ensures Inv(Release(s, txn))
  {
    hide IsCompatible;
    assert forall i :: 0 <= i < |s.waiters| ==> s.waiters[i].txn != txn;
  }

  lemma EmptyInv()
    ensures Inv(LockState(map[], []))
  {
  }

  // ---------- runs ----------

  /** One resource with the arrival times of its waiters. */
  datatype Timeline = Timeline(state: LockState, arrival: map<Txn, nat>, clock: nat)

  datatype Op = AskOp(txn: Txn, mode: LockMode) | WakeOp(txn: Txn) | GiveUpOp(txn: Txn) | ReleaseOp(txn: Txn)

  /** A transaction that waits issues no other request and releases nothing. */
  ghost predicate Enabled(s: LockState, op: Op) {
    op.AskOp? || op.ReleaseOp? ==> !IsWaiting(s, op.txn)
  }

  function Next(h: Timeline, op: Op): (r: Timeline) {
    match op
    case AskOp(t, mode) =>
      var (s, o) := Ask(h.state, t, mode);
      Timeline(s, if o.Waiting? then h.arrival[t := h.clock] else h.arrival, h.clock + 1)
    case WakeOp(t) => h.(state := Wake(h.state, t).0)
    case GiveUpOp(t) => h.(state := GiveUp(h.state, t))
    case ReleaseOp(t) => h.(state := Release(h.state, t))
  }

  ghost predicate TimelineOk(h: Timeline) {
    Inv(h.state) && ArrivalOrder(h.state, h.arrival)
    && forall t :: t in h.arrival ==> h.arrival[t] < h.clock
  }

  lemma FrontOrder(s: LockState, arrival: map<Txn, nat>, r: Request, now: nat)
    requires ArrivalOrder(s, arrival) && !IsWaiting(s, r.txn) && r.txn in s.holders
    ensures ArrivalOrder(s.(waiters := [r] + s.waiters), arrival[r.txn := now])
  {
    var ws := [r] + s.waiters;
    assert forall i :: 0 <= i < |s.waiters| ==> s.waiters[i].txn != r.txn;
    assert forall i :: 0 < i < |ws| ==> ws[i] == s.waiters[i - 1];
  }

  lemma BackOrder(s: LockState, arrival: map<Txn, nat>, r: Request, now: nat)
    requires ArrivalOrder(s, arrival) && !IsWaiting(s, r.txn)
    requires forall t :: t in arrival ==> arrival[t] < now
    ensures ArrivalOrder(s.(waiters := s.waiters + [r]), arrival[r.txn := now])
  {
    var ws := s.waiters + [r];
    assert forall i :: 0 <= i < |s.waiters| ==> s.waiters[i].txn != r.txn && ws[i] == s.waiters[i];
  }

  lemma OrderAsk(h: Timeline, t: Txn, mode: LockMode)
    requires TimelineOk(h) && !IsWaiting(h.state, t)
    ensures var r := Next(h, AskOp(t, mode)); ArrivalOrder(r.state, r.arrival)
  {
    hide IsCompatible, CanGrant, OthersAllow, HoldersCompatible, QueueOk, IsWaiting;
    if Ask(h.state, t, mode).1.Waiting? {
      if t in h.state.holders {
        FrontOrder(h.state, h.arrival, Request(t, mode), h.clock);
      } else {
        BackOrder(h.state, h.arrival, Request(t, mode), h.clock);
      }
    }
  }

  lemma OrderWake(h: Timeline, t: Txn)
    requires TimelineOk(h)
    ensures var r := Next(h, WakeOp(t)); ArrivalOrder(r.state, r.arrival)
  {
    hide IsCompatible, CanGrant, HoldersCompatible;
    var r := Wake(h.state, t).0;
    if Wake(h.state, t).1.Granted? {
      assert forall i :: 0 <= i < |r.waiters| ==> r.waiters[i] == h.state.waiters[i + 1];
    }
  }

  lemma OrderGiveUp(h: Timeline, t: Txn)
    requires TimelineOk(h)
    ensures var r := Next(h, GiveUpOp(t)); ArrivalOrder(r.state, r.arrival)
  {
    hide IsCompatible, HoldersCompatible, RemoveRequests;
    var at := GiveUpKeeps(h.state, t);
    var r := GiveUp(h.state, t);
    if at < |h.state.waiters| {
      assert forall i :: 0 <= i < |r.waiters| ==> r.waiters[i] == h.state.waiters[Original(i, at)];
    }
  }

  lemma OrderRelease(h: Timeline, t: Txn)
    requires TimelineOk(h) && !IsWaiting(h.state, t)
    ensures var r := Next(h, ReleaseOp(t)); ArrivalOrder(r.state, r.arrival)
  {
    hide IsCompatible, HoldersCompatible;
    assert forall i :: 0 <= i < |h.state.waiters| ==> h.state.waiters[i].txn != t;
  }

  lemma StepOk(h: Timeline, op: Op)
    requires TimelineOk(h) && Enabled(h.state, op)
    ensures TimelineOk(Next(h, op))
  {
    hide Inv, ArrivalOrder, Wake, GiveUp, Release, Ask, IsWaiting;
    match op {
      case AskOp(t, mode) => AskInv(h.state, t, mode); OrderAsk(h, t, mode);
      case WakeOp(t) => WakeExact(h.state, t); OrderWake(h, t);
      case GiveUpOp(t) => GiveUpInv(h.state, t); OrderGiveUp(h, t);
      case ReleaseOp(t) => ReleaseInv(h.state, t); OrderRelease(h, t);
    }
  }

  /** The operation makes a transaction a holder that held nothing before. */
  ghost predicate NewlyGranted(h: Timeline, op: Op) {
    op.txn !in h.state.holders && op.txn in Next(h, op).state.holders
  }

  /** When the granted request arrived: now, or when it joined the queue. */
  ghost function ArrivedAt(h: Timeline, op: Op): nat {
    if op.AskOp? || op.txn !in h.arrival then h.clock else h.arrival[op.txn]
  }

  /** A non-holder's request is never granted before an earlier one that is still waiting. */
  lemma GrantsAreFair(h: Timeline, op: Op, i: nat)
    requires TimelineOk(h) && Enabled(h.state, op) && NewlyGranted(h, op)
    requires i < |Next(h, op).state.waiters|
    ensures var w := Next(h, op).state.waiters[i].txn;
            w in h.arrival && ArrivedAt(h, op) < h.arrival[w]
  {
    hide IsCompatible, CanGrant, OthersAllow;
    var r := Next(h, op).state;
    if op.WakeOp? {
      assert r.waiters[i] == h.state.waiters[i + 1];
    }
  }

  ghost predicate IsRun(hs: seq<Timeline>, ops: seq<Op>) {
    |hs| == |ops| + 1 && hs[0] == Timeline(LockState(map[], []), map[], 0)
    && forall i :: 0 <= i < |ops| ==> Enabled(hs[i].state, ops[i]) && hs[i + 1] == Next(hs[i], ops[i])
  }

  /** In every state of every run the holders are pairwise compatible and the queue is fair. */
  lemma {:induction false} RunOk(hs: seq<Timeline>, ops: seq<Op>, i: nat)
    requires IsRun(hs, ops) && i <= |ops|
    ensures TimelineOk(hs[i])
    decreases i
  {
    hide Next, Enabled;
    if i > 0 {
      RunOk(hs, ops, i - 1);
      assert hs[i - 1 + 1] == Next(hs[i - 1], ops[i - 1]);
      StepOk(hs[i - 1], ops[i - 1]);
    }
  }

  /** In no run is a queued upgrade ever granted: its own lock stands in its way until it gives up. */
  lemma UpgradeNeverGranted(hs: seq<Timeline>, ops: seq<Op>, i: nat, t: Txn)
    requires IsRun(hs, ops) && i <= |ops| && t in hs[i].state.holders
    ensures Wake(hs[i].state, t).1.Waiting?
  {
    hide Next, Enabled, Wake;
    RunOk(hs, ops, i);
    WakeExact(hs[i].state, t);
  }

  // ---------- who holds and who waits, from the history alone ----------

  /** The mode that an operation newly grants to its transaction in state `s`, if it does. */
  ghost function GrantedMode(s: LockState, op: Op): (m: Option<LockMode>) {
    match op
    case AskOp(t, mode) =>
      if t in s.holders then
        if mode == s.holders[t] || IsCompatible(mode, s.holders[t]) || !OthersAllow(s, t, mode) then None
        else Some(mode)
      else if s.waiters == [] && OthersAllow(s, t, mode) then Some(mode) else None
    case WakeOp(t) =>
      if s.waiters != [] && s.waiters[0].txn == t && t !in s.holders && OthersAllow(s, t, s.waiters[0].mode)
      then Some(s.waiters[0].mode) else None
    case _ => None
  }

  /** The mode that a request starts to wait for in state `s`, if it does. */
  ghost function QueuedMode(s: LockState, op: Op): (m: Option<LockMode>) {
    if op.AskOp? && GrantedMode(s, op).None?
       && (op.txn !in s.holders || !(op.mode == s.holders[op.txn] || IsCompatible(op.mode, s.holders[op.txn])))
    then Some(op.mode) else None
  }

  ghost predicate Holds(s: LockState, t: Txn, m: LockMode) {
    t in s.holders && s.holders[t] == m
  }

  ghost predicate WaitsFor(s: LockState, t: Txn, m: LockMode) {
    Request(t, m) in s.waiters
  }

  /** Operation `k` granted `t` a lock, and since then `t` was neither granted another nor released it. */
  ghost predicate LastGrant(hs: seq<Timeline>, ops: seq<Op>, n: nat, t: Txn, k: nat)
    requires IsRun(hs, ops) && n <= |ops|
  {
    k < n && ops[k].txn == t && GrantedMode(hs[k].state, ops[k]).Some?
    && forall j :: k < j < n && ops[j].txn == t ==> !ops[j].ReleaseOp? && GrantedMode(hs[j].state, ops[j]).None?
  }

  /** Operation `k` queued a request of `t`, which since then was neither granted nor given up. */
  ghost predicate LastQueued(hs: seq<Timeline>, ops: seq<Op>, n: nat, t: Txn, k: nat)
    requires IsRun(hs, ops) && n <= |ops|
  {
    k < n && ops[k].txn == t && QueuedMode(hs[k].state, ops[k]).Some?
    && forall j :: k < j < n && ops[j].txn == t ==> !ops[j].GiveUpOp? && GrantedMode(hs[j].state, ops[j]).None?
  }

  /** What one operation does to what `t` holds: nothing unless it is `t`'s grant or release. */
  lemma HolderStep(h: Timeline, op: Op, t: Txn, m: LockMode)
    requires Inv(h.state)
    ensures Holds(Next(h, op).state, t, m) <==>
            if op.txn != t then Holds(h.state, t, m)
            else if GrantedMode(h.state, op).Some? then GrantedMode(h.state, op).value == m
            else !op.ReleaseOp? && Holds(h.state, t, m)
  {
    hide IsCompatible, HoldersCompatible, RemoveRequests;
    if op.WakeOp? { WakeExact(h.state, op.txn); }
  }

  /** What one operation does to what `t` waits for: nothing unless it queues, grants or drops `t`'s request. */
  lemma WaiterStep(h: Timeline, op: Op, t: Txn, m: LockMode)
    requires Inv(h.state) && Enabled(h.state, op)
    ensures WaitsFor(Next(h, op).state, t, m) <==>
            if op.txn != t then WaitsFor(h.state, t, m)
            else if QueuedMode(h.state, op).Some? then QueuedMode(h.state, op).value == m
            else !op.GiveUpOp? && GrantedMode(h.state, op).None? && WaitsFor(h.state, t, m)
  {
    hide IsCompatible, HoldersCompatible, RemoveRequests;
    match op {
      case AskOp(x, mode) =>
        assert WaitsFor(h.state, t, m) && x == t ==> IsWaiting(h.state, t);
      case WakeOp(x) =>
        WakeExact(h.state, x);
        if h.state.waiters != [] { FirstOrRest(h.state, t, m); }
      case GiveUpOp(x) => RemovedWaits(h.state.waiters, x, Request(t, m));
      case ReleaseOp(x) =>
    }
  }

  lemma FirstOrRest(s: LockState, t: Txn, m: LockMode)
    requires QueueOk(s) && s.waiters != []
    ensures Request(t, m) in s.waiters <==> Request(t, m) == s.waiters[0] || Request(t, m) in s.waiters[1..]
    ensures s.waiters[0].txn == t ==> Request(t, m) !in s.waiters[1..]
  {
    hide IsCompatible;
    assert s.waiters == [s.waiters[0]] + s.waiters[1..];
    assert forall i :: 0 <= i < |s.waiters| - 1 ==> s.waiters[1..][i] == s.waiters[i + 1];
  }

  lemma {:induction false} RemovedWaits(ws: seq<Request>, txn: Txn, r: Request)
    ensures r in RemoveRequests(ws, txn) <==> r in ws && r.txn != txn
  {
    if ws != [] {
      RemovedWaits(ws[1..], txn, r);
      assert ws == [ws[0]] + ws[1..];
    }
  }

  lemma {:induction false} HolderHasGrant(hs: seq<Timeline>, ops: seq<Op>, n: nat, t: Txn, m: LockMode) returns (k: nat)
    requires IsRun(hs, ops) && n <= |ops| && Holds(hs[n].state, t, m)
    ensures LastGrant(hs, ops, n, t, k) && GrantedMode(hs[k].state, ops[k]) == Some(m)
    decreases n
  {
    hide Next, Enabled, GrantedMode;
    var h, op := hs[n - 1], ops[n - 1];
    assert hs[n - 1 + 1] == Next(h, op);
    RunOk(hs, ops, n - 1);
    HolderStep(h, op, t, m);
    if op.txn == t && GrantedMode(h.state, op).Some? {
      k := n - 1;
    } else {
      k := HolderHasGrant(hs, ops, n - 1, t, m);
    }
  }

  lemma {:induction false} GrantStillHeld(hs: seq<Timeline>, ops: seq<Op>, n: nat, t: Txn, m: LockMode, k: nat)
    requires IsRun(hs, ops) && n <= |ops| && LastGrant(hs, ops, n, t, k) && GrantedMode(hs[k].state, ops[k]) == Some(m)
    ensures Holds(hs[n].state, t, m)
    decreases n
  {
    hide Next, Enabled, GrantedMode;
    var h, op := hs[n - 1], ops[n - 1];
    assert hs[n - 1 + 1] == Next(h, op);
    RunOk(hs, ops, n - 1);
    HolderStep(h, op, t, m);
    if k < n - 1 { GrantStillHeld(hs, ops, n - 1, t, m, k); }
  }

  /** In every run a transaction holds a mode exactly when its last grant was of that mode and no release followed. */
  lemma HoldsExact(hs: seq<Timeline>, ops: seq<Op>, n: nat, t: Txn, m: LockMode)
    requires IsRun(hs, ops) && n <= |ops|
    ensures Holds(hs[n].state, t, m) <==>
            exists k: nat :: LastGrant(hs, ops, n, t, k) && GrantedMode(hs[k].state, ops[k]) == Some(m)
  {
    hide Next, GrantedMode, Holds;
    if Holds(hs[n].state, t, m) {
      var k := HolderHasGrant(hs, ops, n, t, m);
    }
    if k: nat :| LastGrant(hs, ops, n, t, k) && GrantedMode(hs[k].state, ops[k]) == Some(m) {
      GrantStillHeld(hs, ops, n, t, m, k);
    }
  }

  lemma {:induction false} WaiterWasQueued(hs: seq<Timeline>, ops: seq<Op>, n: nat, t: Txn, m: LockMode)
    returns (k: nat)
    requires IsRun(hs, ops) && n <= |ops| && WaitsFor(hs[n].state, t, m)
    ensures LastQueued(hs, ops, n, t, k) && QueuedMode(hs[k].state, ops[k]) == Some(m)
    decreases n
  {
    hide Next, Enabled, GrantedMode, QueuedMode;
    var h, op := hs[n - 1], ops[n - 1];
    assert hs[n - 1 + 1] == Next(h, op);
    RunOk(hs, ops, n - 1);
    WaiterStep(h, op, t, m);
    if op.txn == t && QueuedMode(h.state, op).Some? {
      k := n - 1;
    } else {
      k := WaiterWasQueued(hs, ops, n - 1, t, m);
    }
  }

  lemma {:induction false} QueuedStillWaits(hs: seq<Timeline>, ops: seq<Op>, n: nat, t: Txn, m: LockMode, k: nat)
    requires IsRun(hs, ops) && n <= |ops| && LastQueued(hs, ops, n, t, k) && QueuedMode(hs[k].state, ops[k]) == Some(m)
    ensures WaitsFor(hs[n].state, t, m)
    decreases n
  {
    hide Next, GrantedMode, QueuedMode, IsWaiting;
    var h, op := hs[n - 1], ops[n - 1];
    assert hs[n - 1 + 1] == Next(h, op);
    RunOk(hs, ops, n - 1);
    WaiterStep(h, op, t, m);
    if k < n - 1 {
      QueuedStillWaits(hs, ops, n - 1, t, m, k);
      if op.txn == t { WaitingAsksNothing(h.state, op, t, m); }
    }
  }

  lemma WaitingAsksNothing(s: LockState, op: Op, t: Txn, m: LockMode)
    requires WaitsFor(s, t, m) && Enabled(s, op) && op.txn == t
    ensures QueuedMode(s, op).None?
  {
    assert IsWaiting(s, t);
  }

  /** In every run a transaction waits for a mode exactly when its last queued request for it is still open. */
  lemma WaitsExact(hs: seq<Timeline>, ops: seq<Op>, n: nat, t: Txn, m: LockMode)
    requires IsRun(hs, ops) && n <= |ops|
    ensures WaitsFor(hs[n].state, t, m) <==>
            exists k: nat :: LastQueued(hs, ops, n, t, k) && QueuedMode(hs[k].state, ops[k]) == Some(m)
  {
    hide Next, QueuedMode, WaitsFor;
    if WaitsFor(hs[n].state, t, m) {
      var k := WaiterWasQueued(hs, ops, n, t, m);
    }
    if k: nat :| LastQueued(hs, ops, n, t, k) && QueuedMode(hs[k].state, ops[k]) == Some(m) {
      QueuedStillWaits(hs, ops, n, t, m, k);
    }
  }

  /** A newcomer on an unused resource is granted at once, in whatever mode. */
  lemma UnusedIsGranted(t: Txn, mode: LockMode)
    ensures var (s, o) := Ask(LockState(map[], []), t, mode); o.Granted? && Holds(s, t, mode) && s.waiters == []
  {
  }

  /**
   * After a release the first waiter that holds nothing is granted by its next wake exactly when no queued
   * upgrade stands before it and every remaining holder is compatible with it.
   */
  lemma ReleaseServesNext(s: LockState, txn: Txn, i: nat)
    requires Inv(s) && txn in s.holders && !IsWaiting(s, txn)
    requires i < |s.waiters| && s.waiters[i].txn !in s.holders
    requires forall j :: 0 <= j < i ==> s.waiters[j].txn in s.holders
    ensures var next := s.waiters[i];
            Wake(Release(s, txn), next.txn).1.Granted? <==>
            i == 0 && forall t :: t in s.holders && t != txn ==> IsCompatible(s.holders[t], next.mode)
    ensures Wake(Release(s, txn), s.waiters[i].txn).1.Granted? ==>
            Holds(Wake(Release(s, txn), s.waiters[i].txn).0, s.waiters[i].txn, s.waiters[i].mode)
  {
    hide IsCompatible;
    var r := Release(s, txn);
    assert forall t :: t in r.holders <==> t in s.holders && t != txn;
  }

  // ---------- the lock table ----------

  type Resource = nat

  /** The edges a new waiter adds: to every other holder. */
  function WithEdges(g: Graph, txn: Txn, holders: set<Txn>): (r: Graph)
    ensures forall a, b :: Edge(r, a, b) <==> Edge(g, a, b) || (a == txn && b in holders && b != txn)
  {
    if holders - {txn} == {} then g
    else g[txn := (if txn in g then g[txn] else {}) + (holders - {txn})]
  }

  datatype LockResult = LockGranted | LockWaiting | LockAborted

  class LockTable {
    var table: map<Resource, LockState>
    const graph: Graphs

    ghost predicate Valid()
      reads this
    {
      forall r :: r in table ==> Inv(table[r])
    }

    constructor ()
      ensures Valid() && fresh(graph) && table == map[] && graph.edges == map[]
    {
      table := map[];
      var g := new Graphs();
      graph := g;
    }

    /** The resource's state, empty if it has none yet. */
    function StateOf(res: Resource): LockState
      reads this
    {
      if res in table then table[res] else LockState(map[], [])
    }

    /** A lock request up to its wait loop. A waiter that closes a cycle and is its victim is aborted. */
    method Lock(txn: Txn, res: Resource, mode: LockMode) returns (r: LockResult)
      requires Valid() && !IsWaiting(StateOf(res), txn)
      modifies this, graph
      ensures Valid() && table.Keys == old(table).Keys + {res}
      ensures forall x :: x in old(table) && x != res ==> table[x] == old(table)[x]
      ensures var (s, o) := Ask(old(StateOf(res)), txn, mode);
              var g := WithEdges(old(graph.edges), txn, old(StateOf(res)).holders.Keys);
              if o.Granted? then r == LockGranted && table[res] == s && graph.edges == old(graph.edges)
              else if r == LockAborted then
                PossibleAnswer(g, Some(txn)) && table[res] == old(StateOf(res)) && graph.edges == WithoutTxn(g, txn)
              else
                r == LockWaiting && table[res] == s && graph.edges == g
                && exists victim :: PossibleAnswer(g, victim) && victim != Some(txn)
    {
      hide IsCompatible, HasCycle, ReachesCycle, PossibleAnswer, Inv, IsWaiting, GiveUp, WithoutTxn, WithEdges;
      var s := StateOf(res);
      EmptyInv();
      AskInv(s, txn, mode);
      var granted := false;
      if txn in s.holders {
        var held := s.holders[txn];
        if held == mode || IsCompatible(mode, held) {
          granted := true;
        } else {
          var canUpgrade := CheckOthers(s, txn, mode);
          if canUpgrade {
            s := s.(holders := s.holders[txn := mode]);
            granted := true;
          } else {
            s := s.(waiters := [Request(txn, mode)] + s.waiters);
          }
        }
      } else if s.waiters == [] && CanGrant(s, mode) {
        s := s.(holders := s.holders[txn := mode]);
        granted := true;
      } else {
        s := s.(waiters := s.waiters + [Request(txn, mode)]);
      }
      if granted {
        table := table[res := s];
        return LockGranted;
      }
      AddWaitEdges(txn, s.holders.Keys);
      var victim := graph.DetectCycle();
      if victim == Some(txn) {
        RemoveOwn(StateOf(res), txn, mode);
        table := table[res := GiveUp(s, txn)];
        graph.RemoveTransaction(txn);
        return LockAborted;
      }
      table := table[res := s];
      return LockWaiting;
    }

    method AddWaitEdges(txn: Txn, holders: set<Txn>)
      modifies graph
      ensures graph.edges == WithEdges(old(graph.edges), txn, holders)
    {
      var todo := holders;
      while todo != {}
        invariant todo <= holders
        invariant graph.edges == WithEdges(old(graph.edges), txn, holders - todo)
        decreases |todo|
      {
        var h :| h in todo;
        ghost var before := graph.edges;
        if h != txn { graph.AddEdge(txn, h); }
        assert holders - (todo - {h}) == holders - todo + {h};
        WithOneMore(old(graph.edges), txn, holders - todo, h);
        todo := todo - {h};
      }
      assert holders - {} == holders;
    }

    /** One evaluation of the wait predicate by a waiting transaction. */
    method TryWake(txn: Txn, res: Resource) returns (r: LockResult)
      requires Valid() && res in table
      modifies this, graph
      ensures Valid() && table == old(table)[res := Wake(old(table)[res], txn).0]
      ensures r == (if Wake(old(table)[res], txn).1.Granted? then LockGranted else LockWaiting)
      ensures graph.edges == if r == LockGranted then WithoutTxn(old(graph.edges), txn) else old(graph.edges)
    {
      hide IsCompatible;
      var s := table[res];
      WakeExact(s, txn);
      if s.waiters != [] && s.waiters[0].txn == txn && CanGrant(s, s.waiters[0].mode) {
        table := table[res := LockState(s.holders[txn := s.waiters[0].mode], s.waiters[1..])];
        graph.RemoveTransaction(txn);
        return LockGranted;
      }
      assert table[res := s] == table;
      return LockWaiting;
    }

    /** A timeout or an abort while waiting. */
    method StopWaiting(txn: Txn, res: Resource)
      requires Valid() && res in table
      modifies this, graph
      ensures Valid() && table == old(table)[res := GiveUp(old(table)[res], txn)]
      ensures graph.edges == WithoutTxn(old(graph.edges), txn)
    {
      GiveUpInv(table[res], txn);
      table := table[res := GiveUp(table[res], txn)];
      graph.RemoveTransaction(txn);
    }

    /** Releasing a lock; a resource with neither holders nor waiters is forgotten. */
    method Unlock(txn: Txn, res: Resource) returns (r: Result<()>)
      requires Valid() && !IsWaiting(StateOf(res), txn)
      modifies `table
      ensures Valid()
      ensures if res !in old(table) then r == Err(NotFound) && table == old(table)
              else if txn !in old(table)[res].holders then r == Err(InvalidArgument) && table == old(table)
              else r == Ok(()) && StateOf(res) == Release(old(table)[res], txn)
                   && txn !in StateOf(res).holders && StateOf(res).waiters == old(table)[res].waiters
                   && (forall t, m :: t != txn ==> (Holds(StateOf(res), t, m) <==> Holds(old(table)[res], t, m)))
                   && (res in table <==> StateOf(res) != LockState(map[], []))
                   && (forall x :: x != res ==>
                         (x in table <==> x in old(table)) && (x in table ==> table[x] == old(table)[x]))
    {
      if res !in table { return Err(NotFound); }
      var s := table[res];
      if txn !in s.holders { return Err(InvalidArgument); }
      ReleaseInv(s, txn);
      s := s.(holders := s.holders - {txn});
      if s.holders == map[] && s.waiters == [] {
        table := table - {res};
      } else {
        table := table[res := s];
      }
      return Ok(());
    }
  }

  method CheckOthers(s: LockState, txn: Txn, mode: LockMode) returns (ok: bool)
    ensures ok == OthersAllow(s, txn, mode)
  {
    var todo := s.holders.Keys;
    while todo != {}
      invariant todo <= s.holders.Keys
      invariant forall t :: t in s.holders && t !in todo && t != txn ==> IsCompatible(s.holders[t], mode)
      decreases |todo|
    {
      var t :| t in todo;
      if t != txn && !IsCompatible(s.holders[t], mode) { return false; }
      todo := todo - {t};
    }
    return true;
  }

  lemma WithOneMore(g: Graph, txn: Txn, holders: set<Txn>, h: Txn)
    ensures WithEdges(g, txn, holders + {h})
            == if h == txn then WithEdges(g, txn, holders) else WithEdge(WithEdges(g, txn, holders), txn, h)
  {
    var out := if txn in g then g[txn] else {};
    var before, after := holders - {txn}, (holders + {h}) - {txn};
    if h == txn {
      assert after == before;
    } else {
      assert after == before + {h} && h in after;
      assert out + after == (out + before) + {h};
      assert before == {} ==> out + after == out + {h};
    }
  }

  /** A request just queued is taken out again without a trace. */
  lemma RemoveOwn(s: LockState, txn: Txn, mode: LockMode)
    requires Inv(s) && !IsWaiting(s, txn) && Ask(s, txn, mode).1.Waiting?
    ensures GiveUp(Ask(s, txn, mode).0, txn) == s
  {
    hide IsCompatible;
    var r := Ask(s, txn, mode).0;
    assert forall i :: 0 <= i < |s.waiters| ==> s.waiters[i].txn != txn;
    var at := if txn in s.holders then 0 else |s.waiters|;
    assert r.waiters[at] == Request(txn, mode);
    AskInv(s, txn, mode);
    RemoveOnly(r.waiters, txn, at);
    assert r.waiters[..at] + r.waiters[at + 1..] == s.waiters;
  }
}
