// The outgoing packet cache: one encoder puts packets, many transmitters read them.
//
// The cache refines an append-only log.  Its map holds exactly the packets of the
// log numbered lastN or more, although units are taken from the tail of the map
// and stored again under new numbers.

module CacheRtp {
  import opened CacheLocks
  import opened CacheNumbering

  class CacheRTPUnit {
    var lock: bool
    var len: nat
    var frame: RtpFrame

    // The number this unit is in the map under.
    ghost var num: nat

    constructor () {
      lock, len, frame := false, 0, RtpFrame(false, []);
    }
  }

  // What a unit holds for its number.
  datatype Slot = Slot(frame: RtpFrame, len: nat, lock: bool)

  // ---------- What the map holds, as a value ----------

  // The slots hold the tail of the log from lo on.
  ghost predicate HoldsTail(slots: map<nat, Slot>, log: seq<Entry>, lo: nat) {
    && slots.Keys == Tail(log, lo).Keys
    && forall k :: k in slots ==>
         slots[k].frame == Tail(log, lo)[k].frame && slots[k].len == Tail(log, lo)[k].len
  }

  // A number is locked exactly when its frame is sixteen or more behind the writer.
  ghost predicate ExactLocks(slots: map<nat, Slot>, next: nat) {
    forall k :: k in slots ==> (slots[k].lock <==> Base(k) + LOCK_DISTANCE <= Base(next))
  }

  // What is locked is sixteen frames or more behind the writer.
  ghost predicate NoEarlyLock(slots: map<nat, Slot>, next: nat) {
    forall k :: k in slots && slots[k].lock ==> Base(k) + LOCK_DISTANCE <= Base(next)
  }

  // Only earlier blocks are locked.
  ghost predicate OnlyEarlierLocks(slots: map<nat, Slot>, next: nat) {
    forall k :: k in slots && slots[k].lock ==> k < Base(next)
  }

  // Only earlier blocks are ever locked.  Nothing is locked early as long as no walk went
  // too far; and as long as no put broke the locks they are exact.
  ghost predicate LockLaw(slots: map<nat, Slot>, log: seq<Entry>, next: nat) {
    && OnlyEarlierLocks(slots, next)
    && (WalksHold(log) ==> NoEarlyLock(slots, next))
    && (LocksHold(log) ==> ExactLocks(slots, next))
  }

  // What leaves the tail was locked.
  ghost predicate TailIsLocked(slots: map<nat, Slot>, t: nat) {
    t in slots ==> slots[t].lock
  }

  // What holds between two calls, with the tail at lo.
  ghost predicate CacheLaw(slots: map<nat, Slot>, log: seq<Entry>, lo: nat) {
    HoldsTail(slots, log, lo) && LockLaw(slots, log, NextNum(log)) && lo + KEPT <= NextNum(log)
  }

  lemma KeysInRange(slots: map<nat, Slot>, log: seq<Entry>, lo: nat)
    requires HoldsTail(slots, log, lo)
    ensures forall k :: k in slots ==> lo <= k < NextNum(log)
  {
    forall k | k in slots ensures lo <= k < NextNum(log) {
      TailHolds(log, lo, k);
    }
  }

  lemma SizeBound(s: set<nat>, lo: nat, hi: nat)
    requires lo <= hi && forall k :: k in s ==> lo <= k < hi
    ensures |s| <= hi - lo
    decreases hi
  {
    if lo < hi {
      SizeBound(s - {hi - 1}, lo, hi - 1);
    } else {
      assert s == {};
    }
  }

  lemma RoomAfterTake(keys: set<nat>, lo: nat, next: nat)
    requires lo <= next && forall k :: k in keys ==> lo <= k < next
    requires lo in keys || next < lo + FRAME_BUF_SIZE
    requires |keys| <= FRAME_BUF_SIZE
    ensures |keys| <= |keys - {lo}| + 1 <= FRAME_BUF_SIZE
  {
    if lo !in keys {
      SizeBound(keys, lo, next);
      assert keys - {lo} == keys;
    }
  }

  // The packet is stored under n, and with the marker the walk locks the numbers from the
  // block that falls behind up to the first one missing, end.
  ghost predicate Stores(slots: map<nat, Slot>, slots': map<nat, Slot>, n: nat, e: Entry, end: nat)
    requires FRAME_BUF_SIZE <= n
  {
    var stored := slots[n := Slot(e.frame, e.len, false)];
    if e.frame.marker then
      FallingBlock(n) <= end && end !in stored && LockedRun(stored, slots', FallingBlock(n), end)
    else
      slots' == stored
  }

  // What a put makes of the slots: the number the tail has come to leaves them, and the
  // packet is stored.
  ghost predicate PutsTo(slots: map<nat, Slot>, slots': map<nat, Slot>, log: seq<Entry>, lo: nat, e: Entry, end: nat) {
    Stores(slots - {AdvancedTail(log, lo)}, slots', NextNum(log), e, end)
  }

  // The tail moves over a number that is missing.
  lemma TailStep(slots: map<nat, Slot>, log: seq<Entry>, lo: nat)
    requires HoldsTail(slots, log, lo) && lo !in slots && lo + FRAME_BUF_SIZE <= NextNum(log)
    ensures var next := Base(lo) + FRAME_OFFSET;
            && lo < next && next + KEPT <= NextNum(log) && HoldsTail(slots, log, next)
            && (next in slots <==> Written(log, next))
            && AdvancedTail(log, lo) == AdvancedTail(log, next)
  {
    hide Tail, Num, Written;
    TailMoves(log, lo);
    HeldIsTail(slots, log, lo, lo);
    HeldIsTail(slots, log, Base(lo) + FRAME_OFFSET, Base(lo) + FRAME_OFFSET);
  }

  lemma TailStops(log: seq<Entry>, lo: nat)
    ensures Written(log, lo) || NextNum(log) < lo + FRAME_BUF_SIZE ==> AdvancedTail(log, lo) == lo
  {
  }

  lemma {:induction false} HoldsAdvancedTail(slots: map<nat, Slot>, log: seq<Entry>, lo: nat)
    requires HoldsTail(slots, log, lo) && lo + KEPT <= NextNum(log)
    ensures HoldsTail(slots, log, AdvancedTail(log, lo)) && AdvancedTail(log, lo) + KEPT <= NextNum(log)
    ensures AdvancedTail(log, lo) in slots <==> Written(log, AdvancedTail(log, lo))
    ensures AdvancedTail(log, lo) in slots || NextNum(log) < AdvancedTail(log, lo) + FRAME_BUF_SIZE
    decreases NextNum(log) - lo
  {
    hide HoldsTail, Written;
    HeldIsTail(slots, log, lo, lo);
    if !Written(log, lo) && NextNum(log) >= lo + FRAME_BUF_SIZE {
      TailStep(slots, log, lo);
      HoldsAdvancedTail(slots, log, Base(lo) + FRAME_OFFSET);
    }
  }

  // What the recycling of a unit is to know of the place the tail has come to.
  lemma AtTail(slots: map<nat, Slot>, log: seq<Entry>, lo: nat, t: nat)
    requires HoldsTail(slots, log, t) && t + KEPT <= NextNum(log) && t == AdvancedTail(log, lo)
    requires (t in slots || NextNum(log) < t + FRAME_BUF_SIZE) && |slots.Keys| <= FRAME_BUF_SIZE
    ensures |slots.Keys| <= |slots.Keys - {t}| + 1 <= FRAME_BUF_SIZE
    ensures forall k :: k in slots ==> k < NextNum(log)
    ensures TailAfter(log, lo) == if t in slots then t + 1 else t
    ensures t !in slots ==> slots - {t} == slots
  {
    hide Tail, Num, HoldsTail, Written, Base;
    KeysInRange(slots, log, t);
    HeldIsTail(slots, log, t, t);
    RoomAfterTake(slots.Keys, t, NextNum(log));
  }

  // The slots without the number the tail has come to.
  lemma AfterRecycle(slots: map<nat, Slot>, log: seq<Entry>, lo: nat)
    requires HoldsTail(slots, log, lo) && LockLaw(slots, log, NextNum(log)) && lo + KEPT <= NextNum(log)
    ensures var t := AdvancedTail(log, lo);
            && HoldsTail(slots - {t}, log, TailAfter(log, lo)) && LockLaw(slots - {t}, log, NextNum(log))
            && TailAfter(log, lo) + KEPT <= NextNum(log) + 1
            && (NoEarlyLock(slots, NextNum(log)) ==> NoEarlyLock(slots - {t}, NextNum(log)))
            && (ExactLocks(slots, NextNum(log)) ==> ExactLocks(slots - {t}, NextNum(log)) && TailIsLocked(slots, t))
  {
    hide Tail, Num, LocksHold, WalksHold, Base;
    var t := AdvancedTail(log, lo);
    HoldsAdvancedTail(slots, log, lo);
    TailMoves(log, t);
    KeptIsBeyondLock(t, NextNum(log));
    if t !in slots {
      assert slots - {t} == slots;
    }
  }

  lemma AfterStore(slots: map<nat, Slot>, slots': map<nat, Slot>, log: seq<Entry>, e: Entry, lo: nat)
    requires HoldsTail(slots, log, lo) && LockLaw(slots, log, NextNum(log)) && lo <= NextNum(log)
    requires slots' == slots[NextNum(log) := Slot(e.frame, e.len, false)]
    ensures NextNum(log) !in slots
    ensures HoldsTail(slots', log + [e], lo) && LockLaw(slots', log + [e], NextNum(log))
    ensures ExactLocks(slots, NextNum(log)) ==> ExactLocks(slots', NextNum(log))
    ensures NoEarlyLock(slots, NextNum(log)) ==> NoEarlyLock(slots', NextNum(log))
  {
    hide Tail, Base, LocksHold, WalksHold, Num;
    TailGrows(log, e, lo);
    LocksHoldAfterPut(log, e);
    WalksHoldAfterPut(log, e);
  }

  // The last entry of the log was put under n, and the tail is not too near.
  ghost predicate LastPut(slots: map<nat, Slot>, log: seq<Entry>, lo: nat, n: nat) {
    HoldsTail(slots, log, lo) && log != [] && n == Num(log, |log| - 1) && lo + KEPT <= n + 1
  }

  lemma LastPutFacts(slots: map<nat, Slot>, log: seq<Entry>, lo: nat, n: nat, m: nat)
    requires LastPut(slots, log, lo, n) && m != n
    ensures var before, e := log[..|log|-1], log[|log|-1];
            && NextNum(before) == n && log == before + [e]
            && NextNum(log) == (if e.frame.marker then Base(n) + FRAME_OFFSET else n + 1)
            && (Written(before, m) <==> Written(log, m))
    ensures lo <= FallingBlock(n) && HoldsTail(slots, log, lo)
  {
    var before, e := log[..|log|-1], log[|log|-1];
    assert log == before + [e];
    NumOfPrefix(before, [e], |before|);
    WrittenAfterPut(before, e, m);
  }

  lemma HeldIsTail(slots: map<nat, Slot>, log: seq<Entry>, lo: nat, k: nat)
    requires HoldsTail(slots, log, lo)
    ensures k in slots <==> lo <= k && Written(log, k)
  {
    TailHolds(log, lo, k);
  }

  // Where the last number of the block that falls behind is held, so is the next block's first.
  lemma FullBlockHasNext(slots: map<nat, Slot>, log: seq<Entry>, lo: nat, n: nat)
    requires LastPut(slots, log, lo, n) && Written(log, FallingBlock(n) + FRAME_OFFSET - 1)
    requires NextNum(log) == Base(n) + FRAME_OFFSET
    ensures FallingBlock(n) + FRAME_OFFSET - 1 in slots && FallingBlock(n) + FRAME_OFFSET in slots
  {
    hide Tail, Num, Written, HoldsTail;
    var l := FallingBlock(n);
    HeldIsTail(slots, log, lo, l + FRAME_OFFSET - 1);
    HeldIsTail(slots, log, lo, l + FRAME_OFFSET);
    WrittenBelowNext(log, l + FRAME_OFFSET - 1);
    BlockStartWritten(log, l + FRAME_OFFSET);
  }

  // A number past the block that falls behind was locked too early.
  lemma WalkedTooFar(slots: map<nat, Slot>, slots': map<nat, Slot>, log: seq<Entry>, n: nat, end: nat, k: nat)
    requires FRAME_BUF_SIZE <= n && LockedRun(slots, slots', FallingBlock(n), end)
    requires NextNum(log) == Base(n) + FRAME_OFFSET
    requires FallingBlock(n) <= k < end && Base(k) != FallingBlock(n)
    ensures k in slots' && slots'[k].lock && Base(k) + LOCK_DISTANCE > Base(NextNum(log))
  {
    FallsBehind(k, n);
    FrameStart(FallingBlock(n), n);
    SameBlock(FallingBlock(n), k);
  }

  // The walk that stayed in the block locked exactly what is held of it.
  lemma WalkedBlock(slots: map<nat, Slot>, log: seq<Entry>, lo: nat, n: nat, end: nat, k: nat)
    requires LastPut(slots, log, lo, n) && NextNum(log) == Base(n) + FRAME_OFFSET
    requires FallingBlock(n) <= end && end !in slots && k in slots
    requires forall j :: FallingBlock(n) <= j < end ==> j in slots
    requires FallingBlock(n) + FRAME_OFFSET - 1 !in slots
    ensures FallingBlock(n) <= k < end <==> Base(k) == FallingBlock(n)
  {
    hide Tail, Num;
    FrameStart(FallingBlock(n), n);
    BlockEnd(log, lo, FallingBlock(n), end, k);
  }

  // The last entry was put under n with the marker, and the numbers from the block that
  // falls behind up to the first missing one were locked.
  ghost predicate LastWalk(slots: map<nat, Slot>, slots': map<nat, Slot>, log: seq<Entry>, lo: nat, n: nat, end: nat) {
    && LastPut(slots, log, lo, n) && log[|log|-1].frame.marker
    && FallingBlock(n) <= end && end !in slots && LockedRun(slots, slots', FallingBlock(n), end)
  }

  // A walk that goes too far locks the first packet of the block after the one that falls
  // behind.
  lemma OverWalkLocksEarly(slots: map<nat, Slot>, slots': map<nat, Slot>, log: seq<Entry>, lo: nat, n: nat, end: nat)
    requires LastWalk(slots, slots', log, lo, n, end) && OverWalks(log[..|log|-1], log[|log|-1])
    ensures var k := FallingBlock(n) + FRAME_OFFSET;
            && k in slots' && slots'[k].lock && Offset(k) == 0 && Base(k) == k
            && Base(k) + LOCK_DISTANCE > Base(NextNum(log))
  {
    hide Tail, Base, Num, Written, HoldsTail;
    var l := FallingBlock(n);
    LastPutFacts(slots, log, lo, n, l + FRAME_OFFSET - 1);
    FrameStart(l, n);
    SameBlock(l, l);
    FullBlockHasNext(slots, log, lo, n);
    WalkStaysInFrameIff(slots, log, lo, l, end);
    var k :| l <= k < end && Base(k) != l;
    SameBlock(l, k);
    WalkedTooFar(slots, slots', log, n, end, l + FRAME_OFFSET);
  }

  // One that does not go too far locks exactly what is held of the block that falls behind.
  lemma WalkInBlock(slots: map<nat, Slot>, slots': map<nat, Slot>, log: seq<Entry>, lo: nat, n: nat, end: nat, k: nat)
    requires LastWalk(slots, slots', log, lo, n, end) && !OverWalks(log[..|log|-1], log[|log|-1]) && k in slots
    ensures slots'[k].lock <==> slots[k].lock || Base(k) == FallingBlock(n)
    ensures Base(k) + LOCK_DISTANCE <= Base(NextNum(log)) <==>
            Base(k) + LOCK_DISTANCE <= Base(n) || Base(k) == FallingBlock(n)
  {
    hide Tail, Base, Num, Written, HoldsTail;
    var l := FallingBlock(n);
    LastPutFacts(slots, log, lo, n, l + FRAME_OFFSET - 1);
    HeldIsTail(slots, log, lo, l + FRAME_OFFSET - 1);
    WalkedBlock(slots, log, lo, n, end, k);
    FallsBehind(k, n);
  }

  // Over a put with the marker, nothing comes to be locked early exactly unless its walk
  // goes too far.
  lemma AfterWalkEarlyIff(slots: map<nat, Slot>, slots': map<nat, Slot>, log: seq<Entry>, lo: nat, n: nat, end: nat)
    requires LastWalk(slots, slots', log, lo, n, end) && NoEarlyLock(slots, n)
    ensures NoEarlyLock(slots', NextNum(log)) <==> !OverWalks(log[..|log|-1], log[|log|-1])
  {
    hide LastWalk, Base, Num, OverWalks;
    SameSlots(slots, slots', log, lo, n, end);
    if OverWalks(log[..|log|-1], log[|log|-1]) {
      OverWalkLocksEarly(slots, slots', log, lo, n, end);
    } else {
      forall k | k in slots' && slots'[k].lock
        ensures Base(k) + LOCK_DISTANCE <= Base(NextNum(log))
      {
        WalkInBlock(slots, slots', log, lo, n, end, k);
      }
    }
  }

  lemma SameSlots(slots: map<nat, Slot>, slots': map<nat, Slot>, log: seq<Entry>, lo: nat, n: nat, end: nat)
    requires LastWalk(slots, slots', log, lo, n, end)
    ensures slots'.Keys == slots.Keys && log != [] && FRAME_BUF_SIZE <= n
  {
  }

  // And exact locks stay exact exactly unless it does.
  lemma AfterWalkExactIff(slots: map<nat, Slot>, slots': map<nat, Slot>, log: seq<Entry>, lo: nat, n: nat, end: nat)
    requires LastWalk(slots, slots', log, lo, n, end) && ExactLocks(slots, n)
    ensures ExactLocks(slots', NextNum(log)) <==> !BreaksLocks(log[..|log|-1], log[|log|-1])
  {
    NoCrossing(slots, slots', log, lo, n, end);
    hide LastWalk, Base, Num, OverWalks, CrossesOver;
    SameSlots(slots, slots', log, lo, n, end);
    if OverWalks(log[..|log|-1], log[|log|-1]) {
      OverWalkLocksEarly(slots, slots', log, lo, n, end);
    } else {
      forall k | k in slots'
        ensures slots'[k].lock <==> Base(k) + LOCK_DISTANCE <= Base(NextNum(log))
      {
        WalkInBlock(slots, slots', log, lo, n, end, k);
      }
    }
  }

  lemma NoCrossing(slots: map<nat, Slot>, slots': map<nat, Slot>, log: seq<Entry>, lo: nat, n: nat, end: nat)
    requires LastWalk(slots, slots', log, lo, n, end)
    ensures log != [] && !CrossesOver(log[..|log|-1], log[|log|-1])
  {
  }

  // Without the marker no walk is made: the locks stay exact exactly unless this put
  // breaks them.
  lemma AfterStepExactIff(slots: map<nat, Slot>, log: seq<Entry>, lo: nat, n: nat)
    requires LastPut(slots, log, lo, n) && !log[|log|-1].frame.marker && ExactLocks(slots, n)
    ensures ExactLocks(slots, NextNum(log)) <==> !BreaksLocks(log[..|log|-1], log[|log|-1])
  {
    hide Tail, Num, Written, HoldsTail, Base;
    var l := FallingBlock(n);
    LastPutFacts(slots, log, lo, n, n + 1);
    KeysInRange(slots, log, lo);
    FrameStart(l, n);
    FallsBehind(0, n);
    if Offset(n) == FRAME_OFFSET - 1 {
      SameBlock(n, n + 1);
      HeldIsTail(slots, log, lo, l);
      if FRAME_BUF_SIZE <= l {
        BlockStartWritten(log, l);
        assert l in slots;
        FallsBehind(l, n);
      } else {
        forall k | k in slots
          ensures slots[k].lock <==> Base(k) + LOCK_DISTANCE <= Base(NextNum(log))
        {
          HeldIsTail(slots, log, lo, k);
          WrittenBelowNext(log, k);
          FirstBlock(k);
          FallsBehind(k, n);
        }
      }
    }
  }

  lemma FirstBlock(k: nat)
    ensures FRAME_BUF_SIZE <= k ==> FRAME_BUF_SIZE <= Base(k)
  {
  }

  // Over a put without the marker nothing comes to be locked early.
  lemma AfterStepEarly(slots: map<nat, Slot>, log: seq<Entry>, lo: nat, n: nat)
    requires LastPut(slots, log, lo, n) && !log[|log|-1].frame.marker && NoEarlyLock(slots, n)
    ensures NoEarlyLock(slots, NextNum(log))
  {
    hide Tail, Num, Written, HoldsTail, Base;
    LastPutFacts(slots, log, lo, n, n + 1);
    FallsBehind(0, n);
    SameBlock(n, n + 1);
  }

  // What a put makes of the laws of the locks.
  ghost predicate PutKeepsLocks(slots: map<nat, Slot>, slots': map<nat, Slot>, log: seq<Entry>, e: Entry) {
    && (NoEarlyLock(slots, NextNum(log)) ==>
          (NoEarlyLock(slots', NextNum(log + [e])) <==> !OverWalks(log, e)))
    && (ExactLocks(slots, NextNum(log)) ==>
          (ExactLocks(slots', NextNum(log + [e])) <==> !BreaksLocks(log, e)))
  }

  lemma AfterWalk(slots: map<nat, Slot>, slots': map<nat, Slot>, log: seq<Entry>, e: Entry, lo: nat, end: nat)
    requires LastWalk(slots, slots', log + [e], lo, NextNum(log), end) && LockLaw(slots, log + [e], NextNum(log))
    ensures HoldsTail(slots', log + [e], lo) && LockLaw(slots', log + [e], NextNum(log + [e]))
    ensures PutKeepsLocks(slots, slots', log, e)
  {
    var log', n := log + [e], NextNum(log);
    assert log'[..|log'|-1] == log;
    WalkKeepsTail(slots, slots', log', lo, n, end);
    hide LastWalk, Base, Num, OverWalks, CrossesOver, LocksHold, WalksHold, ExactLocks, NoEarlyLock, OnlyEarlierLocks,
         HoldsTail;
    LocksHoldAfterPut(log, e);
    WalksHoldAfterPut(log, e);
    if NoEarlyLock(slots, n) {
      AfterWalkEarlyIff(slots, slots', log', lo, n, end);
    }
    if ExactLocks(slots, n) {
      AfterWalkExactIff(slots, slots', log', lo, n, end);
    }
  }

  // Whatever the frames: the walk changes only locks, and of earlier blocks only.
  lemma WalkKeepsTail(slots: map<nat, Slot>, slots': map<nat, Slot>, log: seq<Entry>, lo: nat, n: nat, end: nat)
    requires LastWalk(slots, slots', log, lo, n, end) && OnlyEarlierLocks(slots, n)
    ensures HoldsTail(slots', log, lo) && OnlyEarlierLocks(slots', NextNum(log))
  {
    hide Tail, Base, Num;
    KeysInRange(slots, log, lo);
    FallsBehind(0, n);
    LastPutFacts(slots, log, lo, n, n + 1);
  }

  lemma AfterStep(slots: map<nat, Slot>, log: seq<Entry>, e: Entry, lo: nat)
    requires LastPut(slots, log + [e], lo, NextNum(log)) && LockLaw(slots, log + [e], NextNum(log)) && !e.frame.marker
    ensures LockLaw(slots, log + [e], NextNum(log + [e]))
    ensures PutKeepsLocks(slots, slots, log, e)
  {
    hide Tail, Base, Num, LocksHold, WalksHold, ExactLocks, NoEarlyLock, BreaksLocks, HoldsTail;
    var log', n := log + [e], NextNum(log);
    assert log'[..|log'|-1] == log;
    SameBlock(n, n + 1);
    LastPutFacts(slots, log', lo, n, n + 1);
    LocksHoldAfterPut(log, e);
    WalksHoldAfterPut(log, e);
    if NoEarlyLock(slots, n) {
      AfterStepEarly(slots, log', lo, n);
    }
    if ExactLocks(slots, n) {
      AfterStepExactIff(slots, log', lo, n);
    }
  }

  // A put keeps the tail of the log and the law of the locks.
  lemma PutLaw(slots: map<nat, Slot>, slots': map<nat, Slot>, log: seq<Entry>, lo: nat, e: Entry, end: nat)
    requires CacheLaw(slots, log, lo) && PutsTo(slots, slots', log, lo, e, end)
    ensures CacheLaw(slots', log + [e], TailAfter(log, lo))
    ensures ExactLocks(slots, NextNum(log)) ==> TailIsLocked(slots, AdvancedTail(log, lo))
    ensures PutKeepsLocks(slots, slots', log, e)
  {
    hide Tail, Base, Num, LocksHold, WalksHold, ExactLocks, NoEarlyLock, BreaksLocks, OverWalks, HoldsTail, LockLaw,
         LockedRun, TailAfter, AdvancedTail;
    var n, taken := NextNum(log), slots - {AdvancedTail(log, lo)};
    var stored := taken[n := Slot(e.frame, e.len, false)];
    var lo' := TailAfter(log, lo);
    AfterRecycle(slots, log, lo);
    AfterStore(taken, stored, log, e, lo');
    NumOfPrefix(log, [e], |log|);
    WrittenAfterPut(log, e, n);
    if e.frame.marker {
      AfterWalk(stored, slots', log, e, lo', end);
    } else {
      AfterStep(stored, log, e, lo');
    }
  }

  // A put always comes to something.
  lemma PutExists(slots: map<nat, Slot>, log: seq<Entry>, lo: nat, e: Entry)
    returns (slots': map<nat, Slot>, end: nat)
    requires CacheLaw(slots, log, lo)
    ensures PutsTo(slots, slots', log, lo, e, end)
  {
    hide AdvancedTail, LockLaw, Num, Tail, Base;
    var n := NextNum(log);
    var stored := (slots - {AdvancedTail(log, lo)})[n := Slot(e.frame, e.len, false)];
    KeysInRange(slots, log, lo);
    slots', end := stored, 0;
    if e.frame.marker {
      end := FirstMissing(stored, FallingBlock(n), n + 1);
      slots' := map k | k in stored ::
                  stored[k].(lock := stored[k].lock || FallingBlock(n) <= k < end);
    }
  }

  lemma {:induction false} FirstMissing(slots: map<nat, Slot>, l: nat, hi: nat) returns (end: nat)
    requires forall k :: k in slots ==> k < hi
    ensures l <= end && end !in slots && forall k :: l <= k < end ==> k in slots
    decreases hi - l
  {
    end := l;
    if l in slots {
      end := FirstMissing(slots, l + 1, hi);
    }
  }

  // slots' is slots with the present numbers from l to end locked.
  ghost predicate LockedRun(slots: map<nat, Slot>, slots': map<nat, Slot>, l: nat, end: nat) {
    && slots'.Keys == slots.Keys
    && (forall k :: l <= k < end ==> k in slots)
    && (forall k :: k in slots ==>
          slots'[k] == slots[k].(lock := slots[k].lock || l <= k < end))
  }

  // The walk locks numbers of its own frame only, exactly unless the whole block was
  // written and the next block was begun.
  lemma WalkStaysInFrameIff(slots: map<nat, Slot>, log: seq<Entry>, lo: nat, l: nat, end: nat)
    requires HoldsTail(slots, log, lo) && lo <= l <= end && Offset(l) == 0
    requires end !in slots && forall k :: l <= k < end ==> k in slots
    ensures (forall k :: l <= k < end ==> Base(k) == l) <==>
            !(l + FRAME_OFFSET - 1 in slots && l + FRAME_OFFSET in slots)
  {
    hide Tail, Base, Num, FirstAt;
    SameBlock(l, l + FRAME_OFFSET);
    if l + FRAME_OFFSET - 1 in slots && l + FRAME_OFFSET in slots {
      forall k | l <= k < l + FRAME_OFFSET - 1 ensures k in slots {
        TailHolds(log, lo, k);
        TailHolds(log, lo, l + FRAME_OFFSET - 1);
        SameBlock(l, k);
        SameBlock(l, l + FRAME_OFFSET - 1);
        WrittenBelowNext(log, l + FRAME_OFFSET - 1);
        BlockIsPrefix(log, k, l + FRAME_OFFSET - 1);
      }
      assert end > l + FRAME_OFFSET;
    } else {
      assert end <= l + FRAME_OFFSET;
      forall k | l <= k < end ensures Base(k) == l {
        SameBlock(l, k);
      }
    }
  }

  lemma LastIsKept(slots: map<nat, Slot>, log: seq<Entry>, lo: nat)
    requires HoldsTail(slots, log, lo) && lo + KEPT <= NextNum(log)
    ensures log == [] ==> slots == map[]
    ensures log != [] ==> Num(log, |log| - 1) in slots
    ensures log != [] ==> forall k :: k in slots ==> k <= Num(log, |log| - 1)
  {
    if log != [] {
      NumIncreases(log, |log| - 1, |log|);
      NumIsWritten(log, |log| - 1);
      TailHolds(log, lo, Num(log, |log| - 1));
      forall k | k in slots ensures k <= Num(log, |log| - 1) {
        TailHolds(log, lo, k);
        WrittenUpToLast(log, k);
      }
    }
  }

  // ---------- Looking for a packet ----------

  // What one attempt of GetFrame comes to.  NotYet and Awaiting are its two waiting
  // loops: NotYet starts again with the same number, Awaiting only looks for num.
  datatype Attempt =
    | Delivered(frame: RtpFrame, len: nat, lastFrame: bool, iframe: bool, num: nat)
    | NotYet
    | Awaiting(num: nat)

  // A number after one that was written is no greater than the next.
  lemma ServedIsBehind(log: seq<Entry>, i: nat)
    requires i < |log|
    ensures Num(log, i) < NextNum(log)
  {
    NumIncreases(log, i, |log|);
  }

  // The attempt that hands out entry i of the log.
  function Serving(log: seq<Entry>, i: nat): Attempt
    requires i < |log|
  {
    var e := log[i];
    Delivered(e.frame, e.len, e.frame.marker, Num(log, i) == IframeNum(log), Num(log, i) + 1)
  }

  // The attempt hands out the packet of entry i and its length, says that it ends a frame
  // exactly if it has the marker, and that it is an I-frame exactly if it is the last one to
  // remember.
  ghost predicate HandsOut(log: seq<Entry>, i: nat, a: Attempt) {
    && a.Delivered? && i < |log|
    && a.frame == log[i].frame && a.len == log[i].len && a.num == Num(log, i) + 1
    && (a.lastFrame <==> log[i].frame.marker)
    && (a.iframe <==> IsLastIframe(log, i))
  }

  lemma ServingHandsOut(log: seq<Entry>, i: nat)
    requires i < |log|
    ensures HandsOut(log, i, Serving(log, i))
  {
    LastIframeIff(log, i);
  }

  // What a reader at num comes to that is to go on with entry i, or to wait for it.
  function OutcomeAt(log: seq<Entry>, num: nat, i: nat): Attempt {
    if NextNum(log) <= num then NotYet
    else if i < |log| then Serving(log, i)
    else Awaiting(NextNum(log))
  }

  // A reader that misses nothing goes on with the first entry not before num.
  function DueOutcome(log: seq<Entry>, num: nat): Attempt {
    OutcomeAt(log, num, FirstAt(log, num))
  }

  // With exact locks: what GetFrame comes to up to its second waiting loop.
  function TryOutcome(log: seq<Entry>, num: nat): Attempt {
    OutcomeAt(log, num, Seek(log, num))
  }

  // What a round of the second waiting loop comes to when the tail is at lo.
  function PollOutcome(log: seq<Entry>, lo: nat, num: nat): Attempt {
    if Written(log, num) && lo <= num then Serving(log, FirstAt(log, num)) else Awaiting(num)
  }

  // An entry not before num, and at a block start unless it is num.
  ghost predicate ServesFrom(log: seq<Entry>, num: nat, a: Attempt) {
    exists i: nat :: i < |log| && a == Serving(log, i) &&
      num <= Num(log, i) && (Num(log, i) == num || Offset(Num(log, i)) == 0)
  }

  // What GetFrame may come to, as far as the log decides it.  It waits for no number but the
  // one the next put writes, the start of a block.
  ghost predicate MayCome(log: seq<Entry>, num: nat, a: Attempt) {
    && (a.NotYet? <==> NextNum(log) <= num)
    && (a.Awaiting? ==> a.num == NextNum(log) && Offset(a.num) == 0)
    && (a.Delivered? ==> ServesFrom(log, num, a))
    // while no walk went too far, a reader that is not behind comes to what is due
    && (WalksHold(log) ==> if Behind(log, num) then a.Delivered? else a == DueOutcome(log, num))
    && (LocksHold(log) ==> a == TryOutcome(log, num))
  }

  // A slot a reader may be served from.
  predicate Open(slots: map<nat, Slot>, n: nat) {
    n in slots && !slots[n].lock
  }

  // n is the first open slot, if any, of num and the block starts after it.
  ghost predicate FirstOpen(slots: map<nat, Slot>, num: nat, n: nat) {
    && num <= n && (n == num || Offset(n) == 0)
    && forall b: nat :: num <= b < n && (b == num || Offset(b) == 0) ==> !Open(slots, b)
  }

  // What GetFrame comes to up to its second waiting loop, for any slots.
  ghost predicate Comes(slots: map<nat, Slot>, log: seq<Entry>, num: nat, a: Attempt) {
    match a
    case NotYet => NextNum(log) <= num
    case Awaiting(n) => num < n == NextNum(log) && FirstOpen(slots, num, n) && !Open(slots, n)
    case Delivered(_, _, _, _, n) =>
      && num < n <= NextNum(log) && FirstOpen(slots, num, n - 1) && Open(slots, n - 1)
      && FirstAt(log, n - 1) < |log| && a == Serving(log, FirstAt(log, n - 1))
  }

  lemma SkipOne(slots: map<nat, Slot>, num: nat, n: nat)
    requires FirstOpen(slots, num, n) && !Open(slots, n)
    ensures FirstOpen(slots, num, Base(n) + FRAME_OFFSET)
  {
    var next := Base(n) + FRAME_OFFSET;
    SameBlock(n, 0);
    forall b: nat | num <= b < next && (b == num || Offset(b) == 0)
      ensures !Open(slots, b)
    {
      SameBlock(n, b);
    }
  }

  lemma BlockBefore(n: nat, num: nat)
    requires Offset(n) == 0 && num < n
    ensures n - 1 - Offset(n - 1) + FRAME_OFFSET == n
    ensures Base(n - 1) <= num ==> Base(num) == Base(n - 1)
    ensures Base(Base(n - 1)) == Base(n - 1)
  {
    hide Base;
    SameBlock(n - 1, num);
    SameBlock(n - 1, n);
  }

  // The step of the skipping loop that came to n.
  lemma SkippedFrom(slots: map<nat, Slot>, num: nat, n: nat) returns (m: nat)
    requires FirstOpen(slots, num, n) && num < n
    ensures m < n == Base(m) + FRAME_OFFSET && FirstOpen(slots, num, m) && !Open(slots, m)
  {
    BlockBefore(n, num);
    hide Base, Open;
    m := if Base(n - 1) <= num then num else Base(n - 1);
  }

  // A reader never skips past the writer, whatever the frames are.
  lemma SkipStaysBehind(slots: map<nat, Slot>, log: seq<Entry>, lo: nat, n: nat)
    requires CacheLaw(slots, log, lo) && n < NextNum(log) && !Open(slots, n)
    ensures Base(n) + FRAME_OFFSET <= NextNum(log)
    ensures Offset(Base(n) + FRAME_OFFSET) == 0
  {
    hide Tail, Base, LocksHold, WalksHold, Num, Written;
    SameBlock(n, NextNum(log));
    TailHolds(log, lo, n);
    if n !in slots && lo <= n {
      JumpKeepsPlace(log, n);
    }
  }

  // With exact locks, n is on the way from num to where the reader is to be served.
  ghost predicate Towards(log: seq<Entry>, num: nat, n: nat) {
    num <= n && (n < SeekFrom(log, num) || FirstAt(log, n) == Seek(log, num))
  }

  lemma SkipStep(slots: map<nat, Slot>, log: seq<Entry>, lo: nat, num: nat, n: nat)
    requires CacheLaw(slots, log, lo) && LocksHold(log)
    requires n < NextNum(log) && !Open(slots, n) && Towards(log, num, n)
    ensures Towards(log, num, Base(n) + FRAME_OFFSET)
  {
    hide Tail, Base, LocksHold, WalksHold, Num, FirstAt, Written;
    SeekFromIsStart(log, num);
    SameBlock(n, SeekFrom(log, num));
    if n >= SeekFrom(log, num) {
      NotLocked(log, num, n);
      TailHolds(log, lo, n);
      JumpKeepsPlace(log, n);
    }
  }

  lemma {:induction false} WayToSeek(slots: map<nat, Slot>, log: seq<Entry>, lo: nat, num: nat, n: nat)
    requires CacheLaw(slots, log, lo) && LocksHold(log)
    requires n <= NextNum(log) && FirstOpen(slots, num, n)
    ensures Towards(log, num, n)
    decreases n
  {
    hide CacheLaw, LocksHold, Num, FirstAt, Base, Lags, FirstOpen;
    if num < n {
      var m := SkippedFrom(slots, num, n);
      WayToSeek(slots, log, lo, num, m);
      SkipStep(slots, log, lo, num, m);
    } else {
      FirstOpenIsAfter(slots, num, n);
      SeekFromIsStart(log, num);
    }
  }

  lemma FirstOpenIsAfter(slots: map<nat, Slot>, num: nat, n: nat)
    requires FirstOpen(slots, num, n)
    ensures num <= n && (n == num || Offset(n) == 0)
  {
  }

  lemma SeekEnd(slots: map<nat, Slot>, log: seq<Entry>, lo: nat, num: nat, n: nat)
    requires CacheLaw(slots, log, lo) && LocksHold(log)
    requires n <= NextNum(log) && Towards(log, num, n)
    requires Open(slots, n) || n == NextNum(log)
    ensures Seek(log, num) == FirstAt(log, n)
  {
    hide Tail, Base, LocksHold, WalksHold, Num, FirstAt, Written;
    SeekFromIsStart(log, num);
    if n < SeekFrom(log, num) {
      BehindIsLocked(log, num, n);
    }
  }

  // While nothing is locked early, a reader that is not behind skips only numbers that
  // nobody wrote.
  lemma {:induction false} WayToDue(slots: map<nat, Slot>, log: seq<Entry>, lo: nat, num: nat, n: nat)
    requires CacheLaw(slots, log, lo) && NoEarlyLock(slots, NextNum(log)) && !Behind(log, num)
    requires n <= NextNum(log) && FirstOpen(slots, num, n)
    ensures FirstAt(log, n) == FirstAt(log, num)
    decreases n
  {
    hide CacheLaw, NoEarlyLock, Num, FirstAt, Base, Behind, FirstOpen;
    FirstOpenIsAfter(slots, num, n);
    if num < n {
      var m := SkippedFrom(slots, num, n);
      WayToDue(slots, log, lo, num, m);
      if Written(log, m) {
        DueIsOpen(slots, log, lo, num, m);
      }
      JumpKeepsPlace(log, m);
    }
  }

  // The number that is due, if it was written, can be served.
  lemma DueIsOpen(slots: map<nat, Slot>, log: seq<Entry>, lo: nat, num: nat, m: nat)
    requires CacheLaw(slots, log, lo) && NoEarlyLock(slots, NextNum(log)) && !Behind(log, num)
    requires FirstAt(log, m) == FirstAt(log, num) && Written(log, m)
    ensures Open(slots, m)
  {
    hide Tail, Num, FirstAt, Base, LocksHold, WalksHold;
    HeldIsTail(slots, log, lo, m);
    if m < lo {
      KeptIsBeyondLock(m, NextNum(log));
    }
  }

  // While nothing is locked early, a reader that is behind finds the oldest block start
  // that is not behind.
  lemma BehindIsServed(slots: map<nat, Slot>, log: seq<Entry>, lo: nat, num: nat)
    requires CacheLaw(slots, log, lo) && NoEarlyLock(slots, NextNum(log)) && Behind(log, num)
    ensures var b := Base(NextNum(log)) - LOCK_DISTANCE + FRAME_OFFSET;
            num <= b < NextNum(log) && Offset(b) == 0 && Open(slots, b)
  {
    hide Tail, Num, FirstAt, Base, LocksHold, WalksHold;
    var n, next := Num(log, FirstAt(log, num)), NextNum(log);
    var b := Base(next) - LOCK_DISTANCE + FRAME_OFFSET;
    BlockArithmetic(n, next);
    NextOfFirst(n, b);
    NotBehind(b, next);
    BlockStartWritten(log, b);
    HeldIsTail(slots, log, lo, b);
  }

  lemma NextOfFirst(n: nat, b: nat)
    requires FRAME_BUF_SIZE <= n < b
    ensures FRAME_BUF_SIZE <= b
    ensures Base(b) == b ==> Offset(b) == 0
  {
  }

  lemma NotBehind(b: nat, next: nat)
    requires b + LOCK_DISTANCE == Base(next) + FRAME_OFFSET
    ensures Base(b) + LOCK_DISTANCE > Base(next) && Offset(b) == 0 && next < b + KEPT && b < next
  {
  }

  // ---------- What an attempt comes to ----------

  // Where the skipping loop ends decides the attempt.
  lemma ComesTo(slots: map<nat, Slot>, log: seq<Entry>, lo: nat, num: nat, n: nat)
    requires CacheLaw(slots, log, lo)
    requires num < NextNum(log) && n <= NextNum(log) && FirstOpen(slots, num, n)
    requires Open(slots, n) || n == NextNum(log)
    ensures n in slots ==> FirstAt(log, n) < |log| && Comes(slots, log, num, Serving(log, FirstAt(log, n)))
    ensures n !in slots ==> Comes(slots, log, num, Awaiting(n))
  {
    hide Tail, Num, FirstAt, LockLaw, IframeNum;
    HeldIsTail(slots, log, lo, n);
    NumIsWritten(log, |log|);
    if n in slots {
      WrittenBelowNext(log, n);
    }
  }

  lemma {:induction false} SomeFirstOpen(slots: map<nat, Slot>, log: seq<Entry>, lo: nat, num: nat, n: nat)
    returns (m: nat)
    requires CacheLaw(slots, log, lo)
    requires n <= NextNum(log) && FirstOpen(slots, num, n)
    ensures m <= NextNum(log) && FirstOpen(slots, num, m) && (Open(slots, m) || m == NextNum(log))
    decreases NextNum(log) - n
  {
    hide CacheLaw, Num, FirstOpen;
    m := n;
    if !Open(slots, n) && n < NextNum(log) {
      SkipStaysBehind(slots, log, lo, n);
      SkipOne(slots, num, n);
      m := SomeFirstOpen(slots, log, lo, num, Base(n) + FRAME_OFFSET);
    }
  }

  // An attempt always comes to something.
  lemma AttemptExists(slots: map<nat, Slot>, log: seq<Entry>, lo: nat, num: nat) returns (a: Attempt)
    requires CacheLaw(slots, log, lo)
    ensures Comes(slots, log, num, a)
  {
    hide CacheLaw, Num, FirstAt, IframeNum, Comes;
    if NextNum(log) <= num {
      a := NotYet;
      assert Comes(slots, log, num, a) by {
        NotYetComes(slots, log, num);
      }
    } else {
      assert FirstOpen(slots, num, num);
      var n := SomeFirstOpen(slots, log, lo, num, num);
      ComesTo(slots, log, lo, num, n);
      a := if n in slots then Serving(log, FirstAt(log, n)) else Awaiting(n);
    }
  }

  lemma NotYetComes(slots: map<nat, Slot>, log: seq<Entry>, num: nat)
    requires NextNum(log) <= num
    ensures Comes(slots, log, num, NotYet)
  {
  }

  // An attempt of a reader that is not behind comes to what is due, while nothing is
  // locked early.
  lemma ComesDue(slots: map<nat, Slot>, log: seq<Entry>, lo: nat, num: nat, a: Attempt)
    requires CacheLaw(slots, log, lo) && Comes(slots, log, num, a) && NoEarlyLock(slots, NextNum(log))
    ensures if Behind(log, num) then a.Delivered? else a == DueOutcome(log, num)
  {
    hide CacheLaw, NoEarlyLock, Num, FirstAt, Base, Lags, IframeNum;
    if Behind(log, num) {
      BehindIsServed(slots, log, lo, num);
    } else if num < NextNum(log) {
      NumIsWritten(log, |log|);
      WayToDue(slots, log, lo, num, if a.Awaiting? then a.num else a.num - 1);
    }
  }

  // With exact locks every attempt is decided by the log.
  lemma ComesTry(slots: map<nat, Slot>, log: seq<Entry>, lo: nat, num: nat, a: Attempt)
    requires CacheLaw(slots, log, lo) && Comes(slots, log, num, a) && LocksHold(log)
    ensures a == TryOutcome(log, num)
  {
    hide CacheLaw, LocksHold, Num, FirstAt, Base, Seek, Towards, IframeNum, FirstOpen;
    if num < NextNum(log) {
      var n := if a.Awaiting? then a.num else a.num - 1;
      NumIsWritten(log, |log|);
      WayToSeek(slots, log, lo, num, n);
      SeekEnd(slots, log, lo, num, n);
    }
  }

  lemma ComesMay(slots: map<nat, Slot>, log: seq<Entry>, lo: nat, num: nat, a: Attempt)
    requires CacheLaw(slots, log, lo) && Comes(slots, log, num, a)
    ensures MayCome(log, num, a)
  {
    ComesFrom(slots, log, lo, num, a);
    hide HoldsTail, LocksHold, WalksHold, NoEarlyLock, ExactLocks, OnlyEarlierLocks, Comes, Num, ServesFrom, Offset,
         Behind, DueOutcome, TryOutcome;
    if WalksHold(log) {
      ComesDue(slots, log, lo, num, a);
    }
    if LocksHold(log) {
      ComesTry(slots, log, lo, num, a);
    }
  }

  lemma ComesFrom(slots: map<nat, Slot>, log: seq<Entry>, lo: nat, num: nat, a: Attempt)
    requires CacheLaw(slots, log, lo) && Comes(slots, log, num, a)
    ensures a.NotYet? <==> NextNum(log) <= num
    ensures a.Awaiting? ==> a.num == NextNum(log) && Offset(a.num) == 0
    ensures a.Delivered? ==> ServesFrom(log, num, a) && a.num <= NextNum(log)
  {
    hide Tail, Num, FirstAt, LockLaw, IframeNum, Base;
    if a.Delivered? {
      HeldIsTail(slots, log, lo, a.num - 1);
    }
  }

  // A number that is locked early is refused to a reader that is not behind.
  lemma LockedEarlyIsRefused(slots: map<nat, Slot>, log: seq<Entry>, lo: nat, k: nat, a: Attempt)
    requires CacheLaw(slots, log, lo) && Comes(slots, log, k, a)
    requires k in slots && slots[k].lock && Base(k) + LOCK_DISTANCE > Base(NextNum(log))
    ensures Written(log, k) && !Behind(log, k) && a != DueOutcome(log, k)
  {
    hide Tail, Num, FirstAt, Base, LockLaw, IframeNum, FirstOpen;
    HeldIsTail(slots, log, lo, k);
    WrittenBelowNext(log, k);
    assert DueOutcome(log, k).num == k + 1;
  }

  // So readers that are not behind come to what is due to them, each of them and in every
  // attempt, exactly if nothing is locked early.
  lemma KeepsUpIff(slots: map<nat, Slot>, log: seq<Entry>, lo: nat)
    requires CacheLaw(slots, log, lo)
    ensures NoEarlyLock(slots, NextNum(log)) <==>
            forall num, a :: Comes(slots, log, num, a) && !Behind(log, num) ==> a == DueOutcome(log, num)
  {
    hide CacheLaw, Comes, Behind, DueOutcome, Num, Base;
    if NoEarlyLock(slots, NextNum(log)) {
      forall num, a | Comes(slots, log, num, a) && !Behind(log, num)
        ensures a == DueOutcome(log, num)
      {
        ComesDue(slots, log, lo, num, a);
      }
    } else {
      var k :| k in slots && slots[k].lock && Base(k) + LOCK_DISTANCE > Base(NextNum(log));
      var a := AttemptExists(slots, log, lo, k);
      LockedEarlyIsRefused(slots, log, lo, k, a);
    }
  }

  // A put whose walk goes too far refuses a packet that is held, and whose reader is not
  // behind: the first one of the block after the one that falls behind.
  lemma OverWalkRefuses(slots: map<nat, Slot>, slots': map<nat, Slot>, log: seq<Entry>, lo: nat, e: Entry, end: nat,
                        a: Attempt)
    requires CacheLaw(slots, log, lo) && PutsTo(slots, slots', log, lo, e, end) && OverWalks(log, e)
    requires Comes(slots', log + [e], FallingBlock(NextNum(log)) + FRAME_OFFSET, a)
    ensures var k := FallingBlock(NextNum(log)) + FRAME_OFFSET;
            && k in slots' && Offset(k) == 0 && Written(log + [e], k) && !Behind(log + [e], k)
            && a != DueOutcome(log + [e], k)
  {
    hide Tail, Base, Num, LocksHold, WalksHold, HoldsTail, LockLaw, LockedRun, TailAfter, AdvancedTail,
         Comes, Behind, DueOutcome, Written;
    var n, taken := NextNum(log), slots - {AdvancedTail(log, lo)};
    var stored := taken[n := Slot(e.frame, e.len, false)];
    var lo' := TailAfter(log, lo);
    PutLaw(slots, slots', log, lo, e, end);
    AfterRecycle(slots, log, lo);
    AfterStore(taken, stored, log, e, lo');
    NumOfPrefix(log, [e], |log|);
    assert (log + [e])[..|log|] == log;
    OverWalkLocksEarly(stored, slots', log + [e], lo', n, end);
    LockedEarlyIsRefused(slots', log + [e], lo', FallingBlock(n) + FRAME_OFFSET, a);
  }

  // ---------- The cache ----------

  class CacheRTP {
    var seqN: nat
    var lastN: nat
    var iframeN: nat
    var fastUpdate: bool
    var uN: int
    var unitList: map<nat, CacheRTPUnit>

    // Every packet put so far.
    ghost var log: seq<Entry>

    // The units in the map.
    ghost var units: set<CacheRTPUnit>

    // Every unit serves one number only, the one it was stored under last.
    ghost predicate UnitsApart()
      reads this`unitList, this`units, units
    {
      forall k :: k in unitList ==> unitList[k] in units && unitList[k].num == k
    }

    ghost function Slots(): (slots: map<nat, Slot>)
      reads this`unitList, this`units, units
      requires UnitsApart()
      ensures slots.Keys == unitList.Keys
    {
      map k | k in unitList :: Slot(unitList[k].frame, unitList[k].len, unitList[k].lock)
    }

    // The unit is the one the map held under t.
    static ghost predicate TakenFrom(units: map<nat, CacheRTPUnit>, t: nat, unit: CacheRTPUnit) {
      t in units && unit == units[t]
    }

    ghost predicate Valid()
      reads this, units
    {
      && seqN == NextNum(log)
      && iframeN == IframeNum(log)
      && |unitList| <= FRAME_BUF_SIZE
      && UnitsApart()
      && CacheLaw(Slots(), log, lastN)
    }

    constructor ()
      ensures Valid() && log == []
      ensures seqN == 0x2000 && lastN == 0 && iframeN == 0
      ensures uN == 0 && !fastUpdate && unitList == map[] && units == {}
    {
      seqN, lastN, iframeN, uN, fastUpdate := FRAME_BUF_SIZE, 0, 0, 0, false;
      unitList := map[];
      units := {};
      log := [];
    }

    method IncrementUsersNumber()
      modifies this`uN
      ensures uN == old(uN) + 1
    {
      uN := uN + 1;
    }

    method DecrementUsersNumber()
      modifies this`uN
      ensures uN == old(uN) - 1
    {
      uN := uN - 1;
    }

    method OnFastUpdatePicture()
      modifies this`fastUpdate
      ensures fastUpdate
    {
      fastUpdate := true;
    }

    // Asks the encoder for an I-frame: once for any number of requests since the
    // last time, and not while the last I-frame is at most ten blocks old.
    method GetFastUpdate() returns (force: bool)
      requires Valid()
      modifies this`fastUpdate
      ensures Valid()
      ensures force <==> old(fastUpdate) && IframeNum(log) + FRAME_OFFSET * 10 < NextNum(log)
      ensures fastUpdate <==> old(fastUpdate) && !force
    {
      hide Tail, Num, IframeNum, HoldsTail, LockLaw;
      IframeIsWritten(log);
      if !fastUpdate {
        return false;
      }
      if seqN - iframeN <= FRAME_OFFSET * 10 {
        return false;
      }
      fastUpdate := false;
      assert Slots() == old(Slots());
      return true;
    }

    // The number of the last packet put: where a reader that attaches starts.
    method GetLastFrameNum() returns (num: nat)
      requires Valid()
      ensures num == if log == [] then 0 else Num(log, |log| - 1)
      ensures num < NextNum(log)
      ensures log != [] ==> num in unitList
    {
      hide HoldsTail, LockLaw, Tail, Num, Base, Written, IframeNum;
      LastIsKept(Slots(), log, lastN);
      if log != [] {
        NumIncreases(log, |log| - 1, |log|);
      }
      if unitList != map[] {
        assert unitList.Keys != {};
        num :| num in unitList && forall k :: k in unitList ==> k <= num;
      } else {
        num := 0;
      }
    }

    // The tail moves over numbers nobody wrote until it meets a unit to use again
    // or is less than the buffer size behind.
    method AdvanceTail()
      requires UnitsApart() && HoldsTail(Slots(), log, lastN) && lastN + KEPT <= seqN == NextNum(log)
      modifies this`lastN
      ensures UnitsApart() && HoldsTail(Slots(), log, lastN) && old(lastN) <= lastN && lastN + KEPT <= seqN
      ensures lastN == AdvancedTail(log, old(lastN))
      ensures lastN in unitList || seqN < lastN + FRAME_BUF_SIZE
      ensures Slots() == old(Slots())
    {
      hide Base, Num, Written, Slots, UnitsApart, HoldsTail, AdvancedTail;
      HeldIsTail(Slots(), log, lastN, lastN);
      while lastN !in unitList && seqN - lastN >= FRAME_BUF_SIZE
        invariant old(lastN) <= lastN && lastN + KEPT <= seqN
        invariant AdvancedTail(log, lastN) == AdvancedTail(log, old(lastN))
        invariant lastN in unitList <==> Written(log, lastN)
        invariant UnitsApart() && HoldsTail(Slots(), log, lastN) && Slots() == old(Slots())
        decreases seqN - lastN
      {
        TailStep(Slots(), log, lastN);
        lastN := Base(lastN) + FRAME_OFFSET;
      }
      TailStops(log, lastN);
    }

    // Takes the unit at the tail out of the map, or a new one.
    method TakeUnit() returns (unit: CacheRTPUnit)
      requires UnitsApart()
      modifies this`lastN, this`unitList, this`units
      ensures UnitsApart() && units == old(units) - {unit} && (unit in old(units) || fresh(unit))
      ensures unitList == old(unitList) - {old(lastN)} && Slots() == old(Slots()) - {old(lastN)}
      ensures lastN == if old(lastN) in old(unitList) then old(lastN) + 1 else old(lastN)
      ensures if old(lastN) in old(unitList) then TakenFrom(old(unitList), old(lastN), unit) else fresh(unit)
      ensures |unitList| == |old(Slots().Keys) - {old(lastN)}|
    {
      if lastN !in unitList {
        unit := new CacheRTPUnit();
      } else {
        unit := unitList[lastN];
        unitList := unitList - {lastN};
        lastN := lastN + 1;
      }
      units := units - {unit};
    }

    // Fills the unit and enters it under the writer's number.
    method Store(unit: CacheRTPUnit, frame: RtpFrame, len: nat)
      requires UnitsApart() && unit !in units && seqN !in unitList
      modifies unit, this`unitList, this`units
      ensures UnitsApart() && unitList == old(unitList)[seqN := unit] && units == old(units) + {unit}
      ensures Slots() == old(Slots())[seqN := Slot(frame, len, false)]
    {
      unit.frame, unit.len, unit.lock, unit.num := frame, len, false, seqN;
      unitList := unitList[seqN := unit];
      units := units + {unit};
    }

    method LockUnit(k: nat)
      requires UnitsApart() && k in unitList
      modifies units`lock
      ensures UnitsApart() && Slots() == old(Slots())[k := old(Slots())[k].(lock := true)]
    {
      unitList[k].lock := true;
    }

    // Locks the units numbered l and on, up to the first number that is missing.
    method LockFrame(l: nat) returns (ghost end: nat)
      requires UnitsApart() && forall k :: k in unitList ==> k < seqN
      modifies units`lock
      ensures UnitsApart() && l <= end && end !in unitList
      ensures LockedRun(old(Slots()), Slots(), l, end)
    {
      var n := l;
      while n in unitList
        invariant l <= n && UnitsApart()
        invariant LockedRun(old(Slots()), Slots(), l, n)
        decreases seqN - n
      {
        LockUnit(n);
        n := n + 1;
      }
      end := n;
    }

    // Makes room for a packet: with the unit at the tail, which was locked, or with a new one.
    method Recycle() returns (unit: CacheRTPUnit)
      requires Valid()
      modifies this`lastN, this`unitList, this`units
      ensures UnitsApart() && units == old(units) - {unit} && (unit in old(units) || fresh(unit))
      ensures Slots() == old(Slots()) - {AdvancedTail(log, old(lastN))}
      ensures old(lastN) <= lastN == TailAfter(log, old(lastN))
      ensures |unitList| < FRAME_BUF_SIZE && |old(unitList)| <= |unitList| + 1
      ensures forall k :: k in unitList ==> k < seqN
      ensures unitList == old(unitList) - {AdvancedTail(log, old(lastN))}
      ensures var t := AdvancedTail(log, old(lastN));
              if t in old(unitList) then TakenFrom(old(unitList), t, unit) else fresh(unit)
    {
      hide Base, Num, NextNum, IframeNum, HoldsTail, LockLaw, ExactLocks, TailAfter, AdvancedTail, Slots, UnitsApart;
      AdvanceTail();
      AtTail(Slots(), log, old(lastN), lastN);
      unit := TakeUnit();
    }

    // Moves the writer's number on after the packet stored last.  A packet with the
    // marker ends its frame and locks the frame half a buffer behind.
    method MoveOn(marker: bool) returns (ghost end: nat)
      requires UnitsApart() && FRAME_BUF_SIZE <= seqN && forall k :: k in unitList ==> k <= seqN
      modifies this`seqN, units`lock
      ensures seqN == if marker then Base(old(seqN)) + FRAME_OFFSET else old(seqN) + 1
      ensures UnitsApart()
      ensures marker ==>
                && FallingBlock(old(seqN)) <= end && end !in unitList
                && LockedRun(old(Slots()), Slots(), FallingBlock(old(seqN)), end)
      ensures !marker ==> Slots() == old(Slots())
    {
      hide Base, LockedRun, UnitsApart, Slots;
      ghost var slots := Slots();
      end := 0;
      if marker {
        seqN := Base(seqN) + FRAME_OFFSET;
        assert Slots() == slots;
        end := LockFrame(seqN - LOCK_DISTANCE);
      } else {
        seqN := seqN + 1;
        assert Slots() == slots;
      }
    }

    // Enters the packet under the writer's number and remembers it if it starts an I-frame.
    method Enter(unit: CacheRTPUnit, frame: RtpFrame, len: nat, iframe: bool)
      requires UnitsApart() && unit !in units && seqN !in unitList
      requires seqN == NextNum(log) && iframeN == IframeNum(log)
      modifies this`unitList, this`units, this`iframeN, this`log, unit
      ensures UnitsApart() && unitList == old(unitList)[seqN := unit] && units == old(units) + {unit}
      ensures Slots() == old(Slots())[seqN := Slot(frame, len, false)]
      ensures log == old(log) + [Entry(frame, len, iframe)] && iframeN == IframeNum(log)
    {
      hide Base, Num, IframeNum;
      IframeAfterPut(log, Entry(frame, len, iframe));
      Store(unit, frame, len);
      ghost var slots := Slots();
      if iframe && seqN > Base(iframeN) + FRAME_OFFSET {
        iframeN := seqN;
      }
      log := log + [Entry(frame, len, iframe)];
      assert Slots() == slots;
    }

    // Puts the packet, in a unit that is in no map, at the head of the cache.
    method Append(unit: CacheRTPUnit, frame: RtpFrame, len: nat, iframe: bool) returns (ghost end: nat)
      requires UnitsApart() && unit !in units && forall k :: k in unitList ==> k < seqN
      requires seqN == NextNum(log) && iframeN == IframeNum(log)
      modifies this`unitList, this`units, this`iframeN, this`log, this`seqN, unit, units`lock
      ensures UnitsApart() && units == old(units) + {unit} && unitList == old(unitList)[old(seqN) := unit]
      ensures log == old(log) + [Entry(frame, len, iframe)]
      ensures seqN == NextNum(log) && iframeN == IframeNum(log)
      ensures Stores(old(Slots()), Slots(), old(seqN), Entry(frame, len, iframe), end)
    {
      hide Base, IframeNum, UnitsApart, Slots, LockedRun, Num;
      ghost var slots := Slots();
      WrittenAfterPut(log, Entry(frame, len, iframe), 0);
      Enter(unit, frame, len, iframe);
      ghost var stored := Slots();
      assert stored == slots[seqN := Slot(frame, len, false)];
      end := MoveOn(frame.marker);
    }

    // Puts one packet: the log grows by it and the cache still holds its tail.  At
    // most one unit is used again, the one at the tail, and with exact locks only if it
    // was locked.  The slots change as PutsTo says; what that makes of the laws of the locks
    // is PutKeepsLocks.  uN and fastUpdate are left alone.
    method PutFrame(frame: RtpFrame, len: nat, iframe: bool)
      returns (ghost unit: CacheRTPUnit, ghost end: nat)
      requires Valid()
      modifies this`seqN, this`lastN, this`iframeN, this`unitList, this`log, this`units, units
      ensures Valid() && fresh(units - old(units))
      ensures log == old(log) + [Entry(frame, len, iframe)]
      ensures old(lastN) <= lastN == TailAfter(old(log), old(lastN))
      ensures PutsTo(old(Slots()), Slots(), old(log), old(lastN), Entry(frame, len, iframe), end)
      ensures PutKeepsLocks(old(Slots()), Slots(), old(log), Entry(frame, len, iframe))
      ensures ExactLocks(old(Slots()), old(seqN)) ==> TailIsLocked(old(Slots()), AdvancedTail(old(log), old(lastN)))
      ensures unitList == (old(unitList) - {AdvancedTail(old(log), old(lastN))})[old(seqN) := unit]
      ensures var t := AdvancedTail(old(log), old(lastN));
              if t in old(unitList) then TakenFrom(old(unitList), t, unit) else fresh(unit)
    {
      hide Num, NextNum, IframeNum, CacheLaw, UnitsApart, Slots, ExactLocks, PutKeepsLocks, TailAfter, AdvancedTail,
           Stores, TakenFrom, TailIsLocked;
      ghost var slots, before := Slots(), log;
      var u := Recycle();
      unit := u;
      end := Append(u, frame, len, iframe);
      PutLaw(slots, Slots(), before, old(lastN), Entry(frame, len, iframe), end);
    }

    // The packet under a number that is in the map.
    method Serve(num: nat) returns (a: Attempt)
      requires Valid() && num in unitList
      ensures Written(log, num) && Num(log, FirstAt(log, num)) == num
      ensures a == Serving(log, FirstAt(log, num)) && HandsOut(log, FirstAt(log, num), a)
    {
      TailHolds(log, lastN, num);
      ServingHandsOut(log, FirstAt(log, num));
      assert Slots()[num].frame == EntryAt(log, num).frame && Slots()[num].len == EntryAt(log, num).len;
      var unit := unitList[num];
      a := Delivered(unit.frame, unit.len, unit.frame.marker, num == iframeN, num + 1);
    }

    // The skipping loop of GetFrame.
    method Skip(num: nat) returns (n: nat)
      requires Valid() && num < seqN
      ensures n <= seqN && FirstOpen(Slots(), num, n) && (Open(Slots(), n) || n == seqN)
    {
      hide CacheLaw, IframeNum, Num;
      ghost var slots := Slots();
      n := num;
      while (n !in unitList || unitList[n].lock) && n < seqN
        invariant n <= seqN && FirstOpen(slots, num, n)
        decreases seqN - n
      {
        SkipStaysBehind(slots, log, lastN, n);
        SkipOne(slots, num, n);
        n := Base(n) + FRAME_OFFSET;
      }
    }

    // GetFrame up to its second waiting loop: waits for a number the writer has not
    // reached, skips from block start to block start past numbers that are missing or
    // locked, and serves the first number that is neither.
    method GetFrame(num: nat) returns (a: Attempt)
      requires Valid()
      ensures Comes(Slots(), log, num, a)
      ensures MayCome(log, num, a)
      ensures a.Delivered? ==> exists i :: HandsOut(log, i, a)
      // a reader's number never passes the writer's
      ensures a.Delivered? ==> a.num <= NextNum(log)
    {
      hide Num, FirstAt, Written, CacheLaw, IframeNum, MayCome, FirstOpen, Comes;
      if num >= seqN {
        NotYetComes(Slots(), log, num);
        a := NotYet;
      } else {
        var n := Skip(num);
        ComesTo(Slots(), log, lastN, num, n);
        if n in unitList {
          a := Serve(n);
        } else {
          a := Awaiting(n);
        }
      }
      ComesFrom(Slots(), log, lastN, num, a);
      ComesMay(Slots(), log, lastN, num, a);
    }

    // One round of GetFrame's second waiting loop, which looks for num only.
    method PollFrame(num: nat) returns (a: Attempt)
      requires Valid()
      ensures a == PollOutcome(log, lastN, num)
      ensures a.Delivered? ==> HandsOut(log, FirstAt(log, num), a)
      ensures Written(log, num) && NextNum(log) <= num + KEPT ==> a.Delivered?
    {
      TailHolds(log, lastN, num);
      if num in unitList {
        a := Serve(num);
      } else {
        a := Awaiting(num);
      }
    }
  }
}
