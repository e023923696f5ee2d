// Numbers of the outgoing packet cache.
//
// The cache numbers the packets it is given: a frame starts at a multiple of
// FRAME_OFFSET, its packets follow one by one, and the packet that carries the
// marker ends it.  Everything a reader can observe is a function of the log of
// packets put so far, so the numbers are defined over that log.

module CacheNumbering {

  const FRAME_OFFSET: nat := 0x100
  const FRAME_BUF_SIZE: nat := 0x2000

  // Half of the buffer: frames that far behind the writer are locked.
  const LOCK_DISTANCE: nat := FRAME_BUF_SIZE / 2

  // What the cache keeps behind the writer, however the frames are sized.
  const KEPT: nat := FRAME_BUF_SIZE - FRAME_OFFSET

  // An RTP packet: its marker bit and the rest of its bytes.
  datatype RtpFrame = RtpFrame(marker: bool, bytes: seq<bv8>)

  // One call of PutFrame.
  datatype Entry = Entry(frame: RtpFrame, len: nat, iframe: bool)

  // num & FRAME_MASK
  function Base(n: nat): (b: nat)
    ensures b <= n < b + FRAME_OFFSET
  {
    n / 0x100 * 0x100
  }

  // The place of a number in its frame: zero at the start of one.
  function Offset(n: nat): nat {
    n - Base(n)
  }

  // Two numbers share a block when one lies between the other's base and the next.
  lemma SameBlock(n: nat, k: nat)
    ensures Base(n) == Base(k) <==> Base(n) <= k < Base(n) + FRAME_OFFSET
    ensures Base(Base(n)) == Base(n)
    ensures Base(Base(n) + FRAME_OFFSET) == Base(n) + FRAME_OFFSET
    ensures Base(n) < Base(k) ==> Base(n) + FRAME_OFFSET <= Base(k)
  {
  }

  // The frame half a buffer behind is the one that falls behind when a frame ends.
  lemma FallsBehind(k: nat, n: nat)
    ensures Base(k) + LOCK_DISTANCE <= Base(n) + FRAME_OFFSET <==>
            Base(k) + LOCK_DISTANCE <= Base(n) || Base(k) + LOCK_DISTANCE == Base(n) + FRAME_OFFSET
    ensures Base(Base(n) + FRAME_OFFSET) == Base(n) + FRAME_OFFSET
    ensures Offset(n) != FRAME_OFFSET - 1 ==> Base(n + 1) == Base(n)
  {
  }

  // Half a buffer before a block start is one too.
  lemma FrameStart(l: nat, n: nat)
    requires l + LOCK_DISTANCE == Base(n) + FRAME_OFFSET
    ensures Offset(l) == 0 && Offset(l + FRAME_OFFSET - 1) == FRAME_OFFSET - 1
  {
  }

  lemma KeptIsBeyondLock(k: nat, n: nat)
    requires k + KEPT <= n
    ensures Base(k) + LOCK_DISTANCE <= Base(n)
  {
  }

  // The number given to entry i; Num(log, |log|) is the number the next entry gets.
  function Num(log: seq<Entry>, i: nat): (n: nat)
    requires i <= |log|
    ensures FRAME_BUF_SIZE <= n
  {
    if i == 0 then FRAME_BUF_SIZE
    else if log[i-1].frame.marker then Base(Num(log, i-1)) + FRAME_OFFSET
    else Num(log, i-1) + 1
  }

  function NextNum(log: seq<Entry>): (n: nat)
    ensures FRAME_BUF_SIZE <= n
  {
    Num(log, |log|)
  }

  lemma {:induction false} NumIncreases(log: seq<Entry>, i: nat, j: nat)
    requires i < j <= |log|
    ensures Num(log, i) + (j - i) <= Num(log, j) <= Num(log, i) + FRAME_OFFSET * (j - i)
  {
    if i + 1 < j {
      NumIncreases(log, i, j - 1);
    }
  }

  // Runs of at most 0xFFFFDF puts stay below 2^32, so there the unbounded
  // numbers of this model are the source's 32-bit ones.
  lemma NumbersFit32Bits(log: seq<Entry>)
    requires |log| <= 0xFFFFDF
    ensures NextNum(log) < 0x1_0000_0000
  {
    if |log| > 0 {
      NumIncreases(log, 0, |log|);
    }
  }

  lemma {:induction false} NumOfPrefix(log: seq<Entry>, more: seq<Entry>, i: nat)
    requires i <= |log|
    ensures Num(log + more, i) == Num(log, i)
  {
    if i > 0 {
      NumOfPrefix(log, more, i - 1);
    }
  }

  // ---------- From a number back to the log ----------

  function FirstBelow(log: seq<Entry>, m: nat, n: nat): (i: nat)
    requires n <= |log|
    ensures i <= n
    ensures i < n ==> m <= Num(log, i)
    ensures i > 0 ==> Num(log, i - 1) < m
  {
    if n == 0 then 0
    else if Num(log, n - 1) < m then n
    else FirstBelow(log, m, n - 1)
  }

  // The first entry numbered m or more, |log| if there is none yet.
  function FirstAt(log: seq<Entry>, m: nat): (i: nat)
    ensures i <= |log|
    ensures i < |log| ==> m <= Num(log, i)
    ensures i > 0 ==> Num(log, i - 1) < m
  {
    FirstBelow(log, m, |log|)
  }

  predicate Written(log: seq<Entry>, m: nat) {
    var i := FirstAt(log, m);
    i < |log| && Num(log, i) == m
  }

  // The entry put under a written number.
  function EntryAt(log: seq<Entry>, m: nat): Entry
    requires Written(log, m)
  {
    log[FirstAt(log, m)]
  }

  lemma FirstAtUnique(log: seq<Entry>, m: nat, i: nat)
    requires i <= |log|
    requires i < |log| ==> m <= Num(log, i)
    requires i > 0 ==> Num(log, i - 1) < m
    ensures FirstAt(log, m) == i
  {
    var f := FirstAt(log, m);
    if f < i {
      if f < i - 1 { NumIncreases(log, f, i - 1); }
    } else if i < f {
      if i < f - 1 { NumIncreases(log, i, f - 1); }
    }
  }

  // Written numbers are exactly the numbers of entries.
  lemma NumIsWritten(log: seq<Entry>, i: nat)
    requires i <= |log|
    ensures FirstAt(log, Num(log, i)) == i
    ensures i < |log| ==> Written(log, Num(log, i))
  {
    if i > 0 {
      NumIncreases(log, i - 1, i);
    }
    FirstAtUnique(log, Num(log, i), i);
  }

  lemma WrittenBelowNext(log: seq<Entry>, m: nat)
    requires Written(log, m)
    ensures FRAME_BUF_SIZE <= m < NextNum(log)
  {
    var i := FirstAt(log, m);
    NumIncreases(log, i, |log|);
    if i > 0 {
      NumIncreases(log, 0, i);
    }
  }

  lemma WrittenUpToLast(log: seq<Entry>, m: nat)
    requires Written(log, m)
    ensures |log| > 0 && m <= Num(log, |log| - 1)
  {
    var i := FirstAt(log, m);
    if i < |log| - 1 {
      NumIncreases(log, i, |log| - 1);
    }
  }

  lemma FirstAtOfLonger(log: seq<Entry>, e: Entry, m: nat)
    requires m <= NextNum(log)
    ensures FirstAt(log + [e], m) == FirstAt(log, m)
  {
    var i := FirstAt(log, m);
    NumOfPrefix(log, [e], i);
    if i > 0 {
      NumOfPrefix(log, [e], i - 1);
    }
    FirstAtUnique(log + [e], m, i);
  }

  // Putting one entry writes the number the log promised next, and no other.
  lemma WrittenAfterPut(log: seq<Entry>, e: Entry, m: nat)
    ensures Written(log + [e], m) <==> Written(log, m) || m == NextNum(log)
    ensures m <= NextNum(log) ==> FirstAt(log + [e], m) == FirstAt(log, m)
    ensures NextNum(log + [e]) ==
            if e.frame.marker then Base(NextNum(log)) + FRAME_OFFSET else NextNum(log) + 1
  {
    var log' := log + [e];
    NumOfPrefix(log, [e], |log|);
    NumIncreases(log', |log|, |log| + 1);
    if m <= NextNum(log) {
      FirstAtOfLonger(log, e, m);
      NumOfPrefix(log, [e], FirstAt(log, m));
      NumIsWritten(log, |log|);
      if Written(log, m) {
        WrittenBelowNext(log, m);
      }
    } else {
      assert !Written(log, m) by {
        if Written(log, m) {
          WrittenBelowNext(log, m);
        }
      }
      FirstAtUnique(log', m, |log'|);
    }
  }

  lemma EntryAtAfterPut(log: seq<Entry>, e: Entry, m: nat)
    ensures Written(log, m) ==> m < NextNum(log) && Written(log + [e], m) && EntryAt(log + [e], m) == EntryAt(log, m)
    ensures m == NextNum(log) ==> Written(log + [e], m) && EntryAt(log + [e], m) == e
    ensures Written(log + [e], m) ==> Written(log, m) || m == NextNum(log)
  {
    WrittenAfterPut(log, e, m);
    if Written(log, m) {
      WrittenBelowNext(log, m);
    }
    NumIsWritten(log, |log|);
  }

  // ---------- Blocks are written as prefixes ----------

  lemma StartOfNext(log: seq<Entry>, i: nat)
    requires i <= |log|
    ensures i == 0 || log[i-1].frame.marker ==> Offset(Num(log, i)) == 0
    ensures i > 0 && !log[i-1].frame.marker ==> Num(log, i) == Num(log, i - 1) + 1
  {
    if i > 0 {
      FallsBehind(0, Num(log, i - 1));
    }
  }

  // A number that is not a frame start is written only after the one before it.
  lemma PredecessorWritten(log: seq<Entry>, m: nat)
    requires 0 < m <= NextNum(log) && Offset(m) != 0
    requires Written(log, m) || m == NextNum(log)
    ensures Written(log, m - 1)
  {
    var i := FirstAt(log, m);
    if m == NextNum(log) {
      NumIsWritten(log, |log|);
    }
    StartOfNext(log, i);
    NumIsWritten(log, i - 1);
  }

  lemma PredecessorInBlock(m: nat, k: nat)
    requires m < k && Base(m) == Base(k)
    ensures Base(k - 1) == Base(m) && Offset(k) != 0
  {
    SameBlock(k, m);
    SameBlock(k, k - 1);
  }

  lemma {:induction false} BlockIsPrefix(log: seq<Entry>, m: nat, k: nat)
    requires m < k <= NextNum(log) && Base(m) == Base(k)
    requires Written(log, k) || k == NextNum(log)
    ensures Written(log, m)
    decreases k
  {
    hide Written, NextNum, Base;
    PredecessorInBlock(m, k);
    PredecessorWritten(log, k);
    if m < k - 1 {
      WrittenBelowNext(log, k - 1);
      BlockIsPrefix(log, m, k - 1);
    }
  }

  // After a number that was not written nothing follows in its block, so a jump
  // to the next block start misses no entry.
  lemma JumpMissesNothing(log: seq<Entry>, m: nat)
    requires m <= NextNum(log) && !Written(log, m)
    ensures forall k :: m <= k < Base(m) + FRAME_OFFSET ==> !Written(log, k)
    ensures m < NextNum(log) ==> Base(m) + FRAME_OFFSET <= NextNum(log)
    ensures m < NextNum(log) ==> FirstAt(log, Base(m) + FRAME_OFFSET) == FirstAt(log, m)
  {
    forall k | m <= k < Base(m) + FRAME_OFFSET
      ensures !Written(log, k)
    {
      NotWrittenAhead(log, m, k);
    }
    if m < NextNum(log) {
      JumpKeepsPlace(log, m);
    }
  }

  lemma NotWrittenAhead(log: seq<Entry>, m: nat, k: nat)
    requires m <= NextNum(log) && !Written(log, m)
    requires m <= k < Base(m) + FRAME_OFFSET
    ensures !Written(log, k)
    ensures m < k ==> k != NextNum(log)
  {
    SameBlock(m, k);
    if m < k && (Written(log, k) || k == NextNum(log)) {
      if Written(log, k) {
        WrittenBelowNext(log, k);
      }
      BlockIsPrefix(log, m, k);
    }
  }

  lemma JumpKeepsPlace(log: seq<Entry>, m: nat)
    requires m < NextNum(log) && !Written(log, m)
    ensures Base(m) + FRAME_OFFSET <= NextNum(log)
    ensures FirstAt(log, Base(m) + FRAME_OFFSET) == FirstAt(log, m)
  {
    var i := FirstAt(log, m);
    if NextNum(log) < Base(m) + FRAME_OFFSET {
      NotWrittenAhead(log, m, NextNum(log));
    }
    if i < |log| {
      NumIsWritten(log, i);
      if Num(log, i) < Base(m) + FRAME_OFFSET {
        NotWrittenAhead(log, m, Num(log, i));
      }
    }
    FirstAtUnique(log, Base(m) + FRAME_OFFSET, i);
  }

  // No block is left out: every block start up to the writer is a number of the log.
  lemma BlockStartWritten(log: seq<Entry>, b: nat)
    requires FRAME_BUF_SIZE <= b <= NextNum(log) && Offset(b) == 0
    ensures Num(log, FirstAt(log, b)) == b
    ensures b < NextNum(log) ==> Written(log, b)
  {
    var i := FirstAt(log, b);
    if i > 0 {
      assert Num(log, i) <= Base(Num(log, i - 1)) + FRAME_OFFSET <= b;
    }
  }

  // ---------- Frames of at most 255 packets ----------

  // One of the 255 packets before entry i ends a frame.
  ghost predicate MarkedBefore(log: seq<Entry>, i: nat)
    requires i <= |log|
  {
    exists j :: i - (FRAME_OFFSET - 1) <= j < i && 0 <= j && log[j].frame.marker
  }

  // No packet follows 255 packets of its own frame.
  ghost predicate ShortFrames(log: seq<Entry>) {
    forall i :: FRAME_OFFSET - 1 <= i < |log| ==> MarkedBefore(log, i)
  }

  lemma ShortFramesOfPrefix(log: seq<Entry>, more: seq<Entry>)
    requires ShortFrames(log + more)
    ensures ShortFrames(log)
  {
    forall i | FRAME_OFFSET - 1 <= i < |log|
      ensures MarkedBefore(log, i)
    {
      assert MarkedBefore(log + more, i);
      var j :| i - (FRAME_OFFSET - 1) <= j < i && (log + more)[j].frame.marker;
      assert log[j].frame.marker;
    }
  }

  lemma {:induction false} UnmarkedRun(log: seq<Entry>, i: nat, n: nat)
    requires i + n <= |log|
    requires forall j :: i <= j < i + n ==> !log[j].frame.marker
    ensures Num(log, i + n) == Num(log, i) + n
  {
    if n > 0 {
      UnmarkedRun(log, i, n - 1);
    }
  }

  // The entries of the block of entry i, up to i, are the ones just before it.
  lemma {:induction false} OffsetCountsBack(log: seq<Entry>, i: nat, n: nat)
    requires i <= |log| && n <= Offset(Num(log, i))
    ensures n <= i && Num(log, i - n) == Num(log, i) - n
    ensures forall j :: i - n <= j < i ==> !log[j].frame.marker
  {
    hide Num, Offset;
    if n > 0 {
      GoesOnFrame(log, i);
      OffsetCountsBack(log, i - 1, n - 1);
    }
  }

  // A number that is not at a frame start follows that of the entry before.
  lemma GoesOnFrame(log: seq<Entry>, i: nat)
    requires i <= |log| && Offset(Num(log, i)) > 0
    ensures i > 0 && !log[i-1].frame.marker
    ensures Num(log, i) == Num(log, i - 1) + 1 && Offset(Num(log, i)) == Offset(Num(log, i - 1)) + 1
  {
  }

  lemma LastOfBlockUnmarked(log: seq<Entry>, i: nat)
    requires i <= |log|
    ensures Offset(Num(log, i)) == FRAME_OFFSET - 1 ==> i >= FRAME_OFFSET - 1 && !MarkedBefore(log, i)
  {
    hide Num, Offset;
    if Offset(Num(log, i)) == FRAME_OFFSET - 1 {
      OffsetCountsBack(log, i, FRAME_OFFSET - 1);
    }
  }

  lemma BlockFillsUp(log: seq<Entry>, i: nat) returns (k: nat)
    requires FRAME_OFFSET - 1 <= i < |log| && !MarkedBefore(log, i)
    ensures k < |log| && Offset(Num(log, k)) == FRAME_OFFSET - 1
  {
    var s := i - (FRAME_OFFSET - 1);
    var d := FRAME_OFFSET - 1 - Offset(Num(log, s));
    hide Num;
    UnmarkedRun(log, s, d);
    k := s + d;
    InSameBlock(Num(log, s), d);
  }

  lemma InSameBlock(n: nat, d: nat)
    requires Offset(n) + d < FRAME_OFFSET
    ensures Offset(n + d) == Offset(n) + d
  {
    SameBlock(n, n + d);
  }

  // Frames are short exactly when no packet gets the last number of a block.
  lemma ShortFramesIff(log: seq<Entry>)
    ensures ShortFrames(log) <==>
            forall i :: 0 <= i < |log| ==> Offset(Num(log, i)) != FRAME_OFFSET - 1
  {
    hide Num, Offset, MarkedBefore;
    if ShortFrames(log) {
      forall i | 0 <= i < |log|
        ensures Offset(Num(log, i)) != FRAME_OFFSET - 1
      {
        LastOfBlockUnmarked(log, i);
      }
    } else {
      var i :| FRAME_OFFSET - 1 <= i < |log| && !MarkedBefore(log, i);
      var k := BlockFillsUp(log, i);
    }
  }

  // With short frames a block start is a frame start: the packet before it ended its frame.
  lemma BlockStartsAreFrameStarts(log: seq<Entry>, i: nat)
    requires ShortFrames(log) && 0 < i < |log|
    ensures Offset(Num(log, i)) == 0 <==> log[i-1].frame.marker
  {
    ShortFramesIff(log);
    assert Offset(Num(log, i - 1)) != FRAME_OFFSET - 1;
  }

  lemma LastOfBlockUnused(log: seq<Entry>, m: nat)
    requires ShortFrames(log)
    ensures Offset(m) == FRAME_OFFSET - 1 ==> !Written(log, m)
  {
    ShortFramesIff(log);
    var i := FirstAt(log, m);
    assert i < |log| ==> Offset(Num(log, i)) != FRAME_OFFSET - 1;
  }

  // ---------- The tail of the log ----------

  // The entries numbered lo or more, under their numbers.
  ghost function Tail(log: seq<Entry>, lo: nat): map<nat, Entry> {
    if log == [] || Num(log, |log| - 1) < lo then map[]
    else Tail(log[..|log|-1], lo)[Num(log, |log| - 1) := log[|log|-1]]
  }

  lemma {:induction false} TailHolds(log: seq<Entry>, lo: nat, k: nat)
    ensures k in Tail(log, lo) <==> lo <= k && Written(log, k)
    ensures k in Tail(log, lo) ==> Tail(log, lo)[k] == EntryAt(log, k)
    ensures k in Tail(log, lo) ==> lo <= k < NextNum(log)
  {
    if log == [] {
    } else {
      var before, e := log[..|log|-1], log[|log|-1];
      assert log == before + [e];
      NumOfPrefix(before, [e], |before|);
      EntryAtAfterPut(before, e, k);
      NumIncreases(log, |log| - 1, |log|);
      TailHolds(before, lo, k);
    }
  }

  lemma TailGrows(log: seq<Entry>, e: Entry, lo: nat)
    requires lo <= NextNum(log)
    ensures NextNum(log) !in Tail(log, lo)
    ensures Tail(log + [e], lo) == Tail(log, lo)[NextNum(log) := e]
  {
    TailHolds(log, lo, NextNum(log));
    NumOfPrefix(log, [e], |log|);
    assert (log + [e])[..|log|] == log;
  }

  // Moving the tail over a number that is missing to the next block, or past a
  // number that is there, drops nothing else.
  lemma TailMoves(log: seq<Entry>, lo: nat)
    requires lo < NextNum(log)
    ensures lo in Tail(log, lo) ==> Tail(log, lo + 1) == Tail(log, lo) - {lo}
    ensures lo !in Tail(log, lo) ==> Tail(log, Base(lo) + FRAME_OFFSET) == Tail(log, lo)
    ensures lo !in Tail(log, lo) ==> Base(lo) + FRAME_OFFSET <= NextNum(log)
  {
    TailHolds(log, lo, lo);
    if Written(log, lo) {
      forall k: nat
        ensures k in Tail(log, lo + 1) <==> k in Tail(log, lo) && k != lo
        ensures k in Tail(log, lo + 1) ==> Tail(log, lo + 1)[k] == Tail(log, lo)[k]
      {
        TailHolds(log, lo, k);
        TailHolds(log, lo + 1, k);
      }
    } else {
      JumpMissesNothing(log, lo);
      var lo' := Base(lo) + FRAME_OFFSET;
      forall k: nat
        ensures k in Tail(log, lo') <==> k in Tail(log, lo)
        ensures k in Tail(log, lo') ==> Tail(log, lo')[k] == Tail(log, lo)[k]
      {
        TailHolds(log, lo, k);
        TailHolds(log, lo', k);
      }
    }
  }

  // Where the tail comes to as the next packet is put: over numbers that nobody wrote, up
  // to a unit to use again or less than the buffer size behind.
  function AdvancedTail(log: seq<Entry>, lo: nat): nat
    decreases NextNum(log) - lo
  {
    if Written(log, lo) || NextNum(log) < lo + FRAME_BUF_SIZE then lo
    else AdvancedTail(log, Base(lo) + FRAME_OFFSET)
  }

  // The unit at the tail is used again.
  function TailAfter(log: seq<Entry>, lo: nat): nat {
    var t := AdvancedTail(log, lo);
    if Written(log, t) then t + 1 else t
  }

  lemma {:induction false} AdvancedTailLaw(log: seq<Entry>, lo: nat)
    ensures lo <= AdvancedTail(log, lo)
    ensures lo + KEPT <= NextNum(log) ==> AdvancedTail(log, lo) + KEPT <= NextNum(log)
    decreases NextNum(log) - lo
  {
    if !Written(log, lo) && NextNum(log) >= lo + FRAME_BUF_SIZE {
      AdvancedTailLaw(log, Base(lo) + FRAME_OFFSET);
    }
  }

  // The tail never moves back, and never nearer to the writer than the cache keeps.
  lemma TailAfterLaw(log: seq<Entry>, lo: nat, e: Entry)
    requires lo + KEPT <= NextNum(log)
    ensures lo <= TailAfter(log, lo) && TailAfter(log, lo) + KEPT <= NextNum(log) + 1 <= NextNum(log + [e])
  {
    hide Num, Written;
    AdvancedTailLaw(log, lo);
    WrittenAfterPut(log, e, 0);
  }

  // The numbers of a block that are in the tail end where the first one is missing,
  // and with short frames the last one is.
  lemma BlockEnd(log: seq<Entry>, lo: nat, l: nat, end: nat, k: nat)
    requires lo <= l && Offset(l) == 0 && l <= end < l + FRAME_OFFSET <= NextNum(log)
    requires end !in Tail(log, lo) && k in Tail(log, lo)
    ensures l <= k < end <==> Base(k) == l
  {
    TailHolds(log, lo, end);
    TailHolds(log, lo, k);
    SameBlock(l, k);
    if end <= k < l + FRAME_OFFSET {
      SameBlock(l, end);
      NotWrittenAhead(log, end, k);
    }
  }

  // ---------- Where a reader is served from ----------

  // Sixteen frames or more behind the writer.
  predicate Lags(log: seq<Entry>, num: nat) {
    Base(num) + LOCK_DISTANCE <= Base(NextNum(log))
  }

  // A reader that lags goes on from the oldest frame that is not locked.
  function SeekFrom(log: seq<Entry>, num: nat): nat {
    if Lags(log, num) then Base(NextNum(log)) - LOCK_DISTANCE + FRAME_OFFSET else num
  }

  // The entry a reader at num is served next: the first one that is not before num
  // nor, for a reader that lags, before the oldest frame that is not locked.
  function Seek(log: seq<Entry>, num: nat): (i: nat)
    ensures i <= |log|
  {
    FirstAt(log, SeekFrom(log, num))
  }

  // The entry due to a reader at num is sixteen frames or more behind the writer.
  predicate Behind(log: seq<Entry>, num: nat) {
    var i := FirstAt(log, num);
    i < |log| && Lags(log, Num(log, i))
  }

  // A reader misses entries exactly when the one due to it is that far behind.
  lemma MissesIff(log: seq<Entry>, num: nat)
    requires num <= NextNum(log)
    ensures FirstAt(log, num) <= Seek(log, num)
    ensures FirstAt(log, num) < Seek(log, num) <==> Behind(log, num)
  {
    var i, f := FirstAt(log, num), SeekFrom(log, num);
    hide Num, Base, FirstAt;
    SeekFromIsStart(log, num);
    if i < |log| && Num(log, i) < f {
      NumIncreases(log, i, |log|);
      BehindIsLocked(log, num, Num(log, i));
      NotBefore(log, f, i);
    } else {
      FirstAtUnique(log, f, i);
      if i < |log| {
        NotLocked(log, num, Num(log, i));
      }
    }
  }

  lemma NotBefore(log: seq<Entry>, m: nat, i: nat)
    requires i < |log| && Num(log, i) < m
    ensures i < FirstAt(log, m)
  {
    var j := FirstAt(log, m);
    hide Num, FirstAt;
    if j < i {
      NumIncreases(log, j, i);
    }
  }

  lemma SeekFromIsStart(log: seq<Entry>, num: nat)
    requires num <= NextNum(log)
    ensures num <= SeekFrom(log, num) <= NextNum(log)
    ensures num < SeekFrom(log, num) ==> Lags(log, num) && Base(SeekFrom(log, num)) == SeekFrom(log, num)
  {
    hide Num;
    BlockArithmetic(num, NextNum(log));
  }

  // Numbers before that point are at least sixteen frames behind, numbers from it on are not.
  lemma BehindIsLocked(log: seq<Entry>, num: nat, n: nat)
    requires num <= NextNum(log) && num <= n < SeekFrom(log, num)
    ensures Base(n) + LOCK_DISTANCE <= Base(NextNum(log))
  {
    hide Num;
    BlockArithmetic(n, NextNum(log));
  }

  lemma NotLocked(log: seq<Entry>, num: nat, n: nat)
    requires num <= NextNum(log) && SeekFrom(log, num) <= n
    ensures Base(n) + LOCK_DISTANCE > Base(NextNum(log))
    ensures n + KEPT > NextNum(log)
  {
    hide Num;
    BlockArithmetic(n, NextNum(log));
    BlockArithmetic(num, NextNum(log));
    SameBlock(num, n);
    SameBlock(n, num);
  }

  lemma BlockArithmetic(n: nat, next: nat)
    ensures Base(n) + LOCK_DISTANCE <= Base(next) ==>
              && n < Base(next) - LOCK_DISTANCE + FRAME_OFFSET
              && Base(Base(next) - LOCK_DISTANCE + FRAME_OFFSET) == Base(next) - LOCK_DISTANCE + FRAME_OFFSET
    ensures Base(n) + LOCK_DISTANCE > Base(next) && Base(next) >= LOCK_DISTANCE ==>
              n >= Base(next) - LOCK_DISTANCE + FRAME_OFFSET
  {
  }

  // The I-frame the cache remembers: the last one that is more than a block start
  // past the block of the one remembered before it.
  function IframeNum(log: seq<Entry>): nat {
    if log == [] then 0
    else
      var n, last := Num(log, |log| - 1), IframeNum(log[..|log|-1]);
      if log[|log|-1].iframe && n > Base(last) + FRAME_OFFSET then n else last
  }

  lemma IframeAfterPut(log: seq<Entry>, e: Entry)
    ensures IframeNum(log + [e]) ==
            if e.iframe && NextNum(log) > Base(IframeNum(log)) + FRAME_OFFSET then NextNum(log) else IframeNum(log)
  {
    assert (log + [e])[..|log|] == log;
    NumOfPrefix(log, [e], |log|);
  }

  lemma {:induction false} IframeIsWritten(log: seq<Entry>)
    ensures IframeNum(log) == 0 || Written(log, IframeNum(log))
    ensures IframeNum(log) < NextNum(log)
  {
    if log != [] {
      var before, e := log[..|log|-1], log[|log|-1];
      assert log == before + [e];
      IframeIsWritten(before);
      IframeAfterPut(before, e);
      WrittenAfterPut(before, e, IframeNum(log));
      NumIncreases(log, |log| - 1, |log|);
      NumOfPrefix(before, [e], |before|);
    }
  }

  // Entry i is an I-frame to remember: it is more than a block start past the block of every
  // one remembered before it.
  ghost predicate Remembered(log: seq<Entry>, i: nat)
    requires i < |log|
  {
    log[i].iframe &&
    forall j: nat :: j < i && Remembered(log, j) ==> Num(log, i) > Base(Num(log, j)) + FRAME_OFFSET
  }

  // The last of them.
  ghost predicate IsLastIframe(log: seq<Entry>, i: nat) {
    i < |log| && Remembered(log, i) && forall j: nat :: i < j < |log| ==> !Remembered(log, j)
  }

  lemma {:induction false} RememberedBefore(log: seq<Entry>, e: Entry, i: nat)
    requires i < |log|
    ensures Remembered(log + [e], i) <==> Remembered(log, i)
    decreases i
  {
    hide Num, Base;
    NumOfPrefix(log, [e], i);
    forall j: nat | j < i
      ensures Remembered(log + [e], j) <==> Remembered(log, j)
      ensures Num(log + [e], j) == Num(log, j)
    {
      RememberedBefore(log, e, j);
      NumOfPrefix(log, [e], j);
    }
  }

  lemma BaseGrows(m: nat, n: nat)
    requires m <= n
    ensures Base(m) <= Base(n)
  {
  }

  // An I-frame after the last one remembered is one to remember exactly if it is more than
  // a block start past that one's block.
  lemma NextRemembered(log: seq<Entry>, e: Entry, last: nat)
    requires IsLastIframe(log, last)
    ensures Remembered(log + [e], |log|) <==> e.iframe && NextNum(log) > Base(Num(log, last)) + FRAME_OFFSET
  {
    hide Num, Base;
    var log' := log + [e];
    NumOfPrefix(log, [e], |log|);
    forall j: nat | j < |log|
      ensures Remembered(log', j) <==> Remembered(log, j)
      ensures Num(log', j) == Num(log, j)
      ensures Remembered(log, j) ==> Base(Num(log, j)) <= Base(Num(log, last))
    {
      RememberedBefore(log, e, j);
      NumOfPrefix(log, [e], j);
      if Remembered(log, j) {
        if j < last {
          NumIncreases(log, j, last);
        }
        BaseGrows(Num(log, j), Num(log, last));
      }
    }
  }

  lemma FirstRemembered(log: seq<Entry>, e: Entry)
    requires forall j: nat :: j < |log| ==> !Remembered(log, j)
    ensures Remembered(log + [e], |log|) <==> e.iframe
  {
    hide Num, Base;
    forall j: nat | j < |log|
      ensures !Remembered(log + [e], j)
    {
      RememberedBefore(log, e, j);
    }
  }

  // The number the cache remembers is that of the last I-frame to remember, if there is one.
  lemma {:induction false} IframeLaw(log: seq<Entry>) returns (last: int)
    ensures last < 0 ==> IframeNum(log) == 0 && forall j: nat :: j < |log| ==> !Remembered(log, j)
    ensures last >= 0 ==> IsLastIframe(log, last) && IframeNum(log) == Num(log, last)
  {
    last := -1;
    if log != [] {
      var before, e := log[..|log|-1], log[|log|-1];
      assert log == before + [e];
      last := IframeLaw(before);
      IframeAfterPut(before, e);
      NumOfPrefix(before, [e], |before|);
      hide IframeNum, Remembered, Num, NextNum;
      if last >= 0 {
        NextRemembered(before, e, last);
        NumOfPrefix(before, [e], last);
      } else {
        FirstRemembered(before, e);
        assert NextNum(before) > Base(0) + FRAME_OFFSET;
      }
      forall j: nat | j < |before|
        ensures Remembered(log, j) <==> Remembered(before, j)
      {
        RememberedBefore(before, e, j);
      }
      if Remembered(log, |before|) {
        last := |before|;
      }
    }
  }

  lemma LastIframeIff(log: seq<Entry>, i: nat)
    requires i < |log|
    ensures Num(log, i) == IframeNum(log) <==> IsLastIframe(log, i)
  {
    hide Remembered, Num, IframeNum;
    var last := IframeLaw(log);
    if last >= 0 {
      if last < i {
        NumIncreases(log, last, i);
      } else if i < last {
        NumIncreases(log, i, last);
      }
    }
  }
}
