// The locks of the outgoing packet cache, as far as the log of packets decides them.
//
// A frame is to be locked when it falls sixteen frames behind the writer.  The walk that
// locks it runs only when a packet with the marker is put, and it runs on while numbers
// are present.  So two puts break the locks: one that walks from a block written to its
// last number on into the next block, and one without a marker that crosses into the next
// block, so that no walk is made for the block that falls behind.

module CacheLocks {
  import opened CacheNumbering

  // The block that falls behind when the writer, at n, comes to the next block.
  function FallingBlock(n: nat): nat
    requires FRAME_BUF_SIZE <= n
  {
    Base(n) + FRAME_OFFSET - LOCK_DISTANCE
  }

  // The put makes a walk that goes too far: the block that falls behind is full.
  predicate OverWalks(log: seq<Entry>, e: Entry) {
    e.frame.marker && Written(log, FallingBlock(NextNum(log)) + FRAME_OFFSET - 1)
  }

  // The put lets a block fall behind without a walk.
  predicate CrossesOver(log: seq<Entry>, e: Entry) {
    var n := NextNum(log);
    !e.frame.marker && Offset(n) == FRAME_OFFSET - 1 && FRAME_BUF_SIZE <= FallingBlock(n)
  }

  // Whether a put breaks the locks, by what a caller can see before it.
  predicate BreaksLocks(log: seq<Entry>, e: Entry) {
    OverWalks(log, e) || CrossesOver(log, e)
  }

  // No put of the log made a walk that goes too far.
  predicate WalksHold(log: seq<Entry>) {
    log == [] || (WalksHold(log[..|log|-1]) && !OverWalks(log[..|log|-1], log[|log|-1]))
  }

  // No put of the log broke the locks.
  predicate LocksHold(log: seq<Entry>) {
    log == [] || (LocksHold(log[..|log|-1]) && !BreaksLocks(log[..|log|-1], log[|log|-1]))
  }

  lemma LocksHoldAfterPut(log: seq<Entry>, e: Entry)
    ensures LocksHold(log + [e]) <==> LocksHold(log) && !BreaksLocks(log, e)
  {
    assert (log + [e])[..|log|] == log;
  }

  lemma WalksHoldAfterPut(log: seq<Entry>, e: Entry)
    ensures WalksHold(log + [e]) <==> WalksHold(log) && !OverWalks(log, e)
  {
    assert (log + [e])[..|log|] == log;
  }

  lemma {:induction false} LocksHoldWalksHold(log: seq<Entry>)
    requires LocksHold(log)
    ensures WalksHold(log)
  {
    hide OverWalks, CrossesOver;
    if log != [] {
      LocksHoldWalksHold(log[..|log|-1]);
    }
  }

  // What holds after more puts held before.
  lemma {:induction false} HoldsForPrefix(log: seq<Entry>, more: seq<Entry>)
    ensures WalksHold(log + more) ==> WalksHold(log)
    ensures LocksHold(log + more) ==> LocksHold(log)
    decreases |more|
  {
    hide OverWalks, CrossesOver;
    if more == [] {
      assert log + more == log;
    } else {
      HoldsForPrefix(log, more[..|more|-1]);
      assert (log + more)[..|log + more| - 1] == log + more[..|more|-1];
    }
  }

  // Frames of at most 255 packets never break the locks.
  lemma {:induction false} ShortFramesKeepLocks(log: seq<Entry>)
    requires ShortFrames(log)
    ensures LocksHold(log)
  {
    hide ShortFrames;
    if log != [] {
      var before, e := log[..|log|-1], log[|log|-1];
      assert log == before + [e];
      ShortFramesOfPrefix(before, [e]);
      ShortFramesKeepLocks(before);
      ShortFramesPut(before, e);
    }
  }

  lemma ShortFramesPut(log: seq<Entry>, e: Entry)
    requires ShortFrames(log + [e])
    ensures !BreaksLocks(log, e)
  {
    hide ShortFrames, Num;
    var l := FallingBlock(NextNum(log));
    ShortFramesOfPrefix(log, [e]);
    FrameStart(l, NextNum(log));
    LastOfBlockUnused(log, l + FRAME_OFFSET - 1);
    ShortFramesIff(log + [e]);
    NumOfPrefix(log, [e], |log|);
  }

  // ---------- Logs that break the locks ----------

  const PACKET := Entry(RtpFrame(false, []), 0, false)
  const LAST_PACKET := Entry(RtpFrame(true, []), 0, false)

  function Packets(n: nat, e: Entry): (log: seq<Entry>)
    ensures |log| == n && forall i :: 0 <= i < n ==> log[i] == e
  {
    seq(n, _ => e)
  }

  lemma PacketsSnoc(log: seq<Entry>, n: nat, e: Entry)
    requires n > 0
    ensures log + Packets(n, e) == log + Packets(n - 1, e) + [e]
  {
  }

  // n packets of one frame more.
  lemma {:induction false} LongFrame(log: seq<Entry>, n: nat)
    requires LocksHold(log) && NextNum(log) + n < FRAME_BUF_SIZE + LOCK_DISTANCE
    ensures NextNum(log + Packets(n, PACKET)) == NextNum(log) + n
    ensures LocksHold(log + Packets(n, PACKET))
  {
    if n == 0 {
      assert log + Packets(0, PACKET) == log;
    } else {
      var before := log + Packets(n - 1, PACKET);
      PacketsSnoc(log, n, PACKET);
      LongFrame(log, n - 1);
      LocksHoldAfterPut(before, PACKET);
      WrittenAfterPut(before, PACKET, 0);
    }
  }

  // A frame of one packet more.
  lemma OnePacketFrame(log: seq<Entry>)
    requires LocksHold(log) && Base(NextNum(log)) + FRAME_OFFSET * 2 <= FRAME_BUF_SIZE + LOCK_DISTANCE
    ensures LocksHold(log + [LAST_PACKET])
    ensures NextNum(log + [LAST_PACKET]) == Base(NextNum(log)) + FRAME_OFFSET == Base(NextNum(log + [LAST_PACKET]))
  {
    hide Num, Base, Written;
    var m := FallingBlock(NextNum(log)) + FRAME_OFFSET - 1;
    SameBlock(NextNum(log), 0);
    LocksHoldAfterPut(log, LAST_PACKET);
    WrittenAfterPut(log, LAST_PACKET, m);
    if Written(log, m) {
      WrittenBelowNext(log, m);
    }
  }

  // n frames of one packet more.
  lemma {:induction false} OnePacketFrames(log: seq<Entry>, n: nat)
    requires LocksHold(log) && Base(NextNum(log)) + FRAME_OFFSET * (n + 1) <= FRAME_BUF_SIZE + LOCK_DISTANCE
    ensures LocksHold(log + Packets(n, LAST_PACKET))
    ensures Base(NextNum(log + Packets(n, LAST_PACKET))) == Base(NextNum(log)) + FRAME_OFFSET * n
    ensures n > 0 ==> NextNum(log + Packets(n, LAST_PACKET)) == Base(NextNum(log)) + FRAME_OFFSET * n
  {
    hide Base, NextNum, LocksHold;
    if n == 0 {
      assert log + Packets(0, LAST_PACKET) == log;
    } else {
      PacketsSnoc(log, n, LAST_PACKET);
      OnePacketFrames(log, n - 1);
      OnePacketFrame(log + Packets(n - 1, LAST_PACKET));
    }
  }

  // A frame of 4096 packets: the last one crosses into the next block without a walk.
  lemma LocksBreakWithoutWalk() returns (log: seq<Entry>)
    ensures LocksHold(log) && CrossesOver(log, PACKET)
  {
    log := [] + Packets(0xFFF, PACKET);
    LongFrame([], 0xFFF);
  }

  // The first 255 packets of a frame.
  lemma BeginFrame() returns (log: seq<Entry>)
    ensures LocksHold(log) && |log| == 0xFF && NextNum(log) == 0x20FF
  {
    log := [] + Packets(0xFF, PACKET);
    LongFrame([], 0xFF);
  }

  lemma FallingBlockValue()
    ensures FallingBlock(0x2F00) == 0x2000 && Base(0x20FF) == 0x2000
  {
  }

  // A frame of 256 packets, and fifteen of one: the walk of the last one goes too far.
  lemma LocksBreakByWalk() returns (log: seq<Entry>)
    ensures LocksHold(log) && OverWalks(log, LAST_PACKET) && |log| == 270
  {
    var full := BeginFrame();
    hide Num, Base, LocksHold, Packets, FallingBlock;
    var more := Packets(15, LAST_PACKET);
    log := full + more;
    FallingBlockValue();
    OnePacketFrames(full, 15);
    NumOfPrefix(full, more, |full|);
    NumIsWritten(log, |full|);
  }
}
