// The writer's clock of a participant's audio, and the margins a reader keeps from it.

module AudioClock {
  import opened Arithmetic
  import opened RingSlots
  import opened AudioTimeline

  const PCM_BUFFER_LEN_MS: nat := 480
  const PCM_BUFFER_MAX_READ_LEN_MS: nat := 96
  const PCM_BUFFER_MAX_WRITE_LEN_MS: nat := 40
  const PCM_BUFFER_LAG_MS: nat := 2

  // startTimestamp in microseconds (0 until the first write), timeIndex in milliseconds.
  datatype Clock = Clock(start: nat, timeIndex: nat)

  // A block of a frame time, as accepted by WriteAudio.
  datatype Write = Write(timestamp: nat, frameTime: nat)

  predicate Accepted(w: Write) {
    0 < w.frameTime <= PCM_BUFFER_MAX_WRITE_LEN_MS && w.frameTime * 1000 <= w.timestamp
  }

  // The clock is behind the source by more than the lag that is let pass.
  predicate HasLost(c: Clock, w: Write) {
    c.start != 0 && c.start + c.timeIndex * 1000 + w.frameTime * 1000 + PCM_BUFFER_LAG_MS * 1000 < w.timestamp
  }

  // The time index the block is written at.
  function WriteIndex(c: Clock, w: Write): int {
    if HasLost(c, w) then w.timestamp / 1000 - c.start / 1000 - w.frameTime else c.timeIndex
  }

  function After(c: Clock, w: Write): (c': Clock)
    requires Accepted(w)
    ensures c.timeIndex <= WriteIndex(c, w) == c'.timeIndex - w.frameTime
  {
    Resynchronised(c, w);
    Clock(if c.start == 0 then w.timestamp - w.frameTime * 1000 else c.start,
          WriteIndex(c, w) + w.frameTime)
  }

  // A re-synchronisation moves the clock forward by two milliseconds or more.
  lemma Resynchronised(c: Clock, w: Write)
    ensures HasLost(c, w) ==> c.timeIndex + PCM_BUFFER_LAG_MS <= WriteIndex(c, w)
  {
  }

  function AfterAll(c: Clock, ws: seq<Write>): Clock
    requires forall w :: w in ws ==> Accepted(w)
  {
    if ws == [] then c else After(AfterAll(c, ws[..|ws|-1]), ws[|ws|-1])
  }

  const STOPPED: Clock := Clock(0, 0)

  // The end of the last block, on the source's time scale, in microseconds.
  function Reached(c: Clock): nat {
    c.start + c.timeIndex * 1000
  }

  // Over every run of accepted writes the clock never goes back, every block starts at
  // or after the end of the one before, and the end of the last block is never more
  // than the lag behind the last source timestamp.
  lemma {:induction false} ClockLaw(ws: seq<Write>, i: nat)
    requires i <= |ws| && forall w :: w in ws ==> Accepted(w)
    ensures AfterAll(STOPPED, ws[..i]).timeIndex <= AfterAll(STOPPED, ws).timeIndex
    ensures ws != [] ==> ws[|ws|-1].timestamp <= Reached(AfterAll(STOPPED, ws)) + PCM_BUFFER_LAG_MS * 1000
    ensures i < |ws| ==> AfterAll(STOPPED, ws[..i]).timeIndex + ws[i].frameTime <= AfterAll(STOPPED, ws).timeIndex
  {
    if ws != [] {
      var before, w := ws[..|ws|-1], ws[|ws|-1];
      var c := AfterAll(STOPPED, before);
      Resynchronised(c, w);
      if i < |ws| {
        ClockLaw(before, i);
        assert ws[..i] == before[..i];
      } else {
        assert ws[..i] == ws;
      }
    }
  }

  // ---------- The clock and the source's timestamps ----------

  // Where a write leaves the clock: the first one exactly at its own timestamp, one that
  // jumps less than a millisecond from it, and any other one its frame time further on.
  lemma WriteLands(c: Clock, w: Write)
    requires Accepted(w)
    ensures c == STOPPED ==> Reached(After(c, w)) == w.timestamp
    ensures HasLost(c, w) ==> w.timestamp - 1000 < Reached(After(c, w)) < w.timestamp + 1000
    ensures HasLost(c, w) && c.start % 1000 == 0 && w.timestamp % 1000 == 0 ==> Reached(After(c, w)) == w.timestamp
    ensures c.start != 0 && !HasLost(c, w) ==> Reached(After(c, w)) == Reached(c) + w.frameTime * 1000
    ensures c.start != 0 ==> After(c, w).start == c.start
  {
  }

  // A block that begins where the source is, or later, on whole milliseconds.
  predicate IsNext(last: nat, w: Write) {
    && Accepted(w) && w.timestamp % 1000 == 0
    && w.frameTime * 1000 < w.timestamp && last + w.frameTime * 1000 <= w.timestamp
  }

  // The clock of a source that is at last: not ahead of it, and not behind by more than the lag.
  predicate KeepsTime(c: Clock, last: nat) {
    || (c == STOPPED && last == 0)
    || (c.start > 0 && c.start % 1000 == 0 && Reached(c) <= last <= Reached(c) + PCM_BUFFER_LAG_MS * 1000)
  }

  lemma WriteKeepsTime(c: Clock, w: Write, last: nat)
    requires KeepsTime(c, last) && IsNext(last, w)
    ensures KeepsTime(After(c, w), w.timestamp) && After(c, w).start > 0
    ensures c.start > 0 ==> After(c, w).start == c.start
    // Without a gap in the source the clock gains and loses nothing.
    ensures c.start > 0 && w.timestamp == last + w.frameTime * 1000 ==>
              w.timestamp - Reached(After(c, w)) == last - Reached(c)
    ensures c == STOPPED ==> Reached(After(c, w)) == w.timestamp
  {
    WriteLands(c, w);
  }

  // ---------- Reading ----------

  // Where in the writer's time a reader is that asks for the time dstTimestamp.
  function ReadIndex(start: nat, maxFrameTime: nat, dstTimestamp: nat): int {
    dstTimestamp / 1000 - start / 1000 - maxFrameTime - PCM_BUFFER_LAG_MS
  }

  // The guards of ReadAudio: dft milliseconds that end at dst are read.
  predicate ReadAccepted(timeIndex: nat, dst: int, dft: nat) {
    && timeIndex >= PCM_BUFFER_MAX_WRITE_LEN_MS + PCM_BUFFER_MAX_READ_LEN_MS + PCM_BUFFER_LAG_MS
    && dft <= PCM_BUFFER_MAX_READ_LEN_MS
    && dft <= dst <= timeIndex
    && timeIndex - dst <= PCM_BUFFER_LEN_MS - PCM_BUFFER_MAX_WRITE_LEN_MS - dft
  }

  // On the source's timestamps: what a read at dstTimestamp is of ends a frame of the greatest
  // time and the lag before it.  It is accepted exactly if that is not after the end of what
  // was written, the read begins no more than 440 milliseconds before that end, and neither
  // before the start.
  lemma ReadAcceptedIff(c: Clock, maxFrameTime: nat, dstTimestamp: nat, dft: nat)
    requires c.start % 1000 == 0 && dstTimestamp % 1000 == 0
    ensures var end := dstTimestamp - (maxFrameTime + 2) * 1000;
            ReadAccepted(c.timeIndex, ReadIndex(c.start, maxFrameTime, dstTimestamp), dft) <==>
            && c.timeIndex >= 138 && dft <= 96
            && c.start + dft * 1000 <= end <= Reached(c) <= end - dft * 1000 + 440 * 1000
  {
  }

  // A reader in step with the source, at its last timestamp or up to one greatest frame time
  // later, is not refused once 138 milliseconds were written.
  lemma ReaderInStepIsAccepted(c: Clock, last: nat, maxFrameTime: nat, dstTimestamp: nat, dft: nat)
    requires KeepsTime(c, last) && c.timeIndex >= 138 && maxFrameTime <= PCM_BUFFER_MAX_WRITE_LEN_MS && dft <= 96
    requires dstTimestamp % 1000 == 0 && last <= dstTimestamp <= last + maxFrameTime * 1000
    ensures ReadAccepted(c.timeIndex, ReadIndex(c.start, maxFrameTime, dstTimestamp), dft)
  {
    ReadAcceptedIff(c, maxFrameTime, dstTimestamp, dft);
  }

  // Milliseconds of the ring that a write of ft milliseconds at time index at and a
  // read of dft milliseconds that end at dst have in common.
  ghost predicate Tears(at: nat, ft: nat, dst: nat, dft: nat)
    requires dft <= dst
  {
    exists p: nat, q: nat :: dst - dft <= p < dst && at <= q < at + ft &&
      Slot(p, PCM_BUFFER_LEN_MS) == Slot(q, PCM_BUFFER_LEN_MS)
  }

  // The guard keeps a read clear of every next write in sequence, and keeps no more
  // distance than that takes.
  lemma NoTearingIff(timeIndex: nat, dst: nat, dft: nat)
    requires 0 < dft <= dst <= timeIndex < dst + PCM_BUFFER_LEN_MS
    ensures timeIndex - dst <= PCM_BUFFER_LEN_MS - PCM_BUFFER_MAX_WRITE_LEN_MS - dft <==>
            forall ft: nat :: ft <= PCM_BUFFER_MAX_WRITE_LEN_MS ==> !Tears(timeIndex, ft, dst, dft)
  {
    hide Slot;
    if timeIndex - dst <= PCM_BUFFER_LEN_MS - PCM_BUFFER_MAX_WRITE_LEN_MS - dft {
      forall p: nat, q: nat | dst - dft <= p < dst && timeIndex <= q < timeIndex + PCM_BUFFER_MAX_WRITE_LEN_MS
        ensures Slot(p, PCM_BUFFER_LEN_MS) != Slot(q, PCM_BUFFER_LEN_MS)
      {
        if Slot(p, PCM_BUFFER_LEN_MS) == Slot(q, PCM_BUFFER_LEN_MS) {
          SameSlotApart(p, q, PCM_BUFFER_LEN_MS);
        }
      }
    } else {
      var p := if dst - dft + PCM_BUFFER_LEN_MS >= timeIndex then dst - dft else timeIndex - PCM_BUFFER_LEN_MS;
      SlotOneTurnOn(p, PCM_BUFFER_LEN_MS);
      assert Slot(p, PCM_BUFFER_LEN_MS) == Slot(p + PCM_BUFFER_LEN_MS, PCM_BUFFER_LEN_MS);
      assert Tears(timeIndex, PCM_BUFFER_MAX_WRITE_LEN_MS, dst, dft);
    }
  }

  // How far after the first slot of the read the ring comes to the write.
  function Gap(at: nat, dst: nat, dft: nat): (g: nat)
    requires dft <= dst <= at
    ensures g < PCM_BUFFER_LEN_MS
  {
    (at - (dst - dft)) % PCM_BUFFER_LEN_MS
  }

  // The same for one millisecond of each, without the remainder.
  lemma SlotsMeetIff(p: nat, q: nat)
    requires p <= q
    ensures Slot(p, PCM_BUFFER_LEN_MS) == Slot(q, PCM_BUFFER_LEN_MS) <==> (q - p) % PCM_BUFFER_LEN_MS == 0
  {
  }

  // A write at or after the end of a read has a slot in common with it exactly if it begins
  // among the read's slots, going around, or comes around to the first of them.
  lemma TearsIff(at: nat, ft: nat, dst: nat, dft: nat)
    requires 0 < dft <= dst <= at && dft <= PCM_BUFFER_MAX_READ_LEN_MS
    requires 0 < ft <= PCM_BUFFER_MAX_WRITE_LEN_MS
    ensures Tears(at, ft, dst, dft) <==> Gap(at, dst, dft) < dft || Gap(at, dst, dft) + ft > PCM_BUFFER_LEN_MS
  {
    hide Slot;
    var g, first := Gap(at, dst, dft), dst - dft;
    if g < dft {
      SlotsMeetIff(first + g, at);
      assert Tears(at, ft, dst, dft);
    } else if g + ft > PCM_BUFFER_LEN_MS {
      var q := at + (PCM_BUFFER_LEN_MS - g);
      SlotsMeetIff(first, q);
      assert Tears(at, ft, dst, dft);
    } else {
      DoesNotTear(at, ft, dst, dft);
    }
  }

  lemma DoesNotTear(at: nat, ft: nat, dst: nat, dft: nat)
    requires dft <= dst <= at
    requires dft <= Gap(at, dst, dft) && Gap(at, dst, dft) + ft <= PCM_BUFFER_LEN_MS
    ensures !Tears(at, ft, dst, dft)
  {
    hide Slot;
    var first := dst - dft;
    forall p: nat, q: nat | first <= p < dst && at <= q < at + ft
      ensures Slot(p, PCM_BUFFER_LEN_MS) != Slot(q, PCM_BUFFER_LEN_MS)
    {
      SlotsMeetIff(p, q);
      NeverMeet(at - first, p - first, q - at, dft, ft);
    }
  }

  lemma NeverMeet(n: nat, x: nat, y: nat, dft: nat, ft: nat)
    requires x < dft && y < ft && x <= n
    requires dft <= n % PCM_BUFFER_LEN_MS && n % PCM_BUFFER_LEN_MS + ft <= PCM_BUFFER_LEN_MS
    ensures (n + y - x) % PCM_BUFFER_LEN_MS != 0
  {
  }

  // The next write tears an accepted read exactly if it re-synchronises the clock and the
  // time index it jumps to falls there; a write in sequence never does.
  lemma NextWriteTearsIff(c: Clock, w: Write, dst: nat, dft: nat)
    requires Accepted(w) && ReadAccepted(c.timeIndex, dst, dft) && dft > 0
    ensures dst <= WriteIndex(c, w)
    ensures var g := Gap(WriteIndex(c, w), dst, dft);
            Tears(WriteIndex(c, w), w.frameTime, dst, dft) <==>
            HasLost(c, w) && (g < dft || g + w.frameTime > PCM_BUFFER_LEN_MS)
  {
    Resynchronised(c, w);
    TearsIff(WriteIndex(c, w), w.frameTime, dst, dft);
    if !HasLost(c, w) {
      NoTearingIff(c.timeIndex, dst, dft);
    }
  }

  // Such writes there are: one that lands in the middle of what is being copied.
  lemma ResynchronisingWriteMayTear(c: Clock, w: Write, dst: nat, dft: nat)
    requires c == Clock(1_000_000, 480) && w == Write(1_960_000, 20) && dst == 480 && dft == 20
    ensures Accepted(w) && HasLost(c, w) && ReadAccepted(c.timeIndex, dst, dft)
    ensures Tears(WriteIndex(c, w), w.frameTime, dst, dft)
  {
    assert WriteIndex(c, w) == 940;
    assert Slot(460, PCM_BUFFER_LEN_MS) == Slot(940, PCM_BUFFER_LEN_MS);
  }

  // The position of sample k of a read of dft milliseconds that end at dst.
  function PositionRead(ts: nat, dst: nat, dft: nat, k: nat): nat
    requires dft <= dst
  {
    var start: nat := dst - dft;
    start * ts + k
  }

  // An accepted read is of positions before the clock, by less than the ring's size.
  lemma ReadIsInsideRing(ts: nat, timeIndex: nat, dst: nat, dft: nat, k: nat)
    requires ReadAccepted(timeIndex, dst, dft) && k < dft * ts
    ensures PositionRead(ts, dst, dft, 0) <= PositionRead(ts, dst, dft, k) < timeIndex * ts
    ensures timeIndex * ts <= PositionRead(ts, dst, dft, k) + PCM_BUFFER_LEN_MS * ts
  {
    var start: nat, left: nat := dst - dft, timeIndex - dst;
    Product(start, dft, left, ts);
    TimesAtMost(dft + left, PCM_BUFFER_LEN_MS, ts);
  }

  lemma Product(a: nat, b: nat, c: nat, k: nat)
    ensures (a + b + c) * k == a * k + b * k + c * k && (b + c) * k == b * k + c * k
    ensures c * k >= 0
  {
  }

  // Every sample of an accepted read that was written without a gap up to the clock is
  // exactly the sample written for its time.
  lemma AcceptedReadIsExact(blocks: seq<Block>, ts: nat, timeIndex: nat, dst: nat, dft: nat, k: nat)
    requires ts > 0 && Ordered(blocks, PCM_BUFFER_LEN_MS * ts)
    requires EndOf(blocks) == timeIndex * ts
    requires ReadAccepted(timeIndex, dst, dft) && k < dft * ts
    requires SolidFrom(blocks) <= PositionRead(ts, dst, dft, 0)
    ensures var p := PositionRead(ts, dst, dft, k);
            && Covered(blocks, p)
            && RingAt(blocks, PCM_BUFFER_LEN_MS * ts, Slot(p, PCM_BUFFER_LEN_MS * ts)) == ValueAt(blocks, p)
  {
    hide Slot, Ordered, Covered, ValueAt, RingAt, EndOf, SolidFrom, PositionRead;
    ReadIsInsideRing(ts, timeIndex, dst, dft, k);
    SolidIsCovered(blocks, PositionRead(ts, dst, dft, k));
    RingIsExact(blocks, PCM_BUFFER_LEN_MS * ts, PositionRead(ts, dst, dft, k));
  }
}
