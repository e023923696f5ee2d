// Whole runs of one ring: what a reader gets after any history of accepted writes.

module AudioRuns {
  import opened Arithmetic
  import opened RingSlots
  import opened AudioTimeline
  import opened AudioClock
  import opened AudioResampler
  import opened ConferenceAudio

  // A write and the samples it stores in the ring.
  datatype Input = Input(write: Write, samples: seq<int>)

  predicate Fits(inputs: seq<Input>, ts: nat) {
    forall i :: 0 <= i < |inputs| ==>
      Accepted(inputs[i].write) && |inputs[i].samples| == inputs[i].write.frameTime * ts
  }

  // The clock after the inputs, and the time index the next one is written at.
  function ClockAfter(c: Clock, inputs: seq<Input>, ts: nat): Clock
    requires Fits(inputs, ts)
  {
    if inputs == [] then c
    else After(ClockAfter(c, inputs[..|inputs|-1], ts), inputs[|inputs|-1].write)
  }

  function IndexOf(c: Clock, inputs: seq<Input>, ts: nat, i: nat): (t: nat)
    requires Fits(inputs, ts) && i < |inputs|
    ensures ClockAfter(c, inputs[..i], ts).timeIndex <= t
  {
    Resynchronised(ClockAfter(c, inputs[..i], ts), inputs[i].write);
    WriteIndex(ClockAfter(c, inputs[..i], ts), inputs[i].write)
  }

  // The input jumps over a gap when the clock has to be re-synchronised.
  predicate Jumps(c: Clock, inputs: seq<Input>, ts: nat, i: nat)
    requires Fits(inputs, ts) && i < |inputs|
  {
    HasLost(ClockAfter(c, inputs[..i], ts), inputs[i].write)
  }

  // The blocks of a ring that was made when the clock stood at c.
  function BlocksOf(c: Clock, inputs: seq<Input>, ts: nat): seq<Block>
    requires Fits(inputs, ts)
  {
    if inputs == [] then []
    else
      var n := |inputs| - 1;
      BlocksOf(c, inputs[..n], ts) + [Block(IndexOf(c, inputs, ts, n) * ts, inputs[n].samples)]
  }

  // One input: it is written at or after the clock, at the clock unless it jumps, and
  // moves the clock to its end.
  lemma OneMoreInput(c: Clock, inputs: seq<Input>, ts: nat)
    requires Fits(inputs, ts) && inputs != []
    ensures var n := |inputs| - 1;
            var t := IndexOf(c, inputs, ts, n);
            && ClockAfter(c, inputs, ts).timeIndex == t + inputs[n].write.frameTime
            && ClockAfter(c, inputs[..n], ts).timeIndex <= t
            && (!Jumps(c, inputs, ts, n) ==> ClockAfter(c, inputs[..n], ts).timeIndex == t)
            && 0 < inputs[n].write.frameTime <= PCM_BUFFER_MAX_WRITE_LEN_MS
            && |inputs[n].samples| == inputs[n].write.frameTime * ts
  {
  }

  // The runs are those of the class: what WriteAudio stores in a ring, as it says of itself,
  // makes the run of that ring one input longer.
  lemma WriteExtendsRun(b: AudioBuffer, before: seq<Block>, c: Clock, inputs: seq<Input>, w: Write,
                        data: seq<int>, sr: nat, sc: nat)
    requires Fits(inputs, b.bufferTimeSize) && Accepted(w)
    requires before == BlocksOf(c, inputs, b.bufferTimeSize) && HasResampler(b.sampleRate + b.channels)
    requires WriteIndex(ClockAfter(c, inputs, b.bufferTimeSize), w) >= 0
    requires Stored(b, before, WriteIndex(ClockAfter(c, inputs, b.bufferTimeSize), w), w.frameTime, data, sr, sc)
    ensures |b.blocks| == |before| + 1
    ensures var ts, input := b.bufferTimeSize, Input(w, b.blocks[|before|].data);
            && Fits(inputs + [input], ts)
            && b.blocks == BlocksOf(c, inputs + [input], ts)
            && ClockAfter(c, inputs + [input], ts) == After(ClockAfter(c, inputs, ts), w)
  {
    hide WriteIndex, IsResampled, SameDuration, HasLost, Accepted;
    var block := b.blocks[|before|];
    assert (inputs + [Input(w, block.data)])[..|inputs|] == inputs;
    assert b.blocks == before + [block];
  }

  // The ring's blocks are in order, and a ring that has been written to ends at the clock.
  lemma {:induction false} BlocksAreOrdered(c: Clock, inputs: seq<Input>, ts: nat)
    requires ts > 0 && Fits(inputs, ts)
    ensures Ordered(BlocksOf(c, inputs, ts), PCM_BUFFER_LEN_MS * ts)
    ensures |BlocksOf(c, inputs, ts)| == |inputs|
    ensures EndOf(BlocksOf(c, inputs, ts)) == if inputs == [] then 0 else ClockAfter(c, inputs, ts).timeIndex * ts
  {
    hide After, WriteIndex, HasLost, IndexOf, Accepted, ClockAfter, Ordered;
    if inputs == [] {
      NothingOrdered(PCM_BUFFER_LEN_MS * ts);
    } else {
      var n := |inputs| - 1;
      var before := inputs[..n];
      OneMoreInput(c, inputs, ts);
      BlocksAreOrdered(c, before, ts);
      var t, f := IndexOf(c, inputs, ts, n), inputs[n].write.frameTime;
      var blocks, b := BlocksOf(c, before, ts), Block(t * ts, inputs[n].samples);
      TimesSum(t, f, ts);
      TimesAtMost(ClockAfter(c, before, ts).timeIndex, t, ts);
      TimesAtMost(f, PCM_BUFFER_LEN_MS, ts);
      OrderedSnoc(blocks, b, PCM_BUFFER_LEN_MS * ts);
    }
  }

  lemma TimesSum(m: nat, n: nat, ts: nat)
    ensures (m + n) * ts == m * ts + n * ts
  {
  }

  lemma NothingOrdered(size: nat)
    ensures Ordered([], size)
  {
  }

  lemma OrderedSnoc(blocks: seq<Block>, b: Block, size: nat)
    requires Ordered(blocks, size) && EndOf(blocks) <= b.at && |b.data| <= size
    ensures Ordered(blocks + [b], size)
  {
  }

  lemma {:induction false} SolidBelowEnd(blocks: seq<Block>, size: nat)
    requires Ordered(blocks, size)
    ensures SolidFrom(blocks) <= EndOf(blocks)
  {
    if blocks != [] {
      SolidBelowEnd(blocks[..|blocks|-1], size);
    }
  }

  lemma SolidSnoc(blocks: seq<Block>, b: Block)
    ensures SolidFrom(blocks + [b]) == if blocks != [] && EndOf(blocks) == b.at then SolidFrom(blocks) else b.at
  {
    assert (blocks + [b])[..|blocks|] == blocks;
  }

  // If no input after input j jumped, the ring is solid from the start of input j on.
  lemma {:induction false} SolidSince(c: Clock, inputs: seq<Input>, ts: nat, j: nat)
    requires ts > 0 && Fits(inputs, ts) && j < |inputs|
    requires forall i :: j < i < |inputs| ==> !Jumps(c, inputs, ts, i)
    ensures SolidFrom(BlocksOf(c, inputs, ts)) <= IndexOf(c, inputs, ts, j) * ts
  {
    hide After, WriteIndex, HasLost, Accepted, ClockAfter, Ordered, SolidFrom, EndOf;
    var n := |inputs| - 1;
    var before := inputs[..n];
    OneMoreInput(c, inputs, ts);
    var blocks := BlocksOf(c, before, ts);
    var b := Block(IndexOf(c, inputs, ts, n) * ts, inputs[n].samples);
    BlocksAreOrdered(c, before, ts);
    SolidBelowEnd(blocks, PCM_BUFFER_LEN_MS * ts);
    SolidSnoc(blocks, b);
    if j < n {
      assert !Jumps(c, inputs, ts, n);
      forall i | j < i < n ensures !Jumps(c, before, ts, i) {
        assert before[..i] == inputs[..i];
        assert !Jumps(c, inputs, ts, i);
      }
      SolidSince(c, before, ts, j);
      assert before[..j] == inputs[..j];
    }
  }

  // A reader gets exactly the sample written for its time, for every history in which
  // the ring existed and no write jumped since a write j that began no later than what
  // is read.
  lemma ReadIsExact(c: Clock, inputs: seq<Input>, ts: nat, j: nat, now: nat, dst: nat, dft: nat, k: nat)
    requires ts > 0 && Fits(inputs, ts) && j < |inputs|
    requires forall i :: j < i < |inputs| ==> !Jumps(c, inputs, ts, i)
    requires now == ClockAfter(c, inputs, ts).timeIndex
    requires dft <= dst && ReadAccepted(now, dst, dft) && k < dft * ts
    requires IndexOf(c, inputs, ts, j) <= dst - dft
    ensures var blocks, p := BlocksOf(c, inputs, ts), PositionRead(ts, dst, dft, k);
            Covered(blocks, p) && SampleRead(blocks, ts, dst, dft, k) == ValueAt(blocks, p)
  {
    hide HasLost, Slot, RingAt, Covered, ValueAt, Ordered, SolidFrom, EndOf, BlocksOf, ClockAfter, IndexOf, Fits, Jumps;
    BlocksAreOrdered(c, inputs, ts);
    SolidSince(c, inputs, ts, j);
    TimesAtMost(IndexOf(c, inputs, ts, j), dst - dft, ts);
    AcceptedReadIsExact(BlocksOf(c, inputs, ts), ts, now, dst, dft, k);
  }

  // In particular when nothing jumped for the last 440 milliseconds.
  lemma ReadIsExactWithoutJump(c: Clock, inputs: seq<Input>, ts: nat, j: nat, now: nat, dst: nat, dft: nat, k: nat)
    requires ts > 0 && Fits(inputs, ts) && j < |inputs|
    requires forall i :: j < i < |inputs| ==> !Jumps(c, inputs, ts, i)
    requires now == ClockAfter(c, inputs, ts).timeIndex
    requires dft <= dst && ReadAccepted(now, dst, dft) && k < dft * ts
    requires IndexOf(c, inputs, ts, j) + 440 <= now
    ensures var blocks, p := BlocksOf(c, inputs, ts), PositionRead(ts, dst, dft, k);
            Covered(blocks, p) && SampleRead(blocks, ts, dst, dft, k) == ValueAt(blocks, p)
  {
    hide Slot, RingAt, Covered, ValueAt, BlocksOf, ClockAfter, IndexOf, Fits, Jumps;
    ReadIsExact(c, inputs, ts, j, now, dst, dft, k);
  }

  // And in every history: the newest sample written for a time whole turns of the ring
  // away, or silence.
  lemma ReadIsLatest(c: Clock, inputs: seq<Input>, ts: nat, dst: nat, dft: nat, k: nat) returns (p: int)
    requires ts > 0 && Fits(inputs, ts) && dft <= dst && k < dft * ts
    ensures var blocks, size := BlocksOf(c, inputs, ts), PCM_BUFFER_LEN_MS * ts;
            var slot, v := Slot(PositionRead(ts, dst, dft, k), size), SampleRead(blocks, ts, dst, dft, k);
            if p < 0 then v == 0 && forall q: nat :: Covered(blocks, q) ==> Slot(q, size) != slot
            else
              && Covered(blocks, p) && Slot(p, size) == slot && v == ValueAt(blocks, p)
              && forall q: nat :: Covered(blocks, q) && Slot(q, size) == slot ==> q <= p
  {
    hide Slot, RingAt, Covered, ValueAt, Ordered;
    BlocksAreOrdered(c, inputs, ts);
    p := RingIsLatest(BlocksOf(c, inputs, ts), PCM_BUFFER_LEN_MS * ts,
                      Slot(PositionRead(ts, dst, dft, k), PCM_BUFFER_LEN_MS * ts));
  }

  // ---------- On the source's timestamps ----------

  function LastTime(inputs: seq<Input>, last: nat): nat {
    if inputs == [] then last else inputs[|inputs|-1].write.timestamp
  }

  // Every input goes on where the source is, or later.
  predicate GoesOn(inputs: seq<Input>, last: nat) {
    forall i :: 0 <= i < |inputs| ==> IsNext(LastTime(inputs[..i], last), inputs[i].write)
  }

  // Every input goes on exactly where the source is.
  predicate HasNoGap(inputs: seq<Input>, last: nat) {
    forall i :: 0 <= i < |inputs| ==>
      inputs[i].write.timestamp == LastTime(inputs[..i], last) + inputs[i].write.frameTime * 1000
  }

  // How far the clock is behind the source.
  function Lag(c: Clock, last: nat): int {
    last - Reached(c)
  }

  lemma {:induction false} RunKeepsTime(c: Clock, inputs: seq<Input>, ts: nat, last: nat)
    requires Fits(inputs, ts) && KeepsTime(c, last) && GoesOn(inputs, last)
    ensures var c' := ClockAfter(c, inputs, ts);
            && KeepsTime(c', LastTime(inputs, last)) && (inputs != [] ==> c'.start > 0)
            && (c.start > 0 ==> c'.start == c.start)
            && (c.start > 0 && Lag(c, last) == 0 && HasNoGap(inputs, last) ==> Lag(c', LastTime(inputs, last)) == 0)
  {
    hide After, KeepsTime, IsNext, Reached;
    if inputs != [] {
      var n := |inputs| - 1;
      var before, w := inputs[..n], inputs[n].write;
      forall i | 0 <= i < n
        ensures before[..i] == inputs[..i]
      {
      }
      RunKeepsTime(c, before, ts, last);
      assert IsNext(LastTime(before, last), w);
      WriteKeepsTime(ClockAfter(c, before, ts), w, LastTime(before, last));
    }
  }

  // v is sample x of millisecond m of the input.
  predicate HasSample(input: Input, ts: nat, m: nat, x: nat, v: int) {
    m < input.write.frameTime && m * ts + x < |input.samples| && v == input.samples[m * ts + x]
  }

  // The input that wrote the samples of a millisecond of the timeline.
  lemma {:induction false} InputAt(c: Clock, inputs: seq<Input>, ts: nat, ms: nat, x: nat) returns (i: nat)
    requires ts > 0 && Fits(inputs, ts) && x < ts && Covered(BlocksOf(c, inputs, ts), ms * ts + x)
    ensures i < |inputs| && IndexOf(c, inputs, ts, i) <= ms
    ensures HasSample(inputs[i], ts, ms - IndexOf(c, inputs, ts, i), x, ValueAt(BlocksOf(c, inputs, ts), ms * ts + x))
  {
    hide After, WriteIndex, HasLost, IndexOf, Accepted, ClockAfter;
    var n := |inputs| - 1;
    var before, t, f := inputs[..n], IndexOf(c, inputs, ts, n), inputs[n].write.frameTime;
    var blocks, b := BlocksOf(c, before, ts), Block(t * ts, inputs[n].samples);
    assert (blocks + [b])[..|blocks|] == blocks;
    MillisecondIn(t, f, ms, x, ts);
    if t <= ms < t + f {
      i := n;
    } else {
      i := InputAt(c, before, ts, ms, x);
      IndexOfFront(c, inputs, ts, i);
    }
  }

  lemma IndexOfFront(c: Clock, inputs: seq<Input>, ts: nat, i: nat)
    requires Fits(inputs, ts) && i < |inputs| - 1
    ensures IndexOf(c, inputs[..|inputs|-1], ts, i) == IndexOf(c, inputs, ts, i)
  {
    assert inputs[..|inputs|-1][..i] == inputs[..i];
  }

  // Whole milliseconds of the timeline against samples.
  lemma MillisecondIn(t: nat, f: nat, ms: nat, x: nat, ts: nat)
    requires x < ts
    ensures t * ts <= ms * ts + x < t * ts + f * ts <==> t <= ms < t + f
    ensures t <= ms ==> ms * ts + x - t * ts == (ms - t) * ts + x
  {
    TimesSum(t, f, ts);
    if t <= ms {
      TimesSum(t, ms - t, ts);
      TimesAtMost(t, ms, ts);
    } else {
      TimesGrows(ts, ms, t);
    }
    if ms < t + f {
      TimesGrows(ts, ms, t + f);
    } else {
      TimesAtMost(t + f, ms, ts);
    }
  }

  // The source time of millisecond m of an input, by the input's own timestamp.
  function SourceTime(input: Input, m: nat): int {
    input.write.timestamp - input.write.frameTime * 1000 + m * 1000
  }

  // An input lies on the source's time scale as its timestamp says, but for the lag.
  lemma InputInTime(c: Clock, inputs: seq<Input>, ts: nat, last: nat, i: nat)
    requires Fits(inputs, ts) && KeepsTime(c, last) && GoesOn(inputs, last) && i < |inputs|
    ensures var start := ClockAfter(c, inputs, ts).start;
            var lag := SourceTime(inputs[i], 0) - start - IndexOf(c, inputs, ts, i) * 1000;
            && 0 <= lag <= 2000
            && (c.start > 0 && Lag(c, last) == 0 && HasNoGap(inputs, last) ==> lag == 0)
  {
    hide HasLost, Accepted, ClockAfter;
    var front := inputs[..i+1];
    assert inputs == front + inputs[i+1..];
    GoesOnParts(inputs, last, i + 1);
    RunKeepsTime(c, front, ts, last);
    var c1 := ClockAfter(c, front, ts);
    RunKeepsTime(c1, inputs[i+1..], ts, LastTime(front, last));
    AfterParts(c, inputs, ts, i + 1);
    assert front[..i] == inputs[..i];
    OneMoreInput(c, front, ts);
  }

  lemma GoesOnParts(inputs: seq<Input>, last: nat, n: nat)
    requires GoesOn(inputs, last) && 0 < n <= |inputs|
    ensures GoesOn(inputs[..n], last) && GoesOn(inputs[n..], LastTime(inputs[..n], last))
    ensures HasNoGap(inputs, last) ==> HasNoGap(inputs[..n], last)
  {
    hide IsNext;
    forall i | 0 <= i < n
      ensures inputs[..n][..i] == inputs[..i]
    {
    }
    var rest := inputs[n..];
    forall i | 0 <= i < |rest|
      ensures LastTime(rest[..i], LastTime(inputs[..n], last)) == LastTime(inputs[..n + i], last)
      ensures rest[i] == inputs[n + i]
    {
    }
  }

  lemma {:induction false} AfterParts(c: Clock, inputs: seq<Input>, ts: nat, n: nat)
    requires Fits(inputs, ts) && n <= |inputs|
    ensures ClockAfter(c, inputs, ts) == ClockAfter(ClockAfter(c, inputs[..n], ts), inputs[n..], ts)
    decreases |inputs|
  {
    hide After;
    if n == |inputs| {
      assert inputs[..n] == inputs;
    } else {
      var before := inputs[..|inputs|-1];
      AfterParts(c, before, ts, n);
      assert before[..n] == inputs[..n] && inputs[n..][..|inputs| - n - 1] == before[n..];
    }
  }

  // The part of an accepted read that is one sample of one millisecond.
  lemma SampleOf(dst: nat, dft: nat, q: nat, x: nat, ts: nat)
    requires dft <= dst && q < dft && x < ts
    ensures q * ts + x < dft * ts
    ensures PositionRead(ts, dst, dft, q * ts + x) == (dst - dft + q) * ts + x
  {
    TimesGrows(ts, q, dft);
    TimesSum(dst - dft, q, ts);
  }

  // The run of a ring whose source is in step with the clock.
  predicate InStep(c: Clock, inputs: seq<Input>, ts: nat, last: nat) {
    ts > 0 && Fits(inputs, ts) && KeepsTime(c, last) && GoesOn(inputs, last)
  }

  // No input of the last 440 milliseconds jumped.
  ghost predicate SteadyLately(c: Clock, inputs: seq<Input>, ts: nat)
    requires Fits(inputs, ts)
  {
    exists j: nat :: j < |inputs| && IndexOf(c, inputs, ts, j) + 440 <= ClockAfter(c, inputs, ts).timeIndex &&
      forall n :: j < n < |inputs| ==> !Jumps(c, inputs, ts, n)
  }

  // A read of dft milliseconds at dstTimestamp, as ReadAudio makes it when the clock is at now.
  predicate IsAccepted(now: Clock, maxFrameTime: nat, dstTimestamp: nat, dft: nat) {
    ReadAccepted(now.timeIndex, ReadIndex(now.start, maxFrameTime, dstTimestamp), dft)
  }

  function Heard(blocks: seq<Block>, ts: nat, now: Clock, maxFrameTime: nat, dstTimestamp: nat, dft: nat, k: nat): int {
    SampleRead(blocks, ts, ReadIndex(now.start, maxFrameTime, dstTimestamp), dft, k)
  }

  // Sample x of millisecond q of the read is that of millisecond m of input i.  Its time by
  // the input's own timestamp is the reader's own time, which ends the greatest frame time
  // and two milliseconds before dstTimestamp, or at most two milliseconds later; and exactly
  // this time while the source leaves no gap.
  predicate IsOfItsTime(c: Clock, inputs: seq<Input>, ts: nat, last: nat, maxFrameTime: nat,
                        dstTimestamp: nat, dft: nat, q: nat, x: nat, i: nat, m: nat)
    requires Fits(inputs, ts)
  {
    var own := dstTimestamp - (maxFrameTime + 2) * 1000 - (dft - q) * 1000;
    && i < |inputs|
    && HasSample(inputs[i], ts, m, x,
                 Heard(BlocksOf(c, inputs, ts), ts, ClockAfter(c, inputs, ts), maxFrameTime, dstTimestamp, dft,
                       q * ts + x))
    && own <= SourceTime(inputs[i], m) <= own + 2000
    && (c.start > 0 && Lag(c, last) == 0 && HasNoGap(inputs, last) ==> SourceTime(inputs[i], m) == own)
  }

  // Every sample of an accepted read is of the reader's own time.
  lemma ReaderHearsItsTime(c: Clock, inputs: seq<Input>, ts: nat, last: nat, maxFrameTime: nat,
                           dstTimestamp: nat, dft: nat, q: nat, x: nat) returns (i: nat, m: nat)
    requires InStep(c, inputs, ts, last) && SteadyLately(c, inputs, ts) && dstTimestamp % 1000 == 0
    requires IsAccepted(ClockAfter(c, inputs, ts), maxFrameTime, dstTimestamp, dft)
    requires q < dft && x < ts
    ensures IsOfItsTime(c, inputs, ts, last, maxFrameTime, dstTimestamp, dft, q, x, i, m)
  {
    hide Slot, RingAt, Covered, ValueAt, BlocksOf, ClockAfter, IndexOf, Fits, Jumps, GoesOn, HasNoGap, SampleRead,
         PositionRead, KeepsTime, HasSample;
    var now := ClockAfter(c, inputs, ts);
    var dst := ReadIndex(now.start, maxFrameTime, dstTimestamp);
    var j: nat :| j < |inputs| && IndexOf(c, inputs, ts, j) + 440 <= now.timeIndex &&
      forall n :: j < n < |inputs| ==> !Jumps(c, inputs, ts, n);
    StartIsWhole(c, inputs, ts, last);
    SampleOf(dst, dft, q, x, ts);
    ReadIsExactWithoutJump(c, inputs, ts, j, now.timeIndex, dst, dft, q * ts + x);
    i := InputAt(c, inputs, ts, dst - dft + q, x);
    m := dst - dft + q - IndexOf(c, inputs, ts, i);
    InputInTime(c, inputs, ts, last, i);
  }

  lemma StartIsWhole(c: Clock, inputs: seq<Input>, ts: nat, last: nat)
    requires Fits(inputs, ts) && KeepsTime(c, last) && GoesOn(inputs, last)
    ensures ClockAfter(c, inputs, ts).start % 1000 == 0
  {
    hide ClockAfter;
    RunKeepsTime(c, inputs, ts, last);
  }

  // And in every such run a reader in step with the source is not refused.
  lemma ReaderInStepIsHeard(c: Clock, inputs: seq<Input>, ts: nat, last: nat, maxFrameTime: nat,
                            dstTimestamp: nat, dft: nat)
    requires InStep(c, inputs, ts, last) && dstTimestamp % 1000 == 0
    requires maxFrameTime <= PCM_BUFFER_MAX_WRITE_LEN_MS && dft <= 96
    requires ClockAfter(c, inputs, ts).timeIndex >= 138
    requires LastTime(inputs, last) <= dstTimestamp <= LastTime(inputs, last) + maxFrameTime * 1000
    ensures IsAccepted(ClockAfter(c, inputs, ts), maxFrameTime, dstTimestamp, dft)
  {
    hide ClockAfter;
    RunKeepsTime(c, inputs, ts, last);
    ReaderInStepIsAccepted(ClockAfter(c, inputs, ts), LastTime(inputs, last), maxFrameTime, dstTimestamp, dft);
  }
}
