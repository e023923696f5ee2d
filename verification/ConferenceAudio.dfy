// One participant's audio: what its writer puts in, in one format, other participants
// read in theirs.  For each format asked for there is a ring of the last milliseconds.
//
// The source counts bytes; every count of bytes it uses is even, and the rings here
// count 16-bit samples.

module ConferenceAudio {
  import opened Arithmetic
  import opened RingSlots
  import opened AudioTimeline
  import opened AudioClock
  import opened AudioResampler

  // Samples of one millisecond.
  function TimeSize(rate: nat, channels: nat): nat {
    rate * channels / 1000
  }

  predicate WholeRate(rate: nat, channels: nat) {
    0 < rate && rate % 1000 == 0 && 0 < channels < 1000
  }

  lemma TimeSizeOfWholeRate(rate: nat, channels: nat)
    requires WholeRate(rate, channels)
    ensures TimeSize(rate, channels) == rate / 1000 * channels > 0
  {
    assert rate == rate / 1000 * 1000;
    assert rate * channels == rate / 1000 * channels * 1000;
  }

  // The ring index of the source: whole milliseconds first.
  lemma IndexOfTime(t: nat, ts: nat)
    requires ts > 0
    ensures t % PCM_BUFFER_LEN_MS * ts == Slot(t * ts, PCM_BUFFER_LEN_MS * ts)
  {
    var q, r := t / PCM_BUFFER_LEN_MS, t % PCM_BUFFER_LEN_MS;
    assert t * ts == q * (PCM_BUFFER_LEN_MS * ts) + r * ts by {
      assert t == q * PCM_BUFFER_LEN_MS + r;
      assert (q * PCM_BUFFER_LEN_MS + r) * ts == q * (PCM_BUFFER_LEN_MS * ts) + r * ts;
    }
    TimesGrows(ts, r, PCM_BUFFER_LEN_MS);
    DivModUnique(t * ts, PCM_BUFFER_LEN_MS * ts, q, r * ts);
  }

  // memcpy
  method Copy(dst: array<int>, at: nat, src: seq<int>)
    requires at + |src| <= dst.Length
    modifies dst
    ensures forall k :: 0 <= k < dst.Length ==>
              dst[k] == if at <= k < at + |src| then src[k - at] else old(dst[k])
  {
    forall k | 0 <= k < |src| {
      dst[at + k] := src[k];
    }
  }

  class AudioBuffer {
    const sampleRate: nat
    const channels: nat
    const bufferTimeSize: nat
    const buffer: array<int>

    // Every block written, at its place on the timeline.
    ghost var blocks: seq<Block>

    ghost predicate Valid()
      reads this, buffer
    {
      && WholeRate(sampleRate, channels)
      && bufferTimeSize == TimeSize(sampleRate, channels) > 0
      && buffer.Length == PCM_BUFFER_LEN_MS * bufferTimeSize
      && Ordered(blocks, buffer.Length)
      && forall i :: 0 <= i < buffer.Length ==> buffer[i] == RingAt(blocks, buffer.Length, i)
    }

    constructor (rate: nat, channels: nat)
      requires WholeRate(rate, channels)
      ensures Valid() && fresh(buffer) && blocks == []
      ensures sampleRate == rate && this.channels == channels
    {
      TimeSizeOfWholeRate(rate, channels);
      sampleRate := rate;
      this.channels := channels;
      bufferTimeSize := rate * channels / 1000;
      buffer := new int[PCM_BUFFER_LEN_MS * (rate * channels / 1000)](_ => 0);
      blocks := [];
    }

    // Writes a block at time t, in one piece or, over the end of the ring, in two.
    method Write(t: nat, block: seq<int>)
      requires Valid() && |block| <= buffer.Length && EndOf(blocks) <= t * bufferTimeSize
      modifies this`blocks, buffer
      ensures Valid() && blocks == old(blocks) + [Block(t * bufferTimeSize, block)]
    {
      hide Slot, RingAt;
      var index := t % PCM_BUFFER_LEN_MS * bufferTimeSize;
      IndexOfTime(t, bufferTimeSize);
      ghost var at := t * bufferTimeSize;
      var left, offset := |block|, 0;
      if index + left > buffer.Length {
        offset := buffer.Length - index;
        Copy(buffer, index, block[..offset]);
        left := left - offset;
        index := 0;
      }
      Copy(buffer, index, block[offset..]);
      blocks := blocks + [Block(at, block)];
      forall i: nat | i < buffer.Length
        ensures buffer[i] == RingAt(blocks, buffer.Length, i)
      {
        RingAfter(old(blocks), Block(at, block), buffer.Length, i);
      }
    }

    // Reads n milliseconds from time t on, in one piece or in two.
    method Read(t: nat, n: nat) returns (out: array<int>)
      requires Valid() && n <= PCM_BUFFER_LEN_MS
      ensures fresh(out) && out.Length == n * bufferTimeSize
      ensures forall x: nat :: x < out.Length ==>
                out[x] == RingAt(blocks, buffer.Length, Slot(t * bufferTimeSize + x, buffer.Length))
    {
      hide Slot, RingAt, Ordered;
      TimesAtMost(n, PCM_BUFFER_LEN_MS, bufferTimeSize);
      out := new int[n * bufferTimeSize];
      IndexOfTime(t, bufferTimeSize);
      ReadFrom(t % PCM_BUFFER_LEN_MS * bufferTimeSize, out);
      ReadsRing(buffer[..], blocks, t * bufferTimeSize, out[..]);
    }

    // Fills the array from the index on, over the end of the ring.
    method ReadFrom(start: nat, out: array<int>)
      requires start < buffer.Length && out.Length <= buffer.Length && out != buffer
      modifies out
      ensures forall x: nat :: x < out.Length ==>
                out[x] == buffer[if start + x < buffer.Length then start + x else start + x - buffer.Length]
    {
      var index, left, offset := start, out.Length, 0;
      if index + left > buffer.Length {
        offset := buffer.Length - index;
        Copy(out, 0, buffer[index..index + offset]);
        left := left - offset;
        index := 0;
      }
      Copy(out, offset, buffer[index..index + left]);
    }
  }

  lemma ReadsRing(ring: seq<int>, blocks: seq<Block>, at: nat, out: seq<int>)
    requires 0 < |ring| && |out| <= |ring| && forall i: nat :: i < |ring| ==> ring[i] == RingAt(blocks, |ring|, i)
    requires var start := Slot(at, |ring|);
             forall x: nat :: x < |out| ==> out[x] == ring[if start + x < |ring| then start + x else start + x - |ring|]
    ensures forall x: nat :: x < |out| ==> out[x] == RingAt(blocks, |ring|, Slot(at + x, |ring|))
  {
    hide RingAt;
    forall x: nat | x < |out|
      ensures out[x] == RingAt(blocks, |ring|, Slot(at + x, |ring|))
    {
      SlotAhead(at, |ring|, x);
    }
  }

  lemma RingAfter(blocks: seq<Block>, b: Block, size: nat, i: nat)
    requires i < size
    ensures var d := Ahead(Slot(b.at, size), size, i);
            RingAt(blocks + [b], size, i) == if d < |b.data| then b.data[d] else RingAt(blocks, size, i)
  {
    hide Slot;
    assert (blocks + [b])[..|blocks|] == blocks;
  }

  // ---------- Mixing ----------

  function Limited(v: int): (r: int)
    ensures -0x8000 <= r <= 0x7fff
    ensures -0x8000 <= v <= 0x7fff ==> r == v
    // no 16-bit value is nearer
    ensures (r < v ==> r == 0x7fff) && (v < r ==> r == -0x8000)
  {
    if v > 0x7fff then 0x7fff else if v < -0x8000 then -0x8000 else v
  }

  // Adds the first n samples of src to dst, limited to 16 bits.
  method Mix(src: array<int>, dst: array<int>, n: nat)
    requires 0 < n <= src.Length && n <= dst.Length && src != dst
    modifies dst
    ensures forall k :: 0 <= k < dst.Length ==>
              dst[k] == if k < n then Limited(old(dst[k]) + src[k]) else old(dst[k])
  {
    var k, i := 0, n;
    var more := true;
    while more
      invariant 0 <= k && k + i == n && (more <==> i > 0)
      invariant forall j :: 0 <= j < dst.Length ==>
                  dst[j] == if j < k then Limited(old(dst[j]) + src[j]) else old(dst[j])
      decreases i
    {
      var newVal := dst[k] + src[k];
      if newVal > 0x7fff {
        dst[k] := 0x7fff;
      } else if newVal < -0x8000 {
        dst[k] := -0x8000;
      } else {
        dst[k] := newVal;
      }
      k := k + 1;
      i := i - 1;
      more := i != 0;
    }
  }

  // ---------- The connection ----------

  // Formats there are resamplers for, by their keys.
  predicate HasResampler(key: nat) {
    key in {8000 + 1, 16000 + 1, 24000 + 1, 32000 + 1, 48000 + 1, 48000 + 2}
  }

  // Formats of whole rates are told apart by the sum of rate and channel count.
  lemma KeyDeterminesFormat(rate: nat, channels: nat, rate': nat, channels': nat)
    requires WholeRate(rate, channels) && WholeRate(rate', channels')
    requires rate + channels == rate' + channels'
    ensures rate == rate' && channels == channels'
  {
    assert rate % 1000 == 0 && rate' % 1000 == 0;
  }

  lemma KeyIsOf(rate: nat, channels: nat, rate': nat, channels': nat)
    requires WholeRate(rate, channels) && WholeRate(rate', channels')
    ensures rate + channels == rate' + channels' <==> rate == rate' && channels == channels'
  {
    if rate + channels == rate' + channels' {
      KeyDeterminesFormat(rate, channels, rate', channels');
    }
  }

  // These are the five mono formats and the one stereo format that the conference mixes.
  lemma ResampledFormats(rate: nat, channels: nat)
    requires WholeRate(rate, channels)
    ensures HasResampler(rate + channels) <==>
            || (channels == 1 && (rate == 8000 || rate == 16000 || rate == 24000 || rate == 32000 || rate == 48000))
            || (channels == 2 && rate == 48000)
  {
    KeyIsOf(rate, channels, 8000, 1);
    KeyIsOf(rate, channels, 16000, 1);
    KeyIsOf(rate, channels, 24000, 1);
    KeyIsOf(rate, channels, 32000, 1);
    KeyIsOf(rate, channels, 48000, 1);
    KeyIsOf(rate, channels, 48000, 2);
  }

  lemma DurationsAgree(src: seq<int>, sr: nat, sc: nat, dr: nat, dc: nat, t: nat)
    requires WholeRate(sr, sc) && WholeRate(dr, dc) && |src| == t * TimeSize(sr, sc)
    ensures SameDuration(src, sr, sc, dr, dc, t * TimeSize(dr, dc))
  {
    FramesOf(sr, sc, t);
    FramesOf(dr, dc, t);
    var s, d := sr / 1000, dr / 1000;
    assert sr == 1000 * s && dr == 1000 * d;
    assert t * s * (1000 * d) == t * d * (1000 * s);
  }

  lemma FramesOf(rate: nat, channels: nat, t: nat)
    requires WholeRate(rate, channels)
    ensures var n := t * TimeSize(rate, channels); n % channels == 0 && n / channels == t * (rate / 1000)
  {
    TimeSizeOfWholeRate(rate, channels);
    assert t * (rate / 1000 * channels) == t * (rate / 1000) * channels + 0;
    DivModUnique(t * (rate / 1000 * channels), channels, t * (rate / 1000), 0);
  }

  // A block in the writer's own format is stored as it is.
  lemma SameFormatIsResampled(src: seq<int>, rate: nat, channels: nat)
    requires SameDuration(src, rate, channels, rate, channels, |src|)
    ensures IsResampled(src, rate, channels, rate, channels, src)
  {
    hide SourceIndex;
    forall k: nat | k < |src|
      ensures SourceIndex(k, rate, channels, rate, channels) == k
    {
      SameFormatIndex(k, rate, channels);
    }
  }

  lemma SameFormatIndex(k: nat, rate: nat, channels: nat)
    requires rate > 0 && channels > 0
    ensures SourceIndex(k, rate, channels, rate, channels) == k
  {
    var i: nat := k / channels;
    DivModUnique(i * rate, rate, i, 0);
    SmallMod(k % channels, channels);
    Quotient(k, channels);
  }

  // Resample of the build without an external resampling library.
  method Resample(src: seq<int>, sr: nat, sc: nat, dr: nat, dc: nat, n: nat) returns (dst: array<int>)
    requires SameDuration(src, sr, sc, dr, dc, n)
    ensures fresh(dst) && dst.Length == n
    ensures IsResampled(src, sr, sc, dr, dc, dst[..])
  {
    hide SourceIndex;
    dst := new int[n];
    if sr == dr && sc == dc {
      SameLength(|src|, sc, n, sr);
      Copy(dst, 0, src);
      assert dst[..] == src;
      SameFormatIsResampled(src, sr, sc);
    } else {
      InternalResample(src, sr, sc, dst, dr, dc);
    }
  }

  lemma SameLength(m: nat, c: nat, n: nat, r: nat)
    requires c > 0 && r > 0 && m % c == 0 && n % c == 0 && m / c * r == n / c * r
    ensures m == n
  {
    TimesGrows(r, m / c, n / c);
    TimesGrows(r, n / c, m / c);
    FrameCount(m, c);
    FrameCount(n, c);
  }

  lemma WrittenLater(b: AudioBuffer, t: nat, t': nat)
    requires BufferUpTo(b, t) && t <= t'
    ensures BufferUpTo(b, t')
  {
    TimesAtMost(t, t', b.bufferTimeSize);
  }

  class ConferenceAudioConnection {
    const sampleRate: nat
    const channels: nat
    var maxFrameTime: nat
    var timeIndex: nat
    var startTimestamp: nat
    var audioBufferList: seq<AudioBuffer>

    function Now(): Clock
      reads this
    {
      Clock(startTimestamp, timeIndex)
    }

    // The buffers are valid, apart from each other, of different formats, and written
    // no further than the clock has come.
    ghost predicate ValidBuffers()
      reads this, audioBufferList, set b | b in audioBufferList :: b.buffer
    {
      && (forall i :: 0 <= i < |audioBufferList| ==> BufferUpTo(audioBufferList[i], timeIndex))
      && (forall i, j :: 0 <= i < j < |audioBufferList| ==> Apart(audioBufferList[i], audioBufferList[j]))
    }

    ghost predicate Valid()
      reads this, audioBufferList, set b | b in audioBufferList :: b.buffer
    {
      && WholeRate(sampleRate, channels)
      && maxFrameTime <= PCM_BUFFER_MAX_WRITE_LEN_MS
      && ValidBuffers()
    }

    constructor (rate: nat, channels: nat)
      requires WholeRate(rate, channels)
      ensures Valid() && Now() == STOPPED && maxFrameTime == 0 && audioBufferList == []
      ensures sampleRate == rate && this.channels == channels
    {
      sampleRate := rate;
      this.channels := channels;
      maxFrameTime, timeIndex, startTimestamp := 0, 0, 0;
      audioBufferList := [];
    }

    // Resamples the block for one buffer and writes it there.
    method WriteBuffer(b: AudioBuffer, at: nat, frameTime: nat, data: seq<int>)
      requires WholeRate(sampleRate, channels) && BufferUpTo(b, at)
      requires |data| == frameTime * TimeSize(sampleRate, channels) && frameTime <= PCM_BUFFER_MAX_WRITE_LEN_MS
      modifies b`blocks, b.buffer
      ensures BufferUpTo(b, at + frameTime)
      ensures Stored(b, old(b.blocks), at, frameTime, data, sampleRate, channels)
    {
      hide SourceIndex, Ordered, RingAt, TimeSize, IsResampled;
      var ts := b.bufferTimeSize;
      NextFrame(at, ts);
      assert (at + frameTime) * ts == at * ts + frameTime * ts;
      if !HasResampler(b.sampleRate + b.channels) {
        return;
      }
      DurationsAgree(data, sampleRate, channels, b.sampleRate, b.channels, frameTime);
      TimesGrows(ts, frameTime, PCM_BUFFER_LEN_MS);
      var block := Resample(data, sampleRate, channels, b.sampleRate, b.channels, frameTime * ts);
      b.Write(at, block[..]);
    }

    // Writes the block to every buffer at time index at.
    method WriteBuffers(at: nat, frameTime: nat, data: seq<int>)
      requires WholeRate(sampleRate, channels) && ValidBuffers() && timeIndex <= at
      requires |data| == frameTime * TimeSize(sampleRate, channels) && frameTime <= PCM_BUFFER_MAX_WRITE_LEN_MS
      modifies set b | b in audioBufferList :: b`blocks, set b | b in audioBufferList :: b.buffer
      ensures forall i :: 0 <= i < |audioBufferList| ==> BufferUpTo(audioBufferList[i], at + frameTime)
      ensures forall i :: 0 <= i < |audioBufferList| ==>
                Stored(audioBufferList[i], old(audioBufferList[i].blocks), at, frameTime, data, sampleRate, channels)
    {
      hide SourceIndex, Ordered, RingAt, TimeSize, IsResampled, Stored, BufferUpTo;
      for k := 0 to |audioBufferList|
        invariant forall i :: 0 <= i < k ==> BufferUpTo(audioBufferList[i], at + frameTime)
        invariant forall i :: 0 <= i < k ==>
                    Stored(audioBufferList[i], old(audioBufferList[i].blocks), at, frameTime, data,
                           sampleRate, channels)
        invariant forall i :: k <= i < |audioBufferList| ==>
                    && BufferUpTo(audioBufferList[i], timeIndex)
                    && audioBufferList[i].blocks == old(audioBufferList[i].blocks)
      {
        WrittenLater(audioBufferList[k], timeIndex, at);
        WriteBuffer(audioBufferList[k], at, frameTime, data);
      }
    }

    // Writes one block at its time on the writer's clock, to every buffer there is.
    method WriteAudio(srcTimestamp: nat, data: seq<int>)
      requires Valid() && |data| % TimeSize(sampleRate, channels) == 0
      requires |data| / TimeSize(sampleRate, channels) * 1000 <= srcTimestamp
      modifies this`maxFrameTime, this`timeIndex, this`startTimestamp,
               set b | b in audioBufferList :: b`blocks, set b | b in audioBufferList :: b.buffer
      ensures Valid()
      ensures var t := |data| / TimeSize(sampleRate, channels);
              if 0 < t <= PCM_BUFFER_MAX_WRITE_LEN_MS then
                && Now() == After(old(Now()), Write(srcTimestamp, t))
                && maxFrameTime == (if t > old(maxFrameTime) then t else old(maxFrameTime))
                && forall i :: 0 <= i < |audioBufferList| ==>
                     Stored(audioBufferList[i], old(audioBufferList[i].blocks),
                            WriteIndex(old(Now()), Write(srcTimestamp, t)), t, data, sampleRate, channels)
              else
                && Now() == old(Now()) && maxFrameTime == old(maxFrameTime)
                && forall i :: 0 <= i < |audioBufferList| ==>
                     audioBufferList[i].blocks == old(audioBufferList[i].blocks)
    {
      hide SourceIndex, Ordered, RingAt, TimeSize, IsResampled, Stored, BufferUpTo;
      TimeSizeOfWholeRate(sampleRate, channels);
      FrameTimeOf(|data|, sampleRate, channels);
      if |data| == 0 {
        return;
      }
      var frameTime := |data| * 2 * 1000 / (sampleRate * channels * 2);
      if frameTime > PCM_BUFFER_MAX_WRITE_LEN_MS {
        return;
      }
      ghost var w := Write(srcTimestamp, frameTime);
      Resynchronised(Now(), w);
      if frameTime > maxFrameTime {
        maxFrameTime := frameTime;
      }
      var srcTimeIndex := timeIndex;
      if startTimestamp == 0 {
        startTimestamp := srcTimestamp - frameTime * 1000;
      } else {
        var writeTimestamp := startTimestamp + srcTimeIndex * 1000 + frameTime * 1000;
        if writeTimestamp + PCM_BUFFER_LAG_MS * 1000 < srcTimestamp {
          srcTimeIndex := srcTimestamp / 1000 - startTimestamp / 1000 - frameTime;
        }
      }
      WriteBuffers(srcTimeIndex, frameTime, data);
      timeIndex := srcTimeIndex + frameTime;
    }

    // The buffer for a format, made now if there is none.
    method GetBuffer(dstSampleRate: nat, dstChannels: nat) returns (b: AudioBuffer)
      requires Valid() && WholeRate(dstSampleRate, dstChannels)
      modifies this`audioBufferList
      ensures Valid() && b in audioBufferList && b.sampleRate == dstSampleRate && b.channels == dstChannels
      ensures (b in old(audioBufferList) && audioBufferList == old(audioBufferList)) ||
              (fresh(b) && fresh(b.buffer) && b.blocks == [] && audioBufferList == old(audioBufferList) + [b])
    {
      hide SourceIndex, Ordered, RingAt, TimeSize;
      for i := 0 to |audioBufferList|
        invariant forall j :: 0 <= j < i ==>
                    audioBufferList[j].sampleRate + audioBufferList[j].channels != dstSampleRate + dstChannels
      {
        b := audioBufferList[i];
        if b.sampleRate + b.channels == dstSampleRate + dstChannels {
          KeyDeterminesFormat(b.sampleRate, b.channels, dstSampleRate, dstChannels);
          return;
        }
      }
      b := new AudioBuffer(dstSampleRate, dstChannels);
      audioBufferList := audioBufferList + [b];
    }

    // Mixes into data what was written up to the reader's time, if the guards let it.
    method ReadAudio(dstTimestamp: nat, data: array<int>, dstSampleRate: nat, dstChannels: nat)
      returns (ghost source: AudioBuffer?)
      requires Valid() && WholeRate(dstSampleRate, dstChannels)
      requires data.Length == 0 || TimeSize(dstSampleRate, dstChannels) <= data.Length
      requires forall i :: 0 <= i < |audioBufferList| ==> audioBufferList[i].buffer != data
      modifies data, this`audioBufferList
      ensures Valid() && |old(audioBufferList)| <= |audioBufferList| <= |old(audioBufferList)| + 1
      ensures forall i :: 0 <= i < |old(audioBufferList)| ==> audioBufferList[i] == old(audioBufferList)[i]
      ensures var ts := TimeSize(dstSampleRate, dstChannels);
              var dft, dst := data.Length / ts, ReadIndex(startTimestamp, maxFrameTime, dstTimestamp);
              if data.Length > 0 && ReadAccepted(timeIndex, dst, dft) then
                && source != null && source in audioBufferList
                && source.sampleRate == dstSampleRate && source.channels == dstChannels
                && (source in old(audioBufferList) || source.blocks == [])
                && forall k :: 0 <= k < data.Length ==>
                     data[k] == if k < dft * ts then Limited(old(data[k]) + SampleRead(source.blocks, ts, dst, dft, k))
                                else old(data[k])
              else
                audioBufferList == old(audioBufferList) && data[..] == old(data[..])
    {
      hide SourceIndex, Ordered, RingAt, TimeSize, Slot, BufferUpTo;
      source := null;
      TimeSizeOfWholeRate(dstSampleRate, dstChannels);
      FrameTimeOf(data.Length, dstSampleRate, dstChannels);
      if data.Length == 0 {
        return;
      }
      if timeIndex < PCM_BUFFER_MAX_WRITE_LEN_MS + PCM_BUFFER_MAX_READ_LEN_MS + PCM_BUFFER_LAG_MS {
        return;
      }
      var dstFrameTime := data.Length * 2 * 1000 / (dstSampleRate * dstChannels * 2);
      if dstFrameTime > PCM_BUFFER_MAX_READ_LEN_MS {
        return;
      }
      var srcTimeIndex, srcFrameTime := timeIndex, maxFrameTime;
      var dstTimeIndex := dstTimestamp / 1000 - startTimestamp / 1000 - srcFrameTime - PCM_BUFFER_LAG_MS;
      if dstTimeIndex < dstFrameTime {
        return;
      }
      if dstTimeIndex > srcTimeIndex {
        return;
      }
      if srcTimeIndex - dstTimeIndex > PCM_BUFFER_LEN_MS - PCM_BUFFER_MAX_WRITE_LEN_MS - dstFrameTime {
        return;
      }
      source := ReadFrom(dstTimeIndex, dstFrameTime, data, dstSampleRate, dstChannels);
    }

    // The read itself: dft milliseconds that end at dst.
    method ReadFrom(dst: nat, dft: nat, data: array<int>, dstSampleRate: nat, dstChannels: nat)
      returns (ghost source: AudioBuffer)
      requires Valid() && WholeRate(dstSampleRate, dstChannels)
      requires 0 < dft <= dst && dft <= PCM_BUFFER_MAX_READ_LEN_MS
      requires dft * TimeSize(dstSampleRate, dstChannels) <= data.Length
      requires forall i :: 0 <= i < |audioBufferList| ==> audioBufferList[i].buffer != data
      modifies data, this`audioBufferList
      ensures Valid() && source in audioBufferList
      ensures source.sampleRate == dstSampleRate && source.channels == dstChannels
      ensures (source in old(audioBufferList) && audioBufferList == old(audioBufferList)) ||
              (source.blocks == [] && audioBufferList == old(audioBufferList) + [source])
      ensures var ts := TimeSize(dstSampleRate, dstChannels);
              forall k :: 0 <= k < data.Length ==>
                data[k] == if k < dft * ts then Limited(old(data[k]) + SampleRead(source.blocks, ts, dst, dft, k))
                           else old(data[k])
    {
      hide SourceIndex, Ordered, RingAt, TimeSize, Slot;
      TimeSizeOfWholeRate(dstSampleRate, dstChannels);
      var b := GetBuffer(dstSampleRate, dstChannels);
      source := b;
      var dstBuffer := b.Read(dst - dft, dft);
      AtLeastOne(dft, b.bufferTimeSize);
      Mix(dstBuffer, data, dstBuffer.Length);
    }
  }

  lemma AtLeastOne(m: nat, n: nat)
    ensures m > 0 && n > 0 ==> m * n > 0
  {
  }

  // Sample k of a read of dft milliseconds that end at dst.
  function SampleRead(blocks: seq<Block>, ts: nat, dst: int, dft: nat, k: nat): int {
    if ts == 0 || dst < dft then 0
    else RingAt(blocks, PCM_BUFFER_LEN_MS * ts, Slot(PositionRead(ts, dst, dft, k), PCM_BUFFER_LEN_MS * ts))
  }

  lemma FrameTimeOf(n: nat, rate: nat, channels: nat)
    requires WholeRate(rate, channels)
    ensures n * 2 * 1000 / (rate * channels * 2) == n / TimeSize(rate, channels)
  {
    TimeSizeOfWholeRate(rate, channels);
    var ts := TimeSize(rate, channels);
    assert rate * channels * 2 == 2000 * ts;
    assert n * 2 * 1000 == n / ts * (2000 * ts) + 2000 * (n % ts);
    DivModUnique(n * 2 * 1000, 2000 * ts, n / ts, 2000 * (n % ts));
  }

  // What one accepted write does to a buffer: one block more, the data resampled, if
  // there is a resampler for its format.
  ghost predicate Stored(b: AudioBuffer, before: seq<Block>, at: nat, t: nat, data: seq<int>, sr: nat, sc: nat)
    reads b
  {
    if HasResampler(b.sampleRate + b.channels) then
      && |b.blocks| == |before| + 1 && b.blocks[..|before|] == before
      && var block := b.blocks[|before|];
         && block.at == at * b.bufferTimeSize && |block.data| == t * b.bufferTimeSize
         && SameDuration(data, sr, sc, b.sampleRate, b.channels, |block.data|)
         && IsResampled(data, sr, sc, b.sampleRate, b.channels, block.data)
    else
      b.blocks == before
  }

  ghost predicate BufferUpTo(b: AudioBuffer, t: nat)
    reads b, b.buffer
  {
    b.Valid() && EndOf(b.blocks) <= t * b.bufferTimeSize
  }

  predicate Apart(b: AudioBuffer, b': AudioBuffer) {
    b != b' && b.buffer != b'.buffer && b.sampleRate + b.channels != b'.sampleRate + b'.channels
  }
}
