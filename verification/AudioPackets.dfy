// How a talk is cut into RTP packets.
//
// The transmitter makes one codec read after the other; an empty read is silence.
// A packet takes consecutive reads of one talk burst.  It ends when it holds as many
// frames as a packet takes, or with the burst.

module AudioPackets {
  import opened Arithmetic

  type Bytes = seq<bv8>

  datatype Config = Config(framesInPacket: nat, maxFrameSize: nat, g729: bool, frameRate: nat, firstTimestamp: nat)

  datatype Packet = Packet(marker: bool, timestamp: nat, payload: Bytes)

  // Reads from first up to, not including, end.
  datatype Range = Range(first: nat, end: nat)

  predicate Usable(cfg: Config) {
    cfg.framesInPacket >= 1 && cfg.maxFrameSize >= 1
  }

  // The 32-bit RTP timestamp at read i.
  function Stamp(cfg: Config, i: nat): nat {
    (cfg.firstTimestamp + i * cfg.frameRate) % 0x1_0000_0000
  }

  function Concat(input: seq<Bytes>): Bytes {
    if input == [] then [] else Concat(input[..|input|-1]) + input[|input|-1]
  }

  // Frames in a packet after one more read; a silence descriptor of G.729, two bytes
  // long, fills the packet.
  function CountOne(cfg: Config, count: nat, read: Bytes): nat
    requires Usable(cfg)
  {
    if cfg.g729 && |read| == 2 then cfg.framesInPacket
    else count + (|read| + cfg.maxFrameSize - 1) / cfg.maxFrameSize
  }

  function Count(cfg: Config, input: seq<Bytes>): nat
    requires Usable(cfg)
  {
    if input == [] then 0 else CountOne(cfg, Count(cfg, input[..|input|-1]), input[|input|-1])
  }

  predicate Full(cfg: Config, input: seq<Bytes>)
    requires Usable(cfg)
  {
    Count(cfg, input) >= cfg.framesInPacket
  }

  predicate Spoken(input: seq<Bytes>) {
    forall i :: 0 <= i < |input| ==> input[i] != []
  }

  // Reads that one packet takes: spoken, and the packet ends as soon as it is full, or
  // else before the next silent read.
  predicate IsPacketRange(cfg: Config, input: seq<Bytes>, r: Range)
    requires Usable(cfg)
  {
    && r.first < r.end <= |input|
    && Spoken(input[r.first..r.end])
    && (forall e :: r.first <= e < r.end ==> !Full(cfg, input[r.first..e]))
    && (Full(cfg, input[r.first..r.end]) || (r.end < |input| && input[r.end] == []))
  }

  function EndBefore(ranges: seq<Range>, k: nat): nat
    requires k <= |ranges|
  {
    if k == 0 then 0 else ranges[k-1].end
  }

  // The ranges are packets, in order, and between them is only silence.
  predicate Packets(cfg: Config, input: seq<Bytes>, ranges: seq<Range>)
    requires Usable(cfg)
  {
    && (forall k :: 0 <= k < |ranges| ==> IsPacketRange(cfg, input, ranges[k]))
    && (forall k {:trigger EndBefore(ranges, k)} :: 0 <= k < |ranges| ==>
          Silent(input, EndBefore(ranges, k), ranges[k].first))
  }

  // After end there is silence up to pending, and from there on reads that wait for a
  // packet that is not full yet.
  predicate Waits(cfg: Config, input: seq<Bytes>, end: nat, pending: nat)
    requires Usable(cfg)
  {
    && Silent(input, end, pending) && pending <= |input|
    && Spoken(input[pending..]) && !Full(cfg, input[pending..])
  }

  // How the reads are cut into packets.
  predicate Cut(cfg: Config, input: seq<Bytes>, ranges: seq<Range>, pending: nat)
    requires Usable(cfg)
  {
    Packets(cfg, input, ranges) && Waits(cfg, input, EndBefore(ranges, |ranges|), pending)
  }

  // Only silent reads from i up to j.
  predicate Silent(input: seq<Bytes>, i: nat, j: nat) {
    i <= j && forall n :: i <= n < j && n < |input| ==> input[n] == []
  }

  // A talk burst starts at read i.
  predicate StartsBurst(input: seq<Bytes>, i: nat) {
    i < |input| && input[i] != [] && (i == 0 || input[i-1] == [])
  }

  // The packet sent for a range.  One that silence ended carries the time of that silent
  // read, not of its own first read.
  function PacketOf(cfg: Config, input: seq<Bytes>, r: Range): Packet
    requires Usable(cfg) && r.first < r.end <= |input|
  {
    Packet(StartsBurst(input, r.first),
           Stamp(cfg, if Full(cfg, input[r.first..r.end]) then r.first else r.end),
           Concat(input[r.first..r.end]))
  }

  // ---------- One more read ----------

  lemma {:induction false} FullStays(cfg: Config, input: seq<Bytes>, n: nat)
    requires Usable(cfg) && n <= |input| && Full(cfg, input[..n])
    ensures Full(cfg, input)
    decreases |input|
  {
    hide Full;
    if n < |input| {
      var before := input[..|input|-1];
      assert before[..n] == input[..n];
      FullStays(cfg, before, n);
      FullOneMore(cfg, input);
    } else {
      assert input[..n] == input;
    }
  }

  lemma FullOneMore(cfg: Config, input: seq<Bytes>)
    requires Usable(cfg) && input != [] && Full(cfg, input[..|input|-1])
    ensures Full(cfg, input)
  {
  }

  lemma RangeStays(cfg: Config, input: seq<Bytes>, read: Bytes, r: Range)
    requires Usable(cfg) && IsPacketRange(cfg, input, r)
    ensures IsPacketRange(cfg, input + [read], r)
    ensures PacketOf(cfg, input + [read], r) == PacketOf(cfg, input, r)
  {
    hide Full, Concat, Stamp;
    assert forall e :: r.first <= e <= r.end ==> (input + [read])[r.first..e] == input[r.first..e];
  }

  // The ranges and the pending read after one more read.
  function CutNext(cfg: Config, input: seq<Bytes>, ranges: seq<Range>, pending: nat, read: Bytes): (seq<Range>, nat)
    requires Usable(cfg) && pending <= |input|
  {
    var n := |input|;
    if read == [] then
      (if pending < n then ranges + [Range(pending, n)] else ranges, n + 1)
    else if Full(cfg, input[pending..] + [read]) then
      (ranges + [Range(pending, n + 1)], n + 1)
    else
      (ranges, pending)
  }

  lemma PacketsStay(cfg: Config, input: seq<Bytes>, ranges: seq<Range>, read: Bytes)
    requires Usable(cfg) && Packets(cfg, input, ranges)
    ensures Packets(cfg, input + [read], ranges)
  {
    hide Full, IsPacketRange;
    forall k | 0 <= k < |ranges|
      ensures IsPacketRange(cfg, input + [read], ranges[k])
      ensures Silent(input + [read], EndBefore(ranges, k), ranges[k].first)
    {
      RangeStays(cfg, input, read, ranges[k]);
      RangeEnds(cfg, input, ranges[k]);
    }
  }

  lemma OnePacketMore(cfg: Config, input: seq<Bytes>, ranges: seq<Range>, r: Range)
    requires Usable(cfg) && Packets(cfg, input, ranges) && IsPacketRange(cfg, input, r)
    requires Silent(input, EndBefore(ranges, |ranges|), r.first)
    ensures Packets(cfg, input, ranges + [r])
  {
    hide IsPacketRange, Silent;
    var ranges' := ranges + [r];
    forall k | 0 <= k < |ranges'|
      ensures Silent(input, EndBefore(ranges', k), ranges'[k].first)
    {
      assert EndBefore(ranges', k) == EndBefore(ranges, k);
    }
  }

  lemma CutStaysCut(cfg: Config, input: seq<Bytes>, ranges: seq<Range>, pending: nat, read: Bytes)
    requires Usable(cfg) && Cut(cfg, input, ranges, pending)
    ensures var (ranges', pending') := CutNext(cfg, input, ranges, pending, read);
            Cut(cfg, input + [read], ranges', pending')
  {
    hide Full, IsPacketRange, Packets;
    var (ranges', pending') := CutNext(cfg, input, ranges, pending, read);
    assert (input + [read])[pending..] == input[pending..] + [read];
    PacketsStay(cfg, input, ranges, read);
    NothingIsNotFull(cfg);
    if |ranges'| > |ranges| {
      PendingIsPacket(cfg, input, pending, read);
      OnePacketMore(cfg, input + [read], ranges, ranges'[|ranges|]);
    }
  }

  lemma NothingIsNotFull(cfg: Config)
    requires Usable(cfg)
    ensures !Full(cfg, [])
  {
  }

  lemma RangeEnds(cfg: Config, input: seq<Bytes>, r: Range)
    requires Usable(cfg) && IsPacketRange(cfg, input, r)
    ensures r.first < r.end <= |input|
  {
  }

  // The pending reads make a packet when the next read fills it or is silent.
  lemma PendingIsPacket(cfg: Config, input: seq<Bytes>, pending: nat, read: Bytes)
    requires Usable(cfg) && pending <= |input| && Spoken(input[pending..]) && !Full(cfg, input[pending..])
    requires if read == [] then pending < |input| else Full(cfg, input[pending..] + [read])
    ensures IsPacketRange(cfg, input + [read], Range(pending, if read == [] then |input| else |input| + 1))
  {
    hide Full;
    var input', n := input + [read], |input|;
    forall e | pending <= e <= n
      ensures !Full(cfg, input'[pending..e])
    {
      assert input'[pending..e] == input[pending..][..e - pending];
      if Full(cfg, input[pending..][..e - pending]) {
        FullStays(cfg, input[pending..], e - pending);
      }
    }
    assert input'[pending..n] == input[pending..];
    assert input'[pending..n+1] == input[pending..] + [read];
  }

  // ---------- What being cut means ----------

  // Being cut leaves no choice: the reads determine the packets and what waits.
  lemma {:induction false} RangesAgree(cfg: Config, input: seq<Bytes>, ranges: seq<Range>, ranges': seq<Range>, k: nat)
    requires Usable(cfg) && Packets(cfg, input, ranges) && Packets(cfg, input, ranges')
    requires k <= |ranges| && k <= |ranges'|
    ensures forall j :: 0 <= j < k ==> ranges[j] == ranges'[j]
  {
    hide Full, IsPacketRange;
    if k > 0 {
      RangesAgree(cfg, input, ranges, ranges', k - 1);
      assert EndBefore(ranges, k - 1) == EndBefore(ranges', k - 1);
      NextPacketAgrees(cfg, input, EndBefore(ranges, k - 1), ranges[k-1], ranges'[k-1]);
    }
  }

  lemma NextPacketAgrees(cfg: Config, input: seq<Bytes>, from: nat, r: Range, r': Range)
    requires Usable(cfg) && IsPacketRange(cfg, input, r) && IsPacketRange(cfg, input, r')
    requires Silent(input, from, r.first) && Silent(input, from, r'.first)
    ensures r == r'
  {
    hide Full;
    FirstIsSpoken(cfg, input, r);
    FirstIsSpoken(cfg, input, r');
    assert input[r.first] != [] && input[r'.first] != [];
    assert r.first == r'.first;
  }

  lemma FirstIsSpoken(cfg: Config, input: seq<Bytes>, r: Range)
    requires Usable(cfg) && IsPacketRange(cfg, input, r)
    ensures r.first < r.end <= |input|
    ensures forall i :: r.first <= i < r.end ==> input[i] != []
  {
    forall i | r.first <= i < r.end
      ensures input[i] != []
    {
      assert input[r.first..r.end][i - r.first] == input[i];
    }
  }

  lemma SpokenFrom(input: seq<Bytes>, pending: nat)
    requires pending <= |input| && Spoken(input[pending..])
    ensures forall i :: pending <= i < |input| ==> input[i] != []
  {
    assert forall i :: pending <= i < |input| ==> input[i] == input[pending..][i - pending];
  }

  // Reads that wait are no packet.
  lemma WaitingIsNoPacket(cfg: Config, input: seq<Bytes>, end: nat, pending: nat, r: Range)
    requires Usable(cfg) && Waits(cfg, input, end, pending)
    requires Silent(input, end, r.first)
    ensures !IsPacketRange(cfg, input, r)
  {
    hide Full;
    if IsPacketRange(cfg, input, r) {
      FirstIsSpoken(cfg, input, r);
      assert input[r.first] != [];
      SpokenFrom(input, pending);
      assert pending < |input| ==> input[pending] != [];
      assert pending == r.first;
      if Full(cfg, input[r.first..r.end]) {
        assert input[r.first..r.end] == input[pending..][..r.end - pending];
        FullStays(cfg, input[pending..], r.end - pending);
      }
    }
  }

  lemma NoMorePackets(cfg: Config, input: seq<Bytes>, ranges: seq<Range>, pending: nat, ranges': seq<Range>)
    requires Usable(cfg) && Cut(cfg, input, ranges, pending) && Packets(cfg, input, ranges')
    ensures |ranges'| <= |ranges|
  {
    hide Full, IsPacketRange;
    var n := |ranges|;
    if n < |ranges'| {
      RangesAgree(cfg, input, ranges, ranges', n);
      assert EndBefore(ranges', n) == EndBefore(ranges, n);
      WaitingIsNoPacket(cfg, input, EndBefore(ranges, n), pending, ranges'[n]);
    }
  }

  lemma CutIsUnique(cfg: Config, input: seq<Bytes>, ranges: seq<Range>, pending: nat,
                    ranges': seq<Range>, pending': nat)
    requires Usable(cfg) && Cut(cfg, input, ranges, pending) && Cut(cfg, input, ranges', pending')
    ensures ranges == ranges' && pending == pending'
  {
    hide Full, IsPacketRange;
    var n := |ranges|;
    NoMorePackets(cfg, input, ranges, pending, ranges');
    NoMorePackets(cfg, input, ranges', pending', ranges);
    RangesAgree(cfg, input, ranges, ranges', n);
    assert pending < |input| ==> input[pending] == input[pending..][0];
    assert pending' < |input| ==> input[pending'] == input[pending'..][0];
  }

  // ---------- Bytes ----------

  function Payloads(input: seq<Bytes>, ranges: seq<Range>): Bytes
    requires forall r :: r in ranges ==> r.first <= r.end <= |input|
  {
    if ranges == [] then []
    else
      var r := ranges[|ranges|-1];
      Payloads(input, ranges[..|ranges|-1]) + Concat(input[r.first..r.end])
  }

  lemma {:induction false} ConcatSplit(input: seq<Bytes>, i: nat)
    requires i <= |input|
    ensures Concat(input) == Concat(input[..i]) + Concat(input[i..])
    decreases |input|
  {
    if i == |input| {
      assert input[..i] == input;
    } else {
      var n := |input| - 1;
      ConcatSplit(input[..n], i);
      assert input[..n][..i] == input[..i] && input[..n][i..] == input[i..][..n - i];
      assert input[i..][n - i] == input[n];
    }
  }

  lemma {:induction false} ConcatOfSilence(input: seq<Bytes>)
    requires forall i :: 0 <= i < |input| ==> input[i] == []
    ensures Concat(input) == []
  {
    if input != [] {
      ConcatOfSilence(input[..|input|-1]);
    }
  }

  lemma ConcatOverSilence(input: seq<Bytes>, i: nat, j: nat)
    requires Silent(input, i, j) && j <= |input|
    ensures Concat(input[..j]) == Concat(input[..i])
  {
    ConcatSplit(input[..j], i);
    assert input[..j][..i] == input[..i];
    ConcatOfSilence(input[..j][i..]);
  }

  lemma PacketsBefore(cfg: Config, input: seq<Bytes>, ranges: seq<Range>)
    requires Usable(cfg) && Packets(cfg, input, ranges) && ranges != []
    ensures Packets(cfg, input, ranges[..|ranges|-1])
    ensures var r := ranges[|ranges|-1];
            EndBefore(ranges, |ranges| - 1) <= r.first < r.end <= |input| &&
            Silent(input, EndBefore(ranges, |ranges| - 1), r.first)
    ensures EndBefore(ranges[..|ranges|-1], |ranges| - 1) == EndBefore(ranges, |ranges| - 1)
  {
    hide IsPacketRange;
    var n := |ranges| - 1;
    var before := ranges[..n];
    RangeEnds(cfg, input, ranges[n]);
    assert Silent(input, EndBefore(ranges, n), ranges[n].first);
    forall k | 0 <= k < n
      ensures Silent(input, EndBefore(before, k), before[k].first)
    {
      assert EndBefore(before, k) == EndBefore(ranges, k);
      assert Silent(input, EndBefore(ranges, k), ranges[k].first);
    }
  }

  lemma {:induction false} PayloadsAreAPrefix(cfg: Config, input: seq<Bytes>, ranges: seq<Range>)
    requires Usable(cfg) && Packets(cfg, input, ranges)
    ensures forall r :: r in ranges ==> r.first <= r.end <= |input|
    ensures EndBefore(ranges, |ranges|) <= |input|
    ensures Payloads(input, ranges) == Concat(input[..EndBefore(ranges, |ranges|)])
  {
    hide Packets, Silent, Concat;
    if ranges != [] {
      var n := |ranges| - 1;
      var before, r := ranges[..n], ranges[n];
      PacketsBefore(cfg, input, ranges);
      PayloadsAreAPrefix(cfg, input, before);
      ConcatOverSilence(input, EndBefore(ranges, n), r.first);
      ConcatSplit(input[..r.end], r.first);
      assert input[..r.end][..r.first] == input[..r.first] && input[..r.end][r.first..] == input[r.first..r.end];
      assert ranges == before + [r];
    } else {
      NothingToSend(input);
    }
  }

  lemma NothingToSend(input: seq<Bytes>)
    ensures Concat(input[..0]) == []
  {
  }

  // Every byte accepted is sent or waits, once each and in order.
  lemma BytesAreConserved(cfg: Config, input: seq<Bytes>, ranges: seq<Range>, pending: nat)
    requires Usable(cfg) && Cut(cfg, input, ranges, pending)
    ensures forall r :: r in ranges ==> r.first <= r.end <= |input|
    ensures Payloads(input, ranges) + Concat(input[pending..]) == Concat(input)
  {
    hide Full, IsPacketRange;
    PayloadsAreAPrefix(cfg, input, ranges);
    ConcatOverSilence(input, EndBefore(ranges, |ranges|), pending);
    ConcatSplit(input, pending);
  }

  // ---------- Sizes, markers and timestamps ----------

  lemma {:induction false} SizeOf(cfg: Config, input: seq<Bytes>)
    requires Usable(cfg)
    requires forall i :: 0 <= i < |input| ==> 0 < |input[i]| <= cfg.maxFrameSize
    ensures |input| <= Count(cfg, input) || Full(cfg, input)
    ensures |Concat(input)| <= |input| * cfg.maxFrameSize
  {
    if input != [] {
      var before, read := input[..|input|-1], input[|input|-1];
      SizeOf(cfg, before);
      OneFrame(|read|, cfg.maxFrameSize);
      assert |input| * cfg.maxFrameSize == |before| * cfg.maxFrameSize + cfg.maxFrameSize;
    }
  }

  lemma OneFrame(n: nat, max: nat)
    requires 0 < n <= max
    ensures (n + max - 1) / max == 1
  {
  }

  // Reads no longer than a frame: no packet is longer than its frames.
  lemma PayloadFits(cfg: Config, input: seq<Bytes>, r: Range)
    requires Usable(cfg) && IsPacketRange(cfg, input, r)
    requires forall i :: 0 <= i < |input| ==> |input[i]| <= cfg.maxFrameSize
    ensures 0 < |Concat(input[r.first..r.end])| <= cfg.framesInPacket * cfg.maxFrameSize
  {
    hide Concat;
    FirstIsSpoken(cfg, input, r);
    var s := input[r.first..r.end];
    var before := input[r.first..r.end - 1];
    SizeOf(cfg, before);
    SizeOf(cfg, s);
    assert |s| <= cfg.framesInPacket;
    TimesAtMost(|s|, cfg.framesInPacket, cfg.maxFrameSize);
    ConcatSplit(s, 0);
    LastCounts(s);
  }

  lemma LastCounts(input: seq<Bytes>)
    requires input != []
    ensures |Concat(input)| >= |input[|input|-1]|
  {
  }

  // A packet carries the marker exactly when it does not go on from the packet before.
  lemma MarkerIff(cfg: Config, input: seq<Bytes>, ranges: seq<Range>, k: nat)
    requires Usable(cfg) && Packets(cfg, input, ranges) && k < |ranges|
    ensures ranges[k].first < ranges[k].end <= |input|
    ensures PacketOf(cfg, input, ranges[k]).marker <==> k == 0 || ranges[k-1].end < ranges[k].first
  {
    hide Full, Concat, Stamp;
    var r := ranges[k];
    FirstIsSpoken(cfg, input, r);
    assert Silent(input, EndBefore(ranges, k), r.first);
    if k > 0 {
      FirstIsSpoken(cfg, input, ranges[k-1]);
      assert input[ranges[k-1].end - 1] != [];
    }
    assert r.first > 0 && EndBefore(ranges, k) < r.first ==> input[r.first - 1] == [];
  }

  // Every talk burst begins a packet or what waits for one; so by MarkerIff its first
  // packet, and no other, carries the marker.
  lemma BurstBeginsPacket(cfg: Config, input: seq<Bytes>, ranges: seq<Range>, pending: nat, i: nat)
    requires Usable(cfg) && Cut(cfg, input, ranges, pending) && StartsBurst(input, i)
    ensures i == pending || exists k: nat :: k < |ranges| && ranges[k].first == i
  {
    if i < EndBefore(ranges, |ranges|) {
      var k := BurstInPackets(cfg, input, ranges, i);
    } else {
      BurstIsNotSilent(input, EndBefore(ranges, |ranges|), pending, i);
      hide Full, Packets, IsPacketRange, StartsBurst;
      SpokenFrom(input, pending);
      if pending < i {
        NoBurstWithin(input, pending, i);
      }
    }
  }

  lemma NoBurstWithin(input: seq<Bytes>, from: nat, i: nat)
    requires from < i <= |input| && forall n :: from <= n < i ==> input[n] != []
    ensures !StartsBurst(input, i)
  {
    assert input[i-1] != [];
  }

  lemma BurstIsNotSilent(input: seq<Bytes>, i: nat, j: nat, burst: nat)
    requires Silent(input, i, j) && StartsBurst(input, burst)
    ensures burst < i || j <= burst
  {
  }

  lemma BurstInRange(cfg: Config, input: seq<Bytes>, end: nat, r: Range, i: nat)
    requires Usable(cfg) && IsPacketRange(cfg, input, r) && Silent(input, end, r.first)
    requires StartsBurst(input, i) && end <= i < r.end
    ensures i == r.first
  {
    BurstIsNotSilent(input, end, r.first, i);
    hide Full, IsPacketRange, StartsBurst;
    FirstIsSpoken(cfg, input, r);
    if r.first < i {
      NoBurstWithin(input, r.first, i);
    }
  }

  lemma {:induction false} BurstInPackets(cfg: Config, input: seq<Bytes>, ranges: seq<Range>, i: nat) returns (k: nat)
    requires Usable(cfg) && Packets(cfg, input, ranges) && StartsBurst(input, i)
    requires i < EndBefore(ranges, |ranges|)
    ensures k < |ranges| && ranges[k].first == i
  {
    hide Full, IsPacketRange, Packets, StartsBurst, Silent;
    LastPacket(cfg, input, ranges);
    k := |ranges| - 1;
    PacketsBefore(cfg, input, ranges);
    if i < EndBefore(ranges, k) {
      k := BurstInPackets(cfg, input, ranges[..k], i);
    } else {
      BurstInRange(cfg, input, EndBefore(ranges, k), ranges[k], i);
    }
  }

  lemma LastPacket(cfg: Config, input: seq<Bytes>, ranges: seq<Range>)
    requires Usable(cfg) && Packets(cfg, input, ranges) && ranges != []
    ensures IsPacketRange(cfg, input, ranges[|ranges|-1])
  {
    hide IsPacketRange;
  }

  // A packet carries the time of its first read exactly when it was sent for being
  // full; one that silence ended carries a later time.
  lemma TimestampIff(cfg: Config, input: seq<Bytes>, r: Range)
    requires Usable(cfg) && IsPacketRange(cfg, input, r)
    requires forall i :: 0 <= i < |input| ==> |input[i]| <= cfg.maxFrameSize
    requires cfg.frameRate > 0 && cfg.framesInPacket * cfg.frameRate < 0x1_0000_0000
    ensures PacketOf(cfg, input, r).timestamp == Stamp(cfg, r.first) <==> Full(cfg, input[r.first..r.end])
  {
    hide Concat, StartsBurst, Count, Stamp;
    FirstIsSpoken(cfg, input, r);
    SizeOf(cfg, input[r.first..r.end - 1]);
    var n := r.end - r.first;
    assert n <= cfg.framesInPacket;
    TimesAtMost(n, cfg.framesInPacket, cfg.frameRate);
    LaterStamp(cfg, r.first, n);
  }

  lemma LaterStamp(cfg: Config, i: nat, n: nat)
    requires n > 0 && cfg.frameRate > 0 && n * cfg.frameRate < 0x1_0000_0000
    ensures Stamp(cfg, i + n) != Stamp(cfg, i)
  {
    assert (i + n) * cfg.frameRate == i * cfg.frameRate + n * cfg.frameRate;
    TimesAtMost(1, n, cfg.frameRate);
  }

  // ---------- How many reads make a packet ----------

  // A silence descriptor of G.729.
  predicate IsDescriptor(cfg: Config, read: Bytes) {
    cfg.g729 && |read| == 2
  }

  predicate SingleFrames(cfg: Config, input: seq<Bytes>) {
    forall i :: 0 <= i < |input| ==> |input[i]| <= cfg.maxFrameSize
  }

  // Spoken reads of at most a frame fill a packet exactly if they are as many as a packet
  // takes, or there is a descriptor among them.
  lemma {:induction false} FullIff(cfg: Config, input: seq<Bytes>)
    requires Usable(cfg) && Spoken(input) && SingleFrames(cfg, input)
    ensures Full(cfg, input) <==>
            |input| >= cfg.framesInPacket || exists i :: 0 <= i < |input| && IsDescriptor(cfg, input[i])
    ensures (forall i :: 0 <= i < |input| ==> !IsDescriptor(cfg, input[i])) ==> Count(cfg, input) == |input|
  {
    if input != [] {
      var before, read := input[..|input|-1], input[|input|-1];
      FullIff(cfg, before);
      OneFrame(|read|, cfg.maxFrameSize);
      if i :| 0 <= i < |before| && IsDescriptor(cfg, before[i]) {
        assert IsDescriptor(cfg, input[i]);
      }
    }
  }

  // So a packet takes exactly as many reads as it has frames, but that a descriptor is its
  // last read, and it ends before a silent read with fewer.
  predicate TakesReads(cfg: Config, input: seq<Bytes>, r: Range) {
    && r.first < r.end <= |input| && r.end - r.first <= cfg.framesInPacket
    && (forall i :: r.first <= i < r.end ==> input[i] != [])
    && (forall i :: r.first <= i < r.end - 1 ==> !IsDescriptor(cfg, input[i]))
    && (|| r.end - r.first == cfg.framesInPacket || IsDescriptor(cfg, input[r.end-1])
        || (r.end < |input| && input[r.end] == []))
  }

  lemma PartFullIff(cfg: Config, input: seq<Bytes>, i: nat, j: nat)
    requires Usable(cfg) && SingleFrames(cfg, input) && i <= j <= |input|
    requires forall n :: i <= n < j ==> input[n] != []
    ensures Full(cfg, input[i..j]) <==>
            j - i >= cfg.framesInPacket || exists n :: i <= n < j && IsDescriptor(cfg, input[n])
  {
    hide Full, IsDescriptor;
    var part := input[i..j];
    FullIff(cfg, part);
    if n :| 0 <= n < |part| && IsDescriptor(cfg, part[n]) {
      assert IsDescriptor(cfg, input[i + n]);
    }
    if n :| i <= n < j && IsDescriptor(cfg, input[n]) {
      assert IsDescriptor(cfg, part[n - i]);
    }
  }

  lemma PacketRangeIff(cfg: Config, input: seq<Bytes>, r: Range)
    requires Usable(cfg) && SingleFrames(cfg, input)
    ensures IsPacketRange(cfg, input, r) <==> TakesReads(cfg, input, r)
  {
    hide Full, IsDescriptor, SingleFrames;
    if r.first < r.end <= |input| {
      SpokenPartIff(input, r.first, r.end);
      if forall i :: r.first <= i < r.end ==> input[i] != [] {
        forall e | r.first <= e <= r.end
          ensures Full(cfg, input[r.first..e]) <==>
                  e - r.first >= cfg.framesInPacket || exists n :: r.first <= n < e && IsDescriptor(cfg, input[n])
        {
          PartFullIff(cfg, input, r.first, e);
        }
        assert IsPacketRange(cfg, input, r) ==> !Full(cfg, input[r.first..r.end - 1]);
      }
    }
  }

  lemma SpokenPartIff(input: seq<Bytes>, i: nat, j: nat)
    requires i <= j <= |input|
    ensures Spoken(input[i..j]) <==> forall n :: i <= n < j ==> input[n] != []
  {
    if Spoken(input[i..j]) {
      forall n | i <= n < j
        ensures input[n] != []
      {
        assert input[i..j][n - i] == input[n];
      }
    }
  }

  // The timestamp of a packet is the time of its first read if it has all its frames or ends
  // with a descriptor, and else that of the silent read after it.
  lemma PacketTime(cfg: Config, input: seq<Bytes>, r: Range)
    requires Usable(cfg) && SingleFrames(cfg, input) && IsPacketRange(cfg, input, r)
    ensures r.first < r.end <= |input|
    ensures var full := r.end - r.first == cfg.framesInPacket || (cfg.g729 && |input[r.end-1]| == 2);
            PacketOf(cfg, input, r).timestamp ==
            (cfg.firstTimestamp + (if full then r.first else r.end) * cfg.frameRate) % 0x1_0000_0000
  {
    hide Full, Concat, StartsBurst;
    FirstIsSpoken(cfg, input, r);
    PacketRangeIff(cfg, input, r);
    PartFullIff(cfg, input, r.first, r.end);
  }

  // The reads that wait are fewer than a packet takes, with no descriptor among them.
  lemma WaitingReads(cfg: Config, input: seq<Bytes>, ranges: seq<Range>, pending: nat)
    requires Usable(cfg) && SingleFrames(cfg, input) && Cut(cfg, input, ranges, pending)
    ensures pending <= |input| && |input| - pending < cfg.framesInPacket
    ensures forall i :: pending <= i < |input| ==> input[i] != [] && !IsDescriptor(cfg, input[i])
  {
    hide Full, Packets, IsDescriptor, SingleFrames;
    SpokenFrom(input, pending);
    PartFullIff(cfg, input, pending, |input|);
    assert input[pending..|input|] == input[pending..];
  }
}
