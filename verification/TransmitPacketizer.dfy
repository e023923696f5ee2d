// The audio part of the transmit loop of an RTP channel.
//
// One call of Iterate is one turn of the loop.  The codec read is given as the bytes it
// returned; muted stands for freezeWrite and paused.  Sending always succeeds, and no
// filters are installed.

module TransmitPacketizer {
  import opened Arithmetic
  import opened AudioPackets

  // ---------- The loop state as values ----------

  // sent holds exactly the packets of the ranges, in order.
  predicate IsSent(cfg: Config, input: seq<Bytes>, ranges: seq<Range>, sent: seq<Packet>)
    requires Usable(cfg)
  {
    && |sent| == |ranges|
    && forall k :: 0 <= k < |ranges| ==> ranges[k].first < ranges[k].end <= |input| &&
                                         sent[k] == PacketOf(cfg, input, ranges[k])
  }

  // What the loop keeps of the reads from pending on.
  datatype Talk = Talk(silent: bool, waiting: Bytes, frameCount: nat, marker: bool, timestamp: nat, rtpTimestamp: nat)

  predicate Follows(cfg: Config, input: seq<Bytes>, pending: nat, t: Talk)
    requires Usable(cfg)
  {
    && pending <= |input|
    && (t.silent <==> |input| == 0 || input[|input|-1] == [])
    && t.waiting == Concat(input[pending..])
    && t.frameCount == Count(cfg, input[pending..])
    && (t.marker <==> StartsBurst(input, pending))
    && (pending < |input| ==> t.timestamp == Stamp(cfg, pending))
    && t.rtpTimestamp == Stamp(cfg, |input|)
  }

  // ---------- Facts about one more read ----------

  lemma NextStamp(cfg: Config, i: nat)
    ensures Stamp(cfg, i + 1) == (Stamp(cfg, i) + cfg.frameRate) % 0x1_0000_0000
  {
    assert (i + 1) * cfg.frameRate == i * cfg.frameRate + cfg.frameRate;
    AddThenWrap(cfg.firstTimestamp + i * cfg.frameRate, cfg.frameRate);
  }

  lemma AddThenWrap(a: nat, b: nat)
    ensures (a + b) % 0x1_0000_0000 == (a % 0x1_0000_0000 + b) % 0x1_0000_0000
  {
  }

  lemma OneMore(cfg: Config, input: seq<Bytes>, pending: nat, read: Bytes)
    requires Usable(cfg) && pending <= |input|
    ensures (input + [read])[pending..] == input[pending..] + [read]
    ensures Concat((input + [read])[pending..]) == Concat(input[pending..]) + read
    ensures Count(cfg, (input + [read])[pending..]) == CountOne(cfg, Count(cfg, input[pending..]), read)
    ensures Concat((input + [read])[|input|+1..]) == [] && Count(cfg, (input + [read])[|input|+1..]) == 0
  {
    var s := input[pending..] + [read];
    assert (input + [read])[pending..] == s;
    assert s[..|s|-1] == input[pending..];
  }

  lemma SomethingWaitsIff(cfg: Config, input: seq<Bytes>, ranges: seq<Range>, pending: nat)
    requires Usable(cfg) && Cut(cfg, input, ranges, pending)
    ensures pending <= |input|
    ensures pending < |input| <==> Concat(input[pending..]) != []
    ensures pending < |input| ==> input[|input|-1] != []
    ensures Count(cfg, input[pending..]) < cfg.framesInPacket
    ensures pending == |input| ==> Count(cfg, input[pending..]) == 0
  {
    hide Packets, CountOne;
    SpokenFrom(input, pending);
    if pending < |input| {
      LastCounts(input[pending..]);
    }
  }

  // The payload buffer has room for one more frame.
  lemma RoomForOneMore(cfg: Config, input: seq<Bytes>, ranges: seq<Range>, pending: nat)
    requires Usable(cfg) && Cut(cfg, input, ranges, pending)
    requires forall i :: 0 <= i < |input| ==> |input[i]| <= cfg.maxFrameSize
    ensures pending <= |input|
    ensures |Concat(input[pending..])| + cfg.maxFrameSize <= cfg.framesInPacket * cfg.maxFrameSize
  {
    hide Packets, Count, Concat;
    var s := input[pending..];
    SpokenFrom(input, pending);
    SizeOf(cfg, s);
    TimesAtMost(|s| + 1, cfg.framesInPacket, cfg.maxFrameSize);
    assert (|s| + 1) * cfg.maxFrameSize == |s| * cfg.maxFrameSize + cfg.maxFrameSize;
  }

  lemma SentStays(cfg: Config, input: seq<Bytes>, ranges: seq<Range>, pending: nat, sent: seq<Packet>, read: Bytes)
    requires Usable(cfg) && Cut(cfg, input, ranges, pending) && IsSent(cfg, input, ranges, sent)
    ensures IsSent(cfg, input + [read], ranges, sent)
  {
    hide Full, IsPacketRange, PacketOf;
    forall k | 0 <= k < |ranges|
      ensures ranges[k].first < ranges[k].end <= |input| && sent[k] == PacketOf(cfg, input + [read], ranges[k])
    {
      RangeStays(cfg, input, read, ranges[k]);
    }
  }

  // The packet that the next read completes.
  lemma PacketCompleted(cfg: Config, input: seq<Bytes>, pending: nat, read: Bytes)
    requires Usable(cfg) && pending <= |input| && !Full(cfg, input[pending..])
    requires if read == [] then pending < |input| else Full(cfg, input[pending..] + [read])
    ensures var n := |input|;
            PacketOf(cfg, input + [read], Range(pending, if read == [] then n else n + 1)) ==
            Packet(StartsBurst(input + [read], pending), Stamp(cfg, if read == [] then n else pending),
                   Concat(input[pending..]) + read)
  {
    hide Full, Stamp, StartsBurst;
    var n := |input|;
    OneMore(cfg, input, pending, read);
    assert (input + [read])[pending..n] == input[pending..];
    assert (input + [read])[pending..n+1] == input[pending..] + [read];
    assert Concat(input[pending..]) + [] == Concat(input[pending..]);
  }

  // ---------- One turn of the loop on values ----------

  // Whether the read completes a packet.
  predicate Completes(cfg: Config, input: seq<Bytes>, pending: nat, read: Bytes)
    requires Usable(cfg) && pending <= |input|
  {
    if read == [] then pending < |input| else Full(cfg, input[pending..] + [read])
  }

  lemma CompletesCut(cfg: Config, input: seq<Bytes>, ranges: seq<Range>, pending: nat, read: Bytes)
    requires Usable(cfg) && Cut(cfg, input, ranges, pending)
    ensures pending <= |input|
    ensures var (ranges', pending') := CutNext(cfg, input, ranges, pending, read);
            var n := |input|;
            if Completes(cfg, input, pending, read) then
              ranges' == ranges + [Range(pending, if read == [] then n else n + 1)] && pending' == n + 1
            else
              ranges' == ranges && pending' == (if read == [] then n + 1 else pending)
  {
    hide Full, Packets;
  }

  lemma SendsNext(cfg: Config, input: seq<Bytes>, ranges: seq<Range>, pending: nat, sent: seq<Packet>, read: Bytes,
                  packet: Packet)
    requires Usable(cfg) && Cut(cfg, input, ranges, pending) && IsSent(cfg, input, ranges, sent)
    requires Completes(cfg, input, pending, read)
    requires packet == Packet(StartsBurst(input + [read], pending),
                              Stamp(cfg, if read == [] then |input| else pending),
                              Concat(input[pending..]) + read)
    ensures IsSent(cfg, input + [read], CutNext(cfg, input, ranges, pending, read).0, sent + [packet])
  {
    CompletesCut(cfg, input, ranges, pending, read);
    SentStays(cfg, input, ranges, pending, sent, read);
    PacketCompleted(cfg, input, pending, read);
    hide Full, Packets, Stamp, StartsBurst, Concat, Cut, CutNext, PacketOf;
  }

  // After a turn that sends: nothing waits.
  lemma FollowsAfterSend(cfg: Config, input: seq<Bytes>, pending: nat, t: Talk, read: Bytes, t': Talk)
    requires Usable(cfg) && Follows(cfg, input, pending, t)
    requires t'.silent == (read == []) && t'.waiting == [] && t'.frameCount == 0 && !t'.marker
    requires t'.rtpTimestamp == (t.rtpTimestamp + cfg.frameRate) % 0x1_0000_0000
    ensures Follows(cfg, input + [read], |input| + 1, t')
  {
    hide CountOne, Stamp;
    OneMore(cfg, input, pending, read);
    NextStamp(cfg, |input|);
  }

  // After a spoken read that fills no packet.
  lemma FollowsAfterFrame(cfg: Config, input: seq<Bytes>, ranges: seq<Range>, pending: nat, t: Talk, read: Bytes,
                          t': Talk)
    requires Usable(cfg) && Cut(cfg, input, ranges, pending) && Follows(cfg, input, pending, t) && read != []
    requires !t'.silent && t'.waiting == t.waiting + read && t'.frameCount == CountOne(cfg, t.frameCount, read)
    requires t'.marker == (t.marker || t.silent)
    requires t'.timestamp == (if t.waiting == [] then t.rtpTimestamp else t.timestamp)
    requires t'.rtpTimestamp == (t.rtpTimestamp + cfg.frameRate) % 0x1_0000_0000
    ensures Follows(cfg, input + [read], pending, t')
  {
    hide CountOne, Stamp, Cut, Count, Concat;
    OneMore(cfg, input, pending, read);
    NextStamp(cfg, |input|);
    SomethingWaitsIff(cfg, input, ranges, pending);
  }

  // What the first spoken read after silence means for the waiting packet.
  lemma MarkerAfterRead(cfg: Config, input: seq<Bytes>, ranges: seq<Range>, pending: nat, t: Talk, read: Bytes)
    requires Usable(cfg) && Cut(cfg, input, ranges, pending) && Follows(cfg, input, pending, t)
    ensures StartsBurst(input + [read], pending) <==> t.marker || (t.silent && read != [])
    ensures pending == |input| ==> !t.marker
    ensures t.silent ==> pending == |input|
    ensures t.waiting == [] <==> pending == |input|
    ensures pending < |input| ==> t.timestamp == Stamp(cfg, pending)
    ensures t.rtpTimestamp == Stamp(cfg, |input|)
    ensures t.frameCount < cfg.framesInPacket && (t.waiting == [] ==> t.frameCount == 0)
    ensures read != [] ==> (Completes(cfg, input, pending, read) <==>
                            CountOne(cfg, t.frameCount, read) >= cfg.framesInPacket)
  {
    hide CountOne, Stamp, Cut, Count, Concat;
    OneMore(cfg, input, pending, read);
    SomethingWaitsIff(cfg, input, ranges, pending);
  }

  // From the loop state t with the packets sent, one turn over read leads to t' and sent'.
  predicate Turn(cfg: Config, t: Talk, sent: seq<Packet>, read: Bytes, t': Talk, sent': seq<Packet>)
    requires Usable(cfg)
  {
    var count := if read != [] then CountOne(cfg, t.frameCount, read)
                 else if !t.silent && t.waiting != [] then cfg.framesInPacket
                 else t.frameCount;
    var marker := t.marker || (t.silent && read != []);
    var stamp := if read == [] || t.waiting == [] then t.rtpTimestamp else t.timestamp;
    && t'.silent == (read == [])
    && t'.rtpTimestamp == (t.rtpTimestamp + cfg.frameRate) % 0x1_0000_0000
    && if count >= cfg.framesInPacket then
         sent' == sent + [Packet(marker, stamp, t.waiting + read)] &&
         t'.waiting == [] && t'.frameCount == 0 && !t'.marker
       else
         sent' == sent && t'.waiting == t.waiting + read && t'.frameCount == count && t'.marker == marker &&
         t'.timestamp == stamp
  }

  // One turn cuts the reads into packets as they are to be cut, sends exactly the packet
  // that this completes, and keeps the rest.
  lemma TurnFollowsCut(cfg: Config, input: seq<Bytes>, ranges: seq<Range>, pending: nat, t: Talk, sent: seq<Packet>,
                       read: Bytes, t': Talk, sent': seq<Packet>)
    requires Usable(cfg) && Cut(cfg, input, ranges, pending) && IsSent(cfg, input, ranges, sent)
    requires Follows(cfg, input, pending, t) && Turn(cfg, t, sent, read, t', sent')
    ensures pending <= |input|
    ensures var (ranges', pending') := CutNext(cfg, input, ranges, pending, read);
            Cut(cfg, input + [read], ranges', pending') && IsSent(cfg, input + [read], ranges', sent') &&
            Follows(cfg, input + [read], pending', t')
  {
    hide Cut, IsSent, Follows, Completes, CutNext, Full, CountOne, Stamp, StartsBurst, Concat, Count;
    MarkerAfterRead(cfg, input, ranges, pending, t, read);
    CompletesCut(cfg, input, ranges, pending, read);
    CutStaysCut(cfg, input, ranges, pending, read);
    SilentReadCompletesIff(cfg, input, pending);
    if Completes(cfg, input, pending, read) {
      WaitingPart(cfg, input, pending, t);
      SendsNext(cfg, input, ranges, pending, sent, read, sent'[|sent|]);
      FollowsAfterSend(cfg, input, pending, t, read, t');
    } else {
      SentStays(cfg, input, ranges, pending, sent, read);
      if read == [] {
        FollowsAfterSend(cfg, input, pending, t, read, t');
      } else {
        FollowsAfterFrame(cfg, input, ranges, pending, t, read, t');
      }
    }
  }

  lemma SilentReadCompletesIff(cfg: Config, input: seq<Bytes>, pending: nat)
    requires Usable(cfg) && pending <= |input|
    ensures Completes(cfg, input, pending, []) <==> pending < |input|
  {
  }

  lemma WaitingPart(cfg: Config, input: seq<Bytes>, pending: nat, t: Talk)
    requires Usable(cfg) && Follows(cfg, input, pending, t)
    ensures pending <= |input| && t.waiting == Concat(input[pending..])
  {
  }

  // ---------- The channel ----------

  class MCU_RTPChannel {
    const cfg: Config
    const payload: array<bv8>
    var silent: bool
    var frameOffset: nat
    var frameCount: nat
    var payloadSize: nat
    var marker: bool
    var timestamp: nat
    var rtpTimestamp: nat
    // What WriteFrame was given.
    var sent: seq<Packet>

    // Every read so far, muted ones as empty reads, and how they are cut into packets.
    ghost var input: seq<Bytes>
    ghost var ranges: seq<Range>
    ghost var pending: nat

    ghost function State(): Talk
      reads this, payload
      requires frameOffset <= payload.Length
    {
      Talk(silent, payload[..frameOffset], frameCount, marker, timestamp, rtpTimestamp)
    }

    ghost predicate Valid()
      reads this, payload
    {
      && Usable(cfg)
      && payload.Length == cfg.framesInPacket * cfg.maxFrameSize
      && frameOffset <= payload.Length && payloadSize == 0
      && (forall i :: 0 <= i < |input| ==> |input[i]| <= cfg.maxFrameSize)
      && Cut(cfg, input, ranges, pending)
      && IsSent(cfg, input, ranges, sent)
      && Follows(cfg, input, pending, State())
    }

    constructor (cfg: Config)
      requires Usable(cfg)
      ensures Valid() && this.cfg == cfg && fresh(payload)
      ensures input == [] && sent == []
    {
      this.cfg := cfg;
      payload := new bv8[cfg.framesInPacket * cfg.maxFrameSize];
      silent, frameOffset, frameCount, payloadSize := true, 0, 0, 0;
      marker, timestamp, rtpTimestamp := false, 0, cfg.firstTimestamp % 0x1_0000_0000;
      sent, input, ranges, pending := [], [], [], 0;
      new;
      NothingIsNotFull(cfg);
    }

    lemma HasRoom()
      requires Valid()
      ensures frameOffset + cfg.maxFrameSize <= payload.Length
      ensures pending <= |input|
    {
      hide Cut, IsSent;
      RoomForOneMore(cfg, input, ranges, pending);
      assert |payload[..frameOffset]| == frameOffset;
    }

    // One read goes into the payload behind the frames that wait there.
    method CodecRead(read: Bytes)
      requires frameOffset + |read| <= payload.Length
      modifies payload
      ensures payload[..frameOffset] == old(payload[..frameOffset])
      ensures payload[..frameOffset + |read|] == old(payload[..frameOffset]) + read
    {
      for i := 0 to |read|
        invariant payload[..frameOffset] == old(payload[..frameOffset])
        invariant payload[frameOffset..frameOffset + i] == read[..i]
      {
        payload[frameOffset + i] := read[i];
      }
      assert payload[..frameOffset + |read|] == payload[..frameOffset] + payload[frameOffset..frameOffset + |read|];
    }

    // The marker, timestamp and frame count after a read of length bytes.
    method Account(length: nat)
      requires Usable(cfg)
      modifies `silent, `marker, `frameCount, `timestamp, `frameOffset
      ensures silent <==> length == 0
      ensures marker == (old(marker) || (old(silent) && length > 0))
      ensures timestamp == if length == 0 || old(frameOffset) == 0 then rtpTimestamp else old(timestamp)
      ensures frameOffset == old(frameOffset) + length
      ensures length == 0 ==>
                frameCount == if !old(silent) && frameOffset > 0 then cfg.framesInPacket else old(frameCount)
      ensures forall read: Bytes :: |read| == length > 0 ==> frameCount == CountOne(cfg, old(frameCount), read)
    {
      if silent && length > 0 {
        silent := false;
        marker := true;
      } else if !silent && length == 0 {
        silent := true;
        if frameOffset > 0 {
          frameCount := cfg.framesInPacket;
        }
      }
      if length == 0 {
        timestamp := rtpTimestamp;
      } else {
        if frameOffset == 0 {
          timestamp := rtpTimestamp;
        }
        frameOffset := frameOffset + length;
        if cfg.g729 && length == 2 {
          frameCount := cfg.framesInPacket;
        } else {
          frameCount := frameCount + (length + cfg.maxFrameSize - 1) / cfg.maxFrameSize;
        }
      }
    }

    // Sends what the payload holds once it holds frames enough.
    method Flush()
      requires frameOffset <= payload.Length && payloadSize == 0
      modifies `payloadSize, `frameOffset, `frameCount, `marker, `sent
      ensures payloadSize == 0
      ensures if old(frameCount) >= cfg.framesInPacket then
                sent == old(sent) + [Packet(old(marker), timestamp, payload[..old(frameOffset)])] &&
                frameOffset == 0 && frameCount == 0 && !marker
              else
                sent == old(sent) && frameOffset == old(frameOffset) && frameCount == old(frameCount) &&
                marker == old(marker)
    {
      var sendPacket := false;
      if frameCount >= cfg.framesInPacket {
        payloadSize := frameOffset;
        frameOffset := 0;
        frameCount := 0;
        sendPacket := true;
      }
      if sendPacket || (silent && payloadSize > 0) {
        sent := sent + [Packet(marker, timestamp, payload[..payloadSize])];
        marker := false;
        payloadSize := 0;
        frameOffset := 0;
        frameCount := 0;
      }
    }

    // One turn of the loop.
    method Iterate(read: Bytes, muted: bool)
      requires Usable(cfg) && frameOffset + |read| <= payload.Length && payloadSize == 0
      modifies payload, `silent, `marker, `frameCount, `timestamp, `frameOffset, `payloadSize, `sent, `rtpTimestamp
      ensures frameOffset <= payload.Length && payloadSize == 0
      ensures Turn(cfg, old(State()), old(sent), if muted then [] else read, State(), sent)
    {
      hide CountOne;
      ghost var waiting, heard := payload[..frameOffset], if muted then [] else read;
      CodecRead(read);
      assert payload[..frameOffset] == waiting;
      Account(if muted then 0 else |read|);
      assert payload[..frameOffset] == waiting + heard;
      Flush();
      rtpTimestamp := (rtpTimestamp + cfg.frameRate) % 0x1_0000_0000;
    }

    // One turn cuts the reads into packets as CutNext says, and sends the packet that
    // this completes.
    method Transmit(read: Bytes, muted: bool)
      requires Valid() && |read| <= cfg.maxFrameSize
      modifies this, payload
      ensures Valid()
      ensures input == old(input) + [if muted then [] else read]
      ensures old(pending) <= |old(input)|
      ensures (ranges, pending) == CutNext(cfg, old(input), old(ranges), old(pending), input[|old(input)|])
    {
      hide Cut, IsSent, Follows, CutNext, Turn;
      ghost var t, packets, heard := State(), sent, if muted then [] else read;
      HasRoom();
      Iterate(read, muted);
      TurnFollowsCut(cfg, input, ranges, pending, t, packets, heard, State(), sent);
      ghost var next := CutNext(cfg, input, ranges, pending, heard);
      input, ranges, pending := input + [heard], next.0, next.1;
    }

    // Every packet sent took as many reads as it has frames, or fewer that end with a
    // descriptor or before silence, and holds their bytes; fewer than that wait.
    lemma PacketsTakeReads(k: nat)
      requires Valid() && k < |sent|
      ensures |ranges| == |sent| && TakesReads(cfg, input, ranges[k])
      ensures sent[k].payload == Concat(input[ranges[k].first..ranges[k].end])
      ensures pending <= |input| && |input| - pending < cfg.framesInPacket
    {
      hide Full, TakesReads;
      PacketRangeIff(cfg, input, ranges[k]);
      WaitingReads(cfg, input, ranges, pending);
    }

    // All bytes read and not muted were sent, or wait in the payload: once each and in order.
    lemma BytesAreSentOrWait()
      requires Valid()
      ensures Carried(sent) + payload[..frameOffset] == Concat(input)
    {
      hide Full, IsPacketRange;
      BytesAreConserved(cfg, input, ranges, pending);
      CarriedPayloads(cfg, input, ranges, sent);
    }
  }

  function Carried(sent: seq<Packet>): Bytes {
    if sent == [] then [] else Carried(sent[..|sent|-1]) + sent[|sent|-1].payload
  }

  lemma {:induction false} CarriedPayloads(cfg: Config, input: seq<Bytes>, ranges: seq<Range>, sent: seq<Packet>)
    requires Usable(cfg) && IsSent(cfg, input, ranges, sent)
    ensures forall r :: r in ranges ==> r.first <= r.end <= |input|
    ensures Carried(sent) == Payloads(input, ranges)
  {
    hide Stamp, Full, Concat;
    if sent != [] {
      CarriedPayloads(cfg, input, ranges[..|ranges|-1], sent[..|sent|-1]);
    }
  }
}
