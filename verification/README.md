# OpenMCU-ru: its stateful algorithms, modelled and proved in Dafny

OpenMCU-ru is a conference server.  Most of it joins libraries together; this project
models the algorithms in it that have state of their own, and proves what they keep
over every run:

- the outgoing packet cache (`CacheNumbering`, `CacheLocks`, `CacheRtp`, `CacheReaders`): one encoder
  puts RTP packets, many transmitters read them, each at its own number.  The cache is
  proved to hold exactly the tail of an append-only log although its units are used
  again in place, and readers are followed through every interleaving with the writer:
  they get every packet that is due to them in every run exactly if no locking walk of the
  log goes too far;
- the audio ring of a participant (`AudioTimeline`, `AudioClock`, `ConferenceAudio`,
  `AudioRuns`) and the built-in resampler (`AudioResampler`): what a reader gets is
  related to an unbounded timeline of what was written;
- the bit packing of G.726 (`G726Numerals`, `G726Packer`, `G726Unpacker`,
  `StreamedAudioCodec`), by section 4.5.4 of RFC 3551: packing is stated as the equality
  of two little-endian numerals, and packer and unpacker are proved against it;
- the audio packetizer of the transmit loop (`AudioPackets`, `TransmitPacketizer`), with
  the marker rule of section 4.1 of RFC 3551: how a packet stream cuts the talk is
  defined without the loop, proved to be unique, and the loop is proved to follow it;
- the receive queue of an RTP session (`ReceiveQueue`, `ReceiveRuns`, `ReceiveSession`);
- the ring of web events (`EventRing`), the limit on fast update requests
  (`FastUpdateLimiter`) and the adaptive silence detector (`SilenceDetector`).

`Arithmetic` and `RingSlots` hold facts that several of these share.

The parts of the source that change fields step by step are classes here, with the
source's fields and branches; ghost fields keep the history (`log`, `blocks`, `input`,
`times`, `window`), and the laws are lemmas over that history.  Times, socket input and
codec output are parameters.

`dafny verify dfyconfig.toml` checks the whole project.

## What the proofs found in the code

- A transmitter that sleeps in the second waiting loop of `GetFrame` until its number is
  recycled waits for ever (`CacheReaders.OversleptReaderIsStuck`); 32 frames of one packet
  are enough for that (`CacheReaders.ReaderMayOversleep`), and a reader whose number is not
  recycled is served (`CacheReaders.AwaitingReaderIsServedIff`).
- A reader that keeps up can miss a packet that the cache holds.  The locking walk of a put
  with the marker goes too far exactly if the block that falls behind was written to its
  last number (`CacheRtp.AfterWalkEarlyIff`), and then it locks the first packet of the next
  block, fewer than sixteen frames behind, for a reader that is due it
  (`CacheRtp.OverWalkRefuses`).  In every log without such a put all readers get what is due
  to them, and in every log with one some reader can miss a packet
  (`CacheReaders.ReadersStayGoodIff`); a frame of 256 packets and sixteen of one packet are
  enough (`CacheReaders.ReaderMayMiss`).
- The rule that frames are locked exactly when they are sixteen or more behind is broken by
  these puts, and by one without the marker at the last number of a block, as no walk is
  made then, and by no other (`CacheRtp.AfterWalkExactIff`, `CacheRtp.AfterStepExactIff`,
  and the logs of `CacheLocks.LocksBreakByWalk` and `CacheLocks.LocksBreakWithoutWalk`).
  Frames of at most 255 packets never break it (`CacheLocks.ShortFramesKeepLocks`).
- A write that re-synchronises the audio clock can land in what an accepted read is
  copying; the guards only keep clear of writes in sequence.  It does so exactly if the
  time index it jumps to falls, going around the ring, among the milliseconds that are
  read, or so near before them that the block reaches them
  (`AudioClock.NextWriteTearsIff`, `AudioClock.ResynchronisingWriteMayTear`).
- A packet that silence ends carries the timestamp of the silent read, not of its first
  sample (`AudioPackets.TimestampIff`).
- `OnReceiveData` does not look at what `ProcessRTPQueue` returned.  While number 0 is
  expected, a frame that is put into the queue is also handed up at once, under number
  65535, and 65535 frames are counted as lost (`ReceiveQueue.QueuedFrameHandedUpIff`);
  so frames that arrive out of order are put in order exactly if number 0 is not in
  their middle (`ReceiveRuns.BlockComesOutInOrder`,
  `ReceiveRuns.WrappingBlockMayComeOutOfOrder`).
- A frame that the 250 ms timeout lets out of the queue is put back into it when nothing
  else in the queue has timed out, and handed up under another number
  (`ReceiveQueue.TimedOutFrameStaysIff`); the next turn that finds the timeout hands it up
  again (`ReceiveQueue.TimedOutFrameComesAgain`).  Past 65535 it is dropped
  (`ReceiveQueue.TimedOutFrameHandedUpIff`).
- Unpacking the bytes of a frame can give up to three samples more than the frame has
  (`StreamedAudioCodec.FrameRoundTrip`); it never does exactly if the bits left over in the
  last byte are too few for one sample (`StreamedAudioCodec.DecodedFitsIff`).
- The test for the end of the event ring is off by one, which is harmless as reading
  behind the end of the array gives an empty string
  (`EventRing.OpenMCU.HttpStartEventReading`).
- The fast update limit lets up to one less than twice the limit through in one
  interval, and this is reached (`FastUpdateLimiter.SpanBoundIsReached`).
- The silence threshold can pass `VAlevel` (`SilenceDetector.ThresholdPassesLimitIff`),
  and right after a swap between talk and silence one single level swaps back
  (`SilenceDetector.NextAfterSwapSwapsBackIff`).

## Model

| member | source | states |
|---|---|---|
| CacheNumbering.NumIncreases | openmcu-ru/mcu_rtp_cache.h:126-140 | every put raises the writer's number, by one at least and one block at most |
| CacheNumbering.NumbersFit32Bits | openmcu-ru/mcu_rtp_cache.h:126-140 | runs of at most 0xFFFFDF puts do not reach the 32-bit limit of the numbers |
| CacheNumbering.WrittenAfterPut | openmcu-ru/mcu_rtp_cache.h:120-140 | a put writes exactly the number the writer stood at, and moves it on by the marker |
| CacheNumbering.BlockIsPrefix | openmcu-ru/mcu_rtp_cache.h:126-140 | the numbers written of a block of 0x100 are a prefix of it |
| CacheNumbering.JumpMissesNothing | openmcu-ru/mcu_rtp_cache.h:106-110 | from a number that was not written, a jump to the next block passes no written number |
| CacheNumbering.BlockStartWritten | openmcu-ru/mcu_rtp_cache.h:126-129 | the start of every block up to the writer was written |
| CacheNumbering.ShortFramesIff | openmcu-ru/mcu_rtp_cache.h:126-140 | frames have at most 255 packets if and only if no packet gets the last number of a block |
| CacheNumbering.BlockStartsAreFrameStarts | openmcu-ru/mcu_rtp_cache.h:126-129 | with such frames a packet is at a block start if and only if the packet before it ended a frame |
| CacheNumbering.TailMoves | openmcu-ru/mcu_rtp_cache.h:106-116 | moving lastN over a missing number to the next block, or by one over a recycled one, drops nothing else |
| CacheNumbering.TailAfterLaw | openmcu-ru/mcu_rtp_cache.h:105-116 | a put moves lastN forward only, and to no nearer than 0x1F00 behind the writer |
| CacheNumbering.MissesIff | openmcu-ru/mcu_rtp_cache.h:149-157 | with exact locks a reader misses packets if and only if the one due to it is 16 frames or more behind |
| CacheNumbering.IframeIsWritten | openmcu-ru/mcu_rtp_cache.h:121-125 | the I-frame number is that of a packet put, or still zero |
| CacheNumbering.IframeLaw | openmcu-ru/mcu_rtp_cache.h:121-125 | the number remembered is that of the last I-frame to remember, each of which is more than a block start past the block of all before it; or zero if no I-frame was put |
| CacheNumbering.LastIframeIff | openmcu-ru/mcu_rtp_cache.h:167-168 | a packet has the number remembered if and only if it is the last such I-frame |
| CacheLocks.ShortFramesKeepLocks | openmcu-ru/mcu_rtp_cache.h:126-140 | with frames of at most 255 packets no put breaks the locks |
| CacheLocks.LocksBreakWithoutWalk | openmcu-ru/mcu_rtp_cache.h:139-140 | a frame of 4096 packets breaks them as the next packet is put, by no walk being made |
| CacheLocks.LocksBreakByWalk | openmcu-ru/mcu_rtp_cache.h:129-138 | a frame of 256 packets and fifteen of one break them at the next marker, by the walk going too far |
| CacheRtp.AfterWalkEarlyIff | openmcu-ru/mcu_rtp_cache.h:126-138 | over a put with the marker nothing comes to be locked that is fewer than 16 frames behind, if and only if the block that falls behind was not written to its last number |
| CacheRtp.AfterWalkExactIff | openmcu-ru/mcu_rtp_cache.h:126-138 | over such a put the locks stay exact (locked if and only if 16 frames or more behind) under the same condition |
| CacheRtp.AfterStepEarly | openmcu-ru/mcu_rtp_cache.h:139-140 | over a put without it nothing comes to be locked early |
| CacheRtp.AfterStepExactIff | openmcu-ru/mcu_rtp_cache.h:139-140 | over such a put the locks stay exact if and only if it is not at the last number of a block, or the block that falls behind is before the first that was ever written |
| CacheRtp.PutLaw | openmcu-ru/mcu_rtp_cache.h:100-141 | whatever the frames, a put keeps the map the tail of the log and locks earlier blocks only; nothing is locked early as long as no walk went too far, and the locks are exact as long as no put broke them |
| CacheRtp.WalkStaysInFrameIff | openmcu-ru/mcu_rtp_cache.h:129-138 | the locking walk stays in its own block if and only if that is not full with the next one begun |
| CacheRtp.SkipStaysBehind | openmcu-ru/mcu_rtp_cache.h:149-157 | a reader that skips a missing or locked number comes to a block start that is not past the writer |
| CacheRtp.ComesMay | openmcu-ru/mcu_rtp_cache.h:143-157 | what an attempt comes to, by the log alone: it waits for nothing but the number the next put writes, and serves an entry that is not before the reader; the one due to it, while no walk went too far, unless that is 16 frames behind; with exact locks one that the log determines |
| CacheRtp.ServingHandsOut | openmcu-ru/mcu_rtp_cache.h:162-169 | a reader is handed the packet put and its length, the last-frame flag if and only if it has the marker, the I-frame flag if and only if it is the last I-frame to remember |
| CacheRtp.KeepsUpIff | openmcu-ru/mcu_rtp_cache.h:143-157 | readers whose next packet is fewer than 16 frames behind come to it, all of them in every attempt, if and only if nothing is locked early |
| CacheRtp.OverWalkRefuses | openmcu-ru/mcu_rtp_cache.h:126-157 | after a put whose walk goes too far the first packet of the next block is held and fewer than 16 frames behind, and an attempt to read it comes to something else |
| CacheRtp.CacheRTP.constructor | openmcu-ru/mcu_rtp_cache.h:38-47 | an empty cache is valid for the empty log |
| CacheRtp.CacheRTP.PutFrame | openmcu-ru/mcu_rtp_cache.h:100-141 | the map holds exactly the log's packets from lastN on, one unit per number; no early and exact locks stay so if and only if this put does not break them; lastN comes to where TailAfter says, at least 0x1F00 behind; the unit at the tail is used again, with exact locks only if it was locked; at most 0x2000 entries |
| CacheRtp.CacheRTP.Recycle | openmcu-ru/mcu_rtp_cache.h:105-116 | the unit for a packet is the one at the tail, or a new one; nothing else leaves the map |
| CacheRtp.CacheRTP.LockFrame | openmcu-ru/mcu_rtp_cache.h:130-138 | the walk ends, and locks exactly the numbers up to the first one missing |
| CacheRtp.CacheRTP.GetFrame | openmcu-ru/mcu_rtp_cache.h:143-170 | whatever the frames: it serves the first open slot of its number and the block starts after it, or waits for nothing but the number the next put writes; what it serves has the packet, length and flags of one entry; its number does not pass seqN; which entry it is, ComesMay says |
| CacheRtp.CacheRTP.Skip | openmcu-ru/mcu_rtp_cache.h:149-157 | the skipping loop ends, at the first open slot on its way or at the writer |
| CacheRtp.CacheRTP.PollFrame | openmcu-ru/mcu_rtp_cache.h:158-170 | a waiting reader is served the entry of its number, with its length and flags, as soon as that is written and not yet recycled |
| CacheRtp.CacheRTP.GetLastFrameNum | openmcu-ru/mcu_rtp_cache.h:92-98 | a reader that attaches starts at the last packet put |
| CacheRtp.CacheRTP.GetFastUpdate | openmcu-ru/mcu_rtp_cache.h:81-90 | an I-frame is asked for once for any number of requests, and only if the last is more than ten blocks old |
| CacheReaders.AttachedIsGood | openmcu-ru/mcu_rtp_cache.cxx:141-151 | a reader that attaches is due the last packet put |
| CacheReaders.CacheIsKept | openmcu-ru/mcu_rtp_cache.h:100-170 | in every interleaving the slots hold the tail of the log under the law of the locks |
| CacheReaders.ReadersStaySteady | openmcu-ru/mcu_rtp_cache.h:100-170 | in every interleaving, whatever the frames: no reader's number passes seqN, it waits only for a number of the log or the next one, gets packets in order, each at most once and with its length and flags, and skips only to block starts |
| CacheReaders.PutKeepsGood | openmcu-ru/mcu_rtp_cache.h:100-141 | a put keeps what every reader is promised |
| CacheReaders.TryKeepsGood | openmcu-ru/mcu_rtp_cache.h:143-169 | so does an attempt to read, while no walk went too far |
| CacheReaders.PollKeepsGood | openmcu-ru/mcu_rtp_cache.h:158-169 | so does a round of the second waiting loop |
| CacheReaders.ReadersStayGood | openmcu-ru/mcu_rtp_cache.h:100-170 | in every interleaving in which no walk went too far, a reader gets the packet after its last one, unless that was 16 frames behind as it asked: only then it may go on later, from a block start |
| CacheReaders.ReadersStayGoodIff | openmcu-ru/mcu_rtp_cache.h:100-170 | the readers of a log are served so in every run if and only if none of its walks goes too far |
| CacheReaders.ReaderMisses | openmcu-ru/mcu_rtp_cache.h:100-157 | every log with a walk that goes too far has a run in which a reader that is never 16 frames behind misses a packet |
| CacheReaders.ReaderMayMiss | openmcu-ru/mcu_rtp_cache.h:100-157 | a frame of 256 packets and sixteen of one packet make such a log |
| CacheReaders.ReadersSkipIffLate | openmcu-ru/mcu_rtp_cache.h:100-170 | in every interleaving in which no put broke the locks, a reader goes on later if and only if the packet due to it was 16 frames behind |
| CacheReaders.LateReadersGoOnAtFrameStart | openmcu-ru/mcu_rtp_cache.h:100-170 | and with frames of at most 255 packets it goes on with the first packet of a frame |
| CacheReaders.NoGapWhileKeepingUp | openmcu-ru/mcu_rtp_cache.h:143-170 | in any stretch in which a reader was never 16 frames behind it gets every packet with its length and flags, if no walk went too far |
| CacheReaders.ResumesAtBlockStart | openmcu-ru/mcu_rtp_cache.h:149-157 | with exact locks a reader that fell behind goes on at offset 0 of the oldest block that is not locked; with short frames that is a frame start |
| CacheReaders.WaitsForNextPut | openmcu-ru/mcu_rtp_cache.h:145-162 | the number a reader waits for is the one the next put writes, and that put serves it |
| CacheReaders.AwaitingReaderIsServedIff | openmcu-ru/mcu_rtp_cache.h:158-162 | over every run a reader that waits is served, now or after the next put, if and only if lastN has not passed its number |
| CacheReaders.ReaderMayOversleep | openmcu-ru/mcu_rtp_cache.h:105-162 | a run in which a reader attaches, waits, and 32 puts recycle its number |
| CacheReaders.OversleptReaderIsStuck | openmcu-ru/mcu_rtp_cache.h:158-162 | a reader whose number is recycled while it waits is never served again |
| G726Numerals.DigitsUnique | openmcu-ru/mcu_codecs.cxx:275-532 | a numeral determines the codes or bytes of one length |
| G726Numerals.PackingIsUnique | openmcu-ru/mcu_codecs.cxx:275-416 | the packing of a frame leaves no choice of bytes |
| G726Numerals.UnpackAfterPack | openmcu-ru/mcu_codecs.cxx:275-532 | unpacking what was packed gives the codes back, followed only by zero codes |
| G726Numerals.PackAfterUnpackIff | openmcu-ru/mcu_codecs.cxx:275-532 | packing what was unpacked gives the bytes back if and only if the bits that make no code are zero |
| G726Numerals.PackAfterUnpackGroups | openmcu-ru/mcu_codecs.cxx:285-383 | whole groups of bytes are given back always |
| G726Packer.PackStep | openmcu-ru/mcu_codecs.cxx:288-330 | placing one more code keeps the numeral of the bytes equal to that of the codes |
| G726Packer.Encode5 | openmcu-ru/mcu_codecs.cxx:285-331 | codes of 5 bits are packed, whatever the buffer held, into exactly their bytes |
| G726Packer.Encode4 | openmcu-ru/mcu_codecs.cxx:332-340 | codes of 4 bits are packed |
| G726Packer.Encode3 | openmcu-ru/mcu_codecs.cxx:341-384 | codes of 3 bits are packed |
| G726Packer.Encode2 | openmcu-ru/mcu_codecs.cxx:385-409 | codes of 2 bits are packed |
| G726Packer.Encode8 | openmcu-ru/mcu_codecs.cxx:281-284 | codes of 8 bits are packed |
| G726Unpacker.UnpackStep | openmcu-ru/mcu_codecs.cxx:435-522 | taking the codes of one more byte keeps the numerals equal, bits left over included |
| G726Unpacker.Take5Takes | openmcu-ru/mcu_codecs.cxx:437-473 | each position of the 5-bit decoder takes the codes its byte completes |
| G726Unpacker.Take3Takes | openmcu-ru/mcu_codecs.cxx:485-511 | each position of the 3-bit decoder takes the codes its byte completes |
| G726Unpacker.Decode5 | openmcu-ru/mcu_codecs.cxx:435-474 | bytes are unpacked into every whole code of 5 bits |
| G726Unpacker.Decode4 | openmcu-ru/mcu_codecs.cxx:475-482 | into every code of 4 bits |
| G726Unpacker.Decode3 | openmcu-ru/mcu_codecs.cxx:483-512 | into every whole code of 3 bits |
| G726Unpacker.Decode2 | openmcu-ru/mcu_codecs.cxx:513-523 | into every code of 2 bits |
| G726Unpacker.Decode8 | openmcu-ru/mcu_codecs.cxx:429-433 | into every code of 8 bits |
| StreamedAudioCodec.MCUStreamedAudioCodec.constructor | openmcu-ru/mcu_codecs.cxx:265-271 | a frame takes as many bytes as its bits fill |
| StreamedAudioCodec.MCUStreamedAudioCodec.EncodeFrame | openmcu-ru/mcu_codecs.cxx:275-416 | a frame is packed for the widths 2, 3, 4, 5 and 8 and refused for others; no byte behind it is touched |
| StreamedAudioCodec.MCUStreamedAudioCodec.DecodeFrame | openmcu-ru/mcu_codecs.cxx:420-532 | bytes are unpacked for these widths, with the count of bytes decoded; no more samples than a frame has come of the bytes of one, if the bits left over in them are too few for one |
| StreamedAudioCodec.DecodedFitsIff | openmcu-ru/mcu_codecs.cxx:265-532 | of at most the bytes of a frame no more samples are decoded than a frame has, always, if and only if the bits left over are too few for one sample more |
| StreamedAudioCodec.FrameRoundTrip | openmcu-ru/mcu_codecs.cxx:275-532 | a frame comes back with at most three zero codes more, and none if its bits fill whole bytes |
| AudioTimeline.RingIsLatest | openmcu-ru/conference.cxx:2052-2062 | a ring slot holds the newest sample written for a time whole turns away, or silence |
| AudioTimeline.RingIsExact | openmcu-ru/conference.cxx:2086-2122 | it is exactly the sample of its time, if no more than one turn was written since |
| AudioClock.Resynchronised | openmcu-ru/conference.cxx:2027-2034 | a re-synchronisation moves the clock forward by two milliseconds or more |
| AudioClock.ClockLaw | openmcu-ru/conference.cxx:2012-2065 | over every run the clock never goes back, blocks do not overlap, and the clock is at most the lag behind the source |
| AudioClock.WriteLands | openmcu-ru/conference.cxx:2022-2034 | the first write puts the clock exactly at its timestamp, one that jumps less than a millisecond from it, and any other moves it by its frame time |
| AudioClock.WriteKeepsTime | openmcu-ru/conference.cxx:2022-2065 | the clock of a source whose blocks do not overlap is never ahead of it, at most 2 ms behind, and gains and loses nothing while it has no gap |
| AudioClock.ReadAcceptedIff | openmcu-ru/conference.cxx:2075-2102 | on the timestamps: a read is accepted if and only if what it is of, which ends the greatest frame time and 2 ms before the time asked for, is inside what was written, and begins at most 440 ms before its end |
| AudioClock.NoTearingIff | openmcu-ru/conference.cxx:2090-2102 | the guard holds if and only if no write in sequence can touch a slot the read copies |
| AudioClock.TearsIff | openmcu-ru/conference.cxx:2052-2120 | which writes at or after the end of a read have a slot in common with it, around the ring |
| AudioClock.NextWriteTearsIff | openmcu-ru/conference.cxx:2027-2034 | the next write tears an accepted read if and only if it re-synchronises and the time index it jumps to falls there |
| AudioClock.ResynchronisingWriteMayTear | openmcu-ru/conference.cxx:2027-2034 | there are such writes |
| AudioClock.AcceptedReadIsExact | openmcu-ru/conference.cxx:2086-2122 | an accepted read of what was written without a gap is exact, over the end of the ring as well |
| AudioResampler.SourceInBounds | openmcu-ru/conference.cxx:2311-2337 | for all rates and channels every index is inside the source block |
| AudioResampler.UpAndDown | openmcu-ru/conference.cxx:2311-2337 | up by a whole factor, to as many or more channels, and back gives the block back |
| AudioResampler.NearestEarlier | openmcu-ru/conference.cxx:2311-2337 | for all rates and channels: a sample is of the last source frame to begin no later than it, and of the channel that the source channels dealt out in turn come to |
| AudioResampler.InternalResample | openmcu-ru/conference.cxx:2311-2337 | each of the three loops takes every sample from its source index |
| ConferenceAudio.AudioBuffer.constructor | openmcu-ru/conference.cxx:2146-2155 | a new ring is silent |
| ConferenceAudio.AudioBuffer.Write | openmcu-ru/conference.cxx:2052-2062 | writing a block, in one copy or two, makes the ring that of the longer timeline |
| ConferenceAudio.AudioBuffer.Read | openmcu-ru/conference.cxx:2110-2120 | reading, in one copy or two, gives the slots of the times asked for |
| ConferenceAudio.Limited | openmcu-ru/conference.cxx:2134-2137 | no 16-bit value is nearer to the sum |
| ConferenceAudio.Mix | openmcu-ru/conference.cxx:2127-2142 | each sample is the sum, limited to 16 bits |
| ConferenceAudio.KeyDeterminesFormat | openmcu-ru/conference.cxx:1983-1986 | rate plus channel count tells formats apart |
| ConferenceAudio.ResampledFormats | openmcu-ru/conference.cxx:13-24 | blocks are stored for the five mono formats and 48000 Hz stereo, and for no other |
| ConferenceAudio.Resample | openmcu-ru/conference.cxx:2251-2307 | the same format is copied, others are resampled |
| ConferenceAudio.ConferenceAudioConnection.GetBuffer | openmcu-ru/conference.cxx:1980-2003 | the ring of a format is found, or one silent ring is added |
| ConferenceAudio.ConferenceAudioConnection.WriteAudio | openmcu-ru/conference.cxx:2007-2066 | an accepted write moves the clock as its law says and stores the block, resampled, at that time in every ring that has a resampler; others change nothing |
| ConferenceAudio.ConferenceAudioConnection.ReadAudio | openmcu-ru/conference.cxx:2070-2123 | an accepted read mixes in the samples of its time, by ReaderHearsItsTime, and a refused one changes nothing |
| AudioRuns.WriteExtendsRun | openmcu-ru/conference.cxx:2037-2065 | what WriteAudio stores extends the run of the ring by that write |
| AudioRuns.BlocksAreOrdered | openmcu-ru/conference.cxx:2037-2065 | over every run blocks are in time order and end at the clock |
| AudioRuns.SolidSince | openmcu-ru/conference.cxx:2027-2065 | without a jump the ring is written without a gap |
| AudioRuns.ReadIsExact | openmcu-ru/conference.cxx:2075-2122 | over every run, an accepted read that begins no earlier than a write since which nothing jumped gets exactly what was written for its time |
| AudioRuns.ReadIsExactWithoutJump | openmcu-ru/conference.cxx:2099-2122 | in particular an accepted read does, if no write jumped in the last 440 ms |
| AudioRuns.ReadIsLatest | openmcu-ru/conference.cxx:2086-2122 | over every run, a read gets the newest sample written for a time whole turns away, or silence |
| AudioRuns.ReaderHearsItsTime | openmcu-ru/conference.cxx:2070-2123 | every sample of an accepted read is one the source stamped with the time that ends the greatest frame time and 2 ms before the time asked for, or at most 2 ms later; exactly with it while the source has no gap |
| AudioRuns.ReaderInStepIsHeard | openmcu-ru/conference.cxx:2070-2102 | over every run a reader in step with the source is not refused once 138 ms were written |
| AudioPackets.CutStaysCut | openmcu-ru/mcu_rtp.cxx:522-609 | one more read keeps the talk cut into packets as it is to be cut |
| AudioPackets.CutIsUnique | openmcu-ru/mcu_rtp.cxx:522-609 | the reads determine the packets and what waits |
| AudioPackets.BytesAreConserved | openmcu-ru/mcu_rtp.cxx:543-609 | every byte accepted is sent or waits, once and in order |
| AudioPackets.PayloadFits | openmcu-ru/mcu_rtp.cxx:425-446 | no payload is longer than the frames of a packet, nor empty |
| AudioPackets.MarkerIff | openmcu-ru/mcu_rtp.cxx:526-541 | a packet has the marker if and only if silence comes before it |
| AudioPackets.BurstBeginsPacket | openmcu-ru/mcu_rtp.cxx:526-541 | every talk burst begins a packet |
| AudioPackets.TimestampIff | openmcu-ru/mcu_rtp.cxx:544-552 | a packet has the time of its first read if and only if it was sent for being full |
| AudioPackets.PacketRangeIff | openmcu-ru/mcu_rtp.cxx:554-581 | a packet takes exactly as many reads of a frame as it has frames, but that a G.729 silence descriptor is its last read, and it ends before a silent read with fewer |
| AudioPackets.PacketTime | openmcu-ru/mcu_rtp.cxx:544-552 | its timestamp is the time of its first read if it has all its frames or ends with a descriptor, and else that of the silent read after it |
| TransmitPacketizer.MCU_RTPChannel.constructor | openmcu-ru/mcu_rtp.cxx:437-446 | before the first read nothing was sent and nothing waits |
| TransmitPacketizer.MCU_RTPChannel.CodecRead | openmcu-ru/mcu_rtp.cxx:479-482 | a read goes behind what waits in the payload, and fits |
| TransmitPacketizer.MCU_RTPChannel.Account | openmcu-ru/mcu_rtp.cxx:522-569 | what a read does to marker, timestamp and frame count |
| TransmitPacketizer.MCU_RTPChannel.Flush | openmcu-ru/mcu_rtp.cxx:571-609 | a packet is sent exactly if frames enough wait; the second reason to send never decides |
| TransmitPacketizer.TurnFollowsCut | openmcu-ru/mcu_rtp.cxx:512-615 | one turn of the loop sends exactly the packet that the read completes, and keeps the rest |
| TransmitPacketizer.MCU_RTPChannel.Transmit | openmcu-ru/mcu_rtp.cxx:461-636 | over every run what was sent is how the reads are cut |
| TransmitPacketizer.MCU_RTPChannel.BytesAreSentOrWait | openmcu-ru/mcu_rtp.cxx:522-609 | the payloads sent and what waits are all bytes read, in order |
| TransmitPacketizer.MCU_RTPChannel.PacketsTakeReads | openmcu-ru/mcu_rtp.cxx:554-609 | over every run each packet sent took as many reads as PacketRangeIff says and holds their bytes, and fewer than a packet takes wait |
| ReceiveQueue.Nearest | openmcu-ru/mcu_rtp.cxx:984 | the circular search finds the key of least distance from the expected number modulo 2^16 |
| ReceiveQueue.NearestIsUnique | openmcu-ru/mcu_rtp.cxx:984 | there is only one such key |
| ReceiveQueue.FirstFrameStarts | openmcu-ru/mcu_rtp.cxx:1145-1149 | the first frame of a session is handed up, and sets the number after its own, modulo 2^16, as the one expected, and its timestamp as the last |
| ReceiveQueue.RefusedFrameChangesNothing | openmcu-ru/mcu_rtp.cxx:1131-1173 | frames of another version, of a control packet type, or of another source, if those are ignored, change nothing |
| ReceiveQueue.JitterBypassesQueue | openmcu-ru/mcu_rtp.cxx:1062-1176 | with a jitter buffer nothing waits in the queue |
| ReceiveQueue.OldFrameDoesNotWait | openmcu-ru/mcu_rtp.cxx:997-1232 | a frame older than the last in sequence does not wait: with a greater number it is handed up and the gap counted as lost, else it is late |
| ReceiveQueue.ReadConserves | openmcu-ru/mcu_rtp.cxx:965-993 | reading takes out the frame it returns and no other |
| ReceiveQueue.ProcessConserves | openmcu-ru/mcu_rtp.cxx:997-1054 | no frame is lost or kept twice but one replaced by another of its number; when a frame is returned, and which |
| ReceiveQueue.QueuedFrameHandedUpIff | openmcu-ru/mcu_rtp.cxx:1168-1232 | a frame put into the queue is handed up as well if and only if number 0 is expected or late frames are not ignored |
| ReceiveQueue.ExpectedFrameIsNext | openmcu-ru/mcu_rtp.cxx:1174-1178 | the expected frame is handed up and the next number expected |
| ReceiveQueue.TimedOutFrameHandedUpIff | openmcu-ru/mcu_rtp.cxx:1042-1050 | a frame let through for the timeout is handed up if and only if its number is greater as a plain number |
| ReceiveQueue.TimedOutFrameStaysIff | openmcu-ru/mcu_rtp.cxx:1062-1066 | a queued frame taken for the timeout stays queued, and is handed up under another number, if and only if it is not older than the last one received and the others have not timed out; otherwise it is handed up as it is |
| ReceiveQueue.TimedOutFrameComesAgain | openmcu-ru/mcu_rtp.cxx:1058-1106 | a frame that stayed is handed up again by the next turn that finds the timeout, and leaves the queue when the others have timed out |
| ReceiveRuns.QueuedRunComesOutInOrder | openmcu-ru/mcu_rtp.cxx:1062-1066 | a queued run from the expected number on comes out in order, also from 65535 on to 0 |
| ReceiveRuns.BlockComesOutInOrder | openmcu-ru/mcu_rtp.cxx:1058-1178 | consecutive frames in any order of arrival are handed up in order, each once, none counted as lost, and nothing stays queued, if number 0 is not inside |
| ReceiveRuns.NewSessionPutsInOrder | openmcu-ru/mcu_rtp.cxx:1058-1178 | so are the first frame of a new session and the frames numbered on from it |
| ReceiveRuns.OlderThanFirstDoesNotWait | openmcu-ru/mcu_rtp.cxx:997-1149 | a frame older than the first one does not wait |
| ReceiveRuns.WrappingBlockMayComeOutOfOrder | openmcu-ru/mcu_rtp.cxx:1168-1232 | if it is, there is an order of arrival in which they are not |
| ReceiveRuns.EleventhLateFrameRebases | openmcu-ru/mcu_rtp.cxx:1212-1232 | ten late frames in turn change nothing but what is counted, and the eleventh makes the number after its own the one expected |
| ReceiveSession.MCU_RTP_UDP.SetLastTimeRTPQueue | openmcu-ru/mcu_rtp.cxx:938-950 | lastWriteTime is that of the oldest frame in the queue, or now |
| ReceiveSession.MCU_RTP_UDP.FindFirst | openmcu-ru/mcu_rtp.cxx:984 | the search loop ends on every queue that is not empty, at the nearest key |
| ReceiveSession.MCU_RTP_UDP.ReadRTPQueue | openmcu-ru/mcu_rtp.cxx:965-993 | refines ReceiveQueue.ReadRTPQueue; lastWriteTime is the oldest waiting frame's again unless a timeout was used; when it returns nothing, no frame has waited more than 250 ms |
| ReceiveSession.MCU_RTP_UDP.ProcessRTPQueue | openmcu-ru/mcu_rtp.cxx:997-1054 | refines ReceiveQueue.ProcessRTPQueue: the timeout is over exactly if some other frame has waited more than 250 ms |
| ReceiveSession.MCU_RTP_UDP.OnReceiveData | openmcu-ru/mcu_rtp.cxx:1129-1237 | refines ReceiveQueue.OnReceiveData; frames it refuses before the queue leave stamps and lastWriteTime as they are |
| ReceiveSession.MCU_RTP_UDP.ReadData | openmcu-ru/mcu_rtp.cxx:1058-1106 | one turn of its loop refines ReceiveQueue.ReadData, on which the laws of whole runs are proved |
| EventRing.RoomEventShownIff | openmcu-ru/mcu.h:421-443 | an event for a room is shown to the readers of that room and of all rooms, as it was written, and to no other |
| EventRing.ShownToAllIff | openmcu-ru/mcu.h:440-443 | an event is shown to every reader as it was written if and only if it has no tab |
| EventRing.CommandsAreNotReplayed | openmcu-ru/mcu.h:427-458 | commands are not shown to a page that starts |
| EventRing.EventIsShownIff | openmcu-ru/mcu.h:421-463 | an event to all rooms or to one is shown as it was written to those it is for, and so it is to a page that starts, if and only if the script tag is not in it |
| EventRing.EventsAreShown | openmcu-ru/mcu.h:437-463 | several events are shown as their texts, the oldest first |
| EventRing.WriteKeepsRing | openmcu-ru/mcu.h:409-414 | a write makes the ring that of the longer log |
| EventRing.CursorIsBehind | openmcu-ru/mcu.h:437-448 | a cursor is behind by the number of writes since its poll, modulo the size |
| EventRing.PollShowsNewIff | openmcu-ru/mcu.h:437-448 | a poll shows exactly the events since the last if and only if they are fewer than the ring has slots |
| EventRing.OpenMCU.HttpWrite_ | openmcu-ru/mcu.h:409-414 | the event is appended to the log that the ring holds |
| EventRing.OpenMCU.HttpGetEvents | openmcu-ru/mcu.h:437-448 | shows the texts of the events since the poll before, the oldest first, if they are fewer than the slots, and leaves the cursor at the write index |
| EventRing.OpenMCU.HttpStartEventReading | openmcu-ru/mcu.h:449-463 | shows the texts of the last httpBuffer-1 events but for commands, the oldest first, and leaves the cursor at the write index |
| FastUpdateLimiter.WindowCountsSinceBegin | openmcu-ru/h323.cxx:2658-2674 | the count is the number of requests since the window began |
| FastUpdateLimiter.WindowAcceptsToLimit | openmcu-ru/h323.cxx:2658-2679 | a window accepts its first requests up to the limit and no more |
| FastUpdateLimiter.AcceptedAfterPause | openmcu-ru/h323.cxx:2660-2674 | after a pause of one interval a request is accepted |
| FastUpdateLimiter.SpanAcceptsAtMost | openmcu-ru/h323.cxx:2658-2679 | over every history any span of one interval has fewer than twice the limit accepted, or twice for a party that is early |
| FastUpdateLimiter.SpanBoundIsReached | openmcu-ru/h323.cxx:2658-2679 | and that many there can be, for every limit and interval |
| FastUpdateLimiter.MCUH323Connection.CheckVFU | openmcu-ru/h323.cxx:2645-2680 | accepts by the window after the request, everything with a limit or an interval of zero, and nothing with both; warns exactly when a window with too many is closed |
| SilenceDetector.LeastAndGreatest | openmcu-ru/conference.cxx:1715-1722 | what is counted as least signal and greatest silence is that of the window |
| SilenceDetector.DetectKeepsValid | openmcu-ru/conference.cxx:1691-1769 | the threshold, once set, stays in 1 to 255; in each window signal levels are above it and silent ones are not |
| SilenceDetector.ThresholdLaw | openmcu-ru/conference.cxx:1727-1769 | how a window moves the threshold, by its levels |
| SilenceDetector.WindowMovesThreshold | openmcu-ru/conference.cxx:1727-1769 | seven signal levels raise it by a quarter of what the least is over it, five or six by one, seven silent ones bring it just past the middle to the greatest, and no other window moves it |
| SilenceDetector.ThresholdPassesLimitIff | openmcu-ru/conference.cxx:1759-1764 | the threshold passes VAlevel if and only if it is there and a window has five or six signal levels |
| SilenceDetector.SwapsAtSecondAgainst | openmcu-ru/conference.cxx:1694-1701 | the state swaps exactly at a second level in turn against it |
| SilenceDetector.NextAfterSwapSwapsBackIff | openmcu-ru/conference.cxx:1694-1701 | the level after a swap swaps back if and only if it is against the new state |
| SilenceDetector.FirstLoudLevelIsThreshold | openmcu-ru/conference.cxx:1703-1711 | a new member is silent without a threshold until the first level above 1, which becomes the threshold, but no more than VAlevel |
| SilenceDetector.LeadInSettles | openmcu-ru/conference.cxx:1694-1769 | from any state at most nine silent levels end the talk burst and the window |
| SilenceDetector.SilenceLowersThreshold | openmcu-ru/conference.cxx:1745-1757 | from any state, after that, with each silent window of greatest level s what the threshold has over s + 2 is halved, and it stays above s |
| SilenceDetector.EightSilentWindows | openmcu-ru/conference.cxx:1745-1757 | eight such windows bring any threshold to s + 1 or s + 2 |
| SilenceDetector.ConferenceMember.DetectSilence | openmcu-ru/conference.cxx:1685-1773 | the fields follow the detector of the lemmas, level by level |

## Left out

- CacheNumbering.NumbersFit32Bits: numbers are unbounded in the model; runs beyond this bound, where the 32-bit numbers of the source wrap around, are not covered.
- CacheReaders.ReadersStayGood: puts, attempts and rounds of waiting are atomic steps; races in memory between the encoder's and a transmitter's thread are not modelled.
- CacheReaders.AttachedIsGood: the list of caches by name, and the lock for its use, are not part of this model; the user count goes up and down by one.
- G726Packer.Encode5: the source picks what to do by the position of the code in its group; the model states each position as a function and writes its result in place.
- ConferenceAudio.ConferenceAudioConnection.WriteAudio: rates are whole thousands, blocks whole milliseconds, and no block is longer than its timestamp; wrap-around of the 32-bit timeIndex is not modelled.
- ConferenceAudio.ConferenceAudioConnection.ReadAudio: the data is at least one millisecond, as Mix runs on past its buffers when it is given nothing to mix.
- AudioClock.WriteKeepsTime: the source's timestamps are whole milliseconds, begin after 0 and its blocks do not overlap; WriteLands, ClockLaw and the laws of the ring are for all.
- ConferenceAudio.Resample: the build with the built-in resampler only; libswresample, libavresample and libsamplerate are not part of this model.
- TransmitPacketizer.MCU_RTPChannel.Transmit: audio with the codec read and no filters, reads no longer than a frame and at least one frame in a packet (for G.722 the source divides that number by ten); sending always succeeds; video and the cache modes are not modelled here.
- ReceiveSession.MCU_RTP_UDP.ReadData: the socket, control packets and shutdown are left out; a turn of the loop is given the frame that arrived.
- ReceiveSession.MCU_RTP_UDP.OnReceiveData: jitter statistics and receiver reports are left out, and the counters do not wrap around.
- ReceiveRuns.BlockComesOutInOrder: while no frame waits for the 250 ms of the timeout.
- FastUpdateLimiter.MCUH323Connection.CheckVFU: the setting is a value that does not change, and times are milliseconds.
- SilenceDetector.ConferenceMember.DetectSilence: the conversion to a logarithmic level is left out; VAlevel is at least 1.
- The recorder, the video mixer, gain control in floating point, signalling (H.323, SIP, RTSP), SRTP and the web pages are not modelled.
- Encode and Decode of the plugin codecs are not modelled: codes of the given width come in and go out.
- AudioBuffer rings count 16-bit samples, where the source counts bytes, two for a sample.
