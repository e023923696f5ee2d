// The receiving side of an RTP session, as the class keeps it.
//
// Times are in milliseconds.  The socket is not part of this model: a turn of the loop of
// ReadData is given the frame that arrived, if one did.

module ReceiveSession {
  import opened ReceiveQueue

  const QUEUE_TIMEOUT := 250

  // Some frame but that numbered except has waited longer than the timeout.
  predicate SomeWaitedLong(stamps: map<Word, int>, except: Word, now: int) {
    exists k :: k in stamps && k != except && now - stamps[k] > QUEUE_TIMEOUT
  }

  predicate IsOldest(stamps: map<Word, int>, now: int, oldest: int) {
    && oldest <= now && (forall k :: k in stamps ==> oldest <= stamps[k])
    && (oldest == now || exists k :: k in stamps && oldest == stamps[k])
  }

  lemma OldestWaited(stamps: map<Word, int>, number: Word, now: int, oldest: int)
    requires IsOldest(stamps[number := now], now, oldest)
    ensures now - oldest > QUEUE_TIMEOUT <==> SomeWaitedLong(stamps, number, now)
  {
    var stamps' := stamps[number := now];
    if now - oldest > QUEUE_TIMEOUT {
      var k :| k in stamps' && oldest == stamps'[k];
      assert k in stamps && k != number;
    } else {
      forall k | k in stamps && k != number
        ensures now - stamps[k] <= QUEUE_TIMEOUT
      {
        assert k in stamps' && stamps'[k] == stamps[k];
      }
    }
  }

  // The stamps of the frames that are still in the queue.
  function Kept(stamps: map<Word, int>, queue: map<Word, Frame>): map<Word, int> {
    map k | k in stamps && k in queue :: stamps[k]
  }

  // What a frame that ProcessRTPQueue is given does to the stamps and to lastWriteTime.
  predicate IsStamped(s: Session, f: Frame, now: int, stamps: map<Word, int>, last: int,
                      stamps': map<Word, int>, last': int, queue': map<Word, Frame>)
  {
    if Direct(s, f) then stamps' == stamps && last' == last
    else
      var all := stamps[f.number := now];
      stamps' == Kept(all, queue') && IsOldest(if s.expected in s.queue then stamps' else all, now, last')
  }

  class MCU_RTP_UDP {
    const policy: Policy
    var frameQueue: map<Word, Frame>
    // The local time stamp of each frame in the queue.
    var stamps: map<Word, int>
    var lastWriteTime: int
    var expectedSequenceNumber: Word
    var lastRcvdTimeStamp: nat
    var packetsReceived: nat
    var syncSourceIn: nat
    var packetsLost: nat
    var packetsOutOfOrder: nat
    var consecutiveOutOfOrderPackets: nat

    ghost function State(): Session
      reads this
    {
      Session(frameQueue, expectedSequenceNumber, lastRcvdTimeStamp, packetsReceived, syncSourceIn, packetsLost,
              packetsOutOfOrder, consecutiveOutOfOrderPackets)
    }

    // Queued frames are under their numbers, and lastWriteTime is no later than the
    // stamp of any.
    ghost predicate Valid()
      reads this
    {
      && KeysMatch(State()) && stamps.Keys == frameQueue.Keys
      && forall k :: k in stamps ==> lastWriteTime <= stamps[k]
    }

    constructor (policy: Policy, now: int)
      ensures Valid() && this.policy == policy && frameQueue == map[] && packetsReceived == 0
    {
      this.policy := policy;
      frameQueue, stamps, lastWriteTime := map[], map[], now;
      expectedSequenceNumber, lastRcvdTimeStamp, packetsReceived, syncSourceIn := 0, 0, 0, 0;
      packetsLost, packetsOutOfOrder, consecutiveOutOfOrderPackets := 0, 0, 0;
    }

    // The time of the oldest frame in the queue, or now.
    method SetLastTimeRTPQueue(now: int)
      modifies `lastWriteTime
      ensures IsOldest(stamps, now, lastWriteTime)
    {
      var oldTime, keys := now, stamps.Keys;
      while keys != {}
        invariant keys <= stamps.Keys && oldTime <= now
        invariant forall k :: k in stamps && k !in keys ==> oldTime <= stamps[k]
        invariant oldTime == now || exists k :: k in stamps && oldTime == stamps[k]
        decreases |keys|
      {
        var k :| k in keys;
        keys := keys - {k};
        if oldTime > stamps[k] {
          oldTime := stamps[k];
        }
      }
      lastWriteTime := oldTime;
    }

    // The search of the queue ends at the nearest key, if there is any key at all.
    method FindFirst() returns (k: Word)
      requires frameQueue != map[]
      ensures IsNearest(frameQueue, expectedSequenceNumber, k)
      ensures k == Nearest(frameQueue, expectedSequenceNumber)
    {
      var e := expectedSequenceNumber;
      ghost var nearest := Nearest(frameQueue, e);
      PlusAhead(e, nearest);
      var i: Word := 0;
      while Plus(e, i) !in frameQueue
        invariant i <= Distance(e, nearest)
        decreases Distance(e, nearest) - i
      {
        assert i != Distance(e, nearest);
        i := Next(i);
      }
      k := Plus(e, i);
      NearestIsUnique(frameQueue, e, k, nearest);
    }

    // Takes the frame out of the queue.
    method Take(k: Word) returns (frame: Frame)
      requires Valid() && k in frameQueue
      modifies `frameQueue, `stamps
      ensures Valid() && frame == old(frameQueue[k])
      ensures frameQueue == old(frameQueue) - {k} && stamps == old(stamps) - {k}
    {
      frame := frameQueue[k];
      frameQueue, stamps := frameQueue - {k}, stamps - {k};
    }

    method ReadRTPQueue(now: int) returns (frame: Option<Frame>)
      requires Valid()
      modifies `frameQueue, `stamps, `lastWriteTime
      ensures Valid()
      ensures (frame, State()) == ReceiveQueue.ReadRTPQueue(old(State()), now - old(lastWriteTime) > QUEUE_TIMEOUT)
      ensures stamps == Kept(old(stamps), frameQueue)
      ensures if frame != None && frame.value.number == expectedSequenceNumber then IsOldest(stamps, now, lastWriteTime)
              else lastWriteTime == old(lastWriteTime)
      // While nothing is returned, no frame has waited longer than 250 milliseconds.
      ensures frame == None ==> forall k :: k in stamps ==> now - stamps[k] <= 250
    {
      if |frameQueue| == 0 {
        return None;
      }
      if expectedSequenceNumber in frameQueue {
        var f := Take(expectedSequenceNumber);
        SetLastTimeRTPQueue(now);
        return Some(f);
      }
      if now - lastWriteTime > QUEUE_TIMEOUT {
        var k := FindFirst();
        var f := Take(k);
        return Some(f);
      }
      return None;
    }

    // Puts a frame into the queue, in place of one of its number.
    method Put(f: Frame, now: int)
      requires Valid()
      modifies `frameQueue, `stamps, `lastWriteTime
      ensures Valid()
      ensures frameQueue == old(frameQueue)[f.number := f] && stamps == old(stamps)[f.number := now]
      ensures IsOldest(stamps, now, lastWriteTime)
      ensures now - lastWriteTime > QUEUE_TIMEOUT <==> SomeWaitedLong(old(stamps), f.number, now)
    {
      hide IsOldest, SomeWaitedLong;
      if f.number in frameQueue {
        var duplicate := Take(f.number);
        SetLastTimeRTPQueue(now);
      }
      frameQueue, stamps := frameQueue[f.number := f], stamps[f.number := now];
      assert stamps == old(stamps)[f.number := now];
      SetLastTimeRTPQueue(now);
      OldestWaited(old(stamps), f.number, now, lastWriteTime);
    }

    method ProcessRTPQueue(f: Frame, now: int) returns (ready: bool, g: Frame)
      requires Valid()
      modifies `frameQueue, `stamps, `lastWriteTime
      ensures Valid()
      ensures (ready, g, State()) ==
              ReceiveQueue.ProcessRTPQueue(old(State()), f, SomeWaitedLong(old(stamps), f.number, now))
      ensures IsStamped(old(State()), f, now, old(stamps), old(lastWriteTime), stamps, lastWriteTime, frameQueue)
      // A frame that is not in sequence waits exactly while no other has waited longer than 250
      // milliseconds.
      ensures f.number != old(expectedSequenceNumber) && f.timestamp >= old(lastRcvdTimeStamp) &&
              old(expectedSequenceNumber) !in old(frameQueue) ==>
                (ready <==> exists k :: k in old(stamps) && k != f.number && now - old(stamps)[k] > 250)
    {
      if f.number == expectedSequenceNumber {
        return true, f;
      }
      if f.timestamp < lastRcvdTimeStamp {
        return true, f;
      }
      Put(f, now);
      if expectedSequenceNumber in frameQueue {
        g := Take(expectedSequenceNumber);
        SetLastTimeRTPQueue(now);
        return true, g;
      }
      if now - lastWriteTime > QUEUE_TIMEOUT {
        assert f.number in frameQueue;
        var k := FindFirst();
        g := Take(k);
        return true, g;
      }
      return false, f.(number := Prev(expectedSequenceNumber));
    }

    method OnReceiveData(f: Frame, now: int) returns (status: Status, g: Frame)
      requires Valid()
      modifies this
      ensures Valid()
      ensures (status, g, State()) ==
              ReceiveQueue.OnReceiveData(policy, old(State()), f, SomeWaitedLong(old(stamps), f.number, now))
      ensures if Checked(policy, old(State()), f) then
                IsStamped(old(State()), f, now, old(stamps), old(lastWriteTime), stamps, lastWriteTime, frameQueue)
              else
                stamps == old(stamps) && lastWriteTime == old(lastWriteTime)
    {
      if !WellFormed(f) {
        return Ignore, f;
      }
      if syncSourceIn == 0 {
        syncSourceIn := f.syncSource;
      }
      g := f;
      if packetsReceived == 0 {
        expectedSequenceNumber := Next(f.number);
        lastRcvdTimeStamp := f.timestamp;
      } else {
        if policy.ignoreOtherSources && f.syncSource != syncSourceIn {
          return Ignore, f;
        }
        if !policy.jitter {
          var ready;
          ready, g := ProcessRTPQueue(f, now);
        }
        status := CheckNumber(g);
        return;
      }
      packetsReceived := packetsReceived + 1;
      status := Process;
    }

    // Counts by the number of the frame.
    method CheckNumber(f: Frame) returns (status: Status)
      requires Valid()
      modifies `expectedSequenceNumber, `lastRcvdTimeStamp, `packetsReceived, `packetsLost, `packetsOutOfOrder,
               `consecutiveOutOfOrderPackets
      ensures Valid()
      ensures (status, State()) == ReceiveQueue.CheckNumber(policy, old(State()), f)
    {
      if f.number == expectedSequenceNumber {
        lastRcvdTimeStamp := f.timestamp;
        expectedSequenceNumber := Next(expectedSequenceNumber);
        consecutiveOutOfOrderPackets := 0;
      } else if f.number < expectedSequenceNumber {
        packetsOutOfOrder := packetsOutOfOrder + 1;
        consecutiveOutOfOrderPackets := consecutiveOutOfOrderPackets + 1;
        if consecutiveOutOfOrderPackets > MAX_OUT_OF_ORDER {
          expectedSequenceNumber := Next(f.number);
        }
        if policy.ignoreOutOfOrder {
          return Ignore;
        }
      } else {
        packetsLost := packetsLost + (f.number - expectedSequenceNumber);
        expectedSequenceNumber := Next(f.number);
        consecutiveOutOfOrderPackets := 0;
      }
      packetsReceived := packetsReceived + 1;
      status := Process;
    }

    // One turn of the loop of ReadData: the frame it returns, if it returns.
    method ReadData(now: int, arrival: Option<Frame>) returns (frame: Option<Frame>, ghost timeout: bool)
      requires Valid()
      modifies this
      ensures Valid()
      ensures var queueTimeout := now - old(lastWriteTime) > QUEUE_TIMEOUT;
              var queued := if policy.jitter then None else ReceiveQueue.ReadRTPQueue(old(State()), queueTimeout).0;
              && (frame, State()) == ReceiveQueue.ReadData(policy, old(State()), queueTimeout, arrival, timeout)
              && (queued.Some? ==> timeout == SomeWaitedLong(old(stamps), queued.value.number, now))
              && (queued.None? && arrival.Some? ==> timeout == SomeWaitedLong(old(stamps), arrival.value.number, now))
    {
      frame, timeout := None, false;
      if !policy.jitter {
        frame := ReadRTPQueue(now);
      }
      match frame
      case Some(f) =>
        ReadConserves(old(State()), now - old(lastWriteTime) > QUEUE_TIMEOUT);
        timeout := SomeWaitedLong(old(stamps), f.number, now);
        assert timeout == SomeWaitedLong(stamps, f.number, now);
        var status, g := OnReceiveData(f, now);
        frame := Some(g);
      case None =>
        match arrival
        case None =>
        case Some(f) =>
          timeout := SomeWaitedLong(old(stamps), f.number, now);
          assert stamps == old(stamps);
          var status, g := OnReceiveData(f, now);
          frame := if status == Process then Some(g) else None;
    }
  }
}
