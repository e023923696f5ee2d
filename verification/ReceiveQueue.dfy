// The receive queue of an RTP session: frames that came early wait under their 16-bit
// sequence number for the frames before them.
//
// These functions say what each method of the session does to its fields.  Whether the
// 250 ms for the oldest waiting frame are over is a parameter here.

module ReceiveQueue {
  import opened RingSlots

  type Word = n: nat | n < 0x1_0000 witness 0

  const RTP_VERSION := 2
  const MAX_PAYLOAD_TYPE := 127
  const MAX_OUT_OF_ORDER := 10

  datatype Option<T> = None | Some(value: T)

  datatype Frame = Frame(version: nat, payloadType: nat, syncSource: nat, number: Word, timestamp: nat,
                         payload: seq<bv8>)

  datatype Policy = Policy(jitter: bool, ignoreOtherSources: bool, ignoreOutOfOrder: bool)

  datatype Session = Session(queue: map<Word, Frame>, expected: Word, lastTimestamp: nat, received: nat,
                             syncSource: nat, lost: nat, outOfOrder: nat, consecutive: nat)

  datatype Status = Ignore | Process

  // ---------- Numbers modulo 2^16 ----------

  function Plus(w: Word, i: nat): Word
    requires i < 0x1_0000
  {
    if w + i < 0x1_0000 then w + i else w + i - 0x1_0000
  }

  function Next(w: Word): Word {
    Plus(w, 1)
  }

  function Prev(w: Word): Word {
    if w == 0 then 0xFFFF else w - 1
  }

  // How far k is ahead of e, going up and around.
  function Distance(e: Word, k: Word): Word {
    Ahead(e, 0x1_0000, k)
  }

  lemma PlusAhead(e: Word, k: Word)
    ensures Plus(e, Distance(e, k)) == k
    ensures forall i: nat :: i < 0x1_0000 ==> Distance(e, Plus(e, i)) == i
  {
  }

  // ---------- Searching the queue ----------

  // The key with the least distance ahead of e.
  predicate IsNearest<T>(queue: map<Word, T>, e: Word, k: Word) {
    k in queue && forall k' :: k' in queue ==> Distance(e, k) <= Distance(e, k')
  }

  function SearchFrom<T>(queue: map<Word, T>, e: Word, i: nat): (k: Word)
    requires i < 0x1_0000 && exists k :: k in queue && Distance(e, k) >= i
    requires forall k :: k in queue ==> Distance(e, k) >= i
    ensures IsNearest(queue, e, k)
    decreases 0x1_0000 - i
  {
    PlusAhead(e, Plus(e, i));
    if Plus(e, i) in queue then Plus(e, i)
    else
      assert forall k :: k in queue ==> Distance(e, k) != i by {
        forall k | k in queue ensures Distance(e, k) != i { PlusAhead(e, k); }
      }
      SearchFrom(queue, e, i + 1)
  }

  function Nearest<T>(queue: map<Word, T>, e: Word): (k: Word)
    requires queue != map[]
    ensures IsNearest(queue, e, k)
  {
    assert exists k :: k in queue && Distance(e, k) >= 0;
    SearchFrom(queue, e, 0)
  }

  lemma NearestIsUnique<T>(queue: map<Word, T>, e: Word, k: Word, k': Word)
    requires IsNearest(queue, e, k) && IsNearest(queue, e, k')
    ensures k == k'
  {
    PlusAhead(e, k);
    PlusAhead(e, k');
  }

  // ---------- The methods as functions ----------

  predicate KeysMatch(s: Session) {
    forall k :: k in s.queue ==> s.queue[k].number == k
  }

  function Without(s: Session, k: Word): Session {
    s.(queue := s.queue - {k})
  }

  function ReadRTPQueue(s: Session, timeout: bool): (Option<Frame>, Session) {
    if s.expected in s.queue then
      (Some(s.queue[s.expected]), Without(s, s.expected))
    else if s.queue != map[] && timeout then
      var k := Nearest(s.queue, s.expected);
      (Some(s.queue[k]), Without(s, k))
    else
      (None, s)
  }

  // A frame that need not wait: the expected one, or one older than the last.
  predicate Direct(s: Session, f: Frame) {
    f.number == s.expected || f.timestamp < s.lastTimestamp
  }

  function ProcessRTPQueue(s: Session, f: Frame, timeout: bool): (bool, Frame, Session) {
    if Direct(s, f) then
      (true, f, s)
    else
      var s' := s.(queue := s.queue[f.number := f]);
      if s'.expected in s'.queue then
        (true, s'.queue[s'.expected], Without(s', s'.expected))
      else if timeout then
        assert f.number in s'.queue;
        var k := Nearest(s'.queue, s'.expected);
        (true, s'.queue[k], Without(s', k))
      else
        (false, f.(number := Prev(s.expected)), s')
  }

  function Accept(s: Session): Session {
    s.(received := s.received + 1)
  }

  // OnReceiveData after the queue: counting by sequence number.
  function CheckNumber(p: Policy, s: Session, f: Frame): (Status, Session) {
    if f.number == s.expected then
      (Process, Accept(s.(lastTimestamp := f.timestamp, expected := Next(s.expected), consecutive := 0)))
    else if f.number < s.expected then
      var s' := s.(outOfOrder := s.outOfOrder + 1, consecutive := s.consecutive + 1,
                   expected := if s.consecutive + 1 > MAX_OUT_OF_ORDER then Next(f.number) else s.expected);
      if p.ignoreOutOfOrder then (Ignore, s') else (Process, Accept(s'))
    else
      (Process, Accept(s.(lost := s.lost + (f.number - s.expected), expected := Next(f.number), consecutive := 0)))
  }

  // The source of the session is the first one heard.
  function Heard(s: Session, f: Frame): Session {
    s.(syncSource := if s.syncSource == 0 then f.syncSource else s.syncSource)
  }

  predicate WellFormed(f: Frame) {
    f.version == RTP_VERSION && f.payloadType <= MAX_PAYLOAD_TYPE
  }

  predicate Foreign(p: Policy, s: Session, f: Frame) {
    p.ignoreOtherSources && f.syncSource != Heard(s, f).syncSource
  }

  function OnReceiveData(p: Policy, s: Session, f: Frame, timeout: bool): (Status, Frame, Session) {
    if !WellFormed(f) then
      (Ignore, f, s)
    else if s.received == 0 then
      (Process, f, Accept(Heard(s, f).(expected := Next(f.number), lastTimestamp := f.timestamp)))
    else if Foreign(p, s, f) then
      (Ignore, f, Heard(s, f))
    else
      var (ready, g, s') := if p.jitter then (true, f, Heard(s, f)) else ProcessRTPQueue(Heard(s, f), f, timeout);
      var (status, s'') := CheckNumber(p, s', g);
      (status, g, s'')
  }

  // One turn of the loop of ReadData: what it returns, if it returns.
  function ReadData(p: Policy, s: Session, queueTimeout: bool, arrival: Option<Frame>, timeout: bool)
    : (Option<Frame>, Session)
  {
    var (queued, s') := if p.jitter then (None, s) else ReadRTPQueue(s, queueTimeout);
    match queued
    case Some(f) =>
      var (status, g, s'') := OnReceiveData(p, s', f, timeout);
      (Some(g), s'')
    case None =>
      match arrival
      case None => (None, s)
      case Some(f) =>
        var (status, g, s'') := OnReceiveData(p, s, f, timeout);
        (if status == Process then Some(g) else None, s'')
  }

  // ---------- Conservation ----------

  // Reading the queue takes out the frame it returns, the nearest one, and no other.
  lemma ReadConserves(s: Session, timeout: bool)
    requires KeysMatch(s)
    ensures var (f, s') := ReadRTPQueue(s, timeout);
            && KeysMatch(s')
            && (f == None <==> s.queue == map[] || (s.expected !in s.queue && !timeout))
            && (f == None ==> s' == s)
            && (f != None ==> f.value.number !in s'.queue && s'.queue[f.value.number := f.value] == s.queue &&
                              IsNearest(s.queue, s.expected, f.value.number))
  {
    if s.expected in s.queue {
      assert IsNearest(s.queue, s.expected, s.expected);
    }
  }

  // A frame that need not wait passes.  Otherwise, it takes the place of a waiting frame
  // of its number, if there is one; and no frame is lost or kept twice: what is
  // returned, the nearest one, is taken out, and nothing else is.
  lemma ProcessConserves(s: Session, f: Frame, timeout: bool)
    requires KeysMatch(s)
    ensures var (ready, g, s') := ProcessRTPQueue(s, f, timeout);
            var all := s.queue[f.number := f];
            && KeysMatch(s')
            && (Direct(s, f) ==> ready && g == f && s' == s)
            && (!Direct(s, f) && ready ==>
                  g.number !in s'.queue && s'.queue[g.number := g] == all && IsNearest(all, s.expected, g.number))
            && (!Direct(s, f) && !ready ==> s'.queue == all && g.number == Prev(s.expected))
            && (ready <==> Direct(s, f) || s.expected in s.queue || timeout)
  {
    var all := s.queue[f.number := f];
    assert f.number in all;
    if s.expected in all {
      assert IsNearest(all, s.expected, s.expected);
    }
  }

  // ---------- One frame through OnReceiveData ----------

  // A frame of the session that OnReceiveData passes to the queue.
  predicate Checked(p: Policy, s: Session, f: Frame) {
    !p.jitter && s.received > 0 && WellFormed(f) && !Foreign(p, s, f)
  }

  predicate GoesToQueue(p: Policy, s: Session, f: Frame, timeout: bool) {
    Checked(p, s, f) && !Direct(s, f) && s.expected !in s.queue && !timeout
  }

  // OnReceiveData does not look at what ProcessRTPQueue returned, but counts the number
  // written into the frame.  So a frame put into the queue is also handed up at once,
  // to be handed up again later, exactly when number 0 is expected or late frames are
  // not ignored; and at 0 it counts 65535 frames as lost.
  lemma QueuedFrameHandedUpIff(p: Policy, s: Session, f: Frame)
    requires KeysMatch(s) && GoesToQueue(p, s, f, false)
    ensures var (status, g, s') := OnReceiveData(p, s, f, false);
            && s'.queue == s.queue[f.number := f] && s'.expected == s.expected && s'.lastTimestamp == s.lastTimestamp
            && g == f.(number := if s.expected == 0 then 0xFFFF else s.expected - 1)
            && (status == Process <==> s.expected == 0 || !p.ignoreOutOfOrder)
            && s'.lost == s.lost + (if s.expected == 0 then 0xFFFF else 0)
            && s'.received == s.received + (if status == Process then 1 else 0)
            && s'.outOfOrder == s.outOfOrder + (if s.expected == 0 then 0 else 1)
            && s'.syncSource == Heard(s, f).syncSource
  {
    ProcessConserves(Heard(s, f), f, false);
  }

  // The first frame of a session is handed up whatever it is numbered, and sets what is
  // expected: the number after its own, modulo 2^16, and nothing older than itself.
  lemma FirstFrameStarts(p: Policy, s: Session, f: Frame, timeout: bool)
    requires s.received == 0 && f.version == 2 && f.payloadType <= 127
    ensures var (status, g, s') := OnReceiveData(p, s, f, timeout);
            && status == Process && g == f && s'.received == 1
            && s'.expected == (f.number + 1) % 0x1_0000 && s'.lastTimestamp == f.timestamp
            && s'.syncSource == (if s.syncSource == 0 then f.syncSource else s.syncSource)
            && s'.queue == s.queue && s'.lost == s.lost && s'.outOfOrder == s.outOfOrder
            && s'.consecutive == s.consecutive
  {
  }

  // A frame of another version or of a control packet's type is refused and changes nothing,
  // and so is one of a source other than the first one heard, if those are to be ignored.
  lemma RefusedFrameChangesNothing(p: Policy, s: Session, f: Frame, timeout: bool)
    requires
      || f.version != 2 || f.payloadType > 127
      || (p.ignoreOtherSources && s.received > 0 && s.syncSource != 0 && f.syncSource != s.syncSource)
    ensures OnReceiveData(p, s, f, timeout) == (Ignore, f, s)
  {
  }

  // In a session with a jitter buffer nothing waits in the queue.
  lemma JitterBypassesQueue(p: Policy, s: Session, f: Frame, timeout: bool)
    requires p.jitter
    ensures var (status, g, s') := OnReceiveData(p, s, f, timeout); g == f && s'.queue == s.queue
    ensures var (g, s') := ReadData(p, s, timeout, None, timeout); g == None && s' == s
  {
  }

  // A frame older than the last one in sequence does not wait.  It is handed up, with those
  // before it counted as lost, if its number is greater as a plain number, and else it is late.
  lemma OldFrameDoesNotWait(p: Policy, s: Session, f: Frame, timeout: bool)
    requires Checked(p, s, f) && f.number != s.expected && f.timestamp < s.lastTimestamp
    ensures var (status, g, s') := OnReceiveData(p, s, f, timeout);
            && g == f && s'.queue == s.queue && s'.lastTimestamp == s.lastTimestamp
            && (status == Process <==> f.number > s.expected || !p.ignoreOutOfOrder)
            && s'.received == s.received + (if status == Process then 1 else 0)
            && (f.number > s.expected ==>
                  && s'.expected == (f.number + 1) % 0x1_0000 && s'.lost == s.lost + (f.number - s.expected)
                  && s'.outOfOrder == s.outOfOrder && s'.consecutive == 0)
            && (f.number < s.expected ==>
                  && s'.expected == (if s.consecutive >= 10 then (f.number + 1) % 0x1_0000 else s.expected)
                  && s'.lost == s.lost && s'.outOfOrder == s.outOfOrder + 1 && s'.consecutive == s.consecutive + 1)
  {
  }

  // The expected frame is handed up, and the next number expected.
  lemma ExpectedFrameIsNext(p: Policy, s: Session, f: Frame, timeout: bool)
    requires Checked(p, s, f) && f.number == s.expected
    ensures var (status, g, s') := OnReceiveData(p, s, f, timeout);
            status == Process && g == f && s'.queue == s.queue && s'.expected == Next(s.expected) &&
            s'.lastTimestamp == f.timestamp && s'.lost == s.lost && s'.received == s.received + 1 &&
            s'.consecutive == 0 && s'.outOfOrder == s.outOfOrder &&
            s'.syncSource == Heard(s, f).syncSource
  {
  }

  // A frame that the timeout lets through OnReceiveData with others missing before it is
  // handed up with those counted as lost exactly when its number is greater as a plain
  // number; past 65535 it is dropped, if late frames are ignored.
  lemma TimedOutFrameHandedUpIff(p: Policy, s: Session, f: Frame)
    requires KeysMatch(s) && Checked(p, s, f) && !Direct(s, f) && s.expected !in s.queue
    ensures var (status, g, s') := OnReceiveData(p, s, f, true);
            && g.number !in s'.queue && s'.queue[g.number := g] == s.queue[f.number := f]
            && IsNearest(s.queue[f.number := f], s.expected, g.number)
            && (status == Process <==> g.number > s.expected || !p.ignoreOutOfOrder)
            && (g.number > s.expected ==>
                  s'.expected == Next(g.number) && s'.lost == s.lost + Distance(s.expected, g.number))
            && (g.number < s.expected ==> s'.lost == s.lost && s'.outOfOrder == s.outOfOrder + 1)
            && s'.received == s.received + (if status == Process then 1 else 0)
            && s'.lastTimestamp == s.lastTimestamp
  {
    ProcessConserves(Heard(s, f), f, true);
  }

  // A frame that ReadData takes for the timeout passes the queue again: it stays queued,
  // while it is handed up under the number before the expected one, exactly when it is not
  // older than the last frame received and the frames left in the queue have not timed out.
  lemma TimedOutFrameStaysIff(p: Policy, s: Session, arrival: Option<Frame>, timeout: bool)
    requires KeysMatch(s) && s.queue != map[] && s.expected !in s.queue
    requires Checked(p, s, s.queue[Nearest(s.queue, s.expected)])
    ensures var k := Nearest(s.queue, s.expected);
            var f := s.queue[k];
            var (g, s') := ReadData(p, s, true, arrival, timeout);
            && (k in s'.queue <==> f.timestamp >= s.lastTimestamp && !timeout)
            && (k in s'.queue ==> g == Some(f.(number := Prev(s.expected))) && s'.queue == s.queue)
            && (k !in s'.queue ==> g == Some(f) && s'.queue == s.queue - {k})
  {
    var k := Nearest(s.queue, s.expected);
    var f := s.queue[k];
    var s1 := Without(s, k);
    ReadConserves(s, true);
    assert s1.queue[k := f] == s.queue;
    assert Heard(s1, f) == Without(Heard(s, f), k);
    ProcessConserves(Heard(s1, f), f, timeout);
    if timeout && f.timestamp >= s.lastTimestamp {
      var g := ProcessRTPQueue(Heard(s1, f), f, timeout).1;
      NearestIsUnique(s.queue, s.expected, k, g.number);
    }
  }

  // The frame that stayed comes again in the next turn that finds the timeout: under its own
  // number if by then the others have timed out, and else once more under the other one.
  lemma TimedOutFrameComesAgain(p: Policy, s: Session, arrival: Option<Frame>, arrival': Option<Frame>, timeout: bool)
    requires KeysMatch(s) && s.queue != map[] && s.expected !in s.queue
    requires var f := s.queue[Nearest(s.queue, s.expected)]; Checked(p, s, f) && f.timestamp >= s.lastTimestamp
    ensures var k := Nearest(s.queue, s.expected);
            var f := s.queue[k];
            var s' := ReadData(p, s, true, arrival, false).1;
            var (g, s'') := ReadData(p, s', true, arrival', timeout);
            && s'.expected == s.expected
            && g == Some(if timeout then f else f.(number := Prev(s.expected)))
            && s''.queue == (if timeout then s.queue - {k} else s.queue)
  {
    var k := Nearest(s.queue, s.expected);
    var f := s.queue[k];
    var s' := ReadData(p, s, true, arrival, false).1;
    ReadConserves(s, true);
    TimedOutFrameStaysIff(p, s, arrival, false);
    QueuedFrameHandedUpIff(p, Without(s, k), f);
    TimedOutFrameStaysIff(p, s', arrival', timeout);
  }
}
