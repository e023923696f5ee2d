// Runs of ReadData: a queued run of numbers comes out in order, and a block of frames
// that arrives in any order is put in order.

module ReceiveRuns {
  import opened ReceiveQueue

  datatype Turn = Turn(queueTimeout: bool, arrival: Option<Frame>, timeout: bool)

  predicate OneSource(p: Policy, s: Session, f: Frame) {
    WellFormed(f) && (p.ignoreOtherSources ==> f.syncSource == s.syncSource)
  }

  // ---------- A queued run ----------

  // The frames that as many turns of ReadData return.
  function Read(p: Policy, s: Session, turns: seq<Turn>): (seq<Frame>, Session)
    decreases |turns|
  {
    if turns == [] then ([], s)
    else
      var (f, s') := ReadData(p, s, turns[0].queueTimeout, turns[0].arrival, turns[0].timeout);
      var (fs, s'') := Read(p, s', turns[1..]);
      ((if f == None then [] else [f.value]) + fs, s'')
  }

  function Numbers(e: Word, n: nat): set<Word>
    requires n <= 0x1_0000
  {
    set i | 0 <= i < n :: Plus(e, i)
  }

  lemma ExpectedIsServed(p: Policy, s: Session, turn: Turn)
    requires !p.jitter && s.received > 0 && s.expected in s.queue && KeysMatch(s)
    requires OneSource(p, s, s.queue[s.expected])
    ensures var (f, s') := ReadData(p, s, turn.queueTimeout, turn.arrival, turn.timeout);
            f == Some(s.queue[s.expected]) && s'.queue == s.queue - {s.expected} && s'.expected == Next(s.expected) &&
            s'.lastTimestamp == s.queue[s.expected].timestamp && s'.received > 0 && s'.lost == s.lost &&
            (p.ignoreOtherSources ==> s'.syncSource == s.syncSource)
  {
    ExpectedFrameIsNext(p, Without(s, s.expected), s.queue[s.expected], turn.timeout);
  }

  lemma ExpectedArrives(p: Policy, s: Session, f: Frame)
    requires !p.jitter && s.received > 0 && f.number == s.expected && f.number !in s.queue && OneSource(p, s, f)
    ensures var (g, s') := ReadData(p, s, false, Some(f), false);
            g == Some(f) && s'.queue == s.queue && s'.expected == Next(s.expected) && s'.lastTimestamp == f.timestamp &&
            s'.lost == s.lost && s'.received > 0 && (p.ignoreOtherSources ==> s'.syncSource == s.syncSource)
  {
    ExpectedFrameIsNext(p, s, f, false);
  }

  lemma EarlyArrives(p: Policy, s: Session, f: Frame)
    requires !p.jitter && s.received > 0 && KeysMatch(s) && OneSource(p, s, f) && s.expected !in s.queue
    requires f.number != s.expected && s.expected != 0 && f.timestamp >= s.lastTimestamp && p.ignoreOutOfOrder
    ensures var (g, s') := ReadData(p, s, false, Some(f), false);
            g == None && s'.queue == s.queue[f.number := f] && s'.expected == s.expected &&
            s'.lastTimestamp == s.lastTimestamp && s'.lost == s.lost && s'.received > 0 &&
            (p.ignoreOtherSources ==> s'.syncSource == s.syncSource)
  {
    QueuedFrameHandedUpIff(p, s, f);
  }

  // The queue holds n frames from the expected number on.
  predicate HoldsRun(p: Policy, s: Session, n: nat)
    requires n <= 0x1_0000
  {
    && !p.jitter && s.received > 0 && KeysMatch(s)
    && forall i :: 0 <= i < n ==> Plus(s.expected, i) in s.queue && OneSource(p, s, s.queue[Plus(s.expected, i)])
  }

  // The n frames were returned, in order, and nothing else was done.
  predicate RunIsRead(s: Session, n: nat, fs: seq<Frame>, s': Session)
    requires n <= 0x1_0000
  {
    && |fs| == n
    && (forall i :: 0 <= i < n ==> Plus(s.expected, i) in s.queue && fs[i] == s.queue[Plus(s.expected, i)])
    && s'.queue == s.queue - Numbers(s.expected, n)
    && s'.expected == (if n < 0x1_0000 then Plus(s.expected, n) else s.expected)
    && s'.lost == s.lost
  }

  // A queued run that starts at the expected number comes out in order, whatever
  // arrives or times out meanwhile, and also where it goes from 65535 on to 0.
  lemma {:induction false} QueuedRunComesOutInOrder(p: Policy, s: Session, turns: seq<Turn>)
    requires |turns| <= 0x1_0000 && HoldsRun(p, s, |turns|)
    ensures RunIsRead(s, |turns|, Read(p, s, turns).0, Read(p, s, turns).1)
    decreases |turns|
  {
    hide HoldsRun, RunIsRead, ReadData;
    if turns == [] {
      NoRunIsRead(s);
    } else {
      FirstOfRun(p, s, |turns|, turns[0]);
      var s1 := ReadData(p, s, turns[0].queueTimeout, turns[0].arrival, turns[0].timeout).1;
      QueuedRunComesOutInOrder(p, s1, turns[1..]);
      RestOfRun(s, |turns|, s1, Read(p, s1, turns[1..]).0, Read(p, s1, turns[1..]).1);
    }
  }

  lemma NoRunIsRead(s: Session)
    ensures RunIsRead(s, 0, [], s)
  {
    assert Numbers(s.expected, 0) == {};
  }

  lemma FirstOfRun(p: Policy, s: Session, n: nat, turn: Turn)
    requires 0 < n <= 0x1_0000 && HoldsRun(p, s, n)
    ensures s.expected in s.queue
    ensures var (f, s1) := ReadData(p, s, turn.queueTimeout, turn.arrival, turn.timeout);
            && f == Some(s.queue[s.expected]) && s1.queue == s.queue - {s.expected}
            && s1.expected == Next(s.expected) && s1.lost == s.lost
            && HoldsRun(p, s1, n - 1)
  {
    PlusNext(s.expected, n);
    ExpectedIsServed(p, s, turn);
    hide ReadData, Plus;
  }

  lemma RestOfRun(s: Session, n: nat, s1: Session, fs: seq<Frame>, s': Session)
    requires 0 < n <= 0x1_0000 && s.expected in s.queue
    requires s1.queue == s.queue - {s.expected} && s1.expected == Next(s.expected) && s1.lost == s.lost
    requires RunIsRead(s1, n - 1, fs, s')
    ensures RunIsRead(s, n, [s.queue[s.expected]] + fs, s')
  {
    hide Plus, Numbers;
    PlusNext(s.expected, n);
    NumbersNext(s.expected, n);
  }

  lemma PlusNext(e: Word, n: nat)
    requires 0 < n <= 0x1_0000
    ensures Plus(e, 0) == e
    ensures forall i: nat :: 0 < i < n ==> Plus(e, i) == Plus(Next(e), i - 1) && Plus(e, i) != e
    ensures forall i: nat :: i < n - 1 ==> Plus(Next(e), i) == Plus(e, i + 1) && Plus(e, i + 1) != e
    ensures n < 0x1_0000 ==> Plus(Next(e), n - 1) == Plus(e, n)
    ensures n == 0x1_0000 ==> Plus(Next(e), n - 1) == e
  {
  }

  lemma NumbersNext(e: Word, n: nat)
    requires 0 < n <= 0x1_0000
    ensures Numbers(e, n) == {e} + Numbers(Next(e), n - 1)
  {
    PlusNext(e, n);
    forall k | k in Numbers(e, n)
      ensures k in {e} + Numbers(Next(e), n - 1)
    {
      var i: nat :| i < n && Plus(e, i) == k;
      if i > 0 {
        assert k == Plus(Next(e), i - 1);
      }
    }
  }

  // ---------- A block that arrives in any order ----------

  // Frames still to arrive, by index into the block, and frames that ReadData returned.
  datatype Reading = Reading(session: Session, arrivals: seq<nat>, delivered: seq<Frame>)

  predicate Within(arrivals: seq<nat>, n: nat) {
    forall i :: 0 <= i < |arrivals| ==> arrivals[i] < n
  }

  // One turn of ReadData with no timeout.
  function Step(p: Policy, frames: seq<Frame>, r: Reading): Reading
    requires Within(r.arrivals, |frames|)
  {
    var served := !p.jitter && r.session.expected in r.session.queue;
    var arrives := !served && r.arrivals != [];
    var (f, s') := ReadData(p, r.session, false, if arrives then Some(frames[r.arrivals[0]]) else None, false);
    Reading(s', if arrives then r.arrivals[1..] else r.arrivals, r.delivered + if f == None then [] else [f.value])
  }

  function After(p: Policy, frames: seq<Frame>, r: Reading, turns: nat): (r': Reading)
    requires Within(r.arrivals, |frames|)
    ensures Within(r'.arrivals, |frames|)
  {
    if turns == 0 then r else Step(p, frames, After(p, frames, r, turns - 1))
  }

  // Consecutive numbers from the one expected on, of one source, timestamps in order.
  predicate IsBlock(p: Policy, s: Session, frames: seq<Frame>) {
    && |frames| <= 0x1_0000
    && (forall i :: 0 <= i < |frames| ==> frames[i].number == Plus(s.expected, i) && OneSource(p, s, frames[i]))
    && (forall i :: 0 <= i < |frames| ==> s.lastTimestamp <= frames[i].timestamp)
    && (forall i, j :: 0 <= i < j < |frames| ==> frames[i].timestamp <= frames[j].timestamp)
  }

  predicate Distinct(order: seq<nat>) {
    forall i, j :: 0 <= i < j < |order| ==> order[i] != order[j]
  }

  // All of the frames, each once, in any order.
  ghost predicate IsOrder(order: seq<nat>, n: nat) {
    |order| == n && Distinct(order) && forall i: nat :: i in order <==> i < n
  }

  predicate Starts(p: Policy, s: Session) {
    !p.jitter && p.ignoreOutOfOrder && s.received > 0 && s.queue == map[]
  }

  // Number 0 is in the block and is not its last.
  predicate WrapsInside(frames: seq<Frame>) {
    exists i :: 0 <= i < |frames| - 1 && frames[i].number == 0
  }

  predicate IsNumbered(frames: seq<Frame>, e: Word) {
    && |frames| <= 0x1_0000
    && (forall i: nat :: i < |frames| ==> frames[i].number == Plus(e, i))
    && (forall i: nat, j: nat :: i < j < |frames| ==> frames[i].timestamp <= frames[j].timestamp)
  }

  // The queue holds frames of the block from d on, under their numbers.
  predicate Held(frames: seq<Frame>, queue: map<Word, Frame>, e: Word, d: nat) {
    forall k :: k in queue ==> d <= Distance(e, k) < |frames| && queue[k] == frames[Distance(e, k)]
  }

  // Each frame from d on is to arrive once, or it is in the queue.
  predicate Parted(arrivals: seq<nat>, queue: map<Word, Frame>, e: Word, d: nat, n: nat) {
    && Distinct(arrivals) && n <= 0x1_0000
    && (forall i :: 0 <= i < |arrivals| ==> d <= arrivals[i] < n && Plus(e, arrivals[i]) !in queue)
    && (forall i: nat :: d <= i < n ==> i in arrivals || Plus(e, i) in queue)
  }

  // What the session makes of the frames from d on.
  predicate Awaits(p: Policy, s: Session, frames: seq<Frame>, e: Word, d: nat) {
    && !p.jitter && s.received > 0
    && d <= |frames| <= 0x1_0000 && (d < |frames| ==> s.expected == Plus(e, d))
    && (forall i: nat :: d <= i < |frames| ==> OneSource(p, s, frames[i]) && s.lastTimestamp <= frames[i].timestamp)
  }

  // The first d frames are handed up in order; the others wait or have not arrived.
  predicate Sorted(p: Policy, frames: seq<Frame>, r: Reading, e: Word) {
    var d := |r.delivered|;
    && Awaits(p, r.session, frames, e, d) && r.delivered == frames[..d]
    && Held(frames, r.session.queue, e, d)
    && Parted(r.arrivals, r.session.queue, e, d, |frames|)
  }

  // ---------- The parts of Sorted, one turn on ----------

  lemma HeldKeysMatch(frames: seq<Frame>, s: Session, e: Word, d: nat)
    requires IsNumbered(frames, e) && Held(frames, s.queue, e, d)
    ensures KeysMatch(s)
    ensures forall i: nat :: i < |frames| && Plus(e, i) in s.queue ==> s.queue[Plus(e, i)] == frames[i]
  {
    PlusAhead(e, 0);
    forall k | k in s.queue
      ensures s.queue[k].number == k
    {
      PlusAhead(e, k);
    }
  }

  lemma FrameServed(frames: seq<Frame>, queue: map<Word, Frame>, e: Word, d: nat, arrivals: seq<nat>)
    requires Held(frames, queue, e, d) && Parted(arrivals, queue, e, d, |frames|) && d < |frames|
    requires Plus(e, d) in queue
    ensures Held(frames, queue - {Plus(e, d)}, e, d + 1)
    ensures Parted(arrivals, queue - {Plus(e, d)}, e, d + 1, |frames|)
  {
    forall k | k in queue
      ensures k != Plus(e, d) ==> Distance(e, k) != d
    {
      PlusAhead(e, k);
    }
    PlusAhead(e, 0);
    assert forall i: nat :: i < |frames| && i != d ==> Plus(e, i) != Plus(e, d);
  }

  lemma FrameArrives(frames: seq<Frame>, queue: map<Word, Frame>, e: Word, d: nat, arrivals: seq<nat>)
    requires Held(frames, queue, e, d) && Parted(arrivals, queue, e, d, |frames|) && d < |frames|
    requires arrivals != [] && arrivals[0] == d
    ensures Held(frames, queue, e, d + 1)
    ensures Parted(arrivals[1..], queue, e, d + 1, |frames|)
  {
    forall k | k in queue
      ensures Distance(e, k) != d
    {
      PlusAhead(e, k);
    }
    assert arrivals == [arrivals[0]] + arrivals[1..];
  }

  // A frame arrives early.
  lemma EarlyFrame(frames: seq<Frame>, queue: map<Word, Frame>, e: Word, d: nat, arrivals: seq<nat>)
    requires Held(frames, queue, e, d) && Parted(arrivals, queue, e, d, |frames|) && arrivals != []
    ensures var i := arrivals[0];
            Held(frames, queue[Plus(e, i) := frames[i]], e, d) &&
            Parted(arrivals[1..], queue[Plus(e, i) := frames[i]], e, d, |frames|)
  {
    var i := arrivals[0];
    PlusAhead(e, 0);
    assert arrivals == [i] + arrivals[1..];
    assert forall j: nat :: j < |frames| && j != i ==> Plus(e, i) != Plus(e, j);
  }

  lemma SomethingLeft(frames: seq<Frame>, queue: map<Word, Frame>, e: Word, d: nat, arrivals: seq<nat>)
    requires Held(frames, queue, e, d) && Parted(arrivals, queue, e, d, |frames|)
    ensures queue != map[] || arrivals != [] ==> d < |frames|
    ensures d < |frames| && Plus(e, d) !in queue ==> arrivals != []
  {
    if arrivals != [] {
      assert d <= arrivals[0] < |frames|;
    }
    if queue != map[] {
      var k :| k in queue;
      assert d <= Distance(e, k) < |frames|;
    }
  }

  lemma SortedFacts(p: Policy, frames: seq<Frame>, r: Reading, e: Word)
    requires IsNumbered(frames, e) && Sorted(p, frames, r, e)
    ensures Within(r.arrivals, |frames|) && KeysMatch(r.session) && |r.delivered| <= |frames| <= 0x1_0000
    ensures forall i: nat :: i < |frames| && Plus(e, i) in r.session.queue ==> r.session.queue[Plus(e, i)] == frames[i]
    ensures |r.delivered| == |frames| ==> r.session.queue == map[] && r.arrivals == []
    ensures |r.delivered| < |frames| && Plus(e, |r.delivered|) !in r.session.queue ==> r.arrivals != []
  {
    HeldKeysMatch(frames, r.session, e, |r.delivered|);
    SomethingLeft(frames, r.session.queue, e, |r.delivered|, r.arrivals);
  }

  // ---------- One turn ----------

  lemma ServedStaysSorted(p: Policy, frames: seq<Frame>, r: Reading, e: Word)
    requires IsNumbered(frames, e) && Sorted(p, frames, r, e) && Within(r.arrivals, |frames|)
    requires |r.delivered| < |frames| && r.session.expected in r.session.queue
    ensures var r' := Step(p, frames, r);
            Sorted(p, frames, r', e) && |r'.delivered| == |r.delivered| + 1 && r'.arrivals == r.arrivals &&
            r'.session.lost == r.session.lost
  {
    hide ReadData, Plus, Held, Parted;
    var d, s := |r.delivered|, r.session;
    SortedFacts(p, frames, r, e);
    ExpectedIsServed(p, s, Turn(false, None, false));
    FrameServed(frames, s.queue, e, d, r.arrivals);
    NextPlus(e, d);
    OneMore(frames, d);
  }

  lemma OneMore(frames: seq<Frame>, d: nat)
    requires d < |frames|
    ensures frames[..d + 1] == frames[..d] + [frames[d]]
  {
  }

  lemma NextPlus(e: Word, d: nat)
    requires d < 0x1_0000
    ensures d + 1 < 0x1_0000 ==> Plus(e, d + 1) == Next(Plus(e, d))
  {
  }

  lemma ArrivalStaysSorted(p: Policy, frames: seq<Frame>, r: Reading, e: Word)
    requires IsNumbered(frames, e) && Sorted(p, frames, r, e) && Within(r.arrivals, |frames|)
    requires r.arrivals != [] && r.arrivals[0] == |r.delivered|
    requires r.session.expected !in r.session.queue
    ensures var r' := Step(p, frames, r);
            Sorted(p, frames, r', e) && |r'.delivered| == |r.delivered| + 1 && r'.arrivals == r.arrivals[1..] &&
            r'.session.queue == r.session.queue && r'.session.lost == r.session.lost
  {
    var d, s := |r.delivered|, r.session;
    SortedFacts(p, frames, r, e);
    ExpectedArrives(p, s, frames[d]);
    hide ReadData, Plus, Held, Parted;
    FrameArrives(frames, s.queue, e, d, r.arrivals);
    NextPlus(e, d);
    OneMore(frames, d);
  }

  lemma EarlyStaysSorted(p: Policy, frames: seq<Frame>, r: Reading, e: Word)
    requires IsNumbered(frames, e) && Sorted(p, frames, r, e) && Within(r.arrivals, |frames|)
    requires r.arrivals != [] && r.arrivals[0] != |r.delivered|
    requires r.session.expected !in r.session.queue && r.session.expected != 0 && p.ignoreOutOfOrder
    ensures var r' := Step(p, frames, r);
            Sorted(p, frames, r', e) && r'.delivered == r.delivered && r'.arrivals == r.arrivals[1..] &&
            r'.session.lost == r.session.lost
  {
    hide ReadData, Held, Parted;
    var d, s := |r.delivered|, r.session;
    var i := r.arrivals[0];
    SortedFacts(p, frames, r, e);
    FirstArrival(r.arrivals, s.queue, e, d, |frames|);
    EarlyFrame(frames, s.queue, e, d, r.arrivals);
    PlusAhead(e, 0);
    assert frames[i].number != frames[d].number;
    EarlyArrives(p, s, frames[i]);
  }

  lemma FirstArrival(arrivals: seq<nat>, queue: map<Word, Frame>, e: Word, d: nat, n: nat)
    requires Parted(arrivals, queue, e, d, n) && arrivals != []
    ensures d <= arrivals[0] < n
  {
  }

  lemma StepStaysSorted(p: Policy, frames: seq<Frame>, r: Reading, e: Word)
    requires IsNumbered(frames, e) && Sorted(p, frames, r, e) && p.ignoreOutOfOrder && !WrapsInside(frames)
    ensures Within(r.arrivals, |frames|)
    ensures var r' := Step(p, frames, r);
            Sorted(p, frames, r', e) && r'.session.lost == r.session.lost &&
            if |r.delivered| < |frames| then |r'.arrivals| - |r'.delivered| < |r.arrivals| - |r.delivered|
            else r' == r
  {
    var d, s := |r.delivered|, r.session;
    SortedFacts(p, frames, r, e);
    if d < |frames| {
      if s.expected in s.queue {
        ServedStaysSorted(p, frames, r, e);
      } else if r.arrivals[0] == d {
        ArrivalStaysSorted(p, frames, r, e);
      } else {
        assert d < r.arrivals[0] < |frames| && frames[d].number == s.expected;
        EarlyStaysSorted(p, frames, r, e);
      }
    }
  }

  lemma {:induction false} AfterTurns(p: Policy, frames: seq<Frame>, r: Reading, e: Word, turns: nat)
    requires IsNumbered(frames, e) && Sorted(p, frames, r, e) && p.ignoreOutOfOrder && !WrapsInside(frames)
    ensures Within(r.arrivals, |frames|)
    ensures var r' := After(p, frames, r, turns);
            Sorted(p, frames, r', e) && r'.session.lost == r.session.lost &&
            (|r'.delivered| == |frames| || |r'.arrivals| - |r'.delivered| + turns <= |r.arrivals| - |r.delivered|)
  {
    hide Sorted, Step, WrapsInside;
    if turns == 0 {
      SortedFacts(p, frames, r, e);
    } else {
      AfterTurns(p, frames, r, e, turns - 1);
      SortedFacts(p, frames, After(p, frames, r, turns - 1), e);
      StepStaysSorted(p, frames, After(p, frames, r, turns - 1), e);
    }
  }

  // ---------- The block is put in order ----------

  // However the frames of a block arrive, ReadData hands them up in order; and after two
  // turns for each all are handed up.  No frame is handed up twice or left in the queue.
  lemma BlockComesOutInOrder(p: Policy, s: Session, frames: seq<Frame>, order: seq<nat>, turns: nat)
    requires Starts(p, s) && IsBlock(p, s, frames) && !WrapsInside(frames) && IsOrder(order, |frames|)
    ensures Within(order, |frames|)
    ensures var r := After(p, frames, Reading(s, order, []), turns);
            && r.delivered <= frames && r.session.lost == s.lost
            && (turns >= 2 * |frames| ==> r.delivered == frames && r.session.queue == map[] && r.arrivals == [])
  {
    StartIsSorted(p, s, frames, order);
    var r := Reading(s, order, []);
    AfterTurns(p, frames, r, s.expected, turns);
    SortedFacts(p, frames, After(p, frames, r, turns), s.expected);
  }

  // Nothing came yet: what is expected is set by the first frame.
  predicate IsNew(p: Policy, s: Session) {
    !p.jitter && p.ignoreOutOfOrder && s.received == 0 && s.queue == map[]
  }

  // The frames follow the first one: numbered on from it, of its source, timestamps in order.
  predicate IsTalk(p: Policy, s: Session, first: Frame, frames: seq<Frame>) {
    && |frames| <= 0x1_0000 && WellFormed(first)
    && (forall i :: 0 <= i < |frames| ==> frames[i].number == (first.number + 1 + i) % 0x1_0000)
    && (forall i :: 0 <= i < |frames| ==>
          WellFormed(frames[i]) && (p.ignoreOtherSources ==> frames[i].syncSource == Heard(s, first).syncSource))
    && (forall i :: 0 <= i < |frames| ==> first.timestamp <= frames[i].timestamp)
    && (forall i, j :: 0 <= i < j < |frames| ==> frames[i].timestamp <= frames[j].timestamp)
  }

  // A new session hands up the first frame at once, and then the frames that follow it in
  // order, however they arrive; none is counted as lost.
  lemma NewSessionPutsInOrder(p: Policy, s: Session, first: Frame, frames: seq<Frame>, order: seq<nat>, turns: nat)
    requires IsNew(p, s) && IsTalk(p, s, first, frames)
    requires !WrapsInside(frames) && IsOrder(order, |frames|)
    ensures Within(order, |frames|)
    ensures var (g, s1) := ReadData(p, s, false, Some(first), false);
            var r := After(p, frames, Reading(s1, order, []), turns);
            && g == Some(first) && r.delivered <= frames && r.session.lost == s.lost
            && (turns >= 2 * |frames| ==> r.delivered == frames && r.session.queue == map[] && r.arrivals == [])
  {
    FirstFrameStarts(p, s, first, false);
    var s1 := ReadData(p, s, false, Some(first), false).1;
    hide ReadData, After, WrapsInside, IsOrder;
    BlockComesOutInOrder(p, s1, frames, order, turns);
  }

  // A frame older than the first one does not wait for those before it.
  lemma OlderThanFirstDoesNotWait(p: Policy, s: Session, first: Frame, f: Frame, timeout: bool)
    requires IsNew(p, s) && WellFormed(first) && WellFormed(f) && f.timestamp < first.timestamp
    requires p.ignoreOtherSources ==> f.syncSource == Heard(s, first).syncSource
    requires f.number != (first.number + 1) % 0x1_0000
    ensures var s1 := OnReceiveData(p, s, first, timeout).2;
            var (status, g, s') := OnReceiveData(p, s1, f, timeout);
            g == f && s'.queue == map[] && (status == Process <==> f.number > (first.number + 1) % 0x1_0000)
  {
    FirstFrameStarts(p, s, first, timeout);
    OldFrameDoesNotWait(p, OnReceiveData(p, s, first, timeout).2, f, timeout);
  }

  lemma StartIsSorted(p: Policy, s: Session, frames: seq<Frame>, order: seq<nat>)
    requires Starts(p, s) && IsBlock(p, s, frames) && IsOrder(order, |frames|)
    ensures Within(order, |frames|) && IsNumbered(frames, s.expected)
    ensures Sorted(p, frames, Reading(s, order, []), s.expected)
  {
    forall i | 0 <= i < |order|
      ensures order[i] < |frames|
    {
      assert order[i] in order;
    }
  }

  // ---------- A block with number 0 inside ----------

  // In order, but for the two frames from number 0 on.
  function Swapped(n: nat, zero: nat): (order: seq<nat>)
    requires zero + 1 < n
    ensures |order| == n
  {
    seq(n, i => if i == zero then zero + 1 else if i == zero + 1 then zero else i)
  }

  lemma SwappedIsOrder(n: nat, zero: nat)
    requires zero + 1 < n
    ensures IsOrder(Swapped(n, zero), n)
  {
    var order := Swapped(n, zero);
    forall i: nat | i < n
      ensures i in order
    {
      assert order[if i == zero then zero + 1 else if i == zero + 1 then zero else i] == i;
    }
  }

  lemma {:induction false} FirstTurns(p: Policy, frames: seq<Frame>, r: Reading, e: Word, turns: nat)
    requires IsNumbered(frames, e) && Sorted(p, frames, r, e) && r.session.queue == map[] && r.delivered == []
    requires Within(r.arrivals, |frames|) && turns <= |r.arrivals|
    requires forall i :: 0 <= i < turns ==> r.arrivals[i] == i
    ensures var r' := After(p, frames, r, turns);
            Sorted(p, frames, r', e) && |r'.delivered| == turns && r'.arrivals == r.arrivals[turns..] &&
            r'.session.queue == map[]
  {
    hide Sorted, Step;
    if turns > 0 {
      FirstTurns(p, frames, r, e, turns - 1);
      ArrivalStaysSorted(p, frames, After(p, frames, r, turns - 1), e);
    }
  }

  // Where number 0 is inside, there is an order of arrival in which ReadData hands up a
  // wrong frame: the frame after it arrives just before it.
  lemma WrappingBlockMayComeOutOfOrder(p: Policy, s: Session, frames: seq<Frame>) returns (order: seq<nat>, turns: nat)
    requires Starts(p, s) && IsBlock(p, s, frames) && WrapsInside(frames)
    ensures IsOrder(order, |frames|) && Within(order, |frames|)
    ensures !(After(p, frames, Reading(s, order, []), turns).delivered <= frames)
  {
    var zero: nat :| zero < |frames| - 1 && frames[zero].number == 0;
    order, turns := Swapped(|frames|, zero), zero + 1;
    SwappedIsOrder(|frames|, zero);
    SwappedGoesWrong(p, s, frames, zero);
  }

  lemma SwappedGoesWrong(p: Policy, s: Session, frames: seq<Frame>, zero: nat)
    requires Starts(p, s) && IsBlock(p, s, frames)
    requires zero + 1 < |frames| && frames[zero].number == 0
    requires IsOrder(Swapped(|frames|, zero), |frames|)
    ensures Within(Swapped(|frames|, zero), |frames|)
    ensures !(After(p, frames, Reading(s, Swapped(|frames|, zero), []), zero + 1).delivered <= frames)
  {
    hide IsOrder, IsBlock, Sorted, IsNumbered;
    var r := Reading(s, Swapped(|frames|, zero), []);
    StartIsSorted(p, s, frames, r.arrivals);
    FirstTurns(p, frames, r, s.expected, zero);
    FrameAfterZero(p, frames, After(p, frames, r, zero), s.expected);
  }

  lemma FrameAfterZero(p: Policy, frames: seq<Frame>, r: Reading, e: Word)
    requires IsNumbered(frames, e) && Sorted(p, frames, r, e) && Within(r.arrivals, |frames|) && p.ignoreOutOfOrder
    requires |r.delivered| + 1 < |frames| && frames[|r.delivered|].number == 0 && r.session.queue == map[]
    requires r.arrivals != [] && r.arrivals[0] == |r.delivered| + 1
    ensures !(Step(p, frames, r).delivered <= frames)
  {
    hide Held, Parted;
    var d, s := |r.delivered|, r.session;
    var f := frames[d + 1];
    SortedFacts(p, frames, r, e);
    QueuedFrameHandedUpIff(p, s, f);
    var delivered := Step(p, frames, r).delivered;
    assert delivered[d].number == 0xFFFF;
  }

  // ---------- Late frames ----------

  // The session after these frames arrive, one after the other.
  function Received(p: Policy, s: Session, frames: seq<Frame>): Session {
    if frames == [] then s
    else OnReceiveData(p, Received(p, s, frames[..|frames|-1]), frames[|frames|-1], false).2
  }

  // A frame that is late for number e, and does not wait.
  predicate IsLate(p: Policy, s: Session, f: Frame) {
    && OneSource(p, s, f) && f.number < s.expected
    && (p.jitter || f.timestamp < s.lastTimestamp)
  }

  lemma LateFrame(p: Policy, s: Session, s1: Session, f: Frame)
    requires s1.received > 0 && IsLate(p, s, f) && s1.expected == s.expected && s1.lastTimestamp == s.lastTimestamp
    requires p.ignoreOtherSources ==> s1.syncSource == s.syncSource
    ensures var (status, g, s') := OnReceiveData(p, s1, f, false);
            && s'.queue == s1.queue && s'.lost == s1.lost && s'.lastTimestamp == s1.lastTimestamp
            && s'.received > 0 && s'.consecutive == s1.consecutive + 1 && s'.outOfOrder == s1.outOfOrder + 1
            && (p.ignoreOtherSources ==> s'.syncSource == s1.syncSource)
            && (status == Ignore <==> p.ignoreOutOfOrder)
            && s'.expected == if s1.consecutive < 10 then s1.expected else (f.number + 1) % 0x1_0000
  {
    if !p.jitter {
      OldFrameDoesNotWait(p, s1, f, false);
    }
  }

  // Ten late frames in turn change nothing but what is counted; the eleventh makes the number
  // after its own the one expected.
  lemma {:induction false} EleventhLateFrameRebases(p: Policy, s: Session, frames: seq<Frame>)
    requires s.received > 0 && s.consecutive == 0 && |frames| <= 11
    requires forall f :: f in frames ==> IsLate(p, s, f)
    ensures var s' := Received(p, s, frames);
            && s'.received > 0 && s'.queue == s.queue && s'.lastTimestamp == s.lastTimestamp && s'.lost == s.lost
            && s'.outOfOrder == s.outOfOrder + |frames| && s'.consecutive == |frames|
            && (p.ignoreOtherSources ==> s'.syncSource == s.syncSource)
            && s'.expected == if |frames| <= 10 then s.expected else (frames[10].number + 1) % 0x1_0000
  {
    hide OnReceiveData, IsLate;
    if frames != [] {
      var n := |frames| - 1;
      EleventhLateFrameRebases(p, s, frames[..n]);
      LateFrame(p, s, Received(p, s, frames[..n]), frames[n]);
    }
  }
}
