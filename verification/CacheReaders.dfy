// One writer and any number of readers of the packet cache, in any interleaving.
//
// A state is what CacheRtp.CacheRTP and its readers come to between two atomic steps: the
// log, the tail number, the slots and each reader's own number.  A step changes them as
// PutFrame, GetFrame and its second waiting loop do.

module CacheReaders {
  import opened CacheLocks
  import opened CacheNumbering
  import opened CacheRtp

  // What a reader was given, and how many packets had been put by then.
  datatype Receipt = Receipt(frame: RtpFrame, len: nat, lastFrame: bool, iframe: bool, at: nat)

  // num and awaiting are the reader's; the rest is its history: whether the entry due to it
  // was sixteen frames behind at its last attempt, the log entry due when it attached, and
  // what it was served, each with whether it was that far behind when it asked for it.
  datatype Reader = Reader(
    num: nat, awaiting: bool,
    behind: bool, start: nat, got: seq<nat>, late: seq<bool>, out: seq<Receipt>)

  datatype State = State(log: seq<Entry>, lastN: nat, slots: map<nat, Slot>, readers: seq<Reader>)

  datatype Step =
    | Put(entry: Entry, end: nat)
    | Attach
    | Try(reader: nat, attempt: Attempt)
    | Poll(reader: nat)

  // A reader that attaches starts at the number of the last packet put.
  function Attached(log: seq<Entry>): Reader {
    var num := if log == [] then 0 else Num(log, |log| - 1);
    Reader(num, false, false, FirstAt(log, num), [], [], [])
  }

  function Receive(log: seq<Entry>, r: Reader, a: Attempt): Reader {
    match a
    case Delivered(frame, len, lastFrame, iframe, num) =>
      r.(num := num, awaiting := false, got := r.got + [if num == 0 then 0 else FirstAt(log, num - 1)],
         late := r.late + [r.behind], out := r.out + [Receipt(frame, len, lastFrame, iframe, |log|)])
    case NotYet => r
    case Awaiting(num) => r.(num := num, awaiting := true)
  }

  function AfterTry(log: seq<Entry>, r: Reader, a: Attempt): Reader {
    Receive(log, r.(behind := Behind(log, r.num)), a)
  }

  function AfterPoll(log: seq<Entry>, lo: nat, r: Reader): Reader {
    Receive(log, r, PollOutcome(log, lo, r.num))
  }

  ghost predicate Next(s: State, step: Step, s': State) {
    match step
    case Put(e, end) =>
      && s' == State(s.log + [e], TailAfter(s.log, s.lastN), s'.slots, s.readers)
      && PutsTo(s.slots, s'.slots, s.log, s.lastN, e, end)
    case Attach =>
      s' == s.(readers := s.readers + [Attached(s.log)])
    case Try(i, a) =>
      && i < |s.readers| && !s.readers[i].awaiting && Comes(s.slots, s.log, s.readers[i].num, a)
      && s' == s.(readers := s.readers[i := AfterTry(s.log, s.readers[i], a)])
    case Poll(i) =>
      && i < |s.readers| && s.readers[i].awaiting
      && s' == s.(readers := s.readers[i := AfterPoll(s.log, s.lastN, s.readers[i])])
  }

  const START: State := State([], 0, map[], [])

  ghost predicate IsRun(states: seq<State>, steps: seq<Step>) {
    && |states| == |steps| + 1
    && states[0] == START
    && forall i :: 0 <= i < |steps| ==> Next(states[i], steps[i], states[i+1])
  }

  // What the cache keeps between two steps.
  ghost predicate Kept(s: State) {
    CacheLaw(s.slots, s.log, s.lastN)
  }

  lemma StepKeepsCache(s: State, step: Step, s': State)
    requires Kept(s) && Next(s, step, s')
    ensures Kept(s') && s.lastN <= s'.lastN
  {
    hide CacheLaw, AfterTry, AfterPoll, Attached, Comes, TailAfter, PutsTo, Num;
    if step.Put? {
      PutLaw(s.slots, s'.slots, s.log, s.lastN, step.entry, step.end);
      TailIsKept(s);
      TailAfterLaw(s.log, s.lastN, step.entry);
    }
  }

  lemma TailIsKept(s: State)
    requires Kept(s)
    ensures s.lastN + KEPT <= NextNum(s.log)
  {
  }

  lemma {:induction false} CacheIsKept(states: seq<State>, steps: seq<Step>, n: nat)
    requires IsRun(states, steps) && n < |states|
    ensures Kept(states[n])
  {
    if n > 0 {
      CacheIsKept(states, steps, n - 1);
      assert Next(states[n-1], steps[n-1], states[n]);
      StepKeepsCache(states[n-1], steps[n-1], states[n]);
    }
  }

  function Last(s: seq<nat>): nat
    requires s != []
  {
    s[|s|-1]
  }

  // ---------- What every reader keeps, whatever the frames are ----------

  // The receipt is for entry i: its packet and its length, whether it has the marker, and
  // whether it was the last I-frame to remember by then.
  ghost predicate IsFor(log: seq<Entry>, i: nat, t: Receipt) {
    && i < t.at <= |log| && t.frame == log[i].frame && t.len == log[i].len
    && (t.lastFrame <==> log[i].frame.marker)
    && (t.iframe <==> IsLastIframe(log[..t.at], i))
  }

  lemma ReceiptStays(log: seq<Entry>, e: Entry, i: nat, t: Receipt)
    requires IsFor(log, i, t)
    ensures i < |log| && IsFor(log + [e], i, t)
  {
    hide IsLastIframe;
    assert (log + [e])[..t.at] == log[..t.at];
  }

  function ReceiptOf(log: seq<Entry>, i: nat): Receipt
    requires i < |log|
  {
    var a := Serving(log, i);
    Receipt(a.frame, a.len, a.lastFrame, a.iframe, |log|)
  }

  lemma ReceiptIsFor(log: seq<Entry>, i: nat)
    requires i < |log|
    ensures IsFor(log, i, ReceiptOf(log, i))
  {
    hide IsLastIframe, Serving;
    ServingHandsOut(log, i);
    assert log[..|log|] == log;
  }

  // Entry k served is the one after the entry before it, or a later one at a block start.
  predicate Continues(log: seq<Entry>, got: seq<nat>, k: nat)
    requires 0 < k < |got|
  {
    || got[k] == got[k-1] + 1
    || (got[k-1] < got[k] <= |log| && Offset(Num(log, got[k])) == 0)
  }

  // What was served is from the log, in its order, each entry at most once, and goes on
  // with the entry after the last one or at a block start.
  ghost predicate InOrder(log: seq<Entry>, got: seq<nat>, out: seq<Receipt>) {
    && |out| == |got|
    && (forall k :: 0 <= k < |got| ==> got[k] < |log| && IsFor(log, got[k], out[k]))
    && (forall k :: 0 < k < |got| ==> Continues(log, got, k))
  }

  // A reader's number never passes the writer's; one that waits, waits for a number of the
  // log or for the next one.
  ghost predicate Steady(log: seq<Entry>, r: Reader) {
    && InOrder(log, r.got, r.out)
    && r.num <= NextNum(log)
    && (r.awaiting ==> Num(log, FirstAt(log, r.num)) == r.num)
    && (r.got != [] ==>
          || FirstAt(log, r.num) == Last(r.got) + 1
          || (Last(r.got) < FirstAt(log, r.num) && Offset(r.num) == 0))
  }

  lemma AttachedIsSteady(log: seq<Entry>)
    ensures Steady(log, Attached(log))
  {
    hide Base, Written;
    if log != [] {
      NumIncreases(log, |log| - 1, |log|);
    }
  }

  lemma PutKeepsSteady(log: seq<Entry>, e: Entry, r: Reader)
    requires Steady(log, r)
    ensures Steady(log + [e], r)
  {
    hide Base, Num, Written, FirstAt;
    var log' := log + [e];
    FirstAtOfLonger(log, e, r.num);
    NumOfPrefix(log, [e], FirstAt(log, r.num));
    NumOfPrefix(log, [e], |log|);
    NumIncreases(log', |log|, |log'|);
    forall k | 0 <= k < |r.got|
      ensures IsFor(log', r.got[k], r.out[k]) && Num(log', r.got[k]) == Num(log, r.got[k])
    {
      ReceiptStays(log, e, r.got[k], r.out[k]);
      NumOfPrefix(log, [e], r.got[k]);
    }
    forall k | 0 < k < |r.got|
      ensures Continues(log', r.got, k)
    {
      assert Continues(log, r.got, k);
    }
  }

  lemma AfterReceive(log: seq<Entry>, r: Reader, i: nat)
    requires i < |log|
    ensures Receive(log, r, Serving(log, i)) ==
            r.(num := Num(log, i) + 1, awaiting := false, got := r.got + [i],
               late := r.late + [r.behind], out := r.out + [ReceiptOf(log, i)])
  {
    hide Num, NextNum, FirstAt, IframeNum;
    NumIsWritten(log, i);
    var a := Serving(log, i);
    assert a.num == Num(log, i) + 1;
    assert FirstAt(log, a.num - 1) == i;
  }

  // Serving entry i to a reader whose last entry is before it.
  lemma ServeKeepsSteady(log: seq<Entry>, r: Reader, i: nat)
    requires Steady(log, r) && i < |log|
    requires r.got != [] ==> i == Last(r.got) + 1 || (Last(r.got) < i && Offset(Num(log, i)) == 0)
    ensures Steady(log, Receive(log, r, Serving(log, i)))
  {
    hide Receive, Serving, Num, NextNum, FirstAt, InOrder, Offset;
    AfterReceive(log, r, i);
    AfterServed(log, i);
    ServedIsBehind(log, i);
    OneMoreInOrder(log, r.got, r.out, i);
  }

  lemma OneMoreInOrder(log: seq<Entry>, got: seq<nat>, out: seq<Receipt>, i: nat)
    requires InOrder(log, got, out) && i < |log|
    requires got != [] ==> i == Last(got) + 1 || (Last(got) < i && Offset(Num(log, i)) == 0)
    ensures InOrder(log, got + [i], out + [ReceiptOf(log, i)])
  {
    ReceiptIsFor(log, i);
    hide Num, Base, Offset, IsFor, ReceiptOf;
    var got', out' := got + [i], out + [ReceiptOf(log, i)];
    forall k | 0 < k < |got'|
      ensures Continues(log, got', k)
    {
      if k < |got| {
        assert Continues(log, got, k);
      }
    }
  }

  lemma AfterServed(log: seq<Entry>, i: nat)
    requires i < |log|
    ensures FirstAt(log, Num(log, i) + 1) == i + 1
  {
    hide Num, FirstAt;
    var f := FirstAt(log, Num(log, i) + 1);
    if f < i {
      NumIncreases(log, f, i);
    } else if i + 1 < f {
      NumIncreases(log, i, f - 1);
    }
  }

  lemma FirstAtGrows(log: seq<Entry>, m: nat, n: nat)
    requires m <= n
    ensures FirstAt(log, m) <= FirstAt(log, n)
  {
    var i, j := FirstAt(log, m), FirstAt(log, n);
    hide Num, FirstAt;
    if j + 1 < i {
      NumIncreases(log, j, i - 1);
    }
  }

  lemma TryKeepsSteady(log: seq<Entry>, r: Reader, a: Attempt)
    requires Steady(log, r) && MayCome(log, r.num, a)
    ensures Steady(log, AfterTry(log, r, a))
  {
    hide Num, FirstAt, Base, IframeNum, WalksHold, LocksHold, DueOutcome, TryOutcome, Behind;
    if a.Delivered? {
      var i: nat :| i < |log| && a == Serving(log, i) &&
        r.num <= Num(log, i) && (Num(log, i) == r.num || Offset(Num(log, i)) == 0);
      NumIsWritten(log, i);
      FirstAtGrows(log, r.num, Num(log, i));
      ServeKeepsSteady(log, r.(behind := Behind(log, r.num)), i);
    } else {
      NumIsWritten(log, |log|);
    }
  }

  lemma PollKeepsSteady(log: seq<Entry>, lo: nat, r: Reader)
    requires Steady(log, r) && r.awaiting
    ensures Steady(log, AfterPoll(log, lo, r))
  {
    hide Num, FirstAt, Base, IframeNum;
    if Written(log, r.num) && lo <= r.num {
      ServeKeepsSteady(log, r, FirstAt(log, r.num));
    }
  }

  lemma StepKeepsSteady(s: State, step: Step, s': State)
    requires Kept(s) && Next(s, step, s')
    requires forall r :: r in s.readers ==> Steady(s.log, r)
    ensures forall r :: r in s'.readers ==> Steady(s'.log, r)
  {
    hide Steady, CacheLaw, PutsTo, AfterTry, AfterPoll, Attached, MayCome, Comes, TailAfter, NextNum;
    match step
    case Put(e, _) =>
      forall r | r in s'.readers
        ensures Steady(s'.log, r)
      {
        PutKeepsSteady(s.log, e, r);
      }
    case Attach =>
      AttachedIsSteady(s.log);
    case Try(i, a) =>
      ComesMay(s.slots, s.log, s.lastN, s.readers[i].num, a);
      TryKeepsSteady(s.log, s.readers[i], a);
    case Poll(i) =>
      PollKeepsSteady(s.log, s.lastN, s.readers[i]);
  }

  // In every run, whatever the frames are, no reader's number passes the writer's, and every
  // reader is served in log order.
  lemma {:induction false} ReadersStaySteady(states: seq<State>, steps: seq<Step>, n: nat)
    requires IsRun(states, steps) && n < |states|
    ensures forall r :: r in states[n].readers ==> Steady(states[n].log, r) && r.num <= NextNum(states[n].log)
  {
    hide Kept;
    if n > 0 {
      ReadersStaySteady(states, steps, n - 1);
      assert Next(states[n-1], steps[n-1], states[n]);
      CacheIsKept(states, steps, n - 1);
      StepKeepsSteady(states[n-1], steps[n-1], states[n]);
    }
  }

  // ---------- What is due to a reader ----------

  // The entry due to a reader after the first k it was served.
  function Due(r: Reader, k: nat): nat
    requires k <= |r.got|
  {
    if k == 0 then r.start else r.got[k-1] + 1
  }

  // A reader is served the entry due to it, unless that was sixteen frames behind as the
  // reader asked: then it may go on later, at a block start.
  ghost predicate ServedAsDue(log: seq<Entry>, r: Reader, k: nat)
    requires k < |r.got| == |r.late| == |r.out|
  {
    && r.got[k] < |log| && IsFor(log, r.got[k], r.out[k])
    && Due(r, k) <= r.got[k]
    && (Due(r, k) < r.got[k] ==> r.late[k] && Offset(Num(log, r.got[k])) == 0)
  }

  ghost predicate Gapless(log: seq<Entry>, r: Reader) {
    && |r.got| == |r.late| == |r.out|
    && forall k: nat :: k < |r.got| ==> ServedAsDue(log, r, k)
  }

  lemma GaplessByHistory(log: seq<Entry>, r: Reader, r': Reader)
    requires Gapless(log, r)
    requires r'.start == r.start && r'.got == r.got && r'.late == r.late && r'.out == r.out
    ensures Gapless(log, r')
  {
    hide Num, Offset;
    forall k: nat | k < |r'.got|
      ensures ServedAsDue(log, r', k)
    {
      assert ServedAsDue(log, r, k);
      assert Due(r', k) == Due(r, k);
    }
  }

  ghost predicate Good(log: seq<Entry>, r: Reader) {
    && Gapless(log, r)
    && r.num <= NextNum(log)
    && FirstAt(log, r.num) == Due(r, |r.got|)
    && (r.awaiting ==> !r.behind && Num(log, FirstAt(log, r.num)) == r.num)
  }

  lemma AttachedIsGood(log: seq<Entry>)
    ensures Good(log, Attached(log))
    ensures Attached(log).start == if log == [] then 0 else |log| - 1
  {
    hide Base, Written;
    if log != [] {
      NumIsWritten(log, |log| - 1);
      NumIncreases(log, |log| - 1, |log|);
    }
  }

  lemma PutKeepsGood(log: seq<Entry>, e: Entry, r: Reader)
    requires Good(log, r)
    ensures Good(log + [e], r)
  {
    hide Base, Num, Written, FirstAt, Offset;
    var log' := log + [e];
    FirstAtOfLonger(log, e, r.num);
    NumOfPrefix(log, [e], FirstAt(log, r.num));
    NumOfPrefix(log, [e], |log|);
    NumIncreases(log', |log|, |log'|);
    forall k: nat | k < |r.got|
      ensures ServedAsDue(log', r, k)
    {
      assert ServedAsDue(log, r, k);
      NumOfPrefix(log, [e], r.got[k]);
      ReceiptStays(log, e, r.got[k], r.out[k]);
    }
  }

  // Serving entry i, the one due or, to a reader that is late, a later one.
  lemma ServeKeepsGood(log: seq<Entry>, r: Reader, i: nat)
    requires Good(log, r) && FirstAt(log, r.num) <= i < |log|
    requires FirstAt(log, r.num) < i ==> r.behind && Offset(Num(log, i)) == 0
    ensures Good(log, Receive(log, r, Serving(log, i)))
  {
    hide Receive, Serving, Num, NextNum, FirstAt, Offset;
    var r' := Receive(log, r, Serving(log, i));
    AfterReceive(log, r, i);
    AfterServed(log, i);
    ServedIsBehind(log, i);
    ReceiptIsFor(log, i);
    forall k: nat | k < |r'.got|
      ensures ServedAsDue(log, r', k)
    {
      assert Due(r', k) == Due(r, k);
      assert k < |r.got| ==> ServedAsDue(log, r, k);
    }
  }

  // The entry that serves a reader that is behind is not before the one due, and at a block
  // start unless it is that one.
  lemma ServesNotBefore(log: seq<Entry>, num: nat, a: Attempt) returns (i: nat)
    requires ServesFrom(log, num, a)
    ensures FirstAt(log, num) <= i < |log| && a == Serving(log, i)
    ensures FirstAt(log, num) < i ==> Offset(Num(log, i)) == 0
  {
    hide Num, FirstAt, Offset, Serving;
    i :| i < |log| && a == Serving(log, i) &&
      num <= Num(log, i) && (Num(log, i) == num || Offset(Num(log, i)) == 0);
    NumIsWritten(log, i);
    FirstAtGrows(log, num, Num(log, i));
  }

  lemma TryKeepsGood(log: seq<Entry>, r: Reader, a: Attempt)
    requires WalksHold(log) && Good(log, r) && !r.awaiting && MayCome(log, r.num, a)
    ensures Good(log, AfterTry(log, r, a))
  {
    hide Num, FirstAt, WalksHold, LocksHold, Base, IframeNum, Behind, Gapless, Serving, TryOutcome, ServesFrom;
    var r0 := r.(behind := Behind(log, r.num));
    NumIsWritten(log, |log|);
    GaplessByHistory(log, r, r0);
    if Behind(log, r.num) {
      var i := ServesNotBefore(log, r.num, a);
      ServeKeepsGood(log, r0, i);
    } else if r.num < NextNum(log) {
      if FirstAt(log, r.num) < |log| {
        ServeKeepsGood(log, r0, FirstAt(log, r.num));
      } else {
        GaplessByHistory(log, r, AfterTry(log, r, a));
      }
    }
  }

  lemma PollKeepsGood(log: seq<Entry>, lo: nat, r: Reader)
    requires Good(log, r) && r.awaiting
    ensures Good(log, AfterPoll(log, lo, r))
  {
    hide Num, FirstAt, Base, IframeNum;
    if Written(log, r.num) && lo <= r.num {
      ServeKeepsGood(log, r, FirstAt(log, r.num));
    } else {
      assert AfterPoll(log, lo, r) == r;
    }
  }

  lemma StepKeepsGood(s: State, step: Step, s': State)
    requires Kept(s) && Next(s, step, s') && WalksHold(s.log)
    requires forall r :: r in s.readers ==> Good(s.log, r)
    ensures forall r :: r in s'.readers ==> Good(s'.log, r)
  {
    hide Good, CacheLaw, PutsTo, AfterTry, AfterPoll, Attached, WalksHold, MayCome, Comes, TailAfter;
    match step
    case Put(e, _) =>
      forall r | r in s'.readers
        ensures Good(s'.log, r)
      {
        PutKeepsGood(s.log, e, r);
      }
    case Attach =>
      AttachedIsGood(s.log);
    case Try(i, a) =>
      ComesMay(s.slots, s.log, s.lastN, s.readers[i].num, a);
      TryKeepsGood(s.log, s.readers[i], a);
    case Poll(i) =>
      PollKeepsGood(s.log, s.lastN, s.readers[i]);
  }

  lemma {:induction false} LogGrows(states: seq<State>, steps: seq<Step>, i: nat, j: nat)
    requires IsRun(states, steps) && i <= j < |states|
    ensures states[i].log <= states[j].log
  {
    if i < j {
      LogGrows(states, steps, i, j - 1);
      assert Next(states[j-1], steps[j-1], states[j]);
    }
  }

  // What holds for the log of a state held for the one before.
  lemma HeldBefore(states: seq<State>, steps: seq<Step>, n: nat)
    requires IsRun(states, steps) && 0 < n < |states|
    ensures WalksHold(states[n].log) ==> WalksHold(states[n-1].log)
    ensures LocksHold(states[n].log) ==> LocksHold(states[n-1].log)
  {
    hide WalksHold, LocksHold, IsRun;
    LogGrows(states, steps, n - 1, n);
    var before := states[n-1].log;
    assert states[n].log == before + states[n].log[|before|..];
    HoldsForPrefix(before, states[n].log[|before|..]);
  }

  // In every run in which no walk went too far, every reader is served the packets since it
  // attached, in order and without a gap, but where it fell sixteen frames behind: only
  // there it may go on later, at a block start.
  lemma {:induction false} ReadersStayGood(states: seq<State>, steps: seq<Step>, n: nat)
    requires IsRun(states, steps) && n < |states| && WalksHold(states[n].log)
    ensures forall r :: r in states[n].readers ==> Good(states[n].log, r)
  {
    hide WalksHold, Kept;
    if n > 0 {
      HeldBefore(states, steps, n);
      ReadersStayGood(states, steps, n - 1);
      CacheIsKept(states, steps, n - 1);
      assert Next(states[n-1], steps[n-1], states[n]);
      StepKeepsGood(states[n-1], steps[n-1], states[n]);
    }
  }

  // In any stretch in which a reader was never that far behind, it is served every packet.
  lemma NoGapWhileKeepingUp(states: seq<State>, steps: seq<Step>, n: nat, i: nat, lo: nat, hi: nat)
    requires IsRun(states, steps) && n < |states| && WalksHold(states[n].log)
    requires i < |states[n].readers|
    requires lo <= hi <= |states[n].readers[i].late|
    requires forall k :: lo <= k < hi ==> !states[n].readers[i].late[k]
    ensures var r, log := states[n].readers[i], states[n].log;
            && |r.got| == |r.out| == |r.late| && Due(r, lo) + (hi - lo) <= |log|
            && forall k :: lo <= k < hi ==> IsFor(log, Due(r, lo) + (k - lo), r.out[k])
  {
    ReadersStayGood(states, steps, n);
    var r, log := states[n].readers[i], states[n].log;
    assert Good(log, r);
    hide FirstAt, Num, Base, WalksHold, IsRun;
    DueStretch(log, r, lo, hi);
    forall k: nat | lo <= k < hi
      ensures IsFor(log, Due(r, lo) + (k - lo), r.out[k])
    {
      assert ServedAsDue(log, r, k);
    }
  }

  lemma {:induction false} DueStretch(log: seq<Entry>, r: Reader, lo: nat, hi: nat)
    requires Good(log, r) && lo <= hi <= |r.got|
    requires forall k :: lo <= k < hi ==> !r.late[k]
    ensures Due(r, hi) == Due(r, lo) + (hi - lo) <= |log|
    ensures forall k :: lo <= k < hi ==> r.got[k] == Due(r, lo) + (k - lo)
    decreases hi
  {
    hide FirstAt, Num, Offset;
    if lo < hi {
      DueStretch(log, r, lo, hi - 1);
      assert ServedAsDue(log, r, hi - 1);
    } else if r.got != [] {
      assert ServedAsDue(log, r, if hi > 0 then hi - 1 else 0);
    }
  }

  // ---------- With exact locks ----------

  // A reader goes on later wherever the entry due to it was sixteen frames behind.
  ghost predicate SkipsWhenLate(r: Reader) {
    |r.late| == |r.got| && forall k: nat :: k < |r.late| && r.late[k] ==> Due(r, k) < r.got[k]
  }

  lemma ServeKeepsSkips(log: seq<Entry>, r: Reader, i: nat)
    requires Good(log, r) && SkipsWhenLate(r) && i < |log|
    requires r.behind ==> FirstAt(log, r.num) < i
    ensures SkipsWhenLate(Receive(log, r, Serving(log, i)))
  {
    hide Receive, Serving, Num, NextNum, FirstAt, Gapless;
    var r' := Receive(log, r, Serving(log, i));
    AfterReceive(log, r, i);
    forall k: nat | k < |r'.late| && r'.late[k]
      ensures Due(r', k) < r'.got[k]
    {
      assert Due(r', k) == Due(r, k);
    }
  }

  lemma TryKeepsSkips(log: seq<Entry>, r: Reader, a: Attempt)
    requires LocksHold(log) && Good(log, r) && SkipsWhenLate(r) && !r.awaiting && MayCome(log, r.num, a)
    ensures SkipsWhenLate(AfterTry(log, r, a))
  {
    hide Num, FirstAt, WalksHold, LocksHold, Base, IframeNum, Behind, Seek, Gapless, Serving, DueOutcome, ServesFrom;
    var r0 := r.(behind := Behind(log, r.num));
    MissesIff(log, r.num);
    GaplessByHistory(log, r, r0);
    if a.Delivered? {
      SkipsByHistory(r, r0);
      ServeKeepsSkips(log, r0, Seek(log, r.num));
    } else {
      SkipsByHistory(r, AfterTry(log, r, a));
    }
  }

  lemma SkipsByHistory(r: Reader, r': Reader)
    requires SkipsWhenLate(r) && r'.start == r.start && r'.got == r.got && r'.late == r.late
    ensures SkipsWhenLate(r')
  {
    forall k: nat | k < |r'.late| && r'.late[k]
      ensures Due(r', k) < r'.got[k]
    {
      assert Due(r', k) == Due(r, k);
    }
  }

  lemma PollKeepsSkips(log: seq<Entry>, lo: nat, r: Reader)
    requires Good(log, r) && SkipsWhenLate(r) && r.awaiting
    ensures SkipsWhenLate(AfterPoll(log, lo, r))
  {
    hide Num, FirstAt, Base, IframeNum;
    if Written(log, r.num) && lo <= r.num {
      ServeKeepsSkips(log, r, FirstAt(log, r.num));
    } else {
      assert AfterPoll(log, lo, r) == r;
    }
  }

  lemma StepKeepsSkips(s: State, step: Step, s': State)
    requires Kept(s) && Next(s, step, s') && LocksHold(s.log)
    requires forall r :: r in s.readers ==> Good(s.log, r) && SkipsWhenLate(r)
    ensures forall r :: r in s'.readers ==> SkipsWhenLate(r)
  {
    hide Good, SkipsWhenLate, CacheLaw, PutsTo, AfterTry, AfterPoll, LocksHold, MayCome, Comes, TailAfter;
    match step
    case Put(_, _) =>
    case Attach =>
      AttachedSkips(s.log);
    case Try(i, a) =>
      ComesMay(s.slots, s.log, s.lastN, s.readers[i].num, a);
      TryKeepsSkips(s.log, s.readers[i], a);
    case Poll(i) =>
      PollKeepsSkips(s.log, s.lastN, s.readers[i]);
  }

  lemma AttachedSkips(log: seq<Entry>)
    ensures SkipsWhenLate(Attached(log))
  {
  }

  // In every run in which no put broke the locks, readers go on later exactly where they
  // fell sixteen frames behind.
  lemma ReadersSkipIffLate(states: seq<State>, steps: seq<Step>, n: nat)
    requires IsRun(states, steps) && n < |states| && LocksHold(states[n].log)
    ensures forall r :: r in states[n].readers ==>
              && Good(states[n].log, r) && |r.late| == |r.got|
              && forall k: nat :: k < |r.late| ==> (r.late[k] <==> Due(r, k) < r.got[k])
  {
    hide FirstAt, Num, Offset, IsRun;
    ReadersSkipWhenLate(states, steps, n);
    forall r | r in states[n].readers
      ensures |r.late| == |r.got|
      ensures forall k: nat :: k < |r.late| ==> (r.late[k] <==> Due(r, k) < r.got[k])
    {
      forall k: nat | k < |r.late|
        ensures r.late[k] <==> Due(r, k) < r.got[k]
      {
        assert ServedAsDue(states[n].log, r, k);
      }
    }
  }

  lemma {:induction false} ReadersSkipWhenLate(states: seq<State>, steps: seq<Step>, n: nat)
    requires IsRun(states, steps) && n < |states| && LocksHold(states[n].log)
    ensures forall r :: r in states[n].readers ==> Good(states[n].log, r) && SkipsWhenLate(r)
  {
    hide WalksHold, LocksHold, Good, SkipsWhenLate, Kept;
    LocksHoldWalksHold(states[n].log);
    ReadersStayGood(states, steps, n);
    if n > 0 {
      HeldBefore(states, steps, n);
      ReadersSkipWhenLate(states, steps, n - 1);
      CacheIsKept(states, steps, n - 1);
      assert Next(states[n-1], steps[n-1], states[n]);
      StepKeepsSkips(states[n-1], steps[n-1], states[n]);
    }
  }

  // With frames of at most 255 packets a reader that was late goes on at a frame start.
  lemma LateReadersGoOnAtFrameStart(states: seq<State>, steps: seq<Step>, n: nat, r: Reader, k: nat)
    requires IsRun(states, steps) && n < |states| && ShortFrames(states[n].log)
    requires r in states[n].readers && k < |r.late|
    ensures |r.late| == |r.got| == |r.out| && r.got[k] < |states[n].log| && IsFor(states[n].log, r.got[k], r.out[k])
    ensures if r.late[k] then Due(r, k) < r.got[k] && states[n].log[r.got[k] - 1].frame.marker
            else r.got[k] == Due(r, k)
  {
    hide FirstAt, Num, Offset, IsRun, ShortFrames, LocksHold;
    ShortFramesKeepLocks(states[n].log);
    ReadersSkipIffLate(states, steps, n);
    assert ServedAsDue(states[n].log, r, k);
    if r.late[k] {
      BlockStartsAreFrameStarts(states[n].log, r.got[k]);
    }
  }

  // A reader that lags goes on with the first packet of a block, the oldest one that is not
  // locked, unless nothing was put that far back; with short frames that starts a frame.
  lemma ResumesAtBlockStart(log: seq<Entry>, num: nat)
    requires num < NextNum(log) && Lags(log, num)
    ensures var i := Seek(log, num);
            if SeekFrom(log, num) < FRAME_BUF_SIZE then i == 0
            else i < |log| && Num(log, i) == Base(NextNum(log)) - LOCK_DISTANCE + FRAME_OFFSET &&
                 (ShortFrames(log) && i > 0 ==> log[i-1].frame.marker)
  {
    hide Num, FirstAt, ShortFrames;
    var f := SeekFrom(log, num);
    SeekFromIsStart(log, num);
    if f < FRAME_BUF_SIZE {
      FirstIsZero(log, f);
    } else {
      BlockStartWritten(log, f);
      if ShortFrames(log) && FirstAt(log, f) > 0 {
        BlockStartsAreFrameStarts(log, FirstAt(log, f));
      }
    }
  }

  lemma FirstIsZero(log: seq<Entry>, f: nat)
    requires f <= FRAME_BUF_SIZE
    ensures FirstAt(log, f) == 0
  {
    hide FirstAt;
    if log != [] {
      NumIncreases(log, 0, |log|);
    }
    FirstAtUnique(log, f, 0);
  }

  // ---------- States that runs reach ----------

  ghost predicate Reached(s: State) {
    exists states, steps :: IsRun(states, steps) && states[|states|-1] == s
  }

  lemma StartReached()
    ensures Reached(START)
  {
    assert IsRun([START], []);
  }

  lemma StepReaches(s: State, step: Step, s': State)
    requires Reached(s) && Next(s, step, s')
    ensures Reached(s')
  {
    hide Next;
    var states, steps :| IsRun(states, steps) && states[|states|-1] == s;
    var states', steps' := states + [s'], steps + [step];
    forall i | 0 <= i < |steps'|
      ensures Next(states'[i], steps'[i], states'[i+1])
    {
      if i < |steps| {
        assert states'[i] == states[i] && states'[i+1] == states[i+1] && steps'[i] == steps[i];
      }
    }
    assert IsRun(states', steps');
  }

  lemma ReachedIsKept(s: State)
    requires Reached(s)
    ensures Kept(s)
  {
    hide Kept, Next;
    var states, steps :| IsRun(states, steps) && states[|states|-1] == s;
    CacheIsKept(states, steps, |states| - 1);
  }

  lemma PutReaches(s: State, e: Entry) returns (s': State, end: nat)
    requires Reached(s)
    ensures Reached(s') && PutsTo(s.slots, s'.slots, s.log, s.lastN, e, end)
    ensures s'.log == s.log + [e] && s'.lastN == TailAfter(s.log, s.lastN) && s'.readers == s.readers
  {
    hide Reached, PutsTo, TailAfter, CacheLaw;
    ReachedIsKept(s);
    var slots';
    slots', end := PutExists(s.slots, s.log, s.lastN, e);
    s' := State(s.log + [e], TailAfter(s.log, s.lastN), slots', s.readers);
    StepReaches(s, Put(e, end), s');
  }

  lemma {:induction false} PutsReach(s: State, more: seq<Entry>) returns (s': State)
    requires Reached(s)
    ensures Reached(s') && s'.log == s.log + more && s'.readers == s.readers
    decreases |more|
  {
    hide Reached, PutsTo, TailAfter;
    s' := s;
    if more != [] {
      var end;
      s', end := PutReaches(s, more[0]);
      s' := PutsReach(s', more[1..]);
      assert s.log + [more[0]] + more[1..] == s.log + more;
    }
  }

  // ---------- A walk that goes too far ----------

  // A reader that was never behind goes past the entry it was to start with.
  ghost predicate Missed(log: seq<Entry>, r: Reader) {
    && (r.start < |log| && Num(log, r.start) < r.num)
    && r.start !in r.got && !r.behind && |r.late| == |r.got| && true !in r.late
  }

  // A reader that was never late and is past the entry it was to start with got it.
  lemma GoodGetsStart(log: seq<Entry>, r: Reader)
    requires Good(log, r) && true !in r.late
    requires r.start < |log| && Num(log, r.start) < r.num
    ensures r.start in r.got
  {
    hide Num, Offset, FirstAt;
    NotBefore(log, r.num, r.start);
    assert ServedAsDue(log, r, 0);
    assert r.late[0] in r.late && r.got[0] in r.got;
  }

  lemma MissedIsNotGood(log: seq<Entry>, r: Reader)
    requires Missed(log, r)
    ensures !Good(log, r)
  {
    hide Good, Num;
    if Good(log, r) {
      GoodGetsStart(log, r);
    }
  }

  lemma MissedStays(log: seq<Entry>, more: seq<Entry>, r: Reader)
    requires Missed(log, r)
    ensures Missed(log + more, r)
  {
    NumOfPrefix(log, more, r.start);
  }

  // A reader that attached at entry j and whose first attempt, not behind, does not come to
  // that entry.
  lemma RefusedIsMissed(log: seq<Entry>, j: nat, a: Attempt)
    requires j < |log| && MayCome(log, Num(log, j), a)
    requires !Behind(log, Num(log, j)) && a != DueOutcome(log, Num(log, j))
    ensures Missed(log, AfterTry(log, Reader(Num(log, j), false, false, j, [], [], []), a))
  {
    hide Num, FirstAt, Base, Offset, Behind, WalksHold, LocksHold, IframeNum, TryOutcome, Receive, ServesFrom;
    var num := Num(log, j);
    var r := Reader(num, false, false, j, [], [], []);
    ServedIsBehind(log, j);
    NumIsWritten(log, j);
    if a.Delivered? {
      var i := ServesNotBefore(log, num, a);
      AfterReceive(log, r, i);
      assert i != j;
      NumIncreases(log, j, i);
    } else {
      assert AfterTry(log, r, a) == r.(num := NextNum(log), awaiting := true) by {
        AfterAwaiting(log, r, a);
      }
    }
  }

  lemma AfterAwaiting(log: seq<Entry>, r: Reader, a: Attempt)
    requires a.Awaiting?
    ensures Receive(log, r, a) == r.(num := a.num, awaiting := true)
  {
  }

  // The first put of the log whose walk goes too far.
  lemma {:induction false} SomeOverWalk(log: seq<Entry>) returns (n: nat)
    requires !WalksHold(log)
    ensures n < |log| && OverWalks(log[..n], log[n])
  {
    hide OverWalks;
    n := |log| - 1;
    if !OverWalks(log[..n], log[n]) {
      n := SomeOverWalk(log[..n]);
      assert log[..|log|-1][..n] == log[..n];
    }
  }

  // The entry that such a put refuses.
  lemma RefusedEntry(log: seq<Entry>, e: Entry) returns (j: nat)
    requires OverWalks(log, e)
    ensures j < |log| && Num(log, j) == FallingBlock(NextNum(log)) + FRAME_OFFSET
  {
    hide Num, FirstAt, Base;
    var n := NextNum(log);
    var k := FallingBlock(n) + FRAME_OFFSET;
    WrittenBelowNext(log, k - 1);
    FrameStart(FallingBlock(n), n);
    NextBlockStart(FallingBlock(n));
    BlockStartWritten(log, k);
    j := FirstAt(log, k);
  }

  lemma NextBlockStart(l: nat)
    requires Offset(l) == 0
    ensures Offset(l + FRAME_OFFSET) == 0
  {
  }

  // Every such log has a run in which a reader misses a packet that is held, although it is
  // never behind.
  lemma ReaderMisses(log: seq<Entry>) returns (s: State, r: Reader)
    requires !WalksHold(log)
    ensures Reached(s) && s.log == log && r in s.readers && Missed(log, r)
  {
    hide Reached, OverWalks, WalksHold, Num, Attached, AfterTry, Missed;
    var n := SomeOverWalk(log);
    var before, e := log[..n], log[n];
    var j := RefusedEntry(before, e);
    StartReached();
    s := PutsReach(START, before[..j+1]);
    assert s.log == before[..j+1];
    AttachedAt(before, j);
    var s' := s.(readers := [Attached(s.log)]);
    StepReaches(s, Attach, s');
    s := PutsReach(s', before[j+1..]);
    assert s.log == before;
    s := OverWalkReaches(s, e, j);
    r := s.readers[0];
    assert before + [e] + log[n+1..] == log;
    MissedStays(s.log, log[n+1..], r);
    s := PutsReach(s, log[n+1..]);
  }

  // A reader that attaches as entry j was the last one put.
  lemma AttachedAt(log: seq<Entry>, j: nat)
    requires j < |log|
    ensures Attached(log[..j+1]) == Reader(Num(log, j), false, false, j, [], [], [])
  {
    hide Num, FirstAt;
    assert log == log[..j+1] + log[j+1..];
    NumOfPrefix(log[..j+1], log[j+1..], j);
    NumIsWritten(log[..j+1], j);
  }

  // The put whose walk goes too far, and then an attempt of the reader at the packet it refuses.
  lemma OverWalkReaches(s: State, e: Entry, j: nat) returns (s': State)
    requires Reached(s) && OverWalks(s.log, e) && j < |s.log|
    requires Num(s.log, j) == FallingBlock(NextNum(s.log)) + FRAME_OFFSET
    requires s.readers == [Reader(Num(s.log, j), false, false, j, [], [], [])]
    ensures Reached(s') && s'.log == s.log + [e]
    ensures |s'.readers| == 1 && Missed(s'.log, s'.readers[0])
  {
    hide Reached, OverWalks, Num, PutsTo, Comes, AfterTry, Missed, MayCome, CacheLaw, TailAfter, Behind,
         DueOutcome, FallingBlock;
    var t, end := PutReaches(s, e);
    ReachedIsKept(s);
    ReachedIsKept(t);
    NumOfPrefix(s.log, [e], j);
    var r := t.readers[0];
    var a := AttemptExists(t.slots, t.log, t.lastN, r.num);
    OverWalkRefuses(s.slots, t.slots, s.log, s.lastN, e, end, a);
    ComesMay(t.slots, t.log, t.lastN, r.num, a);
    RefusedIsMissed(t.log, j, a);
    s' := t.(readers := [AfterTry(t.log, r, a)]);
    StepReaches(t, Try(0, a), s');
  }

  // So the readers of a log are served as is due to them, in every state that has it, exactly
  // if none of its walks goes too far.
  lemma ReadersStayGoodIff(log: seq<Entry>)
    ensures WalksHold(log) <==> forall s, r :: Reached(s) && s.log == log && r in s.readers ==> Good(log, r)
  {
    hide IsRun, WalksHold, Good, Missed;
    if WalksHold(log) {
      forall s, r | Reached(s) && s.log == log && r in s.readers
        ensures Good(log, r)
      {
        ReachedIsGood(s);
      }
    } else {
      var s, r := ReaderMisses(log);
      MissedIsNotGood(log, r);
    }
  }

  lemma ReachedIsGood(s: State)
    requires Reached(s) && WalksHold(s.log)
    ensures forall r :: r in s.readers ==> Good(s.log, r)
  {
    hide Good, Next, WalksHold;
    var states, steps :| IsRun(states, steps) && states[|states|-1] == s;
    ReadersStayGood(states, steps, |states| - 1);
  }

  // A frame of 256 packets and sixteen of one packet are enough for a reader to miss one.
  lemma ReaderMayMiss() returns (s: State, r: Reader)
    ensures Reached(s) && |s.log| == 271 && r in s.readers && Missed(s.log, r)
  {
    hide Reached, OverWalks, WalksHold, Missed;
    var log := LocksBreakByWalk();
    WalksHoldAfterPut(log, LAST_PACKET);
    s, r := ReaderMisses(log + [LAST_PACKET]);
  }

  // ---------- Waiting ----------

  // A reader only ever starts to wait for the number the very next put writes, and
  // then finds it as long as the writer is at most KEPT numbers past it.
  lemma WaitsForNextPut(log: seq<Entry>, num: nat, a: Attempt, e: Entry, more: seq<Entry>, lo: nat)
    requires MayCome(log, num, a) && a.Awaiting?
    requires lo + KEPT <= NextNum(log + [e] + more)
    ensures a.num == NextNum(log)
    ensures NextNum(log + [e] + more) <= a.num + KEPT ==>
              PollOutcome(log + [e] + more, lo, a.num) == Serving(log + [e] + more, |log|)
  {
    hide Base, FirstAt, IframeNum, WalksHold, LocksHold, DueOutcome, TryOutcome, Behind;
    var log' := log + [e] + more;
    assert log' == log + ([e] + more);
    NumOfPrefix(log, [e] + more, |log|);
    NumIsWritten(log', |log|);
  }

  // Over every run a reader that waits is served, by its next poll or by the first one
  // after the next put, exactly if its number was not recycled.
  lemma AwaitingReaderIsServedIff(states: seq<State>, steps: seq<Step>, n: nat, i: nat, e: Entry)
    requires IsRun(states, steps) && n < |states|
    requires i < |states[n].readers| && states[n].readers[i].awaiting
    ensures var s := states[n];
            var log, num := s.log, s.readers[i].num;
            s.lastN <= num && Written(log, num) <==> PollOutcome(log, s.lastN, num).Delivered?
    ensures var s := states[n];
            var log, num := s.log, s.readers[i].num;
            s.lastN <= num <==>
              || PollOutcome(log, s.lastN, num).Delivered?
              || PollOutcome(log + [e], TailAfter(log, s.lastN), num).Delivered?
  {
    hide Base, FirstAt, Num, IframeNum, TailAfter, InOrder, Kept, IsRun;
    var s := states[n];
    var log, r := s.log, s.readers[i];
    ReadersStaySteady(states, steps, n);
    CacheIsKept(states, steps, n);
    TailIsKept(s);
    assert Steady(log, r);
    TailAfterLaw(log, s.lastN, e);
    WrittenAfterPut(log, e, r.num);
  }

  // A reader that sleeps until its number is recycled waits for ever: nothing that
  // happens later serves it.
  lemma {:induction false} OversleptReaderIsStuck(states: seq<State>, steps: seq<Step>, n: nat, m: nat, i: nat)
    requires IsRun(states, steps) && n <= m < |states|
    requires i < |states[n].readers|
    requires states[n].readers[i].awaiting && states[n].readers[i].num < states[n].lastN
    ensures i < |states[m].readers| && states[m].readers[i] == states[n].readers[i]
    ensures states[n].lastN <= states[m].lastN
  {
    hide FirstAt, Num, Base, AfterTry, Attached, TailAfter, Comes, PutsTo, CacheLaw;
    if n < m {
      OversleptReaderIsStuck(states, steps, n, m - 1, i);
      assert Next(states[m-1], steps[m-1], states[m]);
      CacheIsKept(states, steps, m - 1);
      StepKeepsCache(states[m-1], steps[m-1], states[m]);
    }
  }

  // ---------- A run in which a reader oversleeps ----------

  // A reader attaches to an empty cache and waits; as it sleeps, 32 frames of one packet
  // are put.
  const FRAMES := 32

  function SleptLog(m: nat): seq<Entry> {
    Packets(m, LAST_PACKET)
  }

  function SleptTail(m: nat): nat {
    if m < FRAMES then FRAME_OFFSET * m else FRAME_BUF_SIZE + 1
  }

  const SLEEPER := Reader(FRAME_BUF_SIZE, true, false, 0, [], [], [])

  lemma {:induction false} SleptNum(m: nat, i: nat)
    requires i <= m
    ensures Num(SleptLog(m), i) == FRAME_BUF_SIZE + FRAME_OFFSET * i
  {
    if i > 0 {
      SleptNum(m, i - 1);
      NextBlock(i - 1);
    }
  }

  lemma NextBlock(i: nat)
    ensures Base(FRAME_BUF_SIZE + FRAME_OFFSET * i) == FRAME_BUF_SIZE + FRAME_OFFSET * i
    ensures Base(FRAME_OFFSET * i) == FRAME_OFFSET * i
  {
  }

  // Every put moves the tail over one empty block, and the last one takes the first packet.
  lemma SleptTailMoves(m: nat)
    requires m < FRAMES
    ensures TailAfter(SleptLog(m), SleptTail(m)) == SleptTail(m + 1)
  {
    var log, lo := SleptLog(m), SleptTail(m);
    hide Num, Base, FirstAt, Written;
    SleptNum(m, m);
    SleptNum(m, 0);
    NextBlock(m);
    FirstWritten(log, lo);
    FirstWritten(log, lo + FRAME_OFFSET);
    NumIsWritten(log, 0);
    assert NextNum(log) == lo + FRAME_BUF_SIZE;
    assert AdvancedTail(log, lo + FRAME_OFFSET) == lo + FRAME_OFFSET;
    assert AdvancedTail(log, lo) == lo + FRAME_OFFSET;
  }

  lemma FirstWritten(log: seq<Entry>, m: nat)
    ensures m < FRAME_BUF_SIZE ==> !Written(log, m)
  {
    if Written(log, m) {
      WrittenBelowNext(log, m);
    }
  }

  lemma FirstWaits()
    ensures !Attached([]).awaiting && Comes(map[], [], Attached([]).num, Awaiting(FRAME_BUF_SIZE))
    ensures AfterTry([], Attached([]), Awaiting(FRAME_BUF_SIZE)) == SLEEPER
  {
    assert Base(FRAME_BUF_SIZE) == FRAME_BUF_SIZE;
  }

  lemma {:induction false} SleptReached(m: nat) returns (s: State)
    requires m <= FRAMES
    ensures Reached(s) && s.log == SleptLog(m) && s.lastN == SleptTail(m) && s.readers == [SLEEPER]
  {
    hide Reached, TailAfter, Attached, AfterTry, Comes, PutsTo;
    if m == 0 {
      StartReached();
      var attached := START.(readers := [Attached([])]);
      StepReaches(START, Attach, attached);
      FirstWaits();
      s := START.(readers := [SLEEPER]);
      StepReaches(attached, Try(0, Awaiting(FRAME_BUF_SIZE)), s);
    } else {
      var before := SleptReached(m - 1);
      var end;
      s, end := PutReaches(before, LAST_PACKET);
      SleptTailMoves(m - 1);
      assert SleptLog(m - 1) + [LAST_PACKET] == SleptLog(m);
    }
  }

  // So a reader can come to be stuck.
  lemma ReaderMayOversleep() returns (s: State)
    ensures Reached(s) && s.readers == [SLEEPER] && s.readers[0].awaiting
    ensures Written(s.log, s.readers[0].num) && s.readers[0].num < s.lastN
  {
    hide Reached, Num;
    s := SleptReached(FRAMES);
    NumIsWritten(SleptLog(FRAMES), 0);
    SleptNum(FRAMES, 0);
  }
}
