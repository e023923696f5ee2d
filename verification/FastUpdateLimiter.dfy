// The limit on fast update requests (VFU) from one H.323 party.
//
// Times are in milliseconds.  The setting of the party, "Disable" or "limit/interval" with
// the interval in seconds, is given as a value and does not change.

module FastUpdateLimiter {

  datatype Delay = Disabled | Rate(limit: nat, seconds: nat)

  // The window that is open: when it began, and how many requests it has had.
  datatype Window = Window(begin: nat, count: nat)

  predicate Limits(delay: Delay) {
    delay.Rate? && delay.limit > 0 && delay.seconds > 0
  }

  function Interval(delay: Delay): nat
    requires delay.Rate?
  {
    delay.seconds * 1000
  }

  // The request at now belongs to the open window, or opens one.
  function NextWindow(delay: Delay, w: Window, now: nat): Window
    requires delay.Rate?
  {
    if now < w.begin + Interval(delay) then w.(count := w.count + 1) else Window(now, 1)
  }

  // The window after the requests at these times.
  function WindowAfter(delay: Delay, times: seq<nat>): Window
    requires delay.Rate?
  {
    if times == [] then Window(0, 0)
    else NextWindow(delay, WindowAfter(delay, times[..|times|-1]), times[|times|-1])
  }

  // Whether the last of these requests is accepted.
  predicate AcceptsLast(delay: Delay, times: seq<nat>)
    requires delay.Rate?
  {
    WindowAfter(delay, times).count <= delay.limit
  }

  predicate InOrder(times: seq<nat>) {
    forall i, j :: 0 <= i <= j < |times| ==> times[i] <= times[j]
  }

  // How many requests were accepted from t on, up to, not including, t + span.
  function Accepted(delay: Delay, times: seq<nat>, t: nat, span: nat): nat
    requires delay.Rate?
  {
    if times == [] then 0
    else
      Accepted(delay, times[..|times|-1], t, span) +
      if AcceptsLast(delay, times) && t <= times[|times|-1] < t + span then 1 else 0
  }

  // How many requests there were from t on.
  function RequestsSince(times: seq<nat>, t: nat): nat {
    if times == [] then 0
    else RequestsSince(times[..|times|-1], t) + if t <= times[|times|-1] then 1 else 0
  }

  function Min(a: nat, b: nat): nat {
    if a <= b then a else b
  }

  // ---------- Windows ----------

  // The window began at or before the last request, and its count is the number of
  // requests since it began.  So a request is accepted exactly if it is one of the
  // first requests, as many as the limit, since its window began.
  lemma {:induction false} WindowCountsSinceBegin(delay: Delay, times: seq<nat>)
    requires delay.Rate? && delay.seconds > 0 && InOrder(times)
    ensures var w := WindowAfter(delay, times);
            && w.count == RequestsSince(times, w.begin)
            && (times != [] ==> w.begin <= times[|times|-1] < w.begin + delay.seconds * 1000)
    ensures forall t :: times != [] && times[|times|-1] < t ==> RequestsSince(times, t) == 0
  {
    if times != [] {
      var before, now := times[..|times|-1], times[|times|-1];
      WindowCountsSinceBegin(delay, before);
      assert before != [] ==> before[|before|-1] <= now;
    }
  }

  // A window accepts its first requests, as many as the limit, and no more.
  lemma {:induction false} WindowAcceptsToLimit(delay: Delay, times: seq<nat>)
    requires Limits(delay) && InOrder(times)
    ensures var w := WindowAfter(delay, times);
            Accepted(delay, times, w.begin, delay.seconds * 1000) == Min(w.count, delay.limit)
    ensures forall t :: times != [] && times[|times|-1] < t ==> Accepted(delay, times, t, delay.seconds * 1000) == 0
  {
    if times != [] {
      var before, now := times[..|times|-1], times[|times|-1];
      WindowAcceptsToLimit(delay, before);
      WindowCountsSinceBegin(delay, before);
      assert before != [] ==> before[|before|-1] <= now;
    }
  }

  // After a pause of one interval a request is accepted.
  lemma AcceptedAfterPause(delay: Delay, times: seq<nat>)
    requires delay.Rate? && delay.limit > 0 && delay.seconds > 0 && InOrder(times) && |times| >= 2
    requires times[|times|-1] >= times[|times|-2] + delay.seconds * 1000
    ensures AcceptsLast(delay, times)
  {
    WindowCountsSinceBegin(delay, times[..|times|-1]);
  }

  // ---------- Any span of one interval ----------

  // A party whose first request comes within one interval of time 0 has one more.
  function Early(delay: Delay, times: seq<nat>): nat
    requires delay.Rate?
  {
    if times != [] && times[0] < Interval(delay) then 1 else 0
  }

  // How many requests can have been accepted from t on, as the open window is w.
  function Bound(delay: Delay, w: Window, t: nat, early: nat): nat
    requires Limits(delay)
  {
    var m := Min(w.count, delay.limit);
    if w.begin + Interval(delay) <= t then 0
    else if w.begin < t then (if m + early == 0 then 0 else m - 1 + early)
    else if w.begin == t then m
    else if w.begin < t + Interval(delay) then delay.limit - 1 + early + m
    else 2 * delay.limit - 1 + early
  }

  lemma BoundStep(delay: Delay, w: Window, now: nat, t: nat, early: nat)
    requires Limits(delay) && w.begin <= now && early <= 1
    requires w.count == 0 ==> w.begin == 0 && (now < Interval(delay) <==> early == 1)
    ensures var w' := NextWindow(delay, w, now);
            Bound(delay, w, t, early) + (if w'.count <= delay.limit && t <= now < t + Interval(delay) then 1 else 0)
            <= Bound(delay, w', t, early)
  {
  }

  lemma {:induction false} AcceptedWithinBound(delay: Delay, times: seq<nat>, t: nat, early: nat)
    requires Limits(delay) && InOrder(times) && early <= 1 && (times != [] ==> early == Early(delay, times))
    ensures Accepted(delay, times, t, Interval(delay)) <= Bound(delay, WindowAfter(delay, times), t, early)
  {
    hide Bound;
    if times != [] {
      var before, now := times[..|times|-1], times[|times|-1];
      AcceptedWithinBound(delay, before, t, early);
      WindowCountsSinceBegin(delay, before);
      assert before != [] ==> before[|before|-1] <= now;
      BoundStep(delay, WindowAfter(delay, before), now, t, early);
    }
  }

  // Any span of one interval has fewer than twice the limit of accepted requests; or no
  // more than that, for a party with its first request within one interval of time 0.
  lemma SpanAcceptsAtMost(delay: Delay, times: seq<nat>, t: nat)
    requires delay.Rate? && delay.limit > 0 && delay.seconds > 0 && InOrder(times)
    ensures Accepted(delay, times, t, delay.seconds * 1000) <=
            2 * delay.limit - if times != [] && times[0] < delay.seconds * 1000 then 0 else 1
  {
    AcceptedWithinBound(delay, times, t, Early(delay, times));
  }

  // ---------- The bound is reached ----------

  function Repeat(now: nat, n: nat): (times: seq<nat>)
    ensures |times| == n && forall i :: 0 <= i < n ==> times[i] == now
  {
    seq(n, i => now)
  }

  // Requests in the open window that the limit has room for.
  lemma {:induction false} RepeatIsAccepted(delay: Delay, times: seq<nat>, now: nat, n: nat, t: nat)
    requires Limits(delay)
    requires var w := WindowAfter(delay, times); now < w.begin + Interval(delay) && w.count + n <= delay.limit
    requires t <= now < t + Interval(delay)
    ensures var w := WindowAfter(delay, times);
            WindowAfter(delay, times + Repeat(now, n)) == w.(count := w.count + n)
    ensures Accepted(delay, times + Repeat(now, n), t, Interval(delay)) ==
            Accepted(delay, times, t, Interval(delay)) + n
    decreases n
  {
    if n == 0 {
      assert times + Repeat(now, 0) == times;
    } else {
      RepeatIsAccepted(delay, times, now, n - 1, t);
      var times' := times + Repeat(now, n);
      assert times'[..|times'|-1] == times + Repeat(now, n - 1);
    }
  }

  // Requests that begin a window, and those after it at the same time.
  lemma RepeatInNewWindow(delay: Delay, times: seq<nat>, now: nat, n: nat, t: nat)
    requires Limits(delay) && WindowAfter(delay, times).begin + Interval(delay) <= now
    requires 1 <= n <= delay.limit && t <= now < t + Interval(delay)
    ensures Accepted(delay, times + Repeat(now, n), t, Interval(delay)) ==
            Accepted(delay, times, t, Interval(delay)) + n
  {
    var first := times + [now];
    assert first[..|first|-1] == times;
    RepeatIsAccepted(delay, first, now, n - 1, t);
    assert first + Repeat(now, n - 1) == times + Repeat(now, n);
  }

  // For every limit and interval there are requests that reach the bound, both of a party
  // that is early and of one that is not.
  lemma SpanBoundIsReached(delay: Delay, early: nat) returns (times: seq<nat>, t: nat)
    requires delay.Rate? && delay.limit > 0 && delay.seconds > 0 && early <= 1
    ensures InOrder(times) && (early == 1 <==> times != [] && times[0] < delay.seconds * 1000)
    ensures Accepted(delay, times, t, delay.seconds * 1000) == 2 * delay.limit - 1 + early
  {
    if early == 1 {
      times, t := ReachedEarly(delay);
    } else {
      times, t := ReachedLater(delay);
    }
  }

  lemma NoneYet(delay: Delay, t: nat)
    requires delay.Rate?
    ensures WindowAfter(delay, []) == Window(0, 0) && Accepted(delay, [], t, Interval(delay)) == 0
  {
  }

  lemma FirstOfLater(delay: Delay)
    requires Limits(delay)
    ensures var i := Interval(delay);
            WindowAfter(delay, [i]) == Window(i, 1) && Accepted(delay, [i], i + 1, i) == 0
  {
    assert [Interval(delay)][..0] == [];
  }

  lemma ReachedEarly(delay: Delay) returns (times: seq<nat>, t: nat)
    requires Limits(delay)
    ensures InOrder(times) && Early(delay, times) == 1
    ensures Accepted(delay, times, t, Interval(delay)) == 2 * delay.limit
  {
    hide Accepted, WindowAfter;
    var i, n := Interval(delay), delay.limit;
    t := i - 1;
    NoneYet(delay, t);
    var window := [] + Repeat(i - 1, n);
    RepeatIsAccepted(delay, [], i - 1, n, t);
    RepeatInNewWindow(delay, window, i, n, t);
    times := window + Repeat(i, n);
  }

  lemma ReachedLater(delay: Delay) returns (times: seq<nat>, t: nat)
    requires Limits(delay)
    ensures InOrder(times) && Early(delay, times) == 0
    ensures Accepted(delay, times, t, Interval(delay)) == 2 * delay.limit - 1
  {
    hide Accepted, WindowAfter;
    var i, n := Interval(delay), delay.limit;
    t := i + 1;
    FirstOfLater(delay);
    var window := [i] + Repeat(2 * i - 1, n - 1);
    RepeatIsAccepted(delay, [i], 2 * i - 1, n - 1, t);
    RepeatInNewWindow(delay, window, 2 * i, n, t);
    times := window + Repeat(2 * i, n);
  }

  // ---------- The connection ----------

  class MCUH323Connection {
    const delay: Delay
    var vfuBeginTime: nat
    var vfuInterval: nat
    var vfuLimit: nat
    var vfuCount: nat
    var vfuTotalCount: nat

    // The times of all requests so far.
    ghost var times: seq<nat>

    ghost predicate Valid()
      reads this
    {
      && InOrder(times)
      && (Limits(delay) ==> Window(vfuBeginTime, vfuCount) == WindowAfter(delay, times) && vfuTotalCount == |times|)
    }

    constructor (delay: Delay)
      ensures Valid() && this.delay == delay && times == []
    {
      this.delay := delay;
      vfuBeginTime, vfuInterval, vfuLimit, vfuCount, vfuTotalCount := 0, 0, 0, 0, 0;
      times := [];
    }

    // Whether the request is passed on, and how many there were in the window before if
    // those were too many.
    method CheckVFU(now: nat) returns (accepted: bool, tooMany: nat)
      requires Valid() && (times != [] ==> times[|times|-1] <= now)
      modifies this
      ensures Valid() && times == old(times) + [now]
      // with a limit or an interval of zero every request is passed on, but with both none
      ensures accepted <==>
              if delay.Disabled? then true
              else if delay.limit > 0 && delay.seconds > 0 then AcceptsLast(delay, times)
              else delay.limit > 0 || delay.seconds > 0
      ensures tooMany > 0 <==>
                && delay.Rate? && delay.limit > 0 && delay.seconds > 0
                && !AcceptsLast(delay, old(times)) && vfuBeginTime == now && vfuCount == 1
      ensures tooMany > 0 ==> tooMany == old(vfuCount)
    {
      tooMany := 0;
      times := times + [now];
      assert times[..|times|-1] == old(times);
      if delay.Disabled? {
        return true, 0;
      }
      if delay == Rate(0, 0) {
        return false, 0;
      }
      vfuLimit := delay.limit;
      vfuInterval := delay.seconds;
      if vfuLimit == 0 || vfuInterval == 0 {
        return true, 0;
      }
      vfuTotalCount := vfuTotalCount + 1;
      if now < vfuBeginTime + vfuInterval * 1000 {
        vfuCount := vfuCount + 1;
      } else {
        if vfuCount > vfuLimit {
          tooMany := vfuCount;
        }
        vfuBeginTime := now;
        vfuCount := 1;
      }
      accepted := vfuCount <= vfuLimit;
    }
  }
}
