// The adaptive silence detector of a conference member.
//
// Levels are those after conversion to the logarithmic scale, at most 255.  The highest
// threshold that the conference sets, VAlevel, is given with each level.

module SilenceDetector {

  const UINT_MAX := 0xFFFF_FFFF
  const DEADBAND_FRAMES := 2
  const ADAPTIVE_FRAMES := 7
  const MAX_LEVEL := 255

  datatype Detector = Detector(threshold: nat, inTalkBurst: bool, frameCounter: nat,
                               signalMinimum: nat, silenceMaximum: nat, signalFrames: nat, silenceFrames: nat)

  const INITIAL := Detector(0, false, 0, UINT_MAX, 0, 0, 0)

  function Min(a: nat, b: nat): nat {
    if a <= b then a else b
  }

  // ---------- One level ----------

  predicate HasSignal(d: Detector, level: nat) {
    d.threshold != 0 && level > d.threshold
  }

  // The level speaks against the state that the detector is in.
  predicate Against(d: Detector, level: nat) {
    d.inTalkBurst != HasSignal(d, level)
  }

  predicate Swaps(d: Detector, level: nat) {
    Against(d, level) && d.frameCounter + 1 >= DEADBAND_FRAMES
  }

  function Restarted(d: Detector): Detector {
    d.(signalMinimum := UINT_MAX, silenceMaximum := 0, signalFrames := 0, silenceFrames := 0)
  }

  function Turned(d: Detector, level: nat): Detector {
    if !Against(d, level) then d.(frameCounter := 0)
    else if Swaps(d, level) then Restarted(d.(frameCounter := d.frameCounter + 1, inTalkBurst := !d.inTalkBurst))
    else d.(frameCounter := d.frameCounter + 1)
  }

  function Counted(d: Detector, level: nat, signal: bool): Detector {
    if signal then d.(signalMinimum := Min(level, d.signalMinimum), signalFrames := d.signalFrames + 1)
    else d.(silenceMaximum := if level > d.silenceMaximum then level else d.silenceMaximum,
            silenceFrames := d.silenceFrames + 1)
  }

  predicate WindowIsOver(d: Detector) {
    d.signalFrames + d.silenceFrames > ADAPTIVE_FRAMES
  }

  // The threshold after a window.
  function Adapted(d: Detector, vaLevel: nat): int {
    if d.signalFrames >= ADAPTIVE_FRAMES then
      var delta := (d.signalMinimum - d.threshold) / 4;
      if delta == 0 then d.threshold
      else if d.threshold + delta > vaLevel then vaLevel
      else d.threshold + delta
    else if d.silenceFrames >= ADAPTIVE_FRAMES then
      var lower := (d.threshold + d.silenceMaximum) / 2 + 1;
      if d.threshold > lower then Min(lower, vaLevel) else d.threshold
    else if d.signalFrames > d.silenceFrames then d.threshold + 1
    else d.threshold
  }

  // ---------- What holds over every run ----------

  function SignalCount(window: seq<nat>, threshold: nat): (n: nat)
    ensures n <= |window|
  {
    if window == [] then 0
    else SignalCount(window[..|window|-1], threshold) + if window[|window|-1] > threshold then 1 else 0
  }

  function LeastSignal(window: seq<nat>, threshold: nat): nat {
    if window == [] then UINT_MAX
    else
      var least, level := LeastSignal(window[..|window|-1], threshold), window[|window|-1];
      if level > threshold then Min(level, least) else least
  }

  function GreatestSilence(window: seq<nat>, threshold: nat): nat {
    if window == [] then 0
    else
      var greatest, level := GreatestSilence(window[..|window|-1], threshold), window[|window|-1];
      if level > threshold || level < greatest then greatest else level
  }

  // The levels counted since the window began: those above the threshold as signal, the
  // others as silence.
  predicate Measures(d: Detector, window: seq<nat>) {
    && d.signalFrames == SignalCount(window, d.threshold)
    && d.silenceFrames == |window| - SignalCount(window, d.threshold)
    && d.signalMinimum == LeastSignal(window, d.threshold)
    && d.silenceMaximum == GreatestSilence(window, d.threshold)
  }

  predicate AreLevels(window: seq<nat>) {
    forall i :: 0 <= i < |window| ==> window[i] <= MAX_LEVEL
  }

  predicate Valid(d: Detector, window: seq<nat>) {
    && d.threshold <= MAX_LEVEL && Measures(d, window) && AreLevels(window) && |window| <= ADAPTIVE_FRAMES
    && (d.threshold == 0 ==> !d.inTalkBurst && window == [])
  }

  // The least signal and the greatest silence of a window, of which n levels are signal.
  predicate IsSummary(window: seq<nat>, threshold: nat, n: nat, least: nat, greatest: nat) {
    && (forall i :: 0 <= i < |window| ==>
          if window[i] > threshold then least <= window[i] else window[i] <= greatest)
    && n <= |window|
    && (if n > 0 then least in window && threshold < least <= MAX_LEVEL else least == UINT_MAX)
    && (if n < |window| then greatest in window && greatest <= threshold else greatest == 0)
  }

  lemma SummaryOfOneMore(window: seq<nat>, threshold: nat, n: nat, least: nat, greatest: nat, level: nat)
    requires IsSummary(window, threshold, n, least, greatest) && level <= MAX_LEVEL
    ensures if level > threshold then IsSummary(window + [level], threshold, n + 1, Min(level, least), greatest)
            else IsSummary(window + [level], threshold, n, least, if level < greatest then greatest else level)
  {
    assert forall x :: x in window + [level] <==> x in window || x == level;
  }

  // The least signal and the greatest silence are levels of the window, if it has any.
  lemma {:induction false} LeastAndGreatest(window: seq<nat>, threshold: nat)
    requires AreLevels(window)
    ensures IsSummary(window, threshold, SignalCount(window, threshold), LeastSignal(window, threshold),
                      GreatestSilence(window, threshold))
  {
    if window != [] {
      hide IsSummary;
      var before, level := window[..|window|-1], window[|window|-1];
      LeastAndGreatest(before, threshold);
      SummaryOfOneMore(before, threshold, SignalCount(before, threshold), LeastSignal(before, threshold),
                       GreatestSilence(before, threshold), level);
      assert window == before + [level];
    }
  }

  // The window with one more level, before it is looked at whether it is over.
  function NextWindow(d: Detector, window: seq<nat>, level: nat): seq<nat> {
    (if Swaps(d, level) then [] else window) + [level]
  }

  predicate SignalAbove(d: Detector) {
    d.signalFrames > 0 ==> d.signalMinimum > d.threshold
  }

  function Detect(d: Detector, level: nat, vaLevel: nat): Detector
    requires SignalAbove(d)
  {
    var turned := Turned(d, level);
    if d.threshold == 0 then
      if level > 1 then turned.(threshold := Min(level, vaLevel)) else turned
    else
      var counted := Counted(turned, level, HasSignal(d, level));
      if WindowIsOver(counted) then Restarted(counted.(threshold := Adapted(counted, vaLevel)))
      else counted
  }

  lemma SignalIsAbove(d: Detector, window: seq<nat>)
    requires Valid(d, window)
    ensures SignalAbove(d)
  {
    LeastAndGreatest(window, d.threshold);
  }

  // The window after a level: empty again when it was over.
  function WindowAfter(d: Detector, window: seq<nat>, level: nat): seq<nat> {
    if d.threshold == 0 then []
    else
      var next := NextWindow(d, window, level);
      if |next| > ADAPTIVE_FRAMES then [] else next
  }

  lemma CountOne(d: Detector, window: seq<nat>, level: nat)
    requires Measures(d, window) && d.threshold > 0
    ensures Measures(Counted(d, level, HasSignal(d, level)), window + [level])
  {
    var next := window + [level];
    assert next[..|next|-1] == window;
  }

  lemma TurnedMeasures(d: Detector, window: seq<nat>, level: nat)
    requires Measures(d, window)
    ensures Measures(Turned(d, level), if Swaps(d, level) then [] else window)
    ensures HasSignal(Turned(d, level), level) == HasSignal(d, level)
  {
  }

  lemma AdaptedStays(d: Detector, vaLevel: nat)
    requires 1 <= d.threshold <= MAX_LEVEL && vaLevel >= 1 && d.silenceMaximum <= d.threshold
    requires d.signalFrames > 0 ==> d.threshold < d.signalMinimum <= MAX_LEVEL
    ensures 1 <= Adapted(d, vaLevel) <= MAX_LEVEL
  {
  }

  lemma RestartedMeasures(d: Detector)
    ensures Measures(Restarted(d), [])
  {
  }

  // The threshold, once set, stays from 1 up to the highest level; and in each window the
  // levels counted as signal are those above it, the others counted as silence.
  lemma DetectKeepsValid(d: Detector, window: seq<nat>, level: nat, vaLevel: nat)
    requires Valid(d, window) && level <= MAX_LEVEL && vaLevel >= 1
    ensures SignalAbove(d)
    ensures var d' := Detect(d, level, vaLevel);
            Valid(d', WindowAfter(d, window, level)) && (d.threshold >= 1 ==> d'.threshold >= 1)
  {
    hide Adapted, Measures, HasSignal;
    SignalIsAbove(d, window);
    if d.threshold > 0 {
      var before := if Swaps(d, level) then [] else window;
      TurnedMeasures(d, window, level);
      CountOne(Turned(d, level), before, level);
      CloseKeepsValid(Counted(Turned(d, level), level, HasSignal(d, level)), before + [level], vaLevel);
    } else {
      DetectAtStart(d, level, vaLevel);
    }
  }

  // The end of a window, if it is over.
  lemma CloseKeepsValid(c: Detector, window: seq<nat>, vaLevel: nat)
    requires 1 <= c.threshold <= MAX_LEVEL && vaLevel >= 1
    requires Measures(c, window) && AreLevels(window) && |window| <= ADAPTIVE_FRAMES + 1
    ensures if WindowIsOver(c) then
              |window| > ADAPTIVE_FRAMES && 1 <= Adapted(c, vaLevel) &&
              Valid(Restarted(c.(threshold := Adapted(c, vaLevel))), [])
            else
              |window| <= ADAPTIVE_FRAMES && Valid(c, window)
  {
    hide Adapted;
    LeastAndGreatest(window, c.threshold);
    AdaptedStays(c, vaLevel);
    if WindowIsOver(c) {
      RestartedMeasures(c.(threshold := Adapted(c, vaLevel)));
    }
  }

  lemma DetectAtStart(d: Detector, level: nat, vaLevel: nat)
    requires Valid(d, []) && d.threshold == 0 && level <= MAX_LEVEL
    ensures Valid(Detect(d, level, vaLevel), [])
  {
  }

  // ---------- What a window does to the threshold ----------

  // With no or one silent level the threshold goes a quarter of the way to the least
  // signal, but not above vaLevel; with no or one signal level it goes down to one more
  // than half way to the greatest silence; with five or six signal levels it goes up by
  // one; or else it stays.
  function ThresholdAfter(window: seq<nat>, t: nat, vaLevel: nat): int {
    var n, least, greatest := SignalCount(window, t), LeastSignal(window, t), GreatestSilence(window, t);
    if n >= 7 then
      if least - t < 4 then t else Min(t + (least - t) / 4, vaLevel)
    else if n <= 1 then
      var lower := (t + greatest) / 2 + 1;
      if lower < t then Min(lower, vaLevel) else t
    else if n >= 5 then t + 1
    else t
  }

  lemma ThresholdLaw(d: Detector, window: seq<nat>, level: nat, vaLevel: nat)
    requires Valid(d, window) && level <= MAX_LEVEL && vaLevel >= 1 && d.threshold > 0
    ensures SignalAbove(d)
    ensures var w := NextWindow(d, window, level);
            Detect(d, level, vaLevel).threshold ==
            if |w| > ADAPTIVE_FRAMES then ThresholdAfter(w, d.threshold, vaLevel) else d.threshold
  {
    hide Measures, HasSignal, ThresholdAfter, Adapted;
    SignalIsAbove(d, window);
    var before := if Swaps(d, level) then [] else window;
    TurnedMeasures(d, window, level);
    CountOne(Turned(d, level), before, level);
    AdaptedLaw(Counted(Turned(d, level), level, HasSignal(d, level)), before + [level], vaLevel);
  }

  lemma AdaptedLaw(c: Detector, window: seq<nat>, vaLevel: nat)
    requires 1 <= c.threshold <= MAX_LEVEL && vaLevel >= 1
    requires Measures(c, window) && AreLevels(window) && |window| <= ADAPTIVE_FRAMES + 1
    ensures WindowIsOver(c) <==> |window| > ADAPTIVE_FRAMES
    ensures WindowIsOver(c) ==> Adapted(c, vaLevel) == ThresholdAfter(window, c.threshold, vaLevel)
  {
    hide SignalCount, LeastSignal, GreatestSilence;
    LeastAndGreatest(window, c.threshold);
  }

  // What that makes of the threshold t, in the terms of the levels themselves: seven or eight
  // levels above it raise it by a quarter of what the least of them is over it, five or six
  // by one, seven or eight at or below it bring it to more than the middle between it and
  // the greatest of them, by at most one; and no other window changes it.
  lemma WindowMovesThreshold(window: seq<nat>, t: nat, vaLevel: nat, signals: nat, least: nat, greatest: nat)
    requires AreLevels(window) && |window| == 8 && 0 < t <= vaLevel
    requires IsSummary(window, t, signals, least, greatest) && signals == SignalCount(window, t)
    ensures var t' := ThresholdAfter(window, t, vaLevel);
            && (signals >= 7 ==> t <= t' <= vaLevel && 4 * (t' - t) <= least - t)
            && (signals >= 7 && t' < vaLevel ==> least - t < 4 * (t' - t) + 4)
            && (5 <= signals <= 6 ==> t' == t + 1)
            && (2 <= signals <= 4 ==> t' == t)
            && (signals <= 1 ==> greatest < t' <= t || t' == t == greatest)
            && (signals <= 1 && t' < t ==> t + greatest < 2 * t' <= t + greatest + 2)
            && (signals <= 1 && greatest + 2 < t ==> t' < t)
  {
    SummaryIsUnique(window, t, signals, least, greatest);
    hide SignalCount, LeastSignal, GreatestSilence, IsSummary;
    SummaryBounds(window, t, signals, least, greatest);
  }

  lemma SummaryIsUnique(window: seq<nat>, t: nat, n: nat, least: nat, greatest: nat)
    requires AreLevels(window) && IsSummary(window, t, n, least, greatest) && n == SignalCount(window, t)
    ensures least == LeastSignal(window, t) && greatest == GreatestSilence(window, t)
  {
    hide SignalCount, LeastSignal, GreatestSilence;
    LeastAndGreatest(window, t);
  }

  lemma SummaryBounds(window: seq<nat>, t: nat, n: nat, least: nat, greatest: nat)
    requires IsSummary(window, t, n, least, greatest) && |window| == 8
    ensures n > 0 ==> t < least
    ensures n < 8 ==> greatest <= t
  {
  }

  // Only the step by one does not look at vaLevel: a threshold no greater than vaLevel
  // becomes greater exactly when it is equal to it and a window ends with five or six
  // signal levels.
  lemma ThresholdPassesLimitIff(d: Detector, window: seq<nat>, level: nat, vaLevel: nat)
    requires Valid(d, window) && level <= MAX_LEVEL && 0 < d.threshold <= vaLevel
    ensures SignalAbove(d)
    ensures var w := NextWindow(d, window, level);
            Detect(d, level, vaLevel).threshold > vaLevel <==>
            d.threshold == vaLevel && |w| > ADAPTIVE_FRAMES && 5 <= SignalCount(w, d.threshold) <= 6
  {
    hide Detect, SignalCount, LeastSignal, GreatestSilence, NextWindow, Valid;
    ThresholdLaw(d, window, level, vaLevel);
    ThresholdIsSet(d, window);
  }

  lemma ThresholdIsSet(d: Detector, window: seq<nat>)
    requires Valid(d, window)
    ensures d.threshold <= MAX_LEVEL
  {
  }

  // ---------- Swapping between talk and silence ----------

  // The state is swapped exactly by a second level in turn that speaks against it.
  lemma SwapsAtSecondAgainst(d: Detector, first: nat, second: nat, vaLevel: nat)
    requires SignalAbove(d) && SignalAbove(Detect(d, first, vaLevel))
    ensures var d1 := Detect(d, first, vaLevel);
            Detect(d1, second, vaLevel).inTalkBurst != d1.inTalkBurst <==> Against(d, first) && Against(d1, second)
  {
  }

  // But the count goes on after a swap: the next level swaps back at once if it speaks
  // against the new state.
  lemma NextAfterSwapSwapsBackIff(d: Detector, first: nat, second: nat, vaLevel: nat)
    requires SignalAbove(d) && SignalAbove(Detect(d, first, vaLevel))
    requires Detect(d, first, vaLevel).inTalkBurst != d.inTalkBurst
    ensures var d1 := Detect(d, first, vaLevel);
            Detect(d1, second, vaLevel).inTalkBurst == d.inTalkBurst <==> Against(d1, second)
  {
    SwapsAtSecondAgainst(d, first, second, vaLevel);
  }

  // ---------- Runs ----------

  // The detector and its window after these levels.
  function DetectAll(d: Detector, window: seq<nat>, levels: seq<nat>, vaLevel: nat): (r: (Detector, seq<nat>))
    requires Valid(d, window) && AreLevels(levels) && vaLevel >= 1
    ensures Valid(r.0, r.1) && (d.threshold >= 1 ==> r.0.threshold >= 1)
  {
    hide Valid, Detect;
    if levels == [] then (d, window)
    else
      var (d1, window1) := DetectAll(d, window, levels[..|levels|-1], vaLevel);
      DetectKeepsValid(d1, window1, levels[|levels|-1], vaLevel);
      (Detect(d1, levels[|levels|-1], vaLevel), WindowAfter(d1, window1, levels[|levels|-1]))
  }

  // A new member stays silent and without a threshold for as long as no level is above 1; the
  // first one that is becomes the threshold, but no more than vaLevel, and the member is
  // still silent.
  lemma {:induction false} FirstLoudLevelIsThreshold(quiet: seq<nat>, level: nat, vaLevel: nat)
    requires (forall i :: 0 <= i < |quiet| ==> quiet[i] <= 1) && 1 < level <= MAX_LEVEL && vaLevel >= 1
    ensures Valid(INITIAL, []) && AreLevels(quiet) && AreLevels(quiet + [level])
    ensures var (d, window) := DetectAll(INITIAL, [], quiet, vaLevel);
            d.threshold == 0 && !d.inTalkBurst && window == []
    ensures var (d, window) := DetectAll(INITIAL, [], quiet + [level], vaLevel);
            d.threshold == (if level <= vaLevel then level else vaLevel) && !d.inTalkBurst && window == []
  {
    InitialIsValid();
    QuietLevels(quiet, vaLevel);
    assert (quiet + [level])[..|quiet|] == quiet;
    var (d, window) := DetectAll(INITIAL, [], quiet, vaLevel);
    DetectKeepsValid(d, window, level, vaLevel);
    SilentWithoutThreshold(d, level, vaLevel);
  }

  lemma InitialIsValid()
    ensures Valid(INITIAL, [])
  {
  }

  lemma {:induction false} QuietLevels(quiet: seq<nat>, vaLevel: nat)
    requires Valid(INITIAL, []) && vaLevel >= 1 && forall i :: 0 <= i < |quiet| ==> quiet[i] <= 1
    ensures AreLevels(quiet)
    ensures var (d, window) := DetectAll(INITIAL, [], quiet, vaLevel);
            d.threshold == 0 && !d.inTalkBurst && window == []
  {
    hide Valid;
    if quiet != [] {
      var n := |quiet| - 1;
      QuietLevels(quiet[..n], vaLevel);
      var (d, window) := DetectAll(INITIAL, [], quiet[..n], vaLevel);
      DetectKeepsValid(d, window, quiet[n], vaLevel);
      SilentWithoutThreshold(d, quiet[n], vaLevel);
    }
  }

  lemma SilentWithoutThreshold(d: Detector, level: nat, vaLevel: nat)
    requires SignalAbove(d) && d.threshold == 0 && !d.inTalkBurst
    ensures !Detect(d, level, vaLevel).inTalkBurst
    ensures Detect(d, level, vaLevel).threshold ==
            if level <= 1 then 0 else if level <= vaLevel then level else vaLevel
  {
  }

  lemma {:induction false} DetectAllAppend(d: Detector, window: seq<nat>, a: seq<nat>, b: seq<nat>, vaLevel: nat)
    requires Valid(d, window) && AreLevels(a) && AreLevels(b) && vaLevel >= 1
    ensures AreLevels(a + b)
    ensures var r := DetectAll(d, window, a, vaLevel);
            DetectAll(d, window, a + b, vaLevel) == DetectAll(r.0, r.1, b, vaLevel)
    decreases |b|
  {
    hide Valid, Detect, WindowAfter;
    if b == [] {
      assert a + b == a;
    } else {
      var front := b[..|b|-1];
      DetectAllAppend(d, window, a, front, vaLevel);
      assert (a + b)[..|a + b| - 1] == a + front;
      var r := DetectAll(d, window, a, vaLevel);
      DetectKeepsValid(DetectAll(r.0, r.1, front, vaLevel).0, DetectAll(r.0, r.1, front, vaLevel).1, b[|b|-1], vaLevel);
    }
  }

  // ---------- Silence for many windows ----------

  predicate AllAtMost(levels: seq<nat>, s: nat) {
    forall i :: 0 <= i < |levels| ==> levels[i] <= s
  }

  function Lowered(t: nat, s: nat, vaLevel: nat): nat {
    var lower := (t + s) / 2 + 1;
    if lower < t then Min(lower, vaLevel) else t
  }

  // How far the threshold is above s + 2.
  function Over(t: nat, s: nat): nat {
    if t <= s + 2 then 0 else t - s - 2
  }

  lemma LoweredHalves(t: nat, s: nat, vaLevel: nat)
    requires s < t && s < vaLevel
    ensures s < Lowered(t, s, vaLevel) <= t
    ensures Over(Lowered(t, s, vaLevel), s) <= Over(t, s) / 2
  {
  }

  // Levels at or below the threshold: the window fills, and nothing else changes.
  lemma {:induction false} SilencePart(d: Detector, levels: seq<nat>, vaLevel: nat)
    requires Valid(d, []) && AreLevels(levels) && vaLevel >= 1 && d.threshold > 0 && !d.inTalkBurst
    requires AllAtMost(levels, d.threshold) && |levels| <= ADAPTIVE_FRAMES
    ensures var (d', window) := DetectAll(d, [], levels, vaLevel);
            window == levels && d'.threshold == d.threshold && !d'.inTalkBurst
  {
    hide Valid;
    if levels != [] {
      var n := |levels| - 1;
      SilencePart(d, levels[..n], vaLevel);
      var (d1, window1) := DetectAll(d, [], levels[..n], vaLevel);
      SilentLevel(d1, window1, levels[n], vaLevel);
      assert levels == levels[..n] + [levels[n]];
    }
  }

  lemma SilentLevel(d: Detector, window: seq<nat>, level: nat, vaLevel: nat)
    requires Valid(d, window) && vaLevel >= 1 && d.threshold > 0 && !d.inTalkBurst && level <= MAX_LEVEL
    requires level <= d.threshold
    ensures SignalAbove(d) && NextWindow(d, window, level) == window + [level]
    ensures var d' := Detect(d, level, vaLevel);
            && !d'.inTalkBurst
            && d'.threshold == if |window| < ADAPTIVE_FRAMES then d.threshold
                               else ThresholdAfter(window + [level], d.threshold, vaLevel)
  {
    hide ThresholdAfter, Measures;
    ThresholdLaw(d, window, level, vaLevel);
  }

  lemma {:induction false} NoSignal(window: seq<nat>, t: nat)
    requires AllAtMost(window, t)
    ensures SignalCount(window, t) == 0
  {
    if window != [] {
      NoSignal(window[..|window|-1], t);
    }
  }

  // A silent window with greatest level s.
  predicate IsSilentWindow(levels: seq<nat>, s: nat) {
    |levels| == ADAPTIVE_FRAMES + 1 && AllAtMost(levels, s) && s in levels
  }

  lemma SilentWindow(d: Detector, levels: seq<nat>, s: nat, vaLevel: nat)
    requires Valid(d, []) && !d.inTalkBurst && AreLevels(levels) && IsSilentWindow(levels, s)
    requires s < d.threshold && s < vaLevel
    ensures var (d', window) := DetectAll(d, [], levels, vaLevel);
            window == [] && !d'.inTalkBurst && d'.threshold == Lowered(d.threshold, s, vaLevel)
  {
    hide Valid;
    var n := |levels| - 1;
    SilencePart(d, levels[..n], vaLevel);
    var (d1, window1) := DetectAll(d, [], levels[..n], vaLevel);
    SilentLevel(d1, window1, levels[n], vaLevel);
    assert levels == levels[..n] + [levels[n]];
    NoSignal(levels, d.threshold);
    LeastAndGreatest(levels, d.threshold);
  }

  function Joined(windows: seq<seq<nat>>): seq<nat> {
    if windows == [] then [] else Joined(windows[..|windows|-1]) + windows[|windows|-1]
  }

  function Halved(n: nat, times: nat): nat {
    if times == 0 then n else Halved(n, times - 1) / 2
  }

  // Silent windows with greatest level s, one after the other, from the start of a window.
  lemma {:induction false} SilentWindows(d: Detector, windows: seq<seq<nat>>, s: nat, vaLevel: nat)
    requires Valid(d, []) && !d.inTalkBurst && s < d.threshold && s < vaLevel
    requires forall i :: 0 <= i < |windows| ==> IsSilentWindow(windows[i], s)
    ensures AreLevels(Joined(windows))
    ensures var (d', window) := DetectAll(d, [], Joined(windows), vaLevel);
            && window == [] && !d'.inTalkBurst && s < d'.threshold
            && Over(d'.threshold, s) <= Halved(Over(d.threshold, s), |windows|)
  {
    hide Valid, Lowered, Over;
    if windows != [] {
      var n := |windows| - 1;
      SilentWindows(d, windows[..n], s, vaLevel);
      var d1 := DetectAll(d, [], Joined(windows[..n]), vaLevel).0;
      SilentLevelsAreLevels(d, windows[n], s);
      DetectAllAppend(d, [], Joined(windows[..n]), windows[n], vaLevel);
      SilentWindow(d1, windows[n], s, vaLevel);
      LoweredHalves(d1.threshold, s, vaLevel);
    }
  }

  lemma SilentLevelsAreLevels(d: Detector, levels: seq<nat>, s: nat)
    requires Valid(d, []) && s < d.threshold && IsSilentWindow(levels, s)
    ensures AreLevels(levels)
  {
  }

  // ---------- From talk, or from inside a window, to silence ----------

  function Repeat(level: nat, n: nat): (levels: seq<nat>)
    ensures |levels| == n && forall i :: 0 <= i < n ==> levels[i] == level
  {
    seq(n, _ => level)
  }

  // How many silent levels it takes to end a talk burst and the window.
  function LeadIn(d: Detector, window: seq<nat>): (n: nat)
    ensures n <= 9
  {
    if d.inTalkBurst then (if d.frameCounter > 0 then 8 else 9)
    else if 0 < |window| <= ADAPTIVE_FRAMES then ADAPTIVE_FRAMES + 1 - |window|
    else 0
  }

  lemma ThresholdStaysAbove(window: seq<nat>, t: nat, s: nat, vaLevel: nat)
    requires AreLevels(window) && s in window && s < t && s < vaLevel
    ensures s < ThresholdAfter(window, t, vaLevel)
  {
    hide SignalCount, LeastSignal, GreatestSilence;
    LeastAndGreatest(window, t);
    var i :| 0 <= i < |window| && window[i] == s;
  }

  // One level s at or below the threshold.
  lemma SilentStep(d: Detector, window: seq<nat>, s: nat, vaLevel: nat)
    requires Valid(d, window) && s < d.threshold && s < vaLevel
    ensures SignalAbove(d) && s <= MAX_LEVEL
    ensures var d', w := Detect(d, s, vaLevel), if Swaps(d, s) then [s] else window + [s];
            && s < d'.threshold
            && (Swaps(d, s) <==> d.inTalkBurst && d.frameCounter > 0)
            && d'.inTalkBurst == (d.inTalkBurst && d.frameCounter == 0)
            && (d.inTalkBurst ==> d'.frameCounter > 0)
            && WindowAfter(d, window, s) == if |w| > ADAPTIVE_FRAMES then [] else w
  {
    hide ThresholdAfter, Measures;
    ThresholdLaw(d, window, s, vaLevel);
    var w := NextWindow(d, window, s);
    assert s in w && AreLevels(w);
    ThresholdStaysAbove(w, d.threshold, s, vaLevel);
  }

  // One level and then others.
  lemma OneThenOthers(d: Detector, window: seq<nat>, s: nat, n: nat, vaLevel: nat)
    requires Valid(d, window) && s <= MAX_LEVEL && vaLevel >= 1 && n > 0
    ensures SignalAbove(d) && Valid(Detect(d, s, vaLevel), WindowAfter(d, window, s))
    ensures DetectAll(d, window, Repeat(s, n), vaLevel) ==
            DetectAll(Detect(d, s, vaLevel), WindowAfter(d, window, s), Repeat(s, n - 1), vaLevel)
  {
    hide Valid, Detect, WindowAfter;
    DetectKeepsValid(d, window, s, vaLevel);
    assert [s][..0] == [];
    assert DetectAll(d, window, [s], vaLevel) == (Detect(d, s, vaLevel), WindowAfter(d, window, s));
    DetectAllAppend(d, window, [s], Repeat(s, n - 1), vaLevel);
    assert [s] + Repeat(s, n - 1) == Repeat(s, n);
  }

  // As many levels s as are called for end the talk burst and the window, and leave the
  // threshold above s.
  lemma {:induction false} LeadInSettles(d: Detector, window: seq<nat>, s: nat, vaLevel: nat)
    requires Valid(d, window) && s < d.threshold && s < vaLevel
    ensures AreLevels(Repeat(s, LeadIn(d, window)))
    ensures var (d', w) := DetectAll(d, window, Repeat(s, LeadIn(d, window)), vaLevel);
            w == [] && !d'.inTalkBurst && s < d'.threshold
    decreases LeadIn(d, window)
  {
    hide Detect, Measures, DetectAll;
    var n := LeadIn(d, window);
    if n > 0 {
      SilentStep(d, window, s, vaLevel);
      OneThenOthers(d, window, s, n, vaLevel);
      LeadInSettles(Detect(d, s, vaLevel), WindowAfter(d, window, s), s, vaLevel);
    } else {
      NoLevels(d, window, vaLevel);
    }
  }

  lemma NoLevels(d: Detector, window: seq<nat>, vaLevel: nat)
    requires Valid(d, window) && vaLevel >= 1
    ensures DetectAll(d, window, Repeat(0, 0), vaLevel) == (d, window)
  {
  }

  // From any state, after a lead-in of at most nine levels s, silent windows with greatest
  // level s, one after the other: the threshold stays above s, and with each window what it
  // is over s + 2 is at least halved.
  lemma SilenceLowersThreshold(d: Detector, window: seq<nat>, windows: seq<seq<nat>>, s: nat, vaLevel: nat)
    requires Valid(d, window) && s < d.threshold && s < vaLevel
    requires forall i :: 0 <= i < |windows| ==> IsSilentWindow(windows[i], s)
    ensures var lead := Repeat(s, LeadIn(d, window));
            && AreLevels(lead) && AreLevels(lead + Joined(windows))
            && var d0, (d', w) :=
                 DetectAll(d, window, lead, vaLevel).0, DetectAll(d, window, lead + Joined(windows), vaLevel);
               && w == [] && !d'.inTalkBurst && s < d'.threshold
               && Over(d'.threshold, s) <= Halved(Over(d0.threshold, s), |windows|)
  {
    hide Valid, Over, LeadIn;
    var lead := Repeat(s, LeadIn(d, window));
    LeadInSettles(d, window, s, vaLevel);
    SilentWindows(DetectAll(d, window, lead, vaLevel).0, windows, s, vaLevel);
    DetectAllAppend(d, window, lead, Joined(windows), vaLevel);
  }

  // So eight silent windows bring any threshold down to at most s + 2, where it stays; and
  // none bring it to s.
  lemma EightSilentWindows(d: Detector, window: seq<nat>, windows: seq<seq<nat>>, s: nat, vaLevel: nat)
    requires Valid(d, window) && s < d.threshold && s < vaLevel && |windows| >= 8
    requires forall i :: 0 <= i < |windows| ==> IsSilentWindow(windows[i], s)
    ensures var levels := Repeat(s, LeadIn(d, window)) + Joined(windows);
            AreLevels(levels) && s < DetectAll(d, window, levels, vaLevel).0.threshold <= s + 2
  {
    hide LeadIn, Measures;
    SilenceLowersThreshold(d, window, windows, s, vaLevel);
    HalvedAway(Over(DetectAll(d, window, Repeat(s, LeadIn(d, window)), vaLevel).0.threshold, s), |windows|);
  }

  lemma {:induction false} HalvedAway(n: nat, times: nat)
    requires n <= MAX_LEVEL && times >= 8
    ensures Halved(n, times) == 0
  {
    if times == 8 {
      assert Halved(n, 1) <= 127;
      assert Halved(n, 2) <= 63;
      assert Halved(n, 3) <= 31;
      assert Halved(n, 4) <= 15;
      assert Halved(n, 5) <= 7;
      assert Halved(n, 6) <= 3;
    } else {
      HalvedAway(n, times - 1);
    }
  }

  // ---------- The member ----------

  // Before the threshold is set, the member is silent.
  lemma SilentAtStart(d: Detector, window: seq<nat>, level: nat)
    requires Valid(d, window)
    ensures d.threshold == 0 ==> !Turned(d, level).inTalkBurst
  {
  }

  lemma ManySignalsAbove(d: Detector, level: nat)
    requires SignalAbove(d)
    ensures var c := Counted(Turned(d, level), level, HasSignal(d, level));
            c.signalFrames >= ADAPTIVE_FRAMES ==> c.signalMinimum > c.threshold
  {
  }

  class ConferenceMember {
    var inTalkBurst: bool
    var silenceDetectorFrameCounter: nat
    var signalDetectorThreshold: nat
    var signalMinimum: nat
    var silenceMaximum: nat
    var signalFramesReceived: nat
    var silenceFramesReceived: nat

    // The levels since the measurement was last restarted.
    ghost var window: seq<nat>

    ghost function State(): Detector
      reads this
    {
      Detector(signalDetectorThreshold, inTalkBurst, silenceDetectorFrameCounter, signalMinimum, silenceMaximum,
               signalFramesReceived, silenceFramesReceived)
    }

    constructor ()
      ensures State() == INITIAL && window == [] && Valid(State(), window)
    {
      inTalkBurst, silenceDetectorFrameCounter, signalDetectorThreshold := false, 0, 0;
      signalMinimum, silenceMaximum, signalFramesReceived, silenceFramesReceived := UINT_MAX, 0, 0, 0;
      window := [];
    }

    // Whether the member is silent.
    method DetectSilence(level: nat, vaLevel: nat) returns (silent: bool)
      requires Valid(State(), window) && level <= MAX_LEVEL && vaLevel >= 1
      modifies this
      ensures Valid(State(), window)
      ensures SignalAbove(old(State())) && State() == Detect(old(State()), level, vaLevel)
      ensures window == WindowAfter(old(State()), old(window), level)
      ensures silent == !inTalkBurst
    {
      hide Valid, Restarted, Adapted;
      DetectKeepsValid(State(), window, level, vaLevel);
      SilentAtStart(State(), window, level);
      ManySignalsAbove(State(), level);
      window := WindowAfter(State(), window, level);
      var haveSignal := signalDetectorThreshold != 0 && level > signalDetectorThreshold;
      Turn(level, haveSignal);
      if signalDetectorThreshold == 0 {
        if level > 1 {
          signalDetectorThreshold := Min(level, vaLevel);
        }
        return true;
      }
      Count(level, haveSignal);
      if signalFramesReceived + silenceFramesReceived > ADAPTIVE_FRAMES {
        Adapt(vaLevel);
        Restart();
      }
      return !inTalkBurst;
    }

    method Turn(level: nat, haveSignal: bool)
      requires haveSignal == HasSignal(State(), level)
      modifies `inTalkBurst, `silenceDetectorFrameCounter, `signalMinimum, `silenceMaximum, `signalFramesReceived,
               `silenceFramesReceived
      ensures State() == Turned(old(State()), level)
    {
      if inTalkBurst == haveSignal {
        silenceDetectorFrameCounter := 0;
      } else {
        silenceDetectorFrameCounter := silenceDetectorFrameCounter + 1;
        if silenceDetectorFrameCounter >= DEADBAND_FRAMES {
          inTalkBurst := !inTalkBurst;
          Restart();
        }
      }
    }

    method Count(level: nat, haveSignal: bool)
      modifies `signalMinimum, `silenceMaximum, `signalFramesReceived, `silenceFramesReceived
      ensures State() == Counted(old(State()), level, haveSignal)
    {
      if haveSignal {
        if level < signalMinimum {
          signalMinimum := level;
        }
        signalFramesReceived := signalFramesReceived + 1;
      } else {
        if level > silenceMaximum {
          silenceMaximum := level;
        }
        silenceFramesReceived := silenceFramesReceived + 1;
      }
    }

    method Restart()
      modifies `signalMinimum, `silenceMaximum, `signalFramesReceived, `silenceFramesReceived
      ensures State() == Restarted(old(State()))
    {
      signalMinimum, silenceMaximum, signalFramesReceived, silenceFramesReceived := UINT_MAX, 0, 0, 0;
    }

    method Adapt(vaLevel: nat)
      requires signalFramesReceived >= ADAPTIVE_FRAMES ==> signalMinimum > signalDetectorThreshold
      modifies `signalDetectorThreshold
      ensures signalDetectorThreshold == Adapted(old(State()), vaLevel)
    {
      if signalFramesReceived >= ADAPTIVE_FRAMES {
        var delta := (signalMinimum - signalDetectorThreshold) / 4;
        if delta != 0 {
          signalDetectorThreshold := signalDetectorThreshold + delta;
          if signalDetectorThreshold > vaLevel {
            signalDetectorThreshold := vaLevel;
          }
        }
      } else if silenceFramesReceived >= ADAPTIVE_FRAMES {
        var newThreshold := (signalDetectorThreshold + silenceMaximum) / 2 + 1;
        if signalDetectorThreshold > newThreshold {
          signalDetectorThreshold := Min(newThreshold, vaLevel);
        }
      } else if signalFramesReceived > silenceFramesReceived {
        signalDetectorThreshold := signalDetectorThreshold + 1;
      }
    }
  }
}
