// The ring of web events, and the cursors of the pages that read it.
//
// Reading the array of events behind its end gives an empty string, as PStringArray does.
// A page that starts while the write index is at the last slot reads there: the test for
// the end of the ring is off by one.

module EventRing {
  import opened Arithmetic
  import opened RingSlots

  // ---------- What a reader is shown of an event ----------

  const TAB := '\t'
  const SCRIPT := "<script>"

  // The first tab, or the length if there is none.
  function FindTab(s: string): (pos: nat)
    ensures pos <= |s| && TAB !in s[..pos] && (pos < |s| ==> s[pos] == TAB)
  {
    if s == [] || s[0] == TAB then 0 else
      var pos := 1 + FindTab(s[1..]);
      assert s[..pos] == [s[0]] + s[1..][..pos - 1];
      pos
  }

  predicate StartsAt(s: string, i: nat, pattern: string) {
    i + |pattern| <= |s| && s[i..i + |pattern|] == pattern
  }

  predicate Contains(s: string, pattern: string) {
    exists i: nat :: i <= |s| && StartsAt(s, i, pattern)
  }

  // An event before a tab is for one room; a reader of all rooms is shown it as well.
  function Shown(event: string, room: string): string {
    var pos := FindTab(event);
    if pos == |event| then event
    else if room == "" || event[..pos] == room then event[pos + 1..]
    else ""
  }

  // A page that starts is not shown old commands.
  function Replayed(event: string, room: string): string {
    if Contains(event, SCRIPT) then "" else Shown(event, room)
  }

  // What a poll shows, or a page that starts to read.
  function Piece(event: string, room: string, replay: bool): string {
    if replay then Replayed(event, room) else Shown(event, room)
  }

  function Render(events: seq<string>, room: string, replay: bool): string {
    if events == [] then ""
    else Render(events[..|events|-1], room, replay) + Piece(events[|events|-1], room, replay)
  }

  function RoomEvent(room: string, text: string): string {
    room + [TAB] + text
  }

  function Command(text: string): string {
    "<script>p." + text + "</script>\n"
  }

  lemma {:induction false} FindFirstTab(s: string, t: string)
    requires TAB !in s
    ensures FindTab(s + [TAB] + t) == |s|
    ensures FindTab(s) == |s|
  {
    if s != [] {
      FindFirstTab(s[1..], t);
      assert (s + [TAB] + t)[1..] == s[1..] + [TAB] + t;
    }
  }

  // What is written to a room is shown, as it was written, to the readers of that room
  // and of all rooms, and to no other.
  lemma RoomEventShownIff(room: string, text: string, reader: string)
    requires TAB !in room
    ensures Shown(RoomEvent(room, text), reader) == if reader == "" || reader == room then text else ""
  {
    var event := RoomEvent(room, text);
    FindFirstTab(room, text);
    assert event[..|room|] == room && event[|room| + 1..] == text;
  }

  // What is written to all rooms is shown to every reader as it was written exactly when
  // it has no tab.
  lemma ShownToAllIff(event: string)
    ensures (forall reader :: Shown(event, reader) == event) <==> TAB !in event
  {
    var pos := FindTab(event);
    if TAB in event {
      assert event != event[..pos];
      assert |Shown(event, "")| < |event|;
    } else {
      FindFirstTab(event, "");
    }
  }

  // Commands, to a room or to all, are not replayed.
  lemma CommandsAreNotReplayed(room: string, text: string, reader: string)
    ensures Replayed(Command(text), reader) == ""
    ensures Replayed(RoomEvent(room, Command(text)), reader) == ""
  {
    assert StartsAt(Command(text), 0, SCRIPT);
    var event := RoomEvent(room, Command(text));
    assert event[|room| + 1..] == Command(text);
    assert StartsAt(event, |room| + 1, SCRIPT);
  }

  // ---------- What a reader is shown of several events ----------

  // An event as it is written: to all rooms or to one.
  datatype Event = ToAll(text: string) | ToRoom(room: string, text: string)

  predicate WellWritten(events: seq<Event>) {
    forall i :: 0 <= i < |events| ==> if events[i].ToAll? then TAB !in events[i].text else TAB !in events[i].room
  }

  function Lines(events: seq<Event>): (lines: seq<string>)
    ensures |lines| == |events|
  {
    seq(|events|, i requires 0 <= i < |events| =>
      if events[i].ToAll? then events[i].text else RoomEvent(events[i].room, events[i].text))
  }

  // A page that starts is not shown what has the script tag in it.
  predicate IsOmitted(e: Event, replay: bool) {
    replay && (Contains(e.text, SCRIPT) || (e.ToRoom? && Contains(e.room, SCRIPT)))
  }

  // Whom an event is for.
  predicate IsFor(e: Event, reader: string) {
    e.ToAll? || reader == "" || reader == e.room
  }

  // The texts of the events for a reader, as they were written, the oldest first.
  function Texts(events: seq<Event>, reader: string, replay: bool): string {
    if events == [] then ""
    else
      (if IsFor(events[0], reader) && !IsOmitted(events[0], replay) then events[0].text else "") +
      Texts(events[1..], reader, replay)
  }

  lemma Covers(s: string, i: nat, pattern: string, pos: nat)
    requires StartsAt(s, i, pattern)
    ensures i + |pattern| <= |s| && (i <= pos < i + |pattern| ==> s[pos] in pattern)
  {
    assert i <= pos < i + |pattern| ==> s[i..i + |pattern|][pos - i] == s[pos];
  }

  lemma StartsInPart(s: string, at: nat, n: nat, i: nat, pattern: string)
    requires at + n <= |s|
    ensures StartsAt(s[at..at + n], i, pattern) <==> i + |pattern| <= n && StartsAt(s, at + i, pattern)
  {
    if i + |pattern| <= n {
      var part := s[at..at + n];
      var piece, same := part[i..i + |pattern|], s[at + i..at + i + |pattern|];
      forall k | 0 <= k < |piece|
        ensures piece[k] == same[k]
      {
        assert part[i + k] == s[at + i + k];
      }
      assert piece == same;
    }
  }

  lemma ScriptInOnePart(s: string, pos: nat, i: nat)
    requires pos < |s| && s[pos] == TAB && StartsAt(s, i, SCRIPT)
    ensures if i < pos then StartsAt(s[0..pos], i, SCRIPT)
            else i > pos && StartsAt(s[pos + 1..|s|], i - pos - 1, SCRIPT)
  {
    assert TAB !in SCRIPT;
    Covers(s, i, SCRIPT, pos);
    hide StartsAt;
    if i < pos {
      StartsInPart(s, 0, pos, i, SCRIPT);
    } else {
      StartsInPart(s, pos + 1, |s| - pos - 1, i - pos - 1, SCRIPT);
    }
  }

  lemma PartsOf(s: string, t: string)
    ensures var whole := s + [TAB] + t;
            whole[|s|] == TAB && whole[0..|s|] == s && whole[|s| + 1..|whole|] == t
  {
  }

  // No occurrence of the script tag goes over a tab.
  lemma ScriptBesideTab(s: string, t: string)
    ensures Contains(s + [TAB] + t, SCRIPT) <==> Contains(s, SCRIPT) || Contains(t, SCRIPT)
  {
    hide StartsAt;
    var whole, n := s + [TAB] + t, |s| + 1;
    PartsOf(s, t);
    if i: nat :| i <= |whole| && StartsAt(whole, i, SCRIPT) {
      ScriptInOnePart(whole, |s|, i);
      assert if i < |s| then StartsAt(s, i, SCRIPT) else StartsAt(t, i - n, SCRIPT);
    }
    if i: nat :| i <= |s| && StartsAt(s, i, SCRIPT) {
      ScriptInPart(whole, 0, |s|, i);
    }
    if i: nat :| i <= |t| && StartsAt(t, i, SCRIPT) {
      ScriptInPart(whole, n, |t|, i);
    }
  }

  lemma ScriptInPart(s: string, at: nat, n: nat, i: nat)
    requires at + n <= |s| && i <= n && StartsAt(s[at..at + n], i, SCRIPT)
    ensures StartsAt(s, at + i, SCRIPT)
  {
    hide StartsAt;
    StartsInPart(s, at, n, i, SCRIPT);
  }

  // What is shown of one event: its text as it was written, to those it is for; a page that
  // starts is shown the same, but for what has the script tag.
  lemma EventIsShownIff(e: Event, reader: string, replay: bool)
    requires WellWritten([e])
    ensures Piece(Lines([e])[0], reader, replay) ==
            if IsFor(e, reader) && !IsOmitted(e, replay) then e.text else ""
  {
    hide Shown, Contains, FindTab;
    assert [e][0] == e;
    if e.ToAll? {
      ShownToAllIff(e.text);
    } else {
      RoomEventShownIff(e.room, e.text, reader);
      ScriptBesideTab(e.room, e.text);
    }
  }

  lemma {:induction false} TextsOfOneMore(events: seq<Event>, e: Event, reader: string, replay: bool)
    ensures Texts(events + [e], reader, replay) == Texts(events, reader, replay) + Texts([e], reader, replay)
  {
    hide IsFor, IsOmitted;
    if events == [] {
      assert [] + [e] == [e];
    } else {
      TextsOfOneMore(events[1..], e, reader, replay);
      assert (events + [e])[1..] == events[1..] + [e];
    }
  }

  lemma TextsOfOne(e: Event, reader: string, replay: bool)
    ensures Texts([e], reader, replay) == if IsFor(e, reader) && !IsOmitted(e, replay) then e.text else ""
  {
    hide IsFor, IsOmitted;
    assert Texts([e][1..], reader, replay) == "";
  }

  lemma LinesOfOneMore(events: seq<Event>, e: Event)
    ensures Lines(events + [e]) == Lines(events) + Lines([e])
  {
  }

  lemma RenderOneMore(events: seq<string>, line: seq<string>, reader: string, replay: bool)
    requires |line| == 1
    ensures Render(events + line, reader, replay) == Render(events, reader, replay) + Piece(line[0], reader, replay)
  {
    hide Piece;
    assert (events + line)[..|events|] == events;
  }

  // So several events are shown as their texts, the oldest first.
  lemma {:induction false} EventsAreShown(events: seq<Event>, reader: string, replay: bool)
    requires WellWritten(events)
    ensures Render(Lines(events), reader, replay) == Texts(events, reader, replay)
  {
    if events != [] {
      var before, e := events[..|events|-1], events[|events|-1];
      assert events == before + [e];
      EventsAreShown(before, reader, replay);
      EventIsShownIff(e, reader, replay);
      hide *;
      TextsOfOneMore(before, e, reader, replay);
      TextsOfOne(e, reader, replay);
      LinesOfOneMore(before, e);
      RenderOneMore(Lines(before), Lines([e]), reader, replay);
    }
  }

  // The result of a poll of a cursor at idx is the texts of the events since the poll before,
  // if they are fewer than the slots.
  ghost predicate ShowsNew(size: nat, log: seq<string>, idx: nat, room: string, result: string)
    requires size >= 1
  {
    forall p: nat, events: seq<Event> |
      p <= |log| && idx == Slot(p, size) && Lines(events) == log[p..] && WellWritten(events) && |events| < size ::
      result == Texts(events, room, false)
  }

  // The events are the last of the log, one fewer than the slots, or all if those are fewer.
  predicate AreLast(size: nat, log: seq<string>, events: seq<Event>) {
    && |events| <= |log| && Lines(events) == log[|log| - |events|..]
    && (|events| + 1 == size || (|events| == |log| && |log| < size))
  }

  // A page that starts is shown their texts.
  ghost predicate ShowsLast(size: nat, log: seq<string>, room: string, result: string) {
    forall events: seq<Event> | AreLast(size, log, events) && WellWritten(events) ::
      result == Texts(events, room, true)
  }

  // ---------- The ring as a window of the log ----------

  // The event at position p of the log; there are empty ones before the first.
  function EventAt(log: seq<string>, p: int): string {
    if 0 <= p < |log| then log[p] else ""
  }

  // The last n events, or all if there are fewer.
  function Last(log: seq<string>, n: nat): seq<string> {
    if n <= |log| then log[|log| - n..] else log
  }

  // How many slots there are from idx up and around to the write index; the slot behind
  // the end of the ring is as far as its first.
  function Behind(size: nat, index: nat, idx: nat): nat
    requires index < size && idx <= size
  {
    if idx == size then index else Ahead(idx, size, index)
  }

  function NextSlot(size: nat, idx: nat): nat {
    if idx + 1 >= size then 0 else idx + 1
  }

  // The ring holds the last events of the log in the slots before the write index, going
  // down and around; the slot behind its end is empty.
  predicate IsRing(size: nat, events: seq<string>, index: nat, log: seq<string>) {
    && index < size && |events| == size + 1 && events[size] == ""
    && forall i :: 0 <= i < size ==>
         events[i] == EventAt(log, |log| - if i == index then size else Ahead(i, size, index))
  }

  lemma WriteKeepsRing(size: nat, events: seq<string>, index: nat, log: seq<string>, event: string)
    requires IsRing(size, events, index, log)
    ensures IsRing(size, events[index := event], NextSlot(size, index), log + [event])
  {
  }

  // A cursor that has not reached the write index reads the event as far back in the log
  // as it is behind, and then is one event further.
  lemma CursorReads(size: nat, events: seq<string>, index: nat, log: seq<string>, idx: nat)
    requires IsRing(size, events, index, log) && idx < size && idx != index
    ensures events[idx] == EventAt(log, |log| - Behind(size, index, idx))
    ensures Behind(size, index, NextSlot(size, idx)) == Behind(size, index, idx) - 1
  {
  }

  // The slot behind the end of the ring shows nothing and leads to its first.
  lemma CursorAtEnd(size: nat, events: seq<string>, index: nat, log: seq<string>, room: string, replay: bool)
    requires IsRing(size, events, index, log)
    ensures Piece(events[size], room, replay) == ""
    ensures Behind(size, index, NextSlot(size, size)) == Behind(size, index, size)
  {
  }

  // Rendering of the log positions from a up to b.
  function RenderRange(log: seq<string>, a: int, b: int, room: string, replay: bool): string
    requires a <= b
    decreases b - a
  {
    if a == b then "" else RenderRange(log, a, b - 1, room, replay) + Piece(EventAt(log, b - 1), room, replay)
  }

  lemma {:induction false} NothingBeforeFirst(log: seq<string>, a: int, b: int, room: string, replay: bool)
    requires a <= b <= 0
    ensures RenderRange(log, a, b, room, replay) == ""
    decreases b - a
  {
    if a < b {
      NothingBeforeFirst(log, a, b - 1, room, replay);
    }
  }

  lemma {:induction false} RangeRendersSlice(log: seq<string>, a: int, b: nat, room: string, replay: bool)
    requires a <= b <= |log|
    ensures RenderRange(log, a, b, room, replay) == Render(log[if a < 0 then 0 else a..b], room, replay)
    decreases b
  {
    hide Piece;
    var from := if a < 0 then 0 else a;
    if b == 0 {
      NothingBeforeFirst(log, a, b, room, replay);
    } else if a < b {
      RangeRendersSlice(log, a, b - 1, room, replay);
      assert log[from..b][..b - from - 1] == log[from..b - 1];
    }
  }

  lemma LastIsRange(log: seq<string>, n: nat, room: string, replay: bool)
    ensures RenderRange(log, |log| - n, |log|, room, replay) == Render(Last(log, n), room, replay)
  {
    hide Piece, Render, RenderRange;
    RangeRendersSlice(log, |log| - n, |log|, room, replay);
    if n <= |log| {
      assert log[|log| - n..|log|] == log[|log| - n..];
    } else {
      assert log[0..|log|] == log;
    }
  }

  // ---------- Cursors over a run ----------

  lemma NextIndex(size: nat, n: nat)
    requires size >= 1
    ensures Slot(n + 1, size) == NextSlot(size, Slot(n, size))
  {
    var q, r := n / size, n % size;
    assert n == q * size + r;
    if r + 1 < size {
      DivModUnique(n + 1, size, q, r + 1);
    } else {
      assert (q + 1) * size == q * size + size;
      DivModUnique(n + 1, size, q + 1, 0);
    }
  }

  // A cursor that was at the write index when there were p events is, when there are n,
  // behind by their difference modulo the size.
  lemma CursorIsBehind(size: nat, p: nat, n: nat)
    requires size >= 1 && p <= n
    ensures Behind(size, Slot(n, size), Slot(p, size)) == (n - p) % size
  {
    hide Slot;
    var k: nat, x: nat := (n - p) / size, (n - p) % size;
    assert n == p + x + k * size;
    SlotAfterTurns(p + x, size, k);
    SlotAhead(p, size, x);
  }

  // So a poll shows exactly the events since the one before if they are fewer than the
  // ring has slots, and else misses some.
  lemma PollShowsNewIff(size: nat, log: seq<string>, p: nat)
    requires size >= 1 && p <= |log|
    ensures Last(log, Behind(size, Slot(|log|, size), Slot(p, size))) == log[p..] <==> |log| - p < size
  {
    var n := |log| - p;
    CursorIsBehind(size, p, |log|);
    if n < size {
      DivModUnique(n, size, 0, n);
    } else {
      assert |Last(log, n % size)| < |log[p..]|;
    }
  }

  lemma PollTexts(size: nat, log: seq<string>, idx: nat, room: string)
    requires idx < size
    ensures ShowsNew(size, log, idx, room, Render(Last(log, Behind(size, Slot(|log|, size), idx)), room, false))
  {
    hide Slot, Render, Texts, Last, Behind, WellWritten, Lines;
    var result := Render(Last(log, Behind(size, Slot(|log|, size), idx)), room, false);
    forall p: nat, events: seq<Event> |
      p <= |log| && idx == Slot(p, size) && Lines(events) == log[p..] && WellWritten(events) && |events| < size
      ensures result == Texts(events, room, false)
    {
      PollShowsNewIff(size, log, p);
      EventsAreShown(events, room, false);
    }
  }

  lemma StartTexts(size: nat, log: seq<string>, room: string)
    requires size >= 1
    ensures ShowsLast(size, log, room, Render(Last(log, size - 1), room, true))
  {
    hide Render, Texts, WellWritten, Lines;
    forall events: seq<Event> | AreLast(size, log, events) && WellWritten(events)
      ensures Render(Last(log, size - 1), room, true) == Texts(events, room, true)
    {
      EventsAreShown(events, room, true);
      assert log[|log| - |log|..] == log;
    }
  }

  // One turn of a reading loop.
  lemma ReadOne(size: nat, events: seq<string>, index: nat, log: seq<string>, n: nat, idx: nat, room: string,
                replay: bool, result: string)
    requires IsRing(size, events, index, log) && idx <= size && idx != index && Behind(size, index, idx) <= n
    requires result == RenderRange(log, |log| - n, |log| - Behind(size, index, idx), room, replay)
    ensures Behind(size, index, NextSlot(size, idx)) <= Behind(size, index, idx) - if idx < size then 1 else 0
    ensures result + Piece(events[idx], room, replay) ==
            RenderRange(log, |log| - n, |log| - Behind(size, index, NextSlot(size, idx)), room, replay)
  {
    hide Piece, Behind;
    if idx < size {
      CursorReads(size, events, index, log, idx);
    } else {
      CursorAtEnd(size, events, index, log, room, replay);
      assert result + "" == result;
    }
  }

  lemma ReadNone(log: seq<string>, a: int, room: string, replay: bool)
    ensures RenderRange(log, a, a, room, replay) == ""
  {
  }

  lemma AtIndex(size: nat, index: nat)
    requires index < size
    ensures Behind(size, index, index) == 0
  {
  }

  // Where a page starts to read.
  lemma StartIsBehind(size: nat, n: nat)
    requires size >= 1
    ensures var index := Slot(n, size);
            n >= size ==> Behind(size, index, index + 1) == size - 1
    ensures n < size ==> Slot(n, size) == n && Behind(size, n, 0) == n
  {
    if n < size {
      DivModUnique(n, size, 0, n);
    }
  }

  lemma LastAgrees(log: seq<string>, n: nat, m: nat)
    requires n == m || (n == |log| <= m)
    ensures Last(log, n) == Last(log, m)
  {
  }

  // ---------- The server ----------

  class OpenMCU {
    const httpBuffer: nat
    // One slot more than the ring has.
    const httpBufferedEvents: array<string>
    var httpBufferIndex: nat
    var httpBufferComplete: bool

    // Every event written so far.
    ghost var log: seq<string>

    ghost predicate Valid()
      reads this, httpBufferedEvents
    {
      && httpBuffer >= 1 && httpBufferIndex == Slot(|log|, httpBuffer)
      && (httpBufferComplete <==> |log| >= httpBuffer)
      && IsRing(httpBuffer, httpBufferedEvents[..], httpBufferIndex, log)
    }

    constructor (buffer: nat)
      requires buffer >= 1
      ensures Valid() && httpBuffer == buffer && log == [] && fresh(httpBufferedEvents)
    {
      httpBuffer := buffer;
      httpBufferedEvents := new string[buffer + 1](i => "");
      httpBufferIndex, httpBufferComplete := 0, false;
      log := [];
      new;
      DivModUnique(0, buffer, 0, 0);
    }

    lemma IndexInside()
      requires Valid()
      ensures httpBufferIndex < httpBuffer && httpBufferedEvents.Length == httpBuffer + 1
    {
    }

    method HttpWrite_(event: string)
      requires Valid()
      modifies this, httpBufferedEvents
      ensures Valid() && log == old(log) + [event]
    {
      hide IsRing, Slot;
      IndexInside();
      WriteKeepsRing(httpBuffer, httpBufferedEvents[..], httpBufferIndex, log, event);
      NextIndex(httpBuffer, |log|);
      CompleteIff(httpBuffer, |log|);
      httpBufferedEvents[httpBufferIndex] := event;
      httpBufferIndex := httpBufferIndex + 1;
      if httpBufferIndex >= httpBuffer {
        httpBufferIndex := 0;
        httpBufferComplete := true;
      }
      log := log + [event];
    }

    // One poll renders the last events, as many as the cursor is behind, and moves the
    // cursor to the write index.
    method HttpGetEvents(idx: nat, room: string) returns (result: string, idx': nat)
      requires Valid() && idx < httpBuffer
      ensures result == Render(Last(log, Behind(httpBuffer, httpBufferIndex, idx)), room, false)
      ensures idx' == httpBufferIndex
      ensures ShowsNew(httpBuffer, log, idx, room, result)
    {
      hide Render, Last, EventAt, IsRing, Behind, RenderRange, Slot, ShowsNew, ShowsLast;
      IndexInside();
      AtIndex(httpBuffer, httpBufferIndex);
      ghost var n := Behind(httpBuffer, httpBufferIndex, idx);
      ReadNone(log, |log| - n, room, false);
      LastIsRange(log, n, room, false);
      PollTexts(httpBuffer, log, idx, room);
      result, idx' := "", idx;
      while idx' != httpBufferIndex
        invariant idx' < httpBuffer && Behind(httpBuffer, httpBufferIndex, idx') <= n
        invariant result == RenderRange(log, |log| - n, |log| - Behind(httpBuffer, httpBufferIndex, idx'), room, false)
        decreases Behind(httpBuffer, httpBufferIndex, idx')
      {
        ReadOne(httpBuffer, httpBufferedEvents[..], httpBufferIndex, log, n, idx', room, false, result);
        result := result + Shown(httpBufferedEvents[idx'], room);
        idx' := idx' + 1;
        if idx' >= httpBuffer {
          idx' := 0;
        }
      }
    }

    // A page that starts is shown the last events but for commands, as many as the ring
    // keeps without the one that is overwritten next; its cursor is at the write index.
    method HttpStartEventReading(room: string) returns (result: string, idx: nat)
      requires Valid()
      ensures result == Render(Last(log, httpBuffer - 1), room, true)
      ensures idx == httpBufferIndex
      ensures ShowsLast(httpBuffer, log, room, result)
    {
      hide Render, Last, EventAt, IsRing, Behind, RenderRange, Slot, ShowsNew, ShowsLast;
      IndexInside();
      AtIndex(httpBuffer, httpBufferIndex);
      StartIsBehind(httpBuffer, |log|);
      result := "";
      if httpBufferComplete {
        var next: int := httpBufferIndex + 1;
        if next > httpBuffer {
          next := 0;
        }
        idx := next;
      } else {
        idx := 0;
      }
      ghost var n := Behind(httpBuffer, httpBufferIndex, idx);
      ReadNone(log, |log| - n, room, true);
      LastIsRange(log, n, room, true);
      LastAgrees(log, n, httpBuffer - 1);
      StartTexts(httpBuffer, log, room);
      while idx != httpBufferIndex
        invariant idx <= httpBuffer && Behind(httpBuffer, httpBufferIndex, idx) <= n
        invariant result == RenderRange(log, |log| - n, |log| - Behind(httpBuffer, httpBufferIndex, idx), room, true)
        decreases Behind(httpBuffer, httpBufferIndex, idx), idx
      {
        ReadOne(httpBuffer, httpBufferedEvents[..], httpBufferIndex, log, n, idx, room, true, result);
        ghost var seen := result;
        if !Contains(httpBufferedEvents[idx], SCRIPT) {
          result := result + Shown(httpBufferedEvents[idx], room);
        }
        assert result == seen + Piece(httpBufferedEvents[idx], room, true);
        idx := idx + 1;
        if idx >= httpBuffer {
          idx := 0;
        }
      }
    }
  }

  lemma CompleteIff(size: nat, n: nat)
    requires size >= 1
    ensures n + 1 >= size <==> n >= size || Slot(n, size) + 1 >= size
  {
    if n < size {
      DivModUnique(n, size, 0, n);
    }
  }
}
