// The two analyses of an event log: memory over time, and memory by stack trace.
module MemoryLog {
  import opened Basics
  import opened Slices
  import opened SliceSums
  import opened History
  import opened PyMemoryMap
  import Pages

  /** A log line becomes an event with its size rounded up to pages; a size that rounds to
      zero is an assertion failure of the parser. */
  function ParseLine(line: Event): (r: Option<Event>)
    ensures r.Some? <==> 0 < line.size
    ensures r.Some? ==> r.value == line.(size := r.value.size) && Pages.LeastMultiple(r.value.size, line.size, Pages.Pow2(Pages.PAGE_BITS))
  {
    Pages.PythonIsLeast(line.size);
    RoundsToZero(line.size);
    var rounded := Pages.PythonRoundUp(line.size);
    if rounded == 0 then None else Some(line.(size := rounded))
  }

  lemma RoundsToZero(size: nat)
    ensures Pages.PythonRoundUp(size) == 0 <==> size == 0
  {
    Pages.PythonIsLeast(size);
    assert Pages.Pow2(12) == 4096;
    if size == 0 {
      assert 0 == 0 * 4096;
      Pages.LeastUnique(Pages.PythonRoundUp(0), 0, 0, 4096);
    }
  }

  ghost function Parsed(log: seq<Event>): (r: seq<Event>)
    requires PositiveSizes(log)
    ensures |r| == |log| && PositiveSizes(r)
    ensures forall i | 0 <= i < |log| :: ParseLine(log[i]) == Some(r[i])
  {
    seq(|log|, i requires 0 <= i < |log| => ParseLine(log[i]).value)
  }

  ghost predicate OwnedIn(t: Table, start: int, end: int) {
    exists p :: start <= p < end && Owner(t, p).Some?
  }

  /** The event is one the replay accepts: an unmapping has to hit something. */
  ghost predicate Accepted(t: Table, e: Event) {
    e.UnmapEvent? ==> OwnedIn(t, e.pointer, e.pointer + e.size)
  }

  ghost predicate Replayable(events: seq<Event>) {
    forall i | 0 <= i < |events| :: Accepted(TableAfter(events[..i]), events[i])
  }

  datatype LogLine = LogLine(time: real, memory: int)

  /** The latest time seen so far, starting from zero. */
  ghost function LastTime(events: seq<Event>): real {
    if |events| == 0 then 0.0
    else
      var before := LastTime(events[..|events| - 1]);
      if events[|events| - 1].time > before then events[|events| - 1].time else before
  }

  ghost function Memory(events: seq<Event>, f: Filter): nat {
    |Accounted(TableAfter(events), f)|
  }

  /** The lines out after these events: one for each event that moves the time on. */
  ghost function Printed(events: seq<Event>, f: Filter): seq<LogLine> {
    if |events| == 0 then []
    else
      var before := events[..|events| - 1];
      Printed(before, f) +
      if events[|events| - 1].time > LastTime(before) then [LogLine(LastTime(before), Memory(before, f))] else []
  }

  ghost function FullLog(events: seq<Event>, f: Filter): seq<LogLine> {
    Printed(events, f) + [LogLine(LastTime(events), Memory(events, f))]
  }

  // --- What the lines mean --------------------------------------------------

  /** A line carries the memory after exactly the first `j` events: none of them is later than
      the line, and the next event is. */
  ghost predicate LineIsAt(events: seq<Event>, f: Filter, line: LogLine, j: int) {
    && 0 <= j <= |events|
    && line == LogLine(LastTime(events[..j]), Memory(events[..j], f))
    && (forall i | 0 <= i < j :: events[i].time <= line.time)
    && (j < |events| ==> line.time < events[j].time)
  }

  ghost predicate Placed(events: seq<Event>, f: Filter, line: LogLine, limit: int) {
    exists j :: j < limit && LineIsAt(events, f, line, j)
  }

  lemma {:induction false} LastTimeBounds(events: seq<Event>)
    ensures forall i | 0 <= i < |events| :: events[i].time <= LastTime(events)
    ensures 0.0 <= LastTime(events)
  {
    if |events| > 0 {
      var before := events[..|events| - 1];
      LastTimeBounds(before);
      forall i | 0 <= i < |events| ensures events[i].time <= LastTime(events) {
        assert i < |before| ==> events[i] == before[i];
      }
    }
  }

  lemma PlacedLater(events: seq<Event>, f: Filter, line: LogLine)
    requires |events| > 0 && Placed(events[..|events| - 1], f, line, |events| - 1)
    ensures Placed(events, f, line, |events|)
  {
    hide Memory, LastTime;
    var before := events[..|events| - 1];
    var j :| j < |before| && LineIsAt(before, f, line, j);
    assert before[..j] == events[..j];
    assert LineIsAt(events, f, line, j);
  }

  lemma {:induction false} PrintedMeaning(events: seq<Event>, f: Filter)
    ensures forall i, j | 0 <= i < j < |Printed(events, f)| :: Printed(events, f)[i].time < Printed(events, f)[j].time
    ensures forall i | 0 <= i < |Printed(events, f)| :: Printed(events, f)[i].time < LastTime(events)
    ensures forall i | 0 <= i < |Printed(events, f)| :: Placed(events, f, Printed(events, f)[i], |events|)
  {
    hide Memory, Placed;
    if |events| > 0 {
      var n := |events| - 1;
      var before := events[..n];
      PrintedMeaning(before, f);
      LastTimeBounds(before);
      forall i | 0 <= i < |Printed(events, f)| ensures Placed(events, f, Printed(events, f)[i], |events|) {
        if i < |Printed(before, f)| {
          PlacedLater(events, f, Printed(before, f)[i]);
        } else {
          LastPlaced(events, f);
        }
      }
    }
  }

  lemma LastPlaced(events: seq<Event>, f: Filter)
    requires |events| > 0
    requires var before := events[..|events| - 1]; events[|events| - 1].time > LastTime(before)
    ensures var before := events[..|events| - 1];
      Placed(events, f, LogLine(LastTime(before), Memory(before, f)), |events|)
  {
    hide Memory, LastTime;
    var before := events[..|events| - 1];
    LastTimeBounds(before);
    assert LineIsAt(events, f, LogLine(LastTime(before), Memory(before, f)), |events| - 1);
  }

  /** Times strictly increase, and every line carries the memory after all events before the
      next larger time; the last one after all events. */
  lemma LogMeaning(events: seq<Event>, f: Filter)
    ensures |FullLog(events, f)| > 0
    ensures forall i, j | 0 <= i < j < |FullLog(events, f)| :: FullLog(events, f)[i].time < FullLog(events, f)[j].time
    ensures forall i | 0 <= i < |FullLog(events, f)| :: Placed(events, f, FullLog(events, f)[i], |events| + 1)
    ensures LineIsAt(events, f, FullLog(events, f)[|FullLog(events, f)| - 1], |events|)
  {
    hide Memory, LastTime, Printed;
    PrintedMeaning(events, f);
    LastTimeBounds(events);
    assert events[..|events|] == events;
    var last := LogLine(LastTime(events), Memory(events, f));
    assert LineIsAt(events, f, last, |events|);
    forall i | 0 <= i < |FullLog(events, f)| ensures Placed(events, f, FullLog(events, f)[i], |events| + 1) {
      if i < |Printed(events, f)| {
        assert Placed(events, f, Printed(events, f)[i], |events|);
      }
    }
  }

  /** The latest time of these events, and zero for none. */
  ghost predicate IsLatest(events: seq<Event>, time: real) {
    && 0.0 <= time
    && (forall i | 0 <= i < |events| :: events[i].time <= time)
    && (time == 0.0 || exists i :: 0 <= i < |events| && events[i].time == time)
  }

  lemma {:induction false} LastTimeIsLatest(events: seq<Event>)
    ensures IsLatest(events, LastTime(events))
  {
    if |events| > 0 {
      var before := events[..|events| - 1];
      LastTimeIsLatest(before);
      if i :| 0 <= i < |before| && before[i].time == LastTime(before) {
        assert events[i].time == LastTime(before);
      }
    }
  }

  ghost predicate HasTime(lines: seq<LogLine>, time: real) {
    exists i :: 0 <= i < |lines| && lines[i].time == time
  }

  lemma {:induction false} TimesPrinted(events: seq<Event>, f: Filter, j: nat)
    requires j <= |events|
    ensures LastTime(events[..j]) == LastTime(events) || HasTime(Printed(events, f), LastTime(events[..j]))
  {
    hide Memory;
    var n := |events| - 1;
    if j <= n {
      var before := events[..n];
      assert before[..j] == events[..j];
      TimesPrinted(before, f, j);
      var more := Printed(events, f);
      if HasTime(Printed(before, f), LastTime(before[..j])) {
        var i :| 0 <= i < |Printed(before, f)| && Printed(before, f)[i].time == LastTime(before[..j]);
        assert more[i].time == LastTime(before[..j]);
      } else if LastTime(events) != LastTime(before) {
        assert more[|more| - 1].time == LastTime(before);
      }
    } else {
      assert events[..j] == events;
    }
  }

  /** No time is left out: whenever the events so far have a new latest time, there is a line for it. */
  lemma EveryTimeIsPrinted(events: seq<Event>, f: Filter, j: nat, time: real)
    requires j <= |events| && IsLatest(events[..j], time)
    ensures exists i :: 0 <= i < |FullLog(events, f)| && FullLog(events, f)[i].time == time
  {
    hide Printed, Memory, LastTime;
    LastTimeIsLatest(events[..j]);
    assert time == LastTime(events[..j]);
    TimesPrinted(events, f, j);
    var lines := FullLog(events, f);
    if time == LastTime(events) {
      assert lines[|lines| - 1].time == time;
    } else {
      var i :| 0 <= i < |Printed(events, f)| && Printed(events, f)[i].time == time;
      assert lines[i].time == time;
    }
  }

  // --- Memory over time -----------------------------------------------------

  datatype Outcome = Completed | AssertionFailed(line: nat)

  lemma ParsedStep(log: seq<Event>, i: nat)
    requires i < |log| && PositiveSizes(log[..i]) && 0 < log[i].size
    ensures PositiveSizes(log[..i + 1])
    ensures Parsed(log[..i + 1]) == Parsed(log[..i]) + [ParseLine(log[i]).value]
  {
    assert log[..i + 1] == log[..i] + [log[i]];
  }

  lemma AfterStep(events: seq<Event>, e: Event)
    ensures TableAfter(events + [e]) == Apply(TableAfter(events), Maps(events), e)
    ensures Maps(events + [e]) == Maps(events) + (if e.MapEvent? then 1 else 0)
    ensures LastTime(events + [e]) == if e.time > LastTime(events) then e.time else LastTime(events)
    ensures forall f :: Printed(events + [e], f) == (Printed(events, f) + (if e.time > LastTime(events) then [LogLine(LastTime(events), Memory(events, f))] else []))
  {
  }

  lemma ReplayableStep(events: seq<Event>, e: Event)
    requires Replayable(events)
    ensures Replayable(events + [e]) <==> Accepted(TableAfter(events), e)
  {
    hide TableAfter, Accepted;
    var all := events + [e];
    assert all[..|events|] == events;
    forall i | 0 <= i < |events| ensures Accepted(TableAfter(all[..i]), all[i]) {
      assert all[..i] == events[..i];
    }
  }

  ghost predicate Good(log: seq<Event>) {
    PositiveSizes(log) && Replayable(Parsed(log))
  }

  /** At its point of the log line `i`, rounded to pages, hits an address that is owned. */
  ghost predicate HitsOwned(log: seq<Event>, i: nat)
    requires PositiveSizes(log) && i < |log|
  {
    exists p :: log[i].pointer <= p < log[i].pointer + Pages.PythonRoundUp(log[i].size) && Owner(TableAfter(Parsed(log)[..i]), p).Some?
  }

  lemma AcceptedAt(log: seq<Event>, i: nat)
    requires PositiveSizes(log) && i < |log|
    ensures Accepted(TableAfter(Parsed(log)[..i]), Parsed(log)[i]) <==> (log[i].UnmapEvent? ==> HitsOwned(log, i))
  {
    hide Owner, TableAfter, Pages.PythonRoundUp;
    assert ParseLine(log[i]) == Some(Parsed(log)[i]);
  }

  /** A log is good when every size is positive and every unmapping hits something. */
  lemma GoodMeans(log: seq<Event>)
    ensures Good(log) <==>
      && (forall i | 0 <= i < |log| :: 0 < log[i].size)
      && (forall i | 0 <= i < |log| && log[i].UnmapEvent? :: HitsOwned(log, i))
  {
    hide TableAfter, Accepted, HitsOwned;
    if PositiveSizes(log) {
      var events := Parsed(log);
      forall i | 0 <= i < |log| ensures Accepted(TableAfter(events[..i]), events[i]) <==> (log[i].UnmapEvent? ==> HitsOwned(log, i)) {
        AcceptedAt(log, i);
      }
      if Replayable(events) {
        forall i | 0 <= i < |log| && log[i].UnmapEvent? ensures HitsOwned(log, i) {
          assert Accepted(TableAfter(events[..i]), events[i]);
        }
      }
    }
  }

  /** The replay runs through `log` and stops at its line `i`. */
  ghost predicate StopsAt(log: seq<Event>, i: nat) {
    i < |log| && Good(log[..i]) && !Good(log[..i + 1])
  }

  /** What is out when the replay stops at line `i`. A line that parses has already moved the time
      on when its event fails. */
  ghost function PrintedUntil(log: seq<Event>, i: nat, f: Filter): seq<LogLine>
    requires StopsAt(log, i)
  {
    if 0 < log[i].size then
      assert PositiveSizes(log[..i + 1]) by { ParsedStep(log, i); }
      Printed(Parsed(log[..i + 1]), f)
    else Printed(Parsed(log[..i]), f)
  }

  lemma PrintedUntilIs(log: seq<Event>, i: nat, f: Filter)
    requires StopsAt(log, i)
    ensures PositiveSizes(log[..i])
    ensures ParseLine(log[i]).None? ==> PrintedUntil(log, i, f) == Printed(Parsed(log[..i]), f)
    ensures ParseLine(log[i]).Some? ==>
      PositiveSizes(log[..i + 1]) && PrintedUntil(log, i, f) == Printed(Parsed(log[..i + 1]), f)
  {
    hide Printed, Parsed, Replayable;
    if 0 < log[i].size {
      ParsedStep(log, i);
    }
  }

  /** A replay that stops somewhere is not through: a good log has only good prefixes. */
  lemma StoppedIsNotGood(log: seq<Event>, i: nat)
    requires StopsAt(log, i)
    ensures !Good(log)
  {
    hide TableAfter, Accepted, ParseLine;
    if Good(log) {
      var part, all := log[..i + 1], Parsed(log);
      assert PositiveSizes(part);
      assert Parsed(part) == all[..i + 1];
      forall j | 0 <= j < |part| ensures Accepted(TableAfter(Parsed(part)[..j]), Parsed(part)[j]) {
        assert Parsed(part)[..j] == all[..j];
      }
    }
  }

  /** One event applied to the map, with the change it makes to a filtered byte count. */
  method Process(memoryMap: MemoryMap, id: nat, e: Event, f: Filter) returns (hit: bool, change: int)
    requires memoryMap.Valid() && Sound(memoryMap.Table(), id) && 0 < e.size
    modifies memoryMap, memoryMap.dict.Values
    ensures memoryMap.Valid() && memoryMap.Table() == Apply(old(memoryMap.Table()), id, e)
    ensures hit <==> Accepted(old(memoryMap.Table()), e)
    ensures change == |Accounted(memoryMap.Table(), f)| - |Accounted(old(memoryMap.Table()), f)|
    ensures fresh(memoryMap.dict.Values - old(memoryMap.dict.Values))
  {
    hide WellFormed, Canonical, IdsBelow, RegisterMap, Unmap, Erased, Bytes, Accounted, Owner;
    ghost var before := memoryMap.Table();
    match e {
      case MapEvent(_, pointer, size, _) =>
        var allocation := NewAllocation(e, id);
        MapAccounting(before, allocation, f);
        var added, erased := memoryMap.RegisterMap(allocation);
        SumIsBytes(erased, Erased(before, pointer, pointer + size), f);
        change := (if f(added.allocation.trace) then added.size else 0) - SumSizes(erased, f);
        hit := true;
      case UnmapEvent(_, pointer, size) =>
        UnmapAccounting(before, pointer, pointer + size, f);
        UnmapAccounting(before, pointer, pointer + size, Everything);
        ErasesIffOwned(before, pointer, pointer + size);
        var erased := memoryMap.RegisterUnmap(pointer, size);
        SumIsBytes(erased, Erased(before, pointer, pointer + size), f);
        SumIsBytes(erased, Erased(before, pointer, pointer + size), Everything);
        hit := |erased| > 0;
        assert SumSizes(erased, Everything) <= size;
        change := 0 - SumSizes(erased, f);
    }
  }

  /** Memory over time. The replay completes exactly on the good logs, and what it prints is
      the number of mapped addresses that pass the filter, recomputed from the tables. */
  method GenerateMemoryLog(log: seq<Event>, f: Filter) returns (outcome: Outcome, lines: seq<LogLine>)
    ensures outcome.Completed? <==> Good(log)
    ensures outcome.Completed? ==> lines == FullLog(Parsed(log), f)
    ensures outcome.AssertionFailed? ==> StopsAt(log, outcome.line) && lines == PrintedUntil(log, outcome.line, f)
  {
    hide *;
    lines := [];
    var memoryMap := new MemoryMap();
    var accumMemory: int, lastTime: real, nextId: nat := 0, 0.0, 0;
    ghost var events: seq<Event> := [];
    StartOfReplay(log, f);
    for i := 0 to |log|
      invariant Good(log[..i]) && PositiveSizes(log[..i]) && events == Parsed(log[..i])
      invariant memoryMap.Valid() && memoryMap.Table() == TableAfter(events)
      invariant fresh(memoryMap) && fresh(memoryMap.dict.Values)
      invariant nextId == Maps(events) && lastTime == LastTime(events)
      invariant lines == Printed(events, f) && accumMemory == Memory(events, f)
    {
      var parsed := ParseLine(log[i]);
      if parsed.None? {
        StopHere(log, i);
        PrintedUntilIs(log, i, f);
        return AssertionFailed(i), lines;
      }
      var e := parsed.value;
      if e.time > lastTime {
        lines := lines + [LogLine(lastTime, accumMemory)];
        lastTime := e.time;
      }
      ReplayStep(log, i, f);
      var hit, change := Process(memoryMap, nextId, e, f);
      if !hit {
        StoppedIsNotGood(log, i);
        PrintedUntilIs(log, i, f);
        return AssertionFailed(i), lines;
      }
      accumMemory := accumMemory + change;
      nextId := nextId + (if e.MapEvent? then 1 else 0);
      events := events + [e];
    }
    assert log[..|log|] == log;
    lines := lines + [LogLine(lastTime, accumMemory)];
    outcome := Completed;
    FullLogIs(events, f);
  }

  lemma StartOfReplay(log: seq<Event>, f: Filter)
    ensures Good(log[..0]) && PositiveSizes(log[..0]) && Parsed(log[..0]) == []
    ensures TableAfter([]) == map[] && Maps([]) == 0 && LastTime([]) == 0.0 && Printed([], f) == [] && Memory([], f) == 0
  {
    assert Values(map[]) == [];
  }

  lemma FullLogIs(events: seq<Event>, f: Filter)
    ensures FullLog(events, f) == Printed(events, f) + [LogLine(LastTime(events), Memory(events, f))]
  {
  }

  lemma StopHere(log: seq<Event>, i: nat)
    requires i < |log| && Good(log[..i]) && ParseLine(log[i]).None?
    ensures StopsAt(log, i) && !Good(log)
  {
    hide Replayable;
    assert log[..i + 1][i] == log[i];
    StoppedIsNotGood(log, i);
  }

  /** What one more accepted line does to everything the replay keeps. */
  lemma ReplayStep(log: seq<Event>, i: nat, f: Filter)
    requires i < |log| && Good(log[..i]) && ParseLine(log[i]).Some?
    requires PositiveSizes(log[..i])
    ensures var events, e := Parsed(log[..i]), ParseLine(log[i]).value;
      && 0 < e.size
      && Sound(TableAfter(events), Maps(events))
      && PositiveSizes(log[..i + 1]) && Parsed(log[..i + 1]) == events + [e]
      && (Good(log[..i + 1]) <==> Accepted(TableAfter(events), e))
      && (!Accepted(TableAfter(events), e) ==> StopsAt(log, i))
      && TableAfter(events + [e]) == Apply(TableAfter(events), Maps(events), e)
      && Maps(events + [e]) == Maps(events) + (if e.MapEvent? then 1 else 0)
      && LastTime(events + [e]) == (if e.time > LastTime(events) then e.time else LastTime(events))
      && Printed(events + [e], f) == Printed(events, f) + (if e.time > LastTime(events) then [LogLine(LastTime(events), Memory(events, f))] else [])
      && Memory(events, f) == |Accounted(TableAfter(events), f)|
      && Memory(events + [e], f) == |Accounted(TableAfter(events + [e]), f)|
  {
    hide Replayable, TableAfter, Maps, LastTime, Printed, Accepted, Sound, Apply, Accounted;
    var events, e := Parsed(log[..i]), ParseLine(log[i]).value;
    ParsedStep(log, i);
    HistoriesAreCanonical(events);
    AfterStep(events, e);
    ReplayableStep(events, e);
  }
}
