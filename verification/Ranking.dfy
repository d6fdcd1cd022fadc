// The ranking of stack traces by how much their memory grew since the two-hour mark.
module Ranking {
  import opened Basics
  import opened Slices
  import opened SliceSums
  import opened History
  import opened PyMemoryMap
  import opened MemoryLog
  import opened ByStack
  import opened Sorting

  const BASELINE_TIME: real := 7200.0

  /** The prefix the baseline is taken after: it is taken at a late event when there is none
      yet, and taken again as long as it is empty. */
  ghost function Baseline(events: seq<Event>): (r: Option<int>)
    ensures r.Some? ==> 0 <= r.value < |events|
  {
    if |events| == 0 then None
    else
      var n := |events| - 1;
      var before := Baseline(events[..n]);
      if events[n].time >= BASELINE_TIME && (before.None? || TableAfter(events[..before.value]) == map[]) then Some(n) else before
  }

  /** Two hours in, or later. */
  ghost predicate Late(events: seq<Event>, i: int) {
    0 <= i < |events| && events[i].time >= 2.0 * 3600.0
  }

  ghost predicate EmptyAt(events: seq<Event>, i: int) {
    0 <= i <= |events| && TableAfter(events[..i]) == map[]
  }

  /** There is a baseline exactly when there is a late event; it is the table at the first late
      event that finds something mapped, and empty when no late event does. */
  lemma {:induction false} BaselineMeaning(events: seq<Event>)
    ensures Baseline(events).None? <==> forall i :: !Late(events, i)
    ensures Baseline(events).Some? ==>
      var b := Baseline(events).value;
      && Late(events, b)
      && (forall i | Late(events, i) && (i < b || EmptyAt(events, b)) :: EmptyAt(events, i))
  {
    hide TableAfter;
    if |events| > 0 {
      var n := |events| - 1;
      var before := events[..n];
      BaselineMeaning(before);
      assert Late(events, n) <==> events[n].time >= BASELINE_TIME;
      forall i | 0 <= i < n ensures Late(events, i) == Late(before, i) && EmptyAt(events, i) == EmptyAt(before, i) {
        assert events[..i] == before[..i];
      }
      forall i | Late(events, i) ensures i == n || Late(before, i) {
      }
      forall i | Late(before, i) ensures Late(events, i) {
      }
    }
  }

  /** The increase of one trace between two tables. */
  ghost function Increase(from: Table, to: Table, id: nat): int {
    |Accounted(to, Only(id))| - |Accounted(from, Only(id))|
  }

  type Row = (nat, int)

  function Growth(row: Row): real {
    row.1 as real
  }

  ghost predicate NoRepeats(rows: seq<Row>) {
    forall i, j | 0 <= i < j < |rows| :: rows[i].0 != rows[j].0
  }

  ghost predicate Lists(rows: seq<Row>, id: nat) {
    exists i :: 0 <= i < |rows| && rows[i].0 == id
  }

  /** Every trace that still owns memory once, with its increase, the largest first. */
  ghost predicate IsRanking(from: Table, to: Table, rows: seq<Row>) {
    && Descending(rows, Growth)
    && NoRepeats(rows)
    && (forall id :: Lists(rows, id) <==> HasTrace(to, id))
    && (forall i | 0 <= i < |rows| :: rows[i].1 == Increase(from, to, rows[i].0))
  }

  function InsertRow(rows: seq<Row>, row: Row): seq<Row>
    requires Descending(rows, Growth)
  {
    Sorting.Insert(rows, Growth, row)
  }

  lemma InsertRowKeeps(rows: seq<Row>, row: Row)
    requires Descending(rows, Growth) && NoRepeats(rows) && !Lists(rows, row.0)
    ensures Descending(InsertRow(rows, row), Growth) && NoRepeats(InsertRow(rows, row))
  {
  }

  lemma InsertRowLists(rows: seq<Row>, row: Row)
    requires Descending(rows, Growth)
    ensures forall id :: Lists(InsertRow(rows, row), id) <==> Lists(rows, id) || id == row.0
    ensures forall i | 0 <= i < |InsertRow(rows, row)| :: InsertRow(rows, row)[i] in rows || InsertRow(rows, row)[i] == row
  {
    var k := Position(rows, Growth, Growth(row));
    var all := InsertRow(rows, row);
    assert all[k] == row;
    forall id | Lists(rows, id) ensures Lists(all, id) {
      var i :| 0 <= i < |rows| && rows[i].0 == id;
      assert all[if i < k then i else i + 1] == rows[i];
    }
  }

  // --- The analysis ---------------------------------------------------------

  lemma TableGet(t: Table, r: map<nat, nat>, id: nat)
    requires WellFormed(t) && IsTable(t, r)
    ensures Get(r, id) == |Accounted(t, Only(id))|
    ensures id in r <==> HasTrace(t, id)
  {
    hide WellFormed, Tally, Values, Accounted, Bytes;
    TableIsTally(t, r);
    TallyGet(Values(t), r, id);
    TableBytes(t, Only(id));
  }

  /** The rows for a set of traces, by increase between two per-trace tables. */
  ghost predicate Rows(from: map<nat, nat>, to: map<nat, nat>, ids: set<nat>, rows: seq<Row>) {
    && Descending(rows, Growth)
    && NoRepeats(rows)
    && (forall id :: Lists(rows, id) <==> id in ids)
    && (forall i | 0 <= i < |rows| :: rows[i].1 == Get(to, rows[i].0) - Get(from, rows[i].0))
  }

  lemma RowsStep(from: map<nat, nat>, to: map<nat, nat>, ids: set<nat>, rows: seq<Row>, id: nat)
    requires Rows(from, to, ids, rows) && id !in ids
    ensures Rows(from, to, ids + {id}, InsertRow(rows, (id, Get(to, id) - Get(from, id))))
  {
    hide Get, InsertRow;
    var row := (id, Get(to, id) - Get(from, id));
    InsertRowKeeps(rows, row);
    InsertRowLists(rows, row);
  }

  lemma RowsAreRanking(from: Table, to: Table, baseline: map<nat, nat>, end: map<nat, nat>, rows: seq<Row>)
    requires WellFormed(from) && WellFormed(to) && IsTable(from, baseline) && IsTable(to, end)
    requires Rows(baseline, end, end.Keys, rows)
    ensures IsRanking(from, to, rows)
  {
    hide WellFormed, IsTable, Get, Accounted, HasTrace;
    forall id: nat ensures id in end <==> HasTrace(to, id) {
      TableGet(to, end, id);
    }
    forall i | 0 <= i < |rows| ensures rows[i].1 == Increase(from, to, rows[i].0) {
      TableGet(to, end, rows[i].0);
      TableGet(from, baseline, rows[i].0);
    }
  }

  method SortByIncrease(baseline: map<nat, nat>, end: map<nat, nat>) returns (rows: seq<Row>)
    ensures Rows(baseline, end, end.Keys, rows)
    ensures forall i, j | 0 <= i < j < |rows| :: rows[i].1 >= rows[j].1 && rows[i].0 != rows[j].0
    ensures forall i | 0 <= i < |rows| ::
      rows[i].0 in end && rows[i].1 + (if rows[i].0 in baseline then baseline[rows[i].0] else 0) == end[rows[i].0]
    ensures forall id | id in end :: exists i :: 0 <= i < |rows| && rows[i].0 == id
  {
    hide InsertRow;
    rows := [];
    var todo := end.Keys;
    while todo != {}
      invariant todo <= end.Keys && Rows(baseline, end, end.Keys - todo, rows)
    {
      ghost var pick := Pick(todo);
      var id :| id in todo;
      var usageEnd: int := end[id];
      var usageBaseline: int := if id in baseline then baseline[id] else 0;
      RowsStep(baseline, end, end.Keys - todo, rows, id);
      assert end.Keys - (todo - {id}) == (end.Keys - todo) + {id};
      rows := InsertRow(rows, (id, usageEnd - usageBaseline));
      todo := todo - {id};
    }
    assert end.Keys - {} == end.Keys;
    RowsMean(baseline, end, rows);
  }

  lemma RowsMean(baseline: map<nat, nat>, end: map<nat, nat>, rows: seq<Row>)
    requires Rows(baseline, end, end.Keys, rows)
    ensures forall i, j | 0 <= i < j < |rows| :: rows[i].1 >= rows[j].1 && rows[i].0 != rows[j].0
    ensures forall i | 0 <= i < |rows| ::
      rows[i].0 in end && rows[i].1 + (if rows[i].0 in baseline then baseline[rows[i].0] else 0) == end[rows[i].0]
    ensures forall id | id in end :: exists i :: 0 <= i < |rows| && rows[i].0 == id
  {
    forall i | 0 <= i < |rows| ensures rows[i].0 in end {
      assert Lists(rows, rows[i].0);
    }
    forall id | id in end ensures exists i :: 0 <= i < |rows| && rows[i].0 == id {
      assert Lists(rows, id);
    }
  }

  datatype RankingOutcome =
    | Ranked(rows: seq<Row>)
    | ReplayFailed(line: nat)   // an assertion of the replay
    | NoBaseline                // no event late enough, but something to rank

  ghost predicate BaselineIs(events: seq<Event>, baseline: Option<map<nat, nat>>) {
    match Baseline(events)
    case None => baseline.None?
    case Some(b) => baseline.Some? && IsTable(TableAfter(events[..b]), baseline.value)
  }

  lemma BaselineStep(events: seq<Event>, e: Event)
    ensures var before := Baseline(events);
      && Baseline(events + [e]) == (if e.time >= BASELINE_TIME && (before.None? || TableAfter(events[..before.value]) == map[]) then Some(|events|) else before)
      && (before.Some? ==> TableAfter((events + [e])[..before.value]) == TableAfter(events[..before.value]))
      && TableAfter((events + [e])[..|events|]) == TableAfter(events)
  {
    hide TableAfter;
    assert (events + [e])[..|events|] == events;
    if Baseline(events).Some? {
      assert (events + [e])[..Baseline(events).value] == events[..Baseline(events).value];
    }
  }

  lemma BaselineKept(events: seq<Event>, e: Event, baseline: Option<map<nat, nat>>, now: Option<map<nat, nat>>)
    requires BaselineIs(events, baseline)
    requires if e.time >= BASELINE_TIME && (baseline.None? || baseline.value == map[])
      then now.Some? && IsTable(TableAfter(events), now.value)
      else now == baseline
    ensures BaselineIs(events + [e], now)
  {
    hide TableAfter, Baseline, IsTable;
    BaselineStep(events, e);
    if baseline.Some? {
      TableEmpty(TableAfter(events[..Baseline(events).value]), baseline.value);
    }
  }

  lemma BaselineSound(events: seq<Event>)
    requires PositiveSizes(events) && Baseline(events).Some?
    ensures WellFormed(TableAfter(events[..Baseline(events).value]))
  {
    hide TableAfter, WellFormed;
    HistoriesAreCanonical(events[..Baseline(events).value]);
  }

  /** On a good log the ranking compares the final table with the baseline's; without a late
      event it is produced only when nothing is mapped at the end. */
  method GenerateRanking(log: seq<Event>) returns (outcome: RankingOutcome)
    ensures outcome.ReplayFailed? <==> !Good(log)
    ensures outcome.ReplayFailed? ==> StopsAt(log, outcome.line)
    ensures outcome.NoBaseline? <==> Good(log) && Baseline(Parsed(log)).None? && TableAfter(Parsed(log)) != map[]
    ensures outcome.Ranked? && Baseline(Parsed(log)).None? ==> outcome.rows == []
    ensures outcome.Ranked? && Baseline(Parsed(log)).Some? ==>
      IsRanking(TableAfter(Parsed(log)[..Baseline(Parsed(log)).value]), TableAfter(Parsed(log)), outcome.rows)
    ensures outcome.Ranked? ==> forall i, j | 0 <= i < j < |outcome.rows| ::
      outcome.rows[i].1 >= outcome.rows[j].1 && outcome.rows[i].0 != outcome.rows[j].0
    ensures outcome.Ranked? && Baseline(Parsed(log)).Some? ==> forall i | 0 <= i < |outcome.rows| ::
      outcome.rows[i].1 == |Accounted(TableAfter(Parsed(log)), Only(outcome.rows[i].0))|
        - |Accounted(TableAfter(Parsed(log)[..Baseline(Parsed(log)).value]), Only(outcome.rows[i].0))|
  {
    hide *;
    var memoryMap := new MemoryMap();
    var nextId: nat := 0;
    var baseline: Option<map<nat, nat>> := None;
    ghost var events: seq<Event> := [];
    StartOfReplay(log, Everything);
    StartOfRanking();
    for i := 0 to |log|
      invariant Good(log[..i]) && PositiveSizes(log[..i]) && events == Parsed(log[..i])
      invariant memoryMap.Valid() && memoryMap.Table() == TableAfter(events)
      invariant fresh(memoryMap) && fresh(memoryMap.dict.Values)
      invariant nextId == Maps(events)
      invariant BaselineIs(events, baseline)
    {
      var parsed := ParseLine(log[i]);
      if parsed.None? {
        StopHere(log, i);
        return ReplayFailed(i);
      }
      var e := parsed.value;
      ReplayStep(log, i, Everything);
      SoundIsWellFormed(TableAfter(events), Maps(events));
      ghost var was := baseline;
      if e.time >= BASELINE_TIME && (baseline.None? || baseline.value == map[]) {
        var table := CalculateMemoryByStackId(memoryMap);
        baseline := Some(table);
      }
      BaselineKept(events, e, was, baseline);
      var hit, change := Process(memoryMap, nextId, e, Everything);
      if !hit {
        StoppedIsNotGood(log, i);
        return ReplayFailed(i);
      }
      nextId := nextId + (if e.MapEvent? then 1 else 0);
      events := events + [e];
    }
    assert log[..|log|] == log;
    HistoriesAreCanonical(events);
    SoundIsWellFormed(TableAfter(events), Maps(events));
    var end := CalculateMemoryByStackId(memoryMap);
    TableEmpty(TableAfter(events), end);
    BaselineCases(events, baseline);
    if baseline.None? {
      return if end == map[] then Ranked([]) else NoBaseline;
    }
    var rows := SortByIncrease(baseline.value, end);
    BaselineSound(events);
    RowsAreRanking(TableAfter(events[..Baseline(events).value]), TableAfter(events), baseline.value, end, rows);
    RankingMeans(TableAfter(events[..Baseline(events).value]), TableAfter(events), rows);
    outcome := Ranked(rows);
  }

  lemma RankingMeans(from: Table, to: Table, rows: seq<Row>)
    requires IsRanking(from, to, rows)
    ensures forall i, j | 0 <= i < j < |rows| :: rows[i].1 >= rows[j].1 && rows[i].0 != rows[j].0
    ensures forall i | 0 <= i < |rows| :: rows[i].1 == |Accounted(to, Only(rows[i].0))| - |Accounted(from, Only(rows[i].0))|
  {
    hide Accounted, HasTrace;
  }

  lemma StartOfRanking()
    ensures BaselineIs([], None)
  {
  }

  lemma SoundIsWellFormed(t: Table, id: nat)
    requires Sound(t, id)
    ensures WellFormed(t)
  {
  }

  lemma BaselineCases(events: seq<Event>, baseline: Option<map<nat, nat>>)
    requires BaselineIs(events, baseline)
    ensures Baseline(events).None? <==> baseline.None?
    ensures baseline.Some? ==> IsTable(TableAfter(events[..Baseline(events).value]), baseline.value)
  {
  }
}
