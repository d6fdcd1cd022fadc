// The patrol thread's own state: how often each stack trace leaked, and when the next report is due.
module PatrolThread {
  import opened Basics
  import opened TraceInfo
  import opened AllocationTable
  import opened Ledger
  import opened Verdicts

  // --- The tally of occurrences ---------------------------------------------

  function Occurrences(tally: map<nat, nat>, trace: nat): nat {
    if trace in tally then tally[trace] else 0
  }

  /** How many of these reports are about the trace, whatever its fingerprint. */
  function CountTrace(reports: seq<FoundLeak>, trace: nat): nat {
    if |reports| == 0 then 0
    else CountTrace(reports[..|reports| - 1], trace) + (if reports[|reports| - 1].info.trace == trace then 1 else 0)
  }

  function CountInfo(reports: seq<FoundLeak>, k: Key): nat {
    if |reports| == 0 then 0
    else CountInfo(reports[..|reports| - 1], k) + (if reports[|reports| - 1].info == k then 1 else 0)
  }

  function BytesOfInfo(reports: seq<FoundLeak>, k: Key): nat {
    if |reports| == 0 then 0
    else BytesOfInfo(reports[..|reports| - 1], k) + (if reports[|reports| - 1].info == k then reports[|reports| - 1].size else 0)
  }

  lemma {:induction false} CountsJoin(a: seq<FoundLeak>, b: seq<FoundLeak>, k: Key, trace: nat)
    ensures CountInfo(a + b, k) == CountInfo(a, k) + CountInfo(b, k)
    ensures BytesOfInfo(a + b, k) == BytesOfInfo(a, k) + BytesOfInfo(b, k)
    ensures CountTrace(a + b, trace) == CountTrace(a, trace) + CountTrace(b, trace)
    decreases |b|
  {
    if |b| == 0 {
      assert a + b == a;
    } else {
      CountsJoin(a, b[..|b| - 1], k, trace);
      assert (a + b)[..|a + b| - 1] == a + b[..|b| - 1];
    }
  }

  /** The number logged with a leak: how often its trace has leaked by then, this time included. */
  ghost predicate OrdinalAt(before: map<nat, nat>, leaks: seq<FoundLeak>, ordinals: seq<nat>, i: int)
    requires 0 <= i < |ordinals| && i < |leaks|
  {
    ordinals[i] == Occurrences(before, leaks[i].info.trace) + CountTrace(leaks[..i + 1], leaks[i].info.trace)
  }

  ghost predicate AreOrdinals(before: map<nat, nat>, leaks: seq<FoundLeak>, ordinals: seq<nat>) {
    |ordinals| == |leaks| && forall i | 0 <= i < |leaks| :: OrdinalAt(before, leaks, ordinals, i)
  }

  lemma OrdinalsMean(before: map<nat, nat>, leaks: seq<FoundLeak>, ordinals: seq<nat>)
    requires AreOrdinals(before, leaks, ordinals)
    ensures forall i | 0 <= i < |leaks| ::
      ordinals[i] == Occurrences(before, leaks[i].info.trace) + CountTrace(leaks[..i + 1], leaks[i].info.trace)
  {
    hide Occurrences, CountTrace;
    forall i | 0 <= i < |leaks|
      ensures ordinals[i] == Occurrences(before, leaks[i].info.trace) + CountTrace(leaks[..i + 1], leaks[i].info.trace)
    {
      assert OrdinalAt(before, leaks, ordinals, i);
    }
  }

  lemma NoneCounted()
    ensures forall x :: CountTrace([], x) == 0
  {
  }

  lemma OneMoreCounted(leaks: seq<FoundLeak>, i: nat)
    requires i < |leaks|
    ensures forall x :: CountTrace(leaks[..i + 1], x) == CountTrace(leaks[..i], x) + (if x == leaks[i].info.trace then 1 else 0)
  {
    assert leaks[..i + 1][..i] == leaks[..i];
  }

  lemma OrdinalsKept(before: map<nat, nat>, leaks: seq<FoundLeak>, ordinals: seq<nat>, n: nat)
    requires |ordinals| < |leaks| && forall j | 0 <= j < |ordinals| :: OrdinalAt(before, leaks, ordinals, j)
    requires n == Occurrences(before, leaks[|ordinals|].info.trace) + CountTrace(leaks[..|ordinals| + 1], leaks[|ordinals|].info.trace)
    ensures forall j | 0 <= j <= |ordinals| :: OrdinalAt(before, leaks, ordinals + [n], j)
  {
    hide Occurrences, CountTrace;
    forall j | 0 <= j <= |ordinals| ensures OrdinalAt(before, leaks, ordinals + [n], j) {
      if j < |ordinals| {
        assert OrdinalAt(before, leaks, ordinals, j);
      }
    }
  }

  // --- The schedule of reports ------------------------------------------------

  /** What an iteration at this time finds the next report to be due after: 0.0 means that none
      was scheduled yet. */
  function Due(next: real, now: real, interval: nat): real {
    if next == 0.0 then now + interval as real else next
  }

  function NextAfter(next: real, now: real, interval: nat): real {
    if now > Due(next, now, interval) then now + interval as real else Due(next, now, interval)
  }

  class Monitor {
    var occurrences: map<nat, nat>
    var timeNextLeakReport: real

    constructor ()
      ensures occurrences == map[] && timeNextLeakReport == 0.0
    {
      occurrences, timeNextLeakReport := map[], 0.0;
    }

    /** The leaks of one pass. `ordinals` are the numbers that the progress log prints. */
    method CountLeaks(leaks: seq<FoundLeak>) returns (ordinals: seq<nat>)
      modifies `occurrences
      ensures forall x :: Occurrences(occurrences, x) == Occurrences(old(occurrences), x) + CountTrace(leaks, x)
      ensures AreOrdinals(old(occurrences), leaks, ordinals)
      ensures |ordinals| == |leaks| && forall i | 0 <= i < |leaks| ::
        ordinals[i] == Occurrences(old(occurrences), leaks[i].info.trace) + CountTrace(leaks[..i + 1], leaks[i].info.trace)
    {
      hide Occurrences, CountTrace, OrdinalAt;
      ghost var start := occurrences;
      ordinals := [];
      NoneCounted();
      for i := 0 to |leaks|
        invariant forall x :: Occurrences(occurrences, x) == Occurrences(start, x) + CountTrace(leaks[..i], x)
        invariant |ordinals| == i && forall j | 0 <= j < i :: OrdinalAt(start, leaks, ordinals, j)
      {
        OneMoreCounted(leaks, i);
        ghost var before := ordinals;
        var n := CountLeak(leaks[i].info.trace);
        ordinals := ordinals + [n];
        OrdinalsKept(start, leaks, before, n);
      }
      assert leaks[..|leaks|] == leaks;
      OrdinalsMean(start, leaks, ordinals);
    }

    method CountLeak(trace: nat) returns (n: nat)
      modifies `occurrences
      ensures forall x :: Occurrences(occurrences, x) == Occurrences(old(occurrences), x) + (if x == trace then 1 else 0)
      ensures n == Occurrences(occurrences, trace)
    {
      if trace !in occurrences {
        occurrences := occurrences[trace := 0];
      }
      occurrences := occurrences[trace := occurrences[trace] + 1];
      n := occurrences[trace];
    }

    /** Whether this iteration writes a leak report. */
    method Schedule(reportTime: real, interval: nat) returns (report: bool)
      modifies `timeNextLeakReport
      ensures report <==> reportTime > Due(old(timeNextLeakReport), reportTime, interval)
      ensures timeNextLeakReport == NextAfter(old(timeNextLeakReport), reportTime, interval)
    {
      if timeNextLeakReport == 0.0 {
        timeNextLeakReport := reportTime + interval as real;
      }
      report := reportTime > timeNextLeakReport;
      if report {
        timeNextLeakReport := reportTime + interval as real;
      }
    }

    /** One turn of the endless loop, on the table it watches. */
    method Iterate(table: Table, env: Environment, now: nat, reportTime: real, interval: nat)
      returns (leaks: seq<FoundLeak>, ordinals: seq<nat>, report: bool)
      requires Linked(table.View())
      modifies this, table
      ensures table.View() == Patrolled(env, old(table.View()), now)
      ensures ReportsOf(old(table.View()), LeakedAt(old(table.View()), now, old(table.watched).Keys), leaks)
      ensures forall x :: Occurrences(occurrences, x) == Occurrences(old(occurrences), x) + CountTrace(leaks, x)
      ensures AreOrdinals(old(occurrences), leaks, ordinals)
      ensures report <==> reportTime > Due(old(timeNextLeakReport), reportTime, interval)
      ensures timeNextLeakReport == NextAfter(old(timeNextLeakReport), reportTime, interval)
    {
      hide Patrolled, ReportsOf, LeakedAt;
      leaks := table.PatrolThreadUpdateAllocationStates(env, now);
      ordinals := CountLeaks(leaks);
      report := Schedule(reportTime, interval);
    }
  }

  // --- Conservation over runs ---------------------------------------------------

  /** What each pass of a run reported, in some order; other calls report nothing. */
  ghost predicate ReportLists(env: Environment, ops: seq<Op>, lists: seq<seq<FoundLeak>>) {
    && |lists| == |ops|
    && (forall i | 0 <= i < |ops| :: ListFor(Reached(env, ops[..i]).s, ops[i], lists[i]))
  }

  ghost predicate ListFor(s: State, op: Op, list: seq<FoundLeak>) {
    if op.Patrol? then ReportsOf(s, LeakedAt(s, op.now, s.watched.Keys), list) else list == []
  }

  function Flat(lists: seq<seq<FoundLeak>>): seq<FoundLeak> {
    if |lists| == 0 then [] else Flat(lists[..|lists| - 1]) + lists[|lists| - 1]
  }

  /** All reports taken from `leaked` are counted and weighed by the addresses they are about. */
  lemma {:induction false} ReportsWeigh(s: State, leaked: set<int>, reports: seq<FoundLeak>, k: Key)
    requires Linked(s) && ReportsOf(s, leaked, reports)
    ensures CountInfo(reports, k) == |OfTrace(s, leaked, k)|
    ensures BytesOfInfo(reports, k) == SumOver(OfTrace(s, leaked, k), SizeAt(s))
    decreases |reports|
  {
    hide OfTrace, SumOver, Linked;
    if |reports| == 0 {
      assert leaked == {};
      NoneOfTrace(s, k);
    } else {
      var r := reports[|reports| - 1];
      var a := r.memory;
      var rest := leaked - {a};
      assert ReportFor(s, leaked, r);
      assert rest + {a} == leaked;
      LastReport(s, leaked, reports);
      ReportsWeigh(s, rest, reports[..|reports| - 1], k);
      OneMoreOfTrace(s, rest, a, k);
    }
  }

  lemma NoneOfTrace(s: State, k: Key)
    ensures OfTrace(s, {}, k) == {}
    ensures SumOver(OfTrace(s, {}, k), SizeAt(s)) == 0
  {
    assert OfTrace(s, {}, k) == {};
  }

  lemma OneMoreOfTrace(s: State, leaked: set<int>, a: int, k: Key)
    requires a in s.watched && a !in leaked
    ensures |OfTrace(s, leaked + {a}, k)| == |OfTrace(s, leaked, k)| + (if s.watched[a].info == k then 1 else 0)
    ensures SumOver(OfTrace(s, leaked + {a}, k), SizeAt(s)) ==
      SumOver(OfTrace(s, leaked, k), SizeAt(s)) + (if s.watched[a].info == k then s.watched[a].requestedSize else 0)
  {
    var before, after := OfTrace(s, leaked, k), OfTrace(s, leaked + {a}, k);
    if s.watched[a].info == k {
      assert after == before + {a};
      SumOverAdd(before, SizeAt(s), a);
    } else {
      assert after == before;
    }
  }

  lemma LastReport(s: State, leaked: set<int>, reports: seq<FoundLeak>)
    requires Linked(s) && ReportsOf(s, leaked, reports) && |reports| > 0
    ensures ReportsOf(s, leaked - {reports[|reports| - 1].memory}, reports[..|reports| - 1])
  {
  }

  /** The counters of a trace info are those of the reports about it. */
  ghost predicate Matches(i: WatchedStackTraceInfo, reports: seq<FoundLeak>, k: Key) {
    i.leaked == CountInfo(reports, k) && i.leakedMemory == BytesOfInfo(reports, k)
  }

  lemma StepMatches(env: Environment, w: World, op: Op, reports: seq<FoundLeak>, list: seq<FoundLeak>, k: Key)
    requires Inv(env, w) && Legal(env, w, op) && ListFor(w.s, op, list) && Matches(InfoOf(w.s, k), reports, k)
    ensures Matches(InfoOf(Step(env, w, op).s, k), reports + list, k)
  {
    hide Legal, Balanced, Disjoint, Linked, Patrolled, Allocated, Freed, ActualSize, U32, ReportsOf, LeakedAt, OfTrace, CountInfo, BytesOfInfo, SumOver;
    CountsJoin(reports, list, k, 0);
    match op
    case Allocate(_, _, _, _, _) =>
      AllocatedInfo(env, w.s, op, k);
      NothingListed(reports, list);
    case Reallocate(_, _, _) => NothingListed(reports, list);
    case Free(memory) =>
      FreedInfo(w.s, memory, k);
      NothingListed(reports, list);
    case OutsideAllocate(_) => NothingListed(reports, list);
    case OutsideFree(_) => NothingListed(reports, list);
    case Patrol(now) =>
      var leaked := LeakedAt(w.s, now, w.s.watched.Keys);
      PatrolInfo(env, w.s, now, k);
      ReportsWeigh(w.s, leaked, list, k);
      if k !in w.s.infos {
        NoneLeaked(w.s, leaked, k);
      }
  }

  lemma NothingListed(reports: seq<FoundLeak>, list: seq<FoundLeak>)
    ensures list == [] ==> reports + list == reports
  {
  }

  lemma NoneLeaked(s: State, leaked: set<int>, k: Key)
    requires Linked(s) && k !in s.infos
    ensures OfTrace(s, leaked, k) == {} && SumOver(OfTrace(s, leaked, k), SizeAt(s)) == 0
  {
    var none := OfTrace(s, leaked, k);
    if none != {} {
      var a := Pick(none);
      assert false;
    }
  }

  /** Over every run, the leaks recorded with a trace info are the leaks reported for it: in
      number and in bytes. */
  lemma {:induction false} LeaksAreConserved(env: Environment, ops: seq<Op>, lists: seq<seq<FoundLeak>>, k: Key)
    requires LegalRun(env, ops) && ReportLists(env, ops, lists)
    ensures Matches(InfoOf(Reached(env, ops).s, k), Flat(lists), k)
  {
    hide Inv, Step, Legal, ListFor, Matches;
    if |ops| == 0 {
      NoLeaks(k);
    } else {
      var n := |ops| - 1;
      var before := ops[..n];
      assert forall i | 0 <= i < n :: before[..i] == ops[..i];
      LeaksAreConserved(env, before, lists[..n], k);
      RunsKeepInv(env, before);
      StepMatches(env, Reached(env, before), ops[n], Flat(lists[..n]), lists[n], k);
    }
  }

  lemma NoLeaks(k: Key)
    ensures Matches(InfoOf(EMPTY, k), [], k)
  {
  }

  // --- The tally against the counters -------------------------------------------

  ghost function KeysOf(s: State, trace: nat): set<Key> {
    set k | k in s.infos && k.trace == trace
  }

  ghost function LeakedCount(s: State): Key -> int {
    k => InfoOf(s, k).leaked
  }

  ghost function CountOf(reports: seq<FoundLeak>): Key -> int {
    k => CountInfo(reports, k)
  }

  /** Every report about a trace is counted under one fingerprint. */
  lemma {:induction false} TraceAddsUp(keys: set<Key>, reports: seq<FoundLeak>, trace: nat)
    requires forall k | k in keys :: k.trace == trace
    requires forall i | 0 <= i < |reports| && reports[i].info.trace == trace :: reports[i].info in keys
    ensures CountTrace(reports, trace) == SumOver(keys, CountOf(reports))
  {
    hide SumOver;
    if |reports| == 0 {
      SumOverZero(keys, CountOf(reports));
    } else {
      var before, last := reports[..|reports| - 1], reports[|reports| - 1].info;
      TraceAddsUp(keys, before, trace);
      if last.trace == trace {
        SumOverBump(keys, CountOf(before), CountOf(reports), last, 1);
      } else {
        SumOverSame(keys, CountOf(before), CountOf(reports));
      }
    }
  }

  lemma {:induction false} ReportIsCounted(reports: seq<FoundLeak>, i: nat)
    requires i < |reports|
    ensures CountInfo(reports, reports[i].info) > 0
  {
    if i < |reports| - 1 {
      ReportIsCounted(reports[..|reports| - 1], i);
    }
  }

  /** A run of the monitor: the tally after each turn, as its method leaves it. */
  ghost predicate MonitorRun(lists: seq<seq<FoundLeak>>, tallies: seq<map<nat, nat>>) {
    && |tallies| == |lists| + 1 && tallies[0] == map[]
    && (forall i, x | 0 <= i < |lists| :: Occurrences(tallies[i + 1], x) == Occurrences(tallies[i], x) + CountTrace(lists[i], x))
  }

  lemma {:induction false} MonitorCounts(lists: seq<seq<FoundLeak>>, tallies: seq<map<nat, nat>>, x: nat)
    requires MonitorRun(lists, tallies)
    ensures Occurrences(tallies[|lists|], x) == CountTrace(Flat(lists), x)
  {
    hide CountTrace, Occurrences;
    if |lists| > 0 {
      var n := |lists| - 1;
      MonitorRunPrefix(lists, tallies);
      MonitorCounts(lists[..n], tallies[..n + 1], x);
      CountsJoin(Flat(lists[..n]), lists[n], Key(0, 0), x);
      assert Occurrences(tallies[n + 1], x) == Occurrences(tallies[n], x) + CountTrace(lists[n], x);
    } else {
      NoOccurrence(x);
    }
  }

  lemma NoOccurrence(x: nat)
    ensures Occurrences(map[], x) == 0 == CountTrace([], x)
  {
  }

  lemma MonitorRunPrefix(lists: seq<seq<FoundLeak>>, tallies: seq<map<nat, nat>>)
    requires MonitorRun(lists, tallies) && |lists| > 0
    ensures MonitorRun(lists[..|lists| - 1], tallies[..|lists|])
  {
    hide CountTrace, Occurrences;
  }

  /** The reports about a stack trace are the leaks recorded for it under all fingerprints together. */
  lemma TraceTotals(env: Environment, ops: seq<Op>, lists: seq<seq<FoundLeak>>, trace: nat)
    requires LegalRun(env, ops) && ReportLists(env, ops, lists)
    ensures var s := Reached(env, ops).s; CountTrace(Flat(lists), trace) == SumOver(KeysOf(s, trace), LeakedCount(s))
  {
    hide LegalRun, ReportLists, Reached, Flat, CountTrace, SumOver;
    var s := Reached(env, ops).s;
    var reports, keys := Flat(lists), KeysOf(s, trace);
    forall k: Key ensures Matches(InfoOf(s, k), reports, k) {
      LeaksAreConserved(env, ops, lists, k);
    }
    forall i | 0 <= i < |reports| && reports[i].info.trace == trace ensures reports[i].info in keys {
      ReportIsCounted(reports, i);
      assert Matches(InfoOf(s, reports[i].info), reports, reports[i].info);
    }
    TraceAddsUp(keys, reports, trace);
    forall k | k in keys ensures LeakedCount(s)(k) == CountOf(reports)(k) {
      assert Matches(InfoOf(s, k), reports, k);
    }
    SumOverSame(keys, LeakedCount(s), CountOf(reports));
  }

  /** At the end of every turn the occurrences of a stack trace are the leaks recorded for it
      under all fingerprints together. */
  lemma TallyIsConserved(env: Environment, ops: seq<Op>, lists: seq<seq<FoundLeak>>, tallies: seq<map<nat, nat>>, trace: nat)
    requires LegalRun(env, ops) && ReportLists(env, ops, lists) && MonitorRun(lists, tallies)
    ensures var s := Reached(env, ops).s;
      Occurrences(tallies[|lists|], trace) == SumOver(KeysOf(s, trace), LeakedCount(s))
  {
    hide *;
    MonitorCounts(lists, tallies, trace);
    TraceTotals(env, ops, lists, trace);
  }

  // --- When reports are written -------------------------------------------------

  ghost function NextAt(times: seq<real>, interval: nat): real {
    if |times| == 0 then 0.0 else NextAfter(NextAt(times[..|times| - 1], interval), times[|times| - 1], interval)
  }

  /** Turn `i` writes a report. */
  ghost predicate ReportsAt(times: seq<real>, interval: nat, i: int)
    requires 0 <= i < |times|
  {
    times[i] > Due(NextAt(times[..i], interval), times[i], interval)
  }

  /** The turn that scheduled the next report after turns before `j`: the latest that wrote one,
      or else the first turn. */
  ghost predicate Scheduler(times: seq<real>, interval: nat, i: int, j: int) {
    && 0 <= i < j <= |times|
    && (i == 0 || ReportsAt(times, interval, i))
    && (forall m | i < m < j :: !ReportsAt(times, interval, m))
  }

  lemma {:induction false} NextIsScheduled(times: seq<real>, interval: nat, j: int) returns (i: int)
    requires 0 < j <= |times| && forall m | 0 <= m < |times| :: times[m] > 0.0
    ensures Scheduler(times, interval, i, j)
    ensures NextAt(times[..j], interval) == times[i] + interval as real
    decreases j
  {
    var n := j - 1;
    assert times[..j][..n] == times[..n];
    if n == 0 {
      i := 0;
      assert times[..n] == [];
    } else {
      i := NextIsScheduled(times, interval, n);
      if ReportsAt(times, interval, n) {
        i := n;
      }
    }
  }

  lemma SchedulerUnique(times: seq<real>, interval: nat, i: int, l: int, j: int)
    requires Scheduler(times, interval, i, j) && Scheduler(times, interval, l, j)
    ensures i == l
  {
    hide ReportsAt;
  }

  /** A turn writes a report exactly when more than the interval has passed since the last report,
      or since the first turn when there was none. Times are those of a clock past its epoch. */
  lemma ReportsOnSchedule(times: seq<real>, interval: nat, j: int, i: int)
    requires 0 <= j < |times| && forall m | 0 <= m < |times| :: times[m] > 0.0
    ensures j == 0 ==> !ReportsAt(times, interval, j)
    ensures j > 0 && Scheduler(times, interval, i, j) ==> (ReportsAt(times, interval, j) <==> times[j] > times[i] + interval as real)
  {
    hide Scheduler;
    if j > 0 {
      var l := NextIsScheduled(times, interval, j);
      if Scheduler(times, interval, i, j) {
        SchedulerUnique(times, interval, i, l, j);
      }
    } else {
      assert times[..j] == [];
    }
  }

  /** Any two reports are more than the interval apart. */
  lemma {:induction false} ReportsAreApart(times: seq<real>, interval: nat, i: int, j: int)
    requires 0 <= i < j < |times| && forall m | 0 <= m < |times| :: times[m] > 0.0
    requires ReportsAt(times, interval, i) && ReportsAt(times, interval, j)
    ensures times[j] > times[i] + interval as real
    decreases j
  {
    hide ReportsAt;
    var l := NextIsScheduled(times, interval, j);
    ReportsOnSchedule(times, interval, j, l);
    ReportsOnSchedule(times, interval, i, i);
    if i < l {
      ReportsAreApart(times, interval, i, l);
    }
  }

  // --- The table and the monitor through a run ------------------------------------

  /** One call on the table; a pass is a turn of the monitor. */
  method Perform(table: Table, monitor: Monitor, env: Environment, op: Op, reportTime: real, interval: nat)
    returns (list: seq<FoundLeak>, report: bool)
    requires Linked(table.View())
    modifies table, monitor
    ensures table.View() == StateAfter(env, old(table.View()), op) && ListFor(old(table.View()), op, list)
    ensures forall x :: Occurrences(monitor.occurrences, x) == Occurrences(old(monitor.occurrences), x) + CountTrace(list, x)
    ensures op.Patrol? ==> (report <==> reportTime > Due(old(monitor.timeNextLeakReport), reportTime, interval))
    ensures monitor.timeNextLeakReport ==
      if op.Patrol? then NextAfter(old(monitor.timeNextLeakReport), reportTime, interval) else old(monitor.timeNextLeakReport)
  {
    hide Patrolled, ReportsOf, LeakedAt, Allocated, Reallocated, Freed, Linked, ActualSize, Occurrences;
    list, report := [], false;
    NoneCounted();
    match op {
      case Allocate(size, fingerprint, trace, memory, now) =>
        var answer := table.InstrumentedAllocate(env, false, size, fingerprint, trace, memory, now);
      case Reallocate(oldMemory, newSize, memory) =>
        var answer := table.InstrumentedReallocate(env, false, oldMemory, newSize, memory);
      case Free(memory) => table.InstrumentedFree(false, memory);
      case OutsideAllocate(memory) =>
        var answer := table.InstrumentedAllocate(env, true, 0, 0, 0, memory, 0);
      case OutsideFree(memory) => table.InstrumentedFree(true, memory);
      case Patrol(now) =>
        var ordinals;
        list, ordinals, report := monitor.Iterate(table, env, now, reportTime, interval);
    }
  }

  /** What a run leaves: its lists of reports, and the times of its turns with whether each wrote a
      leak report. */
  ghost predicate MonitorAfter(tally: map<nat, nat>, next: real, lists: seq<seq<FoundLeak>>, times: seq<real>, written: seq<bool>, interval: nat) {
    && (forall x :: Occurrences(tally, x) == CountTrace(Flat(lists), x))
    && next == NextAt(times, interval)
    && |written| == |times|
    && (forall i | 0 <= i < |times| :: written[i] <==> ReportsAt(times, interval, i))
  }

  lemma MonitorStarts(interval: nat)
    ensures MonitorAfter(map[], 0.0, [], [], [], interval)
  {
  }

  lemma MonitorPauses(tally: map<nat, nat>, now: map<nat, nat>, next: real, lists: seq<seq<FoundLeak>>, list: seq<FoundLeak>,
                      times: seq<real>, written: seq<bool>, interval: nat)
    requires MonitorAfter(tally, next, lists, times, written, interval)
    requires forall x :: Occurrences(now, x) == Occurrences(tally, x) + CountTrace(list, x)
    ensures MonitorAfter(now, next, lists + [list], times, written, interval)
  {
    hide Occurrences, CountTrace, ReportsAt, NextAt;
    forall x ensures Occurrences(now, x) == CountTrace(Flat(lists + [list]), x) {
      FlatMore(lists, list);
      CountsJoin(Flat(lists), list, Key(0, 0), x);
    }
  }

  lemma FlatMore(lists: seq<seq<FoundLeak>>, list: seq<FoundLeak>)
    ensures Flat(lists + [list]) == Flat(lists) + list
  {
    assert (lists + [list])[..|lists|] == lists;
  }

  lemma MonitorTurns(tally: map<nat, nat>, now: map<nat, nat>, next: real, lists: seq<seq<FoundLeak>>, list: seq<FoundLeak>,
                     times: seq<real>, time: real, written: seq<bool>, interval: nat)
    requires MonitorAfter(tally, next, lists, times, written, interval)
    requires forall x :: Occurrences(now, x) == Occurrences(tally, x) + CountTrace(list, x)
    ensures MonitorAfter(now, NextAfter(next, time, interval), lists + [list], times + [time],
      written + [time > Due(next, time, interval)], interval)
  {
    hide Occurrences, CountTrace, NextAfter, Due, Flat;
    MonitorPauses(tally, now, next, lists, list, times, written, interval);
    var more := times + [time];
    assert more[..|times|] == times;
    forall i | 0 <= i < |times| ensures ReportsAt(more, interval, i) <==> ReportsAt(times, interval, i) {
      assert more[..i] == times[..i];
    }
  }

  lemma ReportListsMore(env: Environment, ops: seq<Op>, i: nat, lists: seq<seq<FoundLeak>>, list: seq<FoundLeak>)
    requires i < |ops| && ReportLists(env, ops[..i], lists) && ListFor(Reached(env, ops[..i]).s, ops[i], list)
    ensures ReportLists(env, ops[..i + 1], lists + [list])
  {
    hide ListFor, Reached;
    forall j | 0 <= j <= i ensures ListFor(Reached(env, ops[..i + 1][..j]).s, ops[..i + 1][j], (lists + [list])[j]) {
      assert ops[..i + 1][..j] == ops[..j];
      if j < i {
        assert ops[..i][..j] == ops[..j];
      }
    }
  }

  /** Before call `i` of a run the table is linked, and after it the state is the next. */
  lemma RunSoFar(env: Environment, ops: seq<Op>, i: nat)
    requires LegalRun(env, ops) && i < |ops|
    ensures LegalRun(env, ops[..i]) && Linked(Reached(env, ops[..i]).s)
    ensures Reached(env, ops[..i + 1]).s == StateAfter(env, Reached(env, ops[..i]).s, ops[i])
  {
    hide Legal, StateAfter, Linked, Inv;
    assert ops[..i + 1][..i] == ops[..i];
    assert forall j | 0 <= j < i :: ops[..i][..j] == ops[..j];
    RunsKeepInv(env, ops[..i]);
    InvLinked(env, Reached(env, ops[..i]));
  }

  /** The times read at the patrol passes of a run. */
  function TurnTimes(ops: seq<Op>, clock: seq<real>): seq<real>
    requires |clock| == |ops|
  {
    if |ops| == 0 then []
    else
      var n := |ops| - 1;
      TurnTimes(ops[..n], clock[..n]) + if ops[n].Patrol? then [clock[n]] else []
  }

  lemma TurnTimesMore(ops: seq<Op>, clock: seq<real>, i: nat)
    requires |clock| == |ops| && i < |ops|
    ensures TurnTimes(ops[..i + 1], clock[..i + 1]) == TurnTimes(ops[..i], clock[..i]) + (if ops[i].Patrol? then [clock[i]] else [])
  {
    assert ops[..i + 1][..i] == ops[..i] && clock[..i + 1][..i] == clock[..i];
  }

  /** The table and its monitor through any legal run. `clock` is the time read at each turn. At the
      end the occurrences of every stack trace are its leaks recorded under all fingerprints, every
      trace info has the leaks and bytes that were reported for it, and reports were written exactly
      when they were due. */
  method RunOps(env: Environment, ops: seq<Op>, clock: seq<real>, interval: nat)
    returns (table: Table, monitor: Monitor, lists: seq<seq<FoundLeak>>, times: seq<real>, written: seq<bool>)
    requires LegalRun(env, ops) && |clock| == |ops|
    ensures table.View() == Reached(env, ops).s && ReportLists(env, ops, lists)
    ensures forall x :: Occurrences(monitor.occurrences, x) == SumOver(KeysOf(table.View(), x), LeakedCount(table.View()))
    ensures forall k :: Matches(InfoOf(table.View(), k), Flat(lists), k)
    ensures times == TurnTimes(ops, clock)
    ensures |written| == |times| && forall i | 0 <= i < |times| :: written[i] <==> ReportsAt(times, interval, i)
  {
    hide *;
    table := new Table();
    monitor := new Monitor();
    lists, times, written := [], [], [];
    MonitorStarts(interval);
    RunStarts(env);
    assert ops[..0] == [] && clock[..0] == [];
    for i := 0 to |ops|
      invariant fresh(table) && fresh(monitor)
      invariant table.View() == Reached(env, ops[..i]).s && ReportLists(env, ops[..i], lists)
      invariant MonitorAfter(monitor.occurrences, monitor.timeNextLeakReport, lists, times, written, interval)
      invariant times == TurnTimes(ops[..i], clock[..i])
    {
      RunSoFar(env, ops, i);
      TurnTimesMore(ops, clock, i);
      ghost var tally, next := monitor.occurrences, monitor.timeNextLeakReport;
      var list, report := Perform(table, monitor, env, ops[i], clock[i], interval);
      ReportListsMore(env, ops, i, lists, list);
      if ops[i].Patrol? {
        MonitorTurns(tally, monitor.occurrences, next, lists, list, times, clock[i], written, interval);
        times, written := times + [clock[i]], written + [report];
      } else {
        MonitorPauses(tally, monitor.occurrences, next, lists, list, times, written, interval);
      }
      lists := lists + [list];
    }
    assert ops[..|ops|] == ops && clock[..|clock|] == clock;
    MonitorIs(monitor.occurrences, monitor.timeNextLeakReport, lists, times, written, interval);
    forall x: nat ensures Occurrences(monitor.occurrences, x) == SumOver(KeysOf(table.View(), x), LeakedCount(table.View())) {
      TraceTotals(env, ops, lists, x);
    }
    forall k: Key ensures Matches(InfoOf(table.View(), k), Flat(lists), k) {
      LeaksAreConserved(env, ops, lists, k);
    }
  }

  lemma RunStarts(env: Environment)
    ensures Reached(env, []).s == EMPTY && ReportLists(env, [], []) && TurnTimes([], []) == []
  {
  }

  lemma MonitorIs(tally: map<nat, nat>, next: real, lists: seq<seq<FoundLeak>>, times: seq<real>, written: seq<bool>, interval: nat)
    requires MonitorAfter(tally, next, lists, times, written, interval)
    ensures forall x :: Occurrences(tally, x) == CountTrace(Flat(lists), x)
    ensures |written| == |times| && forall i | 0 <= i < |times| :: written[i] <==> ReportsAt(times, interval, i)
  {
  }
}
