// Leak soundness and the counter ledger over whole runs, in terms of the history of allocations.
module Counters {
  import opened Basics
  import opened TraceInfo
  import opened AllocationTable
  import opened Ledger
  import opened Verdicts
  import opened Fates

  ghost function RecordAfter(env: Environment, ops: seq<Op>): Record {
    if |ops| == 0 then BLANK
    else
      var before := ops[..|ops| - 1];
      Note(env, Reached(env, before), RecordAfter(env, before), ops[|ops| - 1])
  }

  lemma StepFaithful(env: Environment, w: World, h: Record, op: Op)
    requires Inv(env, w) && Legal(env, w, op) && Faithful(env, w.s, h)
    ensures Faithful(env, StateAfter(env, w.s, op), Note(env, w, h, op))
  {
    hide Faithful, Balanced, Note, StateAfter, Linked;
    match op
    case Allocate(_, _, _, memory, _) => NoteAllocate(env, w, h, op);
    case Reallocate(_, _, _) => NoteReallocate(env, w, h, op);
    case Free(_) => NoteFree(env, w, h, op);
    case OutsideAllocate(_) => OutsideNotes(env, w, h, op);
    case OutsideFree(_) => OutsideNotes(env, w, h, op);
    case Patrol(now) =>
      NotePatrol(env, w, h, now);
      PatrolIs(env, w, now);
  }

  lemma OutsideNotes(env: Environment, w: World, h: Record, op: Op)
    requires op.OutsideAllocate? || op.OutsideFree?
    ensures StateAfter(env, w.s, op) == w.s && Note(env, w, h, op) == h
  {
  }

  lemma PatrolIs(env: Environment, w: World, now: nat)
    ensures StateAfter(env, w.s, Patrol(now)) == Patrolled(env, w.s, now)
  {
  }

  lemma {:induction false} RunsAreFaithful(env: Environment, ops: seq<Op>)
    requires LegalRun(env, ops)
    ensures Faithful(env, Reached(env, ops).s, RecordAfter(env, ops))
  {
    hide Inv, Legal, Faithful, Note, StateAfter, HeapAfter;
    if |ops| == 0 {
      BlankFaithful(env);
    } else {
      var before := ops[..|ops| - 1];
      assert forall i | 0 <= i < |before| :: before[..i] == ops[..i];
      RunsAreFaithful(env, before);
      RunsKeepInv(env, before);
      StepFaithful(env, Reached(env, before), RecordAfter(env, before), ops[|ops| - 1]);
    }
  }

  /** Leak soundness and exactness. Over any run, a closely watched allocation that was freed
      while watched is never reported, and one that was not is reported exactly when some pass
      since its birth is the first past its second deadline, and then it was that pass; so every
      report is of an allocation not freed, follows an earlier pass that made it suspicious, and
      comes later than birth, suspicion time and access interval together. This holds through
      reallocs, which move the allocation, not its number. */
  lemma ReportsAreExact(env: Environment, ops: seq<Op>, id: nat)
    requires LegalRun(env, ops)
    requires id < |RecordAfter(env, ops).births|
    ensures var h := RecordAfter(env, ops);
      var b := h.births[id];
      && (id in h.freed ==> id !in h.reported)
      && (id !in h.freed ==> b.pass <= |h.passes|)
      && (id !in h.freed ==> (id in h.reported <==> exists i :: ExpiresTwice(env, b.time, h.passes[b.pass..], i)))
      && (id in h.reported ==>
        && b.pass < h.reported[id] < |h.passes|
        && ExpiresTwice(env, b.time, h.passes[b.pass..], h.reported[id] - b.pass)
        && h.passes[h.reported[id]] >= b.time + env.timeForAllocationToBecomeSuspicious + env.accessMaxInterval + 2)
  {
    hide FateOf, ExpiresTwice, Faithful, Reached, RecordAfter, LegalRun, LiveRight, ReportedRight, AllBirths;
    RunsAreFaithful(env, ops);
    ReportedIffExpired(env, Reached(env, ops).s, RecordAfter(env, ops), id);
  }

  lemma ReportedIffExpired(env: Environment, s: State, h: Record, id: nat)
    requires Faithful(env, s, h) && id < |h.births|
    ensures var b := h.births[id];
      && (id in h.freed ==> id !in h.reported)
      && (id !in h.freed ==> b.pass <= |h.passes|)
      && (id !in h.freed ==> (id in h.reported <==> exists i :: ExpiresTwice(env, b.time, h.passes[b.pass..], i)))
      && (id in h.reported ==>
        && b.pass < h.reported[id] < |h.passes|
        && ExpiresTwice(env, b.time, h.passes[b.pass..], h.reported[id] - b.pass)
        && h.passes[h.reported[id]] >= b.time + env.timeForAllocationToBecomeSuspicious + env.accessMaxInterval + 2)
  {
    hide FateOf, ExpiresTwice, LiveRight, ReportedRight;
    var b := h.births[id];
    if id in h.reported {
      ReportedAlone(env, h, id);
      ReportFacts(env, h, id);
    } else if id !in h.freed {
      var a :| a in h.at && h.at[a] == id;
      LiveFacts(env, s, h, a);
      forall i | ExpiresTwice(env, b.time, h.passes[b.pass..], i) ensures false {
        ReportsAreLate(env, b.time, h.passes[b.pass..], i);
        ReportedExactly(env, b.time, h.passes[b.pass..], i);
      }
    }
  }

  lemma ReportFacts(env: Environment, h: Record, id: nat)
    requires id in h.reported && ReportedRight(env, h, id)
    ensures var b := h.births[id];
      && id < |h.births| && b.pass < h.reported[id] < |h.passes|
      && ExpiresTwice(env, b.time, h.passes[b.pass..], h.reported[id] - b.pass)
      && h.passes[h.reported[id]] >= b.time + env.timeForAllocationToBecomeSuspicious + env.accessMaxInterval + 2
  {
    hide FateOf, ExpiresTwice;
    var b := h.births[id];
    var i := h.reported[id] - b.pass;
    ReportedExactly(env, b.time, h.passes[b.pass..], i);
    ReportsAreLate(env, b.time, h.passes[b.pass..], i);
  }

  lemma LiveFacts(env: Environment, s: State, h: Record, a: int)
    requires a in s.watched && a in h.at && LiveRight(env, s, h, a)
    ensures var b := h.births[h.at[a]]; b.pass <= |h.passes| && FateOf(env, b.time, h.passes[b.pass..]).Alive?
  {
    hide FateOf;
  }

  // --- Counting allocations ---------------------------------------------------

  ghost function Born(h: Record, k: Key): set<nat> {
    set id | 0 <= id < |h.births| && h.births[id].info == k
  }

  ghost function FreedOf(h: Record, k: Key): set<nat> {
    set id | id in h.freed && id < |h.births| && h.births[id].info == k
  }

  ghost function ReportedOf(h: Record, k: Key): set<nat> {
    set id | id in h.reported && id < |h.births| && h.births[id].info == k
  }

  /** What the counters of a trace have to do with its allocations, born and freed. */
  ghost predicate Counts(i: WatchedStackTraceInfo, h: Record, k: Key) {
    i.created == |Born(h, k)| && i.created - i.live - i.leaked == |FreedOf(h, k)|
  }

  lemma BirthCounts(h: Record, g: Record, b: Birth, k: Key)
    requires g.births == h.births + [b] && g.freed == h.freed && forall id | id in h.freed :: id < |h.births|
    ensures |Born(g, k)| == |Born(h, k)| + (if b.info == k then 1 else 0)
    ensures FreedOf(g, k) == FreedOf(h, k)
  {
    if b.info == k {
      assert Born(g, k) == Born(h, k) + {|h.births|};
    } else {
      assert Born(g, k) == Born(h, k);
    }
  }

  lemma FreeCounts(h: Record, g: Record, id: nat, k: Key)
    requires g.births == h.births && id < |h.births| && id !in h.freed && g.freed == h.freed + {id}
    ensures Born(g, k) == Born(h, k)
    ensures |FreedOf(g, k)| == |FreedOf(h, k)| + (if h.births[id].info == k then 1 else 0)
  {
    if h.births[id].info == k {
      assert FreedOf(g, k) == FreedOf(h, k) + {id};
    } else {
      assert FreedOf(g, k) == FreedOf(h, k);
    }
  }

  lemma SameCounts(h: Record, g: Record, k: Key)
    requires g.births == h.births && g.freed == h.freed
    ensures Born(g, k) == Born(h, k) && FreedOf(g, k) == FreedOf(h, k)
  {
  }

  lemma AllocateCounts(env: Environment, w: World, h: Record, op: Op, k: Key)
    requires op.Allocate? && Faithful(env, w.s, h) && Counts(InfoOf(w.s, k), h, k)
    ensures Counts(InfoOf(StateAfter(env, w.s, op), k), Note(env, w, h, op), k)
  {
    hide StateAfter, Born, FreedOf, InfoOf, LiveRight, ReportedRight, AllBirths, WatchedStackTraceInfo.NeedsMore;
    AllocatedInfo(env, w.s, op, k);
    var g := Note(env, w, h, op);
    if Watches(env, w.s, op) {
      BirthCounts(h, g, Birth(op.now, Key(op.fingerprint, op.trace), |h.passes|), k);
    }
  }

  lemma FreeStepCounts(env: Environment, w: World, h: Record, op: Op, k: Key)
    requires op.Free? && Inv(env, w) && Faithful(env, w.s, h) && Counts(InfoOf(w.s, k), h, k)
    ensures Counts(InfoOf(StateAfter(env, w.s, op), k), Note(env, w, h, op), k)
  {
    hide Born, FreedOf, Balanced, Linked, LiveRight, ReportedRight, AllBirths;
    var g := Note(env, w, h, op);
    if ReleasesWatched(w.s, op) {
      LiveApart(env, w.s, h);
      LiveInfo(env, w.s, h, op.memory);
      FreeCounts(h, g, h.at[op.memory], k);
    }
  }

  lemma LiveInfo(env: Environment, s: State, h: Record, a: int)
    requires Faithful(env, s, h) && a in h.at
    ensures a in s.watched && h.at[a] < |h.births| && h.births[h.at[a]].info == s.watched[a].info
  {
  }

  lemma StepCounts(env: Environment, w: World, h: Record, op: Op, k: Key)
    requires Inv(env, w) && Legal(env, w, op) && Faithful(env, w.s, h) && Counts(InfoOf(w.s, k), h, k)
    ensures Counts(InfoOf(StateAfter(env, w.s, op), k), Note(env, w, h, op), k)
  {
    hide Born, FreedOf, Balanced, Linked, Disjoint, Faithful, Legal, Allocated, Freed, Patrolled, OfTrace, LeakedAt, SumOver, ActualSize, U32;
    match op
    case Allocate(_, _, _, _, _) => AllocateCounts(env, w, h, op, k);
    case Reallocate(_, _, _) => SameCounts(h, Note(env, w, h, op), k);
    case Free(_) => FreeStepCounts(env, w, h, op, k);
    case OutsideAllocate(_) =>
    case OutsideFree(_) =>
    case Patrol(now) =>
      PatrolInfo(env, w.s, now, k);
      SameCounts(h, Note(env, w, h, op), k);
  }

  lemma {:induction false} RunsCount(env: Environment, ops: seq<Op>, k: Key)
    requires LegalRun(env, ops)
    ensures Counts(InfoOf(Reached(env, ops).s, k), RecordAfter(env, ops), k)
  {
    hide Inv, Legal, Faithful, Note, StateAfter, HeapAfter, Counts;
    if |ops| == 0 {
      BlankCounts(k);
    } else {
      var before := ops[..|ops| - 1];
      assert forall i | 0 <= i < |before| :: before[..i] == ops[..i];
      RunsCount(env, before, k);
      RunsKeepInv(env, before);
      RunsAreFaithful(env, before);
      StepCounts(env, Reached(env, before), RecordAfter(env, before), ops[|ops| - 1], k);
    }
  }

  lemma BlankCounts(k: Key)
    ensures Counts(InfoOf(EMPTY, k), BLANK, k)
  {
    assert Born(BLANK, k) == {} && FreedOf(BLANK, k) == {};
  }

  /** A one-to-one table numbers as many allocations as it has addresses. */
  lemma {:induction false} NumbersSize(at: map<int, nat>, on: set<int>)
    requires on <= at.Keys
    requires forall a, b | a in on && b in on && at[a] == at[b] :: a == b
    ensures |Numbers(at, on)| == |on|
    decreases |on|
  {
    if on != {} {
      var a := AnyOf(on);
      NumbersSize(at, on - {a});
      var all, rest := Numbers(at, on), Numbers(at, on - {a});
      assert at[a] in all;
      assert forall id: nat | id in all :: id == at[a] || id in rest;
      assert forall id: nat | id in rest :: id in all && id != at[a];
      OneLess(all, rest, at[a]);
    } else {
      assert Numbers(at, on) == {};
    }
  }

  /** The allocations of a trace are its live, its freed and its reported ones. */
  lemma Divided(env: Environment, s: State, h: Record, k: Key)
    requires Faithful(env, s, h)
    ensures |Born(h, k)| == |On(s.watched, k)| + |FreedOf(h, k)| + |ReportedOf(h, k)|
  {
    hide FateOf, LiveRight, On, Numbers;
    LiveApart(env, s, h);
    var on := On(s.watched, k);
    OnAt(env, s, h, k);
    var live := Numbers(h.at, on);
    NumbersSize(h.at, on);
    forall id: nat ensures id in live <==> id < |h.births| && h.births[id].info == k && Present(h.at, id) {
      LiveOfTrace(env, s, h, k, id);
    }
    forall id: nat ensures
      && (id in Born(h, k) <==> id in live || id in FreedOf(h, k) || id in ReportedOf(h, k))
      && !(id in live && id in FreedOf(h, k)) && !(id in live && id in ReportedOf(h, k)) && !(id in FreedOf(h, k) && id in ReportedOf(h, k))
    {
    }
    PartitionSize(Born(h, k), live, FreedOf(h, k), ReportedOf(h, k));
  }

  lemma OnAt(env: Environment, s: State, h: Record, k: Key)
    requires Faithful(env, s, h)
    ensures On(s.watched, k) <= h.at.Keys
    ensures forall a, b | a in On(s.watched, k) && b in On(s.watched, k) && h.at[a] == h.at[b] :: a == b
  {
    hide FateOf, LiveRight, ReportedRight, AllBirths;
  }

  lemma LiveOfTrace(env: Environment, s: State, h: Record, k: Key, id: nat)
    requires Faithful(env, s, h)
    ensures On(s.watched, k) <= h.at.Keys
    ensures id in Numbers(h.at, On(s.watched, k)) <==> id < |h.births| && h.births[id].info == k && Present(h.at, id)
  {
  }

  /** The counter ledger: over every run the counters of a trace are the numbers of its
      allocations created, live, reported as leaks, and, for what remains, freed. */
  lemma CountersCount(env: Environment, ops: seq<Op>, k: Key)
    requires LegalRun(env, ops)
    ensures var i, h := InfoOf(Reached(env, ops).s, k), RecordAfter(env, ops);
      && i.created == |Born(h, k)|
      && i.live == |On(Reached(env, ops).s.watched, k)|
      && i.leaked == |ReportedOf(h, k)|
      && i.created == i.live + i.leaked + |FreedOf(h, k)|
  {
    hide Faithful, Born, On, FreedOf, ReportedOf, Reached, RecordAfter, Disjoint, Legal;
    var s := Reached(env, ops).s;
    RunsCount(env, ops, k);
    RunsKeepInv(env, ops);
    RunsAreFaithful(env, ops);
    Divided(env, s, RecordAfter(env, ops), k);
    if k !in s.infos {
      NothingOn(s, k);
    }
  }

  // --- Verdicts and decisions, in terms of the history ---------------------------

  /** Over every run the verdict on a trace is True when an allocation of it was reported, False when
      none was and enough were freed while watched, and Unknown otherwise. */
  lemma VerdictMeans(env: Environment, ops: seq<Op>, k: Key)
    requires LegalRun(env, ops)
    ensures var verdict, h := InfoOf(Reached(env, ops).s, k).HasLeaks(env), RecordAfter(env, ops);
      && (verdict == True <==> ReportedOf(h, k) != {})
      && (verdict == False <==> ReportedOf(h, k) == {} && |FreedOf(h, k)| >= env.enoughSamplesToProveNoLeak)
      && (verdict == Unknown <==> ReportedOf(h, k) == {} && |FreedOf(h, k)| < env.enoughSamplesToProveNoLeak)
  {
    hide Reached, RecordAfter, LegalRun, Born, FreedOf, ReportedOf, On;
    CountersCount(env, ops, k);
    EmptyIff(ReportedOf(RecordAfter(env, ops), k));
  }

  lemma EmptyIff<T>(s: set<T>)
    ensures s == {} <==> |s| == 0
  {
  }

  /** There is room for another watched record of the trace, and reason for one: a leak was found, or
      too few were freed to rule one out. */
  ghost predicate WorthWatching(env: Environment, s: State, h: Record, k: Key) {
    && |On(s.watched, k)| < env.maxLivePerTrace
    && |s.watched| < env.globalMaxLive
    && (ReportedOf(h, k) != {} || |FreedOf(h, k)| < env.enoughSamplesToProveNoLeak)
  }

  /** At any point of a run an allocation under a suspicious fingerprint is watched if and only if
      this is so and memory was found, and it is counted as skipped if and only if this is not so. */
  lemma WatchedIff(env: Environment, ops: seq<Op>, op: Op)
    requires LegalRun(env, ops) && op.Allocate? && Legal(env, Reached(env, ops), op)
    requires op.fingerprint in Reached(env, ops).s.fingerprints
    ensures var s, t, h := Reached(env, ops).s, Reached(env, ops + [op]).s, RecordAfter(env, ops);
      var k := Key(op.fingerprint, op.trace);
      && op.memory !in s.watched && t.light == s.light
      && t.watched == (if WorthWatching(env, s, h, k) && op.memory != NULL
          then s.watched[op.memory := Watched(op.memory, op.size % 0x1_0000_0000, op.now + env.timeForAllocationToBecomeSuspicious, NotYetSuspicious, op.now, k)]
          else s.watched)
      && InfoOf(t, k).skipped == InfoOf(s, k).skipped + (if WorthWatching(env, s, h, k) then 0 else 1)
      && InfoOf(t, k).created == InfoOf(s, k).created + (if WorthWatching(env, s, h, k) && op.memory != NULL then 1 else 0)
  {
    hide LegalRun, Legal, RecordAfter, Born, FreedOf, ReportedOf, On, WorthWatching, U32, WatchedStackTraceInfo.NeedsMore;
    assert (ops + [op])[..|ops|] == ops;
    var s, h, k := Reached(env, ops).s, RecordAfter(env, ops), Key(op.fingerprint, op.trace);
    RunsKeepInv(env, ops);
    NewIsNotWatched(env, Reached(env, ops), op);
    WorthIffNeeded(env, ops, k);
  }

  lemma NewIsNotWatched(env: Environment, w: World, op: Op)
    requires Inv(env, w) && op.Allocate? && Legal(env, w, op)
    ensures op.memory !in w.s.watched
  {
    hide Balanced, Linked;
  }

  lemma WorthIffNeeded(env: Environment, ops: seq<Op>, k: Key)
    requires LegalRun(env, ops)
    ensures var s := Reached(env, ops).s;
      InfoOf(s, k).NeedsMore(env, s.liveAllTraces) <==> WorthWatching(env, s, RecordAfter(env, ops), k)
  {
    hide Reached, RecordAfter, LegalRun, Born, FreedOf, ReportedOf, On, Linked, Disjoint, WatchedStackTraceInfo.HasLeaks;
    RunsKeepInv(env, ops);
    CountersCount(env, ops, k);
    VerdictMeans(env, ops, k);
  }
}
