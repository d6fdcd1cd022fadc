// How the verdict on a stack trace develops over a run.
module Verdicts {
  import opened Basics
  import opened TraceInfo
  import opened AllocationTable
  import opened Ledger

  /** No more records will be watched for the trace: proven not to leak, and none is left. */
  ghost predicate Retired(env: Environment, i: WatchedStackTraceInfo) {
    i.HasLeaks(env) == False && i.live == 0
  }

  /** The order in which an info develops: counts grow, True stays True, False only becomes
      True, Unknown is never entered again, and a retired trace stays retired. */
  ghost predicate Later(env: Environment, i: WatchedStackTraceInfo, j: WatchedStackTraceInfo) {
    && i.created <= j.created && i.leaked <= j.leaked && i.skipped <= j.skipped && i.Finished() <= j.Finished()
    && (i.HasLeaks(env) == True ==> j.HasLeaks(env) == True)
    && (i.HasLeaks(env) == False ==> j.HasLeaks(env) != Unknown)
    && (j.HasLeaks(env) == Unknown ==> i.HasLeaks(env) == Unknown)
    && (Retired(env, i) ==> Retired(env, j) && j.created == i.created)
  }

  lemma LaterTransitive(env: Environment, i: WatchedStackTraceInfo, j: WatchedStackTraceInfo, k: WatchedStackTraceInfo)
    requires Later(env, i, j) && Later(env, j, k)
    ensures Later(env, i, k)
  {
  }

  lemma PatrolInfo(env: Environment, s: State, now: nat, k: Key)
    requires Linked(s)
    ensures InfoOf(Patrolled(env, s, now), k) == (if k in s.infos then AddLeaks(s, s.infos[k], OfTrace(s, LeakedAt(s, now, s.watched.Keys), k)) else NEW)
  {
  }

  lemma LeaksAreLive(env: Environment, s: State, now: nat, k: Key)
    requires Balanced(env, s) && k in s.infos
    ensures |OfTrace(s, LeakedAt(s, now, s.watched.Keys), k)| <= s.infos[k].live
  {
    SubsetSize(OfTrace(s, LeakedAt(s, now, s.watched.Keys), k), On(s.watched, k));
  }

  lemma StepLater(env: Environment, w: World, op: Op, k: Key)
    requires Inv(env, w) && Legal(env, w, op)
    ensures Later(env, InfoOf(w.s, k), InfoOf(Step(env, w, op).s, k))
  {
    hide Legal, Balanced, Disjoint, Linked, Patrolled, Allocated, Freed, Later, ActualSize, U32;
    match op
    case Allocate(_, _, _, _, _) => AllocateLater(env, w.s, op, k);
    case Reallocate(_, _, _) => LaterReflexive(env, InfoOf(w.s, k));
    case Free(memory) => FreeLater(env, w, memory, k);
    case OutsideAllocate(_) => LaterReflexive(env, InfoOf(w.s, k));
    case OutsideFree(_) => LaterReflexive(env, InfoOf(w.s, k));
    case Patrol(now) => PatrolLater(env, w, now, k);
  }

  /** What one event in the life of a trace does to its info. */
  lemma EventsLater(env: Environment, i: WatchedStackTraceInfo, liveAll: int)
    ensures Later(env, i, i.(skipped := i.skipped + 1))
    ensures i.NeedsMore(env, liveAll) ==> Later(env, i, i.(live := i.live + 1, created := i.created + 1))
    ensures i.live >= 1 ==> Later(env, i, i.(live := i.live - 1))
  {
  }

  lemma AllocatedInfo(env: Environment, s: State, op: Op, k: Key)
    requires op.Allocate?
    ensures var i, j := InfoOf(s, k), InfoOf(StateAfter(env, s, op), k);
      if k == Key(op.fingerprint, op.trace) && op.fingerprint in s.fingerprints then
        if !i.NeedsMore(env, s.liveAllTraces) then j == i.(skipped := i.skipped + 1)
        else if op.memory == NULL then j == i
        else j == i.(live := i.live + 1, created := i.created + 1)
      else j == i
    ensures k in s.infos ==> k in StateAfter(env, s, op).infos
  {
    hide U32, WatchedStackTraceInfo.NeedsMore;
  }

  lemma FreedInfo(s: State, memory: int, k: Key)
    ensures var i, j := InfoOf(s, k), InfoOf(Freed(s, memory), k);
      j == i || (memory in s.watched && s.watched[memory].info == k && j == i.(live := i.live - 1))
    ensures k in s.infos ==> k in Freed(s, memory).infos
  {
  }

  lemma AllocateLater(env: Environment, s: State, op: Op, k: Key)
    requires op.Allocate?
    ensures Later(env, InfoOf(s, k), InfoOf(StateAfter(env, s, op), k))
  {
    hide *;
    AllocatedInfo(env, s, op, k);
    EventsLater(env, InfoOf(s, k), s.liveAllTraces);
    LaterReflexive(env, InfoOf(s, k));
  }

  lemma FreeLater(env: Environment, w: World, memory: int, k: Key)
    requires Linked(w.s) && Balanced(env, w.s)
    ensures Later(env, InfoOf(w.s, k), InfoOf(Freed(w.s, memory), k))
  {
    hide *;
    FreedInfo(w.s, memory, k);
    if memory in w.s.watched {
      LiveOn(env, w.s, memory);
    }
    EventsLater(env, InfoOf(w.s, k), 0);
    LaterReflexive(env, InfoOf(w.s, k));
  }

  lemma PatrolLater(env: Environment, w: World, now: nat, k: Key)
    requires Inv(env, w)
    ensures Later(env, InfoOf(w.s, k), InfoOf(Patrolled(env, w.s, now), k))
  {
    hide Patrolled, OfTrace, LeakedAt, SumOver, On;
    PatrolInfo(env, w.s, now, k);
    if k in w.s.infos {
      LeaksAreLive(env, w.s, now, k);
    }
  }

  lemma LiveOn(env: Environment, s: State, a: int)
    requires Linked(s) && Balanced(env, s) && a in s.watched
    ensures InfoOf(s, s.watched[a].info).live >= 1
  {
    assert a in On(s.watched, s.watched[a].info);
  }

  /** Verdict ordering over runs: however a run continues, each info only develops this way. */
  lemma {:induction false} VerdictsOnlyDevelop(env: Environment, ops: seq<Op>, m: nat, k: Key)
    requires LegalRun(env, ops) && m <= |ops|
    ensures Later(env, InfoOf(Reached(env, ops[..m]).s, k), InfoOf(Reached(env, ops).s, k))
  {
    hide Inv, Step, Legal, Later;
    if m == |ops| {
      assert ops[..m] == ops;
      LaterReflexive(env, InfoOf(Reached(env, ops).s, k));
    } else {
      var before := ops[..|ops| - 1];
      assert forall i | 0 <= i < |before| :: before[..i] == ops[..i];
      assert before[..m] == ops[..m];
      VerdictsOnlyDevelop(env, before, m, k);
      RunsKeepInv(env, before);
      StepLater(env, Reached(env, before), ops[|ops| - 1], k);
      LaterTransitive(env, InfoOf(Reached(env, ops[..m]).s, k), InfoOf(Reached(env, before).s, k), InfoOf(Reached(env, ops).s, k));
    }
  }

  lemma LaterReflexive(env: Environment, i: WatchedStackTraceInfo)
    ensures Later(env, i, i)
  {
  }

  function Requests(ops: seq<Op>, k: Key): nat {
    if |ops| == 0 then 0
    else Requests(ops[..|ops| - 1], k) + (var op := ops[|ops| - 1]; if op.Allocate? && Key(op.fingerprint, op.trace) == k then 1 else 0)
  }

  lemma RetiredStep(env: Environment, w: World, op: Op, k: Key)
    requires Inv(env, w) && Legal(env, w, op) && k in w.s.infos && Retired(env, w.s.infos[k])
    ensures var t := Step(env, w, op).s;
      k in t.infos && t.infos[k].skipped == w.s.infos[k].skipped + (if op.Allocate? && Key(op.fingerprint, op.trace) == k then 1 else 0)
  {
    hide Balanced, Disjoint, Linked, Legal, Patrolled, Allocated, Freed, ActualSize, U32, OfTrace, LeakedAt, SumOver;
    match op
    case Allocate(_, _, _, _, _) =>
      AllocatedInfo(env, w.s, op, k);
      KnownFingerprint(env, w.s, k);
    case Reallocate(_, _, _) =>
    case Free(memory) => FreedInfo(w.s, memory, k);
    case OutsideAllocate(_) =>
    case OutsideFree(_) =>
    case Patrol(now) =>
      PatrolInfo(env, w.s, now, k);
      PatrolKeeps(env, w.s, now);
  }

  lemma KnownFingerprint(env: Environment, s: State, k: Key)
    requires Balanced(env, s) && k in s.infos
    ensures k.fingerprint in s.fingerprints
  {
  }

  lemma PatrolKeeps(env: Environment, s: State, now: nat)
    ensures Patrolled(env, s, now).infos.Keys == s.infos.Keys
  {
    InfosKept(env, SweptLight(s, now, s.light.Keys), now, s.watched.Keys);
  }

  /** From the moment a trace is retired every allocation it makes is counted as skipped. */
  lemma {:induction false} RetiredTracesSkip(env: Environment, ops: seq<Op>, m: nat, k: Key)
    requires LegalRun(env, ops) && m <= |ops|
    requires var s := Reached(env, ops[..m]).s; k in s.infos && Retired(env, s.infos[k])
    ensures var s, t := Reached(env, ops[..m]).s, Reached(env, ops).s;
      k in t.infos && t.infos[k].skipped == s.infos[k].skipped + Requests(ops, k) - Requests(ops[..m], k)
  {
    hide Inv, Step, Legal, Later, Retired;
    if m == |ops| {
      assert ops[..m] == ops;
    } else {
      var before := ops[..|ops| - 1];
      assert forall i | 0 <= i < |before| :: before[..i] == ops[..i];
      assert before[..m] == ops[..m];
      RetiredTracesSkip(env, before, m, k);
      VerdictsOnlyDevelop(env, before, m, k);
      RunsKeepInv(env, before);
      StillRetired(env, InfoOf(Reached(env, ops[..m]).s, k), InfoOf(Reached(env, before).s, k));
      RetiredStep(env, Reached(env, before), ops[|ops| - 1], k);
    }
  }

  lemma StillRetired(env: Environment, i: WatchedStackTraceInfo, j: WatchedStackTraceInfo)
    requires Later(env, i, j) && Retired(env, i)
    ensures Retired(env, j) && j.created == i.created
  {
  }
}
