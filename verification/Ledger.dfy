// The allocation table against the heap it watches: what every operation keeps.
module Ledger {
  import opened Basics
  import opened TraceInfo
  import opened AllocationTable

  /** A call, or a pass of the patrol thread. `memory` is what the allocator that answers the
      call returns. The outside calls are those that bypass the table. */
  datatype Op =
    | Allocate(size: nat, fingerprint: nat, trace: nat, memory: int, now: nat)
    | Reallocate(oldMemory: int, newSize: nat, memory: int)
    | Free(memory: int)
    | OutsideAllocate(memory: int)
    | OutsideFree(memory: int)
    | Patrol(now: nat)

  /** The table, and the addresses the underlying allocators have out. */
  datatype World = World(s: State, heap: set<int>)

  const START: World := World(EMPTY, {})

  predicate Fresh(heap: set<int>, memory: int) {
    memory != NULL && memory !in heap
  }

  /** The realloc of a watched record that needs other pages: a new block is made and the old
      one stays. */
  predicate MovesPages(env: Environment, s: State, oldMemory: int, newSize: nat) {
    oldMemory !in s.light && oldMemory in s.watched &&
    ActualSize(env, newSize) != ActualSize(env, s.watched[oldMemory].requestedSize)
  }

  predicate KeepsPages(env: Environment, s: State, oldMemory: int, newSize: nat) {
    oldMemory !in s.light && oldMemory in s.watched &&
    ActualSize(env, newSize) == ActualSize(env, s.watched[oldMemory].requestedSize)
  }

  /** Allocators answer with NULL or an address that is not out; callers pass addresses that
      are; code inside the library frees only what it allocated there. A closely watched record
      that needs other pages gets them: the code copies to whatever address it is given. */
  predicate Legal(env: Environment, w: World, op: Op) {
    match op
    case Allocate(_, _, _, memory, _) => memory == NULL || Fresh(w.heap, memory)
    case Reallocate(oldMemory, newSize, memory) =>
      && oldMemory in w.heap
      && (if MovesPages(env, w.s, oldMemory, newSize) then Fresh(w.heap, memory)
          else memory == NULL || memory == oldMemory || Fresh(w.heap, memory))
    case Free(memory) => memory == NULL || memory in w.heap
    case OutsideAllocate(memory) => memory == NULL || Fresh(w.heap, memory)
    case OutsideFree(memory) => memory in w.heap && memory !in w.s.light && memory !in w.s.watched
    case Patrol(_) => true
  }

  ghost function StateAfter(env: Environment, s: State, op: Op): State {
    match op
    case Allocate(size, fingerprint, trace, memory, now) => Allocated(env, s, size, fingerprint, trace, memory, now)
    case Reallocate(oldMemory, newSize, memory) => Reallocated(env, s, oldMemory, newSize, memory)
    case Free(memory) => Freed(s, memory)
    case OutsideAllocate(_) => s
    case OutsideFree(_) => s
    case Patrol(now) => Patrolled(env, s, now)
  }

  function HeapAfter(env: Environment, w: World, op: Op): set<int> {
    match op
    case Allocate(_, _, _, memory, _) => if memory == NULL then w.heap else w.heap + {memory}
    case Reallocate(oldMemory, newSize, memory) =>
      if KeepsPages(env, w.s, oldMemory, newSize) || memory == NULL then w.heap
      else if MovesPages(env, w.s, oldMemory, newSize) then w.heap + {memory}
      else w.heap - {oldMemory} + {memory}
    case Free(memory) => w.heap - {memory}
    case OutsideAllocate(memory) => if memory == NULL then w.heap else w.heap + {memory}
    case OutsideFree(memory) => w.heap - {memory}
    case Patrol(_) => w.heap
  }

  ghost function Step(env: Environment, w: World, op: Op): World {
    World(StateAfter(env, w.s, op), HeapAfter(env, w, op))
  }

  // --- The ledger -----------------------------------------------------------

  /** The watched addresses charged to a trace. */
  ghost function On(watched: map<int, CloselyWatchedAllocation>, k: Key): set<int> {
    set a | a in watched && watched[a].info == k
  }

  /** Every counter is right and within its budget. */
  ghost predicate Balanced(env: Environment, s: State) {
    && s.liveAllTraces == |s.watched| <= env.globalMaxLive
    && (forall k | k in s.infos ::
      && k.fingerprint in s.fingerprints
      && s.infos[k].Consistent()
      && s.infos[k].live == |On(s.watched, k)| <= env.maxLivePerTrace)
  }

  /** The tables hold addresses that are out, or NULL for a light record after a failed realloc, and
      none holds an address of the other. */
  ghost predicate Disjoint(w: World) {
    && NULL !in w.heap
    && w.s.light.Keys <= w.heap + {NULL} && w.s.watched.Keys <= w.heap
    && w.s.light.Keys !! w.s.watched.Keys
  }

  ghost predicate Inv(env: Environment, w: World) {
    Linked(w.s) && Balanced(env, w.s) && Disjoint(w)
  }

  lemma StartInv(env: Environment)
    ensures Inv(env, START)
  {
  }

  // --- How the charged addresses change -------------------------------------

  lemma OnAdded(watched: map<int, CloselyWatchedAllocation>, a: int, r: CloselyWatchedAllocation, k: Key)
    requires a !in watched
    ensures |On(watched[a := r], k)| == |On(watched, k)| + (if r.info == k then 1 else 0)
  {
    var after, before := On(watched[a := r], k), On(watched, k);
    if r.info == k {
      OneLess(after, before, a);
    } else {
      assert after == before;
    }
  }

  lemma OnRemoved(watched: map<int, CloselyWatchedAllocation>, a: int, k: Key)
    requires a in watched
    ensures |On(watched - {a}, k)| == |On(watched, k)| - (if watched[a].info == k then 1 else 0)
  {
    var after, before := On(watched - {a}, k), On(watched, k);
    if watched[a].info == k {
      OneLess(before, after, a);
    } else {
      assert after == before;
    }
  }

  lemma OnUpdated(watched: map<int, CloselyWatchedAllocation>, a: int, r: CloselyWatchedAllocation, k: Key)
    requires a in watched && r.info == watched[a].info
    ensures On(watched[a := r], k) == On(watched, k)
  {
  }

  /** From one table of watched records to another, trace `k` has `n` more and the others as many. */
  ghost predicate Moved(before: map<int, CloselyWatchedAllocation>, after: map<int, CloselyWatchedAllocation>, k: Key, n: int) {
    && |after| == |before| + n
    && (forall q :: |On(after, q)| == |On(before, q)| + (if q == k then n else 0))
  }

  lemma MovedIn(watched: map<int, CloselyWatchedAllocation>, a: int, r: CloselyWatchedAllocation)
    requires a !in watched
    ensures Moved(watched, watched[a := r], r.info, 1)
  {
    hide On;
    MapSizes(watched, a, r);
    forall q: Key ensures |On(watched[a := r], q)| == |On(watched, q)| + (if q == r.info then 1 else 0) {
      OnAdded(watched, a, r, q);
    }
  }

  lemma MovedOut(watched: map<int, CloselyWatchedAllocation>, a: int)
    requires a in watched
    ensures Moved(watched, watched - {a}, watched[a].info, -1)
  {
    hide On;
    MapSizes(watched, a, watched[a]);
    forall q: Key ensures |On(watched - {a}, q)| == |On(watched, q)| + (if q == watched[a].info then -1 else 0) {
      OnRemoved(watched, a, q);
    }
  }

  lemma MovedNot(watched: map<int, CloselyWatchedAllocation>, a: int, r: CloselyWatchedAllocation, k: Key)
    requires a in watched && r.info == watched[a].info
    ensures Moved(watched, watched[a := r], k, 0)
  {
    hide On;
    MapSizes(watched, a, r);
    forall q: Key ensures On(watched[a := r], q) == On(watched, q) {
      OnUpdated(watched, a, r, q);
    }
  }

  lemma MovedTwice(a: map<int, CloselyWatchedAllocation>, b: map<int, CloselyWatchedAllocation>, c: map<int, CloselyWatchedAllocation>, k: Key)
    requires Moved(a, b, k, 1) && Moved(b, c, k, -1)
    ensures Moved(a, c, k, 0)
  {
    hide On;
  }

  /** One trace's info changes together with the records charged to it: the ledger stays right. */
  lemma BalancedAfter(env: Environment, s: State, t: State, k: Key, n: int)
    requires Balanced(env, s) && Moved(s.watched, t.watched, k, n)
    requires k in s.infos || |On(s.watched, k)| == 0
    requires s.fingerprints <= t.fingerprints && k.fingerprint in t.fingerprints
    requires k in t.infos && t.infos == s.infos[k := t.infos[k]]
    requires t.infos[k].Consistent() && t.infos[k].live == InfoOf(s, k).live + n <= env.maxLivePerTrace
    requires t.liveAllTraces == s.liveAllTraces + n <= env.globalMaxLive
    ensures Balanced(env, t)
  {
  }

  lemma BalancedSame(env: Environment, s: State, t: State, k: Key)
    requires Balanced(env, s) && Moved(s.watched, t.watched, k, 0)
    requires t.fingerprints == s.fingerprints && t.infos == s.infos && t.liveAllTraces == s.liveAllTraces
    ensures Balanced(env, t)
  {
    hide On;
  }

  // --- Each operation -------------------------------------------------------

  lemma NothingOn(s: State, k: Key)
    requires Linked(s) && k !in s.infos
    ensures |On(s.watched, k)| == 0
  {
    if On(s.watched, k) != {} {
      var a := Pick(On(s.watched, k));
      assert false;
    }
  }

  lemma NothingMoved(watched: map<int, CloselyWatchedAllocation>, k: Key)
    ensures Moved(watched, watched, k, 0)
  {
  }

  lemma AllocatedBalanced(env: Environment, s: State, op: Op)
    requires Linked(s) && Balanced(env, s) && op.Allocate? && op.memory !in s.watched
    ensures Balanced(env, StateAfter(env, s, op))
  {
    hide On, Balanced, Moved, Linked, U32;
    var k := Key(op.fingerprint, op.trace);
    var t := StateAfter(env, s, op);
    if op.fingerprint !in s.fingerprints {
      NothingMoved(s.watched, k);
      BalancedSame(env, s, t, k);
    } else {
      if k !in s.infos {
        NothingOn(s, k);
      }
      InfoConsistent(env, s, k);
      if InfoOf(s, k).NeedsMore(env, s.liveAllTraces) && op.memory != NULL {
        WatchedBalanced(env, s, op);
      } else {
        NothingMoved(s.watched, k);
        BalancedAfter(env, s, t, k, 0);
      }
    }
  }

  lemma WatchedBalanced(env: Environment, s: State, op: Op)
    requires Linked(s) && Balanced(env, s) && op.Allocate? && op.memory !in s.watched && op.memory != NULL
    requires op.fingerprint in s.fingerprints && InfoOf(s, Key(op.fingerprint, op.trace)).NeedsMore(env, s.liveAllTraces)
    ensures Balanced(env, StateAfter(env, s, op))
  {
    hide On, Balanced, Moved, Linked, U32;
    var k := Key(op.fingerprint, op.trace);
    var t := StateAfter(env, s, op);
    if k !in s.infos {
      NothingOn(s, k);
    }
    InfoConsistent(env, s, k);
    MovedIn(s.watched, op.memory, t.watched[op.memory]);
    BalancedAfter(env, s, t, k, 1);
  }

  lemma InfoConsistent(env: Environment, s: State, k: Key)
    requires Balanced(env, s)
    ensures InfoOf(s, k).Consistent() && InfoOf(s, k).live <= env.maxLivePerTrace && s.liveAllTraces <= env.globalMaxLive
    ensures k in s.infos ==> k.fingerprint in s.fingerprints && s.infos[k].live == |On(s.watched, k)|
  {
  }

  lemma AllocatedInv(env: Environment, w: World, op: Op)
    requires Inv(env, w) && op.Allocate? && Legal(env, w, op)
    ensures Inv(env, Step(env, w, op))
  {
    hide Balanced, Linked, Disjoint, Allocated;
    AllocatedPlaced(env, w, op);
    AllocatedBalanced(env, w.s, op);
  }

  lemma AllocatedPlaced(env: Environment, w: World, op: Op)
    requires Linked(w.s) && Disjoint(w) && op.Allocate? && Legal(env, w, op)
    ensures op.memory !in w.s.watched
    ensures Linked(StateAfter(env, w.s, op)) && Disjoint(Step(env, w, op))
  {
    hide WatchedStackTraceInfo.NeedsMore, U32;
  }

  lemma ReallocatedBalanced(env: Environment, w: World, op: Op)
    requires Linked(w.s) && Balanced(env, w.s) && Disjoint(w) && op.Reallocate? && Legal(env, w, op)
    ensures Balanced(env, StateAfter(env, w.s, op))
  {
    hide On, Balanced, Moved, Linked, ActualSize;
    var s := w.s;
    var t := StateAfter(env, s, op);
    if op.oldMemory !in s.light && op.oldMemory in s.watched {
      var r := s.watched[op.oldMemory].(requestedSize := U32(op.newSize));
      if MovesPages(env, s, op.oldMemory, op.newSize) {
        var between := s.watched[op.memory := r.(memory := op.memory)];
        MovedIn(s.watched, op.memory, r.(memory := op.memory));
        MovedOut(between, op.oldMemory);
        MovedTwice(s.watched, between, t.watched, r.info);
      } else {
        MovedNot(s.watched, op.oldMemory, r, r.info);
      }
      BalancedSame(env, s, t, r.info);
    } else {
      NothingMoved(s.watched, Key(0, 0));
      BalancedSame(env, s, t, Key(0, 0));
    }
  }

  lemma ReallocatedInv(env: Environment, w: World, op: Op)
    requires Inv(env, w) && op.Reallocate? && Legal(env, w, op)
    ensures Inv(env, Step(env, w, op))
  {
    hide Balanced, ActualSize;
    ReallocatedBalanced(env, w, op);
  }

  lemma FreedBalanced(env: Environment, s: State, memory: int)
    requires Linked(s) && Balanced(env, s)
    ensures Balanced(env, Freed(s, memory))
  {
    hide On, Balanced, Moved;
    var t := Freed(s, memory);
    if memory != NULL && memory !in s.light && memory in s.watched {
      var k := s.watched[memory].info;
      InfoConsistent(env, s, k);
      OnRemoved(s.watched, memory, k);
      MovedOut(s.watched, memory);
      BalancedAfter(env, s, t, k, -1);
    } else {
      NothingMoved(s.watched, Key(0, 0));
      BalancedSame(env, s, t, Key(0, 0));
    }
  }

  lemma FreedInv(env: Environment, w: World, op: Op)
    requires Inv(env, w) && op.Free? && Legal(env, w, op)
    ensures Inv(env, Step(env, w, op))
  {
    hide Balanced;
    FreedBalanced(env, w.s, op.memory);
  }

  lemma VisitWatchedBalanced(env: Environment, s: State, now: nat, a: int)
    requires Linked(s) && Balanced(env, s) && a in s.watched
    ensures Balanced(env, VisitWatched(env, s, now, a))
  {
    hide On, Balanced, Moved;
    var t := VisitWatched(env, s, now, a);
    var k := s.watched[a].info;
    if Leaks(s.watched[a], now) {
      InfoConsistent(env, s, k);
      OnRemoved(s.watched, a, k);
      MovedOut(s.watched, a);
      BalancedAfter(env, s, t, k, -1);
    } else {
      MovedNot(s.watched, a, Aged(env, s.watched[a], now), k);
      BalancedSame(env, s, t, k);
    }
  }

  lemma VisitWatchedInv(env: Environment, w: World, now: nat, a: int)
    requires Inv(env, w) && a in w.s.watched
    ensures Inv(env, World(VisitWatched(env, w.s, now, a), w.heap))
  {
    hide Balanced;
    VisitWatchedBalanced(env, w.s, now, a);
  }

  lemma SweptLightInv(env: Environment, w: World, now: nat, done: set<int>)
    requires Inv(env, w) && done <= w.s.light.Keys
    ensures Inv(env, World(SweptLight(w.s, now, done), w.heap))
  {
  }

  lemma InvLinked(env: Environment, w: World)
    requires Inv(env, w)
    ensures Linked(w.s)
  {
  }

  lemma {:induction false} SweptWatchedInv(env: Environment, w: World, now: nat, done: set<int>)
    requires Inv(env, w) && done <= w.s.watched.Keys
    ensures Inv(env, World(SweptWatched(env, w.s, now, done), w.heap))
    decreases |done|
  {
    hide Inv, SweptWatched, VisitWatched;
    if done == {} {
      SweptNothing(env, w.s, now);
    } else {
      var a := AnyOf(done);
      var rest := done - {a};
      assert rest + {a} == done;
      SweptWatchedInv(env, w, now, rest);
      InvLinked(env, w);
      SweepWatchedStep(env, w.s, now, rest, a);
      VisitWatchedInv(env, World(SweptWatched(env, w.s, now, rest), w.heap), now, a);
    }
  }

  /** Every operation, and a whole pass of the patrol thread, keeps the ledger. */
  lemma StepKeepsInv(env: Environment, w: World, op: Op)
    requires Inv(env, w) && Legal(env, w, op)
    ensures Inv(env, Step(env, w, op))
  {
    match op
    case Allocate(_, _, _, _, _) => AllocatedInv(env, w, op);
    case Reallocate(_, _, _) => ReallocatedInv(env, w, op);
    case Free(_) => FreedInv(env, w, op);
    case OutsideAllocate(_) =>
    case OutsideFree(_) =>
    case Patrol(now) =>
      var t := SweptLight(w.s, now, w.s.light.Keys);
      SweptLightInv(env, w, now, w.s.light.Keys);
      SweptWatchedInv(env, World(t, w.heap), now, t.watched.Keys);
  }

  ghost function Reached(env: Environment, ops: seq<Op>): World {
    if |ops| == 0 then START else Step(env, Reached(env, ops[..|ops| - 1]), ops[|ops| - 1])
  }

  ghost predicate LegalRun(env: Environment, ops: seq<Op>) {
    forall i | 0 <= i < |ops| :: Legal(env, Reached(env, ops[..i]), ops[i])
  }

  /** Ledger and budgets, over every run: live counts are the records charged to their traces,
      no counter underflows, and neither budget is exceeded. */
  lemma {:induction false} RunsKeepInv(env: Environment, ops: seq<Op>)
    requires LegalRun(env, ops)
    ensures Inv(env, Reached(env, ops))
  {
    hide Inv, Step, Legal;
    if |ops| == 0 {
      StartInv(env);
    } else {
      var before := ops[..|ops| - 1];
      assert forall i | 0 <= i < |before| :: before[..i] == ops[..i];
      RunsKeepInv(env, before);
      StepKeepsInv(env, Reached(env, before), ops[|ops| - 1]);
    }
  }

  // --- Totals ---------------------------------------------------------------

  ghost function OnCount(watched: map<int, CloselyWatchedAllocation>): Key -> int {
    k => |On(watched, k)|
  }

  lemma {:induction false} ChargesAddUp(watched: map<int, CloselyWatchedAllocation>, keys: set<Key>)
    requires forall a | a in watched :: watched[a].info in keys
    ensures SumOver(keys, OnCount(watched)) == |watched|
    decreases |watched|
  {
    hide On;
    if watched == map[] {
      forall k | k in keys ensures OnCount(watched)(k) == 0 {
        NoneOn(k);
      }
      SumOverZero(keys, OnCount(watched));
    } else {
      var a := AnyOf(watched.Keys);
      var rest := watched - {a};
      MapSizes(watched, a, watched[a]);
      ChargesAddUp(rest, keys);
      forall k | k in keys ensures OnCount(watched)(k) == OnCount(rest)(k) + (if k == watched[a].info then 1 else 0) {
        OnRemoved(watched, a, k);
      }
      SumOverBump(keys, OnCount(rest), OnCount(watched), watched[a].info, 1);
    }
  }

  lemma NoneOn(k: Key)
    ensures On(map[], k) == {}
  {
  }

  ghost function LiveCount(s: State): Key -> int {
    k => if k in s.infos then s.infos[k].live else 0
  }

  /** The global live count is the sum of the traces' and the size of the table. */
  lemma LiveAddsUp(env: Environment, w: World)
    requires Inv(env, w)
    ensures SumOver(w.s.infos.Keys, LiveCount(w.s)) == w.s.liveAllTraces == |w.s.watched|
  {
    hide On, WatchedStackTraceInfo.Consistent;
    ChargesAddUp(w.s.watched, w.s.infos.Keys);
    SumOverSame(w.s.infos.Keys, LiveCount(w.s), OnCount(w.s.watched));
  }

  /** A failed realloc of a light record files it under NULL: after the step the table is within the
      heap exactly when the realloc did not fail and no record was under NULL before. When one was,
      a failure loses the record. */
  lemma FailedReallocFilesNull(env: Environment, w: World, oldMemory: int, newSize: nat, memory: int)
    requires Inv(env, w) && oldMemory in w.s.light && oldMemory != NULL
    requires memory == NULL || memory == oldMemory || Fresh(w.heap, memory)
    ensures var t := Step(env, w, Reallocate(oldMemory, newSize, memory));
      && (t.s.light.Keys <= t.heap <==> memory != NULL && NULL !in w.s.light)
      && |t.s.light| == |w.s.light| - (if memory == NULL && NULL in w.s.light then 1 else 0)
  {
    hide Balanced, U32, ActualSize;
    var t := Step(env, w, Reallocate(oldMemory, newSize, memory));
    var r := w.s.light[oldMemory].(requestedSize := U32(newSize));
    if memory != oldMemory {
      var moved := if memory in w.s.light then w.s.light else w.s.light[memory := r.(memory := memory)];
      MapSizes(w.s.light, memory, r.(memory := memory));
      MapSizes(moved, oldMemory, r);
    } else {
      MapSizes(w.s.light, oldMemory, r);
    }
    if memory == NULL || NULL in w.s.light {
      assert NULL in t.s.light;
    }
  }
}
