// The life of each closely watched allocation: its fate as the patrol passes decide it, and a
// history of all of them that every operation keeps faithful to the table.
module Fates {
  import opened Basics
  import opened TraceInfo
  import opened AllocationTable
  import opened Ledger

  // --- The fate of a record, from the times of the patrol passes it meets ----

  datatype Fate = Alive(phase: Phase, deadline: nat) | Reported(pass: nat)

  /** What passes at these times make of a record watched since `born` that is not freed. */
  function FateOf(env: Environment, born: nat, passes: seq<nat>): Fate {
    if |passes| == 0 then Alive(NotYetSuspicious, born + env.timeForAllocationToBecomeSuspicious)
    else
      var n := |passes| - 1;
      var now := passes[n];
      match FateOf(env, born, passes[..n])
      case Reported(i) => Reported(i)
      case Alive(phase, deadline) =>
        if deadline < now then
          (match phase
           case NotYetSuspicious => Alive(Suspicious, now + env.accessMaxInterval)
           case Suspicious => Reported(n))
        else Alive(phase, deadline)
  }

  /** Pass `j` is the first after the suspicion time. */
  ghost predicate FirstExpiry(env: Environment, born: nat, passes: seq<nat>, j: int) {
    && 0 <= j < |passes|
    && born + env.timeForAllocationToBecomeSuspicious < passes[j]
    && (forall m | 0 <= m < j :: passes[m] <= born + env.timeForAllocationToBecomeSuspicious)
  }

  /** Pass `i` is the first after pass `j` that comes later than its time and the access interval. */
  ghost predicate SecondExpiry(env: Environment, passes: seq<nat>, j: int, i: int) {
    && 0 <= j < i < |passes|
    && passes[j] + env.accessMaxInterval < passes[i]
    && (forall m | j < m < i :: passes[m] <= passes[j] + env.accessMaxInterval)
  }

  ghost predicate ExpiresTwice(env: Environment, born: nat, passes: seq<nat>, i: int) {
    exists j :: FirstExpiry(env, born, passes, j) && SecondExpiry(env, passes, j, i)
  }

  /** Expired once, at pass `j`, and no pass since is past the deadline this set. */
  ghost predicate WaitsSince(env: Environment, born: nat, passes: seq<nat>, j: int, deadline: nat) {
    && FirstExpiry(env, born, passes, j)
    && deadline == passes[j] + env.accessMaxInterval
    && (forall m | j < m < |passes| :: passes[m] <= deadline)
  }

  ghost predicate FateIs(env: Environment, born: nat, passes: seq<nat>, fate: Fate) {
    match fate
    case Alive(NotYetSuspicious, deadline) =>
      deadline == born + env.timeForAllocationToBecomeSuspicious && forall m | 0 <= m < |passes| :: passes[m] <= deadline
    case Alive(Suspicious, deadline) => exists j :: WaitsSince(env, born, passes, j, deadline)
    case Reported(i) => ExpiresTwice(env, born, passes, i)
  }

  lemma FirstExpiryStays(env: Environment, born: nat, passes: seq<nat>, more: seq<nat>, j: int)
    requires FirstExpiry(env, born, passes, j) && passes <= more
    ensures FirstExpiry(env, born, more, j)
  {
  }

  lemma WaitStep(env: Environment, born: nat, passes: seq<nat>, now: nat, j: int, deadline: nat)
    requires WaitsSince(env, born, passes, j, deadline)
    ensures now <= deadline ==> WaitsSince(env, born, passes + [now], j, deadline)
    ensures deadline < now ==> ExpiresTwice(env, born, passes + [now], |passes|)
  {
    var more := passes + [now];
    FirstExpiryStays(env, born, passes, more, j);
    if deadline < now {
      assert SecondExpiry(env, more, j, |passes|);
    }
  }

  lemma ReportStays(env: Environment, born: nat, passes: seq<nat>, now: nat, i: int)
    requires ExpiresTwice(env, born, passes, i)
    ensures ExpiresTwice(env, born, passes + [now], i)
  {
    var j :| FirstExpiry(env, born, passes, j) && SecondExpiry(env, passes, j, i);
    FirstExpiryStays(env, born, passes, passes + [now], j);
    assert SecondExpiry(env, passes + [now], j, i);
  }

  lemma FirstStep(env: Environment, born: nat, passes: seq<nat>, now: nat)
    requires FateIs(env, born, passes, Alive(NotYetSuspicious, born + env.timeForAllocationToBecomeSuspicious))
    requires born + env.timeForAllocationToBecomeSuspicious < now
    ensures WaitsSince(env, born, passes + [now], |passes|, now + env.accessMaxInterval)
  {
  }

  lemma {:induction false} FateMeaning(env: Environment, born: nat, passes: seq<nat>)
    ensures FateIs(env, born, passes, FateOf(env, born, passes))
  {
    hide WaitsSince, ExpiresTwice;
    if |passes| > 0 {
      var n := |passes| - 1;
      var before, now := passes[..n], passes[n];
      assert passes == before + [now];
      FateMeaning(env, born, before);
      match FateOf(env, born, before)
      case Reported(i) => ReportStays(env, born, before, now, i);
      case Alive(NotYetSuspicious, deadline) =>
        if deadline < now {
          FirstStep(env, born, before, now);
        }
      case Alive(Suspicious, deadline) =>
        var j :| WaitsSince(env, born, before, j, deadline);
        WaitStep(env, born, before, now, j, deadline);
    }
  }

  lemma NotWaiting(env: Environment, born: nat, passes: seq<nat>, i: int, l: int, deadline: nat)
    requires ExpiresTwice(env, born, passes, i)
    ensures !WaitsSince(env, born, passes, l, deadline)
  {
  }

  lemma ExpiresTwiceUnique(env: Environment, born: nat, passes: seq<nat>, i: int, k: int)
    requires ExpiresTwice(env, born, passes, i) && ExpiresTwice(env, born, passes, k)
    ensures i == k
  {
  }

  /** A record is reported at exactly the first pass after its second deadline. */
  lemma ReportedExactly(env: Environment, born: nat, passes: seq<nat>, i: nat)
    ensures FateOf(env, born, passes) == Reported(i) <==> ExpiresTwice(env, born, passes, i)
  {
    hide WaitsSince;
    FateMeaning(env, born, passes);
    if ExpiresTwice(env, born, passes, i) {
      match FateOf(env, born, passes)
      case Reported(k) => ExpiresTwiceUnique(env, born, passes, i, k);
      case Alive(NotYetSuspicious, _) =>
        assert false;
      case Alive(Suspicious, deadline) =>
        var l :| WaitsSince(env, born, passes, l, deadline);
        NotWaiting(env, born, passes, i, l, deadline);
        assert false;
    }
  }

  /** A report takes two different passes, and comes at least two seconds after birth,
      suspicion time and access interval have run out. */
  lemma ReportsAreLate(env: Environment, born: nat, passes: seq<nat>, i: int)
    requires ExpiresTwice(env, born, passes, i)
    ensures 1 <= i < |passes|
    ensures passes[i] >= born + env.timeForAllocationToBecomeSuspicious + env.accessMaxInterval + 2
  {
  }

  // --- History --------------------------------------------------------------

  /** A closely watched allocation: when it was made, for which trace, after how many passes. */
  datatype Birth = Birth(time: nat, info: Key, pass: nat)

  /** Everything that happened to closely watched allocations, which are numbered by birth. `at`
      says which one the record under an address is, and `sizes` what was last requested. */
  datatype Record = Record(
    births: seq<Birth>,
    at: map<int, nat>,
    sizes: map<nat, nat>,
    freed: set<nat>,
    reported: map<nat, nat>,   // allocation -> the pass that reported it
    passes: seq<nat>)

  const BLANK: Record := Record([], map[], map[], {}, map[], [])

  ghost function Numbers(at: map<int, nat>, addresses: set<int>): set<nat> {
    set a | a in addresses && a in at :: at[a]
  }

  /** A watched record is made by the call. */
  ghost predicate Watches(env: Environment, s: State, op: Op) {
    op.Allocate? && op.fingerprint in s.fingerprints && op.memory != NULL &&
    InfoOf(s, Key(op.fingerprint, op.trace)).NeedsMore(env, s.liveAllTraces)
  }

  ghost predicate ReleasesWatched(s: State, op: Op) {
    op.Free? && op.memory !in s.light && op.memory in s.watched
  }

  ghost function Note(env: Environment, w: World, h: Record, op: Op): Record {
    match op
    case Allocate(size, fingerprint, trace, memory, now) =>
      if Watches(env, w.s, op)
      then h.(births := h.births + [Birth(now, Key(fingerprint, trace), |h.passes|)],
              at := h.at[memory := |h.births|],
              sizes := h.sizes[|h.births| := U32(size)])
      else h
    case Reallocate(oldMemory, newSize, memory) =>
      if oldMemory in w.s.light || oldMemory !in w.s.watched || oldMemory !in h.at then h
      else h.(
        sizes := h.sizes[h.at[oldMemory] := U32(newSize)],
        at := if MovesPages(env, w.s, oldMemory, newSize) then h.at[memory := h.at[oldMemory]] - {oldMemory} else h.at)
    case Free(memory) =>
      if ReleasesWatched(w.s, op) && memory in h.at
      then h.(freed := h.freed + {h.at[memory]}, at := h.at - {memory})
      else h
    case OutsideAllocate(_) => h
    case OutsideFree(_) => h
    case Patrol(now) =>
      var leaked := LeakedAt(w.s, now, w.s.watched.Keys);
      h.(reported := h.reported + (map id | id in Numbers(h.at, leaked) :: |h.passes|),
         at := h.at - leaked,
         passes := h.passes + [now])
  }

  /** The state of the run and its history agree on one live allocation. */
  ghost predicate LiveRight(env: Environment, s: State, h: Record, a: int)
    requires a in s.watched && a in h.at
  {
    var id, r := h.at[a], s.watched[a];
    && id < |h.births| && id !in h.freed && id !in h.reported
    && h.births[id].info == r.info && h.births[id].time == r.allocationTime
    && h.births[id].pass <= |h.passes|
    && id in h.sizes && h.sizes[id] == r.requestedSize
    && FateOf(env, h.births[id].time, h.passes[h.births[id].pass..]) == Alive(r.phase, r.deadline)
  }

  ghost predicate ReportedRight(env: Environment, h: Record, id: nat)
    requires id in h.reported
  {
    && id < |h.births| && id !in h.freed
    && h.births[id].pass <= h.reported[id] < |h.passes|
    && FateOf(env, h.births[id].time, h.passes[h.births[id].pass..]) == Reported(h.reported[id] - h.births[id].pass)
  }

  ghost predicate OneToOne(at: map<int, nat>) {
    forall a, b | a in at && b in at && at[a] == at[b] :: a == b
  }

  ghost predicate Present(at: map<int, nat>, id: nat) {
    exists a :: a in at && at[a] == id
  }

  ghost predicate AllBirths(h: Record) {
    forall id: nat | id < |h.births| :: id in h.freed || id in h.reported || Present(h.at, id)
  }

  ghost predicate Faithful(env: Environment, s: State, h: Record) {
    && h.at.Keys == s.watched.Keys
    && OneToOne(h.at)
    && (forall a | a in h.at :: LiveRight(env, s, h, a))
    && (forall id | id in h.reported :: ReportedRight(env, h, id))
    && (forall id | id in h.freed :: id < |h.births|)
    && AllBirths(h)
  }

  lemma BlankFaithful(env: Environment)
    ensures Faithful(env, EMPTY, BLANK)
  {
  }

  // --- Every operation keeps the history faithful -----------------------------

  /** The same allocation, perhaps under another address or with another size. */
  ghost predicate SameLife(r: CloselyWatchedAllocation, q: CloselyWatchedAllocation) {
    r.info == q.info && r.allocationTime == q.allocationTime && r.phase == q.phase && r.deadline == q.deadline
  }

  lemma LiveCarries(env: Environment, s: State, h: Record, a: int, t: State, g: Record, b: int)
    requires a in s.watched && a in h.at && LiveRight(env, s, h, a)
    requires b in t.watched && b in g.at && g.at[b] == h.at[a] && SameLife(s.watched[a], t.watched[b])
    requires h.births <= g.births && g.passes == h.passes && g.reported == h.reported && g.at[b] !in g.freed
    requires g.at[b] in g.sizes && g.sizes[g.at[b]] == t.watched[b].requestedSize
    ensures LiveRight(env, t, g, b)
  {
    hide FateOf;
  }

  lemma WatchedAllocate(env: Environment, w: World, op: Op)
    requires Watches(env, w.s, op)
    ensures var t := StateAfter(env, w.s, op);
      var k := Key(op.fingerprint, op.trace);
      t.watched == w.s.watched[op.memory := Watched(op.memory, U32(op.size), op.now + env.timeForAllocationToBecomeSuspicious, NotYetSuspicious, op.now, k)]
  {
    hide U32, WatchedStackTraceInfo.NeedsMore;
  }

  lemma UnwatchedAllocate(env: Environment, w: World, op: Op)
    requires op.Allocate? && !Watches(env, w.s, op)
    ensures StateAfter(env, w.s, op).watched == w.s.watched
  {
    hide U32, WatchedStackTraceInfo.NeedsMore;
  }

  lemma AllBirthsStay(h: Record, g: Record)
    requires AllBirths(h) && g.births == h.births && h.freed <= g.freed && h.reported.Keys <= g.reported.Keys
    requires forall a | a in h.at :: h.at[a] in g.freed || h.at[a] in g.reported || Present(g.at, h.at[a])
    ensures AllBirths(g)
  {
  }

  lemma NoteAllocate(env: Environment, w: World, h: Record, op: Op)
    requires Faithful(env, w.s, h) && op.Allocate? && op.memory !in w.s.watched
    ensures Faithful(env, StateAfter(env, w.s, op), Note(env, w, h, op))
  {
    hide FateOf, Watches, StateAfter, LiveRight, ReportedRight, AllBirths;
    LiveApart(env, w.s, h);
    var t, g := StateAfter(env, w.s, op), Note(env, w, h, op);
    if Watches(env, w.s, op) {
      WatchedAllocate(env, w, op);
      NewbornRight(env, w, h, op);
      forall a | a in h.at ensures LiveRight(env, t, g, a) {
        LiveCarries(env, w.s, h, a, t, g, a);
      }
      forall id | id in g.reported ensures ReportedRight(env, g, id) {
        ReportedAlone(env, h, id);
        ReportedCarries(env, h, g, id);
      }
      AllBirthsMore(h, g, op.memory);
    } else {
      UnwatchedAllocate(env, w, op);
      forall a | a in h.at ensures LiveRight(env, t, g, a) {
        LiveCarries(env, w.s, h, a, t, g, a);
      }
    }
  }

  lemma AllBirthsMore(h: Record, g: Record, memory: int)
    requires AllBirths(h) && memory !in h.at && |g.births| == |h.births| + 1
    requires g.freed == h.freed && g.reported == h.reported && g.at == h.at[memory := |h.births|]
    ensures AllBirths(g)
  {
    forall id: nat | id < |g.births| ensures id in g.freed || id in g.reported || Present(g.at, id) {
      if id == |h.births| {
        assert g.at[memory] == id;
      } else if a :| a in h.at && h.at[a] == id {
        assert g.at[a] == id;
      }
    }
  }

  lemma NewbornRight(env: Environment, w: World, h: Record, op: Op)
    requires Faithful(env, w.s, h) && Watches(env, w.s, op) && op.memory !in w.s.watched
    ensures var t, g := StateAfter(env, w.s, op), Note(env, w, h, op);
      op.memory in t.watched && LiveRight(env, t, g, op.memory)
  {
    hide StateAfter, WatchedStackTraceInfo.NeedsMore;
    WatchedAllocate(env, w, op);
    var t, g := StateAfter(env, w.s, op), Note(env, w, h, op);
    var id := |h.births|;
    assert g.at[op.memory] == id && g.births[id] == Birth(op.now, Key(op.fingerprint, op.trace), |h.passes|);
    assert g.passes[g.births[id].pass..] == [];
    if id in h.reported {
      assert false;
    }
  }

  lemma NoteReallocate(env: Environment, w: World, h: Record, op: Op)
    requires Inv(env, w) && Legal(env, w, op) && Faithful(env, w.s, h) && op.Reallocate?
    ensures Faithful(env, StateAfter(env, w.s, op), Note(env, w, h, op))
  {
    hide Balanced, FateOf, LiveRight, ReportedRight, ActualSize, U32, AllBirths;
    LiveApart(env, w.s, h);
    if op.oldMemory !in w.s.light && op.oldMemory in w.s.watched {
      if MovesPages(env, w.s, op.oldMemory, op.newSize) {
        NoteMove(env, w, h, op);
      } else {
        NoteResize(env, w, h, op);
      }
    } else {
      var t, g := StateAfter(env, w.s, op), Note(env, w, h, op);
      assert g == h;
      forall a | a in h.at ensures LiveRight(env, t, g, a) {
        LiveCarries(env, w.s, h, a, t, g, a);
      }
    }
  }

  lemma NoteResize(env: Environment, w: World, h: Record, op: Op)
    requires Inv(env, w) && Faithful(env, w.s, h) && op.Reallocate? && KeepsPages(env, w.s, op.oldMemory, op.newSize)
    ensures Faithful(env, StateAfter(env, w.s, op), Note(env, w, h, op))
  {
    hide Balanced, FateOf, LiveRight, ReportedRight, ActualSize, U32, AllBirths;
    LiveApart(env, w.s, h);
    var t, g := StateAfter(env, w.s, op), Note(env, w, h, op);
    forall a | a in h.at ensures LiveRight(env, t, g, a) {
      LiveCarries(env, w.s, h, a, t, g, a);
    }
    forall id | id in g.reported ensures ReportedRight(env, g, id) {
      ReportedAlone(env, h, id);
      ReportedCarries(env, h, g, id);
    }
    forall a | a in h.at ensures Present(g.at, h.at[a]) {
      assert g.at[a] == h.at[a];
    }
    AllBirthsStay(h, g);
  }

  lemma NoteMove(env: Environment, w: World, h: Record, op: Op)
    requires Inv(env, w) && Legal(env, w, op) && Faithful(env, w.s, h) && op.Reallocate?
    requires MovesPages(env, w.s, op.oldMemory, op.newSize)
    ensures Faithful(env, StateAfter(env, w.s, op), Note(env, w, h, op))
  {
    hide Balanced, FateOf, LiveRight, ReportedRight, ActualSize, U32, AllBirths;
    LiveApart(env, w.s, h);
    var t, g := StateAfter(env, w.s, op), Note(env, w, h, op);
    forall b | b in g.at ensures LiveRight(env, t, g, b) {
      LiveCarries(env, w.s, h, if b == op.memory then op.oldMemory else b, t, g, b);
    }
    forall id | id in g.reported ensures ReportedRight(env, g, id) {
      ReportedAlone(env, h, id);
      ReportedCarries(env, h, g, id);
    }
    assert g.at[op.memory] == h.at[op.oldMemory];
    forall a | a in h.at ensures Present(g.at, h.at[a]) {
      assert g.at[if a == op.oldMemory then op.memory else a] == h.at[a];
    }
    AllBirthsStay(h, g);
  }

  lemma ReportedCarries(env: Environment, h: Record, g: Record, id: nat)
    requires id in h.reported && ReportedRight(env, h, id)
    requires h.births <= g.births && g.passes == h.passes && g.reported == h.reported && id !in g.freed
    ensures ReportedRight(env, g, id)
  {
    hide FateOf;
  }

  lemma NoteFree(env: Environment, w: World, h: Record, op: Op)
    requires Inv(env, w) && Faithful(env, w.s, h) && op.Free?
    ensures Faithful(env, StateAfter(env, w.s, op), Note(env, w, h, op))
  {
    hide Balanced, FateOf, LiveRight, ReportedRight, AllBirths;
    LiveApart(env, w.s, h);
    var t, g := StateAfter(env, w.s, op), Note(env, w, h, op);
    if ReleasesWatched(w.s, op) {
      var gone := h.at[op.memory];
      forall a | a in g.at ensures LiveRight(env, t, g, a) {
        LiveCarries(env, w.s, h, a, t, g, a);
      }
      forall id | id in g.reported ensures ReportedRight(env, g, id) {
        ReportedAlone(env, h, id);
        ReportedCarries(env, h, g, id);
      }
      forall a | a in h.at ensures h.at[a] in g.freed || Present(g.at, h.at[a]) {
        if a != op.memory {
          assert g.at[a] == h.at[a];
        }
      }
      AllBirthsStay(h, g);
    } else {
      forall a | a in h.at ensures LiveRight(env, t, g, a) {
        LiveCarries(env, w.s, h, a, t, g, a);
      }
    }
  }

  /** Live allocations are neither freed nor reported. */
  lemma LiveApart(env: Environment, s: State, h: Record)
    requires Faithful(env, s, h)
    ensures forall a | a in h.at :: h.at[a] < |h.births| && h.at[a] !in h.freed && h.at[a] !in h.reported
    ensures forall a | a in h.at :: a in s.watched && h.at[a] in h.sizes && h.sizes[h.at[a]] == s.watched[a].requestedSize
  {
  }

  lemma ReportedAlone(env: Environment, h: Record, id: nat)
    requires id in h.reported && ReportedRight(env, h, id)
    ensures id < |h.births| && id !in h.freed
  {
    hide FateOf;
  }

  // --- A patrol pass ---------------------------------------------------------

  lemma FateStep(env: Environment, birth: Birth, passes: seq<nat>, now: nat)
    requires birth.pass <= |passes|
    ensures (passes + [now])[birth.pass..] == passes[birth.pass..] + [now]
    ensures var before, after := FateOf(env, birth.time, passes[birth.pass..]), FateOf(env, birth.time, (passes + [now])[birth.pass..]);
      match before
      case Reported(i) => after == before
      case Alive(phase, deadline) =>
        if now <= deadline then after == before
        else if phase == NotYetSuspicious then after == Alive(Suspicious, now + env.accessMaxInterval)
        else after == Reported(|passes| - birth.pass)
  {
  }

  lemma PatrolWatched(env: Environment, s: State, now: nat)
    ensures forall a | a in s.watched && !Leaks(s.watched[a], now) ::
      a in Patrolled(env, s, now).watched && Patrolled(env, s, now).watched[a] == Aged(env, s.watched[a], now)
    ensures forall a | a in Patrolled(env, s, now).watched :: a in s.watched && !Leaks(s.watched[a], now)
  {
    hide Leaks, Aged, AddLeaks, OfTrace;
  }

  lemma PatrolLight(env: Environment, s: State, now: nat)
    ensures forall a | a in s.light && s.light[a].deadline >= now :: a in Patrolled(env, s, now).light && Patrolled(env, s, now).light[a] == s.light[a]
    ensures forall a | a in Patrolled(env, s, now).light :: a in s.light && s.light[a].deadline >= now
    ensures forall f :: f in Patrolled(env, s, now).fingerprints <==>
      f in s.fingerprints || exists a :: a in s.light && s.light[a].deadline < now && s.light[a].fingerprint == f
  {
    hide AddLeaks, OfTrace, LeakedAt;
  }

  ghost predicate Settled(s: State, now: nat) {
    && (forall a | a in s.light :: s.light[a].deadline >= now)
    && (forall a | a in s.watched :: s.watched[a].deadline >= now)
  }

  /** A pass moves each record at most one state and leaves none past its deadline, so that
      another pass at the same time changes nothing. */
  lemma PatrolSettles(env: Environment, s: State, now: nat)
    ensures Settled(Patrolled(env, s, now), now)
    ensures Settled(s, now) ==> Patrolled(env, s, now) == s
  {
    hide Patrolled;
    PatrolLight(env, s, now);
    PatrolWatched(env, s, now);
    if Settled(s, now) {
      NothingExpired(env, s, now);
    }
  }

  lemma NothingExpired(env: Environment, s: State, now: nat)
    requires Settled(s, now)
    ensures Patrolled(env, s, now) == s
  {
    hide AddLeaks, OfTrace;
    NoneExpired(s, now);
    assert s.light - {} == s.light;
    assert SweptLight(s, now, s.light.Keys) == s;
    forall k | k in s.infos ensures AddLeaks(s, s.infos[k], OfTrace(s, {}, k)) == s.infos[k] {
      ChargeNothing(s, k);
    }
    var t := SweptWatched(env, s, now, s.watched.Keys);
    assert t.infos == s.infos;
    assert forall a | a in s.watched :: a in t.watched && t.watched[a] == s.watched[a];
    assert forall a | a in t.watched :: a in s.watched;
    assert t.watched == s.watched;
  }

  lemma NoneExpired(s: State, now: nat)
    requires Settled(s, now)
    ensures Expired(s, now, s.light.Keys) == {} && LeakedAt(s, now, s.watched.Keys) == {}
  {
    var expired, leaked := Expired(s, now, s.light.Keys), LeakedAt(s, now, s.watched.Keys);
    if expired != {} {
      var a := Pick(expired);
      assert false;
    }
    if leaked != {} {
      var a := Pick(leaked);
      assert false;
    }
  }

  lemma ChargeNothing(s: State, k: Key)
    requires k in s.infos
    ensures AddLeaks(s, s.infos[k], OfTrace(s, {}, k)) == s.infos[k]
  {
    assert OfTrace(s, {}, k) == {};
  }

  lemma NumbersOf(h: Record, leaked: set<int>, id: nat) returns (a: int)
    requires leaked <= h.at.Keys && id in Numbers(h.at, leaked)
    ensures a in leaked && h.at[a] == id
  {
    a :| a in leaked && a in h.at && h.at[a] == id;
  }

  lemma SurvivorRight(env: Environment, w: World, h: Record, now: nat, a: int)
    requires Faithful(env, w.s, h) && a in w.s.watched && !Leaks(w.s.watched[a], now)
    ensures var t, g := Patrolled(env, w.s, now), Note(env, w, h, Patrol(now));
      a in t.watched && a in g.at && g.at[a] == h.at[a] && LiveRight(env, t, g, a)
  {
    hide FateOf, Patrolled, AllBirths, ReportedRight;
    var leaked := LeakedAt(w.s, now, w.s.watched.Keys);
    var id := h.at[a];
    assert LiveRight(env, w.s, h, a);
    PatrolWatched(env, w.s, now);
    FateStep(env, h.births[id], h.passes, now);
    if id in Numbers(h.at, leaked) {
      var b := NumbersOf(h, leaked, id);
      assert false;
    }
  }

  lemma LeakerRight(env: Environment, w: World, h: Record, now: nat, a: int)
    requires Faithful(env, w.s, h) && a in w.s.watched && Leaks(w.s.watched[a], now)
    ensures var g := Note(env, w, h, Patrol(now));
      h.at[a] in g.reported && g.reported[h.at[a]] == |h.passes| && ReportedRight(env, g, h.at[a])
  {
    hide FateOf, AllBirths, ReportedRight;
    assert a in LeakedAt(w.s, now, w.s.watched.Keys);
    var id := h.at[a];
    assert id in Numbers(h.at, LeakedAt(w.s, now, w.s.watched.Keys));
    assert LiveRight(env, w.s, h, a);
    FateStep(env, h.births[id], h.passes, now);
    LeakerReported(env, Note(env, w, h, Patrol(now)), id);
  }

  lemma LeakerReported(env: Environment, g: Record, id: nat)
    requires id in g.reported && id < |g.births| && id !in g.freed && g.births[id].pass <= g.reported[id] < |g.passes|
    requires FateOf(env, g.births[id].time, g.passes[g.births[id].pass..]) == Reported(g.reported[id] - g.births[id].pass)
    ensures ReportedRight(env, g, id)
  {
  }

  lemma OldReportRight(env: Environment, h: Record, g: Record, id: nat, now: nat)
    requires id in h.reported && ReportedRight(env, h, id)
    requires g.births == h.births && g.freed == h.freed && g.passes == h.passes + [now]
    requires id in g.reported && g.reported[id] == h.reported[id]
    ensures ReportedRight(env, g, id)
  {
    hide FateOf;
    FateStep(env, h.births[id], h.passes, now);
  }

  /** A pass reports only allocations that were not reported before, and none that was freed. */
  lemma ReportsAreNew(env: Environment, s: State, h: Record, now: nat)
    requires Faithful(env, s, h)
    ensures forall id | id in Numbers(h.at, LeakedAt(s, now, s.watched.Keys)) :: id !in h.reported && id !in h.freed
  {
  }

  /** Each report of a pass names the trace of the allocation it is about, where it is, and what
      was last requested for it. */
  lemma ReportsSayTrue(env: Environment, s: State, h: Record, now: nat, a: int)
    requires Faithful(env, s, h) && Linked(s) && a in LeakedAt(s, now, s.watched.Keys)
    ensures a in h.at && h.at[a] < |h.births| && h.at[a] in h.sizes
    ensures LeakOf(s.watched[a]) == FoundLeak(h.births[h.at[a]].info, a, h.sizes[h.at[a]])
  {
  }

  lemma PatrolAt(env: Environment, w: World, h: Record, now: nat)
    requires Faithful(env, w.s, h)
    ensures var t, g := Patrolled(env, w.s, now), Note(env, w, h, Patrol(now));
      g.at.Keys == t.watched.Keys && OneToOne(g.at)
  {
    hide FateOf, LiveRight, ReportedRight, AllBirths, Patrolled;
    PatrolWatched(env, w.s, now);
    var l, r := Note(env, w, h, Patrol(now)).at.Keys, Patrolled(env, w.s, now).watched.Keys;
    assert forall a | a in l :: a in r;
    assert forall a | a in r :: a in l;
    assert l == r;
  }

  lemma NotePatrol(env: Environment, w: World, h: Record, now: nat)
    requires Faithful(env, w.s, h)
    ensures Faithful(env, Patrolled(env, w.s, now), Note(env, w, h, Patrol(now)))
  {
    hide FateOf, LiveRight, ReportedRight, AllBirths, Patrolled, Leaks, OneToOne;
    var t, g := Patrolled(env, w.s, now), Note(env, w, h, Patrol(now));
    var leaked := LeakedAt(w.s, now, w.s.watched.Keys);
    PatrolAt(env, w, h, now);
    ReportsAreNew(env, w.s, h, now);
    forall a | a in g.at ensures LiveRight(env, t, g, a) {
      SurvivorRight(env, w, h, now, a);
    }
    forall id | id in g.reported ensures ReportedRight(env, g, id) {
      if id in Numbers(h.at, leaked) {
        var a := NumbersOf(h, leaked, id);
        LeakerRight(env, w, h, now, a);
      } else {
        OldReportRight(env, h, g, id, now);
      }
    }
    forall a | a in h.at ensures h.at[a] in g.reported || Present(g.at, h.at[a]) {
      if a in leaked {
        LeakerRight(env, w, h, now, a);
      } else {
        assert g.at[a] == h.at[a];
      }
    }
    AllBirthsStay(h, g);
  }
}
