// The allocation table: light and closely watched records by address, the suspicious
// fingerprints with what is known about their stack traces, and the operations on them.
module AllocationTable {
  import opened Basics
  import opened TraceInfo
  import Pages

  const NULL: int := 0

  /** Names a WatchedStackTraceInfo: the trace in the table of its fingerprint. */
  datatype Key = Key(fingerprint: nat, trace: nat)

  datatype LightAllocation = Light(memory: int, requestedSize: nat, deadline: nat, fingerprint: nat)

  datatype Phase = NotYetSuspicious | Suspicious

  datatype CloselyWatchedAllocation =
    Watched(memory: int, requestedSize: nat, deadline: nat, phase: Phase, allocationTime: nat, info: Key)

  /** A report points at the stack trace inside the info it is charged to. */
  datatype FoundLeak = FoundLeak(info: Key, memory: int, size: nat)

  datatype State = State(
    light: map<int, LightAllocation>,
    watched: map<int, CloselyWatchedAllocation>,
    fingerprints: set<nat>,
    infos: map<Key, WatchedStackTraceInfo>,
    liveAllTraces: int)

  const EMPTY: State := State(map[], map[], {}, map[], 0)

  /** A value stored in a 32-bit field. */
  function U32(n: nat): (r: nat)
    ensures r == n % 0x1_0000_0000
  {
    n % TWO32
  }

  function ActualSize(env: Environment, requestedSize: nat): nat {
    Pages.EnvironmentRoundUp(requestedSize, env.pageBits)
  }

  /** Two sizes round up to as many whole pages of 2^pageBits bytes, in 32 bits: to one and the same
      least multiple of the page, or one to none and the other to the whole word, which is cut to none. */
  ghost predicate SamePages(env: Environment, a: nat, b: nat) {
    exists m, n ::
      && Pages.LeastMultiple(m, a % 0x1_0000_0000, Pages.Pow2(env.pageBits))
      && Pages.LeastMultiple(n, b % 0x1_0000_0000, Pages.Pow2(env.pageBits))
      && m % 0x1_0000_0000 == n % 0x1_0000_0000
  }

  lemma LeastExistsFor(size: nat, page: nat) returns (m: nat)
    requires 0 < page
    ensures Pages.LeastMultiple(m, size, page)
  {
    Pages.CutIsLeast(size, page);
    var x := size + (page - 1);
    m := x - x % page;
  }

  lemma ActualSizeIs(env: Environment, size: nat, m: int)
    requires Pages.LeastMultiple(m, size % 0x1_0000_0000, Pages.Pow2(env.pageBits))
    ensures 0 <= m <= 0x1_0000_0000 && ActualSize(env, size) == m % 0x1_0000_0000
  {
    hide Pages.LeastMultiple, Pages.Pow2, Pages.EnvironmentRoundUp;
    assert 0 <= m by { LeastIsNatural(m, size % 0x1_0000_0000, Pages.Pow2(env.pageBits)); }
    Pages.EnvironmentIs(size, env.pageBits, m);
    Pages.CutOnce(m, 0x1_0000_0000);
  }

  lemma LeastIsNatural(m: int, size: nat, page: nat)
    requires Pages.LeastMultiple(m, size, page)
    ensures 0 <= m
  {
  }

  /** Records of these sizes take the same pages exactly when their actual sizes are equal. */
  lemma SamePagesIff(env: Environment, a: nat, b: nat)
    ensures ActualSize(env, a) == ActualSize(env, b) <==> SamePages(env, a, b)
  {
    hide Pages.LeastMultiple, ActualSize;
    var page := Pages.Pow2(env.pageBits);
    var m := LeastExistsFor(a % 0x1_0000_0000, page);
    var n := LeastExistsFor(b % 0x1_0000_0000, page);
    ActualSizeIs(env, a, m);
    ActualSizeIs(env, b, n);
    if m', n' :| Pages.LeastMultiple(m', a % 0x1_0000_0000, page) && Pages.LeastMultiple(n', b % 0x1_0000_0000, page) && m' % 0x1_0000_0000 == n' % 0x1_0000_0000 {
      ActualSizeIs(env, a, m');
      ActualSizeIs(env, b, n');
    }
  }

  /** While neither sum carries, that is one multiple for both. */
  lemma SamePagesWithoutCarry(env: Environment, a: nat, b: nat)
    requires a % 0x1_0000_0000 + Pages.Pow2(env.pageBits) - 1 < 0x1_0000_0000
    requires b % 0x1_0000_0000 + Pages.Pow2(env.pageBits) - 1 < 0x1_0000_0000
    ensures SamePages(env, a, b) <==> exists m ::
      Pages.LeastMultiple(m, a % 0x1_0000_0000, Pages.Pow2(env.pageBits)) && Pages.LeastMultiple(m, b % 0x1_0000_0000, Pages.Pow2(env.pageBits))
  {
    hide Pages.Pow2, Pages.Multiple;
    var page := Pages.Pow2(env.pageBits);
    if m, n :| Pages.LeastMultiple(m, a % 0x1_0000_0000, page) && Pages.LeastMultiple(n, b % 0x1_0000_0000, page) && m % 0x1_0000_0000 == n % 0x1_0000_0000 {
      Pages.CutOnce(m, 0x1_0000_0000);
      Pages.CutOnce(n, 0x1_0000_0000);
    }
  }

  /** With a carry the size is cut to no pages: it is the same as a size of zero, and no other that
      does not carry. */
  lemma SamePagesWithCarry(env: Environment, a: nat, b: nat)
    requires a % 0x1_0000_0000 + Pages.Pow2(env.pageBits) - 1 >= 0x1_0000_0000
    ensures SamePages(env, a, b) <==>
      b % 0x1_0000_0000 == 0 || b % 0x1_0000_0000 + Pages.Pow2(env.pageBits) - 1 >= 0x1_0000_0000
  {
    hide SamePages, ActualSize;
    SamePagesIff(env, a, b);
    NoPagesIff(env, a);
    NoPagesIff(env, b);
  }

  lemma NoPagesIff(env: Environment, size: nat)
    ensures ActualSize(env, size) == 0 <==>
      size % 0x1_0000_0000 == 0 || size % 0x1_0000_0000 + Pages.Pow2(env.pageBits) - 1 >= 0x1_0000_0000
  {
    hide Pages.Pow2, Pages.RoundUpWord, Pages.Multiple;
    var low, page := size % 0x1_0000_0000, Pages.Pow2(env.pageBits);
    Pages.Word32();
    Pages.RoundUpWordExact(low, env.pageBits, Pages.WORD32);
    Pages.ZeroIsMultiple(page);
    if low == 0 && Pages.LeastMultiple(ActualSize(env, size), 0, page) {
      Pages.LeastUnique(ActualSize(env, size), 0, 0, page);
    }
  }

  function InfoOf(s: State, k: Key): WatchedStackTraceInfo {
    if k in s.infos then s.infos[k] else NEW
  }

  // --- What each operation does to the state --------------------------------

  /** `memory` is what the allocator in charge returns: NULL when it fails. */
  ghost function Allocated(env: Environment, s: State, size: nat, fingerprint: nat, trace: nat, memory: int, now: nat): State {
    if fingerprint !in s.fingerprints then
      if memory == NULL then s
      else s.(light := s.light[memory := Light(memory, U32(size), now + env.timeForAllocationToBecomeSuspicious, fingerprint)])
    else
      var k := Key(fingerprint, trace);
      var i := InfoOf(s, k);
      if !i.NeedsMore(env, s.liveAllTraces) then s.(infos := s.infos[k := i.(skipped := i.skipped + 1)])
      else if memory == NULL then s.(infos := s.infos[k := i])
      else s.(
        infos := s.infos[k := i.(live := i.live + 1, created := i.created + 1)],
        liveAllTraces := s.liveAllTraces + 1,
        watched := s.watched[memory :=
          Watched(memory, U32(size), now + env.timeForAllocationToBecomeSuspicious, NotYetSuspicious, now, k)])
  }

  /** A record moves to another key: an insert that lets an existing entry win, then an erase. */
  ghost function Rekey<R>(m: map<int, R>, old_: int, new_: int, r: R): map<int, R> {
    (if new_ in m then m else m[new_ := r]) - {old_}
  }

  ghost function Reallocated(env: Environment, s: State, oldMemory: int, newSize: nat, memory: int): State {
    if oldMemory in s.light then
      var r := s.light[oldMemory].(requestedSize := U32(newSize));
      if memory != oldMemory then s.(light := Rekey(s.light, oldMemory, memory, r.(memory := memory)))
      else s.(light := s.light[oldMemory := r])
    else if oldMemory in s.watched then
      var r := s.watched[oldMemory].(requestedSize := U32(newSize));
      if ActualSize(env, newSize) != ActualSize(env, s.watched[oldMemory].requestedSize)
      then s.(watched := Rekey(s.watched, oldMemory, memory, r.(memory := memory)))
      else s.(watched := s.watched[oldMemory := r])
    else s
  }

  ghost function Freed(s: State, memory: int): State {
    if memory == NULL then s
    else if memory in s.light then s.(light := s.light - {memory})
    else if memory in s.watched then
      var k := s.watched[memory].info;
      var i := InfoOf(s, k);
      s.(infos := s.infos[k := i.(live := i.live - 1)], liveAllTraces := s.liveAllTraces - 1, watched := s.watched - {memory})
    else s
  }

  /** What a realloc does to a closely watched record: it keeps its address exactly when the new size
      takes the same pages. */
  lemma WatchedRealloc(env: Environment, s: State, oldMemory: int, newSize: nat, memory: int)
    requires oldMemory !in s.light && oldMemory in s.watched
    ensures var t, r := Reallocated(env, s, oldMemory, newSize, memory), s.watched[oldMemory];
      && t == s.(watched := t.watched)
      && t.watched == if SamePages(env, r.requestedSize, newSize)
        then s.watched[oldMemory := r.(requestedSize := newSize % 0x1_0000_0000)]
        else (if memory in s.watched then s.watched
          else s.watched[memory := r.(requestedSize := newSize % 0x1_0000_0000, memory := memory)]) - {oldMemory}
  {
    hide ActualSize, SamePages;
    SamePagesIff(env, s.watched[oldMemory].requestedSize, newSize);
  }

  /** Under a fingerprint that is not suspicious an allocation is light, whatever its trace. */
  lemma LightAllocated(env: Environment, s: State, size: nat, fingerprint: nat, trace: nat, memory: int, now: nat)
    requires fingerprint !in s.fingerprints
    ensures var t := Allocated(env, s, size, fingerprint, trace, memory, now);
      && t == s.(light := t.light)
      && t.light == if memory == NULL then s.light
        else s.light[memory := Light(memory, size % 0x1_0000_0000, now + env.timeForAllocationToBecomeSuspicious, fingerprint)]
  {
  }

  // --- A patrol pass, record by record --------------------------------------

  ghost function VisitLight(s: State, now: nat, a: int): State
    requires a in s.light
  {
    if s.light[a].deadline < now
    then s.(fingerprints := s.fingerprints + {s.light[a].fingerprint}, light := s.light - {a})
    else s
  }

  ghost function VisitWatched(env: Environment, s: State, now: nat, a: int): State
    requires a in s.watched
  {
    var r := s.watched[a];
    if Leaks(r, now) then
      var i := InfoOf(s, r.info);
      s.(infos := s.infos[r.info := i.(leaked := i.leaked + 1, live := i.live - 1, leakedMemory := i.leakedMemory + r.requestedSize)],
         liveAllTraces := s.liveAllTraces - 1,
         watched := s.watched - {a})
    else s.(watched := s.watched[a := Aged(env, r, now)])
  }

  // --- A patrol pass, as a whole --------------------------------------------

  /** The pass finds the record expired for the second time. */
  predicate Leaks(r: CloselyWatchedAllocation, now: nat) {
    r.deadline < now && r.phase == Suspicious
  }

  /** What the pass makes of a record that it does not report. */
  function Aged(env: Environment, r: CloselyWatchedAllocation, now: nat): CloselyWatchedAllocation {
    if r.deadline < now && r.phase == NotYetSuspicious then r.(phase := Suspicious, deadline := now + env.accessMaxInterval) else r
  }

  /** The light records visited so far that had expired. */
  ghost function Expired(s: State, now: nat, done: set<int>): set<int> {
    set a | a in done && a in s.light && s.light[a].deadline < now
  }

  ghost function SweptLight(s: State, now: nat, done: set<int>): State {
    s.(light := s.light - Expired(s, now, done),
       fingerprints := s.fingerprints + set a | a in Expired(s, now, done) && a in s.light :: s.light[a].fingerprint)
  }

  ghost function LeakedAt(s: State, now: nat, done: set<int>): set<int> {
    set a | a in done && a in s.watched && Leaks(s.watched[a], now)
  }

  ghost function OfTrace(s: State, addresses: set<int>, k: Key): set<int> {
    set a | a in addresses && a in s.watched && s.watched[a].info == k
  }

  ghost function SizeAt(s: State): int -> int {
    a => if a in s.watched then s.watched[a].requestedSize else 0
  }

  ghost function AddLeaks(s: State, i: WatchedStackTraceInfo, leaks: set<int>): WatchedStackTraceInfo {
    i.(leaked := i.leaked + |leaks|, live := i.live - |leaks|, leakedMemory := i.leakedMemory + SumOver(leaks, SizeAt(s)))
  }

  /** The state after the watched records in `done` were visited, in whatever order: each of
      them ages or is reported, and each trace is charged with its own reports. */
  ghost function SweptWatched(env: Environment, s: State, now: nat, done: set<int>): State {
    s.(watched := map a | a in s.watched && a !in LeakedAt(s, now, done) :: if a in done then Aged(env, s.watched[a], now) else s.watched[a],
       infos := map k | k in s.infos :: AddLeaks(s, s.infos[k], OfTrace(s, LeakedAt(s, now, done), k)),
       liveAllTraces := s.liveAllTraces - |LeakedAt(s, now, done)|)
  }

  ghost function Patrolled(env: Environment, s: State, now: nat): State {
    var t := SweptLight(s, now, s.light.Keys);
    SweptWatched(env, t, now, t.watched.Keys)
  }

  function LeakOf(r: CloselyWatchedAllocation): FoundLeak {
    FoundLeak(r.info, r.memory, r.requestedSize)
  }

  ghost predicate ReportFor(s: State, leaked: set<int>, r: FoundLeak) {
    r.memory in leaked && r.memory in s.watched && r == LeakOf(s.watched[r.memory])
  }

  /** One report for each leaked address, and no other. */
  ghost predicate ReportsOf(s: State, leaked: set<int>, reports: seq<FoundLeak>) {
    && |reports| == |leaked|
    && (forall a | a in leaked :: a in s.watched && LeakOf(s.watched[a]) in reports)
    && (forall i | 0 <= i < |reports| :: ReportFor(s, leaked, reports[i]))
    && (forall i, j | 0 <= i < j < |reports| :: reports[i].memory != reports[j].memory)
  }

  /** Records name their own address, and the info they point to exists. */
  ghost predicate Linked(s: State) {
    && (forall a | a in s.light :: s.light[a].memory == a)
    && (forall a | a in s.watched :: s.watched[a].memory == a && s.watched[a].info in s.infos)
  }

  // --- One record more ------------------------------------------------------

  lemma SweptNothing(env: Environment, s: State, now: nat)
    ensures SweptLight(s, now, {}) == s && SweptWatched(env, s, now, {}) == s
    ensures LeakedAt(s, now, {}) == {}
  {
  }

  lemma SweepLightStep(s: State, now: nat, done: set<int>, a: int)
    requires a in s.light && a !in done
    ensures a in SweptLight(s, now, done).light
    ensures SweptLight(s, now, done + {a}) == VisitLight(SweptLight(s, now, done), now, a)
  {
  }

  lemma LeakedMore(s: State, now: nat, done: set<int>, a: int)
    requires a in s.watched && a !in done
    ensures LeakedAt(s, now, done + {a}) == LeakedAt(s, now, done) + (if Leaks(s.watched[a], now) then {a} else {})
    ensures a !in LeakedAt(s, now, done)
  {
  }

  lemma ChargeLeak(s: State, leaked: set<int>, a: int, k: Key)
    requires a in s.watched && a !in leaked && k in s.infos
    ensures AddLeaks(s, s.infos[k], OfTrace(s, leaked + {a}, k)) ==
      (var i := AddLeaks(s, s.infos[k], OfTrace(s, leaked, k));
       if s.watched[a].info == k then i.(leaked := i.leaked + 1, live := i.live - 1, leakedMemory := i.leakedMemory + s.watched[a].requestedSize) else i)
  {
    var before, after := OfTrace(s, leaked, k), OfTrace(s, leaked + {a}, k);
    if s.watched[a].info == k {
      assert after == before + {a};
      SumOverAdd(before, SizeAt(s), a);
    } else {
      assert after == before;
    }
  }

  lemma SweepAge(env: Environment, s: State, now: nat, done: set<int>, a: int)
    requires a in s.watched && a !in done && !Leaks(s.watched[a], now)
    ensures a in SweptWatched(env, s, now, done).watched
    ensures SweptWatched(env, s, now, done + {a}) == VisitWatched(env, SweptWatched(env, s, now, done), now, a)
  {
    hide Leaks, Aged, AddLeaks;
    LeakedMore(s, now, done, a);
    assert LeakedAt(s, now, done + {a}) == LeakedAt(s, now, done);
    var l, r := SweptWatched(env, s, now, done + {a}), VisitWatched(env, SweptWatched(env, s, now, done), now, a);
    assert forall b | b in l.watched :: b in r.watched && l.watched[b] == r.watched[b];
    assert forall b | b in r.watched :: b in l.watched;
  }

  lemma SweepLeak(env: Environment, s: State, now: nat, done: set<int>, a: int)
    requires a in s.watched && a !in done && Leaks(s.watched[a], now) && s.watched[a].info in s.infos
    ensures a in SweptWatched(env, s, now, done).watched
    ensures SweptWatched(env, s, now, done + {a}) == VisitWatched(env, SweptWatched(env, s, now, done), now, a)
  {
    hide Leaks, Aged, AddLeaks, OfTrace, LeakedAt;
    LeakedMore(s, now, done, a);
    var leaked := LeakedAt(s, now, done);
    var before := SweptWatched(env, s, now, done);
    var l, r := SweptWatched(env, s, now, done + {a}), VisitWatched(env, before, now, a);
    NotYetVisited(env, s, now, done, a);
    assert forall b | b in l.watched :: b in r.watched && l.watched[b] == r.watched[b];
    assert forall b | b in r.watched :: b in l.watched;
    forall k | k in s.infos ensures l.infos[k] == r.infos[k] {
      ChargeLeak(s, leaked, a, k);
    }
    assert l.infos.Keys == r.infos.Keys;
    assert l.infos == r.infos;
    assert |leaked + {a}| == |leaked| + 1;
  }

  lemma NotYetVisited(env: Environment, s: State, now: nat, done: set<int>, a: int)
    requires a in s.watched && a !in done
    ensures a in SweptWatched(env, s, now, done).watched && SweptWatched(env, s, now, done).watched[a] == s.watched[a]
  {
  }

  /** Visiting one more watched record is one more member of the visited set: so the order of
      the visits makes no difference. */
  lemma SweepWatchedStep(env: Environment, s: State, now: nat, done: set<int>, a: int)
    requires a in s.watched && a !in done && s.watched[a].info in s.infos
    ensures a in SweptWatched(env, s, now, done).watched && SweptWatched(env, s, now, done).watched[a] == s.watched[a]
    ensures SweptWatched(env, s, now, done + {a}) == VisitWatched(env, SweptWatched(env, s, now, done), now, a)
  {
    hide SweptWatched, VisitWatched;
    NotYetVisited(env, s, now, done, a);
    if Leaks(s.watched[a], now) {
      SweepLeak(env, s, now, done, a);
    } else {
      SweepAge(env, s, now, done, a);
    }
  }

  // --- The table ------------------------------------------------------------

  lemma AllSwept(s: State)
    ensures s.light.Keys - {} == s.light.Keys && s.watched.Keys - {} == s.watched.Keys
    ensures s.light.Keys - s.light.Keys == {} && s.watched.Keys - s.watched.Keys == {}
  {
  }

  /** Taking the next address from those still to visit. */
  lemma NextVisit(all: set<int>, todo: set<int>, a: int)
    requires a in todo && todo <= all
    ensures a !in all - todo && all - (todo - {a}) == (all - todo) + {a}
  {
  }

  /** The reports so far are those of the addresses leaked so far. */
  lemma ReportsStep(s: State, now: nat, done: set<int>, a: int, reports: seq<FoundLeak>)
    requires a in s.watched && s.watched[a].memory == a && a !in done && ReportsOf(s, LeakedAt(s, now, done), reports)
    ensures Leaks(s.watched[a], now) ==> ReportsOf(s, LeakedAt(s, now, done + {a}), reports + [LeakOf(s.watched[a])])
    ensures !Leaks(s.watched[a], now) ==> ReportsOf(s, LeakedAt(s, now, done + {a}), reports)
  {
    hide Leaks, LeakOf, LeakedAt, ReportsOf;
    LeakedMore(s, now, done, a);
    if Leaks(s.watched[a], now) {
      ReportMore(s, LeakedAt(s, now, done), a, reports);
    } else {
      assert LeakedAt(s, now, done + {a}) == LeakedAt(s, now, done);
    }
  }

  lemma ReportMore(s: State, leaked: set<int>, a: int, reports: seq<FoundLeak>)
    requires a in s.watched && s.watched[a].memory == a && a !in leaked && ReportsOf(s, leaked, reports)
    ensures ReportsOf(s, leaked + {a}, reports + [LeakOf(s.watched[a])])
  {
  }

  class Table {
    var light: map<int, LightAllocation>
    var watched: map<int, CloselyWatchedAllocation>
    var fingerprints: set<nat>
    var infos: map<Key, WatchedStackTraceInfo>
    var liveAllTraces: int

    ghost function View(): State
      reads this
    {
      State(light, watched, fingerprints, infos, liveAllTraces)
    }

    constructor ()
      ensures View() == EMPTY
    {
      light, watched, fingerprints, infos, liveAllTraces := map[], map[], {}, map[], 0;
    }

    /** `bypass`: in the library already, or not watching. `answer` is what the allocator that
        the call ends up with returns. */
    method InstrumentedAllocate(env: Environment, bypass: bool, size: nat, fingerprint: nat, trace: nat, answer: int, now: nat)
      returns (memory: int)
      modifies this
      ensures memory == answer
      ensures View() == if bypass then old(View()) else Allocated(env, old(View()), size, fingerprint, trace, answer, now)
    {
      memory := answer;
      if bypass {
        return;
      }
      if fingerprint !in fingerprints {
        if memory == NULL {
          return;
        }
        var deadline := now + env.timeForAllocationToBecomeSuspicious;
        light := light[memory := Light(memory, U32(size), deadline, fingerprint)];
        return;
      }
      AllocateSuspicious(env, size, Key(fingerprint, trace), memory, now);
    }

    /** getOrCreate: the info of a trace, made if it is not there. */
    method GetOrCreate(k: Key) returns (info: WatchedStackTraceInfo)
      modifies `infos
      ensures info == InfoOf(old(View()), k) && infos == old(infos)[k := info]
    {
      if k !in infos {
        infos := infos[k := NEW];
      } else {
        Overwrite(infos, k, NEW, NEW);
      }
      info := infos[k];
    }

    method AllocateSuspicious(env: Environment, size: nat, k: Key, memory: int, now: nat)
      requires k.fingerprint in fingerprints
      modifies this
      ensures View() == Allocated(env, old(View()), size, k.fingerprint, k.trace, memory, now)
    {
      hide WatchedStackTraceInfo.NeedsMore, U32;
      ghost var before := infos;
      var info := GetOrCreate(k);
      Overwrite(before, k, info, info.(skipped := info.skipped + 1));
      Overwrite(before, k, info, info.(live := info.live + 1, created := info.created + 1));
      if !info.NeedsMore(env, liveAllTraces) {
        infos := infos[k := info.(skipped := info.skipped + 1)];
        return;
      }
      if memory == NULL {
        return;
      }
      infos := infos[k := info.(live := info.live + 1, created := info.created + 1)];
      liveAllTraces := liveAllTraces + 1;
      var allocationTime := now;
      var deadline := allocationTime + env.timeForAllocationToBecomeSuspicious;
      watched := watched[memory := Watched(memory, U32(size), deadline, NotYetSuspicious, allocationTime, k)];
    }

    method InstrumentedReallocate(env: Environment, bypass: bool, oldMemory: int, newRequestedSize: nat, answer: int)
      returns (memory: int)
      modifies this
      ensures View() == if bypass then old(View()) else Reallocated(env, old(View()), oldMemory, newRequestedSize, answer)
      ensures memory == (if !bypass && oldMemory !in old(light) && oldMemory in old(watched) &&
        SamePages(env, old(watched)[oldMemory].requestedSize, newRequestedSize) then oldMemory else answer)
    {
      hide ActualSize, SamePages;
      if oldMemory in watched {
        SamePagesIff(env, watched[oldMemory].requestedSize, newRequestedSize);
      }
      memory := answer;
      if bypass {
        return;
      }
      if oldMemory in light {
        light := light[oldMemory := light[oldMemory].(requestedSize := U32(newRequestedSize))];
        if memory != oldMemory {
          var alloc := light[oldMemory].(memory := memory);
          if memory !in light {
            light := light[memory := alloc];
          }
          light := light - {oldMemory};
        }
        return;
      }
      if oldMemory in watched {
        var alloc := watched[oldMemory];
        var oldActualSize := ActualSize(env, alloc.requestedSize);
        var newActualSize := ActualSize(env, newRequestedSize);
        if newActualSize != oldActualSize {
          watched := watched[oldMemory := alloc.(requestedSize := U32(newRequestedSize), memory := memory)];
          if memory !in watched {
            watched := watched[memory := watched[oldMemory]];
          }
          watched := watched - {oldMemory};
        } else {
          watched := watched[oldMemory := alloc.(requestedSize := U32(newRequestedSize))];
          memory := oldMemory;
        }
      }
    }

    method InstrumentedFree(bypass: bool, memory: int)
      requires Linked(View())
      modifies this
      ensures View() == if bypass then old(View()) else Freed(old(View()), memory)
    {
      if memory == NULL || bypass {
        return;
      }
      if memory in light {
        light := light - {memory};
      } else if memory in watched {
        var k := watched[memory].info;
        infos := infos[k := infos[k].(live := infos[k].live - 1)];
        liveAllTraces := liveAllTraces - 1;
        watched := watched - {memory};
      }
    }

    method SweepLight(now: nat)
      modifies this
      ensures View() == SweptLight(old(View()), now, old(light).Keys)
    {
      hide SweptLight, VisitLight;
      ghost var start := View();
      var todo := light.Keys;
      SweptNothing(Settings(0, 0, 0, 0, 0, 0), start, now);
      AllSwept(start);
      while todo != {}
        invariant todo <= start.light.Keys
        invariant View() == SweptLight(start, now, start.light.Keys - todo)
      {
        ghost var pick := Pick(todo);
        var a :| a in todo;
        SweepLightStep(start, now, start.light.Keys - todo, a);
        NextVisit(start.light.Keys, todo, a);
        MarkSuspicious(now, a);
        todo := todo - {a};
      }
      AllSwept(start);
    }

    method MarkSuspicious(now: nat, a: int)
      requires a in light
      modifies this
      ensures View() == VisitLight(old(View()), now, a)
    {
      if light[a].deadline < now {
        fingerprints := fingerprints + {light[a].fingerprint};
        light := light - {a};
      }
    }

    method SweepWatched(env: Environment, now: nat) returns (foundLeaks: seq<FoundLeak>)
      requires Linked(View())
      modifies this
      ensures View() == SweptWatched(env, old(View()), now, old(watched).Keys)
      ensures ReportsOf(old(View()), LeakedAt(old(View()), now, old(watched).Keys), foundLeaks)
    {
      hide SweptWatched, ReportsOf, LeakedAt;
      ghost var start := View();
      foundLeaks := [];
      var todo := watched.Keys;
      SweptNothing(env, start, now);
      NoReports(start);
      AllSwept(start);
      while todo != {}
        invariant todo <= start.watched.Keys
        invariant View() == SweptWatched(env, start, now, start.watched.Keys - todo)
        invariant ReportsOf(start, LeakedAt(start, now, start.watched.Keys - todo), foundLeaks)
      {
        ghost var pick := Pick(todo);
        var a :| a in todo;
        SweepWatchedStep(env, start, now, start.watched.Keys - todo, a);
        ReportsStep(start, now, start.watched.Keys - todo, a, foundLeaks);
        NextVisit(start.watched.Keys, todo, a);
        InfosKept(env, start, now, start.watched.Keys - todo);
        foundLeaks := Visit(env, now, a, foundLeaks);
        todo := todo - {a};
      }
      AllSwept(start);
    }

    method Visit(env: Environment, now: nat, a: int, reports: seq<FoundLeak>) returns (more: seq<FoundLeak>)
      requires a in watched && watched[a].info in infos
      modifies this
      ensures View() == VisitWatched(env, old(View()), now, a)
      ensures more == if Leaks(old(watched)[a], now) then reports + [LeakOf(old(watched)[a])] else reports
    {
      more := reports;
      var alloc := watched[a];
      if alloc.deadline < now {
        match alloc.phase {
          case NotYetSuspicious =>
            watched := watched[a := alloc.(phase := Suspicious, deadline := now + env.accessMaxInterval)];
          case Suspicious =>
            var info := infos[alloc.info];
            infos := infos[alloc.info := info.(
              leaked := info.leaked + 1, live := info.live - 1, leakedMemory := info.leakedMemory + alloc.requestedSize)];
            liveAllTraces := liveAllTraces - 1;
            more := more + [FoundLeak(alloc.info, alloc.memory, alloc.requestedSize)];
            watched := watched - {a};
        }
      }
    }

    /** One pass of the patrol thread. Both tables are visited in any order. */
    method PatrolThreadUpdateAllocationStates(env: Environment, now: nat) returns (foundLeaks: seq<FoundLeak>)
      requires Linked(View())
      modifies this
      ensures View() == Patrolled(env, old(View()), now)
      ensures ReportsOf(old(View()), LeakedAt(old(View()), now, old(watched).Keys), foundLeaks)
    {
      ghost var start := View();
      SweepLight(now);
      foundLeaks := SweepWatched(env, now);
      ReportsOfSame(start, old(View()), SweptLight(old(View()), now, old(light).Keys), now, foundLeaks);
    }
  }

  lemma SomeReport(s: State, leaked: set<int>, reports: seq<FoundLeak>, r: FoundLeak)
    requires ReportsOf(s, leaked, reports)
    ensures r in reports <==> ReportFor(s, leaked, r)
  {
  }

  /** Whatever the order of a pass, its reports are the same. */
  lemma ReportsAreDetermined(s: State, leaked: set<int>, p: seq<FoundLeak>, q: seq<FoundLeak>)
    requires ReportsOf(s, leaked, p) && ReportsOf(s, leaked, q)
    ensures multiset(p) == multiset(q)
  {
    hide ReportFor;
    forall r ensures r in p <==> r in q {
      SomeReport(s, leaked, p, r);
      SomeReport(s, leaked, q, r);
    }
    var elements := set r | r in p;
    DistinctElements(p, elements);
    DistinctElements(q, elements);
  }

  lemma NoReports(s: State)
    ensures ReportsOf(s, {}, [])
  {
  }

  lemma InfosKept(env: Environment, s: State, now: nat, done: set<int>)
    ensures SweptWatched(env, s, now, done).infos.Keys == s.infos.Keys
  {
  }

  lemma ReportsOfSame(start: State, s: State, t: State, now: nat, reports: seq<FoundLeak>)
    requires s.watched == t.watched
    requires ReportsOf(t, LeakedAt(t, now, t.watched.Keys), reports)
    ensures ReportsOf(s, LeakedAt(s, now, s.watched.Keys), reports)
  {
    assert LeakedAt(s, now, s.watched.Keys) == LeakedAt(t, now, t.watched.Keys);
  }
}
