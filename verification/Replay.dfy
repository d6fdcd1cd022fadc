// The log the wrapper writes, replayed by the analyser, rebuilds the wrapper's map.
module Replay {
  import opened Basics
  import opened Slices
  import opened SliceSums
  import opened History
  import opened MemoryLog
  import opened CppMemoryMap
  import opened Wrapper
  import Pages

  // --- Stack trace numbers --------------------------------------------------

  /** The numbers given out are 1, 2, ... and no two hashes share one. */
  ghost predicate Dense(known: map<nat, nat>) {
    && (forall h | h in known :: 1 <= known[h] <= |known|)
    && (forall g, h | g in known && h in known && known[g] == known[h] :: g == h)
  }

  lemma AssignDense(known: map<nat, nat>, hash: nat)
    requires Dense(known)
    ensures Dense(Assign(known, hash))
    ensures forall h | h in known :: h in Assign(known, hash) && Assign(known, hash)[h] == known[h]
  {
    if hash !in known {
      assert known[hash := |known| + 1].Keys == known.Keys + {hash};
    }
  }

  // --- Relabelling ----------------------------------------------------------

  ghost function Name(known: map<nat, nat>, hash: nat): nat {
    if hash in known then known[hash] else 0
  }

  ghost function RelabelSlice(s: Slice, known: map<nat, nat>): Slice {
    s.(allocation := s.allocation.(trace := Name(known, s.allocation.trace)))
  }

  /** The wrapper's table as the analyser names its traces. */
  ghost function Relabel(t: Table, known: map<nat, nat>): Table {
    map k | k in t :: RelabelSlice(t[k], known)
  }

  ghost predicate TracesKnown(t: Table, known: map<nat, nat>) {
    forall k | k in t :: t[k].allocation.trace in known
  }

  lemma RelabelWellFormed(t: Table, known: map<nat, nat>)
    requires WellFormed(t)
    ensures WellFormed(Relabel(t, known))
  {
  }

  lemma RelabelSplit(t: Table, p: int, known: map<nat, nat>)
    requires WellFormed(t)
    ensures Relabel(SplitAt(t, p), known) == SplitAt(Relabel(t, known), p)
  {
    hide WellFormed, SplitAt, Cut;
    var r := Relabel(t, known);
    RelabelWellFormed(t, known);
    assert forall k :: Straddles(t, k, p) <==> Straddles(r, k, p);
    if k :| Straddles(t, k, p) {
      SplitAtIs(t, k, p);
      SplitAtIs(r, k, p);
      RelabelCut(t, k, p, known);
    } else {
      NotSplit(t, p);
      NotSplit(r, p);
    }
  }

  lemma NotSplit(t: Table, p: int)
    requires !Straddled(t, p)
    ensures SplitAt(t, p) == t
  {
  }

  lemma RelabelCut(t: Table, k: int, p: int, known: map<nat, nat>)
    requires Straddles(t, k, p)
    ensures Straddles(Relabel(t, known), k, p) && Relabel(Cut(t, k, p), known) == Cut(Relabel(t, known), k, p)
  {
  }

  lemma RelabelUnmap(t: Table, start: int, end: int, known: map<nat, nat>)
    requires WellFormed(t)
    ensures Relabel(Unmap(t, start, end), known) == Unmap(Relabel(t, known), start, end)
  {
    hide WellFormed, SplitAt, Owner;
    SplitKeepsOwners(t, start);
    RelabelSplit(t, start, known);
    RelabelSplit(SplitAt(t, start), end, known);
    var u := SplitBoth(t, start, end);
    assert Relabel(DropRange(u, start, end), known) == DropRange(Relabel(u, known), start, end);
  }

  lemma RelabelGrow(t: Table, known: map<nat, nat>, more: map<nat, nat>)
    requires TracesKnown(t, known)
    requires forall h | h in known :: h in more && more[h] == known[h]
    ensures Relabel(t, more) == Relabel(t, known) && TracesKnown(t, more)
  {
    var l, r := Relabel(t, more), Relabel(t, known);
    assert forall k | k in l :: k in r && l[k] == r[k];
    assert forall k | k in r :: k in l;
  }

  lemma RelabelInsert(t: Table, a: MMapAllocation, known: map<nat, nat>)
    ensures Relabel(Insert(t, a), known) == Insert(Relabel(t, known), a.(trace := Name(known, a.trace)))
  {
  }

  lemma RelabelMapped(t: Table, known: map<nat, nat>)
    ensures forall p :: Owner(Relabel(t, known), p).Some? <==> Owner(t, p).Some?
  {
    var r := Relabel(t, known);
    forall p ensures Mapped(r, p) <==> Mapped(t, p) {
      if k :| Covers(t, k, p) {
        assert Covers(r, k, p);
      }
      if k :| Covers(r, k, p) {
        assert Covers(t, k, p);
      }
    }
  }

  lemma UnmapKeepsTraces(t: Table, start: int, end: int, known: map<nat, nat>)
    requires WellFormed(t) && TracesKnown(t, known)
    ensures TracesKnown(Unmap(t, start, end), known)
  {
  }

  // --- When the two registrations agree -------------------------------------

  /** std::map::insert and the analyser's overwriting registration leave the same table exactly
      when nothing in the new range is mapped. */
  lemma MapsAgreeIffFree(t: Table, a: MMapAllocation)
    requires WellFormed(t) && Canonical(t) && IdsBelow(t, a.id) && 0 < a.originalSize
    ensures InsertIfAbsent(t, a) == RegisterMap(t, a) <==> Free(t, a.originalStart, a.originalStart + a.originalSize)
  {
    hide WellFormed, Canonical, IdsBelow, Unmap, Owner;
    var start, end := a.originalStart, a.originalStart + a.originalSize;
    MapOwnsExactly(t, a);
    if Free(t, start, end) {
      UnmapNoOp(t, start, end);
      if start in t {
        FreeApart(t, start, end, start);
        StartsAtKey(t, start);
      }
    } else {
      var p :| start <= p < end && Owner(t, p) != None;
      OverlapShows(t, a, p);
    }
  }

  lemma OverlapShows(t: Table, a: MMapAllocation, p: int)
    requires WellFormed(t) && IdsBelow(t, a.id) && 0 < a.originalSize
    requires a.originalStart <= p < a.originalStart + a.originalSize && Owner(t, p) != None
    ensures InsertIfAbsent(t, a) != RegisterMap(t, a)
  {
    hide WellFormed, RegisterMap;
    var r := RegisterMap(t, a);
    MapOwnsExactly(t, a);
    var q := if a.originalStart in t then a.originalStart else p;
    assert Owner(r, q) == Some(a);
    if a.originalStart in t {
      StartsAtKey(t, q);
      assert Covers(t, q, q);
    }
    var k := CoverOf(t, q);
    OwnerAt(t, k, q);
    if InsertIfAbsent(t, a) == r {
      assert Covers(r, k, q);
      OwnerAt(r, k, q);
      assert false;
    }
  }

  // --- Runs -----------------------------------------------------------------

  /** Addresses are those of user space and lengths are 64-bit; the kernel accepts no other. A
      failed munmap() may be of anything. */
  predicate UserSpace(c: Call) {
    Recorded(c) ==>
      match c
      case Mmap(_, _, ret, len, _, _) => 0 < ret && 0 < len < Pages.Pow2(Pages.WORD64)
      case Munmap(_, _, ok, addr, len) => ok ==> 0 <= addr && 0 < len < Pages.Pow2(Pages.WORD64)
  }

  /** The wrapper's 32-bit rounding leaves the length as the analyser rounds it. */
  predicate Fits(len: nat) {
    len + (4096 - 1) < Pages.Pow2(Pages.WORD32)
  }

  /** An unmapping that the wrapper cuts short at `cut`: nothing is recorded in the part it sees, so
      that it is not logged, or nothing in the rest; and one that is cut to nothing splits nothing. */
  ghost predicate CutAgrees(t: Table, start: int, cut: int, end: int) {
    if start == cut then !Straddled(t, start) else Free(t, start, cut) || Free(t, cut, end)
  }

  /** The call means the same to the wrapper and to the analyser of its log. A mapping has to land
      where nothing recorded is mapped, which is an assumption on the calls: MAP_FIXED overwrites, a
      munmap() made inside the library is not recorded, and the kernel is called before the mutex
      is taken, so that another thread may reuse a range before its unmapping is recorded. */
  ghost predicate Agrees(s: State, c: Call) {
    Recorded(c) ==>
      match c
      case Mmap(_, _, ret, len, _, _) => Fits(len) && Free(s.slices, ret, ret + Pages.PythonRoundUp(len))
      case Munmap(_, _, ok, addr, len) =>
        ok ==> Fits(len) || CutAgrees(s.slices, addr, addr + RoundUp(len), addr + Pages.PythonRoundUp(len))
  }

  ghost predicate Honest(s: State, c: Call) {
    UserSpace(c) && Agrees(s, c)
  }

  ghost predicate HonestRun(calls: seq<Call>) {
    forall i | 0 <= i < |calls| :: Honest(Run(calls[..i]), calls[i])
  }

  lemma RoundUpsAgree(len: nat)
    requires len < Pages.Pow2(Pages.WORD64)
    ensures RoundUp(len) == Pages.PythonRoundUp(len) <==> Fits(len)
    ensures RoundUp(len) <= Pages.PythonRoundUp(len)
  {
    hide Pages.PythonRoundUp, Pages.Pow2, Pages.RoundUpWord;
    Pages.WrapperAgrees(len);
    Pages.WrapperCuts(len);
  }

  lemma FitsWord(len: nat)
    requires Fits(len)
    ensures len < Pages.Pow2(Pages.WORD64)
  {
    hide Pages.Pow2;
    Pages.Pow2Monotone(Pages.WORD32, Pages.WORD64);
  }

  function EventsOf(log: seq<LogEntry>): seq<Event> {
    if |log| == 0 then []
    else EventsOf(log[..|log| - 1]) + (if log[|log| - 1].Logged? then [log[|log| - 1].event] else [])
  }

  /** A stream writes six significant digits: with an exponent from 1e+06 on, and below 0.0001. */
  predicate PlainTime(time: real) {
    time == 0.0 || 0.00009999995 <= time < 999999.5
  }

  /** The analyser has a form for the line: not for the note of a failed munmap(), for a time with
      an exponent, or for the null address, which is written without the leading 0x. */
  predicate Legible(entry: LogEntry) {
    entry.Logged? && PlainTime(entry.event.time) && entry.event.pointer != 0
  }

  predicate Readable(log: seq<LogEntry>) {
    forall i | 0 <= i < |log| :: Legible(log[i])
  }

  lemma EventsStep(log: seq<LogEntry>, entry: LogEntry)
    ensures EventsOf(log + [entry]) == EventsOf(log) + (if entry.Logged? then [entry.event] else [])
  {
    assert (log + [entry])[..|log|] == log;
  }

  /** What the wrapper's state and the replay of its log have to do with each other. */
  ghost predicate InStep(s: State) {
    var events := EventsOf(s.log);
    && WellFormed(s.slices)
    && TracesKnown(s.slices, s.known) && Dense(s.known)
    && PositiveSizes(events) && Good(events)
    && TableAfter(Parsed(events)) == Relabel(s.slices, s.known)
    && Maps(Parsed(events)) == s.nextId
  }

  lemma InitialInStep()
    ensures InStep(INITIAL)
  {
    assert Parsed([]) == [];
  }

  lemma PositiveMore(events: seq<Event>, e: Event)
    requires PositiveSizes(events) && 0 < e.size
    ensures PositiveSizes(events + [e])
  {
  }

  lemma EventsAppended(s: State, e: Event)
    requires PositiveSizes(EventsOf(s.log)) && Good(EventsOf(s.log)) && 0 < e.size
    ensures var events, parsed := EventsOf(s.log), Parsed(EventsOf(s.log));
      var more := EventsOf(s.log + [Logged(e)]);
      var next := e.(size := Pages.PythonRoundUp(e.size));
      && PositiveSizes(more) && Parsed(more) == parsed + [next] && 0 < next.size
      && Sound(TableAfter(parsed), Maps(parsed))
      && TableAfter(Parsed(more)) == Apply(TableAfter(parsed), Maps(parsed), next)
      && Maps(Parsed(more)) == Maps(parsed) + (if e.MapEvent? then 1 else 0)
      && (Accepted(TableAfter(parsed), next) ==> Good(more))
  {
    hide Good, TableAfter, Maps, Sound, Apply, Accepted, EventsOf, Printed, LastTime, Memory, Accounted, Parsed, PositiveSizes, Pages.PythonRoundUp;
    var events := EventsOf(s.log);
    PositiveMore(events, e);
    var more := events + [e];
    EventsStep(s.log, Logged(e));
    assert more[..|events|] == events && more[..|events| + 1] == more;
    RoundsToZero(e.size);
    ReplayStep(more, |events|, Everything);
  }

  lemma MmapInStep(s: State, c: Call)
    requires InStep(s) && Recorded(c) && c.Mmap? && Honest(s, c)
    ensures InStep(Step(s, c))
  {
    hide WellFormed, Canonical, IdsBelow, Good, TableAfter, Maps, EventsOf, Relabel, Insert, Unmap, Owner, Free, Dense, TracesKnown, RoundUp, Pages.PythonRoundUp, Parsed, Assign;
    var size := Pages.PythonRoundUp(c.len);
    RoundUpsAgree(c.len);
    RoundsToZero(c.len);
    var known := Assign(s.known, c.hash);
    var a := MMapAllocation(s.nextId, c.ret, size, c.hash);
    var e := MapEvent(c.time, c.ret, c.len, known[c.hash]);
    EventsAppended(s, e);
    AssignDense(s.known, c.hash);
    InsertFree(s.slices, a);
    RelabelGrow(s.slices, s.known, known);
    RelabelInsert(s.slices, a, known);
    var t := Relabel(s.slices, s.known);
    FreeRelabelled(s.slices, s.known, c.ret, c.ret + size);
    MapsAgreeIffFree(t, NewAllocation(e.(size := size), s.nextId));
    InsertFree(t, NewAllocation(e.(size := size), s.nextId));
    InsertWellFormed(s.slices, a);
    InsertTracesKnown(s.slices, a, known);
  }

  lemma InsertTracesKnown(t: Table, a: MMapAllocation, known: map<nat, nat>)
    requires TracesKnown(t, known) && a.trace in known
    ensures TracesKnown(Insert(t, a), known)
  {
  }

  lemma InsertFree(t: Table, a: MMapAllocation)
    requires WellFormed(t) && 0 < a.originalSize && Free(t, a.originalStart, a.originalStart + a.originalSize)
    ensures InsertIfAbsent(t, a) == Insert(t, a)
  {
    hide WellFormed, Owner, Free;
    if a.originalStart in t {
      FreeApart(t, a.originalStart, a.originalStart + a.originalSize, a.originalStart);
      StartsAtKey(t, a.originalStart);
    }
  }

  lemma FreeRelabelled(t: Table, known: map<nat, nat>, start: int, end: int)
    ensures Free(Relabel(t, known), start, end) <==> Free(t, start, end)
  {
    hide Owner, Relabel;
    RelabelMapped(t, known);
  }

  lemma MunmapInStep(s: State, c: Call)
    requires InStep(s) && Recorded(c) && c.Munmap? && (c.ok ==> 0 < c.len && Fits(c.len))
    ensures InStep(Step(s, c))
  {
    hide Fits, WellFormed, Canonical, IdsBelow, Good, TableAfter, Maps, EventsOf, Relabel, Unmap, Erased, UnmapLast, ErasedLast, Owner, Dense, TracesKnown, RoundUp, Pages.PythonRoundUp, Parsed;
    if c.ok {
      var size := Pages.PythonRoundUp(c.len);
      var end := c.addr + size;
      FitsWord(c.len);
      RoundUpsAgree(c.len);
      RoundsToZero(c.len);
      UnmapsAgree(s.slices, c.addr, end);
      var t := Relabel(s.slices, s.known);
      RelabelUnmap(s.slices, c.addr, end, s.known);
      RelabelMapped(s.slices, s.known);
      UnmapClearsExactly(s.slices, c.addr, end);
      UnmapKeepsTraces(s.slices, c.addr, end, s.known);
      ErasesIffOwned(s.slices, c.addr, end);
      if |Erased(s.slices, c.addr, end)| > 0 {
        EventsAppended(s, UnmapEvent(c.time, c.addr, c.len));
      } else {
        HistoriesAreCanonical(Parsed(EventsOf(s.log)));
        UnmapNoOp(t, c.addr, end);
        assert s.log + [] == s.log;
      }
    } else {
      EventsStep(s.log, UnmapFailed(c.time, c.addr, c.len));
      assert EventsOf(s.log) + [] == EventsOf(s.log);
    }
  }

  /** What a cut unmapping does to one table and the whole one, if it is logged, to another like it. */
  lemma CutAgreesIff(t: Table, start: int, cut: int, end: int)
    requires WellFormed(t) && Canonical(t) && start <= cut < end
    ensures Unmap(t, start, cut) == (if |Erased(t, start, cut)| > 0 then Unmap(t, start, end) else t) <==> CutAgrees(t, start, cut, end)
  {
    hide WellFormed, Canonical, Unmap, Erased, Owner;
    ErasesIffOwned(t, start, cut);
    if start == cut {
      ZeroSizeUnmapSplits(t, start);
    } else {
      UnmapClearsExactly(t, start, cut);
      UnmapClearsExactly(t, start, end);
      UnmapNoOp(t, start, cut);
      var u := Unmap(t, start, cut);
      if Free(t, cut, end) {
        UnmapKeepsCanonical(t, start, cut);
        UnmapNoOp(u, cut, end);
        AdjacentUnmapsFuse(t, start, cut, end);
      }
      if u == Unmap(t, start, end) {
        forall p | cut <= p < end ensures Owner(t, p) == None {
          assert Owner(u, p) == None;
        }
      }
    }
  }

  lemma StraddledRelabelled(t: Table, known: map<nat, nat>, p: int)
    ensures Straddled(Relabel(t, known), p) <==> Straddled(t, p)
  {
    if k :| Straddles(t, k, p) {
      assert Straddles(Relabel(t, known), k, p);
    }
    if k :| Straddles(Relabel(t, known), k, p) {
      assert Straddles(t, k, p);
    }
  }

  lemma CutRelabelled(t: Table, known: map<nat, nat>, start: int, cut: int, end: int)
    requires WellFormed(t) && start <= cut
    ensures CutAgrees(Relabel(t, known), start, cut, end) <==> CutAgrees(t, start, cut, end)
    ensures |Erased(Relabel(t, known), start, cut)| > 0 <==> |Erased(t, start, cut)| > 0
  {
    hide Relabel, Free, Straddled, Erased, WellFormed, Owner;
    StraddledRelabelled(t, known, start);
    FreeRelabelled(t, known, start, cut);
    FreeRelabelled(t, known, cut, end);
    RelabelWellFormed(t, known);
    RelabelMapped(t, known);
    ErasesIffOwned(t, start, cut);
    ErasesIffOwned(Relabel(t, known), start, cut);
  }

  /** An unmapping that is cut keeps the replay in step exactly when the cut makes no difference. */
  lemma CutInStepIff(s: State, c: Call)
    requires InStep(s) && Recorded(c) && c.Munmap? && c.ok && UserSpace(c) && !Fits(c.len)
    ensures InStep(Step(s, c)) <==> CutAgrees(s.slices, c.addr, c.addr + RoundUp(c.len), c.addr + Pages.PythonRoundUp(c.len))
  {
    hide WellFormed, Canonical, IdsBelow, Good, TableAfter, Maps, EventsOf, Relabel, Unmap, Erased, UnmapLast, ErasedLast, Owner,
      Dense, TracesKnown, RoundUp, Pages.PythonRoundUp, Parsed, Fits, CutAgrees;
    RoundUpsAgree(c.len);
    RoundsToZero(c.len);
    var start, cut, end := c.addr, c.addr + RoundUp(c.len), c.addr + Pages.PythonRoundUp(c.len);
    var t := Relabel(s.slices, s.known);
    HistoriesAreCanonical(Parsed(EventsOf(s.log)));
    UnmapsAgree(s.slices, start, cut);
    CutRelabelled(s.slices, s.known, start, cut, end);
    CutAgreesIff(t, start, cut, end);
    RelabelUnmap(s.slices, start, cut, s.known);
    UnmapClearsExactly(s.slices, start, cut);
    UnmapKeepsTraces(s.slices, start, cut, s.known);
    if |Erased(s.slices, start, cut)| > 0 {
      EventsAppended(s, UnmapEvent(c.time, c.addr, c.len));
      ErasesIffOwned(t, start, cut);
      assert OwnedIn(t, start, end);
    } else {
      assert s.log + [] == s.log;
    }
  }

  lemma {:induction false} RunsInStep(calls: seq<Call>)
    requires HonestRun(calls)
    ensures InStep(Run(calls))
  {
    hide InStep, Honest, Step;
    if |calls| == 0 {
      InitialInStep();
    } else {
      var before := calls[..|calls| - 1];
      var c := calls[|calls| - 1];
      assert forall i | 0 <= i < |before| :: before[..i] == calls[..i];
      RunsInStep(before);
      StepInStep(Run(before), c);
    }
  }

  lemma StepInStep(s: State, c: Call)
    requires InStep(s) && Honest(s, c)
    ensures InStep(Step(s, c))
  {
    hide InStep, Step, Fits, CutAgrees, Free, RoundUp, Pages.PythonRoundUp, Pages.Pow2;
    if Recorded(c) {
      if c.Mmap? {
        MmapInStep(s, c);
      } else if c.ok && !Fits(c.len) {
        CutInStepIff(s, c);
      } else {
        MunmapInStep(s, c);
      }
    } else {
      Unrecorded(s, c);
    }
  }

  lemma Unrecorded(s: State, c: Call)
    requires !Recorded(c)
    ensures Step(s, c) == s
  {
  }

  /** A mapping whose length is cut is not the one that the analyser registers. */
  lemma CutMapDiffers(t: Table, a: MMapAllocation, b: MMapAllocation)
    requires IdsBelow(t, a.id) && b == a.(originalSize := b.originalSize) && a.originalSize != b.originalSize
    ensures InsertIfAbsent(t, a) != RegisterMap(t, b)
  {
    hide Unmap;
    var l, r := InsertIfAbsent(t, a), RegisterMap(t, b);
    assert r[b.originalStart].allocation == b;
    assert l[a.originalStart].allocation != b;
  }

  /** The replay can only stay in step over a mapping that lands on a free range, uncut. */
  lemma InStepLands(s: State, c: Call)
    requires InStep(s) && UserSpace(c) && Recorded(c) && c.Mmap? && InStep(Step(s, c))
    ensures Fits(c.len) && Free(s.slices, c.ret, c.ret + Pages.PythonRoundUp(c.len))
  {
    hide WellFormed, Canonical, IdsBelow, Good, TableAfter, Maps, EventsOf, Relabel, Insert, Unmap, Owner, Free, Dense,
      TracesKnown, RoundUp, Pages.PythonRoundUp, Parsed, Assign, InsertIfAbsent, RegisterMap, Fits;
    var size := Pages.PythonRoundUp(c.len);
    RoundUpsAgree(c.len);
    RoundsToZero(c.len);
    var known := Assign(s.known, c.hash);
    var a := MMapAllocation(s.nextId, c.ret, RoundUp(c.len), c.hash);
    var e := MapEvent(c.time, c.ret, c.len, known[c.hash]);
    var b := NewAllocation(e.(size := size), s.nextId);
    var t := Relabel(s.slices, s.known);
    EventsAppended(s, e);
    AssignDense(s.known, c.hash);
    RelabelGrow(s.slices, s.known, known);
    RelabelInsertIfAbsent(s.slices, a, known);
    if !Fits(c.len) {
      CutMapDiffers(t, a.(trace := Name(known, c.hash)), b);
    }
    MapsAgreeIffFree(t, b);
    FreeRelabelled(s.slices, s.known, c.ret, c.ret + size);
  }

  lemma RelabelInsertIfAbsent(t: Table, a: MMapAllocation, known: map<nat, nat>)
    ensures Relabel(InsertIfAbsent(t, a), known) == InsertIfAbsent(Relabel(t, known), a.(trace := Name(known, a.trace)))
  {
    hide Insert;
    RelabelInsert(t, a, known);
  }

  lemma InStepAgrees(s: State, c: Call)
    requires InStep(s) && UserSpace(c) && InStep(Step(s, c))
    ensures Agrees(s, c)
  {
    hide InStep, Step, UserSpace, Fits, CutAgrees, Free, RoundUp, Pages.PythonRoundUp;
    if Recorded(c) {
      if c.Mmap? {
        InStepLands(s, c);
      } else if c.ok && !Fits(c.len) {
        CutInStepIff(s, c);
      }
    }
  }

  /** The assumption on the calls is the exact one: the replay of the log is in step with the wrapper
      at every point of a run if and only if every call means the same to both. */
  lemma InStepIffAgreeing(calls: seq<Call>)
    requires forall i | 0 <= i < |calls| :: UserSpace(calls[i])
    ensures (forall i | 0 <= i <= |calls| :: InStep(Run(calls[..i]))) <==>
      forall i | 0 <= i < |calls| :: Agrees(Run(calls[..i]), calls[i])
  {
    hide InStep, UserSpace, Agrees, Step;
    if forall i | 0 <= i < |calls| :: Agrees(Run(calls[..i]), calls[i]) {
      forall i | 0 <= i <= |calls| ensures InStep(Run(calls[..i])) {
        var part := calls[..i];
        forall j | 0 <= j < i ensures Honest(Run(part[..j]), part[j]) {
          assert part[..j] == calls[..j];
        }
        RunsInStep(part);
      }
    }
    if forall i | 0 <= i <= |calls| :: InStep(Run(calls[..i])) {
      forall i | 0 <= i < |calls| ensures Agrees(Run(calls[..i]), calls[i]) {
        assert calls[..i + 1][..i] == calls[..i];
        assert InStep(Run(calls[..i])) && InStep(Run(calls[..i + 1]));
        InStepAgrees(Run(calls[..i]), calls[i]);
      }
    }
  }

  // --- When the log can be parsed ---------------------------------------------

  /** What the call adds to the log, if anything, the analyser can parse. */
  ghost predicate WritesLegibly(s: State, c: Call) {
    Recorded(c) ==>
      match c
      case Mmap(time, _, _, _, _, _) => time == 0.0 || 0.00009999995 <= time < 999999.5
      case Munmap(time, _, ok, addr, len) =>
        ok && (|ErasedLast(s.slices, addr, addr + RoundUp(len))| > 0 ==> (time == 0.0 || 0.00009999995 <= time < 999999.5) && addr != 0)
  }

  lemma ReadableStep(s: State, c: Call)
    ensures Readable(Step(s, c).log) <==> Readable(s.log) && WritesLegibly(s, c)
  {
    hide UnmapLast, ErasedLast, InsertIfAbsent, RoundUp, Assign;
    var after := Step(s, c).log;
    assert forall i | 0 <= i < |s.log| :: after[i] == s.log[i];
    if |after| > |s.log| {
      assert Legible(after[|s.log|]) <==> WritesLegibly(s, c);
    }
  }

  lemma {:induction false} ReadableIff(calls: seq<Call>)
    ensures Readable(Run(calls).log) <==> forall i | 0 <= i < |calls| :: WritesLegibly(Run(calls[..i]), calls[i])
  {
    hide Step, Readable, WritesLegibly;
    if |calls| > 0 {
      var before := calls[..|calls| - 1];
      ReadableIff(before);
      ReadableStep(Run(before), calls[|calls| - 1]);
      assert forall i | 0 <= i < |before| :: before[i] == calls[i] && before[..i] == calls[..i];
    } else {
      assert Readable([]) by { InitialReadable(); }
    }
  }

  lemma InitialReadable()
    ensures Readable([])
  {
  }

  /** Honest calls, none of them failing, whose log the analyser cannot parse: the process maps a
      page when the machine has been up for twelve days. */
  lemma LateLogUnreadable()
    ensures var calls := [Mmap(1036800.0, false, 4096, 4096, true, 9)]; HonestRun(calls) && !Readable(Run(calls).log)
  {
    hide Step, Run, Readable, UserSpace, Fits;
    var c := Mmap(1036800.0, false, 4096, 4096, true, 9);
    assert [c][..0] == [];
    EmptyRun(c);
    ReadableStep(INITIAL, c);
    FourKiB(c);
  }

  lemma EmptyRun(c: Call)
    ensures Run([]) == INITIAL && Run([c]) == Step(INITIAL, c)
  {
    hide Step;
    assert [c][..0] == [];
  }

  lemma FourKiB(c: Call)
    requires c == Mmap(1036800.0, false, 4096, 4096, true, 9)
    ensures UserSpace(c) && Fits(c.len)
  {
    hide Pages.Pow2;
    Pages.PageOf12();
    Pages.Pow2Double(13);
    Pages.Pow2Monotone(13, Pages.WORD32);
    FitsWord(c.len);
  }

  /** Replay agreement: the analyser can read the log exactly when no recorded munmap() failed and
      every line has a time without an exponent and an address other than null; and the events
      pass every assertion of the replay and rebuild the wrapper's table, slice for slice, with
      each trace hash under the number the wrapper gave it. */
  lemma ReplayAgrees(calls: seq<Call>)
    requires HonestRun(calls)
    ensures var s := Run(calls); var events := EventsOf(s.log);
      && (Readable(s.log) <==> forall i | 0 <= i < |calls| :: WritesLegibly(Run(calls[..i]), calls[i]))
      && PositiveSizes(events) && Good(events)
      && TableAfter(Parsed(events)) == Relabel(s.slices, s.known)
      && Dense(s.known)
  {
    hide Good, TableAfter, Relabel, Dense, Readable, Run, Honest, EventsOf, WellFormed, TracesKnown, WritesLegibly;
    RunsInStep(calls);
    ReadableIff(calls);
  }

  // --- The wrapper and the analyser together -----------------------------------

  /** A filter on the analyser's numbers, as a filter on trace hashes. */
  ghost function Through(f: Filter, known: map<nat, nat>): Filter {
    (hash: nat) => f(Name(known, hash))
  }

  lemma RelabelOwned(t: Table, known: map<nat, nat>, f: Filter, p: int)
    requires WellFormed(t)
    ensures p in Accounted(Relabel(t, known), f) <==> p in Accounted(t, Through(f, known))
  {
    hide Accounted;
    RelabelWellFormed(t, known);
    AccountedPoint(t, Through(f, known), p);
    AccountedPoint(Relabel(t, known), f, p);
    if k :| Covers(t, k, p) {
      assert Covers(Relabel(t, known), k, p);
      OwnerAt(t, k, p);
      OwnerAt(Relabel(t, known), k, p);
    } else {
      RelabelMapped(t, known);
    }
  }

  lemma RelabelAccounted(t: Table, known: map<nat, nat>, f: Filter)
    requires WellFormed(t)
    ensures |Accounted(Relabel(t, known), f)| == |Accounted(t, Through(f, known))|
  {
    hide *;
    var l, r, none: set<int> := Accounted(Relabel(t, known), f), Accounted(t, Through(f, known)), {};
    forall p: int ensures (p in l <==> p in r || p in none) && !(p in r && p in none) {
      RelabelOwned(t, known, f, p);
    }
    DisjointUnionSize(r, none, l);
  }

  /** What the analyser makes of a log as it is written. */
  datatype Analysis = Analysed | AssertionFails(line: nat) | Unparsable(line: nat)

  /** The events of the first lines, when these can be parsed. */
  lemma {:induction false} EventsOfStart(log: seq<LogEntry>, i: nat)
    requires i <= |log| && Readable(log[..i])
    ensures |EventsOf(log[..i])| == i && EventsOf(log[..i]) <= EventsOf(log)
    decreases |log|
  {
    if i < |log| {
      var before := log[..|log| - 1];
      assert before[..i] == log[..i];
      EventsOfStart(before, i);
    } else {
      assert log[..i] == log;
      if i > 0 {
        var before := log[..i - 1];
        assert before[..i - 1] == before;
        EventsOfStart(before, i - 1);
        assert Legible(log[..i][i - 1]);
      }
    }
  }

  lemma StopsInside(events: seq<Event>, more: seq<Event>, i: nat, f: Filter)
    requires events <= more && StopsAt(events, i)
    ensures StopsAt(more, i) && !Good(more)
    ensures i < |events| && StopsAt(events[..i + 1], i) && PrintedUntil(events[..i + 1], i, f) == PrintedUntil(events, i, f)
  {
    hide Good, Printed, Parsed;
    assert events[..i] == more[..i] && events[..i + 1] == more[..i + 1];
    var part := events[..i + 1];
    assert part[..i] == events[..i] && part[..i + 1] == part && part[i] == events[i];
    StoppedIsNotGood(more, i);
  }

  /** The analyser reads line by line: it stops at the first line that it cannot parse, unless an
      event before it fails an assertion, and then nothing is printed for the last time. */
  method AnalyseLog(log: seq<LogEntry>, f: Filter) returns (outcome: Analysis, lines: seq<LogLine>)
    ensures outcome.Analysed? <==> Readable(log) && Good(EventsOf(log))
    ensures outcome.Analysed? ==> lines == FullLog(Parsed(EventsOf(log)), f)
    ensures outcome.Unparsable? ==>
      var i := outcome.line;
      && i < |log| && Readable(log[..i]) && !Legible(log[i])
      && Good(EventsOf(log[..i])) && lines == Printed(Parsed(EventsOf(log[..i])), f)
    ensures outcome.AssertionFails? ==>
      var i := outcome.line;
      && i < |log| && Readable(log[..i + 1])
      && StopsAt(EventsOf(log[..i + 1]), i) && lines == PrintedUntil(EventsOf(log[..i + 1]), i, f)
  {
    hide Good, StopsAt, PrintedUntil, FullLog, Printed, Parsed, EventsOf, Legible;
    var n := 0;
    while n < |log| && Legible(log[n])
      invariant n <= |log| && Readable(log[..n])
    {
      n := n + 1;
    }
    EventsOfStart(log, n);
    ghost var events := EventsOf(log[..n]);
    var generated;
    generated, lines := GenerateMemoryLog(EventsOf(log[..n]), f);
    match generated {
      case AssertionFailed(i) =>
        StopsInside(events, EventsOf(log), i, f);
        assert log[..n][..i + 1] == log[..i + 1];
        EventsOfStart(log[..n], i + 1);
        assert EventsOf(log[..i + 1]) == events[..i + 1];
        outcome := AssertionFails(i);
      case Completed =>
        if n == |log| {
          assert log[..n] == log;
          outcome := Analysed;
        } else {
          FullLogIs(Parsed(events), f);
          outcome, lines := Unparsable(n), lines[..|lines| - 1];
        }
    }
  }

  /** The wrapper through a run, and the analyser on its log, for any filter on the numbers of the
      stack traces. No assertion of the analysis fails. It completes exactly when every line can be
      parsed, and then its last value is the number of addresses that the wrapper's table maps for
      traces that pass. */
  method RecordAndAnalyse(calls: seq<Call>, f: Filter) returns (w: MmapWrapper, outcome: Analysis, lines: seq<LogLine>)
    requires HonestRun(calls)
    ensures w.Valid() && w.View() == Run(calls)
    ensures !outcome.AssertionFails?
    ensures outcome.Analysed? <==> forall i | 0 <= i < |calls| :: WritesLegibly(Run(calls[..i]), calls[i])
    ensures outcome.Analysed? ==> |lines| > 0 && lines[|lines| - 1].memory == |Accounted(w.memoryMap.slices, Through(f, w.known))|
    ensures outcome.Unparsable? ==> outcome.line < |w.log| && Readable(w.log[..outcome.line]) && !Legible(w.log[outcome.line])
  {
    hide HonestRun, Run, Good, FullLog, MmapWrapper.Valid, Accounted, InStep, Readable, Legible, WritesLegibly, StopsAt, EventsOf;
    w := RunCalls(calls);
    RunsInStep(calls);
    LastValue(Run(calls), f);
    ReadableIff(calls);
    outcome, lines := AnalyseLog(w.log, f);
    if outcome.AssertionFails? {
      FailsSomewhere(w.log, outcome.line);
    }
  }

  lemma FailsSomewhere(log: seq<LogEntry>, i: nat)
    requires i < |log| && Readable(log[..i + 1]) && StopsAt(EventsOf(log[..i + 1]), i)
    ensures !Good(EventsOf(log))
  {
    hide Good, StopsAt, EventsOf, Legible;
    EventsOfStart(log, i + 1);
    StopsInside(EventsOf(log[..i + 1]), EventsOf(log), i, Everything);
  }

  lemma LastValue(s: State, f: Filter)
    requires InStep(s)
    ensures PositiveSizes(EventsOf(s.log)) && Good(EventsOf(s.log))
    ensures var lines := FullLog(Parsed(EventsOf(s.log)), f);
      |lines| > 0 && lines[|lines| - 1].memory == |Accounted(s.slices, Through(f, s.known))|
  {
    hide WellFormed, TracesKnown, Dense, Good, TableAfter, Maps, Accounted, Printed, Parsed, Relabel, EventsOf, LastTime;
    RelabelAccounted(s.slices, s.known, f);
  }
}
