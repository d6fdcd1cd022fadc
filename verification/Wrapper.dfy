// The wrapped mmap() and munmap(): what each call records in the map and writes to the log.
module Wrapper {
  import opened Slices
  import opened History
  import opened Interning
  import opened CppMemoryMap
  import Pages

  /** A call as the kernel answered it. `hash` is the hash of the caller's stack trace. */
  datatype Call =
    | Mmap(time: real, inLibrary: bool, ret: int, len: nat, anonymous: bool, hash: nat)
    | Munmap(time: real, inLibrary: bool, ok: bool, addr: int, len: nat)

  /** A line of the event log: an event, or the note of a failed munmap(). */
  datatype LogEntry = Logged(event: Event) | UnmapFailed(time: real, addr: int, len: nat)

  datatype State = State(slices: Table, known: map<nat, nat>, log: seq<LogEntry>, nextId: nat)

  const INITIAL: State := State(map[], map[], [], 0)

  function RoundUp(len: nat): nat {
    Pages.WrapperRoundUp(len, Pages.PAGE_BITS)
  }

  /** A 64-bit length rounds up to the low 32 bits of its least page multiple. */
  lemma RoundUpIs(len: nat, m: int)
    requires len < Pages.Pow2(Pages.WORD64) && Pages.LeastMultiple(m, len, Pages.Pow2(Pages.PAGE_BITS))
    ensures RoundUp(len) == m % 0x1_0000_0000
  {
    hide Pages.Pow2, Pages.LeastMultiple, Pages.PythonRoundUp, Pages.WrapperRoundUp;
    Pages.PythonIsLeast(len);
    Pages.LeastUnique(Pages.PythonRoundUp(len), m, len, Pages.Pow2(Pages.PAGE_BITS));
    Pages.WrapperIs(len);
  }

  /** getOrAssignStackId: the next number for a hash not seen before. */
  function Assign(known: map<nat, nat>, hash: nat): (r: map<nat, nat>)
    ensures hash in r
  {
    if hash in known then known else known[hash := |known| + 1]
  }

  /** Whether a call gets past the checks that leave it unrecorded. */
  predicate Recorded(c: Call) {
    match c
    case Mmap(_, inLibrary, ret, _, anonymous, _) => !inLibrary && ret != 0 && anonymous
    case Munmap(_, inLibrary, _, _, _) => !inLibrary
  }

  ghost function Step(s: State, c: Call): State {
    if !Recorded(c) then s else
    match c
    case Mmap(time, _, ret, len, _, hash) =>
      var known := Assign(s.known, hash);
      State(InsertIfAbsent(s.slices, MMapAllocation(s.nextId, ret, RoundUp(len), hash)), known,
            s.log + [Logged(MapEvent(time, ret, len, known[hash]))], s.nextId + 1)
    case Munmap(time, _, ok, addr, len) =>
      if ok then
        var end := addr + RoundUp(len);
        State(UnmapLast(s.slices, addr, end), s.known,
              s.log + (if |ErasedLast(s.slices, addr, end)| > 0 then [Logged(UnmapEvent(time, addr, len))] else []), s.nextId)
      else s.(log := s.log + [UnmapFailed(time, addr, len)])
  }

  lemma ConstructHeld(m: MemoryMap, table: map<nat, nat>, uses: map<nat, nat>, hashes: map<nat, nat>, hash: nat, o: nat)
    requires Held(m.traceOf, uses, multiset{}) && Traced(m.slices, m.traceOf, hashes)
    requires InternOk(table, uses, hashes)
    requires if hash in table
      then o == table[hash] && m.interned.hashes == hashes && m.interned.uses == uses[o := uses[o] + 1]
      else o !in uses && m.interned.hashes == hashes[o := hash] && m.interned.uses == uses[o := 2]
    ensures Held(m.traceOf, m.interned.uses, multiset{o})
    ensures Traced(m.slices, m.traceOf, m.interned.hashes)
    ensures o in m.interned.hashes && m.interned.hashes[o] == hash
  {
    hide Held;
    HandleAdded(m.traceOf, uses, multiset{}, o);
    assert multiset{} + multiset{o} == multiset{o};
  }

  class MmapWrapper {
    const memoryMap: MemoryMap
    var known: map<nat, nat>
    var log: seq<LogEntry>
    var nextId: nat

    ghost function View(): State
      reads this, memoryMap
    {
      State(memoryMap.slices, known, log, nextId)
    }

    ghost predicate Valid()
      reads this, memoryMap, memoryMap.interned
    {
      memoryMap.Valid(multiset{}) && forall id | id in memoryMap.allocUses :: id < nextId
    }

    constructor ()
      ensures Valid() && View() == INITIAL && fresh(memoryMap) && fresh(memoryMap.interned)
    {
      memoryMap := new MemoryMap();
      known, log, nextId := map[], [], 0;
    }

    method OnMmap(time: real, inLibrary: bool, ret: int, len: nat, anonymous: bool, hash: nat)
      requires Valid()
      modifies this, memoryMap, memoryMap.interned
      ensures Valid() && View() == Step(old(View()), Mmap(time, inLibrary, ret, len, anonymous, hash))
      ensures inLibrary || ret == 0 || !anonymous ==> View() == old(View())
      ensures !inLibrary && ret != 0 && anonymous ==>
        && known == (if hash in old(known) then old(known) else old(known)[hash := |old(known)| + 1])
        && log == old(log) + [Logged(MapEvent(time, ret, len, known[hash]))]
        && memoryMap.slices == (if ret in old(memoryMap.slices) then old(memoryMap.slices)
          else old(memoryMap.slices)[ret := Slice(ret, RoundUp(len), MMapAllocation(old(nextId), ret, RoundUp(len), hash))])
        && nextId == old(nextId) + 1
    {
      hide RoundUp;
      if inLibrary {
        return;
      }
      if ret != 0 && anonymous {
        Record(time, ret, len, hash);
      }
    }

    method Record(time: real, ret: int, len: nat, hash: nat)
      requires Valid() && ret != 0
      modifies this, memoryMap, memoryMap.interned
      ensures Valid() && View() == Step(old(View()), Mmap(time, false, ret, len, true, hash))
    {
      hide MemoryMap.Valid, InsertIfAbsent, RoundUp;
      var handle := Intern(hash);
      var allocation := MMapAllocation(nextId, ret, RoundUp(len), hash);
      nextId := nextId + 1;
      known := Assign(known, hash);
      log := log + [Logged(MapEvent(time, ret, len, known[hash]))];
      Keep(allocation, handle);
    }

    /** The caller's allocation object interns the stack trace. */
    method Intern(hash: nat) returns (handle: nat)
      requires memoryMap.Valid(multiset{})
      modifies memoryMap.interned
      ensures memoryMap.Valid(multiset{handle})
      ensures handle in memoryMap.interned.hashes && memoryMap.interned.hashes[handle] == hash
    {
      hide Held, Traced, InternOk, Shared, Keyed;
      ghost var table, uses, hashes := memoryMap.interned.table, memoryMap.interned.uses, memoryMap.interned.hashes;
      handle := memoryMap.interned.Construct(hash);
      ConstructHeld(memoryMap, table, uses, hashes, hash, handle);
    }

    /** It is registered, and goes out of scope. */
    method Keep(allocation: MMapAllocation, handle: nat)
      requires memoryMap.Valid(multiset{handle}) && allocation.id !in memoryMap.allocUses
      requires handle in memoryMap.interned.hashes && memoryMap.interned.hashes[handle] == allocation.trace
      modifies memoryMap, memoryMap.interned
      ensures memoryMap.Valid(multiset{}) && memoryMap.slices == InsertIfAbsent(old(memoryMap.slices), allocation)
      ensures memoryMap.allocUses.Keys <= old(memoryMap.allocUses.Keys) + {allocation.id}
    {
      hide MemoryMap.Valid, InsertIfAbsent;
      memoryMap.RegisterMap(allocation, handle, multiset{handle});
      DropLocal(handle);
    }

    /** The caller's allocation object goes out of scope. */
    method DropLocal(handle: nat)
      requires memoryMap.Valid(multiset{handle})
      modifies memoryMap.interned
      ensures memoryMap.Valid(multiset{})
    {
      hide Held, Traced, InternOk, Shared;
      HandleInUse(memoryMap.traceOf, memoryMap.interned.uses, multiset{handle}, handle);
      HandleDropped(memoryMap.traceOf, memoryMap.interned.uses, multiset{handle}, handle);
      assert multiset{} + multiset{handle} == multiset{handle};
      assert multiset{handle} - multiset{handle} == multiset{};
      LastHolder(memoryMap.traceOf, memoryMap.interned.uses, multiset{}, handle);
      TraceGone(memoryMap.slices, memoryMap.traceOf, memoryMap.interned.hashes, handle);
      memoryMap.interned.Destroy(handle);
    }

    method OnMunmap(time: real, inLibrary: bool, ok: bool, addr: int, len: nat)
      requires Valid()
      modifies this, memoryMap, memoryMap.interned
      ensures Valid() && View() == Step(old(View()), Munmap(time, inLibrary, ok, addr, len))
      ensures inLibrary ==> View() == old(View())
      ensures !inLibrary && !ok ==> View() == old(View()).(log := old(log) + [UnmapFailed(time, addr, len)])
      ensures !inLibrary && ok ==>
        var end := addr + RoundUp(len);
        View() == old(View()).(
          slices := UnmapLast(old(memoryMap.slices), addr, end),
          log := if |ErasedLast(old(memoryMap.slices), addr, end)| > 0 then old(log) + [Logged(UnmapEvent(time, addr, len))] else old(log))
    {
      hide Held, Traced, InternOk, Shared, UnmapLast, ErasedLast, RoundUp, Kept;
      if inLibrary {
        return;
      }
      if ok {
        var known := memoryMap.RegisterUnmap(addr, RoundUp(len), multiset{});
        if known {
          log := log + [Logged(UnmapEvent(time, addr, len))];
        }
      } else {
        log := log + [UnmapFailed(time, addr, len)];
      }
    }
  }

  // --- Runs -----------------------------------------------------------------

  ghost function Run(calls: seq<Call>): State {
    if |calls| == 0 then INITIAL else Step(Run(calls[..|calls| - 1]), calls[|calls| - 1])
  }

  /** The wrapper through any calls whatever, overlapping mappings included. Its table, numbers and
      log are those of the run, and every use count is right at the end. */
  method RunCalls(calls: seq<Call>) returns (w: MmapWrapper)
    ensures fresh(w) && w.Valid() && w.View() == Run(calls)
  {
    hide Step, MmapWrapper.Valid, MmapWrapper.View;
    w := new MmapWrapper();
    for i := 0 to |calls|
      invariant fresh(w) && fresh(w.memoryMap) && fresh(w.memoryMap.interned)
      invariant w.Valid() && w.View() == Run(calls[..i])
    {
      assert calls[..i + 1][..i] == calls[..i];
      match calls[i] {
        case Mmap(time, inLibrary, ret, len, anonymous, hash) => w.OnMmap(time, inLibrary, ret, len, anonymous, hash);
        case Munmap(time, inLibrary, ok, addr, len) => w.OnMunmap(time, inLibrary, ok, addr, len);
      }
    }
    assert calls[..|calls|] == calls;
  }

  /** After any calls whatever the interned hashes are exactly those of allocations that own a slice. */
  lemma InternedAfter(w: MmapWrapper, calls: seq<Call>)
    requires w.Valid() && w.View() == Run(calls)
    ensures forall h :: h in w.memoryMap.interned.table <==>
      exists k :: k in Run(calls).slices && Run(calls).slices[k].allocation.trace == h
  {
    hide Step, Run;
    InternedAreOwned(w.memoryMap);
  }
}
