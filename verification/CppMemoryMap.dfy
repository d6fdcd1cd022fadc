// The wrapper's memory map: slices kept by value in an ordered map, allocations shared between
// slices by reference count, and the traces those allocations keep interned.
module CppMemoryMap {
  import opened Basics
  import opened Slices
  import opened Interning

  /** std::map::insert: an existing key wins, and nothing overlapped is removed. */
  ghost function InsertIfAbsent(t: Table, a: MMapAllocation): Table {
    if a.originalStart in t then t else Insert(t, a)
  }

  /** Slices are keyed by their start. They may overlap: registerMap does not look. */
  ghost predicate Keyed(t: Table) {
    forall k | k in t :: t[k].start == k
  }

  /** The slice at the greatest key that is at most `p` has `p` strictly inside. */
  ghost predicate LastStraddles(t: Table, k: int, p: int) {
    Straddles(t, k, p) && forall j | j in t && j <= p :: j <= k
  }

  ghost predicate Splits(t: Table, p: int) {
    exists k :: LastStraddles(t, k, p)
  }

  ghost function SplitKey(t: Table, p: int): (k: int)
    requires Splits(t, p)
    ensures LastStraddles(t, k, p)
  {
    var k :| LastStraddles(t, k, p);
    k
  }

  /** splitAt: only that slice is looked at. */
  ghost function SplitLast(t: Table, p: int): Table {
    if Splits(t, p) then Cut(t, SplitKey(t, p), p) else t
  }

  ghost function UnmapLast(t: Table, start: int, end: int): Table {
    DropRange(SplitLast(SplitLast(t, start), end), start, end)
  }

  ghost function ErasedLast(t: Table, start: int, end: int): seq<Slice> {
    TakeRange(SplitLast(SplitLast(t, start), end), start, end)
  }

  ghost function SlicesOf(t: Table, id: nat): set<int> {
    set k | k in t && t[k].allocation.id == id
  }

  /** Every allocation alive is shared by exactly its slices, and by at least one. */
  ghost predicate Shared(t: Table, allocUses: map<nat, nat>) {
    && (forall k | k in t :: t[k].allocation.id in allocUses)
    && (forall id | id in allocUses :: 0 < allocUses[id] == |SlicesOf(t, id)|)
  }

  /** The trace an allocation holds is the object for the hash its slices carry. */
  ghost predicate Traced(t: Table, traceOf: map<nat, nat>, hashes: map<nat, nat>) {
    forall k | k in t :: t[k].allocation.id in traceOf && traceOf[t[k].allocation.id] in hashes &&
      hashes[traceOf[t[k].allocation.id]] == t[k].allocation.trace
  }

  /** Objects held outside keep their place. */
  ghost predicate Kept(extra: multiset<nat>, was: map<nat, nat>, now: map<nat, nat>) {
    forall o | extra[o] > 0 && o in was :: o in now && now[o] == was[o]
  }

  lemma KeptChain(extra: multiset<nat>, a: map<nat, nat>, b: map<nat, nat>, c: map<nat, nat>)
    ensures Kept(extra, a, a)
    ensures Kept(extra, a, b) && Kept(extra, b, c) ==> Kept(extra, a, c)
  {
  }

  lemma RangeFacts(t: Table, start: int, end: int, gone: set<int>)
    requires gone == set k | k in t.Keys && start <= k < end
    ensures gone <= t.Keys && t - gone == DropRange(t, start, end)
    ensures |TakeRange(t, start, end)| == |SortedKeys(gone)|
  {
    assert gone == KeysIn(t, start, end);
  }

  class MemoryMap {
    var slices: Table
    var allocUses: map<nat, nat>   // allocation -> use count of its shared pointer
    var traceOf: map<nat, nat>     // allocation -> its interned trace object
    const interned: InternTable

    /** Everything counted right, with `extra` the handles held outside the map. */
    ghost predicate Valid(extra: multiset<nat>)
      reads this, interned
    {
      && interned.Valid()
      && Held(traceOf, interned.uses, extra)
      && traceOf.Keys == allocUses.Keys
      && Keyed(slices)
      && Shared(slices, allocUses)
      && Traced(slices, traceOf, interned.hashes)
    }

    constructor ()
      ensures Valid(multiset{}) && slices == map[] && fresh(interned)
    {
      slices, allocUses, traceOf := map[], map[], map[];
      interned := new InternTable();
    }

    method SplitMapAt(pointer: int, ghost extra: multiset<nat>)
      requires Valid(extra)
      modifies this
      ensures Valid(extra) && slices == SplitLast(old(slices), pointer)
      ensures allocUses.Keys == old(allocUses.Keys)
    {
      hide InternOk, Held, Shared, Traced, SplitLast, Valid;
      KeyedWhenValid(extra);
      var keys := SortedKeys(slices.Keys);
      var iterNext := UpperBound(keys, pointer);
      PrevDecision(slices, pointer, iterNext);
      if iterNext == 0 {
        return;
      }
      var key := keys[iterNext - 1];
      var greatestElementThatStartsBeforePointer := slices[key];
      assert greatestElementThatStartsBeforePointer.start <= pointer;
      if pointer == greatestElementThatStartsBeforePointer.start || pointer >= greatestElementThatStartsBeforePointer.End() {
        return;
      }
      CutSlice(key, pointer, extra);
    }

    lemma KeyedWhenValid(extra: multiset<nat>)
      requires Valid(extra)
      ensures Keyed(slices)
    {
    }

    /** The second half of a split: the slice is shortened, and its right side shares its
        allocation. */
    method CutSlice(key: int, pointer: int, ghost extra: multiset<nat>)
      requires Valid(extra) && Straddles(slices, key, pointer) && pointer !in slices
      modifies this
      ensures Valid(extra) && slices == Cut(old(slices), key, pointer)
      ensures allocUses.Keys == old(allocUses.Keys)
    {
      hide InternOk, Held, Shared, Traced;
      SplitShared(slices, key, pointer, allocUses);
      SplitTraced(slices, key, pointer, traceOf, interned.hashes);
      var slice := slices[key];
      var newSliceEnd := slice.End();
      slices := slices[key := slice.(size := pointer - slice.start)];
      slices := slices[pointer := Slice(pointer, newSliceEnd - pointer, slice.allocation)];
      allocUses := allocUses[slice.allocation.id := allocUses[slice.allocation.id] + 1];
    }

    /** `handle` is the trace of the caller's allocation object, which is copied into a shared
        one. When the key is taken the shared one dies again. */
    method RegisterMap(allocation: MMapAllocation, handle: nat, ghost extra: multiset<nat>)
      requires Valid(extra) && extra[handle] > 0 && allocation.id !in allocUses
      requires handle in interned.hashes && interned.hashes[handle] == allocation.trace
      modifies this, interned
      ensures Valid(extra) && slices == InsertIfAbsent(old(slices), allocation)
      ensures interned.table == old(interned.table) && interned.hashes == old(interned.hashes)
      ensures allocUses.Keys <= old(allocUses.Keys) + {allocation.id}
    {
      hide Held, Shared, Traced, InternOk;
      HandleInUse(traceOf, interned.uses, extra, handle);
      HandleAdded(traceOf, interned.uses, extra, handle);
      assert extra + multiset{handle} - multiset{handle} == extra;
      interned.Copy(handle);
      var start := allocation.originalStart;
      if start !in slices {
        HandleGiven(traceOf, interned.uses, extra + multiset{handle}, handle, allocation.id);
        InsertShared(slices, allocation, allocUses);
        InsertTraced(slices, allocation, traceOf, interned.hashes, handle);
        traceOf := traceOf[allocation.id := handle];
        allocUses := allocUses[allocation.id := 1];
        slices := slices[start := Slice(start, allocation.originalSize, allocation)];
      } else {
        HandleDropped(traceOf, interned.uses, extra + multiset{handle}, handle);
        interned.Destroy(handle);
      }
    }

    /** The last slice of an allocation has gone: so does the allocation, with its trace handle. */
    method ReleaseAllocation(id: nat, ghost extra: multiset<nat>)
      requires interned.Valid() && Held(traceOf, interned.uses, extra) && traceOf.Keys == allocUses.Keys && id in traceOf
      requires Keyed(slices) && Shared(slices, allocUses - {id}) && Traced(slices, traceOf - {id}, interned.hashes)
      modifies `allocUses, `traceOf, interned
      ensures Valid(extra) && allocUses == old(allocUses) - {id}
      ensures Kept(extra, old(interned.hashes), interned.hashes)
    {
      hide Held, InternOk, Shared, Traced, Keyed;
      var o := traceOf[id];
      HandleTaken(traceOf, interned.uses, extra, id);
      allocUses := allocUses - {id};
      traceOf := traceOf - {id};
      assert extra + multiset{o} - multiset{o} == extra;
      HandleDropped(traceOf, interned.uses, extra + multiset{o}, o);
      LastHolder(traceOf, interned.uses, extra, o);
      TraceGone(slices, traceOf, interned.hashes, o);
      interned.Destroy(o);
    }

    /** One slice goes; with the last slice of an allocation goes its trace handle. */
    method EraseSlice(key: int, ghost extra: multiset<nat>)
      requires Valid(extra) && key in slices
      modifies this, interned
      ensures Valid(extra) && slices == old(slices) - {key}
      ensures allocUses.Keys <= old(allocUses.Keys)
      ensures Kept(extra, old(interned.hashes), interned.hashes)
    {
      hide Held, InternOk, Shared, Traced;
      var id := slices[key].allocation.id;
      EraseShared(slices, key, allocUses);
      EraseTraced(slices, key, traceOf, interned.hashes);
      slices := slices - {key};
      if allocUses[id] > 1 {
        allocUses := allocUses[id := allocUses[id] - 1];
      } else {
        ReleaseAllocation(id, extra);
      }
    }

    /** Whether known memory was unmapped. The answer compares the ends of the erased range. */
    method RegisterUnmap(start: int, size: nat, ghost extra: multiset<nat>) returns (known: bool)
      requires Valid(extra)
      modifies this, interned
      ensures Valid(extra) && slices == UnmapLast(old(slices), start, start + size)
      ensures known <==> |ErasedLast(old(slices), start, start + size)| > 0
      ensures allocUses.Keys <= old(allocUses.Keys)
      ensures Kept(extra, old(interned.hashes), interned.hashes)
    {
      hide SplitLast, DropRange, TakeRange, Valid;
      var end := start + size;
      SplitMapAt(start, extra);
      SplitMapAt(end, extra);
      known := EraseRange(start, end, extra);
    }

    method EraseRange(start: int, end: int, ghost extra: multiset<nat>) returns (any: bool)
      requires Valid(extra)
      modifies this, interned
      ensures Valid(extra) && slices == DropRange(old(slices), start, end)
      ensures any <==> |TakeRange(old(slices), start, end)| > 0
      ensures allocUses.Keys <= old(allocUses.Keys)
      ensures Kept(extra, old(interned.hashes), interned.hashes)
    {
      hide *;
      ghost var split := slices;
      var gone := set k | k in slices.Keys && start <= k < end;
      RangeFacts(split, start, end, gone);
      var keys := SortedKeys(gone);
      ghost var left := gone;
      RemoveNone(split, gone);
      KeptChain(extra, interned.hashes, interned.hashes, interned.hashes);
      for i := 0 to |keys|
        invariant left <= gone && keys[i..] == SortedKeys(left)
        invariant Valid(extra) && slices == split - (gone - left)
        invariant allocUses.Keys <= old(allocUses.Keys)
        invariant Kept(extra, old(interned.hashes), interned.hashes)
      {
        SortedKeysStep(left);
        assert keys[i] == keys[i..][0];
        RemoveOne(split, gone, left, keys[i]);
        ghost var was := interned.hashes;
        EraseSlice(keys[i], extra);
        KeptChain(extra, old(interned.hashes), was, interned.hashes);
        left := left - {keys[i]};
      }
      assert left == {};
      RemoveNone(split, gone);
      any := |keys| > 0;
    }
  }

  /** The number of keys at most `key`. */
  function UpperBound(keys: seq<int>, key: int): (i: nat)
    requires Ascending(keys)
    ensures i <= |keys|
    ensures forall j :: 0 <= j < i ==> keys[j] <= key
    ensures forall j :: i <= j < |keys| ==> key < keys[j]
  {
    BisectLeft(keys, key + 1)
  }

  /** What the slice before the upper bound decides about splitting at a point. */
  lemma PrevDecision(t: Table, pointer: int, next: nat)
    requires Keyed(t) && next == UpperBound(SortedKeys(t.Keys), pointer)
    ensures next == 0 ==> SplitLast(t, pointer) == t
    ensures next > 0 ==> DecidesSplit(t, SortedKeys(t.Keys)[next - 1], pointer)
  {
    hide SortedKeys, DecidesSplit, SplitLast;
    var keys := SortedKeys(t.Keys);
    forall j | j in t && j <= pointer ensures next > 0 && j <= keys[next - 1] {
      assert j in keys;
      var i :| 0 <= i < |keys| && keys[i] == j;
      assert i < next;
    }
    if next > 0 {
      assert keys[next - 1] in keys;
      LastDecides(t, keys[next - 1], pointer);
    } else {
      NothingToSplit(t, pointer);
    }
  }

  ghost predicate DecidesSplit(t: Table, key: int, p: int) {
    && key in t && t[key].start == key <= p
    && (p == key || t[key].End() <= p ==> SplitLast(t, p) == t)
    && (key < p < t[key].End() ==> Straddles(t, key, p) && SplitLast(t, p) == Cut(t, key, p) && p !in t)
  }

  lemma LastDecides(t: Table, key: int, p: int)
    requires Keyed(t) && key in t && key <= p && forall j | j in t && j <= p :: j <= key
    ensures DecidesSplit(t, key, p)
  {
    if Straddles(t, key, p) {
      assert LastStraddles(t, key, p);
    }
  }

  lemma NothingToSplit(t: Table, p: int)
    requires forall j | j in t :: p < j
    ensures SplitLast(t, p) == t
  {
  }

  /** Where slices do not overlap, splitting and unmapping are those of the table. */
  lemma SplitsAgree(t: Table, p: int)
    requires WellFormed(t)
    ensures SplitLast(t, p) == SplitAt(t, p)
  {
    if k :| Straddles(t, k, p) {
      StraddlerIsLast(t, k, p);
      SplitAtIs(t, k, p);
    }
  }

  lemma StraddlerIsLast(t: Table, k: int, p: int)
    requires WellFormed(t) && Straddles(t, k, p)
    ensures LastStraddles(t, k, p)
  {
  }

  lemma UnmapsAgree(t: Table, start: int, end: int)
    requires WellFormed(t) && start <= end
    ensures UnmapLast(t, start, end) == Unmap(t, start, end) && ErasedLast(t, start, end) == Erased(t, start, end)
  {
    hide WellFormed, SplitLast, SplitAt, Owner, TakeRange, DropRange;
    SplitKeepsOwners(t, start);
    SplitsAgree(t, start);
    SplitsAgree(SplitAt(t, start), end);
  }

  lemma SplitLastCovers(t: Table, p: int, k: int, q: int)
    requires Keyed(t) && p != q
    ensures Keyed(SplitLast(t, p))
    ensures Straddles(SplitLast(t, p), k, q) ==> k == p || Straddles(t, k, q)
    ensures Straddles(t, k, q) && q < p ==> Straddles(SplitLast(t, p), k, q)
  {
  }

  /** In whatever map, overlapping or not: nothing in the unmapped range is covered afterwards if
      and only if every slice that reaches across its start is the one that splitAt looks at. */
  lemma UnmapLastClearsIff(t: Table, start: int, end: int)
    requires Keyed(t) && start < end
    ensures (forall p | start <= p < end :: !Mapped(UnmapLast(t, start, end), p)) <==>
      forall k | Straddles(t, k, start) :: LastStraddles(t, k, start)
  {
    var u := SplitLast(t, start);
    var v := SplitLast(u, end);
    var w := UnmapLast(t, start, end);
    assert forall k :: Straddles(u, k, start) <==> Straddles(t, k, start) && !LastStraddles(t, k, start) by {
      SplitAway(t, start);
    }
    assert Keyed(u);
    forall k ensures Straddles(v, k, start) <==> Straddles(u, k, start) {
      SplitLastCovers(u, end, k, start);
    }
    if k :| Straddles(u, k, start) {
      assert Covers(w, k, start);
      assert Mapped(w, start);
    }
    if p :| start <= p < end && Mapped(w, p) {
      var k := CoverOf(w, p);
      assert k < start;
      assert Straddles(v, k, start);
    }
  }

  /** A split takes exactly the slice it looks at away from the point. */
  lemma SplitAway(t: Table, p: int)
    requires Keyed(t)
    ensures forall k :: Straddles(SplitLast(t, p), k, p) <==> Straddles(t, k, p) && !LastStraddles(t, k, p)
  {
  }

  // --- Use counts of allocations --------------------------------------------

  lemma SplitShared(t: Table, k: int, p: int, allocUses: map<nat, nat>)
    requires Straddles(t, k, p) && p !in t && Shared(t, allocUses)
    ensures var id := t[k].allocation.id; id in allocUses && Shared(Cut(t, k, p), allocUses[id := allocUses[id] + 1])
  {
    var u := Cut(t, k, p);
    var id := t[k].allocation.id;
    assert SlicesOf(u, id) == SlicesOf(t, id) + {p};
    forall i | i in allocUses && i != id ensures SlicesOf(u, i) == SlicesOf(t, i) {
    }
  }

  lemma SplitTraced(t: Table, k: int, p: int, traceOf: map<nat, nat>, hashes: map<nat, nat>)
    requires Straddles(t, k, p) && p !in t && Traced(t, traceOf, hashes)
    ensures Traced(Cut(t, k, p), traceOf, hashes)
  {
  }

  lemma InsertShared(t: Table, a: MMapAllocation, allocUses: map<nat, nat>)
    requires Shared(t, allocUses) && a.originalStart !in t && a.id !in allocUses
    ensures Shared(Insert(t, a), allocUses[a.id := 1])
  {
    var u := Insert(t, a);
    if SlicesOf(t, a.id) != {} {
      var k := Pick(SlicesOf(t, a.id));
      assert false;
    }
    assert SlicesOf(u, a.id) == SlicesOf(t, a.id) + {a.originalStart};
    forall i | i in allocUses ensures SlicesOf(u, i) == SlicesOf(t, i) {
    }
  }

  lemma InsertTraced(t: Table, a: MMapAllocation, traceOf: map<nat, nat>, hashes: map<nat, nat>, handle: nat)
    requires Traced(t, traceOf, hashes) && a.id !in traceOf
    requires handle in hashes && hashes[handle] == a.trace
    ensures Traced(Insert(t, a), traceOf[a.id := handle], hashes)
  {
  }

  lemma EraseShared(t: Table, k: int, allocUses: map<nat, nat>)
    requires Shared(t, allocUses) && k in t
    ensures t[k].allocation.id in allocUses && allocUses[t[k].allocation.id] >= 1
    ensures allocUses[t[k].allocation.id] > 1 ==> Shared(t - {k}, allocUses[t[k].allocation.id := allocUses[t[k].allocation.id] - 1])
    ensures allocUses[t[k].allocation.id] == 1 ==> Shared(t - {k}, allocUses - {t[k].allocation.id})
    ensures allocUses[t[k].allocation.id] == 1 ==> forall j | j in t && j != k :: t[j].allocation.id != t[k].allocation.id
  {
    var id := t[k].allocation.id;
    var u := t - {k};
    OneLess(SlicesOf(t, id), SlicesOf(u, id), k);
    forall i | i in allocUses && i != id ensures SlicesOf(u, i) == SlicesOf(t, i) {
    }
    if allocUses[id] == 1 {
      assert |SlicesOf(u, id)| == 0;
      forall j | j in t && j != k ensures t[j].allocation.id != id {
        assert t[j].allocation.id == id ==> j in SlicesOf(u, id);
      }
    }
  }

  lemma EraseTraced(t: Table, k: int, traceOf: map<nat, nat>, hashes: map<nat, nat>)
    requires Traced(t, traceOf, hashes) && k in t
    ensures t[k].allocation.id in traceOf && Traced(t - {k}, traceOf, hashes)
    ensures (forall j | j in t && j != k :: t[j].allocation.id != t[k].allocation.id) ==> Traced(t - {k}, traceOf - {t[k].allocation.id}, hashes)
  {
  }

  /** Dropping an object no allocation has does not disturb the traces. */
  lemma TraceGone(t: Table, traceOf: map<nat, nat>, hashes: map<nat, nat>, o: nat)
    requires Traced(t, traceOf, hashes)
    ensures (forall id | id in traceOf :: traceOf[id] != o) ==> Traced(t, traceOf, hashes - {o})
  {
  }

  lemma HandleInUse(traceOf: map<nat, nat>, uses: map<nat, nat>, extra: multiset<nat>, o: nat)
    requires Held(traceOf, uses, extra) && extra[o] > 0
    ensures o in uses
  {
  }

  /** When only the table and one outside handle are left, no allocation has the object. */
  lemma LastHolder(traceOf: map<nat, nat>, uses: map<nat, nat>, extra: multiset<nat>, o: nat)
    requires Held(traceOf, uses, extra + multiset{o})
    ensures o in uses
    ensures uses[o] == 2 ==> extra[o] == 0 && forall id | id in traceOf :: traceOf[id] != o
  {
    HandleInUse(traceOf, uses, extra + multiset{o}, o);
    if uses[o] == 2 {
      assert |Holders(traceOf, o)| == 0;
      forall id | id in traceOf ensures traceOf[id] != o {
        assert traceOf[id] == o ==> id in Holders(traceOf, o);
      }
    }
  }

  /** After a completed call (no handle held outside) the interned hashes are exactly those of
      allocations that still own a slice, and each of these has the table's object. */
  lemma InternedAreOwned(m: MemoryMap)
    requires m.Valid(multiset{})
    ensures forall h :: h in m.interned.table <==> exists k :: k in m.slices && m.slices[k].allocation.trace == h
    ensures forall k | k in m.slices ::
      var a := m.slices[k].allocation; a.id in m.traceOf && a.trace in m.interned.table && m.interned.table[a.trace] == m.traceOf[a.id]
  {
    forall h | h in m.interned.table ensures exists k :: k in m.slices && m.slices[k].allocation.trace == h {
      var o := m.interned.table[h];
      assert |Holders(m.traceOf, o)| > 0;
      var id := Pick(Holders(m.traceOf, o));
      assert |SlicesOf(m.slices, id)| > 0;
      var k := Pick(SlicesOf(m.slices, id));
      assert m.slices[k].allocation.trace == h;
    }
  }
}
