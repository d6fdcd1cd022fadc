// Memory by stack trace: the table recomputed from a memory map, and its agreement with the log
// of memory over time.
module ByStack {
  import opened Basics
  import opened Slices
  import opened SliceSums
  import opened History
  import opened PyMemoryMap
  import opened MemoryLog

  ghost predicate TraceIn(ss: seq<Slice>, id: nat) {
    exists i :: 0 <= i < |ss| && ss[i].allocation.trace == id
  }

  /** `r` has exactly the traces of the slices, each with the bytes of its slices. */
  ghost predicate Tally(ss: seq<Slice>, r: map<nat, nat>) {
    && (forall id | id in r :: TraceIn(ss, id))
    && (forall i | 0 <= i < |ss| :: ss[i].allocation.trace in r)
    && (forall id | id in r :: r[id] == Bytes(ss, Only(id)))
  }

  lemma {:induction false} BytesAbsent(ss: seq<Slice>, id: nat)
    requires forall i | 0 <= i < |ss| :: ss[i].allocation.trace != id
    ensures Bytes(ss, Only(id)) == 0
  {
    if |ss| > 0 {
      BytesAbsent(ss[..|ss| - 1], id);
    }
  }

  lemma BytesStep(ss: seq<Slice>, s: Slice, f: Filter)
    ensures Bytes(ss + [s], f) == Bytes(ss, f) + (if f(s.allocation.trace) then s.size else 0)
  {
    assert (ss + [s])[..|ss|] == ss;
  }

  ghost function Get(r: map<nat, nat>, id: nat): nat {
    if id in r then r[id] else 0
  }

  lemma TallyGet(ss: seq<Slice>, r: map<nat, nat>, id: nat)
    requires Tally(ss, r)
    ensures Get(r, id) == Bytes(ss, Only(id))
  {
    if id !in r {
      BytesAbsent(ss, id);
    }
  }

  lemma TallyStep(ss: seq<Slice>, s: Slice, r: map<nat, nat>)
    requires Tally(ss, r)
    ensures var id := s.allocation.trace; Tally(ss + [s], r[id := Get(r, id) + s.size])
  {
    hide Bytes;
    var key := s.allocation.trace;
    var next := r[key := Get(r, key) + s.size];
    var all := ss + [s];
    assert all[|ss|] == s;
    TallyGet(ss, r, key);
    forall id | id in next ensures TraceIn(all, id) && next[id] == Bytes(all, Only(id)) {
      BytesStep(ss, s, Only(id));
      if id != key {
        var i :| 0 <= i < |ss| && ss[i].allocation.trace == id;
        assert all[i] == ss[i];
      }
    }
  }

  /** The per-trace table of a memory map, as the analyser recomputes it. */
  ghost predicate IsTable(t: Table, r: map<nat, nat>) {
    && (forall id | id in r :: HasTrace(t, id) && r[id] == |Accounted(t, Only(id))|)
    && (forall k | k in t :: t[k].allocation.trace in r)
  }

  ghost predicate HasTrace(t: Table, id: nat) {
    exists k :: k in t && t[k].allocation.trace == id
  }

  lemma TallyIsTable(t: Table, r: map<nat, nat>)
    requires WellFormed(t) && Tally(Values(t), r)
    ensures IsTable(t, r)
  {
    hide WellFormed, Values, Bytes, Accounted;
    forall id | id in r ensures HasTrace(t, id) && r[id] == |Accounted(t, Only(id))| {
      TableBytes(t, Only(id));
      var i :| 0 <= i < |Values(t)| && Values(t)[i].allocation.trace == id;
      var k := ValueKey(t, i);
      assert k in t && t[k].allocation.trace == id;
    }
    forall k | k in t ensures t[k].allocation.trace in r {
      var i := ValueIndex(t, k);
    }
  }

  lemma TableEmpty(t: Table, r: map<nat, nat>)
    requires IsTable(t, r)
    ensures r == map[] <==> t == map[]
  {
    if r == map[] && t != map[] {
      var k := Pick(t.Keys);
    }
    if t == map[] && r != map[] {
      var id := Pick(r.Keys);
      assert false;
    }
  }

  method CalculateMemoryByStackId(memoryMap: MemoryMap) returns (r: map<nat, nat>)
    requires memoryMap.Valid() && WellFormed(memoryMap.Table())
    ensures IsTable(memoryMap.Table(), r)
  {
    hide *;
    ghost var t := memoryMap.Table();
    var keys := SortedKeys(memoryMap.dict.Keys);
    r := map[];
    StartOfTally(memoryMap);
    for i := 0 to |keys|
      invariant 0 <= i <= |Values(t)| == |keys|
      invariant Tally(Values(t)[..i], r)
    {
      ValueAt(memoryMap, i);
      var memorySlice := memoryMap.dict[keys[i]];
      var id := memorySlice.allocation.trace;
      TallyStep(Values(t)[..i], memorySlice.View(), r);
      assert Values(t)[..i + 1] == Values(t)[..i] + [Values(t)[i]];
      GetIs(r, id);
      SliceIs(memorySlice);
      Overwrite(r, id, 0, memorySlice.size);
      if id !in r {
        r := r[id := 0];
      }
      r := r[id := r[id] + memorySlice.size];
    }
    assert Values(t)[..|keys|] == Values(t);
    TallyIsTable(t, r);
  }

  lemma StartOfTally(memoryMap: MemoryMap)
    ensures Tally(Values(memoryMap.Table())[..0], map[])
    ensures |Values(memoryMap.Table())| == |SortedKeys(memoryMap.dict.Keys)|
  {
    assert memoryMap.Table().Keys == memoryMap.dict.Keys;
  }

  lemma GetIs(r: map<nat, nat>, id: nat)
    ensures Get(r, id) == if id in r then r[id] else 0
  {
  }

  lemma SliceIs(s: MemorySlice)
    ensures s.View().size == s.size && s.View().allocation == s.allocation
  {
  }

  lemma ValueAt(memoryMap: MemoryMap, i: nat)
    requires i < |SortedKeys(memoryMap.dict.Keys)|
    ensures var key := SortedKeys(memoryMap.dict.Keys)[i];
      key in memoryMap.dict && i < |Values(memoryMap.Table())| && Values(memoryMap.Table())[i] == memoryMap.dict[key].View()
    ensures SortedKeys(memoryMap.dict.Keys) == SortedKeys(memoryMap.Table().Keys)
  {
    assert memoryMap.Table().Keys == memoryMap.dict.Keys;
    assert SortedKeys(memoryMap.dict.Keys)[i] in SortedKeys(memoryMap.dict.Keys);
  }

  // --- Agreement of the two analyses ----------------------------------------

  /** All values of a table together. */
  ghost function SumOf(r: map<nat, nat>): int {
    SumOver(r.Keys, ValueIn(r))
  }

  ghost function ValueIn(r: map<nat, nat>): nat -> int {
    (id: nat) => Get(r, id)
  }

  ghost function BytesOf(ss: seq<Slice>): nat -> int {
    (id: nat) => Bytes(ss, Only(id))
  }

  ghost function Within(ids: set<nat>): Filter { t => t in ids }

  lemma {:induction false} BytesSplit(ss: seq<Slice>, f: Filter, g: Filter, h: Filter)
    requires forall t :: f(t) <==> g(t) || h(t)
    requires forall t :: !(g(t) && h(t))
    ensures Bytes(ss, f) == Bytes(ss, g) + Bytes(ss, h)
  {
    if |ss| > 0 {
      BytesSplit(ss[..|ss| - 1], f, g, h);
    }
  }

  lemma {:induction false} BytesSame(ss: seq<Slice>, f: Filter, g: Filter)
    requires forall i | 0 <= i < |ss| :: f(ss[i].allocation.trace) == g(ss[i].allocation.trace)
    ensures Bytes(ss, f) == Bytes(ss, g)
  {
    if |ss| > 0 {
      BytesSame(ss[..|ss| - 1], f, g);
    }
  }

  lemma {:induction false} SumForIsBytes(ss: seq<Slice>, ids: set<nat>)
    ensures SumOver(ids, BytesOf(ss)) == Bytes(ss, Within(ids))
  {
    hide Bytes;
    if ids == {} {
      BytesNone(ss, Within(ids));
    } else {
      var x := AnyOf(ids);
      SumForIsBytes(ss, ids - {x});
      BytesSplit(ss, Within(ids), Within(ids - {x}), Only(x));
    }
  }

  lemma {:induction false} BytesNone(ss: seq<Slice>, f: Filter)
    requires forall t :: !f(t)
    ensures Bytes(ss, f) == 0
  {
    if |ss| > 0 {
      BytesNone(ss[..|ss| - 1], f);
    }
  }

  /** The table's values add up to all the bytes. */
  lemma TallySum(ss: seq<Slice>, r: map<nat, nat>)
    requires Tally(ss, r)
    ensures SumOf(r) == Bytes(ss, Everything)
  {
    hide Bytes;
    SumOverSame(r.Keys, ValueIn(r), BytesOf(ss));
    SumForIsBytes(ss, r.Keys);
    BytesSame(ss, Within(r.Keys), Everything);
  }

  lemma TableIsTally(t: Table, r: map<nat, nat>)
    requires WellFormed(t) && IsTable(t, r)
    ensures Tally(Values(t), r)
  {
    hide WellFormed, Values, Bytes, Accounted;
    forall id | id in r ensures TraceIn(Values(t), id) && r[id] == Bytes(Values(t), Only(id)) {
      TableBytes(t, Only(id));
      var k :| k in t && t[k].allocation.trace == id;
      var i := ValueIndex(t, k);
    }
    forall i | 0 <= i < |Values(t)| ensures Values(t)[i].allocation.trace in r {
      var k := ValueKey(t, i);
    }
  }

  /** The table recomputed from the final map agrees with the incremental logs: each entry is
      the last value of the log filtered to that trace (zero for a trace without entry), and
      the entries add up to the last value of the unfiltered log. */
  lemma AnalysesAgree(events: seq<Event>, r: map<nat, nat>, id: nat)
    requires PositiveSizes(events) && IsTable(TableAfter(events), r)
    ensures var lines := FullLog(events, Only(id)); lines[|lines| - 1].memory == Get(r, id)
    ensures var lines := FullLog(events, Everything); lines[|lines| - 1].memory == SumOf(r)
  {
    hide WellFormed, Canonical, IdsBelow, Values, Bytes, Accounted, TableAfter, Printed, LastTime, IsTable, SumOf, Tally;
    var t := TableAfter(events);
    HistoriesAreCanonical(events);
    TableIsTally(t, r);
    TallyGet(Values(t), r, id);
    TableBytes(t, Only(id));
    TallySum(Values(t), r);
    TableBytes(t, Everything);
  }
}
