// Byte counts over slices, and what they count: addresses with an accepted owner.
module SliceSums {
  import opened Basics
  import opened Slices

  /** A filter on the trace an allocation is grouped by. */
  type Filter = nat -> bool

  const Everything: Filter := _ => true

  function Only(trace: nat): Filter { t => t == trace }

  function Bytes(ss: seq<Slice>, f: Filter): nat {
    if |ss| == 0 then 0
    else Bytes(ss[..|ss| - 1], f) + (var s := ss[|ss| - 1]; if f(s.allocation.trace) then s.size else 0)
  }

  ghost predicate CoveredBy(ss: seq<Slice>, f: Filter, i: int, p: int) {
    0 <= i < |ss| && f(ss[i].allocation.trace) && ss[i].start <= p < ss[i].End()
  }

  /** The addresses of the slices that pass the filter. */
  ghost function Covered(ss: seq<Slice>, f: Filter): set<int> {
    if |ss| == 0 then {} else
      var s := ss[|ss| - 1];
      Covered(ss[..|ss| - 1], f) + (if f(s.allocation.trace) then Interval(s.start, s.End()) else {})
  }

  lemma {:induction false} CoveredIndex(ss: seq<Slice>, f: Filter, p: int) returns (i: int)
    ensures p in Covered(ss, f) ==> CoveredBy(ss, f, i, p)
  {
    i := 0;
    if |ss| > 0 {
      var n := |ss| - 1;
      i := CoveredIndex(ss[..n], f, p);
      if CoveredBy(ss, f, n, p) { i := n; }
    }
  }

  lemma {:induction false} CoveredAt(ss: seq<Slice>, f: Filter, i: int, p: int)
    requires CoveredBy(ss, f, i, p)
    ensures p in Covered(ss, f)
  {
    if i < |ss| - 1 {
      CoveredAt(ss[..|ss| - 1], f, i, p);
    }
  }

  ghost predicate Tiled(ss: seq<Slice>) {
    forall i, j :: 0 <= i < j < |ss| ==> ss[i].End() <= ss[j].start
  }

  lemma {:induction false} BytesCountAddresses(ss: seq<Slice>, f: Filter)
    requires Tiled(ss)
    ensures Bytes(ss, f) == |Covered(ss, f)|
  {
    if |ss| > 0 {
      var n := |ss| - 1;
      var s := ss[n];
      BytesCountAddresses(ss[..n], f);
      IntervalSize(s.start, s.End());
      forall p | p in Covered(ss[..n], f) ensures p !in Interval(s.start, s.End()) {
        var i := CoveredIndex(ss[..n], f, p);
        assert ss[..n][i] == ss[i];
      }
    }
  }

  /** The slices of a table in address order. */
  ghost function Values(t: Table): seq<Slice> {
    var keys := SortedKeys(t.Keys);
    assert forall i | 0 <= i < |keys| :: keys[i] in keys;
    SlicesAt(t, keys)
  }

  /** The mapped addresses whose owner passes the filter. */
  ghost function Accounted(t: Table, f: Filter): set<int> {
    Covered(Values(t), f)
  }

  lemma ValuesTiled(t: Table)
    requires WellFormed(t)
    ensures Tiled(Values(t))
  {
    forall i, j | 0 <= i < j < |Values(t)| ensures Values(t)[i].End() <= Values(t)[j].start {
      ValuesApart(t, i, j);
    }
  }

  lemma ValuesApart(t: Table, i: int, j: int)
    requires WellFormed(t) && 0 <= i < j < |Values(t)|
    ensures Values(t)[i].End() <= Values(t)[j].start
  {
  }

  lemma ValueIndex(t: Table, k: int) returns (i: int)
    requires k in t
    ensures 0 <= i < |Values(t)| && Values(t)[i] == t[k]
  {
    var keys := SortedKeys(t.Keys);
    assert k in keys;
    i :| 0 <= i < |keys| && keys[i] == k;
  }

  lemma ValueKey(t: Table, i: int) returns (k: int)
    requires 0 <= i < |Values(t)|
    ensures k in t && t[k] == Values(t)[i]
  {
    k := SortedKeys(t.Keys)[i];
    assert k in SortedKeys(t.Keys);
  }

  ghost predicate OwnedBy(t: Table, f: Filter, p: int) {
    Owner(t, p).Some? && f(Owner(t, p).value.trace)
  }

  lemma AccountedPoint(t: Table, f: Filter, p: int)
    requires WellFormed(t)
    ensures p in Accounted(t, f) <==> OwnedBy(t, f, p)
  {
    if p in Accounted(t, f) {
      var i := CoveredIndex(Values(t), f, p);
      var k := ValueKey(t, i);
      assert SliceOk(k, t[k]);
      OwnerAt(t, k, p);
    }
    if OwnedBy(t, f, p) {
      var k := CoverOf(t, p);
      assert SliceOk(k, t[k]);
      var i := ValueIndex(t, k);
      CoveredAt(Values(t), f, i, p);
    }
  }

  /** For one trace, the addresses that an allocation of the trace owns. */
  lemma AccountedTrace(t: Table, trace: nat, p: int)
    requires WellFormed(t)
    ensures p in Accounted(t, Only(trace)) <==> Owner(t, p).Some? && Owner(t, p).value.trace == trace
    ensures p in Accounted(t, Everything) <==> Owner(t, p).Some?
  {
    hide Accounted, Owner, WellFormed;
    AccountedPoint(t, Only(trace), p);
    AccountedPoint(t, Everything, p);
  }

  /** The recomputed byte count of a table is the number of accounted addresses. */
  lemma TableBytes(t: Table, f: Filter)
    requires WellFormed(t)
    ensures Bytes(Values(t), f) == |Accounted(t, f)|
  {
    ValuesTiled(t);
    BytesCountAddresses(Values(t), f);
  }

  lemma ErasedKey(t: Table, start: int, end: int, i: int) returns (k: int)
    requires WellFormed(t) && start <= end
    requires 0 <= i < |Erased(t, start, end)|
    ensures var u := SplitBoth(t, start, end); k in u && u[k] == Erased(t, start, end)[i] && start <= k && u[k].End() <= end
    ensures k == SortedKeys(KeysIn(SplitBoth(t, start, end), start, end))[i] && SliceOk(k, SplitBoth(t, start, end)[k])
  {
    var u := SplitBoth(t, start, end);
    var keys := SortedKeys(KeysIn(u, start, end));
    SplitBothFacts(t, start, end);
    k := keys[i];
    assert k in keys;
    assert !Straddles(u, k, end);
  }

  lemma ErasedIndex(t: Table, start: int, end: int, p: int) returns (i: int)
    requires WellFormed(t) && start <= p < end && Owner(t, p).Some?
    ensures var ss := Erased(t, start, end); 0 <= i < |ss| && ss[i].start <= p < ss[i].End() && ss[i].allocation == Owner(t, p).value
  {
    var u := SplitBoth(t, start, end);
    var keys := SortedKeys(KeysIn(u, start, end));
    SplitBothFacts(t, start, end);
    var k := CoverOf(u, p);
    assert SliceOk(k, u[k]);
    assert Owner(u, p) == Owner(t, p);
    assert !Straddles(u, k, start);
    assert k in KeysIn(u, start, end);
    assert k in keys;
    i :| 0 <= i < |keys| && keys[i] == k;
  }

  lemma ErasedTiled(t: Table, start: int, end: int)
    requires WellFormed(t) && start <= end
    ensures Tiled(Erased(t, start, end))
    ensures forall i :: 0 <= i < |Erased(t, start, end)| ==>
      var s := Erased(t, start, end)[i]; start <= s.start < s.End() <= end
  {
    SplitBothFacts(t, start, end);
    forall i | 0 <= i < |Erased(t, start, end)|
      ensures var s := Erased(t, start, end)[i]; start <= s.start < s.End() <= end
    {
      var k := ErasedKey(t, start, end, i);
    }
    forall i, j | 0 <= i < j < |Erased(t, start, end)|
      ensures Erased(t, start, end)[i].End() <= Erased(t, start, end)[j].start
    {
      var k := ErasedKey(t, start, end, i);
      var l := ErasedKey(t, start, end, j);
    }
  }

  /** The erased slices tile exactly what was owned in the unmapped range. */
  lemma ErasedTile(t: Table, start: int, end: int, f: Filter)
    requires WellFormed(t) && start <= end
    ensures forall p :: p in Covered(Erased(t, start, end), f) <==> start <= p < end && OwnedBy(t, f, p)
  {
    var u := SplitBoth(t, start, end);
    var ss := Erased(t, start, end);
    forall p ensures p in Covered(ss, f) <==> start <= p < end && OwnedBy(t, f, p) {
      if p in Covered(ss, f) {
        var i := CoveredIndex(ss, f, p);
        var k := ErasedKey(t, start, end, i);
        SplitBothFacts(t, start, end);
        OwnerAt(u, k, p);
        assert Owner(u, p) == Owner(t, p);
      } else if start <= p < end && OwnedBy(t, f, p) {
        var i := ErasedIndex(t, start, end, p);
        CoveredAt(ss, f, i, p);
      }
    }
  }

  /** An unmap erases a slice exactly when something in its range is owned. */
  lemma ErasesIffOwned(t: Table, start: int, end: int)
    requires WellFormed(t) && start <= end
    ensures |Erased(t, start, end)| > 0 <==> exists p :: start <= p < end && Owner(t, p).Some?
  {
    if |Erased(t, start, end)| > 0 {
      var k := ErasedKey(t, start, end, 0);
      ErasedTile(t, start, end, Everything);
      CoveredAt(Erased(t, start, end), Everything, 0, k);
      assert OwnedBy(t, Everything, k);
    }
    if p :| start <= p < end && Owner(t, p).Some? {
      var i := ErasedIndex(t, start, end, p);
    }
  }

  lemma UnmapPoint(t: Table, start: int, end: int, f: Filter, p: int)
    requires WellFormed(t) && start <= end
    ensures p in Accounted(Unmap(t, start, end), f) <==> p in Accounted(t, f) && !(start <= p < end)
    ensures p in Covered(Erased(t, start, end), f) <==> p in Accounted(t, f) && start <= p < end
  {
    var r := Unmap(t, start, end);
    UnmapClearsExactly(t, start, end);
    assert Owner(r, p) == if start <= p < end then None else Owner(t, p);
    AccountedPoint(t, f, p);
    AccountedPoint(r, f, p);
    ErasedTile(t, start, end, f);
  }

  /** What an unmap takes away from a filtered count is what it erases, never more than its size. */
  lemma UnmapAccounting(t: Table, start: int, end: int, f: Filter)
    requires WellFormed(t) && start <= end
    ensures |Accounted(Unmap(t, start, end), f)| == |Accounted(t, f)| - Bytes(Erased(t, start, end), f)
    ensures Bytes(Erased(t, start, end), f) <= end - start
  {
    hide *;
    var before, after, gone := Accounted(t, f), Accounted(Unmap(t, start, end), f), Covered(Erased(t, start, end), f);
    forall p: int ensures (p in after <==> p in before && p !in gone) && (p in gone ==> p in before && start <= p < end) {
      UnmapPoint(t, start, end, f, p);
    }
    DifferenceSize(before, gone, after);
    ErasedTiled(t, start, end);
    BytesCountAddresses(Erased(t, start, end), f);
    IntervalSize(start, end);
    SubsetSize(gone, Interval(start, end));
  }

  lemma MapPoint(t: Table, a: MMapAllocation, f: Filter, p: int)
    requires WellFormed(t) && 0 < a.originalSize
    ensures var inside := a.originalStart <= p < a.originalStart + a.originalSize;
      p in Accounted(RegisterMap(t, a), f) <==> if inside then f(a.trace) else p in Accounted(t, f)
  {
    MapOwnsExactly(t, a);
    assert Owner(RegisterMap(t, a), p) == (if a.originalStart <= p < a.originalStart + a.originalSize then Some(a) else Owner(t, p));
    AccountedPoint(t, f, p);
    AccountedPoint(RegisterMap(t, a), f, p);
  }

  lemma MapSplits(t: Table, a: MMapAllocation, f: Filter, added: set<int>, p: int)
    requires WellFormed(t) && 0 < a.originalSize
    requires added == if f(a.trace) then Interval(a.originalStart, a.originalStart + a.originalSize) else {}
    ensures var between := Accounted(Unmap(t, a.originalStart, a.originalStart + a.originalSize), f);
      && (p in Accounted(RegisterMap(t, a), f) <==> p in between || p in added)
      && !(p in between && p in added)
  {
    hide *;
    UnmapPoint(t, a.originalStart, a.originalStart + a.originalSize, f, p);
    MapPoint(t, a, f, p);
  }

  lemma MapAccounting(t: Table, a: MMapAllocation, f: Filter)
    requires WellFormed(t) && 0 < a.originalSize
    ensures |Accounted(RegisterMap(t, a), f)| ==
      |Accounted(t, f)| + (if f(a.trace) then a.originalSize else 0) - Bytes(Erased(t, a.originalStart, a.originalStart + a.originalSize), f)
  {
    hide WellFormed, Owner, Unmap, RegisterMap, Accounted, Erased, Bytes;
    var start, end := a.originalStart, a.originalStart + a.originalSize;
    var between := Accounted(Unmap(t, start, end), f);
    var added := if f(a.trace) then Interval(start, end) else {};
    UnmapAccounting(t, start, end, f);
    IntervalSize(start, end);
    var after := Accounted(RegisterMap(t, a), f);
    forall p: int ensures (p in after <==> p in between || p in added) && !(p in between && p in added) {
      MapSplits(t, a, f, added, p);
    }
    DisjointUnionSize(between, added, after);
  }
}
