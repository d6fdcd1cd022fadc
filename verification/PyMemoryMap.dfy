// The log analyser's memory map: an ordered dictionary of slice objects, changed in place.
module PyMemoryMap {
  import opened Basics
  import opened Slices
  import opened SliceSums

  /** The greatest key strictly below `key`. */
  function GreatestLessThan(keys: set<int>, key: int): (r: Option<int>)
    ensures r.None? ==> forall k | k in keys :: key <= k
    ensures r.Some? ==> r.value in keys && r.value < key && forall k | k in keys && k < key :: k <= r.value
  {
    var sorted := SortedKeys(keys);
    var index := BisectLeft(sorted, key) - 1;
    assert forall k | k in keys :: k in sorted;
    if index < 0 then None else
      assert sorted[index] in sorted;
      Some(sorted[index])
  }

  class MemorySlice {
    const start: int
    var size: nat
    const allocation: MMapAllocation

    constructor (start: int, size: nat, allocation: MMapAllocation)
      ensures this.start == start && this.size == size && this.allocation == allocation
    {
      this.start, this.size, this.allocation := start, size, allocation;
    }

    function End(): int
      reads this
    {
      start + size
    }

    ghost function View(): Slice
      reads this
    {
      Slice(start, size, allocation)
    }
  }

  function SumSizes(ss: seq<MemorySlice>, f: Filter): nat
    reads ss
  {
    if |ss| == 0 then 0
    else
      var s := ss[|ss| - 1];
      SumSizes(ss[..|ss| - 1], f) + (if f(s.allocation.trace) then s.size else 0)
  }

  ghost predicate Shows(ss: seq<MemorySlice>, views: seq<Slice>)
    reads ss
  {
    |ss| == |views| && forall i | 0 <= i < |ss| :: ss[i].View() == views[i]
  }

  lemma {:induction false} SumIsBytes(ss: seq<MemorySlice>, views: seq<Slice>, f: Filter)
    requires Shows(ss, views)
    ensures SumSizes(ss, f) == Bytes(views, f)
  {
    if |ss| > 0 {
      var n := |ss| - 1;
      assert Shows(ss[..n], views[..n]);
      SumIsBytes(ss[..n], views[..n], f);
      assert ss[n].View() == views[n];
    }
  }

  class MemoryMap {
    var dict: map<int, MemorySlice>

    ghost function Table(): Table
      reads this, dict.Values
    {
      map k | k in dict :: dict[k].View()
    }

    /** No slice object sits under two keys. That the table itself stays well formed is
        a fact about the table functions. */
    ghost predicate Valid()
      reads this
    {
      forall k, j | k in dict && j in dict && k != j :: dict[k] != dict[j]
    }

    constructor ()
      ensures Valid() && Table() == map[] && dict == map[]
    {
      dict := map[];
    }

    /** The second half of a split: shrink the slice at `key` in place and add its right side. */
    method CutSlice(key: int, pointer: int)
      requires Valid() && Straddles(Table(), key, pointer) && pointer !in dict
      requires dict[key].start == key
      modifies this, dict.Values
      ensures Valid() && Table() == Cut(old(Table()), key, pointer)
      ensures fresh(dict.Values - old(dict.Values))
    {
      var candidate := dict[key];
      assert key in Table() && Table()[key] == candidate.View();
      var leftSideSize := pointer - candidate.start;
      var rightSideSize := candidate.End() - pointer;
      candidate.size := leftSideSize;
      var right := new MemorySlice(pointer, rightSideSize, candidate.allocation);
      dict := dict[pointer := right];
      assert forall k | k in old(dict) && k != key :: dict[k].View() == old(Table())[k];
    }

    method SplitDictAt(pointer: int)
      requires Valid() && WellFormed(Table())
      modifies this, dict.Values
      ensures Valid() && Table() == SplitAt(old(Table()), pointer)
      ensures fresh(dict.Values - old(dict.Values))
    {
      var found := GreatestLessThan(dict.Keys, pointer);
      SplitDecision(Table(), pointer, found);
      if found.None? {
        return;
      }
      var candidate := dict[found.value];
      assert candidate.View() == Table()[found.value];
      assert candidate.start < pointer;
      if pointer < candidate.End() {
        assert pointer !in dict;
        CutSlice(found.value, pointer);
      }
    }

    /** Delete the given keys one by one in key order, keeping what they held. */
    method DeleteKeys(gone: set<int>) returns (erased: seq<MemorySlice>)
      requires gone <= dict.Keys
      modifies this
      ensures dict == old(dict) - gone
      ensures |erased| == |SortedKeys(gone)|
      ensures forall j | 0 <= j < |erased| :: SortedKeys(gone)[j] in old(dict) && erased[j] == old(dict)[SortedKeys(gone)[j]]
    {
      hide *;
      var keys := SortedKeys(gone);
      erased := [];
      ghost var left := gone;
      for i := 0 to |keys|
        invariant left <= gone && keys[i..] == SortedKeys(left)
        invariant dict == old(dict) - (gone - left)
        invariant |erased| == i && forall j | 0 <= j < i :: keys[j] in old(dict) && erased[j] == old(dict)[keys[j]]
      {
        SortedKeysStep(left);
        assert keys[i] == keys[i..][0];
        RemoveOne(old(dict), gone, left, keys[i]);
        erased := erased + [dict[keys[i]]];
        dict := dict - {keys[i]};
        left := left - {keys[i]};
      }
      assert left == {};
    }

    /** Take out the slices that start in [start, end), in key order. */
    method DeleteRange(start: int, end: int) returns (erased: seq<MemorySlice>)
      requires Valid()
      modifies this
      ensures Valid() && dict.Values <= old(dict.Values)
      ensures Table() == DropRange(old(Table()), start, end)
      ensures Shows(erased, TakeRange(old(Table()), start, end))
    {
      ghost var before := Table();
      var inRange := set k | k in dict.Keys && start <= k < end;
      assert inRange == KeysIn(before, start, end);
      erased := DeleteKeys(inRange);
      DropRangeIs(before, Table(), start, end);
      forall i | 0 <= i < |erased| ensures erased[i].View() == TakeRange(before, start, end)[i] {
        TakeRangeAt(before, start, end, i);
      }
    }

    method RegisterUnmap(start: int, size: nat) returns (erased: seq<MemorySlice>)
      requires Valid() && WellFormed(Table())
      modifies this, dict.Values
      ensures Valid() && Table() == Unmap(old(Table()), start, start + size)
      ensures Shows(erased, Erased(old(Table()), start, start + size))
      ensures fresh(dict.Values - old(dict.Values))
    {
      hide WellFormed, SplitAt, DropRange, TakeRange, Owner;
      SplitKeepsOwners(Table(), start);
      SplitDictAt(start);
      SplitDictAt(start + size);
      erased := DeleteRange(start, start + size);
    }

    method RegisterMap(allocation: MMapAllocation) returns (added: MemorySlice, erased: seq<MemorySlice>)
      requires Valid() && WellFormed(Table()) && 0 < allocation.originalSize
      modifies this, dict.Values
      ensures Valid() && Table() == Slices.RegisterMap(old(Table()), allocation)
      ensures Shows(erased, Erased(old(Table()), allocation.originalStart, allocation.originalStart + allocation.originalSize))
      ensures added.View() == Slice(allocation.originalStart, allocation.originalSize, allocation)
      ensures fresh(dict.Values - old(dict.Values))
    {
      hide Unmap, Erased, WellFormed;
      erased := RegisterUnmap(allocation.originalStart, allocation.originalSize);
      added := Insert(allocation);
    }

    method Insert(allocation: MMapAllocation) returns (added: MemorySlice)
      requires Valid()
      modifies this
      ensures fresh(added) && dict == old(dict)[allocation.originalStart := added]
      ensures added.View() == Slice(allocation.originalStart, allocation.originalSize, allocation)
      ensures Valid() && Table() == old(Table())[allocation.originalStart := added.View()]
    {
      added := new MemorySlice(allocation.originalStart, allocation.originalSize, allocation);
      dict := dict[allocation.originalStart := added];
    }
  }

  /** What the neighbour found below a point decides about splitting there. */
  lemma SplitDecision(t: Table, pointer: int, found: Option<int>)
    requires WellFormed(t)
    requires found.None? ==> forall k | k in t.Keys :: pointer <= k
    requires found.Some? ==> found.value in t && found.value < pointer && forall k | k in t.Keys && k < pointer :: k <= found.value
    ensures WellFormed(SplitAt(t, pointer))
    ensures found.None? ==> SplitAt(t, pointer) == t
    ensures found.Some? ==> t[found.value].start == found.value
    ensures found.Some? && t[found.value].End() <= pointer ==> SplitAt(t, pointer) == t
    ensures found.Some? && pointer < t[found.value].End() ==>
      Straddles(t, found.value, pointer) && SplitAt(t, pointer) == Cut(t, found.value, pointer) && pointer !in t
  {
    hide Owner;
    SplitKeepsOwners(t, pointer);
    if found.Some? {
      assert SliceOk(found.value, t[found.value]);
      if pointer < t[found.value].End() {
        SplitAtIs(t, found.value, pointer);
      }
    }
  }

  lemma DropRangeIs(t: Table, u: Table, start: int, end: int)
    requires forall k | k in u :: k in t && !(start <= k < end) && u[k] == t[k]
    requires forall k | k in t && !(start <= k < end) :: k in u
    ensures u == DropRange(t, start, end)
  {
    var d := DropRange(t, start, end);
    assert forall k | k in d :: k in u && u[k] == d[k];
    assert forall k | k in u :: k in d && u[k] == d[k];
  }

  lemma TakeRangeAt(t: Table, start: int, end: int, i: int)
    requires 0 <= i < |SortedKeys(KeysIn(t, start, end))|
    ensures var key := SortedKeys(KeysIn(t, start, end))[i];
      |TakeRange(t, start, end)| == |SortedKeys(KeysIn(t, start, end))| && key in t && TakeRange(t, start, end)[i] == t[key]
  {
    assert SortedKeys(KeysIn(t, start, end))[i] in SortedKeys(KeysIn(t, start, end));
  }
}
