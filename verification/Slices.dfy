// The table of mapped slices as a value, and the function it stands for: from every
// address to the allocation that owns it.
module Slices {
  import opened Basics

  /** One mmap() call. `id` is the identity of the object: two calls never share one.
      `trace` is what the analyses group by: a stack trace id in the log analyser, a
      stack trace hash in the wrapper. */
  datatype MMapAllocation = MMapAllocation(id: nat, originalStart: int, originalSize: nat, trace: nat) {
    function OriginalEnd(): int { originalStart + originalSize }
  }

  datatype Slice = Slice(start: int, size: nat, allocation: MMapAllocation) {
    function End(): int { start + size }
  }

  type Table = map<int, Slice>

  ghost predicate SliceOk(k: int, s: Slice) {
    && s.start == k
    && 0 < s.size
    && s.allocation.originalStart <= k
    && s.End() <= s.allocation.OriginalEnd()
  }

  /** Slices are keyed by their start, positive, inside their allocation, and disjoint. */
  ghost predicate WellFormed(t: Table) {
    && (forall k | k in t :: SliceOk(k, t[k]))
    && (forall k, j | k in t && j in t && k < j :: t[k].End() <= j)
  }

  lemma StartsAtKey(t: Table, k: int)
    requires WellFormed(t) && k in t
    ensures t[k].start == k < t[k].End()
  {
  }

  ghost predicate Covers(t: Table, k: int, p: int) {
    k in t && k <= p < t[k].End()
  }

  ghost predicate Mapped(t: Table, p: int) {
    exists k :: Covers(t, k, p)
  }

  ghost function CoverOf(t: Table, p: int): (k: int)
    requires Mapped(t, p)
    ensures Covers(t, k, p)
  {
    var k :| Covers(t, k, p);
    k
  }

  /** What the table stands for: the allocation that owns an address. */
  ghost function Owner(t: Table, p: int): Option<MMapAllocation> {
    if Mapped(t, p) then Some(t[CoverOf(t, p)].allocation) else None
  }

  lemma CoverUnique(t: Table, k: int, j: int, p: int)
    requires WellFormed(t) && Covers(t, k, p) && Covers(t, j, p)
    ensures k == j
  {
  }

  lemma OwnerAt(t: Table, k: int, p: int)
    requires WellFormed(t) && Covers(t, k, p)
    ensures Owner(t, p) == Some(t[k].allocation)
  {
    CoverUnique(t, k, CoverOf(t, p), p);
  }

  // --- Splitting ------------------------------------------------------------

  ghost predicate Straddles(t: Table, k: int, p: int) {
    k in t && k < p < t[k].End()
  }

  ghost predicate Straddled(t: Table, p: int) {
    exists k :: Straddles(t, k, p)
  }

  ghost function Straddler(t: Table, p: int): (k: int)
    requires Straddled(t, p)
    ensures Straddles(t, k, p)
  {
    var k :| Straddles(t, k, p);
    k
  }

  ghost function Cut(t: Table, k: int, p: int): Table
    requires Straddles(t, k, p)
  {
    t[k := t[k].(size := p - k)][p := Slice(p, t[k].End() - p, t[k].allocation)]
  }

  /** Cut the slice that has `p` strictly inside, if there is one. */
  ghost function SplitAt(t: Table, p: int): Table {
    if Straddled(t, p) then Cut(t, Straddler(t, p), p) else t
  }

  lemma SplitAtIs(t: Table, k: int, p: int)
    requires WellFormed(t) && Straddles(t, k, p)
    ensures SplitAt(t, p) == Cut(t, k, p)
    ensures p !in t
  {
    CoverUnique(t, k, Straddler(t, p), p);
  }

  lemma CutWellFormed(t: Table, k: int, p: int)
    requires WellFormed(t) && Straddles(t, k, p) && p !in t
    ensures WellFormed(Cut(t, k, p))
  {
    var u := Cut(t, k, p);
    assert SliceOk(k, t[k]);
    forall j | j in u ensures SliceOk(j, u[j]) {
      if j != k && j != p {
        assert SliceOk(j, t[j]);
      }
    }
    forall i, j | i in u && j in u && i < j ensures u[i].End() <= j {
      if i != k && i != p && j != p {
        assert t[i].End() <= j;
      }
    }
  }

  lemma CutOwner(t: Table, k: int, p: int, q: int)
    requires WellFormed(t) && Straddles(t, k, p) && p !in t
    ensures Owner(Cut(t, k, p), q) == Owner(t, q)
  {
    var u := Cut(t, k, p);
    CutWellFormed(t, k, p);
    if Mapped(t, q) {
      var j := CoverOf(t, q);
      var i := if j == k && p <= q then p else j;
      assert Covers(u, i, q);
      OwnerAt(u, i, q);
    } else if Mapped(u, q) {
      var j := CoverOf(u, q);
      assert Covers(t, if j == p then k else j, q);
    }
  }

  lemma CutLeavesNothingAcross(t: Table, k: int, p: int)
    requires WellFormed(t) && Straddles(t, k, p)
    ensures !Straddled(Cut(t, k, p), p)
  {
  }

  /** Splitting keeps the table well formed and is invisible to the owner function. */
  lemma SplitKeepsOwners(t: Table, p: int)
    requires WellFormed(t)
    ensures WellFormed(SplitAt(t, p))
    ensures forall q :: Owner(SplitAt(t, p), q) == Owner(t, q)
    ensures !Straddled(SplitAt(t, p), p)
    ensures SplitAt(t, p).Keys == t.Keys + (if Straddled(t, p) then {p} else {})
  {
    hide WellFormed, Owner;
    if k :| Straddles(t, k, p) {
      SplitAtIs(t, k, p);
      CutWellFormed(t, k, p);
      CutLeavesNothingAcross(t, k, p);
      forall q ensures Owner(Cut(t, k, p), q) == Owner(t, q) {
        CutOwner(t, k, p, q);
      }
    }
  }

  // --- Unmapping and mapping ------------------------------------------------

  ghost function SplitBoth(t: Table, start: int, end: int): Table {
    SplitAt(SplitAt(t, start), end)
  }

  /** The table after the range [start, end) is unmapped. */
  ghost function Unmap(t: Table, start: int, end: int): Table {
    DropRange(SplitBoth(t, start, end), start, end)
  }

  /** Drop every slice that starts in [start, end). */
  ghost function DropRange(t: Table, start: int, end: int): Table {
    map k | k in t && !(start <= k < end) :: t[k]
  }

  ghost function SlicesAt(t: Table, keys: seq<int>): (r: seq<Slice>)
    requires forall i | 0 <= i < |keys| :: keys[i] in t
    ensures |r| == |keys|
    ensures forall i :: 0 <= i < |r| ==> r[i] == t[keys[i]]
  {
    seq(|keys|, i requires 0 <= i < |keys| => t[keys[i]])
  }

  ghost function KeysIn(t: Table, start: int, end: int): set<int> {
    set k | k in t && start <= k < end
  }

  /** The slices that start in [start, end), in address order. */
  ghost function TakeRange(t: Table, start: int, end: int): seq<Slice> {
    var keys := SortedKeys(KeysIn(t, start, end));
    assert forall i | 0 <= i < |keys| :: keys[i] in keys;
    SlicesAt(t, keys)
  }

  /** The slices an unmap of [start, end) takes out, in address order. */
  ghost function Erased(t: Table, start: int, end: int): seq<Slice> {
    TakeRange(SplitBoth(t, start, end), start, end)
  }

  /** Add the slice of a whole new allocation. */
  ghost function Insert(t: Table, a: MMapAllocation): Table {
    t[a.originalStart := Slice(a.originalStart, a.originalSize, a)]
  }

  ghost function RegisterMap(t: Table, a: MMapAllocation): Table {
    Insert(Unmap(t, a.originalStart, a.originalStart + a.originalSize), a)
  }

  lemma SplitBothFacts(t: Table, start: int, end: int)
    requires WellFormed(t) && start <= end
    ensures WellFormed(SplitBoth(t, start, end))
    ensures forall q :: Owner(SplitBoth(t, start, end), q) == Owner(t, q)
    ensures !Straddled(SplitBoth(t, start, end), start)
    ensures !Straddled(SplitBoth(t, start, end), end)
  {
    var u := SplitAt(t, start);
    SplitKeepsOwners(t, start);
    SplitKeepsOwners(u, end);
    var v := SplitAt(u, end);
    if k :| Straddles(v, k, start) {
      if j :| Straddles(u, j, end) {
        SplitAtIs(u, j, end);
      }
      assert Straddles(u, k, start) ==> Straddled(u, start);
      assert false;
    }
  }

  /** Refinement: unmapping clears exactly its range in the owner function. */
  lemma UnmapClearsExactly(t: Table, start: int, end: int)
    requires WellFormed(t) && start <= end
    ensures WellFormed(Unmap(t, start, end))
    ensures forall p :: Owner(Unmap(t, start, end), p) == if start <= p < end then None else Owner(t, p)
  {
    SplitBothFacts(t, start, end);
    var u := SplitBoth(t, start, end);
    var r := Unmap(t, start, end);
    assert WellFormed(r);
    forall p ensures Owner(r, p) == if start <= p < end then None else Owner(t, p) {
      if k :| Covers(r, k, p) {
        assert Covers(u, k, p);
        assert !Straddles(u, k, start) && !Straddles(u, k, end);
        OwnerAt(r, k, p);
        OwnerAt(u, k, p);
      } else {
        assert forall k :: !Covers(r, k, p);
        if k :| Covers(u, k, p) {
          OwnerAt(u, k, p);
          assert !Covers(r, k, p);
          assert start <= k < end && !Straddles(u, k, end);
        }
      }
    }
  }

  ghost predicate Free(t: Table, start: int, end: int) {
    forall p | start <= p < end :: Owner(t, p) == None
  }

  lemma FreeApart(t: Table, start: int, end: int, k: int)
    requires WellFormed(t) && Free(t, start, end) && start < end && k in t
    ensures t[k].End() <= start || end <= k
  {
    if k <= start < t[k].End() {
      OwnerAt(t, k, start);
    } else if start <= k < end {
      OwnerAt(t, k, k);
    }
  }

  lemma InsertWellFormed(t: Table, a: MMapAllocation)
    requires WellFormed(t) && 0 < a.originalSize && Free(t, a.originalStart, a.originalStart + a.originalSize)
    ensures WellFormed(Insert(t, a))
  {
    forall k | k in t ensures t[k].End() <= a.originalStart || a.originalStart + a.originalSize <= k {
      FreeApart(t, a.originalStart, a.originalStart + a.originalSize, k);
    }
  }

  lemma InsertOwner(t: Table, a: MMapAllocation, p: int)
    requires WellFormed(t) && 0 < a.originalSize && Free(t, a.originalStart, a.originalStart + a.originalSize)
    ensures Owner(Insert(t, a), p) == if a.originalStart <= p < a.originalStart + a.originalSize then Some(a) else Owner(t, p)
  {
    var start := a.originalStart;
    var end := start + a.originalSize;
    var r := Insert(t, a);
    InsertWellFormed(t, a);
    if start <= p < end {
      assert Covers(r, start, p);
      OwnerAt(r, start, p);
    } else if Mapped(t, p) {
      var k := CoverOf(t, p);
      FreeApart(t, start, end, k);
      assert Covers(r, k, p);
      OwnerAt(r, k, p);
    } else if Mapped(r, p) {
      assert Covers(t, CoverOf(r, p), p);
    }
  }

  lemma InsertOwners(t: Table, u: Table, a: MMapAllocation, end: int)
    requires end == a.originalStart + a.originalSize
    requires WellFormed(u) && 0 < a.originalSize
    requires forall p :: Owner(u, p) == if a.originalStart <= p < end then None else Owner(t, p)
    ensures WellFormed(Insert(u, a))
    ensures forall p :: Owner(Insert(u, a), p) == if a.originalStart <= p < end then Some(a) else Owner(t, p)
  {
    InsertWellFormed(u, a);
    forall p ensures Owner(Insert(u, a), p) == if a.originalStart <= p < end then Some(a) else Owner(t, p) {
      InsertOwner(u, a, p);
    }
  }

  /** Refinement: mapping gives exactly its range to the new allocation. */
  lemma MapOwnsExactly(t: Table, a: MMapAllocation)
    requires WellFormed(t) && 0 < a.originalSize
    ensures WellFormed(RegisterMap(t, a))
    ensures forall p :: Owner(RegisterMap(t, a), p) == (if a.originalStart <= p < a.originalStart + a.originalSize then Some(a) else Owner(t, p))
  {
    hide Owner, WellFormed, Unmap;
    var end := a.originalStart + a.originalSize;
    UnmapClearsExactly(t, a.originalStart, end);
    InsertOwners(t, Unmap(t, a.originalStart, end), a, end);
  }

  // --- Canonical form -------------------------------------------------------

  /** No two touching slices belong to one allocation. */
  ghost predicate Canonical(t: Table) {
    forall k, j | k in t && j in t && t[k].End() == j :: t[k].allocation != t[j].allocation
  }

  lemma SliceIsForced(t: Table, u: Table, k: int)
    requires WellFormed(t) && Canonical(t) && WellFormed(u) && Canonical(u)
    requires forall p :: Owner(t, p) == Owner(u, p)
    requires k in t
    ensures k in u && u[k].allocation == t[k].allocation && u[k].End() <= t[k].End()
  {
    OwnerAt(t, k, k);
    var j := CoverOf(u, k);
    if j < k {
      assert Covers(u, j, k - 1);
      OwnerAt(u, j, k - 1);
      assert false;
    }
    assert j == k;
    var e := t[k].End();
    if e < u[k].End() {
      assert Covers(u, k, e);
      OwnerAt(u, k, e);
      assert false;
    }
  }

  /** A canonical table is determined by the owner function it stands for. */
  lemma CanonicalIsUnique(t: Table, u: Table)
    requires WellFormed(t) && Canonical(t) && WellFormed(u) && Canonical(u)
    requires forall p :: Owner(t, p) == Owner(u, p)
    ensures t == u
  {
    forall k | k in t ensures k in u && t[k] == u[k] {
      SliceIsForced(t, u, k);
      SliceIsForced(u, t, k);
    }
    forall k | k in u ensures k in t {
      SliceIsForced(u, t, k);
    }
  }

  /** Touching slices of one allocation may only meet at the given points. */
  ghost predicate CanonicalBut(t: Table, cuts: set<int>) {
    forall k, j | k in t && j in t && t[k].End() == j && j !in cuts :: t[k].allocation != t[j].allocation
  }

  lemma SplitMeetsAtCut(t: Table, p: int, cuts: set<int>)
    requires WellFormed(t) && CanonicalBut(t, cuts)
    ensures CanonicalBut(SplitAt(t, p), cuts + {p})
  {
  }

  lemma UnmapKeepsCanonical(t: Table, start: int, end: int)
    requires WellFormed(t) && Canonical(t) && start < end
    ensures Canonical(Unmap(t, start, end))
  {
    hide Owner;
    SplitKeepsOwners(t, start);
    SplitBothFacts(t, start, end);
    SplitMeetsAtCut(t, start, {});
    SplitMeetsAtCut(SplitAt(t, start), end, {start});
    var v := SplitBoth(t, start, end);
    assert CanonicalBut(v, {start, end}) by {
      assert {} + {start} + {end} == {start, end};
    }
    forall k | k in v && k < start ensures v[k].End() <= start {
      assert !Straddles(v, k, start);
    }
  }

  /** All allocations in the table are older than the next one. */
  ghost predicate IdsBelow(t: Table, n: nat) {
    forall k | k in t :: t[k].allocation.id < n
  }

  lemma UnmapIds(t: Table, start: int, end: int, n: nat)
    requires WellFormed(t) && IdsBelow(t, n)
    ensures IdsBelow(Unmap(t, start, end), n)
  {
  }

  lemma InsertCanonical(u: Table, a: MMapAllocation)
    requires Canonical(u) && IdsBelow(u, a.id) && a.originalStart !in u && 0 < a.originalSize
    ensures Canonical(Insert(u, a)) && IdsBelow(Insert(u, a), a.id + 1)
  {
  }

  lemma MapKeepsCanonical(t: Table, a: MMapAllocation)
    requires WellFormed(t) && Canonical(t) && IdsBelow(t, a.id) && 0 < a.originalSize
    ensures Canonical(RegisterMap(t, a)) && IdsBelow(RegisterMap(t, a), a.id + 1)
  {
    hide WellFormed, Canonical, IdsBelow, Unmap, Owner;
    var start, end := a.originalStart, a.originalStart + a.originalSize;
    var u := Unmap(t, start, end);
    UnmapKeepsCanonical(t, start, end);
    UnmapIds(t, start, end, a.id);
    UnmapClearsExactly(t, start, end);
    if start in u {
      FreeApart(u, start, end, start);
      StartsAtKey(u, start);
    }
    InsertCanonical(u, a);
  }

  // --- Laws that follow from uniqueness -------------------------------------

  lemma UnmapsCommute(t: Table, a: int, b: int, c: int, d: int)
    requires WellFormed(t) && Canonical(t) && a < b && c < d
    ensures Unmap(Unmap(t, a, b), c, d) == Unmap(Unmap(t, c, d), a, b)
  {
    UnmapClearsExactly(t, a, b);
    UnmapClearsExactly(t, c, d);
    UnmapKeepsCanonical(t, a, b);
    UnmapKeepsCanonical(t, c, d);
    UnmapClearsExactly(Unmap(t, a, b), c, d);
    UnmapClearsExactly(Unmap(t, c, d), a, b);
    UnmapKeepsCanonical(Unmap(t, a, b), c, d);
    UnmapKeepsCanonical(Unmap(t, c, d), a, b);
    CanonicalIsUnique(Unmap(Unmap(t, a, b), c, d), Unmap(Unmap(t, c, d), a, b));
  }

  lemma AdjacentUnmapsFuse(t: Table, a: int, b: int, c: int)
    requires WellFormed(t) && Canonical(t) && a < b < c
    ensures Unmap(Unmap(t, a, b), b, c) == Unmap(t, a, c)
  {
    UnmapClearsExactly(t, a, b);
    UnmapKeepsCanonical(t, a, b);
    UnmapClearsExactly(Unmap(t, a, b), b, c);
    UnmapKeepsCanonical(Unmap(t, a, b), b, c);
    UnmapClearsExactly(t, a, c);
    UnmapKeepsCanonical(t, a, c);
    CanonicalIsUnique(Unmap(Unmap(t, a, b), b, c), Unmap(t, a, c));
  }

  /** An unmap changes nothing exactly when nothing in its range is owned; so it is idempotent. */
  lemma UnmapNoOp(t: Table, a: int, b: int)
    requires WellFormed(t) && Canonical(t) && a < b
    ensures Unmap(t, a, b) == t <==> forall p | a <= p < b :: Owner(t, p) == None
    ensures Unmap(Unmap(t, a, b), a, b) == Unmap(t, a, b)
  {
    UnmapClearsExactly(t, a, b);
    UnmapKeepsCanonical(t, a, b);
    if forall p | a <= p < b :: Owner(t, p) == None {
      CanonicalIsUnique(Unmap(t, a, b), t);
    }
    var u := Unmap(t, a, b);
    UnmapClearsExactly(u, a, b);
    UnmapKeepsCanonical(u, a, b);
    CanonicalIsUnique(Unmap(u, a, b), u);
  }

  /** Mapping over a range forgets what was there: earlier unmaps inside it do not matter. */
  lemma MapAbsorbsUnmap(t: Table, a: MMapAllocation, c: int, d: int)
    requires WellFormed(t) && Canonical(t) && IdsBelow(t, a.id) && 0 < a.originalSize
    requires a.originalStart <= c < d <= a.originalStart + a.originalSize
    ensures RegisterMap(Unmap(t, c, d), a) == RegisterMap(t, a)
  {
    UnmapClearsExactly(t, c, d);
    UnmapKeepsCanonical(t, c, d);
    UnmapIds(t, c, d, a.id);
    MapOwnsExactly(t, a);
    MapKeepsCanonical(t, a);
    MapOwnsExactly(Unmap(t, c, d), a);
    MapKeepsCanonical(Unmap(t, c, d), a);
    CanonicalIsUnique(RegisterMap(Unmap(t, c, d), a), RegisterMap(t, a));
  }

  /** The positive-size requirement is needed: a zero-size unmap leaves the table as it was
      only when no slice has the point strictly inside, and otherwise leaves two halves. */
  lemma ZeroSizeUnmapSplits(t: Table, a: int)
    requires WellFormed(t) && Canonical(t)
    ensures Unmap(t, a, a) == t <==> !Straddled(t, a)
    ensures Canonical(Unmap(t, a, a)) <==> !Straddled(t, a)
  {
    SplitKeepsOwners(t, a);
    var u := SplitAt(t, a);
    assert SplitAt(u, a) == u;
    assert Unmap(t, a, a) == u;
    if k :| Straddles(t, k, a) {
      SplitAtIs(t, k, a);
      assert u[k].End() == a && u[k].allocation == u[a].allocation;
      assert a in u;
    }
  }

  // --- Fragmentation --------------------------------------------------------

  lemma StillStraddled(t: Table, start: int, end: int)
    requires WellFormed(t) && start < end
    ensures Straddled(SplitAt(t, start), end) <==> Straddled(t, end)
  {
    var u := SplitAt(t, start);
    if c :| Straddles(t, c, start) {
      SplitAtIs(t, c, start);
      if k :| Straddles(t, k, end) {
        assert Straddles(u, if k == c then start else k, end);
      }
      if k :| Straddles(u, k, end) {
        assert Straddles(t, if k == start then c else k, end);
      }
    }
  }

  lemma UnmapKeys(t: Table, start: int, end: int)
    requires WellFormed(t) && start < end
    ensures Unmap(t, start, end).Keys == (t.Keys - KeysIn(t, start, end)) + (if Straddled(t, end) then {end} else {})
  {
    hide WellFormed, SplitAt, Straddled, Owner;
    SplitKeepsOwners(t, start);
    SplitKeepsOwners(SplitAt(t, start), end);
    StillStraddled(t, start, end);
  }

  /** The range lies strictly inside one slice. */
  ghost predicate StrictlyInside(t: Table, start: int, end: int) {
    exists k :: Straddles(t, k, start) && Straddles(t, k, end)
  }

  /** An unmap adds at most one slice, and exactly when its range is strictly inside a slice. */
  lemma FragmentationStep(t: Table, start: int, end: int)
    requires WellFormed(t) && start < end
    ensures |Unmap(t, start, end)| <= |t| + 1
    ensures |Unmap(t, start, end)| == |t| + 1 <==> StrictlyInside(t, start, end)
  {
    UnmapKeys(t, start, end);
    var r := Unmap(t, start, end);
    var inside := KeysIn(t, start, end);
    assert inside <= t.Keys;
    assert |r| == |r.Keys| && |t| == |t.Keys|;
    assert |t.Keys - inside| == |t.Keys| - |inside|;
    if k :| Straddles(t, k, end) {
      assert end !in t;
      assert |r.Keys| == |t.Keys| - |inside| + 1;
      if k < start {
        assert Straddles(t, k, start);
        assert inside == {};
      } else {
        assert k in inside;
        assert !StrictlyInside(t, start, end) by {
          if j :| Straddles(t, j, start) && Straddles(t, j, end) {
            assert Covers(t, j, end) && Covers(t, k, end);
            CoverUnique(t, j, k, end);
          }
        }
      }
    } else {
      assert |r.Keys| == |t.Keys| - |inside|;
    }
  }
}
