// Histories of mappings and unmappings: the events of a log, the table they lead to, and what
// every such table satisfies.
module History {
  import opened Basics
  import opened Slices

  datatype Event =
    | MapEvent(time: real, pointer: int, size: nat, stackId: nat)
    | UnmapEvent(time: real, pointer: int, size: nat)

  function Maps(events: seq<Event>): nat {
    if |events| == 0 then 0
    else Maps(events[..|events| - 1]) + (if events[|events| - 1].MapEvent? then 1 else 0)
  }

  /** A MAP creates an allocation object of its own: it is named by how many came before. */
  function NewAllocation(e: Event, id: nat): MMapAllocation
    requires e.MapEvent?
  {
    MMapAllocation(id, e.pointer, e.size, e.stackId)
  }

  ghost function Apply(t: Table, id: nat, e: Event): Table {
    match e
    case MapEvent(_, _, _, _) => RegisterMap(t, NewAllocation(e, id))
    case UnmapEvent(_, pointer, size) => Unmap(t, pointer, pointer + size)
  }

  ghost function TableAfter(events: seq<Event>): Table {
    if |events| == 0 then map[]
    else
      var before := events[..|events| - 1];
      Apply(TableAfter(before), Maps(before), events[|events| - 1])
  }

  ghost predicate PositiveSizes(events: seq<Event>) {
    forall i | 0 <= i < |events| :: 0 < events[i].size
  }

  ghost predicate Sound(t: Table, id: nat) {
    WellFormed(t) && Canonical(t) && IdsBelow(t, id)
  }

  lemma ApplyKeepsSound(t: Table, id: nat, e: Event)
    requires Sound(t, id) && 0 < e.size
    ensures Sound(Apply(t, id, e), if e.MapEvent? then id + 1 else id)
  {
    hide WellFormed, Canonical, IdsBelow, RegisterMap, Unmap;
    match e
    case MapEvent(_, _, _, _) =>
      MapOwnsExactly(t, NewAllocation(e, id));
      MapKeepsCanonical(t, NewAllocation(e, id));
    case UnmapEvent(_, pointer, size) =>
      UnmapClearsExactly(t, pointer, pointer + size);
      UnmapKeepsCanonical(t, pointer, pointer + size);
      UnmapIds(t, pointer, pointer + size, id);
  }

  /** Every history of positive sizes leads to a well-formed canonical table. */
  lemma {:induction false} HistoriesAreCanonical(events: seq<Event>)
    requires PositiveSizes(events)
    ensures Sound(TableAfter(events), Maps(events))
  {
    if |events| > 0 {
      var before := events[..|events| - 1];
      HistoriesAreCanonical(before);
      ApplyKeepsSound(TableAfter(before), Maps(before), events[|events| - 1]);
    }
  }

  /** Two histories that give every address the same owner leave identical tables. */
  lemma SameOwnersSameTable(a: seq<Event>, b: seq<Event>)
    requires PositiveSizes(a) && PositiveSizes(b)
    requires forall p :: Owner(TableAfter(a), p) == Owner(TableAfter(b), p)
    ensures TableAfter(a) == TableAfter(b)
  {
    hide TableAfter, WellFormed, Canonical, IdsBelow, Owner;
    HistoriesAreCanonical(a);
    HistoriesAreCanonical(b);
    CanonicalIsUnique(TableAfter(a), TableAfter(b));
  }

  /** The order of the last two unmaps of a history is irrelevant. */
  lemma UnmapOrderIrrelevant(events: seq<Event>, d: Event, e: Event)
    requires PositiveSizes(events) && d.UnmapEvent? && e.UnmapEvent? && 0 < d.size && 0 < e.size
    ensures TableAfter(events + [d, e]) == TableAfter(events + [e, d])
  {
    hide WellFormed, Canonical, IdsBelow, Unmap, Maps;
    HistoriesAreCanonical(events);
    var t := TableAfter(events);
    assert (events + [d, e])[..|events| + 1] == events + [d] && (events + [e, d])[..|events| + 1] == events + [e];
    assert (events + [d])[..|events|] == events && (events + [e])[..|events|] == events;
    assert TableAfter(events + [d]) == Unmap(t, d.pointer, d.pointer + d.size);
    assert TableAfter(events + [e]) == Unmap(t, e.pointer, e.pointer + e.size);
    UnmapsCommute(t, d.pointer, d.pointer + d.size, e.pointer, e.pointer + e.size);
  }

  /** A new mapping leaves at most two slices more. */
  lemma MapFragmentation(t: Table, a: MMapAllocation)
    requires WellFormed(t) && 0 < a.originalSize
    ensures |RegisterMap(t, a)| <= |t| + 2
  {
    hide WellFormed, Unmap;
    var u := Unmap(t, a.originalStart, a.originalStart + a.originalSize);
    FragmentationStep(t, a.originalStart, a.originalStart + a.originalSize);
    InsertSize(u, a.originalStart, Slice(a.originalStart, a.originalSize, a));
  }

  /** Fragmentation is bounded by the history: two slices a mapping, one an unmapping. */
  lemma {:induction false} FragmentationBound(events: seq<Event>)
    requires PositiveSizes(events)
    ensures |TableAfter(events)| <= 2 * Maps(events) + (|events| - Maps(events))
  {
    hide WellFormed, Canonical, IdsBelow, RegisterMap, Unmap;
    if |events| > 0 {
      var before := events[..|events| - 1];
      var e := events[|events| - 1];
      FragmentationBound(before);
      HistoriesAreCanonical(before);
      if e.MapEvent? {
        MapFragmentation(TableAfter(before), NewAllocation(e, Maps(before)));
      } else {
        FragmentationStep(TableAfter(before), e.pointer, e.pointer + e.size);
      }
    }
  }

  // --- The owner, from the events alone ---------------------------------------

  predicate Touches(e: Event, p: int) {
    e.pointer <= p < e.pointer + e.size
  }

  /** Event `i` maps `p`, as allocation `a`, and no later event touches `p`. */
  ghost predicate GivenBy(events: seq<Event>, i: int, p: int, a: MMapAllocation) {
    && 0 <= i < |events| && Touches(events[i], p) && events[i].MapEvent?
    && a == MMapAllocation(Maps(events[..i]), events[i].pointer, events[i].size, events[i].stackId)
    && (forall j | i < j < |events| :: !Touches(events[j], p))
  }

  /** After any history an address is owned exactly by the mapping that touched it last, unless an
      unmapping touched it since. */
  lemma {:induction false} OwnerIsLastEvent(events: seq<Event>, p: int, a: MMapAllocation)
    requires PositiveSizes(events)
    ensures Owner(TableAfter(events), p) == Some(a) <==> exists i :: GivenBy(events, i, p, a)
  {
    hide Owner, RegisterMap, Unmap, WellFormed, Canonical;
    if |events| == 0 {
      NothingOwned(p);
    } else {
      var n := |events| - 1;
      var before, e := events[..n], events[n];
      HistoriesAreCanonical(before);
      OwnerIsLastEvent(before, p, a);
      OwnerStep(TableAfter(before), Maps(before), e, p);
      if Touches(e, p) {
        if i :| GivenBy(events, i, p, a) {
          assert i == n;
        }
        if e.MapEvent? && a == NewAllocation(e, Maps(before)) {
          assert GivenBy(events, n, p, a);
        }
      } else {
        if i :| GivenBy(before, i, p, a) {
          assert before[..i] == events[..i];
          assert GivenBy(events, i, p, a);
        }
        if i :| GivenBy(events, i, p, a) {
          assert before[..i] == events[..i];
          assert GivenBy(before, i, p, a);
        }
      }
    }
  }

  lemma NothingOwned(p: int)
    ensures Owner(map[], p) == None
  {
  }

  lemma OwnerStep(t: Table, id: nat, e: Event, p: int)
    requires WellFormed(t) && 0 < e.size
    ensures Owner(Apply(t, id, e), p) ==
      if !Touches(e, p) then Owner(t, p) else if e.MapEvent? then Some(NewAllocation(e, id)) else None
  {
    hide WellFormed, Owner, RegisterMap, Unmap;
    match e
    case MapEvent(_, _, _, _) => MapOwnsExactly(t, NewAllocation(e, id));
    case UnmapEvent(_, pointer, size) => UnmapClearsExactly(t, pointer, pointer + size);
  }
}
