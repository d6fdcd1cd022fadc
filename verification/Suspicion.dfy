// The life of each light allocation over a run, and what makes a fingerprint suspicious.
module Suspicion {
  import opened TraceInfo
  import opened AllocationTable
  import opened Ledger
  import opened Fates

  /** A light allocation: when it was made, with which fingerprint, after how many passes. */
  datatype LightBirth = LightBirth(time: nat, fingerprint: nat, pass: nat)

  /** The light allocations, numbered by birth. `gone` are those that left the table other than by
      expiring: freed, or lost when a realloc failed and a record was under NULL already. `failed`
      are those of which a realloc failed while they were tracked. */
  datatype LightRecord = LightRecord(
    births: seq<LightBirth>,
    at: map<int, nat>,
    sizes: map<nat, nat>,
    gone: set<nat>,
    failed: set<nat>,
    expired: set<nat>,
    passes: seq<nat>)

  const NO_LIGHTS: LightRecord := LightRecord([], map[], map[], {}, {}, {}, [])

  ghost function ExpiredAt(s: State, now: nat): set<int> {
    Expired(s, now, s.light.Keys)
  }

  ghost function NoteLight(s: State, h: LightRecord, op: Op): LightRecord {
    match op
    case Allocate(size, fingerprint, _, memory, now) =>
      if fingerprint !in s.fingerprints && memory != NULL
      then h.(births := h.births + [LightBirth(now, fingerprint, |h.passes|)],
              at := h.at[memory := |h.births|],
              sizes := h.sizes[|h.births| := U32(size)])
      else h
    case Reallocate(oldMemory, newSize, memory) =>
      if oldMemory !in s.light || oldMemory !in h.at then h
      else if memory != oldMemory && memory in s.light then h.(
        gone := h.gone + {h.at[oldMemory]},
        failed := if memory == NULL then h.failed + {h.at[oldMemory]} else h.failed,
        at := h.at - {oldMemory})
      else h.(
        failed := if memory == NULL then h.failed + {h.at[oldMemory]} else h.failed,
        sizes := h.sizes[h.at[oldMemory] := U32(newSize)],
        at := if memory != oldMemory then h.at[memory := h.at[oldMemory]] - {oldMemory} else h.at)
    case Free(memory) =>
      if memory != NULL && memory in s.light && memory in h.at
      then h.(gone := h.gone + {h.at[memory]}, at := h.at - {memory})
      else h
    case OutsideAllocate(_) => h
    case OutsideFree(_) => h
    case Patrol(now) =>
      h.(expired := h.expired + Numbers(h.at, ExpiredAt(s, now)), at := h.at - ExpiredAt(s, now), passes := h.passes + [now])
  }

  /** No pass since its birth came later than its suspicion time. */
  ghost predicate Unnoticed(env: Environment, b: LightBirth, passes: seq<nat>) {
    forall m | b.pass <= m < |passes| :: passes[m] <= b.time + env.timeForAllocationToBecomeSuspicious
  }

  ghost predicate LightRight(env: Environment, s: State, h: LightRecord, a: int)
    requires a in s.light && a in h.at
  {
    var id, r := h.at[a], s.light[a];
    && id < |h.births| && id !in h.gone && id !in h.expired
    && id in h.sizes && h.sizes[id] == r.requestedSize
    && h.births[id].fingerprint == r.fingerprint
    && h.births[id].time + env.timeForAllocationToBecomeSuspicious == r.deadline
    && h.births[id].pass <= |h.passes| && Unnoticed(env, h.births[id], h.passes)
  }

  ghost predicate ExpiredRight(env: Environment, h: LightRecord, id: nat) {
    id < |h.births| && id !in h.gone && !Unnoticed(env, h.births[id], h.passes)
  }

  /** Some light allocation with the fingerprint has expired. */
  ghost predicate Caught(h: LightRecord, fingerprint: nat) {
    exists id :: id in h.expired && id < |h.births| && h.births[id].fingerprint == fingerprint
  }

  ghost predicate AllLights(h: LightRecord) {
    forall id: nat | id < |h.births| :: id in h.gone || id in h.expired || Present(h.at, id)
  }

  ghost predicate LightsFaithful(env: Environment, s: State, h: LightRecord) {
    && h.at.Keys == s.light.Keys
    && OneToOne(h.at)
    && (forall a | a in h.at :: LightRight(env, s, h, a))
    && (forall id | id in h.expired :: ExpiredRight(env, h, id))
    && (forall id | id in h.gone :: id < |h.births|)
    && AllLights(h)
    && (forall f :: f in s.fingerprints <==> Caught(h, f))
  }

  lemma NoLightsFaithful(env: Environment)
    ensures LightsFaithful(env, EMPTY, NO_LIGHTS)
  {
  }

  // --- Every operation keeps the history faithful -----------------------------

  lemma LightCarries(env: Environment, s: State, h: LightRecord, a: int, t: State, g: LightRecord, b: int)
    requires a in s.light && a in h.at && LightRight(env, s, h, a)
    requires b in t.light && b in g.at && g.at[b] == h.at[a]
    requires t.light[b].fingerprint == s.light[a].fingerprint && t.light[b].deadline == s.light[a].deadline
    requires h.births <= g.births && g.passes == h.passes && g.expired == h.expired && g.at[b] !in g.gone
    requires g.at[b] in g.sizes && g.sizes[g.at[b]] == t.light[b].requestedSize
    ensures LightRight(env, t, g, b)
  {
    hide Unnoticed;
  }

  lemma ExpiredCarries(env: Environment, h: LightRecord, g: LightRecord, id: nat)
    requires ExpiredRight(env, h, id) && h.births <= g.births && g.passes == h.passes && id !in g.gone
    ensures ExpiredRight(env, g, id)
  {
    hide Unnoticed;
  }

  lemma CaughtCarries(env: Environment, h: LightRecord, g: LightRecord, f: nat)
    requires h.births <= g.births && g.expired == h.expired && forall id | id in h.expired :: ExpiredRight(env, h, id)
    ensures Caught(g, f) <==> Caught(h, f)
  {
    hide Unnoticed;
  }

  lemma LightsApart(env: Environment, s: State, h: LightRecord)
    requires LightsFaithful(env, s, h)
    ensures forall a | a in h.at :: a in s.light && h.at[a] < |h.births| && h.at[a] !in h.gone && h.at[a] !in h.expired
    ensures forall a | a in h.at :: a in s.light && h.at[a] in h.sizes && h.sizes[h.at[a]] == s.light[a].requestedSize
    ensures forall id | id in h.expired :: id < |h.births| && id !in h.gone
  {
  }

  lemma LightsStay(h: LightRecord, g: LightRecord)
    requires AllLights(h) && g.births == h.births && h.gone <= g.gone && h.expired <= g.expired
    requires forall a | a in h.at :: h.at[a] in g.gone || h.at[a] in g.expired || Present(g.at, h.at[a])
    ensures AllLights(g)
  {
  }

  /** An operation that leaves the light table and the fingerprints alone. */
  lemma SameLights(env: Environment, s: State, t: State, h: LightRecord)
    requires LightsFaithful(env, s, h) && t.light == s.light && t.fingerprints == s.fingerprints
    ensures LightsFaithful(env, t, h)
  {
  }

  lemma LightAllocate(env: Environment, w: World, h: LightRecord, op: Op)
    requires LightsFaithful(env, w.s, h) && op.Allocate? && (op.memory == NULL || op.memory !in w.s.light)
    ensures LightsFaithful(env, StateAfter(env, w.s, op), NoteLight(w.s, h, op))
  {
    hide LightRight, ExpiredRight, AllLights, Caught, U32, WatchedStackTraceInfo.NeedsMore;
    LightsApart(env, w.s, h);
    var t, g := StateAfter(env, w.s, op), NoteLight(w.s, h, op);
    if op.fingerprint !in w.s.fingerprints && op.memory != NULL {
      NewLight(env, w.s, h, op);
      forall a | a in h.at ensures LightRight(env, t, g, a) {
        LightCarries(env, w.s, h, a, t, g, a);
      }
      forall id | id in g.expired ensures ExpiredRight(env, g, id) {
        ExpiredCarries(env, h, g, id);
      }
      forall f ensures f in t.fingerprints <==> Caught(g, f) {
        CaughtCarries(env, h, g, f);
      }
      LightBorn(h, g, op.memory);
    } else {
      SameLights(env, w.s, t, h);
    }
  }

  lemma NewLight(env: Environment, s: State, h: LightRecord, op: Op)
    requires LightsFaithful(env, s, h) && op.Allocate? && op.fingerprint !in s.fingerprints && op.memory != NULL
    ensures var t, g := StateAfter(env, s, op), NoteLight(s, h, op);
      op.memory in t.light && op.memory in g.at && LightRight(env, t, g, op.memory)
  {
  }

  lemma LightBorn(h: LightRecord, g: LightRecord, memory: int)
    requires AllLights(h) && memory !in h.at && |g.births| == |h.births| + 1
    requires g.gone == h.gone && g.expired == h.expired && g.at == h.at[memory := |h.births|]
    ensures AllLights(g)
  {
    forall id: nat | id < |g.births| ensures id in g.gone || id in g.expired || Present(g.at, id) {
      if id == |h.births| {
        assert g.at[memory] == id;
      } else if a :| a in h.at && h.at[a] == id {
        assert g.at[a] == id;
      }
    }
  }

  lemma LightReallocate(env: Environment, w: World, h: LightRecord, op: Op)
    requires LightsFaithful(env, w.s, h) && op.Reallocate?
    ensures LightsFaithful(env, StateAfter(env, w.s, op), NoteLight(w.s, h, op))
  {
    hide LightsFaithful, NoteLight, StateAfter;
    if op.oldMemory !in w.s.light {
      UntrackedReallocate(env, w, h, op);
    } else if op.memory != op.oldMemory && op.memory in w.s.light {
      LightLost(env, w, h, op);
    } else {
      LightMoves(env, w, h, op);
    }
  }

  lemma UntrackedReallocate(env: Environment, w: World, h: LightRecord, op: Op)
    requires LightsFaithful(env, w.s, h) && op.Reallocate? && op.oldMemory !in w.s.light
    ensures LightsFaithful(env, StateAfter(env, w.s, op), NoteLight(w.s, h, op))
  {
    hide LightsFaithful, ActualSize, U32;
    SameLights(env, w.s, StateAfter(env, w.s, op), h);
  }

  /** The record takes the new address and size. */
  lemma LightMoves(env: Environment, w: World, h: LightRecord, op: Op)
    requires LightsFaithful(env, w.s, h) && op.Reallocate? && op.oldMemory in w.s.light
    requires op.memory == op.oldMemory || op.memory !in w.s.light
    ensures LightsFaithful(env, StateAfter(env, w.s, op), NoteLight(w.s, h, op))
  {
    hide LightRight, ExpiredRight, AllLights, Caught, U32, ActualSize;
    LightsApart(env, w.s, h);
    var t, g := StateAfter(env, w.s, op), NoteLight(w.s, h, op);
    forall b | b in g.at ensures LightRight(env, t, g, b) {
      LightCarries(env, w.s, h, if b == op.memory then op.oldMemory else b, t, g, b);
    }
    forall id | id in g.expired ensures ExpiredRight(env, g, id) {
      ExpiredCarries(env, h, g, id);
    }
    forall f ensures f in t.fingerprints <==> Caught(g, f) {
      CaughtCarries(env, h, g, f);
    }
    forall a | a in h.at ensures Present(g.at, h.at[a]) {
      assert g.at[if a == op.oldMemory then op.memory else a] == h.at[a];
    }
    LightsStay(h, g);
  }

  /** Another record is under the new address: this one is erased. */
  lemma LightLost(env: Environment, w: World, h: LightRecord, op: Op)
    requires LightsFaithful(env, w.s, h) && op.Reallocate? && op.oldMemory in w.s.light
    requires op.memory != op.oldMemory && op.memory in w.s.light
    ensures LightsFaithful(env, StateAfter(env, w.s, op), NoteLight(w.s, h, op))
  {
    hide LightRight, ExpiredRight, AllLights, Caught, U32, ActualSize;
    LightsApart(env, w.s, h);
    LightRemoved(env, w.s, h, op.oldMemory, StateAfter(env, w.s, op), NoteLight(w.s, h, op));
  }

  /** A record leaves the table without having expired. */
  lemma LightRemoved(env: Environment, s: State, h: LightRecord, a: int, t: State, g: LightRecord)
    requires LightsFaithful(env, s, h) && a in s.light
    requires t.light == s.light - {a} && t.fingerprints == s.fingerprints
    requires g == h.(gone := h.gone + {h.at[a]}, failed := g.failed, at := h.at - {a})
    ensures LightsFaithful(env, t, g)
  {
    hide LightRight, ExpiredRight, AllLights, Caught;
    LightsApart(env, s, h);
    forall b | b in g.at ensures LightRight(env, t, g, b) {
      LightCarries(env, s, h, b, t, g, b);
    }
    forall id | id in g.expired ensures ExpiredRight(env, g, id) {
      ExpiredCarries(env, h, g, id);
    }
    forall f ensures f in t.fingerprints <==> Caught(g, f) {
      CaughtCarries(env, h, g, f);
    }
    forall b | b in h.at ensures h.at[b] in g.gone || Present(g.at, h.at[b]) {
      if b != a {
        assert g.at[b] == h.at[b];
      }
    }
    LightsStay(h, g);
  }

  lemma LightFree(env: Environment, w: World, h: LightRecord, op: Op)
    requires LightsFaithful(env, w.s, h) && op.Free?
    ensures LightsFaithful(env, StateAfter(env, w.s, op), NoteLight(w.s, h, op))
  {
    hide LightRight, ExpiredRight, AllLights, Caught;
    var t, g := StateAfter(env, w.s, op), NoteLight(w.s, h, op);
    if op.memory != NULL && op.memory in w.s.light {
      LightRemoved(env, w.s, h, op.memory, t, g);
    } else {
      SameLights(env, w.s, t, h);
    }
  }

  // --- A patrol pass ----------------------------------------------------------

  lemma LightSurvives(env: Environment, s: State, h: LightRecord, now: nat, a: int)
    requires LightsFaithful(env, s, h) && a in s.light && s.light[a].deadline >= now
    ensures var t, g := Patrolled(env, s, now), NoteLight(s, h, Patrol(now));
      a in t.light && a in g.at && g.at[a] == h.at[a] && LightRight(env, t, g, a)
  {
    hide AllLights, Caught, ExpiredRight, Patrolled;
    PatrolLight(env, s, now);
    assert LightRight(env, s, h, a);
    NotAmong(h.at, ExpiredAt(s, now), a);
  }

  lemma NotAmong(at: map<int, nat>, leaving: set<int>, a: int)
    requires OneToOne(at) && a in at && a !in leaving
    ensures at[a] !in Numbers(at, leaving)
  {
  }

  lemma LightIsCaught(env: Environment, s: State, h: LightRecord, now: nat, a: int)
    requires LightsFaithful(env, s, h) && a in s.light && s.light[a].deadline < now
    ensures var g := NoteLight(s, h, Patrol(now));
      h.at[a] in g.expired && ExpiredRight(env, g, h.at[a]) && h.births[h.at[a]].fingerprint == s.light[a].fingerprint
  {
    hide AllLights, Caught;
    assert LightRight(env, s, h, a);
    var g := NoteLight(s, h, Patrol(now));
    assert a in ExpiredAt(s, now);
    assert g.passes[|h.passes|] == now;
  }

  lemma StillCaught(env: Environment, h: LightRecord, now: nat, g: LightRecord, id: nat)
    requires ExpiredRight(env, h, id) && g.births == h.births && g.gone == h.gone && g.passes == h.passes + [now]
    ensures ExpiredRight(env, g, id)
  {
    var m :| h.births[id].pass <= m < |h.passes| && h.passes[m] > h.births[id].time + env.timeForAllocationToBecomeSuspicious;
    assert g.passes[m] == h.passes[m];
  }

  lemma LightPatrol(env: Environment, s: State, h: LightRecord, now: nat)
    requires LightsFaithful(env, s, h)
    ensures LightsFaithful(env, Patrolled(env, s, now), NoteLight(s, h, Patrol(now)))
  {
    hide LightRight, ExpiredRight, AllLights, Caught, Patrolled;
    var t, g := Patrolled(env, s, now), NoteLight(s, h, Patrol(now));
    var leaving := ExpiredAt(s, now);
    PatrolLight(env, s, now);
    LightsApart(env, s, h);
    var l, r := g.at.Keys, t.light.Keys;
    assert forall a | a in l :: a in r;
    assert forall a | a in r :: a in l;
    assert l == r;
    forall a | a in g.at ensures LightRight(env, t, g, a) {
      LightSurvives(env, s, h, now, a);
    }
    forall id | id in g.expired ensures ExpiredRight(env, g, id) {
      if id in Numbers(h.at, leaving) {
        var a :| a in leaving && a in h.at && h.at[a] == id;
        LightIsCaught(env, s, h, now, a);
      } else {
        StillCaught(env, h, now, g, id);
      }
    }
    forall a | a in h.at ensures h.at[a] in g.expired || Present(g.at, h.at[a]) {
      if a in leaving {
        LightIsCaught(env, s, h, now, a);
      } else {
        assert g.at[a] == h.at[a];
      }
    }
    LightsStay(h, g);
    forall f ensures f in t.fingerprints <==> Caught(g, f) {
      CaughtAfter(env, s, h, now, f);
    }
  }

  lemma CaughtAfter(env: Environment, s: State, h: LightRecord, now: nat, f: nat)
    requires LightsFaithful(env, s, h)
    ensures f in Patrolled(env, s, now).fingerprints <==> Caught(NoteLight(s, h, Patrol(now)), f)
  {
  }

  // --- Runs -------------------------------------------------------------------

  ghost function LightsAfter(env: Environment, ops: seq<Op>): LightRecord {
    if |ops| == 0 then NO_LIGHTS
    else
      var before := ops[..|ops| - 1];
      NoteLight(Reached(env, before).s, LightsAfter(env, before), ops[|ops| - 1])
  }

  lemma StepLights(env: Environment, w: World, h: LightRecord, op: Op)
    requires Inv(env, w) && Legal(env, w, op) && LightsFaithful(env, w.s, h)
    ensures LightsFaithful(env, StateAfter(env, w.s, op), NoteLight(w.s, h, op))
  {
    hide LightsFaithful, Balanced, Linked, Allocated, Reallocated, Freed, Patrolled, Fresh;
    match op
    case Allocate(_, _, _, memory, _) =>
      NotTaken(w, memory);
      LightAllocate(env, w, h, op);
    case Reallocate(_, _, _) => LightReallocate(env, w, h, op);
    case Free(_) => LightFree(env, w, h, op);
    case OutsideAllocate(_) =>
    case OutsideFree(_) =>
    case Patrol(now) => LightPatrol(env, w.s, h, now);
  }

  lemma NotTaken(w: World, memory: int)
    requires Disjoint(w) && (memory == NULL || Fresh(w.heap, memory))
    ensures memory == NULL || memory !in w.s.light
  {
  }

  lemma {:induction false} RunsOfLights(env: Environment, ops: seq<Op>)
    requires LegalRun(env, ops)
    ensures LightsFaithful(env, Reached(env, ops).s, LightsAfter(env, ops))
  {
    hide Inv, Legal, LightsFaithful, NoteLight, StateAfter, HeapAfter;
    if |ops| == 0 {
      NoLightsFaithful(env);
    } else {
      var before := ops[..|ops| - 1];
      assert forall i | 0 <= i < |before| :: before[..i] == ops[..i];
      RunsOfLights(env, before);
      RunsKeepInv(env, before);
      StepLights(env, Reached(env, before), LightsAfter(env, before), ops[|ops| - 1]);
    }
  }

  /** An allocation that makes its fingerprint suspicious: one that was neither freed nor lost as a
      light allocation, and met a pass later than its birth and suspicion time together. */
  ghost predicate Survivor(env: Environment, h: LightRecord, id: nat, fingerprint: nat) {
    id < |h.births| && h.births[id].fingerprint == fingerprint && id !in h.gone && !Unnoticed(env, h.births[id], h.passes)
  }

  /** Over any run a fingerprint is suspicious exactly when some light allocation with that
      fingerprint outlived its suspicion time. Only under such fingerprints is anything watched. */
  lemma FingerprintsAreEarned(env: Environment, ops: seq<Op>, fingerprint: nat)
    requires LegalRun(env, ops)
    ensures var s, h := Reached(env, ops).s, LightsAfter(env, ops);
      && (fingerprint in s.fingerprints <==> exists id: nat :: Survivor(env, h, id, fingerprint))
      && (forall a | a in s.watched && s.watched[a].info.fingerprint == fingerprint :: fingerprint in s.fingerprints)
  {
    hide Reached, LightsAfter, LegalRun, Disjoint, On;
    var w, h := Reached(env, ops), LightsAfter(env, ops);
    RunsKeepInv(env, ops);
    RunsOfLights(env, ops);
    EarnedIff(env, w.s, h, fingerprint);
    forall a | a in w.s.watched && w.s.watched[a].info.fingerprint == fingerprint ensures fingerprint in w.s.fingerprints {
      assert w.s.watched[a].info in w.s.infos;
    }
  }

  lemma EarnedIff(env: Environment, s: State, h: LightRecord, f: nat)
    requires LightsFaithful(env, s, h)
    ensures f in s.fingerprints <==> exists id: nat :: Survivor(env, h, id, f)
  {
    hide Unnoticed;
    if Caught(h, f) {
      var id :| id in h.expired && id < |h.births| && h.births[id].fingerprint == f;
      assert ExpiredRight(env, h, id);
      assert Survivor(env, h, id, f);
    }
    if id: nat :| Survivor(env, h, id, f) {
      SurvivorExpired(env, s, h, id, f);
      assert Caught(h, f);
    }
  }

  lemma SurvivorExpired(env: Environment, s: State, h: LightRecord, id: nat, f: nat)
    requires LightsFaithful(env, s, h) && Survivor(env, h, id, f)
    ensures id in h.expired
  {
  }


  // --- Records under NULL -------------------------------------------------------

  /** An allocation with a failed realloc is under NULL until it expires, unless it was lost; and
      nothing else is under NULL. */
  ghost predicate NullRight(h: LightRecord) {
    && (forall id | id in h.failed :: id < |h.births| && (id in h.gone || id in h.expired || (NULL in h.at && h.at[NULL] == id)))
    && (NULL in h.at ==> h.at[NULL] in h.failed)
  }

  lemma NullNow(env: Environment, s: State, h: LightRecord)
    requires LightsFaithful(env, s, h) && NullRight(h)
    ensures NULL in s.light <==> exists id: nat :: FiledUnderNull(env, h, id)
  {
    hide Unnoticed, AllLights, Caught;
    if NULL in s.light {
      assert LightRight(env, s, h, NULL);
      assert FiledUnderNull(env, h, h.at[NULL]);
    }
    if id: nat :| FiledUnderNull(env, h, id) {
      if id in h.expired {
        assert ExpiredRight(env, h, id);
      }
    }
  }

  /** A realloc of the allocation failed while it was tracked, it was not lost, and no pass has come
      later than its birth and suspicion time together. */
  ghost predicate FiledUnderNull(env: Environment, h: LightRecord, id: nat) {
    id < |h.births| && id in h.failed && id !in h.gone && Unnoticed(env, h.births[id], h.passes)
  }

  lemma StepNull(env: Environment, w: World, h: LightRecord, op: Op)
    requires Inv(env, w) && Legal(env, w, op) && LightsFaithful(env, w.s, h) && NullRight(h)
    ensures NullRight(NoteLight(w.s, h, op))
  {
    hide Balanced, Linked, LightRight, ExpiredRight, AllLights, Caught, U32, ActualSize;
    LightsApart(env, w.s, h);
    var g := NoteLight(w.s, h, op);
    if op.Patrol? {
      forall id | id in g.failed ensures id in g.gone || id in g.expired || (NULL in g.at && g.at[NULL] == id) {
        if NULL in h.at && h.at[NULL] == id && NULL in ExpiredAt(w.s, op.now) {
          assert h.at[NULL] in Numbers(h.at, ExpiredAt(w.s, op.now));
        }
      }
    }
  }

  lemma {:induction false} RunsOfNull(env: Environment, ops: seq<Op>)
    requires LegalRun(env, ops)
    ensures NullRight(LightsAfter(env, ops))
  {
    hide Inv, Legal, LightsFaithful, NoteLight, NullRight;
    if |ops| == 0 {
      assert NullRight(NO_LIGHTS) by { NothingFailed(); }
    } else {
      var before := ops[..|ops| - 1];
      assert forall i | 0 <= i < |before| :: before[..i] == ops[..i];
      RunsOfNull(env, before);
      RunsOfLights(env, before);
      RunsKeepInv(env, before);
      StepNull(env, Reached(env, before), LightsAfter(env, before), ops[|ops| - 1]);
    }
  }

  lemma NothingFailed()
    ensures NullRight(NO_LIGHTS)
  {
  }

  /** Over any run the light table stays within the heap exactly while there is no such allocation:
      a failed realloc takes it out, and it is back when the record has expired. */
  lemma WithinHeapIff(env: Environment, ops: seq<Op>)
    requires LegalRun(env, ops)
    ensures var w, h := Reached(env, ops), LightsAfter(env, ops);
      && (NULL in w.s.light <==> exists id: nat :: FiledUnderNull(env, h, id))
      && (w.s.light.Keys <= w.heap <==> !exists id: nat :: FiledUnderNull(env, h, id))
  {
    hide Reached, LightsAfter, LegalRun, LightsFaithful, NullRight, FiledUnderNull, Balanced, Linked;
    RunsKeepInv(env, ops);
    RunsOfLights(env, ops);
    RunsOfNull(env, ops);
    NullNow(env, Reached(env, ops).s, LightsAfter(env, ops));
    WithinHeap(Reached(env, ops));
  }

  lemma WithinHeap(w: World)
    requires Disjoint(w)
    ensures w.s.light.Keys <= w.heap <==> NULL !in w.s.light
  {
  }
}
