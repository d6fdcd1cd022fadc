// The periodic leak report: every watched stack trace counted once under its verdict, and the
// leaking ones listed with their estimates, the most bytes first.
module LeakReport {
  import opened Basics
  import opened TraceInfo
  import opened AllocationTable
  import opened Ledger
  import opened Counters
  import opened Sorting

  datatype Leak = Leak(key: Key, leakRatio: real, lostAllocationsEstimated: real, lostBytesEstimated: real)

  datatype Totals = Totals(fingerprints: nat, stacks: nat, leaky: nat, nonLeaky: nat, maybeLeaky: nat)

  type Infos = map<Key, WatchedStackTraceInfo>

  ghost predicate AllConsistent(infos: Infos) {
    forall k | k in infos :: infos[k].Consistent()
  }

  /** The estimates of one trace. */
  function LeakFor(k: Key, i: WatchedStackTraceInfo): Leak
    requires i.Finished() != 0 && i.created != 0
  {
    Leak(k, i.LeakRatio(), i.LostAllocationsEstimated(), i.LostBytesEstimated())
  }

  lemma CanLeak(env: Environment, i: WatchedStackTraceInfo)
    requires i.Consistent()
    ensures i.HasLeaks(env) == True <==> i.leaked > 0
    ensures i.leaked > 0 ==> i.Finished() != 0 && i.created != 0
  {
  }

  /** The traces among `seen` with this verdict. */
  ghost function WithVerdict(env: Environment, infos: Infos, seen: set<Key>, verdict: Trilean): set<Key> {
    set k | k in seen && k in infos && infos[k].HasLeaks(env) == verdict
  }

  ghost function Entries(infos: Infos, leaky: set<Key>): set<Leak> {
    set k | k in leaky && k in infos && infos[k].Finished() != 0 && infos[k].created != 0 :: LeakFor(k, infos[k])
  }

  /** Every trace in `seen` is counted under its verdict, and those that leak are listed, each once. */
  ghost predicate Tallied(env: Environment, infos: Infos, seen: set<Key>, t: Totals, leaks: seq<Leak>) {
    && t.stacks == |seen|
    && t.leaky == |WithVerdict(env, infos, seen, True)|
    && t.nonLeaky == |WithVerdict(env, infos, seen, False)|
    && t.maybeLeaky == |WithVerdict(env, infos, seen, Unknown)|
    && multiset(leaks) == multiset(Entries(infos, WithVerdict(env, infos, seen, True)))
  }

  function LostBytes(leak: Leak): real {
    leak.lostBytesEstimated
  }

  lemma VerdictMore(env: Environment, infos: Infos, seen: set<Key>, k: Key, verdict: Trilean)
    requires k in infos && k !in seen
    ensures k !in WithVerdict(env, infos, seen, verdict)
    ensures infos[k].HasLeaks(env) == verdict ==>
      WithVerdict(env, infos, seen + {k}, verdict) == WithVerdict(env, infos, seen, verdict) + {k}
    ensures infos[k].HasLeaks(env) != verdict ==>
      WithVerdict(env, infos, seen + {k}, verdict) == WithVerdict(env, infos, seen, verdict)
  {
    hide WatchedStackTraceInfo.HasLeaks;
  }

  lemma EntriesMore(infos: Infos, leaky: set<Key>, k: Key)
    requires k !in leaky && k in infos && infos[k].Finished() != 0 && infos[k].created != 0
    ensures Entries(infos, leaky + {k}) == Entries(infos, leaky) + {LeakFor(k, infos[k])}
    ensures LeakFor(k, infos[k]) !in Entries(infos, leaky)
  {
  }

  lemma AddToMultiset<T>(s: set<T>, q: seq<T>, x: T)
    requires multiset(q) == multiset(s) && x !in s
    ensures multiset(q + [x]) == multiset(s + {x})
  {
  }

  function CountedUnder(env: Environment, t: Totals, i: WatchedStackTraceInfo): Totals {
    match i.HasLeaks(env)
    case True => t.(stacks := t.stacks + 1, leaky := t.leaky + 1)
    case False => t.(stacks := t.stacks + 1, nonLeaky := t.nonLeaky + 1)
    case Unknown => t.(stacks := t.stacks + 1, maybeLeaky := t.maybeLeaky + 1)
  }

  /** One more trace is visited. */
  lemma TalliedMore(env: Environment, infos: Infos, seen: set<Key>, t: Totals, leaks: seq<Leak>, k: Key)
    requires Tallied(env, infos, seen, t, leaks) && k in infos && k !in seen && infos[k].Consistent()
    ensures infos[k].HasLeaks(env) == True ==> infos[k].Finished() != 0 && infos[k].created != 0
    ensures infos[k].HasLeaks(env) == True ==>
      Tallied(env, infos, seen + {k}, CountedUnder(env, t, infos[k]), leaks + [LeakFor(k, infos[k])])
    ensures infos[k].HasLeaks(env) != True ==> Tallied(env, infos, seen + {k}, CountedUnder(env, t, infos[k]), leaks)
  {
    hide WithVerdict, Entries, LeakFor, WatchedStackTraceInfo.HasLeaks, WatchedStackTraceInfo.Finished, WatchedStackTraceInfo.Consistent;
    VerdictMore(env, infos, seen, k, True);
    VerdictMore(env, infos, seen, k, False);
    VerdictMore(env, infos, seen, k, Unknown);
    var leaky := WithVerdict(env, infos, seen, True);
    if infos[k].HasLeaks(env) == True {
      CanLeak(env, infos[k]);
      EntriesMore(infos, leaky, k);
      AddToMultiset(Entries(infos, leaky), leaks, LeakFor(k, infos[k]));
    }
  }

  lemma TalliedNone(env: Environment, infos: Infos)
    ensures Tallied(env, infos, {}, Totals(0, 0, 0, 0, 0), [])
  {
  }

  /** The three verdicts divide the traces. */
  lemma VerdictsDivide(env: Environment, infos: Infos)
    ensures |infos| == |WithVerdict(env, infos, infos.Keys, True)| + |WithVerdict(env, infos, infos.Keys, False)| +
      |WithVerdict(env, infos, infos.Keys, Unknown)|
  {
    PartitionSize(infos.Keys, WithVerdict(env, infos, infos.Keys, True), WithVerdict(env, infos, infos.Keys, False),
      WithVerdict(env, infos, infos.Keys, Unknown));
  }

  /** The traces under these fingerprints. */
  function Under(infos: Infos, fingerprints: set<nat>): set<Key> {
    set k | k in infos && k.fingerprint in fingerprints
  }

  /** Every trace is counted, under leaky when a leak of it is recorded, under non-leaky when none is
      and enough of its allocations are finished, and under maybe otherwise. */
  ghost predicate CountsEach(env: Environment, infos: Infos, t: Totals) {
    && t.stacks == |infos|
    && t.leaky == |set k | k in infos && infos[k].leaked > 0|
    && t.nonLeaky == |set k | k in infos && infos[k].leaked <= 0 && infos[k].created - infos[k].live >= env.enoughSamplesToProveNoLeak|
    && t.maybeLeaky == |set k | k in infos && infos[k].leaked <= 0 && infos[k].created - infos[k].live < env.enoughSamplesToProveNoLeak|
  }

  /** The leaking traces are listed, each once, with their own estimates, the most bytes lost first. */
  ghost predicate ListsEach(infos: Infos, leaks: seq<Leak>) {
    && (forall i, j | 0 <= i < j < |leaks| ::
      leaks[i].lostBytesEstimated >= leaks[j].lostBytesEstimated && leaks[i].key != leaks[j].key)
    && (forall k | k in infos && infos[k].leaked > 0 :: exists i :: 0 <= i < |leaks| && leaks[i].key == k)
    && (forall i | 0 <= i < |leaks| :: HasEstimates(infos, leaks[i]))
  }

  ghost predicate HasEstimates(infos: Infos, leak: Leak) {
    leak.key in infos && (
      var info := infos[leak.key];
      && info.leaked > 0 && info.Finished() != 0 && info.created != 0
      && leak.leakRatio == info.LeakRatio()
      && leak.lostAllocationsEstimated == info.LostAllocationsEstimated()
      && leak.lostBytesEstimated == info.LostBytesEstimated())
  }

  lemma CountsMean(env: Environment, infos: Infos, t: Totals, leaks: seq<Leak>)
    requires Tallied(env, infos, infos.Keys, t, leaks)
    ensures CountsEach(env, infos, t)
  {
    assert WithVerdict(env, infos, infos.Keys, True) == set k | k in infos && infos[k].leaked > 0;
    assert WithVerdict(env, infos, infos.Keys, False) ==
      set k | k in infos && infos[k].leaked <= 0 && infos[k].created - infos[k].live >= env.enoughSamplesToProveNoLeak;
    assert WithVerdict(env, infos, infos.Keys, Unknown) ==
      set k | k in infos && infos[k].leaked <= 0 && infos[k].created - infos[k].live < env.enoughSamplesToProveNoLeak;
  }

  lemma EntryMeans(env: Environment, infos: Infos, leak: Leak)
    requires AllConsistent(infos) && leak in Entries(infos, WithVerdict(env, infos, infos.Keys, True))
    ensures leak.key in infos && infos[leak.key].Finished() != 0 && infos[leak.key].created != 0
    ensures HasEstimates(infos, leak) && leak == LeakFor(leak.key, infos[leak.key])
  {
    hide WatchedStackTraceInfo.LeakRatio, WatchedStackTraceInfo.LostAllocationsEstimated,
      WatchedStackTraceInfo.LostBytesEstimated, WatchedStackTraceInfo.TotalAllocations, WatchedStackTraceInfo.HasLeaks;
    CanLeak(env, infos[leak.key]);
  }

  lemma ReportMeans(env: Environment, infos: Infos, t: Totals, leaks: seq<Leak>)
    requires AllConsistent(infos) && Tallied(env, infos, infos.Keys, t, leaks) && Descending(leaks, LostBytes)
    ensures CountsEach(env, infos, t) && ListsEach(infos, leaks)
  {
    hide CountsEach, HasEstimates, Entries, WithVerdict, LeakFor, Listed, AllConsistent;
    CountsMean(env, infos, t, leaks);
    var entries := Entries(infos, WithVerdict(env, infos, infos.Keys, True));
    forall i | 0 <= i < |leaks| ensures HasEstimates(infos, leaks[i]) {
      EntryOf(env, infos, t, leaks, leaks[i]);
      EntryMeans(env, infos, leaks[i]);
    }
    forall i, j | 0 <= i < j < |leaks| ensures leaks[i].key != leaks[j].key {
      SetHasNoRepeats(leaks, entries, i, j);
      EntryOf(env, infos, t, leaks, leaks[i]);
      EntryOf(env, infos, t, leaks, leaks[j]);
      EntryMeans(env, infos, leaks[i]);
      EntryMeans(env, infos, leaks[j]);
    }
    forall k | k in infos && infos[k].leaked > 0 ensures exists i :: 0 <= i < |leaks| && leaks[i].key == k {
      ListedIffLeaky(env, infos, t, leaks, k);
      ListedIs(leaks, k);
    }
  }

  lemma ListedIs(leaks: seq<Leak>, k: Key)
    ensures Listed(leaks, k) <==> exists i :: 0 <= i < |leaks| && leaks[i].key == k
  {
  }

  /** The report on the suspicious fingerprints and their traces, visited in any order. */
  method PatrolThreadMakeLeakReport(env: Environment, fingerprints: set<nat>, infos: Infos) returns (t: Totals, leaks: seq<Leak>)
    requires AllConsistent(infos) && forall k | k in infos :: k.fingerprint in fingerprints
    ensures Tallied(env, infos, infos.Keys, t, leaks) && Descending(leaks, LostBytes)
    ensures t.fingerprints == |fingerprints| && t.stacks == t.leaky + t.nonLeaky + t.maybeLeaky
    ensures CountsEach(env, infos, t) && ListsEach(infos, leaks)
  {
    hide Tallied, Descending, LeakFor;
    t, leaks := Totals(0, 0, 0, 0, 0), [];
    TalliedNone(env, infos);
    ghost var seen: set<Key> := {};
    var todo := fingerprints;
    while todo != {}
      invariant todo <= fingerprints && t.fingerprints + |todo| == |fingerprints|
      invariant seen == Under(infos, fingerprints - todo)
      invariant Tallied(env, infos, seen, t, leaks)
    {
      ghost var pick := Pick(todo);
      var f :| f in todo;
      UnderOneMore(infos, fingerprints, todo, f);
      t := t.(fingerprints := t.fingerprints + 1);
      SameTally(env, infos, seen, t.(fingerprints := t.fingerprints - 1), t, leaks);
      ghost var before := seen;
      t, leaks := CountTraces(env, infos, f, seen, t, leaks);
      seen := seen + Under(infos, {f});
      todo := todo - {f};
    }
    AllUnder(infos, fingerprints);
    VerdictsDivide(env, infos);
    TalliedTotals(env, infos, t, leaks);
    leaks := SortLeaks(env, infos, t, leaks);
    ReportMeans(env, infos, t, leaks);
  }

  method SortLeaks(env: Environment, infos: Infos, ghost t: Totals, leaks: seq<Leak>) returns (sorted: seq<Leak>)
    requires Tallied(env, infos, infos.Keys, t, leaks)
    ensures Tallied(env, infos, infos.Keys, t, sorted) && Descending(sorted, LostBytes)
  {
    sorted := Sort(leaks, LostBytes);
  }

  method CountTraces(env: Environment, infos: Infos, f: nat, ghost seen: set<Key>, totals: Totals, found: seq<Leak>)
    returns (t: Totals, leaks: seq<Leak>)
    requires AllConsistent(infos) && Tallied(env, infos, seen, totals, found) && seen !! Under(infos, {f})
    ensures Tallied(env, infos, seen + Under(infos, {f}), t, leaks) && t.fingerprints == totals.fingerprints
  {
    hide Tallied, LeakFor;
    t, leaks := totals, found;
    var traces := Under(infos, {f});
    var todo := traces;
    assert seen + (traces - traces) == seen;
    while todo != {}
      invariant todo <= traces && t.fingerprints == totals.fingerprints
      invariant Tallied(env, infos, seen + (traces - todo), t, leaks)
    {
      ghost var pick := Pick(todo);
      var k :| k in todo;
      TalliedMore(env, infos, seen + (traces - todo), t, leaks, k);
      var i := infos[k];
      t := CountedUnder(env, t, i);
      if i.HasLeaks(env) == True {
        leaks := leaks + [LeakFor(k, i)];
      }
      assert seen + (traces - (todo - {k})) == seen + (traces - todo) + {k};
      todo := todo - {k};
    }
    assert seen + (traces - {}) == seen + traces;
  }

  lemma UnderOneMore(infos: Infos, fingerprints: set<nat>, todo: set<nat>, f: nat)
    requires todo <= fingerprints && f in todo
    ensures Under(infos, fingerprints - (todo - {f})) == Under(infos, fingerprints - todo) + Under(infos, {f})
    ensures Under(infos, fingerprints - todo) !! Under(infos, {f})
  {
  }

  lemma SameTally(env: Environment, infos: Infos, seen: set<Key>, t: Totals, u: Totals, leaks: seq<Leak>)
    requires Tallied(env, infos, seen, t, leaks) && u == t.(fingerprints := u.fingerprints)
    ensures Tallied(env, infos, seen, u, leaks)
  {
  }

  lemma AllUnder(infos: Infos, fingerprints: set<nat>)
    requires forall k | k in infos :: k.fingerprint in fingerprints
    ensures Under(infos, fingerprints - {}) == infos.Keys && Under(infos, fingerprints - fingerprints) == {}
  {
  }

  lemma TalliedTotals(env: Environment, infos: Infos, t: Totals, leaks: seq<Leak>)
    requires Tallied(env, infos, infos.Keys, t, leaks)
    ensures t.stacks == |infos| && t.leaky == |WithVerdict(env, infos, infos.Keys, True)|
    ensures t.nonLeaky == |WithVerdict(env, infos, infos.Keys, False)|
    ensures t.maybeLeaky == |WithVerdict(env, infos, infos.Keys, Unknown)|
  {
  }

  // --- The comparator -----------------------------------------------------------

  /** The comparator of the sort is NotLess on the bytes lost, which holds of every entry and
      itself. On a report it holds both ways between two different entries, so that it is no
      order, exactly when two of them lose the same; and exactly when it does not, the report has
      only one non-increasing order. */
  lemma ComparatorOrders(env: Environment, infos: Infos, t: Totals, leaks: seq<Leak>)
    requires Tallied(env, infos, infos.Keys, t, leaks) && Descending(leaks, LostBytes)
    ensures forall leak | leak in leaks :: NotLess(LostBytes, leak, leak)
    ensures Asymmetric(leaks, LostBytes) <==> NoTies(leaks, LostBytes)
    ensures Asymmetric(leaks, LostBytes) <==> forall q | Arranges(q, leaks, LostBytes) :: q == leaks
  {
    hide Asymmetric, NoTies, Descending, Arranges, WithVerdict, Entries;
    forall i: nat, j: nat | i < j < |leaks| ensures leaks[i] != leaks[j] {
      SetHasNoRepeats(leaks, Entries(infos, WithVerdict(env, infos, infos.Keys, True)), i, j);
    }
    AsymmetricIffNoTies(leaks, LostBytes);
    OnlyArrangementIff(leaks, LostBytes);
  }

  /** Two traces with one leaked allocation of one size each, and nothing skipped. */
  lemma TiedLeaks()
    ensures var i := Info(1, 0, 1, 8, 0);
      var a, b := LeakFor(Key(0, 1), i), LeakFor(Key(0, 2), i);
      i.Consistent() && a != b && NotLess(LostBytes, a, b) && NotLess(LostBytes, b, a)
  {
  }

  // --- What a report says in a run --------------------------------------------

  /** The method can be called in every reachable state. */
  lemma ReportIsReady(env: Environment, w: World)
    requires Inv(env, w)
    ensures AllConsistent(w.s.infos) && forall k | k in w.s.infos :: k.fingerprint in w.s.fingerprints
  {
    hide WatchedStackTraceInfo.Consistent, On;
  }

  ghost predicate Listed(leaks: seq<Leak>, k: Key) {
    exists i :: 0 <= i < |leaks| && leaks[i].key == k
  }

  lemma EntryOf(env: Environment, infos: Infos, t: Totals, leaks: seq<Leak>, leak: Leak)
    requires Tallied(env, infos, infos.Keys, t, leaks)
    ensures leak in leaks <==> leak in Entries(infos, WithVerdict(env, infos, infos.Keys, True))
  {
    hide Entries, WithVerdict;
    assert leak in leaks <==> leak in multiset(leaks);
  }

  /** A trace is listed exactly when it has a recorded leak, and then with its own estimates. */
  lemma ListedIffLeaky(env: Environment, infos: Infos, t: Totals, leaks: seq<Leak>, k: Key)
    requires AllConsistent(infos) && Tallied(env, infos, infos.Keys, t, leaks)
    ensures Listed(leaks, k) <==> k in infos && infos[k].leaked > 0
    ensures k in infos && infos[k].leaked > 0 ==>
      infos[k].Finished() != 0 && infos[k].created != 0 && LeakFor(k, infos[k]) in leaks
  {
    hide WatchedStackTraceInfo.LeakRatio, WatchedStackTraceInfo.LostAllocationsEstimated, Tallied,
      WatchedStackTraceInfo.LostBytesEstimated, WatchedStackTraceInfo.TotalAllocations, WatchedStackTraceInfo.HasLeaks;
    if i :| 0 <= i < |leaks| && leaks[i].key == k {
      EntryOf(env, infos, t, leaks, leaks[i]);
      assert k in WithVerdict(env, infos, infos.Keys, True);
      CanLeak(env, infos[k]);
    }
    if k in infos && infos[k].leaked > 0 {
      CanLeak(env, infos[k]);
      assert k in WithVerdict(env, infos, infos.Keys, True);
      EntryOf(env, infos, t, leaks, LeakFor(k, infos[k]));
      ListedBy(leaks, LeakFor(k, infos[k]));
    }
  }

  lemma ListedBy(leaks: seq<Leak>, leak: Leak)
    requires leak in leaks
    ensures Listed(leaks, leak.key)
  {
  }

  /** At any point of a run a report lists a trace exactly when some allocation of the trace was
      reported as a leak before. */
  lemma ListedIffReported(env: Environment, ops: seq<Op>, t: Totals, leaks: seq<Leak>, k: Key)
    requires LegalRun(env, ops)
    requires var infos := Reached(env, ops).s.infos; Tallied(env, infos, infos.Keys, t, leaks)
    ensures Listed(leaks, k) <==> exists id :: id in ReportedOf(RecordAfter(env, ops), k)
  {
    hide Tallied, Listed, ReportedOf, Reached, RecordAfter, LegalRun, Born, FreedOf, On;
    var w := Reached(env, ops);
    RunsKeepInv(env, ops);
    ReportIsReady(env, w);
    ListedIffLeaky(env, w.s.infos, t, leaks, k);
    CountersCount(env, ops, k);
    var reported := ReportedOf(RecordAfter(env, ops), k);
    if reported != {} {
      var id := Pick(reported);
    }
  }
}
