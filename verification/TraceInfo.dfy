// What is known about one watched stack trace: its counters, the verdict on whether it leaks,
// and the estimates extrapolated from the watched sample, in exact rationals.
module TraceInfo {
  import Pages

  /** Configuration. A page is 2^pageBits bytes. */
  datatype Settings = Settings(
    timeForAllocationToBecomeSuspicious: nat,
    accessMaxInterval: nat,
    enoughSamplesToProveNoLeak: nat,
    globalMaxLive: nat,
    maxLivePerTrace: nat,
    pageBits: nat)

  type Environment = e: Settings | e.pageBits <= Pages.WORD32 witness Settings(30, 1, 5, 50000, 30, 12)

  const TWO32: nat := 0x1_0000_0000

  datatype Trilean = Unknown | True | False

  datatype WatchedStackTraceInfo = Info(created: int, live: int, leaked: int, leakedMemory: int, skipped: int) {

    function Finished(): int { created - live }

    function HasLeaks(env: Environment): Trilean {
      if leaked > 0 then True
      else if Finished() >= env.enoughSamplesToProveNoLeak then False
      else Unknown
    }

    predicate NeedsMore(env: Environment, liveAllTraces: int) {
      if live >= env.maxLivePerTrace then false
      else if liveAllTraces >= env.globalMaxLive then false
      else HasLeaks(env) != False
    }

    /** The sum is taken in 64 bits and returned in 32. */
    function TotalAllocations(): int { (skipped + created) % TWO32 }

    function LeakRatio(): real
      requires Finished() != 0
    {
      leaked as real / Finished() as real
    }

    function LostAllocationsEstimated(): real {
      if Finished() == 0 then 0.0 else TotalAllocations() as real * LeakRatio()
    }

    function WatchRate(): real
      requires TotalAllocations() != 0
    {
      created as real / TotalAllocations() as real
    }

    /** A total cut to zero makes the rate infinite, and nothing is estimated lost. */
    function LostBytesEstimated(): real
      requires created != 0
    {
      if TotalAllocations() == 0 then 0.0 else leakedMemory as real / WatchRate()
    }

    /** The counters of a trace in any reachable state: what is created and not live or leaked
        was freed. */
    ghost predicate Consistent() {
      0 <= live && 0 <= leaked && live + leaked <= created && 0 <= leakedMemory && 0 <= skipped && (leaked == 0 ==> leakedMemory == 0)
    }
  }

  const NEW: WatchedStackTraceInfo := Info(0, 0, 0, 0, 0)

  // --- Real arithmetic ------------------------------------------------------

  lemma DivideMonotone(a: real, b: real, d: real)
    requires 0.0 < d
    ensures a <= b <==> a / d <= b / d
    ensures a == b <==> a / d == b / d
  {
  }

  lemma ScaleMonotone(a: real, b: real, m: real)
    requires 0.0 <= m
    ensures a <= b ==> a * m <= b * m
    ensures 0.0 < m && a < b ==> a * m < b * m
  {
  }

  // --- The estimates --------------------------------------------------------

  /** The 32-bit total is the number of allocations exactly while that number fits. */
  lemma TotalIsExact(i: WatchedStackTraceInfo)
    requires i.Consistent()
    ensures i.TotalAllocations() == i.skipped + i.created <==> i.skipped + i.created < TWO32
  {
  }

  /** The total is what is left of the number of allocations in 32 bits, and the ratio and the two
      estimates are the proportions that they stand for: leaked to finished, lost to all, and bytes
      lost to bytes measured as all to watched. */
  lemma EstimatesSolve(i: WatchedStackTraceInfo)
    requires i.Consistent() && i.leaked > 0
    ensures i.TotalAllocations() == (i.skipped + i.created) % 0x1_0000_0000
    ensures i.LeakRatio() * (i.created - i.live) as real == i.leaked as real
    ensures i.LostAllocationsEstimated() * (i.created - i.live) as real == i.TotalAllocations() as real * i.leaked as real
    ensures i.LostBytesEstimated() * i.created as real == i.leakedMemory as real * i.TotalAllocations() as real
  {
    hide WatchedStackTraceInfo.TotalAllocations;
    assert i.TotalAllocations() == (i.skipped + i.created) % 0x1_0000_0000 by { TotalIs(i); }
    LostBytesForm(i);
    Solve(i.TotalAllocations() as real, i.leaked as real, i.Finished() as real);
    Cancel(i.leakedMemory as real * i.TotalAllocations() as real, i.created as real);
  }

  lemma TotalIs(i: WatchedStackTraceInfo)
    ensures i.TotalAllocations() == (i.skipped + i.created) % 0x1_0000_0000
  {
  }

  lemma Cancel(n: real, c: real)
    requires c > 0.0
    ensures n / c * c == n
  {
  }

  lemma Solve(t: real, l: real, f: real)
    requires f > 0.0
    ensures l / f * f == l && t * (l / f) * f == t * l
  {
    assert t * (l / f) * f == t * (l / f * f);
  }

  /** A trace with a recorded leak has a leak ratio, in (0, 1]; it is 1 exactly when nothing was
      freed. */
  lemma RatioRange(i: WatchedStackTraceInfo, env: Environment)
    requires i.Consistent()
    ensures i.HasLeaks(env) == True <==> i.leaked > 0
    ensures i.leaked > 0 ==> i.Finished() > 0 && 0.0 < i.LeakRatio() <= 1.0
    ensures i.leaked > 0 ==> (i.LeakRatio() == 1.0 <==> i.live + i.leaked == i.created)
  {
  }

  lemma Share(l: real, t: real, f: real, r: real)
    requires 0.0 < l <= f && 0.0 <= t && r == l / f
    ensures t * r <= t
    ensures l <= t * r <==> f <= t
  {
    assert r * f == l && f / f == 1.0;
    DivideMonotone(l, f, f);
    DivideMonotone(0.0, l, f);
    assert 0.0 / f == 0.0;
    ScaleMonotone(f, t, r);
    ScaleMonotone(t, f, r);
    ScaleMonotone(r, 1.0, t);
    assert t * r == r * t && f * r == r * f && 1.0 * t == t;
  }

  /** The allocations estimated lost are never more than all allocations, and at least the leaks
      seen exactly when the 32-bit total is no less than the finished ones; so always, while the
      total fits. */
  lemma LostAllocationsRange(i: WatchedStackTraceInfo)
    requires i.Consistent() && i.leaked > 0
    ensures i.LostAllocationsEstimated() <= (i.skipped + i.created) as real
    ensures i.leaked as real <= i.LostAllocationsEstimated() <==> i.Finished() <= i.TotalAllocations()
    ensures i.skipped + i.created < TWO32 ==> i.leaked as real <= i.LostAllocationsEstimated()
  {
    hide *;
    TotalIsExact(i);
    TotalIsBelow(i);
    LostAllocationsShare(i);
  }

  lemma LostAllocationsShare(i: WatchedStackTraceInfo)
    requires i.Consistent() && i.leaked > 0
    ensures i.LostAllocationsEstimated() <= i.TotalAllocations() as real
    ensures i.leaked as real <= i.LostAllocationsEstimated() <==> i.Finished() as real <= i.TotalAllocations() as real
  {
    hide WatchedStackTraceInfo.TotalAllocations;
    TotalIsBelow(i);
    var f := i.Finished() as real;
    Share(i.leaked as real, i.TotalAllocations() as real, f, i.LeakRatio());
  }

  lemma TotalIsBelow(i: WatchedStackTraceInfo)
    requires i.Consistent()
    ensures 0 <= i.TotalAllocations() <= i.skipped + i.created && 0 <= i.Finished() <= i.created <= i.skipped + i.created
  {
  }

  lemma LostBytesForm(i: WatchedStackTraceInfo)
    requires i.Consistent() && i.created > 0
    ensures i.LostBytesEstimated() == i.leakedMemory as real * i.TotalAllocations() as real / i.created as real
  {
  }

  lemma ScaledCompare(m: real, t: real, c: real)
    requires c > 0.0 && m > 0.0
    ensures m * t / c >= m <==> t >= c
    ensures m * t / c == m <==> t == c
  {
    var e := m * t / c;
    assert e * c == m * t;
    if t > c {
      ScaleMonotone(c, t, m);
      if e <= m { ScaleMonotone(e, m, c); assert false; }
    } else if t < c {
      ScaleMonotone(t, c, m);
      if e >= m { ScaleMonotone(m, e, c); assert false; }
    } else {
      DivideMonotone(m * t, m * c, c);
      assert m * c / c == m;
    }
  }

  /** The bytes estimated lost are at least the bytes measured exactly when nothing was measured
      or the total counts at least what was watched. */
  lemma LostBytesCompare(i: WatchedStackTraceInfo)
    requires i.Consistent() && i.created > 0
    ensures i.LostBytesEstimated() >= i.leakedMemory as real <==> i.leakedMemory == 0 || i.created <= i.TotalAllocations()
    ensures i.LostBytesEstimated() == i.leakedMemory as real <==> i.leakedMemory == 0 || i.created == i.TotalAllocations()
  {
    LostBytesForm(i);
    if i.leakedMemory > 0 {
      ScaledCompare(i.leakedMemory as real, i.TotalAllocations() as real, i.created as real);
    } else {
      ZeroScaled(i.TotalAllocations() as real, i.created as real);
    }
  }

  lemma ZeroScaled(t: real, c: real)
    requires c > 0.0
    ensures 0.0 * t / c == 0.0
  {
  }

  /** While the total fits 32 bits, so always, with equality exactly when nothing was skipped or
      nothing measured. */
  lemma LostBytesAtLeastMeasured(i: WatchedStackTraceInfo)
    requires i.Consistent() && i.created > 0 && i.skipped + i.created < TWO32
    ensures i.LostBytesEstimated() >= i.leakedMemory as real
    ensures i.LostBytesEstimated() == i.leakedMemory as real <==> i.skipped == 0 || i.leakedMemory == 0
  {
    TotalIsExact(i);
    LostBytesCompare(i);
  }

  /** With a truncated total the estimate can fall below what was measured. */
  lemma TruncatedEstimate()
    ensures var i := Info(2, 0, 1, 8, TWO32 - 1); i.Consistent() && i.TotalAllocations() == 1 && i.LostBytesEstimated() < i.leakedMemory as real
  {
    LostBytesCompare(Info(2, 0, 1, 8, TWO32 - 1));
  }

  /** For allocations of one size, bytes are estimated at no more than the size times the
      allocations estimated lost, and at exactly that when none is live, or when the total was cut
      to zero and both are zero. */
  lemma BytesAndAllocations(i: WatchedStackTraceInfo, size: nat)
    requires i.Consistent() && i.leaked > 0
    requires i.leakedMemory == size * i.leaked && 0 < size
    ensures i.LostBytesEstimated() <= size as real * i.LostAllocationsEstimated()
    ensures i.LostBytesEstimated() == size as real * i.LostAllocationsEstimated() <==> i.live == 0 || i.TotalAllocations() == 0
  {
  }
}
