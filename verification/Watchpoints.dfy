// The watchpoint protocol: page protections, the table of watched ranges, and the fault handler,
// as interleaved steps of threads under the mutex that the comments describe. Addresses are page
// numbers, since watched ranges are whole pages.
module Watchpoints {
  import opened Basics

  datatype Range = Range(start: int, end: int, id: nat)

  predicate In(r: Range, page: int) {
    r.start <= page < r.end
  }

  /** Where a thread is. From `Watching`, `Removing` and `Handling` on it holds the mutex. */
  datatype Pc =
    | Idle
    | WantWatch(start: int, end: int) | Watching(start: int, end: int) | Inserted(range: Range)
    | WantRemove(page: int) | Removing(page: int) | Opened(range: Range)
    | WantHandle(page: int) | Handling(page: int) | Admitted(range: Range) | Called(range: Range) | Reread(page: int)
    | Leaving

  /** The thread-local state of the handler goes with the thread. */
  datatype Thread = Thread(pc: Pc, inside: bool, parent: int)

  datatype Crash = Alive | BadPointer(page: int) | InternalFault | Overlap

  datatype State = State(
    threads: seq<Thread>,
    holder: Option<nat>,
    table: set<Range>,
    noAccess: set<int>,
    next: nat,            // watches placed so far; each gets its number
    fired: seq<nat>,      // watches whose onAccess was called, in order
    removed: set<nat>,
    crash: Crash)

  datatype Action = Watch(start: int, end: int) | Remove(page: int) | Touch(page: int) | Go

  ghost predicate Watched(table: set<Range>, page: int) {
    exists r :: r in table && In(r, page)
  }

  ghost predicate Overlaps(table: set<Range>, start: int, end: int) {
    exists r :: r in table && r.start < end && start < r.end
  }

  ghost function Find(table: set<Range>, page: int): (r: Range)
    requires Watched(table, page)
    ensures r in table && In(r, page)
  {
    var r :| r in table && In(r, page);
    r
  }

  function Move(s: State, t: nat, pc: Pc): State
    requires t < |s.threads|
  {
    s.(threads := s.threads[t := s.threads[t].(pc := pc)])
  }

  /** The memory that the application may use when nothing is watched. */
  predicate Accessible(memory: iset<int>, s: State, page: int) {
    page in memory && page !in s.noAccess
  }

  /** The next step of a thread that is in one of the operations; None when it has to wait. */
  ghost function GoOn(memory: iset<int>, s: State, t: nat): Option<State>
    requires t < |s.threads|
  {
    var thread := s.threads[t];
    match thread.pc
    case Idle => None
    case WantWatch(start, end) => if s.holder.None? then Some(Move(s, t, Watching(start, end)).(holder := Some(t))) else None
    case Watching(start, end) =>
      if Overlaps(s.table, start, end) then Some(s.(crash := Overlap))
      else
        var r := Range(start, end, s.next);
        Some(Move(s, t, Inserted(r)).(table := s.table + {r}, next := s.next + 1))
    case Inserted(r) => Some(Move(s, t, Leaving).(noAccess := s.noAccess + Interval(r.start, r.end)))
    case WantRemove(page) => if s.holder.None? then Some(Move(s, t, Removing(page)).(holder := Some(t))) else None
    case Removing(page) =>
      if Watched(s.table, page) then
        var r := Find(s.table, page);
        Some(Move(s, t, Opened(r)).(noAccess := s.noAccess - Interval(r.start, r.end)))
      else Some(Move(s, t, Leaving))
    case Opened(r) => Some(Move(s, t, Leaving).(table := s.table - {r}, removed := s.removed + {r.id}))
    case WantHandle(page) => if s.holder.None? then Some(Move(s, t, Handling(page)).(holder := Some(t))) else None
    case Handling(page) =>
      if Watched(s.table, page) then
        var r := Find(s.table, page);
        Some(Move(s, t, Admitted(r)).(noAccess := s.noAccess - Interval(r.start, r.end)))
      else Some(Move(s, t, Reread(page)))
    case Admitted(r) => Some(Move(s, t, Called(r)).(fired := s.fired + [r.id]))
    case Called(r) => Some(Left(s, t).(table := s.table - {r}))
    case Reread(page) =>
      if Accessible(memory, s, page) then Some(Left(s, t))
      else Some(s.(crash := if thread.inside && page == thread.parent then BadPointer(page) else InternalFault))
    case Leaving => Some(Move(s, t, Idle).(holder := None))
  }

  /** The handler clears its flag before the lock goes. */
  function Left(s: State, t: nat): State
    requires t < |s.threads|
  {
    s.(threads := s.threads[t := s.threads[t].(pc := Leaving, inside := false)])
  }

  /** A thread outside starts an operation or touches a page; a thread inside goes on. A touch
      that faults enters the handler, which crashes the process when it was entered already. */
  ghost function Take(memory: iset<int>, s: State, t: nat, a: Action): Option<State>
    requires t < |s.threads|
  {
    if s.crash != Alive then None
    else if a.Go? then GoOn(memory, s, t)
    else if s.threads[t].pc != Idle then None
    else
      match a
      case Watch(start, end) =>
        if start < end then Some(Move(s, t, WantWatch(start, end))) else None
      case Remove(page) => Some(Move(s, t, WantRemove(page)))
      case Touch(page) =>
        if Accessible(memory, s, page) then Some(s)
        else if s.threads[t].inside then Some(s.(crash := InternalFault))
        else Some(s.(threads := s.threads[t := Thread(WantHandle(page), true, page)]))
  }

  // --- The invariant --------------------------------------------------------

  predicate Holds(pc: Pc) {
    !(pc.Idle? || pc.WantWatch? || pc.WantRemove? || pc.WantHandle?)
  }

  /** The range that is in the table and not protected: one whose holder is between the two. */
  function Lifted(pc: Pc): Option<Range> {
    match pc
    case Inserted(r) => Some(r)
    case Opened(r) => Some(r)
    case Admitted(r) => Some(r)
    case Called(r) => Some(r)
    case _ => None
  }

  function LiftedNow(s: State): Option<Range> {
    if s.holder.Some? && s.holder.value < |s.threads| then Lifted(s.threads[s.holder.value].pc) else None
  }

  ghost predicate Exact(s: State) {
    forall p: int :: p in s.noAccess <==> Watched(s.table, p) && !(LiftedNow(s).Some? && In(LiftedNow(s).value, p))
  }

  ghost predicate Apart(table: set<Range>) {
    && (forall r | r in table :: r.start < r.end)
    && (forall r, q, p | r in table && q in table && In(r, p) && In(q, p) :: r == q)
  }

  /** A watch in the table has not fired, unless its handler is just about to take it out. */
  ghost predicate Numbered(s: State) {
    && (forall r | r in s.table :: r.id < s.next && r.id !in s.removed)
    && (forall r, q | r in s.table && q in s.table && r.id == q.id :: r == q)
    && (forall i | 0 <= i < |s.fired| :: s.fired[i] < s.next && s.fired[i] !in s.removed)
    && (forall i, j | 0 <= i < j < |s.fired| :: s.fired[i] != s.fired[j])
    && (forall r | r in s.table && r.id in s.fired :: CalledNow(s) == Some(r))
    && (forall id | id in s.removed :: id < s.next)
    && (forall id: nat | id < s.next :: Placed(s.table, id) || id in s.fired || id in s.removed)
  }

  ghost predicate Placed(table: set<Range>, id: nat) {
    exists r :: r in table && r.id == id
  }

  function CalledNow(s: State): Option<Range> {
    if s.holder.Some? && s.holder.value < |s.threads| && s.threads[s.holder.value].pc.Called?
    then Some(s.threads[s.holder.value].pc.range) else None
  }

  ghost predicate ThreadInv(s: State, t: nat)
    requires t < |s.threads|
  {
    var thread := s.threads[t];
    && (Holds(thread.pc) <==> s.holder == Some(t))
    && (Lifted(thread.pc).Some? ==> Lifted(thread.pc).value in s.table)
    && (thread.pc.Called? ==> thread.pc.range.id in s.fired)
    && (thread.pc.Reread? ==> !Watched(s.table, thread.pc.page))
    && (thread.inside <==> thread.pc.WantHandle? || thread.pc.Handling? || thread.pc.Admitted? || thread.pc.Called? || thread.pc.Reread?)
    && (thread.pc.WantHandle? || thread.pc.Handling? || thread.pc.Reread? ==> thread.parent == thread.pc.page)
    && (thread.pc.WantWatch? || thread.pc.Watching? ==> thread.pc.start < thread.pc.end)
  }

  /** An aborted process died of a pointer that is no memory, or of a watch on watched pages. */
  ghost predicate Inv(memory: iset<int>, s: State) {
    && (s.holder.Some? ==> s.holder.value < |s.threads|)
    && (forall t: nat | t < |s.threads| :: ThreadInv(s, t))
    && Exact(s) && Apart(s.table) && Numbered(s)
    && (s.crash.BadPointer? ==> s.crash.page !in memory)
    && !s.crash.InternalFault?
  }

  // --- Every step keeps it ----------------------------------------------------

  /** Threads that do not hold the mutex rely on nothing that its holder changes. */
  lemma OthersStay(s: State, n: State, t: nat, u: nat)
    requires t < |s.threads| == |n.threads| && u < |s.threads| && u != t && ThreadInv(s, u)
    requires n.threads[u] == s.threads[u] && (n.holder == Some(u) <==> s.holder == Some(u))
    requires s.holder == Some(t) || (n.table == s.table && n.fired == s.fired)
    ensures ThreadInv(n, u)
  {
    hide Watched;
  }

  /** A step that leaves protections, table and numbers alone. */
  lemma OnlyMoves(s: State, n: State)
    requires Exact(s) && Apart(s.table) && Numbered(s)
    requires n.table == s.table && n.noAccess == s.noAccess && n.next == s.next && n.fired == s.fired && n.removed == s.removed
    requires LiftedNow(n) == LiftedNow(s) && CalledNow(n) == CalledNow(s)
    ensures Exact(n) && Apart(n.table) && Numbered(n)
  {
    hide Watched, LiftedNow, CalledNow, Placed;
  }

  // Placing a watch: into the table, then the protection.

  lemma InsertExact(s: State, n: State, t: nat, r: Range)
    requires Exact(s) && LiftedNow(s) == None && LiftedNow(n) == Some(r)
    requires n.table == s.table + {r} && n.noAccess == s.noAccess && !Overlaps(s.table, r.start, r.end)
    ensures Exact(n)
  {
  }

  lemma InsertApart(table: set<Range>, r: Range)
    requires Apart(table) && r.start < r.end && !Overlaps(table, r.start, r.end)
    ensures Apart(table + {r})
  {
  }

  lemma InsertNumbered(s: State, n: State, r: Range)
    requires Numbered(s) && r.id == s.next && n.table == s.table + {r} && n.next == s.next + 1
    requires n.fired == s.fired && n.removed == s.removed && CalledNow(s) == None
    ensures Numbered(n)
  {
    hide CalledNow;
    assert r in n.table && r.id == s.next;
    forall id: nat | id < n.next ensures Placed(n.table, id) || id in n.fired || id in n.removed {
      if id < s.next && Placed(s.table, id) {
        var q :| q in s.table && q.id == id;
        assert q in n.table;
      }
    }
    assert s.next !in s.fired;
  }

  lemma ProtectExact(s: State, n: State, r: Range)
    requires Exact(s) && LiftedNow(s) == Some(r) && r in s.table && LiftedNow(n) == None
    requires n.table == s.table && n.noAccess == s.noAccess + Interval(r.start, r.end)
    ensures Exact(n)
  {
  }

  // Taking one away: out of the protection, then out of the table.

  lemma OpenExact(s: State, n: State, r: Range)
    requires Exact(s) && LiftedNow(s) == None && LiftedNow(n) == Some(r)
    requires n.table == s.table && n.noAccess == s.noAccess - Interval(r.start, r.end)
    ensures Exact(n)
  {
  }

  lemma EraseExact(s: State, n: State, r: Range)
    requires Exact(s) && Apart(s.table) && LiftedNow(s) == Some(r) && r in s.table && LiftedNow(n) == None
    requires n.table == s.table - {r} && n.noAccess == s.noAccess
    ensures Exact(n) && Apart(n.table)
  {
  }

  lemma EraseNumbered(s: State, n: State, r: Range)
    requires Numbered(s) && r in s.table && n.table == s.table - {r} && n.next == s.next && n.fired == s.fired
    requires (n.removed == s.removed + {r.id} && CalledNow(s) == None) || (n.removed == s.removed && r.id in s.fired && CalledNow(s) == Some(r))
    ensures Numbered(n)
  {
    hide CalledNow;
    forall id: nat | id < n.next ensures Placed(n.table, id) || id in n.fired || id in n.removed {
      if Placed(s.table, id) && id != r.id {
        var q :| q in s.table && q.id == id;
        assert q in n.table;
      }
    }
  }

  lemma FireNumbered(s: State, n: State, r: Range)
    requires Numbered(s) && r in s.table && n.table == s.table && n.next == s.next && n.removed == s.removed
    requires n.fired == s.fired + [r.id] && CalledNow(s) == None && CalledNow(n) == Some(r)
    ensures Numbered(n)
  {
  }

  /** One step of the thread that holds the mutex. */
  lemma HolderKeeps(memory: iset<int>, s: State, t: nat)
    requires Inv(memory, s) && s.crash == Alive && t < |s.threads| && s.holder == Some(t) && GoOn(memory, s, t).Some?
    ensures var n := GoOn(memory, s, t).value;
      |n.threads| == |s.threads| && ThreadInv(n, t) && Exact(n) && Apart(n.table) && Numbered(n)
      && (n.holder == s.holder || n.holder == None)
      && (forall u: nat | u < |s.threads| && u != t :: n.threads[u] == s.threads[u])
  {
    hide Exact, Apart, Numbered, Watched, Overlaps;
    assert ThreadInv(s, t);
    var n := GoOn(memory, s, t).value;
    match s.threads[t].pc
    case Watching(start, end) =>
      if Overlaps(s.table, start, end) {
        OnlyMoves(s, n);
      } else {
        var r := Range(start, end, s.next);
        InsertExact(s, n, t, r);
        InsertApart(s.table, r);
        InsertNumbered(s, n, r);
      }
    case Inserted(r) => ProtectExact(s, n, r); SameNumbers(s, n);
    case Removing(page) =>
      if Watched(s.table, page) {
        OpenExact(s, n, Find(s.table, page));
        SameNumbers(s, n);
      } else {
        OnlyMoves(s, n);
      }
    case Opened(r) => EraseExact(s, n, r); EraseNumbered(s, n, r);
    case Handling(page) =>
      if Watched(s.table, page) {
        OpenExact(s, n, Find(s.table, page));
        SameNumbers(s, n);
      } else {
        OnlyMoves(s, n);
      }
    case Admitted(r) => SameProtection(s, n); FireNumbered(s, n, r);
    case Called(r) => EraseExact(s, n, r); EraseNumbered(s, n, r);
    case Reread(_) => OnlyMoves(s, n);
    case Leaving => OnlyMoves(s, n);
  }

  lemma SameNumbers(s: State, n: State)
    requires Numbered(s) && n.table == s.table && n.next == s.next && n.fired == s.fired && n.removed == s.removed
    requires CalledNow(n) == CalledNow(s)
    ensures Numbered(n)
  {
    hide CalledNow, Placed;
  }

  lemma SameProtection(s: State, n: State)
    requires Exact(s) && n.table == s.table && n.noAccess == s.noAccess && LiftedNow(n) == LiftedNow(s)
    ensures Exact(n)
  {
    hide LiftedNow, Watched;
  }

  /** The fault of a re-read, when it comes, is of the address that brought the thread here, and
      that address is no memory. */
  lemma RereadFaults(memory: iset<int>, s: State, t: nat)
    requires Inv(memory, s) && s.crash == Alive && t < |s.threads| && s.threads[t].pc.Reread?
    ensures var page, n := s.threads[t].pc.page, GoOn(memory, s, t).value;
      && (page in memory ==> n.crash == Alive && n.threads[t].pc == Leaving)
      && (page !in memory ==> n.crash == BadPointer(page))
  {
    hide Apart, Numbered, Watched;
    assert ThreadInv(s, t);
  }

  lemma OutsideKeeps(memory: iset<int>, s: State, t: nat, a: Action)
    requires Inv(memory, s) && t < |s.threads| && s.holder != Some(t) && Take(memory, s, t, a).Some?
    ensures var n := Take(memory, s, t, a).value;
      |n.threads| == |s.threads| && ThreadInv(n, t) && Exact(n) && Apart(n.table) && Numbered(n)
      && (n.holder == s.holder || (s.holder == None && n.holder == Some(t))) && n.crash == Alive
      && n.table == s.table && n.fired == s.fired
      && (forall u: nat | u < |s.threads| && u != t :: n.threads[u] == s.threads[u])
  {
    hide Exact, Apart, Numbered, Watched, Overlaps;
    assert ThreadInv(s, t);
    if s.holder.Some? {
      assert s.holder.value != t;
    }
    OnlyMoves(s, Take(memory, s, t, a).value);
  }

  lemma TakeKeepsInv(memory: iset<int>, s: State, t: nat, a: Action)
    requires Inv(memory, s) && t < |s.threads| && Take(memory, s, t, a).Some?
    ensures Inv(memory, Take(memory, s, t, a).value)
  {
    hide Exact, Apart, Numbered, Watched, Overlaps, ThreadInv;
    var n := Take(memory, s, t, a).value;
    HolderGoes(memory, s, t, a);
    if s.holder == Some(t) {
      HolderKeeps(memory, s, t);
      HolderCrash(memory, s, t);
    } else {
      OutsideKeeps(memory, s, t, a);
    }
    forall u: nat | u < |n.threads| ensures ThreadInv(n, u) {
      if u != t {
        OthersStay(s, n, t, u);
      }
    }
  }

  lemma HolderGoes(memory: iset<int>, s: State, t: nat, a: Action)
    requires t < |s.threads| && ThreadInv(s, t) && Take(memory, s, t, a).Some?
    ensures s.crash == Alive
    ensures s.holder == Some(t) ==> a == Go
  {
  }

  lemma HolderCrash(memory: iset<int>, s: State, t: nat)
    requires Inv(memory, s) && s.crash == Alive && t < |s.threads| && s.holder == Some(t) && GoOn(memory, s, t).Some?
    ensures var n := GoOn(memory, s, t).value;
      (n.crash.BadPointer? ==> n.crash.page !in memory) && !n.crash.InternalFault?
  {
    hide Exact, Apart, Numbered, Watched, Overlaps;
    assert ThreadInv(s, t);
    if s.threads[t].pc.Reread? {
      RereadFaults(memory, s, t);
    }
  }

  // --- Runs -----------------------------------------------------------------

  ghost predicate Start(s: State) {
    && s.holder == None && s.table == {} && s.noAccess == {} && s.next == 0 && s.fired == [] && s.removed == {} && s.crash == Alive
    && (forall t: nat | t < |s.threads| :: s.threads[t].pc == Idle && !s.threads[t].inside)
  }

  ghost function After(memory: iset<int>, s: State, schedule: seq<(nat, Action)>): Option<State> {
    if |schedule| == 0 then Some(s)
    else
      var before := After(memory, s, schedule[..|schedule| - 1]);
      var (t, a) := schedule[|schedule| - 1];
      if before.None? || t >= |before.value.threads| then None else Take(memory, before.value, t, a)
  }

  /** Over all interleavings. In particular the process dies only of a pointer that is no memory,
      or of a watch requested on pages that are watched already. */
  lemma {:induction false} RunsKeepInv(memory: iset<int>, s: State, schedule: seq<(nat, Action)>)
    requires Start(s) && After(memory, s, schedule).Some?
    ensures Inv(memory, After(memory, s, schedule).value)
  {
    hide Take, Exact, Apart, Numbered, ThreadInv;
    if |schedule| == 0 {
      StartInv(memory, s);
    } else {
      var before := schedule[..|schedule| - 1];
      var (t, a) := schedule[|schedule| - 1];
      RunsKeepInv(memory, s, before);
      TakeKeepsInv(memory, After(memory, s, before).value, t, a);
    }
  }

  lemma StartInv(memory: iset<int>, s: State)
    requires Start(s)
    ensures Inv(memory, s)
  {
  }

  /** Whenever the mutex is free the pages without access are exactly those of the watched ranges,
      and every watch ever placed is in the table, or has fired, or was removed: one of the three. */
  lemma FreeMeansExact(memory: iset<int>, s: State, page: int, id: nat)
    requires Inv(memory, s) && s.holder == None
    ensures page in s.noAccess <==> exists r :: r in s.table && r.start <= page < r.end
    ensures id < s.next <==> Placed(s.table, id) || id in s.fired || id in s.removed
    ensures !(Placed(s.table, id) && id in s.fired) && !(Placed(s.table, id) && id in s.removed) && !(id in s.fired && id in s.removed)
  {
    hide Apart, ThreadInv;
    if Watched(s.table, page) {
      var r := Find(s.table, page);
      assert r in s.table && r.start <= page < r.end;
    }
    if r :| r in s.table && r.start <= page < r.end {
      assert In(r, page);
    }
  }

  /** However many threads fault on it, and whatever happens next, a watch fires at most once. */
  lemma FiresAtMostOnce(memory: iset<int>, s: State, schedule: seq<(nat, Action)>, i: int, j: int)
    requires Start(s) && After(memory, s, schedule).Some?
    requires var fired := After(memory, s, schedule).value.fired; 0 <= i < |fired| && 0 <= j < |fired| && fired[i] == fired[j]
    ensures i == j
  {
    hide Start, Exact, Apart, ThreadInv, After, Placed;
    RunsKeepInv(memory, s, schedule);
  }

  ghost function GoAlone(memory: iset<int>, s: State, t: nat, steps: nat): Option<State>
    requires t < |s.threads|
    decreases steps
  {
    if steps == 0 then Some(s)
    else
      var n := Take(memory, s, t, Go);
      if n.None? || t >= |n.value.threads| then None else GoAlone(memory, n.value, t, steps - 1)
  }

  /** A thread that faulted on real memory gets through the handler, by its own steps once the
      mutex is free: then its page is accessible, and if it was watched just this watch has fired
      and gone; if another thread was faster nothing else happens. */
  lemma HandlerOpens(memory: iset<int>, s: State, t: nat)
    requires Inv(memory, s) && s.crash == Alive && s.holder == None && t < |s.threads| && s.threads[t].pc.WantHandle?
    requires s.threads[t].pc.page in memory
    ensures var page := s.threads[t].pc.page;
      var n := GoAlone(memory, s, t, if Watched(s.table, page) then 5 else 4);
      && n.Some? && |n.value.threads| == |s.threads|
      && n.value.threads[t].pc == Idle && !n.value.threads[t].inside && n.value.crash == Alive && n.value.holder == None
      && Accessible(memory, n.value, page)
      && (if Watched(s.table, page)
          then n.value.fired == s.fired + [Find(s.table, page).id] && n.value.table == s.table - {Find(s.table, page)}
          else n.value.fired == s.fired && n.value.table == s.table && n.value.noAccess == s.noAccess)
  {
    hide Exact, Apart, Numbered, ThreadInv, Watched;
    var page := s.threads[t].pc.page;
    var a := Take(memory, s, t, Go).value;
    assert a.threads[t].pc == Handling(page);
    var b := Take(memory, a, t, Go).value;
    if Watched(s.table, page) {
      var c := Take(memory, b, t, Go).value;
      var d := Take(memory, c, t, Go).value;
      assert d.threads[t].pc == Leaving;
      assert GoAlone(memory, d, t, 1) == GoOn(memory, d, t);
      assert GoAlone(memory, c, t, 2) == GoAlone(memory, d, t, 1);
      assert GoAlone(memory, b, t, 3) == GoAlone(memory, c, t, 2);
      assert GoAlone(memory, a, t, 4) == GoAlone(memory, b, t, 3);
    } else {
      TakeKeepsInv(memory, s, t, Go);
      TakeKeepsInv(memory, a, t, Go);
      RereadFaults(memory, b, t);
      var c := Take(memory, b, t, Go).value;
      assert GoAlone(memory, c, t, 1) == GoOn(memory, c, t);
      assert GoAlone(memory, b, t, 2) == GoAlone(memory, c, t, 1);
      assert GoAlone(memory, a, t, 3) == GoAlone(memory, b, t, 2);
    }
  }

  /** A thread that places a watch gets through by its own steps once the mutex is free. When no
      watched range has a page in common with the new one, exactly this range is added, under the
      next number, and exactly its pages are closed; when one has, the process aborts. */
  lemma WatchPlaces(memory: iset<int>, s: State, t: nat)
    requires Inv(memory, s) && s.crash == Alive && s.holder == None && t < |s.threads| && s.threads[t].pc.WantWatch?
    ensures var start, end := s.threads[t].pc.start, s.threads[t].pc.end;
      if forall r | r in s.table :: r.end <= start || end <= r.start then
        var n := GoAlone(memory, s, t, 4);
        && n.Some? && |n.value.threads| == |s.threads|
        && n.value.threads[t].pc == Idle && n.value.crash == Alive && n.value.holder == None
        && n.value.table == s.table + {Range(start, end, s.next)} && n.value.next == s.next + 1
        && (forall p: int :: p in n.value.noAccess <==> p in s.noAccess || start <= p < end)
        && n.value.fired == s.fired && n.value.removed == s.removed
      else
        var n := GoAlone(memory, s, t, 2);
        n.Some? && n.value.crash == Overlap
  {
    hide Exact, Apart, Numbered, ThreadInv, Watched;
    var start, end := s.threads[t].pc.start, s.threads[t].pc.end;
    var a := Take(memory, s, t, Go).value;
    assert a.threads[t].pc == Watching(start, end) && a.table == s.table;
    var b := Take(memory, a, t, Go).value;
    assert GoAlone(memory, b, t, 0) == Some(b);
    assert GoAlone(memory, a, t, 1) == Some(b);
    if forall r | r in s.table :: r.end <= start || end <= r.start {
      assert b.threads[t].pc == Inserted(Range(start, end, s.next));
      var c := Take(memory, b, t, Go).value;
      assert c.threads[t].pc == Leaving;
      assert GoAlone(memory, c, t, 1) == GoOn(memory, c, t);
      assert GoAlone(memory, b, t, 2) == GoAlone(memory, c, t, 1);
      assert GoAlone(memory, a, t, 3) == GoAlone(memory, b, t, 2);
    }
  }

  /** A thread that removes a watch gets through likewise: the watch with the page in its range goes,
      with the protection of its pages, and without one nothing changes. */
  lemma RemoveTakes(memory: iset<int>, s: State, t: nat, r: Range)
    requires Inv(memory, s) && s.crash == Alive && s.holder == None && t < |s.threads| && s.threads[t].pc.WantRemove?
    ensures r in s.table && r.start <= s.threads[t].pc.page < r.end ==>
      var n := GoAlone(memory, s, t, 4);
      && n.Some? && n.value == Move(s, t, Idle).(table := s.table - {r}, noAccess := n.value.noAccess, removed := s.removed + {r.id})
      && (forall p: int :: p in n.value.noAccess <==> p in s.noAccess && !(r.start <= p < r.end))
    ensures (forall q | q in s.table :: !(q.start <= s.threads[t].pc.page < q.end)) ==>
      GoAlone(memory, s, t, 3) == Some(Move(s, t, Idle))
  {
    hide Exact, Numbered, ThreadInv;
    var page := s.threads[t].pc.page;
    var a := Take(memory, s, t, Go).value;
    var b := Take(memory, a, t, Go).value;
    assert a.threads[t].pc == Removing(page) && a.table == s.table;
    if r in s.table && In(r, page) {
      assert Watched(s.table, page);
      assert Find(s.table, page) == r;
      assert b.threads[t].pc == Opened(r);
      var c := Take(memory, b, t, Go).value;
      assert c.threads[t].pc == Leaving;
      assert GoAlone(memory, c, t, 1) == GoOn(memory, c, t);
      assert GoAlone(memory, b, t, 2) == GoAlone(memory, c, t, 1);
      assert GoAlone(memory, a, t, 3) == GoAlone(memory, b, t, 2);
    } else if forall q | q in s.table :: !(q.start <= page < q.end) {
      assert !Watched(s.table, page);
      assert b.threads[t].pc == Leaving;
      var c := GoOn(memory, b, t).value;
      assert c.threads == Move(s, t, Idle).threads && c == Move(s, t, Idle);
      assert GoAlone(memory, c, t, 0) == Some(c);
      assert GoAlone(memory, b, t, 1) == Some(c);
      assert GoAlone(memory, a, t, 2) == GoAlone(memory, b, t, 1);
    }
  }

  /** From outside a thread can start to place a watch on any pages, or to remove one; and a touch
      faults, into the handler, exactly when the page is no memory or closed. */
  lemma OperationsStart(memory: iset<int>, s: State, t: nat, page: int, start: int, end: int)
    requires Inv(memory, s) && s.crash == Alive && t < |s.threads| && s.threads[t].pc == Idle
    ensures start < end ==>
      Take(memory, s, t, Watch(start, end)) == Some(s.(threads := s.threads[t := s.threads[t].(pc := WantWatch(start, end))]))
    ensures Take(memory, s, t, Remove(page)) == Some(s.(threads := s.threads[t := s.threads[t].(pc := WantRemove(page))]))
    ensures Take(memory, s, t, Touch(page)) ==
      if page in memory && page !in s.noAccess then Some(s)
      else Some(s.(threads := s.threads[t := Thread(WantHandle(page), true, page)]))
  {
    hide Exact, Apart, Numbered;
    assert ThreadInv(s, t);
  }

  // --- Progress -------------------------------------------------------------------

  predicate Wants(pc: Pc) {
    pc.WantWatch? || pc.WantRemove? || pc.WantHandle?
  }

  /** A thread in an operation can go on if and only if it does not wait for a held mutex; then the
      holder is another thread, which does not wait. */
  lemma NoDeadlock(memory: iset<int>, s: State, t: nat)
    requires Inv(memory, s) && s.crash == Alive && t < |s.threads| && s.threads[t].pc != Idle
    ensures Take(memory, s, t, Go).Some? <==> !(Wants(s.threads[t].pc) && s.holder.Some?)
    ensures Wants(s.threads[t].pc) && s.holder.Some? ==>
      s.holder.value != t && s.holder.value < |s.threads| && Take(memory, s, s.holder.value, Go).Some?
  {
    hide Exact, Apart, Numbered, Watched, Overlaps;
    assert ThreadInv(s, t);
    if s.holder.Some? {
      assert ThreadInv(s, s.holder.value);
    }
  }

  /** How many steps the holder is from its release at most. */
  function StepsLeft(pc: Pc): nat {
    match pc
    case Watching(_, _) => 3
    case Removing(_) => 3
    case Handling(_) => 4
    case Admitted(_) => 3
    case Inserted(_) => 2
    case Opened(_) => 2
    case Called(_) => 2
    case Reread(_) => 2
    case _ => 1
  }

  ghost predicate Finished(s: State) {
    s.holder == None || s.crash != Alive
  }

  lemma HolderStep(memory: iset<int>, s: State, t: nat)
    requires Inv(memory, s) && s.crash == Alive && t < |s.threads| && s.holder == Some(t)
    ensures Take(memory, s, t, Go).Some?
    ensures var n := Take(memory, s, t, Go).value;
      |n.threads| == |s.threads| && Inv(memory, n)
      && (Finished(n) || (n.holder == Some(t) && StepsLeft(n.threads[t].pc) < StepsLeft(s.threads[t].pc)))
  {
    hide Exact, Apart, Numbered, Watched, Overlaps;
    assert ThreadInv(s, t);
    TakeKeepsInv(memory, s, t, Go);
  }

  /** From every reachable live state the holder gets by its own steps alone, at most four of them,
      to the release of the mutex or to a crash; and a crash is for a pointer that is no memory, or
      for a watch on watched pages. */
  lemma {:induction false} HolderReleases(memory: iset<int>, s: State, t: nat) returns (steps: nat)
    requires Inv(memory, s) && s.crash == Alive && t < |s.threads| && s.holder == Some(t)
    ensures steps <= StepsLeft(s.threads[t].pc) <= 4
    ensures var n := GoAlone(memory, s, t, steps);
      && n.Some? && Finished(n.value)
      && (n.value.crash == Alive || n.value.crash == Overlap || (n.value.crash.BadPointer? && n.value.crash.page !in memory))
    decreases StepsLeft(s.threads[t].pc)
  {
    hide Take, Inv, ThreadInv, Exact, Apart, Numbered, Watched, Overlaps;
    HolderStep(memory, s, t);
    var n := Take(memory, s, t, Go).value;
    CrashIsListed(memory, n);
    if Finished(n) {
      steps := 1;
      assert GoAlone(memory, n, t, 0) == Some(n);
    } else {
      var more := HolderReleases(memory, n, t);
      steps := more + 1;
    }
  }

  lemma CrashIsListed(memory: iset<int>, s: State)
    requires Inv(memory, s)
    ensures s.crash == Alive || s.crash == Overlap || (s.crash.BadPointer? && s.crash.page !in memory)
  {
    hide Exact, Apart, Numbered, ThreadInv;
  }

  // --- The assertions about overlap ---------------------------------------------

  /** What watchRange asserts: neither the first page nor the one past the end is watched. */
  ghost predicate EndpointsFree(table: set<Range>, start: int, end: int) {
    !Watched(table, start) && !Watched(table, end)
  }

  /** They stand for "no overlap" exactly when no watched range lies within the new one and none
      begins where it ends: a range within is missed, and a neighbour is taken for an overlap. */
  lemma EndpointAssertions(table: set<Range>, start: int, end: int)
    requires Apart(table) && start < end
    ensures EndpointsFree(table, start, end) && Overlaps(table, start, end) <==>
      EndpointsFree(table, start, end) && exists r :: r in table && start < r.start && r.end <= end
    ensures !EndpointsFree(table, start, end) && !Overlaps(table, start, end) <==>
      !Overlaps(table, start, end) && exists r :: r in table && r.start == end
  {
  }
}
