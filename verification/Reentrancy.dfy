// The reentrancy flag and the table mutex, over all interleavings of threads whose allocator
// calls may nest.
module Reentrancy {
  import opened Basics

  /** Who constructs a LibraryContext: an instrumented call, the patrol thread, the library's
      initialisation. */
  datatype Kind = Call | Patrol | Init

  /** `Running` is in the library without the mutex. */
  datatype Phase = Constructing | Running | Waiting | Inside | Destroying

  /** An activation on a thread's stack. A wrapper first resolves the real function, and either
      forwards to it or goes through the table. */
  datatype Frame = Resolving | Forwarding | Holding(kind: Kind, phase: Phase)

  datatype Thread = Thread(inLibrary: bool, stack: seq<Frame>)

  /** `failed`: an assertion of LibraryContext did not hold, or a thread unlocked a mutex that it
      did not hold. */
  datatype System = System(threads: seq<Thread>, holder: Option<nat>, watching: bool, failed: bool)

  datatype Action = Enter(kind: Kind) | Check | Construct | Request | Acquire | Release | Finish | Destroy | Return | StartWatching

  function Top(stack: seq<Frame>): Frame
    requires |stack| > 0
  {
    stack[|stack| - 1]
  }

  function Below(stack: seq<Frame>): seq<Frame>
    requires |stack| > 0
  {
    stack[..|stack| - 1]
  }

  /** Code in this activation can make an allocator call. */
  predicate MayCall(f: Frame) {
    match f
    case Resolving => true
    case Forwarding => true
    case Holding(_, phase) => phase == Running || phase == Inside
  }

  function SetThread(s: System, t: nat, thread: Thread): System
    requires t < |s.threads|
  {
    s.(threads := s.threads[t := thread])
  }

  function Replace(s: System, t: nat, inLibrary: bool, f: Frame): System
    requires t < |s.threads| && |s.threads[t].stack| > 0
  {
    SetThread(s, t, Thread(inLibrary, Below(s.threads[t].stack) + [f]))
  }

  /** One step of thread `t`; None when it cannot take this step now. */
  function Take(s: System, t: nat, a: Action): Option<System>
    requires t < |s.threads|
  {
    var thread := s.threads[t];
    if a.Enter? then
      if a.kind == Call then
        if thread.stack == [] || MayCall(Top(thread.stack)) then Some(SetThread(s, t, thread.(stack := thread.stack + [Resolving]))) else None
      else if thread.stack == [] then Some(SetThread(s, t, thread.(stack := [Holding(a.kind, Constructing)])))
      else None
    else if a.StartWatching? then Some(s.(watching := true))
    else if thread.stack == [] then None
    else
      match (a, Top(thread.stack))
      case (Check, Resolving) =>
        Some(Replace(s, t, thread.inLibrary, if thread.inLibrary || !s.watching then Forwarding else Holding(Call, Constructing)))
      case (Return, Forwarding) => Some(SetThread(s, t, thread.(stack := Below(thread.stack))))
      case (Construct, Holding(kind, Constructing)) =>
        Some(Replace(s, t, true, Holding(kind, if kind == Call then Waiting else Running)).(failed := s.failed || thread.inLibrary))
      case (Request, Holding(Patrol, Running)) => Some(Replace(s, t, thread.inLibrary, Holding(Patrol, Waiting)))
      case (Finish, Holding(Init, Running)) => Some(Replace(s, t, thread.inLibrary, Holding(Init, Destroying)))
      case (Acquire, Holding(kind, Waiting)) =>
        if s.holder.None? then Some(Replace(s, t, thread.inLibrary, Holding(kind, Inside)).(holder := Some(t))) else None
      case (Release, Holding(kind, Inside)) =>
        Some(Replace(s, t, thread.inLibrary, Holding(kind, if kind == Call then Destroying else Running)).(
          holder := None, failed := s.failed || s.holder != Some(t)))
      case (Destroy, Holding(_, Destroying)) =>
        Some(SetThread(s, t, Thread(false, Below(thread.stack))).(failed := s.failed || !thread.inLibrary))
      case _ => None
  }

  // --- The invariant --------------------------------------------------------

  predicate Flagged(f: Frame) {
    f.Holding? && f.phase != Constructing
  }

  /** Some activation on the stack is between its LibraryContext's construction and destruction. */
  predicate InContext(stack: seq<Frame>) {
    if |stack| == 0 then false else InContext(Below(stack)) || Flagged(Top(stack))
  }

  predicate Locks(stack: seq<Frame>) {
    if |stack| == 0 then false else Locks(Below(stack)) || (Top(stack).Holding? && Top(stack).phase == Inside)
  }

  /** An instrumented call takes the mutex as soon as it is in the library, the initialisation
      never does, and the patrol thread never leaves the library. */
  predicate Proper(f: Frame) {
    match f
    case Holding(Call, phase) => phase != Running
    case Holding(Patrol, phase) => phase != Destroying
    case Holding(Init, phase) => phase != Waiting && phase != Inside
    case _ => true
  }

  /** No activation has a LibraryContext above another's, and those that cannot call are on top. */
  predicate WellStacked(stack: seq<Frame>) {
    |stack| > 0 ==>
      && WellStacked(Below(stack))
      && (Below(stack) != [] ==> MayCall(Top(Below(stack))))
      && (Top(stack).Holding? ==> !InContext(Below(stack)))
      && Proper(Top(stack))
  }

  predicate ThreadInv(s: System, t: nat)
    requires t < |s.threads|
  {
    && WellStacked(s.threads[t].stack)
    && s.threads[t].inLibrary == InContext(s.threads[t].stack)
    && (s.holder == Some(t) <==> Locks(s.threads[t].stack))
  }

  predicate Inv(s: System) {
    && !s.failed
    && (s.holder.Some? ==> s.holder.value < |s.threads|)
    && (forall t: nat | t < |s.threads| :: ThreadInv(s, t))
  }

  lemma {:induction false} LocksInContext(stack: seq<Frame>)
    ensures Locks(stack) ==> InContext(stack)
  {
    if |stack| > 0 {
      LocksInContext(Below(stack));
    }
  }

  /** What a new top does to the stack's properties. */
  lemma Push(stack: seq<Frame>, f: Frame)
    ensures Below(stack + [f]) == stack && Top(stack + [f]) == f
    ensures InContext(stack + [f]) == (InContext(stack) || Flagged(f))
    ensures Locks(stack + [f]) == (Locks(stack) || (f.Holding? && f.phase == Inside))
    ensures WellStacked(stack + [f]) <==>
      WellStacked(stack) && (stack != [] ==> MayCall(Top(stack))) && (f.Holding? ==> !InContext(stack)) && Proper(f)
  {
    assert Below(stack + [f]) == stack;
  }

  lemma Split(stack: seq<Frame>)
    requires |stack| > 0
    ensures stack == Below(stack) + [Top(stack)]
  {
  }

  lemma EmptyStack()
    ensures !InContext([]) && !Locks([]) && WellStacked([])
  {
  }

  lemma EnterKeeps(s: System, t: nat, a: Action)
    requires t < |s.threads| && ThreadInv(s, t) && a.Enter? && Take(s, t, a).Some?
    ensures ThreadInv(Take(s, t, a).value, t)
  {
    hide InContext, Locks, WellStacked;
    var stack := s.threads[t].stack;
    if a.kind == Call {
      Push(stack, Resolving);
    } else {
      EmptyStack();
      Push(stack, Holding(a.kind, Constructing));
      assert stack + [Holding(a.kind, Constructing)] == [Holding(a.kind, Constructing)];
    }
  }

  /** An activation returns. */
  lemma PopKeeps(s: System, t: nat, a: Action)
    requires t < |s.threads| && ThreadInv(s, t) && (a.Return? || a.Destroy?) && Take(s, t, a).Some?
    ensures ThreadInv(Take(s, t, a).value, t) && Take(s, t, a).value.failed == s.failed
  {
  }

  /** An activation goes on to its next phase. */
  lemma ReplaceKeeps(s: System, t: nat, flag: bool, f: Frame, n: System)
    requires t < |s.threads| && ThreadInv(s, t) && |s.threads[t].stack| > 0 && Proper(f)
    requires n.threads == Replace(s, t, flag, f).threads
    requires var below := Below(s.threads[t].stack);
      && (f.Holding? ==> !InContext(below))
      && flag == (InContext(below) || Flagged(f))
      && (n.holder == Some(t) <==> Locks(below) || (f.Holding? && f.phase == Inside))
    ensures ThreadInv(n, t)
  {
  }

  /** What is known of the activations below the running one. */
  lemma BelowTop(s: System, t: nat)
    requires t < |s.threads| && ThreadInv(s, t) && |s.threads[t].stack| > 0
    ensures var below, top := Below(s.threads[t].stack), Top(s.threads[t].stack);
      && Proper(top)
      && (top.Holding? ==> !InContext(below) && !Locks(below))
      && s.threads[t].inLibrary == (InContext(below) || Flagged(top))
      && (s.holder == Some(t) <==> Locks(below) || (top.Holding? && top.phase == Inside))
  {
    hide InContext, Locks, WellStacked;
    var stack := s.threads[t].stack;
    Split(stack);
    Push(Below(stack), Top(stack));
    LocksInContext(Below(stack));
  }

  lemma CheckKeeps(s: System, t: nat)
    requires t < |s.threads| && ThreadInv(s, t) && Take(s, t, Check).Some?
    ensures ThreadInv(Take(s, t, Check).value, t) && Take(s, t, Check).value.failed == s.failed
  {
    hide InContext, Locks, WellStacked, ThreadInv;
    BelowTop(s, t);
    var thread := s.threads[t];
    var f := if thread.inLibrary || !s.watching then Forwarding else Holding(Call, Constructing);
    ReplaceKeeps(s, t, thread.inLibrary, f, Take(s, t, Check).value);
  }

  lemma ContextKeeps(s: System, t: nat, a: Action)
    requires t < |s.threads| && ThreadInv(s, t) && Take(s, t, a).Some?
    requires a.Construct? || a.Request? || a.Finish?
    ensures ThreadInv(Take(s, t, a).value, t) && Take(s, t, a).value.failed == s.failed
  {
    hide InContext, Locks, WellStacked, ThreadInv;
    BelowTop(s, t);
    var n := Take(s, t, a).value;
    var kind := Top(s.threads[t].stack).kind;
    ReplaceKeeps(s, t, true,
      Holding(kind, if a.Finish? then Destroying else if a.Request? || kind == Call then Waiting else Running), n);
  }

  lemma MutexKeeps(s: System, t: nat, a: Action)
    requires t < |s.threads| && ThreadInv(s, t) && Take(s, t, a).Some? && (a.Acquire? || a.Release?)
    ensures ThreadInv(Take(s, t, a).value, t) && Take(s, t, a).value.failed == s.failed
  {
    hide InContext, Locks, WellStacked, ThreadInv;
    BelowTop(s, t);
    var n := Take(s, t, a).value;
    var kind := Top(s.threads[t].stack).kind;
    ReplaceKeeps(s, t, true, Holding(kind, if a.Acquire? then Inside else if kind == Call then Destroying else Running), n);
  }

  /** A step moves only its own thread, and the mutex only to it and from it. */
  lemma OthersStay(s: System, t: nat, a: Action, u: nat)
    requires t < |s.threads| && u < |s.threads| && u != t && Take(s, t, a).Some?
    requires ThreadInv(s, t)
    ensures var n := Take(s, t, a).value;
      |n.threads| == |s.threads| && n.threads[u] == s.threads[u]
      && (n.holder == s.holder || (s.holder == None && n.holder == Some(t)) || (s.holder == Some(t) && n.holder == None))
  {
    hide InContext, WellStacked;
  }

  lemma TakeKeepsInv(s: System, t: nat, a: Action)
    requires Inv(s) && t < |s.threads| && Take(s, t, a).Some?
    ensures Inv(Take(s, t, a).value)
  {
    hide InContext, Locks, WellStacked, Take;
    var n := Take(s, t, a).value;
    if a.Enter? {
      EnterKeeps(s, t, a);
    } else if a.Return? || a.Destroy? {
      PopKeeps(s, t, a);
    } else if a.Check? {
      CheckKeeps(s, t);
    } else if a.Acquire? || a.Release? {
      MutexKeeps(s, t, a);
    } else if !a.StartWatching? {
      ContextKeeps(s, t, a);
    }
    StepShape(s, t, a);
    forall u: nat | u < |n.threads| ensures ThreadInv(n, u) {
      if u != t {
        assert ThreadInv(s, u);
        OthersStay(s, t, a, u);
      }
    }
  }

  lemma StepShape(s: System, t: nat, a: Action)
    requires t < |s.threads| && ThreadInv(s, t) && Take(s, t, a).Some?
    ensures var n := Take(s, t, a).value;
      |n.threads| == |s.threads|
      && (n.holder == s.holder || n.holder == None || n.holder == Some(t))
      && (a.StartWatching? ==> n.threads == s.threads && n.holder == s.holder)
      && (a.Enter? || a.StartWatching? ==> n.failed == s.failed)
  {
    hide InContext, Locks, WellStacked;
  }

  // --- Runs -----------------------------------------------------------------

  ghost predicate Start(s: System) {
    && s.holder == None && !s.watching && !s.failed
    && (forall t: nat | t < |s.threads| :: s.threads[t] == Thread(false, []))
  }

  /** The system after a schedule: which thread takes which step, in order. None when some step
      was not possible. */
  function After(s: System, schedule: seq<(nat, Action)>): Option<System> {
    if |schedule| == 0 then Some(s)
    else
      var before := After(s, schedule[..|schedule| - 1]);
      var (t, a) := schedule[|schedule| - 1];
      if before.None? || t >= |before.value.threads| then None else Take(before.value, t, a)
  }

  /** Over all interleavings: the assertions of LibraryContext hold, the mutex is released only by
      its holder, and the flags and the mutex are as the stacks say. */
  lemma {:induction false} RunsKeepInv(s: System, schedule: seq<(nat, Action)>)
    requires Start(s) && After(s, schedule).Some?
    ensures Inv(After(s, schedule).value)
  {
    hide Take;
    if |schedule| > 0 {
      var before := schedule[..|schedule| - 1];
      var (t, a) := schedule[|schedule| - 1];
      RunsKeepInv(s, before);
      TakeKeepsInv(After(s, before).value, t, a);
    }
  }

  predicate WaitsForMutex(s: System, t: nat)
    requires t < |s.threads|
  {
    var stack := s.threads[t].stack;
    |stack| > 0 && Top(stack).Holding? && Top(stack).phase == Waiting
  }

  /** Whoever holds the mutex is in the library, nobody else is inside, and nobody waits for a
      mutex that it holds. */
  lemma MutexDiscipline(s: System, t: nat)
    requires Inv(s) && t < |s.threads|
    ensures s.holder == Some(t) ==> s.threads[t].inLibrary
    ensures WaitsForMutex(s, t) ==> s.holder != Some(t) && s.threads[t].inLibrary
    ensures forall u: nat | u < |s.threads| && Locks(s.threads[t].stack) && Locks(s.threads[u].stack) :: u == t
  {
    assert ThreadInv(s, t);
    LocksInContext(s.threads[t].stack);
    if WaitsForMutex(s, t) {
      LocksInContext(Below(s.threads[t].stack));
    }
    forall u: nat | u < |s.threads| && Locks(s.threads[t].stack) && Locks(s.threads[u].stack) ensures u == t {
      assert ThreadInv(s, u);
    }
  }

  /** The flag outlives the lock: the step that gives the mutex up leaves the flag set. */
  lemma FlagOutlivesLock(s: System, t: nat, a: Action, u: nat)
    requires Inv(s) && t < |s.threads| && Take(s, t, a).Some?
    requires s.holder == Some(u) && Take(s, t, a).value.holder != Some(u)
    ensures u == t && s.threads[t].inLibrary && Take(s, t, a).value.threads[t].inLibrary
  {
    hide InContext, Locks, WellStacked;
    assert ThreadInv(s, t);
    LocksInContext(s.threads[t].stack);
    StepShape(s, t, a);
    if u != t {
      assert ThreadInv(s, u);
      OthersStay(s, t, a, u);
    }
  }

  /** The step that a thread takes when it makes no further call. */
  function OwnStep(f: Frame): Action {
    match f
    case Resolving => Check
    case Forwarding => Return
    case Holding(kind, phase) =>
      match phase
      case Constructing => Construct
      case Running => if kind == Init then Finish else Request
      case Waiting => Acquire
      case Inside => Release
      case Destroying => Destroy
  }

  /** A thread with something to do can take its next step, unless it waits for the mutex; then
      the mutex is free, or held by another thread which is not itself waiting. */
  lemma NoDeadlock(s: System, t: nat)
    requires Inv(s) && t < |s.threads| && |s.threads[t].stack| > 0
    ensures Take(s, t, OwnStep(Top(s.threads[t].stack))).Some? <==> !(WaitsForMutex(s, t) && s.holder.Some?)
    ensures WaitsForMutex(s, t) && s.holder.Some? ==>
      s.holder.value < |s.threads| && s.holder.value != t && |s.threads[s.holder.value].stack| > 0 && !WaitsForMutex(s, s.holder.value)
  {
    hide InContext, WellStacked;
    MutexDiscipline(s, t);
    BelowTop(s, t);
    if WaitsForMutex(s, t) && s.holder.Some? {
      var u := s.holder.value;
      assert ThreadInv(s, u);
      MutexDiscipline(s, u);
    }
  }

  function Weight(f: Frame): nat {
    match f
    case Resolving => 2
    case _ => 1
  }

  function Work(stack: seq<Frame>): nat {
    if |stack| == 0 then 0 else Work(Below(stack)) + Weight(Top(stack))
  }

  lemma HolderStep(s: System, t: nat)
    requires Inv(s) && t < |s.threads| && s.holder == Some(t)
    ensures |s.threads[t].stack| > 0
    ensures var n := Take(s, t, OwnStep(Top(s.threads[t].stack)));
      n.Some? && |n.value.threads| == |s.threads| && Inv(n.value)
      && (n.value.holder == None || (n.value.holder == Some(t) && Work(n.value.threads[t].stack) < Work(s.threads[t].stack)))
  {
    hide InContext;
    assert ThreadInv(s, t);
    MutexDiscipline(s, t);
    HolderTop(s.threads[t].stack);
    var a := OwnStep(Top(s.threads[t].stack));
    TakeKeepsInv(s, t, a);
    var stack := s.threads[t].stack;
    assert Below(Below(stack) + [Forwarding]) == Below(stack);
  }

  /** On the stack of the holder only forwarded calls lie above the activation that holds. */
  lemma HolderTop(stack: seq<Frame>)
    requires WellStacked(stack) && Locks(stack)
    ensures |stack| > 0
    ensures Top(stack) == Resolving || Top(stack) == Forwarding || (Top(stack).Holding? && Top(stack).phase == Inside)
  {
    LocksInContext(Below(stack));
  }

  function TakeAll(s: System, t: nat, actions: seq<Action>): Option<System>
    requires t < |s.threads|
    decreases |actions|
  {
    if |actions| == 0 then Some(s)
    else
      var next := Take(s, t, actions[0]);
      if next.None? || t >= |next.value.threads| then None else TakeAll(next.value, t, actions[1..])
  }

  /** Whatever state it is in, the holder can come to release the mutex by its own steps alone:
      at most one for each call that it has under way, and one more for each still unresolved. */
  lemma {:induction false} HolderReleases(s: System, t: nat) returns (actions: seq<Action>)
    requires Inv(s) && t < |s.threads| && s.holder == Some(t)
    ensures |actions| <= Work(s.threads[t].stack)
    ensures TakeAll(s, t, actions).Some? && TakeAll(s, t, actions).value.holder == None
    decreases Work(s.threads[t].stack)
  {
    hide Take, InContext, WellStacked, Locks, OwnStep;
    HolderStep(s, t);
    var a := OwnStep(Top(s.threads[t].stack));
    var n := Take(s, t, a).value;
    var rest: seq<Action> := [];
    if n.holder.Some? {
      rest := HolderReleases(n, t);
    }
    actions := [a] + rest;
    assert actions[1..] == rest;
  }

  // --- What becomes of a call -----------------------------------------------------

  /** A LibraryContext is alive in the activation. */
  predicate HasContext(f: Frame) {
    match f
    case Holding(_, phase) => phase == Running || phase == Waiting || phase == Inside || phase == Destroying
    case _ => false
  }

  lemma {:induction false} InContextIff(stack: seq<Frame>)
    ensures InContext(stack) <==> exists i :: 0 <= i < |stack| && HasContext(stack[i])
  {
    if |stack| > 0 {
      InContextIff(Below(stack));
      if i :| 0 <= i < |Below(stack)| && HasContext(Below(stack)[i]) {
        assert HasContext(stack[i]);
      }
    }
  }

  /** Calls can be made by a thread with nothing under way, while a wrapper resolves or forwards, and
      from inside the library, with the mutex or without; the patrol and the initialisation begin
      with nothing under way. */
  lemma CallsNest(s: System, t: nat)
    requires t < |s.threads|
    ensures var stack := s.threads[t].stack;
      if stack == [] || stack[|stack| - 1] in {Resolving, Forwarding} ||
        (stack[|stack| - 1].Holding? && stack[|stack| - 1].phase in {Running, Inside})
      then Take(s, t, Enter(Call)) == Some(s.(threads := s.threads[t := s.threads[t].(stack := stack + [Resolving])]))
      else Take(s, t, Enter(Call)) == None
    ensures forall kind | kind != Call && s.threads[t].stack != [] :: Take(s, t, Enter(kind)) == None
    ensures forall kind | kind != Call && s.threads[t].stack == [] ::
              Take(s, t, Enter(kind)) == Some(s.(threads := s.threads[t := s.threads[t].(stack := [Holding(kind, Constructing)])]))
  {
  }

  /** A call goes through the table if and only if the process is watching and no LibraryContext is
      on the stack of the thread; otherwise it is forwarded. */
  lemma CheckDecides(s: System, t: nat)
    requires Inv(s) && t < |s.threads| && |s.threads[t].stack| > 0 && Top(s.threads[t].stack) == Resolving
    ensures var stack := s.threads[t].stack;
      var through := s.watching && !exists i :: 0 <= i < |stack| && HasContext(stack[i]);
      Take(s, t, Check) == Some(s.(threads := s.threads[t := s.threads[t].(
        stack := stack[..|stack| - 1] + [if through then Holding(Call, Constructing) else Forwarding])]))
  {
    hide WellStacked, Locks, InContext;
    assert ThreadInv(s, t);
    InContextIff(s.threads[t].stack);
  }

  /** Watching starts when it is started, and at no other step. */
  lemma WatchingStarts(s: System, t: nat, a: Action)
    requires t < |s.threads| && Take(s, t, a).Some?
    ensures Take(s, t, a).value.watching <==> s.watching || a == StartWatching
  {
  }

  /** The system with this thread's flag and stack, and this holder. */
  function At(s: System, t: nat, inLibrary: bool, stack: seq<Frame>, holder: Option<nat>): System
    requires t < |s.threads|
  {
    s.(threads := s.threads[t := Thread(inLibrary, stack)], holder := holder)
  }

  lemma OnTop(below: seq<Frame>, f: Frame)
    ensures Top(below + [f]) == f && Below(below + [f]) == below
  {
  }

  /** The thread goes on. */
  lemma Onwards(s: System, t: nat, inLibrary: bool, stack: seq<Frame>, holder: Option<nat>, thread: Thread)
    requires t < |s.threads|
    ensures At(s, t, inLibrary, stack, holder).threads[t := thread] == s.threads[t := thread]
  {
  }

  lemma EntersAt(s: System, t: nat, below: seq<Frame>)
    requires t < |s.threads| && s.watching && !s.failed
    ensures Take(At(s, t, false, below + [Resolving], None), t, Check) == Some(At(s, t, false, below + [Holding(Call, Constructing)], None))
    ensures Take(At(s, t, false, below + [Holding(Call, Constructing)], None), t, Construct) == Some(At(s, t, true, below + [Holding(Call, Waiting)], None))
  {
    OnTop(below, Resolving);
    OnTop(below, Holding(Call, Constructing));
    Onwards(s, t, false, below + [Resolving], None, Thread(false, below + [Holding(Call, Constructing)]));
    Onwards(s, t, false, below + [Holding(Call, Constructing)], None, Thread(true, below + [Holding(Call, Waiting)]));
  }

  lemma HoldsAt(s: System, t: nat, below: seq<Frame>)
    requires t < |s.threads| && !s.failed
    ensures Take(At(s, t, true, below + [Holding(Call, Waiting)], None), t, Acquire) == Some(At(s, t, true, below + [Holding(Call, Inside)], Some(t)))
    ensures Take(At(s, t, true, below + [Holding(Call, Inside)], Some(t)), t, Release) == Some(At(s, t, true, below + [Holding(Call, Destroying)], None))
  {
    OnTop(below, Holding(Call, Waiting));
    OnTop(below, Holding(Call, Inside));
    Onwards(s, t, true, below + [Holding(Call, Waiting)], None, Thread(true, below + [Holding(Call, Inside)]));
    Onwards(s, t, true, below + [Holding(Call, Inside)], Some(t), Thread(true, below + [Holding(Call, Destroying)]));
  }

  lemma LeavesAt(s: System, t: nat, below: seq<Frame>)
    requires t < |s.threads| && !s.failed
    ensures Take(At(s, t, true, below + [Holding(Call, Destroying)], None), t, Destroy) == Some(At(s, t, false, below, None))
  {
    OnTop(below, Holding(Call, Destroying));
    Onwards(s, t, true, below + [Holding(Call, Destroying)], None, Thread(false, below));
  }

  lemma TakeFirst(s: System, t: nat, a: Action, rest: seq<Action>, n: System)
    requires t < |s.threads| && Take(s, t, a) == Some(n) && t < |n.threads|
    ensures TakeAll(s, t, [a] + rest) == TakeAll(n, t, rest)
    ensures TakeAll(n, t, []) == Some(n)
  {
    hide Take;
    assert ([a] + rest)[1..] == rest;
  }

  /** A call that goes through sets the flag and takes the mutex when it is free. Then it works,
      gives the mutex up, clears the flag, and leaves everything else as it was. */
  lemma CallThrough(s: System, t: nat, below: seq<Frame>)
    requires Inv(s) && t < |s.threads| && s.threads[t] == Thread(false, below + [Resolving])
    requires s.watching && s.holder == None
    ensures TakeAll(s, t, [Check, Construct, Acquire]) ==
      Some(s.(threads := s.threads[t := Thread(true, below + [Holding(Call, Inside)])], holder := Some(t)))
    ensures TakeAll(s, t, [Check, Construct, Acquire, Release, Destroy]) == Some(s.(threads := s.threads[t := Thread(false, below)]))
  {
    hide Take, TakeAll, Inv;
    assert !s.failed by { NotFailed(s); }
    assert s == At(s, t, false, below + [Resolving], None);
    EntersAt(s, t, below);
    HoldsAt(s, t, below);
    LeavesAt(s, t, below);
    var a, b := At(s, t, false, below + [Holding(Call, Constructing)], None), At(s, t, true, below + [Holding(Call, Waiting)], None);
    var c, d := At(s, t, true, below + [Holding(Call, Inside)], Some(t)), At(s, t, true, below + [Holding(Call, Destroying)], None);
    FirstThree(s, t, a, b, c);
    TakeFirst(c, t, Release, [Destroy], d);
    TakeFirst(d, t, Destroy, [], At(s, t, false, below, None));
    assert [Release] + [Destroy] == [Release, Destroy] && [Destroy] + [] == [Destroy];
  }

  lemma NotFailed(s: System)
    requires Inv(s)
    ensures !s.failed
  {
  }

  lemma FirstThree(s: System, t: nat, a: System, b: System, c: System)
    requires t < |s.threads| == |a.threads| == |b.threads| == |c.threads|
    requires Take(s, t, Check) == Some(a) && Take(a, t, Construct) == Some(b) && Take(b, t, Acquire) == Some(c)
    ensures TakeAll(s, t, [Check, Construct, Acquire]) == Some(c)
    ensures TakeAll(s, t, [Check, Construct, Acquire, Release, Destroy]) == TakeAll(c, t, [Release, Destroy])
  {
    hide Take, TakeAll;
    TakeFirst(s, t, Check, [Construct, Acquire], a);
    TakeFirst(a, t, Construct, [Acquire], b);
    TakeFirst(b, t, Acquire, [], c);
    TakeFirst(s, t, Check, [Construct, Acquire, Release, Destroy], a);
    TakeFirst(a, t, Construct, [Acquire, Release, Destroy], b);
    TakeFirst(b, t, Acquire, [Release, Destroy], c);
    assert [Check] + [Construct, Acquire] == [Check, Construct, Acquire] && [Construct] + [Acquire] == [Construct, Acquire] && [Acquire] + [] == [Acquire];
    assert [Check] + [Construct, Acquire, Release, Destroy] == [Check, Construct, Acquire, Release, Destroy];
    assert [Construct] + [Acquire, Release, Destroy] == [Construct, Acquire, Release, Destroy];
    assert [Acquire] + [Release, Destroy] == [Acquire, Release, Destroy];
  }
}
