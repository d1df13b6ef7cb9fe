/**
  The two threads of detach_syscall_app.cpp as a system of interleaved steps over one mutex, two
  iteration counters and the exit flag. The mutex is taken by the main thread before the second
  thread exists and is first released by the second thread, so it works as a binary semaphore.
  Each step does at most one access to a variable that the other thread writes. The bound of the
  second thread's loop is `bound` (100 in the program).
 */
module DetachHandshake {
  import opened Prelude

  datatype MainPc =
    | FirstLock      // pthread_mutex_lock before the thread is created
    | Create
    | Lock           // top of the do loop
    | Increment
    | Compare        // iteration_main >= iteration_second
    | CheckExit      // ... && !shouldExit
    | YieldUnlock
    | YieldLock
    | Unlock
    | LoopExit       // while (!shouldExit)
    | MainDone

  datatype SecondPc =
    | NotCreated
    | Reset          // iteration_second = 0
    | LoopTest       // iteration_second < bound
    | Release
    | Count          // iteration_second++, outside the lock
    | Acquire
    | WaitTest       // iteration_second > iteration_main
    | WaitUnlock
    | WaitLock
    | LastUnlock
    | SetExit
    | SecondDone

  datatype State = State(locked: bool, main: nat, second: nat, exiting: bool, mpc: MainPc, spc: SecondPc)

  const INITIAL := State(false, 0, 0, false, FirstLock, NotCreated)

  function MainStep(s: State): Option<State> {
    match s.mpc
    case FirstLock => if s.locked then None else Some(s.(locked := true, mpc := Create))
    case Create => Some(s.(mpc := Lock, spc := Reset))
    case Lock => if s.locked then None else Some(s.(locked := true, mpc := Increment))
    case Increment => Some(s.(main := s.main + 1, mpc := Compare))
    case Compare => Some(s.(mpc := if s.main >= s.second then CheckExit else Unlock))
    case CheckExit => Some(s.(mpc := if s.exiting then Unlock else YieldUnlock))
    case YieldUnlock => Some(s.(locked := false, mpc := YieldLock))
    case YieldLock => if s.locked then None else Some(s.(locked := true, mpc := Compare))
    case Unlock => Some(s.(locked := false, mpc := LoopExit))
    case LoopExit => Some(s.(mpc := if s.exiting then MainDone else Lock))
    case MainDone => None
  }

  function SecondStep(bound: nat, s: State): Option<State> {
    match s.spc
    case NotCreated => None
    case Reset => Some(s.(second := 0, spc := LoopTest))
    case LoopTest => Some(s.(spc := if s.second < bound then Release else LastUnlock))
    case Release => Some(s.(locked := false, spc := Count))
    case Count => Some(s.(second := s.second + 1, spc := Acquire))
    case Acquire => if s.locked then None else Some(s.(locked := true, spc := WaitTest))
    case WaitTest => Some(s.(spc := if s.second > s.main then WaitUnlock else LoopTest))
    case WaitUnlock => Some(s.(locked := false, spc := WaitLock))
    case WaitLock => if s.locked then None else Some(s.(locked := true, spc := WaitTest))
    case LastUnlock => Some(s.(locked := false, spc := SetExit))
    case SetExit => Some(s.(exiting := true, spc := SecondDone))
    case SecondDone => None
  }

  datatype Thread = Main | Second

  function Step(bound: nat, s: State, t: Thread): Option<State> {
    if t.Main? then MainStep(s) else SecondStep(bound, s)
  }

  /** A thread that cannot move leaves the state as it is. */
  function Next(bound: nat, s: State, t: Thread): State {
    match Step(bound, s, t)
    case Some(after) => after
    case None => s
  }

  /** A run is a schedule of threads. */
  function Run(bound: nat, s: State, schedule: seq<Thread>): State {
    if schedule == [] then s
    else Next(bound, Run(bound, s, schedule[..|schedule| - 1]), schedule[|schedule| - 1])
  }

  predicate Finished(s: State) {
    s.mpc == MainDone && s.spc == SecondDone
  }

  // ---------- the invariant ----------

  predicate MainHolds(s: State) {
    match s.mpc
    case FirstLock | Lock | YieldLock | LoopExit | MainDone => false
    case _ => true
  }

  predicate SecondHolds(s: State) {
    match s.spc
    case Reset | LoopTest | Release | WaitTest | WaitUnlock | LastUnlock => true
    case _ => false
  }

  function Max(a: nat, b: nat): nat {
    if a < b then b else a
  }

  ghost predicate Invariant(bound: nat, s: State) {
    && MutexInvariant(s)
    && s.second <= bound
    && s.second <= s.main + 1 && s.main <= Max(s.second, 1)
    && (s.exiting <==> s.spc == SecondDone)
    && SecondInvariant(bound, s)
    && MainInvariant(s)
  }

  /** The mutex is locked exactly while one of the threads is in a section that it protects. */
  ghost predicate MutexInvariant(s: State) {
    && (s.locked <==> MainHolds(s) || SecondHolds(s))
    && !(MainHolds(s) && SecondHolds(s))
    && (s.spc.NotCreated? <==> s.mpc.FirstLock? || s.mpc.Create?)
  }

  ghost predicate SecondInvariant(bound: nat, s: State) {
    match s.spc
    case NotCreated => s.second == 0 && s.main == 0
    case Reset => s.second == 0
    case LoopTest => s.second <= s.main
    case Release => s.second <= s.main && s.second < bound
    case Count => s.second <= s.main && s.second < bound
    case LastUnlock => s.second == bound <= s.main
    case SetExit => s.second == bound <= s.main
    case SecondDone => s.second == bound <= s.main
    case _ => s.second >= 1
  }

  ghost predicate MainInvariant(s: State) {
    match s.mpc
    case FirstLock => s.main == 0
    case Create => s.main == 0
    case Lock => s.main == 0 || s.main < s.second
    case Increment => s.main == 0 || s.main < s.second
    case Unlock => s.main >= 1 && (s.main < s.second || s.exiting)
    case LoopExit => s.main >= 1 && (s.main < s.second || s.exiting)
    case MainDone => s.main >= 1 && s.exiting
    case _ => s.main >= 1
  }

  lemma MainStepKeepsInvariant(bound: nat, s: State)
    requires Invariant(bound, s) && MainStep(s).Some?
    ensures Invariant(bound, MainStep(s).value)
  {
    var t := MainStep(s).value;
    MainStepKeepsMutex(bound, s);
    MainStepKeepsCounters(bound, s);
    assert SecondInvariant(bound, t);
  }

  lemma MainStepKeepsMutex(bound: nat, s: State)
    requires Invariant(bound, s) && MainStep(s).Some?
    ensures MutexInvariant(MainStep(s).value)
  {
  }

  lemma MainStepKeepsCounters(bound: nat, s: State)
    requires Invariant(bound, s) && MainStep(s).Some?
    ensures
      var t := MainStep(s).value;
      t.second <= t.main + 1 && t.main <= Max(t.second, 1) && MainInvariant(t)
  {
  }

  lemma SecondStepKeepsInvariant(bound: nat, s: State)
    requires Invariant(bound, s) && SecondStep(bound, s).Some?
    ensures Invariant(bound, SecondStep(bound, s).value)
  {
    var t := SecondStep(bound, s).value;
    SecondStepKeepsMutex(bound, s);
    SecondStepKeepsCounters(bound, s);
    assert MainInvariant(t);
  }

  lemma SecondStepKeepsMutex(bound: nat, s: State)
    requires Invariant(bound, s) && SecondStep(bound, s).Some?
    ensures MutexInvariant(SecondStep(bound, s).value)
  {
  }

  lemma SecondStepKeepsCounters(bound: nat, s: State)
    requires Invariant(bound, s) && SecondStep(bound, s).Some?
    ensures
      var t := SecondStep(bound, s).value;
      && t.second <= t.main + 1 && t.main <= Max(t.second, 1) && t.second <= bound
      && SecondInvariant(bound, t)
  {
  }

  lemma StepKeepsInvariant(bound: nat, s: State, t: Thread)
    requires Invariant(bound, s) && Step(bound, s, t).Some?
    ensures Invariant(bound, Step(bound, s, t).value)
  {
    if t.Main? {
      MainStepKeepsInvariant(bound, s);
    } else {
      SecondStepKeepsInvariant(bound, s);
    }
  }

  lemma NextKeepsInvariant(bound: nat, s: State, t: Thread)
    requires Invariant(bound, s)
    ensures Invariant(bound, Next(bound, s, t))
  {
    if Step(bound, s, t).Some? {
      StepKeepsInvariant(bound, s, t);
    }
  }

  lemma {:induction false} RunKeepsInvariant(bound: nat, s: State, schedule: seq<Thread>)
    requires Invariant(bound, s)
    ensures Invariant(bound, Run(bound, s, schedule))
  {
    if schedule != [] {
      RunKeepsInvariant(bound, s, schedule[..|schedule| - 1]);
      NextKeepsInvariant(bound, Run(bound, s, schedule[..|schedule| - 1]), schedule[|schedule| - 1]);
    }
  }

  // ---------- safety over all interleavings ----------

  /** The counters stay within one round of each other. */
  lemma CountersStayClose(bound: nat, schedule: seq<Thread>)
    ensures
      var s := Run(bound, INITIAL, schedule);
      s.second <= s.main + 1 && s.main <= Max(s.second, 1) && s.second <= bound
  {
    RunKeepsInvariant(bound, INITIAL, schedule);
  }

  /** The mutex is never unlocked while it is free, and never protects both threads at once. */
  lemma UnlocksOnlyLocked(bound: nat, schedule: seq<Thread>)
    ensures
      var s := Run(bound, INITIAL, schedule);
      && (s.mpc in {YieldUnlock, Unlock} || s.spc in {Release, WaitUnlock, LastUnlock} ==> s.locked)
      && !(s.mpc in {YieldUnlock, Unlock} && s.spc in {Release, WaitUnlock, LastUnlock})
  {
    RunKeepsInvariant(bound, INITIAL, schedule);
  }

  /** Once the exit flag is set both counters equal the bound, provided that the bound is not zero. */
  lemma CountersAtExit(bound: nat, schedule: seq<Thread>)
    ensures
      var s := Run(bound, INITIAL, schedule);
      && (s.exiting ==> s.second == bound && s.main <= Max(bound, 1) && bound <= s.main)
      && (Finished(s) ==> s.second == bound && s.main == Max(bound, 1))
  {
    RunKeepsInvariant(bound, INITIAL, schedule);
  }

  /** At the end the two counters agree if and only if the bound is at least one. */
  lemma CountersAgreeExactly(bound: nat, schedule: seq<Thread>)
    requires Finished(Run(bound, INITIAL, schedule))
    ensures Run(bound, INITIAL, schedule).main == Run(bound, INITIAL, schedule).second <==> bound >= 1
  {
    CountersAtExit(bound, schedule);
  }

  // ---------- progress ----------

  /** The thread that the program waits for: the one that is behind, or main after the exit flag is set. */
  function Awaited(s: State): Thread {
    if s.exiting || s.second > s.main then Main else Second
  }

  function Other(t: Thread): Thread {
    if t.Main? then Second else Main
  }

  /** Steps until the main thread increments its counter, when it is behind. */
  function MainToIncrement(pc: MainPc): nat {
    match pc
    case CheckExit => 8
    case YieldUnlock => 7
    case YieldLock => 6
    case Compare => 5
    case Unlock => 4
    case LoopExit => 3
    case Lock => 2
    case _ => 1
  }

  /** Steps until the second thread counts or sets the exit flag, when it is not ahead. */
  function SecondToCount(pc: SecondPc): nat {
    match pc
    case NotCreated => 8
    case WaitUnlock => 6
    case WaitLock => 5
    case Acquire => 5
    case WaitTest => 4
    case Reset => 4
    case LoopTest => 3
    case Release => 2
    case LastUnlock => 2
    case _ => 1
  }

  /** Steps until the main thread ends, once the exit flag is set. */
  function MainToEnd(pc: MainPc): nat {
    match pc
    case Lock => 8
    case Increment => 7
    case YieldUnlock => 6
    case YieldLock => 5
    case Compare => 4
    case CheckExit => 3
    case Unlock => 2
    case LoopExit => 1
    case _ => 0
  }

  function ToGo(s: State): (d: nat)
    ensures d < 10
  {
    if s.exiting then MainToEnd(s.mpc)
    else if s.second > s.main then MainToIncrement(s.mpc)
    else SecondToCount(s.spc)
  }

  /** The work that is left: first the counting and the exit flag, then the way of the awaited thread to it. */
  function Left(bound: nat, s: State): int {
    10 * ((bound - s.second) + (Max(bound, 1) - s.main) + if s.exiting then 0 else 1) + ToGo(s)
  }

  /** Steps of the other thread until it has created the awaited one or given up the mutex. */
  function Blocking(s: State): nat {
    if Awaited(s).Main? then (match s.spc case WaitTest => 2 case WaitUnlock => 1 case _ => 0)
    else
      match s.mpc
      case FirstLock => 5
      case Create => 4
      case Increment => 4
      case Compare => 3
      case CheckExit => 2
      case YieldUnlock => 1
      case Unlock => 1
      case _ => 0
  }

  lemma NothingLeftAtEnd(bound: nat, s: State)
    requires Invariant(bound, s)
    ensures Left(bound, s) >= 0 && (Finished(s) <==> Left(bound, s) == 0)
  {
  }

  lemma AwaitedProgresses(bound: nat, s: State)
    requires Invariant(bound, s) && Step(bound, s, Awaited(s)).Some?
    ensures 0 <= Left(bound, Next(bound, s, Awaited(s))) < Left(bound, s)
  {
    if Awaited(s).Main? {
      MainProgresses(bound, s);
    } else {
      SecondProgresses(bound, s);
    }
    NextKeepsInvariant(bound, s, Awaited(s));
    NothingLeftAtEnd(bound, Next(bound, s, Awaited(s)));
  }

  lemma MainProgresses(bound: nat, s: State)
    requires Invariant(bound, s) && MainStep(s).Some? && Awaited(s).Main?
    ensures Left(bound, MainStep(s).value) < Left(bound, s)
  {
  }

  lemma SecondProgresses(bound: nat, s: State)
    requires Invariant(bound, s) && SecondStep(bound, s).Some? && Awaited(s).Second?
    ensures Left(bound, SecondStep(bound, s).value) < Left(bound, s)
  {
  }

  lemma NothingUndone(bound: nat, s: State, t: Thread)
    requires Invariant(bound, s)
    ensures Left(bound, Next(bound, s, t)) <= Left(bound, s)
    ensures Left(bound, Next(bound, s, t)) == Left(bound, s) ==> Awaited(Next(bound, s, t)) == Awaited(s)
  {
    if t == Awaited(s) && Step(bound, s, t).Some? {
      AwaitedProgresses(bound, s);
    }
  }

  /** When the awaited thread cannot move, the other one can, and gets closer to letting it. */
  lemma OtherUnblocks(bound: nat, s: State)
    requires Invariant(bound, s) && !Finished(s) && Step(bound, s, Awaited(s)).None?
    ensures Step(bound, s, Other(Awaited(s))).Some?
    ensures
      var next := Next(bound, s, Other(Awaited(s)));
      Left(bound, next) < Left(bound, s) || Blocking(next) < Blocking(s)
  {
  }

  /** No reachable unfinished state is a deadlock. */
  lemma NoDeadlock(bound: nat, schedule: seq<Thread>)
    requires !Finished(Run(bound, INITIAL, schedule))
    ensures exists t :: Step(bound, Run(bound, INITIAL, schedule), t).Some?
  {
    RunKeepsInvariant(bound, INITIAL, schedule);
    var s := Run(bound, INITIAL, schedule);
    if Step(bound, s, Awaited(s)).None? {
      OtherUnblocks(bound, s);
    }
  }

  /** Either less is left, or as much, and the other thread is closer to letting the same one move. */
  ghost predicate Closer(bound: nat, before: State, after: State) {
    || Left(bound, after) < Left(bound, before)
    || (&& Left(bound, after) == Left(bound, before) && Awaited(after) == Awaited(before)
        && !Finished(after) && Blocking(after) < Blocking(before))
  }

  lemma OtherGetsCloser(bound: nat, s: State)
    requires Invariant(bound, s) && !Finished(s) && Step(bound, s, Awaited(s)).None?
    ensures Step(bound, s, Other(Awaited(s))).Some? && Closer(bound, s, Next(bound, s, Other(Awaited(s))))
  {
    var t := Other(Awaited(s));
    OtherUnblocks(bound, s);
    NothingUndone(bound, s, t);
    NextKeepsInvariant(bound, s, t);
    NothingLeftAtEnd(bound, s);
    NothingLeftAtEnd(bound, Next(bound, s, t));
  }

  /** Whatever has happened so far, some continuation of the schedule finishes both threads. */
  lemma {:induction false} CanAlwaysFinish(bound: nat, s: State) returns (rest: seq<Thread>)
    requires Invariant(bound, s)
    ensures Finished(Run(bound, s, rest))
    decreases Left(bound, s), Blocking(s)
  {
    if Finished(s) {
      return [];
    }
    var t := Awaited(s);
    if Step(bound, s, t).Some? {
      AwaitedProgresses(bound, s);
    } else {
      OtherGetsCloser(bound, s);
      t := Other(t);
    }
    NextKeepsInvariant(bound, s, t);
    var tail := CanAlwaysFinish(bound, Next(bound, s, t));
    rest := [t] + tail;
    RunFirst(bound, s, t, tail);
  }

  lemma {:induction false} RunFirst(bound: nat, s: State, t: Thread, tail: seq<Thread>)
    ensures Run(bound, s, [t] + tail) == Run(bound, Next(bound, s, t), tail)
  {
    var all := [t] + tail;
    if tail == [] {
      assert all[..0] == [];
    } else {
      assert all[..|all| - 1] == [t] + tail[..|tail| - 1];
      RunFirst(bound, s, t, tail[..|tail| - 1]);
    }
  }

  /** From every reachable state the program can still reach its end. */
  lemma EveryRunCanFinish(bound: nat, schedule: seq<Thread>)
    ensures exists rest :: Finished(Run(bound, Run(bound, INITIAL, schedule), rest))
  {
    RunKeepsInvariant(bound, INITIAL, schedule);
    var rest := CanAlwaysFinish(bound, Run(bound, INITIAL, schedule));
  }

  // ---------- infinite runs ----------

  type Schedule = nat -> Thread
  type Trace = nat -> State

  /** The states of an infinite run. */
  ghost predicate IsRun(bound: nat, sched: Schedule, at: Trace) {
    at(0) == INITIAL && forall n: nat :: at(n + 1) == Next(bound, at(n), sched(n))
  }

  lemma {:induction false} InvariantAt(bound: nat, sched: Schedule, at: Trace, n: nat)
    requires IsRun(bound, sched, at)
    ensures Invariant(bound, at(n))
  {
    if n > 0 {
      InvariantAt(bound, sched, at, n - 1);
      assert at((n - 1) + 1) == Next(bound, at(n - 1), sched(n - 1));
      NextKeepsInvariant(bound, at(n - 1), sched(n - 1));
    }
  }

  ghost predicate EnabledFrom(bound: nat, at: Trace, i: nat, t: Thread) {
    exists k :: i <= k && Step(bound, at(k), t).Some?
  }

  ghost predicate MovesFrom(bound: nat, sched: Schedule, at: Trace, i: nat, t: Thread) {
    exists k :: i <= k && Step(bound, at(k), t).Some? && sched(k) == t
  }

  ghost predicate EnabledAgain(bound: nat, at: Trace, i: nat, t: Thread) {
    forall j :: i <= j ==> EnabledFrom(bound, at, j, t)
  }

  /** Strong fairness: a thread that can move again and again does move. */
  ghost predicate Fair(bound: nat, sched: Schedule, at: Trace) {
    forall t, i :: EnabledAgain(bound, at, i, t) ==> MovesFrom(bound, sched, at, i, t)
  }

  lemma OnlyMover(bound: nat, s: State, t: Thread, u: Thread)
    requires Step(bound, s, Other(t)).None? && u != t
    ensures Next(bound, s, u) == s
  {
    assert u == Other(t);
  }

  lemma {:induction false} Unmoved(bound: nat, sched: Schedule, at: Trace, i: nat, j: nat, t: Thread)
    requires IsRun(bound, sched, at) && i <= j && Step(bound, at(i), Other(t)).None?
    requires forall k :: i <= k && at(k) == at(i) ==> sched(k) != t
    ensures at(j) == at(i)
  {
    if i < j {
      Unmoved(bound, sched, at, i, j - 1, t);
      OnlyMover(bound, at(j - 1), t, sched(j - 1));
      assert at((j - 1) + 1) == Next(bound, at(j - 1), sched(j - 1));
    }
  }

  /** When only one thread can move, the state stays the same until it does. */
  lemma OnlyMoverMoves(bound: nat, sched: Schedule, at: Trace, i: nat, t: Thread) returns (k: nat)
    requires IsRun(bound, sched, at) && Fair(bound, sched, at)
    requires Step(bound, at(i), t).Some? && Step(bound, at(i), Other(t)).None?
    ensures i <= k && at(k) == at(i) && sched(k) == t
  {
    if forall k :: i <= k && at(k) == at(i) ==> sched(k) != t {
      forall j | i <= j ensures EnabledFrom(bound, at, j, t) && sched(j) != t {
        Unmoved(bound, sched, at, i, j, t);
      }
      var moves := MovesFrom(bound, sched, at, i, t);
      assert false;
    }
    k :| i <= k && at(k) == at(i) && sched(k) == t;
  }

  lemma Unblocked(bound: nat, sched: Schedule, at: Trace, i: nat) returns (k: nat)
    requires IsRun(bound, sched, at) && Fair(bound, sched, at)
    requires !Finished(at(i)) && Step(bound, at(i), Awaited(at(i))).None?
    ensures i <= k && Closer(bound, at(i), at(k))
  {
    InvariantAt(bound, sched, at, i);
    OtherGetsCloser(bound, at(i));
    k := OnlyMoverMoves(bound, sched, at, i, Other(Awaited(at(i))));
    assert at(k + 1) == Next(bound, at(k), sched(k));
    k := k + 1;
  }

  /** Some time later either less is left, or the awaited thread can move. */
  lemma {:induction false} AwaitedEnabled(bound: nat, sched: Schedule, at: Trace, i: nat) returns (k: nat)
    requires IsRun(bound, sched, at) && Fair(bound, sched, at) && !Finished(at(i))
    ensures i <= k
    ensures Left(bound, at(k)) < Left(bound, at(i)) || Step(bound, at(k), Awaited(at(i))).Some?
    decreases Blocking(at(i))
  {
    k := i;
    if Step(bound, at(i), Awaited(at(i))).None? {
      k := Unblocked(bound, sched, at, i);
      if Left(bound, at(k)) == Left(bound, at(i)) {
        k := AwaitedEnabled(bound, sched, at, k);
      }
    }
  }

  /** Nothing is undone, and as long as as much is left the same thread is awaited. */
  ghost predicate NoFurther(bound: nat, before: State, after: State) {
    && Left(bound, after) <= Left(bound, before)
    && (Left(bound, after) == Left(bound, before) ==>
          Awaited(after) == Awaited(before) && (Finished(after) ==> Finished(before)))
  }

  lemma NextNoFurther(bound: nat, s: State, t: Thread)
    requires Invariant(bound, s)
    ensures NoFurther(bound, s, Next(bound, s, t))
  {
    NothingUndone(bound, s, t);
    NextKeepsInvariant(bound, s, t);
    NothingLeftAtEnd(bound, s);
    NothingLeftAtEnd(bound, Next(bound, s, t));
  }

  lemma {:induction false} NeverFurther(bound: nat, sched: Schedule, at: Trace, i: nat, j: nat)
    requires IsRun(bound, sched, at) && i <= j
    ensures NoFurther(bound, at(i), at(j))
  {
    if i < j {
      NeverFurther(bound, sched, at, i, j - 1);
      InvariantAt(bound, sched, at, j - 1);
      NextNoFurther(bound, at(j - 1), sched(j - 1));
      assert at((j - 1) + 1) == Next(bound, at(j - 1), sched(j - 1));
    }
  }

  /** While nothing gets less the awaited thread can move again and again, and so it does. */
  lemma AwaitedMoves(bound: nat, sched: Schedule, at: Trace, i: nat) returns (k: nat)
    requires IsRun(bound, sched, at) && Fair(bound, sched, at) && !Finished(at(i))
    requires forall j :: i <= j ==> Left(bound, at(j)) >= Left(bound, at(i))
    ensures i <= k && Awaited(at(k)) == sched(k) && Step(bound, at(k), sched(k)).Some?
  {
    forall j | i <= j ensures EnabledFrom(bound, at, j, Awaited(at(i))) {
      NeverFurther(bound, sched, at, i, j);
      var later := AwaitedEnabled(bound, sched, at, j);
      assert Left(bound, at(later)) >= Left(bound, at(i));
    }
    assert MovesFrom(bound, sched, at, i, Awaited(at(i)));
    k :| i <= k && Step(bound, at(k), Awaited(at(i))).Some? && sched(k) == Awaited(at(i));
    NeverFurther(bound, sched, at, i, k);
  }

  /** In a fair run less is left some time later, as long as the program has not finished. */
  lemma LessLeftLater(bound: nat, sched: Schedule, at: Trace, i: nat) returns (k: nat)
    requires IsRun(bound, sched, at) && Fair(bound, sched, at) && !Finished(at(i))
    ensures Left(bound, at(k)) < Left(bound, at(i))
  {
    if forall j :: i <= j ==> Left(bound, at(j)) >= Left(bound, at(i)) {
      k := AwaitedMoves(bound, sched, at, i);
      NeverFurther(bound, sched, at, i, k);
      InvariantAt(bound, sched, at, k);
      assert at(k + 1) == Next(bound, at(k), sched(k));
      AwaitedProgresses(bound, at(k));
    } else {
      k :| i <= k && Left(bound, at(k)) < Left(bound, at(i));
    }
  }

  lemma {:induction false} Finishes(bound: nat, sched: Schedule, at: Trace, i: nat) returns (n: nat)
    requires IsRun(bound, sched, at) && Fair(bound, sched, at)
    ensures Finished(at(n))
    decreases Left(bound, at(i))
  {
    n := i;
    if !Finished(at(i)) {
      n := LessLeftLater(bound, sched, at, i);
      InvariantAt(bound, sched, at, n);
      NothingLeftAtEnd(bound, at(n));
      n := Finishes(bound, sched, at, n);
    }
  }

  /** Every fair run ends both threads, with the counters as promised. */
  lemma FairRunsFinish(bound: nat, sched: Schedule, at: Trace)
    requires IsRun(bound, sched, at) && Fair(bound, sched, at)
    ensures exists n :: Finished(at(n)) && at(n).second == bound && at(n).main == Max(bound, 1)
  {
    var n := Finishes(bound, sched, at, 0);
    InvariantAt(bound, sched, at, n);
  }

  lemma {:induction false} StaysFinished(bound: nat, sched: Schedule, at: Trace, n: nat, k: nat)
    requires IsRun(bound, sched, at) && Finished(at(n)) && n <= k
    ensures Finished(at(k))
  {
    if n < k {
      StaysFinished(bound, sched, at, n, k - 1);
      assert at((k - 1) + 1) == Next(bound, at(k - 1), sched(k - 1));
    }
  }

  lemma NotForEver(bound: nat, sched: Schedule, at: Trace, n: nat, i: nat, t: Thread)
    requires IsRun(bound, sched, at) && Finished(at(n))
    ensures !EnabledAgain(bound, at, i, t)
  {
    var j := if i <= n then n else i;
    forall k | j <= k ensures Step(bound, at(k), t).None? {
      StaysFinished(bound, sched, at, n, k);
    }
    assert !EnabledFrom(bound, at, j, t);
  }

  /** No thread can move after the end, so a run that ends is fair. */
  lemma FinishedRunsAreFair(bound: nat, sched: Schedule, at: Trace, n: nat)
    requires IsRun(bound, sched, at) && Finished(at(n))
    ensures Fair(bound, sched, at)
  {
    forall t, i ensures !EnabledAgain(bound, at, i, t) {
      NotForEver(bound, sched, at, n, i, t);
    }
  }

  /** A run ends both threads if and only if it is fair. */
  lemma FinishesExactly(bound: nat, sched: Schedule, at: Trace)
    requires IsRun(bound, sched, at)
    ensures Fair(bound, sched, at) <==> exists n :: Finished(at(n))
  {
    if Fair(bound, sched, at) {
      FairRunsFinish(bound, sched, at);
    }
    if n :| Finished(at(n)) {
      FinishedRunsAreFair(bound, sched, at, n);
    }
  }

  // ---------- weak fairness is not enough ----------

  /** Main locks the mutex again each time before the second thread tries to. */
  function Starving(n: nat): Thread {
    if n < 2 then Main
    else if n < 6 then Second
    else if n < 9 then Main
    else if n % 5 == 0 then Second
    else Main
  }

  function Starved(n: nat): State {
    if n < 2 then INITIAL.(locked := n == 1, mpc := if n == 0 then FirstLock else Create)
    else if n < 6 then
      State(n < 5, 0, 0, false, Lock, match n case 2 => Reset case 3 => LoopTest case 4 => Release case _ => Count)
    else if n < 8 then
      State(n == 7, 0, 1, false, if n == 6 then Lock else Increment, Acquire)
    else
      State(n % 5 != 2, 1, 1, false,
            match n % 5 case 3 => Compare case 4 => CheckExit case 0 => YieldUnlock case 1 => YieldUnlock case _ => YieldLock,
            Acquire)
  }

  ghost predicate HasTurnFrom(sched: Schedule, i: nat, t: Thread) {
    exists k :: i <= k && sched(k) == t
  }

  /** Both threads have their turns for ever, and yet no round is ever completed. */
  lemma WeakFairnessIsNotEnough(bound: nat)
    requires bound >= 1
    ensures IsRun(bound, Starving, Starved)
    ensures forall t, i :: HasTurnFrom(Starving, i, t)
    ensures forall n :: !Finished(Starved(n))
  {
    forall n: nat ensures Starved(n + 1) == Next(bound, Starved(n), Starving(n)) {
      if n >= 8 {
        assert n % 5 in {0, 1, 2, 3, 4};
      }
    }
    forall t, i ensures HasTurnFrom(Starving, i, t) {
      var k := if t.Second? then 5 * i + 10 else 5 * i + 11;
      assert k % 5 == if t.Second? then 0 else 1;
      assert i <= k && Starving(k) == t;
    }
  }
}
