/**
  The lock hand-over of change_mask_app.cpp: the receiver and the sender pass a turn to each other
  through two mutexes that main locks before it creates them. Signals, masks and files are left
  out; whether a signal was received in a round, and whether the tool has changed the mask yet,
  are choices of the schedule. The receiver's loop bound is `bound` (10 in the program).
 */
module SignalHandshake {
  import opened Prelude

  datatype MainPc = LockFirst | LockSecond | CreateSender | CreateReceiver | JoinReceiver | LastUnlock | JoinSender | MainDone

  datatype SenderPc =
    | SenderNotCreated
    | FirstLock      // lock(mutex) before the loop
    | Kill           // top of the do loop: send both signals, look at iteration
    | WaitTool       // while (!WaitChangeSigmask()) sched_yield()
    | Pass           // unlock(mutex1)
    | NextLock       // lock(mutex)
    | Alive          // while the receiver is alive
    | SenderDone

  datatype ReceiverPc =
    | ReceiverNotCreated
    | LoopTest       // iteration < bound
    | Receive        // wait for a signal, perhaps count it
    | Hand           // unlock(mutex)
    | WaitTurn       // lock(mutex1)
    | ReceiverDone

  /** `sent` and `received` count the completed rounds of the two loops. */
  datatype State = State(
    locked: bool, locked1: bool, iteration: nat, maskChanged: bool,
    mpc: MainPc, spc: SenderPc, rpc: ReceiverPc, sent: nat, received: nat)

  const INITIAL := State(false, false, 0, false, LockFirst, SenderNotCreated, ReceiverNotCreated, 0, 0)

  function MainStep(s: State): Option<State> {
    match s.mpc
    case LockFirst => if s.locked then None else Some(s.(locked := true, mpc := LockSecond))
    case LockSecond => if s.locked1 then None else Some(s.(locked1 := true, mpc := CreateSender))
    case CreateSender => Some(s.(mpc := CreateReceiver, spc := FirstLock))
    case CreateReceiver => Some(s.(mpc := JoinReceiver, rpc := LoopTest))
    case JoinReceiver => if s.rpc.ReceiverDone? then Some(s.(mpc := LastUnlock)) else None
    case LastUnlock => Some(s.(locked := false, mpc := JoinSender))
    case JoinSender => if s.spc.SenderDone? then Some(s.(mpc := MainDone)) else None
    case MainDone => None
  }

  function SenderStep(s: State, toolReady: bool): Option<State> {
    match s.spc
    case SenderNotCreated => None
    case FirstLock => if s.locked then None else Some(s.(locked := true, spc := Kill))
    case Kill =>
      if s.iteration == 2 && !s.maskChanged then Some(s.(maskChanged := true, spc := WaitTool))
      else Some(s.(spc := Pass))
    case WaitTool => Some(if toolReady then s.(spc := Pass) else s)
    case Pass => Some(s.(locked1 := false, spc := NextLock, sent := s.sent + 1))
    case NextLock => if s.locked then None else Some(s.(locked := true, spc := Alive))
    case Alive => Some(s.(spc := if s.rpc.ReceiverDone? then SenderDone else Kill))
    case SenderDone => None
  }

  function ReceiverStep(bound: nat, s: State, gotSignal: bool): Option<State> {
    match s.rpc
    case ReceiverNotCreated => None
    case LoopTest => Some(s.(rpc := if s.iteration < bound then Receive else ReceiverDone))
    case Receive => Some(s.(rpc := Hand, iteration := if gotSignal then s.iteration + 1 else s.iteration))
    case Hand => Some(s.(locked := false, rpc := WaitTurn, received := s.received + 1))
    case WaitTurn => if s.locked1 then None else Some(s.(locked1 := true, rpc := LoopTest))
    case ReceiverDone => None
  }

  datatype Move = Main | Sender(toolReady: bool) | Receiver(gotSignal: bool)

  function Step(bound: nat, s: State, m: Move): Option<State> {
    match m
    case Main => MainStep(s)
    case Sender(toolReady) => SenderStep(s, toolReady)
    case Receiver(gotSignal) => ReceiverStep(bound, s, gotSignal)
  }

  /** A thread that cannot move leaves the state as it is. */
  function Next(bound: nat, s: State, m: Move): State {
    match Step(bound, s, m)
    case Some(after) => after
    case None => s
  }

  /** A run is a schedule of moves. */
  function Run(bound: nat, s: State, schedule: seq<Move>): State {
    if schedule == [] then s
    else Next(bound, Run(bound, s, schedule[..|schedule| - 1]), schedule[|schedule| - 1])
  }

  predicate Finished(s: State) {
    s.mpc.MainDone? && s.spc.SenderDone? && s.rpc.ReceiverDone?
  }

  // ---------- the turn ----------

  predicate SenderInRound(s: State) {
    s.spc.Kill? || s.spc.WaitTool? || s.spc.Pass? || s.spc.Alive?
  }

  /** Before it is created the receiver already owns the first turn. */
  predicate ReceiverInRound(s: State) {
    s.rpc.ReceiverNotCreated? || s.rpc.LoopTest? || s.rpc.Receive? || s.rpc.Hand?
  }

  predicate SettingUp(s: State) {
    s.mpc.LockFirst? || s.mpc.LockSecond?
  }

  function Count(b: bool): nat {
    if b then 1 else 0
  }

  /** How many of the four places hold the turn. */
  function Turns(s: State): nat {
    Count(!s.locked) + Count(!s.locked1) + Count(SenderInRound(s)) + Count(ReceiverInRound(s))
  }

  ghost predicate Invariant(bound: nat, s: State) {
    && SetUpInvariant(s)
    && IterationInvariant(bound, s)
    && if !s.rpc.ReceiverDone? then TurnInvariant(s)
       else if bound >= 1 then EndInvariant(s)
       else StuckInvariant(s)
  }

  ghost predicate SetUpInvariant(s: State) {
    && (SettingUp(s) ==> s == INITIAL.(locked := s.mpc.LockSecond?, mpc := s.mpc))
    && (s.spc.SenderNotCreated? <==> SettingUp(s) || s.mpc.CreateSender?)
    && (s.rpc.ReceiverNotCreated? <==> SettingUp(s) || s.mpc.CreateSender? || s.mpc.CreateReceiver?)
  }

  ghost predicate IterationInvariant(bound: nat, s: State) {
    && s.iteration <= bound
    && s.iteration <= s.received + Count(s.rpc.Hand?)
    && (s.rpc.Receive? ==> s.iteration < bound)
    && (s.rpc.Hand? || s.rpc.WaitTurn? || s.received >= 1 ==> bound >= 1)
    && (s.rpc.ReceiverDone? ==> s.iteration == bound)
  }

  /** While the receiver is in its loop: one turn, and the round counts say where it is. */
  ghost predicate TurnInvariant(s: State) {
    && (!SettingUp(s) ==> Turns(s) == 1)
    && s.sent <= s.received <= s.sent + 1
    && (s.received == s.sent + 1 <==> s.rpc.WaitTurn? && s.locked1)
    && (s.sent >= 1 ==> !(s.spc.SenderNotCreated? || s.spc.FirstLock?))
    && (s.sent == 0 ==> !(s.spc.NextLock? || s.spc.Alive?))
    && !s.spc.SenderDone?
    && !(s.mpc.LastUnlock? || s.mpc.JoinSender? || s.mpc.MainDone?)
  }

  /** After the receiver has left its loop; there has been at least one round. */
  ghost predicate EndInvariant(s: State) {
    && s.sent == s.received >= 1 && s.locked1
    && (s.mpc.JoinReceiver? || s.mpc.LastUnlock? ==> s.locked && s.spc.NextLock?)
    && (s.mpc.JoinSender? || s.mpc.MainDone? ==>
          && (s.spc.NextLock? || s.spc.Alive? || s.spc.SenderDone?)
          && (s.spc.NextLock? <==> !s.locked))
    && (s.mpc.MainDone? ==> s.spc.SenderDone?)
  }

  /** After a receiver without rounds has ended: the sender makes one round and waits for the mutex for ever. */
  ghost predicate StuckInvariant(s: State) {
    && s.received == 0
    && (s.spc.FirstLock? || s.spc.Kill? || s.spc.Pass? || s.spc.NextLock?)
    && (s.spc.NextLock? <==> !s.locked1)
    && (s.mpc.JoinReceiver? || s.mpc.LastUnlock? || s.mpc.JoinSender?)
    && (s.mpc.JoinSender? && s.spc.FirstLock? <==> !s.locked)
    && (!s.mpc.JoinSender? ==> s.spc.FirstLock?)
    && s.sent == Count(s.spc.NextLock?)
  }

  lemma MainStepKeepsInvariant(bound: nat, s: State)
    requires Invariant(bound, s) && MainStep(s).Some?
    ensures Invariant(bound, MainStep(s).value)
  {
    if s.rpc.ReceiverDone? {
      MainStepAtEnd(bound, s);
    } else {
      MainStepInTurn(bound, s);
    }
  }

  lemma MainStepAtEnd(bound: nat, s: State)
    requires Invariant(bound, s) && MainStep(s).Some? && s.rpc.ReceiverDone?
    ensures Invariant(bound, MainStep(s).value)
  {
  }

  lemma MainStepInTurn(bound: nat, s: State)
    requires Invariant(bound, s) && MainStep(s).Some? && !s.rpc.ReceiverDone?
    ensures Invariant(bound, MainStep(s).value)
  {
  }

  lemma SenderStepKeepsInvariant(bound: nat, s: State, toolReady: bool)
    requires Invariant(bound, s) && SenderStep(s, toolReady).Some?
    ensures Invariant(bound, SenderStep(s, toolReady).value)
  {
    if s.rpc.ReceiverDone? {
      SenderStepAtEnd(bound, s, toolReady);
    } else {
      SenderStepInTurn(bound, s, toolReady);
    }
  }

  lemma SenderStepAtEnd(bound: nat, s: State, toolReady: bool)
    requires Invariant(bound, s) && SenderStep(s, toolReady).Some? && s.rpc.ReceiverDone?
    ensures Invariant(bound, SenderStep(s, toolReady).value)
  {
  }

  lemma SenderStepInTurn(bound: nat, s: State, toolReady: bool)
    requires Invariant(bound, s) && SenderStep(s, toolReady).Some? && !s.rpc.ReceiverDone?
    ensures Invariant(bound, SenderStep(s, toolReady).value)
  {
  }

  lemma ReceiverStepKeepsInvariant(bound: nat, s: State, gotSignal: bool)
    requires Invariant(bound, s) && ReceiverStep(bound, s, gotSignal).Some?
    ensures Invariant(bound, ReceiverStep(bound, s, gotSignal).value)
  {
  }

  lemma StepKeepsInvariant(bound: nat, s: State, m: Move)
    requires Invariant(bound, s) && Step(bound, s, m).Some?
    ensures Invariant(bound, Step(bound, s, m).value)
  {
    match m {
      case Main => MainStepKeepsInvariant(bound, s);
      case Sender(toolReady) => SenderStepKeepsInvariant(bound, s, toolReady);
      case Receiver(gotSignal) => ReceiverStepKeepsInvariant(bound, s, gotSignal);
    }
  }

  lemma {:induction false} RunKeepsInvariant(bound: nat, s: State, schedule: seq<Move>)
    requires Invariant(bound, s)
    ensures Invariant(bound, Run(bound, s, schedule))
  {
    if schedule != [] {
      var before, m := Run(bound, s, schedule[..|schedule| - 1]), schedule[|schedule| - 1];
      RunKeepsInvariant(bound, s, schedule[..|schedule| - 1]);
      if Step(bound, before, m).Some? {
        StepKeepsInvariant(bound, before, m);
      }
    }
  }

  // ---------- safety over all interleavings ----------

  /**
    From the set-up until the receiver leaves its loop exactly one of the four places has the turn,
    so rounds alternate, the receiver's first, and the round counts differ by at most one.
   */
  lemma OneTurn(bound: nat, schedule: seq<Move>)
    ensures
      var s := Run(bound, INITIAL, schedule);
      !SettingUp(s) && !s.rpc.ReceiverDone? ==> Turns(s) == 1 && s.sent <= s.received <= s.sent + 1
  {
    RunKeepsInvariant(bound, INITIAL, schedule);
  }

  /** The sender never looks at the iteration counter while the receiver may be writing it. */
  lemma NoRace(bound: nat, schedule: seq<Move>)
    ensures
      var s := Run(bound, INITIAL, schedule);
      !(s.spc.Kill? && s.rpc.Receive?)
  {
    RunKeepsInvariant(bound, INITIAL, schedule);
  }

  /** A mutex is never unlocked while it is free, and the two unlocks of one mutex never compete. */
  lemma UnlocksOnlyLocked(bound: nat, schedule: seq<Move>)
    ensures
      var s := Run(bound, INITIAL, schedule);
      && (s.rpc.Hand? || s.mpc.LastUnlock? ==> s.locked)
      && (s.spc.Pass? ==> s.locked1)
      && !(s.rpc.Hand? && s.mpc.LastUnlock?)
  {
    RunKeepsInvariant(bound, INITIAL, schedule);
  }

  /** The counter never passes the bound, ends on it, and needs at least as many rounds. */
  lemma IterationAtEnd(bound: nat, schedule: seq<Move>)
    ensures
      var s := Run(bound, INITIAL, schedule);
      && s.iteration <= bound
      && (s.rpc.ReceiverDone? ==> s.iteration == bound <= s.received)
      && (Finished(s) ==> s.sent == s.received)
  {
    RunKeepsInvariant(bound, INITIAL, schedule);
  }

  // ---------- what the counters count ----------

  /** How many of the moves of a schedule are made at a given moment of the run. */
  function Times(bound: nat, schedule: seq<Move>, moment: (State, Move) -> bool): nat {
    if schedule == [] then 0
    else
      var before, m := schedule[..|schedule| - 1], schedule[|schedule| - 1];
      Times(bound, before, moment) + if moment(Run(bound, INITIAL, before), m) then 1 else 0
  }

  predicate GetsSignal(s: State, m: Move) {
    s.rpc == Receive && m == Receiver(true)
  }

  predicate HandsOver(s: State, m: Move) {
    s.rpc == Hand && m.Receiver?
  }

  predicate PassesOn(s: State, m: Move) {
    s.spc == Pass && m.Sender?
  }

  lemma StepCounts(bound: nat, s: State, m: Move)
    ensures
      var t := Next(bound, s, m);
      && t.iteration == s.iteration + Count(GetsSignal(s, m))
      && t.received == s.received + Count(HandsOver(s, m))
      && t.sent == s.sent + Count(PassesOn(s, m))
  {
  }

  /** In every run iteration is the number of rounds in which a signal came, and the rounds are counted right. */
  lemma {:induction false} CountersExact(bound: nat, schedule: seq<Move>)
    ensures
      var s := Run(bound, INITIAL, schedule);
      && s.iteration == Times(bound, schedule, GetsSignal)
      && s.received == Times(bound, schedule, HandsOver)
      && s.sent == Times(bound, schedule, PassesOn)
  {
    if schedule != [] {
      var before, m := schedule[..|schedule| - 1], schedule[|schedule| - 1];
      CountersExact(bound, before);
      StepCounts(bound, Run(bound, INITIAL, before), m);
    }
  }

  /** The sender looks at iteration and sees 2. */
  predicate SeesTwo(s: State, m: Move) {
    s.spc == Kill && s.iteration == 2 && m.Sender?
  }

  predicate ToolReady(s: State, m: Move) {
    s.spc == WaitTool && m == Sender(true)
  }

  /** The sender has seen an iteration of 2, or not; and if so, has been let go by the tool, or not. */
  ghost predicate Awaits(s: State, seen: nat, ready: nat) {
    && (s.maskChanged <==> seen >= 1)
    && (s.spc.WaitTool? <==> seen >= 1 && ready == 0)
    && (s.spc.WaitTool? ==> s.iteration == 2)
    && ready <= 1 && ready <= seen
  }

  lemma StepAwaits(bound: nat, s: State, m: Move, seen: nat, ready: nat)
    requires Invariant(bound, s) && Awaits(s, seen, ready)
    ensures Awaits(Next(bound, s, m), seen + Count(SeesTwo(s, m)), ready + Count(ToolReady(s, m)))
  {
  }

  /**
    In every run the sender waits for the tool once, from the first time that it sees an iteration
    of 2 until the tool is ready.
   */
  lemma {:induction false} ToolIsAwaitedOnce(bound: nat, schedule: seq<Move>)
    ensures
      var s := Run(bound, INITIAL, schedule);
      && (s.maskChanged <==> Times(bound, schedule, SeesTwo) >= 1)
      && (s.spc.WaitTool? <==> Times(bound, schedule, SeesTwo) >= 1 && Times(bound, schedule, ToolReady) == 0)
      && (s.spc.WaitTool? ==> s.iteration == 2)
      && Times(bound, schedule, ToolReady) <= 1
      && Times(bound, schedule, ToolReady) <= Times(bound, schedule, SeesTwo)
  {
    if schedule != [] {
      var before, m := schedule[..|schedule| - 1], schedule[|schedule| - 1];
      ToolIsAwaitedOnce(bound, before);
      RunKeepsInvariant(bound, INITIAL, before);
      StepAwaits(bound, Run(bound, INITIAL, before), m, Times(bound, before, SeesTwo), Times(bound, before, ToolReady));
    }
  }

  // ---------- every reachable state can still finish ----------

  function MainLeft(pc: MainPc): (d: nat)
    ensures d <= 4
  {
    match pc
    case LockFirst => 4
    case LockSecond => 3
    case CreateSender => 2
    case CreateReceiver => 1
    case _ => 0
  }

  /** Steps until the receiver next tests its loop condition. */
  function ToLoopTest(s: State): (d: nat)
    ensures d <= 9
  {
    match s.rpc
    case Hand => 9
    case WaitTurn =>
      if !s.locked1 then 1
      else (match s.spc case Pass => 2 case WaitTool => 3 case Kill => 4 case Alive => 5 case _ => 8)
    case _ => 0
  }

  /** Steps until everything has ended, once the receiver has. */
  function ToEnd(s: State): (d: nat)
    ensures d <= 9
  {
    match s.mpc
    case JoinReceiver => 6
    case LastUnlock => 5
    case MainDone => 0
    case _ => (match s.spc case NextLock => 4 case Alive => 3 case _ => 2)
  }

  function Distance(bound: nat, s: State): (d: nat)
    ensures d < 100
  {
    if s.rpc.ReceiverDone? then ToEnd(s)
    else 10 + 12 * MainLeft(s.mpc) + (if s.rpc.Receive? then 0 else 1 + ToLoopTest(s))
  }

  function Rank(bound: nat, s: State): nat
    requires s.iteration <= bound
  {
    100 * (bound - s.iteration) + Distance(bound, s)
  }

  /** The thread that has to move next for the program to get closer to its end. */
  function Helpful(s: State): Move {
    if s.rpc.ReceiverDone? then
      if s.mpc.JoinSender? && !s.spc.SenderDone? then Sender(true) else Main
    else if MainLeft(s.mpc) != 0 then Main
    else if s.rpc.WaitTurn? && s.locked1 then Sender(true)
    else Receiver(true)
  }

  ghost predicate Helps(bound: nat, s: State, next: Option<State>)
    requires s.iteration <= bound
  {
    next.Some? && next.value.iteration <= bound && Rank(bound, next.value) < Rank(bound, s)
  }

  lemma CloserAtEnd(bound: nat, s: State)
    requires Invariant(bound, s) && bound >= 1 && !Finished(s) && s.rpc.ReceiverDone?
    ensures Helps(bound, s, Step(bound, s, Helpful(s)))
  {
  }

  lemma CloserSetUp(bound: nat, s: State)
    requires Invariant(bound, s) && !s.rpc.ReceiverDone? && MainLeft(s.mpc) != 0
    ensures Helps(bound, s, MainStep(s))
  {
    var next := MainStep(s);
    assert next.Some? && next.value.iteration == s.iteration;
    assert Distance(bound, next.value) < Distance(bound, s);
  }

  lemma CloserBySender(bound: nat, s: State)
    requires Invariant(bound, s) && s.rpc.WaitTurn? && s.locked1
    ensures Helps(bound, s, SenderStep(s, true))
  {
  }

  lemma CloserByReceiver(bound: nat, s: State)
    requires Invariant(bound, s) && !s.rpc.ReceiverDone? && MainLeft(s.mpc) == 0 && !(s.rpc.WaitTurn? && s.locked1)
    ensures Helps(bound, s, ReceiverStep(bound, s, true))
  {
  }

  lemma Closer(bound: nat, s: State)
    requires Invariant(bound, s) && bound >= 1 && !Finished(s)
    ensures Helps(bound, s, Step(bound, s, Helpful(s))) && Invariant(bound, Step(bound, s, Helpful(s)).value)
  {
    if s.rpc.ReceiverDone? {
      CloserAtEnd(bound, s);
    } else if MainLeft(s.mpc) != 0 {
      CloserSetUp(bound, s);
    } else if s.rpc.WaitTurn? && s.locked1 {
      CloserBySender(bound, s);
    } else {
      CloserByReceiver(bound, s);
    }
    StepKeepsInvariant(bound, s, Helpful(s));
  }

  lemma {:induction false} CanAlwaysFinish(bound: nat, s: State) returns (rest: seq<Move>)
    requires Invariant(bound, s) && bound >= 1
    ensures Finished(Run(bound, s, rest))
    decreases Rank(bound, s)
  {
    if Finished(s) {
      return [];
    }
    Closer(bound, s);
    var tail := CanAlwaysFinish(bound, Step(bound, s, Helpful(s)).value);
    rest := [Helpful(s)] + tail;
    RunFirst(bound, s, Helpful(s), tail);
  }

  lemma {:induction false} RunFirst(bound: nat, s: State, m: Move, tail: seq<Move>)
    requires Step(bound, s, m).Some?
    ensures Run(bound, s, [m] + tail) == Run(bound, Step(bound, s, m).value, tail)
  {
    var all := [m] + tail;
    if tail == [] {
      assert all[..0] == [];
    } else {
      assert all[..|all| - 1] == [m] + tail[..|tail| - 1];
      RunFirst(bound, s, m, tail[..|tail| - 1]);
    }
  }

  ghost predicate CanMove(bound: nat, s: State) {
    exists m :: Step(bound, s, m).Some?
  }

  ghost predicate Reachable(bound: nat, s: State) {
    exists schedule :: Run(bound, INITIAL, schedule) == s
  }

  lemma StaysReachable(bound: nat, s: State, m: Move)
    requires Reachable(bound, s) && Step(bound, s, m).Some?
    ensures Reachable(bound, Step(bound, s, m).value)
  {
    var schedule :| Run(bound, INITIAL, schedule) == s;
    assert (schedule + [m])[..|schedule + [m]| - 1] == schedule;
    assert Run(bound, INITIAL, schedule + [m]) == Step(bound, s, m).value;
  }

  /** Main sets everything up and the receiver ends at once, so main still holds the second mutex. */
  lemma ReceiverEndsAtOnce()
    ensures Reachable(0, State(true, true, 0, false, JoinReceiver, FirstLock, ReceiverDone, 0, 0))
  {
    assert Run(0, INITIAL, []) == INITIAL;
    var s1 := INITIAL.(locked := true, mpc := LockSecond);
    StaysReachable(0, INITIAL, Main);
    var s2 := s1.(locked1 := true, mpc := CreateSender);
    StaysReachable(0, s1, Main);
    var s3 := s2.(mpc := CreateReceiver, spc := FirstLock);
    StaysReachable(0, s2, Main);
    var s4 := s3.(mpc := JoinReceiver, rpc := LoopTest);
    StaysReachable(0, s3, Main);
    StaysReachable(0, s4, Receiver(false));
  }

  /** Main then lets the sender go and waits for it. */
  lemma SenderGoesAlone()
    ensures Reachable(0, State(true, true, 0, false, JoinSender, Kill, ReceiverDone, 0, 0))
  {
    ReceiverEndsAtOnce();
    var s5 := State(true, true, 0, false, JoinReceiver, FirstLock, ReceiverDone, 0, 0);
    var s6 := s5.(mpc := LastUnlock);
    StaysReachable(0, s5, Main);
    var s7 := s6.(locked := false, mpc := JoinSender);
    StaysReachable(0, s6, Main);
    StaysReachable(0, s7, Sender(false));
  }

  /** The sender does its round and waits for the mutex that nobody will unlock. */
  const STUCK := State(true, false, 0, false, JoinSender, NextLock, ReceiverDone, 1, 0)

  lemma StuckWithoutRounds()
    ensures Reachable(0, STUCK)
  {
    SenderGoesAlone();
    var s8 := State(true, true, 0, false, JoinSender, Kill, ReceiverDone, 0, 0);
    var s9 := s8.(spc := Pass);
    StaysReachable(0, s8, Sender(false));
    StaysReachable(0, s9, Sender(false));
  }

  ghost predicate Live(bound: nat, s: State) {
    Finished(s) || CanMove(bound, s)
  }

  lemma NobodyMoves()
    ensures !Live(0, STUCK)
  {
    forall m ensures Step(0, STUCK, m).None? {
      match m {
        case Main =>
        case Sender(_) =>
        case Receiver(_) =>
      }
    }
  }

  /** The program is free of deadlocks if and only if the receiver has at least one round to do. */
  lemma DeadlockFreeExactly(bound: nat)
    ensures bound >= 1 <==> forall schedule :: Live(bound, Run(bound, INITIAL, schedule))
  {
    if bound == 0 {
      StuckWithoutRounds();
      NobodyMoves();
      var schedule :| Run(bound, INITIAL, schedule) == STUCK;
      assert !Live(bound, Run(bound, INITIAL, schedule));
    } else {
      forall schedule ensures Live(bound, Run(bound, INITIAL, schedule)) {
        RunKeepsInvariant(bound, INITIAL, schedule);
        if !Finished(Run(bound, INITIAL, schedule)) {
          Closer(bound, Run(bound, INITIAL, schedule));
        }
      }
    }
  }

  ghost predicate CanFinish(bound: nat, s: State) {
    exists rest :: Finished(Run(bound, s, rest))
  }

  /** Every reachable state can still reach the end of all three threads if and only if there is a round to do. */
  lemma EveryRunCanFinishExactly(bound: nat)
    ensures bound >= 1 <==> forall schedule :: CanFinish(bound, Run(bound, INITIAL, schedule))
  {
    if bound == 0 {
      forall rest ensures !Finished(Run(bound, INITIAL, rest)) {
        RunKeepsInvariant(bound, INITIAL, rest);
      }
      assert !CanFinish(bound, Run(bound, INITIAL, []));
    } else {
      forall schedule ensures CanFinish(bound, Run(bound, INITIAL, schedule)) {
        RunKeepsInvariant(bound, INITIAL, schedule);
        var rest := CanAlwaysFinish(bound, Run(bound, INITIAL, schedule));
      }
    }
  }
}
