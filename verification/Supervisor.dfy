/** The supervisor's main thread (apps/opcua-supervisor/main.cc:71-121) as steps among the threads of a
    `ControllerPool` and the API task of an `ApiLifecycle`, with signals arriving at any moment. */
module Supervisor {
  import ApiLifecycle
  import opened Basics
  import opened ProcessController
  import opened ControllerPool

  datatype ExitReason = ApiExit | SignalExit

  function ObserveSupervisorExit(apiReady: bool, signalPending: bool, apiReadyAfterSignal: bool): Option<ExitReason> {
    if apiReady || (signalPending && apiReadyAfterSignal) then Some(ApiExit)
    else if signalPending then Some(SignalExit)
    else None
  }

  /** Whether the supervisor status is Ok. */
  predicate ClassifyApiExit(reason: ExitReason, apiOk: bool) {
    if reason.ApiExit? && apiOk then false else apiOk
  }

  function ExitCode(reason: ExitReason, apiOk: bool, stopOk: bool): nat {
    if !ClassifyApiExit(reason, apiOk) then 1 else if stopOk then 0 else 1
  }

  /** Where the main thread goes on when its controller call returns. */
  datatype After = ToLoop | ToReadReady | ToFinalReap(reason: ExitReason) | ToJoin(reason: ExitReason, stopOk: bool)

  datatype Main =
    | Starting
    | Blocked(after: After)
    | LoopHead
    | ReadReady
    | ReadSignal(ready: bool)
    | ReadAgain
    | Decide(ready: bool, pending: bool, readyAgain: bool)
    | Requesting(reason: ExitReason)
    | StoppingApi(reason: ExitReason)
    | CallStop(reason: ExitReason)
    | FinalReap(reason: ExitReason, stopOk: bool)
    | Joining(reason: ExitReason, stopOk: bool)
    | Exited(reason: ExitReason, stopOk: bool, apiOk: bool, code: nat)

  /** `life` has two threads, the Run of the API task and the Stop of the main thread; `api` is the task's result
      once it has finished; `doneAtRead` remembers whether it had when the main thread last read the signal
      flag. */
  datatype System = System(
    pool: Pool, main: Main, life: ApiLifecycle.State, api: Option<bool>, signal: bool, doneAtRead: bool)

  datatype Event = Pooled(action: Action) | SignalArrives | ApiStep(thread: nat) | ApiThrows | MainStep

  const MAIN: nat := 0
  const RUN: nat := 0
  const STOP: nat := 1

  function Resume(main: Main, ok: bool): Main {
    if !main.Blocked? then main
    else
      match main.after
      case ToLoop => LoopHead
      case ToReadReady => ReadReady
      case ToFinalReap(reason) => FinalReap(reason, ok)
      case ToJoin(reason, stopOk) => Joining(reason, stopOk)
  }

  ghost predicate Invokes(s: System, op: Op, after: After, s': System) {
    Next(s.pool, Call(MAIN, op), s'.pool) && s' == s.(pool := s'.pool, main := Blocked(after))
  }

  ghost predicate MainNext(s: System, s': System) {
    match s.main
    case Starting => Invokes(s, StartOp, ToLoop, s')
    case Blocked(_) => false
    case LoopHead => Invokes(s, ReapOp, ToReadReady, s')
    case ReadReady => s' == s.(main := ReadSignal(s.api.Some?))
    case ReadSignal(ready) =>
      s' == s.(main := if !ready && s.signal then ReadAgain else Decide(ready, s.signal, false),
               doneAtRead := s.api.Some?)
    case ReadAgain => s' == s.(main := Decide(false, true, s.api.Some?))
    case Decide(ready, pending, readyAgain) =>
      s' == s.(main := match ObserveSupervisorExit(ready, pending, readyAgain)
                       case None => LoopHead
                       case Some(reason) => Requesting(reason))
    case Requesting(reason) =>
      Next(s.pool, Request(MAIN), s'.pool) && s' == s.(pool := s'.pool, main := StoppingApi(reason))
    case StoppingApi(reason) =>
      |s.life.threads| == 2 && s.life.threads[STOP].Returned? && s' == s.(main := CallStop(reason))
    case CallStop(reason) => Invokes(s, StopOp, ToFinalReap(reason), s')
    case FinalReap(reason, stopOk) => Invokes(s, ReapOp, ToJoin(reason, stopOk), s')
    case Joining(reason, stopOk) =>
      && s.api.Some?
      && s' == s.(main := Main.Exited(reason, stopOk, s.api.value, ExitCode(reason, s.api.value, stopOk)))
    case Exited(_, _, _, _) => false
  }

  /** The API task runs from the start, the Stop when the main thread calls it. */
  predicate ApiNext(s: System, t: nat, s': System) {
    && |s.life.threads| == 2
    && (if t == RUN then s.api.None? else t == STOP && s.main.StoppingApi?)
    && ApiLifecycle.Step(s.life, t, s'.life)
    && s' == s.(life := s'.life,
                api := if t == RUN && s'.life.threads[RUN].Returned? then Some(s'.life.threads[RUN].ok) else s.api)
  }

  ghost predicate SystemNext(s: System, e: Event, s': System) {
    match e
    case SignalArrives => s' == s.(signal := true)
    case ApiStep(t) => ApiNext(s, t, s')
    case ApiThrows => s.api.None? && s' == s.(api := Some(false))
    case MainStep => MainNext(s, s')
    case Pooled(a) =>
      && !a.Request? && !(a.Call? && a.thread == MAIN)
      && Next(s.pool, a, s'.pool)
      && var pc := PcOf(s.pool, MAIN);
         s' == s.(pool := s'.pool,
                  main := if a == Unlock(MAIN) && pc.Returning? then Resume(s.main, pc.ok) else s.main)
  }

  ghost predicate SystemInit(s: System) {
    && Init(s.pool)
    && ApiLifecycle.Init(s.life)
    && |s.life.threads| == 2 && s.life.threads[RUN].RunEntering? && s.life.threads[STOP].StopEntering?
    && s == System(s.pool, Starting, s.life, None, false, false)
  }

  datatype SystemRun = SystemRun(states: seq<System>, events: seq<Event>)

  ghost predicate IsSystemRun(r: SystemRun) {
    && |r.states| == |r.events| + 1
    && SystemInit(r.states[0])
    && forall i :: 0 <= i < |r.events| ==> SystemNext(r.states[i], r.events[i], r.states[i + 1])
  }

  // ---- The invariant ----

  function CallOf(after: After): Op {
    match after
    case ToLoop => StartOp
    case ToReadReady => ReapOp
    case ToFinalReap(_) => StopOp
    case ToJoin(_, _) => ReapOp
  }

  function OpOf(pc: Pc): Option<Op> {
    if pc.Idle? then None else Some(pc.op)
  }

  /** The main thread is inside a controller call exactly when it waits for one. */
  ghost predicate InStep(s: System) {
    OpOf(PcOf(s.pool, MAIN)) == if s.main.Blocked? then Some(CallOf(s.main.after)) else None
  }

  function ReasonOf(main: Main): Option<ExitReason> {
    match main
    case Blocked(ToFinalReap(reason)) => Some(reason)
    case Blocked(ToJoin(reason, _)) => Some(reason)
    case Requesting(reason) => Some(reason)
    case StoppingApi(reason) => Some(reason)
    case CallStop(reason) => Some(reason)
    case FinalReap(reason, _) => Some(reason)
    case Joining(reason, _) => Some(reason)
    case Exited(reason, _, _, _) => Some(reason)
    case _ => None
  }

  predicate StopSucceeded(main: Main) {
    match main
    case Blocked(ToJoin(_, stopOk)) => stopOk
    case FinalReap(_, stopOk) => stopOk
    case Joining(_, stopOk) => stopOk
    case Exited(_, stopOk, _, _) => stopOk
    case _ => false
  }

  ghost predicate Requested(s: System) {
    && (ReasonOf(s.main).Some? && !s.main.Requesting? ==> s.pool.shutdown)
    && (StopSucceeded(s.main) ==> Quiesced(s.pool))
  }

  /** What the two flags read so far still say. */
  ghost predicate ReadsHold(s: System) {
    && (s.doneAtRead ==> s.api.Some?)
    && (s.main.ReadSignal? && s.main.ready ==> s.api.Some?)
    && (s.main.ReadAgain? ==> s.signal)
    && (s.main.Decide? ==>
          && (s.main.ready || s.main.readyAgain ==> s.api.Some?)
          && (s.main.pending ==> s.signal)
          && (s.doneAtRead && s.main.pending ==> s.main.ready || s.main.readyAgain))
    && (ReasonOf(s.main) == Some(ApiExit) ==> s.api.Some?)
    && (ReasonOf(s.main) == Some(SignalExit) ==> s.signal && !s.doneAtRead)
    && (s.main.Exited? ==>
          s.api == Some(s.main.apiOk) && s.main.code == ExitCode(s.main.reason, s.main.apiOk, s.main.stopOk))
  }

  predicate AfterApiStop(main: Main) {
    ReasonOf(main).Some? && !main.Requesting? && !main.StoppingApi?
  }

  /** The task is done once its Run has returned, and the main thread goes on once its Stop has. */
  ghost predicate LifeHolds(s: System) {
    && ApiLifecycle.Inv(s.life)
    && |s.life.threads| == 2
    && !s.life.threads[RUN].StopEntering? && !s.life.threads[RUN].StopCalling?
    && (s.api.None? ==> !s.life.threads[RUN].Returned?)
    && (s.life.threads[STOP].StopEntering? || (s.life.shared.stopRequested
          && (s.life.threads[STOP].StopCalling? || s.life.threads[STOP].Returned?)))
    && (AfterApiStop(s.main) ==> s.life.threads[STOP].Returned?)
  }

  ghost predicate SystemInv(s: System) {
    Inv(s.pool) && InStep(s) && Requested(s) && ReadsHold(s) && LifeHolds(s)
  }

  /** A pool step moves the main thread only within its call, or returns it. */
  lemma PoolStepMovesMain(s: Pool, a: Action, s': Pool)
    requires Inv(s) && Next(s, a, s') && !a.Request? && !(a.Call? && a.thread == MAIN)
    ensures s'.shutdown == s.shutdown
    ensures OpOf(PcOf(s', MAIN)) == if a == Unlock(MAIN) then None else OpOf(PcOf(s, MAIN))
    ensures a == Unlock(MAIN) ==> PcOf(s, MAIN).Returning?
  {
    hide ControlInv, KeepsOrLetsGo, SpawnStep, StopStep, ReapStep;
    match a
    case Act(t) => ActKeepsControl(PcOf(s, t).op, PcOf(s, t).stage, s.control, PcOf(s', t), s'.control);
    case _ =>
  }

  /** A Stop that returns Ok after the request leaves the pool without a child for good. */
  lemma StopQuiesces(s: Pool, s': Pool)
    requires Inv(s) && s.shutdown && Next(s, Unlock(MAIN), s') && PcOf(s, MAIN) == Returning(StopOp, true)
    ensures Quiesced(s')
  {
  }

  lemma PooledKeepsInv(s: System, a: Action, s': System)
    requires SystemInv(s) && SystemNext(s, Pooled(a), s')
    ensures SystemInv(s')
  {
    PoolStepMovesMain(s.pool, a, s'.pool);
    StepKeepsInv(s.pool, a, s'.pool);
    if s.pool.shutdown {
      StepAfterShutdown(s.pool, a, s'.pool);
    }
    if a == Unlock(MAIN) && s.pool.shutdown && PcOf(s.pool, MAIN) == Returning(StopOp, true) {
      StopQuiesces(s.pool, s'.pool);
    }
    hide Inv, Next, Quiesced, ApiLifecycle.Inv;
  }

  lemma MainKeepsReads(s: System, s': System)
    requires ReadsHold(s) && MainNext(s, s')
    ensures ReadsHold(s')
  {
    hide Next;
  }

  lemma MainKeepsRequested(s: System, s': System)
    requires Inv(s.pool) && Requested(s) && MainNext(s, s')
    ensures Inv(s'.pool) && Requested(s')
  {
    if s'.pool != s.pool {
      var a := if s.main.Requesting? then Request(MAIN)
               else Call(MAIN, if s.main.Starting? then StartOp else if s.main.CallStop? then StopOp else ReapOp);
      StepKeepsInv(s.pool, a, s'.pool);
      if s.pool.shutdown {
        StepAfterShutdown(s.pool, a, s'.pool);
      }
    }
    hide Inv, Quiesced;
  }

  lemma MainKeepsInv(s: System, s': System)
    requires SystemInv(s) && MainNext(s, s')
    ensures SystemInv(s')
  {
    hide Inv, Requested, ReadsHold, LifeHolds, InStep, MainNext;
    MainKeepsReads(s, s');
    MainKeepsRequested(s, s');
    MainKeepsLife(s, s');
    MainKeepsInStep(s, s');
  }

  lemma MainKeepsLife(s: System, s': System)
    requires LifeHolds(s) && MainNext(s, s')
    ensures LifeHolds(s')
  {
    hide Next, ApiLifecycle.Inv;
  }

  lemma MainKeepsInStep(s: System, s': System)
    requires InStep(s) && MainNext(s, s')
    ensures InStep(s')
  {
  }

  lemma ApiKeepsInv(s: System, t: nat, s': System)
    requires SystemInv(s) && ApiNext(s, t, s')
    ensures SystemInv(s')
  {
    hide Inv, InStep, Requested;
    ApiLifecycle.StepKeepsRunner(s.life, t, s'.life);
    ApiLifecycle.StepKeepsRequest(s.life, t, s'.life);
    ApiLifecycle.StepMovesForward(s.life, t, s'.life);
    hide ApiLifecycle.Inv;
    assert InStep(s') && Requested(s') by {
      SameMain(s, s');
    }
  }

  lemma SameMain(s: System, s': System)
    requires s'.pool == s.pool && s'.main == s.main
    ensures (InStep(s) ==> InStep(s')) && (Requested(s) ==> Requested(s'))
  {
    hide Inv, Quiesced;
  }

  lemma FirstStateIsSound(s: System)
    requires SystemInit(s)
    ensures SystemInv(s)
  {
  }

  /** A signal, or an exception of the API task. */
  lemma OutsideKeepsInv(s: System, e: Event, s': System)
    requires SystemInv(s) && SystemNext(s, e, s') && (e.SignalArrives? || e.ApiThrows?)
    ensures SystemInv(s')
  {
    hide Inv, InStep, Requested, ApiLifecycle.Inv;
    SameMain(s, s');
  }

  lemma {:induction false} EverySystemStateIsSound(r: SystemRun, i: nat)
    requires IsSystemRun(r) && i < |r.states|
    ensures SystemInv(r.states[i])
  {
    hide SystemInv, SystemInit, MainNext, ApiNext;
    if i == 0 {
      FirstStateIsSound(r.states[0]);
    } else {
      EverySystemStateIsSound(r, i - 1);
      match r.events[i - 1]
      case Pooled(a) => PooledKeepsInv(r.states[i - 1], a, r.states[i]);
      case MainStep => MainKeepsInv(r.states[i - 1], r.states[i]);
      case ApiStep(t) => ApiKeepsInv(r.states[i - 1], t, r.states[i]);
      case e => OutsideKeepsInv(r.states[i - 1], e, r.states[i]);
    }
  }

  // ---- When the loop is left ----

  /** On the way from the reads to the choice of `reason`, or past it. */
  predicate LeavesFor(main: Main, reason: ExitReason) {
    match main
    case ReadSignal(ready) => ready && reason.ApiExit?
    case Decide(ready, pending, readyAgain) =>
      if reason.ApiExit? then ready || (pending && readyAgain) else pending && !ready && !readyAgain
    case _ => ReasonOf(main) == Some(reason)
  }

  lemma StaysOnItsWay(s: System, e: Event, s': System, reason: ExitReason)
    requires SystemInv(s) && SystemNext(s, e, s') && LeavesFor(s.main, reason)
    ensures LeavesFor(s'.main, reason) && !s'.main.LoopHead?
  {
    hide Inv, Requested, ReadsHold, LifeHolds, Next;
  }

  lemma {:induction false} LeavesForGood(r: SystemRun, i: nat, j: nat, reason: ExitReason)
    requires IsSystemRun(r) && i <= j < |r.states| && LeavesFor(r.states[i].main, reason)
    ensures LeavesFor(r.states[j].main, reason) && !r.states[j].main.LoopHead?
    decreases j
  {
    hide SystemNext, SystemInv, SystemInit, LeavesFor;
    if i == j {
      OnItsWay(r.states[i].main, reason);
    } else {
      LeavesForGood(r, i, j - 1, reason);
      EverySystemStateIsSound(r, j - 1);
      StaysOnItsWay(r.states[j - 1], r.events[j - 1], r.states[j], reason);
    }
  }

  lemma OnItsWay(main: Main, reason: ExitReason)
    requires LeavesFor(main, reason)
    ensures !main.LoopHead?
  {
  }

  /** If the API task has finished when the main thread looks, at the first or the second look, then the loop is
      never entered again and the reason is the API exit; if a signal is pending when it looks and the task has
      not finished at the second look, the reason is the signal. With neither, the loop goes on. */
  lemma WhenTheLoopEnds(r: SystemRun, i: nat, j: nat)
    requires IsSystemRun(r) && i < j < |r.states| && r.events[i] == MainStep
    ensures var s, m := r.states[i], r.states[j].main;
            && (s.main.ReadReady? && s.api.Some? ==> LeavesFor(m, ApiExit) && !m.LoopHead?)
            && (s.main.ReadAgain? && s.api.Some? ==> LeavesFor(m, ApiExit) && !m.LoopHead?)
            && (s.main.ReadAgain? && s.api.None? ==> LeavesFor(m, SignalExit) && !m.LoopHead?)
    ensures r.states[i].main.ReadSignal? && r.states[i].signal && !r.states[i].main.ready ==>
              r.states[i + 1].main.ReadAgain?
    ensures r.states[i].main.Decide? && LeavesFor(r.states[i].main, ApiExit) ==>
              r.states[i + 1].main == Requesting(ApiExit)
    ensures r.states[i].main.Decide? && LeavesFor(r.states[i].main, SignalExit) ==>
              r.states[i + 1].main == Requesting(SignalExit)
    ensures r.states[i].main.Decide? && !r.states[i].main.ready && !r.states[i].main.pending ==>
              r.states[i + 1].main.LoopHead?
  {
    hide SystemInv, SystemInit;
    var s, t := r.states[i], r.states[i + 1];
    assert MainNext(s, t);
    if s.main.ReadReady? && s.api.Some? {
      LeavesForGood(r, i + 1, j, ApiExit);
    } else if s.main.ReadAgain? {
      LeavesForGood(r, i + 1, j, if s.api.Some? then ApiExit else SignalExit);
    }
  }

  // ---- What the exit code means ----

  /** Code 0 means: stopped by a signal, the API task returned Ok, and the daemon was stopped. */
  lemma ExitZeroMeaning(r: SystemRun, i: nat)
    requires IsSystemRun(r) && i < |r.states| && r.states[i].main.Exited?
    ensures var m := r.states[i].main;
            && (m.code == 0 <==> m.reason.SignalExit? && r.states[i].api == Some(true) && m.stopOk)
            && m.code in {0, 1}
            && (m.reason.ApiExit? ==> m.code == 1)
  {
    EverySystemStateIsSound(r, i);
  }

  /** The signal is taken as the reason only if the API task had not finished when the flag was read. */
  lemma SignalReasonMeaning(r: SystemRun, i: nat)
    requires IsSystemRun(r) && i < |r.states|
    ensures ReasonOf(r.states[i].main) == Some(SignalExit) ==> r.states[i].signal && !r.states[i].doneAtRead
    ensures ReasonOf(r.states[i].main) == Some(ApiExit) ==> r.states[i].api.Some?
  {
    EverySystemStateIsSound(r, i);
  }

  lemma {:induction false} QuiescedForGood(r: SystemRun, i: nat, j: nat)
    requires IsSystemRun(r) && i <= j < |r.states| && r.states[i].main.Exited? && Quiesced(r.states[i].pool)
    ensures r.states[j].main == r.states[i].main && Quiesced(r.states[j].pool)
    decreases j
  {
    if i == j {
    } else {
      QuiescedForGood(r, i, j - 1);
      EverySystemStateIsSound(r, j - 1);
      var s, s' := r.states[j - 1], r.states[j];
      match r.events[j - 1]
      case Pooled(a) =>
        PoolStepMovesMain(s.pool, a, s'.pool);
        StepAfterShutdown(s.pool, a, s'.pool);
      case _ =>
    }
  }

  /** Code 0 implies that no daemon is left unreaped, then or later, whatever the API threads still do. */
  lemma ExitZeroLeavesNoChild(r: SystemRun, i: nat, j: nat)
    requires IsSystemRun(r) && i <= j < |r.states| && r.states[i].main.Exited? && r.states[i].main.code == 0
    ensures r.states[j].pool.control.children == {} && r.states[j].pool.control.status.state != Running
  {
    EverySystemStateIsSound(r, i);
    ExitZeroMeaning(r, i);
    QuiescedForGood(r, i, j);
    EverySystemStateIsSound(r, j);
  }

  // ---- The shutdown comes to its end ----

  /** An event that is not up to the outside: no signal, no exception, no failure of the listener, and no call
      of another thread. */
  predicate Inherent(s: System, e: Event, s': System) {
    match e
    case MainStep => true
    case Pooled(a) => ControllerPool.Serves(a)
    case ApiStep(t) =>
      && t < |s.life.threads| == |s'.life.threads|
      && (s.life.threads[t].Serving? ==> s.life.shared.stopped && s'.life.threads[t] == ApiLifecycle.Ending(true))
    case _ => false
  }

  lemma ApiCanGoOn(s: System, t: nat) returns (s': System)
    requires |s.life.threads| == 2 && (if t == RUN then s.api.None? else t == STOP && s.main.StoppingApi?)
    requires !ApiLifecycle.Rests(s.life, s.life.threads[t])
    ensures SystemNext(s, ApiStep(t), s') && Inherent(s, ApiStep(t), s')
  {
    hide ApiLifecycle.Local;
    var shared, pc := ApiLifecycle.LocalCanGoOn(s.life.shared, t, s.life.threads[t]);
    var life := ApiLifecycle.State(shared, s.life.threads[t := pc]);
    s' := s.(life := life, api := if t == RUN && pc.Returned? then Some(pc.ok) else s.api);
    assert ApiLifecycle.Step(s.life, t, life);
  }

  /** Once its Stop has returned, the API task does not rest before it has returned. */
  lemma TaskIsStopped(s: System)
    requires LifeHolds(s) && s.life.threads[STOP].Returned? && s.api.None?
    ensures !ApiLifecycle.Rests(s.life, s.life.threads[RUN])
  {
    assert !ApiLifecycle.SomeoneCallsStop(s.life.threads);
  }

  /** The system always has a step of its own until the main thread has exited: the loop goes on, and once a
      reason is chosen the Stop of the API server returns, the API task can be joined, no controller call blocks. */
  lemma ShutdownCanGoOn(s: System) returns (e: Event, s': System)
    requires SystemInv(s) && !s.main.Exited?
    ensures SystemNext(s, e, s') && Inherent(s, e, s')
  {
    hide Inv, Requested, ReadsHold, Next, ApiLifecycle.Inv, ApiLifecycle.Step, ApiLifecycle.Rests;
    if s.main.Blocked? {
      var a, pool := ControllerPool.CanGoOn(s.pool, MAIN);
      s' := PoolGoesOn(s, a, pool);
      e := Pooled(a);
    } else if s.main.StoppingApi? && !s.life.threads[STOP].Returned? {
      StopDoesNotRest(s);
      s' := ApiCanGoOn(s, STOP);
      e := ApiStep(STOP);
    } else if s.main.Joining? && s.api.None? {
      TaskIsStopped(s);
      s' := ApiCanGoOn(s, RUN);
      e := ApiStep(RUN);
    } else {
      s' := MainCanGoOn(s);
      e := MainStep;
    }
  }

  lemma StopDoesNotRest(s: System)
    requires LifeHolds(s) && !s.life.threads[STOP].Returned?
    ensures !ApiLifecycle.Rests(s.life, s.life.threads[STOP])
  {
  }

  lemma PoolGoesOn(s: System, a: Action, pool: Pool) returns (s': System)
    requires Next(s.pool, a, pool) && ControllerPool.Serves(a)
    ensures SystemNext(s, Pooled(a), s')
  {
    hide Next;
    var pc := PcOf(s.pool, MAIN);
    s' := s.(pool := pool, main := if a == Unlock(MAIN) && pc.Returning? then Resume(s.main, pc.ok) else s.main);
  }

  lemma MainCanGoOn(s: System) returns (s': System)
    requires InStep(s) && LifeHolds(s) && !s.main.Exited? && !s.main.Blocked?
    requires s.main.StoppingApi? ==> s.life.threads[STOP].Returned?
    requires s.main.Joining? ==> s.api.Some?
    ensures MainNext(s, s')
  {
    hide ApiLifecycle.Inv;
    match s.main
    case Starting =>
      s' := s.(pool := Move(s.pool, MAIN, Waiting(StartOp), s.pool.holder, s.pool.control), main := Blocked(ToLoop));
    case LoopHead =>
      s' := s.(pool := Move(s.pool, MAIN, Waiting(ReapOp), s.pool.holder, s.pool.control),
               main := Blocked(ToReadReady));
    case ReadReady => s' := s.(main := ReadSignal(s.api.Some?));
    case ReadSignal(ready) =>
      s' := s.(main := if !ready && s.signal then ReadAgain else Decide(ready, s.signal, false),
               doneAtRead := s.api.Some?);
    case ReadAgain => s' := s.(main := Decide(false, true, s.api.Some?));
    case Decide(ready, pending, readyAgain) =>
      s' := s.(main := match ObserveSupervisorExit(ready, pending, readyAgain)
                       case None => LoopHead
                       case Some(reason) => Requesting(reason));
    case Requesting(reason) => s' := s.(pool := s.pool.(shutdown := true), main := StoppingApi(reason));
    case StoppingApi(reason) => s' := s.(main := CallStop(reason));
    case CallStop(reason) =>
      s' := s.(pool := Move(s.pool, MAIN, Waiting(StopOp), s.pool.holder, s.pool.control),
               main := Blocked(ToFinalReap(reason)));
    case FinalReap(reason, stopOk) =>
      s' := s.(pool := Move(s.pool, MAIN, Waiting(ReapOp), s.pool.holder, s.pool.control),
               main := Blocked(ToJoin(reason, stopOk)));
    case Joining(reason, stopOk) =>
      s' := s.(main := Main.Exited(reason, stopOk, s.api.value, ExitCode(reason, s.api.value, stopOk)));
  }

  /** So a run can come to rest only with the main thread exited. */
  lemma ShutdownEnds(r: SystemRun, i: nat)
    requires IsSystemRun(r) && i < |r.states|
    requires forall e: Event, s': System :: SystemNext(r.states[i], e, s') ==> !Inherent(r.states[i], e, s')
    ensures r.states[i].main.Exited?
  {
    hide SystemNext, Inherent, SystemInv, ReasonOf;
    EverySystemStateIsSound(r, i);
    if !r.states[i].main.Exited? {
      var e, s' := ShutdownCanGoOn(r.states[i]);
    }
  }
}
