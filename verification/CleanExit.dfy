/** A run of the supervisor that exits with 0: the daemon is started, the server serves, a signal arrives, and
    everything is stopped. */
module CleanExit {
  import opened Basics
  import opened ProcessController
  import opened ControllerPool
  import opened Supervisor
  import L = ApiLifecycle

  ghost predicate Reachable(s: System) {
    exists r: SystemRun :: IsSystemRun(r) && r.states[|r.events|] == s
  }

  lemma Start(s: System)
    requires SystemInit(s)
    ensures Reachable(s)
  {
    hide SystemInit, SystemNext;
    var r := SystemRun([s], []);
    assert IsSystemRun(r) && r.states[|r.events|] == s;
  }

  lemma Extend(s: System, e: Supervisor.Event, s': System)
    requires Reachable(s) && SystemNext(s, e, s')
    ensures Reachable(s')
  {
    hide SystemInit, SystemNext;
    var r: SystemRun :| IsSystemRun(r) && r.states[|r.events|] == s;
    var longer := SystemRun(r.states + [s'], r.events + [e]);
    assert IsSystemRun(longer) && longer.states[|longer.events|] == s';
  }

  // ---- One call of the controller, with nobody else at it ----

  function WithPool(s: System, pc: Pc, holder: Option<nat>, control: Control): System {
    s.(pool := Move(s.pool, MAIN, pc, holder, control))
  }

  /** The main thread is called back with `ok`, the controller is in state `d`. */
  function AfterCall(s: System, after: After, d: Control, ok: bool): System {
    WithPool(s, Idle, None, d).(main := Resume(Blocked(after), ok))
  }

  lemma MoveTwice(s: Pool, p: Pc, h: Option<nat>, c: Control, q: Pc, g: Option<nat>, d: Control)
    ensures Move(Move(s, MAIN, p, h, c), MAIN, q, g, d) == Move(s, MAIN, q, g, d)
  {
    assert s.threads[MAIN := p][MAIN := q] == s.threads[MAIN := q];
  }

  /** One step of the call, from program counter `p` to `q`. */
  lemma CallStep(s: System, after: After, a: Action, p: Pc, h: Option<nat>, c: Control,
                 q: Pc, g: Option<nat>, d: Control)
    requires Reachable(WithPool(s, p, h, c).(main := Blocked(after)))
    requires Serves(a) && a != Unlock(MAIN) && Next(Move(s.pool, MAIN, p, h, c), a, Move(s.pool, MAIN, q, g, d))
    ensures Reachable(WithPool(s, q, g, d).(main := Blocked(after)))
  {
    hide Reachable, Next, Move;
    Extend(WithPool(s, p, h, c).(main := Blocked(after)), Pooled(a), WithPool(s, q, g, d).(main := Blocked(after)));
  }

  /** The main thread calls Start, which takes the controller to `d`. */
  lemma CallsStart(s: System, after: After, d: Control, ok: bool)
    requires Reachable(s) && PcOf(s.pool, MAIN).Idle? && s.pool.holder.None? && !s.pool.shutdown
    requires MainNext(s, WithPool(s, Waiting(StartOp), None, s.pool.control).(main := Blocked(after)))
    requires Acts(StartOp, Spawning, s.pool.control, Returning(StartOp, ok), d)
    ensures Reachable(AfterCall(s, after, d, ok))
  {
    hide Reachable, Acts, MainNext;
    var c := s.pool.control;
    Extend(s, MainStep, WithPool(s, Waiting(StartOp), None, c).(main := Blocked(after)));
    MoveTwice(s.pool, Waiting(StartOp), None, c, Inside(StartOp, StartGate), Some(MAIN), c);
    CallStep(s, after, Lock(MAIN), Waiting(StartOp), None, c, Inside(StartOp, StartGate), Some(MAIN), c);
    MoveTwice(s.pool, Inside(StartOp, StartGate), Some(MAIN), c, Inside(StartOp, Spawning), Some(MAIN), c);
    CallStep(s, after, Load(MAIN), Inside(StartOp, StartGate), Some(MAIN), c, Inside(StartOp, Spawning), Some(MAIN), c);
    Returns(s, StartOp, Spawning, after, d, ok);
  }

  /** The main thread calls an operation without a gate. */
  lemma Calls(s: System, op: Op, after: After, d: Control, ok: bool)
    requires Reachable(s) && PcOf(s.pool, MAIN).Idle? && s.pool.holder.None?
    requires MainNext(s, WithPool(s, Waiting(op), None, s.pool.control).(main := Blocked(after)))
    requires !IsGate(Entry(op)) && Acts(op, Entry(op), s.pool.control, Returning(op, ok), d)
    ensures Reachable(AfterCall(s, after, d, ok))
  {
    hide Reachable, Acts, MainNext;
    var c := s.pool.control;
    Extend(s, MainStep, WithPool(s, Waiting(op), None, c).(main := Blocked(after)));
    MoveTwice(s.pool, Waiting(op), None, c, Inside(op, Entry(op)), Some(MAIN), c);
    CallStep(s, after, Lock(MAIN), Waiting(op), None, c, Inside(op, Entry(op)), Some(MAIN), c);
    Returns(s, op, Entry(op), after, d, ok);
  }

  lemma Returns(s: System, op: Op, stage: Stage, after: After, d: Control, ok: bool)
    requires Reachable(WithPool(s, Inside(op, stage), Some(MAIN), s.pool.control).(main := Blocked(after)))
    requires Acts(op, stage, s.pool.control, Returning(op, ok), d)
    ensures Reachable(AfterCall(s, after, d, ok))
  {
    hide Reachable, Acts;
    var c := s.pool.control;
    MoveTwice(s.pool, Inside(op, stage), Some(MAIN), c, Returning(op, ok), Some(MAIN), d);
    CallStep(s, after, Act(MAIN), Inside(op, stage), Some(MAIN), c, Returning(op, ok), Some(MAIN), d);
    MoveTwice(s.pool, Returning(op, ok), Some(MAIN), d, Idle, None, d);
    Extend(WithPool(s, Returning(op, ok), Some(MAIN), d).(main := Blocked(after)),
           Pooled(Unlock(MAIN)), AfterCall(s, after, d, ok));
  }

  // ---- The run ----

  const NONE := Control(STOPPED, -1, {}, 0, 0)
  const ONE := Control(RUNNING, 0, {0}, 1, 1)
  const GONE := Control(STOPPED, -1, {}, 1, 1)

  function Server(shared: L.Shared, run: L.Pc, stop: L.Pc): L.State {
    L.State(shared, [run, stop])
  }

  function Booted(threads: map<nat, Pc>, control: Control, shutdown: bool): Pool {
    Pool(shutdown, None, threads, control)
  }

  const FRESH := L.Shared(L.Idle, false, false, false, None, 0)
  const UP := L.Shared(L.Running, false, true, false, Some(RUN), 1)
  const ASKED := UP.(stopRequested := true)
  const FELT := ASKED.(stopped := true)
  const DOWN := FELT.(running := false)
  const OVER := DOWN.(lifecycle := L.Stopped)
  const MAIN_ONLY: map<nat, Pc> := map[0 := Idle]

  /** The daemon runs and the server serves. */
  lemma Serving()
    ensures Reachable(System(Booted(MAIN_ONLY, ONE, false), LoopHead, Server(UP, L.Serving, L.StopEntering),
                             None, false, false))
  {
    hide Reachable;
    var s := System(Booted(map[], NONE, false), Starting, Server(FRESH, L.RunEntering(true), L.StopEntering),
                    None, false, false);
    Start(s);
    FirstSpawn();
    CallsStart(s, ToLoop, ONE, true);
    var pool := Booted(MAIN_ONLY, ONE, false);
    assert AfterCall(s, ToLoop, ONE, true) == s.(pool := pool, main := LoopHead);
    ServerComesUp(s.(pool := pool, main := LoopHead));
  }

  lemma ApiGoes(s: System, t: nat, shared: L.Shared, pc: L.Pc)
    requires Reachable(s) && |s.life.threads| == 2 && !pc.Returned?
    requires if t == RUN then s.api.None? else t == STOP && s.main.StoppingApi?
    requires L.Local(s.life.shared, t, s.life.threads[t], shared, pc)
    ensures Reachable(s.(life := L.State(shared, s.life.threads[t := pc])))
  {
    hide Reachable, L.Local;
    Extend(s, ApiStep(t), s.(life := L.State(shared, s.life.threads[t := pc])));
  }

  lemma ServerComesUp(s: System)
    requires Reachable(s) && s.api.None? && s.life == Server(FRESH, L.RunEntering(true), L.StopEntering)
    ensures Reachable(s.(life := Server(UP, L.Serving, L.StopEntering)))
  {
    hide Reachable;
    var starting := FRESH.(lifecycle := L.Starting, runner := Some(RUN));
    var bound := starting.(binds := 1);
    ApiGoes(s, RUN, starting, L.Binding);
    var a := s.(life := L.State(starting, s.life.threads[RUN := L.Binding]));
    ApiGoes(a, RUN, bound, L.Listening);
    var b := a.(life := L.State(bound, a.life.threads[RUN := L.Listening]));
    ApiGoes(b, RUN, bound.(running := true), L.InStartHandler);
    var c := b.(life := L.State(bound.(running := true), b.life.threads[RUN := L.InStartHandler]));
    ApiGoes(c, RUN, UP, L.Serving);
    assert c.life.threads[RUN := L.Serving] == [L.Serving, L.StopEntering];
  }

  /** The signal is seen, and chosen as the reason. */
  lemma SignalSeen()
    ensures Reachable(System(Booted(MAIN_ONLY, ONE, false), Requesting(SignalExit),
                             Server(UP, L.Serving, L.StopEntering), None, true, false))
  {
    hide Reachable;
    Serving();
    var pool := Booted(MAIN_ONLY, ONE, false);
    var s := System(pool, LoopHead, Server(UP, L.Serving, L.StopEntering), None, false, false);
    Calls(s, ReapOp, ToReadReady, ONE, true);
    assert MAIN_ONLY[0 := Idle] == MAIN_ONLY;
    var a := s.(main := ReadReady);
    assert AfterCall(s, ToReadReady, ONE, true) == a;
    Extend(a, MainStep, a.(main := ReadSignal(false)));
    var b := a.(main := ReadSignal(false), signal := true);
    Extend(a.(main := ReadSignal(false)), SignalArrives, b);
    Extend(b, MainStep, b.(main := ReadAgain));
    Extend(b.(main := ReadAgain), MainStep, b.(main := Decide(false, true, false)));
    Extend(b.(main := Decide(false, true, false)), MainStep, b.(main := Requesting(SignalExit)));
  }

  /** The API server and the daemon have been stopped. */
  lemma AllStopped()
    ensures Reachable(System(Booted(MAIN_ONLY, GONE, true), FinalReap(SignalExit, true),
                             Server(FELT, L.Serving, L.Returned(true)), None, true, false))
  {
    hide Reachable;
    SignalSeen();
    var s := System(Booted(MAIN_ONLY, ONE, false), Requesting(SignalExit),
                    Server(UP, L.Serving, L.StopEntering), None, true, false);
    var a := s.(pool := Booted(MAIN_ONLY, ONE, true), main := StoppingApi(SignalExit));
    Extend(s, MainStep, a);
    ApiGoes(a, STOP, ASKED, L.StopCalling);
    var b := a.(life := Server(ASKED, L.Serving, L.StopCalling));
    assert a.life.threads[STOP := L.StopCalling] == b.life.threads;
    var c := b.(life := Server(FELT, L.Serving, L.Returned(true)));
    assert b.life.threads[STOP := L.Returned(true)] == c.life.threads;
    Extend(b, ApiStep(STOP), c);
    var d := c.(main := CallStop(SignalExit));
    Extend(c, MainStep, d);
    assert StopStep(ONE, GONE, true);
    Calls(d, StopOp, ToFinalReap(SignalExit), GONE, true);
    assert MAIN_ONLY[0 := Idle] == MAIN_ONLY;
  }

  /** Exit code 0 does occur, after a daemon was forked. */
  lemma ExitZeroOccurs()
    ensures exists s: System ::
              Reachable(s) && s.main == Main.Exited(SignalExit, true, true, 0) && s.pool.control.forks == 1
  {
    hide Reachable;
    AllStopped();
    var s := System(Booted(MAIN_ONLY, GONE, true), FinalReap(SignalExit, true),
                    Server(FELT, L.Serving, L.Returned(true)), None, true, false);
    Calls(s, ReapOp, ToJoin(SignalExit, true), GONE, true);
    assert MAIN_ONLY[0 := Idle] == MAIN_ONLY;
    var a := s.(main := Joining(SignalExit, true));
    ApiGoes(a, RUN, DOWN, L.Ending(true));
    var b := a.(life := Server(DOWN, L.Ending(true), L.Returned(true)));
    assert a.life.threads[RUN := L.Ending(true)] == b.life.threads;
    var c := b.(life := Server(OVER, L.Returned(true), L.Returned(true)), api := Some(true));
    assert b.life.threads[RUN := L.Returned(true)] == c.life.threads;
    Extend(b, ApiStep(RUN), c);
    var d := c.(main := Main.Exited(SignalExit, true, true, 0));
    Extend(c, MainStep, d);
    assert Reachable(d);
  }
}
