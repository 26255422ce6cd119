/** Any number of threads calling one process controller: the mutex, and the shutdown flag stored outside it
    (src/supervisor/process_controller.cc:141-153, 275-284, 353-373). What a thread does while it holds the
    mutex is what the contracts of `ProcessController.Controller` say. */
module ControllerPool {
  import opened Basics
  import opened ProcessController

  datatype Op = StartOp | StopOp | RestartOp | ReapOp

  datatype Stage = RestartGate | Stopping | SecondGate | StartGate | Spawning | Reaping

  datatype Pc = Idle | Waiting(op: Op) | Inside(op: Op, stage: Stage) | Returning(op: Op, ok: bool)

  datatype Pool = Pool(shutdown: bool, holder: Option<nat>, threads: map<nat, Pc>, control: Control)

  datatype Action =
    | Request(thread: nat)           // RequestShutdown, without the mutex
    | Call(thread: nat, op: Op)
    | Lock(thread: nat)
    | Load(thread: nat)              // one of the three gates reads the flag
    | Act(thread: nat)
    | Unlock(thread: nat)
    | Vanish(pid: nat)               // something else reaps a child

  function PcOf(s: Pool, t: nat): Pc {
    if t in s.threads then s.threads[t] else Idle
  }

  function Entry(op: Op): Stage {
    match op
    case StartOp => StartGate
    case StopOp => Stopping
    case RestartOp => RestartGate
    case ReapOp => Reaping
  }

  predicate IsGate(stage: Stage) {
    stage.RestartGate? || stage.SecondGate? || stage.StartGate?
  }

  function AfterGate(stage: Stage): Stage {
    match stage
    case RestartGate => Stopping
    case SecondGate => StartGate
    case _ => Spawning
  }

  function Move(s: Pool, t: nat, pc: Pc, holder: Option<nat>, control: Control): (r: Pool)
    ensures forall u: nat :: PcOf(r, u) == if u == t then pc else PcOf(s, u)
  {
    Pool(s.shutdown, holder, s.threads[t := pc], control)
  }

  function AtGate(pc: Pc, shutdown: bool): Pc
    requires pc.Inside?
  {
    if shutdown then Returning(pc.op, false) else Inside(pc.op, AfterGate(pc.stage))
  }

  function AfterStop(op: Op, ok: bool): Pc {
    if op.RestartOp? && ok then Inside(op, SecondGate) else Returning(op, ok)
  }

  /** The part of a call that reads or writes the controller. */
  ghost predicate Acts(op: Op, stage: Stage, c: Control, pc: Pc, d: Control) {
    match stage
    case Stopping => exists ok :: StopStep(c, d, ok) && pc == AfterStop(op, ok)
    case Spawning => exists ok :: SpawnStep(c, d, ok) && pc == Returning(op, ok)
    case Reaping => ReapStep(c, d) && pc == Returning(op, true)
    case _ => false
  }

  ghost predicate Next(s: Pool, a: Action, s': Pool) {
    match a
    case Request(_) => s' == s.(shutdown := true)
    case Call(t, op) => PcOf(s, t).Idle? && s' == Move(s, t, Waiting(op), s.holder, s.control)
    case Lock(t) =>
      && PcOf(s, t).Waiting? && s.holder.None?
      && s' == Move(s, t, Inside(PcOf(s, t).op, Entry(PcOf(s, t).op)), Some(t), s.control)
    case Load(t) =>
      && PcOf(s, t).Inside? && IsGate(PcOf(s, t).stage)
      && s' == Move(s, t, AtGate(PcOf(s, t), s.shutdown), s.holder, s.control)
    case Act(t) =>
      && PcOf(s, t).Inside?
      && Acts(PcOf(s, t).op, PcOf(s, t).stage, s.control, PcOf(s', t), s'.control)
      && s' == Move(s, t, PcOf(s', t), s.holder, s'.control)
    case Unlock(t) => PcOf(s, t).Returning? && s' == Move(s, t, Idle, None, s.control)
    case Vanish(pid) => s' == s.(control := s.control.(children := s.control.children - {pid}))
  }

  ghost predicate Init(s: Pool) {
    s == Pool(false, None, map[], Control(STOPPED, -1, {}, 0, 0))
  }

  datatype Run = Run(states: seq<Pool>, actions: seq<Action>)

  ghost predicate IsRun(r: Run) {
    && |r.states| == |r.actions| + 1
    && Init(r.states[0])
    && forall i :: 0 <= i < |r.actions| ==> Next(r.states[i], r.actions[i], r.states[i + 1])
  }

  // ---- The invariant ----

  predicate Critical(pc: Pc) {
    pc.Inside? || pc.Returning?
  }

  predicate Fits(pc: Pc) {
    pc.Inside? ==>
      match pc.op
      case StartOp => pc.stage.StartGate? || pc.stage.Spawning?
      case StopOp => pc.stage.Stopping?
      case RestartOp => !pc.stage.Reaping?
      case ReapOp => pc.stage.Reaping?
  }

  ghost predicate NoChild(c: Control) {
    c.children == {} && c.childPid < 0
  }

  /** A Stop about to return Ok, or a restart past its stop. */
  predicate HasStopped(pc: Pc) {
    || pc == Returning(StopOp, true)
    || (pc.Inside? && pc.op.RestartOp? && (pc.stage.SecondGate? || pc.stage.StartGate? || pc.stage.Spawning?))
  }

  /** A start or restart about to return Ok. */
  predicate HasStarted(pc: Pc) {
    pc == Returning(StartOp, true) || pc == Returning(RestartOp, true)
  }

  /** What a program counter says of the controller: no child after a stop, a running one after a start. */
  ghost predicate Says(pc: Pc, c: Control) {
    && (HasStopped(pc) ==> NoChild(c))
    && (HasStarted(pc) ==> c.status == ProcessStatus(Running, 0) && c.childPid == c.forks - 1)
  }

  /** Only the holder is in a critical section, and what it is about to answer is so. */
  ghost predicate Inv(s: Pool) {
    && ControlInv(s.control)
    && (forall t: nat :: Critical(PcOf(s, t)) <==> s.holder == Some(t))
    && (forall t: nat :: Fits(PcOf(s, t)))
    && (forall t: nat :: Says(PcOf(s, t), s.control))
  }

  lemma StepKeepsInv(s: Pool, a: Action, s': Pool)
    requires Inv(s) && Next(s, a, s')
    ensures Inv(s')
  {
    hide ControlInv, KeepsOrLetsGo, SpawnStep, StopStep, ReapStep;
    match a
    case Act(t) =>
      assert Fits(PcOf(s, t));
      ActKeepsControl(PcOf(s, t).op, PcOf(s, t).stage, s.control, PcOf(s', t), s'.control);
    case Load(t) =>
      assert Fits(PcOf(s, t)) && Says(PcOf(s, t), s.control);
    case Vanish(pid) =>
      assert forall u: nat :: PcOf(s', u) == PcOf(s, u);
      ChildrenMayVanish(s.control, pid);
    case Request(_) =>
      assert forall u: nat :: PcOf(s', u) == PcOf(s, u);
    case _ =>
  }

  lemma ActKeepsControl(op: Op, stage: Stage, c: Control, pc: Pc, d: Control)
    requires Acts(op, stage, c, pc, d)
    ensures ControlInv(d) && Critical(pc) && (pc.Inside? || pc.Returning? ==> pc.op == op)
    ensures Fits(Inside(op, stage)) ==> Fits(pc) && Says(pc, d)
  {
  }

  lemma ChildrenMayVanish(c: Control, pid: nat)
    requires ControlInv(c)
    ensures ControlInv(c.(children := c.children - {pid}))
    ensures NoChild(c) ==> NoChild(c.(children := c.children - {pid}))
    ensures forall pc :: Says(pc, c) ==> Says(pc, c.(children := c.children - {pid}))
  {
  }

  /** In every reachable state the controller runs exactly when it has a child, and owns every child. */
  lemma {:induction false} EveryStateIsSound(r: Run, i: nat)
    requires IsRun(r) && i < |r.states|
    ensures Inv(r.states[i])
  {
    if i == 0 {
    } else {
      EveryStateIsSound(r, i - 1);
      StepKeepsInv(r.states[i - 1], r.actions[i - 1], r.states[i]);
    }
  }

  /** A restart forks only after its stop has left no child, and a start or restart that answers Ok leaves the
      newest child owned and running. */
  lemma OkMeansRunning(r: Run, i: nat, t: nat)
    requires IsRun(r) && i < |r.states|
    ensures var s := r.states[i];
            && (PcOf(s, t) == Inside(RestartOp, Spawning) ==> s.control.children == {})
            && (PcOf(s, t) in {Returning(StartOp, true), Returning(RestartOp, true)} ==>
                  s.control.status == ProcessStatus(Running, 0) && s.control.childPid == s.control.forks - 1)
  {
    EveryStateIsSound(r, i);
    assert Says(PcOf(r.states[i], t), r.states[i].control);
  }

  // ---- Shutdown ----

  /** Some thread is past the gate of a start. */
  ghost predicate PastGate(s: Pool) {
    s.holder.Some? && PcOf(s, s.holder.value).Inside? && PcOf(s, s.holder.value).stage.Spawning?
  }

  /** Forks done, and the one that may still come. */
  ghost function Budget(s: Pool): nat {
    s.control.forks + if PastGate(s) then 1 else 0
  }

  ghost predicate Quiesced(s: Pool) {
    s.shutdown && !PastGate(s) && NoChild(s.control)
  }

  lemma StepAfterShutdown(s: Pool, a: Action, s': Pool)
    requires Inv(s) && Next(s, a, s') && s.shutdown
    ensures s'.shutdown && Budget(s') <= Budget(s) && s.control.forks <= s'.control.forks
    ensures Quiesced(s) ==> Quiesced(s')
  {
    match a
    case Vanish(pid) => ChildrenMayVanish(s.control, pid);
    case _ =>
  }

  lemma {:induction false} RunAfterShutdown(r: Run, i: nat, j: nat)
    requires IsRun(r) && i <= j < |r.states| && r.states[i].shutdown
    ensures r.states[j].shutdown && r.states[i].control.forks <= r.states[j].control.forks
    ensures Budget(r.states[j]) <= Budget(r.states[i])
    ensures Quiesced(r.states[i]) ==> Quiesced(r.states[j])
    decreases j
  {
    hide Next, Inv, Budget, Quiesced, Init;
    if i == j {
    } else {
      RunAfterShutdown(r, i, j - 1);
      EveryStateIsSound(r, j - 1);
      StepAfterShutdown(r.states[j - 1], r.actions[j - 1], r.states[j]);
    }
  }

  /** At most one fork follows RequestShutdown, and only if some start was already past its gate. */
  lemma AtMostOneForkFollows(r: Run, i: nat, j: nat)
    requires IsRun(r) && i < j < |r.states| && r.actions[i].Request?
    ensures r.states[j].control.forks <= r.states[i].control.forks + if PastGate(r.states[i]) then 1 else 0
  {
    RunAfterShutdown(r, i + 1, j);
  }

  /** Once a Stop returns Ok after shutdown was requested, no child exists ever after, whatever calls are in
      flight or arrive later. A Stop that began after the request is such a Stop. */
  lemma NoChildAfterStop(r: Run, request: nat, i: nat, j: nat)
    requires IsRun(r) && request < i < j < |r.states| && r.actions[request].Request?
    requires r.actions[i].Unlock? && PcOf(r.states[i], r.actions[i].thread) == Returning(StopOp, true)
    ensures r.states[j].control.children == {} && r.states[j].control.status.state != Running
    ensures r.states[j].control.forks == r.states[i].control.forks
  {
    RunAfterShutdown(r, request + 1, i);
    EveryStateIsSound(r, i);
    EveryStateIsSound(r, j);
    StepAfterShutdown(r.states[i], r.actions[i], r.states[i + 1]);
    RunAfterShutdown(r, i + 1, j);
  }

  lemma FirstSpawn()
    ensures var none, one := Control(STOPPED, -1, {}, 0, 0), Control(RUNNING, 0, {0}, 1, 1);
            Acts(StartOp, Spawning, none, Returning(StartOp, true), one)
  {
    assert SpawnStep(Control(STOPPED, -1, {}, 0, 0), Control(RUNNING, 0, {0}, 1, 1), true);
  }

  /** The bound is met: a start that had read the flag before it was set still forks. */
  lemma AForkMayFollow()
    ensures exists r: Run, i: nat, j: nat ::
              IsRun(r) && i < j < |r.states| && r.actions[i].Request?
              && r.states[j].control.forks == r.states[i].control.forks + 1
  {
    hide Acts;
    var none := Control(STOPPED, -1, {}, 0, 0);
    var one := Control(RUNNING, 0, {0}, 1, 1);
    var s0 := Pool(false, None, map[], none);
    var s1 := Move(s0, 0, Waiting(StartOp), None, none);
    var s2 := Move(s1, 0, Inside(StartOp, StartGate), Some(0), none);
    var s3 := Move(s2, 0, Inside(StartOp, Spawning), Some(0), none);
    var s4 := s3.(shutdown := true);
    var s5 := Move(s4, 0, Returning(StartOp, true), Some(0), one);
    var r := Run([s0, s1, s2, s3, s4, s5], [Call(0, StartOp), Lock(0), Load(0), Request(7), Act(0)]);
    FirstSpawn();
    assert Next(s0, Call(0, StartOp), s1);
    assert Next(s1, Lock(0), s2);
    assert Next(s2, Load(0), s3);
    assert Next(s3, Request(7), s4);
    assert Next(s4, Act(0), s5);
    assert IsRun(r);
    assert r.actions[3].Request? && r.states[5].control.forks == r.states[3].control.forks + 1;
  }

  /** A start or restart that gets the mutex after the request is refused at its first gate: whatever happens
      meanwhile, its next step returns an error and leaves the controller alone. */
  lemma RefusedAfterShutdown(s: Pool, a: Action, s': Pool, t: nat)
    requires Inv(s) && s.shutdown && Next(s, a, s')
    requires PcOf(s, t).Inside? && PcOf(s, t).op in {StartOp, RestartOp} && PcOf(s, t).stage == Entry(PcOf(s, t).op)
    ensures s'.shutdown
    ensures if Serves(a) then PcOf(s', t) == Returning(PcOf(s, t).op, false) && s'.control == s.control
            else PcOf(s', t) == PcOf(s, t) && s'.control.children <= s.control.children
                 && s'.control.status == s.control.status
  {
    match a
    case Request(_) => assert PcOf(s', t) == PcOf(s, t);
    case Vanish(_) => assert PcOf(s', t) == PcOf(s, t);
    case _ =>
  }

  // ---- No call blocks for ever ----

  /** The steps of a call that is under way. */
  predicate Serves(a: Action) {
    a.Lock? || a.Load? || a.Act? || a.Unlock?
  }

  /** While any call is pending, the mutex can be taken, or its holder has a step. */
  lemma CanGoOn(s: Pool, t: nat) returns (a: Action, s': Pool)
    requires Inv(s) && !PcOf(s, t).Idle?
    ensures Serves(a) && Next(s, a, s')
  {
    if s.holder.None? {
      a := Lock(t);
      s' := Move(s, t, Inside(PcOf(s, t).op, Entry(PcOf(s, t).op)), Some(t), s.control);
    } else {
      var u := s.holder.value;
      var pc := PcOf(s, u);
      assert Critical(pc);
      if pc.Returning? {
        a := Unlock(u);
        s' := Move(s, u, Idle, None, s.control);
      } else if IsGate(pc.stage) {
        a := Load(u);
        s' := Move(s, u, AtGate(pc, s.shutdown), s.holder, s.control);
      } else {
        var done := SomethingToDo(pc.op, pc.stage, s.control);
        a := Act(u);
        s' := Move(s, u, done, s.holder, s.control);
      }
    }
  }

  /** Even when every system call fails, a call comes to its end. */
  lemma SomethingToDo(op: Op, stage: Stage, c: Control) returns (pc: Pc)
    requires ControlInv(c) && !IsGate(stage)
    ensures Acts(op, stage, c, pc, c)
  {
    match stage
    case Stopping =>
      assert StopStep(c, c, c.childPid < 0);
      pc := AfterStop(op, c.childPid < 0);
    case Spawning =>
      assert SpawnStep(c, c, false);
      pc := Returning(op, false);
    case Reaping =>
      pc := Returning(op, true);
  }

  /** How many steps a call still takes at most. */
  function StepsLeft(pc: Pc): nat {
    match pc
    case Idle => 0
    case Waiting(_) => 7
    case Returning(_, _) => 1
    case Inside(_, stage) =>
      match stage
      case RestartGate => 6
      case Stopping => 5
      case SecondGate => 4
      case StartGate => 3
      case Spawning => 2
      case Reaping => 2
  }

  /** Every step of a call brings it nearer to its end, and no step of others sets it back. */
  lemma CallsEnd(s: Pool, a: Action, s': Pool)
    requires Next(s, a, s')
    ensures Serves(a) ==> StepsLeft(PcOf(s', a.thread)) < StepsLeft(PcOf(s, a.thread))
    ensures forall t: nat :: StepsLeft(PcOf(s', t)) <= StepsLeft(PcOf(s, t)) || a == Call(t, PcOf(s', t).op)
  {
    match a
    case Request(_) => assert forall t: nat :: PcOf(s', t) == PcOf(s, t);
    case Vanish(_) => assert forall t: nat :: PcOf(s', t) == PcOf(s, t);
    case _ =>
  }

  // ---- Crash reports ----

  lemma StepKeepsReport(s: Pool, a: Action, s': Pool)
    requires Next(s, a, s')
    ensures s.control.owned <= s'.control.owned
    ensures s.control.status.state != Running && s'.control.owned == s.control.owned ==>
              s'.control.status == s.control.status
  {
  }

  /** A crash report outlives every call and every failure, until the controller owns another child. */
  lemma {:induction false} CrashIsSticky(r: Run, i: nat, j: nat)
    requires IsRun(r) && i <= j < |r.states| && r.states[i].control.status.state == Crashed
    ensures r.states[i].control.owned <= r.states[j].control.owned
    ensures r.states[j].control.owned == r.states[i].control.owned ==>
              r.states[j].control.status == r.states[i].control.status
    decreases j
  {
    hide Next;
    if i == j {
    } else {
      CrashIsSticky(r, i, j - 1);
      StepKeepsReport(r.states[j - 1], r.actions[j - 1], r.states[j]);
    }
  }
}
