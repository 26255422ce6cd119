/** Run, Stop and the start handler of the API server (src/supervisor/api_server.cc:500-508, 538-579): any
    number of threads that each call Run or Stop once. Of the HTTP library it is assumed that it marks itself
    running before it calls the start handler, and that `stop` takes effect while it is running. */
module ApiLifecycle {
  import opened Basics

  datatype Lifecycle = Idle | Starting | Running | Stopped

  datatype Pc =
    | RunEntering(valid: bool)       // `valid`: dependencies present and the port in range
    | Binding
    | Listening                      // about to call `listen_after_bind`
    | InStartHandler                 // the library is running and calls the start handler
    | StoppingItself                 // the start handler saw the request
    | Serving
    | Ending(ok: bool)               // about to record kStopped
    | StopEntering
    | StopCalling
    | Returned(ok: bool)

  /** `running` and `stopped` belong to the library; `runner` (the thread whose Run got past the latch) and
      `binds` (the calls of `bind_to_port`) are history. */
  datatype Shared = Shared(
    lifecycle: Lifecycle,
    stopRequested: bool,
    running: bool,
    stopped: bool,
    runner: Option<nat>,
    binds: nat)

  datatype State = State(shared: Shared, threads: seq<Pc>)

  function Age(l: Lifecycle): nat {
    match l
    case Idle => 0
    case Starting => 1
    case Running => 2
    case Stopped => 3
  }

  /** The library's `stop`. */
  function LibraryStop(s: Shared): Shared {
    s.(stopped := s.stopped || s.running)
  }

  /** Thread `t` goes from `pc` to `pc'`. */
  predicate Local(s: Shared, t: nat, pc: Pc, s': Shared, pc': Pc) {
    match pc
    case RunEntering(valid) =>
      if !valid || !s.lifecycle.Idle? then s' == s && pc' == Returned(false)
      else if s.stopRequested then s' == s.(lifecycle := Stopped) && pc' == Returned(true)
      else s' == s.(lifecycle := Starting, runner := Some(t)) && pc' == Binding
    case Binding => s' == s.(binds := s.binds + 1) && (pc' == Listening || pc' == Ending(false))
    case Listening => (s' == s.(running := true) && pc' == InStartHandler) || (s' == s && pc' == Ending(false))
    case InStartHandler =>
      s' == s.(lifecycle := Running) && pc' == if s.stopRequested then StoppingItself else Serving
    case StoppingItself => s' == LibraryStop(s) && pc' == Serving
    case Serving => s' == s.(running := false) && (pc' == Ending(false) || (s.stopped && pc' == Ending(true)))
    case Ending(ok) => s' == s.(lifecycle := Stopped) && pc' == Returned(ok)
    case StopEntering => s' == s.(stopRequested := true) && pc' == StopCalling
    case StopCalling => s' == LibraryStop(s) && pc' == Returned(true)
    case Returned(_) => false
  }

  predicate Step(s: State, t: nat, s': State) {
    && t < |s.threads| == |s'.threads|
    && Local(s.shared, t, s.threads[t], s'.shared, s'.threads[t])
    && s'.threads == s.threads[t := s'.threads[t]]
  }

  ghost predicate Init(s: State) {
    && s.shared == Shared(Idle, false, false, false, None, 0)
    && forall t :: 0 <= t < |s.threads| ==> s.threads[t].RunEntering? || s.threads[t].StopEntering?
  }

  datatype Run = Run(states: seq<State>, steps: seq<nat>)

  ghost predicate IsRun(r: Run) {
    && |r.states| == |r.steps| + 1
    && Init(r.states[0])
    && forall i :: 0 <= i < |r.steps| ==> Step(r.states[i], r.steps[i], r.states[i + 1])
  }

  // ---- The invariant ----

  predicate Active(pc: Pc) {
    pc.Binding? || pc.Listening? || pc.InStartHandler? || pc.StoppingItself? || pc.Serving? || pc.Ending?
  }

  predicate LibraryRuns(pc: Pc) {
    pc.InStartHandler? || pc.StoppingItself? || pc.Serving?
  }

  /** What the runner's progress says about the shared state. */
  predicate Agrees(s: Shared, pc: Pc) {
    && (Active(pc) || pc.Returned?)
    && (if pc.Returned? then s.lifecycle.Stopped? else s.lifecycle.Starting? || s.lifecycle.Running?)
    && (s.running <==> LibraryRuns(pc))
    && s.binds == (if pc.Binding? then 0 else 1)
    && (pc.StoppingItself? ==> s.stopRequested)
  }

  predicate NoRunner(s: Shared) {
    !s.running && s.binds == 0 && (s.lifecycle.Idle? || s.lifecycle.Stopped?)
  }

  ghost predicate OneRunner(s: State) {
    && (forall t: nat :: t < |s.threads| && Active(s.threads[t]) ==> s.shared.runner == Some(t))
    && match s.shared.runner
       case None => NoRunner(s.shared)
       case Some(r) => r < |s.threads| && Agrees(s.shared, s.threads[r])
  }

  ghost predicate SomeoneCallsStop(threads: seq<Pc>) {
    exists u :: 0 <= u < |threads| && threads[u].StopCalling?
  }

  predicate Serves(s: State) {
    s.shared.runner.Some? && s.shared.runner.value < |s.threads| && s.threads[s.shared.runner.value].Serving?
  }

  /** While the library serves, a request it has not felt yet is still to be passed on by a Stop. */
  ghost predicate NoLostRequest(s: State) {
    Serves(s) && s.shared.stopRequested && !s.shared.stopped ==> SomeoneCallsStop(s.threads)
  }

  ghost predicate Inv(s: State) {
    OneRunner(s) && NoLostRequest(s)
  }

  /** A step of the runner, or one that makes the thread the runner. */
  lemma RunnerStep(s: Shared, t: nat, pc: Pc, s': Shared, pc': Pc)
    requires Local(s, t, pc, s', pc')
    requires if s.runner == Some(t) then Agrees(s, pc) else s.runner.None? && NoRunner(s) && !Active(pc)
    ensures if s'.runner == Some(t) then Agrees(s', pc') else s'.runner.None? && NoRunner(s') && !Active(pc')
    ensures s.runner.Some? ==> s'.runner == s.runner
  {
  }

  /** A step of a thread that cannot be the runner any more. */
  lemma OtherStep(s: Shared, t: nat, pc: Pc, s': Shared, pc': Pc, runner: Pc)
    requires Local(s, t, pc, s', pc') && s.runner.Some? && s.runner != Some(t) && Agrees(s, runner) && !Active(pc)
    ensures s'.runner == s.runner && Agrees(s', runner) && !Active(pc')
  {
  }

  lemma StepKeepsRunner(s: State, t: nat, s': State)
    requires OneRunner(s) && Step(s, t, s')
    ensures OneRunner(s')
  {
    hide Local, Agrees, NoRunner, Active;
    var pc, pc' := s.threads[t], s'.threads[t];
    if s.shared.runner.Some? && s.shared.runner != Some(t) {
      OtherStep(s.shared, t, pc, s'.shared, pc', s.threads[s.shared.runner.value]);
    } else {
      RunnerStep(s.shared, t, pc, s'.shared, pc');
    }
  }

  lemma StepKeepsRequest(s: State, t: nat, s': State)
    requires Inv(s) && Step(s, t, s') && OneRunner(s')
    ensures NoLostRequest(s')
  {
    if s.threads[t].StopEntering? {
      assert s'.threads[t].StopCalling?;
    } else if !s.threads[t].StopCalling? && SomeoneCallsStop(s.threads) {
      var u :| 0 <= u < |s.threads| && s.threads[u].StopCalling?;
      assert s'.threads[u].StopCalling?;
    }
  }

  /** The lifecycle only moves forward, and a request is never taken back. */
  lemma StepMovesForward(s: State, t: nat, s': State)
    requires Inv(s) && Step(s, t, s')
    ensures Age(s.shared.lifecycle) <= Age(s'.shared.lifecycle)
    ensures s.shared.stopRequested ==> s'.shared.stopRequested
  {
    if s.threads[t].InStartHandler? {
      assert s.shared.runner == Some(t);
    }
  }

  lemma {:induction false} EveryStateIsSound(r: Run, i: nat)
    requires IsRun(r) && i < |r.states|
    ensures Inv(r.states[i]) && |r.states[i].threads| == |r.states[0].threads|
  {
    hide OneRunner, NoLostRequest, Local;
    if i == 0 {
      FirstStateIsSound(r.states[0]);
    } else {
      EveryStateIsSound(r, i - 1);
      StepKeepsRunner(r.states[i - 1], r.steps[i - 1], r.states[i]);
      StepKeepsRequest(r.states[i - 1], r.steps[i - 1], r.states[i]);
    }
  }

  lemma FirstStateIsSound(s: State)
    requires Init(s)
    ensures Inv(s)
  {
  }

  // ---- Every Stop is felt ----

  /** A thread rests when it has returned, or serves and nothing has told the library to stop. */
  predicate Rests(s: State, pc: Pc) {
    pc.Returned? || (pc.Serving? && !s.shared.stopped)
  }

  ghost predicate AtRest(s: State) {
    forall t :: 0 <= t < |s.threads| ==> Rests(s, s.threads[t])
  }

  /** How many steps a thread may still take. */
  function StepsLeft(pc: Pc): nat {
    match pc
    case RunEntering(_) => 7
    case Binding => 6
    case Listening => 5
    case InStartHandler => 4
    case StoppingItself => 3
    case Serving => 2
    case Ending(_) => 1
    case StopEntering => 2
    case StopCalling => 1
    case Returned(_) => 0
  }

  function TotalLeft(threads: seq<Pc>): nat {
    if threads == [] then 0 else StepsLeft(threads[0]) + TotalLeft(threads[1..])
  }

  lemma {:induction false} TotalAfterUpdate(threads: seq<Pc>, t: nat, pc: Pc)
    requires t < |threads|
    ensures TotalLeft(threads[t := pc]) == TotalLeft(threads) - StepsLeft(threads[t]) + StepsLeft(pc)
  {
    hide StepsLeft;
    if t > 0 {
      TotalAfterUpdate(threads[1..], t - 1, pc);
      assert threads[t := pc][1..] == threads[1..][t - 1 := pc];
    } else {
      assert threads[0 := pc][1..] == threads[1..];
    }
  }

  lemma LocalSpendsOne(s: Shared, t: nat, pc: Pc, s': Shared, pc': Pc)
    requires Local(s, t, pc, s', pc')
    ensures StepsLeft(pc') < StepsLeft(pc)
  {
  }

  lemma StepSpendsOne(s: State, t: nat, s': State)
    requires Step(s, t, s')
    ensures TotalLeft(s'.threads) < TotalLeft(s.threads)
  {
    hide TotalLeft, StepsLeft, Local;
    TotalAfterUpdate(s.threads, t, s'.threads[t]);
    LocalSpendsOne(s.shared, t, s.threads[t], s'.shared, s'.threads[t]);
  }

  /** No run takes more steps than its threads have. */
  lemma {:induction false} RunsEnd(r: Run, i: nat)
    requires IsRun(r) && i < |r.states|
    ensures i + TotalLeft(r.states[i].threads) <= TotalLeft(r.states[0].threads)
  {
    hide Step, TotalLeft;
    if i == 0 {
    } else {
      RunsEnd(r, i - 1);
      StepSpendsOne(r.states[i - 1], r.steps[i - 1], r.states[i]);
    }
  }

  /** A run that is not at rest can go on. */
  lemma CanGoOn(s: State) returns (t: nat, s': State)
    requires !AtRest(s)
    ensures Step(s, t, s')
  {
    t :| t < |s.threads| && !Rests(s, s.threads[t]);
    var d, pc := LocalCanGoOn(s.shared, t, s.threads[t]);
    s' := State(d, s.threads[t := pc]);
  }

  lemma LocalCanGoOn(s: Shared, t: nat, pc: Pc) returns (s': Shared, pc': Pc)
    requires !pc.Returned? && (pc.Serving? ==> s.stopped)
    ensures Local(s, t, pc, s', pc') && (pc.Serving? ==> pc' == Ending(true))
  {
    match pc
    case RunEntering(valid) =>
      if !valid || !s.lifecycle.Idle? { return s, Returned(false); }
      if s.stopRequested { return s.(lifecycle := Stopped), Returned(true); }
      return s.(lifecycle := Starting, runner := Some(t)), Binding;
    case Binding => return s.(binds := s.binds + 1), Listening;
    case Listening => return s.(running := true), InStartHandler;
    case InStartHandler => return s.(lifecycle := Running), if s.stopRequested then StoppingItself else Serving;
    case StoppingItself => return LibraryStop(s), Serving;
    case Serving => return s.(running := false), Ending(true);
    case Ending(ok) => return s.(lifecycle := Stopped), Returned(ok);
    case StopEntering => return s.(stopRequested := true), StopCalling;
    case StopCalling => return LibraryStop(s), Returned(true);
  }

  predicate Ended(s: State) {
    && !s.shared.running && (s.shared.lifecycle.Idle? || s.shared.lifecycle.Stopped?)
    && forall t :: 0 <= t < |s.threads| ==> s.threads[t].Returned?
  }

  /** No Stop is lost: a run with a Stop in it can come to rest only with every call returned and the listener
      stopped or never started. */
  lemma NoLostStop(r: Run, stop: nat)
    requires IsRun(r) && stop < |r.states[0].threads| && r.states[0].threads[stop].StopEntering?
    requires AtRest(r.states[|r.steps|])
    ensures Ended(r.states[|r.steps|])
  {
    var s := r.states[|r.steps|];
    EveryStateIsSound(r, |r.steps|);
    StopsAskFirst(r, stop, |r.steps|);
    assert !SomeoneCallsStop(s.threads);
  }

  lemma {:induction false} StopsAskFirst(r: Run, stop: nat, i: nat)
    requires IsRun(r) && stop < |r.states[0].threads| && r.states[0].threads[stop].StopEntering? && i < |r.states|
    ensures stop < |r.states[i].threads|
    ensures r.states[i].threads[stop].StopEntering? || r.states[i].shared.stopRequested
  {
    if i == 0 {
    } else {
      StopsAskFirst(r, stop, i - 1);
      assert Step(r.states[i - 1], r.steps[i - 1], r.states[i]);
    }
  }

  /** Of all Runs at most one binds, and the lifecycle never goes back. */
  lemma {:induction false} OneBindForwardOnly(r: Run, i: nat, j: nat)
    requires IsRun(r) && i <= j < |r.states|
    ensures r.states[j].shared.binds <= 1
    ensures Age(r.states[i].shared.lifecycle) <= Age(r.states[j].shared.lifecycle)
    decreases j
  {
    hide Step;
    EveryStateIsSound(r, j);
    if i == j {
    } else {
      OneBindForwardOnly(r, i, j - 1);
      EveryStateIsSound(r, j - 1);
      StepMovesForward(r.states[j - 1], r.steps[j - 1], r.states[j]);
    }
  }

  // ---- What a Run answers ----

  predicate Succeeds(pc: Pc) {
    pc == Returned(true) || pc == Ending(true)
  }

  ghost predicate IsOkRun(first: seq<Pc>, s: State, t: nat)
    requires |first| == |s.threads|
  {
    t < |first| && first[t].RunEntering? && Succeeds(s.threads[t])
  }

  ghost predicate OneOk(first: seq<Pc>, s: State)
    requires |first| == |s.threads|
  {
    s.shared.runner.None? ==> forall t: nat, u: nat :: IsOkRun(first, s, t) && IsOkRun(first, s, u) ==> t == u
  }

  /** What holds of the answers of the threads that began as `first`. */
  ghost predicate Answers(first: seq<Pc>, s: State) {
    && |first| == |s.threads|
    && (s.shared.stopped ==> s.shared.stopRequested)
    && (forall t: nat :: t < |first| && s.threads[t].StopCalling? ==> s.shared.stopRequested)
    && (forall t: nat :: t < |first| && first[t].RunEntering? ==> AnswerOf(first[t], t, s))
    && OneOk(first, s)
  }

  ghost predicate AnswerOf(first: Pc, t: nat, s: State)
    requires t < |s.threads| && first.RunEntering?
  {
    var pc := s.threads[t];
    && !pc.StopEntering? && !pc.StopCalling?
    && (pc.RunEntering? ==> pc == first)
    && (!first.valid ==> pc == first || pc == Returned(false))
    && (Succeeds(pc) ==> s.shared.stopRequested && !s.shared.lifecycle.Idle?)
    && (pc == Returned(true) ==> s.shared.lifecycle.Stopped?)
    && (Succeeds(pc) && s.shared.runner.Some? ==> s.shared.runner == Some(t))
    && (pc.StoppingItself? ==> s.shared.stopRequested)
  }

  /** What one step does to the answer of its own thread. */
  lemma OwnAnswer(first: Pc, t: nat, s: State, s': State)
    requires Inv(s) && Inv(s') && Step(s, t, s') && first.RunEntering? && AnswerOf(first, t, s)
    requires s.shared.stopped ==> s.shared.stopRequested
    ensures AnswerOf(first, t, s')
  {
  }

  /** And to the answers of others. */
  lemma OtherAnswer(first: Pc, t: nat, u: nat, s: State, s': State)
    requires Inv(s) && Step(s, t, s') && u < |s.threads| && u != t && first.RunEntering? && AnswerOf(first, u, s)
    ensures AnswerOf(first, u, s')
  {
    hide NoLostRequest;
    assert s'.threads[u] == s.threads[u];
  }

  lemma StopIsAsked(s: State, t: nat, s': State)
    requires Inv(s) && Step(s, t, s') && (s.shared.stopped ==> s.shared.stopRequested)
    requires s.threads[t].StopCalling? ==> s.shared.stopRequested
    ensures s'.shared.stopped ==> s'.shared.stopRequested
  {
    if s.threads[t].StoppingItself? {
      assert s.shared.runner == Some(t);
    }
  }

  lemma StillOneOk(first: seq<Pc>, s: State, t: nat, s': State)
    requires Inv(s) && Step(s, t, s') && Answers(first, s)
    ensures OneOk(first, s')
  {
    if s'.shared.runner.None? {
      forall u: nat | u != t && IsOkRun(first, s', u)
        ensures IsOkRun(first, s, u) && !s.shared.lifecycle.Idle?
      {
        assert s'.threads[u] == s.threads[u];
        assert AnswerOf(first[u], u, s);
      }
    }
  }

  lemma StepKeepsAnswers(first: seq<Pc>, s: State, t: nat, s': State)
    requires Inv(s) && Inv(s') && Step(s, t, s') && Answers(first, s)
    ensures Answers(first, s')
  {
    StopIsAsked(s, t, s');
    StillOneOk(first, s, t, s');
    StepMovesForward(s, t, s');
    forall u: nat | u < |first| && first[u].RunEntering? ensures AnswerOf(first[u], u, s') {
      if u == t {
        OwnAnswer(first[u], u, s, s');
      } else {
        OtherAnswer(first[u], t, u, s, s');
      }
    }
    forall u: nat | u < |first| && s'.threads[u].StopCalling? ensures s'.shared.stopRequested {
      if u == t {
        StartedToStop(s, t, s');
      } else {
        assert s'.threads[u] == s.threads[u];
      }
    }
  }

  lemma StartedToStop(s: State, t: nat, s': State)
    requires Step(s, t, s') && s'.threads[t].StopCalling?
    ensures s'.shared.stopRequested
  {
  }

  lemma {:induction false} EveryAnswerIsSound(r: Run, i: nat)
    requires IsRun(r) && i < |r.states|
    ensures Answers(r.states[0].threads, r.states[i])
  {
    hide Inv, Step, Answers, Init;
    if i == 0 {
      FirstAnswers(r.states[0]);
    } else {
      EveryAnswerIsSound(r, i - 1);
      EveryStateIsSound(r, i - 1);
      EveryStateIsSound(r, i);
      StepKeepsAnswers(r.states[0].threads, r.states[i - 1], r.steps[i - 1], r.states[i]);
    }
  }

  lemma FirstAnswers(s: State)
    requires Init(s)
    ensures Answers(s.threads, s)
  {
  }

  /** A Run that answered Ok was asked to stop and has left the lifecycle stopped; a Run with a bad argument never
      answers Ok, and of any two Runs at most one does. */
  lemma OkRunWasStopped(r: Run, i: nat, t: nat, u: nat)
    requires IsRun(r) && i < |r.states| && t < |r.states[0].threads| && r.states[0].threads[t].RunEntering?
    ensures |r.states[i].threads| == |r.states[0].threads|
    ensures r.states[i].threads[t] == Returned(true) ==>
              && r.states[i].shared.stopRequested && r.states[i].shared.lifecycle.Stopped?
              && r.states[0].threads[t].valid
    ensures t != u && u < |r.states[0].threads| && r.states[0].threads[u].RunEntering? ==>
              !(r.states[i].threads[t] == r.states[i].threads[u] == Returned(true))
  {
    hide IsRun;
    EveryAnswerIsSound(r, i);
    var first, s := r.states[0].threads, r.states[i];
    assert AnswerOf(first[t], t, s);
    assert IsOkRun(first, s, t) <==> Succeeds(s.threads[t]);
    if u < |first| && first[u].RunEntering? {
      assert AnswerOf(first[u], u, s);
      assert IsOkRun(first, s, u) <==> Succeeds(s.threads[u]);
    }
  }
}
