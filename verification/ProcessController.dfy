/** The process controller of src/supervisor/process_controller.cc (POSIX side) over an operating system
    that may fail any call, let time pass and let the child exit at any moment. */
module ProcessController {
  import opened Basics

  datatype Signal = Term | Int | Kill | Other(number: nat)

  const SHUTDOWN_SIGNALS: set<Signal> := {Term, Int}
  const POLL_INTERVAL := 20

  datatype WaitStatus = Exited(code: nat) | Signaled(signal: nat) | Unknown(raw: int)

  datatype ProcessState = Stopped | Running | Crashed

  datatype ProcessStatus = ProcessStatus(state: ProcessState, exitCode: int)

  const STOPPED := ProcessStatus(Stopped, 0)
  const RUNNING := ProcessStatus(Running, 0)

  /** What a status says of a child that ended with `ws`: its exit code or signal, and stopped if it exited with
      0 or had been asked to go, whichever way it went. */
  predicate Tells(ws: WaitStatus, asked: bool, s: ProcessStatus) {
    match ws
    case Exited(code) => s.exitCode == code && (if asked || code == 0 then s.state.Stopped? else s.state.Crashed?)
    case Signaled(signal) => s.exitCode == signal && (if asked then s.state.Stopped? else s.state.Crashed?)
    case Unknown(raw) => s.exitCode == raw && s.state.Crashed?
  }

  function DecodeExitedStatus(ws: WaitStatus, expected: bool): (s: ProcessStatus)
    ensures s.state != Running && Tells(ws, expected, s)
  {
    match ws
    case Exited(code) => ProcessStatus(if expected || code == 0 then Stopped else Crashed, code)
    case Signaled(signal) => ProcessStatus(if expected then Stopped else Crashed, signal)
    case Unknown(raw) => ProcessStatus(Crashed, raw)
  }

  // ---- The operating system ----

  /** A child that has not been reaped. Process ids stand for process identities: they are never reused. */
  datatype Life = Alive | Zombie(ws: WaitStatus)

  /** A child may exit, and its zombie may vanish if something else reaps it. */
  ghost predicate Evolves(before: map<nat, Life>, after: map<nat, Life>) {
    after.Keys <= before.Keys && forall p :: p in after ==> after[p] == before[p] || before[p].Alive?
  }

  datatype Event =
    | Killed(pid: nat, signal: Signal, at: int)
    | Reaped(pid: nat, ws: WaitStatus)
    | Looked(pid: nat)   // a poll found the child running
    | Slept

  datatype KillResult = Sent | NoSuchProcess | KillFailed
  datatype WaitResult = StillRunning | Collected(ws: WaitStatus) | NoChild | Interrupted | WaitFailed

  /** No child is collected twice, and none is signalled after it was collected. */
  ghost predicate CollectsOnce(log: seq<Event>, reaped: set<nat>) {
    && (forall i :: 0 <= i < |log| && log[i].Reaped? ==> log[i].pid in reaped)
    && (forall i, j :: 0 <= i < j < |log| && log[i].Reaped? && !log[j].Slept? ==> log[j].pid != log[i].pid)
  }

  class Os {
    var children: map<nat, Life>
    var forks: nat           // how many children were forked; the next pid
    ghost var reaped: set<nat>
    var clock: int           // milliseconds
    var interruptions: nat   // EINTRs still to come
    var mask: set<Signal>    // of the calling thread
    ghost var maskFailures: nat
    ghost var faults: nat    // failed calls of any kind
    ghost var log: seq<Event>

    ghost predicate Valid()
      reads this
    {
      && (forall p :: p in children ==> p < forks && p !in reaped)
      && (forall p :: p in reaped ==> p < forks)
      && CollectsOnce(log, reaped)
    }

    constructor (mask: set<Signal>, interruptions: nat)
      ensures Valid() && children == map[] && forks == 0 && log == [] && this.mask == mask
    {
      children, forks, reaped, clock := map[], 0, {}, 0;
      this.interruptions, this.mask, maskFailures, faults, log := interruptions, mask, 0, 0, [];
    }

    /** Time passes and children exit. */
    method Elapse()
      requires Valid()
      modifies this`children, this`clock
      ensures Valid() && Evolves(old(children), children) && clock >= old(clock)
    {
      var left := children.Keys;
      while left != {}
        invariant Valid() && left <= old(children).Keys && Evolves(old(children), children) && clock == old(clock)
        invariant forall p :: p in left && p in children ==> children[p] == old(children)[p]
        decreases |left|
      {
        var p :| p in left;
        left := left - {p};
        var exits: bool := *;
        var vanishes: bool := *;
        var ws: WaitStatus := *;
        if p in children && vanishes {
          children := children - {p};
        } else if p in children && children[p].Alive? && exits {
          children := children[p := Zombie(ws)];
        }
      }
      var passed: int := *;
      if passed > 0 {
        clock := clock + passed;
      }
    }

    method Now() returns (now: int)
      requires Valid()
      modifies this`children, this`clock
      ensures Valid() && Evolves(old(children), children) && now == clock >= old(clock)
    {
      Elapse();
      now := clock;
    }

    method Sleep(duration: nat)
      requires Valid()
      modifies this`children, this`clock, this`log
      ensures Valid() && Evolves(old(children), children) && clock >= old(clock) + duration
      ensures log == old(log) + [Slept]
    {
      Elapse();
      clock := clock + duration;
      log := log + [Slept];
    }

    method BlockSignals(signals: set<Signal>) returns (ok: bool, original: set<Signal>)
      modifies this`mask, this`faults
      ensures original == old(mask) && mask == if ok then old(mask) + signals else old(mask)
      ensures faults == old(faults) + if ok then 0 else 1
    {
      ok := *;
      original := mask;
      if ok {
        mask := mask + signals;
      } else {
        faults := faults + 1;
      }
    }

    method RestoreMask(original: set<Signal>) returns (ok: bool)
      modifies this`mask, this`maskFailures, this`faults
      ensures ok ==> mask == original && maskFailures == old(maskFailures) && faults == old(faults)
      ensures !ok ==> mask == old(mask) && maskFailures == old(maskFailures) + 1 && faults == old(faults) + 1
    {
      ok := *;
      if ok {
        mask := original;
      } else {
        maskFailures := maskFailures + 1;
        faults := faults + 1;
      }
    }

    /** Forking with a shutdown signal unblocked would let the child run the inherited handler. */
    method Fork() returns (pid: int)
      requires Valid() && {Term, Int} <= mask
      modifies this`children, this`forks, this`faults
      ensures Valid() && faults == old(faults) + if pid < 0 then 1 else 0
      ensures pid < 0 ==> children == old(children) && forks == old(forks)
      ensures pid >= 0 ==>
                pid == old(forks) && forks == old(forks) + 1 && children == old(children)[old(forks) := Alive]
    {
      var fails: bool := *;
      if fails {
        faults := faults + 1;
        return -1;
      }
      pid := forks;
      children := children[forks := Alive];
      forks := forks + 1;
    }

    /** Signalling a child that was already reaped would hit a stranger. */
    method SendSignal(pid: nat, signal: Signal) returns (r: KillResult)
      requires Valid() && pid < forks && pid !in reaped
      modifies this`children, this`clock, this`log, this`faults
      ensures Valid() && Evolves(old(children), children) && clock >= old(clock)
      ensures log == old(log) + [Killed(pid, signal, clock)]
      ensures faults == old(faults) + if r.KillFailed? then 1 else 0
    {
      Elapse();
      r := *;
      if r.KillFailed? {
        faults := faults + 1;
      }
      log := log + [Killed(pid, signal, clock)];
    }

    /** `waitpid` with WNOHANG. */
    method Poll(pid: nat) returns (r: WaitResult)
      requires Valid() && pid < forks && pid !in reaped
      modifies this`children, this`clock, this`log, this`reaped, this`faults
      ensures Valid() && clock >= old(clock) && r != Interrupted
      ensures children.Keys <= old(children).Keys
      ensures r.NoChild? || r.Collected? ==> pid !in children
      ensures r.StillRunning? ==> pid in children && children[pid].Alive?
      ensures faults == old(faults) + if r.WaitFailed? then 1 else 0
      ensures reaped == old(reaped) + if r.Collected? then {pid} else {}
      ensures log == old(log) + if r.Collected? then [Reaped(pid, r.ws)]
                                else if r.StillRunning? then [Looked(pid)]
                                else []
    {
      Elapse();
      var fails: bool := *;
      if fails {
        faults := faults + 1;
        return WaitFailed;
      }
      if pid !in children {
        return NoChild;
      }
      if children[pid].Alive? {
        log := log + [Looked(pid)];
        return StillRunning;
      }
      r := Collected(children[pid].ws);
      children := children - {pid};
      reaped := reaped + {pid};
      log := log + [Reaped(pid, r.ws)];
    }

    /** `waitpid` that blocks; it is interrupted finitely often. */
    method Wait(pid: nat) returns (r: WaitResult)
      requires Valid() && pid < forks && pid !in reaped
      modifies this`children, this`clock, this`log, this`reaped, this`interruptions, this`faults
      ensures Valid() && clock >= old(clock) && r != StillRunning
      ensures children.Keys <= old(children).Keys
      ensures r.NoChild? || r.Collected? ==> pid !in children
      ensures faults == old(faults) + if r.WaitFailed? then 1 else 0
      ensures if r.Collected? then log == old(log) + [Reaped(pid, r.ws)] && reaped == old(reaped) + {pid}
              else log == old(log) && reaped == old(reaped)
      ensures if r.Interrupted? then interruptions < old(interruptions) else interruptions == old(interruptions)
    {
      Elapse();
      var fails: bool := *;
      var interrupted: bool := *;
      if interrupted && interruptions > 0 {
        interruptions := interruptions - 1;
        return Interrupted;
      }
      if fails {
        faults := faults + 1;
        return WaitFailed;
      }
      if pid !in children {
        return NoChild;
      }
      var ws: WaitStatus := *;
      r := Collected(if children[pid].Zombie? then children[pid].ws else ws);
      children := children - {pid};
      reaped := reaped + {pid};
      log := log + [Reaped(pid, r.ws)];
    }
  }

  // ---- What a critical section does to the controller ----

  /** Controller and unreaped children, seen between two critical sections. `owned` counts how many
      children the controller has taken as its own. */
  datatype Control = Control(status: ProcessStatus, childPid: int, children: set<nat>, forks: nat, owned: nat)

  /** The controller runs exactly when it has a child, and no unreaped child is anyone else. */
  ghost predicate ControlInv(c: Control) {
    && (c.status.state == Running <==> c.childPid >= 0)
    && (forall p :: p in c.children ==> p == c.childPid)
    && c.childPid < c.forks
  }

  /** Everything but taking a new child: at most the current one is let go. */
  ghost predicate KeepsOrLetsGo(c: Control, d: Control) {
    && ControlInv(d)
    && d.owned == c.owned
    && d.children <= c.children
    && (c.status.state != Running ==> d.status == c.status && d.childPid == c.childPid)
    && (d.status.state == Running ==> d.status == c.status && d.childPid == c.childPid)
  }

  ghost predicate ReapStep(c: Control, d: Control) {
    KeepsOrLetsGo(c, d) && d.forks == c.forks
  }

  /** Ok leaves no child at all; an error leaves the child owned and running. */
  ghost predicate StopStep(c: Control, d: Control, ok: bool) {
    KeepsOrLetsGo(c, d) && d.forks == c.forks && (ok <==> d.childPid < 0)
  }

  /** `StartUnlocked` past its gate: at most one fork, whose child is owned, or collected again. */
  ghost predicate SpawnStep(c: Control, d: Control, ok: bool) {
    && ControlInv(d)
    && c.forks <= d.forks <= c.forks + 1
    && (ok ==> d.owned == c.owned + 1)
    && (d.owned == c.owned + 1 ==>
          && d.forks == c.forks + 1 && d.status == ProcessStatus(Running, 0)
          && d.childPid == c.forks && d.children <= {c.forks})
    && (d.owned != c.owned + 1 ==> KeepsOrLetsGo(c, d))
  }

  lemma ReapThenSpawn(c: Control, d: Control)
    requires ReapStep(c, d)
    ensures SpawnStep(c, d, false) && (d.status.state == Running ==> d.childPid == c.childPid)
    ensures forall e, ok :: d.status.state != Running && SpawnStep(d, e, ok) ==> SpawnStep(c, e, ok)
  {
  }

  /** Children that vanish on the way do not change what a step did. */
  lemma AfterVanishing(c: Control, children: set<nat>)
    requires ControlInv(c) && children <= c.children
    ensures ControlInv(c.(children := children))
    ensures forall d, ok :: StopStep(c.(children := children), d, ok) ==> StopStep(c, d, ok)
  {
  }

  // ---- The controller ----

  /** What `ReapExited` saw: nothing (no child, or none it could wait for), a running child, or its end. */
  datatype Reap = Unseen | SawAlive | FoundExited(ws: WaitStatus)

  /** SIGTERM sent at a time, and then `turns` times a look at the running child and a nap. */
  datatype Ask = NotAsked | Asked(at: int, turns: nat, ending: Ending)

  datatype Ending = Settled | ExitedInTime(ws: WaitStatus) | Forced(at: int) | ForcedExit(at: int, ws: WaitStatus)

  /** What one Stop did. */
  datatype StopTrace = StopTrace(reap: Reap, ask: Ask)

  function ReapEvents(pid: int, reap: Reap): seq<Event> {
    if pid < 0 || reap.Unseen? then [] else if reap.SawAlive? then [Looked(pid)] else [Reaped(pid, reap.ws)]
  }

  function Turns(pid: nat, n: nat): (events: seq<Event>)
    ensures |events| == 2 * n
    ensures forall j :: 0 <= j < 2 * n ==> events[j] == if j % 2 == 0 then Looked(pid) else Slept
  {
    if n == 0 then [] else Turns(pid, n - 1) + [Looked(pid), Slept]
  }

  function EndEvents(pid: nat, ending: Ending): seq<Event> {
    match ending
    case Settled => []
    case ExitedInTime(ws) => [Reaped(pid, ws)]
    case Forced(at) => [Killed(pid, Kill, at)]
    case ForcedExit(at, ws) => [Killed(pid, Kill, at), Reaped(pid, ws)]
  }

  function AskEvents(pid: int, ask: Ask): seq<Event> {
    if pid < 0 || ask.NotAsked? then []
    else [Killed(pid, Term, ask.at)] + Turns(pid, ask.turns) + EndEvents(pid, ask.ending)
  }

  function Events(pid: int, trace: StopTrace): seq<Event> {
    ReapEvents(pid, trace.reap) + AskEvents(pid, trace.ask)
  }

  predicate IsForced(ending: Ending) {
    ending.Forced? || ending.ForcedExit?
  }

  /** The polling ends with the deadline, and SIGKILL waits for the deadline. */
  ghost predicate InTime(ask: Ask, timeout: int) {
    ask.Asked? ==>
      && (ask.turns == 0 || (ask.turns - 1) * POLL_INTERVAL < timeout)
      && (IsForced(ask.ending) ==> ask.ending.at >= ask.at + timeout)
  }

  /** The status after a reap. */
  ghost predicate ReapReports(reap: Reap, was: ProcessStatus, now: ProcessStatus) {
    match reap
    case Unseen => now == was || (was.state == Running && now == ProcessStatus(Stopped, 0))
    case SawAlive => was.state == Running && now == was
    case FoundExited(ws) => was.state == Running && Tells(ws, false, now)
  }

  /** The status after SIGTERM: a child that goes now counts as stopped, however it goes. */
  ghost predicate AskReports(ending: Ending, was: ProcessStatus, now: ProcessStatus, ok: bool) {
    match ending
    case ExitedInTime(ws) => ok && Tells(ws, true, now)
    case ForcedExit(_, _) => ok && now == ProcessStatus(Stopped, 0)
    case _ => now == if ok then ProcessStatus(Stopped, 0) else was
  }

  /** The status after a Stop. */
  ghost predicate Reports(trace: StopTrace, was: ProcessStatus, now: ProcessStatus, ok: bool) {
    if trace.ask.NotAsked? then
      ok && now.state != Running && !trace.reap.SawAlive? && ReapReports(trace.reap, was, now)
    else was.state == Running && !trace.reap.FoundExited? && AskReports(trace.ask.ending, was, now, ok)
  }

  /** What a Restart did before its start: the Stop, the controller after it, and whether it answered Ok. */
  datatype Halt = Halt(trace: StopTrace, after: Control, ok: bool)

  class Controller {
    const os: Os
    var status: ProcessStatus
    var childPid: int
    var shutdownRequested: bool
    ghost var owned: nat

    ghost function View(): Control
      reads this, os
    {
      Control(status, childPid, os.children.Keys, os.forks, owned)
    }

    ghost predicate Valid()
      reads this, os
    {
      os.Valid() && ControlInv(View()) && (childPid >= 0 ==> childPid !in os.reaped)
    }

    constructor (os: Os)
      requires os.Valid() && os.children == map[]
      ensures Valid() && this.os == os && status == STOPPED && !shutdownRequested
    {
      this.os := os;
      status, childPid, shutdownRequested, owned := STOPPED, -1, false, 0;
    }

    method RequestShutdown()
      modifies this`shutdownRequested
      ensures shutdownRequested
    {
      shutdownRequested := true;
    }

    /** The atomic load, which races with a store by another thread. */
    method LoadShutdown() returns (requested: bool)
      modifies this`shutdownRequested
      ensures requested == shutdownRequested && (old(shutdownRequested) ==> requested)
    {
      var stored: bool := *;
      shutdownRequested := shutdownRequested || stored;
      requested := shutdownRequested;
    }

    method ReapExited() returns (ghost reap: Reap)
      requires Valid()
      modifies this`status, this`childPid, os
      ensures Valid() && ReapStep(old(View()), View())
      ensures os.mask == old(os.mask) && os.maskFailures == old(os.maskFailures) && os.clock >= old(os.clock)
      ensures os.log == old(os.log) + ReapEvents(old(childPid), reap)
      ensures ReapReports(reap, old(status), status)
      ensures os.faults >= old(os.faults)
      ensures status.state == Running && os.faults == old(os.faults) ==>
                reap.SawAlive? && childPid in os.children && os.children[childPid].Alive?
    {
      reap := Unseen;
      if status.state != Running {
        return;
      }
      var r := os.Poll(childPid);
      match r
      case Collected(ws) =>
        reap := FoundExited(ws);
        status := DecodeExitedStatus(ws, false);
        childPid := -1;
      case NoChild =>
        childPid := -1;
        status := STOPPED;
      case StillRunning =>
        reap := SawAlive;
      case WaitFailed =>
    }

    method Status() returns (s: ProcessStatus)
      requires Valid()
      modifies this`status, this`childPid, os
      ensures Valid() && ReapStep(old(View()), View()) && s == status
      ensures exists reap ::
                os.log == old(os.log) + ReapEvents(old(childPid), reap) && ReapReports(reap, old(status), s)
      ensures s.state == Running && os.faults == old(os.faults) ==>
                childPid in os.children && os.children[childPid].Alive?
    {
      ghost var reap := ReapExited();
      s := status;
    }

    method Start() returns (ok: bool, ghost reap: Reap, ghost discard: Ending)
      requires Valid()
      modifies this, os
      ensures Valid() && (old(shutdownRequested) ==> shutdownRequested)
      ensures old(shutdownRequested) ==> !ok && View() == old(View()) && os.log == old(os.log)
      ensures SpawnStep(old(View()), View(), ok) || (!ok && View() == old(View()))
      ensures SpawnTrace(reap, discard)
      ensures os.faults >= old(os.faults)
      ensures !ok && !shutdownRequested && os.faults == old(os.faults) ==>
                status.state == Running && childPid == old(childPid) && childPid in os.children && reap.SawAlive?
      ensures os.maskFailures == old(os.maskFailures) ==> os.mask == old(os.mask)
    {
      reap, discard := Unseen, Settled;
      var requested := LoadShutdown();
      if requested {
        return false, reap, discard;
      }
      ok, reap, discard := Spawn();
    }

    /** The events of a start: its reap, and SIGKILL for a new child exactly when the mask could not be restored. */
    twostate predicate SpawnTrace(reap: Reap, discard: Ending)
      reads this, os
    {
      && (discard == Settled || IsForced(discard))
      && os.log == old(os.log) + ReapEvents(old(childPid), reap) + EndEvents(old(os.forks), discard)
      && (IsForced(discard) <==> os.forks > old(os.forks) && os.maskFailures > old(os.maskFailures))
      && (discard.ForcedExit? ==> status.state != Running)
    }

    /** `StartUnlocked` after the gate. */
    method Spawn() returns (ok: bool, ghost reap: Reap, ghost discard: Ending)
      requires Valid()
      modifies this`status, this`childPid, this`owned, os
      ensures Valid() && SpawnStep(old(View()), View(), ok)
      ensures SpawnTrace(reap, discard)
      ensures os.faults >= old(os.faults)
      ensures !ok && os.faults == old(os.faults) ==>
                status.state == Running && childPid == old(childPid) && childPid in os.children && reap.SawAlive?
      ensures os.maskFailures == old(os.maskFailures) ==> os.mask == old(os.mask)
    {
      hide CollectsOnce, SpawnStep, KeepsOrLetsGo;
      ghost var before := View();
      reap := ReapExited();
      discard := Settled;
      ReapThenSpawn(before, View());
      if status.state == Running {
        return false, reap, discard;
      }
      var blocked, original := os.BlockSignals(SHUTDOWN_SIGNALS);
      if !blocked {
        return false, reap, discard;
      }
      ok, discard := ForkChild(original);
    }

    /** `StartUnlocked` once both shutdown signals are blocked. */
    method ForkChild(original: set<Signal>) returns (ok: bool, ghost discard: Ending)
      requires Valid() && status.state != Running && {Term, Int} <= os.mask
      modifies this`status, this`childPid, this`owned, os
      ensures Valid() && SpawnStep(old(View()), View(), ok)
      ensures SpawnTrace(Unseen, discard)
      ensures os.faults >= old(os.faults) && (!ok ==> os.faults > old(os.faults))
      ensures os.maskFailures >= old(os.maskFailures)
      ensures os.maskFailures == old(os.maskFailures) ==> os.mask == original
    {
      hide CollectsOnce;
      discard := Settled;
      var pid := os.Fork();
      if pid < 0 {
        var _ := os.RestoreMask(original);
        return false, discard;
      }
      var restored := os.RestoreMask(original);
      if !restored {
        discard := Discard(pid);
        return false, discard;
      }
      Own(pid);
      return true, discard;
    }

    method Own(pid: nat)
      modifies this`status, this`childPid, this`owned
      ensures status == ProcessStatus(Running, 0) && childPid == pid && owned == old(owned) + 1
    {
      childPid := pid;
      status := RUNNING;
      owned := owned + 1;
    }

    /** The signal mask could not be restored: the new child is killed and collected, or else kept. */
    method Discard(pid: nat) returns (ghost discard: Ending)
      requires os.Valid() && status.state != Running && childPid < 0
      requires pid < os.forks && pid !in os.reaped && os.children.Keys <= {pid}
      modifies this`status, this`childPid, this`owned, os
      ensures Valid() && os.forks == old(os.forks) && os.faults >= old(os.faults)
      ensures os.mask == old(os.mask) && os.maskFailures == old(os.maskFailures)
      ensures IsForced(discard) && os.log == old(os.log) + EndEvents(pid, discard)
      ensures discard.ForcedExit? ==> owned == old(owned)
      ensures || (owned == old(owned) && status == old(status) && childPid == old(childPid) && os.children.Keys == {})
              || (owned == old(owned) + 1 && status == ProcessStatus(Running, 0) && childPid == pid
                  && os.children.Keys <= {pid} && os.faults > old(os.faults))
    {
      var killed := os.SendSignal(pid, Kill);
      discard := Forced(os.clock);
      if killed.KillFailed? {
        Own(pid);
        return;
      }
      var r := AwaitGone(pid);
      if r.WaitFailed? {
        Own(pid);
      } else if r.Collected? {
        discard := ForcedExit(discard.at, r.ws);
      }
    }

    /** The `waitpid` loop that both SIGKILL paths end with. */
    method AwaitGone(pid: nat) returns (r: WaitResult)
      requires os.Valid() && pid < os.forks && pid !in os.reaped && os.children.Keys <= {pid}
      modifies os
      ensures os.Valid() && os.forks == old(os.forks) && os.children.Keys <= old(os.children).Keys
      ensures os.faults >= old(os.faults) && (r.WaitFailed? ==> os.faults > old(os.faults))
      ensures os.mask == old(os.mask) && os.maskFailures == old(os.maskFailures)
      ensures r.Collected? || r.NoChild? || r.WaitFailed?
      ensures !r.WaitFailed? ==> os.children.Keys == {}
      ensures if r.Collected? then os.log == old(os.log) + [Reaped(pid, r.ws)]
              else os.log == old(os.log) && pid !in os.reaped
    {
      r := os.Wait(pid);
      while r.Interrupted?
        invariant os.Valid() && os.forks == old(os.forks) && os.children.Keys <= old(os.children).Keys
        invariant os.mask == old(os.mask) && os.maskFailures == old(os.maskFailures)
        invariant os.faults == old(os.faults) + if r.WaitFailed? then 1 else 0
        invariant r != StillRunning && (r.Collected? || r.NoChild? ==> pid !in os.children)
        invariant if r.Collected? then os.log == old(os.log) + [Reaped(pid, r.ws)]
                  else os.log == old(os.log) && pid !in os.reaped
        decreases os.interruptions, r.Interrupted?
      {
        r := os.Wait(pid);
      }
    }

    method Stop(timeout: int) returns (ok: bool, ghost trace: StopTrace)
      requires Valid()
      modifies this`status, this`childPid, os
      ensures Valid() && StopStep(old(View()), View(), ok)
      ensures os.faults >= old(os.faults) && (!ok ==> os.faults > old(os.faults))
      ensures os.mask == old(os.mask) && os.maskFailures == old(os.maskFailures)
      ensures os.log == old(os.log) + Events(old(childPid), trace)
      ensures InTime(trace.ask, timeout) && Reports(trace, old(status), status, ok)
      // It asks only after a look at the child, unless that look failed.
      ensures trace.ask.Asked? && trace.reap.Unseen? ==> os.faults > old(os.faults)
    {
      hide CollectsOnce, Turns, EndEvents;
      ghost var log, pid := os.log, childPid;
      ghost var reap := ReapExited();
      trace := StopTrace(reap, NotAsked);
      if status.state != Running {
        return true, trace;
      }
      var asked := os.SendSignal(childPid, Term);
      ghost var at := os.clock;
      trace := StopTrace(reap, Asked(at, 0, Settled));
      if asked.KillFailed? {
        NoTurns(log, pid, reap, at);
        return false, trace;
      }
      ghost var turns, ending;
      ok, turns, ending := AwaitExit(timeout);
      trace := StopTrace(reap, Asked(at, turns, ending));
      InOrder(log, ReapEvents(pid, reap), [Killed(pid, Term, at)], Turns(pid, turns), EndEvents(pid, ending));
    }

    /** `StopUnlocked` after SIGTERM: polls until the deadline, then kills. */
    method AwaitExit(timeout: int) returns (ok: bool, ghost turns: nat, ghost ending: Ending)
      requires Valid() && status.state == Running
      modifies this`status, this`childPid, os
      ensures Valid() && StopStep(old(View()), View(), ok)
      ensures os.faults >= old(os.faults) && (!ok ==> os.faults > old(os.faults))
      ensures os.mask == old(os.mask) && os.maskFailures == old(os.maskFailures)
      ensures os.log == old(os.log) + Turns(old(childPid), turns) + EndEvents(old(childPid), ending)
      ensures InTime(Asked(old(os.clock), turns, ending), timeout)
      ensures AskReports(ending, old(status), status, ok)
    {
      hide CollectsOnce, StopStep, KeepsOrLetsGo, DecodeExitedStatus, Tells;
      turns, ending := 0, Settled;
      AfterVanishing(View(), os.children.Keys);
      ghost var entry := os.clock;
      var start := os.Now();
      var deadline := start + timeout;
      var now := os.Now();
      while now < deadline
        invariant Valid() && View() == old(View()).(children := os.children.Keys)
        invariant os.mask == old(os.mask) && os.maskFailures == old(os.maskFailures)
        invariant os.faults >= old(os.faults)
        invariant os.children.Keys <= old(os.children).Keys && ending == Settled
        invariant os.log == old(os.log) + Turns(old(childPid), turns)
        invariant entry <= start && now <= os.clock
        invariant turns * POLL_INTERVAL <= now - start
        invariant turns == 0 || (turns - 1) * POLL_INTERVAL < timeout
        decreases deadline - now
      {
        AfterVanishing(old(View()), os.children.Keys);
        var settled;
        settled, ok, ending := PollOnce();
        if settled {
          return ok, turns, ending;
        }
        now := Nap();
        NextTurn(old(os.log), old(childPid), turns);
        turns := turns + 1;
      }
      AfterVanishing(old(View()), os.children.Keys);
      ok, ending := ForceExit();
    }

    /** One look at the child, in the polling loop: settled when it is gone or cannot be waited for. */
    method PollOnce() returns (settled: bool, ok: bool, ghost ending: Ending)
      requires Valid() && status.state == Running
      modifies this`status, this`childPid, os`children, os`clock, os`log, os`reaped, os`faults
      ensures Valid() && os.clock >= old(os.clock)
      ensures os.faults >= old(os.faults) && (settled && !ok ==> os.faults > old(os.faults))
      ensures if settled then StopStep(old(View()), View(), ok)
              else status == old(status) && childPid == old(childPid) && os.children.Keys <= old(os.children).Keys
      ensures os.log == old(os.log) + if settled then EndEvents(old(childPid), ending) else [Looked(old(childPid))]
      ensures if settled then !IsForced(ending) && AskReports(ending, old(status), status, ok) else ending == Settled
    {
      settled, ok, ending := true, true, Settled;
      var r := os.Poll(childPid);
      match r
      case Collected(ws) =>
        status := DecodeExitedStatus(ws, true);
        childPid := -1;
        ending := ExitedInTime(ws);
      case NoChild =>
        childPid := -1;
        status := STOPPED;
      case WaitFailed =>
        ok := false;
      case StillRunning =>
        settled := false;
    }

    /** Sleeps, and looks at the clock. */
    method Nap() returns (now: int)
      requires Valid()
      modifies os`children, os`clock, os`log
      ensures Valid() && os.children.Keys <= old(os.children).Keys
      ensures os.log == old(os.log) + [Slept] && old(os.clock) + POLL_INTERVAL <= now <= os.clock
    {
      hide CollectsOnce;
      os.Sleep(POLL_INTERVAL);
      now := os.Now();
    }

    /** The end of `StopUnlocked`, once the deadline has passed. */
    method ForceExit() returns (ok: bool, ghost ending: Ending)
      requires Valid() && status.state == Running
      modifies this`status, this`childPid, os
      ensures Valid() && StopStep(old(View()), View(), ok)
      ensures os.faults >= old(os.faults) && (!ok ==> os.faults > old(os.faults))
      ensures os.mask == old(os.mask) && os.maskFailures == old(os.maskFailures)
      ensures os.log == old(os.log) + EndEvents(old(childPid), ending)
      ensures IsForced(ending) && ending.at >= old(os.clock) && AskReports(ending, old(status), status, ok)
    {
      var killed := os.SendSignal(childPid, Kill);
      ending := Forced(os.clock);
      if killed.KillFailed? {
        return false, ending;
      }
      var r := AwaitGone(childPid);
      if r.WaitFailed? {
        return false, ending;
      }
      if r.Collected? {
        ending := ForcedExit(ending.at, r.ws);
      }
      childPid := -1;
      status := STOPPED;
      return true, ending;
    }

    method Restart(timeout: int) returns (ok: bool, ghost stop: Option<Halt>, ghost discard: Ending)
      requires Valid()
      modifies this, os
      ensures Valid() && (old(shutdownRequested) ==> shutdownRequested)
      ensures old(shutdownRequested) ==> stop.None?
      ensures !ok ==> shutdownRequested || os.faults > old(os.faults)
      ensures os.maskFailures == old(os.maskFailures) ==> os.mask == old(os.mask)
      ensures discard == Settled || IsForced(discard)
      ensures match stop
              case None => !ok && shutdownRequested && View() == old(View()) && os.log == old(os.log)
              case Some(s) =>
                && InTime(s.trace.ask, timeout) && Reports(s.trace, old(status), s.after.status, s.ok)
                && (s.trace.ask.Asked? && s.trace.reap.Unseen? ==> os.faults > old(os.faults))
                && StopStep(old(View()), s.after, s.ok)
                && (if s.ok then SpawnStep(s.after, View(), ok) || (!ok && View() == s.after)
                    else !ok && View() == s.after && discard == Settled)
                && os.log == old(os.log) + Events(old(childPid), s.trace) + EndEvents(old(os.forks), discard)
    {
      hide CollectsOnce, SpawnStep, KeepsOrLetsGo, Reports, InTime;
      stop, discard := None, Settled;
      var requested := LoadShutdown();
      if requested {
        return false, stop, discard;
      }
      ghost var trace;
      var stopped;
      stopped, trace := Stop(timeout);
      stop := Some(Halt(trace, View(), stopped));
      if !stopped {
        return false, stop, discard;
      }
      requested := LoadShutdown();
      if requested {
        return false, stop, discard;
      }
      ghost var reap;
      ok, reap, discard := Start();
    }
  }

  lemma NextTurn(log: seq<Event>, pid: nat, n: nat)
    ensures log + Turns(pid, n) + [Looked(pid)] + [Slept] == log + Turns(pid, n + 1)
  {
  }

  lemma InOrder(log: seq<Event>, reap: seq<Event>, kill: seq<Event>, turns: seq<Event>, end: seq<Event>)
    ensures log + reap + kill + turns + end == log + (reap + (kill + turns + end))
  {
  }

  lemma NoTurns(log: seq<Event>, pid: nat, reap: Reap, at: int)
    ensures log + ReapEvents(pid, reap) + [Killed(pid, Term, at)] ==
            log + Events(pid, StopTrace(reap, Asked(at, 0, Settled)))
  {
  }

  // ---- What these contracts mean ----

  /** SIGKILL goes out only after a SIGTERM to the same child and not before the timeout is over, and right after
      a look that found the child running and one nap, unless the time was over before the first look. Collecting
      the child is the last thing a Stop does, and it looks at most once per started 20 ms of its timeout. */
  lemma EscalationIsBounded(pid: nat, trace: StopTrace, timeout: nat)
    requires InTime(trace.ask, timeout)
    ensures trace.ask.Asked? ==> trace.ask.turns <= (timeout + 19) / 20
    ensures var log, first := Events(pid, trace), |ReapEvents(pid, trace.reap)|;
            forall j :: 0 <= j < |log| && log[j].Killed? && log[j].signal != Term ==>
              && first < j && log[first].Killed? && log[first].signal == Term && log[first].pid == log[j].pid == pid
              && log[j].signal == Kill && log[j].at >= log[first].at + timeout
              && (j == first + 1 || (log[j - 1] == Slept && log[j - 2] == Looked(pid)))
    ensures var log := Events(pid, trace);
            forall j :: 0 <= j < |log| && log[j].Reaped? ==> j == |log| - 1 || trace.reap.FoundExited?
  {
    hide Turns;
    var first := |ReapEvents(pid, trace.reap)|;
    if trace.ask.Asked? {
      AskInOrder(pid, trace.ask, timeout);
      assert forall j :: first <= j < |Events(pid, trace)| ==>
          Events(pid, trace)[j] == AskEvents(pid, trace.ask)[j - first];
    }
  }

  lemma AskInOrder(pid: nat, ask: Ask, timeout: nat)
    requires ask.Asked? && InTime(ask, timeout)
    ensures ask.turns <= (timeout + 19) / 20
    ensures var log := AskEvents(pid, ask);
            && log[0] == Killed(pid, Term, ask.at)
            && (forall j :: 0 < j < |log| && log[j].Killed? ==>
                  && log[j].pid == pid && log[j].signal == Kill && log[j].at >= ask.at + timeout
                  && (j == 1 || (log[j - 1] == Slept && log[j - 2] == Looked(pid))))
            && (forall j :: 0 <= j < |log| && log[j].Reaped? ==> j == |log| - 1)
  {
    hide Turns;
    var log, n := AskEvents(pid, ask), 1 + 2 * ask.turns;
    assert forall j :: 1 <= j < n ==> log[j] == Turns(pid, ask.turns)[j - 1];
    assert forall j :: n <= j < |log| ==> log[j] == EndEvents(pid, ask.ending)[j - n];
  }
}
