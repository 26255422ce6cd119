/** The child between `fork` and `exec` (src/supervisor/process_controller.cc:191-232) while SIGTERM and
    SIGINT may be sent to it at any moment. */
module SignalHandoff {
  import opened ProcessController

  datatype Fate = Running | Dead(cause: Signal) | Left(code: nat)

  datatype Stage = ResetTerm | ResetInt | SetMask | Exec | Daemon

  /** `handlers` are the signals whose disposition is an inherited handler; `sent` and `handlerRan` are history. */
  datatype Child = Child(
    stage: Stage,
    mask: set<Signal>,
    handlers: set<Signal>,
    pending: set<Signal>,
    fate: Fate,
    sent: set<Signal>,
    handlerRan: bool)

  datatype Action = Proceed(ok: bool) | Send(signal: Signal) | Deliver(signal: Signal) | DieOf(signal: Signal)

  /** A new child inherits mask and dispositions, and starts with no pending signal. */
  function Forked(mask: set<Signal>, handlers: set<Signal>): Child {
    Child(ResetTerm, mask, handlers, {}, Fate.Running, {}, false)
  }

  function Advance(c: Child, original: set<Signal>): Child {
    match c.stage
    case ResetTerm => c.(handlers := c.handlers - {Term}, stage := ResetInt)
    case ResetInt => c.(handlers := c.handlers - {Int}, stage := SetMask)
    case SetMask => c.(mask := original, stage := Exec)
    case Exec => c.(handlers := {}, stage := Daemon)
    case Daemon => c
  }

  ghost predicate Next(c: Child, a: Action, original: set<Signal>, d: Child) {
    && c.fate.Running?
    && match a
       case Proceed(ok) =>
         && !c.stage.Daemon?
         && d == if ok then Advance(c, original) else c.(fate := Left(if c.stage.Exec? then 127 else 126))
       case Send(signal) =>
         signal in SHUTDOWN_SIGNALS && d == c.(pending := c.pending + {signal}, sent := c.sent + {signal})
       case Deliver(signal) =>
         && signal in c.pending - c.mask
         && d == if signal in c.handlers then c.(pending := c.pending - {signal}, handlerRan := true)
                 else c.(fate := Dead(signal))
       case DieOf(signal) => signal !in SHUTDOWN_SIGNALS && d == c.(fate := Dead(signal))
  }

  datatype Run = Run(states: seq<Child>, actions: seq<Action>)

  ghost predicate IsRun(r: Run, mask: set<Signal>, handlers: set<Signal>, original: set<Signal>) {
    && |r.states| == |r.actions| + 1
    && r.states[0] == Forked(mask, handlers)
    && forall i :: 0 <= i < |r.actions| ==> Next(r.states[i], r.actions[i], original, r.states[i + 1])
  }

  /** The inherited handler never ran, and every shutdown signal sent is still pending unless the child is gone. */
  ghost predicate NothingLost(c: Child) {
    !c.handlerRan && (c.fate.Running? ==> c.sent <= c.pending)
  }

  /** Each shutdown signal is blocked, or has its default disposition. */
  ghost predicate Guarded(mask: set<Signal>, handlers: set<Signal>) {
    forall signal :: signal in {Term, Int} ==> signal in mask || signal !in handlers
  }

  ghost predicate Inv(c: Child) {
    && NothingLost(c)
    && c.pending <= SHUTDOWN_SIGNALS
    && Guarded(c.mask, c.handlers)
    && (!c.stage.ResetTerm? ==> Term !in c.handlers)
    && (!c.stage.ResetTerm? && !c.stage.ResetInt? ==> Int !in c.handlers)
  }

  lemma StepKeepsInv(c: Child, a: Action, original: set<Signal>, d: Child)
    requires Inv(c) && Next(c, a, original, d)
    ensures Inv(d)
    // The only way a shutdown signal goes is by its default action.
    ensures a.Deliver? ==> d.fate == Dead(a.signal)
  {
  }

  lemma {:induction false} EveryStateIsSound(r: Run, mask: set<Signal>, handlers: set<Signal>,
                                             original: set<Signal>, i: nat)
    requires IsRun(r, mask, handlers, original) && i < |r.states| && Guarded(mask, handlers)
    ensures Inv(r.states[i])
  {
    if i == 0 {
    } else {
      EveryStateIsSound(r, mask, handlers, original, i - 1);
      StepKeepsInv(r.states[i - 1], r.actions[i - 1], original, r.states[i]);
    }
  }

  /** A handled signal that is not blocked at the fork can reach the inherited handler and be lost. */
  lemma UnguardedLoses(mask: set<Signal>, handlers: set<Signal>, original: set<Signal>, signal: Signal) returns (r: Run)
    requires signal in SHUTDOWN_SIGNALS && signal !in mask && signal in handlers
    ensures IsRun(r, mask, handlers, original) && |r.states| == 3
    ensures r.states[2].handlerRan && signal in r.states[2].sent && signal !in r.states[2].pending
  {
    var c := Forked(mask, handlers);
    var d := c.(pending := c.pending + {signal}, sent := c.sent + {signal});
    var e := d.(pending := d.pending - {signal}, handlerRan := true);
    r := Run([c, d, e], [Send(signal), Deliver(signal)]);
    assert Next(c, Send(signal), original, d);
    assert Next(d, Deliver(signal), original, e);
  }

  /** The handoff is safe for every schedule of signals and failures exactly when the fork is guarded. */
  lemma SafeExactlyWhenGuarded(mask: set<Signal>, handlers: set<Signal>, original: set<Signal>)
    ensures Guarded(mask, handlers) <==>
              forall r: Run, i: nat :: IsRun(r, mask, handlers, original) && i < |r.states| ==> NothingLost(r.states[i])
  {
    if Guarded(mask, handlers) {
      forall r: Run, i: nat | IsRun(r, mask, handlers, original) && i < |r.states|
        ensures NothingLost(r.states[i])
      {
        EveryStateIsSound(r, mask, handlers, original, i);
      }
    } else {
      var signal :| signal in SHUTDOWN_SIGNALS && !(signal in mask || signal !in handlers);
      var r := UnguardedLoses(mask, handlers, original, signal);
      assert !NothingLost(r.states[2]);
    }
  }

  /** The controller forks with both signals blocked, so whatever handlers it has, nothing is lost, and the
      daemon starts with the supervisor's own mask. */
  lemma ControllerForkIsSafe(mask: set<Signal>, handlers: set<Signal>, r: Run, i: nat)
    requires IsRun(r, mask + {Term, Int}, handlers, mask) && i < |r.states|
    ensures NothingLost(r.states[i])
    ensures r.states[i].fate.Left? ==> r.states[i].fate.code == if r.states[i].stage.Exec? then 127 else 126
    ensures r.states[i].stage.Daemon? ==> r.states[i].mask == mask && r.states[i].handlers == {}
  {
    EveryStateIsSound(r, mask + {Term, Int}, handlers, mask, i);
    DaemonStartsClean(r, mask, handlers, i);
  }

  lemma {:induction false} DaemonStartsClean(r: Run, mask: set<Signal>, handlers: set<Signal>, i: nat)
    requires IsRun(r, mask + {Term, Int}, handlers, mask) && i < |r.states|
    ensures r.states[i].fate.Left? ==> r.states[i].fate.code == if r.states[i].stage.Exec? then 127 else 126
    ensures r.states[i].stage.Exec? || r.states[i].stage.Daemon? ==> r.states[i].mask == mask
    ensures r.states[i].stage.Daemon? ==> r.states[i].handlers == {}
  {
    if i == 0 {
    } else {
      DaemonStartsClean(r, mask, handlers, i - 1);
      assert Next(r.states[i - 1], r.actions[i - 1], mask, r.states[i]);
    }
  }
}
