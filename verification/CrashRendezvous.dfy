/**
 The crash protocol of any number of cores as a state machine over its shared accesses: one core claims the
 crash, every core leaves VMX operation and acknowledges, and the claiming core then stops the system.
 An NMI can reach any core that is still virtualised, in its host code too.
 */
module CrashRendezvous {
  /**
   `Claimed` to `Waiting` are the states of the core that won the claim; `Yielding` to `Hung` those of a
   core that found a crash in progress. `Stopped` has called the bugcheck, after all acknowledgements or,
   if the APIC could not be reached, without waiting for them.
   */
  datatype Phase =
    | Running
    | Claimed | Left | Acked | Waiting
    | Yielding | YieldLeft | Hung
    | Stopped(waited: bool)

  /** `nmi` means that a crash NMI was sent to the core and not delivered yet. */
  datatype Core = Core(phase: Phase, nmi: bool)

  datatype State = State(cores: seq<Core>, inProgress: bool, acks: nat)

  datatype Step =
    | Error(c: nat)
    | Nmi(c: nat)
    | Devirtualize(c: nat)
    | Acknowledge(c: nat)
    | SendNmis(c: nat, reachable: bool)
    | Poll(c: nat)

  function Init(n: nat): State {
    State(seq(n, i => Core(Running, false)), false, 0)
  }

  function SetPhase(s: State, c: nat, phase: Phase): State
    requires c < |s.cores|
  {
    s.(cores := s.cores[c := s.cores[c].(phase := phase)])
  }

  /** Still in VMX operation, with the handlers of the hypervisor in place. */
  predicate Interruptible(phase: Phase) {
    phase.Running? || phase.Claimed? || phase.Yielding?
  }

  /** An unrecoverable error: the compare-exchange claims the crash, or the core yields to an earlier claim. */
  function OnError(s: State, c: nat): State
    requires c < |s.cores|
  {
    if !Interruptible(s.cores[c].phase) then s
    else if s.inProgress then SetPhase(s, c, Yielding)
    else SetPhase(s, c, Claimed).(inProgress := true)
  }

  /** An NMI while the core is virtualised yields if a crash is in progress, else it is queued elsewhere. */
  function OnNmi(s: State, c: nat): State
    requires c < |s.cores|
  {
    var t := s.(cores := s.cores[c := s.cores[c].(nmi := false)]);
    if s.inProgress && Interruptible(s.cores[c].phase) then
      SetPhase(t, c, Yielding)
    else
      t
  }

  function SendToOthers(cores: seq<Core>, c: nat): (r: seq<Core>)
    ensures |r| == |cores|
  {
    seq(|cores|, i requires 0 <= i < |cores| => if i == c then cores[i] else cores[i].(nmi := true))
  }

  function Next(s: State, step: Step): State {
    if step.c >= |s.cores| then s
    else
      var phase := s.cores[step.c].phase;
      match step
      case Error(c) => OnError(s, c)
      case Nmi(c) => OnNmi(s, c)
      case Devirtualize(c) =>
        if phase.Claimed? then SetPhase(s, c, Left)
        else if phase.Yielding? then SetPhase(s, c, YieldLeft)
        else s
      case Acknowledge(c) =>
        if phase.Left? then SetPhase(s, c, Acked).(acks := s.acks + 1)
        else if phase.YieldLeft? then SetPhase(s, c, Hung).(acks := s.acks + 1)
        else s
      case SendNmis(c, reachable) =>
        if !phase.Acked? then s
        else if reachable then SetPhase(s.(cores := SendToOthers(s.cores, c)), c, Waiting)
        else SetPhase(s, c, Stopped(false))
      case Poll(c) => if phase.Waiting? && s.acks >= |s.cores| then SetPhase(s, c, Stopped(true)) else s
  }

  // ----- Invariant -----

  predicate Initiates(phase: Phase) {
    phase.Claimed? || phase.Left? || phase.Acked? || phase.Waiting? || phase.Stopped?
  }

  predicate HasAcked(phase: Phase) {
    phase.Acked? || phase.Waiting? || phase.Stopped? || phase.Hung?
  }

  predicate Devirtualized(phase: Phase) {
    HasAcked(phase) || phase.Left? || phase.YieldLeft?
  }

  function Count(cores: seq<Core>): (n: nat)
    ensures n <= |cores|
  {
    if cores == [] then 0
    else Count(cores[..|cores| - 1]) + if HasAcked(cores[|cores| - 1].phase) then 1 else 0
  }

  predicate OneInitiator(cores: seq<Core>) {
    forall i, j | 0 <= i < j < |cores| :: !(Initiates(cores[i].phase) && Initiates(cores[j].phase))
  }

  predicate OnlyRunning(cores: seq<Core>) {
    forall i | 0 <= i < |cores| :: cores[i].phase.Running?
  }

  /** Once the crash NMIs were sent, a core still running has one on the way. */
  predicate Reached(cores: seq<Core>) {
    forall i, j | 0 <= i < |cores| && 0 <= j < |cores| && cores[i].phase.Waiting? && cores[j].phase.Running? ::
      cores[j].nmi
  }

  predicate AllAcked(cores: seq<Core>) {
    forall i | 0 <= i < |cores| :: HasAcked(cores[i].phase)
  }

  predicate StoppedLast(cores: seq<Core>) {
    (exists i :: 0 <= i < |cores| && cores[i].phase == Stopped(true)) ==> AllAcked(cores)
  }

  predicate Inv(s: State) {
    && s.acks == Count(s.cores)
    && OneInitiator(s.cores)
    && (!s.inProgress ==> OnlyRunning(s.cores))
    && Reached(s.cores)
    && StoppedLast(s.cores)
  }

  lemma {:induction false} CountInit(cores: seq<Core>)
    requires OnlyRunning(cores)
    ensures Count(cores) == 0
  {
    if cores != [] {
      CountInit(cores[..|cores| - 1]);
    }
  }

  lemma {:induction false} CountUpdate(cores: seq<Core>, c: nat, core: Core)
    requires c < |cores|
    ensures Count(cores[c := core]) ==
            Count(cores) + (if HasAcked(core.phase) then 1 else 0) - (if HasAcked(cores[c].phase) then 1 else 0)
  {
    var n := |cores| - 1;
    if c < n {
      CountUpdate(cores[..n], c, core);
      assert cores[c := core][..n] == cores[..n][c := core];
    } else {
      assert cores[c := core][..n] == cores[..n];
    }
  }

  lemma {:induction false} CountSame(cores: seq<Core>, other: seq<Core>)
    requires |cores| == |other| && forall i | 0 <= i < |cores| :: cores[i].phase == other[i].phase
    ensures Count(cores) == Count(other)
  {
    if cores != [] {
      CountSame(cores[..|cores| - 1], other[..|cores| - 1]);
    }
  }

  lemma {:induction false} CountFull(cores: seq<Core>)
    ensures Count(cores) == |cores| <==> AllAcked(cores)
  {
    if cores != [] {
      var n := |cores| - 1;
      CountFull(cores[..n]);
      assert forall i | 0 <= i < n :: cores[..n][i] == cores[i];
      if AllAcked(cores) {
        assert HasAcked(cores[n].phase);
        assert forall i | 0 <= i < n :: HasAcked(cores[i].phase);
      }
    }
  }

  lemma InitInv(n: nat)
    ensures Inv(Init(n))
  {
    CountInit(Init(n).cores);
  }

  /** One core moves on; what must hold of its phases for the invariant to be kept. */
  lemma SetKeepsInv(s: State, c: nat, core: Core, inProgress: bool, acks: nat)
    requires Inv(s) && c < |s.cores| && (s.inProgress ==> inProgress)
    requires !inProgress ==> core.phase.Running?
    requires acks == s.acks + (if HasAcked(core.phase) then 1 else 0) - (if HasAcked(s.cores[c].phase) then 1 else 0)
    requires Initiates(core.phase) ==> Initiates(s.cores[c].phase) || !s.inProgress
    requires core.phase.Running? ==> s.cores[c].phase.Running? && (s.inProgress ==> core.nmi)
    requires core.phase.Waiting? ==> s.cores[c].phase.Waiting?
    requires HasAcked(s.cores[c].phase) ==> HasAcked(core.phase)
    requires core.phase == Stopped(true) ==> s.cores[c].phase == core.phase || Count(s.cores) == |s.cores|
    ensures Inv(s.(cores := s.cores[c := core], inProgress := inProgress, acks := acks))
  {
    CountUpdate(s.cores, c, core);
    CountFull(s.cores);
  }

  lemma SendKeepsInv(s: State, c: nat)
    requires Inv(s) && c < |s.cores| && s.cores[c].phase.Acked?
    ensures Inv(SetPhase(s.(cores := SendToOthers(s.cores, c)), c, Waiting))
  {
    var sent := SendToOthers(s.cores, c);
    CountSame(s.cores, sent);
    CountUpdate(sent, c, sent[c].(phase := Waiting));
    assert Initiates(s.cores[c].phase);
  }

  lemma NextKeepsInv(s: State, step: Step)
    requires Inv(s)
    ensures Inv(Next(s, step))
  {
    if step.c < |s.cores| {
      var c, core := step.c, s.cores[step.c];
      var t := Next(s, step);
      if step.SendNmis? && core.phase.Acked? && step.reachable {
        SendKeepsInv(s, c);
      } else if t != s {
        SetKeepsInv(s, c, t.cores[c], t.inProgress, t.acks);
        assert t == s.(cores := s.cores[c := t.cores[c]], inProgress := t.inProgress, acks := t.acks);
      }
    }
  }

  // ----- Whole runs -----

  function Run(s: State, steps: seq<Step>): State {
    if steps == [] then s else Next(Run(s, steps[..|steps| - 1]), steps[|steps| - 1])
  }

  lemma {:induction false} RunKeepsInv(s: State, steps: seq<Step>)
    requires Inv(s)
    ensures Inv(Run(s, steps)) && |Run(s, steps).cores| == |s.cores|
  {
    if steps != [] {
      RunKeepsInv(s, steps[..|steps| - 1]);
      NextKeepsInv(Run(s, steps[..|steps| - 1]), steps[|steps| - 1]);
    }
  }

  /**
   After any run from the start: at most one core initiates the crash, the counter is the number of cores
   that acknowledged, and a core that waited and stopped the system finds every core out of VMX operation.
   */
  lemma EveryRun(n: nat, steps: seq<Step>)
    ensures var s := Run(Init(n), steps);
            && |s.cores| == n && s.acks == Count(s.cores)
            && OneInitiator(s.cores)
            && (forall i, j | 0 <= i < n && 0 <= j < n && s.cores[i].phase == Stopped(true) ::
                 Devirtualized(s.cores[j].phase))
  {
    InitInv(n);
    RunKeepsInv(Init(n), steps);
  }

  /** An acknowledgement is made by one core, out of VMX operation already, and it makes no second one. */
  lemma AcknowledgesOnce(s: State, step: Step, c: nat)
    requires Inv(s) && c < |s.cores|
    ensures HasAcked(s.cores[c].phase) ==> HasAcked(Next(s, step).cores[c].phase)
    ensures HasAcked(Next(s, step).cores[c].phase) ==> Devirtualized(s.cores[c].phase)
    ensures var acked := step.c < |s.cores| && !HasAcked(s.cores[step.c].phase) &&
                         HasAcked(Next(s, step).cores[step.c].phase);
            Next(s, step).acks == s.acks + if acked then 1 else 0
  {
  }

  /** Each crash NMI delivered to a running core takes one off the unacknowledged cores. */
  lemma DeliveredNmiIsAcknowledged(s: State, c: nat)
    requires Inv(s) && s.inProgress && c < |s.cores| && s.cores[c].phase.Running?
    ensures var t := Next(Next(Next(s, Nmi(c)), Devirtualize(c)), Acknowledge(c));
            |t.cores| == |s.cores| && t.cores[c].phase.Hung? && Count(t.cores) == Count(s.cores) + 1
  {
    var t := Next(s, Nmi(c));
    NextKeepsInv(s, Nmi(c));
    assert t.cores[c].phase.Yielding? && t.acks == s.acks;
    var u := Next(t, Devirtualize(c));
    NextKeepsInv(t, Devirtualize(c));
    assert u.cores[c].phase.YieldLeft? && u.acks == s.acks;
    NextKeepsInv(u, Acknowledge(c));
  }

  // ----- Progress -----

  predicate HasInitiator(cores: seq<Core>) {
    exists i :: 0 <= i < |cores| && Initiates(cores[i].phase)
  }

  predicate SomeStopped(cores: seq<Core>, waited: bool) {
    exists i :: 0 <= i < |cores| && cores[i].phase == Stopped(waited)
  }

  function Weight(phase: Phase): nat {
    match phase
    case Running => 6
    case Claimed => 5
    case Left => 4
    case Acked => 2
    case Waiting => 1
    case Yielding => 3
    case YieldLeft => 2
    case Hung => 0
    case Stopped(_) => 0
  }

  /** An upper bound of the steps the cores have left. */
  function Work(cores: seq<Core>): (n: nat)
    ensures n <= 6 * |cores|
  {
    if cores == [] then 0 else Work(cores[..|cores| - 1]) + Weight(cores[|cores| - 1].phase)
  }

  lemma {:induction false} WorkUpdate(cores: seq<Core>, c: nat, core: Core)
    requires c < |cores|
    ensures Work(cores[c := core]) == Work(cores) + Weight(core.phase) - Weight(cores[c].phase)
  {
    var n := |cores| - 1;
    if c < n {
      WorkUpdate(cores[..n], c, core);
      assert cores[c := core][..n] == cores[..n][c := core];
    } else {
      assert cores[c := core][..n] == cores[..n];
    }
  }

  lemma {:induction false} WorkSame(cores: seq<Core>, other: seq<Core>)
    requires |cores| == |other| && forall i | 0 <= i < |cores| :: cores[i].phase == other[i].phase
    ensures Work(cores) == Work(other)
  {
    if cores != [] {
      WorkSame(cores[..|cores| - 1], other[..|cores| - 1]);
    }
  }

  /** No step adds work; it does some exactly when it moves its core to another phase. */
  lemma WorkFalls(s: State, step: Step)
    requires Inv(s)
    ensures var t := Next(s, step);
            && Work(t.cores) <= Work(s.cores)
            && (step.c < |s.cores| && t.cores[step.c].phase != s.cores[step.c].phase ==> Work(t.cores) < Work(s.cores))
  {
    if step.c < |s.cores| {
      var c, core, t := step.c, s.cores[step.c], Next(s, step);
      if step.SendNmis? && core.phase.Acked? && step.reachable {
        WorkOfSend(s.cores, c);
      } else {
        WeightFalls(s, step);
        WorkUpdate(s.cores, c, t.cores[c]);
        assert t.cores == s.cores[c := t.cores[c]];
      }
    }
  }

  lemma WorkOfSend(cores: seq<Core>, c: nat)
    requires c < |cores| && cores[c].phase.Acked?
    ensures var sent := SendToOthers(cores, c); Work(sent[c := sent[c].(phase := Waiting)]) < Work(cores)
  {
    var sent := SendToOthers(cores, c);
    WorkSame(cores, sent);
    WorkUpdate(sent, c, sent[c].(phase := Waiting));
  }

  lemma WeightFalls(s: State, step: Step)
    requires Inv(s) && step.c < |s.cores|
    ensures var phase, after := s.cores[step.c].phase, Next(s, step).cores[step.c].phase;
            after == phase || Weight(after) < Weight(phase)
  {
  }

  /** The protocol has a step for the core: its crash NMI, its part of the hand-over, or the end of the wait. */
  predicate CanMove(s: State, c: nat) {
    c < |s.cores| &&
    match s.cores[c].phase
    case Running => s.inProgress && s.cores[c].nmi
    case Waiting => s.acks >= |s.cores|
    case Hung => false
    case Stopped(_) => false
    case _ => true
  }

  /** While there is an initiator that has not stopped, some step of the protocol does work. */
  lemma NextWork(s: State) returns (step: Step)
    requires Inv(s) && HasInitiator(s.cores) && !SomeStopped(s.cores, true) && !SomeStopped(s.cores, false)
    ensures Work(Next(s, step).cores) < Work(s.cores) && CanMove(s, step.c)
    ensures HasInitiator(Next(s, step).cores) && !SomeStopped(Next(s, step).cores, false)
  {
    var i :| 0 <= i < |s.cores| && Initiates(s.cores[i].phase);
    if s.cores[i].phase.Waiting? && !AllAcked(s.cores) {
      step := NextAcknowledgement(s, i);
    } else {
      step := NextOfInitiator(s, i);
    }
    InitiatorLost(s, step);
    WorkFalls(s, step);
  }

  /** The initiator's own next step, once it need not wait for others. */
  lemma NextOfInitiator(s: State, i: nat) returns (step: Step)
    requires Inv(s) && i < |s.cores| && Initiates(s.cores[i].phase) && !s.cores[i].phase.Stopped?
    requires s.cores[i].phase.Waiting? ==> AllAcked(s.cores)
    ensures step.c == i && CanMove(s, i) && !step.Nmi? && !step.Error?
    ensures Next(s, step).cores[i].phase != s.cores[i].phase && !SomeStopped(Next(s, step).cores, false)
  {
    CountFull(s.cores);
    var phase := s.cores[i].phase;
    step := if phase.Claimed? then Devirtualize(i)
            else if phase.Left? then Acknowledge(i)
            else if phase.Acked? then SendNmis(i, true)
            else Poll(i);
  }

  /** While the initiator waits, a core that has not acknowledged can move. */
  lemma NextAcknowledgement(s: State, i: nat) returns (step: Step)
    requires Inv(s) && i < |s.cores| && s.cores[i].phase.Waiting? && !AllAcked(s.cores)
    ensures step.c < |s.cores| && !s.cores[step.c].phase.Claimed? &&
            Next(s, step).cores[step.c].phase != s.cores[step.c].phase
    ensures !Next(s, step).cores[step.c].phase.Stopped? && CanMove(s, step.c)
  {
    var j :| 0 <= j < |s.cores| && !HasAcked(s.cores[j].phase);
    var phase := s.cores[j].phase;
    step := if phase.Running? then Nmi(j) else if phase.Yielding? then Devirtualize(j) else Acknowledge(j);
    assert !Initiates(phase);
  }

  /** With an initiator the protocol can be driven to the end, in at most six steps per core. */
  lemma {:induction false} Completes(s: State) returns (steps: seq<Step>)
    requires Inv(s) && HasInitiator(s.cores) && !SomeStopped(s.cores, false)
    ensures SomeStopped(Run(s, steps).cores, true) && |steps| <= Work(s.cores)
    decreases Work(s.cores)
  {
    if SomeStopped(s.cores, true) {
      return [];
    }
    var step := NextWork(s);
    NextKeepsInv(s, step);
    var rest := Completes(Next(s, step));
    steps := [step] + rest;
    RunPrepend(s, step, rest);
  }

  lemma {:induction false} RunPrepend(s: State, step: Step, steps: seq<Step>)
    ensures Run(s, [step] + steps) == Run(Next(s, step), steps)
  {
    var all := [step] + steps;
    if steps == [] {
      assert all == [step] && all[..0] == [];
    } else {
      assert all[..|all| - 1] == [step] + steps[..|steps| - 1];
      RunPrepend(s, step, steps[..|steps| - 1]);
    }
  }

  // ----- Fair schedules -----

  ghost function StateAt(s: State, schedule: nat -> Step, k: nat): State {
    if k == 0 then s else Next(StateAt(s, schedule, k - 1), schedule(k - 1))
  }

  function PhaseAt(s: State, c: nat): Phase {
    if c < |s.cores| then s.cores[c].phase else Hung
  }

  /** The core has taken a step between the two moments. */
  ghost predicate Moved(s: State, schedule: nat -> Step, k: nat, j: nat, c: nat) {
    j >= k && PhaseAt(StateAt(s, schedule, j), c) != PhaseAt(StateAt(s, schedule, k), c)
  }

  ghost predicate FairTo(s: State, schedule: nat -> Step, k: nat, c: nat) {
    CanMove(StateAt(s, schedule, k), c) ==> exists j: nat :: Moved(s, schedule, k, j, c)
  }

  /** A core that has a step takes it eventually; a crash NMI that was sent arrives eventually. */
  ghost predicate Fair(s: State, schedule: nat -> Step) {
    forall k: nat, c: nat :: FairTo(s, schedule, k, c)
  }

  /** The step does not interrupt a core between its claim and its devirtualisation, and the APIC is reachable. */
  predicate Quiet(s: State, step: Step) {
    && !((step.Nmi? || step.Error?) && PhaseAt(s, step.c).Claimed?)
    && (step.SendNmis? ==> step.reachable)
  }

  ghost predicate QuietAt(s: State, schedule: nat -> Step, k: nat) {
    Quiet(StateAt(s, schedule, k), schedule(k))
  }

  ghost predicate Undisturbed(s: State, schedule: nat -> Step) {
    forall k: nat {:trigger QuietAt(s, schedule, k)} :: QuietAt(s, schedule, k)
  }

  predicate Good(s: State) {
    Inv(s) && HasInitiator(s.cores) && !SomeStopped(s.cores, false)
  }

  lemma QuietKeepsGood(s: State, step: Step)
    requires Good(s) && Quiet(s, step)
    ensures Good(Next(s, step))
  {
    NextKeepsInv(s, step);
    InitiatorLost(s, step);
  }

  lemma {:induction false} GoodAlong(s: State, schedule: nat -> Step, k: nat)
    requires Good(s) && Undisturbed(s, schedule)
    ensures Good(StateAt(s, schedule, k))
  {
    if k > 0 {
      GoodAlong(s, schedule, k - 1);
      assert QuietAt(s, schedule, k - 1);
      QuietKeepsGood(StateAt(s, schedule, k - 1), schedule(k - 1));
    }
  }

  lemma StepMovesItsCore(s: State, step: Step, c: nat)
    requires PhaseAt(Next(s, step), c) != PhaseAt(s, c)
    ensures step.c == c < |s.cores|
  {
  }

  /** The work has not grown, and it has fallen if the core has changed its phase. */
  predicate Progress(before: State, after: State, c: nat) {
    && Work(after.cores) <= Work(before.cores)
    && (PhaseAt(after, c) != PhaseAt(before, c) ==> Work(after.cores) < Work(before.cores))
  }

  lemma StepProgress(s: State, step: Step, c: nat)
    requires Inv(s)
    ensures Progress(s, Next(s, step), c)
  {
    WorkFalls(s, step);
    if PhaseAt(Next(s, step), c) != PhaseAt(s, c) {
      StepMovesItsCore(s, step, c);
    }
  }

  lemma ProgressAdds(a: State, b: State, d: State, c: nat)
    requires Progress(a, b, c) && Progress(b, d, c)
    ensures Progress(a, d, c)
  {
  }

  ghost predicate ProgressAt(s: State, schedule: nat -> Step, k: nat, j: nat, c: nat) {
    Progress(StateAt(s, schedule, k), StateAt(s, schedule, j), c)
  }

  lemma ProgressNext(s: State, schedule: nat -> Step, k: nat, j: nat, c: nat)
    requires ProgressAt(s, schedule, k, j, c) && Inv(StateAt(s, schedule, j))
    ensures ProgressAt(s, schedule, k, j + 1, c)
  {
    var last := StateAt(s, schedule, j);
    StepProgress(last, schedule(j), c);
    ProgressAdds(StateAt(s, schedule, k), last, Next(last, schedule(j)), c);
  }

  lemma WorkAlong(s: State, schedule: nat -> Step, k: nat, j: nat, c: nat)
    requires Good(s) && Undisturbed(s, schedule) && k <= j
    ensures forall m: nat | k <= m <= j :: ProgressAt(s, schedule, k, m, c)
  {
    ProgressStart(s, schedule, k, c);
    for n := k to j
      invariant forall m: nat | k <= m <= n :: ProgressAt(s, schedule, k, m, c)
    {
      GoodAlong(s, schedule, n);
      ProgressNext(s, schedule, k, n, c);
    }
  }

  lemma ProgressStart(s: State, schedule: nat -> Step, k: nat, c: nat)
    ensures ProgressAt(s, schedule, k, k, c)
  {
  }

  /** Every fair schedule that does not disturb the claim ends in the waited-for stop. */
  lemma {:induction false} FairScheduleStops(s: State, schedule: nat -> Step, k: nat) returns (end: nat)
    requires Good(s) && Undisturbed(s, schedule) && Fair(s, schedule)
    ensures SomeStopped(StateAt(s, schedule, end).cores, true)
    decreases Work(StateAt(s, schedule, k).cores)
  {
    var now := StateAt(s, schedule, k);
    if SomeStopped(now.cores, true) {
      return k;
    }
    GoodAlong(s, schedule, k);
    var step := NextWork(now);
    assert FairTo(s, schedule, k, step.c);
    var j: nat :| Moved(s, schedule, k, j, step.c);
    WorkAlong(s, schedule, k, j, step.c);
    assert ProgressAt(s, schedule, k, j, step.c);
    end := FairScheduleStops(s, schedule, j);
  }

  /** Without one it never ends: every core yields and waits for a core that is waiting itself. */
  lemma {:induction false} NeverCompletes(s: State, steps: seq<Step>)
    requires Inv(s) && s.inProgress && !HasInitiator(s.cores)
    ensures Run(s, steps).inProgress && !HasInitiator(Run(s, steps).cores) && !SomeStopped(Run(s, steps).cores, true)
  {
    if steps != [] {
      NeverCompletes(s, steps[..|steps| - 1]);
    }
    assert forall i | 0 <= i < |Run(s, steps).cores| :: !Initiates(Run(s, steps).cores[i].phase);
  }

  predicate StopsAfter(s: State, steps: seq<Step>) {
    SomeStopped(Run(s, steps).cores, true)
  }

  /** A crash in progress can end with the waited-for stop if and only if its initiator is still there. */
  lemma CompletesIffInitiator(s: State)
    requires Inv(s) && s.inProgress && !SomeStopped(s.cores, false)
    ensures (exists steps :: StopsAfter(s, steps)) <==> HasInitiator(s.cores)
  {
    if HasInitiator(s.cores) {
      var steps := Completes(s);
      assert StopsAfter(s, steps);
    } else {
      forall steps
        ensures !StopsAfter(s, steps)
      {
        NeverCompletes(s, steps);
      }
    }
  }

  /** The initiator is lost exactly when an NMI or an error hits it between its claim and leaving VMX operation. */
  lemma InitiatorLost(s: State, step: Step)
    requires Inv(s) && HasInitiator(s.cores)
    ensures !HasInitiator(Next(s, step).cores) <==>
              (step.Nmi? || step.Error?) && step.c < |s.cores| && s.cores[step.c].phase.Claimed?
  {
    var i :| 0 <= i < |s.cores| && Initiates(s.cores[i].phase);
    var t := Next(s, step);
    if (step.Nmi? || step.Error?) && step.c < |s.cores| && s.cores[step.c].phase.Claimed? {
      assert forall j | 0 <= j < |t.cores| :: !Initiates(t.cores[j].phase);
    } else {
      assert Initiates(t.cores[i].phase);
    }
  }

  /** One NMI between the claim and the end of devirtualisation is enough, on any number of cores. */
  lemma HijackedInitiator(n: nat)
    requires n > 0
    ensures var s := Next(Next(Init(n), Error(0)), Nmi(0));
            Inv(s) && s.inProgress && !HasInitiator(s.cores)
  {
    InitInv(n);
    NextKeepsInv(Init(n), Error(0));
    NextKeepsInv(Next(Init(n), Error(0)), Nmi(0));
  }

  /**
   The two ways to the bugcheck: without waiting, exactly when the claiming core cannot reach the APIC; after
   waiting, exactly when it polls and the counter has reached the number of cores.
   */
  lemma StopsIff(s: State, step: Step)
    requires !SomeStopped(s.cores, false) && !SomeStopped(s.cores, true)
    ensures SomeStopped(Next(s, step).cores, false) <==>
              step.SendNmis? && step.c < |s.cores| && s.cores[step.c].phase.Acked? && !step.reachable
    ensures SomeStopped(Next(s, step).cores, true) <==>
              step.Poll? && step.c < |s.cores| && s.cores[step.c].phase.Waiting? && s.acks >= |s.cores|
  {
    var t := Next(s, step);
    if step.c < |s.cores| {
      assert t.cores[step.c].phase.Stopped? ==> SomeStopped(t.cores, t.cores[step.c].phase.waited);
      assert forall i | 0 <= i < |s.cores| && i != step.c :: t.cores[i].phase == s.cores[i].phase;
    }
  }

  /** An error claims the crash on the first core it hits, and makes every other core yield that can still be hit. */
  lemma FirstErrorClaims(s: State, c: nat, d: nat)
    requires c < |s.cores| && d < |s.cores| && c != d && !s.inProgress
    requires s.cores[c].phase.Running? && s.cores[d].phase.Running?
    ensures var t := Next(Next(s, Error(c)), Error(d));
            && t.inProgress && t.acks == s.acks
            && t.cores[c].phase == Claimed && t.cores[d].phase == Yielding
            && (forall i | 0 <= i < |s.cores| && i != c && i != d :: t.cores[i] == s.cores[i])
  {
  }
}
