/**
 NMI queueing on one core as steps: an NMI of the guest or of the host is counted and later injected when
 the guest can take it. A host NMI can arrive between any two steps of an exit handler, also between the
 read and the write of the control field that switches NMI-window exiting.
 */
module NmiWindow {
  /** The control field: the NMI-window-exiting bit and all others. */
  datatype Controls = Controls(window: bool, other: nat)

  /** The next step of the core; `Reentering` stands for the rest of any handler and the VM entry. */
  datatype Position =
    | Guest
    | CountNmi
    | EnableRead | EnableWrite(value: Controls)
    | Decrement | Inject | TestEmpty
    | DisableRead | DisableWrite(value: Controls)
    | Retest
    | Reentering

  datatype State = State(at: Position, controls: Controls, queued: int, received: nat, injected: nat)

  datatype Step =
    | NmiExit
    | WindowExit
    | OtherExit
    | HostNmi
    | Continue

  function Init(other: nat): State {
    State(Guest, Controls(false, other), 0, 0, 0)
  }

  /** One step of the handler that is under way. */
  function Handle(s: State): State {
    match s.at
    case Guest => s
    case CountNmi => s.(queued := s.queued + 1, at := EnableRead)
    case EnableRead => s.(at := EnableWrite(s.controls.(window := true)))
    case EnableWrite(value) => s.(controls := value, at := Reentering)
    case Decrement => s.(queued := s.queued - 1, at := Inject)
    case Inject => s.(injected := s.injected + 1, at := TestEmpty)
    case TestEmpty => s.(at := if s.queued == 0 then DisableRead else Reentering)
    case DisableRead => s.(at := DisableWrite(s.controls.(window := false)))
    case DisableWrite(value) => s.(controls := value, at := Retest)
    case Retest => s.(at := if s.queued != 0 then EnableRead else Reentering)
    case Reentering => s.(at := Guest)
  }

  /** A window exit happens only while the bit is set; the host NMI handler runs to its end. */
  function Next(s: State, step: Step): State {
    match step
    case NmiExit => if s.at.Guest? then s.(at := CountNmi, received := s.received + 1) else s
    case WindowExit => if s.at.Guest? && s.controls.window then s.(at := Decrement) else s
    case OtherExit => if s.at.Guest? then s.(at := Reentering) else s
    case HostNmi =>
      if s.at.Guest? then s
      else s.(received := s.received + 1, queued := s.queued + 1, controls := s.controls.(window := true))
    case Continue => Handle(s)
  }

  /** An NMI taken from the guest or from the queue that is not yet in the queue or in the guest. */
  function InFlight(at: Position): int {
    if at.CountNmi? || at.Inject? then 1 else 0
  }

  predicate WindowOk(s: State) {
    match s.at
    case Guest => s.controls.window <==> s.queued > 0
    case CountNmi => s.controls.window <==> s.queued > 0
    case EnableRead => s.queued > 0
    case EnableWrite(value) => s.queued > 0 && value.window
    case Decrement => s.controls.window && s.queued > 0
    case Inject => s.controls.window
    case TestEmpty => s.controls.window
    case DisableRead => s.controls.window
    case DisableWrite(value) => !value.window
    case Retest => s.controls.window ==> s.queued > 0
    case Reentering => s.controls.window <==> s.queued > 0
  }

  predicate OthersKept(s: State, other: nat) {
    && s.controls.other == other
    && (s.at.EnableWrite? || s.at.DisableWrite? ==> s.at.value.other == other)
  }

  predicate Inv(s: State, other: nat) {
    && s.queued >= 0
    && s.received == s.injected + s.queued + InFlight(s.at)
    && WindowOk(s) && OthersKept(s, other)
  }

  function Run(s: State, steps: seq<Step>): State {
    if steps == [] then s else Next(Run(s, steps[..|steps| - 1]), steps[|steps| - 1])
  }

  lemma {:induction false} RunKeepsInv(s: State, other: nat, steps: seq<Step>)
    requires Inv(s, other)
    ensures Inv(Run(s, steps), other)
  {
    if steps != [] {
      RunKeepsInv(s, other, steps[..|steps| - 1]);
    }
  }

  /**
   After any run the counter is not negative, and whenever the guest runs every NMI received is injected or
   queued, window exiting is on exactly if the queue is not empty, and no other control bit has changed.
   */
  lemma EveryRun(other: nat, steps: seq<Step>)
    ensures var s := Run(Init(other), steps);
            && s.queued >= 0
            && s.received == s.injected + s.queued + InFlight(s.at)
            && (s.at.Guest? ==> s.received == s.injected + s.queued)
            && (s.at.Guest? || s.at.Reentering? ==> (s.controls.window <==> s.queued > 0))
            && s.controls.other == other
  {
    RunKeepsInv(Init(other), other, steps);
  }

  /** The steps of one window exit that nothing interrupts, up to the guest running again. */
  function WindowCycle(last: bool): seq<Step> {
    Injecting() + if last then Disabling() else [Continue]
  }

  function Injecting(): seq<Step> {
    [WindowExit, Continue, Continue, Continue]
  }

  function Disabling(): seq<Step> {
    [Continue, Continue, Continue, Continue]
  }

  /** The steps that empty a queue of `n` NMIs. */
  function Drain(n: nat): seq<Step> {
    if n == 0 then [] else WindowCycle(n == 1) + Drain(n - 1)
  }

  lemma {:induction false} RunConcat(s: State, first: seq<Step>, second: seq<Step>)
    ensures Run(s, first + second) == Run(Run(s, first), second)
  {
    if second == [] {
      assert first + second == first;
    } else {
      assert (first + second)[..|first + second| - 1] == first + second[..|second| - 1];
      RunConcat(s, first, second[..|second| - 1]);
    }
  }

  lemma RunOne(s: State, step: Step)
    ensures Run(s, [step]) == Next(s, step)
  {
    assert [step][..0] == [];
  }

  lemma RunFront(s: State, step: Step, steps: seq<Step>)
    ensures Run(s, [step] + steps) == Run(Next(s, step), steps)
  {
    RunOne(s, step);
    RunConcat(s, [step], steps);
  }

  /** Four uninterrupted steps of a handler. */
  lemma RunFour(s: State, a: Step, b: Step, c: Step, d: Step)
    ensures Run(s, [a, b, c, d]) == Next(Next(Next(Next(s, a), b), c), d)
  {
    assert [a, b, c, d] == [a] + [b, c, d] && [b, c, d] == [b] + [c, d] && [c, d] == [c] + [d] && [d] == [d] + [];
    RunFront(s, a, [b, c, d]);
    RunFront(Next(s, a), b, [c, d]);
    RunFront(Next(Next(s, a), b), c, [d]);
    RunFront(Next(Next(Next(s, a), b), c), d, []);
  }

  lemma InjectingHalf(s: State)
    requires s.at.Guest? && s.controls.window
    ensures Run(s, Injecting()) ==
            s.(queued := s.queued - 1, injected := s.injected + 1,
               at := if s.queued == 1 then DisableRead else Reentering)
  {
    RunFour(s, WindowExit, Continue, Continue, Continue);
  }

  lemma DisablingHalf(s: State)
    requires s.at.DisableRead? && s.queued == 0
    ensures Run(s, Disabling()) == s.(at := Guest, controls := s.controls.(window := false))
  {
    RunFour(s, Continue, Continue, Continue, Continue);
  }

  lemma CycleInjectsOne(s: State, other: nat)
    requires Inv(s, other) && s.at.Guest? && s.queued > 0
    ensures Run(s, WindowCycle(s.queued == 1)) ==
            s.(queued := s.queued - 1, injected := s.injected + 1, controls := s.controls.(window := s.queued > 1))
  {
    InjectingHalf(s);
    var t := Run(s, Injecting());
    if s.queued == 1 {
      RunConcat(s, Injecting(), Disabling());
      DisablingHalf(t);
    } else {
      RunConcat(s, Injecting(), [Continue]);
      RunOne(t, Continue);
    }
  }

  /** Every queued NMI reaches the guest: as many window exits as there are NMIs inject them all. */
  lemma {:induction false} QueueDrains(s: State, other: nat)
    requires Inv(s, other) && s.at.Guest?
    ensures var t := Run(s, Drain(s.queued));
            t.queued == 0 && t.injected == t.received == s.received && !t.controls.window
    decreases s.queued
  {
    if s.queued > 0 {
      CycleInjectsOne(s, other);
      RunKeepsInv(s, other, WindowCycle(s.queued == 1));
      RunConcat(s, WindowCycle(s.queued == 1), Drain(s.queued - 1));
      QueueDrains(Run(s, WindowCycle(s.queued == 1)), other);
    }
  }

  /** An NMI that the guest exits for is queued and window exiting is on when the guest runs again. */
  lemma NmiExitQueues(s: State)
    requires s.at.Guest?
    ensures Run(s, [NmiExit] + [Continue, Continue, Continue, Continue]) ==
            s.(queued := s.queued + 1, received := s.received + 1, controls := s.controls.(window := true))
  {
    RunFront(s, NmiExit, [Continue, Continue, Continue, Continue]);
    CountingHalf(Next(s, NmiExit));
  }

  lemma CountingHalf(s: State)
    requires s.at.CountNmi?
    ensures Run(s, [Continue, Continue, Continue, Continue]) ==
            s.(queued := s.queued + 1, controls := s.controls.(window := true), at := Guest)
  {
    RunFour(s, Continue, Continue, Continue, Continue);
  }

  /** So is one that arrives in the host, at whatever step of a handler, and the handler goes on where it was. */
  lemma HostNmiQueues(s: State)
    requires !s.at.Guest?
    ensures Run(s, [HostNmi]) ==
            s.(queued := s.queued + 1, received := s.received + 1, controls := s.controls.(window := true))
  {
    RunOne(s, HostNmi);
  }
}
