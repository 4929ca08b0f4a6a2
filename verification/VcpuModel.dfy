/**
 The event protocol of one vCPU over its two views: EPT violations, hook and auto-trace hypercalls and
 MTRR writes, and what holds over whole runs of them.
 */
module VcpuModel {
  import opened Common
  import opened EptModel
  import opened AutoTraceModel
  import opened MemoryTypeModel
  import M = Mtrr

  datatype View = NormalView | TargetView

  /** `emitted` lists the guest RIPs for which an entry went to the active trace ring, oldest first. */
  datatype Vcpu = Vcpu(views: Views, inNormal: bool, eptp: View, ringActive: bool, emitted: seq<nat>)

  /** Result of an exit handler; a fatal one ends in the unrecoverable-error path. */
  datatype Handled = Resumed(vcpu: Vcpu) | Fatal

  function ActiveEpt(v: Vcpu): Ept {
    if v.eptp == NormalView then v.views.normal else v.views.target
  }

  function CurrentEpt(v: Vcpu): Ept {
    if v.inNormal then v.views.normal else v.views.target
  }

  function SetCurrentEpt(v: Vcpu, s: Ept): Vcpu {
    v.(views := if v.inNormal then v.views.(normal := s) else v.views.(target := s))
  }

  predicate Permits(s: Ept, page: nat, execute: bool)
    requires Sized(s) && page < PAGE_COUNT
  {
    var perm := Translate(s, page).perm;
    if execute then perm.execute else perm.read && perm.write
  }

  // ----- Handlers -----

  function Violation(v: Vcpu, page: nat, execute: bool, rip: nat): Handled
    requires ValidViews(v.views)
  {
    var s := CurrentEpt(v);
    var hook := FirstHook(s.hooks, page);
    if hook.Some? && s.hooks[hook.value].pte.Some? then
      Resumed(SetCurrentEpt(v, SwapHook(s, hook.value, execute)))
    else if !execute then
      Fatal
    else if v.inNormal then
      Resumed(v.(eptp := TargetView, inNormal := false))
    else
      Resumed(v.(eptp := NormalView, inNormal := true, emitted := v.emitted + if v.ringActive then [rip] else []))
  }

  /** The first hook registered for the page is active. */
  predicate HookTakes(hooks: seq<Hook>, page: nat) {
    exists i :: 0 <= i < |hooks| && hooks[i].orig == page && hooks[i].pte.Some? &&
      forall j | 0 <= j < i :: hooks[j].orig != page
  }

  /** A violation is fatal if and only if it is not a fetch and no hook takes it; a fatal one has no effect. */
  lemma FatalIff(v: Vcpu, page: nat, execute: bool, rip: nat)
    requires ValidViews(v.views)
    ensures Violation(v, page, execute, rip).Fatal? <==> !execute && !HookTakes(CurrentEpt(v).hooks, page)
  {
    var hooks := CurrentEpt(v).hooks;
    if HookTakes(hooks, page) {
      var i :| 0 <= i < |hooks| && hooks[i].orig == page && hooks[i].pte.Some? &&
               forall j | 0 <= j < i :: hooks[j].orig != page;
      assert FirstHook(hooks, page) == Some(i);
    }
  }

  function HookHypercall(v: Vcpu, origPfn: nat, hookPfn: nat): (w: Vcpu)
    requires ValidViews(v.views)
    ensures ValidViews(w.views)
  {
    AddHookEffect(v.views.normal, origPfn, hookPfn);
    AddHookEffect(v.views.target, origPfn, hookPfn);
    var normal := AddHookState(v.views.normal, origPfn, hookPfn);
    if !CanAddHook(v.views.normal, origPfn) then
      v.(views := Views(normal, v.views.target))
    else
      v.(views := Views(normal, AddHookState(v.views.target, origPfn, hookPfn)))
  }

  function DeactivateBoth(v: Views): (w: Views)
    requires ValidViews(v)
    ensures ValidViews(w)
  {
    Views(DeactivateHooks(v.normal, |v.normal.hooks|), DeactivateHooks(v.target, |v.target.hooks|))
  }

  function ReactivateBoth(v: Views): (w: Views)
    requires ValidViews(v)
    ensures ValidViews(w)
  {
    Views(ReactivateHooks(v.normal, |v.normal.hooks|), ReactivateHooks(v.target, |v.target.hooks|))
  }

  function EnableOutcome(v: Vcpu, gpas: seq<nat>): Outcome
    requires ValidViews(v.views)
  {
    EnableAutoTrace(DeactivateBoth(v.views), gpas)
  }

  function EnableHypercall(v: Vcpu, gpas: seq<nat>): Vcpu
    requires ValidViews(v.views)
  {
    var o := EnableOutcome(v, gpas);
    if o.ok then
      v.(views := o.views, eptp := NormalView, inNormal := true, ringActive := true)
    else
      v.(views := ReactivateBoth(o.views))
  }

  function DisableHypercall(v: Vcpu): (w: Vcpu)
    requires ValidViews(v.views)
    ensures ValidViews(w.views)
  {
    WithPermEffect(v.views.normal, RWX);
    WithPermEffect(v.views.target, RWX);
    var restored := Views(WithPerm(v.views.normal, RWX), WithPerm(v.views.target, RWX));
    v.(views := ReactivateBoth(restored), eptp := NormalView, inNormal := true, ringActive := false)
  }

  function MtrrWrite(v: Vcpu, m: M.MtrrState): Vcpu
    requires ValidViews(v.views) && m.Valid()
  {
    v.(views := Views(RefreshMemoryTypes(v.views.normal, m, PD_COUNT), RefreshMemoryTypes(v.views.target, m, PD_COUNT)))
  }

  /**
   The enable hypercall succeeds, in any state, if and only if every translated page of the range is below 512 GB
   and each view has a free table for every 2 MB entry of the range that it has not split.
   */
  lemma EnableSucceedsIff(v: Vcpu, gpas: seq<nat>)
    requires ValidViews(v.views)
    ensures EnableOutcome(v, gpas).ok <==> CanEnable(v.views, gpas)
  {
    EnableOkIff(DeactivateBoth(v.views), gpas);
    CanEnableSameSplits(v.views, DeactivateBoth(v.views), gpas);
  }

  // ----- Invariants of the two modes -----

  ghost predicate IdleVcpu(v: Vcpu) {
    Idle(v.views.normal) && Idle(v.views.target) && v.inNormal && v.eptp == NormalView
  }

  /**
   What is left of the idle state when hooked pages have lost their protection: an unhooked page is mapped to
   itself with full access, a hooked one to its original or its hook frame.
   */
  predicate PageLoose(s: Ept, page: nat)
    requires Sized(s) && page < PAGE_COUNT
  {
    var leaf := Translate(s, page);
    match FirstHook(s.hooks, page)
    case None => leaf.perm == RWX && leaf.frame == page
    case Some(i) => leaf.frame == page || leaf.frame == s.hooks[i].hook
  }

  ghost predicate Loose(s: Ept) {
    Valid(s) && AllActive(s.hooks) && forall page: nat | page < PAGE_COUNT :: PageLoose(s, page)
  }

  lemma IdleIsLoose(s: Ept)
    requires Idle(s)
    ensures Loose(s)
  {
    forall page: nat | page < PAGE_COUNT
      ensures PageLoose(s, page)
    {
      assert PageIdle(s, page);
    }
  }

  predicate IdentityFrames(s: Ept)
    requires Sized(s)
  {
    forall page: nat | page < PAGE_COUNT :: Translate(s, page).frame == page
  }

  ghost predicate Traced(s: Ept, gpas: seq<nat>, inside: bool) {
    Valid(s) && AllInactive(s.hooks) && IdentityFrames(s) && GrantsExecute(s, gpas, inside)
  }

  ghost predicate TracingVcpu(v: Vcpu, gpas: seq<nat>) {
    && Traced(v.views.normal, gpas, false)
    && Traced(v.views.target, gpas, true)
    && (v.inNormal <==> v.eptp == NormalView) && v.ringActive
  }

  /** A view with no active hook, full access and the identity mapping: what lies between two modes. */
  ghost predicate Bare(s: Ept) {
    Valid(s) && AllInactive(s.hooks) && IdentityFrames(s) && FullAccess(s)
  }

  predicate SameHookFrames(hooks: seq<Hook>, other: seq<Hook>) {
    |hooks| == |other| && forall i | 0 <= i < |hooks| ::
      other[i].orig == hooks[i].orig && other[i].hook == hooks[i].hook
  }

  lemma DeactivateFromLoose(s: Ept)
    requires Loose(s)
    ensures var t := DeactivateHooks(s, |s.hooks|);
            && Bare(t) && SameHookFrames(s.hooks, t.hooks)
            && forall page: nat | page < PAGE_COUNT && FirstHook(s.hooks, page).None? ::
                 Translate(t, page) == Translate(s, page)
  {
    var t := DeactivateHooks(s, |s.hooks|);
    forall page: nat | page < PAGE_COUNT
      ensures Translate(t, page).perm == RWX && Translate(t, page).frame == page
      ensures FirstHook(s.hooks, page).None? ==> Translate(t, page) == Translate(s, page)
    {
      DeactivateHooksEffect(s, |s.hooks|, page);
      HookedByFirst(s.hooks, |s.hooks|, page, true);
      assert PageLoose(s, page);
      var first := FirstHook(s.hooks, page);
      if first.Some? {
        assert s.hooks[first.value].orig == page;
      }
    }
  }

  /** Reactivating the hooks of a bare view gives an idle one, with every hooked page armed. */
  lemma ReactivateFromBare(s: Ept)
    requires Bare(s)
    ensures var t := ReactivateHooks(s, |s.hooks|);
            && Idle(t) && SameHookFrames(s.hooks, t.hooks)
            && forall page: nat | page < PAGE_COUNT ::
                 Translate(t, page) == if FirstHook(s.hooks, page).Some? then Translate(s, page).(perm := RW)
                                       else Translate(s, page)
  {
    var t := ReactivateHooks(s, |s.hooks|);
    ReactivateHooksLosesNone(s, |s.hooks|);
    forall page: nat | page < PAGE_COUNT
      ensures Translate(t, page) == if FirstHook(s.hooks, page).Some? then Translate(s, page).(perm := RW)
                                    else Translate(s, page)
      ensures PageIdle(t, page)
    {
      ReactivateHooksEffect(s, |s.hooks|, page);
      HookedByFirst(s.hooks, |s.hooks|, page, false);
      FirstHookSameFrames(s.hooks, t.hooks, page);
      var first := FirstHook(s.hooks, page);
      if first.Some? {
        assert s.hooks[first.value].orig == page;
      }
      assert Translate(s, page).perm == RWX && Translate(s, page).frame == page;
    }
  }

  // ----- Single events -----

  /** Outside tracing only hooked pages fault, and one handled fault makes the access succeed. */
  lemma ViolationKeepsIdle(v: Vcpu, page: nat, execute: bool, rip: nat)
    requires IdleVcpu(v) && page < PAGE_COUNT && !Permits(ActiveEpt(v), page, execute)
    ensures var r := Violation(v, page, execute, rip);
            && r.Resumed? && IdleVcpu(r.vcpu)
            && Permits(ActiveEpt(r.vcpu), page, execute)
            && r.vcpu.emitted == v.emitted
            && FirstHook(v.views.normal.hooks, page).Some?
  {
    assert PageIdle(v.views.normal, page);
    SwapHookEffect(v.views.normal, page, execute);
  }

  lemma RefreshKeepsTraced(s: Ept, m: M.MtrrState, gpas: seq<nat>, inside: bool)
    requires Traced(s, gpas, inside) && m.Valid()
    ensures Traced(RefreshMemoryTypes(s, m, PD_COUNT), gpas, inside)
  {
    RefreshMemoryTypesEffect(s, m, PD_COUNT);
    var t := RefreshMemoryTypes(s, m, PD_COUNT);
    forall page: nat | page < PAGE_COUNT
      ensures Translate(t, page).frame == page &&
              Translate(t, page).perm == Perm(true, true, Backs(gpas, page) == inside)
    {
      assert Translate(t, page) == Translate(s, page).(memoryType := Translate(t, page).memoryType);
    }
  }

  /** A successful enable starts tracing in the normal view; a failed one leaves every page idle. */
  lemma EnableFromLoose(v: Vcpu, gpas: seq<nat>)
    requires Loose(v.views.normal) && Loose(v.views.target)
    ensures var w := EnableHypercall(v, gpas);
            && w.emitted == v.emitted
            && (if EnableOutcome(v, gpas).ok then
                  TracingVcpu(w, gpas) && w.eptp == NormalView
                else
                  && Idle(w.views.normal) && Idle(w.views.target)
                  && w.eptp == v.eptp && w.inNormal == v.inNormal && w.ringActive == v.ringActive)
            && SameHookFrames(v.views.normal.hooks, w.views.normal.hooks)
            && SameHookFrames(v.views.target.hooks, w.views.target.hooks)
  {
    DeactivateFromLoose(v.views.normal);
    DeactivateFromLoose(v.views.target);
    var bare := DeactivateBoth(v.views);
    TwoViewComplement(bare, gpas);
    var o := EnableAutoTrace(bare, gpas);
    SameButPermKeepsFrames(bare.normal, o.views.normal);
    SameButPermKeepsFrames(bare.target, o.views.target);
    if !o.ok {
      ReactivateFromBare(o.views.normal);
      ReactivateFromBare(o.views.target);
    }
  }

  lemma SameButPermKeepsFrames(s: Ept, t: Ept)
    requires Sized(s) && Sized(t) && SameButPerm(s, t) && IdentityFrames(s)
    ensures IdentityFrames(t)
  {
    forall page: nat | page < PAGE_COUNT
      ensures Translate(t, page).frame == page
    {
      assert Translate(s, page).frame == page;
    }
  }

  /**
   While tracing only fetches fault; the handler switches views, the same fetch then succeeds, and an
   entry is emitted exactly on the switch from the target to the normal view.
   */
  lemma ViolationWhileTracing(v: Vcpu, gpas: seq<nat>, page: nat, execute: bool, rip: nat)
    requires TracingVcpu(v, gpas) && page < PAGE_COUNT && !Permits(ActiveEpt(v), page, execute)
    ensures var r := Violation(v, page, execute, rip);
            && execute && r.Resumed? && TracingVcpu(r.vcpu, gpas)
            && r.vcpu.views == v.views
            && r.vcpu.eptp == (if v.eptp == NormalView then TargetView else NormalView)
            && Permits(ActiveEpt(r.vcpu), page, execute)
            && r.vcpu.emitted == (if v.eptp == TargetView then v.emitted + [rip] else v.emitted)
  {
    assert Translate(v.views.normal, page).perm == Perm(true, true, Backs(gpas, page) == false);
    assert Translate(v.views.target, page).perm == Perm(true, true, Backs(gpas, page) == true);
  }

  // ----- Tracing runs -----

  datatype Event = Fetch(page: nat, rip: nat) | Data(page: nat) | WriteMtrr(mtrr: M.MtrrState)

  predicate EventOk(e: Event) {
    match e
    case Fetch(page, _) => page < PAGE_COUNT
    case Data(page) => page < PAGE_COUNT
    case WriteMtrr(m) => m.Valid()
  }

  /** An access that faults is handled once and retried; `None` is a fatal exit or a second fault. */
  function Access(v: Vcpu, page: nat, execute: bool, rip: nat): (r: Option<Vcpu>)
    requires ValidViews(v.views) && page < PAGE_COUNT
  {
    if Permits(ActiveEpt(v), page, execute) then
      Some(v)
    else
      match Violation(v, page, execute, rip)
      case Fatal => None
      case Resumed(w) => if ValidViews(w.views) && Permits(ActiveEpt(w), page, execute) then Some(w) else None
  }

  function StepTracing(v: Vcpu, e: Event): Option<Vcpu>
    requires ValidViews(v.views) && EventOk(e)
  {
    match e
    case Fetch(page, rip) => Access(v, page, true, rip)
    case Data(page) => Access(v, page, false, 0)
    case WriteMtrr(m) => Some(MtrrWrite(v, m))
  }

  /** The view a guest ends in after the fetches of a run that starts in `inside`. */
  function EndsInside(gpas: seq<nat>, inside: bool, events: seq<Event>): bool {
    if events == [] then
      inside
    else
      var last := events[|events| - 1];
      if last.Fetch? then Backs(gpas, last.page) else EndsInside(gpas, inside, events[..|events| - 1])
  }

  /** The RIPs of the fetches outside the range whose previous fetch was inside it, in order. */
  function Departures(gpas: seq<nat>, inside: bool, events: seq<Event>): seq<nat> {
    if events == [] then
      []
    else
      var rest, last := events[..|events| - 1], events[|events| - 1];
      Departures(gpas, inside, rest) +
      if last.Fetch? && EndsInside(gpas, inside, rest) && !Backs(gpas, last.page) then [last.rip] else []
  }

  ghost predicate RunsTo(v: Vcpu, events: seq<Event>, w: Vcpu)
    requires forall e | e in events :: EventOk(e)
  {
    if events == [] then
      w == v
    else
      exists u :: RunsTo(v, events[..|events| - 1], u) && ValidViews(u.views) &&
        StepTracing(u, events[|events| - 1]) == Some(w)
  }

  /** One event while tracing: it succeeds, changes views and emits as its fetch demands, and changes no mapping. */
  lemma TracingStep(v: Vcpu, gpas: seq<nat>, e: Event) returns (w: Vcpu)
    requires TracingVcpu(v, gpas) && EventOk(e)
    ensures StepTracing(v, e) == Some(w) && TracingVcpu(w, gpas)
    ensures w.eptp == TargetView <==> if e.Fetch? then Backs(gpas, e.page) else v.eptp == TargetView
    ensures w.emitted == v.emitted + if e.Fetch? && v.eptp == TargetView && !Backs(gpas, e.page) then [e.rip] else []
    ensures w.views.normal.hooks == v.views.normal.hooks && w.views.target.hooks == v.views.target.hooks
    ensures SameButType(v.views.normal, w.views.normal) && SameButType(v.views.target, w.views.target)
  {
    match e {
      case Fetch(page, rip) =>
        assert Translate(v.views.normal, page).perm == Perm(true, true, Backs(gpas, page) == false);
        assert Translate(v.views.target, page).perm == Perm(true, true, Backs(gpas, page) == true);
        if !Permits(ActiveEpt(v), page, true) {
          ViolationWhileTracing(v, gpas, page, true, rip);
        }
        w := Access(v, page, true, rip).value;
      case Data(page) =>
        assert Translate(v.views.normal, page).perm == Perm(true, true, Backs(gpas, page) == false);
        assert Translate(v.views.target, page).perm == Perm(true, true, Backs(gpas, page) == true);
        w := v;
      case WriteMtrr(m) =>
        w := MtrrWrite(v, m);
        RefreshKeepsTraced(v.views.normal, m, gpas, false);
        RefreshKeepsTraced(v.views.target, m, gpas, true);
        RefreshMemoryTypesEffect(v.views.normal, m, PD_COUNT);
        RefreshMemoryTypesEffect(v.views.target, m, PD_COUNT);
    }
  }

  /**
   Whole tracing runs: no fetch faults twice and none is fatal, the active view always matches the page
   last fetched, and the emitted entries are exactly the departures from the target range, in order.
   */
  lemma {:induction false} TracingRun(v: Vcpu, gpas: seq<nat>, events: seq<Event>) returns (w: Vcpu)
    requires TracingVcpu(v, gpas) && forall e | e in events :: EventOk(e)
    ensures RunsTo(v, events, w) && TracingVcpu(w, gpas)
    ensures w.eptp == TargetView <==> EndsInside(gpas, v.eptp == TargetView, events)
    ensures w.emitted == v.emitted + Departures(gpas, v.eptp == TargetView, events)
    ensures w.views.normal.hooks == v.views.normal.hooks && w.views.target.hooks == v.views.target.hooks
    ensures SameButType(v.views.normal, w.views.normal) && SameButType(v.views.target, w.views.target)
  {
    if events == [] {
      return v;
    }
    var rest, e := events[..|events| - 1], events[|events| - 1];
    assert e in events;
    var u := TracingRun(v, gpas, rest);
    w := TracingStep(u, gpas, e);
    SameButTypeTransitive(v.views.normal, u.views.normal, w.views.normal);
    SameButTypeTransitive(v.views.target, u.views.target, w.views.target);
  }

  lemma SameButTypeTransitive(s: Ept, t: Ept, u: Ept)
    requires Sized(s) && Sized(t) && Sized(u) && SameButType(s, t) && SameButType(t, u)
    ensures SameButType(s, u)
  {
    forall page: nat | page < PAGE_COUNT
      ensures Translate(u, page) == Translate(s, page).(memoryType := Translate(u, page).memoryType)
    {
      assert Translate(t, page) == Translate(s, page).(memoryType := Translate(t, page).memoryType);
      assert Translate(u, page) == Translate(t, page).(memoryType := Translate(u, page).memoryType);
    }
  }

  // ----- Disabling -----

  lemma TracedRestored(s: Ept, gpas: seq<nat>, inside: bool)
    requires Traced(s, gpas, inside)
    ensures var t := WithPerm(s, RWX);
            && Bare(t) && t.hooks == s.hooks
            && forall page: nat | page < PAGE_COUNT :: Translate(t, page) == Translate(s, page).(perm := RWX)
  {
    WithPermEffect(s, RWX);
  }

  /** Disabling returns to the normal view, outside tracing, with every hook armed again. */
  lemma DisableFromTracing(v: Vcpu, gpas: seq<nat>)
    requires TracingVcpu(v, gpas)
    ensures var w := DisableHypercall(v);
            && IdleVcpu(w) && w.emitted == v.emitted && !w.ringActive
            && DisabledFrom(v.views.normal, w.views.normal) && DisabledFrom(v.views.target, w.views.target)
  {
    TracedRestored(v.views.normal, gpas, false);
    TracedRestored(v.views.target, gpas, true);
    ReactivateFromBare(WithPerm(v.views.normal, RWX));
    ReactivateFromBare(WithPerm(v.views.target, RWX));
  }

  predicate DisabledFrom(s: Ept, t: Ept)
    requires Sized(s) && Sized(t)
  {
    && SameHookFrames(s.hooks, t.hooks)
    && forall page: nat | page < PAGE_COUNT ::
         Translate(t, page) == Translate(s, page).(perm := if FirstHook(s.hooks, page).Some? then RW else RWX)
  }

  /** `t` maps every page as `s` does, up to memory type, but with every hooked page armed. */
  predicate SameButArmed(s: Ept, t: Ept)
    requires Sized(s) && Sized(t)
  {
    && SameHookFrames(s.hooks, t.hooks)
    && forall page: nat | page < PAGE_COUNT ::
         if FirstHook(s.hooks, page).Some? then
           Translate(t, page).perm == RW && Translate(t, page).frame == page
         else
           Translate(t, page) == Translate(s, page).(memoryType := Translate(t, page).memoryType)
  }

  /** Enable, any tracing run, disable: both views are as before, with the hooked pages armed. */
  lemma TraceRoundTrip(v: Vcpu, gpas: seq<nat>, events: seq<Event>) returns (w: Vcpu)
    requires IdleVcpu(v) && EnableOutcome(v, gpas).ok && forall e | e in events :: EventOk(e)
    ensures RunsTo(EnableHypercall(v, gpas), events, w) && ValidViews(w.views)
    ensures var d := DisableHypercall(w);
            && IdleVcpu(d)
            && SameButArmed(v.views.normal, d.views.normal) && SameButArmed(v.views.target, d.views.target)
            && d.emitted == v.emitted + Departures(gpas, false, events)
  {
    IdleIsLoose(v.views.normal);
    IdleIsLoose(v.views.target);
    EnableFromLoose(v, gpas);
    var e := EnableHypercall(v, gpas);
    w := TracingRun(e, gpas, events);
    DisableFromTracing(w, gpas);
    var d := DisableHypercall(w);
    DeactivateFromLoose(v.views.normal);
    DeactivateFromLoose(v.views.target);
    var bare := DeactivateBoth(v.views);
    TwoViewComplement(bare, gpas);
    RoundTripOfView(v.views.normal, bare.normal, e.views.normal, w.views.normal, d.views.normal);
    RoundTripOfView(v.views.target, bare.target, e.views.target, w.views.target, d.views.target);
  }

  lemma RoundTripOfView(s: Ept, bare: Ept, enabled: Ept, traced: Ept, d: Ept)
    requires Idle(s) && Bare(bare) && SameHookFrames(s.hooks, bare.hooks)
    requires forall page: nat | page < PAGE_COUNT && FirstHook(s.hooks, page).None? ::
               Translate(bare, page) == Translate(s, page)
    requires Sized(enabled) && SameButPerm(bare, enabled) && enabled.hooks == bare.hooks
    requires Sized(traced) && SameButType(enabled, traced) && traced.hooks == enabled.hooks
    requires Sized(d) && DisabledFrom(traced, d)
    ensures SameButArmed(s, d)
  {
    forall page: nat | page < PAGE_COUNT
      ensures if FirstHook(s.hooks, page).Some? then Translate(d, page).perm == RW && Translate(d, page).frame == page
              else Translate(d, page) == Translate(s, page).(memoryType := Translate(d, page).memoryType)
    {
      assert PageIdle(s, page);
      FirstHookSameFrames(s.hooks, traced.hooks, page);
      assert Translate(bare, page).frame == page;
      assert Translate(enabled, page) == Translate(bare, page).(perm := Translate(enabled, page).perm);
      assert Translate(traced, page) == Translate(enabled, page).(memoryType := Translate(traced, page).memoryType);
    }
  }

  // ----- Disabling outside tracing -----

  /** Disabling outside tracing opens every hooked page; the vCPU is idle then only if it has no hooks. */
  lemma DisableWithoutEnable(v: Vcpu)
    requires Loose(v.views.normal) && Loose(v.views.target)
    ensures var w := DisableHypercall(v);
            && w.views.normal.hooks == v.views.normal.hooks && w.views.target.hooks == v.views.target.hooks
            && (forall page: nat | page < PAGE_COUNT ::
                 Translate(w.views.normal, page) == Translate(v.views.normal, page).(perm := RWX))
            && (IdleVcpu(w) <==> v.views.normal.hooks == [] && v.views.target.hooks == [])
  {
    DisableOpensHooks(v.views.normal);
    DisableOpensHooks(v.views.target);
  }

  lemma DisableOpensHooks(s: Ept)
    requires Loose(s)
    ensures var t := WithPerm(s, RWX);
            && Valid(t) && ReactivateHooks(t, |t.hooks|).hooks == s.hooks
            && (forall page: nat | page < PAGE_COUNT ::
                 Translate(ReactivateHooks(t, |t.hooks|), page) == Translate(s, page).(perm := RWX))
            && (Idle(ReactivateHooks(t, |t.hooks|)) <==> s.hooks == [])
  {
    WithPermEffect(s, RWX);
    var t := WithPerm(s, RWX);
    var u := ReactivateHooks(t, |t.hooks|);
    ActiveHooksStay(t, |t.hooks|);
    forall page: nat | page < PAGE_COUNT
      ensures s.hooks == [] ==> PageIdle(u, page)
    {
      assert PageLoose(s, page);
    }
    if s.hooks != [] {
      var page := s.hooks[0].orig;
      assert HookSlotOk(s.pdes, s.hooks[0]);
      assert FirstHook(s.hooks, page).Some?;
      assert Translate(u, page).perm == RWX;
      assert !PageIdle(u, page);
    }
  }

  lemma {:induction false} ActiveHooksStay(s: Ept, n: nat)
    requires Valid(s) && AllActive(s.hooks) && n <= |s.hooks|
    ensures ReactivateHooks(s, n) == s
  {
    if n > 0 {
      ActiveHooksStay(s, n - 1);
    }
  }
}
