/**
 Whole lives of a vCPU: any sequence of guest events and hypercalls, in any order. None of them is ever fatal,
 but hooks added while tracing, a second enable and a disable outside tracing do not always do what was asked
 for; what becomes of them is stated exactly.
 */
module VcpuLife {
  import opened Common
  import opened EptModel
  import opened AutoTraceModel
  import opened MemoryTypeModel
  import opened VcpuModel
  import opened ViewsInStep
  import M = Mtrr

  // ----- Hooks of a page -----

  predicate Hooked(hooks: seq<Hook>, page: nat, active: bool) {
    HookedBy(hooks, |hooks|, page, active)
  }

  lemma {:induction false} HookedByExists(hooks: seq<Hook>, n: nat, page: nat, active: bool)
    requires n <= |hooks|
    ensures HookedBy(hooks, n, page, active) <==>
              exists i :: 0 <= i < n && hooks[i].orig == page && hooks[i].pte.Some? == active
  {
    if n > 0 {
      HookedByExists(hooks, n - 1, page, active);
    }
  }

  lemma FirstHookKind(hooks: seq<Hook>, page: nat)
    ensures var first := FirstHook(hooks, page);
            && (first.None? <==> !Hooked(hooks, page, true) && !Hooked(hooks, page, false))
            && (first.Some? ==> Hooked(hooks, page, hooks[first.value].pte.Some?))
  {
    HookedByExists(hooks, |hooks|, page, true);
    HookedByExists(hooks, |hooks|, page, false);
    var first := FirstHook(hooks, page);
    if first.Some? {
      assert hooks[first.value].orig == page;
    }
  }

  lemma HookedAppend(hooks: seq<Hook>, h: Hook, page: nat, active: bool)
    ensures Hooked(hooks + [h], page, active) ==
            (Hooked(hooks, page, active) || (h.orig == page && h.pte.Some? == active))
  {
    var all := hooks + [h];
    HookedByExists(hooks, |hooks|, page, active);
    HookedByExists(all, |hooks|, page, active);
    assert forall i | 0 <= i < |hooks| :: all[i] == hooks[i];
  }

  // ----- The two modes -----

  /** `open` are hooked pages whose hook may not have its effect; `denied` those the normal view does not run. */
  datatype Mode = Outside(open: set<nat>) | Tracing(gpas: seq<nat>, denied: set<nat>)

  /** Whether a view runs the page while tracing, hooks aside. */
  predicate Runs(mode: Mode, view: View, page: nat)
    requires mode.Tracing?
  {
    if view.NormalView? then page !in mode.denied else Backs(mode.gpas, page)
  }

  /**
   A page while tracing: under the shadow-page property if its first hook was added while tracing, without
   execution in both views if a later one was, and otherwise executable as the view runs it.
   */
  predicate PageTracing(s: Ept, mode: Mode, view: View, page: nat)
    requires Sized(s) && page < PAGE_COUNT && mode.Tracing?
  {
    var first, leaf := FirstHook(s.hooks, page), Translate(s, page);
    if first.Some? && s.hooks[first.value].pte.Some? then
      ShadowOk(leaf, page, s.hooks[first.value].hook)
    else if Hooked(s.hooks, page, true) then
      leaf.perm == RW && leaf.frame == page
    else
      leaf.perm == Perm(true, true, Runs(mode, view, page)) && leaf.frame == page
  }

  ghost predicate TracingView(s: Ept, mode: Mode, view: View)
    requires mode.Tracing?
  {
    Valid(s) && forall page: nat | page < PAGE_COUNT :: PageTracing(s, mode, view, page)
  }

  /** Outside tracing every page but the open ones is idle. */
  ghost predicate OutsideView(s: Ept, open: set<nat>) {
    Loose(s) && forall page: nat | page < PAGE_COUNT && page !in open :: PageIdle(s, page)
  }

  function Pages(gpas: seq<nat>): set<nat> {
    set page: nat | page < PAGE_COUNT && Backs(gpas, page)
  }

  ghost predicate InMode(v: Vcpu, mode: Mode) {
    && ViewsAgree(v.views)
    && (v.inNormal <==> v.eptp == NormalView)
    && match mode
       case Outside(open) => OutsideView(v.views.normal, open) && OutsideView(v.views.target, open)
       case Tracing(gpas, denied) =>
         && TracingView(v.views.normal, mode, NormalView) && TracingView(v.views.target, mode, TargetView)
         && Pages(gpas) <= denied && v.ringActive
  }

  lemma IdleIsOutside(v: Vcpu)
    ensures InMode(v, Outside({})) && v.inNormal <==> IdleVcpu(v) && ViewsAgree(v.views)
  {
    if IdleVcpu(v) {
      IdleIsLoose(v.views.normal);
      IdleIsLoose(v.views.target);
    }
  }

  /** The pages all of whose hooks are active: while tracing, those hooked since the enable only. */
  function NewlyHooked(hooks: seq<Hook>): set<nat> {
    set i | 0 <= i < |hooks| && !Hooked(hooks, hooks[i].orig, false) :: hooks[i].orig
  }

  lemma NewlyHookedPages(hooks: seq<Hook>, page: nat)
    ensures page in NewlyHooked(hooks) <==> Hooked(hooks, page, true) && !Hooked(hooks, page, false)
  {
    HookedByExists(hooks, |hooks|, page, true);
    HookedByExists(hooks, |hooks|, page, false);
  }

  // ----- Hooks in either mode -----

  lemma HookOutside(s: Ept, open: set<nat>, origPfn: nat, hookPfn: nat)
    requires OutsideView(s, open)
    ensures OutsideView(AddHookState(s, origPfn, hookPfn), open)
  {
    AddHookEffect(s, origPfn, hookPfn);
    var t := AddHookState(s, origPfn, hookPfn);
    forall page: nat | page < PAGE_COUNT
      ensures PageLoose(t, page) && (page !in open ==> PageIdle(t, page))
    {
      assert PageLoose(s, page) && (page !in open ==> PageIdle(s, page));
      if CanAddHook(s, origPfn) {
        FirstHookAppend(s.hooks, t.hooks[|s.hooks|], page);
      }
    }
  }

  lemma HookTracing(s: Ept, mode: Mode, view: View, origPfn: nat, hookPfn: nat)
    requires mode.Tracing? && TracingView(s, mode, view)
    ensures TracingView(AddHookState(s, origPfn, hookPfn), mode, view)
  {
    AddHookEffect(s, origPfn, hookPfn);
    var t := AddHookState(s, origPfn, hookPfn);
    forall page: nat | page < PAGE_COUNT
      ensures PageTracing(t, mode, view, page)
    {
      assert PageTracing(s, mode, view, page);
      FirstHookKind(s.hooks, page);
      if CanAddHook(s, origPfn) {
        FirstHookAppend(s.hooks, t.hooks[|s.hooks|], page);
        HookedAppend(s.hooks, t.hooks[|s.hooks|], page, true);
      }
    }
  }

  lemma HookKeepsMode(v: Vcpu, mode: Mode, origPfn: nat, hookPfn: nat)
    requires InMode(v, mode)
    ensures InMode(HookHypercall(v, origPfn, hookPfn), mode)
  {
    HookInStep(v, origPfn, hookPfn);
    AddHookInStep(v.views.normal, v.views.target, origPfn, hookPfn);
    match mode {
      case Outside(open) =>
        HookOutside(v.views.normal, open, origPfn, hookPfn);
        HookOutside(v.views.target, open, origPfn, hookPfn);
      case Tracing(_, _) =>
        HookTracing(v.views.normal, mode, NormalView, origPfn, hookPfn);
        HookTracing(v.views.target, mode, TargetView, origPfn, hookPfn);
    }
  }

  // ----- Faults -----

  /** The first hook of the page is active: while tracing, it was first hooked since the enable. */
  predicate Swaps(hooks: seq<Hook>, page: nat) {
    var first := FirstHook(hooks, page);
    first.Some? && hooks[first.value].pte.Some?
  }

  /**
   Neither view runs the page while tracing: it was hooked before the enable and again since, or it is left
   over from a range that was traced before this one.
   */
  predicate Stuck(hooks: seq<Hook>, mode: Mode, page: nat)
    requires mode.Tracing?
  {
    !Swaps(hooks, page) && (Hooked(hooks, page, true) || (page in mode.denied && !Backs(mode.gpas, page)))
  }

  lemma SwapOutside(s: Ept, open: set<nat>, page: nat, execute: bool)
    requires OutsideView(s, open) && page < PAGE_COUNT && !Permits(s, page, execute)
    ensures var first := FirstHook(s.hooks, page);
            && first.Some? && s.hooks[first.value].pte.Some?
            && OutsideView(SwapHook(s, first.value, execute), open)
            && Permits(SwapHook(s, first.value, execute), page, execute)
  {
    assert PageLoose(s, page);
    SwapHookWrites(s, page, execute);
    var t := SwapHook(s, FirstHook(s.hooks, page).value, execute);
    forall q: nat | q < PAGE_COUNT
      ensures PageLoose(t, q) && (q !in open ==> PageIdle(t, q))
    {
      assert PageLoose(s, q) && (q !in open ==> PageIdle(s, q));
    }
  }

  lemma SwapTracing(s: Ept, mode: Mode, view: View, page: nat, execute: bool)
    requires mode.Tracing? && TracingView(s, mode, view) && page < PAGE_COUNT && Swaps(s.hooks, page)
    ensures var t := SwapHook(s, FirstHook(s.hooks, page).value, execute);
            TracingView(t, mode, view) && Permits(t, page, execute)
  {
    SwapHookWrites(s, page, execute);
    var t := SwapHook(s, FirstHook(s.hooks, page).value, execute);
    forall q: nat | q < PAGE_COUNT
      ensures PageTracing(t, mode, view, q)
    {
      assert PageTracing(s, mode, view, q);
    }
  }

  /**
   A fault while tracing. On a page whose first hook was added while tracing it is handled by the hook: the
   view stays, nothing is emitted, and the access succeeds, so such a page neither enters nor leaves the
   trace. On every other page only fetches fault, and they switch the view; the retry succeeds unless the
   page is stuck.
   */
  lemma FaultWhileTracing(v: Vcpu, mode: Mode, page: nat, execute: bool, rip: nat)
    requires mode.Tracing? && InMode(v, mode) && page < PAGE_COUNT && !Permits(ActiveEpt(v), page, execute)
    ensures var hooks, r := v.views.normal.hooks, Violation(v, page, execute, rip);
            && r.Resumed? && InMode(r.vcpu, mode)
            && (if Swaps(hooks, page) then
                  r.vcpu.eptp == v.eptp && r.vcpu.emitted == v.emitted && Permits(ActiveEpt(r.vcpu), page, execute)
                else
                  && execute && r.vcpu.eptp != v.eptp
                  && r.vcpu.emitted == (if v.eptp == TargetView then v.emitted + [rip] else v.emitted)
                  && (Permits(ActiveEpt(r.vcpu), page, execute) <==> !Stuck(hooks, mode, page)))
  {
    assert PageTracing(v.views.normal, mode, NormalView, page) && PageTracing(v.views.target, mode, TargetView, page);
    FirstHookKind(v.views.normal.hooks, page);
    assert Backs(mode.gpas, page) ==> page in Pages(mode.gpas);
    if Swaps(v.views.normal.hooks, page) {
      ViolationInStep(v, page, execute, rip);
      SwapTracing(ActiveEpt(v), mode, v.eptp, page, execute);
    }
  }

  /** Where each access to a page outside tracing ends: it is permitted, or the hook makes it so. */
  lemma FaultOutside(v: Vcpu, open: set<nat>, page: nat, execute: bool, rip: nat)
    requires InMode(v, Outside(open)) && page < PAGE_COUNT && !Permits(ActiveEpt(v), page, execute)
    ensures var r := Violation(v, page, execute, rip);
            && r.Resumed? && InMode(r.vcpu, Outside(open))
            && Permits(ActiveEpt(r.vcpu), page, execute) && r.vcpu.emitted == v.emitted
  {
    SwapOutside(ActiveEpt(v), open, page, execute);
    ViolationInStep(v, page, execute, rip);
  }

  // ----- The other commands -----

  lemma RefreshKeepsMode(v: Vcpu, mode: Mode, m: M.MtrrState)
    requires InMode(v, mode) && m.Valid()
    ensures InMode(MtrrWrite(v, m), mode)
  {
    RefreshInStep(v.views.normal, v.views.target, m, PD_COUNT);
    RefreshView(v.views.normal, mode, NormalView, m);
    RefreshView(v.views.target, mode, TargetView, m);
  }

  lemma RefreshView(s: Ept, mode: Mode, view: View, m: M.MtrrState)
    requires Valid(s) && m.Valid()
    ensures var t := RefreshMemoryTypes(s, m, PD_COUNT);
            && (mode.Outside? && OutsideView(s, mode.open) ==> OutsideView(t, mode.open))
            && (mode.Tracing? && TracingView(s, mode, view) ==> TracingView(t, mode, view))
  {
    RefreshMemoryTypesEffect(s, m, PD_COUNT);
    var t := RefreshMemoryTypes(s, m, PD_COUNT);
    forall page: nat | page < PAGE_COUNT
      ensures PageLoose(s, page) ==> PageLoose(t, page)
      ensures PageIdle(s, page) ==> PageIdle(t, page)
      ensures mode.Tracing? && PageTracing(s, mode, view, page) ==> PageTracing(t, mode, view, page)
    {
      assert Translate(t, page) == Translate(s, page).(memoryType := Translate(t, page).memoryType);
    }
  }

  // ----- Enabling in any mode -----

  /** The pages a further enable leaves without execution in the normal view; it gives it back to hooked ones only. */
  function StillDenied(hooks: seq<Hook>, mode: Mode): set<nat> {
    if mode.Outside? then {} else set page | page in mode.denied && !Hooked(hooks, page, true)
  }

  predicate IsDenied(hooks: seq<Hook>, mode: Mode, page: nat) {
    page in StillDenied(hooks, mode)
  }

  /** A view that was in the mode and whose hooks were deactivated. */
  ghost predicate Deactivated(s: Ept, hooks: seq<Hook>, mode: Mode, view: View) {
    && Valid(s) && AllInactive(s.hooks) && IdentityFrames(s)
    && (view.NormalView? ==>
          forall page: nat | page < PAGE_COUNT ::
            Translate(s, page).perm == if IsDenied(hooks, mode, page) then RW else RWX)
  }

  lemma DeactivateInMode(s: Ept, mode: Mode, view: View)
    requires if mode.Outside? then OutsideView(s, mode.open) else TracingView(s, mode, view)
    ensures Deactivated(DeactivateHooks(s, |s.hooks|), s.hooks, mode, view)
  {
    var t := DeactivateHooks(s, |s.hooks|);
    forall page: nat | page < PAGE_COUNT
      ensures Translate(t, page).frame == page
      ensures view.NormalView? ==> Translate(t, page).perm == if IsDenied(s.hooks, mode, page) then RW else RWX
    {
      DeactivateHooksEffect(s, |s.hooks|, page);
      FirstHookKind(s.hooks, page);
      if mode.Outside? {
        HookedByFirst(s.hooks, |s.hooks|, page, true);
        assert PageLoose(s, page);
      } else {
        assert PageTracing(s, mode, view, page);
      }
    }
  }

  /** The mode that an enable ends in. */
  function EnabledMode(v: Vcpu, mode: Mode, gpas: seq<nat>): Mode
    requires ValidViews(v.views)
  {
    if EnableOutcome(v, gpas).ok then
      Tracing(gpas, StillDenied(v.views.normal.hooks, mode) + Pages(gpas))
    else
      Outside({})
  }

  /**
   An enable in any mode. If it succeeds it starts tracing in the normal view, in which the pages of an earlier
   range stay denied; if it fails it ends any tracing with every page idle, but the active view stays, and so
   does the ring.
   */
  lemma EnableKeepsMode(v: Vcpu, mode: Mode, gpas: seq<nat>)
    requires InMode(v, mode)
    ensures var w := EnableHypercall(v, gpas);
            && InMode(w, EnabledMode(v, mode, gpas)) && w.emitted == v.emitted
            && (if EnableOutcome(v, gpas).ok then
                  w.eptp == NormalView && AllInactive(w.views.normal.hooks)
                else
                  && Idle(w.views.normal) && Idle(w.views.target)
                  && w.eptp == v.eptp && w.inNormal == v.inNormal && w.ringActive == v.ringActive)
  {
    EnableInStep(v, gpas);
    DeactivateInMode(v.views.normal, mode, NormalView);
    DeactivateInMode(v.views.target, mode, TargetView);
    var bare, o := DeactivateBoth(v.views), EnableOutcome(v, gpas);
    EnableFromDeactivated(bare, v.views.normal.hooks, mode, gpas);
    if !o.ok {
      ReactivateFromBare(o.views.normal);
      ReactivateFromBare(o.views.target);
      IdleIsLoose(EnableHypercall(v, gpas).views.normal);
      IdleIsLoose(EnableHypercall(v, gpas).views.target);
    }
  }

  lemma EnableFromDeactivated(bare: Views, hooks: seq<Hook>, mode: Mode, gpas: seq<nat>)
    requires Deactivated(bare.normal, hooks, mode, NormalView) && Deactivated(bare.target, hooks, mode, TargetView)
    ensures var o, tracing := EnableAutoTrace(bare, gpas), Tracing(gpas, StillDenied(hooks, mode) + Pages(gpas));
            && AllInactive(o.views.normal.hooks)
            && if o.ok then
                 TracingView(o.views.normal, tracing, NormalView) && TracingView(o.views.target, tracing, TargetView)
               else
                 Bare(o.views.normal) && Bare(o.views.target)
  {
    WithPermEffect(bare.target, RW);
    var start := bare.(target := WithPerm(bare.target, RW));
    var o, tracing := EnablePages(start, gpas), Tracing(gpas, StillDenied(hooks, mode) + Pages(gpas));
    EnablePagesEffect(start, gpas, 0);
    forall page: nat | page < PAGE_COUNT
      ensures Translate(o.views.normal, page).frame == page && Translate(o.views.target, page).frame == page
      ensures o.ok ==> PageTracing(o.views.normal, tracing, NormalView, page)
      ensures o.ok ==> PageTracing(o.views.target, tracing, TargetView, page)
      ensures !o.ok ==> Translate(o.views.normal, page).perm == RWX && Translate(o.views.target, page).perm == RWX
    {
      EnablePagesEffect(start, gpas, page);
      assert Translate(bare.normal, page).frame == page && Translate(bare.target, page).frame == page;
      HookedByFirst(bare.normal.hooks, |bare.normal.hooks|, page, false);
      HookedByFirst(bare.target.hooks, |bare.target.hooks|, page, false);
    }
  }

  /**
   After an enable in any mode, in particular while tracing: the views are complementary at a page if and only
   if it lies in the new range or is not left over from an older one.
   */
  lemma ComplementAfterEnable(v: Vcpu, mode: Mode, gpas: seq<nat>, page: nat)
    requires InMode(v, mode) && EnableOutcome(v, gpas).ok && page < PAGE_COUNT
    ensures var w := EnableHypercall(v, gpas);
            var normal, target := Translate(w.views.normal, page).perm, Translate(w.views.target, page).perm;
            && target.execute == Backs(gpas, page)
            && (normal.execute != target.execute <==>
                  Backs(gpas, page) || page !in StillDenied(v.views.normal.hooks, mode))
  {
    EnableKeepsMode(v, mode, gpas);
    var w, tracing := EnableHypercall(v, gpas), EnabledMode(v, mode, gpas);
    HookedByFirst(w.views.normal.hooks, |w.views.normal.hooks|, page, false);
    assert PageTracing(w.views.normal, tracing, NormalView, page);
    assert PageTracing(w.views.target, tracing, TargetView, page);
  }

  /** A fetch after an enable while tracing is stuck exactly for a page that is left over. */
  lemma StuckAfterEnable(v: Vcpu, mode: Mode, gpas: seq<nat>, page: nat, rip: nat)
    requires InMode(v, mode) && EnableOutcome(v, gpas).ok && page < PAGE_COUNT
    ensures Access(EnableHypercall(v, gpas), page, true, rip).None? <==>
            page in StillDenied(v.views.normal.hooks, mode) && !Backs(gpas, page)
  {
    EnableKeepsMode(v, mode, gpas);
    var w, tracing := EnableHypercall(v, gpas), EnabledMode(v, mode, gpas);
    HookedByFirst(w.views.normal.hooks, |w.views.normal.hooks|, page, false);
    AccessInMode(w, tracing, page, true, rip);
  }

  // ----- Disabling in any mode -----

  /**
   Disabling in any mode: every page is idle again, except exactly those whose hooks were all active, that is,
   those hooked while tracing and not before, or outside tracing all hooked ones. These have full access, so
   their hook catches nothing.
   */
  lemma DisabledView(s: Ept, mode: Mode, view: View)
    requires if mode.Outside? then OutsideView(s, mode.open) else TracingView(s, mode, view)
    ensures var t := WithPerm(s, RWX);
            && Valid(t) && t.hooks == s.hooks
            && var d := ReactivateHooks(t, |t.hooks|);
            && OutsideView(d, NewlyHooked(s.hooks)) && SameHookFrames(s.hooks, d.hooks)
            && forall page: nat | page < PAGE_COUNT ::
                 && (PageIdle(d, page) <==> page !in NewlyHooked(s.hooks))
                 && (page in NewlyHooked(s.hooks) ==> Translate(d, page).perm == RWX)
  {
    WithPermEffect(s, RWX);
    var t := WithPerm(s, RWX);
    var d := ReactivateHooks(t, |t.hooks|);
    ReactivateHooksLosesNone(t, |t.hooks|);
    forall page: nat | page < PAGE_COUNT
      ensures PageLoose(d, page) && (PageIdle(d, page) <==> page !in NewlyHooked(s.hooks))
      ensures page in NewlyHooked(s.hooks) ==> Translate(d, page).perm == RWX
    {
      assert if mode.Outside? then PageLoose(s, page) else PageTracing(s, mode, view, page);
      ReactivateHooksEffect(t, |t.hooks|, page);
      FirstHookSameFrames(s.hooks, d.hooks, page);
      FirstHookKind(s.hooks, page);
      NewlyHookedPages(s.hooks, page);
    }
  }

  lemma DisableKeepsMode(v: Vcpu, mode: Mode)
    requires InMode(v, mode)
    ensures var w := DisableHypercall(v);
            && InMode(w, Outside(NewlyHooked(v.views.normal.hooks)))
            && w.eptp == NormalView && w.inNormal && !w.ringActive && w.emitted == v.emitted
  {
    DisableInStep(v);
    DisabledView(v.views.normal, mode, NormalView);
    DisabledView(v.views.target, mode, TargetView);
  }

  // ----- Lives -----

  datatype Command = Hook(origPfn: nat, hookPfn: nat) | Guest(event: Event) | Enable(gpas: seq<nat>) | Disable

  predicate CommandOk(c: Command) {
    c.Guest? ==> EventOk(c.event)
  }

  predicate CommandsOk(commands: seq<Command>) {
    forall c | c in commands :: CommandOk(c)
  }

  /**
   One attempt of an access, with the exit it causes if it faults. A fetch that is stuck has not completed then;
   the guest may try again, or be interrupted.
   */
  function Attempt(v: Vcpu, page: nat, execute: bool, rip: nat): Option<Vcpu>
    requires ValidViews(v.views) && page < PAGE_COUNT
  {
    if Permits(ActiveEpt(v), page, execute) then
      Some(v)
    else
      match Violation(v, page, execute, rip)
      case Fatal => None
      case Resumed(w) => Some(w)
  }

  function Execute(v: Vcpu, c: Command): Option<Vcpu>
    requires ValidViews(v.views) && CommandOk(c)
  {
    match c
    case Hook(origPfn, hookPfn) => Some(HookHypercall(v, origPfn, hookPfn))
    case Guest(Fetch(page, rip)) => Attempt(v, page, true, rip)
    case Guest(Data(page)) => Attempt(v, page, false, 0)
    case Guest(WriteMtrr(m)) => Some(MtrrWrite(v, m))
    case Enable(gpas) => Some(EnableHypercall(v, gpas))
    case Disable => Some(DisableHypercall(v))
  }

  function NextMode(v: Vcpu, mode: Mode, c: Command): Mode
    requires ValidViews(v.views)
  {
    match c
    case Hook(_, _) => mode
    case Guest(_) => mode
    case Enable(gpas) => EnabledMode(v, mode, gpas)
    case Disable => Outside(NewlyHooked(v.views.normal.hooks))
  }

  /** An access in any mode is never fatal, and completes after at most one exit unless it is a stuck fetch. */
  lemma AccessInMode(v: Vcpu, mode: Mode, page: nat, execute: bool, rip: nat)
    requires InMode(v, mode) && page < PAGE_COUNT
    ensures ValidViews(v.views)
    ensures var r := Attempt(v, page, execute, rip);
            && r.Some? && InMode(r.value, mode)
            && (Permits(ActiveEpt(r.value), page, execute) <==>
                  !(mode.Tracing? && execute && Stuck(v.views.normal.hooks, mode, page)))
            && Access(v, page, execute, rip) == if Permits(ActiveEpt(r.value), page, execute) then r else None
  {
    match mode {
      case Outside(open) =>
        if !Permits(ActiveEpt(v), page, execute) {
          FaultOutside(v, open, page, execute, rip);
        }
      case Tracing(gpas, denied) =>
        assert PageTracing(v.views.normal, mode, NormalView, page) &&
          PageTracing(v.views.target, mode, TargetView, page);
        FirstHookKind(v.views.normal.hooks, page);
        assert Backs(gpas, page) ==> page in Pages(gpas);
        if !Permits(ActiveEpt(v), page, execute) {
          FaultWhileTracing(v, mode, page, execute, rip);
        }
    }
  }

  /** Every command succeeds and keeps the invariant of the mode it leads to. */
  lemma CommandKeepsInvariant(v: Vcpu, mode: Mode, c: Command)
    requires InMode(v, mode) && CommandOk(c)
    ensures Execute(v, c).Some? && InMode(Execute(v, c).value, NextMode(v, mode, c))
  {
    match c {
      case Hook(origPfn, hookPfn) => HookKeepsMode(v, mode, origPfn, hookPfn);
      case Enable(gpas) => EnableKeepsMode(v, mode, gpas);
      case Disable => DisableKeepsMode(v, mode);
      case Guest(WriteMtrr(m)) => RefreshKeepsMode(v, mode, m);
      case Guest(Fetch(page, rip)) => AccessInMode(v, mode, page, true, rip);
      case Guest(Data(page)) => AccessInMode(v, mode, page, false, 0);
    }
  }

  datatype Life = Life(vcpu: Vcpu, mode: Mode)

  ghost predicate GoodLife(l: Life) {
    InMode(l.vcpu, l.mode)
  }

  /** The state after the commands; `None` if one of them was fatal. */
  function Live(l: Life, commands: seq<Command>): Option<Life>
    requires CommandsOk(commands)
  {
    if commands == [] then
      Some(l)
    else
      match Live(l, commands[..|commands| - 1])
      case None => None
      case Some(k) => LiveStep(k, commands[|commands| - 1])
  }

  function LiveStep(l: Life, c: Command): Option<Life>
    requires CommandOk(c)
  {
    if !ValidViews(l.vcpu.views) then
      None
    else
      match Execute(l.vcpu, c)
      case None => None
      case Some(w) => Some(Life(w, NextMode(l.vcpu, l.mode, c)))
  }

  /** No life ends in a fatal exit, and every state it passes through is good: whole-life safety. */
  lemma {:induction false} LifeKeepsInvariant(l: Life, commands: seq<Command>)
    requires GoodLife(l) && CommandsOk(commands)
    ensures Live(l, commands).Some? && GoodLife(Live(l, commands).value)
  {
    if commands != [] {
      var n := |commands| - 1;
      LifeKeepsInvariant(l, commands[..n]);
      var k := Live(l, commands[..n]).value;
      assert commands[n] in commands;
      CommandKeepsInvariant(k.vcpu, k.mode, commands[n]);
    }
  }

  /** A vCPU as it is launched. */
  function Fresh(m: M.MtrrState): Vcpu
    requires m.Valid()
  {
    Vcpu(Views(InitializeTo(m, PDE_COUNT), InitializeTo(m, PDE_COUNT)), true, NormalView, false, [])
  }

  lemma FreshIsIdle(m: M.MtrrState)
    requires m.Valid()
    ensures IdleVcpu(Fresh(m)) && GoodLife(Life(Fresh(m), Outside({})))
  {
    var s := InitializeTo(m, PDE_COUNT);
    forall page: nat | page < PAGE_COUNT
      ensures PageIdle(s, page)
    {
      InitializeIsIdle(m, page);
    }
    IdleIsOutside(Fresh(m));
  }

  /**
   The shadow-page property over every life from the launch on: whenever the vCPU is not tracing, a permitted
   data access to a hooked page reaches the original frame, a permitted fetch the frame of its first hook, and
   an unhooked page is mapped to itself with full access. Excepted are the pages that the last disable has
   opened; they show one of the two frames.
   */
  lemma ShadowPagesOverLives(m: M.MtrrState, commands: seq<Command>, page: nat)
    requires m.Valid() && CommandsOk(commands) && page < PAGE_COUNT
    ensures Live(Life(Fresh(m), Outside({})), commands).Some?
    ensures var Life(w, mode) := Live(Life(Fresh(m), Outside({})), commands).value;
            && ValidViews(w.views)
            && (mode.Outside? ==> ShowsShadowPage(ActiveEpt(w), page, page in mode.open))
  {
    FreshIsIdle(m);
    LifeKeepsInvariant(Life(Fresh(m), Outside({})), commands);
    var Life(w, mode) := Live(Life(Fresh(m), Outside({})), commands).value;
    if mode.Outside? {
      assert PageLoose(ActiveEpt(w), page) && (page !in mode.open ==> PageIdle(ActiveEpt(w), page));
    }
  }

  /** What accesses to a page outside tracing reach. */
  predicate ShowsShadowPage(s: Ept, page: nat, open: bool)
    requires Sized(s) && page < PAGE_COUNT
  {
    var leaf := Translate(s, page);
    match FirstHook(s.hooks, page)
    case None => leaf.perm == RWX && leaf.frame == page
    case Some(i) =>
      var hook := s.hooks[i].hook;
      && (leaf.frame == page || leaf.frame == hook)
      && (!open ==>
            && (leaf.perm.read || leaf.perm.write ==> leaf.frame == page)
            && (leaf.perm.execute ==> leaf.frame == hook))
  }

  // ----- The trace of a life -----

  /** Whether the guest is in the range after the command, as far as the fetches of pages no hook swaps tell. */
  function InsideAfter(l: Life, c: Command, inside: bool): bool
    requires ValidViews(l.vcpu.views)
  {
    match c
    case Guest(Fetch(page, _)) =>
      if l.mode.Outside? || Swaps(l.vcpu.views.normal.hooks, page) then inside
      else if Stuck(l.vcpu.views.normal.hooks, l.mode, page) then !inside
      else Backs(l.mode.gpas, page)
    case Enable(gpas) => inside && !EnableOutcome(l.vcpu, gpas).ok
    case Disable => false
    case _ => inside
  }

  /** An entry is due when a fetch leaves the range, and on every other exit of a fetch that is stuck. */
  predicate EntryDue(l: Life, c: Command, inside: bool) {
    && l.mode.Tracing? && c.Guest? && c.event.Fetch? && inside && !Swaps(l.vcpu.views.normal.hooks, c.event.page)
    && (Stuck(l.vcpu.views.normal.hooks, l.mode, c.event.page) || !Backs(l.mode.gpas, c.event.page))
  }

  lemma CommandEmits(l: Life, c: Command)
    requires GoodLife(l) && CommandOk(c)
    ensures Execute(l.vcpu, c).Some?
    ensures var w, inside := Execute(l.vcpu, c).value, l.vcpu.eptp == TargetView;
            && (w.eptp == TargetView <==> InsideAfter(l, c, inside))
            && w.emitted == l.vcpu.emitted + if EntryDue(l, c, inside) then [c.event.rip] else []
  {
    var v, mode := l.vcpu, l.mode;
    match c {
      case Guest(Fetch(page, rip)) => FetchEmits(l, page, rip);
      case Guest(Data(page)) =>
        AccessInMode(v, mode, page, false, 0);
        if !Permits(ActiveEpt(v), page, false) {
          FaultEmits(v, mode, page, false, 0);
        }
      case Enable(gpas) => EnableKeepsMode(v, mode, gpas);
      case _ =>
    }
  }

  lemma FaultEmits(v: Vcpu, mode: Mode, page: nat, execute: bool, rip: nat)
    requires InMode(v, mode) && page < PAGE_COUNT && !Permits(ActiveEpt(v), page, execute)
    ensures var r := Violation(v, page, execute, rip);
            && r.Resumed?
            && (mode.Outside? || Swaps(v.views.normal.hooks, page) ==>
                  r.vcpu.eptp == v.eptp && r.vcpu.emitted == v.emitted)
            && (mode.Tracing? && !Swaps(v.views.normal.hooks, page) ==>
                  && execute && r.vcpu.eptp != v.eptp
                  && r.vcpu.emitted == if v.eptp == TargetView then v.emitted + [rip] else v.emitted)
  {
    if mode.Outside? {
      FaultOutside(v, mode.open, page, execute, rip);
      SwapOutside(ActiveEpt(v), mode.open, page, execute);
    } else {
      FaultWhileTracing(v, mode, page, execute, rip);
    }
  }

  lemma FetchEmits(l: Life, page: nat, rip: nat)
    requires GoodLife(l) && page < PAGE_COUNT
    ensures ValidViews(l.vcpu.views) && Attempt(l.vcpu, page, true, rip).Some?
    ensures var c, inside := Guest(Fetch(page, rip)), l.vcpu.eptp == TargetView;
            var w := Attempt(l.vcpu, page, true, rip).value;
            && (w.eptp == TargetView <==> InsideAfter(l, c, inside))
            && w.emitted == l.vcpu.emitted + if EntryDue(l, c, inside) then [rip] else []
  {
    var v, mode := l.vcpu, l.mode;
    AccessInMode(v, mode, page, true, rip);
    if mode.Tracing? {
      assert PageTracing(v.views.normal, mode, NormalView, page) && PageTracing(v.views.target, mode, TargetView, page);
      FirstHookKind(v.views.normal.hooks, page);
      assert Backs(mode.gpas, page) ==> page in Pages(mode.gpas);
    }
    if !Permits(ActiveEpt(v), page, true) {
      FaultEmits(v, mode, page, true, rip);
    }
  }

  /** Whether the guest is in the range after the commands. */
  function Inside(l: Life, inside: bool, commands: seq<Command>): bool
    requires CommandsOk(commands)
  {
    if commands == [] then
      inside
    else
      var rest, c := commands[..|commands| - 1], commands[|commands| - 1];
      match Live(l, rest)
      case None => false
      case Some(k) => ValidViews(k.vcpu.views) && InsideAfter(k, c, Inside(l, inside, rest))
  }

  /** The RIPs of the entries due over the commands, in order. */
  function Entries(l: Life, inside: bool, commands: seq<Command>): seq<nat>
    requires CommandsOk(commands)
  {
    if commands == [] then
      []
    else
      var rest, c := commands[..|commands| - 1], commands[|commands| - 1];
      match Live(l, rest)
      case None => []
      case Some(k) =>
        Entries(l, inside, rest) + if EntryDue(k, c, Inside(l, inside, rest)) then [c.event.rip] else []
  }

  /** Over every life the entries that were emitted are exactly those due, and the view follows the guest. */
  lemma {:induction false} EntriesOverLives(l: Life, commands: seq<Command>)
    requires GoodLife(l) && CommandsOk(commands)
    ensures Live(l, commands).Some?
    ensures var w, inside := Live(l, commands).value.vcpu, l.vcpu.eptp == TargetView;
            && (w.eptp == TargetView <==> Inside(l, inside, commands))
            && w.emitted == l.vcpu.emitted + Entries(l, inside, commands)
  {
    LifeKeepsInvariant(l, commands);
    if commands != [] {
      var n := |commands| - 1;
      EntriesOverLives(l, commands[..n]);
      LifeKeepsInvariant(l, commands[..n]);
      assert commands[n] in commands;
      CommandEmits(Live(l, commands[..n]).value, commands[n]);
    }
  }

  /** The fetches among the commands, without those of pages that a hook swaps at that time. */
  function UnhookedFetches(l: Life, commands: seq<Command>): seq<Event>
    requires CommandsOk(commands)
  {
    if commands == [] then
      []
    else
      var rest, c := commands[..|commands| - 1], commands[|commands| - 1];
      match Live(l, rest)
      case None => []
      case Some(k) =>
        UnhookedFetches(l, rest) +
        if c.Guest? && c.event.Fetch? && !Swaps(k.vcpu.views.normal.hooks, c.event.page) then [c.event] else []
  }

  /** No command is a fetch that is stuck. */
  predicate NeverStuck(l: Life, commands: seq<Command>)
    requires CommandsOk(commands)
  {
    commands != [] ==>
      var rest, c := commands[..|commands| - 1], commands[|commands| - 1];
      && NeverStuck(l, rest)
      && match Live(l, rest)
         case None => false
         case Some(k) =>
           k.mode.Tracing? && c.Guest? && c.event.Fetch? ==>
             !Stuck(k.vcpu.views.normal.hooks, k.mode, c.event.page)
  }

  /**
   While tracing, with hooks added at any time: the entries are the departures from the range over the fetches
   of pages that no hook swaps.
   */
  lemma {:induction false} EntriesAreDepartures(l: Life, inside: bool, commands: seq<Command>)
    requires GoodLife(l) && l.mode.Tracing? && WithinTracing(commands) && CommandsOk(commands) &&
             NeverStuck(l, commands)
    ensures Inside(l, inside, commands) <==> EndsInside(l.mode.gpas, inside, UnhookedFetches(l, commands))
    ensures Entries(l, inside, commands) == Departures(l.mode.gpas, inside, UnhookedFetches(l, commands))
  {
    if commands != [] {
      var n := |commands| - 1;
      var rest, c := commands[..n], commands[n];
      EntriesAreDepartures(l, inside, rest);
      TracingGrowsHooks(l, rest);
      assert c in commands;
      var before, fetches := UnhookedFetches(l, rest), UnhookedFetches(l, commands);
      if fetches != before {
        assert fetches[..|fetches| - 1] == before;
      }
    }
  }

  /** The trace of any tracing with hooks added meanwhile, as long as no fetch is stuck. */
  lemma TraceWithHooks(l: Life, commands: seq<Command>)
    requires GoodLife(l) && l.mode.Tracing? && WithinTracing(commands) && CommandsOk(commands) &&
             NeverStuck(l, commands)
    ensures Live(l, commands).Some?
    ensures var w, inside := Live(l, commands).value.vcpu, l.vcpu.eptp == TargetView;
            var fetches := UnhookedFetches(l, commands);
            && w.emitted == l.vcpu.emitted + Departures(l.mode.gpas, inside, fetches)
            && (w.eptp == TargetView <==> EndsInside(l.mode.gpas, inside, fetches))
  {
    EntriesOverLives(l, commands);
    EntriesAreDepartures(l, l.vcpu.eptp == TargetView, commands);
  }

  // ----- A mistyped page -----

  lemma {:induction false} DisabledRegistersSplitNothing(m: M.MtrrState, n: nat)
    requires m.Valid() && !m.enabled && n <= PDE_COUNT
    ensures InitializeTo(m, n).used == 0
  {
    if n > 0 {
      DisabledRegistersSplitNothing(m, n - 1);
    }
  }

  /** Fixed ranges only: all uncacheable, or all but the 64 KB from 0x10000 on, which are write-back. */
  function Registers(enabled: bool): (m: M.MtrrState)
    ensures m.Valid()
  {
    M.MtrrState(enabled, M.UC, true, true, seq(M.FIX_COUNT, i => if i == 1 then M.WB else M.UC), [])
  }

  /**
   A life that ends with a mistyped page: page 0 is hooked with frame 16, fetched, and the registers are then
   enabled. Page 0 is typed write-back although its own type is uncacheable.
   */
  lemma MistypedPage()
    ensures var hooked := HookHypercall(Fresh(Registers(false)), 0, 16);
            var fetched := Violation(hooked, 0, true, 0);
            && fetched.Resumed? && ValidViews(fetched.vcpu.views)
            && Translate(MtrrWrite(fetched.vcpu, Registers(true)).views.normal, 0).memoryType == M.WB
            && M.PageType(Registers(true), 0) == M.UC
  {
    var v := Fresh(Registers(false));
    FreshIsIdle(Registers(false));
    DisabledRegistersSplitNothing(Registers(false), PDE_COUNT);
    FetchedThroughHook(v.views.normal);
  }

  lemma FetchedThroughHook(s: Ept)
    requires Idle(s) && s.hooks == [] && s.used == 0
    ensures var t := AddHookState(s, 0, 16);
            && Valid(t) && CanAddHook(s, 0) && FirstHook(t.hooks, 0) == Some(0) && t.hooks[0].pte.Some?
            && var u := SwapHook(t, 0, true);
            && Valid(u)
            && Translate(RefreshMemoryTypes(u, Registers(true), PD_COUNT), 0).memoryType == M.WB
            && M.PageType(Registers(true), 0) == M.UC
  {
    var m, t := Registers(true), AddHookState(s, 0, 16);
    AddHookKeepsIdle(s, 0, 16);
    AddHookEffect(s, 0, 16);
    assert FirstHook(t.hooks, 0) == Some(0);
    SwapHookWrites(t, 0, true);
    assert HookSlotOk(t.pdes, t.hooks[0]);
    RefreshKeepsMeaning(SwapHook(t, 0, true), m, 0);
    assert M.PageType(m, 16) == M.SingleType(m, 0x10000) == M.WB;
  }

  // ----- Hooking while tracing -----

  /** The commands of a tracing without its enable and disable. */
  predicate WithinTracing(commands: seq<Command>) {
    forall c | c in commands :: (c.Guest? && EventOk(c.event)) || c.Hook?
  }

  /** The hooks of the second list are those of the first, followed by active ones. */
  predicate HooksGrow(hooks: seq<Hook>, later: seq<Hook>) {
    hooks <= later && forall i | |hooks| <= i < |later| :: later[i].pte.Some?
  }

  lemma StepGrowsHooks(v: Vcpu, c: Command)
    requires ValidViews(v.views) && CommandOk(c) && (c.Guest? || c.Hook?) && Execute(v, c).Some?
    ensures HooksGrow(v.views.normal.hooks, Execute(v, c).value.views.normal.hooks)
  {
    match c {
      case Hook(origPfn, hookPfn) => AddHookEffect(v.views.normal, origPfn, hookPfn);
      case Guest(event) =>
        if event.WriteMtrr? {
          RefreshMemoryTypesEffect(v.views.normal, event.mtrr, PD_COUNT);
        }
    }
  }

  /** While tracing goes on the mode stays and the hooks grow. */
  lemma {:induction false} TracingGrowsHooks(l: Life, commands: seq<Command>)
    requires GoodLife(l) && l.mode.Tracing? && WithinTracing(commands)
    ensures Live(l, commands).Some? && GoodLife(Live(l, commands).value) && Live(l, commands).value.mode == l.mode
    ensures HooksGrow(l.vcpu.views.normal.hooks, Live(l, commands).value.vcpu.views.normal.hooks)
  {
    if commands != [] {
      var n := |commands| - 1;
      TracingGrowsHooks(l, commands[..n]);
      var k, c := Live(l, commands[..n]).value, commands[n];
      assert c in commands;
      CommandKeepsInvariant(k.vcpu, k.mode, c);
      StepGrowsHooks(k.vcpu, c);
    }
  }

  /** A vCPU that has just started to trace. */
  function Enabled(v: Vcpu, gpas: seq<nat>): Life
    requires ValidViews(v.views)
  {
    Life(EnableHypercall(v, gpas), EnabledMode(v, Outside({}), gpas))
  }

  /**
   Enable, any guest events and hooks, disable: the vCPU is idle afterwards if and only if every page hooked
   while tracing had been hooked before.
   */
  lemma HooksSurviveTracing(v: Vcpu, gpas: seq<nat>, commands: seq<Command>)
    requires IdleVcpu(v) && ViewsAgree(v.views) && EnableOutcome(v, gpas).ok && WithinTracing(commands)
    ensures Live(Enabled(v, gpas), commands).Some?
    ensures var w := Live(Enabled(v, gpas), commands).value.vcpu;
            var before, after := v.views.normal.hooks, w.views.normal.hooks;
            && ValidViews(w.views) && |before| <= |after|
            && (IdleVcpu(DisableHypercall(w)) <==>
                  forall i | |before| <= i < |after| :: FirstHook(before, after[i].orig).Some?)
  {
    IdleIsOutside(v);
    IdleIsLoose(v.views.normal);
    IdleIsLoose(v.views.target);
    EnableFromLoose(v, gpas);
    EnableKeepsMode(v, Outside({}), gpas);
    var e := Enabled(v, gpas);
    TracingGrowsHooks(e, commands);
    var w := Live(e, commands).value.vcpu;
    NewHooksOnly(v.views.normal.hooks, e.vcpu.views.normal.hooks, w.views.normal.hooks);
    IdleAfterDisable(w, e.mode);
  }

  /** A disable in any mode leaves the vCPU idle exactly if no hooked page has all its hooks active. */
  lemma IdleAfterDisable(v: Vcpu, mode: Mode)
    requires InMode(v, mode)
    ensures IdleVcpu(DisableHypercall(v)) <==> NewlyHooked(v.views.normal.hooks) == {}
  {
    DisableKeepsMode(v, mode);
    DisabledView(v.views.normal, mode, NormalView);
    var d := DisableHypercall(v);
    if NewlyHooked(v.views.normal.hooks) == {} {
      IdleIsOutside(d);
    } else {
      var page :| page in NewlyHooked(v.views.normal.hooks);
      NewlyHookedIsPage(v.views.normal, page);
      assert !PageIdle(d.views.normal, page);
    }
  }

  lemma NewlyHookedIsPage(s: Ept, page: nat)
    requires Valid(s) && page in NewlyHooked(s.hooks)
    ensures page < PAGE_COUNT
  {
    var i :| 0 <= i < |s.hooks| && s.hooks[i].orig == page;
    assert HookSlotOk(s.pdes, s.hooks[i]);
  }

  /** After a tracing that began with inactive hooks, the newly hooked pages are those not hooked before. */
  lemma NewHooksOnly(before: seq<Hook>, enabled: seq<Hook>, after: seq<Hook>)
    requires SameHookFrames(before, enabled) && AllInactive(enabled) && HooksGrow(enabled, after)
    ensures NewlyHooked(after) == {} <==> forall i | |before| <= i < |after| :: FirstHook(before, after[i].orig).Some?
  {
    forall i | 0 <= i < |after|
      ensures after[i].orig in NewlyHooked(after) <==> FirstHook(before, after[i].orig).None?
    {
      var page := after[i].orig;
      NewlyHookedPages(after, page);
      HookedByExists(after, |after|, page, true);
      HookedByExists(after, |after|, page, false);
      FirstHookSameFrames(before, enabled, page);
      var first := FirstHook(enabled, page);
      if first.Some? {
        assert after[first.value] == enabled[first.value];
      }
    }
    if page :| page in NewlyHooked(after) {
      NewlyHookedPages(after, page);
      HookedByExists(after, |after|, page, true);
      var i :| 0 <= i < |after| && after[i].orig == page && after[i].pte.Some?;
      assert i >= |before|;
    }
    if i :| |before| <= i < |after| && FirstHook(before, after[i].orig).None? {
      assert after[i].orig in NewlyHooked(after);
    }
  }

  /** Such a case: a page hooked for the first time while tracing is open once tracing is disabled. */
  lemma HookAddedWhileTracingIsLost(v: Vcpu, mode: Mode, origPfn: nat, hookPfn: nat)
    requires mode.Tracing? && InMode(v, mode) && CanAddHook(v.views.normal, origPfn)
    requires FirstHook(v.views.normal.hooks, PageOfPfn(origPfn)).None?
    ensures var d, page := DisableHypercall(HookHypercall(v, origPfn, hookPfn)), PageOfPfn(origPfn);
            && page < PAGE_COUNT
            && Translate(d.views.normal, page).perm == RWX && Translate(d.views.target, page).perm == RWX
            && FirstHook(d.views.normal.hooks, page).Some?
  {
    var w, page := HookHypercall(v, origPfn, hookPfn), PageOfPfn(origPfn);
    HookKeepsMode(v, mode, origPfn, hookPfn);
    DisableKeepsMode(w, mode);
    AddHookEffect(v.views.normal, origPfn, hookPfn);
    var h := w.views.normal.hooks[|v.views.normal.hooks|];
    FirstHookKind(v.views.normal.hooks, page);
    HookedAppend(v.views.normal.hooks, h, page, true);
    HookedAppend(v.views.normal.hooks, h, page, false);
    NewlyHookedPages(w.views.normal.hooks, page);
    DisabledView(w.views.normal, mode, NormalView);
    DisabledView(w.views.target, mode, TargetView);
    FirstHookKind(w.views.normal.hooks, page);
    FirstHookSameFrames(w.views.normal.hooks, DisableHypercall(w).views.normal.hooks, page);
  }
}
