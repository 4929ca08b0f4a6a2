/**
 The two views of a vCPU split the same entries and hold the same hooks, whatever happens to them: every
 operation is applied to both, and whether it succeeds depends on nothing in which they differ.
 */
module ViewsInStep {
  import opened EptModel
  import opened AutoTraceModel
  import opened MemoryTypeModel
  import opened VcpuModel
  import M = Mtrr

  /** Where one view has a table the other has the same one. */
  predicate SameTables(s: seq<Pde>, t: seq<Pde>) {
    |s| == |t| && forall d | 0 <= d < |s| :: s[d].Table? || t[d].Table? ==> s[d] == t[d]
  }

  predicate InStep(s: Ept, t: Ept) {
    SameTables(s.pdes, t.pdes) && s.used == t.used && s.hooks == t.hooks
  }

  predicate ViewsAgree(v: Views) {
    InStep(v.normal, v.target)
  }

  lemma SplitInStep(s: Ept, t: Ept, d: nat)
    requires Sized(s) && Sized(t) && InStep(s, t) && d < PDE_COUNT
    ensures CanSplit(s, d) == CanSplit(t, d)
    ensures CanSplit(s, d) ==> InStep(Split(s, d), Split(t, d))
  {
  }

  lemma GetPteInStep(s: Ept, t: Ept, page: nat, forceSplit: bool)
    requires Sized(s) && Sized(t) && InStep(s, t)
    ensures CanGetPte(s, page, forceSplit) == CanGetPte(t, page, forceSplit)
    ensures InStep(GetPteState(s, page, forceSplit), GetPteState(t, page, forceSplit))
  {
    if page < PAGE_COUNT {
      SplitInStep(s, t, page / 512);
    }
  }

  lemma WithPermInStep(s: Ept, t: Ept, p: Perm, q: Perm)
    requires InStep(s, t)
    ensures InStep(WithPerm(s, p), WithPerm(t, q))
  {
  }

  /** A hook is accepted by both views or by neither. */
  lemma AddHookInStep(s: Ept, t: Ept, origPfn: nat, hookPfn: nat)
    requires Valid(s) && Valid(t) && InStep(s, t)
    ensures CanAddHook(s, origPfn) == CanAddHook(t, origPfn)
    ensures InStep(AddHookState(s, origPfn, hookPfn), AddHookState(t, origPfn, hookPfn))
  {
    GetPteInStep(s, t, PageOfPfn(origPfn), true);
    GetPteEffect(s, PageOfPfn(origPfn), true);
    GetPteEffect(t, PageOfPfn(origPfn), true);
  }

  lemma HookInStep(v: Vcpu, origPfn: nat, hookPfn: nat)
    requires ValidViews(v.views) && ViewsAgree(v.views)
    ensures ViewsAgree(HookHypercall(v, origPfn, hookPfn).views)
  {
    AddHookInStep(v.views.normal, v.views.target, origPfn, hookPfn);
    AddHookEffect(v.views.normal, origPfn, hookPfn);
    if !CanAddHook(v.views.normal, origPfn) {
      assert AddHookState(v.views.target, origPfn, hookPfn) == v.views.target;
    }
  }

  lemma {:induction false} DeactivateInStep(s: Ept, t: Ept, n: nat)
    requires Valid(s) && Valid(t) && InStep(s, t) && n <= |s.hooks|
    ensures InStep(DeactivateHooks(s, n), DeactivateHooks(t, n))
  {
    if n > 0 {
      DeactivateInStep(s, t, n - 1);
    }
  }

  lemma ReactivateHookInStep(s: Ept, t: Ept, i: nat)
    requires Valid(s) && Valid(t) && InStep(s, t) && i < |s.hooks|
    ensures InStep(ReactivateHook(s, i), ReactivateHook(t, i))
    ensures |ReactivateHook(s, i).hooks| == |s.hooks|
  {
    assert HookSlotOk(s.pdes, s.hooks[i]);
    assert ReactivateHook(s, i).hooks == ReactivateHook(t, i).hooks;
  }

  /** The first `n` hooks of both views were handled alike. */
  predicate ReactivatedAlike(s: Ept, t: Ept, n: nat)
    requires Valid(s) && Valid(t) && n <= |s.hooks| && n <= |t.hooks|
  {
    InStep(ReactivateHooks(s, n), ReactivateHooks(t, n))
  }

  lemma ReactivateInStepNext(s: Ept, t: Ept, n: nat)
    requires Valid(s) && Valid(t) && n < |s.hooks| && n < |t.hooks| && ReactivatedAlike(s, t, n)
    ensures ReactivatedAlike(s, t, n + 1)
  {
    ReactivateHookInStep(ReactivateHooks(s, n), ReactivateHooks(t, n), n);
  }

  lemma ReactivatedAlikeStart(s: Ept, t: Ept)
    requires Valid(s) && Valid(t) && InStep(s, t)
    ensures ReactivatedAlike(s, t, 0)
  {
  }

  lemma ReactivatedAlikeAlways(s: Ept, t: Ept)
    requires Valid(s) && Valid(t) && InStep(s, t)
    ensures forall n: nat | n <= |s.hooks| :: ReactivatedAlike(s, t, n)
  {
    ReactivatedAlikeStart(s, t);
    for n := 0 to |s.hooks|
      invariant forall m: nat | m <= n :: ReactivatedAlike(s, t, m)
    {
      ReactivateInStepNext(s, t, n);
    }
  }

  lemma ReactivateInStep(s: Ept, t: Ept)
    requires Valid(s) && Valid(t) && InStep(s, t)
    ensures InStep(ReactivateHooks(s, |s.hooks|), ReactivateHooks(t, |t.hooks|))
  {
    ReactivatedAlikeAlways(s, t);
    assert ReactivatedAlike(s, t, |s.hooks|);
  }

  lemma EnablePageInStep(v: Views, gpa: nat)
    requires ValidViews(v) && ViewsAgree(v)
    ensures ViewsAgree(EnablePage(v, gpa).views)
  {
    if gpa != 0 {
      GetPteInStep(v.normal, v.target, PageOf(gpa), true);
      WithPermInStep(GetPteState(v.normal, PageOf(gpa), true), GetPteState(v.target, PageOf(gpa), true), RWX, RWX);
      GetPteEffect(v.normal, PageOf(gpa), true);
      GetPteEffect(v.target, PageOf(gpa), true);
    }
  }

  lemma {:induction false} EnablePagesInStep(v: Views, gpas: seq<nat>)
    requires ValidViews(v) && ViewsAgree(v)
    ensures ViewsAgree(EnablePages(v, gpas).views)
  {
    if gpas != [] {
      EnablePagesInStep(v, gpas[..|gpas| - 1]);
      EnablePageInStep(EnablePages(v, gpas[..|gpas| - 1]).views, gpas[|gpas| - 1]);
    }
  }

  lemma EnableInStep(v: Vcpu, gpas: seq<nat>)
    requires ValidViews(v.views) && ViewsAgree(v.views)
    ensures ViewsAgree(EnableHypercall(v, gpas).views)
  {
    var bare := DeactivateBoth(v.views);
    DeactivateInStep(v.views.normal, v.views.target, |v.views.normal.hooks|);
    WithPermEffect(bare.target, RW);
    var start := bare.(target := WithPerm(bare.target, RW));
    EnablePagesInStep(start, gpas);
    var o := EnableOutcome(v, gpas);
    ReactivateInStep(o.views.normal, o.views.target);
  }

  lemma DisableInStep(v: Vcpu)
    requires ValidViews(v.views) && ViewsAgree(v.views)
    ensures ViewsAgree(DisableHypercall(v).views)
  {
    WithPermEffect(v.views.normal, RWX);
    WithPermEffect(v.views.target, RWX);
    var s, t := WithPerm(v.views.normal, RWX), WithPerm(v.views.target, RWX);
    WithPermInStep(v.views.normal, v.views.target, RWX, RWX);
    ReactivateInStep(s, t);
  }

  lemma RefreshPdeInStep(s: Ept, t: Ept, m: M.MtrrState, d: nat)
    requires Valid(s) && Valid(t) && InStep(s, t) && m.Valid() && d < PDE_COUNT
    ensures InStep(RefreshPde(s, m, d), RefreshPde(t, m, d))
  {
    SplitInStep(s, t, d);
  }

  lemma {:induction false} RefreshPdesInStep(s: Ept, t: Ept, m: M.MtrrState, first: nat, n: nat)
    requires Valid(s) && Valid(t) && InStep(s, t) && m.Valid() && first + n <= PDE_COUNT
    ensures InStep(RefreshPdes(s, m, first, n), RefreshPdes(t, m, first, n))
  {
    if n > 0 {
      RefreshPdesInStep(s, t, m, first, n - 1);
      RefreshPdeInStep(RefreshPdes(s, m, first, n - 1), RefreshPdes(t, m, first, n - 1), m, first + n - 1);
    }
  }

  lemma {:induction false} RefreshInStep(s: Ept, t: Ept, m: M.MtrrState, n: nat)
    requires Valid(s) && Valid(t) && InStep(s, t) && m.Valid() && n <= PD_COUNT
    ensures InStep(RefreshMemoryTypes(s, m, n), RefreshMemoryTypes(t, m, n))
  {
    if n > 0 {
      RefreshInStep(s, t, m, n - 1);
      RefreshPdesInStep(RefreshMemoryTypes(s, m, n - 1), RefreshMemoryTypes(t, m, n - 1), m, (n - 1) * 512, 512);
    }
  }

  lemma ViolationInStep(v: Vcpu, page: nat, execute: bool, rip: nat)
    requires ValidViews(v.views) && ViewsAgree(v.views) && Violation(v, page, execute, rip).Resumed?
    ensures ViewsAgree(Violation(v, page, execute, rip).vcpu.views)
  {
  }
}
