/**
 The state of one vCPU and the exit handlers that change it in place: EPT violations, the hook and
 auto-trace hypercalls and MTRR writes. Each is tied to the function of the vCPU value it computes.
 */
module VirtualCpus {
  import opened Common
  import opened EptModel
  import opened AutoTraceModel
  import opened VcpuModel
  import opened EptPages
  import opened TraceRings
  import L = VcpuLife
  import M = Mtrr
  import P = PageTables

  const WORD: nat := 0x1_0000_0000_0000_0000

  // ----- The target range -----

  function AlignedStart(va: nat): nat {
    va / PAGE_SIZE * PAGE_SIZE
  }

  function AlignedSize(va: nat, size: nat): nat {
    ((va + size + 0xFFF) % WORD / PAGE_SIZE * PAGE_SIZE - AlignedStart(va)) % WORD
  }

  function PageAddress(va: nat, k: nat): nat {
    (AlignedStart(va) + k * PAGE_SIZE) % WORD
  }

  /** What each page of the target range is translated to, in order; zero where it is not. */
  function TargetGpas(t: P.Tables, root: nat, va: nat, n: nat): (gpas: seq<nat>)
    ensures |gpas| == n
  {
    seq<nat>(n, k requires 0 <= k < n => P.GvaToGpa(t, root, PageAddress(va, k)))
  }

  function RangeGpas(t: P.Tables, root: nat, va: nat, size: nat): seq<nat> {
    TargetGpas(t, root, va, AlignedSize(va, size) / PAGE_SIZE)
  }

  /** An address of the range is translated, its page start not to zero, and lies in the guest page. */
  predicate LiesIn(t: P.Tables, root: nat, a: nat, page: nat) {
    P.GvaToGpa(t, root, AlignedStart(a)) != 0 && PageOf(P.GvaToGpa(t, root, a)) == page
  }

  lemma SameGuestPage(t: P.Tables, root: nat, a: nat)
    requires P.GvaToGpa(t, root, AlignedStart(a)) != 0
    ensures PageOf(P.GvaToGpa(t, root, a)) == PageOf(P.GvaToGpa(t, root, AlignedStart(a)))
  {
    var start, k := AlignedStart(a), a % PAGE_SIZE;
    var gpa := P.GvaToGpa(t, root, start);
    var leaf := P.Walk(t, root, 4, start).value;
    StartOfPage(leaf, a / PAGE_SIZE);
    P.TranslationContiguous(t, root, start, k);
    assert P.GvaToGpa(t, root, a) == gpa + k;
    PageOfOffset(gpa / PAGE_SIZE, k);
  }

  /** A page start is translated to a frame start, and the whole page is in the same leaf. */
  lemma StartOfPage(leaf: P.Leaf, page: nat)
    requires leaf.level <= 3
    ensures P.Target(leaf, page * PAGE_SIZE) % PAGE_SIZE == 0
    ensures PAGE_SIZE <= P.Size(leaf.level) - page * PAGE_SIZE % P.Size(leaf.level)
  {
    match leaf.level {
      case 1 =>
      case 2 =>
        DivisionUnique(page * PAGE_SIZE, page / 512, page % 512 * PAGE_SIZE, P.SIZE_2M);
        DivisionUnique(P.Target(leaf, page * PAGE_SIZE), leaf.entry.pfn / 512 * 512 + page % 512, 0, PAGE_SIZE);
      case _ =>
        DivisionUnique(page * PAGE_SIZE, page / 0x4_0000, page % 0x4_0000 * PAGE_SIZE, P.SIZE_1G);
        var frame := leaf.entry.pfn / 0x4_0000 * 0x4_0000 + page % 0x4_0000;
        DivisionUnique(P.Target(leaf, page * PAGE_SIZE), frame, 0, PAGE_SIZE);
    }
  }

  lemma PageOfOffset(frame: nat, k: nat)
    requires k < PAGE_SIZE
    ensures PageOf(frame * PAGE_SIZE + k) == PageOf(frame * PAGE_SIZE)
  {
    var r := frame % 0x10_0000_0000;
    assert frame == frame / 0x10_0000_0000 * 0x10_0000_0000 + r;
    assert (frame * PAGE_SIZE + k) % 0x1_0000_0000_0000 == r * PAGE_SIZE + k;
    PageOfShiftedPfn(frame);
  }

  lemma PagesOfRange(va: nat, size: nat)
    requires size > 0 && va + size + 0xFFF < WORD
    ensures AlignedSize(va, size) / PAGE_SIZE == (va + size - 1) / PAGE_SIZE - va / PAGE_SIZE + 1
  {
    var last := (va + size - 1) / PAGE_SIZE;
    assert (va + size + 0xFFF) / PAGE_SIZE == last + 1;
    assert AlignedSize(va, size) == (last + 1 - va / PAGE_SIZE) * PAGE_SIZE;
  }

  /** Each page of the range holds one of its addresses, and each address is in one of the pages. */
  lemma AddressInPage(va: nat, size: nat, k: nat) returns (a: nat)
    requires size > 0 && va + size + 0xFFF < WORD && k < AlignedSize(va, size) / PAGE_SIZE
    ensures va <= a < va + size && AlignedStart(a) == PageAddress(va, k)
  {
    PagesOfRange(va, size);
    a := if k == 0 then va else AlignedStart(va) + k * PAGE_SIZE;
  }

  lemma PageOfAddress(va: nat, size: nat, a: nat) returns (k: nat)
    requires va <= a < va + size && va + size + 0xFFF < WORD
    ensures k < AlignedSize(va, size) / PAGE_SIZE && AlignedStart(a) == PageAddress(va, k)
  {
    PagesOfRange(va, size);
    k := a / PAGE_SIZE - va / PAGE_SIZE;
  }

  /**
   For every start and size, also where the range wraps around 2^64: the pages enabled run from the page of the
   start, in order, up to but without the page that holds the end rounded up.
   */
  lemma RangePages(t: P.Tables, root: nat, va: nat, size: nat)
    requires va < 0x1_0000_0000_0000_0000
    ensures var gpas := RangeGpas(t, root, va, size);
            && (va / 0x1000 + |gpas|) % 0x10_0000_0000_0000 == (va + size + 0xFFF) / 0x1000 % 0x10_0000_0000_0000
            && |gpas| < 0x10_0000_0000_0000
            && forall k | 0 <= k < |gpas| ::
                 gpas[k] == P.GvaToGpa(t, root, (va / 0x1000 + k) % 0x10_0000_0000_0000 * 0x1000)
  {
    var gpas := RangeGpas(t, root, va, size);
    PageCount(va, size);
    forall k | 0 <= k < |gpas|
      ensures gpas[k] == P.GvaToGpa(t, root, (va / 0x1000 + k) % 0x10_0000_0000_0000 * 0x1000)
    {
      PageAddressLiteral(va, k);
    }
  }

  lemma PageAddressLiteral(va: nat, k: nat)
    ensures PageAddress(va, k) == (va / 0x1000 + k) % 0x10_0000_0000_0000 * 0x1000
  {
    PageMultiple(va / 0x1000 + k);
  }

  lemma PageCount(va: nat, size: nat)
    requires va < 0x1_0000_0000_0000_0000
    ensures var n := AlignedSize(va, size) / 0x1000;
            && n < 0x10_0000_0000_0000
            && (va / 0x1000 + n) % 0x10_0000_0000_0000 == (va + size + 0xFFF) / 0x1000 % 0x10_0000_0000_0000
  {
    var pages := AlignedMultiple(va, size);
    LowPages(va + size + 0xFFF);
    StepsAround(va / 0x1000, (va + size + 0xFFF) / 0x1000 % 0x10_0000_0000_0000, 0x10_0000_0000_0000);
  }

  lemma StepsAround(start: nat, end: nat, m: nat)
    requires start < m && end < m
    ensures var n := (end - start) % m; n < m && (start + n) % m == end
  {
    if end < start {
      DivisionUnique(start + (end - start + m), 1, end, m);
      assert (end - start) % m == end - start + m;
    }
  }

  lemma LowPages(a: nat)
    ensures a % WORD / 0x1000 == a / 0x1000 % 0x10_0000_0000_0000
  {
    var q, r := a / WORD, a % WORD;
    assert a == (q * 0x10_0000_0000_0000 + r / 0x1000) * 0x1000 + r % 0x1000;
    DivisionUnique(a, q * 0x10_0000_0000_0000 + r / 0x1000, r % 0x1000, 0x1000);
    DivisionUnique(a / 0x1000, q, r / 0x1000, 0x10_0000_0000_0000);
  }

  lemma PageMultiple(page: nat)
    ensures page * 0x1000 % WORD == page % 0x10_0000_0000_0000 * 0x1000
  {
    var q, r := page / 0x10_0000_0000_0000, page % 0x10_0000_0000_0000;
    assert page * 0x1000 == q * WORD + r * 0x1000;
    DivisionUnique(page * 0x1000, q, r * 0x1000, WORD);
  }

  /** The pages a range occupies are exactly those its addresses lie in, for ranges that do not wrap. */
  lemma RangeBacks(t: P.Tables, root: nat, va: nat, size: nat, page: nat)
    requires size > 0 && va + size + 0xFFF < WORD
    ensures Backs(RangeGpas(t, root, va, size), page) <==>
              exists a: nat :: va <= a < va + size && LiesIn(t, root, a, page)
  {
    var gpas := RangeGpas(t, root, va, size);
    BacksExists(gpas, page);
    if Backs(gpas, page) {
      var k :| 0 <= k < |gpas| && gpas[k] != 0 && PageOf(gpas[k]) == page;
      var a := AddressInPage(va, size, k);
      SameGuestPage(t, root, a);
      assert LiesIn(t, root, a, page);
    }
    if a: nat :| va <= a < va + size && LiesIn(t, root, a, page) {
      var k := PageOfAddress(va, size, a);
      SameGuestPage(t, root, a);
      assert gpas[k] != 0 && PageOf(gpas[k]) == page;
    }
  }

  /**
   The two-view complement in terms of the range itself: after a successful enable a page below 512 GB is
   executable in the target view iff an address of the range lies in it, and in the normal view iff none does.
   */
  lemma ComplementOfRange(v: Views, t: P.Tables, root: nat, va: nat, size: nat, page: nat)
    requires ValidViews(v) && FullAccess(v.normal) && size > 0 && va + size + 0xFFF < WORD && page < PAGE_COUNT
    requires EnableAutoTrace(v, RangeGpas(t, root, va, size)).ok
    ensures var w := EnableAutoTrace(v, RangeGpas(t, root, va, size)).views;
            && (Translate(w.target, page).perm.execute <==>
                 exists a: nat :: va <= a < va + size && LiesIn(t, root, a, page))
            && (Translate(w.normal, page).perm.execute <==>
                 forall a: nat | va <= a < va + size :: !LiesIn(t, root, a, page))
  {
    var gpas := RangeGpas(t, root, va, size);
    RangeBacks(t, root, va, size, page);
    TwoViewComplement(v, gpas);
    var w := EnableAutoTrace(v, gpas).views;
    assert Translate(w.target, page).perm == Perm(true, true, Backs(gpas, page) == true);
    assert Translate(w.normal, page).perm == Perm(true, true, Backs(gpas, page) == false);
  }

  // ----- The vCPU -----

  /** A place is free, the page is below 512 GB, and its 2 MB entry is split or a table is free. */
  predicate TakesHook(s: Ept, page: nat)
    requires |s.pdes| == PDE_COUNT
  {
    |s.hooks| < 32 && page < 0x800_0000 && (s.pdes[page / 512].Table? || s.used < 256)
  }

  class VirtualCpu {
    const normal: Pages
    const target: Pages
    const ring: TraceRing
    var inNormal: bool
    var eptp: View
    ghost var emitted: seq<nat>

    function Parts(): set<object> {
      {normal, normal.pde, normal.split, normal.hooks, target, target.pde, target.split, target.hooks}
    }

    function RingParts(): set<object> {
      {ring, ring.entries}
    }

    /** The two views and the ring share nothing and are well formed. */
    predicate ValidVcpu()
      reads this, Parts(), RingParts()
    {
      && Parts() !! RingParts() && ring.Valid()
      && normal != target && normal.pde != target.pde && normal.split != target.split && normal.hooks != target.hooks
      && normal.ValidPages() && target.ValidPages()
    }

    function CurrentViews(): (v: Views)
      reads this, Parts(), RingParts()
      requires ValidVcpu()
      ensures ValidViews(v)
    {
      Views(normal.State(), target.State())
    }

    ghost function Value(): (v: Vcpu)
      reads this, Parts(), RingParts()
      requires ValidVcpu()
      ensures ValidViews(v.views)
    {
      Vcpu(CurrentViews(), inNormal, eptp, ring.active, emitted)
    }

    constructor (m: M.MtrrState, blank: Entry)
      requires m.Valid()
      ensures ValidVcpu() && fresh(Parts()) && fresh(RingParts())
      ensures Value() == L.Fresh(m) && ring.Pending() == []
    {
      var first := new Pages(m);
      var second := new Pages(m);
      var buffer := new TraceRing(blank);
      normal, target, ring := first, second, buffer;
      inNormal, eptp, emitted := true, NormalView, [];
    }

    // ----- Tracing a range -----

    /** Both lookups are made before either result is checked. */
    method EnablePageOf(gpa: nat) returns (ok: bool)
      requires ValidVcpu()
      modifies Parts()
      ensures ValidVcpu()
      ensures Outcome(ok, CurrentViews()) == EnablePage(old(CurrentViews()), gpa)
    {
      ghost var before := CurrentViews();
      EnablePageEffect(before, gpa, 0);
      if gpa == 0 {
        return true;
      }
      var pteNormal := normal.GetEptPte(gpa, true);
      var pteTarget := target.GetEptPte(gpa, true);
      if pteNormal.None? || pteTarget.None? {
        RestoreAutoTrace();
        return false;
      }
      MovePage(pteNormal.value, pteTarget.value, PageOf(gpa));
      return true;
    }

    /** Takes execution of a page from the normal view and gives it to the target view. */
    method MovePage(pteNormal: nat, pteTarget: nat, ghost page: nat)
      requires ValidVcpu() && page < PAGE_COUNT && IsSplit(normal.State(), page) && IsSplit(target.State(), page)
      requires pteNormal == Slot(normal.State(), page) && pteTarget == Slot(target.State(), page)
      modifies Parts()
      ensures ValidVcpu()
      ensures CurrentViews() ==
              Views(SetExecute(old(normal.State()), page, false), SetExecute(old(target.State()), page, true))
    {
      normal.SetExecuteAt(pteNormal, page, false);
      target.SetExecuteAt(pteTarget, page, true);
    }

    method EnableNextPage(ghost start: Views, t: P.Tables, root: nat, ghost va: nat, ghost n: nat, currentVa: nat)
      returns (ok: bool)
      requires ValidVcpu() && ValidViews(start) && currentVa == PageAddress(va, n)
      requires EnabledSoFar(start, t, root, va, n, Outcome(true, CurrentViews()))
      modifies Parts()
      ensures ValidVcpu()
      ensures EnabledSoFar(start, t, root, va, n + 1, Outcome(ok, CurrentViews()))
    {
      ghost var now := CurrentViews();
      var gpa, _ := P.TranslateGva(t, root, currentVa);
      ok := EnablePageOf(gpa);
      EnabledStep(start, t, root, va, n, now, Outcome(ok, CurrentViews()));
    }

    method EnableTracing(t: P.Tables, root: nat, va: nat, size: nat) returns (ok: bool)
      requires ValidVcpu()
      modifies Parts()
      ensures ValidVcpu()
      ensures Outcome(ok, CurrentViews()) == EnableAutoTrace(old(CurrentViews()), RangeGpas(t, root, va, size))
    {
      ghost var before := CurrentViews();
      var alignedVa := va / PAGE_SIZE * PAGE_SIZE;
      var alignedEnd := (va + size + 0xFFF) % WORD / PAGE_SIZE * PAGE_SIZE;
      var alignedSize := (alignedEnd - alignedVa) % WORD;
      target.SetAllPermissions(true, true, false);
      ghost var start := CurrentViews();
      var offset, n := 0, 0;
      ghost var pages := AlignedMultiple(va, size);
      while offset < alignedSize
        invariant offset == n * PAGE_SIZE && n <= pages
        invariant ValidVcpu()
        invariant EnabledSoFar(start, t, root, va, n, Outcome(true, CurrentViews()))
        decreases alignedSize - offset
      {
        ok := EnableNextPage(start, t, root, va, n, (alignedVa + offset) % WORD);
        offset, n := offset + PAGE_SIZE, n + 1;
        if !ok {
          FailureStands(start, t, root, va, n, pages, CurrentViews());
          FinishEnable(before, start, t, root, va, size, Outcome(false, CurrentViews()));
          return false;
        }
      }
      FinishEnable(before, start, t, root, va, size, Outcome(true, CurrentViews()));
      return true;
    }

    method RestoreAutoTrace()
      requires ValidVcpu()
      modifies Parts()
      ensures ValidVcpu()
      ensures CurrentViews() == Views(WithPerm(old(normal.State()), RWX), WithPerm(old(target.State()), RWX))
    {
      normal.SetAllPermissions(true, true, true);
      target.SetAllPermissions(true, true, true);
    }

    method DeactivateHooksOfBoth()
      requires ValidVcpu()
      modifies Parts()
      ensures ValidVcpu() && CurrentViews() == DeactivateBoth(old(CurrentViews()))
    {
      normal.DeactivateAllHooks();
      target.DeactivateAllHooks();
    }

    method ReactivateHooksOfBoth()
      requires ValidVcpu()
      modifies Parts()
      ensures ValidVcpu() && CurrentViews() == ReactivateBoth(old(CurrentViews()))
    {
      normal.ReactivateAllHooks();
      target.ReactivateAllHooks();
    }

    // ----- Exit handlers -----

    /**
     `captured` is the entry as captured at this exit. It goes to the ring where a RIP is emitted, and is dropped
     if the ring is full. A fatal violation ends in the unrecoverable-error path and changes nothing here.
     */
    method HandleEptViolation(gpa: nat, execute: bool, rip: nat, captured: Entry) returns (fatal: bool)
      requires ValidVcpu()
      modifies this, Parts(), RingParts()
      ensures ValidVcpu()
      ensures Violation(old(Value()), gpa / PAGE_SIZE, execute, rip) == if fatal then Fatal else Resumed(Value())
      ensures fatal ==> Value() == old(Value())
      ensures var before, room := old(ring.Pending()), |old(ring.Pending())| < ENTRY_COUNT - 1;
              ring.Pending() == if emitted != old(emitted) && room then before + [captured] else before
    {
      var current := if inNormal then normal else target;
      var index := current.GetHookByOrigPfn(gpa / PAGE_SIZE);
      if index.Some? && current.hooks[index.value].pte.Some? {
        current.SwapHookAt(index.value, execute);
        return false;
      }
      if execute {
        SwitchView(rip, captured);
        return false;
      }
      return true;
    }

    /** Leaving the target view emits an entry. */
    method SwitchView(rip: nat, captured: Entry)
      requires ValidVcpu()
      modifies this`inNormal, this`eptp, this`emitted, RingParts()
      ensures ValidVcpu() && CurrentViews() == old(CurrentViews()) && ring.active == old(ring.active)
      ensures inNormal == !old(inNormal) && eptp == if inNormal then NormalView else TargetView
      ensures emitted == old(emitted) + if inNormal && ring.active then [rip] else []
      ensures var before, room := old(ring.Pending()), |old(ring.Pending())| < ENTRY_COUNT - 1;
              ring.Pending() == if inNormal && ring.active && room then before + [captured] else before
    {
      if inNormal {
        eptp, inNormal := TargetView, false;
      } else {
        eptp, inNormal := NormalView, true;
        ring.Emit(captured);
        emitted := emitted + if ring.active then [rip] else [];
      }
    }

    /** The second view is only tried when the first one took the hook. */
    method HandleEptHook(origPfn: nat, hookPfn: nat) returns (rax: nat)
      requires ValidVcpu()
      modifies Parts()
      ensures ValidVcpu() && Value() == HookHypercall(old(Value()), origPfn, hookPfn)
      ensures rax == 1 <==> TakesHook(old(normal.State()), origPfn % 0x10_0000_0000) &&
                            TakesHook(old(target.State()), origPfn % 0x10_0000_0000)
    {
      var ok := normal.AddHook(origPfn, hookPfn);
      if ok {
        ok := target.AddHook(origPfn, hookPfn);
      }
      rax := if ok then 1 else 0;
    }

    method EnableRange(t: P.Tables, root: nat, va: nat, size: nat) returns (ok: bool)
      requires ValidVcpu()
      modifies Parts()
      ensures ValidVcpu()
      ensures Outcome(ok, CurrentViews()) == EnableOutcome(old(Value()), RangeGpas(t, root, va, size))
      ensures Value() == old(Value()).(views := CurrentViews()) && ring.Pending() == old(ring.Pending())
      ensures ok <==> CanEnable(old(CurrentViews()), RangeGpas(t, root, va, size))
    {
      EnableSucceedsIff(Value(), RangeGpas(t, root, va, size));
      DeactivateHooksOfBoth();
      ok := EnableTracing(t, root, va, size);
    }

    method HandleEnableAutoTrace(t: P.Tables, root: nat, va: nat, size: nat) returns (rax: nat)
      requires ValidVcpu()
      modifies this, Parts(), RingParts()
      ensures ValidVcpu() && Value() == EnableHypercall(old(Value()), RangeGpas(t, root, va, size))
      ensures rax == 1 <==> CanEnable(old(CurrentViews()), RangeGpas(t, root, va, size))
      ensures ring.Pending() == if rax == 1 then [] else old(ring.Pending())
    {
      var ok := EnableRange(t, root, va, size);
      if ok {
        StartTracing();
        return 1;
      }
      RearmHooks();
      return 0;
    }

    /** The hooks are armed again; the active view and the ring stay. */
    method RearmHooks()
      requires ValidVcpu()
      modifies Parts()
      ensures ValidVcpu() && ring.Pending() == old(ring.Pending())
      ensures Value() == old(Value()).(views := ReactivateBoth(old(CurrentViews())))
    {
      ReactivateHooksOfBoth();
    }

    method StartTracing()
      requires ValidVcpu()
      modifies this`inNormal, this`eptp, RingParts()
      ensures ValidVcpu() && ring.Pending() == []
      ensures Value() == old(Value()).(eptp := NormalView, inNormal := true, ringActive := true)
    {
      ring.Activate();
      eptp, inNormal := NormalView, true;
    }

    /** The entries that were not drained yet stay in the ring. */
    method HandleDisableAutoTrace()
      requires ValidVcpu()
      modifies this, Parts(), RingParts()
      ensures ValidVcpu() && Value() == DisableHypercall(old(Value()))
      ensures ring.Pending() == old(ring.Pending())
    {
      DeactivateRing();
      RestoreAutoTrace();
      ReactivateHooksOfBoth();
      eptp, inNormal := NormalView, true;
    }

    method DeactivateRing()
      requires ValidVcpu()
      modifies RingParts()
      ensures ValidVcpu() && CurrentViews() == old(CurrentViews())
      ensures !ring.active && ring.Pending() == old(ring.Pending())
    {
      ring.Deactivate();
    }

    method HandleMtrrWrite(m: M.MtrrState)
      requires ValidVcpu() && m.Valid()
      modifies Parts()
      ensures ValidVcpu() && Value() == MtrrWrite(old(Value()), m)
    {
      normal.UpdateMemoryTypes(m);
      target.UpdateMemoryTypes(m);
    }
  }

  /** The size of the aligned range in pages. */
  lemma AlignedMultiple(va: nat, size: nat) returns (pages: nat)
    ensures pages == ((va + size + 0xFFF) % WORD / PAGE_SIZE - va / PAGE_SIZE) % (WORD / PAGE_SIZE)
    ensures AlignedSize(va, size) == pages * PAGE_SIZE
    ensures pages == AlignedSize(va, size) / PAGE_SIZE
  {
    var end := (va + size + 0xFFF) % WORD / PAGE_SIZE;
    assert AlignedSize(va, size) == (end - va / PAGE_SIZE) * PAGE_SIZE % WORD;
    pages := (end - va / PAGE_SIZE) % (WORD / PAGE_SIZE);
  }

  predicate EnabledSoFar(start: Views, t: P.Tables, root: nat, va: nat, n: nat, o: Outcome)
    requires ValidViews(start)
  {
    EnablePages(start, TargetGpas(t, root, va, n)) == o
  }

  lemma EnabledStep(start: Views, t: P.Tables, root: nat, va: nat, n: nat, now: Views, o: Outcome)
    requires ValidViews(start) && ValidViews(now) && EnabledSoFar(start, t, root, va, n, Outcome(true, now))
    requires o == EnablePage(now, P.GvaToGpa(t, root, PageAddress(va, n)))
    ensures EnabledSoFar(start, t, root, va, n + 1, o)
  {
    assert TargetGpas(t, root, va, n + 1)[..n] == TargetGpas(t, root, va, n);
  }

  lemma FinishEnable(before: Views, start: Views, t: P.Tables, root: nat, va: nat, size: nat, o: Outcome)
    requires ValidViews(before) && ValidViews(start) && start == before.(target := WithPerm(before.target, RW))
    requires EnabledSoFar(start, t, root, va, AlignedSize(va, size) / PAGE_SIZE, o)
    ensures o == EnableAutoTrace(before, RangeGpas(t, root, va, size))
  {
  }

  lemma FailedStep(start: Views, t: P.Tables, root: nat, va: nat, n: nat, v: Views)
    requires ValidViews(start) && EnabledSoFar(start, t, root, va, n, Outcome(false, v))
    ensures EnabledSoFar(start, t, root, va, n + 1, Outcome(false, v))
  {
    assert TargetGpas(t, root, va, n + 1)[..n] == TargetGpas(t, root, va, n);
  }

  /** Once a page has failed the rest of the range changes nothing. */
  lemma FailureStands(start: Views, t: P.Tables, root: nat, va: nat, n: nat, m: nat, v: Views)
    requires ValidViews(start) && n <= m && EnabledSoFar(start, t, root, va, n, Outcome(false, v))
    ensures EnabledSoFar(start, t, root, va, m, Outcome(false, v))
  {
    for k := n to m
      invariant EnabledSoFar(start, t, root, va, k, Outcome(false, v))
    {
      FailedStep(start, t, root, va, k, v);
    }
  }
}
