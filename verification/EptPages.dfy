/**
 The second-level page tables of one view as the code keeps them: arrays that every operation changes in
 place. Each method is tied to the function of the table value that says what it does.
 */
module EptPages {
  import opened Common
  import opened EptModel
  import opened AutoTraceModel
  import opened MemoryTypeModel
  import M = Mtrr

  class Pages {
    const pde: array<Pde>
    const split: array<Leaf>
    const hooks: array<Hook>
    var used: nat
    var hookCount: nat

    predicate Shaped()
      reads this
    {
      && pde.Length == PDE_COUNT && split.Length == PTE_COUNT && hooks.Length == MAX_HOOKS
      && used <= SPLIT_COUNT && hookCount <= MAX_HOOKS
    }

    function State(): Ept
      reads this, pde, split, hooks
      requires Shaped()
    {
      Ept(pde[..], split[..], used, hooks[..hookCount])
    }

    predicate ValidPages()
      reads this, pde, split, hooks
    {
      Shaped() && Valid(State())
    }

    // ----- Permissions -----

    method SetAllPermissions(read: bool, write: bool, execute: bool)
      requires ValidPages()
      modifies pde, split
      ensures ValidPages() && State() == WithPerm(old(State()), Perm(read, write, execute))
    {
      var perm := Perm(read, write, execute);
      ghost var before := State();
      for d := 0 to PDE_COUNT
        invariant forall e | 0 <= e < d :: pde[e] == WithPerm(before, perm).pdes[e]
        invariant forall e | d <= e < PDE_COUNT :: pde[e] == before.pdes[e]
        invariant split[..] == before.ptes
      {
        if pde[d].Large? {
          pde[d] := Large(pde[d].leaf.(perm := perm));
        }
      }
      for i := 0 to PTE_COUNT
        invariant forall j | 0 <= j < i :: split[j] == WithPerm(before, perm).ptes[j]
        invariant forall j | i <= j < PTE_COUNT :: split[j] == before.ptes[j]
        invariant pde[..] == WithPerm(before, perm).pdes
      {
        split[i] := split[i].(perm := perm);
      }
      assert split[..] == WithPerm(before, perm).ptes;
      WithPermEffect(before, perm);
    }

    // ----- Splitting and lookup -----

    method SplitPde(d: nat) returns (table: Option<nat>)
      requires ValidPages() && d < PDE_COUNT
      modifies this`used, pde, split
      ensures ValidPages() && hookCount == old(hookCount)
      ensures table == if CanSplit(old(State()), d) then Some(old(used)) else None
      ensures State() == if table.Some? then Split(old(State()), d) else old(State())
    {
      ghost var before := State();
      if pde[d].Table? {
        return None;
      }
      if used >= SPLIT_COUNT {
        return None;
      }
      var t, base, leaf := used, used * 512, pde[d].leaf;
      used := used + 1;
      for i := 0 to 512
        invariant forall j | 0 <= j < i :: split[base + j] == InheritedPte(leaf, j)
        invariant forall j | 0 <= j < PTE_COUNT && !(base <= j < base + i) :: split[j] == before.ptes[j]
        invariant pde[..] == before.pdes && used == t + 1 && hooks[..hookCount] == before.hooks
      {
        split[base + i] := Leaf(leaf.perm, leaf.memoryType, leaf.flags, leaf.frame * 512 + i);
      }
      pde[d] := Table(RWX, t);
      assert split[..] == Split(before, d).ptes;
      SplitPreserves(before, d);
      return Some(t);
    }

    /** The flat index of the entry that maps an address, if there is one or one can be made. */
    method GetEptPte(gpa: nat, forceSplit: bool) returns (pte: Option<nat>)
      requires ValidPages()
      modifies this`used, pde, split
      ensures ValidPages() && hookCount == old(hookCount)
      ensures State() == GetPteState(old(State()), PageOf(gpa), forceSplit)
      ensures pte.Some? <==> CanGetPte(old(State()), PageOf(gpa), forceSplit)
      ensures PageOf(gpa) >= 0x800_0000 ==> pte.None?
      ensures PageOf(gpa) < 0x800_0000 ==>
                (pte.None? <==> old(pde[PageOf(gpa) / 512]).Large? && (!forceSplit || old(used) == 256))
      ensures pte.Some? ==> IsSplit(State(), PageOf(gpa)) && pte.value == Slot(State(), PageOf(gpa))
    {
      var ptIndex, pdIndex := gpa / PAGE_SIZE % 512, gpa / LARGE_SIZE % 512;
      var pdptIndex, pml4Index := gpa / 0x4000_0000 % 512, gpa / 0x80_0000_0000 % 512;
      PageOfIndices(gpa);
      if pml4Index != 0 {
        return None;
      }
      if pdptIndex >= PD_COUNT {
        return None;
      }
      var d := pdptIndex * 512 + pdIndex;
      ghost var before := State();
      GetPteEffect(before, PageOf(gpa), forceSplit);
      if pde[d].Large? {
        if !forceSplit {
          return None;
        }
        var table := SplitPde(d);
        if table.None? {
          return None;
        }
      }
      return Some(pde[d].index * 512 + ptIndex);
    }

    method SetExecuteAt(pte: nat, ghost page: nat, execute: bool)
      requires ValidPages() && page < PAGE_COUNT && IsSplit(State(), page) && pte == Slot(State(), page)
      modifies split
      ensures ValidPages() && State() == SetExecute(old(State()), page, execute)
    {
      ghost var before := State();
      split[pte] := split[pte].(perm := split[pte].perm.(execute := execute));
      SetPteEffect(before, page, split[pte]);
    }

    // ----- Hooks -----

    method AddHook(origPfn: nat, hookPfn: nat) returns (ok: bool)
      requires ValidPages()
      modifies this, pde, split, hooks
      ensures ValidPages()
      ensures ok <==> CanAddHook(old(State()), origPfn)
      ensures ok <==> old(hookCount) < 32 && PageOfPfn(origPfn) < 0x800_0000 &&
                      (old(pde[PageOfPfn(origPfn) / 512]).Table? || old(used) < 256)
      ensures State() == AddHookState(old(State()), origPfn, hookPfn)
    {
      if hookCount >= MAX_HOOKS {
        return false;
      }
      ghost var page := PageOfPfn(origPfn);
      PageOfShiftedPfn(origPfn);
      var pte := GetEptPte(origPfn * PAGE_SIZE, true);
      if pte.None? {
        return false;
      }
      ghost var t := State();
      var hook := Hook(origPfn % PFN32, hookPfn % PFN32, pte);
      hooks[hookCount] := hook;
      hookCount := hookCount + 1;
      var leaf := split[pte.value].(perm := split[pte.value].perm.(execute := false));
      split[pte.value] := leaf;
      ghost var u := SetPte(t, pte.value, leaf);
      TruncatedPfn(origPfn);
      SetPteEffect(t, page, leaf);
      AppendHook(u, hook);
      assert hooks[..hookCount] == t.hooks + [hook];
      return true;
    }

    method GetHookByOrigPfn(origPfn: nat) returns (index: Option<nat>)
      requires Shaped()
      ensures index == FirstHook(hooks[..hookCount], origPfn)
    {
      for i := 0 to hookCount
        invariant forall j | 0 <= j < i :: hooks[j].orig != origPfn
      {
        if hooks[i].orig == origPfn {
          return Some(i);
        }
      }
      return None;
    }

    method DeactivateAllHooks()
      requires ValidPages()
      modifies split, hooks
      ensures ValidPages() && State() == DeactivateHooks(old(State()), |old(State()).hooks|)
    {
      ghost var before := State();
      for i := 0 to hookCount
        invariant State() == DeactivateHooks(before, i)
      {
        var hook := hooks[i];
        ghost var s := State();
        assert s.hooks[i] == hook;
        if hook.pte.None? {
          continue;
        }
        assert HookSlotOk(s.pdes, s.hooks[i]);
        split[hook.pte.value] := split[hook.pte.value].(perm := RWX, frame := hook.orig);
        hooks[i] := hook.(pte := None);
        assert hooks[..hookCount] == s.hooks[i := hook.(pte := None)];
        assert State() == DeactivateHook(s, i);
      }
    }

    method ReactivateAllHooks()
      requires ValidPages()
      modifies this`used, pde, split, hooks
      ensures ValidPages() && State() == ReactivateHooks(old(State()), |old(State()).hooks|)
    {
      ghost var before := State();
      for i := 0 to hookCount
        invariant ValidPages() && hookCount == |before.hooks|
        invariant State() == ReactivateHooks(before, i)
      {
        ReactivateHookAt(i);
      }
    }

    /** A hook whose entry is not found again would stay inactive; that never happens. */
    method ReactivateHookAt(i: nat)
      requires ValidPages() && i < hookCount
      modifies this`used, pde, split, hooks
      ensures ValidPages() && hookCount == old(hookCount)
      ensures State() == ReactivateHook(old(State()), i)
    {
      var hook := hooks[i];
      ghost var s := State();
      assert s.hooks[i] == hook;
      if hook.pte.Some? {
        return;
      }
      RelookupSucceeds(s, i);
      PageOfShiftedPfn(hook.orig);
      var pte := GetEptPte(hook.orig * PAGE_SIZE, false);
      if pte.None? {
        return;
      }
      split[pte.value] := split[pte.value].(frame := hook.orig, perm := split[pte.value].perm.(execute := false));
      hooks[i] := hook.(pte := pte);
      assert hooks[..hookCount] == s.hooks[i := hook.(pte := pte)];
    }

    /** Swaps the entry of an active hook to the frame the faulting access may see. */
    method SwapHookAt(i: nat, execute: bool)
      requires ValidPages() && i < hookCount && hooks[i].pte.Some?
      modifies split
      ensures ValidPages() && State() == SwapHook(old(State()), i, execute)
    {
      var hook := hooks[i];
      ghost var s := State();
      assert s.hooks[i] == hook && HookSlotOk(s.pdes, s.hooks[i]);
      var pte := hook.pte.value;
      if execute {
        split[pte] := split[pte].(perm := Perm(false, false, true), frame := hook.hook);
      } else {
        split[pte] := split[pte].(perm := Perm(true, true, false), frame := hook.orig);
      }
      SetPteEffect(s, hook.orig, split[pte]);
    }

    // ----- Memory types -----

    /** Gives the entries of the tables from `lo` to `hi` the type of their frame. */
    method TypeSplitTables(m: M.MtrrState, lo: nat, hi: nat)
      requires ValidPages() && m.Valid() && lo <= hi <= SPLIT_COUNT
      modifies split
      ensures ValidPages() && State() == TypeTables(old(State()), m, lo, hi)
    {
      ghost var before := State();
      for i := lo * 512 to hi * 512
        invariant forall j | 0 <= j < PTE_COUNT ::
                    split[j] == if lo * 512 <= j < i then TypedLeaf(m, before.ptes[j]) else before.ptes[j]
      {
        var memoryType, isUniform := M.GetMtrrRangeMemoryType(m, split[i].frame * PAGE_SIZE, PAGE_SIZE);
        M.PageIsUniform(m, split[i].frame);
        if !isUniform {
          return;
        }
        split[i] := split[i].(memoryType := memoryType);
      }
      assert split[..] == TypeTables(before, m, lo, hi).ptes;
      TypeTablesEffect(before, m, lo, hi);
    }

    /** Types one 2 MB leaf, or splits it; tells whether it was split. */
    method TypePde(m: M.MtrrState, d: nat) returns (split: bool)
      requires ValidPages() && m.Valid() && d < PDE_COUNT
      modifies this`used, pde, this.split
      ensures ValidPages() && hookCount == old(hookCount)
      ensures State() == RefreshPde(old(State()), m, d)
      ensures split <==> used == old(used) + 1
      ensures !split ==> used == old(used)
    {
      ghost var before := State();
      RefreshPdeEffect(before, m, d);
      if pde[d].Table? {
        return false;
      }
      var memoryType, isUniform := M.GetMtrrRangeMemoryType(m, pde[d].leaf.frame * LARGE_SIZE, LARGE_SIZE);
      if isUniform {
        pde[d] := Large(pde[d].leaf.(memoryType := memoryType));
        return false;
      }
      var table := SplitPde(d);
      if table.None? {
        pde[d] := Large(pde[d].leaf.(memoryType := memoryType));
        return false;
      }
      return true;
    }

    method UpdateMemoryTypes(m: M.MtrrState)
      requires ValidPages() && m.Valid()
      modifies this`used, pde, split
      ensures ValidPages() && hookCount == old(hookCount)
      ensures State() == RefreshMemoryTypes(old(State()), m, PD_COUNT)
    {
      ghost var before := State();
      for i := 0 to PD_COUNT
        invariant ValidPages() && hookCount == old(hookCount)
        invariant State() == RefreshMemoryTypes(before, m, i)
      {
        TypeDirectory(m, i);
        TypeSplitTables(m, 0, used);
      }
    }

    method TypeDirectory(m: M.MtrrState, i: nat)
      requires ValidPages() && m.Valid() && i < PD_COUNT
      modifies this`used, pde, split
      ensures ValidPages() && hookCount == old(hookCount)
      ensures State() == RefreshPdes(old(State()), m, i * 512, 512)
    {
      ghost var before := State();
      for j := 0 to 512
        invariant ValidPages() && hookCount == old(hookCount)
        invariant State() == RefreshPdes(before, m, i * 512, j)
      {
        var wasSplit := TypePde(m, i * 512 + j);
      }
    }

    constructor (m: M.MtrrState)
      requires m.Valid()
      ensures ValidPages() && fresh(pde) && fresh(split) && fresh(hooks)
      ensures State() == InitializeTo(m, PDE_COUNT)
    {
      pde := new Pde[PDE_COUNT](d => Large(Leaf(RWX, 0, NO_FLAGS, d)));
      split := new Leaf[PTE_COUNT](i => BLANK_LEAF);
      hooks := new Hook[MAX_HOOKS](i => Hook(0, 0, None));
      used, hookCount := 0, 0;
      new;
      assert pde[..] == Blank().pdes && split[..] == Blank().ptes;
      for d := 0 to PDE_COUNT
        invariant ValidPages() && State() == InitializeTo(m, d)
      {
        InitializePdeAt(m, d);
      }
    }

    /** Types a fresh 2 MB leaf; if it had to be split, types its table. */
    method InitializePdeAt(m: M.MtrrState, d: nat)
      requires ValidPages() && m.Valid() && d < PDE_COUNT
      modifies this`used, pde, split
      ensures ValidPages() && hookCount == old(hookCount)
      ensures State() == InitializePde(old(State()), m, d)
    {
      var wasSplit := TypePde(m, d);
      if wasSplit {
        TypeSplitTables(m, used - 1, used);
      }
    }
  }

  /** The four indices of an address give its page; a page of this table has a zero first index. */
  lemma PageOfIndices(gpa: nat)
    ensures PageOf(gpa) < PAGE_COUNT <==> gpa / 0x80_0000_0000 % 512 == 0
    ensures gpa / 0x80_0000_0000 % 512 == 0 ==>
              && PageOf(gpa) / 512 == gpa / 0x4000_0000 % 512 * 512 + gpa / LARGE_SIZE % 512
              && PageOf(gpa) % 512 == gpa / PAGE_SIZE % 512
  {
    var p, page := gpa / PAGE_SIZE, PageOf(gpa);
    var q := gpa / 0x1_0000_0000_0000;
    DivisionUnique(gpa, q * 0x10_0000_0000 + page, gpa % PAGE_SIZE, PAGE_SIZE) by {
      PageParts(gpa);
    }
    DropIndex(p, q, page, 0x800_0000);
    DropIndex(p / 512, q, page / 512, 0x4_0000);
    DropIndex(p / 512 / 512, q, page / 512 / 512, 512);
    DivisionUnique(p / 512 / 512 / 512, q, page / 512 / 512 / 512, 512);
    AddressIndices(gpa);
    var d := page / 512;
    assert d == d / 512 * 512 + d % 512;
    assert page / 512 / 512 / 512 == 0 ==> page / 512 / 512 % 512 == page / 512 / 512;
  }

  lemma PageParts(gpa: nat)
    ensures gpa == (gpa / 0x1_0000_0000_0000 * 0x10_0000_0000 + PageOf(gpa)) * PAGE_SIZE + gpa % PAGE_SIZE
    ensures PageOf(gpa) < 0x10_0000_0000
  {
    var low := gpa % 0x1_0000_0000_0000;
    assert gpa == gpa / 0x1_0000_0000_0000 * 0x1_0000_0000_0000 + low;
    assert low == PageOf(gpa) * PAGE_SIZE + low % PAGE_SIZE;
    DivisionUnique(gpa, gpa / 0x1_0000_0000_0000 * 0x10_0000_0000 + PageOf(gpa), low % PAGE_SIZE, PAGE_SIZE);
  }

  lemma AddressIndices(gpa: nat)
    ensures gpa / LARGE_SIZE == gpa / PAGE_SIZE / 512
    ensures gpa / 0x4000_0000 == gpa / PAGE_SIZE / 512 / 512
    ensures gpa / 0x80_0000_0000 == gpa / PAGE_SIZE / 512 / 512 / 512
  {
  }

  lemma DropIndex(p: nat, q: nat, low: nat, size: nat)
    requires p == q * (size * 512) + low
    ensures p / 512 == q * size + low / 512 && p % 512 == low % 512
  {
    assert q * (size * 512) == q * size * 512;
    DivisionUnique(p, q * size + low / 512, low % 512, 512);
  }
}
