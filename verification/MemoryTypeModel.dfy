/** Memory types of the second-level tables: their first computation and their refresh after an MTRR write. */
module MemoryTypeModel {
  import opened Common
  import opened EptModel
  import M = Mtrr

  function SetLargeType(s: Ept, d: nat, memoryType: nat): Ept
    requires Sized(s) && d < PDE_COUNT && s.pdes[d].Large?
  {
    s.(pdes := s.pdes[d := Large(s.pdes[d].leaf.(memoryType := memoryType))])
  }

  /** Gives the entries of tables `lo` to `hi` the type of the frame each of them maps. */
  function TypeTables(s: Ept, m: M.MtrrState, lo: nat, hi: nat): Ept
    requires Sized(s) && m.Valid() && lo <= hi <= SPLIT_COUNT
  {
    s.(ptes := seq(PTE_COUNT, i requires 0 <= i < PTE_COUNT =>
                if lo * 512 <= i < hi * 512 then TypedLeaf(m, s.ptes[i]) else s.ptes[i]))
  }

  function TypedLeaf(m: M.MtrrState, leaf: Leaf): Leaf
    requires m.Valid()
  {
    leaf.(memoryType := M.RangeType(m, leaf.frame * PAGE_SIZE, PAGE_SIZE))
  }

  /** One 2 MB leaf: typed as a whole if its range is uniform or no table is free, split otherwise. */
  function RefreshPde(s: Ept, m: M.MtrrState, d: nat): (t: Ept)
    requires Sized(s) && PdesOk(s.pdes) && m.Valid() && d < PDE_COUNT
    ensures |t.pdes| == |s.pdes|
  {
    if s.pdes[d].Table? then
      s
    else
      var address := s.pdes[d].leaf.frame * LARGE_SIZE;
      if M.RangeUniform(m, address, LARGE_SIZE) || !CanSplit(s, d) then
        SetLargeType(s, d, M.RangeType(m, address, LARGE_SIZE))
      else
        Split(s, d)
  }

  predicate SameButType(s: Ept, t: Ept)
    requires Sized(s) && Sized(t)
  {
    forall page: nat | page < PAGE_COUNT ::
      Translate(t, page) == Translate(s, page).(memoryType := Translate(t, page).memoryType)
  }

  /** `t` says the same as `s` about every page except its memory type, and keeps every table of `s`. */
  predicate Refines(s: Ept, t: Ept) {
    Valid(s) && Valid(t) && Extends(s, t) && SameButType(s, t)
  }

  lemma RefinesTransitive(s: Ept, t: Ept, u: Ept)
    requires Refines(s, t) && Refines(t, u)
    ensures Refines(s, u)
  {
    forall d | 0 <= d < PDE_COUNT && s.pdes[d].Table?
      ensures u.pdes[d] == s.pdes[d]
    {
      assert t.pdes[d] == s.pdes[d];
    }
    forall page: nat | page < PAGE_COUNT
      ensures Translate(u, page) == Translate(s, page).(memoryType := Translate(u, page).memoryType)
    {
      assert Translate(t, page) == Translate(s, page).(memoryType := Translate(t, page).memoryType);
      assert Translate(u, page) == Translate(t, page).(memoryType := Translate(u, page).memoryType);
    }
  }

  /** A 2 MB leaf carries the combined type of its range, and is mixed only if no table was left. */
  predicate LargeTyped(s: Ept, m: M.MtrrState, d: nat)
    requires Sized(s) && m.Valid() && d < PDE_COUNT
  {
    s.pdes[d].Large? ==>
      && s.pdes[d].leaf.memoryType == M.RangeType(m, d * LARGE_SIZE, LARGE_SIZE)
      && (M.RangeUniform(m, d * LARGE_SIZE, LARGE_SIZE) || s.used == SPLIT_COUNT)
  }

  predicate TablesTyped(s: Ept, m: M.MtrrState, n: nat)
    requires Sized(s) && m.Valid() && n <= SPLIT_COUNT
  {
    forall i | 0 <= i < n * 512 :: s.ptes[i] == TypedLeaf(m, s.ptes[i])
  }

  lemma SetLargeTypeEffect(s: Ept, d: nat, memoryType: nat)
    requires Valid(s) && d < PDE_COUNT && s.pdes[d].Large?
    ensures Refines(s, SetLargeType(s, d, memoryType))
  {
    var t := SetLargeType(s, d, memoryType);
    ExtendsKeepsHookSlots(s, t);
    forall page: nat | page < PAGE_COUNT
      ensures Translate(t, page) == Translate(s, page).(memoryType := Translate(t, page).memoryType)
    {
      assert page / 512 != d ==> t.pdes[page / 512] == s.pdes[page / 512];
    }
  }

  lemma TypeTablesEffect(s: Ept, m: M.MtrrState, lo: nat, hi: nat)
    requires Valid(s) && m.Valid() && lo <= hi <= SPLIT_COUNT
    ensures var t := TypeTables(s, m, lo, hi);
            && Refines(s, t)
            && (TablesTyped(s, m, lo) ==> TablesTyped(t, m, hi))
  {
  }

  lemma RefreshPdeEffect(s: Ept, m: M.MtrrState, d: nat)
    requires Valid(s) && m.Valid() && d < PDE_COUNT
    ensures var t := RefreshPde(s, m, d);
            && Refines(s, t)
            && LargeTyped(t, m, d)
            && (forall e | 0 <= e < PDE_COUNT && e != d && LargeTyped(s, m, e) :: LargeTyped(t, m, e))
  {
    if s.pdes[d].Large? {
      var address := s.pdes[d].leaf.frame * LARGE_SIZE;
      if M.RangeUniform(m, address, LARGE_SIZE) || !CanSplit(s, d) {
        SetLargeTypeEffect(s, d, M.RangeType(m, address, LARGE_SIZE));
      } else {
        SplitPreserves(s, d);
      }
    }
  }

  // ----- Refresh -----

  /** The first `n` directory entries from `first` on. */
  function RefreshPdes(s: Ept, m: M.MtrrState, first: nat, n: nat): (t: Ept)
    requires Valid(s) && m.Valid() && first + n <= PDE_COUNT
    ensures Valid(t)
  {
    if n == 0 then
      s
    else
      var t := RefreshPdes(s, m, first, n - 1);
      RefreshPdeEffect(t, m, first + n - 1);
      RefreshPde(t, m, first + n - 1)
  }

  /** The first `n` page directories, each followed by all tables in use. */
  function RefreshMemoryTypes(s: Ept, m: M.MtrrState, n: nat): (t: Ept)
    requires Valid(s) && m.Valid() && n <= PD_COUNT
    ensures Valid(t)
  {
    if n == 0 then
      s
    else
      var t := RefreshPdes(RefreshMemoryTypes(s, m, n - 1), m, (n - 1) * 512, 512);
      TypeTablesEffect(t, m, 0, t.used);
      TypeTables(t, m, 0, t.used)
  }

  predicate LargesTyped(s: Ept, m: M.MtrrState, n: nat)
    requires Sized(s) && m.Valid() && n <= PDE_COUNT
  {
    forall d | 0 <= d < n :: LargeTyped(s, m, d)
  }

  lemma {:induction false} RefreshPdesEffect(s: Ept, m: M.MtrrState, first: nat, n: nat)
    requires Valid(s) && m.Valid() && first + n <= PDE_COUNT && LargesTyped(s, m, first)
    ensures var t := RefreshPdes(s, m, first, n);
            Refines(s, t) && LargesTyped(t, m, first + n)
  {
    if n > 0 {
      RefreshPdesEffect(s, m, first, n - 1);
      var t := RefreshPdes(s, m, first, n - 1);
      RefreshPdeEffect(t, m, first + n - 1);
      RefinesTransitive(s, t, RefreshPde(t, m, first + n - 1));
    }
  }

  lemma {:induction false} RefreshMemoryTypesEffect(s: Ept, m: M.MtrrState, n: nat)
    requires Valid(s) && m.Valid() && n <= PD_COUNT
    ensures var t := RefreshMemoryTypes(s, m, n);
            && Refines(s, t)
            && LargesTyped(t, m, n * 512)
            && (n > 0 ==> TablesTyped(t, m, t.used))
  {
    if n > 0 {
      RefreshMemoryTypesEffect(s, m, n - 1);
      var before := RefreshMemoryTypes(s, m, n - 1);
      RefreshPdesEffect(before, m, (n - 1) * 512, 512);
      var t := RefreshPdes(before, m, (n - 1) * 512, 512);
      RefinesTransitive(s, before, t);
      TypeTablesEffect(t, m, 0, t.used);
      var u := TypeTables(t, m, 0, t.used);
      RefinesTransitive(s, t, u);
      forall d | 0 <= d < n * 512
        ensures LargeTyped(u, m, d)
      {
        assert LargeTyped(t, m, d);
      }
    }
  }

  /** The 2 MB entries that were split since are those of mixed ranges. */
  predicate SplitsOnlyMixed(s: Ept, t: Ept, m: M.MtrrState)
    requires Sized(s) && Sized(t) && m.Valid()
  {
    forall d | 0 <= d < PDE_COUNT && s.pdes[d].Large? && t.pdes[d].Table? ::
      !M.RangeUniform(m, d * 0x20_0000, 0x20_0000)
  }

  /** One entry is split if and only if its range is mixed and a table is free; that takes one table. */
  lemma RefreshPdeSplits(s: Ept, m: M.MtrrState, d: nat)
    requires Valid(s) && m.Valid() && d < PDE_COUNT && s.pdes[d].Large?
    ensures var t := RefreshPde(s, m, d);
            && |t.pdes| == PDE_COUNT
            && (t.pdes[d].Table? <==> !M.RangeUniform(m, d * 0x20_0000, 0x20_0000) && s.used < 256)
            && t.used == s.used + (if t.pdes[d].Table? then 1 else 0)
            && (forall e | 0 <= e < PDE_COUNT && e != d :: t.pdes[e] == s.pdes[e])
  {
  }

  lemma {:induction false} RefreshPdesSplits(s: Ept, m: M.MtrrState, first: nat, n: nat)
    requires Valid(s) && m.Valid() && first + n <= PDE_COUNT
    ensures SplitsOnlyMixed(s, RefreshPdes(s, m, first, n), m)
  {
    if n > 0 {
      RefreshPdesSplits(s, m, first, n - 1);
      var t, d := RefreshPdes(s, m, first, n - 1), first + n - 1;
      if t.pdes[d].Large? {
        RefreshPdeSplits(t, m, d);
      }
    }
  }

  lemma {:induction false} RefreshSplits(s: Ept, m: M.MtrrState, n: nat)
    requires Valid(s) && m.Valid() && n <= PD_COUNT
    ensures SplitsOnlyMixed(s, RefreshMemoryTypes(s, m, n), m)
  {
    if n > 0 {
      RefreshSplits(s, m, n - 1);
      RefreshPdesSplits(RefreshMemoryTypes(s, m, n - 1), m, (n - 1) * 512, 512);
    }
  }

  /** A mixed range is left whole only if all tables are used. */
  predicate MixedAreSplit(s: Ept, m: M.MtrrState)
    requires Sized(s) && m.Valid()
  {
    forall d | 0 <= d < PDE_COUNT && s.pdes[d].Large? :: M.RangeUniform(m, d * 0x20_0000, 0x20_0000) || s.used == 256
  }

  lemma TypedAreSplit(s: Ept, m: M.MtrrState)
    requires Sized(s) && m.Valid() && LargesTyped(s, m, PDE_COUNT)
    ensures MixedAreSplit(s, m)
  {
    forall d | 0 <= d < PDE_COUNT && s.pdes[d].Large?
      ensures M.RangeUniform(m, d * 0x20_0000, 0x20_0000) || s.used == 256
    {
      assert LargeTyped(s, m, d);
    }
  }

  /** The refresh splits no 2 MB entry of a uniform range, and leaves a mixed one whole only without a free table. */
  lemma RefreshSplitsMixed(s: Ept, m: M.MtrrState)
    requires Valid(s) && m.Valid()
    ensures var t := RefreshMemoryTypes(s, m, PD_COUNT); SplitsOnlyMixed(s, t, m) && MixedAreSplit(t, m)
  {
    RefreshSplits(s, m, PD_COUNT);
    RefreshMemoryTypesEffect(s, m, PD_COUNT);
    TypedAreSplit(RefreshMemoryTypes(s, m, PD_COUNT), m);
  }

  /** The type a page must have: that of its frame, or that of its whole 2 MB range if no table was left. */
  predicate PageTyped(s: Ept, m: M.MtrrState, page: nat)
    requires Sized(s) && m.Valid() && page < PAGE_COUNT
  {
    var leaf, base := Translate(s, page), page / 512 * LARGE_SIZE;
    if IsSplit(s, page) || M.RangeUniform(m, base, LARGE_SIZE) then
      leaf.memoryType == M.PageType(m, leaf.frame)
    else
      leaf.memoryType == M.RangeType(m, base, LARGE_SIZE) && s.used == SPLIT_COUNT
  }

  lemma TypedPage(s: Ept, m: M.MtrrState, page: nat)
    requires Valid(s) && m.Valid() && page < PAGE_COUNT
    requires LargesTyped(s, m, PDE_COUNT) && TablesTyped(s, m, s.used)
    ensures PageTyped(s, m, page)
  {
    var d := page / 512;
    if IsSplit(s, page) {
      var i := Slot(s, page);
      assert i < s.used * 512;
      assert s.ptes[i] == TypedLeaf(m, s.ptes[i]);
      M.PageIsUniform(m, s.ptes[i].frame);
    } else {
      assert LargeTyped(s, m, d);
      var base := d * LARGE_SIZE;
      if M.RangeUniform(m, base, LARGE_SIZE) {
        M.RangeUniformIsAllAddresses(m, base, LARGE_SIZE);
        assert M.InRange(base, LARGE_SIZE, page * PAGE_SIZE);
        assert Translate(s, page).frame == page;
      }
    }
  }

  /**
   The refresh changes no permission, no translation and no hook, and afterwards every page has its type.
   The type is that of the frame the page is mapped to, so it is the page's own type exactly when that
   frame has the same type: always, unless a hook frame is swapped in.
   */
  lemma RefreshKeepsMeaning(s: Ept, m: M.MtrrState, page: nat)
    requires Valid(s) && m.Valid() && page < PAGE_COUNT
    ensures var t := RefreshMemoryTypes(s, m, PD_COUNT);
            && Refines(s, t) && t.hooks == s.hooks
            && PageTyped(t, m, page)
            && (IsSplit(t, page) ==>
                  (Translate(t, page).memoryType == M.PageType(m, page)
                   <==> M.PageType(m, Translate(s, page).frame) == M.PageType(m, page)))
  {
    RefreshMemoryTypesEffect(s, m, PD_COUNT);
    var t := RefreshMemoryTypes(s, m, PD_COUNT);
    TypedPage(t, m, page);
    assert Translate(t, page) == Translate(s, page).(memoryType := Translate(t, page).memoryType);
  }

  /**
   A refresh while a fetch has the hook frame of a page swapped in: the page gets its own type if and only if
   the hook frame happens to have that type.
   */
  lemma SwappedFrameIsMistyped(s: Ept, m: M.MtrrState, page: nat)
    requires Idle(s) && m.Valid() && page < PAGE_COUNT && FirstHook(s.hooks, page).Some?
    ensures var i := FirstHook(s.hooks, page).value;
            && Valid(SwapHook(s, i, true))
            && (Translate(RefreshMemoryTypes(SwapHook(s, i, true), m, PD_COUNT), page).memoryType == M.PageType(m, page)
                <==> M.PageType(m, s.hooks[i].hook) == M.PageType(m, page))
  {
    var i := FirstHook(s.hooks, page).value;
    SwapHookEffect(s, page, true);
    var t := SwapHook(s, i, true);
    assert PageIdle(t, page);
    assert HookSlotOk(s.pdes, s.hooks[i]);
    RefreshKeepsMeaning(t, m, page);
  }

  // ----- Initialisation -----

  const BLANK_LEAF := Leaf(Perm(false, false, false), 0, NO_FLAGS, 0)

  function Blank(): Ept {
    Ept(
      seq(PDE_COUNT, d requires 0 <= d < PDE_COUNT => Large(Leaf(RWX, 0, NO_FLAGS, d))),
      seq(PTE_COUNT, i => BLANK_LEAF),
      0,
      [])
  }

  /** Like the refresh of one entry, but a table is typed as soon as it has been split off. */
  function InitializePde(s: Ept, m: M.MtrrState, d: nat): Ept
    requires Valid(s) && m.Valid() && d < PDE_COUNT
  {
    RefreshPdeEffect(s, m, d);
    var t := RefreshPde(s, m, d);
    if s.used < t.used then TypeTables(t, m, s.used, t.used) else t
  }

  function InitializeTo(m: M.MtrrState, n: nat): (t: Ept)
    requires m.Valid() && n <= PDE_COUNT
    ensures Valid(t) && t.hooks == []
    ensures Refines(Blank(), t)
    ensures LargesTyped(t, m, n) && TablesTyped(t, m, t.used)
  {
    if n == 0 then
      Blank()
    else
      var s := InitializeTo(m, n - 1);
      InitializePdeEffect(s, m, n - 1);
      RefinesTransitive(Blank(), s, InitializePde(s, m, n - 1));
      InitializePde(s, m, n - 1)
  }

  lemma InitializePdeEffect(s: Ept, m: M.MtrrState, d: nat)
    requires Valid(s) && m.Valid() && d < PDE_COUNT
    requires LargesTyped(s, m, d) && TablesTyped(s, m, s.used)
    ensures var t := InitializePde(s, m, d);
            Refines(s, t) && LargesTyped(t, m, d + 1) && TablesTyped(t, m, t.used)
  {
    RefreshPdeEffect(s, m, d);
    var t := RefreshPde(s, m, d);
    assert LargesTyped(t, m, d + 1);
    if s.used < t.used {
      var u := TypeTables(t, m, s.used, t.used);
      assert TablesTyped(t, m, s.used);
      TypeTablesEffect(t, m, s.used, t.used);
      RefinesTransitive(s, t, u);
      forall e | 0 <= e < d + 1
        ensures LargeTyped(u, m, e)
      {
        assert LargeTyped(t, m, e);
      }
    }
  }

  lemma {:induction false} InitializeSplits(m: M.MtrrState, n: nat)
    requires m.Valid() && n <= PDE_COUNT
    ensures SplitsOnlyMixed(Blank(), InitializeTo(m, n), m)
  {
    if n > 0 {
      InitializeSplits(m, n - 1);
      if InitializeTo(m, n - 1).pdes[n - 1].Large? {
        RefreshPdeSplits(InitializeTo(m, n - 1), m, n - 1);
      }
    }
  }

  /** The fresh tables split no 2 MB entry of a uniform range, and leave a mixed one whole only without a free table. */
  lemma InitializeSplitsMixed(m: M.MtrrState)
    requires m.Valid()
    ensures var t := InitializeTo(m, PDE_COUNT); SplitsOnlyMixed(Blank(), t, m) && MixedAreSplit(t, m)
  {
    InitializeSplits(m, PDE_COUNT);
    TypedAreSplit(InitializeTo(m, PDE_COUNT), m);
  }

  /** The fresh tables map every page to itself with full access and its own type. */
  lemma InitializeIsIdle(m: M.MtrrState, page: nat)
    requires m.Valid() && page < PAGE_COUNT
    ensures var t := InitializeTo(m, PDE_COUNT);
            && PageIdle(t, page) && Translate(t, page).frame == page
            && PageTyped(t, m, page)
  {
    var t := InitializeTo(m, PDE_COUNT);
    TypedPage(t, m, page);
    assert Translate(t, page) == Translate(Blank(), page).(memoryType := Translate(t, page).memoryType);
  }
}
