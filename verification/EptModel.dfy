/**
 The second-level page tables of one vCPU view as a value, and what each operation does to them.
 Leaf entries are records in two flat tables: 512 x 512 page-directory entries in row-major order, and
 256 split page tables of 512 entries. A page is a guest-physical frame number below 2^27 (512 GB).
 */
module EptModel {
  import opened Common

  const PD_COUNT: nat := 512
  const PDE_COUNT: nat := 0x40000
  const SPLIT_COUNT: nat := 256
  const PTE_COUNT: nat := 0x20000
  const PAGE_COUNT: nat := 0x8000000
  const MAX_HOOKS: nat := 32
  const LARGE_SIZE: nat := 0x200000
  const PFN32: nat := 0x1_0000_0000

  datatype Perm = Perm(read: bool, write: bool, execute: bool)

  const RWX := Perm(true, true, true)
  const RW := Perm(true, true, false)

  /** The attribute bits a split copies unchanged. */
  datatype Flags = Flags(
    ignorePat: bool, accessed: bool, dirty: bool, userModeExecute: bool,
    verifyGuestPaging: bool, pagingWriteAccess: bool, supervisorShadowStack: bool, suppressVe: bool)

  const NO_FLAGS := Flags(false, false, false, false, false, false, false, false)

  datatype Leaf = Leaf(perm: Perm, memoryType: nat, flags: Flags, frame: nat)

  /** A 2 MB leaf, whose frame counts 2 MB units, or a pointer to a split page table. */
  datatype Pde = Large(leaf: Leaf) | Table(perm: Perm, index: nat)

  /** A hook; `pte` is the flat index of its split entry while the hook is active. */
  datatype Hook = Hook(orig: nat, hook: nat, pte: Option<nat>)

  datatype Ept = Ept(pdes: seq<Pde>, ptes: seq<Leaf>, used: nat, hooks: seq<Hook>)

  function Both(p: Perm, q: Perm): Perm {
    Perm(p.read && q.read, p.write && q.write, p.execute && q.execute)
  }

  // ----- Well-formedness and the meaning of a table -----

  predicate PdesSized(pdes: seq<Pde>, used: nat) {
    && |pdes| == PDE_COUNT
    && used <= SPLIT_COUNT
    && forall d | 0 <= d < PDE_COUNT :: pdes[d].Table? ==> pdes[d].index < used
  }

  predicate Sized(s: Ept) {
    PdesSized(s.pdes, s.used) && |s.ptes| == PTE_COUNT && |s.hooks| <= MAX_HOOKS
  }

  predicate IsSplit(s: Ept, page: nat)
    requires Sized(s) && page < PAGE_COUNT
  {
    s.pdes[page / 512].Table?
  }

  function SlotIn(pdes: seq<Pde>, page: nat): nat
    requires page / 512 < |pdes| && pdes[page / 512].Table?
  {
    pdes[page / 512].index * 512 + page % 512
  }

  function Slot(s: Ept, page: nat): (i: nat)
    requires Sized(s) && page < PAGE_COUNT && IsSplit(s, page)
    ensures i < PTE_COUNT
  {
    SlotIn(s.pdes, page)
  }

  /** The leaf a walk of these tables ends at: permissions of all levels combined, frame in 4 KB units. */
  function Translate(s: Ept, page: nat): Leaf
    requires Sized(s) && page < PAGE_COUNT
  {
    match s.pdes[page / 512]
    case Large(leaf) => leaf.(frame := leaf.frame * 512 + page % 512)
    case Table(perm, _) =>
      var leaf := s.ptes[Slot(s, page)];
      leaf.(perm := Both(perm, leaf.perm))
  }

  /** 2 MB leaves map themselves, table pointers take no access away, and no two share a table. */
  predicate PdesOk(pdes: seq<Pde>) {
    && (forall d | 0 <= d < |pdes| ::
         match pdes[d] case Large(leaf) => leaf.frame == d case Table(perm, _) => perm == RWX)
    && (forall d, e | 0 <= d < e < |pdes| && pdes[d].Table? && pdes[e].Table? :: pdes[d].index != pdes[e].index)
  }

  /** A hooked page is split, and the entry the hook remembers is the entry of its page. */
  predicate HookSlotOk(pdes: seq<Pde>, h: Hook)
    requires |pdes| == PDE_COUNT
  {
    && h.orig < PAGE_COUNT
    && pdes[h.orig / 512].Table?
    && (h.pte.Some? ==> h.pte.value == SlotIn(pdes, h.orig))
  }

  predicate HooksOk(pdes: seq<Pde>, hooks: seq<Hook>)
    requires |pdes| == PDE_COUNT
  {
    forall i | 0 <= i < |hooks| :: HookSlotOk(pdes, hooks[i])
  }

  predicate Valid(s: Ept) {
    Sized(s) && PdesOk(s.pdes) && HooksOk(s.pdes, s.hooks)
  }

  /** Distinct split pages never share an entry. */
  lemma SlotInjective(s: Ept, p: nat, q: nat)
    requires Valid(s) && p < PAGE_COUNT && q < PAGE_COUNT
    requires IsSplit(s, p) && IsSplit(s, q) && p != q
    ensures Slot(s, p) != Slot(s, q)
  {
    var d, e := p / 512, q / 512;
    if d != e {
      assert s.pdes[d].index != s.pdes[e].index;
    }
  }

  function SetPte(s: Ept, slot: nat, leaf: Leaf): Ept
    requires Sized(s) && slot < PTE_COUNT
  {
    s.(ptes := s.ptes[slot := leaf])
  }

  lemma SetPteEffect(s: Ept, page: nat, leaf: Leaf)
    requires Valid(s) && page < PAGE_COUNT && IsSplit(s, page)
    ensures var s' := SetPte(s, Slot(s, page), leaf);
            && Valid(s')
            && Translate(s', page) == leaf
            && forall q: nat | q < PAGE_COUNT && q != page :: Translate(s', q) == Translate(s, q)
  {
    var s' := SetPte(s, Slot(s, page), leaf);
    forall q: nat | q < PAGE_COUNT && q != page
      ensures Translate(s', q) == Translate(s, q)
    {
      if IsSplit(s, q) {
        SlotInjective(s, page, q);
      }
    }
    assert s.pdes[page / 512].perm == RWX;
  }

  /** `s'` has the same hooks and every table of `s`, at the same place. */
  predicate Extends(s: Ept, s': Ept) {
    && Sized(s) && Sized(s')
    && s.hooks == s'.hooks && s.used <= s'.used
    && forall d | 0 <= d < PDE_COUNT :: s.pdes[d].Table? ==> s'.pdes[d] == s.pdes[d]
  }

  lemma ExtendsKeepsHookSlots(s: Ept, s': Ept)
    requires Extends(s, s')
    requires HooksOk(s.pdes, s.hooks)
    ensures HooksOk(s'.pdes, s'.hooks)
  {
    forall i | 0 <= i < |s.hooks|
      ensures HookSlotOk(s'.pdes, s.hooks[i])
    {
      assert HookSlotOk(s.pdes, s.hooks[i]);
    }
  }

  // ----- Splitting -----

  function InheritedPte(pde: Leaf, i: nat): Leaf {
    pde.(frame := pde.frame * 512 + i)
  }

  predicate CanSplit(s: Ept, d: nat)
    requires Sized(s) && d < PDE_COUNT
  {
    s.pdes[d].Large? && s.used < SPLIT_COUNT
  }

  /** Takes the next free table, fills it from the 2 MB leaf and points the directory entry at it. */
  function Split(s: Ept, d: nat): Ept
    requires Sized(s) && d < PDE_COUNT && CanSplit(s, d)
  {
    var pde, base := s.pdes[d].leaf, s.used * 512;
    Ept(
      s.pdes[d := Table(RWX, s.used)],
      s.ptes[..base] + seq(512, i requires 0 <= i < 512 => InheritedPte(pde, i)) + s.ptes[base + 512..],
      s.used + 1,
      s.hooks)
  }

  /** A split changes how the tables say it, never what they say, for any page. */
  lemma SplitPreserves(s: Ept, d: nat)
    requires Valid(s) && d < PDE_COUNT && CanSplit(s, d)
    ensures var s' := Split(s, d);
            && Valid(s') && Extends(s, s') && s'.pdes[d].Table?
            && (forall page: nat | page < PAGE_COUNT :: Translate(s', page) == Translate(s, page))
  {
    var s' := Split(s, d);
    assert |s'.ptes| == PTE_COUNT;
    assert Extends(s, s');
    ExtendsKeepsHookSlots(s, s');
    forall page: nat | page < PAGE_COUNT
      ensures Translate(s', page) == Translate(s, page)
    {
      var e := page / 512;
      if e != d && s.pdes[e].Table? {
        var i := Slot(s, page);
        assert i < s.used * 512;
        assert s'.ptes[i] == s.ptes[i];
      } else if e == d {
        assert s'.ptes[s.used * 512 + page % 512] == InheritedPte(s.pdes[d].leaf, page % 512);
      }
    }
  }

  // ----- Entry lookup -----

  /** The page a guest-physical address selects below the first PML4 entry; bits above 47 are ignored. */
  function PageOf(gpa: nat): nat {
    gpa % 0x1_0000_0000_0000 / PAGE_SIZE
  }

  /** The page selected by a frame number shifted into an address. */
  function PageOfPfn(pfn: nat): nat {
    pfn % 0x10_0000_0000
  }

  lemma PageOfShiftedPfn(pfn: nat)
    ensures PageOf(pfn * PAGE_SIZE) == PageOfPfn(pfn)
  {
    assert pfn * PAGE_SIZE % 0x1_0000_0000_0000 == pfn % 0x10_0000_0000 * PAGE_SIZE;
  }

  /** Whether the lookup can produce an entry: page mapped, and split already or splittable now. */
  predicate CanGetPte(s: Ept, page: nat, forceSplit: bool)
    requires Sized(s)
  {
    page < PAGE_COUNT && (IsSplit(s, page) || (forceSplit && CanSplit(s, page / 512)))
  }

  /** The tables after the lookup: a forced lookup of a page under a 2 MB leaf splits it. */
  function GetPteState(s: Ept, page: nat, forceSplit: bool): Ept
    requires Sized(s)
  {
    if CanGetPte(s, page, forceSplit) && !IsSplit(s, page) then Split(s, page / 512) else s
  }

  lemma GetPteEffect(s: Ept, page: nat, forceSplit: bool)
    requires Valid(s)
    ensures var s' := GetPteState(s, page, forceSplit);
            && Valid(s') && Extends(s, s')
            && (forall q: nat | q < PAGE_COUNT :: Translate(s', q) == Translate(s, q))
            && (CanGetPte(s, page, forceSplit) ==> page < PAGE_COUNT && IsSplit(s', page))
  {
    if CanGetPte(s, page, forceSplit) && !IsSplit(s, page) {
      SplitPreserves(s, page / 512);
    }
  }

  // ----- Permissions of all leaves -----

  function WithPerm(s: Ept, perm: Perm): Ept {
    s.(pdes := seq(|s.pdes|, d requires 0 <= d < |s.pdes| =>
                 if s.pdes[d].Large? then Large(s.pdes[d].leaf.(perm := perm)) else s.pdes[d]),
       ptes := seq(|s.ptes|, i requires 0 <= i < |s.ptes| => s.ptes[i].(perm := perm)))
  }

  lemma WithPermEffect(s: Ept, perm: Perm)
    requires Valid(s)
    ensures var s' := WithPerm(s, perm);
            && Valid(s') && Extends(s, s')
            && forall page: nat | page < PAGE_COUNT :: Translate(s', page) == Translate(s, page).(perm := perm)
  {
    var s' := WithPerm(s, perm);
    assert Extends(s, s');
    ExtendsKeepsHookSlots(s, s');
    forall page: nat | page < PAGE_COUNT
      ensures Translate(s', page) == Translate(s, page).(perm := perm)
    {
      assert s'.pdes[page / 512] == if IsSplit(s, page) then s.pdes[page / 512]
                                    else Large(s.pdes[page / 512].leaf.(perm := perm));
    }
  }

  // ----- Hooks -----

  /** The entry a hook lookup finds for a frame: the first one registered. */
  function FirstHook(hooks: seq<Hook>, orig: nat): (r: Option<nat>)
    ensures r.Some? ==>
              && r.value < |hooks| && hooks[r.value].orig == orig
              && forall i | 0 <= i < r.value :: hooks[i].orig != orig
    ensures r.None? ==> forall i | 0 <= i < |hooks| :: hooks[i].orig != orig
  {
    if hooks == [] then None
    else if hooks[0].orig == orig then Some(0)
    else match FirstHook(hooks[1..], orig)
      case None => None
      case Some(i) => Some(i + 1)
  }

  predicate CanAddHook(s: Ept, origPfn: nat)
    requires Sized(s)
  {
    |s.hooks| < MAX_HOOKS && CanGetPte(s, PageOfPfn(origPfn), true)
  }

  function AddHookState(s: Ept, origPfn: nat, hookPfn: nat): Ept
    requires Valid(s)
  {
    var page := PageOfPfn(origPfn);
    if |s.hooks| >= MAX_HOOKS then
      s
    else
      var t := GetPteState(s, page, true);
      if !CanGetPte(s, page, true) then
        t
      else
        GetPteEffect(s, page, true);
        var slot := Slot(t, page);
        SetPte(t, slot, t.ptes[slot].(perm := t.ptes[slot].perm.(execute := false)))
          .(hooks := t.hooks + [Hook(origPfn % PFN32, hookPfn % PFN32, Some(slot))])
  }

  /**
   A hook is accepted if and only if one of the 32 places is free, its page is below 512 GB, and the 2 MB entry
   of the page is split or a table is free. One that finds no place leaves the tables alone, and an accepted
   one takes a table only if its 2 MB entry was not split.
   */
  lemma HookAcceptedIff(s: Ept, origPfn: nat, hookPfn: nat)
    requires Valid(s)
    ensures var s', page := AddHookState(s, origPfn, hookPfn), origPfn % 0x10_0000_0000;
            && CanAddHook(s, origPfn) == (|s'.hooks| == |s.hooks| + 1)
            && (|s'.hooks| == |s.hooks| + 1 <==>
                  |s.hooks| < 32 && page < 0x800_0000 && (s.pdes[page / 512].Table? || s.used < 256))
            && (|s.hooks| == 32 ==> s' == s)
            && (|s'.hooks| == |s.hooks| + 1 ==>
                  s'.used == s.used + if s.pdes[page / 512].Table? then 0 else 1)
  {
    AddHookEffect(s, origPfn, hookPfn);
  }

  /** The 32-bit copy of the frame number kept in the hook is the page the lookup found. */
  lemma TruncatedPfn(origPfn: nat)
    requires PageOfPfn(origPfn) < PAGE_COUNT
    ensures origPfn % PFN32 == PageOfPfn(origPfn)
  {
    var r := PageOfPfn(origPfn);
    RemainderBelow(16 * (origPfn / 0x10_0000_0000), r);
    assert origPfn == PFN32 * (16 * (origPfn / 0x10_0000_0000)) + r;
  }

  lemma RemainderBelow(q: nat, r: nat)
    requires r < PFN32
    ensures (PFN32 * q + r) % PFN32 == r
  {
  }

  lemma FirstHookAppend(hooks: seq<Hook>, h: Hook, orig: nat)
    ensures FirstHook(hooks + [h], orig) ==
            match FirstHook(hooks, orig)
            case Some(i) => Some(i)
            case None => if h.orig == orig then Some(|hooks|) else None
  {
    var r, all := FirstHook(hooks, orig), FirstHook(hooks + [h], orig);
    if r.Some? {
      assert (hooks + [h])[r.value].orig == orig;
      assert hooks[r.value].orig == orig;
    } else if h.orig == orig {
      assert (hooks + [h])[|hooks|].orig == orig;
    }
  }

  /** Hook lists that differ only in which hooks are active give the same first hook. */
  lemma FirstHookSameFrames(hooks: seq<Hook>, other: seq<Hook>, orig: nat)
    requires |hooks| == |other|
    requires forall i | 0 <= i < |hooks| :: hooks[i].orig == other[i].orig
    ensures FirstHook(hooks, orig) == FirstHook(other, orig)
  {
    var r, q := FirstHook(hooks, orig), FirstHook(other, orig);
    if r.Some? {
      assert other[r.value].orig == orig;
    }
    if q.Some? {
      assert hooks[q.value].orig == orig;
    }
  }

  /**
   The shadow-page property of a hooked page: a readable or writable entry shows the original frame and
   denies execution, an executable one shows the hook frame and denies reads and writes.
   */
  predicate ShadowOk(leaf: Leaf, orig: nat, hook: nat) {
    && (leaf.perm.read || leaf.perm.write ==> leaf.frame == orig && !leaf.perm.execute)
    && (leaf.perm.execute ==> leaf.frame == hook && !leaf.perm.read && !leaf.perm.write)
    && (leaf.frame == orig || leaf.frame == hook)
  }

  predicate PageIdle(s: Ept, page: nat)
    requires Sized(s) && page < PAGE_COUNT
  {
    match FirstHook(s.hooks, page)
    case None => Translate(s, page).perm == RWX && Translate(s, page).frame == page
    case Some(i) => ShadowOk(Translate(s, page), page, s.hooks[i].hook)
  }

  predicate AllActive(hooks: seq<Hook>) {
    forall i | 0 <= i < |hooks| :: hooks[i].pte.Some?
  }

  predicate AllInactive(hooks: seq<Hook>) {
    forall i | 0 <= i < |hooks| :: hooks[i].pte.None?
  }

  /** A view outside tracing: identity mapping with full access, apart from the hooked pages. */
  ghost predicate Idle(s: Ept) {
    && Valid(s)
    && AllActive(s.hooks)
    && forall page: nat | page < PAGE_COUNT :: PageIdle(s, page)
  }

  /** What adding a hook does to the tables and to every page, hooked or not, in any state. */
  lemma AddHookEffect(s: Ept, origPfn: nat, hookPfn: nat)
    requires Valid(s)
    ensures var s', orig := AddHookState(s, origPfn, hookPfn), PageOfPfn(origPfn);
            && Valid(s')
            && (CanAddHook(s, origPfn) ==>
                  && orig < PAGE_COUNT && |s'.hooks| == |s.hooks| + 1
                  && s'.hooks == s.hooks + [Hook(orig, hookPfn % PFN32, s'.hooks[|s.hooks|].pte)]
                  && s'.hooks[|s.hooks|].pte.Some?
                  && Translate(s', orig) == Translate(s, orig).(perm := Translate(s, orig).perm.(execute := false))
                  && forall q: nat | q < PAGE_COUNT && q != orig :: Translate(s', q) == Translate(s, q))
            && (!CanAddHook(s, origPfn) ==>
                  s'.hooks == s.hooks && forall q: nat | q < PAGE_COUNT :: Translate(s', q) == Translate(s, q))
  {
    GetPteEffect(s, PageOfPfn(origPfn), true);
    if CanAddHook(s, origPfn) {
      var t, orig := GetPteState(s, PageOfPfn(origPfn), true), PageOfPfn(origPfn);
      TruncatedPfn(origPfn);
      var slot := Slot(t, orig);
      var leaf := t.ptes[slot].(perm := t.ptes[slot].perm.(execute := false));
      SetPteEffect(t, orig, leaf);
      assert Translate(t, orig) == t.ptes[slot];
      AppendHook(SetPte(t, slot, leaf), Hook(orig, hookPfn % PFN32, Some(slot)));
    }
  }

  lemma AddHookKeepsIdle(s: Ept, origPfn: nat, hookPfn: nat)
    requires Idle(s)
    ensures var s' := AddHookState(s, origPfn, hookPfn);
            && Idle(s')
            && (CanAddHook(s, origPfn) ==>
                  var orig := PageOfPfn(origPfn);
                  && |s'.hooks| == |s.hooks| + 1
                  && !Translate(s', orig).perm.execute
                  && (FirstHook(s.hooks, orig).None? ==>
                       FirstHook(s'.hooks, orig) == Some(|s.hooks|) && s'.hooks[|s.hooks|].hook == hookPfn % PFN32)
                  && forall q: nat | q < PAGE_COUNT && q != orig :: Translate(s', q) == Translate(s, q))
            && (!CanAddHook(s, origPfn) ==>
                  s'.hooks == s.hooks && forall q: nat | q < PAGE_COUNT :: Translate(s', q) == Translate(s, q))
  {
    AddHookEffect(s, origPfn, hookPfn);
    var s' := AddHookState(s, origPfn, hookPfn);
    if CanAddHook(s, origPfn) {
      FirstHookAppend(s.hooks, s'.hooks[|s.hooks|], PageOfPfn(origPfn));
    }
    forall page: nat | page < PAGE_COUNT
      ensures PageIdle(s', page)
    {
      assert PageIdle(s, page);
      if CanAddHook(s, origPfn) {
        FirstHookAppend(s.hooks, s'.hooks[|s.hooks|], page);
      }
    }
  }

  lemma AppendHook(t: Ept, h: Hook)
    requires Valid(t) && |t.hooks| < MAX_HOOKS && HookSlotOk(t.pdes, h)
    ensures var s' := t.(hooks := t.hooks + [h]);
            Valid(s') && forall q: nat | q < PAGE_COUNT :: Translate(s', q) == Translate(t, q)
  {
    var s' := t.(hooks := t.hooks + [h]);
    forall i | 0 <= i < |s'.hooks|
      ensures HookSlotOk(s'.pdes, s'.hooks[i])
    {
      assert i < |t.hooks| ==> HookSlotOk(t.pdes, t.hooks[i]);
    }
  }

  /** Writes the entry of hook `i` and records whether the hook is active afterwards. */
  function UpdateHooked(s: Ept, i: nat, leaf: Leaf, active: bool): Ept
    requires Valid(s) && i < |s.hooks|
  {
    assert HookSlotOk(s.pdes, s.hooks[i]);
    var slot := Slot(s, s.hooks[i].orig);
    SetPte(s, slot, leaf).(hooks := s.hooks[i := s.hooks[i].(pte := if active then Some(slot) else None)])
  }

  lemma UpdateHookedEffect(s: Ept, i: nat, leaf: Leaf, active: bool)
    requires Valid(s) && i < |s.hooks|
    ensures var s' := UpdateHooked(s, i, leaf, active);
            && s.hooks[i].orig < PAGE_COUNT
            && Valid(s') && s'.pdes == s.pdes && s'.used == s.used && |s'.hooks| == |s.hooks|
            && Translate(s', s.hooks[i].orig) == leaf
            && forall q: nat | q < PAGE_COUNT && q != s.hooks[i].orig :: Translate(s', q) == Translate(s, q)
  {
    assert HookSlotOk(s.pdes, s.hooks[i]);
    SetPteEffect(s, s.hooks[i].orig, leaf);
    var s' := UpdateHooked(s, i, leaf, active);
    forall j | 0 <= j < |s'.hooks|
      ensures HookSlotOk(s'.pdes, s'.hooks[j])
    {
      assert HookSlotOk(s.pdes, s.hooks[j]);
    }
    var u := SetPte(s, Slot(s, s.hooks[i].orig), leaf);
    forall q: nat | q < PAGE_COUNT
      ensures Translate(s', q) == Translate(u, q)
    {
    }
  }

  /** The entry of a hook as the tables hold it; its directory entry takes nothing away. */
  function HookedLeaf(s: Ept, i: nat): (leaf: Leaf)
    requires Valid(s) && i < |s.hooks|
    ensures s.hooks[i].orig < PAGE_COUNT && leaf == Translate(s, s.hooks[i].orig)
  {
    assert HookSlotOk(s.pdes, s.hooks[i]);
    assert s.pdes[s.hooks[i].orig / 512].perm == RWX;
    s.ptes[Slot(s, s.hooks[i].orig)]
  }

  function DeactivateHook(s: Ept, i: nat): (t: Ept)
    requires Valid(s) && i < |s.hooks|
    ensures Valid(t) && t.pdes == s.pdes && t.used == s.used
    ensures t.hooks == s.hooks[i := s.hooks[i].(pte := None)]
  {
    var h := s.hooks[i];
    if h.pte.None? then
      s
    else
      var leaf := HookedLeaf(s, i).(perm := RWX, frame := h.orig);
      UpdateHookedEffect(s, i, leaf, false);
      UpdateHooked(s, i, leaf, false)
  }

  /** Restores the original frame and full access of the first `n` hooks, marking each inactive. */
  function DeactivateHooks(s: Ept, n: nat): (t: Ept)
    requires Valid(s) && n <= |s.hooks|
    ensures Valid(t) && t.pdes == s.pdes && t.used == s.used && |t.hooks| == |s.hooks|
    ensures forall i | 0 <= i < n :: t.hooks[i] == s.hooks[i].(pte := None)
    ensures forall i | n <= i < |s.hooks| :: t.hooks[i] == s.hooks[i]
  {
    if n == 0 then s else DeactivateHook(DeactivateHooks(s, n - 1), n - 1)
  }

  /** Whether one of the first `n` hooks is for the page and is active, or inactive. */
  predicate HookedBy(hooks: seq<Hook>, n: nat, page: nat, active: bool)
    requires n <= |hooks|
  {
    n > 0 && (HookedBy(hooks, n - 1, page, active) || (hooks[n - 1].orig == page && hooks[n - 1].pte.Some? == active))
  }

  lemma {:induction false} HookedByFirst(hooks: seq<Hook>, n: nat, page: nat, active: bool)
    requires n <= |hooks| && forall i | 0 <= i < n :: hooks[i].pte.Some? == active
    ensures HookedBy(hooks, n, page, active) <==> exists i :: 0 <= i < n && hooks[i].orig == page
    ensures !HookedBy(hooks, n, page, !active)
  {
    if n > 0 {
      HookedByFirst(hooks, n - 1, page, active);
    }
  }

  lemma {:induction false} DeactivateHooksEffect(s: Ept, n: nat, page: nat)
    requires Valid(s) && n <= |s.hooks| && page < PAGE_COUNT
    ensures Translate(DeactivateHooks(s, n), page) ==
            if HookedBy(s.hooks, n, page, true) then Translate(s, page).(perm := RWX, frame := page)
            else Translate(s, page)
  {
    if n > 0 {
      DeactivateHooksEffect(s, n - 1, page);
      var t := DeactivateHooks(s, n - 1);
      if t.hooks[n - 1].pte.Some? {
        UpdateHookedEffect(t, n - 1, HookedLeaf(t, n - 1).(perm := RWX, frame := t.hooks[n - 1].orig), false);
      }
    }
  }

  function ArmedLeaf(leaf: Leaf, orig: nat): Leaf {
    leaf.(frame := orig, perm := leaf.perm.(execute := false))
  }

  function ReactivateHook(s: Ept, i: nat): (t: Ept)
    requires Valid(s) && i < |s.hooks|
    ensures Valid(t) && t.pdes == s.pdes && t.used == s.used && |t.hooks| == |s.hooks|
    ensures t.hooks[i].pte.Some? && t.hooks[i].orig == s.hooks[i].orig && t.hooks[i].hook == s.hooks[i].hook
    ensures forall j | 0 <= j < |s.hooks| && j != i :: t.hooks[j] == s.hooks[j]
  {
    var h := s.hooks[i];
    if h.pte.Some? then
      s
    else
      var leaf := ArmedLeaf(HookedLeaf(s, i), h.orig);
      UpdateHookedEffect(s, i, leaf, true);
      UpdateHooked(s, i, leaf, true)
  }

  /** Looks up the entry of each of the first `n` inactive hooks again, without splitting, and arms it. */
  function ReactivateHooks(s: Ept, n: nat): (t: Ept)
    requires Valid(s) && n <= |s.hooks|
    ensures Valid(t) && t.pdes == s.pdes && t.used == s.used && |t.hooks| == |s.hooks|
    ensures forall i | n <= i < |s.hooks| :: t.hooks[i] == s.hooks[i]
  {
    if n == 0 then s else ReactivateHook(ReactivateHooks(s, n - 1), n - 1)
  }

  /** Splits are never undone, so the non-splitting lookup of a hooked page always succeeds. */
  lemma RelookupSucceeds(s: Ept, i: nat)
    requires Valid(s) && i < |s.hooks|
    ensures CanGetPte(s, s.hooks[i].orig, false)
  {
    assert HookSlotOk(s.pdes, s.hooks[i]);
  }

  lemma {:induction false} ReactivatedHook(s: Ept, n: nat, i: nat)
    requires Valid(s) && n <= |s.hooks| && i < |s.hooks|
    ensures var t := ReactivateHooks(s, n);
            && (i < n ==> t.hooks[i].pte.Some?)
            && t.hooks[i].orig == s.hooks[i].orig && t.hooks[i].hook == s.hooks[i].hook
  {
    if n > 0 {
      ReactivatedHook(s, n - 1, i);
    }
  }

  /** No hook is lost: after reactivation each of the first `n` is active, with the frames it had. */
  lemma ReactivateHooksLosesNone(s: Ept, n: nat)
    requires Valid(s) && n <= |s.hooks|
    ensures var t := ReactivateHooks(s, n);
            && (forall i | 0 <= i < n :: t.hooks[i].pte.Some?)
            && (forall i | 0 <= i < |s.hooks| ::
                 t.hooks[i].orig == s.hooks[i].orig && t.hooks[i].hook == s.hooks[i].hook)
  {
    var t := ReactivateHooks(s, n);
    forall i | 0 <= i < |s.hooks|
      ensures i < n ==> t.hooks[i].pte.Some?
      ensures t.hooks[i].orig == s.hooks[i].orig && t.hooks[i].hook == s.hooks[i].hook
    {
      ReactivatedHook(s, n, i);
    }
  }

  function ArmedIf(hooked: bool, leaf: Leaf, page: nat): Leaf {
    if hooked then ArmedLeaf(leaf, page) else leaf
  }

  lemma ReactivateHookEffect(s: Ept, i: nat, page: nat)
    requires Valid(s) && i < |s.hooks| && page < PAGE_COUNT
    ensures Translate(ReactivateHook(s, i), page) ==
            ArmedIf(s.hooks[i].orig == page && s.hooks[i].pte.None?, Translate(s, page), page)
  {
    UpdateHookedEffect(s, i, ArmedLeaf(HookedLeaf(s, i), s.hooks[i].orig), true);
  }

  /** What arming the first `n` inactive hooks, one after the other, makes of one page's leaf. */
  function ArmedAfter(hooks: seq<Hook>, n: nat, leaf: Leaf, page: nat): Leaf
    requires n <= |hooks|
  {
    if n == 0 then leaf
    else ArmedIf(hooks[n - 1].orig == page && hooks[n - 1].pte.None?, ArmedAfter(hooks, n - 1, leaf, page), page)
  }

  /** Arming twice is arming once. */
  lemma {:induction false} ArmedOnce(hooks: seq<Hook>, n: nat, leaf: Leaf, page: nat)
    requires n <= |hooks|
    ensures ArmedAfter(hooks, n, leaf, page) == ArmedIf(HookedBy(hooks, n, page, false), leaf, page)
  {
    if n > 0 {
      ArmedOnce(hooks, n - 1, leaf, page);
    }
  }

  predicate LeafArmed(s: Ept, n: nat, page: nat)
    requires Valid(s) && n <= |s.hooks| && page < PAGE_COUNT
  {
    Translate(ReactivateHooks(s, n), page) == ArmedAfter(s.hooks, n, Translate(s, page), page)
  }

  lemma LeafArmedStart(s: Ept, page: nat)
    requires Valid(s) && page < PAGE_COUNT
    ensures LeafArmed(s, 0, page)
  {
  }

  lemma LeafArmedStep(s: Ept, n: nat, page: nat)
    requires Valid(s) && n < |s.hooks| && page < PAGE_COUNT && LeafArmed(s, n, page)
    ensures LeafArmed(s, n + 1, page)
  {
    ReactivateHookEffect(ReactivateHooks(s, n), n, page);
  }

  lemma LeafArmedAlways(s: Ept, page: nat)
    requires Valid(s) && page < PAGE_COUNT
    ensures forall n: nat | n <= |s.hooks| :: LeafArmed(s, n, page)
  {
    LeafArmedStart(s, page);
    for n := 0 to |s.hooks|
      invariant forall m: nat | m <= n :: LeafArmed(s, m, page)
    {
      LeafArmedStep(s, n, page);
    }
  }

  lemma ReactivateHooksEffect(s: Ept, n: nat, page: nat)
    requires Valid(s) && n <= |s.hooks| && page < PAGE_COUNT
    ensures Translate(ReactivateHooks(s, n), page) ==
            ArmedIf(HookedBy(s.hooks, n, page, false), Translate(s, page), page)
  {
    LeafArmedAlways(s, page);
    assert LeafArmed(s, n, page);
    ArmedOnce(s.hooks, n, Translate(s, page), page);
  }

  /** A fault on a page whose first hook is active swaps the entry to the frame that access may see. */
  function SwapHook(s: Ept, i: nat, execute: bool): Ept
    requires Valid(s) && i < |s.hooks| && s.hooks[i].pte.Some?
  {
    var h := s.hooks[i];
    var slot := h.pte.value;
    assert HookSlotOk(s.pdes, h);
    SetPte(s, slot,
           if execute then s.ptes[slot].(perm := Perm(false, false, true), frame := h.hook)
           else s.ptes[slot].(perm := RW, frame := h.orig))
  }

  /** What the swap writes, whatever state the other pages are in. */
  lemma SwapHookWrites(s: Ept, page: nat, execute: bool)
    requires Valid(s) && page < PAGE_COUNT && FirstHook(s.hooks, page).Some? &&
             s.hooks[FirstHook(s.hooks, page).value].pte.Some?
    ensures var i := FirstHook(s.hooks, page).value;
            var s' := SwapHook(s, i, execute);
            && Valid(s') && s'.pdes == s.pdes && s'.used == s.used && s'.hooks == s.hooks
            && Translate(s', page).perm == (if execute then Perm(false, false, true) else RW)
            && Translate(s', page).frame == (if execute then s.hooks[i].hook else page)
            && forall q: nat | q < PAGE_COUNT && q != page :: Translate(s', q) == Translate(s, q)
  {
    var i := FirstHook(s.hooks, page).value;
    var h := s.hooks[i];
    assert HookSlotOk(s.pdes, h);
    var slot := h.pte.value;
    SetPteEffect(s, page,
                 if execute then s.ptes[slot].(perm := Perm(false, false, true), frame := h.hook)
                 else s.ptes[slot].(perm := RW, frame := h.orig));
  }

  /** The swap keeps the shadow-page property, permits the faulting access and touches no other page. */
  lemma SwapHookEffect(s: Ept, page: nat, execute: bool)
    requires Idle(s) && page < PAGE_COUNT && FirstHook(s.hooks, page).Some?
    ensures var s' := SwapHook(s, FirstHook(s.hooks, page).value, execute);
            && Idle(s')
            && (if execute then Translate(s', page).perm.execute else Translate(s', page).perm == RW)
            && forall q: nat | q < PAGE_COUNT && q != page :: Translate(s', q) == Translate(s, q)
  {
    SwapHookWrites(s, page, execute);
    var s' := SwapHook(s, FirstHook(s.hooks, page).value, execute);
    forall q: nat | q < PAGE_COUNT
      ensures PageIdle(s', q)
    {
      assert PageIdle(s, q);
    }
  }
}
