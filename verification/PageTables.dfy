/**
 Four-level page tables (section 5.5 of the Intel SDM Vol. 3A) and the walks the code makes through them.
 Addresses are unbounded naturals; the indices only look at bits 0 to 47, so wrap-around at 2^64 is covered.
 */
module PageTables {
  import opened Common

  /** A table entry: `pfn` is bits 12 and up in 4 KB units, `bits` all remaining flag bits. */
  datatype Entry = Entry(present: bool, large: bool, pfn: nat, bits: nat)

  const NOT_PRESENT := Entry(false, false, 0, 0)

  /** Table frames by frame number. */
  type Tables = map<nat, seq<Entry>>

  /** 1 is the page table, 2 the directory, 3 the directory-pointer table, 4 the root. */
  type Level = n: nat | 1 <= n <= 4 witness 1

  const SIZE_4K: nat := 0x1000
  const SIZE_2M: nat := 0x20_0000
  const SIZE_1G: nat := 0x4000_0000
  const SIZE_512G: nat := 0x80_0000_0000

  /** The bytes one entry of the level covers. */
  function Size(level: Level): (s: nat)
    ensures s > 0
  {
    match level case 1 => SIZE_4K case 2 => SIZE_2M case 3 => SIZE_1G case _ => SIZE_512G
  }

  function Index(va: nat, level: Level): (i: nat)
    ensures i < 512
  {
    va / Size(level) % 512
  }

  function EntryAt(t: Tables, frame: nat, index: nat): Entry {
    if frame in t && index < |t[frame]| then t[frame][index] else NOT_PRESENT
  }

  /** Where a walk ends: the leaf entry and its level. */
  datatype Leaf = Leaf(entry: Entry, level: Level)

  predicate IsLeaf(e: Entry, level: Level) {
    level == 1 || (level <= 3 && e.large)
  }

  function Walk(t: Tables, frame: nat, level: Level, va: nat): (r: Option<Leaf>)
    ensures r.Some? ==> r.value.level <= level && r.value.level <= 3
    decreases level
  {
    var e := EntryAt(t, frame, Index(va, level));
    if !e.present then None
    else if IsLeaf(e, level) then Some(Leaf(e, level))
    else Walk(t, e.pfn, level - 1, va)
  }

  // ----- Addresses under one entry -----

  predicate SameEntry(a: nat, b: nat, level: Level) {
    a / Size(level) == b / Size(level)
  }

  lemma SameEntryAbove(a: nat, b: nat, level: Level, above: Level)
    requires level <= above && SameEntry(a, b, level)
    ensures SameEntry(a, b, above)
  {
    QuotientsNest(a);
    QuotientsNest(b);
  }

  lemma QuotientsNest(a: nat)
    ensures a / SIZE_2M == a / SIZE_4K / 512
    ensures a / SIZE_1G == a / SIZE_2M / 512
    ensures a / SIZE_512G == a / SIZE_1G / 512
  {
  }

  /** The walk sees nothing of an address below the size of the leaf it ends at. */
  lemma {:induction false} WalkSameEntry(t: Tables, frame: nat, level: Level, a: nat, b: nat)
    requires Walk(t, frame, level, a).Some? && SameEntry(a, b, Walk(t, frame, level, a).value.level)
    ensures Walk(t, frame, level, b) == Walk(t, frame, level, a)
    decreases level
  {
    SameEntryAbove(a, b, Walk(t, frame, level, a).value.level, level);
    var e := EntryAt(t, frame, Index(a, level));
    if !IsLeaf(e, level) {
      WalkSameEntry(t, e.pfn, level - 1, a, b);
    }
  }

  // ----- Translation -----

  /** The address a leaf maps `va` to; low frame bits of a large leaf are flag bits and do not count. */
  function Target(leaf: Leaf, va: nat): nat {
    FrameBase(leaf.entry.pfn, leaf.level) + va % Size(leaf.level)
  }

  function FrameBase(pfn: nat, level: Level): nat {
    match level
    case 1 => pfn * SIZE_4K
    case 2 => pfn / 512 * SIZE_2M
    case _ => pfn / 0x4_0000 * SIZE_1G
  }

  /** Zero means that the address is not translated, or that it is translated to zero. */
  function GvaToGpa(t: Tables, root: nat, va: nat): nat {
    match Walk(t, root, 4, va)
    case None => 0
    case Some(leaf) => Target(leaf, va)
  }

  function ToNextPage(t: Tables, root: nat, va: nat): nat {
    match Walk(t, root, 4, va)
    case None => 0
    case Some(leaf) => Size(leaf.level) - va % Size(leaf.level)
  }

  method TranslateGva(t: Tables, root: nat, va: nat) returns (gpa: nat, toNextPage: nat)
    ensures gpa == GvaToGpa(t, root, va)
    ensures toNextPage == ToNextPage(t, root, va)
    ensures var pml4e := EntryAt(t, root, va / 0x80_0000_0000 % 512);
            var pdpte := EntryAt(t, pml4e.pfn, va / 0x4000_0000 % 512);
            var pde := EntryAt(t, pdpte.pfn, va / 0x20_0000 % 512);
            var pte := EntryAt(t, pde.pfn, va / 0x1000 % 512);
            if !pml4e.present || !pdpte.present then
              gpa == toNextPage == 0
            else if pdpte.large then
              && gpa == pdpte.pfn / 0x4_0000 * 0x4000_0000 + va % 0x4000_0000
              && toNextPage == 0x4000_0000 - va % 0x4000_0000
            else if !pde.present then
              gpa == toNextPage == 0
            else if pde.large then
              gpa == pde.pfn / 512 * 0x20_0000 + va % 0x20_0000 && toNextPage == 0x20_0000 - va % 0x20_0000
            else if !pte.present then
              gpa == toNextPage == 0
            else
              gpa == pte.pfn * 0x1000 + va % 0x1000 && toNextPage == 0x1000 - va % 0x1000
  {
    var offset, ptIndex, pdIndex := va % SIZE_4K, va / SIZE_4K % 512, va / SIZE_2M % 512;
    var pdptIndex, pml4Index := va / SIZE_1G % 512, va / SIZE_512G % 512;
    OffsetsNest(va);

    var pml4e := EntryAt(t, root, pml4Index);
    if !pml4e.present {
      return 0, 0;
    }
    assert Walk(t, root, 4, va) == Walk(t, pml4e.pfn, 3, va);
    var pdpte := EntryAt(t, pml4e.pfn, pdptIndex);
    if !pdpte.present {
      return 0, 0;
    }
    if pdpte.large {
      var inPage := pdIndex * SIZE_2M + ptIndex * SIZE_4K + offset;
      assert Walk(t, root, 4, va) == Some(Leaf(pdpte, 3));
      return pdpte.pfn / 0x4_0000 * SIZE_1G + inPage, SIZE_1G - inPage;
    }
    assert Walk(t, root, 4, va) == Walk(t, pdpte.pfn, 2, va);
    var pde := EntryAt(t, pdpte.pfn, pdIndex);
    if !pde.present {
      return 0, 0;
    }
    if pde.large {
      var inPage := ptIndex * SIZE_4K + offset;
      assert Walk(t, root, 4, va) == Some(Leaf(pde, 2));
      return pde.pfn / 512 * SIZE_2M + inPage, SIZE_2M - inPage;
    }
    assert Walk(t, root, 4, va) == Walk(t, pde.pfn, 1, va);
    var pte := EntryAt(t, pde.pfn, ptIndex);
    if !pte.present {
      return 0, 0;
    }
    return pte.pfn * SIZE_4K + offset, SIZE_4K - offset;
  }

  lemma OffsetsNest(va: nat)
    ensures va % SIZE_2M == va / SIZE_4K % 512 * SIZE_4K + va % SIZE_4K
    ensures va % SIZE_1G == va / SIZE_2M % 512 * SIZE_2M + va % SIZE_2M
  {
    QuotientsNest(va);
    var a, b, c := va / SIZE_4K, va / SIZE_2M, va / SIZE_1G;
    assert va == a * SIZE_4K + va % SIZE_4K && va == b * SIZE_2M + va % SIZE_2M && va == c * SIZE_1G + va % SIZE_1G;
    assert a == b * 512 + a % 512 && b == c * 512 + b % 512;
  }

  /**
   Translation is contiguous over the whole reported span, at all three page sizes, and the span is the
   rest of the page: at least one byte, and ending on a page boundary.
   */
  lemma TranslationContiguous(t: Tables, root: nat, va: nat, k: nat)
    requires GvaToGpa(t, root, va) != 0 && k < ToNextPage(t, root, va)
    ensures GvaToGpa(t, root, va + k) == GvaToGpa(t, root, va) + k
    ensures ToNextPage(t, root, va + k) == ToNextPage(t, root, va) - k
  {
    var leaf := Walk(t, root, 4, va).value;
    WithinPage(va, k, leaf.level);
    WalkSameEntry(t, root, 4, va, va + k);
  }

  lemma WithinPage(va: nat, k: nat, level: Level)
    requires va % Size(level) + k < Size(level)
    ensures SameEntry(va, va + k, level) && (va + k) % Size(level) == va % Size(level) + k
  {
    match level {
      case 1 => assert va == va / SIZE_4K * SIZE_4K + va % SIZE_4K;
      case 2 => assert va == va / SIZE_2M * SIZE_2M + va % SIZE_2M;
      case 3 => assert va == va / SIZE_1G * SIZE_1G + va % SIZE_1G;
      case _ => assert va == va / SIZE_512G * SIZE_512G + va % SIZE_512G;
    }
  }
}
