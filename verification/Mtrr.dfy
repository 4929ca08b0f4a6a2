/**
 Memory type range registers: the type of one physical address, and the combined type of a range.
 The type of an address follows section 13.11 of the Intel SDM Vol. 3A, except where equal types overlap.
 */
module Mtrr {
  import opened Common

  const UC: nat := 0
  const WC: nat := 1
  const WT: nat := 4
  const WP: nat := 5
  const WB: nat := 6
  // Marks "no variable range matched yet"; no register can hold it.
  const INVALID: nat := 0xFF

  const FIX64K_SIZE: nat := 0x10000
  const FIX16K_BASE: nat := 0x80000
  const FIX16K_SIZE: nat := 0x4000
  const FIX4K_BASE: nat := 0xC0000
  const FIX4K_SIZE: nat := 0x1000
  const FIX_COUNT: nat := 88

  datatype VariableRange = VariableRange(valid: bool, basePfn: nat, maskPfn: nat, memoryType: nat)

  datatype MtrrState = MtrrState(
    enabled: bool, defaultType: nat,
    fixedSupported: bool, fixedEnabled: bool, fixedTypes: seq<nat>,
    variable: seq<VariableRange>)
  {
    predicate Valid() {
      && |fixedTypes| == FIX_COUNT
      && forall i | 0 <= i < |variable| :: variable[i].memoryType != INVALID
    }
  }

  // ----- One address -----

  predicate Matches(v: VariableRange, address: nat) {
    var mask := ShiftLeft(v.maskPfn, 12);
    v.valid && And(address, mask) == And(ShiftLeft(v.basePfn, 12), mask)
  }

  /** The types of the variable ranges that contain `address`, in register order. */
  function MatchingTypes(ranges: seq<VariableRange>, address: nat): (types: seq<nat>)
    ensures forall t | t in types :: exists v | v in ranges :: v.memoryType == t
  {
    if ranges == [] then
      []
    else
      var last := ranges[|ranges| - 1];
      MatchingTypes(ranges[..|ranges| - 1], address) + if Matches(last, address) then [last.memoryType] else []
  }

  /** The rule for two ranges that overlap. */
  function Overlap(t: nat, u: nat): nat {
    if t == UC || u == UC then UC
    else if (t == WT && u == WB) || (t == WB && u == WT) then WT
    else UC
  }

  /** What remains after the overlapping ranges have been taken in register order. */
  function Accumulate(types: seq<nat>): nat {
    if types == [] then
      INVALID
    else
      var rest, last := Accumulate(types[..|types| - 1]), types[|types| - 1];
      if rest == INVALID then last else Overlap(last, rest)
  }

  predicate UsesFixed(s: MtrrState, address: nat) {
    address < 0x100000 && s.fixedSupported && s.fixedEnabled
  }

  function FixedIndex(address: nat): (i: nat)
    requires address < 0x100000
    ensures i < FIX_COUNT
  {
    if address < 0x80000 then address / FIX64K_SIZE
    else if address < 0xC0000 then 8 + (address - FIX16K_BASE) / FIX16K_SIZE
    else 24 + (address - FIX4K_BASE) / FIX4K_SIZE
  }

  function VariableType(types: seq<nat>, defaultType: nat): nat {
    var t := Accumulate(types);
    if t != INVALID then t else defaultType
  }

  function SingleType(s: MtrrState, address: nat): nat
    requires s.Valid()
  {
    if !s.enabled then UC
    else if UsesFixed(s, address) then s.fixedTypes[FixedIndex(address)]
    else VariableType(MatchingTypes(s.variable, address), s.defaultType)
  }

  method GetMtrrMemoryTypeSingle(s: MtrrState, address: nat) returns (t: nat)
    requires s.Valid()
    ensures t == SingleType(s, address)
  {
    if !s.enabled {
      return UC;
    }
    if address < 0x100000 && s.fixedSupported && s.fixedEnabled {
      if address < 0x80000 {
        return s.fixedTypes[address / FIX64K_SIZE];
      } else if address < 0xC0000 {
        return s.fixedTypes[8 + (address - FIX16K_BASE) / FIX16K_SIZE];
      } else {
        return s.fixedTypes[24 + (address - FIX4K_BASE) / FIX4K_SIZE];
      }
    }
    var final := INVALID;
    var i := 0;
    while i < |s.variable|
      invariant 0 <= i <= |s.variable|
      invariant final == TypeSoFar(s.variable, i, address)
    {
      var v := s.variable[i];
      TypeStep(s.variable, i, address);
      i := i + 1;
      if !v.valid {
        continue;
      }
      var rangeMask, rangeBase := ShiftLeft(v.maskPfn, 12), ShiftLeft(v.basePfn, 12);
      if And(address, rangeMask) != And(rangeBase, rangeMask) {
        continue;
      }
      var t := v.memoryType;
      if final == INVALID {
        final := t;
        continue;
      }
      if t == UC || final == UC {
        final := UC;
      } else if (t == WT && final == WB) || (t == WB && final == WT) {
        final := WT;
      } else {
        final := UC;
      }
    }
    assert s.variable[..i] == s.variable;
    t := if final != INVALID then final else s.defaultType;
  }

  /** The combined type of the first `n` ranges. */
  function TypeSoFar(ranges: seq<VariableRange>, n: nat, address: nat): nat
    requires n <= |ranges|
  {
    Accumulate(MatchingTypes(ranges[..n], address))
  }

  lemma TypeStep(ranges: seq<VariableRange>, n: nat, address: nat)
    requires n < |ranges|
    ensures var before, t := TypeSoFar(ranges, n, address), ranges[n].memoryType;
            TypeSoFar(ranges, n + 1, address) ==
            if !Matches(ranges[n], address) then before else if before == INVALID then t else Overlap(t, before)
  {
    var before := MatchingTypes(ranges[..n], address);
    assert ranges[..n + 1][..n] == ranges[..n];
    assert (before + [ranges[n].memoryType])[..|before|] == before;
    assert before + [] == before;
  }

  /** The answer of section 13.11.4.1 of the Intel SDM Vol. 3A; None where it leaves the overlap undefined. */
  function SdmType(types: seq<nat>, defaultType: nat): Option<nat> {
    if types == [] then Some(defaultType)
    else if forall t | t in types :: t == types[0] then Some(types[0])
    else if UC in types then Some(UC)
    else if forall t | t in types :: t == WT || t == WB then Some(WT)
    else None
  }

  /** The first two types are WT and WB in some order, and every later one is WB. */
  predicate MixedThenWriteBack(types: seq<nat>) {
    && |types| >= 2
    && ((types[0] == WT && types[1] == WB) || (types[0] == WB && types[1] == WT))
    && forall i | 2 <= i < |types| :: types[i] == WB
  }

  lemma {:induction false} AccumulateShape(types: seq<nat>)
    requires INVALID !in types && |types| >= 2
    ensures Accumulate(types) == if MixedThenWriteBack(types) then WT else UC
  {
    var n := |types| - 1;
    var rest := types[..n];
    assert types == rest + [types[n]];
    if n == 1 {
      assert rest[..0] == [];
      assert Accumulate(rest) == types[0];
    } else {
      AccumulateShape(rest);
      assert MixedThenWriteBack(types) <==> MixedThenWriteBack(rest) && types[n] == WB;
    }
  }

  /**
   Where the SDM defines the type, the code gives that type exactly when at most one range matches, one of
   them is UC, or the WT/WB mix comes first and is followed by WB only; otherwise it gives UC.
   */
  lemma SingleTypeVersusSdm(types: seq<nat>, defaultType: nat)
    requires INVALID !in types
    ensures var sdm := SdmType(types, defaultType);
            var code := VariableType(types, defaultType);
            && (sdm.Some? ==>
                  && (code == sdm.value <==> |types| <= 1 || UC in types || MixedThenWriteBack(types))
                  && (code == sdm.value || code == UC))
            && (sdm.None? ==> code == UC)
  {
    if |types| == 1 {
      assert types[..0] == [];
      assert types[0] in types;
    } else if |types| >= 2 {
      AccumulateShape(types);
      if forall t | t in types :: t == types[0] {
        assert types[0] in types && types[1] in types;
      } else if MixedThenWriteBack(types) {
        assert forall t | t in types :: t == WT || t == WB;
      }
    }
  }

  /** Two overlapping write-back ranges: the SDM says WB, the code says UC. */
  lemma EqualOverlapBecomesUncacheable()
    ensures SdmType([WB, WB], WB) == Some(WB) && VariableType([WB, WB], WB) == UC
  {
    AccumulateShape([WB, WB]);
  }

  lemma {:induction false} MatchingTypesSamePage(ranges: seq<VariableRange>, a: nat, b: nat)
    requires a / PAGE_SIZE == b / PAGE_SIZE
    ensures MatchingTypes(ranges, a) == MatchingTypes(ranges, b)
  {
    if ranges != [] {
      var v := ranges[|ranges| - 1];
      MatchingTypesSamePage(ranges[..|ranges| - 1], a, b);
      AndShifted(a, v.maskPfn, 12);
      AndShifted(b, v.maskPfn, 12);
      ShiftRightPage(a);
      ShiftRightPage(b);
    }
  }

  /** A 4 KB page has one type: no register splits it. */
  lemma SingleTypeSamePage(s: MtrrState, a: nat, b: nat)
    requires s.Valid() && a / PAGE_SIZE == b / PAGE_SIZE
    ensures SingleType(s, a) == SingleType(s, b)
  {
    MatchingTypesSamePage(s.variable, a, b);
    if a < 0x100000 {
      assert a / FIX64K_SIZE == (a / PAGE_SIZE) / 16 && b / FIX64K_SIZE == (b / PAGE_SIZE) / 16;
      assert a / FIX16K_SIZE == (a / PAGE_SIZE) / 4 && b / FIX16K_SIZE == (b / PAGE_SIZE) / 4;
    }
  }

  // ----- What the registers cover -----

  /**
   A valid register with an aligned base and the mask of a power of two covers exactly the `2^k` pages from its
   base on; one that is not valid covers nothing. `w` is the width of a page number.
   */
  lemma {:induction false} RegisterCovers(v: VariableRange, w: nat, k: nat, address: nat)
    requires k <= w && address < Pow2(w) * 0x1000
    requires v.maskPfn + Pow2(k) == Pow2(w) && v.basePfn % Pow2(k) == 0 && v.basePfn < Pow2(w)
    ensures Matches(v, address) <==>
              v.valid && v.basePfn * 0x1000 <= address < (v.basePfn + Pow2(k)) * 0x1000
  {
    var size, page := Pow2(k), address / 0x1000;
    MatchesPages(v, address);
    MaskSelects(page, v.basePfn, v.maskPfn, w, k);
    assert v.basePfn <= page < v.basePfn + size <==> v.basePfn * 0x1000 <= address < (v.basePfn + size) * 0x1000;
  }

  lemma {:induction false} MatchesPages(v: VariableRange, address: nat)
    ensures Matches(v, address) <==> v.valid && And(address / 0x1000, v.maskPfn) == And(v.basePfn, v.maskPfn)
  {
    AndShifted(address, v.maskPfn, 12);
    AndShifted(ShiftLeft(v.basePfn, 12), v.maskPfn, 12);
    ShiftRightPage(address);
    ShiftLeftPage(v.basePfn);
    ShiftRightPage(v.basePfn * 0x1000);
    ShiftLeftPage(And(address / 0x1000, v.maskPfn));
    ShiftLeftPage(And(v.basePfn, v.maskPfn));
  }

  lemma {:induction false} MaskSelects(page: nat, base: nat, mask: nat, w: nat, k: nat)
    requires k <= w && page < Pow2(w) && base < Pow2(w) && mask + Pow2(k) == Pow2(w) && base % Pow2(k) == 0
    ensures And(page, mask) == And(base, mask) <==> base <= page < base + Pow2(k)
  {
    AndHighMask(page, base, mask, w, k);
    ShiftRightIsQuotient(page, k);
    ShiftRightIsQuotient(base, k);
    SameMultiple(page, base, Pow2(k));
  }

  lemma SameMultiple(page: nat, base: nat, size: nat)
    requires size > 0 && base % size == 0
    ensures page / size == base / size <==> base <= page < base + size
  {
    assert base == base / size * size + base % size;
    assert page == page / size * size + page % size;
    if base <= page < base + size {
      DivisionUnique(page, base / size, page - base, size);
    }
  }

  lemma {:induction false} MatchingTypesConcat(first: seq<VariableRange>, second: seq<VariableRange>, address: nat)
    ensures MatchingTypes(first + second, address) == MatchingTypes(first, address) + MatchingTypes(second, address)
  {
    if second == [] {
      assert first + second == first;
    } else {
      var n := |second| - 1;
      MatchingTypesConcat(first, second[..n], address);
      assert (first + second)[..|first + second| - 1] == first + second[..n];
    }
  }

  /** A register that does not cover the address, in particular one that is not valid, might as well not be there. */
  lemma {:induction false} OtherRegisterIgnored(s: MtrrState, i: nat, address: nat)
    requires s.Valid() && i < |s.variable|
    requires !s.variable[i].valid || !Matches(s.variable[i], address)
    ensures var rest := s.(variable := s.variable[..i] + s.variable[i + 1..]);
            rest.Valid() && SingleType(s, address) == SingleType(rest, address)
  {
    DropRegister(s.variable, i, address);
  }

  lemma {:induction false} DropRegister(ranges: seq<VariableRange>, i: nat, address: nat)
    requires i < |ranges| && !Matches(ranges[i], address)
    ensures MatchingTypes(ranges, address) == MatchingTypes(ranges[..i] + ranges[i + 1..], address)
  {
    var before, after := ranges[..i], ranges[i + 1..];
    assert ranges == before + ([ranges[i]] + after);
    MatchingTypesConcat(before, [ranges[i]] + after, address);
    MatchingTypesConcat([ranges[i]], after, address);
    MatchingTypesConcat(before, after, address);
    OneMatch(ranges[i], address);
  }

  lemma {:induction false} OneMatch(v: VariableRange, address: nat)
    ensures MatchingTypes([v], address) == if Matches(v, address) then [v.memoryType] else []
  {
    assert [v][..0] == [] && MatchingTypes([v][..0], address) == [];
  }

  /** With one register: its type on the addresses it covers, the default type on all others. */
  lemma {:induction false} OneRegister(s: MtrrState, w: nat, k: nat, address: nat)
    requires s.Valid() && s.enabled && |s.variable| == 1 && !(address < 0x10_0000 && s.fixedSupported && s.fixedEnabled)
    requires var v := s.variable[0];
             && k <= w && address < Pow2(w) * 0x1000
             && v.maskPfn + Pow2(k) == Pow2(w) && v.basePfn % Pow2(k) == 0 && v.basePfn < Pow2(w)
    ensures var v := s.variable[0];
            SingleType(s, address) ==
            if v.valid && v.basePfn * 0x1000 <= address < (v.basePfn + Pow2(k)) * 0x1000 then v.memoryType
            else s.defaultType
  {
    var v := s.variable[0];
    RegisterCovers(v, w, k, address);
    assert s.variable == [v];
    OneMatch(v, address);
    assert Accumulate([v.memoryType]) == v.memoryType by {
      assert [v.memoryType][..0] == [];
    }
  }

  /** The first address of the fixed range `k`, and its size. */
  function FixedStart(k: nat): nat {
    if k < 8 then k * 0x1_0000 else if k < 24 then 0x8_0000 + (k - 8) * 0x4000 else 0xC_0000 + (k - 24) * 0x1000
  }

  function FixedSize(k: nat): nat {
    if k < 8 then 0x1_0000 else if k < 24 then 0x4000 else 0x1000
  }

  /** Each fixed register gives its type to its interval, whatever the variable ones say. */
  lemma FixedRegion(s: MtrrState, k: nat, address: nat)
    requires s.Valid() && s.enabled && s.fixedSupported && s.fixedEnabled && k < 88
    requires FixedStart(k) <= address < FixedStart(k) + FixedSize(k)
    ensures SingleType(s, address) == s.fixedTypes[k]
  {
    if k < 8 {
      DivisionUnique(address, k, address - FixedStart(k), 0x1_0000);
    } else if k < 24 {
      DivisionUnique(address - 0x8_0000, k - 8, address - FixedStart(k), 0x4000);
    } else {
      DivisionUnique(address - 0xC_0000, k - 24, address - FixedStart(k), 0x1000);
    }
  }

  /** The fixed ranges leave no gap below 1 MB, so above it and without them the variable ones decide. */
  lemma FixedRegionsCover(s: MtrrState, address: nat) returns (k: nat)
    requires s.Valid()
    ensures address < 0x10_0000 ==> k < 88 && FixedStart(k) <= address < FixedStart(k) + FixedSize(k)
    ensures !s.enabled ==> SingleType(s, address) == 0
    ensures s.enabled && (address >= 0x10_0000 || !s.fixedSupported || !s.fixedEnabled) ==>
              SingleType(s, address) == VariableType(MatchingTypes(s.variable, address), s.defaultType)
  {
    k := if address < 0x10_0000 then FixedIndex(address) else 0;
  }

  // ----- A range -----

  /** The combined type of two parts of a range; unlike `Overlap` it keeps a shared type. */
  function Meet(t: nat, u: nat): nat {
    if t == u then t else Overlap(t, u)
  }

  predicate AtMost(t: nat, u: nat) {
    Meet(t, u) == t
  }

  function PageType(s: MtrrState, page: nat): nat
    requires s.Valid()
  {
    SingleType(s, page * PAGE_SIZE)
  }

  function MeetPages(s: MtrrState, first: nat, count: nat): nat
    requires s.Valid() && count > 0
  {
    if count == 1 then
      PageType(s, first)
    else
      Meet(MeetPages(s, first, count - 1), PageType(s, first + count - 1))
  }

  predicate UniformPages(s: MtrrState, first: nat, count: nat)
    requires s.Valid()
  {
    forall p | first <= p < first + count :: PageType(s, p) == PageType(s, first)
  }

  function PagesIn(address: nat, size: nat): (n: nat)
    ensures n > 0
  {
    if size == 0 then 1 else (address + size - 1) / PAGE_SIZE - address / PAGE_SIZE + 1
  }

  function RangeType(s: MtrrState, address: nat, size: nat): nat
    requires s.Valid()
  {
    MeetPages(s, address / PAGE_SIZE, PagesIn(address, size))
  }

  predicate RangeUniform(s: MtrrState, address: nat, size: nat)
    requires s.Valid()
  {
    UniformPages(s, address / PAGE_SIZE, PagesIn(address, size))
  }

  method GetMtrrRangeMemoryType(s: MtrrState, address: nat, size: nat) returns (result: nat, isUniform: bool)
    requires s.Valid()
    ensures result == RangeType(s, address, size)
    ensures isUniform == RangeUniform(s, address, size)
  {
    ghost var first := address / PAGE_SIZE;
    isUniform := true;
    var firstType := GetMtrrMemoryTypeSingle(s, address);
    SingleTypeSamePage(s, address, first * PAGE_SIZE);
    result := firstType;
    var end := address + size;
    var addr := address / PAGE_SIZE * PAGE_SIZE + PAGE_SIZE;
    ghost var done: nat := 1;
    while addr < end
      invariant AtPage(address, size, addr, done) && addr == (first + done) * PAGE_SIZE
      invariant RangeSoFar(s, first, done, result, isUniform)
      decreases end - addr
    {
      NextPage(address, size, addr, done);
      var t := GetMtrrMemoryTypeSingle(s, addr);
      RangeStep(s, first, done, result, isUniform, t);
      addr := addr + PAGE_SIZE;
      done := done + 1;
      if t == result {
        continue;
      }
      isUniform := false;
      if t == UC || result == UC {
        result := UC;
      } else if (t == WT && result == WB) || (t == WB && result == WT) {
        result := WT;
      } else {
        result := UC;
      }
    }
    NextPage(address, size, addr, done);
  }

  /** The loop stands at the page after the first `done` ones. */
  predicate AtPage(address: nat, size: nat, addr: nat, done: nat) {
    addr == (address / PAGE_SIZE + done) * PAGE_SIZE && 1 <= done <= PagesIn(address, size)
  }

  lemma NextPage(address: nat, size: nat, addr: nat, done: nat)
    requires AtPage(address, size, addr, done)
    ensures if addr < address + size then AtPage(address, size, addr + PAGE_SIZE, done + 1)
            else done == PagesIn(address, size)
  {
    PagesLeft(address, size, done);
  }

  /** The result and the verdict for the first `count` pages. */
  predicate RangeSoFar(s: MtrrState, first: nat, count: nat, result: nat, uniform: bool)
    requires s.Valid() && count > 0
  {
    && result == MeetPages(s, first, count)
    && uniform == UniformPages(s, first, count)
    && (uniform ==> result == PageType(s, first))
  }

  lemma RangeStep(s: MtrrState, first: nat, count: nat, result: nat, uniform: bool, t: nat)
    requires s.Valid() && count > 0 && RangeSoFar(s, first, count, result, uniform) && t == PageType(s, first + count)
    ensures RangeSoFar(s, first, count + 1, Meet(result, t), uniform && t == result)
  {
    UniformStep(s, first, count, uniform, t == result);
  }

  lemma PagesLeft(address: nat, size: nat, done: nat)
    requires done > 0
    ensures (address / PAGE_SIZE + done) * PAGE_SIZE < address + size <==> done < PagesIn(address, size)
  {
    if size > 0 {
      var last := (address + size - 1) / PAGE_SIZE;
      assert last * PAGE_SIZE <= address + size - 1 < (last + 1) * PAGE_SIZE;
    }
  }

  /** The verdict survives exactly a page whose type equals the combined type so far. */
  lemma UniformStep(s: MtrrState, first: nat, count: nat, uniform: bool, same: bool)
    requires s.Valid() && count > 0
    requires uniform == UniformPages(s, first, count)
    requires same == (PageType(s, first + count) == MeetPages(s, first, count))
    requires uniform ==> MeetPages(s, first, count) == PageType(s, first)
    ensures (uniform && same) == UniformPages(s, first, count + 1)
    ensures MeetPages(s, first, count + 1) == Meet(MeetPages(s, first, count), PageType(s, first + count))
  {
    if !uniform {
      var p :| first <= p < first + count && PageType(s, p) != PageType(s, first);
      assert first <= p < first + (count + 1);
    } else if !same {
      assert first <= first + count < first + (count + 1);
    }
  }

  /** The combined type composes over any cut of the range. */
  lemma {:induction false} RangeTypeCut(s: MtrrState, first: nat, m: nat, n: nat)
    requires s.Valid() && m > 0 && n > 0
    ensures MeetPages(s, first, m + n) == Meet(MeetPages(s, first, m), MeetPages(s, first + m, n))
  {
    if n > 1 {
      RangeTypeCut(s, first, m, n - 1);
    }
  }

  lemma {:induction false} MeetPagesIsGreatestLowerBound(s: MtrrState, first: nat, count: nat, bound: nat)
    requires s.Valid() && count > 0
    ensures AtMost(bound, MeetPages(s, first, count)) <==>
              forall p | first <= p < first + count :: AtMost(bound, PageType(s, p))
  {
    if count > 1 {
      MeetPagesIsGreatestLowerBound(s, first, count - 1, bound);
      var last := first + count - 1;
      assert AtMost(bound, Meet(MeetPages(s, first, count - 1), PageType(s, last)))
          <==> AtMost(bound, MeetPages(s, first, count - 1)) && AtMost(bound, PageType(s, last));
      if forall p | first <= p < first + count :: AtMost(bound, PageType(s, p)) {
        assert AtMost(bound, PageType(s, last));
      }
    }
  }

  predicate InRange(address: nat, size: nat, x: nat) {
    address <= x < address + size
  }

  lemma AddressOfPage(address: nat, size: nat, page: nat) returns (x: nat)
    requires size > 0
    requires address / PAGE_SIZE <= page < address / PAGE_SIZE + PagesIn(address, size)
    ensures InRange(address, size, x) && x / PAGE_SIZE == page
  {
    x := if page == address / PAGE_SIZE then address else page * PAGE_SIZE;
  }

  /** The range type is the meet of the types of all addresses of the range, at any alignment. */
  lemma RangeTypeIsMeetOfAddresses(s: MtrrState, address: nat, size: nat, bound: nat)
    requires s.Valid() && size > 0
    ensures AtMost(bound, RangeType(s, address, size)) <==>
              forall x: nat | InRange(address, size, x) :: AtMost(bound, SingleType(s, x))
  {
    var first, count := address / PAGE_SIZE, PagesIn(address, size);
    MeetPagesIsGreatestLowerBound(s, first, count, bound);
    forall x: nat | InRange(address, size, x)
      ensures first <= x / PAGE_SIZE < first + count && SingleType(s, x) == PageType(s, x / PAGE_SIZE)
    {
      SingleTypeSamePage(s, x, x / PAGE_SIZE * PAGE_SIZE);
    }
    if forall x: nat | InRange(address, size, x) :: AtMost(bound, SingleType(s, x)) {
      forall p | first <= p < first + count
        ensures AtMost(bound, PageType(s, p))
      {
        var x := AddressOfPage(address, size, p);
        assert SingleType(s, x) == PageType(s, p);
      }
    }
  }

  /** `isUniform` holds exactly when all addresses of the range share one type. */
  lemma RangeUniformIsAllAddresses(s: MtrrState, address: nat, size: nat)
    requires s.Valid() && size > 0
    ensures RangeUniform(s, address, size) <==>
            forall x: nat | InRange(address, size, x) :: SingleType(s, x) == SingleType(s, address)
    ensures RangeUniform(s, address, size) ==> RangeType(s, address, size) == SingleType(s, address)
  {
    var first, count := address / PAGE_SIZE, PagesIn(address, size);
    SingleTypeSamePage(s, address, first * PAGE_SIZE);
    forall x: nat | InRange(address, size, x)
      ensures first <= x / PAGE_SIZE < first + count && SingleType(s, x) == PageType(s, x / PAGE_SIZE)
    {
      SingleTypeSamePage(s, x, x / PAGE_SIZE * PAGE_SIZE);
    }
    if forall x: nat | InRange(address, size, x) :: SingleType(s, x) == SingleType(s, address) {
      forall p | first <= p < first + count
        ensures PageType(s, p) == PageType(s, first)
      {
        var x := AddressOfPage(address, size, p);
        assert SingleType(s, x) == PageType(s, p);
      }
    }
    if UniformPages(s, first, count) {
      UniformMeet(s, first, count);
    }
  }

  lemma {:induction false} UniformMeet(s: MtrrState, first: nat, count: nat)
    requires s.Valid() && count > 0 && UniformPages(s, first, count)
    ensures MeetPages(s, first, count) == PageType(s, first)
  {
    if count > 1 {
      UniformMeet(s, first, count - 1);
    }
  }

  /** A single 4 KB page is always uniform, so the error exits of the EPT code are never taken. */
  lemma PageIsUniform(s: MtrrState, page: nat)
    requires s.Valid()
    ensures RangeUniform(s, page * PAGE_SIZE, PAGE_SIZE)
    ensures RangeType(s, page * PAGE_SIZE, PAGE_SIZE) == PageType(s, page)
  {
    assert (page * PAGE_SIZE + PAGE_SIZE - 1) / PAGE_SIZE == page;
  }

  // ----- The combined type of a range, in closed form -----

  predicate AllPagesOf(s: MtrrState, first: nat, count: nat, types: set<nat>)
    requires s.Valid()
  {
    forall p | first <= p < first + count :: PageType(s, p) in types
  }

  /** One type if all pages have it, write-through if they are write-through and write-back, else uncacheable. */
  lemma {:induction false} MeetPagesExact(s: MtrrState, first: nat, count: nat)
    requires s.Valid() && count > 0
    ensures MeetPages(s, first, count) ==
            if AllPagesOf(s, first, count, {PageType(s, first)}) then PageType(s, first)
            else if AllPagesOf(s, first, count, {4, 6}) then 4
            else 0
  {
    if count > 1 {
      var t, last := PageType(s, first), PageType(s, first + count - 1);
      MeetPagesExact(s, first, count - 1);
      assert AllPagesOf(s, first, count, {t}) <==> AllPagesOf(s, first, count - 1, {t}) && last == t;
      assert AllPagesOf(s, first, count, {4, 6}) <==> AllPagesOf(s, first, count - 1, {4, 6}) && last in {4, 6};
      assert t in {4, 6} ==> AllPagesOf(s, first, count - 1, {t}) ==> AllPagesOf(s, first, count - 1, {4, 6});
      assert PageType(s, first) == t;
    }
  }

  ghost predicate AllAddressesOf(s: MtrrState, address: nat, size: nat, types: set<nat>)
    requires s.Valid()
  {
    forall x: nat | InRange(address, size, x) :: SingleType(s, x) in types
  }

  /** The same for the addresses of a range, at any alignment. */
  lemma RangeTypeExact(s: MtrrState, address: nat, size: nat)
    requires s.Valid()
    ensures RangeType(s, address, size) ==
            if AllAddressesOf(s, address, size, {SingleType(s, address)}) then SingleType(s, address)
            else if AllAddressesOf(s, address, size, {4, 6}) then 4
            else 0
  {
    var first, count := address / PAGE_SIZE, PagesIn(address, size);
    SingleTypeSamePage(s, address, first * PAGE_SIZE);
    MeetPagesExact(s, first, count);
    if size > 0 {
      PagesAreAddresses(s, address, size, {SingleType(s, address)});
      PagesAreAddresses(s, address, size, {4, 6});
    }
  }

  lemma PagesAreAddresses(s: MtrrState, address: nat, size: nat, types: set<nat>)
    requires s.Valid() && size > 0
    ensures AllPagesOf(s, address / PAGE_SIZE, PagesIn(address, size), types) <==>
              AllAddressesOf(s, address, size, types)
  {
    var first, count := address / PAGE_SIZE, PagesIn(address, size);
    if AllPagesOf(s, first, count, types) {
      forall x: nat | InRange(address, size, x)
        ensures SingleType(s, x) in types
      {
        SingleTypeSamePage(s, x, x / PAGE_SIZE * PAGE_SIZE);
        assert PageType(s, x / PAGE_SIZE) in types;
      }
    }
    if AllAddressesOf(s, address, size, types) {
      forall p | first <= p < first + count
        ensures PageType(s, p) in types
      {
        var x := AddressOfPage(address, size, p);
        SingleTypeSamePage(s, x, p * PAGE_SIZE);
      }
    }
  }
}
