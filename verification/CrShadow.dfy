/**
 CR0 and CR4 of the guest behind masks and read shadows (sections 26.6.6, A.7 and A.8 of the Intel SDM
 Vol. 3): what the guest sees is compared with a reference machine that simply takes the same writes.
 A register is the set of the positions of its one bits.
 */
module CrShadow {
  type Word = set<nat>

  const PE: nat := 0
  const TS: nat := 3
  const ET: nat := 4
  const WP: nat := 16
  const NW: nat := 29
  const CD: nat := 30
  const PG: nat := 31
  // The bits LMSW loads.
  const LMSW_BITS: Word := {0, 1, 2, 3}
  // Reserved bits of CR0[31:0]: 6 to 15, 17 and 19 to 28.
  const CR0_IGNORED: Word := {6, 7, 8, 9, 10, 11, 12, 13, 14, 15, 17, 19, 20, 21, 22, 23, 24, 25, 26, 27, 28}

  const PAE: nat := 5
  const LA57: nat := 12
  const VMXE: nat := 13
  const SMXE: nat := 14
  const PCIDE: nat := 17
  const CET: nat := 23

  /** What the processor reports: bits VMX fixes to one or zero, reserved bits of CR4, and SMX support. */
  datatype Processor = Processor(cr0Fixed0: Word, cr0Fixed1: Word, cr4Fixed0: Word, cr4Fixed1: Word,
                                 cr4Reserved: Word, smx: bool)

  datatype Vmcs = Vmcs(cr0: Word, shadow0: Word, cr4: Word, shadow4: Word)

  /** The two registers of the reference machine. */
  datatype Registers = Registers(cr0: Word, cr4: Word)

  /** The bits outside the mask: those that are neither fixed to one nor fixed to zero. */
  function Free0(p: Processor): Word {
    p.cr0Fixed1 - p.cr0Fixed0
  }

  function Free4(p: Processor): Word {
    p.cr4Fixed1 - p.cr4Fixed0 - {VMXE}
  }

  /** What a read sees: the register where the bit is free, the shadow elsewhere. */
  function Visible(shadow: Word, actual: Word, free: Word): Word {
    (shadow - free) + actual * free
  }

  function Effective(v: Vmcs, p: Processor): Registers {
    Registers(Visible(v.shadow0, v.cr0, Free0(p)), Visible(v.shadow4, v.cr4, Free4(p)))
  }

  predicate HasFixedBits(actual: Word, fixed0: Word, fixed1: Word) {
    fixed0 <= actual <= fixed1
  }

  function WithFixedBits(value: Word, fixed0: Word, fixed1: Word): Word {
    (value + fixed0) * fixed1
  }

  /** Reserved bits of CR0[31:0] are ignored and ET is always one. */
  function Cr0Value(value: Word): Word {
    (value - CR0_IGNORED) + {ET}
  }

  /** The checks the handler makes before a MOV to CR0 in 64-bit mode. */
  predicate Cr0Allowed(value: Word, cr4: Word) {
    && (forall b | b in value :: b < 32)
    && !(PG in value && PE !in value)
    && !(WP !in value && CET in cr4)
    && PG in value
    && !(CD !in value && NW in value)
  }

  predicate Cr4Allowed(value: Word, now: Registers, cr3LowBits: bool, p: Processor) {
    && value * p.cr4Reserved == {}
    && !(CET in value && WP !in now.cr0)
    && !(PCIDE !in now.cr4 && PCIDE in value && cr3LowBits)
    && (PAE in value <==> PAE in now.cr4) && (LA57 in value <==> LA57 in now.cr4)
    && !(!p.smx && SMXE in value)
  }

  // ----- The reference machine -----

  /**
   Section 2.5 of the Intel SDM Vol. 3A, bit by bit: whether this bit of a value makes a MOV to CR0 fault in 64-bit
   mode. Protection and paging stay on, WP stays with CET, NW comes with CD, and the upper half is reserved.
   */
  predicate Cr0Fault(b: nat, value: Word, cr4: Word) {
    if b >= 32 then b in value
    else if b == 0 || b == 31 then b !in value
    else if b == 16 then 16 !in value && 23 in cr4
    else if b == 29 then 29 in value && 30 !in value
    else false
  }

  predicate Cr0Legal(value: Word, cr4: Word) {
    forall b | b in value + {0, 16, 31} :: !Cr0Fault(b, value, cr4)
  }

  /** The same for CR4: PAE and LA57 stay, CET needs WP, SMXE needs SMX, and PCIDE comes on only with a clean CR3. */
  predicate Cr4Fault(b: nat, value: Word, now: Registers, cr3LowBits: bool, p: Processor) {
    || (b in value && b in p.cr4Reserved)
    || ((b == 5 || b == 12) && (b in value) != (b in now.cr4))
    || (b == 14 && 14 in value && !p.smx)
    || (b == 17 && 17 in value && 17 !in now.cr4 && cr3LowBits)
    || (b == 23 && 23 in value && 16 !in now.cr0)
  }

  predicate Cr4Legal(value: Word, now: Registers, cr3LowBits: bool, p: Processor) {
    forall b | b in value + {5, 12} :: !Cr4Fault(b, value, now, cr3LowBits, p)
  }

  /** Control-register instructions; `cr3LowBits` says whether any of CR3[11:0] is set at the time. */
  datatype Instruction =
    | MovToCr0(value: Word)
    | MovToCr4(value: Word, cr3LowBits: bool)
    | Lmsw(source: Word)
    | Clts

  /** LMSW loads the low four bits, but never clears PE. */
  function LmswValue(cr0: Word, source: Word): Word {
    (cr0 - LMSW_BITS) + source * LMSW_BITS + cr0 * {PE}
  }

  function Reference(r: Registers, i: Instruction, p: Processor): Registers {
    match i
    case MovToCr0(value) => if Cr0Legal(value, r.cr4) then r.(cr0 := Cr0Value(value)) else r
    case MovToCr4(value, low) => if Cr4Legal(value, r, low, p) then r.(cr4 := value) else r
    case Lmsw(source) => r.(cr0 := LmswValue(r.cr0, source))
    case Clts => r.(cr0 := r.cr0 - {TS})
  }

  // ----- The exit handlers -----

  function HandleMovToCr0(v: Vmcs, value: Word, p: Processor): Vmcs {
    if !Cr0Allowed(Cr0Value(value), Effective(v, p).cr4) then v
    else v.(shadow0 := Cr0Value(value), cr0 := WithFixedBits(Cr0Value(value), p.cr0Fixed0, p.cr0Fixed1))
  }

  function HandleMovToCr4(v: Vmcs, value: Word, low: bool, p: Processor): Vmcs {
    if !Cr4Allowed(value, Effective(v, p), low, p) then v
    else v.(shadow4 := value, cr4 := WithFixedBits(value, p.cr4Fixed0, p.cr4Fixed1))
  }

  /** The new low bits; PE stays set if the shadow has it. */
  function LmswBits(shadow: Word, source: Word): Word {
    if PE in shadow then source * LMSW_BITS + {PE} else source * LMSW_BITS
  }

  function HandleLmsw(v: Vmcs, source: Word, p: Processor): Vmcs {
    var bits := LmswBits(v.shadow0, source);
    v.(shadow0 := (v.shadow0 - LMSW_BITS) + bits,
       cr0 := WithFixedBits((v.cr0 - LMSW_BITS) + bits, p.cr0Fixed0, p.cr0Fixed1))
  }

  /** Clears TS in both; the instruction is then executed again. */
  function HandleClts(v: Vmcs): Vmcs {
    v.(shadow0 := v.shadow0 - {TS}, cr0 := v.cr0 - {TS})
  }

  // ----- The guest -----

  function LmswMasked(p: Processor): Word {
    LMSW_BITS - {PE} - Free0(p)
  }

  /** When an instruction exits: section 27.1.3 of the Intel SDM Vol. 3. */
  predicate Exits(v: Vmcs, i: Instruction, p: Processor) {
    match i
    case MovToCr0(value) => value - Free0(p) != v.shadow0 - Free0(p)
    case MovToCr4(value, _) => value - Free4(p) != v.shadow4 - Free4(p)
    case Lmsw(source) =>
      || (PE !in Free0(p) && PE in source && PE !in v.shadow0)
      || source * LmswMasked(p) != v.shadow0 * LmswMasked(p)
    case Clts => TS !in Free0(p) && TS in v.shadow0
  }

  function Keep(current: Word, value: Word, free: Word): Word {
    (current - free) + value * free
  }

  /** An instruction that does not exit changes free bits only; it faults as the reference does. */
  function Direct(v: Vmcs, i: Instruction, p: Processor): Vmcs {
    match i
    case MovToCr0(value) =>
      if Cr0Legal(value, Effective(v, p).cr4) then v.(cr0 := Keep(v.cr0, Cr0Value(value), Free0(p))) else v
    case MovToCr4(value, low) =>
      if Cr4Legal(value, Effective(v, p), low, p) then v.(cr4 := Keep(v.cr4, value, Free4(p))) else v
    case Lmsw(source) => v.(cr0 := Keep(v.cr0, LmswValue(v.cr0, source), Free0(p)))
    case Clts => v.(cr0 := Keep(v.cr0, v.cr0 - {TS}, Free0(p)))
  }

  /** One instruction with its exit, if there is one; CLTS runs once more after its exit. */
  function Execute(v: Vmcs, i: Instruction, p: Processor): Vmcs {
    if !Exits(v, i, p) then
      Direct(v, i, p)
    else
      match i
      case MovToCr0(value) => HandleMovToCr0(v, value, p)
      case MovToCr4(value, low) => HandleMovToCr4(v, value, low, p)
      case Lmsw(source) => HandleLmsw(v, source, p)
      case Clts => Direct(HandleClts(v), i, p)
  }

  // ----- Single writes -----

  lemma AfterWrite(value: Word, fixed0: Word, fixed1: Word, hidden: Word)
    requires fixed0 <= fixed1
    ensures HasFixedBits(WithFixedBits(value, fixed0, fixed1), fixed0, fixed1)
    ensures Visible(value, WithFixedBits(value, fixed0, fixed1), fixed1 - fixed0 - hidden) == value
  {
  }

  lemma AfterDirect(shadow: Word, actual: Word, value: Word, fixed0: Word, fixed1: Word, hidden: Word)
    requires HasFixedBits(actual, fixed0, fixed1)
    ensures var free := fixed1 - fixed0 - hidden;
            && HasFixedBits(Keep(actual, value, free), fixed0, fixed1)
            && (value - free == shadow - free ==> Visible(shadow, Keep(actual, value, free), free) == value)
  {
  }

  lemma NothingHidden(fixed0: Word, fixed1: Word)
    ensures fixed1 - fixed0 - {} == fixed1 - fixed0
  {
  }

  lemma SameOutside(value: Word, shadow: Word, free: Word)
    requires value - free == shadow - free && Cr0Value(shadow) == shadow
    ensures Cr0Value(value) - free == shadow - free
  {
    forall b: nat
      ensures b in Cr0Value(value) - free <==> b in shadow - free
    {
      assert b in value - free <==> b in shadow - free;
      assert b in Cr0Value(shadow) <==> b in shadow;
    }
  }

  // ----- Which writes are refused -----

  /** The handler refuses exactly the values that fault, whatever their ignored bits. */
  lemma Cr0AllowedIsLegal(value: Word, cr4: Word)
    ensures Cr0Allowed(Cr0Value(value), cr4) == Cr0Legal(value, cr4)
  {
    var seen := Cr0Value(value);
    assert forall b | b in {0, 16, 29, 30, 31} || b >= 32 :: b in seen <==> b in value;
    if Cr0Legal(value, cr4) {
      assert !Cr0Fault(0, value, cr4) && !Cr0Fault(16, value, cr4) && !Cr0Fault(31, value, cr4);
      assert 29 in value ==> !Cr0Fault(29, value, cr4);
      forall b | b in seen
        ensures b < 32
      {
        assert b >= 32 ==> Cr0Fault(b, value, cr4);
      }
    }
  }

  lemma Cr4AllowedIsLegal(value: Word, now: Registers, low: bool, p: Processor)
    ensures Cr4Allowed(value, now, low, p) == Cr4Legal(value, now, low, p)
  {
    if Cr4Legal(value, now, low, p) {
      assert !Cr4Fault(5, value, now, low, p) && !Cr4Fault(12, value, now, low, p);
      forall b | b in value
        ensures b !in p.cr4Reserved && !Cr4Fault(b, value, now, low, p)
      {
        assert !Cr4Fault(b, value, now, low, p);
      }
      assert value * p.cr4Reserved == {};
    } else {
      var b :| b in value + {5, 12} && Cr4Fault(b, value, now, low, p);
      assert b in value && b in p.cr4Reserved ==> b in value * p.cr4Reserved;
    }
  }

  function Flip(value: Word, b: nat): Word {
    if b in value then value - {b} else value + {b}
  }

  /**
   What changing one bit of an accepted value does: the upper half, PE and PG cannot change; WP can be cleared if
   and only if CET is off; NW can be set and CD cleared if and only if the result does not have NW without CD; every
   other bit can change. A value with PE, WP and PG only is always accepted.
   */
  lemma Cr0Flips(value: Word, cr4: Word, b: nat)
    requires Cr0Allowed(value, cr4)
    ensures Cr0Allowed({0, 16, 31}, cr4)
    ensures b >= 32 || b == 0 || b == 31 ==> !Cr0Allowed(Flip(value, b), cr4)
    ensures b == 16 ==> (Cr0Allowed(Flip(value, b), cr4) <==> 16 !in value || 23 !in cr4)
    ensures b == 29 ==> (Cr0Allowed(Flip(value, b), cr4) <==> 29 in value || 30 in value)
    ensures b == 30 ==> (Cr0Allowed(Flip(value, b), cr4) <==> 30 !in value || 29 !in value)
    ensures b < 32 && b !in {0, 16, 29, 30, 31} ==> Cr0Allowed(Flip(value, b), cr4)
  {
    var changed := Flip(value, b);
    assert forall c | c != b :: c in changed <==> c in value;
    assert b in changed <==> b !in value;
  }

  /** The same for CR4. */
  lemma Cr4Flips(value: Word, now: Registers, low: bool, p: Processor, b: nat)
    requires Cr4Allowed(value, now, low, p)
    ensures var ok := Cr4Allowed(Flip(value, b), now, low, p);
            if b in p.cr4Reserved || b == 5 || b == 12 then !ok
            else if b == 14 then ok <==> 14 in value || p.smx
            else if b == 17 then ok <==> 17 in value || 17 in now.cr4 || !low
            else if b == 23 then ok <==> 23 in value || 16 in now.cr0
            else ok
  {
    var changed := Flip(value, b);
    assert forall c | c != b :: c in changed <==> c in value;
    assert b in changed <==> b !in value;
    assert forall c | c in value :: c !in value * p.cr4Reserved;
    if b in p.cr4Reserved {
      assert b in changed * p.cr4Reserved;
    } else {
      assert changed * p.cr4Reserved == {};
    }
  }

  /** The registers of a processor in 64-bit mode. */
  predicate LongMode(r: Registers, p: Processor) {
    && {0, 4, 31} <= r.cr0 <= {0, 1, 2, 3, 4, 5, 16, 18, 29, 30, 31}
    && (29 in r.cr0 ==> 30 in r.cr0)
    && (23 in r.cr4 ==> 16 in r.cr0)
    && r.cr4 * p.cr4Reserved == {} && (14 in r.cr4 ==> p.smx)
  }

  /** No control-register instruction leaves 64-bit mode. */
  lemma LongModeKept(r: Registers, i: Instruction, p: Processor)
    requires LongMode(r, p)
    ensures LongMode(Reference(r, i, p), p)
  {
    match i {
      case MovToCr0(value) =>
        if Cr0Legal(value, r.cr4) {
          Cr0AllowedIsLegal(value, r.cr4);
          assert forall b | b in {0, 16, 29, 30, 31} || b >= 32 :: b in Cr0Value(value) <==> b in value;
        }
      case MovToCr4(value, low) => Cr4AllowedIsLegal(value, r, low, p);
      case _ =>
    }
  }

  /** LMSW takes bits 1 to 3 of its source and can set bit 0 but not clear it; CLTS clears bit 3; all else stays. */
  lemma LowBits(r: Registers, source: Word, p: Processor, b: nat)
    ensures var lmsw, clts := Reference(r, Lmsw(source), p), Reference(r, Clts, p);
            && lmsw.cr4 == r.cr4 && clts.cr4 == r.cr4
            && (b in lmsw.cr0 <==>
                  if b == 0 then 0 in r.cr0 || 0 in source else if b < 4 then b in source else b in r.cr0)
            && (b in clts.cr0 <==> b != 3 && b in r.cr0)
  {
  }

  /** Writing back what was read is always accepted, in both registers, and changes nothing. */
  lemma WriteBack(r: Registers, low: bool, p: Processor)
    requires LongMode(r, p)
    ensures Cr0Allowed(r.cr0, r.cr4) && Reference(r, MovToCr0(r.cr0), p) == r
    ensures Cr4Allowed(r.cr4, r, low, p) && Reference(r, MovToCr4(r.cr4, low), p) == r
  {
    assert Cr0Value(r.cr0) == r.cr0;
    Cr0AllowedIsLegal(r.cr0, r.cr4);
    Cr4AllowedIsLegal(r.cr4, r, low, p);
  }

  // ----- LMSW and CLTS -----

  /**
   The LMSW handler takes PE from the shadow. The guest sees what the reference machine computes if and
   only if PE is masked, or being set, or the same in the shadow and the register.
   */
  lemma LmswExit(shadow: Word, actual: Word, source: Word, fixed0: Word, fixed1: Word)
    requires HasFixedBits(actual, fixed0, fixed1)
    ensures var free := fixed1 - fixed0;
            var bits := LmswBits(shadow, source);
            Visible((shadow - LMSW_BITS) + bits, WithFixedBits((actual - LMSW_BITS) + bits, fixed0, fixed1), free)
              == LmswValue(Visible(shadow, actual, free), source)
            <==> PE !in free || PE in source || (PE in shadow <==> PE in actual)
  {
    var free := fixed1 - fixed0;
    var bits := LmswBits(shadow, source);
    var seen := Visible((shadow - LMSW_BITS) + bits, WithFixedBits((actual - LMSW_BITS) + bits, fixed0, fixed1), free);
    var expected := LmswValue(Visible(shadow, actual, free), source);
    assert forall b: nat | b != PE :: b in seen <==> b in expected;
    if PE !in free || PE in source || (PE in shadow <==> PE in actual) {
      assert seen == expected;
    } else {
      assert PE in seen <==> PE in shadow;
      assert PE in expected <==> PE in actual;
    }
  }

  lemma LmswDirect(shadow: Word, actual: Word, source: Word, p: Processor)
    requires var v := Vmcs(actual, shadow, {}, {}); !Exits(v, Lmsw(source), p)
    ensures Visible(shadow, Keep(actual, LmswValue(actual, source), Free0(p)), Free0(p))
            == LmswValue(Visible(shadow, actual, Free0(p)), source)
  {
    var free := Free0(p);
    var seen := Visible(shadow, Keep(actual, LmswValue(actual, source), free), free);
    forall b: nat
      ensures b in seen <==> b in LmswValue(Visible(shadow, actual, free), source)
    {
      assert b in source * LmswMasked(p) <==> b in shadow * LmswMasked(p);
    }
  }

  lemma LmswSettled(shadow: Word, source: Word)
    requires Cr0Value(shadow) == shadow
    ensures var after := (shadow - LMSW_BITS) + LmswBits(shadow, source); Cr0Value(after) == after
  {
    assert forall b | b in CR0_IGNORED + {ET} :: b in Cr0Value(shadow) <==> b in shadow;
  }

  /** After its handler CLTS does not exit again, and the guest sees TS cleared and nothing else. */
  lemma CltsExit(v: Vmcs, p: Processor)
    ensures !Exits(HandleClts(v), Clts, p)
    ensures Exits(v, Clts, p) ==>
              Effective(Direct(HandleClts(v), Clts, p), p).cr0 == Effective(v, p).cr0 - {TS}
  {
  }

  /** Clearing TS in the register keeps the fixed bits if and only if TS is not fixed to one. */
  lemma CltsFixed(actual: Word, fixed0: Word, fixed1: Word)
    requires HasFixedBits(actual, fixed0, fixed1)
    ensures HasFixedBits(actual - {TS}, fixed0, fixed1) <==> TS !in fixed0
  {
    if TS in fixed0 {
      assert TS !in actual - {TS};
    }
  }

  // ----- Refinement -----

  /** Sections A.7 and A.8: the fixed bits do not conflict; PE is fixed to one and TS is not. */
  predicate Reported(p: Processor) {
    p.cr0Fixed0 <= p.cr0Fixed1 && p.cr4Fixed0 <= p.cr4Fixed1 && PE in p.cr0Fixed0 && TS !in p.cr0Fixed0
  }

  predicate Inv(v: Vmcs, p: Processor) {
    && HasFixedBits(v.cr0, p.cr0Fixed0, p.cr0Fixed1)
    && HasFixedBits(v.cr4, p.cr4Fixed0, p.cr4Fixed1)
    && Cr0Value(v.shadow0) == v.shadow0
  }

  /** At launch the guest continues with the registers of the system, VMXE hidden. */
  function Launch(cr0: Word, cr4: Word): Vmcs {
    Vmcs(cr0, cr0, cr4, cr4 - {VMXE})
  }

  lemma LaunchInv(cr0: Word, cr4: Word, p: Processor)
    requires HasFixedBits(cr0, p.cr0Fixed0, p.cr0Fixed1) && HasFixedBits(cr4, p.cr4Fixed0, p.cr4Fixed1) &&
             Cr0Value(cr0) == cr0
    ensures Inv(Launch(cr0, cr4), p)
    ensures Effective(Launch(cr0, cr4), p) == Registers(cr0, cr4 - {13})
  {
    assert Visible(cr0, cr0, Free0(p)) == cr0;
    assert Visible(cr4 - {VMXE}, cr4, Free4(p)) == cr4 - {VMXE};
  }

  /** One step of the simulation: the invariant holds after it and the guest sees the reference registers. */
  predicate Refines(v: Vmcs, i: Instruction, p: Processor) {
    && Inv(Execute(v, i, p), p)
    && Effective(Execute(v, i, p), p) == Reference(Effective(v, p), i, p)
  }

  lemma MovToCr0Refines(v: Vmcs, value: Word, p: Processor)
    requires Reported(p) && Inv(v, p)
    ensures Refines(v, MovToCr0(value), p)
  {
    Cr0AllowedIsLegal(value, Effective(v, p).cr4);
    NothingHidden(p.cr0Fixed0, p.cr0Fixed1);
    assert Cr0Value(Cr0Value(value)) == Cr0Value(value);
    if Exits(v, MovToCr0(value), p) {
      AfterWrite(Cr0Value(value), p.cr0Fixed0, p.cr0Fixed1, {});
    } else {
      SameOutside(value, v.shadow0, Free0(p));
      AfterDirect(v.shadow0, v.cr0, Cr0Value(value), p.cr0Fixed0, p.cr0Fixed1, {});
    }
  }

  lemma MovToCr4Refines(v: Vmcs, value: Word, low: bool, p: Processor)
    requires Reported(p) && Inv(v, p)
    ensures Refines(v, MovToCr4(value, low), p)
  {
    Cr4AllowedIsLegal(value, Effective(v, p), low, p);
    if Exits(v, MovToCr4(value, low), p) {
      AfterWrite(value, p.cr4Fixed0, p.cr4Fixed1, {VMXE});
    } else {
      AfterDirect(v.shadow4, v.cr4, value, p.cr4Fixed0, p.cr4Fixed1, {VMXE});
    }
  }

  lemma LmswRefines(v: Vmcs, source: Word, p: Processor)
    requires Reported(p) && Inv(v, p)
    ensures Refines(v, Lmsw(source), p)
  {
    NothingHidden(p.cr0Fixed0, p.cr0Fixed1);
    if Exits(v, Lmsw(source), p) {
      LmswExit(v.shadow0, v.cr0, source, p.cr0Fixed0, p.cr0Fixed1);
      LmswSettled(v.shadow0, source);
      AfterWrite((v.cr0 - LMSW_BITS) + LmswBits(v.shadow0, source), p.cr0Fixed0, p.cr0Fixed1, {});
    } else {
      LmswDirect(v.shadow0, v.cr0, source, p);
      AfterDirect(v.shadow0, v.cr0, LmswValue(v.cr0, source), p.cr0Fixed0, p.cr0Fixed1, {});
    }
  }

  lemma CltsRefines(v: Vmcs, p: Processor)
    requires Reported(p) && Inv(v, p)
    ensures Refines(v, Clts, p)
  {
    NothingHidden(p.cr0Fixed0, p.cr0Fixed1);
    if Exits(v, Clts, p) {
      CltsExit(v, p);
      CltsFixed(v.cr0, p.cr0Fixed0, p.cr0Fixed1);
      AfterDirect(v.shadow0 - {TS}, v.cr0 - {TS}, v.cr0 - {TS} - {TS}, p.cr0Fixed0, p.cr0Fixed1, {});
      assert Cr0Value(v.shadow0 - {TS}) == Cr0Value(v.shadow0) - {TS};
    } else {
      AfterDirect(v.shadow0, v.cr0, v.cr0 - {TS}, p.cr0Fixed0, p.cr0Fixed1, {});
      assert Visible(v.shadow0, Keep(v.cr0, v.cr0 - {TS}, Free0(p)), Free0(p)) == Effective(v, p).cr0 - {TS};
    }
  }

  function Run(v: Vmcs, code: seq<Instruction>, p: Processor): Vmcs {
    if code == [] then v else Execute(Run(v, code[..|code| - 1], p), code[|code| - 1], p)
  }

  function ReferenceRun(r: Registers, code: seq<Instruction>, p: Processor): Registers {
    if code == [] then r else Reference(ReferenceRun(r, code[..|code| - 1], p), code[|code| - 1], p)
  }

  /**
   Over every run of control-register instructions, exiting or not, the guest sees exactly the registers of
   the reference machine, and the real registers always satisfy the VMX fixed bits.
   */
  lemma {:induction false} EveryRun(v: Vmcs, code: seq<Instruction>, p: Processor)
    requires Reported(p) && Inv(v, p)
    ensures Inv(Run(v, code, p), p)
    ensures Effective(Run(v, code, p), p) == ReferenceRun(Effective(v, p), code, p)
  {
    if code != [] {
      var n := |code| - 1;
      EveryRun(v, code[..n], p);
      var w := Run(v, code[..n], p);
      StepRefines(w, code[n], p);
    }
  }

  lemma StepRefines(v: Vmcs, i: Instruction, p: Processor)
    requires Reported(p) && Inv(v, p)
    ensures Refines(v, i, p)
  {
    match i {
      case MovToCr0(value) => MovToCr0Refines(v, value, p);
      case MovToCr4(value, low) => MovToCr4Refines(v, value, low, p);
      case Lmsw(source) => LmswRefines(v, source, p);
      case Clts => CltsRefines(v, p);
    }
  }

  /** What an exit handler leaves behind: for the guest the instruction has happened, and the fixed bits hold. */
  predicate Handled(before: Vmcs, after: Vmcs, i: Instruction, p: Processor) {
    Reported(p) && Inv(before, p) && Exits(before, i, p) ==>
      Inv(after, p) && Effective(after, p) == Reference(Effective(before, p), i, p)
  }

  lemma CltsHandled(v: Vmcs, p: Processor)
    ensures Handled(v, HandleClts(v), Clts, p)
  {
    if Reported(p) && Inv(v, p) && Exits(v, Clts, p) {
      CltsFixed(v.cr0, p.cr0Fixed0, p.cr0Fixed1);
      assert Cr0Value(v.shadow0 - {TS}) == Cr0Value(v.shadow0) - {TS};
      assert Effective(HandleClts(v), p).cr0 == Effective(v, p).cr0 - {TS};
    }
  }

  lemma OthersHandled(v: Vmcs, i: Instruction, p: Processor)
    requires !i.Clts?
    ensures Handled(v, Execute(v, i, p), i, p)
  {
    if Reported(p) && Inv(v, p) {
      StepRefines(v, i, p);
    }
  }

  // ----- The handlers in place -----

  /** The control fields of the current VMCS that the handlers read and write. */
  class ControlFields {
    var cr0: Word
    var shadow0: Word
    var cr4: Word
    var shadow4: Word

    function Value(): Vmcs
      reads this
    {
      Vmcs(cr0, shadow0, cr4, shadow4)
    }

    constructor (systemCr0: Word, systemCr4: Word)
      ensures Value() == Launch(systemCr0, systemCr4)
    {
      cr0, shadow0 := systemCr0, systemCr0;
      cr4, shadow4 := systemCr4, systemCr4 - {VMXE};
    }

    /** A refused value raises a general-protection fault in the guest and changes nothing. */
    method MovToCr0(value: Word, p: Processor) returns (fault: bool)
      modifies this
      ensures Value() == HandleMovToCr0(old(Value()), value, p)
      ensures fault <==> !Cr0Legal(value, Effective(old(Value()), p).cr4)
      ensures Handled(old(Value()), Value(), Instruction.MovToCr0(value), p)
    {
      OthersHandled(Value(), Instruction.MovToCr0(value), p);
      Cr0AllowedIsLegal(value, Effective(Value(), p).cr4);
      var cr4Now := (shadow4 - Free4(p)) + cr4 * Free4(p);
      var new0 := (value - CR0_IGNORED) + {ET};
      if !(forall b | b in new0 :: b < 32) {
        return true;
      }
      if PG in new0 && PE !in new0 {
        return true;
      }
      if WP !in new0 && CET in cr4Now {
        return true;
      }
      if PG !in new0 {
        return true;
      }
      if CD !in new0 && NW in new0 {
        return true;
      }
      shadow0 := new0;
      new0 := new0 + p.cr0Fixed0;
      new0 := new0 * p.cr0Fixed1;
      cr0 := new0;
      return false;
    }

    method MovToCr4(value: Word, cr3LowBits: bool, p: Processor) returns (fault: bool)
      modifies this
      ensures Value() == HandleMovToCr4(old(Value()), value, cr3LowBits, p)
      ensures fault <==> !Cr4Legal(value, Effective(old(Value()), p), cr3LowBits, p)
      ensures Handled(old(Value()), Value(), Instruction.MovToCr4(value, cr3LowBits), p)
    {
      OthersHandled(Value(), Instruction.MovToCr4(value, cr3LowBits), p);
      Cr4AllowedIsLegal(value, Effective(Value(), p), cr3LowBits, p);
      var cr0Now := (shadow0 - Free0(p)) + cr0 * Free0(p);
      var cr4Now := (shadow4 - Free4(p)) + cr4 * Free4(p);
      if value * p.cr4Reserved != {} {
        return true;
      }
      if CET in value && WP !in cr0Now {
        return true;
      }
      if PCIDE !in cr4Now && PCIDE in value && cr3LowBits {
        return true;
      }
      if !(PAE in value <==> PAE in cr4Now) || !(LA57 in value <==> LA57 in cr4Now) {
        return true;
      }
      if !p.smx && SMXE in value {
        return true;
      }
      shadow4 := value;
      var new4 := value + p.cr4Fixed0;
      new4 := new4 * p.cr4Fixed1;
      cr4 := new4;
      return false;
    }

    method Clts(ghost p: Processor)
      modifies this
      ensures Value() == HandleClts(old(Value()))
      ensures Handled(old(Value()), Value(), Instruction.Clts, p)
    {
      CltsHandled(Value(), p);
      shadow0 := shadow0 - {TS};
      cr0 := cr0 - {TS};
    }

    method Lmsw(source: Word, p: Processor)
      modifies this
      ensures Value() == HandleLmsw(old(Value()), source, p)
      ensures Handled(old(Value()), Value(), Instruction.Lmsw(source), p)
    {
      OthersHandled(Value(), Instruction.Lmsw(source), p);
      var bits := source * LMSW_BITS;
      if PE in shadow0 {
        bits := bits + {PE};
      }
      var newShadow := (shadow0 - LMSW_BITS) + bits;
      var new0 := (cr0 - LMSW_BITS) + bits;
      shadow0 := newShadow;
      new0 := new0 + p.cr0Fixed0;
      new0 := new0 * p.cr0Fixed1;
      cr0 := new0;
    }
  }
}
