/**
 The per-vCPU capture configurations: a generic one, and an open-addressing table of 64 slots for exact
 addresses, in which slots are never emptied. The table refines a finite map from non-zero addresses.
 */
module TransitionConfigs {
  import opened Common

  const TABLE_SIZE: nat := 64
  const FIELD_COUNT: nat := 6

  /** The guest value captured in one data slot. */
  datatype Field =
    | NoField | Rip | Rsp | Rax | Rbx | Rcx | Rdx | Rsi | Rdi | Rbp
    | R8 | R9 | R10 | R11 | R12 | R13 | R14 | R15 | RetAddr

  const BLANK: seq<Field> := [NoField, NoField, NoField, NoField, NoField, NoField]

  type Config = c: seq<Field> | |c| == FIELD_COUNT witness BLANK

  const DEFAULT_GENERIC: Config := [Rip, RetAddr, NoField, NoField, NoField, NoField]

  /** A slot with address zero is empty. */
  datatype Slot = Slot(addr: nat, cfg: Config)

  function Hash(addr: nat): (h: nat)
    ensures h < TABLE_SIZE
  {
    addr / 8 % TABLE_SIZE
  }

  /** The slot probed in step `i` for an address. */
  function Probe(addr: nat, i: nat): (k: nat)
    ensures k < TABLE_SIZE
  {
    (Hash(addr) + i) % TABLE_SIZE
  }

  /** The step in which an address is probed at slot `k`. */
  function StepOf(addr: nat, k: nat): (i: nat)
    requires k < TABLE_SIZE
    ensures i < TABLE_SIZE && Probe(addr, i) == k
    ensures forall j: nat | j < TABLE_SIZE && Probe(addr, j) == k :: j == i
  {
    (k - Hash(addr)) % TABLE_SIZE
  }

  predicate Distinct(slots: seq<Slot>) {
    forall i, j | 0 <= i < j < |slots| && slots[i].addr != 0 :: slots[i].addr != slots[j].addr
  }

  /** Every slot probed before the one that holds an address is occupied. */
  predicate NoGap(slots: seq<Slot>)
    requires |slots| == TABLE_SIZE
  {
    forall k: nat, j: nat | k < TABLE_SIZE && slots[k].addr != 0 && j < StepOf(slots[k].addr, k) ::
      slots[Probe(slots[k].addr, j)].addr != 0
  }

  predicate TableOk(slots: seq<Slot>) {
    |slots| == TABLE_SIZE && Distinct(slots) && NoGap(slots)
  }

  // ----- The map a table stands for -----

  function Contents(slots: seq<Slot>): map<nat, Config> {
    if slots == [] then
      map[]
    else
      var rest, last := Contents(slots[..|slots| - 1]), slots[|slots| - 1];
      if last.addr == 0 then rest else rest[last.addr := last.cfg]
  }

  lemma {:induction false} ContentsAt(slots: seq<Slot>, addr: nat)
    requires Distinct(slots)
    ensures addr in Contents(slots) <==> addr != 0 && exists k :: 0 <= k < |slots| && slots[k].addr == addr
    ensures forall k | 0 <= k < |slots| && slots[k].addr == addr != 0 ::
              addr in Contents(slots) && Contents(slots)[addr] == slots[k].cfg
  {
    if slots != [] {
      var n := |slots| - 1;
      assert forall k | 0 <= k < n :: slots[..n][k] == slots[k];
      ContentsAt(slots[..n], addr);
      if addr != 0 && slots[n].addr != addr && exists k :: 0 <= k < |slots| && slots[k].addr == addr {
        var k :| 0 <= k < |slots| && slots[k].addr == addr;
        assert slots[..n][k].addr == addr;
      }
    }
  }

  predicate Full(slots: seq<Slot>) {
    forall k | 0 <= k < |slots| :: slots[k].addr != 0
  }

  /** The map has one key for each occupied slot. */
  lemma {:induction false} ContentsSize(slots: seq<Slot>)
    requires Distinct(slots)
    ensures |Contents(slots)| == Occupied(slots)
    ensures Occupied(slots) == |slots| <==> Full(slots)
  {
    if slots != [] {
      var n := |slots| - 1;
      assert forall k | 0 <= k < n :: slots[..n][k] == slots[k];
      ContentsSize(slots[..n]);
      ContentsAt(slots[..n], slots[n].addr);
      if Full(slots) {
        assert slots[n].addr != 0;
      }
    }
  }

  function Occupied(slots: seq<Slot>): (n: nat)
    ensures n <= |slots|
  {
    if slots == [] then 0
    else Occupied(slots[..|slots| - 1]) + if slots[|slots| - 1].addr != 0 then 1 else 0
  }

  lemma {:induction false} OccupiedUpdate(slots: seq<Slot>, k: nat, slot: Slot)
    requires k < |slots|
    ensures Occupied(slots[k := slot]) ==
            Occupied(slots) + (if slot.addr != 0 then 1 else 0) - (if slots[k].addr != 0 then 1 else 0)
  {
    var n := |slots| - 1;
    if k < n {
      OccupiedUpdate(slots[..n], k, slot);
      assert slots[k := slot][..n] == slots[..n][k := slot];
    } else {
      assert slots[k := slot][..n] == slots[..n];
    }
  }

  /** Filling the slot of an address, its own or an empty one, updates the map at that address. */
  lemma ContentsUpdate(slots: seq<Slot>, k: nat, addr: nat, cfg: Config)
    requires Distinct(slots) && k < |slots| && addr != 0
    requires slots[k].addr == addr || (slots[k].addr == 0 && addr !in Contents(slots))
    ensures Distinct(slots[k := Slot(addr, cfg)])
    ensures Contents(slots[k := Slot(addr, cfg)]) == Contents(slots)[addr := cfg]
  {
    var after := slots[k := Slot(addr, cfg)];
    ContentsAt(slots, addr);
    assert Distinct(after);
    forall a: nat
      ensures a in Contents(after) <==> a in Contents(slots) || a == addr
      ensures a in Contents(after) ==> Contents(after)[a] == Contents(slots)[addr := cfg][a]
    {
      ContentsAt(slots, a);
      ContentsAt(after, a);
      if i :| 0 <= i < |slots| && slots[i].addr == a {
        assert i != k ==> after[i] == slots[i];
      }
      if i :| 0 <= i < |after| && after[i].addr == a {
        assert i != k ==> after[i] == slots[i];
      }
      assert after[k].addr == addr;
    }
  }

  // ----- Probing -----

  /** The first `i` slots probed for an address are occupied by others. */
  predicate ProbedPast(slots: seq<Slot>, addr: nat, i: nat)
    requires |slots| == TABLE_SIZE
  {
    forall j: nat | j < i :: slots[Probe(addr, j)].addr != 0 && slots[Probe(addr, j)].addr != addr
  }

  /** A probe that meets an empty slot, or has seen the whole table, shows that the address is absent. */
  lemma ProbeDecides(slots: seq<Slot>, addr: nat, i: nat)
    requires TableOk(slots) && ProbedPast(slots, addr, i) && i <= TABLE_SIZE
    requires i < TABLE_SIZE ==> slots[Probe(addr, i)].addr == 0
    ensures addr !in Contents(slots)
    ensures i == TABLE_SIZE ==> Full(slots)
  {
    ContentsAt(slots, addr);
    if addr != 0 {
      forall k: nat | k < TABLE_SIZE
        ensures slots[k].addr != addr
      {
        var d := StepOf(addr, k);
        assert Probe(addr, d) == k;
      }
    }
    if i == TABLE_SIZE {
      forall k: nat | k < TABLE_SIZE
        ensures slots[k].addr != 0
      {
        assert Probe(addr, StepOf(addr, k)) == k;
      }
    }
  }

  /** Filling the first empty slot of a probe leaves no gap. */
  lemma InsertKeepsNoGap(slots: seq<Slot>, addr: nat, cfg: Config, i: nat)
    requires |slots| == TABLE_SIZE && NoGap(slots) && i < TABLE_SIZE && ProbedPast(slots, addr, i) && addr != 0
    requires slots[Probe(addr, i)].addr == 0 || slots[Probe(addr, i)].addr == addr
    ensures NoGap(slots[Probe(addr, i) := Slot(addr, cfg)])
  {
    var at := Probe(addr, i);
    var after := slots[at := Slot(addr, cfg)];
    forall k: nat, j: nat | k < TABLE_SIZE && after[k].addr != 0 && j < StepOf(after[k].addr, k)
      ensures after[Probe(after[k].addr, j)].addr != 0
    {
      if k == at {
        assert StepOf(addr, at) == i;
        assert slots[Probe(addr, j)].addr != 0;
      } else {
        assert slots[Probe(slots[k].addr, j)].addr != 0;
      }
    }
  }

  // ----- The finite map -----

  /** An insert: address zero and a new address in a full table change nothing. */
  function Apply(m: map<nat, Config>, addr: nat, cfg: Config): map<nat, Config> {
    if addr == 0 || (addr !in m && |m| >= TABLE_SIZE) then m else m[addr := cfg]
  }

  function LookupIn(m: map<nat, Config>, generic: Config, rip: nat): Config {
    if rip in m then m[rip] else generic
  }

  datatype Insertion = Insertion(addr: nat, cfg: Config)

  function ApplyAll(inserts: seq<Insertion>): map<nat, Config> {
    if inserts == [] then map[]
    else Apply(ApplyAll(inserts[..|inserts| - 1]), inserts[|inserts| - 1].addr, inserts[|inserts| - 1].cfg)
  }

  function LastFor(inserts: seq<Insertion>, addr: nat): Option<Config> {
    if inserts == [] then None
    else if inserts[|inserts| - 1].addr == addr then Some(inserts[|inserts| - 1].cfg)
    else LastFor(inserts[..|inserts| - 1], addr)
  }

  /**
   After any inserts, a non-zero address is looked up as the last configuration inserted for it, or as the
   generic one if there was none; only an address refused by a full table is looked up as generic in spite
   of its inserts.
   */
  lemma {:induction false} LookupAfterInserts(inserts: seq<Insertion>, generic: Config, addr: nat)
    requires addr != 0
    ensures var m := ApplyAll(inserts);
            && |m| <= TABLE_SIZE && 0 !in m
            && (addr in m ==> LastFor(inserts, addr) == Some(m[addr]))
            && (addr !in m && |m| < TABLE_SIZE ==> LastFor(inserts, addr) == None)
            && (|m| < TABLE_SIZE || addr in m ==>
                  LookupIn(m, generic, addr) == match LastFor(inserts, addr) case Some(cfg) => cfg case None => generic)
  {
    if inserts != [] {
      LookupAfterInserts(inserts[..|inserts| - 1], generic, addr);
    }
  }

  // ----- The table -----

  class ConfigTable {
    const slots: array<Slot>
    var count: nat
    var generic: Config

    predicate Valid()
      reads this, slots
    {
      slots.Length == TABLE_SIZE && TableOk(slots[..]) && count == Occupied(slots[..])
    }

    function Table(): map<nat, Config>
      reads this, slots
    {
      Contents(slots[..])
    }

    /** The configurations a well-formed table stands for. */
    predicate Holds(exact: map<nat, Config>, fallback: Config)
      reads this, slots
    {
      Valid() && Table() == exact && generic == fallback
    }

    constructor ()
      ensures Valid() && fresh(slots) && Table() == map[]
      ensures generic == DEFAULT_GENERIC == [Rip, RetAddr, NoField, NoField, NoField, NoField]
    {
      slots := new Slot[TABLE_SIZE](i => Slot(0, BLANK));
      count, generic := 0, DEFAULT_GENERIC;
      new;
      BlankTable(slots[..]);
    }

    /** Address zero "succeeds" whenever there is an empty slot, and changes nothing a lookup can see. */
    method InsertExact(addr: nat, cfg: Config) returns (ok: bool)
      requires Valid()
      modifies this`count, slots
      ensures Valid() && Table() == Apply(old(Table()), addr, cfg)
      ensures ok <==> addr in old(Table()) || |old(Table())| < 64
    {
      ghost var before := slots[..];
      ContentsSize(before);
      for i := 0 to TABLE_SIZE
        invariant slots[..] == before && count == Occupied(before)
        invariant ProbedPast(before, addr, i)
      {
        var k := (addr / 8 % TABLE_SIZE + i) % TABLE_SIZE;
        assert k == Probe(addr, i);
        if slots[k].addr == addr {
          slots[k] := slots[k].(cfg := cfg);
          Overwrite(before, addr, cfg, i);
          assert slots[..] == before[k := Slot(addr, cfg)];
          return true;
        }
        if slots[k].addr == 0 {
          slots[k] := Slot(addr, cfg);
          count := count + 1;
          assert slots[..] == before[k := Slot(addr, cfg)];
          Occupy(before, addr, cfg, i);
          return true;
        }
      }
      ProbeDecides(before, addr, TABLE_SIZE);
      return false;
    }

    method LookupTransitionCfg(rip: nat) returns (cfg: Config)
      requires Valid()
      ensures cfg == LookupIn(Table(), generic, rip)
    {
      ContentsSize(slots[..]);
      if count > 0 {
        for i := 0 to TABLE_SIZE
          invariant ProbedPast(slots[..], rip, i)
        {
          var k := (rip / 8 % TABLE_SIZE + i) % TABLE_SIZE;
          assert k == Probe(rip, i);
          if slots[k].addr == 0 {
            ProbeDecides(slots[..], rip, i);
            return generic;
          }
          if slots[k].addr == rip {
            ContentsAt(slots[..], rip);
            return slots[k].cfg;
          }
        }
        ProbeDecides(slots[..], rip, TABLE_SIZE);
      }
      return generic;
    }
  }

  lemma BlankTable(slots: seq<Slot>)
    requires |slots| == TABLE_SIZE && forall k | 0 <= k < |slots| :: slots[k].addr == 0
    ensures TableOk(slots) && Contents(slots) == map[] && Occupied(slots) == 0
  {
    ContentsSize(slots);
    forall a: nat
      ensures a !in Contents(slots)
    {
      ContentsAt(slots, a);
    }
  }

  lemma Overwrite(slots: seq<Slot>, addr: nat, cfg: Config, i: nat)
    requires TableOk(slots) && i < TABLE_SIZE && ProbedPast(slots, addr, i) && slots[Probe(addr, i)].addr == addr
    ensures var after := slots[Probe(addr, i) := Slot(addr, cfg)];
            && TableOk(after) && Occupied(after) == Occupied(slots)
            && Contents(after) == Apply(Contents(slots), addr, cfg)
            && (addr in Contents(slots) || |Contents(slots)| < TABLE_SIZE)
  {
    var k := Probe(addr, i);
    OccupiedUpdate(slots, k, Slot(addr, cfg));
    ContentsSize(slots);
    ContentsAt(slots, addr);
    if addr == 0 {
      SameAddresses(slots, slots[k := Slot(addr, cfg)]);
    } else {
      ContentsUpdate(slots, k, addr, cfg);
      InsertKeepsNoGap(slots, addr, cfg, i);
    }
  }

  /** What empty slots hold besides their address matters to nobody. */
  lemma {:induction false} SameAddresses(slots: seq<Slot>, other: seq<Slot>)
    requires |slots| == |other| && forall k | 0 <= k < |slots| ::
               slots[k] == other[k] || slots[k].addr == other[k].addr == 0
    ensures Contents(slots) == Contents(other)
  {
    if slots != [] {
      SameAddresses(slots[..|slots| - 1], other[..|slots| - 1]);
    }
  }

  lemma Occupy(slots: seq<Slot>, addr: nat, cfg: Config, i: nat)
    requires TableOk(slots) && i < TABLE_SIZE && ProbedPast(slots, addr, i) && slots[Probe(addr, i)].addr == 0 &&
             addr != 0
    ensures var after := slots[Probe(addr, i) := Slot(addr, cfg)];
            && TableOk(after) && Occupied(after) == Occupied(slots) + 1
            && Contents(after) == Apply(Contents(slots), addr, cfg)
            && |Contents(slots)| < TABLE_SIZE
  {
    var k := Probe(addr, i);
    ProbeDecides(slots, addr, i);
    OccupiedUpdate(slots, k, Slot(addr, cfg));
    ContentsSize(slots);
    ContentsUpdate(slots, k, addr, cfg);
    InsertKeepsNoGap(slots, addr, cfg, i);
  }
}
