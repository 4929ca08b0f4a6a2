/**
 The agreement between capture and decode: the kernel chooses a configuration by the guest RIP and stores
 six values; the parser has only the values, the generic configuration and the mirrored exact ones, and must
 choose the same configuration again to name them.
 */
module CaptureDecode {
  import opened Common
  import opened TransitionConfigs
  import G = GuestMemory
  import P = PageTables

  // ----- Capture -----

  /** The general registers the exit handler has saved. */
  datatype Context = Context(
    rax: nat, rbx: nat, rcx: nat, rdx: nat, rsi: nat, rdi: nat, rbp: nat,
    r8: nat, r9: nat, r10: nat, r11: nat, r12: nat, r13: nat, r14: nat, r15: nat)

  /** The guest at a transition; `stackTop` is what RSP points to. */
  datatype Guest = Guest(rip: nat, rsp: nat, ctx: Context, stackTop: nat)

  function Resolve(g: Guest, f: Field): nat {
    match f
    case NoField => 0
    case Rip => g.rip case Rsp => g.rsp
    case Rax => g.ctx.rax case Rbx => g.ctx.rbx case Rcx => g.ctx.rcx case Rdx => g.ctx.rdx
    case Rsi => g.ctx.rsi case Rdi => g.ctx.rdi case Rbp => g.ctx.rbp
    case R8 => g.ctx.r8 case R9 => g.ctx.r9 case R10 => g.ctx.r10 case R11 => g.ctx.r11
    case R12 => g.ctx.r12 case R13 => g.ctx.r13 case R14 => g.ctx.r14 case R15 => g.ctx.r15
    case RetAddr => if g.rsp == 0 then 0 else g.stackTop
  }

  function LittleEndian(bytes: seq<G.Byte>): nat {
    if bytes == [] then 0 else bytes[0] as nat + 0x100 * LittleEndian(bytes[1..])
  }

  /** The eight bytes at RSP as far as they can be read, and zeros behind. */
  function StackBytes(bytes: seq<G.Byte>, t: P.Tables, root: nat, rsp: nat): (top: seq<G.Byte>)
    ensures |top| == 8
  {
    var range := G.Range(t, root, rsp, 8);
    var n := G.Accessible(rsp, range);
    seq(8, i requires 0 <= i < 8 => if i < n then G.ByteAt(bytes, range[i]) else 0)
  }

  function GuestAt(bytes: seq<G.Byte>, t: P.Tables, root: nat, rip: nat, rsp: nat, ctx: Context): Guest {
    Guest(rip, rsp, ctx, LittleEndian(StackBytes(bytes, t, root, rsp)))
  }

  /** Byte `k` of a value, the lowest first. */
  function ByteOf(value: nat, k: nat): nat {
    if k == 0 then value % 0x100 else ByteOf(value / 0x100, k - 1)
  }

  lemma {:induction false} LittleEndianBytes(bytes: seq<G.Byte>, k: nat)
    ensures ByteOf(LittleEndian(bytes), k) == if k < |bytes| then bytes[k] else 0
  {
    if bytes == [] {
      if k > 0 {
        LittleEndianBytes([], k - 1);
      }
    } else {
      var value, rest: nat := LittleEndian(bytes), LittleEndian(bytes[1..]);
      assert value == bytes[0] as nat + 0x100 * rest;
      assert value / 0x100 == rest && value % 0x100 == bytes[0];
      if k > 0 {
        LittleEndianBytes(bytes[1..], k - 1);
      }
    }
  }

  predicate ReadableTo(t: P.Tables, root: nat, rsp: nat, k: nat) {
    forall a | rsp <= a <= rsp + k :: 0 < P.GvaToGpa(t, root, a) < 0x80_0000_0000
  }

  lemma StackByteAt(bytes: seq<G.Byte>, t: P.Tables, root: nat, rsp: nat, k: nat)
    requires |bytes| == 0x80_0000_0000 && rsp != 0 && k < 8
    ensures StackBytes(bytes, t, root, rsp)[k] ==
            if ReadableTo(t, root, rsp, k) then G.ByteAt(bytes, P.GvaToGpa(t, root, rsp + k)) else 0
  {
    var range := G.Range(t, root, rsp, 8);
    var n := G.Accessible(rsp, range);
    if k < n {
      forall a | rsp <= a <= rsp + k
        ensures 0 < P.GvaToGpa(t, root, a) < 0x80_0000_0000
      {
        assert G.Reachable(range[..n][a - rsp]);
      }
    } else {
      assert range[n] == P.GvaToGpa(t, root, rsp + n);
    }
  }

  /** Byte `k` of the return address is the byte of the guest at RSP + k, as far as the stack can be read. */
  lemma {:induction false} ReturnAddressBytes(bytes: seq<G.Byte>, t: P.Tables, root: nat, rip: nat, rsp: nat,
                                              ctx: Context, k: nat)
    requires |bytes| == 0x80_0000_0000 && rsp != 0
    ensures var value := Resolve(GuestAt(bytes, t, root, rip, rsp, ctx), RetAddr);
            ByteOf(value, k) ==
            if k < 8 && ReadableTo(t, root, rsp, k) then G.ByteAt(bytes, P.GvaToGpa(t, root, rsp + k)) else 0
  {
    LittleEndianBytes(StackBytes(bytes, t, root, rsp), k);
    if k < 8 {
      StackByteAt(bytes, t, root, rsp, k);
    }
  }

  const NO_CONTEXT := Context(0, 0, 0, 0, 0, 0, 0, 0, 0, 0, 0, 0, 0, 0, 0)

  type Values = v: seq<nat> | |v| == FIELD_COUNT witness [0, 0, 0, 0, 0, 0]

  function Capture(cfg: Config, g: Guest): Values {
    seq<nat>(FIELD_COUNT, i requires 0 <= i < FIELD_COUNT => Resolve(g, cfg[i]))
  }

  /** Each value is that of the register its field names; the return address is read from the stack of the guest. */
  predicate CapturesRegisters(cfg: Config, g: Guest, out: seq<nat>) {
    && |out| == 6
    && forall i | 0 <= i < 6 ::
         && (cfg[i] == NoField ==> out[i] == 0)
         && (cfg[i] == Rip ==> out[i] == g.rip) && (cfg[i] == Rsp ==> out[i] == g.rsp)
         && (cfg[i] == Rax ==> out[i] == g.ctx.rax) && (cfg[i] == Rbx ==> out[i] == g.ctx.rbx)
         && (cfg[i] == Rcx ==> out[i] == g.ctx.rcx) && (cfg[i] == Rdx ==> out[i] == g.ctx.rdx)
         && (cfg[i] == Rsi ==> out[i] == g.ctx.rsi) && (cfg[i] == Rdi ==> out[i] == g.ctx.rdi)
         && (cfg[i] == Rbp ==> out[i] == g.ctx.rbp)
         && (cfg[i] == R8 ==> out[i] == g.ctx.r8) && (cfg[i] == R9 ==> out[i] == g.ctx.r9)
         && (cfg[i] == R10 ==> out[i] == g.ctx.r10) && (cfg[i] == R11 ==> out[i] == g.ctx.r11)
         && (cfg[i] == R12 ==> out[i] == g.ctx.r12) && (cfg[i] == R13 ==> out[i] == g.ctx.r13)
         && (cfg[i] == R14 ==> out[i] == g.ctx.r14) && (cfg[i] == R15 ==> out[i] == g.ctx.r15)
         && (cfg[i] == RetAddr ==> out[i] == if g.rsp == 0 then 0 else g.stackTop)
  }

  method ReadReturnAddress(mem: G.PhysicalMemory, t: P.Tables, root: nat, rsp: nat) returns (value: nat)
    requires mem.Valid()
    ensures value == LittleEndian(StackBytes(mem.bytes, t, root, rsp))
  {
    var buffer := new G.Byte[8](i => 0);
    ghost var range := G.Range(t, root, rsp, 8);
    var n := G.ReadGuestVirtual(mem, t, root, rsp, buffer, 8);
    G.LongestPrefixUnique(rsp, range, n, G.Accessible(rsp, range));
    forall i | 0 <= i < 8
      ensures buffer[i] == StackBytes(mem.bytes, t, root, rsp)[i]
    {
      if i < n {
        assert buffer[..n][i] == buffer[i];
      } else {
        assert buffer[n..][i - n] == buffer[i];
      }
    }
    assert buffer[..] == StackBytes(mem.bytes, t, root, rsp);
    value := LittleEndian(buffer[..]);
  }

  method ResolveDataField(mem: G.PhysicalMemory, t: P.Tables, root: nat, f: Field, rip: nat, rsp: nat, ctx: Context)
    returns (value: nat)
    requires mem.Valid()
    ensures value == Resolve(GuestAt(mem.bytes, t, root, rip, rsp, ctx), f)
  {
    match f {
      case NoField => value := 0;
      case Rip => value := rip;
      case Rsp => value := rsp;
      case Rax => value := ctx.rax;
      case Rbx => value := ctx.rbx;
      case Rcx => value := ctx.rcx;
      case Rdx => value := ctx.rdx;
      case Rsi => value := ctx.rsi;
      case Rdi => value := ctx.rdi;
      case Rbp => value := ctx.rbp;
      case R8 => value := ctx.r8;
      case R9 => value := ctx.r9;
      case R10 => value := ctx.r10;
      case R11 => value := ctx.r11;
      case R12 => value := ctx.r12;
      case R13 => value := ctx.r13;
      case R14 => value := ctx.r14;
      case R15 => value := ctx.r15;
      case RetAddr =>
        if rsp == 0 {
          return 0;
        }
        value := ReadReturnAddress(mem, t, root, rsp);
    }
  }

  method ResolveDataFields(mem: G.PhysicalMemory, t: P.Tables, root: nat, cfg: Config, rip: nat, rsp: nat,
                           ctx: Context, out: array<nat>)
    requires mem.Valid() && out.Length == FIELD_COUNT
    modifies out
    ensures var g := GuestAt(mem.bytes, t, root, rip, rsp, ctx);
            out[..] == Capture(cfg, g) && CapturesRegisters(cfg, g, out[..])
  {
    ghost var g := GuestAt(mem.bytes, t, root, rip, rsp, ctx);
    for i := 0 to FIELD_COUNT
      invariant forall j | 0 <= j < i :: out[j] == Resolve(g, cfg[j])
    {
      out[i] := ResolveDataField(mem, t, root, cfg[i], rip, rsp, ctx);
    }
    assert out[..] == Capture(cfg, g);
    CaptureIsOfRegisters(cfg, g);
  }

  lemma CaptureIsOfRegisters(cfg: Config, g: Guest)
    ensures CapturesRegisters(cfg, g, Capture(cfg, g))
  {
  }

  // ----- Decode -----

  datatype ExactEntry = ExactEntry(addr: nat, cfg: Config)

  /** The first entry of the mirror for an address. */
  function Search(mirror: seq<ExactEntry>, addr: nat): (r: Option<Config>)
    ensures r.None? <==> forall k | 0 <= k < |mirror| :: mirror[k].addr != addr
  {
    if mirror == [] then None
    else if mirror[0].addr == addr then Some(mirror[0].cfg)
    else Search(mirror[1..], addr)
  }

  /** Of several entries for an address the first one counts. */
  lemma {:induction false} SearchFirst(mirror: seq<ExactEntry>, k: nat)
    requires k < |mirror| && forall j | 0 <= j < k :: mirror[j].addr != mirror[k].addr
    ensures Search(mirror, mirror[k].addr) == Some(mirror[k].cfg)
  {
    if k > 0 {
      SearchFirst(mirror[1..], k - 1);
    }
  }

  function SlotFrom(cfg: Config, f: Field, i: nat): (r: Option<nat>)
    requires i <= FIELD_COUNT
    ensures r.Some? ==> i <= r.value < FIELD_COUNT && cfg[r.value] == f && forall j | i <= j < r.value :: cfg[j] != f
    ensures r.None? ==> forall j | i <= j < FIELD_COUNT :: cfg[j] != f
    decreases FIELD_COUNT - i
  {
    if i == FIELD_COUNT then None else if cfg[i] == f then Some(i) else SlotFrom(cfg, f, i + 1)
  }

  /** The first slot of a configuration that holds a field. */
  function FirstSlot(cfg: Config, f: Field): Option<nat> {
    SlotFrom(cfg, f, 0)
  }

  method FindDataSlot(cfg: Config, f: Field) returns (slot: Option<nat>)
    ensures slot == FirstSlot(cfg, f)
  {
    for i := 0 to FIELD_COUNT
      invariant FirstSlot(cfg, f) == SlotFrom(cfg, f, i)
    {
      if cfg[i] == f {
        return Some(i);
      }
    }
    return None;
  }

  /** The configuration the parser decodes an entry with. */
  function Decode(generic: Config, mirror: seq<ExactEntry>, data: Values): Config {
    match FirstSlot(generic, Rip)
    case None => generic
    case Some(slot) =>
      match Search(mirror, data[slot])
      case None => generic
      case Some(cfg) => cfg
  }

  method SelectConfig(generic: Config, mirror: seq<ExactEntry>, data: Values) returns (cfg: Config)
    ensures cfg == Decode(generic, mirror, data)
  {
    cfg := generic;
    var ripSlot := FindDataSlot(generic, Rip);
    if ripSlot.Some? && mirror != [] {
      var rip := data[ripSlot.value];
      for i := 0 to |mirror|
        invariant Search(mirror, rip) == Search(mirror[i..], rip)
      {
        assert mirror[i..][1..] == mirror[i + 1..];
        if mirror[i].addr == rip {
          return mirror[i].cfg;
        }
      }
    }
  }

  // ----- Agreement -----

  /** The parser's mirror and the kernel's table hold the same configurations; address zero is extra. */
  predicate InSync(mirror: seq<ExactEntry>, table: map<nat, Config>) {
    && 0 !in table
    && (forall k | 0 <= k < |mirror| :: mirror[k].addr == 0 || mirror[k].addr in table)
    && forall addr | addr in table :: Search(mirror, addr) == Some(table[addr])
  }

  predicate AgreesOn(generic: Config, table: map<nat, Config>, mirror: seq<ExactEntry>, g: Guest)
  {
    Decode(generic, mirror, Capture(LookupIn(table, generic, g.rip), g)) == LookupIn(table, generic, g.rip)
  }

  /**
   What the configurations must satisfy. With RIP in slot `r` of the generic one, every exact one needs RIP
   in slot `r` too, and an entry for address zero must be the generic one; without RIP in the generic one,
   every exact one must be the generic one.
   */
  predicate LayoutsAgree(generic: Config, table: map<nat, Config>, mirror: seq<ExactEntry>) {
    match FirstSlot(generic, Rip)
    case None => forall addr | addr in table :: table[addr] == generic
    case Some(r) =>
      && (Search(mirror, 0).Some? ==> Search(mirror, 0).value == generic)
      && forall addr | addr in table :: table[addr][r] == Rip
  }

  /** A guest at an address with all else zero. */
  function ZeroGuest(rip: nat): (g: Guest)
    ensures forall f: Field | f != Rip :: Resolve(g, f) == 0
  {
    Guest(rip, 0, NO_CONTEXT, 0)
  }

  lemma SearchAbsent(mirror: seq<ExactEntry>, table: map<nat, Config>, addr: nat)
    requires InSync(mirror, table) && addr != 0 && addr !in table
    ensures Search(mirror, addr).None?
  {
  }

  lemma AgreesIfLayoutsAgree(generic: Config, table: map<nat, Config>, mirror: seq<ExactEntry>, g: Guest)
    requires InSync(mirror, table) && LayoutsAgree(generic, table, mirror)
    ensures AgreesOn(generic, table, mirror, g)
  {
    var slot := FirstSlot(generic, Rip);
    if slot.Some? {
      var cfg := LookupIn(table, generic, g.rip);
      assert Capture(cfg, g)[slot.value] == g.rip;
      if g.rip != 0 && g.rip !in table {
        SearchAbsent(mirror, table, g.rip);
      }
    }
  }

  lemma LayoutsAgreeIfAgrees(generic: Config, table: map<nat, Config>, mirror: seq<ExactEntry>)
    requires InSync(mirror, table)
    requires forall g: Guest :: AgreesOn(generic, table, mirror, g)
    ensures LayoutsAgree(generic, table, mirror)
  {
    var slot := FirstSlot(generic, Rip);
    if slot.Some? {
      assert AgreesOn(generic, table, mirror, ZeroGuest(0));
      assert Capture(generic, ZeroGuest(0))[slot.value] == 0;
    }
    forall addr | addr in table
      ensures slot.None? ==> table[addr] == generic
      ensures slot.Some? ==> table[addr][slot.value] == Rip
    {
      assert AgreesOn(generic, table, mirror, ZeroGuest(addr));
      if slot.Some? {
        assert Capture(table[addr], ZeroGuest(addr))[slot.value] == Resolve(ZeroGuest(addr), table[addr][slot.value]);
      }
    }
  }

  /**
   The parser chooses the configuration the kernel captured with, for every guest, if and only if the
   layouts agree; the condition only looks at the configurations.
   */
  lemma DecodeAgreesIff(generic: Config, table: map<nat, Config>, mirror: seq<ExactEntry>)
    requires InSync(mirror, table)
    ensures (forall g: Guest :: AgreesOn(generic, table, mirror, g)) <==>
              LayoutsAgree(generic, table, mirror)
  {
    if LayoutsAgree(generic, table, mirror) {
      forall g: Guest
        ensures AgreesOn(generic, table, mirror, g)
      {
        AgreesIfLayoutsAgree(generic, table, mirror, g);
      }
    } else if forall g: Guest :: AgreesOn(generic, table, mirror, g) {
      LayoutsAgreeIfAgrees(generic, table, mirror);
    }
  }

  // ----- What is shown -----

  datatype Shown = Shown(field: Field, value: nat)

  /** The fields of a configuration with the values of an entry, without the unused slots. */
  function ShownUpTo(cfg: Config, data: Values, n: nat): seq<Shown>
    requires n <= FIELD_COUNT
  {
    if n == 0 then []
    else ShownUpTo(cfg, data, n - 1) + if cfg[n - 1] == NoField then [] else [Shown(cfg[n - 1], data[n - 1])]
  }

  /** The default line of the parser for an entry. */
  method FormatFields(generic: Config, mirror: seq<ExactEntry>, data: Values) returns (shown: seq<Shown>)
    ensures shown == ShownUpTo(Decode(generic, mirror, data), data, FIELD_COUNT)
  {
    var cfg := SelectConfig(generic, mirror, data);
    shown := [];
    for i := 0 to FIELD_COUNT
      invariant shown == ShownUpTo(cfg, data, i)
    {
      if cfg[i] == NoField {
        continue;
      }
      shown := shown + [Shown(cfg[i], data[i])];
    }
  }

  /** The fields of a configuration in slot order, each with the value it has in the guest. */
  function FieldsOf(cfg: Config, g: Guest, n: nat): seq<Shown>
    requires n <= FIELD_COUNT
  {
    if n == 0 then []
    else FieldsOf(cfg, g, n - 1) + if cfg[n - 1] == NoField then [] else [Shown(cfg[n - 1], Resolve(g, cfg[n - 1]))]
  }

  lemma {:induction false} CapturedIsShown(cfg: Config, g: Guest, n: nat)
    requires n <= FIELD_COUNT
    ensures ShownUpTo(cfg, Capture(cfg, g), n) == FieldsOf(cfg, g, n)
  {
    if n > 0 {
      CapturedIsShown(cfg, g, n - 1);
    }
  }

  /**
   From the guest to the line: if the layouts agree, what the parser shows of a captured entry is, slot by slot,
   the fields of the configuration that the kernel has for the guest's RIP with the guest's values.
   */
  lemma CaptureToLine(generic: Config, table: map<nat, Config>, mirror: seq<ExactEntry>, g: Guest)
    requires InSync(mirror, table) && LayoutsAgree(generic, table, mirror)
    ensures var cfg := LookupIn(table, generic, g.rip);
            var data := Capture(cfg, g);
            ShownUpTo(Decode(generic, mirror, data), data, FIELD_COUNT) == FieldsOf(cfg, g, FIELD_COUNT)
  {
    AgreesIfLayoutsAgree(generic, table, mirror, g);
    CapturedIsShown(LookupIn(table, generic, g.rip), g, FIELD_COUNT);
  }

  // ----- Keeping the mirror -----

  /** Replaces the configuration of the first entry for the address, or appends one. */
  function Mirrored(mirror: seq<ExactEntry>, addr: nat, cfg: Config): seq<ExactEntry> {
    if mirror == [] then [ExactEntry(addr, cfg)]
    else if mirror[0].addr == addr then [ExactEntry(addr, cfg)] + mirror[1..]
    else [mirror[0]] + Mirrored(mirror[1..], addr, cfg)
  }

  lemma {:induction false} SearchMirrored(mirror: seq<ExactEntry>, addr: nat, cfg: Config, a: nat)
    ensures Search(Mirrored(mirror, addr, cfg), a) == if a == addr then Some(cfg) else Search(mirror, a)
  {
    if mirror != [] && mirror[0].addr != addr {
      SearchMirrored(mirror[1..], addr, cfg, a);
      assert Mirrored(mirror, addr, cfg)[1..] == Mirrored(mirror[1..], addr, cfg);
    } else if mirror != [] {
      assert Mirrored(mirror, addr, cfg)[1..] == mirror[1..];
    } else {
      assert Mirrored(mirror, addr, cfg)[1..] == [];
    }
  }

  /** A table that accepted a configuration and a mirror that took it over stay in step. */
  lemma MirrorStaysInSync(mirror: seq<ExactEntry>, table: map<nat, Config>, addr: nat, cfg: Config)
    requires InSync(mirror, table) && (addr in table || |table| < TABLE_SIZE)
    ensures InSync(Mirrored(mirror, addr, cfg), Apply(table, addr, cfg))
  {
    var after := Mirrored(mirror, addr, cfg);
    forall k | 0 <= k < |after|
      ensures after[k].addr == 0 || after[k].addr in Apply(table, addr, cfg)
    {
      SearchMirrored(mirror, addr, cfg, after[k].addr);
      assert Search(after, after[k].addr).Some?;
    }
    forall a | a in Apply(table, addr, cfg)
      ensures Search(after, a) == Some(Apply(table, addr, cfg)[a])
    {
      SearchMirrored(mirror, addr, cfg, a);
    }
  }

  predicate Separate(tables: seq<ConfigTable>) {
    forall j, k | 0 <= j < k < |tables| :: tables[j] != tables[k] && tables[j].slots != tables[k].slots
  }

  /** The usermode side of the configuration commands, which go to the tables of all cores. */
  class ConfigMirror {
    var generic: Config
    var exact: seq<ExactEntry>

    /** Every core has a table of its own, all hold `m` and the generic configuration, and the mirror agrees. */
    predicate Synced(tables: seq<ConfigTable>, m: map<nat, Config>)
      reads this, tables, set k | 0 <= k < |tables| :: tables[k].slots
    {
      Separate(tables) && InSync(exact, m) && forall k | 0 <= k < |tables| :: tables[k].Holds(m, generic)
    }

    constructor (tables: seq<ConfigTable>)
      requires Separate(tables) && forall k | 0 <= k < |tables| :: tables[k].Holds(map[], DEFAULT_GENERIC)
      ensures Synced(tables, map[])
    {
      generic, exact := DEFAULT_GENERIC, [];
    }

    method ConfigureGeneric(tables: seq<ConfigTable>, cfg: Config, ghost m: map<nat, Config>)
      requires Synced(tables, m)
      modifies this, set k | 0 <= k < |tables| :: tables[k]
      ensures Synced(tables, m) && generic == cfg && exact == old(exact)
    {
      for k := 0 to |tables|
        invariant exact == old(exact) && generic == old(generic)
        invariant forall j | 0 <= j < k :: tables[j].Holds(m, cfg)
        invariant forall j | k <= j < |tables| :: tables[j].Holds(m, generic)
      {
        SetGeneric(tables[k], cfg, m);
      }
      generic := cfg;
    }

    method SetGeneric(table: ConfigTable, cfg: Config, ghost m: map<nat, Config>)
      requires table.Holds(m, generic)
      modifies table`generic
      ensures table.Holds(m, cfg)
    {
      table.generic := cfg;
    }

    /**
     Every core is asked, also after one has refused. The cores accept or refuse alike, and the mirror
     changes only if they accept; all stay in step.
     */
    method ConfigureExact(tables: seq<ConfigTable>, addr: nat, cfg: Config, ghost m: map<nat, Config>)
      returns (ok: bool)
      requires Synced(tables, m) && |tables| > 0
      modifies this, set k | 0 <= k < |tables| :: tables[k], set k | 0 <= k < |tables| :: tables[k].slots
      ensures Synced(tables, Apply(m, addr, cfg)) && generic == old(generic)
      ensures ok <==> addr in m || |m| < TABLE_SIZE
      ensures exact == if ok then Mirrored(old(exact), addr, cfg) else old(exact)
    {
      ok := InsertEverywhere(tables, addr, cfg, m);
      if !ok {
        return;
      }
      MirrorStaysInSync(exact, m, addr, cfg);
      var k := FindExact(addr);
      MirroredAt(exact, k, addr, cfg);
      exact := if k < |exact| then exact[k := ExactEntry(addr, cfg)] else exact + [ExactEntry(addr, cfg)];
    }

    /** Inserts into the table of each core; `m` is what they all hold. */
    method InsertEverywhere(tables: seq<ConfigTable>, addr: nat, cfg: Config, ghost m: map<nat, Config>)
      returns (ok: bool)
      requires Separate(tables) && |tables| > 0
      requires forall k | 0 <= k < |tables| :: tables[k].Holds(m, generic)
      modifies set k | 0 <= k < |tables| :: tables[k], set k | 0 <= k < |tables| :: tables[k].slots
      ensures forall k | 0 <= k < |tables| :: tables[k].Holds(Apply(m, addr, cfg), generic)
      ensures ok <==> addr in m || |m| < TABLE_SIZE
    {
      ok := true;
      for k := 0 to |tables|
        invariant generic == old(generic)
        invariant forall j | 0 <= j < k :: tables[j].Holds(Apply(m, addr, cfg), generic)
        invariant forall j | k <= j < |tables| :: tables[j].Holds(m, generic)
        invariant ok <==> k == 0 || addr in m || |m| < TABLE_SIZE
      {
        var accepted := InsertOne(tables[k], addr, cfg, m);
        ok := ok && accepted;
      }
    }

    method InsertOne(table: ConfigTable, addr: nat, cfg: Config, ghost m: map<nat, Config>) returns (ok: bool)
      requires table.Holds(m, generic)
      modifies table`count, table.slots
      ensures table.Holds(Apply(m, addr, cfg), generic)
      ensures ok <==> addr in m || |m| < TABLE_SIZE
    {
      ok := table.InsertExact(addr, cfg);
    }

    /** The position of the first entry for an address, or the length. */
    method FindExact(addr: nat) returns (k: nat)
      ensures k <= |exact| && (k < |exact| ==> exact[k].addr == addr)
      ensures forall j | 0 <= j < k :: exact[j].addr != addr
    {
      k := 0;
      while k < |exact| && exact[k].addr != addr
        invariant k <= |exact| && forall j | 0 <= j < k :: exact[j].addr != addr
      {
        k := k + 1;
      }
    }
  }

  lemma {:induction false} MirroredAt(mirror: seq<ExactEntry>, k: nat, addr: nat, cfg: Config)
    requires k <= |mirror| && (k < |mirror| ==> mirror[k].addr == addr)
    requires forall j | 0 <= j < k :: mirror[j].addr != addr
    ensures Mirrored(mirror, addr, cfg) ==
            if k < |mirror| then mirror[k := ExactEntry(addr, cfg)] else mirror + [ExactEntry(addr, cfg)]
    decreases k
  {
    if k > 0 {
      MirroredAt(mirror[1..], k - 1, addr, cfg);
    }
  }
}
