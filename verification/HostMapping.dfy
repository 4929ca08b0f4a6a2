/**
 Mapping an address range of the system into the host page tables: what is looked up, what gets mapped,
 and which addresses the 4 GB stride after a 1 GB leaf leaves out.
 */
module HostMapping {
  import opened Common
  import opened PageTables
  import opened HostTables

  // ----- The addresses the construction visits -----

  /** Where one step goes: past the leaf, but after a 1 GB leaf to the next multiple of 4 GB. */
  function Next(cur: nat, level: Level): (next: nat)
    ensures next > cur
  {
    match level
    case 1 => cur / SIZE_4K * SIZE_4K + SIZE_4K
    case 2 => cur / SIZE_2M * SIZE_2M + SIZE_2M
    case _ => cur / SIZE_4G * SIZE_4G + SIZE_4G
  }

  /** The lookup at position `k` succeeded, inside the range, and led to the next position. */
  predicate StepOk(sys: Tables, sysRoot: nat, end: nat, path: seq<nat>, k: nat)
    requires k + 1 < |path|
  {
    var leaf := Walk(sys, sysRoot, 4, path[k]);
    path[k] < end && leaf.Some? && path[k + 1] == Next(path[k], leaf.value.level)
  }

  /** The construction of a range has looked up `visits`, all successfully, and is now at `cur`. */
  predicate Reaches(sys: Tables, sysRoot: nat, va: nat, end: nat, visits: seq<nat>, cur: nat) {
    && (visits + [cur])[0] == va
    && forall k | 0 <= k < |visits| :: StepOk(sys, sysRoot, end, visits + [cur], k)
  }

  lemma ReachesStep(sys: Tables, sysRoot: nat, va: nat, end: nat, visits: seq<nat>, cur: nat, leaf: Leaf)
    requires Reaches(sys, sysRoot, va, end, visits, cur) && cur < end && Walk(sys, sysRoot, 4, cur) == Some(leaf)
    ensures Reaches(sys, sysRoot, va, end, visits + [cur], Next(cur, leaf.level))
  {
    var path := visits + [cur];
    var longer := path + [Next(cur, leaf.level)];
    forall k | 0 <= k < |path|
      ensures StepOk(sys, sysRoot, end, longer, k)
    {
      assert k < |visits| ==> StepOk(sys, sysRoot, end, path, k);
    }
  }

  /** The leaf one of the visited addresses shares with `a`. */
  function Covering(sys: Tables, sysRoot: nat, visits: seq<nat>, a: nat): Option<Leaf> {
    if visits == [] then
      None
    else
      var leaf := Walk(sys, sysRoot, 4, visits[|visits| - 1]);
      if leaf.Some? && SamePath(a, visits[|visits| - 1], leaf.value.level) then leaf
      else Covering(sys, sysRoot, visits[..|visits| - 1], a)
  }

  /** A walk after the construction: what was mapped stays, and the visited leaves are added. */
  predicate Mapped(before: Tables, after: Tables, root: nat, sys: Tables, sysRoot: nat, visits: seq<nat>, a: nat) {
    Walk(after, root, 4, a) ==
    if Walk(before, root, 4, a).Some? then Walk(before, root, 4, a) else Covering(sys, sysRoot, visits, a)
  }

  lemma MappedStep(before: Tables, now: Tables, after: Tables, root: nat, sys: Tables, sysRoot: nat, visits: seq<nat>,
                   va: nat, leaf: Leaf)
    requires forall a: nat :: Mapped(before, now, root, sys, sysRoot, visits, a)
    requires Walk(sys, sysRoot, 4, va) == Some(leaf) && forall a: nat :: WrittenWalk(now, after, root, va, leaf, a)
    ensures forall a: nat :: Mapped(before, after, root, sys, sysRoot, visits + [va], a)
  {
    forall a: nat
      ensures Mapped(before, after, root, sys, sysRoot, visits + [va], a)
    {
      assert Mapped(before, now, root, sys, sysRoot, visits, a) && WrittenWalk(now, after, root, va, leaf, a);
      assert (visits + [va])[..|visits|] == visits;
    }
  }

  lemma MappedUnchanged(before: Tables, now: Tables, after: Tables, root: nat, sys: Tables, sysRoot: nat,
                        visits: seq<nat>)
    requires forall a: nat :: Mapped(before, now, root, sys, sysRoot, visits, a)
    requires forall a: nat :: SameWalk(now, after, root, a)
    ensures forall a: nat :: Mapped(before, after, root, sys, sysRoot, visits, a)
  {
    forall a: nat
      ensures Mapped(before, after, root, sys, sysRoot, visits, a)
    {
      assert Mapped(before, now, root, sys, sysRoot, visits, a) && SameWalk(now, after, root, a);
    }
  }

  /** The system's leaf for an address, looked up table by table. */
  method GetSystemPte(sys: Tables, sysRoot: nat, va: nat) returns (r: Option<Leaf>)
    ensures r == Walk(sys, sysRoot, 4, va)
  {
    var pml4e := EntryAt(sys, sysRoot, Index(va, 4));
    if !pml4e.present {
      return None;
    }
    assert Walk(sys, sysRoot, 4, va) == Walk(sys, pml4e.pfn, 3, va);
    var pdpte := EntryAt(sys, pml4e.pfn, Index(va, 3));
    if !pdpte.present {
      return None;
    }
    if pdpte.large {
      return Some(Leaf(pdpte, 3));
    }
    assert Walk(sys, sysRoot, 4, va) == Walk(sys, pdpte.pfn, 2, va);
    var pde := EntryAt(sys, pdpte.pfn, Index(va, 2));
    if !pde.present {
      return None;
    }
    if pde.large {
      return Some(Leaf(pde, 2));
    }
    assert Walk(sys, sysRoot, 4, va) == Walk(sys, pde.pfn, 1, va);
    var pte := EntryAt(sys, pde.pfn, Index(va, 1));
    if !pte.present {
      return None;
    }
    return Some(Leaf(pte, 1));
  }

  lemma SameWalksCompose(before: Tables, now: Tables, after: Tables, root: nat)
    requires forall a: nat :: SameWalk(before, now, root, a)
    requires forall a: nat :: SameWalk(now, after, root, a)
    ensures forall a: nat :: SameWalk(before, after, root, a)
  {
    forall a: nat
      ensures SameWalk(before, after, root, a)
    {
      assert SameWalk(before, now, root, a) && SameWalk(now, after, root, a);
    }
  }

  predicate AvoidsWindow(va: nat, end: nat) {
    forall a: nat | va <= a < end :: Index(a, 4) != WINDOW_INDEX
  }

  // ----- The physical window -----

  function WindowLeaf(i: nat): Entry {
    Entry(true, true, i * 0x4_0000, WRITE_BIT)
  }

  /** At the window index the walk ends at the 1 GB leaf of the same number, elsewhere nothing is mapped. */
  predicate WindowOnly(mem: Tables, root: nat, va: nat) {
    Walk(mem, root, 4, va) == if Index(va, 4) == WINDOW_INDEX then Some(Leaf(WindowLeaf(Index(va, 3)), 3)) else None
  }

  predicate WindowTables(mem: Tables, root: nat, window: nat) {
    && root != window && mem.Keys == {root, window}
    && mem[root] == EmptyTable()[WINDOW_INDEX := Pointer(window)]
    && |mem[window]| == 512 && forall k | 0 <= k < 512 :: mem[window][k] == WindowLeaf(k)
  }

  lemma WindowTree(mem: Tables, owner: Owner, root: nat, window: nat, sys: Tables, sysRoot: nat)
    requires WindowTables(mem, root, window) && owner == map[root := [], window := [WINDOW_INDEX]]
    ensures Tree(mem, owner, root) && Agrees(mem, owner, sys, sysRoot)
  {
    assert TableAt(mem, root, [WINDOW_INDEX][..0]) == Some(root);
    assert LinkedAt(mem, owner, root, root) && LinkedAt(mem, owner, root, window);
  }

  lemma WindowWalk(mem: Tables, root: nat, window: nat, va: nat)
    requires WindowTables(mem, root, window)
    ensures WindowOnly(mem, root, va)
  {
    if Index(va, 4) == WINDOW_INDEX {
      assert EntryAt(mem, root, WINDOW_INDEX) == Pointer(window);
      assert EntryAt(mem, window, Index(va, 3)) == WindowLeaf(Index(va, 3));
      assert Walk(mem, root, 4, va) == Walk(mem, window, 3, va);
    } else {
      assert EntryAt(mem, root, Index(va, 4)) == NOT_PRESENT;
    }
  }

  /** Through the window every physical address below 512 GB is reached, whatever was mapped since. */
  lemma WindowStays(before: Tables, after: Tables, root: nat, sys: Tables, sysRoot: nat, visits: seq<nat>, va: nat)
    requires WindowOnly(before, root, va) && Mapped(before, after, root, sys, sysRoot, visits, va)
    requires Index(va, 4) == WINDOW_INDEX
    ensures WindowOnly(after, root, va) && GvaToGpa(after, root, va) == va % SIZE_512G
  {
    QuotientsNest(va);
    var i := Index(va, 3);
    assert va == va / SIZE_1G * SIZE_1G + va % SIZE_1G && va / SIZE_1G == va / SIZE_512G * 512 + i;
    assert i * 0x4_0000 / 0x4_0000 == i;
  }

  /** Every frame that has left the pool is a table now. */
  predicate Taken(before: Tables, poolBefore: seq<nat>, after: Tables, poolAfter: seq<nat>) {
    |after| + |poolAfter| == |before| + |poolBefore|
  }

  /** The host tables lack the table that would hold the leaf of the address. */
  predicate TableMissing(tables: Tables, root: nat, va: nat, level: Level)
    requires level <= 3
  {
    TableAt(tables, root, PathOf(va, 4 - level)).None?
  }

  /** Below an absent entry on the path there is no table. */
  lemma {:induction false} NoTableBelow(tables: Tables, owner: Owner, root: nat, va: nat, frame: nat, level: Level,
                                        leaf: Level)
    requires Tree(tables, owner, root) && frame in tables && owner[frame] == PathOf(va, 4 - level)
    requires leaf < level && !tables[frame][Index(va, level)].present
    ensures TableMissing(tables, root, va, leaf)
    decreases level - leaf
  {
    assert LinkedAt(tables, owner, root, frame);
    assert PathOf(va, 4 - leaf)[..3 - leaf] == PathOf(va, 3 - leaf);
    if leaf + 1 < level {
      NoTableBelow(tables, owner, root, va, frame, level, leaf + 1);
    }
  }

  /** The host page tables; `pool` lists the frames further tables can be allocated from. */
  class HostPageTables {
    const root: nat
    var tables: Tables
    var pool: seq<nat>
    ghost var owner: Owner

    ghost predicate Valid(sys: Tables, sysRoot: nat)
      reads this
    {
      Tree(tables, owner, root) && Agrees(tables, owner, sys, sysRoot) && FreshPool(tables, pool)
    }

    /** Maps the first 512 GB of physical memory at the window index, and nothing else. */
    constructor (rootFrame: nat, windowFrame: nat, frames: seq<nat>, ghost sys: Tables, ghost sysRoot: nat)
      requires rootFrame != windowFrame &&
               FreshPool(map[rootFrame := EmptyTable(), windowFrame := EmptyTable()], frames)
      ensures Valid(sys, sysRoot) && root == rootFrame && pool == frames
      ensures forall va: nat :: WindowOnly(tables, root, va)
      ensures EntryAt(tables, root, 255) == Entry(true, false, windowFrame, 2)
      ensures forall i: nat | i < 512 :: EntryAt(tables, windowFrame, i) == Entry(true, true, i * 0x4_0000, 2)
    {
      var window := EmptyTable();
      for i := 0 to 512
        invariant |window| == 512
        invariant forall k | 0 <= k < i :: window[k] == WindowLeaf(k)
      {
        window := window[i := WindowLeaf(i)];
      }
      root, pool := rootFrame, frames;
      tables := map[rootFrame := EmptyTable()[WINDOW_INDEX := Pointer(windowFrame)], windowFrame := window];
      owner := map[rootFrame := [], windowFrame := [WINDOW_INDEX]];
      new;
      WindowTree(tables, owner, root, windowFrame, sys, sysRoot);
      forall va: nat
        ensures WindowOnly(tables, root, va)
      {
        WindowWalk(tables, root, windowFrame, va);
      }
    }

    /** The address cannot be mapped: a table above its leaf is missing and no frame is left. */
    ghost predicate NoFrameFor(sys: Tables, sysRoot: nat, va: nat)
      reads this
    {
      var leaf := Walk(sys, sysRoot, 4, va);
      pool == [] && leaf.Some? && TableMissing(tables, root, va, leaf.value.level)
    }

    /** Hangs a zeroed frame of the pool under an absent entry. */
    method AllocateTable(ghost sys: Tables, ghost sysRoot: nat, frame: nat, i: nat) returns (table: nat)
      requires Valid(sys, sysRoot) && pool != []
      requires frame in tables && i < 512 && |owner[frame]| < 3 && !tables[frame][i].present
      requires (owner[frame] + [i])[0] == WINDOW_INDEX || TableAt(sys, sysRoot, owner[frame] + [i]).Some?
      modifies this
      ensures Valid(sys, sysRoot)
      ensures forall a: nat :: SameWalk(old(tables), tables, root, a)
      ensures table in tables && owner[table] == old(owner[frame]) + [i]
      ensures Taken(old(tables), old(pool), tables, pool)
      ensures EntryAt(tables, frame, i) == Entry(true, false, table, 2)
    {
      table := pool[0];
      AddTable(tables, owner, root, sys, sysRoot, frame, i, table);
      tables := SetEntry(tables, frame, i, Pointer(table))[table := EmptyTable()];
      owner := owner[table := owner[frame] + [i]];
      pool := pool[1..];
    }

    /** The next table on the path of `va`, allocated if it does not exist; fails when the pool is empty. */
    method EnsureTable(ghost sys: Tables, ghost sysRoot: nat, va: nat, frame: nat, level: Level)
      returns (child: Option<nat>)
      requires Valid(sys, sysRoot) && Index(va, 4) != WINDOW_INDEX
      requires 2 <= level && frame in tables && owner[frame] == PathOf(va, 4 - level)
      requires TableAt(sys, sysRoot, PathOf(va, 5 - level)).Some?
      modifies this
      ensures Valid(sys, sysRoot)
      ensures forall a: nat :: SameWalk(old(tables), tables, root, a)
      ensures child.None? <==> old(pool) == [] && !old(tables[frame][Index(va, level)].present)
      ensures child.None? ==> tables == old(tables) && owner == old(owner) && pool == []
      ensures child.Some? ==> child.value in tables && owner[child.value] == PathOf(va, 5 - level)
      ensures Taken(old(tables), old(pool), tables, pool)
    {
      var i := Index(va, level);
      assert PathOf(va, 5 - level) == owner[frame] + [i];
      if !tables[frame][i].present {
        if pool == [] {
          return None;
        }
        var table := AllocateTable(sys, sysRoot, frame, i);
        return Some(table);
      }
      assert ChildOk(tables, owner, frame, i);
      PointerNotLeaf(tables, owner, root, sys, sysRoot, frame, va, level);
      return Some(tables[frame][i].pfn);
    }

    /** Finds or makes the tables above the leaf of `va`, and returns the one that holds it. */
    method TablesAbove(ghost sys: Tables, ghost sysRoot: nat, va: nat, leaf: Leaf) returns (found: Option<nat>)
      requires Valid(sys, sysRoot) && Index(va, 4) != WINDOW_INDEX
      requires Walk(sys, sysRoot, 4, va) == Some(leaf)
      modifies this
      ensures Valid(sys, sysRoot)
      ensures forall a: nat :: SameWalk(old(tables), tables, root, a)
      ensures found.Some? ==> found.value in tables && owner[found.value] == PathOf(va, 4 - leaf.level)
      ensures found.None? ==> pool == [] && TableMissing(tables, root, va, leaf.level)
      ensures Taken(old(tables), old(pool), tables, pool)
    {
      ghost var before := tables;
      var level, frame: nat := 4, root;
      while level > leaf.level
        invariant leaf.level <= level <= 4
        invariant Valid(sys, sysRoot) && frame in tables && owner[frame] == PathOf(va, 4 - level)
        invariant forall a: nat :: SameWalk(before, tables, root, a)
        invariant Taken(before, old(pool), tables, pool)
      {
        TableOnTheWay(sys, sysRoot, va, 5 - level);
        ghost var now := tables;
        var child := EnsureTable(sys, sysRoot, va, frame, level);
        SameWalksCompose(before, now, tables, root);
        if child.None? {
          NoTableBelow(tables, owner, root, va, frame, level, leaf.level);
          return None;
        }
        frame, level := child.value, level - 1;
      }
      return Some(frame);
    }

    /** Maps the leaf of `va`: the tables above it, then the copy of the system entry. */
    method MapLeaf(ghost sys: Tables, ghost sysRoot: nat, va: nat, leaf: Leaf) returns (ok: bool)
      requires Valid(sys, sysRoot) && Index(va, 4) != WINDOW_INDEX
      requires Walk(sys, sysRoot, 4, va) == Some(leaf)
      modifies this
      ensures Valid(sys, sysRoot)
      ensures ok ==> forall a: nat :: WrittenWalk(old(tables), tables, root, va, leaf, a)
      ensures !ok ==> pool == [] && forall a: nat :: SameWalk(old(tables), tables, root, a)
      ensures !ok ==> TableMissing(tables, root, va, leaf.level)
      ensures Taken(old(tables), old(pool), tables, pool)
    {
      ghost var before := tables;
      var found := TablesAbove(sys, sysRoot, va, leaf);
      if found.None? {
        return false;
      }
      var frame := found.value;
      WriteLeaf(tables, owner, root, sys, sysRoot, frame, va);
      ghost var now := tables;
      tables := SetEntry(tables, frame, Index(va, leaf.level), leaf.entry);
      forall a: nat
        ensures WrittenWalk(before, tables, root, va, leaf, a)
      {
        assert SameWalk(before, now, root, a) && WrittenWalk(now, tables, root, va, leaf, a);
      }
      return true;
    }

    /**
     Maps a range with the entries the system tables have for it. Whether it succeeds or not, nothing that
     was mapped changes, and what is added is exactly the leaves of the addresses looked up. It stops
     short of the end only at an address the system does not map, or for lack of a frame.
     */
    method MapVaRange(sys: Tables, sysRoot: nat, va: nat, size: nat)
      returns (ok: bool, ghost visits: seq<nat>, ghost reached: nat)
      requires Valid(sys, sysRoot) && AvoidsWindow(va, va + size)
      modifies this
      ensures Valid(sys, sysRoot)
      ensures Reaches(sys, sysRoot, va, va + size, visits, reached)
      ensures ok <==> reached >= va + size
      ensures !ok <==>
                reached < va + size && (Walk(sys, sysRoot, 4, reached).None? || NoFrameFor(sys, sysRoot, reached))
      ensures Taken(old(tables), old(pool), tables, pool)
      ensures forall a: nat :: Mapped(old(tables), tables, root, sys, sysRoot, visits, a)
    {
      var cur: nat, end: nat := va, va + size;
      visits, reached := [], va;
      ghost var before := tables;
      while cur < end
        invariant va <= cur == reached && Valid(sys, sysRoot)
        invariant Reaches(sys, sysRoot, va, end, visits, cur)
        invariant Taken(before, old(pool), tables, pool)
        invariant forall a: nat :: Mapped(before, tables, root, sys, sysRoot, visits, a)
        decreases end - cur
      {
        var leaf := GetSystemPte(sys, sysRoot, cur);
        if leaf.None? {
          return false, visits, cur;
        }
        ReachesStep(sys, sysRoot, va, end, visits, cur, leaf.value);
        ghost var now := tables;
        var mapped := MapLeaf(sys, sysRoot, cur, leaf.value);
        if !mapped {
          MappedUnchanged(before, now, tables, root, sys, sysRoot, visits);
          return false, visits, cur;
        }
        MappedStep(before, now, tables, root, sys, sysRoot, visits, cur, leaf.value);
        visits := visits + [cur];
        if leaf.value.level == 3 {
          cur := cur / SIZE_4G * SIZE_4G + SIZE_4G;
        } else if leaf.value.level == 2 {
          cur := cur / SIZE_2M * SIZE_2M + SIZE_2M;
        } else {
          cur := cur / SIZE_4K * SIZE_4K + SIZE_4K;
        }
        reached := cur;
      }
      return true, visits, cur;
    }
  }

  // ----- What a range ends up mapped to -----

  predicate LargeLeaf(sys: Tables, sysRoot: nat, va: nat) {
    Walk(sys, sysRoot, 4, va).Some? && Walk(sys, sysRoot, 4, va).value.level == 3
  }

  /** An earlier address of the range, in the same 4 GB but an earlier 1 GB, is mapped by a 1 GB leaf. */
  ghost predicate Skipped(sys: Tables, sysRoot: nat, va: nat, a: nat) {
    exists c: nat ::
      va <= c < a && c / SIZE_4G == a / SIZE_4G && c / SIZE_1G < a / SIZE_1G && LargeLeaf(sys, sysRoot, c)
  }

  predicate SameHalf(a: nat, b: nat) {
    a / HALF == b / HALF
  }

  lemma BetweenHalf(va: nat, a: nat, end: nat)
    requires va <= a < end && SameHalf(va, end - 1)
    ensures SameHalf(a, va)
  {
  }

  /** Within one half of the address space the tables tell all pages apart. */
  lemma SamePathIsSameEntry(a: nat, b: nat, level: Level)
    requires SameHalf(a, b)
    ensures SamePath(a, b, level) <==> SameEntry(a, b, level)
    decreases 4 - level
  {
    SamePathSplits(a, b, level);
    QuotientsNest(a);
    QuotientsNest(b);
    if level == 4 {
      assert PathOf(a, 0) == PathOf(b, 0);
      assert a / SIZE_512G / 512 == a / HALF && b / SIZE_512G / 512 == b / HALF;
    } else {
      SamePathIsSameEntry(a, b, level + 1);
      assert SamePath(a, b, level + 1) == (PathOf(a, 4 - level) == PathOf(b, 4 - level));
      assert a / Size(level + 1) == a / Size(level) / 512 && b / Size(level + 1) == b / Size(level) / 512;
    }
  }

  lemma ReachesBack(sys: Tables, sysRoot: nat, va: nat, end: nat, visits: seq<nat>, cur: nat)
    requires Reaches(sys, sysRoot, va, end, visits, cur) && visits != []
    ensures var n := |visits| - 1;
            var leaf := Walk(sys, sysRoot, 4, visits[n]);
            && Reaches(sys, sysRoot, va, end, visits[..n], visits[n])
            && visits[n] < end && leaf.Some? && cur == Next(visits[n], leaf.value.level)
  {
    var n := |visits| - 1;
    var path, shorter := visits + [cur], visits[..n] + [visits[n]];
    assert StepOk(sys, sysRoot, end, path, n);
    forall k | 0 <= k < n
      ensures StepOk(sys, sysRoot, end, shorter, k)
    {
      assert StepOk(sys, sysRoot, end, path, k);
    }
  }

  lemma {:induction false} ReachesForward(sys: Tables, sysRoot: nat, va: nat, end: nat, visits: seq<nat>, cur: nat)
    requires Reaches(sys, sysRoot, va, end, visits, cur)
    ensures va <= cur
  {
    if visits != [] {
      ReachesBack(sys, sysRoot, va, end, visits, cur);
      ReachesForward(sys, sysRoot, va, end, visits[..|visits| - 1], visits[|visits| - 1]);
    }
  }

  /** One step stays within the leaf, or within the 4 GB block after a 1 GB leaf. */
  lemma WithinStep(sys: Tables, sysRoot: nat, cur: nat, a: nat)
    requires Walk(sys, sysRoot, 4, cur).Some? && cur <= a < Next(cur, Walk(sys, sysRoot, 4, cur).value.level)
    ensures var level := Walk(sys, sysRoot, 4, cur).value.level;
            && (level < 3 ==> SameEntry(a, cur, level) && Walk(sys, sysRoot, 4, a) == Walk(sys, sysRoot, 4, cur))
            && (level == 3 ==> a / SIZE_4G == cur / SIZE_4G < Next(cur, level) / SIZE_4G)
  {
    var level := Walk(sys, sysRoot, 4, cur).value.level;
    if level < 3 {
      WalkSameEntry(sys, sysRoot, 4, cur, a);
    }
  }

  /** The construction never stands behind a 1 GB leaf of the range in the same 4 GB block. */
  lemma {:induction false} NoLargeLeafBehind(sys: Tables, sysRoot: nat, va: nat, end: nat, visits: seq<nat>, cur: nat,
                                             c: nat)
    requires Reaches(sys, sysRoot, va, end, visits, cur) && va <= c < cur && c / SIZE_4G == cur / SIZE_4G
    ensures !LargeLeaf(sys, sysRoot, c)
  {
    if visits != [] {
      ReachesBack(sys, sysRoot, va, end, visits, cur);
      var last := visits[|visits| - 1];
      if c < last {
        NoLargeLeafBehind(sys, sysRoot, va, end, visits[..|visits| - 1], last, c);
      } else {
        WithinStep(sys, sysRoot, last, c);
      }
    }
  }

  /** Where the construction stands at `cur`, no address from `cur` up to `a` in its step is skipped. */
  lemma NotSkipped(sys: Tables, sysRoot: nat, va: nat, end: nat, visits: seq<nat>, cur: nat, a: nat)
    requires Reaches(sys, sysRoot, va, end, visits, cur) && Walk(sys, sysRoot, 4, cur).Some?
    requires SameEntry(a, cur, Walk(sys, sysRoot, 4, cur).value.level)
    ensures !Skipped(sys, sysRoot, va, a)
  {
    var level := Walk(sys, sysRoot, 4, cur).value.level;
    SameEntryAbove(a, cur, level, 3);
    assert a / SIZE_4G == a / SIZE_1G / 4 && cur / SIZE_4G == cur / SIZE_1G / 4;
    forall c: nat | va <= c < a && c / SIZE_4G == a / SIZE_4G && c / SIZE_1G < a / SIZE_1G
      ensures !LargeLeaf(sys, sysRoot, c)
    {
      assert c < cur;
      NoLargeLeafBehind(sys, sysRoot, va, end, visits, cur, c);
    }
  }

  lemma BeforeNext(a: nat, cur: nat, level: Level)
    ensures level <= 3 && SameEntry(a, cur, level) ==> a < Next(cur, level)
  {
    match level {
      case 1 => assert a / SIZE_4K == cur / SIZE_4K ==> a < cur / SIZE_4K * SIZE_4K + SIZE_4K;
      case 2 => assert a / SIZE_2M == cur / SIZE_2M ==> a < cur / SIZE_2M * SIZE_2M + SIZE_2M;
      case _ =>
        assert a / SIZE_4G == a / SIZE_1G / 4 && cur / SIZE_4G == cur / SIZE_1G / 4;
        assert a / SIZE_4G == cur / SIZE_4G ==> a < cur / SIZE_4G * SIZE_4G + SIZE_4G;
    }
  }

  /** Nothing at or above the current address is covered yet. */
  lemma {:induction false} CoveredIsBehind(sys: Tables, sysRoot: nat, va: nat, end: nat, visits: seq<nat>, cur: nat,
                                           a: nat)
    requires Reaches(sys, sysRoot, va, end, visits, cur) && SameHalf(a, va) && va < end && SameHalf(va, end - 1)
    requires Covering(sys, sysRoot, visits, a).Some?
    ensures a < cur
  {
    ReachesBack(sys, sysRoot, va, end, visits, cur);
    var n := |visits| - 1;
    var leaf := Walk(sys, sysRoot, 4, visits[n]).value;
    ReachesForward(sys, sysRoot, va, end, visits[..n], visits[n]);
    BetweenHalf(va, visits[n], end);
    if SamePath(a, visits[n], leaf.level) {
      BeforeNext(a, visits[n], leaf.level);
      SamePathIsSameEntry(a, visits[n], leaf.level);
    } else {
      CoveredIsBehind(sys, sysRoot, va, end, visits[..n], visits[n], a);
    }
  }

  /** Behind the current address everything is covered by its own leaf, except what was skipped. */
  lemma {:induction false} BehindIsCovered(sys: Tables, sysRoot: nat, va: nat, end: nat, visits: seq<nat>, cur: nat,
                                           a: nat)
    requires Reaches(sys, sysRoot, va, end, visits, cur) && SameHalf(a, va) && va < end && SameHalf(va, end - 1)
    requires va <= a < cur
    ensures Covering(sys, sysRoot, visits, a) == if Skipped(sys, sysRoot, va, a) then None else Walk(sys, sysRoot, 4, a)
    ensures !Skipped(sys, sysRoot, va, a) ==> Walk(sys, sysRoot, 4, a).Some?
  {
    ReachesBack(sys, sysRoot, va, end, visits, cur);
    var n := |visits| - 1;
    var last := visits[n];
    var leaf := Walk(sys, sysRoot, 4, last).value;
    ReachesForward(sys, sysRoot, va, end, visits[..n], last);
    BetweenHalf(va, last, end);
    SamePathIsSameEntry(a, last, leaf.level);
    if SameEntry(a, last, leaf.level) {
      WalkSameEntry(sys, sysRoot, 4, last, a);
      NotSkipped(sys, sysRoot, va, end, visits[..n], last, a);
    } else if a < last {
      BehindIsCovered(sys, sysRoot, va, end, visits[..n], last, a);
    } else {
      WithinStep(sys, sysRoot, last, a);
      assert LargeLeaf(sys, sysRoot, last);
      assert Skipped(sys, sysRoot, va, a);
      if Covering(sys, sysRoot, visits[..n], a).Some? {
        CoveredIsBehind(sys, sysRoot, va, end, visits[..n], last, a);
      }
    }
  }

  /**
   After a successful construction every address of the range walks in the host tables exactly as in the
   system tables, at the same level, unless it was skipped; a skipped address is mapped only if it was
   mapped before.
   */
  lemma RangeMapsLikeSystem(before: Tables, after: Tables, owner: Owner, root: nat, sys: Tables, sysRoot: nat, va: nat,
                            end: nat, visits: seq<nat>, reached: nat, a: nat)
    requires Tree(after, owner, root) && Agrees(after, owner, sys, sysRoot) && AvoidsWindow(va, end)
    requires va <= a < end && SameHalf(va, end - 1)
    requires Reaches(sys, sysRoot, va, end, visits, reached) && reached >= end
    requires Mapped(before, after, root, sys, sysRoot, visits, a)
    ensures Skipped(sys, sysRoot, va, a) ==> Walk(after, root, 4, a) == Walk(before, root, 4, a)
    ensures !Skipped(sys, sysRoot, va, a) ==>
              Walk(after, root, 4, a).Some? && Walk(after, root, 4, a) == Walk(sys, sysRoot, 4, a)
  {
    BetweenHalf(va, a, end);
    BehindIsCovered(sys, sysRoot, va, end, visits, reached, a);
    if Walk(after, root, 4, a).Some? {
      assert Index(a, 4) != WINDOW_INDEX;
      HostAgreesWithSystem(after, owner, root, sys, sysRoot, a);
    }
  }

  ghost predicate AllCovered(sys: Tables, sysRoot: nat, visits: seq<nat>, va: nat, end: nat) {
    forall a: nat | va <= a < end :: Covering(sys, sysRoot, visits, a).Some?
  }

  ghost predicate NoneSkipped(sys: Tables, sysRoot: nat, va: nat, end: nat) {
    forall a: nat | va <= a < end :: !Skipped(sys, sysRoot, va, a)
  }

  /** A range none of which was mapped is mapped completely if and only if none of it is skipped. */
  lemma CompleteIffNoneSkipped(sys: Tables, sysRoot: nat, va: nat, end: nat, visits: seq<nat>, reached: nat)
    requires va < end && SameHalf(va, end - 1)
    requires Reaches(sys, sysRoot, va, end, visits, reached) && reached >= end
    ensures AllCovered(sys, sysRoot, visits, va, end) <==> NoneSkipped(sys, sysRoot, va, end)
  {
    if AllCovered(sys, sysRoot, visits, va, end) {
      forall a: nat | va <= a < end
        ensures !Skipped(sys, sysRoot, va, a)
      {
        BetweenHalf(va, a, end);
        BehindIsCovered(sys, sysRoot, va, end, visits, reached, a);
      }
    }
    if NoneSkipped(sys, sysRoot, va, end) {
      forall a: nat | va <= a < end
        ensures Covering(sys, sysRoot, visits, a).Some?
      {
        BetweenHalf(va, a, end);
        BehindIsCovered(sys, sysRoot, va, end, visits, reached, a);
      }
    }
  }

  /** In particular a range that meets no 1 GB leaf is mapped completely. */
  lemma NoLargeLeafNoneSkipped(sys: Tables, sysRoot: nat, va: nat, end: nat)
    requires forall a: nat | va <= a < end :: !LargeLeaf(sys, sysRoot, a)
    ensures NoneSkipped(sys, sysRoot, va, end)
  {
  }

  /** Over-mapping goes no further than the leaves of the range: what is added shares a leaf with it. */
  lemma {:induction false} AddedSharesLeaf(sys: Tables, sysRoot: nat, va: nat, end: nat, visits: seq<nat>,
                                           reached: nat, a: nat)
    returns (b: nat)
    requires Reaches(sys, sysRoot, va, end, visits, reached)
    requires Covering(sys, sysRoot, visits, a).Some?
    ensures va <= b < end && Walk(sys, sysRoot, 4, b) == Covering(sys, sysRoot, visits, a)
    ensures SamePath(a, b, Covering(sys, sysRoot, visits, a).value.level)
  {
    ReachesBack(sys, sysRoot, va, end, visits, reached);
    var n := |visits| - 1;
    ReachesForward(sys, sysRoot, va, end, visits[..n], visits[n]);
    if SamePath(a, visits[n], Walk(sys, sysRoot, 4, visits[n]).value.level) {
      b := visits[n];
    } else {
      b := AddedSharesLeaf(sys, sysRoot, va, end, visits[..n], visits[n], a);
    }
  }

  /** Two 1 GB leaves in a row: the construction of both succeeds, and the second one is not mapped. */
  lemma SecondGigabyteIsSkipped()
    ensures var sys: Tables := map[0 := [Pointer(1)], 1 := [Entry(true, true, 0, 0), Entry(true, true, 0x4_0000, 0)]];
            && Walk(sys, 0, 4, SIZE_1G).Some?
            && Reaches(sys, 0, 0, 2 * SIZE_1G, [0], SIZE_4G)
            && Covering(sys, 0, [0], SIZE_1G).None?
  {
    var sys: Tables := map[0 := [Pointer(1)], 1 := [Entry(true, true, 0, 0), Entry(true, true, 0x4_0000, 0)]];
    assert Walk(sys, 0, 4, 0) == Walk(sys, 1, 3, 0) == Some(Leaf(Entry(true, true, 0, 0), 3));
    assert Walk(sys, 0, 4, SIZE_1G) == Walk(sys, 1, 3, SIZE_1G) == Some(Leaf(Entry(true, true, 0x4_0000, 0), 3));
    assert StepOk(sys, 0, 2 * SIZE_1G, [0] + [SIZE_4G], 0);
    SamePathIsSameEntry(SIZE_1G, 0, 3);
  }
}
