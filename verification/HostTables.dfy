/**
 Building the host page tables from the system ones. The host tables are a tree of table frames; every
 leaf in it is a copy of the system leaf for the same address.
 */
module HostTables {
  import opened Common
  import opened PageTables

  const WINDOW_INDEX: nat := 255
  const SIZE_4G: nat := 0x1_0000_0000
  const HALF: nat := 0x1_0000_0000_0000
  const WRITE_BIT: nat := 2

  function EmptyTable(): (t: seq<Entry>)
    ensures |t| == 512
  {
    seq(512, i => NOT_PRESENT)
  }

  function Pointer(frame: nat): Entry {
    Entry(true, false, frame, WRITE_BIT)
  }

  /** The indices a walk of `va` uses in its first `n` tables. */
  function PathOf(va: nat, n: nat): (path: seq<nat>)
    requires n <= 4
    ensures |path| == n
  {
    if n == 0 then [] else PathOf(va, n - 1) + [Index(va, 5 - n)]
  }

  /** The table frame a path of indices leads to, through present non-leaf entries only. */
  function TableAt(t: Tables, root: nat, path: seq<nat>): Option<nat>
    requires |path| <= 3
  {
    if path == [] then
      Some(root)
    else
      var n := |path| - 1;
      match TableAt(t, root, path[..n])
      case None => None
      case Some(frame) =>
        var e := EntryAt(t, frame, path[n]);
        if e.present && !IsLeaf(e, 4 - n) then Some(e.pfn) else None
  }

  // ----- The tree -----

  /** `owner` gives the path of every host table frame. */
  type Owner = map<nat, seq<nat>>

  function LevelOf(path: seq<nat>): Level
    requires |path| <= 3
  {
    4 - |path|
  }

  predicate Sized(mem: Tables, owner: Owner) {
    mem.Keys == owner.Keys && forall f | f in mem :: |mem[f]| == 512 && |owner[f]| <= 3
  }

  /** A present non-leaf entry leads to a host table whose path is one index longer. */
  predicate ChildOk(mem: Tables, owner: Owner, f: nat, i: nat)
    requires Sized(mem, owner) && f in mem && i < 512
  {
    var e := mem[f][i];
    e.present && !IsLeaf(e, LevelOf(owner[f])) ==> e.pfn in mem && owner[e.pfn] == owner[f] + [i]
  }

  /** Following the path of a host table from the root leads to that table. */
  predicate LinkedAt(mem: Tables, owner: Owner, root: nat, f: nat)
    requires Sized(mem, owner) && f in mem
  {
    TableAt(mem, root, owner[f]) == Some(f)
  }

  predicate Linked(mem: Tables, owner: Owner, root: nat)
    requires Sized(mem, owner)
  {
    forall f {:trigger LinkedAt(mem, owner, root, f)} | f in mem :: LinkedAt(mem, owner, root, f)
  }

  predicate Tree(mem: Tables, owner: Owner, root: nat) {
    && Sized(mem, owner)
    && root in mem && owner[root] == []
    && (forall f, i: nat | f in mem && i < 512 :: ChildOk(mem, owner, f, i))
    && Linked(mem, owner, root)
  }

  /** Outside the window, every host table has a system counterpart and every host leaf is its copy. */
  predicate AgreesAt(mem: Tables, owner: Owner, sys: Tables, sysRoot: nat, f: nat, i: nat)
    requires Sized(mem, owner) && f in mem && i < 512
  {
    |owner[f]| > 0 && owner[f][0] != WINDOW_INDEX ==>
      && TableAt(sys, sysRoot, owner[f]).Some?
      && (mem[f][i].present && IsLeaf(mem[f][i], LevelOf(owner[f])) ==>
            mem[f][i] == EntryAt(sys, TableAt(sys, sysRoot, owner[f]).value, i))
  }

  predicate Agrees(mem: Tables, owner: Owner, sys: Tables, sysRoot: nat)
    requires Sized(mem, owner)
  {
    forall f, i: nat | f in mem && i < 512 :: AgreesAt(mem, owner, sys, sysRoot, f, i)
  }

  predicate FreshPool(mem: Tables, pool: seq<nat>) {
    && (forall k | 0 <= k < |pool| :: pool[k] !in mem)
    && (forall k, l | 0 <= k < l < |pool| :: pool[k] != pool[l])
  }

  // ----- Changing one entry -----

  function SetEntry(mem: Tables, f: nat, i: nat, e: Entry): Tables
    requires f in mem && i < |mem[f]|
  {
    mem[f := mem[f][i := e]]
  }

  /** A walk that does not go through the changed entry does not notice. */
  lemma {:induction false} WalkAvoids(mem: Tables, owner: Owner, root: nat, f: nat, i: nat, e: Entry, frame: nat,
                                      level: Level, va: nat)
    requires Tree(mem, owner, root) && f in mem && i < 512
    requires frame in mem && |owner[frame]| == 4 - level && owner[frame] == PathOf(va, 4 - level)
    requires owner[f] + [i] != PathOf(va, |owner[f]| + 1)
    ensures Walk(SetEntry(mem, f, i, e), frame, level, va) == Walk(mem, frame, level, va)
    decreases level
  {
    var index := Index(va, level);
    var here := mem[frame][index];
    assert PathOf(va, 5 - level) == owner[frame] + [index];
    assert EntryAt(SetEntry(mem, f, i, e), frame, index) == here;
    assert ChildOk(mem, owner, frame, index);
    if here.present && !IsLeaf(here, level) {
      WalkAvoids(mem, owner, root, f, i, e, here.pfn, level - 1, va);
    }
  }

  /** Hanging an empty table under an entry that was not present changes no walk. */
  lemma {:induction false} WalkIgnoresEmptyTable(mem: Tables, owner: Owner, root: nat, f: nat, i: nat, child: nat,
                                                 frame: nat, level: Level, va: nat)
    requires Tree(mem, owner, root) && f in mem && i < 512 && child !in mem
    requires |owner[f]| < 3 && !mem[f][i].present
    requires frame in mem && |owner[frame]| == 4 - level
    ensures Walk(SetEntry(mem, f, i, Pointer(child))[child := EmptyTable()], frame, level, va) ==
            Walk(mem, frame, level, va)
    decreases level
  {
    var mem' := SetEntry(mem, f, i, Pointer(child))[child := EmptyTable()];
    var index := Index(va, level);
    var here := mem[frame][index];
    assert ChildOk(mem, owner, frame, index);
    if frame == f && index == i {
      assert EntryAt(mem', frame, index) == Pointer(child);
      assert EntryAt(mem', child, Index(va, level - 1)) == NOT_PRESENT;
    } else {
      assert EntryAt(mem', frame, index) == here;
      if here.present && !IsLeaf(here, level) {
        WalkIgnoresEmptyTable(mem, owner, root, f, i, child, here.pfn, level - 1, va);
      }
    }
  }

  // ----- Host and system walks agree -----

  /** The system walk continues from the table that the path of the address leads to. */
  lemma {:induction false} WalkFromTable(t: Tables, root: nat, va: nat, n: nat)
    requires n <= 3 && TableAt(t, root, PathOf(va, n)).Some?
    ensures Walk(t, root, 4, va) == Walk(t, TableAt(t, root, PathOf(va, n)).value, 4 - n, va)
  {
    if n > 0 {
      assert PathOf(va, n)[..n - 1] == PathOf(va, n - 1);
      WalkFromTable(t, root, va, n - 1);
    }
  }

  lemma {:induction false} HostWalkIsSystemWalk(mem: Tables, owner: Owner, root: nat, sys: Tables, sysRoot: nat,
                                                frame: nat, level: Level, va: nat)
    requires Tree(mem, owner, root) && Agrees(mem, owner, sys, sysRoot)
    requires frame in mem && |owner[frame]| == 4 - level && owner[frame] == PathOf(va, 4 - level)
    requires Index(va, 4) != WINDOW_INDEX && Walk(mem, frame, level, va).Some?
    ensures Walk(mem, frame, level, va) == Walk(sys, sysRoot, 4, va)
    decreases level
  {
    var index := Index(va, level);
    var e := mem[frame][index];
    assert ChildOk(mem, owner, frame, index) && AgreesAt(mem, owner, sys, sysRoot, frame, index);
    if IsLeaf(e, level) {
      FirstIndex(va, 4 - level);
      WalkFromTable(sys, sysRoot, va, 4 - level);
    } else {
      assert PathOf(va, 5 - level) == owner[frame] + [index];
      HostWalkIsSystemWalk(mem, owner, root, sys, sysRoot, e.pfn, level - 1, va);
    }
  }

  lemma {:induction false} FirstIndex(va: nat, n: nat)
    requires 0 < n <= 4
    ensures PathOf(va, n)[0] == Index(va, 4)
  {
    if n > 1 {
      FirstIndex(va, n - 1);
    }
  }

  /** Whatever the host tables map outside the window, they map as the system tables do. */
  lemma HostAgreesWithSystem(mem: Tables, owner: Owner, root: nat, sys: Tables, sysRoot: nat, va: nat)
    requires Tree(mem, owner, root) && Agrees(mem, owner, sys, sysRoot)
    requires Index(va, 4) != WINDOW_INDEX && Walk(mem, root, 4, va).Some?
    ensures Walk(mem, root, 4, va) == Walk(sys, sysRoot, 4, va)
  {
    HostWalkIsSystemWalk(mem, owner, root, sys, sysRoot, root, 4, va);
  }

  /** A walk ends at its first table exactly when the entry there is the leaf. */
  lemma WalkEnds(t: Tables, frame: nat, level: Level, va: nat)
    requires Walk(t, frame, level, va).Some?
    ensures var e, leaf := EntryAt(t, frame, Index(va, level)), Walk(t, frame, level, va).value;
            && e.present
            && (leaf.level < level ==> !IsLeaf(e, level))
            && (leaf.level == level ==> leaf.entry == e && IsLeaf(e, level))
  {
  }

  /** On the way to a leaf every table of the path exists. */
  lemma {:induction false} TableOnTheWay(t: Tables, root: nat, va: nat, n: nat)
    requires n <= 3 && Walk(t, root, 4, va).Some? && n <= 4 - Walk(t, root, 4, va).value.level
    ensures TableAt(t, root, PathOf(va, n)).Some?
  {
    if n > 0 {
      TableOnTheWay(t, root, va, n - 1);
      assert PathOf(va, n)[..n - 1] == PathOf(va, n - 1);
      WalkFromTable(t, root, va, n - 1);
      WalkEnds(t, TableAt(t, root, PathOf(va, n - 1)).value, 5 - n, va);
    }
  }

  /** The entry of the leaf's own table is the leaf. */
  lemma LeafOfPath(t: Tables, root: nat, va: nat)
    requires Walk(t, root, 4, va).Some?
    ensures var leaf := Walk(t, root, 4, va).value;
            var table := TableAt(t, root, PathOf(va, 4 - leaf.level));
            && table.Some? && EntryAt(t, table.value, Index(va, leaf.level)) == leaf.entry
            && leaf.entry.present && IsLeaf(leaf.entry, leaf.level)
  {
    var leaf := Walk(t, root, 4, va).value;
    TableOnTheWay(t, root, va, 4 - leaf.level);
    WalkFromTable(t, root, va, 4 - leaf.level);
    WalkEnds(t, TableAt(t, root, PathOf(va, 4 - leaf.level)).value, leaf.level, va);
  }

  // ----- The two changes the construction makes -----

  predicate SamePath(a: nat, b: nat, level: Level) {
    PathOf(a, 5 - level) == PathOf(b, 5 - level)
  }

  lemma SamePathSplits(a: nat, b: nat, level: Level)
    ensures SamePath(a, b, level) <==>
              PathOf(a, 4 - level) == PathOf(b, 4 - level) && Index(a, level) == Index(b, level)
  {
    assert PathOf(a, 5 - level)[..4 - level] == PathOf(a, 4 - level);
    assert PathOf(b, 5 - level)[..4 - level] == PathOf(b, 4 - level);
    assert PathOf(a, 5 - level)[4 - level] == Index(a, level);
    assert PathOf(b, 5 - level)[4 - level] == Index(b, level);
  }

  predicate SameWalk(mem: Tables, mem': Tables, root: nat, va: nat) {
    Walk(mem', root, 4, va) == Walk(mem, root, 4, va)
  }

  ghost predicate SameElsewhere(mem: Tables, mem': Tables, f: nat, i: nat) {
    forall g, j | g in mem && !(g == f && j == i) :: EntryAt(mem', g, j) == EntryAt(mem, g, j)
  }

  /** Changing an entry that is not a pointer moves no table. */
  lemma {:induction false} TableAtKept(mem: Tables, mem': Tables, owner: Owner, root: nat, f: nat, i: nat,
                                       path: seq<nat>)
    requires Tree(mem, owner, root) && f in mem && i < 512 && SameElsewhere(mem, mem', f, i)
    requires mem[f][i].present ==> IsLeaf(mem[f][i], LevelOf(owner[f]))
    requires |path| <= 3 && TableAt(mem, root, path).Some?
    ensures TableAt(mem', root, path) == TableAt(mem, root, path)
    ensures var g := TableAt(mem, root, path).value; g in mem && owner[g] == path
  {
    if path != [] {
      var n := |path| - 1;
      TableAtKept(mem, mem', owner, root, f, i, path[..n]);
      var g := TableAt(mem, root, path[..n]).value;
      assert ChildOk(mem, owner, g, path[n]);
      assert path == path[..n] + [path[n]];
    }
  }

  lemma LinksKept(mem: Tables, mem': Tables, owner: Owner, root: nat, f: nat, i: nat, g: nat)
    requires Tree(mem, owner, root) && f in mem && i < 512 && SameElsewhere(mem, mem', f, i) && g in mem
    requires mem[f][i].present ==> IsLeaf(mem[f][i], LevelOf(owner[f]))
    ensures TableAt(mem', root, owner[g]) == Some(g)
  {
    assert LinkedAt(mem, owner, root, g);
    TableAtKept(mem, mem', owner, root, f, i, owner[g]);
  }

  /** A new empty table under an absent entry keeps the tree and every walk. */
  lemma AddTable(mem: Tables, owner: Owner, root: nat, sys: Tables, sysRoot: nat, f: nat, i: nat, child: nat)
    requires Tree(mem, owner, root) && Agrees(mem, owner, sys, sysRoot) && f in mem && i < 512 && child !in mem
    requires |owner[f]| < 3 && !mem[f][i].present
    requires (owner[f] + [i])[0] == WINDOW_INDEX || TableAt(sys, sysRoot, owner[f] + [i]).Some?
    ensures var mem' := SetEntry(mem, f, i, Pointer(child))[child := EmptyTable()];
            var owner' := owner[child := owner[f] + [i]];
            && Tree(mem', owner', root) && Agrees(mem', owner', sys, sysRoot)
            && forall va: nat :: SameWalk(mem, mem', root, va)
  {
    var mem', owner' := SetEntry(mem, f, i, Pointer(child))[child := EmptyTable()], owner[child := owner[f] + [i]];
    assert Sized(mem', owner');
    forall g, j: nat | g in mem' && j < 512
      ensures ChildOk(mem', owner', g, j) && AgreesAt(mem', owner', sys, sysRoot, g, j)
    {
      if g in mem {
        assert ChildOk(mem, owner, g, j) && AgreesAt(mem, owner, sys, sysRoot, g, j);
      }
    }
    forall g | g in mem'
      ensures LinkedAt(mem', owner', root, g)
    {
      LinksKept(mem, mem', owner, root, f, i, if g == child then f else g);
      assert owner'[child][..|owner[f]|] == owner[f];
    }
    forall va: nat
      ensures SameWalk(mem, mem', root, va)
    {
      WalkIgnoresEmptyTable(mem, owner, root, f, i, child, root, 4, va);
    }
  }

  lemma SystemHasTable(mem: Tables, owner: Owner, sys: Tables, sysRoot: nat, f: nat)
    requires Sized(mem, owner) && Agrees(mem, owner, sys, sysRoot)
    requires f in mem && owner[f] != [] && owner[f][0] != WINDOW_INDEX
    ensures TableAt(sys, sysRoot, owner[f]).Some?
  {
    assert AgreesAt(mem, owner, sys, sysRoot, f, 0);
  }

  lemma NoTableBelowLeaf(sys: Tables, sysRoot: nat, va: nat)
    requires Walk(sys, sysRoot, 4, va).Some? && Walk(sys, sysRoot, 4, va).value.level > 1
    ensures var leaf := Walk(sys, sysRoot, 4, va).value;
            TableAt(sys, sysRoot, PathOf(va, 4 - leaf.level) + [Index(va, leaf.level)]).None?
  {
    var leaf := Walk(sys, sysRoot, 4, va).value;
    LeafOfPath(sys, sysRoot, va);
    var path := PathOf(va, 4 - leaf.level) + [Index(va, leaf.level)];
    assert path[..4 - leaf.level] == PathOf(va, 4 - leaf.level);
  }

  /** An entry that is about to become a copy of a system leaf is absent or that copy already. */
  lemma LeafSlotIsFree(mem: Tables, owner: Owner, root: nat, sys: Tables, sysRoot: nat, f: nat, va: nat)
    requires Tree(mem, owner, root) && Agrees(mem, owner, sys, sysRoot)
    requires Walk(sys, sysRoot, 4, va).Some? && Index(va, 4) != WINDOW_INDEX
    requires f in mem && owner[f] == PathOf(va, 4 - Walk(sys, sysRoot, 4, va).value.level)
    ensures var leaf := Walk(sys, sysRoot, 4, va).value;
            var here := mem[f][Index(va, leaf.level)];
            here.present ==> here == leaf.entry
  {
    var leaf := Walk(sys, sysRoot, 4, va).value;
    var n, i := 4 - leaf.level, Index(va, leaf.level);
    var here := mem[f][i];
    LeafOfPath(sys, sysRoot, va);
    FirstIndex(va, n);
    assert ChildOk(mem, owner, f, i) && AgreesAt(mem, owner, sys, sysRoot, f, i);
    if here.present && !IsLeaf(here, leaf.level) {
      SystemHasTable(mem, owner, sys, sysRoot, here.pfn);
      NoTableBelowLeaf(sys, sysRoot, va);
    }
  }

  /** Copying the system leaf of `va` keeps the tree and maps exactly the addresses under that leaf. */
  lemma WriteLeaf(mem: Tables, owner: Owner, root: nat, sys: Tables, sysRoot: nat, f: nat, va: nat)
    requires Tree(mem, owner, root) && Agrees(mem, owner, sys, sysRoot)
    requires Walk(sys, sysRoot, 4, va).Some? && Index(va, 4) != WINDOW_INDEX
    requires f in mem && owner[f] == PathOf(va, 4 - Walk(sys, sysRoot, 4, va).value.level)
    ensures var leaf := Walk(sys, sysRoot, 4, va).value;
            var mem' := SetEntry(mem, f, Index(va, leaf.level), leaf.entry);
            && Tree(mem', owner, root) && Agrees(mem', owner, sys, sysRoot)
            && forall a: nat :: WrittenWalk(mem, mem', root, va, leaf, a)
  {
    var leaf := Walk(sys, sysRoot, 4, va).value;
    var mem' := SetEntry(mem, f, Index(va, leaf.level), leaf.entry);
    LeafOfPath(sys, sysRoot, va);
    LeafSlotIsFree(mem, owner, root, sys, sysRoot, f, va);
    TreeAfterWrite(mem, owner, root, sys, sysRoot, f, Index(va, leaf.level), leaf.entry);
    forall a: nat
      ensures WrittenWalk(mem, mem', root, va, leaf, a)
    {
      WalkAfterWrite(mem, owner, mem', root, f, va, leaf, a);
    }
  }

  lemma TreeAfterWrite(mem: Tables, owner: Owner, root: nat, sys: Tables, sysRoot: nat, f: nat, i: nat, e: Entry)
    requires Tree(mem, owner, root) && Agrees(mem, owner, sys, sysRoot) && f in mem && i < 512
    requires e.present && IsLeaf(e, LevelOf(owner[f])) && (mem[f][i].present ==> mem[f][i] == e)
    requires TableAt(sys, sysRoot, owner[f]).Some? && e == EntryAt(sys, TableAt(sys, sysRoot, owner[f]).value, i)
    ensures var mem' := SetEntry(mem, f, i, e);
            Tree(mem', owner, root) && Agrees(mem', owner, sys, sysRoot)
  {
    var mem' := SetEntry(mem, f, i, e);
    forall g, j: nat | g in mem' && j < 512
      ensures ChildOk(mem', owner, g, j) && AgreesAt(mem', owner, sys, sysRoot, g, j)
    {
      assert ChildOk(mem, owner, g, j) && AgreesAt(mem, owner, sys, sysRoot, g, j);
    }
    forall g | g in mem'
      ensures LinkedAt(mem', owner, root, g)
    {
      LinksKept(mem, mem', owner, root, f, i, g);
    }
  }

  lemma WalkAfterWrite(mem: Tables, owner: Owner, mem': Tables, root: nat, f: nat, va: nat, leaf: Leaf, a: nat)
    requires Tree(mem, owner, root) && f in mem && owner[f] == PathOf(va, 4 - leaf.level) && leaf.level <= 3
    requires var here := mem[f][Index(va, leaf.level)]; here.present ==> here == leaf.entry
    requires leaf.entry.present && IsLeaf(leaf.entry, leaf.level)
    requires mem' == SetEntry(mem, f, Index(va, leaf.level), leaf.entry) && Tree(mem', owner, root)
    ensures WrittenWalk(mem, mem', root, va, leaf, a)
  {
    var i := Index(va, leaf.level);
    SamePathSplits(a, va, leaf.level);
    if SamePath(a, va, leaf.level) {
      WalkThrough(mem', owner, root, f, a, leaf.level);
      WalkThrough(mem, owner, root, f, a, leaf.level);
    } else {
      assert owner[f] + [i] == PathOf(va, 5 - leaf.level);
      WalkAvoids(mem, owner, root, f, i, leaf.entry, root, 4, a);
    }
  }

  /** A walk whose path leads to a table is decided there. */
  lemma WalkThrough(mem: Tables, owner: Owner, root: nat, f: nat, a: nat, level: Level)
    requires Tree(mem, owner, root) && f in mem && level <= 3 && owner[f] == PathOf(a, 4 - level)
    ensures var e := mem[f][Index(a, level)];
            && (!e.present ==> Walk(mem, root, 4, a).None?)
            && (e.present && IsLeaf(e, level) ==> Walk(mem, root, 4, a) == Some(Leaf(e, level)))
  {
    assert LinkedAt(mem, owner, root, f);
    WalkFromTable(mem, root, a, 4 - level);
  }

  /** What a leaf write does to the walk of one address. */
  predicate WrittenWalk(mem: Tables, mem': Tables, root: nat, va: nat, leaf: Leaf, a: nat) {
    if SamePath(a, va, leaf.level) then
      Walk(mem', root, 4, a) == Some(leaf) && (Walk(mem, root, 4, a).None? || Walk(mem, root, 4, a) == Some(leaf))
    else
      SameWalk(mem, mem', root, a)
  }

  /** Where the system continues to another table, the host entry is no leaf. */
  lemma PointerNotLeaf(mem: Tables, owner: Owner, root: nat, sys: Tables, sysRoot: nat, f: nat, va: nat, level: Level)
    requires Tree(mem, owner, root) && Agrees(mem, owner, sys, sysRoot) && Index(va, 4) != WINDOW_INDEX
    requires 2 <= level && f in mem && owner[f] == PathOf(va, 4 - level)
    requires TableAt(sys, sysRoot, PathOf(va, 5 - level)).Some?
    ensures mem[f][Index(va, level)].present ==> !IsLeaf(mem[f][Index(va, level)], level)
  {
    assert AgreesAt(mem, owner, sys, sysRoot, f, Index(va, level));
    assert PathOf(va, 5 - level)[..4 - level] == owner[f];
    if level < 4 {
      FirstIndex(va, 4 - level);
    }
  }
}
