/**
 Page tables built from a map of pages to frames, at any of the three page sizes: the walk finds in them exactly
 what the map says. A page is an address divided by the page size, a frame the physical one.
 */
module PageMaps {
  import opened Common
  import opened PageTables

  /** The size of a page that a leaf of this level maps. */
  function PageSize(level: Level): nat {
    match level case 1 => 0x1000 case 2 => 0x20_0000 case 3 => 0x4000_0000 case _ => 0x80_0000_0000
  }

  /** The frame number of the first table of a level: the root is table frame 0. */
  function FirstTable(level: Level): nat {
    match level case 4 => 0 case 3 => 1 case 2 => 513 case _ => 0x4_0201
  }

  /** How many tables a level has. */
  function TableCount(level: Level): nat {
    match level case 4 => 1 case 3 => 512 case 2 => 0x4_0000 case _ => 0x800_0000
  }

  const TABLES: nat := 0x804_0201

  /** A leaf that maps a page of its level to a frame, in units of 4 KB as the entry holds it. */
  function LeafEntry(frame: nat, level: Level): Entry {
    Entry(true, level > 1, frame * (PageSize(level) / 0x1000), 0)
  }

  /** Entry `i` of table `j` of a level, in tables whose leaves are at level `leaf`. */
  function BuiltEntry(pages: map<nat, nat>, leaf: Level, level: Level, j: nat, i: nat): Entry {
    if level > leaf then Entry(true, false, FirstTable(level - 1) + j * 512 + i, 0)
    else if j * 512 + i in pages then LeafEntry(pages[j * 512 + i], leaf)
    else NOT_PRESENT
  }

  function LevelOfTable(f: nat): Level {
    if f == 0 then 4 else if f < 513 then 3 else if f < 0x4_0201 then 2 else 1
  }

  function BuiltTable(pages: map<nat, nat>, leaf: Level, f: nat): (table: seq<Entry>)
    ensures |table| == 512
  {
    var level := LevelOfTable(f);
    seq(512, i requires 0 <= i < 512 => BuiltEntry(pages, leaf, level, f - FirstTable(level), i))
  }

  /** The tables for a map of pages of one size. */
  function BuildTables(pages: map<nat, nat>, leaf: Level): Tables {
    map f: nat | f < TABLES :: BuiltTable(pages, leaf, f)
  }

  lemma BuiltEntryAt(pages: map<nat, nat>, leaf: Level, level: Level, j: nat, i: nat)
    requires j < TableCount(level) && i < 512
    ensures EntryAt(BuildTables(pages, leaf), FirstTable(level) + j, i) == BuiltEntry(pages, leaf, level, j, i)
  {
    assert LevelOfTable(FirstTable(level) + j) == level;
  }

  /** The table and the entry that an address below 2^48 uses at a level. */
  lemma PositionAt(va: nat, level: Level)
    requires va < 0x1_0000_0000_0000
    ensures va / PageSize(level) / 512 < TableCount(level)
    ensures va / PageSize(level) == va / PageSize(level) / 512 * 512 + Index(va, level)
    ensures level > 1 ==> va / PageSize(level) == va / PageSize(level - 1) / 512
  {
    QuotientsNest(va);
  }

  /** The table frame that the walk of an address meets at a level. */
  function TableOf(va: nat, level: Level): nat {
    FirstTable(level) + va / PageSize(level) / 512
  }

  lemma EntryOfAddress(pages: map<nat, nat>, leaf: Level, level: Level, va: nat)
    requires va < 0x1_0000_0000_0000
    ensures EntryAt(BuildTables(pages, leaf), TableOf(va, level), Index(va, level)) ==
            if level > leaf then Entry(true, false, TableOf(va, level - 1), 0)
            else if va / PageSize(level) in pages then LeafEntry(pages[va / PageSize(level)], leaf)
            else NOT_PRESENT
  {
    PositionAt(va, level);
    BuiltEntryAt(pages, leaf, level, va / PageSize(level) / 512, Index(va, level));
  }

  /** From the table of an address at any level, the walk ends at the leaf of its page. */
  lemma {:induction false} WalkBuilt(pages: map<nat, nat>, leaf: Level, level: Level, va: nat)
    requires va < 0x1_0000_0000_0000 && leaf <= level && leaf <= 3
    ensures var page := va / PageSize(leaf);
            Walk(BuildTables(pages, leaf), TableOf(va, level), level, va) ==
            if page in pages then Some(Leaf(LeafEntry(pages[page], leaf), leaf)) else None
    decreases level
  {
    EntryOfAddress(pages, leaf, level, va);
    if level > leaf {
      WalkBuilt(pages, leaf, level - 1, va);
    }
  }

  /**
   Round trip: an address below 2^48 is translated to the frame of its page and its place in the page, or not at
   all if the map does not have its page; at 4 KB, 2 MB and 1 GB.
   */
  lemma TranslatesAsMap(pages: map<nat, nat>, leaf: Level, va: nat)
    requires va < 0x1_0000_0000_0000 && leaf <= 3
    ensures var page, size := va / PageSize(leaf), PageSize(leaf);
            GvaToGpa(BuildTables(pages, leaf), 0, va) == if page in pages then pages[page] * size + va % size else 0
  {
    PositionAt(va, 4);
    WalkBuilt(pages, leaf, 4, va);
    var page := va / PageSize(leaf);
    if page in pages {
      FrameOfLeaf(pages[page], leaf, va);
    }
  }

  lemma FrameOfLeaf(frame: nat, leaf: Level, va: nat)
    requires leaf <= 3
    ensures Target(Leaf(LeafEntry(frame, leaf), leaf), va) == frame * PageSize(leaf) + va % PageSize(leaf)
  {
    match leaf {
      case 1 =>
      case 2 => assert frame * 512 / 512 == frame;
      case _ => assert frame * 0x4_0000 / 0x4_0000 == frame;
    }
  }
}
