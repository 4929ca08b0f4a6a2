/**
 Copies between host buffers and guest virtual memory, page by page, and the chunked read on top of them.
 Physical memory is the 512 GB window; a copy from beyond it faults and ends the loop.
 A range is described by the physical address of each of its bytes.
 */
module GuestMemory {
  import opened Common
  import opened PageTables

  type Byte = n: nat | n < 256

  const WINDOW: nat := 0x80_0000_0000
  const MAX_CHUNK: nat := 0x1000

  class PhysicalMemory {
    var bytes: seq<Byte>

    predicate Valid()
      reads this
    {
      |bytes| == WINDOW
    }
  }

  // ----- Ranges of physical addresses -----

  /** The translation of each byte of a virtual range; zero where there is none. */
  function Range(t: Tables, root: nat, va: nat, size: nat): (range: seq<nat>)
    ensures |range| == size
  {
    seq<nat>(size, i requires 0 <= i < size => GvaToGpa(t, root, va + i))
  }

  predicate Reachable(gpa: nat) {
    0 < gpa < WINDOW
  }

  predicate AllReachable(range: seq<nat>) {
    forall i | 0 <= i < |range| :: Reachable(range[i])
  }

  /** `n` is the length of the longest reachable prefix of the range; at the null address it is zero. */
  predicate LongestPrefix(va: nat, range: seq<nat>, n: nat) {
    && n <= |range|
    && AllReachable(range[..n])
    && (va == 0 ==> n == 0)
    && (va != 0 && n < |range| ==> !Reachable(range[n]))
  }

  lemma LongestPrefixUnique(va: nat, range: seq<nat>, n: nat, m: nat)
    requires LongestPrefix(va, range, n) && LongestPrefix(va, range, m)
    ensures n == m
  {
    forall i | 0 <= i < m
      ensures Reachable(range[i])
    {
      assert range[..m][i] == range[i];
    }
    forall i | 0 <= i < n
      ensures Reachable(range[i])
    {
      assert range[..n][i] == range[i];
    }
  }

  /** The page of a reachable byte lies inside the window as a whole. */
  lemma RestOfPage(t: Tables, root: nat, va: nat)
    requires Reachable(GvaToGpa(t, root, va))
    ensures ToNextPage(t, root, va) > 0 && GvaToGpa(t, root, va) + ToNextPage(t, root, va) <= WINDOW
  {
    var leaf := Walk(t, root, 4, va).value;
    match leaf.level {
      case 1 => assert leaf.entry.pfn < 0x800_0000;
      case 2 => assert leaf.entry.pfn / 512 < 0x4_0000;
      case _ => assert leaf.entry.pfn / 0x4_0000 < 512;
    }
  }

  lemma RangeSlice(t: Tables, root: nat, va: nat, size: nat, from: nat, to: nat)
    requires from <= to <= size
    ensures Range(t, root, va, size)[from..to] == Range(t, root, va + from, to - from)
  {
    forall i | 0 <= i < to - from
      ensures Range(t, root, va, size)[from..to][i] == Range(t, root, va + from, to - from)[i]
    {
      assert va + (from + i) == va + from + i;
    }
  }

  /** One iteration of a copy loop: the next block of the range is a contiguous physical block. */
  lemma NextBlock(t: Tables, root: nat, va: nat, size: nat, done: nat, n: nat)
    requires done < size && Reachable(GvaToGpa(t, root, va + done))
    requires n == Min(size - done, ToNextPage(t, root, va + done))
    ensures var gpa := GvaToGpa(t, root, va + done);
            && n > 0 && gpa + n <= WINDOW
            && Range(t, root, va, size)[done..done + n] == seq(n, k => gpa + k)
  {
    var gpa, range := GvaToGpa(t, root, va + done), Range(t, root, va, size);
    RestOfPage(t, root, va + done);
    var block := range[done..done + n];
    forall i | 0 <= i < n
      ensures block[i] == gpa + i
    {
      ByteOfBlock(t, root, va, size, done, i);
      assert block[i] == range[done + i];
    }
  }

  lemma ByteOfBlock(t: Tables, root: nat, va: nat, size: nat, done: nat, i: nat)
    requires done + i < size && GvaToGpa(t, root, va + done) != 0 && i < ToNextPage(t, root, va + done)
    ensures Range(t, root, va, size)[done + i] == GvaToGpa(t, root, va + done) + i
  {
    TranslationContiguous(t, root, va + done, i);
    assert va + (done + i) == va + done + i;
  }

  // ----- Reading -----

  /** The data is what physical memory holds at the first addresses of the range. */
  predicate Holds(bytes: seq<Byte>, range: seq<nat>, data: seq<Byte>) {
    && |data| <= |range|
    && forall i | 0 <= i < |data| :: range[i] < |bytes| && data[i] == bytes[range[i]]
  }

  lemma HoldsAppend(bytes: seq<Byte>, range: seq<nat>, data: seq<Byte>, gpa: nat, n: nat)
    requires Holds(bytes, range, data) && |data| + n <= |range| && gpa + n <= |bytes|
    requires range[|data|..|data| + n] == seq(n, k => gpa + k)
    ensures Holds(bytes, range, data + bytes[gpa..gpa + n])
  {
    var m := |data|;
    forall i | m <= i < m + n
      ensures range[i] == gpa + (i - m)
    {
      assert range[m..m + n][i - m] == gpa + (i - m);
    }
  }

  lemma ReachableAppend(range: seq<nat>, done: nat, gpa: nat, n: nat)
    requires done + n <= |range| && AllReachable(range[..done]) && Reachable(gpa) && gpa + n <= WINDOW
    requires range[done..done + n] == seq(n, k => gpa + k)
    ensures AllReachable(range[..done + n])
  {
    forall i | 0 <= i < done + n
      ensures Reachable(range[i])
    {
      if i < done {
        assert range[..done][i] == range[i];
      } else {
        assert range[done..done + n][i - done] == gpa + (i - done);
      }
    }
  }

  method LoadBlock(mem: PhysicalMemory, gpa: nat, buffer: array<Byte>, at: nat, n: nat)
    requires at + n <= buffer.Length && gpa + n <= |mem.bytes|
    modifies buffer
    ensures buffer[..at + n] == old(buffer[..at]) + mem.bytes[gpa..gpa + n]
    ensures buffer[at + n..] == old(buffer[at..])[n..]
  {
    forall k | 0 <= k < n {
      buffer[at + k] := mem.bytes[gpa + k];
    }
  }

  method ReadGuestVirtual(mem: PhysicalMemory, t: Tables, root: nat, va: nat, buffer: array<Byte>, size: nat)
    returns (total: nat)
    requires mem.Valid() && size <= buffer.Length
    modifies buffer
    ensures LongestPrefix(va, Range(t, root, va, size), total)
    ensures Holds(mem.bytes, Range(t, root, va, size), buffer[..total])
    ensures buffer[total..] == old(buffer[total..])
  {
    total := 0;
    if va == 0 || size == 0 {
      return;
    }
    ghost var range := Range(t, root, va, size);
    while total < size
      invariant total <= size && mem.Valid() && mem.bytes == old(mem.bytes)
      invariant AllReachable(range[..total])
      invariant Holds(mem.bytes, range, buffer[..total])
      invariant buffer[total..] == old(buffer[total..])
      decreases size - total
    {
      var gpa, toNextPage := TranslateGva(t, root, va + total);
      assert range[total] == gpa;
      if gpa == 0 {
        break;
      }
      if gpa >= WINDOW {
        // the copy faults
        break;
      }
      var toRead := Min(size - total, toNextPage);
      NextBlock(t, root, va, size, total, toRead);
      HoldsAppend(mem.bytes, range, buffer[..total], gpa, toRead);
      ReachableAppend(range, total, gpa, toRead);
      LoadBlock(mem, gpa, buffer, total, toRead);
      total := total + toRead;
    }
  }

  // ----- Writing -----

  /** Memory after the bytes of `data` were stored at the addresses of the range, in order. */
  function Stored(bytes: seq<Byte>, range: seq<nat>, data: seq<Byte>): (r: seq<Byte>)
    requires |data| <= |range|
    ensures |r| == |bytes|
  {
    if data == [] then
      bytes
    else
      var n := |data| - 1;
      var before := Stored(bytes, range, data[..n]);
      if range[n] < |before| then before[range[n] := data[n]] else before
  }

  lemma {:induction false} StoredAppend(bytes: seq<Byte>, range: seq<nat>, first: seq<Byte>, second: seq<Byte>)
    requires |first| + |second| <= |range|
    ensures Stored(Stored(bytes, range, first), range[|first|..], second) == Stored(bytes, range, first + second)
  {
    var all := first + second;
    if second == [] {
      assert all == first;
    } else {
      var n := |second| - 1;
      StoredAppend(bytes, range, first, second[..n]);
      assert all[..|all| - 1] == first + second[..n];
    }
  }

  /** Within one page the byte-wise store is a block copy. */
  lemma {:induction false} StoredBlock(bytes: seq<Byte>, range: seq<nat>, data: seq<Byte>, gpa: nat)
    requires |data| <= |range| && gpa + |data| <= |bytes|
    requires range[..|data|] == seq(|data|, k => gpa + k)
    ensures Stored(bytes, range, data) == bytes[..gpa] + data + bytes[gpa + |data|..]
  {
    if data != [] {
      var n := |data| - 1;
      assert range[..n] == range[..|data|][..n] == seq(n, k => gpa + k);
      StoredBlock(bytes, range, data[..n], gpa);
      assert range[n] == range[..|data|][n] == gpa + n;
    }
  }

  /** `now` is `before` with the data stored at the first addresses of the range. */
  predicate IsStored(before: seq<Byte>, now: seq<Byte>, range: seq<nat>, data: seq<Byte>) {
    |data| <= |range| && now == Stored(before, range, data)
  }

  lemma StoreNextBlock(before: seq<Byte>, now: seq<Byte>, range: seq<nat>, done: seq<Byte>, block: seq<Byte>,
                       gpa: nat)
    requires IsStored(before, now, range, done)
    requires |done| + |block| <= |range| && gpa + |block| <= |now|
    requires range[|done|..|done| + |block|] == seq(|block|, k => gpa + k)
    ensures IsStored(before, now[..gpa] + block + now[gpa + |block|..], range, done + block)
  {
    var rest := range[|done|..];
    assert rest[..|block|] == range[|done|..|done| + |block|];
    StoredBlock(now, rest, block, gpa);
    StoredAppend(before, range, done, block);
  }

  method StoreBlock(mem: PhysicalMemory, gpa: nat, buffer: array<Byte>, at: nat, n: nat, ghost memBefore: seq<Byte>,
                    ghost range: seq<nat>)
    requires mem.Valid() && at + n <= buffer.Length && at + n <= |range| && gpa + n <= WINDOW
    requires IsStored(memBefore, mem.bytes, range, buffer[..at]) && range[at..at + n] == seq(n, k => gpa + k)
    modifies mem
    ensures mem.Valid() && IsStored(memBefore, mem.bytes, range, buffer[..at + n])
  {
    var block := buffer[at..at + n];
    StoreNextBlock(memBefore, mem.bytes, range, buffer[..at], block, gpa);
    mem.bytes := mem.bytes[..gpa] + block + mem.bytes[gpa + n..];
    assert buffer[..at + n] == buffer[..at] + block;
  }

  method WriteGuestVirtual(mem: PhysicalMemory, t: Tables, root: nat, va: nat, buffer: array<Byte>, size: nat)
    returns (total: nat)
    requires mem.Valid() && size <= buffer.Length
    modifies mem
    ensures mem.Valid()
    ensures LongestPrefix(va, Range(t, root, va, size), total)
    ensures IsStored(old(mem.bytes), mem.bytes, Range(t, root, va, size), buffer[..total])
  {
    total := 0;
    if va == 0 || size == 0 {
      return;
    }
    ghost var range, memBefore := Range(t, root, va, size), mem.bytes;
    assert buffer[..0] == [];
    while total < size
      invariant total <= size && mem.Valid()
      invariant AllReachable(range[..total])
      invariant IsStored(memBefore, mem.bytes, range, buffer[..total])
      decreases size - total
    {
      var gpa, toNextPage := TranslateGva(t, root, va + total);
      assert range[total] == gpa;
      if gpa == 0 {
        break;
      }
      if gpa >= WINDOW {
        // the copy faults
        break;
      }
      var toWrite := Min(size - total, toNextPage);
      NextBlock(t, root, va, size, total, toWrite);
      ReachableAppend(range, total, gpa, toWrite);
      StoreBlock(mem, gpa, buffer, total, toWrite, memBefore, range);
      total := total + toWrite;
    }
  }

  /** No two reachable bytes of the range share a physical byte. */
  predicate Injective(range: seq<nat>) {
    forall i, j | 0 <= i < j < |range| && Reachable(range[i]) && Reachable(range[j]) :: range[i] != range[j]
  }

  lemma {:induction false} StoredElsewhere(bytes: seq<Byte>, range: seq<nat>, data: seq<Byte>, gpa: nat)
    requires gpa < |bytes| && |data| <= |range| && gpa !in range[..|data|]
    ensures Stored(bytes, range, data)[gpa] == bytes[gpa]
  {
    if data != [] {
      var n := |data| - 1;
      assert range[..|data|] == range[..n] + [range[n]];
      StoredElsewhere(bytes, range, data[..n], gpa);
    }
  }

  /** Write then read: if the range is injective, every stored byte reads back. */
  lemma {:induction false} StoredReadsBack(bytes: seq<Byte>, range: seq<nat>, data: seq<Byte>)
    requires |bytes| == WINDOW && Injective(range) && |data| <= |range| && AllReachable(range[..|data|])
    ensures Holds(Stored(bytes, range, data), range, data)
  {
    if data != [] {
      var n := |data| - 1;
      assert range[..n] == range[..|data|][..n];
      StoredReadsBack(bytes, range, data[..n]);
      forall i | 0 <= i < |data|
        ensures range[i] < WINDOW && data[i] == Stored(bytes, range, data)[range[i]]
      {
        assert Reachable(range[..|data|][i]) && Reachable(range[..|data|][n]);
        assert i < n ==> data[..n][i] == data[i];
      }
    }
  }

  // ----- The read hypercall and its chunked caller -----

  datatype VmemRequest = VmemRequest(guestBuffer: nat, targetVa: nat, size: nat, targetCr3: nat)

  /** `n` bytes were read, `stored` of them could be stored, and only a complete store counts. */
  predicate ReadResult(va: nat, source: seq<nat>, buffer: nat, dest: seq<nat>, n: nat, stored: nat, rax: nat) {
    && LongestPrefix(va, source, n) && n <= |dest|
    && LongestPrefix(buffer, dest[..n], stored)
    && rax == if stored == n then n else 0
  }

  /** The stored bytes are the first source bytes, and nothing else changed. */
  predicate ChunkMoved(before: seq<Byte>, after: seq<Byte>, va: nat, source: seq<nat>, buffer: nat, dest: seq<nat>,
                       n: nat, data: seq<Byte>, rax: nat)
  {
    && ReadResult(va, source, buffer, dest, n, |data|, rax)
    && Holds(before, source, data)
    && IsStored(before, after, dest, data)
  }

  /** What a request that reads from the address space of `root` leaves behind. */
  predicate RequestDone(before: seq<Byte>, after: seq<Byte>, t: Tables, root: nat, callerRoot: nat,
                        request: VmemRequest, n: nat, data: seq<Byte>, rax: nat)
  {
    var size := Min(request.size, MAX_CHUNK);
    ChunkMoved(before, after, request.targetVa, Range(t, root, request.targetVa, size),
               request.guestBuffer, Range(t, callerRoot, request.guestBuffer, size), n, data, rax)
  }

  /** Reads up to one chunk and stores it in the caller's buffer; from the system's address space for root zero. */
  method HandleVmemRead(mem: PhysicalMemory, t: Tables, callerRoot: nat, systemRoot: nat, request: VmemRequest,
                        local: array<Byte>)
    returns (rax: nat, ghost n: nat, ghost data: seq<Byte>)
    requires mem.Valid() && local.Length == MAX_CHUNK
    modifies mem, local
    ensures mem.Valid()
    ensures request.targetCr3 == 0 ==>
              RequestDone(old(mem.bytes), mem.bytes, t, systemRoot, callerRoot, request, n, data, rax)
    ensures request.targetCr3 != 0 ==>
              RequestDone(old(mem.bytes), mem.bytes, t, request.targetCr3, callerRoot, request, n, data, rax)
  {
    data, n := [], 0;
    forall i | 0 <= i < local.Length {
      local[i] := 0;
    }
    ghost var before := mem.bytes;
    var root := if request.targetCr3 != 0 then request.targetCr3 else systemRoot;
    var bytesToRead := Min(request.size, MAX_CHUNK);
    ghost var dest := Range(t, callerRoot, request.guestBuffer, bytesToRead);
    if bytesToRead == 0 {
      return 0, 0, [];
    }
    var bytesRead := ReadGuestVirtual(mem, t, root, request.targetVa, local, bytesToRead);
    n := bytesRead;
    if bytesRead == 0 {
      return 0, 0, [];
    }
    var written := WriteGuestVirtual(mem, t, callerRoot, request.guestBuffer, local, bytesRead);
    data := local[..written];
    assert data == local[..bytesRead][..written];
    RangeSlice(t, callerRoot, request.guestBuffer, bytesToRead, 0, bytesRead);
    StoredPrefix(before, dest, bytesRead, data);
    rax := if written != bytesRead then 0 else bytesRead;
  }

  lemma {:induction false} StoredPrefix(bytes: seq<Byte>, range: seq<nat>, n: nat, data: seq<Byte>)
    requires |data| <= n <= |range|
    ensures Stored(bytes, range[..n], data) == Stored(bytes, range, data)
  {
    if data != [] {
      StoredPrefix(bytes, range, n, data[..|data| - 1]);
    }
  }

  lemma ReachableJoin(range: seq<nat>, from: nat, to: nat, n: nat)
    requires from <= to <= |range| && n <= to - from
    requires AllReachable(range[..from]) && AllReachable(range[from..to][..n])
    ensures AllReachable(range[..from + n])
  {
    forall i | 0 <= i < from + n
      ensures Reachable(range[i])
    {
      if i < from {
        assert range[..from][i] == range[i];
      } else {
        assert range[from..to][..n][i - from] == range[i];
      }
    }
  }

  // ----- What a long read gets -----

  /** The position at which the chunk of a position starts. */
  function ChunkStart(j: nat): (start: nat)
    ensures start <= j < start + MAX_CHUNK
  {
    j / MAX_CHUNK * MAX_CHUNK
  }

  lemma ChunkStartUnique(from: nat, j: nat)
    requires from % MAX_CHUNK == 0 && from <= j < from + MAX_CHUNK
    ensures ChunkStart(j) == from
  {
  }

  function ByteAt(bytes: seq<Byte>, gpa: nat): Byte {
    if gpa < |bytes| then bytes[gpa] else 0
  }

  /** The first `n` bytes of a long read: each one as memory is once the chunks before its own are stored. */
  function ReadInChunks(bytes: seq<Byte>, source: seq<nat>, dest: seq<nat>, n: nat): (data: seq<Byte>)
    requires n <= |source| && n <= |dest|
    ensures |data| == n
  {
    if n == 0 then
      []
    else
      var data := ReadInChunks(bytes, source, dest, n - 1);
      data + [ByteAt(Stored(bytes, dest, data[..ChunkStart(n - 1)]), source[n - 1])]
  }

  lemma {:induction false} ReadInChunksPrefix(bytes: seq<Byte>, source: seq<nat>, dest: seq<nat>, k: nat, n: nat)
    requires k <= n <= |source| && n <= |dest|
    ensures ReadInChunks(bytes, source, dest, n)[..k] == ReadInChunks(bytes, source, dest, k)
  {
    if k < n {
      ReadInChunksPrefix(bytes, source, dest, k, n - 1);
      assert ReadInChunks(bytes, source, dest, n)[..k] == ReadInChunks(bytes, source, dest, n - 1)[..k];
    }
  }

  /** The position below `n` that is stored to the address last, if any. */
  function LastStore(dest: seq<nat>, n: nat, gpa: nat): (r: Option<nat>)
    requires n <= |dest|
    ensures r.Some? ==> r.value < n && dest[r.value] == gpa
    ensures forall k | 0 <= k < n && dest[k] == gpa :: r.Some? && k <= r.value
  {
    if n == 0 then None else if dest[n - 1] == gpa then Some(n - 1) else LastStore(dest, n - 1, gpa)
  }

  lemma {:induction false} StoredAt(bytes: seq<Byte>, range: seq<nat>, data: seq<Byte>, gpa: nat)
    requires |data| <= |range| && gpa < |bytes|
    ensures Stored(bytes, range, data)[gpa] ==
            match LastStore(range, |data|, gpa) case None => bytes[gpa] case Some(i) => data[i]
  {
    if data != [] {
      StoredAt(bytes, range, data[..|data| - 1], gpa);
    }
  }

  /**
   The address that the byte at a position comes from: where an earlier chunk was stored over its source, it is
   the byte which that chunk had read.
   */
  function Origin(source: seq<nat>, dest: seq<nat>, j: nat): nat
    requires j < |source| && j < |dest|
  {
    match LastStore(dest, ChunkStart(j), source[j])
    case None => source[j]
    case Some(i) => Origin(source, dest, i)
  }

  lemma {:induction false} ByteRead(bytes: seq<Byte>, source: seq<nat>, dest: seq<nat>, n: nat, j: nat)
    requires j < n <= |source| && n <= |dest|
    ensures ReadInChunks(bytes, source, dest, n)[j] ==
            ByteAt(Stored(bytes, dest, ReadInChunks(bytes, source, dest, ChunkStart(j))), source[j])
  {
    if n == j + 1 {
      LastByteRead(bytes, source, dest, j);
    } else {
      ByteRead(bytes, source, dest, n - 1, j);
    }
  }

  lemma LastByteRead(bytes: seq<Byte>, source: seq<nat>, dest: seq<nat>, j: nat)
    requires j < |source| && j < |dest|
    ensures ReadInChunks(bytes, source, dest, j + 1)[j] ==
            ByteAt(Stored(bytes, dest, ReadInChunks(bytes, source, dest, ChunkStart(j))), source[j])
  {
    ReadInChunksPrefix(bytes, source, dest, ChunkStart(j), j);
  }

  lemma {:induction false} OriginOfByte(bytes: seq<Byte>, source: seq<nat>, dest: seq<nat>, n: nat, j: nat)
    requires j < n <= |source| && n <= |dest| && |bytes| == WINDOW && AllReachable(source[..n])
    ensures Origin(source, dest, j) < WINDOW
    ensures ReadInChunks(bytes, source, dest, n)[j] == bytes[Origin(source, dest, j)]
    decreases j
  {
    var start := ChunkStart(j);
    assert Reachable(source[..n][j]);
    ByteRead(bytes, source, dest, n, j);
    StoredAt(bytes, dest, ReadInChunks(bytes, source, dest, start), source[j]);
    var last := LastStore(dest, start, source[j]);
    if last.Some? {
      ReadInChunksPrefix(bytes, source, dest, start, n);
      OriginOfByte(bytes, source, dest, n, last.value);
    }
  }

  /** Where an earlier chunk is stored over a source byte, it stores that same byte. */
  predicate Undisturbed(source: seq<nat>, dest: seq<nat>, n: nat)
    requires n <= |source| && n <= |dest|
  {
    forall j | 0 <= j < n :: UndisturbedAt(source, dest, j)
  }

  predicate UndisturbedAt(source: seq<nat>, dest: seq<nat>, j: nat)
    requires j < |source| && j < |dest|
  {
    match LastStore(dest, ChunkStart(j), source[j])
    case None => true
    case Some(i) => source[i] == source[j]
  }

  lemma {:induction false} UndisturbedOrigin(source: seq<nat>, dest: seq<nat>, n: nat, j: nat)
    requires j < n <= |source| && n <= |dest| && Undisturbed(source, dest, n)
    ensures Origin(source, dest, j) == source[j]
    decreases j
  {
    assert UndisturbedAt(source, dest, j);
    var last := LastStore(dest, ChunkStart(j), source[j]);
    if last.Some? {
      UndisturbedOrigin(source, dest, n, last.value);
    }
  }

  lemma UndisturbedIff(source: seq<nat>, dest: seq<nat>, n: nat)
    requires n <= |source| && n <= |dest|
    ensures Undisturbed(source, dest, n) <==> forall j | 0 <= j < n :: Origin(source, dest, j) == source[j]
  {
    if Undisturbed(source, dest, n) {
      forall j | 0 <= j < n
        ensures Origin(source, dest, j) == source[j]
      {
        UndisturbedOrigin(source, dest, n, j);
      }
    } else {
      var j: nat :| j < n && !UndisturbedAt(source, dest, j);
      var i := LastStore(dest, ChunkStart(j), source[j]).value;
      assert Origin(source, dest, j) == Origin(source, dest, i);
    }
  }

  /** A memory that tells one address from all others. */
  function Marked(gpa: nat): (bytes: seq<Byte>)
    ensures |bytes| == WINDOW && forall g | 0 <= g < WINDOW :: bytes[g] == if g == gpa then 1 else 0
  {
    seq(WINDOW, g => if g == gpa then 1 else 0)
  }

  /** A long read gets the source bytes, whatever memory holds, if and only if it is undisturbed. */
  lemma ReadExactIff(source: seq<nat>, dest: seq<nat>, n: nat)
    requires n <= |source| && n <= |dest| && AllReachable(source[..n])
    ensures (forall bytes: seq<Byte> | |bytes| == WINDOW :: Holds(bytes, source, ReadInChunks(bytes, source, dest, n)))
            <==> Undisturbed(source, dest, n)
  {
    UndisturbedIff(source, dest, n);
    if Undisturbed(source, dest, n) {
      forall bytes: seq<Byte> | |bytes| == WINDOW
        ensures Holds(bytes, source, ReadInChunks(bytes, source, dest, n))
      {
        forall j | 0 <= j < n
          ensures source[j] < WINDOW && ReadInChunks(bytes, source, dest, n)[j] == bytes[source[j]]
        {
          OriginOfByte(bytes, source, dest, n, j);
        }
      }
    } else {
      var j: nat :| j < n && Origin(source, dest, j) != source[j];
      OriginOfByte(Marked(source[j]), source, dest, n, j);
      assert Reachable(source[..n][j]);
      assert !Holds(Marked(source[j]), source, ReadInChunks(Marked(source[j]), source, dest, n));
    }
  }

  /** No chunk reads an address that an earlier one is stored to. */
  predicate LaterApart(source: seq<nat>, dest: seq<nat>, n: nat)
    requires n <= |source| && n <= |dest|
  {
    forall i, j | 0 <= i < n && 0 <= j < n && i / MAX_CHUNK < j / MAX_CHUNK :: dest[i] != source[j]
  }

  lemma EarlierChunk(i: nat, j: nat)
    ensures i / MAX_CHUNK < j / MAX_CHUNK <==> i < ChunkStart(j)
  {
  }

  /** Apart is enough, and needed too where no address is read twice. */
  lemma UndisturbedIffApart(source: seq<nat>, dest: seq<nat>, n: nat)
    requires n <= |source| && n <= |dest|
    ensures LaterApart(source, dest, n) ==> Undisturbed(source, dest, n)
    ensures Undisturbed(source, dest, n) && (forall i, j | 0 <= i < j < n :: source[i] != source[j]) ==>
              LaterApart(source, dest, n)
  {
    if LaterApart(source, dest, n) {
      forall j | 0 <= j < n
        ensures LastStore(dest, ChunkStart(j), source[j]).None?
      {
        var last := LastStore(dest, ChunkStart(j), source[j]);
        if last.Some? {
          EarlierChunk(last.value, j);
        }
      }
    } else {
      var i: nat, j: nat :| i < n && j < n && i / MAX_CHUNK < j / MAX_CHUNK && dest[i] == source[j];
      EarlierChunk(i, j);
      assert LastStore(dest, ChunkStart(j), source[j]).Some?;
      assert Undisturbed(source, dest, n) ==> UndisturbedAt(source, dest, j);
    }
  }

  /** A read of at most one chunk is complete before the first byte is stored. */
  lemma OneChunkIsUndisturbed(source: seq<nat>, dest: seq<nat>, n: nat)
    requires n <= MAX_CHUNK && n <= |source| && n <= |dest|
    ensures Undisturbed(source, dest, n)
  {
    forall j | 0 <= j < n
      ensures UndisturbedAt(source, dest, j)
    {
      ChunkStartUnique(0, j);
    }
  }

  /** The buffer holds at its first `n` bytes what the source held before. */
  predicate Delivered(before: seq<Byte>, after: seq<Byte>, source: seq<nat>, dest: seq<nat>, n: nat)
    requires n <= |source| && n <= |dest|
  {
    forall i | 0 <= i < n :: ByteAt(after, dest[i]) == ByteAt(before, source[i])
  }

  /** The address whose byte the caller finds at a position of its buffer once `m` bytes are stored. */
  function Found(source: seq<nat>, dest: seq<nat>, m: nat, i: nat): nat
    requires i < m <= |source| && m <= |dest|
  {
    Origin(source, dest, LastStore(dest, m, dest[i]).value)
  }

  /** Memory after a long read that stored `m` bytes. */
  function AfterRead(bytes: seq<Byte>, source: seq<nat>, dest: seq<nat>, m: nat): seq<Byte>
    requires m <= |source| && m <= |dest|
  {
    Stored(bytes, dest, ReadInChunks(bytes, source, dest, m))
  }

  lemma FoundByte(bytes: seq<Byte>, source: seq<nat>, dest: seq<nat>, m: nat, i: nat)
    requires i < m <= |source| && m <= |dest| && |bytes| == WINDOW
    requires AllReachable(source[..m]) && AllReachable(dest[..m])
    ensures Found(source, dest, m, i) < WINDOW
    ensures ByteAt(AfterRead(bytes, source, dest, m), dest[i]) == bytes[Found(source, dest, m, i)]
  {
    assert Reachable(dest[..m][i]);
    StoredAt(bytes, dest, ReadInChunks(bytes, source, dest, m), dest[i]);
    OriginOfByte(bytes, source, dest, m, LastStore(dest, m, dest[i]).value);
  }

  ghost predicate AlwaysDelivered(source: seq<nat>, dest: seq<nat>, m: nat, n: nat)
    requires n <= m <= |source| && m <= |dest|
  {
    forall bytes: seq<Byte> | |bytes| == WINDOW :: Delivered(bytes, AfterRead(bytes, source, dest, m), source, dest, n)
  }

  predicate FindsItsOwn(source: seq<nat>, dest: seq<nat>, m: nat, n: nat)
    requires n <= m <= |source| && m <= |dest|
  {
    forall i | 0 <= i < n :: Found(source, dest, m, i) == source[i]
  }

  lemma FoundIsDelivered(bytes: seq<Byte>, source: seq<nat>, dest: seq<nat>, m: nat, n: nat)
    requires n <= m <= |source| && m <= |dest| && AllReachable(source[..m]) && AllReachable(dest[..m])
    requires |bytes| == WINDOW && FindsItsOwn(source, dest, m, n)
    ensures Delivered(bytes, AfterRead(bytes, source, dest, m), source, dest, n)
  {
    forall i | 0 <= i < n
      ensures ByteAt(AfterRead(bytes, source, dest, m), dest[i]) == ByteAt(bytes, source[i])
    {
      FoundByte(bytes, source, dest, m, i);
    }
  }

  lemma LostIsSeen(source: seq<nat>, dest: seq<nat>, m: nat, n: nat, i: nat)
    requires i < n <= m <= |source| && m <= |dest| && AllReachable(source[..m]) && AllReachable(dest[..m])
    requires Found(source, dest, m, i) != source[i]
    ensures var bytes := Marked(source[i]); !Delivered(bytes, AfterRead(bytes, source, dest, m), source, dest, n)
  {
    FoundByte(Marked(source[i]), source, dest, m, i);
    assert Reachable(source[..m][i]);
  }

  /** The caller gets the first `n` bytes, whatever memory holds, if and only if it finds each one's own byte. */
  lemma DeliveredIff(source: seq<nat>, dest: seq<nat>, m: nat, n: nat)
    requires n <= m <= |source| && m <= |dest| && AllReachable(source[..m]) && AllReachable(dest[..m])
    ensures AlwaysDelivered(source, dest, m, n) <==> FindsItsOwn(source, dest, m, n)
  {
    if FindsItsOwn(source, dest, m, n) {
      forall bytes: seq<Byte> | |bytes| == WINDOW
        ensures Delivered(bytes, AfterRead(bytes, source, dest, m), source, dest, n)
      {
        FoundIsDelivered(bytes, source, dest, m, n);
      }
    } else {
      var i: nat :| i < n && Found(source, dest, m, i) != source[i];
      LostIsSeen(source, dest, m, n, i);
    }
  }

  /** For a buffer without aliases that is the case if and only if the read is undisturbed. */
  lemma FoundIffUndisturbed(source: seq<nat>, dest: seq<nat>, m: nat, n: nat)
    requires n <= m <= |source| && m <= |dest| && AllReachable(dest[..m]) && Injective(dest[..m])
    ensures FindsItsOwn(source, dest, m, n) <==> Undisturbed(source, dest, n)
  {
    forall i | 0 <= i < n
      ensures Found(source, dest, m, i) == Origin(source, dest, i)
    {
      var last := LastStore(dest, m, dest[i]).value;
      assert dest[..m][i] == dest[..m][last] && Reachable(dest[..m][i]);
    }
    UndisturbedIff(source, dest, n);
  }

  // ----- The long read -----

  function ReachablePrefix(range: seq<nat>): (n: nat)
    ensures n <= |range| && AllReachable(range[..n]) && (n < |range| ==> !Reachable(range[n]))
  {
    if range == [] then
      0
    else
      var last := |range| - 1;
      var n := ReachablePrefix(range[..last]);
      assert range[..last][..n] == range[..n];
      if n == last && Reachable(range[last]) then last + 1 else n
  }

  /** The length of the longest prefix of a range that can be read or written. */
  function Accessible(va: nat, range: seq<nat>): (n: nat)
    ensures LongestPrefix(va, range, n)
  {
    if va == 0 then 0 else ReachablePrefix(range)
  }

  /**
   The result of a long read if `readable` source bytes can be read and `writable` bytes of the buffer written: a
   chunk that cannot be stored as a whole does not count.
   */
  function ReadCount(readable: nat, writable: nat): nat {
    if readable <= writable then readable else ChunkStart(writable)
  }

  /** If the buffer is mapped as far, all that can be read; else the last multiple of 4 KB that can be stored. */
  lemma ReadCountShape(readable: nat, writable: nat)
    ensures readable <= writable ==> ReadCount(readable, writable) == readable
    ensures readable > writable ==>
              var n := ReadCount(readable, writable); n % 0x1000 == 0 && n <= writable < n + 0x1000
  {
  }

  /** Memory and result after a long read. */
  predicate ReadDone(before: seq<Byte>, after: seq<Byte>, targetVa: nat, source: seq<nat>, out: nat, dest: seq<nat>,
                     total: nat)
    requires |source| == |dest|
  {
    var readable, writable := Accessible(targetVa, source), Accessible(out, dest);
    total == ReadCount(readable, writable) && after == AfterRead(before, source, dest, Min(readable, writable))
  }

  predicate LongReadDone(before: seq<Byte>, after: seq<Byte>, targetVa: nat, source: seq<nat>, out: nat,
                         dest: seq<nat>, total: nat)
    requires |source| == |dest|
  {
    && ReadDone(before, after, targetVa, source, out, dest, total)
    && (total <= |source| && Injective(dest) && Undisturbed(source, dest, total) ==>
          Delivered(before, after, source, dest, total))
  }

  /**
   The chunked read of any size: what it returns, and all of memory, for any two ranges. Where the buffer has no
   aliases and the read is undisturbed the caller finds the first `total` bytes of the source in it.
   */
  method ReadVmemory(mem: PhysicalMemory, t: Tables, callerRoot: nat, systemRoot: nat, targetVa: nat, out: nat,
                     size: nat, targetCr3: nat, local: array<Byte>)
    returns (total: nat)
    requires mem.Valid() && local.Length == MAX_CHUNK
    modifies mem, local
    ensures mem.Valid()
    ensures var dest, before, after := Range(t, callerRoot, out, size), old(mem.bytes), mem.bytes;
            && (targetCr3 == 0 ==>
                  LongReadDone(before, after, targetVa, Range(t, systemRoot, targetVa, size), out, dest, total))
            && (targetCr3 != 0 ==>
                  LongReadDone(before, after, targetVa, Range(t, targetCr3, targetVa, size), out, dest, total))
  {
    total := 0;
    ghost var root := if targetCr3 != 0 then targetCr3 else systemRoot;
    ghost var source := Range(t, root, targetVa, size);
    ghost var dest := Range(t, callerRoot, out, size);
    ghost var before := mem.bytes;
    if out == 0 || size == 0 {
      return;
    }
    while total < size
      invariant mem.Valid() && total <= size && (total % MAX_CHUNK == 0 || total == size)
      invariant ReadSoFar(before, mem.bytes, targetVa, source, dest, total)
      decreases size - total
    {
      var chunkSize := Min(size - total, MAX_CHUNK);
      var bytesRead := ReadNextChunk(mem, t, callerRoot, systemRoot, targetVa, out, size, targetCr3, local, total,
                                     chunkSize, before, root);
      total := total + bytesRead;
      if bytesRead == 0 || bytesRead < chunkSize {
        break;
      }
    }
    if total == size {
      WholeRead(before, mem.bytes, targetVa, source, out, dest);
    }
    DeliveredToCaller(before, mem.bytes, targetVa, source, out, dest, total);
  }

  /** One round of the loop: the request for the next chunk and what it adds. */
  method ReadNextChunk(mem: PhysicalMemory, t: Tables, callerRoot: nat, systemRoot: nat, targetVa: nat, out: nat,
                       size: nat, targetCr3: nat, local: array<Byte>, total: nat, chunkSize: nat,
                       ghost before: seq<Byte>, ghost root: nat)
    returns (bytesRead: nat)
    requires root == if targetCr3 != 0 then targetCr3 else systemRoot
    requires mem.Valid() && local.Length == MAX_CHUNK && out != 0
    requires total < size && chunkSize == Min(size - total, MAX_CHUNK) && total % MAX_CHUNK == 0
    requires var source := Range(t, root, targetVa, size);
             ReadSoFar(before, mem.bytes, targetVa, source, Range(t, callerRoot, out, size), total)
    modifies mem, local
    ensures mem.Valid() && bytesRead <= chunkSize
    ensures bytesRead == chunkSize ==> (total + bytesRead) % MAX_CHUNK == 0 || total + bytesRead == size
    ensures var source := Range(t, root, targetVa, size);
            var dest := Range(t, callerRoot, out, size);
            ReadProgress(before, mem.bytes, targetVa, source, out, dest, total + bytesRead, bytesRead < chunkSize)
  {
    var request := VmemRequest(out + total, targetVa + total, chunkSize, targetCr3);
    ghost var now := mem.bytes;
    ghost var n, chunk;
    bytesRead, n, chunk := HandleVmemRead(mem, t, callerRoot, systemRoot, request, local);
    RequestMakesProgress(t, root, callerRoot, targetVa, out, size, total, chunkSize,
                         before, now, mem.bytes, n, chunk, bytesRead);
  }

  lemma RequestMakesProgress(t: Tables, root: nat, callerRoot: nat, targetVa: nat, out: nat, size: nat, total: nat,
                             chunkSize: nat, before: seq<Byte>, now: seq<Byte>, after: seq<Byte>, n: nat,
                             chunk: seq<Byte>, rax: nat)
    requires out != 0 && total < size && chunkSize == Min(size - total, MAX_CHUNK) && total % MAX_CHUNK == 0
    requires ReadSoFar(before, now, targetVa, Range(t, root, targetVa, size), Range(t, callerRoot, out, size), total)
    requires ChunkMoved(now, after, targetVa + total, Range(t, root, targetVa + total, chunkSize),
                        out + total, Range(t, callerRoot, out + total, chunkSize), n, chunk, rax)
    ensures rax <= chunkSize
    ensures ReadProgress(before, after, targetVa, Range(t, root, targetVa, size), out,
                         Range(t, callerRoot, out, size), total + rax, rax < chunkSize)
  {
    var source, dest := Range(t, root, targetVa, size), Range(t, callerRoot, out, size);
    RangeSlice(t, root, targetVa, size, total, total + chunkSize);
    RangeSlice(t, callerRoot, out, size, total, total + chunkSize);
    if rax == chunkSize {
      WholeChunkRead(before, now, after, targetVa, source, out, dest, total, chunkSize, n, chunk, rax);
    } else {
      LastChunkRead(before, now, after, targetVa, source, out, dest, total, chunkSize, n, chunk, rax);
    }
  }

  /** The state of the loop: between two chunks, or after the last one. */
  predicate ReadProgress(before: seq<Byte>, now: seq<Byte>, targetVa: nat, source: seq<nat>, out: nat, dest: seq<nat>,
                         total: nat, done: bool)
  {
    && |source| == |dest|
    && if done then
         ReadDone(before, now, targetVa, source, out, dest, total)
       else
         ReadSoFar(before, now, targetVa, source, dest, total)
  }

  /** What holds between two chunks: the first `total` bytes were read and stored. */
  predicate ReadSoFar(before: seq<Byte>, now: seq<Byte>, targetVa: nat, source: seq<nat>, dest: seq<nat>, total: nat) {
    && |before| == WINDOW && total <= |source| == |dest|
    && (total > 0 ==> targetVa != 0)
    && AllReachable(source[..total]) && AllReachable(dest[..total])
    && now == AfterRead(before, source, dest, total)
  }

  /** What one request adds when `total` bytes were read. */
  predicate NextChunk(before: seq<Byte>, now: seq<Byte>, after: seq<Byte>, targetVa: nat, source: seq<nat>, out: nat,
                      dest: seq<nat>, total: nat, size: nat, n: nat, chunk: seq<Byte>, rax: nat)
  {
    && out != 0 && total % MAX_CHUNK == 0 && ReadSoFar(before, now, targetVa, source, dest, total)
    && size == Min(|source| - total, MAX_CHUNK)
    && ChunkMoved(now, after, targetVa + total, source[total..total + size], out + total, dest[total..total + size],
                  n, chunk, rax)
  }

  lemma WholeChunkRead(before: seq<Byte>, now: seq<Byte>, after: seq<Byte>, targetVa: nat, source: seq<nat>, out: nat,
                       dest: seq<nat>, total: nat, size: nat, n: nat, chunk: seq<Byte>, rax: nat)
    requires NextChunk(before, now, after, targetVa, source, out, dest, total, size, n, chunk, rax) && rax == size
    ensures ReadSoFar(before, after, targetVa, source, dest, total + rax)
  {
    ChunkEnds(targetVa, out, source, dest, total, total + size, n, |chunk|, rax);
    ChunkExtends(before, now, after, source, dest, total, total + size, chunk);
    WholeChunk(source, dest, total, total + size, n, |chunk|);
  }

  lemma LastChunkRead(before: seq<Byte>, now: seq<Byte>, after: seq<Byte>, targetVa: nat, source: seq<nat>, out: nat,
                      dest: seq<nat>, total: nat, size: nat, n: nat, chunk: seq<Byte>, rax: nat)
    requires NextChunk(before, now, after, targetVa, source, out, dest, total, size, n, chunk, rax) && rax != size
    ensures rax < size && ReadDone(before, after, targetVa, source, out, dest, total + rax)
  {
    LastChunkCounts(before, now, after, targetVa, source, out, dest, total, size, n, chunk, rax);
    NextChunkExtends(before, now, after, targetVa, source, out, dest, total, size, n, chunk, rax);
    DoneAfter(before, after, targetVa, source, out, dest, total + |chunk|, total + rax);
  }

  lemma NextChunkExtends(before: seq<Byte>, now: seq<Byte>, after: seq<Byte>, targetVa: nat, source: seq<nat>, out: nat,
                         dest: seq<nat>, total: nat, size: nat, n: nat, chunk: seq<Byte>, rax: nat)
    requires NextChunk(before, now, after, targetVa, source, out, dest, total, size, n, chunk, rax)
    requires |chunk| <= MAX_CHUNK
    ensures total + |chunk| <= |source| == |dest| && after == AfterRead(before, source, dest, total + |chunk|)
  {
    ChunkExtends(before, now, after, source, dest, total, total + size, chunk);
  }

  lemma DoneAfter(before: seq<Byte>, after: seq<Byte>, targetVa: nat, source: seq<nat>, out: nat, dest: seq<nat>,
                  stored: nat, total: nat)
    requires stored <= |source| == |dest| && after == AfterRead(before, source, dest, stored)
    requires stored == Min(Accessible(targetVa, source), Accessible(out, dest))
    requires total == ReadCount(Accessible(targetVa, source), Accessible(out, dest))
    ensures ReadDone(before, after, targetVa, source, out, dest, total)
  {
  }

  lemma LastChunkCounts(before: seq<Byte>, now: seq<Byte>, after: seq<Byte>, targetVa: nat, source: seq<nat>, out: nat,
                        dest: seq<nat>, total: nat, size: nat, n: nat, chunk: seq<Byte>, rax: nat)
    requires NextChunk(before, now, after, targetVa, source, out, dest, total, size, n, chunk, rax) && rax != size
    ensures rax < size && |chunk| <= MAX_CHUNK
    ensures var readable, writable := Accessible(targetVa, source), Accessible(out, dest);
            total + |chunk| == Min(readable, writable) && total + rax == ReadCount(readable, writable)
  {
    ChunkEnds(targetVa, out, source, dest, total, total + size, n, |chunk|, rax);
  }

  lemma WholeChunk(source: seq<nat>, dest: seq<nat>, from: nat, to: nat, n: nat, stored: nat)
    requires |source| == |dest| && from <= to <= |source| && n == stored == to - from
    requires AllReachable(source[..from]) && AllReachable(dest[..from])
    requires AllReachable(source[from..to][..n]) && AllReachable(dest[from..to][..n][..stored])
    ensures AllReachable(source[..to]) && AllReachable(dest[..to])
  {
    ReachableJoin(source, from, to, n);
    assert dest[from..to][..n][..stored] == dest[from..to][..n];
    ReachableJoin(dest, from, to, n);
  }

  lemma ChunkExtends(before: seq<Byte>, now: seq<Byte>, after: seq<Byte>, source: seq<nat>, dest: seq<nat>, total: nat,
                     to: nat, chunk: seq<Byte>)
    requires |source| == |dest| && total % MAX_CHUNK == 0 && total <= to <= |source| && |chunk| <= MAX_CHUNK
    requires now == AfterRead(before, source, dest, total)
    requires Holds(now, source[total..to], chunk) && IsStored(now, after, dest[total..to], chunk)
    ensures total + |chunk| <= |source| && after == AfterRead(before, source, dest, total + |chunk|)
  {
    var data := ReadInChunks(before, source, dest, total);
    ChunkRead(before, source, dest, data, to, chunk);
    ChunkStored(before, dest, data, to, chunk);
  }

  /** The data is what a long read has got so far. */
  predicate IsRead(bytes: seq<Byte>, source: seq<nat>, dest: seq<nat>, data: seq<Byte>) {
    |data| <= |source| == |dest| && data == ReadInChunks(bytes, source, dest, |data|)
  }

  lemma NextByteRead(bytes: seq<Byte>, source: seq<nat>, dest: seq<nat>, from: nat, data: seq<Byte>, b: Byte)
    requires IsRead(bytes, source, dest, data) && |data| < |source| && from == ChunkStart(|data|)
    requires b == ByteAt(Stored(bytes, dest, data[..from]), source[|data|])
    ensures IsRead(bytes, source, dest, data + [b])
  {
  }

  lemma NextByteOfChunk(bytes: seq<Byte>, source: seq<nat>, dest: seq<nat>, data: seq<Byte>, to: nat, chunk: seq<Byte>,
                        n: nat)
    requires n < |chunk| && |data| + |chunk| <= to <= |source| == |dest| && ChunkStart(|data| + n) == |data|
    requires Holds(Stored(bytes, dest, data), source[|data|..to], chunk)
    requires IsRead(bytes, source, dest, data + chunk[..n])
    ensures IsRead(bytes, source, dest, data + chunk[..n + 1])
  {
    AppendNext(data, chunk, n);
    assert chunk[n] == ByteAt(Stored(bytes, dest, data), source[|data| + n]) by {
      assert source[|data|..to][n] == source[|data| + n];
    }
    NextByteRead(bytes, source, dest, |data|, data + chunk[..n], chunk[n]);
  }

  lemma AppendNext<T>(first: seq<T>, second: seq<T>, n: nat)
    requires n < |second|
    ensures (first + second[..n])[..|first|] == first
    ensures first + second[..n + 1] == first + second[..n] + [second[n]]
  {
  }

  /** One chunk extends what was read. */
  lemma ChunkRead(bytes: seq<Byte>, source: seq<nat>, dest: seq<nat>, data: seq<Byte>, to: nat, chunk: seq<Byte>)
    requires |data| % MAX_CHUNK == 0 && |chunk| <= MAX_CHUNK && |data| + |chunk| <= to <= |source| == |dest|
    requires IsRead(bytes, source, dest, data)
    requires Holds(Stored(bytes, dest, data), source[|data|..to], chunk)
    ensures IsRead(bytes, source, dest, data + chunk)
  {
    assert data + chunk[..0] == data;
    for n := 0 to |chunk|
      invariant IsRead(bytes, source, dest, data + chunk[..n])
    {
      ChunkStartUnique(|data|, |data| + n);
      NextByteOfChunk(bytes, source, dest, data, to, chunk, n);
    }
    assert chunk[..|chunk|] == chunk;
  }

  /** One chunk extends what was stored. */
  lemma ChunkStored(before: seq<Byte>, dest: seq<nat>, data: seq<Byte>, to: nat, chunk: seq<Byte>)
    requires |data| <= to <= |dest| && |chunk| <= to - |data|
    ensures Stored(Stored(before, dest, data), dest[|data|..to], chunk) == Stored(before, dest, data + chunk)
  {
    var rest := dest[|data|..];
    assert dest[|data|..to] == rest[..to - |data|];
    StoredPrefix(Stored(before, dest, data), rest, to - |data|, chunk);
    StoredAppend(before, dest, data, chunk);
  }

  /** What the longest prefix of a part says about that of the whole range. */
  lemma PrefixOfPart(va: nat, range: seq<nat>, from: nat, to: nat, n: nat)
    requires from <= to <= |range| && AllReachable(range[..from]) && (from > 0 ==> va != 0)
    requires LongestPrefix(va + from, range[from..to], n)
    ensures Accessible(va, range) >= from && n == Min(Accessible(va, range), to) - from
  {
    var all := Accessible(va, range);
    if va != 0 {
      ReachableJoin(range, from, to, n);
      PrefixReachable(range, from + n);
      PrefixReachable(range, all);
      if n < to - from {
        assert range[from..to][n] == range[from + n];
      }
    }
  }

  lemma PrefixReachable(range: seq<nat>, n: nat)
    requires n <= |range| && AllReachable(range[..n])
    ensures forall i | 0 <= i < n :: Reachable(range[i])
  {
    forall i | 0 <= i < n
      ensures Reachable(range[i])
    {
      assert range[..n][i] == range[i];
    }
  }

  /** A chunk that comes back whole was read and stored as a whole; any other one decides the result. */
  lemma ChunkEnds(targetVa: nat, out: nat, source: seq<nat>, dest: seq<nat>, from: nat, to: nat, n: nat, stored: nat,
                  rax: nat)
    requires |source| == |dest| && from % MAX_CHUNK == 0 && out != 0
    requires from <= |source| && to == from + Min(|source| - from, MAX_CHUNK)
    requires AllReachable(source[..from]) && AllReachable(dest[..from]) && (from > 0 ==> targetVa != 0)
    requires ReadResult(targetVa + from, source[from..to], out + from, dest[from..to], n, stored, rax)
    ensures rax <= to - from
    ensures rax == to - from ==> stored == n == rax && (rax > 0 ==> targetVa != 0)
    ensures var readable, writable := Accessible(targetVa, source), Accessible(out, dest);
            rax < to - from ==> from + stored == Min(readable, writable) && from + rax == ReadCount(readable, writable)
  {
    PrefixOfPart(targetVa, source, from, to, n);
    assert dest[from..to][..n] == dest[from..from + n];
    PrefixOfPart(out, dest, from, from + n, stored);
    var writable := Accessible(out, dest);
    if from <= writable < from + MAX_CHUNK {
      ChunkStartUnique(from, writable);
    }
  }

  lemma WholeRead(before: seq<Byte>, now: seq<Byte>, targetVa: nat, source: seq<nat>, out: nat, dest: seq<nat>)
    requires out != 0 && ReadSoFar(before, now, targetVa, source, dest, |source|)
    ensures ReadDone(before, now, targetVa, source, out, dest, |source|)
  {
    assert source[..|source|] == source && dest[..|dest|] == dest;
  }

  lemma DeliveredToCaller(before: seq<Byte>, after: seq<Byte>, targetVa: nat, source: seq<nat>, out: nat,
                          dest: seq<nat>, total: nat)
    requires |before| == WINDOW && |source| == |dest| && ReadDone(before, after, targetVa, source, out, dest, total)
    ensures total <= |source|
    ensures Injective(dest) && Undisturbed(source, dest, total) ==> Delivered(before, after, source, dest, total)
  {
    var readable, writable := Accessible(targetVa, source), Accessible(out, dest);
    var m := Min(readable, writable);
    assert source[..m] == source[..readable][..m] && dest[..m] == dest[..writable][..m];
    if Injective(dest) && Undisturbed(source, dest, total) {
      FoundIffUndisturbed(source, dest, m, total);
      DeliveredIff(source, dest, m, total);
    }
  }

  // ----- A long read over itself -----

  /** Tables with root 1 that map the first gigabyte to itself. */
  function IdentityTables(): Tables {
    map[1 := [Entry(true, false, 2, 0)], 2 := [Entry(true, true, 0, 0)]]
  }

  lemma IdentityRange(va: nat, size: nat)
    requires va + size <= SIZE_1G
    ensures Range(IdentityTables(), 1, va, size) == seq(size, i => va + i)
  {
    var range := Range(IdentityTables(), 1, va, size);
    forall i | 0 <= i < size
      ensures range[i] == va + i
    {
      IdentityAddress(va + i);
    }
  }

  lemma IdentityAddress(a: nat)
    requires a < SIZE_1G
    ensures GvaToGpa(IdentityTables(), 1, a) == a
  {
    var t := IdentityTables();
    assert Walk(t, 1, 4, a) == Walk(t, 2, 3, a);
  }

  lemma OriginInFirstPage(source: seq<nat>, dest: seq<nat>, start: nat, j: nat)
    requires source == seq(2 * MAX_CHUNK, i => start + i)
    requires dest == seq(2 * MAX_CHUNK, i => start + MAX_CHUNK + i)
    requires MAX_CHUNK <= j < 2 * MAX_CHUNK
    ensures Origin(source, dest, j) == start + (j - MAX_CHUNK)
    ensures Found(source, dest, 2 * MAX_CHUNK, j) == start + (j - MAX_CHUNK)
  {
    var i := j - MAX_CHUNK;
    ChunkStartUnique(MAX_CHUNK, j);
    ChunkStartUnique(0, i);
    assert dest[i] == source[j] == start + j;
    assert LastStore(dest, MAX_CHUNK, source[j]) == Some(i);
    assert LastStore(dest, 0, source[i]) == None;
    assert LastStore(dest, 2 * MAX_CHUNK, dest[j]) == Some(j);
  }

  lemma WholeRange(va: nat, range: seq<nat>, start: nat)
    requires va != 0 && range == seq(|range|, i => start + i) && 0 < start && start + |range| <= WINDOW
    ensures AllReachable(range) && Accessible(va, range) == |range|
  {
    assert range[..|range|] == range;
    LongestPrefixUnique(va, range, Accessible(va, range), |range|);
  }

  /**
   Two pages in a row are read to the page behind the first one. The read reports success, but the second page of
   the buffer is a copy of the first page of the source, whatever memory holds.
   */
  lemma SecondPageIsFirst(bytes: seq<Byte>, after: seq<Byte>, total: nat)
    requires |bytes| == WINDOW
    requires ReadDone(bytes, after, 0x1000, Range(IdentityTables(), 1, 0x1000, 0x2000),
                      0x2000, Range(IdentityTables(), 1, 0x2000, 0x2000), total)
    ensures total == 0x2000 && |after| == WINDOW
    ensures forall a | 0x3000 <= a < 0x4000 :: after[a] == bytes[a - 0x2000]
    ensures !Undisturbed(Range(IdentityTables(), 1, 0x1000, 0x2000), Range(IdentityTables(), 1, 0x2000, 0x2000), total)
  {
    IdentityRange(0x1000, 0x2000);
    IdentityRange(0x2000, 0x2000);
    var source, dest := Range(IdentityTables(), 1, 0x1000, 0x2000), Range(IdentityTables(), 1, 0x2000, 0x2000);
    WholeRange(0x1000, source, 0x1000);
    WholeRange(0x2000, dest, 0x2000);
    forall a | 0x3000 <= a < 0x4000
      ensures after[a] == bytes[a - 0x2000]
    {
      OriginInFirstPage(source, dest, 0x1000, a - 0x2000);
      FoundByte(bytes, source, dest, 0x2000, a - 0x2000);
    }
    OriginInFirstPage(source, dest, 0x1000, 0x1000);
    UndisturbedIff(source, dest, 0x2000);
  }
}
