/**
 The per-core trace ring as the code keeps it: a fixed array with a write and a read index. Taken one call
 at a time it is a bounded queue; the interleaving of its single memory accesses is in RingInterleaving.
 */
module TraceRings {
  import opened Common

  const ENTRY_COUNT: nat := 8192
  const MAX_FLUSH: nat := 512
  const BATCH: nat := 64

  datatype Entry = Entry(formatId: nat, coreId: nat, timestamp: nat, data: seq<nat>)

  function After(index: nat, n: nat): (i: nat)
    ensures i < ENTRY_COUNT
  {
    (index + n) % ENTRY_COUNT
  }

  /** The entries from the read index up to the write index, in ring order. */
  function QueueOf<T>(entries: seq<T>, tail: nat, head: nat): (q: seq<T>)
    requires |entries| == ENTRY_COUNT && tail < ENTRY_COUNT && head < ENTRY_COUNT
    ensures |q| < ENTRY_COUNT
  {
    seq((head - tail) % ENTRY_COUNT, k requires 0 <= k => entries[After(tail, k)])
  }

  lemma QueueEmpty<T>(entries: seq<T>, tail: nat, head: nat)
    requires |entries| == ENTRY_COUNT && tail < ENTRY_COUNT && head < ENTRY_COUNT
    ensures QueueOf(entries, tail, head) == [] <==> tail == head
  {
  }

  /** The queue is full exactly when the slot after the write index is the read index. */
  lemma QueueFull<T>(entries: seq<T>, tail: nat, head: nat)
    requires |entries| == ENTRY_COUNT && tail < ENTRY_COUNT && head < ENTRY_COUNT
    ensures |QueueOf(entries, tail, head)| == ENTRY_COUNT - 1 <==> After(head, 1) == tail
  {
  }

  /** Storing at the write index and moving it appends, if the queue is not full. */
  lemma QueueAppend<T>(entries: seq<T>, tail: nat, head: nat, e: T)
    requires |entries| == ENTRY_COUNT && tail < ENTRY_COUNT && head < ENTRY_COUNT && After(head, 1) != tail
    ensures QueueOf(entries[head := e], tail, After(head, 1)) == QueueOf(entries, tail, head) + [e]
  {
    var n := (head - tail) % ENTRY_COUNT;
    assert (After(head, 1) - tail) % ENTRY_COUNT == n + 1;
    assert After(tail, n) == head;
    forall k | 0 <= k < n
      ensures After(tail, k) != head
    {
    }
  }

  /** Moving the read index removes the oldest entry. */
  lemma QueueRemove<T>(entries: seq<T>, tail: nat, head: nat)
    requires |entries| == ENTRY_COUNT && tail < ENTRY_COUNT && head < ENTRY_COUNT && tail != head
    ensures var q := QueueOf(entries, tail, head);
            q != [] && q[0] == entries[tail] && QueueOf(entries, After(tail, 1), head) == q[1..]
  {
    var n := (head - tail) % ENTRY_COUNT;
    assert (head - After(tail, 1)) % ENTRY_COUNT == n - 1;
    forall k | 0 <= k < n - 1
      ensures After(After(tail, 1), k) == After(tail, k + 1)
    {
    }
  }

  /** The next entry to drain is the next one of the queue as it was at the start. */
  lemma DrainStep<T>(entries: seq<T>, tail: nat, head: nat, all: seq<T>, count: nat)
    requires |entries| == ENTRY_COUNT && tail < ENTRY_COUNT && head < ENTRY_COUNT && count <= |all|
    requires QueueOf(entries, tail, head) == all[count..]
    ensures tail == head ==> count == |all|
    ensures tail != head ==>
              count < |all| && entries[tail] == all[count] && QueueOf(entries, After(tail, 1), head) == all[count + 1..]
  {
    QueueEmpty(entries, tail, head);
    if tail != head {
      QueueRemove(entries, tail, head);
    }
  }

  class TraceRing {
    const entries: array<Entry>
    var writeHead: nat
    var readTail: nat
    var active: bool

    predicate Valid()
      reads this
    {
      entries.Length == ENTRY_COUNT && writeHead < ENTRY_COUNT && readTail < ENTRY_COUNT
    }

    /** The entries that were emitted and not yet drained, oldest first. */
    function Pending(): seq<Entry>
      reads this, entries
      requires Valid()
    {
      QueueOf(entries[..], readTail, writeHead)
    }

    constructor (blank: Entry)
      ensures Valid() && fresh(entries) && Pending() == [] && !active
    {
      entries := new Entry[ENTRY_COUNT](i => blank);
      writeHead, readTail, active := 0, 0, false;
    }

    /** What enabling the trace does to the ring: whatever was pending is discarded. */
    method Activate()
      requires Valid()
      modifies this
      ensures Valid() && Pending() == [] && active
    {
      writeHead, readTail, active := 0, 0, true;
    }

    method Deactivate()
      requires Valid()
      modifies this`active
      ensures Valid() && Pending() == old(Pending()) && !active
    {
      active := false;
    }

    /** Appends, unless the ring is inactive or full; then nothing changes. */
    method Emit(e: Entry)
      requires Valid()
      modifies this`writeHead, entries
      ensures Valid()
      ensures Pending() == if active && |old(Pending())| < 8191 then old(Pending()) + [e] else old(Pending())
    {
      if !active {
        return;
      }
      var head := writeHead;
      var next := (head + 1) % ENTRY_COUNT;
      QueueFull(entries[..], readTail, writeHead);
      if next == readTail {
        return;
      }
      QueueAppend(entries[..], readTail, head, e);
      entries[head] := e;
      writeHead := next;
    }

    /** Moves the oldest entries, as many as there are up to the limit, to the start of `out`. */
    method Drain(out: array<Entry>, max: nat) returns (count: nat)
      requires Valid() && max <= out.Length && out != entries
      modifies this`readTail, out
      ensures Valid()
      ensures count == Min(max, |old(Pending())|)
      ensures old(Pending()) == out[..count] + Pending()
      ensures out[count..] == old(out[count..])
    {
      count := 0;
      var tail: nat := readTail;
      ghost var all := Pending();
      while count < max
        invariant Valid() && tail < ENTRY_COUNT && count <= max && count <= |all|
        invariant forall k | 0 <= k < out.Length :: out[k] == if k < count then all[k] else old(out[k])
        invariant QueueOf(entries[..], tail, writeHead) == all[count..]
        invariant entries[..] == old(entries[..])
      {
        DrainStep(entries[..], tail, writeHead, all, count);
        if tail == writeHead {
          break;
        }
        out[count] := entries[tail];
        count := count + 1;
        tail := (tail + 1) % ENTRY_COUNT;
      }
      readTail := tail;
    }
  }

  /** Stores a batch in the guest buffer, of which the first `mapped` entries are mapped; tells whether all fit. */
  method WriteBatch(guest: array<Entry>, mapped: nat, at: nat, batch: array<Entry>, n: nat) returns (ok: bool)
    requires n <= batch.Length && at + n <= guest.Length && guest != batch
    modifies guest
    ensures ok <==> at + n <= mapped || n == 0
    ensures guest[..at] == old(guest[..at])
    ensures ok ==> guest[at..at + n] == batch[..n]
  {
    var stored := if at + n <= mapped then n else if at <= mapped then mapped - at else 0;
    forall k | 0 <= k < stored {
      guest[at + k] := batch[k];
    }
    ok := stored == n;
  }

  /** How much of a flush of `n` entries reaches a buffer with `mapped` mapped entries: whole batches only. */
  function Flushed(n: nat, mapped: nat): (total: nat)
    ensures total <= n
  {
    if mapped >= n then n else mapped / BATCH * BATCH
  }

  /** All of it if the buffer is mapped as far; else the whole batches of 64 that fit, and at most one is lost. */
  lemma FlushedBatches(n: nat, mapped: nat)
    ensures mapped >= n ==> Flushed(n, mapped) == n && LostBatch(n, mapped) == 0
    ensures mapped < n ==>
              var total, lost := Flushed(n, mapped), LostBatch(n, mapped);
              && total % 64 == 0 && total <= mapped < total + lost
              && lost == if n - total < 64 then n - total else 64
  {
  }

  /** What the failing batch takes with it. */
  function LostBatch(n: nat, mapped: nat): nat {
    Min(BATCH, n - Flushed(n, mapped))
  }

  /**
   The flush hypercall. It delivers the oldest entries in order, as a single drain would; entries are lost
   if and only if the guest buffer is not mapped as far as there are entries for it, and then it is the
   one batch that did not fit.
   */
  method FlushTraceLogs(ring: TraceRing, batch: array<Entry>, guest: array<Entry>, mapped: nat, maxEntries: nat)
    returns (total: nat, ghost lost: nat)
    requires ring.Valid() && batch.Length == BATCH && guest.Length >= Min(maxEntries, MAX_FLUSH)
    requires batch != ring.entries && guest != ring.entries && guest != batch
    modifies ring`readTail, batch, guest
    ensures ring.Valid()
    ensures var pending := old(ring.Pending());
            var n := Min(Min(maxEntries, 512), |pending|);
            && total == Flushed(n, mapped) && lost == LostBatch(n, mapped)
            && guest[..total] == pending[..total]
            && ring.Pending() == pending[total + lost..]
            && (lost == 0 <==> mapped >= n)
  {
    var max := Min(maxEntries, MAX_FLUSH);
    ghost var pending := ring.Pending();
    ghost var n := Min(max, |pending|);
    total, lost := 0, 0;
    while total < max
      invariant ring.Valid() && total <= n && (total % BATCH == 0 || total == n) && total <= mapped
      invariant guest[..total] == pending[..total]
      invariant ring.Pending() == pending[total..]
      decreases max - total
    {
      var drained, ok := FlushBatch(ring, batch, guest, mapped, total, Min(max - total, BATCH));
      FlushStep(pending, total, drained);
      NextBatch(total, max, |pending|, drained);
      if drained == 0 {
        break;
      }
      if !ok {
        lost := drained;
        FailingBatch(total, n, mapped);
        return;
      }
      total := total + drained;
    }
  }

  /** Drains one batch and stores it after what was flushed before. */
  method FlushBatch(ring: TraceRing, batch: array<Entry>, guest: array<Entry>, mapped: nat, total: nat, toDrain: nat)
    returns (drained: nat, ok: bool)
    requires ring.Valid() && toDrain <= batch.Length == BATCH && total + toDrain <= guest.Length
    requires batch != ring.entries && guest != ring.entries && guest != batch
    modifies ring`readTail, batch, guest
    ensures ring.Valid() && drained == Min(toDrain, |old(ring.Pending())|)
    ensures ok <==> drained == 0 || total + drained <= mapped
    ensures ring.Pending() == old(ring.Pending())[drained..]
    ensures guest[..total] == old(guest[..total])
    ensures ok ==> guest[..total + drained] == old(guest[..total]) + old(ring.Pending())[..drained]
  {
    ghost var queue := ring.Pending();
    drained := ring.Drain(batch, toDrain);
    assert queue[drained..] == ring.Pending() && queue[..drained] == batch[..drained];
    if drained == 0 {
      return 0, true;
    }
    ok := WriteBatch(guest, mapped, total, batch, drained);
    if ok {
      assert guest[..total + drained] == guest[..total] + guest[total..total + drained];
    }
  }

  lemma FlushStep(pending: seq<Entry>, total: nat, drained: nat)
    requires total + drained <= |pending|
    ensures pending[total..][drained..] == pending[total + drained..]
    ensures pending[..total] + pending[total..][..drained] == pending[..total + drained]
  {
  }

  /** Every batch but the last is full. */
  lemma NextBatch(total: nat, max: nat, available: nat, drained: nat)
    requires total < max && total <= available && (total % BATCH == 0 || total == Min(max, available))
    requires drained == Min(Min(max - total, BATCH), available - total)
    ensures (total + drained) % BATCH == 0 || total + drained == Min(max, available)
    ensures drained == 0 ==> total == Min(max, available)
    ensures drained > 0 ==> total % BATCH == 0 && drained == Min(BATCH, Min(max, available) - total)
  {
  }

  lemma FailingBatch(total: nat, n: nat, mapped: nat)
    requires total < n && total % BATCH == 0 && total <= mapped < total + Min(BATCH, n - total)
    ensures Flushed(n, mapped) == total
  {
  }
}
