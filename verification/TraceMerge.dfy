/**
 The offline merge of the per-core trace files: a priority queue holds the head of every stream that is not
 exhausted, and each round writes the smallest one. The queue is a set; which of several equal heads comes
 first is left open.
 */
module TraceMerge {
  import opened TraceRings

  type Stream = seq<Entry>

  datatype HeapElem = HeapElem(timestamp: nat, stream: nat)

  /** One output line and the stream it came from. */
  datatype Line = Line(stream: nat, entry: Entry)

  // ----- What a merge is -----

  /** The entries of one stream among the output lines, in order. */
  function Project(out: seq<Line>, i: nat): seq<Entry> {
    if out == [] then
      []
    else
      Project(out[..|out| - 1], i) + if out[|out| - 1].stream == i then [out[|out| - 1].entry] else []
  }

  /** The output is made of the streams, each complete and in its own order. */
  predicate Interleaves(streams: seq<Stream>, out: seq<Line>) {
    && (forall k | 0 <= k < |out| :: out[k].stream < |streams|)
    && forall i | 0 <= i < |streams| :: Project(out, i) == streams[i]
  }

  predicate StreamSorted(s: Stream) {
    forall j, k | 0 <= j < k < |s| :: s[j].timestamp <= s[k].timestamp
  }

  predicate LinesSorted(out: seq<Line>) {
    forall j, k | 0 <= j < k < |out| :: out[j].entry.timestamp <= out[k].entry.timestamp
  }

  function Total(streams: seq<Stream>): nat {
    if streams == [] then 0 else Total(streams[..|streams| - 1]) + |streams[|streams| - 1]|
  }

  // ----- Cursors -----

  predicate CursorsOk(streams: seq<Stream>, cursors: seq<nat>) {
    |cursors| == |streams| && forall i | 0 <= i < |streams| :: cursors[i] <= |streams[i]|
  }

  predicate Live(streams: seq<Stream>, cursors: seq<nat>, i: nat)
    requires CursorsOk(streams, cursors)
  {
    i < |streams| && cursors[i] < |streams[i]|
  }

  function Head(streams: seq<Stream>, cursors: seq<nat>, i: nat): Entry
    requires CursorsOk(streams, cursors) && Live(streams, cursors, i)
  {
    streams[i][cursors[i]]
  }

  function Remaining(streams: seq<Stream>, cursors: seq<nat>): nat
    requires CursorsOk(streams, cursors)
  {
    if streams == [] then
      0
    else
      var n := |streams| - 1;
      Remaining(streams[..n], cursors[..n]) + |streams[n]| - cursors[n]
  }

  lemma {:induction false} RemainingAdvance(streams: seq<Stream>, cursors: seq<nat>, i: nat)
    requires CursorsOk(streams, cursors) && Live(streams, cursors, i)
    ensures Remaining(streams, cursors[i := cursors[i] + 1]) == Remaining(streams, cursors) - 1
  {
    var n := |streams| - 1;
    var next := cursors[i := cursors[i] + 1];
    if i < n {
      RemainingAdvance(streams[..n], cursors[..n], i);
      assert next[..n] == cursors[..n][i := cursors[i] + 1];
    } else {
      assert next[..n] == cursors[..n];
    }
  }

  lemma {:induction false} RemainingStart(streams: seq<Stream>, cursors: seq<nat>)
    requires CursorsOk(streams, cursors) && forall i | 0 <= i < |streams| :: cursors[i] == 0
    ensures Remaining(streams, cursors) == Total(streams)
  {
    if streams != [] {
      RemainingStart(streams[..|streams| - 1], cursors[..|streams| - 1]);
    }
  }

  /** The queue holds the head of every stream that has one. */
  predicate HeapOk(streams: seq<Stream>, cursors: seq<nat>, heap: set<HeapElem>)
    requires CursorsOk(streams, cursors)
  {
    && (forall e | e in heap ::
         Live(streams, cursors, e.stream) && e.timestamp == Head(streams, cursors, e.stream).timestamp)
    && forall i | 0 <= i < |streams| && Live(streams, cursors, i) ::
         HeapElem(Head(streams, cursors, i).timestamp, i) in heap
  }

  predicate IsTop(heap: set<HeapElem>, top: HeapElem) {
    top in heap && forall e | e in heap :: top.timestamp <= e.timestamp
  }

  lemma {:induction false} TopExists(heap: set<HeapElem>) returns (top: HeapElem)
    requires heap != {}
    ensures IsTop(heap, top)
  {
    var e :| e in heap;
    if heap == {e} {
      return e;
    }
    var rest := TopExists(heap - {e});
    top := if e.timestamp <= rest.timestamp then e else rest;
    forall f | f in heap
      ensures top.timestamp <= f.timestamp
    {
      assert f == e || f in heap - {e};
    }
  }

  // ----- The loop -----

  predicate Written(streams: seq<Stream>, cursors: seq<nat>, out: seq<Line>)
    requires CursorsOk(streams, cursors)
  {
    && (forall k | 0 <= k < |out| :: out[k].stream < |streams|)
    && forall i | 0 <= i < |streams| :: Project(out, i) == streams[i][..cursors[i]]
  }

  predicate AllSorted(streams: seq<Stream>) {
    forall i | 0 <= i < |streams| :: StreamSorted(streams[i])
  }

  /** What was written is sorted and nothing that is still to come is smaller. */
  ghost predicate SortedSoFar(streams: seq<Stream>, cursors: seq<nat>, out: seq<Line>)
    requires CursorsOk(streams, cursors)
  {
    && LinesSorted(out)
    && forall k, i | 0 <= k < |out| && Live(streams, cursors, i) ::
         out[k].entry.timestamp <= Head(streams, cursors, i).timestamp
  }

  /** Writing the head of a stream takes it off that stream and no other. */
  lemma WriteHead(streams: seq<Stream>, cursors: seq<nat>, out: seq<Line>, i: nat)
    requires CursorsOk(streams, cursors) && Live(streams, cursors, i) && Written(streams, cursors, out)
    ensures var after := cursors[i := cursors[i] + 1];
            CursorsOk(streams, after) && Written(streams, after, out + [Line(i, Head(streams, cursors, i))])
  {
    var after, line := cursors[i := cursors[i] + 1], Line(i, Head(streams, cursors, i));
    assert (out + [line])[..|out|] == out;
    forall j | 0 <= j < |streams|
      ensures Project(out + [line], j) == streams[j][..after[j]]
    {
      assert Project(out, j) == streams[j][..cursors[j]];
    }
  }

  /** After a step every head is at least the head it replaces; the top is at most every head. */
  lemma HeadsAfter(streams: seq<Stream>, cursors: seq<nat>, heap: set<HeapElem>, top: HeapElem, j: nat)
    requires CursorsOk(streams, cursors) && HeapOk(streams, cursors, heap) && IsTop(heap, top) && AllSorted(streams)
    requires CursorsOk(streams, cursors[top.stream := cursors[top.stream] + 1])
    requires Live(streams, cursors[top.stream := cursors[top.stream] + 1], j)
    ensures Live(streams, cursors, j)
    ensures top.timestamp <= Head(streams, cursors, j).timestamp
            <= Head(streams, cursors[top.stream := cursors[top.stream] + 1], j).timestamp
  {
    assert HeapElem(Head(streams, cursors, j).timestamp, j) in heap;
    assert StreamSorted(streams[j]);
  }

  lemma WriteTop(streams: seq<Stream>, cursors: seq<nat>, heap: set<HeapElem>, out: seq<Line>, top: HeapElem)
    requires CursorsOk(streams, cursors) && HeapOk(streams, cursors, heap) && IsTop(heap, top)
    requires AllSorted(streams) && SortedSoFar(streams, cursors, out)
    requires CursorsOk(streams, cursors[top.stream := cursors[top.stream] + 1])
    ensures SortedSoFar(streams, cursors[top.stream := cursors[top.stream] + 1],
                        out + [Line(top.stream, Head(streams, cursors, top.stream))])
  {
    var after := cursors[top.stream := cursors[top.stream] + 1];
    var line := Line(top.stream, Head(streams, cursors, top.stream));
    forall k, j: nat | 0 <= k < |out + [line]| && Live(streams, after, j)
      ensures (out + [line])[k].entry.timestamp <= Head(streams, after, j).timestamp
    {
      HeadsAfter(streams, cursors, heap, top, j);
    }
  }

  /** The element that stands for a stream in the queue, if the stream is not exhausted. */
  function NextElem(streams: seq<Stream>, cursors: seq<nat>, i: nat): set<HeapElem>
    requires CursorsOk(streams, cursors) && i < |streams|
  {
    if cursors[i] < |streams[i]| then {HeapElem(streams[i][cursors[i]].timestamp, i)} else {}
  }

  /** Removes the top and puts the next head of its stream in its place, if there is one. */
  lemma Refill(streams: seq<Stream>, cursors: seq<nat>, heap: set<HeapElem>, top: HeapElem)
    requires CursorsOk(streams, cursors) && HeapOk(streams, cursors, heap) && IsTop(heap, top)
    ensures var after := cursors[top.stream := cursors[top.stream] + 1];
            CursorsOk(streams, after) && HeapOk(streams, after, (heap - {top}) + NextElem(streams, after, top.stream))
  {
    var i := top.stream;
    var after := cursors[i := cursors[i] + 1];
    forall e | e in heap - {top}
      ensures e.stream != i
    {
    }
    forall j | 0 <= j < |streams| && Live(streams, after, j)
      ensures j != i ==> HeapElem(Head(streams, after, j).timestamp, j) in heap
    {
      assert j != i ==> Live(streams, cursors, j) && Head(streams, after, j) == Head(streams, cursors, j);
    }
  }

  /** Line `k` is the smallest of the heads that the streams have once the lines before it are written. */
  predicate LeastHead(streams: seq<Stream>, out: seq<Line>, k: nat)
    requires k < |out|
  {
    forall i | 0 <= i < |streams| && |Project(out[..k], i)| < |streams[i]| ::
      out[k].entry.timestamp <= streams[i][|Project(out[..k], i)|].timestamp
  }

  /** The smallest head is written in every round, whether the streams are sorted or not. */
  predicate Greedy(streams: seq<Stream>, out: seq<Line>) {
    forall k | 0 <= k < |out| :: LeastHead(streams, out, k)
  }

  lemma GreedyStep(streams: seq<Stream>, cursors: seq<nat>, heap: set<HeapElem>, out: seq<Line>, top: HeapElem)
    requires CursorsOk(streams, cursors) && HeapOk(streams, cursors, heap) && IsTop(heap, top)
    requires Written(streams, cursors, out) && Greedy(streams, out)
    ensures Greedy(streams, out + [Line(top.stream, Head(streams, cursors, top.stream))])
  {
    var line := Line(top.stream, Head(streams, cursors, top.stream));
    var all := out + [line];
    forall k | 0 <= k < |all|
      ensures LeastHead(streams, all, k)
    {
      if k < |out| {
        assert LeastHead(streams, out, k) && all[..k] == out[..k];
      } else {
        assert all[..k] == out;
        forall i | 0 <= i < |streams| && |Project(out, i)| < |streams[i]|
          ensures line.entry.timestamp <= streams[i][|Project(out, i)|].timestamp
        {
          assert Project(out, i) == streams[i][..cursors[i]];
          assert HeapElem(Head(streams, cursors, i).timestamp, i) in heap;
        }
      }
    }
  }

  /** What holds between two rounds. */
  ghost predicate Merging(streams: seq<Stream>, cursors: seq<nat>, heap: set<HeapElem>, out: seq<Line>) {
    && CursorsOk(streams, cursors) && HeapOk(streams, cursors, heap)
    && Written(streams, cursors, out)
    && (AllSorted(streams) ==> SortedSoFar(streams, cursors, out))
    && |out| + Remaining(streams, cursors) == Total(streams)
    && Greedy(streams, out)
  }

  lemma MergeStep(streams: seq<Stream>, cursors: seq<nat>, heap: set<HeapElem>, out: seq<Line>, top: HeapElem)
    requires Merging(streams, cursors, heap, out) && IsTop(heap, top)
    ensures var i := top.stream;
            var after := cursors[i := cursors[i] + 1];
            && CursorsOk(streams, after) && Remaining(streams, after) == Remaining(streams, cursors) - 1
            && Merging(streams, after, (heap - {top}) + NextElem(streams, after, i),
                       out + [Line(i, Head(streams, cursors, i))])
  {
    WriteHead(streams, cursors, out, top.stream);
    if AllSorted(streams) {
      WriteTop(streams, cursors, heap, out, top);
    }
    GreedyStep(streams, cursors, heap, out, top);
    Refill(streams, cursors, heap, top);
    RemainingAdvance(streams, cursors, top.stream);
  }

  lemma MergeEnd(streams: seq<Stream>, cursors: seq<nat>, out: seq<Line>)
    requires Merging(streams, cursors, {}, out)
    ensures Interleaves(streams, out) && |out| == Total(streams) && (LinesSorted(out) <==> AllSorted(streams))
  {
    AllWritten(streams, cursors);
    if LinesSorted(out) {
      SortedOutputSortedStreams(streams, out);
    }
  }

  /** The queue at the start: the first entry of every stream that has one. */
  method FillHeap(streams: seq<Stream>) returns (heap: set<HeapElem>)
    ensures var cursors := seq<nat>(|streams|, i => 0); CursorsOk(streams, cursors) && HeapOk(streams, cursors, heap)
  {
    heap := {};
    for i := 0 to |streams|
      invariant forall e | e in heap ::
                  e.stream < i && 0 < |streams[e.stream]| && e.timestamp == streams[e.stream][0].timestamp
      invariant forall j | 0 <= j < i && 0 < |streams[j]| :: HeapElem(streams[j][0].timestamp, j) in heap
    {
      if 0 < |streams[i]| {
        heap := heap + {HeapElem(streams[i][0].timestamp, i)};
      }
    }
  }

  /**
   The merge loses and duplicates nothing and keeps the order of each stream; its output is sorted by
   timestamp if and only if every stream is.
   */
  method MergeStreams(streams: seq<Stream>) returns (out: seq<Line>)
    ensures Interleaves(streams, out)
    ensures |out| == Total(streams)
    ensures Greedy(streams, out)
    ensures LinesSorted(out) <==> AllSorted(streams)
  {
    var cursors: seq<nat> := seq(|streams|, i => 0);
    var heap := FillHeap(streams);
    out := [];
    RemainingStart(streams, cursors);
    while heap != {}
      invariant CursorsOk(streams, cursors) && Merging(streams, cursors, heap, out)
      decreases Remaining(streams, cursors)
    {
      ghost var min := TopExists(heap);
      var top: HeapElem :| top in heap && forall e | e in heap :: top.timestamp <= e.timestamp;
      MergeStep(streams, cursors, heap, out, top);
      var i := top.stream;
      out := out + [Line(i, streams[i][cursors[i]])];
      cursors := cursors[i := cursors[i] + 1];
      heap := (heap - {top}) + NextElem(streams, cursors, i);
    }
    MergeEnd(streams, cursors, out);
  }

  lemma {:induction false} NothingRemains(streams: seq<Stream>, cursors: seq<nat>)
    requires CursorsOk(streams, cursors) && forall i | 0 <= i < |streams| :: cursors[i] == |streams[i]|
    ensures Remaining(streams, cursors) == 0
  {
    if streams != [] {
      NothingRemains(streams[..|streams| - 1], cursors[..|streams| - 1]);
    }
  }

  lemma AllWritten(streams: seq<Stream>, cursors: seq<nat>)
    requires CursorsOk(streams, cursors) && HeapOk(streams, cursors, {})
    ensures Remaining(streams, cursors) == 0
    ensures forall i | 0 <= i < |streams| :: streams[i][..cursors[i]] == streams[i]
  {
    forall i | 0 <= i < |streams|
      ensures cursors[i] == |streams[i]|
    {
      assert !Live(streams, cursors, i);
    }
    NothingRemains(streams, cursors);
  }

  /** A projection of sorted lines is sorted, and its entries are among the lines. */
  lemma {:induction false} ProjectionSorted(out: seq<Line>, i: nat)
    requires LinesSorted(out)
    ensures StreamSorted(Project(out, i))
    ensures forall e | e in Project(out, i) :: exists k :: 0 <= k < |out| && out[k].entry == e
  {
    if out != [] {
      var n := |out| - 1;
      ProjectionSorted(out[..n], i);
      forall e | e in Project(out[..n], i)
        ensures exists k :: 0 <= k < |out| && out[k].entry == e
        ensures e.timestamp <= out[n].entry.timestamp
      {
        var k :| 0 <= k < n && out[..n][k].entry == e;
        assert out[k].entry == e;
      }
    }
  }

  lemma SortedOutputSortedStreams(streams: seq<Stream>, out: seq<Line>)
    requires Interleaves(streams, out) && LinesSorted(out)
    ensures AllSorted(streams)
  {
    forall i | 0 <= i < |streams|
      ensures StreamSorted(streams[i])
    {
      ProjectionSorted(out, i);
    }
  }

  /** Any interleaving has exactly the entries of the streams: as many lines, and the same multiset. */
  lemma {:induction false} InterleavingConserves(out: seq<Line>, i: nat, e: Entry)
    ensures multiset(Project(out, i))[e] == multiset(out)[Line(i, e)]
  {
    if out != [] {
      var n := |out| - 1;
      InterleavingConserves(out[..n], i, e);
      assert out == out[..n] + [out[n]];
      assert multiset(out) == multiset(out[..n]) + multiset{out[n]};
      if out[n].stream == i {
        assert multiset(Project(out, i)) == multiset(Project(out[..n], i)) + multiset{out[n].entry};
      }
    }
  }
}
