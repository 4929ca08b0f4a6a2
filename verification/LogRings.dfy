/**
 The global log: a ring of 512 numbered messages that overwrites the oldest one when it is full, and a
 flush that copies out the oldest messages in at most two pieces. Writes and flushes hold one lock.
 */
module LogRings {
  import opened Common

  const MESSAGE_COUNT: nat := 512
  const TEXT_LENGTH: nat := 256

  datatype Message = Message(number: nat, text: string)

  /** The ring's messages from the oldest pending one on. */
  function PendingOf(messages: seq<Message>, cursor: nat, pending: nat): (q: seq<Message>)
    requires |messages| == MESSAGE_COUNT && cursor < MESSAGE_COUNT && pending <= MESSAGE_COUNT
    ensures |q| == pending
  {
    seq(pending, k requires 0 <= k < pending => messages[Position(cursor, pending, k)])
  }

  function Position(cursor: nat, pending: nat, k: nat): (i: nat)
    requires k < pending <= MESSAGE_COUNT
    ensures i < MESSAGE_COUNT
  {
    (cursor + MESSAGE_COUNT - pending + k) % MESSAGE_COUNT
  }

  /** The newest `n` of the messages. */
  function Newest(messages: seq<Message>, n: nat): seq<Message> {
    if |messages| <= n then messages else messages[|messages| - n..]
  }

  /** A stored text: as much as fits before the terminator. */
  function Stored(text: string): string {
    text[..Min(|text|, TEXT_LENGTH - 1)]
  }

  lemma PendingAfterWrite(messages: seq<Message>, cursor: nat, pending: nat, m: Message)
    requires |messages| == MESSAGE_COUNT && cursor < MESSAGE_COUNT && pending <= MESSAGE_COUNT
    ensures PendingOf(messages[cursor := m], (cursor + 1) % MESSAGE_COUNT, Min(pending + 1, MESSAGE_COUNT))
            == Newest(PendingOf(messages, cursor, pending) + [m], MESSAGE_COUNT)
  {
    var cursor', pending' := (cursor + 1) % MESSAGE_COUNT, Min(pending + 1, MESSAGE_COUNT);
    var dropped: nat := pending + 1 - pending';
    assert Position(cursor', pending', pending' - 1) == cursor;
    forall k | 0 <= k < pending' - 1
      ensures Position(cursor', pending', k) == Position(cursor, pending, k + dropped) != cursor
    {
    }
  }

  /** The data lies in the ring in two pieces: `first` messages from `start` on, and the others from its start. */
  predicate InPieces(messages: seq<Message>, start: nat, first: nat, data: seq<Message>) {
    && start + first <= |messages| && first <= |data| <= first + |messages|
    && forall k | 0 <= k < |data| :: data[k] == messages[if k < first then start + k else k - first]
  }

  /** The oldest `n` pending messages lie in two pieces, the first one up to the end of the ring. */
  lemma PieceAt(messages: seq<Message>, cursor: nat, pending: nat, n: nat)
    requires |messages| == MESSAGE_COUNT && cursor < MESSAGE_COUNT && n <= pending <= MESSAGE_COUNT
    ensures var start := (cursor + MESSAGE_COUNT - pending) % MESSAGE_COUNT;
            var first := Min(n, MESSAGE_COUNT - start);
            InPieces(messages, start, first, PendingOf(messages, cursor, pending)[..n])
  {
    var start := (cursor + MESSAGE_COUNT - pending) % MESSAGE_COUNT;
    var first, data := Min(n, MESSAGE_COUNT - start), PendingOf(messages, cursor, pending)[..n];
    forall k | 0 <= k < n
      ensures data[k] == messages[if k < first then start + k else k - first]
    {
      PositionFromStart(cursor, pending, k);
    }
  }

  lemma PositionFromStart(cursor: nat, pending: nat, k: nat)
    requires cursor < MESSAGE_COUNT && k < pending <= MESSAGE_COUNT
    ensures var start := (cursor + MESSAGE_COUNT - pending) % MESSAGE_COUNT;
            Position(cursor, pending, k) ==
            if start + k < MESSAGE_COUNT then start + k else start + k - MESSAGE_COUNT
  {
  }

  lemma PendingAfterFlush(messages: seq<Message>, cursor: nat, pending: nat, n: nat)
    requires |messages| == MESSAGE_COUNT && cursor < MESSAGE_COUNT && n <= pending <= MESSAGE_COUNT
    ensures PendingOf(messages, cursor, pending - n) == PendingOf(messages, cursor, pending)[n..]
  {
    forall k: nat | k < pending - n
      ensures PendingOf(messages, cursor, pending - n)[k] == PendingOf(messages, cursor, pending)[n..][k]
    {
      assert Position(cursor, pending - n, k) == Position(cursor, pending, n + k);
    }
  }

  /** How many of the oldest `n` messages lie in the first piece. */
  function FirstPiece(cursor: nat, pending: nat, n: nat): (first: nat)
    requires cursor < MESSAGE_COUNT && n <= pending <= MESSAGE_COUNT
    ensures first <= n
  {
    Min(n, MESSAGE_COUNT - (cursor + MESSAGE_COUNT - pending) % MESSAGE_COUNT)
  }

  /** How many of `n` positions from `at` on come before the first that is not mapped. */
  function MappedRun(mapped: seq<bool>, at: nat, n: nat): (k: nat)
    requires at + n <= |mapped|
    ensures k <= n && (forall j | at <= j < at + k :: mapped[j]) && (k < n ==> !mapped[at + k])
    decreases n
  {
    if n == 0 || !mapped[at] then 0 else 1 + MappedRun(mapped, at + 1, n - 1)
  }

  /** Whether a flush of `n` messages, `first` of them in the first piece, stores position `k`. */
  predicate IsStored(mapped: seq<bool>, first: nat, n: nat, k: nat)
    requires first <= n <= |mapped|
  {
    k < MappedRun(mapped, 0, first) || first <= k < first + MappedRun(mapped, first, n - first)
  }

  /** A position is stored if and only if its piece is mapped from the start of the piece up to it. */
  lemma IsStoredIff(mapped: seq<bool>, first: nat, n: nat, k: nat)
    requires first <= n <= |mapped|
    ensures k < first ==> (IsStored(mapped, first, n, k) <==> forall j | 0 <= j <= k :: mapped[j])
    ensures first <= k < n ==> (IsStored(mapped, first, n, k) <==> forall j | first <= j <= k :: mapped[j])
    ensures k >= n ==> !IsStored(mapped, first, n, k)
  {
    var front, back := MappedRun(mapped, 0, first), MappedRun(mapped, first, n - first);
    assert front < first ==> !mapped[front];
    assert back < n - first ==> !mapped[first + back];
  }

  /** The buffer after a flush of the data: the positions that are stored hold it, the others are as they were. */
  predicate Received(before: seq<Message>, after: seq<Message>, mapped: seq<bool>, first: nat, data: seq<Message>) {
    && first <= |data| <= |mapped| == |before| == |after|
    && forall k | 0 <= k < |after| :: after[k] == if IsStored(mapped, first, |data|, k) then data[k] else before[k]
  }

  predicate AllStored(mapped: seq<bool>, first: nat, n: nat)
    requires first <= n <= |mapped|
  {
    forall k | 0 <= k < n :: IsStored(mapped, first, n, k)
  }

  predicate AllMapped(mapped: seq<bool>, n: nat)
    requires n <= |mapped|
  {
    forall k | 0 <= k < n :: mapped[k]
  }

  /** Every message of a flush is stored if and only if the buffer is mapped as far as there are messages. */
  lemma AllStoredIff(mapped: seq<bool>, first: nat, n: nat)
    requires first <= n <= |mapped|
    ensures AllStored(mapped, first, n) <==> AllMapped(mapped, n)
  {
    var front, back := MappedRun(mapped, 0, first), MappedRun(mapped, first, n - first);
    if front < first {
      assert !mapped[front] && !IsStored(mapped, first, n, front);
    } else if back < n - first {
      assert !mapped[first + back] && !IsStored(mapped, first, n, first + back);
    }
  }

  // ----- The bounded queue -----

  datatype Operation = Write(text: string) | Flush(max: nat)

  /** The pending messages, oldest first, and how many were ever written. */
  datatype LogState = LogState(pending: seq<Message>, count: nat)

  function FlushCount(s: LogState, max: nat): nat {
    Min(|s.pending|, max)
  }

  function Next(s: LogState, op: Operation): LogState {
    match op
    case Write(text) => LogState(Newest(s.pending + [Message(s.count, Stored(text))], MESSAGE_COUNT), s.count + 1)
    case Flush(max) => s.(pending := s.pending[FlushCount(s, max)..])
  }

  function Run(ops: seq<Operation>): LogState {
    if ops == [] then LogState([], 0) else Next(Run(ops[..|ops| - 1]), ops[|ops| - 1])
  }

  /** Every message written, numbered from zero. */
  function Written(ops: seq<Operation>): seq<Message> {
    if ops == [] then
      []
    else
      var before, last := Written(ops[..|ops| - 1]), ops[|ops| - 1];
      if last.Write? then before + [Message(|before|, Stored(last.text))] else before
  }

  /** Every message returned by a flush, in order. */
  function Flushed(ops: seq<Operation>): seq<Message> {
    if ops == [] then
      []
    else
      var before, last, s := Flushed(ops[..|ops| - 1]), ops[|ops| - 1], Run(ops[..|ops| - 1]);
      if last.Flush? then before + s.pending[..FlushCount(s, last.max)] else before
  }

  /** How many messages were overwritten before they were flushed. */
  function Overwritten(ops: seq<Operation>): nat {
    if ops == [] then
      0
    else
      Overwritten(ops[..|ops| - 1]) +
      if ops[|ops| - 1].Write? && |Run(ops[..|ops| - 1]).pending| == MESSAGE_COUNT then 1 else 0
  }

  predicate Consecutive(messages: seq<Message>, first: nat) {
    forall k | 0 <= k < |messages| :: messages[k].number == first + k
  }

  lemma {:induction false} WrittenNumbers(ops: seq<Operation>)
    ensures Consecutive(Written(ops), 0)
  {
    if ops != [] {
      WrittenNumbers(ops[..|ops| - 1]);
    }
  }

  /**
   After any writes and flushes the pending messages are the newest ones in order, with consecutive numbers
   up to the last one written, and at most 512.
   */
  lemma {:induction false} PendingAreNewest(ops: seq<Operation>)
    ensures var s, all := Run(ops), Written(ops);
            && s.count == |all| && |s.pending| <= Min(MESSAGE_COUNT, |all|)
            && s.pending == all[|all| - |s.pending|..]
            && Consecutive(s.pending, |all| - |s.pending|)
  {
    WrittenNumbers(ops);
    if ops != [] {
      var before := ops[..|ops| - 1];
      PendingAreNewest(before);
      NewestAfter(Written(before), Run(before), ops[|ops| - 1]);
    }
    ConsecutiveTail(Written(ops), |Written(ops)| - |Run(ops).pending|);
  }

  lemma ConsecutiveTail(messages: seq<Message>, k: nat)
    requires k <= |messages| && Consecutive(messages, 0)
    ensures Consecutive(messages[k..], k)
  {
  }

  lemma NewestAfter(all: seq<Message>, s: LogState, op: Operation)
    requires s.count == |all| && |s.pending| <= Min(MESSAGE_COUNT, |all|) && s.pending == all[|all| - |s.pending|..]
    ensures var t, now := Next(s, op), if op.Write? then all + [Message(s.count, Stored(op.text))] else all;
            |t.pending| <= Min(MESSAGE_COUNT, |now|) && t.pending == now[|now| - |t.pending|..]
  {
    var first := |all| - |s.pending|;
    if op.Write? {
      var m := Message(s.count, Stored(op.text));
      assert s.pending + [m] == (all + [m])[first..];
    } else {
      assert s.pending[FlushCount(s, op.max)..] == all[first + FlushCount(s, op.max)..];
    }
  }

  predicate Rising(messages: seq<Message>) {
    forall i, j | 0 <= i < j < |messages| :: messages[i].number < messages[j].number
  }

  /**
   Every message of `all` was returned once, as written and in order, or it is one of the `lost` ones, or it
   is pending; if none is lost, what was returned and what is pending is all there is.
   */
  predicate Accounted(all: seq<Message>, out: seq<Message>, pending: seq<Message>, lost: nat) {
    && |all| == |out| + lost + |pending|
    && Rising(out + pending)
    && (forall k | 0 <= k < |out| :: out[k].number < |all| && out[k] == all[out[k].number])
    && (lost == 0 ==> all == out + pending)
  }

  /** After any writes and flushes every message is accounted for; only overwritten ones are lost. */
  lemma {:induction false} MessagesAccountedFor(ops: seq<Operation>)
    ensures Accounted(Written(ops), Flushed(ops), Run(ops).pending, Overwritten(ops))
  {
    if ops != [] {
      var before, op := ops[..|ops| - 1], ops[|ops| - 1];
      MessagesAccountedFor(before);
      PendingAreNewest(before);
      WrittenNumbers(before);
      if op.Write? {
        AccountedWrite(Written(before), Flushed(before), Run(before), Overwritten(before), op.text);
      } else {
        AccountedFlush(Written(before), Flushed(before), Run(before), Overwritten(before), op.max);
      }
    }
  }

  lemma AccountedWrite(all: seq<Message>, out: seq<Message>, s: LogState, lost: nat, text: string)
    requires Accounted(all, out, s.pending, lost) && s.count == |all| && |s.pending| <= MESSAGE_COUNT
    requires Consecutive(s.pending, |all| - |s.pending|)
    ensures Accounted(all + [Message(|all|, Stored(text))], out, Next(s, Write(text)).pending,
                      lost + if |s.pending| == MESSAGE_COUNT then 1 else 0)
  {
    RisingWrite(out, s, text);
  }

  lemma AccountedFlush(all: seq<Message>, out: seq<Message>, s: LogState, lost: nat, max: nat)
    requires Accounted(all, out, s.pending, lost)
    requires s.pending == all[|all| - |s.pending|..] && Consecutive(s.pending, |all| - |s.pending|)
    ensures Accounted(all, out + s.pending[..FlushCount(s, max)], s.pending[FlushCount(s, max)..], lost)
  {
    var n := FlushCount(s, max);
    assert out + s.pending[..n] + s.pending[n..] == out + s.pending;
  }

  lemma RisingWrite(out: seq<Message>, s: LogState, text: string)
    requires Rising(out + s.pending) && forall k | 0 <= k < |out + s.pending| :: (out + s.pending)[k].number < s.count
    ensures Rising(out + Next(s, Write(text)).pending)
    ensures |s.pending| < MESSAGE_COUNT ==>
              out + Next(s, Write(text)).pending == (out + s.pending) + [Message(s.count, Stored(text))]
  {
    var pending, before := Next(s, Write(text)).pending, out + s.pending;
    var all := before + [Message(s.count, Stored(text))];
    var dropped := |s.pending| + 1 - |pending|;
    assert forall k | 0 <= k < |before| :: all[k] == before[k];
    assert Rising(all);
    assert forall k | 0 <= k < |out| :: (out + pending)[k] == all[k];
    assert forall k | |out| <= k < |out + pending| :: (out + pending)[k] == all[k + dropped];
  }

  // ----- One operation -----

  /** A text of at most 255 characters is stored as it is, of a longer one the first 255. */
  lemma StoredText(text: string)
    ensures |text| <= 255 ==> Stored(text) == text
    ensures |text| > 255 ==> |Stored(text)| == 255 && Stored(text) <= text
  {
  }

  lemma RunNext(ops: seq<Operation>, op: Operation)
    ensures Run(ops + [op]) == Next(Run(ops), op)
    ensures Written(ops + [op]) ==
            if op.Write? then Written(ops) + [Message(|Written(ops)|, Stored(op.text))] else Written(ops)
    ensures op.Write? ==> Flushed(ops + [op]) == Flushed(ops)
    ensures op.Flush? ==> Flushed(ops + [op]) == Flushed(ops) + Run(ops).pending[..FlushCount(Run(ops), op.max)]
  {
    assert (ops + [op])[..|ops|] == ops;
  }

  /** A write adds its message, with the next number, behind the pending ones; the 513th displaces the oldest. */
  lemma WriteAdds(ops: seq<Operation>, text: string)
    ensures var before, after := Run(ops).pending, Run(ops + [Write(text)]).pending;
            var kept := if |before| == 512 then before[1..] else before;
            && |after| == |kept| + 1 && after[..|kept|] == kept
            && after[|kept|].number == |Written(ops)|
            && (if |text| <= 255 then after[|kept|].text == text
                else |after[|kept|].text| == 255 && after[|kept|].text <= text)
  {
    RunNext(ops, Write(text));
    PendingAreNewest(ops);
    StoredText(text);
  }

  /** A flush returns everything pending if it may, and exactly as many messages as it may otherwise. */
  lemma FlushReturns(ops: seq<Operation>, max: nat)
    ensures var before, after := Run(ops).pending, Run(ops + [Flush(max)]).pending;
            && Flushed(ops + [Flush(max)]) + after == Flushed(ops) + before
            && |after| == if max >= |before| then 0 else |before| - max
  {
    RunNext(ops, Flush(max));
    var before := Run(ops).pending;
    var n := FlushCount(Run(ops), max);
    assert before[..n] + before[n..] == before;
    assert Flushed(ops) + before[..n] + before[n..] == Flushed(ops) + before;
  }

  class LogRing {
    const messages: array<Message>
    var cursor: nat
    var messageCount: nat
    var pendingCount: nat

    predicate Valid()
      reads this
    {
      messages.Length == MESSAGE_COUNT && cursor < MESSAGE_COUNT && pendingCount <= MESSAGE_COUNT
    }

    function Pending(): (q: seq<Message>)
      reads this, messages
      requires Valid()
      ensures |q| == pendingCount
    {
      PendingOf(messages[..], cursor, pendingCount)
    }

    constructor ()
      ensures Valid() && fresh(messages) && Pending() == [] && messageCount == 0
    {
      messages := new Message[MESSAGE_COUNT](i => Message(0, ""));
      cursor, messageCount, pendingCount := 0, 0, 0;
    }

    function State(): LogState
      reads this, messages
      requires Valid()
    {
      LogState(Pending(), messageCount)
    }

    method WriteMessage(text: string)
      requires Valid()
      modifies this, messages
      ensures Valid() && State() == Next(old(State()), Write(text))
    {
      var m := Message(messageCount, text[..Min(|text|, TEXT_LENGTH - 1)]);
      PendingAfterWrite(messages[..], cursor, pendingCount, m);
      messages[cursor] := m;
      messageCount := messageCount + 1;
      cursor := (cursor + 1) % MESSAGE_COUNT;
      pendingCount := Min(pendingCount + 1, MESSAGE_COUNT);
    }

    /**
     Copies the oldest messages to the start of `out`, in two pieces. Each piece is stored up to its first
     entry that is not mapped; the messages leave the ring whether they were stored or not.
     */
    method FlushMessages(out: array<Message>, mapped: seq<bool>, max: nat) returns (count: nat)
      requires Valid() && max <= out.Length == |mapped| && out != messages
      modifies this`pendingCount, out
      ensures Valid() && State() == Next(old(State()), Flush(max)) && count == FlushCount(old(State()), max)
      ensures var first, data := FirstPiece(cursor, old(pendingCount), count), old(Pending())[..count];
              Received(old(out[..]), out[..], mapped, first, data)
      ensures AllStored(mapped, FirstPiece(cursor, old(pendingCount), count), count) <==> AllMapped(mapped, count)
    {
      var available := pendingCount;
      count := Min(available, max);
      if count == 0 {
        return;
      }
      var start := (cursor + MESSAGE_COUNT - available) % MESSAGE_COUNT;
      var first := Min(count, MESSAGE_COUNT - start);
      var second := count - first;
      PieceAt(messages[..], cursor, available, count);
      PendingAfterFlush(messages[..], cursor, available, count);
      StorePieces(out, mapped, start, first, second, Pending()[..count]);
      AllStoredIff(mapped, first, count);
      pendingCount := pendingCount - count;
    }

    /** Stores the piece from `start` on, and the piece from the start of the ring behind it. */
    method StorePieces(out: array<Message>, mapped: seq<bool>, start: nat, first: nat, second: nat,
                       ghost data: seq<Message>)
      requires Valid() && InPieces(messages[..], start, first, data) && |data| == first + second
      requires first + second <= out.Length == |mapped| && out != messages
      modifies out
      ensures Received(old(out[..]), out[..], mapped, first, data)
    {
      StorePiece(out, mapped, 0, start, first);
      StorePiece(out, mapped, first, 0, second);
    }

    /** Stores messages from `start` on at position `at`, up to the first position that is not mapped. */
    method StorePiece(out: array<Message>, mapped: seq<bool>, at: nat, start: nat, n: nat)
      requires Valid() && start + n <= MESSAGE_COUNT && at + n <= out.Length == |mapped| && out != messages
      modifies out
      ensures forall k | 0 <= k < out.Length ::
                out[k] == if at <= k < at + MappedRun(mapped, at, n) then messages[start + (k - at)] else old(out[k])
    {
      var stored := MappedRun(mapped, at, n);
      forall k | at <= k < at + stored {
        out[k] := messages[start + (k - at)];
      }
    }
  }
}
