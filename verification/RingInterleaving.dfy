/**
 The trace ring under all interleavings of single memory accesses by its one producer and one consumer.
 Entries are written and copied one field at a time; `active` may be switched off and on in between.
 */
module RingInterleaving {
  import opened TraceRings

  const FIELDS: nat := 10

  /** The field values of an entry, in the order the code stores them. */
  type Fields = e: seq<nat> | |e| == FIELDS witness seq(FIELDS, i => 0)

  /** Where the producer is: before each shared access of `emit`. */
  datatype Producer =
    | Idle
    | ReadHead(entry: Fields)
    | CheckFull(entry: Fields, head: nat)
    | Fill(entry: Fields, head: nat, field: nat)
    | Publish(entry: Fields, head: nat)

  /** Where the consumer is: before each shared access of `drain`. */
  datatype Consumer =
    | Resting
    | CheckEmpty(tail: nat, left: nat)
    | Copy(tail: nat, left: nat, copied: seq<nat>)
    | Release(tail: nat)

  /**
   `head`, `tail`, `active` and `slots` are shared memory. The histories `accepted` (published entries)
   and `delivered` (entries copied out) record what happened; no step reads them.
   */
  datatype State = State(
    head: nat, tail: nat, active: bool, slots: seq<Fields>,
    producer: Producer, consumer: Consumer,
    accepted: seq<Fields>, delivered: seq<Fields>, released: nat)

  datatype Step =
    | Emit(entry: Fields)
    | ProducerStep
    | Drain(max: nat)
    | ConsumerStep
    | SetActive(on: bool)

  predicate Sized(s: State) {
    && |s.slots| == ENTRY_COUNT && s.head < ENTRY_COUNT && s.tail < ENTRY_COUNT
    && (s.producer.Fill? ==> s.producer.head < ENTRY_COUNT && s.producer.field < FIELDS)
    && (s.producer.Publish? ==> s.producer.head < ENTRY_COUNT)
    && (s.consumer.CheckEmpty? ==> s.consumer.tail < ENTRY_COUNT)
    && (s.consumer.Copy? ==> s.consumer.tail < ENTRY_COUNT && s.consumer.left > 0 && |s.consumer.copied| < FIELDS)
    && (s.consumer.Release? ==> s.consumer.tail < ENTRY_COUNT)
  }

  function Init(slots: seq<Fields>): State {
    State(0, 0, false, slots, Idle, Resting, [], [], 0)
  }

  /** One shared access of the producer; a drop returns to `Idle` with memory unchanged. */
  function Produce(s: State): (t: State)
    requires Sized(s)
    ensures Sized(t)
  {
    match s.producer
    case Idle => s
    case ReadHead(e) => s.(producer := CheckFull(e, s.head))
    case CheckFull(e, h) =>
      if h >= ENTRY_COUNT || After(h, 1) == s.tail then s.(producer := Idle)
      else s.(producer := Fill(e, h, 0))
    case Fill(e, h, field) =>
      s.(slots := s.slots[h := s.slots[h][field := e[field]]],
         producer := if field + 1 == FIELDS then Publish(e, h) else Fill(e, h, field + 1))
    case Publish(e, h) =>
      s.(head := After(h, 1), producer := Idle, accepted := s.accepted + [e])
  }

  /** One shared access of the consumer. */
  function Consume(s: State): (t: State)
    requires Sized(s)
    ensures Sized(t)
  {
    match s.consumer
    case Resting => s
    case CheckEmpty(t, left) =>
      if left == 0 || t == s.head then s.(consumer := Release(t))
      else s.(consumer := Copy(t, left, []))
    case Copy(t, left, copied) =>
      var more := copied + [s.slots[t][|copied|]];
      if |more| == FIELDS then
        s.(consumer := CheckEmpty(After(t, 1), left - 1), delivered := s.delivered + [more])
      else
        s.(consumer := Copy(t, left, more))
    case Release(t) => s.(tail := t, consumer := Resting, released := |s.delivered|)
  }

  /** `emit` and `drain` start by reading `active` and `tail`; a call in progress is not interrupted by another. */
  function Next(s: State, step: Step): (t: State)
    requires Sized(s)
    ensures Sized(t)
  {
    match step
    case Emit(e) => if s.producer.Idle? && s.active then s.(producer := ReadHead(e)) else s
    case ProducerStep => Produce(s)
    case Drain(max) => if s.consumer.Resting? then s.(consumer := CheckEmpty(s.tail, max)) else s
    case ConsumerStep => Consume(s)
    case SetActive(on) => s.(active := on)
  }

  // ----- The invariant -----

  /** The slots of the published and unreleased entries hold those entries. */
  predicate Stored(slots: seq<Fields>, accepted: seq<Fields>, from: nat) {
    |slots| == ENTRY_COUNT && forall i | from <= i < |accepted| :: slots[i % ENTRY_COUNT] == accepted[i]
  }

  predicate ProducerOk(s: State)
    requires Sized(s)
  {
    var n := |s.accepted|;
    match s.producer
    case Idle => true
    case ReadHead(_) => true
    case CheckFull(_, h) => h == s.head
    case Fill(e, h, field) =>
      h == s.head && n + 1 < s.released + ENTRY_COUNT && forall k | 0 <= k < field :: s.slots[h][k] == e[k]
    case Publish(e, h) =>
      h == s.head && n + 1 < s.released + ENTRY_COUNT && s.slots[h] == e
  }

  predicate ConsumerOk(s: State)
    requires Sized(s)
  {
    var t := |s.delivered|;
    match s.consumer
    case Resting => s.released == t
    case CheckEmpty(tail, _) => tail == t % ENTRY_COUNT
    case Copy(tail, _, copied) => t < |s.accepted| && tail == t % ENTRY_COUNT && copied == s.accepted[t][..|copied|]
    case Release(tail) => tail == t % ENTRY_COUNT
  }

  predicate Inv(s: State) {
    && Sized(s)
    && s.head == |s.accepted| % ENTRY_COUNT && s.tail == s.released % ENTRY_COUNT
    && s.released <= |s.delivered| <= |s.accepted| < s.released + ENTRY_COUNT
    && s.delivered == s.accepted[..|s.delivered|]
    && Stored(s.slots, s.accepted, s.released)
    && ProducerOk(s) && ConsumerOk(s)
  }

  lemma InitInv(slots: seq<Fields>)
    requires |slots| == ENTRY_COUNT
    ensures Inv(Init(slots))
  {
  }

  /** Logical positions less than a ring apart use different slots. */
  lemma DistinctSlots(i: nat, j: nat)
    requires i < j < i + ENTRY_COUNT
    ensures i % ENTRY_COUNT != j % ENTRY_COUNT
  {
  }

  lemma NextSlot(i: nat)
    ensures After(i % ENTRY_COUNT, 1) == (i + 1) % ENTRY_COUNT
  {
  }

  lemma ProduceKeepsInv(s: State)
    requires Inv(s)
    ensures Inv(Produce(s))
  {
    match s.producer {
      case CheckFull(_, _) => CheckKeepsInv(s);
      case Fill(_, _, _) => FillKeepsInv(s);
      case Publish(_, _) => PublishKeepsInv(s);
      case _ =>
    }
  }

  lemma CheckKeepsInv(s: State)
    requires Inv(s) && s.producer.CheckFull?
    ensures Inv(Produce(s))
  {
    NextSlot(|s.accepted|);
    if |s.accepted| + 1 == s.released + ENTRY_COUNT {
      assert (|s.accepted| + 1) % ENTRY_COUNT == s.released % ENTRY_COUNT;
    }
  }

  lemma PublishKeepsInv(s: State)
    requires Inv(s) && s.producer.Publish?
    ensures Inv(Produce(s))
  {
    NextSlot(|s.accepted|);
  }

  lemma FillKeepsInv(s: State)
    requires Inv(s) && s.producer.Fill?
    ensures Inv(Produce(s))
  {
    var e, h, field := s.producer.entry, s.producer.head, s.producer.field;
    var filled := s.slots[h][field := e[field]];
    FillKeepsStored(s, h, filled);
    var t := Produce(s);
    assert t.slots == s.slots[h := filled] && t.slots[h] == filled;
    if field + 1 == FIELDS {
      assert filled == e;
    }
  }

  lemma FillKeepsStored(s: State, h: nat, e: Fields)
    requires Inv(s) && h == s.head
    ensures Stored(s.slots[h := e], s.accepted, s.released)
  {
    forall i | s.released <= i < |s.accepted|
      ensures s.slots[h := e][i % ENTRY_COUNT] == s.accepted[i]
    {
      DistinctSlots(i, |s.accepted|);
    }
  }

  lemma ConsumeKeepsInv(s: State)
    requires Inv(s)
    ensures Inv(Consume(s))
  {
    var t := |s.delivered|;
    NextSlot(t);
    match s.consumer {
      case CheckEmpty(tail, left) =>
        if t == |s.accepted| {
          assert tail == s.head;
        }
      case Copy(tail, left, copied) =>
        assert s.slots[t % ENTRY_COUNT] == s.accepted[t];
        var more := copied + [s.slots[tail][|copied|]];
        assert more == s.accepted[t][..|more|];
        if |more| == FIELDS {
          assert more == s.accepted[t];
        }
      case _ =>
    }
  }

  lemma NextKeepsInv(s: State, step: Step)
    requires Inv(s)
    ensures Inv(Next(s, step))
  {
    match step {
      case ProducerStep => ProduceKeepsInv(s);
      case ConsumerStep => ConsumeKeepsInv(s);
      case _ =>
    }
  }

  // ----- Whole runs -----

  function Run(s: State, steps: seq<Step>): (t: State)
    requires Sized(s)
    ensures Sized(t)
  {
    if steps == [] then s else Next(Run(s, steps[..|steps| - 1]), steps[|steps| - 1])
  }

  lemma {:induction false} RunKeepsInv(s: State, steps: seq<Step>)
    requires Inv(s)
    ensures Inv(Run(s, steps))
  {
    if steps != [] {
      RunKeepsInv(s, steps[..|steps| - 1]);
      NextKeepsInv(Run(s, steps[..|steps| - 1]), steps[|steps| - 1]);
    }
  }

  /** What is published and not yet copied, read from memory. */
  function Pending(s: State): seq<Fields>
    requires Sized(s) && |s.delivered| <= |s.accepted|
  {
    seq(|s.accepted| - |s.delivered|, k requires 0 <= k => s.slots[(|s.delivered| + k) % ENTRY_COUNT])
  }

  /** What the invariant says about memory: nothing accepted is lost, reordered or overwritten. */
  lemma NothingLost(s: State)
    requires Inv(s)
    ensures s.accepted == s.delivered + Pending(s)
    ensures s.producer.Fill? && s.consumer.Copy? ==> s.producer.head != s.consumer.tail
  {
    var t := |s.delivered|;
    forall k | 0 <= k < |s.accepted| - t
      ensures Pending(s)[k] == s.accepted[t + k]
    {
      assert s.slots[(t + k) % ENTRY_COUNT] == s.accepted[t + k];
    }
    if s.producer.Fill? && s.consumer.Copy? {
      DistinctSlots(t, |s.accepted|);
    }
  }

  /**
   After any interleaving: the accepted entries are the delivered ones followed by what the ring holds, in
   order; at most 8191 are unreleased; and the slot being filled is not the slot being copied.
   */
  lemma EveryRun(slots: seq<Fields>, steps: seq<Step>)
    requires |slots| == ENTRY_COUNT
    ensures var s := Run(Init(slots), steps);
            && |s.delivered| <= |s.accepted|
            && s.accepted == s.delivered + Pending(s)
            && |s.accepted| - s.released <= 8191
            && (s.producer.Fill? && s.consumer.Copy? ==> s.producer.head != s.consumer.tail)
  {
    InitInv(slots);
    RunKeepsInv(Init(slots), steps);
    NothingLost(Run(Init(slots), steps));
  }

  /** A dropped entry leaves memory and both histories alone; entries are dropped only at a full ring. */
  lemma DropChangesNothing(s: State)
    requires Inv(s) && s.producer.CheckFull? && Produce(s).producer.Idle?
    ensures Produce(s) == s.(producer := Idle)
    ensures |s.accepted| - s.released == ENTRY_COUNT - 1
  {
    NextSlot(|s.accepted|);
    var gap := |s.accepted| + 1 - s.released;
    assert 0 < gap <= ENTRY_COUNT;
    if gap < ENTRY_COUNT {
      DistinctSlots(s.released, |s.accepted| + 1);
    }
  }

  // ----- One call at a time -----

  /** With the consumer at rest what is pending is the queue between the two indices. */
  lemma PendingIsQueue(s: State)
    requires Inv(s) && s.consumer.Resting?
    ensures Pending(s) == QueueOf(s.slots, s.tail, s.head)
    ensures |s.accepted| - s.released == |QueueOf(s.slots, s.tail, s.head)|
  {
    var n := |s.accepted| - s.released;
    assert (s.head - s.tail) % ENTRY_COUNT == n by {
      IndexDistance(s.released, n);
    }
    var pending, queue := Pending(s), QueueOf(s.slots, s.tail, s.head);
    forall k | 0 <= k < n
      ensures pending[k] == queue[k]
    {
      IndexAfter(s.released, k);
    }
  }

  lemma IndexAfter(i: nat, k: nat)
    ensures After(i % ENTRY_COUNT, k) == (i + k) % ENTRY_COUNT
  {
  }

  lemma IndexDistance(i: nat, n: nat)
    requires n < ENTRY_COUNT
    ensures ((i + n) % ENTRY_COUNT - i % ENTRY_COUNT) % ENTRY_COUNT == n
  {
  }

  function StepsLeft(p: Producer): nat {
    match p
    case Idle => 0
    case ReadHead(_) => 2 * FIELDS + 3
    case CheckFull(_, _) => 2 * FIELDS + 2
    case Fill(_, _, field) => if field < FIELDS then 2 * FIELDS - field else FIELDS
    case Publish(_, _) => 1
  }

  /** The rest of a call of `emit` that nothing interleaves with. */
  function FinishEmit(s: State): (t: State)
    requires Sized(s)
    ensures Sized(t)
    decreases StepsLeft(s.producer)
  {
    if s.producer.Idle? then s else FinishEmit(Produce(s))
  }

  /** Whether the entry of the call under way will be dropped. */
  predicate WillDrop(s: State) {
    (s.producer.ReadHead? || s.producer.CheckFull?) && |s.accepted| - s.released == ENTRY_COUNT - 1
  }

  /** The producer publishes the entry of its call or drops it, and changes nothing else. */
  predicate EmitFinished(s: State, t: State) {
    && t.producer.Idle? && t.consumer == s.consumer && t.tail == s.tail && t.active == s.active
    && t.delivered == s.delivered && t.released == s.released
    && t.accepted == if s.producer.Idle? || WillDrop(s) then s.accepted else s.accepted + [s.producer.entry]
  }

  lemma ProduceTowardsEnd(s: State)
    requires Inv(s) && !s.producer.Idle?
    ensures var t := Produce(s);
            && Inv(t) && t.consumer == s.consumer && t.tail == s.tail && t.active == s.active
            && t.delivered == s.delivered && t.released == s.released
            && (s.producer.Publish? ==> t.producer.Idle? && t.accepted == s.accepted + [s.producer.entry])
            && (!s.producer.Publish? ==>
                  t.accepted == s.accepted && (t.producer.Idle? <==> s.producer.CheckFull? && WillDrop(s)))
            && (!t.producer.Idle? ==> t.producer.entry == s.producer.entry && WillDrop(t) == WillDrop(s))
  {
    ProduceKeepsInv(s);
    if s.producer.CheckFull? {
      NextSlot(|s.accepted|);
      if !Produce(s).producer.Idle? {
        assert |s.accepted| + 1 < s.released + ENTRY_COUNT;
      } else {
        DropChangesNothing(s);
      }
    }
  }

  lemma {:induction false} FinishEmitEffect(s: State)
    requires Inv(s)
    ensures Inv(FinishEmit(s)) && EmitFinished(s, FinishEmit(s))
    decreases StepsLeft(s.producer)
  {
    if !s.producer.Idle? {
      ProduceTowardsEnd(s);
      FinishEmitEffect(Produce(s));
    }
  }

  /**
   A whole call of `emit` while the consumer is at rest does to the queue what the ring does in one step:
   it appends the entry if the ring is active and not full, and changes nothing otherwise.
   */
  lemma EmitAlone(s: State, e: Fields)
    requires Inv(s) && s.producer.Idle? && s.consumer.Resting?
    ensures var t, queue := FinishEmit(Next(s, Emit(e))), QueueOf(s.slots, s.tail, s.head);
            QueueOf(t.slots, t.tail, t.head) == if s.active && |queue| < 8191 then queue + [e] else queue
  {
    var started := Next(s, Emit(e));
    NextKeepsInv(s, Emit(e));
    FinishEmitEffect(started);
    var t := FinishEmit(started);
    PendingIsQueue(s);
    PendingIsQueue(t);
    NothingLost(s);
    NothingLost(t);
    assert s.accepted == s.delivered + Pending(s) && t.accepted == t.delivered + Pending(t);
  }

  /** The steps until a drain under way is over. */
  function DrainLeft(c: Consumer): nat {
    match c
    case Resting => 0
    case CheckEmpty(_, left) => left * (FIELDS + 1) + 2
    case Copy(_, left, copied) => if left > 0 && |copied| < FIELDS then left * (FIELDS + 1) + 1 - |copied| else 2
    case Release(_) => 1
  }

  /** The rest of a call of `drain` that nothing interleaves with. */
  function FinishDrain(s: State): (t: State)
    requires Sized(s)
    ensures Sized(t)
    decreases DrainLeft(s.consumer)
  {
    if s.consumer.Resting? then s else FinishDrain(Consume(s))
  }

  /** How many entries will have been delivered when the drain under way is over. */
  function DrainGoal(s: State): nat {
    match s.consumer
    case CheckEmpty(_, left) => |s.delivered| + left
    case Copy(_, left, _) => |s.delivered| + left
    case _ => |s.delivered|
  }

  /** The consumer has delivered the entries up to the goal, as far as there are any, and released them. */
  predicate DrainFinished(s: State, t: State) {
    && t.consumer.Resting? && t.producer == s.producer && t.active == s.active
    && t.accepted == s.accepted && t.slots == s.slots && t.head == s.head
    && |t.delivered| == t.released == if DrainGoal(s) < |s.accepted| then DrainGoal(s) else |s.accepted|
  }

  lemma {:induction false} FinishDrainEffect(s: State)
    requires Inv(s)
    ensures Inv(FinishDrain(s)) && DrainFinished(s, FinishDrain(s))
    decreases DrainLeft(s.consumer)
  {
    if !s.consumer.Resting? {
      ConsumeKeepsInv(s);
      ConsumeTowardsEnd(s);
      FinishDrainEffect(Consume(s));
    }
  }

  lemma ConsumeTowardsEnd(s: State)
    requires Inv(s) && !s.consumer.Resting?
    ensures var t := Consume(s);
            && t.producer == s.producer && t.active == s.active && t.accepted == s.accepted
            && t.slots == s.slots && t.head == s.head
            && (DrainGoal(t) == DrainGoal(s) || (|s.delivered| == |s.accepted| == DrainGoal(t) <= DrainGoal(s)))
            && DrainLeft(t.consumer) < DrainLeft(s.consumer)
  {
    if s.consumer.CheckEmpty? && s.consumer.tail == s.head && |s.delivered| < |s.accepted| {
      DistinctSlots(|s.delivered|, |s.accepted|);
    }
  }

  /**
   A whole call of `drain` that nothing interleaves with does to the queue what the ring does in one step: it
   delivers the oldest entries, as many as there are up to the limit, and takes them off the queue.
   */
  lemma DrainAlone(s: State, max: nat)
    requires Inv(s) && s.consumer.Resting?
    ensures var t, queue := FinishDrain(Next(s, Drain(max))), QueueOf(s.slots, s.tail, s.head);
            var n := if max < |queue| then max else |queue|;
            && t.delivered == s.delivered + queue[..n]
            && QueueOf(t.slots, t.tail, t.head) == queue[n..]
  {
    var started := Next(s, Drain(max));
    NextKeepsInv(s, Drain(max));
    FinishDrainEffect(started);
    var t := FinishDrain(started);
    PendingIsQueue(s);
    PendingIsQueue(t);
    NothingLost(s);
    NothingLost(t);
  }

  // ----- Reset by an enable -----

  /** The histories start again with the ring. */
  function Reset(s: State): State {
    s.(head := 0, tail := 0, active := true, accepted := [], delivered := [], released := 0)
  }

  /** What a reader may rely on: it gets the entries accepted since the reset, in order, and no others. */
  predicate DeliversAccepted(s: State) {
    s.delivered <= s.accepted
  }

  predicate AtStart(c: Consumer) {
    match c
    case Resting => true
    case CheckEmpty(tail, _) => tail == 0
    case Copy(_, _, _) => false
    case Release(tail) => tail == 0
  }

  lemma {:induction false} RunPrepend(s: State, step: Step, steps: seq<Step>)
    requires Sized(s)
    ensures Run(s, [step] + steps) == Run(Next(s, step), steps)
  {
    var all := [step] + steps;
    if steps == [] {
      assert all == [step] && all[..0] == [];
    } else {
      assert all[..|all| - 1] == [step] + steps[..|steps| - 1];
      RunPrepend(s, step, steps[..|steps| - 1]);
    }
  }

  /** An upper bound of the steps until a consumer that is not where the ring starts delivers a stale entry. */
  function StaleIn(c: Consumer): nat {
    match c
    case Copy(_, _, copied) => if |copied| < FIELDS then FIELDS - |copied| else 0
    case CheckEmpty(_, left) => if left > 0 then FIELDS + 1 else FIELDS + 4
    case Resting => FIELDS + 2
    case Release(_) => FIELDS + 3
  }

  /** It does so by itself: nothing needs to be accepted. */
  lemma {:induction false} StaleEntry(s: State) returns (steps: seq<Step>)
    requires Sized(s) && s.head == 0 && s.accepted == [] && s.delivered == []
    requires if s.consumer.Resting? then s.tail != 0 else !AtStart(s.consumer)
    ensures !DeliversAccepted(Run(s, steps))
    decreases StaleIn(s.consumer)
  {
    var step := if s.consumer.Resting? then Drain(1) else ConsumerStep;
    var t := Next(s, step);
    if t.delivered == [] {
      var rest := StaleEntry(t);
      steps := [step] + rest;
      RunPrepend(s, step, rest);
    } else {
      steps := [step];
      assert [step][..0] == [];
    }
  }

  /**
   A reset while another core drains: everything delivered afterwards was accepted afterwards, in order, if
   and only if the consumer is at rest or stands at index zero with no copy under way.
   */
  lemma ResetIsCleanIff(s: State)
    requires Inv(s) && s.producer.Idle?
    ensures Sized(Reset(s))
    ensures (forall steps :: DeliversAccepted(Run(Reset(s), steps))) <==> AtStart(s.consumer)
  {
    if AtStart(s.consumer) {
      forall steps
        ensures DeliversAccepted(Run(Reset(s), steps))
      {
        RunKeepsInv(Reset(s), steps);
      }
    } else {
      var steps := StaleEntry(Reset(s));
      assert !DeliversAccepted(Run(Reset(s), steps));
    }
  }
}
