/**
 * The UART receive and transmit rings (`src/emulator/uart/queues.ts`): 16 slots, one kept free, one
 * producer and one consumer, each side's index stored by that side only.
 *
 * Module `UartRing` is the ring as data and as a class. Module `UartRingSteps` lets the two sides
 * interleave between any two of their loads and stores and shows that the ring is still a FIFO.
 */
module UartRing {
  import opened Bytes

  const CAPACITY: nat := 16

  predicate IsIndex(i: nat) { i < CAPACITY }

  function Next(i: nat): (next: nat)
    ensures next < CAPACITY
  {
    (i + 1) % CAPACITY
  }

  function QueueLength(head: nat, tail: nat): nat
    requires IsIndex(head) && IsIndex(tail)
  {
    (tail - head + CAPACITY) % CAPACITY
  }

  predicate QueueIsFull(head: nat, tail: nat) { Next(tail) == head }

  /** The queued bytes, oldest first. */
  function Contents(data: seq<Byte>, head: nat, tail: nat): (queue: seq<Byte>)
    requires |data| == CAPACITY && IsIndex(head) && IsIndex(tail)
    ensures |queue| == QueueLength(head, tail) < CAPACITY
  {
    if head <= tail then data[head..tail] else data[head..] + data[..tail]
  }

  /** Full and empty are what they should be about the contents. */
  lemma LengthTests(data: seq<Byte>, head: nat, tail: nat)
    requires |data| == CAPACITY && IsIndex(head) && IsIndex(tail)
    ensures QueueIsFull(head, tail) <==> |Contents(data, head, tail)| == CAPACITY - 1
    ensures head == tail <==> Contents(data, head, tail) == []
  {
  }

  lemma SliceEnds(data: seq<Byte>, from: nat, to: nat)
    requires from < to <= |data|
    ensures data[from..to] == [data[from]] + data[from + 1..to] && data[from..to] == data[from..to - 1] + [data[to - 1]]
  {
  }

  lemma NextWraps(i: nat)
    requires IsIndex(i)
    ensures Next(i) == if i == CAPACITY - 1 then 0 else i + 1
  {
  }

  lemma PushAppends(data: seq<Byte>, head: nat, tail: nat, value: Byte)
    requires |data| == CAPACITY && IsIndex(head) && IsIndex(tail) && !QueueIsFull(head, tail)
    ensures Contents(data[tail := value], head, Next(tail)) == Contents(data, head, tail) + [value]
  {
    hide Next;
    var after := data[tail := value];
    NextWraps(tail);
    if head > tail {
      SliceEnds(after, 0, tail + 1);
      assert after[..tail] == data[..tail] && after[head..] == data[head..];
      assert after[..tail + 1] == data[..tail] + [value];
      assert after[head..] + (data[..tail] + [value]) == (data[head..] + data[..tail]) + [value];
    } else {
      SliceEnds(after, head, tail + 1);
      assert after[head..tail] == data[head..tail] && after[head..CAPACITY] == after[head..];
    }
  }

  /** A write at the tail of a ring that is not full is invisible until the tail moves. */
  lemma WriteAtTailIsInvisible(data: seq<Byte>, head: nat, tail: nat, value: Byte)
    requires |data| == CAPACITY && IsIndex(head) && IsIndex(tail)
    ensures Contents(data[tail := value], head, tail) == Contents(data, head, tail)
  {
  }

  lemma PopRemovesFirst(data: seq<Byte>, head: nat, tail: nat)
    requires |data| == CAPACITY && IsIndex(head) && IsIndex(tail) && head != tail
    ensures Contents(data, head, tail) == [data[head]] + Contents(data, Next(head), tail)
  {
    hide Next;
    NextWraps(head);
    if head < tail {
      SliceEnds(data, head, tail);
    } else {
      SliceEnds(data, head, CAPACITY);
      assert data[head..] == data[head..CAPACITY] && data[head + 1..] == data[head + 1..CAPACITY];
      assert ([data[head]] + data[head + 1..]) + data[..tail] == [data[head]] + (data[head + 1..] + data[..tail]);
      assert data[CAPACITY..] + data[..tail] == data[0..tail];
    }
  }

  /** One ring, with the operations of both directions. */
  class Ring {
    var data: array<Byte>
    var head: nat
    var tail: nat
    /** Nonempty level the transmit ring publishes for the terminal pump. */
    var wakeLevel: nat

    ghost predicate Valid()
      reads this
    {
      data.Length == CAPACITY && IsIndex(head) && IsIndex(tail)
    }

    ghost function Queue(): seq<Byte>
      reads this, data
      requires Valid()
    {
      Contents(data[..], head, tail)
    }

    constructor ()
      ensures Valid() && fresh(data) && Queue() == [] && wakeLevel == 0
    {
      data := new Byte[CAPACITY](_ => 0);
      head, tail, wakeLevel := 0, 0, 0;
    }

    /** `enqueueReceive`: append unless 15 bytes are queued. */
    method Enqueue(value: Byte) returns (accepted: bool)
      requires Valid()
      modifies this`tail, data
      ensures Valid() && accepted == (|old(Queue())| < CAPACITY - 1)
      ensures Queue() == if accepted then old(Queue()) + [value] else old(Queue())
    {
      LengthTests(data[..], head, tail);
      if QueueIsFull(head, tail) {
        return false;
      }
      PushAppends(data[..], head, tail, value);
      ghost var after := data[..][tail := value];
      data[tail] := value;
      assert data[..] == after;
      tail := Next(tail);
      return true;
    }

    /** `pushTransmit`: append, then publish the nonempty level. */
    method PushTransmit(value: Byte) returns (accepted: bool)
      requires Valid()
      modifies this`tail, this`wakeLevel, data
      ensures Valid() && accepted == (|old(Queue())| < CAPACITY - 1)
      ensures Queue() == if accepted then old(Queue()) + [value] else old(Queue())
      ensures wakeLevel == if accepted then 1 else old(wakeLevel)
    {
      accepted := Enqueue(value);
      if accepted {
        wakeLevel := 1;
      }
    }

    /** `popReceive`: the oldest byte, or 0 when empty. */
    method PopReceive() returns (value: Byte)
      requires Valid()
      modifies this`head
      ensures Valid()
      ensures old(Queue()) == [] ==> value == 0 && Queue() == []
      ensures old(Queue()) != [] ==> value == old(Queue())[0] && Queue() == old(Queue())[1..]
    {
      LengthTests(data[..], head, tail);
      if head == tail {
        return 0;
      }
      PopRemovesFirst(data[..], head, tail);
      value := data[head];
      head := Next(head);
    }

    /** `dequeueTransmit`: the oldest byte and whether there was room before and after, or nothing. */
    method DequeueTransmit() returns (found: bool, value: Byte, threBefore: bool, threAfter: bool)
      requires Valid()
      modifies this`head, this`wakeLevel
      ensures Valid() && found == (old(Queue()) != [])
      ensures !found ==> Queue() == [] && wakeLevel == old(wakeLevel)
      ensures found ==> value == old(Queue())[0] && Queue() == old(Queue())[1..]
                        && threBefore == (|old(Queue())| < CAPACITY - 1) && threAfter
                        && wakeLevel == if Queue() == [] then 0 else 1
    {
      LengthTests(data[..], head, tail);
      if head == tail {
        return false, 0, false, false;
      }
      PopRemovesFirst(data[..], head, tail);
      found, threBefore, value := true, !QueueIsFull(head, tail), data[head];
      var nextHead := Next(head);
      head := nextHead;
      LengthTests(data[..], head, tail);
      wakeLevel := if nextHead != tail then 1 else 0;
      threAfter := !QueueIsFull(nextHead, tail);
    }
  }
}

module UartRingSteps {
  import opened Bytes
  import opened UartRing

  /** The producer inside `push`: values it has loaded so far. */
  datatype Producer =
    | Resting
    | SawHead(value: Byte, head: nat, full: bool)  // `full` only records whether the ring was full at the load
    | Room(value: Byte, tail: nat)     // not full: about to write the data slot
    | Wrote(value: Byte, tail: nat)    // about to store the tail

  /** The consumer inside `pop`. */
  datatype Consumer =
    | Waiting
    | LoadedHead(head: nat)
    | Ready(head: nat)                 // not empty: about to read the data slot
    | Read(value: Byte, head: nat)     // about to store the head

  datatype State = State(data: seq<Byte>, head: nat, tail: nat, producer: Producer, consumer: Consumer)

  datatype Step =
    | Offer(value: Byte)  // producer: call push and load the head
    | Produce             // producer: next access
    | Consume             // consumer: next access

  /** What a step does to the abstract FIFO. */
  datatype Action =
    | Silent
    | Accept(value: Byte)
    | Refuse(value: Byte)
    | Deliver(value: Byte)
    | FindEmpty

  predicate Shaped(s: State) { |s.data| == CAPACITY && IsIndex(s.head) && IsIndex(s.tail) }

  predicate Enabled(s: State, step: Step) {
    && Shaped(s)
    && match step
       case Offer(_) => s.producer.Resting?
       case Produce => !s.producer.Resting? && (s.producer.Room? ==> s.producer.tail < CAPACITY)
       case Consume => s.consumer.Ready? ==> s.consumer.head < CAPACITY
  }

  function Apply(s: State, step: Step): (State, Action)
    requires Enabled(s, step)
  {
    match step
    case Offer(value) =>
      var full := QueueIsFull(s.head, s.tail);
      (s.(producer := SawHead(value, s.head, full)), if full then Refuse(value) else Silent)
    case Produce =>
      (match s.producer
       case SawHead(value, head, _) =>
         (s.(producer := if QueueIsFull(head, s.tail) then Resting else Room(value, s.tail)), Silent)
       case Room(value, tail) => (s.(data := s.data[tail := value], producer := Wrote(value, tail)), Silent)
       case Wrote(value, tail) => (s.(tail := Next(tail), producer := Resting), Accept(value)))
    case Consume =>
      (match s.consumer
       case Waiting => (s.(consumer := LoadedHead(s.head)), Silent)
       case LoadedHead(head) =>
         if head == s.tail then (s.(consumer := Waiting), FindEmpty) else (s.(consumer := Ready(head)), Silent)
       case Ready(head) => (s.(consumer := Read(s.data[head], head)), Silent)
       case Read(value, head) => (s.(head := Next(head), consumer := Waiting), Deliver(value)))
  }

  predicate Init(s: State) {
    Shaped(s) && s.head == s.tail && s.producer.Resting? && s.consumer.Waiting?
  }

  ghost predicate Run(states: seq<State>, steps: seq<Step>) {
    && |states| == |steps| + 1
    && Init(states[0])
    && forall k :: 0 <= k < |steps| ==> Enabled(states[k], steps[k]) && states[k + 1] == Apply(states[k], steps[k]).0
  }

  function ActionAt(states: seq<State>, steps: seq<Step>, k: nat): Action
    requires k < |steps| && k < |states| && Enabled(states[k], steps[k])
  {
    Apply(states[k], steps[k]).1
  }

  // ---------- The FIFO the ring refines ----------

  /** A 15-byte FIFO: refuses only when full, reports empty only when empty. */
  predicate FifoStep(before: seq<Byte>, action: Action, after: seq<Byte>) {
    match action
    case Silent => after == before
    case Accept(value) => |before| < CAPACITY - 1 && after == before + [value]
    case Refuse(_) => |before| == CAPACITY - 1 && after == before
    case Deliver(value) => before == [value] + after
    case FindEmpty => before == [] && after == []
  }

  /** Each side's loaded index is its own; what it loaded of the other's can only have become less urgent. */
  predicate Inv(s: State) {
    && Shaped(s)
    && (match s.producer
        case Resting => true
        case SawHead(_, head, full) =>
          IsIndex(head) && full == QueueIsFull(head, s.tail) && QueueLength(s.head, s.tail) <= QueueLength(head, s.tail)
        case Room(_, tail) => tail == s.tail && !QueueIsFull(s.head, s.tail)
        case Wrote(value, tail) => tail == s.tail && !QueueIsFull(s.head, s.tail) && s.data[tail] == value)
    && (match s.consumer
        case Waiting => true
        case LoadedHead(head) => head == s.head
        case Ready(head) => head == s.head && s.head != s.tail
        case Read(value, head) => head == s.head && s.head != s.tail && s.data[head] == value)
  }

  function Abstract(s: State): seq<Byte>
    requires Shaped(s)
  {
    Contents(s.data, s.head, s.tail)
  }

  ghost predicate Refines(s: State, step: Step)
    requires Inv(s) && Enabled(s, step)
  {
    var (t, action) := Apply(s, step);
    Inv(t) && FifoStep(Abstract(s), action, Abstract(t))
  }

  lemma ProducerRefinesFifo(s: State, step: Step)
    requires Inv(s) && Enabled(s, step) && !step.Consume?
    ensures Refines(s, step)
  {
    LengthTests(s.data, s.head, s.tail);
    if step.Produce? && s.producer.Room? {
      WriteAtTailIsInvisible(s.data, s.head, s.tail, s.producer.value);
    } else if step.Produce? && s.producer.Wrote? {
      PushAppends(s.data, s.head, s.tail, s.producer.value);
      assert s.data[s.tail := s.producer.value] == s.data;
    }
  }

  lemma HeadAdvances(head: nat, tail: nat)
    requires IsIndex(head) && IsIndex(tail) && head != tail
    ensures QueueLength(Next(head), tail) == QueueLength(head, tail) - 1 && !QueueIsFull(Next(head), tail)
  {
  }

  lemma DeliveryRefinesFifo(s: State)
    requires Inv(s) && Enabled(s, Consume) && s.consumer.Read?
    ensures Refines(s, Consume)
  {
    HeadAdvances(s.head, s.tail);
    PopRemovesFirst(s.data, s.head, s.tail);
  }

  lemma ConsumerRefinesFifo(s: State)
    requires Inv(s) && Enabled(s, Consume) && !s.consumer.Read?
    ensures Refines(s, Consume)
  {
  }

  /** Every access of either side is one FIFO step or invisible. */
  lemma StepRefinesFifo(s: State, step: Step)
    requires Inv(s) && Enabled(s, step)
    ensures Refines(s, step)
  {
    if step.Consume? && s.consumer.Read? {
      DeliveryRefinesFifo(s);
    } else if step.Consume? {
      ConsumerRefinesFifo(s);
    } else {
      ProducerRefinesFifo(s, step);
    }
  }

  lemma {:induction false} RunKeepsInv(states: seq<State>, steps: seq<Step>, n: nat)
    requires Run(states, steps) && n < |states|
    ensures Inv(states[n])
  {
    if n > 0 {
      RunKeepsInv(states, steps, n - 1);
      StepRefinesFifo(states[n - 1], steps[n - 1]);
    }
  }

  function AcceptedBy(action: Action): seq<Byte> { if action.Accept? then [action.value] else [] }

  function DeliveredBy(action: Action): seq<Byte> { if action.Deliver? then [action.value] else [] }

  /** The bytes of the pushes that returned true among the first `n` steps. */
  function Accepted(states: seq<State>, steps: seq<Step>, n: nat): seq<Byte>
    requires n <= |steps| <= |states| && forall k :: 0 <= k < n ==> Enabled(states[k], steps[k])
  {
    if n == 0 then []
    else Accepted(states, steps, n - 1) + AcceptedBy(ActionAt(states, steps, n - 1))
  }

  /** The bytes offered in the first `n` steps to a ring that held fewer than 15, as the callers named them. */
  function Welcome(states: seq<State>, steps: seq<Step>, n: nat): seq<Byte>
    requires n <= |steps| <= |states| && forall k :: 0 <= k < n ==> Shaped(states[k])
  {
    if n == 0 then []
    else
      Welcome(states, steps, n - 1) +
      if steps[n - 1].Offer? && |Abstract(states[n - 1])| < 15 then [steps[n - 1].value] else []
  }

  /** The byte of a push that has room but has not stored the tail yet. */
  function InFlight(p: Producer): seq<Byte> {
    match p
    case Resting => []
    case SawHead(value, _, full) => if full then [] else [value]
    case Room(value, _) => [value]
    case Wrote(value, _) => [value]
  }

  /** The bytes of the pops that returned one. */
  function Delivered(states: seq<State>, steps: seq<Step>, n: nat): seq<Byte>
    requires n <= |steps| <= |states| && forall k :: 0 <= k < n ==> Enabled(states[k], steps[k])
  {
    if n == 0 then []
    else Delivered(states, steps, n - 1) + DeliveredBy(ActionAt(states, steps, n - 1))
  }

  lemma FifoStepConserves(
      before: seq<Byte>, action: Action, after: seq<Byte>, accepted: seq<Byte>, delivered: seq<Byte>)
    requires FifoStep(before, action, after) && accepted == delivered + before
    ensures accepted + AcceptedBy(action) == delivered + DeliveredBy(action) + after
  {
    match action
    case Accept(value) => assert delivered + (before + [value]) == (delivered + before) + [value];
    case Deliver(value) => assert delivered + ([value] + after) == (delivered + [value]) + after;
    case _ =>
  }

  lemma OfferIsKept(s: State, step: Step)
    requires Inv(s) && Enabled(s, step)
    ensures var (t, action) := Apply(s, step);
            InFlight(s.producer) + (if step.Offer? && |Abstract(s)| < 15 then [step.value] else [])
            == AcceptedBy(action) + InFlight(t.producer)
  {
    LengthTests(s.data, s.head, s.tail);
  }

  /**
   * Every interleaving: the bytes offered to a ring with room are those accepted, in order, and at most one
   * still on its way.
   */
  lemma {:induction false} OfferedIsAccepted(states: seq<State>, steps: seq<Step>, n: nat)
    requires Run(states, steps) && n <= |steps|
    ensures |InFlight(states[n].producer)| <= 1
    ensures Welcome(states, steps, n) == Accepted(states, steps, n) + InFlight(states[n].producer)
  {
    if n > 0 {
      OfferedIsAccepted(states, steps, n - 1);
      RunKeepsInv(states, steps, n - 1);
      OfferIsKept(states[n - 1], steps[n - 1]);
      var accepted, before := Accepted(states, steps, n - 1), InFlight(states[n - 1].producer);
      var added, after := AcceptedBy(ActionAt(states, steps, n - 1)), InFlight(states[n].producer);
      assert (accepted + added) + after == accepted + (added + after);
    }
  }

  lemma {:induction false} AcceptedIsConserved(states: seq<State>, steps: seq<Step>, n: nat)
    requires Run(states, steps) && n <= |steps|
    ensures Inv(states[n])
    ensures Accepted(states, steps, n) == Delivered(states, steps, n) + Abstract(states[n])
  {
    RunKeepsInv(states, steps, n);
    if n > 0 {
      AcceptedIsConserved(states, steps, n - 1);
      StepRefinesFifo(states[n - 1], steps[n - 1]);
      FifoStepConserves(Abstract(states[n - 1]), ActionAt(states, steps, n - 1), Abstract(states[n]),
                        Accepted(states, steps, n - 1), Delivered(states, steps, n - 1));
    }
  }

  /**
   * Every interleaving: the bytes offered to a ring with room are the delivered bytes, the ring's contents
   * and at most one byte on its way, in order, none lost, repeated, changed or overwritten; and at most 15
   * are in the ring.
   */
  lemma EveryRunIsFifo(states: seq<State>, steps: seq<Step>, n: nat)
    requires Run(states, steps) && n <= |steps|
    ensures Inv(states[n]) && |Abstract(states[n])| <= 15 && |InFlight(states[n].producer)| <= 1
    ensures Accepted(states, steps, n) == Delivered(states, steps, n) + Abstract(states[n])
    ensures Welcome(states, steps, n)
            == Delivered(states, steps, n) + Abstract(states[n]) + InFlight(states[n].producer)
  {
    OfferedIsAccepted(states, steps, n);
    AcceptedIsConserved(states, steps, n);
  }

  /** A push gives up only if the ring held 15 bytes when it loaded the head, and a pop only on an empty ring. */
  lemma RefusalsAreJustified(states: seq<State>, steps: seq<Step>, n: nat)
    requires Run(states, steps) && n < |steps|
    ensures Inv(states[n])
    ensures ActionAt(states, steps, n).Refuse? ==> |Abstract(states[n])| == CAPACITY - 1
    ensures ActionAt(states, steps, n).FindEmpty? ==> Abstract(states[n]) == []
  {
    RunKeepsInv(states, steps, n);
    StepRefinesFifo(states[n], steps[n]);
  }

  /** A push returns without writing exactly when its load of the head was recorded as a refusal. */
  lemma RefusedPushesStop(states: seq<State>, steps: seq<Step>, n: nat)
    requires Run(states, steps) && n < |steps| && steps[n].Produce? && states[n].producer.SawHead?
    ensures states[n + 1].producer.Resting? <==> states[n].producer.full
  {
    RunKeepsInv(states, steps, n);
  }
}
