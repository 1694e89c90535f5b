/**
 * The input event queue: a 16-slot array filled at `queuePos` by
 * `IN_NewEvent` and shifted down by one on each `IN_ConsumeEvent`. Event 0
 * means "no event". Both updates run with MSR.EE saved and cleared.
 */
module Input {
  import opened Types
  import Irq

  const MAX_INPUT_EVENT: nat := 16

  const INPUT_EV_UP: u32 := 1
  const INPUT_EV_DOWN: u32 := 2
  const INPUT_EV_LEFT: u32 := 4
  const INPUT_EV_RIGHT: u32 := 8
  const INPUT_EV_SELECT: u32 := 16

  const EMPTY_SLOTS: seq<u32> := [0, 0, 0, 0, 0, 0, 0, 0, 0, 0, 0, 0, 0, 0, 0, 0]

  /** The static `queue` array and `queuePos`, a C `int`. */
  datatype Queue = Queue(slots: seq<u32>, pos: int)

  predicate WellFormed(q: Queue) { |q.slots| == MAX_INPUT_EVENT }

  /** `queuePos` is within the array and every slot from it upwards is empty. */
  predicate Bounded(q: Queue)
  {
    WellFormed(q) && 0 <= q.pos <= MAX_INPUT_EVENT
    && forall k :: q.pos <= k < MAX_INPUT_EVENT ==> q.slots[k] == 0
  }

  /** Bounded, and every queued event is a real (non-zero) event. */
  predicate Valid(q: Queue)
  {
    Bounded(q) && forall k :: 0 <= k < q.pos ==> q.slots[k] != 0
  }

  /** The queued events, oldest first. */
  function Contents(q: Queue): seq<u32>
    requires Bounded(q)
  {
    q.slots[..q.pos]
  }

  /** `IN_Init`: clears the slots; `queuePos` keeps its value. */
  function Cleared(q: Queue): Queue { Queue(EMPTY_SLOTS, q.pos) }

  datatype PushResult = Stored(q: Queue) | QueueFull | OutOfBounds

  /** `IN_NewEvent`: the assert fails at 16 queued events; a negative `queuePos` writes outside the array. */
  function Enqueue(q: Queue, ev: u32): (r: PushResult)
    requires WellFormed(q)
    ensures r.Stored? ==> WellFormed(r.q)
  {
    if q.pos >= MAX_INPUT_EVENT then QueueFull
    else if q.pos < 0 then OutOfBounds
    else Stored(Queue(q.slots[q.pos := ev], q.pos + 1))
  }

  /** `IN_ConsumeEvent` as written: the memmove leaves slot 15 as it was. */
  function ConsumeAsWritten(q: Queue): (r: (u32, Queue))
    requires WellFormed(q)
    ensures WellFormed(r.1)
  {
    if q.slots[0] == 0 then (0, q)
    else (q.slots[0], Queue(q.slots[1..] + [q.slots[MAX_INPUT_EVENT - 1]], q.pos - 1))
  }

  /** `IN_ConsumeEvent` with the vacated top slot cleared. */
  function Consume(q: Queue): (r: (u32, Queue))
    requires WellFormed(q)
    ensures WellFormed(r.1)
    ensures Bounded(q) ==> Bounded(r.1)
  {
    if q.slots[0] == 0 then (0, q)
    else (q.slots[0], Queue(q.slots[1..] + [0], q.pos - 1))
  }

  // ----------------------------------------------------------------- lemmas

  lemma InitEmpties(q: Queue)
    ensures WellFormed(Cleared(q)) && forall k :: 0 <= k < MAX_INPUT_EVENT ==> Cleared(q).slots[k] == 0
    ensures q.pos == 0 ==> Valid(Cleared(q)) && Contents(Cleared(q)) == []
  {
  }

  /** A push appends to the contents, and panics once 16 events are queued. */
  lemma EnqueueAppends(q: Queue, ev: u32)
    requires Bounded(q)
    ensures Enqueue(q, ev).QueueFull? <==> q.pos == MAX_INPUT_EVENT
    ensures q.pos < MAX_INPUT_EVENT ==>
      Enqueue(q, ev).Stored? && Bounded(Enqueue(q, ev).q)
      && Contents(Enqueue(q, ev).q) == Contents(q) + [ev]
    ensures q.pos < MAX_INPUT_EVENT && Valid(q) && ev != 0 ==> Valid(Enqueue(q, ev).q)
  {
    if q.pos < MAX_INPUT_EVENT {
      var q' := Enqueue(q, ev).q;
      assert Contents(q') == Contents(q) + [ev];
    }
  }

  /** Consuming from an empty queue returns 0 and changes nothing; otherwise it pops the oldest event. */
  lemma ConsumePops(q: Queue)
    requires Valid(q)
    ensures var (ev, q') := Consume(q);
      && Valid(q')
      && (Contents(q) == [] ==> ev == 0 && q' == q)
      && (Contents(q) != [] ==> ev == Contents(q)[0] && Contents(q') == Contents(q)[1..])
  {
    var (ev, q') := Consume(q);
    if q.pos > 0 {
      assert q'.slots[..q'.pos] == q.slots[1..q.pos];
    }
  }

  /** A vacated slot stays empty: `Bounded` is kept by both operations whatever the events are. */
  lemma OperationsKeepBounded(q: Queue, ev: u32)
    requires Bounded(q)
    ensures Bounded(Consume(q).1)
    ensures Enqueue(q, ev).Stored? ==> Bounded(Enqueue(q, ev).q)
  {
  }

  /** Repeatedly consuming n events. */
  function Drain(q: Queue, n: nat): (r: (seq<u32>, Queue))
    requires WellFormed(q)
    ensures |r.0| == n && WellFormed(r.1)
    ensures Bounded(q) ==> Bounded(r.1)
    decreases n
  {
    if n == 0 then ([], q)
    else
      var (ev, q') := Consume(q);
      var (rest, q'') := Drain(q', n - 1);
      ([ev] + rest, q'')
  }

  /** Pushing a sequence of events in order. */
  function PushAll(q: Queue, evs: seq<u32>): (r: PushResult)
    requires WellFormed(q)
    ensures r.Stored? ==> WellFormed(r.q)
    decreases |evs|
  {
    if evs == [] then Stored(q)
    else match Enqueue(q, evs[0])
      case Stored(q') => PushAll(q', evs[1..])
      case other => other
  }

  lemma {:induction false} PushAllAppends(q: Queue, evs: seq<u32>)
    requires Valid(q) && q.pos + |evs| <= MAX_INPUT_EVENT
    requires forall k :: 0 <= k < |evs| ==> evs[k] != 0
    ensures PushAll(q, evs).Stored? && Valid(PushAll(q, evs).q)
    ensures Contents(PushAll(q, evs).q) == Contents(q) + evs
    decreases |evs|
  {
    if evs != [] {
      EnqueueAppends(q, evs[0]);
      var q' := Enqueue(q, evs[0]).q;
      PushAllAppends(q', evs[1..]);
      assert Contents(q) + [evs[0]] + evs[1..] == Contents(q) + evs;
    }
  }

  lemma {:induction false} DrainReturnsContents(q: Queue)
    requires Valid(q)
    ensures Drain(q, |Contents(q)|).0 == Contents(q)
    ensures Contents(Drain(q, |Contents(q)|).1) == []
    decreases q.pos
  {
    if q.pos > 0 {
      ConsumePops(q);
      var q' := Consume(q).1;
      DrainReturnsContents(q');
    }
  }

  /** FIFO: from an empty queue, up to 16 non-zero events come out in the order they went in. */
  lemma QueueIsFifo(q: Queue, evs: seq<u32>)
    requires Valid(q) && Contents(q) == [] && |evs| <= MAX_INPUT_EVENT
    requires forall k :: 0 <= k < |evs| ==> evs[k] != 0
    ensures PushAll(q, evs).Stored?
    ensures Drain(PushAll(q, evs).q, |evs|).0 == evs
  {
    PushAllAppends(q, evs);
    DrainReturnsContents(PushAll(q, evs).q);
  }

  /** As written, the consume agrees with the corrected one until the queue has been full. */
  lemma AsWrittenAgreesBelowFull(q: Queue)
    requires Bounded(q) && q.pos < MAX_INPUT_EVENT
    ensures ConsumeAsWritten(q) == Consume(q)
  {
  }

  predicate AllNonZero(s: seq<u32>) { forall k :: 0 <= k < |s| ==> s[k] != 0 }

  function DrainAsWritten(q: Queue, n: nat): (r: (seq<u32>, Queue))
    requires WellFormed(q)
    ensures |r.0| == n && WellFormed(r.1)
    decreases n
  {
    if n == 0 then ([], q)
    else
      var (ev, q') := ConsumeAsWritten(q);
      var (rest, q'') := DrainAsWritten(q', n - 1);
      ([ev] + rest, q'')
  }

  function Min(a: int, b: int): int { if a <= b then a else b }

  /** As written, after n consumes slot i holds what slot min(i + n, 15) held, and queuePos fell by n. */
  lemma {:induction false} DrainAsWrittenShape(q: Queue, n: nat)
    requires WellFormed(q) && AllNonZero(q.slots)
    decreases n
    ensures var (evs, q') := DrainAsWritten(q, n);
      && WellFormed(q') && AllNonZero(q'.slots) && |evs| == n && q'.pos == q.pos - n
      && (forall i :: 0 <= i < MAX_INPUT_EVENT ==> q'.slots[i] == q.slots[Min(i + n, MAX_INPUT_EVENT - 1)])
      && (forall k :: 0 <= k < n ==> evs[k] == q.slots[Min(k, MAX_INPUT_EVENT - 1)])
  {
    if n > 0 {
      var (ev, q1) := ConsumeAsWritten(q);
      assert forall i :: 0 <= i < MAX_INPUT_EVENT ==> q1.slots[i] == q.slots[Min(i + 1, MAX_INPUT_EVENT - 1)];
      DrainAsWrittenShape(q1, n - 1);
      var (rest, q2) := DrainAsWritten(q1, n - 1);
      assert forall k :: 1 <= k < n ==> ([ev] + rest)[k] == rest[k - 1];
    }
  }

  /**
   * As written, a queue that has held 16 events never drains: the 16th event
   * is delivered a second time by the 17th consume, queuePos becomes -1, and
   * the next `IN_NewEvent` passes its assert and writes before the array.
   */
  lemma FullQueueRepeatsLastEvent(q: Queue)
    requires WellFormed(q) && AllNonZero(q.slots) && q.pos == MAX_INPUT_EVENT
    ensures var (evs, q') := DrainAsWritten(q, MAX_INPUT_EVENT + 1);
      evs[MAX_INPUT_EVENT] == evs[MAX_INPUT_EVENT - 1] == q.slots[MAX_INPUT_EVENT - 1]
      && q'.pos == -1 && forall ev :: Enqueue(q', ev).OutOfBounds?
  {
    DrainAsWrittenShape(q, MAX_INPUT_EVENT + 1);
  }

  /** The corrected consume of a full queue ends empty after 16 events, and the 17th consume returns 0. */
  lemma FullQueueDrainsCorrected(q: Queue)
    requires Valid(q) && q.pos == MAX_INPUT_EVENT
    ensures Drain(q, MAX_INPUT_EVENT + 1).0[..MAX_INPUT_EVENT] == q.slots
    ensures Drain(q, MAX_INPUT_EVENT + 1).0[MAX_INPUT_EVENT] == 0
    ensures Drain(q, MAX_INPUT_EVENT + 1).1.pos == 0
  {
    DrainReturnsContents(q);
    DrainSplit(q, MAX_INPUT_EVENT);
    var q16 := Drain(q, MAX_INPUT_EVENT).1;
    ConsumePops(q16);
  }

  lemma {:induction false} DrainSplit(q: Queue, n: nat)
    requires WellFormed(q)
    decreases n
    ensures WellFormed(Drain(q, n).1)
    ensures Drain(q, n + 1).0 == Drain(q, n).0 + [Consume(Drain(q, n).1).0]
    ensures Drain(q, n + 1).1 == Consume(Drain(q, n).1).1
  {
    if n > 0 {
      DrainSplit(Consume(q).1, n - 1);
    }
  }

  // --------------------------------------------------------------- the code

  class InputQueue {
    var queue: array<u32>
    var queuePos: int

    ghost predicate Valid()
      reads this, queue
    {
      Bounded(State())
    }

    ghost function State(): Queue
      reads this, queue
    {
      Queue(queue[..], queuePos)
    }

    constructor ()
      ensures Valid() && fresh(queue) && State() == Queue(EMPTY_SLOTS, 0)
    {
      queue := new u32[MAX_INPUT_EVENT](_ => 0);
      queuePos := 0;
    }

    /** `IN_Init`. */
    method Init()
      requires Valid()
      modifies queue
      ensures Valid() && State() == Cleared(old(State()))
    {
      var i := 0;
      while i < MAX_INPUT_EVENT
        invariant 0 <= i <= MAX_INPUT_EVENT
        invariant forall k :: 0 <= k < i ==> queue[k] == 0
        invariant forall k :: queuePos <= k < MAX_INPUT_EVENT ==> queue[k] == 0
      {
        queue[i] := 0;
        i := i + 1;
      }
      assert queue[..] == EMPTY_SLOTS;
    }

    /** `IN_ConsumeEvent`, the shift running with interrupts saved and restored. */
    method ConsumeEvent(irq: Irq.InterruptController) returns (ev: u32)
      requires Valid()
      modifies this, queue, irq
      ensures Valid() && queue == old(queue)
      ensures (ev, State()) == Consume(old(State()))
      ensures irq.msr == old(irq.msr) && irq.handlers == old(irq.handlers)
      ensures irq.piIntMask == old(irq.piIntMask) && irq.hwIrqMask == old(irq.hwIrqMask)
      ensures irq.piIntStatus == old(irq.piIntStatus) && irq.hwIrqFlag == old(irq.hwIrqFlag)
      ensures irq.latteEnable == old(irq.latteEnable) && irq.latteStatus == old(irq.latteStatus)
    {
      if queue[0] == 0 {
        return 0;
      }
      ev := queue[0];
      var irqs := irq.DisableSaveEE();
      var i := 0;
      while i < MAX_INPUT_EVENT - 1
        modifies queue
        invariant 0 <= i <= MAX_INPUT_EVENT - 1
        invariant queuePos == old(queuePos)
        invariant forall k :: 0 <= k < i ==> queue[k] == old(queue[k + 1])
        invariant forall k :: i <= k < MAX_INPUT_EVENT ==> queue[k] == old(queue[k])
      {
        queue[i] := queue[i + 1];
        i := i + 1;
      }
      queue[MAX_INPUT_EVENT - 1] := 0;
      queuePos := queuePos - 1;
      irq.RestoreEE(irqs);
      Irq.RestoreUndoesDisableSave(old(irq.msr));
      assert queue[..] == old(queue[..])[1..] + [0];
    }

    /** `IN_NewEvent`; `full` when the assert fails. */
    method NewEvent(ev: u32, irq: Irq.InterruptController) returns (full: bool)
      requires Valid()
      modifies this, queue, irq
      ensures Valid() && queue == old(queue)
      ensures full <==> Enqueue(old(State()), ev).QueueFull?
      ensures full ==> State() == old(State())
      ensures !full ==> State() == Enqueue(old(State()), ev).q
      ensures irq.msr == old(irq.msr) && irq.handlers == old(irq.handlers)
      ensures irq.piIntMask == old(irq.piIntMask) && irq.hwIrqMask == old(irq.hwIrqMask)
      ensures irq.piIntStatus == old(irq.piIntStatus) && irq.hwIrqFlag == old(irq.hwIrqFlag)
      ensures irq.latteEnable == old(irq.latteEnable) && irq.latteStatus == old(irq.latteStatus)
    {
      if queuePos >= MAX_INPUT_EVENT {
        return true;
      }
      var irqs := irq.DisableSaveEE();
      queue[queuePos] := ev;
      queuePos := queuePos + 1;
      irq.RestoreEE(irqs);
      Irq.RestoreUndoesDisableSave(old(irq.msr));
      return false;
    }
  }
}
