/**
 The queue set demonstration: a task and an interrupt send numbered values to the
 queues of a set, and a task and the same interrupt receive them. The kernel is
 taken by its contract: queues are bounded and first in first out, and posting to
 a member queue also posts the queue's handle to the set, in one step.
 */
module QueueSet {
  import opened Machine

  const INITIAL_ISR_TX_VALUE := 0xFFFF
  const ALLOWABLE_RX_DEVIATION := 3
  const IGNORED_BOUNDARY := 6

  /** What the receiving task has in hand: nothing, a selected queue, or a value not yet checked. */
  datatype Hand = Idle | Selected(queue: nat) | Holding(value: U32)

  /** The kernel objects: the member queues and the handles in the set. */
  datatype Kernel = Kernel(length: nat, queues: seq<seq<U32>>, setLength: nat, handles: seq<nat>, overflow: bool)
  {
    function HasRoom(q: nat): bool
      requires q < |queues|
    {
      |queues[q]| < length
    }

    function Post(q: nat, value: U32): Kernel
      requires q < |queues|
    {
      this.(queues := queues[q := queues[q] + [value]], handles := handles + [q],
            overflow := overflow || |handles| >= setLength)
    }

    function Pop(q: nat): Kernel
      requires q < |queues| && queues[q] != []
    {
      this.(queues := queues[q := queues[q][1..]])
    }
  }

  datatype Senders = Senders(taskTx: U32, isrTx: U32, isrQueue: nat)

  /** The checker's static counters and the status of the test. */
  datatype Checker = Checker(expectedFromTask: U32, expectedFromIsr: U32, passing: bool)

  datatype State = State(kernel: Kernel, senders: Senders, checker: Checker, hand: Hand)

  function NextTaskTx(v: U32): U32 {
    if ToU32(v + 1) == INITIAL_ISR_TX_VALUE then 0 else ToU32(v + 1)
  }

  function NextIsrTx(v: U32): U32 {
    if ToU32(v + 1) == 0 then INITIAL_ISR_TX_VALUE else ToU32(v + 1)
  }

  predicate WithinRange(received: U32, expected: U32) {
    if received > expected then received - expected <= ALLOWABLE_RX_DEVIATION
    else expected - received <= ALLOWABLE_RX_DEVIATION
  }

  /** Values near the ends of a source's range are not tested. */
  predicate Acceptable(received: U32, expected: U32) {
    if received >= INITIAL_ISR_TX_VALUE then
      received - INITIAL_ISR_TX_VALUE < IGNORED_BOUNDARY
      || 0xFFFF_FFFF - received <= IGNORED_BOUNDARY
      || WithinRange(received, expected)
    else
      received < IGNORED_BOUNDARY
      || INITIAL_ISR_TX_VALUE - 1 - received <= IGNORED_BOUNDARY
      || WithinRange(received, expected)
  }

  function Check(c: Checker, received: U32): Checker {
    if received >= INITIAL_ISR_TX_VALUE then
      c.(passing := c.passing && Acceptable(received, c.expectedFromIsr),
         expectedFromIsr := if ToU32(c.expectedFromIsr + 1) == 0 then INITIAL_ISR_TX_VALUE
                            else ToU32(c.expectedFromIsr + 1))
    else
      c.(passing := c.passing && Acceptable(received, c.expectedFromTask),
         expectedFromTask := if ToU32(c.expectedFromTask + 1) >= INITIAL_ISR_TX_VALUE then 0
                             else ToU32(c.expectedFromTask + 1))
  }

  datatype Event =
    | TaskSend(queue: nat)
    | IsrSend
    | TaskSelect
    | TaskReceive(stack: U32)  // `stack` is what the variable would hold if the receive failed
    | TaskCheck
    | IsrReceive(stack: U32)

  predicate WellFormed(s: State) {
    && 0 < |s.kernel.queues| && s.senders.isrQueue < |s.kernel.queues|
    && (forall j | 0 <= j < |s.kernel.handles| :: s.kernel.handles[j] < |s.kernel.queues|)
    && (s.hand.Selected? ==> s.hand.queue < |s.kernel.queues|)
  }

  /** One atomic step; a send to a full queue, a select from an empty set and a step out of turn change nothing. */
  function Step(s: State, e: Event): State
    requires WellFormed(s)
  {
    match e
    case TaskSend(q) =>
      if q < |s.kernel.queues| && s.kernel.HasRoom(q) then
        s.(kernel := s.kernel.Post(q, s.senders.taskTx),
           senders := s.senders.(taskTx := NextTaskTx(s.senders.taskTx)))
      else s
    case IsrSend =>
      var q := s.senders.isrQueue;
      if s.kernel.HasRoom(q) then
        s.(kernel := s.kernel.Post(q, s.senders.isrTx),
           senders := s.senders.(isrTx := NextIsrTx(s.senders.isrTx),
                                 isrQueue := if q + 1 >= |s.kernel.queues| then 0 else q + 1))
      else s
    case TaskSelect =>
      if s.hand.Idle? && s.kernel.handles != [] then
        s.(hand := Selected(s.kernel.handles[0]), kernel := s.kernel.(handles := s.kernel.handles[1..]))
      else s
    case TaskReceive(stack) =>
      if !s.hand.Selected? then s
      else if s.kernel.queues[s.hand.queue] == [] then
        s.(checker := s.checker.(passing := false), hand := Holding(stack))
      else
        s.(kernel := s.kernel.Pop(s.hand.queue), hand := Holding(s.kernel.queues[s.hand.queue][0]))
    case TaskCheck =>
      if s.hand.Holding? then s.(checker := Check(s.checker, s.hand.value), hand := Idle) else s
    case IsrReceive(stack) =>
      if s.kernel.handles == [] then s
      else
        var q := s.kernel.handles[0];
        var selected := s.kernel.(handles := s.kernel.handles[1..]);
        if s.kernel.queues[q] == [] then
          s.(kernel := selected, checker := Check(s.checker.(passing := false), stack))
        else
          s.(kernel := selected.Pop(q), checker := Check(s.checker, s.kernel.queues[q][0]))
  }

  function Initial(queues: nat, length: nat): State {
    State(Kernel(length, seq(queues, _ => []), queues * length, [], false),
          Senders(0, INITIAL_ISR_TX_VALUE, 0), Checker(0, INITIAL_ISR_TX_VALUE, true), Idle)
  }

  /** The demonstration's variables and the kernel objects it uses; each routine performs one of the steps. */
  class Demo {
    const queueLength: nat
    const setLength: nat
    var xQueues: seq<seq<U32>>
    var xQueueSet: seq<nat>
    var setOverflow: bool
    var ulTaskTxValue: U32
    var ulISRTxValue: U32
    var xQueueToWriteTo: nat
    var ulExpectedReceivedFromTask: U32
    var ulExpectedReceivedFromISR: U32
    var xQueueSetTasksStatus: bool
    var hand: Hand

    ghost function Abs(): State
      reads this
    {
      State(Kernel(queueLength, xQueues, setLength, xQueueSet, setOverflow),
            Senders(ulTaskTxValue, ulISRTxValue, xQueueToWriteTo),
            Checker(ulExpectedReceivedFromTask, ulExpectedReceivedFromISR, xQueueSetTasksStatus),
            hand)
    }

    constructor (queues: nat, length: nat)
      requires 0 < queues
      ensures Abs() == Initial(queues, length) && WellFormed(Abs())
    {
      queueLength, setLength := length, queues * length;
      xQueues, xQueueSet, setOverflow := seq(queues, _ => []), [], false;
      ulTaskTxValue, ulISRTxValue, xQueueToWriteTo := 0, INITIAL_ISR_TX_VALUE, 0;
      ulExpectedReceivedFromTask, ulExpectedReceivedFromISR := 0, INITIAL_ISR_TX_VALUE;
      xQueueSetTasksStatus, hand := true, Idle;
    }

    /** The kernel's send to a member queue of the set. */
    method QueueSend(q: nat, value: U32) returns (sent: bool)
      requires q < |xQueues|
      modifies this`xQueues, this`xQueueSet, this`setOverflow
      ensures sent == old(Abs()).kernel.HasRoom(q)
      ensures Abs() == old(Abs()).(kernel := if sent then old(Abs()).kernel.Post(q, value) else old(Abs()).kernel)
    {
      if |xQueues[q]| >= queueLength { return false; }
      setOverflow := setOverflow || |xQueueSet| >= setLength;
      xQueues := xQueues[q := xQueues[q] + [value]];
      xQueueSet := xQueueSet + [q];
      return true;
    }

    /** One round of prvQueueSetSendingTask that does not have to wait for room. */
    method SendingTask(uxQueueToWriteTo: nat)
      requires uxQueueToWriteTo < |xQueues| && WellFormed(Abs())
      modifies this`xQueues, this`xQueueSet, this`setOverflow, this`ulTaskTxValue
      ensures Abs() == Step(old(Abs()), TaskSend(uxQueueToWriteTo))
    {
      var sent := QueueSend(uxQueueToWriteTo, ulTaskTxValue);
      if sent {
        ulTaskTxValue := ToU32(ulTaskTxValue + 1);
        if ulTaskTxValue == INITIAL_ISR_TX_VALUE {
          ulTaskTxValue := 0;
        }
      }
    }

    method SendToQueueInSetFromISR()
      requires WellFormed(Abs())
      modifies this`xQueues, this`xQueueSet, this`setOverflow, this`ulISRTxValue, this`xQueueToWriteTo
      ensures Abs() == Step(old(Abs()), IsrSend)
    {
      var sent := QueueSend(xQueueToWriteTo, ulISRTxValue);
      if sent {
        ulISRTxValue := ToU32(ulISRTxValue + 1);
        if ulISRTxValue == 0 {
          ulISRTxValue := INITIAL_ISR_TX_VALUE;
        }
        xQueueToWriteTo := xQueueToWriteTo + 1;
        if xQueueToWriteTo >= |xQueues| {
          xQueueToWriteTo := 0;
        }
      }
    }

    method CheckReceivedValue(ulReceived: U32)
      modifies this`ulExpectedReceivedFromTask, this`ulExpectedReceivedFromISR, this`xQueueSetTasksStatus
      ensures Abs() == old(Abs()).(checker := Check(old(Abs()).checker, ulReceived))
    {
      if ulReceived >= INITIAL_ISR_TX_VALUE {
        if ulReceived - INITIAL_ISR_TX_VALUE < IGNORED_BOUNDARY {
        } else if 0xFFFF_FFFF - ulReceived <= IGNORED_BOUNDARY {
        } else if !WithinRange(ulReceived, ulExpectedReceivedFromISR) {
          xQueueSetTasksStatus := false;
        }
        ulExpectedReceivedFromISR := ToU32(ulExpectedReceivedFromISR + 1);
        if ulExpectedReceivedFromISR == 0 {
          ulExpectedReceivedFromISR := INITIAL_ISR_TX_VALUE;
        }
      } else {
        if ulReceived < IGNORED_BOUNDARY {
        } else if INITIAL_ISR_TX_VALUE - 1 - ulReceived <= IGNORED_BOUNDARY {
        } else if !WithinRange(ulReceived, ulExpectedReceivedFromTask) {
          xQueueSetTasksStatus := false;
        }
        ulExpectedReceivedFromTask := ToU32(ulExpectedReceivedFromTask + 1);
        if ulExpectedReceivedFromTask >= INITIAL_ISR_TX_VALUE {
          ulExpectedReceivedFromTask := 0;
        }
      }
    }

    /** prvQueueSetReceivingTask: the select, with something in the set. */
    method SelectFromSet()
      requires WellFormed(Abs()) && hand == Idle && xQueueSet != []
      modifies this`xQueueSet, this`hand
      ensures Abs() == Step(old(Abs()), TaskSelect)
    {
      hand := Selected(xQueueSet[0]);
      xQueueSet := xQueueSet[1..];
    }

    /** The receive that follows it, without waiting. */
    method ReceiveSelected(stack: U32)
      requires WellFormed(Abs()) && hand.Selected?
      modifies this`xQueues, this`hand, this`xQueueSetTasksStatus
      ensures Abs() == Step(old(Abs()), TaskReceive(stack))
    {
      var xActivatedQueue := hand.queue;
      if xQueues[xActivatedQueue] == [] {
        xQueueSetTasksStatus := false;
        hand := Holding(stack);
      } else {
        hand := Holding(xQueues[xActivatedQueue][0]);
        xQueues := xQueues[xActivatedQueue := xQueues[xActivatedQueue][1..]];
      }
    }

    /** The check, in the task's critical section. */
    method CheckHeld()
      requires WellFormed(Abs()) && hand.Holding?
      modifies this
      ensures Abs() == Step(old(Abs()), TaskCheck)
    {
      CheckReceivedValue(hand.value);
      hand := Idle;
    }

    method ReceiveFromQueueInSetFromISR(stack: U32)
      requires WellFormed(Abs())
      modifies this
      ensures Abs() == Step(old(Abs()), IsrReceive(stack))
    {
      if xQueueSet == [] { return; }
      var xActivatedQueue := xQueueSet[0];
      xQueueSet := xQueueSet[1..];
      var ulReceived := stack;
      if xQueues[xActivatedQueue] == [] {
        xQueueSetTasksStatus := false;
      } else {
        ulReceived := xQueues[xActivatedQueue][0];
        xQueues := xQueues[xActivatedQueue := xQueues[xActivatedQueue][1..]];
      }
      CheckReceivedValue(ulReceived);
    }
  }
}
