/**
 What the two receivers of the queue set get, against the order in which the two
 senders sent. A run is followed by its history: every message sent, how far the
 selections have gone, and which message the task's selection stands for.

 The picture that every step keeps: the messages still in the queues are the one
 the task has selected, if any, and all those from `edge` on; the handles in the
 set are those of the messages from `edge` on, in the order sent. So the set and
 its queues are one first-in-first-out queue, but for the task's selection.
 */
module QueueSetOrder {
  import opened Division
  import opened Machine
  import opened QueueSet

  /** The number-th message of its source, with its value and the queue it was sent to. */
  datatype Message = Message(fromIsr: bool, number: nat, value: U32, queue: nat)

  /** The value a source sends as its number-th: the task cycles below 0xFFFF, the interrupt above it. */
  function Value(fromIsr: bool, number: nat): (v: U32)
    ensures v >= INITIAL_ISR_TX_VALUE <==> fromIsr
  {
    if fromIsr then 0xFFFF + number % 0xFFFF_0001 else number % 0xFFFF
  }

  /** The next message of a source. */
  function NextMessage(sent: seq<Message>, fromIsr: bool, queue: nat): Message {
    var number := Count(sent, fromIsr);
    Message(fromIsr, number, Value(fromIsr, number), queue)
  }

  /** How many of the messages are from a source. */
  function Count(messages: seq<Message>, fromIsr: bool): nat {
    if messages == [] then 0
    else
      var last := |messages| - 1;
      Count(messages[..last], fromIsr) + if messages[last].fromIsr == fromIsr then 1 else 0
  }

  /** The values, in order, of the messages from an index on that went to queue q. */
  function ValuesIn(messages: seq<Message>, from: nat, q: nat): seq<U32>
    decreases |messages| - from
  {
    if from >= |messages| then []
    else
      (if messages[from].queue == q then [messages[from].value] else []) + ValuesIn(messages, from + 1, q)
  }

  lemma {:induction false} ValuesInAppend(messages: seq<Message>, m: Message, from: nat, q: nat)
    requires from <= |messages|
    ensures ValuesIn(messages + [m], from, q)
         == ValuesIn(messages, from, q) + if m.queue == q then [m.value] else []
    decreases |messages| - from
  {
    if from < |messages| {
      ValuesInAppend(messages, m, from + 1, q);
    } else {
      assert ValuesIn(messages + [m], from + 1, q) == [];
    }
  }

  lemma CountNext(messages: seq<Message>, k: nat, fromIsr: bool)
    requires k < |messages|
    ensures Count(messages[..k + 1], fromIsr)
         == Count(messages[..k], fromIsr) + if messages[k].fromIsr == fromIsr then 1 else 0
  {
    assert messages[..k + 1][..k] == messages[..k];
  }

  lemma {:induction false} CountMonotone(messages: seq<Message>, i: nat, j: nat, fromIsr: bool)
    requires i <= j <= |messages|
    ensures Count(messages[..i], fromIsr) <= Count(messages[..j], fromIsr) <= Count(messages[..i], fromIsr) + (j - i)
    decreases j
  {
    if i < j {
      CountMonotone(messages, i, j - 1, fromIsr);
      CountNext(messages, j - 1, fromIsr);
    }
  }

  /** Message i carries its place among those of its source, and went to a queue of the set. */
  predicate NumberedAt(messages: seq<Message>, i: nat, queues: nat)
    requires i < |messages|
  {
    messages[i].queue < queues
    && messages[i] == NextMessage(messages[..i], messages[i].fromIsr, messages[i].queue)
  }

  predicate Numbered(messages: seq<Message>, queues: nat) {
    forall i | 0 <= i < |messages| :: NumberedAt(messages, i, queues)
  }

  datatype Track = Track(
    state: State,
    sent: seq<Message>,
    edge: nat,                 // the messages before it have been selected
    held: Option<nat>,         // the message the task's selection stands for
    window: nat)               // the interrupt's receives since the task selected, or since it checked

  function TrackStep(t: Track, e: Event): Track
    requires WellFormed(t.state)
  {
    var next := t.(state := Step(t.state, e));
    var k := t.state.kernel;
    match e
    case TaskSend(q) =>
      if q < |k.queues| && k.HasRoom(q) then next.(sent := t.sent + [NextMessage(t.sent, false, q)]) else next
    case IsrSend =>
      var q := t.state.senders.isrQueue;
      if k.HasRoom(q) then next.(sent := t.sent + [NextMessage(t.sent, true, q)]) else next
    case TaskSelect =>
      if t.state.hand.Idle? && k.handles != [] then next.(held := Some(t.edge), edge := t.edge + 1, window := 0)
      else next
    case TaskReceive(_) => next
    case TaskCheck => if t.state.hand.Holding? then next.(held := None, window := 0) else next
    case IsrReceive(_) =>
      if k.handles == [] then next
      else if t.state.hand == Selected(k.handles[0]) then
        next.(held := Some(t.edge), edge := t.edge + 1, window := t.window + 1)
      else next.(edge := t.edge + 1, window := t.window + 1)
  }

  /** How many values of a source have been checked: all those selected, but for the one in hand. */
  function Checked(t: Track, fromIsr: bool): int
    requires t.edge <= |t.sent|
    requires t.held.Some? ==> t.held.value < |t.sent|
  {
    Count(t.sent[..t.edge], fromIsr)
      - if t.held.Some? && t.sent[t.held.value].fromIsr == fromIsr then 1 else 0
  }

  /** The values that queue q should hold. */
  function Expected(t: Track, q: nat): seq<U32>
    requires t.held.Some? ==> t.held.value < |t.sent|
  {
    (if t.state.hand.Selected? && t.held.Some? && t.sent[t.held.value].queue == q
     then [t.sent[t.held.value].value] else [])
    + ValuesIn(t.sent, t.edge, q)
  }

  predicate HandsAgree(t: Track) {
    && (t.state.hand.Idle? <==> t.held.None?)
    && (t.held.Some? ==>
          && t.held.value < t.edge <= |t.sent| && t.edge - t.held.value <= 1 + t.window
          && (t.state.hand.Selected? ==> t.state.hand.queue == t.sent[t.held.value].queue)
          && (t.state.hand.Holding? ==> t.state.hand.value == t.sent[t.held.value].value))
  }

  predicate Queued(t: Track)
    requires t.held.Some? ==> t.held.value < |t.sent|
  {
    var k := t.state.kernel;
    && t.edge <= |t.sent|
    && |k.handles| == |t.sent| - t.edge
    && (forall j | 0 <= j < |k.handles| :: k.handles[j] == t.sent[t.edge + j].queue)
    && (forall q | 0 <= q < |k.queues| :: k.queues[q] == Expected(t, q))
  }

  predicate Counted(t: Track)
    requires t.edge <= |t.sent|
    requires t.held.Some? ==> t.held.value < |t.sent|
  {
    && t.state.senders.taskTx == Value(false, Count(t.sent, false))
    && t.state.senders.isrTx == Value(true, Count(t.sent, true))
    && 0 <= Checked(t, false) && 0 <= Checked(t, true)
    && t.state.checker.expectedFromTask == Value(false, Checked(t, false))
    && t.state.checker.expectedFromIsr == Value(true, Checked(t, true))
  }

  predicate Valid(t: Track) {
    && WellFormed(t.state)
    && HandsAgree(t)
    && Queued(t)
    && Counted(t)
    && Numbered(t.sent, |t.state.kernel.queues|)
  }

  /** Each source's values follow one another through the wraps at 0xFFFF and at 2^32. */
  lemma NextValues(number: nat)
    ensures NextTaskTx(Value(false, number)) == Value(false, number + 1)
    ensures NextIsrTx(Value(true, number)) == Value(true, number + 1)
  {
    NextRemainder(number, 0xFFFF);
    NextRemainder(number, 0xFFFF_0001);
  }

  /** The checker's counters are the senders' sequences. */
  lemma CheckCounts(c: Checker, fromIsr: bool, number: nat, received: nat)
    requires fromIsr ==> c.expectedFromIsr == Value(true, number)
    requires !fromIsr ==> c.expectedFromTask == Value(false, number)
    ensures
      var after := Check(c, Value(fromIsr, received));
      if fromIsr then after.expectedFromIsr == Value(true, number + 1) && after.expectedFromTask == c.expectedFromTask
      else after.expectedFromTask == Value(false, number + 1) && after.expectedFromIsr == c.expectedFromIsr
  {
    NextValues(number);
  }

  lemma SendKeepsExpected(t: Track, next: Track, m: Message, q: nat)
    requires HandsAgree(t) && t.edge <= |t.sent| && next.state.hand == t.state.hand
    requires next == t.(state := next.state, sent := t.sent + [m])
    ensures Expected(next, q) == Expected(t, q) + if m.queue == q then [m.value] else []
  {
    ValuesInAppend(t.sent, m, t.edge, q);
  }

  /** A message sent goes to the end of its queue, of the set and of the history. */
  lemma SendKeepsQueued(t: Track, next: Track, m: Message)
    requires WellFormed(t.state) && HandsAgree(t) && Queued(t) && m.queue < |t.state.kernel.queues|
    requires next.state.kernel == t.state.kernel.Post(m.queue, m.value) && next.state.hand == t.state.hand
    requires next == t.(state := next.state, sent := t.sent + [m])
    ensures HandsAgree(next) && Queued(next)
  {
    forall q | 0 <= q < |t.state.kernel.queues| ensures next.state.kernel.queues[q] == Expected(next, q) {
      SendKeepsExpected(t, next, m, q);
      assert t.state.kernel.queues[q] == Expected(t, q);
    }
  }

  lemma SendKeepsNumbered(sent: seq<Message>, fromIsr: bool, q: nat, queues: nat)
    requires Numbered(sent, queues) && q < queues
    ensures Numbered(sent + [NextMessage(sent, fromIsr, q)], queues)
  {
    var all := sent + [NextMessage(sent, fromIsr, q)];
    forall i | 0 <= i < |all| ensures NumberedAt(all, i, queues) {
      assert all[..i] == sent[..i];
      assert sent[..|sent|] == sent;
      assert i < |sent| ==> NumberedAt(sent, i, queues);
    }
  }

  lemma SendKeepsChecked(t: Track, m: Message, fromIsr: bool)
    requires t.edge <= |t.sent| && (t.held.Some? ==> t.held.value < t.edge)
    ensures Checked(t.(sent := t.sent + [m]), fromIsr) == Checked(t, fromIsr)
    ensures Count(t.sent + [m], fromIsr) == Count(t.sent, fromIsr) + if m.fromIsr == fromIsr then 1 else 0
  {
    assert (t.sent + [m])[..t.edge] == t.sent[..t.edge];
    assert (t.sent + [m])[..|t.sent|] == t.sent;
  }

  lemma SendKeepsCounted(t: Track, next: Track, fromIsr: bool, q: nat)
    requires HandsAgree(t) && t.edge <= |t.sent| && Counted(t)
    requires next.state.checker == t.state.checker
    requires next.state.senders.taskTx == if fromIsr then t.state.senders.taskTx else NextTaskTx(t.state.senders.taskTx)
    requires next.state.senders.isrTx == if fromIsr then NextIsrTx(t.state.senders.isrTx) else t.state.senders.isrTx
    requires next == t.(state := next.state, sent := t.sent + [NextMessage(t.sent, fromIsr, q)])
    ensures next.edge <= |next.sent| && Counted(next)
  {
    var m := NextMessage(t.sent, fromIsr, q);
    assert next == t.(sent := t.sent + [m]).(state := next.state);
    SendKeepsChecked(t, m, false);
    SendKeepsChecked(t, m, true);
    NextValues(Count(t.sent, fromIsr));
  }

  lemma TaskSendKeepsValid(t: Track, q: nat)
    requires Valid(t) && q < |t.state.kernel.queues| && t.state.kernel.HasRoom(q)
    ensures Valid(TrackStep(t, TaskSend(q)))
  {
    var next := TrackStep(t, TaskSend(q));
    SendKeepsQueued(t, next, NextMessage(t.sent, false, q));
    SendKeepsNumbered(t.sent, false, q, |t.state.kernel.queues|);
    SendKeepsCounted(t, next, false, q);
  }

  lemma IsrSendKeepsValid(t: Track)
    requires Valid(t) && t.state.kernel.HasRoom(t.state.senders.isrQueue)
    ensures Valid(TrackStep(t, IsrSend))
  {
    var next, q := TrackStep(t, IsrSend), t.state.senders.isrQueue;
    SendKeepsQueued(t, next, NextMessage(t.sent, true, q));
    SendKeepsNumbered(t.sent, true, q, |t.state.kernel.queues|);
    SendKeepsCounted(t, next, true, q);
  }

  lemma SelectKeepsExpected(t: Track, q: nat)
    requires HandsAgree(t) && t.state.hand.Idle? && t.edge < |t.sent|
    requires WellFormed(t.state) && t.state.kernel.handles != []
    requires t.state.kernel.handles[0] == t.sent[t.edge].queue
    ensures Expected(TrackStep(t, TaskSelect), q) == Expected(t, q)
  {
    var rest := ValuesIn(t.sent, t.edge + 1, q);
    assert ValuesIn(t.sent, t.edge, q) == (if t.sent[t.edge].queue == q then [t.sent[t.edge].value] else []) + rest;
  }

  /** Selecting takes the oldest message not yet selected. */
  lemma SelectKeepsQueued(t: Track)
    requires WellFormed(t.state) && HandsAgree(t) && Queued(t) && t.state.hand.Idle? && t.state.kernel.handles != []
    ensures HandsAgree(TrackStep(t, TaskSelect)) && Queued(TrackStep(t, TaskSelect))
  {
    var next := TrackStep(t, TaskSelect);
    assert t.state.kernel.handles[0] == t.sent[t.edge + 0].queue;
    forall q | 0 <= q < |t.state.kernel.queues| ensures next.state.kernel.queues[q] == Expected(next, q) {
      SelectKeepsExpected(t, q);
    }
  }

  lemma SelectKeepsCounted(t: Track)
    requires HandsAgree(t) && t.held.None? && t.edge < |t.sent| && Counted(t)
    ensures Counted(t.(held := Some(t.edge), edge := t.edge + 1))
  {
    CountNext(t.sent, t.edge, false);
    CountNext(t.sent, t.edge, true);
  }

  lemma SelectKeepsValid(t: Track)
    requires Valid(t) && t.state.hand.Idle? && t.state.kernel.handles != []
    ensures Valid(TrackStep(t, TaskSelect))
  {
    SelectKeepsQueued(t);
    SelectKeepsCounted(t);
  }

  /** The receive after a select always finds its message, at the head of the selected queue. */
  lemma ReceiveKeepsValid(t: Track, stack: U32)
    requires Valid(t) && t.state.hand.Selected?
    ensures t.state.kernel.queues[t.state.hand.queue] != []
    ensures Valid(TrackStep(t, TaskReceive(stack)))
    ensures TrackStep(t, TaskReceive(stack)).state.hand == Holding(t.sent[t.held.value].value)
  {
    var next := TrackStep(t, TaskReceive(stack));
    var at := t.state.hand.queue;
    assert t.state.kernel.queues[at] == Expected(t, at);
    forall q | 0 <= q < |next.state.kernel.queues| ensures next.state.kernel.queues[q] == Expected(next, q) {
      assert t.state.kernel.queues[q] == Expected(t, q);
    }
  }

  lemma CheckKeepsCounted(t: Track, next: Track)
    requires HandsAgree(t) && t.edge <= |t.sent| && Counted(t) && t.held.Some?
    requires t.sent[t.held.value].value == Value(t.sent[t.held.value].fromIsr, t.sent[t.held.value].number)
    requires next.state.senders == t.state.senders
    requires next.state.checker == Check(t.state.checker, t.sent[t.held.value].value)
    requires next == t.(state := next.state, held := None, window := 0)
    ensures Counted(next)
  {
    var m := t.sent[t.held.value];
    CheckCounts(t.state.checker, m.fromIsr, Checked(t, m.fromIsr), m.number);
  }

  lemma CheckKeepsValid(t: Track)
    requires Valid(t) && t.state.hand.Holding?
    ensures Valid(TrackStep(t, TaskCheck))
  {
    var next := TrackStep(t, TaskCheck);
    assert NumberedAt(t.sent, t.held.value, |t.state.kernel.queues|);
    CheckKeepsCounted(t, next);
    forall q | 0 <= q < |next.state.kernel.queues| ensures next.state.kernel.queues[q] == Expected(next, q) {
      assert t.state.kernel.queues[q] == Expected(t, q);
    }
  }

  /** Which message the interrupt receives: the task's, if its queue comes up again, and otherwise the next. */
  function IsrMessage(t: Track): nat
    requires t.state.kernel.handles != []
    requires t.state.hand.Selected? ==> t.held.Some?
  {
    if t.state.hand == Selected(t.state.kernel.handles[0]) then t.held.value else t.edge
  }

  /** The interrupt's receive always finds that message at the head of the queue it selects. */
  lemma IsrReceiveFinds(t: Track)
    requires WellFormed(t.state) && HandsAgree(t) && Queued(t) && t.state.kernel.handles != []
    ensures
      var q := t.state.kernel.handles[0];
      && t.edge < |t.sent| && IsrMessage(t) < |t.sent|
      && t.state.kernel.queues[q] != []
      && t.state.kernel.queues[q][0] == t.sent[IsrMessage(t)].value
      && t.state.kernel.queues[q][1..] == Expected(TrackStep(t, IsrReceive(0)), q)
  {
    var q := t.state.kernel.handles[0];
    assert q == t.sent[t.edge + 0].queue;
    assert t.state.kernel.queues[q] == Expected(t, q);
    var rest := ValuesIn(t.sent, t.edge + 1, q);
    assert ValuesIn(t.sent, t.edge, q) == [t.sent[t.edge].value] + rest;
  }

  /** The queues that the interrupt does not receive from hold what they did. */
  lemma IsrReceiveKeepsExpected(t: Track, stack: U32, q: nat)
    requires WellFormed(t.state) && HandsAgree(t) && t.edge < |t.sent| && t.state.kernel.handles != []
    requires t.state.kernel.handles[0] == t.sent[t.edge].queue != q
    ensures Expected(TrackStep(t, IsrReceive(stack)), q) == Expected(t, q)
  {
    assert ValuesIn(t.sent, t.edge, q) == [] + ValuesIn(t.sent, t.edge + 1, q);
  }

  /** The queue it receives from loses its head. */
  lemma IsrReceivePops(t: Track, stack: U32)
    requires WellFormed(t.state) && HandsAgree(t) && Queued(t) && t.state.kernel.handles != []
    ensures
      var next, q := TrackStep(t, IsrReceive(stack)), t.state.kernel.handles[0];
      next.state.kernel.queues[q] == Expected(next, q)
  {
    IsrReceiveFinds(t);
  }

  lemma IsrReceiveKeepsQueue(t: Track, stack: U32, q: nat)
    requires WellFormed(t.state) && HandsAgree(t) && Queued(t) && t.state.kernel.handles != []
    requires q < |t.state.kernel.queues|
    ensures
      var next := TrackStep(t, IsrReceive(stack));
      q < |next.state.kernel.queues| && next.state.kernel.queues[q] == Expected(next, q)
  {
    var at := t.state.kernel.handles[0];
    assert at == t.sent[t.edge + 0].queue;
    if q == at {
      IsrReceivePops(t, stack);
    } else {
      IsrReceiveKeepsExpected(t, stack, q);
      assert t.state.kernel.queues[q] == Expected(t, q);
    }
  }

  /** The set loses its oldest handle, and the task's hand still stands for a message. */
  lemma IsrReceiveKeepsHands(t: Track, stack: U32)
    requires WellFormed(t.state) && HandsAgree(t) && Queued(t) && t.state.kernel.handles != []
    ensures
      var next, k := TrackStep(t, IsrReceive(stack)), TrackStep(t, IsrReceive(stack)).state.kernel;
      && WellFormed(next.state) && HandsAgree(next)
      && next.edge <= |next.sent| && |k.handles| == |next.sent| - next.edge
      && |k.queues| == |t.state.kernel.queues|
      && forall j | 0 <= j < |k.handles| :: k.handles[j] == next.sent[next.edge + j].queue
  {
    IsrReceiveFinds(t);
    var next := TrackStep(t, IsrReceive(stack));
    var k := next.state.kernel;
    assert t.state.kernel.handles[0] == t.sent[t.edge + 0].queue;
    forall j | 0 <= j < |k.handles| ensures k.handles[j] == next.sent[next.edge + j].queue {
      assert t.state.kernel.handles[j + 1] == t.sent[t.edge + (j + 1)].queue;
    }
  }

  lemma IsrReceiveKeepsQueued(t: Track, stack: U32)
    requires WellFormed(t.state) && HandsAgree(t) && Queued(t) && t.state.kernel.handles != []
    ensures
      var next := TrackStep(t, IsrReceive(stack));
      WellFormed(next.state) && HandsAgree(next) && Queued(next)
  {
    var next := TrackStep(t, IsrReceive(stack));
    IsrReceiveKeepsHands(t, stack);
    forall q | 0 <= q < |next.state.kernel.queues| ensures next.state.kernel.queues[q] == Expected(next, q) {
      IsrReceiveKeepsQueue(t, stack, q);
    }
  }

  /** The interrupt's receive selects one message more and checks message r. */
  lemma IsrReceiveChecks(t: Track, r: nat, fromIsr: bool)
    requires HandsAgree(t) && t.edge < |t.sent| && r < |t.sent| && (r == t.edge || t.held == Some(r))
    ensures
      var next := t.(held := if r == t.edge then t.held else Some(t.edge), edge := t.edge + 1, window := t.window + 1);
      Checked(next, fromIsr) == Checked(t, fromIsr) + if t.sent[r].fromIsr == fromIsr then 1 else 0
  {
    CountNext(t.sent, t.edge, fromIsr);
  }

  lemma IsrReceiveKeepsCounted(t: Track, next: Track, r: nat)
    requires HandsAgree(t) && t.edge < |t.sent| && Counted(t)
    requires r == t.edge || t.held == Some(r)
    requires r < |t.sent| && t.sent[r].value == Value(t.sent[r].fromIsr, t.sent[r].number)
    requires next.state.senders == t.state.senders && next.state.checker == Check(t.state.checker, t.sent[r].value)
    requires next == t.(state := next.state, held := if r == t.edge then t.held else Some(t.edge),
                        edge := t.edge + 1, window := t.window + 1)
    ensures Counted(next)
  {
    CheckCounts(t.state.checker, t.sent[r].fromIsr, Checked(t, t.sent[r].fromIsr), t.sent[r].number);
    IsrReceiveChecks(t, r, false);
    IsrReceiveChecks(t, r, true);
  }

  lemma IsrReceiveKeepsValid(t: Track, stack: U32)
    requires Valid(t) && t.state.kernel.handles != []
    ensures Valid(TrackStep(t, IsrReceive(stack)))
  {
    IsrReceiveKeepsQueued(t, stack);
    IsrReceiveFinds(t);
    var r := IsrMessage(t);
    assert NumberedAt(t.sent, r, |t.state.kernel.queues|);
    IsrReceiveKeepsCounted(t, TrackStep(t, IsrReceive(stack)), r);
  }

  /** Every step of every sender and receiver keeps the picture. */
  lemma StepKeepsValid(t: Track, e: Event)
    requires Valid(t)
    ensures Valid(TrackStep(t, e))
  {
    var k := t.state.kernel;
    match e
    case TaskSend(q) => if q < |k.queues| && k.HasRoom(q) { TaskSendKeepsValid(t, q); }
    case IsrSend => if k.HasRoom(t.state.senders.isrQueue) { IsrSendKeepsValid(t); }
    case TaskSelect => if t.state.hand.Idle? && k.handles != [] { SelectKeepsValid(t); }
    case TaskReceive(stack) => if t.state.hand.Selected? { ReceiveKeepsValid(t, stack); }
    case TaskCheck => if t.state.hand.Holding? { CheckKeepsValid(t); }
    case IsrReceive(stack) => if k.handles != [] { IsrReceiveKeepsValid(t, stack); }
  }
}
