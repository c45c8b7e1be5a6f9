/**
 The queue set demonstration over whole runs: any interleaving of the two senders
 and the two receivers, with any number of queues of any length.
 */
module QueueSetRuns {
  import opened Division
  import opened Machine
  import opened QueueSet
  import opened QueueSetOrder

  function Start(queues: nat, length: nat): (t: Track)
    requires 0 < queues
    ensures Valid(t) && Unselected(t) && Bounded(t.state, queues, length) && t.state.checker.passing
  {
    var t := Track(Initial(queues, length), [], 0, None, 0);
    assert forall q | 0 <= q < queues :: Expected(t, q) == [];
    t
  }

  /** Nothing has been selected yet. */
  predicate Unselected(t: Track) {
    t.edge == 0 && t.held.None? && t.window == 0
  }

  /** Where a run leads; every state on the way is valid. */
  function TrackRun(start: Track, events: seq<Event>): (t: Track)
    requires Valid(start)
    ensures Valid(t)
  {
    if events == [] then start
    else
      var last := |events| - 1;
      var before := TrackRun(start, events[..last]);
      StepKeepsValid(before, events[last]);
      TrackStep(before, events[last])
  }

  /** The values a step passes to the check. */
  function Taken(s: State, e: Event): seq<U32>
    requires WellFormed(s)
  {
    match e
    case TaskCheck => if s.hand.Holding? then [s.hand.value] else []
    case IsrReceive(stack) =>
      if s.kernel.handles == [] then []
      else
        var queue := s.kernel.queues[s.kernel.handles[0]];
        [if queue == [] then stack else queue[0]]
    case _ => []
  }

  /** The values that a run passes to the check, in order. */
  function Log(start: Track, events: seq<Event>): seq<U32>
    requires Valid(start)
  {
    if events == [] then []
    else
      var last := |events| - 1;
      Log(start, events[..last]) + Taken(TrackRun(start, events[..last]).state, events[last])
  }

  function Values(messages: seq<Message>): (values: seq<U32>)
    ensures |values| == |messages|
    ensures forall i | 0 <= i < |messages| :: values[i] == messages[i].value
  {
    seq(|messages|, i requires 0 <= i < |messages| => messages[i].value)
  }

  // ---- The handles in the set and the contents of the queues ----

  function Occurrences(handles: seq<nat>, q: nat): nat {
    if handles == [] then 0
    else (if handles[0] == q then 1 else 0) + Occurrences(handles[1..], q)
  }

  lemma {:induction false} HandlesOfMessages(sent: seq<Message>, from: nat, handles: seq<nat>, q: nat)
    requires from <= |sent| && |handles| == |sent| - from
    requires forall j | 0 <= j < |handles| :: handles[j] == sent[from + j].queue
    ensures Occurrences(handles, q) == |ValuesIn(sent, from, q)|
    decreases |handles|
  {
    if handles != [] {
      assert handles[0] == sent[from + 0].queue;
      forall j | 0 <= j < |handles[1..]| ensures handles[1..][j] == sent[from + 1 + j].queue {
        assert handles[1 + j] == sent[from + (1 + j)].queue;
      }
      HandlesOfMessages(sent, from + 1, handles[1..], q);
    }
  }

  /** For each queue, its handles in the set and the task's selection of it together count what it holds. */
  lemma HandlesCountTheQueues(start: Track, events: seq<Event>, q: nat)
    requires Valid(start) && q < |TrackRun(start, events).state.kernel.queues|
    ensures
      var s := TrackRun(start, events).state;
      |s.kernel.queues[q]| == Occurrences(s.kernel.handles, q) + if s.hand == Selected(q) then 1 else 0
  {
    QueueCounts(TrackRun(start, events), q);
  }

  lemma QueueCounts(t: Track, q: nat)
    requires Valid(t) && q < |t.state.kernel.queues|
    ensures |t.state.kernel.queues[q]|
         == Occurrences(t.state.kernel.handles, q) + if t.state.hand == Selected(q) then 1 else 0
  {
    HandlesOfMessages(t.sent, t.edge, t.state.kernel.handles, q);
    assert t.state.kernel.queues[q] == Expected(t, q);
  }

  /** The handles of the first n queues. */
  function HandlesBelow(handles: seq<nat>, n: nat): nat {
    if n == 0 then 0 else HandlesBelow(handles, n - 1) + Occurrences(handles, n - 1)
  }

  lemma {:induction false} FirstHandle(handles: seq<nat>, n: nat)
    requires handles != []
    ensures HandlesBelow(handles, n) == HandlesBelow(handles[1..], n) + if handles[0] < n then 1 else 0
  {
    if n > 0 {
      FirstHandle(handles, n - 1);
    }
  }

  lemma {:induction false} NoneBelow(n: nat)
    ensures HandlesBelow([], n) == 0
  {
    if n > 0 {
      NoneBelow(n - 1);
    }
  }

  lemma {:induction false} AllBelow(handles: seq<nat>, n: nat)
    requires forall j | 0 <= j < |handles| :: handles[j] < n
    ensures HandlesBelow(handles, n) == |handles|
  {
    if handles == [] {
      NoneBelow(n);
    } else {
      FirstHandle(handles, n);
      AllBelow(handles[1..], n);
    }
  }

  predicate Room(handles: seq<nat>, n: nat, length: nat) {
    exists q | 0 <= q < n :: Occurrences(handles, q) < length
  }

  lemma {:induction false} BoundedByLengths(handles: seq<nat>, n: nat, length: nat)
    requires forall q | 0 <= q < n :: Occurrences(handles, q) <= length
    ensures HandlesBelow(handles, n) <= n * length
    ensures Room(handles, n, length) ==> HandlesBelow(handles, n) < n * length
  {
    if n > 0 {
      BoundedByLengths(handles, n - 1, length);
      assert n * length == (n - 1) * length + length;
      if Room(handles, n, length) && Occurrences(handles, n - 1) == length {
        assert Room(handles, n - 1, length);
      }
    }
  }

  predicate Bounded(s: State, queues: nat, length: nat) {
    var k := s.kernel;
    && |k.queues| == queues && k.length == length && k.setLength == queues * length && !k.overflow
    && forall q | 0 <= q < queues :: |k.queues[q]| <= length
  }

  lemma SetHasRoom(t: Track, queues: nat, length: nat, q: nat)
    requires Valid(t) && Bounded(t.state, queues, length) && q < queues && t.state.kernel.HasRoom(q)
    ensures |t.state.kernel.handles| < t.state.kernel.setLength
  {
    var handles := t.state.kernel.handles;
    forall p | 0 <= p < queues ensures Occurrences(handles, p) <= |t.state.kernel.queues[p]| {
      QueueCounts(t, p);
    }
    AllBelow(handles, queues);
    BoundedByLengths(handles, queues, length);
  }

  lemma StepKeepsBounded(t: Track, e: Event, queues: nat, length: nat)
    requires Valid(t) && Bounded(t.state, queues, length)
    ensures Bounded(Step(t.state, e), queues, length)
  {
    var k := t.state.kernel;
    match e
    case TaskSend(q) => if q < queues && k.HasRoom(q) { SetHasRoom(t, queues, length, q); }
    case IsrSend => if k.HasRoom(t.state.senders.isrQueue) { SetHasRoom(t, queues, length, t.state.senders.isrQueue); }
    case _ =>
  }

  /** A set as long as its queues together never overflows. */
  lemma {:induction false} SetNeverOverflows(start: Track, events: seq<Event>, queues: nat, length: nat)
    requires Valid(start) && Bounded(start.state, queues, length)
    ensures Bounded(TrackRun(start, events).state, queues, length)
  {
    if events != [] {
      var last := |events| - 1;
      SetNeverOverflows(start, events[..last], queues, length);
      StepKeepsBounded(TrackRun(start, events[..last]), events[last], queues, length);
    }
  }

  // ---- What the senders do ----

  /** A send of the task is taken exactly if the queue has room, and puts its source's next value at the end. */
  lemma TaskSendsExactly(t: Track, q: nat)
    requires Valid(t) && q < |t.state.kernel.queues|
    ensures
      var k, after := t.state.kernel, TrackStep(t, TaskSend(q));
      var value := Value(false, Count(t.sent, false));
      if |k.queues[q]| < k.length then
        && after.state.kernel.queues == k.queues[q := k.queues[q] + [value]]
        && after.state.kernel.handles == k.handles + [q] && |after.sent| == |t.sent| + 1
      else after.state == t.state && after.sent == t.sent
  {
  }

  /** And so is a send of the interrupt, to the queue whose turn it is. */
  lemma IsrSendsExactly(t: Track)
    requires Valid(t)
    ensures
      var k, q, after := t.state.kernel, t.state.senders.isrQueue, TrackStep(t, IsrSend);
      var value := Value(true, Count(t.sent, true));
      if |k.queues[q]| < k.length then
        && after.state.kernel.queues == k.queues[q := k.queues[q] + [value]]
        && after.state.kernel.handles == k.handles + [q] && |after.sent| == |t.sent| + 1
      else after.state == t.state && after.sent == t.sent
  {
  }

  /** If a receive did find its queue empty, it would be flagged, and what the variable held would be checked. */
  lemma FailedReceiveIsFlagged(s: State, stack: U32)
    requires WellFormed(s)
    ensures s.hand.Selected? && s.kernel.queues[s.hand.queue] == [] ==>
              var after := Step(s, TaskReceive(stack));
              !after.checker.passing && after.hand == Holding(stack) && after.kernel == s.kernel
    ensures s.kernel.handles != [] && s.kernel.queues[s.kernel.handles[0]] == [] ==>
              var after := Step(s, IsrReceive(stack));
              !after.checker.passing && after.kernel == s.kernel.(handles := s.kernel.handles[1..])
  {
  }

  /** The interrupt's n-th message goes to queue n modulo the number of queues. */
  predicate TurnAt(message: Message, queues: nat)
    requires 0 < queues
  {
    message.fromIsr ==> message.queue == message.number % queues
  }

  predicate TakesTurns(t: Track) {
    var queues := |t.state.kernel.queues|;
    && 0 < queues && t.state.senders.isrQueue == Count(t.sent, true) % queues
    && forall i | 0 <= i < |t.sent| :: TurnAt(t.sent[i], queues)
  }

  lemma TurnsAppend(sent: seq<Message>, m: Message, queues: nat)
    requires 0 < queues && (forall i | 0 <= i < |sent| :: TurnAt(sent[i], queues)) && TurnAt(m, queues)
    ensures forall i | 0 <= i < |sent + [m]| :: TurnAt((sent + [m])[i], queues)
  {
  }

  lemma IsrSendTakesTurns(t: Track)
    requires Valid(t) && TakesTurns(t) && t.state.kernel.HasRoom(t.state.senders.isrQueue)
    ensures TakesTurns(TrackStep(t, IsrSend))
  {
    var m, queues := NextMessage(t.sent, true, t.state.senders.isrQueue), |t.state.kernel.queues|;
    SendKeepsChecked(t, m, true);
    NextRemainder(Count(t.sent, true), queues);
    TurnsAppend(t.sent, m, queues);
    assert TrackStep(t, IsrSend).sent == t.sent + [m];
  }

  lemma TaskSendTakesTurns(t: Track, q: nat)
    requires Valid(t) && TakesTurns(t) && q < |t.state.kernel.queues| && t.state.kernel.HasRoom(q)
    ensures TakesTurns(TrackStep(t, TaskSend(q)))
  {
    var m := NextMessage(t.sent, false, q);
    SendKeepsChecked(t, m, true);
    TurnsAppend(t.sent, m, |t.state.kernel.queues|);
    assert TrackStep(t, TaskSend(q)).sent == t.sent + [m];
  }

  lemma StepTakesTurns(t: Track, e: Event)
    requires Valid(t) && TakesTurns(t)
    ensures TakesTurns(TrackStep(t, e))
  {
    var k := t.state.kernel;
    if e.TaskSend? && e.queue < |k.queues| && k.HasRoom(e.queue) {
      TaskSendTakesTurns(t, e.queue);
    } else if e.IsrSend? && k.HasRoom(t.state.senders.isrQueue) {
      IsrSendTakesTurns(t);
    } else {
      var next := TrackStep(t, e);
      assert next.sent == t.sent && next.state.senders == t.state.senders;
      assert |next.state.kernel.queues| == |k.queues|;
    }
  }

  /** Over every run, so all the queues of the set are used in turn. */
  lemma {:induction false} EveryRunTakesTurns(start: Track, events: seq<Event>)
    requires Valid(start) && TakesTurns(start)
    ensures TakesTurns(TrackRun(start, events))
  {
    if events != [] {
      var last := |events| - 1;
      EveryRunTakesTurns(start, events[..last]);
      StepTakesTurns(TrackRun(start, events[..last]), events[last]);
    }
  }

  lemma StartTakesTurns(queues: nat, length: nat)
    requires 0 < queues
    ensures TakesTurns(Start(queues, length))
  {
    RemainderUnique(0, queues, 0, 0);
  }

  // ---- How far out of order the check sees the values ----

  function Period(fromIsr: bool): nat {
    if fromIsr then 0xFFFF_0001 else 0xFFFF
  }

  /** Whether a source's number-th value is too near an end of its range to be tested. */
  predicate Untested(fromIsr: bool, number: nat) {
    var place := number % Period(fromIsr);
    place < IGNORED_BOUNDARY || Period(fromIsr) - 1 - place <= IGNORED_BOUNDARY
  }

  /** What the test accepts: a value that it ignores, or one within three of the expected, around the range. */
  lemma AcceptedExactly(fromIsr: bool, number: nat, lag: int)
    requires number + lag >= 0
    ensures Acceptable(Value(fromIsr, number), Value(fromIsr, number + lag))
       <==> Untested(fromIsr, number) || lag % Period(fromIsr) <= 3 || lag % Period(fromIsr) >= Period(fromIsr) - 3
  {
    if fromIsr {
      PlaceAfter(number, lag, 0xFFFF_0001);
    } else {
      PlaceAfter(number, lag, 0xFFFF);
    }
  }

  lemma PlaceAfter(number: nat, lag: int, period: nat)
    requires number + lag >= 0 && 0 < period
    ensures
      var place, ahead := number % period, lag % period;
      (number + lag) % period == if place + ahead < period then place + ahead else place + ahead - period
  {
    RemainderOfSum(number, lag, period);
    RemainderOfSum(lag, number % period, period);
    assert number % period + lag == lag + number % period;
    var sum := number % period + lag % period;
    RemainderUnique(sum, period, if sum < period then 0 else 1, if sum < period then sum else sum - period);
  }

  /** How many values of the source of message r have been checked in excess of those sent before it. */
  function Lag(t: Track, r: nat): int
    requires t.edge <= |t.sent| && r < |t.sent|
    requires t.held.Some? ==> t.held.value < |t.sent|
  {
    Checked(t, t.sent[r].fromIsr) - t.sent[r].number
  }

  /** The task's message was overtaken only by those the interrupt took since the selection. */
  lemma HeldLag(t: Track)
    requires Valid(t) && t.held.Some?
    ensures 0 <= Lag(t, t.held.value) <= t.window
  {
    var i := t.held.value;
    var fromIsr := t.sent[i].fromIsr;
    assert NumberedAt(t.sent, i, |t.state.kernel.queues|);
    CountNext(t.sent, i, fromIsr);
    CountMonotone(t.sent, i + 1, t.edge, fromIsr);
  }

  lemma EdgeLag(t: Track)
    requires Valid(t) && t.edge < |t.sent|
    ensures -1 <= Lag(t, t.edge) <= 0
  {
    assert NumberedAt(t.sent, t.edge, |t.state.kernel.queues|);
  }

  /** Whether the check of message r passes. */
  predicate Passes(t: Track, r: nat)
    requires t.edge <= |t.sent| && r < |t.sent|
    requires t.held.Some? ==> t.held.value < |t.sent|
  {
    var period := Period(t.sent[r].fromIsr);
    Untested(t.sent[r].fromIsr, t.sent[r].number) || Lag(t, r) % period <= 3 || Lag(t, r) % period >= period - 3
  }

  lemma CheckPassesExactly(t: Track, r: nat)
    requires Valid(t) && r < |t.sent|
    ensures t.sent[r].value == Value(t.sent[r].fromIsr, t.sent[r].number)
    ensures Check(t.state.checker, t.sent[r].value).passing <==> t.state.checker.passing && Passes(t, r)
  {
    assert NumberedAt(t.sent, r, |t.state.kernel.queues|);
    AcceptedExactly(t.sent[r].fromIsr, t.sent[r].number, Lag(t, r));
  }

  /** The task's check passes exactly when few enough values of that source overtook the one in hand. */
  lemma TaskCheckPasses(t: Track)
    requires Valid(t) && t.state.hand.Holding?
    ensures TrackStep(t, TaskCheck).state.checker.passing <==> t.state.checker.passing && Passes(t, t.held.value)
  {
    CheckPassesExactly(t, t.held.value);
  }

  /** And so does the interrupt's. */
  lemma IsrCheckPasses(t: Track, stack: U32)
    requires Valid(t) && t.state.kernel.handles != []
    ensures t.edge < |t.sent| && IsrMessage(t) < |t.sent|
    ensures TrackStep(t, IsrReceive(stack)).state.checker.passing
       <==> t.state.checker.passing && Passes(t, IsrMessage(t))
  {
    IsrReceiveFinds(t);
    CheckPassesExactly(t, IsrMessage(t));
  }

  /** The message that a step checks, if it checks one. */
  function CheckedBy(t: Track, e: Event): Option<nat>
    requires WellFormed(t.state) && HandsAgree(t)
  {
    if e.TaskCheck? && t.state.hand.Holding? then t.held
    else if e.IsrReceive? && t.state.kernel.handles != [] then Some(IsrMessage(t))
    else None
  }

  predicate StepPasses(t: Track, e: Event)
    requires Valid(t)
  {
    var r := CheckedBy(t, e);
    r.Some? ==> r.value < |t.sent| && Passes(t, r.value)
  }

  /** A step flags an error exactly when it checks a message that does not pass. */
  lemma StepPassesExactly(t: Track, e: Event)
    requires Valid(t)
    ensures TrackStep(t, e).state.checker.passing <==> t.state.checker.passing && StepPasses(t, e)
  {
    match e
    case TaskReceive(stack) => if t.state.hand.Selected? { ReceiveKeepsValid(t, stack); }
    case TaskCheck => if t.state.hand.Holding? { TaskCheckPasses(t); }
    case IsrReceive(stack) => if t.state.kernel.handles != [] { IsrCheckPasses(t, stack); }
    case _ =>
  }

  /** Every check of a run passes. */
  predicate AllPass(start: Track, events: seq<Event>)
    requires Valid(start)
  {
    events == []
    || (var last := |events| - 1;
        AllPass(start, events[..last]) && StepPasses(TrackRun(start, events[..last]), events[last]))
  }

  /** Over every run: the status is still passing at the end exactly when each check was of a value that passes. */
  lemma {:induction false} RunPassesExactly(start: Track, events: seq<Event>)
    requires Valid(start)
    ensures TrackRun(start, events).state.checker.passing <==> start.state.checker.passing && AllPass(start, events)
  {
    if events != [] {
      var last := |events| - 1;
      RunPassesExactly(start, events[..last]);
      StepPassesExactly(TrackRun(start, events[..last]), events[last]);
    }
  }

  /** A check while the task has a selection finds at most so many of the interrupt's receives since then. */
  predicate Timely(t: Track, e: Event, most: nat) {
    (e.TaskCheck? || e.IsrReceive?) && t.held.Some? ==> t.window <= most
  }

  /** A lag of -1 to 3 is within the deviation the check allows. */
  lemma SmallLag(t: Track, r: nat)
    requires t.edge <= |t.sent| && r < |t.sent|
    requires t.held.Some? ==> t.held.value < |t.sent|
    requires -1 <= Lag(t, r) <= 3
    ensures Passes(t, r)
  {
    SmallRemainder(Lag(t, r));
  }

  lemma SmallRemainder(lag: int)
    requires -1 <= lag <= 3
    ensures lag % 0xFFFF == (if lag < 0 then 0xFFFE else lag)
    ensures lag % 0xFFFF_0001 == (if lag < 0 then 0xFFFF_0000 else lag)
  {
  }

  lemma TimelyStepPasses(t: Track, e: Event)
    requires Valid(t) && Timely(t, e, ALLOWABLE_RX_DEVIATION)
    ensures StepPasses(t, e)
  {
    match e
    case TaskCheck =>
      if t.state.hand.Holding? {
        HeldLag(t);
        SmallLag(t, t.held.value);
      }
    case IsrReceive(_) =>
      if t.state.kernel.handles != [] {
        IsrReceiveFinds(t);
        EdgeLag(t);
        if t.held.Some? { HeldLag(t); }
        SmallLag(t, IsrMessage(t));
      }
    case _ =>
  }

  predicate AllTimely(start: Track, events: seq<Event>, most: nat)
    requires Valid(start)
  {
    events == []
    || (var last := |events| - 1;
        AllTimely(start, events[..last], most) && Timely(TrackRun(start, events[..last]), events[last], most))
  }

  /** While the interrupt takes at most three messages within a select, receive and check, no error is flagged. */
  lemma {:induction false} TimelyRunPasses(start: Track, events: seq<Event>)
    requires Valid(start) && start.state.checker.passing
    ensures AllTimely(start, events, ALLOWABLE_RX_DEVIATION) ==> TrackRun(start, events).state.checker.passing
  {
    if events != [] && AllTimely(start, events, ALLOWABLE_RX_DEVIATION) {
      var last := |events| - 1;
      var before := TrackRun(start, events[..last]);
      TimelyRunPasses(start, events[..last]);
      TimelyStepPasses(before, events[last]);
      StepPassesExactly(before, events[last]);
    }
  }

  // ---- What is received, against what is sent ----

  /** The value of the message that the task has selected and not yet checked. */
  function InHand(t: Track): seq<U32>
    requires t.held.Some? ==> t.held.value < |t.sent|
  {
    if t.held.Some? then [t.sent[t.held.value].value] else []
  }

  /** The values of the messages selected by either receiver, in the order sent. */
  function SelectedValues(t: Track): seq<U32>
    requires t.edge <= |t.sent|
  {
    Values(t.sent[..t.edge])
  }

  lemma NextSelected(t: Track)
    requires t.edge < |t.sent|
    ensures Values(t.sent[..t.edge + 1]) == SelectedValues(t) + [t.sent[t.edge].value]
  {
  }

  lemma SelectTakes(t: Track)
    requires Valid(t) && t.state.hand.Idle? && t.state.kernel.handles != []
    ensures
      var next := TrackStep(t, TaskSelect);
      && next.edge <= |next.sent| && (next.held.Some? ==> next.held.value < |next.sent|)
      && InHand(t) == [] && |InHand(next)| == 1
      && SelectedValues(next) == SelectedValues(t) + InHand(next)
  {
    NextSelected(t);
  }

  lemma IsrReceiveTakes(t: Track, stack: U32)
    requires Valid(t) && t.state.kernel.handles != []
    ensures
      var next, taken := TrackStep(t, IsrReceive(stack)), Taken(t.state, IsrReceive(stack));
      && next.edge <= |next.sent| && (next.held.Some? ==> next.held.value < |next.sent|)
      && if t.state.hand == Selected(t.state.kernel.handles[0])
         then taken == InHand(t) && SelectedValues(next) == SelectedValues(t) + InHand(next)
         else InHand(next) == InHand(t) && SelectedValues(next) == SelectedValues(t) + taken
  {
    IsrReceiveFinds(t);
    NextSelected(t);
  }

  /** The steps that do not select: only the check takes the value in hand. */
  lemma OtherStepTakes(t: Track, e: Event)
    requires Valid(t)
    requires e.TaskSelect? || e.IsrReceive? ==> TrackStep(t, e) == t && Taken(t.state, e) == []
    ensures
      var next := TrackStep(t, e);
      && next.edge <= |next.sent| && (next.held.Some? ==> next.held.value < |next.sent|)
      && SelectedValues(next) == SelectedValues(t)
      && if e.TaskCheck? && t.state.hand.Holding? then Taken(t.state, e) == InHand(t) && InHand(next) == []
         else Taken(t.state, e) == [] && InHand(next) == InHand(t)
  {
    var next := TrackStep(t, e);
    assert next.sent[..next.edge] == t.sent[..t.edge];
  }

  /** Every value selected has been passed to the check once, but for the one in the task's hand. */
  predicate CheckedOnce(t: Track, log: seq<U32>) {
    Valid(t) && multiset(log) + multiset(InHand(t)) == multiset(SelectedValues(t))
  }

  lemma AppendConserves(log: seq<U32>, hand: seq<U32>, selected: seq<U32>, next: seq<U32>)
    requires multiset(log) + multiset(hand) == multiset(selected)
    ensures multiset(log + hand) + multiset(next) == multiset(selected + next)
    ensures multiset(log + next) + multiset(hand) == multiset(selected + next)
  {
  }

  lemma StepConserves(t: Track, e: Event, log: seq<U32>)
    requires CheckedOnce(t, log)
    ensures CheckedOnce(TrackStep(t, e), log + Taken(t.state, e))
  {
    StepKeepsValid(t, e);
    if e.TaskSelect? && t.state.hand.Idle? && t.state.kernel.handles != [] {
      SelectTakes(t);
    } else if e.IsrReceive? && t.state.kernel.handles != [] {
      IsrReceiveTakes(t, e.stack);
      AppendConserves(log, InHand(t), SelectedValues(t), InHand(TrackStep(t, e)));
      AppendConserves(log, InHand(t), SelectedValues(t), Taken(t.state, e));
    } else {
      OtherStepTakes(t, e);
    }
  }

  /** With both receivers at work no value is lost or checked twice. */
  lemma {:induction false} EveryValueCheckedOnce(start: Track, events: seq<Event>)
    requires Valid(start) && Unselected(start)
    ensures CheckedOnce(TrackRun(start, events), Log(start, events))
  {
    if events != [] {
      var last := |events| - 1;
      EveryValueCheckedOnce(start, events[..last]);
      StepConserves(TrackRun(start, events[..last]), events[last], Log(start, events[..last]));
    }
  }

  predicate OnlyTaskReceives(events: seq<Event>) {
    forall k | 0 <= k < |events| :: !events[k].IsrReceive?
  }

  /** What the task holds is the last message selected, and nothing was taken since. */
  predicate InTurn(t: Track) {
    t.window == 0 && (t.held.Some? ==> t.held.value == t.edge - 1)
  }

  /** The values checked and the one in hand are those sent, in the order sent. */
  predicate InOrder(t: Track, log: seq<U32>) {
    Valid(t) && InTurn(t) && log + InHand(t) == SelectedValues(t)
  }

  lemma StepInOrder(t: Track, e: Event, log: seq<U32>)
    requires InOrder(t, log) && !e.IsrReceive?
    ensures InOrder(TrackStep(t, e), log + Taken(t.state, e))
  {
    StepKeepsValid(t, e);
    if e.TaskSelect? && t.state.hand.Idle? && t.state.kernel.handles != [] {
      SelectTakes(t);
    } else {
      OtherStepTakes(t, e);
    }
  }

  /** When the task alone receives, the set and its queues are one first-in-first-out queue. */
  lemma {:induction false} LoneReceiverKeepsOrder(start: Track, events: seq<Event>)
    requires Valid(start) && Unselected(start) && OnlyTaskReceives(events)
    ensures InOrder(TrackRun(start, events), Log(start, events))
  {
    if events != [] {
      var last := |events| - 1;
      LoneReceiverKeepsOrder(start, events[..last]);
      StepInOrder(TrackRun(start, events[..last]), events[last], Log(start, events[..last]));
    }
  }

  /** And each value is then exactly the one its source's counter expects. */
  lemma LoneReceiverMeetsItsCounter(start: Track, events: seq<Event>)
    requires Valid(start) && Unselected(start) && OnlyTaskReceives(events)
    ensures
      var s := TrackRun(start, events).state;
      s.hand.Holding? ==>
        s.hand.value == if s.hand.value >= INITIAL_ISR_TX_VALUE then s.checker.expectedFromIsr
                        else s.checker.expectedFromTask
  {
    LoneReceiverKeepsOrder(start, events);
    if TrackRun(start, events).state.hand.Holding? {
      ExpectedIsHeld(TrackRun(start, events));
    }
  }

  lemma ExpectedIsHeld(t: Track)
    requires Valid(t) && InTurn(t) && t.state.hand.Holding?
    ensures
      var s := t.state;
      s.hand.value == if s.hand.value >= INITIAL_ISR_TX_VALUE then s.checker.expectedFromIsr
                      else s.checker.expectedFromTask
  {
    HeldLag(t);
    assert NumberedAt(t.sent, t.held.value, |t.state.kernel.queues|);
  }
}
