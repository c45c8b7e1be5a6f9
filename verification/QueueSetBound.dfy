/**
 The deviation that the check allows, three, against the number of the interrupt's
 receives within a select, receive and check of the task: a run in which four fall
 there, and the bound that follows, for any number of queues of any length.
 */
module QueueSetBound {
  import opened Machine
  import opened QueueSet
  import opened QueueSetOrder
  import opened QueueSetRuns

  /** Only the interrupt has sent, n messages, and none is waiting; the task holds nothing or a value to check. */
  predicate Drained(t: Track, n: nat, held: Option<nat>, window: nat) {
    && Valid(t) && 0 < t.state.kernel.length
    && |t.sent| == n == t.edge && (forall i | 0 <= i < n :: t.sent[i].fromIsr)
    && !t.state.hand.Selected? && t.held == held && t.window == window
  }

  lemma {:induction false} AllCount(messages: seq<Message>)
    requires forall i | 0 <= i < |messages| :: messages[i].fromIsr
    ensures Count(messages, true) == |messages|
  {
    if messages != [] { AllCount(messages[..|messages| - 1]); }
  }

  /** With nothing waiting every queue is empty, and so is the set. */
  lemma DrainedHasRoom(t: Track, n: nat, held: Option<nat>, window: nat)
    requires Drained(t, n, held, window)
    ensures t.state.kernel.handles == []
    ensures forall q | 0 <= q < |t.state.kernel.queues| :: t.state.kernel.queues[q] == [] && t.state.kernel.HasRoom(q)
  {
    forall q | 0 <= q < |t.state.kernel.queues|
      ensures t.state.kernel.queues[q] == [] && t.state.kernel.HasRoom(q)
    {
      assert t.state.kernel.queues[q] == Expected(t, q);
    }
  }

  /** The interrupt's next message, alone in its queue and in the set. */
  lemma Send(t: Track, n: nat, held: Option<nat>, window: nat)
    requires Drained(t, n, held, window)
    ensures
      var sent := TrackStep(t, IsrSend);
      && Valid(sent) && 0 < sent.state.kernel.length
      && |sent.sent| == n + 1 && sent.edge == n && (forall i | 0 <= i < n + 1 :: sent.sent[i].fromIsr)
      && sent.state.kernel.handles == [t.state.senders.isrQueue]
      && sent.state.hand == t.state.hand && sent.held == held && sent.window == window
  {
    DrainedHasRoom(t, n, held, window);
    StepKeepsValid(t, IsrSend);
    assert t.state.kernel.handles + [t.state.senders.isrQueue] == [t.state.senders.isrQueue];
  }

  /** The interrupt sends and receives it again. */
  lemma Bounce(t: Track, n: nat, held: Option<nat>, window: nat)
    requires Drained(t, n, held, window)
    ensures Valid(TrackStep(t, IsrSend))
    ensures Drained(TrackStep(TrackStep(t, IsrSend), IsrReceive(0)), n + 1, held, window + 1)
  {
    Send(t, n, held, window);
    StepKeepsValid(TrackStep(t, IsrSend), IsrReceive(0));
  }

  /** The task selects and receives it. */
  lemma Take(t: Track, n: nat, window: nat)
    requires Drained(t, n, None, window)
    ensures
      var sent := TrackStep(t, IsrSend);
      var selected := TrackStep(sent, TaskSelect);
      Valid(sent) && Valid(selected) && Drained(TrackStep(selected, TaskReceive(0)), n + 1, Some(n), 0)
  {
    Send(t, n, None, window);
    var sent := TrackStep(t, IsrSend);
    StepKeepsValid(sent, TaskSelect);
    ReceiveKeepsValid(TrackStep(sent, TaskSelect), 0);
  }

  lemma RunNext(start: Track, events: seq<Event>, e: Event, most: nat)
    requires Valid(start)
    ensures TrackRun(start, events + [e]) == TrackStep(TrackRun(start, events), e)
    ensures AllTimely(start, events + [e], most)
       <==> AllTimely(start, events, most) && Timely(TrackRun(start, events), e, most)
  {
    assert (events + [e])[..|events|] == events;
  }

  /** A run that is timely so far and has come to a drained state. */
  predicate Reached(start: Track, events: seq<Event>, most: nat, n: nat, held: Option<nat>, window: nat)
    requires Valid(start)
  {
    AllTimely(start, events, most) && Drained(TrackRun(start, events), n, held, window)
  }

  lemma BounceOnce(start: Track, events: seq<Event>, most: nat, n: nat, held: Option<nat>, window: nat)
    returns (longer: seq<Event>)
    requires Valid(start) && Reached(start, events, most, n, held, window) && (held.Some? ==> window <= most)
    ensures Reached(start, longer, most, n + 1, held, window + 1)
  {
    Bounce(TrackRun(start, events), n, held, window);
    RunNext(start, events, IsrSend, most);
    RunNext(start, events + [IsrSend], IsrReceive(0), most);
    longer := events + [IsrSend] + [IsrReceive(0)];
  }

  lemma {:induction false} Bounces(start: Track, events: seq<Event>, most: nat,
                                   n: nat, held: Option<nat>, window: nat, k: nat) returns (longer: seq<Event>)
    requires Valid(start) && Reached(start, events, most, n, held, window)
    requires held.Some? ==> window + k <= most
    ensures Reached(start, longer, most, n + k, held, window + k)
  {
    longer := events;
    if k > 0 {
      var before := Bounces(start, events, most, n, held, window, k - 1);
      longer := BounceOnce(start, before, most, n + k - 1, held, window + k - 1);
    }
  }

  lemma Taken(start: Track, events: seq<Event>, most: nat, n: nat, window: nat) returns (longer: seq<Event>)
    requires Valid(start) && Reached(start, events, most, n, None, window)
    ensures Reached(start, longer, most, n + 1, Some(n), 0)
  {
    Take(TrackRun(start, events), n, window);
    RunNext(start, events, IsrSend, most);
    RunNext(start, events + [IsrSend], TaskSelect, most);
    RunNext(start, events + [IsrSend] + [TaskSelect], TaskReceive(0), most);
    longer := events + [IsrSend] + [TaskSelect] + [TaskReceive(0)];
  }

  /** The seventh message, checked after four later ones, is too far behind its counter. */
  lemma FourAheadFails(t: Track)
    requires Drained(t, 11, Some(6), 4)
    ensures t.state.hand.Holding? && !StepPasses(t, TaskCheck)
  {
    assert NumberedAt(t.sent, 6, |t.state.kernel.queues|);
    assert t.sent[..11] == t.sent;
    AllCount(t.sent);
    AllCount(t.sent[..6]);
    assert Lag(t, 6) == 4;
  }

  /** Six messages sent and received, one selected and received by the task, four more, and then the check. */
  lemma LateRun(queues: nat, length: nat, most: nat) returns (events: seq<Event>)
    requires 0 < queues && 0 < length && 4 <= most
    ensures AllTimely(Start(queues, length), events, most)
    ensures !TrackRun(Start(queues, length), events).state.checker.passing
  {
    var start := Start(queues, length);
    assert Reached(start, [], most, 0, None, 0);
    var six := Bounces(start, [], most, 0, None, 0, 6);
    var held := Taken(start, six, most, 6, 6);
    var late := Bounces(start, held, most, 7, Some(6), 0, 4);
    FourAheadFails(TrackRun(start, late));
    RunNext(start, late, TaskCheck, most);
    StepPassesExactly(TrackRun(start, late), TaskCheck);
    events := late + [TaskCheck];
  }

  /**
   For any number of queues and any length of them, all runs with at most so many of
   the interrupt's receives since a select pass exactly if these are at most three.
   */
  lemma DeviationIsExact(queues: nat, length: nat, most: nat)
    requires 0 < queues && 0 < length
    ensures (forall events | AllTimely(Start(queues, length), events, most) ::
               TrackRun(Start(queues, length), events).state.checker.passing)
       <==> most <= ALLOWABLE_RX_DEVIATION
  {
    var start := Start(queues, length);
    if most <= ALLOWABLE_RX_DEVIATION {
      forall events | AllTimely(start, events, most) ensures TrackRun(start, events).state.checker.passing {
        FewerIsTimely(start, events, most);
        TimelyRunPasses(start, events);
      }
    } else {
      var events := LateRun(queues, length, most);
      assert AllTimely(start, events, most);
    }
  }

  lemma {:induction false} FewerIsTimely(start: Track, events: seq<Event>, most: nat)
    requires Valid(start) && most <= ALLOWABLE_RX_DEVIATION
    ensures AllTimely(start, events, most) ==> AllTimely(start, events, ALLOWABLE_RX_DEVIATION)
  {
    if events != [] { FewerIsTimely(start, events[..|events| - 1], most); }
  }
}
