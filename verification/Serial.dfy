/**
 The interrupt-driven serial port as a protocol: what each step between two
 scheduling points does, what every step keeps, and what holds over any
 interleaving of the steps of any number of tasks with the interrupts.

 A put runs in a critical section, so it is one step up to where it blocks on a
 full queue; it goes on in a later step when its task is scheduled again. The
 interrupt service routine is one step.
 */
module Serial {
  import opened Machine

  type Task = nat

  /** The transmitter: the bytes written to U0THR, and whether the last one still awaits its THRE interrupt. */
  datatype Transmitter = Transmitter(sent: seq<U8>, owed: bool, overrun: bool)
  {
    /** Writing U0THR before the interrupt for the byte before it overwrites that byte. */
    function Write(c: U8): Transmitter {
      Transmitter(sent + [c], true, overrun || owed)
    }
  }

  /** The receive queue with what went into it, came out of it and found it full. */
  datatype Receiver = Receiver(capacity: nat, queue: seq<U8>, stored: seq<U8>, delivered: seq<U8>, dropped: nat)
  {
    predicate Valid() {
      |queue| <= capacity && delivered + queue == stored
    }
  }

  datatype Port = Port(
    capacity: nat,              // length of xCharsForTx
    thrEmpty: bool,             // lTHREEmpty
    queue: seq<U8>,             // xCharsForTx
    blocked: map<Task, U8>,     // puts waiting for room, with their characters
    uart: Transmitter,
    receiver: Receiver,
    accepted: seq<U8>)          // the characters admitted, in order
  {
    /**
     No byte is overwritten; the flag says exactly that no byte awaits its
     interrupt, and then nothing is queued; and what was sent followed by what is
     queued is what was accepted.
     */
    predicate Valid() {
      && 1 <= capacity && |queue| <= capacity
      && !uart.overrun
      && (thrEmpty <==> !uart.owed)
      && (thrEmpty ==> queue == [])
      && uart.sent + queue == accepted
      && receiver.Valid()
    }

    /** The test after xQueueSend in a put: with the transmitter idle, take the head of the queue and send it. */
    function Restart(c: U8): Port {
      if !thrEmpty then this
      else if queue == [] then this.(thrEmpty := false, uart := uart.Write(c))
      else this.(thrEmpty := false, queue := queue[1..], uart := uart.Write(queue[0]))
    }

    function Enqueue(c: U8): Port {
      this.(queue := queue + [c], accepted := accepted + [c])
    }
  }

  datatype Outcome = Nothing | Pass | Full | Waiting

  datatype Event =
    | Put(task: Task, c: U8, mayWait: bool)
    | Resume(task: Task, expired: bool)
    | ThreInterrupt
    | RxInterrupt(c: U8)
    | OtherInterrupt
    | Get
  {
    /** A task has one put at a time, and the THRE interrupt comes for a byte written. */
    predicate Enabled(s: Port) {
      match this
      case Put(t, _, _) => t !in s.blocked
      case Resume(t, _) => t in s.blocked
      case ThreInterrupt => s.uart.owed
      case _ => true
    }
  }

  function PutStep(s: Port, t: Task, c: U8, mayWait: bool): (Port, Outcome) {
    if s.thrEmpty then
      (s.(thrEmpty := false, uart := s.uart.Write(c), accepted := s.accepted + [c]), Pass)
    else if |s.queue| < s.capacity then (s.Enqueue(c).Restart(c), Pass)
    else if !mayWait then (s.Restart(c), Full)
    else (s.(blocked := s.blocked[t := c]), Waiting)
  }

  /** The kernel retries the send when the task runs again, before it looks at the block time. */
  function ResumeStep(s: Port, t: Task, expired: bool): (Port, Outcome)
    requires t in s.blocked
  {
    var c := s.blocked[t];
    var woken := s.(blocked := s.blocked - {t});
    if |s.queue| < s.capacity then (woken.Enqueue(c).Restart(c), Pass)
    else if expired then (woken.Restart(c), Full)
    else (s, Waiting)
  }

  function ThreStep(s: Port): Port {
    var done := s.(uart := s.uart.(owed := false));
    if s.queue == [] then done.(thrEmpty := true)
    else done.(queue := s.queue[1..], uart := done.uart.Write(s.queue[0]))
  }

  function RxStep(r: Receiver, c: U8): Receiver {
    if |r.queue| < r.capacity then r.(queue := r.queue + [c], stored := r.stored + [c])
    else r.(dropped := r.dropped + 1)
  }

  function GetStep(r: Receiver): (Receiver, Outcome) {
    if r.queue == [] then (r, Full)
    else (r.(queue := r.queue[1..], delivered := r.delivered + [r.queue[0]]), Pass)
  }

  function Step(s: Port, e: Event): (Port, Outcome)
    requires e.Enabled(s)
  {
    match e
    case Put(t, c, mayWait) => PutStep(s, t, c, mayWait)
    case Resume(t, expired) => ResumeStep(s, t, expired)
    case ThreInterrupt => (ThreStep(s), Nothing)
    case RxInterrupt(c) => (s.(receiver := RxStep(s.receiver, c)), Nothing)
    case OtherInterrupt => (s, Nothing)
    case Get => var (r, outcome) := GetStep(s.receiver); (s.(receiver := r), outcome)
  }

  lemma QueueOut(sent: seq<U8>, queue: seq<U8>)
    requires queue != []
    ensures sent + [queue[0]] + queue[1..] == sent + queue
  {
    assert queue == [queue[0]] + queue[1..];
  }

  /** The transmit protocol is kept by a put, whether it passes, fails, blocks or restarts the transmitter. */
  lemma PutKeepsValid(s: Port, t: Task, c: U8, mayWait: bool)
    requires s.Valid()
    ensures PutStep(s, t, c, mayWait).0.Valid()
  {
    assert s.uart.sent + (s.queue + [c]) == s.accepted + [c];
    assert s.queue == [] ==> s.uart.sent + [c] + [] == s.accepted + [c];
  }

  /**
   The restart after blocking: if the interrupts emptied the queue meanwhile, the
   queue holds just this put's own character, which goes out at once.
   */
  lemma ResumeKeepsValid(s: Port, t: Task, expired: bool)
    requires s.Valid() && t in s.blocked
    ensures ResumeStep(s, t, expired).0.Valid()
  {
    var c := s.blocked[t];
    assert s.uart.sent + (s.queue + [c]) == s.accepted + [c];
    if s.thrEmpty {
      assert (s.queue + [c])[1..] == [];
      assert s.uart.sent + [c] + [] == s.accepted + [c];
    }
  }

  lemma ThreKeepsValid(s: Port)
    requires s.Valid() && s.uart.owed
    ensures ThreStep(s).Valid()
  {
    if s.queue != [] { QueueOut(s.uart.sent, s.queue); }
  }

  lemma ReceiveKeepsValid(r: Receiver, c: U8)
    requires r.Valid()
    ensures RxStep(r, c).Valid() && GetStep(r).0.Valid()
  {
    assert r.delivered + (r.queue + [c]) == r.stored + [c];
    if r.queue != [] { QueueOut(r.delivered, r.queue); }
  }

  lemma StepKeepsValid(s: Port, e: Event)
    requires s.Valid() && e.Enabled(s)
    ensures Step(s, e).0.Valid() && Step(s, e).0.capacity == s.capacity
  {
    match e
    case Put(t, c, mayWait) => PutKeepsValid(s, t, c, mayWait);
    case Resume(t, expired) => ResumeKeepsValid(s, t, expired);
    case ThreInterrupt => ThreKeepsValid(s);
    case RxInterrupt(c) => ReceiveKeepsValid(s.receiver, c);
    case OtherInterrupt =>
    case Get => ReceiveKeepsValid(s.receiver, 0);
  }

  /**
   When a put passes, fails or waits: it passes exactly if the transmitter is idle or
   the queue has room, and otherwise waits exactly if it may.
   */
  lemma PutOutcomeExactly(s: Port, t: Task, c: U8, mayWait: bool)
    requires t !in s.blocked
    ensures
      var outcome := Step(s, Put(t, c, mayWait)).1;
      && (outcome == Pass <==> s.thrEmpty || |s.queue| < s.capacity)
      && (outcome == Full <==> !s.thrEmpty && |s.queue| >= s.capacity && !mayWait)
      && (outcome == Waiting <==> !s.thrEmpty && |s.queue| >= s.capacity && mayWait)
  {
  }

  /** A blocked put that runs again passes exactly if there is room, and otherwise fails exactly if its time is over. */
  lemma ResumeOutcomeExactly(s: Port, t: Task, expired: bool)
    requires t in s.blocked
    ensures
      var (next, outcome) := Step(s, Resume(t, expired));
      && (outcome == Pass <==> |s.queue| < s.capacity)
      && (outcome == Full <==> |s.queue| >= s.capacity && expired)
      && (outcome == Waiting <==> |s.queue| >= s.capacity && !expired)
      && (t in next.blocked <==> outcome == Waiting)
  {
  }

  /** A get passes exactly if a character is waiting. */
  lemma GetOutcomeExactly(s: Port)
    ensures Step(s, Get).1 == (if s.receiver.queue != [] then Pass else Full)
    ensures s.receiver.queue == [] ==> Step(s, Get).0 == s
  {
  }

  /** The state after a run; events that cannot happen in their state are skipped. */
  function Run(s: Port, events: seq<Event>): Port
    decreases events
  {
    if events == [] then s
    else Run(if events[0].Enabled(s) then Step(s, events[0]).0 else s, events[1..])
  }

  /** The character that a step with this outcome admits. */
  function AdmittedBy(s: Port, e: Event, outcome: Outcome): seq<U8>
    requires e.Enabled(s)
  {
    if outcome != Pass then []
    else if e.Put? then [e.c]
    else if e.Resume? then [s.blocked[e.task]]
    else []
  }

  /** The characters a run admits: those of the puts that return pdPASS, in the order they return. */
  function Admitted(s: Port, events: seq<Event>): seq<U8>
    decreases events
  {
    if events == [] then []
    else if !events[0].Enabled(s) then Admitted(s, events[1..])
    else
      var (next, outcome) := Step(s, events[0]);
      AdmittedBy(s, events[0], outcome) + Admitted(next, events[1..])
  }

  /**
   Over every interleaving, the bytes written to U0THR followed by the transmit
   queue are exactly the characters of the puts that passed, in order: none lost,
   repeated or reordered, and none from a put that failed.
   */
  lemma {:induction false} EveryRunConserves(s: Port, events: seq<Event>)
    requires s.Valid()
    ensures Run(s, events).Valid()
    ensures Run(s, events).uart.sent + Run(s, events).queue == s.uart.sent + s.queue + Admitted(s, events)
    decreases events
  {
    if events != [] {
      var e := events[0];
      if e.Enabled(s) {
        var (next, outcome) := Step(s, e);
        StepKeepsValid(s, e);
        EveryRunConserves(next, events[1..]);
        StepAdmits(s, e);
        var admitted := AdmittedBy(s, e, outcome);
        assert Admitted(s, events) == admitted + Admitted(next, events[1..]);
        assert s.accepted + (admitted + Admitted(next, events[1..])) == next.accepted + Admitted(next, events[1..]);
      } else {
        EveryRunConserves(s, events[1..]);
      }
    }
  }

  /** A step's effect on the accepted characters is its outcome's. */
  lemma StepAdmits(s: Port, e: Event)
    requires s.Valid() && e.Enabled(s)
    ensures
      var (next, outcome) := Step(s, e);
      next.accepted == s.accepted + AdmittedBy(s, e, outcome)
  {
  }

  /** A put that reports failure leaves the queue, the transmitter and the flag as they were. */
  lemma FailedPutIsSilent(s: Port, e: Event)
    requires s.Valid() && e.Enabled(s) && (e.Put? || e.Resume?)
    requires Step(s, e).1 == Full
    ensures Step(s, e).0.(blocked := s.blocked) == s
  {
  }

  /** The dequeue in the restart path always finds a character: its own, alone in the queue. */
  lemma RestartFindsItsOwn(s: Port, t: Task, expired: bool)
    requires s.Valid() && t in s.blocked && s.thrEmpty
    ensures
      var next := ResumeStep(s, t, expired);
      next.1 == Pass && next.0.uart.sent == s.uart.sent + [s.blocked[t]] && next.0.queue == []
  {
  }

  /** A blocked put can always finish: at once, or after the one interrupt that is owed. */
  lemma BlockedPutFinishes(s: Port, t: Task)
    requires s.Valid() && t in s.blocked
    ensures
      var ready := if s.uart.owed then ThreStep(s) else s;
      t in ready.blocked && ready.Valid() && ResumeStep(ready, t, false).1 == Pass
  {
    if s.uart.owed { ThreKeepsValid(s); }
  }

  /** How many THRE interrupts are still to come once no more characters are put. */
  function Backlog(s: Port): nat {
    |s.queue| + if s.uart.owed then 1 else 0
  }

  function Interrupts(s: Port, n: nat): Port {
    if n == 0 then s else ThreStep(Interrupts(s, n - 1))
  }

  /**
   With puts stopped, an interrupt stays owed for exactly Backlog interrupts; then
   the flag is up, the queue is empty and every accepted character has been sent.
   */
  lemma {:induction false} DrainsExactly(s: Port, n: nat)
    requires s.Valid() && n <= Backlog(s)
    ensures Interrupts(s, n).Valid() && Backlog(Interrupts(s, n)) == Backlog(s) - n
    ensures Interrupts(s, n).accepted == s.accepted
    ensures n < Backlog(s) <==> Interrupts(s, n).uart.owed
    ensures n == Backlog(s) ==>
              Interrupts(s, n).thrEmpty && Interrupts(s, n).queue == [] && Interrupts(s, n).uart.sent == s.accepted
  {
    if n > 0 {
      DrainsExactly(s, n - 1);
      ThreKeepsValid(Interrupts(s, n - 1));
    }
  }

  /** A received character is lost just when it finds the receive queue full. */
  lemma DroppedOnlyWhenFull(r: Receiver, c: U8)
    requires r.Valid()
    ensures RxStep(r, c).dropped == r.dropped + 1 <==> |r.queue| == r.capacity
    ensures |RxStep(r, c).stored| + RxStep(r, c).dropped == |r.stored| + r.dropped + 1
  {
  }

  // ---- The receive side ----

  /** The characters of the receive interrupts of a run that found room, in order. */
  function FoundRoom(s: Port, events: seq<Event>): seq<U8>
    decreases events
  {
    if events == [] then []
    else if !events[0].Enabled(s) then FoundRoom(s, events[1..])
    else
      (if events[0].RxInterrupt? && |s.receiver.queue| < s.receiver.capacity then [events[0].c] else [])
      + FoundRoom(Step(s, events[0]).0, events[1..])
  }

  /** How many receive interrupts of a run did not. */
  function FoundFull(s: Port, events: seq<Event>): nat
    decreases events
  {
    if events == [] then 0
    else if !events[0].Enabled(s) then FoundFull(s, events[1..])
    else
      (if events[0].RxInterrupt? && |s.receiver.queue| >= s.receiver.capacity then 1 else 0)
      + FoundFull(Step(s, events[0]).0, events[1..])
  }

  /** A receive interrupt stores the character received, behind the others, if there is room. */
  lemma StepStores(s: Port, e: Event)
    requires e.Enabled(s)
    ensures
      var r, after := s.receiver, Step(s, e).0.receiver;
      var stored := if e.RxInterrupt? && |r.queue| < r.capacity then [e.c] else [];
      && after.delivered + after.queue == r.delivered + r.queue + stored
      && after.capacity == r.capacity && after.delivered[..|r.delivered|] == r.delivered
      && (e.Get? && r.queue != [] ==> after.delivered == r.delivered + [r.queue[0]])
      && after.dropped == r.dropped + if e.RxInterrupt? && |r.queue| >= r.capacity then 1 else 0
  {
    var r := s.receiver;
    match e
    case RxInterrupt(c) => assert r.delivered + (r.queue + [c]) == r.delivered + r.queue + [c];
    case Get => if r.queue != [] { QueueOut(r.delivered, r.queue); }
    case _ =>
  }

  /**
   Over every interleaving, what was delivered and what is queued is what was there
   and the characters received, in order, but for those that found the queue full.
   */
  lemma {:induction false} EveryRunReceives(s: Port, events: seq<Event>)
    ensures
      var r, after := s.receiver, Run(s, events).receiver;
      && after.delivered + after.queue == r.delivered + r.queue + FoundRoom(s, events)
      && after.dropped == r.dropped + FoundFull(s, events)
    decreases events
  {
    if events != [] {
      if events[0].Enabled(s) {
        StepStores(s, events[0]);
        EveryRunReceives(Step(s, events[0]).0, events[1..]);
      } else {
        EveryRunReceives(s, events[1..]);
      }
    }
  }

  // ---- Several tasks ----

  /** A character that a put of a task got admitted. */
  datatype Admission = Admission(task: Task, c: U8)

  function AdmissionOf(s: Port, e: Event): seq<Admission>
    requires e.Enabled(s)
  {
    if Step(s, e).1 != Pass then []
    else if e.Put? then [Admission(e.task, e.c)]
    else if e.Resume? then [Admission(e.task, s.blocked[e.task])]
    else []
  }

  function Admissions(s: Port, events: seq<Event>): seq<Admission>
    decreases events
  {
    if events == [] then []
    else if !events[0].Enabled(s) then Admissions(s, events[1..])
    else AdmissionOf(s, events[0]) + Admissions(Step(s, events[0]).0, events[1..])
  }

  function Characters(admissions: seq<Admission>): (cs: seq<U8>)
    ensures |cs| == |admissions|
    ensures forall i | 0 <= i < |cs| :: cs[i] == admissions[i].c
  {
    seq(|admissions|, i requires 0 <= i < |admissions| => admissions[i].c)
  }

  /** The characters of one task among those admitted, in order. */
  function Of(admissions: seq<Admission>, t: Task): seq<U8> {
    if admissions == [] then []
    else (if admissions[0].task == t then [admissions[0].c] else []) + Of(admissions[1..], t)
  }

  function AskedBy(e: Event, t: Task): seq<U8> {
    if e.Put? && e.task == t then [e.c] else []
  }

  /** The characters that a task asks to put in a run, in order. */
  function Asked(s: Port, events: seq<Event>, t: Task): seq<U8>
    decreases events
  {
    if events == [] then []
    else if !events[0].Enabled(s) then Asked(s, events[1..], t)
    else
      AskedBy(events[0], t) + Asked(Step(s, events[0]).0, events[1..], t)
  }

  /** The character of the put that a task is blocked in. */
  function Pending(s: Port, t: Task): seq<U8> {
    if t in s.blocked then [s.blocked[t]] else []
  }

  /** The task puts without a time limit, as vSerialPutString does. */
  predicate Patient(events: seq<Event>, t: Task) {
    forall i | 0 <= i < |events| ::
      && (events[i].Put? && events[i].task == t ==> events[i].mayWait)
      && (events[i].Resume? && events[i].task == t ==> !events[i].expired)
  }

  lemma {:induction false} OfJoined(first: seq<Admission>, second: seq<Admission>, t: Task)
    ensures Of(first + second, t) == Of(first, t) + Of(second, t)
  {
    if first == [] {
      assert first + second == second;
    } else {
      var head := if first[0].task == t then [first[0].c] else [];
      assert (first + second)[1..] == first[1..] + second;
      OfJoined(first[1..], second, t);
      assert Of(first + second, t) == head + Of(first[1..] + second, t);
      assert head + (Of(first[1..], t) + Of(second, t)) == (head + Of(first[1..], t)) + Of(second, t);
    }
  }

  lemma Joined(one: seq<U8>, more: seq<U8>, last: seq<U8>, next: seq<U8>, asked: seq<U8>, first: seq<U8>, now: seq<U8>)
    requires one + next == first + now
    requires more + last == next + asked
    ensures one + more + last == first + (now + asked)
  {
    assert one + more + last == one + (next + asked);
    assert one + (next + asked) == (one + next) + asked;
    assert (first + now) + asked == first + (now + asked);
  }

  /** What a step admits of a task and leaves pending is what was pending and what it asks. */
  lemma StepIsFair(s: Port, e: Event, t: Task)
    requires s.Valid() && e.Enabled(s) && Patient([e], t)
    ensures Of(AdmissionOf(s, e), t) + Pending(Step(s, e).0, t)
         == Pending(s, t) + AskedBy(e, t)
  {
    assert [e][0] == e;
    assert forall u: Task, c: U8 :: Of([Admission(u, c)], t) == if u == t then [c] else [];
  }

  /**
   Over every interleaving with any other tasks, the characters of a task that puts
   without a time limit are admitted in its own order, all but one it is blocked in.
   */
  lemma {:induction false} EveryTaskInOrder(s: Port, events: seq<Event>, t: Task)
    requires s.Valid() && Patient(events, t)
    ensures Of(Admissions(s, events), t) + Pending(Run(s, events), t) == Pending(s, t) + Asked(s, events, t)
    decreases events
  {
    if events != [] {
      var e, rest := events[0], events[1..];
      assert Patient(rest, t) by {
        assert forall i | 0 <= i < |rest| :: rest[i] == events[i + 1];
      }
      if e.Enabled(s) {
        var next := Step(s, e).0;
        StepKeepsValid(s, e);
        StepIsFair(s, e, t);
        EveryTaskInOrder(next, rest, t);
        OfJoined(AdmissionOf(s, e), Admissions(next, rest), t);
        Joined(Of(AdmissionOf(s, e), t), Of(Admissions(next, rest), t), Pending(Run(next, rest), t),
               Pending(next, t), Asked(next, rest, t), Pending(s, t), AskedBy(e, t));
      } else {
        EveryTaskInOrder(s, rest, t);
      }
    }
  }

  /** And what is sent and queued is what is admitted of all the tasks together. */
  lemma AdmissionsAreSent(s: Port, events: seq<Event>)
    requires s.Valid()
    ensures Run(s, events).uart.sent + Run(s, events).queue
         == s.uart.sent + s.queue + Characters(Admissions(s, events))
  {
    EveryRunConserves(s, events);
    AdmissionsAreAdmitted(s, events);
  }

  lemma {:induction false} AdmissionsAreAdmitted(s: Port, events: seq<Event>)
    requires s.Valid()
    ensures Characters(Admissions(s, events)) == Admitted(s, events)
    decreases events
  {
    if events != [] {
      if events[0].Enabled(s) {
        StepKeepsValid(s, events[0]);
        AdmissionsAreAdmitted(Step(s, events[0]).0, events[1..]);
      } else {
        AdmissionsAreAdmitted(s, events[1..]);
      }
    }
  }
}
