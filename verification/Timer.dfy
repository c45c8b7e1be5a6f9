/**
 Timer 1: a counter that is reset every minute, the count of minutes, and the
 time stamps of wheel rotations, filtered in the interrupt service routine and
 queued for the speed task.
 */
module Timer {
  import opened Division
  import opened Machine

  const TICKS_PER_MINUTE := 0xD2F0_0000
  const TOO_SMALL_TICK_DIFF := 58982
  const TIME_STORE_LENGTH := 128

  /** A queued time stamp: the minute count and the capture register. */
  datatype Stamp = Stamp(minuteCount: U32, captureCount: U32)

  /** When something really happened: minutes since the start, and ticks since the last reset. */
  datatype Instant = Instant(minute: nat, tick: nat)
  {
    predicate Valid() {
      tick < TICKS_PER_MINUTE
    }

    function Ticks(): nat {
      minute * 0xD2F0_0000 + tick
    }

    /** The stamp the routine makes of it; the minute count wraps at 2^32. */
    function Stamped(): Stamp
      requires Valid()
    {
      Stamp(ToU32(minute), tick)
    }
  }

  /** The test of the glitch filter, in uint32_t. */
  predicate PassesFilter(capture: U32, previous: U32) {
    ToU32(capture - previous) > TOO_SMALL_TICK_DIFF
  }

  /**
   The filter is meant to drop rotations at most 58982 ticks after the last one.
   It does so within a minute. Across a reset it passes every glitch, and drops a
   rotation that comes at most 58982 ticks later in its own minute than the
   previous one in its; everywhere else it decides as meant.
   */
  lemma FilterDecidesAsMeant(a: Instant, b: Instant)
    requires a.Valid() && b.Valid() && a.Ticks() <= b.Ticks()
    ensures
      var meant := b.Ticks() - a.Ticks() > TOO_SMALL_TICK_DIFF;
      (PassesFilter(b.tick, a.tick) == meant)
      <==> (a.minute == b.minute || (meant && !(a.tick <= b.tick <= a.tick + TOO_SMALL_TICK_DIFF)))
  {
    assert a.minute <= b.minute;
    assert ToU32(b.tick - a.tick) == if b.tick >= a.tick then b.tick - a.tick else b.tick - a.tick + TWO_TO_THE_32;
  }

  datatype State = State(
    minuteCount: U32,
    eventCount: U32,
    previousCapture: U32,
    delayActive: bool,
    timeStore: seq<Stamp>)
  {
    /** A capture: filtered, then queued if there is room; the filter moves on even if there is not. */
    function Captured(capture: U32): State {
      var counted := this.(eventCount := ToU32(eventCount + 1));
      if !PassesFilter(capture, previousCapture) then counted
      else if |timeStore| < TIME_STORE_LENGTH then
        counted.(timeStore := timeStore + [Stamp(minuteCount, capture)], previousCapture := capture)
      else counted.(previousCapture := capture)
    }

    /** One entry of the routine: the flags in the order it looks at them. */
    function Serviced(mr0: bool, mr1: bool, cr2: bool, capture: U32): State {
      var timed := this.(minuteCount := if mr0 then ToU32(minuteCount + 1) else minuteCount,
                         delayActive := delayActive && !mr1);
      if cr2 then timed.Captured(capture) else timed
    }
  }

  /**
   A rotation captured before a reset and serviced in the same entry as the reset
   is queued with the next minute: a whole minute late.
   */
  lemma LateServiceStampsAMinuteLate(s: State, at: Instant)
    requires at.Valid() && s.minuteCount == ToU32(at.minute)
    requires PassesFilter(at.tick, s.previousCapture) && |s.timeStore| < TIME_STORE_LENGTH
    ensures
      var late := Instant(at.minute + 1, at.tick);
      && s.Serviced(true, false, true, at.tick).timeStore == s.timeStore + [late.Stamped()]
      && late.Ticks() == at.Ticks() + TICKS_PER_MINUTE
  {
    RemainderOfSum(at.minute, 1, 0x1_0000_0000);
  }

  class Timer1 {
    var timer1MinuteCount: U32
    var timer1EventCount: U32
    var prvPreviousCapture: U32
    var DelayResolution100usActive: bool
    var timeStore: seq<Stamp>

    ghost function Abs(): State
      reads this
    {
      State(timer1MinuteCount, timer1EventCount, prvPreviousCapture, DelayResolution100usActive, timeStore)
    }

    constructor ()
      ensures Abs() == State(0, 0, 0, false, [])
    {
      timer1MinuteCount, timer1EventCount, prvPreviousCapture := 0, 0, 0;
      DelayResolution100usActive, timeStore := false, [];
    }

    /** vTimer1ISR, on the pending flags of T1IR and the capture register. */
    method Isr(mr0: bool, mr1: bool, cr2: bool, t1cr2: U32)
      modifies this
      ensures Abs() == old(Abs()).Serviced(mr0, mr1, cr2, t1cr2)
    {
      if mr0 {
        timer1MinuteCount := ToU32(timer1MinuteCount + 1);
      }
      if mr1 {
        DelayResolution100usActive := false;
      }
      if cr2 {
        var prvTse := Stamp(timer1MinuteCount, t1cr2);
        if ToU32(prvTse.captureCount - prvPreviousCapture) > TOO_SMALL_TICK_DIFF {
          if |timeStore| < TIME_STORE_LENGTH {
            timeStore := timeStore + [prvTse];
          }
          prvPreviousCapture := prvTse.captureCount;
        }
        timer1EventCount := ToU32(timer1EventCount + 1);
      }
    }

    /** The speed task takes the oldest stamp. */
    method Take() returns (tse: Stamp)
      requires timeStore != []
      modifies this`timeStore
      ensures old(timeStore) == [tse] + timeStore
    {
      tse := timeStore[0];
      timeStore := timeStore[1..];
    }
  }

  /** The timer in real time. */
  datatype World = World(
    timer: State,
    now: Instant,
    last: Option<Instant>,      // the last rotation the filter passed
    queued: seq<Instant>,       // the rotations that were queued
    taken: seq<Stamp>)          // the stamps the speed task has taken

  datatype Event = Minute | DelayOver | Rotation(tick: nat) | Take
  {
    /** A rotation is captured at or after the present tick of the present minute. */
    predicate Enabled(w: World) {
      match this
      case Rotation(tick) => w.now.tick <= tick < TICKS_PER_MINUTE
      case Take => w.timer.timeStore != []
      case _ => true
    }
  }

  function Step(w: World, e: Event): World
    requires e.Enabled(w)
  {
    match e
    case Minute =>
      w.(timer := w.timer.Serviced(true, false, false, 0), now := Instant(w.now.minute + 1, 0))
    case DelayOver => w.(timer := w.timer.Serviced(false, true, false, 0))
    case Take =>
      w.(timer := w.timer.(timeStore := w.timer.timeStore[1..]), taken := w.taken + [w.timer.timeStore[0]])
    case Rotation(tick) =>
      var at := Instant(w.now.minute, tick);
      var passes := PassesFilter(tick, w.timer.previousCapture);
      w.(timer := w.timer.Serviced(false, false, true, tick), now := at,
         last := if passes then Some(at) else w.last,
         queued := if passes && |w.timer.timeStore| < TIME_STORE_LENGTH then w.queued + [at] else w.queued)
  }

  function Run(w: World, events: seq<Event>): World
    decreases events
  {
    if events == [] then w
    else Run(if events[0].Enabled(w) then Step(w, events[0]) else w, events[1..])
  }

  const Start := World(State(0, 0, 0, false, []), Instant(0, 0), None, [], [])

  /** b comes after a, and not as a glitch in the same minute. */
  predicate Follows(a: Instant, b: Instant) {
    a.minute < b.minute || (a.minute == b.minute && a.tick + TOO_SMALL_TICK_DIFF < b.tick)
  }

  /** Rotation i comes after the one before it. */
  predicate FollowsAt(rotations: seq<Instant>, i: nat)
    requires 0 < i < |rotations|
  {
    Follows(rotations[i - 1], rotations[i])
  }

  predicate Spaced(rotations: seq<Instant>) {
    && (forall i | 0 <= i < |rotations| :: rotations[i].Valid())
    && (forall i | 0 < i < |rotations| :: FollowsAt(rotations, i))
  }

  function Stamps(rotations: seq<Instant>): seq<Stamp>
    requires forall i | 0 <= i < |rotations| :: rotations[i].Valid()
  {
    seq(|rotations|, i requires 0 <= i < |rotations| => rotations[i].Stamped())
  }

  /** What the routine knows is what happened: the minute, the last rotation passed, the spacing of those queued. */
  predicate Faithful(w: World) {
    && w.now.Valid()
    && w.timer.minuteCount == ToU32(w.now.minute)
    && |w.timer.timeStore| <= TIME_STORE_LENGTH
    && (w.last.None? ==> w.timer.previousCapture == 0 && w.queued == [])
    && (w.last.Some? ==>
          && w.last.value.Valid() && w.timer.previousCapture == w.last.value.tick
          && (w.last.value.minute < w.now.minute
              || (w.last.value.minute == w.now.minute && w.last.value.tick <= w.now.tick)))
    && Spaced(w.queued)
    && (w.queued != [] ==>
          var newest := w.queued[|w.queued| - 1];
          w.last.Some? && (newest == w.last.value || Follows(newest, w.last.value)))
    && w.taken + w.timer.timeStore == Stamps(w.queued)
  }

  /** A rotation that passes the filter can be added to those queued. */
  lemma SpacedAppend(rotations: seq<Instant>, at: Instant)
    requires Spaced(rotations) && at.Valid()
    requires rotations != [] ==> Follows(rotations[|rotations| - 1], at)
    ensures Spaced(rotations + [at])
    ensures Stamps(rotations + [at]) == Stamps(rotations) + [at.Stamped()]
  {
    var all := rotations + [at];
    forall i | 0 < i < |all| ensures FollowsAt(all, i) {
      assert i < |rotations| ==> FollowsAt(rotations, i);
    }
  }

  /** The filter's last rotation and one that passes after it. */
  lemma PassedFollows(last: Instant, at: Instant)
    requires last.Valid() && at.Valid() && PassesFilter(at.tick, last.tick)
    requires last.minute < at.minute || (last.minute == at.minute && last.tick <= at.tick)
    ensures Follows(last, at)
  {
    if last.minute == at.minute {
      RemainderUnique(at.tick - last.tick, 0x1_0000_0000, 0, at.tick - last.tick);
    }
  }

  lemma FollowsTransitive(a: Instant, b: Instant, c: Instant)
    requires Follows(a, b) && Follows(b, c)
    ensures Follows(a, c)
  {
  }

  lemma RotationKeepsFaithful(w: World, tick: nat)
    requires Faithful(w) && Rotation(tick).Enabled(w)
    ensures Faithful(Step(w, Rotation(tick)))
  {
    var at := Instant(w.now.minute, tick);
    if PassesFilter(tick, w.timer.previousCapture) {
      if w.last.Some? {
        PassedFollows(w.last.value, at);
        if w.queued != [] && w.queued[|w.queued| - 1] != w.last.value {
          FollowsTransitive(w.queued[|w.queued| - 1], w.last.value, at);
        }
      }
      if |w.timer.timeStore| < TIME_STORE_LENGTH {
        SpacedAppend(w.queued, at);
        assert w.taken + (w.timer.timeStore + [at.Stamped()]) == (w.taken + w.timer.timeStore) + [at.Stamped()];
      }
    }
  }

  lemma StepKeepsFaithful(w: World, e: Event)
    requires Faithful(w) && e.Enabled(w)
    ensures Faithful(Step(w, e))
  {
    match e
    case Rotation(tick) => RotationKeepsFaithful(w, tick);
    case Take =>
      var store := w.timer.timeStore;
      assert w.taken + [store[0]] + store[1..] == w.taken + store;
    case Minute =>
      RemainderOfSum(w.now.minute, 1, 0x1_0000_0000);
    case DelayOver =>
  }

  /** Over every run the stamps taken are those of a beginning of a well-spaced list of real rotations. */
  lemma {:induction false} EveryRunIsFaithful(w: World, events: seq<Event>)
    requires Faithful(w)
    ensures Faithful(Run(w, events))
    decreases events
  {
    if events != [] {
      if events[0].Enabled(w) {
        StepKeepsFaithful(w, events[0]);
        EveryRunIsFaithful(Step(w, events[0]), events[1..]);
      } else {
        EveryRunIsFaithful(w, events[1..]);
      }
    }
  }

  /** Rotations of the same minute in a spaced list are more than 58982 ticks apart for each place between them. */
  lemma {:induction false} SpacedApart(rotations: seq<Instant>, i: nat, j: nat)
    requires Spaced(rotations) && i <= j < |rotations|
    ensures rotations[i].minute <= rotations[j].minute
    ensures rotations[i].minute == rotations[j].minute ==>
              rotations[i].tick + (j - i) * (TOO_SMALL_TICK_DIFF + 1) <= rotations[j].tick
    decreases j - i
  {
    if i < j {
      SpacedApart(rotations, i, j - 1);
      assert FollowsAt(rotations, j);
    }
  }

  // ---- What a run stamps, told by the rotations that happened ----

  /** The rotations of a run, in order. */
  function Rotations(w: World, events: seq<Event>): seq<Instant>
    decreases events
  {
    if events == [] then []
    else if !events[0].Enabled(w) then Rotations(w, events[1..])
    else
      (if events[0].Rotation? then [Instant(w.now.minute, events[0].tick)] else [])
      + Rotations(Step(w, events[0]), events[1..])
  }

  /** The capture the filter compares with after these rotations: that of the last one kept. */
  function LastKept(rotations: seq<Instant>, previous: U32): (kept: U32)
    requires forall i | 0 <= i < |rotations| :: rotations[i].Valid()
  {
    if rotations == [] then previous
    else
      assert rotations[0].Valid();
      LastKept(rotations[1..], if PassesFilter(rotations[0].tick, previous) then rotations[0].tick else previous)
  }

  /** Those that pass the filter, against the last that passed, and find fewer than 128 stamps waiting. */
  function FoundRoom(w: World, events: seq<Event>, previous: U32): (rotations: seq<Instant>)
    ensures forall i | 0 <= i < |rotations| :: rotations[i].Valid()
    decreases events
  {
    if events == [] then []
    else if !events[0].Enabled(w) then FoundRoom(w, events[1..], previous)
    else if events[0].Rotation? && PassesFilter(events[0].tick, previous) then
      (if |w.timer.timeStore| < 128 then [Instant(w.now.minute, events[0].tick)] else [])
      + FoundRoom(Step(w, events[0]), events[1..], events[0].tick)
    else FoundRoom(Step(w, events[0]), events[1..], previous)
  }

  lemma {:induction false} RotationsAreValid(w: World, events: seq<Event>)
    ensures forall i | 0 <= i < |Rotations(w, events)| :: Rotations(w, events)[i].Valid()
    decreases events
  {
    if events != [] {
      RotationsAreValid(if events[0].Enabled(w) then Step(w, events[0]) else w, events[1..]);
    }
  }

  lemma StampsJoined(a: seq<Instant>, b: seq<Instant>)
    requires forall i | 0 <= i < |a| :: a[i].Valid()
    requires forall i | 0 <= i < |b| :: b[i].Valid()
    ensures Stamps(a + b) == Stamps(a) + Stamps(b)
  {
  }

  /** The stamp, the filter and the counters after one rotation, whether or not there is room. */
  lemma RotationStamps(w: World, tick: nat)
    requires Faithful(w) && Rotation(tick).Enabled(w)
    ensures
      var at, s, after := Instant(w.now.minute, tick), w.timer, Step(w, Rotation(tick)).timer;
      var passes := PassesFilter(tick, s.previousCapture);
      && after.timeStore == s.timeStore + (if passes && |s.timeStore| < 128 then [at.Stamped()] else [])
      && after.previousCapture == (if passes then tick else s.previousCapture)
      && after.eventCount == ToU32(s.eventCount + 1) && after.delayActive == s.delayActive
      && after.minuteCount == s.minuteCount
  {
  }

  /** The rotation that a step queues, if it queues one. */
  function StepFound(w: World, e: Event): (rotations: seq<Instant>)
    requires e.Enabled(w)
    ensures forall i | 0 <= i < |rotations| :: rotations[i].Valid()
  {
    if e.Rotation? && PassesFilter(e.tick, w.timer.previousCapture) && |w.timer.timeStore| < 128 then
      [Instant(w.now.minute, e.tick)]
    else []
  }

  lemma StepStamps(w: World, e: Event)
    requires Faithful(w) && e.Enabled(w)
    ensures Step(w, e).taken + Step(w, e).timer.timeStore
         == w.taken + w.timer.timeStore + Stamps(StepFound(w, e))
  {
    match e
    case Rotation(tick) =>
      RotationStamps(w, tick);
      var stamps := Stamps(StepFound(w, e));
      assert w.taken + (w.timer.timeStore + stamps) == w.taken + w.timer.timeStore + stamps;
    case Take => assert w.taken + [w.timer.timeStore[0]] + w.timer.timeStore[1..] == w.taken + w.timer.timeStore;
    case _ =>
  }

  lemma FoundNext(w: World, events: seq<Event>)
    requires Faithful(w) && events != [] && events[0].Enabled(w)
    ensures
      var next := Step(w, events[0]);
      FoundRoom(w, events, w.timer.previousCapture)
        == StepFound(w, events[0]) + FoundRoom(next, events[1..], next.timer.previousCapture)
  {
    if events[0].Rotation? { RotationStamps(w, events[0].tick); }
  }

  /**
   Over every run the stamps queued are those of the rotations that pass the filter
   and find room, in order and no others, and the filter compares with the last that
   passed even if that found the queue full.
   */
  lemma {:induction false} EveryRunStamps(w: World, events: seq<Event>)
    requires Faithful(w)
    ensures Run(w, events).taken + Run(w, events).timer.timeStore
         == w.taken + w.timer.timeStore + Stamps(FoundRoom(w, events, w.timer.previousCapture))
    decreases events
  {
    if events == [] {
      assert Stamps([]) == [];
    } else if !events[0].Enabled(w) {
      EveryRunStamps(w, events[1..]);
    } else {
      var next := Step(w, events[0]);
      StepKeepsFaithful(w, events[0]);
      EveryRunStamps(next, events[1..]);
      StepStamps(w, events[0]);
      FoundNext(w, events);
      StampsJoined(StepFound(w, events[0]), FoundRoom(next, events[1..], next.timer.previousCapture));
    }
  }

  lemma {:induction false} EveryRunFilters(w: World, events: seq<Event>)
    requires Faithful(w)
    ensures forall i | 0 <= i < |Rotations(w, events)| :: Rotations(w, events)[i].Valid()
    ensures Run(w, events).timer.previousCapture == LastKept(Rotations(w, events), w.timer.previousCapture)
    decreases events
  {
    RotationsAreValid(w, events);
    if events != [] {
      var e, rest := events[0], events[1..];
      if !e.Enabled(w) {
        EveryRunFilters(w, rest);
      } else {
        StepKeepsFaithful(w, e);
        EveryRunFilters(Step(w, e), rest);
        if e.Rotation? {
          RotationStamps(w, e.tick);
          assert Rotations(w, events)[0] == Instant(w.now.minute, e.tick);
          assert Rotations(w, events)[1..] == Rotations(Step(w, e), rest);
        } else {
          assert Rotations(w, events) == Rotations(Step(w, e), rest);
        }
      }
    }
  }

  /** Every rotation is counted as an event, modulo 2^32, and a delay lasts exactly until its match. */
  lemma {:induction false} EveryRunCounts(w: World, events: seq<Event>)
    requires Faithful(w)
    ensures Run(w, events).timer.eventCount == ToU32(w.timer.eventCount + |Rotations(w, events)|)
    ensures Run(w, events).timer.delayActive <==> w.timer.delayActive && DelayOver !in events
    decreases events
  {
    if events == [] {
      RemainderUnique(w.timer.eventCount, 0x1_0000_0000, 0, w.timer.eventCount);
    } else {
      var e, rest := events[0], events[1..];
      assert events == [e] + rest;
      if !e.Enabled(w) {
        EveryRunCounts(w, rest);
      } else {
        StepKeepsFaithful(w, e);
        EveryRunCounts(Step(w, e), rest);
        if e.Rotation? {
          RotationStamps(w, e.tick);
          RemainderOfSum(w.timer.eventCount + 1, |Rotations(Step(w, e), rest)|, 0x1_0000_0000);
        }
      }
    }
  }
}
