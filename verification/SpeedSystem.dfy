/**
 From real rotations to the rates shown: the timer's stamps, the long
 differences of the speed calculation and the real ticks between rotations.
 */
module SpeedSystem {
  import opened Division
  import opened Machine
  import opened SpeedMath
  import opened Timer
  import opened Speed

  function RealTicks(r: seq<Instant>): (t: seq<int>)
    ensures |t| == |r| && forall i | 0 <= i < |r| :: t[i] == r[i].Ticks()
  {
    seq(|r|, i requires 0 <= i < |r| => r[i].Ticks())
  }

  /** How many of the first j pairs have a capture count that went down. */
  function Decreasing(r: seq<Instant>, m: nat, j: nat): nat
    requires j <= m && |r| == 2 * m
  {
    if j == 0 then 0
    else Decreasing(r, m, j - 1) + if Rises(r, m, j - 1) then 0 else 1
  }

  /** Rotations in real order, each pair m apart in the same minute or at most two minutes apart. */
  predicate Ordered(r: seq<Instant>, m: nat)
    requires |r| == 2 * m
  {
    && (forall i | 0 <= i < |r| :: r[i].Valid())
    && (forall i | 0 <= i < m :: PairOrdered(r, m, i))
  }

  predicate PairOrdered(r: seq<Instant>, m: nat, i: nat)
    requires i < m && |r| == 2 * m
  {
    r[i].Ticks() <= r[i + m].Ticks() && r[i + m].minute <= r[i].minute + 2
  }

  /** The capture count of pair i did not go down. */
  predicate Rises(r: seq<Instant>, m: nat, i: nat)
    requires i < m && |r| == 2 * m
  {
    r[i].tick <= r[i + m].tick
  }

  /**
   One pair, stamped by the timer: the sum grows by the real ticks between the
   two, and by 2^32 more when the capture count went down, because the captures
   are subtracted in uint32_t before they are widened. More than two minutes apart
   the pair is refused.
   */
  lemma PairOfRealStamps(a: Instant, b: Instant, sum: nat)
    requires a.Valid() && b.Valid() && a.Ticks() <= b.Ticks() && b.minute - a.minute < TWO_TO_THE_32
    ensures
      AddPair(sum, a.Stamped(), b.Stamped()) ==
        if b.minute - a.minute > 2 then Invalid(b.minute - a.minute)
        else Ticks(sum + (b.Ticks() - a.Ticks()) + if b.tick < a.tick then TWO_TO_THE_32 else 0)
  {
    assert a.minute <= b.minute;
    MinutesApart(a.minute, b.minute);
    var d := b.tick - a.tick;
    RemainderUnique(d, 0x1_0000_0000, if d >= 0 then 0 else -1, if d >= 0 then d else d + 0x1_0000_0000);
  }

  lemma MinutesApart(a: nat, b: nat)
    requires a <= b < a + 0x1_0000_0000
    ensures ToU32(ToU32(b) - ToU32(a)) == b - a
  {
    DivisionOf(a, 0x1_0000_0000);
    DivisionOf(b, 0x1_0000_0000);
    var turns := b / 0x1_0000_0000 - a / 0x1_0000_0000;
    RemainderUnique(ToU32(b) - ToU32(a), 0x1_0000_0000, -turns, b - a);
  }

  /** The whole sum: the real long differences, and 2^32 for every pair whose capture count went down. */
  lemma {:induction false} SumOfRealStamps(r: seq<Instant>, m: nat, j: nat)
    requires j <= m && |r| == 2 * m && Ordered(r, m)
    ensures 0 <= DiffSum(RealTicks(r), m, j)
    ensures SumPairs(Stamps(r), m, j) == Ticks(DiffSum(RealTicks(r), m, j) + 0x1_0000_0000 * Decreasing(r, m, j))
  {
    if j > 0 {
      SumOfRealStamps(r, m, j - 1);
      assert PairOrdered(r, m, j - 1);
      var w, t := Stamps(r), RealTicks(r);
      var sum := SumPairs(w, m, j - 1).total;
      PairOfRealStamps(r[j - 1], r[j - 1 + m], sum);
      assert w[j - 1] == r[j - 1].Stamped() && w[j - 1 + m] == r[j - 1 + m].Stamped();
      assert SumPairs(w, m, j) == AddPair(sum, w[j - 1], w[j - 1 + m]);
      assert DiffSum(t, m, j) == DiffSum(t, m, j - 1) + (t[j - 1 + m] - t[j - 1]);
    }
  }

  /** So the sum is the real one exactly when no pair's capture count went down. */
  lemma SumIsRealExactly(r: seq<Instant>, m: nat)
    requires |r| == 2 * m && Ordered(r, m)
    ensures SumPairs(Stamps(r), m, m).Ticks?
    ensures SumPairs(Stamps(r), m, m).total == DiffSum(RealTicks(r), m, m)
       <==> forall i | 0 <= i < m :: Rises(r, m, i)
  {
    SumOfRealStamps(r, m, m);
    NoneDecreasing(r, m, m);
  }

  lemma {:induction false} NoneDecreasing(r: seq<Instant>, m: nat, j: nat)
    requires j <= m && |r| == 2 * m
    ensures Decreasing(r, m, j) == 0 <==> forall i | 0 <= i < j :: Rises(r, m, i)
  {
    if j > 0 { NoneDecreasing(r, m, j - 1); }
  }

  /** Four rotations a second apart, the last two after a reset of the counter. */
  function AcrossReset(): (r: seq<Instant>)
    ensures |r| == 4 && Spaced(r) && Ordered(r, 2)
    ensures r[0] == Instant(0, 0xCBE8_0000) && r[1] == Instant(0, 0xCF6C_0000)
    ensures r[2] == Instant(1, 0) && r[3] == Instant(1, 0x0384_0000)
  {
    [Instant(0, TICKS_PER_MINUTE - 2 * TICK_HZ), Instant(0, TICKS_PER_MINUTE - TICK_HZ),
     Instant(1, 0), Instant(1, TICK_HZ)]
  }

  lemma RunNext(w: World, e: Event, rest: seq<Event>)
    requires e.Enabled(w)
    ensures Run(w, [e] + rest) == Run(Step(w, e), rest)
  {
    assert ([e] + rest)[1..] == rest;
  }

  /** A rotation that passes the filter is queued. */
  lemma RotationQueues(w: World, tick: nat, rest: seq<Event>)
    requires Rotation(tick).Enabled(w) && PassesFilter(tick, w.timer.previousCapture)
    requires |w.timer.timeStore| < TIME_STORE_LENGTH
    ensures
      var at := Instant(w.now.minute, tick);
      var timer := w.timer.(eventCount := ToU32(w.timer.eventCount + 1), previousCapture := tick,
                            timeStore := w.timer.timeStore + [Stamp(w.timer.minuteCount, tick)]);
      Run(w, [Rotation(tick)] + rest)
        == Run(w.(timer := timer, now := at, last := Some(at), queued := w.queued + [at]), rest)
  {
    RunNext(w, Rotation(tick), rest);
  }

  /** The timer after the first two of them. */
  function BeforeReset(): World {
    var a, b := Instant(0, 0xCBE8_0000), Instant(0, 0xCF6C_0000);
    World(State(0, 2, b.tick, false, [a.Stamped(), b.Stamped()]), b, Some(b), [a, b], [])
  }

  lemma UpToReset(rest: seq<Event>)
    ensures Run(Start, [Rotation(0xCBE8_0000)] + ([Rotation(0xCF6C_0000)] + rest)) == Run(BeforeReset(), rest)
  {
    var a, b := Instant(0, 0xCBE8_0000), Instant(0, 0xCF6C_0000);
    var one := World(State(0, 1, a.tick, false, [a.Stamped()]), a, Some(a), [a], []);
    RotationQueues(Start, a.tick, [Rotation(b.tick)] + rest);
    assert [] + [a] == [a] && [] + [a.Stamped()] == [a.Stamped()];
    RotationQueues(one, b.tick, rest);
    assert [a] + [b] == [a, b] && [a.Stamped()] + [b.Stamped()] == [a.Stamped(), b.Stamped()];
  }

  lemma FromReset()
    ensures
      var w := Run(BeforeReset(), [Minute] + ([Rotation(0)] + ([Rotation(0x0384_0000)] + [])));
      w.queued == AcrossReset() && w.timer.timeStore == Stamps(AcrossReset())
  {
    var c, d := Instant(1, 0), Instant(1, 0x0384_0000);
    var w := BeforeReset();
    RunNext(w, Minute, [Rotation(0)] + ([Rotation(0x0384_0000)] + []));
    var reset := w.(timer := w.timer.(minuteCount := 1), now := c);
    RotationQueues(reset, 0, [Rotation(0x0384_0000)] + []);
    var three := reset.(timer := reset.timer.(eventCount := 3, previousCapture := 0,
                                              timeStore := w.timer.timeStore + [c.Stamped()]),
                        now := c, last := Some(c), queued := w.queued + [c]);
    RotationQueues(three, d.tick, []);
  }

  /** They come from a run of the timer: two rotations, the reset, two more. */
  lemma AcrossResetHappens()
    ensures
      var w := Run(Start, [Rotation(0xCBE8_0000), Rotation(0xCF6C_0000), Minute, Rotation(0), Rotation(0x0384_0000)]);
      w.queued == AcrossReset() && w.timer.timeStore == Stamps(AcrossReset())
  {
    var rest := [Minute] + ([Rotation(0)] + ([Rotation(0x0384_0000)] + []));
    UpToReset(rest);
    FromReset();
    assert [Rotation(0xCBE8_0000)] + ([Rotation(0xCF6C_0000)] + rest)
        == [Rotation(0xCBE8_0000), Rotation(0xCF6C_0000), Minute, Rotation(0), Rotation(0x0384_0000)];
  }

  lemma AcrossResetSum()
    ensures DiffSum(RealTicks(AcrossReset()), 2, 2) == 4 * 58_982_400
    ensures SumPairs(Stamps(AcrossReset()), 2, 2) == Ticks(4 * 58_982_400 + 2 * 0x1_0000_0000)
  {
    var r := AcrossReset();
    var t := RealTicks(r);
    SumOfRealStamps(r, 2, 2);
    assert DiffSum(t, 2, 1) == DiffSum(t, 2, 0) + 2 * 58_982_400;
    assert Decreasing(r, 2, 1) == Decreasing(r, 2, 0) + 1;
  }

  lemma RatesAtReset()
    ensures RatesOf(4 * 58_982_400 / 2 / 2) == Rates(60, 100)
    ensures RatesOf((4 * 58_982_400 + 2 * 0x1_0000_0000) / 2 / 2) == Rates(1, 2)
  {
    assert RatesOf(58_982_400) == Rates(60, 100);
    assert RatesOf(2_206_466_048) == Rates(1, 2);
  }

  /**
   The ring of four just after a reset, turning steadily once a second: 60 rpm and
   1.00 per second, shown as 1 rpm and 0.02 per second.
   */
  lemma ResetShowsAWrongRate()
    ensures RatesOf(DiffSum(RealTicks(AcrossReset()), 2, 2) / 2 / 2) == Rates(60, 100)
    ensures ResultOf(Stamps(AcrossReset()), 2) == Rates(1, 2)
  {
    AcrossResetSum();
    RatesAtReset();
  }

  /**
   With no capture count going down across half the window, the average used for
   the rates is the weighted average of the real intervals, rounded down, and lies
   between the shortest and the longest of them.
   */
  lemma AverageOfRealIntervals(r: seq<Instant>, m: nat, lo: nat, hi: nat)
    requires 0 < m && |r| == 2 * m && Ordered(r, m)
    requires forall i | 0 <= i < m :: Rises(r, m, i)
    requires Between(RealTicks(r), lo, hi)
    ensures ResultOf(Stamps(r), m) == RatesOf(Weighted(RealTicks(r), 2 * m - 1) / Square(m))
    ensures lo <= Weighted(RealTicks(r), 2 * m - 1) / Square(m) <= hi
  {
    SumIsRealExactly(r, m);
    AverageIsAnAverage(RealTicks(r), m, lo, hi);
  }

  /** A window of the timer's spaced rotations: every valid pair adds at least m times the filter's limit. */
  lemma {:induction false} SpacedSumIsLarge(r: seq<Instant>, m: nat, j: nat)
    requires j <= m && |r| == 2 * m && Spaced(r) && m * 58983 <= 0xD2F0_0000
    requires forall i | 0 <= i < |r| :: r[i].minute - r[0].minute < TWO_TO_THE_32
    ensures SumPairs(Stamps(r), m, j).Ticks? ==> j * (m * 58983) <= SumPairs(Stamps(r), m, j).total
  {
    if j > 0 {
      SpacedSumIsLarge(r, m, j - 1);
      if SumPairs(Stamps(r), m, j - 1).Ticks? {
        var a, b := r[j - 1], r[j - 1 + m];
        SpacedApart(r, 0, j - 1);
        SpacedApart(r, j - 1, j - 1 + m);
        PairOfRealStamps(a, b, SumPairs(Stamps(r), m, j - 1).total);
        Distribute(j - 1, m * 58983, 0);
      }
    }
  }

  lemma MulMonotoneBoth(a: nat, b: nat, c: nat, d: nat)
    requires a <= c && b <= d
    ensures a * b <= c * d
  {
    MulMonotone(a, c, b);
    assert c * b == b * c;
    MulMonotone(b, d, c);
  }

  /** An average of at least 58983 keeps both rates in range; neither conversion to uint32_t truncates. */
  lemma RatesInRange(average: nat)
    requires average >= 58983
    ensures RatesOf(average) == Rates(60 * TICK_HZ / average, 100 * TICK_HZ / average)
    ensures 0 <= 60 * TICK_HZ / average <= 59999 && 0 <= 100 * TICK_HZ / average <= 99998
  {
    QuotientAtMost(60 * TICK_HZ, average, 59999);
    QuotientAtMost(100 * TICK_HZ, average, 99998);
  }

  lemma QuotientAtMost(x: nat, average: nat, q: nat)
    requires 58983 <= average && x < (q + 1) * 58983
    ensures 0 <= x / average <= q
  {
    var p := x / average;
    assert x == average * p + x % average;
    assert average * p == p * average;
    if p > q { MulMonotoneBoth(q + 1, 58983, p, average); }
    if p < 0 { MulMonotone(p, -1, average); }
  }

  /** A window of stamps taken in any run is the stamps of a window of spaced real rotations. */
  lemma WindowOfRun(w: World, k: nat, n: nat)
    requires Faithful(w) && k + n <= |w.taken|
    ensures k + n <= |w.queued| && Spaced(w.queued[k..k + n])
    ensures w.taken[k..k + n] == Stamps(w.queued[k..k + n])
  {
    var all := Stamps(w.queued);
    assert |w.queued| == |all| == |w.taken| + |w.timer.timeStore|;
    var window, r := w.taken[k..k + n], w.queued[k..k + n];
    WindowIsSpaced(w.queued, k, n);
    forall i | 0 <= i < n ensures window[i] == Stamps(r)[i] {
      assert window[i] == w.taken[k + i] == (w.taken + w.timer.timeStore)[k + i] == all[k + i];
      assert r[i] == w.queued[k + i];
      assert all[k + i] == w.queued[k + i].Stamped();
    }
  }

  lemma WindowIsSpaced(rotations: seq<Instant>, k: nat, n: nat)
    requires Spaced(rotations) && k + n <= |rotations|
    ensures Spaced(rotations[k..k + n])
  {
    var r := rotations[k..k + n];
    forall i | 0 < i < |r| ensures FollowsAt(r, i) {
      assert FollowsAt(rotations, k + i);
    }
  }

  /** What it means for the calculation to be safe on a window. */
  predicate SafeOn(window: seq<Stamp>, m: nat)
    requires 0 < m && |window| == 2 * m
  {
    var sum := SumPairs(window, m, m);
    sum.Ticks? ==>
      var average := sum.total / m / m;
      && average >= 58983
      && ResultOf(window, m) == Rates(60 * TICK_HZ / average, 100 * TICK_HZ / average)
      && ResultOf(window, m).rpm <= 59999 && ResultOf(window, m).rpsx100 <= 99998
  }

  lemma SpacedIsSafe(r: seq<Instant>, m: nat)
    requires 0 < m && |r| == 2 * m && Spaced(r) && m * 58983 <= 0xD2F0_0000
    requires r[2 * m - 1].minute - r[0].minute < TWO_TO_THE_32
    ensures SafeOn(Stamps(r), m)
  {
    forall i | 0 <= i < |r| ensures r[i].minute - r[0].minute < TWO_TO_THE_32 {
      SpacedApart(r, i, 2 * m - 1);
    }
    SpacedSumIsLarge(r, m, m);
    if SumPairs(Stamps(r), m, m).Ticks? {
      LargeAverage(SumPairs(Stamps(r), m, m).total, m);
      RatesInRange(SumPairs(Stamps(r), m, m).total / m / m);
    }
  }

  lemma LargeAverage(total: nat, m: nat)
    requires 0 < m && m * (m * 58983) <= total
    ensures 58983 <= total / m / m
  {
    DivideTwice(total, m);
    Associate(m, m, 58983);
    AverageAtLeast(total, Square(m));
  }

  lemma WindowIsSafe(w: World, k: nat, m: nat)
    requires Faithful(w) && 0 < m && m * 58983 <= 0xD2F0_0000 && k + 2 * m <= |w.taken|
    ensures k + 2 * m <= |w.queued|
    ensures w.queued[k + 2 * m - 1].minute - w.queued[k].minute < TWO_TO_THE_32 ==> SafeOn(w.taken[k..k + 2 * m], m)
  {
    WindowOfRun(w, k, 2 * m);
    var r := w.queued[k..k + 2 * m];
    if r[2 * m - 1].minute - r[0].minute < TWO_TO_THE_32 {
      SpacedIsSafe(r, m);
    }
  }

  /**
   Over every run of the timer from power-up, whatever the queue dropped, and for
   every window the calculation can be given (spanning less than 2^32 minutes):
   it refuses the minutes, or it divides by at least 58983, so that the division
   is defined, the rates are bounded and no conversion truncates.
   */
  lemma EveryRunGivesRatesInRange(events: seq<Event>, k: nat, m: nat)
    requires 0 < m && m * 58983 <= 0xD2F0_0000
    requires k + 2 * m <= |Run(Start, events).taken|
    ensures k + 2 * m <= |Run(Start, events).queued|
    ensures
      var w := Run(Start, events);
      w.queued[k + 2 * m - 1].minute - w.queued[k].minute < TWO_TO_THE_32 ==>
        SafeOn(w.taken[k..k + 2 * m], m)
  {
    EveryRunIsFaithful(Start, events);
    WindowIsSafe(Run(Start, events), k, m);
  }

  // ---- What is shown, told by the rotations that happened ----

  /** The minutes from rotation i to the one half a window later. */
  function Apart(r: seq<Instant>, m: nat, i: nat): int
    requires i < m && |r| == 2 * m
  {
    r[i + m].minute - r[i].minute
  }

  predicate AllNear(r: seq<Instant>, m: nat, j: nat)
    requires j <= m && |r| == 2 * m
  {
    forall i | 0 <= i < j :: Apart(r, m, i) <= 2
  }

  /** The first pair more than two minutes apart is d minutes apart. */
  predicate FirstApart(r: seq<Instant>, m: nat, j: nat, d: int)
    requires j <= m && |r| == 2 * m
  {
    exists i | 0 <= i < j :: AllNear(r, m, i) && Apart(r, m, i) == d && d > 2
  }

  /** Spaced rotations in a window of fewer than 2^32 minutes. */
  predicate Window(r: seq<Instant>, m: nat) {
    0 < m && |r| == 2 * m && Spaced(r) && r[2 * m - 1].minute - r[0].minute < TWO_TO_THE_32
  }

  lemma PairInWindow(r: seq<Instant>, m: nat, i: nat)
    requires Window(r, m) && i < m
    ensures r[i].Valid() && r[i + m].Valid() && r[i].Ticks() <= r[i + m].Ticks()
    ensures 0 <= Apart(r, m, i) < TWO_TO_THE_32
  {
    SpacedApart(r, 0, i);
    SpacedApart(r, i, i + m);
    SpacedApart(r, i + m, 2 * m - 1);
    assert (i + m - i) * (TOO_SMALL_TICK_DIFF + 1) >= 0;
  }

  /** One pair more of a window that is not refused so far. */
  lemma NextPair(r: seq<Instant>, m: nat, j: nat, gain: int)
    requires Window(r, m) && j < m && SumPairs(Stamps(r), m, j).Ticks?
    requires gain == (r[j + m].Ticks() - r[j].Ticks()) + if Rises(r, m, j) then 0 else 0x1_0000_0000
    ensures 0 <= Apart(r, m, j) < TWO_TO_THE_32
    ensures Apart(r, m, j) > 2 ==> SumPairs(Stamps(r), m, j + 1) == Invalid(Apart(r, m, j))
    ensures Apart(r, m, j) <= 2 ==>
              SumPairs(Stamps(r), m, j + 1) == Ticks(SumPairs(Stamps(r), m, j).total + gain)
  {
    PairInWindow(r, m, j);
    var w := Stamps(r);
    assert w[j] == r[j].Stamped() && w[j + m] == r[j + m].Stamped();
    PairOfRealStamps(r[j], r[j + m], SumPairs(w, m, j).total);
    assert SumPairs(w, m, j + 1) == AddPair(SumPairs(w, m, j).total, w[j], w[j + m]);
  }

  lemma NextDifference(r: seq<Instant>, m: nat, j: nat)
    requires |r| == 2 * m && j < m
    ensures DiffSum(RealTicks(r), m, j + 1) == DiffSum(RealTicks(r), m, j) + (r[j + m].Ticks() - r[j].Ticks())
  {
  }

  /** The sum of j pairs, told by the rotations: it is given up at the first pair more than two minutes apart. */
  function RealSum(r: seq<Instant>, m: nat, j: nat): Option<int>
    requires j <= m && |r| == 2 * m
  {
    if j == 0 then Some(0)
    else if RealSum(r, m, j - 1).None? || Apart(r, m, j - 1) > 2 then None
    else
      Some(RealSum(r, m, j - 1).value + (r[j - 1 + m].Ticks() - r[j - 1].Ticks())
           + if Rises(r, m, j - 1) then 0 else 0x1_0000_0000)
  }

  /** The minutes of that pair. */
  function Refused(r: seq<Instant>, m: nat, j: nat): Option<int>
    requires j <= m && |r| == 2 * m
  {
    if j == 0 then None
    else if Refused(r, m, j - 1).Some? then Refused(r, m, j - 1)
    else if Apart(r, m, j - 1) > 2 then Some(Apart(r, m, j - 1))
    else None
  }

  /** The code's sum is one or the other. */
  predicate Sums(sum: Sum, told: Option<int>, refused: Option<int>) {
    match sum
    case Ticks(total) => told == Some(total) && refused.None?
    case Invalid(diff) => told.None? && refused == Some(diff)
  }

  lemma RefusedStays(r: seq<Instant>, m: nat, j: nat)
    requires Window(r, m) && j < m && SumPairs(Stamps(r), m, j).Invalid?
    requires Sums(SumPairs(Stamps(r), m, j), RealSum(r, m, j), Refused(r, m, j))
    ensures Sums(SumPairs(Stamps(r), m, j + 1), RealSum(r, m, j + 1), Refused(r, m, j + 1))
  {
  }

  lemma NextTold(r: seq<Instant>, m: nat, j: nat, gain: int)
    requires j < m && |r| == 2 * m && RealSum(r, m, j).Some? && Refused(r, m, j).None?
    requires gain == (r[j + m].Ticks() - r[j].Ticks()) + if Rises(r, m, j) then 0 else 0x1_0000_0000
    ensures Apart(r, m, j) > 2 ==> RealSum(r, m, j + 1) == None && Refused(r, m, j + 1) == Some(Apart(r, m, j))
    ensures Apart(r, m, j) <= 2 ==>
              RealSum(r, m, j + 1) == Some(RealSum(r, m, j).value + gain) && Refused(r, m, j + 1) == None
  {
  }

  lemma NextSums(r: seq<Instant>, m: nat, j: nat)
    requires Window(r, m) && j < m && SumPairs(Stamps(r), m, j).Ticks?
    requires Sums(SumPairs(Stamps(r), m, j), RealSum(r, m, j), Refused(r, m, j))
    ensures Sums(SumPairs(Stamps(r), m, j + 1), RealSum(r, m, j + 1), Refused(r, m, j + 1))
  {
    var gain := (r[j + m].Ticks() - r[j].Ticks()) + if Rises(r, m, j) then 0 else 0x1_0000_0000;
    NextTold(r, m, j, gain);
    NextPair(r, m, j, gain);
  }

  lemma {:induction false} SumOfWindow(r: seq<Instant>, m: nat, j: nat)
    requires Window(r, m) && j <= m
    ensures Sums(SumPairs(Stamps(r), m, j), RealSum(r, m, j), Refused(r, m, j))
  {
    if j > 0 {
      SumOfWindow(r, m, j - 1);
      if SumPairs(Stamps(r), m, j - 1).Ticks? {
        NextSums(r, m, j - 1);
      } else {
        RefusedStays(r, m, j - 1);
      }
    }
  }

  lemma {:induction false} RefusedIsFirst(r: seq<Instant>, m: nat, j: nat)
    requires j <= m && |r| == 2 * m
    ensures Refused(r, m, j).None? <==> AllNear(r, m, j)
    ensures Refused(r, m, j).Some? ==> FirstApart(r, m, j, Refused(r, m, j).value)
  {
    if j > 0 {
      RefusedIsFirst(r, m, j - 1);
      if Refused(r, m, j - 1).Some? {
        FirstStaysFirst(r, m, j - 1, Refused(r, m, j - 1).value);
      } else if Apart(r, m, j - 1) > 2 {
        assert 0 <= j - 1 < j && AllNear(r, m, j - 1);
      }
    }
  }

  /** The real sum is the real long differences and 2^32 for every pair whose capture count went down. */
  lemma {:induction false} RealSumIsReal(r: seq<Instant>, m: nat, j: nat)
    requires j <= m && |r| == 2 * m && RealSum(r, m, j).Some?
    ensures RealSum(r, m, j).value == DiffSum(RealTicks(r), m, j) + 0x1_0000_0000 * Decreasing(r, m, j)
  {
    if j > 0 {
      RealSumIsReal(r, m, j - 1);
      NextDifference(r, m, j - 1);
    }
  }

  lemma FirstStaysFirst(r: seq<Instant>, m: nat, j: nat, d: int)
    requires j < m && |r| == 2 * m && FirstApart(r, m, j, d)
    ensures FirstApart(r, m, j + 1, d) && !AllNear(r, m, j + 1)
  {
    var i :| 0 <= i < j && AllNear(r, m, i) && Apart(r, m, i) == d && d > 2;
    assert 0 <= i < j + 1;
  }

  lemma OneFirst(r: seq<Instant>, m: nat, j: nat, d: int, e: int)
    requires j <= m && |r| == 2 * m && FirstApart(r, m, j, d) && FirstApart(r, m, j, e)
    ensures d == e
  {
    var i :| 0 <= i < j && AllNear(r, m, i) && Apart(r, m, i) == d && d > 2;
    var k :| 0 <= k < j && AllNear(r, m, k) && Apart(r, m, k) == e && e > 2;
    assert i == k;
  }

  /** What a window shows: its rates, with the error of the sum, or the minutes of its first pair too far apart. */
  predicate ShowsWindow(result: Result, r: seq<Instant>, m: nat)
    requires Window(r, m)
  {
    && (result.Rates? || result.DivisionByZero? <==> AllNear(r, m, m))
    && (AllNear(r, m, m) ==>
          result == RatesOf((DiffSum(RealTicks(r), m, m) + 0x1_0000_0000 * Decreasing(r, m, m)) / m / m))
    && (forall d: U32 :: result == InvalidMinutes(d) <==> FirstApart(r, m, m, d))
  }

  /**
   For real rotations: the minutes are refused exactly if a pair is more than two
   apart, with the minutes of the first such pair; otherwise the rates are shown.
   */
  lemma ResultOfWindow(r: seq<Instant>, m: nat)
    requires Window(r, m)
    ensures ShowsWindow(ResultOf(Stamps(r), m), r, m)
  {
    SumOfWindow(r, m, m);
    RefusedIsFirst(r, m, m);
    if RealSum(r, m, m).Some? { RealSumIsReal(r, m, m); }
    var sum, result := SumPairs(Stamps(r), m, m), ResultOf(Stamps(r), m);
    forall d: U32 ensures result == InvalidMinutes(d) <==> FirstApart(r, m, m, d) {
      if FirstApart(r, m, m, d) {
        var i :| 0 <= i < m && AllNear(r, m, i) && Apart(r, m, i) == d && d > 2;
        assert !AllNear(r, m, m);
        OneFirst(r, m, m, d, sum.diff);
      }
    }
  }

  /** Nothing was divided by 0 and the rates shown are in range. */
  predicate Sane(result: Result) {
    !result.DivisionByZero? && (result.Rates? ==> result.rpm <= 59999 && result.rpsx100 <= 99998)
  }

  /** Every rotation queued was in the present minute or before it. */
  lemma QueuedBeforeNow(w: World, i: nat)
    requires Faithful(w) && i < |w.queued|
    ensures w.queued[i].minute <= w.now.minute
  {
    SpacedApart(w.queued, i, |w.queued| - 1);
  }

  /** The rotations whose stamps are the last `size` taken. */
  function LastRotations(w: World, size: nat): seq<Instant>
    requires Faithful(w) && size <= |w.taken|
  {
    assert |w.taken| + |w.timer.timeStore| == |Stamps(w.queued)| == |w.queued|;
    w.queued[|w.taken| - size..|w.taken|]
  }

  lemma EndsOfSlice(s: seq<Instant>, k: nat, n: nat)
    requires 0 < n && k + n <= |s|
    ensures s[k..k + n][0] == s[k] && s[k..k + n][n - 1] == s[k + n - 1]
  {
  }

  lemma LastWindow(w: World, m: nat)
    requires Faithful(w) && 0 < m && 2 * m <= |w.taken| && w.now.minute < TWO_TO_THE_32
    ensures w.taken[|w.taken| - 2 * m..] == Stamps(LastRotations(w, 2 * m))
    ensures Window(LastRotations(w, 2 * m), m)
  {
    var n := 2 * m;
    var k := |w.taken| - n;
    WindowOfRun(w, k, n);
    QueuedBeforeNow(w, k + n - 1);
    EndsOfSlice(w.queued, k, n);
    assert k + n == |w.taken| && LastRotations(w, n) == w.queued[k..k + n] && w.taken[k..k + n] == w.taken[k..];
  }

  lemma WindowIsSane(r: seq<Instant>, m: nat)
    requires Window(r, m) && m <= 59999
    ensures Sane(ResultOf(Stamps(r), m)) && ShowsWindow(ResultOf(Stamps(r), m), r, m)
  {
    SpacedIsSafe(r, m);
    ResultOfWindow(r, m);
  }

  /** The last stamps taken, while the minutes since the start still fit in 32 bits. */
  lemma LastWindowIsSane(w: World, m: nat)
    requires Faithful(w) && 0 < m <= 59999 && 2 * m <= |w.taken| && w.now.minute < TWO_TO_THE_32
    ensures Sane(ResultOf(w.taken[|w.taken| - 2 * m..], m))
    ensures Window(LastRotations(w, 2 * m), m)
    ensures ShowsWindow(ResultOf(w.taken[|w.taken| - 2 * m..], m), LastRotations(w, 2 * m), m)
  {
    LastWindow(w, m);
    WindowIsSane(LastRotations(w, 2 * m), m);
  }

  lemma ShownIsSane(w: World, size: nat, result: Result)
    requires Faithful(w) && w.now.minute < TWO_TO_THE_32
    requires 0 < size <= 2 * 59999 && size % 2 == 0
    requires result ==
      if |w.taken| < size then MissingValues(size - |w.taken|)
      else ResultOf(w.taken[|w.taken| - size..], size / 2)
    ensures Sane(result) && (result.MissingValues? <==> |w.taken| < size)
    ensures size <= |w.taken| ==>
              var r := LastRotations(w, size);
              Window(r, size / 2) && ShowsWindow(result, r, size / 2)
  {
    if |w.taken| >= size {
      LastWindowIsSane(w, size / 2);
    }
  }

  lemma TakeKeepsFaithful(w: World)
    requires Faithful(w) && w.timer.timeStore != []
    ensures Faithful(Step(w, Event.Take)) && Step(w, Event.Take).now == w.now
    ensures Step(w, Event.Take).taken == w.taken + [w.timer.timeStore[0]]
    ensures Step(w, Event.Take).timer == w.timer.(timeStore := w.timer.timeStore[1..])
  {
    StepKeepsFaithful(w, Event.Take);
  }

  /**
   One round of the speed task on the timer's queue: the next stamp goes into the
   history, and what is shown is what the last rotations were, and sane, after every
   run of the timer. `w` is what really happened so far.
   */
  method SpeedUpdate(timer: Timer1, meter: Meter, ghost w: World) returns (result: Result)
    requires meter.Valid() && meter.size <= 2 * 59999 && timer.timeStore != []
    requires Faithful(w) && w.now.minute < TWO_TO_THE_32
    requires timer.Abs() == w.timer && meter.samples == w.taken
    modifies timer`timeStore, meter, meter.prvHistory
    ensures meter.Valid() && Faithful(Step(w, Event.Take))
    ensures timer.Abs() == Step(w, Event.Take).timer && meter.samples == Step(w, Event.Take).taken
    ensures Sane(result) && (result.MissingValues? <==> |meter.samples| < meter.size)
    ensures meter.size <= |meter.samples| ==>
              var r := LastRotations(Step(w, Event.Take), meter.size);
              Window(r, meter.size / 2) && ShowsWindow(result, r, meter.size / 2)
  {
    TakeKeepsFaithful(w);
    var tse := timer.Take();
    result := meter.SpeedCalc(tse);
    ShownIsSane(Step(w, Event.Take), meter.size, result);
  }

  /** Rotations at the filter's distance, and the same again exactly 2^32 minutes later. */
  function ComeRound(m: nat): (r: seq<Instant>)
    requires 0 < m <= 59999
    ensures |r| == 2 * m
    ensures forall i | 0 <= i < m :: r[i] == Instant(0, i * 58983)
    ensures forall i | m <= i < 2 * m :: r[i] == Instant(TWO_TO_THE_32, (i - m) * 58983)
  {
    seq(2 * m, i requires 0 <= i < 2 * m =>
      if i < m then Instant(0, i * 58983) else Instant(TWO_TO_THE_32, (i - m) * 58983))
  }

  lemma ComeRoundIsSpaced(m: nat)
    requires 0 < m <= 59999
    ensures Spaced(ComeRound(m))
  {
    var r := ComeRound(m);
    forall i | 0 < i < |r| ensures FollowsAt(r, i) {
      assert r[i - 1] == if i - 1 < m then Instant(0, (i - 1) * 58983) else Instant(TWO_TO_THE_32, (i - 1 - m) * 58983);
    }
  }

  lemma {:induction false} ComeRoundSum(m: nat, j: nat)
    requires 0 < m <= 59999 && j <= m && Spaced(ComeRound(m))
    ensures SumPairs(Stamps(ComeRound(m)), m, j) == Ticks(0)
  {
    if j > 0 {
      ComeRoundSum(m, j - 1);
      var r := ComeRound(m);
      var w := Stamps(r);
      assert w[j - 1] == r[j - 1].Stamped() == Stamp(0, (j - 1) * 58983);
      assert w[j - 1 + m] == r[j - 1 + m].Stamped() == Stamp(0, (j - 1) * 58983);
    }
  }

  /**
   The bound on the minutes is exact: every window of spaced rotations that spans
   at most so many minutes is safe exactly if they are fewer than 2^32. At 2^32 the
   minute counts come round and the division is by 0.
   */
  lemma SpanBoundIsExact(m: nat, span: nat)
    requires 0 < m <= 59999
    ensures (forall r: seq<Instant> | |r| == 2 * m && Spaced(r) && r[2 * m - 1].minute - r[0].minute <= span ::
               SafeOn(Stamps(r), m))
       <==> span < TWO_TO_THE_32
    ensures ResultOf(Stamps(ComeRound(m)), m) == DivisionByZero
  {
    var r := ComeRound(m);
    ComeRoundIsSpaced(m);
    ComeRoundSum(m, m);
    DivUnique(0, m, 0);
    if span < TWO_TO_THE_32 {
      forall r: seq<Instant> | |r| == 2 * m && Spaced(r) && r[2 * m - 1].minute - r[0].minute <= span
        ensures SafeOn(Stamps(r), m)
      {
        SpacedIsSafe(r, m);
      }
    } else {
      assert !SafeOn(Stamps(r), m);
    }
  }

  lemma AverageAtLeast(total: nat, d: nat)
    requires 0 < d && 58983 * d <= total
    ensures 58983 <= total / d
  {
    QuotientBetween(total, d, 58983, total);
  }

  /** The two rates agree up to rounding: a hundred times rpm against sixty times the hundredths per second. */
  lemma RatesAgree(a: nat)
    requires 1 <= a
    ensures -100 < 100 * (60 * TICK_HZ / a) - 60 * (100 * TICK_HZ / a) < 60
  {
    var x, y := 60 * TICK_HZ / a, 100 * TICK_HZ / a;
    assert 60 * TICK_HZ == a * x + 60 * TICK_HZ % a;
    assert 100 * TICK_HZ == a * y + 100 * TICK_HZ % a;
    var gap := 100 * x - 60 * y;
    assert a * gap == 100 * (a * x) - 60 * (a * y);
    assert a * gap == gap * a;
    assert -100 * a < gap * a < 60 * a;
    if gap >= 60 { MulMonotone(60, gap, a); }
    if gap <= -100 { MulMonotone(gap, -100, a); }
  }

  /** A longer interval never shows as a higher rate. */
  lemma RatesAntitone(a: nat, b: nat)
    requires 1 <= a <= b
    ensures 60 * TICK_HZ / b <= 60 * TICK_HZ / a && 100 * TICK_HZ / b <= 100 * TICK_HZ / a
  {
    QuotientAntitone(60 * TICK_HZ, a, b);
    QuotientAntitone(100 * TICK_HZ, a, b);
  }

  lemma QuotientAntitone(x: nat, a: nat, b: nat)
    requires 1 <= a <= b
    ensures x / b <= x / a
  {
    var p, q := x / a, x / b;
    assert x == a * p + x % a && x == b * q + x % b;
    assert b * q == q * b && a * p == p * a;
    if q > p {
      assert 0 <= p by { if p < 0 { MulMonotone(p, -1, a); } }
      MulMonotoneBoth(p + 1, a, q, b);
      Distribute(p, a, 0);
    }
  }

  /** The two numbers printed for the rotations per second put the hundredths back together. */
  lemma PrintedPartsRecombine(rpsx100: U32)
    ensures
      var whole, fraction := rpsx100 / 100, rpsx100 - 100 * (rpsx100 / 100);
      0 <= fraction < 100 && 100 * whole + fraction == rpsx100
  {
  }
}
