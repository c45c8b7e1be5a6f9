/**
 The speed calculation: a ring buffer of the last time stamps, the sum of the
 differences across half of it, and the two rates shown.
 */
module Speed {
  import opened Division
  import opened Machine
  import opened Timer

  const TICK_HZ := 58_982_400

  type U64 = n: int | 0 <= n < 0x1_0000_0000_0000_0000

  /** What one sample leads to; dividing by an average of 0 is undefined in C. */
  datatype Result =
    | MissingValues(missing: U32)
    | InvalidMinutes(diff: U32)
    | DivisionByZero
    | Rates(rpm: U32, rpsx100: U32)

  datatype Sum = Ticks(total: nat) | Invalid(diff: U32)

  /** One step of the summation: the switch on the minutes, then the captures subtracted in uint32_t. */
  function AddPair(sum: nat, older: Stamp, newer: Stamp): Sum {
    var diff := ToU32(newer.minuteCount - older.minuteCount);
    if diff > 2 then Invalid(diff)
    else Ticks(sum + diff * 0xD2F0_0000 + ToU32(newer.captureCount - older.captureCount))
  }

  /** The sum over the first j pairs of stamps m apart, or the first minute difference over 2. */
  function SumPairs(w: seq<Stamp>, m: nat, j: nat): Sum
    requires j <= m && |w| == 2 * m
  {
    if j == 0 then Ticks(0)
    else
      var before := SumPairs(w, m, j - 1);
      if before.Invalid? then before else AddPair(before.total, w[j - 1], w[j - 1 + m])
  }

  function RatesOf(average: int): Result {
    if average == 0 then DivisionByZero
    else Rates(ToU32(60 * TICK_HZ / average), ToU32(100 * TICK_HZ / average))
  }

  /** The result for a full window of 2m stamps, oldest first. */
  function ResultOf(w: seq<Stamp>, m: nat): Result
    requires 0 < m && |w| == 2 * m
  {
    match SumPairs(w, m, m)
    case Invalid(diff) => InvalidMinutes(diff)
    case Ticks(total) => RatesOf(total / m / m)
  }

  /**
   The rates for every average from 1 up: rpm is never truncated, and the hundredths
   per second are not exactly from an average of 2 on.
   */
  lemma RatesExactly(average: nat)
    requires 1 <= average
    ensures RatesOf(average).Rates? && RatesOf(average).rpm == 60 * TICK_HZ / average
    ensures RatesOf(average).rpsx100 == 100 * TICK_HZ / average <==> 2 <= average
    ensures RatesOf(0) == DivisionByZero
  {
    DivisionOf(60 * TICK_HZ, average);
    DivisionOf(100 * TICK_HZ, average);
    var x, y := 60 * TICK_HZ / average, 100 * TICK_HZ / average;
    if x >= 0x1_0000_0000 { MulMonotone(1, average, x); Commute(x, average); }
    if x < 0 { MulMonotone(x, -1, average); }
    if y < 0 { MulMonotone(y, -1, average); }
    RemainderUnique(x, 0x1_0000_0000, 0, x);
    if 2 <= average {
      MulMonotone(2, average, y);
      Commute(y, average);
      RemainderUnique(y, 0x1_0000_0000, 0, y);
    }
  }

  lemma {:induction false} SumBound(w: seq<Stamp>, m: nat, j: nat)
    requires j <= m && |w| == 2 * m
    ensures SumPairs(w, m, j).Ticks? ==> SumPairs(w, m, j).total <= j * 0x4_0000_0000
  {
    if j > 0 { SumBound(w, m, j - 1); }
  }

  lemma {:induction false} InvalidStays(w: seq<Stamp>, m: nat, i: nat, j: nat)
    requires i <= j <= m && |w| == 2 * m && SumPairs(w, m, i).Invalid?
    ensures SumPairs(w, m, j) == SumPairs(w, m, i)
    decreases j
  {
    if i < j { InvalidStays(w, m, i, j - 1); }
  }

  lemma NextSum(w: seq<Stamp>, m: nat, j: nat, total: nat)
    requires j < m && |w| == 2 * m && SumPairs(w, m, j) == Ticks(total)
    ensures SumPairs(w, m, j + 1) == AddPair(total, w[j], w[j + m])
    ensures match SumPairs(w, m, j + 1)
            case Ticks(next) => next <= (j + 1) * 0x4_0000_0000
            case Invalid(_) => SumPairs(w, m, m) == SumPairs(w, m, j + 1)
  {
    SumBound(w, m, j + 1);
    if SumPairs(w, m, j + 1).Invalid? { InvalidStays(w, m, j + 1, m); }
  }

  function Pow2(k: nat): (p: nat)
    ensures 1 <= p
  {
    if k == 0 then 1 else 2 * Pow2(k - 1)
  }

  lemma {:induction false} Pow2Splits(a: nat, b: nat)
    ensures Pow2(a + b) == Pow2(a) * Pow2(b)
  {
    if b > 0 {
      Pow2Splits(a, b - 1);
      Associate(Pow2(a), 2, Pow2(b - 1));
      Associate(2, Pow2(a), Pow2(b - 1));
      Commute(2, Pow2(a));
    }
  }

  lemma {:induction false} Pow2Monotone(a: nat, b: nat)
    requires a <= b
    ensures Pow2(a) <= Pow2(b)
  {
    if a < b { Pow2Monotone(a, b - 1); }
  }

  lemma Pow2Values()
    ensures Pow2(30) == 0x4000_0000 && Pow2(32) == TWO_TO_THE_32
  {
    assert Pow2(8) == 0x100;
    Pow2Splits(8, 8);
    Pow2Splits(16, 16);
    Pow2Splits(16, 8);
    Pow2Splits(24, 6);
    assert Pow2(6) == 64;
  }

  /** The slot of sample k in a ring of n: whole turns taken off. */
  function Slot(k: nat, n: nat): (s: nat)
    requires 0 < n
    ensures s < n
  {
    if k < n then k else Slot(k - n, n)
  }

  lemma {:induction false} SlotPlusTurns(r: nat, q: nat, n: nat)
    requires 0 < n
    ensures 0 <= n * q && Slot(r + n * q, n) == Slot(r, n)
  {
    if q > 0 {
      SlotPlusTurns(r, q - 1, n);
      DistributeSum(n, q - 1, 1);
    }
  }

  /** It is the remainder. */
  lemma {:induction false} SlotIsRemainder(k: nat, n: nat)
    requires 0 < n
    ensures Slot(k, n) == k % n
  {
    if k < n {
      RemainderUnique(k, n, 0, k);
    } else {
      SlotIsRemainder(k - n, n);
      DivisionOf(k - n, n);
      Distribute((k - n) / n, n, 0);
      RemainderUnique(k, n, (k - n) / n + 1, (k - n) % n);
    }
  }

  lemma {:induction false} HalfSlot(k: nat, half: nat)
    requires 0 < half
    ensures Slot(k, 2 * half) == 2 * Slot(k / 2, half) + k % 2
  {
    if k >= 2 * half {
      HalfSlot(k - 2 * half, half);
      assert (k - 2 * half) / 2 == k / 2 - half;
    }
  }

  /** The lowest bit passes a mask of ones. */
  lemma MaskStep(k: nat, half: nat)
    requires 1 <= half
    ensures And(k, 2 * half - 1) == 2 * And(k / 2, half - 1) + k % 2
  {
    assert (2 * half - 1) / 2 == half - 1 && (2 * half - 1) % 2 == 1;
  }

  lemma MaskDoubles(k: nat, half: nat)
    requires 1 <= half && And(k / 2, half - 1) == Slot(k / 2, half)
    ensures And(k, 2 * half - 1) == Slot(k, 2 * half)
  {
    MaskStep(k, half);
    HalfSlot(k, half);
  }

  /** In a ring whose size is a power of two the mask size - 1 leaves the slot. */
  lemma {:induction false} MaskIsSlot(k: nat, bits: nat)
    ensures And(k, Pow2(bits) - 1) == Slot(k, Pow2(bits))
  {
    if bits == 0 {
      AllTurns(k);
    } else {
      MaskIsSlot(k / 2, bits - 1);
      MaskDoubles(k, Pow2(bits - 1));
    }
  }

  lemma {:induction false} AllTurns(k: nat)
    ensures Slot(k, 1) == 0
  {
    if k > 0 { AllTurns(k - 1); }
  }

  /** Samples less than a whole turn apart have different slots. */
  lemma {:induction false} SlotsDiffer(a: nat, b: nat, n: nat)
    requires 0 < n && a < b < a + n
    ensures Slot(a, n) != Slot(b, n)
  {
    if a >= n { SlotsDiffer(a - n, b - n, n); }
  }

  lemma WrapOnce(k: nat)
    requires k >= TWO_TO_THE_32
    ensures ToU32(k - TWO_TO_THE_32) == ToU32(k)
  {
    DivisionOf(k, 0x1_0000_0000);
    RemainderUnique(k - TWO_TO_THE_32, 0x1_0000_0000, k / 0x1_0000_0000 - 1, ToU32(k));
  }

  lemma WrapSum(k: nat, i: nat)
    ensures ToU32(ToU32(k) + i) == ToU32(k + i)
  {
    RemainderOfSum(k, i, 0x1_0000_0000);
  }

  lemma {:induction false} WrapKeepsTurns(k: nat, n: nat, turns: nat)
    requires 0 < n && n * turns == TWO_TO_THE_32
    ensures Slot(ToU32(k), n) == Slot(k, n)
  {
    if k >= TWO_TO_THE_32 {
      WrapOnce(k);
      WrapKeepsTurns(k - TWO_TO_THE_32, n, turns);
      SlotPlusTurns(k - TWO_TO_THE_32, turns, n);
    }
  }

  /** A power of two divides 2^32, so the wrap of a uint32_t counter does not disturb the slots. */
  lemma WrapKeepsSlot(k: nat, bits: nat)
    requires bits <= 32
    ensures Slot(ToU32(k), Pow2(bits)) == Slot(k, Pow2(bits))
  {
    Pow2Values();
    Pow2Splits(bits, 32 - bits);
    WrapKeepsTurns(k, Pow2(bits), Pow2(32 - bits));
  }

  /** The masked index, counted from a start that has wrapped, is the slot of the sample. */
  lemma MaskedIndex(first: nat, i: nat, bits: nat)
    requires bits <= 32
    ensures And(ToU32(ToU32(first) + i), Pow2(bits) - 1) == Slot(first + i, Pow2(bits))
  {
    WrapSum(first, i);
    WrapKeepsSlot(first + i, bits);
    MaskIsSlot(ToU32(first + i), bits);
  }

  /** The oldest sample of a full ring is where the next one goes. */
  lemma OldestIsNext(first: nat, bits: nat)
    requires bits <= 32
    ensures And(ToU32(first), Pow2(bits) - 1) == Slot(first + Pow2(bits), Pow2(bits))
  {
    WrapKeepsSlot(first, bits);
    MaskIsSlot(ToU32(first), bits);
  }

  class Meter {
    const bits: nat                      // prvHMAX is 1 << bits
    const size: nat                      // prvHMAX
    const prvHistory: array<Stamp>
    var start: U32
    var missing: U32
    ghost var samples: seq<Stamp>        // every sample so far

    /** The ring holds the last samples, oldest at `start` once it is full; until then it fills from the front. */
    ghost predicate Valid()
      reads this, prvHistory
    {
      && 1 <= bits <= 31 && size == Pow2(bits) <= 0x8000_0000 && size % 2 == 0
      && prvHistory.Length == size
      && missing == (if |samples| < size then size - |samples| else 0)
      && start == (if |samples| < size then 0 else ToU32(|samples| - size))
      && Holds()
    }

    /** Each of the last `size` samples is in its slot. */
    ghost predicate Holds()
      requires 0 < size == prvHistory.Length
      reads this, prvHistory
    {
      forall k {:trigger Slot(k, size)} | 0 <= k < |samples| && |samples| <= k + size ::
        prvHistory[Slot(k, size)] == samples[k]
    }

    constructor (bits: nat)
      requires 1 <= bits <= 31
      ensures Valid() && samples == [] && this.bits == bits && fresh(prvHistory)
    {
      this.bits := bits;
      size := Pow2(bits);
      prvHistory := new Stamp[Pow2(bits)](_ => Stamp(0x3FFF_FFFF, 0));
      start, samples := 0, [];
      Pow2Values();
      Pow2Monotone(bits, 31);
      missing := Pow2(bits);
    }

    /** Sample number |samples| put into its slot of the ring. */
    method Put(place: nat, tse: Stamp)
      requires size == prvHistory.Length && 0 < size && place == Slot(|samples|, size) && Holds()
      modifies this`samples, prvHistory
      ensures samples == old(samples) + [tse] && Holds()
    {
      prvHistory[place] := tse;
      forall k | 0 <= k < |samples| && |samples| + 1 <= k + size
        ensures prvHistory[Slot(k, size)] == samples[k]
      {
        SlotsDiffer(k, |samples|, size);
      }
      samples := samples + [tse];
    }

    /** Filling up: the sample goes into the first free place. */
    method Fill(tse: Stamp)
      requires Valid() && 1 <= missing
      modifies this, prvHistory
      ensures Valid() && samples == old(samples) + [tse]
    {
      Put(start + size - missing, tse);
      missing := missing - 1;
    }

    /** The ring is full: the sample goes over the oldest. */
    method Replace(tse: Stamp)
      requires Valid() && missing == 0
      modifies this, prvHistory
      ensures Valid() && samples == old(samples) + [tse]
    {
      ghost var first := |samples| - size;
      OldestIsNext(first, bits);
      WrapSum(first, 1);
      Put(And(start, size - 1), tse);
      start := ToU32(start + 1);
      assert |samples| - size == first + 1;
    }

    /** The first half of prvSpeedCalc. */
    method Store(tse: Stamp)
      requires Valid()
      modifies this, prvHistory
      ensures Valid() && samples == old(samples) + [tse]
    {
      if 1 <= missing {
        Fill(tse);
      } else {
        Replace(tse);
      }
    }

    /** Where the loop of prvSpeedCalc finds the i-th oldest of a full ring. */
    lemma OldestFirst(i: nat)
      requires Valid() && missing == 0 && i < size
      ensures And(ToU32(start + i), size - 1) < size
      ensures prvHistory[And(ToU32(start + i), size - 1)] == samples[|samples| - size + i]
    {
      MaskedIndex(|samples| - size, i, bits);
      assert Slot(|samples| - size + i, size) < size;
    }

    /** The switch: one minute for each case it falls through, then the difference of the captures. */
    method AddTo(sum: U64, older: Stamp, newer: Stamp, ghost j: nat) returns (added: Sum)
      requires sum <= j * 0x4_0000_0000 && j < 0x4000_0000
      ensures added == AddPair(sum, older, newer)
    {
      var diff := ToU32(newer.minuteCount - older.minuteCount);
      if diff > 2 { return Invalid(diff); }
      var total: U64 := sum;
      if diff == 2 { total := total + TICKS_PER_MINUTE; }
      if diff >= 1 { total := total + TICKS_PER_MINUTE; }
      total := total + ToU32(newer.captureCount - older.captureCount);
      return Ticks(total);
    }

    /** The two stamps of round j, at the masked indexes. */
    method PairAt(m: nat, j: nat) returns (older: Stamp, newer: Stamp)
      requires Valid() && missing == 0 && size == 2 * m && j < m
      ensures older == samples[|samples| - size..][j]
      ensures newer == samples[|samples| - size..][j + m]
    {
      OldestFirst(j);
      OldestFirst(m + j);
      older := prvHistory[And(ToU32(start + j), size - 1)];
      newer := prvHistory[And(ToU32(start + (m + j)), size - 1)];
    }

    /** The loop: the long differences added up until one is invalid. */
    method SumDifferences(m: nat) returns (sum: Sum)
      requires Valid() && missing == 0 && size == 2 * m
      ensures sum == SumPairs(samples[|samples| - size..], m, m)
    {
      ghost var w := samples[|samples| - size..];
      var tick_diff_sum: U64 := 0;
      for j := 0 to m
        invariant SumPairs(w, m, j) == Ticks(tick_diff_sum) && tick_diff_sum <= j * 0x4_0000_0000
      {
        var older, newer := PairAt(m, j);
        var added := AddTo(tick_diff_sum, older, newer, j);
        NextSum(w, m, j, tick_diff_sum);
        if added.Invalid? { return added; }
        tick_diff_sum := added.total;
      }
      return Ticks(tick_diff_sum);
    }

    /** The two divisions by half the size, and the rates. */
    method Compute() returns (result: Result)
      requires Valid() && missing == 0
      ensures result == ResultOf(samples[|samples| - size..], size / 2)
    {
      var sum := SumDifferences(size / 2);
      if sum.Invalid? { return InvalidMinutes(sum.diff); }
      var tick_diff_average := sum.total / (size / 2) / (size / 2);
      if tick_diff_average == 0 { return DivisionByZero; }
      var rpsx100 := ToU32(100 * TICK_HZ / tick_diff_average);
      var rpm := ToU32(60 * TICK_HZ / tick_diff_average);
      return Rates(rpm, rpsx100);
    }

    /** prvSpeedCalc: after any number of samples, the result is that of the last `size` of them. */
    method SpeedCalc(tse: Stamp) returns (result: Result)
      requires Valid()
      modifies this, prvHistory
      ensures Valid() && samples == old(samples) + [tse]
      ensures result ==
        if |samples| < size then MissingValues(size - |samples|)
        else ResultOf(samples[|samples| - size..], size / 2)
    {
      Store(tse);
      if missing > 0 { return MissingValues(missing); }
      result := Compute();
    }
  }
}
