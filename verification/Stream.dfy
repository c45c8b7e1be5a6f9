/**
 The non-blocking stream buffer demonstration: one task keeps sending a string, as
 much as fits each time, and another receives into a small buffer and compares what
 it got with the string, in two parts when the string's end falls within it. The
 stream buffer is taken by its contract: bounded, first in first out, and each call
 moves at once any number of bytes that there is room for or that are there.
 */
module Stream {
  import opened Division
  import opened Machine

  /** The string without its NUL, and the sizes of the stream buffer and of the receiver's own. */
  datatype Setup = Setup(text: seq<U8>, capacity: nat, rxSize: nat)
  {
    predicate Valid() {
      0 < |text| && 0 !in text
    }

    /** The string as it lies in memory. */
    function Memory(): seq<U8> {
      text + [0]
    }
  }

  datatype State = State(
    sNext: nat,          // the sender's xNextChar
    rNext: nat,          // the receiver's xNextChar
    buffer: seq<U8>,
    failed: bool,        // an expectation of the sender failed
    error: bool,         // the receiver's xNonBlockingReceiveError
    counter: U32)

  /** Whether n bytes of the memory, from i, and of the chunk, from j, are the same; past its end the memory differs. */
  predicate Same(memory: seq<U8>, i: nat, chunk: seq<U8>, j: nat, n: nat)
    requires j + n <= |chunk|
    decreases n
  {
    n == 0 || (i < |memory| && memory[i] == chunk[j] && Same(memory, i + 1, chunk, j + 1, n - 1))
  }

  /** One round of prvNonBlockingSenderTask in which the buffer takes n bytes. */
  function Sent(c: Setup, s: State, n: nat): State
    requires s.sNext + n <= |c.text|
  {
    var next := s.sNext + n;
    s.(buffer := s.buffer + c.text[s.sNext..next], sNext := if next == |c.text| then 0 else next)
  }

  /** The two comparisons: whether they find the bytes as expected, and the index they leave. */
  function Compared(c: Setup, next: nat, chunk: seq<U8>): (bool, nat)
    requires next < |c.text|
  {
    var tail := |c.text| - next;
    if |chunk| > tail then
      var rest := |chunk| - tail;
      (Same(c.Memory(), next, chunk, 0, tail) && Same(c.Memory(), 0, chunk, tail, rest),
       if rest >= |c.text| then 0 else rest)
    else
      (Same(c.Memory(), next, chunk, 0, |chunk|), if next + |chunk| >= |c.text| then 0 else next + |chunk|)
  }

  /** One round of prvNonBlockingReceiverTask in which it gets n bytes. */
  function Took(c: Setup, s: State, n: nat): State
    requires s.rNext < |c.text| && n <= |s.buffer|
  {
    if n == 0 then s
    else
      var (right, next) := Compared(c, s.rNext, s.buffer[..n]);
      var error := s.error || !right;
      s.(buffer := s.buffer[n..], rNext := next, error := error,
         counter := if error then s.counter else ToU32(s.counter + 1))
  }

  // ---- Where in the string the k-th byte of the stream is ----

  function Place(length: nat, k: nat): (p: nat)
    requires 0 < length
    ensures p < length
  {
    if k == 0 then 0
    else
      var p := Place(length, k - 1) + 1;
      if p == length then 0 else p
  }

  lemma {:induction false} PlaceIsRemainder(length: nat, k: nat) returns (q: nat)
    requires 0 < length
    ensures k == q * length + Place(length, k)
  {
    q := 0;
    if k > 0 {
      q := PlaceIsRemainder(length, k - 1);
      if Place(length, k) == 0 {
        Distribute(q, length, 0);
        q := q + 1;
      }
    }
  }

  lemma PlaceIsModulo(length: nat, k: nat)
    requires 0 < length
    ensures Place(length, k) == k % length
  {
    var q := PlaceIsRemainder(length, k);
    RemainderUnique(k, length, q, Place(length, k));
  }

  /** Up to the end of the string the place advances with the stream. */
  lemma {:induction false} PlaceAfter(length: nat, k: nat, n: nat)
    requires 0 < length && Place(length, k) + n <= length
    ensures Place(length, k + n) == if Place(length, k) + n == length then 0 else Place(length, k) + n
  {
    if n > 0 {
      PlaceAfter(length, k, n - 1);
    }
  }

  // ---- Sender, buffer and receiver are at the same text ----

  function Char(c: Setup, k: nat): U8
    requires c.Valid()
  {
    c.text[Place(|c.text|, k)]
  }

  /**
   After so many bytes sent and received: the indexes are theirs, the buffer holds
   the bytes between, nothing is wrong.
   */
  predicate InStep(c: Setup, s: State, sent: nat, received: nat) {
    && c.Valid()
    && s.sNext == Place(|c.text|, sent) && s.rNext == Place(|c.text|, received)
    && received + |s.buffer| == sent && |s.buffer| <= c.capacity
    && (forall i | 0 <= i < |s.buffer| :: s.buffer[i] == Char(c, received + i))
    && !s.failed && !s.error
  }

  lemma SendKeepsStep(c: Setup, s: State, sent: nat, received: nat, n: nat)
    requires InStep(c, s, sent, received) && s.sNext + n <= |c.text| && |s.buffer| + n <= c.capacity
    ensures InStep(c, Sent(c, s, n), sent + n, received)
  {
    var after := Sent(c, s, n);
    PlaceAfter(|c.text|, sent, n);
    forall i | 0 <= i < |after.buffer| ensures after.buffer[i] == Char(c, received + i) {
      if i >= |s.buffer| {
        var j := i - |s.buffer|;
        PlaceAfter(|c.text|, sent, j);
        assert received + i == sent + j;
      }
    }
  }

  lemma {:induction false} SameIsSlice(memory: seq<U8>, i: nat, chunk: seq<U8>, j: nat, n: nat)
    requires j + n <= |chunk|
    ensures Same(memory, i, chunk, j, n) <==> n == 0 || (i + n <= |memory| && memory[i..i + n] == chunk[j..j + n])
    decreases n
  {
    if n > 0 {
      SameIsSlice(memory, i + 1, chunk, j + 1, n - 1);
      if i + n <= |memory| {
        assert memory[i..i + n] == [memory[i]] + memory[i + 1..i + n];
        assert chunk[j..j + n] == [chunk[j]] + chunk[j + 1..j + n];
      }
    }
  }

  /** The bytes of the stream from the received-th on. */
  predicate Following(c: Setup, chunk: seq<U8>, received: nat)
    requires c.Valid()
  {
    forall i | 0 <= i < |chunk| :: chunk[i] == Char(c, received + i)
  }

  /** A part of the chunk that does not pass the string's end compares as the same. */
  lemma PartIsSame(c: Setup, chunk: seq<U8>, received: nat, j: nat, n: nat)
    requires c.Valid() && Following(c, chunk, received) && j + n <= |chunk|
    requires Place(|c.text|, received + j) + n <= |c.text|
    ensures Same(c.Memory(), Place(|c.text|, received + j), chunk, j, n)
  {
    var i := Place(|c.text|, received + j);
    SameIsSlice(c.Memory(), i, chunk, j, n);
    var left, right := c.Memory()[i..i + n], chunk[j..j + n];
    forall k | 0 <= k < n ensures left[k] == right[k] {
      PlaceAfter(|c.text|, received + j, k);
      assert chunk[j + k] == Char(c, received + (j + k));
      assert received + (j + k) == received + j + k;
    }
  }

  /** A part that starts at the string's beginning and passes its end meets the NUL. */
  lemma PartPastEndDiffers(c: Setup, chunk: seq<U8>, received: nat, j: nat, n: nat)
    requires c.Valid() && Following(c, chunk, received) && j + n <= |chunk| && n > |c.text|
    ensures !Same(c.Memory(), 0, chunk, j, n)
  {
    var end := |c.text|;
    SameIsSlice(c.Memory(), 0, chunk, j, n);
    assert chunk[j..j + n][end] == chunk[j + end] == Char(c, received + (j + end));
    assert chunk[j + end] in c.text;
    assert c.Memory()[end] == 0;
    assert n == end + 1 ==> c.Memory()[0..0 + n][end] == 0;
  }

  /** The comparison is right about correct bytes exactly when they end within the string's second round. */
  lemma ComparedExactly(c: Setup, chunk: seq<U8>, received: nat)
    requires c.Valid() && Following(c, chunk, received)
    ensures
      var next := Place(|c.text|, received);
      && (Compared(c, next, chunk).0 <==> next + |chunk| <= 2 * |c.text|)
      && (Compared(c, next, chunk).0 ==> Compared(c, next, chunk).1 == Place(|c.text|, received + |chunk|))
  {
    var next, tail := Place(|c.text|, received), |c.text| - Place(|c.text|, received);
    if |chunk| <= tail {
      PlaceAfter(|c.text|, received, |chunk|);
      assert received + 0 == received;
      PartIsSame(c, chunk, received, 0, |chunk|);
    } else {
      var rest := |chunk| - tail;
      PlaceAfter(|c.text|, received, tail);
      assert received + 0 == received;
      PartIsSame(c, chunk, received, 0, tail);
      if rest <= |c.text| {
        PartIsSame(c, chunk, received, tail, rest);
        PlaceAfter(|c.text|, received + tail, rest);
        assert received + tail + rest == received + |chunk|;
      } else {
        PartPastEndDiffers(c, chunk, received, tail, rest);
      }
    }
  }

  lemma PrefixOfFirst(chunk: seq<U8>, a: seq<U8>, b: seq<U8>)
    requires |chunk| <= |a|
    ensures chunk <= a + b <==> chunk[0..0 + |chunk|] == a[..|chunk|]
  {
    assert (a + b)[..|chunk|] == a[..|chunk|];
    assert chunk[0..0 + |chunk|] == chunk;
  }

  lemma PrefixOfBoth(chunk: seq<U8>, a: seq<U8>, b: seq<U8>)
    requires |chunk| > |a|
    ensures
      var rest := |chunk| - |a|;
      chunk <= a + b <==> chunk[0..0 + |a|] == a && rest <= |b| && b[0..0 + rest] == chunk[|a|..|a| + rest]
  {
    var rest := |chunk| - |a|;
    assert chunk == chunk[0..0 + |a|] + chunk[|a|..|a| + rest];
    if rest <= |b| {
      assert (a + b)[..|chunk|] == a + b[0..0 + rest];
      assert a == (a + b)[..|chunk|][0..0 + |a|];
      assert b[0..0 + rest] == (a + b)[..|chunk|][|a|..|a| + rest];
    }
  }

  /**
   Of any bytes whatever: the comparison accepts them exactly if they are a beginning
   of the rest of the string, the whole string again and its NUL.
   */
  lemma ComparedIsPrefix(c: Setup, next: nat, chunk: seq<U8>)
    requires next < |c.text|
    ensures Compared(c, next, chunk).0 <==> chunk <= c.text[next..] + c.Memory()
  {
    var left, tail := c.text[next..], |c.text| - next;
    if |chunk| <= tail {
      SameIsSlice(c.Memory(), next, chunk, 0, |chunk|);
      assert c.Memory()[next..next + |chunk|] == left[..|chunk|];
      PrefixOfFirst(chunk, left, c.Memory());
    } else {
      var rest := |chunk| - tail;
      SameIsSlice(c.Memory(), next, chunk, 0, tail);
      SameIsSlice(c.Memory(), 0, chunk, tail, rest);
      assert c.Memory()[next..next + tail] == left;
      PrefixOfBoth(chunk, left, c.Memory());
    }
  }

  /** The index it leaves depends on the number of bytes alone. */
  lemma ComparedIndex(c: Setup, next: nat, chunk: seq<U8>)
    requires next < |c.text|
    ensures Compared(c, next, chunk).1 ==
              if next + |chunk| < |c.text| then next + |chunk|
              else if |c.text| < next + |chunk| < 2 * |c.text| then next + |chunk| - |c.text|
              else 0
  {
  }

  lemma ReceiveKeepsStep(c: Setup, s: State, sent: nat, received: nat, n: nat)
    requires InStep(c, s, sent, received) && n <= |s.buffer| && s.rNext + n <= 2 * |c.text|
    ensures InStep(c, Took(c, s, n), sent, received + n)
    ensures n > 0 ==> Took(c, s, n).counter == ToU32(s.counter + 1)
  {
    ComparedExactly(c, s.buffer[..n], received);
    var after := Took(c, s, n);
    forall i | 0 <= i < |after.buffer| ensures after.buffer[i] == Char(c, received + n + i) {
      assert after.buffer[i] == s.buffer[n + i];
      assert received + n + i == received + (n + i);
    }
  }

  /** However right the bytes, a receive that ends beyond the string's second round is taken for an error. */
  lemma LongReceiveFlagsError(c: Setup, s: State, sent: nat, received: nat, n: nat)
    requires InStep(c, s, sent, received) && n <= |s.buffer| && s.rNext + n > 2 * |c.text|
    ensures Took(c, s, n).error
  {
    ComparedExactly(c, s.buffer[..n], received);
  }

  // ---- Runs ----

  /** A task's round; `limit` bounds how many bytes the stream buffer moves in it. */
  datatype Event = Send(limit: nat) | Receive(limit: nat)

  /** A state with the numbers of bytes sent and received to reach it. */
  datatype Progress = Progress(state: State, sent: nat, received: nat)

  predicate Bounded(c: Setup, s: State) {
    c.Valid() && s.sNext < |c.text| && s.rNext < |c.text| && |s.buffer| <= c.capacity
  }

  /** How many bytes a round moves. */
  function Moved(c: Setup, s: State, e: Event): nat
    requires Bounded(c, s)
  {
    match e
    case Send(limit) => Min(limit, Min(c.capacity - |s.buffer|, |c.text| - s.sNext))
    case Receive(limit) => Min(limit, Min(c.rxSize, |s.buffer|))
  }

  function Step(c: Setup, p: Progress, e: Event): (after: Progress)
    requires Bounded(c, p.state)
    ensures Bounded(c, after.state)
  {
    var n := Moved(c, p.state, e);
    match e
    case Send(_) => Progress(Sent(c, p.state, n), p.sent + n, p.received)
    case Receive(_) => Progress(Took(c, p.state, n), p.sent, p.received + n)
  }

  const START := Progress(State(0, 0, [], false, false, 0), 0, 0)

  function Run(c: Setup, events: seq<Event>): (p: Progress)
    requires c.Valid()
    ensures Bounded(c, p.state)
  {
    if events == [] then START
    else
      var last := |events| - 1;
      Step(c, Run(c, events[..last]), events[last])
  }

  predicate Agrees(c: Setup, p: Progress) {
    InStep(c, p.state, p.sent, p.received)
  }

  /** No receive is longer than the string and one byte: the receive buffer or the stream buffer is too short for it. */
  predicate ShortReceives(c: Setup) {
    c.rxSize <= |c.text| + 1 || c.capacity <= |c.text| + 1
  }

  lemma StepAgrees(c: Setup, p: Progress, e: Event)
    requires Agrees(c, p) && ShortReceives(c)
    ensures Agrees(c, Step(c, p, e))
  {
    match e
    case Send(_) => SendKeepsStep(c, p.state, p.sent, p.received, Moved(c, p.state, e));
    case Receive(_) => ReceiveKeepsStep(c, p.state, p.sent, p.received, Moved(c, p.state, e));
  }

  /** Every interleaving of rounds, with one of the buffers at most one byte longer than the string, stays in step. */
  lemma {:induction false} EveryRunAgrees(c: Setup, events: seq<Event>)
    requires c.Valid() && ShortReceives(c)
    ensures Agrees(c, Run(c, events))
  {
    if events != [] {
      var last := |events| - 1;
      EveryRunAgrees(c, events[..last]);
      StepAgrees(c, Run(c, events[..last]), events[last]);
    }
  }

  /** The indexes are then the numbers of bytes moved modulo the string's length, and so is the text in the buffer. */
  lemma AgreementIsModular(c: Setup, p: Progress)
    requires Agrees(c, p)
    ensures p.state.sNext == p.sent % |c.text| && p.state.rNext == p.received % |c.text|
    ensures forall i | 0 <= i < |p.state.buffer| :: p.state.buffer[i] == c.text[(p.received + i) % |c.text|]
  {
    PlaceIsModulo(|c.text|, p.sent);
    PlaceIsModulo(|c.text|, p.received);
    forall i | 0 <= i < |p.state.buffer| ensures p.state.buffer[i] == c.text[(p.received + i) % |c.text|] {
      PlaceIsModulo(|c.text|, p.received + i);
      assert p.state.buffer[i] == Char(c, p.received + i);
    }
  }

  // ---- The counter that shows the check task that the receiver is at work ----

  /** How many receives of a run moved at least one byte. */
  function Arrivals(c: Setup, events: seq<Event>): nat
    requires c.Valid()
  {
    if events == [] then 0
    else
      var last := |events| - 1;
      Arrivals(c, events[..last]) + if Arrives(c, Run(c, events[..last]), events[last]) then 1 else 0
  }

  /** The receiver gets at least one byte. */
  predicate Arrives(c: Setup, p: Progress, e: Event)
    requires Bounded(c, p.state)
  {
    e.Receive? && e.limit > 0 && c.rxSize > 0 && p.state.buffer != []
  }

  /** A round that gets nothing changes nothing; any other moves the bytes, and counts unless an error is flagged. */
  lemma TookExactly(c: Setup, s: State, n: nat)
    requires s.rNext < |c.text| && n <= |s.buffer|
    ensures n == 0 ==> Took(c, s, n) == s
    ensures Took(c, s, n).buffer == s.buffer[n..]
    ensures n > 0 ==> (Took(c, s, n).error <==> s.error || !(s.buffer[..n] <= c.text[s.rNext..] + c.Memory()))
    ensures n > 0 ==>
              Took(c, s, n).counter == if Took(c, s, n).error then s.counter else ToU32(s.counter + 1)
  {
    ComparedIsPrefix(c, s.rNext, s.buffer[..n]);
  }

  /** A step counts exactly if it gets at least one byte. */
  lemma StepCounts(c: Setup, p: Progress, e: Event)
    requires Agrees(c, p) && ShortReceives(c)
    ensures Step(c, p, e).state.counter == if Arrives(c, p, e) then ToU32(p.state.counter + 1) else p.state.counter
    ensures Step(c, p, e).received > p.received <==> Arrives(c, p, e)
  {
    StepAgrees(c, p, e);
    if e.Receive? { TookExactly(c, p.state, Moved(c, p.state, e)); }
  }

  /** In step, with the counter at n modulo 2^32. */
  predicate Counted(c: Setup, p: Progress, n: nat) {
    Agrees(c, p) && p.state.counter == ToU32(n)
  }

  lemma StepKeepsCount(c: Setup, p: Progress, e: Event, n: nat)
    requires Counted(c, p, n) && ShortReceives(c)
    ensures Counted(c, Step(c, p, e), n + if Arrives(c, p, e) then 1 else 0)
  {
    StepAgrees(c, p, e);
    StepCounts(c, p, e);
    RemainderOfSum(n, 1, 0x1_0000_0000);
  }

  /**
   Over every run with one of the buffers short enough, the counter is the number of
   receives that moved at least one byte, modulo 2^32: it stands still exactly while
   the stream does.
   */
  lemma {:induction false} CounterCountsArrivals(c: Setup, events: seq<Event>)
    requires c.Valid() && ShortReceives(c)
    ensures Counted(c, Run(c, events), Arrivals(c, events))
  {
    if events == [] {
      assert Counted(c, START, 0);
    } else {
      var last := |events| - 1;
      var before, n := Run(c, events[..last]), Arrivals(c, events[..last]);
      CounterCountsArrivals(c, events[..last]);
      StepKeepsCount(c, before, events[last], n);
      assert Run(c, events) == Step(c, before, events[last]);
      assert Arrivals(c, events) == n + if Arrives(c, before, events[last]) then 1 else 0;
    }
  }

  /** Once an error is flagged it stays, and the counter stands still. */
  lemma ErrorStays(c: Setup, p: Progress, e: Event)
    requires Bounded(c, p.state) && p.state.error
    ensures Step(c, p, e).state.error && Step(c, p, e).state.counter == p.state.counter
  {
  }

  // ---- The bound on the buffers is exact ----

  predicate At(c: Setup, events: seq<Event>, sent: nat, received: nat)
    requires c.Valid()
  {
    var p := Run(c, events);
    Agrees(c, p) && p.sent == sent && p.received == received
  }

  lemma RunNext(c: Setup, events: seq<Event>, e: Event)
    requires c.Valid()
    ensures Run(c, events + [e]) == Step(c, Run(c, events), e)
  {
    assert (events + [e])[..|events|] == events;
  }

  lemma SendAll(c: Setup, p: Progress, n: nat)
    requires Agrees(c, p) && p.state.sNext + n <= |c.text| && |p.state.buffer| + n <= c.capacity
    ensures
      var after := Step(c, p, Send(n));
      Agrees(c, after) && after.sent == p.sent + n && after.received == p.received
  {
    assert Moved(c, p.state, Send(n)) == n;
    SendKeepsStep(c, p.state, p.sent, p.received, n);
  }

  lemma SendFrom(c: Setup, events: seq<Event>, sent: nat, received: nat, n: nat)
    requires c.Valid() && At(c, events, sent, received)
    requires Place(|c.text|, sent) + n <= |c.text| && sent + n <= received + c.capacity
    ensures At(c, events + [Send(n)], sent + n, received)
  {
    RunNext(c, events, Send(n));
    SendAll(c, Run(c, events), n);
  }

  /** Sender and receiver one byte short of the string's end. */
  lemma FirstPart(c: Setup) returns (events: seq<Event>)
    requires c.Valid() && c.rxSize >= |c.text| - 1 && c.capacity >= |c.text| - 1
    ensures At(c, events, |c.text| - 1, |c.text| - 1)
  {
    var n := |c.text| - 1;
    SendFrom(c, [], 0, 0, n);
    events := [] + [Send(n)];
    RunNext(c, events, Receive(n));
    var p := Run(c, events);
    assert Moved(c, p.state, Receive(n)) == n;
    ReceiveKeepsStep(c, p.state, n, 0, n);
    events := events + [Receive(n)];
  }

  /** Then the sender gets one byte into the third copy of the string. */
  lemma SecondPart(c: Setup, start: seq<Event>) returns (events: seq<Event>)
    requires c.Valid() && At(c, start, |c.text| - 1, |c.text| - 1) && c.capacity >= |c.text| + 2
    ensures At(c, events, 2 * |c.text| + 1, |c.text| - 1)
  {
    var length := |c.text|;
    PlaceAfter(length, 0, length - 1);
    PlaceAfter(length, 0, length);
    PlaceAfter(length, length, length);
    SendFrom(c, start, length - 1, length - 1, 1);
    SendFrom(c, start + [Send(1)], length, length - 1, length);
    SendFrom(c, start + [Send(1)] + [Send(length)], 2 * length, length - 1, 1);
    events := start + [Send(1)] + [Send(length)] + [Send(1)];
  }

  lemma LastReceive(c: Setup, p: Progress)
    requires Agrees(c, p) && p.sent == 2 * |c.text| + 1 && p.received == |c.text| - 1 && c.rxSize >= |c.text| + 2
    ensures Step(c, p, Receive(|c.text| + 2)).state.error
  {
    PlaceAfter(|c.text|, 0, |c.text| - 1);
    LongReceiveFlagsError(c, p.state, p.sent, p.received, |c.text| + 2);
  }

  lemma LongBufferFails(c: Setup) returns (events: seq<Event>)
    requires c.Valid() && c.rxSize >= |c.text| + 2 && c.capacity >= |c.text| + 2
    ensures Run(c, events).state.error
  {
    var first := FirstPart(c);
    var second := SecondPart(c, first);
    LastReceive(c, Run(c, second));
    RunNext(c, second, Receive(|c.text| + 2));
    events := second + [Receive(|c.text| + 2)];
  }

  /** For every pair of buffers: no run is taken for an error exactly if one of them is at most one byte longer. */
  lemma BufferBoundIsExact(c: Setup)
    requires c.Valid()
    ensures (forall events :: !Run(c, events).state.error) <==> c.rxSize <= |c.text| + 1 || c.capacity <= |c.text| + 1
  {
    if ShortReceives(c) {
      forall events ensures !Run(c, events).state.error {
        EveryRunAgrees(c, events);
      }
    } else {
      var events := LongBufferFails(c);
      assert Run(c, events).state.error;
    }
  }

  /** The two tasks' variables, the stream buffer between them and the receiver's own buffer. */
  class Demo {
    const setup: Setup
    const cRxString: array<U8>
    var senderNext: nat
    var receiverNext: nat
    var streamBuffer: seq<U8>
    var xErrorStatus: bool               // whether it is still pdPASS
    var xNonBlockingReceiveError: bool
    var ulNonBlockingRxCounter: U32

    ghost function Abs(): State
      reads this
    {
      State(senderNext, receiverNext, streamBuffer, !xErrorStatus, xNonBlockingReceiveError, ulNonBlockingRxCounter)
    }

    ghost predicate Valid()
      reads this
    {
      Bounded(setup, Abs()) && cRxString.Length == setup.rxSize
    }

    constructor (setup: Setup)
      requires setup.Valid()
      ensures this.setup == setup && Valid() && Abs() == START.state && fresh(cRxString)
    {
      this.setup := setup;
      cRxString := new U8[setup.rxSize](_ => 0);
      senderNext, receiverNext, streamBuffer := 0, 0, [];
      xErrorStatus, xNonBlockingReceiveError, ulNonBlockingRxCounter := true, false, 0;
    }

    method CheckExpectedState(xState: bool)
      modifies this`xErrorStatus
      ensures xErrorStatus == (old(xErrorStatus) && xState)
    {
      if !xState { xErrorStatus := false; }
    }

    /** The kernel's send: as many of the bytes as it takes this time. */
    method StreamBufferSend(bytes: seq<U8>, limit: nat) returns (sent: nat)
      requires |streamBuffer| <= setup.capacity
      modifies this`streamBuffer
      ensures sent == Min(limit, Min(setup.capacity - old(|streamBuffer|), |bytes|))
      ensures streamBuffer == old(streamBuffer) + bytes[..sent]
    {
      sent := Min(limit, Min(setup.capacity - |streamBuffer|, |bytes|));
      streamBuffer := streamBuffer + bytes[..sent];
    }

    /** The kernel's receive into cRxString. */
    method StreamBufferReceive(limit: nat) returns (received: nat)
      modifies this`streamBuffer, cRxString
      ensures received == Min(limit, Min(cRxString.Length, old(|streamBuffer|)))
      ensures cRxString[..received] == old(streamBuffer)[..received]
      ensures streamBuffer == old(streamBuffer)[received..]
    {
      received := Min(limit, Min(cRxString.Length, |streamBuffer|));
      forall i | 0 <= i < received { cRxString[i] := streamBuffer[i]; }
      streamBuffer := streamBuffer[received..];
    }

    method SenderRound(limit: nat)
      requires Valid()
      modifies this`senderNext, this`streamBuffer, this`xErrorStatus
      ensures Valid()
      ensures Abs() == Sent(setup, old(Abs()), Moved(setup, old(Abs()), Send(limit)))
    {
      var xStringLength := |setup.text|;
      var xBytesToSend := xStringLength - senderNext;
      var xBytesActuallySent := StreamBufferSend(setup.text[senderNext..], limit);
      CheckExpectedState(xBytesActuallySent <= xBytesToSend);
      senderNext := senderNext + xBytesActuallySent;
      CheckExpectedState(senderNext <= xStringLength);
      if senderNext == xStringLength { senderNext := 0; }
    }

    method ReceiverRound(limit: nat)
      requires Valid()
      modifies this, cRxString
      ensures Valid()
      ensures Abs() == Took(setup, old(Abs()), Moved(setup, old(Abs()), Receive(limit)))
      ensures Moved(setup, old(Abs()), Receive(limit)) == 0 ==> Abs() == old(Abs())
    {
      var xReceiveLength := StreamBufferReceive(limit);
      if xReceiveLength > 0 {
        CompareReceived(xReceiveLength);
        if !xNonBlockingReceiveError {
          ulNonBlockingRxCounter := ToU32(ulNonBlockingRxCounter + 1);
        }
      }
    }

    /** The comparison with the string, split where the string ends, and the move of the index. */
    method CompareReceived(xReceiveLength: nat)
      requires Valid() && 0 < xReceiveLength <= cRxString.Length
      modifies this`receiverNext, this`xNonBlockingReceiveError
      ensures
        var (right, next) := Compared(setup, old(receiverNext), cRxString[..xReceiveLength]);
        receiverNext == next && xNonBlockingReceiveError == (old(xNonBlockingReceiveError) || !right)
    {
      var memory, chunk := setup.Memory(), cRxString[..xReceiveLength];
      var xStringLength := |setup.text|;
      var xBytesToTest, xStartIndex := xReceiveLength, 0;
      if receiverNext + xBytesToTest > xStringLength {
        xBytesToTest := xStringLength - receiverNext;
        if !Same(memory, receiverNext, chunk, 0, xBytesToTest) { xNonBlockingReceiveError := true; }
        receiverNext := 0;
        xStartIndex := xBytesToTest;
        xBytesToTest := xReceiveLength - xBytesToTest;
      }
      if !Same(memory, receiverNext, chunk, xStartIndex, xBytesToTest) { xNonBlockingReceiveError := true; }
      receiverNext := receiverNext + xBytesToTest;
      if receiverNext >= xStringLength { receiverNext := 0; }
    }
  }
}
