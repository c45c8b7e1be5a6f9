/** The serial driver itself, each routine tied to the protocol step it performs. */
module SerialPort {
  import opened Machine
  import opened Serial

  class Driver {
    const txLength: nat               // xCharsForTx
    var lTHREEmpty: bool
    var xCharsForTx: seq<U8>
    var xRxedChars: Receiver
    var blocked: map<Task, U8>        // the kernel's list of tasks waiting for room in xCharsForTx
    var uart: Transmitter
    ghost var accepted: seq<U8>

    ghost function State(): Port
      reads this
    {
      Port(txLength, lTHREEmpty, xCharsForTx, blocked, uart, xRxedChars, accepted)
    }

    /** The transmit queue is one longer than asked for, so it is never of length 0. */
    constructor (uxQueueLength: nat)
      ensures State().Valid() && accepted == [] && blocked == map[] && txLength == uxQueueLength + 1
    {
      txLength := uxQueueLength + 1;
      xCharsForTx, xRxedChars := [], Receiver(uxQueueLength, [], [], [], 0);
      lTHREEmpty, blocked, uart, accepted := true, map[], Transmitter([], false, false), [];
    }

    method WriteTHR(c: U8)
      modifies this`uart
      ensures uart == old(uart).Write(c)
    {
      uart := Transmitter(uart.sent + [c], true, uart.overrun || uart.owed);
    }

    /** What follows xQueueSend in a put, in the same critical section. */
    method RestartIfIdle(cOutChar: U8)
      modifies this`lTHREEmpty, this`xCharsForTx, this`uart
      ensures State() == old(State()).Restart(cOutChar)
    {
      if lTHREEmpty {
        var c := cOutChar;
        if |xCharsForTx| > 0 {
          c, xCharsForTx := xCharsForTx[0], xCharsForTx[1..];
        }
        lTHREEmpty := false;
        WriteTHR(c);
      }
    }

    /** xSerialPutChar up to its return or to where it blocks. */
    method PutChar(task: Task, cOutChar: U8, mayWait: bool) returns (outcome: Outcome)
      requires task !in blocked
      modifies this
      ensures (State(), outcome) == PutStep(old(State()), task, cOutChar, mayWait)
      ensures outcome == (if old(lTHREEmpty || |xCharsForTx| < txLength) then Pass
                          else if mayWait then Waiting else Full)
    {
      if lTHREEmpty {
        lTHREEmpty := false;
        WriteTHR(cOutChar);
        accepted := accepted + [cOutChar];
        return Pass;
      }
      if |xCharsForTx| < txLength {
        xCharsForTx := xCharsForTx + [cOutChar];
        accepted := accepted + [cOutChar];
        outcome := Pass;
      } else if !mayWait {
        outcome := Full;
      } else {
        blocked := blocked[task := cOutChar];
        return Waiting;
      }
      RestartIfIdle(cOutChar);
    }

    /** xSerialPutChar from where its task runs again after blocking. */
    method ResumePut(task: Task, expired: bool) returns (outcome: Outcome)
      requires task in blocked
      modifies this
      ensures (State(), outcome) == ResumeStep(old(State()), task, expired)
      ensures outcome == (if |old(xCharsForTx)| < txLength then Pass else if expired then Full else Waiting)
    {
      var cOutChar := blocked[task];
      if |xCharsForTx| < txLength {
        xCharsForTx := xCharsForTx + [cOutChar];
        accepted := accepted + [cOutChar];
        outcome := Pass;
      } else if expired {
        outcome := Full;
      } else {
        return Waiting;
      }
      blocked := blocked - {task};
      RestartIfIdle(cOutChar);
    }

    /** vSerialISR, on the interrupt source read from U0IIR and the byte in U0RBR. */
    method Isr(u0iir: U8, u0rbr: U8)
      requires u0iir % 16 == 0x02 ==> uart.owed
      modifies this`lTHREEmpty, this`xCharsForTx, this`xRxedChars, this`uart
      ensures u0iir % 16 == 0x02 ==> State() == ThreStep(old(State()))
      ensures u0iir % 16 == 0x04 || u0iir % 16 == 0x0C ==>
                && State() == old(State()).(receiver := RxStep(old(State()).receiver, u0rbr))
                && xRxedChars.queue == old(xRxedChars).queue
                     + if |old(xRxedChars).queue| < old(xRxedChars).capacity then [u0rbr] else []
      ensures u0iir % 16 !in {0x02, 0x04, 0x0C} ==> State() == old(State())
    {
      var source := u0iir % 16;
      if source == 0x06 {
        // a line error: reading U0LSR clears it
      } else if source == 0x02 {
        uart := uart.(owed := false);
        if |xCharsForTx| > 0 {
          var cChar := xCharsForTx[0];
          xCharsForTx := xCharsForTx[1..];
          WriteTHR(cChar);
        } else {
          lTHREEmpty := true;
        }
      } else if source == 0x0C || source == 0x04 {
        if |xRxedChars.queue| < xRxedChars.capacity {
          xRxedChars := xRxedChars.(queue := xRxedChars.queue + [u0rbr], stored := xRxedChars.stored + [u0rbr]);
        } else {
          xRxedChars := xRxedChars.(dropped := xRxedChars.dropped + 1);
        }
      }
    }

    /** xSerialGetChar with characters waiting, or once its block time is over. */
    method GetChar() returns (outcome: Outcome, cRxed: U8)
      modifies this`xRxedChars
      ensures (xRxedChars, outcome) == GetStep(old(xRxedChars))
      ensures outcome == (if old(xRxedChars).queue != [] then Pass else Full)
      ensures outcome == Pass ==> old(xRxedChars).queue == [cRxed] + xRxedChars.queue
    {
      if xRxedChars.queue == [] { return Full, 0; }
      cRxed := xRxedChars.queue[0];
      xRxedChars := xRxedChars.(queue := xRxedChars.queue[1..], delivered := xRxedChars.delivered + [cRxed]);
      return Pass, cRxed;
    }

    /** The interrupts that come between two steps of a task: any number, of any kind. */
    method Interruptions()
      requires State().Valid()
      modifies this`lTHREEmpty, this`xCharsForTx, this`xRxedChars, this`uart
      ensures State().Valid() && |xCharsForTx| <= |old(xCharsForTx)|
    {
      var n: nat := *;
      while n > 0
        invariant State().Valid() && |xCharsForTx| <= |old(xCharsForTx)|
      {
        var u0iir: U8, u0rbr: U8 := *, *;
        if u0iir % 16 != 0x02 || uart.owed {
          ghost var before := State();
          Isr(u0iir, u0rbr);
          if u0iir % 16 == 0x02 { ThreKeepsValid(before); } else { ReceiveKeepsValid(before.receiver, u0rbr); }
        }
        n := n - 1;
      }
    }

    /**
     Interrupts of any kind, until THRE interrupts have made room: with the queue
     full one is owed, so it cannot fail to come.
     */
    method WaitForRoom()
      requires State().Valid()
      modifies this`lTHREEmpty, this`xCharsForTx, this`xRxedChars, this`uart
      ensures State().Valid() && |xCharsForTx| < txLength
    {
      Interruptions();
      if |xCharsForTx| == txLength {
        ThreKeepsValid(State());
        Isr(0x02, 0);
        Interruptions();
      }
    }

    /** A put with no time limit, from its call to its return, while no other task puts. */
    method PutCharAndWait(task: Task, c: U8)
      requires State().Valid() && blocked == map[]
      modifies this
      ensures State().Valid() && blocked == map[]
      ensures accepted == old(accepted) + [c]
    {
      Interruptions();
      PutKeepsValid(State(), task, c, true);
      var outcome := PutChar(task, c, true);
      if outcome == Waiting {
        WaitForRoom();
        ResumeKeepsValid(State(), task, false);
        outcome := ResumePut(task, false);
        assert outcome == Pass;
        assert blocked == map[];
      }
    }

    /**
     vSerialPutString while no other task puts: whatever the interrupts do
     meanwhile, the whole string up to its NUL is accepted, in order; by Valid()
     what is not yet sent of it is queued. The length argument is ignored.
     */
    method PutString(task: Task, pcString: seq<U8>)
      requires State().Valid() && blocked == map[] && 0 in pcString
      modifies this
      ensures State().Valid() && blocked == map[]
      ensures accepted == old(accepted) + Text(pcString)
      ensures uart.sent + xCharsForTx == old(uart.sent + xCharsForTx) + Text(pcString)
    {
      var next := 0;
      while pcString[next] != 0
        invariant next <= |Text(pcString)| && State().Valid() && blocked == map[]
        invariant accepted == old(accepted) + pcString[..next]
        decreases |Text(pcString)| - next
      {
        PutCharAndWait(task, pcString[next]);
        assert pcString[..next] + [pcString[next]] == pcString[..next + 1];
        next := next + 1;
      }
    }
  }
}
