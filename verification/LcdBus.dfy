/**
 The nibble stream between driver and controller: what the controller makes of
 the strobes it is sent, from a known interface state and from any state at all.
 */
module LcdBus {
  import opened Machine
  import opened LcdController

  /** One write strobe of E, with what the unconnected low data lines would read. */
  datatype Strobe = Strobe(rs: bool, nibble: Nibble, floating: Nibble)

  /** One byte meant for the controller. */
  datatype Message = Message(rs: bool, byte: U8)
  {
    /** Every message but a Function Set that selects the 8-bit interface. */
    predicate KeepsWidth() {
      rs || byte < 0x30 || 0x40 <= byte
    }

    /** The two strobes that carry it, high nibble first. */
    function Strobes(): seq<Strobe> {
      [Strobe(rs, byte / 16, 0), Strobe(rs, byte % 16, 0)]
    }
  }

  function Encode(messages: seq<Message>): seq<Strobe> {
    if messages == [] then [] else messages[0].Strobes() + Encode(messages[1..])
  }

  /** The controller after a run of strobes. */
  function Feed(d: Device, strobes: seq<Strobe>): (r: Device)
    requires d.WellFormed()
    decreases strobes
  {
    if strobes == [] then d
    else
      var s := strobes[0];
      Feed(d.WriteEdge(s.rs, s.nibble, s.floating), strobes[1..])
  }

  /** Driver and controller agree on the 4-bit width and stand between bytes. */
  predicate InStep(d: Device) {
    d.WellFormed() && !d.setup.eightBit && d.phase == Boundary
  }

  lemma ReceiveKeepsStep(d: Device, m: Message)
    requires InStep(d) && m.KeepsWidth()
    ensures InStep(d.Receive(m.rs, m.byte))
  {
  }

  /** The controller after a run of whole bytes. */
  function ReceiveAll(d: Device, messages: seq<Message>): (r: Device)
    requires InStep(d)
    requires forall m | m in messages :: m.KeepsWidth()
    ensures InStep(r)
    decreases messages
  {
    if messages == [] then d
    else
      ReceiveKeepsStep(d, messages[0]);
      ReceiveAll(d.Receive(messages[0].rs, messages[0].byte), messages[1..])
  }

  /** Two strobes deliver exactly the byte they were made from. */
  lemma ByteDelivered(d: Device, rs: bool, b: U8, f: Nibble, g: Nibble)
    requires InStep(d)
    ensures d.WriteEdge(rs, b / 16, f).WriteEdge(rs, b % 16, g) == d.Receive(rs, b)
    ensures Message(rs, b).KeepsWidth() ==> InStep(d.Receive(rs, b))
  {
    assert d.WriteEdge(rs, b / 16, f) == d.(phase := HalfWritten(b / 16));
    assert d.(phase := HalfWritten(b / 16)).(phase := Boundary) == d;
    assert 16 * (b / 16) + b % 16 == b;
    if Message(rs, b).KeepsWidth() { ReceiveKeepsStep(d, Message(rs, b)); }
  }

  /** Two read strobes return the byte offered at the first, high nibble first. */
  lemma ByteRead(d: Device, rs: bool, busy: bool)
    requires InStep(d)
    ensures
      var half := d.ReadEdge(rs, busy);
      && 16 * d.Driven(rs, busy) + half.Driven(rs, busy) == d.Offered(rs, busy)
      && half.ReadEdge(rs, busy) == (if rs then d.Advance() else d)
      && InStep(half.ReadEdge(rs, busy))
  {
    var offered := d.Offered(rs, busy);
    var half := d.ReadEdge(rs, busy);
    assert half == d.(phase := HalfRead(offered % 16));
    assert half.(phase := Boundary) == d;
    assert 16 * (offered / 16) + offered % 16 == offered;
  }

  lemma MessageDecoded(d: Device, m: Message)
    requires InStep(d)
    ensures Feed(d, m.Strobes()) == d.Receive(m.rs, m.byte)
  {
    var half := d.WriteEdge(m.rs, m.byte / 16, 0);
    var whole := half.WriteEdge(m.rs, m.byte % 16, 0);
    assert m.Strobes()[1..] == [Strobe(m.rs, m.byte % 16, 0)];
    assert Feed(half, m.Strobes()[1..]) == Feed(whole, m.Strobes()[1..][1..]);
    ByteDelivered(d, m.rs, m.byte, 0, 0);
  }

  lemma {:induction false} FeedJoined(d: Device, first: seq<Strobe>, second: seq<Strobe>)
    requires d.WellFormed()
    ensures Feed(d, first).WellFormed()
    ensures Feed(d, first + second) == Feed(Feed(d, first), second)
    decreases first
  {
    if first == [] {
      assert first + second == second;
    } else {
      var all := first + second;
      assert all[1..] == first[1..] + second;
      FeedJoined(d.WriteEdge(first[0].rs, first[0].nibble, first[0].floating), first[1..], second);
    }
  }

  /**
   At a byte boundary of the 4-bit interface, any sequence of commands and data
   is received as exactly the bytes sent, with the RS level of each.
   */
  lemma {:induction false} StreamDecoded(d: Device, messages: seq<Message>)
    requires InStep(d)
    requires forall m | m in messages :: m.KeepsWidth()
    ensures Feed(d, Encode(messages)) == ReceiveAll(d, messages)
    decreases messages
  {
    if messages != [] {
      FeedJoined(d, messages[0].Strobes(), Encode(messages[1..]));
      MessageDecoded(d, messages[0]);
      ReceiveKeepsStep(d, messages[0]);
      StreamDecoded(d.Receive(messages[0].rs, messages[0].byte), messages[1..]);
    }
  }

  /** Only the pointer, the shift, the function bits and the transfer phase may differ. */
  predicate KeepsMemory(before: Device, after: Device) {
    after == before.(pointer := after.pointer, shift := after.shift, setup := after.setup, phase := after.phase)
  }

  lemma KeepsMemoryTransitive(a: Device, b: Device, c: Device)
    requires KeepsMemory(a, b) && KeepsMemory(b, c)
    ensures KeepsMemory(a, c)
  {
  }

  /**
   Initializing by instruction: three strobes of 0x3 and one of 0x2 with RS low
   leave the controller on the 4-bit interface at a byte boundary, from the
   8-bit interface and from the 4-bit one at either nibble of a transfer,
   whatever the unconnected data lines read.
   */
  lemma PowerUpResynchronises(d: Device, f0: Nibble, f1: Nibble, f2: Nibble, f3: Nibble)
    requires d.WellFormed()
    ensures
      var d1 := d.WriteEdge(false, 3, f0);
      var d2 := d1.WriteEdge(false, 3, f1);
      var d3 := d2.WriteEdge(false, 3, f2);
      var d4 := d3.WriteEdge(false, 2, f3);
      InStep(d4) && KeepsMemory(d, d4)
  {
    var d1 := d.WriteEdge(false, 3, f0);
    FirstStrobe(d, f0);
    var d2 := d1.WriteEdge(false, 3, f1);
    SettlingStrobe(d1, f1);
    var d3 := d2.WriteEdge(false, 3, f2);
    SettlingStrobe(d2, f2);
    var d4 := d3.WriteEdge(false, 2, f3);
    LastStrobe(d3, f3);
    KeepsMemoryTransitive(d, d1, d2);
    KeepsMemoryTransitive(d, d2, d3);
    KeepsMemoryTransitive(d, d3, d4);
  }

  /** Either the width is settled, or the controller is waiting for the rest of a 0x3. */
  predicate Settling(d: Device) {
    d.setup.eightBit || d.phase == Boundary || d.phase == HalfWritten(3)
  }

  /** Whatever half byte was pending, completing it with 0x3 runs no command that touches memory. */
  lemma PendingCommandIsHarmless(d: Device, high: nat)
    requires d.WellFormed() && high < 16
    ensures KeepsMemory(d, d.Execute(Decode(16 * high + 3)))
    ensures d.Execute(Decode(16 * high + 3)).phase == d.phase
  {
    var c := 16 * high + 3;
    assert high == 0 ==> Decode(c) == Home;
    assert Decode(c) != Clear && !Decode(c).SetEntry? && !Decode(c).SetControl?;
  }

  lemma FirstStrobe(d: Device, f: Nibble)
    requires d.WellFormed()
    ensures Settling(d.WriteEdge(false, 3, f)) && KeepsMemory(d, d.WriteEdge(false, 3, f))
  {
    if d.setup.eightBit {
      assert Decode(0x30 + f).FunctionSet?;
    } else if d.phase.HalfWritten? {
      var high: nat := d.phase.high;
      PendingCommandIsHarmless(d.(phase := Boundary), high);
    }
  }

  /** A 0x3 either is a whole Function Set to the 8-bit interface, completes one, or is half of one. */
  lemma SettlingStrobe(d: Device, f: Nibble)
    requires d.WellFormed() && Settling(d)
    ensures
      var e := d.WriteEdge(false, 3, f);
      && KeepsMemory(d, e)
      && (if d.setup.eightBit || d.phase != Boundary then e.setup.eightBit else e == d.(phase := HalfWritten(3)))
  {
    assert forall c | 0x30 <= c < 0x40 :: Decode(c).FunctionSet? && Decode(c).setup.eightBit;
    assert d.setup.eightBit ==> d.WriteEdge(false, 3, f) == d.Execute(Decode(0x30 + f));
  }

  lemma LastStrobe(d: Device, f: Nibble)
    requires d.WellFormed() && d.setup.eightBit
    ensures InStep(d.WriteEdge(false, 2, f)) && KeepsMemory(d, d.WriteEdge(false, 2, f))
  {
    assert Decode(0x20 + f).FunctionSet? && !Decode(0x20 + f).setup.eightBit;
  }
}
