/**
 The display controller the driver talks to, after the Hitachi HD44780U data
 sheet: the instruction table, the address map of the two-line display, and the
 nibble transfers of the 4-bit interface. It is hardware, so it is a value with
 one function per bus event; the driver's class owns one.
 */
module LcdController {
  import opened Machine

  type Nibble = n: int | 0 <= n < 16

  datatype Memory = Memory(
    ddram: seq<U8>,    // 80 cells: 0..39 are line 1, 40..79 are line 2
    cgram: seq<U8>)    // 64 bytes of character patterns
  {
    predicate Valid() {
      |ddram| == 80 && |cgram| == 64
    }
  }

  /** The address counter and the memory it points into. */
  datatype Pointer = Ddram(ac: nat) | Cgram(ac: nat)
  {
    predicate Valid() {
      ac < if Ddram? then 128 else 64
    }
  }

  datatype Entry = Entry(increment: bool, shiftOnWrite: bool)                  // I/D, S
  datatype Control = Control(displayOn: bool, cursorOn: bool, blink: bool)     // D, C, B
  datatype Setup = Setup(eightBit: bool, twoLines: bool, tallFont: bool)       // DL, N, F

  /** Where a 4-bit transfer stands: between bytes, or halfway through a write or a read. */
  datatype Phase = Boundary | HalfWritten(high: Nibble) | HalfRead(low: Nibble)

  datatype Instruction =
    | Nothing
    | Clear
    | Home
    | SetEntry(entry: Entry)
    | SetControl(control: Control)
    | ShiftDisplay(right: bool)
    | MoveCursor(right: bool)
    | FunctionSet(setup: Setup)
    | SetPointer(pointer: Pointer)

  /** The instruction table of the data sheet: the highest bit set selects the instruction. */
  function Decode(c: U8): (i: Instruction)
    ensures i.SetPointer? ==> i.pointer.Valid()
    ensures i.FunctionSet? <==> 0x20 <= c < 0x40
  {
    if c >= 0x80 then SetPointer(Ddram(c - 0x80))
    else if c >= 0x40 then SetPointer(Cgram(c - 0x40))
    else if c >= 0x20 then FunctionSet(Setup(c / 16 % 2 == 1, c / 8 % 2 == 1, c / 4 % 2 == 1))
    else if c >= 0x10 then
      if c / 8 % 2 == 1 then ShiftDisplay(c / 4 % 2 == 1) else MoveCursor(c / 4 % 2 == 1)
    else if c >= 0x08 then SetControl(Control(c / 4 % 2 == 1, c / 2 % 2 == 1, c % 2 == 1))
    else if c >= 0x04 then SetEntry(Entry(c / 2 % 2 == 1, c % 2 == 1))
    else if c >= 0x02 then Home
    else if c == 0x01 then Clear
    else Nothing
  }

  /** The DDRAM address of a cell. */
  function Address(cell: nat): (a: nat)
    requires cell < 80
    ensures a < 40 || 64 <= a < 104
  {
    if cell < 40 then cell else cell + 24
  }

  /** The cell an address selects; the addresses between and after the lines select none. */
  function CellAt(twoLines: bool, a: nat): (c: int)
    ensures -1 <= c < 80
  {
    if twoLines then
      if a < 40 then a else if 64 <= a < 104 then a - 24 else -1
    else
      if a < 80 then a else -1
  }

  /** The address counter wraps at the ends of the lines, and in the pattern memory at 64. */
  function Next(twoLines: bool, p: Pointer): (q: Pointer)
    ensures p.Valid() ==> q.Valid()
  {
    match p
    case Cgram(a) => Cgram(if a == 63 then 0 else a + 1)
    case Ddram(a) =>
      if twoLines then Ddram(if a == 39 then 64 else if a == 103 || a == 127 then 0 else a + 1)
      else Ddram(if a == 79 || a == 127 then 0 else a + 1)
  }

  function Previous(twoLines: bool, p: Pointer): (q: Pointer)
    ensures p.Valid() ==> q.Valid()
  {
    match p
    case Cgram(a) => Cgram(if a == 0 then 63 else a - 1)
    case Ddram(a) =>
      if twoLines then Ddram(if a == 64 then 39 else if a == 0 then 103 else a - 1)
      else Ddram(if a == 0 then 79 else a - 1)
  }

  /** The column at the left edge after the display moves one place. */
  function Shifted(twoLines: bool, shift: nat, right: bool): (s: nat)
    ensures shift < 80 ==> s < 80
  {
    var length := if twoLines then 40 else 80;
    if right then if shift == 0 then length - 1 else shift - 1
    else if shift + 1 >= length then 0 else shift + 1
  }

  datatype Device = Device(
    memory: Memory,
    pointer: Pointer,
    shift: nat,        // the column shown at the left edge
    entry: Entry,
    control: Control,
    setup: Setup,
    phase: Phase)
  {
    predicate WellFormed() {
      memory.Valid() && pointer.Valid() && shift < 80 && (setup.eightBit ==> phase == Boundary)
    }

    /** The address counter after a data transfer. */
    function Advance(): (d: Device)
      ensures WellFormed() ==> d.WellFormed()
    {
      this.(pointer := if entry.increment then Next(setup.twoLines, pointer) else Previous(setup.twoLines, pointer))
    }

    /** The value under the address counter. */
    function Selected(): U8
      requires memory.Valid() && pointer.Valid()
    {
      match pointer
      case Cgram(a) => memory.cgram[a]
      case Ddram(a) => var cell := CellAt(setup.twoLines, a); if cell < 0 then 0 else memory.ddram[cell]
    }

    /** The data instruction: write a byte under the address counter. */
    function WriteData(b: U8): (d: Device)
      requires memory.Valid() && pointer.Valid()
      ensures WellFormed() ==> d.WellFormed()
    {
      match pointer
      case Cgram(a) => this.(memory := memory.(cgram := memory.cgram[a := b])).Advance()
      case Ddram(a) =>
        var cell := CellAt(setup.twoLines, a);
        var ddram := if cell < 0 then memory.ddram else memory.ddram[cell := b];
        var moved := if entry.shiftOnWrite then Shifted(setup.twoLines, shift, !entry.increment) else shift;
        this.(memory := memory.(ddram := ddram), shift := moved).Advance()
    }

    function Execute(instruction: Instruction): (d: Device)
      ensures WellFormed() && phase == Boundary && (instruction.SetPointer? ==> instruction.pointer.Valid())
              ==> d.WellFormed()
    {
      match instruction
      case Nothing => this
      case Clear =>
        this.(memory := memory.(ddram := seq(80, _ => 0x20)), pointer := Ddram(0), shift := 0,
              entry := entry.(increment := true))
      case Home => this.(pointer := Ddram(0), shift := 0)
      case SetEntry(e) => this.(entry := e)
      case SetControl(c) => this.(control := c)
      case ShiftDisplay(right) => this.(shift := Shifted(setup.twoLines, shift, right))
      case MoveCursor(right) =>
        this.(pointer := if right then Next(setup.twoLines, pointer) else Previous(setup.twoLines, pointer))
      case FunctionSet(s) => this.(setup := s)
      case SetPointer(p) => this.(pointer := p)
    }

    /** One whole byte received with the RS line at the given level. */
    function Receive(rs: bool, b: U8): Device
      requires memory.Valid() && pointer.Valid()
    {
      if rs then WriteData(b) else Execute(Decode(b))
    }

    /**
     E falls with R/W low and a nibble on D7..D4. On the 8-bit interface the low
     data lines are not connected to the driver; `floating` is what they read.
     A write that arrives halfway through a read only completes that read.
     */
    function WriteEdge(rs: bool, nibble: Nibble, floating: Nibble): (d: Device)
      requires WellFormed()
      ensures d.WellFormed()
    {
      if setup.eightBit then Receive(rs, 16 * nibble + floating)
      else match phase
        case Boundary => this.(phase := HalfWritten(nibble))
        case HalfWritten(high) => this.(phase := Boundary).Receive(rs, 16 * high + nibble)
        case HalfRead(_) => this.(phase := Boundary)
    }

    /** The byte offered to a read: memory, or the busy flag over the address counter. */
    function Offered(rs: bool, busy: bool): U8
      requires WellFormed()
    {
      if rs then Selected() else (if busy then 0x80 else 0) + pointer.ac
    }

    /** E falls with R/W high: the first strobe of a 4-bit read takes the byte, the second ends it. */
    function ReadEdge(rs: bool, busy: bool): (d: Device)
      requires WellFormed()
      ensures d.WellFormed()
    {
      if !setup.eightBit && !phase.HalfRead? then
        this.(phase := HalfRead(Offered(rs, busy) % 16))
      else
        var whole := this.(phase := Boundary);
        if rs then whole.Advance() else whole
    }

    /** The nibble the controller drives while E is high and R/W is high. */
    function Driven(rs: bool, busy: bool): Nibble
      requires WellFormed()
    {
      if phase.HalfRead? then phase.low else Offered(rs, busy) / 16
    }
  }
}
