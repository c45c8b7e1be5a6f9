/**
 The display driver in both of its builds: `readBack` is the build with the R/W
 line connected, which polls the busy flag and reads the address counter back;
 the other build cannot read and keeps a shadow address counter instead.
 */
module LcdDriver {
  import opened Division
  import opened Machine
  import opened LcdController
  import opened LcdBus
  import opened LcdText

  /** Error codes; StrShow combines them with a bitwise or. */
  type Code = n: int | 0 <= n < 4
  const OK: Code := 0
  const BUSY_TIME_OUT: Code := 1
  const ERROR: Code := 2
  const OUT_OF_VISUAL: Code := 3

  const MAX_LINE1 := 0x27
  const MIN_LINE2 := 0x40
  const MAX_LINE2 := 0x67
  const MAX_CGRAM := 0x3F
  const HORIZONTAL_SIZE := 16

  function Or(a: Code, b: Code): Code {
    (if a / 2 == 1 || b / 2 == 1 then 2 else 0) + (if a % 2 == 1 || b % 2 == 1 then 1 else 0)
  }

  /** The address of column x of line y; the arithmetic is in uint8_t. */
  function DDRamAddress(x: U8, y: U8): (address: Option<U8>)
    ensures address.Some? <==> x < 40 && y <= 2
  {
    if y > 2 || x > MAX_LINE1 then None
    else if y == 2 then Some(ToU8(ToU8(x - 1) + MIN_LINE2))
    else Some(ToU8(x - 1))
  }

  /** Whether an address is reported as inside the window the display shows. */
  function CheckVisual(displayPos: U8, address: U8): Code {
    if address > MAX_LINE2 then ERROR
    else if MAX_LINE1 < address < MIN_LINE2 then ERROR
    else
      var column := if address >= MIN_LINE2 then address - 0x40 else address;
      var lastPos := ToU8(displayPos + HORIZONTAL_SIZE);
      if lastPos > MAX_LINE1 && MAX_LINE1 - displayPos < column < displayPos then OUT_OF_VISUAL
      else if column < displayPos || column > (if lastPos > MAX_LINE1 then MAX_LINE1 else lastPos) then OUT_OF_VISUAL
      else OK
  }

  /** How the write-only build moves its shadow address counter past one character. */
  function NextHold(up: bool, y: U8, hold: I8): I8 {
    if up then
      var h := ToI8(hold + 1);
      if h > MAX_LINE1 && y == 1 then MIN_LINE2
      else if y == 2 && h > MAX_LINE2 then 0
      else h
    else
      var h := ToI8(hold - 1);
      if h < 0 && y == 1 then MAX_LINE2
      else if y == 2 && h < MIN_LINE2 then MAX_LINE1
      else h
  }

  /** The ring of cells a text on line y runs around; line 0 is both lines end to end. */
  datatype Lane = Lane(base: nat, size: nat)
  {
    predicate Valid() {
      0 < size && base + size <= 80
    }

    function CellOf(x: nat, k: nat): (c: nat)
      requires Valid()
      ensures c < 80
    {
      base + Column(x, k, size)
    }
  }

  function LaneOf(y: nat): (lane: Lane)
    ensures lane.Valid()
  {
    if y == 2 then Lane(40, 40) else if y == 1 then Lane(0, 40) else Lane(0, 80)
  }

  lemma ColumnOfFirst(x: nat, size: nat)
    requires x < 40 && (size == 40 || size == 80)
    ensures Column(x, 0, size) == x
  {
    assert x % 40 == x && x % 80 == x;
  }

  /** An accepted column from 1 up addresses its cell; column 0 wraps to an address off the display. */
  lemma AddressOfColumn(x: U8, y: U8)
    requires DDRamAddress(x, y).Some?
    ensures 1 <= x ==> DDRamAddress(x, y).value == Address(LaneOf(y).CellOf(x - 1, 0))
    ensures 1 <= x ==> CellAt(true, DDRamAddress(x, y).value) == LaneOf(y).CellOf(x - 1, 0)
    ensures x == 0 ==> DDRamAddress(x, y).value == if y == 2 then 0x3F else 0xFF
  {
    if x > 0 {
      ColumnOfFirst(x - 1, LaneOf(y).size);
      assert ToU8(x - 1) == x - 1 && ToU8(x - 1 + MIN_LINE2) == x - 1 + MIN_LINE2;
    } else {
      assert ToU8(-1) == 0xFF && ToU8(0xFF + MIN_LINE2) == 0x3F;
    }
  }

  /** The controller once `text` is shown: only the text's line and the address counter differ. */
  function Showing(d: Device, lane: Lane, x: nat, text: seq<U8>): Device
    requires |d.memory.ddram| == 80 && lane.Valid()
  {
    d.(pointer := Ddram(Address(lane.CellOf(x, |text|))),
       memory := d.memory.(ddram := Put(d.memory.ddram, lane.base, lane.size, x, text)))
  }

  /** The configuration the power-up sequence leaves the controller in. */
  predicate Configured(d: Device) {
    InStep(d) && d.setup.twoLines && d.entry == Entry(true, false) && d.shift < 40
  }

  lemma CellOfAddress(cell: nat)
    requires cell < 80
    ensures CellAt(true, Address(cell)) == cell
  {
  }

  /** A data write at a cell: the byte is stored and the address counter moves to the next cell. */
  lemma WriteAtCell(d: Device, cell: nat, c: U8)
    requires Configured(d) && cell < 80 && d.pointer == Ddram(Address(cell))
    ensures d.WriteData(c) == d.(memory := d.memory.(ddram := d.memory.ddram[cell := c]),
                                 pointer := Ddram(Address((cell + 1) % 80)))
  {
    assert CellAt(true, Address(cell)) == cell;
  }

  /** One character on, before any correction: the address counter is at the next cell of the display. */
  lemma CharacterWritten(d: Device, lane: Lane, x: nat, text: seq<U8>, c: U8)
    requires Configured(d) && lane.Valid()
    ensures Showing(d, lane, x, text).WriteData(c)
         == Showing(d, lane, x, text + [c]).(pointer := Ddram(Address((lane.CellOf(x, |text|) + 1) % 80)))
  {
    var all := text + [c];
    assert all[..|all| - 1] == text;
    WriteAtCell(Showing(d, lane, x, text), lane.CellOf(x, |text|), c);
  }

  /** It is the bitwise or of the codes, so an ERROR stays unless an OUT_OF_VISUAL covers it. */
  lemma OrIsBitwise(a: Code, b: Code)
    ensures Or(a, b) == ((a as bv2) | (b as bv2)) as int
    ensures Or(a, OK) == Or(OK, a) == Or(a, a) == a && Or(a, OUT_OF_VISUAL) == Or(OUT_OF_VISUAL, a) == OUT_OF_VISUAL
  {
    if
    case a == 0 =>
    case a == 1 =>
    case a == 2 =>
    case a == 3 =>
  }

  predicate OffLine(y: U8, address: nat) {
    (y == 1 && address > MAX_LINE1) || (y == 2 && address < MIN_LINE2)
  }

  /** The address of the first cell of a line. */
  function LineAddress(y: U8): U8
    requires y <= 2
  {
    Address(LaneOf(y).base)
  }

  function LineStart(y: U8): I8 {
    if y == 1 then 0 else MIN_LINE2
  }

  /** Rows of a pattern and the CGRAM address they go to; `None` when that lies past the memory. */
  function Pattern(tall: bool, slot: U8): (p: Option<(nat, nat)>)
    ensures p.Some? <==> (tall ==> slot % 16 <= 6)
    ensures p.Some? ==> p.value == if tall then (10, 10 * (slot % 16)) else (8, 8 * (slot % 8))
  {
    var rows := if tall then 10 else 8;
    var a := ToU8((if tall then slot % 16 else slot % 8) * rows);
    if a > MAX_CGRAM then None else Some((rows, a))
  }

  /** The controller with rows of a pattern laid from a CGRAM address. */
  function WithPattern(d: Device, a: nat, rows: seq<U8>): Device
    requires |d.memory.cgram| == 64
  {
    d.(memory := d.memory.(cgram := Put(d.memory.cgram, 0, 64, a, rows)))
  }

  /** The controller after rows are written one after another, wherever its address counter goes. */
  function Written(d: Device, rows: seq<U8>): (r: Device)
    requires d.WellFormed()
    ensures r.WellFormed()
  {
    if rows == [] then d else Written(d, rows[..|rows| - 1]).WriteData(rows[|rows| - 1])
  }

  lemma NextWritten(d: Device, rows: seq<U8>, row: U8)
    requires d.WellFormed()
    ensures Written(d, rows + [row]) == Written(d, rows).WriteData(row)
  {
    assert (rows + [row])[..|rows|] == rows;
  }

  /** From an address of the pattern memory, whichever way it counts, the rows stay in it. */
  lemma {:induction false} WrittenStaysInPatterns(d: Device, rows: seq<U8>)
    requires d.WellFormed() && d.pointer.Cgram?
    ensures
      var r := Written(d, rows);
      r.pointer.Cgram? && r == d.(memory := d.memory.(cgram := r.memory.cgram), pointer := r.pointer)
  {
    if rows != [] { WrittenStaysInPatterns(d, rows[..|rows| - 1]); }
  }

  lemma NextRow(a: nat, k: nat)
    ensures Column(a, k + 1, 64) == if Column(a, k, 64) == 63 then 0 else Column(a, k, 64) + 1
  {
    NextRemainder(a + k, 64);
  }

  /** One more row: the address counter moves on around the pattern memory. */
  lemma RowWritten(d: Device, a: nat, rows: seq<U8>, row: U8)
    requires Configured(d)
    ensures WithPattern(d, a, rows).(pointer := Cgram(Column(a, |rows|, 64))).WriteData(row)
         == WithPattern(d, a, rows + [row]).(pointer := Cgram(Column(a, |rows| + 1, 64)))
  {
    var all := rows + [row];
    assert all[..|all| - 1] == rows;
    NextRow(a, |rows|);
  }

  lemma NextColumn(lane: Lane, x: nat, k: nat)
    requires lane.Valid()
    ensures lane.CellOf(x, k + 1) == if lane.CellOf(x, k) == lane.base + lane.size - 1 then lane.base
                                     else lane.CellOf(x, k) + 1
  {
    NextRemainder(x + k, lane.size);
    assert x + (k + 1) == x + k + 1;
  }

  lemma NextOfCell(cell: nat)
    requires cell < 80
    ensures (cell + 1) % 80 == if cell == 79 then 0 else cell + 1
  {
  }

  /** Counting up, they are laid around the pattern memory. */
  lemma {:induction false} WrittenPattern(d: Device, a: nat, rows: seq<U8>)
    requires Configured(d) && a < 64
    ensures Written(d.(pointer := Cgram(a)), rows)
         == WithPattern(d, a, rows).(pointer := Cgram(Column(a, |rows|, 64)))
  {
    if rows == [] {
      RemainderUnique(a, 64, 0, a);
    } else {
      var before, row := rows[..|rows| - 1], rows[|rows| - 1];
      WrittenPattern(d, a, before);
      RowWritten(d, a, before, row);
      assert before + [row] == rows;
    }
  }

  /** Where the next character of a lane goes, against where the address counter goes by itself. */
  lemma NextCell(y: U8, x: nat, k: nat)
    requires y <= 2
    ensures
      var free := Address((LaneOf(y).CellOf(x, k) + 1) % 80);
      Address(LaneOf(y).CellOf(x, k + 1)) == if OffLine(y, free) then LineStart(y) else free
  {
    NextColumn(LaneOf(y), x, k);
    NextOfCell(LaneOf(y).CellOf(x, k));
  }

  /** The shadow moves exactly as the address counter does, on a named line and counting up. */
  lemma HoldFollows(y: U8, x: nat, k: nat)
    requires y == 1 || y == 2
    ensures
      var cell := LaneOf(y).CellOf(x, k);
      NextHold(true, y, Address(cell)) == Address((cell + 1) % 80)
  {
    var cell := LaneOf(y).CellOf(x, k);
    assert ToI8(Address(cell) + 1) == Address(cell) + 1;
    NextOfCell(cell);
  }

  /** On line 0 the shadow only counts, in int8_t. */
  lemma ShadowCounts(n: nat)
    ensures NextHold(true, 0, ToI8(n)) == ToI8(n + 1)
  {
    RemainderOfSum(n, 1, 0x100);
    RemainderOfSum(ToI8(n), 1, 0x100);
    assert ToI8(n) % 0x100 == n % 0x100;
  }

  /** A character written and the line correction made is the text with that character shown. */
  lemma CharacterShown(d: Device, y: U8, x: nat, text: seq<U8>, c: U8)
    requires Configured(d) && y <= 2
    ensures
      var before := Showing(d, LaneOf(y), x, text);
      var written := before.WriteData(c);
      var after := Showing(d, LaneOf(y), x, text + [c]);
      && written == after.(pointer := written.pointer) && written.pointer.Ddram?
      && (y != 0 ==> NextHold(true, y, before.pointer.ac) == written.pointer.ac)
      && after == if OffLine(y, written.pointer.ac) then written.(pointer := Ddram(LineStart(y))) else written
  {
    CharacterWritten(d, LaneOf(y), x, text, c);
    NextCell(y, x, |text|);
    if y != 0 { HoldFollows(y, x, |text|); }
  }

  /**
   A text shown on line 1 or 2, column by column: character k is seen at column
   x + k modulo 40 if it is among the last 40; the columns a short text does not
   reach, the other line and the pattern memory keep their contents.
   */
  lemma TextOnLine(d: Device, y: U8, x: nat, text: seq<U8>)
    requires Configured(d) && 1 <= y <= 2
    ensures
      var base := LaneOf(y).base;
      var shown := Showing(d, LaneOf(y), x, text);
      && shown.memory.cgram == d.memory.cgram
      && shown.pointer == Ddram(Address(base + Column(x, |text|, 40)))
      && (forall k | 0 <= k < |text| <= k + 40 :: shown.memory.ddram[base + Column(x, k, 40)] == text[k])
      && (forall k | |text| <= k < 40 ::
            shown.memory.ddram[base + Column(x, k, 40)] == d.memory.ddram[base + Column(x, k, 40)])
      && (forall c | 40 - base <= c < 80 - base :: shown.memory.ddram[c] == d.memory.ddram[c])
  {
    PutLine(d.memory.ddram, LaneOf(y).base, x, text);
  }

  /** A text in two calls, the second at the column after the first, shows as one call would. */
  lemma TextJoined(d: Device, y: U8, x: nat, first: seq<U8>, second: seq<U8>)
    requires Configured(d) && 1 <= y <= 2
    ensures Showing(Showing(d, LaneOf(y), x, first), LaneOf(y), Column(x, |first|, 40), second)
         == Showing(d, LaneOf(y), x, first + second)
  {
    PutJoined(d.memory.ddram, LaneOf(y).base, x, first, second);
    ColumnContinues(x, |first|, |second|);
  }

  /** Both the 80 cells and the range of an int8_t divide 1280. */
  lemma RemaindersOf1280(m: nat)
    ensures m % 1280 % 0x100 == m % 0x100 && m % 1280 % 80 == m % 80
  {
    var q, r := m / 1280, m % 1280;
    RemainderUnique(m, 0x100, 5 * q + r / 0x100, r % 0x100);
    RemainderUnique(m, 80, 16 * q + r / 80, r % 80);
  }

  /** Within 1280 characters the shadow and the address counter agree on the first line only. */
  lemma DriftWithin1280(r: nat)
    requires r < 1280
    ensures ToI8(r) == Address(r % 80) <==> r < 40
  {
    var p, q := r / 80, r / 0x100;
    assert r == 80 * p + r % 80 && r == 0x100 * q + r % 0x100;
    if r >= 40 && r % 80 >= 40 && r % 0x100 < 0x80 {
      assert r % 0x100 == r % 80 + 24 ==> 32 * q + 3 == 10 * p;
    }
  }

  /**
   The shadow on the unnamed line 0, counting in int8_t, against the address
   counter, running over both lines: for a text of any length from any column they
   agree exactly at the first 40 of every 1280 places. On lines 1 and 2 they always do.
   */
  lemma LineZeroDrifts(x: nat, n: nat)
    ensures ToI8(x + n) == Address(LaneOf(0).CellOf(x, n)) <==> (x + n) % 1280 < 40
  {
    RemaindersOf1280(x + n);
    DriftWithin1280((x + n) % 1280);
  }

  /** Columns of the window a 16-column display shows from displayPos on. */
  predicate InWindow(displayPos: nat, column: nat) {
    (column - displayPos) % 40 < 16
  }

  /**
   Every answer of CheckVisual: ERROR for an address of no cell, OUT_OF_VISUAL for a
   cell outside the columns it passes, which are at most 17 and none past the end of the line.
   */
  lemma CheckVisualExactly(displayPos: U8, address: U8)
    requires displayPos < 40
    ensures
      var cell := CellAt(true, address);
      var column := if cell < 40 then cell else cell - 40;
      CheckVisual(displayPos, address) ==
        if cell < 0 then ERROR
        else if displayPos <= column <= displayPos + 16 then OK else OUT_OF_VISUAL
  {
    assert ToU8(displayPos + HORIZONTAL_SIZE) == displayPos + 16;
  }

  lemma CheckVisualClosed(displayPos: U8, cell: nat)
    requires displayPos < 40 && cell < 80
    ensures
      var column := if cell < 40 then cell else cell - 40;
      CheckVisual(displayPos, Address(cell)) ==
        if displayPos <= column <= displayPos + 16 then OK else OUT_OF_VISUAL
  {
    CellOfAddress(cell);
    CheckVisualExactly(displayPos, Address(cell));
  }

  /**
   CheckVisual against the window: it takes one column too many on the right, and
   it misses the part of a window that runs past column 39. Everywhere else the
   two agree.
   */
  lemma CheckVisualAgainstWindow(displayPos: U8, cell: nat)
    requires displayPos < 40 && cell < 80
    ensures
      var column := if cell < 40 then cell else cell - 40;
      (CheckVisual(displayPos, Address(cell)) == OK <==> InWindow(displayPos, column))
      <==> column != displayPos + 16 && displayPos <= column + 24
  {
    CheckVisualClosed(displayPos, cell);
    var column := if cell < 40 then cell else cell - 40;
    assert InWindow(displayPos, column) <==> 0 <= column - displayPos < 16 || column + 24 < displayPos;
  }

  /** The two left edges the display can move to are one column on, around the line. */
  lemma ShiftedIsModular(before: int)
    ensures Shifted(true, before % 40, true) == (before - 1) % 40
    ensures Shifted(true, before % 40, false) == (before + 1) % 40
  {
    NextRemainder(before, 40);
    NextRemainder(before - 1, 40);
  }

  /** The cached position is kept on the line by its own wraps, in uint8_t. */
  lemma CachedStep(p: nat)
    requires p < 40
    ensures Shifted(true, p, false) == if ToU8(p + 1) > MAX_LINE1 then 0 else ToU8(p + 1)
    ensures Shifted(true, p, true) == if ToU8(p - 1) > MAX_LINE1 then MAX_LINE1 else ToU8(p - 1)
  {
    assert ToU8(p + 1) == p + 1;
    assert ToU8(p - 1) == if p == 0 then 0xFF else p - 1;
  }

  lemma ShiftCommands()
    ensures Decode(0x1C) == ShiftDisplay(true) && Decode(0x18) == ShiftDisplay(false)
  {
  }

  lemma FunctionSetCommand(twoLines: bool, tallFont: bool)
    ensures Decode(0x20 + (if twoLines then 0x08 else 0) + if tallFont then 0x04 else 0)
         == FunctionSet(Setup(false, twoLines, tallFont))
  {
  }

  lemma ModeCommand(on: bool, cursor: bool, blink: bool)
    ensures Decode(0x08 + (if on then 0x04 else 0) + (if cursor then 0x02 else 0) + if blink then 0x01 else 0)
         == SetControl(Control(on, cursor, blink))
  {
  }

  /** Where the address command for an address of the driver sends the address counter. */
  function Target(a: U8): (p: Pointer)
    requires a < 0x80 || 0xC0 <= a
    ensures p.Valid()
  {
    if a < 0x80 then Ddram(a) else Cgram(a - 0xC0)
  }

  /** A column from 1 up: the address is a cell's, and fits the shadow. */
  lemma TargetOfColumn(x: U8, y: U8)
    requires DDRamAddress(x, y).Some? && 1 <= x
    ensures
      var a := DDRamAddress(x, y).value;
      Target(a) == Ddram(a) && CellAt(true, a) >= 0 && ToI8(a) == a
  {
    AddressOfColumn(x, y);
  }

  /** From column 0 the address is above 0xC0, and the command overflows into another. */
  lemma AddressCommand(a: U8)
    requires a < 0x80 || 0xC0 <= a
    ensures Decode(ToU8(0x80 + a)) == SetPointer(Target(a))
  {
    assert ToU8(0x80 + a) == if a < 0x80 then 0x80 + a else a - 0x80;
  }

  /** The left edge after k moves of the window. */
  function Steps(twoLines: bool, right: bool, column: nat, k: nat): nat {
    if k == 0 then column else Shifted(twoLines, Steps(twoLines, right, column, k - 1), right)
  }

  /** k moves are one subtraction or addition modulo the length of the line. */
  lemma {:induction false} StepsClosed(right: bool, column: nat, k: nat)
    requires column < 40
    ensures Steps(true, right, column, k) == (if right then column - k else column + k) % 40
  {
    if k > 0 {
      StepsClosed(right, column, k - 1);
      var before := if right then column - (k - 1) else column + (k - 1);
      assert Steps(true, right, column, k - 1) == before % 40;
      ShiftedIsModular(before);
    }
  }

  function Magnitude(n: int): nat {
    if n >= 0 then n else -n
  }

  /** Shifting by n moves the left edge n columns back, in either direction. */
  lemma ShiftClosed(n: int, column: nat)
    requires column < 40
    ensures Steps(true, n >= 0, column, Magnitude(n)) == (column - n) % 40
  {
    StepsClosed(n >= 0, column, Magnitude(n));
  }

  // ---- A text on the display, in both builds and in both directions ----

  /** The controller and the shadow. */
  datatype Shadowed = Shadowed(dev: Device, hold: I8)
  {
    /** The address that a busy check reports. */
    function Reported(readBack: bool): U8
      requires dev.WellFormed()
    {
      if readBack then dev.pointer.ac else ToU8(hold)
    }

    /** After one character on line y, written and corrected. */
    function Round(readBack: bool, up: bool, y: U8, c: U8): (r: Shadowed)
      requires dev.WellFormed()
      ensures r.dev.WellFormed()
    {
      var written := Shadowed(dev.WriteData(c), if readBack then hold else NextHold(up, y, hold));
      if !OffLine(y, written.Reported(readBack)) then written
      else Shadowed(written.dev.(pointer := Ddram(LineStart(y))), if readBack then hold else LineStart(y))
    }

    function Rounds(readBack: bool, up: bool, y: U8, text: seq<U8>): (r: Shadowed)
      requires dev.WellFormed()
      ensures r.dev.WellFormed()
    {
      if text == [] then this
      else Rounds(readBack, up, y, text[..|text| - 1]).Round(readBack, up, y, text[|text| - 1])
    }

    /** The status of a text: what CheckVisual says of the address reported before each character. */
    function Status(readBack: bool, up: bool, y: U8, displayPos: U8, text: seq<U8>): Code
      requires dev.WellFormed()
    {
      if text == [] then OK
      else
        var before := text[..|text| - 1];
        Or(Status(readBack, up, y, displayPos, before),
           CheckVisual(displayPos, Rounds(readBack, up, y, before).Reported(readBack)))
    }
  }

  lemma NextRound(s: Shadowed, readBack: bool, up: bool, y: U8, displayPos: U8, text: seq<U8>, c: U8)
    requires s.dev.WellFormed()
    ensures s.Rounds(readBack, up, y, text + [c]) == s.Rounds(readBack, up, y, text).Round(readBack, up, y, c)
    ensures s.Status(readBack, up, y, displayPos, text + [c])
         == Or(s.Status(readBack, up, y, displayPos, text),
               CheckVisual(displayPos, s.Rounds(readBack, up, y, text).Reported(readBack)))
  {
    assert (text + [c])[..|text|] == text;
  }

  lemma {:induction false} RoundsKeepModes(s: Shadowed, readBack: bool, up: bool, y: U8, text: seq<U8>)
    requires s.dev.WellFormed()
    ensures SameModes(s.dev, s.Rounds(readBack, up, y, text).dev)
  {
    if text != [] { RoundsKeepModes(s, readBack, up, y, text[..|text| - 1]); }
  }

  /** What CheckVisual says before each character of a text. */
  function Codes(s: Shadowed, readBack: bool, up: bool, y: U8, displayPos: U8, text: seq<U8>): (codes: seq<Code>)
    requires s.dev.WellFormed()
    ensures |codes| == |text|
    ensures forall code | code in codes :: code in {OK, ERROR, OUT_OF_VISUAL}
  {
    if text == [] then []
    else
      var before := text[..|text| - 1];
      Codes(s, readBack, up, y, displayPos, before)
      + [CheckVisual(displayPos, s.Rounds(readBack, up, y, before).Reported(readBack))]
  }

  lemma {:induction false} CodesAt(s: Shadowed, readBack: bool, up: bool, y: U8, displayPos: U8, text: seq<U8>, k: nat)
    requires s.dev.WellFormed() && k < |text|
    ensures Codes(s, readBack, up, y, displayPos, text)[k]
         == CheckVisual(displayPos, s.Rounds(readBack, up, y, text[..k]).Reported(readBack))
  {
    if k < |text| - 1 {
      CodesAt(s, readBack, up, y, displayPos, text[..|text| - 1], k);
      assert text[..|text| - 1][..k] == text[..k];
    }
  }

  /** What codes combined with a bitwise or are: the worst of them, in the order OK, ERROR, OUT_OF_VISUAL. */
  predicate Collects(status: Code, codes: seq<Code>) {
    && (status == OUT_OF_VISUAL <==> OUT_OF_VISUAL in codes)
    && (status == ERROR <==> ERROR in codes && OUT_OF_VISUAL !in codes)
    && (status == OK <==> forall code | code in codes :: code == OK)
  }

  lemma OneMoreCollected(status: Code, codes: seq<Code>, code: Code)
    requires Collects(status, codes) && status != BUSY_TIME_OUT && code in {OK, ERROR, OUT_OF_VISUAL}
    ensures Collects(Or(status, code), codes + [code]) && Or(status, code) != BUSY_TIME_OUT
  {
    assert forall c :: c in codes + [code] <==> c in codes || c == code;
  }

  /** The status of any text, in either build and direction and on any line, is the worst of its codes. */
  lemma {:induction false} StatusCollects(s: Shadowed, readBack: bool, up: bool, y: U8, displayPos: U8, text: seq<U8>)
    requires s.dev.WellFormed()
    ensures
      var status := s.Status(readBack, up, y, displayPos, text);
      status != BUSY_TIME_OUT && Collects(status, Codes(s, readBack, up, y, displayPos, text))
  {
    if text != [] {
      var before := text[..|text| - 1];
      StatusCollects(s, readBack, up, y, displayPos, before);
      OneMoreCollected(s.Status(readBack, up, y, displayPos, before), Codes(s, readBack, up, y, displayPos, before),
                       CheckVisual(displayPos, s.Rounds(readBack, up, y, before).Reported(readBack)));
    }
  }

  /** A shadow that follows a text: on line 1 or 2 it is the address counter, on line 0 it only counts. */
  predicate Follows(s: Shadowed, readBack: bool, y: U8, column: nat, n: nat) {
    readBack || s.hold == if y == 0 then ToI8(column + n) else s.dev.pointer.ac
  }

  /** One character more on the display. */
  lemma RoundShows(s: Shadowed, readBack: bool, up: bool, y: U8, d: Device, column: nat, text: seq<U8>, c: U8)
    requires Configured(d) && y <= 2 && s.dev == Showing(d, LaneOf(y), column, text) && s.dev.WellFormed()
    requires (readBack || up) && Follows(s, readBack, y, column, |text|)
    ensures
      var after := s.Round(readBack, up, y, c);
      && after.dev == Showing(d, LaneOf(y), column, text + [c])
      && Follows(after, readBack, y, column, |text| + 1)
      && (readBack ==> after.hold == s.hold)
  {
    CharacterShown(d, y, column, text, c);
    ShadowCounts(column + |text|);
  }

  /** A text started on the display, in a build that follows it: the rounds show the text. */
  lemma {:induction false} RoundsShow(s: Shadowed, readBack: bool, up: bool, y: U8,
                                      d: Device, column: nat, text: seq<U8>)
    requires Configured(d) && y <= 2 && s.dev == Showing(d, LaneOf(y), column, []) && s.dev.WellFormed()
    requires (readBack || up) && Follows(s, readBack, y, column, 0)
    ensures
      var after := s.Rounds(readBack, up, y, text);
      && after.dev == Showing(d, LaneOf(y), column, text)
      && Follows(after, readBack, y, column, |text|)
      && (readBack ==> after.hold == s.hold)
  {
    if text != [] {
      var before, c := text[..|text| - 1], text[|text| - 1];
      var reached := s.Rounds(readBack, up, y, before);
      RoundsShow(s, readBack, up, y, d, column, before);
      RoundShows(reached, readBack, up, y, d, column, before, c);
      assert before + [c] == text;
      assert s.Rounds(readBack, up, y, text) == reached.Round(readBack, up, y, c);
    } else {
      assert text == [];
    }
  }

  /** The address reported during a text on line 1 or 2. */
  lemma ReportedOnLine(s: Shadowed, readBack: bool, y: U8, d: Device, column: nat, text: seq<U8>)
    requires Configured(d) && 1 <= y <= 2 && s.dev == Showing(d, LaneOf(y), column, text) && s.dev.WellFormed()
    requires Follows(s, readBack, y, column, |text|)
    ensures s.Reported(readBack) == Address(LaneOf(y).CellOf(column, |text|))
  {
  }

  /**
   The status of a text on line 1 or 2 is OK if the text is empty, or begins at or
   after the display position and ends within 16 columns of it and on the line;
   otherwise it is OUT_OF_VISUAL.
   */
  lemma {:induction false} StatusClosed(s: Shadowed, readBack: bool, up: bool, y: U8, displayPos: U8,
                                        d: Device, column: nat, text: seq<U8>)
    requires Configured(d) && 1 <= y <= 2 && displayPos < 40 && column < 40
    requires s.dev == Showing(d, LaneOf(y), column, []) && s.dev.WellFormed()
    requires (readBack || up) && Follows(s, readBack, y, column, 0)
    ensures s.Status(readBack, up, y, displayPos, text) ==
              if SeenWhole(displayPos, column, |text|) then OK else OUT_OF_VISUAL
  {
    if text != [] {
      var last := |text| - 1;
      var before := text[..last];
      StatusClosed(s, readBack, up, y, displayPos, d, column, before);
      RoundsShow(s, readBack, up, y, d, column, before);
      ReportedOnLine(s.Rounds(readBack, up, y, before), readBack, y, d, column, before);
      NextSeen(displayPos, y, column, last);
    }
  }

  /** All of n characters from a column are within 16 columns of the display position, before the line ends. */
  predicate SeenWhole(displayPos: nat, column: nat, n: nat) {
    n == 0 || (displayPos <= column && column + n - 1 <= Min(displayPos + 16, MAX_LINE1))
  }

  lemma NextSeen(displayPos: U8, y: U8, column: nat, k: nat)
    requires 1 <= y <= 2 && displayPos < 40 && column < 40
    ensures SeenWhole(displayPos, column, k + 1)
       <==> SeenWhole(displayPos, column, k) && CheckVisual(displayPos, Address(LaneOf(y).CellOf(column, k))) == OK
    ensures CheckVisual(displayPos, Address(LaneOf(y).CellOf(column, k))) in {OK, OUT_OF_VISUAL}
  {
    CheckVisualClosed(displayPos, LaneOf(y).CellOf(column, k));
    if column + k < 40 {
      RemainderUnique(column + k, 40, 0, column + k);
    } else if column + k == 40 {
      RemainderUnique(column + k, 40, 1, 0);
    }
  }

  /** From column 0 the first character misses the display: it goes to the pattern memory, on line 2 nowhere. */
  lemma ColumnZeroMisses(d: Device, y: U8, c: U8)
    requires Configured(d) && y <= 2
    ensures
      var written := d.(pointer := Target(DDRamAddress(0, y).value)).WriteData(c);
      && written.memory.ddram == d.memory.ddram
      && written.memory.cgram == if y == 2 then d.memory.cgram else d.memory.cgram[63 := c]
  {
    AddressOfColumn(0, y);
  }

  /** What the address command for any reported address can do besides moving the address counter. */
  lemma AddressCommandExactly(a: U8)
    ensures Decode(ToU8(0x80 + a)).Clear? <==> a == 0x81
    ensures Decode(ToU8(0x80 + a)).FunctionSet? && Decode(ToU8(0x80 + a)).setup.eightBit <==> 0xB0 <= a < 0xC0
    ensures a < 0x80 ==> Decode(ToU8(0x80 + a)) == SetPointer(Ddram(a))
  {
    assert ToU8(0x80 + a) == if a < 0x80 then 0x80 + a else a - 0x80;
  }

  /** A controller as a power-up leaves it, with these contents. */
  function Sample(memory: Memory): (d: Device)
    requires memory.Valid()
    ensures Configured(d) && d.memory == memory
  {
    Device(memory, Ddram(0), 0, Entry(true, false), Control(true, false, false), Setup(false, true, false), Boundary)
  }

  /** The display memory is kept, whatever it holds, exactly if the reported address is not 0x81. */
  lemma MemoryKeptExactly(a: U8)
    ensures (forall d: Device | Configured(d) :: d.Execute(Decode(ToU8(0x80 + a))).memory.ddram == d.memory.ddram)
       <==> a != 0x81
  {
    AddressCommandExactly(a);
    if a == 0x81 {
      var d := Sample(Memory(seq(80, _ => 0), seq(64, _ => 0)));
      var after := d.Execute(Clear);
      assert after.memory.ddram[0] == 0x20 && d.memory.ddram[0] == 0;
      assert after.memory.ddram != d.memory.ddram;
    }
  }

  /** And the bus stays in step exactly if it is not from 0xB0 to 0xBF. */
  lemma StepKeptExactly(a: U8)
    ensures (forall d: Device | Configured(d) :: InStep(d.Execute(Decode(ToU8(0x80 + a))))) <==> !(0xB0 <= a < 0xC0)
  {
    AddressCommandExactly(a);
    if 0xB0 <= a < 0xC0 {
      var d := Sample(Memory(seq(80, _ => 0), seq(64, _ => 0)));
      assert !InStep(d.Execute(Decode(ToU8(0x80 + a))));
    }
  }

  /** A text on line 0 that reaches place 129, or 256 more, leaves the shadow that clears the display. */
  lemma LineZeroThenPatternClears(d: Device, column: nat, text: seq<U8>, a: nat, rows: seq<U8>)
    requires Configured(d) && column < 40 && (column + |text|) % 0x100 == 129 && a < 64
    ensures
      var shown := Shadowed(d.(pointer := Ddram(column)), column).Rounds(false, true, 0, text);
      && shown.dev.memory.ddram == Put(d.memory.ddram, 0, 80, column, text)
      && shown.Reported(false) == 0x81
      && Written(shown.dev.(pointer := Cgram(a)), rows).Execute(Decode(ToU8(0x80 + 0x81))).memory.ddram
           == seq(80, _ => 0x20)
  {
    var s := Shadowed(d.(pointer := Ddram(column)), column);
    RemainderUnique(column, 80, 0, column);
    RemainderUnique(column, 0x100, 0, column);
    RoundsShow(s, false, true, 0, d, column, text);
    AddressCommandExactly(0x81);
  }

  // ---- Counting down: the entry mode is never sent, so only the shadow does ----

  lemma ShadowCountsDown(n: int)
    ensures NextHold(false, 0, ToI8(n)) == ToI8(n - 1)
  {
    RemainderOfSum(n, -1, 0x100);
    RemainderOfSum(ToI8(n), -1, 0x100);
    assert ToI8(n) % 0x100 == n % 0x100;
  }

  /** The shadow goes around the cells the other way. */
  lemma HoldFollowsDown(y: U8, cell: nat)
    requires 1 <= y <= 2 && LaneOf(y).base <= cell < LaneOf(y).base + 40
    ensures NextHold(false, y, Address(cell)) == Address(if cell == 0 then 79 else cell - 1)
  {
    assert ToI8(Address(cell) - 1) == Address(cell) - 1;
  }

  /** The shadow after n characters, as long as it has not left its line. */
  predicate CountsDown(hold: I8, y: U8, column: nat, n: nat) {
    if y == 0 then hold == ToI8(column - n) else y <= 2 && n <= column < 40 && hold == LineAddress(y) + column - n
  }

  lemma NextCountsDown(hold: I8, y: U8, column: nat, n: nat)
    requires CountsDown(hold, y, column, n) && (y != 0 ==> n < column)
    ensures CountsDown(NextHold(false, y, hold), y, column, n + 1) && (y != 0 ==> !OffLine(y, NextHold(false, y, hold)))
  {
    if y == 0 {
      ShadowCountsDown(column - n);
    } else {
      HoldFollowsDown(y, LaneOf(y).base + column - n);
    }
  }

  lemma DownRound(s: Shadowed, y: U8, d: Device, start: nat, column: nat, text: seq<U8>, c: U8)
    requires Configured(d) && y <= 2 && (y != 0 ==> |text| < column)
    requires s.dev == Showing(d, LaneOf(0), start, text) && s.dev.WellFormed()
    requires CountsDown(s.hold, y, column, |text|)
    ensures
      var after := s.Round(false, false, y, c);
      after.dev == Showing(d, LaneOf(0), start, text + [c]) && CountsDown(after.hold, y, column, |text| + 1)
  {
    CharacterShown(d, 0, start, text, c);
    NextCountsDown(s.hold, y, column, |text|);
  }

  /** A text of no more characters than the shadow can count down on its line runs on to the right. */
  lemma {:induction false} DownRunsOn(s: Shadowed, y: U8, d: Device, column: nat, text: seq<U8>)
    requires Configured(d) && y <= 2 && (y != 0 ==> |text| <= column)
    requires s.dev == Showing(d, LaneOf(0), LaneOf(y).base + column, []) && s.dev.WellFormed()
    requires CountsDown(s.hold, y, column, 0)
    ensures
      var after := s.Rounds(false, false, y, text);
      after.dev == Showing(d, LaneOf(0), LaneOf(y).base + column, text) && CountsDown(after.hold, y, column, |text|)
  {
    if text == [] {
      assert text == [];
    } else {
      var before, c := text[..|text| - 1], text[|text| - 1];
      var reached := s.Rounds(false, false, y, before);
      DownRunsOn(s, y, d, column, before);
      DownRound(reached, y, d, LaneOf(y).base + column, column, before, c);
      assert before + [c] == text;
      assert s.Rounds(false, false, y, text) == reached.Round(false, false, y, c);
    }
  }

  /** With the shadow at the start of its line a character is followed by a correction to that start. */
  lemma DownCorrects(s: Shadowed, y: U8, c: U8)
    requires s.dev.WellFormed() && 1 <= y <= 2 && s.hold == LineStart(y)
    ensures s.Round(false, false, y, c) == Shadowed(s.dev.WriteData(c).(pointer := Ddram(LineStart(y))), s.hold)
  {
    HoldFollowsDown(y, LaneOf(y).base);
  }

  /** Controller and shadow after a text too long for the shadow to count down. */
  function PiledUp(d: Device, y: U8, column: nat, text: seq<U8>): Shadowed
    requires Configured(d) && 1 <= y <= 2 && column < |text|
  {
    var base := LaneOf(y).base;
    var filled := Put(d.memory.ddram, 0, 80, base + column, text[..column + 1]);
    var ddram := if |text| == column + 1 then filled else filled[base := text[|text| - 1]];
    Shadowed(d.(pointer := Ddram(LineStart(y)), memory := d.memory.(ddram := ddram)), LineStart(y))
  }

  lemma PileBegins(s: Shadowed, y: U8, d: Device, column: nat, text: seq<U8>, c: U8)
    requires Configured(d) && 1 <= y <= 2 && column == |text|
    requires s.dev == Showing(d, LaneOf(0), LaneOf(y).base + column, text) && s.dev.WellFormed()
    requires CountsDown(s.hold, y, column, column)
    ensures s.Round(false, false, y, c) == PiledUp(d, y, column, text + [c])
  {
    CharacterShown(d, 0, LaneOf(y).base + column, text, c);
    DownCorrects(s, y, c);
    assert (text + [c])[..column + 1] == text + [c];
  }

  lemma PileGrows(y: U8, d: Device, column: nat, text: seq<U8>, c: U8)
    requires Configured(d) && 1 <= y <= 2 && column < |text|
    ensures PiledUp(d, y, column, text).Round(false, false, y, c) == PiledUp(d, y, column, text + [c])
  {
    CellOfAddress(LaneOf(y).base);
    WriteAtCell(PiledUp(d, y, column, text).dev, LaneOf(y).base, c);
    DownCorrects(PiledUp(d, y, column, text), y, c);
    assert (text + [c])[..column + 1] == text[..column + 1];
  }

  /**
   In the build that cannot read, counting down, a longer text on line 1 or 2 fills
   the cells from its column on with one character more than its column is far from
   the left, over the end of the line if need be; every other one goes to the first
   cell of the line, over the one before.
   */
  lemma {:induction false} DownPilesUp(s: Shadowed, y: U8, d: Device, column: nat, text: seq<U8>)
    requires Configured(d) && 1 <= y <= 2 && column < |text|
    requires s.dev == Showing(d, LaneOf(0), LaneOf(y).base + column, []) && s.dev.WellFormed()
    requires CountsDown(s.hold, y, column, 0)
    ensures s.Rounds(false, false, y, text) == PiledUp(d, y, column, text)
  {
    var before, c := text[..|text| - 1], text[|text| - 1];
    assert before + [c] == text;
    if |text| == column + 1 {
      DownRunsOn(s, y, d, column, before);
      PileBegins(s.Rounds(false, false, y, before), y, d, column, before, c);
    } else {
      DownPilesUp(s, y, d, column, before);
      PileGrows(y, d, column, before, c);
    }
  }

  /** StrShow starts so from column 1 on. */
  lemma DownStarts(d: Device, x: U8, y: U8)
    requires Configured(d) && DDRamAddress(x, y).Some? && 1 <= x
    ensures
      var s := BlindStart(d, x, y);
      s.dev == Showing(d, LaneOf(0), LaneOf(y).base + (x - 1), []) && CountsDown(s.hold, y, x - 1, 0)
  {
    BlindStartShows(d, x, y);
    ColumnOfFirst(x - 1, LaneOf(y).size);
    RemainderUnique(LaneOf(y).base + (x - 1), 80, 0, LaneOf(y).base + (x - 1));
  }

  // ---- The two builds against each other, from any column of any line ----

  /** The build that reads back depends on nothing but the controller. */
  lemma {:induction false} ReadingRounds(s: Shadowed, hold: I8, up: bool, y: U8, text: seq<U8>)
    requires s.dev.WellFormed()
    ensures s.Rounds(true, up, y, text).dev == Shadowed(s.dev, hold).Rounds(true, true, y, text).dev
  {
    if text != [] { ReadingRounds(s, hold, up, y, text[..|text| - 1]); }
  }

  /** The shadow during a text on line 1 or 2, in whichever memory the address counter is. */
  predicate Tracks(y: U8, p: Pointer, hold: I8) {
    if y == 1 then (p == Cgram(63) && hold == -1) || (hold == p.ac && p.ac <= MAX_LINE1)
    else p.Ddram? && hold == p.ac && MAX_CGRAM <= p.ac <= MAX_LINE2
  }

  /** Where one character takes the address counter and the shadow before any correction. */
  lemma WriteTracks(s: Shadowed, y: U8, c: U8)
    requires Configured(s.dev) && 1 <= y <= 2 && Tracks(y, s.dev.pointer, s.hold)
    ensures
      var pointer, hold := s.dev.WriteData(c).pointer, NextHold(true, y, s.hold);
      if OffLine(y, pointer.ac) then OffLine(y, ToU8(hold)) else hold == pointer.ac && Tracks(y, pointer, hold)
  {
    assert s.dev.WriteData(c).pointer == Next(true, s.dev.pointer);
    assert ToI8(s.hold + 1) == s.hold + 1;
  }

  lemma RoundTracks(s: Shadowed, y: U8, c: U8)
    requires Configured(s.dev) && 1 <= y <= 2 && Tracks(y, s.dev.pointer, s.hold)
    ensures
      var after := s.Round(false, true, y, c);
      after.dev == s.Round(true, true, y, c).dev && Configured(after.dev) && Tracks(y, after.dev.pointer, after.hold)
  {
    WriteTracks(s, y, c);
  }

  lemma FreeRound(s: Shadowed, c: U8)
    requires Configured(s.dev)
    ensures s.Round(false, true, 0, c).dev == s.Round(true, true, 0, c).dev == s.dev.WriteData(c)
    ensures Configured(s.dev.WriteData(c))
  {
  }

  lemma {:induction false} BuildsShowAlike(s: Shadowed, y: U8, text: seq<U8>)
    requires Configured(s.dev) && y <= 2 && (y != 0 ==> Tracks(y, s.dev.pointer, s.hold))
    ensures
      var after := s.Rounds(false, true, y, text);
      && after.dev == s.Rounds(true, true, y, text).dev && Configured(after.dev)
      && (y != 0 ==> Tracks(y, after.dev.pointer, after.hold))
  {
    if text != [] {
      var before, c := text[..|text| - 1], text[|text| - 1];
      BuildsShowAlike(s, y, before);
      var blind, reading := s.Rounds(false, true, y, before), s.Rounds(true, true, y, before);
      if y == 0 {
        FreeRound(blind, c);
      } else {
        RoundTracks(blind, y, c);
      }
      assert blind.Round(true, true, y, c).dev == reading.Round(true, true, y, c).dev;
    }
  }

  lemma {:induction false} RoundsKeepConfigured(s: Shadowed, readBack: bool, up: bool, y: U8, text: seq<U8>)
    requires s.dev.WellFormed()
    ensures Configured(s.dev) ==> Configured(s.Rounds(readBack, up, y, text).dev)
  {
    if text != [] { RoundsKeepConfigured(s, readBack, up, y, text[..|text| - 1]); }
  }

  /** Controller and shadow of the write-only build after the address command of StrShow. */
  function BlindStart(d: Device, x: U8, y: U8): (s: Shadowed)
    requires DDRamAddress(x, y).Some? && d.WellFormed()
    ensures s.dev.WellFormed() && (Configured(d) ==> Configured(s.dev))
  {
    AddressOfColumn(x, y);
    var a := DDRamAddress(x, y).value;
    Shadowed(d.(pointer := Target(a)), ToI8(a))
  }

  /** The controller after a text, as the build that reads back shows it. */
  function Shown(d: Device, x: U8, y: U8, text: seq<U8>): (r: Device)
    requires DDRamAddress(x, y).Some? && d.WellFormed()
    ensures r.WellFormed() && (Configured(d) ==> Configured(r))
  {
    RoundsKeepConfigured(BlindStart(d, x, y), true, true, y, text);
    BlindStart(d, x, y).Rounds(true, true, y, text).dev
  }

  lemma StartTracks(d: Device, x: U8, y: U8)
    requires Configured(d) && DDRamAddress(x, y).Some?
    ensures
      var s := BlindStart(d, x, y);
      Configured(s.dev) && (y != 0 ==> Tracks(y, s.dev.pointer, s.hold))
  {
    AddressOfColumn(x, y);
    assert ToI8(0xFF) == -1 && ToI8(0x3F) == 0x3F;
    if 1 <= x { TargetOfColumn(x, y); }
  }

  /** For every column, line and text, columns and lines 0 too, both builds leave the same controller. */
  lemma BothBuildsShow(d: Device, x: U8, y: U8, text: seq<U8>)
    requires Configured(d) && DDRamAddress(x, y).Some?
    ensures BlindStart(d, x, y).Rounds(false, true, y, text).dev == Shown(d, x, y, text)
    ensures Configured(Shown(d, x, y, text))
  {
    StartTracks(d, x, y);
    BuildsShowAlike(BlindStart(d, x, y), y, text);
  }

  lemma {:induction false} RoundsKeepShift(s: Shadowed, readBack: bool, up: bool, y: U8, text: seq<U8>)
    requires s.dev.WellFormed() && !s.dev.entry.shiftOnWrite
    ensures s.Rounds(readBack, up, y, text).dev.shift == s.dev.shift
    ensures SameModes(s.dev, s.Rounds(readBack, up, y, text).dev)
  {
    if text != [] { RoundsKeepShift(s, readBack, up, y, text[..|text| - 1]); }
  }

  lemma ShownKeepsShift(d: Device, x: U8, y: U8, text: seq<U8>)
    requires Configured(d) && DDRamAddress(x, y).Some?
    ensures Shown(d, x, y, text).shift == d.shift
  {
    RoundsKeepShift(BlindStart(d, x, y), true, true, y, text);
  }

  lemma BlindStartShows(d: Device, x: U8, y: U8)
    requires Configured(d) && DDRamAddress(x, y).Some? && 1 <= x
    ensures BlindStart(d, x, y).dev == Showing(d, LaneOf(y), x - 1, [])
    ensures BlindStart(d, x, y).hold == DDRamAddress(x, y).value
    ensures Follows(BlindStart(d, x, y), false, y, x - 1, 0)
  {
    AddressOfColumn(x, y);
    TargetOfColumn(x, y);
    if y == 0 { ColumnOfFirst(x - 1, 80); }
  }

  /** From column 1 on it is the text laid on its line; on lines 1 and 2 the shadow is the address counter. */
  lemma ShownIsShowing(d: Device, x: U8, y: U8, text: seq<U8>)
    requires Configured(d) && DDRamAddress(x, y).Some? && 1 <= x
    ensures Shown(d, x, y, text) == Showing(d, LaneOf(y), x - 1, text)
    ensures y != 0 ==> BlindStart(d, x, y).Rounds(false, true, y, text).hold == Shown(d, x, y, text).pointer.ac
  {
    BlindStartShows(d, x, y);
    RoundsShow(BlindStart(d, x, y), false, true, y, d, x - 1, text);
    RoundsShow(BlindStart(d, x, y), true, true, y, d, x - 1, text);
  }

  /** A controller powered up: blank and at home, on the 4-bit interface, counting up. */
  function PoweredUp(d: Device, twoLines: bool, tallFont: bool, control: Control): (r: Device)
    requires d.memory.Valid()
    ensures twoLines && !d.entry.shiftOnWrite ==> Configured(r)
  {
    d.(memory := d.memory.(ddram := seq(80, _ => 0x20)), pointer := Ddram(0), shift := 0,
       entry := Entry(true, d.entry.shiftOnWrite), control := control,
       setup := Setup(false, twoLines, tallFont), phase := Boundary)
  }

  /** The entry mode and the function bits are the same. */
  predicate SameModes(before: Device, after: Device) {
    after.entry == before.entry && after.setup == before.setup
  }

  /** How many polls found the display busy and how many did not. */
  datatype Polls = Polls(busy: nat, idle: nat)
  {
    function Then(flag: bool): Polls {
      if flag then Polls(busy + 1, idle) else Polls(busy, idle + 1)
    }
  }

  class Driver {
    const readBack: bool          // HD4780_WR > 0
    var dev: Device               // the display module on the port
    var rs: bool                  // the RS and R/W lines
    var rw: bool
    var displayPos: U8            // HD4478_Ctrl
    var acDirection: bool
    var displayShift: bool
    var line: bool
    var dotMode: bool
    var displayOn: bool
    var cursorOn: bool
    var cursorBlink: bool
    var dataRamAddHold: I8        // the write-only build's shadow address counter
    ghost var timeouts: nat       // busy checks that ran out so far
    ghost var polls: Polls        // the busy flags read so far

    /** The bus is usable: the interfaces agree on the width and the phase of the transfer. */
    ghost predicate Connected()
      reads this
    {
      InStep(dev) && (!readBack ==> !rw)
    }

    ghost predicate Ready()
      reads this
    {
      Connected() && displayPos < 40
    }

    /** The cached state is the state of the display, at rest on a cell of the display memory. */
    ghost predicate Agrees()
      reads this
    {
      && dev.pointer.Ddram? && CellAt(true, dev.pointer.ac) >= 0
      && displayPos == dev.shift
      && (!readBack ==> acDirection && dataRamAddHold == dev.pointer.ac)
    }

    /** The polls that found the display busy, less the time outs. */
    ghost function Spare(): int
      reads this`timeouts, this`polls
    {
      polls.busy - timeouts
    }

    /**
     Time outs only add up, each of them after a poll that found the display busy, and
     the build that does not poll has none.
     */
    ghost predicate TimeoutsSince(before: nat, spare: int)
      reads this
    {
      before <= timeouts && (!readBack ==> timeouts == before) && Spare() >= spare
    }

    ghost function Both(): Shadowed
      reads this
    {
      Shadowed(dev, dataRamAddHold)
    }

    /** The address a completed busy check reports. */
    ghost function ReportedAddress(): U8
      requires dev.WellFormed()
      reads this
    {
      Both().Reported(readBack)
    }

    /** The settings structure holds its compile-time initial values. */
    constructor (readBack: bool, dev: Device)
      ensures this.readBack == readBack && this.dev == dev && !rw
      ensures displayPos == 0 && dataRamAddHold == 0 && timeouts == 0
      ensures acDirection && !displayShift && line && !dotMode && displayOn && !cursorOn && !cursorBlink
    {
      this.readBack, this.dev, this.rs, this.rw := readBack, dev, false, false;
      displayPos, dataRamAddHold, timeouts, polls := 0, 0, 0, Polls(0, 0);
      acDirection, displayShift, line, dotMode := true, false, true, false;
      displayOn, cursorOn, cursorBlink := true, false, false;
    }

    /** A pulse on E transfers one nibble, in the direction the R/W line says. */
    method PulseE(nibble: Nibble) returns (ghost floating: Nibble)
      requires dev.WellFormed()
      modifies this`dev
      ensures dev == if rw then old(dev).ReadEdge(rs, false) else old(dev).WriteEdge(rs, nibble, floating)
    {
      var low: Nibble := *;
      floating := low;
      dev := if rw then dev.ReadEdge(rs, false) else dev.WriteEdge(rs, nibble, low);
    }

    /** One write strobe. The low data lines are not driven and may read anything. */
    method WrIO(nibble: Nibble) returns (ghost floating: Nibble)
      requires dev.WellFormed() && (!readBack ==> !rw)
      modifies this`dev, this`rw
      ensures dev == old(dev).WriteEdge(rs, nibble, floating) && !rw
    {
      if readBack { rw := false; }
      floating := PulseE(nibble);
    }

    /** One read strobe; whether the controller reports busy is up to it. */
    method RdIO(busy: bool) returns (nibble: Nibble)
      requires dev.WellFormed() && readBack
      modifies this`dev, this`rw
      ensures dev == old(dev).ReadEdge(rs, busy) && nibble == old(dev).Driven(rs, busy) && rw
    {
      rw := true;
      nibble := dev.Driven(rs, busy);
      dev := dev.ReadEdge(rs, busy);
    }

    method WrData(data: U8)
      requires Connected()
      modifies this`dev, this`rs, this`rw
      ensures Connected() && dev == old(dev).WriteData(data)
    {
      rs := true;
      assert data / 16 % 16 == data / 16;
      var f := WrIO(data / 16 % 16);
      var g := WrIO(data % 16);
      ByteDelivered(old(dev), true, data, f, g);
    }

    method WrComm(command: U8)
      requires Connected()
      modifies this`dev, this`rs, this`rw
      ensures dev == old(dev).Execute(Decode(command)) && dev.WellFormed() && !rw
      ensures Message(false, command).KeepsWidth() ==> Connected()
    {
      rs := false;
      assert command / 16 % 16 == command / 16;
      var f := WrIO(command / 16 % 16);
      var g := WrIO(command % 16);
      ByteDelivered(old(dev), false, command, f, g);
    }

    /** Both nibbles of a read, the high one first. */
    method RdByte(busy: bool) returns (data: U8)
      requires Connected() && readBack
      modifies this`dev, this`rw
      ensures Connected()
      ensures data == old(dev).Offered(rs, busy)
      ensures dev == if rs then old(dev).Advance() else old(dev)
    {
      var high: int := RdIO(busy);
      var low := RdIO(busy);
      data := high * 16 % 0x100 + low % 16;
      ByteRead(old(dev), rs, busy);
    }

    method RdData() returns (data: U8)
      requires Connected() && readBack
      modifies this`dev, this`rs, this`rw
      ensures Connected() && data == old(dev).Selected() && dev == old(dev).Advance()
    {
      rs := true;
      data := RdByte(false);
    }

    /** The status leaves the controller as it was: the busy flag over the address counter. */
    method RdStatus() returns (status: U8)
      requires Connected() && readBack
      modifies this`dev, this`rs, this`rw, this`polls
      ensures Connected() && dev == old(dev)
      ensures status == dev.pointer.ac || status == 0x80 + dev.pointer.ac
      ensures polls == old(polls).Then(status >= 0x80)
    {
      rs := false;
      var busy: bool := *;
      status := RdByte(busy);
      polls := polls.Then(busy);
    }

    /**
     Polls until not busy, and then once more for the address: a time out is exactly
     `maxDly` polls that all found the display busy. The build that cannot read waits
     the whole time out and touches nothing.
     */
    method BusyCheck(maxDly: nat) returns (code: Code, address: U8)
      requires dev.WellFormed() && (readBack ==> Connected())
      modifies this`dev, this`rs, this`rw, this`timeouts, this`polls
      ensures dev == old(dev) && (if readBack then Connected() else unchanged(this))
      ensures code == OK || (code == BUSY_TIME_OUT && readBack)
      ensures timeouts == old(timeouts) + (if code == OK then 0 else 1) && (!readBack ==> code == OK)
      ensures 0 < maxDly ==> Spare() >= old(Spare())
      ensures code == OK ==> address == ReportedAddress()
      ensures readBack && code == OK ==> old(polls).idle < polls.idle && polls.busy <= old(polls).busy + maxDly
      ensures code != OK ==> polls == Polls(old(polls).busy + maxDly, old(polls).idle)
    {
      var remaining := maxDly;
      while remaining > 0
        invariant dev == old(dev) && timeouts == old(timeouts)
        invariant if readBack then Connected() else unchanged(this)
        invariant 0 <= remaining <= maxDly
        invariant readBack ==> polls == Polls(old(polls).busy + (maxDly - remaining), old(polls).idle)
      {
        if readBack {
          var hold := RdStatus();
          if hold / 0x80 == 0 {
            hold := RdStatus();
            return OK, hold % 0x80;
          }
        }
        remaining := remaining - 1;
      }
      if readBack {
        timeouts := timeouts + 1;
        return BUSY_TIME_OUT, 0;
      }
      return OK, ToU8(dataRamAddHold);
    }

    method SetMode() returns (code: Code)
      requires Connected()
      modifies this`dev, this`rs, this`rw, this`timeouts, this`polls
      ensures Connected()
      ensures dev == old(dev).(control := Control(displayOn, cursorOn, cursorBlink))
      ensures timeouts == old(timeouts) + (if code == OK then 0 else 1) && (!readBack ==> code == OK)
      ensures Spare() >= old(Spare())
    {
      var command: U8 := 0x08;
      if displayOn { command := command + 0x04; }
      if cursorOn { command := command + 0x02; }
      if cursorBlink { command := command + 0x01; }
      ModeCommand(displayOn, cursorOn, cursorBlink);
      WrComm(command);
      var c, _ := BusyCheck(41);
      return c;
    }

    method ClearDisplay() returns (code: Code)
      requires Connected()
      modifies this`dev, this`rs, this`rw, this`timeouts, this`polls, this`displayPos, this`dataRamAddHold
      ensures Ready() && (readBack || acDirection ==> Agrees())
      ensures displayPos == 0 && dataRamAddHold == if readBack then old(dataRamAddHold) else 0
      ensures dev == old(dev).(memory := old(dev).memory.(ddram := seq(80, _ => 0x20)), pointer := Ddram(0), shift := 0,
                                 entry := Entry(true, old(dev).entry.shiftOnWrite))
      ensures timeouts == old(timeouts) + (if code == OK then 0 else 1) && (!readBack ==> code == OK)
      ensures Spare() >= old(Spare())
    {
      if !readBack { dataRamAddHold := 0; }
      displayPos := 0;
      WrComm(0x01);
      var c, _ := BusyCheck(30);
      return c;
    }

    method ReturnToHome() returns (code: Code)
      requires Connected()
      modifies this`dev, this`rs, this`rw, this`timeouts, this`polls, this`displayPos, this`dataRamAddHold
      ensures Ready() && (readBack || acDirection ==> Agrees())
      ensures displayPos == 0 && dataRamAddHold == if readBack then old(dataRamAddHold) else 0
      ensures dev == old(dev).(pointer := Ddram(0), shift := 0)
      ensures timeouts == old(timeouts) + (if code == OK then 0 else 1) && (!readBack ==> code == OK)
      ensures Spare() >= old(Spare())
    {
      if !readBack { dataRamAddHold := 0; }
      displayPos := 0;
      WrComm(0x02);
      var c, _ := BusyCheck(30);
      return c;
    }

    /** The four strobes with RS low that select the 4-bit interface. */
    method PowerUpStrobes()
      requires dev.WellFormed() && !rs && !rw
      modifies this`dev, this`rw
      ensures Connected() && KeepsMemory(old(dev), dev)
    {
      var f0 := WrIO(0x30 / 16);
      var f1 := WrIO(0x30 / 16);
      var f2 := WrIO(0x30 / 16);
      var f3 := WrIO(0x20 / 16);
      PowerUpResynchronises(old(dev), f0, f1, f2, f3);
    }

    /** The Function Set proper, with the number of lines and the font, and the display off. */
    method FunctionSetAndOff() returns (code: Code)
      requires Connected()
      modifies this`dev, this`rs, this`rw, this`timeouts, this`polls
      ensures Connected()
      ensures TimeoutsSince(old(timeouts), old(Spare())) && (timeouts == old(timeouts) <==> code == OK)
      ensures dev == old(dev).(setup := Setup(false, line, dotMode), control := dev.control)
      ensures code == OK ==> dev.control == Control(false, false, false)
    {
      var command: U8 := 0x20;
      if line { command := command + 0x08; }
      if dotMode { command := command + 0x04; }
      FunctionSetCommand(line, dotMode);
      WrComm(command);
      var c, address := BusyCheck(2);
      if c != OK { return ERROR; }
      ModeCommand(false, false, false);
      WrComm(0x08);
      c, address := BusyCheck(30);
      if c != OK { return ERROR; }
      return OK;
    }

    /** The first part of the power-up: the interface, the lines and the font, and the display off. */
    method StartInterface() returns (code: Code)
      requires dev.WellFormed()
      modifies this`dev, this`rs, this`rw, this`timeouts, this`polls, this`displayPos
      ensures Connected() && displayPos == 0
      ensures TimeoutsSince(old(timeouts), old(Spare())) && (timeouts == old(timeouts) <==> code == OK)
      ensures dev == old(dev).(pointer := dev.pointer, shift := dev.shift, control := dev.control,
                               setup := Setup(false, line, dotMode), phase := Boundary)
    {
      displayPos := 0;
      rs, rw := false, false;
      PowerUpStrobes();
      code := FunctionSetAndOff();
    }

    /**
     From any state of the controller the driver and the display end up in step,
     with a blank screen. The entry mode command is computed and never sent:
     counting up comes from the clear, and whether the display shifts on writes
     stays as it was. After a time out the interface is usable all the same.
     */
    method PowerUpInit() returns (code: Code)
      requires dev.WellFormed()
      modifies this`dev, this`rs, this`rw, this`timeouts, this`polls, this`displayPos, this`dataRamAddHold
      ensures Ready() && TimeoutsSince(old(timeouts), old(Spare())) && (timeouts == old(timeouts) <==> code == OK)
      ensures dev.setup == Setup(false, line, dotMode) && dev.entry.shiftOnWrite == old(dev).entry.shiftOnWrite
      ensures dev.memory.cgram == old(dev).memory.cgram
      ensures code == OK && (readBack || acDirection) ==> Agrees()
      ensures code == OK ==>
                && dev.control == Control(displayOn, cursorOn, cursorBlink)
                && dev.memory.ddram == seq(80, _ => 0x20) && dev.pointer == Ddram(0) && dev.shift == 0
                && dev.entry.increment && displayPos == 0 && (readBack || dataRamAddHold == 0)
      ensures code == OK ==>
                dev == PoweredUp(old(dev), line, dotMode, Control(displayOn, cursorOn, cursorBlink))
    {
      var c := StartInterface();
      if c != OK { return ERROR; }
      c := ClearDisplay();
      if c != OK { return ERROR; }
      if !readBack { dataRamAddHold := 0; }
      var unsent: U8 := 0x04;
      if acDirection { unsent := unsent + 0x02; }
      if displayShift { unsent := unsent + 0x01; }
      c := SetMode();
      if c != OK { return ERROR; }
      return OK;
    }

    /** One step of the window, and the cached position after it if the display answers. */
    method ShiftOnce(right: bool) returns (code: Code)
      requires Ready()
      modifies this`dev, this`rs, this`rw, this`timeouts, this`polls, this`displayPos
      ensures Ready()
      ensures TimeoutsSince(old(timeouts), old(Spare())) && (timeouts == old(timeouts) <==> code == OK)
      ensures dev == old(dev).(shift := Shifted(old(dev).setup.twoLines, old(dev).shift, right))
      ensures displayPos == if code == OK then Shifted(true, old(displayPos), right) else old(displayPos)
    {
      ShiftCommands();
      CachedStep(displayPos);
      WrComm(if right then 0x1C else 0x18);
      var c, _ := BusyCheck(2);
      if c != OK { return ERROR; }
      if !right {
        displayPos := ToU8(displayPos + 1);
        if displayPos > MAX_LINE1 { displayPos := 0; }
      } else {
        displayPos := ToU8(displayPos - 1);
        if displayPos > MAX_LINE1 { displayPos := MAX_LINE1; }
      }
      return OK;
    }

    /** The loop of DisplayShift. */
    method ShiftSteps(right: bool, count: nat) returns (code: Code)
      requires Ready()
      modifies this`dev, this`rs, this`rw, this`timeouts, this`polls, this`displayPos
      ensures Ready()
      ensures TimeoutsSince(old(timeouts), old(Spare())) && code == (if timeouts == old(timeouts) then OK else ERROR)
      ensures dev == old(dev).(shift := dev.shift)
      ensures code == OK ==> dev.shift == Steps(old(dev).setup.twoLines, right, old(dev).shift, count)
      ensures code == OK ==> displayPos == Steps(true, right, old(displayPos), count)
      ensures code != OK && old(displayPos == dev.shift && dev.setup.twoLines) ==>
                dev.shift == Shifted(true, displayPos, right)
      ensures code != OK ==> count > 0
    {
      var i := 0;
      while i < count
        invariant 0 <= i <= count && Ready() && timeouts == old(timeouts) && Spare() >= old(Spare())
        invariant dev == old(dev).(shift := Steps(old(dev).setup.twoLines, right, old(dev).shift, i))
        invariant displayPos == Steps(true, right, old(displayPos), i)
      {
        var c := ShiftOnce(right);
        if c != OK { return ERROR; }
        i := i + 1;
      }
      return OK;
    }

    /**
     Shifting by n moves the window n columns back, modulo the line. After a time
     out the display is exactly one step ahead of the cached position.
     */
    method DisplayShift(n: I8) returns (code: Code)
      requires Ready()
      modifies this`dev, this`rs, this`rw, this`timeouts, this`polls, this`displayPos
      ensures Ready() && dev == old(dev).(shift := dev.shift)
      ensures n > MAX_LINE1 || n < -MAX_LINE2 ==>
                code == ERROR && dev == old(dev) && displayPos == old(displayPos) && timeouts == old(timeouts)
      ensures TimeoutsSince(old(timeouts), old(Spare()))
      ensures -MAX_LINE2 <= n <= MAX_LINE1 ==> (code == OK <==> timeouts == old(timeouts))
      ensures code == OK && old(Configured(dev)) ==> dev.shift == (old(dev).shift - n) % 40
      ensures code == OK ==> displayPos == (old(displayPos) - n) % 40
      ensures timeouts != old(timeouts) && old(displayPos == dev.shift && dev.setup.twoLines) ==>
                dev.shift == Shifted(true, displayPos, n > 0)
    {
      var right, count: I8 := true, n;
      if n >= 0 {
        if n > MAX_LINE1 { return ERROR; }
      } else {
        if n < -MAX_LINE2 { return ERROR; }
        right := false;
        assert ToI8(0 - n) == -n;
        count := ToI8(0 - n);
      }
      code := ShiftSteps(right, count);
      assert count == Magnitude(n);
      if old(Configured(dev)) { ShiftClosed(n, old(dev).shift); }
      ShiftClosed(n, old(displayPos));
    }

    /** Set the address counter, and its shadow in the write-only build. */
    method PointAt(a: U8) returns (code: Code, reported: U8)
      requires Ready() && (a < 0x80 || 0xC0 <= a)
      modifies this`dev, this`rs, this`rw, this`timeouts, this`polls, this`dataRamAddHold
      ensures Ready() && dev == old(dev).(pointer := Target(a))
      ensures dataRamAddHold == if readBack then old(dataRamAddHold) else ToI8(a)
      ensures code == OK || (code == BUSY_TIME_OUT && readBack)
      ensures timeouts == old(timeouts) + (if code == OK then 0 else 1) && (!readBack ==> code == OK)
      ensures Spare() >= old(Spare())
      ensures code == OK ==> reported == ReportedAddress()
    {
      var command := ToU8(0x80 + a);
      AddressCommand(a);
      WrComm(command);
      if !readBack { dataRamAddHold := ToI8(a); }
      code, reported := BusyCheck(2);
    }

    method SetCgramAddress(a: U8)
      requires Ready() && a < 0x40
      modifies this`dev, this`rs, this`rw
      ensures Ready() && dev == old(dev).(pointer := Cgram(a))
    {
      assert Decode(0x40 + a) == SetPointer(Cgram(a));
      WrComm(0x40 + a);
    }

    /** Back to the address that was reported, if it is one; a negative shadow makes another command of it. */
    method GoTo(a: U8)
      requires Ready()
      modifies this`dev, this`rs, this`rw
      ensures dev == old(dev).Execute(Decode(ToU8(0x80 + a))) && dev.WellFormed() && !rw
      ensures a < 0x80 ==> Ready() && dev == old(dev).(pointer := Ddram(a))
      ensures a != 0x81 ==> dev.memory == old(dev).memory
      ensures !(0xB0 <= a < 0xC0) ==> Ready()
    {
      AddressCommandExactly(a);
      WrComm(ToU8(0x80 + a));
    }

    /** The flags are one-bit fields: only the lowest bit of each argument is kept. */
    method CursorPosSet(on: U32, blinking: U32, x: U8, y: U8) returns (code: Code)
      requires Ready()
      modifies this`dev, this`rs, this`rw, this`timeouts, this`polls, this`dataRamAddHold
      modifies this`cursorOn, this`cursorBlink
      ensures Ready() && dev == old(dev).(pointer := dev.pointer, control := dev.control)
      ensures x > MAX_LINE1 || y > 2 ==>
                code == ERROR && unchanged(this)
      ensures TimeoutsSince(old(timeouts), old(Spare()))
      ensures x <= MAX_LINE1 && y <= 2 ==> (code == OK <==> timeouts == old(timeouts))
      ensures code == OK ==> cursorOn == (on % 2 == 1) && cursorBlink == (blinking % 2 == 1)
      ensures code == OK ==>
                var a := DDRamAddress(x, y).value;
                && dev.pointer == Target(a) && dev.control == Control(displayOn, cursorOn, cursorBlink)
                && dataRamAddHold == if readBack then old(dataRamAddHold) else ToI8(a)
      ensures 1 <= x && old(Agrees()) && timeouts == old(timeouts) ==> Agrees()
    {
      var address := DDRamAddress(x, y);
      if address.None? { return ERROR; }
      AddressOfColumn(x, y);
      if 1 <= x { TargetOfColumn(x, y); }
      cursorOn := false;
      var c := SetMode();
      if c != OK { return ERROR; }
      var busy, _ := PointAt(address.value);
      if busy != OK { return ERROR; }
      cursorOn := on % 2 == 1;
      cursorBlink := blinking % 2 == 1;
      code := SetMode();
    }

    /** One character written, the shadow moved past it, and the address it reached. */
    method WriteCharacter(y: U8, data: U8) returns (busy: Code, reported: U8)
      requires Ready()
      modifies this`dev, this`rs, this`rw, this`timeouts, this`polls, this`dataRamAddHold
      ensures Ready() && dev == old(dev).WriteData(data)
      ensures dataRamAddHold == if readBack then old(dataRamAddHold) else NextHold(acDirection, y, old(dataRamAddHold))
      ensures busy == OK || (busy == BUSY_TIME_OUT && readBack)
      ensures timeouts == old(timeouts) + (if busy == OK then 0 else 1) && (!readBack ==> busy == OK)
      ensures Spare() >= old(Spare())
      ensures busy == OK ==> reported == ReportedAddress()
    {
      WrData(data);
      if !readBack { dataRamAddHold := NextHold(acDirection, y, dataRamAddHold); }
      busy, reported := BusyCheck(2);
    }

    /** Back to the start of the line when the address counter has left it. */
    method KeepOnLine(y: U8, address: U8) returns (busy: Code, reported: U8)
      requires Ready() && address == ReportedAddress()
      modifies this`dev, this`rs, this`rw, this`timeouts, this`polls, this`dataRamAddHold
      ensures Ready()
      ensures dev == if OffLine(y, address) then old(dev).(pointer := Ddram(LineStart(y))) else old(dev)
      ensures dataRamAddHold == if OffLine(y, address) && !readBack then LineStart(y) else old(dataRamAddHold)
      ensures timeouts == old(timeouts) + (if busy == OK then 0 else 1) && (!readBack ==> busy == OK)
      ensures Spare() >= old(Spare())
      ensures busy == OK ==> reported == ReportedAddress()
    {
      busy, reported := OK, address;
      if y == 1 && address > MAX_LINE1 {
        busy, reported := PointAt(0);
      } else if y == 2 && address < MIN_LINE2 {
        busy, reported := PointAt(MIN_LINE2);
      }
    }

    /** One round of the loop of StrShow. */
    method ShowCharacter(y: U8, data: U8) returns (busy: Code, reported: U8)
      requires Ready()
      modifies this`dev, this`rs, this`rw, this`timeouts, this`polls, this`dataRamAddHold
      ensures Ready() && dev == old(dev).WriteData(data).(pointer := dev.pointer)
      ensures timeouts == old(timeouts) + (if busy == OK then 0 else 1) && (!readBack ==> busy == OK)
      ensures Spare() >= old(Spare())
      ensures busy == OK ==>
                Both() == old(Both()).Round(readBack, acDirection, y, data) && reported == ReportedAddress()
    {
      busy, reported := WriteCharacter(y, data);
      if busy == OK {
        busy, reported := KeepOnLine(y, reported);
      }
    }

    /** Character `shown` - 1 was written last, after the rounds of those before it. */
    ghost predicate Halted(start: Shadowed, y: U8, text: seq<U8>, shown: nat)
      requires start.dev.WellFormed()
      reads this
    {
      && 0 < shown <= |text|
      && dev == start.Rounds(readBack, acDirection, y, text[..shown - 1]).dev
                     .WriteData(text[shown - 1]).(pointer := dev.pointer)
    }

    /** The round of character i, after the rounds of the characters before it, and the status so far. */
    method ShowNext(y: U8, c: U8, address: U8, status: Code, ghost start: Shadowed, ghost text: seq<U8>, ghost i: nat)
      returns (busy: Code, reported: U8, error: Code)
      requires Ready() && start.dev.WellFormed() && address == ReportedAddress()
      requires i < |text| && text[i] == c && Both() == start.Rounds(readBack, acDirection, y, text[..i])
      requires status == start.Status(readBack, acDirection, y, displayPos, text[..i])
      modifies this`dev, this`rs, this`rw, this`timeouts, this`polls, this`dataRamAddHold
      ensures Ready()
      ensures timeouts == old(timeouts) + (if busy == OK then 0 else 1) && (!readBack ==> busy == OK)
      ensures Spare() >= old(Spare())
      ensures error == start.Status(readBack, acDirection, y, displayPos, text[..i + 1])
      ensures busy == OK ==>
                Both() == start.Rounds(readBack, acDirection, y, text[..i + 1]) && reported == ReportedAddress()
      ensures Halted(start, y, text, i + 1)
    {
      assert text[..i] + [c] == text[..i + 1];
      NextRound(start, readBack, acDirection, y, displayPos, text[..i], c);
      error := Or(status, CheckVisual(displayPos, address));
      busy, reported := ShowCharacter(y, c);
    }

    /**
     The loop of StrShow, from the address set to the end of the string. After a time
     out `shown` characters were written, the last of them without its correction.
     */
    method ShowText(y: U8, memory: seq<U8>, start: U8, ghost text: seq<U8>) returns (code: Code, ghost shown: nat)
      requires Ready() && start == ReportedAddress()
      requires IsText(memory, text)
      modifies this`dev, this`rs, this`rw, this`timeouts, this`polls, this`dataRamAddHold
      ensures Ready()
      ensures TimeoutsSince(old(timeouts), old(Spare())) && (timeouts != old(timeouts) ==> code == ERROR)
      ensures shown <= |text|
      ensures timeouts == old(timeouts) ==>
                && shown == |text|
                && Both() == old(Both()).Rounds(readBack, acDirection, y, text)
                && code == old(Both()).Status(readBack, acDirection, y, displayPos, text)
      ensures timeouts != old(timeouts) ==> Halted(old(Both()), y, text, shown)
    {
      ghost var both := Both();
      var error: Code, ddRamAdd := OK, start;
      var i := 0;
      TextGoesOn(memory, text, 0);
      assert text[..0] == [];
      while memory[i] != 0
        invariant i <= |text| < |memory| && (memory[i] != 0 <==> i < |text|)
        invariant Ready() && timeouts == old(timeouts) && Spare() >= old(Spare()) && ddRamAdd == ReportedAddress()
        invariant Both() == both.Rounds(readBack, acDirection, y, text[..i])
        invariant error == both.Status(readBack, acDirection, y, displayPos, text[..i])
        decreases |text| - i
      {
        TextGoesOn(memory, text, i);
        var busy;
        busy, ddRamAdd, error := ShowNext(y, memory[i], ddRamAdd, error, both, text, i);
        if busy != OK { return ERROR, i + 1; }
        TextGoesOn(memory, text, i + 1);
        i := i + 1;
      }
      assert i == |text| && text[..i] == text;
      return error, i;
    }

    /** A text that starts on the display, in a build whose corrections follow the display. */
    ghost predicate OnDisplay(x: U8, y: U8)
      reads this
    {
      1 <= x <= MAX_LINE1 && y <= 2 && (readBack || acDirection)
    }

    /** Where the text starts: controller and shadow after the address command. */
    ghost function StartOf(x: U8, y: U8): (s: Shadowed)
      requires DDRamAddress(x, y).Some? && dev.WellFormed()
      reads this
      ensures s.dev.WellFormed()
    {
      AddressOfColumn(x, y);
      var a := DDRamAddress(x, y).value;
      Shadowed(dev.(pointer := Target(a)), if readBack then dataRamAddHold else ToI8(a))
    }

    /** A text that starts on the display starts as the empty text shown there. */
    lemma StartsOnDisplay(x: U8, y: U8)
      requires Ready() && Configured(dev) && OnDisplay(x, y)
      ensures StartOf(x, y).dev == Showing(dev, LaneOf(y), x - 1, [])
      ensures Follows(StartOf(x, y), readBack, y, x - 1, 0)
    {
      AddressOfColumn(x, y);
      TargetOfColumn(x, y);
      if y == 0 { ColumnOfFirst(x - 1, 80); }
    }

    /**
     Shows the text before the first NUL from column x of line y. For every
     argument, setting and build, without a time out controller and shadow are the
     start after one round for each character, and the status is that of the text.
     A time out leaves the rounds of a beginning of the text and one character more.
     */
    method StrShow(x: U8, y: U8, memory: seq<U8>) returns (code: Code, ghost shown: nat)
      requires Ready() && 0 in memory
      modifies this`dev, this`rs, this`rw, this`timeouts, this`polls, this`dataRamAddHold
      ensures Ready() && SameModes(old(dev), dev)
      ensures x > MAX_LINE1 || y > 2 ==> code == ERROR && unchanged(this)
      ensures TimeoutsSince(old(timeouts), old(Spare())) && (timeouts != old(timeouts) ==> code == ERROR)
      ensures shown <= |Text(memory)|
      ensures x <= MAX_LINE1 && y <= 2 && timeouts == old(timeouts) ==>
                && shown == |Text(memory)|
                && Both() == old(StartOf(x, y)).Rounds(readBack, acDirection, y, Text(memory))
                && code == old(StartOf(x, y)).Status(readBack, acDirection, y, displayPos, Text(memory))
      ensures x <= MAX_LINE1 && y <= 2 && timeouts != old(timeouts) ==>
                dev == if shown == 0 then old(StartOf(x, y)).dev
                       else old(StartOf(x, y)).Rounds(readBack, acDirection, y, Text(memory)[..shown - 1]).dev
                              .WriteData(Text(memory)[shown - 1]).(pointer := dev.pointer)
    {
      var address := DDRamAddress(x, y);
      if address.None? { return ERROR, 0; }
      AddressOfColumn(x, y);
      var busy, ddRamAdd := PointAt(address.value);
      assert Both() == old(StartOf(x, y));
      if busy != OK { return ERROR, 0; }
      TextIsText(memory);
      code, shown := ShowText(y, memory, ddRamAdd, Text(memory));
      RoundsKeepModes(old(StartOf(x, y)), readBack, acDirection, y, Text(memory));
      if 0 < shown { RoundsKeepModes(old(StartOf(x, y)), readBack, acDirection, y, Text(memory)[..shown - 1]); }
    }

    /** Writes rows until done or until the display fails to answer. */
    method WriteRows(data: seq<U8>, rows: nat) returns (complete: bool, ghost written: nat)
      requires Ready() && rows <= |data| && dev.pointer.Cgram?
      modifies this`dev, this`rs, this`rw, this`timeouts, this`polls
      ensures Ready() && written <= rows && dev == Written(old(dev), data[..written])
      ensures timeouts == old(timeouts) + (if complete then 0 else 1) && (!readBack ==> complete)
      ensures Spare() >= old(Spare())
      ensures complete ==> written == rows
    {
      var i := 0;
      assert data[..0] == [];
      while i < rows
        invariant i <= rows && Ready() && timeouts == old(timeouts) && Spare() >= old(Spare())
        invariant dev == Written(old(dev), data[..i])
      {
        assert data[..i] + [data[i]] == data[..i + 1];
        NextWritten(old(dev), data[..i], data[i]);
        WrData(data[i]);
        var busy, _ := BusyCheck(2);
        if busy != OK { return false, i + 1; }
        i := i + 1;
      }
      return true, rows;
    }

    /** The rows written from an address, and the command for the address reported before sent. */
    ghost function Restored(a: nat, rows: seq<U8>): Device
      requires dev.WellFormed() && a < 64
      reads this
    {
      Written(dev.(pointer := Cgram(a)), rows).Execute(Decode(ToU8(0x80 + ReportedAddress())))
    }

    /** An address below 0x80 is where the counter goes back to. */
    lemma RestoredToText(a: nat, rows: seq<U8>)
      requires Configured(dev) && a < 64 && ReportedAddress() < 0x80
      ensures Restored(a, rows) == WithPattern(dev, a, rows).(pointer := Ddram(ReportedAddress()))
    {
      AddressCommand(ReportedAddress());
      WrittenPattern(dev, a, rows);
    }

    /** A pattern with a place in the pattern memory, written from there; then the command for `back`. */
    method WritePattern(data: seq<U8>, a: U8, rows: nat, back: U8) returns (code: Code, ghost written: nat)
      requires Ready() && rows <= |data| && a < 0x40 && back == ReportedAddress()
      modifies this`dev, this`rs, this`rw, this`timeouts, this`polls
      ensures written <= rows && dev.WellFormed()
      ensures back < 0x80 ==> SameModes(old(dev), dev)
      ensures !(0xB0 <= back < 0xC0) ==> Ready()
      ensures back != 0x81 ==> dev.memory.ddram == old(dev).memory.ddram
      ensures TimeoutsSince(old(timeouts), old(Spare())) && (code == OK <==> timeouts == old(timeouts))
      ensures timeouts == old(timeouts) ==> written == rows && dev == old(Restored(a, data[..rows]))
      ensures timeouts != old(timeouts) ==>
                dev == Written(old(dev).(pointer := Cgram(a)), data[..written]).(pointer := dev.pointer)
    {
      SetCgramAddress(a);
      ghost var start := dev;
      var answer, _ := BusyCheck(2);
      assert data[..0] == [];
      if answer != OK { return ERROR, 0; }
      var complete;
      complete, written := WriteRows(data, rows);
      WrittenStaysInPatterns(start, data[..written]);
      GoTo(back);
      var last, _ := BusyCheck(2);
      code := if last != OK || !complete then BUSY_TIME_OUT else OK;
    }

    /**
     Writes the rows of a character pattern and goes back to where the text was.
     Whatever happens, only a beginning of the pattern (`written` rows) has been
     written. With a shadow that has gone negative the last command is whatever it
     has become: it clears the display from 0x81, and selects the 8-bit interface
     from 0xB0 to 0xBF.
     */
    method WrCGRAM(data: seq<U8>, slot: U8) returns (code: Code, ghost written: nat)
      requires Ready() && |data| >= if dotMode then 10 else 8
      modifies this`dev, this`rs, this`rw, this`timeouts, this`polls
      ensures written <= |data| && dev.WellFormed()
      ensures old(ReportedAddress()) < 0x80 ==> SameModes(old(dev), dev)
      ensures !(0xB0 <= old(ReportedAddress()) < 0xC0) ==> Ready()
      ensures old(ReportedAddress()) != 0x81 ==> dev.memory.ddram == old(dev).memory.ddram
      ensures TimeoutsSince(old(timeouts), old(Spare())) && (timeouts != old(timeouts) ==> code != OK)
      ensures Pattern(dotMode, slot).None? ==> code == ERROR && dev == old(dev) && written == 0 && Ready()
      ensures Pattern(dotMode, slot).Some? && timeouts == old(timeouts) ==>
                && code == OK && written == Pattern(dotMode, slot).value.0
                && dev == old(Restored(Pattern(dotMode, slot).value.1, data[..written]))
      ensures Pattern(dotMode, slot).Some? && timeouts != old(timeouts) ==>
                dev == Written(old(dev).(pointer := Cgram(Pattern(dotMode, slot).value.1)), data[..written])
                         .(pointer := dev.pointer)
    {
      var pattern := Pattern(dotMode, slot);
      var busy, back := BusyCheck(2);
      assert data[..0] == [];
      if busy != OK || pattern.None? { return ERROR, 0; }
      var (rows, a) := pattern.value;
      code, written := WritePattern(data, a, rows, back);
    }

    /** Reads rows until done or until the display fails to answer; the last one is stored even then. */
    method ReadRows(a: nat, rows: nat) returns (data: seq<U8>, complete: bool)
      requires Ready() && readBack && dev.pointer == Cgram(a) && a + rows < 64
      modifies this`dev, this`rs, this`rw, this`timeouts, this`polls
      ensures Ready() && |data| <= rows && (complete ==> |data| == rows)
      ensures dev == old(dev).(pointer := dev.pointer)
      ensures timeouts == old(timeouts) + (if complete then 0 else 1)
      ensures Spare() >= old(Spare())
      ensures old(dev).entry.increment ==> data == dev.memory.cgram[a..a + |data|]
    {
      data, complete := [], true;
      while |data| < rows
        invariant |data| <= rows && Ready() && timeouts == old(timeouts) && Spare() >= old(Spare()) && complete
        invariant dev.pointer.Cgram? && dev == old(dev).(pointer := dev.pointer)
        invariant old(dev).entry.increment ==>
                    data == old(dev).memory.cgram[a..a + |data|] && dev.pointer == Cgram(a + |data|)
      {
        ghost var n, cgram := |data|, dev.memory.cgram;
        assert dev.entry.increment ==> cgram[a..a + n] + [cgram[a + n]] == cgram[a..a + n + 1];
        var row := RdData();
        assert dev.entry.increment ==> row == cgram[a + n] && dev.pointer == Cgram(a + n + 1);
        var more, _ := BusyCheck(2);
        data := data + [row];
        if more != OK {
          complete := false;
          break;
        }
      }
    }

    /**
     Reads rows from the address the slot number itself is, not multiplied by the
     rows, and goes back. After a time out `data` is what was stored until then.
     */
    method RdCGRAM(slot: U8) returns (code: Code, data: seq<U8>)
      requires Ready() && readBack
      modifies this`dev, this`rs, this`rw, this`timeouts, this`polls
      ensures Ready() && dev == old(dev).(pointer := dev.pointer)
      ensures timeouts >= old(timeouts) && Spare() >= old(Spare())
      ensures slot > MAX_CGRAM ==> code == ERROR && dev == old(dev) && data == []
      ensures slot <= MAX_CGRAM ==> (code == OK <==> timeouts == old(timeouts))
      ensures
        var rows := if dotMode then 10 else 8;
        var a := if dotMode then slot % 16 else slot % 8;
        && |data| <= rows
        && (code == OK ==> |data| == rows && dev.pointer == Ddram(old(dev).pointer.ac))
        && (old(dev).entry.increment ==> data == dev.memory.cgram[a..a + |data|])
    {
      data := [];
      if slot > MAX_CGRAM { return ERROR, data; }
      var busy, back := BusyCheck(2);
      if busy != OK { return ERROR, data; }
      var rows, a: U8 := if dotMode then 10 else 8, if dotMode then slot % 16 else slot % 8;
      SetCgramAddress(a);
      var answer, _ := BusyCheck(2);
      if answer != OK { return ERROR, data; }
      var complete;
      data, complete := ReadRows(a, rows);
      GoTo(back);
      var last, _ := BusyCheck(2);
      code := if last != OK || !complete then BUSY_TIME_OUT else OK;
    }
  }
}
