/**
 Whole sequences of driver calls. `Apply` says what one call does to the display
 and the driver's settings without mentioning which build made it, so running
 the same calls through both builds leaves the same display. `Shadow` follows the
 shadow of the build that cannot read; only a pattern call looks at it.
 */
module LcdScripts {
  import opened Division
  import opened Machine
  import opened LcdController
  import opened LcdText
  import opened LcdDriver

  datatype Call =
    | PowerUp
    | Mode
    | Clear
    | Home
    | Shift(n: I8)
    | Cursor(on: U32, blinking: U32, x: U8, y: U8)
    | Show(x: U8, y: U8, memory: seq<U8>)
    | Glyph(rows: seq<U8>, slot: U8)
  {
    /** What the call reads is there: a string ends, and a pattern has the rows of its font. */
    predicate Given(tall: bool) {
      match this
      case Show(_, _, memory) => 0 in memory
      case Glyph(rows, _) => |rows| >= if tall then 10 else 8
      case _ => true
    }

    /** It names a column and, for a text, a line. The driver also accepts column 0 and line 0. */
    predicate Addressed() {
      match this
      case Cursor(_, _, x, _) => x != 0
      case Show(x, y, _) => x != 0 && y != 0
      case _ => true
    }
  }

  /** The display together with the settings that choose its modes, for two lines. */
  datatype Screen = Screen(dev: Device, displayOn: bool, cursorOn: bool, cursorBlink: bool, tall: bool)
  {
    function Control(): Control {
      LcdController.Control(displayOn, cursorOn, cursorBlink)
    }

    /** What a call can start from: power-up from any controller that does not shift on writes. */
    predicate Starts(call: Call) {
      Configured(dev) || (call.PowerUp? && dev.WellFormed() && !dev.entry.shiftOnWrite)
    }

    predicate StartsAll(script: seq<Call>) {
      Configured(dev) || (script != [] && Starts(script[0]))
    }
  }

  predicate AllGiven(script: seq<Call>, tall: bool) {
    forall call | call in script :: call.Given(tall)
  }

  function Apply(s: Screen, call: Call): (r: Screen)
    requires s.Starts(call) && call.Given(s.tall)
    ensures Configured(r.dev) && r.tall == s.tall
  {
    match call
    case PowerUp => s.(dev := PoweredUp(s.dev, true, s.tall, s.Control()))
    case Mode => s.(dev := s.dev.(control := s.Control()))
    case Clear =>
      s.(dev := s.dev.(memory := s.dev.memory.(ddram := seq(80, _ => 0x20)), pointer := Ddram(0), shift := 0))
    case Home => s.(dev := s.dev.(pointer := Ddram(0), shift := 0))
    case Shift(n) =>
      if -MAX_LINE2 <= n <= MAX_LINE1 then s.(dev := s.dev.(shift := (s.dev.shift - n) % 40)) else s
    case Cursor(on, blinking, x, y) =>
      if DDRamAddress(x, y).None? then s
      else
        var control := LcdController.Control(s.displayOn, on % 2 == 1, blinking % 2 == 1);
        AddressOfColumn(x, y);
        s.(dev := s.dev.(pointer := Target(DDRamAddress(x, y).value), control := control),
           cursorOn := control.cursorOn, cursorBlink := control.blink)
    case Show(x, y, memory) =>
      if DDRamAddress(x, y).None? then s
      else s.(dev := Shown(s.dev, x, y, Text(memory)))
    case Glyph(rows, slot) =>
      var pattern := Pattern(s.tall, slot);
      if pattern.None? then s
      else
        var back := s.dev.(pointer := Ddram(s.dev.pointer.ac));
        s.(dev := WithPattern(back, pattern.value.1, rows[..pattern.value.0]))
  }

  /** A power-up leaves nothing of the display but the patterns, and the modes the settings ask for. */
  lemma PowerUpForgets(s: Screen)
    requires s.dev.WellFormed() && !s.dev.entry.shiftOnWrite
    ensures
      var d := Apply(s, PowerUp).dev;
      && d.memory.ddram == seq(80, _ => 0x20) && d.memory.cgram == s.dev.memory.cgram
      && d.pointer == Ddram(0) && d.shift == 0 && d.entry == Entry(true, false)
      && d.control == LcdController.Control(s.displayOn, s.cursorOn, s.cursorBlink)
      && d.setup == Setup(false, true, s.tall) && d.phase == Boundary
    ensures Apply(Apply(s, PowerUp), PowerUp) == Apply(s, PowerUp)
  {
  }

  /** The shadow after a call. */
  function Shadow(s: Screen, hold: I8, call: Call): I8
    requires s.Starts(call) && call.Given(s.tall)
  {
    match call
    case PowerUp => 0
    case Clear => 0
    case Home => 0
    case Cursor(_, _, x, y) => if DDRamAddress(x, y).None? then hold else ToI8(DDRamAddress(x, y).value)
    case Show(x, y, memory) =>
      if DDRamAddress(x, y).None? then hold
      else BlindStart(s.dev, x, y).Rounds(false, true, y, Text(memory)).hold
    case _ => hold
  }

  function ApplyAll(s: Screen, script: seq<Call>): (r: Screen)
    requires s.StartsAll(script) && AllGiven(script, s.tall)
    ensures Configured(r.dev) && r.tall == s.tall
    decreases script
  {
    if script == [] then s else ApplyAll(Apply(s, script[0]), script[1..])
  }

  function ShadowAll(s: Screen, hold: I8, script: seq<Call>): I8
    requires s.StartsAll(script) && AllGiven(script, s.tall)
    decreases script
  {
    if script == [] then hold
    else ShadowAll(Apply(s, script[0]), Shadow(s, hold, script[0]), script[1..])
  }

  /** The shadow is the address that the other build reads back. */
  predicate Tells(s: Screen, hold: I8) {
    ToU8(hold) == s.dev.pointer.ac
  }

  /** It is so whenever the script calls for a pattern. */
  predicate Told(s: Screen, hold: I8, script: seq<Call>)
    requires s.StartsAll(script) && AllGiven(script, s.tall)
    decreases script
  {
    script == []
    || ((script[0].Glyph? ==> Tells(s, hold))
        && Told(Apply(s, script[0]), Shadow(s, hold, script[0]), script[1..]))
  }

  // ---- Sequences that name columns and lines ----

  /** The address counter rests on a cell of the display, and the shadow is the same. */
  predicate Settled(s: Screen, hold: I8) {
    s.dev.pointer.Ddram? && CellAt(true, s.dev.pointer.ac) >= 0 && hold == s.dev.pointer.ac
  }

  lemma SettledTells(s: Screen, hold: I8)
    requires Settled(s, hold) && s.dev.pointer.ac < 0x80
    ensures Tells(s, hold)
  {
    RemainderUnique(hold, 0x100, 0, hold);
  }

  lemma CallSettles(s: Screen, hold: I8, call: Call)
    requires s.Starts(call) && call.Given(s.tall) && call.Addressed()
    requires call.PowerUp? || Settled(s, hold)
    ensures Settled(Apply(s, call), Shadow(s, hold, call))
  {
    match call
    case Cursor(_, _, x, y) => if DDRamAddress(x, y).Some? { TargetOfColumn(x, y); }
    case Show(x, y, memory) =>
      if DDRamAddress(x, y).Some? {
        ShownIsShowing(s.dev, x, y, Text(memory));
        CellOfAddress(LaneOf(y).CellOf(x - 1, |Text(memory)|));
      }
    case _ =>
  }

  /**
   Over every sequence whose calls name a column and a line, from a settled state or
   from a power-up, the shadow equals the address counter after each call.
   */
  lemma {:induction false} AddressedIsTold(s: Screen, hold: I8, script: seq<Call>)
    requires s.StartsAll(script) && AllGiven(script, s.tall)
    requires forall call | call in script :: call.Addressed()
    requires Settled(s, hold) || BeginsWithPowerUp(script)
    ensures Told(s, hold, script)
    ensures Settled(ApplyAll(s, script), ShadowAll(s, hold, script))
    decreases script
  {
    if script != [] {
      if script[0].Glyph? { SettledTells(s, hold); }
      CallSettles(s, hold, script[0]);
      AddressedIsTold(Apply(s, script[0]), Shadow(s, hold, script[0]), script[1..]);
    }
  }

  predicate BeginsWithPowerUp(script: seq<Call>) {
    script != [] && script[0].PowerUp?
  }

  /** A script told as a whole is told in two parts. */
  lemma {:induction false} ToldInParts(s: Screen, hold: I8, first: seq<Call>, second: seq<Call>)
    requires Configured(s.dev) && AllGiven(first, s.tall) && AllGiven(second, s.tall)
    requires AllGiven(first + second, s.tall) && Told(s, hold, first + second)
    ensures Told(s, hold, first)
    ensures Told(ApplyAll(s, first), ShadowAll(s, hold, first), second)
    decreases first
  {
    if first == [] {
      assert first + second == second;
    } else {
      assert (first + second)[0] == first[0] && (first + second)[1..] == first[1..] + second;
      ToldInParts(Apply(s, first[0]), Shadow(s, hold, first[0]), first[1..], second);
    }
  }

  // ---- The driver ----

  ghost function ScreenOf(d: Driver): Screen
    reads d
  {
    Screen(d.dev, d.displayOn, d.cursorOn, d.cursorBlink, d.dotMode)
  }

  /** The settings are for two lines and, for the shadow, counting up; the controller does not shift on writes. */
  ghost predicate Startable(d: Driver)
    reads d
  {
    d.dev.WellFormed() && !d.dev.entry.shiftOnWrite && d.line && (d.readBack || d.acDirection)
  }

  /** Interface and configuration are in step, and the cached position is the display's. */
  ghost predicate Agreed(d: Driver)
    reads d
  {
    Startable(d) && d.Ready() && Configured(d.dev) && d.displayPos == d.dev.shift
  }

  /** After a time out, which only the reading build can have, the cached position may be wrong. */
  ghost predicate Usable(d: Driver)
    reads d
  {
    Startable(d) && d.Ready() && (d.readBack || Agreed(d))
  }

  /**
   What each call promises, in either build: from an agreed state, and a power-up
   from any state, unless a busy check times out, the display changes as Apply says
   and the shadow as Shadow says.
   */
  twostate predicate Performed(d: Driver, call: Call)
    requires call.Given(old(d.dotMode))
    reads d
  {
    && Usable(d) && d.dotMode == old(d.dotMode) && d.TimeoutsSince(old(d.timeouts), old(d.Spare()))
    && ((old(Agreed(d)) || (call.PowerUp? && old(Startable(d)))) && d.timeouts == old(d.timeouts) ==>
          && Agreed(d) && ScreenOf(d) == Apply(old(ScreenOf(d)), call)
          && (!d.readBack ==> d.dataRamAddHold == Shadow(old(ScreenOf(d)), old(d.dataRamAddHold), call)))
  }

  /** What StrShow will leave in an agreed state, for every column and line. */
  lemma ShowOutcome(d: Driver, x: U8, y: U8, text: seq<U8>)
    requires Agreed(d) && DDRamAddress(x, y).Some?
    ensures
      var after := d.StartOf(x, y).Rounds(d.readBack, d.acDirection, y, text);
      && after.dev == Shown(d.dev, x, y, text)
      && (!d.readBack ==> after.hold == BlindStart(d.dev, x, y).Rounds(false, true, y, text).hold)
    ensures Configured(Shown(d.dev, x, y, text)) && Shown(d.dev, x, y, text).shift == d.dev.shift
  {
    BothBuildsShow(d.dev, x, y, text);
    ShownKeepsShift(d.dev, x, y, text);
    if d.readBack {
      ReadingRounds(d.StartOf(x, y), BlindStart(d.dev, x, y).hold, d.acDirection, y, text);
    }
  }

  /** And what it will return, for a column and a line. */
  lemma StatusOutcome(d: Driver, x: U8, y: U8, text: seq<U8>)
    requires Agreed(d) && 1 <= x <= MAX_LINE1 && 1 <= y <= 2
    ensures d.StartOf(x, y).Status(d.readBack, d.acDirection, y, d.displayPos, text) ==
              if SeenWhole(d.displayPos, x - 1, |text|) then OK else OUT_OF_VISUAL
  {
    d.StartsOnDisplay(x, y);
    StatusClosed(d.StartOf(x, y), d.readBack, d.acDirection, y, d.displayPos, d.dev, x - 1, text);
  }

  /** StrShow in an agreed state, or in the reading build in any usable one. */
  method ShowOnScreen(d: Driver, x: U8, y: U8, memory: seq<U8>) returns (code: Code)
    requires Usable(d) && 0 in memory
    modifies d`dev, d`rs, d`rw, d`timeouts, d`polls, d`dataRamAddHold
    ensures Usable(d) && d.TimeoutsSince(old(d.timeouts), old(d.Spare()))
    ensures DDRamAddress(x, y).None? ==> unchanged(d)
    ensures old(Agreed(d)) && d.timeouts == old(d.timeouts) && DDRamAddress(x, y).Some? ==>
              && Agreed(d) && d.dev == Shown(old(d.dev), x, y, Text(memory))
              && (!d.readBack ==>
                    d.dataRamAddHold == BlindStart(old(d.dev), x, y).Rounds(false, true, y, Text(memory)).hold)
              && (1 <= x && 1 <= y ==>
                    code == if SeenWhole(old(d.dev.shift), x - 1, |Text(memory)|) then OK else OUT_OF_VISUAL)
  {
    if Agreed(d) && DDRamAddress(x, y).Some? {
      ShowOutcome(d, x, y, Text(memory));
      if 1 <= x && 1 <= y { StatusOutcome(d, x, y, Text(memory)); }
    }
    var c, _ := d.StrShow(x, y, memory);
    code := c;
  }

  /**
   A text from any column of any line. On lines 1 and 2 from column 1 on its status
   is OK if it is seen whole, as far as CheckVisual can tell, and otherwise OUT_OF_VISUAL.
   */
  method PerformShow(d: Driver, x: U8, y: U8, memory: seq<U8>) returns (code: Code)
    requires Usable(d) && Show(x, y, memory).Given(d.dotMode)
    modifies d
    ensures Performed(d, Show(x, y, memory))
    ensures old(Agreed(d)) && d.timeouts == old(d.timeouts) && 1 <= x <= MAX_LINE1 && 1 <= y <= 2 ==>
              code == if SeenWhole(old(d.dev.shift), x - 1, |Text(memory)|) then OK else OUT_OF_VISUAL
  {
    code := ShowOnScreen(d, x, y, memory);
  }

  lemma GlyphOutcome(d: Driver, rows: seq<U8>, slot: U8)
    requires Agreed(d) && Pattern(d.dotMode, slot).Some? && Glyph(rows, slot).Given(d.dotMode)
    requires d.readBack || Tells(ScreenOf(d), d.dataRamAddHold)
    ensures
      var (n, a) := Pattern(d.dotMode, slot).value;
      d.Restored(a, rows[..n]) == Apply(ScreenOf(d), Glyph(rows, slot)).dev
  {
    var (n, a) := Pattern(d.dotMode, slot).value;
    assert d.ReportedAddress() == d.dev.pointer.ac;
    d.RestoredToText(a, rows[..n]);
  }

  /** A pattern; the shadow has to tell the address counter, for the way back. */
  method PerformGlyph(d: Driver, rows: seq<U8>, slot: U8)
    requires Usable(d) && Glyph(rows, slot).Given(d.dotMode)
    requires d.readBack || Tells(ScreenOf(d), d.dataRamAddHold)
    modifies d
    ensures Performed(d, Glyph(rows, slot))
  {
    if Agreed(d) && Pattern(d.dotMode, slot).Some? { GlyphOutcome(d, rows, slot); }
    var _, _ := d.WrCGRAM(rows, slot);
  }

  method PerformCursor(d: Driver, on: U32, blinking: U32, x: U8, y: U8)
    requires Usable(d)
    modifies d
    ensures Performed(d, Cursor(on, blinking, x, y))
  {
    var _ := d.CursorPosSet(on, blinking, x, y);
  }

  method PerformShift(d: Driver, n: I8)
    requires Usable(d)
    modifies d
    ensures Performed(d, Shift(n))
  {
    var _ := d.DisplayShift(n);
  }

  method PerformPowerUp(d: Driver)
    requires Startable(d)
    modifies d
    ensures Performed(d, PowerUp)
  {
    var _ := d.PowerUpInit();
  }

  method Perform(d: Driver, call: Call)
    requires (Usable(d) || (call.PowerUp? && Startable(d))) && call.Given(d.dotMode)
    requires call.Glyph? ==> d.readBack || Tells(ScreenOf(d), d.dataRamAddHold)
    modifies d
    ensures Performed(d, call)
  {
    match call
    case PowerUp => PerformPowerUp(d);
    case Mode => var _ := d.SetMode();
    case Clear => var _ := d.ClearDisplay();
    case Home => var _ := d.ReturnToHome();
    case Shift(n) => PerformShift(d, n);
    case Cursor(on, blinking, x, y) => PerformCursor(d, on, blinking, x, y);
    case Show(x, y, memory) => var _ := PerformShow(d, x, y, memory);
    case Glyph(rows, slot) => PerformGlyph(d, rows, slot);
  }

  /**
   Any sequence of calls. One that begins with a power-up can begin in any state of
   the controller, and in any state of the driver that time outs can leave. If no poll
   finds the display busy, nothing times out.
   */
  method PerformAll(d: Driver, script: seq<Call>)
    requires Usable(d) || (BeginsWithPowerUp(script) && Startable(d))
    requires AllGiven(script, d.dotMode)
    requires d.readBack || Told(ScreenOf(d), d.dataRamAddHold, script)
    modifies d
    ensures Usable(d) && d.dotMode == old(d.dotMode) && d.TimeoutsSince(old(d.timeouts), old(d.Spare()))
    ensures d.polls.busy == old(d.polls.busy) ==> d.timeouts == old(d.timeouts)
    ensures (old(Agreed(d)) || BeginsWithPowerUp(script)) && d.timeouts == old(d.timeouts) ==>
              && Agreed(d) && ScreenOf(d) == ApplyAll(old(ScreenOf(d)), script)
              && (!d.readBack ==> d.dataRamAddHold == ShadowAll(old(ScreenOf(d)), old(d.dataRamAddHold), script))
    decreases script
  {
    if script != [] {
      Perform(d, script[0]);
      PerformAll(d, script[1..]);
    }
  }

  /**
   Whatever timed out before a power-up, if nothing does from there on, display and
   driver agree again. `screen` is the display at the power-up, `timeouts` the time outs before it.
   */
  method Recover(d: Driver, before: seq<Call>, after: seq<Call>) returns (ghost screen: Screen, ghost timeouts: nat)
    requires Usable(d) && AllGiven(before, d.dotMode) && AllGiven(after, d.dotMode)
    requires AllGiven(before + ([PowerUp] + after), d.dotMode)
    requires d.readBack || Told(ScreenOf(d), d.dataRamAddHold, before + ([PowerUp] + after))
    modifies d
    ensures Usable(d) && old(d.timeouts) <= timeouts <= d.timeouts
    ensures screen.Starts(PowerUp) && screen.tall == old(d.dotMode) && AllGiven([PowerUp] + after, screen.tall)
    ensures d.timeouts == timeouts ==> Agreed(d) && ScreenOf(d) == ApplyAll(screen, [PowerUp] + after)
  {
    if !d.readBack {
      ToldInParts(ScreenOf(d), d.dataRamAddHold, before, [PowerUp] + after);
    }
    PerformAll(d, before);
    screen, timeouts := ScreenOf(d), d.timeouts;
    PerformAll(d, [PowerUp] + after);
  }

  /** The build that cannot read the display and the build that can leave it the same. */
  method BuildsAgree(reading: Driver, blind: Driver, script: seq<Call>)
    requires reading != blind && reading.readBack && !blind.readBack
    requires (Agreed(reading) && Agreed(blind))
             || (BeginsWithPowerUp(script) && Startable(reading) && Startable(blind))
    requires ScreenOf(reading) == ScreenOf(blind) && AllGiven(script, blind.dotMode)
    requires Told(ScreenOf(blind), blind.dataRamAddHold, script)
    modifies reading, blind
    ensures reading.polls.busy == old(reading.polls.busy) ==> reading.timeouts == old(reading.timeouts)
    ensures reading.timeouts == old(reading.timeouts) ==>
              && ScreenOf(reading) == ScreenOf(blind) == ApplyAll(old(ScreenOf(blind)), script)
              && blind.dataRamAddHold == ShadowAll(old(ScreenOf(blind)), old(blind.dataRamAddHold), script)
  {
    PerformAll(reading, script);
    PerformAll(blind, script);
  }

  /** When the calls name columns and lines nothing more is asked, and the shadow ends as the address read back. */
  method BuildsAgreeOnLines(reading: Driver, blind: Driver, script: seq<Call>)
    requires reading != blind && reading.readBack && !blind.readBack
    requires (Agreed(reading) && Agreed(blind) && Settled(ScreenOf(blind), blind.dataRamAddHold))
             || (BeginsWithPowerUp(script) && Startable(reading) && Startable(blind))
    requires ScreenOf(reading) == ScreenOf(blind) && AllGiven(script, blind.dotMode)
    requires forall call | call in script :: call.Addressed()
    modifies reading, blind
    ensures reading.polls.busy == old(reading.polls.busy) ==> reading.timeouts == old(reading.timeouts)
    ensures reading.timeouts == old(reading.timeouts) ==>
              ScreenOf(reading) == ScreenOf(blind) && blind.dataRamAddHold == reading.dev.pointer.ac
  {
    AddressedIsTold(ScreenOf(blind), blind.dataRamAddHold, script);
    BuildsAgree(reading, blind, script);
  }

  /** A pattern written and read back under the same number, through the driver, in either font. */
  method GlyphAndBack(d: Driver, rows: seq<U8>, slot: U8) returns (data: seq<U8>)
    requires Agreed(d) && d.readBack && Glyph(rows, slot).Given(d.dotMode)
    requires slot <= MAX_CGRAM && Pattern(d.dotMode, slot).Some?
    modifies d
    ensures Usable(d)
    ensures
      var (n, a) := Pattern(old(d.dotMode), slot).value;
      var k := if old(d.dotMode) then slot % 16 else slot % 8;
      d.timeouts == old(d.timeouts) ==>
        && Agreed(d) && ScreenOf(d) == Apply(old(ScreenOf(d)), Glyph(rows, slot))
        && data == ReadSlot(Put(old(d.dev).memory.cgram, 0, 64, a, rows[..n]), k, n)
        && (k == 0 ==> data == rows[..n])
  {
    ghost var cgram := d.dev.memory.cgram;
    var pattern := Pattern(d.dotMode, slot);
    PerformGlyph(d, rows, slot);
    var _, read := d.RdCGRAM(slot);
    data := read;
    PutPatternAtZero(cgram, rows[..pattern.value.0]);
  }

  lemma PutPatternAtZero(cgram: seq<U8>, rows: seq<U8>)
    requires |cgram| == 64 && |rows| <= 10
    ensures ReadSlot(Put(cgram, 0, 64, 0, rows), 0, |rows|) == rows
  {
    PutPattern(cgram, 0, rows);
  }

  lemma ThereAndBack(column: nat, n: int)
    requires column < 40
    ensures ((column - n) % 40 + n) % 40 == column
  {
    RemainderOfSum(column - n, n, 40);
  }

  lemma ApplyTwo(s: Screen, a: Call, b: Call)
    requires Configured(s.dev) && a.Given(s.tall) && b.Given(s.tall)
    ensures AllGiven([a, b], s.tall) && ApplyAll(s, [a, b]) == Apply(Apply(s, a), b)
  {
    assert [a, b][1..] == [b] && [b][1..] == [];
    assert ApplyAll(Apply(s, a), [b]) == ApplyAll(Apply(Apply(s, a), b), []);
  }

  /** A shift and the opposite shift cancel. */
  lemma ShiftAndBack(s: Screen, n: I8)
    requires Configured(s.dev) && -MAX_LINE1 <= n <= MAX_LINE1
    ensures ApplyAll(s, [Shift(n), Shift(-n)]) == s
  {
    ApplyTwo(s, Shift(n), Shift(-n));
    ThereAndBack(s.dev.shift, n);
  }
}
