# A bicycle computer on FreeRTOS: models and proofs

The repository is the firmware of a bicycle computer for an LPC2138: a timer
interrupt stamps the rotations of a wheel, a task works out the speed from the
last stamps, a display driver shows it and a serial driver logs it. It carries
the FreeRTOS distribution and its demonstration programs. This project models
the parts of it that keep state, in Dafny, and proves what they are for.

`dafny verify dfyconfig.toml` checks everything.

## The display (`LcdController`, `LcdBus`, `LcdText`, `LcdDriver`, `LcdScripts`)

`LcdController` is the Hitachi HD44780U as its data sheet describes it: the
instruction table, two lines of 40 cells at 0x00 and 0x40, the pattern memory,
the address counter with its wraps, the display shift, and the 4-bit interface
with its two transfers to a byte. `LcdBus` follows nibbles into it, among them
the procedure "Initializing by Instruction" (Figure 24 of the data sheet).
`LcdDriver.Driver` is the driver, a class with the fields of the settings
structure, that owns one controller. Both builds are modelled: the one that
reads the busy flag and the address counter back, and the one that cannot read
and keeps the shadow `DataRamAddHold`. A busy check times out when all its polls
find the display busy, which can be at any point; `timeouts` counts those.
`LcdText` gives the closed form of a text laid around a line, and `LcdScripts`
runs any sequence of calls, power-up among them: without time outs the shadow always equals the address counter, the cached
position always equals the shift, and the two builds leave the same display; a
power-up brings agreement back whatever timed out before it. Texts from column 0
and on line 0 are included: there the shadow may go its own way, and the builds
still agree until a pattern is written with it.

What the proofs found in the code:

- The entry mode is computed and never sent (`Speed/boe/drv_hd44780.c:373-383`).
  Counting up comes from the clear command; whether the display shifts on writes
  stays as it was (`PowerUpInit`), and the scripts ask that it does not.
- Column 0 and line 0 are accepted (`Speed/boe/drv_hd44780.c:205-222`). From
  column 0 the first character goes to the pattern memory or nowhere
  (`ColumnZeroMisses`), and through line 0 the shadow, an int8_t, equals the
  address counter exactly at the first 40 of every 1280 places (`LineZeroDrifts`).
- Because the controller always counts up, the setting to count down only turns the
  shadow of the build that cannot read. A text then runs to the right until the
  shadow has reached the left end of its line, onto the other line if need be, and
  all the rest of it goes to the first cell of its line (`DownRunsOn`, `DownPilesUp`).
- `HD44780_CheckVisual` is not the window: it takes a 17th column and misses the
  part that wraps past column 39 (`CheckVisualAgainstWindow`).
- `HD44780_RdCGRAM` does not multiply the slot by its rows, unlike
  `HD44780_WrCGRAM`, so only slot 0 can be read back (`ReadBackOnlySlotZero`,
  `TallReadBackOnlySlotZero`).
- `HD44780_WrCGRAM` goes back to the reported address. A shadow that a text on
  line 0 made negative turns that command into another: it clears the display
  exactly from 0x81 and selects the 8-bit interface exactly from 0xB0 to 0xBF
  (`MemoryKeptExactly`, `StepKeptExactly`, `LineZeroThenPatternClears`).
- After a time out `HD44780_DisplayShift` leaves the display one step ahead of
  the cached position.

## The serial port (`Serial`, `SerialPort`)

The transmit side as a protocol of steps: a put up to its return or to where it
blocks on the full queue and gives up its critical section, its continuation,
the THRE interrupt, the receive interrupts. Any number of tasks may be blocked.
The invariant and the conservation law hold over every interleaving, and the
class performs exactly those steps. The comment at `Speed/serial/serial.c:171`
says that a full queue is not handled; the code passes `portMAX_DELAY`, and
`PutString` proves that the whole string gets through. With several tasks
printing, each one's characters keep their order (`EveryTaskInOrder`). What is
received is what arrived while there was room, in order (`EveryRunReceives`).

## Time stamps and speed (`Timer`, `SpeedMath`, `Speed`, `SpeedSystem`, `Division`)

`Timer` is the interrupt routine with its minute count, glitch filter and queue
that drops when full, run against real time: the stamps queued are those of exactly
the rotations that passed the filter while there was room (`EveryRunStamps`).
`Speed.Meter` is the ring buffer and the calculation, for every power-of-two size
(4 in the code), with the index masked bit by bit and wrapping as a uint32_t.
`SpeedSystem` puts the two together.

- The captures are subtracted in uint32_t before they are added to the uint64_t
  sum (`Speed/boe/speed.c:174`). The sum is therefore 2^32 too large for every
  pair whose capture count went down across a reset, and right if and only if
  there is none (`SumOfRealStamps`, `SumIsRealExactly`); a steady 60 rpm is then
  shown as 1 rpm (`ResetShowsAWrongRate`).
- What is shown for a full window is determined by the real rotations: the minutes
  of the first pair more than two minutes apart, or else the rates
  (`ResultOfWindow`, `SpeedUpdate`).
- The glitch filter compares in uint32_t across the reset too: it lets glitches
  through there and can drop a rotation (`FilterDecidesAsMeant`).
- All the same, nothing is ever divided by 0 and no rate truncates
  (`EveryRunGivesRatesInRange`), in windows that span fewer than 2^32 minutes,
  which is exactly the bound (`SpanBoundIsExact`), and of up to 2 * 59999 stamps;
  beyond, half a window no longer fits into a minute at the filter's distance.

## Two demonstrations (`QueueSet`, `QueueSetOrder`, `QueueSetRuns`, `QueueSetBound`, `Stream`)

The kernel is taken by its contract: bounded first-in-first-out queues, a set
that gets a member's handle in the same step as the member gets its item, and a
stream buffer that moves any number of bytes up to what fits or is there.

`QueueSet` is the queue set test, with a task and an interrupt sending and a
task and the same interrupt receiving, in single steps; `QueueSetOrder` follows
a run with the history of messages; `QueueSetRuns` has the theorems. No error is
flagged in a run exactly when every value checked is near enough to its counter
(`RunPassesExactly`). The deviation of 3 that the check allows
(`queuesetALLOWABLE_RX_DEVIATION`) is enough for three receives of the interrupt
between the task's select and its check, and for no more (`QueueSetBound`). The
interrupt's messages go to the queues in turn (`EveryRunTakesTurns`).

`Stream` is the non-blocking sender and receiver, for every string and every
size of the two buffers. The receiver compares in two parts, so a receive that
reaches into the string's third copy is taken for an error although its bytes
are right. That can happen exactly if both buffers are at least two bytes longer
than the string (`BufferBoundIsExact`); with 54 characters and buffers of 30 and
12 bytes it cannot. The counter that the check of the demonstration watches is the
number of receives that brought something (`CounterCountsArrivals`).

## Model

| member | source | states |
|---|---|---|
| `LcdBus.PowerUpResynchronises` | Speed/boe/drv_hd44780.c:329-344 | From any state of the controller (8-bit interface, or 4-bit at either nibble of a write or a read) and whatever the unconnected data lines read, the four strobes leave it on the 4-bit interface between bytes, with both memories, the entry mode and the display control untouched |
| `LcdBus.PendingCommandIsHarmless` | Speed/boe/drv_hd44780.c:330-332 | The command that the first strobe may complete out of a half byte left from before is never a clear, an entry mode or a display control, so it cannot reach either memory |
| `LcdBus.FirstStrobe` | Speed/boe/drv_hd44780.c:331 | After the first strobe the controller is on the 8-bit interface, between bytes, or waiting for the rest of a 0x3, from any state |
| `LcdBus.SettlingStrobe` | Speed/boe/drv_hd44780.c:333-335 | A further strobe of 0x3 completes the change to the 8-bit interface, or is half of it |
| `LcdBus.LastStrobe` | Speed/boe/drv_hd44780.c:341 | From the 8-bit interface the strobe of 0x2 selects the 4-bit one and leaves it between bytes |
| `LcdBus.StreamDecoded` | Speed/boe/drv_hd44780.c:121-170 | Once in step, any sequence of commands and data sent as nibbles is executed as exactly those bytes with those RS levels, in order |
| `LcdBus.ByteDelivered` | Speed/boe/drv_hd44780.c:121-170 | The two strobes of a write amount to one whole byte received and keep the interface in step unless the byte selects the 8-bit interface |
| `LcdBus.ByteRead` | Speed/boe/drv_hd44780.c:140-191 | The two strobes of a read put together the byte the controller offered at the first of them; only a data read moves the address counter |
| `LcdText.PutLine` | Speed/boe/drv_hd44780.c:712-767 | Closed form of a text of any length on a 40-column line: the last 40 characters are seen at their columns modulo 40, the columns not reached and everything off the line keep their contents |
| `LcdText.PutLastWriteWins` | Speed/boe/drv_hd44780.c:712-767 | A character stays on its column unless a later one comes round to it |
| `LcdText.PutJoined` | Speed/boe/drv_hd44780.c:712-767 | Laying a text in two pieces, the second from the column where the first ended, is laying it at once |
| `LcdText.PutSlot` | Speed/boe/drv_hd44780.c:653-680 | Writing a pattern to slot k is an update at k of the map from slots to patterns: slot k becomes the pattern, every other slot is as before |
| `LcdText.PutPattern` | Speed/boe/drv_hd44780.c:667-680 | A pattern laid from an address replaces those bytes and no others |
| `LcdText.ReadBackOnlySlotZero` | Speed/boe/drv_hd44780.c:598-624 | Because RdCGRAM does not multiply the slot by the rows, reading slot k of the 5x8 font back returns what WrCGRAM wrote there, for every pattern and every earlier contents, if and only if k is 0 |
| `LcdText.TallReadBackOnlySlotZero` | Speed/boe/drv_hd44780.c:598-624 | The same for the ten rows of the 5x10 font and the slots 0 to 6 that begin within the memory |
| `LcdDriver.AddressOfColumn` | Speed/boe/drv_hd44780.c:205-222 | An accepted X from 1 up addresses its column of the line; X of 0 is accepted too and gives an address that is off the display |
| `LcdDriver.CheckVisualExactly` | Speed/boe/drv_hd44780.c:235-265 | Which of the three answers CheckVisual gives, for every address: ERROR exactly for an address of no cell, OK exactly for a cell whose column is between the display position and 16 columns further, OUT_OF_VISUAL for every other cell |
| `LcdDriver.CheckVisualClosed` | Speed/boe/drv_hd44780.c:235-265 | The same for the address of any cell |
| `LcdDriver.CheckVisualAgainstWindow` | Speed/boe/drv_hd44780.c:235-265 | CheckVisual agrees with the 16 columns shown exactly when the column is not the 17th from the left edge and is not in the part of the window that wraps past column 39 |
| `LcdDriver.CharacterWritten` | Speed/boe/drv_hd44780.c:715 | The write of one character to a device that shows a text gives the device that shows one character more, apart from the address counter |
| `LcdDriver.NextCell` | Speed/boe/drv_hd44780.c:745-766 | Going back to the start of the line exactly when the counter has left it puts the next character at the next column of the line |
| `LcdDriver.HoldFollows` | Speed/boe/drv_hd44780.c:716-739 | On lines 1 and 2 the shadow of the write-only build moves past a character exactly as the address counter of the controller does |
| `LcdDriver.HoldFollowsDown` | Speed/boe/drv_hd44780.c:739-749 | Counting down, on lines 1 and 2 the shadow goes around the cells of the display the other way |
| `LcdDriver.CharacterShown` | Speed/boe/drv_hd44780.c:714-766 | One round of the StrShow loop as a whole: character, shadow and line correction together take the display of a text to the display of the text with one character more |
| `LcdDriver.RoundShows` | Speed/boe/drv_hd44780.c:712-766 | One round from a device that shows a text, with the shadow following it, gives the text with one character more and a shadow that still follows, in both builds |
| `LcdDriver.RoundsShow` | Speed/boe/drv_hd44780.c:711-767 | So the rounds of a text that starts on the display, of any length, show that text, and on lines 1 and 2 the shadow is the address counter |
| `LcdDriver.StatusClosed` | Speed/boe/drv_hd44780.c:697-768 | The status that StrShow accumulates on line 1 or 2: OK if the text is empty, or starts at or after the display position and ends within 16 columns of it and before the end of the line, and OUT_OF_VISUAL otherwise |
| `LcdDriver.StatusCollects` | Speed/boe/drv_hd44780.c:712-716 | On every line and in either direction it is the worst of the codes of the addresses reported before each character, in the order OK, ERROR, OUT_OF_VISUAL |
| `LcdDriver.CodesAt` | Speed/boe/drv_hd44780.c:714 | Each of those codes is what CheckVisual says of the address reported after the characters before it |
| `LcdDriver.OrIsBitwise` | Speed/boe/drv_hd44780.c:714 | The codes are combined bit by bit, so that OUT_OF_VISUAL absorbs the others and OK nothing |
| `LcdDriver.ColumnZeroMisses` | Speed/boe/drv_hd44780.c:694-715 | From column 0 the first character never reaches the display: it overwrites the last byte of the pattern memory, and on line 2 it is lost |
| `LcdDriver.DownRunsOn` | Speed/boe/drv_hd44780.c:694-769 | In the build that cannot read, with the direction set to count down, a text of fewer characters than its column on line 1 or 2, or of any length on line 0, is laid rightwards over both lines all the same, because the entry mode is never sent, while the shadow goes left |
| `LcdDriver.DownPilesUp` | Speed/boe/drv_hd44780.c:694-769 | A longer one fills as many cells as its column number, over the end of its line if need be, and from then on every character is written to the first cell of the line, over the one before; the shadow rests there |
| `LcdDriver.DownStarts` | Speed/boe/drv_hd44780.c:694-712 | Every StrShow in that build from column 1 on starts as those two ask |
| `LcdDriver.RoundTracks` | Speed/boe/drv_hd44780.c:712-766 | During a text on line 1 or 2 from any column, through the pattern memory too, one round leaves the same controller in both builds and the shadow where the address counter is |
| `LcdDriver.BothBuildsShow` | Speed/boe/drv_hd44780.c:694-769 | For every accepted X and Y, 0 included, and every text, both builds leave the same controller |
| `LcdDriver.ShownIsShowing` | Speed/boe/drv_hd44780.c:694-769 | From column 1 on that is the text laid on its line, and on lines 1 and 2 the shadow is then the address counter |
| `LcdDriver.RoundsKeepModes` | Speed/boe/drv_hd44780.c:711-767 | No text changes the entry mode or the function bits |
| `LcdDriver.TextOnLine` | Speed/boe/drv_hd44780.c:694-769 | What StrShow leaves on line 1 or 2, cell by cell: line, other line, pattern memory and address counter at (X-1+length) mod 40 |
| `LcdDriver.TextJoined` | Speed/boe/drv_hd44780.c:694-769 | Two calls, the second at the column after the first text, leave the display that one call with the whole text leaves |
| `LcdDriver.LineZeroDrifts` | Speed/boe/drv_hd44780.c:716-739 | On the unnamed line 0, which is accepted, the int8_t shadow and the address counter agree exactly when the place reached is among the first 40 of every 1280, for every column and every length of text |
| `LcdDriver.ShiftClosed` | Speed/boe/drv_hd44780.c:510-531 | The repeated one-column moves with their wraps amount to subtracting the shift modulo 40, in both directions |
| `LcdDriver.RowWritten` | Speed/boe/drv_hd44780.c:674 | One row of a pattern more, with the address counter one further around the pattern memory |
| `LcdDriver.WrittenPattern` | Speed/boe/drv_hd44780.c:672-680 | Counting up, the rows written from an address lie around the pattern memory from it |
| `LcdDriver.WrittenStaysInPatterns` | Speed/boe/drv_hd44780.c:672-680 | Whichever way the controller counts, they change nothing but the pattern memory and the address counter |
| `LcdDriver.AddressCommandExactly` | Speed/boe/drv_hd44780.c:681 | The command made of a reported address is Clear exactly for 0x81, and selects the 8-bit interface exactly for 0xB0 to 0xBF |
| `LcdDriver.MemoryKeptExactly` | Speed/boe/drv_hd44780.c:681 | So going back keeps the display memory, whatever it holds, if and only if the reported address is not 0x81 |
| `LcdDriver.StepKeptExactly` | Speed/boe/drv_hd44780.c:681 | And the bus stays in step if and only if it is not from 0xB0 to 0xBF |
| `LcdDriver.LineZeroThenPatternClears` | Speed/boe/drv_hd44780.c:640-683 | After a text on line 0 that reaches place 129, or any multiple of 256 further, WrCGRAM in the write-only build clears the display |
| `LcdDriver.Driver.constructor` | Speed/boe/drv_hd44780.c:84-98 | The settings structure and the shadow start with their compile-time values |
| `LcdDriver.Driver.WrIO` | Speed/boe/drv_hd44780_l.c:95-111 | R/W goes low and the controller takes one nibble; its low data lines may read anything |
| `LcdDriver.Driver.RdIO` | Speed/boe/drv_hd44780_l.c:140-153 | R/W goes high and the nibble that the controller drives is returned |
| `LcdDriver.Driver.WrData` | Speed/boe/drv_hd44780.c:121-130 | One byte of data reaches the controller whole and the interface stays in step |
| `LcdDriver.Driver.WrComm` | Speed/boe/drv_hd44780.c:161-170 | One command is executed whole; the interface stays in step unless it selects the 8-bit one |
| `LcdDriver.Driver.RdByte` | Speed/boe/drv_hd44780.c:144-150 | The high nibble first, then the low one, make the byte offered |
| `LcdDriver.Driver.RdData` | Speed/boe/drv_hd44780.c:140-151 | Returns the byte under the address counter and moves the counter |
| `LcdDriver.Driver.RdStatus` | Speed/boe/drv_hd44780.c:180-191 | Returns the address counter with or without the busy flag, which is counted as a poll that found the display busy or idle, and changes nothing in the controller |
| `LcdDriver.Driver.BusyCheck` | Speed/boe/drv_hd44780.c:276-311 | Leaves the controller as it was; a time out is exactly MaxDly polls that all found the display busy, in the build that reads alone, and success there takes a poll that found it idle; on success reports the address counter, or the shadow in the other build, which touches nothing at all |
| `LcdDriver.Driver.SetMode` | Speed/boe/drv_hd44780.c:411-428 | Sets display, cursor and blink as the settings say and changes nothing else |
| `LcdDriver.Driver.ClearDisplay` | Speed/boe/drv_hd44780.c:439-447 | 80 spaces, address counter, shift, cached position and shadow 0, and entry mode increment, from any state in step; the caches agree with the display again |
| `LcdDriver.Driver.ReturnToHome` | Speed/boe/drv_hd44780.c:458-466 | Address counter, shift, cached position and shadow 0, both memories untouched |
| `LcdDriver.Driver.PowerUpStrobes` | Speed/boe/drv_hd44780.c:330-344 | From any interface state driver and controller are in step, with the memories untouched |
| `LcdDriver.Driver.FunctionSetAndOff` | Speed/boe/drv_hd44780.c:343-363 | Lines and font as configured even after a time out; display off, or an error exactly when a busy check timed out |
| `LcdDriver.Driver.StartInterface` | Speed/boe/drv_hd44780.c:325-363 | From any state of the controller: in step, with lines and font as configured, and only address counter, shift and control bits otherwise touched |
| `LcdDriver.Driver.PowerUpInit` | Speed/boe/drv_hd44780.c:322-388 | For every controller and every setting: success exactly without a time out, and then the display and cursor modes are those of the settings, the 80 cells are blank, address counter, shift, cached position and shadow are 0, and the counter counts up by virtue of the clear (the computed entry mode at 373-381 is never sent, so whether the display shifts on writes stays). After a time out the interface is in step all the same and the pattern memory untouched |
| `LcdDriver.Driver.ShiftOnce` | Speed/boe/drv_hd44780.c:512-530 | One move of the window; the cached position follows only if the controller answers |
| `LcdDriver.Driver.ShiftSteps` | Speed/boe/drv_hd44780.c:510-531 | The loop: all moves, or a stop with the display one move ahead of the cache |
| `LcdDriver.Driver.DisplayShift` | Speed/boe/drv_hd44780.c:490-533 | For -103..39 display and cached position both move to (old - n) mod 40; other n are refused with no effect; a time out leaves the display exactly one step ahead of the cached position |
| `LcdDriver.Driver.PointAt` | Speed/boe/drv_hd44780.c:703-710 | Sets address counter and shadow together; an address at or above 0xC0, from X of 0, overflows the command and lands in the pattern memory |
| `LcdDriver.Driver.CursorPosSet` | Speed/boe/drv_hd44780.c:545-572 | Error exactly on bad coordinates (nothing changed) or a time out; on success, for column 0 too, address counter, control bits and shadow are determined; for columns from 1 up agreement of caches and display is kept; only address counter and control bits ever change |
| `LcdDriver.Driver.WriteCharacter` | Speed/boe/drv_hd44780.c:715-743 | Character, shadow move and busy check |
| `LcdDriver.Driver.KeepOnLine` | Speed/boe/drv_hd44780.c:745-766 | Back to the start of the line exactly when the reported address is off it |
| `LcdDriver.Driver.ShowCharacter` | Speed/boe/drv_hd44780.c:712-767 | One round of the loop in either build and either direction; a time out leaves the character written |
| `LcdDriver.Driver.ShowNext` | Speed/boe/drv_hd44780.c:714-743 | The round of the next character after the rounds of those before it, with the status so far |
| `LcdDriver.Driver.ShowText` | Speed/boe/drv_hd44780.c:711-768 | The loop over a string of any length: one round for each character up to the NUL, and the accumulated status; a time out leaves a beginning of the rounds and one character more |
| `LcdDriver.Driver.StrShow` | Speed/boe/drv_hd44780.c:694-769 | The whole call for every X, Y (0 included), string, build and direction: bad coordinates change nothing; otherwise controller and shadow are the start after one round for each character, and the status is theirs. What the rounds show is `RoundsShow`, what the status means `StatusClosed` |
| `LcdDriver.Driver.StartsOnDisplay` | Speed/boe/drv_hd44780.c:698-710 | A text from column 1 on starts as the empty text at its place, with the shadow there |
| `LcdDriver.Driver.WriteRows` | Speed/boe/drv_hd44780.c:672-680 | For every controller: the rows so far, written one after another |
| `LcdDriver.Driver.WritePattern` | Speed/boe/drv_hd44780.c:666-682 | For every controller: the rows from their address and then the command for the address reported before; display memory, configuration and bus kept except for the reported addresses that `AddressCommandExactly` names |
| `LcdDriver.Driver.WrCGRAM` | Speed/boe/drv_hd44780.c:640-683 | For every controller and every shadow: without a time out the rows of the slot and then the command for the reported address, a time out leaves a beginning of the rows, out of range does nothing. The display memory is kept unless the address is 0x81, the bus stays in step unless it is from 0xB0 to 0xBF |
| `LcdDriver.Driver.RestoredToText` | Speed/boe/drv_hd44780.c:681 | For a controller as power-up leaves it and an address below 0x80, which the one read back always is, the pattern replaces its slot and nothing else and the address counter is back |
| `LcdDriver.Driver.ReadRows` | Speed/boe/drv_hd44780.c:616-624 | The rows stored are those of the pattern memory from the address counter on, the last one even when the display then fails to answer |
| `LcdDriver.Driver.RdCGRAM` | Speed/boe/drv_hd44780.c:585-627 | Reads the rows from address slot & 7 (or & 15), not scaled, leaves both memories alone and restores the address counter; after a time out what is stored is the beginning of the rows |
| `LcdScripts.Perform` | Speed/boe/drv_hd44780.c:322-769 | Every call, power-up and SetMode among them, does what one definition that does not know the build says, from any column of any line, and a power-up does so from any state of the controller; in the write-only build a pattern call asks that the shadow be the address counter |
| `LcdScripts.PerformShow` | Speed/boe/drv_hd44780.c:694-769 | The same for StrShow with every X and Y; from column 1 of line 1 or 2 the status is OK if the text is seen whole as CheckVisual takes it and OUT_OF_VISUAL otherwise |
| `LcdScripts.ShowOnScreen` | Speed/boe/drv_hd44780.c:694-769 | Controller, shadow and status, without the build-free definition |
| `LcdScripts.PerformPowerUp` | Speed/boe/drv_hd44780.c:322-388 | The same for power-up, which needs no agreement beforehand |
| `LcdScripts.PowerUpForgets` | Speed/boe/drv_hd44780.c:322-388 | The screen after a power-up, field by field: modes of the settings, blank, at home, counting up, the patterns kept; powering up once more changes nothing |
| `LcdScripts.PerformShift` | Speed/boe/drv_hd44780.c:490-533 | The same for DisplayShift |
| `LcdScripts.PerformAll` | Speed/boe/drv_hd44780.c:322-769 | Over every sequence of power-up, mode, clear, home, shift, cursor, text and pattern calls without a time out, the cached position equals the shift, and display and shadow are the ones defined; a sequence that begins with a power-up may begin in any state; and if no poll finds the display busy there is no time out. The patterns of the firmware after its power-up (lcd.c:45-47) are such a sequence |
| `LcdScripts.AddressedIsTold` | Speed/boe/drv_hd44780.c:96-98 | Over every sequence whose calls name a column and a line, from a settled state or from a power-up, the shadow equals the address counter after every call |
| `LcdScripts.CallSettles` | Speed/boe/drv_hd44780.c:439-769 | One such call leaves shadow and address counter equal, at a cell of the display |
| `LcdScripts.ToldInParts` | Speed/boe/drv_hd44780.c:640-646 | A sequence whose patterns are called with the right shadow is so in each part |
| `LcdScripts.Recover` | Speed/boe/drv_hd44780.c:322-388 | Whatever timed out before a power-up, if nothing does from it on then display and driver agree again |
| `LcdScripts.BuildsAgree` | Speed/boe/drv_hd44780.c:96-98 | Every sequence, columns and lines 0 among its calls, leaves identical controllers in the build that reads the address back and in the one that shadows it, from agreement or from a power-up, as long as a pattern is called only where the shadow is the address counter |
| `LcdScripts.BuildsAgreeOnLines` | Speed/boe/drv_hd44780.c:96-98 | When the calls name columns and lines no more is asked, and the shadow ends as the address read |
| `LcdScripts.GlyphAndBack` | Speed/boe/drv_hd44780.c:585-683 | A pattern written and read back under the same number through the driver, in either font: slot 0 returns it, and any slot k the bytes from address k |
| `LcdScripts.ShiftAndBack` | Speed/boe/drv_hd44780.c:490-533 | A shift by n and then by -n is the identity for n from -39 to 39 |
| `Serial.PutKeepsValid` | Speed/serial/serial.c:195-227 | A put that passes, fails, blocks or restarts the transmitter keeps the protocol: no byte of U0THR overwritten before its interrupt, the flag true exactly when none is awaited, and then an empty queue, and sent followed by queued equal to accepted |
| `Serial.ResumeKeepsValid` | Speed/serial/serial.c:213-224 | So does a put that goes on after it blocked, with any interrupts and other puts in between |
| `Serial.ThreKeepsValid` | Speed/serial/serial.c:245-258 | So does the THRE interrupt |
| `Serial.ReceiveKeepsValid` | Speed/serial/serial.c:260-265 | Characters delivered followed by those queued are those stored, in order |
| `Serial.StepKeepsValid` | Speed/serial/serial.c:188-269 | Every step of every task and interrupt keeps the protocol |
| `Serial.EveryRunConserves` | Speed/serial/serial.c:188-269 | Over every interleaving, what was written to U0THR followed by the queue is exactly what was there before and the characters of the puts that returned pdPASS, in that order: none lost, doubled, reordered, or left by a put that failed |
| `Serial.EveryTaskInOrder` | Speed/serial/serial.c:167-230 | Over every interleaving with other tasks, the characters of a task that puts without a time limit are admitted in its own order, none left out, but for the one it is blocked in |
| `Serial.StepIsFair` | Speed/serial/serial.c:188-230 | What a step admits of a task and leaves pending is what was pending and what it asks |
| `Serial.AdmissionsAreSent` | Speed/serial/serial.c:188-269 | And what is sent and queued is what was there and what is admitted of all the tasks together |
| `Serial.StepAdmits` | Speed/serial/serial.c:198-229 | A character is accepted exactly by the step in which its put passes |
| `Serial.FailedPutIsSilent` | Speed/serial/serial.c:213-229 | A put that returns failure has left queue, transmitter and flag as they were |
| `Serial.PutOutcomeExactly` | Speed/serial/serial.c:198-213 | A put passes if and only if the transmitter is idle or the queue has room; otherwise it fails if it may not wait and waits if it may |
| `Serial.ResumeOutcomeExactly` | Speed/serial/serial.c:213-229 | A blocked put that runs again passes if and only if the queue has room, otherwise it fails exactly when its time is over; it stays blocked exactly when it still waits |
| `Serial.RestartFindsItsOwn` | Speed/serial/serial.c:219-224 | The receive whose result line 221 ignores always succeeds after blocking, and what it takes is this put's own character, alone in the queue |
| `Serial.BlockedPutFinishes` | Speed/serial/serial.c:213-229 | A blocked put can always finish, at once or after the one interrupt that is then owed |
| `Serial.DrainsExactly` | Speed/serial/serial.c:245-258 | With puts stopped, exactly queue length plus one (none if nothing is in flight) THRE interrupts occur, each lowers that number by one, and then the flag is up, the queue empty and everything accepted is sent |
| `Serial.DroppedOnlyWhenFull` | Speed/serial/serial.c:263-264 | A received character is lost exactly when the receive queue is full |
| `Serial.EveryRunReceives` | Speed/serial/serial.c:149-164 | Over every run, what was read followed by what is queued is what was there before followed by the characters of exactly the receive interrupts that found room, in order, and the lost ones are the others |
| `Serial.StepStores` | Speed/serial/serial.c:260-265 | Per step: a receive interrupt adds its own character at the end or counts it as lost, a read takes the oldest one, nothing else touches the received characters |
| `Serial.GetOutcomeExactly` | Speed/serial/serial.c:156-163 | A read passes if and only if a character is waiting; a failed one changes nothing |
| `SerialPort.Driver.constructor` | Speed/serial/serial.c:92-100 | The port starts idle, with a transmit queue of one more than asked for |
| `SerialPort.Driver.RestartIfIdle` | Speed/serial/serial.c:215-224 | What follows the send in the critical section |
| `SerialPort.Driver.PutChar` | Speed/serial/serial.c:188-230 | The put up to its return or its blocking is the protocol step, and its outcome in terms of the flag and the queue |
| `SerialPort.Driver.ResumePut` | Speed/serial/serial.c:213-230 | The rest of a blocked put is the protocol step, and its outcome in terms of the queue |
| `SerialPort.Driver.Isr` | Speed/serial/serial.c:233-269 | The routine does the step of the interrupt source, for every value of U0IIR; a received character is queued as it is if there is room |
| `SerialPort.Driver.GetChar` | Speed/serial/serial.c:149-164 | Passes exactly when a character is waiting and takes the oldest, or fails with nothing changed |
| `SerialPort.Driver.PutCharAndWait` | Speed/serial/serial.c:182 | A put with no time limit returns with its character accepted, whatever interrupts come before, while and after it waits for room |
| `SerialPort.Driver.WaitForRoom` | Speed/serial/serial.c:213-218 | Any interrupts in any order: THRE interrupts make room, because with the queue full one is owed |
| `SerialPort.Driver.PutString` | Speed/serial/serial.c:167-185 | With no other task putting, the whole string up to its NUL is sent or queued, in order and once, whatever interrupts come; the length argument does not matter |
| `Timer.FilterDecidesAsMeant` | Speed/boe/timer1.c:66 | The unsigned comparison of captures decides as the real distance would exactly within a minute, or, across a reset, when the rotation is not a glitch and not within 58982 ticks above the earlier capture |
| `Timer.LateServiceStampsAMinuteLate` | Speed/boe/timer1.c:51-69 | A rotation captured just before a reset but serviced together with it is stamped a whole minute late |
| `Timer.Timer1.Isr` | Speed/boe/timer1.c:46-77 | Minute count, delay flag, filter, queue and previous capture after one entry, for every combination of pending flags |
| `Timer.RotationKeepsFaithful` | Speed/boe/timer1.c:61-77 | A capture keeps what the routine knows true of what happened, whether it is filtered, queued or dropped by a full queue |
| `Timer.EveryRunIsFaithful` | Speed/boe/timer1.c:46-77 | Over every run the stamps taken and queued are those of real rotations, in order, and successive ones in a minute are more than 58982 ticks apart even after drops |
| `Timer.RotationStamps` | Speed/boe/timer1.c:61-77 | One capture: it is queued with the present minute exactly if it passes the filter and the queue has room, becomes the previous capture exactly if it passes, and is counted in any case |
| `Timer.EveryRunStamps` | Speed/boe/timer1.c:61-77 | Over every run the stamps taken and queued are those before and, in order, exactly the stamps of the rotations that passed the filter while the queue had room |
| `Timer.EveryRunFilters` | Speed/boe/timer1.c:66-70 | Over every run the capture that the filter compares with is that of the last rotation it passed, queued or dropped |
| `Timer.EveryRunCounts` | Speed/boe/timer1.c:56-76 | Over every run the event count is the number of rotations modulo 2^32, and a delay is still active exactly if no match ended it |
| `Timer.SpacedApart` | Speed/boe/timer1.h:31 | Queued rotations of one minute are at least 58983 ticks apart for each place between them |
| `SpeedMath.LongDifferencesAreWeightedIntervals` | Speed/boe/speed.c:157-182 | The sum of the differences across half the window is the sum of the single intervals, interval i weighted by min(i, N-i), for every even N |
| `SpeedMath.WeightsTotal` | Speed/boe/speed.c:183-185 | Those weights add up to the square of half the window |
| `SpeedMath.DivideTwice` | Speed/boe/speed.c:185 | The two divisions are one floor division by that square |
| `SpeedMath.AverageIsAnAverage` | Speed/boe/speed.c:153-185 | So the result is the weighted average rounded down and lies between the smallest and the largest interval |
| `Speed.SlotsDiffer` | Speed/boe/speed.c:136-151 | A sample overwrites none of those less than a whole ring older |
| `Speed.MaskIsSlot` | Speed/boe/speed.c:150-161 | The bitwise and with size - 1 is the slot, for every power-of-two size |
| `Speed.SlotIsRemainder` | Speed/boe/speed.c:150-161 | The slot is the remainder by the size |
| `Speed.WrapKeepsSlot` | Speed/boe/speed.c:118-161 | The wrap of the uint32_t index moves no sample to another slot, for every power-of-two size |
| `Speed.MaskedIndex` | Speed/boe/speed.c:160-161 | The masked index counted from the wrapped start is the slot of the sample |
| `Speed.OldestIsNext` | Speed/boe/speed.c:150 | In a full ring the masked start is the slot of the oldest sample and of the next |
| `Speed.Meter.constructor` | Speed/boe/speed.c:103-119 | An empty history of the given power-of-two size |
| `Speed.Meter.Store` | Speed/boe/speed.c:133-152 | After any number of samples, through filling up and through the wrap of `start`, the ring holds exactly the last of them, oldest at `start & (size - 1)` |
| `Speed.Meter.Fill` | Speed/boe/speed.c:134-147 | Filling up |
| `Speed.Meter.Replace` | Speed/boe/speed.c:148-152 | The next sample over the oldest |
| `Speed.Meter.OldestFirst` | Speed/boe/speed.c:158-161 | The masked index start + i is where the i-th oldest sample of a full ring is |
| `Speed.Meter.AddTo` | Speed/boe/speed.c:167-181 | The switch with its fall-through adds a minute for each minute of difference and the captures subtracted in uint32_t, or reports the difference; the uint64_t sum does not overflow |
| `Speed.Meter.PairAt` | Speed/boe/speed.c:160-161 | The two stamps of a round are half a window apart |
| `Speed.Meter.SumDifferences` | Speed/boe/speed.c:157-182 | The loop over the ring is the sum over the last samples, oldest first, up to the first refused pair |
| `Speed.Meter.Compute` | Speed/boe/speed.c:157-190 | Sum, divisions and rates, or the refused minute difference; what each is for real rotations is `ResultOfWindow` |
| `Speed.RatesExactly` | Speed/boe/speed.c:181-184 | The rates of every average from 1 up are the two quotients, the hundredths of a turn without truncation if and only if the average is at least 2; an average of 0 is the division by 0 |
| `Speed.Meter.SpeedCalc` | Speed/boe/speed.c:116-192 | The result depends on the last `size` samples only, whatever the number of earlier ones; before that it is the number still missing |
| `Speed.NextSum` | Speed/boe/speed.c:158-182 | Each round either extends the sum within its bound or settles the result |
| `SpeedSystem.PairOfRealStamps` | Speed/boe/speed.c:167-174 | For correctly stamped rotations at most two minutes apart a pair adds the real ticks, and exactly 2^32 more when the capture count went down; further apart it is refused |
| `SpeedSystem.SumOfRealStamps` | Speed/boe/speed.c:158-182 | The whole sum is the real one plus 2^32 times the number of pairs whose capture count went down |
| `SpeedSystem.ResultOfWindow` | Speed/boe/speed.c:157-188 | For every window of spaced real rotations within 2^32 minutes: "Invalid mC diff." is shown with d if and only if the first pair more than two minutes apart is d minutes apart, and rates (or a division by 0) if and only if no pair is, namely those of the real differences plus 2^32 for each pair whose capture count went down |
| `SpeedSystem.SumOfWindow` | Speed/boe/speed.c:157-181 | The sum of any number of its pairs, as the rotations tell it |
| `SpeedSystem.RefusedIsFirst` | Speed/boe/speed.c:176-180 | A pair is refused exactly when one is more than two minutes apart, and it is the first such |
| `SpeedSystem.RealSumIsReal` | Speed/boe/speed.c:157-175 | The sum so told is the sum of the real differences plus 2^32 for each decreasing pair |
| `SpeedSystem.SumIsRealExactly` | Speed/boe/speed.c:158-182 | So the sum is the real one if and only if no pair has a capture count that went down |
| `SpeedSystem.ResetShowsAWrongRate` | Speed/boe/speed.c:167-190 | A steady 60 rpm is shown as 1 rpm just after a reset of the counter |
| `SpeedSystem.AcrossResetHappens` | Speed/boe/timer1.c:46-77 | The timer queues exactly those four stamps: two rotations, the reset, two more |
| `SpeedSystem.AverageOfRealIntervals` | Speed/boe/speed.c:153-188 | With no capture count going down, the rates are those of the weighted average of the real intervals, which lies between the shortest and the longest |
| `SpeedSystem.SpacedSumIsLarge` | Speed/boe/speed.c:158-182 | Every accepted pair of filtered rotations adds at least half the window times 58983 |
| `SpeedSystem.RatesInRange` | Speed/boe/speed.c:186-188 | An average of 58983 or more gives rpm up to 59999 and hundredths up to 99998, and neither conversion truncates |
| `SpeedSystem.WindowOfRun` | Speed/boe/speed.c:79-86 | A window of stamps taken in a run is the stamps of a window of spaced real rotations |
| `SpeedSystem.EveryRunGivesRatesInRange` | Speed/boe/speed.c:167-188 | Over every run of the timer, whatever its queue drops, each window that spans fewer than 2^32 minutes is refused or divided by an average of at least 58983, so nothing is divided by 0 or truncated |
| `SpeedSystem.SpanBoundIsExact` | Speed/boe/speed.c:167-186 | That bound on the minutes is exact: all spaced windows of a span are safe if and only if it is below 2^32, where the minute counts come round and the division is by 0 |
| `SpeedSystem.RatesAgree` | Speed/boe/speed.c:186-188 | -100 < 100 rpm - 60 hundredths < 60 for every average |
| `SpeedSystem.RatesAntitone` | Speed/boe/speed.c:186-188 | A longer average never gives a higher rate |
| `SpeedSystem.PrintedPartsRecombine` | Speed/boe/speed.c:190 | The printed whole and fraction make up the hundredths, the fraction below 100 |
| `QueueSet.Demo.constructor` | FreeRTOS/Demo/Common/Minimal/QueueSet.c:1018-1039 | Empty queues in a set that is as long as all of them together |
| `QueueSet.Demo.SendingTask` | FreeRTOS/Demo/Common/Minimal/QueueSet.c:291-319 | The round of the sender is its step |
| `QueueSet.Demo.SendToQueueInSetFromISR` | FreeRTOS/Demo/Common/Minimal/QueueSet.c:596-618 | The send of the interrupt is its step |
| `QueueSet.Demo.CheckReceivedValue` | FreeRTOS/Demo/Common/Minimal/QueueSet.c:467-569 | The ranges, the ignored values, the deviation allowed and the counters, for every value |
| `QueueSet.Demo.SelectFromSet` | FreeRTOS/Demo/Common/Minimal/QueueSet.c:404 | The select takes the oldest handle |
| `QueueSet.Demo.ReceiveSelected` | FreeRTOS/Demo/Common/Minimal/QueueSet.c:419-422 | The receive from the selected queue is its step, with the failure it would report |
| `QueueSet.Demo.CheckHeld` | FreeRTOS/Demo/Common/Minimal/QueueSet.c:427-431 | The check in the critical section is its step |
| `QueueSet.Demo.ReceiveFromQueueInSetFromISR` | FreeRTOS/Demo/Common/Minimal/QueueSet.c:572-593 | Select, receive and check of the interrupt are one step |
| `QueueSetOrder.NextValues` | FreeRTOS/Demo/Common/Minimal/QueueSet.c:312-319 | The successive values of both sources go round their ranges, through the wraps at 0xffff and at 2^32 |
| `QueueSetOrder.CheckCounts` | FreeRTOS/Demo/Common/Minimal/QueueSet.c:506-542 | The counters of the checker go round the same values as the senders, each source by itself |
| `QueueSetOrder.SelectKeepsValid` | FreeRTOS/Demo/Common/Minimal/QueueSet.c:404 | Selecting takes the oldest message not yet selected |
| `QueueSetOrder.ReceiveKeepsValid` | FreeRTOS/Demo/Common/Minimal/QueueSet.c:416-422 | The receive after a select never finds the queue empty, even when the interrupt has received from it in between, and gets the message the selection then stands for |
| `QueueSetOrder.IsrReceiveFinds` | FreeRTOS/Demo/Common/Minimal/QueueSet.c:578-588 | The receive of the interrupt never fails either: it gets the message of the task's selection if that is of the same queue, and otherwise the oldest not selected |
| `QueueSetOrder.StepKeepsValid` | FreeRTOS/Demo/Common/Minimal/QueueSet.c:277-618 | Every step of both senders and both receivers keeps the picture: queues and set hold exactly the unselected messages in the order sent and the one selected, and the counters are those of the messages |
| `QueueSetRuns.TrackRun` | FreeRTOS/Demo/Common/Minimal/QueueSet.c:277-618 | Every interleaving, of any length, with any number of queues of any length, stays within that picture |
| `QueueSetRuns.HandlesCountTheQueues` | FreeRTOS/Demo/Common/Minimal/QueueSet.c:404-422 | In every reachable state the handles of a queue in the set, and one for the task's selection of it, number exactly what the queue holds |
| `QueueSetRuns.SetNeverOverflows` | FreeRTOS/Demo/Common/Minimal/QueueSet.c:1016-1018 | A set as long as its queues together never overflows |
| `QueueSetRuns.AcceptedExactly` | FreeRTOS/Demo/Common/Minimal/QueueSet.c:482-533 | The check accepts a value of a source if and only if it is among the ignored ones or within 3 of the expected, around the range |
| `QueueSetRuns.TaskSendsExactly` | FreeRTOS/Demo/Common/Minimal/QueueSet.c:299-319 | In every reachable state the task's send goes through exactly when the chosen queue has room, and then the next value of the task's sequence is last in that queue and its handle last in the set; otherwise nothing changes |
| `QueueSetRuns.IsrSendsExactly` | FreeRTOS/Demo/Common/Minimal/QueueSet.c:594-618 | The same for the interrupt and its queue |
| `QueueSetRuns.EveryRunTakesTurns` | FreeRTOS/Demo/Common/Minimal/QueueSet.c:611-616 | Over every run the interrupt's n-th accepted message went to queue n modulo the number of queues, and so will the next one |
| `QueueSetRuns.StartTakesTurns` | FreeRTOS/Demo/Common/Minimal/QueueSet.c:1018-1039 | It is so at the start |
| `QueueSetRuns.FailedReceiveIsFlagged` | FreeRTOS/Demo/Common/Minimal/QueueSet.c:418-429 | A receive from an empty queue would be flagged, by the task and by the interrupt, and a value left on the stack be taken for received |
| `QueueSetRuns.HeldLag` | FreeRTOS/Demo/Common/Minimal/QueueSet.c:471-478 | The value in the task's hand is behind its counter by at most the interrupt's receives since the select |
| `QueueSetRuns.TaskCheckPasses` | FreeRTOS/Demo/Common/Minimal/QueueSet.c:427-431 | The check of the task passes exactly when few enough values of the same source overtook the one in hand |
| `QueueSetRuns.IsrCheckPasses` | FreeRTOS/Demo/Common/Minimal/QueueSet.c:590-591 | The same for the check of the interrupt |
| `QueueSetRuns.StepPassesExactly` | FreeRTOS/Demo/Common/Minimal/QueueSet.c:277-618 | A step flags an error exactly when it checks a value too far out of order; failed receives never do |
| `QueueSetRuns.RunPassesExactly` | FreeRTOS/Demo/Common/Minimal/QueueSet.c:277-618 | Over every run the status is still passing if and only if each check was of a value near enough to its counter |
| `QueueSetRuns.TimelyRunPasses` | FreeRTOS/Demo/Common/Minimal/QueueSet.c:471-478 | Over every run in which no check during a selection of the task finds more than three of the interrupt's receives since the select, no error is ever flagged |
| `QueueSetBound.LateRun` | FreeRTOS/Demo/Common/Minimal/QueueSet.c:404-429 | With four of the interrupt's receives between the task's select and its check there is a run that flags an error, for any queues |
| `QueueSetBound.DeviationIsExact` | FreeRTOS/Demo/Common/Minimal/QueueSet.c:93 | For any number and length of queues, all runs with at most so many of those receives pass if and only if these are at most three |
| `QueueSetRuns.EveryValueCheckedOnce` | FreeRTOS/Demo/Common/Minimal/QueueSet.c:404-429 | With both receivers at work, the values checked and the one in hand are, as a multiset, the values selected: none lost, none checked twice |
| `QueueSetRuns.LoneReceiverKeepsOrder` | FreeRTOS/Demo/Common/Minimal/QueueSet.c:404-429 | With the task as the only receiver, values are checked in the global order of sending: the set and its queues refine one first-in-first-out queue |
| `QueueSetRuns.LoneReceiverMeetsItsCounter` | FreeRTOS/Demo/Common/Minimal/QueueSet.c:482-543 | And each value equals its source's counter exactly, through both wraps |
| `Stream.PlaceIsModulo` | FreeRTOS/Demo/Common/Minimal/StreamBufferDemo.c:486-495 | The index that is put back to 0 at the end of the string is the number of bytes modulo its length |
| `Stream.SendKeepsStep` | FreeRTOS/Demo/Common/Minimal/StreamBufferDemo.c:476-496 | A send of any partial size keeps index and buffer with the text |
| `Stream.ComparedExactly` | FreeRTOS/Demo/Common/Minimal/StreamBufferDemo.c:532-569 | The split comparison of correct bytes succeeds if and only if they end no later than the end of the string's second copy, and then the index is right |
| `Stream.ComparedIsPrefix` | FreeRTOS/Demo/Common/Minimal/StreamBufferDemo.c:532-555 | The split comparison of any bytes, right or wrong, succeeds if and only if they are a beginning of the rest of the string followed by the string and its NUL |
| `Stream.ComparedIndex` | FreeRTOS/Demo/Common/Minimal/StreamBufferDemo.c:539-569 | The index it leaves, for any number of bytes: the sum modulo the length while that is within the second copy, and 0 beyond |
| `Stream.ReceiveKeepsStep` | FreeRTOS/Demo/Common/Minimal/StreamBufferDemo.c:518-570 | A receive of any partial size within that bound flags nothing, counts, and keeps the index with the bytes received |
| `Stream.TookExactly` | FreeRTOS/Demo/Common/Minimal/StreamBufferDemo.c:518-570 | A receive of nothing changes nothing; one of any bytes, in step or not, takes them from the buffer, flags an error exactly if they are not as expected or one was flagged before, and counts exactly if none is |
| `Stream.LongReceiveFlagsError` | FreeRTOS/Demo/Common/Minimal/StreamBufferDemo.c:532-555 | Beyond that bound correct bytes are taken for an error: the second comparison runs into the NUL |
| `Stream.ErrorStays` | FreeRTOS/Demo/Common/Minimal/StreamBufferDemo.c:558-563 | After an error the flag stays and the counter stands still, whatever happens, which is how the check at line 1094 notices |
| `Stream.EveryRunAgrees` | FreeRTOS/Demo/Common/Minimal/StreamBufferDemo.c:463-573 | Every interleaving of sends and receives of any partial sizes, with a receive buffer or a stream buffer at most one byte longer than the string, stays in step and flags no error |
| `Stream.CounterCountsArrivals` | FreeRTOS/Demo/Common/Minimal/StreamBufferDemo.c:558-563 | And over every such run the counter is the number of receives that moved at least one byte, modulo 2^32 |
| `Stream.AgreementIsModular` | FreeRTOS/Demo/Common/Minimal/StreamBufferDemo.c:463-573 | Then both indexes are the bytes sent and received modulo the length, and the buffer holds the text between them |
| `Stream.BufferBoundIsExact` | FreeRTOS/Demo/Common/Minimal/StreamBufferDemo.c:463-573 | For every string and both buffer sizes, all runs are free of error if and only if one of the buffers is at most one byte longer than the string |
| `Stream.Demo.SenderRound` | FreeRTOS/Demo/Common/Minimal/StreamBufferDemo.c:472-496 | One round of the sender, with its two checks, is its step |
| `Stream.Demo.ReceiverRound` | FreeRTOS/Demo/Common/Minimal/StreamBufferDemo.c:514-571 | One round of the receiver is its step; a round that gets nothing changes nothing |
| `Stream.Demo.CompareReceived` | FreeRTOS/Demo/Common/Minimal/StreamBufferDemo.c:527-569 | The two-part comparison and the move of the index on the receiver's own buffer |
| `LcdDriver.Pattern` | Speed/boe/drv_hd44780.c:649-665 | A 5x8 slot always has a place, a tall one if and only if its number modulo 16 is at most 6; its address is the slot number times the rows |
| `LcdDriver.Driver.SetCgramAddress` | Speed/boe/drv_hd44780.c:667 | The address counter goes to a row of the pattern memory, nothing else changes |
| `LcdDriver.Driver.GoTo` | Speed/boe/drv_hd44780.c:681 | For an address the counter goes back to the display memory; for a negative shadow the overflowed command is executed, which keeps both memories unless the address is 0x81 and the bus in step unless it is from 0xB0 to 0xBF |
| `LcdScripts.PerformGlyph` | Speed/boe/drv_hd44780.c:640-683 | The same for WrCGRAM: the slot is replaced, and the shadow is not disturbed |
| `LcdScripts.PerformCursor` | Speed/boe/drv_hd44780.c:545-572 | The same for CursorPosSet |
| `SerialPort.Driver.Interruptions` | Speed/serial/serial.c:233-277 | Any number of interrupts of any source keep the protocol and never fill the transmit queue further |
| `Timer.Timer1.constructor` | Speed/boe/timer1.c:48 | Everything starts at zero |
| `Timer.Timer1.Take` | Speed/boe/speed.c:79 | The speed task takes the oldest stamp |
| `Speed.Meter.Put` | Speed/boe/speed.c:136 | A sample put into its own slot leaves all the others of the last ring in theirs |
| `QueueSet.Demo.QueueSend` | FreeRTOS/Demo/Common/Minimal/QueueSet.c:1016-1018 | The kernel: a send succeeds exactly if the queue has room, and posts the handle with the item |
| `QueueSetRuns.Start` | FreeRTOS/Demo/Common/Minimal/QueueSet.c:1018-1039 | The initial state satisfies the invariants |
| `QueueSetRuns.TimelyStepPasses` | FreeRTOS/Demo/Common/Minimal/QueueSet.c:471-478 | A check while the task has a selection, with at most three of the interrupt's receives since the select, passes; a receive of the interrupt while the task has none always does |
| `Stream.Demo.constructor` | FreeRTOS/Demo/Common/Minimal/StreamBufferDemo.c:190 | An empty stream buffer and both indexes at 0 |
| `Stream.Demo.StreamBufferSend` | FreeRTOS/Demo/Common/Minimal/StreamBufferDemo.c:482 | The kernel: takes a beginning of the bytes, no more than fit |
| `Stream.Demo.StreamBufferReceive` | FreeRTOS/Demo/Common/Minimal/StreamBufferDemo.c:518 | The kernel: the oldest bytes go to the caller's buffer, no more than fit there |
| `SpeedSystem.SpeedUpdate` | Speed/boe/speed.c:77-88 | One round of the speed task on the timer's queue, whatever rotations happened, in the first 2^32 minutes: with too few stamps their missing number is shown, otherwise what the last rotations were: the minutes of the first pair too far apart, if and only if there is one, or else their rates, in range and never divided by 0 |
| `SpeedSystem.LastWindowIsSane` | Speed/boe/speed.c:157-188 | The window of the last stamps taken in a run is one of spaced real rotations, and shows that |

## Left out

- LcdScripts.PerformAll: in the write-only build a pattern is called only where the shadow is the address counter, which after calls with column 0 or line 0 it need not be; what happens otherwise is in the contract of `WrCGRAM`. Settings changed through the pointer that `HD44780_GetSetting` returns, single lines and a controller that shifts on writes are covered by the driver's own contracts only; a shadow that counts down is in `DownRunsOn` and `DownPilesUp`, outside the scripts.
- SpeedSystem.EveryRunGivesRatesInRange: says nothing of a window that spans 2^32 minutes or more, where `SpanBoundIsExact` shows that the division can be by 0.
- Stream.BufferBoundIsExact: the failing run uses partial transfers, which the contract of the stream buffer allows; whether a given kernel makes them is not part of the model.
- The 8-bit bus of the display driver: the low-level layer drives four data lines only.
- Delays and pulse widths, the port registers and their masks, and `DelayResolution100us`, which is taken to return; its match at `Speed/boe/timer1.c:56-60` clears the flag of the minute match instead of its own.
- The level of RS during the first strobe after power-up, which the controller is taken to sample when the strobe ends.
- Time that passes while the timer routine runs, and more than one rotation between two entries; two sources pending at once are covered by `Timer1.Isr` and `LateServiceStampsAMinuteLate` but not by the runs.
- `REFE` of a time stamp, and the log and display texts made with snprintf; what is printed is covered by `PrintedPartsRecombine`.
- Line errors of the UART beyond that they change nothing, and THRE interrupts without a byte written.
- The display task, the light counter and `main.c`: they only pass messages on.
- The insides of the kernel: scheduler, queues, queue sets and stream buffers are contracts.
- Task priorities, delays and the cycle counter of the queue set test, its overwrite tests and the steps of its setup, and halting at a failed configASSERT.
- The other stream buffer tests and the other demonstration programs: their substance is in the kernel.
