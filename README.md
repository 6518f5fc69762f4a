# Number-guessing game on an 8x8 LED matrix and a character LCD

This is a Dafny model of the firmware in `Eindopdracht/` (an ATmega board).
The game draws a secret number from 1 to 8. The player enters a guess on
eight push buttons on port A. The LED matrix answers with an up arrow, a
down arrow or a check mark. A character LCD on port C shows the prompt, the
number of tries and a summary.

Three modules follow the three source files:

- `Display` (`display.c`): the frame buffer `buf` of eight column bytes, and
  the HT16K33 driver chip on the I2C (TWI) bus. The class `Display.Matrix`
  holds `buf` as an `array<bv8>`. It records everything put on the bus as a
  trace of start conditions, transmitted bytes and stop conditions. Its
  methods update both in place, as the C code does.
- `Lcd` (`lcd.c`, with the pin numbers of `lcd.h`): the HD44780-style
  controller in 4-bit mode. The class `Lcd.Lcd` holds PORTC, every value
  ever written to it, and the global `cursor` counter. The functions
  `Encode`/`Decode` say which port writes carry which commands and
  characters.
- `Game` (`main.c`): reading a guess from the buttons, drawing the secret
  number, judging a guess, and the painters `matrix_arrow`, `matrix_check`
  and `clear_matrix`. The class `Game.Game` holds the globals
  `guess_counter` and `random_number`. `play_round` and the body of `main`'s
  loop become the steps `StartRound`, `PromptGuess`, `TakeGuess` and
  `EndRound`.

Each method changes what its `modifies` clause names. Its postcondition
relates the new state to a specification function of the old state:
`AfterSetPixel`, `RotlRow`, `Frame`, `InitSequence`, `Encode`, `OrColumns`
with `Glyph`. Lemmas then state what those functions promise: the flush
carries the whole buffer and can be decoded, the port writes decode back to
the transfers, a rotation is a bit rotation that cycles after 64 steps, and
the glyphs are the ones the if-chains draw.

Some behaviours of the code are easy to misread; the model follows the
code:

- The wiring correction `(a >> 1) | ((a << 7) & 0x80)` is a one-bit right
  rotation. It maps 0x80 to 0x40, not to 0x01 (`Display.WireRotExamples`).
- `displayClrPixel` ands the byte with `0 << (y % 8)`, which is 0. It
  blanks the whole column, not one pixel (`Display.ClrPixelBlanksColumn`).
- `displayClr` loops while `idx < width - 1` and leaves the last column
  alone (`Display.ClrLeavesLastColumn`). `clear_matrix` does blank every
  column, because it uses `displayClrPixel`.
- `displayRotl` treats the eight bytes of `buf` as one 64-bit value and
  rotates it left by one bit. Bit 7 of byte `x` carries into bit 0 of byte
  `x + 1`. It takes 64 rotations, not 8, to give the buffer back
  (`Display.RotlRowCycle`).
- `displayRotr` has an empty body, so there is no inverse rotation to
  model. `Display.RotlRowNRotatesBits` describes the rotation's effect
  instead.

## Model

| member | source | states |
|---|---|---|
| Display.BitsInjective | Eindopdracht/display.c:28 | a byte of `buf` is determined by its eight pixel bits |
| Display.WireRot | Eindopdracht/display.c:137-138 | the wiring correction moves bit 0 to bit 7 and every other bit down by one |
| Display.WireRotInv | Eindopdracht/display.c:138 | the left rotation moves bit 7 to bit 0 and every other bit up by one |
| Display.WireRotBijective | Eindopdracht/display.c:138 | the wiring correction and the left rotation undo each other, so no pixel data is lost on the wire |
| Display.WireRotCycle | Eindopdracht/display.c:138 | eight applications of the wiring correction give the byte back |
| Display.WireRotExamples | Eindopdracht/display.c:138 | 0x01 goes to 0x80, 0x80 to 0x40, and 0x00 and 0xFF stay fixed |
| Display.PixelMaskBit | Eindopdracht/display.c:99 | `1 << (y % 8)` has exactly bit `y % 8` set |
| Display.PixelMaskIsMask | Eindopdracht/display.c:99 | for a row below 8 the pixel mask is the single-bit mask of that row |
| Display.AfterSetPixel | Eindopdracht/display.c:93-101 | setting a pixel keeps the buffer at eight bytes |
| Display.SetPixelColumn | Eindopdracht/display.c:96-99 | in bounds, setting (x, y) ors bit `y` into byte `x` and nothing else |
| Display.SetPixelLightsOnlyThatPixel | Eindopdracht/display.c:96-99 | in bounds, afterwards a pixel is lit iff it was lit before or is (x, y); other bytes are unchanged |
| Display.SetPixelOutOfBounds | Eindopdracht/display.c:96 | a pixel outside the 8x8 area leaves the buffer unchanged |
| Display.SetPixelIdempotent | Eindopdracht/display.c:93-101 | setting the same pixel twice equals setting it once |
| Display.AfterClrPixel | Eindopdracht/display.c:105-120 | clearing a pixel keeps the buffer at eight bytes |
| Display.ClrPixelBlanksColumn | Eindopdracht/display.c:115-118 | in bounds, clearing (x, y) zeroes all of byte `x`, so every pixel of column `x` goes dark; out of bounds nothing changes |
| Display.AfterClr | Eindopdracht/display.c:183-195 | clearing the display keeps the buffer at eight bytes |
| Display.ClrLeavesLastColumn | Eindopdracht/display.c:192-194 | after `displayClr` columns 0-6 are dark and column 7 keeps every pixel it had |
| Display.Msb | Eindopdracht/display.c:159 | `(temp & 0x80) >> 7` is 0 or 1, and 1 iff bit 7 of `temp` is set |
| Display.ShiftIn | Eindopdracht/display.c:160 | `(temp << 1) \| carry` has the previous byte's top bit at bit 0 and its own bits moved up by one |
| Display.RotlRow | Eindopdracht/display.c:153-165 | a rotated buffer has as many bytes as before |
| Display.RowBitAt | Eindopdracht/display.c:28 | bit `8 * x + j` of the buffer, read as one value, is bit `j` of byte `x` |
| Display.RowBitsInjective | Eindopdracht/display.c:28 | the buffer is determined by its 64 bits |
| Display.RotlRowRotatesBits | Eindopdracht/display.c:153-165 | `displayRotl` rotates the 64 bits of the buffer up by one place, the top bit wrapping to bit 0 |
| Display.RotlRowBit | Eindopdracht/display.c:158-164 | each single bit of the rotated buffer is the bit just below it, cyclically |
| Display.RotlRowWrapBit | Eindopdracht/display.c:163-164 | bit 0 of byte 0 afterwards is the top bit of the last byte (the wrap-around) |
| Display.RotlRowCarryBit | Eindopdracht/display.c:159-161 | bit 0 of byte `x > 0` afterwards is the top bit of byte `x - 1` (the carry) |
| Display.RotlRowInnerBit | Eindopdracht/display.c:160 | bit `j > 0` of a byte afterwards is its bit `j - 1` |
| Display.ShiftInCarry | Eindopdracht/display.c:160-164 | shifting in a zero carry and or-ing in the wrap-around later equals shifting in the wrapped bit |
| Display.RotlRowKeepsLitCount | Eindopdracht/display.c:153-165 | a rotation lights exactly as many pixels as were lit before |
| Display.RotlRowNRotatesBits | Eindopdracht/display.c:153-165 | `k` rotations move every bit up by `k` places, cyclically |
| Display.RotlRowCycle | Eindopdracht/display.c:153-165 | 64 rotations give the buffer back |
| Display.FlushData | Eindopdracht/display.c:136-141 | the column part of a flush is 16 events |
| Display.Frame | Eindopdracht/display.c:123-143 | a flush is one session: start, address 0xE8, register 0x00, then for `idx` 0-7 the corrected byte `buf[7 - idx]` and a zero, then stop |
| Display.DecodeFrame | Eindopdracht/display.c:123-143 | a trace decodes iff it has the shape of a flush, and then gives eight bytes |
| Display.FrameRoundTrip | Eindopdracht/display.c:123-143 | decoding a flush gives back exactly the buffer it was made from |
| Display.FrameInjective | Eindopdracht/display.c:123-143 | different buffers give different flushes |
| Display.InitSequence | Eindopdracht/display.c:45-90 | the chip bring-up is 16 bus events |
| Display.BalancedAppend | Eindopdracht/display.c:224-277 | whole sessions followed by whole sessions are whole sessions |
| Display.SessionBalanced | Eindopdracht/display.c:238-262 | start, transmissions and stop form one whole session |
| Display.FrameBalanced | Eindopdracht/display.c:133-142 | a flush opens and closes exactly one session |
| Display.InitSequenceBalanced | Eindopdracht/display.c:55-76 | the bring-up is four whole sessions |
| Display.Matrix.constructor | Eindopdracht/display.c:28 | the global buffer starts as eight zero bytes and nothing has been sent |
| Display.Matrix.TwiStart | Eindopdracht/display.c:238-249 | a start condition is added to the bus trace |
| Display.Matrix.TwiTx | Eindopdracht/display.c:265-277 | the byte is added to the bus trace |
| Display.Matrix.TwiStop | Eindopdracht/display.c:252-262 | a stop condition is added to the bus trace |
| Display.Matrix.DisplayInitHT16K33 | Eindopdracht/display.c:45-90 | sends the four bring-up sessions to the given address (0x21, 0xA0, 0xE1, 0x81); the trace stays whole sessions |
| Display.Matrix.DisplayInit | Eindopdracht/display.c:31-42 | sends the bring-up to the matrix's address |
| Display.Matrix.SetPixel | Eindopdracht/display.c:93-101 | the buffer becomes `AfterSetPixel` of the old buffer |
| Display.Matrix.ClrPixel | Eindopdracht/display.c:105-120 | the buffer becomes `AfterClrPixel` of the old buffer |
| Display.Matrix.Display | Eindopdracht/display.c:123-143 | appends exactly `Frame(buf)` to the trace, leaves `buf` alone, and keeps the trace whole sessions |
| Display.Matrix.Rotl | Eindopdracht/display.c:147-166 | the buffer becomes `RotlRow` of the old buffer |
| Display.Matrix.Clr | Eindopdracht/display.c:183-195 | the buffer becomes `AfterClr` of the old buffer |
| Lcd.NibblesReassemble | Eindopdracht/lcd.c:18-24 | the high nibble and the shifted low nibble put the byte back together, and neither touches port bits 0-3 |
| Lcd.InitWrites | Eindopdracht/lcd.c:7-14 | an init command is two port writes |
| Lcd.Writes | Eindopdracht/lcd.c:16-47 | a command or a character is four port writes |
| Lcd.Encode | Eindopdracht/lcd.c:16-47 | `n` transfers are `4n` port writes |
| Lcd.InitIsHighHalf | Eindopdracht/lcd.c:7-29 | an init command sends the same first two writes as the full command with that byte |
| Lcd.WritesShape | Eindopdracht/lcd.c:16-47 | E is high on writes 0 and 2 and low on 1 and 3; RS is high iff the transfer is data; bits 0-1 stay clear; the nibbles are the byte's high then low nibble |
| Lcd.StrobeRelease | Eindopdracht/lcd.c:21 | lowering E after raising it leaves the nibble and RS on the port as they were |
| Lcd.EncodeAppend | Eindopdracht/lcd.c:16-47 | the writes of two runs of transfers are the writes of each run, one after the other |
| Lcd.DecodeOneWrites | Eindopdracht/lcd.c:16-47 | the four writes of a transfer decode to that transfer |
| Lcd.WritesDecodeOne | Eindopdracht/lcd.c:16-47 | four writes that decode are exactly the writes of what they decode to |
| Lcd.DecodeEncode | Eindopdracht/lcd.c:16-47 | the controller reads back exactly the commands and characters that were sent |
| Lcd.EncodeDecode | Eindopdracht/lcd.c:16-47 | every run of writes that decodes is the encoding of its decoding |
| Lcd.CStrLen | Eindopdracht/lcd.c:63 | `while(*str)` stops at the first NUL: every earlier character is non-zero |
| Lcd.TextTransfers | Eindopdracht/lcd.c:63-67 | one data transfer per character, in order |
| Lcd.Moves | Eindopdracht/lcd.c:75-83 | `n` cursor moves are `n` transfers |
| Lcd.NetAppend | Eindopdracht/lcd.c:70-85 | the cursor movement of two runs adds up |
| Lcd.MovesNet | Eindopdracht/lcd.c:75-83 | `n` shifts right move the cursor `n` places, `n` shifts left `-n`, and every transfer is that shift |
| Lcd.CursorMovesNet | Eindopdracht/lcd.c:70-85 | `set_cursor(position)` moves the controller's cursor by exactly `position - (cursor + 1)`, one shift per place, all in the same direction |
| Lcd.CursorMovesIs | Eindopdracht/lcd.c:71-84 | once the loop counter reaches the difference, the moves sent are those of `set_cursor` |
| Lcd.Lcd.constructor | Eindopdracht/lcd.c:5 | nothing is written yet and `cursor` is 0 |
| Lcd.Lcd.SetPortC | Eindopdracht/lcd.c:10 | a PORTC assignment: the port holds the value, which is appended to the writes |
| Lcd.Lcd.WriteInitCommand | Eindopdracht/lcd.c:7-14 | writes the high nibble with E high, then with E low |
| Lcd.Lcd.Write2NibbleCommand | Eindopdracht/lcd.c:16-29 | appends exactly the four writes of the command; `cursor` unchanged |
| Lcd.Lcd.Write2NibbleData | Eindopdracht/lcd.c:31-47 | appends exactly the four writes of the character, with RS high; `cursor` unchanged |
| Lcd.Lcd.Init | Eindopdracht/lcd.c:49-59 | the 4-bit-mode nibble 0x20, then the commands 0x28, 0x0C and 0x06 |
| Lcd.Lcd.DisplayText | Eindopdracht/lcd.c:61-68 | sends each character before the NUL as data, in order, and advances `cursor` by their number |
| Lcd.Lcd.SetCursor | Eindopdracht/lcd.c:70-85 | sends exactly `CursorMoves(cursor, position)` and keeps the counter |
| Lcd.Lcd.LcdClear | Eindopdracht/lcd.c:87-90 | sends the clear command 0x01 only; `cursor` is not reset |
| Lcd.MovesStep | Eindopdracht/lcd.c:75-83 | one more shift after `n` shifts is `n + 1` shifts |
| Lcd.TextStep | Eindopdracht/lcd.c:63-67 | one more character after the first `i` is the first `i + 1` |
| Game.BitLengthBounds | Eindopdracht/main.c:158-169 | the digit count `k` of `n > 0` satisfies `2^(k-1) <= n < 2^k`; it is 0 only for 0 |
| Game.BitLengthBelow | Eindopdracht/main.c:158-169 | a number below `2^k` has at most `k` digits |
| Game.BitLengthPow2 | Eindopdracht/main.c:158 | a single pressed button `k` reads as guess `k + 1` |
| Game.BitLengthExample | Eindopdracht/main.c:158 | 0b00100000 converts to 6 |
| Game.InputConversion | Eindopdracht/main.c:159-169 | returns the number of binary digits of the input: 0 iff the input is 0, else the `k` with `2^(k-1) <= input < 2^k` |
| Game.RawInputGuess | Eindopdracht/main.c:101-104 | any PINA reading gives a guess from 0 to 8, and 0 exactly when no button is pressed |
| Game.PollGuess | Eindopdracht/main.c:96-111 | stops at the first reading with a button pressed; all earlier readings were idle; the guess is that reading's digit count, from 1 to 8 |
| Game.RandomNumberGenerator | Eindopdracht/main.c:172-176 | the secret number is from 1 to 8 |
| Game.RandomNumberCoverage | Eindopdracht/main.c:172-176 | every number from 1 to 8 can be drawn, and draws repeat every eight values of `rand()` |
| Game.Judge | Eindopdracht/main.c:114-126 | a check mark iff the guess is right; otherwise an up arrow iff the guess is too low |
| Game.VirtualY | Eindopdracht/main.c:185 | the row lit stays within 0-7 |
| Game.Glyph | Eindopdracht/main.c:179-260 | a glyph has eight column masks |
| Game.ArrowDownTable | Eindopdracht/main.c:179-214 | the down arrow's columns are 18 38 70 FF FF 70 38 18 |
| Game.ArrowUpTable | Eindopdracht/main.c:179-214 | the up arrow's columns are 18 1C 0E FF FF 0E 1C 18 |
| Game.CheckTable | Eindopdracht/main.c:216-260 | the check mark's columns are 30 70 E0 E0 70 3C 1F 07 |
| Game.ArrowShape | Eindopdracht/main.c:185-209 | pixel (x, v) of an arrow is lit iff the if-chain selects the loop position whose `virtual_y` is `v` |
| Game.ArrowMirror | Eindopdracht/main.c:185 | the up arrow is the down arrow flipped top to bottom |
| Game.CheckShape | Eindopdracht/main.c:221-255 | pixel (x, y) of the check mark is lit iff the if-chain selects it |
| Game.OrColumns | Eindopdracht/main.c:179-260 | painting over a buffer keeps it at eight columns |
| Game.OrColumnsLights | Eindopdracht/main.c:179-260 | painting only adds pixels: a pixel is lit afterwards iff it was lit before or belongs to the glyph |
| Game.Painting | Eindopdracht/main.c:180-211 | the buffer during painting has eight columns |
| Game.PaintingStart | Eindopdracht/main.c:180-182 | before the first pass the buffer is untouched |
| Game.PaintingStep | Eindopdracht/main.c:182-210 | one inner pass ors one glyph bit into column `x` |
| Game.PaintingNextColumn | Eindopdracht/main.c:180-211 | the end of column `x` is the start of column `x + 1` |
| Game.PaintingDone | Eindopdracht/main.c:180-211 | after both loops the glyph is or-ed into every column |
| Game.PaintOne | Eindopdracht/main.c:188-209 | a pass that sets pixel (x, v) ors its mask into column `x`; a pass that sets nothing leaves the buffer alone |
| Game.TurnOnMatrixLed | Eindopdracht/main.c:262-264 | sets the pixel at the coordinates converted to `uint8_t` |
| Game.ArrowStep | Eindopdracht/main.c:183-209 | one inner pass of `matrix_arrow` ors the arrow's bit for (x, y) into column `x` |
| Game.MatrixArrow | Eindopdracht/main.c:179-214 | ors the arrow into the buffer without clearing anything, then sends one flush of the result |
| Game.CheckStep | Eindopdracht/main.c:221-255 | one inner pass of `matrix_check` ors the check mark's bit for (x, y) into column `x` |
| Game.MatrixCheck | Eindopdracht/main.c:216-260 | ors the check mark into the buffer without clearing anything, then sends one flush of the result |
| Game.ClearMatrix | Eindopdracht/main.c:266-276 | every column is dark afterwards, then one flush is sent |
| Game.InitMatrix | Eindopdracht/main.c:140-144 | sends the bring-up, then two flushes of a dark buffer |
| Game.WelcomeLength | Eindopdracht/main.c:154 | the greeting has eight characters |
| Game.InitLcd | Eindopdracht/main.c:146-156 | PORTC is set to 0, then the controller is set up, cleared and greeted; `cursor` advances by 8 |
| Game.Game.constructor | Eindopdracht/main.c:32-34 | `guess_counter` starts at 0 and `random_number` at -1 |
| Game.Game.StartRound | Eindopdracht/main.c:74-75 | the secret number is drawn from `rand()` and is from 1 to 8 |
| Game.Game.PromptGuess | Eindopdracht/main.c:83-94 | clears the LCD and the matrix, flushes twice, counts the guess and shows the prompt |
| Game.Game.TakeGuess | Eindopdracht/main.c:96-126 | polls for a guess, the round is over iff it is the secret number, and the matrix gets the glyph `Judge` picks, or-ed in and flushed |
| Game.Game.EndRound | Eindopdracht/main.c:48-68 | clears the LCD and the matrix, shows the summary and resets the guess counter |

## Left out

- Register-level I/O is not modelled: `twi_init`, the TWI status busy-waits, `init_board` (DDRA, PORTA, DDRB), DDRC, and the PORTB debug LEDs, including `1 << (random_number - 1)`. The matrix is seen through its bus trace and the LCD through its PORTC writes.
- Timing is not modelled: every `_delay_ms` is left out.
- Inputs from the hardware and the C library are parameters: the successive PINA readings, the value `rand()` returned, and the text `sprintf` produced. The `%d` formatting and the "try"/"tries" choice are not modelled.
- The endless loops of `main` and `play_round` are not modelled as loops. The model gives one step per part of an iteration: `StartRound`, `PromptGuess`, `TakeGuess` and `EndRound`.
- Game.PollGuess: requires that some reading has a button pressed. On an input where no button is ever pressed, the source polls forever.
- Game.InputConversion: requires a non-negative input. The arithmetic shift of a negative `int` never reaches 0, and the only caller passes `PINA ^ 0xFF`, which is 0-255.
- Game.RandomNumberGenerator: requires a non-negative `rand()` value, which the C library guarantees. `RAND_MAX` is not modelled.
- Display.Matrix.Rotl: only the pass of the outer loop with `y == 0` is modelled. That pass covers all eight bytes of `buf`; every later pass indexes past the end of `buf`.
- `displayRotr`, `displayChar` and `displayString` have empty bodies in the source. There is nothing to model, and there is no right rotation.
- `fonts.h` is not part of this model (only the empty `displayChar` would use it). `is_ready_for_input` is never read.
- Game.Game.PromptGuess: `guess_counter` is an unbounded integer. The 16-bit `int` of the target is not modelled.
- Lcd.Lcd.DisplayText: `cursor` is an unbounded integer. The 16-bit `int` of the target is not modelled.
- Lcd.Lcd.SetCursor: `difference` and the loop counter are unbounded integers. The 16-bit `int` of the target is not modelled.
