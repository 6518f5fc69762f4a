/** The guessing game of main.c: a secret number in 1..8 is drawn, the player
    enters guesses on eight push buttons, and the LED matrix answers with an
    up arrow, a down arrow or a check mark while the LCD counts the tries. */
module Game {
  import Display
  import Lcd

  // ---------------------------------------------------------------------------
  // Reading a guess from the buttons

  function Pow2(k: nat): nat
  {
    if k == 0 then 1 else 2 * Pow2(k - 1)
  }

  /** Number of binary digits of `n`, 0 for 0. */
  function BitLength(n: nat): nat
  {
    if n == 0 then 0 else 1 + BitLength(n / 2)
  }

  /** `BitLength(n)` is the `k` with `2^(k-1) <= n < 2^k`, and 0 only for 0. */
  lemma {:induction false} BitLengthBounds(n: nat)
    ensures n == 0 <==> BitLength(n) == 0
    ensures n > 0 ==> Pow2(BitLength(n) - 1) <= n < Pow2(BitLength(n))
  {
    if n > 0 {
      var m := n / 2;
      BitLengthBounds(m);
      if m > 0 {
        var k := BitLength(m);
        assert Pow2(k) == 2 * Pow2(k - 1);
        assert Pow2(k + 1) == 2 * Pow2(k);
      }
    }
  }

  /** A number below `2^k` has at most `k` digits. */
  lemma {:induction false} BitLengthBelow(n: nat, k: nat)
    requires n < Pow2(k)
    ensures BitLength(n) <= k
  {
    if n > 0 {
      BitLengthBelow(n / 2, k - 1);
    }
  }

  /** A single pressed button `k` (value `1 << k`) reads as guess `k + 1`. */
  lemma {:induction false} BitLengthPow2(k: nat)
    ensures BitLength(Pow2(k)) == k + 1
  {
    if k > 0 {
      assert Pow2(k) / 2 == Pow2(k - 1);
      BitLengthPow2(k - 1);
    }
  }

  /** The example of the source's comment: 0b00100000 reads as 6. */
  lemma BitLengthExample()
    ensures BitLength(0x20) == 6
  {
    BitLengthPow2(5);
  }

  /** `input_conversion(input)`: halves `input` until it is 0, counting the
      steps. For a negative input the arithmetic shift never reaches 0, so the
      source needs `input >= 0`. */
  method InputConversion(input: int) returns (result: int)
    requires input >= 0
    ensures result == BitLength(input)
    ensures input == 0 <==> result == 0
    ensures input > 0 ==> Pow2(result - 1) <= input < Pow2(result)
  {
    var n := input;
    result := 0;
    while n != 0
      invariant n >= 0 && result + BitLength(n) == BitLength(input)
      decreases n
    {
      n := n / 2;
      result := result + 1;
    }
    BitLengthBounds(input);
  }

  /** The buttons pull PINA low: a released button reads 1. */
  function RawInput(pina: bv8): nat
  {
    (pina ^ 0xFF) as nat
  }

  /** Any reading of the eight buttons gives a guess in 0..8, and 0 exactly
      when no button is pressed. */
  lemma RawInputGuess(pina: bv8)
    ensures RawInput(pina) < 256
    ensures BitLength(RawInput(pina)) <= 8
    ensures BitLength(RawInput(pina)) == 0 <==> pina == 0xFF
  {
    assert Pow2(8) == 256;
    BitLengthBelow(RawInput(pina), 8);
    BitLengthBounds(RawInput(pina));
  }

  /** The polling loop of `play_round`: `readings` are the successive values of
      PINA. It stops at the first reading with a button pressed; `polls` is how
      many readings it took. */
  method PollGuess(readings: seq<bv8>) returns (guess: int, polls: nat)
    requires exists i :: 0 <= i < |readings| && readings[i] != 0xFF
    ensures 0 < polls <= |readings| && readings[polls - 1] != 0xFF
    ensures forall i :: 0 <= i < polls - 1 ==> readings[i] == 0xFF
    ensures guess == BitLength(RawInput(readings[polls - 1]))
    ensures 1 <= guess <= 8
  {
    polls := 0;
    while true
      invariant polls < |readings|
      invariant forall i :: 0 <= i < polls ==> readings[i] == 0xFF
      invariant exists i :: polls <= i < |readings| && readings[i] != 0xFF
      decreases |readings| - polls
    {
      var rawInput := (readings[polls] ^ 0xFF) as int;
      guess := InputConversion(rawInput);
      RawInputGuess(readings[polls]);
      polls := polls + 1;
      if guess != 0 {
        break;
      }
    }
  }

  // ---------------------------------------------------------------------------
  // Drawing the secret number and judging a guess

  /** `random_number_generator()`, given the value `rand()` returned. */
  function RandomNumberGenerator(rand: int): (r: int)
    requires rand >= 0
    ensures 1 <= r <= 8
  {
    (rand % 8) + 1
  }

  /** Every number 1..8 can be drawn, and draws repeat every eight values of
      `rand()`. */
  lemma RandomNumberCoverage(v: int, rand: int)
    requires 1 <= v <= 8 && rand >= 0
    ensures RandomNumberGenerator(v - 1) == v
    ensures RandomNumberGenerator(rand + 8) == RandomNumberGenerator(rand)
  {
  }

  /** What the matrix shows after a guess. */
  datatype Reaction = Check | Arrow(up: bool)

  /** The decision of `play_round`: a check mark for the secret number, an up
      arrow when the guess is too low, a down arrow when it is too high. */
  function Judge(guess: int, target: int): (r: Reaction)
    ensures r == Check <==> guess == target
    ensures r.Arrow? ==> (r.up <==> guess < target)
  {
    if guess == target then Check
    else if guess > target then Arrow(false)
    else Arrow(true)
  }

  // ---------------------------------------------------------------------------
  // The glyphs

  /** The pixels of the down arrow at loop position (x, y), as the if-chain of
      `matrix_arrow` picks them: the middle columns, the middle rows outside
      the shaft, the outer middle columns below row 3 except the last row,
      and two extra dots. */
  predicate ArrowPixel(x: int, y: int)
  {
    (x == 3 || x == 4)
    || ((y == 3 || y == 4) && (x < 2 || x > 5))
    || ((x == 2 || x == 5) && (y > 3 && y != 7))
    || ((x == 1 || x == 6) && y == 5)
  }

  /** `virtual_y`: the row actually lit, flipped for the up arrow. */
  function VirtualY(isUp: bool, y: nat): (v: nat)
    requires y < 8
    ensures v < 8
  {
    if isUp then 7 - y else y
  }

  /** The pixels of the check mark, as the if-chain of `matrix_check` picks
      them. */
  predicate CheckPixel(x: int, y: int)
  {
    (x == 0 && (y > 3 && y < 6))
    || ((x == 1 || x == 4) && (y > 3 && y != 7))
    || ((x == 2 || x == 3) && y > 4)
    || (x == 5 && (y > 1 && y < 6))
    || (x == 6 && y < 5)
    || (x == 7 && y < 3)
  }

  /** What the inner loop of the painter for reaction `r` adds to column `x`
      at loop position `y`. */
  function GlyphBit(r: Reaction, x: int, y: nat): bv8
    requires y < 8
  {
    match r
    case Check => if CheckPixel(x, y) then Display.Mask(y) else 0
    case Arrow(up) => if ArrowPixel(x, y) then Display.Mask(VirtualY(up, y)) else 0
  }

  /** Column `x` of a glyph after the inner loop's first `n` rows. */
  function GlyphColumn(r: Reaction, x: int, n: nat): bv8
    requires n <= 8
  {
    if n == 0 then 0 else GlyphColumn(r, x, n - 1) | GlyphBit(r, x, n - 1)
  }

  /** The eight column masks of the glyph a reaction paints. */
  function Glyph(r: Reaction): (g: seq<bv8>)
    ensures |g| == 8
  {
    seq(8, x requires 0 <= x < 8 => GlyphColumn(r, x, 8))
  }

  /** The down arrow, column by column. */
  lemma ArrowDownTable()
    ensures Glyph(Arrow(false)) == [0x18, 0x38, 0x70, 0xFF, 0xFF, 0x70, 0x38, 0x18]
  {
    var r := Arrow(false);
    assert GlyphColumn(r, 0, 8) == 0x18;
    assert GlyphColumn(r, 1, 8) == 0x38;
    assert GlyphColumn(r, 2, 8) == 0x70;
    assert GlyphColumn(r, 3, 8) == 0xFF;
    assert GlyphColumn(r, 4, 8) == 0xFF;
    assert GlyphColumn(r, 5, 8) == 0x70;
    assert GlyphColumn(r, 6, 8) == 0x38;
    assert GlyphColumn(r, 7, 8) == 0x18;
  }

  /** The up arrow, column by column. */
  lemma ArrowUpTable()
    ensures Glyph(Arrow(true)) == [0x18, 0x1C, 0x0E, 0xFF, 0xFF, 0x0E, 0x1C, 0x18]
  {
    var r := Arrow(true);
    assert GlyphColumn(r, 0, 8) == 0x18;
    assert GlyphColumn(r, 1, 8) == 0x1C;
    assert GlyphColumn(r, 2, 8) == 0x0E;
    assert GlyphColumn(r, 3, 8) == 0xFF;
    assert GlyphColumn(r, 4, 8) == 0xFF;
    assert GlyphColumn(r, 5, 8) == 0x0E;
    assert GlyphColumn(r, 6, 8) == 0x1C;
    assert GlyphColumn(r, 7, 8) == 0x18;
  }

  /** The check mark, column by column. */
  lemma CheckTable()
    ensures Glyph(Check) == [0x30, 0x70, 0xE0, 0xE0, 0x70, 0x3C, 0x1F, 0x07]
  {
    var r := Check;
    assert GlyphColumn(r, 0, 8) == 0x30;
    assert GlyphColumn(r, 1, 8) == 0x70;
    assert GlyphColumn(r, 2, 8) == 0xE0;
    assert GlyphColumn(r, 3, 8) == 0xE0;
    assert GlyphColumn(r, 4, 8) == 0x70;
    assert GlyphColumn(r, 5, 8) == 0x3C;
    assert GlyphColumn(r, 6, 8) == 0x1F;
    assert GlyphColumn(r, 7, 8) == 0x07;
  }

  /** Pixel (x, v) of an arrow is lit exactly when the loop visits it at a
      position the if-chain selects. */
  lemma ArrowShape(isUp: bool, x: nat, v: nat)
    requires x < 8 && v < 8
    ensures Display.Bit(Glyph(Arrow(isUp))[x], v) <==> ArrowPixel(x, VirtualY(isUp, v))
  {
    ArrowDownTable();
    ArrowUpTable();
  }

  /** The up arrow is the down arrow flipped top to bottom. */
  lemma ArrowMirror(x: nat, y: nat)
    requires x < 8 && y < 8
    ensures Display.Bit(Glyph(Arrow(true))[x], y) == Display.Bit(Glyph(Arrow(false))[x], 7 - y)
  {
    ArrowShape(true, x, y);
    ArrowShape(false, x, 7 - y);
  }

  /** Pixel (x, y) of the check mark is lit exactly where the if-chain says. */
  lemma CheckShape(x: nat, y: nat)
    requires x < 8 && y < 8
    ensures Display.Bit(Glyph(Check)[x], y) <==> CheckPixel(x, y)
  {
    CheckTable();
  }

  /** Buffer `b` with `masks` or-ed into its columns. */
  function OrColumns(b: seq<bv8>, masks: seq<bv8>): (r: seq<bv8>)
    requires |b| == 8 && |masks| == 8
    ensures |r| == 8
  {
    seq(8, i requires 0 <= i < 8 => b[i] | masks[i])
  }

  /** Painting only adds pixels: a pixel is lit afterwards exactly when it
      was lit before or belongs to the glyph. */
  lemma OrColumnsLights(b: seq<bv8>, masks: seq<bv8>, x: nat, y: nat)
    requires |b| == 8 && |masks| == 8 && x < 8 && y < 8
    ensures Display.Bit(OrColumns(b, masks)[x], y)
      <==> Display.Bit(b[x], y) || Display.Bit(masks[x], y)
  {
  }

  // ---------------------------------------------------------------------------
  // Painting on the matrix

  /** Buffer contents while a painter for `r` runs over `orig`, before loop
      position (x, y): columns before `x` are done, column `x` has its first
      `y` rows, the rest is untouched. */
  ghost function Painting(orig: seq<bv8>, r: Reaction, x: nat, y: nat): (b: seq<bv8>)
    requires |orig| == 8 && x <= 8 && y <= 8
    ensures |b| == 8
  {
    seq(8, k requires 0 <= k < 8 => PaintedColumn(orig[k], r, k, x, y))
  }

  ghost function PaintedColumn(a: bv8, r: Reaction, k: nat, x: nat, y: nat): bv8
    requires k < 8 && y <= 8
  {
    if k < x then a | GlyphColumn(r, k, 8) else if k == x then a | GlyphColumn(r, k, y) else a
  }

  lemma PaintingStart(orig: seq<bv8>, r: Reaction)
    requires |orig| == 8
    ensures Painting(orig, r, 0, 0) == orig
  {
    forall k | 0 <= k < 8 ensures Painting(orig, r, 0, 0)[k] == orig[k] {
    }
  }

  /** One pass of the inner loop ors one bit into column `x`. */
  lemma PaintingStep(orig: seq<bv8>, r: Reaction, x: nat, y: nat)
    requires |orig| == 8 && x < 8 && y < 8
    ensures Painting(orig, r, x, y + 1)
      == Painting(orig, r, x, y)[x := Painting(orig, r, x, y)[x] | GlyphBit(r, x, y)]
  {
    var p, q := Painting(orig, r, x, y), Painting(orig, r, x, y + 1);
    forall k | 0 <= k < 8
      ensures q[k] == p[x := p[x] | GlyphBit(r, x, y)][k]
    {
    }
  }

  /** The end of the inner loop for column `x` is the start of column `x + 1`. */
  lemma PaintingNextColumn(orig: seq<bv8>, r: Reaction, x: nat)
    requires |orig| == 8 && x < 8
    ensures Painting(orig, r, x, 8) == Painting(orig, r, x + 1, 0)
  {
    var p, q := Painting(orig, r, x, 8), Painting(orig, r, x + 1, 0);
    forall k | 0 <= k < 8 ensures p[k] == q[k] {
    }
  }

  /** Both loops done: the glyph is or-ed into every column. */
  lemma PaintingDone(orig: seq<bv8>, r: Reaction)
    requires |orig| == 8
    ensures Painting(orig, r, 8, 0) == OrColumns(orig, Glyph(r))
  {
    var p, q := Painting(orig, r, 8, 0), OrColumns(orig, Glyph(r));
    forall k | 0 <= k < 8 ensures p[k] == q[k] {
    }
  }

  /** The effect of one pass of an inner loop that sets pixel (x, v) when
      `lit` holds and does nothing otherwise. */
  lemma PaintOne(before: seq<bv8>, after: seq<bv8>, x: nat, v: nat, lit: bool, bit: bv8)
    requires |before| == 8 && x < 8 && v < 8
    requires after == if lit then Display.AfterSetPixel(before, x, v) else before
    requires bit == if lit then Display.Mask(v) else 0
    ensures after == before[x := before[x] | bit]
  {
    Display.PixelMaskIsMask(v);
    if lit {
      Display.SetPixelColumn(before, x, v);
    } else {
      assert before[x := before[x] | bit] == before;
    }
  }

  /** `turn_on_matrix_led(x, y)`: the `int` coordinates are converted to
      `uint8_t`, that is taken modulo 256. */
  method TurnOnMatrixLed(m: Display.Matrix, x: int, y: int)
    requires m.Valid()
    modifies m.buf
    ensures m.buf[..] == Display.AfterSetPixel(old(m.buf[..]), x % 256, y % 256)
  {
    m.SetPixel(x % 256, y % 256);
  }

  /** `matrix_arrow(is_up)`: ors the arrow into the buffer, clears nothing,
      then flushes. */
  method MatrixArrow(m: Display.Matrix, isUp: bool)
    requires m.Valid()
    modifies m, m.buf
    ensures m.Valid()
    ensures m.buf[..] == OrColumns(old(m.buf[..]), Glyph(Arrow(isUp)))
    ensures m.trace == old(m.trace) + Display.Frame(m.buf[..])
  {
    ghost var orig := m.buf[..];
    ghost var r := Arrow(isUp);
    PaintingStart(orig, r);
    for x := 0 to 8
      invariant m.Valid() && m.trace == old(m.trace)
      invariant m.buf[..] == Painting(orig, r, x, 0)
    {
      for y := 0 to 8
        invariant m.Valid() && m.trace == old(m.trace)
        invariant m.buf[..] == Painting(orig, r, x, y)
      {
        ArrowStep(m, isUp, x, y);
        PaintingStep(orig, r, x, y);
      }
      PaintingNextColumn(orig, r, x);
    }
    PaintingDone(orig, r);
    m.Display();
  }

  /** One pass of the inner loop of `matrix_arrow`: the if-chain that lights
      the pixel of loop position (x, y) in row `virtual_y`. */
  method ArrowStep(m: Display.Matrix, isUp: bool, x: nat, y: nat)
    requires m.Valid() && x < 8 && y < 8
    modifies m.buf
    ensures m.buf[..] == old(m.buf[..])[x := old(m.buf[x]) | GlyphBit(Arrow(isUp), x, y)]
  {
    ghost var before := m.buf[..];
    var virtualY := VirtualY(isUp, y);
    ghost var bit := GlyphBit(Arrow(isUp), x, y);
    assert bit == if ArrowPixel(x, y) then Display.Mask(virtualY) else 0;
    if x == 3 || x == 4 {
      m.SetPixel(x, virtualY);
    } else if (y == 3 || y == 4) && (x < 2 || x > 5) {
      m.SetPixel(x, virtualY);
    } else if (x == 2 || x == 5) && (y > 3 && y != 7) {
      m.SetPixel(x, virtualY);
    } else if (x == 1 || x == 6) && y == 5 {
      m.SetPixel(x, virtualY);
    }
    PaintOne(before, m.buf[..], x, virtualY, ArrowPixel(x, y), bit);
  }

  /** `matrix_check()`: ors the check mark into the buffer, clears nothing,
      then flushes. */
  method MatrixCheck(m: Display.Matrix)
    requires m.Valid()
    modifies m, m.buf
    ensures m.Valid()
    ensures m.buf[..] == OrColumns(old(m.buf[..]), Glyph(Check))
    ensures m.trace == old(m.trace) + Display.Frame(m.buf[..])
  {
    ghost var orig := m.buf[..];
    PaintingStart(orig, Check);
    for x := 0 to 8
      invariant m.Valid() && m.trace == old(m.trace)
      invariant m.buf[..] == Painting(orig, Check, x, 0)
    {
      for y := 0 to 8
        invariant m.Valid() && m.trace == old(m.trace)
        invariant m.buf[..] == Painting(orig, Check, x, y)
      {
        CheckStep(m, x, y);
        PaintingStep(orig, Check, x, y);
      }
      PaintingNextColumn(orig, Check, x);
    }
    PaintingDone(orig, Check);
    m.Display();
  }

  /** One pass of the inner loop of `matrix_check`: the if-chain that lights
      pixel (x, y) of the check mark. */
  method CheckStep(m: Display.Matrix, x: nat, y: nat)
    requires m.Valid() && x < 8 && y < 8
    modifies m.buf
    ensures m.buf[..] == old(m.buf[..])[x := old(m.buf[x]) | GlyphBit(Check, x, y)]
  {
    ghost var before := m.buf[..];
    assert x % 256 == x && y % 256 == y;
    if x == 0 && (y > 3 && y < 6) {
      TurnOnMatrixLed(m, x, y);
    } else if (x == 1 || x == 4) && (y > 3 && y != 7) {
      TurnOnMatrixLed(m, x, y);
    } else if (x == 2 || x == 3) && y > 4 {
      TurnOnMatrixLed(m, x, y);
    } else if x == 5 && (y > 1 && y < 6) {
      TurnOnMatrixLed(m, x, y);
    } else if x == 6 && y < 5 {
      TurnOnMatrixLed(m, x, y);
    } else if x == 7 && y < 3 {
      TurnOnMatrixLed(m, x, y);
    }
    PaintOne(before, m.buf[..], x, y, CheckPixel(x, y), GlyphBit(Check, x, y));
  }

  /** `clear_matrix()`: clears every pixel, which blanks every column
      (including the last one, which `displayClr` would miss), then flushes. */
  method ClearMatrix(m: Display.Matrix)
    requires m.Valid()
    modifies m, m.buf
    ensures m.Valid()
    ensures forall k :: 0 <= k < 8 ==> m.buf[k] == 0
    ensures m.trace == old(m.trace) + Display.Frame(m.buf[..])
  {
    for x := 0 to 8
      invariant m.Valid() && m.trace == old(m.trace)
      invariant forall k :: 0 <= k < x ==> m.buf[k] == 0
    {
      for y := 0 to 8
        invariant m.Valid() && m.trace == old(m.trace)
        invariant forall k :: 0 <= k < x ==> m.buf[k] == 0
        invariant y > 0 ==> m.buf[x] == 0
      {
        m.ClrPixel(x, y);
      }
    }
    m.Display();
  }

  // ---------------------------------------------------------------------------
  // Bring-up

  /** `init_matrix()`: brings up the driver chip, blanks the buffer and
      flushes it (`clear_matrix` and then `display`, so twice). */
  method InitMatrix(m: Display.Matrix)
    requires m.Valid()
    modifies m, m.buf
    ensures m.Valid()
    ensures forall k :: 0 <= k < 8 ==> m.buf[k] == 0
    ensures m.trace == old(m.trace) + Display.InitSequence(Display.D0Addr)
      + Display.Frame(m.buf[..]) + Display.Frame(m.buf[..])
  {
    m.DisplayInit();
    ClearMatrix(m);
    m.Display();
  }

  /** The greeting `init_lcd` shows, NUL-terminated. */
  const Welcome: seq<bv8> := [0x57, 0x65, 0x6C, 0x63, 0x6F, 0x6D, 0x65, 0x21, 0]

  /** The greeting has eight characters. */
  lemma WelcomeLength()
    ensures 0 in Welcome && Lcd.CStrLen(Welcome) == 8
  {
    assert Welcome[8] == 0;
  }

  /** `init_lcd()`: PORTC low, the controller set up, the display cleared and
      the greeting shown; every greeting character advances `cursor`. */
  method InitLcd(l: Lcd.Lcd)
    modifies l
    ensures l.Valid()
    ensures l.writes == old(l.writes) + [0x00] + Lcd.InitWrites(Lcd.InitNibble)
      + Lcd.Encode([Lcd.Command(Lcd.FunctionSet), Lcd.Command(Lcd.DisplayOn), Lcd.Command(Lcd.EntryMode)])
      + Lcd.Encode([Lcd.Command(Lcd.ClearDisplay)])
      + Lcd.Encode(Lcd.TextTransfers(Welcome[..8]))
    ensures l.cursor == old(l.cursor) + 8
  {
    l.SetPortC(0x00);
    l.Init();
    l.LcdClear();
    WelcomeLength();
    l.DisplayText(Welcome);
  }

  // ---------------------------------------------------------------------------
  // The game's state

  /** The globals of main.c, with the display and LCD state they drive. */
  class Game {
    const matrix: Display.Matrix
    const lcd: Lcd.Lcd
    var guessCounter: int
    var randomNumber: int

    ghost predicate Valid()
      reads this, matrix, lcd
    {
      matrix.Valid() && lcd.Valid()
    }

    /** The initial values `guess_counter = 0` and `random_number = -1`. */
    constructor (matrix: Display.Matrix, lcd: Lcd.Lcd)
      requires matrix.Valid() && lcd.Valid()
      ensures Valid() && this.matrix == matrix && this.lcd == lcd
      ensures guessCounter == 0 && randomNumber == -1
    {
      this.matrix := matrix;
      this.lcd := lcd;
      guessCounter := 0;
      randomNumber := -1;
    }

    /** Start of `play_round`: draw the secret number from the value `rand()`
        returned. */
    method StartRound(rand: int)
      requires rand >= 0
      modifies this
      ensures randomNumber == RandomNumberGenerator(rand) && 1 <= randomNumber <= 8
      ensures guessCounter == old(guessCounter)
    {
      randomNumber := RandomNumberGenerator(rand);
    }

    /** Top of the guess loop of `play_round`: clear the LCD and the matrix,
        flush again, count the guess and show `prompt` (the text `sprintf`
        made of the count). */
    method PromptGuess(prompt: seq<bv8>)
      requires Valid() && 0 in prompt
      modifies this, matrix, matrix.buf, lcd
      ensures Valid()
      ensures guessCounter == old(guessCounter) + 1 && randomNumber == old(randomNumber)
      ensures forall k :: 0 <= k < 8 ==> matrix.buf[k] == 0
      ensures matrix.trace
        == old(matrix.trace) + Display.Frame(matrix.buf[..]) + Display.Frame(matrix.buf[..])
      ensures lcd.writes == old(lcd.writes) + Lcd.Encode([Lcd.Command(Lcd.ClearDisplay)])
        + Lcd.Encode(Lcd.TextTransfers(prompt[..Lcd.CStrLen(prompt)]))
      ensures lcd.cursor == old(lcd.cursor) + Lcd.CStrLen(prompt)
    {
      lcd.LcdClear();
      ClearMatrix(matrix);
      matrix.Display();
      guessCounter := guessCounter + 1;
      lcd.DisplayText(prompt);
    }

    /** Rest of the guess loop: poll the buttons, then show the check mark and
        end the round, or show the arrow towards the secret number. */
    method TakeGuess(readings: seq<bv8>) returns (guess: int, polls: nat, roundOver: bool)
      requires Valid()
      requires exists i :: 0 <= i < |readings| && readings[i] != 0xFF
      modifies matrix, matrix.buf
      ensures Valid()
      ensures 0 < polls <= |readings| && readings[polls - 1] != 0xFF
      ensures forall i :: 0 <= i < polls - 1 ==> readings[i] == 0xFF
      ensures guess == BitLength(RawInput(readings[polls - 1])) && 1 <= guess <= 8
      ensures roundOver <==> guess == randomNumber
      ensures matrix.buf[..] == OrColumns(old(matrix.buf[..]), Glyph(Judge(guess, randomNumber)))
      ensures matrix.trace == old(matrix.trace) + Display.Frame(matrix.buf[..])
    {
      guess, polls := PollGuess(readings);
      if guess == randomNumber {
        MatrixCheck(matrix);
        roundOver := true;
      } else if guess > randomNumber {
        MatrixArrow(matrix, false);
        roundOver := false;
      } else {
        MatrixArrow(matrix, true);
        roundOver := false;
      }
    }

    /** What `main` does after a round: clear the LCD and the matrix, show
        `summary` (the text `sprintf` made of the count) and reset the
        counter. */
    method EndRound(summary: seq<bv8>)
      requires Valid() && 0 in summary
      modifies this, matrix, matrix.buf, lcd
      ensures Valid()
      ensures guessCounter == 0 && randomNumber == old(randomNumber)
      ensures forall k :: 0 <= k < 8 ==> matrix.buf[k] == 0
      ensures matrix.trace == old(matrix.trace) + Display.Frame(matrix.buf[..])
      ensures lcd.writes == old(lcd.writes) + Lcd.Encode([Lcd.Command(Lcd.ClearDisplay)])
        + Lcd.Encode(Lcd.TextTransfers(summary[..Lcd.CStrLen(summary)]))
      ensures lcd.cursor == old(lcd.cursor) + Lcd.CStrLen(summary)
    {
      lcd.LcdClear();
      ClearMatrix(matrix);
      lcd.DisplayText(summary);
      guessCounter := 0;
    }
  }
}
