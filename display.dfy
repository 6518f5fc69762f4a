/** Model of the LED-matrix half of the firmware: the 8x8 frame buffer of one
    HT16K33-driven matrix, its pixel operations, the row rotation, the flush to
    the driver chip and the chip's bring-up, all over an abstract I2C (TWI)
    transport that records what is put on the bus. */
module Display {
  import opened Wrappers

  /** C's `uint8_t`, as used for pixel coordinates. */
  type uint8 = n: int | 0 <= n < 256

  /** `width` is the macro `8 * 1` (one display of eight columns); it is
      unparenthesised in the source, but every use happens to give 8 or 7. */
  const Width: nat := 8 * 1
  const Height: nat := 8
  /** Length of `buf`: `width*height/8` bytes, one per column. */
  const BufSize: nat := Width * Height / 8

  /** I2C address byte of the matrix: 7-bit address 0x74 with the R/W bit clear. */
  const D0Addr: bv8 := (0x70 + 4) << 1

  /** What the transport puts on the bus: a start condition, one transmitted
      byte, or a stop condition. */
  datatype TwiEvent = Start | Tx(data: bv8) | Stop

  // ---------------------------------------------------------------------------
  // Bits of a byte

  /** The byte with only bit `j` set. */
  function Mask(j: nat): bv8
    requires j < 8
  {
    if j == 0 then 0x01 else if j == 1 then 0x02 else if j == 2 then 0x04
    else if j == 3 then 0x08 else if j == 4 then 0x10 else if j == 5 then 0x20
    else if j == 6 then 0x40 else 0x80
  }

  /** Bit `j` of `a`. */
  predicate Bit(a: bv8, j: nat)
    requires j < 8
  {
    a & Mask(j) != 0
  }

  /** Two bytes with the same eight bits are the same byte. */
  lemma BitsInjective(a: bv8, b: bv8)
    requires forall j :: 0 <= j < 8 ==> Bit(a, j) == Bit(b, j)
    ensures a == b
  {
    assert Bit(a, 0) == Bit(b, 0) && Bit(a, 1) == Bit(b, 1);
    assert Bit(a, 2) == Bit(b, 2) && Bit(a, 3) == Bit(b, 3);
    assert Bit(a, 4) == Bit(b, 4) && Bit(a, 5) == Bit(b, 5);
    assert Bit(a, 6) == Bit(b, 6) && Bit(a, 7) == Bit(b, 7);
  }

  // ---------------------------------------------------------------------------
  // The wiring correction of the flush path

  /** The per-byte transform applied just before transmission,
      `(a >> 1) | ((a << 7) & 0x80)`: a one-bit right rotation, bit 0 moving to
      bit 7. (In C `a << 7` is computed in `int`; the mask keeps only bit 7, so
      computing it in eight bits gives the same byte.) */
  function WireRot(a: bv8): (r: bv8)
    ensures Bit(r, 7) == Bit(a, 0)
    ensures forall j :: 0 <= j < 7 ==> Bit(r, j) == Bit(a, j + 1)
  {
    (a >> 1) | ((a << 7) & 0x80)
  }

  /** The inverse of the wiring correction: a one-bit left rotation. */
  function WireRotInv(a: bv8): (r: bv8)
    ensures Bit(r, 0) == Bit(a, 7)
    ensures forall j :: 1 <= j < 8 ==> Bit(r, j) == Bit(a, j - 1)
  {
    (a << 1) | (a >> 7)
  }

  /** The wiring correction is a bijection on bytes. */
  lemma WireRotBijective(a: bv8)
    ensures WireRotInv(WireRot(a)) == a
    ensures WireRot(WireRotInv(a)) == a
  {
    BitsInjective(WireRotInv(WireRot(a)), a);
    BitsInjective(WireRot(WireRotInv(a)), a);
  }

  /** The wiring correction applied `n` times. */
  function WireRotN(a: bv8, n: nat): bv8
  {
    if n == 0 then a else WireRot(WireRotN(a, n - 1))
  }

  /** Eight applications of the wiring correction give back the original byte. */
  lemma WireRotCycle(a: bv8)
    ensures WireRotN(a, 8) == a
  {
    assert WireRotN(a, 1) == WireRot(a);
    assert WireRotN(a, 2) == WireRot(WireRotN(a, 1));
    assert WireRotN(a, 3) == WireRot(WireRotN(a, 2));
    assert WireRotN(a, 4) == WireRot(WireRotN(a, 3));
    assert WireRotN(a, 5) == WireRot(WireRotN(a, 4));
    assert WireRotN(a, 6) == WireRot(WireRotN(a, 5));
    assert WireRotN(a, 7) == WireRot(WireRotN(a, 6));
    assert WireRotN(a, 8) == WireRot(WireRotN(a, 7));
  }

  /** The sequence `s` rotated by one towards its end: the last element comes
      first. */
  function RotateUp<T>(s: seq<T>): (r: seq<T>)
    requires |s| > 0
    ensures |r| == |s|
  {
    [s[|s| - 1]] + s[..|s| - 1]
  }

  /** Images of a few bytes under the correction: it is a one-bit rotation,
      so 0x80 goes to 0x40. */
  lemma WireRotExamples()
    ensures WireRot(0x01) == 0x80 && WireRot(0x80) == 0x40
    ensures WireRot(0x00) == 0x00 && WireRot(0xFF) == 0xFF
  {
  }

  // ---------------------------------------------------------------------------
  // Pixels of the frame buffer

  /** Byte of `buf` holding pixel (x, y): `x + (y / 8) * width`. */
  function ByteIndex(x: nat, y: nat): nat
  {
    x + (y / 8) * Width
  }

  /** Bit of that byte holding pixel (x, y): `1 << (y % 8)`. */
  function PixelMask(y: nat): bv8
  {
    1 << (y % 8)
  }

  predicate InBounds(x: int, y: int)
  {
    0 <= x < Width && 0 <= y < Height
  }

  /** Whether pixel (x, y) is lit in buffer contents `b`. */
  predicate Lit(b: seq<bv8>, x: nat, y: nat)
    requires |b| == BufSize && InBounds(x, y)
  {
    Bit(b[ByteIndex(x, y)], y % 8)
  }

  lemma PixelMaskBit(y: nat, j: nat)
    requires j < 8
    ensures Bit(PixelMask(y), j) == (j == y % 8)
  {
  }

  /** For a row of the display, the pixel's bit is the single-bit mask. */
  lemma PixelMaskIsMask(y: nat)
    requires y < 8
    ensures PixelMask(y) == Mask(y)
  {
  }

  /** Buffer contents after `displaySetPixel(x, y)`. */
  function AfterSetPixel(b: seq<bv8>, x: uint8, y: uint8): (r: seq<bv8>)
    requires |b| == BufSize
    ensures |r| == BufSize
  {
    if x < Width && y < Height then
      b[ByteIndex(x, y) := b[ByteIndex(x, y)] | PixelMask(y)]
    else
      b
  }

  /** In bounds, setting a pixel ors its bit into its column. */
  lemma SetPixelColumn(b: seq<bv8>, x: uint8, y: uint8)
    requires |b| == BufSize && InBounds(x, y)
    ensures AfterSetPixel(b, x, y) == b[x := b[x] | PixelMask(y)]
  {
  }

  /** In bounds, setting a pixel lights exactly that pixel: every other bit of
      its column and every other column keep their value. */
  lemma SetPixelLightsOnlyThatPixel(b: seq<bv8>, x: uint8, y: uint8)
    requires |b| == BufSize && InBounds(x, y)
    ensures forall x', y' :: InBounds(x', y') ==>
      Lit(AfterSetPixel(b, x, y), x', y') == (Lit(b, x', y') || (x' == x && y' == y))
    ensures forall i :: 0 <= i < BufSize && i != x ==> AfterSetPixel(b, x, y)[i] == b[i]
  {
    forall x', y' | InBounds(x', y')
      ensures Lit(AfterSetPixel(b, x, y), x', y') == (Lit(b, x', y') || (x' == x && y' == y))
    {
      PixelMaskBit(y, y');
    }
  }

  /** Out of bounds, setting a pixel changes nothing. */
  lemma SetPixelOutOfBounds(b: seq<bv8>, x: uint8, y: uint8)
    requires |b| == BufSize && !InBounds(x, y)
    ensures AfterSetPixel(b, x, y) == b
  {
  }

  /** Setting the same pixel twice is setting it once. */
  lemma SetPixelIdempotent(b: seq<bv8>, x: uint8, y: uint8)
    requires |b| == BufSize
    ensures AfterSetPixel(AfterSetPixel(b, x, y), x, y) == AfterSetPixel(b, x, y)
  {
  }

  /** Buffer contents after `displayClrPixel(x, y)`, as written: the byte is
      and-ed with `0 << (y % 8)`, which is 0 whatever the shift. */
  function AfterClrPixel(b: seq<bv8>, x: uint8, y: uint8): (r: seq<bv8>)
    requires |b| == BufSize
    ensures |r| == BufSize
  {
    if x < Width && y < Height then
      b[ByteIndex(x, y) := b[ByteIndex(x, y)] & ((0 as bv8) << (y % 8))]
    else
      b
  }

  /** In bounds, clearing one pixel blanks its whole column, whatever `y` is,
      and leaves the other columns alone; out of bounds it changes nothing. */
  lemma ClrPixelBlanksColumn(b: seq<bv8>, x: uint8, y: uint8)
    requires |b| == BufSize
    ensures InBounds(x, y) ==> AfterClrPixel(b, x, y) == b[x := 0]
    ensures InBounds(x, y) ==> forall y' :: 0 <= y' < Height ==> !Lit(AfterClrPixel(b, x, y), x, y')
    ensures !InBounds(x, y) ==> AfterClrPixel(b, x, y) == b
  {
  }

  /** Buffer contents after `displayClr()`: the loop runs while `idx < width - 1`,
      so bytes 0..6 are zeroed and byte 7 is left as it was. */
  function AfterClr(b: seq<bv8>): (r: seq<bv8>)
    requires |b| == BufSize
    ensures |r| == BufSize
  {
    seq(BufSize, i requires 0 <= i < BufSize => ClrByte(b[i], i))
  }

  /** Byte `i` after `displayClr()`, given its value `a` before. */
  function ClrByte(a: bv8, i: nat): bv8
  {
    if i < Width - 1 then 0 else a
  }

  /** After `displayClr()` no pixel of columns 0..6 is lit, while column 7
      still shows exactly what it showed before. */
  lemma ClrLeavesLastColumn(b: seq<bv8>)
    requires |b| == BufSize
    ensures forall x, y :: InBounds(x, y) && x < Width - 1 ==> !Lit(AfterClr(b), x, y)
    ensures forall y :: 0 <= y < Height ==> Lit(AfterClr(b), 7, y) == Lit(b, 7, y)
  {
  }

  // ---------------------------------------------------------------------------
  // Rotation of one row of bytes

  /** Top bit of a byte, moved down to bit 0: `(a & 0x80) >> 7`. */
  function Msb(a: bv8): (c: bv8)
    ensures c == 0 || c == 1
    ensures c == 1 <==> Bit(a, 7)
  {
    (a & 0x80) >> 7
  }

  /** A row after one pass of `displayRotl`'s inner loop and the wrap-around
      `buf[y * width] |= carry`: each byte shifted left by one (in eight bits),
      taking in the top bit of the byte before it; byte 0 takes in the top bit
      of the last byte. */
  function RotlRow(row: seq<bv8>): (r: seq<bv8>)
    requires |row| > 0
    ensures |r| == |row|
  {
    seq(|row|, x requires 0 <= x < |row| =>
      ShiftIn(row[x], if x == 0 then row[|row| - 1] else row[x - 1]))
  }

  /** Byte `a` shifted left by one (in eight bits), taking in the top bit of
      `prev`. */
  function ShiftIn(a: bv8, prev: bv8): (r: bv8)
    ensures Bit(r, 0) == Bit(prev, 7)
    ensures forall j :: 1 <= j < 8 ==> Bit(r, j) == Bit(a, j - 1)
  {
    (a << 1) | Msb(prev)
  }

  /** A row read as one little-endian multi-byte value, bit by bit:
      bit `i` is bit `i % 8` of byte `i / 8`. */
  function RowBits(row: seq<bv8>): (s: seq<bool>)
    ensures |s| == 8 * |row|
  {
    seq(8 * |row|, i requires 0 <= i < 8 * |row| => RowBit(row, i))
  }

  /** Bit `i` of a row: bit `i % 8` of byte `i / 8`. */
  predicate RowBit(row: seq<bv8>, i: nat)
    requires i < 8 * |row|
  {
    if i < 8 then Bit(row[0], i) else RowBit(row[1..], i - 8)
  }

  /** Bit `8 * x + j` of a row is bit `j` of byte `x`. */
  lemma {:induction false} RowBitAt(row: seq<bv8>, x: nat, j: nat)
    requires x < |row| && j < 8
    ensures RowBit(row, 8 * x + j) == Bit(row[x], j)
  {
    if x > 0 {
      RowBitAt(row[1..], x - 1, j);
    }
  }

  /** A row is determined by its bits. */
  lemma RowBitsInjective(a: seq<bv8>, b: seq<bv8>)
    requires |a| == |b| && RowBits(a) == RowBits(b)
    ensures a == b
  {
    forall x | 0 <= x < |a| ensures a[x] == b[x] {
      forall j | 0 <= j < 8 ensures Bit(a[x], j) == Bit(b[x], j) {
        var i := 8 * x + j;
        RowBitAt(a, x, j);
        RowBitAt(b, x, j);
        assert RowBits(a)[i] == RowBits(b)[i];
      }
      BitsInjective(a[x], b[x]);
    }
  }

  /** `displayRotl` on a row is a circular one-bit left rotation of the row read
      as a little-endian value: bit `i` moves to bit `i + 1` and the top bit of
      the last byte wraps around to bit 0 of byte 0. */
  lemma RotlRowRotatesBits(row: seq<bv8>)
    requires |row| > 0
    ensures RowBits(RotlRow(row)) == RotateUp(RowBits(row))
  {
    forall i | 0 <= i < 8 * |row|
      ensures RowBits(RotlRow(row))[i] == RotateUp(RowBits(row))[i]
    {
      SplitIndex(i);
      RotlRowBit(row, i / 8, i % 8);
    }
  }

  /** Bit `j` of byte `x` of a rotated row is the bit just below it in the
      row, and bit 0 of byte 0 is the row's last bit. */
  lemma RotlRowBit(row: seq<bv8>, x: nat, j: nat)
    requires x < |row| && j < 8
    ensures RowBits(RotlRow(row))[8 * x + j] == RotateUp(RowBits(row))[8 * x + j]
  {
    var n, i := 8 * |row|, 8 * x + j;
    if i == 0 {
      assert RotateUp(RowBits(row))[i] == RowBits(row)[n - 1];
      RotlRowWrapBit(row);
    } else {
      assert RotateUp(RowBits(row))[i] == RowBits(row)[i - 1];
      if j == 0 {
        RotlRowCarryBit(row, x);
      } else {
        RotlRowInnerBit(row, x, j);
      }
    }
  }

  /** Bit 0 of a rotated row is the top bit of its last byte. */
  lemma RotlRowWrapBit(row: seq<bv8>)
    requires |row| > 0
    ensures RowBits(RotlRow(row))[0] == RowBits(row)[8 * |row| - 1]
  {
    RowBitAt(RotlRow(row), 0, 0);
    RowBitAt(row, |row| - 1, 7);
    ShiftInBit(row[0], row[|row| - 1], 0);
  }

  /** Bit 0 of byte `x > 0` of a rotated row is the top bit of byte `x - 1`. */
  lemma RotlRowCarryBit(row: seq<bv8>, x: nat)
    requires 0 < x < |row|
    ensures RowBits(RotlRow(row))[8 * x] == RowBits(row)[8 * x - 1]
  {
    RowBitAt(RotlRow(row), x, 0);
    RowBitAt(row, x - 1, 7);
    ShiftInBit(row[x], row[x - 1], 0);
  }

  /** Bit `j > 0` of byte `x` of a rotated row is bit `j - 1` of the same byte. */
  lemma RotlRowInnerBit(row: seq<bv8>, x: nat, j: nat)
    requires x < |row| && 0 < j < 8
    ensures RowBits(RotlRow(row))[8 * x + j] == RowBits(row)[8 * x + j - 1]
  {
    RowBitAt(RotlRow(row), x, j);
    RowBitAt(row, x, j - 1);
    ShiftInBit(row[x], if x == 0 then row[|row| - 1] else row[x - 1], j);
  }

  /** Shifting in a zero and then or-ing in the carry is shifting in the carry. */
  lemma ShiftInCarry(a: bv8, prev: bv8)
    ensures ShiftIn(a, 0) | Msb(prev) == ShiftIn(a, prev)
  {
  }

  lemma ShiftInBit(a: bv8, prev: bv8, j: nat)
    requires j < 8
    ensures Bit(ShiftIn(a, prev), j) == if j == 0 then Bit(prev, 7) else Bit(a, j - 1)
  {
  }

  /** Every index splits into a byte and a bit within it. */
  lemma SplitIndex(i: nat)
    ensures i == 8 * (i / 8) + i % 8 && i % 8 < 8
  {
  }

  /** Number of true entries of a sequence of bits. */
  function CountLit(s: seq<bool>): nat
  {
    if s == [] then 0 else (if s[0] then 1 else 0) + CountLit(s[1..])
  }

  lemma {:induction false} CountLitAppend(s: seq<bool>, t: seq<bool>)
    ensures CountLit(s + t) == CountLit(s) + CountLit(t)
  {
    if s == [] {
      assert s + t == t;
    } else {
      assert (s + t)[1..] == s[1..] + t;
      CountLitAppend(s[1..], t);
    }
  }

  /** Rotating a row lights exactly as many pixels as were lit before. */
  lemma RotlRowKeepsLitCount(row: seq<bv8>)
    requires |row| > 0
    ensures CountLit(RowBits(RotlRow(row))) == CountLit(RowBits(row))
  {
    var s := RowBits(row);
    var n := |s|;
    RotlRowRotatesBits(row);
    CountLitAppend([s[n - 1]], s[..n - 1]);
    CountLitAppend(s[..n - 1], [s[n - 1]]);
    assert s[..n - 1] + [s[n - 1]] == s;
  }

  /** `RotlRow` applied `k` times. */
  function RotlRowN(row: seq<bv8>, k: nat): (r: seq<bv8>)
    requires |row| > 0
    ensures |r| == |row|
  {
    if k == 0 then row else RotlRow(RotlRowN(row, k - 1))
  }

  /** The sequence `s` rotated by `k` towards its end. */
  function RotateUpBy<T>(s: seq<T>, k: nat): (r: seq<T>)
    requires k <= |s|
    ensures |r| == |s|
  {
    s[|s| - k..] + s[..|s| - k]
  }

  lemma RotateUpStep<T>(s: seq<T>, k: nat)
    requires k < |s|
    ensures RotateUp(RotateUpBy(s, k)) == RotateUpBy(s, k + 1)
  {
    var n := |s|;
    var r := RotateUpBy(s, k);
    forall i | 0 <= i < n ensures RotateUp(r)[i] == RotateUpBy(s, k + 1)[i] {
      if i == 0 {
        assert RotateUp(r)[0] == r[n - 1];
      } else {
        assert RotateUp(r)[i] == r[i - 1];
      }
    }
  }

  /** After `k` rotations of a row the bits have moved up by `k` places. */
  lemma {:induction false} RotlRowNRotatesBits(row: seq<bv8>, k: nat)
    requires 0 < |row| && k <= 8 * |row|
    ensures RowBits(RotlRowN(row, k)) == RotateUpBy(RowBits(row), k)
  {
    if k == 0 {
      RotlRowNZero(row);
    } else {
      var j := k - 1;
      RotlRowNRotatesBits(row, j);
      RotlRowNStep(row, j);
    }
  }

  lemma RotlRowNZero(row: seq<bv8>)
    requires 0 < |row|
    ensures RowBits(RotlRowN(row, 0)) == RotateUpBy(RowBits(row), 0)
  {
    var s := RowBits(row);
    assert RotateUpBy(s, 0) == s;
  }

  /** One more rotation moves the bits up by one more place. */
  lemma RotlRowNStep(row: seq<bv8>, j: nat)
    requires 0 < |row| && j < 8 * |row|
    requires RowBits(RotlRowN(row, j)) == RotateUpBy(RowBits(row), j)
    ensures RowBits(RotlRowN(row, j + 1)) == RotateUpBy(RowBits(row), j + 1)
  {
    RotlRowRotatesBits(RotlRowN(row, j));
    RotateUpStep(RowBits(row), j);
  }

  /** Rotating a row as many times as it has bits gives the row back. */
  lemma RotlRowCycle(row: seq<bv8>)
    requires |row| > 0
    ensures RotlRowN(row, 8 * |row|) == row
  {
    var s := RowBits(row);
    RotlRowNRotatesBits(row, 8 * |row|);
    assert RotateUpBy(s, |s|) == s;
    RowBitsInjective(RotlRowN(row, 8 * |row|), row);
  }

  // ---------------------------------------------------------------------------
  // What goes on the bus

  /** The column bytes of a flush, two per column: the corrected column byte
      (columns from last to first) and a zero for the driver's unused second
      plane. */
  function FlushData(b: seq<bv8>): (r: seq<TwiEvent>)
    requires |b| == BufSize
    ensures |r| == 16
  {
    seq(16, i requires 0 <= i < 16 => FlushEvent(b, i))
  }

  /** Event `i` of the column part of a flush. */
  function FlushEvent(b: seq<bv8>, i: nat): TwiEvent
    requires |b| == BufSize && i < 16
  {
    if i % 2 == 0 then Tx(WireRot(b[7 - i / 2])) else Tx(0x00)
  }

  /** The one session `display()` sends for buffer contents `b`. */
  function Frame(b: seq<bv8>): (r: seq<TwiEvent>)
    requires |b| == BufSize
    ensures |r| == 20 && r[0] == Start && r[19] == Stop
    ensures forall i :: 0 < i < 19 ==> r[i].Tx?
    ensures r[1] == Tx(D0Addr) && r[2] == Tx(0x00)
    ensures forall idx :: 0 <= idx < 8 ==>
      r[3 + 2 * idx] == Tx(WireRot(b[7 - idx])) && r[4 + 2 * idx] == Tx(0x00)
  {
    [Start, Tx(D0Addr), Tx(0x00)] + FlushData(b) + [Stop]
  }

  /** Whether `t` has the shape of a flush: one session to the display
      address, starting at register 0x00, with a zero after every column. */
  predicate IsFrame(t: seq<TwiEvent>)
  {
    |t| == 20 && t[0] == Start && t[19] == Stop
    && (forall i :: 1 <= i < 19 ==> t[i].Tx?)
    && t[1] == Tx(D0Addr) && t[2] == Tx(0x00)
    && (forall idx :: 0 <= idx < 8 ==> t[4 + 2 * idx] == Tx(0x00))
  }

  /** Byte `x` of the buffer a flush was made from. */
  function FrameColumn(t: seq<TwiEvent>, x: nat): bv8
    requires IsFrame(t) && x < BufSize
  {
    WireRotInv(t[3 + 2 * (7 - x)].data)
  }

  /** Recovers the buffer contents from a flush session, if `t` is one. */
  function DecodeFrame(t: seq<TwiEvent>): (r: Option<seq<bv8>>)
    ensures r.Some? <==> IsFrame(t)
    ensures r.Some? ==> |r.value| == BufSize
  {
    if IsFrame(t) then
      Some(seq(BufSize, x requires 0 <= x < BufSize => FrameColumn(t, x)))
    else
      None
  }

  /** A flush carries the whole buffer: decoding it gives the buffer back. */
  lemma FrameRoundTrip(b: seq<bv8>)
    requires |b| == BufSize
    ensures DecodeFrame(Frame(b)) == Some(b)
  {
    var t := Frame(b);
    FrameIsFrame(b);
    var d := DecodeFrame(t).value;
    forall x | 0 <= x < BufSize ensures d[x] == b[x] {
      FrameColumnBack(b, x);
    }
    assert d == b;
  }

  lemma FrameIsFrame(b: seq<bv8>)
    requires |b| == BufSize
    ensures IsFrame(Frame(b))
  {
  }

  lemma FrameColumnBack(b: seq<bv8>, x: nat)
    requires |b| == BufSize && x < BufSize
    ensures IsFrame(Frame(b)) && FrameColumn(Frame(b), x) == b[x]
  {
    FrameIsFrame(b);
    var t := Frame(b);
    assert t[3 + 2 * (7 - x)] == Tx(WireRot(b[7 - (7 - x)]));
    WireRotBijective(b[x]);
  }

  /** Different buffer contents give different flushes. */
  lemma FrameInjective(a: seq<bv8>, b: seq<bv8>)
    requires |a| == BufSize && |b| == BufSize && Frame(a) == Frame(b)
    ensures a == b
  {
    FrameRoundTrip(a);
    FrameRoundTrip(b);
  }

  /** One more column of a flush, sent after the first `idx`. */
  lemma FlushDataPrefix(t: seq<TwiEvent>, b: seq<bv8>, idx: nat)
    requires |b| == BufSize && idx < 8
    ensures t + [Start, Tx(D0Addr), Tx(0x00)] + FlushData(b)[..2 * idx]
        + [Tx(WireRot(b[7 - idx]))] + [Tx(0x00)]
      == t + [Start, Tx(D0Addr), Tx(0x00)] + FlushData(b)[..2 * idx + 2]
  {
    assert FlushData(b)[..2 * idx + 2]
      == FlushData(b)[..2 * idx] + [Tx(WireRot(b[7 - idx])), Tx(0x00)];
  }

  /** A whole flush, sent event by event after `t`. */
  lemma FrameAppend(t: seq<TwiEvent>, b: seq<bv8>)
    requires |b| == BufSize
    ensures t + [Start, Tx(D0Addr), Tx(0x00)] + FlushData(b)[..16] + [Stop] == t + Frame(b)
  {
    assert FlushData(b)[..16] == FlushData(b);
  }

  /** One session of the HT16K33 bring-up: address, then a single command. */
  function CommandSession(addr: bv8, cmd: bv8): seq<TwiEvent>
  {
    [Start, Tx(addr), Tx(cmd), Stop]
  }

  /** The four sessions of `displayInitHT16K33(addr)`: oscillator on, ROW/INT
      pin as output, dimming 2/16, display on without blinking. */
  function InitSequence(addr: bv8): (r: seq<TwiEvent>)
    ensures |r| == 16
  {
    CommandSession(addr, 0x21) + CommandSession(addr, 0xA0)
      + CommandSession(addr, 0xE1) + CommandSession(addr, 0x81)
  }

  /** A session sent event by event after `t`. */
  lemma SessionAppend(t: seq<TwiEvent>, addr: bv8, cmd: bv8)
    ensures t + [Start] + [Tx(addr)] + [Tx(cmd)] + [Stop] == t + CommandSession(addr, cmd)
  {
  }

  /** The four bring-up sessions sent one after the other after `t`. */
  lemma InitSequenceAppend(t: seq<TwiEvent>, addr: bv8)
    ensures t + CommandSession(addr, 0x21) + CommandSession(addr, 0xA0)
      + CommandSession(addr, 0xE1) + CommandSession(addr, 0x81)
      == t + InitSequence(addr)
  {
  }

  // ---------------------------------------------------------------------------
  // Sessions on the bus never nest or interleave

  /** Follows a bus trace from a state in which a session is open or not:
      `Some(open)` after the trace, or `None` if the trace starts a session
      inside an open one, or transmits or stops outside one. */
  function Scan(t: seq<TwiEvent>, open: bool): Option<bool>
  {
    if t == [] then Some(open)
    else match t[0]
      case Start => if open then None else Scan(t[1..], true)
      case Tx(_) => if open then Scan(t[1..], true) else None
      case Stop => if open then Scan(t[1..], false) else None
  }

  /** A trace made of whole sessions, one after the other. */
  predicate Balanced(t: seq<TwiEvent>)
  {
    Scan(t, false) == Some(false)
  }

  lemma {:induction false} ScanAppend(s: seq<TwiEvent>, t: seq<TwiEvent>, open: bool)
    ensures Scan(s + t, open) == match Scan(s, open) case None => None case Some(o) => Scan(t, o)
  {
    if s != [] {
      assert (s + t)[0] == s[0];
      assert (s + t)[1..] == s[1..] + t;
      match s[0]
      case Start => ScanAppend(s[1..], t, true);
      case Tx(_) => ScanAppend(s[1..], t, true);
      case Stop => ScanAppend(s[1..], t, false);
    } else {
      assert s + t == t;
    }
  }

  /** Whole sessions followed by whole sessions are whole sessions. */
  lemma BalancedAppend(s: seq<TwiEvent>, t: seq<TwiEvent>)
    requires Balanced(s) && Balanced(t)
    ensures Balanced(s + t)
  {
    ScanAppend(s, t, false);
  }

  /** Transmissions inside an open session keep it open. */
  lemma {:induction false} ScanTransmissions(t: seq<TwiEvent>)
    requires forall i :: 0 <= i < |t| ==> t[i].Tx?
    ensures Scan(t, true) == Some(true)
  {
    if t != [] {
      ScanTransmissions(t[1..]);
    }
  }

  /** A session is balanced: one start, transmissions, one stop. */
  lemma SessionBalanced(t: seq<TwiEvent>)
    requires |t| >= 2 && t[0] == Start && t[|t| - 1] == Stop
    requires forall i :: 0 < i < |t| - 1 ==> t[i].Tx?
    ensures Balanced(t)
  {
    var body := t[1..|t| - 1];
    assert t == [Start] + body + [Stop];
    ScanTransmissions(body);
    ScanAppend([Start] + body, [Stop], false);
    ScanAppend([Start], body, false);
  }

  /** A flush is exactly one whole session. */
  lemma FrameBalanced(b: seq<bv8>)
    requires |b| == BufSize
    ensures Balanced(Frame(b))
  {
    SessionBalanced(Frame(b));
  }

  /** The bring-up is four whole sessions. */
  lemma InitSequenceBalanced(addr: bv8)
    ensures Balanced(InitSequence(addr))
  {
    var s1, s2 := CommandSession(addr, 0x21), CommandSession(addr, 0xA0);
    var s3, s4 := CommandSession(addr, 0xE1), CommandSession(addr, 0x81);
    SessionBalanced(s1);
    SessionBalanced(s2);
    SessionBalanced(s3);
    SessionBalanced(s4);
    BalancedAppend(s1, s2);
    BalancedAppend(s1 + s2, s3);
    BalancedAppend(s1 + s2 + s3, s4);
  }

  // ---------------------------------------------------------------------------
  // The display module's state

  /** The process-wide state of display.c: the frame buffer `buf` and the bus
      the driver chip listens on, seen as the trace of what has been sent. */
  class Matrix {
    const buf: array<bv8>
    var trace: seq<TwiEvent>

    /** `buf` has its eight bytes and the bus holds only whole sessions. */
    ghost predicate Valid()
      reads this
    {
      buf.Length == BufSize && Balanced(trace)
    }

    /** A zero-initialised global buffer and a quiet bus. */
    constructor ()
      ensures Valid() && fresh(buf)
      ensures buf[..] == seq(BufSize, _ => 0) && trace == []
    {
      buf := new bv8[BufSize](_ => 0);
      trace := [];
    }

    /** `twi_start()`: a start condition on the bus. */
    method TwiStart()
      modifies this
      ensures trace == old(trace) + [Start]
    {
      trace := trace + [Start];
    }

    /** `twi_tx(data)`: one byte on the bus. */
    method TwiTx(data: bv8)
      modifies this
      ensures trace == old(trace) + [Tx(data)]
    {
      trace := trace + [Tx(data)];
    }

    /** `twi_stop()`: a stop condition on the bus. */
    method TwiStop()
      modifies this
      ensures trace == old(trace) + [Stop]
    {
      trace := trace + [Stop];
    }

    /** `displayInitHT16K33(i2c_address)`: four single-command sessions. */
    method DisplayInitHT16K33(i2cAddress: bv8)
      requires Valid()
      modifies this
      ensures Valid()
      ensures trace == old(trace) + InitSequence(i2cAddress)
    {
      ghost var t0 := trace;
      TwiStart();
      TwiTx(i2cAddress);
      TwiTx(0x21);
      TwiStop();
      SessionAppend(t0, i2cAddress, 0x21);

      ghost var t1 := trace;
      TwiStart();
      TwiTx(i2cAddress);
      TwiTx(0xA0);
      TwiStop();
      SessionAppend(t1, i2cAddress, 0xA0);

      ghost var t2 := trace;
      TwiStart();
      TwiTx(i2cAddress);
      TwiTx(0xE1);
      TwiStop();
      SessionAppend(t2, i2cAddress, 0xE1);

      ghost var t3 := trace;
      TwiStart();
      TwiTx(i2cAddress);
      TwiTx(0x81);
      TwiStop();
      SessionAppend(t3, i2cAddress, 0x81);

      InitSequenceAppend(old(trace), i2cAddress);
      InitSequenceBalanced(i2cAddress);
      BalancedAppend(old(trace), InitSequence(i2cAddress));
    }

    /** `displayInit()`: brings up the driver chip at the matrix's address. */
    method DisplayInit()
      requires Valid()
      modifies this
      ensures Valid()
      ensures trace == old(trace) + InitSequence(D0Addr)
    {
      DisplayInitHT16K33(D0Addr);
    }

    /** `displaySetPixel(x, y)`. */
    method SetPixel(x: uint8, y: uint8)
      requires Valid()
      modifies buf
      ensures Valid()
      ensures buf[..] == AfterSetPixel(old(buf[..]), x, y)
    {
      if x < Width && y < Height {
        buf[x + (y / 8) * Width] := buf[x + (y / 8) * Width] | (1 << (y % 8));
      }
    }

    /** `displayClrPixel(x, y)`, as written. */
    method ClrPixel(x: uint8, y: uint8)
      requires Valid()
      modifies buf
      ensures Valid()
      ensures buf[..] == AfterClrPixel(old(buf[..]), x, y)
    {
      if x < Width && y < Height {
        buf[x + (y / 8) * Width] := buf[x + (y / 8) * Width] & ((0 as bv8) << (y % 8));
      }
    }

    /** `display()`: one session carrying the whole buffer, which is only read. */
    method Display()
      requires Valid()
      modifies this
      ensures Valid()
      ensures trace == old(trace) + Frame(buf[..])
    {
      TwiStart();
      TwiTx(D0Addr);
      TwiTx(0x00);
      var idx := 0;
      while idx < 8
        invariant 0 <= idx <= 8
        invariant trace == old(trace) + [Start, Tx(D0Addr), Tx(0x00)] + FlushData(buf[..])[..2 * idx]
      {
        var a := buf[7 + 0 * 8 - idx];
        var data := (a >> 1) | ((a << 7) & 0x80);
        TwiTx(data);
        TwiTx(0x00);
        FlushDataPrefix(old(trace), buf[..], idx);
        idx := idx + 1;
      }
      TwiStop();
      FrameAppend(old(trace), buf[..]);
      FrameBalanced(buf[..]);
      BalancedAppend(old(trace), Frame(buf[..]));
    }

    /** `displayRotl()`. Only the pass of the outer loop with `y == 0` is
        modelled: it covers the whole of `buf`, and every later pass indexes
        past its end. */
    method Rotl()
      requires Valid()
      modifies buf
      ensures Valid()
      ensures buf[..] == RotlRow(old(buf[..]))
    {
      ghost var orig := buf[..];
      var carry: bv8 := 0;
      var x := 0;
      while x < Width
        invariant 0 <= x <= Width
        invariant carry == if x == 0 then 0 else Msb(orig[x - 1])
        invariant forall k :: 0 <= k < x ==>
          buf[k] == ShiftIn(orig[k], if k == 0 then 0 else orig[k - 1])
        invariant forall k :: x <= k < Width ==> buf[k] == orig[k]
      {
        var temp := buf[0 * Width + x];
        var nextCarry := (temp & 0x80) >> 7;
        buf[0 * Width + x] := (temp << 1) | carry;
        carry := nextCarry;
        x := x + 1;
      }
      ShiftInCarry(orig[0], orig[Width - 1]);
      buf[0 * Width] := buf[0 * Width] | carry;
      forall k | 0 <= k < Width
        ensures buf[k] == RotlRow(orig)[k]
      {
      }
    }

    /** `displayClr()`, as written: stops one byte short. */
    method Clr()
      requires Valid()
      modifies buf
      ensures Valid()
      ensures buf[..] == AfterClr(old(buf[..]))
    {
      var idx := 0;
      while idx < Width - 1
        invariant 0 <= idx <= Width - 1
        invariant forall k :: 0 <= k < idx ==> buf[k] == 0
        invariant forall k :: idx <= k < BufSize ==> buf[k] == old(buf[k])
      {
        buf[idx] := 0;
        idx := idx + 1;
      }
    }
  }
}
