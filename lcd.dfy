/** The character LCD of lcd.c: an HD44780-style controller on PORTC in
    4-bit mode. Every byte goes out as two nibbles on PORTC bits 4-7, each
    latched by raising and lowering the enable line (bit `LcdE`); the
    register-select line (bit `LcdRs`) is raised for character data. */
module Lcd {
  import opened Wrappers

  /** PORTC pin of the enable line and of the register-select line. */
  const LcdE: bv8 := 3
  const LcdRs: bv8 := 2

  const EBit: bv8 := 1 << LcdE
  const RsBit: bv8 := 1 << LcdRs

  /** Controller commands used by lcd.c. */
  const InitNibble: bv8 := 0x20
  const FunctionSet: bv8 := 0x28
  const DisplayOn: bv8 := 0x0C
  const EntryMode: bv8 := 0x06
  const ClearDisplay: bv8 := 0x01
  const ShiftRight: bv8 := 0x14
  const ShiftLeft: bv8 := 0x10

  /** One byte handed to the controller: a command (RS low) or a character
      (RS high). */
  datatype Transfer = Command(b: bv8) | Data(b: bv8)

  // ---------------------------------------------------------------------------
  // The values written to PORTC

  /** The high nibble of `b`, in place on bits 4-7. */
  function HighNibble(b: bv8): bv8 { b & 0xF0 }

  /** The low nibble of `b`, moved up to bits 4-7. */
  function LowNibble(b: bv8): bv8 { (b << 4) & 0xF0 }

  /** The controller puts the byte back together from the two nibbles. */
  lemma NibblesReassemble(b: bv8)
    ensures HighNibble(b) | (LowNibble(b) >> 4) == b
    ensures HighNibble(b) & 0x0F == 0 && LowNibble(b) & 0x0F == 0
  {
  }

  /** A strobe of value `v`: `v` with the enable line high, then low. */
  function Strobe(v: bv8): seq<bv8>
  {
    [v | EBit, v]
  }

  /** `writeInitCommand_strobe_e(b)`: the high nibble only. */
  function InitWrites(b: bv8): (r: seq<bv8>)
    ensures |r| == 2
  {
    Strobe(HighNibble(b))
  }

  /** The register-select line for a transfer: high for data. */
  function RsOf(t: Transfer): bv8
  {
    if t.Data? then RsBit else 0
  }

  /** The four PORTC values of one transfer: high nibble, then low nibble,
      each strobed, with RS high throughout for data. */
  function Writes(t: Transfer): (r: seq<bv8>)
    ensures |r| == 4
  {
    Strobe(HighNibble(t.b) | RsOf(t)) + Strobe(LowNibble(t.b) | RsOf(t))
  }

  /** The PORTC values of a run of transfers, one after the other. */
  function Encode(ts: seq<Transfer>): (r: seq<bv8>)
    ensures |r| == 4 * |ts|
  {
    if ts == [] then [] else Writes(ts[0]) + Encode(ts[1..])
  }

  /** An init nibble is the first half of the command with the same byte. */
  lemma InitIsHighHalf(b: bv8)
    ensures InitWrites(b) == Writes(Command(b))[..2]
  {
  }

  /** The enable line is high on the first write of each nibble and low on
      the second, RS is high exactly for data, the data lines carry the
      nibbles, and bits 0-1 of PORTC stay low. */
  lemma WritesShape(t: Transfer)
    ensures var w := Writes(t);
      w[0] & EBit != 0 && w[2] & EBit != 0 && w[1] & EBit == 0 && w[3] & EBit == 0
      && (forall k :: 0 <= k < 4 ==> (w[k] & RsBit != 0 <==> t.Data?))
      && (forall k :: 0 <= k < 4 ==> w[k] & 0x03 == 0)
      && w[1] & 0xF0 == HighNibble(t.b) && w[3] & 0xF0 == LowNibble(t.b)
  {
    var w := Writes(t);
    WritesList(t);
  }

  /** One transfer, sent as four single writes after `w`. */
  lemma EncodeOne(w: seq<bv8>, t: Transfer)
    ensures w + [HighNibble(t.b) | RsOf(t) | EBit] + [HighNibble(t.b) | RsOf(t)]
        + [LowNibble(t.b) | RsOf(t) | EBit] + [LowNibble(t.b) | RsOf(t)]
      == w + Encode([t])
  {
    var rs := RsOf(t);
    EncodeSingle(t);
    WritesList(t);
    AppendFour(w, HighNibble(t.b) | rs | EBit, HighNibble(t.b) | rs,
      LowNibble(t.b) | rs | EBit, LowNibble(t.b) | rs);
  }

  lemma WritesList(t: Transfer)
    ensures Writes(t) == [HighNibble(t.b) | RsOf(t) | EBit, HighNibble(t.b) | RsOf(t),
        LowNibble(t.b) | RsOf(t) | EBit, LowNibble(t.b) | RsOf(t)]
  {
  }

  lemma EncodeSingle(t: Transfer)
    ensures Encode([t]) == Writes(t)
  {
    assert [t][1..] == [];
  }

  lemma AppendFour(w: seq<bv8>, a: bv8, b: bv8, c: bv8, d: bv8)
    ensures w + [a] + [b] + [c] + [d] == w + [a, b, c, d]
  {
  }

  /** Lowering the enable line after raising it leaves `v` on the port when
      `v` itself has the line low. */
  lemma StrobeRelease(v: bv8)
    requires v & EBit == 0
    ensures (v | EBit) & !EBit == v
  {
  }

  lemma {:induction false} EncodeAppend(s: seq<Transfer>, t: seq<Transfer>)
    ensures Encode(s + t) == Encode(s) + Encode(t)
  {
    if s == [] {
      assert s + t == t;
    } else {
      assert (s + t)[0] == s[0];
      assert (s + t)[1..] == s[1..] + t;
      EncodeAppend(s[1..], t);
    }
  }

  // ---------------------------------------------------------------------------
  // What the controller reads back

  /** The transfer four PORTC values carry, if they are one. */
  function DecodeOne(g: seq<bv8>): (r: Option<Transfer>)
    requires |g| == 4
  {
    var rs := g[1] & 0x0F;
    if (rs == 0 || rs == RsBit) && g[3] & 0x0F == rs
       && g[0] == g[1] | EBit && g[2] == g[3] | EBit
    then
      var b := (g[1] & 0xF0) | (g[3] >> 4);
      Some(if rs == 0 then Command(b) else Data(b))
    else
      None
  }

  /** The transfers a run of PORTC values carries, if it is made of them. */
  function Decode(w: seq<bv8>): (r: Option<seq<Transfer>>)
    decreases |w|
  {
    if w == [] then Some([])
    else if |w| < 4 then None
    else match DecodeOne(w[..4])
      case None => None
      case Some(t) =>
        match Decode(w[4..])
        case None => None
        case Some(ts) => Some([t] + ts)
  }

  lemma DecodeOneWrites(t: Transfer)
    ensures DecodeOne(Writes(t)) == Some(t)
  {
    var w := Writes(t);
    WritesShape(t);
    NibblesReassemble(t.b);
    WritesList(t);
    assert w[1] & 0x0F == RsOf(t);
  }

  lemma WritesDecodeOne(g: seq<bv8>)
    requires |g| == 4 && DecodeOne(g).Some?
    ensures Writes(DecodeOne(g).value) == g
  {
    var b := (g[1] & 0xF0) | (g[3] >> 4);
    NibblesRebuild(g[1], g[3]);
    NibbleSplit(g[1]);
    NibbleSplit(g[3]);
    if g[1] & 0x0F == 0 {
      WritesSpelled(Command(b), g);
    } else {
      WritesSpelled(Data(b), g);
    }
  }

  /** `Writes(t)` is `g` when the nibble values of `g` are those of `t`. */
  lemma WritesSpelled(t: Transfer, g: seq<bv8>)
    requires |g| == 4
    requires g[1] == HighNibble(t.b) | RsOf(t) && g[3] == LowNibble(t.b) | RsOf(t)
      && g[0] == g[1] | EBit && g[2] == g[3] | EBit
    ensures Writes(t) == g
  {
  }

  lemma NibblesRebuild(h: bv8, l: bv8)
    ensures HighNibble((h & 0xF0) | (l >> 4)) == h & 0xF0
    ensures LowNibble((h & 0xF0) | (l >> 4)) == l & 0xF0
  {
  }

  lemma NibbleSplit(x: bv8)
    ensures x == (x & 0xF0) | (x & 0x0F)
  {
  }

  /** The controller reads back exactly the transfers that were sent. */
  lemma {:induction false} DecodeEncode(ts: seq<Transfer>)
    ensures Decode(Encode(ts)) == Some(ts)
  {
    if ts != [] {
      var w := Encode(ts);
      assert w[..4] == Writes(ts[0]);
      assert w[4..] == Encode(ts[1..]);
      DecodeOneWrites(ts[0]);
      DecodeEncode(ts[1..]);
      assert [ts[0]] + ts[1..] == ts;
    }
  }

  /** Whatever decodes is the encoding of what it decodes to. */
  lemma {:induction false} EncodeDecode(w: seq<bv8>)
    requires Decode(w).Some?
    ensures Encode(Decode(w).value) == w
    decreases |w|
  {
    if w != [] {
      var ts := Decode(w).value;
      WritesDecodeOne(w[..4]);
      EncodeDecode(w[4..]);
      assert ts[0] == DecodeOne(w[..4]).value;
      assert ts[1..] == Decode(w[4..]).value;
      assert w == w[..4] + w[4..];
    }
  }

  // ---------------------------------------------------------------------------
  // Strings and cursor moves

  /** Length of a NUL-terminated string: the index of its first zero. */
  function CStrLen(s: seq<bv8>): (n: nat)
    requires 0 in s
    ensures n < |s| && s[n] == 0
    ensures forall k :: 0 <= k < n ==> s[k] != 0
  {
    if s[0] == 0 then 0 else 1 + CStrLen(s[1..])
  }

  /** One data transfer per character of `s`, in order. */
  function TextTransfers(s: seq<bv8>): (r: seq<Transfer>)
    ensures |r| == |s|
    ensures forall k :: 0 <= k < |s| ==> r[k] == Data(s[k])
  {
    if s == [] then [] else [Data(s[0])] + TextTransfers(s[1..])
  }

  /** The one-place cursor move to the right or to the left. */
  function Shift(right: bool): Transfer
  {
    Command(if right then ShiftRight else ShiftLeft)
  }

  /** `n` moves of the cursor in one direction. */
  function Moves(right: bool, n: nat): (r: seq<Transfer>)
    ensures |r| == n
  {
    if n == 0 then [] else Moves(right, n - 1) + [Shift(right)]
  }

  /** The moves `set_cursor(position)` sends when the cursor counter is
      `cursor`. */
  function CursorMoves(cursor: int, position: int): seq<Transfer>
  {
    var difference := position - (cursor + 1);
    if difference > 0 then Moves(true, difference) else Moves(false, -difference)
  }

  /** How far one transfer moves the cursor. */
  function Step(t: Transfer): int
  {
    if t == Shift(true) then 1 else if t == Shift(false) then -1 else 0
  }

  /** How far a run of transfers moves the cursor: right is +1, left is -1. */
  function Net(ts: seq<Transfer>): int
  {
    if ts == [] then 0
    else Step(ts[0]) + Net(ts[1..])
  }

  lemma {:induction false} NetAppend(s: seq<Transfer>, t: seq<Transfer>)
    ensures Net(s + t) == Net(s) + Net(t)
  {
    if s == [] {
      assert s + t == t;
    } else {
      assert (s + t)[0] == s[0];
      assert (s + t)[1..] == s[1..] + t;
      NetAppend(s[1..], t);
    }
  }

  lemma {:induction false} MovesNet(right: bool, n: nat)
    ensures Net(Moves(right, n)) == if right then n as int else -(n as int)
    ensures forall k :: 0 <= k < n ==> Moves(right, n)[k] == Shift(right)
  {
    if n > 0 {
      MovesNet(right, n - 1);
      NetAppend(Moves(right, n - 1), [Shift(right)]);
    }
  }

  /** `set_cursor(position)` moves the controller's cursor by exactly
      `position - (cursor + 1)` places, all in one direction, and sends
      nothing when that is zero. */
  lemma CursorMovesNet(cursor: int, position: int)
    ensures Net(CursorMoves(cursor, position)) == position - (cursor + 1)
    ensures |CursorMoves(cursor, position)| ==
      if position > cursor + 1 then position - (cursor + 1) else cursor + 1 - position
    ensures forall k :: 0 <= k < |CursorMoves(cursor, position)| ==>
      CursorMoves(cursor, position)[k] == Shift(position > cursor + 1)
  {
    var difference := position - (cursor + 1);
    if difference > 0 {
      MovesNet(true, difference);
    } else {
      MovesNet(false, -difference);
    }
  }

  // ---------------------------------------------------------------------------
  // The driver's state

  /** The state lcd.c works on: the PORTC register, every value ever written
      to it, and the global `cursor` counter. */
  class Lcd {
    var portc: bv8
    var writes: seq<bv8>
    var cursor: int

    /** PORTC holds the last value written to it. */
    ghost predicate Valid()
      reads this
    {
      |writes| > 0 ==> portc == writes[|writes| - 1]
    }

    /** PORTC at its reset value, nothing written yet, `cursor = 0`. */
    constructor ()
      ensures Valid() && portc == 0 && writes == [] && cursor == 0
    {
      portc := 0;
      writes := [];
      cursor := 0;
    }

    /** An assignment to PORTC. */
    method SetPortC(v: bv8)
      modifies this
      ensures portc == v && writes == old(writes) + [v] && cursor == old(cursor)
    {
      portc := v;
      writes := writes + [v];
    }

    /** `writeInitCommand_strobe_e(byte)`. */
    method WriteInitCommand(b: bv8)
      modifies this
      ensures Valid()
      ensures writes == old(writes) + InitWrites(b) && cursor == old(cursor)
    {
      var byte := b & 0xF0;
      SetPortC(byte | EBit);
      SetPortC(portc & !EBit);
    }

    /** `write2NibbleCommand_strobe_e(byte)`. */
    method Write2NibbleCommand(b: bv8)
      modifies this
      ensures Valid()
      ensures writes == old(writes) + Encode([Command(b)]) && cursor == old(cursor)
    {
      var firstNibble := b & 0xF0;
      StrobeRelease(firstNibble);
      SetPortC(firstNibble | EBit);
      SetPortC(portc & !EBit);

      var secondNibble := (b << 4) & 0xF0;
      StrobeRelease(secondNibble);
      SetPortC(secondNibble | EBit);
      SetPortC(portc & !EBit);
      assert secondNibble == LowNibble(b);
      EncodeOne(old(writes), Command(b));
    }

    /** `write2NibbleData_Strobe_E(byte)`. */
    method Write2NibbleData(b: bv8)
      modifies this
      ensures Valid()
      ensures writes == old(writes) + Encode([Data(b)]) && cursor == old(cursor)
    {
      var firstNibble := b & 0xF0;
      firstNibble := firstNibble | RsBit;
      StrobeRelease(firstNibble);
      SetPortC(firstNibble | EBit);
      SetPortC(portc & !EBit);

      var secondNibble := (b << 4) & 0xF0;
      secondNibble := secondNibble & 0xF0;
      secondNibble := secondNibble | RsBit;
      StrobeRelease(secondNibble);
      SetPortC(secondNibble | EBit);
      SetPortC(portc & !EBit);
      assert firstNibble == HighNibble(b) | RsBit;
      assert secondNibble == LowNibble(b) | RsBit;
      EncodeOne(old(writes), Data(b));
    }

    /** `init()`: the 4-bit mode nibble, then function set, display on and
        entry mode. */
    method Init()
      modifies this
      ensures Valid()
      ensures writes == old(writes) + InitWrites(InitNibble)
        + Encode([Command(FunctionSet), Command(DisplayOn), Command(EntryMode)])
      ensures cursor == old(cursor)
    {
      WriteInitCommand(InitNibble);
      ghost var w0 := writes;
      Write2NibbleCommand(FunctionSet);
      Write2NibbleCommand(DisplayOn);
      Write2NibbleCommand(EntryMode);
      EncodeAppend([Command(FunctionSet)], [Command(DisplayOn)]);
      EncodeAppend([Command(FunctionSet), Command(DisplayOn)], [Command(EntryMode)]);
      assert [Command(FunctionSet)] + [Command(DisplayOn)] + [Command(EntryMode)]
        == [Command(FunctionSet), Command(DisplayOn), Command(EntryMode)];
    }

    /** `display_text(str)`: one data transfer per character before the NUL,
        counting each in `cursor`. */
    method DisplayText(str: seq<bv8>)
      requires Valid() && 0 in str
      modifies this
      ensures Valid()
      ensures writes == old(writes) + Encode(TextTransfers(str[..CStrLen(str)]))
      ensures cursor == old(cursor) + CStrLen(str)
    {
      var i := 0;
      while str[i] != 0
        invariant 0 <= i <= CStrLen(str)
        invariant writes == old(writes) + Encode(TextTransfers(str[..i]))
        invariant cursor == old(cursor) + i
        invariant Valid()
        decreases CStrLen(str) - i
      {
        cursor := cursor + 1;
        Write2NibbleData(str[i]);
        TextStep(old(writes), str, i);
        i := i + 1;
      }
    }

    /** `set_cursor(position)`: shifts the controller's cursor by
        `position - (cursor + 1)` places; the counter itself is kept. */
    method SetCursor(position: int)
      requires Valid()
      modifies this
      ensures Valid()
      ensures writes == old(writes) + Encode(CursorMoves(old(cursor), position))
      ensures cursor == old(cursor)
    {
      var difference := position - (cursor + 1);
      if difference > 0 {
        var i := 0;
        while i < difference
          invariant 0 <= i <= difference
          invariant Valid() && cursor == old(cursor)
          invariant writes == old(writes) + Encode(Moves(true, i))
        {
          Write2NibbleCommand(ShiftRight);
          MovesStep(old(writes), true, i);
          i := i + 1;
        }
        CursorMovesIs(old(cursor), position, i);
      } else {
        var i := 0;
        while i > difference
          invariant difference <= i <= 0
          invariant Valid() && cursor == old(cursor)
          invariant writes == old(writes) + Encode(Moves(false, -i))
        {
          Write2NibbleCommand(ShiftLeft);
          MovesStep(old(writes), false, -i);
          i := i - 1;
        }
        CursorMovesIs(old(cursor), position, i);
      }
    }

    /** `lcd_clear()`: the clear command only; `cursor` is not reset. */
    method LcdClear()
      modifies this
      ensures Valid()
      ensures writes == old(writes) + Encode([Command(ClearDisplay)])
      ensures cursor == old(cursor)
    {
      Write2NibbleCommand(ClearDisplay);
    }
  }

  /** The moves `set_cursor` sends once its counter `i` has reached the
      difference. */
  lemma CursorMovesIs(cursor: int, position: int, i: int)
    requires i == position - (cursor + 1)
    ensures CursorMoves(cursor, position) == if i > 0 then Moves(true, i) else Moves(false, -i)
  {
  }

  /** One more cursor move, sent after `n` of them. */
  lemma MovesStep(w: seq<bv8>, right: bool, n: nat)
    ensures w + Encode(Moves(right, n)) + Encode([Command(if right then ShiftRight else ShiftLeft)])
      == w + Encode(Moves(right, n + 1))
  {
    EncodeAppend(Moves(right, n), [Shift(right)]);
  }

  /** One more character, sent after the first `i`. */
  lemma TextStep(w: seq<bv8>, s: seq<bv8>, i: nat)
    requires i < |s|
    ensures w + Encode(TextTransfers(s[..i])) + Encode([Data(s[i])])
      == w + Encode(TextTransfers(s[..i + 1]))
  {
    TextTransfersSnoc(s, i);
    EncodeAppend(TextTransfers(s[..i]), [Data(s[i])]);
  }

  /** The characters of `s` up to `i + 1` are those up to `i` and one more. */
  lemma TextTransfersSnoc(s: seq<bv8>, i: nat)
    requires i < |s|
    ensures TextTransfers(s[..i + 1]) == TextTransfers(s[..i]) + [Data(s[i])]
  {
    var a, b := TextTransfers(s[..i + 1]), TextTransfers(s[..i]) + [Data(s[i])];
    assert |a| == |b|;
    forall k | 0 <= k < |a| ensures a[k] == b[k] {
    }
  }
}
