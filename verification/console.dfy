/** kernel/lib/stdio.c: the VGA text screen as a window on an unbounded terminal. */
module Console {
  import opened Machine
  import opened CString
  import opened Numerals

  const VGA_COLOR: u16 := 0x0700
  const BLANK: u16 := 0x0720

  const NEWLINE: u8 := 10
  const RETURN: u8 := 13
  const TAB: u8 := 9
  const BACKSPACE: u8 := 8

  /** `(uint16_t)(c | (VGA_COLOR << 8))` for a signed `char`: bytes from 128 on are sign-extended
      over the colour. */
  function Cell(c: u8): u16 {
    if c < 128 then VGA_COLOR + c else 0xFF00 + c
  }

  // ------------------------------------------------------ the unbounded terminal

  /** All rows ever used, 80 cells each, and the cursor. */
  datatype Term = Term(cells: seq<u16>, x: int, row: int)

  ghost predicate WellFormed(t: Term) {
    && |t.cells| % 80 == 0 && |t.cells| >= 80 * 25
    && 0 <= t.x < 80
    && |t.cells| <= 80 * t.row + 80 * 25 && 80 * t.row + 80 <= |t.cells|
  }

  function BlankRow(): (r: seq<u16>)
    ensures |r| == 80 && forall i | 0 <= i < 80 :: r[i] == BLANK
  {
    seq(80, _ => BLANK)
  }

  /** Where character `c` takes the cursor before line wrapping. */
  function Advance(x: int, c: u8): int
    requires 0 <= x < 80
  {
    if c == NEWLINE || c == RETURN then 0
    else if c == TAB then AndNot(x + 8, 7)
    else if c == BACKSPACE then (if x > 0 then x - 1 else 0)
    else x + 1
  }

  predicate Printable(c: u8) {
    c != NEWLINE && c != RETURN && c != TAB && c != BACKSPACE
  }

  /** Rows the cursor moves down. */
  function Down(x: int, c: u8): int
    requires 0 <= x < 80
  {
    if c == NEWLINE || Advance(x, c) >= 80 then 1 else 0
  }

  /** One character on the unbounded terminal: a new blank row appears when the cursor needs it. */
  ghost function Put(t: Term, c: u8): Term
    requires WellFormed(t)
  {
    var cells := if Printable(c) then t.cells[80 * t.row + t.x := Cell(c)] else t.cells;
    var x := if Advance(t.x, c) >= 80 then 0 else Advance(t.x, c);
    var row := t.row + Down(t.x, c);
    Term(if 80 * row < |cells| then cells else cells + BlankRow(), x, row)
  }

  lemma AdvanceLaw(x: int, c: u8)
    requires 0 <= x < 80
    ensures 0 <= Advance(x, c) <= 80
    ensures c == TAB ==> Advance(x, c) % 8 == 0 && x < Advance(x, c) <= x + 8
    ensures c == NEWLINE || c == RETURN ==> Advance(x, c) == 0
    ensures Printable(c) ==> Advance(x, c) == x + 1
    ensures x > 0 ==> (Advance(x, c) < x <==> c in {NEWLINE, RETURN, BACKSPACE})
  {
    ClearLowBits(x + 8);
  }

  lemma PutValid(t: Term, c: u8)
    requires WellFormed(t)
    ensures WellFormed(Put(t, c))
  {
    hide Advance;
    AdvanceLaw(t.x, c);
  }

  ghost function Feed(t: Term, s: seq<u8>): (r: Term)
    requires WellFormed(t)
    ensures WellFormed(r)
    decreases s
  {
    if s == [] then t else PutValid(t, s[0]); Feed(Put(t, s[0]), s[1..])
  }

  lemma {:induction false} FeedAppend(t: Term, s: seq<u8>, c: u8)
    requires WellFormed(t)
    ensures Feed(t, s + [c]) == Put(Feed(t, s), c)
    decreases s
  {
    if s == [] {
      assert ([] + [c])[1..] == [];
      PutValid(t, c);
    } else {
      PutValid(t, s[0]);
      FeedAppend(Put(t, s[0]), s[1..], c);
      assert (s + [c])[1..] == s[1..] + [c];
    }
  }

  lemma FeedNone(t: Term)
    requires WellFormed(t)
    ensures Feed(t, []) == t
  {
  }

  lemma {:induction false} FeedConcat(t: Term, s: seq<u8>, s': seq<u8>)
    requires WellFormed(t)
    ensures Feed(t, s + s') == Feed(Feed(t, s), s')
    decreases s
  {
    hide Put, WellFormed;
    if s == [] {
      assert [] + s' == s';
    } else {
      PutValid(t, s[0]);
      FeedConcat(Put(t, s[0]), s[1..], s');
      assert (s + s')[1..] == s[1..] + s';
    }
  }

  /** Rows that have left the window never change again, over any output. */
  lemma {:induction false} ScrollbackFixed(t: Term, s: seq<u8>)
    requires WellFormed(t)
    ensures var r, n := Feed(t, s), |t.cells| - 80 * 25;
      |r.cells| >= |t.cells| && r.cells[..n] == t.cells[..n]
    decreases s
  {
    var n := |t.cells| - 80 * 25;
    if s != [] {
      PutValid(t, s[0]);
      var t' := Put(t, s[0]);
      ScrollbackFixed(t', s[1..]);
      var r, n' := Feed(t, s), |t'.cells| - 80 * 25;
      assert r.cells[..n] == r.cells[..n'][..n] == t'.cells[..n'][..n] == t'.cells[..n];
      assert t'.cells[..n] == t.cells[..n];
    }
  }

  // ------------------------------------------------------------------ the screen

  /** From row `y` of screen `b` to the next: down by one, or the screen moves up under the cursor. */
  ghost predicate NextRow(y: int, b: seq<u16>, y': int, b': seq<u16>) {
    if y < 24 then y' == y + 1 && b' == b
    else
      && y' == 24 && |b| == |b'| == 2000 && b'[..1920] == b[80..]
      && forall i | 1920 <= i < 2000 :: b'[i] == 0x0720
  }

  lemma ScrollNext(y: int, b: seq<u16>)
    requires 0 <= y < 25 && |b| == 2000
    ensures NextRow(y, b, if y + 1 >= 25 then 24 else y + 1, if y + 1 >= 25 then b[80..] + BlankRow() else b)
  {
  }

  class Screen {
    const buffer: array<u16>
    var x: int
    var y: int
    /** The terminal this screen shows the end of. */
    ghost var term: Term

    /** The buffer is the last 25 rows of the terminal, and the cursor agrees. */
    ghost predicate Valid()
      reads this, buffer
    {
      && buffer.Length == 80 * 25 && WellFormed(term)
      && buffer[..] == term.cells[|term.cells| - 80 * 25..]
      && x == term.x && 80 * y == 80 * term.row - (|term.cells| - 80 * 25)
    }

    /** The screen at boot shows whatever the firmware left. */
    constructor (vga: array<u16>)
      requires vga.Length == 80 * 25
      ensures Valid() && buffer == vga && term == Term(vga[..], 0, 0)
    {
      buffer := vga;
      x, y := 0, 0;
      term := Term(vga[..], 0, 0);
    }

    /** `vga_scroll`. */
    method Scroll()
      requires buffer.Length == 80 * 25
      modifies this`y, buffer
      ensures y == if old(y) >= 25 then 24 else old(y)
      ensures buffer[..] == if old(y) >= 25 then old(buffer[..])[80..] + BlankRow() else old(buffer[..])
    {
      if y >= 25 {
        ghost var was := buffer[..];
        MemMove(buffer, 0, 80, 80 * 24);
        ghost var moved := buffer[..];
        for i := 0 to 80
          invariant forall k | 0 <= k < 2000 :: buffer[k] == if 1920 <= k < 1920 + i then BLANK else moved[k]
        {
          buffer[24 * 80 + i] := BLANK;
        }
        assert buffer[..] == was[80..] + BlankRow();
        y := 24;
      }
    }

    /** `vga_putchar`. */
    method PutChar(c: u8)
      requires Valid()
      modifies this, buffer
      ensures Valid() && term == Put(old(term), c)
      ensures 0 <= old(x) < 80 && 0 <= old(y) < 25 && buffer.Length == 2000
      ensures c == 10 ==> x == 0 && NextRow(old(y), old(buffer[..]), y, buffer[..])
      ensures c == 13 ==> x == 0 && y == old(y) && buffer[..] == old(buffer[..])
      ensures c == 8 ==> x == (if old(x) == 0 then 0 else old(x) - 1) && y == old(y) && buffer[..] == old(buffer[..])
      ensures c == 9 && old(x) < 72 ==> x == 8 * (old(x) / 8) + 8 && y == old(y) && buffer[..] == old(buffer[..])
      ensures c == 9 && old(x) >= 72 ==> x == 0 && NextRow(old(y), old(buffer[..]), y, buffer[..])
      ensures c !in {8, 9, 10, 13} ==>
        var written := old(buffer[..])[80 * old(y) + old(x) := if c < 128 then 0x0700 + c else 0xFF00 + c];
        if old(x) < 79 then x == old(x) + 1 && y == old(y) && buffer[..] == written
        else x == 0 && NextRow(old(y), written, y, buffer[..])
    {
      hide Advance, AndNot, Put, Cell, Down, NextRow;
      PutValid(term, c);
      PutCursor(term, c);
      ghost var t := term;
      Place(c);
      WindowOfPut(t, c);
      ScrollNext(old(y), buffer[..]);
      Scroll();
      term := Put(t, c);
    }

    /** Everything `vga_putchar` does before it scrolls. */
    method Place(c: u8)
      requires Valid()
      modifies this`x, this`y, buffer
      ensures x == (if Advance(old(x), c) >= 80 then 0 else Advance(old(x), c)) && y == old(y) + Down(old(x), c)
      ensures 0 <= 80 * old(y) + old(x) < 2000 && 0 <= old(x) < 80 && 0 <= old(y) < 25
      ensures c == 10 ==> x == 0 && y == old(y) + 1
      ensures c == 13 ==> x == 0 && y == old(y)
      ensures c == 8 ==> x == (if old(x) == 0 then 0 else old(x) - 1) && y == old(y)
      ensures c == 9 && old(x) < 72 ==> x == 8 * (old(x) / 8) + 8 && y == old(y)
      ensures c == 9 && old(x) >= 72 ==> x == 0 && y == old(y) + 1
      ensures c in {8, 9, 10, 13} ==> buffer[..] == old(buffer[..])
      ensures c !in {8, 9, 10, 13} ==>
        && buffer[..] == old(buffer[..])[80 * old(y) + old(x) := if c < 128 then 0x0700 + c else 0xFF00 + c]
        && if old(x) < 79 then x == old(x) + 1 && y == old(y) else x == 0 && y == old(y) + 1
      ensures buffer[..] == if Printable(c) then old(buffer[..])[80 * old(y) + old(x) := Cell(c)] else old(buffer[..])
    {
      hide AndNot, And;
      AdvanceLaw(x, c);
      ClearLowBits(x + 8);
      if c == NEWLINE {
        x := 0;
        y := y + 1;
      } else if c == RETURN {
        x := 0;
      } else if c == TAB {
        x := AndNot(x + 8, 7);
      } else if c == BACKSPACE {
        if x > 0 {
          x := x - 1;
        }
      } else {
        buffer[y * 80 + x] := Cell(c);
        x := x + 1;
      }
      if x >= 80 {
        x := 0;
        y := y + 1;
      }
    }

    /** `print_str`. */
    method PrintStr(s: seq<u8>)
      requires Valid()
      modifies this, buffer
      ensures Valid() && term == Feed(old(term), s)
    {
      hide Put, WellFormed, Feed;
      FeedNone(term);
      for k := 0 to |s|
        invariant Valid() && term == Feed(old(term), s[..k])
      {
        FeedAppend(old(term), s[..k], s[k]);
        assert s[..k + 1] == s[..k] + [s[k]];
        PutChar(s[k]);
      }
      assert s[..|s|] == s;
    }

    /** The digit loop: low digits first into a local buffer of `size` bytes. */
    static method FillDigits(value: u32, b: nat, size: nat) returns (buf: array<u8>, count: nat)
      requires value > 0 && 2 <= b <= 16 && |Numeral(value, b)| <= size
      ensures fresh(buf) && count <= buf.Length == size && Reversed(buf[..count]) == NumText(value, b)
    {
      hide NumText, Numeral, HexChar;
      buf := new u8[size];
      var v := value;
      count := 0;
      assert NumText(value, b) == NumText(v, b) + Reversed([]);
      while v > 0
        invariant 0 <= v < U32_LIMIT && count <= size && NumText(value, b) == Rest(v, b) + Reversed(buf[..count])
      {
        DigitStep(v, b, buf[..count]);
        ghost var low := buf[..count];
        buf[count] := HexChar(v % b);
        count := count + 1;
        v := v / b;
        assert buf[..count] == low + [buf[count - 1]];
      }
    }

    /** `print_uint`. */
    method PrintUint(value: u32)
      requires Valid()
      modifies this, buffer
      ensures Valid() && term == Feed(old(term), NumText(value, 10))
    {
      hide NumText;
      WordDigits(value);
      if value == 0 {
        NumTextStep(0, 10);
        PutOnly(0x30);
        return;
      }
      var buf, count := FillDigits(value, 10, 12);
      PrintReversed(buf, count);
    }

    /** `print_hex`. */
    method PrintHex(value: u32)
      requires Valid()
      modifies this, buffer
      ensures Valid() && term == Feed(old(term), [0x30, 0x78] + NumText(value, 16))
    {
      hide NumText;
      WordDigits(value);
      if value == 0 {
        NumTextStep(0, 16);
        PrintStr([0x30, 0x78, 0x30]);
        return;
      }
      var buf, count := FillDigits(value, 16, 9);
      ghost var t := term;
      PrintStr([0x30, 0x78]);
      FeedConcat(t, [0x30, 0x78], NumText(value, 16));
      PrintReversed(buf, count);
    }

    /** `print_int`, with the negation done in 32-bit two's complement. */
    method PrintInt(value: i32)
      requires Valid()
      modifies this, buffer
      ensures Valid() && term == Feed(old(term), IntText(value))
    {
      hide NumText;
      var negative, v := false, value;
      if v < 0 {
        negative := true;
        v := if v == INT32_MIN then INT32_MIN else -v;
      }
      if v == 0 {
        NumTextStep(0, 10);
        PutOnly(0x30);
        return;
      }
      var buf, count := new u8[12], 0;
      if v > 0 {
        WordDigits(v);
        buf, count := FillDigits(v, 10, 12);
      }
      ghost var t := term;
      if negative {
        PutOnly(MINUS);
        FeedConcat(t, [MINUS], Reversed(buf[..count]));
      }
      PrintReversed(buf, count);
      assert v < 0 ==> Reversed(buf[..0]) == [] && [MINUS] + [] == [MINUS];
    }

    method PutOnly(c: u8)
      requires Valid()
      modifies this, buffer
      ensures Valid() && term == Feed(old(term), [c])
    {
      FeedAppend(term, [], c);
      assert [] + [c] == [c];
      PutChar(c);
    }

    /** Emit the digits a digit loop left in `buf`, last one first. */
    method PrintReversed(buf: array<u8>, count: nat)
      requires Valid() && count <= buf.Length
      modifies this, buffer
      requires buf as object != buffer
      ensures Valid() && term == Feed(old(term), Reversed(buf[..count])) && buf[..] == old(buf[..])
    {
      hide Put, WellFormed, Feed;
      FeedNone(term);
      var i := count;
      ghost var text := Reversed(buf[..count]);
      while i > 0
        invariant 0 <= i <= count && Valid() && buf[..] == old(buf[..])
        invariant term == Feed(old(term), text[..count - i])
      {
        i := i - 1;
        FeedAppend(old(term), text[..count - i - 1], buf[i]);
        assert text[..count - i] == text[..count - i - 1] + [buf[i]];
        PutChar(buf[i]);
      }
      assert text[..count] == text;
    }
  }

  /** The digits a digit loop has still to produce. */
  function Rest(v: nat, b: nat): seq<u8>
    requires 2 <= b <= 16
  {
    if v > 0 then NumText(v, b) else []
  }

  /** One round of the digit loop moves the last remaining digit to the front of those produced. */
  lemma DigitStep(v: nat, b: nat, low: seq<u8>)
    requires 2 <= b <= 16 && v > 0
    ensures 0 <= v % b < 16 && 0 <= v / b <= v && |Rest(v, b)| >= 1
    ensures Rest(v, b) + Reversed(low) == Rest(v / b, b) + Reversed(low + [HexChar(v % b)])
  {
    hide NumText, HexChar;
    NumTextStep(v, b);
    if v >= b {
      DivPositive(v, b);
    } else {
      ModUnique(v, b, 0, v);
    }
    assert Reversed(low + [HexChar(v % b)]) == [HexChar(v % b)] + Reversed(low);
  }

  function Reversed(s: seq<u8>): (r: seq<u8>)
    ensures |r| == |s| && forall k | 0 <= k < |s| :: r[k] == s[|s| - 1 - k]
  {
    seq(|s|, k requires 0 <= k < |s| => s[|s| - 1 - k])
  }

  lemma PutCursor(t: Term, c: u8)
    requires WellFormed(t)
    ensures Put(t, c).x == (if Advance(t.x, c) >= 80 then 0 else Advance(t.x, c))
    ensures Put(t, c).row == t.row + Down(t.x, c) && 0 <= Down(t.x, c) <= 1
  {
  }

  /** The window of the terminal after a character, before and after the screen scrolls. */
  lemma WindowOfPut(t: Term, c: u8)
    requires WellFormed(t)
    ensures var n, r := |t.cells| - 80 * 25, Put(t, c);
      var w := t.cells[n..];
      && 0 <= 80 * t.row + t.x - n < 2000
      && var w' := if Printable(c) then w[80 * t.row + t.x - n := Cell(c)] else w;
         if 80 * (t.row + Down(t.x, c)) < |t.cells|
         then |r.cells| == |t.cells| && r.cells[n..] == w'
         else |r.cells| == |t.cells| + 80 && r.cells[n + 80..] == w'[80..] + BlankRow()
  {
    hide Advance;
  }
}
