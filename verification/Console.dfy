// The 80x25 text console: a scrolling window on the scrollback of everything
// written since it was cleared.
module Console {
  import opened Bits
  import opened ConsoleText

  const ROWS := 25
  const CELLS := ROWS * COLUMNS
  const SPACE: Byte := 32

  datatype Cell = Cell(character: Byte, color: Byte)

  /** The last 25 lines of the scrollback. */
  function Window(lines: seq<Line>): seq<Line>
  {
    if |lines| <= 25 then lines else lines[|lines| - 25..]
  }

  /** What row `r` and column `c` of the screen should show. */
  function CellAt(lines: seq<Line>, color: Byte, r: nat, c: nat): Cell
  {
    var w := Window(lines);
    if r < |w| && c < |w[r]| then Cell(w[r][c], color) else Cell(32, color)
  }

  ghost predicate Shows(grid: seq<Cell>, color: Byte, lines: seq<Line>)
  {
    |grid| == 2000 &&
    forall k :: 0 <= k < 2000 ==> grid[k] == CellAt(lines, color, k / 80, k % 80)
  }

  // A new line below a screen that is not full yet changes no cell.
  lemma NewlineInWindow(grid: seq<Cell>, color: Byte, lines: seq<Line>)
    requires Shows(grid, color, lines) && |lines| < ROWS
    ensures Shows(grid, color, lines + [[]])
  {
  }

  // On a full screen it moves every row up by one and blanks the last.
  lemma NewlineScrolls(grid: seq<Cell>, grid': seq<Cell>, color: Byte, lines: seq<Line>)
    requires Shows(grid, color, lines) && |lines| >= ROWS && |grid'| == CELLS
    requires forall k :: 0 <= k < CELLS ==>
               grid'[k] == if k + COLUMNS < CELLS then grid[k + COLUMNS] else Cell(SPACE, color)
    ensures Shows(grid', color, lines + [[]])
  {
    var w, w' := Window(lines), Window(lines + [[]]);
    assert forall r :: 0 <= r < ROWS - 1 ==> w'[r] == w[r + 1];
    assert w'[ROWS - 1] == [];
    forall k | 0 <= k < CELLS
      ensures grid'[k] == CellAt(lines + [[]], color, k / COLUMNS, k % COLUMNS)
    {
      assert (k + COLUMNS) / COLUMNS == k / COLUMNS + 1 && (k + COLUMNS) % COLUMNS == k % COLUMNS;
    }
  }

  // Writing at the cursor extends the last line.
  lemma WriteExtends(grid: seq<Cell>, color: Byte, lines: seq<Line>, c: Byte)
    requires Shows(grid, color, lines) && lines != [] && |Last(lines)| < COLUMNS
    ensures var cursor := (|Window(lines)| - 1) * COLUMNS + |Last(lines)|;
            cursor < CELLS == |grid| && Shows(grid[cursor := Cell(c, color)], color, Extended(lines, c))
  {
    var w, w' := Window(lines), Window(Extended(lines, c));
    var row, column := |w| - 1, |Last(lines)|;
    var cursor := row * COLUMNS + column;
    assert |w'| == |w| && forall r :: 0 <= r < row ==> w'[r] == w[r];
    assert w[row] == Last(lines) && w'[row] == Last(lines) + [c];
    forall k | 0 <= k < CELLS
      ensures grid[cursor := Cell(c, color)][k] == CellAt(Extended(lines, c), color, k / COLUMNS, k % COLUMNS)
    {
      assert k == cursor <==> k / COLUMNS == row && k % COLUMNS == column;
    }
  }

  lemma ExtendedCursor(lines: seq<Line>, c: Byte)
    requires lines != []
    ensures Extended(lines, c) != [] && |Window(Extended(lines, c))| == |Window(lines)|
    ensures |Last(Extended(lines, c))| == |Last(lines)| + 1
  {
  }

  lemma LayoutFits(text: seq<Byte>)
    ensures Layout(text) != [] && |Last(Layout(text))| < COLUMNS
  {
  }

  // From the cursor on the screen is blank, and the cursor is on the screen.
  lemma BlankFromCursor(grid: seq<Cell>, color: Byte, text: seq<Byte>, k: nat)
    requires Shows(grid, color, Layout(text)) && k < CELLS
    requires k >= (|Window(Layout(text))| - 1) * COLUMNS + |Last(Layout(text))|
    ensures (|Window(Layout(text))| - 1) * COLUMNS + |Last(Layout(text))| < CELLS
    ensures grid[k] == Cell(SPACE, color)
  {
    var w := Window(Layout(text));
    assert w[|w| - 1] == Last(Layout(text));
    assert k / COLUMNS >= |w| - 1;
  }

  class Screen {
    const vga: array<Cell>
    const textColor: Byte
    var cursorRow: nat
    var cursorColumn: nat
    // Everything written since the screen was last cleared.
    ghost var text: seq<Byte>

    /** The screen is the window on the layout of the text, with the cursor after it. */
    ghost predicate Valid()
      reads this, vga
    {
      && Shows(vga[..], textColor, Layout(text))
      && cursorRow == |Window(Layout(text))| - 1
      && cursorColumn == |Last(Layout(text))|
    }

    constructor (vga: array<Cell>)
      requires vga.Length == CELLS
      modifies vga
      ensures Valid() && text == [] && this.vga == vga && textColor == 0x07
    {
      this.vga := vga;
      textColor := 0x07;
      cursorRow, cursorColumn, text := 0, 0, [];
      new;
      Clear();
    }

    method ClearRow(row: nat)
      requires row < ROWS && vga.Length == CELLS
      modifies vga
      ensures forall k :: 0 <= k < CELLS ==>
                vga[k] == if row * COLUMNS <= k < (row + 1) * COLUMNS then Cell(SPACE, textColor) else old(vga[k])
    {
      for column := 0 to COLUMNS
        invariant forall k :: 0 <= k < CELLS ==>
          vga[k] == if row * COLUMNS <= k < row * COLUMNS + column then Cell(SPACE, textColor) else old(vga[k])
      {
        vga[row * COLUMNS + column] := Cell(SPACE, textColor);
      }
    }

    method Clear()
      requires vga.Length == CELLS
      modifies this, vga
      ensures Valid() && text == []
    {
      for row := 0 to ROWS
        invariant forall k :: 0 <= k < row * COLUMNS ==> vga[k] == Cell(SPACE, textColor)
      {
        ClearRow(row);
      }
      cursorRow := 0;
      cursorColumn := 0;
      text := [];
      assert Window(Layout([])) == [[]];
    }

    // Moves every row up by one.
    method ScrollRows()
      requires vga.Length == CELLS
      modifies vga
      ensures forall k :: 0 <= k < CELLS - COLUMNS ==> vga[k] == old(vga[k + COLUMNS])
    {
      for row := 1 to ROWS
        invariant forall k :: 0 <= k < (row - 1) * COLUMNS ==> vga[k] == old(vga[k + COLUMNS])
        invariant forall k :: (row - 1) * COLUMNS <= k < CELLS ==> vga[k] == old(vga[k])
      {
        MoveRowUp(row * COLUMNS);
      }
    }

    // Copies the row that starts at a cell onto the row above it.
    method MoveRowUp(start: nat)
      requires vga.Length == CELLS && COLUMNS <= start <= CELLS - COLUMNS
      modifies vga
      ensures forall k :: 0 <= k < CELLS ==>
                vga[k] == if start - COLUMNS <= k < start then old(vga[k + COLUMNS]) else old(vga[k])
    {
      for column := 0 to COLUMNS
        invariant forall k :: 0 <= k < CELLS ==>
          vga[k] == if start - COLUMNS <= k < start - COLUMNS + column then old(vga[k + COLUMNS]) else old(vga[k])
      {
        vga[start - COLUMNS + column] := vga[start + column];
      }
    }

    // Starts a new line below `lines`, which the screen shows.
    method Newline(ghost lines: seq<Line>)
      requires lines != [] && Shows(vga[..], textColor, lines) && cursorRow == |Window(lines)| - 1
      modifies this`cursorRow, this`cursorColumn, vga
      ensures Shows(vga[..], textColor, lines + [[]])
      ensures cursorRow == |Window(lines + [[]])| - 1 && cursorColumn == 0
    {
      cursorColumn := 0;
      if cursorRow + 1 < ROWS {
        NewlineInWindow(vga[..], textColor, lines);
        cursorRow := cursorRow + 1;
        return;
      }
      ScrollRows();
      ClearRow(ROWS - 1);
      NewlineScrolls(old(vga[..]), vga[..], textColor, lines);
    }

    method WriteChar(c: Byte)
      requires Valid()
      modifies this, vga
      ensures Valid() && text == old(text) + [c]
    {
      hide Shows, CellAt, Window, Layout, Extended;
      ghost var lines := Layout(text);
      LayoutFits(text);
      LayoutSnoc(text, c);
      text := text + [c];
      if c == NEWLINE {
        Newline(lines);
        return;
      }
      WriteExtends(vga[..], textColor, lines, c);
      ExtendedCursor(lines, c);
      vga[cursorRow * COLUMNS + cursorColumn] := Cell(c, textColor);
      assert vga[..] == old(vga[..])[cursorRow * COLUMNS + cursorColumn := Cell(c, textColor)];
      cursorColumn := cursorColumn + 1;
      if cursorColumn == COLUMNS {
        Newline(Extended(lines, c));
      }
    }

    // Writes the characters of a C string, without its terminator.
    method Write(s: seq<Byte>)
      requires Valid()
      modifies this, vga
      ensures Valid() && text == old(text) + s
    {
      hide Screen.Valid;
      for i := 0 to |s|
        invariant Valid() && text == old(text) + s[..i]
      {
        WriteChar(s[i]);
      }
      assert s[..|s|] == s;
    }

    method WriteDec(value: Word)
      requires Valid()
      modifies this, vga
      ensures Valid() && text == old(text) + Decimal(value) && ValueOf(text[|old(text)|..], 10) == value
    {
      hide Screen.Valid, Decimal, ValueOf;
      DecimalReadsBack(value);
      if value == 0 {
        ZeroDigits();
        Write([Digit(0)]);
        return;
      }
      var digits := new Byte[21](i => 0);
      var length := FillDigits(value, digits);
      WriteDigits(digits, length);
    }

    // Emits the collected digits, last one first.
    method WriteDigits(digits: array<Byte>, count: nat)
      requires Valid() && count <= digits.Length
      modifies this, vga
      ensures Valid() && text == old(text) + Reversed(digits[..count])
    {
      hide Screen.Valid;
      var length: nat := count;
      while length != 0
        invariant Valid() && length <= count && digits[..] == old(digits[..])
        invariant text + Reversed(digits[..length]) == old(text) + Reversed(digits[..count])
      {
        length := length - 1;
        assert digits[..length + 1] == digits[..length] + [digits[length]];
        ReversedSnoc(digits[..length], digits[length]);
        Write([digits[length]]);
      }
    }

    // The digits of a number, least significant first; the buffer is long enough.
    static method FillDigits(value: Word, digits: array<Byte>) returns (length: nat)
      requires value != 0 && digits.Length == 21
      modifies digits
      ensures length <= 20 && Decimal(value) == Reversed(digits[..length])
    {
      hide Decimal, Reversed, Pending;
      WordHasTwentyDigits(value);
      PendingStarts(value);
      length := 0;
      var rest: nat := value;
      while rest != 0
        invariant length <= |Decimal(value)|
        invariant Decimal(value) == Pending(rest) + Reversed(digits[..length])
        invariant |Reversed(digits[..length])| == length
      {
        ghost var before := digits[..length];
        PendingStep(rest, before);
        digits[length] := Digit(rest % 10);
        length := length + 1;
        assert digits[..length] == before + [Digit(rest % 10)];
        rest := rest / 10;
      }
      PendingEnds(digits[..length]);
    }

    method WriteHex(value: Word)
      requires Valid()
      modifies this, vga
      ensures Valid() && text == old(text) + [48, 120] + Hex(value, 16)
      ensures ValueOf(text[|old(text)| + 2..], 16) == value
    {
      hide Screen.Valid, ValueOf, Hex, ShiftDigits;
      WordReadsBack(value);
      HexStarts(value);
      Write([48, 120]);
      var left := 16;
      while left != 0
        invariant Valid() && left <= 16
        invariant text == old(text) + [48, 120] + Hex(ShiftDigits(value, left), 16 - left)
      {
        HexStep(value, left);
        left := left - 1;
        Write([Digit(ShiftDigits(value, left) % 16)]);
      }
      assert text[|old(text)| + 2..] == Hex(value, 16);
    }
  }

  lemma HexStarts(n: nat)
    ensures Hex(ShiftDigits(n, 16), 0) == [] && ShiftDigits(n, 0) == n
  {
  }

  lemma HexStep(n: nat, left: nat)
    requires 1 <= left <= 16
    ensures Hex(ShiftDigits(n, left - 1), 17 - left) ==
            Hex(ShiftDigits(n, left), 16 - left) + [Digit(ShiftDigits(n, left - 1) % 16)]
  {
  }

  lemma ZeroDigits()
    ensures Decimal(0) == [Digit(0)]
  {
  }

  /** The digits of what is left of a number; none when nothing is left. */
  function Pending(n: nat): seq<Byte>
  {
    if n == 0 then [] else Decimal(n)
  }

  lemma PendingStarts(n: nat)
    ensures n > 0 ==> Decimal(n) == Pending(n) + Reversed([])
    ensures |Reversed([])| == 0
  {
  }

  // Moving the last digit over to those already collected.
  lemma PendingStep(n: nat, collected: seq<Byte>)
    requires n > 0
    ensures Pending(n) != []
    ensures Pending(n) + Reversed(collected) == Pending(n / 10) + Reversed(collected + [Digit(n % 10)])
    ensures |Reversed(collected + [Digit(n % 10)])| == |Reversed(collected)| + 1
  {
    hide Decimal, Reversed;
    DecimalEnds(n);
    ReversedSnoc(collected, Digit(n % 10));
  }

  lemma PendingEnds(collected: seq<Byte>)
    ensures Pending(0) + Reversed(collected) == Reversed(collected)
  {
  }

  function Reversed(s: seq<Byte>): (r: seq<Byte>)
    ensures |r| == |s|
  {
    if s == [] then [] else [s[|s| - 1]] + Reversed(s[..|s| - 1])
  }

  lemma ReversedSnoc(s: seq<Byte>, b: Byte)
    ensures Reversed(s + [b]) == [b] + Reversed(s)
  {
  }
}
