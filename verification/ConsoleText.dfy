// Text as the console lays it out: an unbounded scrollback of lines that wrap
// at 80 columns, and numbers in decimal and hexadecimal.
module ConsoleText {
  import opened Bits

  const COLUMNS := 80
  const NEWLINE: Byte := 10

  type Line = seq<Byte>

  // ---- Layout, one character at a time ----

  function Last(lines: seq<Line>): Line
    requires lines != []
  {
    lines[|lines| - 1]
  }

  function Extended(lines: seq<Line>, c: Byte): seq<Line>
    requires lines != []
  {
    lines[|lines| - 1 := Last(lines) + [c]]
  }

  /** One more character: a newline, or a column that may complete the line. */
  function Push(lines: seq<Line>, c: Byte): (r: seq<Line>)
    requires lines != []
    ensures r != []
  {
    if c == NEWLINE then lines + [[]]
    else if |Last(lines)| + 1 == COLUMNS then Extended(lines, c) + [[]]
    else Extended(lines, c)
  }

  /** The scrollback of a text; the last line is the one being written. */
  function Layout(text: seq<Byte>): (lines: seq<Line>)
    ensures lines != [] && |Last(lines)| < COLUMNS
    ensures forall i :: 0 <= i < |lines| ==> |lines[i]| <= COLUMNS
  {
    if text == [] then [[]] else Push(Layout(text[..|text| - 1]), text[|text| - 1])
  }

  lemma LayoutSnoc(text: seq<Byte>, c: Byte)
    ensures Layout(text + [c]) == Push(Layout(text), c)
  {
  }

  // ---- Layout, seen as a whole ----

  /** The text between newlines. */
  function Paragraphs(text: seq<Byte>): (ps: seq<Line>)
    ensures ps != []
  {
    if text == [] then [[]]
    else
      var ps := Paragraphs(text[..|text| - 1]);
      if text[|text| - 1] == NEWLINE then ps + [[]] else Extended(ps, text[|text| - 1])
  }

  /** Full lines of 80, then the rest, which may be empty. */
  function Wrapped(paragraph: Line): (lines: seq<Line>)
    ensures lines != []
  {
    if |paragraph| < COLUMNS then [paragraph]
    else [paragraph[..COLUMNS]] + Wrapped(paragraph[COLUMNS..])
  }

  function WrapAll(paragraphs: seq<Line>): seq<Line>
  {
    if paragraphs == [] then []
    else WrapAll(paragraphs[..|paragraphs| - 1]) + Wrapped(Last(paragraphs))
  }

  lemma {:induction false} WrappedSnoc(paragraph: Line, c: Byte)
    requires c != NEWLINE
    ensures Wrapped(paragraph + [c]) == Push(Wrapped(paragraph), c)
    decreases |paragraph|
  {
    if |paragraph| + 1 < COLUMNS {
    } else if |paragraph| + 1 == COLUMNS {
      var full := paragraph + [c];
      assert full[..COLUMNS] == full && full[COLUMNS..] == [];
      assert Wrapped(full[COLUMNS..]) == [[]];
    } else {
      var rest := paragraph[COLUMNS..];
      WrappedSnoc(rest, c);
      assert (paragraph + [c])[..COLUMNS] == paragraph[..COLUMNS];
      assert (paragraph + [c])[COLUMNS..] == rest + [c];
      PushKeepsFront([paragraph[..COLUMNS]], Wrapped(rest), c);
    }
  }

  lemma PushKeepsFront(front: seq<Line>, lines: seq<Line>, c: Byte)
    requires lines != []
    ensures Push(front + lines, c) == front + Push(lines, c)
  {
  }

  // Character-by-character layout is exactly: split at newlines, wrap each
  // paragraph at 80 columns.
  lemma {:induction false} LayoutWraps(text: seq<Byte>)
    ensures Layout(text) == WrapAll(Paragraphs(text))
  {
    if text == [] {
      assert WrapAll([[]]) == WrapAll([]) + Wrapped([]);
    } else {
      var n := |text| - 1;
      var c := text[n];
      LayoutWraps(text[..n]);
      var ps := Paragraphs(text[..n]);
      var front := WrapAll(ps[..|ps| - 1]);
      if c == NEWLINE {
        assert (ps + [[]])[..|ps|] == ps;
        assert Wrapped([]) == [[]];
      } else {
        var qs := Extended(ps, c);
        assert qs[..|qs| - 1] == ps[..|ps| - 1];
        WrappedSnoc(Last(ps), c);
        PushKeepsFront(front, Wrapped(Last(ps)), c);
      }
    }
  }

  // ---- Numbers ----

  function Digit(d: nat): Byte
    requires d < 16
  {
    if d < 10 then 48 + d else 87 + d
  }

  function DigitValue(c: Byte): nat
  {
    if c < 58 then (if c >= 48 then c - 48 else 0) else if c >= 97 then c - 87 else 0
  }

  /** Decimal digits, most significant first, without leading zeros. */
  function Decimal(n: nat): (s: seq<Byte>)
    ensures s != []
  {
    if n < 10 then [Digit(n)] else Decimal(n / 10) + [Digit(n % 10)]
  }

  function ValueOf(s: seq<Byte>, base: nat): nat
  {
    if s == [] then 0 else base * ValueOf(s[..|s| - 1], base) + DigitValue(s[|s| - 1])
  }

  lemma {:induction false} DecimalReadsBack(n: nat)
    ensures ValueOf(Decimal(n), 10) == n
    ensures n > 0 ==> Decimal(n)[0] != Digit(0)
  {
    if n >= 10 {
      DecimalReadsBack(n / 10);
      var front := Decimal(n / 10);
      assert (front + [Digit(n % 10)])[..|front|] == front;
    } else {
      assert ValueOf([], 10) == 0;
    }
  }

  // The digits are the characters '0' to '9'.
  lemma {:induction false} DecimalIsDigits(n: nat)
    ensures forall i :: 0 <= i < |Decimal(n)| ==> 48 <= Decimal(n)[i] <= 57
  {
    if n >= 10 {
      DecimalIsDigits(n / 10);
    }
  }

  function Pow10(n: nat): nat { if n == 0 then 1 else 10 * Pow10(n - 1) }

  lemma {:induction false} DecimalLength(n: nat, k: nat)
    requires k >= 1 && n < Pow10(k)
    ensures |Decimal(n)| <= k
  {
    if n >= 10 {
      assert k != 1 || Pow10(k) == 10;
      DecimalLength(n / 10, k - 1);
    }
  }

  // A 64-bit number has at most 20 digits: the digit buffer never overflows.
  lemma WordHasTwentyDigits(n: Word)
    ensures |Decimal(n)| <= 20
  {
    assert Pow10(5) == 10_0000;
    assert Pow10(10) == 100_0000_0000 by { Pow10Adds(5, 5); }
    assert Pow10(20) >= WORD_LIMIT by { Pow10Adds(10, 10); }
    DecimalLength(n, 20);
  }

  lemma {:induction false} Pow10Adds(m: nat, n: nat)
    ensures Pow10(m + n) == Pow10(m) * Pow10(n)
  {
    if m > 0 {
      Pow10Adds(m - 1, n);
    }
  }

  /** The low `k` hexadecimal digits, most significant first. */
  function Hex(n: nat, k: nat): seq<Byte>
  {
    if k == 0 then [] else Hex(n / 16, k - 1) + [Digit(n % 16)]
  }

  function Pow16(n: nat): (p: nat)
    ensures p >= 1
  {
    if n == 0 then 1 else 16 * Pow16(n - 1)
  }

  lemma {:induction false} Pow16Adds(m: nat, n: nat)
    ensures Pow16(m + n) == Pow16(m) * Pow16(n)
  {
    if m > 0 {
      Pow16Adds(m - 1, n);
    }
  }

  /** `n >> 4 * k`. */
  function ShiftDigits(n: nat, k: nat): nat
  {
    if k == 0 then n else ShiftDigits(n, k - 1) / 16
  }

  lemma DigitReadsBack(d: nat)
    requires d < 16
    ensures DigitValue(Digit(d)) == d
  {
  }

  lemma ValueSnoc(front: seq<Byte>, c: Byte)
    ensures ValueOf(front + [c], 16) == 16 * ValueOf(front, 16) + DigitValue(c)
  {
    assert (front + [c])[..|front|] == front;
  }

  lemma {:induction false} HexReadsBack(n: nat, k: nat)
    requires n < Pow16(k)
    ensures |Hex(n, k)| == k && ValueOf(Hex(n, k), 16) == n
  {
    if k > 0 {
      hide ValueOf, Digit, DigitValue;
      HexReadsBack(n / 16, k - 1);
      ValueSnoc(Hex(n / 16, k - 1), Digit(n % 16));
      DigitReadsBack(n % 16);
    } else {
      assert ValueOf([], 16) == 0;
    }
  }

  // The digits are the characters '0' to '9' and 'a' to 'f'.
  lemma {:induction false} HexIsDigits(n: nat, k: nat)
    ensures forall i :: 0 <= i < |Hex(n, k)| ==> 48 <= Hex(n, k)[i] <= 57 || 97 <= Hex(n, k)[i] <= 102
  {
    if k > 0 {
      HexIsDigits(n / 16, k - 1);
    }
  }

  // Sixteen digits hold any 64-bit number.
  lemma WordReadsBack(n: Word)
    ensures |Hex(n, 16)| == 16 && ValueOf(Hex(n, 16), 16) == n
  {
    hide Hex, ValueOf;
    assert Pow16(4) == 0x1_0000 by { Pow16Adds(2, 2); }
    assert Pow16(8) == 0x1_0000_0000 by { Pow16Adds(4, 4); }
    assert Pow16(16) == WORD_LIMIT by { Pow16Adds(8, 8); }
    HexReadsBack(n, 16);
  }

  // The least significant digit is the last one.
  lemma DecimalEnds(n: nat)
    requires n > 0
    ensures Decimal(n) == (if n / 10 == 0 then [] else Decimal(n / 10)) + [Digit(n % 10)]
  {
    if n < 10 {
      QuotientIs(n, 10, 0, n);
    }
  }
}
