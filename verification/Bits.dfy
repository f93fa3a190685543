// Machine words as bounded naturals, C's bitwise operators on them, and the
// little-endian bytes of a word.
module Bits {
  const WORD_LIMIT := 0x1_0000_0000_0000_0000

  type Word = w: nat | w < WORD_LIMIT
  type Byte = b: nat | b < 256

  const LIMIT32 := 0x1_0000_0000

  type U32 = n: nat | n < LIMIT32

  /** Little-endian fields of a byte string. */
  function Read16(bytes: seq<Byte>, offset: nat): (n: nat)
    requires offset + 2 <= |bytes|
    ensures n < 0x1_0000
  {
    var low: nat, high: nat := bytes[offset], bytes[offset + 1];
    low + 0x100 * high
  }

  function Read32(bytes: seq<Byte>, offset: nat): U32
    requires offset + 4 <= |bytes|
  {
    Read16(bytes, offset) + 0x1_0000 * Read16(bytes, offset + 2)
  }

  /** Unsigned 64-bit addition, which wraps. */
  function WordAdd(a: Word, b: Word): (r: Word)
    ensures r == (a + b) % WORD_LIMIT
  {
    if a + b < WORD_LIMIT then a + b else a + b - WORD_LIMIT
  }

  function Pow2(n: nat): (r: nat)
    ensures r >= 1
  {
    if n == 0 then 1 else 2 * Pow2(n - 1)
  }

  lemma {:induction false} Pow2Adds(m: nat, n: nat)
    ensures Pow2(m + n) == Pow2(m) * Pow2(n)
  {
    if m > 0 {
      Pow2Adds(m - 1, n);
    }
  }

  /** `a | b`, bit by bit. */
  function Or(a: nat, b: nat): nat
  {
    if a == 0 then b
    else if b == 0 then a
    else (if a % 2 == 1 || b % 2 == 1 then 1 else 0) + 2 * Or(a / 2, b / 2)
  }

  /** `a & b`, bit by bit. */
  function And(a: nat, b: nat): (r: nat)
    ensures r <= a && r <= b
  {
    if a == 0 || b == 0 then 0
    else (if a % 2 == 1 && b % 2 == 1 then 1 else 0) + 2 * And(a / 2, b / 2)
  }

  // Setting a bit that is clear is an addition.
  lemma {:induction false} OrSetsClearBit(a: nat, k: nat)
    requires a / Pow2(k) % 2 == 0
    ensures Or(a, Pow2(k)) == a + Pow2(k)
  {
    if k == 0 {
    } else {
      HalveThenDivide(a, Pow2(k - 1));
      OrSetsClearBit(a / 2, k - 1);
    }
  }

  lemma HalveThenDivide(a: nat, p: nat)
    requires p >= 1
    ensures a / (2 * p) == a / 2 / p
  {
    var q, r := a / 2 / p, a / 2 % p;
    assert a / 2 == q * p + r;
    assert a == (2 * p) * q + (2 * r + a % 2);
    QuotientIs(a, 2 * p, q, 2 * r + a % 2);
  }

  lemma QuotientIs(a: int, d: int, q: int, r: int)
    requires 0 <= r < d
    requires a == d * q + r
    ensures a / d == q && a % d == r
  {
    var e := a / d - q;
    assert d * e == r - a % d;
    assert e >= 1 ==> d * e >= d;
    assert e <= -1 ==> d * e <= -d;
  }

  lemma ScaleRemainder(q: nat, m: nat, c: nat)
    requires m >= 1 && c >= 1
    ensures m * c >= 1 && q * c % (m * c) == q % m * c
  {
    assert q == m * (q / m) + q % m;
    assert q * c == m * c * (q / m) + q % m * c;
    assert q % m * c <= (m - 1) * c;
    QuotientIs(q * c, m * c, q / m, q % m * c);
  }

  // Bit 0 and the other bits of `a & b`.
  lemma AndHalves(a: nat, b: nat)
    ensures And(a, b) == (if a % 2 == 1 && b % 2 == 1 then 1 else 0) + 2 * And(a / 2, b / 2)
  {
  }

  lemma AndOddMask(a: nat, p: nat)
    requires p >= 1
    ensures And(a, 2 * p - 1) == a % 2 + 2 * And(a / 2, p - 1)
  {
    hide And;
    AndHalves(a, 2 * p - 1);
    QuotientIs(2 * p - 1, 2, p - 1, 1);
  }

  lemma AndEvenMask(a: nat, m: nat)
    ensures And(a, 2 * m) == 2 * And(a / 2, m)
  {
    hide And;
    AndHalves(a, 2 * m);
    QuotientIs(2 * m, 2, m, 0);
  }

  lemma Pow2Step(k: nat)
    requires k > 0
    ensures Pow2(k) == 2 * Pow2(k - 1)
  {
  }

  // `a & (2^k - 1)` is the remainder: the alignment tests of the page code.
  lemma {:induction false} AndLowMask(a: nat, k: nat)
    ensures And(a, Pow2(k) - 1) == a % Pow2(k)
    decreases k, 1
  {
    if k == 0 {
    } else {
      LowMaskStep(a, k);
    }
  }

  lemma {:induction false} LowMaskStep(a: nat, k: nat)
    requires k > 0
    ensures And(a, Pow2(k) - 1) == a % Pow2(k)
    decreases k, 0
  {
    hide And, Pow2;
    var p := Pow2(k - 1);
    Pow2Step(k);
    AndLowMask(a / 2, k - 1);
    AndOddMask(a, p);
    RemainderHalves(a, p);
  }

  // `a & ~(2^k - 1)` on n-bit words rounds down to a multiple of 2^k.
  lemma {:induction false} AndHighMask(a: nat, n: nat, k: nat)
    requires k <= n && a < Pow2(n)
    ensures Pow2(k) <= Pow2(n)
    ensures And(a, Pow2(n) - Pow2(k)) == a - a % Pow2(k)
    decreases n, 1
  {
    if n == 0 {
    } else if k == 0 {
      AndLowMask(a, n);
      QuotientIs(a, Pow2(n), 0, a);
    } else {
      HighMaskStep(a, n, k);
    }
  }

  lemma {:induction false} HighMaskStep(a: nat, n: nat, k: nat)
    requires 0 < k <= n && a < Pow2(n)
    ensures Pow2(k) <= Pow2(n)
    ensures And(a, Pow2(n) - Pow2(k)) == a - a % Pow2(k)
    decreases n, 0
  {
    hide And, Pow2;
    var p, q := Pow2(k - 1), Pow2(n - 1);
    Pow2Step(k);
    Pow2Step(n);
    AndHighMask(a / 2, n - 1, k - 1);
    AndEvenMask(a, q - p);
    RemainderHalves(a, p);
  }

  lemma Pow2Values()
    ensures Pow2(12) == 0x1000 && Pow2(64) == WORD_LIMIT
  {
    assert Pow2(4) == 16;
    Pow2Adds(4, 4);
    Pow2Adds(8, 4);
    Pow2Adds(8, 8);
    Pow2Adds(16, 16);
    Pow2Adds(32, 32);
  }

  lemma WordMask(a: Word)
    ensures And(a, 0x1000 - 1) == a % 0x1000
    ensures And(a, WORD_LIMIT - 0x1000) == a - a % 0x1000
  {
    Pow2Values();
    AndLowMask(a, 12);
    AndHighMask(a, 64, 12);
  }

  lemma RemainderHalves(a: nat, p: nat)
    requires p >= 1
    ensures a % (2 * p) == a % 2 + 2 * (a / 2 % p)
  {
    var q, r := a / 2 / p, a / 2 % p;
    assert a / 2 == q * p + r;
    assert a == (2 * p) * q + (2 * r + a % 2);
    QuotientIs(a, 2 * p, q, 2 * r + a % 2);
  }

  /** Byte `i` of a word stored little-endian. */
  function ByteOf(w: nat, i: nat): (b: Byte)
  {
    if i == 0 then w % 256 else ByteOf(w / 256, i - 1)
  }

  /** The word after a byte store to its offset `i`. */
  function SetByte(w: nat, i: nat, b: Byte): nat
  {
    if i == 0 then w - w % 256 + b else w % 256 + 256 * SetByte(w / 256, i - 1, b)
  }

  function Pow256(n: nat): nat
  {
    if n == 0 then 1 else 256 * Pow256(n - 1)
  }

  // A byte store changes the byte it names and no other, and stays in the word.
  lemma {:induction false} SetByteStores(w: nat, n: nat, i: nat, b: Byte)
    requires w < Pow256(n) && i < n
    ensures SetByte(w, i, b) < Pow256(n)
    ensures forall j: nat :: ByteOf(SetByte(w, i, b), j) == if j == i then b else ByteOf(w, j)
  {
    var v := SetByte(w, i, b);
    if i == 0 {
      assert v / 256 == w / 256 && v % 256 == b;
      assert w / 256 < Pow256(n - 1);
    } else {
      SetByteStores(w / 256, n - 1, i - 1, b);
      assert v / 256 == SetByte(w / 256, i - 1, b) && v % 256 == w % 256;
    }
    forall j: nat ensures ByteOf(v, j) == if j == i then b else ByteOf(w, j) {
      if j > 0 {
        assert ByteOf(v, j) == ByteOf(v / 256, j - 1);
        assert ByteOf(w, j) == ByteOf(w / 256, j - 1);
      }
    }
  }

  /** The number that bytes stand for, least significant first. */
  function FromBytes(bytes: seq<Byte>): nat
  {
    if bytes == [] then 0 else bytes[0] + 256 * FromBytes(bytes[1..])
  }

  // The bytes of a word, least significant first, make up the word.
  lemma {:induction false} BytesMakeWord(w: nat, n: nat)
    requires w < Pow256(n)
    ensures FromBytes(seq(n, i requires i >= 0 => ByteOf(w, i))) == w
  {
    if n > 0 {
      var bytes := seq(n, i requires i >= 0 => ByteOf(w, i));
      BytesMakeWord(w / 256, n - 1);
      assert bytes[1..] == seq(n - 1, i requires i >= 0 => ByteOf(w / 256, i));
    }
  }

  lemma {:induction false} ZeroBytesZeroWord(w: nat, n: nat)
    requires w < Pow256(n)
    requires forall i: nat :: i < n ==> ByteOf(w, i) == 0
    ensures w == 0
  {
    if n > 0 {
      assert ByteOf(w, 0) == 0;
      forall i: nat | i < n - 1 ensures ByteOf(w / 256, i) == 0 {
        assert ByteOf(w, i + 1) == 0;
      }
      ZeroBytesZeroWord(w / 256, n - 1);
    }
  }

  lemma {:induction false} ZeroWordZeroBytes(i: nat)
    ensures ByteOf(0, i) == 0
  {
    if i > 0 {
      ZeroWordZeroBytes(i - 1);
    }
  }
}
