/**
 * The two reflected 32-bit CRCs: CRC32C (section 12.1 of RFC 3720) for pages, driven by a table of
 * 256 entries, and the bit-at-a-time CRC of log records. Both are the same register with another
 * polynomial. A 32-bit register is a sequence of 32 bits, least significant first, so that exclusive or is
 * pointwise and a right shift drops the head.
 */
module Checksum {
  import opened Bytes

  const CRC32C_POLYNOMIAL := 0x82f63b78
  const LOG_POLYNOMIAL := 0xEDB88320

  type Word = w: seq<bool> | |w| == 32 witness seq(32, i => false)

  function ToBits(v: nat, n: nat): (s: seq<bool>)
    ensures |s| == n
  {
    if n == 0 then [] else [v % 2 == 1] + ToBits(v / 2, n - 1)
  }

  function FromBits(s: seq<bool>): (v: nat)
    ensures v < Pow2(|s|)
  {
    if s == [] then 0 else (if s[0] then 1 else 0) + 2 * FromBits(s[1..])
  }

  function Pow2(n: nat): (r: nat)
    ensures r > 0
  {
    if n == 0 then 1 else 2 * Pow2(n - 1)
  }

  function Xor(a: seq<bool>, b: seq<bool>): (r: seq<bool>)
    requires |a| == |b|
    ensures |r| == |a|
  {
    seq(|a|, i requires 0 <= i < |a| => a[i] != b[i])
  }

  function Zeros(n: nat): (s: seq<bool>)
    ensures |s| == n
  {
    seq(n, i => false)
  }

  /** `w >> n`. */
  function ShiftRight(w: Word, n: nat): (r: Word)
    requires n <= 32
  {
    w[n..] + Zeros(n)
  }

  function Castagnoli(): (p: Word) {
    ToBits(CRC32C_POLYNOMIAL, 32)
  }

  function LogPolynomial(): (p: Word) {
    ToBits(LOG_POLYNOMIAL, 32)
  }

  /** One step of the reflected shift register. */
  function ShiftOnce(poly: Word, c: Word): (r: Word) {
    if c[0] then Xor(poly, ShiftRight(c, 1)) else ShiftRight(c, 1)
  }

  function ShiftBits(poly: Word, c: Word, n: nat): (r: Word) {
    if n == 0 then c else ShiftOnce(poly, ShiftBits(poly, c, n - 1))
  }

  /** A byte widened to a word. */
  function Widen(b: byte): (w: Word) {
    ToBits(b, 8) + Zeros(24)
  }

  /** The bit-at-a-time CRC: the reference that the table is meant to speed up. */
  function BitwiseUpdate(poly: Word, crc: Word, s: seq<byte>): (r: Word) {
    if s == [] then crc
    else ShiftBits(poly, Xor(BitwiseUpdate(poly, crc, s[..|s| - 1]), Widen(s[|s| - 1])), 8)
  }

  function Ones(): (w: Word) {
    seq(32, i => true)
  }

  function Crc(poly: Word, s: seq<byte>): (crc: Word) {
    Xor(BitwiseUpdate(poly, Ones(), s), Ones())
  }

  // ---------- bits of integers ----------

  lemma {:induction false} ToFromBits(s: seq<bool>)
    ensures ToBits(FromBits(s), |s|) == s
  {
    if s != [] {
      ToFromBits(s[1..]);
      assert s == [s[0]] + s[1..];
    }
  }

  lemma {:induction false} FromToBits(v: nat, n: nat)
    requires v < Pow2(n)
    ensures FromBits(ToBits(v, n)) == v
  {
    if n > 0 {
      FromToBits(v / 2, n - 1);
      assert ToBits(v, n)[1..] == ToBits(v / 2, n - 1);
    }
  }

  lemma {:induction false} TopBit(v: nat, n: nat)
    requires n > 0 && Pow2(n - 1) <= v < Pow2(n)
    ensures ToBits(v, n)[n - 1]
  {
    if n > 1 {
      TopBit(v / 2, n - 1);
    }
  }

  lemma Pow2Of31()
    ensures Pow2(31) == 0x8000_0000
  {
    assert Pow2(8) == 256;
    assert Pow2(7) == 128;
    Pow2Add(8, 8);
    assert Pow2(16) == 0x1_0000;
    Pow2Add(8, 7);
    assert Pow2(15) == 0x8000;
    Pow2Add(16, 15);
  }

  lemma FourBits(v: nat, n: nat)
    ensures ToBits(v, n + 4)
            == [v % 2 == 1, v / 2 % 2 == 1, v / 4 % 2 == 1, v / 8 % 2 == 1] + ToBits(v / 16, n)
  {
    hide ToBits;
    Halves(v);
    OneBit(v, n + 3);
    OneBit(v / 2, n + 2);
    OneBit(v / 4, n + 1);
    OneBit(v / 8, n);
  }

  lemma Halves(v: nat)
    ensures v / 2 / 2 == v / 4 && v / 4 / 2 == v / 8 && v / 8 / 2 == v / 16
  {
  }

  lemma OneBit(v: nat, n: nat)
    ensures ToBits(v, n + 1) == [v % 2 == 1] + ToBits(v / 2, n)
  {
  }

  /** The bit of a reflected polynomial that stands for the power `i` of the unknown. */
  predicate HasTerm(p: Word, i: nat)
    requires i < 32
  {
    p[31 - i]
  }

  lemma NoBitsLeft(v: nat)
    ensures ToBits(v, 0) == []
  {
  }

  lemma SixteenBits(v: nat, n: nat)
    ensures ToBits(v, n + 16)[16..] == ToBits(v / 0x1_0000, n)
  {
    hide ToBits;
    FourBits(v, n + 12);
    FourBits(v / 16, n + 8);
    FourBits(v / 16 / 16, n + 4);
    FourBits(v / 16 / 16 / 16, n);
    assert v / 16 / 16 / 16 / 16 == v / 0x1_0000;
  }

  /** The pages' polynomial is Castagnoli's, x^32 + x^28 + ... + x^6 + 1. */
  lemma CastagnoliTerms(i: nat)
    requires i < 32
    ensures HasTerm(Castagnoli(), i) <==> i in {28, 27, 26, 25, 23, 22, 20, 19, 18, 14, 13, 11, 10, 9, 8, 6, 0}
  {
    hide ToBits;
    SixteenBits(CRC32C_POLYNOMIAL, 16);
    CastagnoliLow();
    CastagnoliHigh();
    var p := Castagnoli();
    assert p[31 - i] == if i >= 16 then p[..16][31 - i] else p[16..][15 - i];
  }

  lemma CastagnoliLow()
    ensures ToBits(CRC32C_POLYNOMIAL, 32)[..16]
            == [false, false, false, true, true, true, true, false,
                true, true, false, true, true, true, false, false]
  {
    hide ToBits;
    FourBits(0x82f63b78, 28);
    FourBits(0x82f63b7, 24);
    FourBits(0x82f63b, 20);
    FourBits(0x82f63, 16);
  }

  lemma CastagnoliHigh()
    ensures ToBits(CRC32C_POLYNOMIAL / 0x1_0000, 16)
            == [false, true, true, false, true, true, true, true,
                false, true, false, false, false, false, false, true]
  {
    hide ToBits;
    FourBits(0x82f6, 12);
    FourBits(0x82f, 8);
    FourBits(0x82, 4);
    FourBits(0x8, 0);
    NoBitsLeft(0x0);
  }

  /** The log's polynomial is that of IEEE 802.3, x^32 + x^26 + ... + x + 1. */
  lemma LogTerms(i: nat)
    requires i < 32
    ensures HasTerm(LogPolynomial(), i) <==> i in {26, 23, 22, 16, 12, 11, 10, 8, 7, 5, 4, 2, 1, 0}
  {
    hide ToBits;
    SixteenBits(LOG_POLYNOMIAL, 16);
    LogLow();
    LogHigh();
    var p := LogPolynomial();
    assert p[31 - i] == if i >= 16 then p[..16][31 - i] else p[16..][15 - i];
  }

  lemma LogLow()
    ensures ToBits(LOG_POLYNOMIAL, 32)[..16]
            == [false, false, false, false, false, true, false, false,
                true, true, false, false, false, false, false, true]
  {
    hide ToBits;
    FourBits(0xedb88320, 28);
    FourBits(0xedb8832, 24);
    FourBits(0xedb883, 20);
    FourBits(0xedb88, 16);
  }

  lemma LogHigh()
    ensures ToBits(LOG_POLYNOMIAL / 0x1_0000, 16)
            == [false, false, false, true, true, true, false, true,
                true, false, true, true, false, true, true, true]
  {
    hide ToBits;
    FourBits(0xedb8, 12);
    FourBits(0xedb, 8);
    FourBits(0xed, 4);
    FourBits(0xe, 0);
    NoBitsLeft(0x0);
  }

  /** The checksum of nothing is zero, and that of four bytes of ones is all ones, for any polynomial. */
  lemma CrcOfOnes(poly: Word)
    ensures Crc(poly, []) == Zeros(32) && Crc(poly, [0xff, 0xff, 0xff, 0xff]) == Ones()
  {
    hide ShiftBits, ToBits;
    var full := [0xff, 0xff, 0xff, 0xff];
    OnesOut(poly, full, 0);
    OnesOut(poly, full, 1);
    OnesOut(poly, full, 2);
    OnesOut(poly, full, 3);
    assert full[..4] == full && full[..0] == [];
    assert Xor(Ones(), Ones()) == Zeros(32);
    assert Xor(Zeros(32), Ones()) == Ones();
  }

  /** After `k` bytes of ones the low bits of the register are ones no longer. */
  lemma OnesOut(poly: Word, s: seq<byte>, k: nat)
    requires k < |s| <= 4 && s[k] == 0xff
    requires BitwiseUpdate(poly, Ones(), s[..k]) == Ones()[8 * k..] + Zeros(8 * k)
    ensures BitwiseUpdate(poly, Ones(), s[..k + 1]) == Ones()[8 * k + 8..] + Zeros(8 * k + 8)
  {
    hide ShiftBits, ToBits;
    assert s[..k + 1][..k] == s[..k];
    var c := Xor(Ones()[8 * k..] + Zeros(8 * k), Widen(0xff));
    WideOnes();
    assert c == Zeros(8) + Ones()[8 * k + 8..] + Zeros(8 * k);
    ShiftBitsHigh(poly, c, 8);
    assert ShiftRight(c, 8) == Ones()[8 * k + 8..] + Zeros(8 * k + 8);
  }

  lemma WideOnes()
    ensures forall i :: 0 <= i < 8 ==> Widen(0xff)[i]
    ensures forall i :: 8 <= i < 32 ==> !Widen(0xff)[i]
  {
    hide ToBits;
    FourBits(0xff, 4);
    FourBits(0xf, 0);
    NoBitsLeft(0);
  }

  /** Both polynomials have their top bit set, so the bit shifted out can be read back. */
  lemma PolynomialTopBit()
    ensures Castagnoli()[31] && LogPolynomial()[31]
  {
    hide ToBits;
    Pow2Of31();
    TopBit(CRC32C_POLYNOMIAL, 32);
    TopBit(LOG_POLYNOMIAL, 32);
  }

  lemma {:induction false} Pow2Add(a: nat, b: nat)
    ensures Pow2(a + b) == Pow2(a) * Pow2(b)
  {
    if a > 0 {
      Pow2Add(a - 1, b);
    }
  }

  // ---------- the register is linear and loses no information ----------

  lemma ShiftOnceLinear(poly: Word, a: Word, b: Word)
    ensures ShiftOnce(poly, Xor(a, b)) == Xor(ShiftOnce(poly, a), ShiftOnce(poly, b))
  {
    var x, y := ShiftOnce(poly, Xor(a, b)), Xor(ShiftOnce(poly, a), ShiftOnce(poly, b));
    assert forall i :: 0 <= i < 32 ==> x[i] == y[i];
  }

  lemma {:induction false} ShiftBitsLinear(poly: Word, a: Word, b: Word, n: nat)
    ensures ShiftBits(poly, Xor(a, b), n) == Xor(ShiftBits(poly, a, n), ShiftBits(poly, b, n))
  {
    if n > 0 {
      ShiftBitsLinear(poly, a, b, n - 1);
      ShiftOnceLinear(poly, ShiftBits(poly, a, n - 1), ShiftBits(poly, b, n - 1));
    }
  }

  lemma ShiftOnceBit(poly: Word, c: Word, i: nat)
    requires i < 32
    ensures ShiftOnce(poly, c)[i] == ((i < 31 && c[i + 1]) != (c[0] && poly[i]))
  {
  }

  lemma ShiftOnceInjective(poly: Word, a: Word, b: Word)
    requires poly[31] && ShiftOnce(poly, a) == ShiftOnce(poly, b)
    ensures a == b
  {
    ShiftOnceBit(poly, a, 31);
    ShiftOnceBit(poly, b, 31);
    forall i | 0 <= i < 32
      ensures a[i] == b[i]
    {
      if i > 0 {
        ShiftOnceBit(poly, a, i - 1);
        ShiftOnceBit(poly, b, i - 1);
      }
    }
  }

  lemma {:induction false} ShiftBitsInjective(poly: Word, a: Word, b: Word, n: nat)
    requires poly[31] && ShiftBits(poly, a, n) == ShiftBits(poly, b, n)
    ensures a == b
  {
    if n > 0 {
      ShiftOnceInjective(poly, ShiftBits(poly, a, n - 1), ShiftBits(poly, b, n - 1));
      ShiftBitsInjective(poly, a, b, n - 1);
    }
  }

  /** While the bits shifted out are zero, `n` steps only shift. */
  lemma {:induction false} ShiftBitsHigh(poly: Word, c: Word, n: nat)
    requires n <= 32 && forall i :: 0 <= i < n ==> !c[i]
    ensures ShiftBits(poly, c, n) == ShiftRight(c, n)
  {
    if n == 0 {
      assert ShiftRight(c, 0) == c;
    } else {
      ShiftBitsHigh(poly, c, n - 1);
      var d := ShiftRight(c, n - 1);
      assert d[0] == c[n - 1];
      assert ShiftRight(d, 1) == ShiftRight(c, n);
    }
  }

  // ---------- the table-driven loop ----------

  /** The table index of the loop: `x` cut down to a byte. */
  function LowByte(x: Word): byte {
    assert Pow2(8) == 256;
    FromBits(x[..8])
  }

  function LowPart(x: Word): (r: Word) {
    x[..8] + Zeros(24)
  }

  function HighPart(x: Word): (r: Word) {
    Zeros(8) + x[8..]
  }

  lemma SplitWord(x: Word)
    ensures Xor(LowPart(x), HighPart(x)) == x
    ensures Widen(LowByte(x)) == LowPart(x)
  {
    ToFromBits(x[..8]);
  }

  lemma HighPartIgnoresByte(crc: Word, b: byte)
    ensures ShiftRight(HighPart(Xor(crc, Widen(b))), 8) == ShiftRight(crc, 8)
  {
  }

  /** One table lookup does the work of eight single-bit steps. */
  lemma TableStep(poly: Word, crc: Word, b: byte)
    ensures var x := Xor(crc, Widen(b));
            Xor(ShiftBits(poly, Widen(LowByte(x)), 8), ShiftRight(crc, 8)) == ShiftBits(poly, x, 8)
  {
    var x := Xor(crc, Widen(b));
    var low, high := LowPart(x), HighPart(x);
    SplitWord(x);
    HighPartIgnoresByte(crc, b);
    ShiftBitsLinear(poly, low, high, 8);
    ShiftBitsHigh(poly, high, 8);
  }

  method BuildTable(poly: Word) returns (table: array<Word>)
    ensures fresh(table) && table.Length == 256
    ensures forall i: byte :: table[i] == ShiftBits(poly, Widen(i), 8)
  {
    table := new Word[256];
    for i := 0 to 256
      invariant forall k: byte :: k < i ==> table[k] == ShiftBits(poly, Widen(k), 8)
    {
      var c := Widen(i);
      for j := 0 to 8
        invariant c == ShiftBits(poly, Widen(i), j)
      {
        if c[0] {
          c := Xor(poly, ShiftRight(c, 1));
        } else {
          c := ShiftRight(c, 1);
        }
      }
      table[i] := c;
    }
  }

  /** The table-driven checksum is the bit-at-a-time CRC of every byte string. */
  method CalculateChecksum(poly: Word, table: array<Word>, data: seq<byte>) returns (crc: Word)
    requires table.Length == 256
    requires forall i: byte :: table[i] == ShiftBits(poly, Widen(i), 8)
    ensures crc == Crc(poly, data)
  {
    crc := Ones();
    for i := 0 to |data|
      invariant crc == BitwiseUpdate(poly, Ones(), data[..i])
    {
      TableStep(poly, crc, data[i]);
      assert data[..i + 1][..i] == data[..i];
      crc := Xor(table[LowByte(Xor(crc, Widen(data[i])))], ShiftRight(crc, 8));
    }
    assert data[..|data|] == data;
    crc := Xor(crc, Ones());
  }

  // ---------- error detection ----------

  lemma WidenInjective(a: byte, b: byte)
    requires Widen(a) == Widen(b)
    ensures a == b
  {
    assert Widen(a)[..8] == ToBits(a, 8) && Widen(b)[..8] == ToBits(b, 8);
    assert Pow2(8) == 256;
    FromToBits(a, 8);
    FromToBits(b, 8);
  }

  lemma XorInjective(p: Word, x: Word, y: Word)
    requires Xor(p, x) == Xor(p, y) || Xor(x, p) == Xor(y, p)
    ensures x == y
  {
    forall i | 0 <= i < 32
      ensures x[i] == y[i]
    {
      assert Xor(p, x)[i] == Xor(x, p)[i] == (p[i] != x[i]);
      assert Xor(p, y)[i] == Xor(y, p)[i] == (p[i] != y[i]);
    }
  }

  lemma {:induction false} DifferentStatesStayDifferent(poly: Word, c: Word, s: seq<byte>, i: nat, b: byte)
    requires poly[31] && i < |s| && s[i] != b
    ensures BitwiseUpdate(poly, c, s) != BitwiseUpdate(poly, c, s[i := b])
    decreases |s|
  {
    var t := s[i := b];
    var n := |s| - 1;
    var x, y := BitwiseUpdate(poly, c, s[..n]), BitwiseUpdate(poly, c, t[..n]);
    if BitwiseUpdate(poly, c, s) == BitwiseUpdate(poly, c, t) {
      ShiftBitsInjective(poly, Xor(x, Widen(s[n])), Xor(y, Widen(t[n])), 8);
      if i == n {
        assert s[..n] == t[..n];
        XorInjective(x, Widen(s[n]), Widen(t[n]));
        WidenInjective(s[n], b);
      } else {
        assert t[..n] == s[..n][i := b];
        XorInjective(Widen(s[n]), x, y);
        DifferentStatesStayDifferent(poly, c, s[..n], i, b);
      }
    }
  }

  /** Changing exactly one byte always changes the checksum. */
  lemma OneByteChangeDetected(poly: Word, s: seq<byte>, i: nat, b: byte)
    requires poly[31] && i < |s| && s[i] != b
    ensures Crc(poly, s) != Crc(poly, s[i := b])
  {
    DifferentStatesStayDifferent(poly, Ones(), s, i, b);
    if Crc(poly, s) == Crc(poly, s[i := b]) {
      XorInjective(Ones(), BitwiseUpdate(poly, Ones(), s), BitwiseUpdate(poly, Ones(), s[i := b]));
    }
  }
}
