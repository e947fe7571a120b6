/** `src/sse_extensions.h`: lane arithmetic that SSE lacks, built from lane arithmetic it has. */
module SseExtensions {
  import opened Bits
  import opened Vectors

  // ----- the SSE operations used, lane by lane -----

  function AddWord(x: word, y: word): word { (x + y) % TWO_32 }
  function SubWord(x: word, y: word): word { (x - y) % TWO_32 }
  function AddByte(x: byte, y: byte): byte { (x + y) % 0x100 }
  function SubByte(x: byte, y: byte): byte { (x - y) % 0x100 }

  lemma QuotientAtMost(x: nat, d: nat)
    requires d >= 1
    ensures 0 <= x / d <= x
  {
    ProductAtLeast(d, x / d);
  }

  function Quotient(x: nat, d: nat): (q: nat)
    requires d >= 1
    ensures q == x / d && q <= x
  {
    QuotientAtMost(x, d);
    x / d
  }

  lemma ProductAtLeast(d: nat, q: nat)
    requires d >= 1
    ensures d * q >= q
  {
  }

  function ShrWord(w: word, k: nat): (r: word)
    ensures r == w / Pow2(k)
  {
    Quotient(w, Pow2(k))
  }

  function ShrHalf(w: half, k: nat): (r: half)
    ensures r == w / Pow2(k)
  {
    Quotient(w, Pow2(k))
  }

  function ShlWord(w: word, k: nat): word { w * Pow2(k) % TWO_32 }
  function ShlHalf(w: half, k: nat): half { w * Pow2(k) % 0x1_0000 }

  function AndByte(x: byte, y: byte): byte { AndBound(8, x, y); And(x, y) }
  function OrByte(x: byte, y: byte): byte { OrBound(8, x, y); Or(x, y) }

  function AndWord(x: word, y: word): word { Powers(); AndBound(32, x, y); And(x, y) }
  function OrWord(x: word, y: word): word { Powers(); OrBound(32, x, y); Or(x, y) }
  function AndNotWord(x: word, y: word): word { AndWord(0xFFFF_FFFF - x, y) }
  function AndHalfword(x: half, y: half): half { Powers(); AndBound(16, x, y); And(x, y) }
  function OrHalfword(x: half, y: half): half { Powers(); OrBound(16, x, y); Or(x, y) }

  /** All `n` bits set when `p` holds, none otherwise: the result of a lane comparison. */
  function Mask(n: nat, p: bool): (m: nat)
    ensures m < Pow2(n)
  {
    if p then Pow2(n) - 1 else 0
  }

  function MaskWord(p: bool): word { Powers(); Mask(32, p) }
  function MaskHalf(p: bool): half { Powers(); Mask(16, p) }
  function MaskByte(p: bool): byte { Powers(); Mask(8, p) }

  /** The value of an `n`-bit lane read in two's complement. */
  function Signed(n: nat, x: nat): int { if 2 * x >= Pow2(n) then x - Pow2(n) else x }

  function EqWord(x: word, y: word): word { MaskWord(x == y) }
  function LtWord(x: word, y: word): word { MaskWord(Signed(32, x) < Signed(32, y)) }
  function GtWord(x: word, y: word): word { MaskWord(Signed(32, x) > Signed(32, y)) }
  function EqHalf(x: half, y: half): half { MaskHalf(x == y) }
  function GtHalf(x: half, y: half): half { MaskHalf(Signed(16, x) > Signed(16, y)) }
  function EqByte(x: byte, y: byte): byte { MaskByte(x == y) }
  function GtByte(x: byte, y: byte): byte { MaskByte(Signed(8, x) > Signed(8, y)) }

  function AddEpi32(a: Quad, b: Quad): Quad { MapWords(AddWord, a, b) }
  function SubEpi32(a: Quad, b: Quad): Quad { MapWords(SubWord, a, b) }
  function AddEpi8(a: Quad, b: Quad): Quad { MapBytes(AddByte, a, b) }
  function SubEpi8(a: Quad, b: Quad): Quad { MapBytes(SubByte, a, b) }
  function AndSi128(a: Quad, b: Quad): Quad { MapBytes(AndByte, a, b) }
  function OrSi128(a: Quad, b: Quad): Quad { MapBytes(OrByte, a, b) }
  function CmpEqEpi32(a: Quad, b: Quad): Quad { MapWords(EqWord, a, b) }
  function CmpEqEpi16(a: Quad, b: Quad): Quad { MapHalves(EqHalf, a, b) }
  function CmpEqEpi8(a: Quad, b: Quad): Quad { MapBytes(EqByte, a, b) }
  function CmpGtEpi8(a: Quad, b: Quad): Quad { MapBytes(GtByte, a, b) }
  function SrliEpi32(a: Quad, k: nat): Quad { MapWord(w => ShrWord(w, k), a) }
  function SlliEpi32(a: Quad, k: nat): Quad { MapWord(w => ShlWord(w, k), a) }

  /** `_mm_srli_si128` and `_mm_slli_si128`: shifts of the whole register by `n` bytes. */
  function SrliSi128(a: Quad, n: nat): Quad
    requires n <= 16
  {
    a[n..] + seq(n, i => 0)
  }

  function SlliSi128(a: Quad, n: nat): Quad
    requires n <= 16
  {
    seq(n, i => 0) + a[..16 - n]
  }

  /** `_mm_srli_epi8` and `_mm_slli_epi8`: a word shift with the bits of the neighbours masked off. */
  function SrliEpi8(a: Quad, k: nat): Quad { AndSi128(SplatByte(ShrWord(0xFF, k) % 0x100), SrliEpi32(a, k)) }
  function SlliEpi8(a: Quad, k: nat): Quad { AndSi128(SplatByte(0xFF * Pow2(k) % 0x100), SlliEpi32(a, k)) }

  // ----- bitwise operations seen through wider lanes -----

  lemma OrOneByte(x: byte, xh: nat, y: byte, yh: nat)
    ensures OrByte(x, y) + 0x100 * Or(xh, yh) == Or(x + 0x100 * xh, y + 0x100 * yh)
  {
    assert Pow2(8) == 0x100;
    OrJoin(8, 0x100, x, xh, y, yh);
  }

  lemma OrFourBytes(x0: byte, x1: byte, x2: byte, x3: byte, y0: byte, y1: byte, y2: byte, y3: byte)
    ensures FourBytes(OrByte(x0, y0), OrByte(x1, y1), OrByte(x2, y2), OrByte(x3, y3))
         == Or(FourBytes(x0, x1, x2, x3), FourBytes(y0, y1, y2, y3))
  {
    var xh: nat, yh: nat := x2 as int + 0x100 * (x3 as int), y2 as int + 0x100 * (y3 as int);
    OrOneByte(x2, x3, y2, y3);
    OrTwoBytes(x0, x1, xh, y0, y1, yh, x1 as int + 0x100 * xh, y1 as int + 0x100 * yh);
  }

  lemma OrTwoBytes(x0: byte, x1: byte, xh: nat, y0: byte, y1: byte, yh: nat, x: nat, y: nat)
    requires x == x1 + 0x100 * xh && y == y1 + 0x100 * yh
    ensures OrByte(x0, y0) + 0x100 * (OrByte(x1, y1) + 0x100 * Or(xh, yh)) == Or(x0 + 0x100 * x, y0 + 0x100 * y)
  {
    OrOneByte(x1, xh, y1, yh);
    OrOneByte(x0, x, y0, y);
  }

  lemma OrWords(a: Quad, b: Quad, i: nat)
    requires i < 4
    ensures Word(OrSi128(a, b), i) == Or(Word(a, i), Word(b, i))
  {
    var p := 4 * i;
    OrFourBytes(a[p], a[p + 1], a[p + 2], a[p + 3], b[p], b[p + 1], b[p + 2], b[p + 3]);
  }

  /** Masks behave as truth values under `And` and `Or`. */
  lemma MaskAlgebra(n: nat, p: bool, q: bool)
    ensures And(Mask(n, p), Mask(n, q)) == Mask(n, p && q)
    ensures Or(Mask(n, p), Mask(n, q)) == Mask(n, p || q)
  {
    AndSelf(Pow2(n) - 1);
    OrSelf(Pow2(n) - 1);
    AndZero(Pow2(n) - 1);
    OrZero(Pow2(n) - 1);
  }

  // ----- unsigned comparison by halving -----

  // The word and halfword versions use lane operations only, so one lane says it all.

  function LtEpu32(x: word, y: word): word {
    var xShift, yShift := ShrWord(x, 1), ShrWord(y, 1);
    var xLsb, yLsb := ShrWord(ShlWord(x, 31), 31), ShrWord(ShlWord(y, 31), 31);
    OrWord(LtWord(xShift, yShift), AndWord(EqWord(xShift, yShift), LtWord(xLsb, yLsb)))
  }

  function GtEpu32(x: word, y: word): word {
    var xShift, yShift := ShrWord(x, 1), ShrWord(y, 1);
    var xLsb, yLsb := ShrWord(ShlWord(x, 31), 31), ShrWord(ShlWord(y, 31), 31);
    OrWord(GtWord(xShift, yShift), AndWord(EqWord(xShift, yShift), GtWord(xLsb, yLsb)))
  }

  function GtEpu16(x: half, y: half): half {
    var xShift, yShift := ShrHalf(x, 1), ShrHalf(y, 1);
    var xLsb, yLsb := ShrHalf(ShlHalf(x, 15), 15), ShrHalf(ShlHalf(y, 15), 15);
    OrHalfword(GtHalf(xShift, yShift), AndHalfword(EqHalf(xShift, yShift), GtHalf(xLsb, yLsb)))
  }

  function CmpLtEpu32(a: Quad, b: Quad): Quad { MapWords(LtEpu32, a, b) }
  function CmpGtEpu32(a: Quad, b: Quad): Quad { MapWords(GtEpu32, a, b) }
  function CmpGtEpu16(a: Quad, b: Quad): Quad { MapHalves(GtEpu16, a, b) }

  function CmpGtEpu8(a: Quad, b: Quad): Quad {
    var aShift := SrliEpi8(a, 1);
    var bShift := SrliEpi8(b, 1);
    var aLsb := SrliEpi8(SlliEpi8(a, 7), 7);
    var bLsb := SrliEpi8(SlliEpi8(b, 7), 7);
    OrSi128(CmpGtEpi8(aShift, bShift), AndSi128(CmpEqEpi8(aShift, bShift), CmpGtEpi8(aLsb, bLsb)))
  }

  /** Two shifts by 31 leave the least significant bit. */
  lemma LeastBitOfWord(w: word)
    ensures ShrWord(ShlWord(w, 31), 31) == w % 2
  {
    Powers();
    var h := w / 2;
    assert w * 0x8000_0000 == TWO_32 * h + (w % 2) * 0x8000_0000;
    assert w * 0x8000_0000 % TWO_32 == (w % 2) * 0x8000_0000;
  }

  lemma LeastBitOfHalf(w: half)
    ensures ShrHalf(ShlHalf(w, 15), 15) == w % 2
  {
    Powers();
    var h := w / 2;
    assert w * 0x8000 == 0x1_0000 * h + (w % 2) * 0x8000;
    assert w * 0x8000 % 0x1_0000 == (w % 2) * 0x8000;
  }

  /** The order of two numbers from their halves and their lowest bits. */
  lemma OrderByHalving(x: nat, y: nat)
    ensures x < y <==> x / 2 < y / 2 || (x / 2 == y / 2 && x % 2 < y % 2)
  {
  }

  /** Joining three masks as `first | (second & third)`. */
  lemma JoinMasks(n: nat, p: bool, q: bool, r: bool)
    ensures Or(Mask(n, p), And(Mask(n, q), Mask(n, r))) == Mask(n, p || (q && r))
  {
    MaskAlgebra(n, q, r);
    MaskAlgebra(n, p, q && r);
  }

  lemma SmallSigned(x: nat)
    ensures x < 0x8000_0000 ==> Signed(32, x) == x
    ensures x < 0x8000 ==> Signed(16, x) == x
    ensures x < 0x80 ==> Signed(8, x) == x
  {
    Powers();
  }

  lemma HalvedWord(w: word)
    ensures ShrWord(w, 1) == w / 2 && Signed(32, w / 2) == w / 2
    ensures ShrWord(ShlWord(w, 31), 31) == w % 2 && Signed(32, w % 2) == w % 2
  {
    Powers();
    LeastBitOfWord(w);
    SmallSigned(w / 2);
    SmallSigned(w % 2);
  }

  lemma HalvedHalf(w: half)
    ensures ShrHalf(w, 1) == w / 2 && Signed(16, w / 2) == w / 2
    ensures ShrHalf(ShlHalf(w, 15), 15) == w % 2 && Signed(16, w % 2) == w % 2
  {
    Powers();
    LeastBitOfHalf(w);
    SmallSigned(w / 2);
    SmallSigned(w % 2);
  }

  lemma LtEpu32Correct(x: word, y: word)
    ensures LtEpu32(x, y) == MaskWord(x < y)
  {
    HalvedWord(x);
    HalvedWord(y);
    JoinMasks(32, x / 2 < y / 2, x / 2 == y / 2, x % 2 < y % 2);
    OrderByHalving(x, y);
  }

  lemma GtEpu32Correct(x: word, y: word)
    ensures GtEpu32(x, y) == MaskWord(x > y)
  {
    HalvedWord(x);
    HalvedWord(y);
    JoinMasks(32, x / 2 > y / 2, x / 2 == y / 2, x % 2 > y % 2);
    OrderByHalving(y, x);
  }

  lemma GtEpu16Correct(x: half, y: half)
    ensures GtEpu16(x, y) == MaskHalf(x > y)
  {
    HalvedHalf(x);
    HalvedHalf(y);
    JoinMasks(16, x / 2 > y / 2, x / 2 == y / 2, x % 2 > y % 2);
    OrderByHalving(y, x);
  }

  /** The three comparisons are the unsigned orders, lane by lane. */
  lemma UnsignedComparisons(a: Quad, b: Quad)
    ensures forall i :: 0 <= i < 4 ==> Word(CmpLtEpu32(a, b), i) == MaskWord(Word(a, i) < Word(b, i))
    ensures forall i :: 0 <= i < 4 ==> Word(CmpGtEpu32(a, b), i) == MaskWord(Word(a, i) > Word(b, i))
    ensures forall i :: 0 <= i < 8 ==> Half(CmpGtEpu16(a, b), i) == MaskHalf(Half(a, i) > Half(b, i))
  {
    forall i | 0 <= i < 4
      ensures Word(CmpLtEpu32(a, b), i) == MaskWord(Word(a, i) < Word(b, i))
      ensures Word(CmpGtEpu32(a, b), i) == MaskWord(Word(a, i) > Word(b, i))
    {
      LtEpu32Correct(Word(a, i), Word(b, i));
      GtEpu32Correct(Word(a, i), Word(b, i));
    }
    forall i | 0 <= i < 8
      ensures Half(CmpGtEpu16(a, b), i) == MaskHalf(Half(a, i) > Half(b, i))
    {
      GtEpu16Correct(Half(a, i), Half(b, i));
    }
  }
}
