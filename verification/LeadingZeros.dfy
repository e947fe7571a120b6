/** `_mm_cntb_epi32` of `src/sse_extensions.h` and `si_clz` of `src/spu_internals_x86.h`: the number
    of ones in every word, by a multiplication, and the number of leading zeros, by smearing. */
module LeadingZeros {
  import opened Bits
  import opened Vectors
  import opened SseExtensions
  import opened BitCounting

  /** `_mm_mul_epu32`: the products of words 0 and 2, as two 64-bit lanes. */
  function MulEpu32(a: Quad, b: Quad): (q: Quad)
    ensures Word(q, 0) == Word(a, 0) * Word(b, 0) % TWO_32
    ensures Word(q, 2) == Word(a, 2) * Word(b, 2) % TWO_32
  {
    var p0: nat, p2: nat := Word(a, 0) * Word(b, 0), Word(a, 2) * Word(b, 2);
    FromWords(p0 % TWO_32, p0 / TWO_32 % TWO_32, p2 % TWO_32, p2 / TWO_32 % TWO_32)
  }

  /** The multiplications, the shuffle and the final shift of `_mm_cntb_epi32`. */
  function SumBytes(t2: Quad): Quad {
    var m01 := SplatWord(0x0101_0101);
    var p0 := MulEpu32(t2, m01);
    var p1 := MulEpu32(SrliSi128(t2, 4), SrliSi128(m01, 4));
    var p3 := FromWords(Word(p0, 0), Word(p0, 2), Word(p1, 0), Word(p1, 2));
    SrliEpi32(p3, 24)
  }

  function CntbEpi32(a: Quad): Quad { SumBytes(ByteCounts(a)) }

  /** The top byte of the product with 0x01010101 is the sum of the bytes. */
  lemma SumByMultiplication(c0: byte, c1: byte, c2: byte, c3: byte)
    requires c0 <= 8 && c1 <= 8 && c2 <= 8 && c3 <= 8
    ensures FourBytes(c0, c1, c2, c3) * 0x0101_0101 % TWO_32 / 0x100_0000 == c0 + c1 + c2 + c3
  {
    var s1, s2, s3 := c0 + c1, c0 + c1 + c2, c0 + c1 + c2 + c3;
    var low := FourBytes(c0, s1, s2, s3);
    var high: nat := c1 as int + c2 as int + c3 as int + 0x100 * (c2 as int + c3 as int + 0x100 * (c3 as int));
    assert FourBytes(c0, c1, c2, c3) * 0x0101_0101 == low + TWO_32 * high;
    LowWord(low, high);
    TopByte(c0, s1, s2, s3);
  }

  lemma LowWord(low: word, high: nat)
    ensures (low + TWO_32 * high) % TWO_32 == low
  {
  }

  lemma TopByte(b0: byte, b1: byte, b2: byte, b3: byte)
    ensures FourBytes(b0, b1, b2, b3) / 0x100_0000 == b3
  {
  }

  lemma PopCountOfByte(b: byte)
    ensures PopCount(b) <= 8
  {
    var b0, b1, b2, b3, b4, b5, b6, b7 := BitsOf(b);
    PopCountOfBits(b0, b1, b2, b3, b4, b5, b6, b7, b);
  }

  lemma PopCountOfTwo(b: byte, more: nat, z: nat)
    requires z == b + 0x100 * more
    ensures PopCount(z) == PopCount(b) + PopCount(more)
  {
    assert Pow2(8) == 0x100;
    PopCountJoin(8, 0x100, b, more, z);
  }

  lemma PopCountOfWord(b0: byte, b1: byte, b2: byte, b3: byte)
    ensures PopCount(FourBytes(b0, b1, b2, b3)) == PopCount(b0) + PopCount(b1) + PopCount(b2) + PopCount(b3)
  {
    var h2: nat := b2 + 0x100 * (b3 as int);
    var h1: nat := b1 + 0x100 * h2;
    PopCountOfTwo(b2, b3, h2);
    PopCountOfTwo(b1, h2, h1);
    PopCountOfTwo(b0, h1, FourBytes(b0, b1, b2, b3));
  }

  lemma CountOfBytes(b0: byte, b1: byte, b2: byte, b3: byte, c0: byte, c1: byte, c2: byte, c3: byte)
    requires c0 == PopCount(b0) && c1 == PopCount(b1) && c2 == PopCount(b2) && c3 == PopCount(b3)
    ensures FourBytes(c0, c1, c2, c3) * 0x0101_0101 % TWO_32 / 0x100_0000 == PopCount(FourBytes(b0, b1, b2, b3))
  {
    PopCountOfByte(b0); PopCountOfByte(b1); PopCountOfByte(b2); PopCountOfByte(b3);
    SumByMultiplication(c0, c1, c2, c3);
    PopCountOfWord(b0, b1, b2, b3);
  }

  lemma CountOfWord(a: Quad, c: Quad, i: nat)
    requires i < 4 && c == ByteCounts(a)
    ensures Word(c, i) * 0x0101_0101 % TWO_32 / 0x100_0000 == PopCount(Word(a, i))
  {
    var p := 4 * i;
    ByteCountsCorrect(a, p); ByteCountsCorrect(a, p + 1); ByteCountsCorrect(a, p + 2); ByteCountsCorrect(a, p + 3);
    CountOfBytes(a[p], a[p + 1], a[p + 2], a[p + 3], c[p], c[p + 1], c[p + 2], c[p + 3]);
  }

  lemma ShiftedWords(a: Quad)
    ensures Word(SrliSi128(a, 4), 0) == Word(a, 1) && Word(SrliSi128(a, 4), 2) == Word(a, 3)
  {
  }

  /** The sum of the bytes of word `i` comes out in word 0, 2, 1 and 3, in that order. */
  lemma SumBytesWords(t2: Quad)
    ensures Word(SumBytes(t2), 0) == Word(t2, 0) * 0x0101_0101 % TWO_32 / 0x100_0000
    ensures Word(SumBytes(t2), 1) == Word(t2, 2) * 0x0101_0101 % TWO_32 / 0x100_0000
    ensures Word(SumBytes(t2), 2) == Word(t2, 1) * 0x0101_0101 % TWO_32 / 0x100_0000
    ensures Word(SumBytes(t2), 3) == Word(t2, 3) * 0x0101_0101 % TWO_32 / 0x100_0000
  {
    Powers();
    ShiftedWords(t2);
    ShiftedWords(SplatWord(0x0101_0101));
  }

  /** `_mm_cntb_epi32` counts every word, but returns the counts of words 1 and 2 in each other's place. */
  lemma CntbEpi32Words(a: Quad, c: Quad)
    requires c == CntbEpi32(a)
    ensures Word(c, 0) == PopCount(Word(a, 0)) && Word(c, 1) == PopCount(Word(a, 2))
    ensures Word(c, 2) == PopCount(Word(a, 1)) && Word(c, 3) == PopCount(Word(a, 3))
  {
    var t2 := ByteCounts(a);
    SumBytesWords(t2);
    CountOfWord(a, t2, 0);
    CountOfWord(a, t2, 1);
    CountOfWord(a, t2, 2);
    CountOfWord(a, t2, 3);
  }

  // ----- leading zeros -----

  /** The number of zero bits above the highest one bit of a 32-bit word. */
  function Clz(w: word): (n: nat)
    ensures n <= 32
  {
    WordBitLength(w);
    32 - BitLength(w)
  }

  lemma WordBitLength(w: word)
    ensures BitLength(w) <= 32
  {
    Powers();
    BitLengthBounds(w);
    if BitLength(w) > 32 { Pow2Mono(32, BitLength(w) - 1); }
  }

  /** `Clz` is the only number `n` for which `w` has `n` zeros at the top and then a one. */
  lemma ClzMeaning(w: word, n: nat)
    requires n <= 32
    ensures Clz(w) == n <==> w < Pow2(32 - n) && (n < 32 ==> Pow2(31 - n) <= w)
  {
    BitLengthBounds(w);
    if w < Pow2(32 - n) && (n < 32 ==> Pow2(31 - n) <= w) {
      BitLengthUnique(w, 32 - n);
    }
  }

  function SiCntb(ra: Quad): Quad { CntbEpui8(ra) }

  /** `si_cntb` counts the one bits of every byte. */
  lemma SiCntbCorrect(ra: Quad)
    ensures forall p: nat :: p < 16 ==> SiCntb(ra)[p] == PopCount(ra[p])
  {
    forall p: nat | p < 16
      ensures SiCntb(ra)[p] == PopCount(ra[p])
    {
      CntbEpui8Correct(ra, p);
    }
  }

  function SmearStep(a: Quad, k: nat): Quad { OrSi128(a, SrliEpi32(a, k)) }

  /** The five smearing steps of `si_clz`. */
  function SmearAll(ra: Quad): Quad {
    var t0 := SmearStep(ra, 1);
    var t1 := SmearStep(t0, 2);
    var t2 := SmearStep(t1, 4);
    var t3 := SmearStep(t2, 8);
    SmearStep(t3, 16)
  }

  function SiClz(ra: Quad): Quad { SubEpi32(SplatWord(32), CntbEpi32(SmearAll(ra))) }

  lemma SmearStepWord(a: Quad, x: nat, n: nat, i: nat)
    requires i < 4 && Word(a, i) == Smear(x, n)
    ensures Word(SmearStep(a, n), i) == Smear(x, 2 * n)
  {
    OrWords(a, SrliEpi32(a, n), i);
    SmearDouble(x, n);
  }

  /** After the five steps every bit below the highest one bit is set. */
  lemma SmearedWord(ra: Quad, t0: Quad, t1: Quad, t2: Quad, t3: Quad, i: nat)
    requires i < 4 && t0 == SmearStep(ra, 1) && t1 == SmearStep(t0, 2) && t2 == SmearStep(t1, 4)
             && t3 == SmearStep(t2, 8)
    ensures Word(SmearStep(t3, 16), i) == Pow2(BitLength(Word(ra, i))) - 1
  {
    var x := Word(ra, i);
    SmearOnce(x);
    SmearStepWord(ra, x, 1, i);
    SmearStepWord(t0, x, 2, i);
    SmearStepWord(t1, x, 4, i);
    SmearStepWord(t2, x, 8, i);
    SmearStepWord(t3, x, 16, i);
    FilledWord(x);
  }

  lemma SmearedWords(ra: Quad)
    ensures Word(SmearAll(ra), 0) == Pow2(BitLength(Word(ra, 0))) - 1
    ensures Word(SmearAll(ra), 1) == Pow2(BitLength(Word(ra, 1))) - 1
    ensures Word(SmearAll(ra), 2) == Pow2(BitLength(Word(ra, 2))) - 1
    ensures Word(SmearAll(ra), 3) == Pow2(BitLength(Word(ra, 3))) - 1
  {
    var t0 := SmearStep(ra, 1);
    var t1 := SmearStep(t0, 2);
    var t2 := SmearStep(t1, 4);
    var t3 := SmearStep(t2, 8);
    SmearedWord(ra, t0, t1, t2, t3, 0);
    SmearedWord(ra, t0, t1, t2, t3, 1);
    SmearedWord(ra, t0, t1, t2, t3, 2);
    SmearedWord(ra, t0, t1, t2, t3, 3);
  }

  lemma SmearOnce(x: nat)
    ensures Smear(x, 1) == x
  {
    OrZero(x);
  }

  lemma FilledWord(x: word)
    ensures Smear(x, 32) == Pow2(BitLength(x)) - 1
  {
    Powers();
    SmearFills(x, 32);
  }

  lemma CountOfSmeared(t: word, w: word)
    requires t == Pow2(BitLength(w)) - 1
    ensures PopCount(t) <= 32 && SubWord(32, PopCount(t)) == Clz(w)
  {
    PopCountOnes(BitLength(w));
    WordBitLength(w);
    DifferenceFrom32(PopCount(t), Clz(w));
  }

  lemma DifferenceFrom32(count: word, zeros: nat)
    requires count <= 32 && zeros == 32 - count
    ensures SubWord(32, count) == zeros
  {
  }

  /** `si_clz` computes the leading zeros of every word; words 1 and 2 come out exchanged. */
  lemma SiClzWords(ra: Quad, rt: Quad)
    requires rt == SiClz(ra)
    ensures Word(rt, 0) == Clz(Word(ra, 0)) && Word(rt, 1) == Clz(Word(ra, 2))
    ensures Word(rt, 2) == Clz(Word(ra, 1)) && Word(rt, 3) == Clz(Word(ra, 3))
  {
    var t := SmearAll(ra);
    SmearedWords(ra);
    CountOfSmeared(Word(t, 0), Word(ra, 0));
    CountOfSmeared(Word(t, 1), Word(ra, 1));
    CountOfSmeared(Word(t, 2), Word(ra, 2));
    CountOfSmeared(Word(t, 3), Word(ra, 3));
    CntbEpi32Words(t, CntbEpi32(t));
  }

  /** What the instruction asks for: each word of `rt` is the number of leading zeros of the same word of `ra`. */
  predicate InPlace(ra: Quad, rt: Quad) {
    && Word(rt, 0) == Clz(Word(ra, 0)) && Word(rt, 1) == Clz(Word(ra, 1))
    && Word(rt, 2) == Clz(Word(ra, 2)) && Word(rt, 3) == Clz(Word(ra, 3))
  }

  /** The instruction asks for the count of each word in its own place. That is what comes out
      exactly when the two middle words have equally many leading zeros. */
  lemma SiClzInPlaceIff(ra: Quad, rt: Quad)
    requires rt == SiClz(ra)
    ensures InPlace(ra, rt) <==> Clz(Word(ra, 1)) == Clz(Word(ra, 2))
  {
    SiClzWords(ra, rt);
  }

  /** A register on which `si_clz` differs from the instruction. */
  lemma SiClzExchanges(ra: Quad, rt: Quad)
    requires ra == FromWords(0, 1, 0, 0) && rt == SiClz(ra)
    ensures Word(rt, 1) == 32 && Clz(Word(ra, 1)) == 31
  {
    SiClzWords(ra, rt);
    assert BitLength(0) == 0 && BitLength(1) == 1;
  }
}
