/** The byte-wise part of `src/sse_extensions.h`: shifts of byte lanes made from word shifts, the
    unsigned byte comparison, and the parallel population counts. */
module BitCounting {
  import opened Bits
  import opened Vectors
  import opened SseExtensions

  /** The byte above byte `p` in the same word, 0 above the topmost one. */
  function Next(a: Quad, p: nat): byte
    requires p < 16
  {
    if p % 4 == 3 then 0 else a[p + 1]
  }

  lemma LaneBytes(q: Quad, i: nat, b0: byte, b1: byte, b2: byte, b3: byte)
    requires i < 4 && Word(q, i) == FourBytes(b0, b1, b2, b3)
    ensures q[4 * i] == b0 && q[4 * i + 1] == b1 && q[4 * i + 2] == b2 && q[4 * i + 3] == b3
  {
    BytesOfLane(q, i);
    WordOfBytes(b0, b1, b2, b3);
  }

  // ----- a word shifted right by `k` places, byte by byte; `p` is 2^k and `r` is 2^(8-k) -----

  /** Byte `b` shifted right, with the low bits of `next` above it. */
  function Funnel(b: byte, next: byte, p: nat, r: nat): nat
    requires p > 0
  {
    b / p + r * (next % p)
  }

  /** The low and the high part of a byte. */
  lemma PartsOfByte(b: byte, p: nat, r: nat) returns (low: nat, high: nat)
    requires p > 0 && p * r == 0x100
    ensures low == b % p && high == b / p && b == low + p * high && low < p && high < r
  {
    low, high := b % p, b / p;
    assert b == p * (b / p) + b % p;
    PartBelow(p, r, high, b);
  }

  lemma PartBelow(p: nat, r: nat, high: int, b: byte)
    requires p * r == 0x100 && p * high <= b && high >= 0
    ensures high < r
  {
    assert high >= r ==> p * (high - r) >= 0;
    assert p * (high - r) == p * high - p * r;
  }

  lemma FunnelIsByte(b: byte, next: byte, p: nat, r: nat)
    requires p > 0 && p * r == 0x100
    ensures Funnel(b, next, p, r) < 0x100
  {
    var _, high := PartsOfByte(b, p, r);
    var low, _ := PartsOfByte(next, p, r);
    assert r * (p - 1 - low) >= 0;
    assert r * (p - 1 - low) == p * r - r - r * low;
  }

  /** Multiplying a funnelled byte by `p` moves the low bits of `next` up to the next byte. */
  lemma FunnelScaled(b: byte, next: byte, p: nat, r: nat, low: nat, rest: nat)
    requires p > 0 && p * r == 0x100 && low == next % p
    ensures p * (Funnel(b, next, p, r) + 0x100 * rest) == p * (b / p) + 0x100 * (low + p * rest)
  {
    assert p * (b / p + r * low + 0x100 * rest) == p * (b / p) + (p * r) * low + 0x100 * (p * rest);
  }

  lemma ShiftedWord(b0: byte, b1: byte, b2: byte, b3: byte, p: nat, r: nat, f0: byte, f1: byte, f2: byte, f3: byte)
    requires p > 0 && p * r == 0x100 && f0 == Funnel(b0, b1, p, r) && f1 == Funnel(b1, b2, p, r)
    requires f2 == Funnel(b2, b3, p, r) && f3 == Funnel(b3, 0, p, r)
    ensures FourBytes(b0, b1, b2, b3) / p == FourBytes(f0, f1, f2, f3)
  {
    var low0, high0 := PartsOfByte(b0, p, r);
    var low1, high1 := PartsOfByte(b1, p, r);
    var low2, high2 := PartsOfByte(b2, p, r);
    var low3, high3 := PartsOfByte(b3, p, r);
    TopByteAlone(b3, p, r);
    FunnelScaled(b2, b3, p, r, low3, f3);
    FunnelScaled(b1, b2, p, r, low2, f2 + 0x100 * f3);
    FunnelScaled(b0, b1, p, r, low1, f1 + 0x100 * (f2 + 0x100 * f3));
    QuotientUnique(FourBytes(b0, b1, b2, b3), p, FourBytes(f0, f1, f2, f3), low0);
  }

  lemma TopByteAlone(b: byte, p: nat, r: nat)
    requires p > 0
    ensures Funnel(b, 0, p, r) == b / p
  {
    QuotientUnique(0, p, 0, 0);
    assert r * 0 == 0;
  }

  lemma SrliEpi32Lane(a: Quad, k: nat, p: nat, r: nat, i: nat)
    requires p == Pow2(k) && p * r == 0x100 && i < 4
    ensures SrliEpi32(a, k)[4 * i] == Funnel(a[4 * i], a[4 * i + 1], p, r)
    ensures SrliEpi32(a, k)[4 * i + 1] == Funnel(a[4 * i + 1], a[4 * i + 2], p, r)
    ensures SrliEpi32(a, k)[4 * i + 2] == Funnel(a[4 * i + 2], a[4 * i + 3], p, r)
    ensures SrliEpi32(a, k)[4 * i + 3] == Funnel(a[4 * i + 3], 0, p, r)
  {
    var b0, b1, b2, b3 := a[4 * i], a[4 * i + 1], a[4 * i + 2], a[4 * i + 3];
    FunnelIsByte(b0, b1, p, r);
    FunnelIsByte(b1, b2, p, r);
    FunnelIsByte(b2, b3, p, r);
    FunnelIsByte(b3, 0, p, r);
    var f0: byte, f1: byte := Funnel(b0, b1, p, r), Funnel(b1, b2, p, r);
    var f2: byte, f3: byte := Funnel(b2, b3, p, r), Funnel(b3, 0, p, r);
    ShiftedWord(b0, b1, b2, b3, p, r, f0, f1, f2, f3);
    LaneBytes(SrliEpi32(a, k), i, f0, f1, f2, f3);
  }

  /** Byte `j` of a word shift: the byte shifted, with the low bits of the byte above it. */
  lemma SrliEpi32At(a: Quad, k: nat, p: nat, r: nat, j: nat)
    requires p == Pow2(k) && p * r == 0x100 && j < 16
    ensures SrliEpi32(a, k)[j] == Funnel(a[j], Next(a, j), p, r)
  {
    var i := j / 4;
    SrliEpi32Lane(a, k, p, r, i);
    assert j == 4 * i || j == 4 * i + 1 || j == 4 * i + 2 || j == 4 * i + 3;
  }

  lemma AndSplat(m: byte, q: Quad, p: nat)
    requires p < 16
    ensures AndSi128(SplatByte(m), q)[p] == And(m, q[p])
  {
  }

  /** The mask of a byte shift, `0xFF >> k`. */
  lemma MaskOfShift(k: nat, p: nat, r: nat) returns (m: byte)
    requires p == Pow2(k) && p * r == 0x100
    ensures m == r - 1 && m == ShrWord(0xFF, k) == ShrWord(0xFF, k) % 0x100
  {
    assert p * (r - 1) == 0x100 - p;
    QuotientUnique(0xFF, p, r - 1, p - 1);
    assert 1 <= r <= p * r;
    m := r - 1;
  }

  /** It keeps what belongs to the byte. */
  lemma KeepLow(b: byte, next: byte, k: nat, p: nat, r: nat)
    requires k <= 8 && p > 0 && r == Pow2(8 - k) && p * r == 0x100
    ensures And(r - 1, Funnel(b, next, p, r)) == b / p
  {
    var _, high := PartsOfByte(b, p, r);
    MaskLow(8 - k, r, high, next % p);
  }

  lemma MaskedByte(a: Quad, k: nat, m: byte, j: nat, shifted: byte)
    requires m == ShrWord(0xFF, k) % 0x100 && j < 16 && shifted == SrliEpi32(a, k)[j]
    ensures SrliEpi8(a, k)[j] == And(m, shifted)
  {
    AndSplat(m, SrliEpi32(a, k), j);
  }

  /** Byte `j` of a byte shift is the byte shifted. */
  lemma SrliEpi8At(a: Quad, k: nat, p: nat, r: nat, j: nat)
    requires k <= 8 && p == Pow2(k) && r == Pow2(8 - k) && p * r == 0x100 && j < 16
    ensures SrliEpi8(a, k)[j] == a[j] / p
  {
    var m := MaskOfShift(k, p, r);
    SrliEpi32At(a, k, p, r, j);
    MaskedByte(a, k, m, j, SrliEpi32(a, k)[j]);
    KeepLow(a[j], Next(a, j), k, p, r);
  }

  lemma ByteShifts()
    ensures Pow2(1) == 2 && Pow2(7) == 0x80 && Pow2(2) == 4 && Pow2(6) == 0x40 && Pow2(4) == 0x10
  {
    Powers();
  }

  // ----- unsigned comparison of bytes -----

  lemma ShiftLeftBy7(b0: byte, b1: byte, b2: byte, b3: byte)
    ensures FourBytes(b0, b1, b2, b3) * 0x80 % TWO_32
         == FourBytes((b0 % 2) * 0x80, (b1 % 2) * 0x80 + b0 / 2, (b2 % 2) * 0x80 + b1 / 2, (b3 % 2) * 0x80 + b2 / 2)
  {
    var l0, h0 := Halve(b0);
    var l1, h1 := Halve(b1);
    var l2, h2 := Halve(b2);
    var l3, h3 := Halve(b3);
    var r := FourBytes(l0 * 0x80, l1 * 0x80 + h0, l2 * 0x80 + h1, l3 * 0x80 + h2);
    assert FourBytes(b0, b1, b2, b3) * 0x80 == r + TWO_32 * h3;
  }

  lemma SlliEpi32By7(a: Quad, i: nat)
    requires i < 4
    ensures SlliEpi32(a, 7)[4 * i] == (a[4 * i] % 2) * 0x80
    ensures SlliEpi32(a, 7)[4 * i + 1] == (a[4 * i + 1] % 2) * 0x80 + a[4 * i] / 2
    ensures SlliEpi32(a, 7)[4 * i + 2] == (a[4 * i + 2] % 2) * 0x80 + a[4 * i + 1] / 2
    ensures SlliEpi32(a, 7)[4 * i + 3] == (a[4 * i + 3] % 2) * 0x80 + a[4 * i + 2] / 2
  {
    assert Pow2(7) == 0x80;
    var b0, b1, b2, b3 := a[4 * i], a[4 * i + 1], a[4 * i + 2], a[4 * i + 3];
    var c0, c1, c2, c3 := (b0 % 2) * 0x80, (b1 % 2) * 0x80 + b0 / 2, (b2 % 2) * 0x80 + b1 / 2, (b3 % 2) * 0x80 + b2 / 2;
    ShiftLeftBy7(b0, b1, b2, b3);
    LaneBytes(SlliEpi32(a, 7), i, c0, c1, c2, c3);
  }

  lemma UpByteInLane(a: Quad, q: Quad, i: nat, p: nat) returns (below: nat)
    requires p < 16 && i == p / 4
    requires q[4 * i] == (a[4 * i] % 2) * 0x80 && q[4 * i + 1] == (a[4 * i + 1] % 2) * 0x80 + a[4 * i] / 2
    requires q[4 * i + 2] == (a[4 * i + 2] % 2) * 0x80 + a[4 * i + 1] / 2
    requires q[4 * i + 3] == (a[4 * i + 3] % 2) * 0x80 + a[4 * i + 2] / 2
    ensures below < 0x80 && q[p] == below + 0x80 * (a[p] % 2)
  {
    assert p == 4 * i || p == 4 * i + 1 || p == 4 * i + 2 || p == 4 * i + 3;
    below := if p == 4 * i then 0 else a[p - 1] / 2;
  }

  lemma SlliEpi32At7(a: Quad, p: nat) returns (below: nat)
    requires p < 16
    ensures below < 0x80 && SlliEpi32(a, 7)[p] == below + 0x80 * (a[p] % 2)
  {
    SlliEpi32By7(a, p / 4);
    below := UpByteInLane(a, SlliEpi32(a, 7), p / 4, p);
  }

  lemma SlliEpi8At7(a: Quad, p: nat)
    requires p < 16
    ensures SlliEpi8(a, 7)[p] == (a[p] % 2) * 0x80
  {
    TopBitMask();
    var below := SlliEpi32At7(a, p);
    MaskedUpByte(a, 0x80, p, SlliEpi32(a, 7)[p]);
    KeepTopBit(below, a[p] % 2, SlliEpi32(a, 7)[p]);
  }

  lemma MaskedUpByte(a: Quad, m: byte, p: nat, shifted: byte)
    requires m == 0xFF * Pow2(7) % 0x100 && p < 16 && shifted == SlliEpi32(a, 7)[p]
    ensures SlliEpi8(a, 7)[p] == And(m, shifted)
  {
    AndSplat(m, SlliEpi32(a, 7), p);
  }

  lemma TopBitMask()
    ensures 0xFF * Pow2(7) % 0x100 == 0x80
  {
    Powers();
  }

  lemma KeepTopBit(below: nat, top: nat, z: nat)
    requires below < 0x80 && top < 2 && z == below + 0x80 * top
    ensures And(0x80, z) == top * 0x80
  {
    JoinTopBit(below, top);
    AndOfBits(below, top);
  }

  lemma JoinTopBit(below: nat, top: nat)
    requires below < 0x80
    ensures And(0x80, below + 0x80 * top) == And(0, below) + 0x80 * And(1, top)
  {
    assert Pow2(7) == 0x80;
    AndJoin(7, 0x80, 0, 1, below, top);
  }

  lemma AndOfBits(below: nat, top: nat)
    requires top < 2
    ensures And(0, below) == 0 && And(1, top) == top
  {
    AndComm(0, below);
    AndZero(below);
  }

  lemma HalvedByte(a: Quad, p: nat)
    requires p < 16
    ensures SrliEpi8(a, 1)[p] == a[p] / 2 && Signed(8, a[p] / 2) == a[p] / 2
    ensures SrliEpi8(SlliEpi8(a, 7), 7)[p] == a[p] % 2 && Signed(8, a[p] % 2) == a[p] % 2
  {
    ByteShifts();
    SrliEpi8At(a, 1, 2, 0x80, p);
    SlliEpi8At7(a, p);
    SrliEpi8At(SlliEpi8(a, 7), 7, 0x80, 2, p);
    SmallSigned(a[p] / 2);
    SmallSigned(a[p] % 2);
  }

  lemma JoinAt(first: Quad, second: Quad, third: Quad, p: nat)
    requires p < 16
    ensures OrSi128(first, AndSi128(second, third))[p] == Or(first[p], And(second[p], third[p]))
  {
  }

  lemma CmpGtEpu8Correct(a: Quad, b: Quad, p: nat)
    requires p < 16
    ensures CmpGtEpu8(a, b)[p] == MaskByte(a[p] > b[p])
  {
    var x, y := a[p], b[p];
    var aShift, bShift := SrliEpi8(a, 1), SrliEpi8(b, 1);
    var aLsb, bLsb := SrliEpi8(SlliEpi8(a, 7), 7), SrliEpi8(SlliEpi8(b, 7), 7);
    HalvedByte(a, p);
    HalvedByte(b, p);
    JoinAt(CmpGtEpi8(aShift, bShift), CmpEqEpi8(aShift, bShift), CmpGtEpi8(aLsb, bLsb), p);
    JoinMasks(8, x / 2 > y / 2, x / 2 == y / 2, x % 2 > y % 2);
    OrderByHalving(y, x);
  }

  // ----- counting bits -----

  function CntbEpui8(a: Quad): Quad {
    var m55, m33, m0F := SplatWord(0x5555_5555), SplatWord(0x3333_3333), SplatWord(0x0F0F_0F0F);
    var t0 := SubEpi8(a, AndSi128(SrliEpi8(a, 1), m55));
    var t1 := AddEpi8(AndSi128(t0, m33), AndSi128(SrliEpi8(t0, 2), m33));
    AndSi128(AddEpi8(t1, SrliEpi8(t1, 4)), m0F)
  }

  /** The byte counts inside `_mm_cntb_epi32`, before the multiplication. */
  function ByteCounts(a: Quad): Quad {
    var m55, m33, m0F := SplatWord(0x5555_5555), SplatWord(0x3333_3333), SplatWord(0x0F0F_0F0F);
    var t0 := SubEpi8(a, AndSi128(SrliEpi32(a, 1), m55));
    var t1 := AddEpi8(AndSi128(t0, m33), AndSi128(SrliEpi32(t0, 2), m33));
    AndSi128(AddEpi8(t1, SrliEpi32(t1, 4)), m0F)
  }

  lemma SplatBytes(w: word, b: byte, p: nat)
    requires p < 16 && w == FourBytes(b, b, b, b)
    ensures SplatWord(w)[p] == b
  {
    var i := p / 4;
    LaneBytes(SplatWord(w), i, b, b, b, b);
    assert p == 4 * i || p == 4 * i + 1 || p == 4 * i + 2 || p == 4 * i + 3;
  }

  lemma MaskBytes(p: nat)
    requires p < 16
    ensures SplatWord(0x5555_5555)[p] == 0x55 && SplatWord(0x3333_3333)[p] == 0x33 && SplatWord(0x0F0F_0F0F)[p] == 0x0F
  {
    SplatBytes(0x5555_5555, 0x55, p);
    SplatBytes(0x3333_3333, 0x33, p);
    SplatBytes(0x0F0F_0F0F, 0x0F, p);
  }

  /** `And` with 0x55 and with 0x33, on numbers given digit by digit. */
  lemma And1(b: nat, more: nat)
    requires b < 2
    ensures And(b + 2 * more, 1) == b
  {
    AndStep(b, more, 1, 0);
    AndZero(more);
  }

  lemma And5(b0: nat, b1: nat, b2: nat, b3: nat)
    requires b0 < 2 && b1 < 2 && b2 < 2
    ensures And(b0 + 2 * b1 + 4 * (b2 + 2 * b3), 5) == b0 + 4 * b2
  {
    And1(b2, b3);
    AndStep(b1, b2 + 2 * b3, 0, 1);
    AndStep(b0, b1 + 2 * (b2 + 2 * b3), 1, 2);
  }

  lemma JoinNibbles(lo: nat, hi: nat, m: nat)
    requires lo < 0x10 && m < 0x10
    ensures And(lo + 0x10 * hi, 0x11 * m) == And(lo, m) + 0x10 * And(hi, m)
  {
    assert Pow2(4) == 0x10;
    AndJoin(4, 0x10, lo, hi, m, m);
  }

  lemma And55(b0: nat, b1: nat, b2: nat, b3: nat, b4: nat, b5: nat, b6: nat, more: nat)
    requires b0 < 2 && b1 < 2 && b2 < 2 && b3 < 2 && b4 < 2 && b5 < 2 && b6 < 2
    ensures And(b0 + 2 * b1 + 4 * (b2 + 2 * b3) + 0x10 * (b4 + 2 * b5 + 4 * (b6 + 2 * more)), 0x55)
         == b0 + 4 * b2 + 0x10 * (b4 + 4 * b6)
  {
    assert Pow2(4) == 0x10;
    And5(b0, b1, b2, b3);
    And5(b4, b5, b6, more);
    JoinNibbles(b0 + 2 * b1 + 4 * (b2 + 2 * b3), b4 + 2 * b5 + 4 * (b6 + 2 * more), 5);
  }

  lemma And33(d0: nat, d1: nat, d2: nat, more: nat)
    requires d0 < 4 && d1 < 4 && d2 < 4
    ensures And(d0 + 4 * d1 + 0x10 * (d2 + 4 * more), 0x33) == d0 + 0x10 * d2
  {
    assert Pow2(2) == 4 && Pow2(4) == 0x10;
    AndLow(2, 4, d0, d1);
    AndLow(2, 4, d2, more);
    JoinNibbles(d0 + 4 * d1, d2 + 4 * more, 3);
  }

  /** A byte written out in bits. */
  function OfBits(b0: nat, b1: nat, b2: nat, b3: nat, b4: nat, b5: nat, b6: nat, b7: nat): nat {
    b0 + 2 * b1 + 4 * (b2 + 2 * b3) + 0x10 * (b4 + 2 * b5 + 4 * (b6 + 2 * b7))
  }

  lemma BitsOf(b: byte) returns (b0: nat, b1: nat, b2: nat, b3: nat, b4: nat, b5: nat, b6: nat, b7: nat)
    ensures b0 < 2 && b1 < 2 && b2 < 2 && b3 < 2 && b4 < 2 && b5 < 2 && b6 < 2 && b7 < 2
    ensures b == OfBits(b0, b1, b2, b3, b4, b5, b6, b7)
  {
    var r1, r2, r3, r4, r5, r6;
    b0, r1 := Halve(b);
    b1, r2 := Halve(r1);
    b2, r3 := Halve(r2);
    b3, r4 := Halve(r3);
    b4, r5 := Halve(r4);
    b5, r6 := Halve(r5);
    b6, b7 := Halve(r6);
  }

  lemma PopCountOfPair(b0: nat, b1: nat, z: nat)
    requires b0 < 2 && b1 < 2 && z == b0 + 2 * b1
    ensures PopCount(z) == b0 + b1
  {
    PopCountStep(b0, b1, z);
    PopCountStep(b1, 0, b1);
  }

  lemma PopCountOfNibble(b0: nat, b1: nat, b2: nat, b3: nat, z: nat)
    requires b0 < 2 && b1 < 2 && b2 < 2 && b3 < 2 && z == b0 + 2 * b1 + 4 * (b2 + 2 * b3)
    ensures PopCount(z) == b0 + b1 + b2 + b3
  {
    assert Pow2(2) == 4;
    var lo, hi := b0 + 2 * b1, b2 + 2 * b3;
    PopCountOfPair(b0, b1, lo);
    PopCountOfPair(b2, b3, hi);
    PopCountJoin(2, 4, lo, hi, z);
  }

  lemma PopCountOfBits(b0: nat, b1: nat, b2: nat, b3: nat, b4: nat, b5: nat, b6: nat, b7: nat, z: nat)
    requires b0 < 2 && b1 < 2 && b2 < 2 && b3 < 2 && b4 < 2 && b5 < 2 && b6 < 2 && b7 < 2
    requires z == OfBits(b0, b1, b2, b3, b4, b5, b6, b7)
    ensures PopCount(z) == b0 + b1 + b2 + b3 + b4 + b5 + b6 + b7
  {
    assert Pow2(4) == 0x10;
    var lo, hi := b0 + 2 * b1 + 4 * (b2 + 2 * b3), b4 + 2 * b5 + 4 * (b6 + 2 * b7);
    PopCountOfNibble(b0, b1, b2, b3, lo);
    PopCountOfNibble(b4, b5, b6, b7, hi);
    PopCountJoin(4, 0x10, lo, hi, z);
  }

  /** First step: every pair of bits becomes the number of ones in it. */
  lemma PairCounts(b0: nat, b1: nat, b2: nat, b3: nat, b4: nat, b5: nat, b6: nat, b7: nat, more: nat, b: byte, s0: byte)
    requires b0 < 2 && b1 < 2 && b2 < 2 && b3 < 2 && b4 < 2 && b5 < 2 && b6 < 2 && b7 < 2
    requires b == OfBits(b0, b1, b2, b3, b4, b5, b6, b7) && s0 == b / 2 + 0x80 * more
    ensures SubByte(b, AndByte(s0, 0x55)) == b0 + b1 + 4 * (b2 + b3) + 0x10 * (b4 + b5 + 4 * (b6 + b7))
  {
    var half := b1 + 2 * b2 + 4 * (b3 + 2 * b4) + 0x10 * (b5 + 2 * b6 + 4 * b7);
    QuotientUnique(b, 2, half, b0);
    MaskedBits(b1, b2, b3, b4, b5, b6, b7, more, s0);
    Subtracted(b0 + 2 * half, b1 + 4 * b3 + 0x10 * (b5 + 4 * b7),
               b0 + b1 + 4 * (b2 + b3) + 0x10 * (b4 + b5 + 4 * (b6 + b7)), b, AndByte(s0, 0x55));
  }

  lemma Subtracted(x: nat, y: nat, d: nat, b: byte, c: byte)
    requires b == x && c == y && x == y + d
    ensures SubByte(b, c) == d
  {
  }

  lemma MaskedBits(b1: nat, b2: nat, b3: nat, b4: nat, b5: nat, b6: nat, b7: nat, more: nat, s: byte)
    requires b1 < 2 && b2 < 2 && b3 < 2 && b4 < 2 && b5 < 2 && b6 < 2 && b7 < 2
    requires s == b1 + 2 * b2 + 4 * (b3 + 2 * b4) + 0x10 * (b5 + 2 * b6 + 4 * b7) + 0x80 * more
    ensures AndByte(s, 0x55) == b1 + 4 * b3 + 0x10 * (b5 + 4 * b7)
  {
    And55(b1, b2, b3, b4, b5, b6, b7, more);
  }

  /** Second step: every nibble becomes the number of ones in it. */
  lemma NibbleCounts(u0: nat, u1: nat, u2: nat, u3: nat, more: nat, t0: byte, s1: byte)
    requires u0 <= 2 && u1 <= 2 && u2 <= 2 && u3 <= 2
    requires t0 == u0 + 4 * u1 + 0x10 * (u2 + 4 * u3) && s1 == t0 / 4 + 0x40 * more
    ensures AddByte(AndByte(t0, 0x33), AndByte(s1, 0x33)) == u0 + u1 + 0x10 * (u2 + u3)
  {
    MaskedPairs(u0, u1, u2, u3, t0);
    ShiftedPairs(u0, u1, u2, u3, more, t0, s1);
    MaskedPairs(u1, u2, u3, more, s1);
  }

  lemma MaskedPairs(u0: nat, u1: nat, u2: nat, u3: nat, t: byte)
    requires u0 <= 2 && u1 <= 2 && u2 <= 2 && t == u0 + 4 * u1 + 0x10 * (u2 + 4 * u3)
    ensures AndByte(t, 0x33) == u0 + 0x10 * u2
  {
    And33(u0, u1, u2, u3);
  }

  lemma ShiftedPairs(u0: nat, u1: nat, u2: nat, u3: nat, more: nat, t0: byte, s1: byte)
    requires u0 <= 2 && u1 <= 2 && u2 <= 2 && u3 <= 2
    requires t0 == u0 + 4 * u1 + 0x10 * (u2 + 4 * u3) && s1 == t0 / 4 + 0x40 * more
    ensures s1 == u1 + 4 * u2 + 0x10 * (u3 + 4 * more)
  {
  }

  /** Third step: the byte becomes the number of ones in it. */
  lemma ByteCount(n0: nat, n1: nat, more: nat, t1: byte, s2: byte)
    requires n0 <= 4 && n1 <= 4 && t1 == n0 + 0x10 * n1 && s2 == t1 / 0x10 + 0x10 * more
    ensures AndByte(AddByte(t1, s2), 0x0F) == n0 + n1
  {
    QuotientUnique(t1, 0x10, n1, n0);
    var hi := SumOfNibbles(n0, n1, more, t1, s2);
    KeepNibble(n0 + n1, hi, AddByte(t1, s2));
  }

  lemma KeepNibble(lo: nat, hi: nat, b: byte)
    requires lo < 0x10 && b == lo + 0x10 * hi
    ensures AndByte(b, 0x0F) == lo
  {
    assert Pow2(4) == 0x10;
    AndLow(4, 0x10, lo, hi);
  }

  lemma SumOfNibbles(n0: nat, n1: nat, more: nat, t: byte, s: byte) returns (hi: nat)
    requires n0 <= 4 && n1 <= 4 && t == n0 + 0x10 * n1 && s == n1 + 0x10 * more
    ensures AddByte(t, s) == n0 + n1 + 0x10 * hi
  {
    var q: nat := (n1 + more) / 0x10;
    hi := (n1 + more) % 0x10;
    QuotientUnique(t + s, 0x100, q, n0 + n1 + 0x10 * hi);
  }

  /** The three steps on one byte `b`; `s0`, `s1` and `s2` are the shifted bytes, with whatever the
      neighbouring byte put above them. */
  lemma SwarByte(b: byte, m0: nat, m1: nat, m2: nat, s0: byte, s1: byte, s2: byte, t0: byte, t1: byte)
    requires s0 == b / 2 + 0x80 * m0 && s1 == t0 / 4 + 0x40 * m1 && s2 == t1 / 0x10 + 0x10 * m2
    requires t0 == SubByte(b, AndByte(s0, 0x55))
    requires t1 == AddByte(AndByte(t0, 0x33), AndByte(s1, 0x33))
    ensures AndByte(AddByte(t1, s2), 0x0F) == PopCount(b)
  {
    var b0, b1, b2, b3, b4, b5, b6, b7 := BitsOf(b);
    PopCountOfBits(b0, b1, b2, b3, b4, b5, b6, b7, b);
    PairCounts(b0, b1, b2, b3, b4, b5, b6, b7, m0, b, s0);
    NibbleCounts(b0 + b1, b2 + b3, b4 + b5, b6 + b7, m1, t0, s1);
    ByteCount(b0 + b1 + b2 + b3, b4 + b5 + b6 + b7, m2, t1, s2);
  }

  /** `si_cntb`: every byte is replaced by its number of one bits. */
  lemma CntbEpui8Correct(a: Quad, p: nat)
    requires p < 16
    ensures CntbEpui8(a)[p] == PopCount(a[p])
  {
    MaskBytes(p);
    var m55, m33, m0F := SplatWord(0x5555_5555), SplatWord(0x3333_3333), SplatWord(0x0F0F_0F0F);
    var t0 := SubEpi8(a, AndSi128(SrliEpi8(a, 1), m55));
    var t1 := AddEpi8(AndSi128(t0, m33), AndSi128(SrliEpi8(t0, 2), m33));
    ByteShifts();
    SrliEpi8At(a, 1, 2, 0x80, p);
    SrliEpi8At(t0, 2, 4, 0x40, p);
    SrliEpi8At(t1, 4, 0x10, 0x10, p);
    SwarByte(a[p], 0, 0, 0, SrliEpi8(a, 1)[p], SrliEpi8(t0, 2)[p], SrliEpi8(t1, 4)[p], t0[p], t1[p]);
  }

  lemma ByteCountsCorrect(a: Quad, p: nat)
    requires p < 16
    ensures ByteCounts(a)[p] == PopCount(a[p])
  {
    MaskBytes(p);
    var m55, m33, m0F := SplatWord(0x5555_5555), SplatWord(0x3333_3333), SplatWord(0x0F0F_0F0F);
    var t0 := SubEpi8(a, AndSi128(SrliEpi32(a, 1), m55));
    var t1 := AddEpi8(AndSi128(t0, m33), AndSi128(SrliEpi32(t0, 2), m33));
    ByteShifts();
    SrliEpi32At(a, 1, 2, 0x80, p);
    SrliEpi32At(t0, 2, 4, 0x40, p);
    SrliEpi32At(t1, 4, 0x10, 0x10, p);
    SwarByte(a[p], Next(a, p) % 2, Next(t0, p) % 4, Next(t1, p) % 0x10,
             SrliEpi32(a, 1)[p], SrliEpi32(t0, 2)[p], SrliEpi32(t1, 4)[p], t0[p], t1[p]);
  }
}
