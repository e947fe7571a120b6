/** `src/sse_extensions.h`, `v_u32`: a register whose compound operators update it in place, the
    binary operators built on them, and the instructions of `src/spu_internals_x86.h` written with these. */
module VectorU32 {
  import opened Bits
  import opened Vectors
  import opened SseExtensions
  import opened WordArithmetic

  // ----- what the operators do to each of the four words -----

  ghost predicate SumOf(r: Quad, a: Quad, b: Quad) {
    forall i: nat :: i < 4 ==> Word(r, i) == (Word(a, i) + Word(b, i)) % TWO_32
  }

  ghost predicate QuotientOf(r: Quad, a: Quad, s: nat) {
    forall i: nat :: i < 4 ==> Word(r, i) == Word(a, i) / Pow2(s)
  }

  ghost predicate ProductOf(r: Quad, a: Quad, s: nat) {
    forall i: nat :: i < 4 ==> Word(r, i) == Word(a, i) * Pow2(s) % TWO_32
  }

  ghost predicate ConjunctionOf(r: Quad, a: Quad, b: Quad) {
    forall i: nat :: i < 4 ==> Word(r, i) == And(Word(a, i), Word(b, i))
  }

  class VU32 {
    var data: Quad

    constructor (x: Quad)
      ensures data == x
    {
      data := x;
    }

    method AddAssign(rhs: Quad)
      modifies this
      ensures SumOf(data, old(data), rhs)
    {
      AddIsSum(data, rhs);
      data := AddEpi32(data, rhs);
    }

    method ShrAssign(s: nat)
      modifies this
      ensures QuotientOf(data, old(data), s)
    {
      data := SrliEpi32(data, s);
    }

    method ShlAssign(s: nat)
      modifies this
      ensures ProductOf(data, old(data), s)
    {
      data := SlliEpi32(data, s);
    }

    /** The and is taken byte by byte. */
    method AndAssign(rhs: Quad)
      modifies this
      ensures ConjunctionOf(data, old(data), rhs)
    {
      AndIsWordwise(data, rhs);
      data := AndSi128(data, rhs);
    }
  }

  method Plus(lhs: Quad, rhs: Quad) returns (r: Quad)
    ensures SumOf(r, lhs, rhs)
  {
    var result := new VU32(lhs);
    result.AddAssign(rhs);
    r := result.data;
  }

  method ShiftRight(lhs: Quad, amount: nat) returns (r: Quad)
    ensures QuotientOf(r, lhs, amount)
  {
    var result := new VU32(lhs);
    result.ShrAssign(amount);
    r := result.data;
  }

  method ShiftLeft(lhs: Quad, amount: nat) returns (r: Quad)
    ensures ProductOf(r, lhs, amount)
  {
    var result := new VU32(lhs);
    result.ShlAssign(amount);
    r := result.data;
  }

  method BitAnd(lhs: Quad, rhs: Quad) returns (r: Quad)
    ensures ConjunctionOf(r, lhs, rhs)
  {
    var result := new VU32(lhs);
    result.AndAssign(rhs);
    r := result.data;
  }

  lemma AddWordIs(x: word, y: word)
    ensures AddWord(x, y) == (x + y) % TWO_32
  {
  }

  lemma AddLane(a: Quad, b: Quad, i: nat, x: word, y: word)
    requires i < 4 && x == Word(a, i) && y == Word(b, i)
    ensures Word(AddEpi32(a, b), i) == AddWord(x, y)
  {
  }

  lemma AddIsSum(a: Quad, b: Quad)
    ensures SumOf(AddEpi32(a, b), a, b)
  {
    forall i: nat | i < 4
      ensures Word(AddEpi32(a, b), i) == (Word(a, i) + Word(b, i)) % TWO_32
    {
      AddLane(a, b, i, Word(a, i), Word(b, i));
      AddWordIs(Word(a, i), Word(b, i));
    }
  }

  /** A register is determined by its words; these are the ones the lane functions name. */
  lemma SumIsAdd(r: Quad, a: Quad, b: Quad)
    requires SumOf(r, a, b)
    ensures r == AddEpi32(a, b)
  {
    WordsDetermine(r, AddEpi32(a, b));
  }

  lemma QuotientIsShift(r: Quad, a: Quad, s: nat)
    requires QuotientOf(r, a, s)
    ensures r == SrliEpi32(a, s)
  {
    WordsDetermine(r, SrliEpi32(a, s));
  }

  lemma ProductIsShift(r: Quad, a: Quad, s: nat)
    requires ProductOf(r, a, s)
    ensures r == SlliEpi32(a, s)
  {
    WordsDetermine(r, SlliEpi32(a, s));
  }

  lemma ConjunctionIsAnd(r: Quad, a: Quad, b: Quad)
    requires ConjunctionOf(r, a, b)
    ensures r == MapWords(AndWord, a, b)
  {
    WordsDetermine(r, MapWords(AndWord, a, b));
  }

  lemma AndOneByte(x: byte, xh: nat, y: byte, yh: nat)
    ensures AndByte(x, y) + 0x100 * And(xh, yh) == And(x + 0x100 * xh, y + 0x100 * yh)
  {
    assert Pow2(8) == 0x100;
    AndJoin(8, 0x100, x, xh, y, yh);
  }

  lemma AndFourBytes(x0: byte, x1: byte, x2: byte, x3: byte, y0: byte, y1: byte, y2: byte, y3: byte)
    ensures FourBytes(AndByte(x0, y0), AndByte(x1, y1), AndByte(x2, y2), AndByte(x3, y3))
         == AndWord(FourBytes(x0, x1, x2, x3), FourBytes(y0, y1, y2, y3))
  {
    var xh: nat, yh: nat := x2 as int + 0x100 * (x3 as int), y2 as int + 0x100 * (y3 as int);
    AndOneByte(x2, x3, y2, y3);
    AndOneByte(x1, xh, y1, yh);
    AndOneByte(x0, x1 as int + 0x100 * xh, y0, y1 as int + 0x100 * yh);
  }

  /** The bitwise and of registers, seen word by word. */
  lemma AndIsWordwise(a: Quad, b: Quad)
    ensures AndSi128(a, b) == MapWords(AndWord, a, b)
  {
    AndOfWord(a, b, 0);
    AndOfWord(a, b, 1);
    AndOfWord(a, b, 2);
    AndOfWord(a, b, 3);
    WordsDetermine(AndSi128(a, b), MapWords(AndWord, a, b));
  }

  lemma AndOfWord(a: Quad, b: Quad, i: nat)
    requires i < 4
    ensures Word(AndSi128(a, b), i) == AndWord(Word(a, i), Word(b, i))
  {
    var p := 4 * i;
    AndFourBytes(a[p], a[p + 1], a[p + 2], a[p + 3], b[p], b[p + 1], b[p + 2], b[p + 3]);
  }

  method SiAByOperators(ra: Quad, rb: Quad) returns (rt: Quad)
    ensures rt == SiA(ra, rb)
  {
    rt := Plus(ra, rb);
    SumIsAdd(rt, ra, rb);
  }

  method SiAddxByOperators(ra: Quad, rb: Quad, rt: Quad) returns (result: Quad)
    ensures result == SiAddx(ra, rb, rt)
  {
    var sum := Plus(ra, rb);
    var carry := BitAnd(rt, SplatWord(1));
    result := Plus(sum, carry);
    SumIsAdd(sum, ra, rb);
    ConjunctionIsAnd(carry, rt, SplatWord(1));
    SumIsAdd(result, sum, carry);
    WordsDetermine(result, SiAddx(ra, rb, rt));
  }

  method SiCgByOperators(ra: Quad, rb: Quad) returns (rt: Quad)
    ensures rt == SiCg(ra, rb)
  {
    var both := BitAnd(ra, rb);
    ConjunctionIsAnd(both, ra, rb);
    var up := ShiftLeft(both, 31);
    ProductIsShift(up, both, 31);
    var lsb := ShiftRight(up, 31);
    QuotientIsShift(lsb, up, 31);
    var raShift := ShiftRight(ra, 1);
    QuotientIsShift(raShift, ra, 1);
    var rbShift := ShiftRight(rb, 1);
    QuotientIsShift(rbShift, rb, 1);
    var sum := Plus(raShift, rbShift);
    SumIsAdd(sum, raShift, rbShift);
    var adjusted := Plus(sum, lsb);
    SumIsAdd(adjusted, sum, lsb);
    rt := ShiftRight(adjusted, 31);
    QuotientIsShift(rt, adjusted, 31);
    WordsDetermine(rt, SiCg(ra, rb));
  }
}
