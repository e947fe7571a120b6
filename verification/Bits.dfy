/** Bitwise operations on unsigned machine words, with words taken as natural numbers.

    A shift right by `k` is a division by `Pow2(k)`, a shift left in an `n`-bit lane is a
    multiplication modulo `Pow2(n)`; `And` and `Or` are defined bit by bit. The `Concat`
    lemmas say that both operations work on the low and the high part of a word separately,
    and every other fact about masks follows from them. */
module Bits {

  function Pow2(n: nat): (p: nat)
    ensures p >= 1
  {
    if n == 0 then 1 else 2 * Pow2(n - 1)
  }

  function AndBit(a: nat, b: nat): nat { if a == 1 && b == 1 then 1 else 0 }

  function OrBit(a: nat, b: nat): nat { if a == 1 || b == 1 then 1 else 0 }

  function And(x: nat, y: nat): nat {
    if x == 0 then 0 else AndBit(x % 2, y % 2) + 2 * And(x / 2, y / 2)
  }

  function Or(x: nat, y: nat): nat {
    if x == 0 then y else OrBit(x % 2, y % 2) + 2 * Or(x / 2, y / 2)
  }

  /** The number of one bits. */
  function PopCount(x: nat): nat {
    if x == 0 then 0 else x % 2 + PopCount(x / 2)
  }

  /** The position just above the highest one bit; 0 for the number 0. */
  function BitLength(x: nat): nat {
    if x == 0 then 0 else 1 + BitLength(x / 2)
  }

  lemma {:induction false} Pow2Add(a: nat, b: nat)
    ensures Pow2(a + b) == Pow2(a) * Pow2(b)
  {
    if a > 0 {
      Pow2Add(a - 1, b);
      assert 2 * (Pow2(a - 1) * Pow2(b)) == (2 * Pow2(a - 1)) * Pow2(b);
    }
  }

  lemma {:induction false} Pow2Mono(a: nat, b: nat)
    requires a <= b
    ensures Pow2(a) <= Pow2(b)
  {
    if a < b { Pow2Mono(a, b - 1); }
  }

  /** One step of `And` and `Or`, on numbers given by their lowest bit and the rest. */
  lemma AndStep(a: nat, x: nat, b: nat, y: nat)
    requires a < 2 && b < 2
    ensures And(a + 2 * x, b + 2 * y) == AndBit(a, b) + 2 * And(x, y)
  {
    assert (a + 2 * x) / 2 == x && (b + 2 * y) / 2 == y;
  }

  lemma OrStep(a: nat, x: nat, b: nat, y: nat)
    requires a < 2 && b < 2
    ensures Or(a + 2 * x, b + 2 * y) == OrBit(a, b) + 2 * Or(x, y)
  {
    assert (a + 2 * x) / 2 == x && (b + 2 * y) / 2 == y;
  }

  /** The lowest bit of a number and the rest. */
  lemma Halve(x: nat) returns (b: nat, h: nat)
    ensures b == x % 2 && h == x / 2 && b < 2 && x == b + 2 * h
  {
    b, h := x % 2, x / 2;
  }

  /** A left shift by `k` places. */
  function Shl(x: nat, k: nat): nat {
    if k == 0 then x else 2 * Shl(x, k - 1)
  }

  lemma {:induction false} ShlIsProduct(x: nat, k: nat)
    ensures Shl(x, k) == Pow2(k) * x
  {
    if k > 0 {
      ShlIsProduct(x, k - 1);
      assert 2 * (Pow2(k - 1) * x) == (2 * Pow2(k - 1)) * x;
    }
  }

  lemma {:induction false} AndBound(k: nat, x: nat, y: nat)
    requires x < Pow2(k)
    ensures And(x, y) < Pow2(k)
  {
    if k > 0 { AndBound(k - 1, x / 2, y / 2); }
  }

  lemma {:induction false} OrBound(k: nat, x: nat, y: nat)
    requires x < Pow2(k) && y < Pow2(k)
    ensures Or(x, y) < Pow2(k)
  {
    if k > 0 { OrBound(k - 1, x / 2, y / 2); }
  }

  /** One more bit below two joined parts: `s`, `t` and `r` stand for what lies above `x`, `y` and their and. */
  lemma AndJoined(a: nat, x: nat, s: nat, b: nat, y: nat, t: nat, r: nat)
    requires a < 2 && b < 2 && And(x + s, y + t) == And(x, y) + r
    ensures And(a + 2 * x + 2 * s, b + 2 * y + 2 * t) == And(a + 2 * x, b + 2 * y) + 2 * r
  {
    AndStep(a, x, b, y);
    AndStep(a, x + s, b, y + t);
  }

  lemma OrJoined(a: nat, x: nat, s: nat, b: nat, y: nat, t: nat, r: nat)
    requires a < 2 && b < 2 && Or(x + s, y + t) == Or(x, y) + r
    ensures Or(a + 2 * x + 2 * s, b + 2 * y + 2 * t) == Or(a + 2 * x, b + 2 * y) + 2 * r
  {
    OrStep(a, x, b, y);
    OrStep(a, x + s, b, y + t);
  }

  /** Both operations work on the low `k` bits and on the rest separately. */
  lemma {:induction false} AndConcat(k: nat, xl: nat, xh: nat, yl: nat, yh: nat)
    requires xl < Pow2(k) && yl < Pow2(k)
    ensures And(xl + Shl(xh, k), yl + Shl(yh, k)) == And(xl, yl) + Shl(And(xh, yh), k)
  {
    if k > 0 {
      var a, x := Halve(xl);
      var b, y := Halve(yl);
      AndConcat(k - 1, x, xh, y, yh);
      AndJoined(a, x, Shl(xh, k - 1), b, y, Shl(yh, k - 1), Shl(And(xh, yh), k - 1));
    }
  }

  lemma {:induction false} OrConcat(k: nat, xl: nat, xh: nat, yl: nat, yh: nat)
    requires xl < Pow2(k) && yl < Pow2(k)
    ensures Or(xl + Shl(xh, k), yl + Shl(yh, k)) == Or(xl, yl) + Shl(Or(xh, yh), k)
  {
    if k > 0 {
      var a, x := Halve(xl);
      var b, y := Halve(yl);
      OrConcat(k - 1, x, xh, y, yh);
      OrJoined(a, x, Shl(xh, k - 1), b, y, Shl(yh, k - 1), Shl(Or(xh, yh), k - 1));
    }
  }

  lemma {:induction false} AndZero(x: nat)
    ensures And(x, 0) == 0
  {
    if x > 0 { AndZero(x / 2); }
  }

  lemma {:induction false} OrZero(x: nat)
    ensures Or(x, 0) == x
  {
    if x > 0 { OrZero(x / 2); }
  }

  lemma {:induction false} AndSelf(x: nat)
    ensures And(x, x) == x
  {
    if x > 0 { AndSelf(x / 2); }
  }

  lemma {:induction false} OrSelf(x: nat)
    ensures Or(x, x) == x
  {
    if x > 0 { OrSelf(x / 2); }
  }

  lemma {:induction false} AndComm(x: nat, y: nat)
    ensures And(x, y) == And(y, x)
  {
    if x == 0 {
      AndZero(y);
    } else if y == 0 {
      AndZero(x);
    } else {
      AndComm(x / 2, y / 2);
    }
  }

  lemma {:induction false} OrComm(x: nat, y: nat)
    ensures Or(x, y) == Or(y, x)
  {
    if x == 0 {
      OrZero(y);
    } else if y == 0 {
      OrZero(x);
    } else {
      OrComm(x / 2, y / 2);
    }
  }

  lemma {:induction false} AndOnes(k: nat, x: nat)
    requires x < Pow2(k)
    ensures And(x, Pow2(k) - 1) == x
  {
    if k > 0 {
      var a, h := Halve(x);
      AndOnes(k - 1, h);
      AndStep(a, h, 1, Pow2(k - 1) - 1);
    }
  }

  lemma {:induction false} ShlZero(k: nat)
    ensures Shl(0, k) == 0
  {
    if k > 0 { ShlZero(k - 1); }
  }

  lemma AndLowShl(k: nat, lo: nat, hi: nat)
    requires lo < Pow2(k)
    ensures And(lo + Shl(hi, k), Pow2(k) - 1) == lo
  {
    ShlZero(k);
    AndConcat(k, lo, hi, Pow2(k) - 1, 0);
    AndOnes(k, lo);
    AndZero(hi);
  }

  lemma OrDisjointShl(k: nat, lo: nat, hi: nat)
    requires lo < Pow2(k)
    ensures Or(lo, Shl(hi, k)) == lo + Shl(hi, k)
  {
    ShlZero(k);
    OrConcat(k, lo, 0, 0, hi);
    OrZero(lo);
  }

  // ----- the same with the power of two as a number -----

  lemma AndJoin(k: nat, p: nat, xl: nat, xh: nat, yl: nat, yh: nat)
    requires p == Pow2(k) && xl < p && yl < p
    ensures And(xl + p * xh, yl + p * yh) == And(xl, yl) + p * And(xh, yh)
  {
    ShlIsProduct(xh, k);
    ShlIsProduct(yh, k);
    ShlIsProduct(And(xh, yh), k);
    AndConcat(k, xl, xh, yl, yh);
  }

  lemma OrJoin(k: nat, p: nat, xl: nat, xh: nat, yl: nat, yh: nat)
    requires p == Pow2(k) && xl < p && yl < p
    ensures Or(xl + p * xh, yl + p * yh) == Or(xl, yl) + p * Or(xh, yh)
  {
    ShlIsProduct(xh, k);
    ShlIsProduct(yh, k);
    ShlIsProduct(Or(xh, yh), k);
    OrConcat(k, xl, xh, yl, yh);
  }

  /** Masking with `k` one bits keeps the low part of a word. */
  lemma AndLow(k: nat, p: nat, lo: nat, hi: nat)
    requires p == Pow2(k) && lo < p
    ensures And(lo + p * hi, p - 1) == lo
  {
    ShlIsProduct(hi, k);
    AndLowShl(k, lo, hi);
  }

  lemma MaskLow(k: nat, p: nat, lo: nat, hi: nat)
    requires p == Pow2(k) && lo < p
    ensures And(p - 1, lo + p * hi) == lo
  {
    AndLow(k, p, lo, hi);
    AndComm(lo + p * hi, p - 1);
  }

  /** A bitwise or of parts that do not meet is their sum. */
  lemma OrDisjoint(k: nat, p: nat, lo: nat, hi: nat)
    requires p == Pow2(k) && lo < p
    ensures Or(lo, p * hi) == lo + p * hi
  {
    ShlIsProduct(hi, k);
    OrDisjointShl(k, lo, hi);
  }

  /** The powers that occur in the source. */
  lemma Powers()
    ensures Pow2(1) == 2 && Pow2(2) == 4 && Pow2(3) == 8 && Pow2(4) == 0x10 && Pow2(6) == 0x40 && Pow2(7) == 0x80
    ensures Pow2(8) == 0x100 && Pow2(15) == 0x8000 && Pow2(16) == 0x1_0000 && Pow2(24) == 0x100_0000
    ensures Pow2(31) == 0x8000_0000 && Pow2(32) == 0x1_0000_0000
  {
  }

  /** The lemmas on population counts name the number `z` they are about, however it is put together. */
  lemma PopCountStep(b: nat, x: nat, z: nat)
    requires b < 2 && z == b + 2 * x
    ensures PopCount(z) == b + PopCount(x)
  {
    assert z / 2 == x && z % 2 == b;
  }

  lemma {:induction false} PopCountConcat(k: nat, lo: nat, hi: nat, z: nat)
    requires lo < Pow2(k) && z == lo + Shl(hi, k)
    ensures PopCount(z) == PopCount(lo) + PopCount(hi)
  {
    if k > 0 {
      var b, h := Halve(lo);
      var rest := h + Shl(hi, k - 1);
      PopCountConcat(k - 1, h, hi, rest);
      PopCountStep(b, h, lo);
      PopCountStep(b, rest, z);
    }
  }

  lemma PopCountJoin(k: nat, p: nat, lo: nat, hi: nat, z: nat)
    requires p == Pow2(k) && lo < p && z == lo + p * hi
    ensures PopCount(z) == PopCount(lo) + PopCount(hi)
  {
    ShlIsProduct(hi, k);
    PopCountConcat(k, lo, hi, z);
  }

  lemma {:induction false} PopCountOnes(k: nat)
    ensures PopCount(Pow2(k) - 1) == k
  {
    if k > 0 {
      PopCountOnes(k - 1);
      assert (Pow2(k) - 1) / 2 == Pow2(k - 1) - 1;
    }
  }

  lemma {:induction false} BitLengthBounds(x: nat)
    ensures x < Pow2(BitLength(x))
    ensures x > 0 ==> Pow2(BitLength(x) - 1) <= x
  {
    if x > 0 { BitLengthBounds(x / 2); }
  }

  /** `BitLength` is the only number with the bounds above. */
  lemma BitLengthUnique(x: nat, k: nat)
    requires x < Pow2(k) && (k > 0 ==> Pow2(k - 1) <= x)
    ensures BitLength(x) == k
  {
    BitLengthBounds(x);
    var b := BitLength(x);
    if b < k {
      Pow2Mono(b, k - 1);
    } else if k < b {
      Pow2Mono(k, b - 1);
    }
  }

  // ----- smearing -----

  /** A right shift by `k` places. */
  function Shr(x: nat, k: nat): nat {
    if k == 0 then x else Shr(x / 2, k - 1)
  }

  lemma {:induction false} ShrIsQuotient(x: nat, k: nat)
    ensures Shr(x, k) == x / Pow2(k)
  {
    if k > 0 {
      ShrIsQuotient(x / 2, k - 1);
      DivideTwice(x, Pow2(k - 1));
    }
  }

  lemma DivideTwice(x: nat, p: nat)
    requires p >= 1
    ensures x / 2 / p == x / (2 * p)
  {
    var q, r := x / 2 / p, x / 2 % p;
    assert x == (2 * p) * q + (2 * r + x % 2);
    QuotientUnique(x, 2 * p, q, 2 * r + x % 2);
  }

  lemma QuotientUnique(x: int, d: int, q: int, r: int)
    requires 0 <= r < d && x == d * q + r
    ensures x / d == q && x % d == r
  {
    var e := x / d - q;
    assert d * e == r - x % d;
    ProductBeyond(d, e);
  }

  lemma ProductBeyond(d: nat, e: int)
    requires d > 0
    ensures e >= 1 ==> d * e >= d
    ensures e <= -1 ==> d * e + d <= 0
  {
  }

  lemma OrHalf(x: nat, y: nat)
    ensures Or(x, y) / 2 == Or(x / 2, y / 2)
  {
    var a, u := Halve(x);
    var b, v := Halve(y);
    OrStep(a, u, b, v);
  }

  lemma {:induction false} OrAssoc(x: nat, y: nat, z: nat)
    ensures Or(x, Or(y, z)) == Or(Or(x, y), z)
    decreases x + y + z
  {
    if x + y + z > 0 {
      var a, u := Halve(x);
      var b, v := Halve(y);
      var c, w := Halve(z);
      OrAssoc(u, v, w);
      OrStep(b, v, c, w);
      OrStep(a, u, b, v);
      OrStep(a, u, OrBit(b, c), Or(v, w));
      OrStep(OrBit(a, b), Or(u, v), c, w);
    }
  }

  /** The or of `x`, `x >> 1`, up to `x >> (n - 1)`. */
  function Smear(x: nat, n: nat): nat
    decreases n
  {
    if n == 0 then 0 else Or(x, Smear(x / 2, n - 1))
  }

  lemma {:induction false} SmearHalf(x: nat, n: nat)
    ensures Smear(x / 2, n) == Smear(x, n) / 2
    decreases n
  {
    if n > 0 {
      SmearHalf(x / 2, n - 1);
      OrHalf(x, Smear(x / 2, n - 1));
    }
  }

  lemma {:induction false} SmearShr(x: nat, n: nat, k: nat)
    ensures Smear(Shr(x, k), n) == Shr(Smear(x, n), k)
    decreases k
  {
    if k > 0 {
      SmearShr(x / 2, n, k - 1);
      SmearHalf(x, n);
    }
  }

  lemma {:induction false} SmearSplit(x: nat, a: nat, b: nat)
    ensures Smear(x, a + b) == Or(Smear(x, a), Smear(Shr(x, a), b))
    decreases a
  {
    if a > 0 {
      SmearSplit(x / 2, a - 1, b);
      OrAssoc(x, Smear(x / 2, a - 1), Smear(Shr(x, a), b));
    }
  }

  /** One or with a shifted copy doubles the smeared distance. */
  lemma SmearDouble(x: nat, n: nat)
    ensures Smear(x, 2 * n) == Or(Smear(x, n), Smear(x, n) / Pow2(n))
  {
    SmearSplit(x, n, n);
    SmearShr(x, n, n);
    ShrIsQuotient(Smear(x, n), n);
  }

  lemma {:induction false} OrFillsBelow(x: nat, k: nat)
    requires Pow2(k) <= x < Pow2(k + 1)
    ensures Or(x, Pow2(k) - 1) == Pow2(k + 1) - 1
  {
    if k > 0 {
      var a, u := Halve(x);
      OrFillsBelow(u, k - 1);
      OrStep(a, u, 1, Pow2(k - 1) - 1);
    }
  }

  /** Smearing as far as the highest one bit sets every bit up to it. */
  lemma {:induction false} SmearFills(x: nat, n: nat)
    requires x < Pow2(n)
    ensures Smear(x, n) == Pow2(BitLength(x)) - 1
    decreases n
  {
    if x == 0 {
      SmearOfZero(n);
    } else {
      var k := BitLength(x) - 1;
      assert k == BitLength(x / 2);
      SmearFills(x / 2, n - 1);
      BitLengthBounds(x);
      assert Smear(x, n) == Or(x, Pow2(k) - 1);
      OrFillsBelow(x, k);
    }
  }

  lemma {:induction false} SmearOfZero(n: nat)
    ensures Smear(0, n) == 0
    decreases n
  {
    if n > 0 { SmearOfZero(n - 1); }
  }

  // ----- single bits -----

  /** Bit `k` of a number. */
  function Bit(x: nat, k: nat): (b: nat)
    ensures b < 2
  {
    Shr(x, k) % 2
  }

  /** The bits of a number given by its low `n` bits and the rest. */
  lemma {:induction false} BitConcat(n: nat, lo: nat, hi: nat, k: nat)
    requires lo < Pow2(n)
    ensures Bit(lo + Shl(hi, n), k) == if k < n then Bit(lo, k) else Bit(hi, k - n)
  {
    if n > 0 {
      var b, h := Halve(lo);
      var x := h + Shl(hi, n - 1);
      assert lo + Shl(hi, n) == b + 2 * x;
      assert (b + 2 * x) / 2 == x && (b + 2 * x) % 2 == b;
      if k > 0 {
        BitConcat(n - 1, h, hi, k - 1);
      }
    }
  }

  /** Masking with one bit keeps that bit. */
  lemma {:induction false} AndOneBit(x: nat, k: nat)
    ensures And(x, Pow2(k)) == Pow2(k) * Bit(x, k)
  {
    var a, h := Halve(x);
    if k == 0 {
      AndZero(h);
      AndStep(a, h, 1, 0);
    } else {
      AndStep(a, h, 0, Pow2(k - 1));
      AndOneBit(h, k - 1);
    }
  }

  /** The number with these bits, the lowest first. */
  function FromBits(bits: seq<nat>): nat {
    if bits == [] then 0 else bits[0] + 2 * FromBits(bits[1..])
  }

  ghost predicate AreBits(bits: seq<nat>) {
    forall i :: 0 <= i < |bits| ==> bits[i] < 2
  }

  lemma {:induction false} FromBitsBound(bits: seq<nat>)
    requires AreBits(bits)
    ensures FromBits(bits) < Pow2(|bits|)
  {
    if bits != [] { FromBitsBound(bits[1..]); }
  }

  lemma {:induction false} BitOfFromBits(bits: seq<nat>, k: nat)
    requires AreBits(bits) && k < |bits|
    ensures Bit(FromBits(bits), k) == bits[k]
  {
    var x := FromBits(bits[1..]);
    assert (bits[0] + 2 * x) / 2 == x && (bits[0] + 2 * x) % 2 == bits[0];
    if k > 0 { BitOfFromBits(bits[1..], k - 1); }
  }

  /** The lowest `n` bits of a number, collected again. */
  lemma {:induction false} FromBitsOf(x: nat, n: nat)
    ensures FromBits(seq(n, k requires k >= 0 => Bit(x, k))) == x % Pow2(n)
    decreases n
  {
    if n > 0 {
      var bits := seq(n, k requires k >= 0 => Bit(x, k));
      var rest := seq(n - 1, k requires k >= 0 => Bit(x / 2, k));
      assert bits[1..] == rest;
      FromBitsOf(x / 2, n - 1);
      RemainderByHalves(x, Pow2(n - 1));
    }
  }

  lemma RemainderByHalves(x: nat, p: nat)
    requires p >= 1
    ensures x % (2 * p) == x % 2 + 2 * (x / 2 % p)
  {
    var q, r := x / 2 / p, x / 2 % p;
    assert x == (2 * p) * q + (2 * r + x % 2);
    QuotientUnique(x, 2 * p, q, 2 * r + x % 2);
  }

  /** Adding one more bit at the top with an or and a shift. */
  lemma {:induction false} FromBitsAppend(bits: seq<nat>, b: nat)
    requires AreBits(bits) && b < 2
    ensures FromBits(bits + [b]) == Or(FromBits(bits), Shl(b, |bits|))
  {
    FromBitsBound(bits);
    OrDisjointShl(|bits|, FromBits(bits), b);
    FromBitsSnoc(bits, b);
  }

  lemma {:induction false} FromBitsSnoc(bits: seq<nat>, b: nat)
    ensures FromBits(bits + [b]) == FromBits(bits) + Shl(b, |bits|)
  {
    if bits != [] {
      FromBitsSnoc(bits[1..], b);
      assert (bits + [b])[1..] == bits[1..] + [b];
    }
  }

  // ----- bit by bit -----

  lemma BitStep(b: nat, x: nat, z: nat, k: nat)
    requires b < 2 && z == b + 2 * x
    ensures Bit(z, k) == if k == 0 then b else Bit(x, k - 1)
  {
    assert z / 2 == x && z % 2 == b;
  }

  lemma {:induction false} BitOfOr(x: nat, y: nat, k: nat)
    ensures Bit(Or(x, y), k) == OrBit(Bit(x, k), Bit(y, k))
    decreases k
  {
    var a, u := Halve(x);
    var b, v := Halve(y);
    OrStep(a, u, b, v);
    BitStep(a, u, x, k);
    BitStep(b, v, y, k);
    BitStep(OrBit(a, b), Or(u, v), Or(x, y), k);
    if k > 0 {
      BitOfOr(u, v, k - 1);
    }
  }

  /** Numbers with the same bits are the same. */
  lemma {:induction false} BitsDetermine(x: nat, y: nat)
    requires forall k: nat :: Bit(x, k) == Bit(y, k)
    ensures x == y
    decreases x + y
  {
    if x + y > 0 {
      var a, u := Halve(x);
      var b, v := Halve(y);
      BitStep(a, u, x, 0);
      BitStep(b, v, y, 0);
      assert Bit(x, 0) == Bit(y, 0);
      forall k: nat
        ensures Bit(u, k) == Bit(v, k)
      {
        BitStep(a, u, x, k + 1);
        BitStep(b, v, y, k + 1);
        assert Bit(x, k + 1) == Bit(y, k + 1);
      }
      BitsDetermine(u, v);
    }
  }

  /** `y` has no bit that `x` has not. */
  ghost predicate Inside(y: nat, x: nat) { forall k: nat :: Bit(y, k) <= Bit(x, k) }

  /** Or leaves a number as it is exactly if the other one lies inside it. */
  lemma OrKeepsIff(x: nat, y: nat)
    ensures Or(x, y) == x <==> Inside(y, x)
  {
    forall k: nat
      ensures Bit(Or(x, y), k) == OrBit(Bit(x, k), Bit(y, k))
    {
      BitOfOr(x, y, k);
    }
    if Inside(y, x) {
      forall k: nat
        ensures Bit(Or(x, y), k) == Bit(x, k)
      {
        assert Bit(y, k) <= Bit(x, k);
      }
      BitsDetermine(Or(x, y), x);
    }
  }

  lemma {:induction false} BitBeyond(x: nat, n: nat, k: nat)
    requires x < Pow2(n) && n <= k
    ensures Bit(x, k) == 0
  {
    Pow2Mono(n, k);
    ShrIsQuotient(x, k);
    QuotientUnique(x, Pow2(k), 0, x);
  }

  /** Numbers below 2^n are determined by their first `n` bits. */
  lemma LowBitsDetermine(x: nat, y: nat, n: nat)
    requires x < Pow2(n) && y < Pow2(n)
    ensures x == y <==> forall k: nat :: k < n ==> Bit(x, k) == Bit(y, k)
  {
    if forall k: nat :: k < n ==> Bit(x, k) == Bit(y, k) {
      forall k: nat
        ensures Bit(x, k) == Bit(y, k)
      {
        if k >= n {
          BitBeyond(x, n, k);
          BitBeyond(y, n, k);
        }
      }
      BitsDetermine(x, y);
    }
  }
}
