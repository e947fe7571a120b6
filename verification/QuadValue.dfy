/** A register as one 128-bit number, and byte and bit rotations and shifts of it. */
module QuadValue {
  import opened Bits
  import opened Vectors

  /** The number with these bytes, the least significant first. */
  function Value(bytes: seq<byte>): nat {
    if bytes == [] then 0 else bytes[0] as int + 0x100 * Value(bytes[1..])
  }

  /** The `n` lowest bytes of a number. */
  function ToBytes(x: nat, n: nat): (bytes: seq<byte>)
    ensures |bytes| == n
    decreases n
  {
    if n == 0 then [] else [x % 0x100] + ToBytes(x / 0x100, n - 1)
  }

  lemma Pow2Byte(n: nat)
    ensures Pow2(8 * (n + 1)) == 0x100 * Pow2(8 * n)
  {
    Pow2Add(8, 8 * n);
    assert Pow2(8) == 0x100;
  }

  lemma {:induction false} ValueBound(bytes: seq<byte>)
    ensures Value(bytes) < Pow2(8 * |bytes|)
  {
    if bytes != [] {
      ValueBound(bytes[1..]);
      Pow2Byte(|bytes| - 1);
    }
  }

  lemma {:induction false} ValueConcat(a: seq<byte>, b: seq<byte>)
    ensures Value(a + b) == Value(a) + Pow2(8 * |a|) * Value(b)
  {
    if a == [] {
      assert a + b == b;
    } else {
      ValueConcat(a[1..], b);
      assert (a + b)[1..] == a[1..] + b;
      Pow2Byte(|a| - 1);
      PrependByte(a[0], Value(a[1..]), Pow2(8 * (|a| - 1)), Value(b));
    }
  }

  lemma PrependByte(b: nat, v: nat, p: nat, w: nat)
    ensures b + 0x100 * (v + p * w) == b + 0x100 * v + 0x100 * p * w
  {
  }

  lemma {:induction false} ValueOfToBytes(x: nat, n: nat)
    requires x < Pow2(8 * n)
    ensures Value(ToBytes(x, n)) == x
    decreases n
  {
    if n > 0 {
      Pow2Byte(n - 1);
      ValueOfToBytes(x / 0x100, n - 1);
      assert ToBytes(x, n)[1..] == ToBytes(x / 0x100, n - 1);
    }
  }

  lemma {:induction false} ValueOfZeros(n: nat)
    ensures Value(seq(n, i => 0 as byte)) == 0
  {
    if n > 0 {
      ValueOfZeros(n - 1);
      assert seq(n, i => 0 as byte)[1..] == seq(n - 1, i => 0 as byte);
    }
  }

  /** A split of a register into the low `16 - s` bytes and the high `s` bytes, as numbers. */
  lemma Split(q: Quad, k: nat)
    requires k <= 16
    ensures Value(q) == Value(q[..k]) + Pow2(8 * k) * Value(q[k..])
    ensures Value(q[..k]) < Pow2(8 * k) && Value(q[k..]) < Pow2(8 * (16 - k))
    ensures Value(q) / Pow2(8 * k) == Value(q[k..]) && Value(q) % Pow2(8 * k) == Value(q[..k])
  {
    assert q == q[..k] + q[k..];
    ValueConcat(q[..k], q[k..]);
    ValueBound(q[..k]);
    ValueBound(q[k..]);
    QuotientUnique(Value(q), Pow2(8 * k), Value(q[k..]), Value(q[..k]));
  }

  // ----- shifts by whole bytes -----

  /** Byte `j` of the result is byte `j - s` of `q`, or zero. */
  function ShlBytes(q: Quad, s: nat): Quad {
    seq(16, j requires 0 <= j < 16 => if j < s then 0 else q[j - s])
  }

  function ShrBytes(q: Quad, s: nat): Quad {
    seq(16, j requires 0 <= j < 16 => if j + s < 16 then q[j + s] else 0)
  }

  lemma ShlBytesValue(q: Quad, s: nat)
    ensures Value(ShlBytes(q, s)) == Value(q) * Pow2(8 * s) % Pow2(128)
  {
    if s <= 16 {
      ShlSomeBytes(q, s);
    } else {
      ShlAllBytes(q, s);
    }
  }

  lemma ShlSomeBytes(q: Quad, s: nat)
    requires s <= 16
    ensures Value(ShlBytes(q, s)) == Value(q) * Pow2(8 * s) % Pow2(128)
  {
    ShlBytesSlices(q, s);
    Split(q, 16 - s);
    ValueShiftedOut(Value(q), Value(q[..16 - s]), Value(q[16 - s..]), s);
  }

  lemma ValueShiftedOut(v: nat, low: nat, high: nat, s: nat)
    requires s <= 16 && low < Pow2(8 * (16 - s)) && v == low + Pow2(8 * (16 - s)) * high
    ensures v * Pow2(8 * s) % Pow2(128) == Pow2(8 * s) * low
  {
    Pow2Add(8 * (16 - s), 8 * s);
    ShiftedOut(low, high, Pow2(8 * (16 - s)), Pow2(8 * s), Pow2(128));
  }

  lemma ShlAllBytes(q: Quad, s: nat)
    requires s > 16
    ensures Value(ShlBytes(q, s)) == 0 && Value(q) * Pow2(8 * s) % Pow2(128) == 0
  {
    assert ShlBytes(q, s) == seq(16, i => 0 as byte);
    ValueOfZeros(16);
    Pow2Add(128, 8 * (s - 16));
    AllShiftedOut(Value(q), Pow2(128), Pow2(8 * (s - 16)));
  }

  lemma ShlBytesSlices(q: Quad, s: nat)
    requires s <= 16
    ensures Value(ShlBytes(q, s)) == Pow2(8 * s) * Value(q[..16 - s])
  {
    var zeros := seq(s, i => 0 as byte);
    assert ShlBytes(q, s) == zeros + q[..16 - s];
    ValueConcat(zeros, q[..16 - s]);
    ValueOfZeros(s);
  }

  lemma ShiftedOut(low: nat, high: nat, p: nat, r: nat, m: nat)
    requires low < p && r >= 1 && m == p * r
    ensures (low + p * high) * r % m == r * low
  {
    assert p * r >= 1;
    assert (low + p * high) * r == (p * r) * high + r * low;
    assert r * low < p * r;
    QuotientUnique((low + p * high) * r, m, high, r * low);
  }

  lemma AllShiftedOut(v: nat, m: nat, r: nat)
    requires m >= 1
    ensures v * (m * r) % m == 0
  {
    assert v * (m * r) == m * (v * r) + 0;
    QuotientUnique(v * (m * r), m, v * r, 0);
  }

  lemma ShrBytesValue(q: Quad, s: nat)
    ensures Value(ShrBytes(q, s)) == Value(q) / Pow2(8 * s)
  {
    if s <= 16 {
      Split(q, s);
      var zeros := seq(s, i => 0 as byte);
      assert ShrBytes(q, s) == q[s..] + zeros;
      ValueConcat(q[s..], zeros);
      ValueOfZeros(s);
      assert Pow2(8 * (16 - s)) * 0 == 0;
    } else {
      assert ShrBytes(q, s) == seq(16, i => 0 as byte);
      ValueOfZeros(16);
      ValueBound(q);
      Pow2Mono(128, 8 * s);
      QuotientUnique(Value(q), Pow2(8 * s), 0, Value(q));
    }
  }

  /** Shifting left and back keeps the low bytes. */
  lemma ShlThenShr(q: Quad, s: nat)
    requires s <= 16
    ensures Value(ShrBytes(ShlBytes(q, s), s)) == Value(q) % Pow2(8 * (16 - s))
  {
    var zeros := seq(s, i => 0 as byte);
    assert ShrBytes(ShlBytes(q, s), s) == q[..16 - s] + zeros;
    ValueConcat(q[..16 - s], zeros);
    ValueOfZeros(s);
    assert Pow2(8 * (16 - s)) * 0 == 0;
    Split(q, 16 - s);
  }

  // ----- rotations -----

  /** The low `k` bits of a number. */
  function LowBits(x: nat, k: nat): nat { x % Pow2(k) }

  /** A 128-bit left rotation: the low `128 - n` bits move up and the high `n` bits come in below. */
  function Rotl(x: nat, n: nat): nat
    requires n <= 128
  {
    Shl(LowBits(x, 128 - n), n) + Shr(x, 128 - n)
  }

  /** `low` and `high` are `x` modulo and divided by `p`. */
  ghost predicate PartsAt(x: nat, p: nat, low: nat, high: nat) { low < p && x == low + p * high }

  /** `low` and `high` are what a rotation by `n` moves up and brings in below. */
  ghost predicate Parts(x: nat, n: nat, low: nat, high: nat)
    requires n <= 128
  {
    PartsAt(x, Pow2(128 - n), low, high)
  }

  /** The parts put together again after a rotation by `n`. */
  ghost predicate Turned(low: nat, high: nat, n: nat, y: nat) { y == Pow2(n) * low + high }

  lemma RotlOfParts(x: nat, n: nat, low: nat, high: nat)
    requires n <= 128 && Parts(x, n, low, high)
    ensures Rotl(x, n) == Pow2(n) * low + high
  {
    QuotientUnique(x, Pow2(128 - n), high, low);
    ShlIsProduct(low, n);
    ShrIsQuotient(x, 128 - n);
  }

  lemma RotlIs(x: nat, n: nat, low: nat, high: nat, y: nat)
    requires n <= 128 && Parts(x, n, low, high) && Turned(low, high, n, y)
    ensures Rotl(x, n) == y
  {
    RotlOfParts(x, n, low, high);
  }

  /** Byte `j` of the result is byte `j - s` of `q`, counted around. */
  function RotBytes(q: Quad, s: nat): Quad {
    seq(16, j requires 0 <= j < 16 => q[(j - s) % 16])
  }

  lemma RotBytesSlices(q: Quad, s: nat)
    requires s < 16
    ensures RotBytes(q, s) == q[16 - s..] + q[..16 - s]
  {
    forall j | 0 <= j < 16
      ensures RotBytes(q, s)[j] == (q[16 - s..] + q[..16 - s])[j]
    {
      assert (j - s) % 16 == if j < s then 16 + j - s else j - s;
    }
  }

  lemma RotBytesValue(q: Quad, s: nat)
    requires s < 16
    ensures Value(RotBytes(q, s)) == Rotl(Value(q), 8 * s)
  {
    RotBytesSlices(q, s);
    ValueConcat(q[16 - s..], q[..16 - s]);
    Split(q, 16 - s);
    RotlOfParts(Value(q), 8 * s, Value(q[..16 - s]), Value(q[16 - s..]));
  }

  /** Rotating by `m` and then by `n` is rotating by `m + n`. */
  lemma RotlTwice(x: nat, m: nat, n: nat)
    requires x < Pow2(128) && m + n <= 128
    ensures Rotl(Rotl(x, m), n) == Rotl(x, m + n)
  {
    var y, z := RotationsMeet(x, m, n);
  }

  lemma RotationsMeet(x: nat, m: nat, n: nat) returns (y: nat, z: nat)
    requires x < Pow2(128) && m + n <= 128
    ensures Rotl(x, m) == y && Rotl(y, n) == z && Rotl(x, m + n) == z
  {
    var low1, high1, low2, high2, low, high;
    low1, high1, y, low2, high2, z, low, high := SplitForRotations(x, m, n);
    RotlIs(x, m, low1, high1, y);
    RotlIs(y, n, low2, high2, z);
    RotlIs(x, m + n, low, high, z);
  }

  /** The parts of `x` for the first rotation, of its result `y` for the second, and of `x` for both at once. */
  lemma SplitForRotations(x: nat, m: nat, n: nat)
    returns (low1: nat, high1: nat, y: nat, low2: nat, high2: nat, z: nat, low: nat, high: nat)
    requires x < Pow2(128) && m + n <= 128
    ensures Parts(x, m, low1, high1) && Turned(low1, high1, m, y)
    ensures Parts(y, n, low2, high2) && Turned(low2, high2, n, z)
    ensures Parts(x, m + n, low, high) && Turned(low, high, m + n, z)
  {
    Pow2Add(n, 128 - m - n);
    Pow2Add(m, 128 - m);
    Pow2Add(m, 128 - m - n);
    Pow2Add(m, n);
    low1, high1, y, low2, high2, z, low, high :=
      SplitByProducts(x, Pow2(m), Pow2(n), Pow2(128 - m - n), Pow2(m + n), Pow2(128 - m), Pow2(128 - n));
  }

  lemma SplitByProducts(x: nat, a: nat, b: nat, c: nat, ab: nat, bc: nat, ac: nat)
    returns (low1: nat, high1: nat, y: nat, low2: nat, high2: nat, z: nat, low: nat, high: nat)
    requires a >= 1 && b >= 1 && c >= 1 && ab == a * b && bc == b * c && ac == a * c && x < a * bc
    ensures PartsAt(x, bc, low1, high1) && y == a * low1 + high1
    ensures PartsAt(y, ac, low2, high2) && PartsAt(x, c, low, high)
    ensures z == b * low2 + high2 && z == ab * low + high
  {
    high1, high2, low := ThreeDigits(x, a, b, c);
    low1, high := low + c * high2, high2 + b * high1;
    y, low2 := a * low1 + high1, a * low + high1;
    FirstRotation(x, b, c, high1, high2, low, bc);
    SecondRotation(a, c, high1, high2, low, ac);
    Distribute(b, a, low, high1);
    z := Combined(b, low2, high2);
  }

  lemma Combined(b: nat, low: nat, high: nat) returns (z: nat)
    ensures z == b * low + high
  {
    z := b * low + high;
  }

  lemma Divide(x: nat, d: nat) returns (q: nat, r: nat)
    requires d >= 1
    ensures x == r + d * q && r < d
  {
    q, r := x / d, x % d;
  }

  lemma ThreeDigits(x: nat, a: nat, b: nat, c: nat) returns (high: nat, mid: nat, low: nat)
    requires a >= 1 && b >= 1 && c >= 1 && x < a * (b * c)
    ensures x == low + c * (mid + b * high) && low < c && mid < b && high < a
  {
    var rest;
    rest, low := Divide(x, c);
    high, mid := Divide(rest, b);
    TopDigitBound(x, a, b, c, high, rest);
  }

  lemma TopDigitBound(x: nat, a: nat, b: nat, c: nat, high: nat, rest: nat)
    requires x < a * (b * c) && x >= c * rest && rest >= b * high && c >= 1 && b >= 1
    ensures high < a
  {
    assert c * rest >= c * (b * high);
    assert c * (b * high) == (b * c) * high;
    assert (b * c) * a == a * (b * c);
    if high >= a {
      ProductMonotone(b * c, a, high);
    }
  }

  lemma ProductMonotone(k: nat, x: nat, y: nat)
    requires x <= y
    ensures k * x <= k * y
  {
  }

  lemma FirstRotation(x: nat, b: nat, c: nat, high: nat, mid: nat, low: nat, bc: nat)
    requires x == low + c * (mid + b * high) && low < c && mid < b && bc == b * c
    ensures x == (low + c * mid) + bc * high && low + c * mid < bc
  {
    assert c * (mid + b * high) == c * mid + (b * c) * high;
    ProductMonotone(c, mid + 1, b);
    assert c * (mid + 1) == c * mid + c;
  }

  lemma SecondRotation(a: nat, c: nat, high: nat, mid: nat, low: nat, ac: nat)
    requires low < c && high < a && ac == a * c
    ensures a * (low + c * mid) + high == (a * low + high) + ac * mid && a * low + high < ac
  {
    assert a * (low + c * mid) == a * low + (a * c) * mid;
    ProductMonotone(a, low + 1, c);
    assert a * (low + 1) == a * low + a;
  }

  lemma Distribute(b: nat, a: nat, low: nat, high: nat)
    ensures b * (a * low + high) == (a * b) * low + b * high
  {
  }

  // ----- rotations bit by bit -----

  lemma PartsForRotation(x: nat, n: nat) returns (low: nat, high: nat)
    requires x < Pow2(128) && n <= 128
    ensures Parts(x, n, low, high) && high < Pow2(n)
  {
    high, low := Divide(x, Pow2(128 - n));
    Pow2Add(128 - n, n);
    QuotientBelowPower(x, Pow2(128 - n), Pow2(n), low, high);
  }

  lemma BitMoved(x: nat, y: nat, n: nat, low: nat, high: nat, i: nat)
    requires n <= 128 && i < 128 && Parts(x, n, low, high) && high < Pow2(n) && Turned(low, high, n, y)
    ensures Bit(y, i) == Bit(x, if i < n then 128 - n + i else i - n)
  {
    BitOfJoined(y, n, high, low, i);
    BitOfJoined(x, 128 - n, low, high, if i < n then 128 - n + i else i - n);
  }

  lemma CountedAround(i: nat, n: nat)
    requires n <= 128 && i < 128
    ensures (i - n) % 128 == if i < n then 128 - n + i else i - n
  {
  }

  /** A 128-bit left rotation moves bit `i - n`, counted around, to place `i`. */
  lemma RotlBit(x: nat, n: nat, i: nat)
    requires x < Pow2(128) && n <= 128 && i < 128
    ensures Bit(Rotl(x, n), i) == Bit(x, (i - n) % 128)
  {
    var low, high := PartsForRotation(x, n);
    RotlOfParts(x, n, low, high);
    BitMoved(x, Rotl(x, n), n, low, high, i);
    CountedAround(i, n);
  }

  lemma QuotientBelowPower(x: nat, p: nat, q: nat, low: nat, high: nat)
    requires x == low + p * high && x < p * q
    ensures high < q
  {
    if high >= q {
      ProductMonotone(p, q, high);
    }
  }

  lemma BitOfJoined(z: nat, n: nat, low: nat, high: nat, i: nat)
    requires low < Pow2(n) && z == low + Pow2(n) * high
    ensures Bit(z, i) == if i < n then Bit(low, i) else Bit(high, i - n)
  {
    ShlIsProduct(high, n);
    BitConcat(n, low, high, i);
  }

  /** Bit `i` of a register is in byte `i / 8`. */
  lemma {:induction false} BitOfBytes(bytes: seq<byte>, i: nat)
    requires i < 8 * |bytes|
    ensures Bit(Value(bytes), i) == Bit(bytes[i / 8], i % 8)
  {
    assert Pow2(8) == 0x100;
    BitOfJoined(Value(bytes), 8, bytes[0], Value(bytes[1..]), i);
    if i >= 8 {
      BitOfBytes(bytes[1..], i - 8);
    }
  }
}
