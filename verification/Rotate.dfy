/** `src/spu_emu_rot.cpp`: rotations of a register by bytes and by bits, in place. */
module Rotate {
  import opened Bits
  import opened Vectors
  import opened QuadValue
  import opened SpuState

  // ----- by less than eight bits, on two 64-bit halves -----

  /** `m128_u64[i]` of a register. */
  function Double(q: Quad, i: nat): nat
    requires i < 2
  {
    Value(q[8 * i..8 * i + 8])
  }

  lemma DoublesOfQuad(q: Quad)
    ensures Double(q, 0) < Pow2(64) && Double(q, 1) < Pow2(64)
    ensures Value(q) == Double(q, 0) + Pow2(64) * Double(q, 1)
  {
    assert q[0..8] == q[..8] && q[8..16] == q[8..];
    Split(q, 8);
  }

  /** `(x << s) | (y >> (64 - s))`. */
  function Funnel(x: nat, y: nat, s: nat): nat
    requires s <= 64
  {
    Or(Shl(x, s) % Pow2(64), Shr(y, 64 - s))
  }

  /** The bits of `x` that stay in a 64-bit half shifted left by `s`, and those that leave it. */
  lemma FunnelParts(x: nat, s: nat) returns (low: nat, high: nat)
    requires 1 <= s < 64 && x < Pow2(64)
    ensures PartsAt(x, Pow2(64 - s), low, high) && high < Pow2(s)
  {
    Pow2Add(64 - s, s);
    low, high := DivideInto(x, Pow2(s), Pow2(64 - s), Pow2(64));
  }

  lemma DivideInto(x: nat, p: nat, r: nat, m: nat) returns (low: nat, high: nat)
    requires r >= 1 && m == r * p && x < m
    ensures PartsAt(x, r, low, high) && high < p
  {
    low, high := x % r, x / r;
    QuotientBelow(x, p, r, m);
  }

  lemma KeptPart(x: nat, s: nat, low: nat, high: nat)
    requires 1 <= s < 64 && PartsAt(x, Pow2(64 - s), low, high)
    ensures Shl(x, s) % Pow2(64) == Pow2(s) * low
  {
    Pow2Add(64 - s, s);
    ShlIsProduct(x, s);
    ShiftedOut(low, high, Pow2(64 - s), Pow2(s), Pow2(64));
    CommutedProduct(Pow2(s), x);
  }

  lemma CommutedProduct(a: nat, b: nat)
    ensures a * b == b * a
  {
  }

  lemma FunnelValue(x: nat, lx: nat, hx: nat, y: nat, ly: nat, hy: nat, s: nat)
    requires 1 <= s < 64 && PartsAt(x, Pow2(64 - s), lx, hx) && PartsAt(y, Pow2(64 - s), ly, hy) && hy < Pow2(s)
    ensures Funnel(x, y, s) == hy + Pow2(s) * lx && Funnel(x, y, s) < Pow2(64)
  {
    KeptPart(x, s, lx, hx);
    ShrIsQuotient(y, 64 - s);
    QuotientUnique(y, Pow2(64 - s), hy, ly);
    OrDisjoint(s, Pow2(s), hy, lx);
    OrComm(Pow2(s) * lx, hy);
    Pow2Add(64 - s, s);
    JoinBelow(Pow2(s), Pow2(64 - s), lx, hy, Pow2(64));
  }

  lemma QuotientBelow(y: nat, p: nat, r: nat, m: nat)
    requires r >= 1 && m == r * p && y < m
    ensures y / r < p
  {
    var q := y / r;
    assert y >= r * q;
    if q >= p {
      ProductMonotone(r, p, q);
    }
  }

  lemma JoinBelow(p: nat, r: nat, low: nat, high: nat, m: nat)
    requires low < r && high < p && m == r * p
    ensures high + p * low < m
  {
    ProductMonotone(p, low + 1, r);
    assert p * (low + 1) == p * low + p;
    assert p * r == r * p;
  }

  /** Funnelling each half into the other is a rotation of the whole. */
  lemma FunnelRotates(x0: nat, x1: nat, x: nat, s: nat)
    requires x0 < Pow2(64) && x1 < Pow2(64) && 1 <= s < 64 && x == x0 + Pow2(64) * x1
    ensures Funnel(x0, x1, s) < Pow2(64) && Funnel(x1, x0, s) < Pow2(64)
    ensures Funnel(x0, x1, s) + Pow2(64) * Funnel(x1, x0, s) == Rotl(x, s)
  {
    var l0, h0 := FunnelParts(x0, s);
    var l1, h1 := FunnelParts(x1, s);
    FunnelValue(x0, l0, h0, x1, l1, h1, s);
    FunnelValue(x1, l1, h1, x0, l0, h0, s);
    RotlOfHalves(x0, l0, h0, x1, l1, h1, x, s);
  }

  lemma RotlOfHalves(x0: nat, l0: nat, h0: nat, x1: nat, l1: nat, h1: nat, x: nat, s: nat)
    requires x0 < Pow2(64) && 1 <= s < 64 && x == x0 + Pow2(64) * x1
    requires PartsAt(x0, Pow2(64 - s), l0, h0) && PartsAt(x1, Pow2(64 - s), l1, h1)
    ensures Rotl(x, s) == (h1 + Pow2(s) * l0) + Pow2(64) * (h0 + Pow2(s) * l1)
  {
    var low := JoinParts(x0, Pow2(64), l1);
    RotlOfTop(x0, x1, l1, h1, x, s, low);
    RearrangeBits(s, x0, l0, h0, l1, h1, low);
  }

  lemma RearrangeBits(s: nat, x0: nat, l0: nat, h0: nat, l1: nat, h1: nat, low: nat)
    requires 1 <= s < 64 && PartsAt(x0, Pow2(64 - s), l0, h0) && low == x0 + Pow2(64) * l1
    ensures (h1 + Pow2(s) * l0) + Pow2(64) * (h0 + Pow2(s) * l1) == Pow2(s) * low + h1
  {
    Pow2Add(64 - s, s);
    Rearrange(Pow2(s), Pow2(64 - s), Pow2(64), x0, l0, h0, l1, h1, low);
  }

  lemma JoinParts(x: nat, w: nat, y: nat) returns (z: nat)
    ensures z == x + w * y
  {
    z := x + w * y;
  }

  lemma RotlOfTop(x0: nat, x1: nat, l1: nat, h1: nat, x: nat, s: nat, low: nat)
    requires x0 < Pow2(64) && 1 <= s < 64 && x == x0 + Pow2(64) * x1
    requires PartsAt(x1, Pow2(64 - s), l1, h1) && low == x0 + Pow2(64) * l1
    ensures Rotl(x, s) == Pow2(s) * low + h1
  {
    Pow2Add(64, 64 - s);
    TopPart(x0, x1, l1, h1, Pow2(64 - s), Pow2(64), Pow2(128 - s), x, low);
    RotlOfParts(x, s, low, h1);
  }

  lemma TopPart(x0: nat, x1: nat, l1: nat, h1: nat, r: nat, w: nat, wr: nat, x: nat, low: nat)
    requires x0 < w && PartsAt(x1, r, l1, h1) && wr == w * r && x == x0 + w * x1 && low == x0 + w * l1
    ensures PartsAt(x, wr, low, h1)
  {
    assert w * (l1 + r * h1) == w * l1 + (w * r) * h1;
    ProductMonotone(w, l1 + 1, r);
    assert w * (l1 + 1) == w * l1 + w;
  }

  lemma Rearrange(p: nat, r: nat, w: nat, x0: nat, l0: nat, h0: nat, l1: nat, h1: nat, low: nat)
    requires w == r * p && PartsAt(x0, r, l0, h0) && low == x0 + w * l1
    ensures (h1 + p * l0) + w * (h0 + p * l1) == p * low + h1
  {
    assert p * (l0 + r * h0 + w * l1) == p * l0 + (r * p) * h0 + p * (w * l1);
    assert w * (h0 + p * l1) == w * h0 + w * (p * l1);
    assert p * (w * l1) == w * (p * l1);
  }

  method SetLowBytes(spu: Spu, rt: reg, bytes: seq<byte>)
    requires spu.Valid() && |bytes| == 8
    modifies spu.GPR
    ensures spu.Row(rt) == bytes + old(spu.Row(rt))[8..] && spu.OthersKept(rt)
  {
    forall j | 0 <= j < 8 {
      spu.GPR[rt, j] := bytes[j];
    }
    assert spu.Row(rt) == bytes + old(spu.Row(rt))[8..];
  }

  method SetHighBytes(spu: Spu, rt: reg, bytes: seq<byte>)
    requires spu.Valid() && |bytes| == 8
    modifies spu.GPR
    ensures spu.Row(rt) == old(spu.Row(rt))[..8] + bytes && spu.OthersKept(rt)
  {
    forall j | 0 <= j < 8 {
      spu.GPR[rt, j + 8] := bytes[j];
    }
    assert spu.Row(rt) == old(spu.Row(rt))[..8] + bytes;
  }

  lemma DoublesOfBytes(low: seq<byte>, high: seq<byte>)
    requires |low| == 8 && |high| == 8
    ensures Double(low + high, 0) == Value(low) && Double(low + high, 1) == Value(high)
  {
    assert (low + high)[0..8] == low && (low + high)[8..16] == high;
  }

  /** Assignment to `m128_u64[0]` of a register. */
  method SetLowDouble(spu: Spu, rt: reg, x: nat)
    requires spu.Valid() && x < Pow2(64)
    modifies spu.GPR
    ensures Double(spu.Row(rt), 0) == x && Double(spu.Row(rt), 1) == old(Double(spu.Row(rt), 1))
    ensures spu.OthersKept(rt)
  {
    ghost var row := spu.Row(rt);
    assert row[..8] + row[8..] == row;
    DoublesOfBytes(row[..8], row[8..]);
    var bytes := ToBytes(x, 8);
    ValueOfToBytes(x, 8);
    SetLowBytes(spu, rt, bytes);
    DoublesOfBytes(bytes, row[8..]);
  }

  /** Assignment to `m128_u64[1]`. */
  method SetHighDouble(spu: Spu, rt: reg, x: nat)
    requires spu.Valid() && x < Pow2(64)
    modifies spu.GPR
    ensures Double(spu.Row(rt), 1) == x && Double(spu.Row(rt), 0) == old(Double(spu.Row(rt), 0))
    ensures spu.OthersKept(rt)
  {
    ghost var row := spu.Row(rt);
    assert row[..8] + row[8..] == row;
    DoublesOfBytes(row[..8], row[8..]);
    var bytes := ToBytes(x, 8);
    ValueOfToBytes(x, 8);
    SetHighBytes(spu, rt, bytes);
    DoublesOfBytes(row[..8], bytes);
  }

  /** A 64-bit number. */
  type double = x: nat | x < 0x1_0000_0000_0000_0000

  /** `x >> (64 - s)`. C++ leaves a shift by 64 undefined: `far` is what the machine gives for it. */
  function Leftover(x: double, s: nat, far: double -> double): nat
    requires s < 8
  {
    if s == 0 then far(x) else Shr(x, 64 - s)
  }

  /** What `rotqbii` makes of a register `q`: a rotation, unless the count is 0; then each half is joined
      with what is left over of the other. */
  ghost predicate BitsRotated(r: Quad, q: Quad, s: nat, far: double -> double)
    requires s < 8
  {
    if s != 0 then Value(r) == Rotl(Value(q), s) else Joined(r, q, far)
  }

  ghost predicate Joined(r: Quad, q: Quad, far: double -> double) {
    IsDouble(q);
    Double(r, 0) == Or(Double(q, 0), far(Double(q, 1))) && Double(r, 1) == Or(Double(q, 1), far(Double(q, 0)))
  }

  lemma IsDouble(q: Quad)
    ensures Double(q, 0) < 0x1_0000_0000_0000_0000 && Double(q, 1) < 0x1_0000_0000_0000_0000
  {
    Pow2Of64();
    DoublesOfQuad(q);
  }

  /** The half that `rotqbii` stores. */
  function Half(x: double, y: double, s: nat, far: double -> double): nat
    requires s < 8
  {
    Or(Shl(x, s) % Pow2(64), Leftover(y, s, far))
  }

  lemma HalfAtZero(x: double, y: double, far: double -> double)
    ensures Half(x, y, 0, far) == Or(x, far(y)) < Pow2(64)
  {
    Unshifted(x);
    OrOfDoubles(x, far(y));
  }

  lemma Unshifted(x: double)
    ensures Shl(x, 0) % Pow2(64) == x
  {
    Pow2Of64();
  }

  lemma OrOfDoubles(x: double, y: double)
    ensures Or(x, y) < Pow2(64)
  {
    Pow2Of64();
    OrBound(64, x, y);
  }

  lemma HalfFunnelled(x: double, y: double, s: nat, far: double -> double)
    requires 0 < s < 8
    ensures Half(x, y, s, far) == Funnel(x, y, s) < Pow2(64)
  {
    Pow2Of64();
    var ly, hy := FunnelParts(y, s);
    var lx, hx := FunnelParts(x, s);
    FunnelValue(x, lx, hx, y, ly, hy, s);
  }

  method Rotqbii(spu: Spu, op: RR, far: double -> double)
    requires spu.Valid()
    modifies spu.GPR
    ensures BitsRotated(spu.Row(op.RT), old(spu.Row(op.RA)), op.RB % 8, far) && spu.OthersKept(op.RT)
  {
    var s := MaskThree(op.RB);
    ghost var source := spu.Row(op.RA);
    IsDouble(source);
    var x0 := Double(spu.Row(op.RA), 0);
    var x1 := Double(spu.Row(op.RA), 1);
    HalvesJoined(source, x0, x1, s, far);
    SetLowDouble(spu, op.RT, Half(x0, x1, s, far));
    SetHighDouble(spu, op.RT, Half(x1, x0, s, far));
    HalvesRotated(spu.Row(op.RT), source, s, far);
  }

  lemma HalvesJoined(q: Quad, x0: double, x1: double, s: nat, far: double -> double)
    requires s < 8 && x0 == Double(q, 0) && x1 == Double(q, 1)
    ensures Half(x0, x1, s, far) < Pow2(64) && Half(x1, x0, s, far) < Pow2(64)
    ensures s > 0 ==> Half(x0, x1, s, far) + Pow2(64) * Half(x1, x0, s, far) == Rotl(Value(q), s)
  {
    if s == 0 {
      HalfAtZero(x0, x1, far);
      HalfAtZero(x1, x0, far);
    } else {
      HalfFunnelled(x0, x1, s, far);
      HalfFunnelled(x1, x0, s, far);
      DoublesOfQuad(q);
      FunnelRotates(x0, x1, Value(q), s);
    }
  }

  lemma HalvesRotated(r: Quad, q: Quad, s: nat, far: double -> double)
    requires s < 8 && Double(q, 0) < 0x1_0000_0000_0000_0000 && Double(q, 1) < 0x1_0000_0000_0000_0000
    requires Double(r, 0) == Half(Double(q, 0), Double(q, 1), s, far)
             && Double(r, 1) == Half(Double(q, 1), Double(q, 0), s, far)
    ensures BitsRotated(r, q, s, far)
  {
    var x0: double, x1: double := Double(q, 0), Double(q, 1);
    if s == 0 {
      HalfAtZero(x0, x1, far);
      HalfAtZero(x1, x0, far);
    } else {
      HalvesJoined(q, x0, x1, s, far);
      DoublesOfQuad(r);
    }
  }

  /** What is left over of each half has no bit that the other half has not. */
  ghost predicate Harmless(q: Quad, far: double -> double) {
    IsDouble(q);
    Inside(far(Double(q, 1)), Double(q, 0)) && Inside(far(Double(q, 0)), Double(q, 1))
  }

  /** Then, and only then, joining it changes nothing. */
  lemma HarmlessIff(q: Quad, far: double -> double)
    ensures Harmless(q, far) <==> Joined(q, q, far)
  {
    IsDouble(q);
    OrKeepsIff(Double(q, 0), far(Double(q, 1)));
    OrKeepsIff(Double(q, 1), far(Double(q, 0)));
  }

  lemma DoublesDetermine(a: Quad, b: Quad)
    ensures Value(a) == Value(b) <==> Double(a, 0) == Double(b, 0) && Double(a, 1) == Double(b, 1)
  {
    DoublesOfQuad(a);
    DoublesOfQuad(b);
    DigitsDetermine(Double(a, 0), Double(a, 1), Double(b, 0), Double(b, 1), Pow2(64));
  }

  lemma DigitsDetermine(a0: nat, a1: nat, b0: nat, b1: nat, p: nat)
    requires a0 < p && b0 < p
    ensures a0 + p * a1 == b0 + p * b1 <==> a0 == b0 && a1 == b1
  {
    if a0 + p * a1 == b0 + p * b1 {
      QuotientUnique(a0 + p * a1, p, a1, a0);
      QuotientUnique(b0 + p * b1, p, b1, b0);
    }
  }

  /** At count 0 the register comes out unrotated, as it should, if and only if nothing harmful is left over. */
  lemma UnrotatedIff(r: Quad, q: Quad, far: double -> double)
    requires BitsRotated(r, q, 0, far)
    ensures Value(r) == Value(q) <==> Harmless(q, far)
  {
    DoublesDetermine(r, q);
    HarmlessIff(q, far);
  }

  /** A machine that shifts everything out does no harm; one that shifts by the count modulo 64 does none
      exactly to a register of two equal halves. */
  lemma HarmlessMachines(q: Quad, far: double -> double)
    ensures (forall x: double :: far(x) == 0) ==> Harmless(q, far)
    ensures (forall x: double :: far(x) == x) ==> (Harmless(q, far) <==> Double(q, 0) == Double(q, 1))
  {
    IsDouble(q);
    HarmlessIff(q, far);
    var x: double, y: double := Double(q, 0), Double(q, 1);
    OrZero(x);
    OrZero(y);
    OrComm(x, y);
    OrSelf(x);
  }

  /** `0x7 & x`. */
  method MaskThree(x: nat) returns (r: reg)
    ensures r == x % 8 && r % 8 == r && r < 8
  {
    assert Pow2(3) == 8;
    AndLow(3, 8, x % 8, x / 8);
    r := And(x, 0x7);
  }

  /** `0xf & x`. */
  method MaskFour(x: nat) returns (r: reg)
    ensures r == x % 16 && r % 16 == r && r < 16
  {
    assert Pow2(4) == 16;
    AndLow(4, 16, x % 16, x / 16);
    r := And(x, 0xF);
  }

  method Rotqbi(spu: Spu, op: RR, far: double -> double)
    requires spu.Valid()
    modifies spu.GPR
    ensures BitsRotated(spu.Row(op.RT), old(spu.Row(op.RA)), old(spu.PrefSlot(op.RB)) % 8, far) && spu.OthersKept(op.RT)
  {
    var i7 := MaskThree(spu.PrefSlot(op.RB));
    Rotqbii(spu, RR(op.RT, op.RA, i7, op.OP), far);
  }

  // ----- by whole bytes -----

  /** What the loop of `rotqbyi` leaves in a register rotated onto itself: bytes already overwritten
      are read again, so the top `s` bytes repeat. */
  function RotBytesOntoSelf(q: Quad, s: nat): Quad
    requires s < 16
  {
    seq(16, j requires 0 <= j < 16 => if s == 0 then q[j] else q[16 - s + j % s])
  }

  function Rotated(q: Quad, s: nat, ontoSelf: bool): Quad
    requires s < 16
  {
    if ontoSelf then RotBytesOntoSelf(q, s) else RotBytes(q, s)
  }

  lemma Wraps(j: int, s: int)
    requires 0 <= j < 16 && 0 <= s < 16
    ensures (j - s) % 16 == if j < s then 16 + j - s else j - s
  {
  }

  lemma StepsBack(j: nat, s: nat)
    requires 0 < s
    ensures j < s ==> j % s == j
    ensures j >= s ==> (j - s) % s == j % s
    ensures j % s < s
  {
    if j >= s {
      var q, r := j / s, j % s;
      assert j - s == s * (q - 1) + r;
      QuotientUnique(j - s, s, q - 1, r);
    } else {
      QuotientUnique(j, s, 0, j);
    }
  }

  /** The byte the loop of `rotqbyi` reads for position `j` is the one that belongs there. */
  lemma ReadByte(q: Quad, s: nat, ontoSelf: bool, j: nat, read: byte)
    requires s < 16 && j < 16
    requires read == if ontoSelf && (j - s) % 16 < j then RotBytesOntoSelf(q, s)[(j - s) % 16] else q[(j - s) % 16]
    ensures read == Rotated(q, s, ontoSelf)[j]
  {
    Wraps(j, s);
    if s > 0 && ontoSelf {
      ReadOnto(q, s, j, if j < s then 16 + j - s else j - s, read);
    }
  }

  lemma ReadOnto(q: Quad, s: nat, j: nat, from: nat, read: byte)
    requires 0 < s < 16 && j < 16 && from == if j < s then 16 + j - s else j - s
    requires read == if from < j then RotBytesOntoSelf(q, s)[from] else q[from]
    ensures read == RotBytesOntoSelf(q, s)[j]
  {
    StepsBack(j, s);
    ByteAt(q, s, j, j % s);
    if j >= s {
      ByteAt(q, s, j - s, j % s);
    }
  }

  lemma ByteAt(q: Quad, s: nat, j: nat, r: nat)
    requires 0 < s < 16 && j < 16 && r == j % s && r < s
    ensures RotBytesOntoSelf(q, s)[j] == q[16 - s + r]
  {
  }

  method Rotqbyi(spu: Spu, op: RR)
    requires spu.Valid()
    modifies spu.GPR
    ensures spu.Row(op.RT) == Rotated(old(spu.Row(op.RA)), op.RB % 16, op.RT == op.RA)
    ensures spu.OthersKept(op.RT)
  {
    var s: int := MaskFour(op.RB);
    ghost var source := spu.Row(op.RA);
    ghost var target := Rotated(source, s, op.RT == op.RA);
    var i: int := 0;
    while i < 16
      invariant 0 <= i <= 16
      invariant forall j :: 0 <= j < i ==> spu.GPR[op.RT, j] == target[j]
      invariant forall r: reg, j :: 0 <= j < 16 && (r != op.RT || j >= i) ==> spu.GPR[r, j] == old(spu.GPR[r, j])
    {
      var raw := spu.GPR[op.RA, i];
      var shifted := spu.GPR[op.RA, (i - s) % 16];
      ReadByte(source, s, op.RT == op.RA, i, shifted);
      spu.GPR[op.RT, i] := if s <= 15 then shifted else raw;
      i := i + 1;
    }
    assert spu.Row(op.RT) == target;
  }

  /** Rotated onto itself, a register comes out right exactly when its lower bytes repeat its top ones. */
  lemma RotBytesOntoSelfIff(q: Quad, s: nat)
    requires s < 16
    ensures RotBytesOntoSelf(q, s) == RotBytes(q, s)
       <==> s == 0 || forall j :: 0 <= j < 16 - s ==> q[j] == q[16 - s + j % s]
  {
    if s == 0 {
      forall j | 0 <= j < 16
        ensures RotBytesOntoSelf(q, s)[j] == RotBytes(q, s)[j]
      {
        Wraps(j, s);
      }
    } else {
      var onto, rot := RotBytesOntoSelf(q, s), RotBytes(q, s);
      forall j | 0 <= j < 16
        ensures j < s ==> onto[j] == rot[j]
        ensures j >= s ==> onto[j] == q[16 - s + (j - s) % s] && rot[j] == q[j - s]
      {
        Wraps(j, s);
        StepsBack(j, s);
      }
      if onto == rot {
        forall j | 0 <= j < 16 - s
          ensures q[j] == q[16 - s + j % s]
        {
          assert onto[j + s] == rot[j + s];
        }
      }
    }
  }

  /** The bytes 0 to 15, rotated onto themselves by one byte, all become byte 15. */
  lemma OntoSelfDiffers(q: Quad)
    requires q == seq(16, i requires 0 <= i < 16 => i)
    ensures RotBytesOntoSelf(q, 1) == seq(16, i => 15) && RotBytes(q, 1)[1] == 0
  {
  }

  method Rotqby(spu: Spu, op: RR)
    requires spu.Valid()
    modifies spu.GPR
    ensures spu.Row(op.RT) == Rotated(old(spu.Row(op.RA)), old(spu.PrefSlot(op.RB)) % 16, op.RT == op.RA)
    ensures spu.OthersKept(op.RT)
  {
    var i7 := MaskFour(spu.PrefSlot(op.RB));
    Rotqbyi(spu, RR(op.RT, op.RA, i7, op.OP));
  }

  method Rotqbybi(spu: Spu, op: RR)
    requires spu.Valid()
    modifies spu.GPR
    ensures spu.Row(op.RT) == Rotated(old(spu.Row(op.RA)), old(spu.PrefSlot(op.RB)) / 8 % 16, op.RT == op.RA)
    ensures spu.OthersKept(op.RT)
  {
    var i7 := MaskFour(spu.PrefSlot(op.RB) / 8);
    Rotqbyi(spu, RR(op.RT, op.RA, i7, op.OP));
  }

  // ----- by any number of bits -----

  lemma CountInBytesAndBits(n: nat)
    ensures 8 * (n / 8 % 16) + n % 8 == n % 128
  {
    var a := n / 8;
    QuotientUnique(n, 128, a / 16, 8 * (a % 16) + n % 8);
  }

  lemma CountParts(n: nat) returns (s: nat, a: nat, t: nat)
    ensures s == n / 8 % 16 < 16 && a == n % 8 < 8 && t == n % 128 == 8 * s + a
  {
    CountInBytesAndBits(n);
    s, a, t := n / 8 % 16, n % 8, n % 128;
  }

  /** What `rotqbybi` leaves in `mid`. */
  function Halfway(q: Quad, n: nat, ontoSelf: bool): Quad { Rotated(q, n / 8 % 16, ontoSelf) }

  /** The count `rotqbi` then finds: the low bits of the count register, unless that is `mid`. */
  function CountLeft(halfway: Quad, n: nat, overwritten: bool): (c: nat)
    ensures c < 8
  {
    (if overwritten then Word(halfway, GPR_PREF_SLOT) else n) % 8
  }

  /** `rotqbybi` into `mid` and then `rotqbi` into `rt`, with the same count register, whichever registers
      they are. */
  method RotateByCount(spu: Spu, rt: reg, mid: reg, ra: reg, rb: reg, opcode: nat, far: double -> double)
    requires spu.Valid()
    modifies spu.GPR
    ensures var halfway := Halfway(old(spu.Row(ra)), old(spu.PrefSlot(rb)), mid == ra);
            BitsRotated(spu.Row(rt), halfway, CountLeft(halfway, old(spu.PrefSlot(rb)), mid == rb), far)
    ensures mid != ra && mid != rb && old(spu.PrefSlot(rb)) % 8 != 0 ==>
              Value(spu.Row(rt)) == Rotl(Value(old(spu.Row(ra))), old(spu.PrefSlot(rb)) % 128)
    ensures forall r: reg :: r != rt && r != mid ==> spu.Row(r) == old(spu.Row(r))
  {
    ghost var source, n := spu.Row(ra), spu.PrefSlot(rb);
    Rotqbybi(spu, RR(mid, ra, rb, opcode));
    assert mid != rb ==> spu.Row(rb) == old(spu.Row(rb));
    Rotqbi(spu, RR(rt, mid, rb, opcode), far);
    if mid != ra && mid != rb {
      RotatedByCountIff(spu.Row(rt), source, n, far);
    }
  }

  lemma RotationsCompose(q: Quad, n: nat)
    ensures Rotl(Value(RotBytes(q, n / 8 % 16)), n % 8) == Rotl(Value(q), n % 128)
  {
    var s := n / 8 % 16;
    RotBytesValue(q, s);
    CountInBytesAndBits(n);
    ValueBound(q);
    RotlTwice(Value(q), 8 * s, n % 8);
  }

  lemma RotlByNone(x: nat)
    requires x < Pow2(128)
    ensures Rotl(x, 0) == x && Rotl(x, 128) == x
  {
    RotlOfParts(x, 0, x, 0);
    RotlByAll(x);
  }

  lemma RotlByAll(x: nat)
    requires x < Pow2(128)
    ensures Rotl(x, 128) == x
  {
    RotlOfParts(x, 128, 0, x);
  }

  /** A rotation loses nothing. */
  lemma RotlInjective(x: nat, y: nat, m: nat)
    requires x < Pow2(128) && y < Pow2(128) && m <= 128
    ensures Rotl(x, m) == Rotl(y, m) <==> x == y
  {
    RotlTwice(x, m, 128 - m);
    RotlTwice(y, m, 128 - m);
    RotlByNone(x);
    RotlByNone(y);
  }

  /** Unless something harmful is left over at count 0, the second instruction rotates by the count it finds. */
  lemma SecondRotates(r: Quad, halfway: Quad, c: nat, far: double -> double)
    requires c < 8 && BitsRotated(r, halfway, c, far) && (c != 0 || Harmless(halfway, far))
    ensures Value(r) == Rotl(Value(halfway), c)
  {
    if c == 0 {
      UnrotatedIff(r, halfway, far);
      ValueBound(halfway);
      RotlByNone(Value(halfway));
    }
  }

  /** Through a third register the two instructions rotate by the whole count modulo 128 if and only if
      the count is not a multiple of eight or nothing harmful is left over. */
  lemma RotatedByCountIff(r: Quad, q: Quad, n: nat, far: double -> double)
    requires BitsRotated(r, RotBytes(q, n / 8 % 16), n % 8, far)
    ensures Value(r) == Rotl(Value(q), n % 128) <==> n % 8 != 0 || Harmless(RotBytes(q, n / 8 % 16), far)
  {
    var halfway := RotBytes(q, n / 8 % 16);
    RotationsCompose(q, n);
    if n % 8 == 0 {
      UnrotatedIff(r, halfway, far);
      ValueBound(halfway);
      RotlByNone(Value(halfway));
    }
  }

  /** The bit that is joined at place `i` of a register at count 0: bit `i % 64` left over of the other half. */
  function Spill(y: Quad, far: double -> double, i: nat): nat
    requires i < 128
  {
    IsDouble(y);
    Bit(far(Double(y, 1 - i / 64)), i % 64)
  }

  /** At every place, a bit of `y` or one joined to it is what a rotation of `v` by `t` has there. */
  ghost predicate Completes(y: Quad, far: double -> double, v: nat, t: nat) {
    forall i: nat :: i < 128 ==> Bit(v, (i - t) % 128) == OrBit(Bit(Value(y), i), Spill(y, far, i))
  }

  /** A bit of a number whose half in question is joined with `z`. */
  lemma BitOfEither(n: nat, v: nat, v0: nat, v1: nat, w: nat, w0: nat, w1: nat, z: nat, upper: bool, j: nat, i: nat)
    requires v0 < Pow2(n) && v == v0 + Pow2(n) * v1 && w0 < Pow2(n) && w == w0 + Pow2(n) * w1
    requires j < n && (if upper then v1 == Or(w1, z) && i == n + j else v0 == Or(w0, z) && i == j)
    ensures Bit(v, i) == OrBit(Bit(w, i), Bit(z, j))
  {
    BitOfJoined(v, n, v0, v1, i);
    BitOfJoined(w, n, w0, w1, i);
    BitOfOr(if upper then w1 else w0, z, j);
  }

  lemma SpillIs(y: Quad, far: double -> double, i: nat, low: double, high: double)
    requires i < 128 && low == Double(y, 0) && high == Double(y, 1)
    ensures Spill(y, far, i) == if i < 64 then Bit(far(high), i) else Bit(far(low), i - 64)
  {
    assert i / 64 == if i < 64 then 0 else 1;
  }

  lemma JoinedHalves(r: Quad, y: Quad, far: double -> double)
    returns (n: nat, v: nat, v0: nat, v1: nat, w: nat, w0: double, w1: double)
    requires Joined(r, y, far)
    ensures n == 64 && v == Value(r) && w == Value(y) && w0 == Double(y, 0) && w1 == Double(y, 1)
    ensures v0 < Pow2(n) && v == v0 + Pow2(n) * v1 && w0 < Pow2(n) && w == w0 + Pow2(n) * w1
    ensures v0 == Or(w0, far(w1)) && v1 == Or(w1, far(w0))
  {
    DoublesOfQuad(r);
    DoublesOfQuad(y);
    IsDouble(y);
    n, v, v0, v1, w, w0, w1 := 64, Value(r), Double(r, 0), Double(r, 1), Value(y), Double(y, 0), Double(y, 1);
  }

  lemma BitAtZero(r: Quad, y: Quad, far: double -> double, i: nat)
    requires BitsRotated(r, y, 0, far) && i < 128
    ensures Bit(Value(r), i) == OrBit(Bit(Value(y), i), Spill(y, far, i))
  {
    var n, v, v0, v1, w, w0, w1 := JoinedHalves(r, y, far);
    SpillIs(y, far, i, w0, w1);
    if i < n {
      BitOfEither(n, v, v0, v1, w, w0, w1, far(w1), false, i, i);
    } else {
      BitOfEither(n, v, v0, v1, w, w0, w1, far(w0), true, i - n, i);
    }
  }

  /** When the count found is 0, the result is a given rotation exactly if the joined bits complete it. */
  lemma CompletedIff(r: Quad, y: Quad, far: double -> double, v: nat, t: nat)
    requires BitsRotated(r, y, 0, far) && v < Pow2(128) && t <= 128
    ensures Value(r) == Rotl(v, t) <==> Completes(y, far, v, t)
  {
    ValueBound(r);
    RotlBound(v, t);
    LowBitsDetermine(Value(r), Rotl(v, t), 128);
    forall i: nat | i < 128
      ensures Bit(Value(r), i) == OrBit(Bit(Value(y), i), Spill(y, far, i))
      ensures Bit(Rotl(v, t), i) == Bit(v, (i - t) % 128)
    {
      BitAtZero(r, y, far, i);
      RotlBit(v, t, i);
    }
  }

  /** Through the source register itself: where nothing harmful is left over, exactly if the bytes came out
      right, as RotBytesOntoSelfIff says; at count 0, exactly if the joined bits complete them. */
  lemma RotatedThroughSourceIff(r: Quad, q: Quad, n: nat, far: double -> double)
    requires BitsRotated(r, RotBytesOntoSelf(q, n / 8 % 16), n % 8, far)
    ensures n % 8 != 0 || Harmless(RotBytesOntoSelf(q, n / 8 % 16), far) ==>
              (Value(r) == Rotl(Value(q), n % 128) <==> RotBytesOntoSelf(q, n / 8 % 16) == RotBytes(q, n / 8 % 16))
    ensures n % 8 == 0 ==>
              (Value(r) == Rotl(Value(q), n % 128)
               <==> Completes(RotBytesOntoSelf(q, n / 8 % 16), far, Value(q), n % 128))
  {
    var halfway := RotBytesOntoSelf(q, n / 8 % 16);
    if n % 8 != 0 || Harmless(halfway, far) {
      CleanThroughSource(r, q, n, halfway, far);
    }
    if n % 8 == 0 {
      ValueBound(q);
      CompletedIff(r, halfway, far, Value(q), n % 128);
    }
  }

  lemma CleanThroughSource(r: Quad, q: Quad, n: nat, halfway: Quad, far: double -> double)
    requires BitsRotated(r, halfway, n % 8, far) && (n % 8 != 0 || Harmless(halfway, far))
    ensures Value(r) == Rotl(Value(q), n % 128) <==> halfway == RotBytes(q, n / 8 % 16)
  {
    var right := RotBytes(q, n / 8 % 16);
    SecondRotates(r, halfway, n % 8, far);
    RotationsCompose(q, n);
    ValueBound(halfway);
    ValueBound(right);
    RotlInjective(Value(halfway), Value(right), n % 8);
    ValueDetermines(halfway, right);
  }

  lemma {:induction false} ValueDetermines(a: seq<byte>, b: seq<byte>)
    requires |a| == |b|
    ensures Value(a) == Value(b) <==> a == b
  {
    if a != [] {
      ValueDetermines(a[1..], b[1..]);
      assert a == [a[0]] + a[1..] && b == [b[0]] + b[1..];
    }
  }

  /** Rotations by two counts agree exactly if the difference of the counts rotates the number onto itself. */
  lemma RotlAgree(x: nat, m: nat, n: nat)
    requires x < Pow2(128) && m <= n <= 128
    ensures Rotl(x, m) == Rotl(x, n) <==> Rotl(x, n - m) == x
  {
    RotlTwice(x, n - m, m);
    RotlBound(x, n - m);
    RotlInjective(x, Rotl(x, n - m), m);
  }

  lemma RotlBound(x: nat, n: nat)
    requires x < Pow2(128) && n <= 128
    ensures Rotl(x, n) < Pow2(128)
  {
    Pow2Add(128 - n, n);
    var low, high := DivideInto(x, Pow2(n), Pow2(128 - n), Pow2(128));
    RotlOfParts(x, n, low, high);
    JoinBelow(Pow2(n), Pow2(128 - n), low, high, Pow2(128));
  }

  lemma TwoCounts(v: nat, m: nat, c: nat, a: nat, t: nat)
    requires v < Pow2(128) && t == m + a <= 128 && m + c <= 128
    ensures Rotl(Rotl(v, m), c) == Rotl(v, t) <==> Rotl(v, if c <= a then a - c else c - a) == v
  {
    RotlTwice(v, m, c);
    if c <= a {
      RotlAgree(v, m + c, t);
    } else {
      RotlAgree(v, t, m + c);
    }
  }

  lemma ThroughCount(r: Quad, q: Quad, s: nat, a: nat, t: nat, c: nat, far: double -> double)
    requires s < 16 && a < 8 && t == 8 * s + a && c < 8 && (c != 0 || Harmless(RotBytes(q, s), far))
    requires BitsRotated(r, RotBytes(q, s), c, far)
    ensures Value(r) == Rotl(Value(q), t) <==> Rotl(Value(q), if c <= a then a - c else c - a) == Value(q)
  {
    SecondRotates(r, RotBytes(q, s), c, far);
    RotBytesValue(q, s);
    ValueBound(q);
    TwoCounts(Value(q), 8 * s, c, a, t);
  }

  /** Through the count register: where nothing harmful is left over, exactly if the count found there makes
      no difference; if it is 0, exactly if the joined bits complete the rotation. */
  lemma RotatedThroughCountIff(r: Quad, q: Quad, n: nat, c: nat, far: double -> double)
    requires c < 8 && BitsRotated(r, RotBytes(q, n / 8 % 16), c, far)
    ensures c != 0 || Harmless(RotBytes(q, n / 8 % 16), far) ==>
              (Value(r) == Rotl(Value(q), n % 128)
               <==> Rotl(Value(q), if c <= n % 8 then n % 8 - c else c - n % 8) == Value(q))
    ensures c == 0 ==>
              (Value(r) == Rotl(Value(q), n % 128) <==> Completes(RotBytes(q, n / 8 % 16), far, Value(q), n % 128))
  {
    var s, a, t := CountParts(n);
    if c != 0 || Harmless(RotBytes(q, s), far) {
      ThroughCount(r, q, s, a, t, c, far);
    }
    if c == 0 {
      ValueBound(q);
      CompletedIff(r, RotBytes(q, s), far, Value(q), t);
    }
  }

  lemma BehindCount(y: nat, v: nat, t: nat, c: nat)
    requires y < Pow2(128) && v < Pow2(128) && c <= t <= 128
    ensures Rotl(y, c) == Rotl(v, t) <==> y == Rotl(v, t - c)
  {
    RotlBound(v, t - c);
    RotlTwice(v, t - c, c);
    RotlInjective(y, Rotl(v, t - c), c);
  }

  /** The count that stands in a register rotated onto itself. */
  function FoundCount(q: Quad, s: nat): (c: nat)
    requires s < 16
    ensures c < 8
  {
    q[if s == 0 then 12 else 16 - s + 12 % s] % 8
  }

  lemma LowBitsOfPref(q: Quad)
    ensures Word(q, GPR_PREF_SLOT) % 8 == q[12] % 8
  {
    var w, b := Word(q, GPR_PREF_SLOT), q[12];
    QuotientUnique(w, 8, (w - b) / 8 + b / 8, b % 8);
  }

  lemma CountFound(q: Quad, n: nat, s: nat, c: nat)
    requires n == Word(q, GPR_PREF_SLOT) && s == n / 8 % 16 && c == FoundCount(q, s)
    ensures CountLeft(RotBytesOntoSelf(q, s), n, true) == c && c <= n % 128
    ensures s == 0 ==> c == n % 128
  {
    LowBitsOfPref(q);
    LowBitsOfPref(RotBytesOntoSelf(q, s));
    CountInBytesAndBits(n);
  }

  lemma ThroughBoth(r: Quad, q: Quad, t: nat, halfway: Quad, c: nat, far: double -> double)
    requires c <= t <= 128 && c < 8 && BitsRotated(r, halfway, c, far) && (c != 0 || Harmless(halfway, far))
    ensures Value(r) == Rotl(Value(q), t) <==> Value(halfway) == Rotl(Value(q), t - c)
  {
    SecondRotates(r, halfway, c, far);
    ValueBound(q);
    ValueBound(halfway);
    BehindCount(Value(halfway), Value(q), t, c);
  }

  /** Where bit `i` of a register rotated onto itself comes from. */
  function OntoBit(s: nat, i: nat): nat
    requires 0 < s < 16
  {
    8 * (16 - s + i / 8 % s) + i % 8
  }

  lemma BitOfOnto(q: Quad, s: nat, i: nat)
    requires 0 < s < 16 && i < 128
    ensures Bit(Value(RotBytesOntoSelf(q, s)), i) == Bit(Value(q), OntoBit(s, i))
  {
    var j := 16 - s + i / 8 % s;
    BitOfBytes(RotBytesOntoSelf(q, s), i);
    QuotientUnique(8 * j + i % 8, 8, j, i % 8);
    BitOfBytes(q, 8 * j + i % 8);
  }

  /** The bits of `v` that a register of value `v`, rotated onto itself by `s` bytes, has at every place are
      those that a rotation of `v` by `u` has there. */
  ghost predicate OntoIsRotation(v: nat, s: nat, u: nat)
    requires 0 < s < 16
  {
    forall i: nat :: i < 128 ==> Bit(v, OntoBit(s, i)) == Bit(v, (i - u) % 128)
  }

  lemma OntoIsRotationIff(q: Quad, s: nat, u: nat)
    requires 0 < s < 16 && u <= 128
    ensures Value(RotBytesOntoSelf(q, s)) == Rotl(Value(q), u) <==> OntoIsRotation(Value(q), s, u)
  {
    var onto := RotBytesOntoSelf(q, s);
    ValueBound(q);
    ValueBound(onto);
    RotlBound(Value(q), u);
    LowBitsDetermine(Value(onto), Rotl(Value(q), u), 128);
    forall i: nat | i < 128
      ensures Bit(Value(onto), i) == Bit(Value(q), OntoBit(s, i))
      ensures Bit(Rotl(Value(q), u), i) == Bit(Value(q), (i - u) % 128)
    {
      BitOfOnto(q, s, i);
      RotlBit(Value(q), u, i);
    }
  }

  /** With one register as source, count and intermediate: where nothing harmful is left over, exactly if no
      byte moves or the bits of the register repeat so that its rotation onto itself is one by the count less
      what is found of it; if that is 0, exactly if the joined bits complete the rotation. */
  lemma RotatedThroughBothIff(r: Quad, q: Quad, n: nat, s: nat, c: nat, far: double -> double)
    requires n == Word(q, GPR_PREF_SLOT) && s == n / 8 % 16 && c == FoundCount(q, s)
    requires BitsRotated(r, RotBytesOntoSelf(q, s), c, far)
    ensures CountLeft(RotBytesOntoSelf(q, s), n, true) == c && c <= n % 128
    ensures c != 0 || Harmless(RotBytesOntoSelf(q, s), far) ==>
              (Value(r) == Rotl(Value(q), n % 128) <==> s == 0 || OntoIsRotation(Value(q), s, n % 128 - c))
    ensures c == 0 ==>
              (Value(r) == Rotl(Value(q), n % 128) <==> Completes(RotBytesOntoSelf(q, s), far, Value(q), n % 128))
  {
    CountFound(q, n, s, c);
    var t := n % 128;
    if c != 0 || Harmless(RotBytesOntoSelf(q, s), far) {
      CleanThroughBoth(r, q, t, s, c, far);
    }
    if c == 0 {
      ValueBound(q);
      CompletedIff(r, RotBytesOntoSelf(q, s), far, Value(q), t);
    }
  }

  lemma CleanThroughBoth(r: Quad, q: Quad, t: nat, s: nat, c: nat, far: double -> double)
    requires s < 16 && c < 8 && c <= t < 128 && (s == 0 ==> c == t)
    requires BitsRotated(r, RotBytesOntoSelf(q, s), c, far) && (c != 0 || Harmless(RotBytesOntoSelf(q, s), far))
    ensures Value(r) == Rotl(Value(q), t) <==> s == 0 || OntoIsRotation(Value(q), s, t - c)
  {
    ThroughBoth(r, q, t, RotBytesOntoSelf(q, s), c, far);
    if s == 0 {
      assert RotBytesOntoSelf(q, s) == q;
      ValueBound(q);
      RotlByNone(Value(q));
    } else {
      OntoIsRotationIff(q, s, t - c);
    }
  }
}
