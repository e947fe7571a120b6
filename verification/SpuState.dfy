/** `src/spu_emu.h` and `src/spu_emu.cpp`: the register file, the local store, and the operand
    fields of an instruction word. */
module SpuState {
  import opened Bits
  import opened Vectors

  /** A register number: a 7-bit field. */
  type reg = r: nat | r < 0x80

  /** The RR view of an instruction. The field RB is also I7 of the RI7 view, and RT stands at the
      same bits in the RI16 view. */
  datatype RR = RR(RT: reg, RA: reg, RB: reg, OP: nat)

  const GPR_PREF_SLOT: nat := 3
  const LOCAL_STORE_SIZE: nat := 0x4_0000

  class Spu {
    const GPR: array2<byte>
    const LocalStorage: array<byte>
    var IP: word

    ghost predicate Valid() {
      GPR.Length0 == 0x80 && GPR.Length1 == 16 && LocalStorage.Length == LOCAL_STORE_SIZE
    }

    constructor ()
      ensures Valid() && fresh(GPR) && fresh(LocalStorage) && IP == 0
      ensures forall r: reg, i :: 0 <= i < 16 ==> GPR[r, i] == 0
      ensures forall a :: 0 <= a < LOCAL_STORE_SIZE ==> LocalStorage[a] == 0
    {
      GPR := new byte[0x80, 16]((r, i) => 0);
      LocalStorage := new byte[LOCAL_STORE_SIZE](a => 0);
      IP := 0;
    }

    /** The sixteen bytes of register `r`. */
    function Row(r: reg): Quad
      requires Valid()
      reads GPR
    {
      seq(16, i requires 0 <= i < 16 && Valid() reads GPR => GPR[r, i])
    }

    /** The word of register `r` from which an instruction takes a scalar. */
    function PrefSlot(r: reg): word
      requires Valid()
      reads GPR
    {
      Word(Row(r), GPR_PREF_SLOT)
    }

    /** Every register but `rt` is as it was. */
    twostate predicate OthersKept(rt: reg)
      requires Valid()
      reads GPR
    {
      forall r: reg :: r != rt ==> Row(r) == old(Row(r))
    }

    /** Assignment of a whole register. */
    method SetRow(rt: reg, q: Quad)
      requires Valid()
      modifies GPR
      ensures Row(rt) == q && OthersKept(rt)
    {
      forall i | 0 <= i < 16 {
        GPR[rt, i] := q[i];
      }
      assert Row(rt) == q;
    }
  }

  /** The preferred slot is the top four bytes, the least significant first. */
  lemma PrefSlotBytes(spu: Spu, r: reg)
    requires spu.Valid()
    ensures spu.PrefSlot(r) == spu.GPR[r, 12] + 0x100 * spu.GPR[r, 13] + 0x1_0000 * spu.GPR[r, 14]
                               + 0x100_0000 * spu.GPR[r, 15]
  {
  }

  // ----- sign extension of immediate fields -----

  const TWO_63: nat := 0x8000_0000_0000_0000
  const TWO_64: nat := 0x1_0000_0000_0000_0000

  /** The 64-bit two's complement number congruent to `x`. */
  function Int64(x: int): int {
    if x % TWO_64 >= TWO_63 then x % TWO_64 - TWO_64 else x % TWO_64
  }

  /** `(t << (64 - bits)) >> (64 - bits)` on a signed 64-bit number. */
  function SignExtend(t: int, bits: nat): int
    requires bits <= 64
  {
    Int64(t * Pow2(64 - bits)) / Pow2(64 - bits)
  }

  /** An `n`-bit field read in two's complement. */
  function FieldValue(t: int, m: nat): int
    requires m >= 1
  {
    if 2 * (t % m) >= m then t % m - m else t % m
  }

  lemma SignExtendIsFieldValue(t: int, bits: nat)
    requires 1 <= bits <= 64
    ensures SignExtend(t, bits) == FieldValue(t, Pow2(bits))
  {
    Pow2Add(64 - bits, bits);
    Pow2Of64();
    SignExtendByProduct(t, Pow2(64 - bits), Pow2(bits));
  }

  lemma Pow2Of64()
    ensures Pow2(64) == TWO_64
  {
    Powers();
    Pow2Add(32, 32);
  }

  lemma SignExtendByProduct(t: int, p: nat, m: nat)
    requires p >= 1 && m >= 1 && p * m == TWO_64
    ensures Int64(t * p) / p == FieldValue(t, m)
  {
    var k, r := t / m, t % m;
    ScaledRemainder(t, p, m, k, r);
    var v := FieldValue(t, m);
    assert 2 * r >= m <==> r * p >= TWO_63 by { HalfScaled(r, p, m); }
    assert Int64(t * p) == v * p by { assert (r - m) * p == r * p - p * m; }
    assert v * p == p * v + 0;
    QuotientUnique(v * p, p, v, 0);
  }

  lemma ScaledRemainder(t: int, p: nat, m: nat, k: int, r: int)
    requires p >= 1 && m >= 1 && p * m == TWO_64 && t == m * k + r && 0 <= r < m
    ensures t * p % TWO_64 == r * p
  {
    assert t * p == (p * m) * k + r * p;
    assert 0 <= r * p < p * m;
    QuotientUnique(t * p, TWO_64, k, r * p);
  }

  lemma HalfScaled(r: int, p: nat, m: nat)
    requires p >= 1 && p * m == TWO_64
    ensures 2 * r >= m <==> r * p >= TWO_63
  {
    assert (2 * r - m) * p == 2 * (r * p) - TWO_64;
    SignOfProduct(2 * r - m, p);
  }

  lemma SignOfProduct(d: int, p: nat)
    requires p >= 1
    ensures d >= 0 <==> d * p >= 0
  {
  }
}
