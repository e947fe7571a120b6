/** `src/spu_emu_rotmask.cpp`: right shifts of a register by bytes, in place, from the bottom byte up. */
module RotMask {
  import opened Bits
  import opened Vectors
  import opened QuadValue
  import opened SpuState
  import opened Shift

  /** The number of bytes a count `n` shifts right: the instructions shift left by negative counts. */
  function RightCount(n: int): (s: nat)
    ensures s < 0x20 && (s + n) % 0x20 == 0
  {
    (0 - n) % 0x20
  }

  /** `0x1f & (0 - SignExtend(i7, 7))`, the negation being on 64-bit numbers. */
  method NegatedCount(i7: reg) returns (s: nat)
    ensures s == RightCount(i7)
  {
    var v := Extended(i7);
    s := MaskFive((0 - v) % TWO_64);
    LowBitsOfNegation(v);
    SignedField(i7);
  }

  /** `SignExtend(i7, 7)`. */
  method Extended(i7: reg) returns (v: int)
    ensures v == FieldValue(i7, 0x80)
  {
    assert Pow2(7) == 0x80;
    SignExtendIsFieldValue(i7, 7);
    v := SignExtend(i7, 7);
  }

  lemma SignedField(i7: reg)
    ensures RightCount(FieldValue(i7, 0x80)) == RightCount(i7)
  {
    if FieldValue(i7, 0x80) != i7 {
      RightCountOfTurns(i7, -1, FieldValue(i7, 0x80));
    }
  }

  lemma RightCountOfTurns(n: int, k: int, m: int)
    requires m == n + 0x80 * k
    ensures RightCount(m) == RightCount(n)
  {
    var q := (0 - n) / 0x20;
    QuotientUnique(0 - m, 0x20, q - 4 * k, (0 - n) % 0x20);
  }

  lemma RightCountOfNegative(s: nat)
    requires s <= 16
    ensures RightCount((0 - s) % 0x80) == s
  {
    RightCountOfTurns(0 - s, if s == 0 then 0 else 1, (0 - s) % 0x80);
  }

  lemma LowBitsOfNegation(v: int)
    ensures (0 - v) % TWO_64 % 0x20 == RightCount(v)
  {
    var q := (0 - v) / TWO_64;
    var r := (0 - v) % TWO_64;
    QuotientUnique(0 - v, 0x20, 0x800_0000_0000_0000 * q + r / 0x20, r % 0x20);
  }

  method Rotqmbyi(spu: Spu, op: RR)
    requires spu.Valid()
    modifies spu.GPR
    ensures spu.Row(op.RT) == ShrBytes(old(spu.Row(op.RA)), RightCount(op.RB)) && spu.OthersKept(op.RT)
  {
    var s := NegatedCount(op.RB);
    ghost var source := spu.Row(op.RA);
    var i := 0;
    while i < 16
      invariant 0 <= i <= 16
      invariant forall j :: 0 <= j < i ==> spu.GPR[op.RT, j] == if j + s < 16 then source[j + s] else 0
      invariant forall r: reg, j :: 0 <= j < 16 && (r != op.RT || j >= i) ==> spu.GPR[r, j] == old(spu.GPR[r, j])
    {
      if s == 0 {
        spu.GPR[op.RT, i] := spu.GPR[op.RA, i];
      } else if s > 15 {
        spu.GPR[op.RT, i] := 0;
      } else {
        spu.GPR[op.RT, i] := if i + s < 16 then spu.GPR[op.RA, i + s] else 0;
      }
      i := i + 1;
    }
    assert spu.Row(op.RT) == ShrBytes(source, s);
  }

  /** A word stored into the 7-bit field I7. */
  method Truncate7(w: nat) returns (i7: reg)
    ensures RightCount(i7) == RightCount(w)
  {
    i7 := w % 0x80;
    RightCountOfTurns(i7, w / 0x80, w);
  }

  method Rotqmby(spu: Spu, op: RR)
    requires spu.Valid()
    modifies spu.GPR
    ensures spu.Row(op.RT) == ShrBytes(old(spu.Row(op.RA)), RightCount(old(spu.PrefSlot(op.RB))))
            && spu.OthersKept(op.RT)
  {
    var i7 := Truncate7(spu.PrefSlot(op.RB));
    Rotqmbyi(spu, RR(op.RT, op.RA, i7, op.OP));
  }

  method Rotqmbybi(spu: Spu, op: RR)
    requires spu.Valid()
    modifies spu.GPR
    ensures spu.Row(op.RT) == ShrBytes(old(spu.Row(op.RA)), RightCount(old(spu.PrefSlot(op.RB)) / 8))
            && spu.OthersKept(op.RT)
  {
    var i7 := Truncate7(spu.PrefSlot(op.RB) / 8);
    Rotqmbyi(spu, RR(op.RT, op.RA, i7, op.OP));
  }

  /** A left shift by `s` bytes and a right shift back clear the top `s` bytes of a register, whichever
      registers the source and the two targets are. */
  method ShiftUpAndDown(spu: Spu, source: reg, middle: reg, target: reg, s: nat)
    requires spu.Valid() && s <= 16
    modifies spu.GPR
    ensures Value(spu.Row(target)) == Value(old(spu.Row(source))) % Pow2(8 * (16 - s))
    ensures forall r: reg :: r != middle && r != target ==> spu.Row(r) == old(spu.Row(r))
  {
    var down := NegatedField(s);
    Shlqbyi(spu, RR(middle, source, s, 0));
    Rotqmbyi(spu, RR(target, middle, down, 0));
    ShlThenShr(old(spu.Row(source)), s);
  }

  /** The field I7 with which a right shift is by `s` bytes. */
  method NegatedField(s: nat) returns (i7: reg)
    requires s <= 16
    ensures RightCount(i7) == s && s % 0x20 == s
  {
    i7 := (0 - s) % 0x80;
    RightCountOfNegative(s);
  }
}
