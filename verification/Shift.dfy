/** `src/spu_emu_shift.cpp`: left shifts of a register by bytes, in place, from the top byte down. */
module Shift {
  import opened Bits
  import opened Vectors
  import opened QuadValue
  import opened SpuState

  /** `0x1f & x`. */
  method MaskFive(x: nat) returns (r: nat)
    ensures r == x % 0x20 && r % 0x20 == r && r < 0x20
  {
    assert Pow2(5) == 0x20;
    AndLow(5, 0x20, x % 0x20, x / 0x20);
    r := And(x, 0x1F);
  }

  method Shlqbyi(spu: Spu, op: RR)
    requires spu.Valid()
    modifies spu.GPR
    ensures spu.Row(op.RT) == ShlBytes(old(spu.Row(op.RA)), op.RB % 0x20) && spu.OthersKept(op.RT)
  {
    var s: int := MaskFive(op.RB);
    ghost var source := spu.Row(op.RA);
    var i := 15;
    while i >= 0
      invariant -1 <= i <= 15
      invariant forall j :: i < j < 16 ==> spu.GPR[op.RT, j] == if j - s < 0 then 0 else source[j - s]
      invariant forall r: reg, j :: 0 <= j < 16 && (r != op.RT || j <= i) ==> spu.GPR[r, j] == old(spu.GPR[r, j])
    {
      spu.GPR[op.RT, i] := if i - s < 0 then 0 else spu.GPR[op.RA, i - s];
      i := i - 1;
    }
    assert spu.Row(op.RT) == ShlBytes(source, s);
  }

  method Shlqby(spu: Spu, op: RR)
    requires spu.Valid()
    modifies spu.GPR
    ensures spu.Row(op.RT) == ShlBytes(old(spu.Row(op.RA)), old(spu.PrefSlot(op.RB)) % 0x20) && spu.OthersKept(op.RT)
  {
    var i7 := MaskFive(spu.PrefSlot(op.RB));
    Shlqbyi(spu, RR(op.RT, op.RA, i7, op.OP));
  }

  method Shlqbybi(spu: Spu, op: RR)
    requires spu.Valid()
    modifies spu.GPR
    ensures spu.Row(op.RT) == ShlBytes(old(spu.Row(op.RA)), old(spu.PrefSlot(op.RB)) / 8 % 0x20)
            && spu.OthersKept(op.RT)
  {
    var i7 := MaskFive(spu.PrefSlot(op.RB) / 8);
    Shlqbyi(spu, RR(op.RT, op.RA, i7, op.OP));
  }
}
