/** `src/spu_emu_int_misc.cpp`: the form-select-mask instructions, which spread bits into lanes, and
    the gather-bits instructions, which collect them again. */
module FormSelect {
  import opened Bits
  import opened Vectors
  import opened SseExtensions
  import opened SpuState

  // ----- what the instructions are for -----

  /** Lane `i` has all bits set when bit `i` of `w` is set, and none otherwise. */
  function SelectBytes(w: word): Quad {
    seq(16, i requires 0 <= i < 16 => MaskByte(Bit(w, i) == 1))
  }

  function SelectHalves(w: word): Quad { FromHalves(i requires i < 8 => MaskHalf(Bit(w, i) == 1)) }

  function SelectWords(w: word): Quad { FromWordLanes(i requires i < 4 => MaskWord(Bit(w, i) == 1)) }

  /** The lowest bits of the lanes. */
  function LowBitsOfBytes(q: Quad): (bits: seq<nat>)
    ensures AreBits(bits) && |bits| == 16
  {
    seq(16, i requires 0 <= i < 16 => q[i] % 2)
  }

  function LowBitsOfHalves(q: Quad): (bits: seq<nat>)
    ensures AreBits(bits) && |bits| == 8
  {
    seq(8, i requires 0 <= i < 8 => Half(q, i) % 2)
  }

  function LowBitsOfWords(q: Quad): (bits: seq<nat>)
    ensures AreBits(bits) && |bits| == 4
  {
    seq(4, i requires 0 <= i < 4 => Word(q, i) % 2)
  }

  /** A scalar in the preferred slot, zero elsewhere. */
  function Scalar(x: word): Quad { FromWords(0, 0, 0, x) }

  lemma GatheredBound(bits: seq<nat>)
    requires AreBits(bits) && |bits| <= 16
    ensures FromBits(bits) < 0x1_0000
  {
    FromBitsBound(bits);
    Pow2Mono(|bits|, 16);
    Powers();
  }

  function Gathered(bits: seq<nat>): word
    requires AreBits(bits) && |bits| <= 16
  {
    GatheredBound(bits);
    FromBits(bits)
  }

  // ----- form select -----

  /** `mask_all_set8`, `mask_all_set16` and `mask_all_set32`: lane `i` holds one bit. */
  function MaskAllSet8(): Quad { [1, 2, 4, 8, 0x10, 0x20, 0x40, 0x80, 1, 2, 4, 8, 0x10, 0x20, 0x40, 0x80] }
  function MaskAllSet16(): Quad { [1, 0, 2, 0, 4, 0, 8, 0, 0x10, 0, 0x20, 0, 0x40, 0, 0x80, 0] }
  function MaskAllSet32(): Quad { [1, 0, 0, 0, 2, 0, 0, 0, 4, 0, 0, 0, 8, 0, 0, 0] }

  lemma MaskAllSet8At(i: nat)
    requires i < 8
    ensures MaskAllSet8()[i] == Pow2(i) && MaskAllSet8()[i + 8] == Pow2(i)
  {
    if i == 0 {} else if i == 1 {} else if i == 2 {} else if i == 3 {} else if i == 4 {} else if i == 5 {}
    else if i == 6 {} else {}
  }

  /** Testing bit `i` of `x` by masking and comparing with the mask. */
  lemma TestBit(x: nat, i: nat)
    ensures And(x, Pow2(i)) == Pow2(i) <==> Bit(x, i) == 1
  {
    AndOneBit(x, i);
  }

  /** The bits of the low byte of a number, and of the rest. */
  lemma BitOfLowByte(x: nat, lo: nat, hi: nat, k: nat)
    requires x == lo + 0x100 * hi && lo < 0x100
    ensures k < 8 ==> Bit(x, k) == Bit(lo, k)
    ensures Bit(x, k + 8) == Bit(hi, k)
  {
    assert Pow2(8) == 0x100;
    ShlIsProduct(hi, 8);
    BitConcat(8, lo, hi, k);
    BitConcat(8, lo, hi, k + 8);
  }

  function FsmbMask(w: word): Quad {
    var m := w % 0x1_0000;
    var lo := AndSi128(SrliSi128(SplatByte(m % 0x100), 8), MaskAllSet8());
    var hi := AndSi128(SlliSi128(SplatByte(m / 0x100 % 0x100), 8), MaskAllSet8());
    CmpEqEpi8(MaskAllSet8(), OrSi128(lo, hi))
  }

  /** A byte of the mask: the low byte of the scalar is tested in bytes 0 to 7, the high one above. */
  lemma FsmbByte(lo: byte, hi: byte, q: Quad, i: nat)
    requires i < 8
    requires q == CmpEqEpi8(MaskAllSet8(),
                            OrSi128(AndSi128(SrliSi128(SplatByte(lo), 8), MaskAllSet8()),
                                    AndSi128(SlliSi128(SplatByte(hi), 8), MaskAllSet8())))
    ensures q[i] == MaskByte(Bit(lo, i) == 1) && q[i + 8] == MaskByte(Bit(hi, i) == 1)
  {
    MaskAllSet8At(i);
    var m := MaskAllSet8()[i];
    TestBit(lo, i);
    TestBit(hi, i);
    OrZero(And(lo, m));
    assert And(0, m) == 0;
    assert q[i] == EqByte(m, OrByte(AndByte(lo, m), AndByte(0, m)));
    assert q[i + 8] == EqByte(m, OrByte(AndByte(0, m), AndByte(hi, m)));
  }

  lemma FsmbAt(w: word, lo: byte, h: nat, hi: byte, q: Quad, i: nat)
    requires i < 16 && w == lo + 0x100 * h && h == hi + 0x100 * (h / 0x100)
    requires q == CmpEqEpi8(MaskAllSet8(),
                            OrSi128(AndSi128(SrliSi128(SplatByte(lo), 8), MaskAllSet8()),
                                    AndSi128(SlliSi128(SplatByte(hi), 8), MaskAllSet8())))
    ensures q[i] == SelectBytes(w)[i]
  {
    var j := if i < 8 then i else i - 8;
    FsmbByte(lo, hi, q, j);
    BitOfLowByte(w, lo, h, j);
    BitOfLowByte(h, hi, h / 0x100, j);
  }

  lemma BytesOfLowHalf(w: word)
    ensures w % 0x1_0000 % 0x100 == w % 0x100 && w % 0x1_0000 / 0x100 % 0x100 == w / 0x100 % 0x100
  {
    var lo, h := w % 0x100, w / 0x100;
    QuotientUnique(w, 0x1_0000, h / 0x100, lo + 0x100 * (h % 0x100));
    QuotientUnique(w % 0x1_0000, 0x100, h % 0x100, lo);
  }

  lemma FsmbMaskIsSelect(w: word)
    ensures FsmbMask(w) == SelectBytes(w)
  {
    var q := FsmbMask(w);
    var lo, h := w % 0x100, w / 0x100;
    var hi := h % 0x100;
    BytesOfLowHalf(w);
    forall i | 0 <= i < 16
      ensures q[i] == SelectBytes(w)[i]
    {
      FsmbAt(w, lo, h, hi, q, i);
    }
  }

  method Fsmb(spu: Spu, op: RR)
    requires spu.Valid()
    modifies spu.GPR
    ensures spu.Row(op.RT) == SelectBytes(old(spu.PrefSlot(op.RA))) && spu.OthersKept(op.RT)
  {
    FsmbMaskIsSelect(spu.PrefSlot(op.RA));
    spu.SetRow(op.RT, FsmbMask(spu.PrefSlot(op.RA)));
  }

  function SplatHalf(h: half): Quad { FromHalves(i requires i < 8 => h) }

  function FsmhMask(w: word): Quad {
    CmpEqEpi16(MaskAllSet16(), AndSi128(SplatHalf(w % 0x100), MaskAllSet16()))
  }

  function FsmMask(w: word): Quad {
    CmpEqEpi32(MaskAllSet32(), AndSi128(SplatWord(w % 0x10), MaskAllSet32()))
  }

  lemma MaskAllSet16At(i: nat)
    requires i < 8
    ensures MaskAllSet16()[2 * i] == Pow2(i) && MaskAllSet16()[2 * i + 1] == 0
  {
    if i == 0 {} else if i == 1 {} else if i == 2 {} else if i == 3 {} else if i == 4 {} else if i == 5 {}
    else if i == 6 {} else {}
  }

  lemma MaskAllSet32At(i: nat)
    requires i < 4
    ensures MaskAllSet32()[4 * i] == Pow2(i)
    ensures MaskAllSet32()[4 * i + 1] == 0 && MaskAllSet32()[4 * i + 2] == 0 && MaskAllSet32()[4 * i + 3] == 0
  {
    if i == 0 {} else if i == 1 {} else if i == 2 {} else {}
  }

  lemma AndHalfLane(a: Quad, b: Quad, i: nat)
    requires i < 8 && Half(a, i) < 0x100 && b[2 * i + 1] == 0
    ensures Half(AndSi128(a, b), i) == And(Half(a, i), b[2 * i])
  {
    AndZero(a[2 * i + 1]);
  }

  lemma FsmhLane(w: word, q: Quad, i: nat)
    requires i < 8 && q == FsmhMask(w)
    ensures Half(q, i) == MaskHalf(Bit(w, i) == 1)
  {
    MaskAllSet16At(i);
    var m := MaskAllSet16()[2 * i];
    assert Half(MaskAllSet16(), i) == m;
    AndHalfLane(SplatHalf(w % 0x100), MaskAllSet16(), i);
    TestBit(w % 0x100, i);
    BitOfLowByte(w, w % 0x100, w / 0x100, i);
  }

  lemma FsmhMaskIsSelect(w: word)
    ensures FsmhMask(w) == SelectHalves(w)
  {
    var q := FsmhMask(w);
    forall i: nat | i < 8
      ensures Half(q, i) == Half(SelectHalves(w), i)
    {
      FsmhLane(w, q, i);
    }
    HalvesDetermine(q, SelectHalves(w));
  }

  lemma AndWordLane(a: Quad, b: Quad, i: nat, x: byte)
    requires i < 4 && a[4 * i] == x && a[4 * i + 1] == 0 && a[4 * i + 2] == 0 && a[4 * i + 3] == 0
    ensures Word(AndSi128(a, b), i) == And(x, b[4 * i])
  {
  }

  lemma SmallSplat(x: byte, i: nat)
    requires i < 4
    ensures SplatWord(x)[4 * i] == x && SplatWord(x)[4 * i + 1] == 0 && SplatWord(x)[4 * i + 2] == 0
            && SplatWord(x)[4 * i + 3] == 0
  {
    BytesOfLane(SplatWord(x), i);
    BytesOfSmall(x);
  }

  lemma BytesOfSmall(x: byte)
    ensures ByteOf(x, 0) == x && ByteOf(x, 1) == 0 && ByteOf(x, 2) == 0 && ByteOf(x, 3) == 0
  {
  }

  lemma BitOfLowNibble(x: nat, lo: nat, hi: nat, k: nat)
    requires x == lo + 0x10 * hi && lo < 0x10 && k < 4
    ensures Bit(x, k) == Bit(lo, k)
  {
    assert Pow2(4) == 0x10;
    ShlIsProduct(hi, 4);
    BitConcat(4, lo, hi, k);
  }

  lemma FsmLane(w: word, q: Quad, i: nat)
    requires i < 4 && q == FsmMask(w)
    ensures Word(q, i) == MaskWord(Bit(w, i) == 1)
  {
    MaskAllSet32At(i);
    var m := MaskAllSet32()[4 * i];
    assert Word(MaskAllSet32(), i) == m;
    var x: byte := w % 0x10;
    SmallSplat(x, i);
    AndWordLane(SplatWord(x), MaskAllSet32(), i, x);
    TestBit(x, i);
    BitOfLowNibble(w, x, w / 0x10, i);
  }

  lemma FsmMaskIsSelect(w: word)
    ensures FsmMask(w) == SelectWords(w)
  {
    var q := FsmMask(w);
    FsmLane(w, q, 0);
    FsmLane(w, q, 1);
    FsmLane(w, q, 2);
    FsmLane(w, q, 3);
    WordsDetermine(q, SelectWords(w));
  }

  method Fsmh(spu: Spu, op: RR)
    requires spu.Valid()
    modifies spu.GPR
    ensures spu.Row(op.RT) == SelectHalves(old(spu.PrefSlot(op.RA))) && spu.OthersKept(op.RT)
  {
    FsmhMaskIsSelect(spu.PrefSlot(op.RA));
    spu.SetRow(op.RT, FsmhMask(spu.PrefSlot(op.RA)));
  }

  method Fsm(spu: Spu, op: RR)
    requires spu.Valid()
    modifies spu.GPR
    ensures spu.Row(op.RT) == SelectWords(old(spu.PrefSlot(op.RA))) && spu.OthersKept(op.RT)
  {
    FsmMaskIsSelect(spu.PrefSlot(op.RA));
    spu.SetRow(op.RT, FsmMask(spu.PrefSlot(op.RA)));
  }

  /** Bit `i` decides lane `i`. */
  lemma SelectedByte(w: word, i: nat)
    requires i < 16
    ensures SelectBytes(w)[i] == if Bit(w, i) == 1 then 0xFF else 0
  {
  }

  lemma MaskBits(p: bool)
    ensures MaskHalf(p) == (if p then 0xFFFF else 0) && MaskWord(p) == if p then 0xFFFF_FFFF else 0
  {
    Powers();
  }

  lemma SelectedHalf(w: word, q: Quad, i: nat)
    requires i < 8 && q == SelectHalves(w)
    ensures Half(q, i) == if Bit(w, i) == 1 then 0xFFFF else 0
  {
    var p := Bit(w, i) == 1;
    assert Half(q, i) == MaskHalf(p);
    MaskBits(p);
  }

  lemma SelectedWord(w: word, q: Quad, i: nat)
    requires i < 4 && q == SelectWords(w)
    ensures Word(q, i) == if Bit(w, i) == 1 then 0xFFFF_FFFF else 0
  {
    var p := Bit(w, i) == 1;
    assert Word(q, i) == MaskWord(p);
    MaskBits(p);
  }

  // ----- gather bits -----

  /** Lane `i` gives bit `i`, and there are no others. */
  lemma GatheredBytes(q: Quad, i: nat)
    ensures Bit(Gathered(LowBitsOfBytes(q)), i) == if i < 16 then q[i] % 2 else 0
  {
    BitOfGathered(LowBitsOfBytes(q), i);
  }

  lemma GatheredHalves(q: Quad, i: nat)
    ensures Bit(Gathered(LowBitsOfHalves(q)), i) == if i < 8 then Half(q, i) % 2 else 0
  {
    BitOfGathered(LowBitsOfHalves(q), i);
  }

  lemma GatheredWords(q: Quad, i: nat)
    ensures Bit(Gathered(LowBitsOfWords(q)), i) == if i < 4 then Word(q, i) % 2 else 0
  {
    BitOfGathered(LowBitsOfWords(q), i);
  }

  lemma BitOfGathered(bits: seq<nat>, i: nat)
    requires AreBits(bits) && |bits| <= 16
    ensures Bit(Gathered(bits), i) == if i < |bits| then bits[i] else 0
  {
    if i < |bits| {
      BitOfFromBits(bits, i);
    } else {
      FromBitsBound(bits);
      BitBeyond(FromBits(bits), |bits|, i);
    }
  }

  /** `bits |= (lane & 1) << i` adds one bit at the top. */
  lemma GatherStep(bits: seq<nat>, x: nat, i: nat)
    requires i <= |bits| && AreBits(bits) && i < |bits| && bits[i] == x % 2
    ensures Or(FromBits(bits[..i]), Shl(And(x, 1), i)) == FromBits(bits[..i + 1])
  {
    AndOneBit(x, 0);
    assert bits[..i + 1] == bits[..i] + [bits[i]];
    FromBitsAppend(bits[..i], bits[i]);
  }

  /** Assignment to the preferred slot of a register. */
  method SetPrefSlot(spu: Spu, rt: reg, x: word)
    requires spu.Valid()
    modifies spu.GPR
    ensures spu.Row(rt) == old(spu.Row(rt))[..12] + [ByteOf(x, 0), ByteOf(x, 1), ByteOf(x, 2), ByteOf(x, 3)]
    ensures spu.OthersKept(rt)
  {
    var bytes := [ByteOf(x, 0), ByteOf(x, 1), ByteOf(x, 2), ByteOf(x, 3)];
    forall j | 0 <= j < 4 {
      spu.GPR[rt, j + 12] := bytes[j];
    }
    assert spu.Row(rt) == old(spu.Row(rt))[..12] + bytes;
  }

  /** `GPR[RT] = 0` and then an assignment to its preferred slot. */
  method SetScalar(spu: Spu, rt: reg, x: word)
    requires spu.Valid()
    modifies spu.GPR
    ensures spu.Row(rt) == Scalar(x) && spu.OthersKept(rt)
  {
    spu.SetRow(rt, SplatByte(0));
    SetPrefSlot(spu, rt, x);
    ScalarBytes(x, SplatByte(0), spu.Row(rt));
  }

  lemma ScalarBytes(x: word, zero: Quad, q: Quad)
    requires zero == SplatByte(0) && q == zero[..12] + [ByteOf(x, 0), ByteOf(x, 1), ByteOf(x, 2), ByteOf(x, 3)]
    ensures q == Scalar(x)
  {
    BytesOfWord(x);
    WordsDetermine(q, Scalar(x));
  }

  method GatherBit(bits: nat, x: nat, i: nat, ghost lanes: seq<nat>) returns (r: nat)
    requires AreBits(lanes) && i < |lanes| && lanes[i] == x % 2 && bits == FromBits(lanes[..i])
    ensures r == FromBits(lanes[..i + 1])
  {
    GatherStep(lanes, x, i);
    r := Or(bits, Shl(And(x, 1), i));
  }

  /** The loops of the three gather instructions. */
  method GatherBytes(spu: Spu, ra: reg) returns (bits: word)
    requires spu.Valid()
    ensures bits == Gathered(LowBitsOfBytes(spu.Row(ra)))
  {
    ghost var lanes := LowBitsOfBytes(spu.Row(ra));
    var acc := 0;
    for i := 0 to 16
      invariant acc == FromBits(lanes[..i])
    {
      acc := GatherBit(acc, spu.GPR[ra, i], i, lanes);
    }
    assert lanes[..16] == lanes;
    GatheredBound(lanes);
    bits := acc;
  }

  method GatherHalves(spu: Spu, ra: reg) returns (bits: word)
    requires spu.Valid()
    ensures bits == Gathered(LowBitsOfHalves(spu.Row(ra)))
  {
    ghost var lanes := LowBitsOfHalves(spu.Row(ra));
    var acc := 0;
    for i := 0 to 8
      invariant acc == FromBits(lanes[..i])
    {
      acc := GatherBit(acc, Half(spu.Row(ra), i), i, lanes);
    }
    assert lanes[..8] == lanes;
    GatheredBound(lanes);
    bits := acc;
  }

  method GatherWords(spu: Spu, ra: reg) returns (bits: word)
    requires spu.Valid()
    ensures bits == Gathered(LowBitsOfWords(spu.Row(ra)))
  {
    ghost var lanes := LowBitsOfWords(spu.Row(ra));
    var acc := 0;
    for i := 0 to 4
      invariant acc == FromBits(lanes[..i])
    {
      acc := GatherBit(acc, Word(spu.Row(ra), i), i, lanes);
    }
    assert lanes[..4] == lanes;
    GatheredBound(lanes);
    bits := acc;
  }

  method Gbb(spu: Spu, op: RR)
    requires spu.Valid()
    modifies spu.GPR
    ensures spu.Row(op.RT) == Scalar(Gathered(LowBitsOfBytes(old(spu.Row(op.RA))))) && spu.OthersKept(op.RT)
  {
    var bits := GatherBytes(spu, op.RA);
    SetScalar(spu, op.RT, bits);
  }

  method Gbh(spu: Spu, op: RR)
    requires spu.Valid()
    modifies spu.GPR
    ensures spu.Row(op.RT) == Scalar(Gathered(LowBitsOfHalves(old(spu.Row(op.RA))))) && spu.OthersKept(op.RT)
  {
    var bits := GatherHalves(spu, op.RA);
    SetScalar(spu, op.RT, bits);
  }

  method Gb(spu: Spu, op: RR)
    requires spu.Valid()
    modifies spu.GPR
    ensures spu.Row(op.RT) == Scalar(Gathered(LowBitsOfWords(old(spu.Row(op.RA))))) && spu.OthersKept(op.RT)
  {
    var bits := GatherWords(spu, op.RA);
    SetScalar(spu, op.RT, bits);
  }

  // ----- each undoes the other -----

  /** The low bits of the selected lanes are the bits of the scalar. */
  lemma GatherSelectedBytes(w: word)
    ensures Gathered(LowBitsOfBytes(SelectBytes(w))) == w % 0x1_0000
  {
    Powers();
    var bits := seq(16, k requires k >= 0 => Bit(w, k));
    assert LowBitsOfBytes(SelectBytes(w)) == bits;
    FromBitsOf(w, 16);
  }

  lemma LowBitOfMask(p: bool)
    ensures MaskHalf(p) % 2 == (if p then 1 else 0) && MaskWord(p) % 2 == if p then 1 else 0
  {
    Powers();
  }

  lemma GatherSelectedHalves(w: word)
    ensures Gathered(LowBitsOfHalves(SelectHalves(w))) == w % 0x100
  {
    var bits, lanes := seq(8, k requires k >= 0 => Bit(w, k)), LowBitsOfHalves(SelectHalves(w));
    forall i: nat | i < 8
      ensures lanes[i] == bits[i]
    {
      LowBitOfMask(Bit(w, i) == 1);
    }
    assert lanes == bits;
    FromBitsOf(w, 8);
    assert Pow2(8) == 0x100;
  }

  lemma LowBitOfSelectedWord(w: word, q: Quad, i: nat)
    requires i < 4 && q == SelectWords(w)
    ensures Word(q, i) % 2 == Bit(w, i)
  {
    LowBitOfMask(Bit(w, i) == 1);
  }

  lemma LanesAre(q: Quad, bits: seq<nat>)
    requires |bits| == 4 && forall i: nat :: i < 4 ==> Word(q, i) % 2 == bits[i]
    ensures LowBitsOfWords(q) == bits
  {
  }

  lemma SelectedLanes(w: word, bits: seq<nat>)
    requires bits == seq(4, k requires k >= 0 => Bit(w, k))
    ensures LowBitsOfWords(SelectWords(w)) == bits
  {
    var q := SelectWords(w);
    forall i: nat | i < 4
      ensures Word(q, i) % 2 == bits[i]
    {
      LowBitOfSelectedWord(w, q, i);
    }
    LanesAre(q, bits);
  }

  lemma GatherSelectedWords(w: word)
    ensures Gathered(LowBitsOfWords(SelectWords(w))) == w % 0x10
  {
    var bits := seq(4, k requires k >= 0 => Bit(w, k));
    SelectedLanes(w, bits);
    FromBitsOf(w, 4);
    assert Pow2(4) == 0x10;
  }

  /** Selecting by the gathered bits gives a register back exactly when each byte has all bits equal. */
  lemma SelectGatheredBytesIff(q: Quad)
    ensures SelectBytes(Gathered(LowBitsOfBytes(q))) == q <==> forall i :: 0 <= i < 16 ==> q[i] == 0 || q[i] == 0xFF
  {
    Powers();
    var bits := LowBitsOfBytes(q);
    var back := SelectBytes(Gathered(bits));
    forall i | 0 <= i < 16
      ensures back[i] == MaskByte(q[i] % 2 == 1)
    {
      BitOfFromBits(bits, i);
    }
    if back == q {
      forall i | 0 <= i < 16
        ensures q[i] == 0 || q[i] == 0xFF
      {
        assert back[i] == q[i];
      }
    }
  }

  lemma BackHalf(q: Quad, i: nat)
    requires i < 8
    ensures Half(SelectHalves(Gathered(LowBitsOfHalves(q))), i) == MaskHalf(Half(q, i) % 2 == 1)
  {
    BitOfFromBits(LowBitsOfHalves(q), i);
  }

  lemma UniformHalf(h: half)
    ensures MaskHalf(h % 2 == 1) == h <==> h == 0 || h == 0xFFFF
  {
    Powers();
  }

  /** The same for halfwords. */
  lemma SelectGatheredHalvesIff(q: Quad)
    ensures SelectHalves(Gathered(LowBitsOfHalves(q))) == q
       <==> forall i: nat :: i < 8 ==> Half(q, i) == 0 || Half(q, i) == 0xFFFF
  {
    var back := SelectHalves(Gathered(LowBitsOfHalves(q)));
    forall i: nat | i < 8
      ensures Half(back, i) == Half(q, i) <==> Half(q, i) == 0 || Half(q, i) == 0xFFFF
    {
      BackHalf(q, i);
      UniformHalf(Half(q, i));
    }
    if forall i: nat :: i < 8 ==> Half(back, i) == Half(q, i) {
      HalvesDetermine(back, q);
    }
  }

  lemma BackWord(q: Quad, i: nat)
    requires i < 4
    ensures Word(SelectWords(Gathered(LowBitsOfWords(q))), i) == MaskWord(Word(q, i) % 2 == 1)
  {
    BitOfFromBits(LowBitsOfWords(q), i);
  }

  lemma UniformWord(w: word)
    ensures MaskWord(w % 2 == 1) == w <==> w == 0 || w == 0xFFFF_FFFF
  {
    Powers();
  }

  /** The same for words. */
  lemma SelectGatheredWordsIff(q: Quad)
    ensures SelectWords(Gathered(LowBitsOfWords(q))) == q
       <==> forall i: nat :: i < 4 ==> Word(q, i) == 0 || Word(q, i) == 0xFFFF_FFFF
  {
    var back := SelectWords(Gathered(LowBitsOfWords(q)));
    forall i: nat | i < 4
      ensures Word(back, i) == Word(q, i) <==> Word(q, i) == 0 || Word(q, i) == 0xFFFF_FFFF
    {
      BackWord(q, i);
      UniformWord(Word(q, i));
    }
    if forall i: nat :: i < 4 ==> Word(back, i) == Word(q, i) {
      WordsDetermine(back, q);
    }
  }

  // ----- the handlers one after the other, whichever registers they are given -----

  method SelectThenGatherBytes(spu: Spu, target: reg, middle: reg, source: reg)
    requires spu.Valid()
    modifies spu.GPR
    ensures spu.Row(target) == Scalar(old(spu.PrefSlot(source)) % 0x1_0000)
    ensures forall r: reg :: r != target && r != middle ==> spu.Row(r) == old(spu.Row(r))
  {
    GatherSelectedBytes(spu.PrefSlot(source));
    Fsmb(spu, RR(middle, source, 0, 0));
    Gbb(spu, RR(target, middle, 0, 0));
  }

  method GatherThenSelectBytes(spu: Spu, target: reg, middle: reg, source: reg)
    requires spu.Valid()
    modifies spu.GPR
    ensures spu.Row(target) == old(spu.Row(source))
       <==> forall i :: 0 <= i < 16 ==> old(spu.Row(source))[i] == 0 || old(spu.Row(source))[i] == 0xFF
    ensures forall r: reg :: r != target && r != middle ==> spu.Row(r) == old(spu.Row(r))
  {
    SelectGatheredBytesIff(spu.Row(source));
    Gbb(spu, RR(middle, source, 0, 0));
    Fsmb(spu, RR(target, middle, 0, 0));
  }

  method SelectThenGatherHalves(spu: Spu, target: reg, middle: reg, source: reg)
    requires spu.Valid()
    modifies spu.GPR
    ensures spu.Row(target) == Scalar(old(spu.PrefSlot(source)) % 0x100)
    ensures forall r: reg :: r != target && r != middle ==> spu.Row(r) == old(spu.Row(r))
  {
    GatherSelectedHalves(spu.PrefSlot(source));
    Fsmh(spu, RR(middle, source, 0, 0));
    Gbh(spu, RR(target, middle, 0, 0));
  }

  method GatherThenSelectHalves(spu: Spu, target: reg, middle: reg, source: reg)
    requires spu.Valid()
    modifies spu.GPR
    ensures spu.Row(target) == old(spu.Row(source))
       <==> forall i: nat :: i < 8 ==> Half(old(spu.Row(source)), i) == 0 || Half(old(spu.Row(source)), i) == 0xFFFF
    ensures forall r: reg :: r != target && r != middle ==> spu.Row(r) == old(spu.Row(r))
  {
    SelectGatheredHalvesIff(spu.Row(source));
    Gbh(spu, RR(middle, source, 0, 0));
    Fsmh(spu, RR(target, middle, 0, 0));
  }

  method SelectThenGatherWords(spu: Spu, target: reg, middle: reg, source: reg)
    requires spu.Valid()
    modifies spu.GPR
    ensures spu.Row(target) == Scalar(old(spu.PrefSlot(source)) % 0x10)
    ensures forall r: reg :: r != target && r != middle ==> spu.Row(r) == old(spu.Row(r))
  {
    GatherSelectedWords(spu.PrefSlot(source));
    Fsm(spu, RR(middle, source, 0, 0));
    Gb(spu, RR(target, middle, 0, 0));
  }

  method GatherThenSelectWords(spu: Spu, target: reg, middle: reg, source: reg)
    requires spu.Valid()
    modifies spu.GPR
    ensures spu.Row(target) == old(spu.Row(source))
       <==> forall i: nat :: i < 4
                             ==> Word(old(spu.Row(source)), i) == 0 || Word(old(spu.Row(source)), i) == 0xFFFF_FFFF
    ensures forall r: reg :: r != target && r != middle ==> spu.Row(r) == old(spu.Row(r))
  {
    SelectGatheredWordsIff(spu.Row(source));
    Gb(spu, RR(middle, source, 0, 0));
    Fsm(spu, RR(target, middle, 0, 0));
  }
}
