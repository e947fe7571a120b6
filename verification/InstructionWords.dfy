/** Instruction words in numbers: where each field and each operand stands, for the decoder (`src/spu_idb.cpp`) and
    for the assembler (`src/spu_assembler.cpp`). */
module InstructionWords {
  import opened Bits
  import opened InstructionTable
  import opened OperandReading
  import opened Wrappers
  import opened WordFields
  import opened Decoder
  import opened Assembler
  import SpuState
  import Vectors

  // ----- taking a word apart -----

  lemma UnpackStep(widths: seq<nat>, w: nat, p: nat)
    requires widths != [] && p == Pow2(widths[0])
    ensures Unpack(widths, w) == [w % p] + Unpack(widths[1..], Rest(w, p))
  {
  }

  lemma ThreeFields(a: nat, b: nat, c: nat, p: nat, q: nat, r: nat, w: nat, w1: nat, w2: nat)
    requires p == Pow2(a) && q == Pow2(b) && r == Pow2(c) && w1 == Rest(w, p) && w2 == Rest(w1, q)
    ensures Unpack([a, b, c], w) == [w % p, w1 % q, w2 % r]
  {
    UnpackStep([a, b, c], w, p);
    assert [a, b, c][1..] == [b, c];
    UnpackStep([b, c], w1, q);
    assert [b, c][1..] == [c];
    UnpackStep([c], w2, r);
    assert [c][1..] == [];
  }

  lemma FourFields(a: nat, b: nat, c: nat, d: nat, p: nat, q: nat, r: nat, s: nat, w: nat, w1: nat, w2: nat, w3: nat)
    requires p == Pow2(a) && q == Pow2(b) && r == Pow2(c) && s == Pow2(d)
    requires w1 == Rest(w, p) && w2 == Rest(w1, q) && w3 == Rest(w2, r)
    ensures Unpack([a, b, c, d], w) == [w % p, w1 % q, w2 % r, w3 % s]
  {
    UnpackStep([a, b, c, d], w, p);
    assert [a, b, c, d][1..] == [b, c, d];
    ThreeFields(b, c, d, q, r, s, w1, w2, w3);
  }

  lemma FiveFields(a: nat, b: nat, c: nat, d: nat, e: nat, p: nat, q: nat, r: nat, s: nat, t: nat,
                   w: nat, w1: nat, w2: nat, w3: nat, w4: nat)
    requires p == Pow2(a) && q == Pow2(b) && r == Pow2(c) && s == Pow2(d) && t == Pow2(e)
    requires w1 == Rest(w, p) && w2 == Rest(w1, q) && w3 == Rest(w2, r) && w4 == Rest(w3, s)
    ensures Unpack([a, b, c, d, e], w) == [w % p, w1 % q, w2 % r, w3 % s, w4 % t]
  {
    UnpackStep([a, b, c, d, e], w, p);
    assert [a, b, c, d, e][1..] == [b, c, d, e];
    FourFields(b, c, d, e, q, r, s, t, w1, w2, w3, w4);
  }

  lemma Halves(w: nat)
    ensures w / 0x80 / 0x80 == w / 0x4000 && w / 0x80 / 0x1_0000 == w / 0x80_0000
    ensures w / 0x80 / 0x4_0000 == w / 0x200_0000
    ensures w / 0x4000 / 4 == w / 0x1_0000 && w / 0x4000 / 0x80 == w / 0x20_0000
    ensures w / 0x4000 / 0x100 == w / 0x40_0000 && w / 0x4000 / 0x400 == w / 0x100_0000
    ensures w / 0x20_0000 / 0x80 == w / 0x1000_0000 && w / 0x80_0000 / 4 == w / 0x200_0000
    ensures w / 0x1_0000 / 0x20 == w / 0x20_0000
  {
  }

  lemma FieldsOfRRR(w: nat)
    ensures Unpack(Widths(RRR), w)
         == [w % 0x80, w / 0x80 % 0x80, w / 0x4000 % 0x80, w / 0x20_0000 % 0x80, w / 0x1000_0000 % 0x10]
  {
    Halves(w);
    Widest();
    FiveFields(7, 7, 7, 7, 4, 0x80, 0x80, 0x80, 0x80, 0x10,
               w, Rest(w, 0x80), Rest(w, 0x4000), Rest(w, 0x20_0000), Rest(w, 0x1000_0000));
  }

  lemma FieldsOfRR(w: nat)
    ensures Unpack(Widths(RR), w) == [w % 0x80, w / 0x80 % 0x80, w / 0x4000 % 0x80, w / 0x20_0000 % 0x800]
  {
    Halves(w);
    Widest();
    FourFields(7, 7, 7, 11, 0x80, 0x80, 0x80, 0x800, w, Rest(w, 0x80), Rest(w, 0x4000), Rest(w, 0x20_0000));
  }

  lemma FieldsOfRI8(w: nat)
    ensures Unpack(Widths(RI8), w) == [w % 0x80, w / 0x80 % 0x80, w / 0x4000 % 0x100, w / 0x40_0000 % 0x400]
  {
    Halves(w);
    Widest();
    FourFields(7, 7, 8, 10, 0x80, 0x80, 0x100, 0x400, w, Rest(w, 0x80), Rest(w, 0x4000), Rest(w, 0x40_0000));
  }

  lemma FieldsOfRI10(w: nat)
    ensures Unpack(Widths(RI10), w) == [w % 0x80, w / 0x80 % 0x80, w / 0x4000 % 0x400, w / 0x100_0000 % 0x100]
  {
    Halves(w);
    Widest();
    FourFields(7, 7, 10, 8, 0x80, 0x80, 0x400, 0x100, w, Rest(w, 0x80), Rest(w, 0x4000), Rest(w, 0x100_0000));
  }

  lemma FieldsOfRI16(w: nat)
    ensures Unpack(Widths(RI16), w) == [w % 0x80, w / 0x80 % 0x1_0000, w / 0x80_0000 % 0x200]
  {
    Halves(w);
    Widest();
    ThreeFields(7, 16, 9, 0x80, 0x1_0000, 0x200, w, Rest(w, 0x80), Rest(w, 0x80_0000));
  }

  lemma FieldsOfRI18(w: nat)
    ensures Unpack(Widths(RI18), w) == [w % 0x80, w / 0x80 % 0x4_0000, w / 0x200_0000 % 0x80]
  {
    Halves(w);
    Widest();
    ThreeFields(7, 18, 7, 0x80, 0x4_0000, 0x80, w, Rest(w, 0x80), Rest(w, 0x200_0000));
  }

  lemma FieldsOfLBT(w: nat)
    ensures Unpack(Widths(LBT), w) == [w % 0x80, w / 0x80 % 0x1_0000, w / 0x80_0000 % 4, w / 0x200_0000 % 0x80]
  {
    Halves(w);
    Widest();
    FourFields(7, 16, 2, 7, 0x80, 0x1_0000, 4, 0x80, w, Rest(w, 0x80), Rest(w, 0x80_0000), Rest(w, 0x200_0000));
  }

  lemma FieldsOfLBTI(w: nat)
    ensures Unpack(Widths(LBTI), w)
         == [w % 0x80, w / 0x80 % 0x80, w / 0x4000 % 4, w / 0x1_0000 % 0x20, w / 0x20_0000 % 0x800]
  {
    Halves(w);
    Widest();
    FiveFields(7, 7, 2, 5, 11, 0x80, 0x80, 4, 0x20, 0x800,
               w, Rest(w, 0x80), Rest(w, 0x4000), Rest(w, 0x1_0000), Rest(w, 0x20_0000));
  }

  lemma SignedField(x: nat)
    ensures SpuState.SignExtend(x % 0x80, 7) == SpuState.FieldValue(x, 0x80)
    ensures SpuState.SignExtend(x % 0x100, 8) == SpuState.FieldValue(x, 0x100)
    ensures SpuState.SignExtend(x % 0x400, 10) == SpuState.FieldValue(x, 0x400)
    ensures SpuState.SignExtend(x % 0x1_0000, 16) == SpuState.FieldValue(x, 0x1_0000)
    ensures SpuState.SignExtend(x % 0x4_0000, 18) == SpuState.FieldValue(x, 0x4_0000)
  {
    Widest();
    Immediate(x, 7, 0x80, x % 0x80);
    Immediate(x, 8, 0x100, x % 0x100);
    Immediate(x, 10, 0x400, x % 0x400);
    Immediate(x, 16, 0x1_0000, x % 0x1_0000);
    Immediate(x, 18, 0x4_0000, x % 0x4_0000);
  }

  /** The bits of a word that each component of an instruction is read from, format by format. */
  lemma DecodedRegisters(types: seq<Option<Format>>, w: Vectors.word)
    requires |types| == SPU_MAX_INSTRUCTION_COUNT
    ensures types[DecodeOpcode(types, w / 0x20_0000)] == Some(RRR) ==>
              DecodeComponents(types, w)
              == Components(w / 0x20_0000 % 0x80, w / 0x80 % 0x80, w / 0x4000 % 0x80, w % 0x80, 0)
    ensures types[DecodeOpcode(types, w / 0x20_0000)] == Some(RR) ==>
              DecodeComponents(types, w) == Components(w % 0x80, w / 0x80 % 0x80, w / 0x4000 % 0x80, 0, 0)
    ensures types[DecodeOpcode(types, w / 0x20_0000)] == None ==>
              DecodeComponents(types, w) == Components(0, 0, 0, 0, 0)
  {
    FieldsOfRRR(w);
    FieldsOfRR(w);
  }

  lemma DecodedImmediates(types: seq<Option<Format>>, w: Vectors.word)
    requires |types| == SPU_MAX_INSTRUCTION_COUNT
    ensures types[DecodeOpcode(types, w / 0x20_0000)] == Some(RI7) ==>
              DecodeComponents(types, w)
              == Components(w % 0x80, w / 0x80 % 0x80, 0, 0, SpuState.FieldValue(w / 0x4000, 0x80))
    ensures types[DecodeOpcode(types, w / 0x20_0000)] == Some(RI8) ==>
              DecodeComponents(types, w)
              == Components(w % 0x80, w / 0x80 % 0x80, 0, 0, SpuState.FieldValue(w / 0x4000, 0x100))
    ensures types[DecodeOpcode(types, w / 0x20_0000)] == Some(RI10) ==>
              DecodeComponents(types, w)
              == Components(w % 0x80, w / 0x80 % 0x80, 0, 0, SpuState.FieldValue(w / 0x4000, 0x400))
    ensures types[DecodeOpcode(types, w / 0x20_0000)] == Some(RI16) ==>
              DecodeComponents(types, w) == Components(w % 0x80, 0, 0, 0, SpuState.FieldValue(w / 0x80, 0x1_0000))
    ensures types[DecodeOpcode(types, w / 0x20_0000)] == Some(RI18) ==>
              DecodeComponents(types, w) == Components(w % 0x80, 0, 0, 0, SpuState.FieldValue(w / 0x80, 0x4_0000))
  {
    FieldsOfRR(w);
    FieldsOfRI8(w);
    FieldsOfRI10(w);
    FieldsOfRI16(w);
    FieldsOfRI18(w);
    SignedField(w / 0x80);
    SignedField(w / 0x4000);
  }

  /** The nine bits of a branch position that stand apart in the word of a hint. */
  lemma HintPosition(rol: nat, roh: nat, joined: nat)
    requires rol < 0x80 && roh < 4 && joined == Or(roh * 0x80, rol)
    ensures joined == roh * 0x80 + rol && joined < 0x200 && SpuState.SignExtend(joined, 11) == joined
  {
    JoinNineBits(rol, roh);
    ExtendNineBits(joined);
  }

  lemma HintTarget(v: seq<nat>, i16: nat, target: int, position: nat)
    requires |v| == |Widths(LBT)| && v[0] < 0x80 && v[2] < 4 && position == v[2] * 0x80 + v[0]
    requires v[1] == i16 % 0x1_0000 && target == SpuState.FieldValue(i16, 0x1_0000)
    ensures ComponentsOf(LBT, v) == Components(0, 0, 0, 0, Pair(target % Vectors.TWO_32, position))
  {
    var joined := Or(v[2] * 0x80, v[0]);
    HintPosition(v[0], v[2], joined);
    HalfWord(i16, v[1]);
    PairOfTarget(target, joined);
    LBTOfParts(v, joined, target, Pair(target % Vectors.TWO_32, joined));
  }

  lemma HintRegister(v: seq<nat>, position: nat)
    requires |v| == |Widths(LBTI)| && v[0] < 0x80 && v[2] < 4 && position == v[2] * 0x80 + v[0]
    ensures ComponentsOf(LBTI, v) == Components(0, v[1], 0, 0, Pair(position, 0))
  {
    var joined := Or(v[2] * 0x80, v[0]);
    HintPosition(v[0], v[2], joined);
    PairOfPosition(joined);
    LBTIOfParts(v, joined, Pair(joined, 0));
  }

  lemma TargetOfWord(w: Vectors.word, target: nat, position: nat, imm: int)
    requires target == SpuState.FieldValue(w / 0x80, 0x1_0000) % Vectors.TWO_32
    requires position == w / 0x80_0000 % 4 * 0x80 + w % 0x80
    requires imm == SpuState.Int64(target * 0x1_0000_0000 + position)
    ensures ComponentsOf(LBT, Unpack(Widths(LBT), w)) == Components(0, 0, 0, 0, imm)
  {
    FieldsOfLBT(w);
    assert imm == Pair(target, position);
    HintTarget(Unpack(Widths(LBT), w), w / 0x80, SpuState.FieldValue(w / 0x80, 0x1_0000), position);
  }

  lemma DecodedFields(types: seq<Option<Format>>, w: Vectors.word, f: Format)
    requires |types| == SPU_MAX_INSTRUCTION_COUNT && types[DecodeOpcode(types, w / 0x20_0000)] == Some(f)
    ensures DecodeComponents(types, w) == ComponentsOf(f, Unpack(Widths(f), w))
  {
  }

  lemma RegisterOfWord(w: Vectors.word)
    ensures ComponentsOf(LBTI, Unpack(Widths(LBTI), w))
         == Components(0, w / 0x80 % 0x80, 0, 0, Pair(w / 0x4000 % 4 * 0x80 + w % 0x80, 0))
  {
    FieldsOfLBTI(w);
    HintRegister(Unpack(Widths(LBTI), w), w / 0x4000 % 4 * 0x80 + w % 0x80);
  }

  /** The target and the branch position of a hint stand side by side, the position being split in the word. */
  lemma DecodedHint(types: seq<Option<Format>>, w: Vectors.word, target: nat, position: nat, imm: int)
    requires |types| == SPU_MAX_INSTRUCTION_COUNT && types[DecodeOpcode(types, w / 0x20_0000)] == Some(LBT)
    requires target == SpuState.FieldValue(w / 0x80, 0x1_0000) % Vectors.TWO_32
    requires position == w / 0x80_0000 % 4 * 0x80 + w % 0x80
    requires imm == SpuState.Int64(target * 0x1_0000_0000 + position)
    ensures DecodeComponents(types, w) == Components(0, 0, 0, 0, imm)
  {
    DecodedFields(types, w, LBT);
    TargetOfWord(w, target, position, imm);
  }

  lemma DecodedRegisterHint(types: seq<Option<Format>>, w: Vectors.word, position: nat)
    requires |types| == SPU_MAX_INSTRUCTION_COUNT && types[DecodeOpcode(types, w / 0x20_0000)] == Some(LBTI)
    requires position == w / 0x4000 % 4 * 0x80 + w % 0x80
    ensures DecodeComponents(types, w) == Components(0, w / 0x80 % 0x80, 0, 0, SpuState.Int64(position * 0x1_0000_0000))
  {
    RegisterOfWord(w);
  }

  // ----- from a text to its word -----

  /** The word of a format, an opcode and what is read for one list. */
  function WordOf(f: Format, opcode: nat, list: ArgList, values: seq<int>): nat {
    WordFor(f, opcode, ArgsRead([list], values))
  }

  lemma WordOfRead(f: Format, opcode: nat, list: ArgList, values: seq<int>, args: seq<int>)
    requires args == ArgsRead([list], values)
    ensures WordOf(f, opcode, list, values) == WordFor(f, opcode, args)
  {
  }

  // The words from the numbers in the order of the text, for every format and list that occur together.

  lemma RRROfCABT(opcode: nat, x: int, y: int, z: int, u: int)
    ensures WordOf(RRR, opcode, CABT, [x, y, z, u])
         == x % 0x80 + 0x80 * (y % 0x80) + 0x4000 * (z % 0x80) + 0x20_0000 * (u % 0x80) + 0x1000_0000 * (opcode / 0x80)
  {
    ReadsFour(x, y, z, u);
    WordOfRead(RRR, opcode, CABT, [x, y, z, u], Zeros()[A_C := x][A_A := y][A_B := z][A_T := u]);
    EncodedRegisters(opcode, Zeros()[A_C := x][A_A := y][A_B := z][A_T := u]);
  }

  lemma RROfTAB(opcode: nat, x: int, y: int, z: int)
    ensures WordOf(RR, opcode, TAB, [x, y, z])
         == x % 0x80 + 0x80 * (y % 0x80) + 0x4000 * (z % 0x80) + 0x20_0000 * opcode
  {
    ReadsThree(TAB, A_T, A_A, A_B, x, y, z);
    WordOfRead(RR, opcode, TAB, [x, y, z], Zeros()[A_T := x][A_A := y][A_B := z]);
    EncodedRegisters(opcode, Zeros()[A_T := x][A_A := y][A_B := z]);
  }

  lemma RROfTA(opcode: nat, x: int, y: int)
    ensures WordOf(RR, opcode, TA, [x, y]) == x % 0x80 + 0x80 * (y % 0x80) + 0x20_0000 * opcode
  {
    ReadsTwo(TA, A_T, A_A, x, y);
    WordOfRead(RR, opcode, TA, [x, y], Zeros()[A_T := x][A_A := y]);
    EncodedRegisters(opcode, Zeros()[A_T := x][A_A := y]);
  }

  lemma RROfAT(opcode: nat, x: int, y: int)
    ensures WordOf(RR, opcode, AT, [x, y]) == y % 0x80 + 0x80 * (x % 0x80) + 0x20_0000 * opcode
  {
    ReadsTwo(AT, A_A, A_T, x, y);
    WordOfRead(RR, opcode, AT, [x, y], Zeros()[A_A := x][A_T := y]);
    EncodedRegisters(opcode, Zeros()[A_A := x][A_T := y]);
  }

  lemma RROfT(opcode: nat, x: int)
    ensures WordOf(RR, opcode, T, [x]) == x % 0x80 + 0x20_0000 * opcode
  {
    ReadsOne(T, A_T, x);
    WordOfRead(RR, opcode, T, [x], Zeros()[A_T := x]);
    EncodedRegisters(opcode, Zeros()[A_T := x]);
  }

  lemma RROfA(opcode: nat, x: int)
    ensures WordOf(RR, opcode, A, [x]) == 0x80 * (x % 0x80) + 0x20_0000 * opcode
  {
    ReadsOne(A, A_A, x);
    WordOfRead(RR, opcode, A, [x], Zeros()[A_A := x]);
    EncodedRegisters(opcode, Zeros()[A_A := x]);
  }

  lemma RROfNoArgs(opcode: nat)
    ensures WordOf(RR, opcode, NoArgs, []) == 0x20_0000 * opcode
  {
    OneList(NoArgs, []);
    WordOfRead(RR, opcode, NoArgs, [], Zeros());
    EncodedRegisters(opcode, Zeros());
  }

  lemma RI7OfTAS7(opcode: nat, x: int, y: int, z: int)
    ensures WordOf(RI7, opcode, TAS7, [x, y, z])
         == x % 0x80 + 0x80 * (y % 0x80) + 0x4000 * (z % 0x80) + 0x20_0000 * opcode
  {
    ReadsThree(TAS7, A_T, A_A, A_S7, x, y, z);
    WordOfRead(RI7, opcode, TAS7, [x, y, z], Zeros()[A_T := x][A_A := y][A_S7 := z]);
    EncodedImmediates(opcode, Zeros()[A_T := x][A_A := y][A_S7 := z]);
  }

  lemma RI7OfTS7PA(opcode: nat, x: int, y: int, z: int)
    ensures WordOf(RI7, opcode, TS7PA, [x, y, z])
         == x % 0x80 + 0x80 * (z % 0x80) + 0x4000 * (y % 0x80) + 0x20_0000 * opcode
  {
    ReadsPast(TS7PA, A_S7, x, y, z);
    WordOfRead(RI7, opcode, TS7PA, [x, y, z], Zeros()[A_T := x][A_S7 := y][A_A := z]);
    EncodedImmediates(opcode, Zeros()[A_T := x][A_S7 := y][A_A := z]);
  }

  lemma RI8OfTAS7(opcode: nat, x: int, y: int, z: int)
    ensures WordOf(RI8, opcode, TAS7, [x, y, z])
         == x % 0x80 + 0x80 * (y % 0x80) + 0x4000 * (z % 0x100) + 0x40_0000 * (opcode / 2)
  {
    ReadsThree(TAS7, A_T, A_A, A_S7, x, y, z);
    WordOfRead(RI8, opcode, TAS7, [x, y, z], Zeros()[A_T := x][A_A := y][A_S7 := z]);
    EncodedImmediates(opcode, Zeros()[A_T := x][A_A := y][A_S7 := z]);
  }

  lemma RI10OfTAS10(opcode: nat, x: int, y: int, z: int)
    ensures WordOf(RI10, opcode, TAS10, [x, y, z])
         == x % 0x80 + 0x80 * (y % 0x80) + 0x4000 * (z % 0x400) + 0x100_0000 * (opcode / 8)
  {
    ReadsThree(TAS10, A_T, A_A, A_S10, x, y, z);
    WordOfRead(RI10, opcode, TAS10, [x, y, z], Zeros()[A_T := x][A_A := y][A_S10 := z]);
    EncodedImmediates(opcode, Zeros()[A_T := x][A_A := y][A_S10 := z]);
  }

  lemma RI10OfTS14PA(opcode: nat, x: int, y: int, z: int)
    ensures WordOf(RI10, opcode, TS14PA, [x, y, z])
         == x % 0x80 + 0x80 * (z % 0x80) + 0x4000 * (y / 16 % 0x400) + 0x100_0000 * (opcode / 8)
  {
    ReadsPast(TS14PA, A_S14, x, y, z);
    WordOfRead(RI10, opcode, TS14PA, [x, y, z], Zeros()[A_T := x][A_S14 := y][A_S10 := y / 16][A_A := z]);
    EncodedImmediates(opcode, Zeros()[A_T := x][A_S14 := y][A_S10 := y / 16][A_A := z]);
  }

  lemma RI16OfTS16(opcode: nat, x: int, y: int)
    ensures WordOf(RI16, opcode, TS16, [x, y]) == x % 0x80 + 0x80 * (y % 0x1_0000) + 0x80_0000 * (opcode / 4)
  {
    ReadsTwo(TS16, A_T, A_S16, x, y);
    WordOfRead(RI16, opcode, TS16, [x, y], Zeros()[A_T := x][A_S16 := y]);
    EncodedImmediates(opcode, Zeros()[A_T := x][A_S16 := y]);
  }

  lemma RI16OfTS18(opcode: nat, x: int, y: int)
    ensures WordOf(RI16, opcode, TS18, [x, y])
         == x % 0x80 + 0x80 * (y / 4 % 0x1_0000) + 0x80_0000 * (opcode / 4)
  {
    ReadsTwo(TS18, A_T, A_S18, x, y);
    WordOfRead(RI16, opcode, TS18, [x, y], Zeros()[A_T := x][A_S18 := y][A_S16 := y / 4]);
    EncodedImmediates(opcode, Zeros()[A_T := x][A_S18 := y][A_S16 := y / 4]);
  }

  lemma RI16OfS18(opcode: nat, x: int)
    ensures WordOf(RI16, opcode, S18, [x]) == 0x80 * (x / 4 % 0x1_0000) + 0x80_0000 * (opcode / 4)
  {
    var args := Zeros()[A_S18 := x][A_S16 := x / 4];
    ReadsOne(S18, A_S18, x);
    WordOfRead(RI16, opcode, S18, [x], args);
    assert args[A_T] == 0 && args[A_S16] == x / 4;
    EncodedImmediates(opcode, args);
  }

  lemma RI18OfTU18(opcode: nat, x: int, y: int)
    ensures WordOf(RI18, opcode, TU18, [x, y])
         == x % 0x80 + 0x80 * (y % 0x4_0000) + 0x200_0000 * (opcode / 0x10)
  {
    ReadsTwo(TU18, A_T, A_U18, x, y);
    WordOfRead(RI18, opcode, TU18, [x, y], Zeros()[A_T := x][A_U18 := y]);
    EncodedImmediates(opcode, Zeros()[A_T := x][A_U18 := y]);
  }

  lemma LBTOfS11S18(opcode: nat, x: int, y: int)
    ensures WordOf(LBT, opcode, S11S18, [x, y])
         == x % 0x80 + 0x80 * (y / 4 % 0x1_0000) + 0x80_0000 * (x / 0x80 % 4) + 0x200_0000 * (opcode / 0x10)
  {
    ReadsTwo(S11S18, A_S11, A_S18, x, y);
    WordOfRead(LBT, opcode, S11S18, [x, y], Zeros()[A_S11 := x][A_S18 := y][A_S16 := y / 4]);
    EncodedHints(opcode, Zeros()[A_S11 := x][A_S18 := y][A_S16 := y / 4]);
  }

  lemma LBTIOfS11A(opcode: nat, x: int, y: int)
    ensures WordOf(LBTI, opcode, S11A, [x, y]) == x % 0x80 + 0x4000 * (x / 0x80 % 4) + 0x20_0000 * opcode
  {
    ReadsTwo(S11A, A_S11I, A_A, x, y);
    WordOfRead(LBTI, opcode, S11A, [x, y], Zeros()[A_S11I := x][A_A := y]);
    EncodedHints(opcode, Zeros()[A_S11I := x][A_A := y]);
  }

  /** The word assembled from the mnemonic of row `m` and the numbers behind it: that of its opcode and list, if
      this is its only one. */
  lemma TextWord(m: nat, f: Format, list: ArgList, opcode: nat, values: seq<int>)
    requires Owner(m) && !HasTwoForms(m) && RowAt(m) == Row(f, opcode, m, list)
    ensures WordFor(RowAt(m).format, RowAt(m).opcode, ArgsFor(m, values)) == WordOf(f, opcode, list, values)
  {
    FormsOfMnemonic(m, list);
  }

  /** The rows of "il", "sf" and "lqd". */
  lemma ThreeRows()
    ensures RowAt(72) == Row(RI16, 0x204, 72, TS16) && Owner(72) && !HasTwoForms(72)
    ensures RowAt(134) == Row(RR, 0x040, 134, TAB) && Owner(134) && !HasTwoForms(134)
    ensures RowAt(26) == Row(RI10, 0x1A0, 26, TS14PA) && Owner(26) && !HasTwoForms(26)
  {
  }

  /** "il 3, 100" as the instruction set encodes it. */
  lemma IlByHand(opcode: nat, x: int, y: int)
    requires opcode == 0x204 && x == 3 && y == 100
    ensures WordOf(RI16, opcode, TS16, [x, y]) == 0x4080_3203
  {
    RI16OfTS16(opcode, x, y);
  }

  /** "sf 3, 4, 5". */
  lemma SfByHand(opcode: nat, x: int, y: int, z: int)
    requires opcode == 0x040 && x == 3 && y == 4 && z == 5
    ensures WordOf(RR, opcode, TAB, [x, y, z]) == 0x0801_4203
  {
    RROfTAB(opcode, x, y, z);
  }

  /** "lqd 3, 32(1)". */
  lemma LqdByHand(opcode: nat, x: int, y: int, z: int)
    requires opcode == 0x1A0 && x == 3 && y == 32 && z == 1
    ensures WordOf(RI10, opcode, TS14PA, [x, y, z]) == 0x3400_8083
  {
    RI10OfTS14PA(opcode, x, y, z);
  }
}
