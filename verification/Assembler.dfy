/** `src/spu_assembler.cpp`: the search for an opcode and the assembly of an instruction word from its operands. */
module Assembler {
  import opened Bits
  import opened InstructionTable
  import opened OperandReading
  import opened Wrappers
  import opened WordFields
  import opened Decoder
  import SpuState
  import Vectors

  // ----- the search -----

  /** Tables whose opcodes are prefix-free and whose mnemonics stand at one opcode each. */
  ghost predicate Sound(types: seq<Option<Format>>, mnemonics: seq<Option<nat>>) {
    PrefixFree(types) && |mnemonics| == |types|
    && (forall x :: 0 <= x < |types| ==> (mnemonics[x].Some? <==> types[x].Some?))
    && (forall x, y ::
          0 <= x < |types| && 0 <= y < |types| && mnemonics[x].Some? && mnemonics[x] == mnemonics[y] ==> x == y)
    && types[0x7FF] == None
  }

  /** The `while` loop of spu_assemble: the first index that decodes to an opcode with this mnemonic. */
  method FindOpcode(types: seq<Option<Format>>, mnemonics: seq<Option<nat>>, m: nat) returns (opcode: nat)
    requires Sound(types, mnemonics)
    ensures opcode <= SPU_MAX_INSTRUCTION_COUNT
    ensures opcode < SPU_MAX_INSTRUCTION_COUNT ==> mnemonics[opcode] == Some(m)
    ensures opcode == SPU_MAX_INSTRUCTION_COUNT ==> forall x :: 0 <= x < |mnemonics| ==> mnemonics[x] != Some(m)
  {
    opcode := 0;
    while opcode < SPU_MAX_INSTRUCTION_COUNT && mnemonics[DecodeOpcode(types, opcode)] != Some(m)
      invariant opcode <= SPU_MAX_INSTRUCTION_COUNT
      invariant forall x :: 0 <= x < opcode ==> mnemonics[x] != Some(m)
    {
      if mnemonics[opcode].Some? {
        DecodesToStart(types, opcode, opcode);
      }
      opcode := opcode + 1;
    }
    if opcode < SPU_MAX_INSTRUCTION_COUNT {
      DecodesDownward(types, opcode);
    }
  }

  // ----- the encoding -----

  /** Two 32-bit numbers as one signed 64-bit number. */
  function Pair(high: nat, low: nat): int { SpuState.Int64(high * Vectors.TWO_32 + low) }

  /** The operands an assembled word of format `f` stands for: registers modulo 128, immediates as two's
      complement numbers of the field's width, and the branch position of a hint modulo 512. */
  function Operands(f: Format, args: seq<int>): Components
    requires |args| == ARGS
  {
    var RT, RA, RB, RC := args[A_T] % 0x80, args[A_A] % 0x80, args[A_B] % 0x80, args[A_C] % 0x80;
    match f
    case RRR => Components(RT, RA, RB, RC, 0)
    case RR => Components(RT, RA, RB, 0, 0)
    case RI7 => Components(RT, RA, 0, 0, SpuState.FieldValue(args[A_S7], 0x80))
    case RI8 => Components(RT, RA, 0, 0, SpuState.FieldValue(args[A_U7A], 0x100))
    case RI10 => Components(RT, RA, 0, 0, SpuState.FieldValue(args[A_S10], 0x400))
    case RI16 => Components(RT, 0, 0, 0, SpuState.FieldValue(args[A_S16], 0x1_0000))
    case RI18 => Components(RT, 0, 0, 0, SpuState.FieldValue(args[A_U18], 0x4_0000))
    case LBT => Components(0, 0, 0, 0, Pair(SpuState.FieldValue(args[A_S16], 0x1_0000) % Vectors.TWO_32,
                                            args[A_S11] % 0x200))
    case LBTI => Components(0, args[A_S16] % 0x80, 0, 0, Pair(args[A_S11I] % 0x200, 0))
  }

  /** `v` holds the fields for `opcode` and `args`. */
  ghost predicate Encodes(f: Format, opcode: nat, args: seq<int>, v: seq<nat>)
    requires |args| == ARGS
  {
    Fits(Widths(f), v) && v[|v| - 1] == opcode / f.Span()
    && ComponentsOf(f, v) == Operands(f, args)
    && (f == RI8 ==> v[2] == args[A_U7A] % 0x100)
  }

  /** A truncated immediate, sign-extended, is the immediate as the field represents it. */
  lemma Immediate(x: int, bits: nat, m: nat, t: nat)
    requires 1 <= bits <= 32 && m == Pow2(bits) && t == x % m
    ensures SpuState.SignExtend(t, bits) == SpuState.FieldValue(x, m)
  {
    SpuState.SignExtendIsFieldValue(t, bits);
    RemainderTwice(x, m, t);
  }

  lemma RemainderTwice(x: int, m: nat, t: nat)
    requires m >= 1 && t == x % m
    ensures SpuState.FieldValue(t, m) == SpuState.FieldValue(x, m)
  {
    QuotientUnique(t, m, 0, t);
  }

  lemma MeansRI7(args: seq<int>, v: seq<nat>)
    requires |args| == ARGS && |v| == |Widths(RI7)| && v[0] == args[A_T] % 0x80 && v[1] == args[A_A] % 0x80
             && v[2] == args[A_S7] % 0x80
    ensures ComponentsOf(RI7, v) == Operands(RI7, args)
  {
    assert Pow2(7) == 0x80;
    Immediate(args[A_S7], 7, 0x80, v[2]);
  }

  lemma MeansRI8(args: seq<int>, v: seq<nat>)
    requires |args| == ARGS && |v| == |Widths(RI8)| && v[0] == args[A_T] % 0x80 && v[1] == args[A_A] % 0x80
             && v[2] == args[A_U7A] % 0x100
    ensures ComponentsOf(RI8, v) == Operands(RI8, args)
  {
    assert Pow2(8) == 0x100;
    Immediate(args[A_U7A], 8, 0x100, v[2]);
  }

  lemma MeansRI10(args: seq<int>, v: seq<nat>)
    requires |args| == ARGS && |v| == |Widths(RI10)| && v[0] == args[A_T] % 0x80 && v[1] == args[A_A] % 0x80
             && v[2] == args[A_S10] % 0x400
    ensures ComponentsOf(RI10, v) == Operands(RI10, args)
  {
    assert Pow2(10) == 0x400;
    Immediate(args[A_S10], 10, 0x400, v[2]);
  }

  lemma MeansRI16(args: seq<int>, v: seq<nat>)
    requires |args| == ARGS && |v| == |Widths(RI16)| && v[0] == args[A_T] % 0x80 && v[1] == args[A_S16] % 0x1_0000
    ensures ComponentsOf(RI16, v) == Operands(RI16, args)
  {
    Powers();
    Immediate(args[A_S16], 16, 0x1_0000, v[1]);
  }

  lemma MeansRI18(args: seq<int>, v: seq<nat>)
    requires |args| == ARGS && |v| == |Widths(RI18)| && v[0] == args[A_T] % 0x80 && v[1] == args[A_U18] % 0x4_0000
    ensures ComponentsOf(RI18, v) == Operands(RI18, args)
  {
    Powers();
    assert Pow2(18) == 0x4_0000;
    Immediate(args[A_U18], 18, 0x4_0000, v[1]);
  }

  lemma NineBits(x: int, rol: nat, roh: nat)
    requires rol == x % 0x80 && roh == x / 0x80 % 4
    ensures rol + 0x80 * roh == x % 0x200
  {
    var high := x / 0x80;
    assert x == rol + 0x80 * high && high == roh + 4 * (high / 4);
    QuotientUnique(x, 0x200, high / 4, rol + 0x80 * roh);
  }

  lemma JoinNineBits(rol: nat, roh: nat)
    requires rol < 0x80
    ensures Or(roh * 0x80, rol) == rol + 0x80 * roh
  {
    Powers();
    OrDisjoint(7, 0x80, rol, roh);
    OrComm(0x80 * roh, rol);
  }

  /** Sign extension at eleven bits does not reach a number of nine bits. */
  lemma ExtendNineBits(t: nat)
    requires t < 0x200
    ensures SpuState.SignExtend(t, 11) == t
  {
    assert Pow2(11) == 0x800;
    SpuState.SignExtendIsFieldValue(t, 11);
  }

  /** The two parts of a branch position, joined and sign-extended, are its lowest nine bits. */
  lemma BranchPosition(x: int, rol: nat, roh: nat, joined: nat)
    requires rol == x % 0x80 && roh == x / 0x80 % 4 && joined == Or(roh * 0x80, rol)
    ensures joined == x % 0x200 && SpuState.SignExtend(joined, 11) == joined
  {
    NineBits(x, rol, roh);
    JoinNineBits(rol, roh);
    ExtendNineBits(joined);
  }

  lemma JoinWords(high: nat, low: nat)
    requires low < Vectors.TWO_32
    ensures Or(high * Vectors.TWO_32, low) == high * Vectors.TWO_32 + low
  {
    Powers();
    OrDisjoint(32, Vectors.TWO_32, low, high);
    OrComm(Vectors.TWO_32 * high, low);
  }

  lemma PairIsHintPair(target: int, inst: int, high: nat, low: nat)
    requires high == target % Vectors.TWO_32 && low == inst % Vectors.TWO_32
    ensures HintPair(target, inst) == Pair(high, low)
  {
    HintWordsAre(high, low);
  }

  lemma HintWordsAre(high: nat, low: nat)
    requires low < Vectors.TWO_32
    ensures HintWords(high, low) == Pair(high, low)
  {
    JoinWords(high, low);
  }

  lemma PairOfTarget(target: int, position: nat)
    requires position < 0x200
    ensures HintPair(target, position) == Pair(target % Vectors.TWO_32, position)
  {
    PairIsHintPair(target, position, target % Vectors.TWO_32, position);
  }

  lemma PairOfPosition(position: nat)
    requires position < 0x200
    ensures HintPair(position, 0) == Pair(position, 0)
  {
    PairIsHintPair(position, 0, position, 0);
  }

  /** A hint immediate, from what the sign extensions of its parts give. */
  lemma HintOfParts(i16: nat, joined: nat, target: int, position: nat, imm: int)
    requires SpuState.SignExtend(i16, 16) == target && SpuState.SignExtend(joined, 11) == position
    requires HintPair(target, position) == imm
    ensures HintPair(SpuState.SignExtend(i16, 16), SpuState.SignExtend(joined, 11)) == imm
  {
  }

  lemma HintOfRegister(joined: nat, position: nat, imm: int)
    requires SpuState.SignExtend(joined, 11) == position && HintPair(position, 0) == imm
    ensures HintPair(SpuState.SignExtend(joined, 11), 0) == imm
  {
  }

  lemma ComponentsOfLBT(v: seq<nat>, imm: int)
    requires |v| == |Widths(LBT)|
    requires imm == HintPair(SpuState.SignExtend(v[1], 16), SpuState.SignExtend(Or(v[2] * 0x80, v[0]), 11))
    ensures ComponentsOf(LBT, v) == Components(0, 0, 0, 0, imm)
  {
  }

  lemma ComponentsOfLBTI(v: seq<nat>, imm: int)
    requires |v| == |Widths(LBTI)| && imm == HintPair(SpuState.SignExtend(Or(v[2] * 0x80, v[0]), 11), 0)
    ensures ComponentsOf(LBTI, v) == Components(0, v[1], 0, 0, imm)
  {
  }

  lemma LBTOfParts(v: seq<nat>, joined: nat, target: int, imm: int)
    requires |v| == |Widths(LBT)| && joined == Or(v[2] * 0x80, v[0])
    requires SpuState.SignExtend(v[1], 16) == target && SpuState.SignExtend(joined, 11) == joined
    requires HintPair(target, joined) == imm
    ensures ComponentsOf(LBT, v) == Components(0, 0, 0, 0, imm)
  {
    HintOfParts(v[1], joined, target, joined, imm);
    ComponentsOfLBT(v, imm);
  }

  lemma MeansLBT(args: seq<int>, v: seq<nat>)
    requires |args| == ARGS && |v| == |Widths(LBT)| && v[0] == args[A_S11] % 0x80 && v[1] == args[A_S16] % 0x1_0000
    requires v[2] == args[A_S11] / 0x80 % 4
    ensures ComponentsOf(LBT, v) == Operands(LBT, args)
  {
    var joined, target := Or(v[2] * 0x80, v[0]), SpuState.FieldValue(args[A_S16], 0x1_0000);
    BranchPosition(args[A_S11], v[0], v[2], joined);
    HalfWord(args[A_S16], v[1]);
    PairOfTarget(target, joined);
    LBTOfParts(v, joined, target, Pair(target % Vectors.TWO_32, joined));
  }

  lemma HalfWord(x: int, t: nat)
    requires t == x % 0x1_0000
    ensures SpuState.SignExtend(t, 16) == SpuState.FieldValue(x, 0x1_0000)
  {
    Powers();
    Immediate(x, 16, 0x1_0000, t);
  }

  lemma LBTIOfParts(v: seq<nat>, joined: nat, imm: int)
    requires |v| == |Widths(LBTI)| && joined == Or(v[2] * 0x80, v[0])
    requires SpuState.SignExtend(joined, 11) == joined && HintPair(joined, 0) == imm
    ensures ComponentsOf(LBTI, v) == Components(0, v[1], 0, 0, imm)
  {
    HintOfRegister(joined, joined, imm);
    ComponentsOfLBTI(v, imm);
  }

  lemma MeansLBTI(args: seq<int>, v: seq<nat>)
    requires |args| == ARGS && |v| == |Widths(LBTI)| && v[0] == args[A_S11I] % 0x80 && v[1] == args[A_S16] % 0x80
    requires v[2] == args[A_S11I] / 0x80 % 4
    ensures ComponentsOf(LBTI, v) == Operands(LBTI, args)
  {
    var joined := Or(v[2] * 0x80, v[0]);
    BranchPosition(args[A_S11I], v[0], v[2], joined);
    PairOfPosition(joined);
    LBTIOfParts(v, joined, Pair(joined, 0));
  }

  /** The fields of the assembled word, from bit 0 up. */
  function FieldsFor(f: Format, opcode: nat, args: seq<int>): (v: seq<nat>)
    requires |args| == ARGS
    ensures |v| == |Widths(f)|
  {
    var op := opcode / f.Span();
    var RT, RA, RB, RC := args[A_T] % 0x80, args[A_A] % 0x80, args[A_B] % 0x80, args[A_C] % 0x80;
    match f
    case RRR => [RC, RA, RB, RT, op]
    case RR => [RT, RA, RB, op]
    case RI7 => [RT, RA, args[A_S7] % 0x80, op]
    case RI8 => [RT, RA, args[A_U7A] % 0x100, op]
    case RI10 => [RT, RA, args[A_S10] % 0x400, op]
    case RI16 => [RT, args[A_S16] % 0x1_0000, op]
    case RI18 => [RT, args[A_U18] % 0x4_0000, op]
    case LBT => [args[A_S11] % 0x80, args[A_S16] % 0x1_0000, args[A_S11] / 0x80 % 4, op]
    case LBTI => [args[A_S11I] % 0x80, args[A_S16] % 0x80, args[A_S11I] / 0x80 % 4, 0, op]
  }

  lemma FieldsFit(f: Format, opcode: nat, args: seq<int>)
    requires |args| == ARGS && opcode < SPU_MAX_INSTRUCTION_COUNT
    ensures Fits(Widths(f), FieldsFor(f, opcode, args))
  {
    Powers();
    Pow2Add(2, 16);
    assert Pow2(5) == 0x20 && Pow2(9) == 0x200 && Pow2(10) == 0x400 && Pow2(11) == 0x800;
  }

  lemma FieldsEncode(f: Format, opcode: nat, args: seq<int>)
    requires |args| == ARGS && opcode < SPU_MAX_INSTRUCTION_COUNT
    ensures Encodes(f, opcode, args, FieldsFor(f, opcode, args))
  {
    FieldsFit(f, opcode, args);
    var v := FieldsFor(f, opcode, args);
    match f {
      case RI7 => MeansRI7(args, v);
      case RI8 => MeansRI8(args, v);
      case RI10 => MeansRI10(args, v);
      case RI16 => MeansRI16(args, v);
      case RI18 => MeansRI18(args, v);
      case LBT => MeansLBT(args, v);
      case LBTI => MeansLBTI(args, v);
      case _ =>
    }
  }

  method SetRRR(opcode: nat, args: seq<int>, fields: seq<nat>) returns (v: seq<nat>)
    requires |args| == ARGS && opcode < SPU_MAX_INSTRUCTION_COUNT && |fields| == 5
    ensures v == FieldsFor(RRR, opcode, args)
  {
    v := fields;
    v := v[4 := opcode / 0x80 % 0x10];
    v := v[3 := args[A_T] % 0x80];
    v := v[1 := args[A_A] % 0x80];
    v := v[2 := args[A_B] % 0x80];
    v := v[0 := args[A_C] % 0x80];
  }

  method SetRR(opcode: nat, args: seq<int>, fields: seq<nat>) returns (v: seq<nat>)
    requires |args| == ARGS && opcode < SPU_MAX_INSTRUCTION_COUNT && |fields| == 4
    ensures v == FieldsFor(RR, opcode, args)
  {
    v := fields;
    v := v[3 := opcode];
    v := v[0 := args[A_T] % 0x80];
    v := v[1 := args[A_A] % 0x80];
    v := v[2 := args[A_B] % 0x80];
  }

  method SetRI7(opcode: nat, args: seq<int>, fields: seq<nat>) returns (v: seq<nat>)
    requires |args| == ARGS && opcode < SPU_MAX_INSTRUCTION_COUNT && |fields| == 4
    ensures v == FieldsFor(RI7, opcode, args)
  {
    v := fields;
    v := v[3 := opcode];
    v := v[0 := args[A_T] % 0x80];
    v := v[1 := args[A_A] % 0x80];
    v := v[2 := args[A_S7] % 0x80];
  }

  method SetRI8(opcode: nat, args: seq<int>, fields: seq<nat>) returns (v: seq<nat>)
    requires |args| == ARGS && opcode < SPU_MAX_INSTRUCTION_COUNT && |fields| == 4
    ensures v == FieldsFor(RI8, opcode, args)
  {
    v := fields;
    v := v[3 := opcode / 2 % 0x400];
    v := v[0 := args[A_T] % 0x80];
    v := v[1 := args[A_A] % 0x80];
    v := v[2 := args[A_U7A] % 0x100];
  }

  method SetRI10(opcode: nat, args: seq<int>, fields: seq<nat>) returns (v: seq<nat>)
    requires |args| == ARGS && opcode < SPU_MAX_INSTRUCTION_COUNT && |fields| == 4
    ensures v == FieldsFor(RI10, opcode, args)
  {
    v := fields;
    v := v[3 := opcode / 8 % 0x100];
    v := v[0 := args[A_T] % 0x80];
    v := v[1 := args[A_A] % 0x80];
    v := v[2 := args[A_S10] % 0x400];
  }

  method SetRI16(opcode: nat, args: seq<int>, fields: seq<nat>) returns (v: seq<nat>)
    requires |args| == ARGS && opcode < SPU_MAX_INSTRUCTION_COUNT && |fields| == 3
    ensures v == FieldsFor(RI16, opcode, args)
  {
    v := fields;
    v := v[2 := opcode / 4 % 0x200];
    v := v[0 := args[A_T] % 0x80];
    v := v[1 := args[A_S16] % 0x1_0000];
  }

  method SetRI18(opcode: nat, args: seq<int>, fields: seq<nat>) returns (v: seq<nat>)
    requires |args| == ARGS && opcode < SPU_MAX_INSTRUCTION_COUNT && |fields| == 3
    ensures v == FieldsFor(RI18, opcode, args)
  {
    v := fields;
    v := v[2 := opcode / 0x10 % 0x80];
    v := v[0 := args[A_T] % 0x80];
    v := v[1 := args[A_U18] % 0x4_0000];
  }

  method SetLBT(opcode: nat, args: seq<int>, fields: seq<nat>) returns (v: seq<nat>)
    requires |args| == ARGS && opcode < SPU_MAX_INSTRUCTION_COUNT && |fields| == 4
    ensures v == FieldsFor(LBT, opcode, args)
  {
    v := fields;
    v := v[3 := opcode / 0x10 % 0x80];
    v := v[1 := args[A_S16] % 0x1_0000];
    v := v[0 := args[A_S11] % 0x80];
    v := v[2 := args[A_S11] / 0x80 % 4];
  }

  method SetLBTI(opcode: nat, args: seq<int>, fields: seq<nat>) returns (v: seq<nat>)
    requires |args| == ARGS && opcode < SPU_MAX_INSTRUCTION_COUNT && |fields| == 5
    ensures v == FieldsFor(LBTI, opcode, args)
  {
    v := fields;
    v := v[4 := opcode];
    v := v[1 := args[A_S16] % 0x80];
    v := v[0 := args[A_S11I] % 0x80];
    v := v[2 := args[A_S11I] / 0x80 % 4];
    v := v[3 := 0];
  }

  /** The `switch` of spu_assemble, on a word that starts as all ones. */
  method SetFields(f: Format, opcode: nat, args: seq<int>) returns (v: seq<nat>)
    requires |args| == ARGS && opcode < SPU_MAX_INSTRUCTION_COUNT
    ensures v == FieldsFor(f, opcode, args)
  {
    var ones := Unpack(Widths(f), 0xFFFF_FFFF);
    match f {
      case RRR => v := SetRRR(opcode, args, ones);
      case RR => v := SetRR(opcode, args, ones);
      case RI7 => v := SetRI7(opcode, args, ones);
      case RI8 => v := SetRI8(opcode, args, ones);
      case RI10 => v := SetRI10(opcode, args, ones);
      case RI16 => v := SetRI16(opcode, args, ones);
      case RI18 => v := SetRI18(opcode, args, ones);
      case LBT => v := SetLBT(opcode, args, ones);
      case LBTI => v := SetLBTI(opcode, args, ones);
    }
  }

  /** The word of these fields. */
  function WordFor(f: Format, opcode: nat, args: seq<int>): nat
    requires |args| == ARGS
  {
    Pack(Widths(f), FieldsFor(f, opcode, args))
  }

  method Encode(f: Format, opcode: nat, args: seq<int>) returns (w: Vectors.word)
    requires |args| == ARGS && opcode < SPU_MAX_INSTRUCTION_COUNT && opcode % f.Span() == 0
    ensures w == WordFor(f, opcode, args) && Encodes(f, opcode, args, Unpack(Widths(f), w))
    ensures opcode <= OpcodeBits(w) < opcode + f.Span()
    ensures f == RI8 ==> (OpcodeBits(w) == opcode <==> args[A_U7A] % 0x100 < 0x80)
  {
    var v := SetFields(f, opcode, args);
    FieldsEncode(f, opcode, args);
    UnpackPack(Widths(f), v);
    WordBound(f, v);
    w := Pack(Widths(f), v);
    WordStarts(f, opcode, args, v, w);
  }

  lemma WordStarts(f: Format, opcode: nat, args: seq<int>, v: seq<nat>, w: Vectors.word)
    requires |args| == ARGS && opcode % f.Span() == 0 && Encodes(f, opcode, args, v) && w == Pack(Widths(f), v)
    ensures opcode <= OpcodeBits(w) < opcode + f.Span()
    ensures f == RI8 ==> (OpcodeBits(w) == opcode <==> args[A_U7A] % 0x100 < 0x80)
  {
    OpcodeOfWord(f, v, w, opcode);
    if f == RI8 {
      ImmediateOfRI8(v, w, opcode);
    }
  }

  lemma WordBound(f: Format, v: seq<nat>)
    requires Fits(Widths(f), v)
    ensures Pack(Widths(f), v) < Vectors.TWO_32
  {
    WidthsTotal(f);
    PackBound(Widths(f), v);
    Powers();
  }

  lemma TotalOfThree(a: nat, b: nat, c: nat)
    ensures Total([a, b, c]) == a + b + c && [a, b, c][..2] == [a, b] && Total([a, b]) == a + b
  {
    assert [a, b, c][1..] == [b, c] && [b, c][1..] == [c] && [c][1..] == [] && [a, b][1..] == [b] && [b][1..] == [];
    assert Total([c]) == c && Total([b]) == b;
  }

  lemma TotalOfFour(a: nat, b: nat, c: nat, d: nat)
    ensures Total([a, b, c, d]) == a + b + c + d && [a, b, c, d][..3] == [a, b, c]
  {
    TotalOfThree(b, c, d);
    assert [a, b, c, d][1..] == [b, c, d];
  }

  lemma TotalOfFive(a: nat, b: nat, c: nat, d: nat, e: nat)
    ensures Total([a, b, c, d, e]) == a + b + c + d + e && [a, b, c, d, e][..4] == [a, b, c, d]
  {
    TotalOfFour(b, c, d, e);
    assert [a, b, c, d, e][1..] == [b, c, d, e];
  }

  lemma TotalOfFields(f: Format)
    ensures Total(Widths(f)) == 32
    ensures Total(Widths(f)[..|Widths(f)| - 1]) == 21 + OperandBits(f)
  {
    match f
    case RRR => TotalOfFive(7, 7, 7, 7, 4); TotalOfFour(7, 7, 7, 7);
    case RR => TotalOfFour(7, 7, 7, 11); TotalOfThree(7, 7, 7);
    case RI7 => TotalOfFour(7, 7, 7, 11); TotalOfThree(7, 7, 7);
    case RI8 => TotalOfFour(7, 7, 8, 10); TotalOfThree(7, 7, 8);
    case RI10 => TotalOfFour(7, 7, 10, 8); TotalOfThree(7, 7, 10);
    case RI16 => TotalOfThree(7, 16, 9);
    case RI18 => TotalOfThree(7, 18, 7);
    case LBT => TotalOfFour(7, 16, 2, 7); TotalOfThree(7, 16, 2);
    case LBTI => TotalOfFive(7, 7, 2, 5, 11); TotalOfFour(7, 7, 2, 5);
  }

  /** How many of the upper eleven bits are operand. */
  function OperandBits(f: Format): (k: nat)
    ensures Pow2(k) == f.Span()
  {
    match f
    case RRR => 7
    case RR => 0
    case RI7 => 0
    case RI8 => 1
    case RI10 => 3
    case RI16 => 2
    case RI18 => 4
    case LBT => 4
    case LBTI => 0
  }

  /** The fields of each view fill the word, and OP stands above bit 21 and the operand bits of the opcode. */
  lemma WidthsTotal(f: Format)
    ensures Total(Widths(f)) == 32
    ensures Pow2(Total(Widths(f)[..|Widths(f)| - 1])) == 0x20_0000 * f.Span()
  {
    TotalOfFields(f);
    Pow2Add(21, OperandBits(f));
    Powers();
    Pow2Add(5, 16);
    assert Pow2(5) == 0x20;
  }

  /** The upper eleven bits of the word are the opcode and operand bits below the next opcode. */
  lemma OpcodeOfWord(f: Format, v: seq<nat>, w: Vectors.word, opcode: nat)
    requires Fits(Widths(f), v) && w == Pack(Widths(f), v) && v[|v| - 1] == opcode / f.Span() && opcode % f.Span() == 0
    ensures opcode <= OpcodeBits(w) < opcode + f.Span()
  {
    TopField(Widths(f), v);
    WidthsTotal(f);
    QuotientByFactors(w, 0x20_0000, f.Span(), opcode);
  }

  lemma QuotientByFactors(w: nat, p: nat, n: nat, opcode: nat)
    requires p >= 1 && n >= 1 && w / (p * n) == opcode / n && opcode % n == 0
    ensures opcode <= w / p < opcode + n
  {
    var x, lo := Rest(w, p), w % p;
    var q, mid := Rest(x, n), x % n;
    assert p * (mid + n * q) == p * mid + (p * n) * q;
    DigitBound(lo, p, mid, n);
    assert p * mid >= 0;
    QuotientUnique(w, p * n, q, lo + p * mid);
    assert opcode == n * (opcode / n);
  }

  lemma PackOfRI8(v: seq<nat>)
    requires |v| == 4
    ensures Pack(Widths(RI8), v) == v[0] + 0x80 * (v[1] + 0x80 * (v[2] + 0x100 * v[3]))
  {
    Powers();
    PackStep([7, 7, 8, 10], v, 0x80);
    assert [7, 7, 8, 10][1..] == [7, 8, 10];
    PackStep([7, 8, 10], v[1..], 0x80);
    assert [7, 8, 10][1..] == [8, 10] && v[1..][1..] == [v[2], v[3]];
    PackOfTwo(8, 10, v[2], v[3], 0x100);
  }

  lemma PackOfTwo(a: nat, b: nat, x: nat, y: nat, p: nat)
    requires p == Pow2(a)
    ensures Pack([a, b], [x, y]) == x + p * y
  {
    assert [a, b][1..] == [b] && [b][1..] == [] && [x, y][1..] == [y];
    assert Pow2(b) * 0 == 0;
    PackStep([b], [y], Pow2(b));
  }

  lemma PackStep(widths: seq<nat>, fields: seq<nat>, p: nat)
    requires |fields| == |widths| > 0 && p == Pow2(widths[0])
    ensures Pack(widths, fields) == fields[0] + p * Pack(widths[1..], fields[1..])
  {
  }

  lemma ImmediateOfRI8(v: seq<nat>, w: Vectors.word, opcode: nat)
    requires Fits(Widths(RI8), v) && w == Pack(Widths(RI8), v) && v[3] == opcode / 2 && opcode % 2 == 0
    ensures OpcodeBits(w) == opcode <==> v[2] < 0x80
  {
    Powers();
    PackOfRI8(v);
    var b := v[2] / 0x80;
    QuotientUnique(w, 0x20_0000, 2 * v[3] + b, v[0] + 0x80 * v[1] + 0x4000 * (v[2] % 0x80));
  }

  // ----- putting a word together -----

  lemma PackThree(a: nat, b: nat, c: nat, x: nat, y: nat, z: nat, p: nat, q: nat, rest: nat)
    requires p == Pow2(a) && q == Pow2(b) && rest == y + q * z
    ensures Pack([a, b, c], [x, y, z]) == x + p * rest
  {
    assert [a, b, c][1..] == [b, c] && [x, y, z][1..] == [y, z];
    PackStep([a, b, c], [x, y, z], p);
    PackOfTwo(b, c, y, z, q);
  }

  lemma PackFour(a: nat, b: nat, c: nat, d: nat, x: nat, y: nat, z: nat, t: nat, p: nat, q: nat, r: nat,
                 rest: nat, last: nat)
    requires p == Pow2(a) && q == Pow2(b) && r == Pow2(c) && rest == y + q * last && last == z + r * t
    ensures Pack([a, b, c, d], [x, y, z, t]) == x + p * rest
  {
    assert [a, b, c, d][1..] == [b, c, d] && [x, y, z, t][1..] == [y, z, t];
    PackStep([a, b, c, d], [x, y, z, t], p);
    PackThree(b, c, d, y, z, t, q, r, last);
  }

  lemma PackFive(widths: seq<nat>, fields: seq<nat>, p: nat, rest: nat)
    requires |widths| == |fields| == 5 && p == Pow2(widths[0])
    requires rest == Pack([widths[1], widths[2], widths[3], widths[4]], [fields[1], fields[2], fields[3], fields[4]])
    ensures Pack(widths, fields) == fields[0] + p * rest
  {
    assert widths[1..] == [widths[1], widths[2], widths[3], widths[4]];
    assert fields[1..] == [fields[1], fields[2], fields[3], fields[4]];
    PackStep(widths, fields, p);
  }

  /** The bits of an assembled word that each slot goes to, for the formats of registers. */
  lemma EncodedRegisters(opcode: nat, args: seq<int>)
    requires |args| == ARGS
    ensures WordFor(RRR, opcode, args)
         == args[A_C] % 0x80 + 0x80 * (args[A_A] % 0x80) + 0x4000 * (args[A_B] % 0x80) + 0x20_0000 * (args[A_T] % 0x80)
            + 0x1000_0000 * (opcode / 0x80)
    ensures WordFor(RR, opcode, args)
         == args[A_T] % 0x80 + 0x80 * (args[A_A] % 0x80) + 0x4000 * (args[A_B] % 0x80) + 0x20_0000 * opcode
  {
    Widest();
    var RT, RA, RB, RC := args[A_T] % 0x80, args[A_A] % 0x80, args[A_B] % 0x80, args[A_C] % 0x80;
    var op := opcode / 0x80;
    var rest := RA + 0x80 * RB + 0x4000 * RT + 0x20_0000 * op;
    PackFour(7, 7, 7, 4, RA, RB, RT, op, 0x80, 0x80, 0x80, RB + 0x80 * RT + 0x4000 * op, RT + 0x80 * op);
    PackFive([7, 7, 7, 7, 4], [RC, RA, RB, RT, op], 0x80, rest);
    PackFour(7, 7, 7, 11, RT, RA, RB, opcode, 0x80, 0x80, 0x80, RA + 0x80 * RB + 0x4000 * opcode, RB + 0x80 * opcode);
  }

  /** For the formats with an immediate. */
  lemma EncodedImmediates(opcode: nat, args: seq<int>)
    requires |args| == ARGS
    ensures WordFor(RI7, opcode, args)
         == args[A_T] % 0x80 + 0x80 * (args[A_A] % 0x80) + 0x4000 * (args[A_S7] % 0x80) + 0x20_0000 * opcode
    ensures WordFor(RI8, opcode, args)
         == args[A_T] % 0x80 + 0x80 * (args[A_A] % 0x80) + 0x4000 * (args[A_U7A] % 0x100) + 0x40_0000 * (opcode / 2)
    ensures WordFor(RI10, opcode, args)
         == args[A_T] % 0x80 + 0x80 * (args[A_A] % 0x80) + 0x4000 * (args[A_S10] % 0x400) + 0x100_0000 * (opcode / 8)
    ensures WordFor(RI16, opcode, args)
         == args[A_T] % 0x80 + 0x80 * (args[A_S16] % 0x1_0000) + 0x80_0000 * (opcode / 4)
    ensures WordFor(RI18, opcode, args)
         == args[A_T] % 0x80 + 0x80 * (args[A_U18] % 0x4_0000) + 0x200_0000 * (opcode / 0x10)
  {
    Widest();
    var RT, RA := args[A_T] % 0x80, args[A_A] % 0x80;
    PackImmediate(7, 11, RT, RA, args[A_S7] % 0x80, opcode, 0x80);
    PackImmediate(8, 10, RT, RA, args[A_U7A] % 0x100, opcode / 2, 0x100);
    PackImmediate(10, 8, RT, RA, args[A_S10] % 0x400, opcode / 8, 0x400);
    var I16, I18 := args[A_S16] % 0x1_0000, args[A_U18] % 0x4_0000;
    PackThree(7, 16, 9, RT, I16, opcode / 4, 0x80, 0x1_0000, I16 + 0x1_0000 * (opcode / 4));
    PackThree(7, 18, 7, RT, I18, opcode / 0x10, 0x80, 0x4_0000, I18 + 0x4_0000 * (opcode / 0x10));
  }

  lemma PackImmediate(c: nat, d: nat, RT: nat, RA: nat, imm: nat, op: nat, r: nat)
    requires r == Pow2(c)
    ensures Pack([7, 7, c, d], [RT, RA, imm, op]) == RT + 0x80 * RA + 0x4000 * (imm + r * op)
  {
    Widest();
    PackFour(7, 7, c, d, RT, RA, imm, op, 0x80, 0x80, r, RA + 0x80 * (imm + r * op), imm + r * op);
  }

  /** For hints. */
  lemma EncodedHints(opcode: nat, args: seq<int>)
    requires |args| == ARGS
    ensures WordFor(LBT, opcode, args)
         == args[A_S11] % 0x80 + 0x80 * (args[A_S16] % 0x1_0000) + 0x80_0000 * (args[A_S11] / 0x80 % 4)
            + 0x200_0000 * (opcode / 0x10)
    ensures WordFor(LBTI, opcode, args)
         == args[A_S11I] % 0x80 + 0x80 * (args[A_S16] % 0x80) + 0x4000 * (args[A_S11I] / 0x80 % 4) + 0x20_0000 * opcode
  {
    Widest();
    var ROL, ROH, RA := args[A_S11] % 0x80, args[A_S11] / 0x80 % 4, args[A_S16] % 0x80;
    var I16, op := args[A_S16] % 0x1_0000, opcode / 0x10;
    PackFour(7, 16, 2, 7, ROL, I16, ROH, op, 0x80, 0x1_0000, 4, I16 + 0x1_0000 * (ROH + 4 * op), ROH + 4 * op);
    PackFour(7, 2, 5, 11, RA, ROH, 0, opcode, 0x80, 4, 0x20, ROH + 4 * (0x20 * opcode), 0x20 * opcode);
    PackFive([7, 7, 2, 5, 11], [ROL, RA, ROH, 0, opcode], 0x80, RA + 0x80 * (ROH + 4 * (0x20 * opcode)));
  }

  lemma Widest()
    ensures Pow2(2) == 4 && Pow2(4) == 0x10 && Pow2(5) == 0x20 && Pow2(7) == 0x80 && Pow2(8) == 0x100
    ensures Pow2(9) == 0x200 && Pow2(10) == 0x400 && Pow2(11) == 0x800 && Pow2(16) == 0x1_0000 && Pow2(18) == 0x4_0000
  {
    Powers();
    Pow2Add(2, 16);
  }

  // ----- assembling and decoding -----

  /** The operands of the instruction as they were given. */
  function Given(f: Format, args: seq<int>): Components
    requires |args| == ARGS
  {
    match f
    case RRR => Components(args[A_T], args[A_A], args[A_B], args[A_C], 0)
    case RR => Components(args[A_T], args[A_A], args[A_B], 0, 0)
    case RI7 => Components(args[A_T], args[A_A], 0, 0, args[A_S7])
    case RI8 => Components(args[A_T], args[A_A], 0, 0, args[A_U7A])
    case RI10 => Components(args[A_T], args[A_A], 0, 0, args[A_S10])
    case RI16 => Components(args[A_T], 0, 0, 0, args[A_S16])
    case RI18 => Components(args[A_T], 0, 0, 0, args[A_U18])
    case LBT => Components(0, 0, 0, 0, Pair(args[A_S16] % Vectors.TWO_32, args[A_S11] % Vectors.TWO_32))
    case LBTI => Components(0, args[A_A], 0, 0, Pair(args[A_S11I] % Vectors.TWO_32, 0))
  }

  /** Every operand lies in its field: registers below 128, immediates in the signed range of their
      fields, those of RI8 below 128 besides, the branch position of a hint below 512. The register of an
      LBTI word is taken from the slot of the 16-bit immediate, not from the one it is given in. */
  predicate InRange(f: Format, args: seq<int>)
    requires |args| == ARGS
  {
    match f
    case RRR => InSeven(args[A_T]) && InSeven(args[A_A]) && InSeven(args[A_B]) && InSeven(args[A_C])
    case RR => InSeven(args[A_T]) && InSeven(args[A_A]) && InSeven(args[A_B])
    case RI7 => InSeven(args[A_T]) && InSeven(args[A_A]) && -0x40 <= args[A_S7] < 0x40
    case RI8 => InSeven(args[A_T]) && InSeven(args[A_A]) && 0 <= args[A_U7A] < 0x80
    case RI10 => InSeven(args[A_T]) && InSeven(args[A_A]) && -0x200 <= args[A_S10] < 0x200
    case RI16 => InSeven(args[A_T]) && -0x8000 <= args[A_S16] < 0x8000
    case RI18 => InSeven(args[A_T]) && -0x2_0000 <= args[A_U18] < 0x2_0000
    case LBT => InSixteen(args[A_S16] % Vectors.TWO_32) && args[A_S11] % Vectors.TWO_32 < 0x200
    case LBTI => args[A_A] == args[A_S16] % 0x80 && args[A_S11I] % Vectors.TWO_32 < 0x200
  }

  predicate InSeven(x: int) { 0 <= x < 0x80 }

  /** A 32-bit word that is the sign extension of its lower half. */
  predicate InSixteen(x: nat) { x < 0x8000 || 0xFFFF_8000 <= x < Vectors.TWO_32 }

  lemma PairInjective(a: nat, b: nat, c: nat, d: nat)
    requires a < Vectors.TWO_32 && b < Vectors.TWO_32 && c < Vectors.TWO_32 && d < Vectors.TWO_32
    ensures Pair(a, b) == Pair(c, d) <==> a == c && b == d
  {
    Int64Injective(a * Vectors.TWO_32 + b, c * Vectors.TWO_32 + d);
  }

  lemma Int64Injective(x: nat, y: nat)
    requires x < SpuState.TWO_64 && y < SpuState.TWO_64
    ensures SpuState.Int64(x) == SpuState.Int64(y) <==> x == y
  {
  }

  lemma SixteenIff(x: int)
    ensures SpuState.FieldValue(x, 0x1_0000) % Vectors.TWO_32 == x % Vectors.TWO_32 <==> InSixteen(x % Vectors.TWO_32)
  {
    var w := x % Vectors.TWO_32;
    var t := w % 0x1_0000;
    QuotientUnique(x, 0x1_0000, x / Vectors.TWO_32 * 0x1_0000 + w / 0x1_0000, t);
  }

  lemma NineIff(x: int)
    ensures x % 0x200 == x % Vectors.TWO_32 <==> x % Vectors.TWO_32 < 0x200
  {
    var w := x % Vectors.TWO_32;
    QuotientUnique(x, 0x200, x / Vectors.TWO_32 * 0x80_0000 + w / 0x200, w % 0x200);
  }

  lemma RegisterIff(x: int)
    ensures x % 0x80 == x <==> InSeven(x)
  {
  }

  lemma HintInRange(args: seq<int>)
    requires |args| == ARGS
    ensures Operands(LBT, args) == Given(LBT, args) <==> InRange(LBT, args)
  {
    SixteenIff(args[A_S16]);
    NineIff(args[A_S11]);
    PairInjective(SpuState.FieldValue(args[A_S16], 0x1_0000) % Vectors.TWO_32, args[A_S11] % 0x200,
                  args[A_S16] % Vectors.TWO_32, args[A_S11] % Vectors.TWO_32);
  }

  lemma RegisterHintInRange(args: seq<int>)
    requires |args| == ARGS
    ensures Operands(LBTI, args) == Given(LBTI, args) <==> InRange(LBTI, args)
  {
    NineIff(args[A_S11I]);
    PairInjective(args[A_S11I] % 0x200, 0, args[A_S11I] % Vectors.TWO_32, 0);
  }

  lemma SignedIff(x: int, m: nat, h: nat)
    requires h > 0 && m == 2 * h
    ensures SpuState.FieldValue(x, m) == x <==> 0 - h <= x < h
  {
    if 0 <= x < h {
      QuotientUnique(x, m, 0, x);
    } else if 0 - h <= x < 0 {
      QuotientUnique(x, m, -1, x + m);
    }
  }

  /** The decoded operands are the given ones if and only if these lie in the signed ranges of their fields. */
  lemma OperandsInRange(f: Format, args: seq<int>)
    requires |args| == ARGS && f != RI8
    ensures Operands(f, args) == Given(f, args) <==> InRange(f, args)
  {
    if f == LBT {
      HintInRange(args);
    } else if f == LBTI {
      RegisterHintInRange(args);
    } else {
      RegisterIff(args[A_T]);
      RegisterIff(args[A_A]);
      RegisterIff(args[A_B]);
      RegisterIff(args[A_C]);
      SignedIff(args[A_S7], 0x80, 0x40);
      SignedIff(args[A_S10], 0x400, 0x200);
      SignedIff(args[A_S16], 0x1_0000, 0x8000);
      SignedIff(args[A_U18], 0x4_0000, 0x2_0000);
    }
  }

  /** Decoding inverts assembling if and only if every operand is in range: the word then decodes to its
      opcode and to the operands as they were given, and otherwise to something else. */
  lemma RoundTripIff(types: seq<Option<Format>>, w: Vectors.word, opcode: nat, args: seq<int>)
    requires |types| == SPU_MAX_INSTRUCTION_COUNT && |args| == ARGS
    requires types[0x7FF] == None && Decodes(types, w, opcode, args)
    ensures var f := types[opcode].value;
            DecodeOpcode(types, OpcodeBits(w)) == opcode && DecodeComponents(types, w) == Given(f, args)
            <==> InRange(f, args)
  {
    RoundTripOf(types[opcode].value, opcode, args, DecodeOpcode(types, OpcodeBits(w)), DecodeComponents(types, w));
  }

  lemma RoundTripOf(f: Format, opcode: nat, args: seq<int>, decoded: nat, components: Components)
    requires |args| == ARGS && opcode != 0x7FF
    requires if f == RI8 && args[A_U7A] % 0x100 >= 0x80 then decoded == 0x7FF
             else decoded == opcode && components == Operands(f, args)
    ensures decoded == opcode && components == Given(f, args) <==> InRange(f, args)
  {
    if f == RI8 {
      RegisterIff(args[A_T]);
      RegisterIff(args[A_A]);
    } else {
      OperandsInRange(f, args);
    }
  }

  /** spu_assemble, from the mnemonic and the numbers of the operands on. None is the empty mnemonic. */
  method Assemble(
    types: seq<Option<Format>>, mnemonics: seq<Option<nat>>, lists: seq<seq<ArgList>>, m: Option<nat>, values: seq<int>)
    returns (w: Vectors.word, ghost opcode: nat)
    requires Sound(types, mnemonics) && |lists| == |types|
    ensures (m == None || forall x :: 0 <= x < |mnemonics| ==> mnemonics[x] != m) ==> w == 0x7FF
    ensures m.Some? && (exists x :: 0 <= x < |mnemonics| && mnemonics[x] == m) ==>
              opcode < |types| && mnemonics[opcode] == m && Decodes(types, w, opcode, ArgsRead(lists[opcode], values))
              && w == WordFor(types[opcode].value, opcode, ArgsRead(lists[opcode], values))
  {
    opcode := 0;
    match m
    case None =>
      w := 0x7FF;
    case Some(n) =>
      var found := FindOpcode(types, mnemonics, n);
      if found == SPU_MAX_INSTRUCTION_COUNT {
        w := 0x7FF;
      } else {
        opcode := found;
        var args := ReadArguments(lists[found], values);
        w := Encode(types[found].value, found, args);
        DecodesToStart(types, found, OpcodeBits(w));
      }
  }

  /** The word decodes to the opcode and to the operands; an RI8 word does so when the top bit of its
      immediate is clear, and to the unused opcode 0x7FF when it is set. */
  ghost predicate Decodes(types: seq<Option<Format>>, w: Vectors.word, opcode: nat, args: seq<int>)
    requires |types| == SPU_MAX_INSTRUCTION_COUNT && |args| == ARGS
  {
    opcode < |types| && types[opcode].Some?
    && var f := types[opcode].value;
    if f == RI8 && args[A_U7A] % 0x100 >= 0x80 then
      DecodeOpcode(types, OpcodeBits(w)) == 0x7FF
    else
      DecodeOpcode(types, OpcodeBits(w)) == opcode && DecodeComponents(types, w) == Operands(f, args)
  }

  // ----- the instruction list -----

  function Mnemonics(): (mnemonics: seq<Option<nat>>)
    ensures |mnemonics| == SPU_MAX_INSTRUCTION_COUNT
  {
    seq(SPU_MAX_INSTRUCTION_COUNT, x requires 0 <= x => MnemonicAt(x))
  }

  lemma TablesSound()
    ensures Sound(Types(), Mnemonics())
  {
    TypesPrefixFree();
    var types, mnemonics := Types(), Mnemonics();
    forall x, y | 0 <= x < |types| && 0 <= y < |types| && mnemonics[x].Some? && mnemonics[x] == mnemonics[y]
      ensures x == y
    {
      MnemonicsUnique(x, mnemonics[x].value);
      MnemonicsUnique(y, mnemonics[x].value);
    }
  }

  /** Every mnemonic of the list but "mtspr" stands in the table, at the opcode of its row and nowhere else. */
  lemma MnemonicListed(n: nat, x: nat)
    requires n < ROWS && x < SPU_MAX_INSTRUCTION_COUNT
    ensures Mnemonics()[x] == Some(RowAt(n).mnemonic) <==> n != MTSPR && x == RowAt(n).opcode
  {
    RowIndexed(n);
    RowNamed(n);
    if Mnemonics()[x] == Some(RowAt(n).mnemonic) {
      MnemonicsUnique(x, RowAt(n).mnemonic);
    }
  }

  /** "mtspr" stands nowhere in the table: its opcode is taken over by "syscall". */
  lemma MtsprUnknown()
    ensures RowAt(MTSPR).mnemonic == MTSPR
    ensures forall x :: 0 <= x < |Mnemonics()| ==> Mnemonics()[x] != Some(MTSPR)
  {
    forall x | 0 <= x < |Mnemonics()|
      ensures Mnemonics()[x] != Some(MTSPR)
    {
      MnemonicListed(MTSPR, x);
    }
  }

  lemma UpperBitsOf128(args: seq<int>, w: Vectors.word)
    requires |args| == ARGS && args[A_U7A] == 0x80 && w == Pack(Widths(RI8), FieldsFor(RI8, 0x3B0, args))
    ensures OpcodeBits(w) == 0x3B1
  {
    var v := FieldsFor(RI8, 0x3B0, args);
    FieldsFit(RI8, 0x3B0, args);
    OpcodeOfWord(RI8, v, w, 0x3B0);
    ImmediateOfRI8(v, w, 0x3B0);
  }

  lemma CfltsListed()
    ensures FormatAt(0x3B0) == Some(RI8) && MnemonicAt(0x3B0) == Some(CFLTS) && Types()[0x3B0] == Some(RI8)
  {
  }

  lemma NextDecodesToUnused(types: seq<Option<Format>>)
    requires PrefixFree(types) && types[0x3B0] == Some(RI8)
    ensures DecodeOpcode(types, 0x3B1) == 0x7FF
  {
    DecodesToStart(types, 0x3B0, 0x3B1);
  }

  /** "cflts" with the immediate 128: the assembled word decodes to the unused opcode 0x7FF. */
  lemma ImmediateLost(args: seq<int>, w: Vectors.word)
    requires |args| == ARGS && args[A_U7A] == 0x80 && w == Pack(Widths(RI8), FieldsFor(RI8, 0x3B0, args))
    ensures MnemonicAt(0x3B0) == Some(CFLTS) && DecodeOpcode(Types(), OpcodeBits(w)) == 0x7FF
  {
    UpperBitsOf128(args, w);
    CfltsListed();
    TypesPrefixFree();
    NextDecodesToUnused(Types());
  }

  /** The row of "cflts". */
  const CFLTS: nat := 110

  /** A mnemonic of the list that is found in the table: any but "mtspr". */
  predicate Known(m: Option<nat>) {
    m.Some? && m.value < ROWS && RowAt(m.value).mnemonic == m.value && m.value != MTSPR
  }

  lemma KnownIff(m: Option<nat>, x: nat)
    requires x < SPU_MAX_INSTRUCTION_COUNT
    ensures m.Some? && Mnemonics()[x] == m <==> Known(m) && x == RowAt(m.value).opcode
  {
    if m.Some? && Mnemonics()[x] == m {
      MnemonicsUnique(x, m.value);
      OpcodePlaced(x);
      RowNamed(RowOf(x).value);
      MnemonicListed(m.value, x);
    } else if Known(m) && x == RowAt(m.value).opcode {
      MnemonicListed(m.value, x);
    }
  }

  lemma KnownStands(m: Option<nat>)
    ensures Known(m) <==> m.Some? && exists x :: 0 <= x < |Mnemonics()| && Mnemonics()[x] == m
    ensures forall x :: 0 <= x < |Mnemonics()| && m.Some? && Mnemonics()[x] == m ==> x == RowAt(m.value).opcode
  {
    forall x | 0 <= x < |Mnemonics()|
      ensures m.Some? && Mnemonics()[x] == m <==> Known(m) && x == RowAt(m.value).opcode
    {
      KnownIff(m, x);
    }
    if Known(m) {
      RowIndexed(m.value);
      assert Mnemonics()[RowAt(m.value).opcode] == m;
    }
  }

  /** `db_op_arglist`. */
  function Lists(): (lists: seq<seq<ArgList>>)
    ensures |lists| == SPU_MAX_INSTRUCTION_COUNT
  {
    seq(SPU_MAX_INSTRUCTION_COUNT, x requires 0 <= x => ListsIn(Rows(), x))
  }

  method BuildTables() returns (types: seq<Option<Format>>, mnemonics: seq<Option<nat>>, lists: seq<seq<ArgList>>)
    ensures types == Types() && mnemonics == Mnemonics() && lists == Lists()
  {
    forall n | 0 <= n < ROWS
      ensures Rows()[n].opcode < SPU_MAX_INSTRUCTION_COUNT
    {
      RowIndexed(n);
    }
    var typeArray, mnemonicArray, listArray := BuildOpDb(Rows());
    forall x | 0 <= x < SPU_MAX_INSTRUCTION_COUNT
      ensures typeArray[x] == FormatAt(x) && mnemonicArray[x] == MnemonicAt(x)
    {
      BuiltTables(x);
    }
    types, mnemonics, lists := typeArray[..], mnemonicArray[..], listArray[..];
  }

  /** The whole of spu_assemble on the tables that spu_build_op_db fills. */
  method AssembleInstruction(m: Option<nat>, values: seq<int>) returns (w: Vectors.word, ghost opcode: nat)
    ensures !Known(m) ==> w == 0x7FF
    ensures Known(m) ==> opcode == RowAt(m.value).opcode && Decodes(Types(), w, opcode, ArgsFor(m.value, values))
    ensures Known(m) ==> w == WordFor(RowAt(m.value).format, opcode, ArgsFor(m.value, values))
  {
    var types, mnemonics, lists := BuildTables();
    TablesSound();
    KnownStands(m);
    w, opcode := Assemble(types, mnemonics, lists, m, values);
    if Known(m) {
      FormatOfKnown(m);
    }
  }

  lemma FormatOfKnown(m: Option<nat>)
    requires Known(m)
    ensures RowAt(m.value).opcode < |Types()| && Types()[RowAt(m.value).opcode] == Some(RowAt(m.value).format)
  {
    if m.value == SYSCALL {
      SyscallRow();
    } else {
      FormatOfMnemonic(m.value);
    }
  }

  // ----- from the operands of the text to the decoded word -----

  lemma SlotsZeroed(f: Format, second: ArgList, read: seq<int>, args: seq<int>)
    requires |read| == ARGS && |args| == ARGS
    requires forall a: nat :: a < ARGS ==> read[a] == if a in second.Types() then 0 else args[a]
    requires (f == RR && second in {AB, A, NoArgs, U14}) || (f == RI10 && second == AS10)
    ensures Operands(f, read) == Given(f, args)
       <==> InRange(f, args) && forall a: nat :: a in second.Types() && a != A_U14 ==> args[a] == 0
  {
    RegisterIff(args[A_T]);
    RegisterIff(args[A_A]);
    RegisterIff(args[A_B]);
  }

  lemma FormsZeroed(f: Format, first: ArgList, second: ArgList, values: seq<int>, read: seq<int>, args: seq<int>)
    requires TwoForms(first, second) && f == (if first == TAS10 then RI10 else RR)
    requires AsGiven(first.Types(), values, args) && |read| == ARGS
    requires forall a: nat :: a < ARGS ==> read[a] == if a in second.Types() then 0 else args[a]
    ensures Operands(f, read) == Given(f, args)
       <==> InRange(f, args) && ZeroWhereShared(first.Types(), second.Types(), values)
  {
    TwoFormsPlain(first, second);
    TypesInArray(second);
    ZeroSlots(first.Types(), second.Types(), values, args);
    SlotsZeroed(f, second, read, args);
    if first == NoArgs {
      assert !Touched(first.Types(), A_U14);
    }
  }

  /** From the numbers in the text to the decoded word: it has the opcode of the mnemonic and the operands of
      its first form, as they were given, if and only if every operand is in range and the mnemonic has no
      second form, or all operands that the second form has too are 0. */
  lemma TextRoundTripIff(m: nat, first: ArgList, values: seq<int>, args: seq<int>, w: Vectors.word)
    requires Owner(m) && first == RowAt(m).args && AsGiven(first.Types(), values, args)
    requires Decodes(Types(), w, RowAt(m).opcode, ArgsFor(m, values))
    ensures DecodeOpcode(Types(), OpcodeBits(w)) == RowAt(m).opcode
            && DecodeComponents(Types(), w) == Given(RowAt(m).format, args)
       <==> InRange(RowAt(m).format, args)
            && (HasTwoForms(m) ==> ZeroWhereShared(first.Types(), RowAt(m + 1).args.Types(), values))
  {
    var f, x, read := RowAt(m).format, RowAt(m).opcode, ArgsFor(m, values);
    FormatOfMnemonic(m);
    FormsOfMnemonic(m, first);
    TablesSound();
    if HasTwoForms(m) {
      BothFormsArgs(m, first, RowAt(m + 1).args, values, args);
      FormsZeroed(f, first, RowAt(m + 1).args, values, read, args);
    } else {
      OneFormArgs(m, first, values, args);
      RoundTripIff(Types(), w, x, args);
    }
  }

  /** The row of "hbr". */
  const HBR: nat := 32

  lemma HintRow()
    ensures RowAt(HBR) == Row(LBTI, 0x1AC, HBR, S11A)
  {
  }

  lemma TwoSlots(types: seq<nat>, values: seq<int>, args: seq<int>)
    requires |types| == |values| == 2 && InArray(types) && Plain(types) && AsGiven(types, values, args)
    ensures args[types[0]] == values[0] && args[types[1]] == values[1]
    ensures A_S16 !in types && A_S10 !in types ==> args[A_S16] == 0 && args[A_S10] == 0
  {
    SlotsPlain(types);
  }

  /** The list of "hbr", the only LBTI row, does not fill the slot its register is taken from: the operands
      are in range if and only if the register is 0 and the branch position below 512. */
  lemma HintRegisterLost(position: int, register: int, args: seq<int>)
    requires AsGiven(RowAt(HBR).args.Types(), [position, register], args)
    ensures RowAt(HBR).format == LBTI
    ensures InRange(LBTI, args) <==> register == 0 && position % Vectors.TWO_32 < 0x200
  {
    HintRow();
    TwoSlots([A_S11I, A_A], [position, register], args);
  }
}
