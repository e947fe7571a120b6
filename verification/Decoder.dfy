/** `src/spu_idb.cpp`: finding the opcode of an instruction word, and its operands. */
module Decoder {
  import opened Bits
  import opened InstructionTable
  import opened Wrappers
  import opened WordFields
  import SpuState
  import Vectors

  /** The widths of the fields of each view of an instruction word, from bit 0 up. The last is OP. */
  function Widths(f: Format): (widths: seq<nat>)
    ensures |widths| >= 3
  {
    match f
    case RRR => [7, 7, 7, 7, 4]
    case RR => [7, 7, 7, 11]
    case RI7 => [7, 7, 7, 11]
    case RI8 => [7, 7, 8, 10]
    case RI10 => [7, 7, 10, 8]
    case RI16 => [7, 16, 9]
    case RI18 => [7, 18, 7]
    case LBT => [7, 16, 2, 7]
    case LBTI => [7, 7, 2, 5, 11]
  }

  /** `op >> 21`. */
  function OpcodeBits(w: nat): (op: nat)
    ensures w < Vectors.TWO_32 ==> op < SPU_MAX_INSTRUCTION_COUNT
  {
    w / 0x20_0000
  }

  /** spu_decode_op_opcode, on the upper eleven bits of the word. */
  function DecodeOpcode(types: seq<Option<Format>>, op: nat): (opcode: nat)
    requires |types| == SPU_MAX_INSTRUCTION_COUNT && op < SPU_MAX_INSTRUCTION_COUNT
    ensures opcode < SPU_MAX_INSTRUCTION_COUNT
  {
    MasksInRange(op);
    DecodeByPrefixes(types, op, And(op, 0x780), And(op, 0x7F0), And(op, 0x7F8), And(op, 0x7FC), And(op, 0x7FE))
  }

  /** The tests of spu_decode_op_opcode, given `op` under each of its masks. */
  function DecodeByPrefixes(types: seq<Option<Format>>, op: nat, op780: nat, op7F0: nat, op7F8: nat,
                            op7FC: nat, op7FE: nat): (opcode: nat)
    requires |types| == SPU_MAX_INSTRUCTION_COUNT && op < SPU_MAX_INSTRUCTION_COUNT
    requires op780 < |types| && op7F0 < |types| && op7F8 < |types| && op7FC < |types| && op7FE < |types|
    ensures opcode < SPU_MAX_INSTRUCTION_COUNT
  {
    if types[op] == Some(RR) || types[op] == Some(RI7) || types[op] == Some(LBTI) then op
    else if types[op780] == Some(RRR) then op780
    else if types[op7F0] == Some(RI18) || types[op7F0] == Some(LBT) then op7F0
    else if types[op7F8] == Some(RI10) then op7F8
    else if types[op7FC] == Some(RI16) then op7FC
    else if types[op7FE] == Some(RI18) then op7FE
    else if types[op] == None then 0x7FF
    else op
  }

  /** `b` is `x` with the bits below `n` cleared. */
  ghost predicate Clears(b: nat, x: nat, n: nat)
    requires n > 0
  {
    b <= x < b + n && b % n == 0
  }

  lemma ClearLow(op: nat, k: nat, n: nat, q: nat) returns (b: nat)
    requires k <= 11 && n == Pow2(k) && q == Pow2(11 - k) && n * q == 0x800 && op < 0x800
    ensures n <= 0x800 && And(op, 0x800 - n) == b && Clears(b, op, n)
  {
    var lo, hi := op % n, Rest(op, n);
    HighBound(lo, n, hi, q);
    AndOnes(11 - k, hi);
    ClearLowParts(k, n, q, lo, hi);
    b := ClearedPart(op, n, lo, hi);
  }

  lemma ClearedPart(op: nat, n: nat, lo: nat, hi: nat) returns (b: nat)
    requires lo < n && op == lo + n * hi
    ensures b == n * hi && Clears(b, op, n)
  {
    b := n * hi;
    QuotientUnique(b, n, hi, 0);
  }

  lemma ClearLowParts(k: nat, n: nat, q: nat, lo: nat, hi: nat)
    requires n == Pow2(k) && q >= 1 && n * q == 0x800 && lo < n && And(hi, q - 1) == hi
    ensures n <= 0x800 && And(lo + n * hi, 0x800 - n) == n * hi
  {
    assert n * (q - 1) == 0x800 - n && n * (q - 1) >= 0;
    AndJoin(k, n, lo, hi, 0, q - 1);
    AndZero(lo);
  }

  lemma Masks(op: nat) returns (b80: nat, b10: nat, b8: nat, b4: nat, b2: nat)
    requires op < 0x800
    ensures And(op, 0x780) == b80 && And(op, 0x7F0) == b10 && And(op, 0x7F8) == b8 && And(op, 0x7FC) == b4
            && And(op, 0x7FE) == b2
    ensures Clears(b80, op, 0x80) && Clears(b10, op, 0x10) && Clears(b8, op, 8) && Clears(b4, op, 4)
            && Clears(b2, op, 2)
  {
    Powers();
    assert Pow2(9) == 0x200 && Pow2(10) == 0x400;
    b80 := ClearLow(op, 7, 0x80, 0x10);
    b10 := ClearLow(op, 4, 0x10, 0x80);
    b8 := ClearLow(op, 3, 8, 0x100);
    b4 := ClearLow(op, 2, 4, 0x200);
    b2 := ClearLow(op, 1, 2, 0x400);
  }

  lemma MasksInRange(op: nat)
    requires op < 0x800
    ensures And(op, 0x780) < 0x800 && And(op, 0x7F0) < 0x800 && And(op, 0x7F8) < 0x800
    ensures And(op, 0x7FC) < 0x800 && And(op, 0x7FE) < 0x800
  {
    var _, _, _, _, _ := Masks(op);
  }

  /** A table in which every opcode is aligned and alone in its range of prefixes. */
  ghost predicate PrefixFree(types: seq<Option<Format>>) {
    |types| == SPU_MAX_INSTRUCTION_COUNT
    && (forall o :: 0 <= o < |types| && types[o].Some? ==>
                      o % types[o].value.Span() == 0 && o + types[o].value.Span() <= |types|)
    && (forall o, y :: 0 <= o < y < |types| && types[o].Some? && y < o + types[o].value.Span() ==> types[y] == None)
  }

  /** `x` is a prefix that an instruction with opcode `o` can start with. */
  ghost predicate Starts(types: seq<Option<Format>>, o: nat, x: nat)
    requires |types| == SPU_MAX_INSTRUCTION_COUNT
  {
    o <= x < SPU_MAX_INSTRUCTION_COUNT && types[o].Some? && x < o + types[o].value.Span()
  }

  /** No prefix belongs to two opcodes. */
  lemma OneStart(types: seq<Option<Format>>, o: nat, b: nat, x: nat)
    requires PrefixFree(types) && Starts(types, o, x) && Starts(types, b, x)
    ensures o == b
  {
  }

  /** What the decoder can find when it clears the bits below `n`. */
  lemma Stage(types: seq<Option<Format>>, o: nat, x: nat, n: nat, b: nat)
    requires PrefixFree(types) && Starts(types, o, x) && n > 0 && Clears(b, x, n)
    ensures types[b].Some? && types[b].value.Span() >= n ==> b == o
    ensures types[o].value.Span() == n ==> b == o
  {
    if types[b].Some? && types[b].value.Span() >= n {
      OneStart(types, o, b, x);
    }
    if types[o].value.Span() == n {
      ClearsOnce(o, b, x, n);
    }
  }

  lemma ClearsOnce(a: nat, b: nat, x: nat, n: nat)
    requires n > 0 && Clears(a, x, n) && Clears(b, x, n)
    ensures a == b
  {
    assert a == n * (a / n) && b == n * (b / n);
    QuotientUnique(x, n, a / n, x - a);
    QuotientUnique(x, n, b / n, x - b);
  }

  /** The decoder returns the opcode an instruction starts with, except that an RI8 instruction whose
      immediate has its top bit set decodes to the unused opcode 0x7FF. */
  lemma DecodesToStart(types: seq<Option<Format>>, o: nat, x: nat)
    requires PrefixFree(types) && Starts(types, o, x)
    ensures DecodeOpcode(types, x) == if types[o] == Some(RI8) && x != o then 0x7FF else o
  {
    var b80, b10, b8, b4, b2 := Masks(x);
    ClearedPrefixes(types, o, x, b80, b10, b8, b4, b2);
  }

  lemma ClearedPrefixes(types: seq<Option<Format>>, o: nat, x: nat, b80: nat, b10: nat, b8: nat, b4: nat, b2: nat)
    requires PrefixFree(types) && Starts(types, o, x)
    requires Clears(b80, x, 0x80) && Clears(b10, x, 0x10) && Clears(b8, x, 8) && Clears(b4, x, 4) && Clears(b2, x, 2)
    ensures DecodeByPrefixes(types, x, b80, b10, b8, b4, b2) == if types[o] == Some(RI8) && x != o then 0x7FF else o
  {
    Stage(types, o, x, 0x80, b80);
    Stage(types, o, x, 0x10, b10);
    Stage(types, o, x, 8, b8);
    Stage(types, o, x, 4, b4);
    Stage(types, o, x, 2, b2);
    Stages(types, o, x, b80, b10, b8, b4, b2);
  }

  /** Conversely, an instruction word starts with the opcode it decodes to, and is that opcode if this is of
      format RI8. */
  lemma StartsWithDecoded(types: seq<Option<Format>>, x: nat)
    requires PrefixFree(types) && x < SPU_MAX_INSTRUCTION_COUNT && types[0x7FF] == None
    ensures var o := DecodeOpcode(types, x);
            types[o].Some? ==> Starts(types, o, x) && (types[o] == Some(RI8) ==> o == x)
  {
    var b80, b10, b8, b4, b2 := Masks(x);
    StartsWithPrefix(types, x, b80, b10, b8, b4, b2);
  }

  lemma StartsWithPrefix(types: seq<Option<Format>>, x: nat, b80: nat, b10: nat, b8: nat, b4: nat, b2: nat)
    requires PrefixFree(types) && x < SPU_MAX_INSTRUCTION_COUNT && types[0x7FF] == None
    requires Clears(b80, x, 0x80) && Clears(b10, x, 0x10) && Clears(b8, x, 8) && Clears(b4, x, 4) && Clears(b2, x, 2)
    ensures var o := DecodeByPrefixes(types, x, b80, b10, b8, b4, b2);
            types[o].Some? ==> Starts(types, o, x) && (types[o] == Some(RI8) ==> o == x)
  {
  }

  lemma Stages(types: seq<Option<Format>>, o: nat, x: nat, b80: nat, b10: nat, b8: nat, b4: nat, b2: nat)
    requires PrefixFree(types) && Starts(types, o, x)
    requires b80 < 0x800 && b10 < 0x800 && b8 < 0x800 && b4 < 0x800 && b2 < 0x800
    requires types[b80] == Some(RRR) || types[o] == Some(RRR) ==> b80 == o
    requires types[b10] == Some(RI18) || types[b10] == Some(LBT) ==> b10 == o
    requires types[o] == Some(RI18) || types[o] == Some(LBT) ==> b10 == o
    requires types[b8] == Some(RI10) || types[o] == Some(RI10) ==> b8 == o
    requires types[b4] == Some(RI16) || types[o] == Some(RI16) ==> b4 == o
    requires types[b2] == Some(RI18) ==> b2 == o
    ensures DecodeByPrefixes(types, x, b80, b10, b8, b4, b2) == if types[o] == Some(RI8) && x != o then 0x7FF else o
  {
  }

  /** The table of formats. */
  function Types(): (types: seq<Option<Format>>)
    ensures |types| == SPU_MAX_INSTRUCTION_COUNT
  {
    seq(SPU_MAX_INSTRUCTION_COUNT, x requires 0 <= x => FormatAt(x))
  }

  lemma TypesPrefixFree()
    ensures PrefixFree(Types())
  {
    var types := Types();
    forall o | 0 <= o < |types| && types[o].Some?
      ensures o % types[o].value.Span() == 0 && o + types[o].value.Span() <= |types|
    {
      OpcodePlaced(o);
    }
    forall o, y | 0 <= o < y < |types| && types[o].Some? && y < o + types[o].value.Span()
      ensures types[y] == None
    {
      OpcodeAlone(o, y);
    }
  }

  /** Outside the opcodes found by clearing bits, the decoder answers the prefix itself or 0x7FF. */
  lemma DecodesDownward(types: seq<Option<Format>>, x: nat)
    requires |types| == SPU_MAX_INSTRUCTION_COUNT && x < SPU_MAX_INSTRUCTION_COUNT
    ensures DecodeOpcode(types, x) <= x || DecodeOpcode(types, x) == 0x7FF
  {
    var _, _, _, _, _ := Masks(x);
  }

  // ----- operands -----

  datatype Components = Components(RT: int, RA: int, RB: int, RC: int, IMM: int)

  /** The target of a hint and the position of its branch as two 32-bit numbers, side by side. */
  function HintPair(target: int, inst: int): int {
    HintWords(target % Vectors.TWO_32, inst % Vectors.TWO_32)
  }

  function HintWords(high: nat, low: nat): int { SpuState.Int64(Or(high * Vectors.TWO_32, low)) }

  /** The fields `v` of a word of format `f`, as spu_decode_op_components returns them. */
  function ComponentsOf(f: Format, v: seq<nat>): Components
    requires |v| == |Widths(f)|
  {
    match f
    case RRR => Components(v[3], v[1], v[2], v[0], 0)
    case RR => Components(v[0], v[1], v[2], 0, 0)
    case RI7 => Components(v[0], v[1], 0, 0, SpuState.SignExtend(v[2], 7))
    case RI8 => Components(v[0], v[1], 0, 0, SpuState.SignExtend(v[2], 8))
    case RI10 => Components(v[0], v[1], 0, 0, SpuState.SignExtend(v[2], 10))
    case RI16 => Components(v[0], 0, 0, 0, SpuState.SignExtend(v[1], 16))
    case RI18 => Components(v[0], 0, 0, 0, SpuState.SignExtend(v[1], 18))
    case LBT => Components(0, 0, 0, 0, HintPair(SpuState.SignExtend(v[1], 16),
                                                SpuState.SignExtend(Or(v[2] * 0x80, v[0]), 11)))
    case LBTI => Components(0, v[1], 0, 0, HintPair(SpuState.SignExtend(Or(v[2] * 0x80, v[0]), 11), 0))
  }

  /** spu_decode_op_components. */
  function DecodeComponents(types: seq<Option<Format>>, w: Vectors.word): Components
    requires |types| == SPU_MAX_INSTRUCTION_COUNT
  {
    match types[DecodeOpcode(types, OpcodeBits(w))]
    case None => Components(0, 0, 0, 0, 0)
    case Some(f) => ComponentsOf(f, Unpack(Widths(f), w))
  }
}
