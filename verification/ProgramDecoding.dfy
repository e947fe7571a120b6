/** The analyses of `src/spu_emu_parser.cpp` on the instruction database of `src/spu_idb.cpp`. */
module ProgramDecoding {
  import opened Bits
  import opened Vectors
  import opened InstructionTable
  import opened Wrappers
  import Decoder
  import Assembler
  import SpuState
  import WordFields
  import opened ProgramAnalysis
  import opened BasicBlocks

  /** spu_decode_op_mnemonic. */
  function MnemonicOf(w: word): Option<nat> {
    Assembler.Mnemonics()[Decoder.DecodeOpcode(Decoder.Types(), Decoder.OpcodeBits(w))]
  }

  /** The immediate that spu_decode_op_components returns. */
  function ImmediateOf(w: word): int {
    Decoder.DecodeComponents(Decoder.Types(), w).IMM
  }

  const SPU_IDB: Idb := Idb(MnemonicOf, ImmediateOf)

  /** The mnemonics "br", "bra", "brz", "brnz", "brhz", "brhnz", "bi", "iret", "biz", "binz", "bihz", "bihnz"
      and "stop". */
  function IsBranch(w: word): bool {
    MnemonicOf(w) in [Some(0), Some(2), BRZ, BRNZ, BRHZ, BRHNZ, Some(27), Some(29), Some(55), Some(54),
                      Some(53), Some(52), Some(7)]
  }

  /** The upper bits of `w` are opcode `o` and operand bits, which RI8 must have clear. */
  predicate StartsWith(w: word, o: nat) {
    RowOf(o).Some? && o <= Decoder.OpcodeBits(w) < o + RowAt(RowOf(o).value).format.Span()
    && (RowAt(RowOf(o).value).format == RI8 ==> Decoder.OpcodeBits(w) == o)
  }

  /** A word with opcode `o` in its upper bits has the mnemonic of that opcode. */
  lemma MnemonicOfOpcode(w: word, o: nat)
    requires StartsWith(w, o)
    ensures o < SPU_MAX_INSTRUCTION_COUNT && MnemonicOf(w) == MnemonicAt(o)
  {
    Decoder.TypesPrefixFree();
    Decoder.DecodesToStart(Decoder.Types(), o, Decoder.OpcodeBits(w));
  }

  /** The opcode of a word with a mnemonic. */
  lemma OpcodeOf(w: word) returns (o: nat)
    requires MnemonicOf(w).Some?
    ensures MnemonicOf(w) == MnemonicAt(o) && StartsWith(w, o)
  {
    Assembler.TablesSound();
    o := DecodedOpcode(Decoder.Types(), Assembler.Mnemonics(), Decoder.OpcodeBits(w));
    EntriesInUse(o);
    StartsInTable(w, o);
  }

  lemma DecodedOpcode(types: seq<Option<Format>>, mnemonics: seq<Option<nat>>, x: nat) returns (o: nat)
    requires Assembler.Sound(types, mnemonics) && x < SPU_MAX_INSTRUCTION_COUNT
    requires mnemonics[Decoder.DecodeOpcode(types, x)].Some?
    ensures o == Decoder.DecodeOpcode(types, x) && Decoder.Starts(types, o, x) && (types[o] == Some(RI8) ==> x == o)
  {
    o := Decoder.DecodeOpcode(types, x);
    Decoder.StartsWithDecoded(types, x);
  }

  lemma EntriesInUse(o: nat)
    requires o < SPU_MAX_INSTRUCTION_COUNT
    ensures Assembler.Mnemonics()[o] == MnemonicAt(o)
  {
  }

  lemma StartsInTable(w: word, o: nat)
    requires Decoder.Starts(Decoder.Types(), o, Decoder.OpcodeBits(w))
    requires Decoder.Types()[o] == Some(RI8) ==> Decoder.OpcodeBits(w) == o
    ensures StartsWith(w, o)
  {
  }

  lemma SameMnemonic(x: nat, y: nat)
    requires MnemonicAt(x) == MnemonicAt(y) && MnemonicAt(x).Some?
    ensures x == y
  {
    MnemonicsUnique(x, MnemonicAt(x).value);
    MnemonicsUnique(y, MnemonicAt(x).value);
  }

  /** A word has the mnemonic of opcode `o` exactly if it starts with `o`. */
  lemma MnemonicIff(w: word, o: nat)
    requires RowOf(o).Some?
    ensures MnemonicOf(w) == MnemonicAt(o) <==> StartsWith(w, o)
  {
    if StartsWith(w, o) {
      MnemonicOfOpcode(w, o);
    } else if MnemonicOf(w) == MnemonicAt(o) {
      var d := OpcodeOf(w);
      SameMnemonic(d, o);
    }
  }

  /** An RI16 instruction is known by its upper nine bits, and its immediate is the two's complement
      number in the sixteen bits below them. */
  lemma WordOfRI16(w: word, o: nat)
    requires FormatAt(o) == Some(RI16)
    ensures MnemonicOf(w) == MnemonicAt(o) <==> w / 0x80_0000 == o / 4
    ensures w / 0x80_0000 == o / 4 ==> ImmediateOf(w) == SpuState.FieldValue(w / 0x80, 0x1_0000)
  {
    OpcodePlaced(o);
    MnemonicIff(w, o);
    UpperNineBits(w, o);
    if w / 0x80_0000 == o / 4 {
      Decoder.TypesPrefixFree();
      Decoder.DecodesToStart(Decoder.Types(), o, Decoder.OpcodeBits(w));
      ImmediateOfRI16(Decoder.Types(), w, o);
    }
  }

  lemma UpperNineBits(w: word, o: nat)
    requires o % 4 == 0
    ensures o <= Decoder.OpcodeBits(w) < o + 4 <==> w / 0x80_0000 == o / 4
  {
    var x := w / 0x20_0000;
    QuotientUnique(w, 0x80_0000, x / 4, x % 4 * 0x20_0000 + w % 0x20_0000);
  }

  lemma ImmediateOfRI16(types: seq<Option<Format>>, w: word, o: nat)
    requires |types| == SPU_MAX_INSTRUCTION_COUNT && o < |types| && types[o] == Some(RI16)
    requires Decoder.DecodeOpcode(types, Decoder.OpcodeBits(w)) == o
    ensures Decoder.DecodeComponents(types, w).IMM == SpuState.FieldValue(w / 0x80, 0x1_0000)
  {
    MiddleField(w);
    SixteenBits(WordFields.Unpack(Decoder.Widths(RI16), w), w / 0x80);
  }

  lemma MiddleField(w: word)
    ensures WordFields.Unpack([7, 16, 9], w)[1] == w / 0x80 % 0x1_0000
  {
    Powers();
    assert [7, 16, 9][1..] == [16, 9];
    assert WordFields.Unpack([16, 9], w / 0x80)[0] == w / 0x80 % 0x1_0000;
  }

  lemma SixteenBits(v: seq<nat>, x: nat)
    requires |v| == 3 && v[1] == x % 0x1_0000
    ensures Decoder.ComponentsOf(RI16, v).IMM == SpuState.FieldValue(x, 0x1_0000)
  {
    Powers();
    Assembler.Immediate(x, 16, 0x1_0000, v[1]);
  }

  /** The zero word is "stop", a branch. */
  lemma ZeroIsBranch()
    ensures IsBranch(0)
  {
    MnemonicOfOpcode(0, 0);
  }

  /** An RR instruction is known by its upper eleven bits. */
  lemma WordOfRR(w: word, o: nat)
    requires FormatAt(o) == Some(RR)
    ensures MnemonicOf(w) == MnemonicAt(o) <==> w / 0x20_0000 == o
  {
    MnemonicIff(w, o);
  }

  lemma RelativeBranchRows()
    ensures FormatAt(0x190) == Some(RI16) && MnemonicAt(0x190) == Some(0)
    ensures FormatAt(0x180) == Some(RI16) && MnemonicAt(0x180) == Some(2)
  {
  }

  lemma IndirectBranchRows()
    ensures FormatAt(0x1A8) == Some(RR) && MnemonicAt(0x1A8) == Some(27)
    ensures FormatAt(0x1AA) == Some(RR) && MnemonicAt(0x1AA) == Some(29)
    ensures FormatAt(0x128) == Some(RR) && MnemonicAt(0x128) == Some(55)
    ensures FormatAt(0x129) == Some(RR) && MnemonicAt(0x129) == Some(54)
    ensures FormatAt(0x12A) == Some(RR) && MnemonicAt(0x12A) == Some(53)
    ensures FormatAt(0x12B) == Some(RR) && MnemonicAt(0x12B) == Some(52)
    ensures FormatAt(0) == Some(RR) && MnemonicAt(0) == Some(7)
  {
  }

  lemma RelativeBranchWords(w: word)
    ensures MnemonicOf(w) in [Some(0), Some(2), BRZ, BRNZ, BRHZ, BRHNZ]
       <==> w / 0x80_0000 in {0x64, 0x60, 0x40, 0x42, 0x44, 0x46}
  {
    RelativeBranchRows();
    ConditionalWord(w);
    WordOfRI16(w, 0x190);
    WordOfRI16(w, 0x180);
  }

  lemma IndirectBranchWords(w: word)
    ensures MnemonicOf(w) in [Some(27), Some(29), Some(55), Some(54), Some(53), Some(52), Some(7)]
       <==> w / 0x20_0000 in {0x1A8, 0x1AA, 0x128, 0x129, 0x12A, 0x12B, 0}
  {
    IndirectBranchRows();
    WordOfRR(w, 0x1A8);
    WordOfRR(w, 0x1AA);
    WordOfRR(w, 0x128);
    WordOfRR(w, 0x129);
    WordOfRR(w, 0x12A);
    WordOfRR(w, 0x12B);
    WordOfRR(w, 0);
  }

  /** The branches, by their bits: br, bra, brz, brnz, brhz, brhnz by the upper nine, the indirect ones, iret and
      stop by the upper eleven. */
  lemma IsBranchIff(w: word)
    ensures IsBranch(w)
       <==> w / 0x80_0000 in {0x64, 0x60, 0x40, 0x42, 0x44, 0x46}
            || w / 0x20_0000 in {0x1A8, 0x1AA, 0x128, 0x129, 0x12A, 0x12B, 0}
  {
    RelativeBranchWords(w);
    IndirectBranchWords(w);
    var mnemonic := MnemonicOf(w);
    assert IsBranch(w)
      <==> mnemonic in [Some(0), Some(2), BRZ, BRNZ, BRHZ, BRHNZ]
           || mnemonic in [Some(27), Some(29), Some(55), Some(54), Some(53), Some(52), Some(7)];
  }

  /** FindBasicBlockInRange on a program: the blocks follow one another from `begin` on, and end exactly after the
      branches, told by their bits, up to the first zero word. */
  method FindBlocks(begin: nat, end: nat, program: Program) returns (blocks: seq<Block>)
    requires begin <= end <= |program.Binary|
    ensures var isBranch := (w: word) => w / 0x80_0000 in {0x64, 0x60, 0x40, 0x42, 0x44, 0x46}
                                         || w / 0x20_0000 in {0x1A8, 0x1AA, 0x128, 0x129, 0x12A, 0x12B, 0};
            Tiles(program.Binary, isBranch, begin, end, blocks)
            && EndAtBranches(program.Binary, isBranch, begin, end, blocks)
  {
    blocks := FindBasicBlockInRange(begin, end, program.Binary, IsBranch);
    ZeroIsBranch();
    BlocksEndAtBranches(program.Binary, IsBranch, begin, end, blocks);
    var isBranch := (w: word) => w / 0x80_0000 in {0x64, 0x60, 0x40, 0x42, 0x44, 0x46}
                                 || w / 0x20_0000 in {0x1A8, 0x1AA, 0x128, 0x129, 0x12A, 0x12B, 0};
    forall w: word
      ensures IsBranch(w) <==> isBranch(w)
    {
      IsBranchIff(w);
    }
    SameTest(program.Binary, IsBranch, isBranch, begin, end, blocks);
  }

  /** Position `p` holds a relative call with link: the upper nine bits of "brsl". */
  predicate IsCall(program: Program, p: nat) {
    p < |program.Binary| && program.Binary[p] / 0x80_0000 == 0x66
  }

  /** Where the call at `p` goes: its 16-bit immediate counts words from `p`. */
  function CallTarget(program: Program, p: nat): word
    requires p < |program.Binary|
  {
    (p + SpuState.FieldValue(program.Binary[p] / 0x80, 0x1_0000)) % TWO_32
  }

  ghost predicate SomeCall(program: Program, y: word) {
    exists p :: IsCall(program, p) && y == CallTarget(program, p)
  }

  /** The entry point and the targets of the calls, in order and each once. */
  ghost predicate EntryAndCalls(program: Program, targets: seq<word>) {
    Ascending(targets)
    && forall y :: y in targets <==> y == program.EntryOffset() || SomeCall(program, y)
  }

  /** What makes a word a call in the eyes of the database, and what its immediate is. */
  ghost predicate CallsKnown(idb: Idb) {
    (forall w: word :: idb.mnemonic(w) == BRSL <==> w / 0x80_0000 == 0x66)
    && (forall w: word :: w / 0x80_0000 == 0x66 ==> idb.imm(w) == SpuState.FieldValue(w / 0x80, 0x1_0000))
  }

  lemma SpuCallsKnown()
    ensures CallsKnown(SPU_IDB)
  {
    forall w: word
      ensures SPU_IDB.mnemonic(w) == BRSL <==> w / 0x80_0000 == 0x66
      ensures w / 0x80_0000 == 0x66 ==> SPU_IDB.imm(w) == SpuState.FieldValue(w / 0x80, 0x1_0000)
    {
      CallWord(w);
    }
  }

  lemma CallWord(w: word)
    ensures MnemonicOf(w) == BRSL <==> w / 0x80_0000 == 0x66
    ensures w / 0x80_0000 == 0x66 ==> ImmediateOf(w) == SpuState.FieldValue(w / 0x80, 0x1_0000)
  {
    assert FormatAt(0x198) == Some(RI16) && MnemonicAt(0x198) == BRSL;
    WordOfRI16(w, 0x198);
  }

  /** The ranges of a program whose entry point and call targets all lie in it. */
  ghost predicate Partitioned(program: Program, targets: seq<word>, ranges: seq<FunctionRange>) {
    targets != []
    && ((forall t :: t in targets ==> t < |program.Binary|) ==> Partition(ranges, targets[0], |program.Binary|))
  }

  /** The ranges found with any database that knows calls. */
  method FunctionsWith(idb: Idb, program: Program) returns (info: SpuInfo, targets: seq<word>)
    requires program.Valid() && CallsKnown(idb)
    ensures info.FunctionRanges == Linked(targets, |program.Binary|) && EntryAndCalls(program, targets)
    ensures Partitioned(program, targets, info.FunctionRanges)
  {
    info, targets := Analyze(idb, program);
    forall y
      ensures Called(idb, program, Positions(idb, program.Binary, BRSL), y) <==> SomeCall(program, y)
    {
      CalledIff(idb, program, y);
    }
    assert program.EntryOffset() in targets;
    if forall t :: t in targets ==> t < |program.Binary| {
      LinkedPartition(targets, |program.Binary|);
    }
  }

  lemma CalledIff(idb: Idb, program: Program, y: word)
    requires CallsKnown(idb)
    ensures Called(idb, program, Positions(idb, program.Binary, BRSL), y) <==> SomeCall(program, y)
  {
    PositionsExact(idb, program.Binary, BRSL);
    forall p | 0 <= p < |program.Binary|
      ensures idb.mnemonic(program.Binary[p]) == BRSL <==> IsCall(program, p)
      ensures IsCall(program, p) ==> Target(idb, program.Binary, p) == CallTarget(program, p)
    {
    }
  }

  /** The function ranges of a program begin at the entry point and at the targets of its calls, and nowhere else,
      and each ends where the next begins; if the beginnings all lie in the program, each position from the first of
      them on lies in exactly one range. */
  method FunctionsOf(program: Program) returns (info: SpuInfo, targets: seq<word>)
    requires program.Valid()
    ensures info.FunctionRanges == Linked(targets, |program.Binary|) && EntryAndCalls(program, targets)
    ensures Partitioned(program, targets, info.FunctionRanges)
    ensures |info.FunctionRanges| == |targets|
    ensures forall k :: 0 <= k < |targets| ==> info.FunctionRanges[k].begin == targets[k]
    ensures program.VirtualBaseAddress <= program.EntryPoint
            && (program.EntryPoint - program.VirtualBaseAddress) / 4 < |program.Binary| ==>
              (program.EntryPoint - program.VirtualBaseAddress) / 4 in targets
    ensures forall p :: 0 <= p < |program.Binary| && program.Binary[p] / 0x80_0000 == 0x66 ==>
                          (p + SpuState.FieldValue(program.Binary[p] / 0x80, 0x1_0000)) % 0x1_0000_0000 in targets
    ensures forall y :: y in targets ==>
                          y == (program.EntryPoint - program.VirtualBaseAddress) % SpuState.TWO_64 / 4 % 0x1_0000_0000
                          || exists p: nat ::
                            p < |program.Binary| && program.Binary[p] / 0x80_0000 == 0x66
                            && y == (p + SpuState.FieldValue(program.Binary[p] / 0x80, 0x1_0000)) % 0x1_0000_0000
  {
    SpuCallsKnown();
    info, targets := FunctionsWith(SPU_IDB, program);
    EntryTarget(program, targets);
    EveryCallTarget(program, targets);
    OnlyTargets(program, targets);
  }

  lemma EntryTarget(program: Program, targets: seq<word>)
    requires program.Valid() && EntryAndCalls(program, targets)
    ensures program.VirtualBaseAddress <= program.EntryPoint
            && (program.EntryPoint - program.VirtualBaseAddress) / 4 < |program.Binary| ==>
              (program.EntryPoint - program.VirtualBaseAddress) / 4 in targets
  {
    if program.VirtualBaseAddress <= program.EntryPoint
       && (program.EntryPoint - program.VirtualBaseAddress) / 4 < |program.Binary| {
      EntryPosition(program);
    }
  }

  lemma EveryCallTarget(program: Program, targets: seq<word>)
    requires EntryAndCalls(program, targets)
    ensures forall p :: 0 <= p < |program.Binary| && program.Binary[p] / 0x80_0000 == 0x66 ==>
                          (p + SpuState.FieldValue(program.Binary[p] / 0x80, 0x1_0000)) % 0x1_0000_0000 in targets
  {
    forall p | 0 <= p < |program.Binary| && program.Binary[p] / 0x80_0000 == 0x66
      ensures (p + SpuState.FieldValue(program.Binary[p] / 0x80, 0x1_0000)) % 0x1_0000_0000 in targets
    {
      assert IsCall(program, p);
      assert SomeCall(program, CallTarget(program, p));
    }
  }

  lemma OnlyTargets(program: Program, targets: seq<word>)
    requires EntryAndCalls(program, targets)
    ensures forall y :: y in targets ==>
                          y == (program.EntryPoint - program.VirtualBaseAddress) % SpuState.TWO_64 / 4 % 0x1_0000_0000
                          || exists p: nat ::
                            p < |program.Binary| && program.Binary[p] / 0x80_0000 == 0x66
                            && y == (p + SpuState.FieldValue(program.Binary[p] / 0x80, 0x1_0000)) % 0x1_0000_0000
  {
    forall y | y in targets && y != program.EntryOffset()
      ensures exists p: nat :: p < |program.Binary| && program.Binary[p] / 0x80_0000 == 0x66
                               && y == (p + SpuState.FieldValue(program.Binary[p] / 0x80, 0x1_0000)) % 0x1_0000_0000
    {
      var p: nat :| IsCall(program, p) && y == CallTarget(program, p);
      assert program.Binary[p] / 0x80_0000 == 0x66;
    }
  }

  // ----- conditional branches -----

  /** The upper nine bits of "brz", "brnz", "brhz" and "brhnz". */
  predicate IsConditional(w: word) {
    w / 0x80_0000 == 0x40 || w / 0x80_0000 == 0x42 || w / 0x80_0000 == 0x44 || w / 0x80_0000 == 0x46
  }

  /** How many words a relative branch jumps. */
  function Offset(w: word): (d: int)
    ensures -0x8000 <= d < 0x8000
  {
    SpuState.FieldValue(w / 0x80, 0x1_0000)
  }

  /** The branch `w` at position `p`: the block from it to its target, or from its target up to and with it. */
  function BranchFrom(w: word, p: nat): Branch
    requires p < 0x4000_0000
  {
    var d := Offset(w);
    if d > 0 then Branch(d, p, p + d) else Branch(d, (p + d) % TWO_32, p + 1)
  }

  /** The block is not empty exactly if the branch does not jump back over the beginning of the program. */
  lemma BlockNotEmptyIff(w: word, p: nat)
    requires p < 0x4000_0000
    ensures BranchFrom(w, p).BranchBlockBegin < BranchFrom(w, p).BranchBlockEnd <==> p + Offset(w) >= 0
  {
  }

  /** `b` is the jump of the branch `w` at position `p`, by as many words as the sixteen bits above the lowest
      seven say: the block from it up to its target, or from its target up to and with it. */
  ghost predicate JumpsOver(b: Branch, w: word, p: int) {
    var d := SpuState.FieldValue(w / 0x80, 0x1_0000);
    b.AdvanceAmount == d
    && if d > 0 then b.BranchBlockBegin == p && b.BranchBlockEnd == p + d
    else b.BranchBlockBegin == (p + d) % 0x1_0000_0000 && b.BranchBlockEnd == p + 1
  }

  lemma BranchJumpsOver(w: word, p: nat)
    requires p < 0x4000_0000
    ensures JumpsOver(BranchFrom(w, p), w, p)
  {
  }

  /** An instruction lies in the block of a forward branch at `p` by `d` words exactly if it stands from `p` up to
      `p + d`, and in that of a branch back that stays in the program, from `p + d` up to and with `p`. */
  lemma InBlockIff(b: Branch, w: word, p: nat, d: int, x: int)
    requires p < 0x4000_0000 && JumpsOver(b, w, p) && d == SpuState.FieldValue(w / 0x80, 0x1_0000)
    ensures b.AdvanceAmount == d
    ensures d > 0 ==> (b.BranchBlockBegin <= x < b.BranchBlockEnd <==> p <= x < p + d)
    ensures d <= 0 && p + d >= 0 ==> (b.BranchBlockBegin <= x < b.BranchBlockEnd <==> p + d <= x <= p)
  {
  }

  /** The conditional branches of a program, by a direct scan. */
  function ConditionalBranches(code: seq<word>): seq<Branch>
    requires |code| < 0x4000_0000
  {
    if code == [] then []
    else
      var n := |code| - 1;
      ConditionalBranches(code[..n]) + if IsConditional(code[n]) then [BranchFrom(code[n], n)] else []
  }

  /** What makes a word a conditional branch in the eyes of the database, and what its immediate is. */
  ghost predicate BranchesKnown(idb: Idb) {
    (forall w: word :: idb.mnemonic(w) == BRZ <==> w / 0x80_0000 == 0x40)
    && (forall w: word :: idb.mnemonic(w) == BRNZ <==> w / 0x80_0000 == 0x42)
    && (forall w: word :: idb.mnemonic(w) == BRHZ <==> w / 0x80_0000 == 0x44)
    && (forall w: word :: idb.mnemonic(w) == BRHNZ <==> w / 0x80_0000 == 0x46)
    && (forall w: word :: IsConditional(w) ==> idb.imm(w) == Offset(w))
  }

  lemma ConditionalWord(w: word)
    ensures MnemonicOf(w) == BRZ <==> w / 0x80_0000 == 0x40
    ensures MnemonicOf(w) == BRNZ <==> w / 0x80_0000 == 0x42
    ensures MnemonicOf(w) == BRHZ <==> w / 0x80_0000 == 0x44
    ensures MnemonicOf(w) == BRHNZ <==> w / 0x80_0000 == 0x46
    ensures IsConditional(w) ==> ImmediateOf(w) == Offset(w)
  {
    ConditionalRows();
    WordOfRI16(w, 0x100);
    WordOfRI16(w, 0x108);
    WordOfRI16(w, 0x110);
    WordOfRI16(w, 0x118);
  }

  lemma ConditionalRows()
    ensures FormatAt(0x100) == Some(RI16) && MnemonicAt(0x100) == BRZ
    ensures FormatAt(0x108) == Some(RI16) && MnemonicAt(0x108) == BRNZ
    ensures FormatAt(0x110) == Some(RI16) && MnemonicAt(0x110) == BRHZ
    ensures FormatAt(0x118) == Some(RI16) && MnemonicAt(0x118) == BRHNZ
  {
  }

  lemma SpuBranchesKnown()
    ensures BranchesKnown(SPU_IDB)
  {
    forall w: word
      ensures SPU_IDB.mnemonic(w) == BRZ <==> w / 0x80_0000 == 0x40
      ensures SPU_IDB.mnemonic(w) == BRNZ <==> w / 0x80_0000 == 0x42
      ensures SPU_IDB.mnemonic(w) == BRHZ <==> w / 0x80_0000 == 0x44
      ensures SPU_IDB.mnemonic(w) == BRHNZ <==> w / 0x80_0000 == 0x46
      ensures IsConditional(w) ==> SPU_IDB.imm(w) == Offset(w)
    {
      ConditionalWord(w);
    }
  }

  lemma BranchAtIs(idb: Idb, code: seq<word>, p: nat)
    requires p < |code| < 0x4000_0000 && IsConditional(code[p]) && idb.imm(code[p]) == Offset(code[p])
    ensures BranchAt(idb, code, p) == BranchFrom(code[p], p)
  {
    SmallOffset(Offset(code[p]), p);
  }

  lemma SmallOffset(d: int, p: nat)
    requires -0x8000 <= d < 0x8000 && p < 0x4000_0000
    ensures ToInt32(d) == d && p % TWO_32 == p && (p + 1) % TWO_32 == p + 1
    ensures d > 0 ==> (p + d) % TWO_32 == p + d
  {
  }

  /** The branches of one mnemonic, by a direct scan. */
  function BranchesOf(idb: Idb, code: seq<word>, m: Option<nat>): seq<Branch> {
    if code == [] then []
    else
      var n := |code| - 1;
      BranchesOf(idb, code[..n], m) + if idb.mnemonic(code[n]) == m then [BranchAt(idb, code, n)] else []
  }

  /** They are what the index of the mnemonic gives. */
  lemma {:induction false} BranchesOfIndex(idb: Idb, code: seq<word>, m: Option<nat>)
    ensures forall i :: i in Positions(idb, code, m) ==> i < |code|
    ensures BranchesAt(idb, code, Positions(idb, code, m)) == BranchesOf(idb, code, m)
  {
    PositionsExact(idb, code, m);
    if code != [] {
      var n := |code| - 1;
      BranchesOfIndex(idb, code[..n], m);
      SameBranches(idb, code, n, Positions(idb, code[..n], m));
    }
  }

  lemma SameBranches(idb: Idb, code: seq<word>, n: nat, positions: seq<nat>)
    requires n <= |code| && forall i :: i in positions ==> i < n
    ensures BranchesAt(idb, code[..n], positions) == BranchesAt(idb, code, positions)
  {
    forall k | 0 <= k < |positions|
      ensures BranchesAt(idb, code[..n], positions)[k] == BranchesAt(idb, code, positions)[k]
    {
      assert positions[k] in positions;
    }
  }

  /** A word is a branch of at most one of the four mnemonics. */
  lemma OneMnemonic(idb: Idb, code: seq<word>, n: nat, a: seq<Branch>, b: seq<Branch>, c: seq<Branch>, d: seq<Branch>)
    requires BranchesKnown(idb) && n < |code| < 0x4000_0000
    requires a == if idb.mnemonic(code[n]) == BRZ then [BranchAt(idb, code, n)] else []
    requires b == if idb.mnemonic(code[n]) == BRNZ then [BranchAt(idb, code, n)] else []
    requires c == if idb.mnemonic(code[n]) == BRHZ then [BranchAt(idb, code, n)] else []
    requires d == if idb.mnemonic(code[n]) == BRHNZ then [BranchAt(idb, code, n)] else []
    ensures (if IsConditional(code[n]) then [BranchFrom(code[n], n)] else []) == a + b + c + d
  {
    if IsConditional(code[n]) {
      BranchAtIs(idb, code, n);
    }
  }

  lemma MergeFour(a: seq<Branch>, b: seq<Branch>, c: seq<Branch>, d: seq<Branch>,
                  a': seq<Branch>, b': seq<Branch>, c': seq<Branch>, d': seq<Branch>)
    ensures multiset((a + a') + (b + b') + (c + c') + (d + d')) == multiset(a + b + c + d) + multiset(a' + b' + c' + d')
  {
  }

  /** The branches gathered mnemonic by mnemonic are those of the direct scan. */
  lemma {:induction false} GatheredIsScanned(idb: Idb, code: seq<word>)
    requires BranchesKnown(idb) && |code| < 0x4000_0000
    ensures multiset(ConditionalBranches(code))
         == multiset(BranchesOf(idb, code, BRZ) + BranchesOf(idb, code, BRNZ)
            + BranchesOf(idb, code, BRHZ) + BranchesOf(idb, code, BRHNZ))
  {
    if code != [] {
      var n := |code| - 1;
      var front, x, m := code[..n], BranchAt(idb, code, n), idb.mnemonic(code[n]);
      var a, b := if m == BRZ then [x] else [], if m == BRNZ then [x] else [];
      var c, d := if m == BRHZ then [x] else [], if m == BRHNZ then [x] else [];
      GatheredIsScanned(idb, front);
      OneMnemonic(idb, code, n, a, b, c, d);
      MergeFour(BranchesOf(idb, front, BRZ), BranchesOf(idb, front, BRNZ), BranchesOf(idb, front, BRHZ),
                BranchesOf(idb, front, BRHNZ),
                a, b, c, d);
    }
  }

  /** spuGatherStaticBranches on a program, from nothing: the sorted branches are those of the direct scan,
      and collected are the forward ones whose block no later block begins in. */
  method BranchesWith(idb: Idb, program: Program) returns (info: SpuInfo, brIf: seq<Branch>)
    requires program.Valid() && BranchesKnown(idb) && |ConditionalBranches(program.Binary)| >= 2
    ensures Sorted(info.staticBranches)
    ensures multiset(info.staticBranches) == multiset(ConditionalBranches(program.Binary))
    ensures brIf == KeptAmong(info.staticBranches, |info.staticBranches|)
  {
    info := new SpuInfo();
    info.GatherProgramHeuristics(idb, program);
    IndexedFromNothing(idb, program.Binary, info.heuristics);
    brIf := info.GatherStaticBranches(idb, program);
  }

  lemma IndexedFromNothing(idb: Idb, code: seq<word>, h: Heuristics)
    requires BranchesKnown(idb) && |code| < 0x4000_0000 && Indexed(map[], idb, code, h)
    ensures BranchesIndexed(h, code) && |IndexedBranches(idb, code, h)| == |ConditionalBranches(code)|
    ensures multiset(IndexedBranches(idb, code, h)) == multiset(ConditionalBranches(code))
  {
    forall m: Option<nat>
      ensures Index(h, m) == Positions(idb, code, m)
      ensures forall i :: i in Positions(idb, code, m) ==> i < |code|
      ensures BranchesAt(idb, code, Positions(idb, code, m)) == BranchesOf(idb, code, m)
    {
      BranchesOfIndex(idb, code, m);
    }
    EnoughBranches(idb, code);
  }

  lemma EnoughBranches(idb: Idb, code: seq<word>)
    requires BranchesKnown(idb) && |code| < 0x4000_0000
    ensures var all := BranchesOf(idb, code, BRZ) + BranchesOf(idb, code, BRNZ)
                       + BranchesOf(idb, code, BRHZ) + BranchesOf(idb, code, BRHNZ);
            multiset(ConditionalBranches(code)) == multiset(all) && |all| == |ConditionalBranches(code)|
  {
    GatheredIsScanned(idb, code);
    assert |multiset(ConditionalBranches(code))| == |ConditionalBranches(code)|;
  }

  /** Where a branch stands: at the beginning of its block, or at the end if it jumps back. */
  function Standing(b: Branch): int { if b.AdvanceAmount > 0 then b.BranchBlockBegin else b.BranchBlockEnd - 1 }

  /** `b` is the conditional branch at position `p`. */
  ghost predicate StandsAt(code: seq<word>, b: Branch, p: int)
    requires |code| < 0x4000_0000
  {
    0 <= p < |code| && IsConditional(code[p]) && b == BranchFrom(code[p], p)
  }

  lemma {:induction false} ScannedOnce(code: seq<word>, b: Branch)
    requires |code| < 0x4000_0000
    ensures b in ConditionalBranches(code) <==> StandsAt(code, b, Standing(b))
    ensures multiset(ConditionalBranches(code))[b] <= 1
  {
    if code != [] {
      ScannedOnce(code[..|code| - 1], b);
    }
  }

  lemma InSorted(sorted: seq<Branch>, scanned: seq<Branch>, b: Branch)
    requires multiset(sorted) == multiset(scanned)
    ensures b in sorted <==> b in scanned
  {
    assert b in multiset(sorted) <==> b in multiset(scanned);
  }

  lemma {:induction false} CountedTwice(s: seq<Branch>, i: nat, j: nat)
    requires i < j < |s| && s[i] == s[j]
    ensures multiset(s)[s[i]] >= 2
  {
    var rest := s[..j] + s[j + 1..];
    assert s == s[..j] + [s[j]] + s[j + 1..];
    assert multiset(s) == multiset(rest) + multiset{s[j]};
    assert rest[i] == s[i] && s[i] in rest;
  }

  /** The sorted branches are those of the scan, each once. */
  ghost predicate Scanned(code: seq<word>, sorted: seq<Branch>)
    requires |code| < 0x4000_0000
  {
    multiset(sorted) == multiset(ConditionalBranches(code))
  }

  lemma SortedStands(code: seq<word>, sorted: seq<Branch>, k: nat)
    requires |code| < 0x4000_0000 && Scanned(code, sorted) && k < |sorted|
    ensures StandsAt(code, sorted[k], Standing(sorted[k]))
    ensures forall j :: k < j < |sorted| ==> sorted[j] != sorted[k]
  {
    InSorted(sorted, ConditionalBranches(code), sorted[k]);
    ScannedOnce(code, sorted[k]);
    forall j | k < j < |sorted|
      ensures sorted[j] != sorted[k]
    {
      if sorted[j] == sorted[k] {
        CountedTwice(sorted, k, j);
      }
    }
  }

  lemma StandsInSorted(code: seq<word>, sorted: seq<Branch>, p: nat)
    requires |code| < 0x4000_0000 && Scanned(code, sorted) && p < |code| && IsConditional(code[p])
    ensures BranchFrom(code[p], p) in sorted && Standing(BranchFrom(code[p], p)) == p
  {
    InSorted(sorted, ConditionalBranches(code), BranchFrom(code[p], p));
    ScannedOnce(code, BranchFrom(code[p], p));
  }

  /** The positions of the sorted branches, in their order: each conditional branch of the program once. */
  lemma PositionsOfSorted(code: seq<word>, sorted: seq<Branch>) returns (at: seq<int>)
    requires |code| < 0x4000_0000 && Scanned(code, sorted)
    ensures |at| == |sorted| && forall k :: 0 <= k < |at| ==> StandsAt(code, sorted[k], at[k])
    ensures forall p :: 0 <= p < |code| && IsConditional(code[p]) ==> p in at
    ensures forall i, j :: 0 <= i < j < |at| ==> at[i] != at[j]
  {
    at := seq(|sorted|, k requires 0 <= k < |sorted| => Standing(sorted[k]));
    forall k | 0 <= k < |at|
      ensures StandsAt(code, sorted[k], at[k])
      ensures forall j :: k < j < |sorted| ==> sorted[j] != sorted[k]
    {
      SortedStands(code, sorted, k);
    }
    forall p | 0 <= p < |code| && IsConditional(code[p])
      ensures p in at
    {
      StandsInSorted(code, sorted, p);
      var k :| 0 <= k < |sorted| && sorted[k] == BranchFrom(code[p], p);
      assert at[k] == p;
    }
  }

  lemma {:induction false} CollectedIff(s: seq<Branch>, n: nat, b: Branch)
    requires n <= |s|
    ensures b in KeptAmong(s, n) <==> exists k :: 0 <= k < n && s[k] == b && Kept(s, k)
  {
    if n > 0 {
      CollectedIff(s, n - 1, b);
      if Kept(s, n - 1) {
        assert b == s[n - 1] ==> s[n - 1] == b && Kept(s, n - 1);
      }
    }
  }

  /** The collected branches are the forward ones whose block ends before any later block begins. */
  lemma CollectedByBlocks(s: seq<Branch>, k: nat)
    requires Sorted(s) && k < |s| && forall i, j :: 0 <= i < j < |s| ==> s[i] != s[j]
    ensures s[k] in KeptAmong(s, |s|)
       <==> s[k].AdvanceAmount > 0 && forall j :: k < j < |s| ==> s[k].BranchBlockEnd <= s[j].BranchBlockBegin
  {
    CollectedIff(s, |s|, s[k]);
    if s[k].AdvanceAmount > 0 && forall j :: k < j < |s| ==> s[k].BranchBlockEnd <= s[j].BranchBlockBegin {
      assert Kept(s, k);
    }
    if Kept(s, k) {
      forall j | k < j < |s|
        ensures s[k].BranchBlockEnd <= s[j].BranchBlockBegin
      {
        assert !Overlaps(s[k], s[j]);
      }
    }
  }

  /** The same by bits: each word with the upper nine bits of a conditional branch once, with its block. */
  lemma BranchesByBits(code: seq<word>, sorted: seq<Branch>) returns (at: seq<int>)
    requires |code| < 0x4000_0000 && Scanned(code, sorted)
    ensures |at| == |sorted| && forall i, j :: 0 <= i < j < |at| ==> at[i] != at[j]
    ensures forall p :: p in at <==> 0 <= p < |code| && code[p] / 0x80_0000 in {0x40, 0x42, 0x44, 0x46}
    ensures forall k :: 0 <= k < |at| ==> 0 <= at[k] < |code| && JumpsOver(sorted[k], code[at[k]], at[k])
  {
    at := PositionsOfSorted(code, sorted);
    forall k | 0 <= k < |at|
      ensures 0 <= at[k] < |code| && JumpsOver(sorted[k], code[at[k]], at[k])
    {
      assert StandsAt(code, sorted[k], at[k]);
      BranchJumpsOver(code[at[k]], at[k]);
    }
  }

  lemma AllCollected(s: seq<Branch>)
    requires Sorted(s) && forall i, j :: 0 <= i < j < |s| ==> s[i] != s[j]
    ensures forall k :: 0 <= k < |s| ==>
                          (s[k] in KeptAmong(s, |s|)
                           <==> s[k].AdvanceAmount > 0
                                && forall j :: k < j < |s| ==> s[k].BranchBlockEnd <= s[j].BranchBlockBegin)
  {
    forall k | 0 <= k < |s|
      ensures s[k] in KeptAmong(s, |s|)
         <==> s[k].AdvanceAmount > 0 && forall j :: k < j < |s| ==> s[k].BranchBlockEnd <= s[j].BranchBlockBegin
    {
      CollectedByBlocks(s, k);
    }
  }

  lemma SortedOnce(code: seq<word>, sorted: seq<Branch>)
    requires |code| < 0x4000_0000 && Scanned(code, sorted)
    ensures forall i, j :: 0 <= i < j < |sorted| ==> sorted[i] != sorted[j]
  {
    forall i, j | 0 <= i < j < |sorted|
      ensures sorted[i] != sorted[j]
    {
      SortedStands(code, sorted, i);
    }
  }

  /** spuGatherStaticBranches on a program, from nothing. `at` is where the sorted branches stand: each word with
      the upper nine bits of a conditional branch once, its block being the words from it up to its target, or from
      its target up to and with it. Collected are the forward branches whose block ends before any later one begins. */
  method FindBranches(program: Program) returns (info: SpuInfo, brIf: seq<Branch>, ghost at: seq<int>)
    requires program.Valid() && |ConditionalBranches(program.Binary)| >= 2
    ensures Sorted(info.staticBranches) && Disjoint(brIf)
    ensures multiset(info.staticBranches) == multiset(ConditionalBranches(program.Binary))
    ensures brIf == KeptAmong(info.staticBranches, |info.staticBranches|)
    ensures |at| == |info.staticBranches| && forall i, j :: 0 <= i < j < |at| ==> at[i] != at[j]
    ensures var code := program.Binary;
            forall p :: p in at <==> 0 <= p < |code| && code[p] / 0x80_0000 in {0x40, 0x42, 0x44, 0x46}
    ensures var code, sorted := program.Binary, info.staticBranches;
            forall k :: 0 <= k < |at| ==> 0 <= at[k] < |code| && JumpsOver(sorted[k], code[at[k]], at[k])
    ensures var s := info.staticBranches;
            forall k :: 0 <= k < |s| ==>
                          (s[k] in brIf
                           <==> s[k].AdvanceAmount > 0
                                && forall j :: k < j < |s| ==> s[k].BranchBlockEnd <= s[j].BranchBlockBegin)
  {
    SpuBranchesKnown();
    info, brIf := BranchesWith(SPU_IDB, program);
    ghost var sorted := info.staticBranches;
    at := BranchesByBits(program.Binary, sorted);
    SortedOnce(program.Binary, sorted);
    AllKeptDisjoint(sorted);
    AllCollected(sorted);
  }
}
