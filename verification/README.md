# Verification of the SPU tools

A Dafny model of x86 code for the SPU instruction set (Synergistic Processor Unit Instruction Set
Architecture, version 1.2, chapters 3, 5 and 6) and of the analysers of SPU binaries beside it, with proofs
of what the code does.

A register is sixteen bytes, the least significant at index 0, read as bytes, halfwords or words in
little-endian lanes; machine words are natural numbers below 2^32 and every wrap-around is written out.
The modules:

- `Bits`, `Vectors`: bitwise operations and shifts on numbers by recursion on bits; registers and their lanes.
- `SseExtensions`, `BitCounting`, `LeadingZeros`, `WordArithmetic`, `VectorU32`: the lane operations that SSE
  lacks, and the carries, borrows and counts built from them. `VectorU32` is the class with the compound
  operators, the rest is pure as in the source.
- `QuadValue`, `SpuState`, `Shift`, `RotMask`, `Rotate`, `FormSelect`, `LocalStore`: the class `Spu` with its
  register file and local store, the handlers that change them in place, and the 128-bit numbers and the
  memory of quadwords that say what they do.
- `Wrappers`, `InstructionTable`, `OperandReading`, `WordFields`, `Decoder`, `Assembler`, `InstructionWords`: the
  instruction list, the tables built from it, reading operands, the fields of an instruction word, decoding and
  encoding, and what all this is in bits. A mnemonic is named by the number of the
  first row of `src/spu-insns.h` with its text, counting from 0.
- `ProgramAnalysis`, `BasicBlocks`, `ProgramDecoding`: the mnemonic index, function ranges, basic blocks and
  forward branches of a program, first for any instruction database and then for the real one.
- `RangePlanner`, `MappedFileRegistry`, `PseudoText`, `ByteReversal`, `StringTable`: bookkeeping of ranges and
  of mapped files, text replacement, byte order and string tables of ELF files.

Where the code and what is said about it differ, the model follows the code:

- The comment on `COPY_LSA_TO_GPR` (`src/spu_emu_mem.cpp:7`) speaks of reversing bytes; the intrinsics reverse
  the four words and keep the bytes of each. The cells of the simple machine are the quadwords in this order.
- `si_clz` exchanges the counts of words 1 and 2; `si_cgx` misjudges the carry on the inputs stated; `si_bgx`
  never looks at RA. The exact conditions are proved.
- `spu_rotqbii` shifts a 64-bit number by 64 at count 0, which C++ leaves undefined. The model has what the
  machine gives for that shift as a parameter.
- `spu_rotqbyi` with RT equal to RA reads bytes it has already written; what comes out, and when that is still
  a rotation, is proved.
- The row of "mtspr" is overwritten by the later row of "syscall", so the assembler does not know "mtspr".
- The decoder tests for RI18 where RI8 is meant (`src/spu_idb.cpp:496`), so an RI8 word whose immediate has its
  top bit set decodes to the unused opcode 0x7FF.
- The assembler takes RA of an LBTI word from the slot of the 16-bit immediate, but the operand is read into
  the slot of RA (`src/spu_assembler.cpp:180`). "hbr", the one such row, does not fill the former, so its
  register comes back only if it is 0.
- The assembler reads every argument list of an opcode, the later ones from what is left of the text
  (`src/spu_assembler.cpp:80`). For "hgt", "hlgt", "heq", their immediate forms and "fscrwr" the second list
  overwrites operands with 0; "syscall" gives its first operands to the list of "mtspr".

## Model

| member | source | states |
|---|---|---|
| `SseExtensions.LtEpu32Correct` | src/sse_extensions.h:121-133 | `_mm_cmplt_epu32`, which compares halves and then lowest bits, is the unsigned order of words |
| `SseExtensions.GtEpu32Correct` | src/sse_extensions.h:135-146 | `_mm_cmpgt_epu32` is the unsigned order, the other way round |
| `SseExtensions.GtEpu16Correct` | src/sse_extensions.h:148-158 | the same for halfwords |
| `SseExtensions.UnsignedComparisons` | src/sse_extensions.h:121-158 | the three comparisons on whole registers: every lane is all ones or all zeros by the unsigned order |
| `BitCounting.CmpGtEpu8Correct` | src/sse_extensions.h:160-170 | the byte comparison, built from word shifts under byte masks, is the unsigned order of every byte |
| `BitCounting.SwarByte` | src/sse_extensions.h:180-182 | counting pairs, then nibbles, then the byte gives the number of one bits of a byte |
| `BitCounting.CntbEpui8Correct` | src/sse_extensions.h:174-183 | every byte of `_mm_cntb_epui8` is the population count of that byte |
| `BitCounting.ByteCountsCorrect` | src/sse_extensions.h:192-194 | the same for the variant with word shifts, in which bits cross byte borders before they are masked off |
| `LeadingZeros.SumByMultiplication` | src/sse_extensions.h:196-201 | multiplying by 0x01010101 adds the four byte counts in the top byte, without overflow between bytes |
| `LeadingZeros.CountOfWord` | src/sse_extensions.h:185-202 | the word count from the byte counts is the population count of the word |
| `LeadingZeros.CntbEpi32Words` | src/sse_extensions.h:185-202 | `_mm_cntb_epi32` puts the count of words 0 and 3 in place and exchanges those of words 1 and 2 |
| `LeadingZeros.ClzMeaning` | src/spu_internals_x86.h:291-300 | the reference: the count of leading zeros of `w` is the one `k` with `2^(31-k) <= w < 2^(32-k)`, or 32 for zero |
| `LeadingZeros.SmearedWord` | src/spu_internals_x86.h:293-297 | five smearing steps turn a word into `2^k - 1`, `k` its bit length |
| `LeadingZeros.SiClzWords` | src/spu_internals_x86.h:291-300 | `si_clz` gives the leading-zero counts of words 0, 2, 1, 3 in this order |
| `LeadingZeros.SiClzInPlaceIff` | src/spu_internals_x86.h:291-300 | exact condition: `si_clz` is right in every lane if and only if words 1 and 2 have equally many leading zeros |
| `LeadingZeros.SiClzExchanges` | src/spu_internals_x86.h:291-300 | a register on which `si_clz` is wrong |
| `LeadingZeros.SiCntbCorrect` | src/spu_internals_x86.h:286-289 | `si_cntb` counts the one bits of every byte |
| `WordArithmetic.HalvedSum` | src/spu_internals_x86.h:100-105 | the halves plus the common lowest bit are half the true sum, which no addition of words overflows |
| `WordArithmetic.AddxLaneSum` | src/spu_internals_x86.h:90-93 | `si_addx` is the sum with the lowest bit of RT, modulo 2^32 |
| `WordArithmetic.CgLaneCarry` | src/spu_internals_x86.h:99-106 | `si_cg` is the carry out of the addition |
| `WordArithmetic.CgxLaneExactIff` | src/spu_internals_x86.h:117-126 | exact condition: `si_cgx` is the true carry if and only if not (carry in 1 and either a + b = 2^32 - 2 or a = b = 2^32 - 1) |
| `WordArithmetic.CgxInventsCarry` | src/spu_internals_x86.h:117-126 | an input on which `si_cgx` reports a carry there is not |
| `WordArithmetic.CgxLosesCarry` | src/spu_internals_x86.h:117-126 | an input on which `si_cgx` loses a carry |
| `WordArithmetic.BgLaneBorrow` | src/spu_internals_x86.h:151-156 | `si_bg` is 0 exactly when RB - RA borrows |
| `WordArithmetic.BgxLaneExactIff` | src/spu_internals_x86.h:158-166 | exact condition: `si_bgx`, which never looks at RA, is the true borrow if and only if RA <= RB when no borrow comes in, or 0 < RB <= RA when one does |
| `WordArithmetic.BgxMissesBorrow` | src/spu_internals_x86.h:158-166 | an input, 0 - 1, on which `si_bgx` misses the borrow |
| `WordArithmetic.SfxLaneDifference` | src/spu_internals_x86.h:168-175 | `si_sfx` is the difference less the borrow, modulo 2^32 |
| `WordArithmetic.Add64` | src/spu_internals_x86.h:80-106 | for all inputs, `si_a` on the low words and `si_addx` on the high words with the carry of `si_cg` is 64-bit addition in every lane |
| `WordArithmetic.Sub64` | src/spu_internals_x86.h:141-175 | for all inputs, `si_sf` and `si_sfx` with the borrow of `si_bg` is 64-bit subtraction in every lane |
| `WordArithmetic.RippleError` | src/spu_internals_x86.h:90-126 | for numbers of any length, rippling `si_addx` and `si_cgx` misses the sum by a multiple of 2^32 that is zero exactly when no limb meets a misjudged carry |
| `WordArithmetic.RippleExactIff` | src/spu_internals_x86.h:90-126 | rippling gives the exact sum and carry in a lane if and only if no limb, at the true carry, is one of the misjudged ones |
| `WordArithmetic.SubtractError` | src/spu_internals_x86.h:158-175 | for numbers of any length, rippling `si_sfx` and `si_bgx` misses the difference by a multiple of 2^32 that is zero exactly when no limb meets a misjudged borrow |
| `WordArithmetic.SubtractExactIff` | src/spu_internals_x86.h:158-175 | rippling gives the exact difference and borrow in a lane if and only if no limb, at the true borrow, is one of the misjudged ones |
| `VectorU32.VU32.AddAssign` | src/sse_extensions.h:32-36 | `+=` replaces each word by its sum with the other word modulo 2^32 |
| `VectorU32.VU32.AndAssign` | src/sse_extensions.h:56 | `&=`, taken byte by byte, replaces each word by its bitwise and with the other word |
| `VectorU32.Plus` | src/sse_extensions.h:68-73 | `+` leaves its operand and returns the word-wise sum modulo 2^32 |
| `VectorU32.SiAByOperators` | src/spu_internals_x86.h:80-83 | `si_a` written with the operators is the word-wise sum |
| `VectorU32.SiAddxByOperators` | src/spu_internals_x86.h:90-94 | `si_addx` written with the operators is `SiAddx` |
| `VectorU32.SiCgByOperators` | src/spu_internals_x86.h:99-106 | `si_cg` written with the operators is `SiCg` |
| `SpuState.SignExtendIsFieldValue` | src/spu_emu.h:90-94 | shifting left and arithmetically right reads a field in two's complement, for every field width |
| `SpuState.PrefSlotBytes` | src/spu_emu.h:97-97 | the preferred slot of a register is its top four bytes |
| `Shift.Shlqbyi` | src/spu_emu_shift.cpp:145-153 | the descending loop shifts the old RA left by the low five bits of I7, RT equal to RA or not, and touches no other register |
| `Shift.Shlqby` | src/spu_emu_shift.cpp:155-159 | the same by the count in the preferred slot of RB, read before RT is written |
| `Shift.Shlqbybi` | src/spu_emu_shift.cpp:161-168 | the same by the count in bits, divided by eight |
| `QuadValue.ShlBytesValue` | src/spu_emu_shift.cpp:145-153 | a shift left by s bytes is the value times 256^s modulo 2^128 |
| `QuadValue.ShrBytesValue` | src/spu_emu_rotmask.cpp:78-90 | a shift right by s bytes is the value divided by 256^s, rounded down |
| `QuadValue.ShlThenShr` | src/spu_emu_shift.cpp:145-153 | left and right by s <= 16 bytes is the value modulo 256^(16-s) |
| `RotMask.Rotqmbyi` | src/spu_emu_rotmask.cpp:78-90 | the ascending loop shifts the old RA right by the negated count modulo 32, RT equal to RA or not |
| `RotMask.Rotqmby` | src/spu_emu_rotmask.cpp:92-110 | the same by the count in the preferred slot of RB |
| `RotMask.Rotqmbybi` | src/spu_emu_rotmask.cpp:112-130 | the same by the count in bits, divided by eight |
| `RotMask.ShiftUpAndDown` | src/spu_emu_rotmask.cpp:78-90 | running the left and then the right shift handler clears the top bytes, for any aliasing of the three registers |
| `Rotate.FunnelRotates` | src/spu_emu_rot.cpp:37-48 | the two shifted and joined doublewords are a 128-bit left rotation by one to seven bits |
| `Rotate.Rotqbii` | src/spu_emu_rot.cpp:37-48 | `spu_rotqbii` rotates the old RA, in place, by the low three bits of I7; at 0, where it shifts by 64, each half is joined with whatever the machine gives for that shift |
| `Rotate.UnrotatedIff` | src/spu_emu_rot.cpp:37-48 | exact condition: at count 0 the register comes out unchanged if and only if every bit that the shift by 64 gives for one half is set in the other half |
| `Bits.OrKeepsIff` | src/spu_emu_rot.cpp:42-43 | joining two numbers keeps the first if and only if every bit of the second is one of the first |
| `Rotate.HarmlessMachines` | src/spu_emu_rot.cpp:42-43 | it does on a machine that shifts everything out, and on one that takes counts modulo 64 exactly for a register of two equal halves |
| `Rotate.Rotqbi` | src/spu_emu_rot.cpp:50-58 | `spu_rotqbi` does the same by the low three bits of the preferred slot of RB, for every count |
| `Rotate.Rotqbyi` | src/spu_emu_rot.cpp:60-76 | `spu_rotqbyi` rotates by bytes; with RT equal to RA it reads bytes it has already written, and the result is the one stated |
| `Rotate.RotBytesOntoSelfIff` | src/spu_emu_rot.cpp:60-76 | exact condition: with RT equal to RA the result is a rotation if and only if the count s is 0 or the lower bytes repeat the top s |
| `Rotate.OntoSelfDiffers` | src/spu_emu_rot.cpp:60-76 | a register on which it is not: the bytes 0 to 15 all become 15 |
| `Rotate.Rotqby` | src/spu_emu_rot.cpp:78-86 | the same by the count in the preferred slot of RB |
| `Rotate.Rotqbybi` | src/spu_emu_rot.cpp:88-95 | the same by the count in bits, divided by eight |
| `QuadValue.RotBytesValue` | src/spu_emu_rot.cpp:60-76 | moving bytes around is a 128-bit left rotation by whole bytes |
| `QuadValue.RotlTwice` | src/spu_emu_rot.cpp:37-95 | rotating by m and by n bits is rotating by m + n |
| `QuadValue.RotlBit` | src/spu_emu_rot.cpp:37-95 | bit i of a number rotated left by n is bit i - n modulo 128 of the number |
| `Rotate.RotateByCount` | src/spu_emu_rot.cpp:37-95 | what `spu_rotqbybi` and then `spu_rotqbi` with the same count register leave, for every count and any aliasing; through a third register and with a count n that is no multiple of eight, the 128-bit left rotation by n modulo 128 |
| `Rotate.RotatedByCountIff` | src/spu_emu_rot.cpp:37-95 | exact condition through a third register, for every count: the count is no multiple of eight, or every bit left over at count 0 is one of the other half |
| `Rotate.RotatedThroughSourceIff` | src/spu_emu_rot.cpp:37-95 | exact condition through the source register: where nothing harmful is left over, that the bytes came out right; at a remaining count of 0, on any machine, that the bits left over complete the rotation at every place |
| `Rotate.RotatedThroughCountIff` | src/spu_emu_rot.cpp:37-95 | exact condition through the count register: where nothing harmful is left over, that the difference of the counts rotates the source onto itself; if the count found is 0, on any machine, that the bits left over complete the rotation |
| `Rotate.RotatedThroughBothIff` | src/spu_emu_rot.cpp:37-95 | exact condition with one register for all three, on its first value: where nothing harmful is left over, that no byte moves or the bits of the register repeat as stated; if the count found is 0, on any machine, that the bits left over complete the rotation |
| `Rotate.OntoIsRotationIff` | src/spu_emu_rot.cpp:60-76 | a register rotated onto itself by bytes is its rotation by u bits if and only if at every place the bit that is read is the bit u places below |
| `Rotate.RotlInjective` | src/spu_emu_rot.cpp:37-95 | a rotation loses nothing |
| `FormSelect.FsmbMaskIsSelect` | src/spu_emu_int_misc.cpp:19-29 | byte p of the result of `spu_fsmb` is 0xFF exactly when bit p of the low sixteen bits is one |
| `FormSelect.Fsmb` | src/spu_emu_int_misc.cpp:19-29 | `spu_fsmb` forms that mask from the old RA in RT and keeps the other registers |
| `FormSelect.Fsmh` | src/spu_emu_int_misc.cpp:31-37 | the same for eight halfwords |
| `FormSelect.Fsm` | src/spu_emu_int_misc.cpp:39-45 | the same for four words |
| `FormSelect.SelectedByte` | src/spu_emu_int_misc.cpp:19-29 | bit i decides byte i of the mask |
| `FormSelect.SelectedHalf` | src/spu_emu_int_misc.cpp:19-29 | bit i decides halfword i |
| `FormSelect.SelectedWord` | src/spu_emu_int_misc.cpp:19-29 | bit i decides word i |
| `FormSelect.Gbb` | src/spu_emu_int_misc.cpp:47-55 | `spu_gbb` gathers the lowest bits of the sixteen bytes of the old RA in the preferred slot and clears the rest |
| `FormSelect.Gbh` | src/spu_emu_int_misc.cpp:57-65 | the same for halfwords |
| `FormSelect.Gb` | src/spu_emu_int_misc.cpp:67-75 | the same for words |
| `FormSelect.GatheredBytes` | src/spu_emu_int_misc.cpp:47-55 | the lowest bit of byte i becomes bit i, and there are no others |
| `FormSelect.GatheredHalves` | src/spu_emu_int_misc.cpp:47-55 | the same for halfwords |
| `FormSelect.GatheredWords` | src/spu_emu_int_misc.cpp:47-55 | the same for words |
| `FormSelect.GatherSelectedBytes` | src/spu_emu_int_misc.cpp:19-55 | gathering a byte mask gives back the low sixteen bits it was formed from, for every register |
| `FormSelect.GatherSelectedHalves` | src/spu_emu_int_misc.cpp:31-65 | the same for halfwords and eight bits |
| `FormSelect.GatherSelectedWords` | src/spu_emu_int_misc.cpp:39-75 | the same for words and four bits |
| `FormSelect.SelectGatheredBytesIff` | src/spu_emu_int_misc.cpp:19-55 | forming the mask of the gathered bits gives a register back if and only if its bytes are all 0x00 or 0xFF |
| `FormSelect.SelectGatheredHalvesIff` | src/spu_emu_int_misc.cpp:31-65 | the same for halfwords, 0x0000 or 0xFFFF |
| `FormSelect.SelectGatheredWordsIff` | src/spu_emu_int_misc.cpp:39-75 | the same for words, all zeros or all ones |
| `FormSelect.SelectThenGatherBytes` | src/spu_emu_int_misc.cpp:19-55 | running `spu_fsmb` and then `spu_gbb` leaves the low sixteen bits, for any aliasing of the three registers |
| `FormSelect.SelectThenGatherHalves` | src/spu_emu_int_misc.cpp:31-65 | the same for `spu_fsmh` and `spu_gbh` and eight bits |
| `FormSelect.SelectThenGatherWords` | src/spu_emu_int_misc.cpp:39-75 | the same for `spu_fsm` and `spu_gb` and four bits |
| `FormSelect.GatherThenSelectBytes` | src/spu_emu_int_misc.cpp:19-55 | running `spu_gbb` and then `spu_fsmb` gives the source back if and only if its bytes are all 0x00 or 0xFF, for any aliasing |
| `FormSelect.GatherThenSelectHalves` | src/spu_emu_int_misc.cpp:31-65 | the same for halfwords |
| `FormSelect.GatherThenSelectWords` | src/spu_emu_int_misc.cpp:39-75 | the same for words |
| `LocalStore.DisplacementOfI10` | src/spu_emu_mem.cpp:22 | sign extension of the shifted I10 is sixteen times the field in two's complement |
| `LocalStore.DisplacementOfI16` | src/spu_emu_mem.cpp:42 | sign extension of the shifted I16 is four times the field in two's complement |
| `LocalStore.AddressOfSum` | src/spu_emu_mem.cpp:20-56 | the masked 32-bit sum is the byte address of the quadword that holds the exact sum modulo 2^18: aligned, and in bounds, whatever the registers, immediate and IP |
| `LocalStore.WordsReversed` | src/spu_emu_mem.cpp:9-10 | a load or store exchanges words 0 and 3 and words 1 and 2 and keeps the bytes of each, and doing it twice is the identity |
| `LocalStore.CopyToGpr` | src/spu_emu_mem.cpp:7-10 | a load sets one register to the cell, and its bytes are the words at the address in reverse order |
| `LocalStore.CopyToStore` | src/spu_emu_mem.cpp:7-10 | a store sets one cell to the register and no other; the words of the register stand at the address in reverse order and every other byte is as before |
| `LocalStore.LoadedWord` | src/spu_emu_mem.cpp:7-10 | word i of a loaded register is the four bytes of the local store at 12 - 4 i of the aligned address, in place |
| `LocalStore.StoredWord` | src/spu_emu_mem.cpp:7-10 | a store puts word i of the register there |
| `LocalStore.StoredElsewhere` | src/spu_emu_mem.cpp:7-10 | and changes no byte of another quadword |
| `LocalStore.LqdHandler` | src/spu_emu_mem.cpp:20-28 | a step of the quadword machine, which loads RT from the bytes of the local store at the preferred slot of RA plus sixteen times the signed I10, aligned and modulo its size |
| `LocalStore.LqxHandler` | src/spu_emu_mem.cpp:30-38 | a step of the quadword machine, which loads RT from the bytes of the local store at the sum of two preferred slots, aligned and modulo its size |
| `LocalStore.LqaHandler` | src/spu_emu_mem.cpp:40-48 | a step of the quadword machine, which loads RT from the bytes of the local store at four times the signed I16, aligned and modulo its size |
| `LocalStore.LqrHandler` | src/spu_emu_mem.cpp:50-58 | a step of the quadword machine, which loads RT from the bytes of the local store at IP plus four times the signed I16, aligned and modulo its size |
| `LocalStore.StqdHandler` | src/spu_emu_mem.cpp:60-68 | a step of the quadword machine, which stores RT to the bytes of the local store at the preferred slot of RA plus sixteen times the signed I10, aligned and modulo its size |
| `LocalStore.StqxHandler` | src/spu_emu_mem.cpp:70-78 | a step of the quadword machine, which stores RT to the bytes of the local store at the sum of two preferred slots, aligned and modulo its size |
| `LocalStore.StqaHandler` | src/spu_emu_mem.cpp:80-88 | a step of the quadword machine, which stores RT to the bytes of the local store at four times the signed I16, aligned and modulo its size |
| `LocalStore.StqrHandler` | src/spu_emu_mem.cpp:90-98 | a step of the quadword machine, which stores RT to the bytes of the local store at IP plus four times the signed I16, aligned and modulo its size |
| `LocalStore.Run` | src/spu_emu_mem.cpp:20-98 | any run of the eight forms, with other register writes and jumps between them, refines the run of the simple machine |
| `LocalStore.LastStoreHeld` | src/spu_emu_mem.cpp:60-98 | over any run a cell holds the register the last store to it had, whatever the form of the store |
| `LocalStore.CellKept` | src/spu_emu_mem.cpp:60-98 | a cell that no action stores to is unchanged |
| `LocalStore.LoadAfterStore` | src/spu_emu_mem.cpp:20-98 | a load by any form after a run gives the register last stored to its cell by any form, and changes that register only |
| `LocalStore.LoadUnstored` | src/spu_emu_mem.cpp:20-58 | a load from a cell nothing was stored to gives its initial contents |
| `InstructionTable.OpcodePlaced` | src/spu-insns.h:136-413 | every index in use comes from a row with that opcode, aligned to the operand bits of its format |
| `InstructionTable.OpcodeAlone` | src/spu-insns.h:136-413 | the opcodes are prefix-free: no index within the operand bits of an opcode is in use |
| `InstructionTable.RowIndexed` | src/spu-insns.h:136-413 | every row is found at its opcode unless a later row took the index; only "mtspr" loses it, to "syscall" |
| `InstructionTable.RowNamed` | src/spu-insns.h:136-413 | rows with one mnemonic have one opcode; there are at most two, next to each other, of one format, and the list of the second lacks the first member of the other, or is that of "stop" |
| `InstructionTable.MnemonicsUnique` | src/spu-insns.h:136-413 | a mnemonic stands at no other index than its opcode |
| `InstructionTable.BuildOpDb` | src/spu_idb.cpp:437-464 | filling the tables row by row leaves at each index the format and mnemonic of the last row with that opcode, and the argument lists of all of them in order |
| `InstructionTable.BuiltTables` | src/spu_idb.cpp:437-464 | the filled tables are the ones the decoder is proved about |
| `InstructionTable.ListsOfMnemonic` | src/spu_idb.cpp:446-452 | the lists at the opcode of a mnemonic are those of its own forms, one or two |
| `InstructionTable.ListsOfSyscall` | src/spu_idb.cpp:446-452 | except that the list of "mtspr" stands in front of that of "syscall" |
| `WordFields.UnpackPack` | src/spu_emu.h:10-22 | fields that fit their widths are read back from the packed word, for every list of widths |
| `WordFields.PackUnpack` | src/spu_emu.h:10-22 | every word is the packing of its fields |
| `WordFields.TopField` | src/spu_emu.h:10-22 | dividing a word by the lower fields gives the last one |
| `Decoder.TypesPrefixFree` | src/spu_idb.cpp:471-502 | the table of formats is prefix-free as the decoder needs it |
| `Decoder.OneStart` | src/spu_idb.cpp:486-497 | in any prefix-free table no word starts with two opcodes |
| `Decoder.DecodesToStart` | src/spu_idb.cpp:471-502 | for any prefix-free table, a word that starts with an opcode decodes to it, except that an RI8 word whose top immediate bit is set decodes to 0x7FF |
| `Decoder.StartsWithDecoded` | src/spu_idb.cpp:471-502 | conversely, a word that decodes to an opcode in use starts with it, and with no operand bit set above it if the opcode is of format RI8 |
| `Assembler.FindOpcode` | src/spu_assembler.cpp:60-69 | the search from 0 stops at the one index with that mnemonic, and at 0x800 only if there is none |
| `OperandReading.ReadArguments` | src/spu_assembler.cpp:79-104 | the loops over all lists of an opcode and their members fill the array as the function of lists and numbers that the next rows are about |
| `OperandReading.SingleRead` | src/spu_assembler.cpp:79-104 | one list, alone, puts every operand into its slot, in the order of its members, with the shifted copies of addresses and displacements, and leaves every other slot 0; the parenthesis takes a number away, and the last register is read again from the exhausted stream |
| `OperandReading.AsGivenOnce` | src/spu_assembler.cpp:79-104 | no two arrays hold the same operands as given |
| `OperandReading.SlotsOfRegisters` | src/spu_assembler.cpp:79-104 | for each list of registers, the whole argument array from the numbers in the order of the text |
| `OperandReading.SlotsOfImmediates` | src/spu_assembler.cpp:79-104 | for each list with an immediate the same |
| `OperandReading.SlotsOfAddresses` | src/spu_assembler.cpp:79-104 | for each list with a displacement, an address or a branch position the same, with the shifted copies |
| `OperandReading.FirstFormIff` | src/spu_assembler.cpp:79-104 | exact condition: operands in the form of the first row of a mnemonic arrive as given if and only if it has no second form, or those the second form has too are 0: the second list is read from an exhausted stream |
| `OperandReading.SecondFormIff` | src/spu_assembler.cpp:79-104 | exact condition: operands in the form of the second row arrive as given if and only if all are 0 or the first form has none |
| `OperandReading.HaltLosesOperands` | src/spu-insns.h:281-282 | two texts whose operands do not arrive: "hgt" with 3, 4, 5 and "hgt" with 3, 4 |
| `OperandReading.SyscallIff` | src/spu_assembler.cpp:79-104 | exact condition: the three operands of "syscall" arrive as given if and only if they are equal, because the list of "mtspr" takes the first two |
| `Assembler.SetFields` | src/spu_assembler.cpp:107-184 | the assignments of the switch leave every field of the word set, whatever was in it before; where each field stands in the word is stated by the rows `Assembler.EncodedRegisters`, `Assembler.EncodedImmediates` and `Assembler.EncodedHints` |
| `Assembler.FieldsFit` | src/spu_assembler.cpp:107-184 | for all argument values the truncated fields fit their widths |
| `Assembler.FieldsEncode` | src/spu_assembler.cpp:107-184 | the decoder takes from the fields of an encoded word the opcode and the operands as two's complement numbers of their widths |
| `Assembler.EncodedRegisters` | src/spu_assembler.cpp:112-186 | the bits of an assembled RRR or RR word that each slot and the opcode go to, as a sum |
| `Assembler.EncodedImmediates` | src/spu_assembler.cpp:112-186 | the same for RI7, RI8, RI10, RI16 and RI18 words |
| `Assembler.EncodedHints` | src/spu_assembler.cpp:112-186 | the same for LBT and LBTI words, whose branch position is split |
| `Assembler.Encode` | src/spu_assembler.cpp:107-190 | the word returned is the one those rows describe; it starts with the opcode, and an RI8 word with the opcode itself if and only if the top immediate bit is clear |
| `Assembler.Immediate` | src/spu_idb.cpp:519-560 | a truncated immediate, sign-extended, is the immediate modulo the size of its field |
| `Assembler.MeansLBT` | src/spu_idb.cpp:561-567 | an LBT word decodes to the signed 16-bit target and the branch position modulo 512, side by side |
| `Assembler.MeansLBTI` | src/spu_idb.cpp:568-574 | an LBTI word decodes to its register and the branch position modulo 512 |
| `Assembler.OperandsInRange` | src/spu_assembler.cpp:107-184 | for every format but RI8, the operands a word stands for are the given ones if and only if each lies in its field: registers below 128, immediates in the signed range, a branch position below 512 |
| `Assembler.RoundTripIff` | src/spu_idb.cpp:471-560 | exact condition: the assembled word decodes to its opcode and to the operands in their slots if and only if every one is in range, where an RI8 immediate must besides be 0 to 127, and the register of an LBTI word is the one in the slot of the 16-bit immediate |
| `Assembler.HintRegisterLost` | src/spu_assembler.cpp:177-184 | "hbr", the one LBTI row, never fills that slot: its operands are in range if and only if the register is 0 and the branch position below 512 |
| `Assembler.Assemble` | src/spu_assembler.cpp:55-193 | from the mnemonic and the numbers behind it, for any sound tables and all nine formats: decoding what is assembled gives the opcode of the mnemonic and the operands read, truncated to their fields; a mnemonic without opcode gives 0x7FF |
| `Assembler.TablesSound` | src/spu_idb.cpp:437-464 | the tables of the instruction list are sound |
| `Assembler.MnemonicListed` | src/spu-insns.h:136-413 | a mnemonic of the list stands at the opcode of its row and nowhere else, except "mtspr" |
| `Assembler.MtsprUnknown` | src/spu-insns.h:136-413 | "mtspr" stands nowhere in the table |
| `Assembler.ImmediateLost` | src/spu_idb.cpp:486-501 | an RI8 word, "cflts" with the immediate 128, that decodes to the unused opcode 0x7FF |
| `Assembler.AssembleInstruction` | src/spu_assembler.cpp:55-193 | the same on the tables as they are built, for every mnemonic and any numbers, with the word itself; "mtspr" and unknown mnemonics give 0x7FF |
| `Assembler.TextRoundTripIff` | src/spu_assembler.cpp:55-193 | exact condition from the numbers in the text to the decoded word: it has the opcode of the mnemonic and the operands of its first form as given if and only if every operand is in range and, if there is a second form, those it has too are 0 |
| `InstructionWords.DecodedRegisters` | src/spu_idb.cpp:526-535 | the components of an RRR or RR word, as quotients of the word |
| `InstructionWords.DecodedImmediates` | src/spu_idb.cpp:536-560 | the same for RI7, RI8, RI10, RI16 and RI18 words, with the immediate in two's complement |
| `InstructionWords.DecodedHint` | src/spu_idb.cpp:561-567 | the same for an LBT word, target and branch position side by side |
| `InstructionWords.DecodedRegisterHint` | src/spu_idb.cpp:568-574 | the same for an LBTI word |
| `InstructionWords.TextWord` | src/spu_assembler.cpp:55-193 | the word of a mnemonic with one form is that of its format, opcode and list in the following rows |
| `InstructionWords.RRROfCABT` | src/spu_assembler.cpp:79-186 | the word from the numbers in the order of the text: four registers, the first in the low field and the last in RT |
| `InstructionWords.RROfTAB` | src/spu_assembler.cpp:79-186 | the word from the numbers in the order of the text: three registers |
| `InstructionWords.RROfTA` | src/spu_assembler.cpp:79-186 | the word from the numbers in the order of the text: two registers |
| `InstructionWords.RROfAT` | src/spu_assembler.cpp:79-186 | the word from the numbers in the order of the text: two registers with RA first, as in "wrch" |
| `InstructionWords.RROfT` | src/spu_assembler.cpp:79-186 | the word from the numbers in the order of the text: RT alone |
| `InstructionWords.RROfA` | src/spu_assembler.cpp:79-186 | the word from the numbers in the order of the text: RA alone |
| `InstructionWords.RROfNoArgs` | src/spu_assembler.cpp:79-186 | the word from the numbers in the order of the text: no operand |
| `InstructionWords.RI7OfTAS7` | src/spu_assembler.cpp:79-186 | the word from the numbers in the order of the text: two registers and a 7-bit immediate |
| `InstructionWords.RI7OfTS7PA` | src/spu_assembler.cpp:79-186 | the word from the numbers in the order of the text: the same with the immediate before a parenthesis |
| `InstructionWords.RI8OfTAS7` | src/spu_assembler.cpp:79-186 | the word from the numbers in the order of the text: two registers and an 8-bit immediate |
| `InstructionWords.RI10OfTAS10` | src/spu_assembler.cpp:79-186 | the word from the numbers in the order of the text: two registers and a 10-bit immediate |
| `InstructionWords.RI10OfTS14PA` | src/spu_assembler.cpp:79-186 | the word from the numbers in the order of the text: a displacement in bytes before a parenthesis |
| `InstructionWords.RI16OfTS16` | src/spu_assembler.cpp:79-186 | the word from the numbers in the order of the text: a register and a 16-bit immediate |
| `InstructionWords.RI16OfTS18` | src/spu_assembler.cpp:79-186 | the word from the numbers in the order of the text: a register and an address in bytes |
| `InstructionWords.RI16OfS18` | src/spu_assembler.cpp:79-186 | the word from the numbers in the order of the text: an address in bytes |
| `InstructionWords.RI18OfTU18` | src/spu_assembler.cpp:79-186 | the word from the numbers in the order of the text: a register and an 18-bit immediate |
| `InstructionWords.LBTOfS11S18` | src/spu_assembler.cpp:79-186 | the word from the numbers in the order of the text: a branch position and a target in bytes |
| `InstructionWords.LBTIOfS11A` | src/spu_assembler.cpp:79-186 | the word from the numbers in the order of the text: a branch position and a register, which is lost |
| `InstructionWords.IlByHand` | src/spu_assembler.cpp:79-186 | "il 3, 100" is 0x40803203 |
| `InstructionWords.SfByHand` | src/spu_assembler.cpp:79-186 | "sf 3, 4, 5" is 0x08014203 |
| `InstructionWords.LqdByHand` | src/spu_assembler.cpp:79-186 | "lqd 3, 32(1)" is 0x34008083 |
| `InstructionWords.ThreeRows` | src/spu-insns.h:136-413 | their rows: each mnemonic has one form, with the opcode and list used there |
| `BasicBlocks.FindBasicBlock` | src/spu_emu_parser.cpp:290-311 | the block ends with the first branch, or is empty if there is none |
| `BasicBlocks.FindBasicBlockInRange` | src/spu_emu_parser.cpp:540-565 | the blocks follow one another from `begin`, each with its last instruction as its only branch, until a zero word or the last branch |
| `BasicBlocks.BlockOf` | src/spu_emu_parser.cpp:540-565 | every instruction before the end of the last block lies in a block |
| `BasicBlocks.StartsGrow` | src/spu_emu_parser.cpp:540-565 | the blocks stand in order without gap or overlap |
| `BasicBlocks.BlocksEndAtBranches` | src/spu_emu_parser.cpp:540-565 | a block ends behind an instruction if and only if that is a branch and no zero word comes before it |
| `ProgramDecoding.ZeroIsBranch` | src/spu_emu_parser.cpp:506-527 | the zero word decodes to "stop", which counts as a branch |
| `ProgramDecoding.IsBranchIff` | src/spu_emu_parser.cpp:506-527 | a word ends a block exactly if its upper nine bits are those of br, bra, brz, brnz, brhz or brhnz, or its upper eleven those of bi, iret, biz, binz, bihz, bihnz or stop |
| `ProgramDecoding.FindBlocks` | src/spu_emu_parser.cpp:506-565 | the same for instruction words, with the branches told by these bits: the blocks follow one another from the beginning on and end exactly behind the branches up to the first zero word |
| `ProgramAnalysis.PositionsExact` | src/spu_emu_parser.cpp:255-265 | the positions of a mnemonic are, in ascending order, exactly those of the words that decode to it |
| `ProgramAnalysis.SpuInfo.GatherProgramHeuristics` | src/spu_emu_parser.cpp:255-262 | the index gains for every mnemonic what a direct scan finds |
| `ProgramAnalysis.CallTargets` | src/spu_emu_parser.cpp:391-402 | the ordered set of targets is the entry point and the targets of the calls, each once; the entry point is the word at a quarter of its distance from the base |
| `ProgramAnalysis.EntryPosition` | src/spu_emu_parser.cpp:395 | the entry point counts words: its distance from the base address, divided by four |
| `ProgramAnalysis.LinkRanges` | src/spu_emu_parser.cpp:411-420 | each range ends where the next begins and the last at the end of the program |
| `ProgramAnalysis.SpuInfo.GatherStaticCallTargets` | src/spu_emu_parser.cpp:387-420 | the function ranges after the call, for any ranges before it |
| `ProgramAnalysis.RangesNonEmptyIff` | src/spu_emu_parser.cpp:404-420 | the ranges are all non-empty if and only if every target lies in the program |
| `ProgramAnalysis.RangesPartition` | src/spu_emu_parser.cpp:404-420 | then every position from the smallest target on lies in exactly one range, and no other position in any |
| `ProgramAnalysis.Analyze` | src/spu_emu_parser.cpp:255-420 | the index and the ranges of a program from nothing: the ranges begin exactly where a direct scan says |
| `ProgramDecoding.MnemonicIff` | src/spu_idb.cpp:504-512 | a word has a mnemonic if and only if it starts with its opcode, in format RI8 with the operand bit above it clear |
| `ProgramDecoding.WordOfRI16` | src/spu_idb.cpp:551-555 | an RI16 instruction is known by its upper nine bits, and its immediate is the signed 16-bit field |
| `ProgramDecoding.FunctionsOf` | src/spu_emu_parser.cpp:387-420 | the function ranges begin at the entry point, at a quarter of its distance from the base address, and at p + I16 for every word at p whose upper nine bits are those of "brsl", and nowhere else; if these all lie in the program, every position from the smallest on lies in exactly one range |
| `ProgramDecoding.GatheredIsScanned` | src/spu_emu_parser.cpp:836-856 | the branches gathered mnemonic by mnemonic are those a direct scan finds |
| `ProgramDecoding.BlockNotEmptyIff` | src/spu_emu_parser.cpp:846-850 | the block of a branch is non-empty if and only if it does not jump back over the beginning of the program |
| `ProgramDecoding.InBlockIff` | src/spu_emu_parser.cpp:846-850 | an instruction lies in the block of a branch at p by d words exactly if it stands from p up to p + d, or for a branch back that stays in the program from p + d up to and with p |
| `ProgramDecoding.FindBranches` | src/spu_emu_parser.cpp:836-886 | on real instruction words: the sorted branches are, each once, the words whose upper nine bits are those of brz, brnz, brhz or brhnz, with the blocks their 16-bit offsets say, and the collected ones the forward branches whose block ends before any later one begins, pairwise disjoint |
| `ProgramAnalysis.SpuInfo.GatherStaticBranches` | src/spu_emu_parser.cpp:836-886 | the branches end up sorted, none lost or invented, and the collected ones are the forward branches whose block no later block begins in |
| `ProgramAnalysis.CollectForward` | src/spu_emu_parser.cpp:868-886 | the loop over neighbours collects exactly those |
| `ProgramAnalysis.KeptByNeighbour` | src/spu_emu_parser.cpp:858-880 | in sorted order a forward branch overlaps some later block if and only if it overlaps its successor |
| `ProgramAnalysis.KeptEndsFirst` | src/spu_emu_parser.cpp:868-886 | a collected block ends before any later block begins |
| `ProgramAnalysis.KeptDisjoint` | src/spu_emu_parser.cpp:868-886 | the collected blocks are pairwise disjoint |
| `ByteReversal.ReverseField` | src/spu_emu_parser.cpp:49-60 | two pointers reverse a field in place and leave the rest |
| `ByteReversal.ReverseBytesInRange` | src/spu_emu_parser.cpp:45-66 | every field of the layout is reversed where it stands |
| `ByteReversal.FieldReversed` | src/spu_emu_parser.cpp:45-66 | byte j of a field becomes byte j from its end |
| `ByteReversal.BehindUnchanged` | src/spu_emu_parser.cpp:45-66 | bytes behind the layout are unchanged |
| `ByteReversal.ReversedFieldsTwice` | src/spu_emu_parser.cpp:45-66 | the reversal is its own inverse |
| `ByteReversal.ReversedFieldsMultiset` | src/spu_emu_parser.cpp:45-66 | the reversal keeps the multiset of bytes |
| `ByteReversal.ReversedIsBigEndian` | src/spu_emu_parser.cpp:45-66 | a reversed field read in little-endian order is the number it holds in big-endian order |
| `ByteReversal.LayoutSizes32` | src/elf_helper.h:37-40 | the 32-bit layouts cover 52, 32, 40 and 16 bytes |
| `ByteReversal.LayoutSizes64` | src/elf_helper.h:55-58 | the 64-bit layouts cover 64, 56, 64 and 24 bytes |
| `ByteReversal.Header32Fields` | src/elf_helper.h:37-37 | the fields of the header of a 32-bit file, each with its offset and width, come out in reverse order, its sixteen identification bytes as they are |
| `ByteReversal.ProgramHeader32Fields` | src/elf_helper.h:38-38 | the fields of a 32-bit program header |
| `ByteReversal.SectionHeader32Fields` | src/elf_helper.h:39-39 | the fields of a 32-bit section header |
| `ByteReversal.Symbol32Fields` | src/elf_helper.h:40-40 | the fields of a 32-bit symbol |
| `ByteReversal.Header64Fields` | src/elf_helper.h:55-55 | the fields of the header of a 64-bit file |
| `ByteReversal.ProgramHeader64Fields` | src/elf_helper.h:56-56 | the fields of a 64-bit program header |
| `ByteReversal.SectionHeader64Fields` | src/elf_helper.h:57-57 | the fields of a 64-bit section header |
| `ByteReversal.Symbol64Fields` | src/elf_helper.h:58-58 | the fields of a 64-bit symbol |
| `StringTable.ReadStringTable` | src/elf_helper.h:198-207 | the loop ends exactly at the end of the table; its keys are the offsets of string starts and its values the characters up to the next NUL |
| `StringTable.OffsetsExact` | src/elf_helper.h:198-207 | stepping from string to string meets, in ascending order, 0 and every offset behind a NUL |
| `StringTable.StringsClean` | src/elf_helper.h:198-207 | no string holds a NUL |
| `StringTable.JoinedIsTable` | src/elf_helper.h:198-207 | the strings joined in key order, each followed by a NUL, are the table |
| `RangePlanner.Planner.constructor` | src/dump.cpp:82-88 | the planner covers [begin, end) |
| `RangePlanner.Planner.Remove` | src/dump.cpp:110-153 | the insertions and erasures through moving iterators give the list `Removed` describes, for all arguments |
| `RangePlanner.RemoveCovers` | src/dump.cpp:110-153 | what is covered afterwards, for every number: nothing changes unless `begin` is covered; then everything below it stays, and what lies from `end` on stays if `end - 1` is covered too |
| `RangePlanner.ExactIff` | src/dump.cpp:110-153 | exact condition: Remove takes out exactly [begin, end) if and only if it is empty, or `begin` and `end - 1` are covered, or `begin` is and nothing is from `end` on, or nothing in it is |
| `RangePlanner.RemoveKeepsSeparatedIff` | src/dump.cpp:110-153 | exact condition: the list stays sorted with gaps unless end < begin and both lie inside one range |
| `RangePlanner.RemovedAllKeeps` | src/dump.cpp:110-153 | over every sequence of forward removals the list stays sorted with gaps, covers nothing new and loses nothing below the beginnings |
| `RangePlanner.ExactRun` | src/dump.cpp:110-153 | over a sequence of removals each of which meets the condition of `ExactIff` when its turn comes, exactly the numbers in some interval are gone |
| `RangePlanner.FittingRun` | src/dump.cpp:110-153 | they all do if every interval has its ends covered at first and by no earlier interval |
| `MappedFileRegistry.Registry.Open` | src/raw.cpp:17-41 | a live path gets its own handle and one more count, a new path a record with count 1; everything else stays |
| `MappedFileRegistry.Registry.Close` | src/raw.cpp:43-63 | a known handle loses one count, or its record at the last; an unknown or null handle changes nothing |
| `MappedFileRegistry.HistoryCounts` | src/raw.cpp:15-63 | over every history the live handles are distinct and not null, and every count is the number of times its handle is held |
| `MappedFileRegistry.CountSinceMapping` | src/raw.cpp:15-63 | while a file stays mapped its handle is held as often as it was opened less as often as it was closed since it was mapped |
| `MappedFileRegistry.RecordCountSinceMapping` | src/raw.cpp:15-63 | the count in the record of a file is the number of opens minus the number of closes of its handle since it was mapped |
| `PseudoText.ReplaceAll` | src/spu_pseudo.cpp:14-22 | the loop ends, even if the replacement contains the text, with the leftmost non-overlapping replacement |
| `PseudoText.EmptyFoundForEver` | src/spu_pseudo.cpp:16-20 | an empty text is found at every place and behind every insertion, so that no number of iterations ends the loop |
| `PseudoText.LoopEndsIff` | src/spu_pseudo.cpp:14-22 | exact condition: the loop ends if and only if the text to replace is not empty |
| `PseudoText.FindFirst` | src/spu_pseudo.cpp:16-20 | the search returns the first occurrence, and none only if there is none |
| `PseudoText.ReplacedIsJoin` | src/spu_pseudo.cpp:14-22 | the result is the pieces between the occurrences joined by the replacement |
| `PseudoText.PiecesClean` | src/spu_pseudo.cpp:14-22 | no piece contains the replaced text |
| `PseudoText.ReplacedBySame` | src/spu_pseudo.cpp:14-22 | the pieces joined by the text itself are the original |
| `PseudoText.NoneRemains` | src/spu_pseudo.cpp:14-22 | a name between dollar signs no longer occurs after its replacement by a text without dollar signs that is no part of the name |

## Left out

- PseudoText.ReplaceAll: requires a non-empty text to replace, because with an empty one the loop does not end (`PseudoText.LoopEndsIff`).
- ProgramAnalysis.SpuInfo.GatherStaticBranches: requires at least two branches, because with fewer the source reads past the end of the vector; the sort is any sorted arrangement, in the source that of `std::sort`.
- ProgramAnalysis.Program: programs of fewer than 2^30 words, as the 32-bit sizes of ELF program headers allow; addresses are 64-bit numbers as `size_t` on a 64-bit host.
- ByteReversal.ReverseBytesInRange: layouts whose sizes are positive and fit the buffer; the source's layouts are text that ends in NUL, the model's are the sizes before it.
- StringTable.ReadStringTable: tables that end in NUL; on others the source reads past the table. The lookup of the section ".strtab" by name is not modelled.
- MappedFileRegistry.Registry.Open: the mapping of the file is replaced by a handle the allocator returns, fresh and not null; counts do not wrap.
- Assembler.AssembleInstruction: starts from the mnemonic and the numbers behind it; stripping comments and clutter, the aliases, and operands that are not decimal 64-bit numbers are not modelled.
- Assembler.Assemble: the same.
- The naming of the entry point as "main" in the symbol map, and the fixed range in which the source looks for blocks; the model takes any range.
- The operators `-=`, `|=` and `^=` of `v_u32`: one intrinsic each, nothing to prove.
- The test for a null local store in the load and store handlers: the constructor always allocates it.
- The arithmetic that departs from the instruction set and is used by nothing here: `si_sfi`, `si_mpyh`, `si_mpys`, `si_fsmbi`, `si_iohl`.
- The shift and rotate handlers on halfwords and words, and `spu_shlqbii`, `spu_rotqmbi`, `spu_rotqmbii`, `spu_roti`, `spu_rotmah`, which meet no clean specification.
- `spu_shufb`, `spu_absdb`, `si_xswd` and `spu_eqv`, which do not compute what their names say.
- Floating-point instructions: their rounding would be the point of a model.
- Multiplication, logical and comparison handlers: one intrinsic each, nothing to prove.
- Channels, branch hints, control instructions, and the branch handlers, which are commented out.
- The disassembler, the templates of the pseudo code, and the PowerPC disassembler: finite tables of texts.
- File mapping, file output, timers and the console.
