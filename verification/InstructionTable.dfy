/** `src/spu-insns.h` and the tables `spu_build_op_db` fills from it (`src/spu_idb.cpp`). */
module InstructionTable {
  import opened Bits
  import opened Wrappers

  datatype Format = RRR | RR | RI7 | RI8 | RI10 | RI16 | RI18 | LBT | LBTI
  {
    /** How many 11-bit opcode prefixes an instruction of this format takes: their low bits are operand. */
    function Span(): (n: nat)
      ensures n > 0 && 0x80 % n == 0
    {
      match this
      case RRR => 0x80
      case RR => 1
      case RI7 => 1
      case RI8 => 2
      case RI10 => 8
      case RI16 => 4
      case RI18 => 0x10
      case LBT => 0x10
      case LBTI => 1
    }
  }

  // ----- the slots of the argument array -----

  const A_T: nat := 0
  const A_A: nat := 1
  const A_B: nat := 2
  const A_C: nat := 3
  const A_P: nat := 5
  const A_S7: nat := 7
  const A_U7A: nat := 7
  const A_S10: nat := 10
  const A_S14: nat := 14
  const A_S16: nat := 16
  const A_U18: nat := 18
  const A_S11: nat := 19
  const A_S11I: nat := 19
  const A_U14: nat := 20
  const A_S18: nat := 21

  /** The lists of argument types that occur, named by their members. */
  datatype ArgList =
    | NoArgs | T | A | TA | AT | AB | TAB | CABT | TAS7 | TS7PA | AS10 | TAS10 | TS14PA | TS16 | TU18 | S18 | TS18
    | U14 | S11A | S11S18
  {
    function Types(): seq<nat> {
      match this
      case NoArgs => []
      case T => [A_T]
      case A => [A_A]
      case TA => [A_T, A_A]
      case AT => [A_A, A_T]
      case AB => [A_A, A_B]
      case TAB => [A_T, A_A, A_B]
      case CABT => [A_C, A_A, A_B, A_T]
      case TAS7 => [A_T, A_A, A_S7]
      case TS7PA => [A_T, A_S7, A_P, A_A]
      case AS10 => [A_A, A_S10]
      case TAS10 => [A_T, A_A, A_S10]
      case TS14PA => [A_T, A_S14, A_P, A_A]
      case TS16 => [A_T, A_S16]
      case TU18 => [A_T, A_U18]
      case S18 => [A_S18]
      case TS18 => [A_T, A_S18]
      case U14 => [A_U14]
      case S11A => [A_S11I, A_A]
      case S11S18 => [A_S11, A_S18]
    }
  }

  /** A row of the instruction list. A mnemonic is named by the number of the first row with its text. */
  datatype Row = Row(format: Format, opcode: nat, mnemonic: nat, args: ArgList)

  const SPU_MAX_INSTRUCTION_COUNT: nat := 0x800

  const ROWS: nat := 210

  /** The row of "mtspr", whose opcode the later row of "syscall" takes over. */
  const MTSPR: nat := 24

  // The rows, in blocks whose last case is the last row of the block.

  function Rows0(n: nat): Row {
    match n
    case 0 => Row(RI16, 0x190, 0, S18) // br
    case 1 => Row(RI16, 0x198, 1, TS18) // brsl
    case 2 => Row(RI16, 0x180, 2, S18) // bra
    case 3 => Row(RI16, 0x188, 3, TS18) // brasl
    case 4 => Row(RI16, 0x194, 4, TS16) // fsmbi
    case 5 => Row(RI16, 0x184, 5, TS18) // lqa
    case 6 => Row(RI16, 0x19C, 6, TS18) // lqr
    case 7 => Row(RR, 0x000, 7, NoArgs) // stop
    case 8 => Row(RR, 0x000, 7, U14) // stop
    case 9 => Row(RR, 0x140, 9, TAB) // stopd
    case 10 => Row(RR, 0x001, 10, NoArgs) // lnop
    case 11 => Row(RR, 0x002, 11, NoArgs) // sync
    case 12 => Row(RR, 0x003, 12, NoArgs) // dsync
    case 13 => Row(RR, 0x00C, 13, TA) // mfspr
    case 14 => Row(RR, 0x00D, 14, TA) // rdch
    case 15 => Row(RR, 0x00F, 15, TA) // rchcnt
    case 16 => Row(LBT, 0x080, 16, S11S18) // hbra
    case 17 => Row(LBT, 0x090, 17, S11S18) // hbrr
    case 18 => Row(RI16, 0x100, 18, TS18) // brz
    case 19 => Row(RI16, 0x108, 19, TS18) // brnz
    case _ => Row(RI16, 0x110, 20, TS18) // brhz
  }

  function Rows1(n: nat): Row {
    match n
    case 21 => Row(RI16, 0x118, 21, TS18) // brhnz
    case 22 => Row(RI16, 0x104, 22, TS18) // stqa
    case 23 => Row(RI16, 0x11C, 23, TS18) // stqr
    case 24 => Row(RR, 0x10C, 24, AT) // mtspr
    case 25 => Row(RR, 0x10D, 25, AT) // wrch
    case 26 => Row(RI10, 0x1A0, 26, TS14PA) // lqd
    case 27 => Row(RR, 0x1A8, 27, A) // bi
    case 28 => Row(RR, 0x1A9, 28, TA) // bisl
    case 29 => Row(RR, 0x1AA, 29, A) // iret
    case 30 => Row(RR, 0x1AA, 29, NoArgs) // iret
    case 31 => Row(RR, 0x1AB, 31, TA) // bisled
    case 32 => Row(LBTI, 0x1AC, 32, S11A) // hbr
    case 33 => Row(RR, 0x1B8, 33, TA) // frest
    case 34 => Row(RR, 0x1B9, 34, TA) // frsqest
    case 35 => Row(RR, 0x1B4, 35, TA) // fsm
    case 36 => Row(RR, 0x1B5, 36, TA) // fsmh
    case 37 => Row(RR, 0x1B6, 37, TA) // fsmb
    case 38 => Row(RR, 0x1B0, 38, TA) // gb
    case 39 => Row(RR, 0x1B1, 39, TA) // gbh
    case 40 => Row(RR, 0x1B2, 40, TA) // gbb
    case _ => Row(RI7, 0x1F4, 41, TS7PA) // cbd
  }

  function Rows2(n: nat): Row {
    match n
    case 42 => Row(RI7, 0x1F5, 42, TS7PA) // chd
    case 43 => Row(RI7, 0x1F6, 43, TS7PA) // cwd
    case 44 => Row(RI7, 0x1F7, 44, TS7PA) // cdd
    case 45 => Row(RI7, 0x1F8, 45, TAS7) // rotqbii
    case 46 => Row(RI7, 0x1FC, 46, TAS7) // rotqbyi
    case 47 => Row(RI7, 0x1F9, 47, TAS7) // rotqmbii
    case 48 => Row(RI7, 0x1FD, 48, TAS7) // rotqmbyi
    case 49 => Row(RI7, 0x1FB, 49, TAS7) // shlqbii
    case 50 => Row(RI7, 0x1FF, 50, TAS7) // shlqbyi
    case 51 => Row(RI10, 0x120, 51, TS14PA) // stqd
    case 52 => Row(RR, 0x12B, 52, TA) // bihnz
    case 53 => Row(RR, 0x12A, 53, TA) // bihz
    case 54 => Row(RR, 0x129, 54, TA) // binz
    case 55 => Row(RR, 0x128, 55, TA) // biz
    case 56 => Row(RR, 0x1D4, 56, TAB) // cbx
    case 57 => Row(RR, 0x1D5, 57, TAB) // chx
    case 58 => Row(RR, 0x1D6, 58, TAB) // cwx
    case 59 => Row(RR, 0x1D7, 59, TAB) // cdx
    case 60 => Row(RR, 0x1C4, 60, TAB) // lqx
    case 61 => Row(RR, 0x1D8, 61, TAB) // rotqbi
    case _ => Row(RR, 0x1D9, 62, TAB) // rotqmbi
  }

  function Rows3(n: nat): Row {
    match n
    case 63 => Row(RR, 0x1DB, 63, TAB) // shlqbi
    case 64 => Row(RR, 0x1DC, 64, TAB) // rotqby
    case 65 => Row(RR, 0x1DD, 65, TAB) // rotqmby
    case 66 => Row(RR, 0x1DF, 66, TAB) // shlqby
    case 67 => Row(RR, 0x1CC, 67, TAB) // rotqbybi
    case 68 => Row(RR, 0x1CD, 68, TAB) // rotqmbybi
    case 69 => Row(RR, 0x1CF, 69, TAB) // shlqbybi
    case 70 => Row(RR, 0x144, 70, TAB) // stqx
    case 71 => Row(RRR, 0x580, 71, CABT) // shufb
    case 72 => Row(RI16, 0x204, 72, TS16) // il
    case 73 => Row(RI16, 0x20C, 73, TS16) // ilh
    case 74 => Row(RI16, 0x208, 74, TS16) // ilhu
    case 75 => Row(RI18, 0x210, 75, TU18) // ila
    case 76 => Row(RR, 0x201, 76, T) // nop
    case 77 => Row(RR, 0x201, 76, NoArgs) // nop
    case 78 => Row(RI16, 0x304, 78, TS16) // iohl
    case 79 => Row(RI10, 0x0B0, 79, TAS10) // andbi
    case 80 => Row(RI10, 0x0A8, 80, TAS10) // andhi
    case 81 => Row(RI10, 0x0A0, 81, TAS10) // andi
    case 82 => Row(RI10, 0x030, 82, TAS10) // orbi
    case _ => Row(RI10, 0x028, 83, TAS10) // orhi
  }

  function Rows4(n: nat): Row {
    match n
    case 84 => Row(RI10, 0x020, 84, TAS10) // ori
    case 85 => Row(RR, 0x1F0, 85, TA) // orx
    case 86 => Row(RI10, 0x230, 86, TAS10) // xorbi
    case 87 => Row(RI10, 0x228, 87, TAS10) // xorhi
    case 88 => Row(RI10, 0x220, 88, TAS10) // xori
    case 89 => Row(RI10, 0x0E8, 89, TAS10) // ahi
    case 90 => Row(RI10, 0x0E0, 90, TAS10) // ai
    case 91 => Row(RI10, 0x068, 91, TAS10) // sfhi
    case 92 => Row(RI10, 0x060, 92, TAS10) // sfi
    case 93 => Row(RI10, 0x270, 93, TAS10) // cgtbi
    case 94 => Row(RI10, 0x268, 94, TAS10) // cgthi
    case 95 => Row(RI10, 0x260, 95, TAS10) // cgti
    case 96 => Row(RI10, 0x2F0, 96, TAS10) // clgtbi
    case 97 => Row(RI10, 0x2E8, 97, TAS10) // clgthi
    case 98 => Row(RI10, 0x2E0, 98, TAS10) // clgti
    case 99 => Row(RI10, 0x3F0, 99, TAS10) // ceqbi
    case 100 => Row(RI10, 0x3E8, 100, TAS10) // ceqhi
    case 101 => Row(RI10, 0x3E0, 101, TAS10) // ceqi
    case 102 => Row(RI10, 0x278, 102, TAS10) // hgti
    case 103 => Row(RI10, 0x278, 102, AS10) // hgti
    case _ => Row(RI10, 0x2F8, 104, TAS10) // hlgti
  }

  function Rows5(n: nat): Row {
    match n
    case 105 => Row(RI10, 0x2F8, 104, AS10) // hlgti
    case 106 => Row(RI10, 0x3F8, 106, TAS10) // heqi
    case 107 => Row(RI10, 0x3F8, 106, AS10) // heqi
    case 108 => Row(RI10, 0x3A0, 108, TAS10) // mpyi
    case 109 => Row(RI10, 0x3A8, 109, TAS10) // mpyui
    case 110 => Row(RI8, 0x3B0, 110, TAS7) // cflts
    case 111 => Row(RI8, 0x3B2, 111, TAS7) // cfltu
    case 112 => Row(RI8, 0x3B4, 112, TAS7) // csflt
    case 113 => Row(RI8, 0x3B6, 113, TAS7) // cuflt
    case 114 => Row(RR, 0x3B8, 114, TA) // fesd
    case 115 => Row(RR, 0x3B9, 115, TA) // frds
    case 116 => Row(RR, 0x398, 116, T) // fscrrd
    case 117 => Row(RR, 0x3BA, 117, TA) // fscrwr
    case 118 => Row(RR, 0x3BA, 117, A) // fscrwr
    case 119 => Row(RR, 0x2A5, 119, TA) // clz
    case 120 => Row(RR, 0x2B4, 120, TA) // cntb
    case 121 => Row(RR, 0x2B6, 121, TA) // xsbh
    case 122 => Row(RR, 0x2AE, 122, TA) // xshw
    case 123 => Row(RR, 0x2A6, 123, TA) // xswd
    case 124 => Row(RI7, 0x078, 124, TAS7) // roti
    case _ => Row(RI7, 0x079, 125, TAS7) // rotmi
  }

  function Rows6(n: nat): Row {
    match n
    case 126 => Row(RI7, 0x07A, 126, TAS7) // rotmai
    case 127 => Row(RI7, 0x07B, 127, TAS7) // shli
    case 128 => Row(RI7, 0x07C, 128, TAS7) // rothi
    case 129 => Row(RI7, 0x07D, 129, TAS7) // rothmi
    case 130 => Row(RI7, 0x07E, 130, TAS7) // rotmahi
    case 131 => Row(RI7, 0x07F, 131, TAS7) // shlhi
    case 132 => Row(RR, 0x0C0, 132, TAB) // a
    case 133 => Row(RR, 0x0C8, 133, TAB) // ah
    case 134 => Row(RR, 0x040, 134, TAB) // sf
    case 135 => Row(RR, 0x048, 135, TAB) // sfh
    case 136 => Row(RR, 0x240, 136, TAB) // cgt
    case 137 => Row(RR, 0x250, 137, TAB) // cgtb
    case 138 => Row(RR, 0x248, 138, TAB) // cgth
    case 139 => Row(RR, 0x2C0, 139, TAB) // clgt
    case 140 => Row(RR, 0x2D0, 140, TAB) // clgtb
    case 141 => Row(RR, 0x2C8, 141, TAB) // clgth
    case 142 => Row(RR, 0x3C0, 142, TAB) // ceq
    case 143 => Row(RR, 0x3D0, 143, TAB) // ceqb
    case 144 => Row(RR, 0x3C8, 144, TAB) // ceqh
    case 145 => Row(RR, 0x258, 145, TAB) // hgt
    case _ => Row(RR, 0x258, 145, AB) // hgt
  }

  function Rows7(n: nat): Row {
    match n
    case 147 => Row(RR, 0x2D8, 147, TAB) // hlgt
    case 148 => Row(RR, 0x2D8, 147, AB) // hlgt
    case 149 => Row(RR, 0x3D8, 149, TAB) // heq
    case 150 => Row(RR, 0x3D8, 149, AB) // heq
    case 151 => Row(RR, 0x3C2, 151, TAB) // fceq
    case 152 => Row(RR, 0x3CA, 152, TAB) // fcmeq
    case 153 => Row(RR, 0x2C2, 153, TAB) // fcgt
    case 154 => Row(RR, 0x2CA, 154, TAB) // fcmgt
    case 155 => Row(RR, 0x0C1, 155, TAB) // and
    case 156 => Row(RR, 0x0C9, 156, TAB) // nand
    case 157 => Row(RR, 0x041, 157, TAB) // or
    case 158 => Row(RR, 0x049, 158, TAB) // nor
    case 159 => Row(RR, 0x241, 159, TAB) // xor
    case 160 => Row(RR, 0x249, 160, TAB) // eqv
    case 161 => Row(RR, 0x2C1, 161, TAB) // andc
    case 162 => Row(RR, 0x2C9, 162, TAB) // orc
    case 163 => Row(RR, 0x053, 163, TAB) // absdb
    case 164 => Row(RR, 0x0D3, 164, TAB) // avgb
    case 165 => Row(RR, 0x253, 165, TAB) // sumb
    case 166 => Row(RR, 0x2CC, 166, TAB) // dfa
    case _ => Row(RR, 0x2CE, 167, TAB) // dfm
  }

  function Rows8(n: nat): Row {
    match n
    case 168 => Row(RR, 0x2CD, 168, TAB) // dfs
    case 169 => Row(RR, 0x2C4, 169, TAB) // fa
    case 170 => Row(RR, 0x2C6, 170, TAB) // fm
    case 171 => Row(RR, 0x2C5, 171, TAB) // fs
    case 172 => Row(RR, 0x3C4, 172, TAB) // mpy
    case 173 => Row(RR, 0x3C5, 173, TAB) // mpyh
    case 174 => Row(RR, 0x3C6, 174, TAB) // mpyhh
    case 175 => Row(RR, 0x3CE, 175, TAB) // mpyhhu
    case 176 => Row(RR, 0x3C7, 176, TAB) // mpys
    case 177 => Row(RR, 0x3CC, 177, TAB) // mpyu
    case 178 => Row(RR, 0x3D4, 178, TAB) // fi
    case 179 => Row(RR, 0x058, 179, TAB) // rot
    case 180 => Row(RR, 0x059, 180, TAB) // rotm
    case 181 => Row(RR, 0x05A, 181, TAB) // rotma
    case 182 => Row(RR, 0x05B, 182, TAB) // shl
    case 183 => Row(RR, 0x05C, 183, TAB) // roth
    case 184 => Row(RR, 0x05D, 184, TAB) // rothm
    case 185 => Row(RR, 0x05E, 185, TAB) // rotmah
    case 186 => Row(RR, 0x05F, 186, TAB) // shlh
    case 187 => Row(RR, 0x346, 187, TAB) // mpyhha
    case _ => Row(RR, 0x34E, 188, TAB) // mpyhhau
  }

  function Rows9(n: nat): Row {
    match n
    case 189 => Row(RR, 0x35C, 189, TAB) // dfma
    case 190 => Row(RR, 0x35D, 190, TAB) // dfms
    case 191 => Row(RR, 0x35E, 191, TAB) // dfnms
    case 192 => Row(RR, 0x35F, 192, TAB) // dfnma
    case 193 => Row(RRR, 0x700, 193, CABT) // fma
    case 194 => Row(RRR, 0x780, 194, CABT) // fms
    case 195 => Row(RRR, 0x680, 195, CABT) // fnms
    case 196 => Row(RRR, 0x600, 196, CABT) // mpya
    case 197 => Row(RRR, 0x400, 197, CABT) // selb
    case 198 => Row(RI7, 0x10C, 198, TAS7) // syscall
    case 199 => Row(RR, 0x340, 199, TAB) // addx
    case 200 => Row(RR, 0x0C2, 200, TAB) // cg
    case 201 => Row(RR, 0x342, 201, TAB) // cgx
    case 202 => Row(RR, 0x341, 202, TAB) // sfx
    case 203 => Row(RR, 0x042, 203, TAB) // bg
    case 204 => Row(RR, 0x343, 204, TAB) // bgx
    case 205 => Row(RR, 0x3C3, 205, TAB) // dfceq
    case 206 => Row(RR, 0x3CB, 206, TAB) // dfcmeq
    case 207 => Row(RR, 0x2C3, 207, TAB) // dfcgt
    case 208 => Row(RR, 0x2CB, 208, TAB) // dfcmgt
    case _ => Row(RI7, 0x3BF, 209, TAS7) // dftsv
  }

  /** The rows in the order in which they are applied. */
  function RowAt(n: nat): Row
    requires n < ROWS
  {
    if n < 21 then Rows0(n)
    else if n < 42 then Rows1(n)
    else if n < 63 then Rows2(n)
    else if n < 84 then Rows3(n)
    else if n < 105 then Rows4(n)
    else if n < 126 then Rows5(n)
    else if n < 147 then Rows6(n)
    else if n < 168 then Rows7(n)
    else if n < 189 then Rows8(n)
    else Rows9(n)
  }

  // The row at each index in use, in blocks of 0x40 indices.

  function Indices0(x: nat): (n: Option<nat>)
    ensures n.Some? ==> n.value < ROWS
  {
    match x
    case 0x000 => Some(8)
    case 0x001 => Some(10)
    case 0x002 => Some(11)
    case 0x003 => Some(12)
    case 0x00C => Some(13)
    case 0x00D => Some(14)
    case 0x00F => Some(15)
    case 0x020 => Some(84)
    case 0x028 => Some(83)
    case 0x030 => Some(82)
    case _ => None
  }

  function Indices1(x: nat): (n: Option<nat>)
    ensures n.Some? ==> n.value < ROWS
  {
    match x
    case 0x040 => Some(134)
    case 0x041 => Some(157)
    case 0x042 => Some(203)
    case 0x048 => Some(135)
    case 0x049 => Some(158)
    case 0x053 => Some(163)
    case 0x058 => Some(179)
    case 0x059 => Some(180)
    case 0x05A => Some(181)
    case 0x05B => Some(182)
    case 0x05C => Some(183)
    case 0x05D => Some(184)
    case 0x05E => Some(185)
    case 0x05F => Some(186)
    case 0x060 => Some(92)
    case 0x068 => Some(91)
    case 0x078 => Some(124)
    case 0x079 => Some(125)
    case 0x07A => Some(126)
    case 0x07B => Some(127)
    case 0x07C => Some(128)
    case 0x07D => Some(129)
    case 0x07E => Some(130)
    case 0x07F => Some(131)
    case _ => None
  }

  function Indices2(x: nat): (n: Option<nat>)
    ensures n.Some? ==> n.value < ROWS
  {
    match x
    case 0x080 => Some(16)
    case 0x090 => Some(17)
    case 0x0A0 => Some(81)
    case 0x0A8 => Some(80)
    case 0x0B0 => Some(79)
    case _ => None
  }

  function Indices3(x: nat): (n: Option<nat>)
    ensures n.Some? ==> n.value < ROWS
  {
    match x
    case 0x0C0 => Some(132)
    case 0x0C1 => Some(155)
    case 0x0C2 => Some(200)
    case 0x0C8 => Some(133)
    case 0x0C9 => Some(156)
    case 0x0D3 => Some(164)
    case 0x0E0 => Some(90)
    case 0x0E8 => Some(89)
    case _ => None
  }

  function Indices4(x: nat): (n: Option<nat>)
    ensures n.Some? ==> n.value < ROWS
  {
    match x
    case 0x100 => Some(18)
    case 0x104 => Some(22)
    case 0x108 => Some(19)
    case 0x10C => Some(198)
    case 0x10D => Some(25)
    case 0x110 => Some(20)
    case 0x118 => Some(21)
    case 0x11C => Some(23)
    case 0x120 => Some(51)
    case 0x128 => Some(55)
    case 0x129 => Some(54)
    case 0x12A => Some(53)
    case 0x12B => Some(52)
    case _ => None
  }

  function Indices5(x: nat): (n: Option<nat>)
    ensures n.Some? ==> n.value < ROWS
  {
    match x
    case 0x140 => Some(9)
    case 0x144 => Some(70)
    case _ => None
  }

  function Indices6(x: nat): (n: Option<nat>)
    ensures n.Some? ==> n.value < ROWS
  {
    match x
    case 0x180 => Some(2)
    case 0x184 => Some(5)
    case 0x188 => Some(3)
    case 0x190 => Some(0)
    case 0x194 => Some(4)
    case 0x198 => Some(1)
    case 0x19C => Some(6)
    case 0x1A0 => Some(26)
    case 0x1A8 => Some(27)
    case 0x1A9 => Some(28)
    case 0x1AA => Some(30)
    case 0x1AB => Some(31)
    case 0x1AC => Some(32)
    case 0x1B0 => Some(38)
    case 0x1B1 => Some(39)
    case 0x1B2 => Some(40)
    case 0x1B4 => Some(35)
    case 0x1B5 => Some(36)
    case 0x1B6 => Some(37)
    case 0x1B8 => Some(33)
    case 0x1B9 => Some(34)
    case _ => None
  }

  function Indices7(x: nat): (n: Option<nat>)
    ensures n.Some? ==> n.value < ROWS
  {
    match x
    case 0x1C4 => Some(60)
    case 0x1CC => Some(67)
    case 0x1CD => Some(68)
    case 0x1CF => Some(69)
    case 0x1D4 => Some(56)
    case 0x1D5 => Some(57)
    case 0x1D6 => Some(58)
    case 0x1D7 => Some(59)
    case 0x1D8 => Some(61)
    case 0x1D9 => Some(62)
    case 0x1DB => Some(63)
    case 0x1DC => Some(64)
    case 0x1DD => Some(65)
    case 0x1DF => Some(66)
    case 0x1F0 => Some(85)
    case 0x1F4 => Some(41)
    case 0x1F5 => Some(42)
    case 0x1F6 => Some(43)
    case 0x1F7 => Some(44)
    case 0x1F8 => Some(45)
    case 0x1F9 => Some(47)
    case 0x1FB => Some(49)
    case 0x1FC => Some(46)
    case 0x1FD => Some(48)
    case 0x1FF => Some(50)
    case _ => None
  }

  function Indices8(x: nat): (n: Option<nat>)
    ensures n.Some? ==> n.value < ROWS
  {
    match x
    case 0x201 => Some(77)
    case 0x204 => Some(72)
    case 0x208 => Some(74)
    case 0x20C => Some(73)
    case 0x210 => Some(75)
    case 0x220 => Some(88)
    case 0x228 => Some(87)
    case 0x230 => Some(86)
    case _ => None
  }

  function Indices9(x: nat): (n: Option<nat>)
    ensures n.Some? ==> n.value < ROWS
  {
    match x
    case 0x240 => Some(136)
    case 0x241 => Some(159)
    case 0x248 => Some(138)
    case 0x249 => Some(160)
    case 0x250 => Some(137)
    case 0x253 => Some(165)
    case 0x258 => Some(146)
    case 0x260 => Some(95)
    case 0x268 => Some(94)
    case 0x270 => Some(93)
    case 0x278 => Some(103)
    case _ => None
  }

  function Indices10(x: nat): (n: Option<nat>)
    ensures n.Some? ==> n.value < ROWS
  {
    match x
    case 0x2A5 => Some(119)
    case 0x2A6 => Some(123)
    case 0x2AE => Some(122)
    case 0x2B4 => Some(120)
    case 0x2B6 => Some(121)
    case _ => None
  }

  function Indices11(x: nat): (n: Option<nat>)
    ensures n.Some? ==> n.value < ROWS
  {
    match x
    case 0x2C0 => Some(139)
    case 0x2C1 => Some(161)
    case 0x2C2 => Some(153)
    case 0x2C3 => Some(207)
    case 0x2C4 => Some(169)
    case 0x2C5 => Some(171)
    case 0x2C6 => Some(170)
    case 0x2C8 => Some(141)
    case 0x2C9 => Some(162)
    case 0x2CA => Some(154)
    case 0x2CB => Some(208)
    case 0x2CC => Some(166)
    case 0x2CD => Some(168)
    case 0x2CE => Some(167)
    case 0x2D0 => Some(140)
    case 0x2D8 => Some(148)
    case 0x2E0 => Some(98)
    case 0x2E8 => Some(97)
    case 0x2F0 => Some(96)
    case 0x2F8 => Some(105)
    case _ => None
  }

  function Indices12(x: nat): (n: Option<nat>)
    ensures n.Some? ==> n.value < ROWS
  {
    match x
    case 0x304 => Some(78)
    case _ => None
  }

  function Indices13(x: nat): (n: Option<nat>)
    ensures n.Some? ==> n.value < ROWS
  {
    match x
    case 0x340 => Some(199)
    case 0x341 => Some(202)
    case 0x342 => Some(201)
    case 0x343 => Some(204)
    case 0x346 => Some(187)
    case 0x34E => Some(188)
    case 0x35C => Some(189)
    case 0x35D => Some(190)
    case 0x35E => Some(191)
    case 0x35F => Some(192)
    case _ => None
  }

  function Indices14(x: nat): (n: Option<nat>)
    ensures n.Some? ==> n.value < ROWS
  {
    match x
    case 0x398 => Some(116)
    case 0x3A0 => Some(108)
    case 0x3A8 => Some(109)
    case 0x3B0 => Some(110)
    case 0x3B2 => Some(111)
    case 0x3B4 => Some(112)
    case 0x3B6 => Some(113)
    case 0x3B8 => Some(114)
    case 0x3B9 => Some(115)
    case 0x3BA => Some(118)
    case 0x3BF => Some(209)
    case _ => None
  }

  function Indices15(x: nat): (n: Option<nat>)
    ensures n.Some? ==> n.value < ROWS
  {
    match x
    case 0x3C0 => Some(142)
    case 0x3C2 => Some(151)
    case 0x3C3 => Some(205)
    case 0x3C4 => Some(172)
    case 0x3C5 => Some(173)
    case 0x3C6 => Some(174)
    case 0x3C7 => Some(176)
    case 0x3C8 => Some(144)
    case 0x3CA => Some(152)
    case 0x3CB => Some(206)
    case 0x3CC => Some(177)
    case 0x3CE => Some(175)
    case 0x3D0 => Some(143)
    case 0x3D4 => Some(178)
    case 0x3D8 => Some(150)
    case 0x3E0 => Some(101)
    case 0x3E8 => Some(100)
    case 0x3F0 => Some(99)
    case 0x3F8 => Some(107)
    case _ => None
  }

  function Indices16(x: nat): (n: Option<nat>)
    ensures n.Some? ==> n.value < ROWS
  {
    match x
    case 0x400 => Some(197)
    case 0x580 => Some(71)
    case 0x600 => Some(196)
    case 0x680 => Some(195)
    case 0x700 => Some(193)
    case 0x780 => Some(194)
    case _ => None
  }

  /** The row that index `x` of the tables comes from. */
  function RowOf(x: nat): (n: Option<nat>)
    ensures n.Some? ==> n.value < ROWS
  {
    if x < 0x40 then Indices0(x)
    else if x < 0x80 then Indices1(x)
    else if x < 0xC0 then Indices2(x)
    else if x < 0x100 then Indices3(x)
    else if x < 0x140 then Indices4(x)
    else if x < 0x180 then Indices5(x)
    else if x < 0x1C0 then Indices6(x)
    else if x < 0x200 then Indices7(x)
    else if x < 0x240 then Indices8(x)
    else if x < 0x280 then Indices9(x)
    else if x < 0x2C0 then Indices10(x)
    else if x < 0x300 then Indices11(x)
    else if x < 0x340 then Indices12(x)
    else if x < 0x380 then Indices13(x)
    else if x < 0x3C0 then Indices14(x)
    else if x < 0x400 then Indices15(x)
    else Indices16(x)
  }

  // ----- the rows and the indices agree -----

  /** The lists of the mnemonics with two: the second lacks the first member, or is that of "stop". */
  predicate TwoForms(first: ArgList, second: ArgList) {
    match first
    case TAB => second == AB
    case TAS10 => second == AS10
    case TA => second == A
    case A => second == NoArgs
    case T => second == NoArgs
    case NoArgs => second == U14
    case _ => false
  }

  /** Row `n` is the second of two with one mnemonic and one format, and directly follows the first. */
  predicate SecondForm(first: Row, second: Row, n: nat) {
    n == first.mnemonic + 1 && TwoForms(first.args, second.args)
    && first.format == second.format == if first.args == TAS10 then RI10 else RR
  }

  /** Row `n` has opcode `x`, and the prefixes its operands extend over, from `x` up to `x + Span()`,
      lie in [begin, end). */
  predicate Placed(x: nat, n: nat, begin: nat, end: nat) {
    n < ROWS
    && RowAt(n).opcode == x && begin <= x && x + RowAt(n).format.Span() <= end && x % RowAt(n).format.Span() == 0
  }

  lemma Indices0Placed(x: nat)
    requires Indices0(x).Some?
    ensures Placed(x, Indices0(x).value, 0x0, 0x40)
  {
  }

  lemma Indices0Alone(x: nat, y: nat)
    requires Indices0(x).Some?
    ensures x < y < x + RowAt(Indices0(x).value).format.Span() ==> Indices0(y) == None
  {
  }

  lemma Indices1Placed(x: nat)
    requires Indices1(x).Some?
    ensures Placed(x, Indices1(x).value, 0x40, 0x80)
  {
  }

  lemma Indices1Alone(x: nat, y: nat)
    requires Indices1(x).Some?
    ensures x < y < x + RowAt(Indices1(x).value).format.Span() ==> Indices1(y) == None
  {
  }

  lemma Indices2Placed(x: nat)
    requires Indices2(x).Some?
    ensures Placed(x, Indices2(x).value, 0x80, 0xC0)
  {
  }

  lemma Indices2Alone(x: nat, y: nat)
    requires Indices2(x).Some?
    ensures x < y < x + RowAt(Indices2(x).value).format.Span() ==> Indices2(y) == None
  {
  }

  lemma Indices3Placed(x: nat)
    requires Indices3(x).Some?
    ensures Placed(x, Indices3(x).value, 0xC0, 0x100)
  {
  }

  lemma Indices3Alone(x: nat, y: nat)
    requires Indices3(x).Some?
    ensures x < y < x + RowAt(Indices3(x).value).format.Span() ==> Indices3(y) == None
  {
  }

  lemma Indices4Placed(x: nat)
    requires Indices4(x).Some?
    ensures Placed(x, Indices4(x).value, 0x100, 0x140)
  {
  }

  lemma Indices4Alone(x: nat, y: nat)
    requires Indices4(x).Some?
    ensures x < y < x + RowAt(Indices4(x).value).format.Span() ==> Indices4(y) == None
  {
  }

  lemma Indices5Placed(x: nat)
    requires Indices5(x).Some?
    ensures Placed(x, Indices5(x).value, 0x140, 0x180)
  {
  }

  lemma Indices5Alone(x: nat, y: nat)
    requires Indices5(x).Some?
    ensures x < y < x + RowAt(Indices5(x).value).format.Span() ==> Indices5(y) == None
  {
  }

  lemma Indices6Placed(x: nat)
    requires Indices6(x).Some?
    ensures Placed(x, Indices6(x).value, 0x180, 0x1C0)
  {
  }

  lemma Indices6Alone(x: nat, y: nat)
    requires Indices6(x).Some?
    ensures x < y < x + RowAt(Indices6(x).value).format.Span() ==> Indices6(y) == None
  {
  }

  lemma Indices7Placed(x: nat)
    requires Indices7(x).Some?
    ensures Placed(x, Indices7(x).value, 0x1C0, 0x200)
  {
  }

  lemma Indices7Alone(x: nat, y: nat)
    requires Indices7(x).Some?
    ensures x < y < x + RowAt(Indices7(x).value).format.Span() ==> Indices7(y) == None
  {
  }

  lemma Indices8Placed(x: nat)
    requires Indices8(x).Some?
    ensures Placed(x, Indices8(x).value, 0x200, 0x240)
  {
  }

  lemma Indices8Alone(x: nat, y: nat)
    requires Indices8(x).Some?
    ensures x < y < x + RowAt(Indices8(x).value).format.Span() ==> Indices8(y) == None
  {
  }

  lemma Indices9Placed(x: nat)
    requires Indices9(x).Some?
    ensures Placed(x, Indices9(x).value, 0x240, 0x280)
  {
  }

  lemma Indices9Alone(x: nat, y: nat)
    requires Indices9(x).Some?
    ensures x < y < x + RowAt(Indices9(x).value).format.Span() ==> Indices9(y) == None
  {
  }

  lemma Indices10Placed(x: nat)
    requires Indices10(x).Some?
    ensures Placed(x, Indices10(x).value, 0x280, 0x2C0)
  {
  }

  lemma Indices10Alone(x: nat, y: nat)
    requires Indices10(x).Some?
    ensures x < y < x + RowAt(Indices10(x).value).format.Span() ==> Indices10(y) == None
  {
  }

  lemma Indices11Placed(x: nat)
    requires Indices11(x).Some?
    ensures Placed(x, Indices11(x).value, 0x2C0, 0x300)
  {
  }

  lemma Indices11Alone(x: nat, y: nat)
    requires Indices11(x).Some?
    ensures x < y < x + RowAt(Indices11(x).value).format.Span() ==> Indices11(y) == None
  {
  }

  lemma Indices12Placed(x: nat)
    requires Indices12(x).Some?
    ensures Placed(x, Indices12(x).value, 0x300, 0x340)
  {
  }

  lemma Indices12Alone(x: nat, y: nat)
    requires Indices12(x).Some?
    ensures x < y < x + RowAt(Indices12(x).value).format.Span() ==> Indices12(y) == None
  {
  }

  lemma Indices13Placed(x: nat)
    requires Indices13(x).Some?
    ensures Placed(x, Indices13(x).value, 0x340, 0x380)
  {
  }

  lemma Indices13Alone(x: nat, y: nat)
    requires Indices13(x).Some?
    ensures x < y < x + RowAt(Indices13(x).value).format.Span() ==> Indices13(y) == None
  {
  }

  lemma Indices14Placed(x: nat)
    requires Indices14(x).Some?
    ensures Placed(x, Indices14(x).value, 0x380, 0x3C0)
  {
  }

  lemma Indices14Alone(x: nat, y: nat)
    requires Indices14(x).Some?
    ensures x < y < x + RowAt(Indices14(x).value).format.Span() ==> Indices14(y) == None
  {
  }

  lemma Indices15Placed(x: nat)
    requires Indices15(x).Some?
    ensures Placed(x, Indices15(x).value, 0x3C0, 0x400)
  {
  }

  lemma Indices15Alone(x: nat, y: nat)
    requires Indices15(x).Some?
    ensures x < y < x + RowAt(Indices15(x).value).format.Span() ==> Indices15(y) == None
  {
  }

  lemma Indices16Placed(x: nat)
    requires Indices16(x).Some?
    ensures Placed(x, Indices16(x).value, 0x400, 0x800)
  {
  }

  lemma Indices16Alone(x: nat, y: nat)
    requires Indices16(x).Some?
    ensures x < y < x + RowAt(Indices16(x).value).format.Span() ==> Indices16(y) == None
  {
  }

  lemma Rows0Indexed(n: nat)
    requires 0 <= n < 21
    ensures Rows0(n).opcode < SPU_MAX_INSTRUCTION_COUNT
    ensures RowOf(Rows0(n).opcode).Some? && n <= RowOf(Rows0(n).opcode).value
    ensures RowAt(RowOf(Rows0(n).opcode).value).mnemonic == Rows0(n).mnemonic <==> n != MTSPR
  {
  }

  lemma Rows0Named(n: nat)
    requires 0 <= n < 21
    ensures Rows0(n).mnemonic <= n && RowAt(Rows0(n).mnemonic).opcode == Rows0(n).opcode
    ensures RowAt(Rows0(n).mnemonic).mnemonic == Rows0(n).mnemonic
    ensures Rows0(n).mnemonic != n ==> SecondForm(RowAt(Rows0(n).mnemonic), Rows0(n), n)
  {
  }

  lemma Rows1Indexed(n: nat)
    requires 21 <= n < 42
    ensures Rows1(n).opcode < SPU_MAX_INSTRUCTION_COUNT
    ensures RowOf(Rows1(n).opcode).Some? && n <= RowOf(Rows1(n).opcode).value
    ensures RowAt(RowOf(Rows1(n).opcode).value).mnemonic == Rows1(n).mnemonic <==> n != MTSPR
  {
  }

  lemma Rows1Named(n: nat)
    requires 21 <= n < 42
    ensures Rows1(n).mnemonic <= n && RowAt(Rows1(n).mnemonic).opcode == Rows1(n).opcode
    ensures RowAt(Rows1(n).mnemonic).mnemonic == Rows1(n).mnemonic
    ensures Rows1(n).mnemonic != n ==> SecondForm(RowAt(Rows1(n).mnemonic), Rows1(n), n)
  {
  }

  lemma Rows2Indexed(n: nat)
    requires 42 <= n < 63
    ensures Rows2(n).opcode < SPU_MAX_INSTRUCTION_COUNT
    ensures RowOf(Rows2(n).opcode).Some? && n <= RowOf(Rows2(n).opcode).value
    ensures RowAt(RowOf(Rows2(n).opcode).value).mnemonic == Rows2(n).mnemonic <==> n != MTSPR
  {
  }

  lemma Rows2Named(n: nat)
    requires 42 <= n < 63
    ensures Rows2(n).mnemonic <= n && RowAt(Rows2(n).mnemonic).opcode == Rows2(n).opcode
    ensures RowAt(Rows2(n).mnemonic).mnemonic == Rows2(n).mnemonic
    ensures Rows2(n).mnemonic != n ==> SecondForm(RowAt(Rows2(n).mnemonic), Rows2(n), n)
  {
  }

  lemma Rows3Indexed(n: nat)
    requires 63 <= n < 84
    ensures Rows3(n).opcode < SPU_MAX_INSTRUCTION_COUNT
    ensures RowOf(Rows3(n).opcode).Some? && n <= RowOf(Rows3(n).opcode).value
    ensures RowAt(RowOf(Rows3(n).opcode).value).mnemonic == Rows3(n).mnemonic <==> n != MTSPR
  {
  }

  lemma Rows3Named(n: nat)
    requires 63 <= n < 84
    ensures Rows3(n).mnemonic <= n && RowAt(Rows3(n).mnemonic).opcode == Rows3(n).opcode
    ensures RowAt(Rows3(n).mnemonic).mnemonic == Rows3(n).mnemonic
    ensures Rows3(n).mnemonic != n ==> SecondForm(RowAt(Rows3(n).mnemonic), Rows3(n), n)
  {
  }

  lemma Rows4Indexed(n: nat)
    requires 84 <= n < 105
    ensures Rows4(n).opcode < SPU_MAX_INSTRUCTION_COUNT
    ensures RowOf(Rows4(n).opcode).Some? && n <= RowOf(Rows4(n).opcode).value
    ensures RowAt(RowOf(Rows4(n).opcode).value).mnemonic == Rows4(n).mnemonic <==> n != MTSPR
  {
  }

  lemma Rows4Named(n: nat)
    requires 84 <= n < 105
    ensures Rows4(n).mnemonic <= n && RowAt(Rows4(n).mnemonic).opcode == Rows4(n).opcode
    ensures RowAt(Rows4(n).mnemonic).mnemonic == Rows4(n).mnemonic
    ensures Rows4(n).mnemonic != n ==> SecondForm(RowAt(Rows4(n).mnemonic), Rows4(n), n)
  {
  }

  lemma Rows5Indexed(n: nat)
    requires 105 <= n < 126
    ensures Rows5(n).opcode < SPU_MAX_INSTRUCTION_COUNT
    ensures RowOf(Rows5(n).opcode).Some? && n <= RowOf(Rows5(n).opcode).value
    ensures RowAt(RowOf(Rows5(n).opcode).value).mnemonic == Rows5(n).mnemonic <==> n != MTSPR
  {
  }

  lemma Rows5Named(n: nat)
    requires 105 <= n < 126
    ensures Rows5(n).mnemonic <= n && RowAt(Rows5(n).mnemonic).opcode == Rows5(n).opcode
    ensures RowAt(Rows5(n).mnemonic).mnemonic == Rows5(n).mnemonic
    ensures Rows5(n).mnemonic != n ==> SecondForm(RowAt(Rows5(n).mnemonic), Rows5(n), n)
  {
  }

  lemma Rows6Indexed(n: nat)
    requires 126 <= n < 147
    ensures Rows6(n).opcode < SPU_MAX_INSTRUCTION_COUNT
    ensures RowOf(Rows6(n).opcode).Some? && n <= RowOf(Rows6(n).opcode).value
    ensures RowAt(RowOf(Rows6(n).opcode).value).mnemonic == Rows6(n).mnemonic <==> n != MTSPR
  {
  }

  lemma Rows6Named(n: nat)
    requires 126 <= n < 147
    ensures Rows6(n).mnemonic <= n && RowAt(Rows6(n).mnemonic).opcode == Rows6(n).opcode
    ensures RowAt(Rows6(n).mnemonic).mnemonic == Rows6(n).mnemonic
    ensures Rows6(n).mnemonic != n ==> SecondForm(RowAt(Rows6(n).mnemonic), Rows6(n), n)
  {
  }

  lemma Rows7Indexed(n: nat)
    requires 147 <= n < 168
    ensures Rows7(n).opcode < SPU_MAX_INSTRUCTION_COUNT
    ensures RowOf(Rows7(n).opcode).Some? && n <= RowOf(Rows7(n).opcode).value
    ensures RowAt(RowOf(Rows7(n).opcode).value).mnemonic == Rows7(n).mnemonic <==> n != MTSPR
  {
  }

  lemma Rows7Named(n: nat)
    requires 147 <= n < 168
    ensures Rows7(n).mnemonic <= n && RowAt(Rows7(n).mnemonic).opcode == Rows7(n).opcode
    ensures RowAt(Rows7(n).mnemonic).mnemonic == Rows7(n).mnemonic
    ensures Rows7(n).mnemonic != n ==> SecondForm(RowAt(Rows7(n).mnemonic), Rows7(n), n)
  {
  }

  lemma Rows8Indexed(n: nat)
    requires 168 <= n < 189
    ensures Rows8(n).opcode < SPU_MAX_INSTRUCTION_COUNT
    ensures RowOf(Rows8(n).opcode).Some? && n <= RowOf(Rows8(n).opcode).value
    ensures RowAt(RowOf(Rows8(n).opcode).value).mnemonic == Rows8(n).mnemonic <==> n != MTSPR
  {
  }

  lemma Rows8Named(n: nat)
    requires 168 <= n < 189
    ensures Rows8(n).mnemonic <= n && RowAt(Rows8(n).mnemonic).opcode == Rows8(n).opcode
    ensures RowAt(Rows8(n).mnemonic).mnemonic == Rows8(n).mnemonic
    ensures Rows8(n).mnemonic != n ==> SecondForm(RowAt(Rows8(n).mnemonic), Rows8(n), n)
  {
  }

  lemma Rows9Indexed(n: nat)
    requires 189 <= n < 210
    ensures Rows9(n).opcode < SPU_MAX_INSTRUCTION_COUNT
    ensures RowOf(Rows9(n).opcode).Some? && n <= RowOf(Rows9(n).opcode).value
    ensures RowAt(RowOf(Rows9(n).opcode).value).mnemonic == Rows9(n).mnemonic <==> n != MTSPR
  {
  }

  lemma Rows9Named(n: nat)
    requires 189 <= n < 210
    ensures Rows9(n).mnemonic <= n && RowAt(Rows9(n).mnemonic).opcode == Rows9(n).opcode
    ensures RowAt(Rows9(n).mnemonic).mnemonic == Rows9(n).mnemonic
    ensures Rows9(n).mnemonic != n ==> SecondForm(RowAt(Rows9(n).mnemonic), Rows9(n), n)
  {
  }

  lemma OpcodePlaced(x: nat)
    requires RowOf(x).Some?
    ensures Placed(x, RowOf(x).value, 0, SPU_MAX_INSTRUCTION_COUNT)
  {
    if x < 0x40 {
      Indices0Placed(x);
    } else if x < 0x80 {
      Indices1Placed(x);
    } else if x < 0xC0 {
      Indices2Placed(x);
    } else if x < 0x100 {
      Indices3Placed(x);
    } else if x < 0x140 {
      Indices4Placed(x);
    } else if x < 0x180 {
      Indices5Placed(x);
    } else if x < 0x1C0 {
      Indices6Placed(x);
    } else if x < 0x200 {
      Indices7Placed(x);
    } else if x < 0x240 {
      Indices8Placed(x);
    } else if x < 0x280 {
      Indices9Placed(x);
    } else if x < 0x2C0 {
      Indices10Placed(x);
    } else if x < 0x300 {
      Indices11Placed(x);
    } else if x < 0x340 {
      Indices12Placed(x);
    } else if x < 0x380 {
      Indices13Placed(x);
    } else if x < 0x3C0 {
      Indices14Placed(x);
    } else if x < 0x400 {
      Indices15Placed(x);
    } else {
      Indices16Placed(x);
    }
  }

  /** No opcode lies in the range of prefixes of another: the opcodes are prefix-free. */
  lemma OpcodeAlone(x: nat, y: nat)
    requires RowOf(x).Some?
    ensures x < y < x + RowAt(RowOf(x).value).format.Span() ==> RowOf(y) == None
  {
    if x < 0x40 {
      Indices0Placed(x);
      Indices0Alone(x, y);
    } else if x < 0x80 {
      Indices1Placed(x);
      Indices1Alone(x, y);
    } else if x < 0xC0 {
      Indices2Placed(x);
      Indices2Alone(x, y);
    } else if x < 0x100 {
      Indices3Placed(x);
      Indices3Alone(x, y);
    } else if x < 0x140 {
      Indices4Placed(x);
      Indices4Alone(x, y);
    } else if x < 0x180 {
      Indices5Placed(x);
      Indices5Alone(x, y);
    } else if x < 0x1C0 {
      Indices6Placed(x);
      Indices6Alone(x, y);
    } else if x < 0x200 {
      Indices7Placed(x);
      Indices7Alone(x, y);
    } else if x < 0x240 {
      Indices8Placed(x);
      Indices8Alone(x, y);
    } else if x < 0x280 {
      Indices9Placed(x);
      Indices9Alone(x, y);
    } else if x < 0x2C0 {
      Indices10Placed(x);
      Indices10Alone(x, y);
    } else if x < 0x300 {
      Indices11Placed(x);
      Indices11Alone(x, y);
    } else if x < 0x340 {
      Indices12Placed(x);
      Indices12Alone(x, y);
    } else if x < 0x380 {
      Indices13Placed(x);
      Indices13Alone(x, y);
    } else if x < 0x3C0 {
      Indices14Placed(x);
      Indices14Alone(x, y);
    } else if x < 0x400 {
      Indices15Placed(x);
      Indices15Alone(x, y);
    } else {
      Indices16Placed(x);
      Indices16Alone(x, y);
    }
  }

  /** Every row is the source of its index, unless a later row with the same opcode is; only "mtspr"
      loses its place to another mnemonic. */
  lemma RowIndexed(n: nat)
    requires n < ROWS
    ensures RowAt(n).opcode < SPU_MAX_INSTRUCTION_COUNT
    ensures RowOf(RowAt(n).opcode).Some? && n <= RowOf(RowAt(n).opcode).value
    ensures RowAt(RowOf(RowAt(n).opcode).value).mnemonic == RowAt(n).mnemonic <==> n != MTSPR
  {
    if n < 21 {
      Rows0Indexed(n);
    } else if n < 42 {
      Rows1Indexed(n);
    } else if n < 63 {
      Rows2Indexed(n);
    } else if n < 84 {
      Rows3Indexed(n);
    } else if n < 105 {
      Rows4Indexed(n);
    } else if n < 126 {
      Rows5Indexed(n);
    } else if n < 147 {
      Rows6Indexed(n);
    } else if n < 168 {
      Rows7Indexed(n);
    } else if n < 189 {
      Rows8Indexed(n);
    } else {
      Rows9Indexed(n);
    }
  }

  /** Rows with the same mnemonic have the same opcode. */
  lemma RowNamed(n: nat)
    requires n < ROWS
    ensures RowAt(n).mnemonic <= n && RowAt(RowAt(n).mnemonic).opcode == RowAt(n).opcode
    ensures RowAt(RowAt(n).mnemonic).mnemonic == RowAt(n).mnemonic
    ensures RowAt(n).mnemonic != n ==> SecondForm(RowAt(RowAt(n).mnemonic), RowAt(n), n)
  {
    if n < 21 {
      Rows0Named(n);
    } else if n < 42 {
      Rows1Named(n);
    } else if n < 63 {
      Rows2Named(n);
    } else if n < 84 {
      Rows3Named(n);
    } else if n < 105 {
      Rows4Named(n);
    } else if n < 126 {
      Rows5Named(n);
    } else if n < 147 {
      Rows6Named(n);
    } else if n < 168 {
      Rows7Named(n);
    } else if n < 189 {
      Rows8Named(n);
    } else {
      Rows9Named(n);
    }
  }

  // ----- the tables -----

  /** `db_op_type[x]`, where None stands for -1. */
  function FormatAt(x: nat): Option<Format> {
    match RowOf(x)
    case None => None
    case Some(n) => Some(RowAt(n).format)
  }

  /** `db_op_mnemonic[x]`, where None stands for the empty string. */
  function MnemonicAt(x: nat): Option<nat> {
    match RowOf(x)
    case None => None
    case Some(n) => Some(RowAt(n).mnemonic)
  }

  /** The last of the rows with opcode `x`. */
  function LastRow(rows: seq<Row>, x: nat): (k: Option<nat>)
    ensures k.Some? ==> k.value < |rows| && rows[k.value].opcode == x
    ensures forall j :: 0 <= j < |rows| && rows[j].opcode == x ==> k.Some? && j <= k.value
  {
    var n := |rows| - 1;
    if n < 0 then None
    else if rows[n].opcode == x then Some(n)
    else LastRow(rows[..n], x)
  }

  function FormatIn(rows: seq<Row>, x: nat): Option<Format> {
    match LastRow(rows, x)
    case None => None
    case Some(n) => Some(rows[n].format)
  }

  function MnemonicIn(rows: seq<Row>, x: nat): Option<nat> {
    match LastRow(rows, x)
    case None => None
    case Some(n) => Some(rows[n].mnemonic)
  }

  /** The argument lists of the rows with opcode `x`, in their order. */
  function ListsIn(rows: seq<Row>, x: nat): seq<ArgList> {
    var n := |rows| - 1;
    if n < 0 then []
    else ListsIn(rows[..n], x) + if rows[n].opcode == x then [rows[n].args] else []
  }

  /** The table arrays filled from the first rows. */
  ghost predicate Built(
    rows: seq<Row>, types: array<Option<Format>>, mnemonics: array<Option<nat>>, lists: array<seq<ArgList>>)
    reads types, mnemonics, lists
  {
    types.Length == SPU_MAX_INSTRUCTION_COUNT && mnemonics.Length == SPU_MAX_INSTRUCTION_COUNT
    && lists.Length == SPU_MAX_INSTRUCTION_COUNT
    && (forall x :: 0 <= x < SPU_MAX_INSTRUCTION_COUNT ==> types[x] == FormatIn(rows, x))
    && (forall x :: 0 <= x < SPU_MAX_INSTRUCTION_COUNT ==> mnemonics[x] == MnemonicIn(rows, x))
    && (forall x :: 0 <= x < SPU_MAX_INSTRUCTION_COUNT ==> lists[x] == ListsIn(rows, x))
  }

  lemma OneMoreRow(rows: seq<Row>, n: nat, x: nat)
    requires n < |rows|
    ensures FormatIn(rows[..n + 1], x) == if rows[n].opcode == x then Some(rows[n].format) else FormatIn(rows[..n], x)
    ensures MnemonicIn(rows[..n + 1], x)
         == if rows[n].opcode == x then Some(rows[n].mnemonic) else MnemonicIn(rows[..n], x)
    ensures ListsIn(rows[..n + 1], x)
         == ListsIn(rows[..n], x) + if rows[n].opcode == x then [rows[n].args] else []
  {
    assert rows[..n + 1][..n] == rows[..n];
  }

  /** spu_build_op_db: the rows are applied one by one, a later one overwriting the format and the mnemonic of
      an earlier one, and adding its list of arguments. */
  method BuildOpDb(rows: seq<Row>)
    returns (types: array<Option<Format>>, mnemonics: array<Option<nat>>, lists: array<seq<ArgList>>)
    requires forall n :: 0 <= n < |rows| ==> rows[n].opcode < SPU_MAX_INSTRUCTION_COUNT
    ensures Built(rows, types, mnemonics, lists)
  {
    types := new Option<Format>[SPU_MAX_INSTRUCTION_COUNT](_ => None);
    mnemonics := new Option<nat>[SPU_MAX_INSTRUCTION_COUNT](_ => None);
    lists := new seq<ArgList>[SPU_MAX_INSTRUCTION_COUNT](_ => []);
    for n := 0 to |rows|
      invariant Built(rows[..n], types, mnemonics, lists)
    {
      forall x: nat {
        OneMoreRow(rows, n, x);
      }
      types[rows[n].opcode] := Some(rows[n].format);
      mnemonics[rows[n].opcode] := Some(rows[n].mnemonic);
      lists[rows[n].opcode] := lists[rows[n].opcode] + [rows[n].args];
    }
    assert rows[..|rows|] == rows;
  }

  /** The rows of the instruction list. */
  function Rows(): (rows: seq<Row>)
    ensures |rows| == ROWS
  {
    seq(ROWS, n requires 0 <= n < ROWS => RowAt(n))
  }

  lemma LastRowIs(rows: seq<Row>, x: nat, n: Option<nat>)
    requires n.Some? ==> n.value < |rows| && rows[n.value].opcode == x
    requires forall j :: 0 <= j < |rows| && rows[j].opcode == x ==> n.Some? && j <= n.value
    ensures LastRow(rows, x) == n
  {
  }

  /** The tables built from the instruction list are the ones the decoder reads. */
  lemma BuiltTables(x: nat)
    ensures FormatIn(Rows(), x) == FormatAt(x) && MnemonicIn(Rows(), x) == MnemonicAt(x)
  {
    forall j | 0 <= j < ROWS && Rows()[j].opcode == x
      ensures RowOf(x).Some? && j <= RowOf(x).value
    {
      RowIndexed(j);
    }
    if RowOf(x).Some? {
      OpcodePlaced(x);
    }
    LastRowIs(Rows(), x, RowOf(x));
  }

  /** A mnemonic stands at no index but the opcode of its row. */
  lemma MnemonicsUnique(x: nat, m: nat)
    requires MnemonicAt(x) == Some(m)
    ensures m < ROWS && RowAt(m).opcode == x
  {
    OpcodePlaced(x);
    RowNamed(RowOf(x).value);
  }

  lemma {:induction false} ListsAfter(rows: seq<Row>, x: nat, i: nat)
    requires i <= |rows| && forall j :: i <= j < |rows| ==> rows[j].opcode != x
    ensures ListsIn(rows, x) == ListsIn(rows[..i], x)
  {
    var n := |rows| - 1;
    if i <= n {
      ListsAfter(rows[..n], x, i);
      assert rows[..n][..i] == rows[..i];
    } else {
      assert rows[..i] == rows;
    }
  }

  lemma ListsUpTo(rows: seq<Row>, x: nat, i: nat, n: nat)
    requires i <= n < |rows| && rows[n].opcode == x && forall j :: i <= j < |rows| && j != n ==> rows[j].opcode != x
    ensures ListsIn(rows, x) == ListsIn(rows[..i], x) + [rows[n].args]
  {
    ListsAfter(rows, x, n + 1);
    assert rows[..n + 1][..n] == rows[..n];
    ListsAfter(rows[..n], x, i);
    assert rows[..n][..i] == rows[..i];
  }

  /** The lists of an opcode that one row, or two, have. */
  lemma ListsOfTwo(rows: seq<Row>, x: nat, m: nat, n: nat)
    requires m <= n < |rows| && rows[m].opcode == x && rows[n].opcode == x
    requires forall j :: 0 <= j < |rows| && rows[j].opcode == x ==> j == m || j == n
    ensures ListsIn(rows, x) == if m == n then [rows[m].args] else [rows[m].args, rows[n].args]
  {
    if m == n {
      ListsUpTo(rows, x, 0, n);
    } else {
      ListsUpTo(rows, x, m + 1, n);
      ListsUpTo(rows[..m + 1], x, 0, m);
      assert rows[..m + 1][..0] == rows[..0];
    }
    assert ListsIn(rows[..0], x) == [];
  }

  /** A mnemonic has one list, or the two of its row and the next. */
  predicate HasTwoForms(m: nat) {
    m + 1 < ROWS && RowAt(m + 1).mnemonic == m
  }

  /** The row of "syscall", which shares its opcode with "mtspr". */
  const SYSCALL: nat := 198

  /** Row `m` is the first with its mnemonic, and no row with another mnemonic has its opcode. */
  predicate Owner(m: nat) {
    m < ROWS && RowAt(m).mnemonic == m && m != MTSPR && m != SYSCALL
  }

  lemma SyscallRow()
    ensures RowAt(SYSCALL) == Row(RI7, 0x10C, SYSCALL, TAS7) && RowAt(MTSPR) == Row(RR, 0x10C, MTSPR, AT)
    ensures RowOf(0x10C) == Some(SYSCALL)
  {
  }

  lemma RowsOfOwner(m: nat, j: nat)
    requires Owner(m) && j < ROWS && RowAt(j).opcode == RowAt(m).opcode
    ensures RowAt(j).mnemonic == m && (j == m || j == m + 1)
  {
    SyscallRow();
    RowIndexed(m);
    RowIndexed(j);
    RowNamed(j);
    MnemonicsUnique(RowAt(m).opcode, m);
  }

  /** The table holds for each mnemonic the lists of its forms, in their order. */
  lemma ListsOfMnemonic(m: nat)
    requires Owner(m)
    ensures ListsIn(Rows(), RowAt(m).opcode)
         == if HasTwoForms(m) then [RowAt(m).args, RowAt(m + 1).args] else [RowAt(m).args]
  {
    forall j | 0 <= j < ROWS && Rows()[j].opcode == RowAt(m).opcode
      ensures j == m || (HasTwoForms(m) && j == m + 1)
    {
      RowsOfOwner(m, j);
    }
    if HasTwoForms(m) {
      RowNamed(m + 1);
      ListsOfTwo(Rows(), RowAt(m).opcode, m, m + 1);
    } else {
      ListsOfTwo(Rows(), RowAt(m).opcode, m, m);
    }
  }

  /** At the opcode of "syscall" the list of "mtspr" still stands in front. */
  lemma ListsOfSyscall()
    ensures ListsIn(Rows(), 0x10C) == [AT, TAS7]
  {
    SyscallRow();
    forall j | 0 <= j < ROWS && Rows()[j].opcode == 0x10C
      ensures j == MTSPR || j == SYSCALL
    {
      RowIndexed(j);
      RowNamed(j);
    }
    ListsOfTwo(Rows(), 0x10C, MTSPR, SYSCALL);
  }

  lemma FormsOfMnemonic(m: nat, first: ArgList)
    requires Owner(m) && first == RowAt(m).args
    ensures ListsIn(Rows(), RowAt(m).opcode) == if HasTwoForms(m) then [first, RowAt(m + 1).args] else [first]
    ensures HasTwoForms(m) ==> TwoForms(first, RowAt(m + 1).args)
    ensures HasTwoForms(m) ==> RowAt(m).format == if first == TAS10 then RI10 else RR
  {
    ListsOfMnemonic(m);
    if HasTwoForms(m) {
      RowNamed(m + 1);
    }
  }

  lemma FormatOfMnemonic(m: nat)
    requires Owner(m)
    ensures RowAt(m).opcode < SPU_MAX_INSTRUCTION_COUNT && FormatAt(RowAt(m).opcode) == Some(RowAt(m).format)
  {
    RowIndexed(m);
    var n := RowOf(RowAt(m).opcode).value;
    OpcodePlaced(RowAt(m).opcode);
    RowsOfOwner(m, n);
    RowNamed(n);
  }
}
