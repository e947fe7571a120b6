/** `src/spu_emu_mem.cpp`: the eight quadword loads and stores, and the memory of quadwords they work on. */
module LocalStore {
  import opened Bits
  import opened Vectors
  import opened SpuState

  datatype RI10 = RI10(RT: reg, RA: reg, I10: nat)
  datatype RI16 = RI16(RT: reg, I16: nat)

  // ----- effective addresses -----

  /** Conversion to `uint32_t`. */
  function ToWord(x: int): word { x % TWO_32 }

  /** `x & SPU_LSLR & (uint32_t)(-16)`. */
  function MaskAddress(x: word): nat { And(And(x, 0x3_FFFF), 0xFFFF_FFF0) }

  const CELLS: nat := 0x4000

  /** The quadword that holds byte address `x`, addresses wrapping at the size of the local store. */
  function CellOf(x: int): (c: nat)
    ensures c < CELLS
  {
    x % LOCAL_STORE_SIZE / 16
  }

  lemma MaskedAddress(x: word)
    ensures MaskAddress(x) == 16 * CellOf(x)
  {
    assert Pow2(18) == 0x4_0000 && Pow2(4) == 0x10;
    var y, h := x % 0x4_0000, x / 0x4_0000;
    AndLow(18, 0x4_0000, y, h);
    var lo, hi := y % 0x10, y / 0x10;
    ClearLowBits(lo, hi);
  }

  lemma ClearLowBits(lo: nat, hi: nat)
    requires lo < 0x10 && hi < 0x4000
    ensures And(lo + 0x10 * hi, 0xFFFF_FFF0) == 0x10 * hi
  {
    AndJoin(4, 0x10, lo, hi, 0, 0xFFF_FFFF);
    AndZero(lo);
    assert Pow2(14) == 0x4000;
    AndJoin(14, 0x4000, hi, 0, 0x3FFF, 0x3FFF);
    AndOnes(14, hi);
  }

  /** Whole turns around the local store do not change the cell. */
  lemma CellOfTurns(x: int, k: int)
    ensures CellOf(x + LOCAL_STORE_SIZE * k) == CellOf(x)
  {
    var q, r := x / LOCAL_STORE_SIZE, x % LOCAL_STORE_SIZE;
    QuotientUnique(x + LOCAL_STORE_SIZE * k, LOCAL_STORE_SIZE, q + k, r);
  }

  /** Reducing modulo 2^32 on the way does not change the cell. */
  lemma CellOfWord(x: int)
    ensures CellOf(ToWord(x)) == CellOf(x)
  {
    CellOfTurns(x, 0 - 0x4000 * (x / TWO_32));
  }

  lemma CellOfSum(x: int, y: int)
    ensures CellOf(ToWord(x + ToWord(y))) == CellOf(x + y)
  {
    CellOfWord(x + ToWord(y));
    CellOfTurns(x + y, 0 - 0x4000 * (y / TWO_32));
  }

  /** The displacements of the immediate forms: the field in two's complement, scaled by the size of
      a quadword or of a word. */
  lemma ScaledField(t: nat, bits: nat, k: nat)
    requires 1 <= bits && bits + k <= 64
    ensures SignExtend(t * Pow2(k), bits + k) == Pow2(k) * FieldValue(t, Pow2(bits))
  {
    SignExtendIsFieldValue(t * Pow2(k), bits + k);
    Pow2Add(bits, k);
    ScaledFieldValue(t, Pow2(bits), Pow2(k), Pow2(bits + k));
  }

  lemma ScaledFieldValue(t: nat, m: nat, p: nat, mp: nat)
    requires m >= 1 && p >= 1 && mp == m * p
    ensures mp >= 1 && FieldValue(t * p, mp) == p * FieldValue(t, m)
  {
    var k, r := t / m, t % m;
    ScaledParts(t, m, p, mp, k, r);
    QuotientUnique(t * p, mp, k, p * r);
    assert p * (r - m) == p * r - mp;
    SignOfScaled(2 * r - m, p);
    assert p * (2 * r - m) == 2 * (p * r) - mp;
  }

  lemma ScaledParts(t: int, m: nat, p: nat, mp: nat, k: int, r: int)
    requires m >= 1 && p >= 1 && mp == m * p && t == m * k + r && 0 <= r < m
    ensures mp >= 1 && t * p == mp * k + p * r && 0 <= p * r < mp
  {
    assert (m * k + r) * p == (m * p) * k + p * r;
    assert p * (m - r) >= 1;
    assert p * (m - r) == m * p - p * r;
  }

  lemma SignOfScaled(d: int, p: nat)
    requires p >= 1
    ensures d >= 0 <==> p * d >= 0
  {
  }

  lemma MaskedSum(x: int, y: int)
    ensures MaskAddress(ToWord(x + ToWord(y))) == 16 * CellOf(x + y)
  {
    MaskedAddress(ToWord(x + ToWord(y)));
    CellOfSum(x, y);
  }

  method DisplacementOfI10(i10: nat) returns (d: int)
    ensures d == 16 * FieldValue(i10, 0x400)
  {
    d := SignExtend(i10 * 16, 14);
    assert Pow2(4) == 16 && Pow2(10) == 0x400;
    ScaledField(i10, 10, 4);
  }

  method DisplacementOfI16(i16: nat) returns (d: int)
    ensures d == 4 * FieldValue(i16, 0x1_0000)
  {
    d := SignExtend(i16 * 4, 18);
    Powers();
    assert Pow2(2) == 4;
    ScaledField(i16, 16, 2);
  }

  method AddressOfSum(x: word, d: int) returns (LSA: nat)
    ensures LSA == 16 * CellOf(x + d) && LSA % 16 == 0 && LSA + 16 <= LOCAL_STORE_SIZE
    ensures LSA == (x + d) % 0x4_0000 / 16 * 16
  {
    MaskedSum(x, d);
    LSA := MaskAddress(ToWord(x + ToWord(d)));
    CellAligned(CellOf(x + d), LSA);
  }

  lemma CellAligned(c: nat, a: nat)
    requires c < CELLS && a == 16 * c
    ensures a % 16 == 0 && a + 16 <= LOCAL_STORE_SIZE
  {
  }

  // ----- quadwords of the local store -----

  /** `_mm_loadr_ps` and `_mm_storer_ps`: the four words in reverse order, the bytes of each word in place. */
  function ReverseWords(q: Quad): Quad {
    q[12..] + q[8..12] + q[4..8] + q[..4]
  }

  lemma WordsReversed(q: Quad)
    ensures forall i :: 0 <= i < 4 ==> Word(ReverseWords(q), i) == Word(q, 3 - i)
    ensures ReverseWords(ReverseWords(q)) == q
  {
    var r := ReverseWords(q);
    assert r[..4] == q[12..] && r[4..8] == q[8..12] && r[8..12] == q[4..8] && r[12..] == q[..4];
  }

  // ----- the eight forms -----

  datatype MemOp =
    | Lqd(d: RI10) | Lqx(x: RR) | Lqa(a: RI16) | Lqr(r: RI16)
    | Stqd(d: RI10) | Stqx(x: RR) | Stqa(a: RI16) | Stqr(r: RI16)
  {
    predicate IsStore() { Stqd? || Stqx? || Stqa? || Stqr? }

    function Target(): reg {
      match this
      case Lqd(i) => i.RT case Stqd(i) => i.RT
      case Lqx(i) => i.RT case Stqx(i) => i.RT
      case Lqa(i) => i.RT case Stqa(i) => i.RT
      case Lqr(i) => i.RT case Stqr(i) => i.RT
    }
  }

  /** The simple machine: registers, and a memory of quadwords held in the order of registers. */
  datatype Machine = Machine(regs: seq<Quad>, cells: seq<Quad>, ip: word) {
    predicate Valid() { |regs| == 0x80 && |cells| == CELLS }

    /** The scalar of register `r`. */
    function Pref(r: reg): word
      requires Valid()
    {
      Word(regs[r], GPR_PREF_SLOT)
    }

    function Loaded(r: reg, c: nat): Machine
      requires Valid() && c < CELLS
    {
      this.(regs := regs[r := cells[c]])
    }

    function Stored(r: reg, c: nat): Machine
      requires Valid() && c < CELLS
    {
      this.(cells := cells[c := regs[r]])
    }
  }

  /** The address each form describes, before it is reduced to a quadword of the local store. */
  function Address(op: MemOp, m: Machine): int
    requires m.Valid()
  {
    match op
    case Lqd(i) => AddressOfD(m, i) case Stqd(i) => AddressOfD(m, i)
    case Lqx(i) => AddressOfX(m, i) case Stqx(i) => AddressOfX(m, i)
    case Lqa(i) => 4 * FieldValue(i.I16, 0x1_0000) case Stqa(i) => 4 * FieldValue(i.I16, 0x1_0000)
    case Lqr(i) => AddressOfR(m, i) case Stqr(i) => AddressOfR(m, i)
  }

  function AddressOfD(m: Machine, i: RI10): int
    requires m.Valid()
  {
    m.Pref(i.RA) + 16 * FieldValue(i.I10, 0x400)
  }

  function AddressOfX(m: Machine, i: RR): int
    requires m.Valid()
  {
    m.Pref(i.RA) + m.Pref(i.RB)
  }

  function AddressOfR(m: Machine, i: RI16): int
    requires m.Valid()
  {
    m.ip + 4 * FieldValue(i.I16, 0x1_0000)
  }

  function Cell(op: MemOp, m: Machine): (c: nat)
    requires m.Valid()
    ensures c < CELLS
  {
    CellOf(Address(op, m))
  }

  function Step(m: Machine, op: MemOp): (n: Machine)
    requires m.Valid()
    ensures n.Valid()
  {
    if op.IsStore() then m.Stored(op.Target(), Cell(op, m)) else m.Loaded(op.Target(), Cell(op, m))
  }

  // ----- the emulator's state as a machine -----

  /** The quadword at byte address `16 * c`, in the order of registers. */
  function CellAt(spu: Spu, c: nat): Quad
    requires spu.Valid() && c < CELLS
    reads spu.LocalStorage
  {
    ReverseWords(spu.LocalStorage[16 * c..16 * c + 16])
  }

  function Abs(spu: Spu): (m: Machine)
    requires spu.Valid()
    reads spu, spu.GPR, spu.LocalStorage
    ensures m.Valid()
  {
    Machine(
      seq(0x80, r requires 0 <= r < 0x80 && spu.Valid() reads spu.GPR => spu.Row(r)),
      seq(CELLS, c requires 0 <= c < CELLS && spu.Valid() reads spu.LocalStorage => CellAt(spu, c)),
      spu.IP)
  }

  lemma PartOfSlice(bytes: seq<byte>, a: nat, from: nat, to: nat)
    requires from <= to <= 16 && a + 16 <= |bytes|
    ensures bytes[a..a + 16][from..to] == bytes[a + from..a + to]
  {
    var part, same := bytes[a..a + 16][from..to], bytes[a + from..a + to];
    assert forall n :: 0 <= n < |part| ==> part[n] == same[n];
  }

  lemma WordsOfSlice(bytes: seq<byte>, a: nat)
    requires a + 16 <= |bytes|
    ensures ReverseWords(bytes[a..a + 16])
         == bytes[a + 12..a + 16] + bytes[a + 8..a + 12] + bytes[a + 4..a + 8] + bytes[a..a + 4]
  {
    PartOfSlice(bytes, a, 12, 16);
    PartOfSlice(bytes, a, 8, 12);
    PartOfSlice(bytes, a, 4, 8);
    PartOfSlice(bytes, a, 0, 4);
  }

  /** COPY_LSA_TO_GPR. */
  method CopyToGpr(spu: Spu, LSA: nat, rt: reg, ghost c: nat)
    requires spu.Valid() && c < CELLS && LSA == 16 * c
    modifies spu.GPR
    ensures Abs(spu) == old(Abs(spu)).Loaded(rt, c)
    ensures spu.Row(rt) == spu.LocalStorage[LSA + 12..LSA + 16] + spu.LocalStorage[LSA + 8..LSA + 12]
                           + spu.LocalStorage[LSA + 4..LSA + 8] + spu.LocalStorage[LSA..LSA + 4]
    ensures spu.OthersKept(rt)
  {
    ghost var m := Abs(spu);
    var q := ReverseWords(spu.LocalStorage[LSA..LSA + 16]);
    WordsOfSlice(spu.LocalStorage[..], LSA);
    assert spu.LocalStorage[..][LSA..LSA + 16] == spu.LocalStorage[LSA..LSA + 16];
    spu.SetRow(rt, q);
    assert Abs(spu).regs == m.regs[rt := m.cells[c]];
    assert Abs(spu).cells == m.cells;
  }

  method PutQuad(spu: Spu, LSA: nat, q: Quad)
    requires spu.Valid() && LSA + 16 <= LOCAL_STORE_SIZE
    modifies spu.LocalStorage
    ensures spu.LocalStorage[..] == old(spu.LocalStorage[..])[..LSA] + q + old(spu.LocalStorage[..])[LSA + 16..]
  {
    forall i | 0 <= i < 16 {
      spu.LocalStorage[LSA + i] := q[i];
    }
    assert spu.LocalStorage[LSA..LSA + 16] == q;
  }

  lemma CellStored(before: seq<byte>, after: seq<byte>, c: nat, q: Quad, d: nat, a: nat, b: nat)
    requires |before| == LOCAL_STORE_SIZE && c < CELLS && d < CELLS && a == 16 * c && b == 16 * d
    requires after == before[..a] + q + before[a + 16..]
    ensures |after| == LOCAL_STORE_SIZE && after[b..b + 16] == if d == c then q else before[b..b + 16]
  {
    if d != c {
      assert forall k :: b <= k < b + 16 ==> after[k] == before[k];
    }
  }

  /** COPY_GPR_TO_LSA. */
  method CopyToStore(spu: Spu, LSA: nat, rt: reg, ghost c: nat)
    requires spu.Valid() && c < CELLS && LSA == 16 * c
    modifies spu.LocalStorage
    ensures Abs(spu) == old(Abs(spu)).Stored(rt, c)
    ensures spu.LocalStorage[..] == old(spu.LocalStorage[..])[..LSA] + spu.Row(rt)[12..] + spu.Row(rt)[8..12]
                                    + spu.Row(rt)[4..8] + spu.Row(rt)[..4] + old(spu.LocalStorage[..])[LSA + 16..]
  {
    ghost var m, before := Abs(spu), spu.LocalStorage[..];
    var row := spu.Row(rt);
    var q := ReverseWords(row);
    WordsReversed(row);
    PutQuad(spu, LSA, q);
    forall d | 0 <= d < CELLS
      ensures CellAt(spu, d) == if d == c then row else m.cells[d]
    {
      CellStored(before, spu.LocalStorage[..], c, q, d, LSA, 16 * d);
      assert spu.LocalStorage[16 * d..16 * d + 16] == spu.LocalStorage[..][16 * d..16 * d + 16];
      assert before[16 * d..16 * d + 16] == old(spu.LocalStorage[16 * d..16 * d + 16]);
    }
    assert Abs(spu).cells == m.cells[c := m.regs[rt]];
    assert Abs(spu).regs == m.regs;
  }

  // ----- the bytes that move -----

  /** The four words of a register are those at the quadword of address `x + d`, in reverse order. */
  ghost predicate LoadedFrom(row: Quad, store: seq<byte>, x: int, d: int)
    requires |store| == LOCAL_STORE_SIZE
  {
    var a := (x + d) % 0x4_0000 / 16 * 16;
    row == store[a + 12..a + 16] + store[a + 8..a + 12] + store[a + 4..a + 8] + store[a..a + 4]
  }

  /** The words of a register are put to the quadword of address `x + d` in reverse order, all else stays. */
  ghost predicate StoredTo(before: seq<byte>, after: seq<byte>, row: Quad, x: int, d: int)
    requires |before| == LOCAL_STORE_SIZE
  {
    var a := (x + d) % 0x4_0000 / 16 * 16;
    after == before[..a] + row[12..] + row[8..12] + row[4..8] + row[..4] + before[a + 16..]
  }

  lemma WordOfSlices(row: Quad, store: seq<byte>, a: nat, i: nat, b: nat)
    requires a + 16 <= |store| && i < 4 && b == a + 12 - 4 * i
    requires row == store[a + 12..a + 16] + store[a + 8..a + 12] + store[a + 4..a + 8] + store[a..a + 4]
    ensures Word(row, i) == FourBytes(store[b], store[b + 1], store[b + 2], store[b + 3])
  {
    assert row[4 * i] == store[b] && row[4 * i + 1] == store[b + 1];
    assert row[4 * i + 2] == store[b + 2] && row[4 * i + 3] == store[b + 3];
  }

  /** Word `i` of a loaded register is the one at byte `12 - 4 * i` of the quadword, with its bytes in place. */
  lemma LoadedWord(row: Quad, store: seq<byte>, x: int, d: int, i: nat, b: nat)
    requires |store| == LOCAL_STORE_SIZE && LoadedFrom(row, store, x, d) && i < 4
    requires b == (x + d) % 0x4_0000 / 16 * 16 + 12 - 4 * i
    ensures b + 4 <= LOCAL_STORE_SIZE && Word(row, i) == FourBytes(store[b], store[b + 1], store[b + 2], store[b + 3])
  {
    WordOfSlices(row, store, (x + d) % 0x4_0000 / 16 * 16, i, b);
  }

  lemma SlicesOfStore(before: seq<byte>, after: seq<byte>, row: Quad, a: nat)
    requires a + 16 <= |before|
    requires after == before[..a] + row[12..] + row[8..12] + row[4..8] + row[..4] + before[a + 16..]
    ensures |after| == |before|
    ensures row == after[a + 12..a + 16] + after[a + 8..a + 12] + after[a + 4..a + 8] + after[a..a + 4]
  {
    assert after[a..a + 4] == row[12..] && after[a + 4..a + 8] == row[8..12];
    assert after[a + 8..a + 12] == row[4..8] && after[a + 12..a + 16] == row[..4];
  }

  /** A store puts word `i` of the register there, and changes no byte outside of the quadword. */
  lemma StoredWord(before: seq<byte>, after: seq<byte>, row: Quad, x: int, d: int, i: nat, b: nat)
    requires |before| == LOCAL_STORE_SIZE && StoredTo(before, after, row, x, d) && i < 4
    requires b == (x + d) % 0x4_0000 / 16 * 16 + 12 - 4 * i
    ensures b + 4 <= |after| && Word(row, i) == FourBytes(after[b], after[b + 1], after[b + 2], after[b + 3])
  {
    var a := (x + d) % 0x4_0000 / 16 * 16;
    SlicesOfStore(before, after, row, a);
    WordOfSlices(row, after, a, i, b);
  }

  lemma StoredElsewhere(before: seq<byte>, after: seq<byte>, row: Quad, x: int, d: int, b: nat)
    requires |before| == LOCAL_STORE_SIZE && StoredTo(before, after, row, x, d) && b < LOCAL_STORE_SIZE
    requires b / 16 != (x + d) % 0x4_0000 / 16
    ensures |after| == LOCAL_STORE_SIZE && after[b] == before[b]
  {
  }

  /** A load by the form `op`, whose address is `x + d`. */
  method Load(spu: Spu, ghost op: MemOp, rt: reg, x: word, d: int)
    requires spu.Valid() && !op.IsStore() && op.Target() == rt && Address(op, Abs(spu)) == x + d
    modifies spu.GPR
    ensures Abs(spu) == Step(old(Abs(spu)), op) && spu.OthersKept(rt)
    ensures LoadedFrom(spu.Row(rt), spu.LocalStorage[..], x, d)
  {
    var LSA := AddressOfSum(x, d);
    CopyToGpr(spu, LSA, rt, Cell(op, Abs(spu)));
  }

  /** A store by the form `op`. */
  method Save(spu: Spu, ghost op: MemOp, rt: reg, x: word, d: int)
    requires spu.Valid() && op.IsStore() && op.Target() == rt && Address(op, Abs(spu)) == x + d
    modifies spu.LocalStorage
    ensures Abs(spu) == Step(old(Abs(spu)), op)
    ensures StoredTo(old(spu.LocalStorage[..]), spu.LocalStorage[..], spu.Row(rt), x, d)
  {
    var LSA := AddressOfSum(x, d);
    CopyToStore(spu, LSA, rt, Cell(op, Abs(spu)));
  }

  lemma ScalarOfRow(spu: Spu, r: reg, x: word)
    requires spu.Valid() && x == spu.PrefSlot(r)
    ensures Abs(spu).Pref(r) == x
  {
  }

  lemma SumOfRows(spu: Spu, i: RR, x: word, y: word)
    requires spu.Valid() && x == spu.PrefSlot(i.RA) && y == spu.PrefSlot(i.RB)
    ensures Address(Lqx(i), Abs(spu)) == x + y && Address(Stqx(i), Abs(spu)) == x + y
  {
    ScalarOfRow(spu, i.RA, x);
    ScalarOfRow(spu, i.RB, y);
  }

  method LqdHandler(spu: Spu, op: RI10)
    requires spu.Valid()
    modifies spu.GPR
    ensures Abs(spu) == Step(old(Abs(spu)), Lqd(op)) && spu.OthersKept(op.RT)
    ensures LoadedFrom(spu.Row(op.RT), spu.LocalStorage[..],
                       old(spu.PrefSlot(op.RA)), 16 * FieldValue(op.I10, 0x400))
  {
    var d := DisplacementOfI10(op.I10);
    var x := spu.PrefSlot(op.RA);
    ScalarOfRow(spu, op.RA, x);
    Load(spu, Lqd(op), op.RT, x, d);
  }

  method StqdHandler(spu: Spu, op: RI10)
    requires spu.Valid()
    modifies spu.LocalStorage
    ensures Abs(spu) == Step(old(Abs(spu)), Stqd(op))
    ensures StoredTo(old(spu.LocalStorage[..]), spu.LocalStorage[..], spu.Row(op.RT),
                     old(spu.PrefSlot(op.RA)), 16 * FieldValue(op.I10, 0x400))
  {
    var d := DisplacementOfI10(op.I10);
    var x := spu.PrefSlot(op.RA);
    ScalarOfRow(spu, op.RA, x);
    Save(spu, Stqd(op), op.RT, x, d);
  }

  method LqxHandler(spu: Spu, op: RR)
    requires spu.Valid()
    modifies spu.GPR
    ensures Abs(spu) == Step(old(Abs(spu)), Lqx(op)) && spu.OthersKept(op.RT)
    ensures LoadedFrom(spu.Row(op.RT), spu.LocalStorage[..],
                       old(spu.PrefSlot(op.RA)), old(spu.PrefSlot(op.RB)))
  {
    var x, y := spu.PrefSlot(op.RA), spu.PrefSlot(op.RB);
    SumOfRows(spu, op, x, y);
    Load(spu, Lqx(op), op.RT, x, y);
  }

  method StqxHandler(spu: Spu, op: RR)
    requires spu.Valid()
    modifies spu.LocalStorage
    ensures Abs(spu) == Step(old(Abs(spu)), Stqx(op))
    ensures StoredTo(old(spu.LocalStorage[..]), spu.LocalStorage[..], spu.Row(op.RT),
                     old(spu.PrefSlot(op.RA)), old(spu.PrefSlot(op.RB)))
  {
    var x, y := spu.PrefSlot(op.RA), spu.PrefSlot(op.RB);
    SumOfRows(spu, op, x, y);
    Save(spu, Stqx(op), op.RT, x, y);
  }

  method LqaHandler(spu: Spu, op: RI16)
    requires spu.Valid()
    modifies spu.GPR
    ensures Abs(spu) == Step(old(Abs(spu)), Lqa(op)) && spu.OthersKept(op.RT)
    ensures LoadedFrom(spu.Row(op.RT), spu.LocalStorage[..],
                       0, 4 * FieldValue(op.I16, 0x1_0000))
  {
    var d := DisplacementOfI16(op.I16);
    Load(spu, Lqa(op), op.RT, 0, d);
  }

  method StqaHandler(spu: Spu, op: RI16)
    requires spu.Valid()
    modifies spu.LocalStorage
    ensures Abs(spu) == Step(old(Abs(spu)), Stqa(op))
    ensures StoredTo(old(spu.LocalStorage[..]), spu.LocalStorage[..], spu.Row(op.RT),
                     0, 4 * FieldValue(op.I16, 0x1_0000))
  {
    var d := DisplacementOfI16(op.I16);
    Save(spu, Stqa(op), op.RT, 0, d);
  }

  method LqrHandler(spu: Spu, op: RI16)
    requires spu.Valid()
    modifies spu.GPR
    ensures Abs(spu) == Step(old(Abs(spu)), Lqr(op)) && spu.OthersKept(op.RT)
    ensures LoadedFrom(spu.Row(op.RT), spu.LocalStorage[..],
                       spu.IP, 4 * FieldValue(op.I16, 0x1_0000))
  {
    var d := DisplacementOfI16(op.I16);
    Load(spu, Lqr(op), op.RT, spu.IP, d);
  }

  method StqrHandler(spu: Spu, op: RI16)
    requires spu.Valid()
    modifies spu.LocalStorage
    ensures Abs(spu) == Step(old(Abs(spu)), Stqr(op))
    ensures StoredTo(old(spu.LocalStorage[..]), spu.LocalStorage[..], spu.Row(op.RT),
                     spu.IP, 4 * FieldValue(op.I16, 0x1_0000))
  {
    var d := DisplacementOfI16(op.I16);
    Save(spu, Stqr(op), op.RT, spu.IP, d);
  }

  // ----- runs -----

  /** What can happen between two loads or stores, besides them: an instruction writes a register, or
      the instruction pointer moves. */
  datatype Action = Memory(op: MemOp) | Write(rt: reg, q: Quad) | Jump(ip: word)

  function Act(m: Machine, a: Action): (n: Machine)
    requires m.Valid()
    ensures n.Valid()
  {
    match a
    case Memory(op) => Step(m, op)
    case Write(rt, q) => m.(regs := m.regs[rt := q])
    case Jump(ip) => m.(ip := ip)
  }

  function After(m: Machine, actions: seq<Action>): (n: Machine)
    requires m.Valid()
    ensures n.Valid()
  {
    if actions == [] then m
    else Act(After(m, actions[..|actions| - 1]), actions[|actions| - 1])
  }

  method Execute(spu: Spu, op: MemOp)
    requires spu.Valid()
    modifies spu.GPR, spu.LocalStorage
    ensures Abs(spu) == Step(old(Abs(spu)), op)
  {
    match op
    case Lqd(i) => LqdHandler(spu, i);
    case Lqx(i) => LqxHandler(spu, i);
    case Lqa(i) => LqaHandler(spu, i);
    case Lqr(i) => LqrHandler(spu, i);
    case Stqd(i) => StqdHandler(spu, i);
    case Stqx(i) => StqxHandler(spu, i);
    case Stqa(i) => StqaHandler(spu, i);
    case Stqr(i) => StqrHandler(spu, i);
  }

  method Perform(spu: Spu, a: Action)
    requires spu.Valid()
    modifies spu, spu.GPR, spu.LocalStorage
    ensures Abs(spu) == Act(old(Abs(spu)), a)
  {
    ghost var m := Abs(spu);
    match a
    case Memory(op) => Execute(spu, op);
    case Write(rt, q) =>
      spu.SetRow(rt, q);
      assert Abs(spu).regs == m.regs[rt := q];
    case Jump(ip) =>
      spu.IP := ip;
  }

  /** The emulator over any run is the simple machine over that run. */
  method Run(spu: Spu, actions: seq<Action>)
    requires spu.Valid()
    modifies spu, spu.GPR, spu.LocalStorage
    ensures Abs(spu) == After(old(Abs(spu)), actions)
  {
    ghost var m := Abs(spu);
    for n := 0 to |actions|
      invariant Abs(spu) == After(m, actions[..n])
    {
      Perform(spu, actions[n]);
      assert actions[..n + 1][..n] == actions[..n];
    }
    assert actions[..|actions|] == actions;
  }

  /** Action `i` of the run stores to cell `c`. */
  predicate StoresAt(m: Machine, actions: seq<Action>, i: nat, c: nat)
    requires m.Valid() && i < |actions|
  {
    actions[i].Memory? && actions[i].op.IsStore() && Cell(actions[i].op, After(m, actions[..i])) == c
  }

  /** A cell no action from the `from`-th on stores to is what it was then. */
  lemma {:induction false} CellKept(m: Machine, actions: seq<Action>, from: nat, c: nat)
    requires m.Valid() && from <= |actions| && c < CELLS
    requires forall i :: from <= i < |actions| ==> !StoresAt(m, actions, i, c)
    ensures After(m, actions).cells[c] == After(m, actions[..from]).cells[c]
  {
    var n := |actions|;
    if from == n {
      assert actions[..from] == actions;
    } else {
      var front := actions[..n - 1];
      forall i | from <= i < n - 1
        ensures !StoresAt(m, front, i, c)
      {
        assert front[..i] == actions[..i];
        assert !StoresAt(m, actions, i, c);
      }
      CellKept(m, front, from, c);
      assert front[..from] == actions[..from];
      assert !StoresAt(m, actions, n - 1, c);
    }
  }

  /** A cell holds the register stored by the last store to it, whatever the form of that store. */
  lemma LastStoreHeld(m: Machine, actions: seq<Action>, i: nat, c: nat)
    requires m.Valid() && i < |actions| && StoresAt(m, actions, i, c)
    requires forall j :: i < j < |actions| ==> !StoresAt(m, actions, j, c)
    ensures c < CELLS && After(m, actions).cells[c] == After(m, actions[..i]).regs[actions[i].op.Target()]
  {
    CellKept(m, actions, i + 1, c);
    assert actions[..i + 1][..i] == actions[..i];
  }

  /** A load, by any form, gives the register last stored to its cell, and changes that register only. */
  lemma LoadAfterStore(m: Machine, actions: seq<Action>, i: nat, load: MemOp)
    requires m.Valid() && i < |actions| && !load.IsStore()
    requires StoresAt(m, actions, i, Cell(load, After(m, actions)))
    requires forall j :: i < j < |actions| ==> !StoresAt(m, actions, j, Cell(load, After(m, actions)))
    ensures var n := After(m, actions + [Memory(load)]);
            n == After(m, actions).(regs := n.regs)
            && n.regs == After(m, actions).regs[load.Target() := After(m, actions[..i]).regs[actions[i].op.Target()]]
  {
    LastStoreHeld(m, actions, i, Cell(load, After(m, actions)));
    assert (actions + [Memory(load)])[..|actions|] == actions;
  }

  /** A load from a cell nothing was stored to gives what the cell held at the start. */
  lemma LoadUnstored(m: Machine, actions: seq<Action>, load: MemOp)
    requires m.Valid() && !load.IsStore()
    requires forall j :: 0 <= j < |actions| ==> !StoresAt(m, actions, j, Cell(load, After(m, actions)))
    ensures After(m, actions + [Memory(load)]).regs[load.Target()] == m.cells[Cell(load, After(m, actions))]
  {
    CellKept(m, actions, 0, Cell(load, After(m, actions)));
    assert (actions + [Memory(load)])[..|actions|] == actions;
  }
}
