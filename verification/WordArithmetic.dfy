/** `src/spu_internals_x86.h`: word addition and subtraction with carries and borrows. Every operation
    used acts on the four words separately, so each instruction is given by what it does to one. */
module WordArithmetic {
  import opened Bits
  import opened Vectors
  import opened SseExtensions

  /** `(w << 31) >> 31`. */
  function Lsb(w: word): word { ShrWord(ShlWord(w, 31), 31) }

  function AddxLane(a: word, b: word, t: word): word {
    AddWord(AddWord(a, b), AndWord(t, 1))
  }

  function CgLane(a: word, b: word): word {
    var sum := AddWord(ShrWord(a, 1), ShrWord(b, 1));
    ShrWord(AddWord(sum, Lsb(AndWord(a, b))), 31)
  }

  function CgxLane(a: word, b: word, t: word): word {
    var sum := AddWord(ShrWord(a, 1), ShrWord(b, 1));
    ShrWord(AddWord(Lsb(t), AddWord(sum, Lsb(AndWord(a, b)))), 31)
  }

  function SfLane(a: word, b: word): word { SubWord(b, a) }

  /** `_MM_CONST_1`: the word 1, from a comparison of a word with itself. */
  function Const1(w: word): word { ShrWord(EqWord(w, w), 31) }

  function BgLane(a: word, b: word): word { AndNotWord(LtEpu32(b, a), Const1(a)) }

  function BgxLane(a: word, b: word, t: word): word {
    var borrow := SubWord(Lsb(t), 1);
    AndNotWord(LtEpu32(AddWord(b, borrow), b), Const1(a))
  }

  function SfxLane(a: word, b: word, t: word): word {
    var borrow := SubWord(Lsb(t), 1);
    AddWord(SubWord(b, a), borrow)
  }

  function SiA(ra: Quad, rb: Quad): Quad { MapWords(AddWord, ra, rb) }
  function SiAddx(ra: Quad, rb: Quad, rt: Quad): Quad { MapThreeWords(AddxLane, ra, rb, rt) }
  function SiCg(ra: Quad, rb: Quad): Quad { MapWords(CgLane, ra, rb) }
  function SiCgx(ra: Quad, rb: Quad, rt: Quad): Quad { MapThreeWords(CgxLane, ra, rb, rt) }
  function SiSf(ra: Quad, rb: Quad): Quad { MapWords(SfLane, ra, rb) }
  function SiBg(ra: Quad, rb: Quad): Quad { MapWords(BgLane, ra, rb) }
  function SiBgx(ra: Quad, rb: Quad, rt: Quad): Quad { MapThreeWords(BgxLane, ra, rb, rt) }
  function SiSfx(ra: Quad, rb: Quad, rt: Quad): Quad { MapThreeWords(SfxLane, ra, rb, rt) }

  // ----- additions and carries -----

  /** The halves of two words, and the carry of their lowest bits, make half the sum. */
  lemma HalfOfSum(x: nat, y: nat)
    ensures x / 2 + y / 2 + And(x, y) % 2 == (x + y) / 2
  {
    var a, u := Halve(x);
    var b, v := Halve(y);
    AndStep(a, u, b, v);
    assert And(x, y) % 2 == AndBit(a, b);
    assert x + y == 2 * (u + v) + a + b;
  }

  lemma AddSmall(h: word, k: word, l: word)
    requires h + k + l < TWO_32
    ensures AddWord(AddWord(h, k), l) == h + k + l
  {
  }

  /** The word from which the carry instructions take their top bit: the halved sum. */
  lemma HalvedSum(x: word, y: word)
    ensures AddWord(AddWord(ShrWord(x, 1), ShrWord(y, 1)), Lsb(AndWord(x, y))) == (x + y) / 2
  {
    HalvedWord(x);
    HalvedWord(y);
    LeastBitOfWord(AndWord(x, y));
    HalfOfSum(x, y);
    AddSmall(x / 2, y / 2, AndWord(x, y) % 2);
  }

  lemma TopBit(w: word)
    ensures ShrWord(w, 31) == if w >= 0x8000_0000 then 1 else 0
  {
    Powers();
  }

  lemma AddxLaneSum(x: word, y: word, t: word)
    ensures AddxLane(x, y, t) == (x + y + t % 2) % TWO_32
  {
    LowestBitByMask(t);
    AddTwice(x, y, t % 2);
  }

  lemma AddTwice(x: word, y: word, c: word)
    ensures AddWord(AddWord(x, y), c) == (x + y + c) % TWO_32
  {
    var s, q := (x + y) % TWO_32, (x + y) / TWO_32;
    var r, p := (s + c) % TWO_32, (s + c) / TWO_32;
    QuotientUnique(x + y + c, TWO_32, q + p, r);
  }

  lemma LowestBitByMask(w: nat)
    ensures And(w, 1) == w % 2
  {
    assert Pow2(1) == 2;
    var c, more := Halve(w);
    AndLow(1, 2, c, more);
  }

  /** The carry out of an addition with a carry in. */
  function Carry(x: word, y: word, c: nat): nat
    requires c < 2
  {
    if x + y + c >= TWO_32 then 1 else 0
  }

  lemma CgLaneCarry(x: word, y: word)
    ensures CgLane(x, y) == Carry(x, y, 0)
  {
    HalvedSum(x, y);
    TopBit((x + y) / 2);
  }

  /** The words on which `si_cgx` goes wrong: it adds the carry to the halved sum, at twice its weight. */
  predicate CarryMisjudged(x: word, y: word, c: nat)
    requires c < 2
  {
    c == 1 && (x + y == TWO_32 - 2 || (x == TWO_32 - 1 && y == TWO_32 - 1))
  }

  lemma CgxLaneBit(x: word, y: word, t: word)
    ensures CgxLane(x, y, t) == if (t % 2 + (x + y) / 2) % TWO_32 >= 0x8000_0000 then 1 else 0
  {
    HalvedSum(x, y);
    LeastBitOfWord(t);
    TopBit((t % 2 + (x + y) / 2) % TWO_32);
  }

  /** `si_cgx` gives the true carry in exactly the words that are not misjudged. */
  lemma CgxLaneExactIff(x: word, y: word, t: word)
    ensures CgxLane(x, y, t) == Carry(x, y, t % 2) <==> !CarryMisjudged(x, y, t % 2)
    ensures CgxLane(x, y, t) < 2
  {
    CgxLaneBit(x, y, t);
    CgxThreshold(x, y, t % 2, (x + y) / 2, (x + y) % 2);
  }

  lemma CgxThreshold(x: word, y: word, c: nat, s: nat, r: nat)
    requires c < 2 && r < 2 && x + y == 2 * s + r
    ensures (if (c + s) % TWO_32 >= 0x8000_0000 then 1 else 0) == Carry(x, y, c) <==> !CarryMisjudged(x, y, c)
  {
  }

  /** One input of each kind on which `si_cgx` is wrong: a carry invented, and a carry lost. */
  lemma CgxInventsCarry(x: word, t: word)
    requires x == 0xFFFF_FFFE && t == 1
    ensures CgxLane(x, 0, t) == 1 && Carry(x, 0, 1) == 0
  {
    CgxLaneExactIff(x, 0, t);
  }

  lemma CgxLosesCarry(x: word, t: word)
    requires x == 0xFFFF_FFFF && t == 1
    ensures CgxLane(x, x, t) == 0 && Carry(x, x, 1) == 1
  {
    CgxLaneExactIff(x, x, t);
  }

  // ----- subtractions and borrows -----

  lemma NotLess(p: bool, r: word)
    ensures AndNotWord(MaskWord(p), Const1(r)) == if p then 0 else 1
  {
    Powers();
    assert Const1(r) == 1 by { TopBit(0xFFFF_FFFF); }
    if !p {
      MaskLow(32, TWO_32, 1, 0);
    }
  }

  lemma BgLaneBorrow(x: word, y: word)
    ensures BgLane(x, y) == if y < x then 0 else 1
  {
    LtEpu32Correct(y, x);
    NotLess(y < x, x);
  }

  lemma AddBorrow(x: word, t: word)
    ensures AddWord(x, SubWord(Lsb(t), 1)) == (x - (1 - t % 2)) % TWO_32
  {
    LeastBitOfWord(t);
    assert SubWord(t % 2, 1) == if t % 2 == 1 then 0 else TWO_32 - 1;
  }

  lemma SfxLaneDifference(x: word, y: word, t: word)
    ensures SfxLane(x, y, t) == (y - x - (1 - t % 2)) % TWO_32
  {
    var d := SubWord(y, x);
    SfxOf(x, y, t, d);
    SubtractBorrow(x, y, 1 - t % 2, d);
  }

  lemma SfxOf(x: word, y: word, t: word, d: word)
    requires d == SubWord(y, x)
    ensures SfxLane(x, y, t) == (d - (1 - t % 2)) % TWO_32
  {
    AddBorrow(d, t);
  }

  lemma SubtractBorrow(x: word, y: word, c: int, d: word)
    requires 0 <= c < 2 && d == SubWord(y, x)
    ensures (d - c) % TWO_32 == (y - x - c) % TWO_32
  {
    SubtractAgain(y - x, c);
  }

  lemma SubtractAgain(d: int, c: int)
    requires 0 < d + TWO_32 < 2 * TWO_32 && 0 <= c < 2
    ensures (d % TWO_32 - c) % TWO_32 == (d - c) % TWO_32
  {
    assert d % TWO_32 == if d < 0 then d + TWO_32 else d;
  }

  lemma WrapsBelow(y: int, c: int)
    requires 0 <= c < 2 && 0 <= y < TWO_32
    ensures (y - c) % TWO_32 < y <==> c == 1 && y > 0
  {
  }

  lemma BgxLaneBit(x: word, y: word, t: word)
    ensures BgxLane(x, y, t) == if t % 2 == 0 && y > 0 then 0 else 1
  {
    var adjusted := AddWord(y, SubWord(Lsb(t), 1));
    AdjustedBelow(y, t, adjusted);
    ComparedBorrow(x, y, adjusted);
  }

  lemma AdjustedBelow(y: word, t: word, adjusted: word)
    requires adjusted == AddWord(y, SubWord(Lsb(t), 1))
    ensures adjusted < y <==> t % 2 == 0 && y > 0
  {
    AddBorrow(y, t);
    WrapsBelow(y, 1 - t % 2);
  }

  lemma ComparedBorrow(x: word, y: word, adjusted: word)
    ensures AndNotWord(LtEpu32(adjusted, y), Const1(x)) == if adjusted < y then 0 else 1
  {
    LtEpu32Correct(adjusted, y);
    NotLess(adjusted < y, x);
  }

  /** The borrow instruction with a borrow in returns 0 when `RB - RA - (1 - RT)` is negative. */
  function NoBorrow(x: word, y: word, c: nat): nat
    requires c < 2
  {
    if y - x - (1 - c) < 0 then 0 else 1
  }

  /** The words on which `si_bgx` goes wrong: it compares without RA. */
  predicate BorrowMisjudged(x: word, y: word, c: nat)
    requires c < 2
  {
    if c == 1 then x > y else y == 0 || x < y
  }

  /** `si_bgx` gives the true borrow in exactly the words that are not misjudged. */
  lemma BgxLaneExactIff(x: word, y: word, t: word)
    ensures BgxLane(x, y, t) == NoBorrow(x, y, t % 2) <==> !BorrowMisjudged(x, y, t % 2)
  {
    BgxLaneBit(x, y, t);
  }

  /** One input on which `si_bgx` is wrong: the borrow of 0 - 1 is missed. */
  lemma BgxMissesBorrow(x: word, y: word, t: word)
    requires x == 1 && y == 0 && t == 1
    ensures BgxLane(x, y, t) == 1 && NoBorrow(x, y, 1) == 0
  {
    BgxLaneBit(x, y, t);
  }

  // ----- two words make 64 bits -----

  const TWO_64: nat := TWO_32 * TWO_32

  function Wide(low: nat, high: nat): nat { low + TWO_32 * high }

  /** `low` and `high` make the sum, or the difference, of two 64-bit numbers. */
  ghost predicate Sum64(low: nat, high: nat, x: nat, y: nat) { Wide(low, high) == (x + y) % TWO_64 }
  ghost predicate Difference64(low: nat, high: nat, y: nat, x: nat) { Wide(low, high) == (y - x) % TWO_64 }

  lemma Add64Numbers(x0: word, x1: word, y0: word, y1: word, c: nat)
    requires c == Carry(x0, y0, 0)
    ensures Sum64(AddWord(x0, y0), (x1 + y1 + c) % TWO_32, Wide(x0, x1), Wide(y0, y1))
  {
    var low := AddWord(x0, y0);
    assert x0 + y0 == low + TWO_32 * c;
    var high := x1 + y1 + c;
    var m, q := high % TWO_32, high / TWO_32;
    QuotientUnique(Wide(x0, x1) + Wide(y0, y1), TWO_64, q, low + TWO_32 * m);
  }

  lemma AddxOfBit(x: word, y: word, t: word)
    requires t < 2
    ensures AddxLane(x, y, t) == (x + y + t) % TWO_32
  {
    AddxLaneSum(x, y, t);
  }

  lemma Add64Lane(x0: word, x1: word, y0: word, y1: word)
    ensures Sum64(AddWord(x0, y0), AddxLane(x1, y1, CgLane(x0, y0)), Wide(x0, x1), Wide(y0, y1))
  {
    var c := CgLane(x0, y0);
    CgLaneCarry(x0, y0);
    AddxOfBit(x1, y1, c);
    Add64Numbers(x0, x1, y0, y1, c);
  }

  /** In every lane, `si_a` for the low words and `si_addx` on the carry of `si_cg` for the high
      words make a 64-bit addition modulo 2^64. */
  lemma Add64(aLow: Quad, aHigh: Quad, bLow: Quad, bHigh: Quad, carry: Quad, i: nat)
    requires i < 4 && carry == SiCg(aLow, bLow)
    ensures Sum64(Word(SiA(aLow, bLow), i), Word(SiAddx(aHigh, bHigh, carry), i),
                  Wide(Word(aLow, i), Word(aHigh, i)), Wide(Word(bLow, i), Word(bHigh, i)))
  {
    Add64Lane(Word(aLow, i), Word(aHigh, i), Word(bLow, i), Word(bHigh, i));
  }

  lemma Sub64Numbers(x0: word, x1: word, y0: word, y1: word, c: nat)
    requires c == if y0 < x0 then 1 else 0
    ensures Difference64(SfLane(x0, y0), (y1 - x1 - c) % TWO_32, Wide(y0, y1), Wide(x0, x1))
  {
    var low := SubWord(y0, x0);
    assert y0 - x0 == low - TWO_32 * c;
    var high := y1 - x1 - c;
    var m, q := high % TWO_32, high / TWO_32;
    QuotientUnique(Wide(y0, y1) - Wide(x0, x1), TWO_64, q, low + TWO_32 * m);
  }

  lemma SfxOfBit(x: word, y: word, t: word, c: nat)
    requires t < 2 && c == 1 - t
    ensures SfxLane(x, y, t) == (y - x - c) % TWO_32
  {
    SfxLaneDifference(x, y, t);
  }

  lemma Sub64Lane(x0: word, x1: word, y0: word, y1: word)
    ensures Difference64(SfLane(x0, y0), SfxLane(x1, y1, BgLane(x0, y0)), Wide(y0, y1), Wide(x0, x1))
  {
    var t := BgLane(x0, y0);
    BgLaneBorrow(x0, y0);
    SfxOfBit(x1, y1, t, 1 - t);
    Sub64Numbers(x0, x1, y0, y1, 1 - t);
  }

  /** The same for subtraction, with the borrow of `si_bg`. */
  lemma Sub64(aLow: Quad, aHigh: Quad, bLow: Quad, bHigh: Quad, borrow: Quad, i: nat)
    requires i < 4 && borrow == SiBg(aLow, bLow)
    ensures Difference64(Word(SiSf(aLow, bLow), i), Word(SiSfx(aHigh, bHigh, borrow), i),
                         Wide(Word(bLow, i), Word(bHigh, i)), Wide(Word(aLow, i), Word(aHigh, i)))
  {
    Sub64Lane(Word(aLow, i), Word(aHigh, i), Word(bLow, i), Word(bHigh, i));
  }

  // ----- numbers of any length -----

  /** The number in lane `i` of a sequence of registers, least significant register first. */
  function LaneValue(xs: seq<Quad>, i: nat): nat
    requires i < 4
  {
    if xs == [] then 0 else Word(xs[0], i) + TWO_32 * LaneValue(xs[1..], i)
  }

  function Power32(n: nat): nat { if n == 0 then 1 else TWO_32 * Power32(n - 1) }

  /** Addition of numbers of any length: `si_addx` makes each limb and `si_cgx` the carry for the next. */
  function RippleAdd(a: seq<Quad>, b: seq<Quad>, carry: Quad): (sum: (seq<Quad>, Quad))
    requires |a| == |b|
    ensures |sum.0| == |a|
  {
    if a == [] then ([], carry)
    else
      var (rest, out) := RippleAdd(a[1..], b[1..], SiCgx(a[0], b[0], carry));
      ([SiAddx(a[0], b[0], carry)] + rest, out)
  }

  /** The result in lane `i`, with the carry out as one more digit. */
  function RippleValue(a: seq<Quad>, b: seq<Quad>, carry: Quad, i: nat): nat
    requires |a| == |b| && i < 4
  {
    var (sum, out) := RippleAdd(a, b, carry);
    LaneValue(sum, i) + (if Word(out, i) % 2 == 1 then Power32(|a|) else 0)
  }

  /** In lane `i`, no limb meets a carry that `si_cgx` misjudges. The carries are the true ones,
      so this speaks of the summands only. */
  predicate CarriesJudged(a: seq<Quad>, b: seq<Quad>, c: nat, i: nat)
    requires |a| == |b| && c < 2 && i < 4
  {
    a == [] || (!CarryMisjudged(Word(a[0], i), Word(b[0], i), c)
                && CarriesJudged(a[1..], b[1..], Carry(Word(a[0], i), Word(b[0], i), c), i))
  }

  /** How far the rippled result is from the sum: a multiple of 2^32, and zero exactly when every carry is
      judged right. */
  lemma {:induction false} RippleError(a: seq<Quad>, b: seq<Quad>, carry: Quad, i: nat) returns (error: int)
    requires |a| == |b| && i < 4
    ensures RippleValue(a, b, carry, i) == LaneValue(a, i) + LaneValue(b, i) + Word(carry, i) % 2 + TWO_32 * error
    ensures error == 0 <==> CarriesJudged(a, b, Word(carry, i) % 2, i)
  {
    if a == [] {
      error := 0;
    } else {
      var next := SiCgx(a[0], b[0], carry);
      var rest := RippleError(a[1..], b[1..], next, i);
      RippleValueStep(a, b, carry, i);
      error := LimbError(Word(a[0], i), Word(b[0], i), Word(carry, i), Word(carry, i) % 2, Word(next, i) % 2,
                         Word(SiAddx(a[0], b[0], carry), i), LaneValue(a[1..], i), LaneValue(b[1..], i), rest);
    }
  }

  /** One limb: `x + y + c` is split into the limb `s` that `si_addx` makes and the carry `k` that `si_cgx`
      makes, up to an error of one carry. */
  lemma LimbError(x: word, y: word, t: word, c: nat, k: nat, s: word, av: nat, bv: nat, rest: int)
    returns (error: int)
    requires c == t % 2 && k == CgxLane(x, y, t) % 2 && s == AddxLane(x, y, t)
    ensures s + TWO_32 * (av + bv + k + TWO_32 * rest) == (x + TWO_32 * av) + (y + TWO_32 * bv) + c + TWO_32 * error
    ensures error == 0 <==> !CarryMisjudged(x, y, c) && rest == 0
    ensures !CarryMisjudged(x, y, c) ==> k == Carry(x, y, c)
  {
    AddxLaneSum(x, y, t);
    CarryJudged(x, y, t, c, k);
    error := LimbErrorOf(x, y, c, k, s, av, bv, rest);
  }

  lemma CarryJudged(x: word, y: word, t: word, c: nat, k: nat)
    requires c == t % 2 && k == CgxLane(x, y, t) % 2
    ensures k == Carry(x, y, c) <==> !CarryMisjudged(x, y, c)
  {
    CgxLaneBit(x, y, t);
    var b := CgxLane(x, y, t) % 2;
    JudgedCarry(x, y, c, b);
  }

  lemma JudgedCarry(x: word, y: word, c: nat, k: nat)
    requires c < 2 && k == if (c + (x + y) / 2) % TWO_32 >= 0x8000_0000 then 1 else 0
    ensures k == Carry(x, y, c) <==> !CarryMisjudged(x, y, c)
  {
    CgxThreshold(x, y, c, (x + y) / 2, (x + y) % 2);
  }

  lemma LimbErrorOf(x: word, y: word, c: nat, k: nat, s: word, av: nat, bv: nat, rest: int) returns (error: int)
    requires c < 2 && k < 2 && s == (x + y + c) % TWO_32
    ensures s + TWO_32 * (av + bv + k + TWO_32 * rest) == (x + TWO_32 * av) + (y + TWO_32 * bv) + c + TWO_32 * error
    ensures error == 0 <==> k == Carry(x, y, c) && rest == 0
  {
    LimbSum(x, y, c);
    error := k - Carry(x, y, c) + TWO_32 * rest;
  }

  lemma LimbSum(x: word, y: word, c: nat)
    requires c < 2
    ensures x + y + c == (x + y + c) % TWO_32 + TWO_32 * Carry(x, y, c)
  {
  }

  lemma RippleValueStep(a: seq<Quad>, b: seq<Quad>, carry: Quad, i: nat)
    requires |a| == |b| > 0 && i < 4
    ensures RippleValue(a, b, carry, i)
         == Word(SiAddx(a[0], b[0], carry), i) + TWO_32 * RippleValue(a[1..], b[1..], SiCgx(a[0], b[0], carry), i)
  {
    var (rest, out) := RippleAdd(a[1..], b[1..], SiCgx(a[0], b[0], carry));
    var limb := SiAddx(a[0], b[0], carry);
    assert ([limb] + rest)[1..] == rest;
  }

  /** Rippling computes the exact sum and carry exactly when no limb meets a misjudged carry. */
  lemma RippleExactIff(a: seq<Quad>, b: seq<Quad>, carry: Quad, i: nat)
    requires |a| == |b| && i < 4
    ensures RippleValue(a, b, carry, i) == LaneValue(a, i) + LaneValue(b, i) + Word(carry, i) % 2
       <==> CarriesJudged(a, b, Word(carry, i) % 2, i)
  {
    var error := RippleError(a, b, carry, i);
  }

  /** Subtraction of numbers of any length, `b - a`: `si_sfx` makes each limb and `si_bgx` the borrow for the next. */
  function RippleSubtract(a: seq<Quad>, b: seq<Quad>, borrow: Quad): (difference: (seq<Quad>, Quad))
    requires |a| == |b|
    ensures |difference.0| == |a|
  {
    if a == [] then ([], borrow)
    else
      var (rest, out) := RippleSubtract(a[1..], b[1..], SiBgx(a[0], b[0], borrow));
      ([SiSfx(a[0], b[0], borrow)] + rest, out)
  }

  /** The result in lane `i`, less one more digit if a borrow is left over. */
  function DifferenceValue(a: seq<Quad>, b: seq<Quad>, borrow: Quad, i: nat): int
    requires |a| == |b| && i < 4
  {
    var (difference, out) := RippleSubtract(a, b, borrow);
    LaneValue(difference, i) - (if Word(out, i) % 2 == 1 then 0 else Power32(|a|))
  }

  /** In lane `i`, no limb meets a borrow that `si_bgx` misjudges, the borrows being the true ones. */
  predicate BorrowsJudged(a: seq<Quad>, b: seq<Quad>, c: nat, i: nat)
    requires |a| == |b| && c < 2 && i < 4
  {
    a == [] || (!BorrowMisjudged(Word(a[0], i), Word(b[0], i), c)
                && BorrowsJudged(a[1..], b[1..], NoBorrow(Word(a[0], i), Word(b[0], i), c), i))
  }

  lemma DifferenceValueStep(a: seq<Quad>, b: seq<Quad>, borrow: Quad, i: nat)
    requires |a| == |b| > 0 && i < 4
    ensures DifferenceValue(a, b, borrow, i)
         == Word(SiSfx(a[0], b[0], borrow), i) + TWO_32 * DifferenceValue(a[1..], b[1..], SiBgx(a[0], b[0], borrow), i)
  {
    var (rest, out) := RippleSubtract(a[1..], b[1..], SiBgx(a[0], b[0], borrow));
    var limb := SiSfx(a[0], b[0], borrow);
    assert ([limb] + rest)[1..] == rest;
  }

  /** How far the rippled result is from the difference: a multiple of 2^32, and zero exactly when every borrow
      is judged right. */
  lemma {:induction false} SubtractError(a: seq<Quad>, b: seq<Quad>, borrow: Quad, i: nat) returns (error: int)
    requires |a| == |b| && i < 4
    ensures DifferenceValue(a, b, borrow, i)
         == LaneValue(b, i) - LaneValue(a, i) - (1 - Word(borrow, i) % 2) + TWO_32 * error
    ensures error == 0 <==> BorrowsJudged(a, b, Word(borrow, i) % 2, i)
  {
    if a == [] {
      error := 0;
    } else {
      var next := SiBgx(a[0], b[0], borrow);
      var rest := SubtractError(a[1..], b[1..], next, i);
      DifferenceValueStep(a, b, borrow, i);
      error := BorrowError(Word(a[0], i), Word(b[0], i), Word(borrow, i), Word(borrow, i) % 2, Word(next, i) % 2,
                           Word(SiSfx(a[0], b[0], borrow), i), LaneValue(a[1..], i), LaneValue(b[1..], i), rest);
    }
  }

  /** One limb of a subtraction, up to an error of one borrow. */
  lemma BorrowError(x: word, y: word, t: word, c: nat, k: nat, s: word, av: nat, bv: nat, rest: int)
    returns (error: int)
    requires c == t % 2 && k == BgxLane(x, y, t) % 2 && s == SfxLane(x, y, t)
    ensures s + TWO_32 * (bv - av - (1 - k) + TWO_32 * rest)
         == (y + TWO_32 * bv) - (x + TWO_32 * av) - (1 - c) + TWO_32 * error
    ensures error == 0 <==> !BorrowMisjudged(x, y, c) && rest == 0
    ensures !BorrowMisjudged(x, y, c) ==> k == NoBorrow(x, y, c)
  {
    SfxLaneDifference(x, y, t);
    BorrowJudged(x, y, t, c, k);
    error := BorrowErrorOf(x, y, c, k, s, av, bv, rest);
  }

  lemma BorrowJudged(x: word, y: word, t: word, c: nat, k: nat)
    requires c == t % 2 && k == BgxLane(x, y, t) % 2
    ensures k == NoBorrow(x, y, c) <==> !BorrowMisjudged(x, y, c)
  {
    BgxLaneBit(x, y, t);
    JudgedBit(x, y, c, k);
  }

  lemma JudgedBit(x: word, y: word, c: nat, k: nat)
    requires c < 2 && k == if c == 0 && y > 0 then 0 else 1
    ensures k == NoBorrow(x, y, c) <==> !BorrowMisjudged(x, y, c)
  {
  }

  lemma BorrowErrorOf(x: word, y: word, c: nat, k: nat, s: word, av: nat, bv: nat, rest: int) returns (error: int)
    requires c < 2 && k < 2 && s == (y - x - (1 - c)) % TWO_32
    ensures s + TWO_32 * (bv - av - (1 - k) + TWO_32 * rest)
         == (y + TWO_32 * bv) - (x + TWO_32 * av) - (1 - c) + TWO_32 * error
    ensures error == 0 <==> k == NoBorrow(x, y, c) && rest == 0
  {
    LimbDifference(x, y, c);
    error := k - NoBorrow(x, y, c) + TWO_32 * rest;
  }

  lemma LimbDifference(x: word, y: word, c: nat)
    requires c < 2
    ensures y - x - (1 - c) == (y - x - (1 - c)) % TWO_32 - TWO_32 * (1 - NoBorrow(x, y, c))
  {
  }

  /** Rippling computes the exact difference and borrow exactly when no limb meets a misjudged borrow. */
  lemma SubtractExactIff(a: seq<Quad>, b: seq<Quad>, borrow: Quad, i: nat)
    requires |a| == |b| && i < 4
    ensures DifferenceValue(a, b, borrow, i) == LaneValue(b, i) - LaneValue(a, i) - (1 - Word(borrow, i) % 2)
       <==> BorrowsJudged(a, b, Word(borrow, i) % 2, i)
  {
    var error := SubtractError(a, b, borrow, i);
  }
}
