/** 128-bit registers: sixteen bytes, the least significant at index 0, read as bytes,
    halfwords or words in little-endian lanes. */
module Vectors {
  type byte = x: nat | x < 0x100
  type half = x: nat | x < 0x1_0000
  type word = x: nat | x < 0x1_0000_0000

  type Quad = q: seq<byte> | |q| == 16 witness seq(16, i => 0)

  const TWO_32: nat := 0x1_0000_0000

  function TwoBytes(b0: byte, b1: byte): half {
    b0 as int + 0x100 * (b1 as int)
  }

  function FourBytes(b0: byte, b1: byte, b2: byte, b3: byte): word {
    b0 as int + 0x100 * (b1 as int + 0x100 * (b2 as int + 0x100 * (b3 as int)))
  }

  /** Byte `j` of a word. */
  function ByteOf(w: word, j: nat): byte
    requires j < 4
  {
    if j == 0 then w % 0x100
    else if j == 1 then w / 0x100 % 0x100
    else if j == 2 then w / 0x100 / 0x100 % 0x100
    else w / 0x100 / 0x100 / 0x100
  }

  lemma BytesOfWord(w: word)
    ensures FourBytes(ByteOf(w, 0), ByteOf(w, 1), ByteOf(w, 2), ByteOf(w, 3)) == w
  {
    var m := w / 0x100;
    var n := m / 0x100;
    assert w == w % 0x100 + 0x100 * m && m == m % 0x100 + 0x100 * n && n == n % 0x100 + 0x100 * (n / 0x100);
  }

  lemma WordOfBytes(b0: byte, b1: byte, b2: byte, b3: byte)
    ensures ByteOf(FourBytes(b0, b1, b2, b3), 0) == b0
    ensures ByteOf(FourBytes(b0, b1, b2, b3), 1) == b1
    ensures ByteOf(FourBytes(b0, b1, b2, b3), 2) == b2
    ensures ByteOf(FourBytes(b0, b1, b2, b3), 3) == b3
  {
    var n := b2 as int + 0x100 * (b3 as int);
    var m := b1 as int + 0x100 * n;
    var w := FourBytes(b0, b1, b2, b3);
    assert w % 0x100 == b0 && w / 0x100 == m;
    assert m % 0x100 == b1 && m / 0x100 == n;
    assert n % 0x100 == b2 && n / 0x100 == b3;
  }

  function Word(q: Quad, i: nat): word
    requires i < 4
  {
    FourBytes(q[4 * i], q[4 * i + 1], q[4 * i + 2], q[4 * i + 3])
  }

  function Half(q: Quad, i: nat): half
    requires i < 8
  {
    TwoBytes(q[2 * i], q[2 * i + 1])
  }

  lemma BytesOfLane(q: Quad, i: nat)
    requires i < 4
    ensures q[4 * i] == ByteOf(Word(q, i), 0) && q[4 * i + 1] == ByteOf(Word(q, i), 1)
    ensures q[4 * i + 2] == ByteOf(Word(q, i), 2) && q[4 * i + 3] == ByteOf(Word(q, i), 3)
  {
    WordOfBytes(q[4 * i], q[4 * i + 1], q[4 * i + 2], q[4 * i + 3]);
  }

  lemma LaneOfBytes(q: Quad, i: nat, w: word)
    requires i < 4 && forall j :: 0 <= j < 4 ==> q[4 * i + j] == ByteOf(w, j)
    ensures Word(q, i) == w
  {
    assert q[4 * i + 0] == ByteOf(w, 0) && q[4 * i + 1] == ByteOf(w, 1);
    assert q[4 * i + 2] == ByteOf(w, 2) && q[4 * i + 3] == ByteOf(w, 3);
    BytesOfWord(w);
  }

  function FromWords(w0: word, w1: word, w2: word, w3: word): (q: Quad)
    ensures Word(q, 0) == w0 && Word(q, 1) == w1 && Word(q, 2) == w2 && Word(q, 3) == w3
  {
    var q: Quad := seq(16, p requires 0 <= p < 16 =>
                     if p < 4 then ByteOf(w0, p) else if p < 8 then ByteOf(w1, p - 4)
                     else if p < 12 then ByteOf(w2, p - 8) else ByteOf(w3, p - 12));
    LaneOfBytes(q, 0, w0);
    LaneOfBytes(q, 1, w1);
    LaneOfBytes(q, 2, w2);
    LaneOfBytes(q, 3, w3);
    q
  }

  /** The register whose halfword lane `i` is `lane(i)`. */
  function FromHalves(lane: nat --> half): (q: Quad)
    requires forall i: nat :: i < 8 ==> lane.requires(i)
    ensures forall i: nat :: i < 8 ==> Half(q, i) == lane(i)
  {
    seq(16, p requires 0 <= p < 16 => if p % 2 == 0 then lane(p / 2) % 0x100 else lane(p / 2) / 0x100)
  }

  /** A register is determined by its four words. */
  lemma WordsDetermine(a: Quad, b: Quad)
    requires Word(a, 0) == Word(b, 0) && Word(a, 1) == Word(b, 1) && Word(a, 2) == Word(b, 2)
             && Word(a, 3) == Word(b, 3)
    ensures a == b
  {
    BytesOfLane(a, 0); BytesOfLane(a, 1); BytesOfLane(a, 2); BytesOfLane(a, 3);
    BytesOfLane(b, 0); BytesOfLane(b, 1); BytesOfLane(b, 2); BytesOfLane(b, 3);
  }

  lemma HalfOfBytes(b0: byte, b1: byte)
    ensures TwoBytes(b0, b1) % 0x100 == b0 && TwoBytes(b0, b1) / 0x100 == b1
  {
  }

  /** A register is determined by its eight halfwords. */
  lemma HalvesDetermine(a: Quad, b: Quad)
    requires forall i: nat :: i < 8 ==> Half(a, i) == Half(b, i)
    ensures a == b
  {
    forall i: nat | i < 8
      ensures a[2 * i] == b[2 * i] && a[2 * i + 1] == b[2 * i + 1]
    {
      assert Half(a, i) == Half(b, i);
      HalfOfBytes(a[2 * i], a[2 * i + 1]);
      HalfOfBytes(b[2 * i], b[2 * i + 1]);
    }
    forall p | 0 <= p < 16
      ensures a[p] == b[p]
    {
      var i: nat := p / 2;
      assert a[2 * i] == b[2 * i] && a[2 * i + 1] == b[2 * i + 1];
      assert p == 2 * i || p == 2 * i + 1;
    }
  }

  /** The register whose word lane `i` is `lane(i)`. */
  function FromWordLanes(lane: nat --> word): (q: Quad)
    requires forall i: nat :: i < 4 ==> lane.requires(i)
    ensures forall i: nat :: i < 4 ==> Word(q, i) == lane(i)
  {
    var q := FromWords(lane(0), lane(1), lane(2), lane(3));
    assert forall i: nat :: i < 4 ==> Word(q, i) == lane(i) by {
      forall i: nat | i < 4
        ensures Word(q, i) == lane(i)
      {
        if i == 0 {} else if i == 1 {} else if i == 2 {} else {}
      }
    }
    q
  }

  function MapWord(f: word -> word, a: Quad): (q: Quad)
    ensures forall i :: 0 <= i < 4 ==> Word(q, i) == f(Word(a, i))
  {
    FromWordLanes(i requires i < 4 => f(Word(a, i)))
  }

  function MapWords(f: (word, word) -> word, a: Quad, b: Quad): (q: Quad)
    ensures forall i :: 0 <= i < 4 ==> Word(q, i) == f(Word(a, i), Word(b, i))
  {
    FromWordLanes(i requires i < 4 => f(Word(a, i), Word(b, i)))
  }

  function MapThreeWords(f: (word, word, word) -> word, a: Quad, b: Quad, c: Quad): (q: Quad)
    ensures forall i :: 0 <= i < 4 ==> Word(q, i) == f(Word(a, i), Word(b, i), Word(c, i))
  {
    FromWordLanes(i requires i < 4 => f(Word(a, i), Word(b, i), Word(c, i)))
  }

  function MapHalves(f: (half, half) -> half, a: Quad, b: Quad): (q: Quad)
    ensures forall i :: 0 <= i < 8 ==> Half(q, i) == f(Half(a, i), Half(b, i))
  {
    FromHalves(i requires i < 8 => f(Half(a, i), Half(b, i)))
  }

  function MapBytes(f: (byte, byte) -> byte, a: Quad, b: Quad): (q: Quad)
    ensures forall p :: 0 <= p < 16 ==> q[p] == f(a[p], b[p])
  {
    seq(16, p requires 0 <= p < 16 => f(a[p], b[p]))
  }

  function SplatWord(w: word): (q: Quad)
    ensures forall i :: 0 <= i < 4 ==> Word(q, i) == w
  {
    FromWordLanes(i => w)
  }

  function SplatByte(b: byte): Quad {
    seq(16, p => b)
  }
}
