/** Bit fields of an instruction word (`union SPU_INSTRUCTION`, `src/spu_emu.h`), the lowest field first. */
module WordFields {
  import opened Bits

  function Total(widths: seq<nat>): nat {
    if widths == [] then 0 else widths[0] + Total(widths[1..])
  }

  ghost predicate Fits(widths: seq<nat>, fields: seq<nat>) {
    |fields| == |widths| && forall i :: 0 <= i < |widths| ==> fields[i] < Pow2(widths[i])
  }

  function Pack(widths: seq<nat>, fields: seq<nat>): nat
    requires |fields| == |widths|
  {
    if widths == [] then 0 else fields[0] + Pow2(widths[0]) * Pack(widths[1..], fields[1..])
  }

  /** `w` without the field below `p`. */
  function Rest(w: nat, p: nat): (high: nat)
    requires p >= 1
    ensures high == w / p && w == w % p + p * high
  {
    assert p * (w / p) <= w;
    w / p
  }

  function Unpack(widths: seq<nat>, w: nat): (fields: seq<nat>)
    ensures |fields| == |widths|
  {
    if widths == [] then [] else [w % Pow2(widths[0])] + Unpack(widths[1..], Rest(w, Pow2(widths[0])))
  }

  lemma {:induction false} UnpackPack(widths: seq<nat>, fields: seq<nat>)
    requires Fits(widths, fields)
    ensures Unpack(widths, Pack(widths, fields)) == fields
  {
    if widths != [] {
      UnpackPack(widths[1..], fields[1..]);
      var rest := Pack(widths[1..], fields[1..]);
      QuotientUnique(Pack(widths, fields), Pow2(widths[0]), rest, fields[0]);
      assert fields == [fields[0]] + fields[1..];
    }
  }

  lemma {:induction false} PackBound(widths: seq<nat>, fields: seq<nat>)
    requires Fits(widths, fields)
    ensures Pack(widths, fields) < Pow2(Total(widths))
  {
    if widths != [] {
      PackBound(widths[1..], fields[1..]);
      Pow2Add(widths[0], Total(widths[1..]));
      DigitBound(fields[0], Pow2(widths[0]), Pack(widths[1..], fields[1..]), Pow2(Total(widths[1..])));
    }
  }

  lemma NotNegative(p: nat, d: nat)
    ensures p * d >= 0
  {
  }

  lemma DigitBound(low: nat, p: nat, high: nat, q: nat)
    requires low < p && high < q
    ensures low + p * high < p * q
  {
    NotNegative(p, q - high - 1);
    assert p * (q - high - 1) == p * q - p * high - p;
  }

  /** Any word is the packing of its fields. */
  lemma {:induction false} PackUnpack(widths: seq<nat>, w: nat)
    requires w < Pow2(Total(widths))
    ensures Fits(widths, Unpack(widths, w)) && Pack(widths, Unpack(widths, w)) == w
  {
    if widths != [] {
      var p := Pow2(widths[0]);
      var low, high := w % p, Rest(w, p);
      Pow2Add(widths[0], Total(widths[1..]));
      HighBound(low, p, high, Pow2(Total(widths[1..])));
      PackUnpack(widths[1..], high);
      assert Unpack(widths, w)[1..] == Unpack(widths[1..], high);
    }
  }

  lemma HighBound(low: nat, p: nat, high: nat, q: nat)
    requires low + p * high < p * q
    ensures high < q
  {
    assert high >= q ==> p * (high - q) >= 0;
    assert p * (high - q) == p * high - p * q;
  }

  /** Above all fields but the last stands the last one. */
  lemma {:induction false} TopField(widths: seq<nat>, fields: seq<nat>)
    requires Fits(widths, fields) && |widths| > 0
    ensures Pack(widths, fields) / Pow2(Total(widths[..|widths| - 1])) == fields[|widths| - 1]
  {
    var n := |widths| - 1;
    if n == 0 {
      assert Pack(widths, fields) == fields[0] + Pow2(widths[0]) * 0;
      assert Pow2(Total(widths[..0])) == 1;
    } else {
      TopField(widths[1..], fields[1..]);
      assert widths[1..][..n - 1] == widths[..n][1..];
      var p, q := Pow2(widths[0]), Pow2(Total(widths[..n][1..]));
      Pow2Add(widths[0], Total(widths[..n][1..]));
      DivideByProduct(fields[0], p, Pack(widths[1..], fields[1..]), q);
    }
  }

  lemma DivideByProduct(low: nat, p: nat, high: nat, q: nat)
    requires low < p && q >= 1
    ensures p * q >= 1 && (low + p * high) / (p * q) == high / q
  {
    var k, r := high / q, high % q;
    assert high == q * k + r;
    DigitBound(low, p, r, q);
    assert p * (q * k + r) == (p * q) * k + p * r;
    assert p * r >= 0;
    QuotientUnique(low + p * high, p * q, k, low + p * r);
  }
}
