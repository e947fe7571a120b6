/** `src/spu_emu_parser.cpp` and `src/elf_helper.h`: the reversal of the bytes of each field of a structure,
    in place, and the layouts it is used with. A layout is the sizes of the fields; the NUL that ends it in
    the source is not part of it. */
module ByteReversal {
  import opened Vectors
  import QuadValue

  function Reversed<T>(s: seq<T>): (r: seq<T>)
    ensures |r| == |s| && forall i :: 0 <= i < |s| ==> r[i] == s[|s| - 1 - i]
  {
    seq(|s|, i requires 0 <= i < |s| => s[|s| - 1 - i])
  }

  function Size(layout: seq<nat>): nat {
    if layout == [] then 0 else layout[0] + Size(layout[1..])
  }

  /** Where the byte that ends up at `i` comes from: its mirror image within its field. */
  function Mirror(layout: seq<nat>, i: nat): (j: nat)
    ensures i < Size(layout) ==> j < Size(layout)
    ensures i >= Size(layout) ==> j == i
    decreases |layout|
  {
    if layout == [] then i
    else if i < layout[0] then layout[0] - 1 - i
    else layout[0] + Mirror(layout[1..], i - layout[0])
  }

  /** The data with each field of the layout reversed. */
  function ReversedFields<T>(s: seq<T>, layout: seq<nat>): (r: seq<T>)
    requires Size(layout) <= |s|
    ensures |r| == |s|
  {
    seq(|s|, i requires 0 <= i < |s| && Size(layout) <= |s| => s[Mirror(layout, i)])
  }

  /** `now` is `before` with the bytes from `begin` up to `end` in reverse order. */
  ghost predicate Mirrored(before: seq<byte>, now: seq<byte>, begin: nat, end: nat) {
    |now| == |before| && begin <= end <= |before|
    && forall i: nat :: i < |now| ==> now[i] == before[if begin <= i < end then begin + end - 1 - i else i]
  }

  /** The two pointers that meet in the middle of a field. */
  method ReverseField(a: array<byte>, raw: nat, size: nat)
    requires 0 < size && raw + size <= a.Length
    modifies a
    ensures Mirrored(old(a[..]), a[..], raw, raw + size)
  {
    var first, last := raw, raw + size - 1;
    while first < last
      invariant raw <= first <= last + 1 && first + last == 2 * raw + size - 1
      invariant forall i :: raw <= i < first ==> a[i] == old(a[2 * raw + size - 1 - i])
      invariant forall i :: last < i < raw + size ==> a[i] == old(a[2 * raw + size - 1 - i])
      invariant forall i :: 0 <= i < raw || first <= i <= last || raw + size <= i < a.Length ==> a[i] == old(a[i])
    {
      var tmp := a[first];
      a[first] := a[last];
      a[last] := tmp;
      first, last := first + 1, last - 1;
    }
  }

  method ReverseBytesInRange(a: array<byte>, layout: seq<nat>)
    requires (forall k :: 0 <= k < |layout| ==> layout[k] > 0) && Size(layout) <= a.Length
    modifies a
    ensures a[..] == ReversedFields(old(a[..]), layout)
  {
    ghost var data, result := a[..], ReversedFields(a[..], layout);
    var raw, k := 0, 0;
    assert layout[..0] == [];
    while k != |layout|
      invariant k <= |layout| && raw == Size(layout[..k])
      invariant DoneTo(a[..], data, result, raw)
      decreases |layout| - k
    {
      SizeOfFront(layout, k);
      FieldWithin(data, layout, k, result, raw);
      ReverseNext(a, raw, layout[k], data, result);
      raw, k := raw + layout[k], k + 1;
    }
    assert layout[..k] == layout;
    AllDone(a[..], data, layout, result);
  }

  /** The body of the outer loop. */
  method ReverseNext(a: array<byte>, raw: nat, size: nat, ghost data: seq<byte>, ghost result: seq<byte>)
    requires size > 0 && raw + size <= a.Length && DoneTo(a[..], data, result, raw)
    requires forall j: nat :: raw <= j < raw + size ==> result[j] == data[raw + (raw + size) - 1 - j]
    modifies a
    ensures DoneTo(a[..], data, result, raw + size)
  {
    ReverseField(a, raw, size);
  }

  /** The bytes before `raw` are as in the result, the others as in the data. */
  ghost predicate DoneTo(now: seq<byte>, data: seq<byte>, result: seq<byte>, raw: nat) {
    |now| == |data| == |result|
    && forall i: nat :: i < |now| ==> now[i] == if i < raw then result[i] else data[i]
  }

  lemma FieldWithin(data: seq<byte>, layout: seq<nat>, k: nat, result: seq<byte>, raw: nat)
    requires Size(layout) <= |data| && result == ReversedFields(data, layout)
    requires k < |layout| && raw == Size(layout[..k]) && raw + layout[k] <= |data|
    ensures forall j: nat :: raw <= j < raw + layout[k] ==> result[j] == data[raw + (raw + layout[k]) - 1 - j]
  {
    forall j: nat | raw <= j < raw + layout[k]
      ensures result[j] == data[raw + (raw + layout[k]) - 1 - j]
    {
      FieldReversed(data, layout, k, j - raw, raw);
    }
  }

  lemma AllDone(now: seq<byte>, data: seq<byte>, layout: seq<nat>, result: seq<byte>)
    requires Size(layout) <= |data| && result == ReversedFields(data, layout) && DoneTo(now, data, result, Size(layout))
    ensures now == result
  {
  }

  lemma {:induction false} SizeOfFront(layout: seq<nat>, k: nat)
    requires k < |layout|
    ensures Size(layout[..k + 1]) == Size(layout[..k]) + layout[k] <= Size(layout)
  {
    assert layout[..k + 1][1..] == layout[1..][..k];
    if k > 0 {
      assert layout[..k][1..] == layout[1..][..k - 1];
      SizeOfFront(layout[1..], k - 1);
    }
  }

  /** Within field `k` the mirror image is counted from its other end. */
  lemma {:induction false} MirrorInField(layout: seq<nat>, k: nat, j: nat)
    requires k < |layout| && j < layout[k]
    ensures Mirror(layout, Size(layout[..k]) + j) == Size(layout[..k]) + layout[k] - 1 - j
  {
    if k > 0 {
      assert layout[..k][1..] == layout[1..][..k - 1];
      MirrorInField(layout[1..], k - 1, j);
    }
  }

  lemma {:induction false} MirrorTwice(layout: seq<nat>, i: nat)
    ensures Mirror(layout, Mirror(layout, i)) == i
    decreases |layout|
  {
    if layout != [] && i >= layout[0] {
      MirrorTwice(layout[1..], i - layout[0]);
    }
  }

  // ----- what the reversal does -----

  lemma {:induction false} ReversedMultiset<T>(s: seq<T>)
    ensures multiset(Reversed(s)) == multiset(s)
  {
    if s != [] {
      ReversedMultiset(s[1..]);
      assert Reversed(s) == Reversed(s[1..]) + [s[0]];
      assert s == [s[0]] + s[1..];
    }
  }

  /** The reversal is its own inverse. */
  lemma ReversedFieldsTwice<T>(s: seq<T>, layout: seq<nat>)
    requires Size(layout) <= |s|
    ensures ReversedFields(ReversedFields(s, layout), layout) == s
  {
    forall i | 0 <= i < |s|
      ensures ReversedFields(ReversedFields(s, layout), layout)[i] == s[i]
    {
      MirrorTwice(layout, i);
    }
  }

  lemma ByteOfRest<T>(s: seq<T>, layout: seq<nat>, n: nat, rest: seq<T>, i: nat)
    requires Size(layout) <= |s| && layout != [] && n == layout[0] && rest == s[n..] && n <= i < |s|
    ensures Size(layout[1..]) <= |rest| && ReversedFields(s, layout)[i] == ReversedFields(rest, layout[1..])[i - n]
  {
    var j := Mirror(layout[1..], i - n);
    assert Mirror(layout, i) == n + j;
    assert j < |rest| && s[n + j] == rest[j];
  }

  lemma ByteOfFirst<T>(s: seq<T>, layout: seq<nat>, n: nat, front: seq<T>, i: nat)
    requires Size(layout) <= |s| && layout != [] && n == layout[0] && front == s[..n] && i < n
    ensures ReversedFields(s, layout)[i] == Reversed(front)[i]
  {
    assert Mirror(layout, i) == n - 1 - i;
  }

  /** The first field is reversed, and the rest with the rest of the layout. */
  lemma FirstField<T>(s: seq<T>, layout: seq<nat>)
    requires Size(layout) <= |s| && layout != []
    ensures ReversedFields(s, layout) == Reversed(s[..layout[0]]) + ReversedFields(s[layout[0]..], layout[1..])
  {
    var n, front, rest := layout[0], s[..layout[0]], s[layout[0]..];
    var r, whole := ReversedFields(rest, layout[1..]), ReversedFields(s, layout);
    forall i | 0 <= i < |s|
      ensures whole[i] == (Reversed(front) + r)[i]
    {
      if i < n {
        ByteOfFirst(s, layout, n, front, i);
      } else {
        ByteOfRest(s, layout, n, rest, i);
      }
    }
  }

  /** The reversal moves bytes and changes none. */
  lemma {:induction false} ReversedFieldsMultiset<T>(s: seq<T>, layout: seq<nat>)
    requires Size(layout) <= |s|
    ensures multiset(ReversedFields(s, layout)) == multiset(s)
    decreases |layout|
  {
    if layout == [] {
      assert ReversedFields(s, layout) == s;
    } else {
      var n := layout[0];
      ReversedMultiset(s[..n]);
      ReversedFieldsMultiset(s[n..], layout[1..]);
      FirstField(s, layout);
      assert s == s[..n] + s[n..];
    }
  }

  /** Field `k` is reversed where it stands: its byte `j` is byte `j` from its end. */
  lemma FieldReversed<T>(s: seq<T>, layout: seq<nat>, k: nat, j: nat, at: nat)
    requires Size(layout) <= |s| && k < |layout| && j < layout[k] && at == Size(layout[..k])
    ensures at + layout[k] <= Size(layout) && ReversedFields(s, layout)[at + j] == s[at + layout[k] - 1 - j]
  {
    SizeOfFront(layout, k);
    MirrorInField(layout, k, j);
    assert Mirror(layout, at + j) == at + layout[k] - 1 - j;
  }

  /** What lies behind the layout is unchanged. */
  lemma BehindUnchanged<T>(s: seq<T>, layout: seq<nat>)
    requires Size(layout) <= |s|
    ensures ReversedFields(s, layout)[Size(layout)..] == s[Size(layout)..]
  {
  }

  /** A number in big-endian order. */
  function BigEndian(s: seq<byte>): nat {
    if s == [] then 0 else 0x100 * BigEndian(s[..|s| - 1]) + s[|s| - 1]
  }

  /** A reversed field, read in little-endian order, is the number it held in big-endian order. */
  lemma {:induction false} ReversedIsBigEndian(s: seq<byte>)
    ensures QuadValue.Value(Reversed(s)) == BigEndian(s)
  {
    if s != [] {
      ReversedIsBigEndian(s[..|s| - 1]);
      assert Reversed(s)[1..] == Reversed(s[..|s| - 1]);
    }
  }

  // ----- the layouts of the ELF structures -----

  function Fields(count: nat, size: nat): (fields: seq<nat>)
    ensures |fields| == count && forall k :: 0 <= k < count ==> fields[k] == size
  {
    seq(count, _ => size)
  }

  const HEADER_32: seq<nat> := Fields(16, 1) + Fields(2, 2) + Fields(5, 4) + Fields(6, 2)
  const PHEADER_32: seq<nat> := Fields(8, 4)
  const SHEADER_32: seq<nat> := Fields(10, 4)
  const SYMBOL_32: seq<nat> := Fields(3, 4) + Fields(2, 1) + Fields(1, 2)
  const HEADER_64: seq<nat> := Fields(16, 1) + Fields(2, 2) + Fields(1, 4) + Fields(3, 8) + Fields(1, 4) + Fields(6, 2)
  const PHEADER_64: seq<nat> := Fields(2, 4) + Fields(6, 8)
  const SHEADER_64: seq<nat> := Fields(2, 4) + Fields(4, 8) + Fields(2, 4) + Fields(2, 8)
  const SYMBOL_64: seq<nat> := Fields(1, 4) + Fields(2, 1) + Fields(1, 2) + Fields(2, 8)

  lemma {:induction false} SizeConcat(a: seq<nat>, b: seq<nat>)
    ensures Size(a + b) == Size(a) + Size(b)
  {
    if a == [] {
      assert a + b == b;
    } else {
      SizeConcat(a[1..], b);
      assert (a + b)[1..] == a[1..] + b;
    }
  }

  lemma {:induction false} SizeOfFields(count: nat, size: nat)
    ensures Size(Fields(count, size)) == count * size
  {
    if count > 0 {
      SizeOfFields(count - 1, size);
      assert Fields(count, size)[1..] == Fields(count - 1, size);
    }
  }

  lemma SizeMore(layout: seq<nat>, count: nat, size: nat)
    ensures Size(layout + Fields(count, size)) == Size(layout) + count * size
  {
    SizeConcat(layout, Fields(count, size));
    SizeOfFields(count, size);
  }

  /** The layouts of the 32-bit structures cover 52, 32, 40 and 16 bytes. */
  lemma LayoutSizes32()
    ensures Size(HEADER_32) == 52 && Size(PHEADER_32) == 32 && Size(SHEADER_32) == 40 && Size(SYMBOL_32) == 16
  {
    SizeOfFields(16, 1);
    SizeMore(Fields(16, 1), 2, 2);
    SizeMore(Fields(16, 1) + Fields(2, 2), 5, 4);
    SizeMore(Fields(16, 1) + Fields(2, 2) + Fields(5, 4), 6, 2);
    SizeOfFields(8, 4);
    SizeOfFields(10, 4);
    SizeOfFields(3, 4);
    SizeMore(Fields(3, 4), 2, 1);
    SizeMore(Fields(3, 4) + Fields(2, 1), 1, 2);
  }

  /** The layouts of the 64-bit structures cover 64, 56, 64 and 24 bytes. */
  lemma LayoutSizes64()
    ensures Size(HEADER_64) == 64 && Size(PHEADER_64) == 56 && Size(SHEADER_64) == 64 && Size(SYMBOL_64) == 24
  {
    SizeOfFields(16, 1);
    SizeMore(Fields(16, 1), 2, 2);
    SizeMore(Fields(16, 1) + Fields(2, 2), 1, 4);
    SizeMore(Fields(16, 1) + Fields(2, 2) + Fields(1, 4), 3, 8);
    SizeMore(Fields(16, 1) + Fields(2, 2) + Fields(1, 4) + Fields(3, 8), 1, 4);
    SizeMore(Fields(16, 1) + Fields(2, 2) + Fields(1, 4) + Fields(3, 8) + Fields(1, 4), 6, 2);
    SizeOfFields(2, 4);
    SizeMore(Fields(2, 4), 6, 8);
    SizeMore(Fields(2, 4), 4, 8);
    SizeMore(Fields(2, 4) + Fields(4, 8), 2, 4);
    SizeMore(Fields(2, 4) + Fields(4, 8) + Fields(2, 4), 2, 8);
    SizeOfFields(1, 4);
    SizeMore(Fields(1, 4), 2, 1);
    SizeMore(Fields(1, 4) + Fields(2, 1), 1, 2);
    SizeMore(Fields(1, 4) + Fields(2, 1) + Fields(1, 2), 2, 8);
  }

  // ----- the fields of the ELF structures -----

  /** The `width` bytes at offset `at` are in reverse order. */
  ghost predicate Flipped(before: seq<byte>, after: seq<byte>, at: nat, width: nat) {
    at + width <= |before| && at + width <= |after| && after[at..at + width] == Reversed(before[at..at + width])
  }

  lemma FieldAt(s: seq<byte>, layout: seq<nat>, k: nat, at: nat, width: nat)
    requires Size(layout) <= |s| && k < |layout| && layout[k] == width && Size(layout[..k]) == at
    ensures Flipped(s, ReversedFields(s, layout), at, width) && Size(layout[..k + 1]) == at + width
  {
    SizeOfFront(layout, k);
    var before, after := s[at..at + width], ReversedFields(s, layout)[at..at + width];
    forall j | 0 <= j < width
      ensures after[j] == Reversed(before)[j]
    {
      FieldReversed(s, layout, k, j, at);
    }
  }

  lemma {:induction false} SizeOfOnes(layout: seq<nat>, n: nat)
    requires n <= |layout| && forall k :: 0 <= k < n ==> layout[k] == 1
    ensures Size(layout[..n]) == n
  {
    if n > 0 {
      SizeOfOnes(layout, n - 1);
      SizeOfFront(layout, n - 1);
    }
  }

  /** Leading fields of one byte stay as they are. */
  lemma BytesKept(s: seq<byte>, layout: seq<nat>, n: nat)
    requires Size(layout) <= |s| && n <= |layout| && forall k :: 0 <= k < n ==> layout[k] == 1
    ensures n <= |s| && Size(layout[..n]) == n && ReversedFields(s, layout)[..n] == s[..n]
  {
    SizeOfOnes(layout, n);
    if n > 0 {
      SizeOfFront(layout, n - 1);
    }
    forall i | 0 <= i < n
      ensures ReversedFields(s, layout)[i] == s[i]
    {
      SizeOfOnes(layout, i);
      FieldReversed(s, layout, i, 0, i);
    }
  }

  /** The header of a 32-bit file: e_ident, e_type, e_machine, e_version, e_entry, e_phoff, e_shoff, e_flags,
      e_ehsize, e_phentsize, e_phnum, e_shentsize, e_shnum and e_shstrndx. */
  lemma Header32Fields(s: seq<byte>, r: seq<byte>)
    requires Size(HEADER_32) <= |s| && r == ReversedFields(s, HEADER_32)
    ensures 16 <= |s| && r[..16] == s[..16]
    ensures Flipped(s, r, 16, 2) && Flipped(s, r, 18, 2) && Flipped(s, r, 20, 4) && Flipped(s, r, 24, 4)
    ensures Flipped(s, r, 28, 4) && Flipped(s, r, 32, 4) && Flipped(s, r, 36, 4) && Flipped(s, r, 40, 2)
    ensures Flipped(s, r, 42, 2) && Flipped(s, r, 44, 2) && Flipped(s, r, 46, 2) && Flipped(s, r, 48, 2)
    ensures Flipped(s, r, 50, 2)
  {
    BytesKept(s, HEADER_32, 16);
    FieldAt(s, HEADER_32, 16, 16, 2);
    FieldAt(s, HEADER_32, 17, 18, 2);
    FieldAt(s, HEADER_32, 18, 20, 4);
    FieldAt(s, HEADER_32, 19, 24, 4);
    FieldAt(s, HEADER_32, 20, 28, 4);
    FieldAt(s, HEADER_32, 21, 32, 4);
    FieldAt(s, HEADER_32, 22, 36, 4);
    FieldAt(s, HEADER_32, 23, 40, 2);
    FieldAt(s, HEADER_32, 24, 42, 2);
    FieldAt(s, HEADER_32, 25, 44, 2);
    FieldAt(s, HEADER_32, 26, 46, 2);
    FieldAt(s, HEADER_32, 27, 48, 2);
    FieldAt(s, HEADER_32, 28, 50, 2);
  }

  /** A 32-bit program header: p_type, p_offset, p_vaddr, p_paddr, p_filesz, p_memsz, p_flags and p_align. */
  lemma ProgramHeader32Fields(s: seq<byte>, r: seq<byte>)
    requires Size(PHEADER_32) <= |s| && r == ReversedFields(s, PHEADER_32)
    ensures Flipped(s, r, 0, 4) && Flipped(s, r, 4, 4) && Flipped(s, r, 8, 4) && Flipped(s, r, 12, 4)
    ensures Flipped(s, r, 16, 4) && Flipped(s, r, 20, 4) && Flipped(s, r, 24, 4) && Flipped(s, r, 28, 4)
  {
    assert PHEADER_32[..0] == [];
    FieldAt(s, PHEADER_32, 0, 0, 4);
    FieldAt(s, PHEADER_32, 1, 4, 4);
    FieldAt(s, PHEADER_32, 2, 8, 4);
    FieldAt(s, PHEADER_32, 3, 12, 4);
    FieldAt(s, PHEADER_32, 4, 16, 4);
    FieldAt(s, PHEADER_32, 5, 20, 4);
    FieldAt(s, PHEADER_32, 6, 24, 4);
    FieldAt(s, PHEADER_32, 7, 28, 4);
  }

  /** A 32-bit section header: sh_name, sh_type, sh_flags, sh_addr, sh_offset, sh_size, sh_link, sh_info,
      sh_addralign and sh_entsize. */
  lemma SectionHeader32Fields(s: seq<byte>, r: seq<byte>)
    requires Size(SHEADER_32) <= |s| && r == ReversedFields(s, SHEADER_32)
    ensures Flipped(s, r, 0, 4) && Flipped(s, r, 4, 4) && Flipped(s, r, 8, 4) && Flipped(s, r, 12, 4)
    ensures Flipped(s, r, 16, 4) && Flipped(s, r, 20, 4) && Flipped(s, r, 24, 4) && Flipped(s, r, 28, 4)
    ensures Flipped(s, r, 32, 4) && Flipped(s, r, 36, 4)
  {
    assert SHEADER_32[..0] == [];
    FieldAt(s, SHEADER_32, 0, 0, 4);
    FieldAt(s, SHEADER_32, 1, 4, 4);
    FieldAt(s, SHEADER_32, 2, 8, 4);
    FieldAt(s, SHEADER_32, 3, 12, 4);
    FieldAt(s, SHEADER_32, 4, 16, 4);
    FieldAt(s, SHEADER_32, 5, 20, 4);
    FieldAt(s, SHEADER_32, 6, 24, 4);
    FieldAt(s, SHEADER_32, 7, 28, 4);
    FieldAt(s, SHEADER_32, 8, 32, 4);
    FieldAt(s, SHEADER_32, 9, 36, 4);
  }

  /** A 32-bit symbol: st_name, st_value, st_size, st_info, st_other and st_shndx. */
  lemma Symbol32Fields(s: seq<byte>, r: seq<byte>)
    requires Size(SYMBOL_32) <= |s| && r == ReversedFields(s, SYMBOL_32)
    ensures Flipped(s, r, 0, 4) && Flipped(s, r, 4, 4) && Flipped(s, r, 8, 4) && Flipped(s, r, 12, 1)
    ensures Flipped(s, r, 13, 1) && Flipped(s, r, 14, 2)
  {
    assert SYMBOL_32[..0] == [];
    FieldAt(s, SYMBOL_32, 0, 0, 4);
    FieldAt(s, SYMBOL_32, 1, 4, 4);
    FieldAt(s, SYMBOL_32, 2, 8, 4);
    FieldAt(s, SYMBOL_32, 3, 12, 1);
    FieldAt(s, SYMBOL_32, 4, 13, 1);
    FieldAt(s, SYMBOL_32, 5, 14, 2);
  }

  /** The header of a 64-bit file, with e_entry, e_phoff and e_shoff of eight bytes. */
  lemma Header64Fields(s: seq<byte>, r: seq<byte>)
    requires Size(HEADER_64) <= |s| && r == ReversedFields(s, HEADER_64)
    ensures 16 <= |s| && r[..16] == s[..16]
    ensures Flipped(s, r, 16, 2) && Flipped(s, r, 18, 2) && Flipped(s, r, 20, 4) && Flipped(s, r, 24, 8)
    ensures Flipped(s, r, 32, 8) && Flipped(s, r, 40, 8) && Flipped(s, r, 48, 4) && Flipped(s, r, 52, 2)
    ensures Flipped(s, r, 54, 2) && Flipped(s, r, 56, 2) && Flipped(s, r, 58, 2) && Flipped(s, r, 60, 2)
    ensures Flipped(s, r, 62, 2)
  {
    BytesKept(s, HEADER_64, 16);
    FieldAt(s, HEADER_64, 16, 16, 2);
    FieldAt(s, HEADER_64, 17, 18, 2);
    FieldAt(s, HEADER_64, 18, 20, 4);
    FieldAt(s, HEADER_64, 19, 24, 8);
    FieldAt(s, HEADER_64, 20, 32, 8);
    FieldAt(s, HEADER_64, 21, 40, 8);
    FieldAt(s, HEADER_64, 22, 48, 4);
    FieldAt(s, HEADER_64, 23, 52, 2);
    FieldAt(s, HEADER_64, 24, 54, 2);
    FieldAt(s, HEADER_64, 25, 56, 2);
    FieldAt(s, HEADER_64, 26, 58, 2);
    FieldAt(s, HEADER_64, 27, 60, 2);
    FieldAt(s, HEADER_64, 28, 62, 2);
  }

  /** A 64-bit program header: p_type, p_flags, p_offset, p_vaddr, p_paddr, p_filesz, p_memsz and p_align. */
  lemma ProgramHeader64Fields(s: seq<byte>, r: seq<byte>)
    requires Size(PHEADER_64) <= |s| && r == ReversedFields(s, PHEADER_64)
    ensures Flipped(s, r, 0, 4) && Flipped(s, r, 4, 4) && Flipped(s, r, 8, 8) && Flipped(s, r, 16, 8)
    ensures Flipped(s, r, 24, 8) && Flipped(s, r, 32, 8) && Flipped(s, r, 40, 8) && Flipped(s, r, 48, 8)
  {
    assert PHEADER_64[..0] == [];
    FieldAt(s, PHEADER_64, 0, 0, 4);
    FieldAt(s, PHEADER_64, 1, 4, 4);
    FieldAt(s, PHEADER_64, 2, 8, 8);
    FieldAt(s, PHEADER_64, 3, 16, 8);
    FieldAt(s, PHEADER_64, 4, 24, 8);
    FieldAt(s, PHEADER_64, 5, 32, 8);
    FieldAt(s, PHEADER_64, 6, 40, 8);
    FieldAt(s, PHEADER_64, 7, 48, 8);
  }

  /** A 64-bit section header: sh_flags, sh_addr, sh_offset, sh_size, sh_addralign and sh_entsize have eight bytes. */
  lemma SectionHeader64Fields(s: seq<byte>, r: seq<byte>)
    requires Size(SHEADER_64) <= |s| && r == ReversedFields(s, SHEADER_64)
    ensures Flipped(s, r, 0, 4) && Flipped(s, r, 4, 4) && Flipped(s, r, 8, 8) && Flipped(s, r, 16, 8)
    ensures Flipped(s, r, 24, 8) && Flipped(s, r, 32, 8) && Flipped(s, r, 40, 4) && Flipped(s, r, 44, 4)
    ensures Flipped(s, r, 48, 8) && Flipped(s, r, 56, 8)
  {
    assert SHEADER_64[..0] == [];
    FieldAt(s, SHEADER_64, 0, 0, 4);
    FieldAt(s, SHEADER_64, 1, 4, 4);
    FieldAt(s, SHEADER_64, 2, 8, 8);
    FieldAt(s, SHEADER_64, 3, 16, 8);
    FieldAt(s, SHEADER_64, 4, 24, 8);
    FieldAt(s, SHEADER_64, 5, 32, 8);
    FieldAt(s, SHEADER_64, 6, 40, 4);
    FieldAt(s, SHEADER_64, 7, 44, 4);
    FieldAt(s, SHEADER_64, 8, 48, 8);
    FieldAt(s, SHEADER_64, 9, 56, 8);
  }

  /** A 64-bit symbol: st_name, st_info, st_other, st_shndx, st_value and st_size. */
  lemma Symbol64Fields(s: seq<byte>, r: seq<byte>)
    requires Size(SYMBOL_64) <= |s| && r == ReversedFields(s, SYMBOL_64)
    ensures Flipped(s, r, 0, 4) && Flipped(s, r, 4, 1) && Flipped(s, r, 5, 1) && Flipped(s, r, 6, 2)
    ensures Flipped(s, r, 8, 8) && Flipped(s, r, 16, 8)
  {
    assert SYMBOL_64[..0] == [];
    FieldAt(s, SYMBOL_64, 0, 0, 4);
    FieldAt(s, SYMBOL_64, 1, 4, 1);
    FieldAt(s, SYMBOL_64, 2, 5, 1);
    FieldAt(s, SYMBOL_64, 3, 6, 2);
    FieldAt(s, SYMBOL_64, 4, 8, 8);
    FieldAt(s, SYMBOL_64, 5, 16, 8);
  }
}
