/** `src/elf_helper.h`: the string table of an ELF file, split at its NUL characters. */
module StringTable {
  const NUL: char := '\0'

  /** A string table ends in NUL, unless it is empty. */
  predicate Terminated(table: string) { table == "" || table[|table| - 1] == NUL }

  /** Where the string that starts at `from` ends: at the first NUL. */
  function End(table: string, from: nat): (e: nat)
    requires Terminated(table) && from < |table|
    ensures from <= e < |table| && table[e] == NUL && forall j :: from <= j < e ==> table[j] != NUL
    decreases |table| - from
  {
    if table[from] == NUL then from else End(table, from + 1)
  }

  /** A string starts at the beginning of the table and behind every NUL. */
  predicate Starts(table: string, o: nat) { o < |table| && (o == 0 || table[o - 1] == NUL) }

  /** The strings that start before `bound`. */
  ghost predicate StringsBefore(table: string, strings: map<nat, string>, bound: nat)
    requires Terminated(table)
  {
    forall o: nat ::
      (o in strings <==> o < bound && Starts(table, o))
      && (o in strings ==> strings[o] == table[o..End(table, o)])
  }

  /** The construction of a string from a pointer: the characters up to the first NUL. */
  method CString(table: string, from: nat) returns (s: string)
    requires Terminated(table) && from < |table|
    ensures s == table[from..End(table, from)]
  {
    var e := from;
    while table[e] != NUL
      invariant from <= e < |table| && End(table, from) == End(table, e)
      decreases |table| - e
    {
      e := e + 1;
    }
    s := table[from..e];
  }

  /** The loop of _ReadStringTable. */
  method ReadStringTable(table: string) returns (strings: map<nat, string>)
    requires Terminated(table)
    ensures StringsBefore(table, strings, |table|)
  {
    strings := map[];
    var bytesRead := 0;
    while bytesRead < |table|
      invariant bytesRead <= |table| && StringsBefore(table, strings, bytesRead)
      invariant bytesRead < |table| ==> Starts(table, bytesRead)
      decreases |table| - bytesRead
    {
      var temp := CString(table, bytesRead);
      NothingBetween(table, bytesRead);
      strings := strings[bytesRead := temp];
      bytesRead := bytesRead + (|temp| + 1);
    }
  }

  /** No string starts within another. */
  lemma NothingBetween(table: string, o: nat)
    requires Terminated(table) && o < |table|
    ensures forall j :: o < j <= End(table, o) ==> !Starts(table, j)
  {
  }

  /** The starts from `o` on, in order: each follows the NUL of the one before. */
  function Offsets(table: string, o: nat): seq<nat>
    requires Terminated(table)
    decreases |table| - o
  {
    if o >= |table| then [] else [o] + Offsets(table, End(table, o) + 1)
  }

  /** The strings at the given offsets, each followed by a NUL. */
  function Joined(strings: map<nat, string>, offsets: seq<nat>): string
    requires forall o :: o in offsets ==> o in strings
  {
    if offsets == [] then "" else strings[offsets[0]] + [NUL] + Joined(strings, offsets[1..])
  }

  ghost predicate Ascending(s: seq<nat>) { forall i, j :: 0 <= i < j < |s| ==> s[i] < s[j] }

  lemma AscendingMore(o: nat, rest: seq<nat>)
    requires Ascending(rest) && forall j :: j in rest ==> o < j
    ensures Ascending([o] + rest)
  {
    assert forall i :: 0 <= i < |rest| ==> rest[i] in rest;
  }

  /** Before the offsets from `next` on comes that of the string that ends there. */
  lemma OffsetsOneMore(table: string, o: nat, next: nat, rest: seq<nat>)
    requires o < next && Starts(table, o) && Ascending(rest)
    requires forall j: nat :: j in rest <==> next <= j && Starts(table, j)
    requires forall j :: o < j < next ==> !Starts(table, j)
    ensures Ascending([o] + rest)
    ensures forall j: nat :: j in [o] + rest <==> o <= j && Starts(table, j)
  {
    AscendingMore(o, rest);
  }

  /** The offsets are the starts of strings, in ascending order. */
  lemma {:induction false} OffsetsExact(table: string, o: nat)
    requires Terminated(table) && (o < |table| ==> Starts(table, o))
    ensures Ascending(Offsets(table, o))
    ensures forall j: nat :: j in Offsets(table, o) <==> o <= j && Starts(table, j)
    decreases |table| - o
  {
    if o < |table| {
      var next := End(table, o) + 1;
      OffsetsExact(table, next);
      NothingBetween(table, o);
      OffsetsOneMore(table, o, next, Offsets(table, next));
    }
  }

  lemma JoinedMore(strings: map<nat, string>, o: nat, rest: seq<nat>)
    requires o in strings && forall j :: j in rest ==> j in strings
    ensures Joined(strings, [o] + rest) == strings[o] + [NUL] + Joined(strings, rest)
  {
    assert ([o] + rest)[1..] == rest;
  }

  lemma CutAt(table: string, o: nat, e: nat)
    requires o <= e < |table|
    ensures table[o..|table|] == table[o..e] + [table[e]] + table[e + 1..|table|]
  {
  }

  /** The strings read from a table, joined again in the order of their offsets, are the table. */
  lemma {:induction false} JoinedIsTable(table: string, strings: map<nat, string>, o: nat)
    requires Terminated(table) && StringsBefore(table, strings, |table|)
    requires o <= |table| && (o < |table| ==> Starts(table, o))
    ensures forall j :: j in Offsets(table, o) ==> j in strings
    ensures Joined(strings, Offsets(table, o)) == table[o..|table|]
    decreases |table| - o
  {
    if o < |table| {
      var e := End(table, o);
      JoinedIsTable(table, strings, e + 1);
      ReadAt(table, strings, o);
      OffsetsFrom(table, o, e);
      JoinedFrom(table, strings, o, e, Offsets(table, e + 1), Offsets(table, o));
    }
  }

  lemma ReadAt(table: string, strings: map<nat, string>, o: nat)
    requires Terminated(table) && StringsBefore(table, strings, |table|) && Starts(table, o)
    ensures o in strings && strings[o] == table[o..End(table, o)]
  {
  }

  lemma OffsetsFrom(table: string, o: nat, e: nat)
    requires Terminated(table) && o < |table| && e == End(table, o)
    ensures Offsets(table, o) == [o] + Offsets(table, e + 1)
  {
  }

  lemma JoinedFrom(table: string, strings: map<nat, string>, o: nat, e: nat, rest: seq<nat>, offsets: seq<nat>)
    requires offsets == [o] + rest
    requires o <= e < |table| && table[e] == NUL && o in strings && strings[o] == table[o..e]
    requires (forall j :: j in rest ==> j in strings) && Joined(strings, rest) == table[e + 1..|table|]
    ensures (forall j :: j in offsets ==> j in strings) && Joined(strings, offsets) == table[o..|table|]
  {
    JoinedMore(strings, o, rest);
    CutAt(table, o, e);
  }

  /** No string holds a NUL. */
  lemma StringsClean(table: string, strings: map<nat, string>, o: nat)
    requires Terminated(table) && StringsBefore(table, strings, |table|) && o in strings
    ensures NUL !in strings[o]
  {
  }
}
