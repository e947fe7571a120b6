/** `src/spu_assembler.cpp`: reading the operands of an instruction text into the argument array. */
module OperandReading {
  import opened InstructionTable

  const ARGS: nat := 32

  /** `args[slot] = x`, and the shifted copies made of the slots of 18 and 14 bits. */
  function Store(args: seq<int>, slot: nat, x: int): (stored: seq<int>)
    requires |args| == ARGS && slot < ARGS
    ensures |stored| == ARGS
  {
    var stored := args[slot := x];
    if slot == A_S18 then stored[A_S16 := x / 4]
    else if slot == A_S14 then stored[A_S10 := x / 16]
    else stored
  }

  ghost predicate InArray(types: seq<nat>) { forall j :: 0 <= j < |types| ==> types[j] < ARGS }

  // ----- reading one list, and several -----

  /** The arguments and the numbers still to be read. */
  datatype Reading = Reading(args: seq<int>, rest: seq<int>)
  {
    predicate Valid() { |args| == ARGS }
  }

  /** Extraction from a stream that has come to its end leaves `temp` as it is. */
  function Extracted(rest: seq<int>, temp: int): int { if rest == [] then temp else rest[0] }

  function Behind(rest: seq<int>): seq<int> { if rest == [] then [] else rest[1..] }

  function ReadList(types: seq<nat>, from: Reading, temp: int): (r: Reading)
    requires InArray(types) && from.Valid()
    ensures r.Valid()
    decreases |types|
  {
    if types == [] then from
    else
      var x := Extracted(from.rest, temp);
      var args := if types[0] == A_P then from.args else Store(from.args, types[0], x);
      ReadList(types[1..], Reading(args, Behind(from.rest)), x)
  }

  lemma TypesInArray(list: ArgList)
    ensures InArray(list.Types())
  {
  }

  function ReadLists(lists: seq<ArgList>, from: Reading): (r: Reading)
    requires from.Valid()
    ensures r.Valid()
  {
    if lists == [] then from
    else
      TypesInArray(lists[0]);
      ReadLists(lists[1..], ReadList(lists[0].Types(), from, 0))
  }

  function Zeros(): (args: seq<int>)
    ensures |args| == ARGS && forall a :: 0 <= a < ARGS ==> args[a] == 0
  {
    seq(ARGS, _ => 0)
  }

  /** The argument array that is read for an instruction with these lists from these numbers. */
  function ArgsRead(lists: seq<ArgList>, values: seq<int>): (args: seq<int>)
    ensures |args| == ARGS
  {
    ReadLists(lists, Reading(Zeros(), values)).args
  }

  /** The loops of spu_assemble that fill the array. */
  method ReadArguments(lists: seq<ArgList>, values: seq<int>) returns (args: seq<int>)
    ensures args == ArgsRead(lists, values)
  {
    args := Zeros();
    var rest := values;
    for i := 0 to |lists|
      invariant |args| == ARGS
      invariant ReadLists(lists, Reading(Zeros(), values)) == ReadLists(lists[i..], Reading(args, rest))
    {
      var types := lists[i].Types();
      TypesInArray(lists[i]);
      var temp := 0;
      ghost var start := Reading(args, rest);
      for j := 0 to |types|
        invariant |args| == ARGS
        invariant ReadList(types, start, 0) == ReadList(types[j..], Reading(args, rest), temp)
      {
        temp, rest := Extracted(rest, temp), Behind(rest);
        if types[j] == A_P {
          continue;
        }
        args := args[types[j] := temp];
        if types[j] == A_S18 {
          args := args[A_S16 := temp / 4];
        } else if types[j] == A_S14 {
          args := args[A_S10 := temp / 16];
        }
      }
    }
  }

  // ----- the operands as given -----

  /** The slots of a list that take an operand: all but the parenthesis. */
  function Slots(types: seq<nat>): (slots: seq<nat>)
    ensures forall a :: a in slots <==> a in types && a != A_P
  {
    if types == [] then []
    else (if types[0] == A_P then [] else [types[0]]) + Slots(types[1..])
  }

  /** Slot `a` is written when a list is read. */
  predicate Touched(types: seq<nat>, a: nat) {
    (a in types && a != A_P) || (a == A_S16 && A_S18 in types) || (a == A_S10 && A_S14 in types)
  }

  /** Each slot of the list holds its operand, and the slots of shifted immediates hold these shifted. */
  ghost predicate Filled(types: seq<nat>, values: seq<int>, args: seq<int>) {
    var slots := Slots(types);
    |args| == ARGS && InArray(slots) && |values| == |slots|
    && (forall k :: 0 <= k < |slots| ==> args[slots[k]] == values[k])
    && (A_S18 in slots ==> args[A_S16] == args[A_S18] / 4)
    && (A_S14 in slots ==> args[A_S10] == args[A_S14] / 16)
  }

  /** The array holds the operands as they were given, and 0 in every other slot. */
  ghost predicate AsGiven(types: seq<nat>, values: seq<int>, args: seq<int>) {
    Filled(types, values, args)
    && (forall a: nat :: a < ARGS && !Touched(types, a) ==> args[a] == 0)
  }

  /** No two arrays hold the same operands as given. */
  lemma AsGivenOnce(types: seq<nat>, values: seq<int>, args: seq<int>, other: seq<int>)
    requires AsGiven(types, values, args) && AsGiven(types, values, other)
    ensures args == other
  {
    var slots := Slots(types);
    forall k | 0 <= k < |slots|
      ensures args[slots[k]] == other[slots[k]]
    {
    }
    forall a: nat | a < ARGS
      ensures args[a] == other[a]
    {
      if a in slots {
        var k :| 0 <= k < |slots| && slots[k] == a;
      }
    }
  }

  lemma {:induction false} UntouchedKept(types: seq<nat>, from: Reading, temp: int, a: nat)
    requires InArray(types) && from.Valid() && a < ARGS && !Touched(types, a)
    ensures ReadList(types, from, temp).args[a] == from.args[a]
  {
    if types != [] {
      var x := Extracted(from.rest, temp);
      var next := Reading(if types[0] == A_P then from.args else Store(from.args, types[0], x), Behind(from.rest));
      UntouchedKept(types[1..], next, x, a);
    }
  }

  ghost predicate Distinct(types: seq<nat>) { forall i, j :: 0 <= i < j < |types| ==> types[i] != types[j] }

  lemma ListsDistinct(list: ArgList)
    ensures Distinct(list.Types())
  {
  }

  /** No slot is written twice, and the parenthesis stands before the last slot. */
  ghost predicate Proper(types: seq<nat>) {
    InArray(types) && Distinct(types)
    && (forall j :: 0 <= j < |types| && types[j] == A_P ==> j + 2 == |types|)
    && !(A_S18 in types && A_S16 in types) && !(A_S14 in types && A_S10 in types)
  }

  lemma ListsProper(list: ArgList)
    ensures Proper(list.Types())
  {
    ListsDistinct(list);
    TypesInArray(list);
  }

  lemma SlotsOfTwo(types: seq<nat>)
    requires |types| == 2 && types[0] == A_P && types[1] != A_P
    ensures Slots(types) == [types[1]]
  {
    assert types[1..] == [types[1]] && Slots(types[1..]) == [types[1]];
  }

  /** The number read for a parenthesis is still there for the slot behind it when the stream is at its end. */
  lemma ParenthesisSkipped(types: seq<nat>, from: Reading, temp: int)
    requires Proper(types) && from.Valid() && |types| == 2 && types[0] == A_P && |from.rest| == 1
    ensures ReadList(types, from, temp) == Reading(Store(from.args, types[1], from.rest[0]), [])
  {
    assert types[1..] == [types[1]] && types[1..][1..] == [];
    assert ReadList(types, from, temp) == ReadList(types[1..], Reading(from.args, []), from.rest[0]);
  }

  lemma ProperBehind(types: seq<nat>)
    requires Proper(types) && types != []
    ensures Proper(types[1..]) && !Touched(types[1..], types[0])
    ensures types[0] == A_S18 ==> !Touched(types[1..], A_S16)
    ensures types[0] == A_S14 ==> !Touched(types[1..], A_S10)
  {
  }

  lemma FilledInFront(types: seq<nat>, values: seq<int>, args: seq<int>)
    requires types != [] && types[0] != A_P && types[0] < ARGS && values != []
    requires Filled(types[1..], values[1..], args) && args[types[0]] == values[0]
    requires types[0] == A_S18 ==> args[A_S16] == args[A_S18] / 4
    requires types[0] == A_S14 ==> args[A_S10] == args[A_S14] / 16
    ensures Filled(types, values, args)
  {
    assert Slots(types) == [types[0]] + Slots(types[1..]);
  }

  lemma {:induction false} ReadFills(types: seq<nat>, from: Reading, temp: int)
    requires Proper(types) && from.Valid() && |from.rest| == |Slots(types)|
    ensures Filled(types, from.rest, ReadList(types, from, temp).args) && ReadList(types, from, temp).rest == []
  {
    if types != [] && types[0] == A_P {
      SlotsOfTwo(types);
      ParenthesisSkipped(types, from, temp);
    } else if types != [] {
      var x, h := from.rest[0], types[0];
      var next := Reading(Store(from.args, h, x), from.rest[1..]);
      ProperBehind(types);
      ReadFills(types[1..], next, x);
      UntouchedKept(types[1..], next, x, h);
      if h == A_S18 {
        UntouchedKept(types[1..], next, x, A_S16);
      } else if h == A_S14 {
        UntouchedKept(types[1..], next, x, A_S10);
      }
      FilledInFront(types, from.rest, ReadList(types[1..], next, x).args);
    }
  }

  lemma SingleRead(list: ArgList, values: seq<int>)
    requires |values| == |Slots(list.Types())|
    ensures AsGiven(list.Types(), values, ReadList(list.Types(), Reading(Zeros(), values), 0).args)
    ensures ReadList(list.Types(), Reading(Zeros(), values), 0).rest == []
  {
    var types := list.Types();
    ListsProper(list);
    ReadFills(types, Reading(Zeros(), values), 0);
    forall a: nat | a < ARGS && !Touched(types, a)
      ensures ReadList(types, Reading(Zeros(), values), 0).args[a] == 0
    {
      UntouchedKept(types, Reading(Zeros(), values), 0, a);
    }
  }

  // ----- mnemonics with two lists -----

  /** No parenthesis and no shifted immediate. */
  predicate Plain(types: seq<nat>) { A_P !in types && A_S18 !in types && A_S14 !in types }

  /** From a stream at its end a list is filled with zeros. */
  lemma {:induction false} ReadNothing(types: seq<nat>, args: seq<int>, a: nat)
    requires InArray(types) && |args| == ARGS && Plain(types) && a < ARGS
    ensures ReadList(types, Reading(args, []), 0).args[a] == if a in types then 0 else args[a]
  {
    if types != [] {
      ReadNothing(types[1..], args[types[0] := 0], a);
    }
  }

  lemma {:induction false} ReadEverything(types: seq<nat>, from: Reading, temp: int)
    requires InArray(types) && from.Valid() && |from.rest| <= |types|
    ensures ReadList(types, from, temp).rest == []
  {
    if types != [] {
      var x := Extracted(from.rest, temp);
      var next := Reading(if types[0] == A_P then from.args else Store(from.args, types[0], x), Behind(from.rest));
      ReadEverything(types[1..], next, x);
    }
  }

  ghost predicate AllZero(values: seq<int>) { forall k :: 0 <= k < |values| ==> values[k] == 0 }

  lemma {:induction false} ReadZeros(types: seq<nat>, from: Reading)
    requires InArray(types) && from.Valid() && AllZero(from.args) && AllZero(from.rest)
    ensures AllZero(ReadList(types, from, 0).args)
  {
    if types != [] {
      var next := Reading(if types[0] == A_P then from.args else Store(from.args, types[0], 0), Behind(from.rest));
      ReadZeros(types[1..], next);
    }
  }

  lemma TwoLists(first: ArgList, second: ArgList, values: seq<int>)
    requires InArray(first.Types()) && InArray(second.Types())
    ensures ArgsRead([first, second], values)
         == ReadList(second.Types(), ReadList(first.Types(), Reading(Zeros(), values), 0), 0).args
  {
    var one := ReadList(first.Types(), Reading(Zeros(), values), 0);
    assert [first, second][1..] == [second] && [second][1..] == [];
    assert ReadLists([second], one) == ReadLists([], ReadList(second.Types(), one, 0));
  }

  lemma OneList(list: ArgList, values: seq<int>)
    requires InArray(list.Types())
    ensures ArgsRead([list], values) == ReadList(list.Types(), Reading(Zeros(), values), 0).args
  {
    var one := ReadList(list.Types(), Reading(Zeros(), values), 0);
    assert [list][1..] == [] && ReadLists([], one) == one;
  }

  lemma ReadOne(types: seq<nat>, args: seq<int>, rest: seq<int>, temp: int, x: int)
    requires InArray(types) && types != [] && types[0] != A_P && |args| == ARGS && x == Extracted(rest, temp)
    ensures ReadList(types, Reading(args, rest), temp)
         == ReadList(types[1..], Reading(Store(args, types[0], x), Behind(rest)), x)
  {
  }

  lemma ReadsOne(list: ArgList, a: nat, x: int)
    requires list.Types() == [a] && a < ARGS && a != A_P
    ensures ArgsRead([list], [x]) == Store(Zeros(), a, x)
  {
    OneList(list, [x]);
    ReadOne([a], Zeros(), [x], 0, x);
    assert [a][1..] == [];
  }

  lemma ReadsTwo(list: ArgList, a: nat, b: nat, x: int, y: int)
    requires list.Types() == [a, b] && a < ARGS && b < ARGS && A_P !in [a, b]
    ensures ArgsRead([list], [x, y]) == Store(Store(Zeros(), a, x), b, y)
  {
    OneList(list, [x, y]);
    ReadOne([a, b], Zeros(), [x, y], 0, x);
    assert [a, b][1..] == [b] && [x, y][1..] == [y];
    ReadOne([b], Store(Zeros(), a, x), [y], x, y);
    assert [b][1..] == [];
  }

  lemma ReadsThree(list: ArgList, a: nat, b: nat, c: nat, x: int, y: int, z: int)
    requires list.Types() == [a, b, c] && a < ARGS && b < ARGS && c < ARGS && A_P !in [a, b, c]
    ensures ArgsRead([list], [x, y, z]) == Store(Store(Store(Zeros(), a, x), b, y), c, z)
  {
    var values, one := [x, y, z], Store(Zeros(), a, x);
    OneList(list, values);
    ReadOne([a, b, c], Zeros(), values, 0, x);
    assert [a, b, c][1..] == [b, c] && values[1..] == [y, z];
    ReadOne([b, c], one, [y, z], x, y);
    assert [b, c][1..] == [c] && [y, z][1..] == [z];
    ReadOne([c], Store(one, b, y), [z], y, z);
    assert [c][1..] == [];
  }

  lemma ReadsFour(x: int, y: int, z: int, u: int)
    ensures ArgsRead([CABT], [x, y, z, u]) == Zeros()[A_C := x][A_A := y][A_B := z][A_T := u]
  {
    var values, one := [x, y, z, u], Zeros()[A_C := x];
    OneList(CABT, values);
    ReadOne([A_C, A_A, A_B, A_T], Zeros(), values, 0, x);
    assert [A_C, A_A, A_B, A_T][1..] == [A_A, A_B, A_T] && values[1..] == [y, z, u];
    ReadOne([A_A, A_B, A_T], one, [y, z, u], x, y);
    assert [A_A, A_B, A_T][1..] == [A_B, A_T] && [y, z, u][1..] == [z, u];
    ReadOne([A_B, A_T], one[A_A := y], [z, u], y, z);
    assert [A_B, A_T][1..] == [A_T] && [z, u][1..] == [u];
    ReadOne([A_T], one[A_A := y][A_B := z], [u], z, u);
    assert [A_T][1..] == [];
  }

  lemma ReadsPast(list: ArgList, b: nat, x: int, y: int, z: int)
    requires list.Types() == [A_T, b, A_P, A_A] && b < ARGS && b != A_P
    ensures ArgsRead([list], [x, y, z]) == Store(Zeros()[A_T := x], b, y)[A_A := z]
  {
    var types, values, two := [A_T, b, A_P, A_A], [x, y, z], Store(Zeros()[A_T := x], b, y);
    OneList(list, values);
    ReadOne(types, Zeros(), values, 0, x);
    assert types[1..] == [b, A_P, A_A] && values[1..] == [y, z];
    ReadOne([b, A_P, A_A], Zeros()[A_T := x], [y, z], x, y);
    assert [b, A_P, A_A][1..] == [A_P, A_A] && [y, z][1..] == [z];
    TypesInArray(list);
    assert InArray(types) && types[2] == A_P;
    assert ReadList([A_P, A_A], Reading(two, [z]), y) == ReadList([A_P, A_A][1..], Reading(two, [z][1..]), z);
    assert [A_P, A_A][1..] == [A_A] && [z][1..] == [];
    ReadOne([A_A], two, [], z, z);
    assert [A_A][1..] == [];
  }

  /** Which slot takes which number of the text, for the lists of registers: the whole array, all other slots 0. */
  lemma SlotsOfRegisters(x: int, y: int, z: int, u: int)
    ensures ArgsRead([NoArgs], []) == Zeros()
    ensures ArgsRead([T], [x]) == Zeros()[A_T := x]
    ensures ArgsRead([A], [x]) == Zeros()[A_A := x]
    ensures ArgsRead([TA], [x, y]) == Zeros()[A_T := x][A_A := y]
    ensures ArgsRead([AT], [x, y]) == Zeros()[A_A := x][A_T := y]
    ensures ArgsRead([AB], [x, y]) == Zeros()[A_A := x][A_B := y]
    ensures ArgsRead([TAB], [x, y, z]) == Zeros()[A_T := x][A_A := y][A_B := z]
    ensures ArgsRead([CABT], [x, y, z, u]) == Zeros()[A_C := x][A_A := y][A_B := z][A_T := u]
  {
    OneList(NoArgs, []);
    ReadsOne(T, A_T, x);
    ReadsOne(A, A_A, x);
    ReadsTwo(TA, A_T, A_A, x, y);
    ReadsTwo(AT, A_A, A_T, x, y);
    ReadsTwo(AB, A_A, A_B, x, y);
    ReadsThree(TAB, A_T, A_A, A_B, x, y, z);
    ReadsFour(x, y, z, u);
  }

  /** For the lists with an immediate as it is encoded. */
  lemma SlotsOfImmediates(x: int, y: int, z: int)
    ensures ArgsRead([TAS7], [x, y, z]) == Zeros()[A_T := x][A_A := y][A_S7 := z]
    ensures ArgsRead([TS7PA], [x, y, z]) == Zeros()[A_T := x][A_S7 := y][A_A := z]
    ensures ArgsRead([AS10], [x, y]) == Zeros()[A_A := x][A_S10 := y]
    ensures ArgsRead([TAS10], [x, y, z]) == Zeros()[A_T := x][A_A := y][A_S10 := z]
    ensures ArgsRead([TS16], [x, y]) == Zeros()[A_T := x][A_S16 := y]
    ensures ArgsRead([TU18], [x, y]) == Zeros()[A_T := x][A_U18 := y]
    ensures ArgsRead([U14], [x]) == Zeros()[A_U14 := x]
  {
    ReadsThree(TAS7, A_T, A_A, A_S7, x, y, z);
    ReadsPast(TS7PA, A_S7, x, y, z);
    ReadsTwo(AS10, A_A, A_S10, x, y);
    ReadsThree(TAS10, A_T, A_A, A_S10, x, y, z);
    ReadsTwo(TS16, A_T, A_S16, x, y);
    ReadsTwo(TU18, A_T, A_U18, x, y);
    ReadsOne(U14, A_U14, x);
  }

  /** For the lists with a displacement or an address in bytes, of which a shifted copy is stored, and for hints. */
  lemma SlotsOfAddresses(x: int, y: int, z: int)
    ensures ArgsRead([TS14PA], [x, y, z]) == Zeros()[A_T := x][A_S14 := y][A_S10 := y / 16][A_A := z]
    ensures ArgsRead([S18], [x]) == Zeros()[A_S18 := x][A_S16 := x / 4]
    ensures ArgsRead([TS18], [x, y]) == Zeros()[A_T := x][A_S18 := y][A_S16 := y / 4]
    ensures ArgsRead([S11A], [x, y]) == Zeros()[A_S11I := x][A_A := y]
    ensures ArgsRead([S11S18], [x, y]) == Zeros()[A_S11 := x][A_S18 := y][A_S16 := y / 4]
  {
    ReadsPast(TS14PA, A_S14, x, y, z);
    ReadsOne(S18, A_S18, x);
    ReadsTwo(TS18, A_T, A_S18, x, y);
    ReadsTwo(S11A, A_S11I, A_A, x, y);
    ReadsTwo(S11S18, A_S11, A_S18, x, y);
  }

  /** The operands of one list that another one reads again are 0. */
  ghost predicate ZeroWhereShared(types: seq<nat>, again: seq<nat>, values: seq<int>)
    requires |values| == |Slots(types)|
  {
    forall k :: 0 <= k < |values| && Slots(types)[k] in again ==> values[k] == 0
  }

  lemma {:induction false} SlotsPlain(types: seq<nat>)
    requires A_P !in types
    ensures Slots(types) == types
  {
    if types != [] {
      SlotsPlain(types[1..]);
    }
  }

  /** With the operands of the first of two lists, the second one reads zeros over the slots they share. */
  lemma FirstOfTwoIff(first: ArgList, second: ArgList, values: seq<int>)
    requires Plain(first.Types()) && Plain(second.Types()) && |values| == |Slots(first.Types())|
    ensures AsGiven(first.Types(), values, ArgsRead([first, second], values))
       <==> ZeroWhereShared(first.Types(), second.Types(), values)
  {
    ListsProper(first);
    ListsProper(second);
    TwoLists(first, second, values);
    SingleRead(first, values);
    var one := ReadList(first.Types(), Reading(Zeros(), values), 0).args;
    var two := ArgsRead([first, second], values);
    forall a: nat | a < ARGS
      ensures two[a] == if a in second.Types() then 0 else one[a]
    {
      ReadNothing(second.Types(), one, a);
    }
    SharedIff(first.Types(), second.Types(), values, one, two);
  }

  lemma SharedIff(types: seq<nat>, again: seq<nat>, values: seq<int>, one: seq<int>, two: seq<int>)
    requires Plain(types) && |values| == |Slots(types)| && AsGiven(types, values, one) && |two| == ARGS
    requires forall a: nat :: a < ARGS ==> two[a] == if a in again then 0 else one[a]
    ensures AsGiven(types, values, two) <==> ZeroWhereShared(types, again, values)
  {
    var slots := Slots(types);
    forall k | 0 <= k < |slots|
      ensures two[slots[k]] == if slots[k] in again then 0 else values[k]
    {
      assert one[slots[k]] == values[k];
    }
  }

  /** With the operands of the second alone, the first list takes them away, and the second one reads zeros. */
  lemma SecondOfTwoIff(first: ArgList, second: ArgList, values: seq<int>)
    requires Plain(second.Types()) && |values| == |Slots(second.Types())|
    requires first.Types() != [] && second.Types() == first.Types()[1..]
    ensures AsGiven(second.Types(), values, ArgsRead([first, second], values)) <==> AllZero(values)
  {
    TypesInArray(first);
    TypesInArray(second);
    TwoLists(first, second, values);
    TakenAway(first.Types(), second.Types(), values);
  }

  lemma TakenAway(first: seq<nat>, second: seq<nat>, values: seq<int>)
    requires InArray(first) && InArray(second) && Plain(second) && |values| == |Slots(second)|
    requires first != [] && second == first[1..]
    ensures AsGiven(second, values, ReadList(second, ReadList(first, Reading(Zeros(), values), 0), 0).args)
       <==> AllZero(values)
  {
    var one := ReadList(first, Reading(Zeros(), values), 0);
    SlotsPlain(second);
    ReadEverything(first, Reading(Zeros(), values), 0);
    forall a: nat | a < ARGS
      ensures ReadList(second, one, 0).args[a] == if a in second then 0 else one.args[a]
    {
      ReadNothing(second, one.args, a);
    }
    if AllZero(values) {
      ReadZeros(first, Reading(Zeros(), values));
    }
    ZeroedIff(second, values, ReadList(second, one, 0).args);
  }

  lemma ZeroedIff(types: seq<nat>, values: seq<int>, args: seq<int>)
    requires InArray(types) && Plain(types) && |values| == |types| && |args| == ARGS
    requires forall a: nat :: a in types ==> args[a] == 0
    requires AllZero(values) ==> AllZero(args)
    ensures AsGiven(types, values, args) <==> AllZero(values)
  {
    SlotsPlain(types);
  }

  // ----- the instruction list -----

  lemma TwoFormsPlain(first: ArgList, second: ArgList)
    requires TwoForms(first, second)
    ensures Plain(first.Types()) && Plain(second.Types())
    ensures first != NoArgs ==> first.Types() != [] && second.Types() == first.Types()[1..]
  {
  }

  /** The argument array read for the mnemonic of row `m`. */
  function ArgsFor(m: nat, values: seq<int>): (args: seq<int>)
    requires m < ROWS
    ensures |args| == ARGS
  {
    ArgsRead(ListsIn(Rows(), RowAt(m).opcode), values)
  }

  lemma FirstOfLists(first: ArgList, second: ArgList, two: bool, values: seq<int>)
    requires |values| == |Slots(first.Types())| && (two ==> TwoForms(first, second))
    ensures AsGiven(first.Types(), values, ArgsRead(if two then [first, second] else [first], values))
       <==> (two ==> ZeroWhereShared(first.Types(), second.Types(), values))
  {
    ListsProper(first);
    if two {
      TwoFormsPlain(first, second);
      FirstOfTwoIff(first, second, values);
    } else {
      OneList(first, values);
      SingleRead(first, values);
    }
  }

  /** The operands in the form of the first row of a mnemonic arrive as given if and only if this is its only
      form, or those that its second form has too are 0. */
  lemma FirstFormIff(m: nat, first: ArgList, values: seq<int>)
    requires Owner(m) && first == RowAt(m).args && |values| == |Slots(first.Types())|
    ensures AsGiven(first.Types(), values, ArgsFor(m, values))
       <==> (HasTwoForms(m) ==> ZeroWhereShared(first.Types(), RowAt(m + 1).args.Types(), values))
  {
    FormsOfMnemonic(m, first);
    FirstOfLists(first, if HasTwoForms(m) then RowAt(m + 1).args else NoArgs, HasTwoForms(m), values);
  }

  /** What is read for the operands of the first form: in the slots that the second form has too, 0. */
  lemma FirstFormArgs(m: nat, first: ArgList, values: seq<int>, args: seq<int>, a: nat)
    requires Owner(m) && first == RowAt(m).args && AsGiven(first.Types(), values, args) && a < ARGS
    ensures ArgsFor(m, values)[a] == if HasTwoForms(m) && a in RowAt(m + 1).args.Types() then 0 else args[a]
  {
    FormsOfMnemonic(m, first);
    ListsProper(first);
    SingleRead(first, values);
    var one := ReadList(first.Types(), Reading(Zeros(), values), 0);
    AsGivenOnce(first.Types(), values, args, one.args);
    if HasTwoForms(m) {
      var second := RowAt(m + 1).args;
      TwoFormsPlain(first, second);
      TypesInArray(second);
      TwoLists(first, second, values);
      ReadNothing(second.Types(), one.args, a);
    } else {
      OneList(first, values);
    }
  }

  lemma BothFormsArgs(m: nat, first: ArgList, second: ArgList, values: seq<int>, args: seq<int>)
    requires Owner(m) && HasTwoForms(m) && first == RowAt(m).args && second == RowAt(m + 1).args
    requires AsGiven(first.Types(), values, args)
    ensures forall a: nat :: a < ARGS ==> ArgsFor(m, values)[a] == if a in second.Types() then 0 else args[a]
  {
    forall a: nat | a < ARGS
      ensures ArgsFor(m, values)[a] == if a in second.Types() then 0 else args[a]
    {
      FirstFormArgs(m, first, values, args, a);
    }
  }

  lemma OneFormArgs(m: nat, first: ArgList, values: seq<int>, args: seq<int>)
    requires Owner(m) && !HasTwoForms(m) && first == RowAt(m).args && AsGiven(first.Types(), values, args)
    ensures ArgsFor(m, values) == args
  {
    forall a: nat | a < ARGS
      ensures ArgsFor(m, values)[a] == args[a]
    {
      FirstFormArgs(m, first, values, args, a);
    }
  }

  lemma ZeroSlots(types: seq<nat>, again: seq<nat>, values: seq<int>, args: seq<int>)
    requires AsGiven(types, values, args) && Plain(types) && InArray(again)
    ensures ZeroWhereShared(types, again, values) <==> forall a: nat :: a in again ==> args[a] == 0
  {
    var slots := Slots(types);
    forall k | 0 <= k < |values| && slots[k] in again
      ensures values[k] == args[slots[k]]
    {
    }
    if ZeroWhereShared(types, again, values) {
      forall a: nat | a in again
        ensures args[a] == 0
      {
        if a in slots {
          var k :| 0 <= k < |slots| && slots[k] == a;
        }
      }
    }
  }

  lemma SecondOfLists(first: ArgList, second: ArgList, values: seq<int>)
    requires |values| == |Slots(second.Types())| && TwoForms(first, second)
    ensures AsGiven(second.Types(), values, ArgsRead([first, second], values)) <==> first == NoArgs || AllZero(values)
  {
    TwoFormsPlain(first, second);
    if first == NoArgs {
      ListsProper(second);
      TwoLists(first, second, values);
      SingleRead(second, values);
    } else {
      SecondOfTwoIff(first, second, values);
    }
  }

  /** The operands in the form of its second row arrive as given if and only if they are all 0 or the first
      form has none. */
  lemma SecondFormIff(m: nat, first: ArgList, second: ArgList, values: seq<int>)
    requires Owner(m) && HasTwoForms(m) && first == RowAt(m).args && second == RowAt(m + 1).args
    requires |values| == |Slots(second.Types())|
    ensures AsGiven(second.Types(), values, ArgsFor(m, values)) <==> first == NoArgs || AllZero(values)
  {
    FormsOfMnemonic(m, first);
    SecondOfLists(first, second, values);
  }

  /** The row of "hgt". */
  const HGT: nat := 145

  lemma HaltRows()
    ensures RowAt(HGT) == Row(RR, 0x258, HGT, TAB) && RowAt(HGT + 1) == Row(RR, 0x258, HGT, AB)
    ensures Owner(HGT) && HasTwoForms(HGT)
  {
  }

  lemma SharedOfThree(types: seq<nat>, again: seq<nat>, values: seq<int>)
    requires |types| == |values| == 3 && Plain(types)
    requires types[0] !in again && types[1] in again && types[2] in again
    ensures Slots(types) == types && (ZeroWhereShared(types, again, values) <==> values[1] == values[2] == 0)
  {
    SlotsPlain(types);
  }

  lemma ThreeOperands(m: nat, x: int, y: int, z: int)
    requires Owner(m) && HasTwoForms(m) && RowAt(m).args == TAB && RowAt(m + 1).args == AB
    ensures AsGiven(TAB.Types(), [x, y, z], ArgsFor(m, [x, y, z])) <==> y == z == 0
  {
    SharedOfThree(TAB.Types(), AB.Types(), [x, y, z]);
    FirstFormIff(m, TAB, [x, y, z]);
  }

  lemma TwoOperands(m: nat, x: int, y: int)
    requires Owner(m) && HasTwoForms(m) && RowAt(m).args == TAB && RowAt(m + 1).args == AB
    ensures AsGiven(AB.Types(), [x, y], ArgsFor(m, [x, y])) <==> x == y == 0
  {
    SlotsPlain(AB.Types());
    SecondFormIff(m, TAB, AB, [x, y]);
    assert [x, y][0] == x && [x, y][1] == y;
  }

  /** "hgt 3, 4, 5" and "hgt 3, 4" lose operands. */
  lemma HaltLosesOperands()
    ensures RowAt(HGT) == Row(RR, 0x258, HGT, TAB) && RowAt(HGT + 1) == Row(RR, 0x258, HGT, AB)
    ensures !AsGiven(TAB.Types(), [3, 4, 5], ArgsFor(HGT, [3, 4, 5]))
    ensures !AsGiven(AB.Types(), [3, 4], ArgsFor(HGT, [3, 4]))
  {
    HaltRows();
    ThreeOperands(HGT, 3, 4, 5);
    TwoOperands(HGT, 3, 4);
  }

  lemma ReadTwo(args: seq<int>, x: int, y: int, z: int)
    requires |args| == ARGS
    ensures ReadList(AT.Types(), Reading(args, [x, y, z]), 0) == Reading(args[A_A := x][A_T := y], [z])
  {
    ReadOne([A_A, A_T], args, [x, y, z], 0, x);
    assert [A_A, A_T][1..] == [A_T] && [x, y, z][1..] == [y, z];
    ReadOne([A_T], args[A_A := x], [y, z], x, y);
    assert [A_T][1..] == [] && [y, z][1..] == [z];
  }

  lemma ReadThree(args: seq<int>, z: int)
    requires |args| == ARGS
    ensures ReadList(TAS7.Types(), Reading(args, [z]), 0).args == args[A_T := z][A_A := z][A_S7 := z]
  {
    ReadOne([A_T, A_A, A_S7], args, [z], 0, z);
    assert [A_T, A_A, A_S7][1..] == [A_A, A_S7] && [z][1..] == [];
    ReadOne([A_A, A_S7], args[A_T := z], [], z, z);
    assert [A_A, A_S7][1..] == [A_S7];
    ReadOne([A_S7], args[A_T := z][A_A := z], [], z, z);
    assert [A_S7][1..] == [];
  }

  /** "syscall" first fills the list of "mtspr": its operands arrive as given if and only if they are equal. */
  lemma SyscallIff(x: int, y: int, z: int)
    ensures AsGiven(TAS7.Types(), [x, y, z], ArgsFor(SYSCALL, [x, y, z])) <==> x == y == z
  {
    var values, args := [x, y, z], ArgsFor(SYSCALL, [x, y, z]);
    SyscallRow();
    ListsOfSyscall();
    TwoLists(AT, TAS7, values);
    ReadTwo(Zeros(), x, y, z);
    ReadThree(Zeros()[A_A := x][A_T := y], z);
    assert args == Zeros()[A_T := z][A_A := z][A_S7 := z];
    ThreeAsGiven(values, args);
  }

  lemma ThreeFilled(types: seq<nat>, values: seq<int>, args: seq<int>)
    requires |types| == |values| == 3 && |args| == ARGS && InArray(types) && Plain(types)
    ensures Filled(types, values, args)
       <==> args[types[0]] == values[0] && args[types[1]] == values[1] && args[types[2]] == values[2]
  {
    SlotsPlain(types);
  }

  lemma ThreeAsGiven(values: seq<int>, args: seq<int>)
    requires |values| == 3 && |args| == ARGS
    requires forall a: nat :: a < ARGS && a !in TAS7.Types() ==> args[a] == 0
    ensures AsGiven(TAS7.Types(), values, args)
       <==> args[A_T] == values[0] && args[A_A] == values[1] && args[A_S7] == values[2]
  {
    ThreeFilled(TAS7.Types(), values, args);
  }
}
