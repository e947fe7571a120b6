/** `src/spu_emu_parser.cpp`: the mnemonic index of a program, its function ranges and its conditional branches. */
module ProgramAnalysis {
  import opened Vectors
  import opened InstructionTable
  import opened Wrappers
  import SpuState

  /** What the instruction database tells about a word: the index of its mnemonic, and its immediate. */
  datatype Idb = Idb(mnemonic: word -> Option<nat>, imm: word -> int)

  /** A program of a 32-bit ELF file: fewer than 2^32 bytes of instructions. */
  datatype Program = Program(EntryPoint: nat, VirtualBaseAddress: nat, Binary: seq<word>) {
    predicate Valid() { |Binary| < 0x4000_0000 }

    function EntryOffset(): word { (EntryPoint - VirtualBaseAddress) % SpuState.TWO_64 / 4 % TWO_32 }
  }

  datatype FunctionRange = FunctionRange(begin: word, end: word)

  datatype Branch = Branch(AdvanceAmount: int, BranchBlockBegin: word, BranchBlockEnd: word)

  // the mnemonics looked up in the index
  const BRSL: Option<nat> := Some(1)
  const BRZ: Option<nat> := Some(18)
  const BRNZ: Option<nat> := Some(19)
  const BRHZ: Option<nat> := Some(20)
  const BRHNZ: Option<nat> := Some(21)

  // ----- the mnemonic index -----

  /** The positions of the words with mnemonic `m`, in order: a direct scan of the program. */
  function Positions(idb: Idb, code: seq<word>, m: Option<nat>): seq<nat> {
    if code == [] then []
    else
      var n := |code| - 1;
      Positions(idb, code[..n], m) + if idb.mnemonic(code[n]) == m then [n] else []
  }

  ghost predicate Ascending(s: seq<nat>) { forall i, j :: 0 <= i < j < |s| ==> s[i] < s[j] }

  lemma {:induction false} PositionsExact(idb: Idb, code: seq<word>, m: Option<nat>)
    ensures Ascending(Positions(idb, code, m))
    ensures forall p :: p in Positions(idb, code, m) <==> 0 <= p < |code| && idb.mnemonic(code[p]) == m
  {
    if code != [] {
      PositionsExact(idb, code[..|code| - 1], m);
      var front := Positions(idb, code[..|code| - 1], m);
      assert forall i :: 0 <= i < |front| ==> front[i] in front;
    }
  }

  type Heuristics = map<Option<nat>, seq<nat>>

  /** `heuristics[m]`, which is empty for a mnemonic that was never entered. */
  function Index(h: Heuristics, m: Option<nat>): seq<nat> {
    if m in h then h[m] else []
  }

  /** `h` extended by the positions of the mnemonics of `code`. */
  ghost predicate Indexed(before: Heuristics, idb: Idb, code: seq<word>, after: Heuristics) {
    forall m :: Index(after, m) == Index(before, m) + Positions(idb, code, m)
  }

  lemma IndexedOneMore(before: Heuristics, idb: Idb, code: seq<word>, h: Heuristics)
    requires code != [] && Indexed(before, idb, code[..|code| - 1], h)
    ensures var m := idb.mnemonic(code[|code| - 1]);
            Indexed(before, idb, code, h[m := Index(h, m) + [|code| - 1]])
  {
  }

  // ----- function ranges -----

  /** Where the call at position `i` goes: `IOffset + IMM` as a 32-bit number. */
  function Target(idb: Idb, code: seq<word>, i: nat): word
    requires i < |code|
  {
    (i + idb.imm(code[i])) % TWO_32
  }

  /** A call at one of the positions goes to `y`. */
  ghost predicate Called(idb: Idb, program: Program, positions: seq<nat>, y: word) {
    exists i :: i in positions && i < |program.Binary| && y == Target(idb, program.Binary, i)
  }

  /** The entry point and the targets of the calls at the positions, each once. */
  ghost predicate TargetsOf(idb: Idb, program: Program, positions: seq<nat>, targets: seq<word>) {
    Ascending(targets)
    && forall y :: y in targets <==> y == program.EntryOffset() || Called(idb, program, positions, y)
  }

  /** Insertion into a `std::set<uint32_t>`, kept as the ascending sequence of its elements. */
  function Insert(s: seq<word>, x: word): (t: seq<word>)
    requires Ascending(s)
    ensures Ascending(t) && forall y :: y in t <==> y in s || y == x
  {
    if s == [] then [x]
    else if x < s[0] then [x] + s
    else if x == s[0] then s
    else
      var rest := Insert(s[1..], x);
      assert s == [s[0]] + s[1..];
      assert forall i :: 0 <= i < |rest| ==> rest[i] in rest;
      [s[0]] + rest
  }

  /** The ranges that begin at `begins`, each ending where the next begins, the last at `size`. */
  function Linked(begins: seq<word>, size: word): seq<FunctionRange> {
    seq(|begins|, i requires 0 <= i < |begins| =>
      FunctionRange(begins[i], if i + 1 < |begins| then begins[i + 1] else size))
  }

  function Begins(ranges: seq<FunctionRange>): seq<word> {
    seq(|ranges|, i requires 0 <= i < |ranges| => ranges[i].begin)
  }

  predicate InRange(r: FunctionRange, p: nat) { r.begin <= p < r.end }

  /** The ranges are all non-empty exactly if every target lies in the program. */
  lemma RangesNonEmptyIff(targets: seq<word>, size: word)
    requires Ascending(targets) && targets != []
    ensures (forall r :: r in Linked(targets, size) ==> r.begin < r.end) <==> (forall t :: t in targets ==> t < size)
  {
    var ranges := Linked(targets, size);
    var n := |targets|;
    if forall r :: r in ranges ==> r.begin < r.end {
      assert ranges[n - 1] in ranges;
      assert forall i :: 0 <= i < n ==> targets[i] <= targets[n - 1];
    }
    if forall t :: t in targets ==> t < size {
      assert targets[n - 1] in targets;
      assert forall i :: 0 <= i < n ==> ranges[i].begin < ranges[i].end;
    }
  }

  ghost predicate InSome(ranges: seq<FunctionRange>, p: nat) {
    exists i :: 0 <= i < |ranges| && InRange(ranges[i], p)
  }

  ghost predicate InAtMostOne(ranges: seq<FunctionRange>, p: nat) {
    forall i, j :: 0 <= i < |ranges| && 0 <= j < |ranges| && InRange(ranges[i], p) && InRange(ranges[j], p) ==> i == j
  }

  /** Every position from the smallest target to the end of the program lies in exactly one range, and no other
      position in any. */
  lemma RangesPartition(targets: seq<word>, size: word, p: nat)
    requires Ascending(targets) && targets != [] && forall t :: t in targets ==> t < size
    ensures targets[0] <= p < size <==> InSome(Linked(targets, size), p)
    ensures InAtMostOne(Linked(targets, size), p)
  {
    var ranges := Linked(targets, size);
    var n := |targets|;
    assert targets[n - 1] in targets;
    forall i, j | 0 <= i < j < n
      ensures ranges[i].end <= ranges[j].begin
    {
      assert targets[i + 1] <= targets[j];
    }
    if targets[0] <= p < size {
      var i := LastNotAfter(targets, p);
      assert InRange(ranges[i], p);
    }
  }

  /** Every position in [begin, end) lies in exactly one range, and no other position in any. */
  ghost predicate Partition(ranges: seq<FunctionRange>, begin: nat, end: nat) {
    forall p: nat :: (begin <= p < end <==> InSome(ranges, p)) && InAtMostOne(ranges, p)
  }

  lemma LinkedPartition(targets: seq<word>, size: word)
    requires Ascending(targets) && targets != [] && forall t :: t in targets ==> t < size
    ensures Partition(Linked(targets, size), targets[0], size)
  {
    forall p: nat
      ensures (targets[0] <= p < size <==> InSome(Linked(targets, size), p)) && InAtMostOne(Linked(targets, size), p)
    {
      RangesPartition(targets, size, p);
    }
  }

  lemma LastNotAfter(targets: seq<word>, p: nat) returns (i: nat)
    requires targets != [] && targets[0] <= p
    ensures i < |targets| && targets[i] <= p && (i + 1 < |targets| ==> p < targets[i + 1])
  {
    i := 0;
    while i + 1 < |targets| && targets[i + 1] <= p
      invariant i < |targets| && targets[i] <= p
    {
      i := i + 1;
    }
  }

  // ----- conditional branches -----

  /** Conversion to `int32_t`. */
  function ToInt32(x: int): int {
    if x % TWO_32 >= 0x8000_0000 then x % TWO_32 - TWO_32 else x % TWO_32
  }

  /** The branch at position `i`, with the block of instructions it jumps over, forward or back. */
  function BranchAt(idb: Idb, code: seq<word>, i: nat): Branch
    requires i < |code|
  {
    var imm := idb.imm(code[i]);
    var begin := if imm > 0 then i % TWO_32 else (i + ToInt32(imm)) % TWO_32;
    var end := if imm > 0 then (i + ToInt32(imm)) % TWO_32 else (i + 1) % TWO_32;
    Branch(ToInt32(imm), begin, end)
  }

  function BranchesAt(idb: Idb, code: seq<word>, positions: seq<nat>): seq<Branch>
    requires forall i :: i in positions ==> i < |code|
  {
    seq(|positions|, n requires 0 <= n < |positions| =>
      assert positions[n] in positions; BranchAt(idb, code, positions[n]))
  }

  ghost predicate Sorted(s: seq<Branch>) {
    forall i, j :: 0 <= i < j < |s| ==> s[i].BranchBlockBegin <= s[j].BranchBlockBegin
  }

  /** Insertion before the first element that does not begin earlier. */
  function InsertBranch(b: Branch, s: seq<Branch>): (t: seq<Branch>)
    requires Sorted(s)
    ensures Sorted(t) && multiset(t) == multiset(s) + multiset{b}
    ensures forall x :: x in t ==> x in s || x == b
  {
    if s == [] || b.BranchBlockBegin <= s[0].BranchBlockBegin then [b] + s
    else
      var rest := InsertBranch(b, s[1..]);
      Prepended(b, s, rest);
      [s[0]] + rest
  }

  lemma Prepended(b: Branch, s: seq<Branch>, rest: seq<Branch>)
    requires s != [] && Sorted(s) && Sorted(rest) && s[0].BranchBlockBegin < b.BranchBlockBegin
    requires multiset(rest) == multiset(s[1..]) + multiset{b} && forall x :: x in rest ==> x in s[1..] || x == b
    ensures Sorted([s[0]] + rest) && multiset([s[0]] + rest) == multiset(s) + multiset{b}
    ensures forall x :: x in [s[0]] + rest ==> x in s || x == b
  {
    assert s == [s[0]] + s[1..];
    forall i | 0 <= i < |rest|
      ensures s[0].BranchBlockBegin <= rest[i].BranchBlockBegin
    {
      assert rest[i] in rest;
    }
  }

  /** `std::sort` by the beginning of the block. */
  function SortBranches(s: seq<Branch>): (t: seq<Branch>)
    ensures Sorted(t) && multiset(t) == multiset(s)
  {
    if s == [] then []
    else
      assert s == [s[0]] + s[1..];
      InsertBranch(s[0], SortBranches(s[1..]))
  }

  lemma SortKeepsLength(s: seq<Branch>)
    ensures |SortBranches(s)| == |s|
  {
    assert |multiset(SortBranches(s))| == |SortBranches(s)| && |multiset(s)| == |s|;
  }

  predicate Overlaps(a: Branch, b: Branch) {
    a.BranchBlockBegin <= b.BranchBlockBegin && b.BranchBlockBegin < a.BranchBlockEnd
  }

  /** Branch `i` jumps forward over a block that no later block begins in. */
  ghost predicate Kept(s: seq<Branch>, i: nat)
    requires i < |s|
  {
    s[i].AdvanceAmount > 0 && forall j :: i < j < |s| ==> !Overlaps(s[i], s[j])
  }

  /** The branches among the first `n` that are kept. */
  ghost function KeptAmong(s: seq<Branch>, n: nat): seq<Branch>
    requires n <= |s|
  {
    if n == 0 then []
    else KeptAmong(s, n - 1) + if Kept(s, n - 1) then [s[n - 1]] else []
  }

  /** Comparing neighbours is enough: a block that overlaps a later one overlaps its successor. */
  lemma KeptByNeighbour(s: seq<Branch>, i: nat)
    requires Sorted(s) && i < |s|
    ensures Kept(s, i) <==> s[i].AdvanceAmount > 0 && (i + 1 < |s| ==> !Overlaps(s[i], s[i + 1]))
  {
    if i + 1 < |s| && !Overlaps(s[i], s[i + 1]) {
      forall j | i < j < |s|
        ensures !Overlaps(s[i], s[j])
      {
        assert s[i].BranchBlockBegin <= s[i + 1].BranchBlockBegin <= s[j].BranchBlockBegin;
      }
    }
  }

  /** A kept block ends before any later block begins. */
  lemma KeptEndsFirst(s: seq<Branch>, i: nat, j: nat)
    requires Sorted(s) && i < j < |s| && Kept(s, i)
    ensures s[i].BranchBlockEnd <= s[j].BranchBlockBegin
  {
    assert !Overlaps(s[i], s[j]);
  }

  /** Every kept branch comes from a position, and the positions are in order. */
  lemma {:induction false} KeptFrom(s: seq<Branch>, n: nat, k: nat) returns (i: nat)
    requires n <= |s| && k < |KeptAmong(s, n)|
    ensures i < n && Kept(s, i) && KeptAmong(s, n)[k] == s[i] && k == |KeptAmong(s, i)|
  {
    if k < |KeptAmong(s, n - 1)| {
      i := KeptFrom(s, n - 1, k);
    } else {
      i := n - 1;
    }
  }

  lemma {:induction false} KeptCountGrows(s: seq<Branch>, m: nat, n: nat)
    requires m <= n <= |s|
    ensures |KeptAmong(s, m)| <= |KeptAmong(s, n)|
  {
    if m < n {
      KeptCountGrows(s, m, n - 1);
    }
  }

  /** The blocks of the collected branches are pairwise disjoint, in ascending order. */
  lemma KeptDisjoint(s: seq<Branch>, a: nat, b: nat)
    requires Sorted(s) && a < b < |KeptAmong(s, |s|)|
    ensures KeptAmong(s, |s|)[a].BranchBlockEnd <= KeptAmong(s, |s|)[b].BranchBlockBegin
  {
    var i := KeptFrom(s, |s|, a);
    var j := KeptFrom(s, |s|, b);
    if j <= i {
      KeptCountGrows(s, j, i);
    }
    KeptEndsFirst(s, i, j);
  }

  /** The blocks of the branches stand in order without overlap. */
  ghost predicate Disjoint(branches: seq<Branch>) {
    forall a, b :: 0 <= a < b < |branches| ==> branches[a].BranchBlockEnd <= branches[b].BranchBlockBegin
  }

  lemma AllKeptDisjoint(s: seq<Branch>)
    requires Sorted(s)
    ensures Disjoint(KeptAmong(s, |s|))
  {
    forall a, b | 0 <= a < b < |KeptAmong(s, |s|)| {
      KeptDisjoint(s, a, b);
    }
  }

  /** The positions of the four conditional branches lie in the program. */
  predicate BranchesIndexed(h: Heuristics, code: seq<word>) {
    forall m, i :: m in {BRZ, BRNZ, BRHZ, BRHNZ} && i in Index(h, m) ==> i < |code|
  }

  /** The conditional branches, mnemonic by mnemonic. */
  function IndexedBranches(idb: Idb, code: seq<word>, h: Heuristics): seq<Branch>
    requires BranchesIndexed(h, code)
  {
    BranchesAt(idb, code, Index(h, BRZ)) + BranchesAt(idb, code, Index(h, BRNZ))
    + BranchesAt(idb, code, Index(h, BRHZ)) + BranchesAt(idb, code, Index(h, BRHNZ))
  }

  lemma Regroup(before: seq<Branch>, a: seq<Branch>, b: seq<Branch>, c: seq<Branch>, d: seq<Branch>)
    ensures before + a + b + c + d == before + (a + b + c + d)
  {
  }

  class SpuInfo {
    var heuristics: Heuristics
    var staticBranches: seq<Branch>
    var FunctionRanges: seq<FunctionRange>

    constructor ()
      ensures heuristics == map[] && staticBranches == [] && FunctionRanges == []
    {
      heuristics, staticBranches, FunctionRanges := map[], [], [];
    }

    /** spuGatherProgramHeuristics. */
    method GatherProgramHeuristics(idb: Idb, program: Program)
      requires program.Valid()
      modifies this`heuristics
      ensures Indexed(old(heuristics), idb, program.Binary, heuristics)
    {
      var code := program.Binary;
      for i := 0 to |code|
        invariant Indexed(old(heuristics), idb, code[..i], heuristics)
      {
        assert code[..i + 1][..i] == code[..i];
        IndexedOneMore(old(heuristics), idb, code[..i + 1], heuristics);
        var m := idb.mnemonic(code[i]);
        heuristics := heuristics[m := Index(heuristics, m) + [i]];
      }
      assert code[..|code|] == code;
    }

    /** The reading access `heuristics[m]`, which enters an empty list for a new mnemonic. */
    method Lookup(m: Option<nat>) returns (positions: seq<nat>)
      modifies this`heuristics
      ensures positions == Index(old(heuristics), m)
      ensures forall k :: Index(heuristics, k) == Index(old(heuristics), k)
    {
      if m !in heuristics {
        heuristics := heuristics[m := []];
      }
      positions := heuristics[m];
    }

    /** The function-range part of spuGatherStaticCallTargets. */
    method GatherStaticCallTargets(idb: Idb, program: Program) returns (targets: seq<word>)
      requires program.Valid() && forall i :: i in Index(heuristics, BRSL) ==> i < |program.Binary|
      modifies this`heuristics, this`FunctionRanges
      ensures forall k :: Index(heuristics, k) == Index(old(heuristics), k)
      ensures TargetsOf(idb, program, Index(old(heuristics), BRSL), targets)
      ensures FunctionRanges == Linked(Begins(old(FunctionRanges)) + targets, |program.Binary|)
    {
      var staticCalls := Lookup(BRSL);
      targets := CallTargets(idb, program, staticCalls);
      var ranges := FunctionRanges + seq(|targets|, i requires 0 <= i < |targets| => FunctionRange(targets[i], 0));
      assert Begins(ranges) == Begins(FunctionRanges) + targets;
      FunctionRanges := LinkRanges(ranges, |program.Binary|);
    }

    /** spuGatherStaticBranches, for one mnemonic. */
    method GatherBranches(idb: Idb, code: seq<word>, m: Option<nat>)
      requires forall i :: i in Index(heuristics, m) ==> i < |code|
      modifies this`heuristics, this`staticBranches
      ensures forall k :: Index(heuristics, k) == Index(old(heuristics), k)
      ensures staticBranches == old(staticBranches) + BranchesAt(idb, code, Index(old(heuristics), m))
    {
      var branches := Lookup(m);
      staticBranches := staticBranches + BranchesAt(idb, code, branches);
    }

    /** The four calls of the helper. */
    method GatherAll(idb: Idb, code: seq<word>)
      requires BranchesIndexed(heuristics, code)
      modifies this`heuristics, this`staticBranches
      ensures forall k :: Index(heuristics, k) == Index(old(heuristics), k)
      ensures staticBranches == old(staticBranches) + IndexedBranches(idb, code, old(heuristics))
    {
      ghost var before, h := staticBranches, heuristics;
      GatherBranches(idb, code, BRZ);
      GatherBranches(idb, code, BRNZ);
      GatherBranches(idb, code, BRHZ);
      GatherBranches(idb, code, BRHNZ);
      Regroup(before, BranchesAt(idb, code, Index(h, BRZ)), BranchesAt(idb, code, Index(h, BRNZ)),
              BranchesAt(idb, code, Index(h, BRHZ)), BranchesAt(idb, code, Index(h, BRHNZ)));
    }

    method SortAndCollect() returns (brIf: seq<Branch>)
      requires |staticBranches| >= 2
      modifies this`staticBranches
      ensures Sorted(staticBranches) && multiset(staticBranches) == multiset(old(staticBranches))
      ensures brIf == KeptAmong(staticBranches, |staticBranches|)
    {
      SortKeepsLength(staticBranches);
      staticBranches := SortBranches(staticBranches);
      brIf := CollectForward(staticBranches);
    }

    /** spuGatherStaticBranches. It reads past the end of the vector unless there are two branches. */
    method GatherStaticBranches(idb: Idb, program: Program) returns (brIf: seq<Branch>)
      requires program.Valid() && BranchesIndexed(heuristics, program.Binary)
      requires |staticBranches| + |IndexedBranches(idb, program.Binary, heuristics)| >= 2
      modifies this`heuristics, this`staticBranches
      ensures forall k :: Index(heuristics, k) == Index(old(heuristics), k)
      ensures Sorted(staticBranches)
      ensures multiset(staticBranches)
           == multiset(old(staticBranches) + IndexedBranches(idb, program.Binary, old(heuristics)))
      ensures brIf == KeptAmong(staticBranches, |staticBranches|)
    {
      GatherAll(idb, program.Binary);
      brIf := SortAndCollect();
    }
  }

  /** The loop over neighbours of spuGatherStaticBranches. */
  method CollectForward(s: seq<Branch>) returns (brIf: seq<Branch>)
    requires Sorted(s) && |s| >= 2
    ensures brIf == KeptAmong(s, |s|)
  {
    brIf := [];
    var first1, first2, last := 0, 1, |s| - 1;
    while true
      invariant first2 == first1 + 1 && first1 < last && brIf == KeptAmong(s, first1)
      decreases last - first1
    {
      KeptByNeighbour(s, first1);
      if s[first1].AdvanceAmount > 0 && !Overlaps(s[first1], s[first2]) {
        brIf := brIf + [s[first1]];
      }
      first1, first2 := first1 + 1, first2 + 1;
      if first1 == last {
        break;
      }
    }
    KeptByNeighbour(s, last);
    if s[last].AdvanceAmount > 0 {
      brIf := brIf + [s[first1]];
    }
  }

  /** The index, the function ranges and the branches of a program, starting from nothing. */
  method Analyze(idb: Idb, program: Program) returns (info: SpuInfo, targets: seq<word>)
    requires program.Valid()
    ensures fresh(info)
    ensures info.FunctionRanges == Linked(targets, |program.Binary|) && info.staticBranches == []
    ensures forall m :: Index(info.heuristics, m) == Positions(idb, program.Binary, m)
    ensures TargetsOf(idb, program, Positions(idb, program.Binary, BRSL), targets)
  {
    info := new SpuInfo();
    info.GatherProgramHeuristics(idb, program);
    assert forall m :: Index(info.heuristics, m) == Positions(idb, program.Binary, m);
    PositionsExact(idb, program.Binary, BRSL);
    targets := info.GatherStaticCallTargets(idb, program);
    assert Begins([]) + targets == targets;
  }

  /** The entry point as a word of the program: its distance in bytes from the base, by four. */
  lemma EntryPosition(program: Program)
    requires program.VirtualBaseAddress <= program.EntryPoint < program.VirtualBaseAddress + 0x4_0000_0000
    ensures program.EntryOffset() == (program.EntryPoint - program.VirtualBaseAddress) / 4
  {
  }

  method CallTargets(idb: Idb, program: Program, staticCalls: seq<nat>) returns (targets: seq<word>)
    requires forall i :: i in staticCalls ==> i < |program.Binary|
    ensures TargetsOf(idb, program, staticCalls, targets)
    ensures program.VirtualBaseAddress <= program.EntryPoint < program.VirtualBaseAddress + 0x4_0000_0000 ==>
              (program.EntryPoint - program.VirtualBaseAddress) / 4 in targets
  {
    targets := Insert([], program.EntryOffset());
    for n := 0 to |staticCalls|
      invariant TargetsOf(idb, program, staticCalls[..n], targets)
    {
      assert staticCalls[n] in staticCalls;
      assert staticCalls[..n + 1] == staticCalls[..n] + [staticCalls[n]];
      targets := Insert(targets, Target(idb, program.Binary, staticCalls[n]));
    }
    assert staticCalls[..|staticCalls|] == staticCalls;
    if program.VirtualBaseAddress <= program.EntryPoint < program.VirtualBaseAddress + 0x4_0000_0000 {
      EntryPosition(program);
    }
  }

  method LinkRanges(unlinked: seq<FunctionRange>, size: word) returns (ranges: seq<FunctionRange>)
    ensures ranges == Linked(Begins(unlinked), size)
  {
    ranges := unlinked;
    if ranges != [] {
      for i := 0 to |ranges| - 1
        invariant |ranges| == |unlinked|
        invariant forall j :: 0 <= j < |ranges| ==> ranges[j].begin == unlinked[j].begin
        invariant forall j :: 0 <= j < i ==> ranges[j].end == unlinked[j + 1].begin
      {
        ranges := ranges[i := FunctionRange(ranges[i].begin, ranges[i + 1].begin)];
      }
      ranges := ranges[|ranges| - 1 := FunctionRange(ranges[|ranges| - 1].begin, size)];
    }
  }
}
