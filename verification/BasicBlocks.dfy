/** `src/spu_emu_parser.cpp`: the search for basic blocks, each of which ends in a branch. */
module BasicBlocks {
  import opened Vectors

  /** Instructions [first, last) of the program. */
  datatype Block = Block(first: nat, last: nat)

  /** FindBasicBlock: from `begin` to the first branch, or an empty block if there is none before `end`. */
  method FindBasicBlock(begin: nat, end: nat, code: seq<word>, isBranch: word -> bool) returns (b: Block)
    requires begin <= end <= |code|
    ensures b.first != b.last ==> EndsInBranch(code, isBranch, begin, end, b)
    ensures b.first == b.last ==> b == Block(0, 0) && NoBranch(code, isBranch, begin, end)
  {
    var i := begin;
    while i != end && !isBranch(code[i])
      invariant begin <= i <= end && NoBranch(code, isBranch, begin, i)
    {
      i := i + 1;
    }
    if i != end {
      b := Block(begin, i + 1);
    } else {
      b := Block(0, 0);
    }
  }

  ghost predicate NoBranch(code: seq<word>, isBranch: word -> bool, begin: nat, end: nat)
    requires end <= |code|
  {
    forall i :: begin <= i < end ==> !isBranch(code[i])
  }

  /** A non-empty block from `begin` on whose last instruction, and no other, is a branch. */
  ghost predicate EndsInBranch(code: seq<word>, isBranch: word -> bool, begin: nat, end: nat, b: Block)
    requires end <= |code|
  {
    b.first == begin < b.last <= end && isBranch(code[b.last - 1]) && NoBranch(code, isBranch, begin, b.last - 1)
  }

  /** Where block `k` begins: at the end of the one before it. */
  function Start(begin: nat, blocks: seq<Block>, k: nat): nat
    requires k <= |blocks|
  {
    if k == 0 then begin else blocks[k - 1].last
  }

  /** Block `k` begins at the end of the one before it and ends in its only branch; no block but the
      last ends in a zero word. */
  ghost predicate TileAt(code: seq<word>, isBranch: word -> bool, begin: nat, end: nat, blocks: seq<Block>, k: nat)
    requires end <= |code| && k < |blocks|
  {
    EndsInBranch(code, isBranch, Start(begin, blocks, k), end, blocks[k])
    && (k < |blocks| - 1 ==> code[blocks[k].last - 1] != 0)
  }

  ghost predicate Tiles(code: seq<word>, isBranch: word -> bool, begin: nat, end: nat, blocks: seq<Block>)
    requires end <= |code|
  {
    forall k: nat :: k < |blocks| ==> TileAt(code, isBranch, begin, end, blocks, k)
  }

  /** The last block ends in a zero word. */
  ghost predicate Stopped(code: seq<word>, blocks: seq<Block>) {
    |blocks| > 0 && 0 < blocks[|blocks| - 1].last <= |code| && code[blocks[|blocks| - 1].last - 1] == 0
  }

  /** Nothing is left to find: the last block ends in a zero word, or no branch follows it. */
  ghost predicate Complete(code: seq<word>, isBranch: word -> bool, begin: nat, end: nat, blocks: seq<Block>)
    requires end <= |code|
  {
    Stopped(code, blocks) || NoBranch(code, isBranch, Start(begin, blocks, |blocks|), end)
  }

  /** FindBasicBlockInRange, on an empty list of blocks. */
  method FindBasicBlockInRange(begin: nat, end: nat, code: seq<word>, isBranch: word -> bool)
    returns (blocks: seq<Block>)
    requires begin <= end <= |code|
    ensures Tiles(code, isBranch, begin, end, blocks) && Complete(code, isBranch, begin, end, blocks)
  {
    blocks := [];
    var i := begin;
    while i != end
      invariant begin <= i <= end && i == Start(begin, blocks, |blocks|)
      invariant Tiles(code, isBranch, begin, end, blocks)
      invariant !Stopped(code, blocks)
      decreases end - i
    {
      var b := FindBasicBlock(i, end, code, isBranch);
      if b.first == b.last {
        break;
      }
      TilesOneMore(code, isBranch, begin, end, blocks, b);
      blocks := blocks + [b];
      if code[b.last - 1] == 0 {
        break;
      }
      i := b.last;
    }
  }

  lemma TilesOneMore(code: seq<word>, isBranch: word -> bool, begin: nat, end: nat, blocks: seq<Block>, b: Block)
    requires end <= |code| && Tiles(code, isBranch, begin, end, blocks) && !Stopped(code, blocks)
    requires EndsInBranch(code, isBranch, Start(begin, blocks, |blocks|), end, b)
    ensures Tiles(code, isBranch, begin, end, blocks + [b])
  {
    forall k: nat | k < |blocks| + 1
      ensures TileAt(code, isBranch, begin, end, blocks + [b], k)
    {
      if k < |blocks| {
        assert TileAt(code, isBranch, begin, end, blocks, k);
      }
    }
  }

  /** The blocks follow one another from `begin` on; instruction `q` before the start of block `n` lies in one
      of those before. */
  lemma BlockOf(code: seq<word>, isBranch: word -> bool, begin: nat, end: nat, blocks: seq<Block>, n: nat, q: nat)
    returns (k: nat)
    requires end <= |code| && Tiles(code, isBranch, begin, end, blocks) && n <= |blocks|
    requires begin <= q < Start(begin, blocks, n)
    ensures k < n && blocks[k].first <= q < blocks[k].last
  {
    assert TileAt(code, isBranch, begin, end, blocks, n - 1);
    if q < Start(begin, blocks, n - 1) {
      k := BlockOf(code, isBranch, begin, end, blocks, n - 1, q);
    } else {
      k := n - 1;
    }
  }

  /** The blocks stand in order, without a gap or an overlap. */
  lemma {:induction false} StartsGrow(code: seq<word>, isBranch: word -> bool, begin: nat, end: nat,
                                      blocks: seq<Block>, m: nat, n: nat)
    requires begin <= end <= |code| && Tiles(code, isBranch, begin, end, blocks) && m <= n <= |blocks|
    ensures begin <= Start(begin, blocks, n) <= end
    ensures m < n ==> blocks[m].last <= Start(begin, blocks, n) && Start(begin, blocks, m) < Start(begin, blocks, n)
  {
    if n > 0 {
      StartsGrow(code, isBranch, begin, end, blocks, if m < n then m else n - 1, n - 1);
      assert TileAt(code, isBranch, begin, end, blocks, n - 1);
    }
  }

  /** A block ends behind instruction `p`. */
  ghost predicate EndsBehind(blocks: seq<Block>, p: nat) {
    exists k :: 0 <= k < |blocks| && blocks[k].last == p + 1
  }

  ghost predicate NoZero(code: seq<word>, begin: nat, end: nat)
    requires end <= |code|
  {
    forall q :: begin <= q < end ==> code[q] != 0
  }

  /** The blocks end exactly behind the branches up to the first zero word. */
  ghost predicate EndAtBranches(code: seq<word>, isBranch: word -> bool, begin: nat, end: nat, blocks: seq<Block>)
    requires end <= |code|
  {
    forall p: nat :: begin <= p < end ==> (EndsBehind(blocks, p) <==> isBranch(code[p]) && NoZero(code, begin, p))
  }

  /** They do if the zero word is itself a branch. */
  lemma BlocksEndAtBranches(code: seq<word>, isBranch: word -> bool, begin: nat, end: nat, blocks: seq<Block>)
    requires begin <= end <= |code| && isBranch(0)
    requires Tiles(code, isBranch, begin, end, blocks) && Complete(code, isBranch, begin, end, blocks)
    ensures EndAtBranches(code, isBranch, begin, end, blocks)
  {
    forall p: nat | begin <= p < end
      ensures EndsBehind(blocks, p) <==> isBranch(code[p]) && NoZero(code, begin, p)
    {
      EndsBehindIff(code, isBranch, begin, end, blocks, p);
    }
  }

  lemma EndsBehindIff(code: seq<word>, isBranch: word -> bool, begin: nat, end: nat, blocks: seq<Block>, p: nat)
    requires begin <= p < end <= |code| && isBranch(0)
    requires Tiles(code, isBranch, begin, end, blocks) && Complete(code, isBranch, begin, end, blocks)
    ensures EndsBehind(blocks, p) <==> isBranch(code[p]) && NoZero(code, begin, p)
  {
    if k: nat :| k < |blocks| && blocks[k].last == p + 1 {
      NoZeroBefore(code, isBranch, begin, end, blocks, k);
      assert TileAt(code, isBranch, begin, end, blocks, k);
    }
    if isBranch(code[p]) && NoZero(code, begin, p) {
      BranchEndsBlock(code, isBranch, begin, end, blocks, p);
    }
  }

  lemma BranchEndsBlock(code: seq<word>, isBranch: word -> bool, begin: nat, end: nat, blocks: seq<Block>, p: nat)
    requires begin <= p < end <= |code| && isBranch(code[p]) && forall q :: begin <= q < p ==> code[q] != 0
    requires Tiles(code, isBranch, begin, end, blocks) && Complete(code, isBranch, begin, end, blocks)
    ensures exists k :: 0 <= k < |blocks| && blocks[k].last == p + 1
  {
    var n := |blocks|;
    StartsGrow(code, isBranch, begin, end, blocks, n, n);
    if p < Start(begin, blocks, n) {
      var k := BlockOf(code, isBranch, begin, end, blocks, n, p);
      assert TileAt(code, isBranch, begin, end, blocks, k);
      assert blocks[k].last == p + 1;
    } else if n > 0 {
      assert TileAt(code, isBranch, begin, end, blocks, n - 1);
      StartsGrow(code, isBranch, begin, end, blocks, n - 1, n - 1);
    }
  }

  lemma NoZeroBefore(code: seq<word>, isBranch: word -> bool, begin: nat, end: nat, blocks: seq<Block>, k: nat)
    requires end <= |code| && isBranch(0) && Tiles(code, isBranch, begin, end, blocks) && k < |blocks|
    ensures blocks[k].last <= end && forall q :: begin <= q < blocks[k].last - 1 ==> code[q] != 0
  {
    assert TileAt(code, isBranch, begin, end, blocks, k);
    forall q | begin <= q < blocks[k].last - 1
      ensures code[q] != 0
    {
      if q < blocks[k].first {
        var j := BlockOf(code, isBranch, begin, end, blocks, k, q);
        assert TileAt(code, isBranch, begin, end, blocks, j);
      }
    }
  }

  /** Two tests that agree on every word give the same blocks. */
  lemma SameTest(code: seq<word>, isBranch: word -> bool, same: word -> bool, begin: nat, end: nat,
                 blocks: seq<Block>)
    requires begin <= end <= |code| && forall w: word :: isBranch(w) <==> same(w)
    requires Tiles(code, isBranch, begin, end, blocks) && EndAtBranches(code, isBranch, begin, end, blocks)
    ensures Tiles(code, same, begin, end, blocks) && EndAtBranches(code, same, begin, end, blocks)
  {
    forall k: nat | k < |blocks|
      ensures TileAt(code, same, begin, end, blocks, k)
    {
      assert TileAt(code, isBranch, begin, end, blocks, k);
    }
  }
}
