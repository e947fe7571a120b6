/** `src/spu_pseudo.cpp`: the replacement of all occurrences of one text by another. */
module PseudoText {
  import opened Wrappers

  /** `what` stands in `s` at `i`. */
  predicate OccursAt(s: string, what: string, i: nat) {
    i + |what| <= |s| && s[i..i + |what|] == what
  }

  ghost predicate Occurs(s: string, what: string) { exists i :: OccursAt(s, what, i) }

  /** The first occurrence at or behind `from`. */
  function Find(s: string, what: string, from: nat): (i: Option<nat>)
    ensures i.Some? ==> from <= i.value && i.value + |what| <= |s|
    decreases |s| - from
  {
    if from + |what| > |s| then None
    else if OccursAt(s, what, from) then Some(from)
    else Find(s, what, from + 1)
  }

  lemma {:induction false} FindFirst(s: string, what: string, from: nat)
    ensures var r := Find(s, what, from);
            if r.Some? then OccursAt(s, what, r.value) && forall j :: from <= j < r.value ==> !OccursAt(s, what, j)
            else forall j :: from <= j ==> !OccursAt(s, what, j)
    decreases |s| - from
  {
    if from + |what| <= |s| && !OccursAt(s, what, from) {
      FindFirst(s, what, from + 1);
    }
  }

  /** `s` from `from` on, with the occurrences of `what`, leftmost first and without overlap, replaced. */
  function Replaced(s: string, what: string, with: string, from: nat): string
    requires what != "" && from <= |s|
    decreases |s| - from
  {
    match Find(s, what, from)
    case None => s[from..|s|]
    case Some(i) => s[from..i] + with + Replaced(s, what, with, i + |what|)
  }

  lemma SliceOfSlice(s: string, a: nat, b: nat, c: nat, d: nat)
    requires a <= b <= |s| && c <= d <= b - a
    ensures s[a..b][c..d] == s[a + c..a + d]
  {
    assert forall n :: 0 <= n < d - c ==> s[a..b][c..d][n] == s[a..b][c + n] == s[a + c..a + d][n];
  }

  /** The text `s` from `i` on is what stands in `t` from `j` on. */
  ghost predicate SameFrom(s: string, i: nat, t: string, j: nat) {
    i <= |s| && j <= |t| && s[i..|s|] == t[j..|t|]
  }

  lemma OccursShifted(s: string, i: nat, t: string, j: nat, what: string, k: nat)
    requires SameFrom(s, i, t, j)
    ensures OccursAt(s, what, i + k) <==> OccursAt(t, what, j + k)
  {
    assert |s| - i == |s[i..|s|]| == |t[j..|t|]| == |t| - j;
    if i + k + |what| <= |s| {
      SliceOfSlice(s, i, |s|, k, k + |what|);
      SliceOfSlice(t, j, |t|, k, k + |what|);
    }
  }

  /** A search that starts where the texts agree finds the same. */
  lemma {:induction false} FindShifted(s: string, i: nat, t: string, j: nat, what: string, k: nat)
    requires SameFrom(s, i, t, j)
    ensures Moved(Find(s, what, i + k), Find(t, what, j + k), i - j)
    decreases |s| - i - k
  {
    assert |s| - i == |s[i..|s|]| == |t[j..|t|]| == |t| - j;
    OccursShifted(s, i, t, j, what, k);
    if i + k + |what| <= |s| && !OccursAt(s, what, i + k) {
      FindShifted(s, i, t, j, what, k + 1);
    }
  }

  /** `a` is `b`, `d` places on. */
  ghost predicate Moved(a: Option<nat>, b: Option<nat>, d: int) {
    a.Some? == b.Some? && (a.Some? ==> a.value == b.value + d)
  }

  /** `where` is `done` followed by the part of `text` from `pos` on. */
  ghost predicate Spliced(where: string, done: string, text: string, pos: nat) {
    pos <= |text| && where == done + text[pos..|text|]
  }

  /** `done` is finished, `text` from `pos` on is still to be searched. */
  ghost predicate Underway(text: string, what: string, with: string, done: string, pos: nat)
    requires what != ""
  {
    pos <= |text| && Replaced(text, what, with, 0) == done + Replaced(text, what, with, pos)
  }

  /** `std::string::replace` of `length` characters at `at`. */
  method Replace(where: string, at: nat, length: nat, with: string, ghost done: string, ghost text: string,
                 ghost pos: nat)
    returns (next: string, ghost done': string, ghost pos': nat)
    requires |done| <= at && at + length <= |where| && Spliced(where, done, text, pos)
    ensures pos + at - |done| <= |text| && done' == done + text[pos..pos + at - |done|] + with
    ensures |done'| == at + |with| && pos' == pos + at - |done| + length && Spliced(next, done', text, pos')
  {
    next := where[..at] + with + where[at + length..|where|];
    done', pos' := done + text[pos..pos + at - |done|] + with, pos + at - |done| + length;
    assert where[..at] == done + text[pos..pos + at - |done|];
    assert where[at + length..|where|] == text[pos'..|text|];
  }

  /** The loop's state: `offset` is where `what` is next found. */
  ghost predicate Searching(text: string, what: string, with: string, where: string, offset: Option<nat>,
                            done: string, pos: nat)
    requires what != ""
  {
    Underway(text, what, with, done, pos) && Spliced(where, done, text, pos)
    && Moved(offset, Find(text, what, pos), |done| - pos)
  }

  /** replace_all, which ends only for a `what` that is not empty, as LoopEndsIff says. */
  method ReplaceAll(text: string, what: string, with: string) returns (where: string)
    requires what != ""
    ensures where == Replaced(text, what, with, 0)
  {
    where := text;
    var offset := Find(where, what, 0);
    ghost var done, pos := "", 0;
    Started(text, what, with);
    while offset.Some?
      invariant Searching(text, what, with, where, offset, done, pos)
      decreases |text| - pos
    {
      where, offset, done, pos := ReplaceNext(text, what, with, where, offset.value, done, pos);
    }
    Finished(text, what, with, where, done, pos);
  }

  lemma Started(text: string, what: string, with: string)
    requires what != ""
    ensures Searching(text, what, with, text, Find(text, what, 0), "", 0)
  {
  }

  /** The body of the loop. */
  method ReplaceNext(ghost text: string, what: string, with: string, where: string, at: nat,
                     ghost done: string, ghost pos: nat)
    returns (next: string, offset: Option<nat>, ghost done': string, ghost pos': nat)
    requires what != "" && Searching(text, what, with, where, Some(at), done, pos)
    ensures pos < pos' <= |text| && Searching(text, what, with, next, offset, done', pos')
  {
    ghost var i := FoundAt(text, what, with, where, at, done, pos);
    next, done', pos' := Replace(where, at, |what|, with, done, text, pos);
    Step(text, what, with, done, pos, i, done', pos');
    NextSearch(text, what, with, next, done', pos');
    offset := Find(next, what, at + |with|);
  }

  lemma FoundAt(text: string, what: string, with: string, where: string, at: nat, done: string, pos: nat)
    returns (i: nat)
    requires what != "" && Searching(text, what, with, where, Some(at), done, pos)
    ensures Find(text, what, pos) == Some(i) && pos <= i && i + |what| <= |text| && at == |done| + i - pos
    ensures at + |what| <= |where| && Underway(text, what, with, done, pos) && Spliced(where, done, text, pos)
  {
    i := Find(text, what, pos).value;
    assert |where| == |done| + |text| - pos;
  }

  lemma NextSearch(text: string, what: string, with: string, where: string, done: string, pos: nat)
    requires what != "" && Underway(text, what, with, done, pos) && Spliced(where, done, text, pos)
    ensures Searching(text, what, with, where, Find(where, what, |done|), done, pos)
  {
    SameBehind(where, done, text, pos);
    FindShifted(where, |done|, text, pos, what, 0);
  }

  /** The text after one iteration that finds `what` at `at`. */
  function Next(where: string, at: nat, what: string, with: string): (next: string)
    requires at + |what| <= |where|
    ensures |next| == |where| - |what| + |with|
  {
    where[..at] + with + where[at + |what|..]
  }

  /** The loop ends within `n` iterations when it stands at `offset` of `where`. */
  ghost predicate Ends(where: string, offset: Option<nat>, what: string, with: string, n: nat)
    decreases n
  {
    match offset
    case None => true
    case Some(at) =>
      n > 0 && at + |what| <= |where|
      && var next := Next(where, at, what, with);
      Ends(next, Find(next, what, at + |with|), what, with, n - 1)
  }

  lemma EndsBefore(where: string, at: nat, what: string, with: string, next: string, n: nat)
    requires at + |what| <= |where| && next == Next(where, at, what, with)
    requires Ends(next, Find(next, what, at + |with|), what, with, n)
    ensures Ends(where, Some(at), what, with, n + 1)
  {
  }

  /** What is left to search shrinks by what is found. */
  lemma {:induction false} EndsInTime(where: string, at: nat, what: string, with: string) returns (n: nat)
    requires what != "" && at + |what| <= |where|
    ensures Ends(where, Some(at), what, with, n)
    decreases |where| - at
  {
    var next := Next(where, at, what, with);
    var offset := Find(next, what, at + |with|);
    var m := 0;
    if offset.Some? {
      m := EndsInTime(next, offset.value, what, with);
    }
    EndsBefore(where, at, what, with, next, m);
    n := m + 1;
  }

  /** An empty `what` is found wherever the search starts, before and behind what was inserted. */
  lemma {:induction false} EmptyFoundForEver(where: string, with: string, offset: nat, n: nat)
    requires offset <= |where|
    ensures Find(where, "", offset) == Some(offset) && !Ends(where, Some(offset), "", with, n)
    decreases n
  {
    assert OccursAt(where, "", offset);
    if n > 0 {
      var next := Next(where, offset, "", with);
      EmptyFoundForEver(next, with, offset + |with|, n - 1);
    }
  }

  ghost predicate LoopEnds(where: string, offset: Option<nat>, what: string, with: string) {
    exists n: nat :: Ends(where, offset, what, with, n)
  }

  /** The loop ends, after however many iterations, if and only if the text to replace is not empty. */
  lemma LoopEndsIff(text: string, what: string, with: string)
    ensures LoopEnds(text, Find(text, what, 0), what, with) <==> what != ""
  {
    var offset := Find(text, what, 0);
    if what == "" {
      forall n: nat
        ensures !Ends(text, offset, what, with, n)
      {
        EmptyFoundForEver(text, with, 0, n);
      }
    } else if offset.Some? {
      var n := EndsInTime(text, offset.value, what, with);
    } else {
      assert Ends(text, offset, what, with, 0);
    }
  }

  lemma SameBehind(where: string, done: string, text: string, pos: nat)
    requires Spliced(where, done, text, pos)
    ensures SameFrom(where, |done|, text, pos)
  {
  }

  lemma Finished(text: string, what: string, with: string, where: string, done: string, pos: nat)
    requires what != "" && Underway(text, what, with, done, pos) && Spliced(where, done, text, pos)
             && Find(text, what, pos).None?
    ensures where == Replaced(text, what, with, 0)
  {
  }

  lemma Step(text: string, what: string, with: string, done: string, pos: nat, i: nat, done': string, pos': nat)
    requires what != "" && Underway(text, what, with, done, pos) && Find(text, what, pos) == Some(i)
    requires done' == done + text[pos..i] + with && pos' == i + |what|
    ensures pos < pos' && Underway(text, what, with, done', pos')
  {
    Associate(done, text[pos..i], with, Replaced(text, what, with, pos'));
  }

  lemma Associate(a: string, b: string, c: string, d: string)
    ensures a + (b + c + d) == (a + b + c) + d
  {
  }

  // ----- replacement is splitting at one text and joining with the other -----

  /** The pieces of `s` between the occurrences, found from `from` on. */
  function Split(s: string, what: string, from: nat): (pieces: seq<string>)
    requires what != "" && from <= |s|
    ensures pieces != []
    decreases |s| - from
  {
    match Find(s, what, from)
    case None => [s[from..|s|]]
    case Some(i) => [s[from..i]] + Split(s, what, i + |what|)
  }

  function Join(pieces: seq<string>, with: string): string {
    if pieces == [] then ""
    else if |pieces| == 1 then pieces[0]
    else pieces[0] + with + Join(pieces[1..], with)
  }

  /** The replaced text is the pieces joined by `with`. */
  lemma {:induction false} ReplacedIsJoin(s: string, what: string, with: string, from: nat)
    requires what != "" && from <= |s|
    ensures Replaced(s, what, with, from) == Join(Split(s, what, from), with)
    decreases |s| - from
  {
    match Find(s, what, from)
    case None =>
    case Some(i) =>
      ReplacedIsJoin(s, what, with, i + |what|);
      JoinMore(s[from..i], Split(s, what, i + |what|), with);
  }

  /** The text itself is the pieces joined by `what`: replacing a text by itself changes nothing. */
  lemma {:induction false} ReplacedBySame(s: string, what: string, from: nat)
    requires what != "" && from <= |s|
    ensures Replaced(s, what, what, from) == s[from..|s|]
    decreases |s| - from
  {
    match Find(s, what, from)
    case None =>
    case Some(i) =>
      FindFirst(s, what, from);
      ReplacedBySame(s, what, i + |what|);
      ThreeParts(s, from, i, i + |what|);
  }

  lemma ThreeParts(s: string, a: nat, b: nat, c: nat)
    requires a <= b <= c <= |s|
    ensures s[a..|s|] == s[a..b] + s[b..c] + s[c..|s|]
  {
  }

  /** No piece contains `what`. */
  lemma {:induction false} PiecesClean(s: string, what: string, from: nat, k: nat)
    requires what != "" && from <= |s| && k < |Split(s, what, from)|
    ensures !Occurs(Split(s, what, from)[k], what)
    decreases |s| - from
  {
    match Find(s, what, from)
    case None => PieceClean(s, what, from, |s|);
    case Some(i) =>
      if k == 0 {
        PieceClean(s, what, from, i);
      } else {
        PiecesClean(s, what, i + |what|, k - 1);
      }
  }

  lemma JoinMore(piece: string, pieces: seq<string>, with: string)
    requires pieces != []
    ensures Join([piece] + pieces, with) == piece + with + Join(pieces, with)
  {
    assert ([piece] + pieces)[1..] == pieces;
  }

  /** Before the first occurrence nothing occurs. */
  lemma PieceClean(s: string, what: string, from: nat, i: nat)
    requires what != "" && from <= i <= |s| && match Find(s, what, from) case None => i == |s| case Some(f) => i == f
    ensures !Occurs(s[from..i], what)
  {
    FindFirst(s, what, from);
    forall j: nat
      ensures !OccursAt(s[from..i], what, j)
    {
      if j + |what| <= i - from {
        SliceOfSlice(s, from, i, j, j + |what|);
        assert !OccursAt(s, what, from + j);
      }
    }
  }

  /** A template name between dollar signs is gone after its replacement by a text that has no dollar
      sign and is no part of the name. */
  lemma {:induction false} NoneRemains(s: string, what: string, with: string, from: nat)
    requires what != "" && what[0] == '$' && what[|what| - 1] == '$' && from <= |s|
    requires '$' !in with && !Occurs(what, with)
    ensures !Occurs(Replaced(s, what, with, from), what)
    decreases |s| - from
  {
    match Find(s, what, from)
    case None => PieceClean(s, what, from, |s|);
    case Some(i) =>
      var rest := Replaced(s, what, with, i + |what|);
      NoneRemains(s, what, with, i + |what|);
      PieceClean(s, what, from, i);
      forall k: nat
        ensures !OccursAt(s[from..i] + with + rest, what, k)
      {
        NotAcross(s[from..i], with, rest, what, k);
      }
  }

  lemma OccursWithin(front: string, rest: string, what: string, i: nat)
    requires i + |what| <= |front|
    ensures OccursAt(front + rest, what, i) <==> OccursAt(front, what, i)
  {
    assert (front + rest)[i..i + |what|] == front[i..i + |what|];
  }

  lemma OccursBehind(done: string, rest: string, what: string, i: nat)
    ensures OccursAt(done + rest, what, |done| + i) <==> OccursAt(rest, what, i)
  {
    if i + |what| <= |rest| {
      assert (done + rest)[|done| + i..|done| + i + |what|] == rest[i..i + |what|];
    }
  }

  lemma NotAcross(piece: string, with: string, rest: string, what: string, k: nat)
    requires what != "" && what[0] == '$' && what[|what| - 1] == '$'
    requires '$' !in with && !Occurs(what, with) && !Occurs(piece, what) && !Occurs(rest, what)
    ensures !OccursAt(piece + with + rest, what, k)
  {
    if k + |what| <= |piece| {
      assert piece + with + rest == piece + (with + rest);
      OccursWithin(piece, with + rest, what, k);
    } else if k >= |piece + with| {
      OccursBehind(piece + with, rest, what, k - |piece + with|);
    } else {
      Across(piece, with, rest, what, k);
    }
  }

  /** An occurrence that reaches into the replacement reaches over it, which is then part of it. */
  lemma Across(piece: string, with: string, rest: string, what: string, k: nat)
    requires what != "" && what[0] == '$' && what[|what| - 1] == '$' && '$' !in with
    requires k < |piece + with| && |piece| < k + |what|
    ensures OccursAt(piece + with + rest, what, k) ==> Occurs(what, with)
  {
    var t, i, m := piece + with + rest, |piece|, |what|;
    if OccursAt(t, what, k) {
      assert t[k..k + m][0] == '$' && t[k..k + m][m - 1] == '$';
      DollarOutside(piece, with, rest, k);
      DollarOutside(piece, with, rest, k + m - 1);
      SliceOfSlice(t, k, k + m, i - k, i - k + |with|);
      assert t[i..i + |with|] == with;
      assert OccursAt(what, with, i - k);
    }
  }

  lemma DollarOutside(piece: string, with: string, rest: string, k: nat)
    requires k < |piece + with + rest| && (piece + with + rest)[k] == '$' && '$' !in with
    ensures k < |piece| || |piece| + |with| <= k
  {
  }
}
