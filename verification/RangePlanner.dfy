/** `src/dump.cpp`: a list of disjoint ranges from which intervals are removed. */
module RangePlanner {
  /** The numbers x with `first <= x < second`. */
  datatype Range = Range(first: nat, second: nat) {
    predicate Has(x: nat) { first <= x < second }
  }

  predicate OverlapsBack(r: Range, overlapped: Range) {
    r.first <= overlapped.first && overlapped.first < r.second
  }

  predicate OverlapsFront(r: Range, overlapped: Range) {
    r.first < overlapped.second && overlapped.second <= r.second
  }

  /** Sorted, each range non-empty, and a gap between any two. */
  ghost predicate Separated(l: seq<Range>) {
    (forall i :: 0 <= i < |l| ==> l[i].first < l[i].second)
    && (forall i, j :: 0 <= i < j < |l| ==> l[i].second < l[j].first)
  }

  ghost predicate Covered(l: seq<Range>, x: nat) { exists i :: 0 <= i < |l| && l[i].Has(x) }

  function Back(begin: nat, end: nat): Range -> bool { r => OverlapsBack(r, Range(begin, end)) }

  function Front(begin: nat, end: nat): Range -> bool { r => OverlapsFront(r, Range(begin, end)) }

  /** The first index from `from` on whose range satisfies `p`, or the length of the list. */
  function FindIf(l: seq<Range>, from: nat, p: Range -> bool): (k: nat)
    requires from <= |l|
    ensures from <= k <= |l| && (k < |l| ==> p(l[k]))
    ensures forall j :: from <= j < k ==> !p(l[j])
    decreases |l| - from
  {
    if from == |l| || p(l[from]) then from else FindIf(l, from + 1, p)
  }

  function NonEmpty(first: nat, second: nat): seq<Range> {
    if first != second then [Range(first, second)] else []
  }

  /** The list after Remove(begin, end). */
  function Removed(l: seq<Range>, begin: nat, end: nat): seq<Range> {
    var k := FindIf(l, 0, Back(begin, end));
    if begin == end || k == |l| then l else Cut(l, k, begin, end)
  }

  /** `begin` lies in range `k`, of which the part before `begin` remains. */
  function Cut(l: seq<Range>, k: nat, begin: nat, end: nat): seq<Range>
    requires k < |l|
  {
    l[..k] + NonEmpty(l[k].first, begin) + Remainder(l[k..], begin, end)
  }

  /** What remains of `tail`: the ranges behind `end`, if a range has `end` in it or just at its end, and
      nothing otherwise. */
  function Remainder(tail: seq<Range>, begin: nat, end: nat): seq<Range> {
    var e := FindIf(tail, 0, Front(begin, end));
    if e < |tail| then NonEmpty(end, tail[e].second) + tail[e + 1..] else []
  }

  class Planner {
    var RangeList: seq<Range>

    constructor (begin: nat, end: nat)
      ensures Separated(RangeList)
      ensures forall x: nat :: Covered(RangeList, x) <==> begin <= x < end
    {
      RangeList := if begin < end then [Range(begin, end)] else [];
      new;
      if begin < end {
        assert RangeList[0] == Range(begin, end);
      }
    }

    method Remove(begin: nat, end: nat)
      modifies this
      ensures RangeList == Removed(old(RangeList), begin, end)
    {
      if begin == end {
        return;
      }
      var b := Find(RangeList, 0, Back(begin, end));
      if b != |RangeList| {
        var front := Range(RangeList[b].first, begin);
        ghost var prefix, tail := RangeList[..b], RangeList[b..];
        b := InsertNonEmpty(b, front, prefix, tail);
        RemoveBehind(b, begin, end, prefix + NonEmpty(front.first, front.second), tail);
      }
    }

    /** The part of Remove behind the insertion of `front`. */
    method RemoveBehind(at: nat, begin: nat, end: nat, ghost prefix: seq<Range>, ghost tail: seq<Range>)
      requires RangeList == prefix + tail && at == |prefix|
      modifies this
      ensures RangeList == prefix + Remainder(tail, begin, end)
    {
      var size := FindFront(at, begin, end, prefix, tail);
      if at + size != |RangeList| {
        RemoveUpTo(at, size, end, prefix, tail);
        RemainderFound(prefix, tail, begin, end, size);
      } else {
        Erase(at, at + size, prefix, tail);
        RemainderMissing(prefix, tail, begin, end);
      }
    }

    /** The second search of Remove: how far behind `at` the range with `end` in it stands. */
    method FindFront(at: nat, begin: nat, end: nat, ghost prefix: seq<Range>, ghost tail: seq<Range>)
      returns (size: nat)
      requires RangeList == prefix + tail && at == |prefix|
      ensures size == FindIf(tail, 0, Front(begin, end))
    {
      FindShifted(prefix, tail, Front(begin, end));
      var e := Find(RangeList, at, Front(begin, end));
      size := e - at;
    }

    /** The rest of Remove where `end` lies in the range `size` places behind `at`. */
    method RemoveUpTo(at: nat, size: nat, end: nat, ghost prefix: seq<Range>, ghost tail: seq<Range>)
      requires RangeList == prefix + tail && at == |prefix| && size < |tail|
      modifies this
      ensures RangeList == (prefix + NonEmpty(end, tail[size].second)) + tail[size + 1..]
    {
      var back := Range(end, RangeList[at + size].second);
      assert back.second == tail[size].second;
      var b := InsertNonEmpty(at, back, prefix, tail);
      Erase(b, b + size + 1, prefix + NonEmpty(back.first, back.second), tail);
    }

    /** `insert` of a non-empty range before index `b`, which moves on with its element. */
    method InsertNonEmpty(b: nat, r: Range, ghost prefix: seq<Range>, ghost tail: seq<Range>) returns (b': nat)
      requires RangeList == prefix + tail && b == |prefix|
      modifies this
      ensures RangeList == (prefix + NonEmpty(r.first, r.second)) + tail
      ensures b' == |prefix + NonEmpty(r.first, r.second)|
    {
      b' := b;
      if r.first != r.second {
        RangeList, b' := RangeList[..b] + [r] + RangeList[b..], b + 1;
      }
    }

    /** The loop that erases the elements from `b` up to `e`. */
    method Erase(b: nat, e: nat, ghost prefix: seq<Range>, ghost tail: seq<Range>)
      requires RangeList == prefix + tail && b == |prefix| && b <= e <= |RangeList|
      modifies this
      ensures RangeList == prefix + tail[e - b..]
    {
      var last := e;
      while b != last
        invariant b <= last <= e && RangeList == prefix + tail[e - last..]
      {
        RangeList, last := RangeList[..b] + RangeList[b + 1..], last - 1;
      }
    }
  }

  lemma RemainderFound(prefix: seq<Range>, tail: seq<Range>, begin: nat, end: nat, c: nat)
    requires c == FindIf(tail, 0, Front(begin, end)) < |tail|
    ensures (prefix + NonEmpty(end, tail[c].second)) + tail[c + 1..] == prefix + Remainder(tail, begin, end)
  {
    Associate(prefix, NonEmpty(end, tail[c].second), tail[c + 1..]);
  }

  lemma RemainderMissing(prefix: seq<Range>, tail: seq<Range>, begin: nat, end: nat)
    requires FindIf(tail, 0, Front(begin, end)) == |tail|
    ensures prefix + tail[|tail|..] == prefix + Remainder(tail, begin, end)
  {
  }

  lemma Associate(a: seq<Range>, b: seq<Range>, c: seq<Range>)
    ensures (a + b) + c == a + (b + c)
  {
  }

  /** `std::find_if` from an iterator to the end. */
  method Find(l: seq<Range>, from: nat, p: Range -> bool) returns (k: nat)
    requires from <= |l|
    ensures k == FindIf(l, from, p)
  {
    k := from;
    while k != |l| && !p(l[k])
      invariant from <= k <= |l| && FindIf(l, from, p) == FindIf(l, k, p)
    {
      k := k + 1;
    }
  }

  /** A search that starts behind a prefix does not see it. */
  lemma FindShifted(prefix: seq<Range>, tail: seq<Range>, p: Range -> bool)
    ensures FindIf(prefix + tail, |prefix|, p) == |prefix| + FindIf(tail, 0, p)
  {
    assert forall j :: 0 <= j < |tail| ==> (prefix + tail)[|prefix| + j] == tail[j];
  }

  // ----- which numbers remain covered -----

  lemma CoveredConcat(a: seq<Range>, b: seq<Range>, x: nat)
    ensures Covered(a + b, x) <==> Covered(a, x) || Covered(b, x)
  {
    if i: nat :| i < |a| && a[i].Has(x) {
      assert (a + b)[i].Has(x);
    }
    if i: nat :| i < |b| && b[i].Has(x) {
      assert (a + b)[|a| + i].Has(x);
    }
  }

  lemma CoveredNonEmpty(first: nat, second: nat, x: nat)
    ensures Covered(NonEmpty(first, second), x) <==> first <= x < second
  {
    if first <= x < second {
      assert NonEmpty(first, second)[0].Has(x);
    }
  }

  /** The ranges before index `k` cover what is covered below range `k`, and those from `k` on the rest. */
  lemma CoveredSplit(l: seq<Range>, k: nat, x: nat)
    requires Separated(l) && k < |l|
    ensures Covered(l[..k], x) <==> Covered(l, x) && x < l[k].first
    ensures Covered(l[k..], x) <==> Covered(l, x) && l[k].first <= x
  {
    assert l == l[..k] + l[k..];
    CoveredConcat(l[..k], l[k..], x);
    assert forall i :: 0 <= i < |l[k..]| ==> l[k].first <= l[k..][i].first;
  }

  lemma CoveredBehind(l: seq<Range>, e: nat, x: nat)
    requires Separated(l) && e < |l|
    ensures Covered(l[e + 1..], x) <==> Covered(l, x) && l[e].second <= x
  {
    if i: nat :| i < |l| && l[i].Has(x) {
      if l[e].second <= x {
        assert i > e;
        assert l[e + 1..][i - e - 1].Has(x);
      }
    }
    var rest := l[e + 1..];
    if i: nat :| i < |rest| && rest[i].Has(x) {
      assert l[e + 1 + i].Has(x);
    }
  }

  lemma TailSeparated(l: seq<Range>, k: nat)
    requires Separated(l) && k <= |l|
    ensures Separated(l[k..]) && Separated(l[..k])
  {
  }

  /** The search for `end` succeeds exactly if the last number before `end` is covered. */
  lemma FrontFound(tail: seq<Range>, begin: nat, end: nat)
    requires 0 < end
    ensures FindIf(tail, 0, Front(begin, end)) < |tail| <==> Covered(tail, end - 1)
  {
    var e := FindIf(tail, 0, Front(begin, end));
    if e < |tail| {
      assert tail[e].Has(end - 1);
    }
    if i: nat :| i < |tail| && tail[i].Has(end - 1) {
      assert Front(begin, end)(tail[i]);
    }
  }

  lemma BackFound(l: seq<Range>, begin: nat, end: nat)
    ensures FindIf(l, 0, Back(begin, end)) < |l| <==> Covered(l, begin)
  {
    var k := FindIf(l, 0, Back(begin, end));
    if k < |l| {
      assert l[k].Has(begin);
    }
    if i: nat :| i < |l| && l[i].Has(begin) {
      assert Back(begin, end)(l[i]);
    }
  }

  lemma RemainderCovers(tail: seq<Range>, begin: nat, end: nat, x: nat)
    requires Separated(tail) && 0 < end
    ensures Covered(Remainder(tail, begin, end), x) <==> Covered(tail, x) && end <= x && Covered(tail, end - 1)
  {
    FrontFound(tail, begin, end);
    var e := FindIf(tail, 0, Front(begin, end));
    if e < |tail| {
      CoveredConcat(NonEmpty(end, tail[e].second), tail[e + 1..], x);
      CoveredNonEmpty(end, tail[e].second, x);
      CoveredBehind(tail, e, x);
      if end <= x < tail[e].second {
        assert tail[e].Has(x);
      }
    }
  }

  /** What Remove leaves covered: nothing changes unless `begin` is covered; then everything below `begin`
      stays, and what lies from `end` on stays if the last number before `end` is covered too. */
  lemma RemoveCovers(l: seq<Range>, begin: nat, end: nat, x: nat)
    requires Separated(l) && begin < end
    ensures Covered(Removed(l, begin, end), x)
       <==> Covered(l, x) && (Covered(l, begin) ==> x < begin || (end <= x && Covered(l, end - 1)))
  {
    BackFound(l, begin, end);
    var k := FindIf(l, 0, Back(begin, end));
    if k < |l| {
      var tail := l[k..];
      TailSeparated(l, k);
      CoveredConcat(l[..k] + NonEmpty(l[k].first, begin), Remainder(tail, begin, end), x);
      CoveredConcat(l[..k], NonEmpty(l[k].first, begin), x);
      CoveredNonEmpty(l[k].first, begin, x);
      RemainderCovers(tail, begin, end, x);
      CoveredSplit(l, k, x);
      CoveredSplit(l, k, end - 1);
      if l[k].first <= x < begin {
        assert l[k].Has(x);
      }
    }
  }

  /** Remove takes out exactly [begin, end). */
  ghost predicate Exact(l: seq<Range>, begin: nat, end: nat) {
    forall x: nat :: Covered(Removed(l, begin, end), x) <==> Covered(l, x) && !(begin <= x < end)
  }

  ghost predicate NothingIn(l: seq<Range>, begin: nat, end: nat) {
    forall x: nat :: begin <= x < end ==> !Covered(l, x)
  }

  ghost predicate NothingFrom(l: seq<Range>, begin: nat) {
    forall x: nat :: begin <= x ==> !Covered(l, x)
  }

  /** What a caller can look up before a removal: the interval is empty, or both its first and its last
      number are covered, or its first is and nothing is from its end on, or nothing in it is. */
  ghost predicate Removable(l: seq<Range>, begin: nat, end: nat) {
    begin <= end
    && (begin == end
        || if Covered(l, begin) then Covered(l, end - 1) || NothingFrom(l, end) else NothingIn(l, begin, end))
  }

  /** Exactly then Remove takes out the interval and nothing else. */
  lemma ExactIff(l: seq<Range>, begin: nat, end: nat)
    requires Separated(l) && begin <= end
    ensures Exact(l, begin, end) <==> Removable(l, begin, end)
  {
    if begin < end {
      forall x: nat
        ensures Covered(Removed(l, begin, end), x)
           <==> Covered(l, x) && (Covered(l, begin) ==> x < begin || (end <= x && Covered(l, end - 1)))
      {
        RemoveCovers(l, begin, end, x);
      }
    }
  }

  // ----- the list stays sorted -----

  ghost predicate Before(a: seq<Range>, b: seq<Range>) {
    forall i, j :: 0 <= i < |a| && 0 <= j < |b| ==> a[i].second < b[j].first
  }

  lemma SeparatedConcat(a: seq<Range>, b: seq<Range>)
    ensures Separated(a + b) <==> Separated(a) && Separated(b) && Before(a, b)
  {
    var c := a + b;
    assert forall i :: 0 <= i < |a| ==> c[i] == a[i];
    assert forall i :: 0 <= i < |b| ==> c[|a| + i] == b[i];
    assert c[..|a|] == a && c[|a|..] == b;
    if Separated(c) {
      forall i, j | 0 <= i < |a| && 0 <= j < |b|
        ensures a[i].second < b[j].first
      {
        assert c[i].second < c[|a| + j].first;
      }
      TailSeparated(c, |a|);
    }
  }

  /** `end` lies before `begin`, strictly inside the range that `begin` lies in. */
  ghost predicate Backwards(l: seq<Range>, begin: nat, end: nat) {
    end < begin && exists i :: 0 <= i < |l| && l[i].first < end && begin < l[i].second
  }

  /** Remove keeps the list sorted and its ranges apart, except for a backward interval inside one range. */
  lemma RemoveKeepsSeparatedIff(l: seq<Range>, begin: nat, end: nat)
    requires Separated(l)
    ensures Separated(Removed(l, begin, end)) <==> !Backwards(l, begin, end)
  {
    var k := FindIf(l, 0, Back(begin, end));
    if k == |l| {
      assert forall i :: 0 <= i < |l| ==> !Back(begin, end)(l[i]);
    } else if begin != end {
      CutSeparatedIff(l, k, begin, end);
    }
  }

  lemma CutSeparatedIff(l: seq<Range>, k: nat, begin: nat, end: nat)
    requires Separated(l) && k < |l| && l[k].Has(begin) && begin != end
    ensures Separated(Cut(l, k, begin, end)) <==> !Backwards(l, begin, end)
  {
    var head := l[..k] + NonEmpty(l[k].first, begin);
    var tail := l[k..];
    TailSeparated(l, k);
    SeparatedConcat(l[..k], NonEmpty(l[k].first, begin));
    assert Separated(head);
    SeparatedConcat(head, Remainder(tail, begin, end));
    if begin < end {
      RemainderSeparated(tail, begin, end);
    } else {
      RemainderBackwards(l, k, begin, end);
      if l[k].first < end {
        assert head[k] == Range(l[k].first, begin);
      }
    }
  }

  lemma RemainderSeparated(tail: seq<Range>, begin: nat, end: nat)
    requires Separated(tail) && begin < end
    ensures var rest := Remainder(tail, begin, end);
            Separated(rest) && forall j :: 0 <= j < |rest| ==> end <= rest[j].first
  {
    var e := FindIf(tail, 0, Front(begin, end));
    if e < |tail| {
      SuffixBehind(tail, e, tail[e + 1..]);
      PrependSeparated(end, tail[e].second, tail[e + 1..]);
    }
  }

  lemma SuffixBehind(l: seq<Range>, e: nat, suffix: seq<Range>)
    requires Separated(l) && e < |l| && suffix == l[e + 1..]
    ensures Separated(suffix) && forall j :: 0 <= j < |suffix| ==> l[e].second < suffix[j].first
  {
    TailSeparated(l, e + 1);
  }

  lemma PrependSeparated(first: nat, second: nat, rest: seq<Range>)
    requires Separated(rest) && first <= second && forall j :: 0 <= j < |rest| ==> second < rest[j].first
    ensures var all := NonEmpty(first, second) + rest;
            Separated(all) && forall j :: 0 <= j < |all| ==> first <= all[j].first
  {
    var all := NonEmpty(first, second) + rest;
    if first != second {
      assert forall j :: 1 <= j < |all| ==> all[j] == rest[j - 1];
    } else {
      assert all == rest;
    }
  }

  /** With `end` before `begin`, only range `k` itself can have `end` in it, and what remains of it then
      overlaps its front. */
  lemma RemainderBackwards(l: seq<Range>, k: nat, begin: nat, end: nat)
    requires Separated(l) && k < |l| && l[k].Has(begin) && end < begin
    ensures Backwards(l, begin, end) <==> l[k].first < end
    ensures var rest := Remainder(l[k..], begin, end);
            if l[k].first < end then |rest| > 0 && rest[0].first == end else rest == []
  {
    var tail := l[k..];
    var e := FindIf(tail, 0, Front(begin, end));
    if l[k].first < end {
      assert Front(begin, end)(tail[0]);
    } else {
      assert forall j :: 0 <= j < |tail| ==> tail[j].first >= end;
    }
  }

  // ----- any sequence of removals -----

  function RemovedAll(l: seq<Range>, intervals: seq<Range>): seq<Range> {
    if intervals == [] then l
    else
      var last := intervals[|intervals| - 1];
      Removed(RemovedAll(l, intervals[..|intervals| - 1]), last.first, last.second)
  }

  /** Over any sequence of forward removals the list stays sorted, covers nothing new, and loses nothing
      below the beginnings of all intervals. */
  lemma {:induction false} RemovedAllKeeps(l: seq<Range>, intervals: seq<Range>, x: nat)
    requires Separated(l) && forall i :: 0 <= i < |intervals| ==> intervals[i].first <= intervals[i].second
    ensures Separated(RemovedAll(l, intervals))
    ensures Covered(RemovedAll(l, intervals), x) ==> Covered(l, x)
    ensures (forall i :: 0 <= i < |intervals| ==> x < intervals[i].first)
            ==> (Covered(RemovedAll(l, intervals), x) <==> Covered(l, x))
  {
    var n := |intervals| - 1;
    if intervals != [] {
      var front, last := RemovedAll(l, intervals[..n]), intervals[n];
      RemovedAllKeeps(l, intervals[..n], x);
      RemoveKeepsSeparatedIff(front, last.first, last.second);
      if last.first < last.second {
        RemoveCovers(front, last.first, last.second, x);
      }
    }
  }

  /** Interval `i` of the sequence can be removed exactly when its turn comes. */
  ghost predicate RemovableStep(l: seq<Range>, intervals: seq<Range>, i: nat)
    requires i < |intervals|
  {
    Removable(RemovedAll(l, intervals[..i]), intervals[i].first, intervals[i].second)
  }

  lemma RemovableStepOfFront(l: seq<Range>, intervals: seq<Range>, n: nat, i: nat)
    requires i < n <= |intervals|
    ensures RemovableStep(l, intervals[..n], i) == RemovableStep(l, intervals, i)
  {
    assert intervals[..n][..i] == intervals[..i];
  }

  lemma RemovableForward(l: seq<Range>, intervals: seq<Range>)
    requires Separated(l) && forall i: nat :: i < |intervals| ==> RemovableStep(l, intervals, i)
    ensures Separated(RemovedAll(l, intervals))
  {
    forall i: nat | i < |intervals|
      ensures intervals[i].first <= intervals[i].second
    {
      assert RemovableStep(l, intervals, i);
    }
    RemovedAllKeeps(l, intervals, 0);
  }

  lemma ExactAt(l: seq<Range>, begin: nat, end: nat, x: nat)
    requires Separated(l) && Removable(l, begin, end)
    ensures Covered(Removed(l, begin, end), x) <==> Covered(l, x) && !(begin <= x < end)
  {
    ExactIff(l, begin, end);
  }

  /** If every interval can be removed exactly when its turn comes, the list covers in the end what it
      covered at first and no interval has. */
  lemma {:induction false} ExactRun(l: seq<Range>, intervals: seq<Range>, x: nat)
    requires Separated(l) && forall i: nat :: i < |intervals| ==> RemovableStep(l, intervals, i)
    ensures Covered(RemovedAll(l, intervals), x) <==> Covered(l, x) && !Covered(intervals, x)
  {
    var n := |intervals| - 1;
    if intervals != [] {
      var front, last := intervals[..n], intervals[n];
      forall i: nat | i < n
        ensures RemovableStep(l, front, i)
      {
        RemovableStepOfFront(l, intervals, n, i);
      }
      ExactRun(l, front, x);
      RemovableForward(l, front);
      assert RemovableStep(l, intervals, n);
      OneMoreInterval(l, front, last, RemovedAll(l, front), x);
      assert intervals == front + [last];
    }
  }

  lemma OneMoreInterval(l: seq<Range>, front: seq<Range>, last: Range, now: seq<Range>, x: nat)
    requires Separated(now) && Removable(now, last.first, last.second)
    requires Covered(now, x) <==> Covered(l, x) && !Covered(front, x)
    ensures Covered(Removed(now, last.first, last.second), x) <==> Covered(l, x) && !Covered(front + [last], x)
  {
    ExactAt(now, last.first, last.second, x);
    CoveredMore(front, last, x);
  }

  lemma CoveredMore(front: seq<Range>, last: Range, x: nat)
    ensures Covered(front + [last], x) <==> Covered(front, x) || last.Has(x)
  {
    CoveredConcat(front, [last], x);
    assert [last][0] == last;
  }

  /** Every interval has its ends covered at first and by no earlier interval. */
  ghost predicate Fitting(l: seq<Range>, intervals: seq<Range>) {
    forall i: nat :: i < |intervals| ==> Fits(l, intervals, i)
  }

  ghost predicate Fits(l: seq<Range>, intervals: seq<Range>, i: nat)
    requires i < |intervals|
  {
    var r := intervals[i];
    r.first < r.second && Covered(l, r.first) && Covered(l, r.second - 1)
    && !Covered(intervals[..i], r.first) && !Covered(intervals[..i], r.second - 1)
  }

  lemma {:induction false} FittingRemovable(l: seq<Range>, intervals: seq<Range>)
    requires Separated(l) && Fitting(l, intervals)
    ensures forall i: nat :: i < |intervals| ==> RemovableStep(l, intervals, i)
  {
    var n := |intervals| - 1;
    if intervals != [] {
      var front, last := intervals[..n], intervals[n];
      forall i: nat | i < n
        ensures Fits(l, front, i)
      {
        assert front[..i] == intervals[..i];
        assert Fits(l, intervals, i);
      }
      FittingRemovable(l, front);
      assert Fits(l, intervals, n);
      LastFits(l, front, last);
      forall i: nat | i < |intervals|
        ensures RemovableStep(l, intervals, i)
      {
        if i < n {
          RemovableStepOfFront(l, intervals, n, i);
        } else {
          assert i == n;
        }
      }
    }
  }

  lemma LastFits(l: seq<Range>, front: seq<Range>, last: Range)
    requires Separated(l) && (forall i: nat :: i < |front| ==> RemovableStep(l, front, i)) && last.first < last.second
    requires Covered(l, last.first) && Covered(l, last.second - 1)
    requires !Covered(front, last.first) && !Covered(front, last.second - 1)
    ensures Removable(RemovedAll(l, front), last.first, last.second)
  {
    ExactRun(l, front, last.first);
    ExactRun(l, front, last.second - 1);
  }

  /** Intervals that fit, as disjoint intervals with covered ends do, can be removed one after the other in any
      number. */
  lemma FittingRun(l: seq<Range>, intervals: seq<Range>, x: nat)
    requires Separated(l) && Fitting(l, intervals)
    ensures Covered(RemovedAll(l, intervals), x) <==> Covered(l, x) && !Covered(intervals, x)
  {
    FittingRemovable(l, intervals);
    ExactRun(l, intervals, x);
  }
}
