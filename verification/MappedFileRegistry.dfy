/** `src/raw.cpp`: the reference-counted registry of mapped files. A handle is a number, and 0 the null
    pointer; the mapping itself is replaced by the handle the allocator returns for it. */
module MappedFileRegistry {
  datatype Record = Record(count: nat, handle: nat)

  type Files = map<string, Record>

  /** Every recorded path has a handle of its own, which is not null, and a positive count. */
  ghost predicate Live(files: Files) {
    (forall p :: p in files ==> files[p].handle != 0 && files[p].count > 0)
    && (forall p, q :: p in files && q in files && files[p].handle == files[q].handle ==> p == q)
  }

  ghost predicate Owns(files: Files, p: string, handle: nat) { p in files && files[p].handle == handle }

  /** A handle the allocator can return: not null, and not that of a live record. */
  ghost predicate Fresh(files: Files, handle: nat) {
    handle != 0 && forall p :: p in files ==> files[p].handle != handle
  }

  /** The registry after a call of open that maps a new file under `handle`, if it has to. */
  function Opened(files: Files, path: string, handle: nat): Files {
    if path in files then files[path := Record(files[path].count + 1, files[path].handle)]
    else files[path := Record(1, handle)]
  }

  /** The registry after a call of close. */
  ghost function Closed(files: Files, handle: nat): Files {
    if p :| Owns(files, p, handle) then Released(files, p) else files
  }

  function Released(files: Files, p: string): Files
    requires p in files
  {
    if files[p].count <= 1 then files - {p} else files[p := Record(files[p].count - 1, files[p].handle)]
  }

  // ----- histories -----

  /** A call and the handle it returns or is given. */
  datatype Event = Open(path: string, handle: nat) | Close(handle: nat)

  ghost function After(events: seq<Event>): Files {
    if events == [] then map[] else Happened(After(events[..|events| - 1]), events[|events| - 1])
  }

  ghost function Happened(files: Files, e: Event): Files {
    match e
    case Open(path, handle) => Opened(files, path, handle)
    case Close(handle) => Closed(files, handle)
  }

  /** open returns the handle of a live record, or else a fresh one. */
  ghost predicate Possible(files: Files, e: Event) {
    match e
    case Open(path, handle) => if path in files then handle == files[path].handle else Fresh(files, handle)
    case Close(_) => true
  }

  ghost predicate History(events: seq<Event>) {
    events != [] ==>
      var n := |events| - 1;
      History(events[..n]) && Possible(After(events[..n]), events[n])
  }

  /** How often handle `h` was returned and not closed since. */
  function Held(events: seq<Event>, h: nat): nat {
    if events == [] then 0 else HeldNext(Held(events[..|events| - 1], h), events[|events| - 1], h)
  }

  function HeldNext(held: nat, e: Event, h: nat): nat {
    if e.handle != h then held
    else if e.Open? then held + 1
    else if held > 0 then held - 1
    else 0
  }

  lemma HeldMore(events: seq<Event>, e: Event, h: nat)
    ensures Held(events + [e], h) == HeldNext(Held(events, h), e, h)
  {
    assert (events + [e])[..|events|] == events;
  }

  /** The records count the handles held: `held` says how often. */
  ghost predicate Counts(files: Files, held: nat -> nat) {
    (forall p :: p in files ==> files[p].count == held(files[p].handle))
    && (forall h: nat :: held(h) > 0 ==> exists p :: Owns(files, p, h))
  }

  lemma OpenedLive(files: Files, path: string, handle: nat)
    requires Live(files) && Possible(files, Open(path, handle))
    ensures Live(Opened(files, path, handle)) && Owns(Opened(files, path, handle), path, handle)
  {
  }

  lemma OpenedCounts(files: Files, path: string, handle: nat, held: nat -> nat, next: nat -> nat)
    requires Live(files) && Counts(files, held) && Possible(files, Open(path, handle))
    requires forall h: nat :: next(h) == HeldNext(held(h), Open(path, handle), h)
    ensures Counts(Opened(files, path, handle), next)
  {
    var after := Opened(files, path, handle);
    OpenedLive(files, path, handle);
    if path !in files {
      assert forall p :: !Owns(files, p, handle);
      assert held(handle) == 0;
    }
    forall p | p in after
      ensures after[p].count == next(after[p].handle)
    {
      assert p != path ==> !Owns(after, p, handle);
    }
    forall h: nat | next(h) > 0
      ensures exists p :: Owns(after, p, h)
    {
      if h != handle {
        var p :| Owns(files, p, h);
        assert Owns(after, p, h);
      }
    }
  }

  lemma ClosedLive(files: Files, handle: nat)
    requires Live(files)
    ensures Live(Closed(files, handle))
    ensures forall p :: Owns(files, p, handle) ==> Closed(files, handle) == Released(files, p)
  {
    if p :| Owns(files, p, handle) {
      assert forall q :: Owns(files, q, handle) ==> q == p;
    }
  }

  lemma ClosedCounts(files: Files, handle: nat, held: nat -> nat, next: nat -> nat)
    requires Live(files) && Counts(files, held)
    requires forall h: nat :: next(h) == HeldNext(held(h), Close(handle), h)
    ensures Counts(Closed(files, handle), next)
  {
    ClosedLive(files, handle);
    if p :| Owns(files, p, handle) {
      ReleasedCounts(files, p, handle, held, next);
    } else {
      assert held(handle) == 0;
      assert forall h: nat :: next(h) == held(h);
    }
  }

  lemma ReleasedCounts(files: Files, p: string, handle: nat, held: nat -> nat, next: nat -> nat)
    requires Live(files) && Counts(files, held) && Owns(files, p, handle)
    requires forall h: nat :: next(h) == HeldNext(held(h), Close(handle), h)
    ensures Counts(Released(files, p), next)
  {
    var after := Released(files, p);
    forall q | q in after
      ensures after[q].count == next(after[q].handle)
    {
      assert q != p ==> !Owns(files, q, handle);
    }
    forall h: nat | next(h) > 0
      ensures exists q :: Owns(after, q, h)
    {
      var q :| Owns(files, q, h);
      assert Owns(after, q, h);
    }
  }

  /** Over every history the live handles are distinct and not null, and each record counts the opens of
      its handle that were not closed. */
  lemma {:induction false} HistoryCounts(events: seq<Event>)
    requires History(events)
    ensures Live(After(events)) && Counts(After(events), h => Held(events, h))
  {
    if events != [] {
      var n := |events| - 1;
      HistoryCounts(events[..n]);
      match events[n]
      case Open(path, handle) =>
        OpenedLive(After(events[..n]), path, handle);
        OpenedCounts(After(events[..n]), path, handle, h => Held(events[..n], h), h => Held(events, h));
      case Close(handle) =>
        ClosedLive(After(events[..n]), handle);
        ClosedCounts(After(events[..n]), handle, h => Held(events[..n], h), h => Held(events, h));
    }
  }

  function Opens(events: seq<Event>, h: nat): nat {
    if events == [] then 0
    else
      var last := events[|events| - 1];
      Opens(events[..|events| - 1], h) + if last.Open? && last.handle == h then 1 else 0
  }

  function Closes(events: seq<Event>, h: nat): nat {
    if events == [] then 0
    else Closes(events[..|events| - 1], h) + if events[|events| - 1] == Close(h) then 1 else 0
  }

  /** Handle `h` is held throughout the calls of `since`, from the first on. */
  ghost predicate HeldThroughout(before: seq<Event>, since: seq<Event>, h: nat) {
    since != [] ==>
      Held(before + since, h) > 0 && HeldThroughout(before, since[..|since| - 1], h)
  }

  /** From the call that maps a file on, and while it stays mapped, its handle is held as often as it was
      opened less as often as it was closed. */
  lemma {:induction false} CountSinceMapping(before: seq<Event>, since: seq<Event>, h: nat)
    requires Held(before, h) == 0 && HeldThroughout(before, since, h)
    ensures Held(before + since, h) == Opens(since, h) - Closes(since, h)
  {
    if since == [] {
      assert before + since == before;
    } else {
      var n := |since| - 1;
      CountSinceMapping(before, since[..n], h);
      assert before + since == (before + since[..n]) + [since[n]];
      HeldMore(before + since[..n], since[n], h);
    }
  }

  /** The same on the record of a file: it counts the opens minus the closes since the call that mapped it. */
  lemma RecordCountSinceMapping(before: seq<Event>, since: seq<Event>, p: string, h: nat)
    requires History(before + since) && p in After(before + since) && h == After(before + since)[p].handle
    requires Held(before, h) == 0 && HeldThroughout(before, since, h)
    ensures After(before + since)[p].count == Opens(since, h) - Closes(since, h)
  {
    HistoryCounts(before + since);
    CountSinceMapping(before, since, h);
  }

  // ----- the registry -----

  class Registry {
    var MappedFiles: Files
    ghost var history: seq<Event>

    ghost predicate Valid()
      reads this
    {
      History(history) && MappedFiles == After(history)
    }

    constructor ()
      ensures Valid() && MappedFiles == map[] && history == []
    {
      MappedFiles, history := map[], [];
    }

    /** open. `mapped` is what the allocator returns if it is asked for a new handle. */
    method Open(path: string, mapped: nat) returns (handle: nat)
      requires Valid() && Fresh(MappedFiles, mapped)
      modifies this
      ensures Valid() && history == old(history) + [Event.Open(path, handle)]
      ensures handle == if path in old(MappedFiles) then old(MappedFiles)[path].handle else mapped
      ensures MappedFiles == Opened(old(MappedFiles), path, mapped)
    {
      HistoryCounts(history);
      ghost var before := MappedFiles;
      if path !in MappedFiles {
        MappedFiles := MappedFiles[path := Record(0, 0)];
      }
      var record := MappedFiles[path];
      if record.handle != 0 {
        MappedFiles := MappedFiles[path := Record(record.count + 1, record.handle)];
      } else {
        MappedFiles := MappedFiles[path := Record(1, mapped)];
      }
      handle := MappedFiles[path].handle;
      assert MappedFiles == Opened(before, path, handle);
      HistoryMore(history, Event.Open(path, handle));
      history := history + [Event.Open(path, handle)];
    }

    /** close. Only the last close of a handle erases its record, and an unknown handle changes nothing. */
    method Close(handle: nat)
      requires Valid()
      modifies this
      ensures Valid() && history == old(history) + [Event.Close(handle)]
      ensures (forall p :: !Owns(old(MappedFiles), p, handle)) ==> MappedFiles == old(MappedFiles)
      ensures forall p :: Owns(old(MappedFiles), p, handle) ==> MappedFiles == Released(old(MappedFiles), p)
    {
      HistoryCounts(history);
      var keys := MappedFiles.Keys;
      ghost var before := MappedFiles;
      ClosedLive(before, handle);
      HistoryMore(history, Event.Close(handle));
      history := history + [Event.Close(handle)];
      while keys != {}
        invariant keys <= MappedFiles.Keys && MappedFiles == before
        invariant forall p :: Owns(MappedFiles, p, handle) ==> p in keys
      {
        var p :| p in keys;
        if MappedFiles[p].handle == handle {
          assert Owns(before, p, handle);
          if MappedFiles[p].count == 1 {
            MappedFiles := MappedFiles - {p};
          } else {
            MappedFiles := MappedFiles[p := Record(MappedFiles[p].count - 1, MappedFiles[p].handle)];
          }
          return;
        }
        keys := keys - {p};
      }
    }
  }

  lemma HistoryMore(events: seq<Event>, e: Event)
    requires History(events) && Possible(After(events), e)
    ensures History(events + [e]) && After(events + [e]) == Happened(After(events), e)
  {
    assert (events + [e])[..|events|] == events;
  }
}
