/**
  The session store: snapshots in a directory, and a pointer that is switched from one to the next.
 */
module SessionStore {
  import opened PathCodec

  type Content = nat

  /** A name in the snapshot directory: the usual form of an identifier, another spelling that parses
      to the same identifier, or a name that does not parse, such as a staging directory. */
  datatype EntryName = Snapshot(id: nat) | Spelling(id: nat, form: nat) | Staging(tag: nat)
  datatype Entry = Directory(content: Content) | NotDirectory

  /** What a run of its own quotas accepts. */
  type Validation = Content -> bool

  /** A snapshot that became current, and the validation of the run that published it. */
  datatype Published = Published(content: Content, passes: Validation)

  datatype State = State(
    entries: map<EntryName, Entry>,
    /** Temporary pointer files and what has been written to them. */
    pointers: map<nat, Option<nat>>,
    current: Option<nat>,
    /** What the last pointer switch made current. */
    latest: Option<Published>)

  /** The pointer is absent, or names an existing snapshot whose content passed the validation of the run
      that published it and is what the last switch made current. */
  ghost predicate IsSafe(s: State) {
    match s.current
    case None => s.latest == None
    case Some(id) =>
      && s.latest.Some? && s.latest.value.passes(s.latest.value.content)
      && Snapshot(id) in s.entries && s.entries[Snapshot(id)] == Directory(s.latest.value.content)
  }

  /** From position `from` on, the entry is there and the same. */
  ghost predicate KeptSince(trace: seq<State>, from: nat, name: EntryName, entry: Entry) {
    forall i :: from <= i < |trace| ==> name in trace[i].entries && trace[i].entries[name] == entry
  }

  /** All snapshots among `entries` are there and the same. */
  ghost predicate HoldsSnapshots(s: State, entries: map<EntryName, Entry>) {
    forall name: EntryName :: name.Snapshot? && name in entries ==> name in s.entries && s.entries[name] == entries[name]
  }

  lemma KeptInAll(t1: seq<State>, t2: seq<State>, from: nat, entries: map<EntryName, Entry>)
    requires t1 <= t2 && from <= |t1|
    requires forall i :: from <= i < |t1| ==> HoldsSnapshots(t1[i], entries)
    requires forall i :: |t1| <= i < |t2| ==> HoldsSnapshots(t2[i], entries)
    ensures forall name: EntryName :: name.Snapshot? && name in entries ==> KeptSince(t2, from, name, entries[name])
  {
    forall name: EntryName, i | name.Snapshot? && name in entries && from <= i < |t2|
      ensures name in t2[i].entries && t2[i].entries[name] == entries[name]
    {
      if i < |t1| {
        assert t2[i] == t1[i] && HoldsSnapshots(t1[i], entries);
      } else {
        assert HoldsSnapshots(t2[i], entries);
      }
    }
  }

  /** Which snapshot a name stands for, if any. */
  function Parsed(name: EntryName): Option<nat> {
    match name
    case Snapshot(id) => Some(id)
    case Spelling(id, _) => Some(id)
    case Staging(_) => None
  }

  ghost predicate StandsFor(name: EntryName, id: nat) {
    (name.Snapshot? && name.id == id) || (name.Spelling? && name.id == id)
  }

  /** What a cleanup may remove: a directory whose name stands for a snapshot that is neither active nor
      previous. */
  ghost predicate IsOld(name: EntryName, entry: Entry, active: nat, previous: Option<nat>) {
    entry.Directory? && exists id :: StandsFor(name, id) && id != active && previous != Some(id)
  }

  lemma OldMeans(name: EntryName, entry: Entry, active: nat, previous: Option<nat>)
    ensures IsOld(name, entry, active, previous) <==>
              entry.Directory? && Parsed(name).Some? && Parsed(name) != Some(active) && Parsed(name) != previous
  {
    if Parsed(name).Some? {
      assert StandsFor(name, Parsed(name).value);
    }
  }

  datatype RunResult = Finished | Stopped

  class SessionDisk {
    var entries: map<EntryName, Entry>
    var pointers: map<nat, Option<nat>>
    var current: Option<nat>
    ghost var latest: Option<Published>
    /** The state after every single step so far, the present one last. */
    ghost var trace: seq<State>
    /** The number of system calls that were refused. */
    ghost var faults: nat

    ghost function Now(): State
      reads this
    {
      State(entries, pointers, current, latest)
    }

    ghost predicate Valid()
      reads this
    {
      && trace != [] && trace[|trace| - 1] == Now()
      && forall i :: 0 <= i < |trace| ==> IsSafe(trace[i])
    }

    constructor ()
      ensures Valid() && current == None && entries == map[] && faults == 0
    {
      entries, pointers, current, latest, faults := map[], map[], None, None, 0;
      trace := [State(map[], map[], None, None)];
    }

    method Attempt() returns (ok: bool)
      modifies this`faults
      ensures faults == old(faults) + (if ok then 0 else 1)
    {
      ok := *;
      if !ok {
        faults := faults + 1;
      }
    }

    /** One change of the snapshot directory that leaves the active snapshot alone. */
    method SetEntries(changed: map<EntryName, Entry>)
      requires Valid()
      requires current.Some? ==> Snapshot(current.value) in changed
                                 && changed[Snapshot(current.value)] == entries[Snapshot(current.value)]
      modifies this`entries, this`trace
      ensures Valid() && entries == changed && trace == old(trace) + [Now()]
    {
      assert IsSafe(Now());
      entries := changed;
      trace := trace + [Now()];
    }

    method SetPointers(changed: map<nat, Option<nat>>)
      requires Valid()
      modifies this`pointers, this`trace
      ensures Valid() && pointers == changed && trace == old(trace) + [Now()]
    {
      assert IsSafe(Now());
      pointers := changed;
      trace := trace + [Now()];
    }

    /** Renames a complete pointer file over the pointer. */
    method SwitchPointer(id: nat, ghost passes: Validation)
      requires Valid() && id in pointers && pointers[id] == Some(id)
      requires Snapshot(id) in entries && entries[Snapshot(id)].Directory? && passes(entries[Snapshot(id)].content)
      modifies this`pointers, this`current, this`latest, this`trace
      ensures Valid() && current == Some(id) && latest == Some(Published(entries[Snapshot(id)].content, passes))
      ensures trace == old(trace) + [Now()]
    {
      current := pointers[id];
      pointers := pointers - {id};
      latest := Some(Published(entries[Snapshot(id)].content, passes));
      trace := trace + [Now()];
    }

    /** Renames the staged workspace to its place; refuses a destination that exists. */
    method PublishWorkspace(id: nat, tag: nat) returns (ok: bool)
      requires Valid() && Staging(tag) in entries && entries[Staging(tag)].Directory?
      modifies this`entries, this`trace, this`faults
      ensures faults >= old(faults) && (faults == old(faults) ==> (ok <==> Snapshot(id) !in old(entries)))
      ensures Valid() && old(trace) <= trace
      ensures forall i :: |old(trace)| <= i < |trace| ==> trace[i].entries == entries
      ensures ok ==> Snapshot(id) !in old(entries)
                     && entries == (old(entries) - {Staging(tag)})[Snapshot(id) := old(entries)[Staging(tag)]]
      ensures !ok ==> forall name :: name in old(entries) && name.Snapshot? ==> name in entries && entries[name] == old(entries)[name]
    {
      assert IsSafe(Now());
      ok := Attempt();
      if !ok {
        return;
      }
      if Snapshot(id) in entries {
        return false;
      }
      SetEntries((entries - {Staging(tag)})[Snapshot(id) := entries[Staging(tag)]]);
      ok := Attempt();
    }

    /** Switches the pointer by way of a complete temporary file. */
    method Activate(id: nat, ghost passes: Validation) returns (ok: bool)
      requires Valid()
      requires Snapshot(id) in entries && entries[Snapshot(id)].Directory? && passes(entries[Snapshot(id)].content)
      modifies this`pointers, this`current, this`latest, this`trace, this`faults
      ensures Valid() && old(trace) <= trace
      ensures faults >= old(faults) && (faults == old(faults) ==> (ok <==> id !in old(pointers)))
      ensures forall i :: |old(trace)| <= i < |trace| ==> trace[i].entries == entries
      ensures ok ==> current == Some(id)
      ensures || (latest == old(latest) && current == old(current))
              || (latest == Some(Published(entries[Snapshot(id)].content, passes)) && current == Some(id))
    {
      hide IsSafe;
      ok := WritePointer(id);
      if ok {
        SwitchPointer(id, passes);
        ok := Attempt();
      }
    }

    /** Writes a temporary pointer file, and prepares to rename it. */
    method WritePointer(id: nat) returns (ok: bool)
      requires Valid()
      modifies this`pointers, this`trace, this`faults
      ensures Valid() && old(trace) <= trace
      ensures faults >= old(faults) && (faults == old(faults) ==> (ok <==> id !in old(pointers)))
      ensures forall i :: |old(trace)| <= i < |trace| ==> trace[i].entries == entries
      ensures ok ==> id in pointers && pointers[id] == Some(id)
    {
      hide IsSafe;
      ok := Attempt();
      if !ok {
        return;
      }
      if id in pointers {
        return false;
      }
      SetPointers(pointers[id := None]);
      ok := Attempt();
      if ok {
        SetPointers(pointers[id := Some(id)]);
        ok := Attempt();
      }
      if !ok {
        var removed := Attempt();
        if removed {
          SetPointers(pointers - {id});
        }
      }
    }

    /** Removes what is neither active nor previous, as far as the system lets it, and touches nothing else. */
    method CleanupOldSnapshots(active: nat, previous: Option<nat>)
      requires Valid() && current == Some(active)
      modifies this`entries, this`trace, this`faults
      ensures faults >= old(faults)
      ensures faults == old(faults) ==> forall name :: name in entries ==> !IsOld(name, entries[name], active, previous)
      ensures Valid() && old(trace) <= trace
      ensures forall name :: name in old(entries) && !IsOld(name, old(entries)[name], active, previous) ==>
                name in entries && entries[name] == old(entries)[name]
                && KeptSince(trace, |old(trace)|, name, entries[name])
    {
      hide IsOld;
      var readable := Attempt();
      if !readable {
        return;
      }
      var rest := entries.Keys;
      while rest != {}
        invariant Valid() && rest <= old(entries).Keys && faults >= old(faults)
        invariant old(trace) <= trace && entries.Keys <= old(entries).Keys
        invariant forall name :: name in rest && name in entries ==> entries[name] == old(entries)[name]
        invariant forall name :: name in old(entries) && !IsOld(name, old(entries)[name], active, previous) ==>
                    name in entries && entries[name] == old(entries)[name]
                    && KeptSince(trace, |old(trace)|, name, old(entries)[name])
        invariant faults == old(faults) ==>
                    forall name :: name in entries && name !in rest ==> !IsOld(name, entries[name], active, previous)
      {
        var name :| name in rest;
        rest := rest - {name};
        var id := Parsed(name);
        OldMeans(name, old(entries)[name], active, previous);
        ActiveIsNotOld(old(entries), active, previous);
        if id.None? || id.value == active || id == previous || name !in entries || entries[name].NotDirectory? {
          continue;
        }
        var removed := Attempt();
        var left := *;
        SetEntries(if removed then entries - {name} else entries[name := Directory(left)]);
      }
    }

    /** Validates what came back, in a staging directory, and renames that to its place. */
    method PublishSnapshot(returned: Content, passes: Validation, id: nat, tag: nat) returns (ok: bool)
      requires Valid()
      modifies this`entries, this`trace, this`faults
      ensures Valid() && old(trace) <= trace
      ensures faults >= old(faults)
      ensures faults == old(faults) ==>
                (ok <==> passes(returned) && Snapshot(id) !in old(entries) && Staging(tag) !in old(entries))
      ensures ok ==> passes(returned) && Snapshot(id) !in old(entries)
                     && Snapshot(id) in entries && entries[Snapshot(id)] == Directory(returned)
      ensures forall name: EntryName :: name.Snapshot? && name in old(entries) ==>
                name in entries && entries[name] == old(entries)[name]
                && KeptSince(trace, |old(trace)|, name, entries[name])
    {
      hide IsSafe;
      ok := StageReturned(returned, passes, tag);
      ghost var t1 := trace;
      if !ok {
        return;
      }
      ok := PublishWorkspace(id, tag);
      if !ok {
        DropStaging(tag);
      }
      KeptInAll(t1, trace, |old(trace)|, old(entries));
    }

    /** Copies what came back into a staging directory of its own and validates the copy. */
    method StageReturned(returned: Content, passes: Validation, tag: nat) returns (ok: bool)
      requires Valid()
      modifies this`entries, this`trace, this`faults
      ensures Valid() && old(trace) <= trace && faults >= old(faults)
      ensures faults == old(faults) ==> (ok <==> passes(returned) && Staging(tag) !in old(entries))
      ensures ok ==> passes(returned) && Staging(tag) !in old(entries)
                     && entries == old(entries)[Staging(tag) := Directory(returned)]
      ensures HoldsSnapshots(State(entries, pointers, current, latest), old(entries))
      ensures forall i :: |old(trace)| <= i < |trace| ==> HoldsSnapshots(trace[i], old(entries))
    {
      hide IsSafe;
      PreviousIsThere(Now());
      ok := Attempt();
      if !ok {
        return;
      }
      if Staging(tag) in entries {
        return false;
      }
      SetEntries(entries[Staging(tag) := Directory(returned)]);
      ok := Attempt();
      if !ok || !passes(returned) {
        DropStaging(tag);
        return false;
      }
    }

    /** Publishes what came back, switches the pointer and cleans up. */
    method Publish(previous: Option<nat>, returned: Content, passes: Validation, id: nat, tag: nat) returns (r: RunResult)
      requires Valid() && previous == current
      modifies this
      ensures Valid() && old(trace) <= trace && faults >= old(faults)
      ensures faults == old(faults) ==>
                (r.Finished? <==> && passes(returned) && id !in old(pointers)
                                  && Snapshot(id) !in old(entries) && Staging(tag) !in old(entries))
      ensures faults == old(faults) && r.Finished? ==>
                forall name :: name in entries ==> !IsOld(name, entries[name], id, previous)
      ensures r.Finished? ==> passes(returned) && current == Some(id) && latest == Some(Published(returned, passes))
      ensures || (current == old(current) && latest == old(latest))
              || (passes(returned) && current == Some(id) && latest == Some(Published(returned, passes)) && Snapshot(id) !in old(entries))
      ensures previous.Some? ==>
                KeptSince(trace, |old(trace)|, Snapshot(previous.value), old(entries)[Snapshot(previous.value)])
    {
      hide IsSafe, KeptSince;
      r := Stopped;
      PreviousIsThere(Now());
      var ok := PublishSnapshot(returned, passes, id, tag);
      if !ok {
        return;
      }
      ghost var t1 := trace;
      ok := Activate(id, passes);
      KeptWhileSame(t1, trace, |old(trace)|, entries);
      if !ok {
        return;
      }
      ghost var t2 := trace;
      CleanupOldSnapshots(id, previous);
      ActiveIsNotOld(entries, id, previous);
      if previous.Some? {
        KeptJoin(t2, trace, |old(trace)|, Snapshot(previous.value), entries[Snapshot(previous.value)]);
      }
      r := Finished;
    }

    method DropStaging(tag: nat)
      requires Valid()
      modifies this`entries, this`trace, this`faults
      ensures faults >= old(faults)
      ensures Valid() && old(trace) <= trace
      ensures forall i :: |old(trace)| <= i < |trace| ==> trace[i].entries == entries
      ensures forall name: EntryName :: name.Snapshot? ==> (name in entries <==> name in old(entries))
      ensures forall name: EntryName :: name.Snapshot? && name in entries ==> entries[name] == old(entries)[name]
    {
      PreviousIsThere(Now());
      var removed := Attempt();
      if removed {
        SetEntries(entries - {Staging(tag)});
      }
    }

    /** Opens the store under the validation of the present run; `resumable` says of which stored content the
        session to be resumed, if any, is a part. Without refused calls this fails exactly if the present run
        no longer accepts what an earlier one published, or that session is missing. */
    method Open(passes: Validation, resumable: Option<Content> -> bool) returns (ok: bool, previous: Option<nat>, content: Option<Content>)
      requires Valid()
      modifies this`faults
      ensures faults >= old(faults)
      ensures faults == old(faults) ==>
                (ok <==> match latest
                         case None => resumable(None)
                         case Some(published) => passes(published.content) && resumable(Some(published.content)))
      ensures ok ==> previous == current && (content.Some? <==> latest.Some?)
      ensures ok && content.Some? ==> content.value == latest.value.content && passes(content.value)
    {
      PreviousIsThere(Now());
      ok := Attempt();
      previous, content := current, None;
      if ok && previous.Some? {
        if Snapshot(previous.value) !in entries || entries[Snapshot(previous.value)].NotDirectory? {
          return false, previous, None;
        }
        content := Some(entries[Snapshot(previous.value)].content);
        ok := passes(content.value);
      }
      ok := ok && resumable(content);
    }
  }

  lemma ActiveIsNotOld(entries: map<EntryName, Entry>, active: nat, previous: Option<nat>)
    ensures Snapshot(active) in entries ==> !IsOld(Snapshot(active), entries[Snapshot(active)], active, previous)
    ensures previous.Some? && Snapshot(previous.value) in entries ==>
              !IsOld(Snapshot(previous.value), entries[Snapshot(previous.value)], active, previous)
  {
  }

  lemma PreviousIsThere(s: State)
    requires IsSafe(s)
    ensures s.current.Some? ==>
              && s.latest.Some? && s.latest.value.passes(s.latest.value.content)
              && Snapshot(s.current.value) in s.entries
              && s.entries[Snapshot(s.current.value)] == Directory(s.latest.value.content)
    ensures s.current.None? ==> s.latest == None
  {
  }

  lemma KeptJoin(t1: seq<State>, t2: seq<State>, from: nat, name: EntryName, entry: Entry)
    requires t1 <= t2 && from <= |t1|
    requires KeptSince(t1, from, name, entry) && KeptSince(t2, |t1|, name, entry)
    ensures KeptSince(t2, from, name, entry)
  {
    assert forall i :: from <= i < |t1| ==> t2[i] == t1[i];
  }

  lemma KeptWhileSame(t1: seq<State>, t2: seq<State>, from: nat, entries: map<EntryName, Entry>)
    requires t1 <= t2 && from <= |t1|
    requires forall i :: |t1| <= i < |t2| ==> t2[i].entries == entries
    ensures forall name :: name in entries && KeptSince(t1, from, name, entries[name]) ==>
              KeptSince(t2, from, name, entries[name])
  {
    forall name | name in entries && KeptSince(t1, from, name, entries[name])
      ensures KeptSince(t2, from, name, entries[name])
    {
      KeptJoin(t1, t2, from, name, entries[name]);
    }
  }

  /** One run: its validation, what it resumes, what comes back from it, and the names it draws. */
  datatype Session = Session(passes: Validation, resumable: Option<Content> -> bool, returned: Content, id: nat, tag: nat)

  ghost predicate IsPublishedBy(published: Published, session: Session) {
    published == Published(session.returned, session.passes) && session.passes(session.returned)
  }

  /** Any number of runs one after the other, each with quotas of its own and each of which may stop at any
      step: in every state on the way the pointer is safe, and what is current in the end was returned by
      one of the runs and passed its validation, or was current before. */
  method RunSessions(disk: SessionDisk, sessions: seq<Session>)
    requires disk.Valid()
    modifies disk
    ensures disk.Valid()
    ensures old(disk.trace) <= disk.trace
    ensures forall i :: 0 <= i < |disk.trace| ==> IsSafe(disk.trace[i])
    ensures || disk.latest == old(disk.latest)
            || exists k :: 0 <= k < |sessions| && disk.latest.Some? && IsPublishedBy(disk.latest.value, sessions[k])
  {
    hide IsSafe, KeptSince;
    for i := 0 to |sessions|
      invariant disk.Valid()
      invariant old(disk.trace) <= disk.trace
      invariant || disk.latest == old(disk.latest)
                || exists k :: 0 <= k < |sessions| && disk.latest.Some? && IsPublishedBy(disk.latest.value, sessions[k])
    {
      var session := sessions[i];
      var ok, previous, _ := disk.Open(session.passes, session.resumable);
      if ok {
        var _ := disk.Publish(previous, session.returned, session.passes, session.id, session.tag);
        assert disk.latest == Some(Published(session.returned, session.passes)) && session.passes(session.returned) ==>
            IsPublishedBy(disk.latest.value, sessions[i]);
      }
    }
  }
}
