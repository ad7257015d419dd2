/**
  The whole of `apply_exported_changes`: what a run leaves behind on every way out.
 */
module ChangeApply {
  import opened PathCodec
  import opened HostTree
  import opened Manifest
  import opened SimpleUpdate
  import opened Ledger
  import opened Transaction
  import opened Outcome
  import opened Sorting

  // ---------------------------------------------------------------------------------------------
  // Refinement of the plain update
  // ---------------------------------------------------------------------------------------------

  /** Apart from occupied rollback slots the tree looks like the plain update of the starting tree,
      and every starting node whose path was not changed is in place. */
  ghost predicate Refines(g: State, actions: seq<Action>, steps: seq<Step>) {
    && ViewOf(g.clean - Slots(actions)) == Updated(ViewOf(g.start), steps)
    && (forall q :: q in g.start && q !in PathsOf(steps) ==>
          q in g.clean && g.clean[q] == g.start[q] && q !in Slots(actions))
  }

  lemma UpdatedPush(v: View, steps: seq<Step>, s: Step)
    ensures Updated(v, steps + [s]) == Updated1(Updated(v, steps), s)
  {
    assert (steps + [s])[..|steps|] == steps;
  }

  lemma PathsPush(steps: seq<Step>, s: Step)
    ensures forall q :: q in PathsOf(steps + [s]) <==> q in PathsOf(steps) || q == s.path
  {
    forall q
      ensures q in PathsOf(steps + [s]) <==> q in PathsOf(steps) || q == s.path
    {
      if q in PathsOf(steps) {
        var t :| t in steps && t.path == q;
        assert t in steps + [s];
      }
      assert s in steps + [s];
    }
  }

  lemma ViewAfterAdd(t0: Tree, t1: Tree, slots: set<Path>, path: Path, n: Node, bytes: Bytes, executable: bool)
    requires GrewTowards(t0, t1, path) && ParentsAreDirectories(t1, path, |path|)
    requires forall q :: q in slots ==> q in t0 && t0[q].File?
    requires path !in t1 && path !in slots && ContentOf(n) == Regular(bytes, StandardMode(executable))
    ensures ViewOf(t1[path := n] - slots) == Updated1(ViewOf(t0 - slots), Put(path, bytes, executable))
  {
    var v, w := ViewOf(t0 - slots), ViewOf(t1[path := n] - slots);
    var u := Updated1(v, Put(path, bytes, executable));
    forall q
      ensures q in w <==> q in u
      ensures q in w ==> w[q] == u[q]
    {
      if q in Ancestors(path) {
        var k :| 0 < k < |path| && q == path[..k];
        assert q in t1 && t1[q].Dir?;
        assert q !in slots;
      }
    }
  }

  lemma ViewAfterDelete(t: Tree, slots: set<Path>, path: Path, slot: Path)
    requires path in t && slot !in t && path !in slots
    ensures ViewOf(Moved(t, path, slot) - (slots + {slot})) == Updated1(ViewOf(t - slots), Remove(path))
  {
  }

  lemma ViewAfterModify(t: Tree, slots: set<Path>, path: Path, slot: Path, n: Node, bytes: Bytes)
    requires path in t && t[path].File? && slot !in t && path !in slots && slot != path
    requires ContentOf(n) == Regular(bytes, PermissionBits(t[path].mode))
    ensures ViewOf(Moved(t, path, slot)[path := n] - (slots + {slot})) == Updated1(ViewOf(t - slots), Replace(path, bytes))
  {
    var v := ViewOf(t - slots);
    assert path in v && v[path] == Regular(t[path].bytes, t[path].mode);
  }

  lemma SlotsAreNotLeaves(g: State, actions: seq<Action>, created: seq<Path>, leaves: set<Path>)
    requires Sound(g, actions, created, leaves)
    ensures Slots(actions) !! leaves
    ensures forall q :: q in Slots(actions) ==> q in g.clean && g.clean[q].File? && q !in g.start
  {
    hide Tracks, Linked, Reverts, IsBase;
    forall q | q in Slots(actions)
      ensures q !in leaves && q !in g.start
    {
      var i :| 0 <= i < |actions| && actions[i].backup.Some? && actions[i].backup.value == q;
      assert IsGoodAction(g.start, leaves, actions[i]);
    }
  }

  lemma RefinesAdd(files: Tree, c: Change, g0: State, g1: State, g: State, actions0: seq<Action>, actions: seq<Action>,
                   created: seq<Path>, leaves: set<Path>, steps: seq<Step>)
    requires Sound(g0, actions0, created, leaves) && Refines(g0, actions0, steps)
    requires c.record.kind == Added && c.path in leaves && g1.start == g0.start && g.start == g0.start
    requires GrewTowards(g0.clean, g1.clean, c.path) && ParentsAreDirectories(g1.clean, c.path, |c.path|)
    requires DidAdd(files, c, g1, g, actions0, actions)
    ensures Refines(g, actions, steps + [StepOf(files, c)])
  {
    hide Sound, Updated, Updated1, ViewOf, ParentsAreDirectories, StandardMode;
    SlotsAreNotLeaves(g0, actions0, created, leaves);
    SlotsPush(actions0, actions[|actions| - 1]);
    assert Slots(actions) == Slots(actions0);
    ViewAfterAdd(g0.clean, g1.clean, Slots(actions0), c.path, g.clean[c.path],
                 ExportedBytes(files, c.path), c.record.executable == Some(true));
    UpdatedPush(ViewOf(g.start), steps, StepOf(files, c));
    PathsPush(steps, StepOf(files, c));
  }

  lemma RefinesDelete(files: Tree, c: Change, g0: State, g: State, actions0: seq<Action>, actions: seq<Action>,
                      created: seq<Path>, leaves: set<Path>, slot: Path, steps: seq<Step>)
    requires Sound(g0, actions0, created, leaves) && Refines(g0, actions0, steps)
    requires c.record.kind == Deleted && c.path in leaves && g.start == g0.start
    requires DidDelete(c, g0, g, actions0, actions, slot)
    ensures Refines(g, actions, steps + [StepOf(files, c)])
  {
    hide Sound, Updated, Updated1, ViewOf, GrewTowards, ParentsAreDirectories, StandardMode;
    SlotsAreNotLeaves(g0, actions0, created, leaves);
    SlotsPush(actions0, actions[|actions| - 1]);
    assert Slots(actions) == Slots(actions0) + {slot};
    ViewAfterDelete(g0.clean, Slots(actions0), c.path, slot);
    UpdatedPush(ViewOf(g.start), steps, StepOf(files, c));
    PathsPush(steps, StepOf(files, c));
  }

  lemma RefinesModify(files: Tree, c: Change, g0: State, g: State, actions0: seq<Action>, actions: seq<Action>,
                      created: seq<Path>, leaves: set<Path>, slot: Path, steps: seq<Step>)
    requires Sound(g0, actions0, created, leaves) && Refines(g0, actions0, steps)
    requires c.record.kind == Modified && c.path in leaves && g.start == g0.start
    requires DidModify(files, c, g0, g, actions0, actions, slot)
    ensures Refines(g, actions, steps + [StepOf(files, c)])
  {
    hide Sound, Updated, Updated1, ViewOf, GrewTowards, ParentsAreDirectories, StandardMode;
    SlotsAreNotLeaves(g0, actions0, created, leaves);
    SlotsPush(actions0, actions[|actions| - 1]);
    assert Slots(actions) == Slots(actions0) + {slot};
    ViewAfterModify(g0.clean, Slots(actions0), c.path, slot, g.clean[c.path], ExportedBytes(files, c.path));
    UpdatedPush(ViewOf(g.start), steps, StepOf(files, c));
    PathsPush(steps, StepOf(files, c));
  }

  // ---------------------------------------------------------------------------------------------
  // The forward loop
  // ---------------------------------------------------------------------------------------------

  function CountKind(plan: seq<Change>, kind: ChangeKind): (n: nat)
    ensures n <= |plan|
  {
    if plan == [] then 0
    else CountKind(plan[..|plan| - 1], kind) + (if plan[|plan| - 1].record.kind == kind then 1 else 0)
  }

  /** The three counts of a report always add up to the number of changes. */
  lemma {:induction false} CountsAddUp(plan: seq<Change>)
    ensures CountKind(plan, Added) + CountKind(plan, Modified) + CountKind(plan, Deleted) == |plan|
  {
    if plan != [] {
      CountsAddUp(plan[..|plan| - 1]);
    }
  }

  lemma {:induction false} CountOfInsert(c: Change, s: seq<Change>, kind: ChangeKind)
    ensures CountKind(Insert(c, s, ChangeLe), kind) == CountKind(s, kind) + (if c.record.kind == kind then 1 else 0)
  {
    if s != [] {
      var front, last := s[..|s| - 1], s[|s| - 1];
      if ChangeLe(last, c) {
        assert (s + [c])[..|s|] == s;
      } else {
        CountOfInsert(c, front, kind);
        var t := Insert(c, front, ChangeLe);
        assert (t + [last])[..|t|] == t;
      }
    }
  }

  lemma {:induction false} CountOfPlan(records: seq<ChangeRecord>, kind: ChangeKind)
    ensures CountKind(Sort(ResolvedAll(records), ChangeLe), kind) == CountRecords(records, kind)
  {
    if records != [] {
      var front, last := records[..|records| - 1], records[|records| - 1];
      CountOfPlan(front, kind);
      var all := ResolvedAll(records);
      assert all[..|all| - 1] == ResolvedAll(front);
      CountOfInsert(Resolved(last), Sort(ResolvedAll(front), ChangeLe), kind);
    }
  }

  function ReportOf(plan: seq<Change>): ApplyReport {
    ApplyReport(CountKind(plan, Added), CountKind(plan, Modified), CountKind(plan, Deleted))
  }

  // ---------------------------------------------------------------------------------------------
  // When a change must go through
  // ---------------------------------------------------------------------------------------------

  /** Nothing but a refused call or a taken name can stop this change. */
  ghost predicate IsReady(t: Tree, files: Tree, baseline: AuditManifest, c: Change) {
    && Enterable(t, c.path) && ExportClear(files, c)
    && if c.record.kind == Added then c.path !in t else HoldsBaseline(t, baseline, c)
  }

  ghost predicate ReadyFrom(t: Tree, files: Tree, baseline: AuditManifest, plan: seq<Change>, i: nat) {
    forall j :: i <= j < |plan| ==> IsReady(t, files, baseline, plan[j])
  }

  ghost predicate DistinctTargets(plan: seq<Change>) {
    forall i, j :: 0 <= i < j < |plan| ==> plan[i].path != plan[j].path
  }

  /** Every directory that is already on the way to a changed path can be trusted. */
  ghost predicate TrustedParents(t: Tree, plan: seq<Change>) {
    forall c, k :: c in plan && 0 < k < |c.path| && c.path[..k] in t && t[c.path[..k]].Dir? ==> t[c.path[..k]].trusted
  }

  /** The directories on the way to the changed paths are the ones of the start. */
  ghost predicate KeepsParents(start: Tree, t: Tree, plan: seq<Change>) {
    forall c, k :: c in plan && 0 < k < |c.path| && c.path[..k] in start ==>
      c.path[..k] in t && t[c.path[..k]] == start[c.path[..k]]
  }

  lemma ParentsAtStart(start: Tree, plan: seq<Change>)
    ensures KeepsParents(start, start, plan) && TrustedParents(start, plan[..0])
  {
  }

  lemma ParentsStay(start: Tree, t: Tree, t': Tree, files: Tree, plan: seq<Change>, i: nat, avoid: set<Name>)
    requires i < |plan| && NotNested(StepsOf(files, plan))
    requires KeepsParents(start, t, plan) && TouchesOnly(t, t', plan[i].path, avoid) && Enterable(t, plan[i].path)
    requires TrustedParents(start, plan[..i])
    ensures KeepsParents(start, t', plan) && TrustedParents(start, plan[..i + 1])
  {
    forall c, k | c in plan && 0 < k < |c.path| && c.path[..k] in start
      ensures c.path[..k] in t' && t'[c.path[..k]] == start[c.path[..k]]
    {
      assert plan[i] in plan;
      PlannedPairIsNotNested(files, plan, plan[i], c);
      assert c.path[..k] < c.path;
    }
    forall c, k | c in plan[..i + 1] && 0 < k < |c.path| && c.path[..k] in start && start[c.path[..k]].Dir?
      ensures start[c.path[..k]].trusted
    {
      assert c in plan[..i] || c == plan[i];
    }
  }

  /** Only the path, new directories on the way to it, and names outside `avoid` were touched. */
  ghost predicate TouchesOnly(t: Tree, t': Tree, path: Path, avoid: set<Name>) {
    && (forall q :: q in t && q != path ==> q in t' && t'[q] == t[q])
    && (forall q :: q in t' && q !in t && q != path && q != [] ==>
          Leaf(q) !in avoid || (t'[q].Dir? && t'[q].trusted && q in Ancestors(path)))
  }

  /** One entry was logged, and what it set aside is what was at the path. */
  ghost predicate LogsOriginal(t: Tree, t': Tree, path: Path, actions0: seq<Action>, actions: seq<Action>) {
    && |actions| == |actions0| + 1 && actions[..|actions0|] == actions0 && actions[|actions0|].leaf == path
    && (actions[|actions0|].backup.Some? ==>
          path in t && actions[|actions0|].backup.value in t' && t'[actions[|actions0|].backup.value] == t[path])
  }

  /** Every slot holds the node that its path started with. */
  ghost predicate SlotsHold(start: Tree, t: Tree, actions: seq<Action>) {
    forall i :: 0 <= i < |actions| && actions[i].backup.Some? ==>
      && actions[i].leaf in start && actions[i].backup.value in t
      && t[actions[i].backup.value] == start[actions[i].leaf]
  }

  /** At the paths of the changes to come nothing was touched yet. */
  ghost predicate KeepsTargets(start: Tree, t: Tree, plan: seq<Change>, i: nat) {
    forall j :: i <= j < |plan| && plan[j].path in t ==> plan[j].path in start && t[plan[j].path] == start[plan[j].path]
  }

  lemma SlotsPushed(start: Tree, t: Tree, t': Tree, plan: seq<Change>, i: nat, avoid: set<Name>,
                    actions0: seq<Action>, actions: seq<Action>)
    requires i < |plan| && DistinctTargets(plan) && AvoidedNames(plan) == avoid
    requires forall j :: 0 <= j < |plan| ==> plan[j].path != []
    requires forall j :: 0 <= j < |plan| ==> plan[j].path !in Ancestors(plan[i].path)
    requires forall k :: 0 <= k < |actions0| && actions0[k].backup.Some? ==> actions0[k].backup.value != plan[i].path
    requires KeepsTargets(start, t, plan, i) && SlotsHold(start, t, actions0)
    requires TouchesOnly(t, t', plan[i].path, avoid) && LogsOriginal(t, t', plan[i].path, actions0, actions)
    ensures KeepsTargets(start, t', plan, i + 1) && SlotsHold(start, t', actions)
  {
    forall j | i + 1 <= j < |plan| && plan[j].path in t'
      ensures plan[j].path in t
    {
      var q := plan[j].path;
      assert q != plan[i].path;
      assert plan[j] in plan && Leaf(q) == plan[j].path[|q| - 1];
      assert Leaf(q) in avoid;
    }
    forall k | 0 <= k < |actions0|
      ensures actions[k] == actions0[k]
    {
      assert actions[k] == actions[..|actions0|][k];
    }
  }

  lemma ParentsOfPresent(t: Tree, path: Path)
    requires WellFormed(t) && path in t && Enterable(t, path)
    ensures ParentsAreDirectories(t, path, |path|)
  {
    ResolvePresent(t, path);
    forall k | 0 < k < |path|
      ensures path[..k] in t && t[path[..k]].Dir? && t[path[..k]].trusted
    {
      ResolvedAncestors(t, path, k);
      FoundIsPresent(t, path[..k]);
    }
  }

  lemma ClearIsReady(t: Tree, files: Tree, baseline: AuditManifest, plan: seq<Change>)
    requires WellFormed(t) && AllClear(t, files, baseline, plan) && TrustedParents(t, plan)
    requires forall i :: 0 <= i < |plan| ==> plan[i].path != []
    ensures ReadyFrom(t, files, baseline, plan, 0)
  {
    hide MatchesBaseline, MatchesExport;
    forall i | 0 <= i < |plan|
      ensures IsReady(t, files, baseline, plan[i])
    {
      var c := plan[i];
      assert SourceClear(t, baseline, c) && ExportClear(files, c);
      forall k | 0 < k < |c.path| && c.path[..k] in t
        ensures t[c.path[..k]].Dir? && t[c.path[..k]].trusted
      {
        ResolvedAncestors(t, c.path, k);
        ResolvePresent(t, c.path[..k]);
        assert c in plan;
      }
      if c.record.kind == Added {
        ResolveAbsent(t, c.path);
      } else {
        FoundIsPresent(t, c.path);
      }
    }
  }

  /** A change does not get in the way of another one on an unrelated path. */
  lemma ReadyKept(t: Tree, t': Tree, files: Tree, baseline: AuditManifest, path: Path, d: Change, avoid: set<Name>)
    requires TouchesOnly(t, t', path, avoid) && IsReady(t, files, baseline, d)
    requires path != d.path && !(path < d.path) && !(d.path < path) && d.path != []
    requires forall k :: 0 <= k < |d.path| ==> d.path[k] in avoid
    ensures IsReady(t', files, baseline, d)
  {
    hide MatchesBaseline, ExportClear;
    forall k | 0 < k <= |d.path| && d.path[..k] in t' && d.path[..k] !in t
      ensures k < |d.path| && t'[d.path[..k]].Dir? && t'[d.path[..k]].trusted
    {
      var q := d.path[..k];
      assert Leaf(q) == d.path[k - 1];
      assert q <= d.path && q != path;
      assert q in Ancestors(path);
      AncestorIsPrefix(q, path);
    }
    forall k | 0 < k < |d.path| && d.path[..k] in t'
      ensures t'[d.path[..k]].Dir? && t'[d.path[..k]].trusted
    {
      assert d.path[..k] != path;
    }
    assert d.path[..|d.path|] == d.path;
  }

  method ApplyChange(host: Host, files: Tree, baseline: AuditManifest, c: Change,
                     actions0: seq<Action>, created0: seq<Path>, avoid: set<Name>,
                     ghost g0: State, ghost leaves: set<Path>, ghost before: seq<Tree>, ghost steps: seq<Step>)
    returns (r: Result<()>, actions: seq<Action>, created: seq<Path>, ghost g: State, ghost temp: Option<Path>)
    requires c.path != [] && c.path in leaves && Covers(avoid, leaves) && [] !in leaves
    requires c.record.kind == Added ==> Ancestors(c.path) !! leaves
    requires InProgress(host, g0, actions0, created0, leaves, None, before)
    requires Refines(g0, actions0, steps)
    modifies host
    ensures host.faults >= old(host.faults) && (r.Err? && temp.Some? ==> host.faults > old(host.faults))
    ensures InProgress(host, g, actions, created, leaves, temp, before) && g.start == g0.start
    ensures r.Ok? ==> temp.None? && Refines(g, actions, steps + [StepOf(files, c)])
    ensures r.Ok? ==> TouchesOnly(g0.clean, g.clean, c.path, avoid) && Enterable(g0.clean, c.path)
    ensures r.Ok? ==> LogsOriginal(g0.clean, g.clean, c.path, actions0, actions)
    ensures r.Err? ==> r.error in {Io, UnsafeManifest, UnsafeExport, Conflict}
    ensures host.faults == old(host.faults) && host.lucky && IsReady(g0.clean, files, baseline, c) ==> r.Ok?
  {
    hide Sound, SafeSince, Refines, ExportClear, HoldsBaseline, Covers, StepOf, StandardMode, ExportedBytes, TouchesOnly,
      Enterable, ParentsAreDirectories, GrewTowards, DidAdd, DidModify, DidDelete, IsReady;
    actions, temp := actions0, None;
    WayIsClear(g0.clean, files, baseline, c);
    r, created, g := OpenParent(host, c.path, c.record.kind == Added, created0, g0, actions0, leaves, before);
    if r.Err? {
      return;
    }
    ghost var parents, slot := g, [];
    AfterParents(g0.clean, g.clean, c.path);
    match c.record.kind {
      case Added =>
        r, actions, g, temp := ApplyAdded(host, files, c, actions, avoid, g, created, leaves, before);
        if r.Ok? {
          RefinesAdd(files, c, g0, parents, g, actions0, actions, created0, leaves, steps);
          TouchesAdd(files, c, g0, parents, g, actions0, actions, avoid);
        }
      case Modified =>
        r, actions, g, temp, slot := ApplyModified(host, files, baseline, c, actions, avoid, g, created, leaves, before);
        if r.Ok? {
          RefinesModify(files, c, g0, g, actions0, actions, created0, leaves, slot, steps);
          TouchesModify(files, c, g0, g, actions0, actions, slot, avoid);
        }
      case Deleted =>
        r, actions, g, slot := ApplyDeleted(host, baseline, c, actions, avoid, g, created, leaves, before);
        if r.Ok? {
          RefinesDelete(files, c, g0, g, actions0, actions, created0, leaves, slot, steps);
          TouchesDelete(c, g0, g, actions0, actions, slot, avoid);
        }
    }
  }

  lemma WayIsClear(t: Tree, files: Tree, baseline: AuditManifest, c: Change)
    requires WellFormed(t)
    ensures IsReady(t, files, baseline, c) ==>
              && Enterable(t, c.path) && ExportClear(files, c)
              && (c.record.kind == Added ==> c.path !in t)
              && (c.record.kind != Added ==> HoldsBaseline(t, baseline, c) && ParentsAreDirectories(t, c.path, |c.path|))
  {
    hide MatchesBaseline, ExportClear;
    if IsReady(t, files, baseline, c) && c.path in t {
      ParentsOfPresent(t, c.path);
    }
  }

  lemma AfterParents(t: Tree, t': Tree, path: Path)
    requires path != [] && GrewTowards(t, t', path) && ParentsAreDirectories(t', path, |path|)
    ensures Enterable(t, path) && Enterable(t', path) && IsDirectory(t', Parent(path))
    ensures path !in t ==> path !in t'
  {
    ParentIsDirectory(t', path);
  }

  lemma TouchesAdd(files: Tree, c: Change, g0: State, g1: State, g: State, actions0: seq<Action>, actions: seq<Action>, avoid: set<Name>)
    requires GrewTowards(g0.clean, g1.clean, c.path) && DidAdd(files, c, g1, g, actions0, actions)
    ensures TouchesOnly(g0.clean, g.clean, c.path, avoid)
    ensures LogsOriginal(g0.clean, g.clean, c.path, actions0, actions)
  {
  }

  lemma TouchesModify(files: Tree, c: Change, g0: State, g: State, actions0: seq<Action>, actions: seq<Action>, slot: Path, avoid: set<Name>)
    requires slot != [] && Leaf(slot) !in avoid && DidModify(files, c, g0, g, actions0, actions, slot)
    ensures TouchesOnly(g0.clean, g.clean, c.path, avoid)
    ensures LogsOriginal(g0.clean, g.clean, c.path, actions0, actions)
  {
  }

  lemma TouchesDelete(c: Change, g0: State, g: State, actions0: seq<Action>, actions: seq<Action>, slot: Path, avoid: set<Name>)
    requires slot != [] && Leaf(slot) !in avoid && DidDelete(c, g0, g, actions0, actions, slot)
    ensures TouchesOnly(g0.clean, g.clean, c.path, avoid)
    ensures LogsOriginal(g0.clean, g.clean, c.path, actions0, actions)
  {
  }

  lemma ParentIsDirectory(t: Tree, path: Path)
    requires path != [] && ParentsAreDirectories(t, path, |path|)
    ensures IsDirectory(t, Parent(path)) && path !in Ancestors(path)
  {
    if |path| > 1 {
      assert Parent(path) == path[..|path| - 1];
    }
  }

  lemma ParentsAvoidLeaves(files: Tree, plan: seq<Change>, c: Change)
    requires NotNested(StepsOf(files, plan)) && c in plan
    ensures Ancestors(c.path) !! Leaves(plan)
  {
    forall d | d in plan
      ensures d.path !in Ancestors(c.path)
    {
      AncestorIsPrefix(d.path, c.path);
      PlannedPairIsNotNested(files, plan, d, c);
    }
  }

  lemma PlannedPairIsNotNested(files: Tree, plan: seq<Change>, d: Change, c: Change)
    requires NotNested(StepsOf(files, plan)) && c in plan && d in plan
    ensures !(d.path < c.path)
  {
    var i :| 0 <= i < |plan| && plan[i] == d;
    var j :| 0 <= j < |plan| && plan[j] == c;
    assert !(StepsOf(files, plan)[i].path < StepsOf(files, plan)[j].path);
  }

  lemma PlanNames(plan: seq<Change>)
    requires forall i :: 0 <= i < |plan| ==> plan[i].path != []
    ensures Covers(AvoidedNames(plan), Leaves(plan)) && [] !in Leaves(plan)
    ensures forall c :: c in plan ==> c.path in Leaves(plan) && c.path != []
  {
  }

  lemma PlanOfNothing(files: Tree, plan: seq<Change>)
    ensures StepsOf(files, plan[..0]) == [] && ReportOf(plan[..0]) == ApplyReport(0, 0, 0)
  {
  }

  lemma PlanPush(files: Tree, plan: seq<Change>, i: nat)
    requires i < |plan|
    ensures StepsOf(files, plan[..i + 1]) == StepsOf(files, plan[..i]) + [StepOf(files, plan[i])]
    ensures forall k :: CountKind(plan[..i + 1], k) == CountKind(plan[..i], k) + (if plan[i].record.kind == k then 1 else 0)
  {
    assert plan[..i + 1][..i] == plan[..i];
  }

  lemma RefinesAtStart(start: Tree)
    ensures Refines(State(start, start, start, map p | p in start :: p), [], [])
  {
    assert Slots([]) == {};
    assert start - {} == start;
  }

  function AvoidedNames(plan: seq<Change>): set<Name> {
    set c, k | c in plan && 0 <= k < |c.path| :: c.path[k]
  }

  lemma TargetsAtStart(start: Tree, plan: seq<Change>)
    ensures KeepsTargets(start, start, plan, 0) && SlotsHold(start, start, [])
  {
  }

  lemma SlotsAvoidTargets(g: State, actions: seq<Action>, created: seq<Path>, plan: seq<Change>)
    requires Sound(g, actions, created, Leaves(plan))
    ensures forall k, j :: 0 <= k < |actions| && actions[k].backup.Some? && 0 <= j < |plan| ==>
              actions[k].backup.value != plan[j].path
  {
    hide Tracks, Linked, Reverts, IsBase;
    SlotsAreNotLeaves(g, actions, created, Leaves(plan));
    forall k, j | 0 <= k < |actions| && actions[k].backup.Some? && 0 <= j < |plan|
      ensures actions[k].backup.value != plan[j].path
    {
      assert actions[k].backup.value in Slots(actions);
      assert plan[j] in plan && plan[j].path in Leaves(plan);
    }
  }

  lemma TargetsAreNoParents(files: Tree, plan: seq<Change>, c: Change)
    requires NotNested(StepsOf(files, plan)) && c in plan
    ensures forall j :: 0 <= j < |plan| ==> plan[j].path !in Ancestors(c.path)
  {
    hide StepsOf, NotNested;
    ParentsAvoidLeaves(files, plan, c);
    forall j | 0 <= j < |plan|
      ensures plan[j].path !in Ancestors(c.path)
    {
      assert plan[j] in plan && plan[j].path in Leaves(plan);
    }
  }

  lemma ReadyRest(t: Tree, t': Tree, files: Tree, baseline: AuditManifest, plan: seq<Change>, i: nat)
    requires i < |plan| && ReadyFrom(t, files, baseline, plan, i)
    requires DistinctTargets(plan) && NotNested(StepsOf(files, plan))
    requires forall j :: 0 <= j < |plan| ==> plan[j].path != []
    requires TouchesOnly(t, t', plan[i].path, AvoidedNames(plan))
    ensures ReadyFrom(t', files, baseline, plan, i + 1)
  {
    hide IsReady, TouchesOnly;
    forall j | i + 1 <= j < |plan|
      ensures IsReady(t', files, baseline, plan[j])
    {
      var c, d := plan[i], plan[j];
      assert c in plan && d in plan;
      PlannedPairIsNotNested(files, plan, c, d);
      PlannedPairIsNotNested(files, plan, d, c);
      ReadyKept(t, t', files, baseline, c.path, d, AvoidedNames(plan));
    }
  }

  /** What the forward loop keeps about the changes done and the changes to come. */
  ghost predicate OnTrack(start: Tree, t: Tree, files: Tree, baseline: AuditManifest, plan: seq<Change>, i: nat, actions: seq<Action>)
    requires i <= |plan|
  {
    && KeepsParents(start, t, plan) && TrustedParents(start, plan[..i])
    && (DistinctTargets(plan) ==>
          && KeepsTargets(start, t, plan, i) && SlotsHold(start, t, actions)
          && (ReadyFrom(start, files, baseline, plan, 0) ==> ReadyFrom(t, files, baseline, plan, i)))
  }

  lemma OnTrackNext(g0: State, t: Tree, files: Tree, baseline: AuditManifest, plan: seq<Change>, i: nat,
                    created: seq<Path>, actions0: seq<Action>, actions: seq<Action>)
    requires i < |plan| && OnTrack(g0.start, g0.clean, files, baseline, plan, i, actions0)
    requires Sound(g0, actions0, created, Leaves(plan)) && NotNested(StepsOf(files, plan))
    requires forall j :: 0 <= j < |plan| ==> plan[j].path != []
    requires TouchesOnly(g0.clean, t, plan[i].path, AvoidedNames(plan)) && Enterable(g0.clean, plan[i].path)
    requires LogsOriginal(g0.clean, t, plan[i].path, actions0, actions)
    ensures OnTrack(g0.start, t, files, baseline, plan, i + 1, actions)
  {
    hide Sound, NotNested, TouchesOnly, Enterable, LogsOriginal, Leaves, AvoidedNames, DistinctTargets, KeepsParents, TrustedParents,
      KeepsTargets, SlotsHold, ReadyFrom, StepsOf, Ancestors;
    assert plan[i] in plan;
    ParentsStay(g0.start, g0.clean, t, files, plan, i, AvoidedNames(plan));
    if DistinctTargets(plan) {
      TargetsAreNoParents(files, plan, plan[i]);
      SlotsAvoidTargets(g0, actions0, created, plan);
      SlotsPushed(g0.start, g0.clean, t, plan, i, AvoidedNames(plan), actions0, actions);
      if ReadyFrom(g0.start, files, baseline, plan, 0) {
        ReadyRest(g0.clean, t, files, baseline, plan, i);
      }
    }
  }

  lemma OnTrackAtStart(start: Tree, files: Tree, baseline: AuditManifest, plan: seq<Change>)
    ensures OnTrack(start, start, files, baseline, plan, 0, [])
  {
    ParentsAtStart(start, plan);
    TargetsAtStart(start, plan);
  }

  lemma OnTrackReady(start: Tree, t: Tree, files: Tree, baseline: AuditManifest, plan: seq<Change>, i: nat, actions: seq<Action>)
    requires i < |plan| && OnTrack(start, t, files, baseline, plan, i, actions)
    ensures DistinctTargets(plan) && ReadyFrom(start, files, baseline, plan, 0) ==> IsReady(t, files, baseline, plan[i])
  {
    hide DistinctTargets, KeepsParents, TrustedParents, KeepsTargets, SlotsHold, IsReady;
  }

  method ApplyAll(host: Host, files: Tree, baseline: AuditManifest, plan: seq<Change>)
    returns (r: Result<ApplyReport>, actions: seq<Action>, created: seq<Path>, ghost g: State, ghost temp: Option<Path>)
    requires host.Valid() && NotNested(StepsOf(files, plan))
    requires forall i :: 0 <= i < |plan| ==> plan[i].path != []
    modifies host
    ensures host.faults >= old(host.faults) && (r.Err? && temp.Some? ==> host.faults > old(host.faults))
    ensures InProgress(host, g, actions, created, Leaves(plan), temp, old(host.trace)) && g.start == old(host.tree)
    ensures r.Ok? ==> temp.None? && Refines(g, actions, StepsOf(files, plan)) && r.value == ReportOf(plan)
    ensures r.Err? ==> r.error in {Io, UnsafeManifest, UnsafeExport, Conflict}
    ensures host.faults == old(host.faults) && host.lucky && DistinctTargets(plan) ==>
              (ReadyFrom(old(host.tree), files, baseline, plan, 0) ==> r.Ok?)
    ensures r.Ok? ==> TrustedParents(old(host.tree), plan)
    ensures r.Ok? && DistinctTargets(plan) ==> SlotsHold(old(host.tree), g.clean, actions)
  {
    hide Sound, Refines, NotNested, Leaves, Covers, StepsOf, CountKind, Preserved, IsReady, ReadyFrom, DistinctTargets, TouchesOnly,
      TrustedParents, Enterable, SlotsHold, LogsOriginal, OnTrack, AvoidedNames, Ancestors;
    PlanNames(plan);
    var avoid := AvoidedNames(plan);
    ghost var leaves := Leaves(plan);
    actions, created, temp := [], [], None;
    g := State(host.tree, host.tree, host.tree, map p | p in host.tree :: p);
    SoundAtStart(host.tree, leaves);
    RefinesAtStart(host.tree);
    OnTrackAtStart(host.tree, files, baseline, plan);
    var report := ApplyReport(0, 0, 0);
    assert StepsOf(files, plan[..0]) == [] && report == ReportOf(plan[..0]) by {
      PlanOfNothing(files, plan);
    }
    for i := 0 to |plan|
      invariant InProgress(host, g, actions, created, leaves, None, old(host.trace)) && g.start == old(host.tree)
      invariant temp == None && host.faults >= old(host.faults)
      invariant Refines(g, actions, StepsOf(files, plan[..i])) && report == ReportOf(plan[..i])
      invariant OnTrack(old(host.tree), g.clean, files, baseline, plan, i, actions)
    {
      var c := plan[i];
      PlanPush(files, plan, i);
      ParentsAvoidLeaves(files, plan, c);
      OnTrackReady(g.start, g.clean, files, baseline, plan, i, actions);
      ghost var steps, g0, actions0, created0 := StepsOf(files, plan[..i]), g, actions, created;
      var applied;
      applied, actions, created, g, temp := ApplyChange(host, files, baseline, c, actions, created, avoid, g, leaves, old(host.trace), steps);
      if applied.Err? {
        return Err(applied.error), actions, created, g, temp;
      }
      OnTrackNext(g0, g.clean, files, baseline, plan, i, created0, actions0, actions);
      report := Counted(report, c.record.kind);
    }
    assert plan[..|plan|] == plan;
    OnTrackEnd(g.start, g.clean, files, baseline, plan, actions);
    r := Ok(report);
  }

  lemma OnTrackEnd(start: Tree, t: Tree, files: Tree, baseline: AuditManifest, plan: seq<Change>, actions: seq<Action>)
    requires OnTrack(start, t, files, baseline, plan, |plan|, actions)
    ensures TrustedParents(start, plan) && (DistinctTargets(plan) ==> SlotsHold(start, t, actions))
  {
    assert plan[..|plan|] == plan;
  }

  function Counted(report: ApplyReport, kind: ChangeKind): ApplyReport {
    match kind
    case Added => report.(added := report.added + 1)
    case Modified => report.(modified := report.modified + 1)
    case Deleted => report.(deleted := report.deleted + 1)
  }

  // ---------------------------------------------------------------------------------------------
  // Rollback
  // ---------------------------------------------------------------------------------------------

  /** What holds between any two statements of a rollback, complete or not. */
  ghost predicate RollingBack(host: Host, start: Tree, at: map<Path, Path>, actions: seq<Action>,
                              leaves: set<Path>, before: seq<Tree>)
    reads host`tree, host`trace
  {
    && host.Valid()
    && Tracks(start, host.tree, at) && Linked(at, actions) && GoodActions(start, leaves, actions)
    && SafeSince(start, host.trace, before)
  }

  /** Only the two paths of an action differ. */
  ghost predicate DiffersOnlyAt(t: Tree, t': Tree, a: Action) {
    forall q :: q != a.leaf && a.backup != Some(q) ==>
      (q in t <==> q in t') && (q in t ==> t[q] == t'[q])
  }

  /** The node in a slot is the one that started at the leaf of the slot's action. */
  lemma SlotHoldsOwn(start: Tree, at: map<Path, Path>, actions: seq<Action>, leaves: set<Path>, k: nat, p: Path)
    requires GoodActions(start, leaves, actions) && Linked(at, actions) && at.Keys == start.Keys
    requires k < |actions| && actions[k].backup.Some? && p in at && at[p] == actions[k].backup.value
    ensures p == actions[k].leaf
  {
    assert IsGoodAction(start, leaves, actions[k]);
    assert p != at[p];
    var i :| 0 <= i < |actions| && actions[i].leaf == p && actions[i].backup == Some(at[p]);
    assert i == k;
  }

  lemma RestoredTracks(start: Tree, t: Tree, at: map<Path, Path>, actions: seq<Action>, leaves: set<Path>, k: nat)
    returns (at': map<Path, Path>)
    requires Tracks(start, t, at) && Linked(at, actions) && GoodActions(start, leaves, actions)
    requires k < |actions| && actions[k].backup.Some?
    requires actions[k].backup.value in t && actions[k].leaf !in t
    ensures Tracks(start, Moved(t, actions[k].backup.value, actions[k].leaf), at') && Linked(at', actions)
  {
    var slot, leaf := actions[k].backup.value, actions[k].leaf;
    if slot in at.Values {
      var p :| p in at && at[p] == slot;
      SlotHoldsOwn(start, at, actions, leaves, k, p);
      TracksMove(start, t, at, leaf, leaf);
      at' := at[leaf := leaf];
      hide Tracks, GoodActions;
      assert Linked(at', actions) by {
        forall q | q in at' && at'[q] != q
          ensures exists i :: 0 <= i < |actions| && actions[i].leaf == q && actions[i].backup == Some(at'[q])
        {
          assert at[q] == at'[q];
        }
      }
    } else {
      TracksMoveFresh(start, t, at, slot, leaf);
      at' := at;
    }
  }

  /** Undo one logged action. A refusal leaves it undone in part or in whole, but loses nothing. */
  method UndoAction(host: Host, actions: seq<Action>, k: nat,
                    ghost start: Tree, ghost at0: map<Path, Path>, ghost leaves: set<Path>, ghost before: seq<Tree>)
    returns (ok: bool, ghost at: map<Path, Path>)
    requires k < |actions| && actions[k].leaf != [] && RollingBack(host, start, at0, actions, leaves, before)
    requires actions[k].backup.Some? && actions[k].backup.value in host.tree ==> host.tree[actions[k].backup.value].File?
    modifies host
    ensures RollingBack(host, start, at, actions, leaves, before)
    ensures DiffersOnlyAt(old(host.tree), host.tree, actions[k]) && host.faults >= old(host.faults)
    ensures ok && CanUndo(old(host.tree), actions[k]) ==> host.tree == Undone(old(host.tree), actions[k])
    ensures host.faults == old(host.faults) && CanUndo(old(host.tree), actions[k]) ==> ok
  {
    hide Tracks, Linked, GoodActions, SafeSince;
    at, ok := at0, true;
    var a := actions[k];
    if a.installed.Some? {
      ok := RemoveInstalled(host, actions, k, start, at, leaves, before);
      if !ok {
        return;
      }
    }
    if a.backup.Some? {
      ok, at := RestoreBackup(host, actions, k, start, at, leaves, before);
      if !ok {
        return;
      }
    }
    ok := host.Sync();
  }

  /** Rename what is in the slot back to its path. */
  method RestoreBackup(host: Host, actions: seq<Action>, k: nat,
                       ghost start: Tree, ghost at0: map<Path, Path>, ghost leaves: set<Path>, ghost before: seq<Tree>)
    returns (ok: bool, ghost at: map<Path, Path>)
    requires k < |actions| && actions[k].leaf != [] && actions[k].backup.Some?
    requires RollingBack(host, start, at0, actions, leaves, before)
    requires actions[k].backup.value in host.tree ==> host.tree[actions[k].backup.value].File?
    modifies host
    ensures RollingBack(host, start, at, actions, leaves, before) && host.faults >= old(host.faults)
    ensures ok ==> actions[k].backup.value in old(host.tree) && actions[k].leaf !in old(host.tree)
                   && host.tree == Moved(old(host.tree), actions[k].backup.value, actions[k].leaf)
    ensures !ok ==> host.tree == old(host.tree)
    ensures host.faults == old(host.faults) ==>
              (ok <==> actions[k].backup.value in old(host.tree) && actions[k].leaf !in old(host.tree)
                       && IsDirectory(old(host.tree), Parent(actions[k].leaf)))
  {
    hide Tracks, Linked, GoodActions, SafeSince, Moved;
    at := at0;
    ghost var t, trace := host.tree, host.trace;
    ok := host.RenameNoReplace(actions[k].backup.value, actions[k].leaf);
    if ok {
      at := RestoredTracks(start, t, at, actions, leaves, k);
      SafeExtend(start, trace, before, host.tree, at);
    }
  }

  ghost predicate HoldsInstalled(t: Tree, a: Action) {
    a.leaf in t && t[a.leaf].File? && a.installed == Some(t[a.leaf].ino)
  }

  /** Remove what an action installed, unless something else is there now. */
  method RemoveInstalled(host: Host, actions: seq<Action>, k: nat,
                         ghost start: Tree, ghost at: map<Path, Path>, ghost leaves: set<Path>, ghost before: seq<Tree>)
    returns (ok: bool)
    requires k < |actions| && actions[k].installed.Some? && RollingBack(host, start, at, actions, leaves, before)
    modifies host
    ensures RollingBack(host, start, at, actions, leaves, before) && host.faults >= old(host.faults)
    ensures host.tree == old(host.tree) || (ok && host.tree == old(host.tree) - {actions[k].leaf})
    ensures ok ==> actions[k].leaf !in host.tree
    ensures host.faults == old(host.faults) && HoldsInstalled(old(host.tree), actions[k]) ==> ok
  {
    hide Tracks, Linked, SafeSince;
    ActionIsGood(start, leaves, actions, k);
    var leaf := actions[k].leaf;
    if leaf in host.tree { ResolvePresent(host.tree, leaf); }
    var handle := host.Open(leaf);
    if handle.NotFound? {
      ResolveAbsent(host.tree, leaf);
      return true;
    }
    if handle.Failed? || handle.node.ino != actions[k].installed.value {
      return false;
    }
    FoundIsPresent(host.tree, leaf);
    TracksDrop(start, host.tree, at, leaf);
    ghost var trace := host.trace;
    ok := host.Unlink(leaf);
    if ok {
      SafeExtend(start, trace, before, host.tree, at);
    }
  }

  lemma ActionIsGood(start: Tree, leaves: set<Path>, actions: seq<Action>, k: nat)
    requires GoodActions(start, leaves, actions) && k < |actions|
    ensures IsGoodAction(start, leaves, actions[k])
  {
  }

  /** An extra entry does not disturb the undoing of an action. */
  lemma UndoneWithExtra(t: Tree, a: Action, q: Path, n: Node)
    requires CanUndo(t, a) && q !in t && q != a.leaf
    ensures CanUndo(t[q := n], a) && Undone(t[q := n], a) == Undone(t, a)[q := n] && q !in Undone(t, a)
  {
  }

  /** The tree is `t`, possibly with one stray temporary. */
  ghost predicate WithExtra(tree: Tree, t: Tree, temp: Option<Path>) {
    match temp
    case None => tree == t
    case Some(q) => q !in t && q in tree && tree == t[q := tree[q]]
  }

  lemma UndoneShows(tree: Tree, t: Tree, a: Action, temp: Option<Path>)
    requires CanUndo(t, a) && WithExtra(tree, t, temp) && temp != Some(a.leaf)
    ensures CanUndo(tree, a) && WithExtra(Undone(tree, a), Undone(t, a), temp)
  {
    if temp.Some? {
      UndoneWithExtra(t, a, temp.value, tree[temp.value]);
    }
  }

  ghost predicate SlotsAreFiles(t: Tree, actions: seq<Action>, upTo: nat) {
    forall j :: 0 <= j < upTo && j < |actions| && actions[j].backup.Some? && actions[j].backup.value in t ==>
      t[actions[j].backup.value].File?
  }

  ghost predicate AreFresh(t: Tree, created: seq<Path>, start: Tree) {
    forall p :: p in created && p in t ==> t[p].ino !in Inodes(start)
  }

  lemma UndoKeepsOthers(start: Tree, leaves: set<Path>, actions: seq<Action>, k: nat, created: seq<Path>, t: Tree, t': Tree)
    requires GoodActions(start, leaves, actions) && k < |actions| && DiffersOnlyAt(t, t', actions[k])
    requires SlotsAreFiles(t, actions, k + 1) && AreFresh(t, created, start)
    requires forall p :: p in created ==> p !in leaves && p !in Slots(actions)
    ensures SlotsAreFiles(t', actions, k) && AreFresh(t', created, start)
  {
    assert IsGoodAction(start, leaves, actions[k]);
    forall j | 0 <= j < k && actions[j].backup.Some? && actions[j].backup.value in t'
      ensures t'[actions[j].backup.value].File?
    {
      assert IsGoodAction(start, leaves, actions[j]);
      assert actions[j].backup != actions[k].backup;
    }
    forall p | p in created && p in t'
      ensures t'[p].ino !in Inodes(start)
    {
      assert actions[k].backup.Some? ==> actions[k].backup.value in Slots(actions);
    }
  }

  lemma RollbackStarts(host: Host, g: State, actions: seq<Action>, created: seq<Path>,
                       leaves: set<Path>, temp: Option<Path>, before: seq<Tree>)
    requires InProgress(host, g, actions, created, leaves, temp, before)
    ensures RollingBack(host, g.start, g.at, actions, leaves, before)
    ensures WithExtra(host.tree, g.clean, temp)
    ensures SlotsAreFiles(host.tree, actions, |actions|) && AreFresh(host.tree, created, g.start)
    ensures forall p :: p in created ==> p !in leaves && p !in Slots(actions)
  {
    hide Tracks, Linked, Reverts, IsBase, SafeSince;
    ShowsTracks(host.tree, g, temp);
    forall p | p in created
      ensures p !in leaves && p !in Slots(actions)
      ensures p in host.tree ==> host.tree[p].ino !in Inodes(g.start)
    {
      CreatedIsFresh(g, actions, created, leaves, p);
    }
    forall j | 0 <= j < |actions| && actions[j].backup.Some?
      ensures actions[j].backup.value in g.clean && g.clean[actions[j].backup.value].File?
    {
      assert actions[j].backup.value in Slots(actions);
    }
  }

  method UndoActions(host: Host, actions: seq<Action>, ghost g: State, ghost created: seq<Path>,
                     ghost leaves: set<Path>, ghost temp: Option<Path>, ghost before: seq<Tree>)
    returns (ok: bool, ghost at: map<Path, Path>)
    requires InProgress(host, g, actions, created, leaves, temp, before) && [] !in leaves
    modifies host
    ensures RollingBack(host, g.start, at, actions, leaves, before) && AreFresh(host.tree, created, g.start)
    ensures ok ==> WithExtra(host.tree, g.base, temp)
    ensures host.faults >= old(host.faults) && (host.faults == old(host.faults) ==> ok)
  {
    hide Tracks, Linked, SafeSince, GoodActions, AreFresh, SlotsAreFiles, IsBase, Slots, CanUndo, Undone;
    RollbackStarts(host, g, actions, created, leaves, temp, before);
    at, ok := g.at, true;
    ghost var t := g.clean;
    assert actions[..|actions|] == actions;
    for i := |actions| downto 0
      invariant RollingBack(host, g.start, at, actions, leaves, before)
      invariant SlotsAreFiles(host.tree, actions, i) && AreFresh(host.tree, created, g.start)
      invariant ok ==> Reverts(t, actions[..i], g.base) && WithExtra(host.tree, t, temp)
      invariant host.faults >= old(host.faults) && (host.faults == old(host.faults) ==> ok)
    {
      ActionIsGood(g.start, leaves, actions, i);
      assert actions[..i + 1][..i] == actions[..i];
      if ok {
        UndoneShows(host.tree, t, actions[i], temp);
      }
      ghost var tree := host.tree;
      var undone;
      SlotAt(host.tree, actions, i);
      undone, at := UndoAction(host, actions, i, g.start, at, leaves, before);
      UndoKeepsOthers(g.start, leaves, actions, i, created, tree, host.tree);
      t := Undone(t, actions[i]);
      ok := ok && undone;
    }
  }

  lemma SlotAt(t: Tree, actions: seq<Action>, i: nat)
    requires i < |actions| && SlotsAreFiles(t, actions, i + 1)
    ensures actions[i].backup.Some? && actions[i].backup.value in t ==> t[actions[i].backup.value].File?
  {
  }

  method RemoveCreated(host: Host, created: seq<Path>, ok0: bool, ghost start: Tree, ghost base: Tree, ghost at: map<Path, Path>,
                       ghost actions: seq<Action>, ghost leaves: set<Path>, ghost temp: Option<Path>, ghost before: seq<Tree>)
    returns (ok: bool)
    requires RollingBack(host, start, at, actions, leaves, before) && AreFresh(host.tree, created, start)
    requires IsBase(start, base, created) && (ok0 ==> WithExtra(host.tree, base, temp))
    modifies host
    ensures RollingBack(host, start, at, actions, leaves, before)
    ensures ok ==> ok0 && WithExtra(host.tree, start, temp)
    ensures host.faults >= old(host.faults) && (host.faults == old(host.faults) && temp.None? && ok0 ==> ok)
  {
    hide Tracks, Linked, SafeSince, GoodActions;
    ok := ok0;
    ghost var t := base;
    assert created[..|created|] == created;
    for i := |created| downto 0
      invariant RollingBack(host, start, at, actions, leaves, before) && AreFresh(host.tree, created, start)
      invariant ok ==> ok0
      invariant IsBase(start, t, created[..i]) && (ok ==> WithExtra(host.tree, t, temp))
      invariant host.faults >= old(host.faults) && (host.faults == old(host.faults) && temp.None? && ok0 ==> ok)
    {
      assert created[..i + 1][..i] == created[..i];
      var p := created[i];
      ghost var trace, tree := host.trace, host.tree;
      var removed := host.RemoveDirectory(p);
      if removed {
        TracksDrop(start, tree, at, p);
        SafeExtend(start, trace, before, host.tree, at);
      }
      t := t - {p};
      ok := ok && removed;
    }
  }

  /** Undo the log and remove the directories of the run. Success means that the starting tree is
      back, up to a stray temporary file; and without refused calls and without a stray temporary
      it always succeeds. Nothing is lost on the way even if it does not. */
  method Rollback(host: Host, actions: seq<Action>, created: seq<Path>, ghost g: State,
                  ghost leaves: set<Path>, ghost temp: Option<Path>, ghost before: seq<Tree>)
    returns (ok: bool)
    requires InProgress(host, g, actions, created, leaves, temp, before) && [] !in leaves
    modifies host
    ensures host.Valid() && SafeSince(g.start, host.trace, before)
    ensures ok ==> WithExtra(host.tree, g.start, temp)
    ensures host.faults >= old(host.faults) && (host.faults == old(host.faults) && temp.None? ==> ok)
  {
    hide Tracks, Linked, SafeSince, GoodActions, Reverts, WithExtra;
    ghost var at;
    var undone;
    undone, at := UndoActions(host, actions, g, created, leaves, temp, before);
    ok := RemoveCreated(host, created, undone, g.start, g.base, at, actions, leaves, temp, before);
  }

  // ---------------------------------------------------------------------------------------------
  // Cleanup and the whole run
  // ---------------------------------------------------------------------------------------------

  /** The slots of the first actions are gone. */
  ghost predicate IsPartlyCleaned(clean: Tree, t: Tree, actions: seq<Action>) {
    exists done :: 0 <= done <= |actions| && t == clean - Slots(actions[..done])
  }

  lemma StillPartly(clean: Tree, t: Tree, actions: seq<Action>, done: nat)
    requires done <= |actions| && t == clean - Slots(actions[..done])
    ensures IsPartlyCleaned(clean, t, actions)
  {
  }

  /** Remove the rollback slots, stopping at the first refusal. */
  method Cleanup(host: Host, actions: seq<Action>) returns (ok: bool, ghost done: nat)
    requires host.Valid()
    requires forall q :: q in Slots(actions) ==> q in host.tree && host.tree[q].File?
    requires forall i, j :: 0 <= i < j < |actions| && actions[i].backup.Some? ==> actions[i].backup != actions[j].backup
    modifies host
    ensures host.Valid() && old(host.trace) <= host.trace
    ensures done <= |actions| && host.tree == old(host.tree) - Slots(actions[..done])
    ensures ok ==> done == |actions|
    ensures forall k :: |old(host.trace)| <= k < |host.trace| ==> IsPartlyCleaned(old(host.tree), host.trace[k], actions)
    ensures host.faults >= old(host.faults) && (host.faults == old(host.faults) ==> ok)
  {
    done, ok := 0, true;
    assert Slots(actions[..0]) == {};
    assert old(host.tree) - {} == old(host.tree);
    for i := 0 to |actions|
      invariant host.Valid() && old(host.trace) <= host.trace
      invariant host.tree == old(host.tree) - Slots(actions[..i]) && done == i
      invariant forall k :: |old(host.trace)| <= k < |host.trace| ==> IsPartlyCleaned(old(host.tree), host.trace[k], actions)
      invariant host.faults >= old(host.faults)
    {
      SlotsPush(actions[..i], actions[i]);
      assert actions[..i + 1] == actions[..i] + [actions[i]];
      if actions[i].backup.Some? {
        var slot := actions[i].backup.value;
        assert slot in Slots(actions);
        assert slot !in Slots(actions[..i]);
        ok := host.Unlink(slot);
        if !ok {
          return;
        }
        done := i + 1;
        assert host.tree == old(host.tree) - Slots(actions[..done]);
        ok := host.Sync();
        if !ok {
          return;
        }
      }
      done := i + 1;
    }
    ok := true;
  }

  lemma CleanedRefines(g: State, actions: seq<Action>, created: seq<Path>, leaves: set<Path>, steps: seq<Step>)
    requires Sound(g, actions, created, leaves) && Refines(g, actions, steps)
    ensures forall q :: q in Slots(actions) ==> q in g.clean && g.clean[q].File? && q !in g.start
    ensures forall i, j :: 0 <= i < j < |actions| && actions[i].backup.Some? ==> actions[i].backup != actions[j].backup
    ensures IsApplied(g.start, g.clean - Slots(actions), steps)
  {
    hide Tracks, Linked, Reverts, IsBase;
    SlotsAreNotLeaves(g, actions, created, leaves);
  }

  /** `t` is `start`, except perhaps for one temporary file under a reserved name. */
  ghost predicate IsRestored(start: Tree, t: Tree) {
    t == start || exists q :: q !in start && IsTempPath(q) && q in t && t == start[q := t[q]]
  }

  /** Everything was applied; some rollback slots are still there and nothing else. */
  ghost predicate IsAppliedUpToSlots(start: Tree, t: Tree, steps: seq<Step>) {
    exists slots: set<Path> ::
      && IsApplied(start, t - slots, steps)
      && forall q :: q in slots ==> q !in start && q in t && HoldsOriginal(start, t[q], steps, q)
  }

  /** A rollback name beside a changed path, with the node that the path started with. Only if two changes
      are on one path can it be a node that the first of them installed. */
  ghost predicate HoldsOriginal(start: Tree, n: Node, steps: seq<Step>, q: Path) {
    exists p :: p in PathsOf(steps) && IsSlotOf(q, p)
                && ((p in start && n == start[p]) || (!DistinctPaths(steps) && n.ino !in Inodes(start)))
  }

  /** A slot holds an original or a new node. */
  lemma SlotContents(g: State, actions: seq<Action>, created: seq<Path>, leaves: set<Path>, steps: seq<Step>, i: nat)
    requires Sound(g, actions, created, leaves) && leaves == PathsOf(steps)
    requires i < |actions| && actions[i].backup.Some?
    requires DistinctPaths(steps) ==> SlotsHold(g.start, g.clean, actions)
    ensures var q := actions[i].backup.value; q in g.clean && HoldsOriginal(g.start, g.clean[q], steps, q)
  {
    hide Reverts, IsBase, DistinctPaths, PathsOf;
    var q := actions[i].backup.value;
    assert IsGoodAction(g.start, leaves, actions[i]);
    assert q in Slots(actions);
    if DistinctPaths(steps) {
      assert actions[i].leaf in leaves;
    } else if q in g.at.Values {
      var p :| p in g.at && g.at[p] == q;
      assert p != q;
      var k :| 0 <= k < |actions| && actions[k].leaf == p && actions[k].backup == Some(q);
      assert IsGoodAction(g.start, leaves, actions[k]);
    } else {
      assert g.clean[q].ino !in Inodes(g.start);
    }
  }

  lemma PartlyCleaned(g: State, actions: seq<Action>, created: seq<Path>, leaves: set<Path>, steps: seq<Step>, t: Tree)
    requires Sound(g, actions, created, leaves) && Refines(g, actions, steps) && leaves == PathsOf(steps)
    requires DistinctPaths(steps) ==> SlotsHold(g.start, g.clean, actions)
    requires IsPartlyCleaned(g.clean, t, actions)
    ensures IsAppliedUpToSlots(g.start, t, steps)
  {
    hide Sound, Refines, HoldsOriginal, SlotsHold, DistinctPaths, PathsOf, IsApplied;
    CleanedRefines(g, actions, created, leaves, steps);
    var done :| 0 <= done <= |actions| && t == g.clean - Slots(actions[..done]);
    var slots := Slots(actions) - Slots(actions[..done]);
    assert Slots(actions[..done]) <= Slots(actions);
    assert t - slots == g.clean - Slots(actions);
    forall q | q in slots
      ensures q !in g.start && q in t && HoldsOriginal(g.start, t[q], steps, q)
    {
      var i :| 0 <= i < |actions| && actions[i].backup.Some? && actions[i].backup.value == q;
      SlotContents(g, actions, created, leaves, steps, i);
    }
  }

  /** The changed paths, and when they are distinct. */
  lemma StepPaths(files: Tree, plan: seq<Change>)
    ensures Leaves(plan) == PathsOf(StepsOf(files, plan))
    ensures DistinctPaths(StepsOf(files, plan)) ==> DistinctTargets(plan)
  {
    var steps := StepsOf(files, plan);
    assert forall i :: 0 <= i < |plan| ==> steps[i].path == plan[i].path;
    forall q | q in Leaves(plan)
      ensures q in PathsOf(steps)
    {
      var i :| 0 <= i < |plan| && plan[i].path == q;
      assert steps[i] in steps;
    }
    forall q | q in PathsOf(steps)
      ensures q in Leaves(plan)
    {
      var i :| 0 <= i < |steps| && steps[i].path == q;
      assert plan[i] in plan;
    }
  }

  /** Everything after the preflight. */
  method RunTransaction(host: Host, files: Tree, baseline: AuditManifest, plan: seq<Change>)
    returns (r: Result<ApplyReport>, ghost commit: nat)
    requires host.Valid() && AllClear(host.tree, files, baseline, plan)
    requires forall c :: c in plan ==> c.path != []
    modifies host
    ensures host.Valid() && old(host.trace) <= host.trace && |old(host.trace)| <= commit <= |host.trace|
    ensures SafeSince(old(host.tree), host.trace[..commit], old(host.trace))
    ensures host.faults >= old(host.faults)
    ensures r.Ok? ==> IsApplied(old(host.tree), host.tree, StepsOf(files, plan)) && r.value == ReportOf(plan)
    ensures r.Err? ==> r.error.RollbackIncomplete? || r.error in {AppliedButCleanupFailed, Io, UnsafeManifest, UnsafeExport, Conflict}
    ensures r.Err? && !r.error.RollbackIncomplete? && !r.error.AppliedButCleanupFailed? ==>
              IsRestored(old(host.tree), host.tree)
    ensures r.Err? && !r.error.AppliedButCleanupFailed? ==> commit == |host.trace|
    ensures r.Err? && r.error.AppliedButCleanupFailed? ==>
              IsAppliedUpToSlots(old(host.tree), host.tree, StepsOf(files, plan))
    ensures forall k :: commit <= k < |host.trace| ==> IsAppliedUpToSlots(old(host.tree), host.trace[k], StepsOf(files, plan))
    ensures r.Err? && (r.error.RollbackIncomplete? || r.error.AppliedButCleanupFailed?) ==> host.faults > old(host.faults)
    ensures host.faults == old(host.faults) && host.lucky && DistinctTargets(plan) ==>
              (TrustedParents(old(host.tree), plan) ==> r.Ok?)
    ensures r.Ok? ==> TrustedParents(old(host.tree), plan)
  {
    hide Sound, Refines, AllClear, NotNested, StepsOf, IsApplied, Preserved, IsAppliedUpToSlots, Leaves, ReadyFrom,
      DistinctTargets, TrustedParents, SlotsHold, DistinctPaths, PathsOf, IsPartlyCleaned;
    if TrustedParents(host.tree, plan) {
      ClearIsReady(host.tree, files, baseline, plan);
    }
    PreflightImpliesShape(host.tree, files, baseline, plan);
    PlanNames(plan);
    ghost var g, temp;
    var actions, created;
    r, actions, created, g, temp := ApplyAll(host, files, baseline, plan);
    commit := |host.trace|;
    if r.Err? {
      var restored := Rollback(host, actions, created, g, Leaves(plan), temp, old(host.trace));
      commit := |host.trace|;
      assert host.trace[..commit] == host.trace;
      if !restored {
        r := Err(RollbackIncomplete(r.error));
      }
      return;
    }
    CleanedRefines(g, actions, created, Leaves(plan), StepsOf(files, plan));
    ghost var trace := host.trace;
    assert trace[..commit] == trace;
    var cleaned;
    ghost var done;
    cleaned, done := Cleanup(host, actions);
    assert host.trace[..commit] == trace;
    StepPaths(files, plan);
    forall k | commit <= k < |host.trace|
      ensures IsAppliedUpToSlots(g.start, host.trace[k], StepsOf(files, plan))
    {
      PartlyCleaned(g, actions, created, Leaves(plan), StepsOf(files, plan), host.trace[k]);
    }
    if !cleaned {
      StillPartly(g.clean, host.tree, actions, done);
      PartlyCleaned(g, actions, created, Leaves(plan), StepsOf(files, plan), host.tree);
      return Err(AppliedButCleanupFailed), commit;
    }
    assert actions[..done] == actions;
  }

  /** What the caller must bring about: an accepted and authorised manifest, safe roots, no conflict at
      any changed path, and no untrusted directory on the way to one. */
  ghost predicate CanApply(t: Tree, files: Tree, baseline: AuditManifest, manifest: ChangeManifest,
                           allowDeletions: bool, rootsAreSafe: bool) {
    && Acceptable(baseline, manifest)
    && (CountKind(Plan(manifest), Deleted) > 0 ==> allowDeletions)
    && (Plan(manifest) == [] || rootsAreSafe)
    && AllClear(t, files, baseline, Plan(manifest))
    && TrustedParents(t, Plan(manifest))
  }

  /**
    `apply_exported_changes`. `commit` is the length of the trace when the cleanup phase began, or
    of the whole trace if it never began.
   */
  method ApplyExportedChanges(host: Host, baseline: AuditManifest, files: Tree, manifest: ChangeManifest,
                              allowDeletions: bool, sourceIsSafe: bool, exportIsSafe: bool)
    returns (r: Result<ApplyReport>, ghost commit: nat)
    requires host.Valid()
    modifies host
    // No original is lost before the new state is complete.
    ensures host.Valid() && old(host.trace) <= host.trace && |old(host.trace)| <= commit <= |host.trace|
    ensures SafeSince(old(host.tree), host.trace[..commit], old(host.trace))
    // Success is the plain update of an accepted, authorised, conflict-free manifest.
    ensures r.Ok? ==>
              && CanApply(old(host.tree), files, baseline, manifest, allowDeletions, sourceIsSafe && exportIsSafe)
              && IsApplied(old(host.tree), host.tree, StepsOf(files, Plan(manifest)))
              && r.value == ReportOf(Plan(manifest))
    // The same on the fields of nodes and records, and what the checks must catch.
    ensures r.Ok? ==>
              && IsSoundManifest(baseline, manifest) && PassesChecks(old(host.tree), files, baseline, manifest)
              && (forall c :: c in manifest.changes && c.kind == Deleted ==> allowDeletions)
              && EntersTrusted(old(host.tree), manifest)
              && r.value.added == |Positions(manifest.changes, Added)|
              && r.value.modified == |Positions(manifest.changes, Modified)|
              && r.value.deleted == |Positions(manifest.changes, Deleted)|
    ensures r.Ok? && TargetsDiffer(manifest) ==> IsCarriedOut(old(host.tree), host.tree, files, manifest)
    ensures !PassesChecks(old(host.tree), files, baseline, manifest) ==>
              r.Err? && host.tree == old(host.tree) && host.trace == old(host.trace)
    // Without refused calls and taken names, and with one change per path, nothing else stops it.
    ensures host.faults == old(host.faults) && host.lucky && DistinctTargets(Plan(manifest)) ==>
              (CanApply(old(host.tree), files, baseline, manifest, allowDeletions, sourceIsSafe && exportIsSafe) <==> r.Ok?)
    // Failure is no change at all, up to a stray temporary, unless it says otherwise.
    ensures r.Err? && !r.error.RollbackIncomplete? && !r.error.AppliedButCleanupFailed? ==>
              IsRestored(old(host.tree), host.tree)
    ensures r.Err? && !r.error.AppliedButCleanupFailed? ==> commit == |host.trace|
    ensures r.Err? && r.error.AppliedButCleanupFailed? ==>
              IsAppliedUpToSlots(old(host.tree), host.tree, StepsOf(files, Plan(manifest)))
    ensures forall k :: commit <= k < |host.trace| ==> IsAppliedUpToSlots(old(host.tree), host.trace[k], StepsOf(files, Plan(manifest)))
    // The two bad outcomes need a refused system call.
    ensures r.Err? && (r.error.RollbackIncomplete? || r.error.AppliedButCleanupFailed?) ==> host.faults > old(host.faults)
    // Authorisation is demanded exactly for accepted manifests that delete.
    ensures r.Err? && r.error.DeletionAuthorizationRequired? <==>
              Acceptable(baseline, manifest) && CountKind(Plan(manifest), Deleted) > 0 && !allowDeletions
    ensures r.Err? && r.error.RejectedOutput? <==>
              && manifest.schemaVersion == 1 && manifest.baselineRunId == baseline.runId
              && manifest.policySha256 == baseline.policySha256 && manifest.rejected != []
    // Nothing is touched before every check has passed.
    ensures !Acceptable(baseline, manifest) || !AllClear(old(host.tree), files, baseline, Plan(manifest)) ==>
              r.Err? && host.tree == old(host.tree) && host.trace == old(host.trace)
  {
    hide Acceptable, AllClear, Plan, StepsOf, IsApplied, Preserved, IsAppliedUpToSlots, DistinctTargets, TrustedParents,
      PassesChecks, IsCarriedOut, IsSoundManifest, EntersTrusted, Positions, TargetsDiffer;
    ChecksMean(host.tree, files, baseline, manifest);
    ghost var start := host.tree;
    commit := |host.trace|;
    var validated := ValidateManifest(baseline, manifest);
    if validated.Err? {
      return Err(validated.error), commit;
    }
    var plan := validated.value;
    if CountKind(plan, Deleted) > 0 && !allowDeletions {
      return Err(DeletionAuthorizationRequired(CountKind(plan, Deleted))), commit;
    }
    if plan == [] {
      NothingToApply(host.tree, files, baseline, plan);
      SuccessMeans(start, host.tree, files, baseline, manifest, allowDeletions);
      return Ok(ApplyReport(0, 0, 0)), commit;
    }
    if !sourceIsSafe {
      return Err(UnsafeSource), commit;
    }
    if !exportIsSafe {
      return Err(UnsafeExport), commit;
    }
    var clear := Preflight(host, files, baseline, plan);
    if clear.Err? {
      return Err(clear.error), commit;
    }
    PlannedPaths(baseline, manifest);
    r, commit := RunTransaction(host, files, baseline, plan);
    if r.Ok? {
      SuccessMeans(start, host.tree, files, baseline, manifest, allowDeletions);
    }
  }

  /** Every directory that was already on the way to a changed path can be trusted. */
  ghost predicate EntersTrusted(t: Tree, m: ChangeManifest) {
    forall r, k :: r in m.changes && 0 < k < |Target(r.path)| && Target(r.path)[..k] in t && t[Target(r.path)[..k]].Dir? ==>
      t[Target(r.path)[..k]].trusted
  }

  lemma TrustMeans(t: Tree, m: ChangeManifest)
    requires TrustedParents(t, Plan(m))
    ensures EntersTrusted(t, m)
  {
    hide Plan, Target;
    forall r, k | r in m.changes && 0 < k < |Target(r.path)| && Target(r.path)[..k] in t && t[Target(r.path)[..k]].Dir?
      ensures t[Target(r.path)[..k]].trusted
    {
      PlannedRecord(m, Resolved(r));
      assert Resolved(r) in Plan(m) && Resolved(r).path == Target(r.path);
    }
  }

  lemma TargetsArePaths(baseline: AuditManifest, m: ChangeManifest)
    requires Acceptable(baseline, m)
    ensures forall r :: r in m.changes ==> Target(r.path) != []
  {
    hide Plan, Target, Acceptable;
    PlannedPaths(baseline, m);
    forall r | r in m.changes
      ensures Target(r.path) != []
    {
      PlannedRecord(m, Resolved(r));
    }
  }

  lemma CountsMean(m: ChangeManifest, kind: ChangeKind)
    ensures CountKind(Plan(m), kind) == |Positions(m.changes, kind)|
    ensures CountKind(Plan(m), kind) == 0 ==> forall r :: r in m.changes ==> r.kind != kind
  {
    CountOfPlan(m.changes, kind);
    CountIsPositions(m.changes, kind);
    if r :| r in m.changes && r.kind == kind {
      var i :| 0 <= i < |m.changes| && m.changes[i] == r;
      assert i in Positions(m.changes, kind);
    }
  }

  lemma SuccessMeans(start: Tree, t: Tree, files: Tree, baseline: AuditManifest, m: ChangeManifest, allowDeletions: bool)
    requires WellFormed(start) && WellFormed(t) && Acceptable(baseline, m)
    requires CountKind(Plan(m), Deleted) > 0 ==> allowDeletions
    requires AllClear(start, files, baseline, Plan(m)) && TrustedParents(start, Plan(m))
    requires IsApplied(start, t, StepsOf(files, Plan(m)))
    ensures IsSoundManifest(baseline, m) && PassesChecks(start, files, baseline, m) && EntersTrusted(start, m)
    ensures forall c :: c in m.changes && c.kind == Deleted ==> allowDeletions
    ensures ReportOf(Plan(m)) == ApplyReport(|Positions(m.changes, Added)|, |Positions(m.changes, Modified)|, |Positions(m.changes, Deleted)|)
    ensures TargetsDiffer(m) ==> IsCarriedOut(start, t, files, m)
  {
    hide Acceptable, AllClear, Plan, StepsOf, IsApplied, TrustedParents, PassesChecks, IsCarriedOut, IsSoundManifest, EntersTrusted,
      Positions, TargetsDiffer, WellFormed, Target;
    AcceptableMeans(baseline, m);
    ChecksMean(start, files, baseline, m);
    TrustMeans(start, m);
    TargetsArePaths(baseline, m);
    CountsMean(m, Added);
    CountsMean(m, Modified);
    CountsMean(m, Deleted);
    if TargetsDiffer(m) {
      AppliedIsCarriedOut(start, t, files, baseline, m);
    }
  }

  lemma NothingToApply(t: Tree, files: Tree, baseline: AuditManifest, plan: seq<Change>)
    requires plan == []
    ensures AllClear(t, files, baseline, plan) && IsApplied(t, t, StepsOf(files, plan))
    ensures ReportOf(plan) == ApplyReport(0, 0, 0) && TrustedParents(t, plan)
  {
  }
}
