/**
  What the checks before an apply demand and what a successful apply leaves behind, on the fields of
  nodes, records and baseline entries alone.
 */
module Outcome {
  import opened PathCodec
  import opened HostTree
  import opened Manifest
  import opened Sorting
  import opened SimpleUpdate
  import opened Transaction

  // ---------------------------------------------------------------------------------------------
  // The checks
  // ---------------------------------------------------------------------------------------------

  /** The host at the path of a record: nothing below directories, or the staged file. */
  ghost predicate IsUnchangedAt(t: Tree, included: seq<IncludedFile>, r: ChangeRecord, p: Path) {
    if r.kind == Added then
      p !in t && forall k :: 0 < k < |p| && p[..k] in t ==> t[p[..k]].Dir?
    else
      p in t && exists i :: IsFirstEntry(included, r.path, i) && IsStagedFile(t[p], included[i])
  }

  ghost predicate PassesChecks(t: Tree, files: Tree, baseline: AuditManifest, manifest: ChangeManifest) {
    forall r :: r in manifest.changes ==>
      var p := Target(r.path);
      && IsUnchangedAt(t, baseline.included, r, p)
      && (r.kind != Deleted ==> p in files && IsExportedFile(files[p], r))
  }

  lemma SourceMeans(t: Tree, baseline: AuditManifest, r: ChangeRecord)
    requires WellFormed(t)
    ensures SourceClear(t, baseline, Resolved(r)) ==> IsUnchangedAt(t, baseline.included, r, Target(r.path))
    ensures Target(r.path) != [] && IsUnchangedAt(t, baseline.included, r, Target(r.path)) ==> SourceClear(t, baseline, Resolved(r))
  {
    hide MatchesBaseline, IsStagedFile, Target, IsFirstEntry;
    var p := Target(r.path);
    FirstEntryIs(baseline.included, r.path);
    var entry := FirstEntry(baseline.included, r.path);
    if p in t {
      ResolvePresent(t, p);
      if entry.Some? {
        MatchesMean(t[p], entry.value, r);
      }
    }
    if r.kind == Added {
      AbsentMeans(t, p);
    } else if Resolve(t, p).Found? {
      FoundIsPresent(t, p);
    }
  }

  lemma AbsentMeans(t: Tree, p: Path)
    requires WellFormed(t)
    ensures Resolve(t, p) == Missing ==> p !in t && forall k :: 0 < k < |p| && p[..k] in t ==> t[p[..k]].Dir?
    ensures p != [] && p !in t && (forall k :: 0 < k < |p| && p[..k] in t ==> t[p[..k]].Dir?) ==> Resolve(t, p) == Missing
  {
    if Resolve(t, p) == Missing {
      ResolveAbsent(t, p);
      forall k | 0 < k < |p| && p[..k] in t
        ensures t[p[..k]].Dir?
      {
        ResolvedAncestors(t, p, k);
        ResolvePresent(t, p[..k]);
      }
    }
    if p != [] && p !in t && forall k :: 0 < k < |p| && p[..k] in t ==> t[p[..k]].Dir? {
      ResolveMissing(t, p);
    }
  }

  lemma ExportedMeans(files: Tree, r: ChangeRecord)
    ensures var p := Target(r.path);
            ExportClear(files, Resolved(r)) && r.kind != Deleted ==> p in files && IsExportedFile(files[p], r)
    ensures var p := Target(r.path);
            WellFormed(files) && p in files && IsExportedFile(files[p], r) ==> ExportClear(files, Resolved(r))
  {
    hide MatchesExport, IsExportedFile, Target;
    var p := Target(r.path);
    if Resolve(files, p).Found? {
      FoundIsPresent(files, p);
      MatchesMean(files[p], IncludedFile([], 0, Sha256([]), false), r);
    }
    if WellFormed(files) && p in files {
      ResolvePresent(files, p);
      MatchesMean(files[p], IncludedFile([], 0, Sha256([]), false), r);
    }
  }

  lemma PlannedRecord(m: ChangeManifest, c: Change)
    ensures c in Plan(m) <==> exists r :: r in m.changes && c == Resolved(r)
  {
    hide Plan, Resolved;
    PlanIsSortedPermutation(m);
    if c in Plan(m) {
      var i :| 0 <= i < |m.changes| && c == Resolved(m.changes[i]);
      assert m.changes[i] in m.changes;
    }
    if r :| r in m.changes && c == Resolved(r) {
      var i :| 0 <= i < |m.changes| && m.changes[i] == r;
      assert c == Resolved(m.changes[i]);
    }
  }

  /** A passed preflight is exactly this on well-formed trees; a host or an export that differs never passes. */
  lemma ChecksMean(t: Tree, files: Tree, baseline: AuditManifest, m: ChangeManifest)
    requires WellFormed(t)
    ensures AllClear(t, files, baseline, Plan(m)) ==> PassesChecks(t, files, baseline, m)
    ensures WellFormed(files) && (forall r :: r in m.changes ==> Target(r.path) != []) && PassesChecks(t, files, baseline, m) ==>
              AllClear(t, files, baseline, Plan(m))
  {
    hide Plan, SourceClear, ExportClear, IsUnchangedAt, IsExportedFile, Target, WellFormed;
    var plan := Plan(m);
    if AllClear(t, files, baseline, plan) {
      forall r | r in m.changes
        ensures IsUnchangedAt(t, baseline.included, r, Target(r.path))
        ensures r.kind != Deleted ==> Target(r.path) in files && IsExportedFile(files[Target(r.path)], r)
      {
        PlannedRecord(m, Resolved(r));
        var i :| 0 <= i < |plan| && plan[i] == Resolved(r);
        SourceMeans(t, baseline, r);
        ExportedMeans(files, r);
      }
    }
    if WellFormed(files) && (forall r :: r in m.changes ==> Target(r.path) != []) && PassesChecks(t, files, baseline, m) {
      forall i | 0 <= i < |plan|
        ensures SourceClear(t, baseline, plan[i]) && ExportClear(files, plan[i])
      {
        PlannedRecord(m, plan[i]);
        var r :| r in m.changes && plan[i] == Resolved(r);
        SourceMeans(t, baseline, r);
        ExportedMeans(files, r);
        DeletedIsClear(files, r);
      }
    }
  }

  lemma DeletedIsClear(files: Tree, r: ChangeRecord)
    ensures r.kind == Deleted ==> ExportClear(files, Resolved(r))
  {
  }

  // ---------------------------------------------------------------------------------------------
  // The steps of a manifest
  // ---------------------------------------------------------------------------------------------

  lemma PlanStepsMembers(m: ChangeManifest, files: Tree, s: Step)
    ensures s in StepsOf(files, Plan(m)) <==> exists r :: r in m.changes && s == StepOf(files, Resolved(r))
  {
    hide StepOf, Resolved, Plan;
    var plan, steps := Plan(m), StepsOf(files, Plan(m));
    if s in steps {
      var i :| 0 <= i < |steps| && steps[i] == s;
      PlannedRecord(m, plan[i]);
    }
    if r :| r in m.changes && s == StepOf(files, Resolved(r)) {
      PlannedRecord(m, Resolved(r));
      var i :| 0 <= i < |plan| && plan[i] == Resolved(r);
      assert steps[i] == s;
    }
  }

  predicate SameTarget(a: Change, b: Change) {
    a.path == b.path
  }

  /** No two records are about one file. */
  ghost predicate TargetsDiffer(m: ChangeManifest) {
    forall i, j :: 0 <= i < j < |m.changes| ==> Target(m.changes[i].path) != Target(m.changes[j].path)
  }

  lemma PlanStepsAreDistinct(m: ChangeManifest, files: Tree)
    requires TargetsDiffer(m)
    ensures DistinctPaths(StepsOf(files, Plan(m)))
  {
    hide Target, Plan, PathLe, ResolvedAll, StepsOf, Sorted;
    var all := ResolvedAll(m.changes);
    assert Separated(all, SameTarget);
    PlanIsSortedPermutation(m);
    SeparatedIsPermutationInvariant(all, Plan(m), SameTarget);
    var plan, steps := Plan(m), StepsOf(files, Plan(m));
    forall i, j | 0 <= i < j < |steps|
      ensures steps[i].path != steps[j].path
    {
      assert steps[i].path == plan[i].path && steps[j].path == plan[j].path;
    }
  }

  // ---------------------------------------------------------------------------------------------
  // The result
  // ---------------------------------------------------------------------------------------------

  /** `t` looks like the plain update of `start`; nodes at unchanged paths are the very same ones. */
  ghost predicate IsApplied(start: Tree, t: Tree, steps: seq<Step>) {
    && ViewOf(t) == Updated(ViewOf(start), steps)
    && (forall q :: q in start && q !in PathsOf(steps) ==> q in t && t[q] == start[q])
  }

  /** What one record demands of the result: the exported bytes with mode 644 or 755, or with the nine
      permission bits of the replaced file, or nothing. */
  ghost predicate IsDone(start: Tree, t: Tree, files: Tree, r: ChangeRecord, p: Path) {
    match r.kind
    case Added =>
      && p in t && t[p].File? && p in files && files[p].File? && t[p].bytes == files[p].bytes
      && t[p].mode == (if r.executable == Some(true) then 0x1ED else 0x1A4)
      && forall k :: 0 < k < |p| ==> p[..k] in t && t[p[..k]].Dir?
    case Modified =>
      && p in t && t[p].File? && p in files && files[p].File? && t[p].bytes == files[p].bytes
      && p in start && start[p].File? && t[p].mode == start[p].mode & 0x1FF
    case Deleted => p !in t
  }

  /** Every record is done, the rest of the start is the very same, and whatever else is new is a directory
      on the way to an addition. */
  ghost predicate IsCarriedOut(start: Tree, t: Tree, files: Tree, m: ChangeManifest) {
    && (forall r :: r in m.changes ==> IsDone(start, t, files, r, Target(r.path)))
    && (forall q :: q in start && (forall r :: r in m.changes ==> Target(r.path) != q) ==> q in t && t[q] == start[q])
    && (forall q :: q in t && q !in start ==>
          exists r :: r in m.changes && r.kind == Added && (Target(r.path) == q || (q < Target(r.path) && t[q].Dir?)))
  }

  lemma StepsPaths(m: ChangeManifest, files: Tree, q: Path)
    ensures q in PathsOf(StepsOf(files, Plan(m))) <==> exists r :: r in m.changes && Target(r.path) == q
  {
    hide Plan, StepsOf, Target;
    var steps := StepsOf(files, Plan(m));
    if q in PathsOf(steps) {
      var s :| s in steps && s.path == q;
      PlanStepsMembers(m, files, s);
    }
    if r :| r in m.changes && Target(r.path) == q {
      PlanStepsMembers(m, files, StepOf(files, Resolved(r)));
    }
  }

  lemma StepIsDone(start: Tree, t: Tree, files: Tree, r: ChangeRecord)
    requires WellFormed(t) && ExportClear(files, Resolved(r))
    requires r.kind != Added ==> Target(r.path) in start && start[Target(r.path)].File?
    requires Holds(ViewOf(start), StepOf(files, Resolved(r)), ViewOf(t))
    ensures IsDone(start, t, files, r, Target(r.path))
  {
    hide Target, Sha256, IsExecutable;
    var p := Target(r.path);
    if r.kind != Deleted {
      FoundIsPresent(files, p);
      assert p in t && p in ViewOf(t);
    }
    if r.kind == Added {
      ResolvePresent(t, p);
      forall k | 0 < k < |p|
        ensures p[..k] in t && t[p[..k]].Dir?
      {
        ResolvedAncestors(t, p, k);
        FoundIsPresent(t, p[..k]);
      }
    }
  }

  lemma NewIsOnTheWay(start: Tree, t: Tree, files: Tree, m: ChangeManifest, q: Path)
    requires IsOutcome(ViewOf(start), StepsOf(files, Plan(m)), ViewOf(t)) && q in t && q !in start
    requires forall r :: r in m.changes && r.kind != Added ==> Target(r.path) in start
    ensures exists r :: r in m.changes && r.kind == Added && (Target(r.path) == q || (q < Target(r.path) && t[q].Dir?))
  {
    hide Plan, StepsOf, Target, StepOf, Resolved, Ancestors, Holds;
    var steps := StepsOf(files, Plan(m));
    StepsPaths(m, files, q);
    if q !in PathsOf(steps) {
      assert q !in ViewOf(start) && q in ViewOf(t) && ViewOf(t)[q] == ContentOf(t[q]);
      assert IsNewParent(steps, q);
      var s :| s in steps && s.Put? && q in Ancestors(s.path);
      PlanStepsMembers(m, files, s);
      var r :| r in m.changes && s == StepOf(files, Resolved(r));
      PutIsAdded(files, r);
      AncestorIsPrefix(q, s.path);
    }
  }

  lemma PutIsAdded(files: Tree, r: ChangeRecord)
    ensures var s := StepOf(files, Resolved(r)); s.path == Target(r.path) && (s.Put? <==> r.kind == Added)
  {
  }

  /** A successful apply carries out the manifest. */
  lemma AppliedIsCarriedOut(start: Tree, t: Tree, files: Tree, baseline: AuditManifest, m: ChangeManifest)
    requires WellFormed(start) && WellFormed(t) && TargetsDiffer(m)
    requires forall r :: r in m.changes ==> Target(r.path) != []
    requires AllClear(start, files, baseline, Plan(m)) && IsApplied(start, t, StepsOf(files, Plan(m)))
    ensures IsCarriedOut(start, t, files, m)
  {
    hide Plan, StepsOf, Target, SourceClear, ExportClear, IsDone, Updated, PassesChecks, WellFormed, TargetsDiffer, DistinctPaths,
      NotNested, IsOutcome;
    var plan := Plan(m);
    var steps := StepsOf(files, plan);
    forall i | 0 <= i < |plan|
      ensures plan[i].path != []
    {
      PlannedRecord(m, plan[i]);
    }
    PreflightImpliesShape(start, files, baseline, plan);
    PlanStepsAreDistinct(m, files);
    UpdatedIsOutcome(ViewOf(start), steps);
    ChecksMean(start, files, baseline, m);
    forall r | r in m.changes
      ensures r.kind != Added ==> Target(r.path) in start && start[Target(r.path)].File?
      ensures IsDone(start, t, files, r, Target(r.path))
    {
      SourceOf(start, files, baseline, m, r);
      PlannedRecord(m, Resolved(r));
      var i :| 0 <= i < |plan| && plan[i] == Resolved(r);
      assert ExportClear(files, plan[i]);
      PlanStepsMembers(m, files, StepOf(files, Resolved(r)));
      OutcomeHolds(ViewOf(start), steps, ViewOf(t), StepOf(files, Resolved(r)));
      StepIsDone(start, t, files, r);
    }
    forall q | q in start && (forall r :: r in m.changes ==> Target(r.path) != q)
      ensures q in t && t[q] == start[q]
    {
      StepsPaths(m, files, q);
    }
    forall q | q in t && q !in start
      ensures exists r :: r in m.changes && r.kind == Added && (Target(r.path) == q || (q < Target(r.path) && t[q].Dir?))
    {
      NewIsOnTheWay(start, t, files, m, q);
    }
  }

  lemma OutcomeHolds(v: View, steps: seq<Step>, r: View, s: Step)
    requires IsOutcome(v, steps, r) && s in steps
    ensures Holds(v, s, r)
  {
  }

  lemma SourceOf(t: Tree, files: Tree, baseline: AuditManifest, m: ChangeManifest, r: ChangeRecord)
    requires PassesChecks(t, files, baseline, m) && r in m.changes
    ensures r.kind != Added ==> Target(r.path) in t && t[Target(r.path)].File?
  {
    hide Target;
  }

  // ---------------------------------------------------------------------------------------------
  // Counts
  // ---------------------------------------------------------------------------------------------

  /** The positions of the records of a kind. */
  ghost function Positions(records: seq<ChangeRecord>, kind: ChangeKind): set<int> {
    set i | 0 <= i < |records| && records[i].kind == kind
  }

  function CountRecords(records: seq<ChangeRecord>, kind: ChangeKind): nat {
    if records == [] then 0
    else CountRecords(records[..|records| - 1], kind) + (if records[|records| - 1].kind == kind then 1 else 0)
  }

  lemma {:induction false} CountIsPositions(records: seq<ChangeRecord>, kind: ChangeKind)
    ensures CountRecords(records, kind) == |Positions(records, kind)|
  {
    if records != [] {
      var front, n := records[..|records| - 1], |records| - 1;
      CountIsPositions(front, kind);
      assert Positions(records, kind) == Positions(front, kind) + (if records[n].kind == kind then {n} else {});
    }
  }
}
