/**
  From a returned workspace to the host: what export followed by apply amounts to.
 */
module EndToEnd {
  import opened PathCodec
  import opened HostTree
  import opened Manifest
  import opened Sorting
  import opened SimpleUpdate
  import opened Policy
  import opened Ledger
  import opened Transaction
  import opened Outcome
  import opened ChangeApply
  import opened Export

  /** What staging records: canonical paths, each once. */
  ghost predicate IsStaged(baseline: AuditManifest) {
    && (forall e :: e in baseline.included ==>
          Target(e.path) != [] && AreNames(Target(e.path)) && e.path == Shown(Target(e.path)))
    && (forall i, j :: 0 <= i < j < |baseline.included| ==> baseline.included[i].path != baseline.included[j].path)
  }

  lemma ShownIsCanonical(p: Path)
    requires p != [] && AreNames(p)
    ensures IsCanonical(Shown(p)) && Target(Shown(p)) == p
  {
    ComponentsOfJoined(p);
    UnescapedRendered(Joined(p));
  }

  lemma ShownIsInjective(p: Path, q: Path)
    requires p != [] && AreNames(p) && q != [] && AreNames(q) && Shown(p) == Shown(q)
    ensures p == q
  {
    ShownIsCanonical(p);
    ShownIsCanonical(q);
  }

  // ---------------------------------------------------------------------------------------------
  // Every entry is accounted for
  // ---------------------------------------------------------------------------------------------

  lemma {:induction false} RecordsMembers(job: Job, walk: seq<Path>, r: ChangeRecord)
    requires forall p :: p in walk ==> p in job.workspace
    ensures r in Records(job, walk) <==> exists p :: p in walk && Judge(job, p) == Exported(r)
  {
    if walk != [] {
      var front, last := walk[..|walk| - 1], walk[|walk| - 1];
      RecordsMembers(job, front, r);
      assert walk == front + [last];
    }
  }

  lemma {:induction false} RefusalsMembers(job: Job, walk: seq<Path>, b: Bytes)
    requires forall p :: p in walk ==> p in job.workspace
    ensures b in Refusals(job, walk) <==> exists p :: p in walk && Judge(job, p) == Unsafe && Shown(p) == b
  {
    if walk != [] {
      var front, last := walk[..|walk| - 1], walk[|walk| - 1];
      RefusalsMembers(job, front, b);
      assert walk == front + [last];
    }
  }

  lemma {:induction false} DeletionsMembers(included: seq<IncludedFile>, seen: set<Bytes>, r: ChangeRecord)
    ensures r in Deletions(included, seen) <==> exists e :: e in included && e.path !in seen && r == DeletionOf(e)
  {
    if included != [] {
      var front, last := included[..|included| - 1], included[|included| - 1];
      DeletionsMembers(front, seen, r);
      assert included == front + [last];
    }
  }

  /** A record is in the manifest exactly if it describes a changed file of the workspace, or a
      baseline file that no remaining entry of the workspace stands for; a path is rejected exactly
      if its entry is denied or unsafe. */
  lemma ManifestAccountsForAll(job: Job, walk: seq<Path>)
    requires IsWalk(job.workspace, walk)
    ensures forall r :: r in ExportedManifest(job, walk).changes <==>
              || (exists p :: p in job.workspace && !InGit(p) && Judge(job, p) == Exported(r))
              || (exists e :: e in job.baseline.included && e.path !in Seen(job, walk) && r == DeletionOf(e))
    ensures forall b :: b in ExportedManifest(job, walk).rejected <==>
              exists p :: p in job.workspace && !InGit(p) && Judge(job, p) == Unsafe && Shown(p) == b
  {
    hide Judge, DeletionOf, Records, Deletions, Refusals;
    var m := ExportedManifest(job, walk);
    var all := Records(job, walk) + Deletions(job.baseline.included, Seen(job, walk));
    SortPermutes(all, RecordLe);
    MembersOfPermutation(m.changes, all);
    SortPermutes(Refusals(job, walk), BytesLeq);
    MembersOfPermutation(m.rejected, Refusals(job, walk));
    forall r
      ensures r in all <==>
              || (exists p :: p in job.workspace && !InGit(p) && Judge(job, p) == Exported(r))
              || (exists e :: e in job.baseline.included && e.path !in Seen(job, walk) && r == DeletionOf(e))
    {
      RecordsMembers(job, walk, r);
      DeletionsMembers(job.baseline.included, Seen(job, walk), r);
    }
    forall b
      ensures b in Refusals(job, walk) <==>
              exists p :: p in job.workspace && !InGit(p) && Judge(job, p) == Unsafe && Shown(p) == b
    {
      RefusalsMembers(job, walk, b);
    }
  }

  /** A record of the deletion of a baseline file that no remaining entry of the workspace stands for. */
  ghost predicate IsDeletionRecord(job: Job, r: ChangeRecord) {
    && r.kind == Deleted && r.exportedSha256 == None && r.bytes == None && r.executable == None
    && (exists e :: e in job.baseline.included && e.path == r.path && r.baselineSha256 == Some(e.sha256))
    && (forall p :: p in job.workspace && !InGit(p) && !Denied(job.policy, job.matches, p) && !job.workspace[p].Dir? ==>
          !IsPrinted(Joined(p), r.path))
  }

  /** A manifest read off the workspace and the baseline, field by field. */
  ghost predicate IsReport(job: Job, m: ChangeManifest) {
    && m.schemaVersion == 1 && m.baselineRunId == job.baseline.runId && m.policySha256 == job.policySha256
    && (forall r :: r in m.changes <==>
          (exists p :: p in job.workspace && !InGit(p) && IsFileRecord(job, p, r)) || IsDeletionRecord(job, r))
    && (forall b :: b in m.rejected <==>
          exists p :: p in job.workspace && !InGit(p) && IsUnsafe(job, p) && IsPrinted(Joined(p), b))
    && (forall i, j :: 0 <= i < j < |m.changes| ==> IsBefore(m.changes[i].path, m.changes[j].path))
    && (forall i, j :: 0 <= i < j < |m.rejected| ==> IsBefore(m.rejected[i], m.rejected[j]))
  }

  lemma DeletionMeans(job: Job, walk: seq<Path>, r: ChangeRecord)
    requires IsWalk(job.workspace, walk)
    ensures (exists e :: e in job.baseline.included && e.path !in Seen(job, walk) && r == DeletionOf(e)) <==> IsDeletionRecord(job, r)
  {
    hide Denied, Seen, InGit, IsPrinted, Rendered;
    SeenMembers(job, walk, r.path);
    forall p
      ensures IsPrinted(Joined(p), r.path) <==> Shown(p) == r.path
    {
      PrintedMeans(Joined(p), r.path);
    }
    if IsDeletionRecord(job, r) {
      var e :| e in job.baseline.included && e.path == r.path && r.baselineSha256 == Some(e.sha256);
      assert r == DeletionOf(e);
    }
  }

  /** The manifest of an export, field by field and in order. */
  lemma ExportMeans(job: Job, walk: seq<Path>)
    requires IsWalk(job.workspace, walk)
    ensures IsReport(job, ExportedManifest(job, walk))
  {
    hide Judge, DeletionOf, Seen, IsFileRecord, IsUnsafe, IsDeletionRecord, InGit, IsPrinted, Rendered, IsBefore, ExportedManifest;
    var m := ExportedManifest(job, walk);
    ManifestAccountsForAll(job, walk);
    ManifestIsSorted(job, walk);
    forall r
      ensures r in m.changes <==>
                (exists p :: p in job.workspace && !InGit(p) && IsFileRecord(job, p, r)) || IsDeletionRecord(job, r)
    {
      DeletionMeans(job, walk, r);
      forall p | p in job.workspace
        ensures Judge(job, p) == Exported(r) <==> IsFileRecord(job, p, r)
      {
        JudgeMeans(job, p, r);
      }
    }
    forall b
      ensures b in m.rejected <==> exists p :: p in job.workspace && !InGit(p) && IsUnsafe(job, p) && IsPrinted(Joined(p), b)
    {
      forall p | p in job.workspace
        ensures (Judge(job, p) == Unsafe <==> IsUnsafe(job, p)) && (IsPrinted(Joined(p), b) <==> Shown(p) == b)
      {
        JudgeMeans(job, p, ChangeRecord(b, Deleted, None, None, None, None));
        PrintedMeans(Joined(p), b);
      }
    }
  }

  lemma ManifestIsSorted(job: Job, walk: seq<Path>)
    requires IsWalk(job.workspace, walk)
    ensures var m := ExportedManifest(job, walk);
            && m.schemaVersion == 1 && m.baselineRunId == job.baseline.runId && m.policySha256 == job.policySha256
            && (forall i, j :: 0 <= i < j < |m.changes| ==> IsBefore(m.changes[i].path, m.changes[j].path))
            && (forall i, j :: 0 <= i < j < |m.rejected| ==> IsBefore(m.rejected[i], m.rejected[j]))
  {
    hide Records, Deletions, Refusals, Seen, BytesLe, IsBefore;
    var m := ExportedManifest(job, walk);
    RecordLeIsPreorder();
    BytesLeqIsPreorder();
    SortSorts(Records(job, walk) + Deletions(job.baseline.included, Seen(job, walk)), RecordLe);
    SortSorts(Refusals(job, walk), BytesLeq);
    forall i, j | 0 <= i < j < |m.changes|
      ensures IsBefore(m.changes[i].path, m.changes[j].path)
    {
      assert RecordLe(m.changes[i], m.changes[j]);
      BytesLeMeans(m.changes[i].path, m.changes[j].path);
    }
    forall i, j | 0 <= i < j < |m.rejected|
      ensures IsBefore(m.rejected[i], m.rejected[j])
    {
      assert BytesLeq(m.rejected[i], m.rejected[j]);
      BytesLeMeans(m.rejected[i], m.rejected[j]);
    }
  }

  lemma RecordLeIsPreorder()
    ensures IsPreorder(RecordLe)
  {
    hide BytesLe;
    forall x: ChangeRecord, y: ChangeRecord
      ensures RecordLe(x, y) || RecordLe(y, x)
    {
      BytesLeTotal(x.path, y.path);
    }
    forall x: ChangeRecord, y: ChangeRecord, z: ChangeRecord | RecordLe(x, y) && RecordLe(y, z)
      ensures RecordLe(x, z)
    {
      BytesLeTransitive(x.path, y.path, z.path);
    }
  }

  /** Nothing was changed, added, removed or made unsafe in the workspace. */
  ghost predicate IsUntouched(job: Job, walk: seq<Path>)
    requires IsWalk(job.workspace, walk)
  {
    && (forall p :: p in job.workspace && !InGit(p) ==> Judge(job, p) == Skipped || Judge(job, p) == Unchanged)
    && (forall e :: e in job.baseline.included ==>
          exists p :: p in job.workspace && !InGit(p) && Counts(job, p) && Shown(p) == e.path)
  }

  lemma SeenMembers(job: Job, walk: seq<Path>, b: Bytes)
    requires IsWalk(job.workspace, walk)
    ensures b in Seen(job, walk) <==> exists p :: p in job.workspace && !InGit(p) && Counts(job, p) && Shown(p) == b
  {
  }

  lemma NoMembers<T>(s: seq<T>)
    ensures (forall x :: x !in s) ==> s == []
  {
    if s != [] {
      assert s[0] in s;
    }
  }

  /** The manifest is empty exactly for an untouched workspace. */
  lemma EmptyIffUntouched(job: Job, walk: seq<Path>)
    requires IsWalk(job.workspace, walk)
    ensures IsUntouched(job, walk) <==>
              ExportedManifest(job, walk).changes == [] && ExportedManifest(job, walk).rejected == []
  {
    hide Seen, Records, Refusals, Deletions, DeletionOf, RecordFor, ExportedManifest;
    var m := ExportedManifest(job, walk);
    ManifestAccountsForAll(job, walk);
    if m.changes == [] && m.rejected == [] {
      forall p | p in job.workspace && !InGit(p)
        ensures Judge(job, p) == Skipped || Judge(job, p) == Unchanged
      {
        assert Shown(p) !in m.rejected;
      }
      forall e | e in job.baseline.included
        ensures exists p :: p in job.workspace && !InGit(p) && Counts(job, p) && Shown(p) == e.path
      {
        assert DeletionOf(e) !in m.changes;
        SeenMembers(job, walk, e.path);
      }
    }
    if IsUntouched(job, walk) {
      forall e | e in job.baseline.included
        ensures e.path in Seen(job, walk)
      {
        SeenMembers(job, walk, e.path);
      }
      NoMembers(m.changes);
      NoMembers(m.rejected);
    }
  }

  // ---------------------------------------------------------------------------------------------
  // A manifest without rejections is accepted
  // ---------------------------------------------------------------------------------------------

  predicate SameRendered(a: ChangeRecord, b: ChangeRecord) {
    a.path == b.path
  }

  ghost predicate DistinctRecords(records: seq<ChangeRecord>) {
    forall i, j :: 0 <= i < j < |records| ==> records[i].path != records[j].path
  }

  lemma {:induction false} RecordsAreDistinct(job: Job, walk: seq<Path>)
    requires IsWorkspace(job.workspace)
    requires forall p :: p in walk ==> p in job.workspace
    requires forall i, j :: 0 <= i < j < |walk| ==> walk[i] != walk[j]
    ensures DistinctRecords(Records(job, walk))
  {
    if walk != [] {
      var front, last := walk[..|walk| - 1], walk[|walk| - 1];
      RecordsAreDistinct(job, front);
      var rs := Records(job, front);
      forall i | 0 <= i < |rs|
        ensures rs[i].path != Shown(last)
      {
        RecordsMembers(job, front, rs[i]);
        var p :| p in front && Judge(job, p) == Exported(rs[i]);
        var k :| 0 <= k < |front| && front[k] == p;
        assert walk[k] == p && walk[|walk| - 1] == last;
        WorkspaceShownDiffers(job.workspace, p, last);
      }
    }
  }

  lemma WorkspaceShownDiffers(w: Tree, p: Path, q: Path)
    requires IsWorkspace(w) && p in w && q in w && p != q
    ensures Shown(p) != Shown(q)
  {
    if Shown(p) == Shown(q) {
      ShownIsInjective(p, q);
    }
  }

  lemma {:induction false} DeletionsAreDistinct(included: seq<IncludedFile>, seen: set<Bytes>)
    requires forall i, j :: 0 <= i < j < |included| ==> included[i].path != included[j].path
    ensures DistinctRecords(Deletions(included, seen))
    ensures forall r :: r in Deletions(included, seen) ==> r.path !in seen && r.kind == Deleted
  {
    if included != [] {
      var front, last := included[..|included| - 1], included[|included| - 1];
      DeletionsAreDistinct(front, seen);
      var ds := Deletions(front, seen);
      forall i | 0 <= i < |ds|
        ensures ds[i].path != last.path
      {
        DeletionsMembers(front, seen, ds[i]);
        var e :| e in front && e.path !in seen && ds[i] == DeletionOf(e);
        var k :| 0 <= k < |front| && front[k] == e;
        assert included[k] == e;
      }
    }
  }

  lemma AllRecordsAreDistinct(job: Job, walk: seq<Path>)
    requires IsWorkspace(job.workspace) && IsWalk(job.workspace, walk) && IsStaged(job.baseline)
    ensures DistinctRecords(ExportedManifest(job, walk).changes)
  {
    hide IsWorkspace, Records, Deletions, IsStaged;
    var rs, ds := Records(job, walk), Deletions(job.baseline.included, Seen(job, walk));
    RecordsAreDistinct(job, walk);
    StagedIsDistinct(job.baseline);
    DeletionsAreDistinct(job.baseline.included, Seen(job, walk));
    forall i | 0 <= i < |rs|
      ensures rs[i].path in Seen(job, walk)
    {
      RecordsMembers(job, walk, rs[i]);
    }
    var all := rs + ds;
    forall i, j | 0 <= i < j < |all|
      ensures all[i].path != all[j].path
    {
      if i < |rs| && |rs| <= j {
        assert ds[j - |rs|] in ds;
      }
    }
    SortPermutes(all, RecordLe);
    assert Separated(all, SameRendered);
    SeparatedIsPermutationInvariant(all, Sort(all, RecordLe), SameRendered);
  }

  lemma StagedIsDistinct(baseline: AuditManifest)
    requires IsStaged(baseline)
    ensures forall i, j :: 0 <= i < j < |baseline.included| ==> baseline.included[i].path != baseline.included[j].path
  {
  }

  lemma {:induction false} EntryIsFound(included: seq<IncludedFile>, e: IncludedFile)
    requires e in included
    requires forall i, j :: 0 <= i < j < |included| ==> included[i].path != included[j].path
    ensures BaselineEntry(included, e.path) == Some(e) && FirstEntry(included, e.path) == Some(e)
  {
    var b, f := BaselineEntry(included, e.path), FirstEntry(included, e.path);
    var k :| 0 <= k < |included| && included[k] == e;
    assert b.Some? && f.Some?;
    var i :| 0 <= i < |included| && included[i] == b.value;
    var j :| 0 <= j < |included| && included[j] == f.value;
  }

  lemma ChangedIsProper(job: Job, p: Path, r: ChangeRecord)
    requires IsWorkspace(job.workspace) && p in job.workspace && Judge(job, p) == Exported(r)
    ensures IsProper(job.baseline, r)
  {
    hide Shown, Unescaped, Target, Denied;
    ShownIsCanonical(p);
  }

  lemma DeletedIsProper(baseline: AuditManifest, e: IncludedFile)
    requires IsStaged(baseline) && e in baseline.included
    ensures IsProper(baseline, DeletionOf(e))
  {
    hide Shown, Unescaped, Target;
    EntryIsFound(baseline.included, e);
    ShownIsCanonical(Target(e.path));
  }

  lemma ExportedRecordIsProper(job: Job, walk: seq<Path>, r: ChangeRecord)
    requires IsWorkspace(job.workspace) && IsWalk(job.workspace, walk) && IsStaged(job.baseline)
    requires r in ExportedManifest(job, walk).changes
    ensures IsProper(job.baseline, r)
  {
    hide Records, Deletions, Seen, ExportedManifest, IsStaged, IsWorkspace, IsProper, Judge, DeletionOf;
    ManifestAccountsForAll(job, walk);
    if p :| p in job.workspace && !InGit(p) && Judge(job, p) == Exported(r) {
      ChangedIsProper(job, p, r);
    } else {
      var e :| e in job.baseline.included && e.path !in Seen(job, walk) && r == DeletionOf(e);
      DeletedIsProper(job.baseline, e);
    }
  }

  /** Whatever the workspace looks like: an export that rejected nothing is accepted by the
      validation that precedes apply, for the same baseline and policy. */
  lemma ExportIsAccepted(job: Job, walk: seq<Path>)
    requires IsWorkspace(job.workspace) && IsWalk(job.workspace, walk) && IsStaged(job.baseline)
    requires job.policySha256 == job.baseline.policySha256
    requires ExportedManifest(job, walk).rejected == []
    ensures Acceptable(job.baseline, ExportedManifest(job, walk))
  {
    hide IsWorkspace, IsStaged, IsProper;
    var m := ExportedManifest(job, walk);
    AllRecordsAreDistinct(job, walk);
    DistinctRenderedAt(m.changes);
    forall r | r in m.changes
      ensures IsProper(job.baseline, r)
    {
      ExportedRecordIsProper(job, walk, r);
    }
    AllProperFrom(job.baseline, m.changes);
  }

  // ---------------------------------------------------------------------------------------------
  // The steps that an export amounts to
  // ---------------------------------------------------------------------------------------------

  ghost function ExportSteps(job: Job, walk: seq<Path>, files: Tree): seq<Step>
    requires IsWalk(job.workspace, walk)
  {
    StepsOf(files, Plan(ExportedManifest(job, walk)))
  }

  /** The outcome of `ExportChanges` on a staged baseline. */
  ghost predicate IsExport(job: Job, walk: seq<Path>, files: Tree) {
    && IsWorkspace(job.workspace) && IsWalk(job.workspace, walk) && IsStaged(job.baseline)
    && Mirrors(files, job.workspace) && HoldsExports(job, walk, files)
  }

  lemma StepsMembers(job: Job, walk: seq<Path>, files: Tree, s: Step)
    requires IsWalk(job.workspace, walk)
    ensures s in ExportSteps(job, walk, files) <==>
              exists r :: r in ExportedManifest(job, walk).changes && s == StepOf(files, Resolved(r))
  {
    PlanStepsMembers(ExportedManifest(job, walk), files, s);
  }

  /** A changed file of the workspace becomes a step that writes its bytes. */
  ghost predicate WritesFile(job: Job, p: Path, s: Step)
    requires p in job.workspace && job.workspace[p].File?
  {
    && s.path == p && !s.Remove? && s.bytes == job.workspace[p].bytes
    && (s.Replace? <==> BaselineEntry(job.baseline.included, Shown(p)).Some?)
  }

  lemma StepOfExported(job: Job, walk: seq<Path>, files: Tree, p: Path)
    requires IsExport(job, walk, files) && p in job.workspace && !InGit(p) && Judge(job, p).Exported?
    ensures WritesFile(job, p, StepOf(files, Resolved(Judge(job, p).record)))
  {
    hide Shown, Target, Unescaped, Denied;
    ShownIsCanonical(p);
    assert p in walk;
    ResolvePresent(files, p);
  }

  lemma PrivateModes()
    ensures (0x1C0 as bv32) & SHARED_ACCESS == 0 && (0x180 as bv32) & SHARED_ACCESS == 0
    ensures IsExecutable(0x1C0) && !IsExecutable(0x180)
    ensures forall mode :: IsExecutable(mode) <==> mode & 0x49 != 0
  {
  }

  lemma ExportedIsClear(job: Job, walk: seq<Path>, files: Tree, p: Path)
    requires IsExport(job, walk, files) && p in job.workspace && !InGit(p) && Judge(job, p).Exported?
    ensures ExportClear(files, Resolved(Judge(job, p).record))
  {
    hide Shown, Target, Unescaped, Denied, IsExecutable;
    ShownIsCanonical(p);
    PrivateModes();
    assert p in walk;
    ResolvePresent(files, p);
  }

  /** What export publishes passes the verification that apply makes of it, and no two planned changes
      are on the same path. */
  lemma ExportPassesVerification(job: Job, walk: seq<Path>, files: Tree)
    requires IsExport(job, walk, files)
    ensures var plan := Plan(ExportedManifest(job, walk));
            DistinctTargets(plan) && forall i :: 0 <= i < |plan| ==> ExportClear(files, plan[i])
  {
    hide ExportedManifest, Judge, ExportClear, Resolved, DeletionOf, Target, Mirrors, HoldsExports, IsStaged, IsWorkspace, Seen,
      Plan, StepOf;
    var m := ExportedManifest(job, walk);
    var plan := Plan(m);
    StepsAreDistinct(job, walk, files);
    forall i, j | 0 <= i < j < |plan|
      ensures plan[i].path != plan[j].path
    {
      PathOfStep(files, plan[i]);
      PathOfStep(files, plan[j]);
    }
    PlanIsSortedPermutation(m);
    ManifestAccountsForAll(job, walk);
    forall i | 0 <= i < |plan|
      ensures ExportClear(files, plan[i])
    {
      assert plan[i] in plan;
      var k :| 0 <= k < |m.changes| && plan[i] == Resolved(m.changes[k]);
      var r := m.changes[k];
      assert r in m.changes;
      if p :| p in job.workspace && !InGit(p) && Judge(job, p) == Exported(r) {
        ExportedIsClear(job, walk, files, p);
      } else {
        var e :| e in job.baseline.included && e.path !in Seen(job, walk) && r == DeletionOf(e);
        DeletionIsClear(files, e);
      }
    }
  }

  lemma PathOfStep(files: Tree, c: Change)
    ensures StepOf(files, c).path == c.path
  {
  }

  lemma DeletionIsClear(files: Tree, e: IncludedFile)
    ensures ExportClear(files, Resolved(DeletionOf(e)))
  {
  }

  /** The host side of the preflight: nothing was changed where the plan works. */
  ghost predicate HostIsClear(t: Tree, baseline: AuditManifest, plan: seq<Change>) {
    forall i :: 0 <= i < |plan| ==> SourceClear(t, baseline, plan[i])
  }

  lemma StepOfDeleted(files: Tree, e: IncludedFile)
    ensures StepOf(files, Resolved(DeletionOf(e))) == Remove(Target(e.path))
  {
  }

  /** Every step writes a changed file of the workspace or removes a file of the baseline. */
  lemma StepIsAccountedFor(job: Job, walk: seq<Path>, files: Tree, s: Step)
    requires IsExport(job, walk, files) && s in ExportSteps(job, walk, files)
    ensures
      || (exists p :: p in job.workspace && !InGit(p) && Judge(job, p).Exported? && WritesFile(job, p, s))
      || (exists e :: e in job.baseline.included && e.path !in Seen(job, walk) && s == Remove(Target(e.path)))
  {
    hide ExportSteps, ExportedManifest, Judge, WritesFile, StepOf, Resolved, DeletionOf, Target, Mirrors, HoldsExports, IsStaged, IsWorkspace, Seen;
    StepsMembers(job, walk, files, s);
    ManifestAccountsForAll(job, walk);
    var r :| r in ExportedManifest(job, walk).changes && s == StepOf(files, Resolved(r));
    if p :| p in job.workspace && !InGit(p) && Judge(job, p) == Exported(r) {
      StepOfExported(job, walk, files, p);
    } else {
      var e :| e in job.baseline.included && e.path !in Seen(job, walk) && r == DeletionOf(e);
      StepOfDeleted(files, e);
    }
  }

  lemma StepOfFileExists(job: Job, walk: seq<Path>, files: Tree, p: Path)
    requires IsExport(job, walk, files) && p in job.workspace && !InGit(p) && Judge(job, p).Exported?
    ensures exists s :: s in ExportSteps(job, walk, files) && WritesFile(job, p, s)
  {
    hide ExportSteps, ExportedManifest, WritesFile, StepOf, Resolved, Judge;
    ManifestAccountsForAll(job, walk);
    var r := Judge(job, p).record;
    assert Judge(job, p) == Exported(r);
    StepsMembers(job, walk, files, StepOf(files, Resolved(r)));
    StepOfExported(job, walk, files, p);
  }

  lemma StepOfDeletionExists(job: Job, walk: seq<Path>, files: Tree, e: IncludedFile)
    requires IsExport(job, walk, files) && e in job.baseline.included && e.path !in Seen(job, walk)
    ensures Remove(Target(e.path)) in ExportSteps(job, walk, files)
  {
    hide ExportSteps, ExportedManifest, StepOf, Resolved, DeletionOf, Target, Seen;
    ManifestAccountsForAll(job, walk);
    StepsMembers(job, walk, files, Remove(Target(e.path)));
    StepOfDeleted(files, e);
  }

  lemma StepsAreDistinct(job: Job, walk: seq<Path>, files: Tree)
    requires IsExport(job, walk, files)
    ensures DistinctPaths(ExportSteps(job, walk, files))
  {
    hide Mirrors, HoldsExports, IsWorkspace, Target, ExportedManifest, DistinctPaths;
    var m := ExportedManifest(job, walk);
    AllRecordsAreDistinct(job, walk);
    forall i, j | 0 <= i < j < |m.changes|
      ensures Target(m.changes[i].path) != Target(m.changes[j].path)
    {
      RecordTargets(job, walk, files, m.changes[i]);
      RecordTargets(job, walk, files, m.changes[j]);
    }
    PlanStepsAreDistinct(m, files);
  }

  /** The rendered path of a record is the canonical spelling of its target. */
  lemma RecordTargets(job: Job, walk: seq<Path>, files: Tree, r: ChangeRecord)
    requires IsExport(job, walk, files) && r in ExportedManifest(job, walk).changes
    ensures r.path == Shown(Target(r.path))
  {
    hide Mirrors, HoldsExports, ExportedManifest, Target, Shown, Seen;
    ManifestAccountsForAll(job, walk);
    if p :| p in job.workspace && !InGit(p) && Judge(job, p) == Exported(r) {
      ShownIsCanonical(p);
    }
  }

  // ---------------------------------------------------------------------------------------------
  // The host becomes the workspace
  // ---------------------------------------------------------------------------------------------

  /** The host still holds the staged content at every staged path. */
  ghost predicate HostMatches(t: Tree, baseline: AuditManifest) {
    forall e :: e in baseline.included ==>
      Target(e.path) in t && t[Target(e.path)].File? && Sha256(t[Target(e.path)].bytes) == e.sha256
  }

  ghost predicate IsWorkspaceFile(w: Tree, p: Path) {
    p in w && !InGit(p) && w[p].File?
  }

  ghost predicate IsStagedPath(baseline: AuditManifest, p: Path) {
    exists e :: e in baseline.included && Target(e.path) == p
  }

  /** Everything that is known after an export without rejections and a successful apply. */
  ghost predicate IsTransferred(job: Job, walk: seq<Path>, files: Tree, start: Tree, t: Tree) {
    && IsExport(job, walk, files) && ExportedManifest(job, walk).rejected == []
    && WellFormed(start) && HostMatches(start, job.baseline)
    && AllClear(start, files, job.baseline, Plan(ExportedManifest(job, walk)))
    && IsApplied(start, t, ExportSteps(job, walk, files))
  }

  lemma TransferHasOutcome(job: Job, walk: seq<Path>, files: Tree, start: Tree, t: Tree)
    requires IsTransferred(job, walk, files, start, t)
    ensures IsOutcome(ViewOf(start), ExportSteps(job, walk, files), ViewOf(t))
  {
    hide Mirrors, HoldsExports, IsWorkspace, IsStaged, Target, ExportedManifest, DistinctPaths, NotNested, HostMatches, AllClear, IsOutcome;
    var m := ExportedManifest(job, walk);
    StepsAreDistinct(job, walk, files);
    assert forall c :: c in Plan(m) ==> c.path != [] by {
      PlanTargets(job, walk, files);
    }
    PreflightImpliesShape(start, files, job.baseline, Plan(m));
    UpdatedIsOutcome(ViewOf(start), ExportSteps(job, walk, files));
  }

  lemma PlanTargets(job: Job, walk: seq<Path>, files: Tree)
    requires IsExport(job, walk, files)
    ensures forall c :: c in Plan(ExportedManifest(job, walk)) ==> c.path != []
  {
    hide Mirrors, HoldsExports, IsProper, ExportedManifest, IsWorkspace, IsStaged, Target;
    var m := ExportedManifest(job, walk);
    PlanIsSortedPermutation(m);
    forall c | c in Plan(m)
      ensures c.path != []
    {
      var i :| 0 <= i < |m.changes| && c == Resolved(m.changes[i]);
      ExportedRecordIsProper(job, walk, m.changes[i]);
      ProperTarget(job.baseline, m.changes[i]);
    }
  }

  lemma ProperTarget(baseline: AuditManifest, r: ChangeRecord)
    requires IsProper(baseline, r)
    ensures Target(r.path) != []
  {
    TargetOfAccepted(r.path, Unescaped(r.path).value);
  }

  lemma NothingIsUnsafe(job: Job, walk: seq<Path>, p: Path)
    requires IsWalk(job.workspace, walk) && ExportedManifest(job, walk).rejected == []
    requires p in job.workspace && !InGit(p)
    ensures Judge(job, p) != Unsafe
  {
    hide Judge, ExportedManifest, Seen;
    ManifestAccountsForAll(job, walk);
    assert Shown(p) !in ExportedManifest(job, walk).rejected;
  }

  lemma ReplacedIsPresent(job: Job, walk: seq<Path>, files: Tree, start: Tree, s: Step)
    requires IsWalk(job.workspace, walk)
    requires AllClear(start, files, job.baseline, Plan(ExportedManifest(job, walk)))
    requires s in ExportSteps(job, walk, files) && s.Replace?
    ensures s.path in start && start[s.path].File?
  {
    var plan, steps := Plan(ExportedManifest(job, walk)), ExportSteps(job, walk, files);
    var i :| 0 <= i < |steps| && steps[i] == s;
    assert SourceClear(start, job.baseline, plan[i]);
    FoundIsPresent(start, s.path);
  }

  lemma UnchangedHasNoStep(job: Job, walk: seq<Path>, files: Tree, p: Path)
    requires IsExport(job, walk, files) && IsWorkspaceFile(job.workspace, p) && Judge(job, p) == Unchanged
    ensures p !in PathsOf(ExportSteps(job, walk, files))
  {
    hide Mirrors, HoldsExports, ExportedManifest, Target, Shown, ExportSteps;
    forall s | s in ExportSteps(job, walk, files)
      ensures s.path != p
    {
      StepIsAccountedFor(job, walk, files, s);
      if e :| e in job.baseline.included && e.path !in Seen(job, walk) && s == Remove(Target(e.path)) {
        assert p in walk && Counts(job, p);
        assert Shown(p) in Seen(job, walk);
      }
    }
  }

  lemma FileIsTransferred(job: Job, walk: seq<Path>, files: Tree, start: Tree, t: Tree, p: Path)
    requires IsTransferred(job, walk, files, start, t) && IsWorkspaceFile(job.workspace, p)
    ensures p in t && t[p].File? && t[p].bytes == job.workspace[p].bytes
  {
    hide Mirrors, HoldsExports, IsWorkspace, ExportedManifest, ExportSteps, AllClear;
    NothingIsUnsafe(job, walk, p);
    if Judge(job, p).Exported? {
      StepOfFileExists(job, walk, files, p);
      var s :| s in ExportSteps(job, walk, files) && WritesFile(job, p, s);
      TransferHasOutcome(job, walk, files, start, t);
      assert Holds(ViewOf(start), s, ViewOf(t));
      if s.Replace? {
        ReplacedIsPresent(job, walk, files, start, s);
      }
    } else {
      UnchangedHasNoStep(job, walk, files, p);
      UnchangedMatches(job, start, p);
    }
  }

  lemma UnchangedMatches(job: Job, start: Tree, p: Path)
    requires HostMatches(start, job.baseline) && IsWorkspace(job.workspace) && IsStaged(job.baseline)
    requires IsWorkspaceFile(job.workspace, p) && Judge(job, p) == Unchanged
    ensures p in start && start[p].File? && start[p].bytes == job.workspace[p].bytes
  {
    hide Shown, Target;
    var e := BaselineEntry(job.baseline.included, Shown(p)).value;
    ShownIsCanonical(p);
    assert e in job.baseline.included && Target(e.path) == p;
  }

  lemma RemovedIsGone(job: Job, walk: seq<Path>, files: Tree, start: Tree, t: Tree, e: IncludedFile)
    requires IsTransferred(job, walk, files, start, t) && e in job.baseline.included
    requires !IsWorkspaceFile(job.workspace, Target(e.path))
    ensures Target(e.path) !in t
  {
    hide Mirrors, HoldsExports, ExportedManifest, ExportSteps, AllClear, Target, Shown, HostMatches, Judge;
    if e.path in Seen(job, walk) {
      var p :| p in walk && Counts(job, p) && Shown(p) == e.path;
      ShownIsCanonical(p);
      NothingIsUnsafe(job, walk, p);
      CountedIsFile(job, p);
    } else {
      StepOfDeletionExists(job, walk, files, e);
      TransferHasOutcome(job, walk, files, start, t);
      assert Holds(ViewOf(start), Remove(Target(e.path)), ViewOf(t));
    }
  }

  lemma CountedIsFile(job: Job, p: Path)
    requires p in job.workspace && Counts(job, p) && Judge(job, p) != Unsafe
    ensures job.workspace[p].File?
  {
  }

  lemma StepPathIsKnown(job: Job, walk: seq<Path>, files: Tree, q: Path)
    requires IsExport(job, walk, files) && q in PathsOf(ExportSteps(job, walk, files))
    ensures IsWorkspaceFile(job.workspace, q) || IsStagedPath(job.baseline, q)
  {
    hide Mirrors, HoldsExports, ExportedManifest, ExportSteps, Target, Shown, Denied, IsWorkspace, IsStaged, Seen;
    var s :| s in ExportSteps(job, walk, files) && s.path == q;
    StepIsAccountedFor(job, walk, files, s);
  }

  lemma NewIsFromWorkspace(job: Job, walk: seq<Path>, files: Tree, start: Tree, t: Tree, q: Path)
    requires IsTransferred(job, walk, files, start, t) && q in t && q !in start
    ensures IsWorkspaceFile(job.workspace, q) || (t[q].Dir? && q in job.workspace && job.workspace[q].Dir?)
  {
    hide Mirrors, HoldsExports, ExportedManifest, ExportSteps, Target, Shown, Denied, IsStaged, Seen, AllClear;
    TransferHasOutcome(job, walk, files, start, t);
    var v, steps := ViewOf(start), ExportSteps(job, walk, files);
    if q in PathsOf(steps) {
      var s :| s in steps && s.path == q;
      assert Holds(v, s, ViewOf(t));
      StepIsAccountedFor(job, walk, files, s);
    } else {
      assert IsNewParent(steps, q);
      var s :| s in steps && s.Put? && q in Ancestors(s.path);
      StepIsAccountedFor(job, walk, files, s);
      AncestorInTree(job.workspace, s.path, q);
      assert ViewOf(t)[q] == Directory;
    }
  }

  /**
    If export rejected nothing, the host still matched the baseline at all staged paths and apply
    succeeded, then the host's files hold the workspace's bytes at every path of the baseline or the
    workspace; everything else on the host is the very same node as before; and whatever is new is
    a file of the workspace or a directory of the workspace.
   */
  lemma HostBecomesWorkspace(job: Job, walk: seq<Path>, files: Tree, start: Tree, t: Tree)
    requires IsTransferred(job, walk, files, start, t)
    ensures forall p :: IsWorkspaceFile(job.workspace, p) ==> p in t && t[p].File? && t[p].bytes == job.workspace[p].bytes
    ensures forall p :: IsStagedPath(job.baseline, p) && !IsWorkspaceFile(job.workspace, p) ==> p !in t
    ensures forall q :: q in start && !IsStagedPath(job.baseline, q) && !IsWorkspaceFile(job.workspace, q) ==>
              q in t && t[q] == start[q]
    ensures forall q :: q in t && q !in start ==>
              IsWorkspaceFile(job.workspace, q) || (t[q].Dir? && q in job.workspace && job.workspace[q].Dir?)
  {
    forall p | IsWorkspaceFile(job.workspace, p)
      ensures p in t && t[p].File? && t[p].bytes == job.workspace[p].bytes
    {
      FileIsTransferred(job, walk, files, start, t, p);
    }
    forall p | IsStagedPath(job.baseline, p) && !IsWorkspaceFile(job.workspace, p)
      ensures p !in t
    {
      var e :| e in job.baseline.included && Target(e.path) == p;
      RemovedIsGone(job, walk, files, start, t, e);
    }
    forall q | q in start && !IsStagedPath(job.baseline, q) && !IsWorkspaceFile(job.workspace, q)
      ensures q in t && t[q] == start[q]
    {
      if q in PathsOf(ExportSteps(job, walk, files)) {
        StepPathIsKnown(job, walk, files, q);
      }
    }
    forall q | q in t && q !in start
      ensures IsWorkspaceFile(job.workspace, q) || (t[q].Dir? && q in job.workspace && job.workspace[q].Dir?)
    {
      NewIsFromWorkspace(job, walk, files, start, t, q);
    }
  }

  /** The policy is that of the baseline, deletions are authorised if there are any, nothing was changed on
      the host where the plan works, and the directories on the way can be trusted. */
  ghost predicate MayProceed(t: Tree, job: Job, walk: seq<Path>, allowDeletions: bool)
    requires IsWalk(job.workspace, walk)
  {
    var plan := Plan(ExportedManifest(job, walk));
    && job.policySha256 == job.baseline.policySha256
    && (CountKind(plan, Deleted) > 0 ==> allowDeletions)
    && HostIsClear(t, job.baseline, plan) && TrustedParents(t, plan)
  }

  /** An export without rejections can be applied whenever the host allows it. */
  lemma ExportCanBeApplied(job: Job, walk: seq<Path>, files: Tree, t: Tree, allowDeletions: bool)
    requires IsExport(job, walk, files) && ExportedManifest(job, walk).rejected == []
    requires MayProceed(t, job, walk, allowDeletions)
    ensures CanApply(t, files, job.baseline, ExportedManifest(job, walk), allowDeletions, true)
    ensures DistinctTargets(Plan(ExportedManifest(job, walk)))
  {
    hide ExportedManifest, Plan, SourceClear, ExportClear, Acceptable, TrustedParents, Mirrors, HoldsExports, IsStaged, IsWorkspace,
      DistinctTargets;
    ExportIsAccepted(job, walk);
    ExportPassesVerification(job, walk, files);
  }

  /** Export, then apply: the two in sequence. Once the export is complete without rejections, only the
      state of the host, a missing authorisation, a refused call or a taken name can stop the rest. */
  method ExportAndApply(host: Host, job: Job, walk: seq<Path>, allowDeletions: bool)
    returns (ok: bool, exported: bool)
    requires host.Valid() && IsWorkspace(job.workspace) && IsWalk(job.workspace, walk) && IsStaged(job.baseline)
    requires HostMatches(host.tree, job.baseline)
    modifies host
    ensures host.Valid()
    ensures ok ==> exported && forall p :: IsWorkspaceFile(job.workspace, p) ==>
                     p in host.tree && host.tree[p].File? && host.tree[p].bytes == job.workspace[p].bytes
    ensures ok ==> forall p :: IsStagedPath(job.baseline, p) && !IsWorkspaceFile(job.workspace, p) ==> p !in host.tree
    ensures ok ==> forall q :: q in old(host.tree) && !IsStagedPath(job.baseline, q) && !IsWorkspaceFile(job.workspace, q) ==>
                     q in host.tree && host.tree[q] == old(host.tree)[q]
    ensures ok ==> forall q :: q in host.tree && q !in old(host.tree) ==>
                     || IsWorkspaceFile(job.workspace, q)
                     || (host.tree[q].Dir? && q in job.workspace && job.workspace[q].Dir?)
    ensures host.faults == old(host.faults) && host.lucky && exported ==>
              (MayProceed(old(host.tree), job, walk, allowDeletions) ==> ok)
  {
    hide IsWorkspace, IsStaged, HostMatches, Mirrors, HoldsExports, ExportedManifest, AllClear, IsApplied, Acceptable,
      Plan, StepsOf, IsWorkspaceFile, IsStagedPath, SafeSince, IsRestored, IsAppliedUpToSlots, WithinLimits, HostIsClear,
      TrustedParents, DistinctTargets;
    var result := ExportChanges(job, walk);
    exported := result.Done? && result.manifest.rejected == [];
    if !exported {
      return false, exported;
    }
    ghost var start := host.tree;
    ghost var commit;
    var r;
    r, commit := ApplyExportedChanges(host, job.baseline, result.files, result.manifest, allowDeletions, true, true);
    ok := r.Ok?;
    if ok {
      HostBecomesWorkspace(job, walk, result.files, start, host.tree);
    }
    if MayProceed(start, job, walk, allowDeletions) {
      ExportCanBeApplied(job, walk, result.files, start, allowDeletions);
    }
  }
}
