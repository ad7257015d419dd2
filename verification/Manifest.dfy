/**
  The staging baseline, the change manifest, and the validation that precedes every apply.
 */
module Manifest {
  import opened PathCodec
  import opened HostTree
  import opened Sorting

  datatype Result<+T> = Ok(value: T) | Err(error: ApplyError)

  datatype ApplyError =
    | UnsafeManifest
    | RejectedOutput(count: nat)
    | DeletionAuthorizationRequired(count: nat)
    | UnsafeSource
    | UnsafeExport
    | Conflict
    | Io
    | RollbackIncomplete(cause: ApplyError)
    | AppliedButCleanupFailed

  /** An ideal hash: equal digests exactly for equal contents. */
  datatype Digest = Digest(preimage: Bytes)

  function Sha256(bytes: Bytes): (d: Digest)
    ensures d.preimage == bytes
  {
    Digest(bytes)
  }

  predicate BytesLeq(a: Bytes, b: Bytes) {
    BytesLe(a, b)
  }

  lemma BytesLeqIsPreorder()
    ensures IsPreorder(BytesLeq)
  {
    forall x: Bytes, y: Bytes
      ensures BytesLeq(x, y) || BytesLeq(y, x)
    {
      BytesLeTotal(x, y);
    }
    forall x: Bytes, y: Bytes, z: Bytes | BytesLeq(x, y) && BytesLeq(y, z)
      ensures BytesLeq(x, z)
    {
      BytesLeTransitive(x, y, z);
    }
  }

  datatype IncludedFile = IncludedFile(path: Bytes, bytes: nat, sha256: Digest, executable: bool)
  datatype AuditManifest = AuditManifest(runId: nat, policySha256: Digest, included: seq<IncludedFile>)

  datatype ChangeKind = Added | Modified | Deleted
  datatype ChangeRecord = ChangeRecord(
    path: Bytes,
    kind: ChangeKind,
    baselineSha256: Option<Digest>,
    exportedSha256: Option<Digest>,
    bytes: Option<nat>,
    executable: Option<bool>)

  datatype ChangeManifest = ChangeManifest(
    schemaVersion: nat,
    baselineRunId: nat,
    policySha256: Digest,
    changes: seq<ChangeRecord>,
    rejected: seq<Bytes>)

  datatype Change = Change(path: Path, record: ChangeRecord)

  /** The entry that a map collected from the list holds: the last one of that path. */
  function BaselineEntry(included: seq<IncludedFile>, rendered: Bytes): (r: Option<IncludedFile>)
    ensures r.Some? ==> r.value in included && r.value.path == rendered
    ensures r.None? ==> forall i :: 0 <= i < |included| ==> included[i].path != rendered
  {
    if included == [] then None
    else if included[|included| - 1].path == rendered then Some(included[|included| - 1])
    else BaselineEntry(included[..|included| - 1], rendered)
  }

  /** The entry that a linear search finds: the first one of that path. */
  function FirstEntry(included: seq<IncludedFile>, rendered: Bytes): (r: Option<IncludedFile>)
    ensures r.Some? ==> r.value in included && r.value.path == rendered
    ensures r.None? ==> forall i :: 0 <= i < |included| ==> included[i].path != rendered
  {
    if included == [] then None
    else if included[0].path == rendered then Some(included[0])
    else FirstEntry(included[1..], rendered)
  }

  predicate RecordIsConsistent(baseline: AuditManifest, record: ChangeRecord) {
    var entry := BaselineEntry(baseline.included, record.path);
    match record.kind
    case Added =>
      entry.None? && record.baselineSha256.None?
      && record.exportedSha256.Some? && record.bytes.Some? && record.executable.Some?
    case Modified =>
      entry.Some? && record.baselineSha256 == Some(entry.value.sha256)
      && record.exportedSha256.Some? && record.bytes.Some? && record.executable.Some?
    case Deleted =>
      entry.Some? && record.baselineSha256 == Some(entry.value.sha256)
      && record.exportedSha256.None? && record.bytes.None? && record.executable.None?
  }

  predicate HeaderMatches(baseline: AuditManifest, manifest: ChangeManifest) {
    && manifest.schemaVersion == 1
    && manifest.baselineRunId == baseline.runId
    && manifest.policySha256 == baseline.policySha256
  }

  /** The rendered path is the printed form of some valid path. */
  predicate IsCanonical(rendered: Bytes) {
    Unescaped(rendered).Some? && Accepts(rendered, Unescaped(rendered).value)
  }

  lemma CanonicalIsPrinted(rendered: Bytes)
    ensures IsCanonical(rendered) <==> exists path :: IsPrintedCandidate(rendered, path)
  {
    hide IsPrintedCandidate, IsValidCandidate, Rendered;
    if Unescaped(rendered).Some? {
      AcceptsMeans(rendered, Unescaped(rendered).value);
    }
    if path :| IsPrintedCandidate(rendered, path) {
      AcceptsMeans(rendered, path);
      UnescapedRendered(path);
    }
  }

  function RenderedPaths(records: seq<ChangeRecord>): set<Bytes> {
    if records == [] then {}
    else RenderedPaths(records[..|records| - 1]) + {records[|records| - 1].path}
  }

  predicate DistinctRendered(records: seq<ChangeRecord>) {
    records == []
    || (DistinctRendered(records[..|records| - 1])
        && records[|records| - 1].path !in RenderedPaths(records[..|records| - 1]))
  }

  lemma {:induction false} RenderedPathsAre(records: seq<ChangeRecord>)
    ensures forall p :: p in RenderedPaths(records) <==> exists i :: 0 <= i < |records| && records[i].path == p
  {
    if records != [] {
      RenderedPathsAre(records[..|records| - 1]);
    }
  }

  lemma {:induction false} DistinctRenderedAt(records: seq<ChangeRecord>)
    ensures DistinctRendered(records) <==>
              forall i, j :: 0 <= i < j < |records| ==> records[i].path != records[j].path
  {
    if records != [] {
      var front := records[..|records| - 1];
      DistinctRenderedAt(front);
      RenderedPathsAre(front);
      if DistinctRendered(records) {
        forall i, j | 0 <= i < j < |records|
          ensures records[i].path != records[j].path
        {
          assert front[i] == records[i];
        }
      } else if DistinctRendered(front) {
        var i :| 0 <= i < |front| && front[i].path == records[|front|].path;
        assert records[i].path == records[|front|].path;
      } else {
        var i, j :| 0 <= i < j < |front| && front[i].path == front[j].path;
        assert records[i].path == records[j].path;
      }
    }
  }

  lemma {:induction false} DistinctRenderedPrefix(records: seq<ChangeRecord>, k: nat)
    requires k <= |records| && DistinctRendered(records)
    ensures DistinctRendered(records[..k])
  {
    if k < |records| {
      DistinctRenderedPrefix(records[..|records| - 1], k);
      assert records[..|records| - 1][..k] == records[..k];
    } else {
      assert records[..k] == records;
    }
  }

  /** Exactly what `validate_manifest` accepts. */
  ghost predicate Acceptable(baseline: AuditManifest, manifest: ChangeManifest) {
    && HeaderMatches(baseline, manifest)
    && manifest.rejected == []
    && DistinctRendered(manifest.changes)
    && AllProper(baseline, manifest.changes)
  }

  ghost predicate AllProper(baseline: AuditManifest, records: seq<ChangeRecord>) {
    records == []
    || (AllProper(baseline, records[..|records| - 1]) && IsProper(baseline, records[|records| - 1]))
  }

  lemma {:induction false} AllProperAt(baseline: AuditManifest, records: seq<ChangeRecord>, i: nat)
    requires i < |records| && AllProper(baseline, records)
    ensures IsProper(baseline, records[i])
  {
    if i < |records| - 1 {
      AllProperAt(baseline, records[..|records| - 1], i);
    }
  }

  lemma {:induction false} AllProperFrom(baseline: AuditManifest, records: seq<ChangeRecord>)
    requires forall r :: r in records ==> IsProper(baseline, r)
    ensures AllProper(baseline, records)
  {
    if records != [] {
      assert records[|records| - 1] in records;
      AllProperFrom(baseline, records[..|records| - 1]);
    }
  }

  ghost predicate IsProper(baseline: AuditManifest, record: ChangeRecord) {
    IsCanonical(record.path) && RecordIsConsistent(baseline, record)
  }

  /** The entry that a map collected from the list holds for a path. */
  ghost predicate IsLastEntry(included: seq<IncludedFile>, path: Bytes, i: int) {
    0 <= i < |included| && included[i].path == path && forall j :: i < j < |included| ==> included[j].path != path
  }

  /** The entry that a linear search finds for a path. */
  ghost predicate IsFirstEntry(included: seq<IncludedFile>, path: Bytes, i: int) {
    0 <= i < |included| && included[i].path == path && forall j :: 0 <= j < i ==> included[j].path != path
  }

  lemma {:induction false} LastEntryIs(included: seq<IncludedFile>, path: Bytes)
    ensures var entry := BaselineEntry(included, path);
            && (entry.Some? ==> exists i :: IsLastEntry(included, path, i) && included[i] == entry.value)
            && forall i :: IsLastEntry(included, path, i) ==> entry == Some(included[i])
  {
    if included != [] {
      var front, last := included[..|included| - 1], included[|included| - 1];
      if last.path == path {
        assert IsLastEntry(included, path, |included| - 1);
      } else {
        LastEntryIs(front, path);
        forall i
          ensures IsLastEntry(front, path, i) <==> IsLastEntry(included, path, i)
        {
          assert 0 <= i < |front| ==> front[i] == included[i];
        }
      }
    }
  }

  lemma {:induction false} FirstEntryIs(included: seq<IncludedFile>, path: Bytes)
    ensures var entry := FirstEntry(included, path);
            && (entry.Some? ==> exists i :: IsFirstEntry(included, path, i) && included[i] == entry.value)
            && forall i :: IsFirstEntry(included, path, i) ==> entry == Some(included[i])
  {
    if included != [] {
      if included[0].path == path {
        assert IsFirstEntry(included, path, 0);
      } else {
        FirstEntryIs(included[1..], path);
        forall i
          ensures IsFirstEntry(included[1..], path, i) <==> IsFirstEntry(included, path, i + 1)
        {
        }
        forall i | IsFirstEntry(included, path, i)
          ensures FirstEntry(included, path) == Some(included[i])
        {
          assert IsFirstEntry(included[1..], path, i - 1);
        }
      }
    }
  }

  /** What a record must say, field by field. */
  ghost predicate FitsBaseline(included: seq<IncludedFile>, r: ChangeRecord) {
    match r.kind
    case Added =>
      && (forall i :: 0 <= i < |included| ==> included[i].path != r.path)
      && r.baselineSha256 == None && r.exportedSha256 != None && r.bytes != None && r.executable != None
    case Modified =>
      && (exists i :: IsLastEntry(included, r.path, i) && r.baselineSha256 == Some(included[i].sha256))
      && r.exportedSha256 != None && r.bytes != None && r.executable != None
    case Deleted =>
      && (exists i :: IsLastEntry(included, r.path, i) && r.baselineSha256 == Some(included[i].sha256))
      && r.exportedSha256 == None && r.bytes == None && r.executable == None
  }

  lemma ConsistentMeans(baseline: AuditManifest, r: ChangeRecord)
    ensures RecordIsConsistent(baseline, r) <==> FitsBaseline(baseline.included, r)
  {
    hide IsLastEntry;
    LastEntryIs(baseline.included, r.path);
  }

  /** What acceptance means, field by field: the header is that of the baseline, nothing was rejected, no
      rendered path occurs twice, and every record has the printed form of some valid path and fits the
      baseline. */
  ghost predicate IsSoundManifest(baseline: AuditManifest, manifest: ChangeManifest) {
    var records := manifest.changes;
    && manifest.schemaVersion == 1 && manifest.baselineRunId == baseline.runId
    && manifest.policySha256 == baseline.policySha256 && manifest.rejected == []
    && (forall i, j :: 0 <= i < j < |records| ==> records[i].path != records[j].path)
    && (forall r :: r in records ==> (exists path :: IsPrintedCandidate(r.path, path)) && FitsBaseline(baseline.included, r))
  }

  lemma AcceptableMeans(baseline: AuditManifest, manifest: ChangeManifest)
    ensures Acceptable(baseline, manifest) <==> IsSoundManifest(baseline, manifest)
  {
    hide RecordIsConsistent, FitsBaseline, IsCanonical, IsPrintedCandidate;
    var records := manifest.changes;
    DistinctRenderedAt(records);
    forall r: ChangeRecord
      ensures IsProper(baseline, r) <==> (exists path :: IsPrintedCandidate(r.path, path)) && FitsBaseline(baseline.included, r)
    {
      CanonicalIsPrinted(r.path);
      ConsistentMeans(baseline, r);
    }
    if AllProper(baseline, records) {
      forall r | r in records
        ensures IsProper(baseline, r)
      {
        var i :| 0 <= i < |records| && records[i] == r;
        AllProperAt(baseline, records, i);
      }
    }
    if forall r :: r in records ==> IsProper(baseline, r) {
      AllProperFrom(baseline, records);
    }
  }

  /** The component path that a rendered path denotes. */
  function Target(rendered: Bytes): Path {
    match Unescaped(rendered)
    case Some(bytes) => Components(bytes)
    case None => []
  }

  lemma TargetOfAccepted(rendered: Bytes, path: Bytes)
    requires Accepts(rendered, path)
    ensures Target(rendered) == Components(path)
    ensures Target(rendered) != [] && AreNames(Target(rendered))
  {
    UnescapedRendered(path);
    CandidateComponents(path);
  }

  function Resolved(record: ChangeRecord): Change {
    Change(Target(record.path), record)
  }

  function ResolvedAll(records: seq<ChangeRecord>): (cs: seq<Change>)
    ensures |cs| == |records|
    ensures forall i :: 0 <= i < |cs| ==> cs[i] == Resolved(records[i])
  {
    if records == [] then []
    else ResolvedAll(records[..|records| - 1]) + [Resolved(records[|records| - 1])]
  }

  predicate ChangeLe(a: Change, b: Change) {
    PathLe(a.path, b.path)
  }

  lemma ChangeLeIsPreorder()
    ensures IsPreorder(ChangeLe)
  {
    forall x: Change, y: Change
      ensures ChangeLe(x, y) || ChangeLe(y, x)
    {
      PathLeTotal(x.path, y.path);
    }
    forall x: Change, y: Change, z: Change | ChangeLe(x, y) && ChangeLe(y, z)
      ensures ChangeLe(x, z)
    {
      PathLeTransitive(x.path, y.path, z.path);
    }
  }

  /** The order in which the transaction works: ascending by component path. */
  function Plan(manifest: ChangeManifest): seq<Change> {
    Sort(ResolvedAll(manifest.changes), ChangeLe)
  }

  /** The plan holds exactly the resolved records, ascending. */
  lemma PlanIsSortedPermutation(manifest: ChangeManifest)
    ensures multiset(Plan(manifest)) == multiset(ResolvedAll(manifest.changes))
    ensures |Plan(manifest)| == |manifest.changes|
    ensures Sorted(Plan(manifest), ChangeLe)
    ensures forall i, j :: 0 <= i < j < |Plan(manifest)| ==> IsPathBefore(Plan(manifest)[i].path, Plan(manifest)[j].path)
    ensures forall c :: c in Plan(manifest) <==> exists i :: 0 <= i < |manifest.changes| && c == Resolved(manifest.changes[i])
  {
    hide PathLe, Target, IsPathBefore;
    var all := ResolvedAll(manifest.changes);
    SortPermutes(all, ChangeLe);
    ChangeLeIsPreorder();
    SortSorts(all, ChangeLe);
    MembersOfPermutation(Plan(manifest), all);
    var plan := Plan(manifest);
    forall i, j | 0 <= i < j < |plan|
      ensures IsPathBefore(plan[i].path, plan[j].path)
    {
      assert ChangeLe(plan[i], plan[j]);
      PathLeMeans(plan[i].path, plan[j].path);
    }
  }

  /** Accepts exactly the acceptable manifests and returns their plan. */
  method ValidateManifest(baseline: AuditManifest, manifest: ChangeManifest) returns (r: Result<seq<Change>>)
    ensures r.Ok? <==> Acceptable(baseline, manifest)
    ensures r.Ok? <==> IsSoundManifest(baseline, manifest)
    ensures r.Ok? ==> r.value == Plan(manifest)
    ensures r.Err? ==> r.error == UnsafeManifest || r.error == RejectedOutput(|manifest.rejected|)
    ensures r.Err? && r.error.RejectedOutput? <==>
              && manifest.schemaVersion == 1 && manifest.baselineRunId == baseline.runId
              && manifest.policySha256 == baseline.policySha256 && manifest.rejected != []
  {
    hide IsProper, Target, IsSoundManifest;
    AcceptableMeans(baseline, manifest);
    if !HeaderMatches(baseline, manifest) {
      return Err(UnsafeManifest);
    }
    if manifest.rejected != [] {
      return Err(RejectedOutput(|manifest.rejected|));
    }
    var records := manifest.changes;
    var seen: set<Bytes> := {};
    var result: seq<Change> := [];
    for i := 0 to |records|
      invariant seen == RenderedPaths(records[..i]) && DistinctRendered(records[..i])
      invariant AllProper(baseline, records[..i])
      invariant result == ResolvedAll(records[..i])
    {
      assert records[..i + 1][..i] == records[..i];
      if records[i].path in seen {
        if DistinctRendered(records) { DistinctRenderedPrefix(records, i + 1); }
        return Err(UnsafeManifest);
      }
      seen := seen + {records[i].path};
      var change := ResolveRecord(baseline, records[i]);
      if change.None? {
        if AllProper(baseline, records) { AllProperAt(baseline, records, i); }
        return Err(UnsafeManifest);
      }
      result := result + [change.value];
    }
    assert records[..|records|] == records;
    r := Ok(Sort(result, ChangeLe));
  }

  /** The checks on one record and the path it denotes. */
  method ResolveRecord(baseline: AuditManifest, record: ChangeRecord) returns (r: Option<Change>)
    ensures r.Some? <==> IsProper(baseline, record)
    ensures r.Some? ==> r.value == Resolved(record)
  {
    var decoded := DecodeChangePath(record.path);
    if decoded.Refused? || !RecordIsConsistent(baseline, record) {
      return None;
    }
    assert Accepts(record.path, decoded.path);
    UnescapedRendered(decoded.path);
    TargetOfAccepted(record.path, decoded.path);
    r := Some(Change(Components(decoded.path), record));
  }

  /** Nothing in an accepted plan is the root, and every component is a real name. */
  lemma PlannedPaths(baseline: AuditManifest, manifest: ChangeManifest)
    requires Acceptable(baseline, manifest)
    ensures forall c :: c in Plan(manifest) ==>
              c.path != [] && AreNames(c.path) && RecordIsConsistent(baseline, c.record)
  {
    PlanIsSortedPermutation(manifest);
    forall c | c in Plan(manifest)
      ensures c.path != [] && AreNames(c.path) && RecordIsConsistent(baseline, c.record)
    {
      var i :| 0 <= i < |manifest.changes| && c == Resolved(manifest.changes[i]);
      AllProperAt(baseline, manifest.changes, i);
      TargetOfAccepted(c.record.path, Unescaped(c.record.path).value);
    }
  }
}
