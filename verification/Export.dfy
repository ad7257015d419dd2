/**
  Comparing a returned workspace with the staging baseline. The result is a change manifest and a
  private tree of exported files.
 */
module Export {
  import opened PathCodec
  import opened HostTree
  import opened Manifest
  import opened Sorting
  import opened SimpleUpdate
  import opened Policy
  import opened Transaction
  import Ledger

  datatype Job = Job(
    workspace: Tree,
    baseline: AuditManifest,
    policy: EffectivePolicy,
    policySha256: Digest,
    matches: (Rule, Path) -> bool)

  const GIT: Name := Ledger.Ascii(".git")

  predicate InGit(p: Path) {
    p != [] && p[0] == GIT
  }

  /** The rendered form of a walked path. */
  function Shown(p: Path): Bytes {
    Rendered(Joined(p))
  }

  /** A sorted walk visits every entry outside the top-level Git directory once. */
  ghost predicate IsWalk(w: Tree, walk: seq<Path>) {
    && (forall p :: p in walk <==> p in w && !InGit(p))
    && (forall i, j :: 0 <= i < j < |walk| ==> walk[i] != walk[j])
  }

  /** What a file system can hold. */
  ghost predicate IsWorkspace(w: Tree) {
    WellFormed(w) && forall p :: p in w ==> AreNames(p)
  }

  // ---------------------------------------------------------------------------------------------
  // Classification of one entry
  // ---------------------------------------------------------------------------------------------

  datatype Verdict = Skipped | Unsafe | Unchanged | Exported(record: ChangeRecord)

  function RecordFor(baseline: AuditManifest, p: Path, n: Node): ChangeRecord
    requires n.File?
  {
    var entry := BaselineEntry(baseline.included, Shown(p));
    ChangeRecord(Shown(p),
                 if entry.Some? then Modified else Added,
                 if entry.Some? then Some(entry.value.sha256) else None,
                 Some(Sha256(n.bytes)), Some(|n.bytes|), Some(IsExecutable(n.mode)))
  }

  function JudgeFile(baseline: AuditManifest, p: Path, n: Node): Verdict {
    match n
    case Dir(_, _) => Skipped
    case Other(_) => Unsafe
    case File(_, bytes, _, links, local) =>
      if !local || links > 1 then Unsafe
      else
        var entry := BaselineEntry(baseline.included, Shown(p));
        if entry.Some? && entry.value.sha256 == Sha256(bytes) then Unchanged
        else Exported(RecordFor(baseline, p, n))
  }

  ghost function Judge(job: Job, p: Path): Verdict
    requires p in job.workspace
  {
    if Denied(job.policy, job.matches, p) then Unsafe
    else JudgeFile(job.baseline, p, job.workspace[p])
  }

  /** The entry keeps a baseline path from being reported as deleted. */
  ghost predicate Counts(job: Job, p: Path)
    requires p in job.workspace
  {
    !Denied(job.policy, job.matches, p) && !job.workspace[p].Dir?
  }

  /** `r` reports the file at `p`: its content and executability as they are, as added if the baseline does
      not know the path, and as modified if it knows other content. */
  ghost predicate IsFileRecord(job: Job, p: Path, r: ChangeRecord)
    requires p in job.workspace
  {
    var n, included := job.workspace[p], job.baseline.included;
    && !Denied(job.policy, job.matches, p) && n.File? && n.local && n.links <= 1
    && IsPrinted(Joined(p), r.path)
    && r.exportedSha256 == Some(Digest(n.bytes)) && r.bytes == Some(|n.bytes|) && r.executable == Some(n.mode & 0x49 != 0)
    && match r.kind
       case Added => r.baselineSha256 == None && forall i :: 0 <= i < |included| ==> included[i].path != r.path
       case Modified =>
         exists i :: IsLastEntry(included, r.path, i)
                     && r.baselineSha256 == Some(included[i].sha256) && included[i].sha256 != Digest(n.bytes)
       case Deleted => false
  }

  /** A path that is reported as rejected: denied, special, shared or on another file system. */
  ghost predicate IsUnsafe(job: Job, p: Path)
    requires p in job.workspace
  {
    var n := job.workspace[p];
    Denied(job.policy, job.matches, p) || n.Other? || (n.File? && (!n.local || n.links > 1))
  }

  lemma JudgeMeans(job: Job, p: Path, r: ChangeRecord)
    requires p in job.workspace
    ensures Judge(job, p) == Exported(r) <==> IsFileRecord(job, p, r)
    ensures Judge(job, p) == Unsafe <==> IsUnsafe(job, p)
  {
    hide Denied, IsLastEntry, IsPrinted, Rendered;
    PrintedMeans(Joined(p), r.path);
    LastEntryIs(job.baseline.included, Shown(p));
  }

  // ---------------------------------------------------------------------------------------------
  // What a walk collects
  // ---------------------------------------------------------------------------------------------

  ghost function Records(job: Job, walk: seq<Path>): seq<ChangeRecord>
    requires forall p :: p in walk ==> p in job.workspace
  {
    if walk == [] then []
    else
      var p, front := walk[|walk| - 1], Records(job, walk[..|walk| - 1]);
      if Judge(job, p).Exported? then front + [Judge(job, p).record] else front
  }

  ghost function Refusals(job: Job, walk: seq<Path>): seq<Bytes>
    requires forall p :: p in walk ==> p in job.workspace
  {
    if walk == [] then []
    else
      var p, front := walk[|walk| - 1], Refusals(job, walk[..|walk| - 1]);
      if Judge(job, p).Unsafe? then front + [Shown(p)] else front
  }

  ghost function Seen(job: Job, walk: seq<Path>): set<Bytes>
    requires forall p :: p in walk ==> p in job.workspace
  {
    set p | p in walk && Counts(job, p) :: Shown(p)
  }

  function DeletionOf(entry: IncludedFile): ChangeRecord {
    ChangeRecord(entry.path, Deleted, Some(entry.sha256), None, None, None)
  }

  function Deletions(included: seq<IncludedFile>, seen: set<Bytes>): seq<ChangeRecord> {
    if included == [] then []
    else
      var entry, front := included[|included| - 1], Deletions(included[..|included| - 1], seen);
      if entry.path in seen then front else front + [DeletionOf(entry)]
  }

  predicate RecordLe(a: ChangeRecord, b: ChangeRecord) {
    BytesLe(a.path, b.path)
  }

  ghost function ExportedManifest(job: Job, walk: seq<Path>): ChangeManifest
    requires forall p :: p in walk ==> p in job.workspace
  {
    ChangeManifest(1, job.baseline.runId, job.policySha256,
                   Sort(Records(job, walk) + Deletions(job.baseline.included, Seen(job, walk)), RecordLe),
                   Sort(Refusals(job, walk), BytesLeq))
  }

  function TotalBytes(records: seq<ChangeRecord>): nat {
    if records == [] then 0
    else
      var last := records[|records| - 1];
      TotalBytes(records[..|records| - 1]) + (if last.bytes.Some? then last.bytes.value else 0)
  }

  // ---------------------------------------------------------------------------------------------
  // The exported files
  // ---------------------------------------------------------------------------------------------

  /** Private copy: 700 for an executable, 600 otherwise. */
  function PrivateCopy(n: Node): Node
    requires n.File?
  {
    File(0, n.bytes, if IsExecutable(n.mode) then 0x1C0 else 0x180, 1, true)
  }

  function WithCopy(files: Tree, p: Path, n: Node): Tree
    requires n.File?
  {
    ((map q | q in Ancestors(p) :: Dir(0, true)) + files)[p := PrivateCopy(n)]
  }

  /** The export tree is a partial mirror of the workspace: files with their bytes, private to the owner, and
      executable if the original is. */
  ghost predicate Mirrors(files: Tree, w: Tree) {
    && WellFormed(files)
    && (forall q :: q in files ==> q in w && (files[q].Dir? <==> w[q].Dir?))
    && (forall q :: q in files && !files[q].Dir? ==>
         && w[q].File? && files[q].File? && files[q].bytes == w[q].bytes && files[q].links == 1 && files[q].local
         && files[q].mode == if w[q].mode & 0x49 != 0 then 0x1C0 else 0x180)
  }

  lemma AncestorInTree(w: Tree, p: Path, q: Path)
    requires WellFormed(w) && p in w && q in Ancestors(p)
    ensures q in w && w[q].Dir?
  {
    ResolvePresent(w, p);
    ResolvedAncestors(w, p, |q|);
    assert p[..|q|] == q;
    FoundIsPresent(w, q);
  }

  lemma CopyMirrors(files: Tree, w: Tree, p: Path)
    requires Mirrors(files, w) && WellFormed(w) && p in w && w[p].File?
    ensures Mirrors(WithCopy(files, p, w[p]), w)
  {
    var f := WithCopy(files, p, w[p]);
    forall q | q in Ancestors(p)
      ensures q in w && w[q].Dir? && q != [] && q != p
    {
      AncestorInTree(w, p, q);
    }
    forall q | q != [] && q in f
      ensures IsDirectory(f, Parent(q))
    {
      if q in Ancestors(p) || q == p {
        if Parent(q) != [] {
          assert Parent(q) == p[..|q| - 1];
          assert Parent(q) in Ancestors(p);
        }
      } else {
        assert q in files && IsDirectory(files, Parent(q));
        assert Parent(q) != [] ==> Parent(q) != p;
      }
    }
  }

  lemma RemovalMirrors(files: Tree, w: Tree, p: Path)
    requires Mirrors(files, w) && p in files && files[p].File?
    ensures Mirrors(files - {p}, w)
  {
    forall q | q != [] && q in files - {p}
      ensures IsDirectory(files - {p}, Parent(q))
    {
      assert IsDirectory(files, Parent(q));
    }
  }

  // ---------------------------------------------------------------------------------------------
  // The export
  // ---------------------------------------------------------------------------------------------

  datatype ExportError = Unreadable | UnsafeWorkspacePath | FileLimit | FileCountLimit | TotalSizeLimit
  datatype ExportResult = Done(manifest: ChangeManifest, files: Tree) | NotDone(error: ExportError)

  ghost predicate HoldsExports(job: Job, walk: seq<Path>, files: Tree)
    requires forall p :: p in walk ==> p in job.workspace
  {
    forall p :: p in walk && Judge(job, p).Exported? ==> p in files && files[p].File?
  }

  ghost predicate WithinLimits(policy: EffectivePolicy, records: seq<ChangeRecord>) {
    && |records| <= policy.maxFiles
    && TotalBytes(records) <= policy.maxTotalBytes
    && forall r :: r in records && r.bytes.Some? ==> r.bytes.value <= policy.maxFileBytes
  }

  lemma CollectPush(job: Job, walk: seq<Path>, i: nat)
    requires i < |walk| && forall p :: p in walk ==> p in job.workspace
    ensures Records(job, walk[..i + 1]) ==
              if Judge(job, walk[i]).Exported? then Records(job, walk[..i]) + [Judge(job, walk[i]).record] else Records(job, walk[..i])
    ensures Refusals(job, walk[..i + 1]) ==
              if Judge(job, walk[i]).Unsafe? then Refusals(job, walk[..i]) + [Shown(walk[i])] else Refusals(job, walk[..i])
    ensures Seen(job, walk[..i + 1]) ==
              if Counts(job, walk[i]) then Seen(job, walk[..i]) + {Shown(walk[i])} else Seen(job, walk[..i])
  {
    assert walk[..i + 1][..i] == walk[..i];
    assert walk[..i + 1] == walk[..i] + [walk[i]];
  }

  lemma HoldsPush(job: Job, walk: seq<Path>, i: nat, files: Tree, files': Tree)
    requires i < |walk| && (forall p :: p in walk ==> p in job.workspace)
    requires HoldsExports(job, walk[..i], files)
    requires forall q :: q in files && files[q].File? && q != walk[i] ==> q in files' && files'[q].File?
    requires Judge(job, walk[i]).Exported? ==> walk[i] in files' && files'[walk[i]].File?
    requires forall k :: 0 <= k < i ==> walk[k] != walk[i]
    ensures HoldsExports(job, walk[..i + 1], files')
  {
    forall p | p in walk[..i + 1] && Judge(job, p).Exported?
      ensures p in files' && files'[p].File?
    {
      if p != walk[i] {
        assert p in walk[..i];
      }
    }
  }

  predicate NeedsCopy(n: Node) {
    n.File? && n.local && n.links <= 1
  }

  ghost predicate IsWithinFileLimit(job: Job, p: Path)
    requires p in job.workspace
  {
    NeedsCopy(job.workspace[p]) && !Denied(job.policy, job.matches, p) ==>
      |job.workspace[p].bytes| <= job.policy.maxFileBytes
  }

  /** No file that has to be copied is too large, and what is exported is within the limits. */
  ghost predicate IsExportable(job: Job, walk: seq<Path>)
    requires forall p :: p in walk ==> p in job.workspace
  {
    (forall p :: p in walk ==> IsWithinFileLimit(job, p)) && WithinLimits(job.policy, Records(job, walk))
  }

  lemma WalkedIsCandidate(w: Tree, p: Path)
    requires IsWorkspace(w) && p in w
    ensures IsValidCandidate(Joined(p))
  {
    DecodeOfWalkedPath(p, Joined(p));
  }

  lemma TotalPush(changes: seq<ChangeRecord>, c: ChangeRecord)
    ensures TotalBytes(changes + [c]) == TotalBytes(changes) + (if c.bytes.Some? then c.bytes.value else 0)
  {
    assert (changes + [c])[..|changes|] == changes;
  }

  /** What is collected only grows. */
  lemma {:induction false} RecordsPrefix(job: Job, walk: seq<Path>, i: nat)
    requires i <= |walk| && forall p :: p in walk ==> p in job.workspace
    ensures |Records(job, walk[..i])| <= |Records(job, walk)|
    ensures TotalBytes(Records(job, walk[..i])) <= TotalBytes(Records(job, walk))
  {
    hide Judge;
    if i < |walk| {
      var front := walk[..|walk| - 1];
      RecordsPrefix(job, front, i);
      assert front[..i] == walk[..i];
      if Judge(job, walk[|walk| - 1]).Exported? {
        TotalPush(Records(job, front), Judge(job, walk[|walk| - 1]).record);
      }
    } else {
      assert walk[..i] == walk;
    }
  }

  /** Decide one file that is neither denied, linked nor special; copy it if it changed. */
  method ExportFile(job: Job, p: Path, files0: Tree) returns (r: Option<ExportError>, change: Option<ChangeRecord>, files: Tree)
    requires IsWorkspace(job.workspace) && p in job.workspace && job.workspace[p].File?
    requires !Denied(job.policy, job.matches, p) && job.workspace[p].local && job.workspace[p].links <= 1
    requires Mirrors(files0, job.workspace)
    ensures r.None? ==> Mirrors(files, job.workspace)
    ensures r.None? ==> forall q :: q in files0 && files0[q].File? && q != p ==> q in files && files[q].File?
    ensures r.None? ==> (change.Some? <==> Judge(job, p).Exported?)
    ensures r.None? && change.Some? ==> change.value == Judge(job, p).record && p in files && files[p].File?
    ensures r.None? ==> |job.workspace[p].bytes| <= job.policy.maxFileBytes
    ensures r.None? && change.None? ==> Judge(job, p) == Unchanged
    ensures r.Some? ==> r.value == Unreadable || (r.value == FileLimit && |job.workspace[p].bytes| > job.policy.maxFileBytes)
  {
    var n := job.workspace[p];
    files, change := files0, None;
    if |n.bytes| > job.policy.maxFileBytes {
      return Some(FileLimit), None, files;
    }
    var unreadable: bool := *;
    if unreadable {
      return Some(Unreadable), None, files;
    }
    CopyMirrors(files, job.workspace, p);
    files := WithCopy(files, p, n);
    forall q | q in files0 && files0[q].File? && q != p
      ensures q in files && files[q].File?
    {
    }
    var entry := BaselineEntry(job.baseline.included, Shown(p));
    if entry.Some? && entry.value.sha256 == Sha256(n.bytes) {
      RemovalMirrors(files, job.workspace, p);
      files := files - {p};
    } else {
      change := Some(RecordFor(job.baseline, p, n));
    }
    r := None;
  }

  datatype Progress = Progress(files: Tree, seen: set<Bytes>, changes: seq<ChangeRecord>, rejected: seq<Bytes>, bytes: nat)

  /** What the walk has done after its first `i` entries. */
  ghost predicate IsProgress(job: Job, walk: seq<Path>, i: nat, g: Progress)
    requires i <= |walk| && forall p :: p in walk ==> p in job.workspace
  {
    && g.changes == Records(job, walk[..i]) && g.rejected == Refusals(job, walk[..i])
    && g.seen == Seen(job, walk[..i]) && g.bytes == TotalBytes(g.changes)
    && Mirrors(g.files, job.workspace) && HoldsExports(job, walk[..i], g.files)
    && WithinLimits(job.policy, g.changes)
    && forall k :: 0 <= k < i ==> IsWithinFileLimit(job, walk[k])
  }

  /** One entry of the walk. */
  method ExportEntry(job: Job, walk: seq<Path>, i: nat, g: Progress) returns (r: Option<ExportError>, g': Progress)
    requires IsWorkspace(job.workspace) && IsWalk(job.workspace, walk) && i < |walk| && IsProgress(job, walk, i, g)
    ensures r.None? ==> IsProgress(job, walk, i + 1, g')
    ensures r.Some? ==> r.value == Unreadable || !IsExportable(job, walk)
  {
    hide IsWorkspace, Mirrors, HoldsExports, Seen, Records, Refusals, IsValidCandidate, Joined, Denied, Judge, Shown, WithinLimits,
      Counts, TotalBytes;
    g' := g;
    var p := walk[i];
    var n := job.workspace[p];
    CollectPush(job, walk, i);
    JudgeAtOnce(job, p);
    WalkedIsCandidate(job.workspace, p);
    if !IsValidCandidate(Joined(p)) {
      return Some(UnsafeWorkspacePath), g';
    }
    var unreadable: bool := *;
    if unreadable {
      return Some(Unreadable), g';
    }
    var rule := DeniedByPathOrAncestor(job.policy, job.matches, p);
    if rule.Some? {
      g' := g.(rejected := g.rejected + [Shown(p)]);
    } else if !n.Dir? {
      g' := g.(seen := g.seen + {Shown(p)});
      if !NeedsCopy(n) {
        g' := g'.(rejected := g.rejected + [Shown(p)]);
      } else {
        var error, change, files := ExportFile(job, p, g.files);
        if error.Some? {
          return error, g';
        }
        g' := g'.(files := files);
        if change.Some? {
          RecordsPrefix(job, walk, i + 1);
          TotalPush(g.changes, change.value);
          LimitsMean(job.policy, Records(job, walk));
          if |g.changes| + 1 > job.policy.maxFiles {
            return Some(FileCountLimit), g';
          }
          if g.bytes + |n.bytes| > job.policy.maxTotalBytes {
            return Some(TotalSizeLimit), g';
          }
          LimitsPush(job.policy, g.changes, change.value);
          g' := g'.(changes := g.changes + [change.value], bytes := g.bytes + |n.bytes|);
        }
      }
    }
    HoldsPush(job, walk, i, g.files, g'.files);
    r := None;
  }

  method ExportChanges(job: Job, walk: seq<Path>) returns (r: ExportResult)
    requires IsWorkspace(job.workspace) && IsWalk(job.workspace, walk)
    ensures r.Done? ==>
              && r.manifest == ExportedManifest(job, walk)
              && Mirrors(r.files, job.workspace) && HoldsExports(job, walk, r.files)
              && IsExportable(job, walk)
    ensures r.NotDone? ==> r.error == Unreadable || !IsExportable(job, walk)
  {
    hide IsWorkspace, Mirrors, HoldsExports, Seen, Records, Refusals, WithinLimits;
    var g := Progress(map[], {}, [], [], 0);
    EmptyStart(job, walk);
    for i := 0 to |walk|
      invariant IsProgress(job, walk, i, g)
    {
      var error;
      error, g := ExportEntry(job, walk, i, g);
      if error.Some? {
        return NotDone(error.value);
      }
    }
    assert walk[..|walk|] == walk;
    var deletions := CollectDeletions(job.baseline.included, g.seen);
    r := Done(ChangeManifest(1, job.baseline.runId, job.policySha256,
                             Sort(g.changes + deletions, RecordLe), Sort(g.rejected, BytesLeq)), g.files);
  }

  method CollectDeletions(included: seq<IncludedFile>, seen: set<Bytes>) returns (changes: seq<ChangeRecord>)
    ensures changes == Deletions(included, seen)
  {
    changes := [];
    for i := 0 to |included|
      invariant changes == Deletions(included[..i], seen)
    {
      assert included[..i + 1][..i] == included[..i];
      if included[i].path !in seen {
        changes := changes + [DeletionOf(included[i])];
      }
    }
    assert included[..|included|] == included;
  }

  /** What can be decided without opening the file. */
  lemma JudgeAtOnce(job: Job, p: Path)
    requires p in job.workspace
    ensures Counts(job, p) <==> !Denied(job.policy, job.matches, p) && !job.workspace[p].Dir?
    ensures var n := job.workspace[p];
            if Denied(job.policy, job.matches, p) then Judge(job, p).Unsafe?
            else if n.Dir? then Judge(job, p).Skipped?
            else if !NeedsCopy(n) then Judge(job, p).Unsafe?
            else
              && !Judge(job, p).Unsafe?
              && (Judge(job, p).Exported? ==> Judge(job, p).record.bytes == Some(|n.bytes|))
  {
    hide Denied;
  }

  lemma LimitsMean(policy: EffectivePolicy, records: seq<ChangeRecord>)
    ensures WithinLimits(policy, records) ==> |records| <= policy.maxFiles && TotalBytes(records) <= policy.maxTotalBytes
  {
  }

  lemma EmptyStart(job: Job, walk: seq<Path>)
    requires IsWorkspace(job.workspace)
    requires forall p :: p in walk ==> p in job.workspace
    ensures Records(job, walk[..0]) == [] && Refusals(job, walk[..0]) == [] && Seen(job, walk[..0]) == {}
    ensures Mirrors(map[], job.workspace) && HoldsExports(job, walk[..0], map[])
    ensures WithinLimits(job.policy, []) && TotalBytes([]) == 0
  {
  }

  lemma LimitsPush(policy: EffectivePolicy, changes: seq<ChangeRecord>, c: ChangeRecord)
    requires WithinLimits(policy, changes) && |changes| + 1 <= policy.maxFiles
    requires c.bytes.Some? && c.bytes.value <= policy.maxFileBytes
    requires TotalBytes(changes) + c.bytes.value <= policy.maxTotalBytes
    ensures WithinLimits(policy, changes + [c])
    ensures TotalBytes(changes + [c]) == TotalBytes(changes) + c.bytes.value
  {
    assert (changes + [c])[..|changes|] == changes;
  }
}
