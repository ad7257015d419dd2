/**
  Building a stage: every candidate path is copied, excluded with a reason, or made a directory, and
  the manifest is the baseline that a later export compares with.
 */
module Staging {
  import opened PathCodec
  import opened HostTree
  import opened Manifest
  import opened Sorting
  import opened Policy
  import Transaction
  import Export
  import EndToEnd

  // ---------------------------------------------------------------------------------------------
  // Copying one file that others may be writing to
  // ---------------------------------------------------------------------------------------------

  /** `stamp` stands for the inode number and the modification and change times. */
  datatype Metadata = Metadata(regular: bool, device: nat, links: nat, len: nat, mode: bv32, stamp: nat)
  datatype Read = Chunk(bytes: Bytes) | ReadError
  datatype CopyResult =
    | Copied(content: Bytes, bytes: nat, sha256: Digest, executable: bool)
    | CopyChanged | CopyLimit(copied: nat) | CopyIo

  /** What is read up to the first empty read. */
  function Content(chunks: seq<Read>): Bytes {
    if chunks == [] || chunks[0].ReadError? || chunks[0].bytes == [] then []
    else chunks[0].bytes + Content(chunks[1..])
  }

  predicate IsClean(chunks: seq<Read>) {
    chunks == [] || (chunks[0].Chunk? && (chunks[0].bytes == [] || IsClean(chunks[1..])))
  }

  /** The file was not seen to change while it was read. */
  predicate IsStable(before: Metadata, chunks: seq<Read>, after: Metadata) {
    && before.device == after.device && before.stamp == after.stamp && before.len == after.len
    && IsClean(chunks) && |Content(chunks)| == before.len
  }

  /** The reads succeed and give `content` piece by piece until one of them gives nothing. */
  ghost predicate AreReads(chunks: seq<Read>, content: Bytes) {
    if chunks == [] then content == []
    else
      && chunks[0].Chunk?
      && var n := |chunks[0].bytes|;
         if n == 0 then content == []
         else |content| >= n && content[..n] == chunks[0].bytes && AreReads(chunks[1..], content[n..])
  }

  /** The file looks the same before and after and has the length that was announced. */
  ghost predicate IsUndisturbed(before: Metadata, chunks: seq<Read>, after: Metadata, content: Bytes) {
    && before.device == after.device && before.stamp == after.stamp && before.len == after.len == |content|
    && AreReads(chunks, content)
  }

  lemma {:induction false} ReadsMean(chunks: seq<Read>, content: Bytes)
    ensures IsClean(chunks) && content == Content(chunks) <==> AreReads(chunks, content)
  {
    if chunks != [] && chunks[0].Chunk? && chunks[0].bytes != [] {
      var n := |chunks[0].bytes|;
      if |content| >= n {
        ReadsMean(chunks[1..], content[n..]);
        assert content == content[..n] + content[n..];
      }
      assert Content(chunks)[..n] == chunks[0].bytes && Content(chunks)[n..] == Content(chunks[1..]);
    }
  }

  lemma StableMeans(before: Metadata, chunks: seq<Read>, after: Metadata, content: Bytes)
    ensures IsStable(before, chunks, after) && content == Content(chunks) <==> IsUndisturbed(before, chunks, after, content)
  {
    ReadsMean(chunks, content);
  }

  lemma SomeContent(before: Metadata, chunks: seq<Read>, after: Metadata)
    ensures IsStable(before, chunks, after) <==> exists content :: IsUndisturbed(before, chunks, after, content)
    ensures IsStable(before, chunks, after) ==> IsUndisturbed(before, chunks, after, Content(chunks))
  {
    hide IsUndisturbed;
    StableMeans(before, chunks, after, Content(chunks));
    if content :| IsUndisturbed(before, chunks, after, content) {
      StableMeans(before, chunks, after, content);
    }
  }

  /** Copies exactly the stable files within the limit, and then the digest is that of the copy. */
  method CopyStableFile(before: Metadata, chunks: seq<Read>, after: Metadata, maxBytes: nat) returns (r: CopyResult)
    ensures r.Copied? <==> IsStable(before, chunks, after) && before.len <= maxBytes
    ensures r.Copied? <==> before.len <= maxBytes && exists content :: IsUndisturbed(before, chunks, after, content)
    ensures r.Copied? ==>
              && IsUndisturbed(before, chunks, after, r.content) && r.bytes == |r.content|
              && r.sha256 == Digest(r.content) && r.executable == (before.mode & 0x49 != 0)
    ensures r.Copied? ==> r == Copied(Content(chunks), before.len, Sha256(Content(chunks)), Transaction.IsExecutable(before.mode))
    ensures r.CopyLimit? ==> |Content(chunks)| > maxBytes
  {
    hide IsUndisturbed;
    SomeContent(before, chunks, after);
    var output: Bytes := [];
    var copied := 0;
    var i := 0;
    assert chunks[0..] == chunks;
    while i < |chunks|
      invariant 0 <= i <= |chunks| && copied == |output| <= maxBytes
      invariant Content(chunks) == output + Content(chunks[i..])
      invariant IsClean(chunks) == IsClean(chunks[i..])
    {
      assert chunks[i..][1..] == chunks[i + 1..];
      if chunks[i].ReadError? {
        return CopyIo;
      }
      var chunk := chunks[i].bytes;
      if chunk == [] {
        break;
      }
      copied := copied + |chunk|;
      if copied > maxBytes {
        return CopyLimit(copied);
      }
      output := output + chunk;
      i := i + 1;
    }
    var stable := before.device == after.device && before.stamp == after.stamp && before.len == after.len
                     && copied == before.len;
    if !stable {
      return CopyChanged;
    }
    assert output == Content(chunks);
    r := Copied(output, copied, Sha256(output), Transaction.IsExecutable(before.mode));
  }

  // ---------------------------------------------------------------------------------------------
  // The workspace
  // ---------------------------------------------------------------------------------------------

  const DIRECTORY_NODE := Dir(0, true)

  /** Creates the missing directories on the way to `p`, and `p` itself. */
  function MakeDirs(t: Tree, p: Path): Option<Tree> {
    if p == [] then Some(t)
    else
      match MakeDirs(t, Parent(p))
      case None => None
      case Some(u) =>
        if p !in u then Some(u[p := DIRECTORY_NODE])
        else if u[p].Dir? then Some(u)
        else None
  }

  lemma {:induction false} MadeDirs(t: Tree, p: Path)
    requires Export.IsWorkspace(t) && AreNames(p) && MakeDirs(t, p).Some?
    ensures var u := MakeDirs(t, p).value;
            && Export.IsWorkspace(u) && IsDirectory(u, p)
            && (forall q :: q in t ==> q in u && u[q] == t[q])
            && (forall q :: q in u && q !in t ==> u[q] == DIRECTORY_NODE && q != [] && q <= p)
  {
    if p != [] {
      MadeDirs(t, Parent(p));
      var v := MakeDirs(t, Parent(p)).value;
      if p !in v {
        AddEntry(v, p, DIRECTORY_NODE);
      }
    }
  }

  lemma AddEntry(t: Tree, p: Path, n: Node)
    requires Export.IsWorkspace(t) && p != [] && AreNames(p) && p !in t && IsDirectory(t, Parent(p))
    ensures Export.IsWorkspace(t[p := n])
  {
    forall q {:trigger Parent(q)} | q != [] && q in t[p := n]
      ensures IsDirectory(t[p := n], Parent(q))
    {
      assert q in t ==> IsDirectory(t, Parent(q));
    }
  }

  function FileNode(content: Bytes, executable: bool): Node {
    File(0, content, if executable then 0x1C0 else 0x180, 1, true)
  }

  lemma FileNodeMode(content: Bytes, executable: bool)
    ensures Transaction.IsExecutable(FileNode(content, executable).mode) == executable
  {
    assert (0x1C0 as bv32) & 0x49 == 0x40;
    assert (0x180 as bv32) & 0x49 == 0;
  }

  // ---------------------------------------------------------------------------------------------
  // The fate of one candidate
  // ---------------------------------------------------------------------------------------------

  /** What the system reports about one candidate at the time it is looked at. */
  datatype Observation =
    | Absent | Uninspectable | Link | Folder | Special
    | Unopenable
    | Readable(before: Metadata, chunks: seq<Read>, after: Metadata)

  datatype Reason = ByPolicy | MissingFromWorktree | Symlink | SpecialFile | CrossFilesystem | MultipleHardLinks(links: nat)
  datatype ExcludedPath = ExcludedPath(path: Bytes, reason: Reason)
  datatype Fate = Excluded(reason: Reason) | MadeDirectory | Included(file: IncludedFile) | Fatal

  datatype Setting = Setting(policy: EffectivePolicy, matches: (Rule, Path) -> bool, device: nat)

  function EntryOf(p: Path, n: Node): IncludedFile
    requires n.File?
  {
    IncludedFile(Export.Shown(p), |n.bytes|, Sha256(n.bytes), Transaction.IsExecutable(n.mode))
  }

  function Inspected(s: Setting, p: Path, seen: Observation): Fate {
    match seen
    case Absent => Excluded(MissingFromWorktree)
    case Uninspectable => Fatal
    case Link => Excluded(Symlink)
    case Folder => MadeDirectory
    case Special => Excluded(SpecialFile)
    case Unopenable => Fatal
    case Readable(before, chunks, after) =>
      if !before.regular then Excluded(SpecialFile)
      else if before.device != s.device then Excluded(CrossFilesystem)
      else if before.links > 1 then Excluded(MultipleHardLinks(before.links))
      else if !IsStable(before, chunks, after) || before.len > s.policy.maxFileBytes then Fatal
      else Included(EntryOf(p, FileNode(Content(chunks), Transaction.IsExecutable(before.mode))))
  }

  /** Why a candidate is excluded. */
  ghost predicate IsExcludedFor(s: Setting, c: Candidate, reason: Reason) {
    if Denied(s.policy, s.matches, c.path) then reason == ByPolicy
    else
      match reason
      case ByPolicy => false
      case MissingFromWorktree => c.seen.Absent?
      case Symlink => c.seen.Link?
      case SpecialFile => c.seen.Special? || (c.seen.Readable? && !c.seen.before.regular)
      case CrossFilesystem => c.seen.Readable? && c.seen.before.regular && c.seen.before.device != s.device
      case MultipleHardLinks(links) =>
        && c.seen.Readable? && c.seen.before.regular && c.seen.before.device == s.device
        && links == c.seen.before.links && links > 1
  }

  /** The entry of an included candidate: an allowed regular file of this file system with one name, small
      enough, and undisturbed while it was read; with the printed path and what was read. */
  ghost predicate IsIncludedAs(s: Setting, c: Candidate, e: IncludedFile) {
    && !Denied(s.policy, s.matches, c.path)
    && c.seen.Readable? && c.seen.before.regular && c.seen.before.device == s.device && c.seen.before.links <= 1
    && c.seen.before.len <= s.policy.maxFileBytes
    && IsUndisturbed(c.seen.before, c.seen.chunks, c.seen.after, e.sha256.preimage)
    && IsPrinted(Joined(c.path), e.path) && e.bytes == |e.sha256.preimage|
    && e.executable == (c.seen.before.mode & 0x49 != 0)
  }

  ghost predicate IsMadeDirectory(s: Setting, c: Candidate) {
    !Denied(s.policy, s.matches, c.path) && c.seen.Folder?
  }

  lemma FateMeans(s: Setting, c: Candidate, reason: Reason, e: IncludedFile)
    ensures FateOf(s, c.path, c.seen) == Excluded(reason) <==> IsExcludedFor(s, c, reason)
    ensures FateOf(s, c.path, c.seen) == Included(e) <==> IsIncludedAs(s, c, e)
    ensures FateOf(s, c.path, c.seen) == MadeDirectory <==> IsMadeDirectory(s, c)
  {
    hide Denied, IsStable, Content, IsUndisturbed, IsPrinted, Rendered;
    PrintedMeans(Joined(c.path), e.path);
    if c.seen.Readable? {
      StableMeans(c.seen.before, c.seen.chunks, c.seen.after, e.sha256.preimage);
      FileNodeMode(Content(c.seen.chunks), Transaction.IsExecutable(c.seen.before.mode));
    }
  }

  ghost function FateOf(s: Setting, p: Path, seen: Observation): Fate {
    if Denied(s.policy, s.matches, p) then Excluded(ByPolicy) else Inspected(s, p, seen)
  }

  datatype Candidate = Candidate(path: Path, seen: Observation)

  ghost function IncludedOf(s: Setting, cs: seq<Candidate>): seq<IncludedFile> {
    if cs == [] then []
    else
      var c, front := cs[|cs| - 1], IncludedOf(s, cs[..|cs| - 1]);
      if FateOf(s, c.path, c.seen).Included? then front + [FateOf(s, c.path, c.seen).file] else front
  }

  ghost function ExcludedOf(s: Setting, cs: seq<Candidate>): seq<ExcludedPath> {
    if cs == [] then []
    else
      var c, front := cs[|cs| - 1], ExcludedOf(s, cs[..|cs| - 1]);
      if FateOf(s, c.path, c.seen).Excluded? then front + [ExcludedPath(Export.Shown(c.path), FateOf(s, c.path, c.seen).reason)]
      else front
  }

  ghost function Directories(s: Setting, cs: seq<Candidate>): nat {
    if cs == [] then 0
    else
      Directories(s, cs[..|cs| - 1]) + if FateOf(s, cs[|cs| - 1].path, cs[|cs| - 1].seen).MadeDirectory? then 1 else 0
  }

  ghost predicate NoneIsFatal(s: Setting, cs: seq<Candidate>) {
    forall i :: 0 <= i < |cs| ==> !FateOf(s, cs[i].path, cs[i].seen).Fatal?
  }

  /** Every candidate is exactly one of included, excluded or a directory. */
  lemma {:induction false} EveryCandidateCounts(s: Setting, cs: seq<Candidate>)
    requires NoneIsFatal(s, cs)
    ensures |IncludedOf(s, cs)| + |ExcludedOf(s, cs)| + Directories(s, cs) == |cs|
  {
    hide FateOf;
    if cs != [] {
      assert !FateOf(s, cs[|cs| - 1].path, cs[|cs| - 1].seen).Fatal?;
      EveryCandidateCounts(s, cs[..|cs| - 1]);
    }
  }

  // ---------------------------------------------------------------------------------------------
  // The loop
  // ---------------------------------------------------------------------------------------------

  datatype Totals = Totals(includedFiles: nat, includedBytes: nat, excludedPaths: nat)
  datatype StageManifest = StageManifest(included: seq<IncludedFile>, excluded: seq<ExcludedPath>, totals: Totals)
  datatype StageError =
    | UnsafeRelativePath | StageIo | FileLimit | FileCountLimit | TotalSizeLimit | ConcurrentMutation | AuditTooLarge
  datatype StageResult = Staged(workspace: Tree, manifest: StageManifest) | NotStaged(error: StageError)

  function SumBytes(included: seq<IncludedFile>): nat {
    if included == [] then 0 else SumBytes(included[..|included| - 1]) + included[|included| - 1].bytes
  }

  ghost predicate WithinLimits(policy: EffectivePolicy, included: seq<IncludedFile>) {
    && |included| <= policy.maxFiles && SumBytes(included) <= policy.maxTotalBytes
    && forall e :: e in included ==> e.bytes <= policy.maxFileBytes
  }

  /** The files of the workspace are exactly the included ones, nothing in it is denied, and there is
      nothing but files and directories. */
  ghost predicate Stocks(s: Setting, t: Tree, included: seq<IncludedFile>) {
    && Export.IsWorkspace(t)
    && (forall p :: p in t ==> !Denied(s.policy, s.matches, p) && !t[p].Other?)
    && (forall p :: p in t && t[p].File? ==>
         && t[p].links == 1 && t[p].local && (t[p].mode == 0x1C0 || t[p].mode == 0x180) && EntryOf(p, t[p]) in included)
    && (forall e :: e in included ==> exists p :: p in t && t[p].File? && e == EntryOf(p, t[p]))
    && (forall i, j :: 0 <= i < j < |included| ==> included[i].path != included[j].path)
  }

  lemma AncestorIsAllowed(s: Setting, p: Path, q: Path)
    requires !Denied(s.policy, s.matches, p) && q <= p
    ensures !Denied(s.policy, s.matches, q)
  {
    if Denied(s.policy, s.matches, q) {
      DenialIsInherited(s.policy, s.matches, q, p);
    }
  }

  lemma StockDirectory(s: Setting, t: Tree, included: seq<IncludedFile>, p: Path)
    requires Stocks(s, t, included) && AreNames(p) && MakeDirs(t, p).Some? && !Denied(s.policy, s.matches, p)
    ensures Stocks(s, MakeDirs(t, p).value, included)
  {
    hide Denied, Export.IsWorkspace, Export.Shown, Sha256, Transaction.IsExecutable, WellFormed;
    MadeDirs(t, p);
    var u := MakeDirs(t, p).value;
    forall q | q in u
      ensures !Denied(s.policy, s.matches, q) && !u[q].Other?
    {
      if q !in t {
        AncestorIsAllowed(s, p, q);
      }
    }
    forall e | e in included
      ensures exists q :: q in u && u[q].File? && e == EntryOf(q, u[q])
    {
      var q :| q in t && t[q].File? && e == EntryOf(q, t[q]);
      assert q in u && u[q] == t[q];
    }
  }

  lemma StockFile(s: Setting, t: Tree, included: seq<IncludedFile>, p: Path, n: Node)
    requires Stocks(s, t, included) && p != [] && AreNames(p) && p !in t && IsDirectory(t, Parent(p))
    requires !Denied(s.policy, s.matches, p) && n.File? && n.links == 1 && n.local && (n.mode == 0x1C0 || n.mode == 0x180)
    ensures Stocks(s, t[p := n], included + [EntryOf(p, n)])
  {
    hide Denied, Export.Shown, Sha256, Transaction.IsExecutable, WellFormed;
    AddEntry(t, p, n);
    var u, e := t[p := n], EntryOf(p, n);
    forall i | 0 <= i < |included|
      ensures included[i].path != e.path
    {
      assert included[i] in included;
      var q :| q in t && t[q].File? && included[i] == EntryOf(q, t[q]);
      EndToEnd.WorkspaceShownDiffers(u, p, q);
    }
    forall x | x in included + [e]
      ensures exists q :: q in u && u[q].File? && x == EntryOf(q, u[q])
    {
      if x in included {
        var q :| q in t && t[q].File? && x == EntryOf(q, t[q]);
        assert q in u && u[q] == t[q];
      } else {
        assert p in u && x == EntryOf(p, u[p]);
      }
    }
  }

  datatype Progress = Progress(workspace: Tree, included: seq<IncludedFile>, excluded: seq<ExcludedPath>, bytes: nat)
  datatype StepResult = Advanced(progress: Progress) | Failing(error: StageError)

  ghost predicate AreCandidatePaths(cs: seq<Candidate>) {
    forall i :: 0 <= i < |cs| ==> cs[i].path != [] && AreNames(cs[i].path)
  }

  /** Every path is a candidate path, nothing is fatal by itself, and what is to be included fits. */
  ghost predicate IsStageable(s: Setting, cs: seq<Candidate>) {
    AreCandidatePaths(cs) && NoneIsFatal(s, cs) && WithinLimits(s.policy, IncludedOf(s, cs))
  }

  /** What does not fit does not fit any better with more candidates behind it. */
  lemma {:induction false} StageablePrefix(s: Setting, cs: seq<Candidate>, k: nat)
    requires IsStageable(s, cs) && k <= |cs|
    ensures IsStageable(s, cs[..k])
    decreases |cs|
  {
    hide FateOf;
    if k == |cs| {
      assert cs[..k] == cs;
    } else {
      var front, c := cs[..|cs| - 1], cs[|cs| - 1];
      assert cs == front + [c];
      assert NoneIsFatal(s, front) && !FateOf(s, c.path, c.seen).Fatal?;
      PushCandidate(s, front, c);
      var fate := FateOf(s, c.path, c.seen);
      if fate.Included? {
        SumPush(IncludedOf(s, front), fate.file);
        assert forall e :: e in IncludedOf(s, front) ==> e in IncludedOf(s, cs);
      }
      StageablePrefix(s, front, k);
      assert front[..k] == cs[..k];
    }
  }

  lemma SumPush(included: seq<IncludedFile>, e: IncludedFile)
    ensures SumBytes(included + [e]) == SumBytes(included) + e.bytes
  {
    assert (included + [e])[..|included|] == included;
  }

  /** What the loop has done after the candidates `cs`. */
  ghost predicate IsProgress(s: Setting, cs: seq<Candidate>, g: Progress) {
    && Stocks(s, g.workspace, g.included)
    && g.included == IncludedOf(s, cs) && g.excluded == ExcludedOf(s, cs)
    && NoneIsFatal(s, cs) && AreCandidatePaths(cs)
    && g.bytes == SumBytes(g.included) && WithinLimits(s.policy, g.included)
  }

  lemma PushCandidate(s: Setting, cs: seq<Candidate>, c: Candidate)
    requires NoneIsFatal(s, cs) && !FateOf(s, c.path, c.seen).Fatal?
    ensures NoneIsFatal(s, cs + [c])
    ensures var fate := FateOf(s, c.path, c.seen);
            && IncludedOf(s, cs + [c]) == IncludedOf(s, cs) + (if fate.Included? then [fate.file] else [])
            && ExcludedOf(s, cs + [c]) == ExcludedOf(s, cs)
               + (if fate.Excluded? then [ExcludedPath(Export.Shown(c.path), fate.reason)] else [])
  {
    hide FateOf;
    assert (cs + [c])[..|cs|] == cs;
  }

  lemma PushIncluded(policy: EffectivePolicy, included: seq<IncludedFile>, e: IncludedFile)
    requires WithinLimits(policy, included) && |included| < policy.maxFiles
    requires e.bytes <= policy.maxFileBytes && SumBytes(included) + e.bytes <= policy.maxTotalBytes
    ensures SumBytes(included + [e]) == SumBytes(included) + e.bytes && WithinLimits(policy, included + [e])
  {
    assert (included + [e])[..|included|] == included;
  }

  /** A candidate that gets no place in the workspace. */
  lemma ExcludeCandidate(s: Setting, cs: seq<Candidate>, c: Candidate, g: Progress)
    requires IsProgress(s, cs, g) && FateOf(s, c.path, c.seen).Excluded?
    requires c.path != [] && AreNames(c.path)
    ensures IsProgress(s, cs + [c],
              g.(excluded := g.excluded + [ExcludedPath(Export.Shown(c.path), FateOf(s, c.path, c.seen).reason)]))
  {
    hide Stocks, WithinLimits, NoneIsFatal, FateOf, AreNames;
    PushCandidate(s, cs, c);
  }

  lemma BadPath(s: Setting, cs: seq<Candidate>, c: Candidate)
    requires c.path == [] || !AreNames(c.path)
    ensures !IsStageable(s, cs + [c])
  {
    hide AreNames, WithinLimits, NoneIsFatal;
    assert (cs + [c])[|cs|] == c;
  }

  method StageCandidate(s: Setting, ghost cs: seq<Candidate>, c: Candidate, g: Progress) returns (r: StepResult)
    requires IsProgress(s, cs, g)
    ensures r.Advanced? ==> IsProgress(s, cs + [c], r.progress)
    ensures r.Failing? ==> r.error != AuditTooLarge && (r.error == StageIo || !IsStageable(s, cs + [c]))
  {
    hide IsProgress, Denied, IsStable, Content, Export.Shown, Sha256, AreNames;
    if c.path == [] || !AreNames(c.path) {
      BadPath(s, cs, c);
      return Failing(UnsafeRelativePath);
    }
    var shown := Export.Shown(c.path);
    var rule := DeniedByPathOrAncestor(s.policy, s.matches, c.path);
    if rule.Some? {
      ExcludeCandidate(s, cs, c, g);
      return Advanced(g.(excluded := g.excluded + [ExcludedPath(shown, ByPolicy)]));
    }
    match c.seen {
      case Absent =>
        ExcludeCandidate(s, cs, c, g);
        return Advanced(g.(excluded := g.excluded + [ExcludedPath(shown, MissingFromWorktree)]));
      case Uninspectable =>
        return Failing(StageIo);
      case Link =>
        ExcludeCandidate(s, cs, c, g);
        return Advanced(g.(excluded := g.excluded + [ExcludedPath(shown, Symlink)]));
      case Folder =>
        r := StageDirectory(s, cs, c, g);
      case Special =>
        ExcludeCandidate(s, cs, c, g);
        return Advanced(g.(excluded := g.excluded + [ExcludedPath(shown, SpecialFile)]));
      case Unopenable =>
        return Failing(StageIo);
      case Readable(before, chunks, after) =>
        if !before.regular {
          ExcludeCandidate(s, cs, c, g);
          return Advanced(g.(excluded := g.excluded + [ExcludedPath(shown, SpecialFile)]));
        }
        if before.device != s.device {
          ExcludeCandidate(s, cs, c, g);
          return Advanced(g.(excluded := g.excluded + [ExcludedPath(shown, CrossFilesystem)]));
        }
        if before.links > 1 {
          ExcludeCandidate(s, cs, c, g);
          return Advanced(g.(excluded := g.excluded + [ExcludedPath(shown, MultipleHardLinks(before.links))]));
        }
        r := StageFile(s, cs, c, g);
    }
  }

  method StageDirectory(s: Setting, ghost cs: seq<Candidate>, c: Candidate, g: Progress) returns (r: StepResult)
    requires IsProgress(s, cs, g) && c.path != [] && AreNames(c.path)
    requires !Denied(s.policy, s.matches, c.path) && c.seen.Folder?
    ensures r.Advanced? ==> IsProgress(s, cs + [c], r.progress)
    ensures r.Failing? ==> r.error != AuditTooLarge && (r.error == StageIo || !IsStageable(s, cs + [c]))
  {
    hide Stocks, WithinLimits, NoneIsFatal, Denied, Export.Shown, MakeDirs;
    var made := MakeDirs(g.workspace, c.path);
    var refused := *;
    if made.None? || refused {
      return Failing(StageIo);
    }
    StockDirectory(s, g.workspace, g.included, c.path);
    PushCandidate(s, cs, c);
    r := Advanced(g.(workspace := made.value));
  }

  /** The total is checked with the length that was announced; it holds of what was copied because the
      copy is refused unless it has that length. */
  method StageFile(s: Setting, ghost cs: seq<Candidate>, c: Candidate, g: Progress) returns (r: StepResult)
    requires IsProgress(s, cs, g) && c.path != [] && AreNames(c.path)
    requires !Denied(s.policy, s.matches, c.path)
    requires c.seen.Readable? && c.seen.before.regular && c.seen.before.device == s.device && c.seen.before.links <= 1
    ensures r.Advanced? ==> IsProgress(s, cs + [c], r.progress)
    ensures r.Failing? ==> r.error != AuditTooLarge && (r.error == StageIo || !IsStageable(s, cs + [c]))
  {
    hide Stocks, WithinLimits, NoneIsFatal, Denied, Export.Shown, MakeDirs, Sha256, SumBytes, Content, IncludedOf, ExcludedOf,
      Transaction.IsExecutable;
    var before := c.seen.before;
    WhyNotIncluded(s, cs, c);
    if before.len > s.policy.maxFileBytes {
      return Failing(FileLimit);
    }
    if |g.included| >= s.policy.maxFiles {
      return Failing(FileCountLimit);
    }
    if g.bytes + before.len > s.policy.maxTotalBytes {
      return Failing(TotalSizeLimit);
    }
    var made := MakeDirs(g.workspace, Parent(c.path));
    var refused := *;
    if made.None? || c.path in made.value || refused {
      return Failing(StageIo);
    }
    var copy := CopyStableFile(before, c.seen.chunks, c.seen.after, s.policy.maxFileBytes);
    if !copy.Copied? {
      return Failing(if copy.CopyChanged? then ConcurrentMutation else if copy.CopyLimit? then FileLimit else StageIo);
    }
    var node := FileNode(copy.content, copy.executable);
    var entry := IncludedFile(Export.Shown(c.path), copy.bytes, copy.sha256, copy.executable);
    FileNodeMode(copy.content, copy.executable);
    StockNewFile(s, g.workspace, g.included, c.path, node);
    PushCandidate(s, cs, c);
    PushIncluded(s.policy, g.included, entry);
    r := Advanced(g.(workspace := made.value[c.path := node], included := g.included + [entry], bytes := g.bytes + copy.bytes));
  }

  /** A regular file of its own that cannot be staged is unstable, too large, or one too many. */
  lemma WhyNotIncluded(s: Setting, cs: seq<Candidate>, c: Candidate)
    requires !Denied(s.policy, s.matches, c.path) && NoneIsFatal(s, cs)
    requires c.seen.Readable? && c.seen.before.regular && c.seen.before.device == s.device && c.seen.before.links <= 1
    ensures !IsStable(c.seen.before, c.seen.chunks, c.seen.after) || c.seen.before.len > s.policy.maxFileBytes
            || |IncludedOf(s, cs)| >= s.policy.maxFiles
            || SumBytes(IncludedOf(s, cs)) + c.seen.before.len > s.policy.maxTotalBytes
            ==> !IsStageable(s, cs + [c])
  {
    hide Denied, IsStable, Content, Export.Shown, Sha256, Transaction.IsExecutable, AreCandidatePaths;
    assert (cs + [c])[|cs|] == c;
    var fate := FateOf(s, c.path, c.seen);
    if !fate.Fatal? {
      PushCandidate(s, cs, c);
      SumPush(IncludedOf(s, cs), fate.file);
      StableLength(c.seen.before, c.seen.chunks, c.seen.after);
    }
  }

  lemma StableLength(before: Metadata, chunks: seq<Read>, after: Metadata)
    requires IsStable(before, chunks, after)
    ensures |Content(chunks)| == before.len
  {
  }

  lemma StockNewFile(s: Setting, t: Tree, included: seq<IncludedFile>, p: Path, n: Node)
    requires Stocks(s, t, included) && p != [] && AreNames(p) && MakeDirs(t, Parent(p)).Some?
    requires p !in MakeDirs(t, Parent(p)).value
    requires !Denied(s.policy, s.matches, p) && n.File? && n.links == 1 && n.local && (n.mode == 0x1C0 || n.mode == 0x180)
    ensures Stocks(s, MakeDirs(t, Parent(p)).value[p := n], included + [EntryOf(p, n)])
  {
    hide Denied, Export.Shown, MakeDirs;
    AncestorIsAllowed(s, p, Parent(p));
    StockDirectory(s, t, included, Parent(p));
    MadeDirs(t, Parent(p));
    StockFile(s, MakeDirs(t, Parent(p)).value, included, p, n);
  }

  predicate IncludedLe(a: IncludedFile, b: IncludedFile) {
    BytesLeq(a.path, b.path)
  }

  predicate ExcludedLe(a: ExcludedPath, b: ExcludedPath) {
    BytesLeq(a.path, b.path)
  }

  /** The manifest that the candidates amount to. */
  ghost function ManifestOf(s: Setting, cs: seq<Candidate>): StageManifest {
    var included, excluded := Sort(IncludedOf(s, cs), IncludedLe), Sort(ExcludedOf(s, cs), ExcludedLe);
    StageManifest(included, excluded, Totals(|included|, SumBytes(IncludedOf(s, cs)), |excluded|))
  }

  /** What a finished stage is. */
  ghost predicate IsStage(s: Setting, cs: seq<Candidate>, t: Tree, m: StageManifest) {
    && NoneIsFatal(s, cs) && m == ManifestOf(s, cs)
    && WithinLimits(s.policy, IncludedOf(s, cs))
    && Stocks(s, t, IncludedOf(s, cs))
  }

  const MAX_AUDIT_BYTES: nat := 64 * 1024 * 1024

  /** Whatever the candidates are and whatever others write meanwhile: on success all is accounted for.
      `written` is the size of a manifest in its stored form. */
  method BuildStage(s: Setting, cs: seq<Candidate>, written: StageManifest -> nat) returns (r: StageResult)
    ensures r.Staged? ==> IsStage(s, cs, r.workspace, r.manifest) && IsStageable(s, cs) && written(r.manifest) <= 67_108_864
    ensures r.NotStaged? && r.error == AuditTooLarge ==> IsStageable(s, cs) && written(ManifestOf(s, cs)) > 67_108_864
    ensures r.NotStaged? && r.error != AuditTooLarge ==> r.error == StageIo || !IsStageable(s, cs)
  {
    hide IsStage, Denied, FateOf, Export.Shown, EntryOf, IsStageable, ManifestOf;
    var g := Progress(map[], [], [], 0);
    assert cs[..0] == [];
    for i := 0 to |cs|
      invariant IsProgress(s, cs[..i], g)
    {
      assert cs[..i + 1] == cs[..i] + [cs[i]];
      var step := StageCandidate(s, cs[..i], cs[i], g);
      if step.Failing? {
        if IsStageable(s, cs) {
          StageablePrefix(s, cs, i + 1);
        }
        return NotStaged(step.error);
      }
      g := step.progress;
    }
    assert cs[..|cs|] == cs;
    var included, excluded := Sort(g.included, IncludedLe), Sort(g.excluded, ExcludedLe);
    var manifest := StageManifest(included, excluded, Totals(|g.included|, g.bytes, |excluded|));
    FinishStage(s, cs, g);
    if written(manifest) > MAX_AUDIT_BYTES {
      return NotStaged(AuditTooLarge);
    }
    var refused := *;
    if refused {
      return NotStaged(StageIo);
    }
    r := Staged(g.workspace, manifest);
  }

  lemma FinishStage(s: Setting, cs: seq<Candidate>, g: Progress)
    requires IsProgress(s, cs, g)
    ensures ManifestOf(s, cs) ==
              StageManifest(Sort(g.included, IncludedLe), Sort(g.excluded, ExcludedLe),
                            Totals(|g.included|, g.bytes, |Sort(g.excluded, ExcludedLe)|))
    ensures IsStage(s, cs, g.workspace, ManifestOf(s, cs)) && IsStageable(s, cs)
  {
    hide Stocks, WithinLimits, NoneIsFatal, IncludedOf, ExcludedOf;
    SortPermutes(g.included, IncludedLe);
  }

  // ---------------------------------------------------------------------------------------------
  // What a finished stage promises
  // ---------------------------------------------------------------------------------------------

  lemma {:induction false} SumOfInsert(e: IncludedFile, included: seq<IncludedFile>)
    ensures SumBytes(Insert(e, included, IncludedLe)) == SumBytes(included) + e.bytes
  {
    if included != [] {
      var front, last := included[..|included| - 1], included[|included| - 1];
      SumOfInsert(e, front);
      var r := Insert(e, front, IncludedLe);
      assert (r + [last])[..|r|] == r;
      assert (included + [e])[..|included|] == included;
    }
  }

  lemma {:induction false} SumOfSort(included: seq<IncludedFile>)
    ensures SumBytes(Sort(included, IncludedLe)) == SumBytes(included)
  {
    if included != [] {
      SumOfSort(included[..|included| - 1]);
      SumOfInsert(included[|included| - 1], Sort(included[..|included| - 1], IncludedLe));
    }
  }

  lemma {:induction false} IncludedMembers(s: Setting, cs: seq<Candidate>, e: IncludedFile)
    ensures e in IncludedOf(s, cs) <==> exists c :: c in cs && FateOf(s, c.path, c.seen) == Included(e)
  {
    hide FateOf;
    if cs != [] {
      IncludedMembers(s, cs[..|cs| - 1], e);
      assert cs == cs[..|cs| - 1] + [cs[|cs| - 1]];
    }
  }

  lemma {:induction false} ExcludedMembers(s: Setting, cs: seq<Candidate>, x: ExcludedPath)
    ensures x in ExcludedOf(s, cs) <==>
              exists c :: c in cs && FateOf(s, c.path, c.seen) == Excluded(x.reason) && Export.Shown(c.path) == x.path
  {
    hide FateOf, Export.Shown;
    if cs != [] {
      ExcludedMembers(s, cs[..|cs| - 1], x);
      assert cs == cs[..|cs| - 1] + [cs[|cs| - 1]];
    }
  }

  /** The candidates that became directories. */
  ghost function MadeDirectories(s: Setting, cs: seq<Candidate>): set<nat> {
    set i | 0 <= i < |cs| && IsMadeDirectory(s, cs[i])
  }

  lemma {:induction false} DirectoriesMean(s: Setting, cs: seq<Candidate>)
    ensures Directories(s, cs) == |MadeDirectories(s, cs)|
  {
    hide FateOf, IsMadeDirectory;
    if cs == [] {
      assert MadeDirectories(s, cs) == {};
    } else {
      var front, last := cs[..|cs| - 1], cs[|cs| - 1];
      DirectoriesMean(s, front);
      FateMeans(s, last, ByPolicy, IncludedFile([], 0, Digest([]), false));
      assert MadeDirectories(s, cs) == MadeDirectories(s, front) + if IsMadeDirectory(s, last) then {|cs| - 1} else {};
    }
  }

  /** Staging accounts for everything: the three kinds add up to the candidates, the totals are those of the
      lists, the limits hold, and both lists are exactly what the candidates call for, in order. */
  lemma StageAccountsForAll(s: Setting, cs: seq<Candidate>, t: Tree, m: StageManifest)
    requires IsStage(s, cs, t, m)
    ensures |m.included| + |m.excluded| + |MadeDirectories(s, cs)| == |cs|
    ensures m.totals == Totals(|m.included|, SumBytes(m.included), |m.excluded|)
    ensures WithinLimits(s.policy, m.included)
    ensures forall e :: e in m.included <==> exists c :: c in cs && IsIncludedAs(s, c, e)
    ensures forall x :: x in m.excluded <==>
              exists c :: c in cs && IsExcludedFor(s, c, x.reason) && IsPrinted(Joined(c.path), x.path)
    ensures forall i, j :: 0 <= i < j < |m.included| ==> IsBefore(m.included[i].path, m.included[j].path)
    ensures forall i, j :: 0 <= i < j < |m.excluded| ==> IsBefore(m.excluded[i].path, m.excluded[j].path)
  {
    hide Stocks, FateOf, IsIncludedAs, IsExcludedFor, IsPrinted, Rendered, IsBefore, IncludedOf, ExcludedOf;
    EveryCandidateCounts(s, cs);
    DirectoriesMean(s, cs);
    SortPermutes(IncludedOf(s, cs), IncludedLe);
    SortPermutes(ExcludedOf(s, cs), ExcludedLe);
    SumOfSort(IncludedOf(s, cs));
    MembersOfPermutation(m.included, IncludedOf(s, cs));
    MembersOfPermutation(m.excluded, ExcludedOf(s, cs));
    StageIsSorted(s, cs, m);
    forall e
      ensures e in m.included <==> exists c :: c in cs && IsIncludedAs(s, c, e)
    {
      IncludedMembers(s, cs, e);
      forall c: Candidate
        ensures FateOf(s, c.path, c.seen) == Included(e) <==> IsIncludedAs(s, c, e)
      {
        FateMeans(s, c, ByPolicy, e);
      }
    }
    forall x
      ensures x in m.excluded <==> exists c :: c in cs && IsExcludedFor(s, c, x.reason) && IsPrinted(Joined(c.path), x.path)
    {
      ExcludedMembers(s, cs, x);
      forall c: Candidate
        ensures FateOf(s, c.path, c.seen) == Excluded(x.reason) <==> IsExcludedFor(s, c, x.reason)
        ensures Export.Shown(c.path) == x.path <==> IsPrinted(Joined(c.path), x.path)
      {
        FateMeans(s, c, x.reason, IncludedFile([], 0, Digest([]), false));
        PrintedMeans(Joined(c.path), x.path);
      }
    }
  }

  lemma StageIsSorted(s: Setting, cs: seq<Candidate>, m: StageManifest)
    requires m == ManifestOf(s, cs)
    ensures forall i, j :: 0 <= i < j < |m.included| ==> IsBefore(m.included[i].path, m.included[j].path)
    ensures forall i, j :: 0 <= i < j < |m.excluded| ==> IsBefore(m.excluded[i].path, m.excluded[j].path)
  {
    hide IncludedOf, ExcludedOf, BytesLe, IsBefore;
    BytesLeqIsPreorder();
    assert IsPreorder(IncludedLe);
    assert IsPreorder(ExcludedLe);
    SortSorts(IncludedOf(s, cs), IncludedLe);
    SortSorts(ExcludedOf(s, cs), ExcludedLe);
    forall i, j | 0 <= i < j < |m.included|
      ensures IsBefore(m.included[i].path, m.included[j].path)
    {
      assert IncludedLe(m.included[i], m.included[j]);
      BytesLeMeans(m.included[i].path, m.included[j].path);
    }
    forall i, j | 0 <= i < j < |m.excluded|
      ensures IsBefore(m.excluded[i].path, m.excluded[j].path)
    {
      assert ExcludedLe(m.excluded[i], m.excluded[j]);
      BytesLeMeans(m.excluded[i].path, m.excluded[j].path);
    }
  }

  predicate SamePath(a: IncludedFile, b: IncludedFile) {
    a.path == b.path
  }

  function BaselineOf(runId: nat, policySha256: Digest, m: StageManifest): AuditManifest {
    AuditManifest(runId, policySha256, m.included)
  }

  /** The manifest of a stage is a baseline for export: canonical paths, each once. */
  lemma StageIsBaseline(s: Setting, cs: seq<Candidate>, t: Tree, m: StageManifest, runId: nat, sha: Digest)
    requires IsStage(s, cs, t, m)
    ensures EndToEnd.IsStaged(BaselineOf(runId, sha, m))
  {
    hide Denied, Export.Shown, Sha256, FateOf, NoneIsFatal, WithinLimits, Target, WellFormed;
    var included := IncludedOf(s, cs);
    SortPermutes(included, IncludedLe);
    MembersOfPermutation(m.included, included);
    assert Separated(included, SamePath);
    SeparatedIsPermutationInvariant(included, m.included, SamePath);
    forall i, j | 0 <= i < j < |m.included|
      ensures m.included[i].path != m.included[j].path
    {
      assert !SamePath(m.included[i], m.included[j]) || !SamePath(m.included[j], m.included[i]);
    }
    forall e | e in m.included
      ensures Target(e.path) != [] && AreNames(Target(e.path)) && e.path == Export.Shown(Target(e.path))
    {
      var p :| p in t && t[p].File? && e == EntryOf(p, t[p]);
      InWorkspace(t, p);
      EndToEnd.ShownIsCanonical(p);
    }
  }

  lemma InWorkspace(t: Tree, p: Path)
    requires Export.IsWorkspace(t) && p in t
    ensures p != [] && AreNames(p)
  {
  }

  /** The job of exporting the workspace `w` against the stage. */
  function JobOf(s: Setting, w: Tree, m: StageManifest, runId: nat, sha: Digest): Export.Job {
    Export.Job(w, BaselineOf(runId, sha, m), s.policy, sha, s.matches)
  }

  /** Outside the top-level Git directory, `w` has the files of the stage with their contents, and besides
      only directories; nothing in it is denied, shared or foreign. */
  ghost predicate HasStagedFiles(s: Setting, t: Tree, w: Tree) {
    && (forall p :: p in w && !Export.InGit(p) ==> !Denied(s.policy, s.matches, p) && (w[p].Dir? || IsStagedFile(t, p, w[p])))
    && (forall p :: p in t && t[p].File? ==> p in w && !w[p].Dir?)
  }

  predicate IsStagedFile(t: Tree, p: Path, n: Node) {
    n.File? && n.local && n.links <= 1 && p in t && t[p].File? && t[p].bytes == n.bytes
  }

  /** The entry of a path in the manifest of a stage is that of the staged file. */
  lemma StagedEntry(s: Setting, cs: seq<Candidate>, t: Tree, m: StageManifest, p: Path)
    requires IsStage(s, cs, t, m) && p != [] && AreNames(p)
    ensures BaselineEntry(m.included, Export.Shown(p)) ==
              if p in t && t[p].File? then Some(EntryOf(p, t[p])) else None
  {
    hide Denied, Export.Shown, Sha256, IncludedOf, ExcludedOf, NoneIsFatal, WithinLimits;
    StageIsBaseline(s, cs, t, m, 0, Sha256([]));
    SortPermutes(IncludedOf(s, cs), IncludedLe);
    MembersOfPermutation(m.included, IncludedOf(s, cs));
    var entry := BaselineEntry(m.included, Export.Shown(p));
    if p in t && t[p].File? {
      EndToEnd.EntryIsFound(m.included, EntryOf(p, t[p]));
    } else if entry.Some? {
      var q :| q in t && t[q].File? && entry.value == EntryOf(q, t[q]);
      InWorkspace(t, q);
      EndToEnd.ShownIsInjective(p, q);
    }
  }

  lemma StagedOutsideGit(s: Setting, t: Tree, included: seq<IncludedFile>, p: Path)
    requires Stocks(s, t, included) && p in t && Denied(s.policy, s.matches, [Export.GIT])
    ensures !Export.InGit(p)
  {
    if Export.InGit(p) {
      DenialIsInherited(s.policy, s.matches, [Export.GIT], p);
    }
  }

  /** What export makes of one entry of the workspace. */
  lemma JudgedStaged(s: Setting, cs: seq<Candidate>, t: Tree, m: StageManifest, runId: nat, sha: Digest, w: Tree, p: Path)
    requires IsStage(s, cs, t, m) && Export.IsWorkspace(w) && p in w
    ensures var judged := Export.Judge(JobOf(s, w, m, runId, sha), p);
            (judged == Export.Skipped || judged == Export.Unchanged)
            <==> !Denied(s.policy, s.matches, p) && (w[p].Dir? || IsStagedFile(t, p, w[p]))
  {
    hide Denied, Export.Shown, IsStage, Export.RecordFor;
    InWorkspace(w, p);
    StagedEntry(s, cs, t, m, p);
  }

  /** Every staged file is still there. */
  lemma StagedIsCounted(s: Setting, cs: seq<Candidate>, t: Tree, m: StageManifest, runId: nat, sha: Digest, w: Tree)
    requires IsStage(s, cs, t, m) && Export.IsWorkspace(w) && Denied(s.policy, s.matches, [Export.GIT])
    requires forall p :: p in w && !Export.InGit(p) ==> !Denied(s.policy, s.matches, p)
    ensures (forall e :: e in m.included ==>
               exists p :: p in w && !Export.InGit(p) && Export.Counts(JobOf(s, w, m, runId, sha), p) && Export.Shown(p) == e.path)
            <==> (forall p :: p in t && t[p].File? ==> p in w && !w[p].Dir?)
  {
    hide Denied, Export.Shown, Sha256, IncludedOf, ExcludedOf, NoneIsFatal, WithinLimits, Export.InGit;
    var job := JobOf(s, w, m, runId, sha);
    SortPermutes(IncludedOf(s, cs), IncludedLe);
    MembersOfPermutation(m.included, IncludedOf(s, cs));
    if forall e :: e in m.included ==>
         exists p :: p in w && !Export.InGit(p) && Export.Counts(job, p) && Export.Shown(p) == e.path {
      forall q | q in t && t[q].File?
        ensures q in w && !w[q].Dir?
      {
        var e := EntryOf(q, t[q]);
        assert e in m.included;
        var p :| p in w && !Export.InGit(p) && Export.Counts(job, p) && Export.Shown(p) == e.path;
        InWorkspace(t, q);
        InWorkspace(w, p);
        EndToEnd.ShownIsInjective(p, q);
      }
    }
    if forall p :: p in t && t[p].File? ==> p in w && !w[p].Dir? {
      forall e | e in m.included
        ensures exists p :: p in w && !Export.InGit(p) && Export.Counts(job, p) && Export.Shown(p) == e.path
      {
        var p :| p in t && t[p].File? && e == EntryOf(p, t[p]);
        StagedOutsideGit(s, t, IncludedOf(s, cs), p);
        assert Export.Counts(job, p);
      }
    }
  }

  /** Exporting any workspace against a stage reports nothing exactly if the workspace has the staged files
      unchanged, whatever is in its top-level Git directory. The policy denies that directory, as the
      built-in rules do. */
  lemma ExportsNothingIff(s: Setting, cs: seq<Candidate>, t: Tree, m: StageManifest, runId: nat, sha: Digest, w: Tree, walk: seq<Path>)
    requires IsStage(s, cs, t, m) && Denied(s.policy, s.matches, [Export.GIT])
    requires Export.IsWorkspace(w) && Export.IsWalk(w, walk)
    ensures var manifest := Export.ExportedManifest(JobOf(s, w, m, runId, sha), walk);
            manifest.changes == [] && manifest.rejected == [] <==> HasStagedFiles(s, t, w)
  {
    hide Denied, Export.Shown, IsStage, Export.ExportedManifest, Export.Judge, Export.Counts, Export.InGit, IsStagedFile,
      Export.IsWorkspace;
    var job := JobOf(s, w, m, runId, sha);
    EndToEnd.EmptyIffUntouched(job, walk);
    forall p | p in w
      ensures (Export.Judge(job, p) == Export.Skipped || Export.Judge(job, p) == Export.Unchanged)
              <==> !Denied(s.policy, s.matches, p) && (w[p].Dir? || IsStagedFile(t, p, w[p]))
    {
      JudgedStaged(s, cs, t, m, runId, sha, w, p);
    }
    if forall p :: p in w && !Export.InGit(p) ==> !Denied(s.policy, s.matches, p) {
      StagedIsCounted(s, cs, t, m, runId, sha, w);
    }
  }

  /** Exporting a stage that nobody touched outside the top-level Git directory, where staging itself makes
      a repository by default, reports nothing. */
  lemma UntouchedStageExportsNothing(s: Setting, cs: seq<Candidate>, t: Tree, m: StageManifest, runId: nat, sha: Digest, w: Tree, walk: seq<Path>)
    requires IsStage(s, cs, t, m) && Denied(s.policy, s.matches, [Export.GIT])
    requires Export.IsWorkspace(w) && Export.IsWalk(w, walk)
    requires forall p :: !Export.InGit(p) ==> (p in w <==> p in t) && (p in w ==> w[p] == t[p])
    ensures var manifest := Export.ExportedManifest(JobOf(s, w, m, runId, sha), walk);
            manifest.changes == [] && manifest.rejected == []
  {
    hide Denied, Export.Shown, IncludedOf, ExcludedOf, NoneIsFatal, WithinLimits, Export.ExportedManifest, Export.InGit, Export.IsWorkspace;
    forall p | p in t
      ensures !Export.InGit(p) && w[p] == t[p]
    {
      StagedOutsideGit(s, t, IncludedOf(s, cs), p);
    }
    ExportsNothingIff(s, cs, t, m, runId, sha, w, walk);
  }
}
