/**
  Applying a change export to the host tree: preflight, the logged forward loop, rollback and
  cleanup. The host is changed call by call, any call may be refused, and nothing else writes to
  the tree meanwhile.
 */
module Transaction {
  import opened PathCodec
  import opened HostTree
  import opened Manifest
  import opened SimpleUpdate
  import opened Ledger

  datatype ApplyReport = ApplyReport(added: nat, modified: nat, deleted: nat)

  // ---------------------------------------------------------------------------------------------
  // Names
  // ---------------------------------------------------------------------------------------------

  lemma {:induction false} LongerThanAll(avoid: set<Name>) returns (bound: nat)
    ensures forall n :: n in avoid ==> |n| < bound
  {
    if avoid == {} {
      bound := 0;
    } else {
      var x :| x in avoid;
      var rest := LongerThanAll(avoid - {x});
      bound := if |x| < rest then rest else |x| + 1;
      forall n | n in avoid
        ensures |n| < bound
      {
        assert n == x || n in avoid - {x};
      }
    }
  }

  function NamesIn(t: Tree): set<Name> {
    set p | p in t && p != [] :: Leaf(p)
  }

  /** An arbitrary name with the prefix. The random suffix is taken to be none of the names of the
      manifest; whether the name is free in the directory is left to exclusive creation, unless the
      environment is lucky. */
  method UniqueLeaf(host: Host, parent: Path, prefix: Name, avoid: set<Name>) returns (name: Name)
    ensures prefix <= name && name !in avoid
    ensures host.lucky ==> parent + [name] !in host.tree
  {
    ghost var bound := LongerThanAll(avoid + NamesIn(host.tree));
    ghost var candidate := prefix + seq(bound, _ => 48);
    assert prefix <= candidate && candidate !in avoid;
    assert parent + [candidate] !in host.tree by {
      assert Leaf(parent + [candidate]) == candidate;
    }
    if host.lucky {
      name :| prefix <= name && name !in avoid && parent + [name] !in host.tree;
    } else {
      name :| prefix <= name && name !in avoid;
    }
  }

  // ---------------------------------------------------------------------------------------------
  // Preflight
  // ---------------------------------------------------------------------------------------------

  /** 022 in octal. */
  const SHARED_WRITE: bv32 := 0x12
  /** 077 in octal. */
  const SHARED_ACCESS: bv32 := 0x3F
  /** 111 in octal. */
  const EXECUTE: bv32 := 0x49

  predicate IsExecutable(mode: bv32) {
    mode & EXECUTE != 0
  }

  predicate MatchesBaseline(n: Node, entry: IncludedFile) {
    && n.File? && n.local && n.links == 1
    && n.mode & SHARED_WRITE == 0
    && IsExecutable(n.mode) == entry.executable
    && |n.bytes| == entry.bytes
    && Sha256(n.bytes) == entry.sha256
  }

  predicate MatchesMetadata(n: Node, record: ChangeRecord) {
    && n.File? && n.local && n.links == 1
    && n.mode & SHARED_ACCESS == 0
    && Some(|n.bytes|) == record.bytes
    && Some(IsExecutable(n.mode)) == record.executable
  }

  predicate MatchesExport(n: Node, record: ChangeRecord) {
    MatchesMetadata(n, record) && Some(Sha256(n.bytes)) == record.exportedSha256
  }

  /** A local regular file with one link that group and others cannot write, with the executability, the
      length and the digest of the entry. */
  ghost predicate IsStagedFile(n: Node, e: IncludedFile) {
    && n.File? && n.local && n.links == 1 && n.mode & 0x12 == 0
    && (n.mode & 0x49 != 0 <==> e.executable) && |n.bytes| == e.bytes && e.sha256 == Digest(n.bytes)
  }

  /** A local regular file with one link that nobody else can access, with the executability, the length and
      the digest of the record. */
  ghost predicate IsExportedFile(n: Node, r: ChangeRecord) {
    && n.File? && n.local && n.links == 1 && n.mode & 0x3F == 0
    && r.executable == Some(n.mode & 0x49 != 0) && r.bytes == Some(|n.bytes|) && r.exportedSha256 == Some(Digest(n.bytes))
  }

  lemma MatchesMean(n: Node, e: IncludedFile, r: ChangeRecord)
    ensures MatchesBaseline(n, e) <==> IsStagedFile(n, e)
    ensures MatchesExport(n, r) <==> IsExportedFile(n, r)
  {
  }

  predicate SourceClear(t: Tree, baseline: AuditManifest, c: Change) {
    match c.record.kind
    case Added => Resolve(t, c.path) == Missing
    case _ =>
      var entry := FirstEntry(baseline.included, c.record.path);
      entry.Some? && Resolve(t, c.path).Found? && MatchesBaseline(Resolve(t, c.path).node, entry.value)
  }

  predicate ExportClear(files: Tree, c: Change) {
    c.record.kind == Deleted
    || (Resolve(files, c.path).Found? && MatchesExport(Resolve(files, c.path).node, c.record))
  }

  ghost predicate AllClear(t: Tree, files: Tree, baseline: AuditManifest, plan: seq<Change>) {
    forall i :: 0 <= i < |plan| ==> SourceClear(t, baseline, plan[i]) && ExportClear(files, plan[i])
  }

  function ExportedBytes(files: Tree, path: Path): Bytes {
    match Resolve(files, path)
    case Found(File(_, bytes, _, _, _)) => bytes
    case _ => []
  }

  function StepOf(files: Tree, c: Change): Step {
    match c.record.kind
    case Added => Put(c.path, ExportedBytes(files, c.path), c.record.executable == Some(true))
    case Modified => Replace(c.path, ExportedBytes(files, c.path))
    case Deleted => Remove(c.path)
  }

  function StepsOf(files: Tree, plan: seq<Change>): (steps: seq<Step>)
    ensures |steps| == |plan|
    ensures forall i :: 0 <= i < |plan| ==> steps[i] == StepOf(files, plan[i])
  {
    if plan == [] then []
    else StepsOf(files, plan[..|plan| - 1]) + [StepOf(files, plan[|plan| - 1])]
  }

  lemma ClearPairIsNotNested(t: Tree, files: Tree, baseline: AuditManifest, c: Change, d: Change)
    requires SourceClear(t, baseline, c) && ExportClear(files, c) && c.path != []
    requires SourceClear(t, baseline, d) && ExportClear(files, d)
    ensures !(c.path < d.path)
  {
    if c.path < d.path {
      var k := |c.path|;
      assert d.path[..k] == c.path;
      ResolvedAncestors(t, d.path, k);
      ResolvedAncestors(files, d.path, k);
    }
  }

  /** If every check before the first mutation passes, no changed path is a strict
      component-prefix of another one. */
  lemma PreflightImpliesShape(t: Tree, files: Tree, baseline: AuditManifest, plan: seq<Change>)
    requires AllClear(t, files, baseline, plan)
    requires forall i :: 0 <= i < |plan| ==> plan[i].path != []
    ensures NotNested(StepsOf(files, plan))
  {
    var steps := StepsOf(files, plan);
    forall i, j | 0 <= i < |steps| && 0 <= j < |steps|
      ensures !(steps[i].path < steps[j].path)
    {
      ClearPairIsNotNested(t, files, baseline, plan[i], plan[j]);
    }
  }

  method EnsureSourceAbsent(host: Host, path: Path) returns (r: Result<()>)
    modifies host`faults
    ensures host.faults >= old(host.faults)
    ensures r.Ok? ==> Resolve(host.tree, path) == Missing
    ensures r.Err? ==> r.error == Conflict
    ensures host.faults == old(host.faults) ==> (r.Ok? <==> Resolve(host.tree, path) == Missing)
  {
    var handle := host.Open(path);
    r := if handle.NotFound? then Ok(()) else Err(Conflict);
  }

  method OpenMatchingSource(host: Host, path: Path, entry: IncludedFile) returns (r: Result<Node>)
    modifies host`faults
    ensures host.faults >= old(host.faults)
    ensures r.Ok? ==> Resolve(host.tree, path) == Found(r.value) && MatchesBaseline(r.value, entry)
    ensures r.Err? ==> r.error == Conflict || r.error == Io
    ensures host.faults == old(host.faults) ==>
              (r.Ok? <==> Resolve(host.tree, path).Found? && MatchesBaseline(Resolve(host.tree, path).node, entry))
    ensures r.Ok? ==> IsStagedFile(r.value, entry)
    ensures Resolve(host.tree, path).Found? && !IsStagedFile(Resolve(host.tree, path).node, entry) ==> r.Err?
    ensures host.faults == old(host.faults) ==>
              (r.Ok? <==> Resolve(host.tree, path).Found? && IsStagedFile(Resolve(host.tree, path).node, entry))
  {
    var handle := host.Open(path);
    if !handle.Opened? {
      return Err(Conflict);
    }
    var unreadable := host.Refuse();
    if unreadable {
      return Err(Io);
    }
    MatchesMean(handle.node, entry, ChangeRecord([], Added, None, None, None, None));
    if !MatchesBaseline(handle.node, entry) {
      return Err(Conflict);
    }
    r := Ok(handle.node);
  }

  method VerifyExportFile(host: Host, files: Tree, c: Change) returns (r: Result<()>)
    modifies host`faults
    ensures host.faults >= old(host.faults)
    ensures r.Ok? ==> Resolve(files, c.path).Found? && MatchesExport(Resolve(files, c.path).node, c.record)
    ensures r.Err? ==> r.error == UnsafeExport || r.error == Io
    ensures host.faults == old(host.faults) ==>
              (r.Ok? <==> Resolve(files, c.path).Found? && MatchesExport(Resolve(files, c.path).node, c.record))
    ensures r.Ok? ==> IsExportedFile(Resolve(files, c.path).node, c.record)
    ensures host.faults == old(host.faults) ==>
              (r.Ok? <==> Resolve(files, c.path).Found? && IsExportedFile(Resolve(files, c.path).node, c.record))
  {
    var unreadable := host.Refuse();
    if unreadable || !Resolve(files, c.path).Found? {
      return Err(Io);
    }
    MatchesMean(Resolve(files, c.path).node, IncludedFile([], 0, Sha256([]), false), c.record);
    if !MatchesExport(Resolve(files, c.path).node, c.record) {
      return Err(UnsafeExport);
    }
    r := Ok(());
  }

  /** What a passed preflight has seen of one change, on the fields of nodes, records and entries. */
  ghost predicate IsCheckedChange(t: Tree, files: Tree, included: seq<IncludedFile>, c: Change) {
    && (c.record.kind == Added ==> Resolve(t, c.path) == Missing)
    && (c.record.kind != Added ==>
          Resolve(t, c.path).Found?
          && exists i :: IsFirstEntry(included, c.record.path, i) && IsStagedFile(Resolve(t, c.path).node, included[i]))
    && (c.record.kind != Deleted ==>
          Resolve(files, c.path).Found? && IsExportedFile(Resolve(files, c.path).node, c.record))
  }

  lemma ClearIsChecked(t: Tree, files: Tree, baseline: AuditManifest, c: Change)
    requires SourceClear(t, baseline, c) && ExportClear(files, c)
    ensures IsCheckedChange(t, files, baseline.included, c)
  {
    hide MatchesBaseline, MatchesExport, IsStagedFile, IsExportedFile, IsFirstEntry;
    FirstEntryIs(baseline.included, c.record.path);
    if c.record.kind != Added {
      MatchesMean(Resolve(t, c.path).node, FirstEntry(baseline.included, c.record.path).value, c.record);
    }
    if c.record.kind != Deleted {
      MatchesMean(Resolve(files, c.path).node, IncludedFile([], 0, Sha256([]), false), c.record);
    }
  }

  /** All conflict checks, while the host is still as it was. */
  method Preflight(host: Host, files: Tree, baseline: AuditManifest, plan: seq<Change>) returns (r: Result<()>)
    modifies host`faults
    ensures host.faults >= old(host.faults)
    ensures r.Ok? ==> AllClear(host.tree, files, baseline, plan)
    ensures host.faults == old(host.faults) ==> (r.Ok? <==> AllClear(host.tree, files, baseline, plan))
    ensures r.Ok? ==> forall c :: c in plan ==> IsCheckedChange(host.tree, files, baseline.included, c)
    ensures r.Err? ==> r.error in {Conflict, Io, UnsafeExport, UnsafeManifest}
  {
    hide Resolve, MatchesBaseline, MatchesExport, IsCheckedChange, IsStagedFile, IsExportedFile;
    for i := 0 to |plan|
      invariant host.faults >= old(host.faults)
      invariant forall k :: 0 <= k < i ==> SourceClear(host.tree, baseline, plan[k]) && ExportClear(files, plan[k])
    {
      var c := plan[i];
      if c.record.kind == Added {
        var absent := EnsureSourceAbsent(host, c.path);
        if absent.Err? {
          return absent;
        }
      } else {
        var entry := FirstEntry(baseline.included, c.record.path);
        if entry.None? {
          return Err(UnsafeManifest);
        }
        var source := OpenMatchingSource(host, c.path, entry.value);
        if source.Err? {
          return Err(source.error);
        }
      }
      if c.record.kind != Deleted {
        var exported := VerifyExportFile(host, files, c);
        if exported.Err? {
          return exported;
        }
      }
    }
    forall c | c in plan
      ensures IsCheckedChange(host.tree, files, baseline.included, c)
    {
      var i :| 0 <= i < |plan| && plan[i] == c;
      ClearIsChecked(host.tree, files, baseline, plan[i]);
    }
    r := Ok(());
  }

  // ---------------------------------------------------------------------------------------------
  // Forward steps
  // ---------------------------------------------------------------------------------------------

  /** What holds between any two statements of a running transaction. */
  ghost predicate InProgress(host: Host, g: State, actions: seq<Action>, created: seq<Path>,
                             leaves: set<Path>, temp: Option<Path>, before: seq<Tree>)
    reads host`tree, host`trace
  {
    && host.Valid()
    && Sound(g, actions, created, leaves)
    && Shows(host.tree, g, temp)
    && (temp.Some? ==> temp.value !in leaves)
    && SafeSince(g.start, host.trace, before)
  }

  /** The tree grew by directories on the way to `path` only. */
  ghost predicate GrewTowards(t: Tree, t': Tree, path: Path) {
    && (forall q :: q in t ==> q in t' && t'[q] == t[q])
    && (forall q :: q in t' && q !in t ==> t'[q].Dir? && t'[q].trusted && q in Ancestors(path))
  }

  ghost predicate ParentsAreDirectories(t: Tree, path: Path, upTo: nat) {
    forall k :: 0 < k < upTo && k < |path| ==> path[..k] in t && t[path[..k]].Dir? && t[path[..k]].trusted
  }

  /** Whatever is on the way to `path` is a directory that can be trusted. */
  ghost predicate Enterable(t: Tree, path: Path) {
    forall k :: 0 < k < |path| && path[..k] in t ==> t[path[..k]].Dir? && t[path[..k]].trusted
  }

  lemma EnterableAfter(t: Tree, t': Tree, path: Path)
    requires Enterable(t, path) && GrewTowards(t, t', path)
    ensures Enterable(t', path)
  {
  }

  lemma GrewFurther(t: Tree, t': Tree, t'': Tree, path: Path, k: nat)
    requires GrewTowards(t, t', path) && GrewTowards(t', t'', path)
    requires ParentsAreDirectories(t', path, k)
    ensures GrewTowards(t, t'', path) && ParentsAreDirectories(t'', path, k)
  {
  }

  /** Walk to the parent of a changed path, making missing directories if asked to. */
  method OpenParent(host: Host, path: Path, create: bool, created0: seq<Path>,
                    ghost g0: State, ghost actions: seq<Action>, ghost leaves: set<Path>, ghost before: seq<Tree>)
    returns (r: Result<()>, created: seq<Path>, ghost g: State)
    requires path != [] && InProgress(host, g0, actions, created0, leaves, None, before)
    requires create ==> Ancestors(path) !! leaves
    modifies host
    ensures host.faults >= old(host.faults)
    ensures InProgress(host, g, actions, created, leaves, None, before)
    ensures g.start == g0.start && GrewTowards(g0.clean, g.clean, path)
    ensures !create ==> g == g0
    ensures r.Ok? ==> ParentsAreDirectories(g.clean, path, |path|)
    ensures r.Err? ==> r.error == Conflict || r.error == Io
    ensures host.faults == old(host.faults) && Enterable(g0.clean, path) ==>
              (create || ParentsAreDirectories(g0.clean, path, |path|) ==> r.Ok?)
  {
    hide Sound, Shows, SafeSince;
    created, g, r := created0, g0, Ok(());
    for k := 1 to |path|
      invariant InProgress(host, g, actions, created, leaves, None, before)
      invariant g.start == g0.start && GrewTowards(g0.clean, g.clean, path)
      invariant !create ==> g == g0
      invariant ParentsAreDirectories(g.clean, path, k) && r.Ok?
      invariant host.faults >= old(host.faults)
    {
      ghost var previous := g;
      r, created, g := EnterDirectory(host, path, k, create, created, g, actions, leaves, before);
      GrewFurther(g0.clean, previous.clean, g.clean, path, k);
      if Enterable(g0.clean, path) {
        EnterableAfter(g0.clean, previous.clean, path);
      }
      if r.Err? {
        return;
      }
    }
  }

  /** Enter the directory of the first `k` components. */
  method EnterDirectory(host: Host, path: Path, k: nat, create: bool, created0: seq<Path>,
                        ghost g0: State, ghost actions: seq<Action>, ghost leaves: set<Path>, ghost before: seq<Tree>)
    returns (r: Result<()>, created: seq<Path>, ghost g: State)
    requires 0 < k < |path| && InProgress(host, g0, actions, created0, leaves, None, before)
    requires create ==> Ancestors(path) !! leaves
    requires ParentsAreDirectories(g0.clean, path, k)
    modifies host
    ensures host.faults >= old(host.faults)
    ensures InProgress(host, g, actions, created, leaves, None, before)
    ensures g.start == g0.start && GrewTowards(g0.clean, g.clean, path)
    ensures !create ==> g == g0
    ensures r.Ok? ==> path[..k] in g.clean && g.clean[path[..k]].Dir? && g.clean[path[..k]].trusted
    ensures r.Err? ==> r.error == Conflict || r.error == Io
    ensures host.faults == old(host.faults) && (create || path[..k] in g0.clean) ==>
              ((path[..k] in g0.clean ==> g0.clean[path[..k]].Dir? && g0.clean[path[..k]].trusted) ==> r.Ok?)
  {
    hide Sound, SafeSince;
    created, g := created0, g0;
    var directory := path[..k];
    WayIn(host.tree, path, k);
    var handle := host.Open(directory);
    if handle.NotFound? && create {
      created, g := MakeParent(host, path, k, created, g, actions, leaves, before);
      WayIn(host.tree, path, k);
      handle := host.Open(directory);
    }
    if !handle.Opened? || !handle.node.Dir? {
      return Err(Io), created, g;
    }
    FoundIsPresent(host.tree, directory);
    r := if handle.node.trusted then Ok(()) else Err(Conflict);
  }

  lemma {:induction false} FoundIsPresent(t: Tree, p: Path)
    requires Resolve(t, p).Found?
    ensures p in t && t[p] == Resolve(t, p).node
  {
  }

  /** Below directories, resolution of the next component is membership. */
  lemma WayIn(t: Tree, path: Path, k: nat)
    requires WellFormed(t) && 0 < k < |path| && ParentsAreDirectories(t, path, k)
    ensures Resolve(t, path[..k]) == if path[..k] in t then Found(t[path[..k]]) else Missing
  {
    var p := path[..k];
    if p in t {
      ResolvePresent(t, p);
    } else {
      assert forall j :: 0 < j < k ==> p[..j] == path[..j];
      ResolveMissing(t, p);
    }
  }

  method MakeParent(host: Host, path: Path, k: nat, created0: seq<Path>,
                    ghost g0: State, ghost actions: seq<Action>, ghost leaves: set<Path>, ghost before: seq<Tree>)
    returns (created: seq<Path>, ghost g: State)
    requires 0 < k < |path| && InProgress(host, g0, actions, created0, leaves, None, before)
    requires Ancestors(path) !! leaves && ParentsAreDirectories(g0.clean, path, k)
    modifies host
    ensures host.faults >= old(host.faults)
    ensures InProgress(host, g, actions, created, leaves, None, before)
    ensures g.start == g0.start && GrewTowards(g0.clean, g.clean, path)
    ensures host.faults == old(host.faults) ==> path[..k] in g.clean
  {
    hide Tracks, Linked, GoodActions, Reverts, IsBase, Preserved;
    created, g := created0, g0;
    var directory := path[..k];
    assert directory in Ancestors(path);
    assert k > 1 ==> Parent(directory) == path[..k - 1];
    var made := host.MakeDirectory(directory);
    if made.Made? {
      var n := host.tree[directory];
      SoundMakeDirectory(g, actions, created, leaves, directory, n);
      g := State(g.start, g.base[directory := n], g.clean[directory := n], g.at);
      created := created + [directory];
      SafeExtend(g.start, host.trace[..|host.trace| - 1], before, host.tree, g.at);
      assert host.trace == host.trace[..|host.trace| - 1] + [host.tree];
    }
  }

  // ---------------------------------------------------------------------------------------------
  // Temporary files
  // ---------------------------------------------------------------------------------------------

  ghost function Leaves(plan: seq<Change>): set<Path> {
    set c | c in plan :: c.path
  }

  /** Every name on the way to a changed path is to be avoided. */
  ghost predicate Covers(avoid: set<Name>, leaves: set<Path>) {
    forall p, k :: p in leaves && 0 <= k < |p| ==> p[k] in avoid
  }

  lemma CoveredLeaf(avoid: set<Name>, leaves: set<Path>, q: Path)
    requires Covers(avoid, leaves) && q != [] && Leaf(q) !in avoid
    ensures q !in leaves
  {
    assert Leaf(q) == q[|q| - 1];
  }

  lemma TempTreeIsSafe(g: State, actions: seq<Action>, created: seq<Path>, leaves: set<Path>,
                       q: Path, n: Node, trace: seq<Tree>, before: seq<Tree>)
    requires Sound(g, actions, created, leaves) && SafeSince(g.start, trace, before)
    requires q !in g.clean && n.ino !in Inodes(g.start)
    ensures SafeSince(g.start, trace + [g.clean[q := n]], before)
  {
    TracksExtend(g.start, g.clean, g.at, q, n);
    SafeExtend(g.start, trace, before, g.clean[q := n], g.at);
  }

  lemma CleanTreeIsSafe(g: State, actions: seq<Action>, created: seq<Path>, leaves: set<Path>,
                        trace: seq<Tree>, before: seq<Tree>)
    requires Sound(g, actions, created, leaves) && SafeSince(g.start, trace, before)
    ensures SafeSince(g.start, trace + [g.clean], before)
  {
    SafeExtend(g.start, trace, before, g.clean, g.at);
  }

  lemma NewInodeIsFresh(g: State, actions: seq<Action>, created: seq<Path>, leaves: set<Path>, ino: nat)
    requires Sound(g, actions, created, leaves) && ino !in Inodes(g.clean)
    ensures ino !in Inodes(g.start)
  {
    TracksInodes(g.start, g.clean, g.at);
  }

  method CreateTempFile(host: Host, parent: Path, avoid: set<Name>,
                        ghost g: State, ghost actions: seq<Action>, ghost created: seq<Path>,
                        ghost leaves: set<Path>, ghost before: seq<Tree>)
    returns (r: Result<Path>)
    requires InProgress(host, g, actions, created, leaves, None, before) && Covers(avoid, leaves)
    modifies host
    ensures host.faults >= old(host.faults)
    ensures r.Err? ==> InProgress(host, g, actions, created, leaves, None, before)
    ensures r.Err? ==> r.error == Io || r.error == Conflict
    ensures r.Ok? ==> InProgress(host, g, actions, created, leaves, Some(r.value), before)
    ensures r.Ok? ==> r.value != [] && Parent(r.value) == parent
                      && host.tree[r.value] == File(host.tree[r.value].ino, [], 0x180, 1, true)
    ensures host.faults == old(host.faults) && host.lucky && IsDirectory(g.clean, parent) ==> r.Ok?
  {
    hide Sound, SafeSince;
    for attempt := 0 to 32
      invariant InProgress(host, g, actions, created, leaves, None, before)
      invariant host.faults >= old(host.faults)
      invariant host.faults == old(host.faults) && host.lucky && IsDirectory(g.clean, parent) ==> attempt == 0
    {
      var name := UniqueLeaf(host, parent, APPLY_PREFIX, avoid);
      var q := parent + [name];
      assert Leaf(q) == name && Parent(q) == parent;
      CoveredLeaf(avoid, leaves, q);
      ghost var trace := host.trace;
      var made := host.CreateExclusive(q);
      if made.Made? {
        NewInodeIsFresh(g, actions, created, leaves, host.tree[q].ino);
        TempTreeIsSafe(g, actions, created, leaves, q, host.tree[q], trace, before);
        return Ok(q);
      }
      if made.NotMade? {
        return Err(Io);
      }
    }
    r := Err(Conflict);
  }

  /** Remove a temporary file, ignoring a refusal. */
  method DiscardTemp(host: Host, q: Path,
                     ghost g: State, ghost actions: seq<Action>, ghost created: seq<Path>,
                     ghost leaves: set<Path>, ghost before: seq<Tree>)
    returns (ghost temp: Option<Path>)
    requires InProgress(host, g, actions, created, leaves, Some(q), before)
    modifies host
    ensures host.faults >= old(host.faults) && (temp.Some? ==> host.faults > old(host.faults))
    ensures InProgress(host, g, actions, created, leaves, temp, before)
  {
    hide Sound, SafeSince;
    ghost var trace := host.trace;
    var ok := host.Unlink(q);
    temp := if ok then None else Some(q);
    if ok {
      assert host.tree == g.clean;
      CleanTreeIsSafe(g, actions, created, leaves, trace, before);
    }
  }

  /** Copy the exported content into the temporary file chunk by chunk, hash what was read, and
      set the mode. */
  method FillTemp(host: Host, q: Path, content: Bytes, record: ChangeRecord, mode: bv32,
                  ghost g: State, ghost actions: seq<Action>, ghost created: seq<Path>,
                  ghost leaves: set<Path>, ghost before: seq<Tree>)
    returns (r: Result<()>)
    requires InProgress(host, g, actions, created, leaves, Some(q), before)
    requires host.tree[q] == File(host.tree[q].ino, [], 0x180, 1, true)
    modifies host
    ensures host.faults >= old(host.faults)
    ensures InProgress(host, g, actions, created, leaves, Some(q), before)
    ensures r.Ok? ==> host.tree[q] == File(host.tree[q].ino, content, mode, 1, true)
    ensures r.Err? ==> r.error == Io || r.error == UnsafeExport
    ensures host.faults == old(host.faults) ==>
              (r.Ok? <==> record.bytes == Some(|content|) && record.exportedSha256 == Some(Sha256(content)))
  {
    hide Sound, SafeSince;
    var read := 0;
    while read < |content|
      invariant 0 <= read <= |content| && host.faults >= old(host.faults)
      invariant InProgress(host, g, actions, created, leaves, Some(q), before)
      invariant host.tree[q] == File(host.tree[q].ino, content[..read], 0x180, 1, true)
    {
      var unreadable := host.Refuse();
      if unreadable {
        return Err(Io);
      }
      var size: nat := *;
      size := if 0 < size <= |content| - read then size else |content| - read;
      ghost var trace := host.trace;
      var written := host.Append(q, content[read..read + size]);
      if !written {
        return Err(Io);
      }
      assert content[..read] + content[read..read + size] == content[..read + size];
      assert host.tree == g.clean[q := host.tree[q]];
      TempTreeIsSafe(g, actions, created, leaves, q, host.tree[q], trace, before);
      read := read + size;
    }
    assert content[..read] == content;
    if Some(read) != record.bytes || Some(Sha256(content)) != record.exportedSha256 {
      return Err(UnsafeExport);
    }
    ghost var trace := host.trace;
    var changed := host.ChangeMode(q, mode);
    if !changed {
      return Err(Io);
    }
    assert host.tree == g.clean[q := host.tree[q]];
    TempTreeIsSafe(g, actions, created, leaves, q, host.tree[q], trace, before);
    var synced := host.Sync();
    var uninspected := host.Refuse();
    r := if !synced || uninspected then Err(Io) else Ok(());
  }

  /** A verified private copy of an exported file, next to the path it is for. */
  method PrepareExportFile(host: Host, files: Tree, c: Change, mode: bv32, avoid: set<Name>,
                           ghost g: State, ghost actions: seq<Action>, ghost created: seq<Path>,
                           ghost leaves: set<Path>, ghost before: seq<Tree>)
    returns (r: Result<Path>, ghost temp: Option<Path>)
    requires c.path != [] && Covers(avoid, leaves)
    requires InProgress(host, g, actions, created, leaves, None, before)
    modifies host
    ensures host.faults >= old(host.faults) && (r.Err? && temp.Some? ==> host.faults > old(host.faults))
    ensures InProgress(host, g, actions, created, leaves, temp, before)
    ensures r.Ok? ==>
              && temp == Some(r.value) && Parent(r.value) == Parent(c.path)
              && host.tree[r.value] == File(host.tree[r.value].ino, ExportedBytes(files, c.path), mode, 1, true)
    ensures r.Err? ==> r.error in {Io, UnsafeExport, Conflict}
    ensures host.faults == old(host.faults) && host.lucky && IsDirectory(g.clean, Parent(c.path)) ==>
              (c.record.kind != Deleted && ExportClear(files, c) ==> r.Ok?)
  {
    hide Sound, SafeSince;
    temp := None;
    var unreadable := host.Refuse();
    if unreadable || !Resolve(files, c.path).Found? {
      return Err(Io), None;
    }
    var input := Resolve(files, c.path).node;
    if !MatchesMetadata(input, c.record) {
      return Err(UnsafeExport), None;
    }
    r := CreateTempFile(host, Parent(c.path), avoid, g, actions, created, leaves, before);
    if r.Err? {
      return;
    }
    temp := Some(r.value);
    var filled := FillTemp(host, r.value, input.bytes, c.record, mode, g, actions, created, leaves, before);
    if filled.Err? {
      temp := DiscardTemp(host, r.value, g, actions, created, leaves, before);
      r := Err(filled.error);
    }
  }

  // ---------------------------------------------------------------------------------------------
  // One change
  // ---------------------------------------------------------------------------------------------

  /** Copies the nine permission bits one by one; set-id and sticky bits are dropped. */
  method PreservedFileMode(raw: bv32) returns (mode: bv32)
    ensures mode == PermissionBits(raw)
  {
    mode := 0;
    if raw & 0x100 != 0 { mode := mode | 0x100; }
    if raw & 0x080 != 0 { mode := mode | 0x080; }
    if raw & 0x040 != 0 { mode := mode | 0x040; }
    if raw & 0x020 != 0 { mode := mode | 0x020; }
    if raw & 0x010 != 0 { mode := mode | 0x010; }
    if raw & 0x008 != 0 { mode := mode | 0x008; }
    if raw & 0x004 != 0 { mode := mode | 0x004; }
    if raw & 0x002 != 0 { mode := mode | 0x002; }
    if raw & 0x001 != 0 { mode := mode | 0x001; }
  }

  /** The outcome of an `Added` change that went through. */
  ghost predicate DidAdd(files: Tree, c: Change, g0: State, g: State, actions0: seq<Action>, actions: seq<Action>) {
    && c.path !in g0.clean && c.path in g.clean
    && g.clean == g0.clean[c.path := g.clean[c.path]]
    && ContentOf(g.clean[c.path]) ==
         Regular(ExportedBytes(files, c.path), StandardMode(c.record.executable == Some(true)))
    && actions == actions0 + [Action(c.path, None, Some(g.clean[c.path].ino))]
  }

  method ApplyAdded(host: Host, files: Tree, c: Change, actions0: seq<Action>, avoid: set<Name>,
                    ghost g0: State, ghost created: seq<Path>, ghost leaves: set<Path>, ghost before: seq<Tree>)
    returns (r: Result<()>, actions: seq<Action>, ghost g: State, ghost temp: Option<Path>)
    requires c.path != [] && c.path in leaves && Covers(avoid, leaves)
    requires InProgress(host, g0, actions0, created, leaves, None, before)
    modifies host
    ensures host.faults >= old(host.faults) && (r.Err? && temp.Some? ==> host.faults > old(host.faults))
    ensures InProgress(host, g, actions, created, leaves, temp, before) && g.start == g0.start
    ensures r.Ok? ==> temp.None? && DidAdd(files, c, g0, g, actions0, actions)
    ensures r.Err? ==> r.error in {Io, UnsafeExport, Conflict}
    ensures host.faults == old(host.faults) && host.lucky && c.path !in g0.clean && Enterable(g0.clean, c.path) ==>
              (IsDirectory(g0.clean, Parent(c.path)) && c.record.kind != Deleted && ExportClear(files, c) ==> r.Ok?)
  {
    hide Sound, SafeSince, Covers, WellFormed, StandardMode, ExportedBytes;
    actions, g, temp := actions0, g0, None;
    if c.path !in g0.clean && Enterable(g0.clean, c.path) {
      ResolveMissing(host.tree, c.path);
    }
    var handle := host.Open(c.path);
    if !handle.NotFound? {
      return Err(if handle.Opened? then Conflict else Io), actions, g, temp;
    }
    var prepared;
    var mode := StandardMode(c.record.executable == Some(true));
    prepared, temp := PrepareExportFile(host, files, c, mode, avoid, g, actions, created, leaves, before);
    if prepared.Err? {
      return Err(prepared.error), actions, g, temp;
    }
    r, actions, g, temp := InstallAddition(host, prepared.value, c.path, actions, g, created, leaves, before);
  }

  /** Put a prepared file at a free changed path. */
  method InstallAddition(host: Host, q: Path, leaf: Path, actions0: seq<Action>,
                         ghost g0: State, ghost created: seq<Path>, ghost leaves: set<Path>, ghost before: seq<Tree>)
    returns (r: Result<()>, actions: seq<Action>, ghost g: State, ghost temp: Option<Path>)
    requires leaf != [] && leaf in leaves
    requires InProgress(host, g0, actions0, created, leaves, Some(q), before)
    modifies host
    ensures host.faults >= old(host.faults) && (r.Err? && temp.Some? ==> host.faults > old(host.faults))
    ensures InProgress(host, g, actions, created, leaves, temp, before) && g.start == g0.start
    ensures r.Ok? ==> temp.None? && leaf !in g0.clean && g.clean == g0.clean[leaf := old(host.tree)[q]]
                      && actions == actions0 + [Action(leaf, None, Some(old(host.tree)[q].ino))]
    ensures r.Err? ==> r.error == Io
    ensures host.faults == old(host.faults) && leaf !in g0.clean && IsDirectory(g0.clean, Parent(leaf)) ==> r.Ok?
  {
    hide Sound, SafeSince;
    actions, g, temp := actions0, g0, Some(q);
    ghost var n, trace := host.tree[q], host.trace;
    var installed := host.RenameNoReplace(q, leaf);
    if !installed {
      temp := DiscardTemp(host, q, g, actions, created, leaves, before);
      return Err(Io), actions, g, temp;
    }
    assert host.tree == g.clean[leaf := n];
    SoundAdd(g, actions, created, leaves, leaf, n);
    g, temp := g.(clean := g.clean[leaf := n]), None;
    actions := actions + [Action(leaf, None, Some(host.tree[leaf].ino))];
    CleanTreeIsSafe(g, actions, created, leaves, trace, before);
    var synced := host.Sync();
    r := if synced then Ok(()) else Err(Io);
  }

  method VerifyRollbackSource(host: Host, slot: Path, entry: IncludedFile, original: nat) returns (r: Result<()>)
    modifies host`faults
    ensures host.faults >= old(host.faults)
    ensures r.Ok? ==> Resolve(host.tree, slot).Found? && Resolve(host.tree, slot).node.ino == original
                      && MatchesBaseline(Resolve(host.tree, slot).node, entry)
    ensures r.Err? ==> r.error == Io || r.error == Conflict
    ensures host.faults == old(host.faults) ==>
              (r.Ok? <==> Resolve(host.tree, slot).Found? && Resolve(host.tree, slot).node.ino == original
                          && MatchesBaseline(Resolve(host.tree, slot).node, entry))
    ensures r.Ok? ==> Resolve(host.tree, slot).Found? && Resolve(host.tree, slot).node.ino == original
                      && IsStagedFile(Resolve(host.tree, slot).node, entry)
  {
    var handle := host.Open(slot);
    var unreadable := host.Refuse();
    if unreadable || !handle.Opened? {
      return Err(Io);
    }
    MatchesMean(handle.node, entry, ChangeRecord([], Added, None, None, None, None));
    r := if handle.node.ino == original && MatchesBaseline(handle.node, entry) then Ok(()) else Err(Conflict);
  }

  /** Move the starting file of a change into a fresh rollback slot and log it. */
  method MoveToSlot(host: Host, leaf: Path, actions0: seq<Action>, avoid: set<Name>, ghost temp: Option<Path>,
                    ghost g0: State, ghost created: seq<Path>, ghost leaves: set<Path>, ghost before: seq<Tree>)
    returns (ok: bool, slot: Path, actions: seq<Action>, ghost g: State)
    requires leaf != [] && leaf in leaves && Covers(avoid, leaves) && [] !in leaves
    requires leaf in host.tree && host.tree[leaf].File? && leaf in g0.clean
    requires InProgress(host, g0, actions0, created, leaves, temp, before)
    modifies host
    ensures host.faults >= old(host.faults)
    ensures InProgress(host, g, actions, created, leaves, temp, before)
    ensures temp.Some? ==> host.tree[temp.value] == old(host.tree)[temp.value]
    ensures !ok ==> g == g0 && actions == actions0
    ensures ok ==> slot !in g0.clean && slot !in leaves && g == MovedAside(g0, leaf, slot)
                   && actions == actions0 + [Action(leaf, Some(slot), None)]
    ensures slot != [] && Leaf(slot) !in avoid && Parent(slot) == Parent(leaf)
    ensures host.faults == old(host.faults) && host.lucky && IsDirectory(g0.clean, Parent(leaf)) ==> ok
  {
    hide Sound, SafeSince;
    actions, g := actions0, g0;
    var name := UniqueLeaf(host, Parent(leaf), ROLLBACK_PREFIX, avoid);
    slot := Parent(leaf) + [name];
    assert Leaf(slot) == name && Parent(slot) == Parent(leaf);
    CoveredLeaf(avoid, leaves, slot);
    ghost var trace := host.trace;
    ok := host.RenameNoReplace(leaf, slot);
    if ok {
      SoundMoveAside(g0, actions0, created, leaves, leaf, slot);
      g := MovedAside(g0, leaf, slot);
      actions := actions + [Action(leaf, Some(slot), None)];
      if temp.Some? {
        assert host.tree == g.clean[temp.value := host.tree[temp.value]];
        TempTreeIsSafe(g, actions, created, leaves, temp.value, host.tree[temp.value], trace, before);
      } else {
        CleanTreeIsSafe(g, actions, created, leaves, trace, before);
      }
    }
  }

  /** The baseline file is at the path of the change. */
  ghost predicate HoldsBaseline(t: Tree, baseline: AuditManifest, c: Change) {
    var entry := FirstEntry(baseline.included, c.record.path);
    entry.Some? && c.path in t && MatchesBaseline(t[c.path], entry.value)
  }

  lemma BaselineIsFound(t: Tree, baseline: AuditManifest, c: Change)
    requires WellFormed(t) && HoldsBaseline(t, baseline, c)
    ensures Resolve(t, c.path) == Found(t[c.path]) && IsDirectory(t, Parent(c.path))
  {
    ResolvePresent(t, c.path);
  }

  ghost predicate DidDelete(c: Change, g0: State, g: State, actions0: seq<Action>, actions: seq<Action>, slot: Path) {
    && c.path in g0.clean && g0.clean[c.path].File? && slot !in g0.clean
    && g.clean == Moved(g0.clean, c.path, slot)
    && actions == actions0 + [Action(c.path, Some(slot), None)]
  }

  method ApplyDeleted(host: Host, baseline: AuditManifest, c: Change, actions0: seq<Action>, avoid: set<Name>,
                      ghost g0: State, ghost created: seq<Path>, ghost leaves: set<Path>, ghost before: seq<Tree>)
    returns (r: Result<()>, actions: seq<Action>, ghost g: State, ghost slot: Path)
    requires c.path != [] && c.path in leaves && Covers(avoid, leaves) && [] !in leaves
    requires InProgress(host, g0, actions0, created, leaves, None, before)
    modifies host
    ensures host.faults >= old(host.faults)
    ensures InProgress(host, g, actions, created, leaves, None, before) && g.start == g0.start
    ensures r.Ok? ==> slot !in leaves && slot != [] && Leaf(slot) !in avoid && DidDelete(c, g0, g, actions0, actions, slot)
    ensures r.Err? ==> r.error in {Io, UnsafeManifest, Conflict}
    ensures host.faults == old(host.faults) && host.lucky && HoldsBaseline(g0.clean, baseline, c) ==> r.Ok?
  {
    hide Sound, SafeSince, Resolve, MatchesBaseline, Covers;
    actions, g, slot := actions0, g0, [];
    if HoldsBaseline(g0.clean, baseline, c) {
      BaselineIsFound(g0.clean, baseline, c);
    }
    var entry := FirstEntry(baseline.included, c.record.path);
    if entry.None? {
      return Err(UnsafeManifest), actions, g, slot;
    }
    var source := OpenMatchingSource(host, c.path, entry.value);
    if source.Err? {
      return Err(source.error), actions, g, slot;
    }
    FoundIsPresent(host.tree, c.path);
    var moved, backup;
    moved, backup, actions, g := MoveToSlot(host, c.path, actions, avoid, None, g, created, leaves, before);
    slot := backup;
    if !moved {
      return Err(Io), actions, g, slot;
    }
    ResolvePresent(host.tree, backup);
    r := VerifyRollbackSource(host, backup, entry.value, source.value.ino);
    if r.Err? {
      return;
    }
    var synced := host.Sync();
    r := if synced then Ok(()) else Err(Io);
  }

  ghost predicate DidModify(files: Tree, c: Change, g0: State, g: State, actions0: seq<Action>, actions: seq<Action>, slot: Path) {
    && c.path in g0.clean && g0.clean[c.path].File? && slot !in g0.clean && slot != c.path && c.path in g.clean
    && g.clean == Moved(g0.clean, c.path, slot)[c.path := g.clean[c.path]]
    && ContentOf(g.clean[c.path]) ==
         Regular(ExportedBytes(files, c.path), PermissionBits(g0.clean[c.path].mode))
    && actions == actions0 + [Action(c.path, Some(slot), Some(g.clean[c.path].ino))]
  }

  method ApplyModified(host: Host, files: Tree, baseline: AuditManifest, c: Change, actions0: seq<Action>, avoid: set<Name>,
                       ghost g0: State, ghost created: seq<Path>, ghost leaves: set<Path>, ghost before: seq<Tree>)
    returns (r: Result<()>, actions: seq<Action>, ghost g: State, ghost temp: Option<Path>, ghost slot: Path)
    requires c.path != [] && c.path in leaves && Covers(avoid, leaves) && [] !in leaves
    requires InProgress(host, g0, actions0, created, leaves, None, before)
    modifies host
    ensures host.faults >= old(host.faults) && (r.Err? && temp.Some? ==> host.faults > old(host.faults))
    ensures InProgress(host, g, actions, created, leaves, temp, before) && g.start == g0.start
    ensures r.Ok? ==> temp.None? && slot !in leaves && slot != [] && Leaf(slot) !in avoid
                      && DidModify(files, c, g0, g, actions0, actions, slot)
    ensures r.Err? ==> r.error in {Io, UnsafeManifest, UnsafeExport, Conflict}
    ensures host.faults == old(host.faults) && host.lucky && HoldsBaseline(g0.clean, baseline, c) ==>
              (c.record.kind != Deleted && ExportClear(files, c) ==> r.Ok?)
  {
    hide Sound, SafeSince, Resolve, MatchesBaseline, Covers, ExportClear;
    if HoldsBaseline(g0.clean, baseline, c) {
      BaselineIsFound(g0.clean, baseline, c);
    }
    actions, g, temp, slot := actions0, g0, None, [];
    var entry := FirstEntry(baseline.included, c.record.path);
    if entry.None? {
      return Err(UnsafeManifest), actions, g, temp, slot;
    }
    var source := OpenMatchingSource(host, c.path, entry.value);
    if source.Err? {
      return Err(source.error), actions, g, temp, slot;
    }
    FoundIsPresent(host.tree, c.path);
    var mode := PreservedFileMode(source.value.mode);
    var prepared;
    prepared, temp := PrepareExportFile(host, files, c, mode, avoid, g, actions, created, leaves, before);
    if prepared.Err? {
      return Err(prepared.error), actions, g, temp, slot;
    }
    r, actions, g, temp, slot :=
      SwapFiles(host, prepared.value, c.path, entry.value, source.value.ino, actions0, avoid, g, created, leaves, before);
  }

  /** Move the original aside, check it again, and put the prepared file in its place. */
  method SwapFiles(host: Host, q: Path, leaf: Path, entry: IncludedFile, original: nat, actions0: seq<Action>, avoid: set<Name>,
                   ghost g0: State, ghost created: seq<Path>, ghost leaves: set<Path>, ghost before: seq<Tree>)
    returns (r: Result<()>, actions: seq<Action>, ghost g: State, ghost temp: Option<Path>, ghost slot: Path)
    requires leaf != [] && leaf in leaves && Covers(avoid, leaves) && [] !in leaves
    requires InProgress(host, g0, actions0, created, leaves, Some(q), before)
    requires leaf in g0.clean && g0.clean[leaf].File?
    modifies host
    ensures host.faults >= old(host.faults) && (r.Err? && temp.Some? ==> host.faults > old(host.faults))
    ensures InProgress(host, g, actions, created, leaves, temp, before) && g.start == g0.start
    ensures r.Ok? ==> temp.None? && slot !in leaves && slot != [] && Leaf(slot) !in avoid && slot !in g0.clean && slot != leaf
                      && g.clean == Moved(g0.clean, leaf, slot)[leaf := old(host.tree)[q]]
                      && actions == actions0 + [Action(leaf, Some(slot), Some(old(host.tree)[q].ino))]
    ensures r.Err? ==> r.error == Io || r.error == Conflict
    ensures host.faults == old(host.faults) && host.lucky && IsDirectory(g0.clean, Parent(leaf)) ==>
              (g0.clean[leaf].ino == original && MatchesBaseline(g0.clean[leaf], entry) ==> r.Ok?)
  {
    hide Sound, SafeSince, Resolve, MatchesBaseline, Covers;
    actions, g, temp := actions0, g0, Some(q);
    var moved, backup;
    moved, backup, actions, g := MoveToSlot(host, leaf, actions, avoid, temp, g, created, leaves, before);
    slot := backup;
    if !moved {
      temp := DiscardTemp(host, q, g, actions, created, leaves, before);
      return Err(Io), actions, g, temp, slot;
    }
    ResolvePresent(host.tree, backup);
    r := VerifyRollbackSource(host, backup, entry, original);
    if r.Err? {
      temp := DiscardTemp(host, q, g, actions, created, leaves, before);
      return;
    }
    r, actions, g, temp := InstallReplacement(host, q, leaf, backup, actions0, g, created, leaves, before);
  }

  /** Put the prepared replacement at the path whose starting file was just moved aside. */
  method InstallReplacement(host: Host, q: Path, leaf: Path, slot: Path, actions0: seq<Action>,
                            ghost g0: State, ghost created: seq<Path>, ghost leaves: set<Path>, ghost before: seq<Tree>)
    returns (r: Result<()>, actions: seq<Action>, ghost g: State, ghost temp: Option<Path>)
    requires leaf != [] && leaf in leaves
    requires InProgress(host, g0, actions0 + [Action(leaf, Some(slot), None)], created, leaves, Some(q), before)
    modifies host
    ensures host.faults >= old(host.faults) && (r.Err? && temp.Some? ==> host.faults > old(host.faults))
    ensures InProgress(host, g, actions, created, leaves, temp, before) && g.start == g0.start
    ensures r.Ok? ==> temp.None? && g.clean == g0.clean[leaf := old(host.tree)[q]]
                      && actions == actions0 + [Action(leaf, Some(slot), Some(old(host.tree)[q].ino))]
    ensures r.Err? ==> r.error == Io
    ensures host.faults == old(host.faults) && leaf !in g0.clean && IsDirectory(g0.clean, Parent(leaf)) ==> r.Ok?
  {
    hide Sound, SafeSince;
    actions, g, temp := actions0 + [Action(leaf, Some(slot), None)], g0, Some(q);
    ghost var n, trace := host.tree[q], host.trace;
    var installed := host.RenameNoReplace(q, leaf);
    if !installed {
      temp := DiscardTemp(host, q, g, actions, created, leaves, before);
      return Err(Io), actions, g, temp;
    }
    assert host.tree == g.clean[leaf := n];
    SoundInstall(g, actions0, created, leaves, leaf, slot, n);
    g, temp := g.(clean := g.clean[leaf := n]), None;
    actions := actions0 + [Action(leaf, Some(slot), Some(host.tree[leaf].ino))];
    CleanTreeIsSafe(g, actions, created, leaves, trace, before);
    var synced := host.Sync();
    r := if synced then Ok(()) else Err(Io);
  }
}
