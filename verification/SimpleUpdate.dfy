/**
  The plain meaning of a list of changes: update a view of the tree (contents and permissions, no
  inodes) one change after the other. The transaction is proved to refine this.
 */
module SimpleUpdate {
  import opened PathCodec
  import opened HostTree
  import opened Manifest
  import Sorting

  datatype Content = Directory | Regular(bytes: Bytes, mode: bv32) | Unmanaged
  type View = map<Path, Content>

  function ContentOf(n: Node): Content {
    match n
    case Dir(_, _) => Directory
    case File(_, bytes, mode, _, _) => Regular(bytes, mode)
    case Other(_) => Unmanaged
  }

  function ViewOf(t: Tree): View {
    map p | p in t :: ContentOf(t[p])
  }

  /** 644, or 755 for an executable. */
  function StandardMode(executable: bool): bv32 {
    if executable then 0x1ED else 0x1A4
  }

  /** The nine permission bits. */
  function PermissionBits(mode: bv32): bv32 {
    mode & 0x1FF
  }

  datatype Step =
    | Put(path: Path, bytes: Bytes, executable: bool)
    | Replace(path: Path, bytes: Bytes)
    | Remove(path: Path)

  function Ancestors(path: Path): set<Path> {
    set k | 0 < k < |path| :: path[..k]
  }

  /** Missing ancestors become directories; existing entries stay. */
  function WithParents(v: View, path: Path): View {
    (map q | q in Ancestors(path) :: Directory) + v
  }

  /** The content a step leaves at its own path. */
  function After(v: View, s: Step): Option<Content> {
    match s
    case Put(_, bytes, executable) => Some(Regular(bytes, StandardMode(executable)))
    case Replace(path, bytes) =>
      if path !in v then None
      else if v[path].Regular? then Some(Regular(bytes, PermissionBits(v[path].mode)))
      else Some(v[path])
    case Remove(_) => None
  }

  function Updated1(v: View, s: Step): View {
    var v' := if s.Put? then WithParents(v, s.path) else v;
    match After(v, s)
    case Some(content) => v'[s.path := content]
    case None => v' - {s.path}
  }

  function Updated(v: View, steps: seq<Step>): View {
    if steps == [] then v
    else Updated1(Updated(v, steps[..|steps| - 1]), steps[|steps| - 1])
  }

  // ---------------------------------------------------------------------------------------------
  // Closed form and order independence
  // ---------------------------------------------------------------------------------------------

  /** No path is a strict component-prefix of another. */
  ghost predicate NotNested(steps: seq<Step>) {
    forall i, j :: 0 <= i < |steps| && 0 <= j < |steps| ==> !(steps[i].path < steps[j].path)
  }

  ghost predicate DistinctPaths(steps: seq<Step>) {
    forall i, j :: 0 <= i < j < |steps| ==> steps[i].path != steps[j].path
  }

  ghost function PathsOf(steps: seq<Step>): set<Path> {
    set s | s in steps :: s.path
  }

  ghost predicate IsNewParent(steps: seq<Step>, q: Path) {
    exists s :: s in steps && s.Put? && q in Ancestors(s.path)
  }

  ghost predicate Holds(v: View, s: Step, r: View) {
    match After(v, s)
    case Some(content) => s.path in r && r[s.path] == content
    case None => s.path !in r
  }

  /** What `r` must be, stated path by path and without reference to any order. */
  ghost predicate IsOutcome(v: View, steps: seq<Step>, r: View) {
    && (forall s :: s in steps ==> Holds(v, s, r))
    && (forall q :: q !in PathsOf(steps) && q in v ==> q in r && r[q] == v[q])
    && (forall q :: q !in PathsOf(steps) && q !in v ==>
          (q in r <==> IsNewParent(steps, q)) && (q in r ==> r[q] == Directory))
  }

  lemma AncestorIsPrefix(q: Path, path: Path)
    ensures q in Ancestors(path) <==> q != [] && q < path
  {
    if q != [] && q < path {
      assert path[..|q|] == q;
    }
  }

  lemma {:induction false} OutcomeAfterStep(v: View, front: seq<Step>, u: View, s: Step)
    requires IsOutcome(v, front, u)
    requires NotNested(front + [s]) && DistinctPaths(front + [s])
    ensures IsOutcome(v, front + [s], Updated1(u, s))
  {
    var steps := front + [s];
    var r := Updated1(u, s);
    forall t | t in front
      ensures t.path != s.path && !(t.path < s.path) && !(s.path < t.path)
    {
      var i :| 0 <= i < |front| && front[i] == t;
      assert steps[i] == t && steps[|front|] == s;
    }
    assert s.path !in PathsOf(front);
    forall t | t in steps
      ensures Holds(v, t, r)
    {
      if t != s {
        assert t in front;
        AncestorIsPrefix(t.path, s.path);
      }
    }
    forall q
      ensures q in PathsOf(steps) <==> q in PathsOf(front) || q == s.path
    {
      if q in PathsOf(front) {
        var t :| t in front && t.path == q;
        assert t in steps;
      }
      if q == s.path { assert s in steps; }
    }
    forall q | q !in PathsOf(steps) && q !in v
      ensures (q in r <==> IsNewParent(steps, q)) && (q in r ==> r[q] == Directory)
    {
      if IsNewParent(front, q) {
        var t :| t in front && t.Put? && q in Ancestors(t.path);
        assert t in steps;
      }
      if s.Put? && q in Ancestors(s.path) {
        assert s in steps;
      }
    }
  }

  /** The fold of a list of unrelated changes has the closed form. */
  lemma {:induction false} UpdatedIsOutcome(v: View, steps: seq<Step>)
    requires NotNested(steps) && DistinctPaths(steps)
    ensures IsOutcome(v, steps, Updated(v, steps))
  {
    if steps != [] {
      var front, s := steps[..|steps| - 1], steps[|steps| - 1];
      assert steps == front + [s];
      UpdatedIsOutcome(v, front);
      OutcomeAfterStep(v, front, Updated(v, front), s);
    }
  }

  lemma OutcomeIsUnique(v: View, steps: seq<Step>, steps': seq<Step>, r: View, r': View)
    requires multiset(steps) == multiset(steps')
    requires IsOutcome(v, steps, r) && IsOutcome(v, steps', r')
    ensures r == r'
  {
    forall s
      ensures s in steps <==> s in steps'
    {
      assert s in steps <==> s in multiset(steps);
      assert s in steps' <==> s in multiset(steps');
    }
    assert PathsOf(steps) == PathsOf(steps');
    forall q
      ensures q in r <==> q in r'
      ensures q in r ==> r[q] == r'[q]
    {
      if q in PathsOf(steps) {
        var s :| s in steps && s.path == q;
        assert Holds(v, s, r) && Holds(v, s, r');
      } else if q !in v {
        assert IsNewParent(steps, q) <==> IsNewParent(steps', q);
      }
    }
  }

  predicate SamePath(s: Step, t: Step) {
    s.path == t.path
  }

  lemma UnrelatedInAnyOrder(steps: seq<Step>, steps': seq<Step>)
    requires multiset(steps) == multiset(steps')
    requires NotNested(steps) && DistinctPaths(steps)
    ensures NotNested(steps') && DistinctPaths(steps')
  {
    assert Sorting.Separated(steps, SamePath);
    Sorting.SeparatedIsPermutationInvariant(steps, steps', SamePath);
    Sorting.MembersOfPermutation(steps, steps');
    forall i, j | 0 <= i < |steps'| && 0 <= j < |steps'|
      ensures !(steps'[i].path < steps'[j].path)
    {
      assert steps'[i] in steps && steps'[j] in steps;
    }
  }

  /** For unrelated paths the final view does not depend on the order of the changes. */
  lemma UpdatedInAnyOrder(v: View, steps: seq<Step>, steps': seq<Step>)
    requires multiset(steps) == multiset(steps')
    requires NotNested(steps) && DistinctPaths(steps)
    ensures Updated(v, steps) == Updated(v, steps')
  {
    UnrelatedInAnyOrder(steps, steps');
    UpdatedIsOutcome(v, steps);
    UpdatedIsOutcome(v, steps');
    OutcomeIsUnique(v, steps, steps', Updated(v, steps), Updated(v, steps'));
  }
}
