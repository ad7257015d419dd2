/**
  A directory tree and the system calls that the apply transaction makes on it.

  A tree maps component paths to nodes; the root directory itself is the empty path and is not in
  the map. Every call may be refused: `Refuse` is an arbitrary choice made afresh for each call,
  and `faults` counts the refusals. `trace` records the tree after every single mutation, so a
  property of all entries of `trace` is a property of every prefix of every run.
 */
module HostTree {
  import opened PathCodec

  type Name = Bytes
  type Path = seq<Name>

  /** `trusted`: owned by the caller, on the root's filesystem, not writable by group or others.
      `local`: owned by the caller and on the root's filesystem. */
  datatype Node =
    | Dir(ino: nat, trusted: bool)
    | File(ino: nat, bytes: Bytes, mode: bv32, links: nat, local: bool)
    | Other(ino: nat)

  type Tree = map<Path, Node>

  function Parent(p: Path): Path
    requires p != []
  {
    p[..|p| - 1]
  }

  predicate IsDirectory(t: Tree, p: Path) {
    p == [] || (p in t && t[p].Dir?)
  }

  /** Every entry lies in a directory of the tree. */
  ghost predicate WellFormed(t: Tree) {
    && [] !in t
    && forall p {:trigger Parent(p)} :: p != [] && p in t ==> IsDirectory(t, Parent(p))
  }

  function Inodes(t: Tree): set<nat> {
    set p | p in t :: t[p].ino
  }

  /** Outcome of walking a path component by component without following links. */
  datatype Resolution = Found(node: Node) | Root | Missing | Blocked

  function Resolve(t: Tree, p: Path): Resolution {
    if p == [] then Root
    else
      match Resolve(t, Parent(p))
      case Root => if p in t then Found(t[p]) else Missing
      case Found(Dir(_, _)) => if p in t then Found(t[p]) else Missing
      case Found(_) => Blocked
      case Missing => Missing
      case Blocked => Blocked
  }

  /** A resolved path is in the tree below directories only; below a missing or resolved path
      there is no ancestor that is anything but a directory or absent. */
  lemma {:induction false} ResolvedAncestors(t: Tree, p: Path, k: nat)
    requires 0 < k < |p|
    ensures Resolve(t, p).Found? ==> Resolve(t, p[..k]).Found? && Resolve(t, p[..k]).node.Dir?
    ensures Resolve(t, p).Missing? ==>
              Resolve(t, p[..k]).Missing? || (Resolve(t, p[..k]).Found? && Resolve(t, p[..k]).node.Dir?)
  {
    if k < |p| - 1 {
      ResolvedAncestors(t, Parent(p), k);
      assert Parent(p)[..k] == p[..k];
    }
  }

  /** In a well-formed tree resolution is membership. */
  lemma {:induction false} ResolvePresent(t: Tree, p: Path)
    requires WellFormed(t) && p in t
    ensures Resolve(t, p) == Found(t[p])
  {
    if Parent(p) != [] {
      ResolvePresent(t, Parent(p));
    }
  }

  lemma ResolveAbsent(t: Tree, p: Path)
    requires Resolve(t, p).Missing?
    requires WellFormed(t)
    ensures p !in t
  {
    if p in t {
      ResolvePresent(t, p);
    }
  }

  /** A path that is not there is missing if all its parents that are there are directories. */
  lemma {:induction false} ResolveMissing(t: Tree, p: Path)
    requires WellFormed(t) && p != [] && p !in t
    requires forall k :: 0 < k < |p| && p[..k] in t ==> t[p[..k]].Dir?
    ensures Resolve(t, p) == Missing
  {
    var q := Parent(p);
    if q != [] {
      if q in t {
        ResolvePresent(t, q);
        assert p[..|p| - 1] in t;
      } else {
        assert forall k :: 0 < k < |q| ==> q[..k] == p[..k];
        ResolveMissing(t, q);
      }
    }
  }

  lemma {:induction false} BoundedInodes(s: set<nat>) returns (bound: nat)
    ensures forall i :: i in s ==> i < bound
  {
    if s == {} {
      bound := 0;
    } else {
      var x :| x in s;
      var rest := BoundedInodes(s - {x});
      bound := if x < rest then rest else x + 1;
      forall i | i in s
        ensures i < bound
      {
        assert i == x || i in s - {x};
      }
    }
  }

  lemma FreshInodeExists(t: Tree)
    ensures exists i: nat :: i !in Inodes(t)
  {
    var bound := BoundedInodes(Inodes(t));
    assert bound !in Inodes(t);
  }

  datatype OpenResult = Opened(node: Node) | NotFound | Failed
  datatype MakeResult = Made | Exists | NotMade

  class Host {
    /** Whether every random name that is drawn turns out to be free. */
    const lucky: bool
    var tree: Tree
    ghost var trace: seq<Tree>
    ghost var faults: nat

    constructor (t: Tree, lucky: bool)
      requires WellFormed(t)
      ensures Valid() && tree == t && trace == [t] && faults == 0 && this.lucky == lucky
    {
      this.lucky := lucky;
      tree, trace, faults := t, [t], 0;
    }

    ghost predicate Valid()
      reads `tree, `trace
    {
      WellFormed(tree) && trace != [] && trace[|trace| - 1] == tree
    }

    /** Whether the environment refuses the current call. */
    method Refuse() returns (refused: bool)
      modifies `faults
      ensures faults == old(faults) + (if refused then 1 else 0)
    {
      refused := *;
      if refused {
        faults := faults + 1;
      }
    }

    /** `openat2` below the root without following any link. */
    method Open(p: Path) returns (r: OpenResult)
      modifies `faults
      ensures faults >= old(faults)
      ensures r.Opened? ==> Resolve(tree, p) == Found(r.node)
      ensures r.NotFound? ==> Resolve(tree, p) == Missing
      ensures faults == old(faults) ==>
                match Resolve(tree, p)
                case Found(n) => r == Opened(n)
                case Missing => r == NotFound
                case _ => r == Failed
    {
      var refused := Refuse();
      if refused {
        return Failed;
      }
      match Resolve(tree, p) {
        case Found(node) => r := Opened(node);
        case Missing => r := NotFound;
        case Root => r := Failed;
        case Blocked => r := Failed;
      }
    }

    method Sync() returns (ok: bool)
      modifies `faults
      ensures faults == old(faults) + (if ok then 0 else 1)
    {
      var refused := Refuse();
      ok := !refused;
    }

    method MakeDirectory(p: Path) returns (r: MakeResult)
      requires Valid() && p != []
      modifies this
      ensures Valid() && faults >= old(faults)
      ensures r.Made? ==>
                && p !in old(tree) && p in tree && tree[p].Dir? && tree[p].trusted
                && tree[p].ino !in Inodes(old(tree))
                && tree == old(tree)[p := tree[p]] && trace == old(trace) + [tree]
      ensures !r.Made? ==> tree == old(tree) && trace == old(trace)
      ensures r.Exists? ==> p in tree
      ensures faults == old(faults) ==> (r.Made? <==> IsDirectory(old(tree), Parent(p)) && p !in old(tree))
    {
      var refused := Refuse();
      if refused || !IsDirectory(tree, Parent(p)) {
        return NotMade;
      }
      if p in tree {
        return Exists;
      }
      FreshInodeExists(tree);
      var ino: nat :| ino !in Inodes(tree);
      tree := tree[p := Dir(ino, true)];
      trace := trace + [tree];
      r := Made;
    }

    /** `openat` with `O_CREAT | O_EXCL`, mode 600. */
    method CreateExclusive(p: Path) returns (r: MakeResult)
      requires Valid() && p != []
      modifies this
      ensures Valid() && faults >= old(faults)
      ensures r.Made? ==>
                && p !in old(tree) && p in tree && tree[p].File?
                && tree[p] == File(tree[p].ino, [], 0x180, 1, true)
                && tree[p].ino !in Inodes(old(tree))
                && tree == old(tree)[p := tree[p]] && trace == old(trace) + [tree]
      ensures !r.Made? ==> tree == old(tree) && trace == old(trace)
      ensures r.Exists? ==> p in tree
      ensures faults == old(faults) ==> (r.Made? <==> IsDirectory(old(tree), Parent(p)) && p !in old(tree))
    {
      var refused := Refuse();
      if refused || !IsDirectory(tree, Parent(p)) {
        return NotMade;
      }
      if p in tree {
        return Exists;
      }
      FreshInodeExists(tree);
      var ino: nat :| ino !in Inodes(tree);
      tree := tree[p := File(ino, [], 0x180, 1, true)];
      trace := trace + [tree];
      r := Made;
    }

    /** One `write` through the descriptor of an open regular file. */
    method Append(p: Path, chunk: Bytes) returns (ok: bool)
      requires Valid() && p in tree && tree[p].File?
      modifies this
      ensures Valid() && faults >= old(faults)
      ensures ok ==> tree == old(tree)[p := old(tree)[p].(bytes := old(tree)[p].bytes + chunk)] && trace == old(trace) + [tree]
      ensures !ok ==> tree == old(tree) && trace == old(trace)
      ensures faults == old(faults) ==> ok
    {
      var refused := Refuse();
      if refused {
        return false;
      }
      tree := tree[p := tree[p].(bytes := tree[p].bytes + chunk)];
      trace := trace + [tree];
      ok := true;
    }

    /** `fchmod` through the descriptor of an open regular file. */
    method ChangeMode(p: Path, mode: bv32) returns (ok: bool)
      requires Valid() && p in tree && tree[p].File?
      modifies this
      ensures Valid() && faults >= old(faults)
      ensures ok ==> tree == old(tree)[p := old(tree)[p].(mode := mode)] && trace == old(trace) + [tree]
      ensures !ok ==> tree == old(tree) && trace == old(trace)
      ensures faults == old(faults) ==> ok
    {
      var refused := Refuse();
      if refused {
        return false;
      }
      tree := tree[p := tree[p].(mode := mode)];
      trace := trace + [tree];
      ok := true;
    }

    /** `renameat2` with `RENAME_NOREPLACE` of something that is not a directory. */
    method RenameNoReplace(from: Path, to: Path) returns (ok: bool)
      requires Valid() && to != []
      requires from in tree ==> !tree[from].Dir?
      modifies this
      ensures Valid() && faults >= old(faults)
      ensures ok ==>
                && from in old(tree) && to !in old(tree)
                && tree == Moved(old(tree), from, to) && trace == old(trace) + [tree]
                && to in tree && tree[to] == old(tree)[from] && from !in tree
                && (forall q :: q != from && q != to ==> (q in tree <==> q in old(tree)) && (q in tree ==> tree[q] == old(tree)[q]))
      ensures !ok ==> tree == old(tree) && trace == old(trace)
      ensures faults == old(faults) ==>
                (ok <==> from in old(tree) && to !in old(tree) && IsDirectory(old(tree), Parent(to)))
    {
      var refused := Refuse();
      if refused || from !in tree || to in tree || !IsDirectory(tree, Parent(to)) {
        return false;
      }
      tree := Moved(tree, from, to);
      trace := trace + [tree];
      ok := true;
    }

    method Unlink(p: Path) returns (ok: bool)
      requires Valid()
      modifies this
      ensures Valid() && faults >= old(faults)
      ensures ok ==> p in old(tree) && !old(tree)[p].Dir? && tree == old(tree) - {p} && trace == old(trace) + [tree]
      ensures !ok ==> tree == old(tree) && trace == old(trace)
      ensures faults == old(faults) ==> (ok <==> p in old(tree) && !old(tree)[p].Dir?)
    {
      var refused := Refuse();
      if refused || p !in tree || tree[p].Dir? {
        return false;
      }
      tree := tree - {p};
      trace := trace + [tree];
      ok := true;
    }

    /** `unlinkat` with `AT_REMOVEDIR`: only an empty directory goes away. */
    method RemoveDirectory(p: Path) returns (ok: bool)
      requires Valid()
      modifies this
      ensures Valid() && faults >= old(faults)
      ensures ok ==> p in old(tree) && old(tree)[p].Dir? && tree == old(tree) - {p} && trace == old(trace) + [tree]
      ensures !ok ==> tree == old(tree) && trace == old(trace)
      ensures faults == old(faults) ==> (ok <==> p in old(tree) && old(tree)[p].Dir? && IsEmpty(old(tree), p))
    {
      var refused := Refuse();
      if refused || p !in tree || !tree[p].Dir? || !IsEmpty(tree, p) {
        return false;
      }
      tree := tree - {p};
      trace := trace + [tree];
      ok := true;
    }
  }

  predicate IsEmpty(t: Tree, p: Path) {
    forall q {:trigger Parent(q)} | q in t && q != [] :: Parent(q) != p
  }

  function Moved(t: Tree, from: Path, to: Path): Tree
    requires from in t
  {
    (t - {from})[to := t[from]]
  }
}
