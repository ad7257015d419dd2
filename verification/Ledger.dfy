/**
  The bookkeeping of the apply transaction, as facts about values: which tree an action log undoes
  to, where every starting node is at any moment, and how single tree operations keep both.
 */
module Ledger {
  import opened PathCodec
  import opened HostTree

  function Ascii(s: string): Bytes {
    seq(|s|, i requires 0 <= i < |s| => (s[i] as int) % 128)
  }

  const ROLLBACK_PREFIX: Name := Ascii(".sandbox-guard-rollback-")
  const APPLY_PREFIX: Name := Ascii(".sandbox-guard-apply-")

  function Leaf(p: Path): Name
    requires p != []
  {
    p[|p| - 1]
  }

  /** A hidden rollback name in the directory of `p`. */
  predicate IsSlotOf(q: Path, p: Path) {
    p != [] && q != [] && Parent(q) == Parent(p) && ROLLBACK_PREFIX <= Leaf(q)
  }

  predicate IsTempPath(q: Path) {
    q != [] && APPLY_PREFIX <= Leaf(q)
  }

  /** One entry of the action log. `installed` is the inode put at `leaf`. */
  datatype Action = Action(leaf: Path, backup: Option<Path>, installed: Option<nat>)

  // ---------------------------------------------------------------------------------------------
  // Nothing is lost
  // ---------------------------------------------------------------------------------------------

  /** `at` says where every node of `start` is in `t`: at its own path or in a rollback slot beside
      it. Whatever else is in `t` has an inode that did not exist in `start`. */
  ghost predicate Tracks(start: Tree, t: Tree, at: map<Path, Path>) {
    && at.Keys == start.Keys
    && (forall p :: p in at ==> at[p] in t && t[at[p]] == start[p])
    && (forall p :: p in at ==> at[p] == p || IsSlotOf(at[p], p))
    && IsInjective(at)
    && (forall q :: q in t && q !in at.Values ==> t[q].ino !in Inodes(start))
  }

  ghost predicate IsInjective(at: map<Path, Path>) {
    forall p, q :: p in at && q in at && p != q ==> at[p] != at[q]
  }

  ghost predicate Preserved(start: Tree, t: Tree) {
    exists at :: Tracks(start, t, at)
  }

  /** The trace continues `before`, and every tree since then has lost nothing. */
  ghost predicate SafeSince(start: Tree, trace: seq<Tree>, before: seq<Tree>) {
    before <= trace && forall i :: |before| <= i < |trace| ==> Preserved(start, trace[i])
  }

  lemma SafeExtend(start: Tree, trace: seq<Tree>, before: seq<Tree>, t: Tree, at: map<Path, Path>)
    requires SafeSince(start, trace, before) && Tracks(start, t, at)
    ensures SafeSince(start, trace + [t], before)
  {
    forall i | |before| <= i < |trace| + 1
      ensures Preserved(start, (trace + [t])[i])
    {
      if i < |trace| {
        assert (trace + [t])[i] == trace[i];
      }
    }
  }

  /** The paths that an inode is at. */
  function PathsOfInode(t: Tree, ino: nat): set<Path> {
    set p | p in t && t[p].ino == ino
  }

  function Image(at: map<Path, Path>, paths: set<Path>): set<Path>
    requires paths <= at.Keys
  {
    set p | p in paths :: at[p]
  }

  /** An injective renaming keeps the number of paths. */
  lemma {:induction false} RenamedPaths(at: map<Path, Path>, paths: set<Path>)
    requires IsInjective(at) && paths <= at.Keys
    ensures |Image(at, paths)| == |paths|
  {
    if paths != {} {
      var x :| x in paths;
      var rest := paths - {x};
      RenamedPaths(at, rest);
      assert Image(at, paths) == Image(at, rest) + {at[x]};
      assert at[x] !in Image(at, rest);
    }
  }

  lemma InodeMoves(start: Tree, t: Tree, at: map<Path, Path>, ino: nat)
    requires Tracks(start, t, at) && ino in Inodes(start)
    ensures PathsOfInode(start, ino) <= at.Keys && PathsOfInode(t, ino) == Image(at, PathsOfInode(start, ino))
  {
    hide IsSlotOf, IsInjective;
    var from := PathsOfInode(start, ino);
    forall q
      ensures q in PathsOfInode(t, ino) <==> q in Image(at, from)
    {
      if q in PathsOfInode(t, ino) {
        assert q in at.Values;
        var p :| p in at && at[p] == q;
        assert p in from;
      }
      if q in Image(at, from) {
        var p :| p in from && at[p] == q;
        assert p in at;
      }
    }
  }

  /** Nothing is lost and nothing is doubled: each node of the start is under its own path or under one
      rollback name beside it, and its inode is at exactly as many paths as at the start. */
  lemma PreservedExactly(start: Tree, t: Tree, p: Path)
    requires Preserved(start, t) && p in start
    ensures exists q :: q in t && t[q] == start[p] && (q == p || IsSlotOf(q, p))
    ensures |PathsOfInode(t, start[p].ino)| == |PathsOfInode(start, start[p].ino)|
  {
    hide IsSlotOf, IsInjective, PathsOfInode, Image;
    var at :| Tracks(start, t, at);
    assert p in at;
    assert at[p] in t && t[at[p]] == start[p];
    assert start[p].ino in Inodes(start);
    InodeMoves(start, t, at, start[p].ino);
    RenamedPaths(at, PathsOfInode(start, start[p].ino));
  }

  /** A node whose inode occurs once at the start occurs once at every later moment: under its own
      path or under one rollback name beside it. */
  lemma PreservedExactlyOnce(start: Tree, t: Tree, p: Path)
    requires Preserved(start, t) && p in start
    requires forall q :: q in start && start[q].ino == start[p].ino ==> q == p
    ensures exists q :: q in t && t[q] == start[p] && (q == p || IsSlotOf(q, p))
                        && forall q' :: q' in t && t[q'].ino == start[p].ino ==> q' == q
  {
    var at :| Tracks(start, t, at);
    var q := at[p];
    forall q' | q' in t && t[q'].ino == start[p].ino
      ensures q' == q
    {
      assert start[p].ino in Inodes(start);
      assert q' in at.Values;
      var p' :| p' in at && at[p'] == q';
      assert start[p'].ino == start[p].ino;
    }
  }

  lemma TracksInodes(start: Tree, t: Tree, at: map<Path, Path>)
    requires Tracks(start, t, at)
    ensures Inodes(start) <= Inodes(t)
  {
    forall i | i in Inodes(start)
      ensures i in Inodes(t)
    {
      var p :| p in start && start[p].ino == i;
      assert at[p] in t;
    }
  }

  lemma FreshIsUntracked(start: Tree, t: Tree, at: map<Path, Path>, q: Path)
    requires Tracks(start, t, at) && q in t && t[q].ino !in Inodes(start)
    ensures q !in at.Values
  {
    forall p | p in at
      ensures at[p] != q
    {
      assert start[p].ino in Inodes(start);
    }
  }

  lemma TracksExtend(start: Tree, t: Tree, at: map<Path, Path>, q: Path, n: Node)
    requires Tracks(start, t, at)
    requires n.ino !in Inodes(start)
    requires q in t ==> t[q].ino !in Inodes(start)
    ensures Tracks(start, t[q := n], at)
  {
    if q in t { FreshIsUntracked(start, t, at, q); }
    assert forall p :: p in at ==> at[p] in t && at[p] in at.Values;
  }

  lemma TracksDrop(start: Tree, t: Tree, at: map<Path, Path>, q: Path)
    requires Tracks(start, t, at) && q in t && t[q].ino !in Inodes(start)
    ensures Tracks(start, t - {q}, at)
  {
    FreshIsUntracked(start, t, at, q);
    assert forall p :: p in at ==> at[p] in at.Values;
  }

  lemma TracksMoveFresh(start: Tree, t: Tree, at: map<Path, Path>, from: Path, to: Path)
    requires Tracks(start, t, at) && from in t && to !in t && t[from].ino !in Inodes(start)
    ensures Tracks(start, Moved(t, from, to), at)
  {
    TracksDrop(start, t, at, from);
    TracksExtend(start, t - {from}, at, to, t[from]);
  }

  lemma TracksMove(start: Tree, t: Tree, at: map<Path, Path>, p: Path, to: Path)
    requires Tracks(start, t, at) && p in at && to !in t
    requires to == p || IsSlotOf(to, p)
    ensures Tracks(start, Moved(t, at[p], to), at[p := to])
  {
    hide IsSlotOf, IsInjective;
    var t', at' := Moved(t, at[p], to), at[p := to];
    forall q | q in at'
      ensures at'[q] in t' && t'[at'[q]] == start[q] && (at'[q] == q || IsSlotOf(at'[q], q))
    {
      if q != p { OthersElsewhere(at, p, q); }
    }
    MovedIsInjective(start, t, at, p, to);
    forall q | q in t' && q !in at'.Values
      ensures t'[q].ino !in Inodes(start)
    {
      MovedRestIsFresh(start, t, at, p, to, q);
    }
  }

  lemma OthersElsewhere(at: map<Path, Path>, p: Path, q: Path)
    requires IsInjective(at) && p in at && q in at && p != q
    ensures at[p] != at[q]
  {
  }

  lemma MovedRestIsFresh(start: Tree, t: Tree, at: map<Path, Path>, p: Path, to: Path, q: Path)
    requires Tracks(start, t, at) && p in at
    requires q in Moved(t, at[p], to) && q !in at[p := to].Values
    ensures q in t && t[q].ino !in Inodes(start) && Moved(t, at[p], to)[q] == t[q]
  {
    assert at[p := to][p] == to;
    forall p' | p' in at
      ensures at[p'] != q
    {
      assert p' != p ==> at[p := to][p'] == at[p'] && at[p'] in at[p := to].Values;
    }
  }

  lemma MovedIsInjective(start: Tree, t: Tree, at: map<Path, Path>, p: Path, to: Path)
    requires Tracks(start, t, at) && p in at && to !in t
    ensures IsInjective(at[p := to])
  {
    assert forall q :: q in at ==> at[q] in t;
  }

  // ---------------------------------------------------------------------------------------------
  // The action log undoes to a base
  // ---------------------------------------------------------------------------------------------

  ghost predicate CanUndo(t: Tree, a: Action) {
    && (a.installed.Some? ==> a.leaf in t && t[a.leaf].File? && t[a.leaf].ino == a.installed.value)
    && (a.installed.None? ==> a.leaf !in t)
    && (a.backup.Some? ==> a.backup.value in t && a.backup.value != a.leaf && t[a.backup.value].File?
                           && a.leaf != [] && IsSlotOf(a.backup.value, a.leaf))
  }

  function Undone(t: Tree, a: Action): Tree {
    var t' := if a.installed.Some? then t - {a.leaf} else t;
    if a.backup.Some? && a.backup.value in t' then Moved(t', a.backup.value, a.leaf) else t'
  }

  /** Undoing the log, last action first, is possible at every step and ends in `base`. */
  ghost predicate Reverts(t: Tree, actions: seq<Action>, base: Tree)
    decreases |actions|
  {
    if actions == [] then t == base
    else
      var a := actions[|actions| - 1];
      CanUndo(t, a) && Reverts(Undone(t, a), actions[..|actions| - 1], base)
  }

  ghost predicate AvoidsLeaves(actions: seq<Action>, q: Path) {
    forall i :: 0 <= i < |actions| ==> actions[i].leaf != q
  }

  /** An entry that no action touches can be added on both sides. */
  lemma {:induction false} RevertsExtend(t: Tree, actions: seq<Action>, base: Tree, q: Path, n: Node)
    requires Reverts(t, actions, base) && q !in t && AvoidsLeaves(actions, q)
    ensures Reverts(t[q := n], actions, base[q := n])
    decreases |actions|
  {
    if actions != [] {
      var a, front := actions[|actions| - 1], actions[..|actions| - 1];
      assert Undone(t[q := n], a) == Undone(t, a)[q := n];
      RevertsExtend(Undone(t, a), front, base, q, n);
    }
  }

  lemma RevertsPush(t: Tree, actions: seq<Action>, base: Tree, t': Tree, a: Action)
    requires Reverts(t, actions, base)
    requires CanUndo(t', a) && Undone(t', a) == t
    ensures Reverts(t', actions + [a], base)
  {
    assert (actions + [a])[..|actions|] == actions;
  }

  /** Backups that are in use. */
  ghost function Slots(actions: seq<Action>): set<Path> {
    set i | 0 <= i < |actions| && actions[i].backup.Some? :: actions[i].backup.value
  }

  /** What every entry of the log satisfies: it is about a changed path, its slot is a rollback
      name that was free at the start, and what it installed did not exist at the start. */
  ghost predicate IsGoodAction(start: Tree, leaves: set<Path>, a: Action) {
    && a.leaf in leaves
    && (a.backup.Some? ==>
          && a.backup.value !in leaves && a.backup.value !in start
          && IsSlotOf(a.backup.value, a.leaf))
    && (a.installed.Some? ==> a.installed.value !in Inodes(start))
  }

  ghost predicate GoodActions(start: Tree, leaves: set<Path>, actions: seq<Action>) {
    && (forall i :: 0 <= i < |actions| ==> IsGoodAction(start, leaves, actions[i]))
    && (forall i, j :: 0 <= i < j < |actions| && actions[i].backup.Some? ==> actions[i].backup != actions[j].backup)
  }

  /** A node that is not at its own path is in the slot of an action on that path. */
  ghost predicate Linked(at: map<Path, Path>, actions: seq<Action>) {
    forall p :: p in at && at[p] != p ==>
      exists i :: 0 <= i < |actions| && actions[i].leaf == p && actions[i].backup == Some(at[p])
  }

  /** `base` is the starting tree plus the directories made by the run, each one empty once the
      later ones are gone. */
  ghost predicate IsBase(start: Tree, base: Tree, created: seq<Path>)
    decreases |created|
  {
    if created == [] then base == start
    else
      var p := created[|created| - 1];
      && p in base && base[p].Dir? && base[p].ino !in Inodes(start) && IsEmpty(base, p)
      && IsBase(start, base - {p}, created[..|created| - 1])
  }

  /** The state of a running transaction; `clean` is the host tree without a stray temporary. */
  datatype State = State(start: Tree, base: Tree, clean: Tree, at: map<Path, Path>)

  ghost predicate Sound(g: State, actions: seq<Action>, created: seq<Path>, leaves: set<Path>) {
    && Tracks(g.start, g.clean, g.at)
    && Linked(g.at, actions)
    && GoodActions(g.start, leaves, actions)
    && Reverts(g.clean, actions, g.base)
    && IsBase(g.start, g.base, created)
    && (forall p :: p in created ==> p !in leaves)
    && WellFormed(g.base)
    && (forall q :: q in g.clean && g.clean[q].Dir? ==> q in g.base && g.base[q].Dir?)
    && (forall q :: q in Slots(actions) ==> q in g.clean && g.clean[q].File?)
  }

  /** The host tree is the clean tree, possibly with one stray temporary file. */
  ghost predicate Shows(tree: Tree, g: State, temp: Option<Path>) {
    match temp
    case None => tree == g.clean
    case Some(q) =>
      && q !in g.clean && q in tree && IsTempPath(q) && tree[q].File?
      && tree[q].ino !in Inodes(g.start) && tree == g.clean[q := tree[q]]
  }

  lemma ShowsTracks(tree: Tree, g: State, temp: Option<Path>)
    requires Tracks(g.start, g.clean, g.at) && Shows(tree, g, temp)
    ensures Tracks(g.start, tree, g.at)
  {
    if temp.Some? {
      TracksExtend(g.start, g.clean, g.at, temp.value, tree[temp.value]);
    }
  }

  lemma SoundAtStart(start: Tree, leaves: set<Path>)
    requires WellFormed(start)
    ensures Sound(State(start, start, start, map p | p in start :: p), [], [], leaves)
  {
    var at := map p | p in start :: p;
    forall q | q in start
      ensures q in at.Values
    {
      assert at[q] == q;
    }
  }

  /** A directory was made where nothing was and no change is. */
  lemma SoundMakeDirectory(g: State, actions: seq<Action>, created: seq<Path>, leaves: set<Path>, p: Path, n: Node)
    requires Sound(g, actions, created, leaves)
    requires p != [] && p !in g.clean && p !in leaves && n.Dir? && n.ino !in Inodes(g.clean)
    requires IsDirectory(g.clean, Parent(p))
    ensures Sound(State(g.start, g.base[p := n], g.clean[p := n], g.at), actions, created + [p], leaves)
  {
    hide Tracks, Linked, Reverts, IsBase, WellFormed, Inodes;
    TracksInodes(g.start, g.clean, g.at);
    TracksExtend(g.start, g.clean, g.at, p, n);
    RevertsExtend(g.clean, actions, g.base, p, n);
    if p in g.base {
      CreatedStays(g.clean, actions, g.base, p);
    }
    BaseExtend(g.start, g.base, created, p, n);
  }

  lemma BaseExtend(start: Tree, base: Tree, created: seq<Path>, p: Path, n: Node)
    requires IsBase(start, base, created) && WellFormed(base)
    requires p != [] && p !in base && n.Dir? && n.ino !in Inodes(start) && IsDirectory(base, Parent(p))
    ensures IsBase(start, base[p := n], created + [p]) && WellFormed(base[p := n])
  {
    assert base[p := n] - {p} == base;
    assert (created + [p])[..|created|] == created;
  }

  /** An entry of the base that no action touches is in the current tree. */
  lemma {:induction false} CreatedStays(t: Tree, actions: seq<Action>, base: Tree, q: Path)
    requires Reverts(t, actions, base) && AvoidsLeaves(actions, q) && q in base
    ensures q in t && t[q] == base[q]
    decreases |actions|
  {
    if actions != [] {
      var a := actions[|actions| - 1];
      CreatedStays(Undone(t, a), actions[..|actions| - 1], base, q);
    }
  }

  lemma {:induction false} BaseMember(start: Tree, base: Tree, created: seq<Path>, p: Path)
    requires IsBase(start, base, created) && p in created
    ensures p in base && base[p].Dir? && base[p].ino !in Inodes(start)
    decreases |created|
  {
    var last := created[|created| - 1];
    if p != last {
      BaseMember(start, base - {last}, created[..|created| - 1], p);
    }
  }

  /** A directory made by the run is in place and is none of the nodes of the start. */
  lemma CreatedIsFresh(g: State, actions: seq<Action>, created: seq<Path>, leaves: set<Path>, p: Path)
    requires Sound(g, actions, created, leaves) && p in created
    ensures p !in leaves && p !in Slots(actions)
    ensures p in g.clean && g.clean[p].Dir? && g.clean[p].ino !in Inodes(g.start)
  {
    hide Tracks, Linked;
    BaseMember(g.start, g.base, created, p);
    CreatedStays(g.clean, actions, g.base, p);
  }

  lemma SlotsPush(actions: seq<Action>, a: Action)
    ensures Slots(actions + [a]) == Slots(actions) + (if a.backup.Some? then {a.backup.value} else {})
  {
    var r := actions + [a];
    forall q
      ensures q in Slots(r) <==> q in Slots(actions) || (a.backup == Some(q))
    {
      if q in Slots(actions) {
        var i :| 0 <= i < |actions| && actions[i].backup.Some? && actions[i].backup.value == q;
        assert r[i] == actions[i];
      }
      if a.backup == Some(q) {
        assert r[|actions|] == a;
      }
    }
  }

  /** Only the node that started at a changed path can be at that path. */
  lemma LeafHoldsOwn(g: State, actions: seq<Action>, created: seq<Path>, leaves: set<Path>, leaf: Path)
    requires Sound(g, actions, created, leaves) && leaf in leaves
    ensures forall p :: p in g.at && g.at[p] == leaf ==> p == leaf
  {
  }

  lemma SlotIsNew(g: State, actions: seq<Action>, created: seq<Path>, leaves: set<Path>, slot: Path)
    requires Sound(g, actions, created, leaves) && slot !in g.clean && slot !in leaves
    ensures slot !in g.start && slot !in Slots(actions)
  {
    assert forall p :: p in g.at ==> g.at[p] in g.clean;
  }

  function MovedAside(g: State, leaf: Path, slot: Path): State
    requires leaf in g.clean
  {
    State(g.start, g.base, Moved(g.clean, leaf, slot),
          if leaf in g.at && g.at[leaf] == leaf then g.at[leaf := slot] else g.at)
  }

  lemma TracksMovedAside(g: State, actions: seq<Action>, created: seq<Path>, leaves: set<Path>, leaf: Path, slot: Path)
    requires Sound(g, actions, created, leaves)
    requires leaf in leaves && leaf in g.clean && slot !in g.clean && IsSlotOf(slot, leaf)
    ensures Tracks(g.start, MovedAside(g, leaf, slot).clean, MovedAside(g, leaf, slot).at)
  {
    if leaf in g.at && g.at[leaf] == leaf {
      TracksMove(g.start, g.clean, g.at, leaf, slot);
    } else {
      LeafHoldsOwn(g, actions, created, leaves, leaf);
      assert leaf !in g.at.Values;
      TracksMoveFresh(g.start, g.clean, g.at, leaf, slot);
    }
  }

  lemma LinkedPush(at: map<Path, Path>, actions: seq<Action>, a: Action, at': map<Path, Path>)
    requires Linked(at, actions)
    requires at' == at || (a.backup.Some? && a.leaf in at && at' == at[a.leaf := a.backup.value])
    ensures Linked(at', actions + [a])
  {
    var r := actions + [a];
    forall p | p in at' && at'[p] != p
      ensures exists i :: 0 <= i < |r| && r[i].leaf == p && r[i].backup == Some(at'[p])
    {
      if at' != at && p == a.leaf {
        assert r[|actions|] == a;
      } else {
        assert at'[p] == at[p];
        var i :| 0 <= i < |actions| && actions[i].leaf == p && actions[i].backup == Some(at[p]);
        assert r[i] == actions[i];
      }
    }
  }

  lemma GoodActionsPush(start: Tree, leaves: set<Path>, actions: seq<Action>, a: Action)
    requires GoodActions(start, leaves, actions) && IsGoodAction(start, leaves, a)
    requires a.backup.Some? ==> a.backup.value !in Slots(actions)
    ensures GoodActions(start, leaves, actions + [a])
  {
    var r := actions + [a];
    forall i, j | 0 <= i < j < |r| && r[i].backup.Some?
      ensures r[i].backup != r[j].backup
    {
      assert actions[i].backup.value in Slots(actions);
    }
  }

  /** The starting file was moved into its slot and the move was logged. */
  lemma SoundMoveAside(g: State, actions: seq<Action>, created: seq<Path>, leaves: set<Path>, leaf: Path, slot: Path)
    requires Sound(g, actions, created, leaves)
    requires leaf in leaves && leaf in g.clean && g.clean[leaf].File?
    requires slot !in g.clean && slot !in leaves && IsSlotOf(slot, leaf)
    ensures Sound(MovedAside(g, leaf, slot), actions + [Action(leaf, Some(slot), None)], created, leaves)
  {
    var a, g' := Action(leaf, Some(slot), None), MovedAside(g, leaf, slot);
    TracksMovedAside(g, actions, created, leaves, leaf, slot);
    SlotIsNew(g, actions, created, leaves, slot);
    LinkedPush(g.at, actions, a, g'.at);
    GoodActionsPush(g.start, leaves, actions, a);
    assert Undone(g'.clean, a) == g.clean;
    RevertsPush(g.clean, actions, g.base, g'.clean, a);
    SlotsPush(actions, a);
    assert leaf !in Slots(actions);
  }

  /** A new file was put at a free changed path and logged as an addition. */
  lemma SoundAdd(g: State, actions: seq<Action>, created: seq<Path>, leaves: set<Path>, leaf: Path, n: Node)
    requires Sound(g, actions, created, leaves)
    requires leaf in leaves && leaf !in g.clean && n.File? && n.ino !in Inodes(g.start)
    ensures Sound(g.(clean := g.clean[leaf := n]), actions + [Action(leaf, None, Some(n.ino))], created, leaves)
  {
    var a := Action(leaf, None, Some(n.ino));
    TracksExtend(g.start, g.clean, g.at, leaf, n);
    LinkedPush(g.at, actions, a, g.at);
    GoodActionsPush(g.start, leaves, actions, a);
    assert Undone(g.clean[leaf := n], a) == g.clean;
    RevertsPush(g.clean, actions, g.base, g.clean[leaf := n], a);
    SlotsPush(actions, a);
  }

  /** The replacement was put at the path whose starting file is in the last action's slot. */
  lemma SoundInstall(g: State, actions: seq<Action>, created: seq<Path>, leaves: set<Path>, leaf: Path, slot: Path, n: Node)
    requires Sound(g, actions + [Action(leaf, Some(slot), None)], created, leaves)
    requires leaf !in g.clean && n.File? && n.ino !in Inodes(g.start)
    ensures Sound(g.(clean := g.clean[leaf := n]), actions + [Action(leaf, Some(slot), Some(n.ino))], created, leaves)
  {
    var a, a' := Action(leaf, Some(slot), None), Action(leaf, Some(slot), Some(n.ino));
    TracksExtend(g.start, g.clean, g.at, leaf, n);
    LinkedReplaced(g.at, actions, a, a');
    GoodActionsReplaced(g.start, leaves, actions, a, a');
    assert (actions + [a])[..|actions|] == actions && (actions + [a])[|actions|] == a;
    assert Undone(g.clean[leaf := n], a') == Undone(g.clean, a);
    RevertsPush(Undone(g.clean, a), actions, g.base, g.clean[leaf := n], a');
    SlotsPush(actions, a);
    SlotsPush(actions, a');
  }

  /** The log entry is completed by what was installed. */
  lemma LinkedReplaced(at: map<Path, Path>, actions: seq<Action>, a: Action, a': Action)
    requires Linked(at, actions + [a]) && a'.leaf == a.leaf && a'.backup == a.backup
    ensures Linked(at, actions + [a'])
  {
    var r, r' := actions + [a], actions + [a'];
    forall p | p in at && at[p] != p
      ensures exists i :: 0 <= i < |r'| && r'[i].leaf == p && r'[i].backup == Some(at[p])
    {
      var i :| 0 <= i < |r| && r[i].leaf == p && r[i].backup == Some(at[p]);
      assert r'[i].leaf == p;
    }
  }

  lemma GoodActionsReplaced(start: Tree, leaves: set<Path>, actions: seq<Action>, a: Action, a': Action)
    requires GoodActions(start, leaves, actions + [a]) && a'.leaf == a.leaf && a'.backup == a.backup
    requires a'.installed.Some? ==> a'.installed.value !in Inodes(start)
    ensures GoodActions(start, leaves, actions + [a'])
  {
    var r, r' := actions + [a], actions + [a'];
    forall i | 0 <= i < |r'|
      ensures r'[i].backup == r[i].backup && IsGoodAction(start, leaves, r'[i])
    {
      assert IsGoodAction(start, leaves, r[i]);
    }
  }
}
