/**
  Reading the newest persisted audits in bounded memory: two passes over an unordered directory.
  The first pass keeps per-second counts of a window; the second pass reads the files of the window.
 */
module AuditTail {
  import opened PathCodec
  import opened Sorting

  const NANOS: int := 1_000_000_000
  const MAX_TAIL_CANDIDATES: nat := 4096
  const MAX_TAIL_READ_BYTES: nat := 256 * 1024 * 1024

  /** Creation time in nanoseconds; `summary` stands for the rest of the summary fields. */
  datatype Audit = Audit(createdAt: int, runId: nat, summary: nat)

  /** A private file with an audit name: the second and run of its name, its size, and what reading and
      parsing it yields. */
  datatype AuditFile = AuditFile(second: int, runId: nat, bytes: nat, content: Option<Audit>)

  /** A directory entry. A foreign one has any other name, is not a private file, or is too large. */
  datatype Entry = Foreign | Named(file: AuditFile)

  predicate AllNamed(entries: seq<Entry>) {
    forall i :: 0 <= i < |entries| ==> entries[i].Named?
  }

  function FilesOf(entries: seq<Entry>): seq<AuditFile> {
    if entries == [] then []
    else
      var front, last := FilesOf(entries[..|entries| - 1]), entries[|entries| - 1];
      if last.Named? then front + [last.file] else front
  }

  lemma {:induction false} FilesAreNamed(entries: seq<Entry>)
    requires AllNamed(entries)
    ensures |FilesOf(entries)| == |entries|
    ensures forall i :: 0 <= i < |entries| ==> FilesOf(entries)[i] == entries[i].file
  {
    if entries != [] {
      FilesAreNamed(entries[..|entries| - 1]);
    }
  }

  lemma {:induction false} FilesCount(entries: seq<Entry>, f: AuditFile)
    ensures multiset(FilesOf(entries))[f] == multiset(entries)[Named(f)]
  {
    if entries != [] {
      FilesCount(entries[..|entries| - 1], f);
      assert entries == entries[..|entries| - 1] + [entries[|entries| - 1]];
    }
  }

  /** Another listing of the same directory has the same files. */
  lemma FilesOfRescan(entries: seq<Entry>, reentries: seq<Entry>)
    requires multiset(entries) == multiset(reentries)
    ensures multiset(FilesOf(entries)) == multiset(FilesOf(reentries)) && (AllNamed(entries) ==> AllNamed(reentries))
  {
    forall f: AuditFile
      ensures multiset(FilesOf(entries))[f] == multiset(FilesOf(reentries))[f]
    {
      FilesCount(entries, f);
      FilesCount(reentries, f);
    }
    MembersOfPermutation(entries, reentries);
    if AllNamed(entries) {
      forall i | 0 <= i < |reentries|
        ensures reentries[i].Named?
      {
        assert reentries[i] in reentries;
      }
    }
  }

  function SecondOf(createdAt: int): int {
    createdAt / NANOS
  }

  /** The identity check of a read: the name is made from the manifest inside. */
  predicate IsFaithful(f: AuditFile) {
    f.content.Some? && SecondOf(f.content.value.createdAt) == f.second && f.content.value.runId == f.runId
  }

  /** Names in a directory are unique. */
  ghost predicate DistinctNames(scan: seq<AuditFile>) {
    forall i, j :: 0 <= i < j < |scan| ==> scan[i].second != scan[j].second || scan[i].runId != scan[j].runId
  }

  predicate AllFaithful(scan: seq<AuditFile>) {
    forall i :: 0 <= i < |scan| ==> IsFaithful(scan[i])
  }

  /** The audit of an entry. An entry that cannot be read stands for the least audit its name allows,
      so that "all audits" makes sense for every directory. */
  function AuditOf(f: AuditFile): (a: Audit)
    ensures SecondOf(a.createdAt) == f.second && a.runId == f.runId
    ensures IsFaithful(f) ==> f.content == Some(a)
  {
    if IsFaithful(f) then f.content.value else Audit(f.second * NANOS, f.runId, 0)
  }

  /** Newest first; ties by run identifier, greatest first. */
  predicate NewerFirst(a: Audit, b: Audit) {
    b.createdAt < a.createdAt || (b.createdAt == a.createdAt && b.runId <= a.runId)
  }

  lemma NewerFirstIsPreorder()
    ensures IsPreorder(NewerFirst)
  {
  }

  // ---------------------------------------------------------------------------------------------
  // Counting
  // ---------------------------------------------------------------------------------------------

  function CountAt(scan: seq<AuditFile>, second: int): nat {
    if scan == [] then 0
    else CountAt(scan[..|scan| - 1], second) + (if scan[|scan| - 1].second == second then 1 else 0)
  }

  function CountIn(scan: seq<AuditFile>, seconds: set<int>): nat {
    if scan == [] then 0
    else CountIn(scan[..|scan| - 1], seconds) + (if scan[|scan| - 1].second in seconds then 1 else 0)
  }

  /** Files of the given second or newer. */
  function CountFrom(scan: seq<AuditFile>, cutoff: int): nat {
    if scan == [] then 0
    else CountFrom(scan[..|scan| - 1], cutoff) + (if scan[|scan| - 1].second >= cutoff then 1 else 0)
  }

  lemma CountPush(scan: seq<AuditFile>, f: AuditFile)
    ensures forall s :: CountAt(scan + [f], s) == CountAt(scan, s) + (if f.second == s then 1 else 0)
    ensures forall s :: CountIn(scan + [f], s) == CountIn(scan, s) + (if f.second in s then 1 else 0)
  {
    assert (scan + [f])[..|scan|] == scan;
  }

  lemma {:induction false} CountSplit(scan: seq<AuditFile>, seconds: set<int>, s: int)
    requires s in seconds
    ensures CountIn(scan, seconds) == CountIn(scan, seconds - {s}) + CountAt(scan, s)
  {
    if scan != [] {
      CountSplit(scan[..|scan| - 1], seconds, s);
    }
  }

  lemma {:induction false} CountInNothing(scan: seq<AuditFile>)
    ensures CountIn(scan, {}) == 0
  {
    if scan != [] {
      CountInNothing(scan[..|scan| - 1]);
    }
  }

  lemma {:induction false} CountInGrows(scan: seq<AuditFile>, seconds: set<int>, s: int)
    requires s !in seconds && CountAt(scan, s) == 0
    ensures CountIn(scan, seconds + {s}) == CountIn(scan, seconds)
  {
    if scan != [] {
      CountInGrows(scan[..|scan| - 1], seconds, s);
    }
  }

  lemma {:induction false} CountAtPositive(scan: seq<AuditFile>, s: int)
    ensures CountAt(scan, s) > 0 <==> exists f :: f in scan && f.second == s
  {
    if scan != [] {
      CountAtPositive(scan[..|scan| - 1], s);
      assert scan == scan[..|scan| - 1] + [scan[|scan| - 1]];
    }
  }

  lemma {:induction false} CountFromIs(scan: seq<AuditFile>, seconds: set<int>, cutoff: int)
    requires forall f :: f in scan ==> (f.second in seconds <==> f.second >= cutoff)
    ensures CountFrom(scan, cutoff) == CountIn(scan, seconds)
  {
    if scan != [] {
      assert scan[|scan| - 1] in scan;
      CountFromIs(scan[..|scan| - 1], seconds, cutoff);
    }
  }

  lemma HasMember(s: set<int>)
    requires |s| > 0
    ensures exists x :: x in s
  {
    if forall x :: x !in s {
      assert false;
    }
  }

  /** Each distinct second that is counted accounts for at least one file. */
  lemma {:induction false} SecondsAtMostFiles(scan: seq<AuditFile>, seconds: set<int>)
    requires forall s :: s in seconds ==> CountAt(scan, s) > 0
    ensures |seconds| <= CountIn(scan, seconds)
  {
    if |seconds| > 0 {
      HasMember(seconds);
      var s :| s in seconds;
      SecondsAtMostFiles(scan, seconds - {s});
      CountSplit(scan, seconds, s);
    }
  }

  // ---------------------------------------------------------------------------------------------
  // First pass: the window of seconds
  // ---------------------------------------------------------------------------------------------

  lemma {:induction false} LeastExists(s: set<int>)
    requires |s| > 0
    ensures exists k :: k in s && forall j :: j in s ==> k <= j
  {
    HasMember(s);
    var x :| x in s;
    var rest := s - {x};
    if |rest| > 0 {
      LeastExists(rest);
      var k :| k in rest && forall j :: j in rest ==> k <= j;
      var least := if x < k then x else k;
      forall j | j in s
        ensures least <= j
      {
        assert j == x || j in rest;
      }
      assert least in s;
    } else {
      forall j | j in s
        ensures x <= j
      {
        assert j == x || j in rest;
      }
    }
  }

  /** `first_key_value` of an ordered map. */
  function FirstKey(m: map<int, nat>): (k: int)
    requires |m| > 0
    ensures k in m && forall j :: j in m ==> k <= j
  {
    assert |m.Keys| > 0;
    LeastExists(m.Keys);
    var k :| k in m.Keys && forall j :: j in m.Keys ==> k <= j;
    k
  }

  /** The window is exact: kept seconds are counted exactly, and a file outside the window is older
      than everything in it while the window alone already covers the limit. */
  ghost predicate IsExact(scan: seq<AuditFile>, m: map<int, nat>, retained: nat, limit: nat) {
    && (forall s :: s in m ==> m[s] == CountAt(scan, s) && m[s] > 0)
    && retained == CountIn(scan, m.Keys)
    && (forall f :: f in scan && f.second !in m ==> retained >= limit && forall s :: s in m ==> f.second < s)
  }

  /** Fewer than `limit` files are strictly newer than the oldest kept second. */
  ghost predicate IsTight(m: map<int, nat>, retained: nat, limit: nat) {
    |m| > 0 ==> retained - m[FirstKey(m)] < limit
  }

  lemma DropOldest(scan: seq<AuditFile>, m: map<int, nat>, retained: nat, limit: nat)
    requires 0 < limit && IsExact(scan, m, retained, limit) && |m| > 0 && retained - m[FirstKey(m)] >= limit
    ensures IsExact(scan, m - {FirstKey(m)}, retained - m[FirstKey(m)], limit)
    ensures |m - {FirstKey(m)}| > 0
  {
    var k := FirstKey(m);
    CountSplit(scan, m.Keys, k);
    var m' := m - {k};
    assert m'.Keys == m.Keys - {k};
    CountInNothing(scan);
    assert |m'| == 0 ==> m'.Keys == {};
  }

  /** A second below a full window; the loop throws it out again at once. */
  ghost predicate IsStale(m: map<int, nat>, retained: nat, limit: nat, second: int) {
    second !in m && |m| > 0 && retained >= limit && second < FirstKey(m)
  }

  lemma NotCountedYet(scan: seq<AuditFile>, m: map<int, nat>, retained: nat, limit: nat, second: int)
    requires 0 < limit && IsExact(scan, m, retained, limit) && second !in m && !IsStale(m, retained, limit, second)
    ensures CountAt(scan, second) == 0
    ensures forall g :: g in scan && g.second !in m ==> g.second < second
  {
    CountAtPositive(scan, second);
    CountInNothing(scan);
    assert |m| == 0 ==> m.Keys == {};
    forall g | g in scan && g.second !in m
      ensures g.second < second
    {
      assert |m| > 0;
      assert g.second < FirstKey(m);
    }
  }

  lemma AddToKept(scan: seq<AuditFile>, m: map<int, nat>, retained: nat, limit: nat, f: AuditFile)
    requires IsExact(scan, m, retained, limit) && f.second in m
    ensures IsExact(scan + [f], m[f.second := m[f.second] + 1], retained + 1, limit)
  {
    hide CountAt, CountIn;
    CountPush(scan, f);
    assert m[f.second := m[f.second] + 1].Keys == m.Keys;
  }

  lemma AddNew(scan: seq<AuditFile>, m: map<int, nat>, retained: nat, limit: nat, f: AuditFile)
    requires 0 < limit && IsExact(scan, m, retained, limit) && f.second !in m && !IsStale(m, retained, limit, f.second)
    ensures IsExact(scan + [f], m[f.second := 1], retained + 1, limit)
  {
    hide CountAt, CountIn, IsStale;
    CountPush(scan, f);
    NotCountedYet(scan, m, retained, limit, f.second);
    CountInGrows(scan, m.Keys, f.second);
    assert m[f.second := 1].Keys == m.Keys + {f.second};
  }

  /** Throwing a stale second out restores the window, which now also accounts for the new file. */
  lemma DropStale(scan: seq<AuditFile>, m: map<int, nat>, retained: nat, limit: nat, f: AuditFile)
    requires IsExact(scan, m, retained, limit) && IsStale(m, retained, limit, f.second)
    ensures FirstKey(m[f.second := 1]) == f.second && m[f.second := 1] - {f.second} == m
    ensures IsExact(scan + [f], m, retained, limit)
  {
    CountPush(scan, f);
  }

  /** One visit of the scan: count the file, then throw out what the window can do without. */
  method CountFile(ghost scan: seq<AuditFile>, f: AuditFile, m0: map<int, nat>, retained0: nat, limit: nat)
    returns (m: map<int, nat>, retained: nat)
    requires 0 < limit && IsExact(scan, m0, retained0, limit) && IsTight(m0, retained0, limit)
    ensures IsExact(scan + [f], m, retained, limit) && IsTight(m, retained, limit) && 0 < |m| <= limit
    ensures forall s :: s !in m0 && CountAt(scan, s) > 0 ==> s !in m
  {
    m := m0[f.second := (if f.second in m0 then m0[f.second] else 0) + 1];
    retained := retained0 + 1;
    ghost var stale := IsStale(m0, retained0, limit, f.second);
    if stale {
      DropStale(scan, m0, retained0, limit, f);
    } else if f.second in m0 {
      AddToKept(scan, m0, retained0, limit, f);
    } else {
      AddNew(scan, m0, retained0, limit, f);
    }
    while |m| > 0
      invariant |m| > 0
      invariant stale ==> m == m0[f.second := 1] && retained == retained0 + 1
      invariant !stale ==> IsExact(scan + [f], m, retained, limit)
      decreases stale, |m|
    {
      var oldest := FirstKey(m);
      if retained - m[oldest] < limit {
        break;
      }
      if !stale {
        DropOldest(scan + [f], m, retained, limit);
      }
      retained := retained - m[oldest];
      m := m - {oldest};
      stale := false;
    }
    KeptSecondsFit(scan + [f], m, retained, limit);
    forall s | s !in m0 && CountAt(scan, s) > 0
      ensures s !in m
    {
      DroppedStaysDropped(scan, m0, retained0, f, m, retained, limit, s);
    }
  }

  /** No more seconds are kept than files are asked for. */
  lemma KeptSecondsFit(scan: seq<AuditFile>, m: map<int, nat>, retained: nat, limit: nat)
    requires 0 < limit && IsExact(scan, m, retained, limit) && IsTight(m, retained, limit)
    ensures |m| <= limit
  {
    if |m| > 0 {
      CountSplit(scan, m.Keys, FirstKey(m));
      SecondsAtMostFiles(scan, m.Keys - {FirstKey(m)});
    }
  }

  /** Files of kept seconds that are newer than `second` are files from the next second on. */
  lemma {:induction false} CountInBelowFrom(scan: seq<AuditFile>, seconds: set<int>, second: int)
    requires forall s :: s in seconds ==> s > second
    ensures CountIn(scan, seconds) <= CountFrom(scan, second + 1)
  {
    if scan != [] {
      CountInBelowFrom(scan[..|scan| - 1], seconds, second);
    }
  }

  lemma CountFromPush(scan: seq<AuditFile>, f: AuditFile, cutoff: int)
    ensures CountFrom(scan, cutoff) <= CountFrom(scan + [f], cutoff)
  {
    assert (scan + [f])[..|scan|] == scan;
  }

  /** A second that was thrown out is never kept again: at least `limit` files are newer, and a kept
      second never has as many. */
  lemma DroppedStaysDropped(scan: seq<AuditFile>, m0: map<int, nat>, retained0: nat, f: AuditFile,
                            m: map<int, nat>, retained: nat, limit: nat, second: int)
    requires 0 < limit && IsExact(scan, m0, retained0, limit) && second !in m0 && CountAt(scan, second) > 0
    requires IsExact(scan + [f], m, retained, limit) && IsTight(m, retained, limit)
    ensures second !in m
  {
    hide CountIn, CountAt, CountFrom, IsTight;
    CountAtPositive(scan, second);
    CountInBelowFrom(scan, m0.Keys, second);
    CountFromPush(scan, f, second + 1);
    if second in m {
      WindowGivesCutoff(scan + [f], m, retained, limit);
      CountFromMonotone(scan + [f], FirstKey(m) + 1, second + 1);
    }
  }

  /** The first pass. A foreign entry ends it, whatever its age. */
  method NewestSeconds(entries: seq<Entry>, limit: nat) returns (ok: bool, m: map<int, nat>, retained: nat)
    requires 0 < limit
    ensures ok <==> AllNamed(entries)
    ensures ok ==> IsExact(FilesOf(entries), m, retained, limit) && IsTight(m, retained, limit)
    ensures ok ==> (|m| > 0 <==> entries != [])
    ensures ok ==> |m| <= limit
  {
    hide IsExact, IsTight, CountAt;
    m, retained := map[], 0;
    NothingCounted(limit);
    for i := 0 to |entries|
      invariant AllNamed(entries[..i])
      invariant IsExact(FilesOf(entries[..i]), m, retained, limit) && IsTight(m, retained, limit)
      invariant (i > 0 <==> |m| > 0) && |m| <= limit
    {
      assert entries[..i + 1][..i] == entries[..i];
      if entries[i].Foreign? {
        return false, m, retained;
      }
      m, retained := CountFile(FilesOf(entries[..i]), entries[i].file, m, retained, limit);
    }
    assert entries[..|entries|] == entries;
    ok := true;
  }

  lemma NothingCounted(limit: nat)
    ensures IsExact([], map[], 0, limit) && IsTight(map[], 0, limit)
  {
    CountInNothing([]);
  }

  // ---------------------------------------------------------------------------------------------
  // Second pass: the files of the window
  // ---------------------------------------------------------------------------------------------

  /** `cutoff` is the second of some file; fewer than `limit` files are strictly newer; and at least
      `limit` files are of that second or newer, unless no file is older. */
  ghost predicate IsCutoff(scan: seq<AuditFile>, limit: nat, cutoff: int) {
    && (exists f :: f in scan && f.second == cutoff)
    && CountFrom(scan, cutoff + 1) < limit
    && (CountFrom(scan, cutoff) >= limit || forall f :: f in scan ==> f.second >= cutoff)
  }

  lemma WindowGivesCutoff(scan: seq<AuditFile>, m: map<int, nat>, retained: nat, limit: nat)
    requires IsExact(scan, m, retained, limit) && IsTight(m, retained, limit) && |m| > 0
    ensures IsCutoff(scan, limit, FirstKey(m))
  {
    hide CountIn, CountAt, CountFrom;
    var c := FirstKey(m);
    CountAtPositive(scan, c);
    CountFromIs(scan, m.Keys, c);
    CountFromIs(scan, m.Keys - {c}, c + 1);
    CountSplit(scan, m.Keys, c);
  }

  function Recent(scan: seq<AuditFile>, cutoff: int): seq<AuditFile> {
    if scan == [] then []
    else
      var front := Recent(scan[..|scan| - 1], cutoff);
      if scan[|scan| - 1].second >= cutoff then front + [scan[|scan| - 1]] else front
  }

  function Older(scan: seq<AuditFile>, cutoff: int): seq<AuditFile> {
    if scan == [] then []
    else
      var front := Older(scan[..|scan| - 1], cutoff);
      if scan[|scan| - 1].second >= cutoff then front else front + [scan[|scan| - 1]]
  }

  function AuditsOf(scan: seq<AuditFile>): (audits: seq<Audit>)
    ensures |audits| == |scan|
    ensures forall i :: 0 <= i < |scan| ==> audits[i] == AuditOf(scan[i])
  {
    if scan == [] then [] else AuditsOf(scan[..|scan| - 1]) + [AuditOf(scan[|scan| - 1])]
  }

  function BytesOf(scan: seq<AuditFile>): nat {
    if scan == [] then 0 else BytesOf(scan[..|scan| - 1]) + scan[|scan| - 1].bytes
  }

  lemma BytesPush(scan: seq<AuditFile>, f: AuditFile)
    ensures BytesOf([]) == 0 && BytesOf(scan + [f]) == BytesOf(scan) + f.bytes
  {
    assert (scan + [f])[..|scan|] == scan;
  }

  function Truncated<T>(s: seq<T>, limit: nat): seq<T> {
    if |s| <= limit then s else s[..limit]
  }

  /** The specification: sort all audits, newest first, and truncate. */
  function Newest(scan: seq<AuditFile>, limit: nat): seq<Audit> {
    Truncated(Sort(AuditsOf(scan), NewerFirst), limit)
  }

  lemma {:induction false} RecentMembers(scan: seq<AuditFile>, cutoff: int)
    ensures forall f :: f in Recent(scan, cutoff) <==> f in scan && f.second >= cutoff
    ensures forall f :: f in Older(scan, cutoff) <==> f in scan && f.second < cutoff
    ensures |Recent(scan, cutoff)| == CountFrom(scan, cutoff)
  {
    if scan != [] {
      RecentMembers(scan[..|scan| - 1], cutoff);
      assert scan == scan[..|scan| - 1] + [scan[|scan| - 1]];
    }
  }

  lemma AuditsPush(scan: seq<AuditFile>, f: AuditFile)
    ensures AuditsOf(scan + [f]) == AuditsOf(scan) + [AuditOf(f)]
  {
    assert (scan + [f])[..|scan|] == scan;
  }

  lemma AuditsPushCounts(scan: seq<AuditFile>, f: AuditFile)
    ensures multiset(AuditsOf(scan + [f])) == multiset(AuditsOf(scan)) + multiset{AuditOf(f)}
  {
    AuditsPush(scan, f);
  }

  lemma {:induction false} SplitPermutes(scan: seq<AuditFile>, cutoff: int)
    ensures multiset(AuditsOf(scan)) == multiset(AuditsOf(Recent(scan, cutoff))) + multiset(AuditsOf(Older(scan, cutoff)))
  {
    hide AuditsOf, AuditOf;
    if scan == [] {
      assert AuditsOf([]) == [];
    } else {
      var front, last := scan[..|scan| - 1], scan[|scan| - 1];
      SplitPermutes(front, cutoff);
      assert scan == front + [last];
      AuditsPushCounts(front, last);
      if last.second >= cutoff {
        AuditsPushCounts(Recent(front, cutoff), last);
      } else {
        AuditsPushCounts(Older(front, cutoff), last);
      }
    }
  }

  lemma AuditsAreSeparated(scan: seq<AuditFile>)
    requires DistinctNames(scan)
    ensures Separated(AuditsOf(scan), NewerFirst)
  {
  }

  lemma RecentPrecedeOlder(scan: seq<AuditFile>, cutoff: int, x: Audit, y: Audit)
    requires x in AuditsOf(Recent(scan, cutoff)) && y in AuditsOf(Older(scan, cutoff))
    ensures NewerFirst(x, y)
  {
    var recent, older := Recent(scan, cutoff), Older(scan, cutoff);
    RecentMembers(scan, cutoff);
    var i :| 0 <= i < |recent| && AuditsOf(recent)[i] == x;
    var j :| 0 <= j < |older| && AuditsOf(older)[j] == y;
    assert recent[i] in recent && older[j] in older;
    LaterSecondIsLater(x.createdAt, y.createdAt);
  }

  lemma SortSplits(scan: seq<AuditFile>, cutoff: int)
    requires DistinctNames(scan)
    ensures Sort(AuditsOf(scan), NewerFirst) ==
              Sort(AuditsOf(Recent(scan, cutoff)), NewerFirst) + Sort(AuditsOf(Older(scan, cutoff)), NewerFirst)
  {
    hide AuditsOf, AuditOf, NewerFirst, Recent, Older, DistinctNames, Sort, IsPreorder, Separated;
    var recent, older := AuditsOf(Recent(scan, cutoff)), AuditsOf(Older(scan, cutoff));
    SplitPermutes(scan, cutoff);
    assert multiset(recent + older) == multiset(recent) + multiset(older);
    AuditsAreSeparated(scan);
    NewerFirstIsPreorder();
    SortOfPermutation(AuditsOf(scan), recent + older, NewerFirst);
    SeparatedIsPermutationInvariant(AuditsOf(scan), recent + older, NewerFirst);
    forall x, y | x in recent && y in older
      ensures NewerFirst(x, y)
    {
      RecentPrecedeOlder(scan, cutoff, x, y);
    }
    SortConcat(recent, older, NewerFirst);
  }

  /** The files at or above the cutoff are enough: sorting them and truncating gives the same as
      sorting everything and truncating. */
  lemma WindowIsEnough(scan: seq<AuditFile>, limit: nat, cutoff: int)
    requires DistinctNames(scan) && IsCutoff(scan, limit, cutoff)
    ensures Newest(Recent(scan, cutoff), limit) == Newest(scan, limit)
  {
    hide AuditOf, NewerFirst, Recent, Older, DistinctNames, CountFrom, Sort, AuditsOf, Truncated;
    SortSplits(scan, cutoff);
    RecentMembers(scan, cutoff);
    var recent, older := AuditsOf(Recent(scan, cutoff)), AuditsOf(Older(scan, cutoff));
    SortPermutes(recent, NewerFirst);
    SortPermutes(older, NewerFirst);
    if |recent| < limit {
      NoOlder(scan, cutoff);
    }
    TruncatedConcat(Sort(recent, NewerFirst), Sort(older, NewerFirst), limit);
  }

  lemma TruncatedConcat<T>(a: seq<T>, b: seq<T>, limit: nat)
    requires |a| >= limit || b == []
    ensures Truncated(a + b, limit) == Truncated(a, limit)
  {
  }

  lemma LaterSecondIsLater(a: int, b: int)
    requires SecondOf(a) > SecondOf(b)
    ensures a > b
  {
  }

  lemma NoOlder(scan: seq<AuditFile>, cutoff: int)
    requires forall f :: f in scan ==> f.second >= cutoff
    ensures Older(scan, cutoff) == []
  {
    RecentMembers(scan, cutoff);
    if Older(scan, cutoff) != [] {
      assert Older(scan, cutoff)[0] in Older(scan, cutoff);
    }
  }

  // The second scan may list the directory in another order.

  lemma RemoveAt(t: seq<AuditFile>, j: nat)
    requires j < |t|
    ensures forall c :: CountFrom(t, c) == CountFrom(t[..j] + t[j + 1..], c) + (if t[j].second >= c then 1 else 0)
    ensures multiset(AuditsOf(t)) == multiset(AuditsOf(t[..j] + t[j + 1..])) + multiset{AuditOf(t[j])}
  {
    hide CountFrom, AuditsOf, AuditOf;
    forall c
      ensures CountFrom(t, c) == CountFrom(t[..j] + t[j + 1..], c) + (if t[j].second >= c then 1 else 0)
    {
      RemoveCount(t, j, c);
    }
    RemoveAudit(t, j);
  }

  lemma {:induction false} RemoveCount(t: seq<AuditFile>, j: nat, c: int)
    requires j < |t|
    ensures CountFrom(t, c) == CountFrom(t[..j] + t[j + 1..], c) + (if t[j].second >= c then 1 else 0)
  {
    var t', front := t[..j] + t[j + 1..], t[..|t| - 1];
    if j == |t| - 1 {
      assert t' == front;
    } else {
      RemoveCount(front, j, c);
      assert t'[..|t'| - 1] == front[..j] + front[j + 1..];
    }
  }

  lemma {:induction false} RemoveAudit(t: seq<AuditFile>, j: nat)
    requires j < |t|
    ensures multiset(AuditsOf(t)) == multiset(AuditsOf(t[..j] + t[j + 1..])) + multiset{AuditOf(t[j])}
  {
    hide AuditOf, AuditsOf;
    var t', front, last := t[..j] + t[j + 1..], t[..|t| - 1], t[|t| - 1];
    assert t == front + [last];
    AuditsPushCounts(front, last);
    if j == |t| - 1 {
      assert t' == front;
    } else {
      RemoveAudit(front, j);
      var front' := front[..j] + front[j + 1..];
      assert t' == front' + [last];
      AuditsPushCounts(front', last);
    }
  }

  lemma {:induction false} RescanAgrees(s: seq<AuditFile>, t: seq<AuditFile>)
    requires multiset(s) == multiset(t)
    ensures forall c :: CountFrom(s, c) == CountFrom(t, c)
    ensures multiset(AuditsOf(s)) == multiset(AuditsOf(t))
  {
    assert |multiset(s)| == |s| && |multiset(t)| == |t|;
    if s != [] {
      var front, x := s[..|s| - 1], s[|s| - 1];
      MembersOfPermutation(s, t);
      assert x in t;
      var j :| 0 <= j < |t| && t[j] == x;
      RemovedPermutes(s, t, j);
      RemoveAt(t, j);
      RescanAgrees(front, t[..j] + t[j + 1..]);
    }
  }

  lemma RemovedPermutes(s: seq<AuditFile>, t: seq<AuditFile>, j: nat)
    requires multiset(s) == multiset(t) && s != [] && j < |t| && t[j] == s[|s| - 1]
    ensures multiset(s[..|s| - 1]) == multiset(t[..j] + t[j + 1..])
  {
    var x := s[|s| - 1];
    DropLast(s);
    var t' := t[..j] + t[j + 1..];
    assert t == t[..j] + ([x] + t[j + 1..]);
    assert multiset(t) == multiset(t[..j]) + (multiset{x} + multiset(t[j + 1..]));
    assert multiset(t') == multiset(t[..j]) + multiset(t[j + 1..]);
    assert multiset(t') == multiset(t) - multiset{x};
  }

  predicate SameName(a: AuditFile, b: AuditFile) {
    a.second == b.second && a.runId == b.runId
  }

  lemma RescanKeepsCutoff(s: seq<AuditFile>, t: seq<AuditFile>, limit: nat, cutoff: int)
    requires multiset(s) == multiset(t) && DistinctNames(s) && IsCutoff(s, limit, cutoff)
    ensures DistinctNames(t) && IsCutoff(t, limit, cutoff) && Newest(t, limit) == Newest(s, limit)
  {
    hide CountFrom, AuditsOf, AuditOf, NewerFirst;
    RescanAgrees(s, t);
    MembersOfPermutation(s, t);
    assert Separated(s, SameName);
    SeparatedIsPermutationInvariant(s, t, SameName);
    AuditsAreSeparated(s);
    NewerFirstIsPreorder();
    SortOfPermutation(AuditsOf(s), AuditsOf(t), NewerFirst);
  }

  // ---------------------------------------------------------------------------------------------
  // The query
  // ---------------------------------------------------------------------------------------------

  datatype TailError = UnexpectedEntry | TooManyTailCandidates | TailReadTooLarge | Unreadable
  datatype TailResult = Tail(audits: seq<Audit>) | TailFailed(error: TailError)

  /** The bounds and identity checks on the files that are read. */
  /** The first thing that stands in the way of reading these files, if anything: more than 4096 of them,
      more than 256 MiB, or one whose content does not have the run and the second of its name. */
  ghost predicate IsObstacle(files: seq<AuditFile>, error: Option<TailError>) {
    match error
    case None => |files| <= 4096 && BytesOf(files) <= 268_435_456 && forall f :: f in files ==> HoldsItsAudit(f)
    case Some(TooManyTailCandidates) => |files| > 4096
    case Some(TailReadTooLarge) => |files| <= 4096 && BytesOf(files) > 268_435_456
    case Some(Unreadable) =>
      |files| <= 4096 && BytesOf(files) <= 268_435_456 && exists f :: f in files && !HoldsItsAudit(f)
    case Some(UnexpectedEntry) => false
  }

  ghost predicate HoldsItsAudit(f: AuditFile) {
    f.content.Some? && IsNameOf(f, f.content.value)
  }

  /** The run and the second in the name of the file are those of the audit. */
  ghost predicate IsNameOf(f: AuditFile, a: Audit) {
    f.runId == a.runId && f.second * 1_000_000_000 <= a.createdAt < (f.second + 1) * 1_000_000_000
  }

  /**
    What a query must answer, on the fields alone: as many audits as asked for, or all of them; strictly
    descending by creation time and then run; each one read from a file of that name; and every file
    without an audit in the answer is older than everything in it.
   */
  ghost predicate IsAnswer(files: seq<AuditFile>, limit: nat, audits: seq<Audit>) {
    && |audits| == (if limit < |files| then limit else |files|)
    && (forall i, j :: 0 <= i < j < |audits| ==>
          audits[j].createdAt < audits[i].createdAt
          || (audits[j].createdAt == audits[i].createdAt && audits[j].runId < audits[i].runId))
    && (forall a :: a in audits ==> exists f :: f in files && f.content == Some(a) && IsNameOf(f, a))
    && (forall f, a :: f in files && a in audits && (forall b :: b in audits ==> !IsNameOf(f, b)) ==> IsOlder(f, a))
  }

  /** By its name already, or by its content. */
  ghost predicate IsOlder(f: AuditFile, a: Audit) {
    || (f.second + 1) * 1_000_000_000 <= a.createdAt
    || (f.content.Some?
        && (f.content.value.createdAt < a.createdAt
            || (f.content.value.createdAt == a.createdAt && f.content.value.runId < a.runId)))
  }

  lemma FaithfulMeans(f: AuditFile)
    ensures IsFaithful(f) <==> HoldsItsAudit(f)
  {
  }

  /** Audits of different names never tie. */
  lemma NamesSeparate(f: AuditFile, g: AuditFile)
    requires f.second != g.second || f.runId != g.runId
    ensures AuditOf(f).createdAt != AuditOf(g).createdAt || AuditOf(f).runId != AuditOf(g).runId
  {
  }

  lemma AllFaithfulMeans(files: seq<AuditFile>)
    ensures AllFaithful(files) <==> forall f :: f in files ==> HoldsItsAudit(f)
  {
    hide IsFaithful, HoldsItsAudit;
    forall f: AuditFile
      ensures IsFaithful(f) <==> HoldsItsAudit(f)
    {
      FaithfulMeans(f);
    }
    forall i | 0 <= i < |files|
      ensures files[i] in files
    {
    }
  }

  /** Sorted by the order, and strictly by the fields. */
  lemma SortedStrictly(recent: seq<AuditFile>)
    requires DistinctNames(recent)
    ensures var sorted := Sort(AuditsOf(recent), NewerFirst);
            && (forall i, j :: 0 <= i < j < |sorted| ==> StrictlyNewer(sorted[i], sorted[j]))
            && |sorted| == |recent| && forall a :: a in sorted <==> a in AuditsOf(recent)
  {
    hide AuditOf, DistinctNames, NewerFirst, StrictlyNewer, AuditsOf, Sort;
    var all := AuditsOf(recent);
    var sorted := Sort(all, NewerFirst);
    NewerFirstIsPreorder();
    SortSorts(all, NewerFirst);
    SortPermutes(all, NewerFirst);
    MembersOfPermutation(sorted, all);
    AuditsAreSeparated(recent);
    SeparatedIsPermutationInvariant(all, sorted, NewerFirst);
    forall i, j | 0 <= i < j < |sorted|
      ensures StrictlyNewer(sorted[i], sorted[j])
    {
      assert NewerFirst(sorted[i], sorted[j]) && !NewerFirst(sorted[j], sorted[i]);
      FieldsOrder(sorted[i], sorted[j]);
    }
  }

  lemma SortedAnswer(recent: seq<AuditFile>, limit: nat, audits: seq<Audit>)
    requires DistinctNames(recent) && AllFaithful(recent) && audits == Truncated(Sort(AuditsOf(recent), NewerFirst), limit)
    ensures IsAnswer(recent, limit, audits)
  {
    hide AuditOf, IsFaithful, DistinctNames, Sort, NewerFirst, IsNameOf, IsOlder;
    var all, sorted := AuditsOf(recent), Sort(AuditsOf(recent), NewerFirst);
    SortedStrictly(recent);
    forall a | a in audits
      ensures exists f :: f in recent && f.content == Some(a) && IsNameOf(f, a)
    {
      assert a in sorted && a in all;
      var k :| 0 <= k < |recent| && all[k] == a;
      FaithfulIs(recent[k]);
      assert recent[k] in recent;
    }
    forall f, a | f in recent && a in audits && (forall b :: b in audits ==> !IsNameOf(f, b))
      ensures IsOlder(f, a)
    {
      FaithfulOf(recent, f);
      assert AuditOf(f) in sorted;
      var n :| 0 <= n < |sorted| && sorted[n] == AuditOf(f);
      var i :| 0 <= i < |audits| && audits[i] == a;
      FaithfulIs(f);
      forall k | 0 <= k < |audits|
        ensures audits[k] != AuditOf(f)
      {
        assert audits[k] in audits;
      }
      assert StrictlyNewer(sorted[i], sorted[n]);
      OlderContent(f, a);
    }
  }

  lemma FaithfulOf(recent: seq<AuditFile>, f: AuditFile)
    requires AllFaithful(recent) && f in recent
    ensures IsFaithful(f) && AuditOf(f) in AuditsOf(recent)
  {
    var k :| 0 <= k < |recent| && recent[k] == f;
    assert AuditsOf(recent)[k] == AuditOf(f);
  }

  lemma OlderContent(f: AuditFile, a: Audit)
    requires f.content.Some? && StrictlyNewer(a, f.content.value)
    ensures IsOlder(f, a)
  {
  }

  ghost predicate StrictlyNewer(a: Audit, b: Audit) {
    b.createdAt < a.createdAt || (b.createdAt == a.createdAt && b.runId < a.runId)
  }

  lemma FieldsOrder(a: Audit, b: Audit)
    requires NewerFirst(a, b) && !NewerFirst(b, a)
    ensures StrictlyNewer(a, b)
  {
  }

  lemma FaithfulIs(f: AuditFile)
    requires IsFaithful(f)
    ensures f.content == Some(AuditOf(f)) && IsNameOf(f, AuditOf(f))
  {
  }

  /** What is answered from the files at or above the cutoff is the answer for the directory. */
  lemma AnswerOfAll(scan: seq<AuditFile>, limit: nat, cutoff: int, audits: seq<Audit>)
    requires IsCutoff(scan, limit, cutoff) && IsAnswer(Recent(scan, cutoff), limit, audits)
    ensures IsAnswer(scan, limit, audits)
  {
    hide CountFrom, IsOlder;
    var recent := Recent(scan, cutoff);
    RecentMembers(scan, cutoff);
    if CountFrom(scan, cutoff) < limit {
      AllAreRecent(scan, cutoff);
    }
    CountFromBounded(scan, cutoff);
    forall f, a | f in scan && a in audits && (forall b :: b in audits ==> !IsNameOf(f, b))
      ensures IsOlder(f, a)
    {
      if f !in recent {
        var g :| g in recent && g.content == Some(a) && IsNameOf(g, a);
        OlderSecond(f, g, a);
      }
    }
  }

  lemma OlderSecond(f: AuditFile, g: AuditFile, a: Audit)
    requires IsNameOf(g, a) && f.second < g.second
    ensures IsOlder(f, a)
  {
  }

  lemma {:induction false} AllAreRecent(scan: seq<AuditFile>, cutoff: int)
    requires forall f :: f in scan ==> f.second >= cutoff
    ensures Recent(scan, cutoff) == scan
  {
    if scan != [] {
      AllAreRecent(scan[..|scan| - 1], cutoff);
      assert scan == scan[..|scan| - 1] + [scan[|scan| - 1]];
      assert scan[|scan| - 1] in scan;
    }
  }

  lemma {:induction false} CountFromBounded(scan: seq<AuditFile>, cutoff: int)
    ensures CountFrom(scan, cutoff) <= |scan|
  {
    if scan != [] {
      CountFromBounded(scan[..|scan| - 1], cutoff);
    }
  }

  /** The answer does not depend on the order of the listing. */
  lemma AnswerOfRescan(s: seq<AuditFile>, t: seq<AuditFile>, limit: nat, audits: seq<Audit>)
    requires multiset(s) == multiset(t) && IsAnswer(t, limit, audits)
    ensures IsAnswer(s, limit, audits)
  {
    hide IsOlder, IsNameOf;
    MembersOfPermutation(s, t);
    assert |s| == |multiset(s)| && |t| == |multiset(t)|;
  }

  lemma {:induction false} RecentIsDistinct(scan: seq<AuditFile>, cutoff: int)
    requires DistinctNames(scan)
    ensures DistinctNames(Recent(scan, cutoff))
  {
    if scan != [] {
      var front, last := scan[..|scan| - 1], scan[|scan| - 1];
      RecentIsDistinct(front, cutoff);
      RecentMembers(front, cutoff);
      var r := Recent(front, cutoff);
      forall i | 0 <= i < |r|
        ensures r[i].second != last.second || r[i].runId != last.runId
      {
        assert r[i] in front;
      }
    }
  }

  lemma {:induction false} RecentPrefix(scan: seq<AuditFile>, cutoff: int, k: nat)
    requires k <= |scan|
    ensures |Recent(scan[..k], cutoff)| <= |Recent(scan, cutoff)|
  {
    if k < |scan| {
      RecentPrefix(scan[..|scan| - 1], cutoff, k);
      assert scan[..|scan| - 1][..k] == scan[..k];
    } else {
      assert scan[..k] == scan;
    }
  }

  method CollectRecent(entries: seq<Entry>, cutoff: int) returns (kept: seq<AuditFile>, error: Option<TailError>)
    ensures error.None? <==> AllNamed(entries) && |Recent(FilesOf(entries), cutoff)| <= MAX_TAIL_CANDIDATES
    ensures error.None? ==> kept == Recent(FilesOf(entries), cutoff)
    ensures error.Some? && AllNamed(entries) ==> error.value == TooManyTailCandidates
  {
    hide Recent;
    kept := [];
    EmptyIsRecent(cutoff);
    for i := 0 to |entries|
      invariant AllNamed(entries[..i])
      invariant kept == Recent(FilesOf(entries[..i]), cutoff) && |kept| <= MAX_TAIL_CANDIDATES
    {
      assert entries[..i + 1][..i] == entries[..i];
      if entries[i].Foreign? {
        return kept, Some(UnexpectedEntry);
      }
      RecentPush(FilesOf(entries[..i]), entries[i].file, cutoff);
      if entries[i].file.second >= cutoff {
        kept := kept + [entries[i].file];
        if |kept| > MAX_TAIL_CANDIDATES {
          if AllNamed(entries) {
            FilesPrefix(entries, i + 1);
            RecentPrefix(FilesOf(entries), cutoff, i + 1);
          }
          return kept, Some(TooManyTailCandidates);
        }
      }
    }
    assert entries[..|entries|] == entries;
    error := None;
  }

  lemma EmptyIsRecent(cutoff: int)
    ensures Recent([], cutoff) == []
  {
  }

  lemma RecentPush(scan: seq<AuditFile>, f: AuditFile, cutoff: int)
    ensures Recent(scan + [f], cutoff) == if f.second >= cutoff then Recent(scan, cutoff) + [f] else Recent(scan, cutoff)
  {
    assert (scan + [f])[..|scan|] == scan;
  }

  lemma FilesPrefix(entries: seq<Entry>, k: nat)
    requires AllNamed(entries) && k <= |entries|
    ensures |FilesOf(entries)| == |entries| && FilesOf(entries[..k]) == FilesOf(entries)[..k]
  {
    FilesAreNamed(entries);
    FilesAreNamed(entries[..k]);
  }

  method ReadAll(files: seq<AuditFile>) returns (audits: Option<seq<Audit>>)
    ensures audits.Some? <==> AllFaithful(files)
    ensures audits.Some? ==> audits.value == AuditsOf(files)
  {
    var read: seq<Audit> := [];
    for i := 0 to |files|
      invariant AllFaithful(files[..i]) && read == AuditsOf(files[..i])
    {
      assert files[..i + 1] == files[..i] + [files[i]];
      AuditsPush(files[..i], files[i]);
      if !IsFaithful(files[i]) {
        return None;
      }
      read := read + [files[i].content.value];
    }
    assert files[..|files|] == files;
    audits := Some(read);
  }

  method SumBytes(files: seq<AuditFile>) returns (total: nat)
    ensures total == BytesOf(files)
  {
    total := 0;
    for i := 0 to |files|
      invariant total == BytesOf(files[..i])
    {
      assert files[..i + 1][..i] == files[..i];
      total := total + files[i].bytes;
    }
    assert files[..|files|] == files;
  }

  /**
    The two-pass query over a stable directory, listed in any order each time. Whenever it answers,
    the answer is "sort everything, newest first, and truncate". It fails exactly if there is a foreign
    entry, or else for the obstacle that the files at or above the cutoff are.
   */
  method TailPersistedAudits(entries: seq<Entry>, reentries: seq<Entry>, limit: nat) returns (r: TailResult)
    requires multiset(entries) == multiset(reentries) && DistinctNames(FilesOf(entries))
    ensures r.Tail? ==> r.audits == Newest(FilesOf(entries), limit) && IsAnswer(FilesOf(entries), limit, r.audits)
    ensures r.TailFailed? && r.error == UnexpectedEntry <==> 0 < limit && !AllNamed(entries)
    ensures 0 < limit && AllNamed(entries) && entries != [] ==>
              exists cutoff :: IsCutoff(FilesOf(entries), limit, cutoff)
                               && IsObstacle(Recent(FilesOf(reentries), cutoff), if r.Tail? then None else Some(r.error))
    ensures limit == 0 || entries == [] ==> r == Tail([])
  {
    hide IsCutoff, IsExact, IsTight, AuditsOf, Recent, DistinctNames, FilesOf, Sort, AuditOf, NewerFirst, Truncated, IsFaithful,
      HoldsItsAudit, IsNameOf, IsOlder, BytesOf, AllFaithful, IsAnswer;
    NothingAsked(entries);
    NewestOfNothing(entries, limit);
    if limit == 0 {
      return Tail([]);
    }
    FilesOfRescan(entries, reentries);
    var ok, m, retained := NewestSeconds(entries, limit);
    if !ok {
      return TailFailed(UnexpectedEntry);
    }
    if |m| == 0 {
      return Tail([]);
    }
    var cutoff := FirstKey(m);
    WindowGivesCutoff(FilesOf(entries), m, retained, limit);
    var files, error := CollectRecent(reentries, cutoff);
    if error.Some? {
      return TailFailed(error.value);
    }
    var total := SumBytes(files);
    if total > MAX_TAIL_READ_BYTES {
      return TailFailed(TailReadTooLarge);
    }
    AllFaithfulMeans(files);
    var audits := ReadAll(files);
    if audits.None? {
      return TailFailed(Unreadable);
    }
    RescanKeepsCutoff(FilesOf(entries), FilesOf(reentries), limit, cutoff);
    WindowIsEnough(FilesOf(reentries), limit, cutoff);
    RecentIsDistinct(FilesOf(reentries), cutoff);
    SortedAnswer(files, limit, Truncated(Sort(audits.value, NewerFirst), limit));
    AnswerOfAll(FilesOf(reentries), limit, cutoff, Truncated(Sort(audits.value, NewerFirst), limit));
    AnswerOfRescan(FilesOf(entries), FilesOf(reentries), limit, Truncated(Sort(audits.value, NewerFirst), limit));
    r := Tail(Truncated(Sort(audits.value, NewerFirst), limit));
  }

  lemma NewestOfNothing(entries: seq<Entry>, limit: nat)
    ensures entries == [] ==> Newest(FilesOf(entries), limit) == []
    ensures Newest(FilesOf(entries), 0) == []
  {
  }

  lemma NothingAsked(entries: seq<Entry>)
    ensures IsAnswer(FilesOf(entries), 0, []) && (entries == [] ==> forall limit :: IsAnswer(FilesOf(entries), limit, []))
  {
  }

  lemma CountFromMonotone(scan: seq<AuditFile>, a: int, b: int)
    requires a <= b
    ensures CountFrom(scan, b) <= CountFrom(scan, a)
  {
  }

  /** There is only one cutoff. */
  lemma CutoffIsUnique(scan: seq<AuditFile>, limit: nat, a: int, b: int)
    requires IsCutoff(scan, limit, a) && IsCutoff(scan, limit, b)
    ensures a == b
  {
    if a < b {
      CountFromMonotone(scan, a + 1, b);
    } else if b < a {
      CountFromMonotone(scan, b + 1, a);
    }
  }

  // ---------------------------------------------------------------------------------------------
  // One exact run
  // ---------------------------------------------------------------------------------------------

  datatype FindError = ForeignEntry | DuplicateRun | UnreadableRun
  datatype FindResult = FoundRun(audit: Audit) | NoSuchRun | FindFailed(error: FindError)

  predicate Claims(e: Entry, runId: nat) {
    e.Named? && e.file.runId == runId
  }

  /** Entry `i` is the only one that claims the run. */
  ghost predicate IsOnlyClaim(entries: seq<Entry>, runId: nat, i: int) {
    0 <= i < |entries| && Claims(entries[i], runId) && forall j :: 0 <= j < |entries| && j != i ==> !Claims(entries[j], runId)
  }

  /** Locate one run in a directory. A foreign entry or a second claim is an error, and what is returned is
      the audit of the only file that claims the run. */
  method FindPersistedAudit(entries: seq<Entry>, runId: nat) returns (r: FindResult)
    ensures r.NoSuchRun? <==> AllNamed(entries) && forall i :: 0 <= i < |entries| ==> !Claims(entries[i], runId)
    ensures r.FoundRun? <==> AllNamed(entries) && exists i :: IsOnlyClaim(entries, runId, i) && HoldsItsAudit(entries[i].file)
    ensures r.FoundRun? ==> exists i :: IsOnlyClaim(entries, runId, i) && entries[i].file.content == Some(r.audit)
    ensures r == FindFailed(UnreadableRun) <==>
              AllNamed(entries) && exists i :: IsOnlyClaim(entries, runId, i) && !HoldsItsAudit(entries[i].file)
    ensures r == FindFailed(DuplicateRun) ==>
              exists i, j :: 0 <= i < j < |entries| && Claims(entries[i], runId) && Claims(entries[j], runId)
    ensures r == FindFailed(ForeignEntry) ==> !AllNamed(entries)
  {
    var matched: Option<AuditFile> := None;
    ghost var at := 0;
    for i := 0 to |entries|
      invariant AllNamed(entries[..i])
      invariant matched.None? ==> forall k :: 0 <= k < i ==> !Claims(entries[k], runId)
      invariant matched.Some? ==>
                  && 0 <= at < i && entries[at] == Named(matched.value) && Claims(entries[at], runId)
                  && forall k :: 0 <= k < i && k != at ==> !Claims(entries[k], runId)
    {
      assert entries[..i + 1][..i] == entries[..i];
      if entries[i].Foreign? {
        return FindFailed(ForeignEntry);
      }
      if entries[i].file.runId == runId {
        if matched.Some? {
          return FindFailed(DuplicateRun);
        }
        matched, at := Some(entries[i].file), i;
      }
    }
    assert entries[..|entries|] == entries;
    if matched.None? {
      assert forall i :: !IsOnlyClaim(entries, runId, i);
      return NoSuchRun;
    }
    assert IsOnlyClaim(entries, runId, at);
    FaithfulMeans(matched.value);
    r := if IsFaithful(matched.value) then FoundRun(matched.value.content.value) else FindFailed(UnreadableRun);
  }
}
