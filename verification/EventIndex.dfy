/**
  The bounded event index: appends keep a sorted window of the newest events, queries read it. Both
  are proved to agree with an unbounded, never-evicted history.
 */
module EventIndex {
  import opened PathCodec
  import opened Sorting
  import opened Splitting

  const SCHEMA_VERSION: nat := 1
  const MAX_EVENTS: nat := 4096
  const MAX_EVENTS_PER_AUDIT: nat := 512
  const MAX_EVENT_QUERY_LIMIT: nat := 1000

  datatype Decision = Deny | DenyAlways | AllowOnce | AllowSession | AllowAlways

  datatype EventKind =
    | RunRecorded(includedFiles: nat, includedBytes: nat, excludedPaths: nat, exitCode: Option<int>, success: bool)
    | EgressTunnel(host: string, port: nat)
    | EgressApproval(host: string, port: nat, decision: Decision)
    | ObservationTruncated(droppedAuditEntries: nat)

  datatype Event = Event(id: nat, runId: nat, occurredAt: int, kind: EventKind)

  datatype Index = Index(schemaVersion: nat, events: seq<Event>)

  /** `compare_events`: by time, then by identifier. */
  predicate EventLe(a: Event, b: Event) {
    a.occurredAt < b.occurredAt || (a.occurredAt == b.occurredAt && a.id <= b.id)
  }

  lemma EventLeIsPreorder()
    ensures IsPreorder(EventLe)
  {
  }

  // ---------------------------------------------------------------------------------------------
  // Validation
  // ---------------------------------------------------------------------------------------------

  predicate IsLabel(part: string) {
    && 0 < |part| <= 63
    && part[0] != '-' && part[|part| - 1] != '-'
    && forall c :: c in part ==> 'a' <= c <= 'z' || '0' <= c <= '9' || c == '-'
  }

  predicate IsExactHostname(host: string) {
    && 0 < |host| <= 253
    && host[|host| - 1] != '.'
    && (forall c :: c in host ==> !('A' <= c <= 'Z'))
    && forall part :: part in Split(host, '.') ==> IsLabel(part)
  }

  /** An exact host name, on its characters: at most 253 of lower case letters, digits, dots and hyphens,
      and between dots 1 to 63 that neither start nor end with a hyphen. */
  ghost predicate IsDottedName(host: string) {
    && 1 <= |host| <= 253
    && (forall k :: 0 <= k < |host| ==>
          'a' <= host[k] <= 'z' || '0' <= host[k] <= '9' || host[k] == '-' || host[k] == '.')
    && (forall i, j :: IsSegment(host, '.', i, j) ==> 1 <= j - i <= 63 && host[i] != '-' && host[j - 1] != '-')
  }

  lemma LabelMeans(host: string, i: int, j: int)
    requires IsSegment(host, '.', i, j)
    ensures IsLabel(host[i..j]) <==>
              && 1 <= j - i <= 63 && host[i] != '-' && host[j - 1] != '-'
              && forall k :: i <= k < j ==> 'a' <= host[k] <= 'z' || '0' <= host[k] <= '9' || host[k] == '-'
  {
    var part := host[i..j];
    assert forall k :: i <= k < j ==> part[k - i] == host[k];
    if IsLabel(part) {
      forall k | i <= k < j
        ensures 'a' <= host[k] <= 'z' || '0' <= host[k] <= '9' || host[k] == '-'
      {
        assert part[k - i] in part;
      }
    }
  }

  /** Every position that is not a dot lies in a segment. */
  lemma {:induction false} SegmentAround(host: string, k: int) returns (i: int, j: int)
    requires 0 <= k < |host| && host[k] != '.'
    ensures i <= k < j && IsSegment(host, '.', i, j)
  {
    i, j := k, k + 1;
    while i > 0 && host[i - 1] != '.'
      invariant 0 <= i <= k && forall n :: i <= n <= k ==> host[n] != '.'
    {
      i := i - 1;
    }
    while j < |host| && host[j] != '.'
      invariant k < j <= |host| && forall n :: i <= n < j ==> host[n] != '.'
    {
      j := j + 1;
    }
    assert forall n :: 0 <= n < j - i ==> host[i..j][n] == host[i + n];
  }

  lemma AllLabels(host: string)
    ensures (forall part :: part in Split(host, '.') ==> IsLabel(part))
            <==> forall i, j :: IsSegment(host, '.', i, j) ==> IsLabel(host[i..j])
  {
    hide IsLabel, Split;
    if forall part :: part in Split(host, '.') ==> IsLabel(part) {
      forall i, j | IsSegment(host, '.', i, j)
        ensures IsLabel(host[i..j])
      {
        SplitMeans(host, '.', host[i..j]);
      }
    }
    if forall i, j :: IsSegment(host, '.', i, j) ==> IsLabel(host[i..j]) {
      forall part | part in Split(host, '.')
        ensures IsLabel(part)
      {
        SplitMeans(host, '.', part);
      }
    }
  }

  /** Labels between dots, read on the characters. */
  lemma LabelsMean(host: string)
    requires |host| <= 253
    ensures host != [] && (forall part :: part in Split(host, '.') ==> IsLabel(part)) <==> IsDottedName(host)
  {
    hide IsLabel, Split;
    AllLabels(host);
    forall i, j | IsSegment(host, '.', i, j)
      ensures IsLabel(host[i..j]) <==>
                && 1 <= j - i <= 63 && host[i] != '-' && host[j - 1] != '-'
                && forall k :: i <= k < j ==> 'a' <= host[k] <= 'z' || '0' <= host[k] <= '9' || host[k] == '-'
    {
      LabelMeans(host, i, j);
    }
    if forall i, j :: IsSegment(host, '.', i, j) ==> IsLabel(host[i..j]) {
      forall k | 0 <= k < |host|
        ensures 'a' <= host[k] <= 'z' || '0' <= host[k] <= '9' || host[k] == '-' || host[k] == '.'
      {
        if host[k] != '.' {
          var i, j := SegmentAround(host, k);
          assert IsLabel(host[i..j]);
        }
      }
    }
    if IsDottedName(host) {
      forall i, j | IsSegment(host, '.', i, j)
        ensures IsLabel(host[i..j])
      {
        forall k | i <= k < j
          ensures host[k] != '.'
        {
          assert host[i..j][k - i] == host[k];
        }
      }
    }
  }

  lemma ExactHostnameMeans(host: string)
    ensures IsExactHostname(host) <==> IsDottedName(host)
  {
    hide IsLabel, Split;
    if 1 <= |host| <= 253 {
      LabelsMean(host);
      assert host[|host|..|host|] == [];
      assert host[|host| - 1] == '.' ==> IsSegment(host, '.', |host|, |host|);
    }
  }

  /** Port 443 of an exact host. */
  ghost predicate HasExactDestination(kind: EventKind) {
    match kind
    case EgressTunnel(host, port) => port == 443 && IsDottedName(host)
    case EgressApproval(host, port, _) => port == 443 && IsDottedName(host)
    case RunRecorded(_, _, _, _, _) => true
    case ObservationTruncated(_) => true
  }

  lemma KindMeans(kind: EventKind)
    ensures IsValidKind(kind) <==> HasExactDestination(kind)
  {
    hide IsExactHostname, IsDottedName;
    match kind
    case EgressTunnel(host, _) => ExactHostnameMeans(host);
    case EgressApproval(host, _, _) => ExactHostnameMeans(host);
    case _ =>
  }

  predicate IsValidKind(kind: EventKind) {
    match kind
    case EgressTunnel(host, port) => port == 443 && IsExactHostname(host)
    case EgressApproval(host, port, _) => port == 443 && IsExactHostname(host)
    case _ => true
  }

  function Ids(events: seq<Event>): set<nat> {
    if events == [] then {} else Ids(events[..|events| - 1]) + {events[|events| - 1].id}
  }

  ghost predicate DistinctIds(events: seq<Event>) {
    forall i, j :: 0 <= i < j < |events| ==> events[i].id != events[j].id
  }

  /** Identifiers are distinct and every destination is an exact host on port 443. */
  predicate AreValidRecords(events: seq<Event>) {
    events == []
    || (var front, last := events[..|events| - 1], events[|events| - 1];
        AreValidRecords(front) && last.id !in Ids(front) && IsValidKind(last.kind))
  }

  lemma {:induction false} ValidPrefix(events: seq<Event>, k: nat)
    requires k <= |events| && AreValidRecords(events)
    ensures AreValidRecords(events[..k])
  {
    if k < |events| {
      ValidPrefix(events[..|events| - 1], k);
      assert events[..|events| - 1][..k] == events[..k];
    } else {
      assert events[..k] == events;
    }
  }

  lemma {:induction false} IdsAre(events: seq<Event>)
    ensures forall i :: i in Ids(events) <==> exists e :: e in events && e.id == i
  {
    if events != [] {
      IdsAre(events[..|events| - 1]);
      assert events == events[..|events| - 1] + [events[|events| - 1]];
    }
  }

  lemma {:induction false} ValidKinds(events: seq<Event>)
    requires AreValidRecords(events)
    ensures forall e :: e in events ==> IsValidKind(e.kind)
  {
    hide IsValidKind;
    if events != [] {
      ValidKinds(events[..|events| - 1]);
      assert events == events[..|events| - 1] + [events[|events| - 1]];
    }
  }

  lemma {:induction false} ValidIds(events: seq<Event>)
    requires AreValidRecords(events)
    ensures DistinctIds(events)
  {
    hide IsValidKind;
    if events != [] {
      var front := events[..|events| - 1];
      ValidIds(front);
      IdsAre(front);
      forall i, j | 0 <= i < j < |events|
        ensures events[i].id != events[j].id
      {
        assert front[i] in front;
      }
    }
  }

  lemma {:induction false} ValidFrom(events: seq<Event>)
    requires DistinctIds(events) && forall e :: e in events ==> IsValidKind(e.kind)
    ensures AreValidRecords(events)
  {
    hide IsValidKind;
    if events != [] {
      var front, last := events[..|events| - 1], events[|events| - 1];
      ValidFrom(front);
      IdsAre(front);
      assert last in events;
      forall e | e in front
        ensures e.id != last.id
      {
        var i :| 0 <= i < |front| && front[i] == e;
        assert events[i].id != events[|front|].id;
      }
    }
  }

  /** The pointwise reading of validity. */
  lemma ValidMeans(events: seq<Event>)
    ensures AreValidRecords(events) <==> DistinctIds(events) && forall e :: e in events ==> HasExactDestination(e.kind)
  {
    hide IsValidKind, HasExactDestination;
    forall kind: EventKind
      ensures IsValidKind(kind) <==> HasExactDestination(kind)
    {
      KindMeans(kind);
    }
    if AreValidRecords(events) {
      ValidKinds(events);
      ValidIds(events);
    }
    if DistinctIds(events) && forall e :: e in events ==> HasExactDestination(e.kind) {
      ValidFrom(events);
    }
  }

  method ValidateRecords(events: seq<Event>) returns (ok: bool)
    ensures ok <==> AreValidRecords(events)
    ensures ok <==> DistinctIds(events) && forall e :: e in events ==> HasExactDestination(e.kind)
  {
    hide IsValidKind, HasExactDestination;
    ValidMeans(events);
    var ids: set<nat> := {};
    for i := 0 to |events|
      invariant ids == Ids(events[..i]) && AreValidRecords(events[..i])
    {
      assert events[..i + 1][..i] == events[..i];
      if events[i].id in ids || !IsValidKind(events[i].kind) {
        if AreValidRecords(events) { ValidPrefix(events, i + 1); }
        return false;
      }
      ids := ids + {events[i].id};
    }
    assert events[..|events|] == events;
    ok := true;
  }

  predicate IsValidIndex(index: Index) {
    index.schemaVersion == SCHEMA_VERSION && |index.events| <= MAX_EVENTS && AreValidRecords(index.events)
  }

  // ---------------------------------------------------------------------------------------------
  // The window
  // ---------------------------------------------------------------------------------------------

  function Last<T>(s: seq<T>, k: nat): (r: seq<T>)
    ensures |r| == if |s| <= k then |s| else k
  {
    if |s| <= k then s else s[|s| - k..]
  }

  /** The greatest `MAX_EVENTS` events, ascending. */
  function Window(events: seq<Event>): seq<Event> {
    Last(Sort(events, EventLe), MAX_EVENTS)
  }

  lemma LastPush<T>(s: seq<T>, x: T, k: nat)
    requires 0 < k
    ensures Last(s + [x], k) == Last(s, k - 1) + [x]
  {
  }

  lemma LastOfLast<T>(s: seq<T>, j: nat, k: nat)
    requires j <= k
    ensures Last(Last(s, k), j) == Last(s, j)
  {
  }

  /** Only the last `k` of a sequence matter for the last `k` after an insertion. */
  lemma {:induction false} InsertIntoLast<T>(x: T, s: seq<T>, k: nat, le: (T, T) -> bool)
    ensures Last(Insert(x, s, le), k) == Last(Insert(x, Last(s, k), le), k)
    decreases |s|
  {
    var t := Last(s, k);
    if k == 0 {
      assert Last(Insert(x, s, le), 0) == [] && Last(Insert(x, t, le), 0) == [];
    } else if k < |s| {
      var front, last := s[..|s| - 1], s[|s| - 1];
      assert s == front + [last];
      LastPush(front, last, k);
      assert t[|t| - 1] == last && t[..|t| - 1] == Last(front, k - 1);
      if le(last, x) {
        LastPush(s, x, k);
        LastPush(t, x, k);
        LastOfLast(s, k - 1, k);
      } else {
        InsertIntoLast(x, front, k - 1, le);
        LastPush(Insert(x, front, le), last, k);
        LastPush(Insert(x, Last(front, k - 1), le), last, k);
      }
    }
  }

  lemma {:induction false} SortOfSorted<T>(s: seq<T>, le: (T, T) -> bool)
    requires Sorted(s, le)
    ensures Sort(s, le) == s
  {
    if s != [] {
      SortOfSorted(s[..|s| - 1], le);
      assert s == s[..|s| - 1] + [s[|s| - 1]];
    }
  }

  lemma LastIsSorted<T>(s: seq<T>, k: nat, le: (T, T) -> bool)
    requires Sorted(s, le)
    ensures Sorted(Last(s, k), le)
  {
  }

  lemma WindowIsSorted(events: seq<Event>)
    ensures Sorted(Window(events), EventLe) && Sort(Window(events), EventLe) == Window(events)
    ensures Window(Window(events)) == Window(events)
  {
    hide Insert, Sort, EventLe;
    EventLeIsPreorder();
    SortSorts(events, EventLe);
    LastIsSorted(Sort(events, EventLe), MAX_EVENTS, EventLe);
    SortOfSorted(Window(events), EventLe);
  }

  /** Evicting before an append makes no difference to the window after it. */
  lemma {:induction false} WindowAbsorbs(a: seq<Event>, b: seq<Event>)
    ensures Window(Window(a) + b) == Window(a + b)
  {
    hide Insert, Sort, EventLe, Last;
    if b == [] {
      WindowIsSorted(a);
      assert a + b == a && Window(a) + b == Window(a);
    } else {
      var front, x := b[..|b| - 1], b[|b| - 1];
      WindowAbsorbs(a, front);
      SortPush(a, front, x);
      SortPush(Window(a), front, x);
      assert b == front + [x];
      InsertIntoLast(x, Sort(a + front, EventLe), MAX_EVENTS, EventLe);
      InsertIntoLast(x, Sort(Window(a) + front, EventLe), MAX_EVENTS, EventLe);
    }
  }

  lemma SortPush(a: seq<Event>, front: seq<Event>, x: Event)
    ensures Sort(a + (front + [x]), EventLe) == Insert(x, Sort(a + front, EventLe), EventLe)
  {
    hide Insert, EventLe;
    var s := a + (front + [x]);
    assert s[..|s| - 1] == a + front && s[|s| - 1] == x;
  }

  /** What the index holds after a run of successful appends, batch after batch. */
  function Appended(batches: seq<seq<Event>>): seq<Event> {
    if batches == [] then [] else Window(Appended(batches[..|batches| - 1]) + batches[|batches| - 1])
  }

  /** Everything that was ever appended. */
  function Flattened(batches: seq<seq<Event>>): seq<Event> {
    if batches == [] then [] else Flattened(batches[..|batches| - 1]) + batches[|batches| - 1]
  }

  /** After any sequence of appends the index is the window of the whole history. */
  lemma {:induction false} RunKeepsWindow(batches: seq<seq<Event>>)
    ensures Appended(batches) == Window(Flattened(batches))
  {
    if batches != [] {
      var front, b := batches[..|batches| - 1], batches[|batches| - 1];
      RunKeepsWindow(front);
      WindowAbsorbs(Flattened(front), b);
    }
  }

  /** With globally distinct identifiers the order of the appends does not matter. */
  lemma RunIgnoresOrder(batches: seq<seq<Event>>, batches': seq<seq<Event>>)
    requires multiset(Flattened(batches)) == multiset(Flattened(batches')) && DistinctIds(Flattened(batches))
    ensures Appended(batches) == Appended(batches')
  {
    RunKeepsWindow(batches);
    RunKeepsWindow(batches');
    EventLeIsPreorder();
    SortOfPermutation(Flattened(batches), Flattened(batches'), EventLe);
  }

  /** The part of the history that the window leaves out. */
  function Evicted(events: seq<Event>): seq<Event> {
    var s := Sort(events, EventLe);
    if |s| <= MAX_EVENTS then [] else s[..|s| - MAX_EVENTS]
  }

  /** An earlier time, or the same time and no greater identifier. */
  ghost predicate IsNoLater(a: Event, b: Event) {
    a.occurredAt < b.occurredAt || (a.occurredAt == b.occurredAt && a.id <= b.id)
  }

  ghost predicate IsAscending(events: seq<Event>) {
    forall i, j :: 0 <= i < j < |events| ==> IsNoLater(events[i], events[j])
  }

  lemma EventLeMeans()
    ensures forall a, b :: EventLe(a, b) <==> IsNoLater(a, b)
  {
  }

  /** The window really is the greatest part: it is sorted, it and the evicted part are the whole
      history, nothing evicted is greater than anything kept, and nothing is evicted unless the
      window is full. */
  lemma WindowIsGreatest(events: seq<Event>)
    ensures multiset(events) == multiset(Evicted(events)) + multiset(Window(events))
    ensures IsAscending(Window(events)) && |Window(events)| <= 4096
    ensures forall e, w :: e in Evicted(events) && w in Window(events) ==> IsNoLater(e, w)
    ensures Evicted(events) != [] ==> |Window(events)| == 4096
  {
    hide Sort, EventLe, IsNoLater, IsAscending, IsPreorder;
    EventLeMeans();
    var s, evicted, kept := Sort(events, EventLe), Evicted(events), Window(events);
    EventLeIsPreorder();
    SortSorts(events, EventLe);
    SortPermutes(events, EventLe);
    WindowIsSorted(events);
    SortedAscends(kept);
    assert s == evicted + kept;
    forall e, w | e in evicted && w in kept
      ensures EventLe(e, w)
    {
      SortedHalves(evicted, kept, EventLe, e, w);
    }
  }

  lemma SortedAscends(events: seq<Event>)
    requires Sorted(events, EventLe)
    ensures IsAscending(events)
  {
    EventLeMeans();
  }

  lemma SortedHalves<T>(a: seq<T>, b: seq<T>, le: (T, T) -> bool, x: T, y: T)
    requires Sorted(a + b, le) && x in a && y in b
    ensures le(x, y)
  {
    var i :| 0 <= i < |a| && a[i] == x;
    var j :| 0 <= j < |b| && b[j] == y;
    assert (a + b)[i] == x && (a + b)[|a| + j] == y;
  }

  // ---------------------------------------------------------------------------------------------
  // The store
  // ---------------------------------------------------------------------------------------------

  datatype AppendResult = Stored | TooManyAppendEvents | InvalidRecord | StoreFailed

  /** The index file of one event directory. `history` is ghost: the batches published so far. */
  class EventStore {
    var file: Option<Index>
    ghost var history: seq<seq<Event>>
    /** The number of system calls that were refused. */
    ghost var faults: nat

    ghost predicate Valid()
      reads this
    {
      match file
      case None => history == []
      case Some(index) => index == Index(SCHEMA_VERSION, Appended(history)) && IsValidIndex(index)
    }

    constructor ()
      ensures Valid() && file == None && history == [] && faults == 0
    {
      file, history, faults := None, [], 0;
    }

    method Attempt() returns (ok: bool)
      modifies this`faults
      ensures faults == old(faults) + (if ok then 0 else 1)
    {
      ok := *;
      if !ok {
        faults := faults + 1;
      }
    }

    /** The stored events and the new ones, sorted and cut to the last 4096. */
    method NextEvents(records: seq<Event>) returns (events: seq<Event>)
      requires Valid()
      ensures events == Appended(history + [records]) && IsNewestPart(StoredEvents() + records, events)
    {
      hide Sort, AreValidRecords, EventLe;
      events := if file.Some? then Sort(file.value.events, EventLe) else [];
      assert events == Appended(history) by { StoredIsSorted(history); }
      events := events + records;
      events := Sort(events, EventLe);
      events := Last(events, MAX_EVENTS);
      AppendedPush(history, records);
      LastIsNewest(StoredEvents() + records);
    }

    ghost function StoredEvents(): seq<Event>
      reads this
    {
      if file.Some? then file.value.events else []
    }

    /** Append under the store lock. Whether or not it succeeds, the file is either as before or the
        complete new index; it is as before whenever the failure precedes the publishing rename. */
    method Append(records: seq<Event>) returns (r: AppendResult, ghost published: bool)
      requires Valid()
      modifies this
      ensures Valid()
      ensures published ==> history == old(history) + [records] && file == Some(Index(SCHEMA_VERSION, Appended(history)))
      ensures published ==> file.Some? && IsNewestPart(old(StoredEvents()) + records, file.value.events)
      ensures !published ==> history == old(history) && file == old(file)
      ensures r.Stored? ==> published || records == []
      ensures r.TooManyAppendEvents? || r.InvalidRecord? ==> !published
      ensures r.TooManyAppendEvents? <==> |records| > MAX_EVENTS_PER_AUDIT
      ensures |records| <= MAX_EVENTS_PER_AUDIT && !AreValidRecords(records) ==> r.InvalidRecord?
      ensures published ==> DistinctIds(records) && forall e :: e in records ==> HasExactDestination(e.kind)
      ensures r.InvalidRecord? ==> !AreValidRecords(records) || !AreValidRecords(Appended(old(history) + [records]))
      ensures r.StoreFailed? ==> faults > old(faults)
    {
      hide AreValidRecords, Appended, IsNewestPart, HasExactDestination;
      published := false;
      AppendedIsBounded(history, records);
      if records == [] {
        assert AreValidRecords(records) by { NothingIsValid(); }
        return Stored, false;
      }
      if |records| > MAX_EVENTS_PER_AUDIT {
        return TooManyAppendEvents, false;
      }
      var valid := ValidateRecords(records);
      if !valid {
        return InvalidRecord, false;
      }
      var ok := Attempt();
      if !ok {
        return StoreFailed, false;
      }
      var events := NextEvents(records);
      valid := ValidateRecords(events);
      if !valid {
        return InvalidRecord, false;
      }
      ok := Attempt();
      if !ok {
        return StoreFailed, false;
      }
      file := Some(Index(SCHEMA_VERSION, events));
      history := history + [records];
      published := true;
      ok := Attempt();
      r := if ok then Stored else StoreFailed;
    }
  }

  /** What an append must keep, on the fields alone: the 4096 newest events, or all if there are fewer, in
      ascending order of time and identifier. */
  ghost predicate IsNewestPart(events: seq<Event>, kept: seq<Event>) {
    && |kept| == (if |events| < 4096 then |events| else 4096)
    && IsAscending(kept) && multiset(kept) <= multiset(events)
    && forall e, w :: e in multiset(events) - multiset(kept) && w in kept ==> IsNoLater(e, w)
  }

  lemma LastIsNewest(events: seq<Event>)
    ensures IsNewestPart(events, Last(Sort(events, EventLe), MAX_EVENTS))
  {
    hide Sort, EventLe, IsNoLater, Evicted;
    WindowIsGreatest(events);
    SortPermutes(events, EventLe);
    var kept := Window(events);
    assert multiset(events) - multiset(kept) == multiset(Evicted(events));
    forall e | e in multiset(events) - multiset(kept)
      ensures e in Evicted(events)
    {
      assert e in multiset(Evicted(events));
    }
  }

  lemma AppendedIsBounded(history: seq<seq<Event>>, records: seq<Event>)
    ensures |Appended(history + [records])| <= MAX_EVENTS
  {
  }

  lemma NothingIsValid()
    ensures AreValidRecords([])
  {
  }

  lemma StoredIsSorted(history: seq<seq<Event>>)
    ensures Sort(Appended(history), EventLe) == Appended(history) && (history == [] ==> Appended(history) == [])
  {
    RunKeepsWindow(history);
    WindowIsSorted(Flattened(history));
  }

  lemma AppendedPush(history: seq<seq<Event>>, records: seq<Event>)
    ensures Appended(history + [records]) == Last(Sort(Appended(history) + records, EventLe), MAX_EVENTS)
  {
    assert (history + [records])[..|history|] == history;
  }

  // ---------------------------------------------------------------------------------------------
  // Queries
  // ---------------------------------------------------------------------------------------------

  function Chosen(events: seq<Event>, run: Option<nat>): seq<Event> {
    if events == [] then []
    else
      var front, last := Chosen(events[..|events| - 1], run), events[|events| - 1];
      if IsChosen(last, run) then front + [last] else front
  }

  function Reversed<T>(s: seq<T>): (r: seq<T>)
    ensures |r| == |s| && forall i :: 0 <= i < |s| ==> r[i] == s[|s| - 1 - i]
  {
    if s == [] then [] else [s[|s| - 1]] + Reversed(s[..|s| - 1])
  }

  /** Newest first, at most `limit`. */
  function Selected(events: seq<Event>, limit: nat, run: Option<nat>): seq<Event> {
    var all := Reversed(Sort(Chosen(events, run), EventLe));
    if |all| <= limit then all else all[..limit]
  }

  datatype SelectResult = Selection(events: seq<Event>) | InvalidQueryLimit | CorruptIndex

  method SelectEvents(index: Index, limit: nat, run: Option<nat>) returns (r: SelectResult)
    ensures r.Selection? <==>
              && 1 <= limit <= 1000 && index.schemaVersion == 1 && |index.events| <= 4096
              && DistinctIds(index.events) && forall e :: e in index.events ==> HasExactDestination(e.kind)
    ensures r.Selection? ==> r.events == Selected(index.events, limit, run)
    ensures r.Selection? ==> IsNewestSelection(index.events, limit, run, r.events)
    ensures r.InvalidQueryLimit? <==> !(1 <= limit <= 1000)
  {
    hide AreValidRecords, HasExactDestination, IsNewestSelection, EventLe, Sort;
    if !(1 <= limit <= MAX_EVENT_QUERY_LIMIT) {
      return InvalidQueryLimit;
    }
    var valid := ValidateRecords(index.events);
    if index.schemaVersion != SCHEMA_VERSION || |index.events| > MAX_EVENTS || !valid {
      return CorruptIndex;
    }
    var selected: seq<Event> := [];
    for i := 0 to |index.events|
      invariant selected == Chosen(index.events[..i], run)
    {
      assert index.events[..i + 1][..i] == index.events[..i];
      if run.None? || run.value == index.events[i].runId {
        selected := selected + [index.events[i]];
      }
    }
    assert index.events[..|index.events|] == index.events;
    SelectedIsNewest(index.events, limit, run);
    selected := Reversed(Sort(selected, EventLe));
    r := Selection(if |selected| <= limit then selected else selected[..limit]);
  }

  /** What a query must answer, on the fields alone: events of the index and of the run asked for, strictly
      descending by time and identifier; no more than asked for, and fewer only if there are no others;
      and every matching event that is left out is earlier than all that are not. */
  ghost predicate IsNewestSelection(events: seq<Event>, limit: nat, run: Option<nat>, r: seq<Event>) {
    && |r| <= limit
    && (forall i, j :: 0 <= i < j < |r| ==>
          r[j].occurredAt < r[i].occurredAt || (r[j].occurredAt == r[i].occurredAt && r[j].id < r[i].id))
    && (forall e :: e in r ==> e in events && (run.None? || e.runId == run.value))
    && (forall e :: e in events && (run.None? || e.runId == run.value) && e !in r ==>
          |r| == limit
          && forall a :: a in r ==> e.occurredAt < a.occurredAt || (e.occurredAt == a.occurredAt && e.id < a.id))
  }

  /** Sorted and strictly so by the fields. */
  lemma SortedStrictly(events: seq<Event>)
    requires DistinctIds(events)
    ensures var s := Sort(events, EventLe);
            IsStrictlyAscending(s) && forall e :: e in s <==> e in events
  {
    hide Sort;
    var s := Sort(events, EventLe);
    EventLeIsPreorder();
    SortSorts(events, EventLe);
    SortPermutes(events, EventLe);
    MembersOfPermutation(s, events);
    SeparatedIsPermutationInvariant(events, s, EventLe);
    forall i, j | 0 <= i < j < |s|
      ensures s[i].occurredAt < s[j].occurredAt || (s[i].occurredAt == s[j].occurredAt && s[i].id < s[j].id)
    {
      assert EventLe(s[i], s[j]) && !EventLe(s[j], s[i]);
    }
  }

  lemma {:induction false} ChosenIsDistinct(events: seq<Event>, run: Option<nat>)
    requires DistinctIds(events)
    ensures DistinctIds(Chosen(events, run))
  {
    if events != [] {
      var front, last := events[..|events| - 1], events[|events| - 1];
      ChosenIsDistinct(front, run);
      ChosenMembers(front, run);
      var c := Chosen(front, run);
      forall i | 0 <= i < |c|
        ensures c[i].id != last.id
      {
        assert c[i] in front;
        var k :| 0 <= k < |front| && front[k] == c[i];
        assert events[k].id != events[|front|].id;
      }
    }
  }

  ghost predicate IsStrictlyAscending(s: seq<Event>) {
    forall i, j :: 0 <= i < j < |s| ==>
      s[i].occurredAt < s[j].occurredAt || (s[i].occurredAt == s[j].occurredAt && s[i].id < s[j].id)
  }

  /** The last `limit` of a strictly ascending sequence, reversed. */
  ghost predicate IsReversedEnd(s: seq<Event>, limit: nat, r: seq<Event>) {
    |r| == (if |s| <= limit then |s| else limit) && forall i :: 0 <= i < |r| ==> r[i] == s[|s| - 1 - i]
  }

  lemma SelectedIsNewest(events: seq<Event>, limit: nat, run: Option<nat>)
    ensures DistinctIds(events) ==> IsNewestSelection(events, limit, run, Selected(events, limit, run))
  {
    hide Sort, EventLe, Chosen, DistinctIds, IsNewestSelection;
    if DistinctIds(events) {
      var c := Chosen(events, run);
      ChosenMembers(events, run);
      ChosenIsDistinct(events, run);
      SortedStrictly(c);
      EndIsNewest(events, limit, run, Sort(c, EventLe), Selected(events, limit, run));
    }
  }

  lemma EndIsNewest(events: seq<Event>, limit: nat, run: Option<nat>, s: seq<Event>, r: seq<Event>)
    requires IsStrictlyAscending(s) && IsReversedEnd(s, limit, r)
    requires forall e :: e in s <==> e in events && (run == None || run == Some(e.runId))
    ensures IsNewestSelection(events, limit, run, r)
  {
    hide IsStrictlyAscending, IsReversedEnd;
    EndMembers(s, limit, r);
    forall i, j | 0 <= i < j < |r|
      ensures r[j].occurredAt < r[i].occurredAt || (r[j].occurredAt == r[i].occurredAt && r[j].id < r[i].id)
    {
      EndOrder(s, limit, r, i, j);
    }
    forall e | e in s && e !in r
      ensures |r| == limit
              && forall a :: a in r ==> e.occurredAt < a.occurredAt || (e.occurredAt == a.occurredAt && e.id < a.id)
    {
      var k :| 0 <= k < |s| && s[k] == e;
      LeftOut(s, r, limit, k);
    }
  }

  lemma EndMembers(s: seq<Event>, limit: nat, r: seq<Event>)
    requires IsReversedEnd(s, limit, r)
    ensures |r| <= limit && forall e :: e in r ==> e in s
  {
  }

  lemma EndOrder(s: seq<Event>, limit: nat, r: seq<Event>, i: int, j: int)
    requires IsStrictlyAscending(s) && IsReversedEnd(s, limit, r) && 0 <= i < j < |r|
    ensures r[j].occurredAt < r[i].occurredAt || (r[j].occurredAt == r[i].occurredAt && r[j].id < r[i].id)
  {
    assert r[i] == s[|s| - 1 - i] && r[j] == s[|s| - 1 - j];
  }

  lemma LeftOut(s: seq<Event>, r: seq<Event>, limit: nat, k: nat)
    requires IsReversedEnd(s, limit, r) && IsStrictlyAscending(s)
    requires k < |s| && s[k] !in r
    ensures |r| == limit
    ensures forall a :: a in r ==> s[k].occurredAt < a.occurredAt || (s[k].occurredAt == a.occurredAt && s[k].id < a.id)
  {
    InEnd(s, r, limit, k);
  }

  lemma InEnd(s: seq<Event>, r: seq<Event>, limit: nat, k: nat)
    requires IsReversedEnd(s, limit, r) && k < |s|
    ensures k >= |s| - |r| ==> s[k] in r
  {
    if k >= |s| - |r| {
      assert r[|s| - 1 - k] == s[k];
    }
  }

  lemma SelectedIsLast(events: seq<Event>, limit: nat, run: Option<nat>)
    ensures Selected(events, limit, run) == Reversed(Last(Sort(Chosen(events, run), EventLe), limit))
  {
    hide Sort, Chosen, EventLe;
    TruncatedReversed(Sort(Chosen(events, run), EventLe), limit);
  }

  lemma {:induction false} TruncatedReversed<T>(s: seq<T>, limit: nat)
    ensures (if |s| <= limit then Reversed(s) else Reversed(s)[..limit]) == Reversed(Last(s, limit))
  {
    hide Reversed;
    if limit < |s| {
      var a, b := Reversed(s)[..limit], Reversed(Last(s, limit));
      assert |a| == |b| && forall i :: 0 <= i < |a| ==> a[i] == b[i];
    }
  }

  lemma {:induction false} ChosenAll(events: seq<Event>)
    ensures Chosen(events, None) == events
  {
    if events != [] {
      ChosenAll(events[..|events| - 1]);
      assert events == events[..|events| - 1] + [events[|events| - 1]];
    }
  }

  lemma {:induction false} ChosenConcat(a: seq<Event>, b: seq<Event>, run: Option<nat>)
    ensures Chosen(a + b, run) == Chosen(a, run) + Chosen(b, run)
  {
    if b == [] {
      assert a + b == a;
    } else {
      ChosenConcat(a, b[..|b| - 1], run);
      assert (a + b)[..|a + b| - 1] == a + b[..|b| - 1];
    }
  }

  lemma {:induction false} ChosenMembers(events: seq<Event>, run: Option<nat>)
    ensures forall e :: e in Chosen(events, run) <==> e in events && (run == None || run == Some(e.runId))
  {
    if events != [] {
      ChosenMembers(events[..|events| - 1], run);
      assert events == events[..|events| - 1] + [events[|events| - 1]];
    }
  }

  predicate IsChosen(e: Event, run: Option<nat>) {
    run == None || run == Some(e.runId)
  }

  lemma ChosenPush(events: seq<Event>, e: Event, run: Option<nat>)
    ensures Chosen(events + [e], run) == if IsChosen(e, run) then Chosen(events, run) + [e] else Chosen(events, run)
  {
    assert (events + [e])[..|events|] == events;
  }

  lemma InsertAtEnd(x: Event, s: seq<Event>, run: Option<nat>)
    requires forall e :: e in s ==> EventLe(e, x)
    ensures Insert(x, Chosen(s, run), EventLe) == Chosen(s, run) + [x]
  {
    hide EventLe;
    ChosenMembers(s, run);
    var c := Chosen(s, run);
    assert c != [] ==> c[|c| - 1] in s;
  }

  lemma {:induction false} ChosenOfInsert(x: Event, s: seq<Event>, run: Option<nat>)
    requires Sorted(s, EventLe)
    ensures Chosen(Insert(x, s, EventLe), run) ==
              if IsChosen(x, run) then Insert(x, Chosen(s, run), EventLe) else Chosen(s, run)
  {
    hide Chosen, EventLe, IsChosen;
    if s == [] {
      ChosenPush([], x, run);
      InsertAtEnd(x, [], run);
      assert [] + [x] == [x];
    } else {
      var front, last := s[..|s| - 1], s[|s| - 1];
      assert s == front + [last];
      if EventLe(last, x) {
        BelowLast(s, x);
        ChosenPush(s, x, run);
        InsertAtEnd(x, s, run);
      } else {
        ChosenOfInsert(x, front, run);
        ChosenPush(Insert(x, front, EventLe), last, run);
        ChosenPush(front, last, run);
        InsertBelow(x, Chosen(front, run), last);
      }
    }
  }

  lemma BelowLast(s: seq<Event>, x: Event)
    requires s != [] && Sorted(s, EventLe) && EventLe(s[|s| - 1], x)
    ensures forall e :: e in s ==> EventLe(e, x)
  {
    hide EventLe;
    EventLeIsPreorder();
  }

  lemma InsertBelow(x: Event, s: seq<Event>, last: Event)
    requires !EventLe(last, x)
    ensures Insert(x, s + [last], EventLe) == Insert(x, s, EventLe) + [last]
  {
    assert (s + [last])[..|s|] == s;
  }

  /** Filtering and sorting commute. */
  lemma {:induction false} ChosenOfSort(events: seq<Event>, run: Option<nat>)
    ensures Chosen(Sort(events, EventLe), run) == Sort(Chosen(events, run), EventLe)
  {
    if events != [] {
      var front, last := events[..|events| - 1], events[|events| - 1];
      ChosenOfSort(front, run);
      EventLeIsPreorder();
      SortSorts(front, EventLe);
      ChosenOfInsert(last, Sort(front, EventLe), run);
      var c := Chosen(front, run);
      assert (c + [last])[..|c|] == c;
    }
  }

  /** What the window still has of a selection is a suffix of what the history has. */
  lemma RetainedIsSuffix(history: seq<Event>, run: Option<nat>)
    ensures Sort(Chosen(Window(history), run), EventLe) == Chosen(Window(history), run)
    ensures Sort(Chosen(history, run), EventLe) == Chosen(Evicted(history), run) + Chosen(Window(history), run)
  {
    hide EventLe, Sort;
    ChosenOfSort(history, run);
    ChosenOfSort(Window(history), run);
    WindowIsSorted(history);
    assert Sort(history, EventLe) == Evicted(history) + Window(history) by { SortPermutes(history, EventLe); }
    ChosenConcat(Evicted(history), Window(history), run);
  }

  /** Eviction is invisible to unfiltered queries, for every history and every allowed limit. */
  lemma EvictionIsInvisible(history: seq<Event>, limit: nat)
    requires limit <= MAX_EVENT_QUERY_LIMIT
    ensures Selected(Window(history), limit, None) == Selected(history, limit, None)
  {
    SelectedIsLast(Window(history), limit, None);
    SelectedIsLast(history, limit, None);
    ChosenAll(Window(history));
    ChosenAll(history);
    WindowIsSorted(history);
    LastOfLast(Sort(history, EventLe), limit, MAX_EVENTS);
  }

  function Retained(history: seq<Event>, run: nat): nat {
    |Chosen(Window(history), Some(run))|
  }

  function Total(history: seq<Event>, run: nat): nat {
    |Chosen(history, Some(run))|
  }

  /** A query for one run sees the eviction, except exactly if the window still has enough events of
      the run, or all of them. */
  lemma FilteredQueryIsExact(history: seq<Event>, limit: nat, run: nat)
    ensures Selected(Window(history), limit, Some(run)) == Selected(history, limit, Some(run)) <==>
              Retained(history, run) >= limit || Retained(history, run) == Total(history, run)
  {
    SelectedIsLast(Window(history), limit, Some(run));
    SelectedIsLast(history, limit, Some(run));
    RetainedIsSuffix(history, Some(run));
    SortPermutes(Chosen(history, Some(run)), EventLe);
    hide Selected, Sort, Chosen, Window, Evicted;
    LastOfSuffix(Chosen(Evicted(history), Some(run)), Chosen(Window(history), Some(run)), limit);
    ReversedIsInjective(Last(Chosen(Window(history), Some(run)), limit),
                        Last(Chosen(Evicted(history), Some(run)) + Chosen(Window(history), Some(run)), limit));
  }

  lemma LastOfSuffix<T>(a: seq<T>, b: seq<T>, limit: nat)
    ensures Last(b, limit) == Last(a + b, limit) <==> |b| >= limit || a == []
  {
    if |b| >= limit {
      assert Last(b, limit) == Last(a + b, limit);
    } else if a == [] {
      assert a + b == b;
    } else {
      assert |Last(a + b, limit)| > |Last(b, limit)|;
    }
  }

  lemma ReversedIsInjective<T>(a: seq<T>, b: seq<T>)
    ensures Reversed(a) == Reversed(b) <==> a == b
  {
    if Reversed(a) == Reversed(b) {
      forall i | 0 <= i < |a|
        ensures a[i] == b[i]
      {
        assert a[i] == Reversed(a)[|a| - 1 - i] && b[i] == Reversed(b)[|a| - 1 - i];
      }
    }
  }

  lemma {:induction false} ChosenNone(events: seq<Event>, run: nat)
    requires forall i :: 0 <= i < |events| ==> events[i].runId != run
    ensures Chosen(events, Some(run)) == []
  {
    if events != [] {
      ChosenNone(events[..|events| - 1], run);
    }
  }

  function LongHistory(): seq<Event> {
    seq(MAX_EVENTS + 1, i requires 0 <= i <= MAX_EVENTS => Event(i, if i == 0 then 7 else 8, i, ObservationTruncated(1)))
  }

  /** A history in which a query for run 7 loses its only event to eviction. */
  lemma FilteredQueryCanLose()
    ensures Selected(Window(LongHistory()), 1, Some(7)) != Selected(LongHistory(), 1, Some(7))
  {
    var h := LongHistory();
    SortOfSorted(h, EventLe);
    assert Window(h) == h[1..];
    ChosenMembers(h, Some(7));
    assert h[0] in h;
    assert h[0] in Chosen(h, Some(7));
    ChosenNone(h[1..], 7);
    FilteredQueryIsExact(h, 1, 7);
  }
}
