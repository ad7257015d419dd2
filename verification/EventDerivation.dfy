/**
  Deriving bounded, privacy-reduced events from a run audit.
 */
module EventDerivation {
  import opened PathCodec
  import opened EventIndex
  import opened Splitting

  const MAX_AUDIT_LINE_BYTES: nat := 512
  const NANOS: int := 1_000_000_000

  datatype RunAudit = RunAudit(
    egressAudit: seq<string>,
    egressApprovals: seq<string>,
    includedFiles: nat,
    includedBytes: nat,
    excludedPaths: nat,
    exitCode: Option<int>,
    success: bool)

  function Summary(run: RunAudit): EventKind {
    RunRecorded(run.includedFiles, run.includedBytes, run.excludedPaths, run.exitCode, run.success)
  }

  // ---------------------------------------------------------------------------------------------
  // Line parsers
  // ---------------------------------------------------------------------------------------------

  predicate IsShortAscii(line: string) {
    |line| <= MAX_AUDIT_LINE_BYTES && forall c :: c in line ==> c < 128 as char
  }

  function Decimal(digits: string): nat
    requires forall i :: 0 <= i < |digits| ==> '0' <= digits[i] <= '9'
  {
    if digits == [] then 0
    else Decimal(digits[..|digits| - 1]) * 10 + (digits[|digits| - 1] as int - '0' as int)
  }

  /** Seconds since the epoch, up to the greatest representable second. */
  function ParseUnixSeconds(value: string, maxSeconds: nat): Option<int> {
    if value != [] && (forall i :: 0 <= i < |value| ==> '0' <= value[i] <= '9') && Decimal(value) <= maxSeconds
    then Some(Decimal(value) * NANOS) else None
  }

  /** Split at the last colon. */
  function SplitAtLastColon(value: string): (r: Option<(string, string)>)
    ensures r.Some? ==> value == r.value.0 + ":" + r.value.1 && ':' !in r.value.1
    ensures r.None? ==> ':' !in value
  {
    if value == [] then None
    else
      var front, last := value[..|value| - 1], value[|value| - 1];
      if last == ':' then Some((front, ""))
      else
        match SplitAtLastColon(front)
        case Some((host, port)) =>
          assert front + [last] == value;
          Some((host, port + [last]))
        case None => assert value == front + [last]; None
  }

  function ParseDestination(value: string): (r: Option<string>)
    ensures r.Some? ==> IsExactHostname(r.value) && value == r.value + ":443"
  {
    match SplitAtLastColon(value)
    case Some((host, port)) => if port == "443" && IsExactHostname(host) then Some(host) else None
    case None => None
  }

  function ParseDecision(value: string): Option<Decision> {
    if value == "deny" then Some(Deny)
    else if value == "deny-always" then Some(DenyAlways)
    else if value == "allow-once" then Some(AllowOnce)
    else if value == "allow-session" then Some(AllowSession)
    else if value == "allow-always" then Some(AllowAlways)
    else None
  }

  /** An observation: when, and what. */
  datatype Observation = Observation(occurredAt: int, kind: EventKind)

  function ParseEgress(line: string, maxSeconds: nat): (r: Option<Observation>)
    ensures r.Some? ==> IsValidKind(r.value.kind)
  {
    var fields := Split(line, '\t');
    if !IsShortAscii(line) || |fields| != 2 then None
    else
      match (ParseUnixSeconds(fields[0], maxSeconds), ParseDestination(fields[1]))
      case (Some(at), Some(host)) => Some(Observation(at, EgressTunnel(host, 443)))
      case _ => None
  }

  function ParseApproval(line: string, maxSeconds: nat): (r: Option<Observation>)
    ensures r.Some? ==> IsValidKind(r.value.kind)
  {
    var fields := Split(line, '\t');
    if !IsShortAscii(line) || |fields| != 3 then None
    else
      match (ParseUnixSeconds(fields[0], maxSeconds), ParseDestination(fields[1]), ParseDecision(fields[2]))
      case (Some(at), Some(host), Some(decision)) => Some(Observation(at, EgressApproval(host, 443, decision)))
      case _ => None
  }

  function Tunnels(lines: seq<string>, maxSeconds: nat): (r: seq<Observation>)
    ensures |r| <= |lines|
  {
    if lines == [] then []
    else
      var front := Tunnels(lines[..|lines| - 1], maxSeconds);
      match ParseEgress(lines[|lines| - 1], maxSeconds)
      case Some(o) => front + [o]
      case None => front
  }

  function Approvals(lines: seq<string>, maxSeconds: nat): (r: seq<Observation>)
    ensures |r| <= |lines|
  {
    if lines == [] then []
    else
      var front := Approvals(lines[..|lines| - 1], maxSeconds);
      match ParseApproval(lines[|lines| - 1], maxSeconds)
      case Some(o) => front + [o]
      case None => front
  }

  // ---------------------------------------------------------------------------------------------
  // What a line says
  // ---------------------------------------------------------------------------------------------

  ghost predicate SaysTime(digits: string, occurredAt: int, maxSeconds: nat) {
    && digits != [] && (forall i :: 0 <= i < |digits| ==> '0' <= digits[i] <= '9')
    && Decimal(digits) <= maxSeconds && occurredAt == Decimal(digits) * 1_000_000_000
  }

  ghost predicate SaysDecision(text: string, decision: Decision) {
    match decision
    case Deny => text == "deny"
    case DenyAlways => text == "deny-always"
    case AllowOnce => text == "allow-once"
    case AllowSession => text == "allow-session"
    case AllowAlways => text == "allow-always"
  }

  /** Seconds, a tab, and a host with port 443. */
  ghost predicate IsTunnelLine(line: string, o: Observation, maxSeconds: nat) {
    && |line| <= 512
    && exists digits, host ::
         && line == digits + "\t" + (host + ":443")
         && SaysTime(digits, o.occurredAt, maxSeconds) && IsDottedName(host) && o.kind == EgressTunnel(host, 443)
  }

  /** The same, a tab, and a decision. */
  ghost predicate IsApprovalLine(line: string, o: Observation, maxSeconds: nat) {
    && |line| <= 512
    && exists digits, host, text, decision ::
         && line == digits + "\t" + (host + ":443" + "\t" + text) && SaysDecision(text, decision)
         && SaysTime(digits, o.occurredAt, maxSeconds) && IsDottedName(host)
         && o.kind == EgressApproval(host, 443, decision)
  }

  lemma TimeMeans(digits: string, occurredAt: int, maxSeconds: nat)
    ensures ParseUnixSeconds(digits, maxSeconds) == Some(occurredAt) <==> SaysTime(digits, occurredAt, maxSeconds)
  {
  }

  lemma DecisionMeans(text: string, decision: Decision)
    ensures ParseDecision(text) == Some(decision) <==> SaysDecision(text, decision)
  {
  }

  /** The last colon is where nothing behind it is a colon. */
  lemma {:induction false} LastColon(front: string, back: string)
    requires ':' !in back
    ensures SplitAtLastColon(front + ":" + back) == Some((front, back))
  {
    var value := front + ":" + back;
    if back == [] {
      assert value[..|value| - 1] == front;
    } else {
      assert value[..|value| - 1] == front + ":" + back[..|back| - 1];
      LastColon(front, back[..|back| - 1]);
      assert back[..|back| - 1] + [back[|back| - 1]] == back;
    }
  }

  lemma DestinationMeans(value: string, host: string)
    ensures ParseDestination(value) == Some(host) <==> value == host + ":443" && IsDottedName(host)
  {
    hide SplitAtLastColon, IsDottedName, IsExactHostname;
    ExactHostnameMeans(host);
    LastColon(host, "443");
    assert host + ":" + "443" == host + ":443";
    if SplitAtLastColon(value).Some? {
      var split := SplitAtLastColon(value).value;
      ExactHostnameMeans(split.0);
      assert split.1 == "443" ==> value == split.0 + ":443";
    }
  }

  lemma NumberIsPlain(digits: string)
    requires forall i :: 0 <= i < |digits| ==> '0' <= digits[i] <= '9'
    ensures forall c :: c in digits ==> c != '\t' && c < 128 as char
  {
  }

  lemma HostIsPlain(host: string)
    requires IsDottedName(host)
    ensures forall c :: c in host + ":443" ==> c != '\t' && c < 128 as char
  {
  }

  lemma DecisionIsPlain(text: string, decision: Decision)
    requires SaysDecision(text, decision)
    ensures forall c :: c in text ==> c != '\t' && c < 128 as char
  {
  }

  lemma TunnelLineMeans(line: string, o: Observation, maxSeconds: nat)
    ensures ParseEgress(line, maxSeconds) == Some(o) <==> IsTunnelLine(line, o, maxSeconds)
  {
    hide Split, SaysTime, ParseUnixSeconds, ParseDestination, IsDottedName, IsValidKind;
    var fields := Split(line, '\t');
    if ParseEgress(line, maxSeconds) == Some(o) {
      var host := ParseDestination(fields[1]).value;
      SplitInTwo(line, '\t', fields[0], fields[1]);
      TimeMeans(fields[0], o.occurredAt, maxSeconds);
      DestinationMeans(fields[1], host);
      assert line == fields[0] + "\t" + (host + ":443");
    }
    if IsTunnelLine(line, o, maxSeconds) {
      var digits, host :| line == digits + "\t" + (host + ":443") && SaysTime(digits, o.occurredAt, maxSeconds)
                          && IsDottedName(host) && o.kind == EgressTunnel(host, 443);
      TimeMeans(digits, o.occurredAt, maxSeconds);
      DestinationMeans(host + ":443", host);
      TimeIsPlain(digits, o.occurredAt, maxSeconds);
      HostIsPlain(host);
      SplitInTwo(line, '\t', digits, host + ":443");
    }
  }

  lemma TimeIsPlain(digits: string, occurredAt: int, maxSeconds: nat)
    requires SaysTime(digits, occurredAt, maxSeconds)
    ensures forall c :: c in digits ==> c != '\t' && c < 128 as char
  {
    NumberIsPlain(digits);
  }

  lemma ApprovalLineMeans(line: string, o: Observation, maxSeconds: nat)
    ensures ParseApproval(line, maxSeconds) == Some(o) <==> IsApprovalLine(line, o, maxSeconds)
  {
    hide Split, SaysTime, ParseUnixSeconds, ParseDestination, IsDottedName, IsValidKind, ParseDecision, SaysDecision;
    var fields := Split(line, '\t');
    if ParseApproval(line, maxSeconds) == Some(o) {
      var host, decision := ParseDestination(fields[1]).value, ParseDecision(fields[2]).value;
      SplitInThree(line, '\t', fields[0], fields[1], fields[2]);
      TimeMeans(fields[0], o.occurredAt, maxSeconds);
      DestinationMeans(fields[1], host);
      DecisionMeans(fields[2], decision);
      assert line == fields[0] + "\t" + (host + ":443" + "\t" + fields[2]);
    }
    if IsApprovalLine(line, o, maxSeconds) {
      var digits, host, text, decision :|
        && line == digits + "\t" + (host + ":443" + "\t" + text) && SaysDecision(text, decision)
        && SaysTime(digits, o.occurredAt, maxSeconds) && IsDottedName(host)
        && o.kind == EgressApproval(host, 443, decision);
      TimeMeans(digits, o.occurredAt, maxSeconds);
      DestinationMeans(host + ":443", host);
      DecisionMeans(text, decision);
      TimeIsPlain(digits, o.occurredAt, maxSeconds);
      HostIsPlain(host);
      DecisionIsPlain(text, decision);
      SplitInThree(line, '\t', digits, host + ":443", text);
    }
  }

  ghost predicate SomeTunnel(line: string, maxSeconds: nat) {
    exists o :: IsTunnelLine(line, o, maxSeconds)
  }

  ghost predicate SomeApproval(line: string, maxSeconds: nat) {
    exists o :: IsApprovalLine(line, o, maxSeconds)
  }

  /** One observation for each line that is well formed, in order; the other lines are left out. */
  ghost predicate AreTunnels(os: seq<Observation>, lines: seq<string>, maxSeconds: nat) {
    if lines == [] then os == []
    else
      var front, last := lines[..|lines| - 1], lines[|lines| - 1];
      if SomeTunnel(last, maxSeconds) then
        os != [] && IsTunnelLine(last, os[|os| - 1], maxSeconds) && AreTunnels(os[..|os| - 1], front, maxSeconds)
      else AreTunnels(os, front, maxSeconds)
  }

  ghost predicate AreApprovals(os: seq<Observation>, lines: seq<string>, maxSeconds: nat) {
    if lines == [] then os == []
    else
      var front, last := lines[..|lines| - 1], lines[|lines| - 1];
      if SomeApproval(last, maxSeconds) then
        os != [] && IsApprovalLine(last, os[|os| - 1], maxSeconds) && AreApprovals(os[..|os| - 1], front, maxSeconds)
      else AreApprovals(os, front, maxSeconds)
  }

  lemma {:induction false} TunnelsMean(lines: seq<string>, maxSeconds: nat)
    ensures AreTunnels(Tunnels(lines, maxSeconds), lines, maxSeconds)
  {
    hide ParseEgress, IsTunnelLine;
    if lines != [] {
      var front, last := lines[..|lines| - 1], lines[|lines| - 1];
      TunnelsMean(front, maxSeconds);
      var o := ParseEgress(last, maxSeconds);
      if o.Some? {
        TunnelLineMeans(last, o.value, maxSeconds);
        assert Tunnels(lines, maxSeconds)[..|Tunnels(front, maxSeconds)|] == Tunnels(front, maxSeconds);
      } else if SomeTunnel(last, maxSeconds) {
        var p :| IsTunnelLine(last, p, maxSeconds);
        TunnelLineMeans(last, p, maxSeconds);
      }
    }
  }

  lemma {:induction false} ApprovalsMean(lines: seq<string>, maxSeconds: nat)
    ensures AreApprovals(Approvals(lines, maxSeconds), lines, maxSeconds)
  {
    hide ParseApproval, IsApprovalLine;
    if lines != [] {
      var front, last := lines[..|lines| - 1], lines[|lines| - 1];
      ApprovalsMean(front, maxSeconds);
      var o := ParseApproval(last, maxSeconds);
      if o.Some? {
        ApprovalLineMeans(last, o.value, maxSeconds);
        assert Approvals(lines, maxSeconds)[..|Approvals(front, maxSeconds)|] == Approvals(front, maxSeconds);
      } else if SomeApproval(last, maxSeconds) {
        var p :| IsApprovalLine(last, p, maxSeconds);
        ApprovalLineMeans(last, p, maxSeconds);
      }
    }
  }

  // ---------------------------------------------------------------------------------------------
  // What is derived, and that every line is accounted for
  // ---------------------------------------------------------------------------------------------

  function Entries(run: RunAudit): nat {
    |run.egressAudit| + |run.egressApprovals|
  }

  function Min(a: nat, b: nat): nat {
    if a < b then a else b
  }

  function Budget(run: RunAudit): nat {
    if Entries(run) > MAX_EVENTS_PER_AUDIT - 1 then MAX_EVENTS_PER_AUDIT - 2 else MAX_EVENTS_PER_AUDIT - 1
  }

  function EgressRead(run: RunAudit): nat {
    Min(Budget(run), |run.egressAudit|)
  }

  function ApprovalsRead(run: RunAudit): nat {
    Min(Budget(run) - EgressRead(run), |run.egressApprovals|)
  }

  /** The observations of the lines that are read, a truncation note if some are not, and the run
      summary in the end. */
  function Derived(run: RunAudit, maxSeconds: nat, noteAt: int, summaryAt: int): seq<Observation> {
    Tunnels(run.egressAudit[..EgressRead(run)], maxSeconds)
    + Approvals(run.egressApprovals[..ApprovalsRead(run)], maxSeconds)
    + (if Entries(run) > MAX_EVENTS_PER_AUDIT - 1
       then [Observation(noteAt, ObservationTruncated(Entries(run) - Budget(run)))] else [])
    + [Observation(summaryAt, Summary(run))]
  }

  /** What is derived: the well formed lines among those that are read, which are all of them up to 511 and
      the first 510 of more; then a note of how many were not read; and the summary of the run. */
  ghost predicate IsDerivation(d: seq<Observation>, run: RunAudit, maxSeconds: nat, noteAt: int, summaryAt: int) {
    var e, a := |run.egressAudit|, |run.egressApprovals|;
    var toRead := if e + a <= 511 then e + a else 510;
    var first := if e <= toRead then e else toRead;
    exists tunnels, approvals ::
      && AreTunnels(tunnels, run.egressAudit[..first], maxSeconds)
      && AreApprovals(approvals, run.egressApprovals[..toRead - first], maxSeconds)
      && d == tunnels + approvals
              + (if toRead < e + a then [Observation(noteAt, ObservationTruncated(e + a - toRead))] else [])
              + [Observation(summaryAt, RunRecorded(run.includedFiles, run.includedBytes, run.excludedPaths, run.exitCode, run.success))]
  }

  lemma DerivedMeans(run: RunAudit, maxSeconds: nat, noteAt: int, summaryAt: int)
    ensures IsDerivation(Derived(run, maxSeconds, noteAt, summaryAt), run, maxSeconds, noteAt, summaryAt)
  {
    hide Tunnels, Approvals, AreTunnels, AreApprovals;
    TunnelsMean(run.egressAudit[..EgressRead(run)], maxSeconds);
    ApprovalsMean(run.egressApprovals[..ApprovalsRead(run)], maxSeconds);
  }

  /** The number that the truncation notes of a derivation report as dropped. */
  function Dropped(observations: seq<Observation>): nat {
    if observations == [] then 0
    else
      var last := observations[|observations| - 1];
      Dropped(observations[..|observations| - 1]) + (if last.kind.ObservationTruncated? then last.kind.droppedAuditEntries else 0)
  }

  lemma {:induction false} DroppedConcat(a: seq<Observation>, b: seq<Observation>)
    ensures Dropped(a + b) == Dropped(a) + Dropped(b)
  {
    if b == [] {
      assert a + b == a;
    } else {
      DroppedConcat(a, b[..|b| - 1]);
      assert (a + b)[..|a + b| - 1] == a + b[..|b| - 1];
    }
  }

  lemma {:induction false} LinesDropNothing(lines: seq<string>, maxSeconds: nat)
    ensures Dropped(Tunnels(lines, maxSeconds)) == 0 && Dropped(Approvals(lines, maxSeconds)) == 0
  {
    if lines != [] {
      var front, last := lines[..|lines| - 1], lines[|lines| - 1];
      LinesDropNothing(front, maxSeconds);
      var t, a := Tunnels(front, maxSeconds), Approvals(front, maxSeconds);
      if ParseEgress(last, maxSeconds).Some? {
        assert (t + [ParseEgress(last, maxSeconds).value])[..|t|] == t;
      }
      if ParseApproval(last, maxSeconds).Some? {
        assert (a + [ParseApproval(last, maxSeconds).value])[..|a|] == a;
      }
    }
  }

  /** For audits of any size: at most 512 observations, the summary is the last one, and the lines
      read plus the entries reported as dropped are all the lines. */
  lemma DerivationConserves(run: RunAudit, maxSeconds: nat, noteAt: int, summaryAt: int)
    ensures |Derived(run, maxSeconds, noteAt, summaryAt)| <= MAX_EVENTS_PER_AUDIT
    ensures var d := Derived(run, maxSeconds, noteAt, summaryAt); d != [] && d[|d| - 1].kind == Summary(run)
    ensures EgressRead(run) + ApprovalsRead(run) + Dropped(Derived(run, maxSeconds, noteAt, summaryAt)) == Entries(run)
  {
    var t := Tunnels(run.egressAudit[..EgressRead(run)], maxSeconds);
    var a := Approvals(run.egressApprovals[..ApprovalsRead(run)], maxSeconds);
    LinesDropNothing(run.egressAudit[..EgressRead(run)], maxSeconds);
    LinesDropNothing(run.egressApprovals[..ApprovalsRead(run)], maxSeconds);
    var note := if Entries(run) > MAX_EVENTS_PER_AUDIT - 1
                then [Observation(noteAt, ObservationTruncated(Entries(run) - Budget(run)))] else [];
    DroppedConcat(t, a);
    DroppedConcat(t + a, note);
    DroppedConcat(t + a + note, [Observation(summaryAt, Summary(run))]);
  }

  // ---------------------------------------------------------------------------------------------
  // The derivation
  // ---------------------------------------------------------------------------------------------

  function EventOf(ids: seq<nat>, runId: nat, k: nat, o: Observation): Event
    requires k < |ids|
  {
    Event(ids[k], runId, o.occurredAt, o.kind)
  }

  /** `records` carry the observations in order under the given identifiers. */
  ghost predicate Carries(records: seq<Event>, observations: seq<Observation>, ids: seq<nat>, runId: nat) {
    && |records| == |observations| <= |ids|
    && forall k :: 0 <= k < |records| ==>
         records[k] == Event(ids[k], runId, observations[k].occurredAt, observations[k].kind)
  }

  lemma CarriesPush(records: seq<Event>, observations: seq<Observation>, ids: seq<nat>, runId: nat, o: Observation)
    requires Carries(records, observations, ids, runId) && |records| < |ids|
    ensures Carries(records + [EventOf(ids, runId, |records|, o)], observations + [o], ids, runId)
  {
  }

  /** `events_from_audit`; `ids` are the fresh random identifiers in the order they are drawn. */
  method EventsFromAudit(run: Option<RunAudit>, runId: nat, ids: seq<nat>, maxSeconds: nat, noteAt: int, summaryAt: int)
    returns (records: seq<Event>)
    requires |ids| >= MAX_EVENTS_PER_AUDIT && forall i, j :: 0 <= i < j < |ids| ==> ids[i] != ids[j]
    ensures run.None? ==> records == []
    ensures run.Some? ==> Carries(records, Derived(run.value, maxSeconds, noteAt, summaryAt), ids, runId)
    ensures run.Some? ==> IsDerivation(Derived(run.value, maxSeconds, noteAt, summaryAt), run.value, maxSeconds, noteAt, summaryAt)
    ensures |records| <= 512 && AreValidRecords(records)
  {
    hide ParseEgress, ParseApproval, AreValidRecords, Dropped, EventOf, IsDerivation;
    records := [];
    if run.None? {
      NothingIsValid();
      return;
    }
    var r := run.value;
    DerivationConserves(r, maxSeconds, noteAt, summaryAt);
    DerivedMeans(r, maxSeconds, noteAt, summaryAt);
    var egressToRead, approvalsToRead := EgressRead(r), ApprovalsRead(r);
    records := ReadTunnels(r.egressAudit[..egressToRead], ids, runId, maxSeconds);
    ghost var tunnels := Tunnels(r.egressAudit[..egressToRead], maxSeconds);
    records := ReadApprovals(r.egressApprovals[..approvalsToRead], ids, runId, maxSeconds, records, tunnels);
    ghost var seen := tunnels + Approvals(r.egressApprovals[..approvalsToRead], maxSeconds);
    if Entries(r) > MAX_EVENTS_PER_AUDIT - 1 {
      var note := Observation(noteAt, ObservationTruncated(Entries(r) - Budget(r)));
      CarriesPush(records, seen, ids, runId, note);
      records, seen := records + [EventOf(ids, runId, |records|, note)], seen + [note];
    }
    var last := Observation(summaryAt, Summary(r));
    CarriesPush(records, seen, ids, runId, last);
    records, seen := records + [EventOf(ids, runId, |records|, last)], seen + [last];
    assert seen == Derived(r, maxSeconds, noteAt, summaryAt);
    CarriedIsValid(r, records, ids, runId, maxSeconds, noteAt, summaryAt);
  }

  method ReadTunnels(lines: seq<string>, ids: seq<nat>, runId: nat, maxSeconds: nat) returns (records: seq<Event>)
    requires |lines| <= |ids|
    ensures Carries(records, Tunnels(lines, maxSeconds), ids, runId)
  {
    hide ParseEgress, EventOf;
    records := [];
    for i := 0 to |lines|
      invariant Carries(records, Tunnels(lines[..i], maxSeconds), ids, runId) && |records| <= i
    {
      assert lines[..i + 1][..i] == lines[..i];
      var parsed := ParseEgress(lines[i], maxSeconds);
      if parsed.Some? {
        CarriesPush(records, Tunnels(lines[..i], maxSeconds), ids, runId, parsed.value);
        records := records + [EventOf(ids, runId, |records|, parsed.value)];
      }
    }
    assert lines[..|lines|] == lines;
  }

  method ReadApprovals(lines: seq<string>, ids: seq<nat>, runId: nat, maxSeconds: nat, records0: seq<Event>, ghost seen: seq<Observation>)
    returns (records: seq<Event>)
    requires Carries(records0, seen, ids, runId) && |records0| + |lines| <= |ids|
    ensures Carries(records, seen + Approvals(lines, maxSeconds), ids, runId)
  {
    hide ParseApproval, EventOf;
    records := records0;
    assert seen + Approvals([], maxSeconds) == seen && lines[..0] == [];
    for i := 0 to |lines|
      invariant Carries(records, seen + Approvals(lines[..i], maxSeconds), ids, runId) && |records| <= |records0| + i
    {
      assert lines[..i + 1][..i] == lines[..i];
      var parsed := ParseApproval(lines[i], maxSeconds);
      if parsed.Some? {
        ghost var front := Approvals(lines[..i], maxSeconds);
        CarriesPush(records, seen + front, ids, runId, parsed.value);
        assert seen + (front + [parsed.value]) == (seen + front) + [parsed.value];
        records := records + [EventOf(ids, runId, |records|, parsed.value)];
      }
    }
    assert lines[..|lines|] == lines;
  }

  lemma {:induction false} LinesAreValid(lines: seq<string>, maxSeconds: nat)
    ensures forall o :: o in Tunnels(lines, maxSeconds) || o in Approvals(lines, maxSeconds) ==> IsValidKind(o.kind)
  {
    hide IsValidKind;
    if lines != [] {
      LinesAreValid(lines[..|lines| - 1], maxSeconds);
    }
  }

  lemma DerivedIsValid(run: RunAudit, maxSeconds: nat, noteAt: int, summaryAt: int)
    ensures forall o :: o in Derived(run, maxSeconds, noteAt, summaryAt) ==> IsValidKind(o.kind)
  {
    LinesAreValid(run.egressAudit[..EgressRead(run)], maxSeconds);
    LinesAreValid(run.egressApprovals[..ApprovalsRead(run)], maxSeconds);
  }

  lemma CarriedIsValid(run: RunAudit, records: seq<Event>, ids: seq<nat>, runId: nat, maxSeconds: nat, noteAt: int, summaryAt: int)
    requires forall i, j :: 0 <= i < j < |ids| ==> ids[i] != ids[j]
    requires Carries(records, Derived(run, maxSeconds, noteAt, summaryAt), ids, runId)
    ensures AreValidRecords(records)
  {
    hide IsValidKind, Derived;
    var d := Derived(run, maxSeconds, noteAt, summaryAt);
    DerivedIsValid(run, maxSeconds, noteAt, summaryAt);
    forall e | e in records
      ensures IsValidKind(e.kind)
    {
      var k :| 0 <= k < |records| && records[k] == e;
      assert d[k] in d;
    }
    ValidFrom(records);
  }
}
