/**
  Owner overlays on a vendor profile: accepted overlays can only take away reach.
 */
module Overlay {
  import opened PathCodec
  import opened EventIndex
  import opened Splitting

  datatype HostRule = HostRule(hostname: string, includeSubdomains: bool)

  /** The session fields; `names` stands for the mount path and file names, `namesAreValid` for the
      checks that involve only them. */
  datatype Sessions = Sessions(names: nat, namesAreValid: bool, maxTotalBytes: nat, maxFiles: nat)

  /** Every field that no overlay can reach, with the checks that involve only those fields. */
  datatype Fixed = Fixed(fields: nat, areValid: bool, forbidsPassthrough: bool)

  datatype Profile = Profile(
    schemaVersion: nat,
    fixed: Fixed,
    hosts: seq<HostRule>,
    interactiveApproval: bool,
    sessions: Option<Sessions>,
    mouseReporting: bool,
    nativeScrollback: bool,
    imageImport: bool)

  datatype OverlayRequest = OverlayRequest(
    removeHosts: seq<string>,
    restrictHosts: seq<string>,
    interactiveApproval: Option<bool>,
    imageImport: Option<bool>,
    mouseReporting: Option<bool>,
    nativeScrollback: Option<bool>,
    maxTotalBytes: Option<nat>,
    maxFiles: Option<nat>)

  datatype OverlayError =
    | InvalidBase | InvalidOverlay | BooleanWidening
    | UnknownHost(hostname: string) | EmptyEgress | AlreadyExact(hostname: string)
    | RequiresSessions | QuotaIncrease | InvalidResult

  datatype OverlayResult = Merged(profile: Profile) | NotMerged(error: OverlayError)

  const MAX_SESSION_BYTES: nat := 8 * 1024 * 1024 * 1024
  const MAX_SESSION_FILES: nat := 1_000_000

  // ---------------------------------------------------------------------------------------------
  // Validity
  // ---------------------------------------------------------------------------------------------

  predicate IsHostname(host: string) {
    && 0 < |host| <= 253
    && (forall c :: c in host ==> !('A' <= c <= 'Z'))
    && host[0] != '.' && host[|host| - 1] != '.'
    && forall part :: part in Split(host, '.') ==> IsLabel(part)
  }

  function Names(hosts: seq<HostRule>): set<string> {
    set rule | rule in hosts :: rule.hostname
  }

  predicate DistinctHosts(hosts: seq<HostRule>) {
    forall i, j :: 0 <= i < j < |hosts| ==> hosts[i].hostname != hosts[j].hostname
  }

  predicate AreValidSessions(s: Sessions) {
    s.namesAreValid && 0 < s.maxTotalBytes <= MAX_SESSION_BYTES && 0 < s.maxFiles <= MAX_SESSION_FILES
  }

  /** `VendorProfile::validate`. */
  predicate IsValidProfile(p: Profile) {
    && p.schemaVersion == 1
    && p.fixed.areValid
    && (p.sessions.Some? ==> p.fixed.forbidsPassthrough)
    && p.hosts != []
    && (forall rule :: rule in p.hosts ==> IsHostname(rule.hostname))
    && DistinctHosts(p.hosts)
    && (p.sessions.Some? ==> AreValidSessions(p.sessions.value))
  }

  predicate DistinctStrings(names: seq<string>) {
    forall i, j :: 0 <= i < j < |names| ==> names[i] != names[j]
  }

  predicate AreValidHostLists(o: OverlayRequest) {
    && (forall name :: name in o.removeHosts + o.restrictHosts ==> IsHostname(name))
    && DistinctStrings(o.removeHosts) && DistinctStrings(o.restrictHosts)
    && (forall name :: name in o.restrictHosts ==> name !in o.removeHosts)
  }

  predicate AsksForZero(o: OverlayRequest) {
    o.maxTotalBytes == Some(0) || o.maxFiles == Some(0)
  }

  predicate Widens(o: OverlayRequest) {
    || o.interactiveApproval == Some(true) || o.imageImport == Some(true)
    || o.mouseReporting == Some(true) || o.nativeScrollback == Some(true)
  }

  // ---------------------------------------------------------------------------------------------
  // The merged profile in closed form
  // ---------------------------------------------------------------------------------------------

  function Without(hosts: seq<HostRule>, names: set<string>): seq<HostRule> {
    if hosts == [] then []
    else
      var front, last := Without(hosts[..|hosts| - 1], names), hosts[|hosts| - 1];
      if last.hostname in names then front else front + [last]
  }

  function Exact(hosts: seq<HostRule>, names: set<string>): (r: seq<HostRule>)
    ensures |r| == |hosts|
    ensures forall i :: 0 <= i < |hosts| ==>
              r[i] == HostRule(hosts[i].hostname, hosts[i].includeSubdomains && hosts[i].hostname !in names)
  {
    seq(|hosts|, i requires 0 <= i < |hosts| =>
      HostRule(hosts[i].hostname, hosts[i].includeSubdomains && hosts[i].hostname !in names))
  }

  function AsSet(names: seq<string>): set<string> {
    set name | name in names
  }

  function MergedHosts(base: Profile, o: OverlayRequest): seq<HostRule> {
    Exact(Without(base.hosts, AsSet(o.removeHosts)), AsSet(o.restrictHosts))
  }

  function MergedSessions(base: Profile, o: OverlayRequest): Option<Sessions> {
    match base.sessions
    case Some(s) =>
      Some(s.(maxTotalBytes := if o.maxTotalBytes.Some? then o.maxTotalBytes.value else s.maxTotalBytes,
              maxFiles := if o.maxFiles.Some? then o.maxFiles.value else s.maxFiles))
    case None => None
  }

  function MergedProfile(base: Profile, o: OverlayRequest): Profile {
    base.(
      hosts := MergedHosts(base, o),
      interactiveApproval := base.interactiveApproval && o.interactiveApproval != Some(false),
      imageImport := base.imageImport && o.imageImport != Some(false),
      mouseReporting := base.mouseReporting && o.mouseReporting != Some(false),
      nativeScrollback := base.nativeScrollback && o.nativeScrollback != Some(false),
      sessions := MergedSessions(base, o))
  }

  /** The quotas asked for exist and are not raised. */
  predicate QuotasFit(base: Profile, o: OverlayRequest) {
    o.maxTotalBytes.Some? || o.maxFiles.Some? ==>
      && base.sessions.Some?
      && (o.maxTotalBytes.Some? ==> o.maxTotalBytes.value <= base.sessions.value.maxTotalBytes)
      && (o.maxFiles.Some? ==> o.maxFiles.value <= base.sessions.value.maxFiles)
  }

  /** Every host to be restricted is one that still admits subdomains. */
  predicate RestrictionsApply(hosts: seq<HostRule>, names: seq<string>) {
    forall name :: name in names ==> HostRule(name, true) in hosts
  }

  /** Exactly the overlays that are accepted for a base. */
  predicate Accepts(base: Profile, o: OverlayRequest) {
    && IsValidProfile(base) && AreValidHostLists(o) && !Widens(o) && !AsksForZero(o)
    && AsSet(o.removeHosts) <= Names(base.hosts)
    && Without(base.hosts, AsSet(o.removeHosts)) != []
    && RestrictionsApply(Without(base.hosts, AsSet(o.removeHosts)), o.restrictHosts)
    && QuotasFit(base, o)
  }

  // ---------------------------------------------------------------------------------------------
  // Host list facts
  // ---------------------------------------------------------------------------------------------

  lemma {:induction false} WithoutMembers(hosts: seq<HostRule>, names: set<string>)
    ensures forall rule :: rule in Without(hosts, names) <==> rule in hosts && rule.hostname !in names
  {
    if hosts != [] {
      WithoutMembers(hosts[..|hosts| - 1], names);
      assert hosts == hosts[..|hosts| - 1] + [hosts[|hosts| - 1]];
    }
  }

  lemma {:induction false} WithoutIsDistinct(hosts: seq<HostRule>, names: set<string>)
    requires DistinctHosts(hosts)
    ensures DistinctHosts(Without(hosts, names))
  {
    if hosts != [] {
      var front, last := hosts[..|hosts| - 1], hosts[|hosts| - 1];
      WithoutIsDistinct(front, names);
      WithoutMembers(front, names);
      var w := Without(front, names);
      forall i | 0 <= i < |w|
        ensures w[i].hostname != last.hostname
      {
        assert w[i] in front;
      }
    }
  }

  lemma {:induction false} WithoutTwice(hosts: seq<HostRule>, a: set<string>, b: set<string>)
    ensures Without(Without(hosts, a), b) == Without(hosts, a + b)
  {
    if hosts != [] {
      WithoutTwice(hosts[..|hosts| - 1], a, b);
      var front, last := Without(hosts[..|hosts| - 1], a), hosts[|hosts| - 1];
      assert (front + [last])[..|front|] == front;
    }
  }

  /** With distinct hostnames, removing the one position is removing the name. */
  lemma {:induction false} RemovePosition(hosts: seq<HostRule>, k: nat)
    requires k < |hosts| && DistinctHosts(hosts)
    ensures hosts[..k] + hosts[k + 1..] == Without(hosts, {hosts[k].hostname})
  {
    var front, last, name := hosts[..|hosts| - 1], hosts[|hosts| - 1], hosts[k].hostname;
    if k == |hosts| - 1 {
      WithoutNone(front, {name});
      assert hosts[..k] + hosts[k + 1..] == front;
    } else {
      RemovePosition(front, k);
      assert hosts[..k] + hosts[k + 1..] == (front[..k] + front[k + 1..]) + [last];
    }
  }

  method FindHost(hosts: seq<HostRule>, name: string) returns (k: Option<nat>)
    ensures k.Some? ==> k.value < |hosts| && hosts[k.value].hostname == name
                        && forall i :: 0 <= i < k.value ==> hosts[i].hostname != name
    ensures k.None? ==> forall i :: 0 <= i < |hosts| ==> hosts[i].hostname != name
  {
    for i := 0 to |hosts|
      invariant forall j :: 0 <= j < i ==> hosts[j].hostname != name
    {
      if hosts[i].hostname == name {
        return Some(i);
      }
    }
    k := None;
  }

  // ---------------------------------------------------------------------------------------------
  // Acceptance and result, field by field
  // ---------------------------------------------------------------------------------------------

  predicate IsNamed(name: string, hosts: seq<HostRule>) {
    exists k :: 0 <= k < |hosts| && hosts[k].hostname == name
  }

  ghost predicate IsSoundProfile(p: Profile) {
    && p.schemaVersion == 1 && p.fixed.areValid && p.hosts != []
    && (forall i :: 0 <= i < |p.hosts| ==> IsDottedName(p.hosts[i].hostname))
    && (forall i, j :: 0 <= i < j < |p.hosts| ==> p.hosts[i].hostname != p.hosts[j].hostname)
    && (p.sessions.Some? ==>
          && p.fixed.forbidsPassthrough && p.sessions.value.namesAreValid
          && 1 <= p.sessions.value.maxTotalBytes <= 8_589_934_592 && 1 <= p.sessions.value.maxFiles <= 1_000_000)
  }

  /** What an accepted request looks like: valid and distinct hostnames, none in both lists; no capability
      switched on and no quota of zero; removed hosts exist and leave one; restricted hosts have subdomains;
      quotas exist and are not raised. */
  ghost predicate IsAcceptable(base: Profile, o: OverlayRequest) {
    && IsSoundProfile(base)
    && (forall i :: 0 <= i < |o.removeHosts| ==>
          IsDottedName(o.removeHosts[i]) && IsNamed(o.removeHosts[i], base.hosts))
    && (forall i :: 0 <= i < |o.restrictHosts| ==>
          && IsDottedName(o.restrictHosts[i]) && o.restrictHosts[i] !in o.removeHosts
          && HostRule(o.restrictHosts[i], true) in base.hosts)
    && (forall i, j :: 0 <= i < j < |o.removeHosts| ==> o.removeHosts[i] != o.removeHosts[j])
    && (forall i, j :: 0 <= i < j < |o.restrictHosts| ==> o.restrictHosts[i] != o.restrictHosts[j])
    && (exists k :: 0 <= k < |base.hosts| && base.hosts[k].hostname !in o.removeHosts)
    && o.interactiveApproval != Some(true) && o.imageImport != Some(true)
    && o.mouseReporting != Some(true) && o.nativeScrollback != Some(true)
    && (o.maxTotalBytes.Some? ==> base.sessions.Some? && 1 <= o.maxTotalBytes.value <= base.sessions.value.maxTotalBytes)
    && (o.maxFiles.Some? ==> base.sessions.Some? && 1 <= o.maxFiles.value <= base.sessions.value.maxFiles)
  }

  /** A requested `false` takes effect, and nothing else changes the flag. */
  ghost predicate IsSwitched(before: bool, request: Option<bool>, after: bool) {
    && (request == Some(false) ==> !after)
    && (request != Some(false) ==> after == before)
  }

  /** A requested quota takes effect, and nothing else changes the quota. */
  ghost predicate IsQuota(before: nat, request: Option<nat>, after: nat) {
    && (request.Some? ==> after == request.value)
    && (request.None? ==> after == before)
  }

  /** The rules that are not removed, in their order, and without subdomains exactly where restricted. */
  ghost predicate AreMergedRules(before: seq<HostRule>, o: OverlayRequest, after: seq<HostRule>) {
    HasMergedRules(before, o, after) && KeepsOrder(before, after)
  }

  ghost predicate HasMergedRules(before: seq<HostRule>, o: OverlayRequest, after: seq<HostRule>) {
    forall rule :: rule in after <==>
          exists b :: b in before && b.hostname == rule.hostname && b.hostname !in o.removeHosts
                      && (rule.includeSubdomains <==> b.includeSubdomains && b.hostname !in o.restrictHosts)
  }

  ghost predicate KeepsOrder(before: seq<HostRule>, after: seq<HostRule>) {
    forall i, j, a, b :: 0 <= i < j < |after| && 0 <= a < |before| && 0 <= b < |before| ==>
      before[a].hostname == after[i].hostname && before[b].hostname == after[j].hostname ==> a < b
  }

  ghost predicate IsMergeOf(base: Profile, o: OverlayRequest, p: Profile) {
    && IsSwitched(base.interactiveApproval, o.interactiveApproval, p.interactiveApproval)
    && IsSwitched(base.imageImport, o.imageImport, p.imageImport)
    && IsSwitched(base.mouseReporting, o.mouseReporting, p.mouseReporting)
    && IsSwitched(base.nativeScrollback, o.nativeScrollback, p.nativeScrollback)
    && p.schemaVersion == base.schemaVersion && p.fixed == base.fixed
    && (p.sessions.Some? <==> base.sessions.Some?)
    && (p.sessions.Some? ==>
          && p.sessions.value.names == base.sessions.value.names
          && p.sessions.value.namesAreValid == base.sessions.value.namesAreValid
          && IsQuota(base.sessions.value.maxTotalBytes, o.maxTotalBytes, p.sessions.value.maxTotalBytes)
          && IsQuota(base.sessions.value.maxFiles, o.maxFiles, p.sessions.value.maxFiles))
    && AreMergedRules(base.hosts, o, p.hosts)
  }

  lemma HostnameMeans(host: string)
    ensures IsHostname(host) <==> IsDottedName(host)
  {
    hide IsLabel, Split;
    if 1 <= |host| <= 253 {
      LabelsMean(host);
      assert host[|host|..|host|] == [] && host[0..0] == [];
      assert host[|host| - 1] == '.' ==> IsSegment(host, '.', |host|, |host|);
      assert host[0] == '.' ==> IsSegment(host, '.', 0, 0);
    }
  }

  lemma ValidProfileMeans(p: Profile)
    ensures IsValidProfile(p) <==> IsSoundProfile(p)
  {
    hide IsHostname, IsDottedName;
    forall host
      ensures IsHostname(host) <==> IsDottedName(host)
    {
      HostnameMeans(host);
    }
    assert forall i :: 0 <= i < |p.hosts| ==> p.hosts[i] in p.hosts;
  }

  lemma HostListsMean(o: OverlayRequest)
    ensures AreValidHostLists(o) <==>
              && (forall i :: 0 <= i < |o.removeHosts| ==> IsDottedName(o.removeHosts[i]))
              && (forall i :: 0 <= i < |o.restrictHosts| ==> IsDottedName(o.restrictHosts[i]) && o.restrictHosts[i] !in o.removeHosts)
              && (forall i, j :: 0 <= i < j < |o.removeHosts| ==> o.removeHosts[i] != o.removeHosts[j])
              && (forall i, j :: 0 <= i < j < |o.restrictHosts| ==> o.restrictHosts[i] != o.restrictHosts[j])
  {
    hide IsHostname, IsDottedName;
    forall host
      ensures IsHostname(host) <==> IsDottedName(host)
    {
      HostnameMeans(host);
    }
    assert forall i :: 0 <= i < |o.removeHosts| ==> o.removeHosts[i] in o.removeHosts + o.restrictHosts;
    assert forall i :: 0 <= i < |o.restrictHosts| ==> o.restrictHosts[i] in o.removeHosts + o.restrictHosts;
  }

  lemma RemovalsExist(hosts: seq<HostRule>, names: seq<string>)
    ensures AsSet(names) <= Names(hosts) <==>
              forall i :: 0 <= i < |names| ==> IsNamed(names[i], hosts)
  {
    if AsSet(names) <= Names(hosts) {
      forall i | 0 <= i < |names|
        ensures IsNamed(names[i], hosts)
      {
        assert names[i] in AsSet(names);
        var rule :| rule in hosts && rule.hostname == names[i];
        var k :| 0 <= k < |hosts| && hosts[k] == rule;
      }
    }
    if forall i :: 0 <= i < |names| ==> IsNamed(names[i], hosts) {
      forall name | name in AsSet(names)
        ensures name in Names(hosts)
      {
        var i :| 0 <= i < |names| && names[i] == name;
        var k :| 0 <= k < |hosts| && hosts[k].hostname == names[i];
        assert hosts[k] in hosts;
      }
      assert AsSet(names) <= Names(hosts);
    }
  }

  lemma SomeAreKept(hosts: seq<HostRule>, names: seq<string>)
    ensures Without(hosts, AsSet(names)) != [] <==> exists k :: 0 <= k < |hosts| && hosts[k].hostname !in names
  {
    hide Without;
    var kept := Without(hosts, AsSet(names));
    WithoutMembers(hosts, AsSet(names));
    if kept != [] {
      assert kept[0] in kept;
      var k :| 0 <= k < |hosts| && hosts[k] == kept[0];
      assert hosts[k].hostname !in names;
    }
    if k :| 0 <= k < |hosts| && hosts[k].hostname !in names {
      assert hosts[k] in kept;
    }
  }

  lemma RestrictionsExist(hosts: seq<HostRule>, o: OverlayRequest)
    requires forall name :: name in o.restrictHosts ==> name !in o.removeHosts
    ensures RestrictionsApply(Without(hosts, AsSet(o.removeHosts)), o.restrictHosts) <==>
              forall i :: 0 <= i < |o.restrictHosts| ==> HostRule(o.restrictHosts[i], true) in hosts
  {
    hide Without;
    WithoutMembers(hosts, AsSet(o.removeHosts));
    assert forall i :: 0 <= i < |o.restrictHosts| ==> o.restrictHosts[i] in o.restrictHosts;
  }

  /** The conditions on the hosts of a base. */
  lemma HostConditionsMean(hosts: seq<HostRule>, o: OverlayRequest)
    requires forall name :: name in o.restrictHosts ==> name !in o.removeHosts
    ensures AsSet(o.removeHosts) <= Names(hosts) <==>
              forall i :: 0 <= i < |o.removeHosts| ==> IsNamed(o.removeHosts[i], hosts)
    ensures Without(hosts, AsSet(o.removeHosts)) != [] <==> exists k :: 0 <= k < |hosts| && hosts[k].hostname !in o.removeHosts
    ensures RestrictionsApply(Without(hosts, AsSet(o.removeHosts)), o.restrictHosts) <==>
              forall i :: 0 <= i < |o.restrictHosts| ==> HostRule(o.restrictHosts[i], true) in hosts
  {
    hide Without, AsSet, Names, RestrictionsApply;
    RemovalsExist(hosts, o.removeHosts);
    SomeAreKept(hosts, o.removeHosts);
    RestrictionsExist(hosts, o);
  }

  /** Acceptance, field by field. */
  lemma AcceptsMeans(base: Profile, o: OverlayRequest)
    ensures Accepts(base, o) <==> IsAcceptable(base, o)
  {
    hide IsValidProfile, IsSoundProfile, AreValidHostLists, IsDottedName, Without, RestrictionsApply, Names, AsSet;
    ValidProfileMeans(base);
    HostListsMean(o);
    if forall name :: name in o.restrictHosts ==> name !in o.removeHosts {
      HostConditionsMean(base.hosts, o);
    }
  }

  lemma {:induction false} WithoutKeepsOrder(hosts: seq<HostRule>, names: set<string>, i: int, j: int, a: int, b: int)
    requires DistinctHosts(hosts) && 0 <= i < j < |Without(hosts, names)| && 0 <= a < |hosts| && 0 <= b < |hosts|
    requires hosts[a].hostname == Without(hosts, names)[i].hostname && hosts[b].hostname == Without(hosts, names)[j].hostname
    ensures a < b
  {
    var front, last := hosts[..|hosts| - 1], hosts[|hosts| - 1];
    var kept := Without(front, names);
    WithoutMembers(front, names);
    assert i < |kept| && kept[i] in front;
    if j < |kept| {
      assert kept[j] in front;
      WithoutKeepsOrder(front, names, i, j, a, b);
    }
  }

  lemma MergedMembers(base: seq<HostRule>, o: OverlayRequest)
    ensures HasMergedRules(base, o, Exact(Without(base, AsSet(o.removeHosts)), AsSet(o.restrictHosts)))
  {
    hide Without;
    var kept := Without(base, AsSet(o.removeHosts));
    var hosts := Exact(kept, AsSet(o.restrictHosts));
    WithoutMembers(base, AsSet(o.removeHosts));
    forall rule | rule in hosts
      ensures exists b :: b in base && b.hostname == rule.hostname && b.hostname !in o.removeHosts
                          && (rule.includeSubdomains <==> b.includeSubdomains && b.hostname !in o.restrictHosts)
    {
      var i :| 0 <= i < |hosts| && hosts[i] == rule;
      assert kept[i] in kept;
    }
    forall rule: HostRule, b: HostRule | b in base && b.hostname == rule.hostname && b.hostname !in o.removeHosts
                     && (rule.includeSubdomains <==> b.includeSubdomains && b.hostname !in o.restrictHosts)
      ensures rule in hosts
    {
      var i :| 0 <= i < |kept| && kept[i] == b;
      assert hosts[i] == HostRule(rule.hostname, rule.includeSubdomains);
    }
  }

  lemma MergedOrder(base: seq<HostRule>, o: OverlayRequest)
    requires DistinctHosts(base)
    ensures KeepsOrder(base, Exact(Without(base, AsSet(o.removeHosts)), AsSet(o.restrictHosts)))
  {
    hide Without, AsSet;
    var names := AsSet(o.removeHosts);
    var hosts := Exact(Without(base, names), AsSet(o.restrictHosts));
    forall i, j, a, b | 0 <= i < j < |hosts| && 0 <= a < |base| && 0 <= b < |base|
                        && base[a].hostname == hosts[i].hostname && base[b].hostname == hosts[j].hostname
      ensures a < b
    {
      WithoutKeepsOrder(base, names, i, j, a, b);
    }
  }

  /** The closed form, field by field. */
  lemma MergedMeans(base: Profile, o: OverlayRequest)
    requires Accepts(base, o)
    ensures IsMergeOf(base, o, MergedProfile(base, o))
  {
    hide IsHostname, IsLabel, Without, Exact, AsSet, HasMergedRules, KeepsOrder;
    MergedMembers(base.hosts, o);
    MergedOrder(base.hosts, o);
  }

  // ---------------------------------------------------------------------------------------------
  // Merging
  // ---------------------------------------------------------------------------------------------

  method RemoveHosts(base: seq<HostRule>, names: seq<string>) returns (hosts: seq<HostRule>, unknown: Option<string>)
    requires DistinctHosts(base) && DistinctStrings(names)
    ensures unknown.None? <==> AsSet(names) <= Names(base)
    ensures unknown.None? ==> hosts == Without(base, AsSet(names))
  {
    hosts := base;
    assert AsSet(names[..0]) == {};
    WithoutNone(base, {});
    for i := 0 to |names|
      invariant hosts == Without(base, AsSet(names[..i])) && AsSet(names[..i]) <= Names(base)
    {
      assert AsSet(names[..i + 1]) == AsSet(names[..i]) + {names[i]};
      WithoutMembers(base, AsSet(names[..i]));
      WithoutIsDistinct(base, AsSet(names[..i]));
      var k := FindHost(hosts, names[i]);
      if k.None? {
        UnknownIsReported(base, hosts, names, i);
        return hosts, Some(names[i]);
      }
      assert hosts[k.value] in hosts;
      RemovePosition(hosts, k.value);
      WithoutTwice(base, AsSet(names[..i]), {names[i]});
      hosts := hosts[..k.value] + hosts[k.value + 1..];
    }
    assert names[..|names|] == names;
    unknown := None;
  }

  lemma UnknownIsReported(base: seq<HostRule>, hosts: seq<HostRule>, names: seq<string>, i: nat)
    requires i < |names| && DistinctStrings(names) && hosts == Without(base, AsSet(names[..i]))
    requires forall j :: 0 <= j < |hosts| ==> hosts[j].hostname != names[i]
    ensures names[i] in AsSet(names) && names[i] !in Names(base)
  {
    WithoutMembers(base, AsSet(names[..i]));
    assert names[i] !in names[..i];
    forall rule | rule in base
      ensures rule.hostname != names[i]
    {
      assert rule in hosts || rule.hostname in names[..i];
    }
  }

  method RestrictHosts(base: seq<HostRule>, names: seq<string>) returns (hosts: seq<HostRule>, error: Option<OverlayError>)
    requires DistinctHosts(base) && DistinctStrings(names)
    ensures error.None? <==> RestrictionsApply(base, names)
    ensures error.None? ==> hosts == Exact(base, AsSet(names))
    ensures error.Some? ==> error.value.UnknownHost? || error.value.AlreadyExact?
  {
    hosts := base;
    for i := 0 to |names|
      invariant hosts == Exact(base, AsSet(names[..i])) && RestrictionsApply(base, names[..i])
    {
      assert names[..i + 1] == names[..i] + [names[i]];
      assert names[i] !in names[..i];
      var k := FindHost(hosts, names[i]);
      if k.None? || !hosts[k.value].includeSubdomains {
        if RestrictionsApply(base, names) {
          RestrictableIsFound(base, names[..i], names[i], hosts);
        }
        return hosts, Some(if k.None? then UnknownHost(names[i]) else AlreadyExact(names[i]));
      }
      assert base[k.value] == HostRule(names[i], true);
      hosts := hosts[k.value := hosts[k.value].(includeSubdomains := false)];
    }
    assert names[..|names|] == names;
    error := None;
  }

  lemma RestrictableIsFound(base: seq<HostRule>, done: seq<string>, name: string, hosts: seq<HostRule>)
    requires DistinctHosts(base) && name !in done && hosts == Exact(base, AsSet(done))
    requires HostRule(name, true) in base
    ensures exists k :: 0 <= k < |hosts| && hosts[k] == HostRule(name, true)
    ensures forall k :: 0 <= k < |hosts| && hosts[k].hostname == name ==> hosts[k].includeSubdomains
  {
    var j :| 0 <= j < |base| && base[j] == HostRule(name, true);
    assert hosts[j] == HostRule(name, true);
  }

  method MergeHosts(base: seq<HostRule>, o: OverlayRequest) returns (hosts: seq<HostRule>, error: Option<OverlayError>)
    requires DistinctHosts(base) && AreValidHostLists(o)
    ensures error.None? <==>
            && AsSet(o.removeHosts) <= Names(base)
            && Without(base, AsSet(o.removeHosts)) != []
            && RestrictionsApply(Without(base, AsSet(o.removeHosts)), o.restrictHosts)
    ensures error.None? ==> hosts == Exact(Without(base, AsSet(o.removeHosts)), AsSet(o.restrictHosts))
    ensures error.Some? ==> error.value.UnknownHost? || error.value.EmptyEgress? || error.value.AlreadyExact?
  {
    hide IsHostname;
    var unknown;
    hosts, unknown := RemoveHosts(base, o.removeHosts);
    if unknown.Some? {
      return hosts, Some(UnknownHost(unknown.value));
    }
    if hosts == [] {
      return hosts, Some(EmptyEgress);
    }
    WithoutIsDistinct(base, AsSet(o.removeHosts));
    hosts, error := RestrictHosts(hosts, o.restrictHosts);
  }

  method MergeQuotas(base: Profile, o: OverlayRequest) returns (sessions: Option<Sessions>, error: Option<OverlayError>)
    ensures error.None? <==> QuotasFit(base, o)
    ensures error.None? ==> sessions == MergedSessions(base, o)
    ensures error.Some? ==> error.value.RequiresSessions? || error.value.QuotaIncrease?
  {
    sessions, error := base.sessions, None;
    if o.maxTotalBytes.Some? || o.maxFiles.Some? {
      if sessions.None? {
        return sessions, Some(RequiresSessions);
      }
      var changed := sessions.value;
      if o.maxTotalBytes.Some? {
        if o.maxTotalBytes.value > changed.maxTotalBytes {
          return sessions, Some(QuotaIncrease);
        }
        changed := changed.(maxTotalBytes := o.maxTotalBytes.value);
      }
      if o.maxFiles.Some? {
        if o.maxFiles.value > changed.maxFiles {
          return sessions, Some(QuotaIncrease);
        }
        changed := changed.(maxFiles := o.maxFiles.value);
      }
      sessions := Some(changed);
    }
  }

  /** Accepts exactly the acceptable overlays, returns the closed form, and never fails on the final
      validation. */
  method ApplyProfileOverlay(base: Profile, o: OverlayRequest) returns (r: OverlayResult)
    ensures r.Merged? <==> Accepts(base, o)
    ensures r.Merged? <==> IsAcceptable(base, o)
    ensures r.Merged? ==> r.profile == MergedProfile(base, o) && IsMergeOf(base, o, r.profile)
    ensures r.NotMerged? ==> r.error != InvalidResult
  {
    hide IsHostname, IsAcceptable, IsMergeOf;
    AcceptsMeans(base, o);
    if !IsValidProfile(base) {
      return NotMerged(InvalidBase);
    }
    if !AreValidHostLists(o) {
      return NotMerged(InvalidOverlay);
    }
    if Widens(o) {
      return NotMerged(BooleanWidening);
    }
    if AsksForZero(o) {
      return NotMerged(InvalidOverlay);
    }
    var hosts, error := MergeHosts(base.hosts, o);
    if error.Some? {
      return NotMerged(error.value);
    }
    var sessions;
    sessions, error := MergeQuotas(base, o);
    if error.Some? {
      return NotMerged(error.value);
    }
    var merged := base.(hosts := hosts, sessions := sessions);
    if o.interactiveApproval == Some(false) {
      merged := merged.(interactiveApproval := false);
    }
    if o.imageImport == Some(false) {
      merged := merged.(imageImport := false);
    }
    if o.mouseReporting == Some(false) {
      merged := merged.(mouseReporting := false);
    }
    if o.nativeScrollback == Some(false) {
      merged := merged.(nativeScrollback := false);
    }
    assert merged == MergedProfile(base, o);
    MergedIsValid(base, o);
    MergedMeans(base, o);
    if !IsValidProfile(merged) {
      return NotMerged(InvalidResult);
    }
    r := Merged(merged);
  }

  /** The result of an accepted overlay passes the validation of profiles. */
  lemma MergedIsValid(base: Profile, o: OverlayRequest)
    requires Accepts(base, o)
    ensures IsValidProfile(MergedProfile(base, o))
  {
    hide IsHostname;
    var kept := Without(base.hosts, AsSet(o.removeHosts));
    WithoutMembers(base.hosts, AsSet(o.removeHosts));
    WithoutIsDistinct(base.hosts, AsSet(o.removeHosts));
    var hosts := MergedHosts(base, o);
    forall rule | rule in hosts
      ensures IsHostname(rule.hostname)
    {
      var i :| 0 <= i < |hosts| && hosts[i] == rule;
      assert kept[i] in kept;
    }
  }

  // ---------------------------------------------------------------------------------------------
  // What it means
  // ---------------------------------------------------------------------------------------------

  /** `host` lies below `hostname`, at any depth. */
  predicate IsBelow(host: string, hostname: string) {
    |host| > |hostname| && host[|host| - |hostname| - 1..] == "." + hostname
  }

  /** What the proxy lets through for a rule: a rule with subdomains is handed to it as a wildcard, which
      does not match the hostname itself. */
  predicate Admits(rule: HostRule, host: string) {
    if rule.includeSubdomains then IsBelow(host, rule.hostname) else host == rule.hostname
  }

  predicate Reaches(hosts: seq<HostRule>, host: string) {
    exists i :: 0 <= i < |hosts| && Admits(hosts[i], host)
  }

  /** What a rule says when subdomains are read as being trusted besides the hostname. */
  predicate Denotes(rule: HostRule, host: string) {
    host == rule.hostname || (rule.includeSubdomains && IsBelow(host, rule.hostname))
  }

  predicate IsDenoted(hosts: seq<HostRule>, host: string) {
    exists i :: 0 <= i < |hosts| && Denotes(hosts[i], host)
  }

  /** Capabilities, quotas and the hosts that the rules denote only shrink; nothing else changes. */
  ghost predicate IsTighter(base: Profile, p: Profile) {
    && (forall host :: IsDenoted(p.hosts, host) ==> IsDenoted(base.hosts, host))
    && (p.interactiveApproval ==> base.interactiveApproval)
    && (p.imageImport ==> base.imageImport)
    && (p.mouseReporting ==> base.mouseReporting)
    && (p.nativeScrollback ==> base.nativeScrollback)
    && (p.sessions.Some? <==> base.sessions.Some?)
    && (p.sessions.Some? ==>
          && p.sessions.value.names == base.sessions.value.names
          && p.sessions.value.maxTotalBytes <= base.sessions.value.maxTotalBytes
          && p.sessions.value.maxFiles <= base.sessions.value.maxFiles)
    && p.schemaVersion == base.schemaVersion && p.fixed == base.fixed
  }

  /** Where the rules of a merged profile come from. */
  lemma MergedRules(base: Profile, o: OverlayRequest)
    requires Accepts(base, o)
    ensures forall rule :: rule in MergedHosts(base, o) ==>
              rule.hostname !in o.removeHosts
              && (rule in base.hosts
                  || (rule.hostname in o.restrictHosts && !rule.includeSubdomains && HostRule(rule.hostname, true) in base.hosts))
    ensures forall rule :: rule in base.hosts && rule.hostname !in o.removeHosts && rule.hostname !in o.restrictHosts ==>
              rule in MergedHosts(base, o)
    ensures forall name :: name in o.restrictHosts ==> HostRule(name, false) in MergedHosts(base, o)
  {
    hide IsHostname;
    var names, hosts := AsSet(o.removeHosts), MergedHosts(base, o);
    var kept := Without(base.hosts, names);
    WithoutMembers(base.hosts, names);
    forall rule | rule in hosts
      ensures rule.hostname !in o.removeHosts
              && (rule in base.hosts
                  || (rule.hostname in o.restrictHosts && !rule.includeSubdomains && HostRule(rule.hostname, true) in base.hosts))
    {
      var i :| 0 <= i < |hosts| && hosts[i] == rule;
      assert kept[i] in kept;
      assert kept[i] == HostRule(kept[i].hostname, kept[i].includeSubdomains);
    }
    forall rule | rule in base.hosts && rule.hostname !in o.removeHosts && rule.hostname !in o.restrictHosts
      ensures rule in hosts
    {
      var i :| 0 <= i < |kept| && kept[i] == rule;
      assert hosts[i] == rule;
    }
    forall name | name in o.restrictHosts
      ensures HostRule(name, false) in hosts
    {
      var i :| 0 <= i < |kept| && kept[i] == HostRule(name, true);
      assert hosts[i] == HostRule(name, false);
    }
  }

  lemma ReachedByRule(hosts: seq<HostRule>, rule: HostRule, host: string)
    requires rule in hosts
    ensures Admits(rule, host) ==> Reaches(hosts, host)
    ensures Denotes(rule, host) ==> IsDenoted(hosts, host)
  {
    var i :| 0 <= i < |hosts| && hosts[i] == rule;
  }

  /** For every valid base and every accepted overlay: the result is tighter than the base in what its
      rules denote and in all else, and a removed host is no longer named by any rule. */
  lemma OverlayOnlyTightens(base: Profile, o: OverlayRequest)
    requires Accepts(base, o)
    ensures IsTighter(base, MergedProfile(base, o))
    ensures forall name :: name in o.removeHosts ==> name !in Names(MergedProfile(base, o).hosts)
    ensures forall name :: name in o.restrictHosts ==> HostRule(name, false) in MergedProfile(base, o).hosts
  {
    hide IsHostname, IsBelow, MergedHosts, RestrictionsApply;
    MergedRules(base, o);
    var hosts := MergedHosts(base, o);
    forall host | IsDenoted(hosts, host)
      ensures IsDenoted(base.hosts, host)
    {
      var i :| 0 <= i < |hosts| && Denotes(hosts[i], host);
      var rule := hosts[i];
      assert rule in hosts;
      ReachedByRule(base.hosts, if rule in base.hosts then rule else HostRule(rule.hostname, true), host);
    }
  }

  /** What the proxy enforces can grow, but only by hostnames that the overlay restricts. */
  lemma NewReachIsRestricted(base: Profile, o: OverlayRequest, host: string)
    requires Accepts(base, o) && Reaches(MergedProfile(base, o).hosts, host) && !Reaches(base.hosts, host)
    ensures host in o.restrictHosts
  {
    hide IsHostname, IsBelow, MergedHosts, RestrictionsApply;
    MergedRules(base, o);
    var hosts := MergedHosts(base, o);
    var i :| 0 <= i < |hosts| && Admits(hosts[i], host);
    assert hosts[i] in hosts;
    if hosts[i] in base.hosts {
      ReachedByRule(base.hosts, hosts[i], host);
    }
  }

  /** Enforced reach shrinks exactly if the base already reaches every hostname that is restricted, for
      instance by the wildcard of a parent domain. */
  lemma ReachShrinksIff(base: Profile, o: OverlayRequest)
    requires Accepts(base, o)
    ensures (forall host :: Reaches(MergedProfile(base, o).hosts, host) ==> Reaches(base.hosts, host))
            <==> (forall name :: name in o.restrictHosts ==> Reaches(base.hosts, name))
  {
    hide IsHostname, IsBelow, MergedHosts, RestrictionsApply, Reaches;
    MergedRules(base, o);
    var hosts := MergedHosts(base, o);
    forall name | name in o.restrictHosts
      ensures Reaches(hosts, name)
    {
      ReachedByRule(hosts, HostRule(name, false), name);
    }
    forall host | Reaches(hosts, host) && !Reaches(base.hosts, host)
      ensures host in o.restrictHosts
    {
      NewReachIsRestricted(base, o, host);
    }
  }

  /** An overlay that only removes hosts never widens what the proxy enforces. */
  lemma RemovalShrinksReach(base: Profile, o: OverlayRequest)
    requires Accepts(base, o) && o.restrictHosts == []
    ensures forall host :: Reaches(MergedProfile(base, o).hosts, host) ==> Reaches(base.hosts, host)
  {
    hide Reaches, Accepts;
    ReachShrinksIff(base, o);
  }

  function WildcardProfile(name: string): Profile {
    Profile(1, Fixed(0, true, true), [HostRule(name, true)], false, None, false, false, false)
  }

  function RestrictApex(name: string): OverlayRequest {
    OverlayRequest([], [name], None, None, None, None, None, None)
  }

  /** Restricting an only wildcard to its hostname is accepted, and opens the hostname. */
  lemma RestrictionWidens(name: string)
    requires IsHostname(name)
    ensures var base, o := WildcardProfile(name), RestrictApex(name);
            Accepts(base, o) && Reaches(MergedProfile(base, o).hosts, name) && !Reaches(base.hosts, name)
  {
    hide IsHostname, MergedHosts;
    var base, o := WildcardProfile(name), RestrictApex(name);
    WithoutNone(base.hosts, AsSet(o.removeHosts));
    assert base.hosts[0] in base.hosts;
    MergedRules(base, o);
    assert o.restrictHosts[0] in o.restrictHosts;
    ReachedByRule(MergedHosts(base, o), HostRule(name, false), name);
  }

  /** A concrete one. */
  lemma RestrictionCanWiden()
    ensures var base, o := WildcardProfile("h"), RestrictApex("h");
            Accepts(base, o) && Reaches(MergedProfile(base, o).hosts, "h") && !Reaches(base.hosts, "h")
  {
    hide Accepts, Reaches, MergedProfile;
    OneLetter();
    RestrictionWidens("h");
  }

  lemma OneLetter()
    ensures IsHostname("h")
  {
    var s := "h";
    assert s[1..] == [];
    assert Split(s[1..], '.') == [""];
    assert [s[0]] + "" == s;
    var parts := Split(s, '.');
    assert parts == [[s[0]] + ""] + [""][1..];
    assert parts == [s];
  }

  // ---------------------------------------------------------------------------------------------
  // Reporting
  // ---------------------------------------------------------------------------------------------

  datatype FieldNote =
    | HostRemoved(hostname: string) | HostMadeExact(hostname: string)
    | ApprovalNote | ImageImportNote | MouseNote | ScrollbackNote
    | TotalBytesNote | FilesNote

  /** The first rule of the same name lost its subdomains. */
  predicate LostSubdomains(rule: HostRule, hosts: seq<HostRule>) {
    exists k :: 0 <= k < |hosts| && hosts[k].hostname == rule.hostname
                && (forall i :: 0 <= i < k ==> hosts[i].hostname != rule.hostname)
                && rule.includeSubdomains && !hosts[k].includeSubdomains
  }

  function HostNotes(rules: seq<HostRule>, hosts: seq<HostRule>): seq<FieldNote> {
    if rules == [] then []
    else
      var front, last := HostNotes(rules[..|rules| - 1], hosts), rules[|rules| - 1];
      if !IsNamed(last.hostname, hosts) then front + [HostRemoved(last.hostname)]
      else if LostSubdomains(last, hosts) then front + [HostMadeExact(last.hostname)]
      else front
  }

  datatype Comparison = Comparison(field: FieldNote, changed: bool)

  function Changed(table: seq<Comparison>): seq<FieldNote> {
    if table == [] then []
    else
      var front, last := Changed(table[..|table| - 1]), table[|table| - 1];
      if last.changed then front + [last.field] else front
  }

  function Comparisons(base: Profile, p: Profile): seq<Comparison> {
    [ Comparison(ApprovalNote, base.interactiveApproval != p.interactiveApproval),
      Comparison(ImageImportNote, base.imageImport != p.imageImport),
      Comparison(MouseNote, base.mouseReporting != p.mouseReporting),
      Comparison(ScrollbackNote, base.nativeScrollback != p.nativeScrollback) ]
    + if base.sessions.Some? && p.sessions.Some? then
        [ Comparison(TotalBytesNote, base.sessions.value.maxTotalBytes != p.sessions.value.maxTotalBytes),
          Comparison(FilesNote, base.sessions.value.maxFiles != p.sessions.value.maxFiles) ]
      else []
  }

  /** One line for each field that differs, in the order of the report. */
  function Notes(base: Profile, p: Profile): seq<FieldNote> {
    HostNotes(base.hosts, p.hosts) + Changed(Comparisons(base, p))
  }

  /** What each note says, field by field. */
  ghost predicate AreNotesOf(base: Profile, p: Profile, fields: seq<FieldNote>) {
    && (ApprovalNote in fields <==> base.interactiveApproval != p.interactiveApproval)
    && (ImageImportNote in fields <==> base.imageImport != p.imageImport)
    && (MouseNote in fields <==> base.mouseReporting != p.mouseReporting)
    && (ScrollbackNote in fields <==> base.nativeScrollback != p.nativeScrollback)
    && (TotalBytesNote in fields <==>
          base.sessions.Some? && p.sessions.Some? && base.sessions.value.maxTotalBytes != p.sessions.value.maxTotalBytes)
    && (FilesNote in fields <==>
          base.sessions.Some? && p.sessions.Some? && base.sessions.value.maxFiles != p.sessions.value.maxFiles)
    && (forall name :: HostRemoved(name) in fields <==>
          (exists i :: 0 <= i < |base.hosts| && base.hosts[i].hostname == name)
          && forall k :: 0 <= k < |p.hosts| ==> p.hosts[k].hostname != name)
    && (forall name :: HostMadeExact(name) in fields <==>
          HostRule(name, true) in base.hosts
          && exists k :: 0 <= k < |p.hosts| && p.hosts[k] == HostRule(name, false)
                         && forall i :: 0 <= i < k ==> p.hosts[i].hostname != name)
  }

  lemma {:induction false} ChangedMembers(table: seq<Comparison>, note: FieldNote)
    ensures note in Changed(table) <==> exists i :: 0 <= i < |table| && table[i].changed && table[i].field == note
  {
    if table != [] {
      ChangedMembers(table[..|table| - 1], note);
    }
  }

  lemma {:induction false} HostNotesMembers(rules: seq<HostRule>, hosts: seq<HostRule>, note: FieldNote)
    ensures note in HostNotes(rules, hosts) <==>
              exists i :: 0 <= i < |rules| &&
                if !IsNamed(rules[i].hostname, hosts) then note == HostRemoved(rules[i].hostname)
                else LostSubdomains(rules[i], hosts) && note == HostMadeExact(rules[i].hostname)
  {
    hide IsNamed, LostSubdomains;
    if rules != [] {
      HostNotesMembers(rules[..|rules| - 1], hosts, note);
    }
  }

  lemma FieldNotesMean(base: Profile, p: Profile, note: FieldNote)
    ensures note in Changed(Comparisons(base, p)) <==>
              match note
              case ApprovalNote => base.interactiveApproval != p.interactiveApproval
              case ImageImportNote => base.imageImport != p.imageImport
              case MouseNote => base.mouseReporting != p.mouseReporting
              case ScrollbackNote => base.nativeScrollback != p.nativeScrollback
              case TotalBytesNote =>
                base.sessions.Some? && p.sessions.Some? && base.sessions.value.maxTotalBytes != p.sessions.value.maxTotalBytes
              case FilesNote =>
                base.sessions.Some? && p.sessions.Some? && base.sessions.value.maxFiles != p.sessions.value.maxFiles
              case HostRemoved(_) => false
              case HostMadeExact(_) => false
  {
    var table := Comparisons(base, p);
    ChangedMembers(table, note);
    assert table[0].field == ApprovalNote && table[1].field == ImageImportNote
           && table[2].field == MouseNote && table[3].field == ScrollbackNote;
    if base.sessions.Some? && p.sessions.Some? {
      assert |table| == 6 && table[4].field == TotalBytesNote && table[5].field == FilesNote;
    } else {
      assert |table| == 4;
    }
  }

  lemma HostNotesMean(rules: seq<HostRule>, hosts: seq<HostRule>, name: string)
    ensures HostRemoved(name) in HostNotes(rules, hosts) <==>
              (exists i :: 0 <= i < |rules| && rules[i].hostname == name)
              && forall k :: 0 <= k < |hosts| ==> hosts[k].hostname != name
    ensures HostMadeExact(name) in HostNotes(rules, hosts) <==>
              HostRule(name, true) in rules
              && exists k :: 0 <= k < |hosts| && hosts[k] == HostRule(name, false)
                             && forall i :: 0 <= i < k ==> hosts[i].hostname != name
  {
    HostNotesMembers(rules, hosts, HostRemoved(name));
    HostNotesMembers(rules, hosts, HostMadeExact(name));
    if HostMadeExact(name) in HostNotes(rules, hosts) {
      var i :| 0 <= i < |rules| && IsNamed(rules[i].hostname, hosts) && LostSubdomains(rules[i], hosts)
               && rules[i].hostname == name;
      assert rules[i] == HostRule(name, true);
      var k :| 0 <= k < |hosts| && hosts[k].hostname == name && (forall n :: 0 <= n < k ==> hosts[n].hostname != name)
               && !hosts[k].includeSubdomains;
      assert hosts[k] == HostRule(name, false);
    }
    if HostRule(name, true) in rules {
      var i :| 0 <= i < |rules| && rules[i] == HostRule(name, true);
      if k :| 0 <= k < |hosts| && hosts[k] == HostRule(name, false) && forall n :: 0 <= n < k ==> hosts[n].hostname != name {
        assert IsNamed(name, hosts) && LostSubdomains(rules[i], hosts);
      }
    }
  }

  lemma {:induction false} OnlyHostNotes(rules: seq<HostRule>, hosts: seq<HostRule>)
    ensures forall note :: note in HostNotes(rules, hosts) ==> note.HostRemoved? || note.HostMadeExact?
  {
    hide IsNamed, LostSubdomains;
    if rules != [] {
      OnlyHostNotes(rules[..|rules| - 1], hosts);
    }
  }

  lemma NotesMean(base: Profile, p: Profile)
    ensures AreNotesOf(base, p, Notes(base, p))
  {
    hide HostNotes, Changed, Comparisons;
    OnlyHostNotes(base.hosts, p.hosts);
    forall note: FieldNote
      ensures note in Notes(base, p) <==> note in HostNotes(base.hosts, p.hosts) || note in Changed(Comparisons(base, p))
    {
    }
    FieldNotesMean(base, p, ApprovalNote);
    FieldNotesMean(base, p, ImageImportNote);
    FieldNotesMean(base, p, MouseNote);
    FieldNotesMean(base, p, ScrollbackNote);
    FieldNotesMean(base, p, TotalBytesNote);
    FieldNotesMean(base, p, FilesNote);
    forall name
      ensures HostRemoved(name) in Notes(base, p) <==> HostRemoved(name) in HostNotes(base.hosts, p.hosts)
      ensures HostMadeExact(name) in Notes(base, p) <==> HostMadeExact(name) in HostNotes(base.hosts, p.hosts)
    {
      FieldNotesMean(base, p, HostRemoved(name));
      FieldNotesMean(base, p, HostMadeExact(name));
    }
    forall name
      ensures HostRemoved(name) in HostNotes(base.hosts, p.hosts) <==>
                (exists i :: 0 <= i < |base.hosts| && base.hosts[i].hostname == name)
                && forall k :: 0 <= k < |p.hosts| ==> p.hosts[k].hostname != name
      ensures HostMadeExact(name) in HostNotes(base.hosts, p.hosts) <==>
                HostRule(name, true) in base.hosts
                && exists k :: 0 <= k < |p.hosts| && p.hosts[k] == HostRule(name, false)
                               && forall i :: 0 <= i < k ==> p.hosts[i].hostname != name
    {
      HostNotesMean(base.hosts, p.hosts, name);
    }
  }

  method TightenedFields(base: Profile, effective: Profile) returns (fields: seq<FieldNote>)
    ensures fields == Notes(base, effective) && AreNotesOf(base, effective, fields)
  {
    hide IsNamed, LostSubdomains, Comparisons, AreNotesOf;
    NotesMean(base, effective);
    fields := NoteHosts(base.hosts, effective.hosts);
    var table := Comparisons(base, effective);
    ghost var hostNotes := fields;
    for i := 0 to |table|
      invariant fields == hostNotes + Changed(table[..i])
    {
      assert table[..i + 1][..i] == table[..i];
      if table[i].changed {
        fields := fields + [table[i].field];
      }
    }
    assert table[..|table|] == table;
  }

  method NoteHosts(rules: seq<HostRule>, hosts: seq<HostRule>) returns (fields: seq<FieldNote>)
    ensures fields == HostNotes(rules, hosts)
  {
    fields := [];
    for i := 0 to |rules|
      invariant fields == HostNotes(rules[..i], hosts)
    {
      var rule := rules[i];
      assert rules[..i + 1][..i] == rules[..i];
      var k := FindHost(hosts, rule.hostname);
      if k.None? {
        fields := fields + [HostRemoved(rule.hostname)];
      } else if rule.includeSubdomains && !hosts[k.value].includeSubdomains {
        fields := fields + [HostMadeExact(rule.hostname)];
      }
    }
    assert rules[..|rules|] == rules;
  }

  lemma {:induction false} NothingChanged(table: seq<Comparison>)
    ensures Changed(table) == [] <==> forall i :: 0 <= i < |table| ==> !table[i].changed
  {
    if table != [] {
      NothingChanged(table[..|table| - 1]);
      assert table == table[..|table| - 1] + [table[|table| - 1]];
    }
  }

  /** No host line means that every rule is still named and kept its subdomains. */
  lemma {:induction false} NoHostNotes(rules: seq<HostRule>, hosts: seq<HostRule>)
    ensures HostNotes(rules, hosts) == [] <==>
            forall i :: 0 <= i < |rules| ==> IsNamed(rules[i].hostname, hosts) && !LostSubdomains(rules[i], hosts)
  {
    hide IsNamed, LostSubdomains;
    if rules != [] {
      var front := rules[..|rules| - 1];
      NoHostNotes(front, hosts);
      assert rules == front + [rules[|rules| - 1]];
    }
  }

  /** The report of an accepted overlay is empty exactly if the overlay changed nothing. */
  lemma ReportIsEmptyIffUnchanged(base: Profile, o: OverlayRequest)
    requires Accepts(base, o)
    ensures Notes(base, MergedProfile(base, o)) == [] <==> MergedProfile(base, o) == base
  {
    hide IsHostname;
    var p := MergedProfile(base, o);
    NothingChanged(Comparisons(base, p));
    FieldsUnchanged(base, o);
    if HostNotes(base.hosts, p.hosts) == [] {
      HostsUnchanged(base, o);
    }
    if p.hosts == base.hosts {
      NoNotesOnItself(base.hosts);
    }
  }

  lemma FieldsUnchanged(base: Profile, o: OverlayRequest)
    ensures var p := MergedProfile(base, o);
            (forall i :: 0 <= i < |Comparisons(base, p)| ==> !Comparisons(base, p)[i].changed)
            <==> p.(hosts := base.hosts) == base
  {
    var p := MergedProfile(base, o);
    var table := Comparisons(base, p);
    if forall i :: 0 <= i < |table| ==> !table[i].changed {
      assert !table[0].changed && !table[1].changed && !table[2].changed && !table[3].changed;
      assert base.sessions.Some? ==> !table[4].changed && !table[5].changed;
    }
  }

  lemma NoNotesOnItself(hosts: seq<HostRule>)
    requires DistinctHosts(hosts)
    ensures HostNotes(hosts, hosts) == []
  {
    NoHostNotes(hosts, hosts);
  }

  lemma HostsUnchanged(base: Profile, o: OverlayRequest)
    requires Accepts(base, o) && HostNotes(base.hosts, MergedHosts(base, o)) == []
    ensures MergedHosts(base, o) == base.hosts
  {
    hide IsHostname;
    var hosts := MergedHosts(base, o);
    NoHostNotes(base.hosts, hosts);
    NothingRemoved(base, o);
    forall i | 0 <= i < |base.hosts|
      ensures hosts[i] == base.hosts[i]
    {
      assert !LostSubdomains(base.hosts[i], hosts);
    }
  }

  lemma NothingRemoved(base: Profile, o: OverlayRequest)
    requires Accepts(base, o)
    requires forall i :: 0 <= i < |base.hosts| ==> IsNamed(base.hosts[i].hostname, MergedHosts(base, o))
    ensures Without(base.hosts, AsSet(o.removeHosts)) == base.hosts
  {
    hide IsHostname;
    var names := AsSet(o.removeHosts);
    var kept, hosts := Without(base.hosts, names), MergedHosts(base, o);
    WithoutMembers(base.hosts, names);
    forall i | 0 <= i < |base.hosts|
      ensures base.hosts[i].hostname !in names
    {
      var k :| 0 <= k < |hosts| && hosts[k].hostname == base.hosts[i].hostname;
      assert kept[k] in kept;
    }
    WithoutNone(base.hosts, names);
  }

  lemma {:induction false} WithoutNone(hosts: seq<HostRule>, names: set<string>)
    requires forall i :: 0 <= i < |hosts| ==> hosts[i].hostname !in names
    ensures Without(hosts, names) == hosts
  {
    if hosts != [] {
      WithoutNone(hosts[..|hosts| - 1], names);
      assert hosts == hosts[..|hosts| - 1] + [hosts[|hosts| - 1]];
    }
  }
}
