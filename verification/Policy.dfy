/**
  The effective policy: immutable built-in deny rules plus an additive user policy whose limits can
  only be lowered. Glob matching is an arbitrary relation between rules and paths.
 */
module Policy {
  import opened PathCodec
  import opened HostTree

  type Rule = string

  datatype EffectivePolicy = EffectivePolicy(
    deny: seq<Rule>,
    maxFileBytes: nat,
    maxTotalBytes: nat,
    maxFiles: nat)

  datatype UserPolicy = UserPolicy(
    schemaVersion: Option<nat>,
    deny: seq<Rule>,
    maxFileBytes: Option<nat>,
    maxTotalBytes: Option<nat>,
    maxFiles: Option<nat>)

  const DEFAULT_MAX_FILE_BYTES: nat := 64 * 1024 * 1024
  const DEFAULT_MAX_TOTAL_BYTES: nat := 2 * 1024 * 1024 * 1024
  const DEFAULT_MAX_FILES: nat := 100_000

  function DefaultPolicy(builtin: seq<Rule>): EffectivePolicy {
    EffectivePolicy(builtin, DEFAULT_MAX_FILE_BYTES, DEFAULT_MAX_TOTAL_BYTES, DEFAULT_MAX_FILES)
  }

  datatype PolicyError = UnsupportedSchema(version: nat) | InvalidRule
  datatype PolicyResult = Compiled(policy: EffectivePolicy) | Rejected(error: PolicyError)

  function Lowered(limit: nat, request: Option<nat>): nat {
    match request
    case Some(value) => if value < limit then value else limit
    case None => limit
  }

  /** The rule that a matcher reports for one path: the first of the matching rules. */
  function DeniedBy(policy: EffectivePolicy, matches: (Rule, Path) -> bool, path: Path): (r: Option<Rule>)
    ensures r.Some? ==> r.value in policy.deny && matches(r.value, path)
    ensures r.None? ==> forall rule :: rule in policy.deny ==> !matches(rule, path)
    decreases |policy.deny|
  {
    if policy.deny == [] then None
    else if matches(policy.deny[0], path) then Some(policy.deny[0])
    else DeniedBy(policy.(deny := policy.deny[1..]), matches, path)
  }

  /** Some rule matches the path itself or one of its ancestors. */
  ghost predicate Denied(policy: EffectivePolicy, matches: (Rule, Path) -> bool, path: Path) {
    exists k, rule :: 0 < k <= |path| && rule in policy.deny && matches(rule, path[..k])
  }

  /** Climb from the path to the root and report the first match. */
  method DeniedByPathOrAncestor(policy: EffectivePolicy, matches: (Rule, Path) -> bool, path: Path) returns (r: Option<Rule>)
    ensures r.Some? <==> Denied(policy, matches, path)
    ensures r.Some? ==> r.value in policy.deny && exists k :: 0 < k <= |path| && matches(r.value, path[..k])
  {
    var k := |path|;
    while k > 0
      invariant 0 <= k <= |path|
      invariant forall j, rule :: k < j <= |path| && rule in policy.deny ==> !matches(rule, path[..j])
    {
      r := DeniedBy(policy, matches, path[..k]);
      if r.Some? {
        assert matches(r.value, path[..k]);
        return;
      }
      k := k - 1;
    }
    r := None;
  }

  /** Nothing below a denied path is reachable. */
  lemma DenialIsInherited(policy: EffectivePolicy, matches: (Rule, Path) -> bool, path: Path, below: Path)
    requires Denied(policy, matches, path) && path <= below
    ensures Denied(policy, matches, below)
  {
    var k, rule :| 0 < k <= |path| && rule in policy.deny && matches(rule, path[..k]);
    assert below[..k] == path[..k];
  }

  /** The user policy, merged into the defaults. */
  method WithUserPolicy(builtin: seq<Rule>, user: UserPolicy, isGlob: Rule -> bool) returns (r: PolicyResult)
    ensures r.Compiled? <==>
              && (user.schemaVersion.None? || user.schemaVersion.value == 1)
              && (forall rule :: rule in builtin || rule in user.deny ==> isGlob(rule))
    ensures r.Compiled? ==> Tightens(DefaultPolicy(builtin), r.policy) && IsAsAsked(builtin, user, r.policy)
  {
    if user.schemaVersion.Some? && user.schemaVersion.value != 1 {
      return Rejected(UnsupportedSchema(user.schemaVersion.value));
    }
    var effective := DefaultPolicy(builtin);
    effective := effective.(deny := effective.deny + user.deny);
    effective := effective.(maxFileBytes := Lowered(effective.maxFileBytes, user.maxFileBytes));
    effective := effective.(maxTotalBytes := Lowered(effective.maxTotalBytes, user.maxTotalBytes));
    effective := effective.(maxFiles := Lowered(effective.maxFiles, user.maxFiles));
    for i := 0 to |effective.deny|
      invariant forall k :: 0 <= k < i ==> isGlob(effective.deny[k])
    {
      if !isGlob(effective.deny[i]) {
        assert effective.deny[i] in builtin || effective.deny[i] in user.deny;
        return Rejected(InvalidRule);
      }
    }
    forall rule | rule in builtin || rule in user.deny
      ensures isGlob(rule)
    {
      assert rule in effective.deny;
    }
    r := Compiled(effective);
  }

  /** Every rule is kept and no limit is raised. */
  ghost predicate Tightens(base: EffectivePolicy, policy: EffectivePolicy) {
    && (forall rule :: rule in base.deny ==> rule in policy.deny)
    && policy.maxFileBytes <= base.maxFileBytes
    && policy.maxTotalBytes <= base.maxTotalBytes
    && policy.maxFiles <= base.maxFiles
  }

  /** Exactly the built-in and the requested rules, and each limit is the lower of the default (64 MiB a file,
      2 GiB in all, 100000 files) and the requested one. */
  ghost predicate IsAsAsked(builtin: seq<Rule>, user: UserPolicy, policy: EffectivePolicy) {
    && (forall rule :: rule in policy.deny <==> rule in builtin || rule in user.deny)
    && IsLower(policy.maxFileBytes, 67_108_864, user.maxFileBytes)
    && IsLower(policy.maxTotalBytes, 2_147_483_648, user.maxTotalBytes)
    && IsLower(policy.maxFiles, 100_000, user.maxFiles)
  }

  ghost predicate IsLower(limit: nat, ceiling: nat, request: Option<nat>) {
    && limit <= ceiling && (request.Some? ==> limit <= request.value)
    && (limit == ceiling || request == Some(limit))
  }

  /** What the built-in rules deny stays denied under every policy that tightens them. */
  lemma TighteningKeepsDenials(base: EffectivePolicy, policy: EffectivePolicy, matches: (Rule, Path) -> bool, path: Path)
    requires Tightens(base, policy) && Denied(base, matches, path)
    ensures Denied(policy, matches, path)
  {
    var k, rule :| 0 < k <= |path| && rule in base.deny && matches(rule, path[..k]);
    assert rule in policy.deny;
  }
}
