/** Workspace policies: restrictions only narrow, whatever is asked of the policy that results. */
module Policy {
  import opened Wrappers

  datatype ProfileName = Observe | Develop | Trusted

  datatype NetworkMode = Deny | Localhost | Allowlist | Unrestricted

  datatype RuntimePolicy = RuntimePolicy(
    name: ProfileName,
    allowWrite: bool,
    allowProcess: bool,
    allowDynamicExecutables: bool,
    network: NetworkMode,
    allowedExecutableNames: seq<string>,
    envAllowlist: seq<string>
  )

  datatype PolicyError = Escalation

  function ProfileRank(name: ProfileName): nat
  {
    match name
    case Observe => 0
    case Develop => 1
    case Trusted => 2
  }

  function NetworkRank(mode: NetworkMode): nat
  {
    match mode
    case Deny => 0
    case Localhost => 1
    case Allowlist => 2
    case Unrestricted => 3
  }

  predicate IsSubset(candidate: seq<string>, current: seq<string>)
  {
    candidate == [] || (candidate[0] in current && IsSubset(candidate[1..], current))
  }

  function RestrictPolicy(current: RuntimePolicy, restriction: RuntimePolicy): Result<RuntimePolicy, PolicyError>
  {
    if || ProfileRank(restriction.name) > ProfileRank(current.name)
       || (!current.allowWrite && restriction.allowWrite)
       || (!current.allowProcess && restriction.allowProcess)
       || (!current.allowDynamicExecutables && restriction.allowDynamicExecutables)
       || NetworkRank(restriction.network) > NetworkRank(current.network)
       || !IsSubset(restriction.allowedExecutableNames, current.allowedExecutableNames)
       || !IsSubset(restriction.envAllowlist, current.envAllowlist)
    then Err(Escalation)
    else Ok(restriction)
  }

  // ------------------------------------------------------------ what a policy is asked

  datatype ProcessError = PolicyDenied | ExecutableDenied | EnvironmentDenied

  datatype LaunchRequest = LaunchRequest(logicalExecutable: string, env: map<string, string>)

  datatype WorkspaceAccess = ReadOnly | ReadWrite

  datatype GitMetadataAccess = NoMetadata | MetadataReadOnly | MetadataReadWrite

  predicate ExecutableAdmitted(policy: RuntimePolicy, logicalExecutable: string)
  {
    || logicalExecutable in policy.allowedExecutableNames
    || (policy.allowDynamicExecutables && logicalExecutable !in ["bash", "sh"])
  }

  predicate EnvironmentAdmitted(policy: RuntimePolicy, env: map<string, string>)
  {
    && (forall key :: key in env ==>
          && key in policy.envAllowlist
          && key !in ["HOME", "PATH", "TMPDIR", "PWD"]
          && '=' !in key && '\0' !in key)
    && (forall key :: key in env ==> '\0' !in env[key])
  }

  function ValidatePolicy(policy: RuntimePolicy, request: LaunchRequest): Result<(), ProcessError>
  {
    if !policy.allowProcess || policy.name == Observe then Err(PolicyDenied)
    else if !ExecutableAdmitted(policy, request.logicalExecutable) then Err(ExecutableDenied)
    else if !EnvironmentAdmitted(policy, request.env) then Err(EnvironmentDenied)
    else Ok(())
  }

  function WorkspaceAccessOf(policy: RuntimePolicy): WorkspaceAccess
  {
    if policy.allowWrite && policy.name != Observe then ReadWrite else ReadOnly
  }

  function GitMetadataAccessOf(policy: RuntimePolicy): GitMetadataAccess
  {
    match (policy.name, policy.allowWrite)
    case (Trusted, true) => MetadataReadWrite
    case (Trusted, false) => MetadataReadOnly
    case _ => NoMetadata
  }

  predicate MutationAllowed(policy: RuntimePolicy) { policy.allowWrite && policy.name != Observe }

  predicate GitMutationAllowed(policy: RuntimePolicy) { !(policy.name != Trusted || !policy.allowWrite) }

  predicate GitRemoteAllowed(policy: RuntimePolicy)
  {
    !(policy.name != Trusted || !policy.allowWrite || policy.network != Unrestricted)
  }

  function MetadataRank(access: GitMetadataAccess): nat
  {
    match access
    case NoMetadata => 0
    case MetadataReadOnly => 1
    case MetadataReadWrite => 2
  }

  /** The programs a trusted launch may bring along. */
  const AUXILIARIES: seq<string> := ["node", "npm", "npx", "pnpm", "cargo", "rustc"]

  /** What a launch may have mounted besides its program. */
  datatype Mount = AuxiliaryMount(name: string) | CargoHomeMount | DeveloperMount

  predicate MountAllowed(policy: RuntimePolicy, m: Mount)
  {
    match m
    case AuxiliaryMount(name) =>
      && policy.name == Trusted && name in AUXILIARIES
      && (policy.allowDynamicExecutables || name in policy.allowedExecutableNames)
    case CargoHomeMount =>
      && policy.name == Trusted
      && (policy.allowDynamicExecutables || "cargo" in policy.allowedExecutableNames
          || "rustc" in policy.allowedExecutableNames)
    case DeveloperMount => policy.allowDynamicExecutables
  }

  /**
   Everything a policy is asked to allow. Network, access, git metadata and mounts are read only for a launch, and only
   once the launch itself was validated.
   */
  datatype Demand =
    | Launch(request: LaunchRequest, network: NetworkMode, access: WorkspaceAccess, metadata: GitMetadataAccess)
    | LaunchWith(request: LaunchRequest, mount: Mount)
    | FileMutation
    | GitMutation
    | GitRemoteMutation

  predicate Granted(policy: RuntimePolicy, d: Demand)
  {
    match d
    case Launch(request, network, access, metadata) =>
      && ValidatePolicy(policy, request).Ok?
      && NetworkRank(network) <= NetworkRank(policy.network)
      && (access.ReadWrite? ==> WorkspaceAccessOf(policy).ReadWrite?)
      && MetadataRank(metadata) <= MetadataRank(GitMetadataAccessOf(policy))
    case LaunchWith(request, mount) => ValidatePolicy(policy, request).Ok? && MountAllowed(policy, mount)
    case FileMutation => MutationAllowed(policy)
    case GitMutation => GitMutationAllowed(policy)
    case GitRemoteMutation => GitRemoteAllowed(policy)
  }

  // ------------------------------------------------------------ chains of restrictions

  /** A workspace's policy: restricted only while it is opening. */
  datatype Context = Context(effective: RuntimePolicy, ready: bool)

  datatype Request = Restrict(restriction: RuntimePolicy) | Activate

  datatype Answer = Accepted | NotReady | PolicyEscalation

  function Serve(c: Context, r: Request): (Context, Answer)
  {
    if c.ready then (c, NotReady)
    else match r
      case Activate => (c.(ready := true), Accepted)
      case Restrict(restriction) =>
        match RestrictPolicy(c.effective, restriction)
        case Err(_) => (c, PolicyEscalation)
        case Ok(next) => (c.(effective := next), Accepted)
  }

  function ServeAll(c: Context, requests: seq<Request>): Context
    decreases |requests|
  {
    if requests == [] then c else ServeAll(Serve(c, requests[0]).0, requests[1..])
  }

  lemma {:induction false} SubsetContains(candidate: seq<string>, current: seq<string>, x: string)
    requires IsSubset(candidate, current) && x in candidate
    ensures x in current
    decreases |candidate|
  {
    if x != candidate[0] { SubsetContains(candidate[1..], current, x); }
  }

  /** The order and repetition of names do not matter: the check is set inclusion. */
  lemma {:induction false} SubsetExactly(candidate: seq<string>, current: seq<string>)
    ensures IsSubset(candidate, current) <==> (set x | x in candidate) <= (set x | x in current)
    decreases |candidate|
  {
    if candidate != [] {
      SubsetExactly(candidate[1..], current);
      assert (set x | x in candidate) == {candidate[0]} + (set x | x in candidate[1..]);
    }
  }

  lemma {:induction false} NotSubset(candidate: seq<string>, current: seq<string>) returns (x: string)
    requires !IsSubset(candidate, current)
    ensures x in candidate && x !in current
    decreases |candidate|
  {
    if candidate[0] !in current { x := candidate[0]; } else { x := NotSubset(candidate[1..], current); }
  }

  lemma {:induction false} SubsetByElements(candidate: seq<string>, current: seq<string>)
    ensures IsSubset(candidate, current) <==> forall x :: x in candidate ==> x in current
  {
    if IsSubset(candidate, current) {
      forall x | x in candidate ensures x in current { SubsetContains(candidate, current, x); }
    } else {
      var x := NotSubset(candidate, current);
    }
    hide IsSubset;
  }

  // ------------------------------------------------------------ one policy within another

  predicate Usable(key: string) { key !in ["HOME", "PATH", "TMPDIR", "PWD"] && '=' !in key && '\0' !in key }

  /** Whether some launch is allowed. */
  predicate Launches(p: RuntimePolicy)
  {
    p.allowProcess && p.name != Observe && (p.allowDynamicExecutables || p.allowedExecutableNames != [])
  }

  /** The settings of `restriction` that some demand can tell are within those of `current`. */
  predicate Within(current: RuntimePolicy, restriction: RuntimePolicy)
  {
    MutationsWithin(current, restriction) && (Launches(restriction) ==> LaunchesWithin(current, restriction))
  }

  predicate MutationsWithin(current: RuntimePolicy, restriction: RuntimePolicy)
  {
    && (MutationAllowed(restriction) ==> MutationAllowed(current))
    && (GitMutationAllowed(restriction) ==> GitMutationAllowed(current))
    && (GitRemoteAllowed(restriction) ==> GitRemoteAllowed(current))
  }

  predicate LaunchesWithin(current: RuntimePolicy, restriction: RuntimePolicy)
  {
    && RanksPass(current, restriction)
    && (forall x :: x in restriction.allowedExecutableNames ==> ExecutableAdmitted(current, x))
    && forall key :: key in restriction.envAllowlist && Usable(key) ==> key in current.envAllowlist
  }

  /** Every check but those on the two lists. */
  predicate RanksPass(current: RuntimePolicy, restriction: RuntimePolicy)
  {
    && ProfileRank(restriction.name) <= ProfileRank(current.name)
    && (restriction.allowWrite ==> current.allowWrite)
    && (restriction.allowProcess ==> current.allowProcess)
    && (restriction.allowDynamicExecutables ==> current.allowDynamicExecutables)
    && NetworkRank(restriction.network) <= NetworkRank(current.network)
  }

  lemma {:induction false} WithinWhenAccepted(current: RuntimePolicy, restriction: RuntimePolicy)
    requires RestrictPolicy(current, restriction).Ok?
    ensures Within(current, restriction)
  {
    SubsetByElements(restriction.allowedExecutableNames, current.allowedExecutableNames);
    SubsetByElements(restriction.envAllowlist, current.envAllowlist);
    hide IsSubset;
  }

  lemma {:induction false} WithinGrants(current: RuntimePolicy, restriction: RuntimePolicy, d: Demand)
    requires Within(current, restriction) && Granted(restriction, d)
    ensures Granted(current, d)
  {
    if d.Launch? || d.LaunchWith? {
      assert Launches(restriction) && LaunchesWithin(current, restriction);
      forall key | key in d.request.env ensures key in current.envAllowlist { assert Usable(key); }
      if d.LaunchWith? { MountWithin(current, restriction, d.mount); }
    }
  }

  lemma {:induction false} MountWithin(current: RuntimePolicy, restriction: RuntimePolicy, m: Mount)
    requires LaunchesWithin(current, restriction) && MountAllowed(restriction, m)
    ensures MountAllowed(current, m)
  {
    assert forall name :: name in AUXILIARIES ==> name !in ["bash", "sh"];
    assert "cargo" in AUXILIARIES && "rustc" in AUXILIARIES;
  }

  /** An accepted restriction grants nothing new, whatever is asked. */
  lemma {:induction false} RestrictionNarrows(current: RuntimePolicy, restriction: RuntimePolicy, d: Demand)
    requires RestrictPolicy(current, restriction).Ok?
    ensures Granted(RestrictPolicy(current, restriction).value, d) ==> Granted(current, d)
  {
    if Granted(restriction, d) {
      WithinWhenAccepted(current, restriction);
      WithinGrants(current, restriction, d);
    }
  }

  /** Nor does it call an executable available that the current policy does not. */
  lemma {:induction false} AvailabilityNarrows(current: RuntimePolicy, restriction: RuntimePolicy, name: string)
    requires RestrictPolicy(current, restriction).Ok? && ExecutableAdmitted(restriction, name)
    ensures ExecutableAdmitted(current, name)
  {
    SubsetByElements(restriction.allowedExecutableNames, current.allowedExecutableNames);
    hide IsSubset;
  }

  /** After any sequence of restrictions and activations, accepted or not, the ceiling grants all that is granted. */
  lemma {:induction false} ChainsNarrow(c: Context, requests: seq<Request>, d: Demand)
    requires Granted(ServeAll(c, requests).effective, d)
    ensures Granted(c.effective, d)
    decreases |requests|
  {
    if requests != [] {
      var next := Serve(c, requests[0]).0;
      ChainsNarrow(next, requests[1..], d);
      if !c.ready && requests[0].Restrict? && next != c {
        RestrictionNarrows(c.effective, requests[0].restriction, d);
      }
    }
  }

  lemma {:induction false} SubsetTransitive(a: seq<string>, b: seq<string>, c: seq<string>)
    requires IsSubset(a, b) && IsSubset(b, c)
    ensures IsSubset(a, c)
    decreases |a|
  {
    if a != [] {
      SubsetContains(b, c, a[0]);
      SubsetTransitive(a[1..], b, c);
    }
  }

  /**
   Restricting in two steps is never more permissive than restricting at once: what a chain accepts its ceiling
   accepts.
   */
  lemma {:induction false} RestrictTransitive(a: RuntimePolicy, b: RuntimePolicy, c: RuntimePolicy)
    requires RestrictPolicy(a, b).Ok? && RestrictPolicy(b, c).Ok?
    ensures RestrictPolicy(a, c) == Ok(c)
  {
    SubsetTransitive(c.allowedExecutableNames, b.allowedExecutableNames, a.allowedExecutableNames);
    SubsetTransitive(c.envAllowlist, b.envAllowlist, a.envAllowlist);
  }

  lemma {:induction false} RestrictReflexive(a: RuntimePolicy)
    ensures RestrictPolicy(a, a) == Ok(a)
  {
    SubsetExactly(a.allowedExecutableNames, a.allowedExecutableNames);
    SubsetExactly(a.envAllowlist, a.envAllowlist);
  }

  /** The policy in force is always one its ceiling would accept in a single step. */
  lemma {:induction false} EffectiveIsAccepted(c: Context, requests: seq<Request>)
    ensures RestrictPolicy(c.effective, ServeAll(c, requests).effective) == Ok(ServeAll(c, requests).effective)
    decreases |requests|
  {
    if requests == [] {
      RestrictReflexive(c.effective);
    } else {
      var next := Serve(c, requests[0]).0;
      EffectiveIsAccepted(next, requests[1..]);
      if next.effective != c.effective {
        RestrictTransitive(c.effective, next.effective, ServeAll(c, requests).effective);
      }
    }
  }

  /** Once ready, a workspace keeps its policy. */
  lemma {:induction false} ReadyIsFrozen(c: Context, requests: seq<Request>)
    requires c.ready
    ensures ServeAll(c, requests) == c
    decreases |requests|
  {
    if requests != [] { ReadyIsFrozen(c, requests[1..]); }
  }

  /** The first activation settles the policy: whatever is asked before it is served, and nothing after. */
  lemma {:induction false} FrozenByActivation(c: Context, before: seq<Request>, after: seq<Request>)
    requires !c.ready && Activate !in before
    ensures ServeAll(c, before + [Activate] + after) == ServeAll(c, before).(ready := true)
    ensures !ServeAll(c, before).ready
    decreases |before|
  {
    var all := before + [Activate] + after;
    if before == [] {
      assert all[0] == Activate && all[1..] == after;
      ReadyIsFrozen(c.(ready := true), after);
    } else {
      assert all[0] == before[0] && all[1..] == before[1..] + [Activate] + after;
      FrozenByActivation(Serve(c, before[0]).0, before[1..], after);
    }
  }

  // ------------------------------------------------------------ is every refusal needed

  ghost predicate Wider(current: RuntimePolicy, restriction: RuntimePolicy)
  {
    exists d :: Granted(restriction, d) && !Granted(current, d)
  }

  /** Some name of at least `n` characters is missing from any list. */
  lemma {:induction false} UnlistedName(names: seq<string>, n: nat) returns (x: string)
    ensures x !in names && |x| >= n
    decreases |names|
  {
    if names == [] {
      x := seq(n, _ => 'x');
    } else {
      x := UnlistedName(names[1..], n + |names[0]| + 1);
      assert names == [names[0]] + names[1..];
    }
  }

  /**
   For any two policies: the second grants something new exactly when a setting it can use is not within the first.
   */
  lemma {:induction false} WiderExactly(current: RuntimePolicy, restriction: RuntimePolicy)
    ensures !Wider(current, restriction) <==> Within(current, restriction)
  {
    if Within(current, restriction) {
      forall d | Granted(restriction, d) ensures Granted(current, d) { WithinGrants(current, restriction, d); }
    } else {
      OutsideIsWider(current, restriction);
    }
  }

  lemma {:induction false} OutsideIsWider(current: RuntimePolicy, restriction: RuntimePolicy)
    requires !Within(current, restriction)
    ensures Wider(current, restriction)
  {
    if MutationAllowed(restriction) && !MutationAllowed(current) {
      Tell(current, restriction, FileMutation);
    } else if GitMutationAllowed(restriction) && !GitMutationAllowed(current) {
      Tell(current, restriction, GitMutation);
    } else if GitRemoteAllowed(restriction) && !GitRemoteAllowed(current) {
      Tell(current, restriction, GitRemoteMutation);
    } else if !RanksPass(current, restriction) {
      RanksTell(current, restriction);
    } else {
      ListsTell(current, restriction);
    }
  }

  /** A launch shows its network, its access to the workspace and to git's metadata. */
  lemma {:induction false} RanksTell(current: RuntimePolicy, restriction: RuntimePolicy)
    requires Launches(restriction) && !RanksPass(current, restriction)
    ensures Wider(current, restriction)
  {
    var some := SomeExecutable(restriction);
    var request := LaunchRequest(some, map[]);
    if restriction.allowDynamicExecutables && !current.allowDynamicExecutables {
      var other := UnlistedName(current.allowedExecutableNames, 5);
      Tell(current, restriction, Launch(LaunchRequest(other, map[]), Deny, ReadOnly, NoMetadata));
    } else {
      Tell(current, restriction,
           Launch(request, restriction.network, WorkspaceAccessOf(restriction), GitMetadataAccessOf(restriction)));
    }
  }

  lemma {:induction false} ListsTell(current: RuntimePolicy, restriction: RuntimePolicy)
    requires Launches(restriction) && RanksPass(current, restriction) && !LaunchesWithin(current, restriction)
    ensures Wider(current, restriction)
  {
    var some := SomeExecutable(restriction);
    if x :| x in restriction.allowedExecutableNames && !ExecutableAdmitted(current, x) {
      Tell(current, restriction, Launch(LaunchRequest(x, map[]), Deny, ReadOnly, NoMetadata));
    } else {
      var key :| key in restriction.envAllowlist && Usable(key) && key !in current.envAllowlist;
      Tell(current, restriction, Launch(LaunchRequest(some, map[key := ""]), Deny, ReadOnly, NoMetadata));
    }
  }

  lemma {:induction false} SomeExecutable(p: RuntimePolicy) returns (x: string)
    requires Launches(p)
    ensures ExecutableAdmitted(p, x)
  {
    if p.allowedExecutableNames != [] { x := p.allowedExecutableNames[0]; } else { x := UnlistedName([], 5); }
  }

  lemma {:induction false} Tell(current: RuntimePolicy, restriction: RuntimePolicy, d: Demand)
    requires Granted(restriction, d) && !Granted(current, d)
    ensures Wider(current, restriction)
  {
  }

  /** A restriction that can launch is accepted exactly when it grants nothing new and lists nothing unlisted. */
  lemma {:induction false} AcceptedExactlyWhenNarrower(current: RuntimePolicy, restriction: RuntimePolicy)
    requires Launches(restriction)
    ensures RestrictPolicy(current, restriction).Ok?
            <==> && !Wider(current, restriction)
                 && IsSubset(restriction.allowedExecutableNames, current.allowedExecutableNames)
                 && IsSubset(restriction.envAllowlist, current.envAllowlist)
  {
    WiderExactly(current, restriction);
    SubsetByElements(restriction.allowedExecutableNames, current.allowedExecutableNames);
    SubsetByElements(restriction.envAllowlist, current.envAllowlist);
    hide IsSubset, Wider, Granted;
  }

  /**
   A restriction that can launch, under any ceiling, is refused although it grants nothing new exactly when only its
   lists refuse it, each unlisted executable is one the ceiling admits dynamically, and no launch may set an unlisted
   variable.
   */
  lemma {:induction false} NeedlessRefusalExactly(current: RuntimePolicy, restriction: RuntimePolicy)
    requires Launches(restriction)
    ensures RestrictPolicy(current, restriction).Err? && !Wider(current, restriction)
            <==> && RanksPass(current, restriction)
                 && (forall x :: x in restriction.allowedExecutableNames && x !in current.allowedExecutableNames ==>
                                   current.allowDynamicExecutables && x !in ["bash", "sh"])
                 && (forall key :: key in restriction.envAllowlist && key !in current.envAllowlist ==> !Usable(key))
                 && !(IsSubset(restriction.allowedExecutableNames, current.allowedExecutableNames)
                      && IsSubset(restriction.envAllowlist, current.envAllowlist))
  {
    WiderExactly(current, restriction);
    SubsetByElements(restriction.allowedExecutableNames, current.allowedExecutableNames);
    SubsetByElements(restriction.envAllowlist, current.envAllowlist);
    hide IsSubset, Wider, Granted;
  }

  /**
   A restriction that cannot launch, because it is `Observe`, allows no process or admits nothing, is refused although
   it grants nothing new exactly when it is refused and what it may mutate is within the current policy. An `Observe`
   one never grants anything, so every refusal of one is needless.
   */
  lemma {:induction false} IdleRefusalExactly(current: RuntimePolicy, restriction: RuntimePolicy)
    requires !Launches(restriction)
    ensures RestrictPolicy(current, restriction).Err? && !Wider(current, restriction)
            <==> RestrictPolicy(current, restriction).Err? && MutationsWithin(current, restriction)
    ensures restriction.name == Observe ==> !Wider(current, restriction)
  {
    WiderExactly(current, restriction);
    hide IsSubset, Wider, Granted;
  }

  /** Naming an executable that a dynamic ceiling would admit is refused. */
  lemma {:induction false} DynamicCeilingRefusesHarmlessName(current: RuntimePolicy, restriction: RuntimePolicy)
    requires current == RuntimePolicy(Trusted, true, true, true, Unrestricted, [], [])
    requires restriction == current.(allowedExecutableNames := ["cargo"])
    ensures RestrictPolicy(current, restriction) == Err(Escalation) && !Wider(current, restriction)
  {
    NeedlessRefusalExactly(current, restriction);
    assert "cargo" in restriction.allowedExecutableNames && "cargo" !in current.allowedExecutableNames;
    assert "cargo"[0] != "bash"[0] && "cargo"[0] != "sh"[0];
    hide Wider, Granted;
  }

  /** So is listing a variable that no launch may set. */
  lemma {:induction false} UnusableVariableIsRefused(current: RuntimePolicy, restriction: RuntimePolicy)
    requires current == RuntimePolicy(Develop, true, true, false, Deny, ["git"], [])
    requires restriction == current.(envAllowlist := ["HOME"])
    ensures RestrictPolicy(current, restriction) == Err(Escalation) && !Wider(current, restriction)
  {
    NeedlessRefusalExactly(current, restriction);
    assert "HOME" in restriction.envAllowlist && "HOME" !in current.envAllowlist && !Usable("HOME");
    hide Wider, Granted;
  }

  /** And so is a network for a policy that reaches none. */
  lemma {:induction false} IdleNetworkIsRefused(current: RuntimePolicy, restriction: RuntimePolicy)
    requires current == RuntimePolicy(Observe, false, false, false, Deny, [], [])
    requires restriction == current.(network := Unrestricted)
    ensures RestrictPolicy(current, restriction) == Err(Escalation) && !Wider(current, restriction)
  {
    IdleRefusalExactly(current, restriction);
    hide Wider, Granted;
  }

  // ------------------------------------------------------------ the gates, setting by setting

  /** The file gate asks for a writing policy above `Observe`, git's for a trusted one, the remote's for the network. */
  lemma {:induction false} GatesExactly(p: RuntimePolicy)
    ensures Granted(p, FileMutation) <==> p.allowWrite && p.name in {Develop, Trusted}
    ensures Granted(p, GitMutation) <==> Granted(p, FileMutation) && p.name == Trusted
    ensures Granted(p, GitRemoteMutation) <==> Granted(p, GitMutation) && p.network == Unrestricted
    ensures p.name == Observe ==> forall d :: !Granted(p, d)
  {
    if p.name == Observe {
      forall d ensures !Granted(p, d) {
      }
    }
  }

  /** A launch's program and environment are admitted for exactly these settings, and refused for the first missing. */
  lemma {:induction false} LaunchesExactly(p: RuntimePolicy, program: string, env: map<string, string>)
    ensures var answer := ValidatePolicy(p, LaunchRequest(program, env));
            var process := p.allowProcess && p.name in {Develop, Trusted};
            var listed := program in p.allowedExecutableNames
                          || (p.allowDynamicExecutables && program != "bash" && program != "sh");
            var settable := forall key :: key in env.Keys ==>
                              && key in p.envAllowlist && key !in {"HOME", "PATH", "TMPDIR", "PWD"}
                              && '=' !in key && '\0' !in key + env[key];
            && (answer.Ok? <==> process && listed && settable)
            && (answer == Err(PolicyDenied) <==> !process)
            && (answer == Err(ExecutableDenied) <==> process && !listed)
  {
    forall key | key in env.Keys ensures '\0' in key + env[key] <==> '\0' in key || '\0' in env[key] {
    }
  }

  /** A validated launch reaches what the gates would let it change, and no network above the policy's. */
  lemma {:induction false} LaunchReachesExactly(p: RuntimePolicy, request: LaunchRequest, network: NetworkMode,
                                                access: WorkspaceAccess, metadata: GitMetadataAccess)
    requires ValidatePolicy(p, request).Ok?
    ensures Granted(p, Launch(request, network, access, metadata))
            <==> && (access == ReadWrite ==> Granted(p, FileMutation))
                 && (metadata == MetadataReadWrite ==> Granted(p, GitMutation))
                 && (metadata == MetadataReadOnly ==> p.name == Trusted)
                 && network in match p.network {
                      case Deny => {Deny}
                      case Localhost => {Deny, Localhost}
                      case Allowlist => {Deny, Localhost, Allowlist}
                      case Unrestricted => {Deny, Localhost, Allowlist, Unrestricted}
                    }
  {
    hide ValidatePolicy;
  }

  /** Where one launch is valid another of an admitted program is. */
  lemma {:induction false} AdmitsExactly(p: RuntimePolicy, request: LaunchRequest, program: string)
    requires ValidatePolicy(p, request).Ok?
    ensures ValidatePolicy(p, LaunchRequest(program, map[])).Ok?
            <==> || program in p.allowedExecutableNames
                 || (p.allowDynamicExecutables && program !in {"bash", "sh"})
  {
    hide IsSubset;
  }

  /** An auxiliary is mounted for a trusted launch exactly when the policy would launch it by itself. */
  lemma {:induction false} MountsExactly(p: RuntimePolicy, request: LaunchRequest, name: string)
    requires ValidatePolicy(p, request).Ok?
    ensures Granted(p, LaunchWith(request, AuxiliaryMount(name)))
            <==> && p.name == Trusted && name in {"node", "npm", "npx", "pnpm", "cargo", "rustc"}
                 && ValidatePolicy(p, LaunchRequest(name, map[])).Ok?
    ensures Granted(p, LaunchWith(request, CargoHomeMount))
            <==> p.name == Trusted && exists tool :: tool in {"cargo", "rustc"}
                                                     && ValidatePolicy(p, LaunchRequest(tool, map[])).Ok?
    ensures Granted(p, LaunchWith(request, DeveloperMount))
            <==> forall tool :: tool !in {"bash", "sh"} ==> ValidatePolicy(p, LaunchRequest(tool, map[])).Ok?
  {
    assert forall tool :: tool in AUXILIARIES ==> tool !in {"bash", "sh"};
    assert "cargo" in AUXILIARIES && "rustc" in AUXILIARIES;
    AdmitsExactly(p, request, name);
    AdmitsExactly(p, request, "cargo");
    AdmitsExactly(p, request, "rustc");
    var other := UnlistedName(p.allowedExecutableNames, 5);
    AdmitsExactly(p, request, other);
    if p.allowDynamicExecutables {
      forall tool | tool !in {"bash", "sh"} ensures ValidatePolicy(p, LaunchRequest(tool, map[])).Ok? {
        AdmitsExactly(p, request, tool);
      }
    }
    hide ValidatePolicy;
  }

  // ------------------------------------------------------------ what the sandbox adds

  /** The sandbox has no way to give a child a middle network, and refuses to start it. */
  predicate Spawnable(mode: NetworkMode) { mode == Deny || mode == Unrestricted }

  /** A launch that is allowed and that the sandbox starts. */
  predicate Starts(policy: RuntimePolicy, request: LaunchRequest)
  {
    ValidatePolicy(policy, request).Ok? && Spawnable(policy.network)
  }

  ghost predicate StartsMore(current: RuntimePolicy, restriction: RuntimePolicy)
  {
    exists request :: Starts(restriction, request) && !Starts(current, request)
  }

  /**
   An accepted restriction starts something that did not start exactly when it denies a middle network to launches.
   */
  lemma {:induction false} StartsMoreExactly(current: RuntimePolicy, restriction: RuntimePolicy)
    requires RestrictPolicy(current, restriction).Ok?
    ensures StartsMore(current, restriction)
            <==> Launches(restriction) && restriction.network == Deny && !Spawnable(current.network)
  {
    if Launches(restriction) && restriction.network == Deny && !Spawnable(current.network) {
      var some := SomeExecutable(restriction);
      assert Starts(restriction, LaunchRequest(some, map[])) && !Starts(current, LaunchRequest(some, map[]));
    }
    if request :| Starts(restriction, request) && !Starts(current, request) {
      RestrictionNarrows(current, restriction, Launch(request, Deny, ReadOnly, NoMetadata));
      assert Launches(restriction);
    }
  }
}
