/** The module spec and its validator (src/module_spec.rs). */
module ModuleSpec {
  import opened Options
  import opened Decimal
  import opened Systemd

  const U32_MAX: nat := 0xFFFF_FFFF
  const MAX_DNS_LABEL_LEN: nat := 63
  const MAX_CONTAINER_NAME_LEN: nat := 255

  type U32 = n: nat | n <= U32_MAX
  type U64 = n: nat | n <= U64_MAX

  datatype ArtifactKind = NativeBinary | ComposeBundle | StaticAssets | ContainerImage

  datatype Target = NetworkOnline | MultiUser

  datatype RestartPolicy = Always

  datatype RunAs = Root

  datatype Group = Adm | SecurityVfio

  datatype Capability = NetRaw | NetAdmin

  datatype MemlockLimit = Infinity

  datatype ProfileName = RootProfile | Replay | AfPacket | Dpdk

  datatype RenderVar =
    | ArtifactPath | ConfigPath | DataDir | InstanceId | Hostname | Domain
    | CertPath | KeyPath | CaBundlePath | ManagerEndpoint | MainPidVar

  datatype Arg = Literal(text: string) | Var(v: RenderVar)

  datatype Profile = Profile(
    name: ProfileName, runAs: Option<RunAs>, capabilities: seq<Capability>,
    limitMemlock: Option<MemlockLimit>, groups: seq<Group>)

  datatype UnitTemplate = UnitTemplate(
    description: string, after: seq<Target>, wants: seq<Target>, wantedBy: seq<Target>,
    execStart: seq<Arg>, execReload: Option<seq<Arg>>, workingDirectory: Option<Arg>,
    environment: seq<(string, Arg)>, restart: RestartPolicy, restartSec: U32, limitNofile: Option<U64>,
    runAs: Option<RunAs>, groups: seq<Group>, protectHome: bool, privateTmp: bool, noNewPrivileges: bool,
    profiles: seq<Profile>)

  datatype Reload = Sighup(processPath: string) | DockerSighup(container: string)

  datatype Registration = Registration(
    packageId: string, serviceName: string, reload: Reload, certGroupGid: Option<U32>)

  datatype PlacementClass = CoreHosts | ModuleHosts

  datatype Spec = Spec(unit: Option<UnitTemplate>, registration: Registration, placement: PlacementClass)

  datatype SpecError =
    | MissingUnit(kind: ArtifactKind)
    | UnexpectedUnit(kind: ArtifactKind)
    | EmptyDescription
    | UnrepresentableDescription(text: string)
    | EmptyLiteral
    | UnrepresentableLiteral(text: string)
    | InvalidEnvironmentKey(key: string)
    | EmptyExecStart
    | ExecStartNotArtifactPath
    | EmptyExecReload
    | ZeroLimitNofile
    | InfiniteLimitNofile
    | DuplicateSupplementaryGroup(group: Group)
    | SupplementaryGroupsWithRunAs
    | MainPidOutsideExecReload
    | SecurityVfioOutsideProfile
    | PrivilegeProfilesWithRunAs
    | PrivilegeProfilesWithSupplementaryGroups
    | DuplicatePrivilegeProfile(profile: ProfileName)
    | RunAsMismatchesProfileName(profile: ProfileName)
    | PrivilegesInRootProfile(profile: ProfileName)
    | DuplicateProfileCapability(profile: ProfileName, capability: Capability)
    | DuplicateProfileSupplementaryGroup(profile: ProfileName, group: Group)
    | PackageIdMismatch(packageId: string, component: string)
    | InvalidServiceName(name: string)
    | InvalidProcessPath(path: string)
    | InvalidContainerName(name: string)

  // ---- what a valid spec is, rule by rule and in no order ----

  predicate IsLetter(c: char) { 'A' <= c <= 'Z' || 'a' <= c <= 'z' }

  predicate IsEnvironmentKey(key: string) {
    && key != "" && (IsLetter(key[0]) || key[0] == '_')
    && forall i :: 1 <= i < |key| ==> IsLetter(key[i]) || IsDigit(key[i]) || key[i] == '_'
  }

  predicate IsDnsLabel(value: string) {
    && value != "" && |value| <= MAX_DNS_LABEL_LEN && value[0] != '-' && value[|value| - 1] != '-'
    && forall i :: 0 <= i < |value| ==> 'a' <= value[i] <= 'z' || IsDigit(value[i]) || value[i] == '-'
  }

  predicate IsAbsoluteProcessPath(value: string) {
    value != "" && value[0] == '/' && forall i :: 0 <= i < |value| ==> '!' <= value[i] <= '~'
  }

  predicate IsContainerName(value: string) {
    && 0 < |value| <= MAX_CONTAINER_NAME_LEN && (IsLetter(value[0]) || IsDigit(value[0]))
    && forall i :: 1 <= i < |value| ==> IsLetter(value[i]) || IsDigit(value[i]) || value[i] in {'_', '.', '-'}
  }

  predicate IsValidArg(arg: Arg, mainPidAllowed: bool) {
    match arg
    case Literal(text) => IsRepresentable(text)
    case Var(v) => v != MainPidVar || mainPidAllowed
  }

  predicate Distinct<T(==)>(xs: seq<T>) { forall i, j :: 0 <= i < j < |xs| ==> xs[i] != xs[j] }

  predicate IsValidProfile(p: Profile) {
    && (p.name == RootProfile <==> p.runAs == Some(Root))
    && (p.runAs.Some? ==> p.capabilities == [] && p.limitMemlock == None && p.groups == [])
    && Distinct(p.capabilities) && Distinct(p.groups)
  }

  function ProfileNames(profiles: seq<Profile>): (names: seq<ProfileName>)
    ensures |names| == |profiles| && forall i :: 0 <= i < |profiles| ==> names[i] == profiles[i].name
  {
    seq(|profiles|, i requires 0 <= i < |profiles| => profiles[i].name)
  }

  predicate AreValidProfiles(unit: UnitTemplate) {
    && SecurityVfio !in unit.groups
    && (unit.profiles == []
        || (&& unit.runAs == None && unit.groups == [] && Distinct(ProfileNames(unit.profiles))
            && forall i :: 0 <= i < |unit.profiles| ==> IsValidProfile(unit.profiles[i])))
  }

  predicate AreValidArgs(args: seq<Arg>, mainPidAllowed: bool) {
    forall i :: 0 <= i < |args| ==> IsValidArg(args[i], mainPidAllowed)
  }

  predicate IsValidUnit(unit: UnitTemplate) {
    && IsRepresentable(unit.description)
    && unit.execStart != [] && unit.execStart[0] == Var(ArtifactPath) && AreValidArgs(unit.execStart, false)
    && (unit.execReload.Some? ==> unit.execReload.value != [] && AreValidArgs(unit.execReload.value, true))
    && (unit.workingDirectory.Some? ==> IsValidArg(unit.workingDirectory.value, false))
    && (forall i :: 0 <= i < |unit.environment| ==>
          IsEnvironmentKey(unit.environment[i].0) && IsValidArg(unit.environment[i].1, false))
    && unit.limitNofile != Some(0) && unit.limitNofile != Some(U64_MAX)
    && (unit.runAs == None || unit.groups == []) && Distinct(unit.groups)
    && AreValidProfiles(unit)
  }

  predicate IsValidRegistration(r: Registration, component: string) {
    && r.packageId == component && IsDnsLabel(r.serviceName)
    && match r.reload
       case Sighup(path) => IsAbsoluteProcessPath(path)
       case DockerSighup(container) => IsContainerName(container)
  }

  predicate KindTakesUnit(kind: ArtifactKind) { kind.NativeBinary? || kind.ComposeBundle? }

  predicate IsValidSpec(spec: Spec, component: string, kind: ArtifactKind) {
    && (spec.unit.Some? <==> KindTakesUnit(kind))
    && (spec.unit.Some? ==> IsValidUnit(spec.unit.value))
    && IsValidRegistration(spec.registration, component)
  }

  // ---- the first violation, in the order the rules are checked ----

  /** The first element already met, or none when all are distinct. */
  function FirstRepeat<T(==)>(xs: seq<T>): Option<T> {
    if xs == [] then None
    else
      var init, last := xs[..|xs| - 1], xs[|xs| - 1];
      var earlier := FirstRepeat(init);
      if earlier.Some? then earlier else if last in init then Some(last) else None
  }

  /** What the rule says of the first element it refuses. */
  function FirstError<T>(xs: seq<T>, rule: T -> Option<SpecError>): Option<SpecError> {
    if xs == [] then None else OrElse(rule(xs[0]), FirstError(xs[1..], rule))
  }

  function OrElse(first: Option<SpecError>, second: Option<SpecError>): Option<SpecError> {
    if first.Some? then first else second
  }

  function ErrorIf(violated: bool, e: SpecError): Option<SpecError> { if violated then Some(e) else None }

  function ArgError(arg: Arg, mainPidAllowed: bool): Option<SpecError> {
    match arg
    case Literal(text) =>
      OrElse(ErrorIf(text == "", EmptyLiteral), ErrorIf(!IsRepresentable(text), UnrepresentableLiteral(text)))
    case Var(v) => ErrorIf(v == MainPidVar && !mainPidAllowed, MainPidOutsideExecReload)
  }

  function ArgsError(args: seq<Arg>, mainPidAllowed: bool): Option<SpecError> {
    FirstError(args, (a: Arg) => ArgError(a, mainPidAllowed))
  }

  function EntryError(entry: (string, Arg)): Option<SpecError> {
    OrElse(ErrorIf(!IsEnvironmentKey(entry.0), InvalidEnvironmentKey(entry.0)), ArgError(entry.1, false))
  }

  function NameError(p: Profile): Option<SpecError> {
    ErrorIf((p.name == RootProfile) != (p.runAs == Some(Root)), RunAsMismatchesProfileName(p.name))
  }

  function RootError(p: Profile): Option<SpecError> {
    var asksMore := p.capabilities != [] || p.limitMemlock.Some? || p.groups != [];
    ErrorIf(p.runAs.Some? && asksMore, PrivilegesInRootProfile(p.name))
  }

  function CapabilityError(p: Profile): Option<SpecError> {
    var repeat := FirstRepeat(p.capabilities);
    if repeat.Some? then Some(DuplicateProfileCapability(p.name, repeat.value)) else None
  }

  function GroupError(p: Profile): Option<SpecError> {
    var repeat := FirstRepeat(p.groups);
    if repeat.Some? then Some(DuplicateProfileSupplementaryGroup(p.name, repeat.value)) else None
  }

  /** Each profile rule runs over every profile before the next rule starts. */
  function ProfilesError(unit: UnitTemplate): Option<SpecError> {
    if SecurityVfio in unit.groups then Some(SecurityVfioOutsideProfile)
    else if unit.profiles == [] then None
    else if unit.runAs.Some? then Some(PrivilegeProfilesWithRunAs)
    else if unit.groups != [] then Some(PrivilegeProfilesWithSupplementaryGroups)
    else
      var repeat := FirstRepeat(ProfileNames(unit.profiles));
      if repeat.Some? then Some(DuplicatePrivilegeProfile(repeat.value))
      else
        OrElse(FirstError(unit.profiles, NameError),
          OrElse(FirstError(unit.profiles, RootError),
            OrElse(FirstError(unit.profiles, CapabilityError), FirstError(unit.profiles, GroupError))))
  }

  function GroupsError(unit: UnitTemplate): Option<SpecError> {
    if unit.runAs.Some? && unit.groups != [] then Some(SupplementaryGroupsWithRunAs)
    else
      var repeat := FirstRepeat(unit.groups);
      if repeat.Some? then Some(DuplicateSupplementaryGroup(repeat.value)) else ProfilesError(unit)
  }

  function ExecStartError(execStart: seq<Arg>): Option<SpecError> {
    if execStart == [] then Some(EmptyExecStart)
    else if execStart[0] != Var(ArtifactPath) then Some(ExecStartNotArtifactPath)
    else ArgsError(execStart, false)
  }

  function ExecReloadError(execReload: Option<seq<Arg>>): Option<SpecError> {
    if execReload.None? then None else if execReload.value == [] then Some(EmptyExecReload)
    else ArgsError(execReload.value, true)
  }

  function DescriptionError(description: string): Option<SpecError> {
    OrElse(ErrorIf(description == "", EmptyDescription),
      ErrorIf(!IsRepresentable(description), UnrepresentableDescription(description)))
  }

  function LimitError(limit: Option<U64>): Option<SpecError> {
    if limit == Some(0) then Some(ZeroLimitNofile)
    else if limit == Some(U64_MAX) then Some(InfiniteLimitNofile) else None
  }

  function UnitError(unit: UnitTemplate): Option<SpecError> {
    OrElse(DescriptionError(unit.description),
      OrElse(ExecStartError(unit.execStart),
        OrElse(ExecReloadError(unit.execReload),
          OrElse(if unit.workingDirectory.Some? then ArgError(unit.workingDirectory.value, false) else None,
            OrElse(FirstError(unit.environment, EntryError),
              OrElse(LimitError(unit.limitNofile), GroupsError(unit)))))))
  }

  function RegistrationError(r: Registration, component: string): Option<SpecError> {
    if r.packageId != component then Some(PackageIdMismatch(r.packageId, component))
    else if !IsDnsLabel(r.serviceName) then Some(InvalidServiceName(r.serviceName))
    else match r.reload
      case Sighup(path) => ErrorIf(!IsAbsoluteProcessPath(path), InvalidProcessPath(path))
      case DockerSighup(container) => ErrorIf(!IsContainerName(container), InvalidContainerName(container))
  }

  /** A kind that runs as a unit without one, or one that does not with one. */
  function KindError(spec: Spec, kind: ArtifactKind): Option<SpecError> {
    if KindTakesUnit(kind) then ErrorIf(spec.unit.None?, MissingUnit(kind))
    else ErrorIf(spec.unit.Some?, UnexpectedUnit(kind))
  }

  /** The kind first, then the unit's own rules, then the registration's. */
  function FirstSpecError(spec: Spec, component: string, kind: ArtifactKind): Option<SpecError> {
    OrElse(KindError(spec, kind),
      OrElse(if spec.unit.Some? then UnitError(spec.unit.value) else None,
        RegistrationError(spec.registration, component)))
  }

  // ---- no first violation exactly when every rule holds ----

  lemma {:induction false} NoRepeatIsDistinct<T>(xs: seq<T>)
    ensures FirstRepeat(xs).None? <==> Distinct(xs)
  {
    if xs != [] {
      var init, last := xs[..|xs| - 1], xs[|xs| - 1];
      NoRepeatIsDistinct(init);
      assert forall i :: 0 <= i < |init| ==> init[i] == xs[i];
      if Distinct(xs) { assert forall i :: 0 <= i < |init| ==> init[i] != last; }
      if Distinct(init) && last !in init {
        forall i, j | 0 <= i < j < |xs| ensures xs[i] != xs[j] { assert xs[i] == init[i]; }
      }
    }
  }

  lemma {:induction false} NoErrorIsAll<T>(xs: seq<T>, rule: T -> Option<SpecError>)
    ensures FirstError(xs, rule).None? <==> forall i :: 0 <= i < |xs| ==> rule(xs[i]).None?
  {
    if xs != [] {
      NoErrorIsAll(xs[1..], rule);
      assert forall i :: 0 <= i < |xs| - 1 ==> xs[1..][i] == xs[i + 1];
      if forall i :: 0 <= i < |xs| - 1 ==> rule(xs[1..][i]).None? {
        forall i | 1 <= i < |xs| ensures rule(xs[i]).None? { assert xs[i] == xs[1..][i - 1]; }
      }
    }
  }

  lemma NoArgsErrorIsAll(args: seq<Arg>, mainPidAllowed: bool)
    ensures ArgsError(args, mainPidAllowed).None? <==> AreValidArgs(args, mainPidAllowed)
  {
    NoErrorIsAll(args, (a: Arg) => ArgError(a, mainPidAllowed));
  }

  lemma NoProfileErrorIsValid(p: Profile)
    ensures IsValidProfile(p)
            <==> NameError(p).None? && RootError(p).None? && CapabilityError(p).None? && GroupError(p).None?
  {
    NoRepeatIsDistinct(p.capabilities);
    NoRepeatIsDistinct(p.groups);
    hide Distinct, FirstRepeat;
  }

  lemma NoErrorInAnyProfile(ps: seq<Profile>)
    ensures (&& FirstError(ps, NameError).None? && FirstError(ps, RootError).None?
             && FirstError(ps, CapabilityError).None? && FirstError(ps, GroupError).None?)
            <==> forall i :: 0 <= i < |ps| ==> IsValidProfile(ps[i])
  {
    hide *;
    NoErrorIsAll(ps, NameError);
    NoErrorIsAll(ps, RootError);
    NoErrorIsAll(ps, CapabilityError);
    NoErrorIsAll(ps, GroupError);
    forall i | 0 <= i < |ps|
      ensures IsValidProfile(ps[i])
              <==> (&& NameError(ps[i]).None? && RootError(ps[i]).None?
                    && CapabilityError(ps[i]).None? && GroupError(ps[i]).None?)
    {
      NoProfileErrorIsValid(ps[i]);
    }
  }

  lemma NoProfilesErrorIsValid(unit: UnitTemplate)
    ensures ProfilesError(unit).None? <==> AreValidProfiles(unit)
  {
    hide FirstError, FirstRepeat, Distinct, IsValidProfile, NameError, RootError, CapabilityError, GroupError;
    NoRepeatIsDistinct(ProfileNames(unit.profiles));
    NoErrorInAnyProfile(unit.profiles);
  }

  /** The validator finds nothing exactly when every rule holds. */
  lemma NoUnitErrorIsValid(unit: UnitTemplate)
    ensures UnitError(unit).None? <==> IsValidUnit(unit)
  {
    NoArgsErrorIsAll(unit.execStart, false);
    if unit.execReload.Some? { NoArgsErrorIsAll(unit.execReload.value, true); }
    NoErrorIsAll(unit.environment, EntryError);
    NoRepeatIsDistinct(unit.groups);
    NoProfilesErrorIsValid(unit);
    hide FirstError, FirstRepeat, Distinct, AreValidArgs, ArgsError, AreValidProfiles, ProfilesError, IsEnvironmentKey;
  }

  // ---- the loops ----

  /** Inserting each element into a set and stopping at the first already there. */
  method FindRepeat<T(==)>(xs: seq<T>) returns (repeat: Option<T>)
    ensures repeat == FirstRepeat(xs)
  {
    var seen: set<T> := {};
    var i := 0;
    while i < |xs|
      invariant 0 <= i <= |xs| && FirstRepeat(xs[..i]).None?
      invariant forall x :: x in seen <==> x in xs[..i]
    {
      assert xs[..i + 1][..i] == xs[..i];
      if xs[i] in seen {
        RepeatPersists(xs, i + 1);
        return Some(xs[i]);
      }
      seen := seen + {xs[i]};
      i := i + 1;
    }
    assert xs[..i] == xs;
    repeat := None;
  }

  lemma {:induction false} RepeatPersists<T>(xs: seq<T>, n: nat)
    requires n <= |xs| && FirstRepeat(xs[..n]).Some?
    ensures FirstRepeat(xs) == FirstRepeat(xs[..n])
    decreases |xs|
  {
    if n == |xs| {
      assert xs[..n] == xs;
    } else {
      assert xs[..|xs| - 1][..n] == xs[..n];
      RepeatPersists(xs[..|xs| - 1], n);
    }
  }

  function AsResult(e: Option<SpecError>): Result<(), SpecError> { if e.Some? then Err(e.value) else Ok(()) }

  method CheckArgs(args: seq<Arg>, mainPidAllowed: bool) returns (error: Option<SpecError>)
    ensures error == ArgsError(args, mainPidAllowed)
  {
    ghost var rule := (a: Arg) => ArgError(a, mainPidAllowed);
    assert args[0..] == args;
    for i := 0 to |args|
      invariant FirstError(args, rule) == FirstError(args[i..], rule)
    {
      assert args[i..][0] == args[i] && args[i..][1..] == args[i + 1..];
      error := ArgError(args[i], mainPidAllowed);
      if error.Some? { return; }
    }
    error := None;
  }

  method CheckEnvironment(environment: seq<(string, Arg)>) returns (error: Option<SpecError>)
    ensures error == FirstError(environment, EntryError)
  {
    assert environment[0..] == environment;
    for i := 0 to |environment|
      invariant FirstError(environment, EntryError) == FirstError(environment[i..], EntryError)
    {
      assert environment[i..][0] == environment[i] && environment[i..][1..] == environment[i + 1..];
      var (key, value) := environment[i];
      if !IsEnvironmentKey(key) { return Some(InvalidEnvironmentKey(key)); }
      error := ArgError(value, false);
      if error.Some? { return; }
    }
    error := None;
  }

  method ValidatePrivilegeProfiles(unit: UnitTemplate) returns (result: Result<(), SpecError>)
    ensures result == AsResult(ProfilesError(unit))
  {
    hide Distinct, FirstRepeat;
    var ps := unit.profiles;
    if SecurityVfio in unit.groups { return Err(SecurityVfioOutsideProfile); }
    if ps == [] { return Ok(()); }
    if unit.runAs.Some? { return Err(PrivilegeProfilesWithRunAs); }
    if unit.groups != [] { return Err(PrivilegeProfilesWithSupplementaryGroups); }
    var repeat := FindRepeat(ProfileNames(ps));
    if repeat.Some? { return Err(DuplicatePrivilegeProfile(repeat.value)); }
    assert ps[0..] == ps;
    for i := 0 to |ps|
      invariant FirstError(ps, NameError) == FirstError(ps[i..], NameError)
    {
      assert ps[i..][0] == ps[i] && ps[i..][1..] == ps[i + 1..];
      var namedRoot := ps[i].name == RootProfile;
      if namedRoot != (ps[i].runAs == Some(Root)) { return Err(RunAsMismatchesProfileName(ps[i].name)); }
    }
    for i := 0 to |ps|
      invariant FirstError(ps, RootError) == FirstError(ps[i..], RootError)
    {
      assert ps[i..][0] == ps[i] && ps[i..][1..] == ps[i + 1..];
      if ps[i].runAs.Some? && (ps[i].capabilities != [] || ps[i].limitMemlock.Some? || ps[i].groups != []) {
        return Err(PrivilegesInRootProfile(ps[i].name));
      }
    }
    for i := 0 to |ps|
      invariant FirstError(ps, CapabilityError) == FirstError(ps[i..], CapabilityError)
    {
      assert ps[i..][0] == ps[i] && ps[i..][1..] == ps[i + 1..];
      var capability := FindRepeat(ps[i].capabilities);
      if capability.Some? { return Err(DuplicateProfileCapability(ps[i].name, capability.value)); }
    }
    for i := 0 to |ps|
      invariant FirstError(ps, GroupError) == FirstError(ps[i..], GroupError)
    {
      assert ps[i..][0] == ps[i] && ps[i..][1..] == ps[i + 1..];
      var group := FindRepeat(ps[i].groups);
      if group.Some? { return Err(DuplicateProfileSupplementaryGroup(ps[i].name, group.value)); }
    }
    result := Ok(());
  }

  /** Refuses exactly the units some rule refuses, with the first rule's error. */
  method ValidateUnit(unit: UnitTemplate) returns (result: Result<(), SpecError>)
    ensures result == AsResult(UnitError(unit))
    ensures result.Ok? <==> IsValidUnit(unit)
  {
    NoUnitErrorIsValid(unit);
    hide IsValidUnit, FirstError, FirstRepeat, ProfilesError, ArgsError, IsEnvironmentKey, IsRepresentable;
    if unit.description == "" { return Err(EmptyDescription); }
    if !IsRepresentable(unit.description) { return Err(UnrepresentableDescription(unit.description)); }
    if unit.execStart == [] { return Err(EmptyExecStart); }
    if unit.execStart[0] != Var(ArtifactPath) { return Err(ExecStartNotArtifactPath); }
    var error := CheckArgs(unit.execStart, false);
    if error.Some? { return Err(error.value); }
    if unit.execReload.Some? {
      if unit.execReload.value == [] { return Err(EmptyExecReload); }
      error := CheckArgs(unit.execReload.value, true);
      if error.Some? { return Err(error.value); }
    }
    if unit.workingDirectory.Some? {
      error := ArgError(unit.workingDirectory.value, false);
      if error.Some? { return Err(error.value); }
    }
    error := CheckEnvironment(unit.environment);
    if error.Some? { return Err(error.value); }
    if unit.limitNofile == Some(0) { return Err(ZeroLimitNofile); }
    if unit.limitNofile == Some(U64_MAX) { return Err(InfiniteLimitNofile); }
    if unit.runAs.Some? && unit.groups != [] { return Err(SupplementaryGroupsWithRunAs); }
    var repeat := FindRepeat(unit.groups);
    if repeat.Some? { return Err(DuplicateSupplementaryGroup(repeat.value)); }
    result := ValidatePrivilegeProfiles(unit);
  }

  method Validate(spec: Spec, component: string, kind: ArtifactKind) returns (result: Result<(), SpecError>)
    ensures result.Ok? <==> IsValidSpec(spec, component, kind)
    ensures result == AsResult(FirstSpecError(spec, component, kind))
  {
    hide IsValidUnit, UnitError, IsDnsLabel, IsAbsoluteProcessPath, IsContainerName;
    match (kind, spec.unit) {
      case (NativeBinary, None) => return Err(MissingUnit(kind));
      case (ComposeBundle, None) => return Err(MissingUnit(kind));
      case (StaticAssets, Some(_)) => return Err(UnexpectedUnit(kind));
      case (ContainerImage, Some(_)) => return Err(UnexpectedUnit(kind));
      case _ =>
    }
    if spec.unit.Some? {
      var checked := ValidateUnit(spec.unit.value);
      if checked.Err? { return checked; }
    }
    result := AsResult(RegistrationError(spec.registration, component));
  }
}
