/** Rendering a validated spec to a unit file (src/render.rs). */
module Render {
  import opened Options
  import opened Text
  import opened Systemd
  import opened ModuleSpec
  import opened UnitText

  datatype Context = Context(
    artifactPath: string, configPath: string, dataDir: string, instanceId: string, hostname: string, domain: string,
    certPath: string, keyPath: string, caBundlePath: string, managerEndpoint: Option<string>,
    account: Option<Account>, profile: Option<ProfileName>,
    namespace: string, serviceName: string, instance: Option<string>, component: string, kind: ArtifactKind)

  datatype NameField = NamespaceName | ServiceNameName | InstanceName

  datatype RenderError =
    | InvalidSpec(error: SpecError)
    | UnrepresentableValue(v: RenderVar, value: string)
    | UnresolvedVariable(v: RenderVar)
    | InvalidNameComponent(field: NameField, value: string)
    | SupplementaryGroupsWithoutUser
    | MissingPrivilegeProfile
    | UndeclaredPrivilegeProfile(profile: ProfileName)
    | UnexpectedPrivilegeProfile(profile: ProfileName)
    | PrivilegeProfileWithoutUser(profile: ProfileName)

  datatype RenderedUnit = RenderedUnit(fileName: string, text: string)

  /** The account, groups, capabilities and memory-lock limit a unit renders with. */
  datatype Privileges = Privileges(
    runAs: Option<RunAs>, groups: seq<Group>, capabilities: Option<seq<Capability>>, limitMemlock: Option<MemlockLimit>)

  // ---- privileges ----

  function FindProfile(profiles: seq<Profile>, name: ProfileName): Option<Profile> {
    if profiles == [] then None
    else if profiles[0].name == name then Some(profiles[0])
    else FindProfile(profiles[1..], name)
  }

  function ResolvePrivileges(unit: UnitTemplate, ctx: Context): Result<Privileges, RenderError> {
    if ctx.profile.None? then
      if unit.profiles == [] then Ok(Privileges(unit.runAs, unit.groups, None, None)) else Err(MissingPrivilegeProfile)
    else
      var selected := ctx.profile.value;
      if unit.profiles == [] then Err(UnexpectedPrivilegeProfile(selected))
      else
        match FindProfile(unit.profiles, selected)
        case None => Err(UndeclaredPrivilegeProfile(selected))
        case Some(profile) =>
          if profile.runAs.Some? then Ok(Privileges(profile.runAs, [], None, None))
          else if ctx.account.None? then Err(PrivilegeProfileWithoutUser(selected))
          else Ok(Privileges(None, profile.groups, Some(profile.capabilities), profile.limitMemlock))
  }

  lemma {:induction false} FindProfileIs(profiles: seq<Profile>, name: ProfileName)
    ensures FindProfile(profiles, name).Some? <==> exists i :: 0 <= i < |profiles| && profiles[i].name == name
    ensures FindProfile(profiles, name).Some? ==>
              FindProfile(profiles, name).value in profiles && FindProfile(profiles, name).value.name == name
  {
    if profiles != [] && profiles[0].name != name {
      FindProfileIs(profiles[1..], name);
      if i :| 0 <= i < |profiles| && profiles[i].name == name { assert profiles[1..][i - 1].name == name; }
      if i :| 0 <= i < |profiles| - 1 && profiles[1..][i].name == name { assert profiles[i + 1].name == name; }
    }
  }

  /** A selection renders exactly when it names one declared profile, and only a root profile needs no account. */
  lemma PrivilegesResolveExactly(unit: UnitTemplate, ctx: Context)
    requires AreValidProfiles(unit)
    ensures ResolvePrivileges(unit, ctx).Ok?
            <==> (unit.profiles == [] && ctx.profile == None)
                 || (&& ctx.profile.Some?
                     && (exists i :: 0 <= i < |unit.profiles| && unit.profiles[i].name == ctx.profile.value)
                     && (ctx.profile.value == RootProfile || ctx.account.Some?))
  {
    if ctx.profile.Some? {
      FindProfileIs(unit.profiles, ctx.profile.value);
      var profile := FindProfile(unit.profiles, ctx.profile.value);
      if profile.Some? && profile.value.runAs.Some? { assert profile.value.runAs.value == Root; }
    }
    hide Distinct, FindProfile;
  }

  /** Selecting the root profile renders exactly what a template declaring `run_as` renders. */
  lemma RootProfileIsRunAs(unit: UnitTemplate, ctx: Context)
    requires AreValidProfiles(unit) && ctx.profile == Some(RootProfile) && ResolvePrivileges(unit, ctx).Ok?
    ensures ResolvePrivileges(unit, ctx)
            == ResolvePrivileges(unit.(profiles := [], runAs := Some(Root)), ctx.(profile := None))
  {
    FindProfileIs(unit.profiles, RootProfile);
    hide Distinct, FindProfile;
  }

  // ---- variables ----

  function VarValue(v: RenderVar, ctx: Context): Option<string>
    requires v != MainPidVar
  {
    match v
    case ArtifactPath => Some(ctx.artifactPath)
    case ConfigPath => Some(ctx.configPath)
    case DataDir => Some(ctx.dataDir)
    case InstanceId => Some(ctx.instanceId)
    case Hostname => Some(ctx.hostname)
    case Domain => Some(ctx.domain)
    case CertPath => Some(ctx.certPath)
    case KeyPath => Some(ctx.keyPath)
    case CaBundlePath => Some(ctx.caBundlePath)
    case ManagerEndpoint => ctx.managerEndpoint
  }

  function ResolveVar(v: RenderVar, ctx: Context): Result<UnitArg, RenderError> {
    if v == MainPidVar then Ok(MainPid)
    else
      var value := VarValue(v, ctx);
      if value.None? then Err(UnresolvedVariable(v))
      else if IsRepresentable(value.value) then Ok(Argument(value.value))
      else Err(UnrepresentableValue(v, value.value))
  }

  function ResolveArg(arg: Arg, ctx: Context): Result<UnitArg, RenderError> {
    match arg
    case Literal(text) => Ok(Argument(text))
    case Var(v) => ResolveVar(v, ctx)
  }

  /** Raw text, for the one position that escapes a whole `KEY=VALUE`. */
  function ResolveRaw(arg: Arg, ctx: Context): Result<string, RenderError> {
    var resolved :- ResolveArg(arg, ctx);
    Ok(match resolved case Argument(text) => text case MainPid => RenderArg(MainPid))
  }

  function ResolveArgs(args: seq<Arg>, ctx: Context): Result<seq<UnitArg>, RenderError> {
    if args == [] then Ok([])
    else
      var first :- ResolveArg(args[0], ctx);
      var rest :- ResolveArgs(args[1..], ctx);
      Ok([first] + rest)
  }

  function ResolveOptionArgs(args: Option<seq<Arg>>, ctx: Context): Result<Option<seq<UnitArg>>, RenderError> {
    if args.None? then Ok(None)
    else
      var resolved :- ResolveArgs(args.value, ctx);
      Ok(Some(resolved))
  }

  function ResolveOptionArg(arg: Option<Arg>, ctx: Context): Result<Option<UnitArg>, RenderError> {
    if arg.None? then Ok(None)
    else
      var resolved :- ResolveArg(arg.value, ctx);
      Ok(Some(resolved))
  }

  function ResolveEnvironment(environment: seq<(string, Arg)>, ctx: Context): Result<seq<(string, string)>, RenderError>
  {
    if environment == [] then Ok([])
    else
      var value :- ResolveRaw(environment[0].1, ctx);
      var rest :- ResolveEnvironment(environment[1..], ctx);
      Ok([(environment[0].0, value)] + rest)
  }

  function UserOf(privileges: Privileges, ctx: Context): Option<Account> {
    if privileges.runAs.None? then ctx.account else None
  }

  /** The unit a template stands for in a context, or the first thing that cannot be resolved. */
  function ResolveUnit(unit: UnitTemplate, privileges: Privileges, ctx: Context): Result<ResolvedUnit, RenderError> {
    var user := UserOf(privileges, ctx);
    if privileges.groups != [] && user.None? then Err(SupplementaryGroupsWithoutUser)
    else
      var execStart :- ResolveArgs(unit.execStart, ctx);
      var execReload :- ResolveOptionArgs(unit.execReload, ctx);
      var workingDirectory :- ResolveOptionArg(unit.workingDirectory, ctx);
      var environment :- ResolveEnvironment(unit.environment, ctx);
      Ok(ResolvedUnit(
           unit.description, unit.after, unit.wants, user, privileges.groups, privileges.capabilities,
           execStart, execReload, workingDirectory, environment, unit.restart, unit.restartSec,
           unit.limitNofile, privileges.limitMemlock, unit.protectHome, unit.privateTmp, unit.noNewPrivileges,
           unit.wantedBy))
  }

  // ---- a validated template resolves to a well-formed unit ----

  lemma {:induction false} ResolvedArgsAreClean(args: seq<Arg>, ctx: Context, mainPidAllowed: bool)
    requires AreValidArgs(args, mainPidAllowed) && ResolveArgs(args, ctx).Ok?
    ensures |ResolveArgs(args, ctx).value| == |args|
    ensures forall a :: a in ResolveArgs(args, ctx).value ==> ArgOnOneLine(a) && (a.MainPid? ==> mainPidAllowed)
  {
    if args != [] {
      assert forall i :: 0 <= i < |args| - 1 ==> args[1..][i] == args[i + 1];
      ResolvedArgsAreClean(args[1..], ctx, mainPidAllowed);
      assert IsValidArg(args[0], mainPidAllowed);
    }
  }

  lemma {:induction false} ResolvedEnvironmentIsClean(environment: seq<(string, Arg)>, ctx: Context)
    requires forall i :: 0 <= i < |environment| ==>
               IsEnvironmentKey(environment[i].0) && IsValidArg(environment[i].1, false)
    requires ResolveEnvironment(environment, ctx).Ok?
    ensures var resolved := ResolveEnvironment(environment, ctx).value;
            forall i :: 0 <= i < |resolved| ==>
              '=' !in resolved[i].0 && '\n' !in resolved[i].0 && '\n' !in resolved[i].1
  {
    if environment != [] {
      assert forall i :: 0 <= i < |environment| - 1 ==> environment[1..][i] == environment[i + 1];
      ResolvedEnvironmentIsClean(environment[1..], ctx);
      KeyIsClean(environment[0].0);
      assert IsValidArg(environment[0].1, false);
    }
  }

  lemma KeyIsClean(key: string)
    requires IsEnvironmentKey(key)
    ensures '=' !in key && '\n' !in key
  {
  }

  /** Resolution of a validated template: one value per line, and the main pid in `ExecReload=` only. */
  lemma ResolvedIsWellFormed(unit: UnitTemplate, privileges: Privileges, ctx: Context)
    requires IsValidUnit(unit) && ResolveUnit(unit, privileges, ctx).Ok?
    ensures var u := ResolveUnit(unit, privileges, ctx).value;
            && IsWellFormed(u)
            && MainPid !in u.execStart && u.workingDirectory != Some(MainPid)
            && (u.groups != [] ==> u.user.Some?)
  {
    ResolvedArgsAreClean(unit.execStart, ctx, false);
    if unit.execReload.Some? { ResolvedArgsAreClean(unit.execReload.value, ctx, true); }
    ResolvedEnvironmentIsClean(unit.environment, ctx);
    RepresentableHasNoNewline(unit.description);
    hide ResolveArgs, ResolveEnvironment, AreValidArgs, IsEnvironmentKey, AreValidProfiles, Distinct;
  }

  // ---- the text, pushed line by line ----

  lemma {:induction false} LinesOfSnoc(d: Directive, values: seq<string>, value: string)
    ensures LinesOf(d, values + [value]) == LinesOf(d, values) + [Line(d, value)]
  {
    if values != [] {
      assert (values + [value])[1..] == values[1..] + [value];
      LinesOfSnoc(d, values[1..], value);
    }
  }

  lemma NoTargetLines(d: Directive)
    ensures LinesOf(d, MapAll([], TargetName)) == []
  {
  }

  lemma OneMoreTarget(d: Directive, targets: seq<Target>, target: Target)
    ensures LinesOf(d, MapAll(targets + [target], TargetName))
            == LinesOf(d, MapAll(targets, TargetName)) + [Line(d, TargetName(target))]
  {
    hide Line, TargetName, LinesOf;
    LinesOfSnoc(d, MapAll(targets, TargetName), TargetName(target));
    assert MapAll(targets + [target], TargetName) == MapAll(targets, TargetName) + [TargetName(target)];
  }

  method TargetLines(d: Directive, targets: seq<Target>) returns (lines: seq<string>)
    ensures lines == LinesOf(d, MapAll(targets, TargetName))
  {
    hide Name, Line, TargetName, LinesOf, MapAll;
    lines := [];
    NoTargetLines(d);
    assert targets[..0] == [];
    for i := 0 to |targets|
      invariant lines == LinesOf(d, MapAll(targets[..i], TargetName))
    {
      assert targets[..i + 1] == targets[..i] + [targets[i]];
      OneMoreTarget(d, targets[..i], targets[i]);
      lines := lines + [Line(d, TargetName(targets[i]))];
    }
    assert targets[..|targets|] == targets;
  }

  function Rendered(resolved: Result<seq<UnitArg>, RenderError>): Result<string, RenderError> {
    match resolved case Ok(args) => Ok(RenderArgs(args)) case Err(e) => Err(e)
  }

  method RenderArgList(args: seq<Arg>, ctx: Context) returns (result: Result<string, RenderError>)
    ensures result == Rendered(ResolveArgs(args, ctx))
  {
    hide RenderArg, ResolveArg;
    var rendered: seq<string> := [];
    ghost var done: seq<UnitArg> := [];
    assert args[0..] == args;
    PrefixedNothing(ResolveArgs(args, ctx));
    for i := 0 to |args|
      invariant ResolveArgs(args, ctx) == Prefixed(done, ResolveArgs(args[i..], ctx))
      invariant rendered == RenderAll(done)
    {
      assert args[i..][0] == args[i] && args[i..][1..] == args[i + 1..];
      var arg := ResolveArg(args[i], ctx);
      if arg.Err? { return Err(arg.error); }
      rendered := rendered + [RenderArg(arg.value)];
      assert RenderAll(done + [arg.value]) == RenderAll(done) + [RenderArg(arg.value)];
      PrefixedSnoc(done, arg.value, ResolveArgs(args[i + 1..], ctx));
      done := done + [arg.value];
    }
    assert done + [] == done;
    result := Ok(Join(rendered, ' '));
  }

  method EnvironmentLines(environment: seq<(string, Arg)>, ctx: Context)
    returns (result: Result<seq<string>, RenderError>)
    ensures match ResolveEnvironment(environment, ctx)
            case Ok(resolved) => result == Ok(LinesOf(Environment, MapAll(resolved, EnvironmentLine)))
            case Err(e) => result == Err(e)
  {
    hide RenderEnvironment, ResolveRaw, Line;
    var lines: seq<string> := [];
    ghost var done: seq<(string, string)> := [];
    assert environment[0..] == environment;
    PrefixedNothing(ResolveEnvironment(environment, ctx));
    for i := 0 to |environment|
      invariant ResolveEnvironment(environment, ctx) == Prefixed(done, ResolveEnvironment(environment[i..], ctx))
      invariant lines == LinesOf(Environment, MapAll(done, EnvironmentLine))
    {
      assert environment[i..][0] == environment[i] && environment[i..][1..] == environment[i + 1..];
      var (key, value) := environment[i];
      var raw := ResolveRaw(value, ctx);
      if raw.Err? { return Err(raw.error); }
      LinesOfSnoc(Environment, MapAll(done, EnvironmentLine), EnvironmentLine((key, raw.value)));
      lines := lines + [Line(Environment, RenderEnvironment(key, raw.value))];
      assert MapAll(done + [(key, raw.value)], EnvironmentLine)
          == MapAll(done, EnvironmentLine) + [EnvironmentLine((key, raw.value))];
      PrefixedSnoc(done, (key, raw.value), ResolveEnvironment(environment[i + 1..], ctx));
      done := done + [(key, raw.value)];
    }
    assert done + [] == done;
    result := Ok(lines);
  }

  lemma OneLine(d: Directive, value: string)
    ensures LinesOf(d, [value]) == [Line(d, value)]
    ensures LinesOf(d, []) == []
  {
  }

  lemma OptionLines<T>(d: Directive, o: Option<T>, spell: T -> string)
    ensures LinesOf(d, OptionValues(o, spell)) == if o.Some? then [Line(d, spell(o.value))] else []
  {
    hide Line;
  }

  lemma FlagLines(d: Directive, flag: bool)
    ensures LinesOf(d, FlagValues(flag)) == if flag then [Line(d, "yes")] else []
  {
    hide Line;
  }

  lemma GroupLines(groups: seq<Group>)
    ensures LinesOf(SupplementaryGroups, GroupValues(groups))
            == if groups != [] then [Line(SupplementaryGroups, Words(groups, GroupName))] else []
  {
    hide Line, Words;
  }

  lemma AmbientLines(capabilities: Option<seq<Capability>>)
    ensures LinesOf(AmbientCapabilities, AmbientValues(capabilities))
            == if capabilities.Some? && capabilities.value != []
               then [Line(AmbientCapabilities, CapabilityWords(capabilities.value))] else []
  {
    hide Line, CapabilityWords;
  }

  /** `User=` to `CapabilityBoundingSet=`; groups with no account to qualify are refused. */
  method IdentityLines(privileges: Privileges, account: Option<Account>)
    returns (result: Result<seq<string>, RenderError>)
    ensures result == if privileges.groups != [] && account.None? then Err(SupplementaryGroupsWithoutUser)
                      else Ok(LinesOf(User, OptionValues(account, AccountName))
                              + LinesOf(SupplementaryGroups, GroupValues(privileges.groups))
                              + LinesOf(AmbientCapabilities, AmbientValues(privileges.capabilities))
                              + LinesOf(CapabilityBoundingSet, OptionValues(privileges.capabilities, CapabilityWords)))
  {
    hide *;
    var lines: seq<string> := [];
    OptionLines(User, account, AccountName);
    if account.Some? { lines := lines + [Line(User, AccountName(account.value))]; }
    assert lines == LinesOf(User, OptionValues(account, AccountName));
    ghost var before := lines;
    GroupLines(privileges.groups);
    if privileges.groups != [] {
      if account.None? { return Err(SupplementaryGroupsWithoutUser); }
      lines := lines + [Line(SupplementaryGroups, Words(privileges.groups, GroupName))];
    }
    assert lines == before + LinesOf(SupplementaryGroups, GroupValues(privileges.groups));
    before := lines;
    OptionLines(CapabilityBoundingSet, privileges.capabilities, CapabilityWords);
    AmbientLines(privileges.capabilities);
    ghost var ambient := LinesOf(AmbientCapabilities, AmbientValues(privileges.capabilities));
    if privileges.capabilities.Some? {
      var spelled := CapabilityWords(privileges.capabilities.value);
      if privileges.capabilities.value != [] { lines := lines + [Line(AmbientCapabilities, spelled)]; }
      assert lines == before + ambient;
      lines := lines + [Line(CapabilityBoundingSet, spelled)];
    }
    assert lines == before + ambient
        + LinesOf(CapabilityBoundingSet, OptionValues(privileges.capabilities, CapabilityWords));
    result := Ok(lines);
  }

  /** `ExecStart=` to `Environment=`. */
  method ExecLines(unit: UnitTemplate, ctx: Context) returns (result: Result<seq<string>, RenderError>)
    ensures match ResolveExec(unit, ctx)
            case Ok(x) => result == Ok(LinesOf(ExecStart, [RenderArgs(x.0)])
                                       + LinesOf(ExecReload, OptionValues(x.1, RenderArgs))
                                       + LinesOf(WorkingDirectory, OptionValues(x.2, RenderArg))
                                       + LinesOf(Environment, MapAll(x.3, EnvironmentLine)))
            case Err(e) => result == Err(e)
  {
    hide Name, Line, RenderArgs, RenderArg, ResolveArgs, ResolveArg, ResolveEnvironment, LinesOf, OptionValues;
    var execStart := RenderArgList(unit.execStart, ctx);
    if execStart.Err? { return Err(execStart.error); }
    OneLine(ExecStart, execStart.value);
    var lines := [Line(ExecStart, execStart.value)];
    ghost var before := lines;
    ghost var reloadArgs := ResolveOptionArgs(unit.execReload, ctx);
    if unit.execReload.Some? {
      var execReload := RenderArgList(unit.execReload.value, ctx);
      if execReload.Err? { return Err(execReload.error); }
      lines := lines + [Line(ExecReload, execReload.value)];
    }
    OptionLines(ExecReload, reloadArgs.value, RenderArgs);
    assert lines == before + LinesOf(ExecReload, OptionValues(reloadArgs.value, RenderArgs));
    before := lines;
    ghost var directoryArg := ResolveOptionArg(unit.workingDirectory, ctx);
    if unit.workingDirectory.Some? {
      var directory := ResolveArg(unit.workingDirectory.value, ctx);
      if directory.Err? { return Err(directory.error); }
      lines := lines + [Line(WorkingDirectory, RenderArg(directory.value))];
    }
    OptionLines(WorkingDirectory, directoryArg.value, RenderArg);
    assert lines == before + LinesOf(WorkingDirectory, OptionValues(directoryArg.value, RenderArg));
    var environment := EnvironmentLines(unit.environment, ctx);
    if environment.Err? { return environment; }
    result := Ok(lines + environment.value);
  }

  function ResolveExec(unit: UnitTemplate, ctx: Context)
    : Result<(seq<UnitArg>, Option<seq<UnitArg>>, Option<UnitArg>, seq<(string, string)>), RenderError>
  {
    var execStart :- ResolveArgs(unit.execStart, ctx);
    var execReload :- ResolveOptionArgs(unit.execReload, ctx);
    var workingDirectory :- ResolveOptionArg(unit.workingDirectory, ctx);
    var environment :- ResolveEnvironment(unit.environment, ctx);
    Ok((execStart, execReload, workingDirectory, environment))
  }

  /** `Restart=` to `NoNewPrivileges=`. */
  method LimitLines(unit: UnitTemplate, privileges: Privileges) returns (lines: seq<string>)
    ensures lines == LinesOf(Restart, [RestartName(unit.restart)])
                     + LinesOf(RestartSec, [DecimalOf(unit.restartSec)])
                     + LinesOf(LimitNOFILE, OptionValues(unit.limitNofile, LimitName))
                     + LinesOf(LimitMEMLOCK, OptionValues(privileges.limitMemlock, MemlockName))
                     + LinesOf(ProtectHome, FlagValues(unit.protectHome))
                     + LinesOf(PrivateTmp, FlagValues(unit.privateTmp))
                     + LinesOf(NoNewPrivileges, FlagValues(unit.noNewPrivileges))
  {
    hide *;
    OneLine(Restart, RestartName(unit.restart));
    OneLine(RestartSec, DecimalOf(unit.restartSec));
    lines := [Line(Restart, RestartName(unit.restart))] + [Line(RestartSec, DecimalOf(unit.restartSec))];
    ghost var before := lines;
    OptionLines(LimitNOFILE, unit.limitNofile, LimitName);
    if unit.limitNofile.Some? { lines := lines + [Line(LimitNOFILE, LimitName(unit.limitNofile.value))]; }
    assert lines == before + LinesOf(LimitNOFILE, OptionValues(unit.limitNofile, LimitName));
    before := lines;
    OptionLines(LimitMEMLOCK, privileges.limitMemlock, MemlockName);
    if privileges.limitMemlock.Some? {
      lines := lines + [Line(LimitMEMLOCK, MemlockName(privileges.limitMemlock.value))];
    }
    assert lines == before + LinesOf(LimitMEMLOCK, OptionValues(privileges.limitMemlock, MemlockName));
    var sandbox := SandboxLines(unit);
    AssociateTail(lines, LinesOf(ProtectHome, FlagValues(unit.protectHome)),
                  LinesOf(PrivateTmp, FlagValues(unit.privateTmp)),
                  LinesOf(NoNewPrivileges, FlagValues(unit.noNewPrivileges)));
    lines := lines + sandbox;
  }

  method SandboxLines(unit: UnitTemplate) returns (lines: seq<string>)
    ensures lines == LinesOf(ProtectHome, FlagValues(unit.protectHome))
        + LinesOf(PrivateTmp, FlagValues(unit.privateTmp))
                     + LinesOf(NoNewPrivileges, FlagValues(unit.noNewPrivileges))
  {
    hide *;
    FlagLines(ProtectHome, unit.protectHome);
    FlagLines(PrivateTmp, unit.privateTmp);
    FlagLines(NoNewPrivileges, unit.noNewPrivileges);
    lines := [];
    if unit.protectHome { lines := lines + [Line(ProtectHome, "yes")]; }
    if unit.privateTmp { lines := lines + [Line(PrivateTmp, "yes")]; }
    if unit.noNewPrivileges { lines := lines + [Line(NoNewPrivileges, "yes")]; }
  }

  lemma AssociateTail(a: seq<string>, b: seq<string>, c: seq<string>, d: seq<string>)
    ensures a + (b + c + d) == a + b + c + d
  {
  }

  lemma ExpandCons(d: Directive, rest: seq<Directive>, u: ResolvedUnit)
    ensures Expand([d] + rest, u) == LinesOf(d, Values(u, d)) + Expand(rest, u)
  {
    assert ([d] + rest)[1..] == rest;
  }

  lemma ExpandUnit(u: ResolvedUnit)
    ensures Expand(UNIT_ORDER, u)
            == LinesOf(Description, Values(u, Description)) + LinesOf(After, Values(u, After))
                + LinesOf(Wants, Values(u, Wants))
    ensures Expand(INSTALL_ORDER, u) == LinesOf(WantedBy, Values(u, WantedBy))
  {
    hide Values, LinesOf, Expand;
    assert UNIT_ORDER == [Description] + ([After] + ([Wants] + [])) && INSTALL_ORDER == [WantedBy] + [];
    ExpandCons(Description, [After] + ([Wants] + []), u);
    ExpandCons(After, [Wants] + [], u);
    ExpandCons(Wants, [], u);
    ExpandCons(WantedBy, [], u);
    ExpandNothing(u);
  }

  lemma ExpandNothing(u: ResolvedUnit)
    ensures Expand([], u) == []
  {
  }

  lemma ExpandLimits(u: ResolvedUnit, limits: seq<Directive>)
    requires limits == [Restart, RestartSec, LimitNOFILE, LimitMEMLOCK, ProtectHome, PrivateTmp, NoNewPrivileges]
    ensures Expand(limits, u)
            == LinesOf(Restart, Values(u, Restart)) + LinesOf(RestartSec, Values(u, RestartSec))
               + LinesOf(LimitNOFILE, Values(u, LimitNOFILE)) + LinesOf(LimitMEMLOCK, Values(u, LimitMEMLOCK))
               + LinesOf(ProtectHome, Values(u, ProtectHome)) + LinesOf(PrivateTmp, Values(u, PrivateTmp))
               + LinesOf(NoNewPrivileges, Values(u, NoNewPrivileges))
  {
    hide *;
    var flags := [ProtectHome] + ([PrivateTmp] + ([NoNewPrivileges] + []));
    assert limits == [Restart] + ([RestartSec] + ([LimitNOFILE] + ([LimitMEMLOCK] + flags)));
    ExpandCons(Restart, [RestartSec] + ([LimitNOFILE] + ([LimitMEMLOCK] + flags)), u);
    ExpandCons(RestartSec, [LimitNOFILE] + ([LimitMEMLOCK] + flags), u);
    ExpandCons(LimitNOFILE, [LimitMEMLOCK] + flags, u);
    ExpandCons(LimitMEMLOCK, flags, u);
    ExpandCons(ProtectHome, [PrivateTmp] + ([NoNewPrivileges] + []), u);
    ExpandCons(PrivateTmp, [NoNewPrivileges] + [], u);
    ExpandCons(NoNewPrivileges, [], u);
    ExpandNothing(u);
  }

  lemma ExpandFour(a: Directive, b: Directive, c: Directive, d: Directive, rest: seq<Directive>, u: ResolvedUnit)
    ensures Expand([a] + ([b] + ([c] + ([d] + rest))), u)
            == (LinesOf(a, Values(u, a)) + LinesOf(b, Values(u, b)) + LinesOf(c, Values(u, c))
                + LinesOf(d, Values(u, d)))
               + Expand(rest, u)
  {
    hide *;
    ExpandCons(a, [b] + ([c] + ([d] + rest)), u);
    ExpandCons(b, [c] + ([d] + rest), u);
    ExpandCons(c, [d] + rest, u);
    ExpandCons(d, rest, u);
    Associate(LinesOf(a, Values(u, a)), LinesOf(b, Values(u, b)), LinesOf(c, Values(u, c)), LinesOf(d, Values(u, d)),
              Expand(rest, u));
  }

  lemma ExpandService(u: ResolvedUnit, limits: seq<Directive>)
    requires limits == [Restart, RestartSec, LimitNOFILE, LimitMEMLOCK, ProtectHome, PrivateTmp, NoNewPrivileges]
    ensures Expand(SERVICE_ORDER, u)
            == (LinesOf(User, Values(u, User)) + LinesOf(SupplementaryGroups, Values(u, SupplementaryGroups))
                + LinesOf(AmbientCapabilities, Values(u, AmbientCapabilities))
                + LinesOf(CapabilityBoundingSet, Values(u, CapabilityBoundingSet)))
               + ((LinesOf(ExecStart, Values(u, ExecStart)) + LinesOf(ExecReload, Values(u, ExecReload))
                   + LinesOf(WorkingDirectory, Values(u, WorkingDirectory))
                       + LinesOf(Environment, Values(u, Environment)))
                  + Expand(limits, u))
  {
    var exec := [ExecStart] + ([ExecReload] + ([WorkingDirectory] + ([Environment] + limits)));
    assert SERVICE_ORDER == [User]
        + ([SupplementaryGroups] + ([AmbientCapabilities] + ([CapabilityBoundingSet] + exec)));
    hide *;
    ExpandFour(User, SupplementaryGroups, AmbientCapabilities, CapabilityBoundingSet, exec, u);
    ExpandFour(ExecStart, ExecReload, WorkingDirectory, Environment, limits, u);
  }

  lemma Associate(a: seq<string>, b: seq<string>, c: seq<string>, d: seq<string>, rest: seq<string>)
    ensures a + (b + (c + (d + rest))) == (a + b + c + d) + rest
  {
  }

  lemma UnitSectionIs(u: ResolvedUnit, after: seq<string>, wants: seq<string>, wantedBy: seq<string>)
    requires after == LinesOf(After, MapAll(u.after, TargetName))
        && wants == LinesOf(Wants, MapAll(u.wants, TargetName))
    requires wantedBy == LinesOf(WantedBy, MapAll(u.wantedBy, TargetName))
    ensures Expand(UNIT_ORDER, u) == [Line(Description, RenderDescription(u.description))] + after + wants
    ensures Expand(INSTALL_ORDER, u) == wantedBy
  {
    ExpandUnit(u);
    OneLine(Description, RenderDescription(u.description));
    hide LinesOf, Expand, Line, RenderDescription, MapAll;
  }

  lemma IdentityValues(u: ResolvedUnit)
    ensures Values(u, User) == OptionValues(u.user, AccountName)
        && Values(u, SupplementaryGroups) == GroupValues(u.groups)
    ensures Values(u, AmbientCapabilities) == AmbientValues(u.capabilities)
    ensures Values(u, CapabilityBoundingSet) == OptionValues(u.capabilities, CapabilityWords)
  {
  }

  lemma ExecValues(u: ResolvedUnit)
    ensures Values(u, ExecStart) == [RenderArgs(u.execStart)]
    ensures Values(u, ExecReload) == OptionValues(u.execReload, RenderArgs)
    ensures Values(u, WorkingDirectory) == OptionValues(u.workingDirectory, RenderArg)
    ensures Values(u, Environment) == MapAll(u.environment, EnvironmentLine)
  {
  }

  lemma LimitValues(u: ResolvedUnit)
    ensures Values(u, Restart) == [RestartName(u.restart)] && Values(u, RestartSec) == [DecimalOf(u.restartSec)]
    ensures Values(u, LimitNOFILE) == OptionValues(u.limitNofile, LimitName)
    ensures Values(u, LimitMEMLOCK) == OptionValues(u.limitMemlock, MemlockName)
    ensures Values(u, ProtectHome) == FlagValues(u.protectHome) && Values(u, PrivateTmp) == FlagValues(u.privateTmp)
    ensures Values(u, NoNewPrivileges) == FlagValues(u.noNewPrivileges)
  {
  }

  lemma ServiceSectionIs(u: ResolvedUnit, identity: seq<string>, exec: seq<string>, limits: seq<string>)
    requires identity == LinesOf(User, OptionValues(u.user, AccountName))
        + LinesOf(SupplementaryGroups, GroupValues(u.groups))
                         + LinesOf(AmbientCapabilities, AmbientValues(u.capabilities))
                         + LinesOf(CapabilityBoundingSet, OptionValues(u.capabilities, CapabilityWords))
    requires exec == LinesOf(ExecStart, [RenderArgs(u.execStart)])
        + LinesOf(ExecReload, OptionValues(u.execReload, RenderArgs))
                     + LinesOf(WorkingDirectory, OptionValues(u.workingDirectory, RenderArg))
                     + LinesOf(Environment, MapAll(u.environment, EnvironmentLine))
    requires limits == LinesOf(Restart, [RestartName(u.restart)]) + LinesOf(RestartSec, [DecimalOf(u.restartSec)])
                       + LinesOf(LimitNOFILE, OptionValues(u.limitNofile, LimitName))
                       + LinesOf(LimitMEMLOCK, OptionValues(u.limitMemlock, MemlockName))
                       + LinesOf(ProtectHome, FlagValues(u.protectHome)) + LinesOf(PrivateTmp, FlagValues(u.privateTmp))
                       + LinesOf(NoNewPrivileges, FlagValues(u.noNewPrivileges))
    ensures Expand(SERVICE_ORDER, u) == identity + exec + limits
  {
    var order := [Restart, RestartSec, LimitNOFILE, LimitMEMLOCK, ProtectHome, PrivateTmp, NoNewPrivileges];
    IdentityValues(u);
    ExecValues(u);
    LimitValues(u);
    hide *;
    ExpandService(u, order);
    ExpandLimits(u, order);
    assert identity + (exec + limits) == identity + exec + limits;
  }

  /** The pushed lines are the canonical layout of the resolved unit, or nothing is rendered at all. */
  method RenderText(unit: UnitTemplate, privileges: Privileges, ctx: Context)
    returns (result: Result<string, RenderError>)
    ensures match ResolveUnit(unit, privileges, ctx)
            case Ok(u) => result == Ok(UnitText.Render(u))
            case Err(e) => result == Err(e)
  {
    hide ResolveArgs, ResolveOptionArgs, ResolveOptionArg, ResolveEnvironment, LinesOf, Expand, Line, MapAll,
        OptionValues,
         AmbientValues, GroupValues, FlagValues, RenderArgs, DecimalOf, RestartName, RenderDescription, Join;
    var after := TargetLines(After, unit.after);
    var wants := TargetLines(Wants, unit.wants);
    var lines := ["[Unit]"] + ([Line(Description, RenderDescription(unit.description))] + after + wants);
    var identity := IdentityLines(privileges, UserOf(privileges, ctx));
    if identity.Err? { return Err(identity.error); }
    var exec := ExecLines(unit, ctx);
    if exec.Err? { return Err(exec.error); }
    var limits := LimitLines(unit, privileges);
    lines := lines + (["", "[Service]"] + (identity.value + exec.value + limits));
    var wantedBy := TargetLines(WantedBy, unit.wantedBy);
    lines := lines + (["", "[Install]"] + wantedBy);
    ghost var u := ResolveUnit(unit, privileges, ctx).value;
    UnitSectionIs(u, after, wants, wantedBy);
    ServiceSectionIs(u, identity.value, exec.value, limits);
    assert lines == Lines(u);
    result := Ok(Join(lines, '\n') + "\n");
  }

  // ---- the whole call ----

  function CheckLabel(field: NameField, value: string): Result<(), RenderError> {
    if IsDnsLabel(value) then Ok(()) else Err(InvalidNameComponent(field, value))
  }

  function UnitFileName(ctx: Context): Result<string, RenderError> {
    var _ :- CheckLabel(NamespaceName, ctx.namespace);
    var _ :- CheckLabel(ServiceNameName, ctx.serviceName);
    match ctx.instance
    case None => Ok(ctx.namespace + "-" + ctx.serviceName + ".service")
    case Some(instance) =>
      var _ :- CheckLabel(InstanceName, instance);
      Ok(ctx.namespace + "-" + ctx.serviceName + "-" + instance + ".service")
  }

  // ---- which contexts share a file name ----

  /** A name's hyphen-separated pieces: its components', end to end. */
  function NamePieces(ctx: Context): (pieces: seq<string>)
    ensures pieces != [] && forall p :: p in pieces ==> '-' !in p
  {
    Split(ctx.namespace, '-') + Split(ctx.serviceName, '-')
    + (if ctx.instance.Some? then Split(ctx.instance.value, '-') else [])
  }

  lemma FileNameIsItsPieces(ctx: Context)
    requires UnitFileName(ctx).Ok?
    ensures UnitFileName(ctx).value == Join(NamePieces(ctx), '-') + ".service"
  {
    hide Split, Join, IsDnsLabel;
    var names, services := Split(ctx.namespace, '-'), Split(ctx.serviceName, '-');
    JoinSplit(ctx.namespace, '-');
    JoinSplit(ctx.serviceName, '-');
    JoinConcat(names, services, '-');
    if ctx.instance.Some? {
      JoinSplit(ctx.instance.value, '-');
      JoinConcat(names + services, Split(ctx.instance.value, '-'), '-');
    } else {
      assert NamePieces(ctx) == names + services;
    }
  }

  /** Two contexts share a file name exactly when their components have the same pieces end to end. */
  lemma SameFileNameExactly(a: Context, b: Context)
    requires UnitFileName(a).Ok? && UnitFileName(b).Ok?
    ensures UnitFileName(a) == UnitFileName(b) <==> NamePieces(a) == NamePieces(b)
  {
    hide UnitFileName, NamePieces, Split, Join;
    FileNameIsItsPieces(a);
    FileNameIsItsPieces(b);
    SplitJoin(NamePieces(a), '-');
    SplitJoin(NamePieces(b), '-');
    var s, t := Join(NamePieces(a), '-'), Join(NamePieces(b), '-');
    if s + ".service" == t + ".service" {
      assert s == (s + ".service")[..|s|] && t == (t + ".service")[..|t|];
    }
  }

  /** So components without a hyphen are told apart by the file name. */
  lemma PlainComponentsAreToldApart(a: Context, b: Context)
    requires UnitFileName(a).Ok? && UnitFileName(a) == UnitFileName(b)
    requires forall c :: c in [a, b] ==>
               '-' !in c.namespace && '-' !in c.serviceName && (c.instance.Some? ==> '-' !in c.instance.value)
    ensures a.namespace == b.namespace && a.serviceName == b.serviceName && a.instance == b.instance
  {
    hide UnitFileName, Join;
    SameFileNameExactly(a, b);
    assert a in [a, b] && b in [a, b];
    assert NamePieces(a) == [a.namespace, a.serviceName] + (if a.instance.Some? then [a.instance.value] else []);
    assert NamePieces(b) == [b.namespace, b.serviceName] + (if b.instance.Some? then [b.instance.value] else []);
    assert NamePieces(a)[0] == NamePieces(b)[0] && NamePieces(a)[1] == NamePieces(b)[1];
    if a.instance.Some? { assert NamePieces(a)[2] == NamePieces(b)[2]; }
  }

  /** The file name is not injective: three different choices of components that share one. */
  lemma DifferentContextsShareAFileName(ctx: Context)
    ensures var a := ctx.(namespace := "a", serviceName := "b-c", instance := None);
            var b := ctx.(namespace := "a-b", serviceName := "c", instance := None);
            var c := ctx.(namespace := "a", serviceName := "b", instance := Some("c"));
            UnitFileName(a) == UnitFileName(b) == UnitFileName(c) == Ok("a-b-c.service")
  {
    assert IsDnsLabel("a") && IsDnsLabel("b") && IsDnsLabel("c") && IsDnsLabel("a-b") && IsDnsLabel("b-c");
    assert "a" + "-" + "b-c" + ".service" == "a-b-c.service" == "a-b" + "-" + "c" + ".service";
    assert "a" + "-" + "b" + "-" + "c" + ".service" == "a-b-c.service";
  }

  // ---- what a rendered unit says, value by value ----

  /** The value a variable stands for. Only the manager endpoint can be missing; the main pid is no value. */
  predicate StandsFor(v: RenderVar, ctx: Context, value: string) {
    match v
    case ArtifactPath => value == ctx.artifactPath
    case ConfigPath => value == ctx.configPath
    case DataDir => value == ctx.dataDir
    case InstanceId => value == ctx.instanceId
    case Hostname => value == ctx.hostname
    case Domain => value == ctx.domain
    case CertPath => value == ctx.certPath
    case KeyPath => value == ctx.keyPath
    case CaBundlePath => value == ctx.caBundlePath
    case ManagerEndpoint => ctx.managerEndpoint == Some(value)
    case MainPidVar => false
  }

  /** Nonempty, with no C0 control, delete or C1 control. */
  predicate IsPlain(value: string) {
    value != "" && forall i :: 0 <= i < |value| ==> 32 <= value[i] as int < 127 || 160 <= value[i] as int
  }

  /** The element an argument is rendered from: its own text, the main pid, or what its variable stands for. */
  predicate Says(arg: Arg, ctx: Context, a: UnitArg) {
    match arg
    case Literal(text) => a == Argument(text)
    case Var(v) => if v == MainPidVar then a == MainPid else a.Argument? && StandsFor(v, ctx, a.text) && IsPlain(a.text)
  }

  predicate SaysAll(args: seq<Arg>, ctx: Context, out: seq<UnitArg>) {
    |out| == |args| && forall i :: 0 <= i < |args| ==> Says(args[i], ctx, out[i])
  }

  /** An environment entry keeps its key; its value is raw text, where the main pid is spelled out. */
  predicate SaysEntry(entry: (string, Arg), ctx: Context, out: (string, string)) {
    out.0 == entry.0 && if entry.1 == Var(MainPidVar) then out.1 == "$MAINPID" else Says(entry.1, ctx, Argument(out.1))
  }

  predicate SaysEntries(environment: seq<(string, Arg)>, ctx: Context, out: seq<(string, string)>) {
    |out| == |environment| && forall i :: 0 <= i < |environment| ==> SaysEntry(environment[i], ctx, out[i])
  }

  /** What is wrong with one argument: the endpoint it needs is missing, or its value is not plain. */
  predicate Blames(arg: Arg, ctx: Context, e: RenderError) {
    match e
    case UnresolvedVariable(v) => arg == Var(v) && v == ManagerEndpoint && ctx.managerEndpoint == None
    case UnrepresentableValue(v, value) => arg == Var(v) && StandsFor(v, ctx, value) && !IsPlain(value)
    case _ => false
  }

  lemma PlainIs(value: string)
    ensures IsPlain(value) <==> IsRepresentable(value)
  {
    if IsRepresentable(value) {
      forall i | 0 <= i < |value| ensures 32 <= value[i] as int < 127 || 160 <= value[i] as int {
        assert !IsControl(value[i]);
      }
    }
  }

  lemma ResolvesExactly(arg: Arg, ctx: Context)
    ensures ResolveArg(arg, ctx).Ok? ==> Says(arg, ctx, ResolveArg(arg, ctx).value)
    ensures ResolveArg(arg, ctx).Err? ==> Blames(arg, ctx, ResolveArg(arg, ctx).error)
  {
    hide IsPlain, IsRepresentable;
    forall value: string ensures IsPlain(value) <==> IsRepresentable(value) { PlainIs(value); }
  }

  ghost predicate CanSay(arg: Arg, ctx: Context) { exists a :: Says(arg, ctx, a) }

  ghost predicate CanSayAll(args: seq<Arg>, ctx: Context) { forall i :: 0 <= i < |args| ==> CanSay(args[i], ctx) }

  ghost predicate BlamesAt(args: seq<Arg>, ctx: Context, e: RenderError, i: nat) {
    i < |args| && Blames(args[i], ctx, e) && forall j :: 0 <= j < i ==> CanSay(args[j], ctx)
  }

  /** The first argument that cannot be rendered, and what is wrong with it. */
  ghost predicate BlamesFirst(args: seq<Arg>, ctx: Context, e: RenderError) {
    exists i: nat :: BlamesAt(args, ctx, e, i)
  }

  lemma {:induction false} ArgsResolveExactly(args: seq<Arg>, ctx: Context)
    ensures ResolveArgs(args, ctx).Ok? ==> SaysAll(args, ctx, ResolveArgs(args, ctx).value) && CanSayAll(args, ctx)
    ensures ResolveArgs(args, ctx).Err? ==> BlamesFirst(args, ctx, ResolveArgs(args, ctx).error)
  {
    hide Says, CanSay, Blames, ResolveArg;
    if args != [] {
      OneResolves(args[0], ctx);
      ArgsResolveExactly(args[1..], ctx);
      assert [args[0]] + args[1..] == args;
      if ResolveArg(args[0], ctx).Err? {
        BlamesEarlier([args[0]], args[1..], ctx, ResolveArg(args[0], ctx).error);
      } else {
        if ResolveArgs(args[1..], ctx).Err? {
          BlamesLater([args[0]], args[1..], ctx, ResolveArgs(args[1..], ctx).error);
        } else {
          BothSaid([args[0]], args[1..], ctx);
        }
      }
    }
  }

  lemma BlamesLater(before: seq<Arg>, args: seq<Arg>, ctx: Context, e: RenderError)
    requires CanSayAll(before, ctx) && BlamesFirst(args, ctx, e)
    ensures BlamesFirst(before + args, ctx, e)
  {
    hide CanSay, Blames;
    var i: nat :| BlamesAt(args, ctx, e, i);
    var all, k := before + args, |before| + i;
    assert all[k] == args[i];
    forall j | 0 <= j < k ensures CanSay(all[j], ctx) {
      assert all[j] == if j < |before| then before[j] else args[j - |before|];
    }
    assert BlamesAt(all, ctx, e, k);
  }

  lemma BlamesEarlier(args: seq<Arg>, after: seq<Arg>, ctx: Context, e: RenderError)
    requires BlamesFirst(args, ctx, e)
    ensures BlamesFirst(args + after, ctx, e)
  {
    hide CanSay, Blames;
    var i: nat :| BlamesAt(args, ctx, e, i);
    assert forall j :: 0 <= j <= i ==> (args + after)[j] == args[j];
    assert BlamesAt(args + after, ctx, e, i);
  }

  function EntryArgs(environment: seq<(string, Arg)>): (args: seq<Arg>)
    ensures |args| == |environment| && forall i :: 0 <= i < |environment| ==> args[i] == environment[i].1
  {
    seq(|environment|, i requires 0 <= i < |environment| => environment[i].1)
  }

  lemma {:induction false} EntriesResolveExactly(environment: seq<(string, Arg)>, ctx: Context)
    ensures var resolved := ResolveEnvironment(environment, ctx);
            && (resolved.Ok? ==>
                  SaysEntries(environment, ctx, resolved.value) && CanSayAll(EntryArgs(environment), ctx))
            && (resolved.Err? ==> BlamesFirst(EntryArgs(environment), ctx, resolved.error))
  {
    hide Says, SaysEntry, CanSay, Blames, ResolveArg, EntryArgs;
    var args := EntryArgs(environment);
    if environment != [] {
      var head, tail := environment[0].1, EntryArgs(environment[1..]);
      OneResolves(head, ctx);
      EntriesResolveExactly(environment[1..], ctx);
      assert args == [head] + tail;
      if ResolveArg(head, ctx).Err? {
        BlamesEarlier([head], tail, ctx, ResolveArg(head, ctx).error);
      } else {
        EntryFrom(environment[0], ctx, ResolveArg(head, ctx).value);
        if ResolveEnvironment(environment[1..], ctx).Err? {
          BlamesLater([head], tail, ctx, ResolveEnvironment(environment[1..], ctx).error);
        } else {
          BothSaid([head], tail, ctx);
        }
      }
    }
  }

  lemma EntryFrom(entry: (string, Arg), ctx: Context, a: UnitArg)
    requires Says(entry.1, ctx, a)
    ensures SaysEntry(entry, ctx, (entry.0, match a case Argument(text) => text case MainPid => RenderArg(MainPid)))
  {
  }

  /** Every argument position of a template, in the order the renderer comes to them. */
  function Positions(unit: UnitTemplate): seq<Arg> {
    unit.execStart + (if unit.execReload.Some? then unit.execReload.value else [])
    + (if unit.workingDirectory.Some? then [unit.workingDirectory.value] else []) + EntryArgs(unit.environment)
  }

  /** The declared profile a selection names. */
  ghost predicate Selects(unit: UnitTemplate, ctx: Context, p: Profile) {
    p in unit.profiles && ctx.profile == Some(p.name)
  }

  /**
   * The account, groups, capabilities and memory-lock limit a unit gets: the template's own without a
   * profile, and otherwise the profile's, a root one giving root and nothing else.
   */
  ghost predicate SaysPrivileges(unit: UnitTemplate, ctx: Context, u: ResolvedUnit) {
    if ctx.profile == None then
      && unit.profiles == []
      && u.user == (if unit.runAs == None then ctx.account else None)
      && u.groups == unit.groups && u.capabilities == None && u.limitMemlock == None
    else
      exists p :: Selects(unit, ctx, p) &&
        if p.runAs == Some(Root) then
          u.user == None && u.groups == [] && u.capabilities == None && u.limitMemlock == None
        else
          && ctx.account.Some? && u.user == ctx.account && u.groups == p.groups
          && u.capabilities == Some(p.capabilities) && u.limitMemlock == p.limitMemlock
  }

  /** What a rendered unit says, field by field, in terms of the template and the context. */
  ghost predicate SaysUnit(unit: UnitTemplate, ctx: Context, u: ResolvedUnit) {
    && SaysPrivileges(unit, ctx, u)
    && u.description == unit.description
    && u.after == unit.after && u.wants == unit.wants && u.wantedBy == unit.wantedBy
    && SaysAll(unit.execStart, ctx, u.execStart)
    && (u.execReload.Some? <==> unit.execReload.Some?)
    && (u.execReload.Some? ==> SaysAll(unit.execReload.value, ctx, u.execReload.value))
    && (u.workingDirectory.Some? <==> unit.workingDirectory.Some?)
    && (u.workingDirectory.Some? ==> Says(unit.workingDirectory.value, ctx, u.workingDirectory.value))
    && SaysEntries(unit.environment, ctx, u.environment)
    && u.restart == unit.restart && u.restartSec == unit.restartSec && u.limitNofile == unit.limitNofile
    && u.protectHome == unit.protectHome && u.privateTmp == unit.privateTmp
    && u.noNewPrivileges == unit.noNewPrivileges
  }

  /** Why a selection is refused. */
  ghost predicate BlamesSelection(unit: UnitTemplate, ctx: Context, e: RenderError) {
    match e
    case MissingPrivilegeProfile => ctx.profile == None && unit.profiles != []
    case UnexpectedPrivilegeProfile(name) => ctx.profile == Some(name) && unit.profiles == []
    case UndeclaredPrivilegeProfile(name) =>
      ctx.profile == Some(name) && unit.profiles != [] && forall p :: p in unit.profiles ==> p.name != name
    case PrivilegeProfileWithoutUser(name) =>
      ctx.profile == Some(name) && ctx.account == None && exists p :: Selects(unit, ctx, p) && p.runAs == None
    case _ => false
  }

  predicate HasPrivileges(u: ResolvedUnit, privileges: Privileges, ctx: Context) {
    && u.user == UserOf(privileges, ctx) && u.groups == privileges.groups
    && u.capabilities == privileges.capabilities && u.limitMemlock == privileges.limitMemlock
  }

  lemma PrivilegesExactly(unit: UnitTemplate, ctx: Context)
    ensures ResolvePrivileges(unit, ctx).Err? ==> BlamesSelection(unit, ctx, ResolvePrivileges(unit, ctx).error)
    ensures ResolvePrivileges(unit, ctx).Ok? ==>
              forall u: ResolvedUnit :: HasPrivileges(u, ResolvePrivileges(unit, ctx).value, ctx) ==>
                SaysPrivileges(unit, ctx, u)
  {
    hide FindProfile;
    if ctx.profile.Some? {
      var name := ctx.profile.value;
      FindProfileIs(unit.profiles, name);
      var found := FindProfile(unit.profiles, name);
      if found.Some? {
        assert Selects(unit, ctx, found.value);
        assert found.value.runAs.Some? ==> found.value.runAs.value == Root;
      } else {
        forall p | p in unit.profiles ensures p.name != name {
          var i :| 0 <= i < |unit.profiles| && unit.profiles[i] == p;
        }
      }
    }
  }

  /** A resolved unit says what its template says; another is refused for groups or for the first bad value. */
  lemma UnitResolvesExactly(unit: UnitTemplate, ctx: Context)
    requires ResolvePrivileges(unit, ctx).Ok?
    ensures var privileges := ResolvePrivileges(unit, ctx).value;
            var resolved := ResolveUnit(unit, privileges, ctx);
            && (resolved.Ok? ==> SaysUnit(unit, ctx, resolved.value))
            && (resolved.Err? ==>
                  if privileges.groups != [] && UserOf(privileges, ctx) == None then
                    resolved.error == SupplementaryGroupsWithoutUser
                  else BlamesFirst(Positions(unit), ctx, resolved.error))
  {
    hide SaysPrivileges, ResolvePrivileges, UserOf, Says, SaysAll, SaysEntries, Blames, BlamesFirst, ResolveArg,
         ResolveArgs, ResolveEnvironment, CanSayAll, EntryArgs;
    PrivilegesExactly(unit, ctx);
    ArgsResolveExactly(unit.execStart, ctx);
    if unit.execReload.Some? { ArgsResolveExactly(unit.execReload.value, ctx); }
    if unit.workingDirectory.Some? { ResolvesExactly(unit.workingDirectory.value, ctx); }
    EntriesResolveExactly(unit.environment, ctx);
    if ResolveUnit(unit, ResolvePrivileges(unit, ctx).value, ctx).Err? { FirstBadPosition(unit, ctx); }
  }

  /** The first position that does not resolve is the first of all positions that does not. */
  lemma FirstBadPosition(unit: UnitTemplate, ctx: Context)
    ensures var start, reload := ResolveArgs(unit.execStart, ctx), ResolveOptionArgs(unit.execReload, ctx);
            var directory := ResolveOptionArg(unit.workingDirectory, ctx);
            var environment := ResolveEnvironment(unit.environment, ctx);
            && (start.Err? ==> BlamesFirst(Positions(unit), ctx, start.error))
            && (start.Ok? && reload.Err? ==> BlamesFirst(Positions(unit), ctx, reload.error))
            && (start.Ok? && reload.Ok? && directory.Err? ==> BlamesFirst(Positions(unit), ctx, directory.error))
            && (start.Ok? && reload.Ok? && directory.Ok? && environment.Err? ==>
                  BlamesFirst(Positions(unit), ctx, environment.error))
  {
    hide Says, SaysAll, SaysEntries, Blames, BlamesFirst, ResolveArg, ResolveArgs, ResolveEnvironment, CanSayAll,
         EntryArgs;
    var a := unit.execStart;
    var b := if unit.execReload.Some? then unit.execReload.value else [];
    var c := if unit.workingDirectory.Some? then [unit.workingDirectory.value] else [];
    var d := EntryArgs(unit.environment);
    ArgsResolveExactly(a, ctx);
    ArgsResolveExactly(b, ctx);
    EntriesResolveExactly(unit.environment, ctx);
    if unit.workingDirectory.Some? { OneResolves(unit.workingDirectory.value, ctx); }
    assert Positions(unit) == a + (b + (c + d)) == (a + b) + (c + d) == ((a + b) + c) + d;
    if ResolveArgs(a, ctx).Err? {
      BlamesEarlier(a, b + (c + d), ctx, ResolveArgs(a, ctx).error);
    } else {
      if ResolveOptionArgs(unit.execReload, ctx).Err? {
        BlamesLater(a, b, ctx, ResolveArgs(b, ctx).error);
        BlamesEarlier(a + b, c + d, ctx, ResolveArgs(b, ctx).error);
      } else {
        if unit.execReload.None? { NothingToSay(ctx); }
        BothSaid(a, b, ctx);
        if ResolveOptionArg(unit.workingDirectory, ctx).Err? {
          var e := ResolveOptionArg(unit.workingDirectory, ctx).error;
          BlamesLater(a + b, c, ctx, e);
          BlamesEarlier((a + b) + c, d, ctx, e);
        } else {
          if unit.workingDirectory.None? { NothingToSay(ctx); }
          BothSaid(a + b, c, ctx);
          if ResolveEnvironment(unit.environment, ctx).Err? {
            BlamesLater((a + b) + c, d, ctx, ResolveEnvironment(unit.environment, ctx).error);
          }
        }
      }
    }
  }

  lemma OneResolves(arg: Arg, ctx: Context)
    ensures ResolveArg(arg, ctx).Ok? ==> CanSayAll([arg], ctx) && Says(arg, ctx, ResolveArg(arg, ctx).value)
    ensures ResolveArg(arg, ctx).Err? ==> BlamesFirst([arg], ctx, ResolveArg(arg, ctx).error)
  {
    hide Says, Blames, ResolveArg;
    ResolvesExactly(arg, ctx);
    if ResolveArg(arg, ctx).Err? { assert BlamesAt([arg], ctx, ResolveArg(arg, ctx).error, 0); }
  }

  lemma NothingToSay(ctx: Context)
    ensures CanSayAll([], ctx)
  {
  }

  lemma BothSaid(a: seq<Arg>, b: seq<Arg>, ctx: Context)
    requires CanSayAll(a, ctx) && CanSayAll(b, ctx)
    ensures CanSayAll(a + b, ctx)
  {
    hide CanSay;
    forall i | 0 <= i < |a + b| ensures CanSay((a + b)[i], ctx) {
      assert (a + b)[i] == if i < |a| then a[i] else b[i - |a|];
    }
  }

  // ---- when a unit renders, and why it does not ----

  /** No profile for a template without any, or a declared one, which only as root needs no account. */
  predicate CanSelect(unit: UnitTemplate, ctx: Context) {
    || (unit.profiles == [] && ctx.profile == None)
    || (&& ctx.profile.Some?
        && (exists i :: 0 <= i < |unit.profiles| && unit.profiles[i].name == ctx.profile.value)
        && (ctx.profile.value == RootProfile || ctx.account.Some?))
  }

  /** The template's own groups need the account they are added to. */
  predicate CanJoinGroups(unit: UnitTemplate, ctx: Context) {
    ctx.profile == None && unit.groups != [] ==> unit.runAs == None && ctx.account.Some?
  }

  predicate CanName(ctx: Context) {
    IsDnsLabel(ctx.namespace) && IsDnsLabel(ctx.serviceName) && (ctx.instance.Some? ==> IsDnsLabel(ctx.instance.value))
  }

  /** Everything a render needs: a valid spec, a profile and an account that fit, labels, and plain values. */
  ghost predicate CanRender(spec: Spec, ctx: Context) {
    && IsValidSpec(spec, ctx.component, ctx.kind)
    && (spec.unit.Some? ==>
          && CanSelect(spec.unit.value, ctx) && CanName(ctx)
          && CanJoinGroups(spec.unit.value, ctx) && CanSayAll(Positions(spec.unit.value), ctx))
  }

  /** The first component of the file name that is no label. */
  predicate BlamesName(ctx: Context, e: RenderError) {
    if !IsDnsLabel(ctx.namespace) then e == InvalidNameComponent(NamespaceName, ctx.namespace)
    else if !IsDnsLabel(ctx.serviceName) then e == InvalidNameComponent(ServiceNameName, ctx.serviceName)
    else ctx.instance.Some? && !IsDnsLabel(ctx.instance.value)
         && e == InvalidNameComponent(InstanceName, ctx.instance.value)
  }

  /** What a refusal names: the spec's first violation, then privileges, file name, groups, and the first bad value. */
  ghost predicate RefusedBecause(spec: Spec, ctx: Context, e: RenderError) {
    if !IsValidSpec(spec, ctx.component, ctx.kind) then
      e.InvalidSpec? && FirstSpecError(spec, ctx.component, ctx.kind) == Some(e.error)
    else
      && spec.unit.Some?
      && var unit := spec.unit.value;
      if !CanSelect(unit, ctx) then BlamesSelection(unit, ctx, e)
      else if !CanName(ctx) then BlamesName(ctx, e)
      else if !CanJoinGroups(unit, ctx) then e == SupplementaryGroupsWithoutUser
      else BlamesFirst(Positions(unit), ctx, e)
  }

  lemma BlamedCannotBeSaid(args: seq<Arg>, ctx: Context, e: RenderError)
    requires BlamesFirst(args, ctx, e)
    ensures !CanSayAll(args, ctx)
  {
    var i: nat :| BlamesAt(args, ctx, e, i);
    assert !CanSay(args[i], ctx);
  }

  lemma NameExactly(ctx: Context)
    ensures UnitFileName(ctx).Ok? <==> CanName(ctx)
    ensures UnitFileName(ctx).Err? ==> BlamesName(ctx, UnitFileName(ctx).error)
  {
    hide IsDnsLabel;
  }

  lemma AllSaid(unit: UnitTemplate, privileges: Privileges, ctx: Context)
    requires ResolveUnit(unit, privileges, ctx).Ok?
    ensures CanSayAll(Positions(unit), ctx)
  {
    hide CanSay, CanSayAll, SaysAll, SaysEntries, Says, ResolveArgs, ResolveArg, ResolveEnvironment, EntryArgs,
         BlamesFirst, Blames;
    var a := unit.execStart;
    var b := if unit.execReload.Some? then unit.execReload.value else [];
    var c := if unit.workingDirectory.Some? then [unit.workingDirectory.value] else [];
    var d := EntryArgs(unit.environment);
    ArgsResolveExactly(a, ctx);
    ArgsResolveExactly(b, ctx);
    if unit.workingDirectory.Some? { OneResolves(unit.workingDirectory.value, ctx); }
    EntriesResolveExactly(unit.environment, ctx);
    NothingToSay(ctx);
    BothSaid(a, b, ctx);
    BothSaid(a + b, c, ctx);
    BothSaid(a + b + c, d, ctx);
  }

  /** In a valid template, a resolved selection has groups without a user exactly when its groups lack an account. */
  lemma GroupsExactly(unit: UnitTemplate, ctx: Context)
    requires IsValidUnit(unit) && ResolvePrivileges(unit, ctx).Ok?
    ensures var privileges := ResolvePrivileges(unit, ctx).value;
            privileges.groups != [] && UserOf(privileges, ctx) == None <==> !CanJoinGroups(unit, ctx)
  {
    hide FindProfile, Distinct, AreValidArgs, IsRepresentable, IsEnvironmentKey;
    if ctx.profile.Some? { FindProfileIs(unit.profiles, ctx.profile.value); }
  }

  /** The template resolves, and is refused, as its conditions say. */
  lemma RendersExactly(unit: UnitTemplate, ctx: Context)
    requires IsValidUnit(unit)
    ensures ResolvePrivileges(unit, ctx).Ok? <==> CanSelect(unit, ctx)
    ensures ResolvePrivileges(unit, ctx).Err? ==> BlamesSelection(unit, ctx, ResolvePrivileges(unit, ctx).error)
    ensures ResolvePrivileges(unit, ctx).Ok? ==>
              var resolved := ResolveUnit(unit, ResolvePrivileges(unit, ctx).value, ctx);
              && (resolved.Ok? <==> CanJoinGroups(unit, ctx) && CanSayAll(Positions(unit), ctx))
              && (resolved.Ok? ==> SaysUnit(unit, ctx, resolved.value))
              && (resolved.Err? ==>
                    if !CanJoinGroups(unit, ctx) then resolved.error == SupplementaryGroupsWithoutUser
                    else BlamesFirst(Positions(unit), ctx, resolved.error))
  {
    hide ResolvePrivileges, UserOf, SaysUnit, CanSayAll, Positions, BlamesFirst, BlamesSelection, ResolveArgs,
         ResolveOptionArgs, ResolveOptionArg, ResolveEnvironment, AreValidArgs, IsRepresentable, IsEnvironmentKey,
         AreValidProfiles, CanJoinGroups;
    PrivilegesResolveExactly(unit, ctx);
    PrivilegesExactly(unit, ctx);
    if ResolvePrivileges(unit, ctx).Ok? {
      GroupsExactly(unit, ctx);
      UnitResolvesExactly(unit, ctx);
      var resolved := ResolveUnit(unit, ResolvePrivileges(unit, ctx).value, ctx);
      if resolved.Ok? {
        AllSaid(unit, ResolvePrivileges(unit, ctx).value, ctx);
      } else if CanJoinGroups(unit, ctx) {
        BlamedCannotBeSaid(Positions(unit), ctx, resolved.error);
      }
    }
  }

  /** What renders reads back to a unit saying what the template says; everything else is refused with no output. */
  method RenderUnit(spec: Spec, ctx: Context) returns (result: Result<Option<RenderedUnit>, RenderError>)
    ensures result.Ok? <==> CanRender(spec, ctx)
    ensures result.Err? ==> RefusedBecause(spec, ctx, result.error)
    ensures result.Ok? ==> (result.value.Some? <==> spec.unit.Some?)
    ensures result.Ok? && result.value.Some? ==>
              && result.value.value.fileName == Join(NamePieces(ctx), '-') + ".service"
              && ParseUnit(result.value.value.text).Some?
              && SaysUnit(spec.unit.value, ctx, ParseUnit(result.value.value.text).value)
  {
    hide IsValidUnit, IsValidRegistration, ResolveUnit, ResolvePrivileges, UnitFileName, UnitText.Render, ParseUnit,
         IsWellFormed, UnitError, FirstSpecError, CanSelect, CanName, CanJoinGroups, CanSayAll, Positions, SaysUnit,
         BlamesSelection, BlamesName, BlamesFirst, NamePieces, Join;
    var valid := Validate(spec, ctx.component, ctx.kind);
    if valid.Err? { return Err(InvalidSpec(valid.error)); }
    if spec.unit.None? { return Ok(None); }
    var unit := spec.unit.value;
    RendersExactly(unit, ctx);
    NameExactly(ctx);
    var privileges := ResolvePrivileges(unit, ctx);
    if privileges.Err? { return Err(privileges.error); }
    var fileName := UnitFileName(ctx);
    if fileName.Err? { return Err(fileName.error); }
    FileNameIsItsPieces(ctx);
    var text := RenderText(unit, privileges.value, ctx);
    if text.Err? { return Err(text.error); }
    ResolvedIsWellFormed(unit, privileges.value, ctx);
    ParseRendered(ResolveUnit(unit, privileges.value, ctx).value);
    result := Ok(Some(RenderedUnit(fileName.value, text.value)));
  }
}
