/**
 * The canonical layout of a rendered unit (src/render.rs, order fixed in src/module_spec.rs)
 * and a reader that recovers every value of the unit from the text alone.
 */
module UnitText {
  import opened Options
  import opened Text
  import opened Decimal
  import opened Systemd
  import opened ModuleSpec

  datatype Account = Security | Insight | Roxyd

  /** Everything a unit file says, with every variable resolved. */
  datatype ResolvedUnit = ResolvedUnit(
    description: string, after: seq<Target>, wants: seq<Target>,
    user: Option<Account>, groups: seq<Group>, capabilities: Option<seq<Capability>>,
    execStart: seq<UnitArg>, execReload: Option<seq<UnitArg>>, workingDirectory: Option<UnitArg>,
    environment: seq<(string, string)>, restart: RestartPolicy, restartSec: U32,
    limitNofile: Option<U64>, limitMemlock: Option<MemlockLimit>,
    protectHome: bool, privateTmp: bool, noNewPrivileges: bool, wantedBy: seq<Target>)

  datatype Directive =
    | Description | After | Wants
    | User | SupplementaryGroups | AmbientCapabilities | CapabilityBoundingSet
    | ExecStart | ExecReload | WorkingDirectory | Environment | Restart | RestartSec
    | LimitNOFILE | LimitMEMLOCK | ProtectHome | PrivateTmp | NoNewPrivileges
    | WantedBy

  function Name(d: Directive): string {
    match d
    case Description => "Description"
    case After => "After"
    case Wants => "Wants"
    case User => "User"
    case SupplementaryGroups => "SupplementaryGroups"
    case AmbientCapabilities => "AmbientCapabilities"
    case CapabilityBoundingSet => "CapabilityBoundingSet"
    case ExecStart => "ExecStart"
    case ExecReload => "ExecReload"
    case WorkingDirectory => "WorkingDirectory"
    case Environment => "Environment"
    case Restart => "Restart"
    case RestartSec => "RestartSec"
    case LimitNOFILE => "LimitNOFILE"
    case LimitMEMLOCK => "LimitMEMLOCK"
    case ProtectHome => "ProtectHome"
    case PrivateTmp => "PrivateTmp"
    case NoNewPrivileges => "NoNewPrivileges"
    case WantedBy => "WantedBy"
  }

  datatype SectionName = UnitSection | ServiceSection | InstallSection

  function SectionOf(d: Directive): SectionName {
    match d
    case Description => UnitSection
    case After => UnitSection
    case Wants => UnitSection
    case WantedBy => InstallSection
    case _ => ServiceSection
  }

  // ---- closed vocabularies and their unit-file spellings ----

  function TargetName(t: Target): string {
    match t case NetworkOnline => "network-online.target" case MultiUser => "multi-user.target"
  }

  function TargetOf(s: string): Option<Target> {
    if s == "network-online.target" then Some(NetworkOnline)
    else if s == "multi-user.target" then Some(MultiUser) else None
  }

  function AccountName(a: Account): string {
    match a case Security => "clumit-security" case Insight => "clumit-insight" case Roxyd => "clumit-roxyd"
  }

  function AccountOf(s: string): Option<Account> {
    if s == "clumit-security" then Some(Security)
    else if s == "clumit-insight" then Some(Insight)
    else if s == "clumit-roxyd" then Some(Roxyd) else None
  }

  function GroupName(g: Group): string { match g case Adm => "adm" case SecurityVfio => "clumit-security-vfio" }

  function GroupOf(s: string): Option<Group> {
    if s == "adm" then Some(Adm) else if s == "clumit-security-vfio" then Some(SecurityVfio) else None
  }

  function CapabilityName(c: Capability): string {
    match c case NetRaw => "CAP_NET_RAW" case NetAdmin => "CAP_NET_ADMIN"
  }

  function CapabilityOf(s: string): Option<Capability> {
    if s == "CAP_NET_RAW" then Some(NetRaw) else if s == "CAP_NET_ADMIN" then Some(NetAdmin) else None
  }

  function MemlockName(m: MemlockLimit): string { "infinity" }

  function MemlockOf(s: string): Option<MemlockLimit> { if s == "infinity" then Some(Infinity) else None }

  function RestartName(r: RestartPolicy): string { "always" }

  function RestartOf(s: string): Option<RestartPolicy> { if s == "always" then Some(Always) else None }

  // ---- layout ----

  const UNIT_ORDER: seq<Directive> := [Description, After, Wants]
  const SERVICE_ORDER: seq<Directive> :=
    [User, SupplementaryGroups, AmbientCapabilities, CapabilityBoundingSet, ExecStart, ExecReload, WorkingDirectory,
     Environment, Restart, RestartSec, LimitNOFILE, LimitMEMLOCK, ProtectHome, PrivateTmp, NoNewPrivileges]
  const INSTALL_ORDER: seq<Directive> := [WantedBy]

  function Words<T>(xs: seq<T>, spell: T -> string): string { Join(MapAll(xs, spell), ' ') }

  function OptionValues<T>(o: Option<T>, spell: T -> string): seq<string> {
    if o.Some? then [spell(o.value)] else []
  }

  function FlagValues(flag: bool): seq<string> { if flag then ["yes"] else [] }

  function CapabilityWords(cs: seq<Capability>): string { Words(cs, CapabilityName) }

  function AmbientValues(capabilities: Option<seq<Capability>>): seq<string> {
    if capabilities.Some? && capabilities.value != [] then [CapabilityWords(capabilities.value)] else []
  }

  function GroupValues(groups: seq<Group>): seq<string> {
    if groups == [] then [] else [Words(groups, GroupName)]
  }

  function EnvironmentLine(entry: (string, string)): string { RenderEnvironment(entry.0, entry.1) }

  function DecimalOf(n: nat): string { ToDecimal(n) }

  function LimitName(n: U64): string { DecimalOf(n) }

  /** The values a unit gives a directive, one per line. */
  function Values(u: ResolvedUnit, d: Directive): seq<string> {
    match d
    case Description => [RenderDescription(u.description)]
    case After => MapAll(u.after, TargetName)
    case Wants => MapAll(u.wants, TargetName)
    case User => OptionValues(u.user, AccountName)
    case SupplementaryGroups => GroupValues(u.groups)
    case AmbientCapabilities => AmbientValues(u.capabilities)
    case CapabilityBoundingSet => OptionValues(u.capabilities, CapabilityWords)
    case ExecStart => [RenderArgs(u.execStart)]
    case ExecReload => OptionValues(u.execReload, RenderArgs)
    case WorkingDirectory => OptionValues(u.workingDirectory, RenderArg)
    case Environment => MapAll(u.environment, EnvironmentLine)
    case Restart => [RestartName(u.restart)]
    case RestartSec => [DecimalOf(u.restartSec)]
    case LimitNOFILE => OptionValues(u.limitNofile, LimitName)
    case LimitMEMLOCK => OptionValues(u.limitMemlock, MemlockName)
    case ProtectHome => FlagValues(u.protectHome)
    case PrivateTmp => FlagValues(u.privateTmp)
    case NoNewPrivileges => FlagValues(u.noNewPrivileges)
    case WantedBy => MapAll(u.wantedBy, TargetName)
  }

  function Line(d: Directive, value: string): string { Name(d) + "=" + value }

  function LinesOf(d: Directive, values: seq<string>): (lines: seq<string>)
    ensures |lines| == |values| && forall i :: 0 <= i < |values| ==> lines[i] == Line(d, values[i])
  {
    if values == [] then [] else [Line(d, values[0])] + LinesOf(d, values[1..])
  }

  function Expand(order: seq<Directive>, u: ResolvedUnit): seq<string> {
    if order == [] then [] else LinesOf(order[0], Values(u, order[0])) + Expand(order[1..], u)
  }

  function Lines(u: ResolvedUnit): seq<string> {
    (["[Unit]"] + Expand(UNIT_ORDER, u))
    + (["", "[Service]"] + Expand(SERVICE_ORDER, u))
    + (["", "[Install]"] + Expand(INSTALL_ORDER, u))
  }

  function Render(u: ResolvedUnit): string { Join(Lines(u), '\n') + "\n" }

  // ---- the layout, spelled out ----

  /** One line a value: a directive's name and the value's spelling. */
  function Each<T>(directive: string, xs: seq<T>, spell: T -> string): (lines: seq<string>)
    ensures |lines| == |xs| && forall i :: 0 <= i < |xs| ==> lines[i] == directive + "=" + spell(xs[i])
  {
    seq(|xs|, i requires 0 <= i < |xs| => directive + "=" + spell(xs[i]))
  }

  function Given<T>(directive: string, x: Option<T>, spell: T -> string): seq<string> {
    if x.Some? then [directive + "=" + spell(x.value)] else []
  }

  function One(directive: string, value: string): seq<string> { [directive + "=" + value] }

  function When(condition: bool, directive: string, value: string): seq<string> {
    if condition then One(directive, value) else []
  }

  function SpelledUnit(u: ResolvedUnit): seq<string> {
    ["[Unit]"] + One("Description", RenderDescription(u.description))
    + Each("After", u.after, TargetName) + Each("Wants", u.wants, TargetName)
  }

  function SpelledIdentity(u: ResolvedUnit): seq<string> {
    Given("User", u.user, AccountName)
    + When(u.groups != [], "SupplementaryGroups", Words(u.groups, GroupName))
    + (if u.capabilities.Some? && u.capabilities.value != [] then
         One("AmbientCapabilities", Words(u.capabilities.value, CapabilityName)) else [])
    + Given("CapabilityBoundingSet", u.capabilities, CapabilityWords)
  }

  function SpelledExec(u: ResolvedUnit): seq<string> {
    One("ExecStart", RenderArgs(u.execStart)) + Given("ExecReload", u.execReload, RenderArgs)
    + Given("WorkingDirectory", u.workingDirectory, RenderArg) + Each("Environment", u.environment, EnvironmentLine)
  }

  function SpelledLimits(u: ResolvedUnit): seq<string> {
    One("Restart", "always") + One("RestartSec", ToDecimal(u.restartSec))
    + Given("LimitNOFILE", u.limitNofile, LimitName) + When(u.limitMemlock.Some?, "LimitMEMLOCK", "infinity")
    + (When(u.protectHome, "ProtectHome", "yes") + When(u.privateTmp, "PrivateTmp", "yes")
       + When(u.noNewPrivileges, "NoNewPrivileges", "yes"))
  }

  /** The lines of a unit in full: directives, sections and order as they stand in the file. */
  lemma LinesAreSpelled(u: ResolvedUnit)
    ensures Lines(u) == SpelledUnit(u)
                        + (["", "[Service]"] + SpelledIdentity(u) + SpelledExec(u) + SpelledLimits(u))
                        + (["", "[Install]"] + Each("WantedBy", u.wantedBy, TargetName))
  {
    hide SpelledUnit, SpelledIdentity, SpelledExec, SpelledLimits, Expand, Each;
    UnitIsSpelled(u);
    ServiceIsSpelled(u);
    InstallIsSpelled(u);
  }

  /** The closed vocabularies as systemd reads them. */
  lemma VocabularyIsSpelled()
    ensures TargetName(NetworkOnline) == "network-online.target" && TargetName(MultiUser) == "multi-user.target"
    ensures AccountName(Security) == "clumit-security" && AccountName(Insight) == "clumit-insight"
    ensures AccountName(Roxyd) == "clumit-roxyd"
    ensures GroupName(Adm) == "adm" && GroupName(SecurityVfio) == "clumit-security-vfio"
    ensures CapabilityName(NetRaw) == "CAP_NET_RAW" && CapabilityName(NetAdmin) == "CAP_NET_ADMIN"
  {
  }

  lemma EachIs<T>(d: Directive, xs: seq<T>, spell: T -> string)
    ensures LinesOf(d, MapAll(xs, spell)) == Each(Name(d), xs, spell)
  {
    hide LinesOf, MapAll, Name;
  }

  lemma GivenIs<T>(d: Directive, x: Option<T>, spell: T -> string)
    ensures LinesOf(d, OptionValues(x, spell)) == Given(Name(d), x, spell)
  {
    hide Name;
    if x.Some? { assert [spell(x.value)][1..] == []; }
  }

  lemma OneIs(d: Directive, value: string)
    ensures LinesOf(d, [value]) == One(Name(d), value) && LinesOf(d, []) == []
  {
    hide Name;
    assert [value][1..] == [];
  }

  lemma ExpandOne(d: Directive, rest: seq<Directive>, u: ResolvedUnit)
    ensures Expand([d] + rest, u) == LinesOf(d, Values(u, d)) + Expand(rest, u)
  {
    hide LinesOf, Values;
    assert ([d] + rest)[1..] == rest;
  }

  lemma ExpandNone(u: ResolvedUnit)
    ensures Expand([], u) == []
  {
  }

  lemma {:induction false} ExpandTwoParts(a: seq<Directive>, b: seq<Directive>, u: ResolvedUnit)
    ensures Expand(a + b, u) == Expand(a, u) + Expand(b, u)
    decreases |a|
  {
    hide LinesOf, Values;
    if a == [] {
      assert a + b == b;
    } else {
      assert (a + b)[1..] == a[1..] + b && (a + b)[0] == a[0];
      ExpandTwoParts(a[1..], b, u);
    }
  }

  lemma ExpandThree(a: Directive, b: Directive, c: Directive, u: ResolvedUnit)
    ensures Expand([a, b, c], u) == LinesOf(a, Values(u, a)) + LinesOf(b, Values(u, b)) + LinesOf(c, Values(u, c))
  {
    hide LinesOf, Values, Expand;
    assert [a, b, c] == [a] + [b, c] && [b, c] == [b] + [c] && [c] == [c] + [];
    ExpandOne(a, [b, c], u);
    ExpandOne(b, [c], u);
    ExpandOne(c, [], u);
    ExpandNone(u);
    ThreeTogether(LinesOf(a, Values(u, a)), LinesOf(b, Values(u, b)), LinesOf(c, Values(u, c)));
  }

  lemma ThreeTogether(x: seq<string>, y: seq<string>, z: seq<string>)
    ensures x + (y + (z + [])) == x + y + z
  {
  }

  lemma FourTogether(x: seq<string>, y: seq<string>, z: seq<string>, w: seq<string>)
    ensures x + (y + z + w) == x + y + z + w
  {
  }

  lemma ExpandFour(a: Directive, b: Directive, c: Directive, d: Directive, u: ResolvedUnit)
    ensures Expand([a, b, c, d], u)
            == LinesOf(a, Values(u, a)) + LinesOf(b, Values(u, b)) + LinesOf(c, Values(u, c)) + LinesOf(d, Values(u, d))
  {
    hide LinesOf, Values, Expand;
    assert [a, b, c, d] == [a] + [b, c, d];
    ExpandOne(a, [b, c, d], u);
    ExpandThree(b, c, d, u);
    FourTogether(LinesOf(a, Values(u, a)), LinesOf(b, Values(u, b)), LinesOf(c, Values(u, c)),
                 LinesOf(d, Values(u, d)));
  }

  lemma UnitIsSpelled(u: ResolvedUnit)
    ensures ["[Unit]"] + Expand(UNIT_ORDER, u) == SpelledUnit(u)
  {
    hide LinesOf, Expand, Each, One, RenderDescription, TargetName, MapAll;
    ExpandThree(Description, After, Wants, u);
    OneIs(Description, RenderDescription(u.description));
    EachIs(After, u.after, TargetName);
    EachIs(Wants, u.wants, TargetName);
    FourTogether(["[Unit]"], LinesOf(Description, Values(u, Description)), LinesOf(After, Values(u, After)),
                 LinesOf(Wants, Values(u, Wants)));
  }

  lemma InstallIsSpelled(u: ResolvedUnit)
    ensures Expand(INSTALL_ORDER, u) == Each("WantedBy", u.wantedBy, TargetName)
  {
    hide LinesOf, Expand, Each, TargetName, MapAll;
    ExpandOne(WantedBy, [], u);
    ExpandNone(u);
    assert INSTALL_ORDER == [WantedBy] + [];
    EachIs(WantedBy, u.wantedBy, TargetName);
  }

  lemma ServiceIsSpelled(u: ResolvedUnit)
    ensures Expand(SERVICE_ORDER, u) == SpelledIdentity(u) + SpelledExec(u) + SpelledLimits(u)
  {
    hide Expand, SpelledIdentity, SpelledExec, SpelledLimits;
    var identity := [User, SupplementaryGroups, AmbientCapabilities, CapabilityBoundingSet];
    var exec := [ExecStart, ExecReload, WorkingDirectory, Environment];
    var limits := [Restart, RestartSec, LimitNOFILE, LimitMEMLOCK] + [ProtectHome, PrivateTmp, NoNewPrivileges];
    assert SERVICE_ORDER == identity + exec + limits;
    ExpandTwoParts(identity + exec, limits, u);
    ExpandTwoParts(identity, exec, u);
    IdentityIsSpelled(u);
    ExecIsSpelled(u);
    LimitsAreSpelled(u);
  }

  lemma IdentityIsSpelled(u: ResolvedUnit)
    ensures Expand([User, SupplementaryGroups, AmbientCapabilities, CapabilityBoundingSet], u) == SpelledIdentity(u)
  {
    hide LinesOf, Expand, Words, AccountName, CapabilityWords, One;
    ExpandFour(User, SupplementaryGroups, AmbientCapabilities, CapabilityBoundingSet, u);
    GivenIs(User, u.user, AccountName);
    OneIs(SupplementaryGroups, Words(u.groups, GroupName));
    if u.capabilities.Some? { WordsAre(u.capabilities.value); }
    OneIs(AmbientCapabilities, if u.capabilities.Some? then CapabilityWords(u.capabilities.value) else "");
    GivenIs(CapabilityBoundingSet, u.capabilities, CapabilityWords);
  }

  lemma WordsAre(capabilities: seq<Capability>)
    ensures CapabilityWords(capabilities) == Words(capabilities, CapabilityName)
  {
    hide Words;
  }

  lemma ExecIsSpelled(u: ResolvedUnit)
    ensures Expand([ExecStart, ExecReload, WorkingDirectory, Environment], u) == SpelledExec(u)
  {
    hide LinesOf, Expand, Each, One, Given, RenderArgs, RenderArg, EnvironmentLine, MapAll;
    ExpandFour(ExecStart, ExecReload, WorkingDirectory, Environment, u);
    OneIs(ExecStart, RenderArgs(u.execStart));
    GivenIs(ExecReload, u.execReload, RenderArgs);
    GivenIs(WorkingDirectory, u.workingDirectory, RenderArg);
    EachIs(Environment, u.environment, EnvironmentLine);
  }

  lemma LimitsAreSpelled(u: ResolvedUnit)
    ensures Expand([Restart, RestartSec, LimitNOFILE, LimitMEMLOCK] + [ProtectHome, PrivateTmp, NoNewPrivileges], u)
            == SpelledLimits(u)
  {
    hide LinesOf, Expand, ToDecimal, One, Given;
    ExpandTwoParts([Restart, RestartSec, LimitNOFILE, LimitMEMLOCK], [ProtectHome, PrivateTmp, NoNewPrivileges], u);
    ExpandFour(Restart, RestartSec, LimitNOFILE, LimitMEMLOCK, u);
    ExpandThree(ProtectHome, PrivateTmp, NoNewPrivileges, u);
    OneIs(Restart, "always");
    OneIs(RestartSec, ToDecimal(u.restartSec));
    GivenIs(LimitNOFILE, u.limitNofile, LimitName);
    OneIs(LimitMEMLOCK, "infinity");
    OneIs(ProtectHome, "yes");
    OneIs(PrivateTmp, "yes");
    OneIs(NoNewPrivileges, "yes");
  }

  // ---- the reader ----

  predicate IsHeader(line: string) { line != "" && line[0] == '[' }

  function AfterLine(lines: seq<string>, header: string): seq<string> {
    if lines == [] then [] else if lines[0] == header then lines[1..] else AfterLine(lines[1..], header)
  }

  function UntilHeader(lines: seq<string>): seq<string> {
    if lines == [] || IsHeader(lines[0]) then [] else [lines[0]] + UntilHeader(lines[1..])
  }

  function Section(lines: seq<string>, header: string): seq<string> { UntilHeader(AfterLine(lines, header)) }

  /** The values of the lines whose text before the first `=` is the directive's name. */
  function ValuesIn(lines: seq<string>, d: Directive): seq<string> {
    if lines == [] then []
    else
      var eq := Find(lines[0], '=');
      (if eq < |lines[0]| && lines[0][..eq] == Name(d) then [lines[0][eq + 1..]] else []) + ValuesIn(lines[1..], d)
  }

  function MapSome<T>(xs: seq<string>, read: string -> Option<T>): Option<seq<T>> {
    if xs == [] then Some([])
    else
      var first :- read(xs[0]);
      var rest :- MapSome(xs[1..], read);
      Some([first] + rest)
  }

  function OneValue<T>(values: seq<string>, read: string -> Option<T>): Option<T> {
    if |values| == 1 then read(values[0]) else None
  }

  function AtMostOne<T>(values: seq<string>, read: string -> Option<T>): Option<Option<T>> {
    if values == [] then Some(None)
    else
      var value :- OneValue(values, read);
      Some(Some(value))
  }

  function ReadFlag(values: seq<string>): Option<bool> {
    if values == [] then Some(false) else if values == ["yes"] then Some(true) else None
  }

  function ReadDescription(s: string): Option<string> { Undouble(s, false) }

  function ReadCapabilities(s: string): Option<seq<Capability>> {
    if s == "" then Some([]) else MapSome(Split(s, ' '), CapabilityOf)
  }

  function ReadGroups(values: seq<string>): Option<seq<Group>> {
    if values == [] then Some([])
    else if |values| == 1 then MapSome(Split(values[0], ' '), GroupOf) else None
  }

  function ReadU64(s: string): Option<U64> {
    var n :- ParseU64(s);
    Some(n)
  }

  function ReadU32(s: string): Option<U32> {
    var n :- ParseU64(s);
    if n <= U32_MAX then Some(n) else None
  }

  datatype Sections = Sections(unit: seq<string>, service: seq<string>, install: seq<string>)

  function ValuesFor(s: Sections, d: Directive): seq<string> {
    match SectionOf(d)
    case UnitSection => ValuesIn(s.unit, d)
    case ServiceSection => ValuesIn(s.service, d)
    case InstallSection => ValuesIn(s.install, d)
  }

  function DecodeUnit(s: Sections): Option<ResolvedUnit> {
    var description :- OneValue(ValuesFor(s, Description), ReadDescription);
    var after :- MapSome(ValuesFor(s, After), TargetOf);
    var wants :- MapSome(ValuesFor(s, Wants), TargetOf);
    var user :- AtMostOne(ValuesFor(s, User), AccountOf);
    var groups :- ReadGroups(ValuesFor(s, SupplementaryGroups));
    var capabilities :- AtMostOne(ValuesFor(s, CapabilityBoundingSet), ReadCapabilities);
    if ValuesFor(s, AmbientCapabilities) != AmbientValues(capabilities) then None
    else
      var execStart :- OneValue(ValuesFor(s, ExecStart), ParseArgs);
      var execReload :- AtMostOne(ValuesFor(s, ExecReload), ParseArgs);
      var workingDirectory :- AtMostOne(ValuesFor(s, WorkingDirectory), ParseArg);
      var environment :- MapSome(ValuesFor(s, Environment), ParseEnvironment);
      var restart :- OneValue(ValuesFor(s, Restart), RestartOf);
      var restartSec :- OneValue(ValuesFor(s, RestartSec), ReadU32);
      var limitNofile :- AtMostOne(ValuesFor(s, LimitNOFILE), ReadU64);
      var limitMemlock :- AtMostOne(ValuesFor(s, LimitMEMLOCK), MemlockOf);
      var protectHome :- ReadFlag(ValuesFor(s, ProtectHome));
      var privateTmp :- ReadFlag(ValuesFor(s, PrivateTmp));
      var noNewPrivileges :- ReadFlag(ValuesFor(s, NoNewPrivileges));
      var wantedBy :- MapSome(ValuesFor(s, WantedBy), TargetOf);
      Some(ResolvedUnit(
             description, after, wants, user, groups, capabilities, execStart, execReload, workingDirectory,
             environment, restart, restartSec, limitNofile, limitMemlock, protectHome, privateTmp, noNewPrivileges,
             wantedBy))
  }

  function ParseUnit(text: string): Option<ResolvedUnit> {
    var lines := Split(text, '\n');
    DecodeUnit(Sections(Section(lines, "[Unit]"), Section(lines, "[Service]"), Section(lines, "[Install]")))
  }

  // ---- what the validator and the resolver guarantee ----

  predicate ArgOnOneLine(a: UnitArg) { a.Argument? ==> '\n' !in a.text }

  predicate ArgsOnOneLine(args: seq<UnitArg>) { args != [] && forall a :: a in args ==> ArgOnOneLine(a) }

  predicate IsWellFormed(u: ResolvedUnit) {
    && '\n' !in u.description
    && ArgsOnOneLine(u.execStart)
    && (u.execReload.Some? ==> ArgsOnOneLine(u.execReload.value))
    && (u.workingDirectory.Some? ==> ArgOnOneLine(u.workingDirectory.value))
    && forall i :: 0 <= i < |u.environment| ==>
         '=' !in u.environment[i].0 && '\n' !in u.environment[i].0 && '\n' !in u.environment[i].1
  }

  // ---- values decode ----

  lemma {:induction false} MapRoundTrip<T>(xs: seq<T>, spell: T -> string, read: string -> Option<T>)
    requires forall i :: 0 <= i < |xs| ==> read(spell(xs[i])) == Some(xs[i])
    ensures MapSome(MapAll(xs, spell), read) == Some(xs)
  {
    if xs != [] {
      assert MapAll(xs, spell)[1..] == MapAll(xs[1..], spell);
      assert forall i :: 0 <= i < |xs| - 1 ==> xs[1..][i] == xs[i + 1];
      MapRoundTrip(xs[1..], spell, read);
      assert xs == [xs[0]] + xs[1..];
    } else {
      assert MapAll(xs, spell) == [];
    }
  }

  lemma WordsRoundTrip<T>(xs: seq<T>, spell: T -> string, read: string -> Option<T>)
    requires xs != [] && forall i :: 0 <= i < |xs| ==> read(spell(xs[i])) == Some(xs[i]) && ' ' !in spell(xs[i])
    ensures MapSome(Split(Words(xs, spell), ' '), read) == Some(xs)
  {
    SplitJoin(MapAll(xs, spell), ' ');
    MapRoundTrip(xs, spell, read);
  }

  lemma OptionRoundTrip<T>(o: Option<T>, spell: T -> string, read: string -> Option<T>)
    requires o.Some? ==> read(spell(o.value)) == Some(o.value)
    ensures AtMostOne(OptionValues(o, spell), read) == Some(o)
  {
  }

  lemma TargetsDecode(ts: seq<Target>)
    ensures MapSome(MapAll(ts, TargetName), TargetOf) == Some(ts)
  {
    MapRoundTrip(ts, TargetName, TargetOf);
  }

  lemma UserDecodes(user: Option<Account>)
    ensures AtMostOne(OptionValues(user, AccountName), AccountOf) == Some(user)
  {
    OptionRoundTrip(user, AccountName, AccountOf);
  }

  lemma GroupsDecode(groups: seq<Group>)
    ensures ReadGroups(GroupValues(groups)) == Some(groups)
  {
    if groups != [] { WordsRoundTrip(groups, GroupName, GroupOf); }
  }

  lemma CapabilityWordsDecode(cs: seq<Capability>)
    ensures ReadCapabilities(CapabilityWords(cs)) == Some(cs)
  {
    if cs != [] {
      WordsRoundTrip(cs, CapabilityName, CapabilityOf);
      assert MapAll(cs, CapabilityName)[0] != "";
    }
  }

  lemma CapabilitiesDecode(capabilities: Option<seq<Capability>>)
    ensures AtMostOne(OptionValues(capabilities, CapabilityWords), ReadCapabilities) == Some(capabilities)
  {
    if capabilities.Some? { CapabilityWordsDecode(capabilities.value); }
    OptionRoundTrip(capabilities, CapabilityWords, ReadCapabilities);
  }

  lemma ExecReloadDecodes(execReload: Option<seq<UnitArg>>)
    requires execReload.Some? ==> execReload.value != []
    ensures AtMostOne(OptionValues(execReload, RenderArgs), ParseArgs) == Some(execReload)
  {
    if execReload.Some? { ParseRenderedArgs(execReload.value); }
    OptionRoundTrip(execReload, RenderArgs, ParseArgs);
  }

  lemma WorkingDirectoryDecodes(workingDirectory: Option<UnitArg>)
    ensures AtMostOne(OptionValues(workingDirectory, RenderArg), ParseArg) == Some(workingDirectory)
  {
    if workingDirectory.Some? { ParseRenderedArg(workingDirectory.value); }
    OptionRoundTrip(workingDirectory, RenderArg, ParseArg);
  }

  lemma EnvironmentDecodes(environment: seq<(string, string)>)
    requires forall i :: 0 <= i < |environment| ==> '=' !in environment[i].0
    ensures MapSome(MapAll(environment, EnvironmentLine), ParseEnvironment) == Some(environment)
  {
    forall i | 0 <= i < |environment|
      ensures ParseEnvironment(EnvironmentLine(environment[i])) == Some(environment[i])
    {
      ParseRenderedEnvironment(environment[i].0, environment[i].1);
    }
    MapRoundTrip(environment, EnvironmentLine, ParseEnvironment);
  }

  lemma NumbersDecode(sec: U32, limit: Option<U64>)
    ensures ReadU32(DecimalOf(sec)) == Some(sec)
    ensures AtMostOne(OptionValues(limit, LimitName), ReadU64) == Some(limit)
  {
    ParseDecimal(sec);
    if limit.Some? { ParseDecimal(limit.value); }
  }

  lemma MemlockDecodes(limit: Option<MemlockLimit>)
    ensures AtMostOne(OptionValues(limit, MemlockName), MemlockOf) == Some(limit)
  {
    if limit.Some? { assert limit.value == Infinity; }
    OptionRoundTrip(limit, MemlockName, MemlockOf);
  }

  lemma IdentityDecodes(u: ResolvedUnit)
    ensures OneValue(Values(u, Description), ReadDescription) == Some(u.description)
    ensures MapSome(Values(u, After), TargetOf) == Some(u.after)
    ensures MapSome(Values(u, Wants), TargetOf) == Some(u.wants)
    ensures MapSome(Values(u, WantedBy), TargetOf) == Some(u.wantedBy)
    ensures AtMostOne(Values(u, User), AccountOf) == Some(u.user)
    ensures ReadGroups(Values(u, SupplementaryGroups)) == Some(u.groups)
    ensures AtMostOne(Values(u, CapabilityBoundingSet), ReadCapabilities) == Some(u.capabilities)
    ensures Values(u, AmbientCapabilities) == AmbientValues(u.capabilities)
  {
    UndoubleDouble(u.description, false);
    TargetsDecode(u.after);
    TargetsDecode(u.wants);
    TargetsDecode(u.wantedBy);
    UserDecodes(u.user);
    GroupsDecode(u.groups);
    CapabilitiesDecode(u.capabilities);
    hide MapSome, AtMostOne, ReadGroups, Undouble, Double, OptionValues, AmbientValues, GroupValues;
  }

  lemma ExecDecodes(u: ResolvedUnit)
    requires IsWellFormed(u)
    ensures OneValue(Values(u, ExecStart), ParseArgs) == Some(u.execStart)
    ensures AtMostOne(Values(u, ExecReload), ParseArgs) == Some(u.execReload)
    ensures AtMostOne(Values(u, WorkingDirectory), ParseArg) == Some(u.workingDirectory)
    ensures MapSome(Values(u, Environment), ParseEnvironment) == Some(u.environment)
  {
    assert Values(u, ExecStart) == [RenderArgs(u.execStart)];
    assert Values(u, ExecReload) == OptionValues(u.execReload, RenderArgs);
    assert Values(u, WorkingDirectory) == OptionValues(u.workingDirectory, RenderArg);
    assert Values(u, Environment) == MapAll(u.environment, EnvironmentLine);
    ParseRenderedArgs(u.execStart);
    OneValueIs(RenderArgs(u.execStart), ParseArgs);
    hide *;
    ExecReloadDecodes(u.execReload);
    WorkingDirectoryDecodes(u.workingDirectory);
    EnvironmentDecodes(u.environment);
  }

  lemma OneValueIs<T>(value: string, read: string -> Option<T>)
    ensures OneValue([value], read) == read(value)
  {
  }

  lemma FlagDecodes(flag: bool)
    ensures ReadFlag(FlagValues(flag)) == Some(flag)
  {
  }

  lemma RestartDecodes(r: RestartPolicy)
    ensures RestartOf(RestartName(r)) == Some(r)
  {
    assert r == Always;
  }

  lemma LimitsDecode(u: ResolvedUnit)
    ensures OneValue(Values(u, Restart), RestartOf) == Some(u.restart)
    ensures OneValue(Values(u, RestartSec), ReadU32) == Some(u.restartSec)
    ensures AtMostOne(Values(u, LimitNOFILE), ReadU64) == Some(u.limitNofile)
    ensures AtMostOne(Values(u, LimitMEMLOCK), MemlockOf) == Some(u.limitMemlock)
    ensures ReadFlag(Values(u, ProtectHome)) == Some(u.protectHome)
    ensures ReadFlag(Values(u, PrivateTmp)) == Some(u.privateTmp)
    ensures ReadFlag(Values(u, NoNewPrivileges)) == Some(u.noNewPrivileges)
  {
    assert Values(u, Restart) == [RestartName(u.restart)] && Values(u, RestartSec) == [DecimalOf(u.restartSec)];
    assert Values(u, LimitNOFILE) == OptionValues(u.limitNofile, LimitName);
    assert Values(u, LimitMEMLOCK) == OptionValues(u.limitMemlock, MemlockName);
    assert Values(u, ProtectHome) == FlagValues(u.protectHome) && Values(u, PrivateTmp) == FlagValues(u.privateTmp);
    assert Values(u, NoNewPrivileges) == FlagValues(u.noNewPrivileges);
    hide *;
    RestartDecodes(u.restart);
    OneValueIs(RestartName(u.restart), RestartOf);
    OneValueIs(DecimalOf(u.restartSec), ReadU32);
    NumbersDecode(u.restartSec, u.limitNofile);
    MemlockDecodes(u.limitMemlock);
    FlagDecodes(u.protectHome);
    FlagDecodes(u.privateTmp);
    FlagDecodes(u.noNewPrivileges);
  }

  /** Every value list a well-formed unit gives decodes to the field it came from. */
  lemma ValuesDecode(u: ResolvedUnit, s: Sections)
    requires IsWellFormed(u)
    requires forall d :: ValuesFor(s, d) == Values(u, d)
    ensures DecodeUnit(s) == Some(u)
  {
    IdentityDecodes(u);
    ExecDecodes(u);
    LimitsDecode(u);
    hide MapSome, AtMostOne, OneValue, ReadFlag, ReadGroups, AmbientValues, ValuesFor, Values, IsWellFormed;
  }

  // ---- lines ----

  predicate AllLetters(s: string) { s != "" && forall i :: 0 <= i < |s| ==> IsLetter(s[i]) }

  lemma UnitNameIsLetters(d: Directive)
    requires SectionOf(d) == UnitSection || SectionOf(d) == InstallSection
    ensures AllLetters(Name(d))
  {
  }

  lemma IdentityNameIsLetters(d: Directive)
    requires d.User? || d.SupplementaryGroups? || d.AmbientCapabilities? || d.CapabilityBoundingSet?
    ensures AllLetters(Name(d))
  {
  }

  lemma ExecNameIsLetters(d: Directive)
    requires d.ExecStart? || d.ExecReload? || d.WorkingDirectory? || d.Environment? || d.Restart? || d.RestartSec?
    ensures AllLetters(Name(d))
  {
  }

  lemma LimitNameIsLetters(d: Directive)
    requires d.LimitNOFILE? || d.LimitMEMLOCK? || d.ProtectHome? || d.PrivateTmp? || d.NoNewPrivileges?
    ensures AllLetters(Name(d))
  {
  }

  lemma NameIsLetters(d: Directive)
    ensures AllLetters(Name(d))
  {
    hide Name, AllLetters;
    if SectionOf(d) != ServiceSection { UnitNameIsLetters(d); }
    else if d.User? || d.SupplementaryGroups? || d.AmbientCapabilities? || d.CapabilityBoundingSet? {
      IdentityNameIsLetters(d);
    }
    else if d.LimitNOFILE? || d.LimitMEMLOCK? || d.ProtectHome? || d.PrivateTmp? || d.NoNewPrivileges? {
      LimitNameIsLetters(d);
    }
    else { ExecNameIsLetters(d); }
  }

  lemma NameShape(d: Directive)
    ensures Name(d) != "" && Name(d)[0] != '[' && '=' !in Name(d) && '\n' !in Name(d)
  {
    NameIsLetters(d);
    hide Name;
  }

  /** The directive a name belongs to. */
  function DirectiveOf(name: string): Option<Directive> {
    if name == "Description" then Some(Description)
    else if name == "After" then Some(After)
    else if name == "Wants" then Some(Wants)
    else if name == "User" then Some(User)
    else if name == "SupplementaryGroups" then Some(SupplementaryGroups)
    else if name == "AmbientCapabilities" then Some(AmbientCapabilities)
    else if name == "CapabilityBoundingSet" then Some(CapabilityBoundingSet)
    else if name == "ExecStart" then Some(ExecStart)
    else if name == "ExecReload" then Some(ExecReload)
    else if name == "WorkingDirectory" then Some(WorkingDirectory)
    else if name == "Environment" then Some(Environment)
    else if name == "Restart" then Some(Restart)
    else if name == "RestartSec" then Some(RestartSec)
    else if name == "LimitNOFILE" then Some(LimitNOFILE)
    else if name == "LimitMEMLOCK" then Some(LimitMEMLOCK)
    else if name == "ProtectHome" then Some(ProtectHome)
    else if name == "PrivateTmp" then Some(PrivateTmp)
    else if name == "NoNewPrivileges" then Some(NoNewPrivileges)
    else if name == "WantedBy" then Some(WantedBy)
    else None
  }

  lemma EarlyNamesAreDistinct(d: Directive)
    requires Position(d) < 9
    ensures DirectiveOf(Name(d)) == Some(d)
  {
  }

  lemma LateNamesAreDistinct(d: Directive)
    requires 9 <= Position(d)
    ensures DirectiveOf(Name(d)) == Some(d)
  {
  }

  lemma NamesAreDistinct(d: Directive)
    ensures DirectiveOf(Name(d)) == Some(d)
  {
    hide *;
    if Position(d) < 9 { EarlyNamesAreDistinct(d); } else { LateNamesAreDistinct(d); }
  }

  lemma ValuesInLine(line: string, d: Directive, e: Directive, value: string)
    requires line == Line(e, value)
    ensures ValuesIn([line], d) == if d == e then [value] else []
  {
    NameShape(e);
    NamesAreDistinct(d);
    NamesAreDistinct(e);
    hide Name, DirectiveOf, Find;
    FindAppend(Name(e), value, '=');
    assert line == Name(e) + ['='] + value;
    assert line[..|Name(e)|] == Name(e) && line[|Name(e)| + 1..] == value;
    assert [line][1..] == [];
  }

  lemma {:induction false} ValuesInConcat(a: seq<string>, b: seq<string>, d: Directive)
    ensures ValuesIn(a + b, d) == ValuesIn(a, d) + ValuesIn(b, d)
  {
    hide Name, Find;
    if a == [] {
      assert a + b == b;
    } else {
      assert (a + b)[1..] == a[1..] + b;
      ValuesInConcat(a[1..], b, d);
    }
  }

  lemma ValuesInCons(e: Directive, value: string, tail: seq<string>, d: Directive)
    ensures ValuesIn([Line(e, value)] + tail, d) == (if d == e then [value] else []) + ValuesIn(tail, d)
  {
    hide *;
    ValuesInConcat([Line(e, value)], tail, d);
    ValuesInLine(Line(e, value), d, e, value);
  }

  lemma {:induction false} ValuesInLinesOf(e: Directive, values: seq<string>, d: Directive)
    ensures ValuesIn(LinesOf(e, values), d) == if d == e then values else []
  {
    if values != [] {
      hide ValuesIn, Line;
      ValuesInCons(e, values[0], LinesOf(e, values[1..]), d);
      ValuesInLinesOf(e, values[1..], d);
      assert values == [values[0]] + values[1..];
    }
  }

  predicate NoRepeat(order: seq<Directive>) {
    order == [] || (order[0] !in order[1..] && NoRepeat(order[1..]))
  }

  lemma {:induction false} ValuesInExpand(order: seq<Directive>, u: ResolvedUnit, d: Directive)
    requires NoRepeat(order)
    ensures ValuesIn(Expand(order, u), d) == if d in order then Values(u, d) else []
  {
    hide Values, Name;
    if order != [] {
      var head := LinesOf(order[0], Values(u, order[0]));
      ValuesInConcat(head, Expand(order[1..], u), d);
      ValuesInLinesOf(order[0], Values(u, order[0]), d);
      ValuesInExpand(order[1..], u, d);
      assert order == [order[0]] + order[1..];
    }
  }

  lemma {:induction false} ExpandHasNoHeader(order: seq<Directive>, u: ResolvedUnit)
    ensures forall l :: l in Expand(order, u) ==> l != "" && !IsHeader(l)
  {
    hide Values, Name;
    if order != [] {
      ExpandHasNoHeader(order[1..], u);
      var lines := LinesOf(order[0], Values(u, order[0]));
      NameShape(order[0]);
      forall l | l in lines ensures l != "" && !IsHeader(l) {
        var i :| 0 <= i < |lines| && l == lines[i];
        assert l[0] == Name(order[0])[0];
      }
    }
  }

  lemma {:induction false} AfterSkips(a: seq<string>, header: string, b: seq<string>)
    requires header !in a
    ensures AfterLine(a + [header] + b, header) == b
  {
    var lines := a + [header] + b;
    if a == [] {
      assert lines[1..] == b;
    } else {
      assert lines[1..] == a[1..] + [header] + b;
      AfterSkips(a[1..], header, b);
    }
  }

  lemma {:induction false} UntilStops(a: seq<string>, rest: seq<string>)
    requires forall l :: l in a ==> !IsHeader(l)
    requires rest == [] || IsHeader(rest[0])
    ensures UntilHeader(a + rest) == a
  {
    if a == [] {
      assert a + rest == rest;
    } else {
      assert a[0] in a && (a + rest)[1..] == a[1..] + rest;
      UntilStops(a[1..], rest);
    }
  }

  lemma SectionIs(before: seq<string>, header: string, body: seq<string>, rest: seq<string>)
    requires header !in before && forall l :: l in body ==> !IsHeader(l)
    requires rest == [] || IsHeader(rest[0])
    ensures Section(before + [header] + (body + rest), header) == body
  {
    AfterSkips(before, header, body + rest);
    UntilStops(body, rest);
  }

  lemma ThreeSections(a: seq<string>, b: seq<string>, c: seq<string>)
    requires forall l :: l in a || l in b || l in c ==> l != "" && !IsHeader(l)
    ensures var lines := (["[Unit]"] + a) + (["", "[Service]"] + b) + (["", "[Install]"] + c) + [""];
            && Section(lines, "[Unit]") == a + [""]
            && Section(lines, "[Service]") == b + [""]
            && Section(lines, "[Install]") == c + [""]
  {
    var u, s, i := "[Unit]", "[Service]", "[Install]";
    assert IsHeader(u) && IsHeader(s) && IsHeader(i) && u != s && u != i && s != i;
    hide *;
    assert !IsHeader("") by { EmptyIsNoHeader(); }
    FirstSection(u, s, i, a, b, c);
    SecondSection(u, s, i, a, b, c);
    ThirdSection(u, s, i, a, b, c);
  }

  lemma FirstSection(u: string, s: string, i: string, a: seq<string>, b: seq<string>, c: seq<string>)
    requires IsHeader(s) && forall l :: l in a + [""] ==> !IsHeader(l)
    ensures Section(([u] + a) + (["", s] + b) + (["", i] + c) + [""], u) == a + [""]
  {
    hide *;
    var lines, rest := ([u] + a) + (["", s] + b) + (["", i] + c) + [""], [s] + b + ["", i] + c + [""];
    assert lines == [] + [u] + ((a + [""]) + rest);
    SectionIs([], u, a + [""], rest);
  }

  lemma SecondSection(u: string, s: string, i: string, a: seq<string>, b: seq<string>, c: seq<string>)
    requires IsHeader(i) && s !in [u] + a + [""] && forall l :: l in b + [""] ==> !IsHeader(l)
    ensures Section(([u] + a) + (["", s] + b) + (["", i] + c) + [""], s) == b + [""]
  {
    hide *;
    var lines, rest := ([u] + a) + (["", s] + b) + (["", i] + c) + [""], [i] + c + [""];
    assert lines == ([u] + a + [""]) + [s] + ((b + [""]) + rest);
    SectionIs([u] + a + [""], s, b + [""], rest);
  }

  lemma ThirdSection(u: string, s: string, i: string, a: seq<string>, b: seq<string>, c: seq<string>)
    requires i !in [u] + a + ["", s] + b + [""] && forall l :: l in c + [""] ==> !IsHeader(l)
    ensures Section(([u] + a) + (["", s] + b) + (["", i] + c) + [""], i) == c + [""]
  {
    hide *;
    var lines, before := ([u] + a) + (["", s] + b) + (["", i] + c) + [""], [u] + a + ["", s] + b + [""];
    assert lines == before + [i] + ((c + [""]) + []);
    SectionIs(before, i, c + [""], []);
  }

  lemma EmptyIsNoHeader()
    ensures !IsHeader("")
  {
  }

  // ---- the whole file ----

  lemma {:induction false} ExpandOnOneLine(order: seq<Directive>, u: ResolvedUnit)
    requires forall d, v :: v in Values(u, d) ==> '\n' !in v
    ensures forall l :: l in Expand(order, u) ==> '\n' !in l
  {
    hide Values, Name;
    if order != [] {
      ExpandOnOneLine(order[1..], u);
      var values := Values(u, order[0]);
      var lines := LinesOf(order[0], values);
      NameShape(order[0]);
      forall l | l in lines ensures '\n' !in l {
        var i :| 0 <= i < |lines| && l == lines[i];
        assert values[i] in values;
        assert '\n' !in Name(order[0]) + "=";
      }
    }
  }

  /** Where a directive stands in the canonical order. */
  function Position(d: Directive): nat {
    match d
    case Description => 0 case After => 1 case Wants => 2
    case User => 3 case SupplementaryGroups => 4 case AmbientCapabilities => 5 case CapabilityBoundingSet => 6
    case ExecStart => 7 case ExecReload => 8 case WorkingDirectory => 9 case Environment => 10
    case Restart => 11 case RestartSec => 12 case LimitNOFILE => 13 case LimitMEMLOCK => 14
    case ProtectHome => 15 case PrivateTmp => 16 case NoNewPrivileges => 17
    case WantedBy => 18
  }

  lemma {:induction false} PositionedHasNoRepeat(order: seq<Directive>, start: nat)
    requires forall i :: 0 <= i < |order| ==> Position(order[i]) == start + i
    ensures NoRepeat(order)
  {
    if order != [] {
      assert forall i :: 0 <= i < |order| - 1 ==> order[1..][i] == order[i + 1];
      PositionedHasNoRepeat(order[1..], start + 1);
    }
  }

  lemma OrdersHaveNoRepeat()
    ensures NoRepeat(UNIT_ORDER) && NoRepeat(SERVICE_ORDER) && NoRepeat(INSTALL_ORDER)
  {
    hide NoRepeat;
    PositionedHasNoRepeat(UNIT_ORDER, 0);
    PositionedHasNoRepeat(SERVICE_ORDER, 3);
    PositionedHasNoRepeat(INSTALL_ORDER, 18);
  }

  lemma OrdersAreTheSections(d: Directive)
    ensures d in UNIT_ORDER <==> SectionOf(d) == UnitSection
    ensures d in SERVICE_ORDER <==> SectionOf(d) == ServiceSection
    ensures d in INSTALL_ORDER <==> SectionOf(d) == InstallSection
  {
  }

  lemma NoNewlineInNames()
    ensures forall t :: '\n' !in TargetName(t)
    ensures forall a :: '\n' !in AccountName(a)
    ensures forall g :: '\n' !in GroupName(g)
    ensures forall c :: '\n' !in CapabilityName(c)
  {
  }

  lemma WordsOnOneLine<T>(xs: seq<T>, spell: T -> string)
    requires forall i :: 0 <= i < |xs| ==> '\n' !in spell(xs[i])
    ensures '\n' !in Words(xs, spell)
  {
    JoinKeepsLine(MapAll(xs, spell), ' ');
  }

  lemma ExecOnOneLine(u: ResolvedUnit)
    requires IsWellFormed(u)
    ensures '\n' !in RenderDescription(u.description) && '\n' !in RenderArgs(u.execStart)
    ensures u.execReload.Some? ==> '\n' !in RenderArgs(u.execReload.value)
    ensures u.workingDirectory.Some? ==> '\n' !in RenderArg(u.workingDirectory.value)
    ensures forall i :: 0 <= i < |u.environment| ==> '\n' !in EnvironmentLine(u.environment[i])
  {
    DoubleKeepsLine(u.description, false);
    ArgsKeepLine(u.execStart);
    if u.execReload.Some? { ArgsKeepLine(u.execReload.value); }
    if u.workingDirectory.Some? { ArgKeepsLine(u.workingDirectory.value); }
    forall i | 0 <= i < |u.environment| ensures '\n' !in EnvironmentLine(u.environment[i]) {
      EnvironmentKeepsLine(u.environment[i].0, u.environment[i].1);
    }
  }

  lemma DigitsOnOneLine(n: nat)
    ensures '\n' !in DecimalOf(n)
  {
  }

  lemma ValuesOnOneLine(u: ResolvedUnit, d: Directive, v: string)
    requires IsWellFormed(u) && v in Values(u, d)
    ensures '\n' !in v
  {
    hide TargetName, AccountName, GroupName, CapabilityName, RenderArgs, RenderArg, RenderDescription, EnvironmentLine,
         DecimalOf, Words, IsWellFormed;
    NoNewlineInNames();
    ExecOnOneLine(u);
    if d.SupplementaryGroups? { WordsOnOneLine(u.groups, GroupName); }
    if u.capabilities.Some? { WordsOnOneLine(u.capabilities.value, CapabilityName); }
    DigitsOnOneLine(u.restartSec);
    if u.limitNofile.Some? { DigitsOnOneLine(u.limitNofile.value); }
  }

  /** Splitting the text on newlines gives exactly the intended lines, in the canonical order, and the final newline. */
  lemma RenderSplitsIntoLines(u: ResolvedUnit)
    requires IsWellFormed(u)
    ensures Split(Render(u), '\n') == Lines(u) + [""]
  {
    forall d, v | v in Values(u, d) ensures '\n' !in v { ValuesOnOneLine(u, d, v); }
    hide Values, Expand, IsWellFormed;
    ExpandOnOneLine(UNIT_ORDER, u);
    ExpandOnOneLine(SERVICE_ORDER, u);
    ExpandOnOneLine(INSTALL_ORDER, u);
    LinesOnOneLine(Expand(UNIT_ORDER, u), Expand(SERVICE_ORDER, u), Expand(INSTALL_ORDER, u));
    var lines := Lines(u);
    hide *;
    SplitJoin(lines + [""], '\n');
    JoinEndsWithSeparator(lines, '\n');
    assert Render(u) == Join(lines + [""], '\n') by { RenderIs(u); }
  }

  lemma RenderIs(u: ResolvedUnit)
    ensures Render(u) == Join(Lines(u), '\n') + ['\n'] && Lines(u) != []
  {
    hide Join, Expand;
  }

  lemma LinesOnOneLine(a: seq<string>, b: seq<string>, c: seq<string>)
    requires forall l :: l in a || l in b || l in c ==> '\n' !in l
    ensures forall l :: l in (["[Unit]"] + a) + (["", "[Service]"] + b) + (["", "[Install]"] + c) + [""] ==> '\n' !in l
  {
    assert '\n' !in "[Unit]" && '\n' !in "[Service]" && '\n' !in "[Install]" && '\n' !in "";
  }

  lemma {:induction false} JoinEndsWithSeparator(parts: seq<string>, c: char)
    requires parts != []
    ensures Join(parts + [""], c) == Join(parts, c) + [c]
  {
    if |parts| == 1 {
      assert (parts + [""])[1..] == [""];
      assert Join([""], c) == "";
    } else {
      assert (parts + [""])[1..] == parts[1..] + [""];
      JoinEndsWithSeparator(parts[1..], c);
      assert Join(parts, c) + [c] == parts[0] + [c] + (Join(parts[1..], c) + [c]);
    }
  }

  lemma SectionsOfLines(u: ResolvedUnit)
    ensures var lines := Lines(u) + [""];
            && Section(lines, "[Unit]") == Expand(UNIT_ORDER, u) + [""]
            && Section(lines, "[Service]") == Expand(SERVICE_ORDER, u) + [""]
            && Section(lines, "[Install]") == Expand(INSTALL_ORDER, u) + [""]
  {
    hide Expand, Section, IsHeader;
    ExpandHasNoHeader(UNIT_ORDER, u);
    ExpandHasNoHeader(SERVICE_ORDER, u);
    ExpandHasNoHeader(INSTALL_ORDER, u);
    ThreeSections(Expand(UNIT_ORDER, u), Expand(SERVICE_ORDER, u), Expand(INSTALL_ORDER, u));
  }

  /** The three sections' lines, each ended by the blank line that follows it. */
  function RenderedSections(u: ResolvedUnit): Sections {
    Sections(Expand(UNIT_ORDER, u) + [""], Expand(SERVICE_ORDER, u) + [""], Expand(INSTALL_ORDER, u) + [""])
  }

  lemma ValuesForSections(u: ResolvedUnit, d: Directive)
    ensures ValuesFor(RenderedSections(u), d) == Values(u, d)
  {
    OrdersHaveNoRepeat();
    OrdersAreTheSections(d);
    assert ValuesIn([""], d) == [];
    hide Expand, ValuesIn, Values, NoRepeat;
    var order := match SectionOf(d)
                 case UnitSection => UNIT_ORDER
                 case ServiceSection => SERVICE_ORDER
                 case InstallSection => INSTALL_ORDER;
    ValuesInConcat(Expand(order, u), [""], d);
    ValuesInExpand(order, u, d);
  }

  /** The rendered file reads back to exactly the unit it was rendered from. */
  lemma ParseRendered(u: ResolvedUnit)
    requires IsWellFormed(u)
    ensures ParseUnit(Render(u)) == Some(u)
  {
    hide Render, Lines, Expand, Section, ValuesFor, Values, DecodeUnit, IsWellFormed, Split;
    RenderSplitsIntoLines(u);
    SectionsOfLines(u);
    forall d ensures ValuesFor(RenderedSections(u), d) == Values(u, d) {
      ValuesForSections(u, d);
    }
    ValuesDecode(u, RenderedSections(u));
  }

  /** Two well-formed units with one text are the same unit. */
  lemma RenderIsInjective(u: ResolvedUnit, w: ResolvedUnit)
    requires IsWellFormed(u) && IsWellFormed(w) && Render(u) == Render(w)
    ensures u == w
  {
    hide *;
    ParseRendered(u);
    ParseRendered(w);
  }
}
