/**
 * What the parts of an activation change and leave alone, and what can be in their way.
 *
 * The lemmas named `...Step` and `...Steps` give the machine's steps for one part of the
 * call, from a state at which that part starts.
 */
module GenerationMoves {
  import opened Options
  import opened Decimal
  import opened GenerationNames
  import opened FileSystem
  import opened GenerationMachine
  import opened GenerationInvariant
  import opened GenerationSteps
  import opened GenerationFrame
  import opened GenerationTheorems

  // ---- what a step leaves alone, and what can be in the way ----

  predicate SameKind(a: Inode, b: Inode) {
    (a.File? <==> b.File?) && (a.Dir? <==> b.Dir?)
  }

  /** Root entries outside `names` are as they were, and no inode has become one of another kind. */
  ghost predicate Kept(fs: Fs, fs': Fs, names: set<Name>) {
    && (forall m :: m !in names ==> fs'.root.Lookup(m) == fs.root.Lookup(m))
    && (forall id :: id in fs.nodes ==> id in fs'.nodes && SameKind(fs.nodes[id], fs'.nodes[id]))
  }

  lemma KeptTransitive(a: Fs, b: Fs, c: Fs, names: set<Name>, more: set<Name>, all: set<Name>)
    requires Kept(a, b, names) && Kept(b, c, more) && names <= all && more <= all
    ensures Kept(a, c, all)
  {
  }

  lemma KeptItself(fs: Fs)
    ensures Kept(fs, fs, {})
  {
  }

  lemma KeptMore(fs: Fs, name: Name)
    ensures Kept(fs, fs, {name})
  {
  }

  predicate IsFileAt(fs: Fs, name: Name) {
    name in fs.root.cur && fs.root.cur[name] in fs.nodes && fs.nodes[fs.root.cur[name]].File?
  }

  predicate IsDirAt(fs: Fs, name: Name) { name in fs.root.cur && fs.IsDir(fs.root.cur[name]) }

  /** A name another call may have left: a generation's, or a staging directory's. */
  predicate Leftover(name: Name) { ParseGeneration(name).Some? || ParseStage(name).Some? }

  /**
   * What stands in the way of an activation: a directory at the swap's scratch name, a plain file
   * where only directories belong, or no index left.
   */
  ghost predicate Blocked(fs: Fs) {
    || GenerationName(U64_MAX) in fs.root.cur
    || IsDirAt(fs, ACTIVE_TMP)
    || exists name :: Leftover(name) && IsFileAt(fs, name)
  }

  ghost predicate AlreadyThere(fs: Fs, material: Material) {
    CurrentGeneration(fs).Answer? && CurrentGeneration(fs).value.Some? && ActiveMatches(fs, material) == Answer(true)
  }

  lemma KeptFile(fs: Fs, fs': Fs, names: set<Name>, name: Name)
    requires fs.WellFormed() && Kept(fs, fs', names) && name !in names
    ensures IsFileAt(fs', name) <==> IsFileAt(fs, name)
    ensures IsDirAt(fs', name) <==> IsDirAt(fs, name)
  {
    assert fs'.root.Lookup(name) == fs.root.Lookup(name);
    if name in fs.root.cur { EntryIsAnInode(fs, name); }
  }

  lemma EntryIsAnInode(fs: Fs, name: Name)
    requires fs.WellFormed() && name in fs.root.cur
    ensures fs.root.cur[name] in fs.nodes && fs.next !in fs.nodes
  {
    assert fs.root.MayBind(name, Some(fs.root.cur[name]));
  }

  // ---- the kinds of step, each one of the machine's ----

  lemma CompareIsNext(s: State, t: State)
    requires GenerationMachine.Compare(s, t)
    ensures Next(s, t)
  {
    hide GenerationMachine.Compare;
  }

  lemma AllocateIsNext(s: State, t: State)
    requires Allocate(s, t)
    ensures Next(s, t)
  {
    hide Allocate;
  }

  lemma ClearStageIsNext(s: State, t: State)
    requires ClearStage(s, t)
    ensures Next(s, t)
  {
    hide ClearStage;
  }

  lemma StageFileIsNext(s: State, t: State)
    requires StageFile(s, t)
    ensures Next(s, t)
  {
    hide StageFile;
  }

  lemma ValidateIsNext(s: State, t: State)
    requires Validate(s, t)
    ensures Next(s, t)
  {
    hide Validate;
  }

  lemma PublishIsNext(s: State, t: State)
    requires Publish(s, t)
    ensures Next(s, t)
  {
    hide Publish;
  }

  lemma PruneIsNext(s: State, t: State)
    requires GenerationMachine.Prune(s, t)
    ensures Next(s, t)
  {
    hide GenerationMachine.Prune;
  }

  lemma LastHolds(run: seq<State>)
    requires run != [] && IsRun(run)
    ensures Inv(run[|run| - 1]) && run[|run| - 1].fs.WellFormed()
  {
    RunsKeepInvariants(run, |run| - 1);
    InvIsSafe(run[|run| - 1]);
    hide Inv;
  }

  lemma UnusedId(fs: Fs)
    requires fs.WellFormed()
    ensures fs.next !in fs.nodes
  {
  }

  lemma AbsentIsNoFile(fs: Fs)
    ensures forall name :: name !in fs.root.cur ==> !IsFileAt(fs, name)
  {
  }

  /** Nothing is unreadable through an `active` the engine made. */
  lemma LiveReads(s: State)
    requires Inv(s)
    ensures CurrentGeneration(s.fs).Answer?
    ensures forall material: Material :: ActiveMatches(s.fs, material).Answer?
  {
    hide GenerationName, StageName, ParseGeneration, ParseStage, Sealed;
    forall material: Material ensures ActiveMatches(s.fs, material).Answer? {
      LiveMatchIs(s.fs, s.history, material);
    }
    var v := s.fs.root.Lookup(ACTIVE);
    if v.Some? { assert GoodLink(s.fs, s.history, v.value); }
  }

  /** Whether the published files include one with these bytes under this name. */
  ghost predicate Publishes(fs: Fs, file: GenerationFile) {
    && Published(fs).Some? && file.name in Published(fs).value.1 && Published(fs).value.1[file.name] == file.bytes
  }

  /** Whether every file of the set is published. */
  ghost predicate Serves(fs: Fs, material: Material) {
    forall i :: 0 <= i < |material| ==> Publishes(fs, material[i])
  }

  /** The no-op check answers yes exactly when every file is published. */
  lemma AlreadyThereExactly(s: State, material: Material)
    requires Inv(s) && material != []
    ensures AlreadyThere(s.fs, material) <==> Serves(s.fs, material)
  {
    hide GenerationName, StageName, ParseGeneration, ParseStage, ActiveMatches;
    LiveMatchIs(s.fs, s.history, material);
    LiveIndexIs(s.fs, s.history);
    if Serves(s.fs, material) { assert Publishes(s.fs, material[0]); }
  }

  lemma LiveIndexIs(fs: Fs, h: History)
    requires Safe(fs, h)
    ensures CurrentGeneration(fs) == Answer(if Published(fs).Some? then Some(Published(fs).value.0) else None)
  {
    hide GenerationName, StageName, ParseGeneration, ParseStage;
    LivePublishes(fs, h);
    var v := fs.root.Lookup(ACTIVE);
    if v.Some? { assert GoodLink(fs, h, v.value); }
  }

  lemma {:induction false} LiveMatchIs(fs: Fs, h: History, material: Material)
    requires Safe(fs, h)
    ensures ActiveMatches(fs, material) == Answer(Serves(fs, material))
    decreases |material|
  {
    hide Safe, ReadActive, Published;
    if material != [] {
      LiveReadIs(fs, h, material[0].name);
      LiveMatchIs(fs, h, material[1..]);
      assert forall i :: 0 <= i < |material| - 1 ==> material[1..][i] == material[i + 1];
      assert Serves(fs, material) <==> Publishes(fs, material[0]) && Serves(fs, material[1..]);
    }
  }

  lemma LiveReadIs(fs: Fs, h: History, name: Name)
    requires Safe(fs, h)
    ensures ReadActive(fs, name)
            == Answer(if Published(fs).Some? && name in Published(fs).value.1 then Some(Published(fs).value.1[name])
                      else None)
  {
    hide GenerationName, StageName, ParseGeneration, ParseStage;
    var v := fs.root.Lookup(ACTIVE);
    if v.Some? {
      assert GoodLink(fs, h, v.value);
      var k := LinkIndex(fs, v.value).value;
      ParsesExactlyGenerations(fs.nodes[v.value].target, k);
      var d := fs.root.cur[GenerationName(k)];
      if name in fs.Sub(d).cur { assert FlushedFile(fs, fs.Sub(d).cur[name]); }
    }
  }

  lemma NextIsNotBlocked(fs: Fs, n: nat)
    requires IsNextGeneration(fs, n) && n <= U64_MAX + 1
    ensures n > U64_MAX ==> Blocked(fs)
    ensures n <= U64_MAX && IsFileAt(fs, StageName(n)) ==> Blocked(fs)
  {
    if n <= U64_MAX { ParsesExactlyStages(StageName(n), n); }
    hide GenerationName, StageName, ParseGeneration, ParseStage;
    assert n <= U64_MAX ==> Leftover(StageName(n));
  }

  lemma StageIsReady(s: State, i: nat)
    requires Inv(s) && s.phase == Creating(i) && i < |s.call.material|
    ensures s.fs.IsDir(s.call.stage) && s.call.material[i].name !in s.fs.Sub(s.call.stage).cur
        && s.fs.next !in s.fs.nodes
  {
    hide GenerationName, StageName, ParseGeneration, ParseStage, CheckMaterial;
    ContentsGrow(s.call.material, i);
  }

  lemma StageIsThere(s: State)
    requires Inv(s) && s.phase.FlushingStage?
    ensures s.fs.IsDir(s.call.stage) && s.fs.root.Lookup(StageName(s.call.generation)) == Some(s.call.stage)
    ensures GenerationName(s.call.generation) !in s.fs.root.cur && s.call.generation <= U64_MAX
  {
    ParsesExactlyGenerations(GenerationName(s.call.generation), s.call.generation);
    hide GenerationName, StageName, ParseGeneration, ParseStage, CheckMaterial;
  }

  lemma LinkIsThere(s: State)
    requires Inv(s) && s.phase.Swapping?
    ensures ACTIVE_TMP in s.fs.root.cur && (ACTIVE in s.fs.root.cur ==> !s.fs.IsDir(s.fs.root.cur[ACTIVE]))
  {
    hide GenerationName, StageName, ParseGeneration, ParseStage, CheckMaterial, Sealed;
    if ACTIVE in s.fs.root.cur {
      assert s.fs.root.MayBind(ACTIVE, Some(s.fs.root.cur[ACTIVE]));
      assert GoodLink(s.fs, s.history, s.fs.root.cur[ACTIVE]);
    }
  }

  lemma ScratchIsApart(n: nat)
    ensures ACTIVE_TMP != StageName(n) && ACTIVE_TMP != GenerationName(n)
    ensures ACTIVE != StageName(n) && ACTIVE != GenerationName(n) && StageName(n) != GenerationName(n)
  {
    NameClassesAreDisjoint(n, n);
  }

  lemma LeftoversAreApart(name: Name)
    requires Leftover(name)
    ensures name != ACTIVE && name != ACTIVE_TMP
  {
    hide GenerationName, StageName, ParseGeneration, ParseStage;
    if ParseGeneration(name).Some? {
      ParsesExactlyGenerations(name, ParseGeneration(name).value);
      NameClassesAreDisjoint(ParseGeneration(name).value, 0);
    } else {
      ParsesExactlyStages(name, ParseStage(name).value);
      NameClassesAreDisjoint(ParseStage(name).value, 0);
    }
  }

  /** The plain files a prune would meet are the ones that were there when the call's copy was finalised. */
  lemma DoomedAreTheLeftovers(fs: Fs, swapped: Fs, n: nat, names: set<Name>)
    requires fs.WellFormed() && Kept(fs, swapped, names) && n <= U64_MAX
    requires names == {StageName(n), GenerationName(n), ACTIVE_TMP, ACTIVE} && StageName(n) !in swapped.root.cur
    requires IsDirAt(fs, StageName(n)) && GenerationName(n) !in fs.root.cur
    ensures (forall name :: Doomed(name, n) ==> !IsFileAt(swapped, name))
            <==> (forall name :: Leftover(name) ==> !IsFileAt(fs, name))
  {
    hide GenerationName, StageName, ParseGeneration, ParseStage, Kept;
    forall name
      ensures Leftover(name) && IsFileAt(fs, name) <==> Doomed(name, n) && IsFileAt(swapped, name)
    {
      if Leftover(name) && name != StageName(n) && name != GenerationName(n) {
        LeftoversAreApart(name);
        KeptFile(fs, swapped, names, name);
        if ParseGeneration(name) == Some(n) { ParsesExactlyGenerations(name, n); }
      }
      if name == GenerationName(n) {
        ParsesExactlyGenerations(name, n);
        if Doomed(name, n) { DoomedIsAnother(name, n); }
      }
    }
  }

  /** The staging directory, at its own name, once the copy has been accepted. */
  lemma StageStands(s: State)
    requires Inv(s) && s.phase.FlushingStage?
    ensures IsDirAt(s.fs, StageName(s.call.generation))
  {
    hide Inv, GenerationName, StageName;
    StageIsThere(s);
  }

  /** With an index in hand and its staging name clear, what blocks the rest was there at the start. */
  lemma BlockedAtTheStart(found: Fs, fs: Fs, n: nat)
    requires found.WellFormed() && Kept(found, fs, {StageName(n)}) && n <= U64_MAX && IsNextGeneration(found, n)
    requires !IsFileAt(found, StageName(n)) && IsDirAt(fs, StageName(n))
    ensures Blocked(found) <==> IsDirAt(fs, ACTIVE_TMP) || exists name :: Leftover(name) && IsFileAt(fs, name)
  {
    ScratchIsApart(n);
    ParsesExactlyGenerations(GenerationName(U64_MAX), U64_MAX);
    hide GenerationName, StageName, ParseGeneration, ParseStage, Kept, Leftover;
    assert GenerationName(U64_MAX) !in found.root.cur;
    KeptFile(found, fs, {StageName(n)}, ACTIVE_TMP);
    forall name ensures IsFileAt(fs, name) <==> IsFileAt(found, name) {
      if name != StageName(n) { KeptFile(found, fs, {StageName(n)}, name); }
    }
  }

  // ---- the steps of each part of the call, from where that part starts ----

  /** The steps that ask something of the disk, or of the reload; the others only move the call along. */
  predicate Asks(s: State, t: State) {
    !t.phase.Idle? &&
    match s.phase
    case Idle => false
    case Finished(_) => false
    case Validating => false
    case Discarding => t.phase == s.phase
    case ClearingStage => !t.phase.MakingStage?
    case Creating(_) => !t.phase.ReadingBack?
    case Writing(_) => t.phase != s.phase
    case Pruning(_) => t.phase == s.phase || (t.phase.Finished? && t.phase.outcome.Failed?)
    case _ => true
  }

  /** How many steps of a run ask something. */
  function Asked(run: seq<State>): (n: nat) {
    if |run| < 2 then 0
    else Asked(run[..|run| - 1]) + if Asks(run[|run| - 2], run[|run| - 1]) then 1 else 0
  }

  /** The steps that begin a call. */
  predicate Begins(s: State, t: State) { (s.phase.Idle? || s.phase.Finished?) && !t.phase.Idle? }

  /** How many calls a run begins. */
  function Begun(run: seq<State>): (n: nat) {
    if |run| < 2 then 0
    else Begun(run[..|run| - 1]) + if Begins(run[|run| - 2], run[|run| - 1]) then 1 else 0
  }

  lemma BegunNext(run: seq<State>, t: State)
    requires run != []
    ensures Begun(run + [t]) == Begun(run) + if Begins(run[|run| - 1], t) then 1 else 0
  {
    hide Begins;
    assert (run + [t])[..|run|] == run;
  }

  lemma AskedNext(run: seq<State>, t: State)
    requires run != []
    ensures Asked(run + [t]) == Asked(run) + if Asks(run[|run| - 1], t) then 1 else 0
  {
    hide Asks;
    assert (run + [t])[..|run|] == run;
  }

  /** Another instant of the same call: its arguments, index and staging directory are unchanged. */
  predicate Continues(c: Call, d: Call) {
    d.material == c.material && d.start == c.start && d.generation == c.generation && d.stage == c.stage
  }

  /** The phases in which deleting part of what sits at `name` is a step. */
  predicate Removing(phase: Phase, n: nat, name: Name) {
    match phase
    case ClearingStage => name == StageName(n)
    case Discarding => name == StageName(n)
    case Pruning(todo) => name in todo && Doomed(name, n)
    case _ => false
  }

  lemma StageIsRemovable(n: nat)
    ensures Removing(ClearingStage, n, StageName(n))
  {
  }

  lemma DoomedIsRemovable(todo: set<Name>, n: nat, name: Name)
    requires name in todo && Doomed(name, n)
    ensures Removing(Pruning(todo), n, name)
  {
    hide Doomed;
  }

  lemma FailStep(s: State) returns (t: State)
    requires Fallible(s.phase)
    ensures Next(s, t) && Asks(s, t)
    ensures t == State(s.fs, Finished(Failed(if s.phase.Reloading? then ReloadFailed else Io)), s.call, s.history)
  {
    hide Begin, Work, Stop;
    t := s.(phase := Finished(Failed(if s.phase.Reloading? then ReloadFailed else Io)));
    assert Fail(s, t);
  }

  lemma BeginStep(s: State, material: Material) returns (t: State)
    requires s.phase.Idle? || s.phase.Finished?
    ensures Next(s, t) && t.fs == s.fs && t.call.material == material && t.call.start == s.fs
    ensures t.phase == match CheckMaterial(material)
                       case Some(why) => Finished(Failed(Refused(why)))
                       case None => Comparing
  {
    hide CheckMaterial, Work, Fail, Stop;
    t := Started(s, material);
    assert Begin(s, t);
  }

  /** One entry less in the directory at `name`. */
  lemma EmptyingKeeps(found: Fs, fs: Fs, name: Name, entry: Name)
    requires Kept(found, fs, {name}) && IsDirAt(fs, name) && entry in fs.Sub(fs.root.cur[name]).cur
    ensures var id := fs.root.cur[name];
            var after := fs.UnlinkIn(id, entry);
            && RemoveStep(fs, name, after) && Kept(found, after, {name})
            && IsDirAt(after, name) && after.root == fs.root && after.Sub(id).cur == fs.Sub(id).cur - {entry}
  {
  }

  /** The last step of a removal. */
  lemma UnlinkingKeeps(found: Fs, fs: Fs, name: Name)
    requires Kept(found, fs, {name}) && name in fs.root.cur && fs.root.cur[name] in fs.nodes
    requires IsDirAt(fs, name) ==> fs.Sub(fs.root.cur[name]).cur == map[]
    requires !IsFileAt(fs, name)
    ensures RemoveStep(fs, name, fs.Unlink(name)) && Kept(found, fs.Unlink(name), {name})
    ensures name !in fs.Unlink(name).root.cur
  {
  }

  lemma RemovalStep(s: State, name: Name, after: Fs)
    requires Removing(s.phase, s.call.generation, name) && RemoveStep(s.fs, name, after)
    ensures Next(s, State(after, s.phase, s.call, s.history))
  {
    hide GenerationName, StageName, ParseGeneration, ParseStage, Next;
    var t := State(after, s.phase, s.call, s.history);
    match s.phase
    case ClearingStage => ClearStageIsNext(s, t);
    case Discarding => ValidateIsNext(s, t);
    case Pruning(todo) =>
      assert Visit(s, t, name, todo);
      PruneIsNext(s, t);
    case _ =>
  }

  lemma CompareStep(s: State, phase: Phase, material: Material) returns (t: State)
    requires s.phase.Comparing? && s.call.material == material
    requires CurrentGeneration(s.fs).Answer? && ActiveMatches(s.fs, material).Answer?
    requires phase == match CurrentGeneration(s.fs).value
                      case None => Allocating
                      case Some(current) =>
                        if ActiveMatches(s.fs, material).value then Finished(Activated(current, false)) else Allocating
    ensures Next(s, t) && t == State(s.fs, phase, s.call, s.history)
  {
    hide Next, CurrentGeneration, ActiveMatches;
    t := State(s.fs, phase, s.call, s.history);
    CompareIsNext(s, t);
  }

  lemma AllocateStep(s: State, n: nat) returns (t: State)
    requires s.phase.Allocating? && IsNextGeneration(s.fs, n) && n <= U64_MAX
    ensures Next(s, t) && t.fs == s.fs && t.phase == ClearingStage && t.call.generation == n
    ensures t.call.material == s.call.material && t.call.start == s.call.start
  {
    hide Next, IsNextGeneration;
    t := s.(phase := ClearingStage, call := s.call.(generation := n));
    AllocateIsNext(s, t);
  }

  /** An empty staging directory, where nothing stands at its name. */
  lemma MakeSteps(s: State) returns (t: State, u: State)
    requires s.phase.ClearingStage? && StageName(s.call.generation) !in s.fs.root.cur && s.fs.next !in s.fs.nodes
    ensures Next(s, t) && t.fs == s.fs && t.phase == MakingStage && t.call == s.call
    ensures Next(t, u) && u.fs == s.fs.Mkdir(StageName(s.call.generation)) && u.phase == Creating(0)
    ensures u.call.stage == s.fs.next && u.call.generation == s.call.generation
    ensures u.call.material == s.call.material && u.call.start == s.call.start
    ensures Kept(s.fs, u.fs, {StageName(s.call.generation)})
  {
    hide Next, StageName;
    t := s.(phase := MakingStage);
    ClearStageIsNext(s, t);
    u := t.(fs := t.fs.Mkdir(StageName(s.call.generation)), phase := Creating(0), call := t.call.(stage := t.fs.next));
    ClearStageIsNext(t, u);
  }

  lemma CreateStep(s: State, i: nat, name: Name) returns (t: State)
    requires s.phase == Creating(i) && i < |s.call.material| && s.call.material[i].name == name
    requires s.fs.IsDir(s.call.stage) && name !in s.fs.Sub(s.call.stage).cur
    ensures Next(s, t) && t.fs == s.fs.CreateIn(s.call.stage, name) && t.phase == Writing(i)
    ensures Continues(s.call, t.call) && t.call.file == s.fs.next
  {
    hide Next;
    t := State(s.fs.CreateIn(s.call.stage, name), Writing(i), s.call.(file := s.fs.next), s.history);
    StageFileIsNext(s, t);
  }

  /** A write cut short leaves any bytes at all. */
  lemma TornStep(s: State, i: nat, torn: Bytes) returns (t: State)
    requires s.phase == Writing(i) && i < |s.call.material|
    ensures Next(s, t) && t == State(s.fs.Write(s.call.file, torn), Writing(i), s.call, s.history)
  {
    hide Next;
    t := s.(fs := s.fs.Write(s.call.file, torn));
    StageFileIsNext(s, t);
  }

  lemma WriteSteps(s: State, i: nat, bytes: Bytes) returns (t: State, u: State)
    requires s.phase == Writing(i) && i < |s.call.material| && s.call.material[i].bytes == bytes
    ensures Next(s, t) && t == State(s.fs.Write(s.call.file, bytes), FlushingFile(i), s.call, s.history)
    ensures t.call.file in t.fs.nodes && t.fs.nodes[t.call.file].File?
    ensures Next(t, u) && u == State(t.fs.FlushFile(s.call.file), Creating(i + 1), s.call, s.history)
  {
    hide Next;
    t := s.(fs := s.fs.Write(s.call.file, bytes), phase := FlushingFile(i));
    StageFileIsNext(s, t);
    u := t.(fs := t.fs.FlushFile(t.call.file), phase := Creating(i + 1));
    StageFileIsNext(t, u);
  }

  lemma FileKept(fs: Fs, dir: Id, file: GenerationFile)
    requires fs.IsDir(dir) && fs.next !in fs.nodes
    ensures Kept(fs, fs.CreateIn(dir, file.name).Write(fs.next, file.bytes).FlushFile(fs.next), {})
  {
  }

  lemma WrittenStep(s: State) returns (t: State)
    requires s.phase == Creating(|s.call.material|)
    ensures Next(s, t) && t == State(s.fs, ReadingBack, s.call, s.history)
  {
    hide Next;
    t := s.(phase := ReadingBack);
    StageFileIsNext(s, t);
  }

  lemma ReadBackStep(s: State, copied: Material) returns (t: State)
    requires s.phase.ReadingBack? && ReadBack(s.fs, s.call.stage, s.call.material) == Some(copied)
    ensures Next(s, t) && t.fs == s.fs && t.phase == Validating && Continues(s.call, t.call) && t.call.copied == copied
  {
    hide Next, ReadBack;
    t := s.(phase := Validating, call := s.call.(copied := copied));
    ValidateIsNext(s, t);
  }

  lemma AcceptStep(s: State) returns (t: State)
    requires s.phase.Validating?
    ensures Next(s, t) && t.fs == s.fs && t.phase == FlushingStage && t.call == s.call
  {
    hide Next, Contents;
    t := s.(phase := FlushingStage, history := s.history.(accepted := s.history.accepted + {Contents(s.call.copied)}));
    ValidateIsNext(s, t);
  }

  lemma DiscardStep(s: State) returns (t: State)
    requires s.phase.Validating? || s.phase.Discarding?
    ensures Next(s, t) && t.fs == s.fs && t.call == s.call
    ensures t.phase == if s.phase.Validating? then Discarding else Finished(Failed(Rejected))
  {
    hide Next;
    t := s.(phase := if s.phase.Validating? then Discarding else Finished(Failed(Rejected)));
    ValidateIsNext(s, t);
  }

  /** Flush the directory, give it its final name, flush the root. */
  lemma FinaliseSteps(s: State) returns (t: State, u: State, v: State)
    requires Inv(s) && s.phase.FlushingStage?
    ensures s.fs.IsDir(s.call.stage)
    ensures Next(s, t) && t == State(s.fs.FlushDir(s.call.stage), Publishing, s.call, s.history)
    ensures var n := s.call.generation;
            && StageName(n) in t.fs.root.cur && GenerationName(n) !in t.fs.root.cur
            && Next(t, u) && u == State(t.fs.Rename(StageName(n), GenerationName(n)), FlushingRoot, s.call, s.history)
            && Next(u, v) && v == State(u.fs.FlushRoot(), ClearingLink, s.call, s.history)
            && Kept(s.fs, v.fs, {StageName(n), GenerationName(n)}) && StageName(n) !in v.fs.root.cur
  {
    hide Next, Inv, GenerationName, StageName;
    StageIsThere(s);
    var n := s.call.generation;
    ScratchIsApart(n);
    t := State(s.fs.FlushDir(s.call.stage), Publishing, s.call, s.history);
    PublishIsNext(s, t);
    u := State(t.fs.Rename(StageName(n), GenerationName(n)), FlushingRoot, s.call, s.history);
    PublishIsNext(t, u);
    v := State(u.fs.FlushRoot(), ClearingLink, s.call, s.history);
    PublishIsNext(u, v);
  }

  /** Clear the scratch name, which no directory occupies, and make the link there. */
  lemma LinkSteps(s: State) returns (t: State, u: State)
    requires s.phase.ClearingLink? && !IsDirAt(s.fs, ACTIVE_TMP) && s.fs.next !in s.fs.nodes
    ensures Next(s, t)
    ensures t.fs == if ACTIVE_TMP in s.fs.root.cur then s.fs.Unlink(ACTIVE_TMP) else s.fs
    ensures t.phase == MakingLink && t.call == s.call
    ensures Next(t, u) && u.fs == t.fs.Symlink(ACTIVE_TMP, GenerationName(s.call.generation)) && u.phase == Swapping
    ensures Continues(s.call, u.call) && Kept(s.fs, u.fs, {ACTIVE_TMP})
  {
    hide Next, GenerationName;
    t := State(if ACTIVE_TMP in s.fs.root.cur then s.fs.Unlink(ACTIVE_TMP) else s.fs, MakingLink, s.call, s.history);
    PublishIsNext(s, t);
    u := t.(fs := t.fs.Symlink(ACTIVE_TMP, GenerationName(s.call.generation)), phase := Swapping,
            call := t.call.(link := t.fs.next));
    PublishIsNext(t, u);
  }

  /** The three parts of installing a generation together. */
  lemma InstalledKeeps(a: Fs, b: Fs, c: Fs, d: Fs, n: nat)
    requires Kept(a, b, {StageName(n), GenerationName(n)}) && StageName(n) !in b.root.cur
    requires Kept(b, c, {ACTIVE_TMP}) && Kept(c, d, {ACTIVE_TMP, ACTIVE})
    ensures Kept(a, d, {StageName(n), GenerationName(n), ACTIVE_TMP, ACTIVE}) && StageName(n) !in d.root.cur
  {
    hide StageName, GenerationName;
    ScratchIsApart(n);
    var names := {StageName(n), GenerationName(n), ACTIVE_TMP, ACTIVE};
    KeptTransitive(a, b, c, {StageName(n), GenerationName(n)}, {ACTIVE_TMP}, names);
    KeptTransitive(a, c, d, names, {ACTIVE_TMP, ACTIVE}, names);
    assert b.root.Lookup(StageName(n)) == None && c.root.Lookup(StageName(n)) == None;
  }

  /** Rename the link over `active`, flush the root, go on to the reload. */
  lemma SwapSteps(s: State) returns (t: State, u: State)
    requires Inv(s) && s.phase.Swapping?
    ensures ACTIVE_TMP in s.fs.root.cur && (ACTIVE in s.fs.root.cur ==> !s.fs.IsDir(s.fs.root.cur[ACTIVE]))
    ensures Next(s, t) && t.fs == s.fs.Rename(ACTIVE_TMP, ACTIVE) && t.phase == FlushingSwap && t.call == s.call
    ensures Next(t, u) && u.fs == t.fs.FlushRoot() && u.phase == Reloading && u.call == s.call
    ensures Kept(s.fs, u.fs, {ACTIVE_TMP, ACTIVE})
  {
    hide Next, Inv;
    LinkIsThere(s);
    t := s.(fs := s.fs.Rename(ACTIVE_TMP, ACTIVE), phase := FlushingSwap,
            history := s.history.(live := s.history.live + {s.call.generation}));
    PublishIsNext(s, t);
    u := State(t.fs.FlushRoot(), Reloading, t.call, t.history);
    PublishIsNext(t, u);
  }

  lemma ReloadStep(s: State) returns (t: State)
    requires s.phase.Reloading?
    ensures Next(s, t) && t == State(s.fs, Listing, s.call, s.history)
  {
    hide Next;
    t := s.(phase := Listing);
    PublishIsNext(s, t);
  }

  lemma ListStep(s: State) returns (t: State)
    requires s.phase.Listing?
    ensures Next(s, t) && t == State(s.fs, Pruning(s.fs.root.cur.Keys), s.call, s.history)
  {
    hide Next;
    t := State(s.fs, Pruning(s.fs.root.cur.Keys), s.call, s.history);
    PruneIsNext(s, t);
  }

  lemma VisitStep(s: State, todo: set<Name>, name: Name) returns (t: State)
    requires s.phase == Pruning(todo) && name in todo
    requires Doomed(name, s.call.generation) ==> name !in s.fs.root.cur
    ensures Next(s, t) && t == State(s.fs, Pruning(todo - {name}), s.call, s.history)
  {
    hide Next, Doomed;
    t := State(s.fs, Pruning(todo - {name}), s.call, s.history);
    assert Visit(s, t, name, todo);
    PruneIsNext(s, t);
  }

  lemma PrunedStep(s: State) returns (t: State)
    requires s.phase == Pruning({})
    ensures Next(s, t) && t == State(s.fs, Finished(Activated(s.call.generation, true)), s.call, s.history)
  {
    hide Next;
    t := State(s.fs, Finished(Activated(s.call.generation, true)), s.call, s.history);
    PruneIsNext(s, t);
  }
}
