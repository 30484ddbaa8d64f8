/**
 * `activate_generation` (src/generation.rs:237-310) as a step machine.
 *
 * One state is one instant of one activation over the tree: the file system, the step
 * about to be taken, the call's own variables, and a history of what validators have
 * accepted and which indices `active` has named. Between any two steps the machine may
 * stop (a crash) and any step that touches the disk may fail (an I/O error).
 */
module GenerationMachine {
  import opened Options
  import opened Decimal
  import opened GenerationNames
  import opened FileSystem
  import opened Paths

  datatype GenerationFile = GenerationFile(name: Name, bytes: Bytes)

  type Material = seq<GenerationFile>

  datatype Refusal = EmptyMaterial | InvalidName(name: Name) | DuplicateName(name: Name)

  datatype Failure = Refused(why: Refusal) | Io | Rejected | ReloadFailed

  datatype Outcome = Activated(generation: nat, changed: bool) | Failed(failure: Failure)

  datatype Phase =
    | Idle
    | Comparing
    | Allocating
    | ClearingStage
    | MakingStage
    | Creating(at: nat)
    | Writing(at: nat)
    | FlushingFile(at: nat)
    | ReadingBack
    | Validating
    | Discarding
    | FlushingStage
    | Publishing
    | FlushingRoot
    | ClearingLink
    | MakingLink
    | Swapping
    | FlushingSwap
    | Reloading
    | Listing
    | Pruning(todo: set<Name>)
    | Finished(outcome: Outcome)

  /** A call's arguments and locals; `start` is the tree as the call found it. */
  datatype Call = Call(material: Material, start: Fs, generation: nat, stage: Id, file: Id, link: Id, copied: Material)

  /** Every file set a validator has accepted, and every index `active` has named. */
  datatype History = History(accepted: set<map<Name, Bytes>>, live: set<nat>)

  datatype State = State(fs: Fs, phase: Phase, call: Call, history: History)

  // ---- check_material ----

  /** The first file, in order, with a bad name or a name already used, from position `i` on. */
  function FirstRefusal(material: Material, i: nat): Option<Refusal>
    requires i <= |material|
    decreases |material| - i
  {
    if i == |material| then None
    else if !IsSingleComponent(material[i].name) then Some(InvalidName(material[i].name))
    else if exists j :: 0 <= j < i && material[j].name == material[i].name then Some(DuplicateName(material[i].name))
    else FirstRefusal(material, i + 1)
  }

  function CheckMaterial(material: Material): Option<Refusal> {
    if material == [] then Some(EmptyMaterial) else FirstRefusal(material, 0)
  }

  /** The rules a material set keeps up to file `n`: each name its only component, and no name used before. */
  ghost predicate KeepsRules(material: Material, n: nat)
    requires n <= |material|
  {
    && (forall i :: 0 <= i < n ==> Components(material[i].name) == [Normal(material[i].name)])
    && (forall i, j :: 0 <= i < j < n ==> material[i].name != material[j].name)
  }

  /** What a refusal says: the set is empty, or the first file to break a rule breaks that one. */
  ghost predicate ExplainsRefusal(material: Material, why: Refusal) {
    match why
    case EmptyMaterial => material == []
    case InvalidName(name) =>
      exists i :: 0 <= i < |material| && KeepsRules(material, i) && material[i].name == name
                  && Components(name) != [Normal(name)]
    case DuplicateName(name) =>
      exists i, j :: 0 <= j < i < |material| && KeepsRules(material, i) && material[i].name == material[j].name == name
                     && Components(name) == [Normal(name)]
  }

  /** Accepted exactly when nonempty and within the rules, and otherwise refused for the first file that is not. */
  lemma CheckMaterialExactly(material: Material)
    ensures CheckMaterial(material).None? <==> material != [] && KeepsRules(material, |material|)
    ensures CheckMaterial(material).Some? ==> ExplainsRefusal(material, CheckMaterial(material).value)
  {
    hide IsSingleComponent, Components;
    if material != [] { RefusalFrom(material, 0); }
  }

  lemma {:induction false} RefusalFrom(material: Material, i: nat)
    requires material != [] && i <= |material| && KeepsRules(material, i)
    ensures FirstRefusal(material, i).None? <==> KeepsRules(material, |material|)
    ensures FirstRefusal(material, i).Some? ==> ExplainsRefusal(material, FirstRefusal(material, i).value)
    decreases |material| - i
  {
    hide IsSingleComponent, Components;
    if i < |material| {
      SingleComponentExactly(material[i].name);
      if KeepsRules(material, i + 1) { RefusalFrom(material, i + 1); }
    }
  }

  /** What a generation holding exactly `material` reads as. */
  function Contents(material: Material): map<Name, Bytes> {
    if material == [] then map[]
    else Contents(material[..|material| - 1])[material[|material| - 1].name := material[|material| - 1].bytes]
  }

  // ---- what a reader resolves ----

  /** The index a symlink inode names, if it is one naming a generation. */
  function LinkIndex(fs: Fs, id: Id): Option<nat> {
    if id in fs.nodes && fs.nodes[id].Link? then ParseGeneration(fs.nodes[id].target) else None
  }

  /** The generation and files reached when `active` is bound to `v`. */
  function PublishedBy(fs: Fs, v: Option<Id>): Option<(nat, map<Name, Bytes>)> {
    if v.None? || LinkIndex(fs, v.value).None? then None
    else
      var target := fs.root.Lookup(fs.nodes[v.value].target);
      if target.None? || !fs.IsDir(target.value) then None
      else Some((LinkIndex(fs, v.value).value, fs.Files(target.value)))
  }

  function Published(fs: Fs): Option<(nat, map<Name, Bytes>)> { PublishedBy(fs, fs.root.Lookup(ACTIVE)) }

  // ---- current_generation and active_matches ----

  datatype Read<+T> = Answer(value: T) | ReadError

  function CurrentGeneration(fs: Fs): Read<Option<nat>> {
    match fs.root.Lookup(ACTIVE)
    case None => Answer(None)
    case Some(id) =>
      if id in fs.nodes && fs.nodes[id].Link? then Answer(ParseGeneration(fs.nodes[id].target)) else ReadError
  }

  /** The bytes at `active/<name>`, `None` when any part of that path is absent. */
  function ReadActive(fs: Fs, name: Name): Read<Option<Bytes>> {
    match fs.root.Lookup(ACTIVE)
    case None => Answer(None)
    case Some(id) =>
      if id !in fs.nodes || !fs.nodes[id].Link? then ReadError else
        match fs.root.Lookup(fs.nodes[id].target)
        case None => Answer(None)
        case Some(d) =>
          if !fs.IsDir(d) then ReadError
          else if name !in fs.Sub(d).cur then Answer(None)
          else if name in fs.Files(d) then Answer(Some(fs.Files(d)[name]))
          else ReadError
  }

  /** Reads in order and stops at the first file that is absent, different or unreadable. */
  function ActiveMatches(fs: Fs, material: Material): Read<bool> {
    if material == [] then Answer(true)
    else
      match ReadActive(fs, material[0].name)
      case ReadError => ReadError
      case Answer(found) =>
        if found == Some(material[0].bytes) then ActiveMatches(fs, material[1..]) else Answer(false)
  }

  /** One more than the highest generation name present, or 1. */
  ghost predicate IsNextGeneration(fs: Fs, n: nat) {
    && n >= 1
    && (forall name :: name in fs.root.cur && ParseGeneration(name).Some? ==> ParseGeneration(name).value < n)
    && (n == 1 || GenerationName(n - 1) in fs.root.cur)
  }

  /** The staged files as read back, or `None` when one cannot be read. */
  function ReadBack(fs: Fs, dir: Id, material: Material): Option<Material> {
    if material == [] then Some([])
    else
      var last := material[|material| - 1];
      match ReadBack(fs, dir, material[..|material| - 1])
      case None => None
      case Some(copied) =>
        if last.name in fs.Files(dir) then Some(copied + [GenerationFile(last.name, fs.Files(dir)[last.name])])
        else None
  }

  /** One step of deleting whatever sits at root entry `name`, a directory's entries first. */
  ghost predicate RemoveStep(fs: Fs, name: Name, fs': Fs) {
    && name in fs.root.cur
    && var id := fs.root.cur[name];
    && id in fs.nodes
    && match fs.nodes[id]
       case File(_, _) => false
       case Link(_) => fs' == fs.Unlink(name)
       case Dir(dir) =>
         if dir.cur == map[] then fs' == fs.Unlink(name)
         else exists entry :: entry in dir.cur && fs' == fs.UnlinkIn(id, entry)
  }

  /** The entries a prune keeping generation `n` removes. */
  predicate Doomed(name: Name, n: nat) {
    ParseStage(name).Some? || (ParseGeneration(name).Some? && ParseGeneration(name) != Some(n))
  }

  // ---- steps ----

  function Started(s: State, material: Material): State {
    State(s.fs,
          match CheckMaterial(material)
          case Some(why) => Finished(Failed(Refused(why)))
          case None => Comparing,
          Call(material, s.fs, 0, 0, 0, 0, []),
          s.history)
  }

  ghost predicate Begin(s: State, t: State) {
    (s.phase.Idle? || s.phase.Finished?) && exists material :: t == Started(s, material)
  }

  predicate Fallible(phase: Phase) {
    !phase.Idle? && !phase.Finished? && !phase.Validating? && !phase.Discarding?
  }

  /** An I/O or reload error ends the call with the tree as the step found it. */
  predicate Fail(s: State, t: State) {
    Fallible(s.phase) && t == s.(phase := Finished(Failed(if s.phase.Reloading? then ReloadFailed else Io)))
  }

  function LiveIndex(fs: Fs): set<nat> {
    match fs.root.Lookup(ACTIVE)
    case None => {}
    case Some(id) => if LinkIndex(fs, id).Some? then {LinkIndex(fs, id).value} else {}
  }

  /** The machine stops; the next activation finds one of the outcomes `Crash` admits. */
  ghost predicate Stop(s: State, t: State) {
    && Crash(s.fs, t.fs) && t.phase == Idle && t.call == s.call
    && t.history == s.history.(live := s.history.live + LiveIndex(t.fs))
  }

  ghost predicate Compare(s: State, t: State) {
    s.phase.Comparing? &&
    match CurrentGeneration(s.fs)
    case ReadError => false
    case Answer(None) => t == s.(phase := Allocating)
    case Answer(Some(current)) =>
      match ActiveMatches(s.fs, s.call.material)
      case ReadError => false
      case Answer(same) => t == s.(phase := if same then Finished(Activated(current, false)) else Allocating)
  }

  ghost predicate Allocate(s: State, t: State) {
    s.phase.Allocating? && exists n: nat ::
      IsNextGeneration(s.fs, n) && n <= U64_MAX && t == s.(phase := ClearingStage, call := s.call.(generation := n))
  }

  /** One file of the staging copy: created empty, written in pieces, flushed. */
  ghost predicate StageFile(s: State, t: State) {
    var c := s.call;
    match s.phase
    case Creating(i) =>
      if i >= |c.material| then t == s.(phase := ReadingBack)
      else
        && s.fs.IsDir(c.stage) && c.material[i].name !in s.fs.Sub(c.stage).cur
        && t == s.(fs := s.fs.CreateIn(c.stage, c.material[i].name), phase := Writing(i), call := c.(file := s.fs.next))
    case Writing(i) =>
      && i < |c.material|
      && ((exists bytes :: t == s.(fs := s.fs.Write(c.file, bytes)))
          || t == s.(fs := s.fs.Write(c.file, c.material[i].bytes), phase := FlushingFile(i)))
    case FlushingFile(i) =>
      && c.file in s.fs.nodes && s.fs.nodes[c.file].File?
      && t == s.(fs := s.fs.FlushFile(c.file), phase := Creating(i + 1))
    case _ => false
  }

  ghost predicate Validate(s: State, t: State) {
    match s.phase
    case ReadingBack =>
      var copied := ReadBack(s.fs, s.call.stage, s.call.material);
      copied.Some? && t == s.(phase := Validating, call := s.call.(copied := copied.value))
    case Validating =>
      || t == s.(phase := Discarding)
      || t == s.(phase := FlushingStage,
                 history := s.history.(accepted := s.history.accepted + {Contents(s.call.copied)}))
    case Discarding =>
      || t == s.(phase := Finished(Failed(Rejected)))
      || (exists fs' :: RemoveStep(s.fs, StageName(s.call.generation), fs') && t == s.(fs := fs'))
    case _ => false
  }

  ghost predicate Publish(s: State, t: State) {
    var n := s.call.generation;
    match s.phase
    case FlushingStage =>
      s.fs.IsDir(s.call.stage) && t == s.(fs := s.fs.FlushDir(s.call.stage), phase := Publishing)
    case Publishing =>
      && StageName(n) in s.fs.root.cur && GenerationName(n) !in s.fs.root.cur
      && t == s.(fs := s.fs.Rename(StageName(n), GenerationName(n)), phase := FlushingRoot)
    case FlushingRoot => t == s.(fs := s.fs.FlushRoot(), phase := ClearingLink)
    case ClearingLink =>
      if ACTIVE_TMP in s.fs.root.cur then
        !s.fs.IsDir(s.fs.root.cur[ACTIVE_TMP]) && t == s.(fs := s.fs.Unlink(ACTIVE_TMP), phase := MakingLink)
      else t == s.(phase := MakingLink)
    case MakingLink =>
      && ACTIVE_TMP !in s.fs.root.cur
      && t == s.(fs := s.fs.Symlink(ACTIVE_TMP, GenerationName(n)), phase := Swapping,
          call := s.call.(link := s.fs.next))
    case Swapping =>
      && ACTIVE_TMP in s.fs.root.cur
      && (ACTIVE in s.fs.root.cur ==> !s.fs.IsDir(s.fs.root.cur[ACTIVE]))
      && t == s.(fs := s.fs.Rename(ACTIVE_TMP, ACTIVE), phase := FlushingSwap,
                 history := s.history.(live := s.history.live + {n}))
    case FlushingSwap => t == s.(fs := s.fs.FlushRoot(), phase := Reloading)
    case Reloading => t == s.(phase := Listing)
    case _ => false
  }

  ghost predicate Visit(s: State, t: State, name: Name, todo: set<Name>) {
    if Doomed(name, s.call.generation) && name in s.fs.root.cur then
      exists fs' :: RemoveStep(s.fs, name, fs') && t == s.(fs := fs')
    else t == s.(phase := Pruning(todo - {name}))
  }

  /** Walks a listing of the root in any order, deleting what the prune dooms. */
  ghost predicate Prune(s: State, t: State) {
    var n := s.call.generation;
    match s.phase
    case Listing => t == s.(phase := Pruning(s.fs.root.cur.Keys))
    case Pruning(todo) =>
      if todo == {} then t == s.(phase := Finished(Activated(n, true)))
      else exists name :: name in todo && Visit(s, t, name, todo)
    case _ => false
  }

  /** Clears a leftover staging directory, then makes a fresh one. */
  ghost predicate ClearStage(s: State, t: State) {
    var name := StageName(s.call.generation);
    match s.phase
    case ClearingStage =>
      if name in s.fs.root.cur then exists fs' :: RemoveStep(s.fs, name, fs') && t == s.(fs := fs')
      else t == s.(phase := MakingStage)
    case MakingStage =>
      && name !in s.fs.root.cur
      && t == s.(fs := s.fs.Mkdir(name), phase := Creating(0), call := s.call.(stage := s.fs.next))
    case _ => false
  }

  ghost predicate Work(s: State, t: State) {
    || Compare(s, t) || Allocate(s, t) || ClearStage(s, t) || StageFile(s, t)
    || Validate(s, t) || Publish(s, t) || Prune(s, t)
  }

  ghost predicate Next(s: State, t: State) { Begin(s, t) || Work(s, t) || Fail(s, t) || Stop(s, t) }

  /** A tree nobody has activated yet: any entries at all, but no `active`. */
  ghost predicate Initial(s: State) {
    && s.fs.WellFormed() && s.phase == Idle
    && (forall v :: s.fs.root.MayBind(ACTIVE, v) ==> v == None)
    && s.history == History({}, {})
  }

  /** Any number of activations, each cut short anywhere or run to its end. */
  ghost predicate IsRun(run: seq<State>) {
    && run != [] && Initial(run[0])
    && (forall i :: 0 <= i < |run| - 1 ==> Next(run[i], run[i + 1]))
  }
}
