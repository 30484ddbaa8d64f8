/**
 * `activate_generation` as the code runs it, over a tree it changes step by step
 * (src/generation.rs:237-310). Every execution is a run of the step machine, so what
 * GenerationTheorems proves of runs holds of the code, at each instant and at its end.
 */
module GenerationCode {
  import opened Options
  import opened Decimal
  import opened GenerationNames
  import opened FileSystem
  import opened GenerationMachine
  import opened GenerationInvariant
  import opened GenerationMoves
  import opened GenerationFrame
  import opened GenerationTheorems

  /** `check_material`: refuses the first offending file, earlier rules of one file first. */
  method CheckFiles(material: Material) returns (refusal: Option<Refusal>)
    ensures refusal == CheckMaterial(material)
    ensures refusal.None? <==> material != [] && KeepsRules(material, |material|)
    ensures refusal.Some? ==> ExplainsRefusal(material, refusal.value)
  {
    hide IsSingleComponent, KeepsRules, ExplainsRefusal;
    CheckMaterialExactly(material);
    if material == [] { return Some(EmptyMaterial); }
    for index := 0 to |material|
      invariant FirstRefusal(material, 0) == FirstRefusal(material, index)
    {
      if !IsSingleComponent(material[index].name) { return Some(InvalidName(material[index].name)); }
      var earlier := 0;
      while earlier < index
        invariant 0 <= earlier <= index
        invariant forall j :: 0 <= j < earlier ==> material[j].name != material[index].name
      {
        if material[earlier].name == material[index].name { return Some(DuplicateName(material[index].name)); }
        earlier := earlier + 1;
      }
    }
    return None;
  }

  /** `next_generation`: one pass over the root's names keeping the greatest index. */
  method NextGeneration(fs: Fs) returns (n: nat)
    ensures IsNextGeneration(fs, n) && n <= U64_MAX + 1
  {
    var todo, max, any := fs.root.cur.Keys, 0, false;
    while todo != {}
      invariant todo <= fs.root.cur.Keys
      invariant forall name :: name in fs.root.cur && name !in todo && ParseGeneration(name).Some? ==>
                  ParseGeneration(name).value <= max
      invariant max > 0 ==> GenerationName(max) in fs.root.cur
      invariant 0 <= max <= U64_MAX
      decreases todo
    {
      var name :| name in todo;
      todo := todo - {name};
      if ParseGeneration(name).Some? && ParseGeneration(name).value > max {
        max := ParseGeneration(name).value;
        ParsesExactlyGenerations(name, max);
      }
    }
    n := max + 1;
  }

  /** `active_matches`: reads in order and stops at the first file that differs. */
  method CompareFiles(fs: Fs, material: Material) returns (same: Read<bool>)
    ensures same == ActiveMatches(fs, material)
  {
    var i := 0;
    assert material[0..] == material;
    while i < |material|
      invariant 0 <= i <= |material|
      invariant ActiveMatches(fs, material) == ActiveMatches(fs, material[i..])
    {
      assert material[i..][0] == material[i] && material[i..][1..] == material[i + 1..];
      var found := ReadActive(fs, material[i].name);
      if found.ReadError? { return ReadError; }
      if found.value != Some(material[i].bytes) { return Answer(false); }
      i := i + 1;
    }
    return Answer(true);
  }

  /** The staged files, read back in order. */
  method ReadFiles(fs: Fs, dir: Id, material: Material) returns (copied: Option<Material>)
    ensures copied == ReadBack(fs, dir, material)
  {
    var i, read := 0, [];
    while i < |material|
      invariant 0 <= i <= |material|
      invariant ReadBack(fs, dir, material[..i]) == Some(read)
    {
      assert material[..i + 1][..i] == material[..i];
      var name := material[i].name;
      if name !in fs.Files(dir) {
        ReadBackStops(fs, dir, material, i + 1);
        return None;
      }
      read := read + [GenerationFile(name, fs.Files(dir)[name])];
      i := i + 1;
    }
    assert material[..i] == material;
    return Some(read);
  }

  lemma {:induction false} ReadBackStops(fs: Fs, dir: Id, material: Material, i: nat)
    requires i <= |material| && ReadBack(fs, dir, material[..i]) == None
    ensures ReadBack(fs, dir, material) == None
    decreases |material| - i
  {
    if i < |material| {
      assert material[..i + 1][..i] == material[..i];
      ReadBackStops(fs, dir, material, i + 1);
    } else {
      assert material[..i] == material;
    }
  }

  class GenerationTree {
    /** Which of the operations this process asks of the disk, or of the reload, fail, by their number. */
    const faults: set<nat>
    /** How many it has asked: exactly the steps of the run that ask one. */
    var clock: nat
    var fs: Fs
    ghost var run: seq<State>
    ghost var now: State
    /** How many calls the run begins. */
    ghost var begun: nat

    ghost predicate Valid()
      reads this`fs, this`clock, this`run, this`now, this`begun
    {
      run != [] && IsRun(run) && run[|run| - 1] == now && now.fs == fs && clock == Asked(run) && begun == Begun(run)
    }

    ghost predicate NoFaults(from: nat, to: nat) { forall k :: from <= k < to ==> k !in faults }

    lemma Current()
      requires Valid()
      ensures now.fs == fs
    {
      hide IsRun;
    }

    /** The state reached: the last of the run, over the tree as it is, with the invariant of runs. */
    lemma Reached()
      requires Valid()
      ensures run != [] && IsRun(run) && run[|run| - 1] == now && now.fs == fs
      ensures Inv(now) && fs.WellFormed() && fs.next !in fs.nodes
    {
      LastHolds(run);
      UnusedId(fs);
      hide Inv, IsRun;
    }

    /** A tree nothing has activated: no crash outcome binds `active`. */
    constructor (found: Fs, faults: set<nat>)
      requires found.WellFormed() && forall v :: found.root.MayBind(ACTIVE, v) ==> v == None
      ensures Valid() && fs == found && now.phase == Idle && this.faults == faults
    {
      this.faults, clock, begun, fs := faults, 0, 0, found;
      now := State(found, Idle, Call([], found, 0, 0, 0, 0, []), History({}, {}));
      run := [now];
    }

    /** One operation asked of the disk, and the step it is. */
    method Perform(ghost t: State, after: Fs)
      requires Valid() && Next(now, t) && Asks(now, t) && t.fs == after
      modifies this`fs, this`clock, this`run, this`now
      ensures Valid() && fs == after && now == t && run == old(run) + [t] && clock == old(clock) + 1
    {
      hide IsRun, Next, Asked, Begun;
      AskedNext(run, t);
      BegunNext(run, t);
      ExtendRun(run, t);
      clock := clock + 1;
      run, now := run + [t], t;
      fs := after;
    }

    /** A step that asks nothing: the call moves along, or what a failing operation left comes to light. */
    method Advance(ghost t: State, after: Fs)
      requires Valid() && Next(now, t) && !Asks(now, t) && !Begins(now, t) && t.fs == after
      modifies this`fs, this`run, this`now
      ensures Valid() && fs == after && now == t && run == old(run) + [t]
    {
      hide IsRun, Next, Asks, Begins, Asked, Begun;
      AskedNext(run, t);
      BegunNext(run, t);
      ExtendRun(run, t);
      run, now := run + [t], t;
      fs := after;
    }

    /** A call begins. */
    ghost method Start(material: Material)
      requires Valid() && (now.phase.Idle? || now.phase.Finished?)
      modifies this`run, this`now, this`begun
      ensures Valid() && old(run) < run && begun == old(begun) + 1
      ensures now.call.material == material && now.call.start == fs
      ensures now.phase == match CheckMaterial(material)
                           case Some(why) => Finished(Failed(Refused(why)))
                           case None => Comparing
    {
      hide IsRun, Next, Asked, Begun, CheckMaterial;
      var t := BeginStep(now, material);
      AskedNext(run, t);
      BegunNext(run, t);
      ExtendRun(run, t);
      run, now, begun := run + [t], t, begun + 1;
    }

    /** The machine stopped and came back: `found` is one of the outcomes a crash admits. */
    method Recover(found: Fs)
      requires Valid() && Crash(fs, found)
      modifies this`fs, this`run, this`now
      ensures Valid() && fs == found && now.phase == Idle && old(run) <= run
    {
      ghost var live := now.history.live + LiveIndex(found);
      Advance(State(found, Idle, now.call, now.history.(live := live)), found);
    }

    /** The call ends on an error, with the tree as it stands. */
    method Abort()
      requires Valid() && Fallible(now.phase)
      modifies this`fs, this`clock, this`run, this`now
      ensures Valid() && old(run) < run && now.call == old(now.call) && fs == old(fs) && clock == old(clock) + 1
      ensures now.phase == Finished(Failed(if old(now.phase).Reloading? then ReloadFailed else Io))
    {
      hide IsRun, Next, Asked;
      Current();
      ghost var t := FailStep(now);
      Perform(t, fs);
    }

    /** One removal, carried out and recorded. */
    method Remove(name: Name, after: Fs)
      requires Valid() && Removing(now.phase, now.call.generation, name) && RemoveStep(fs, name, after)
      modifies this`fs, this`clock, this`run, this`now
      ensures Valid() && old(run) < run && fs == after && now.phase == old(now.phase) && now.call == old(now.call)
      ensures clock == old(clock) + 1
    {
      hide IsRun, Next, RemoveStep, Asked, Doomed, StageName;
      RemovalStep(now, name, after);
      Perform(State(after, now.phase, now.call, now.history), after);
    }

    /**
     * `remove_dir_all_if_present`: entries first, then the directory. It succeeds exactly when the name is
     * clear at the end, and stops short at a plain file, or anywhere the next operation fails.
     */
    method RemoveDirAllIfPresent(name: Name) returns (ok: bool)
      requires Valid() && Removing(now.phase, now.call.generation, name)
      modifies this`fs, this`clock, this`run, this`now
      ensures Valid() && old(run) <= run && now.phase == old(now.phase) && now.call == old(now.call)
      ensures clock >= old(clock) && NoFaults(old(clock), clock)
      ensures ok <==> name !in fs.root.cur
      ensures if ok then !IsFileAt(old(fs), name) else IsFileAt(old(fs), name) || clock in faults
      ensures Kept(old(fs), fs, {name})
    {
      hide Valid, IsRun, Next, Inv, Removing, RemoveStep, Kept, Fs.UnlinkIn, Fs.Unlink, Fs.WellFormed;
      Reached();
      KeptMore(fs, name);
      if name !in fs.root.cur { return true; }
      EntryIsAnInode(fs, name);
      var id := fs.root.cur[name];
      if fs.nodes[id].File? { return false; }
      while fs.IsDir(id) && fs.Sub(id).cur != map[]
        invariant Valid() && old(run) <= run && now.phase == old(now.phase) && now.call == old(now.call)
        invariant name in fs.root.cur && fs.root.cur[name] == id && id in fs.nodes && !fs.nodes[id].File?
        invariant clock >= old(clock) && NoFaults(old(clock), clock) && Kept(old(fs), fs, {name})
        decreases if fs.IsDir(id) then |fs.Sub(id).cur.Keys| else 0
      {
        var fault := clock in faults;
        if fault { return false; }
        var entries := fs.Sub(id).cur;
        assert entries.Keys != {};
        var entry :| entry in entries.Keys;
        EmptyingKeeps(old(fs), fs, name, entry);
        Remove(name, fs.UnlinkIn(id, entry));
        assert fs.Sub(id).cur.Keys == entries.Keys - {entry};
      }
      var fault := clock in faults;
      if fault { return false; }
      UnlinkingKeeps(old(fs), fs, name);
      Remove(name, fs.Unlink(name));
      return true;
    }

    /** Step 2: the no-op check. `Some` when the call is over: on a failed read, or with the files already there. */
    method Compare(material: Material) returns (over: Option<Outcome>)
      requires Valid() && now.phase.Comparing? && now.call.material == material
      modifies this`fs, this`clock, this`run, this`now
      ensures Valid() && old(run) < run && fs == old(fs) && now.call == old(now.call) && clock == old(clock) + 1
      ensures now.phase == if over.Some? then Finished(over.value) else Allocating
      ensures over.None? <==> old(clock) !in faults && !AlreadyThere(fs, material)
      ensures over.Some? ==> if old(clock) in faults then over.value == Failed(Io)
                             else over.value.Activated? && !over.value.changed
    {
      hide Valid, IsRun, Next, Inv, ActiveMatches, CurrentGeneration;
      Reached();
      LiveReads(now);
      var current := CurrentGeneration(fs);
      var same := Answer(false);
      if current.Answer? && current.value.Some? { same := CompareFiles(fs, material); }
      var fault := clock in faults;
      if current.ReadError? || same.ReadError? || fault {
        Abort();
        return Some(Failed(Io));
      }
      over := if current.value.Some? && same.value then Some(Activated(current.value.value, false)) else None;
      ghost var t := CompareStep(now, if over.Some? then Finished(over.value) else Allocating, material);
      Perform(t, fs);
    }

    /** Step 3: an index above every one present, while the numbering lasts. */
    method Number() returns (number: Option<nat>)
      requires Valid() && now.phase.Allocating?
      modifies this`fs, this`clock, this`run, this`now
      ensures Valid() && old(run) < run && fs == old(fs) && clock == old(clock) + 1
      ensures now.call.material == old(now.call.material) && now.call.start == old(now.call.start)
      ensures now.phase == if number.Some? then ClearingStage else Finished(Failed(Io))
      ensures old(clock) !in faults && !Blocked(fs) ==> number.Some?
      ensures number.Some? ==>
                var n := number.value;
                && old(clock) !in faults && now.call.generation == n && n <= U64_MAX && IsNextGeneration(fs, n)
                && (IsFileAt(fs, StageName(n)) ==> Blocked(fs))
    {
      hide Valid, IsRun, Next, Blocked, IsNextGeneration, IsFileAt, GenerationName, StageName;
      Current();
      var n := NextGeneration(fs);
      NextIsNotBlocked(fs, n);
      var fault := clock in faults;
      if n > U64_MAX || fault { Abort(); return None; }
      ghost var t := AllocateStep(now, n);
      Perform(t, fs);
      return Some(n);
    }

    /** Step 3: an empty staging directory, once whatever an earlier call left at its name is gone. */
    method MakeStage(n: nat) returns (stage: Option<Id>)
      requires Valid() && now.phase.ClearingStage? && now.call.generation == n
      modifies this`fs, this`clock, this`run, this`now
      ensures Valid() && old(run) < run && clock >= old(clock)
      ensures now.call.material == old(now.call.material) && now.call.start == old(now.call.start)
      ensures now.phase == if stage.Some? then Creating(0) else Finished(Failed(Io))
      ensures stage.Some? <==> NoFaults(old(clock), clock) && !IsFileAt(old(fs), StageName(n))
      ensures stage.Some? ==>
                now.call.generation == n && now.call.stage == stage.value && Kept(old(fs), fs, {StageName(n)})
    {
      hide Valid, IsRun, Next, Inv, Kept, IsFileAt, Removing, StageName, Fs.Mkdir, Fs.WellFormed;
      ghost var found := fs;
      StageIsRemovable(n);
      var cleared := RemoveDirAllIfPresent(StageName(n));
      if !cleared { Abort(); return None; }
      ghost var before := fs;
      Reached();
      ghost var t, u := MakeSteps(now);
      Advance(t, fs);
      var fault := clock in faults;
      if fault { Abort(); return None; }
      stage := Some(fs.next);
      Perform(u, fs.Mkdir(StageName(n)));
      KeptTransitive(found, before, fs, {StageName(n)}, {StageName(n)}, {StageName(n)});
    }

    /** `write_file_0600` for one file: create anew, write, flush. */
    method WriteFile(stage: Id, file: GenerationFile, ghost i: nat) returns (ok: bool)
      requires Valid() && now.phase == Creating(i) && now.call.stage == stage
      requires i < |now.call.material| && now.call.material[i] == file
      modifies this`fs, this`clock, this`run, this`now
      ensures Valid() && old(run) < run && clock >= old(clock) && Continues(old(now.call), now.call)
      ensures now.phase == if ok then Creating(i + 1) else Finished(Failed(Io))
      ensures ok <==> NoFaults(old(clock), clock)
      ensures ok ==> Kept(old(fs), fs, {})
    {
      hide Valid, IsRun, Next, Inv, Kept, Fs.CreateIn, Fs.Write, Fs.FlushFile, Fs.WellFormed;
      Reached();
      StageIsReady(now, i);
      FileKept(fs, stage, file);
      var fault := clock in faults;
      if !fs.IsDir(stage) || file.name in fs.Sub(stage).cur || fault { Abort(); return false; }
      var id := fs.next;
      ghost var t := CreateStep(now, i, file.name);
      Perform(t, fs.CreateIn(stage, file.name));
      fault := clock in faults;
      if fault {
        var torn: Bytes := *;
        t := TornStep(now, i, torn);
        Advance(t, fs.Write(id, torn));
        Abort();
        return false;
      }
      ghost var u;
      t, u := WriteSteps(now, i, file.bytes);
      Perform(t, fs.Write(id, file.bytes));
      fault := clock in faults;
      if fault { Abort(); return false; }
      Perform(u, fs.FlushFile(id));
      return true;
    }

    /** Step 3: every file into the staging directory, in order. */
    method WriteFiles(stage: Id, material: Material) returns (ok: bool)
      requires Valid() && now.phase == Creating(0) && now.call.material == material && now.call.stage == stage
      modifies this`fs, this`clock, this`run, this`now
      ensures Valid() && old(run) < run && clock >= old(clock) && Continues(old(now.call), now.call)
      ensures now.phase == if ok then ReadingBack else Finished(Failed(Io))
      ensures ok <==> NoFaults(old(clock), clock)
      ensures ok ==> Kept(old(fs), fs, {})
    {
      hide Valid, IsRun, Next, Kept;
      var i := 0;
      ghost var found := fs;
      KeptItself(fs);
      while i < |material|
        invariant 0 <= i <= |material| && Valid() && old(run) <= run && now.phase == Creating(i)
        invariant Continues(old(now.call), now.call)
        invariant clock >= old(clock) && NoFaults(old(clock), clock) && Kept(found, fs, {})
      {
        ghost var before := fs;
        var ok := WriteFile(stage, material[i], i);
        if !ok { return false; }
        KeptTransitive(found, before, fs, {}, {}, {});
        i := i + 1;
      }
      Current();
      ghost var t := WrittenStep(now);
      Advance(t, fs);
      return true;
    }

    /** A rejected copy is removed on the way out; a failure to remove it is ignored. */
    method Discard(n: nat)
      requires Valid() && now.phase.Validating? && now.call.generation == n
      modifies this`fs, this`clock, this`run, this`now
      ensures Valid() && old(run) < run && clock >= old(clock)
      ensures now.call == old(now.call) && now.phase == Finished(Failed(Rejected))
    {
      hide Valid, IsRun, Next, Kept, IsFileAt, StageName;
      Current();
      ghost var t := DiscardStep(now);
      Advance(t, fs);
      var _ := RemoveDirAllIfPresent(StageName(n));
      Current();
      t := DiscardStep(now);
      Advance(t, fs);
    }

    /** Step 4: the validator judges the bytes read back; a rejected copy is discarded. */
    method ValidateCopy(n: nat, stage: Id, material: Material, validate: Material -> bool)
      returns (over: Option<Failure>)
      requires Valid() && now.phase == ReadingBack && now.call.material == material
      requires now.call.stage == stage && now.call.generation == n
      modifies this`fs, this`clock, this`run, this`now
      ensures Valid() && old(run) < run && Continues(old(now.call), now.call)
      ensures now.phase == if over.Some? then Finished(Failed(over.value)) else FlushingStage
      ensures over == if old(clock) in faults then Some(Io) else if !validate(material) then Some(Rejected) else None
      ensures clock > old(clock) && (over.None? ==> clock == old(clock) + 1 && fs == old(fs))
    {
      hide Valid, IsRun, Next, Inv, ReadBack, Fs.WellFormed;
      Reached();
      CopyIsExact(run);
      var copied := ReadFiles(fs, stage, material);
      var fault := clock in faults;
      if copied.None? || fault { Abort(); return Some(Io); }
      ghost var t := ReadBackStep(now, copied.value);
      Perform(t, fs);
      if !validate(copied.value) {
        Discard(n);
        return Some(Rejected);
      }
      t := AcceptStep(now);
      Advance(t, fs);
      return None;
    }

    /** Steps 3 and 4 together: an index, and a copy of the files staged under it that the validator accepts. */
    method StageCopy(material: Material, validate: Material -> bool) returns (made: Result<(nat, Id), Failure>)
      requires Valid() && now.phase.Allocating? && now.call.material == material
      modifies this`fs, this`clock, this`run, this`now
      ensures Valid() && old(run) < run && clock >= old(clock)
      ensures now.call.material == material && now.call.start == old(now.call.start)
      ensures now.phase == if made.Ok? then FlushingStage else Finished(Failed(made.error))
      ensures NoFaults(old(clock), clock) && !Blocked(old(fs)) && validate(material) ==> made.Ok?
      ensures made.Err? ==> !made.error.Refused?
      ensures made.Ok? ==>
                var n := made.value.0;
                && NoFaults(old(clock), clock) && validate(material)
                && now.call.generation == n && now.call.stage == made.value.1 && n <= U64_MAX
                && IsNextGeneration(old(fs), n) && !IsFileAt(old(fs), StageName(n)) && Kept(old(fs), fs, {StageName(n)})
    {
      hide Valid, IsRun, Next, Kept, Blocked, IsNextGeneration, IsFileAt, StageName;
      ghost var found := fs;
      var number := Number();
      if number.None? { return Err(Io); }
      var n := number.value;
      var stage := MakeStage(n);
      if stage.None? { return Err(Io); }
      ghost var staged := fs;
      var written := WriteFiles(stage.value, material);
      if !written { return Err(Io); }
      KeptTransitive(found, staged, fs, {StageName(n)}, {}, {StageName(n)});
      var rejected := ValidateCopy(n, stage.value, material, validate);
      return if rejected.Some? then Err(rejected.value) else Ok((n, stage.value));
    }

    /** Step 5, up to the flush that makes the finalised entry durable. */
    method Finalise(n: nat, stage: Id) returns (ok: bool)
      requires Valid() && now.phase.FlushingStage? && now.call.stage == stage && now.call.generation == n
      modifies this`fs, this`clock, this`run, this`now
      ensures Valid() && old(run) < run && now.call == old(now.call) && clock >= old(clock)
      ensures now.phase == if ok then ClearingLink else Finished(Failed(Io))
      ensures ok <==> NoFaults(old(clock), clock)
      ensures ok ==> Kept(old(fs), fs, {StageName(n), GenerationName(n)}) && StageName(n) !in fs.root.cur
    {
      hide Valid, IsRun, Next, Inv, Kept, StageName, GenerationName, Fs.Rename, Fs.FlushRoot, Fs.FlushDir,
          Fs.WellFormed;
      Reached();
      ghost var t, u, v := FinaliseSteps(now);
      var fault := clock in faults;
      if !fs.IsDir(stage) || fault { Abort(); return false; }
      Perform(t, fs.FlushDir(stage));
      fault := clock in faults;
      if StageName(n) !in fs.root.cur || GenerationName(n) in fs.root.cur || fault { Abort(); return false; }
      Perform(u, fs.Rename(StageName(n), GenerationName(n)));
      fault := clock in faults;
      if fault { Abort(); return false; }
      Perform(v, fs.FlushRoot());
      return true;
    }

    /** `swap_active_symlink`, first half: clear the scratch name, which a directory prevents, and link there. */
    method MakeLink(n: nat) returns (ok: bool)
      requires Valid() && now.phase.ClearingLink? && now.call.generation == n
      modifies this`fs, this`clock, this`run, this`now
      ensures Valid() && old(run) < run && clock >= old(clock) && Continues(old(now.call), now.call)
      ensures now.phase == if ok then Swapping else Finished(Failed(Io))
      ensures ok <==> NoFaults(old(clock), clock) && !IsDirAt(old(fs), ACTIVE_TMP)
      ensures ok ==> Kept(old(fs), fs, {ACTIVE_TMP})
    {
      hide Valid, IsRun, Next, Inv, Kept, GenerationName, Fs.Unlink, Fs.Symlink, Fs.IsDir, Fs.WellFormed;
      Reached();
      var fault := clock in faults;
      if fault || (ACTIVE_TMP in fs.root.cur && fs.IsDir(fs.root.cur[ACTIVE_TMP])) { Abort(); return false; }
      ghost var t, u := LinkSteps(now);
      Perform(t, if ACTIVE_TMP in fs.root.cur then fs.Unlink(ACTIVE_TMP) else fs);
      fault := clock in faults;
      if fault { Abort(); return false; }
      Perform(u, fs.Symlink(ACTIVE_TMP, GenerationName(n)));
      return true;
    }

    /** `swap_active_symlink`, second half, and the flush that makes the swap durable. */
    method SwapActive(n: nat) returns (ok: bool)
      requires Valid() && now.phase.Swapping? && now.call.generation == n
      modifies this`fs, this`clock, this`run, this`now
      ensures Valid() && old(run) < run && now.call == old(now.call) && clock >= old(clock)
      ensures now.phase == if ok then Reloading else Finished(Failed(Io))
      ensures ok <==> NoFaults(old(clock), clock)
      ensures ok ==> Kept(old(fs), fs, {ACTIVE_TMP, ACTIVE})
    {
      hide Valid, IsRun, Next, Inv, Kept, Fs.Rename, Fs.FlushRoot, Fs.IsDir, Fs.WellFormed;
      Reached();
      ghost var t, u := SwapSteps(now);
      var fault := clock in faults;
      if ACTIVE_TMP !in fs.root.cur || (ACTIVE in fs.root.cur && fs.IsDir(fs.root.cur[ACTIVE])) || fault {
        Abort();
        return false;
      }
      Perform(t, fs.Rename(ACTIVE_TMP, ACTIVE));
      fault := clock in faults;
      if fault { Abort(); return false; }
      Perform(u, fs.FlushRoot());
      return true;
    }

    /** One listed name: deleted when the prune dooms it, which a plain file there prevents. */
    method PruneEntry(n: nat, name: Name, ghost todo: set<Name>) returns (ok: bool)
      requires Valid() && now.phase == Pruning(todo) && name in todo && now.call.generation == n
      modifies this`fs, this`clock, this`run, this`now
      ensures Valid() && old(run) < run && now.call == old(now.call) && clock >= old(clock)
      ensures now.phase == if ok then Pruning(todo - {name}) else Finished(Failed(Io))
      ensures ok <==> NoFaults(old(clock), clock) && (Doomed(name, n) ==> !IsFileAt(old(fs), name))
      ensures ok ==> Kept(old(fs), fs, {name})
    {
      hide Valid, IsRun, Next, Inv, Kept, IsFileAt, Doomed, Removing;
      KeptMore(fs, name);
      if Doomed(name, n) {
        DoomedIsRemovable(todo, n, name);
        var removed := RemoveDirAllIfPresent(name);
        if !removed { Abort(); return false; }
      }
      Current();
      ghost var t := VisitStep(now, todo, name);
      Advance(t, fs);
      return true;
    }

    /** `prune_generations`: deletes the doomed among the names listed; a plain file among them stops it. */
    method Prune(n: nat) returns (ok: bool)
      requires Valid() && now.phase.Listing? && now.call.generation == n
      modifies this`fs, this`clock, this`run, this`now
      ensures Valid() && old(run) < run && now.call == old(now.call) && clock >= old(clock)
      ensures now.phase == Finished(if ok then Activated(n, true) else Failed(Io))
      ensures ok <==> NoFaults(old(clock), clock) && forall name :: Doomed(name, n) ==> !IsFileAt(old(fs), name)
    {
      hide Valid, IsRun, Next, Inv, Kept, IsFileAt, Doomed, Fs.WellFormed;
      Reached();
      ghost var listed := fs;
      var fault := clock in faults;
      if fault { Abort(); return false; }
      var todo := fs.root.cur.Keys;
      ghost var done: set<Name> := {};
      ghost var t := ListStep(now);
      Perform(t, fs);
      KeptItself(fs);
      while todo != {}
        invariant Valid() && old(run) < run && now.phase == Pruning(todo) && now.call == old(now.call)
        invariant clock >= old(clock) && NoFaults(old(clock), clock)
        invariant Kept(listed, fs, done) && done !! todo && done + todo == listed.root.cur.Keys
        invariant forall name :: name in done && Doomed(name, n) ==> !IsFileAt(listed, name)
        decreases todo
      {
        var name :| name in todo;
        ghost var before := fs;
        KeptFile(listed, before, done, name);
        ok := PruneEntry(n, name, todo);
        if !ok { return; }
        KeptTransitive(listed, before, fs, done, {name}, done + {name});
        done := done + {name};
        todo := todo - {name};
      }
      AbsentIsNoFile(listed);
      Current();
      t := PrunedStep(now);
      Advance(t, fs);
      return true;
    }

    /** The accepted copy finalised and `active` swapped onto it; a directory at the scratch name prevents it. */
    method Install(n: nat, stage: Id) returns (ok: bool)
      requires Valid() && now.phase.FlushingStage? && now.call.stage == stage && now.call.generation == n
      modifies this`fs, this`clock, this`run, this`now
      ensures Valid() && old(run) < run && clock >= old(clock) && Continues(old(now.call), now.call)
      ensures now.phase == if ok then Reloading else Finished(Failed(Io))
      ensures ok <==> NoFaults(old(clock), clock) && !IsDirAt(old(fs), ACTIVE_TMP)
      ensures ok ==>
                && Kept(old(fs), fs, {StageName(n), GenerationName(n), ACTIVE_TMP, ACTIVE})
                && StageName(n) !in fs.root.cur
    {
      hide Valid, IsRun, Next, Inv, Kept, GenerationName, StageName, IsDirAt, Fs.WellFormed;
      Reached();
      ghost var found := fs;
      ok := Finalise(n, stage);
      if !ok { return; }
      ghost var finalised := fs;
      ScratchIsApart(n);
      KeptFile(found, finalised, {StageName(n), GenerationName(n)}, ACTIVE_TMP);
      ok := MakeLink(n);
      if !ok { return; }
      ghost var linked := fs;
      ok := SwapActive(n);
      if !ok { return; }
      InstalledKeeps(found, finalised, linked, fs, n);
    }

    /**
     * From the accepted copy to the pruned tree. It succeeds exactly when nothing fails, no directory sits
     * at the scratch name, and no plain file at a name the prune removes.
     */
    method GoLive(n: nat, stage: Id) returns (outcome: Outcome)
      requires Valid() && now.phase.FlushingStage? && now.call.stage == stage && now.call.generation == n
      modifies this`fs, this`clock, this`run, this`now
      ensures Valid() && old(run) < run && clock >= old(clock) && Continues(old(now.call), now.call)
      ensures now.phase == Finished(outcome) && (outcome.Activated? ==> outcome == Activated(n, true))
      ensures outcome.Failed? ==> !outcome.failure.Refused?
      ensures outcome.Activated? <==>
                && NoFaults(old(clock), clock) && !IsDirAt(old(fs), ACTIVE_TMP)
                && forall name :: Leftover(name) ==> !IsFileAt(old(fs), name)
    {
      hide Valid, IsRun, Next, Inv, Kept, GenerationName, StageName, IsDirAt, IsFileAt, Doomed, Leftover, Fs.WellFormed;
      Reached();
      StageStands(now);
      StageIsThere(now);
      ghost var found := fs;
      var ok := Install(n, stage);
      if !ok { return Failed(Io); }
      ghost var swapped := fs;
      var fault := clock in faults;
      if fault { Abort(); return Failed(ReloadFailed); }
      Current();
      ghost var t := ReloadStep(now);
      Perform(t, fs);
      DoomedAreTheLeftovers(found, swapped, n, {StageName(n), GenerationName(n), ACTIVE_TMP, ACTIVE});
      ok := Prune(n);
      return if ok then Activated(n, true) else Failed(Io);
    }

    /** The steps after the material check. */
    method Run(material: Material, validate: Material -> bool) returns (outcome: Outcome)
      requires Valid() && now.phase.Comparing? && now.call.material == material
      modifies this`fs, this`clock, this`run, this`now
      ensures Valid() && old(run) < run && now.phase == Finished(outcome) && clock >= old(clock)
      ensures now.call.material == material && now.call.start == old(now.call.start)
      ensures !(outcome.Failed? && outcome.failure.Refused?)
      ensures outcome.Activated? ==> if outcome.changed then validate(material) else fs == old(fs)
      ensures outcome.Activated? <==>
                && NoFaults(old(clock), clock)
                && (AlreadyThere(old(fs), material) || (validate(material) && !Blocked(old(fs))))
      ensures outcome.Activated? ==> (outcome.changed <==> !AlreadyThere(old(fs), material))
    {
      hide Valid, IsRun, Next, Inv, Kept, Blocked, AlreadyThere, IsNextGeneration, IsFileAt, IsDirAt, Leftover,
           StageName, Fs.WellFormed;
      Reached();
      ghost var found := fs;
      var over := Compare(material);
      if over.Some? { return over.value; }
      var made := StageCopy(material, validate);
      if made.Err? { return Failed(made.error); }
      Reached();
      StageStands(now);
      BlockedAtTheStart(found, fs, made.value.0);
      outcome := GoLive(made.value.0, made.value.1);
    }

    /**
     * The whole activation. It succeeds exactly when nothing fails, the material is well formed, and
     * either the files are already live or the validator accepts them and nothing in the tree is in the
     * way. Success publishes the given files durably, under an index never used before, or wrote nothing;
     * failure leaves readers on the old set or on the new one; and other root entries stay.
     */
    method Activate(material: Material, validate: Material -> bool) returns (outcome: Outcome)
      requires Valid() && (now.phase.Idle? || now.phase.Finished?)
      modifies this
      ensures Valid() && old(run) < run && now.phase == Finished(outcome) && clock >= old(clock)
      ensures begun == old(begun) + 1 && now.call.material == material && now.call.start == old(fs)
      ensures ForeignKept(old(fs), fs)
      ensures outcome.Activated? <==>
                && NoFaults(old(clock), clock) && material != [] && KeepsRules(material, |material|)
                && (Serves(old(fs), material) || (validate(material) && !Blocked(old(fs))))
      ensures outcome.Activated? ==> (outcome.changed <==> !Serves(old(fs), material))
      ensures match outcome
              case Activated(n, true) =>
                && validate(material) && Published(fs) == Some((n, Contents(material)))
                && forall found :: Crash(fs, found) ==> Published(found) == Published(fs)
              case Activated(n, false) => fs == old(fs) && Published(fs).Some? && Published(fs).value.0 == n
              case Failed(Refused(why)) => fs == old(fs) && ExplainsRefusal(material, why)
              case Failed(_) =>
                Published(fs) == old(Published(fs)) || Published(fs) == Some((now.call.generation, Contents(material)))
    {
      hide Valid, IsRun, Next, Inv, GenerationName, StageName, ParseGeneration, ParseStage, Blocked, AlreadyThere,
           Serves, KeepsRules, ExplainsRefusal, Fs.WellFormed;
      Reached();
      if material != [] { AlreadyThereExactly(now, material); }
      var refusal := CheckFiles(material);
      Start(material);
      if refusal.Some? {
        outcome := Failed(Refused(refusal.value));
      } else {
        outcome := Run(material, validate);
      }
      Reached();
      OutcomeHolds(run, material, outcome);
    }
  }

  /** The bytes read back for the validator are the caller's. */
  lemma CopyIsExact(run: seq<State>)
    requires IsRun(run) && run[|run| - 1].phase.ReadingBack?
    ensures var s := run[|run| - 1]; ReadBack(s.fs, s.call.stage, s.call.material) == Some(s.call.material)
  {
    RunsKeepInvariants(run, |run| - 1);
    var s := run[|run| - 1];
    assert s.call.material[..|s.call.material|] == s.call.material;
    ReadBackIsExact(s.fs, s.call, StageName(s.call.generation), |s.call.material|);
  }

  /** What the theorems about runs say of the end of one call. */
  lemma OutcomeHolds(run: seq<State>, material: Material, outcome: Outcome)
    requires IsRun(run) && run[|run| - 1].phase == Finished(outcome) && run[|run| - 1].call.material == material
    requires outcome.Failed? && outcome.failure.Refused? ==> run[|run| - 1].fs == run[|run| - 1].call.start
    ensures var s := run[|run| - 1];
            && ForeignKept(s.call.start, s.fs)
            && match outcome
               case Activated(n, true) =>
                 && Published(s.fs) == Some((n, Contents(material)))
                 && forall found :: Crash(s.fs, found) ==> Published(found) == Published(s.fs)
               case Activated(n, false) => s.fs == s.call.start && Published(s.fs).Some? && Published(s.fs).value.0 == n
               case Failed(_) =>
                 Published(s.fs) == Published(s.call.start)
                     || Published(s.fs) == Some((s.call.generation, Contents(material)))
  {
    hide GenerationName, StageName, ParseGeneration, ParseStage;
    var i := |run| - 1;
    RunsKeepInvariants(run, i);
    match outcome
    case Activated(n, true) => ChangedMeansInstalled(run, i, n);
    case Activated(n, false) => UnchangedMeansAlreadyThere(run, i, n);
    case Failed(_) =>
  }
}
