/**
 * Runs that exist. From an empty tree, any well-formed set of files the validator accepts is
 * installed when nothing fails; and when only the flush of the swap fails, repeating the call
 * answers `changed: false` and a crash can lose what it answered (src/generation.rs:248-256, 295-301).
 */
module GenerationWitness {
  import opened Options
  import opened GenerationNames
  import opened FileSystem
  import opened GenerationMachine
  import opened GenerationInvariant
  import opened GenerationTheorems

  const EMPTY_TREE := Fs(EMPTY, map[], 0)

  /** The first call over the empty tree is at `phase`, with these root entries. */
  ghost predicate At(s: State, phase: Phase, material: Material, names: set<Name>) {
    && s.phase == phase && s.fs.root.cur.Keys == names
    && s.call.material == material && s.call.start == EMPTY_TREE && s.call.generation == 1
  }

  /** A run over the empty tree has got there. */
  ghost predicate Reached(run: seq<State>, phase: Phase, material: Material, names: set<Name>) {
    run != [] && IsRun(run) && run[0].fs == EMPTY_TREE && At(run[|run| - 1], phase, material, names)
  }

  lemma Go(run: seq<State>, phase: Phase, names: set<Name>, material: Material,
           t: State, phase': Phase, names': set<Name>)
    returns (longer: seq<State>)
    requires Reached(run, phase, material, names) && Next(run[|run| - 1], t) && At(t, phase', material, names')
    ensures Reached(longer, phase', material, names') && longer[|longer| - 1] == t
  {
    hide Next, At;
    ExtendRun(run, t);
    longer := run + [t];
  }

  lemma LastIsInvariant(run: seq<State>)
    requires IsRun(run)
    ensures Inv(run[|run| - 1])
  {
    RunsKeepInvariants(run, |run| - 1);
  }

  // ---- to the staging directory ----

  function AtRest(): State { State(EMPTY_TREE, Idle, Call([], EMPTY_TREE, 0, 0, 0, 0, []), History({}, {})) }

  lemma EmptyTreeStart(material: Material)
    requires CheckMaterial(material).None?
    ensures var s := Started(AtRest(), material);
            && IsRun([AtRest()]) && Next(AtRest(), s) && s.phase == Comparing
            && Next(s, s.(phase := Allocating))
            && Next(s.(phase := Allocating), s.(phase := ClearingStage, call := s.call.(generation := 1)))
  {
    hide CheckMaterial, ParseStage, GenerationName, StageName;
    var s := Started(AtRest(), material);
    assert Initial(AtRest());
    assert Begin(AtRest(), s);
    assert Compare(s, s.(phase := Allocating));
    assert IsNextGeneration(EMPTY_TREE, 1);
    assert Allocate(s.(phase := Allocating), s.(phase := ClearingStage, call := s.call.(generation := 1)));
  }

  lemma ToStage(material: Material) returns (run: seq<State>)
    requires CheckMaterial(material).None?
    ensures Reached(run, Creating(0), material, {StageName(1)})
  {
    EmptyTreeStart(material);
    hide CheckMaterial, ParseStage, ParseGeneration, GenerationName, StageName;
    var s0 := AtRest();
    var s1 := Started(s0, material);
    var s2 := s1.(phase := Allocating);
    var s3 := s1.(phase := ClearingStage, call := s1.call.(generation := 1));
    var s4 := s3.(phase := MakingStage);
    var s5 := s4.(fs := s4.fs.Mkdir(StageName(1)), phase := Creating(0), call := s4.call.(stage := s4.fs.next));
    assert ClearStage(s3, s4) && ClearStage(s4, s5);
    assert s5.fs.root.cur.Keys == {StageName(1)};
    FiveSteps(s0, s1, s2, s3, s4, s5);
    run := [s0, s1, s2, s3, s4, s5];
  }

  lemma FiveSteps(s0: State, s1: State, s2: State, s3: State, s4: State, s5: State)
    requires IsRun([s0]) && Next(s0, s1) && Next(s1, s2) && Next(s2, s3) && Next(s3, s4) && Next(s4, s5)
    ensures IsRun([s0, s1, s2, s3, s4, s5])
  {
    hide Next, Initial;
    assert [s0][0] == s0;
    assert [s0, s1, s2, s3, s4, s5][0] == s0;
  }

  // ---- every file ----

  /** Creating, writing and flushing one file, one step each. */
  lemma FileSteps(s: State, material: Material, i: nat) returns (t: State, u: State, v: State)
    requires Inv(s) && At(s, Creating(i), material, {StageName(1)}) && CheckMaterial(material).None? && i < |material|
    ensures Next(s, t) && At(t, Writing(i), material, {StageName(1)})
    ensures Next(t, u) && At(u, FlushingFile(i), material, {StageName(1)})
    ensures Next(u, v) && At(v, Creating(i + 1), material, {StageName(1)})
  {
    hide CheckMaterial, ParseStage, ParseGeneration, GenerationName, StageName;
    ContentsGrow(material, i);
    t := s.(fs := s.fs.CreateIn(s.call.stage, material[i].name), phase := Writing(i),
        call := s.call.(file := s.fs.next));
    assert StageFile(s, t);
    u := t.(fs := t.fs.Write(t.call.file, material[i].bytes), phase := FlushingFile(i));
    assert StageFile(t, u);
    v := u.(fs := u.fs.FlushFile(u.call.file), phase := Creating(i + 1));
    assert StageFile(u, v);
  }

  lemma StageOne(run: seq<State>, material: Material, i: nat) returns (longer: seq<State>)
    requires Reached(run, Creating(i), material, {StageName(1)}) && CheckMaterial(material).None? && i < |material|
    ensures Reached(longer, Creating(i + 1), material, {StageName(1)})
  {
    LastIsInvariant(run);
    assert run != [] && At(run[|run| - 1], Creating(i), material, {StageName(1)});
    hide *;
    var names := {StageName(1)};
    var t, u, v := FileSteps(run[|run| - 1], material, i);
    longer := Go(run, Creating(i), names, material, t, Writing(i), names);
    longer := Go(longer, Writing(i), names, material, u, FlushingFile(i), names);
    longer := Go(longer, FlushingFile(i), names, material, v, Creating(i + 1), names);
  }

  lemma {:induction false} StageAll(material: Material, i: nat) returns (run: seq<State>)
    requires CheckMaterial(material).None? && i <= |material|
    ensures Reached(run, Creating(i), material, {StageName(1)})
    decreases i
  {
    hide *;
    if i == 0 {
      run := ToStage(material);
    } else {
      var shorter := StageAll(material, i - 1);
      run := StageOne(shorter, material, i - 1);
    }
  }

  lemma StagedStep(s: State, material: Material) returns (t: State)
    requires At(s, Creating(|material|), material, {StageName(1)})
    ensures Next(s, t) && At(t, ReadingBack, material, {StageName(1)})
  {
    hide ParseStage, ParseGeneration, GenerationName, StageName;
    t := s.(phase := ReadingBack);
    assert StageFile(s, t);
  }

  lemma AcceptSteps(s: State, material: Material) returns (t: State, u: State)
    requires Inv(s) && At(s, ReadingBack, material, {StageName(1)}) && CheckMaterial(material).None?
    ensures Next(s, t) && At(t, Validating, material, {StageName(1)})
    ensures Next(t, u) && At(u, FlushingStage, material, {StageName(1)})
  {
    hide CheckMaterial, ParseStage, ParseGeneration, GenerationName, StageName, ReadBack, Contents;
    assert material[..|material|] == material;
    ReadBackIsExact(s.fs, s.call, StageName(1), |material|);
    t := s.(phase := Validating, call := s.call.(copied := material));
    assert Validate(s, t);
    u := t.(phase := FlushingStage, history := t.history.(accepted := t.history.accepted + {Contents(material)}));
    assert Validate(t, u);
  }

  lemma ToAccepted(material: Material) returns (run: seq<State>)
    requires CheckMaterial(material).None?
    ensures Reached(run, FlushingStage, material, {StageName(1)})
  {
    run := StageAll(material, |material|);
    var s := run[|run| - 1];
    hide *;
    var names := {StageName(1)};
    var t := StagedStep(s, material);
    run := Go(run, Creating(|material|), names, material, t, ReadingBack, names);
    assert Inv(t) by { ReachedInvariant(run, ReadingBack, material, names); }
    var u, v := AcceptSteps(t, material);
    run := Go(run, ReadingBack, names, material, u, Validating, names);
    run := Go(run, Validating, names, material, v, FlushingStage, names);
  }

  lemma ReachedInvariant(run: seq<State>, phase: Phase, material: Material, names: set<Name>)
    requires Reached(run, phase, material, names)
    ensures run != [] && At(run[|run| - 1], phase, material, names) && Inv(run[|run| - 1])
  {
    LastIsInvariant(run);
  }

  // ---- to the swap ----

  lemma FlushStageStep(s: State, material: Material) returns (t: State)
    requires Inv(s) && At(s, FlushingStage, material, {StageName(1)})
    ensures Next(s, t) && At(t, Publishing, material, {StageName(1)})
  {
    hide ParseStage, ParseGeneration, GenerationName, StageName, Contents;
    t := s.(fs := s.fs.FlushDir(s.call.stage), phase := Publishing);
    assert Publish(s, t);
  }

  lemma FinaliseSteps(s: State, material: Material) returns (t: State, u: State)
    requires At(s, Publishing, material, {StageName(1)})
    ensures Next(s, t) && At(t, FlushingRoot, material, {GenerationName(1)})
    ensures Next(t, u) && At(u, ClearingLink, material, {GenerationName(1)})
  {
    NameClassesAreDisjoint(1, 1);
    hide ParseStage, ParseGeneration, GenerationName, StageName;
    t := s.(fs := s.fs.Rename(StageName(1), GenerationName(1)), phase := FlushingRoot);
    assert Publish(s, t);
    u := t.(fs := t.fs.FlushRoot(), phase := ClearingLink);
    assert Publish(t, u);
  }

  lemma LinkSteps(s: State, material: Material) returns (t: State, u: State)
    requires At(s, ClearingLink, material, {GenerationName(1)})
    ensures Next(s, t) && At(t, MakingLink, material, {GenerationName(1)})
    ensures Next(t, u) && At(u, Swapping, material, {GenerationName(1), ACTIVE_TMP})
  {
    NameClassesAreDisjoint(1, 1);
    hide ParseStage, ParseGeneration, GenerationName, StageName;
    t := s.(phase := MakingLink);
    assert Publish(s, t);
    u := t.(fs := t.fs.Symlink(ACTIVE_TMP, GenerationName(1)), phase := Swapping, call := t.call.(link := t.fs.next));
    assert Publish(t, u);
  }

  lemma SwapStep(s: State, material: Material) returns (t: State)
    requires At(s, Swapping, material, {GenerationName(1), ACTIVE_TMP})
    ensures Next(s, t) && At(t, FlushingSwap, material, {GenerationName(1), ACTIVE})
  {
    NameClassesAreDisjoint(1, 1);
    assert ACTIVE_TMP[6] == '.' && |ACTIVE| == 6;
    hide ParseStage, ParseGeneration, GenerationName, StageName;
    t := s.(fs := s.fs.Rename(ACTIVE_TMP, ACTIVE), phase := FlushingSwap,
        history := s.history.(live := s.history.live + {1}));
    assert Publish(s, t);
  }

  /** Every accepted set reaches the swap from an empty tree, with nothing live before it. */
  lemma ToSwap(material: Material) returns (run: seq<State>)
    requires CheckMaterial(material).None?
    ensures Reached(run, FlushingSwap, material, {GenerationName(1), ACTIVE})
  {
    hide *;
    var staged, final := {StageName(1)}, {GenerationName(1)};
    run := ToAccepted(material);
    ReachedInvariant(run, FlushingStage, material, staged);
    var s := FlushStageStep(run[|run| - 1], material);
    run := Go(run, FlushingStage, staged, material, s, Publishing, staged);
    var t, u := FinaliseSteps(s, material);
    run := Go(run, Publishing, staged, material, t, FlushingRoot, final);
    run := Go(run, FlushingRoot, final, material, u, ClearingLink, final);
    var v, w := LinkSteps(u, material);
    run := Go(run, ClearingLink, final, material, v, MakingLink, final);
    run := Go(run, MakingLink, final, material, w, Swapping, {GenerationName(1), ACTIVE_TMP});
    var x := SwapStep(w, material);
    run := Go(run, Swapping, {GenerationName(1), ACTIVE_TMP}, material, x, FlushingSwap, {GenerationName(1), ACTIVE});
  }

  // ---- to the end ----

  lemma SettleSteps(s: State, material: Material, names: set<Name>) returns (t: State, u: State, v: State)
    requires At(s, FlushingSwap, material, names)
    ensures Next(s, t) && At(t, Reloading, material, names)
    ensures Next(t, u) && At(u, Listing, material, names)
    ensures Next(u, v) && At(v, Pruning(names), material, names)
  {
    hide ParseStage, ParseGeneration, GenerationName, StageName;
    t := s.(fs := s.fs.FlushRoot(), phase := Reloading);
    assert Publish(s, t);
    u := t.(phase := Listing);
    assert Publish(t, u);
    v := u.(phase := Pruning(names));
    assert Prune(u, v);
  }

  lemma VisitStep(s: State, material: Material, names: set<Name>, todo: set<Name>, name: Name) returns (t: State)
    requires At(s, Pruning(todo), material, names) && name in todo && !Doomed(name, 1)
    ensures Next(s, t) && At(t, Pruning(todo - {name}), material, names)
  {
    hide ParseStage, ParseGeneration, GenerationName, StageName, Doomed;
    t := s.(phase := Pruning(todo - {name}));
    assert Visit(s, t, name, todo) && Prune(s, t);
  }

  lemma EndStep(s: State, material: Material, names: set<Name>) returns (t: State)
    requires At(s, Pruning({}), material, names)
    ensures Next(s, t) && At(t, Finished(Activated(1, true)), material, names)
  {
    hide ParseStage, ParseGeneration, GenerationName, StageName;
    t := s.(phase := Finished(Activated(1, true)));
    assert Prune(s, t);
  }

  lemma ToPruning(material: Material, names: set<Name>) returns (run: seq<State>)
    requires CheckMaterial(material).None? && names == {GenerationName(1), ACTIVE}
    ensures Reached(run, Pruning(names), material, names)
  {
    run := ToSwap(material);
    var s := run[|run| - 1];
    hide *;
    var t, u, v := SettleSteps(s, material, names);
    run := Go(run, FlushingSwap, names, material, t, Reloading, names);
    run := Go(run, Reloading, names, material, u, Listing, names);
    run := Go(run, Listing, names, material, v, Pruning(names), names);
  }

  /** And is installed, under index 1, when nothing fails. */
  lemma EverySetIsInstalled(material: Material) returns (run: seq<State>)
    requires CheckMaterial(material).None?
    ensures Reached(run, Finished(Activated(1, true)), material, {GenerationName(1), ACTIVE})
    ensures Published(run[|run| - 1].fs) == Some((1, Contents(material)))
  {
    ActiveIsNotDoomed();
    NameClassesAreDisjoint(1, 1);
    var g, names := GenerationName(1), {GenerationName(1), ACTIVE};
    assert names - {g} == {ACTIVE};
    run := ToPruning(material, names);
    var s := run[|run| - 1];
    hide *;
    var t := VisitStep(s, material, names, names, g);
    run := Go(run, Pruning(names), names, material, t, Pruning({ACTIVE}), names);
    assert {ACTIVE} - {ACTIVE} == {};
    var u := VisitStep(t, material, names, {ACTIVE}, ACTIVE);
    run := Go(run, Pruning({ACTIVE}), names, material, u, Pruning({}), names);
    var v := EndStep(u, material, names);
    run := Go(run, Pruning({}), names, material, v, Finished(Activated(1, true)), names);
    InstalledAtLast(run, material, names);
  }

  lemma InstalledAtLast(run: seq<State>, material: Material, names: set<Name>)
    requires Reached(run, Finished(Activated(1, true)), material, names)
    ensures Published(run[|run| - 1].fs) == Some((1, Contents(material)))
  {
    ChangedMeansInstalled(run, |run| - 1, 1);
  }

  lemma ActiveIsNotDoomed()
    ensures !Doomed(ACTIVE, 1) && !Doomed(GenerationName(1), 1)
  {
    ParsesExactlyGenerations(GenerationName(1), 1);
    ActiveParsesAsNothing();
    hide ParseGeneration;
    if ParseStage(GenerationName(1)).Some? {
      var n := ParseStage(GenerationName(1)).value;
      ParsesExactlyStages(GenerationName(1), n);
      NameClassesAreDisjoint(1, n);
    }
  }

  lemma ActiveParsesAsNothing()
    ensures ParseGeneration(ACTIVE) == None && ParseStage(ACTIVE) == None
  {
    hide ParseGeneration, ParseStage;
    if ParseGeneration(ACTIVE).Some? {
      ParsesExactlyGenerations(ACTIVE, ParseGeneration(ACTIVE).value);
      NameClassesAreDisjoint(ParseGeneration(ACTIVE).value, 0);
    }
    if ParseStage(ACTIVE).Some? {
      ParsesExactlyStages(ACTIVE, ParseStage(ACTIVE).value);
      NameClassesAreDisjoint(ParseStage(ACTIVE).value, 0);
    }
  }

  // ---- an unchanged answer, lost ----

  /**
   * When only the flush of the swap fails, repeating the call answers `changed: false` with the
   * files live, and a crash then leaves nothing published at all.
   */
  lemma UnchangedAnswerCanBeLost(material: Material) returns (run: seq<State>, found: Fs)
    requires CheckMaterial(material).None?
    ensures IsRun(run) && run[0].fs == EMPTY_TREE && run[|run| - 1].phase == Finished(Activated(1, false))
    ensures Published(run[|run| - 1].fs) == Some((1, Contents(material)))
    ensures Crash(run[|run| - 1].fs, found) && Published(found) == None
  {
    var swapped := ToSwap(material);
    ReachedInvariant(swapped, FlushingSwap, material, {GenerationName(1), ACTIVE});
    var s := swapped[|swapped| - 1];
    AlreadyNew(s);
    assert IsRun(swapped) && swapped[0].fs == EMPTY_TREE && s.phase.FlushingSwap?;
    assert s.call.material == material && s.call.generation == 1 && EMPTY_TREE.root.Lookup(ACTIVE) == None;
    hide *;
    var more, left := UnflushedSwapAnswersUnchanged(swapped, |swapped| - 1);
    run, found := swapped + more, left;
    assert run[|run| - 1] == more[|more| - 1];
    assert run[0] == swapped[0];
    NothingPublished(found);
  }

  lemma NothingPublished(found: Fs)
    requires found.root.Lookup(ACTIVE) == None
    ensures Published(found) == None
  {
  }

  /** A set of one empty file is enough. */
  lemma OneFileLosesItsAnswer() returns (run: seq<State>, found: Fs)
    ensures IsRun(run) && run[0].fs == EMPTY_TREE && run[|run| - 1].phase == Finished(Activated(1, false))
    ensures Crash(run[|run| - 1].fs, found) && Published(found) != Published(run[|run| - 1].fs)
  {
    var material := [GenerationFile("a", [])];
    assert CheckMaterial(material).None?;
    run, found := UnchangedAnswerCanBeLost(material);
  }
}
