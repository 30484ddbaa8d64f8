/**
 * What the engine leaves never stands in the way of another activation: a tree that starts
 * clear of blocking entries stays clear through every failure and crash, so the recovery the
 * documentation promises (src/generation.rs:228-236) is there while the numbering lasts.
 */
module GenerationRecovery {
  import opened Options
  import opened Decimal
  import opened GenerationNames
  import opened FileSystem
  import opened GenerationMachine
  import opened GenerationInvariant
  import opened GenerationTheorems
  import opened GenerationMoves

  /** An inode that does not block at `name`: no plain file at a leftover's name, no directory at the scratch name. */
  predicate Fits(name: Name, node: Inode) {
    (Leftover(name) ==> !node.File?) && (name == ACTIVE_TMP ==> !node.Dir?)
  }

  /** Nothing blocks, whatever a crash makes of the root. */
  ghost predicate Clear(fs: Fs) {
    forall name, id :: fs.root.MayBind(name, Some(id)) && id in fs.nodes ==> Fits(name, fs.nodes[id])
  }

  ghost predicate KindsKept(fs: Fs, fs': Fs) {
    forall id :: id in fs.nodes ==> id in fs'.nodes && SameKind(fs.nodes[id], fs'.nodes[id])
  }

  /** Every binding, current or superseded, was one before, or fits where it is. */
  ghost predicate BindingsFit(fs: Fs, fs': Fs) {
    forall name, id :: fs'.root.MayBind(name, Some(id)) ==>
      fs.root.MayBind(name, Some(id)) || (id in fs'.nodes && Fits(name, fs'.nodes[id]))
  }

  lemma StaysClear(fs: Fs, fs': Fs)
    requires fs.WellFormed() && Clear(fs) && KindsKept(fs, fs') && BindingsFit(fs, fs')
    ensures Clear(fs')
  {
    hide Leftover;
    forall name, id | fs'.root.MayBind(name, Some(id)) && id in fs'.nodes ensures Fits(name, fs'.nodes[id]) {
      if fs.root.MayBind(name, Some(id)) { assert fs.root.Names(id); }
    }
  }

  // ---- the changes a step makes ----

  lemma SameRoot(fs: Fs, fs': Fs)
    requires fs'.root == fs.root && KindsKept(fs, fs')
    ensures BindingsFit(fs, fs')
  {
  }

  lemma OneBinding(fs: Fs, fs': Fs, name: Name, v: Option<Id>)
    requires fs'.root == fs.root.Bind(name, v)
    requires v.Some? ==> v.value in fs'.nodes && Fits(name, fs'.nodes[v.value])
    ensures BindingsFit(fs, fs')
  {
    hide Fits;
  }

  lemma Renaming(fs: Fs, from: Name, to: Name)
    requires from in fs.root.cur && fs.root.cur[from] in fs.nodes && Fits(to, fs.nodes[fs.root.cur[from]])
    ensures KindsKept(fs, fs.Rename(from, to)) && BindingsFit(fs, fs.Rename(from, to))
  {
    hide Fits;
  }

  lemma Removal(fs: Fs, name: Name, fs': Fs)
    requires RemoveStep(fs, name, fs')
    ensures KindsKept(fs, fs') && BindingsFit(fs, fs')
  {
    hide Fits;
    if fs'.root == fs.root {
      SameRoot(fs, fs');
    } else {
      OneBinding(fs, fs', name, None);
    }
  }

  lemma Flushing(fs: Fs)
    ensures KindsKept(fs, fs.FlushRoot()) && BindingsFit(fs, fs.FlushRoot())
  {
    hide Fits;
  }

  lemma Crashing(fs: Fs, fs': Fs)
    requires Crash(fs, fs')
    ensures KindsKept(fs, fs') && BindingsFit(fs, fs')
  {
    hide Fits;
    forall id | id in fs.nodes ensures SameKind(fs.nodes[id], fs'.nodes[id]) {
      assert InodeSurvives(fs.nodes[id], fs'.nodes[id]);
    }
  }

  lemma EngineBindingsFit(n: nat)
    ensures forall node: Inode :: node.Dir? ==> Fits(StageName(n), node) && Fits(GenerationName(n), node)
    ensures forall node: Inode :: node.Link? ==> Fits(ACTIVE_TMP, node)
    ensures forall node: Inode :: Fits(ACTIVE, node)
  {
    hide GenerationName, StageName, Leftover;
    ScratchIsApart(n);
    if Leftover(ACTIVE) { LeftoversAreApart(ACTIVE); }
  }

  // ---- every step ----

  lemma ClearStageFits(s: State, t: State)
    requires Inv(s) && ClearStage(s, t)
    ensures KindsKept(s.fs, t.fs) && BindingsFit(s.fs, t.fs)
  {
    hide Inv, Fits, Leftover, GenerationName, StageName, ParseGeneration, ParseStage;
    InvIsWellFormed(s);
    UnusedId(s.fs);
    var name := StageName(s.call.generation);
    EngineBindingsFit(s.call.generation);
    if s.phase.ClearingStage? {
      if name in s.fs.root.cur { Removal(s.fs, name, t.fs); } else { SameRoot(s.fs, t.fs); }
    } else {
      OneBinding(s.fs, t.fs, name, Some(s.fs.next));
    }
  }

  lemma OpenFileIsAFile(s: State)
    requires Inv(s) && (s.phase.Writing? || s.phase.FlushingFile?)
    ensures s.call.file in s.fs.nodes && s.fs.nodes[s.call.file].File?
  {
    hide GenerationName, StageName, ParseGeneration, ParseStage, Safe, CheckMaterial, Above, Unclaimed;
  }

  lemma StageFileFits(s: State, t: State)
    requires Inv(s) && StageFile(s, t)
    ensures KindsKept(s.fs, t.fs) && BindingsFit(s.fs, t.fs)
  {
    hide Inv, BindingsFit, Fs.WellFormed;
    InvIsWellFormed(s);
    UnusedId(s.fs);
    if s.phase.Writing? || s.phase.FlushingFile? { OpenFileIsAFile(s); }
    SameRoot(s.fs, t.fs);
  }

  lemma ValidateFits(s: State, t: State)
    requires Validate(s, t)
    ensures KindsKept(s.fs, t.fs) && BindingsFit(s.fs, t.fs)
  {
    hide BindingsFit, RemoveStep, StageName, ReadBack, Contents;
    if t.fs == s.fs {
      SameRoot(s.fs, t.fs);
    } else {
      Removal(s.fs, StageName(s.call.generation), t.fs);
    }
  }

  lemma StagedIsADirectory(s: State)
    requires Inv(s) && s.phase.Publishing?
    ensures s.fs.root.Lookup(StageName(s.call.generation)) == Some(s.call.stage) && s.fs.IsDir(s.call.stage)
  {
    hide GenerationName, StageName, ParseGeneration, ParseStage, Safe, CheckMaterial, Above, Unclaimed, Contents;
  }

  lemma LinkIsInPlace(s: State)
    requires Inv(s) && s.phase.Swapping?
    ensures s.fs.root.Lookup(ACTIVE_TMP) == Some(s.call.link) && s.call.link in s.fs.nodes
  {
    hide GenerationName, StageName, ParseGeneration, ParseStage, Safe, CheckMaterial, Above, Unclaimed,
         GenerationSealed;
  }

  lemma PublishFits(s: State, t: State)
    requires Inv(s) && Publish(s, t)
    ensures KindsKept(s.fs, t.fs) && BindingsFit(s.fs, t.fs)
  {
    hide Inv, Fits, BindingsFit, GenerationName, StageName, Fs.WellFormed;
    EngineBindingsFit(s.call.generation);
    match s.phase
    case Publishing =>
      StagedIsADirectory(s);
      Renaming(s.fs, StageName(s.call.generation), GenerationName(s.call.generation));
    case Swapping =>
      LinkIsInPlace(s);
      Renaming(s.fs, ACTIVE_TMP, ACTIVE);
    case MakingLink =>
      InvIsWellFormed(s);
      UnusedId(s.fs);
      OneBinding(s.fs, t.fs, ACTIVE_TMP, Some(s.fs.next));
    case ClearingLink =>
      if ACTIVE_TMP in s.fs.root.cur {
        OneBinding(s.fs, t.fs, ACTIVE_TMP, None);
      } else {
        SameRoot(s.fs, t.fs);
      }
    case FlushingRoot => Flushing(s.fs);
    case FlushingSwap => Flushing(s.fs);
    case _ => SameRoot(s.fs, t.fs);
  }

  lemma PruneFits(s: State, t: State)
    requires Prune(s, t)
    ensures KindsKept(s.fs, t.fs) && BindingsFit(s.fs, t.fs)
  {
    hide BindingsFit, RemoveStep, Doomed;
    if t.fs == s.fs {
      SameRoot(s.fs, t.fs);
    } else {
      var name :| name in s.phase.todo && Visit(s, t, name, s.phase.todo);
      Removal(s.fs, name, t.fs);
    }
  }

  lemma OtherStepsFit(s: State, t: State)
    requires Begin(s, t) || Compare(s, t) || Allocate(s, t) || Fail(s, t)
    ensures KindsKept(s.fs, t.fs) && BindingsFit(s.fs, t.fs)
  {
    hide BindingsFit, CheckMaterial, CurrentGeneration, ActiveMatches, IsNextGeneration;
    SameRoot(s.fs, t.fs);
  }

  /** Whatever a step does, what it leaves does not block if what it found did not. */
  lemma StepKeepsClear(s: State, t: State)
    requires Inv(s) && Next(s, t) && Clear(s.fs)
    ensures Clear(t.fs)
  {
    hide Inv, Clear, KindsKept, BindingsFit, Begin, Compare, Allocate, Fail, ClearStage, StageFile, Validate, Publish,
         Prune, Crash, Fs.WellFormed;
    InvIsWellFormed(s);
    if ClearStage(s, t) {
      ClearStageFits(s, t);
    } else if StageFile(s, t) {
      StageFileFits(s, t);
    } else if Validate(s, t) {
      ValidateFits(s, t);
    } else if Publish(s, t) {
      PublishFits(s, t);
    } else if Prune(s, t) {
      PruneFits(s, t);
    } else if Stop(s, t) {
      Crashing(s.fs, t.fs);
    } else {
      OtherStepsFit(s, t);
    }
    StaysClear(s.fs, t.fs);
  }

  lemma {:induction false} RunsKeepClear(run: seq<State>, i: nat)
    requires IsRun(run) && i < |run| && Clear(run[0].fs)
    ensures Clear(run[i].fs)
    decreases i
  {
    hide *;
    if i > 0 {
      RunsKeepClear(run, i - 1);
      RunsKeepInvariants(run, i - 1);
      RunStep(run, i - 1);
      StepKeepsClear(run[i - 1], run[i]);
    }
  }

  lemma ClearIsUnblocked(fs: Fs)
    requires fs.WellFormed() && Clear(fs)
    ensures Blocked(fs) <==> GenerationName(U64_MAX) in fs.root.cur
  {
    hide GenerationName, Leftover;
    forall name | name in fs.root.cur ensures fs.root.cur[name] in fs.nodes && Fits(name, fs.nodes[fs.root.cur[name]]) {
      EntryIsAnInode(fs, name);
      assert fs.root.MayBind(name, Some(fs.root.cur[name]));
    }
  }

  /**
   * Nothing any number of failed or interrupted activations leave behind, in any crash outcome, blocks the
   * next one: only the last index there is can.
   */
  lemma RecoveryIsNeverBlocked(run: seq<State>, i: nat)
    requires IsRun(run) && i < |run| && Clear(run[0].fs)
    ensures Blocked(run[i].fs) <==> GenerationName(U64_MAX) in run[i].fs.root.cur
  {
    hide *;
    RunsKeepClear(run, i);
    RunsKeepInvariants(run, i);
    InvIsWellFormed(run[i]);
    ClearIsUnblocked(run[i].fs);
  }
}
