/**
 * What an activation leaves alone until it publishes, until it swaps, and throughout
 * (src/generation.rs:203-236): the entries of others, the generations already there,
 * and what `active` resolves to.
 */
module GenerationFrame {
  import opened Options
  import opened GenerationNames
  import opened FileSystem
  import opened GenerationMachine
  import opened GenerationInvariant
  import opened GenerationSteps

  predicate BeforePublish(phase: Phase) {
    match phase
    case Comparing => true case Allocating => true case ClearingStage => true case MakingStage => true
    case Creating(_) => true case Writing(_) => true case FlushingFile(_) => true case ReadingBack => true
    case Validating => true case Discarding => true case FlushingStage => true case Publishing => true
    case Finished(outcome) => outcome.Failed? && (outcome.failure.Rejected? || outcome.failure.Refused?)
    case _ => false
  }

  predicate BeforeSwap(phase: Phase) {
    BeforePublish(phase) || phase.FlushingRoot? || phase.ClearingLink? || phase.MakingLink? || phase.Swapping?
  }

  predicate Settling(phase: Phase) {
    phase.FlushingSwap? || phase.Reloading? || phase.Listing?
  }

  predicate Finalised(phase: Phase) {
    phase.FlushingRoot? || phase.ClearingLink? || phase.MakingLink? || phase.Swapping? || Settling(phase)
  }

  ghost predicate SameGenerations(fs: Fs, fs': Fs) {
    forall name :: ParseGeneration(name).Some? ==> fs'.root.Lookup(name) == fs.root.Lookup(name)
  }

  ghost predicate OnlyNewGeneration(fs: Fs, fs': Fs, n: nat) {
    forall name :: ParseGeneration(name).Some? && name != GenerationName(n) ==>
        fs'.root.Lookup(name) == fs.root.Lookup(name)
  }

  ghost predicate ForeignKept(fs: Fs, fs': Fs) {
    forall name :: !EngineName(name) ==> fs'.root.Lookup(name) == fs.root.Lookup(name)
  }

  /** Whatever `active` is or may become bound to publishes what it did at the start, or the new set. */
  ghost predicate OldOrNew(s: State) {
    forall v :: s.fs.root.MayBind(ACTIVE, v) ==>
      || (s.call.start.root.MayBind(ACTIVE, v) && PublishedBy(s.fs, v) == PublishedBy(s.call.start, v))
      || PublishedBy(s.fs, v) == Some((s.call.generation, Contents(s.call.material)))
  }

  ghost predicate ReadersOldOrNew(s: State) {
    Published(s.fs) == Published(s.call.start)
        || Published(s.fs) == Some((s.call.generation, Contents(s.call.material)))
  }

  ghost predicate Frame(s: State) {
    s.phase.Idle? ||
    var start := s.call.start;
    && ForeignKept(start, s.fs)
    && OldOrNew(s) && ReadersOldOrNew(s)
    && (BeforeSwap(s.phase) ==> s.fs.root.Lookup(ACTIVE) == start.root.Lookup(ACTIVE))
    && (BeforePublish(s.phase) ==> SameGenerations(start, s.fs))
    && (Finalised(s.phase) ==> start.root.Lookup(GenerationName(s.call.generation)) == None)
    && (s.phase.FlushingSwap? ==> (ACTIVE, start.root.Lookup(ACTIVE)) in s.fs.root.stale)
    && (BeforeSwap(s.phase) || Settling(s.phase) ==> OnlyNewGeneration(start, s.fs, s.call.generation))
  }

  /** A good link publishes the same files after a quiet step. */
  lemma PublishedByKept(fs: Fs, fs': Fs, h: History, v: Option<Id>)
    requires Safe(fs, h) && fs.root.MayBind(ACTIVE, v)
    requires LinksKept(fs, fs') && SealedKept(fs, fs', h.accepted)
    ensures PublishedBy(fs', v) == PublishedBy(fs, v)
  {
    hide GenerationName, StageName, ParseGeneration, ParseStage;
    if v.Some? {
      assert GoodLink(fs, h, v.value);
      var k := LinkIndex(fs, v.value).value;
      ParsesExactlyGenerations(fs.nodes[v.value].target, k);
    }
  }

  lemma GenerationsAreNotScratch()
    ensures forall name :: Scratch(name) ==> ParseGeneration(name).None? && name != ACTIVE && EngineName(name)
  {
    hide GenerationName, StageName, ParseGeneration, ParseStage;
    forall name | Scratch(name) ensures ParseGeneration(name).None? && name != ACTIVE && EngineName(name) {
      ScratchIsNoGeneration(name);
    }
  }

  lemma ClearStageQuiet(s: State, t: State)
    requires Inv(s) && ClearStage(s, t)
    ensures Quiet(s.fs, t.fs, s.history.accepted)
  {
    hide GenerationName, StageName, ParseGeneration, ParseStage;
    var n := s.call.generation;
    var name := StageName(n);
    ParsesExactlyStages(name, n);
    if s.phase.ClearingStage? {
      if name in s.fs.root.cur { RemoveStageKeeps(s.fs, s.history, n, t.fs); }
    } else {
      NewScratch(s.fs, s.history, name, Dir(EMPTY));
    }
  }

  lemma StageFileQuiet(s: State, t: State)
    requires Inv(s) && StageFile(s, t)
    ensures Quiet(s.fs, t.fs, s.history.accepted)
  {
    hide GenerationName, StageName, ParseGeneration, ParseStage;
    if s.phase.Creating? {
      if s.phase.at < |s.call.material| { CreateKeepsSafe(s, t); }
    } else {
      OpenFileIsMutable(s.fs, s.history, s.call, s.phase.at);
      StagingFileKeeps(s, t);
      NodeChange(s.fs, t.fs, s.history, s.call.file);
    }
  }

  lemma ValidateQuiet(s: State, t: State)
    requires Inv(s) && Validate(s, t)
    ensures Quiet(s.fs, t.fs, s.history.accepted)
  {
    hide GenerationName, StageName, ParseGeneration, ParseStage;
    if s.phase.Discarding? && t.phase.Discarding? {
      RemoveStageKeeps(s.fs, s.history, s.call.generation, t.fs);
    }
  }

  lemma FlushesAreQuiet(s: State, t: State)
    requires Inv(s) && Publish(s, t) && !s.phase.Publishing? && !s.phase.Swapping?
    ensures Quiet(s.fs, t.fs, s.history.accepted)
  {
    hide GenerationName, StageName, ParseGeneration, ParseStage;
    if s.phase.FlushingStage? {
      StageIsMutable(s.fs, s.history, s.call);
      FlushStageKeeps(s, t);
      NodeChange(s.fs, t.fs, s.history, s.call.stage);
    } else if s.phase.FlushingRoot? || s.phase.FlushingSwap? {
      RootFlush(s.fs, s.history);
    } else if s.phase.ClearingLink? || s.phase.MakingLink? {
      LinkStepQuiet(s, t);
    }
  }

  lemma OldOrNewKept(s: State, t: State)
    requires Safe(s.fs, s.history) && OldOrNew(s)
    requires SealedKept(s.fs, t.fs, s.history.accepted) && LinksKept(s.fs, t.fs)
    requires t.call.start == s.call.start && t.call.material == s.call.material
    requires t.call.generation == s.call.generation
    requires forall v :: t.fs.root.MayBind(ACTIVE, v) && !s.fs.root.MayBind(ACTIVE, v) ==>
               PublishedBy(t.fs, v) == Some((t.call.generation, Contents(t.call.material)))
    ensures OldOrNew(t)
  {
    hide GenerationName, StageName, ParseGeneration, ParseStage;
    forall v | t.fs.root.MayBind(ACTIVE, v)
      ensures (t.call.start.root.MayBind(ACTIVE, v) && PublishedBy(t.fs, v) == PublishedBy(t.call.start, v))
              || PublishedBy(t.fs, v) == Some((t.call.generation, Contents(t.call.material)))
    {
      if s.fs.root.MayBind(ACTIVE, v) { PublishedByKept(s.fs, t.fs, s.history, v); }
    }
  }

  lemma QuietKeepsFrame(s: State, t: State)
    requires Safe(s.fs, s.history) && Frame(s) && !s.phase.Idle? && Quiet(s.fs, t.fs, s.history.accepted)
    requires t.call.start == s.call.start && t.call.material == s.call.material
        && t.call.generation == s.call.generation
    requires (BeforeSwap(t.phase) ==> BeforeSwap(s.phase)) && (BeforePublish(t.phase) ==> BeforePublish(s.phase))
    requires (Settling(t.phase) ==> Settling(s.phase)) && (Finalised(t.phase) ==> Finalised(s.phase))
        && !t.phase.FlushingSwap?
    ensures Frame(t)
  {
    hide GenerationName, StageName, ParseGeneration, ParseStage;
    GenerationsAreNotScratch();
    OldOrNewKept(s, t);
    assert t.fs.root.Lookup(ACTIVE) == s.fs.root.Lookup(ACTIVE);
    PublishedByKept(s.fs, t.fs, s.history, s.fs.root.Lookup(ACTIVE));
  }

  lemma PublishKeepsFrame(s: State, t: State)
    requires Inv(s) && Frame(s) && s.phase.Publishing? && Publish(s, t)
    ensures Frame(t)
  {
    hide GenerationName, StageName, ParseGeneration, ParseStage;
    var from, to := StageName(s.call.generation), GenerationName(s.call.generation);
    PublishDelta(s);
    ParsesExactlyGenerations(to, s.call.generation);
    ParsesExactlyStages(from, s.call.generation);
    NameClassesAreDisjoint(s.call.generation, s.call.generation);
    ScratchIsNoGeneration(from);
    OldOrNewKept(s, t);
    PublishedByKept(s.fs, t.fs, s.history, s.fs.root.Lookup(ACTIVE));
    assert BeforePublish(s.phase) && t.phase.FlushingRoot?;
  }

  lemma SwapKeepsAllSealed(fs: Fs, h: History, link: Id)
    requires Safe(fs, h) && fs.root.Lookup(ACTIVE_TMP) == Some(link) && LinkIndex(fs, link).Some?
    ensures SealedKept(fs, fs.Rename(ACTIVE_TMP, ACTIVE), h.accepted)
  {
    hide GenerationName, StageName, ParseGeneration, ParseStage;
    forall k | Sealed(fs, k, h.accepted)
      ensures var fs' := fs.Rename(ACTIVE_TMP, ACTIVE);
              Sealed(fs', k, h.accepted) && fs'.root.cur[GenerationName(k)] == fs.root.cur[GenerationName(k)]
              && fs'.Files(fs.root.cur[GenerationName(k)]) == fs.Files(fs.root.cur[GenerationName(k)])
    {
      SwapKeepsSealed(fs, h, link, k);
    }
  }

  lemma SwapPublishes(s: State)
    requires Inv(s) && s.phase.Swapping?
    ensures PublishedBy(s.fs.Rename(ACTIVE_TMP, ACTIVE), Some(s.call.link))
        == Some((s.call.generation, Contents(s.call.material)))
  {
    hide GenerationName, StageName, ParseGeneration, ParseStage;
    SwapKeepsSealed(s.fs, s.history, s.call.link, s.call.generation);
    ParsesExactlyGenerations(s.fs.nodes[s.call.link].target, s.call.generation);
  }

  lemma SwapKeepsGenerations(s: State, t: State)
    requires Inv(s) && s.phase.Swapping? && Publish(s, t)
    ensures ForeignKept(s.fs, t.fs) && SameGenerations(s.fs, t.fs)
    ensures t.phase.FlushingSwap? && (ACTIVE, s.fs.root.Lookup(ACTIVE)) in t.fs.root.stale
    ensures Published(t.fs) == Some((t.call.generation, Contents(t.call.material)))
    ensures t.call == s.call && LinksKept(s.fs, t.fs)
    ensures forall v :: t.fs.root.MayBind(ACTIVE, v) && !s.fs.root.MayBind(ACTIVE, v) ==>
              PublishedBy(t.fs, v) == Some((t.call.generation, Contents(t.call.material)))
  {
    hide GenerationName, StageName, ParseGeneration, ParseStage;
    SwapBindings(s.fs, s.call.link);
    SwapPublishes(s);
    forall name | ParseGeneration(name).Some? ensures name != ACTIVE && name != ACTIVE_TMP {
      ParsesExactlyGenerations(name, ParseGeneration(name).value);
      NameClassesAreDisjoint(ParseGeneration(name).value, 0);
    }
  }

  lemma FrameAtSwap(s: State, t: State)
    requires Frame(s) && s.phase.Swapping? && t.phase.FlushingSwap? && t.call == s.call
    requires ForeignKept(s.fs, t.fs) && SameGenerations(s.fs, t.fs) && OldOrNew(t)
    requires (ACTIVE, s.fs.root.Lookup(ACTIVE)) in t.fs.root.stale
    requires Published(t.fs) == Some((t.call.generation, Contents(t.call.material)))
    ensures Frame(t)
  {
    hide EngineName, GenerationName, StageName, ParseGeneration, ParseStage, OldOrNew;
    assert BeforeSwap(s.phase) && Finalised(s.phase);
  }

  lemma SwapKeepsFrame(s: State, t: State)
    requires Inv(s) && Frame(s) && s.phase.Swapping? && Publish(s, t)
    ensures Frame(t)
  {
    assert s.fs.root.Lookup(ACTIVE_TMP) == Some(s.call.link) && LinkIndex(s.fs, s.call.link).Some?;
    assert t.fs == s.fs.Rename(ACTIVE_TMP, ACTIVE) && OldOrNew(s);
    hide *;
    SwapKeepsGenerations(s, t);
    InvIsSafe(s);
    SwapKeepsAllSealed(s.fs, s.history, s.call.link);
    OldOrNewKept(s, t);
    FrameAtSwap(s, t);
  }

  /** Once the swap is settled, `active` publishes exactly the call's file set in every outcome. */
  lemma SwitchedPublishes(s: State)
    requires Switched(s, true)
    ensures forall v :: s.fs.root.MayBind(ACTIVE, v) ==>
              PublishedBy(s.fs, v) == Some((s.call.generation, Contents(s.call.material)))
  {
    hide GenerationName, StageName, ParseGeneration, ParseStage;
    ParsesExactlyGenerations(s.fs.nodes[s.call.link].target, s.call.generation);
  }

  lemma PruneDelta(s: State, t: State)
    requires Inv(s) && Prune(s, t)
    ensures Switched(t, true) && t.call == s.call
    ensures t.phase.Pruning? || t.phase == Finished(Activated(t.call.generation, true))
    ensures ForeignKept(s.fs, t.fs)
  {
    hide GenerationName, StageName, ParseGeneration, ParseStage;
    if s.phase.Pruning? && s.phase.todo != {} {
      var name :| name in s.phase.todo && Visit(s, t, name, s.phase.todo);
      if Doomed(name, s.call.generation) && name in s.fs.root.cur {
        RemoveOldKeeps(s, name, t.fs);
        assert EngineName(name);
      }
    }
  }

  /** Past the swap, the frame is what others own and the new set. */
  lemma FrameAfterSwap(s: State, t: State)
    requires !s.phase.Idle? && Frame(s) && t.call == s.call && ForeignKept(s.fs, t.fs) && Switched(t, true)
    requires t.phase.Pruning? || t.phase == Finished(Activated(t.call.generation, true))
    ensures Frame(t)
  {
    hide Switched, ForeignKept, OldOrNew, ReadersOldOrNew, SameGenerations, OnlyNewGeneration, GenerationName;
    SwitchedIsNew(t);
    ForeignKeptOnward(s.call.start, s.fs, t.fs);
  }

  lemma SwitchedIsNew(s: State)
    requires Switched(s, true)
    ensures OldOrNew(s) && ReadersOldOrNew(s)
  {
    hide Switched, PublishedBy, Contents;
    SwitchedPublishes(s);
    assert s.fs.root.MayBind(ACTIVE, s.fs.root.Lookup(ACTIVE));
  }

  lemma ForeignKeptOnward(a: Fs, b: Fs, c: Fs)
    requires ForeignKept(a, b) && ForeignKept(b, c)
    ensures ForeignKept(a, c)
  {
    hide EngineName;
  }

  lemma PruneKeepsFrame(s: State, t: State)
    requires Inv(s) && Frame(s) && Prune(s, t)
    ensures Frame(t)
  {
    assert !s.phase.Idle?;
    hide *;
    PruneDelta(s, t);
    FrameAfterSwap(s, t);
  }

  lemma FlushPhases(s: State, t: State)
    requires Publish(s, t) && !s.phase.Publishing? && !s.phase.Swapping?
    ensures !s.phase.Idle? && t.call.start == s.call.start
    ensures t.call.material == s.call.material && t.call.generation == s.call.generation
    ensures (BeforeSwap(t.phase) ==> BeforeSwap(s.phase)) && (BeforePublish(t.phase) ==> BeforePublish(s.phase))
    ensures (Settling(t.phase) ==> Settling(s.phase)) && (Finalised(t.phase) ==> Finalised(s.phase))
    ensures !t.phase.FlushingSwap?
  {
    hide GenerationName, StageName, ParseGeneration, ParseStage;
  }

  lemma InvIsSafe(s: State)
    requires Inv(s)
    ensures Safe(s.fs, s.history)
  {
  }

  lemma FlushesKeepFrame(s: State, t: State)
    requires Inv(s) && Frame(s) && Publish(s, t) && !s.phase.Publishing? && !s.phase.Swapping?
    ensures Frame(t)
  {
    hide *;
    FlushesAreQuiet(s, t);
    FlushPhases(s, t);
    InvIsSafe(s);
    QuietKeepsFrame(s, t);
  }

  lemma PublishingKeepsFrame(s: State, t: State)
    requires Inv(s) && Frame(s) && Publish(s, t)
    ensures Frame(t)
  {
    hide GenerationName, StageName, ParseGeneration, ParseStage;
    hide *;
    if s.phase.Publishing? { PublishKeepsFrame(s, t); }
    else if s.phase.Swapping? { SwapKeepsFrame(s, t); }
    else { FlushesKeepFrame(s, t); }
  }

  lemma StagingKeepsFrame(s: State, t: State)
    requires Inv(s) && Frame(s) && (ClearStage(s, t) || StageFile(s, t) || Validate(s, t))
    ensures Frame(t)
  {
    hide GenerationName, StageName, ParseGeneration, ParseStage;
    if ClearStage(s, t) { ClearStageQuiet(s, t); }
    else if StageFile(s, t) { StageFileQuiet(s, t); }
    else { ValidateQuiet(s, t); }
    QuietKeepsFrame(s, t);
  }

  lemma EndsKeepFrame(s: State, t: State)
    requires Inv(s) && Frame(s) && (Begin(s, t) || Stop(s, t) || Fail(s, t))
    ensures Frame(t)
  {
    hide GenerationName, StageName, ParseGeneration, ParseStage, PublishedBy;
  }

  lemma ReadsKeepFrame(s: State, t: State)
    requires Inv(s) && Frame(s) && (Compare(s, t) || Allocate(s, t))
    ensures Frame(t)
  {
    hide GenerationName, StageName, ParseGeneration, ParseStage, PublishedBy;
  }

  lemma StepKeepsFrame(s: State, t: State)
    requires Inv(s) && Frame(s) && Next(s, t)
    ensures Frame(t)
  {
    hide GenerationName, StageName, ParseGeneration, ParseStage;
    assert (Begin(s, t) || Stop(s, t) || Fail(s, t) || Compare(s, t) || Allocate(s, t))
           || (ClearStage(s, t) || StageFile(s, t) || Validate(s, t)) || Publish(s, t) || Prune(s, t);
    hide *;
    if Prune(s, t) { PruneKeepsFrame(s, t); }
    else if Publish(s, t) { PublishingKeepsFrame(s, t); }
    else if ClearStage(s, t) || StageFile(s, t) || Validate(s, t) { StagingKeepsFrame(s, t); }
    else if Compare(s, t) || Allocate(s, t) { ReadsKeepFrame(s, t); }
    else { EndsKeepFrame(s, t); }
  }
}
