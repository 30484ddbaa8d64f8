/**
 * How durable an answer is (src/generation.rs:248-256, 295-301). What a crash may restore in
 * place of the current `active` is decided by the history of calls alone, and always publishes
 * an older generation or nothing.
 */
module GenerationDurability {
  import opened Options
  import opened Decimal
  import opened GenerationNames
  import opened FileSystem
  import opened GenerationMachine
  import opened GenerationInvariant
  import opened GenerationSteps
  import opened GenerationFrame
  import opened GenerationTheorems

  // ---- what one step does to the entry `active` ----

  predicate Swaps(s: State, t: State) { s.phase.Swapping? && t.phase.FlushingSwap? }

  predicate FlushesRoot(s: State, t: State) {
    (s.phase.FlushingRoot? && t.phase.ClearingLink?) || (s.phase.FlushingSwap? && t.phase.Reloading?)
  }

  ghost predicate ActiveKept(fs: Fs, fs': Fs) {
    && fs'.root.Lookup(ACTIVE) == fs.root.Lookup(ACTIVE)
    && (forall v :: (ACTIVE, v) in fs'.root.stale <==> (ACTIVE, v) in fs.root.stale)
    && LinksKept(fs, fs')
  }

  /** `active` has a binding a crash may restore in place of the current one. */
  ghost predicate Superseded(fs: Fs, v: Option<Id>) { (ACTIVE, v) in fs.root.stale && v != fs.root.Lookup(ACTIVE) }

  lemma RemoveKeepsActive(fs: Fs, name: Name, fs': Fs)
    requires fs.WellFormed() && RemoveStep(fs, name, fs') && name != ACTIVE
    ensures ActiveKept(fs, fs')
  {
    hide GenerationName, StageName, ParseGeneration, ParseStage;
    RemoveWellFormed(fs, name, fs');
  }

  ghost predicate StaleKept(fs: Fs, fs': Fs) {
    forall v :: (ACTIVE, v) in fs'.root.stale <==> (ACTIVE, v) in fs.root.stale
  }

  lemma QuietKeepsActive(fs: Fs, fs': Fs, accepted: set<map<Name, Bytes>>)
    requires Quiet(fs, fs', accepted) && StaleKept(fs, fs')
    ensures ActiveKept(fs, fs')
  {
    GenerationsAreNotScratch();
    hide Scratch, GenerationName, StageName, ParseGeneration, ParseStage, SealedKept;
    assert !Scratch(ACTIVE);
  }

  lemma StagingKeepsStale(s: State, t: State)
    requires ClearStage(s, t) || StageFile(s, t) || Validate(s, t)
    ensures StaleKept(s.fs, t.fs)
  {
    NameClassesAreDisjoint(s.call.generation, s.call.generation);
    hide GenerationName, StageName, ParseGeneration, ParseStage;
  }

  lemma StagingKeepsActive(s: State, t: State)
    requires Inv(s) && (ClearStage(s, t) || StageFile(s, t) || Validate(s, t))
    ensures ActiveKept(s.fs, t.fs)
  {
    hide *;
    StagingKeepsStale(s, t);
    if ClearStage(s, t) { ClearStageQuiet(s, t); }
    else if StageFile(s, t) { StageFileQuiet(s, t); }
    else { ValidateQuiet(s, t); }
    QuietKeepsActive(s.fs, t.fs, s.history.accepted);
  }

  lemma PruneKeepsActive(s: State, t: State)
    requires Inv(s) && Prune(s, t)
    ensures ActiveKept(s.fs, t.fs)
  {
    InvIsSafe(s);
    hide GenerationName, StageName, ParseGeneration, ParseStage, RemoveStep;
    if s.phase.Pruning? && s.phase.todo != {} {
      var name :| name in s.phase.todo && Visit(s, t, name, s.phase.todo);
      if Doomed(name, s.call.generation) && name in s.fs.root.cur {
        assert s.call.generation <= U64_MAX;
        DoomedIsAnother(name, s.call.generation);
        RemoveKeepsActive(s.fs, name, t.fs);
      }
    }
  }

  lemma PublishOnStale(s: State, t: State)
    requires Publish(s, t)
    ensures FlushesRoot(s, t) ==> t.fs.root.stale == {}
    ensures Swaps(s, t) ==>
              && t.fs.root.Lookup(ACTIVE) == s.fs.root.Lookup(ACTIVE_TMP)
              && forall v :: (ACTIVE, v) in t.fs.root.stale <==>
                  (ACTIVE, v) in s.fs.root.stale || v == s.fs.root.Lookup(ACTIVE)
    ensures !FlushesRoot(s, t) && !Swaps(s, t) ==> StaleKept(s.fs, t.fs) && !s.phase.Swapping?
    ensures !FlushesRoot(s, t) && !s.phase.Publishing? && !s.phase.Swapping? ==>
              s.phase.FlushingStage? || s.phase.ClearingLink? || s.phase.MakingLink? || s.phase.Reloading?
    ensures s.phase.Publishing? ==> t.fs == s.fs.Rename(StageName(s.call.generation), GenerationName(s.call.generation))
    ensures !t.phase.Idle?
  {
    NameClassesAreDisjoint(s.call.generation, s.call.generation);
    hide GenerationName, StageName, ParseGeneration, ParseStage;
  }

  lemma PublishOnActive(s: State, t: State)
    requires Inv(s) && Publish(s, t)
    ensures FlushesRoot(s, t) ==> t.fs.root.stale == {}
    ensures Swaps(s, t) ==>
              && t.fs.root.Lookup(ACTIVE) == Some(s.call.link) && LinksKept(s.fs, t.fs)
              && forall v :: (ACTIVE, v) in t.fs.root.stale <==>
                  (ACTIVE, v) in s.fs.root.stale || v == s.fs.root.Lookup(ACTIVE)
    ensures !FlushesRoot(s, t) && !Swaps(s, t) ==> ActiveKept(s.fs, t.fs)
    ensures !t.phase.Idle?
  {
    PublishOnStale(s, t);
    LinkIsMade(s);
    assert s.phase.FlushingStage? || s.phase.Reloading? ==> !t.phase.Idle?;
    hide *;
    if s.phase.Swapping? {
      SwapKeepsGenerations(s, t);
    } else if s.phase.Publishing? {
      FinaliseKeepsActive(s, t);
    } else if !FlushesRoot(s, t) {
      FlushesAreQuiet(s, t);
      QuietKeepsActive(s.fs, t.fs, s.history.accepted);
    }
  }

  lemma FinaliseKeepsActive(s: State, t: State)
    requires Inv(s) && s.phase.Publishing? && StaleKept(s.fs, t.fs)
    requires t.fs == s.fs.Rename(StageName(s.call.generation), GenerationName(s.call.generation))
    ensures ActiveKept(s.fs, t.fs)
  {
    NameClassesAreDisjoint(s.call.generation, s.call.generation);
    hide *;
    PublishDelta(s);
    assert ActiveKept(s.fs, t.fs) by { KeptParts(s.fs, t.fs); }
  }

  lemma KeptParts(fs: Fs, fs': Fs)
    requires fs'.root.Lookup(ACTIVE) == fs.root.Lookup(ACTIVE) && StaleKept(fs, fs') && LinksKept(fs, fs')
    ensures ActiveKept(fs, fs')
  {
    hide LinksKept;
  }

  lemma LinkIsMade(s: State)
    requires Inv(s)
    ensures s.phase.Swapping? ==> s.fs.root.Lookup(ACTIVE_TMP) == Some(s.call.link)
  {
  }

  /** Only a swap, a flush of the root and a crash change what `active` is or may be restored to. */
  lemma StepOnActive(s: State, t: State)
    requires Inv(s) && Next(s, t)
    ensures t.phase.Idle? || FlushesRoot(s, t) ==> t.fs.root.stale == {}
    ensures Swaps(s, t) ==>
              && t.fs.root.Lookup(ACTIVE) == Some(s.call.link) && LinksKept(s.fs, t.fs)
              && forall v :: (ACTIVE, v) in t.fs.root.stale <==>
                  (ACTIVE, v) in s.fs.root.stale || v == s.fs.root.Lookup(ACTIVE)
    ensures !t.phase.Idle? && !FlushesRoot(s, t) && !Swaps(s, t) ==> ActiveKept(s.fs, t.fs)
  {
    QuietSteps(s, t);
    hide *;
    if ClearStage(s, t) || StageFile(s, t) || Validate(s, t) { StagingKeepsActive(s, t); }
    else if Prune(s, t) { PruneKeepsActive(s, t); }
    else if Publish(s, t) { PublishOnActive(s, t); }
    PhasesOfSteps(s, t);
    if Swaps(s, t) { SwapLeavesABinding(s, t); }
  }

  /** Every step is one of the kinds that change the tree, leaves it alone, or stops. */
  lemma QuietSteps(s: State, t: State)
    requires Next(s, t)
    ensures ClearStage(s, t) || StageFile(s, t) || Validate(s, t) || Prune(s, t) || Publish(s, t)
            || (t.phase.Idle? && t.fs.root.stale == {}) || ActiveKept(s.fs, t.fs)
    ensures t.phase.Idle? ==> t.fs.root.stale == {}
  {
    hide GenerationName, StageName, ParseGeneration, ParseStage, RemoveStep;
  }

  /** Which phases the marked steps start from. */
  lemma PhasesOfSteps(s: State, t: State)
    requires Next(s, t)
    ensures Swaps(s, t) || FlushesRoot(s, t) ==>
        Publish(s, t) && !(ClearStage(s, t) || StageFile(s, t) || Validate(s, t) || Prune(s, t))
    ensures t.phase.FlushingSwap? ==> Swaps(s, t)
    ensures s.phase.FlushingSwap? ==> t.phase.Idle? || FlushesRoot(s, t) || t.phase == Finished(Failed(Io))
  {
    hide GenerationName, StageName, ParseGeneration, ParseStage, RemoveStep, CheckMaterial;
  }

  lemma SwapLeavesABinding(s: State, t: State)
    requires Inv(s) && Publish(s, t) && Swaps(s, t)
    ensures t.fs.root.stale != {}
  {
    PublishOnActive(s, t);
    hide *;
    assert (ACTIVE, s.fs.root.Lookup(ACTIVE)) in t.fs.root.stale;
  }

  // ---- what a crash may restore is always older ----

  /** Every superseded binding of `active` is no link at all, or a link to a smaller index than the current one. */
  ghost predicate OlderOnly(fs: Fs) {
    forall v :: Superseded(fs, v) ==>
      && fs.root.Lookup(ACTIVE).Some?
      && var current := LinkIndex(fs, fs.root.Lookup(ACTIVE).value);
      && current.Some?
      && (v.Some? ==> LinkIndex(fs, v.value).Some? && LinkIndex(fs, v.value).value < current.value)
  }

  lemma BindingsAreLinks(s: State, v: Option<Id>)
    requires Inv(s) && v.Some? && s.fs.root.MayBind(ACTIVE, v)
    ensures v.value in s.fs.nodes && s.fs.nodes[v.value].Link? && LinkIndex(s.fs, v.value).Some?
    ensures LinkIndex(s.fs, v.value).value in s.history.live
  {
    hide GenerationName, StageName, ParseGeneration, ParseStage, Sealed, Steady;
    assert GoodLink(s.fs, s.history, v.value);
  }

  lemma SwapGoesUp(s: State, t: State)
    requires Inv(s) && Next(s, t) && Swaps(s, t)
    ensures OlderOnly(t.fs) && Superseded(t.fs, s.fs.root.Lookup(ACTIVE))
  {
    StepOnActive(s, t);
    NewLinkIsHighest(s);
    hide GenerationName, StageName, ParseGeneration, ParseStage, Inv, Next;
    var link := s.call.link;
    forall v | Superseded(t.fs, v) && v.Some?
      ensures LinkIndex(t.fs, v.value).Some? && LinkIndex(t.fs, v.value).value < s.call.generation
    {
      assert s.fs.root.MayBind(ACTIVE, v);
      BindingsAreLinks(s, v);
    }
    var before := s.fs.root.Lookup(ACTIVE);
    if before == Some(link) { BindingsAreLinks(s, before); }
  }

  lemma NewLinkIsHighest(s: State)
    requires Inv(s) && s.phase.Swapping?
    ensures LinkIndex(s.fs, s.call.link) == Some(s.call.generation)
    ensures s.call.link in s.fs.nodes && s.fs.nodes[s.call.link].Link?
    ensures forall k :: k in s.history.live ==> k < s.call.generation
  {
    hide GenerationName, StageName, ParseGeneration, ParseStage, Sealed;
  }

  lemma StepKeepsOlder(s: State, t: State)
    requires Inv(s) && Next(s, t) && OlderOnly(s.fs)
    ensures OlderOnly(t.fs)
  {
    StepOnActive(s, t);
    if Swaps(s, t) {
      SwapGoesUp(s, t);
    } else if !t.phase.Idle? && !FlushesRoot(s, t) {
      hide Inv, Next, GenerationName, StageName, ParseGeneration, ParseStage;
      forall v | Superseded(t.fs, v)
        ensures t.fs.root.Lookup(ACTIVE).Some? && LinkIndex(t.fs, t.fs.root.Lookup(ACTIVE).value).Some?
        ensures v.Some? ==> LinkIndex(t.fs, v.value).Some?
                            && LinkIndex(t.fs, v.value).value < LinkIndex(t.fs, t.fs.root.Lookup(ACTIVE).value).value
      {
        assert Superseded(s.fs, v);
        BindingsAreLinks(s, s.fs.root.Lookup(ACTIVE));
        if v.Some? { BindingsAreLinks(s, v); }
      }
    }
  }

  lemma {:induction false} RunsKeepOlder(run: seq<State>, i: nat)
    requires IsRun(run) && i < |run|
    ensures OlderOnly(run[i].fs)
    decreases i
  {
    if i == 0 {
      InitiallyNothing(run[0]);
    } else {
      RunsKeepOlder(run, i - 1);
      RunsKeepInvariants(run, i - 1);
      RunStep(run, i - 1);
      hide *;
      StepKeepsOlder(run[i - 1], run[i]);
    }
  }

  lemma InitiallyNothing(s: State)
    requires Initial(s)
    ensures forall v :: !Superseded(s.fs, v)
    ensures OlderOnly(s.fs)
  {
    assert s.fs.root.MayBind(ACTIVE, s.fs.root.Lookup(ACTIVE));
    forall v ensures !Superseded(s.fs, v) {
      if (ACTIVE, v) in s.fs.root.stale { assert s.fs.root.MayBind(ACTIVE, v); }
    }
  }

  /** A crash that restores a superseded binding publishes an older generation, or nothing. */
  lemma SupersededPublishesOlder(run: seq<State>, i: nat, v: Option<Id>)
    requires IsRun(run) && i < |run| && Superseded(run[i].fs, v)
    ensures Published(run[i].fs).Some?
    ensures PublishedBy(run[i].fs, v).Some? ==> PublishedBy(run[i].fs, v).value.0 < Published(run[i].fs).value.0
  {
    RunsKeepOlder(run, i);
    RunsKeepInvariants(run, i);
    LivePublishes(run[i].fs, run[i].history);
  }

  /** While a swap waits for its flush, what was live at the call's start is still a binding a crash may restore. */
  lemma OldBindingIsSuperseded(run: seq<State>, i: nat)
    requires IsRun(run) && i < |run| && run[i].phase.FlushingSwap?
    ensures Superseded(run[i].fs, run[i].call.start.root.Lookup(ACTIVE))
  {
    assert run[0].phase == Idle;
    RunStep(run, i - 1);
    RunsKeepInvariants(run, i - 1);
    var s, t := run[i - 1], run[i];
    PhasesOfSteps(s, t);
    SwapGoesUp(s, t);
    SwapKeepsCall(s, t);
  }

  lemma SwapKeepsCall(s: State, t: State)
    requires Publish(s, t) && Swaps(s, t) && Frame(s)
    ensures t.call == s.call && s.fs.root.Lookup(ACTIVE) == s.call.start.root.Lookup(ACTIVE)
  {
    hide GenerationName, StageName, ParseGeneration, ParseStage;
  }

  /**
   * What a crash inside a call leaves is decided by the swap: before it only what a crash at the
   * start could leave, from its flush onwards only the new set, and in between either.
   */
  lemma SwapDecidesTheCrash(run: seq<State>, i: nat)
    requires IsRun(run) && i < |run| && !run[i].phase.Idle? && !run[i].phase.Finished?
    ensures BeforeSwap(run[i].phase) ==>
              forall found :: Crash(run[i].fs, found) ==>
                exists before :: Crash(run[i].call.start, before) && Published(found) == Published(before)
    ensures !BeforeSwap(run[i].phase) && !run[i].phase.FlushingSwap? ==>
              forall found :: Crash(run[i].fs, found) ==>
                Published(found) == Some((run[i].call.generation, Contents(run[i].call.material)))
    ensures run[i].phase.FlushingSwap? ==>
              && (exists found :: Crash(run[i].fs, found)
                                  && Published(found) == Some((run[i].call.generation, Contents(run[i].call.material))))
              && (exists found :: Crash(run[i].fs, found) && Published(found) == Published(run[i].call.start))
  {
    hide IsRun, Inv, Frame, Crash, Published, Contents;
    RunsKeepInvariants(run, i);
    var s := run[i];
    if BeforeSwap(s.phase) {
      CrashBeforeTheSwap(s);
    } else if s.phase.FlushingSwap? {
      CrashAtTheSwap(run, i);
    } else {
      CrashAfterTheSwap(s);
    }
  }

  lemma CrashBeforeTheSwap(s: State)
    requires Inv(s) && Frame(s) && !s.phase.Idle? && !s.phase.Finished? && BeforeSwap(s.phase)
    ensures forall found :: Crash(s.fs, found) ==>
              exists before :: Crash(s.call.start, before) && Published(found) == Published(before)
  {
    forall found | Crash(s.fs, found)
      ensures exists before :: Crash(s.call.start, before) && Published(found) == Published(before)
    {
      CrashPublishes(s.fs, s.history, found);
      var v := found.root.Lookup(ACTIVE);
      NothingNewBeforeTheSwap(s, v);
      SettleIsACrash(s.call.start, v);
    }
  }

  lemma CrashAtTheSwap(run: seq<State>, i: nat)
    requires IsRun(run) && i < |run| && run[i].phase.FlushingSwap?
    ensures exists found :: Crash(run[i].fs, found)
                            && Published(found) == Some((run[i].call.generation, Contents(run[i].call.material)))
    ensures exists found :: Crash(run[i].fs, found) && Published(found) == Published(run[i].call.start)
  {
    hide IsRun, Inv, Frame, Crash, Contents, Superseded, PublishedBy;
    RunsKeepInvariants(run, i);
    var s := run[i];
    OldBindingRemains(s);
    OldBindingIsSuperseded(run, i);
    SupersededPublishesOlder(run, i, s.call.start.root.Lookup(ACTIVE));
    SettleIsACrash(s.fs, s.fs.root.Lookup(ACTIVE));
    SettleIsACrash(s.fs, s.call.start.root.Lookup(ACTIVE));
  }

  lemma CrashAfterTheSwap(s: State)
    requires Inv(s) && Frame(s) && !s.phase.Idle? && !s.phase.Finished?
    requires !BeforeSwap(s.phase) && !s.phase.FlushingSwap?
    ensures forall found :: Crash(s.fs, found) ==>
              Published(found) == Some((s.call.generation, Contents(s.call.material)))
  {
    SettledPublishes(s);
    forall found | Crash(s.fs, found)
      ensures Published(found) == Some((s.call.generation, Contents(s.call.material)))
    {
      CrashPublishes(s.fs, s.history, found);
    }
  }

  /** Step `k` flushes the root, or the machine stops there. */
  predicate Settles(run: seq<State>, k: nat)
    requires k + 1 < |run|
  {
    FlushesRoot(run[k], run[k + 1]) || run[k + 1].phase.Idle?
  }

  /** A call swapped, failed to flush the swap, and since then no call has flushed the root and nothing has stopped. */
  ghost predicate SwapLeftUnflushed(run: seq<State>, j: nat, i: nat) {
    && j + 1 <= i < |run|
    && run[j].phase.FlushingSwap? && run[j + 1].phase == Finished(Failed(Io))
    && forall k :: j < k < i ==> !Settles(run, k)
  }

  /** Read off the history alone: a superseded binding is left exactly by an unflushed swap. */
  lemma {:induction false} SupersededExactlyWhenUnflushed(run: seq<State>, i: nat)
    requires IsRun(run) && i < |run|
    ensures (exists v :: Superseded(run[i].fs, v))
            <==> run[i].phase.FlushingSwap? || exists j: nat :: SwapLeftUnflushed(run, j, i)
    decreases i
  {
    if i == 0 {
      assert run[0].phase == Idle;
      InitiallyNothing(run[0]);
    } else {
      SupersededExactlyWhenUnflushed(run, i - 1);
      RunsKeepInvariants(run, i - 1);
      RunStep(run, i - 1);
      hide Inv, Next, IsRun;
      var s, t := run[i - 1], run[i];
      StepOnActive(s, t);
      PhasesOfSteps(s, t);
      if Swaps(s, t) {
        SwapGoesUp(s, t);
      } else if t.phase.Idle? || FlushesRoot(s, t) {
        NoneUnflushed(run, i);
      } else {
        assert forall v :: Superseded(t.fs, v) <==> Superseded(s.fs, v);
        UnflushedStays(run, i - 1, i);
      }
    }
  }

  lemma NoneUnflushed(run: seq<State>, i: nat)
    requires 0 < i < |run| && Settles(run, i - 1)
    ensures !exists j: nat :: SwapLeftUnflushed(run, j, i)
  {
    forall j: nat ensures !SwapLeftUnflushed(run, j, i) {
      if j < i - 1 { assert Settles(run, i - 1); }
    }
  }

  lemma UnflushedStays(run: seq<State>, h: nat, i: nat)
    requires h + 1 == i < |run| && !Settles(run, h)
    requires run[h].phase.FlushingSwap? ==> run[i].phase == Finished(Failed(Io))
    ensures (exists j: nat :: SwapLeftUnflushed(run, j, i))
            <==> run[h].phase.FlushingSwap? || exists j: nat :: SwapLeftUnflushed(run, j, h)
  {
    if run[h].phase.FlushingSwap? { assert SwapLeftUnflushed(run, h, i); }
    if j: nat :| SwapLeftUnflushed(run, j, h) { assert SwapLeftUnflushed(run, j, i); }
    if j: nat :| SwapLeftUnflushed(run, j, i) { if j < h { assert SwapLeftUnflushed(run, j, h); } }
  }

  /**
   * An unchanged answer survives every crash exactly when no earlier call ended with an error after
   * its swap and before the swap's flush, unless something has stopped or some later call has flushed
   * the root since.
   */
  lemma UnchangedIsDurableExactlyWhenFlushed(run: seq<State>, i: nat, n: nat)
    requires IsRun(run) && i < |run| && run[i].phase == Finished(Activated(n, false))
    ensures (forall found :: Crash(run[i].fs, found) ==> Published(found) == Published(run[i].fs))
            <==> !exists j: nat :: SwapLeftUnflushed(run, j, i)
  {
    SupersededExactlyWhenUnflushed(run, i);
    if v :| Superseded(run[i].fs, v) {
      SupersededPublishesOlder(run, i, v);
      SettleIsACrash(run[i].fs, v);
    } else {
      RunsKeepInvariants(run, i);
      forall found | Crash(run[i].fs, found) ensures Published(found) == Published(run[i].fs) {
        CrashPublishes(run[i].fs, run[i].history, found);
        assert run[i].fs.root.MayBind(ACTIVE, found.root.Lookup(ACTIVE));
        assert !Superseded(run[i].fs, found.root.Lookup(ACTIVE));
      }
    }
  }
}
