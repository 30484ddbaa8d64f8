/** What the activation protocol promises, over every run (src/generation.rs:181-310). */
module GenerationTheorems {
  import opened Options
  import opened Decimal
  import opened GenerationNames
  import opened FileSystem
  import opened GenerationMachine
  import opened GenerationInvariant
  import opened GenerationSteps
  import opened GenerationFrame

  /** Every state of a run satisfies the invariant and the frame. */
  lemma {:induction false} RunsKeepInvariants(run: seq<State>, i: nat)
    requires IsRun(run) && i < |run|
    ensures Inv(run[i]) && Frame(run[i])
    decreases i
  {
    if i > 0 {
      RunsKeepInvariants(run, i - 1);
      assert Next(run[i - 1], run[i]);
      hide *;
      StepKeepsInv(run[i - 1], run[i]);
      StepKeepsFrame(run[i - 1], run[i]);
    }
  }

  lemma RunStep(run: seq<State>, i: nat)
    requires IsRun(run) && i + 1 < |run|
    ensures Next(run[i], run[i + 1])
  {
  }

  lemma ExtendRun(run: seq<State>, t: State)
    requires IsRun(run) && Next(run[|run| - 1], t)
    ensures IsRun(run + [t])
  {
    hide Next, Initial;
    var longer := run + [t];
    forall j | 0 <= j < |longer| - 1 ensures Next(longer[j], longer[j + 1]) {
      if j < |run| - 1 { assert Next(run[j], run[j + 1]); }
    }
  }

  // ---- safety ----

  /** What recovery reads through `active` is what some possible binding of it publishes now. */
  lemma CrashPublishes(fs: Fs, h: History, fs': Fs)
    requires Safe(fs, h) && Crash(fs, fs')
    ensures fs.root.MayBind(ACTIVE, fs'.root.Lookup(ACTIVE))
    ensures Published(fs') == PublishedBy(fs, fs'.root.Lookup(ACTIVE))
    ensures fs'.root.Lookup(ACTIVE).Some? ==>
              Published(fs').Some? && Published(fs').value.0 in h.live && Published(fs').value.1 in h.accepted
  {
    hide GenerationName, StageName, ParseGeneration, ParseStage;
    var v := fs'.root.Lookup(ACTIVE);
    assert fs.root.MayBind(ACTIVE, if ACTIVE in fs'.root.cur then Some(fs'.root.cur[ACTIVE]) else None);
    if v.Some? {
      assert GoodLink(fs, h, v.value);
      assert InodeSurvives(fs.nodes[v.value], fs'.nodes[v.value]);
      var k := LinkIndex(fs, v.value).value;
      ParsesExactlyGenerations(fs.nodes[v.value].target, k);
      CrashKeepsSealed(fs, fs', k, h.accepted);
    }
  }

  /**
   * Crash safety. Whenever a run of activations is stopped, recovery finds `active`
   * absent or naming a generation holding exactly a file set a validator accepted.
   */
  lemma RecoveryFindsAcceptedMaterial(run: seq<State>, i: nat, fs': Fs)
    requires IsRun(run) && i < |run| && Crash(run[i].fs, fs')
    ensures fs'.root.Lookup(ACTIVE) == None
            || (Published(fs').Some? && Published(fs').value.1 in run[i].history.accepted)
  {
    RunsKeepInvariants(run, i);
    CrashPublishes(run[i].fs, run[i].history, fs');
  }

  /** Readers of the running system see the same: never a missing or partial generation. */
  lemma ReadersSeeAcceptedMaterial(run: seq<State>, i: nat)
    requires IsRun(run) && i < |run|
    ensures run[i].fs.root.Lookup(ACTIVE) == None
            || (Published(run[i].fs).Some? && Published(run[i].fs).value.1 in run[i].history.accepted
                && Published(run[i].fs).value.0 in run[i].history.live)
  {
    RunsKeepInvariants(run, i);
    LivePublishes(run[i].fs, run[i].history);
  }

  lemma LivePublishes(fs: Fs, h: History)
    requires Safe(fs, h)
    ensures fs.root.Lookup(ACTIVE) == None
            || (Published(fs).Some? && Published(fs).value.1 in h.accepted && Published(fs).value.0 in h.live)
  {
    hide GenerationName, StageName, ParseGeneration, ParseStage;
    var v := fs.root.Lookup(ACTIVE);
    if v.Some? {
      assert GoodLink(fs, h, v.value);
      ParsesExactlyGenerations(fs.nodes[v.value].target, LinkIndex(fs, v.value).value);
    }
  }

  /** A file set counts as accepted only because a validator accepted that set, read back from staging. */
  lemma {:induction false} AcceptedByAValidator(run: seq<State>, i: nat, files: map<Name, Bytes>) returns (j: nat)
    requires IsRun(run) && i < |run| && files in run[i].history.accepted
    ensures j < i && run[j].phase.Validating? && run[j + 1].phase.FlushingStage?
    ensures files == Contents(run[j].call.copied) == run[j].fs.Files(run[j].call.stage)
    decreases i
  {
    hide *;
    NothingAcceptedAtFirst(run);
    RunStep(run, i - 1);
    if files in run[i - 1].history.accepted {
      j := AcceptedByAValidator(run, i - 1, files);
    } else {
      j := i - 1;
      OnlyValidatorsAccept(run[j], run[i], files);
      RunsKeepInvariants(run, j);
      StagedReads(run[j]);
    }
  }

  lemma NothingAcceptedAtFirst(run: seq<State>)
    requires IsRun(run)
    ensures run != [] && run[0].history == History({}, {})
  {
  }

  lemma OnlyValidatorsAccept(s: State, t: State, files: map<Name, Bytes>)
    requires Next(s, t) && files in t.history.accepted && files !in s.history.accepted
    ensures s.phase.Validating? && t.phase.FlushingStage? && files == Contents(s.call.copied)
  {
    hide GenerationName, StageName, ParseGeneration, ParseStage, RemoveStep, Contents;
  }

  lemma StagedReads(s: State)
    requires Inv(s) && s.phase.Validating?
    ensures s.fs.Files(s.call.stage) == Contents(s.call.copied)
  {
    hide GenerationName, StageName, ParseGeneration, ParseStage;
    var c := s.call;
    assert c.material[..|c.material|] == c.material;
    forall e | e in s.fs.Sub(c.stage).cur
      ensures e in s.fs.Files(c.stage) && s.fs.Files(c.stage)[e] == Contents(c.material)[e]
    {
      assert FlushedFile(s.fs, s.fs.Sub(c.stage).cur[e]);
    }
  }

  // ---- atomicity ----

  /** A crash of `fs` that keeps every current entry and byte but binds `active` to `v`. */
  function Settle(fs: Fs, v: Option<Id>): Fs {
    Fs(Directory(if v.Some? then fs.root.cur[ACTIVE := v.value] else fs.root.cur - {ACTIVE}, {}),
       map id | id in fs.nodes ::
         match fs.nodes[id]
         case File(content, _) => File(content, true)
         case Dir(dir) => Dir(dir.Flushed())
         case Link(target) => Link(target),
       fs.next)
  }

  lemma SettleIsACrash(fs: Fs, v: Option<Id>)
    requires fs.root.MayBind(ACTIVE, v)
    ensures Crash(fs, Settle(fs, v)) && Published(Settle(fs, v)) == PublishedBy(fs, v)
  {
    hide GenerationName, StageName, ParseGeneration, ParseStage;
    var fs' := Settle(fs, v);
    assert fs'.nodes.Keys == fs.nodes.Keys;
    forall name ensures fs.root.MayBind(name, if name in fs'.root.cur then Some(fs'.root.cur[name]) else None) { }
    if v.Some? && LinkIndex(fs, v.value).Some? {
      var k := LinkIndex(fs, v.value).value;
      ParsesExactlyGenerations(fs.nodes[v.value].target, k);
      NameClassesAreDisjoint(k, k);
      var d := fs.root.Lookup(GenerationName(k));
      if d.Some? && fs.IsDir(d.value) { assert fs'.Files(d.value) == fs.Files(d.value); }
    }
  }

  /**
   * Atomicity. A crash inside an activation publishes the call's own file set under its
   * own index, or something a crash at the moment of the call could already have published.
   */
  lemma CrashLeavesOldOrNew(run: seq<State>, i: nat, fs': Fs)
    requires IsRun(run) && i < |run| && !run[i].phase.Idle? && Crash(run[i].fs, fs')
    ensures Published(fs') == Some((run[i].call.generation, Contents(run[i].call.material)))
            || exists before :: Crash(run[i].call.start, before) && Published(fs') == Published(before)
  {
    RunsKeepInvariants(run, i);
    var s, v := run[i], fs'.root.Lookup(ACTIVE);
    CrashPublishes(s.fs, s.history, fs');
    if s.call.start.root.MayBind(ACTIVE, v) { SettleIsACrash(s.call.start, v); }
  }

  /** The new set is published by nothing a crash can leave before the swap. */
  lemma NothingNewBeforeTheSwap(s: State, v: Option<Id>)
    requires Inv(s) && Frame(s) && !s.phase.Idle? && !s.phase.Finished? && BeforeSwap(s.phase)
        && s.fs.root.MayBind(ACTIVE, v)
    ensures s.call.start.root.MayBind(ACTIVE, v) && PublishedBy(s.fs, v) == PublishedBy(s.call.start, v)
  {
    hide GenerationName, StageName, ParseGeneration, ParseStage, Sealed;
    assert s.fs == s.call.start || Above(s);
    if v.Some? { assert GoodLink(s.fs, s.history, v.value); }
  }

  /** Between the swap and its flush, a crash may still leave what was published at the start. */
  lemma OldBindingRemains(s: State)
    requires Inv(s) && Frame(s) && s.phase.FlushingSwap?
    ensures var v := s.call.start.root.Lookup(ACTIVE);
            s.fs.root.MayBind(ACTIVE, v) && (PublishedBy(s.fs, v) == Published(s.call.start)
                                             || PublishedBy(s.fs, v) == Published(s.fs))
    ensures Published(s.fs) == Some((s.call.generation, Contents(s.call.material)))
  {
    AlreadyNew(s);
    hide GenerationName, StageName, ParseGeneration, ParseStage, Inv;
    assert OldOrNew(s);
  }

  lemma SettledPublishes(s: State)
    requires Inv(s) && !s.phase.Idle? && !s.phase.Finished? && !BeforeSwap(s.phase) && !s.phase.FlushingSwap?
    ensures forall v :: s.fs.root.MayBind(ACTIVE, v) ==>
              PublishedBy(s.fs, v) == Some((s.call.generation, Contents(s.call.material)))
  {
    assert Switched(s, true);
    SwitchedPublishes(s);
  }

  // ---- allocation ----

  lemma {:induction false} LiveOnlyGrows(run: seq<State>, i: nat, j: nat)
    requires IsRun(run) && i <= j < |run|
    ensures run[i].history.live <= run[j].history.live
    decreases j
  {
    if i < j {
      LiveOnlyGrows(run, i, j - 1);
      assert Next(run[j - 1], run[j]);
    }
  }

  /** No index `active` has named, before a crash or after one, is ever allocated again. */
  lemma IndicesOnlyIncrease(run: seq<State>, i: nat, j: nat, k: nat)
    requires IsRun(run) && i <= j && j + 1 < |run| && Allocate(run[j], run[j + 1])
    requires (exists files :: Published(run[i].fs) == Some((k, files)))
             || exists fs', files :: Crash(run[i].fs, fs') && Published(fs') == Some((k, files))
    ensures k < run[j + 1].call.generation
  {
    RunsKeepInvariants(run, i);
    RunsKeepInvariants(run, j);
    LiveOnlyGrows(run, i, j);
    var s := run[i];
    assert k in s.history.live by {
      if files :| Published(s.fs) == Some((k, files)) {
        LivePublishes(s.fs, s.history);
      } else {
        var fs', files :| Crash(s.fs, fs') && Published(fs') == Some((k, files));
        CrashPublishes(s.fs, s.history, fs');
      }
    }
    AllocateKeeps(run[j], run[j + 1]);
  }

  // ---- what an error leaves ----

  /** The call's generation is on disk, complete, and `active` names another. */
  ghost predicate Unreferenced(fs: Fs, start: Fs, call: Call) {
    && start.root.Lookup(GenerationName(call.generation)) == None
    && var d := fs.root.Lookup(GenerationName(call.generation));
    && d.Some? && fs.Files(d.value) == Contents(call.material)
    && (Published(fs).Some? ==> Published(fs).value.0 != call.generation)
  }

  /** An error leaves one of three states, and the failing step says which. */
  lemma ErrorLeavesOneOfThree(run: seq<State>, i: nat)
    requires IsRun(run) && i + 1 < |run|
    requires Fail(run[i], run[i + 1])
        || (run[i].phase.Discarding? && run[i + 1].phase.Finished? && !Stop(run[i], run[i + 1]))
    ensures var phase, start, fs, call := run[i].phase, run[i].call.start, run[i + 1].fs, run[i].call;
            if BeforePublish(phase) then
              Published(fs) == Published(start) && fs.root.Lookup(ACTIVE) == start.root.Lookup(ACTIVE)
                  && SameGenerations(start, fs)
            else if BeforeSwap(phase) then
              Published(fs) == Published(start) && fs.root.Lookup(ACTIVE) == start.root.Lookup(ACTIVE)
              && OnlyNewGeneration(start, fs, call.generation) && Unreferenced(fs, start, call)
            else
              Published(fs) == Some((call.generation, Contents(call.material)))
  {
    RunsKeepInvariants(run, i);
    var s, t := run[i], run[i + 1];
    assert Next(s, t);
    assert t.fs == s.fs;
    if BeforeSwap(s.phase) {
      StillOld(s);
      if !BeforePublish(s.phase) { FinalisedIsUnreferenced(s); }
    } else {
      AlreadyNew(s);
    }
  }

  lemma StillOld(s: State)
    requires Inv(s) && Frame(s) && BeforeSwap(s.phase) && !s.phase.Finished?
    ensures Published(s.fs) == Published(s.call.start)
  {
    hide GenerationName, StageName, ParseGeneration, ParseStage;
    assert s.fs == s.call.start || Above(s);
    var v := s.fs.root.Lookup(ACTIVE);
    assert s.fs.root.MayBind(ACTIVE, v);
    LivePublishes(s.fs, s.history);
  }

  lemma FinalisedIsUnreferenced(s: State)
    requires Inv(s) && Frame(s) && BeforeSwap(s.phase) && !BeforePublish(s.phase)
    ensures Unreferenced(s.fs, s.call.start, s.call)
  {
    hide GenerationName, StageName, ParseGeneration, ParseStage;
    var c := s.call;
    LivePublishes(s.fs, s.history);
    assert Above(s);
    assert c.material[..|c.material|] == c.material;
    if s.phase.FlushingRoot? {
      forall e | e in s.fs.Sub(c.stage).cur
        ensures e in s.fs.Files(c.stage) && s.fs.Files(c.stage)[e] == Contents(c.material)[e]
      {
        assert FlushedFile(s.fs, s.fs.Sub(c.stage).cur[e]);
      }
    }
  }

  lemma AlreadyNew(s: State)
    requires Inv(s) && !s.phase.Idle? && !s.phase.Finished? && !BeforeSwap(s.phase)
    ensures Published(s.fs) == Some((s.call.generation, Contents(s.call.material)))
  {
    hide GenerationName, StageName, ParseGeneration, ParseStage;
    assert Switched(s, false);
    ParsesExactlyGenerations(s.fs.nodes[s.call.link].target, s.call.generation);
  }

  // ---- what a success leaves ----

  /**
   * A changing activation publishes exactly its files, durably, and clears the engine's
   * other entries whatever earlier activations left; nobody else's entry has moved.
   */
  lemma ChangedMeansInstalled(run: seq<State>, i: nat, n: nat)
    requires IsRun(run) && i < |run| && run[i].phase == Finished(Activated(n, true))
    ensures Published(run[i].fs) == Some((n, Contents(run[i].call.material)))
    ensures Contents(run[i].call.material) in run[i].history.accepted
    ensures forall fs' :: Crash(run[i].fs, fs') ==> Published(fs') == Some((n, Contents(run[i].call.material)))
    ensures forall name :: name in run[i].fs.root.cur && EngineName(name) <==>
        name == ACTIVE || name == GenerationName(n)
    ensures ForeignKept(run[i].call.start, run[i].fs)
  {
    hide GenerationName, StageName, ParseGeneration, ParseStage;
    RunsKeepInvariants(run, i);
    var s := run[i];
    SwitchedPublishes(s);
    assert s.fs.root.MayBind(ACTIVE, s.fs.root.Lookup(ACTIVE));
    forall fs' | Crash(s.fs, fs') ensures Published(fs') == Some((n, Contents(s.call.material))) {
      CrashPublishes(s.fs, s.history, fs');
    }
    ParsesExactlyGenerations(GenerationName(n), n);
    assert EngineName(ACTIVE) && EngineName(GenerationName(n));
  }

  lemma {:induction false} MatchesReads(fs: Fs, material: Material, j: nat)
    requires ActiveMatches(fs, material) == Answer(true) && j < |material|
    ensures ReadActive(fs, material[j].name) == Answer(Some(material[j].bytes))
    decreases j
  {
    if j > 0 { MatchesReads(fs, material[1..], j - 1); }
  }

  /** An unchanged answer wrote nothing, names the live generation, and every file already reads so. */
  lemma UnchangedMeansAlreadyThere(run: seq<State>, i: nat, n: nat)
    requires IsRun(run) && i < |run| && run[i].phase == Finished(Activated(n, false))
    ensures run[i].fs == run[i].call.start
    ensures Published(run[i].fs).Some? && Published(run[i].fs).value.0 == n
    ensures forall j :: 0 <= j < |run[i].call.material| ==>
              ReadActive(run[i].fs, run[i].call.material[j].name) == Answer(Some(run[i].call.material[j].bytes))
  {
    hide GenerationName, StageName, ParseGeneration, ParseStage;
    RunsKeepInvariants(run, i);
    var s := run[i];
    LivePublishes(s.fs, s.history);
    hide Frame, Safe;
    forall j | 0 <= j < |s.call.material|
      ensures ReadActive(s.fs, s.call.material[j].name) == Answer(Some(s.call.material[j].bytes))
    {
      MatchesReads(s.fs, s.call.material, j);
    }
  }

  /** Files read through `active` after a change are the call's files. */
  lemma {:induction false} InstalledMatches(s: State, i: nat)
    requires Inv(s) && s.phase.Finished? && s.phase.outcome.Activated? && s.phase.outcome.changed
    requires i <= |s.call.material|
    ensures ActiveMatches(s.fs, s.call.material[i..]) == Answer(true)
    decreases |s.call.material| - i
  {
    hide GenerationName, StageName, ParseGeneration, ParseStage;
    var m := s.call.material;
    if i < |m| {
      InstalledMatches(s, i + 1);
      assert m[i..][0] == m[i] && m[i..][1..] == m[i + 1..];
      ContentsHold(m, |m|, i);
      assert m[..|m|] == m;
      ParsesExactlyGenerations(s.fs.nodes[s.call.link].target, s.call.generation);
      var d := s.fs.root.cur[GenerationName(s.call.generation)];
      assert m[i].name in s.fs.Files(d) && s.fs.Files(d)[m[i].name] == m[i].bytes;
      assert ReadActive(s.fs, m[i].name) == Answer(Some(m[i].bytes));
    }
  }

  /** Repeating a call that succeeded changes nothing and answers the same index. */
  lemma RepeatIsANoOp(run: seq<State>, i: nat, n: nat, changed: bool, t: State)
    requires IsRun(run) && i < |run| && run[i].phase == Finished(Activated(n, changed))
    requires Work(Started(run[i], run[i].call.material), t)
    ensures t.fs == run[i].fs && t.phase == Finished(Activated(n, false))
  {
    hide IsRun, Inv, Frame, Work;
    RunsKeepInvariants(run, i);
    SuccessMatches(run[i], n, changed);
    ComparisonAnswers(run[i], t, n);
  }

  /** After a success its files are live, under its index. */
  lemma SuccessMatches(s: State, n: nat, changed: bool)
    requires Inv(s) && s.phase == Finished(Activated(n, changed))
    ensures CheckMaterial(s.call.material).None?
    ensures CurrentGeneration(s.fs) == Answer(Some(n)) && ActiveMatches(s.fs, s.call.material) == Answer(true)
  {
    hide GenerationName, StageName, ParseGeneration, ParseStage, CheckMaterial, Safe;
    if changed {
      InstalledMatches(s, 0);
      assert s.call.material[0..] == s.call.material;
    }
  }

  /** The comparison is the only step a call has then. */
  lemma ComparisonAnswers(s: State, t: State, n: nat)
    requires CheckMaterial(s.call.material).None?
    requires CurrentGeneration(s.fs) == Answer(Some(n)) && ActiveMatches(s.fs, s.call.material) == Answer(true)
    requires Work(Started(s, s.call.material), t)
    ensures t.fs == s.fs && t.phase == Finished(Activated(n, false))
  {
    hide CheckMaterial, CurrentGeneration, ActiveMatches;
  }

  // ---- the durability of an unchanged answer ----

  /**
   * An unchanged answer can be lost: when the flush after a swap fails, repeating the call answers
   * `changed: false` without flushing, and a crash then restores what was live before.
   */
  lemma UnflushedSwapAnswersUnchanged(run: seq<State>, i: nat) returns (more: seq<State>, fs': Fs)
    requires IsRun(run) && |run| == i + 1 && run[i].phase.FlushingSwap?
    ensures IsRun(run + more)
    ensures more != [] && more[|more| - 1].phase == Finished(Activated(run[i].call.generation, false))
    ensures more[|more| - 1].fs == run[i].fs
    ensures Crash(more[|more| - 1].fs, fs') && fs'.root.Lookup(ACTIVE) == run[i].call.start.root.Lookup(ACTIVE)
  {
    hide *;
    RunsKeepInvariants(run, i);
    var failed, again, done := AnswersUnchanged(run[i]);
    ExtendRun(run, failed);
    var run1 := run + [failed];
    ExtendRun(run1, again);
    var run2 := run1 + [again];
    ExtendRun(run2, done);
    more := [failed, again, done];
    assert run + more == run2 + [done];
    fs' := Settle(done.fs, run[i].call.start.root.Lookup(ACTIVE));
  }

  lemma AnswersUnchanged(s: State) returns (failed: State, again: State, done: State)
    requires Inv(s) && Frame(s) && s.phase.FlushingSwap?
    ensures Next(s, failed) && Next(failed, again) && Next(again, done)
    ensures done.phase == Finished(Activated(s.call.generation, false)) && done.fs == s.fs
    ensures var v := s.call.start.root.Lookup(ACTIVE);
            Crash(done.fs, Settle(done.fs, v)) && Settle(done.fs, v).root.Lookup(ACTIVE) == v
  {
    hide GenerationName, StageName, ParseGeneration, ParseStage;
    var m, v := s.call.material, s.call.start.root.Lookup(ACTIVE);
    failed := s.(phase := Finished(Failed(Io)));
    again := Started(failed, m);
    done := again.(phase := Finished(Activated(s.call.generation, false)));
    SettleIsACrash(s.fs, v);
    assert Settle(s.fs, v).root.Lookup(ACTIVE) == v;
    assert Next(s, failed) by { assert Fail(s, failed); }
    assert Next(failed, again) by { assert Begin(failed, again); }
    RepeatAnswers(s, again, done);
  }

  lemma RepeatAnswers(s: State, again: State, done: State)
    requires Inv(s) && s.phase.FlushingSwap?
    requires again == Started(s.(phase := Finished(Failed(Io))), s.call.material)
    requires done == again.(phase := Finished(Activated(s.call.generation, false)))
    ensures Next(again, done)
  {
    hide GenerationName, StageName, ParseGeneration, ParseStage;
    var m := s.call.material;
    MatchesAfterSwap(s, 0);
    assert m[0..] == m;
    assert Compare(again, done);
  }

  lemma {:induction false} MatchesAfterSwap(s: State, i: nat)
    requires Inv(s) && s.phase.FlushingSwap? && i <= |s.call.material|
    ensures ActiveMatches(s.fs, s.call.material[i..]) == Answer(true)
    ensures CurrentGeneration(s.fs) == Answer(Some(s.call.generation))
    decreases |s.call.material| - i
  {
    hide GenerationName, StageName, ParseGeneration, ParseStage;
    var m := s.call.material;
    ParsesExactlyGenerations(s.fs.nodes[s.call.link].target, s.call.generation);
    if i < |m| {
      MatchesAfterSwap(s, i + 1);
      assert m[i..][0] == m[i] && m[i..][1..] == m[i + 1..];
      ContentsHold(m, |m|, i);
      assert m[..|m|] == m;
      var d := s.fs.root.cur[GenerationName(s.call.generation)];
      assert m[i].name in s.fs.Files(d) && s.fs.Files(d)[m[i].name] == m[i].bytes;
      assert ReadActive(s.fs, m[i].name) == Answer(Some(m[i].bytes));
    }
  }

  // ---- the flush before the swap ----

  /** The tree as a single flush after the swap would find it: finalised and swapped, nothing flushed between. */
  function SwappedUnflushed(fs: Fs, n: nat): Fs {
    fs.Rename(StageName(n), GenerationName(n)).Symlink(ACTIVE_TMP, GenerationName(n)).Rename(ACTIVE_TMP, ACTIVE)
  }

  /** A crash of `fs` that keeps everything but the entry of generation `n`. */
  function LoseGeneration(fs: Fs, n: nat): Fs {
    var kept := Settle(fs, fs.root.Lookup(ACTIVE));
    kept.(root := Directory(kept.root.cur - {GenerationName(n)}, {}))
  }

  /**
   * The flush between finalising and swapping cannot be left to the one after the swap: without
   * it a crash can leave `active` naming the new generation and no such generation on disk.
   */
  lemma OneFlushAfterTheSwapIsNotEnough(s: State)
    requires Inv(s) && s.phase.Publishing? && StageName(s.call.generation) in s.fs.root.cur
    requires GenerationName(s.call.generation) !in s.fs.root.cur
    ensures var n, swapped := s.call.generation, SwappedUnflushed(s.fs, s.call.generation);
            var found := LoseGeneration(swapped, n);
            Crash(swapped, found) && CurrentGeneration(found) == Answer(Some(n)) && Published(found) == None
  {
    hide CheckMaterial;
    var n, fs := s.call.generation, s.fs;
    NameClassesAreDisjoint(n, n);
    ParsesExactlyGenerations(GenerationName(n), n);
    assert n <= U64_MAX by { assert Above(s); }
    hide GenerationName, StageName, ParseGeneration, ParseStage, Inv;
    assert fs.WellFormed() by { InvIsWellFormed(s); }
    var swapped := SwappedUnflushed(fs, n);
    var found := LoseGeneration(swapped, n);
    assert swapped.root.Lookup(ACTIVE) == Some(fs.next);
    assert swapped.nodes[fs.next] == Link(GenerationName(n));
    assert (GenerationName(n), None) in swapped.root.stale;
    LoseIsACrash(swapped, n);
  }

  lemma LoseIsACrash(fs: Fs, n: nat)
    requires (GenerationName(n), None) in fs.root.stale
    ensures Crash(fs, LoseGeneration(fs, n))
  {
    hide GenerationName, StageName, ParseGeneration, ParseStage;
    SettleIsACrash(fs, fs.root.Lookup(ACTIVE));
    var found := LoseGeneration(fs, n);
    forall name ensures fs.root.MayBind(name, if name in found.root.cur then Some(found.root.cur[name]) else None) { }
  }

  lemma InvIsWellFormed(s: State)
    requires Inv(s)
    ensures s.fs.WellFormed()
  {
  }
}
