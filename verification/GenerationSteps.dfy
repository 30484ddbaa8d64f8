/** Each step of the machine keeps the invariant; so does a failure and so does a crash. */
module GenerationSteps {
  import opened Options
  import opened Decimal
  import opened GenerationNames
  import opened FileSystem
  import opened GenerationMachine
  import opened GenerationInvariant

  // ---- primitives keep references allocated ----

  lemma SubsetDirWellFormed(fs: Fs, dir: Id, sub: Directory)
    requires fs.WellFormed() && fs.IsDir(dir)
    requires forall id :: sub.Names(id) ==> id in fs.nodes
    ensures Fs(fs.root, fs.nodes[dir := Dir(sub)], fs.next).WellFormed()
  {
    hide GenerationName, StageName, ParseGeneration, ParseStage;
    var fs' := Fs(fs.root, fs.nodes[dir := Dir(sub)], fs.next);
    forall d, id | fs'.IsDir(d) && fs'.Sub(d).Names(id) ensures id in fs'.nodes {
      if d != dir { assert fs.IsDir(d) && fs.Sub(d).Names(id); }
    }
  }

  /** A new inode no entry names yet changes nothing a reader or a crash can reach. */
  lemma NewNode(fs: Fs, h: History, node: Inode)
    requires Safe(fs, h) && (node.Dir? ==> node.dir == EMPTY)
    ensures var fs' := Fs(fs.root, fs.nodes[fs.next := node], fs.next + 1);
            Safe(fs', h) && Quiet(fs, fs', h.accepted) && fs.next !in fs.nodes
  {
    hide GenerationName, StageName, ParseGeneration, ParseStage;
    var fs' := Fs(fs.root, fs.nodes[fs.next := node], fs.next + 1);
    assert fs.next !in fs.nodes;
    forall d, id | fs'.IsDir(d) && fs'.Sub(d).Names(id) ensures id in fs'.nodes {
      if d != fs.next { assert fs.IsDir(d) && fs.Sub(d).Names(id); }
    }
    forall id | fs'.root.Names(id) ensures id in fs'.nodes { assert fs.root.Names(id); }
    NodeChange(fs, fs', h, fs.next);
  }

  // ---- deleting one thing ----

  /** The root's current entries lost at most `name`. */
  ghost predicate Shrinks(fs: Fs, fs': Fs, name: Name) {
    && (forall n :: n != name ==> fs'.root.Lookup(n) == fs.root.Lookup(n))
    && (fs'.root.Lookup(name) == fs.root.Lookup(name) || fs'.root.Lookup(name) == None)
    && (forall n, v :: n != name ==> fs'.root.MayBind(n, v) == fs.root.MayBind(n, v))
  }

  lemma UnlinkInNode(fs: Fs, h: History, dir: Id, entry: Name)
    requires Safe(fs, h) && fs.IsDir(dir) && Mutable(fs, h.accepted, dir)
    ensures var fs' := fs.UnlinkIn(dir, entry);
            Safe(fs', h) && Quiet(fs, fs', h.accepted)
  {
    hide GenerationName, StageName, ParseGeneration, ParseStage;
    var sub := fs.Sub(dir).Bind(entry, None);
    forall id | sub.Names(id) ensures id in fs.nodes {
      var n :| sub.MayBind(n, Some(id));
      assert fs.Sub(dir).MayBind(n, Some(id));
      assert fs.Sub(dir).Names(id);
    }
    SubsetDirWellFormed(fs, dir, sub);
    NodeChange(fs, fs.UnlinkIn(dir, entry), h, dir);
  }

  /** Clearing a staging entry keeps every sealed generation: none is reachable through it. */
  lemma RemoveStageKeeps(fs: Fs, h: History, n: nat, fs': Fs)
    requires n <= U64_MAX && Safe(fs, h) && RemoveStep(fs, StageName(n), fs')
    ensures Safe(fs', h) && Quiet(fs, fs', h.accepted) && Shrinks(fs, fs', StageName(n))
  {
    hide GenerationName, StageName, ParseGeneration, ParseStage;
    var name := StageName(n);
    var id := fs.root.cur[name];
    ParsesExactlyStages(name, n);
    if fs' == fs.Unlink(name) {
      ScratchChange(fs, h, name, None);
    } else {
      var entry :| entry in fs.Sub(id).cur && fs' == fs.UnlinkIn(id, entry);
      assert fs.root.MayBind(name, Some(id));
      forall k | Sealed(fs, k, h.accepted) ensures fs.root.cur[GenerationName(k)] != id {
        NameClassesAreDisjoint(k, n);
      }
      UnlinkInNode(fs, h, id, entry);
    }
  }

  lemma NotSealedWhenUnnamed(fs: Fs, h: History, id: Id)
    requires forall name :: !fs.root.MayBind(name, Some(id))
    ensures forall k :: Sealed(fs, k, h.accepted) ==> fs.root.cur[GenerationName(k)] != id
  {
    hide GenerationName, StageName, ParseGeneration, ParseStage;
    forall k | Sealed(fs, k, h.accepted) ensures fs.root.cur[GenerationName(k)] != id {
      assert fs.root.MayBind(GenerationName(k), Some(fs.root.cur[GenerationName(k)]));
    }
  }

  /** Making a new directory or link under a scratch name is quiet. */
  lemma NewScratch(fs: Fs, h: History, name: Name, node: Inode)
    requires Safe(fs, h) && Scratch(name) && !node.File? && (node.Dir? ==> node.dir == EMPTY)
    ensures var fs' := Fs(fs.root.Bind(name, Some(fs.next)), fs.nodes[fs.next := node], fs.next + 1);
            Safe(fs', h) && Quiet(fs, fs', h.accepted)
    ensures forall other :: fs.root.Lookup(other) != Some(fs.next)
  {
    hide GenerationName, StageName, ParseGeneration, ParseStage;
    NewNode(fs, h, node);
    var made := Fs(fs.root, fs.nodes[fs.next := node], fs.next + 1);
    forall other ensures !fs.root.MayBind(other, Some(fs.next)) { assert !fs.root.Names(fs.next); }
    NotSealedWhenUnnamed(made, h, fs.next);
    ScratchChange(made, h, name, Some(fs.next));
    QuietTransitive(fs, made, Fs(fs.root.Bind(name, Some(fs.next)), made.nodes, made.next), h.accepted);
    forall other ensures fs.root.Lookup(other) != Some(fs.next) {
      assert fs.root.MayBind(other, fs.root.Lookup(other));
    }
  }

  /** What a prune removes is never the generation kept, nor `active` or its scratch name. */
  lemma DoomedIsAnother(name: Name, n: nat)
    requires Doomed(name, n) && n <= U64_MAX
    ensures name != GenerationName(n) && name != ACTIVE && name != ACTIVE_TMP
  {
    if ParseGeneration(name).Some? {
      ParsesExactlyGenerations(name, ParseGeneration(name).value);
      NameClassesAreDisjoint(ParseGeneration(name).value, n);
    } else {
      ParsesExactlyStages(name, ParseStage(name).value);
      NameClassesAreDisjoint(n, ParseStage(name).value);
      NameClassesAreDisjoint(ParseStage(name).value, n);
    }
  }

  lemma RemoveWellFormed(fs: Fs, name: Name, fs': Fs)
    requires fs.WellFormed() && RemoveStep(fs, name, fs')
    ensures fs'.WellFormed() && Shrinks(fs, fs', name) && LinksKept(fs, fs')
    ensures forall id :: id in fs.nodes && id != fs.root.cur[name] ==> id in fs'.nodes && fs'.nodes[id] == fs.nodes[id]
    ensures forall id :: id in fs.nodes && fs.nodes[id].File? ==> id in fs'.nodes && fs'.nodes[id] == fs.nodes[id]
  {
    hide GenerationName, StageName, ParseGeneration, ParseStage;
    if fs' == fs.Unlink(name) {
      UnlinkWellFormed(fs, name);
    } else {
      var id := fs.root.cur[name];
      var entry :| entry in fs.Sub(id).cur && fs' == fs.UnlinkIn(id, entry);
      UnlinkInWellFormed(fs, id, entry);
    }
  }

  lemma UnlinkInWellFormed(fs: Fs, id: Id, entry: Name)
    requires fs.WellFormed() && fs.IsDir(id)
    ensures fs.UnlinkIn(id, entry).WellFormed()
  {
    var sub := fs.Sub(id).Bind(entry, None);
    forall i | sub.Names(i) ensures i in fs.nodes {
      var m :| sub.MayBind(m, Some(i));
      assert fs.Sub(id).MayBind(m, Some(i));
      assert fs.Sub(id).Names(i);
    }
    SubsetDirWellFormed(fs, id, sub);
  }

  lemma UnlinkWellFormed(fs: Fs, name: Name)
    requires fs.WellFormed() && name in fs.root.cur
    ensures fs.Unlink(name).WellFormed()
  {
    hide GenerationName, StageName, ParseGeneration, ParseStage;
    var fs' := fs.Unlink(name);
    forall i | fs'.root.Names(i) ensures i in fs'.nodes {
      var m :| fs'.root.MayBind(m, Some(i));
      assert fs.root.MayBind(m, Some(i));
    }
    forall x, i | fs'.IsDir(x) && fs'.Sub(x).Names(i) ensures i in fs'.nodes {
      assert fs.IsDir(x) && fs.Sub(x).Names(i);
    }
  }

  /** Pruning keeps the generation kept, which by then is all `active` may name. */
  lemma RemoveOldKeeps(s: State, name: Name, fs': Fs)
    requires Safe(s.fs, s.history) && Switched(s, true)
    requires Doomed(name, s.call.generation) && RemoveStep(s.fs, name, fs')
    ensures Safe(fs', s.history) && Switched(s.(fs := fs'), true) && Shrinks(s.fs, fs', name)
  {
    hide GenerationName, StageName, ParseGeneration, ParseStage;
    var fs, h, n := s.fs, s.history, s.call.generation;
    var own := GenerationName(n);
    var d, id := fs.root.cur[own], fs.root.cur[name];
    DoomedIsAnother(name, n);
    RemoveWellFormed(fs, name, fs');
    assert fs.root.MayBind(name, Some(id));
    assert id != d;
    forall e | e in fs.Sub(d).cur ensures var f := fs.Sub(d).cur[e]; f in fs'.nodes && fs'.nodes[f] == fs.nodes[f] {
      assert FlushedFile(fs, fs.Sub(d).cur[e]);
    }
    KeptAfterShrink(fs, fs', name, own, d);
    SealedFrame(fs, fs', n, h.accepted, h.accepted);
    forall i | fs'.root.MayBind(ACTIVE, Some(i)) ensures GoodLink(fs', h, i) {
      assert fs.root.MayBind(ACTIVE, Some(i));
    }
    assert Tops(fs', h.live, n);
  }

  lemma KeptAfterShrink(fs: Fs, fs': Fs, name: Name, own: Name, d: Id)
    requires Shrinks(fs, fs', name) && name != own && own in fs.root.cur && fs.root.cur[own] == d
    requires forall v :: (own, v) !in fs.root.stale
    requires forall other :: other != own ==> !fs.root.MayBind(other, Some(d))
    requires fs'.root.stale <= fs.root.stale + {(name, fs.root.Lookup(name))}
    ensures own in fs'.root.cur && fs'.root.cur[own] == d && forall v :: (own, v) !in fs'.root.stale
    ensures forall other :: other != own ==> !fs'.root.MayBind(other, Some(d))
  {
    hide GenerationName, StageName, ParseGeneration, ParseStage;
    assert fs'.root.Lookup(own) == fs.root.Lookup(own);
    assert fs.root.MayBind(name, fs.root.Lookup(name));
    forall other | other != own ensures !fs'.root.MayBind(other, Some(d)) {
      assert !fs.root.MayBind(other, Some(d));
      if other != name { assert fs'.root.MayBind(other, Some(d)) == fs.root.MayBind(other, Some(d)); }
    }
  }

  // ---- the steps ----

  lemma BeginKeeps(s: State, t: State)
    requires Inv(s) && Begin(s, t)
    ensures Inv(t)
  {
    hide GenerationName, StageName, ParseGeneration, ParseStage;
  }

  lemma FailKeeps(s: State, t: State)
    requires Inv(s) && Fail(s, t)
    ensures Inv(t)
  {
    hide GenerationName, StageName, ParseGeneration, ParseStage;
  }

  lemma StopKeeps(s: State, t: State)
    requires Inv(s) && Stop(s, t)
    ensures Inv(t)
  {
    hide GenerationName, StageName, ParseGeneration, ParseStage;
    CrashKeepsSafe(s.fs, s.history, t.fs);
    match t.fs.root.Lookup(ACTIVE)
    case None =>
      assert t.history.live == s.history.live;
    case Some(id) =>
      assert t.fs.root.MayBind(ACTIVE, Some(id));
      assert GoodLink(t.fs, s.history, id);
      assert t.history.live == s.history.live;
  }

  lemma CompareKeeps(s: State, t: State)
    requires Inv(s) && Compare(s, t)
    ensures Inv(t)
  {
    hide GenerationName, StageName, ParseGeneration, ParseStage;
  }

  /** The index allocated is above every index `active` has ever named. */
  lemma AllocateKeeps(s: State, t: State)
    requires Inv(s) && Allocate(s, t)
    ensures Inv(t)
    ensures forall k :: k in s.history.live ==> k < t.call.generation
  {
    hide GenerationName, StageName, ParseGeneration, ParseStage;
    var h := s.history;
    if h.live != {} {
      var top :| Tops(s.fs, h.live, top);
      ParsesExactlyGenerations(GenerationName(top), top);
    }
  }

  lemma ClearStageKeeps(s: State, t: State)
    requires Inv(s) && ClearStage(s, t)
    ensures Inv(t)
  {
    hide GenerationName, StageName, ParseGeneration, ParseStage;
    var fs, h, name := s.fs, s.history, StageName(s.call.generation);
    if s.phase.ClearingStage? {
      if name in fs.root.cur { RemoveStageKeeps(fs, h, s.call.generation, t.fs); }
    } else {
      MakeStageKeeps(s, t);
    }
  }

  lemma MakeStageKeeps(s: State, t: State)
    requires Inv(s) && s.phase.MakingStage? && ClearStage(s, t)
    ensures Inv(t)
  {
    hide GenerationName, StageName, ParseGeneration, ParseStage;
    var n := s.call.generation;
    ParsesExactlyStages(StageName(n), n);
    ScratchIsNoGeneration(StageName(n));
    assert Safe(t.fs, t.history) && forall other :: s.fs.root.Lookup(other) != Some(s.fs.next) by {
      NewScratch(s.fs, s.history, StageName(n), Dir(EMPTY));
    }
    assert s.call.material[..0] == [];
    assert Contents([]) == map[];
    assert t.phase == Creating(0);
    forall other | other != StageName(n) ensures t.fs.root.Lookup(other) != Some(t.call.stage) {
      assert s.fs.root.Lookup(other) != Some(s.fs.next);
    }
  }

  /** The staging directory is named only at its staging entry, so no sealed generation is in it. */
  lemma StageIsMutable(fs: Fs, h: History, c: Call)
    requires Safe(fs, h) && fs.IsDir(c.stage) && fs.root.Lookup(StageName(c.generation)) == Some(c.stage)
    ensures Mutable(fs, h.accepted, c.stage)
  {
    hide GenerationName, StageName, ParseGeneration, ParseStage;
    forall k | Sealed(fs, k, h.accepted) ensures fs.root.cur[GenerationName(k)] != c.stage {
      NameClassesAreDisjoint(k, c.generation);
      assert fs.root.MayBind(StageName(c.generation), Some(c.stage));
    }
  }

  lemma CreateKeepsSafe(s: State, t: State)
    requires Inv(s) && s.phase.Creating? && s.phase.at < |s.call.material| && StageFile(s, t)
    ensures Safe(t.fs, s.history) && Quiet(s.fs, t.fs, s.history.accepted)
  {
    hide GenerationName, StageName, ParseGeneration, ParseStage;
    var fs, h, c, name := s.fs, s.history, s.call, s.call.material[s.phase.at].name;
    var made := Fs(fs.root, fs.nodes[fs.next := File([], false)], fs.next + 1);
    assert Safe(made, h) && Quiet(fs, made, h.accepted) by { NewNode(fs, h, File([], false)); }
    assert Mutable(made, h.accepted, c.stage) by { StageIsMutable(made, h, c); }
    var sub := fs.Sub(c.stage).Bind(name, Some(fs.next));
    forall id | sub.Names(id) ensures id in made.nodes {
      var n :| sub.MayBind(n, Some(id));
      assert fs.Sub(c.stage).MayBind(n, Some(id)) || id == fs.next;
      assert id != fs.next ==> fs.Sub(c.stage).Names(id);
    }
    SubsetDirWellFormed(made, c.stage, sub);
    assert t.fs == Fs(made.root, made.nodes[c.stage := Dir(sub)], made.next);
    NodeChange(made, t.fs, h, c.stage);
    QuietTransitive(fs, made, t.fs, h.accepted);
  }

  lemma CreateKeeps(s: State, t: State)
    requires Inv(s) && s.phase.Creating? && StageFile(s, t)
    ensures Inv(t)
  {
    hide GenerationName, StageName, ParseGeneration, ParseStage;
    var fs, c, i := s.fs, s.call, s.phase.at;
    if i == |c.material| {
      assert c.material[..i] == c.material;
    } else {
      assert Safe(t.fs, s.history) by { CreateKeepsSafe(s, t); }
      assert fs.next !in fs.nodes;
      forall e | e in t.fs.Sub(c.stage).cur && e != c.material[i].name
        ensures FlushedFile(t.fs, t.fs.Sub(c.stage).cur[e])
        ensures t.fs.nodes[t.fs.Sub(c.stage).cur[e]].content == Contents(c.material[..i])[e]
      {
        assert FlushedFile(fs, fs.Sub(c.stage).cur[e]);
      }
    }
  }

  lemma OpenFileIsMutable(fs: Fs, h: History, c: Call, i: nat)
    requires Safe(fs, h) && i < |c.material| && StagedAndOpen(fs, c, StageName(c.generation), i)
    ensures Mutable(fs, h.accepted, c.file)
    ensures forall e :: e in fs.Sub(c.stage).cur && e != c.material[i].name ==> fs.Sub(c.stage).cur[e] != c.file
  {
    hide GenerationName, StageName, ParseGeneration, ParseStage;
    forall k | Sealed(fs, k, h.accepted) ensures fs.root.cur[GenerationName(k)] != c.file {
      assert fs.IsDir(fs.root.cur[GenerationName(k)]);
    }
    forall e | e in fs.Sub(c.stage).cur && e != c.material[i].name ensures fs.Sub(c.stage).cur[e] != c.file {
      assert FlushedFile(fs, fs.Sub(c.stage).cur[e]);
    }
  }

  /** Replacing the open file's inode leaves the rest of the staging copy as it was. */
  lemma OpenFileChange(s: State, node: Inode)
    requires Safe(s.fs, s.history) && node.File?
    requires var i := match s.phase case Writing(i) => i case FlushingFile(i) => i case _ => |s.call.material|;
             i < |s.call.material| && StagedAndOpen(s.fs, s.call, StageName(s.call.generation), i)
    ensures var fs' := Fs(s.fs.root, s.fs.nodes[s.call.file := node], s.fs.next);
            && Safe(fs', s.history)
            && var i := match s.phase case Writing(i) => i case FlushingFile(i) => i case _ => |s.call.material|;
            && fs'.IsDir(s.call.stage) && fs'.Sub(s.call.stage) == s.fs.Sub(s.call.stage)
            && (forall e :: e in fs'.Sub(s.call.stage).cur && e != s.call.material[i].name ==>
                 FlushedFile(fs', fs'.Sub(s.call.stage).cur[e])
                 && fs'.nodes[fs'.Sub(s.call.stage).cur[e]].content == Contents(s.call.material[..i])[e])
  {
    hide GenerationName, StageName, ParseGeneration, ParseStage;
    var fs, h, c := s.fs, s.history, s.call;
    var i := match s.phase case Writing(i) => i case FlushingFile(i) => i case _ => |s.call.material|;
    var fs' := Fs(fs.root, fs.nodes[c.file := node], fs.next);
    OpenFileIsMutable(fs, h, c, i);
    forall x, id | fs'.IsDir(x) && fs'.Sub(x).Names(id) ensures id in fs'.nodes {
      assert fs.IsDir(x) && fs.Sub(x).Names(id);
    }
    forall id | fs'.root.Names(id) ensures id in fs'.nodes { assert fs.root.Names(id); }
    NodeChange(fs, fs', h, c.file);
    forall e | e in fs'.Sub(c.stage).cur && e != c.material[i].name
      ensures FlushedFile(fs', fs'.Sub(c.stage).cur[e])
      ensures fs'.nodes[fs'.Sub(c.stage).cur[e]].content == Contents(c.material[..i])[e]
    {
      assert FlushedFile(fs, fs.Sub(c.stage).cur[e]);
    }
  }

  lemma WriteKeeps(s: State, t: State)
    requires Inv(s) && s.phase.Writing? && StageFile(s, t)
    ensures Inv(t)
  {
    hide GenerationName, StageName, ParseGeneration, ParseStage;
    if t.phase.Writing? {
      var bytes :| t == s.(fs := s.fs.Write(s.call.file, bytes));
      OpenFileChange(s, File(bytes, false));
    } else {
      OpenFileChange(s, File(s.call.material[s.phase.at].bytes, false));
    }
  }

  lemma FlushFileKeeps(s: State, t: State)
    requires Inv(s) && s.phase.FlushingFile? && StageFile(s, t)
    ensures Inv(t)
  {
    hide GenerationName, StageName, ParseGeneration, ParseStage;
    var c, i := s.call, s.phase.at;
    OpenFileChange(s, File(c.material[i].bytes, true));
    ContentsGrow(c.material, i);
    assert t.fs == Fs(s.fs.root, s.fs.nodes[c.file := File(c.material[i].bytes, true)], s.fs.next);
    forall e | e in t.fs.Sub(c.stage).cur
      ensures FlushedFile(t.fs, t.fs.Sub(c.stage).cur[e])
      ensures t.fs.nodes[t.fs.Sub(c.stage).cur[e]].content == Contents(c.material[..i + 1])[e]
    {
    }
  }

  lemma AcceptMore(fs: Fs, h: History, contents: map<Name, Bytes>)
    requires Safe(fs, h)
    ensures Safe(fs, h.(accepted := h.accepted + {contents}))
  {
    hide GenerationName, StageName, ParseGeneration, ParseStage;
    var h' := h.(accepted := h.accepted + {contents});
    forall k | Sealed(fs, k, h.accepted) ensures Sealed(fs, k, h'.accepted) { }
    forall i | fs.root.MayBind(ACTIVE, Some(i)) ensures GoodLink(fs, h', i) { assert GoodLink(fs, h, i); }
    if h.live != {} { var top :| Tops(fs, h.live, top); assert Tops(fs, h'.live, top); }
  }

  lemma ValidateKeeps(s: State, t: State)
    requires Inv(s) && Validate(s, t)
    ensures Inv(t)
  {
    hide GenerationName, StageName, ParseGeneration, ParseStage, CheckMaterial, Contents, GoodLink, Safe, ReadBack;
    var c := s.call;
    assert c.material[..|c.material|] == c.material;
    match s.phase
    case ReadingBack => ReadBackIsExact(s.fs, c, StageName(c.generation), |c.material|);
    case Validating => AcceptMore(s.fs, s.history, Contents(c.copied));
    case Discarding =>
      if t.phase.Discarding? {
        RemoveStageKeeps(s.fs, s.history, c.generation, t.fs);
      }
    case _ =>
  }

  lemma FlushStageKeeps(s: State, t: State)
    requires Inv(s) && s.phase.FlushingStage? && Publish(s, t)
    ensures Inv(t)
  {
    hide GenerationName, StageName, ParseGeneration, ParseStage;
    var fs, c := s.fs, s.call;
    StageIsMutable(fs, s.history, c);
    var sub := fs.Sub(c.stage).Flushed();
    forall id | sub.Names(id) ensures id in fs.nodes {
      var n :| sub.MayBind(n, Some(id));
      assert fs.Sub(c.stage).MayBind(n, Some(id));
      assert fs.Sub(c.stage).Names(id);
    }
    SubsetDirWellFormed(fs, c.stage, sub);
    NodeChange(fs, t.fs, s.history, c.stage);
    forall e | e in t.fs.Sub(c.stage).cur
      ensures FlushedFile(t.fs, t.fs.Sub(c.stage).cur[e])
      ensures t.fs.nodes[t.fs.Sub(c.stage).cur[e]].content == Contents(c.material[..|c.material|])[e]
    {
      assert FlushedFile(fs, fs.Sub(c.stage).cur[e]);
    }
  }

  /** Finalising touches the two entries it renames and nothing `active` may name. */
  lemma PublishDelta(s: State)
    requires Inv(s) && s.phase.Publishing?
    ensures var from, to := StageName(s.call.generation), GenerationName(s.call.generation);
            var fs' := s.fs.Rename(from, to);
            && Safe(fs', s.history) && SealedKept(s.fs, fs', s.history.accepted) && LinksKept(s.fs, fs')
            && (forall v :: fs'.root.MayBind(ACTIVE, v) ==> s.fs.root.MayBind(ACTIVE, v))
            && (forall name :: name != from && name != to ==> fs'.root.Lookup(name) == s.fs.root.Lookup(name))
  {
    hide GenerationName, StageName, ParseGeneration, ParseStage, Sealed, GoodLink, Safe;
    var fs, h, c := s.fs, s.history, s.call;
    var from, to := StageName(c.generation), GenerationName(c.generation);
    var mid := Fs(fs.root.Bind(to, Some(c.stage)), fs.nodes, fs.next);
    var fs' := fs.Rename(from, to);
    assert Safe(mid, h) && SealedKept(fs, mid, h.accepted) && to !in fs.root.cur by {
      ParsesExactlyGenerations(to, c.generation);
      NameClassesAreDisjoint(c.generation, c.generation);
      StageIsMutable(fs, h, c);
      EntryChange(fs, h, to, Some(c.stage));
    }
    assert Safe(fs', h) && SealedKept(mid, fs', h.accepted) by {
      ParsesExactlyStages(from, c.generation);
      ScratchChange(mid, h, from, None);
    }
    assert SealedKept(fs, fs', h.accepted) by { SealedKeptTransitive(fs, mid, fs', h.accepted); }
    NameClassesAreDisjoint(c.generation, c.generation);
  }

  /** The rename that finalises the generation: nothing live is touched by either entry update. */
  lemma PublishKeeps(s: State, t: State)
    requires Inv(s) && s.phase.Publishing? && Publish(s, t)
    ensures Inv(t)
  {
    hide GenerationName, StageName, ParseGeneration, ParseStage;
    var fs, c := s.fs, s.call;
    var from, to := StageName(c.generation), GenerationName(c.generation);
    PublishDelta(s);
    NameClassesAreDisjoint(c.generation, c.generation);
    forall other | other != to ensures t.fs.root.Lookup(other) != Some(c.stage) {
      assert other != from ==> t.fs.root.Lookup(other) == fs.root.Lookup(other);
    }
  }

  /** The flush of the root after that rename is what seals the generation. */
  lemma FlushRootKeeps(s: State, t: State)
    requires Inv(s) && s.phase.FlushingRoot? && Publish(s, t)
    ensures Inv(t)
  {
    hide GenerationName, StageName, ParseGeneration, ParseStage;
    var c := s.call;
    RootFlush(s.fs, s.history);
    assert c.material[..|c.material|] == c.material;
    assert t.fs.Files(c.stage) == Contents(c.material) by {
      forall e | e in t.fs.Sub(c.stage).cur
        ensures e in t.fs.Files(c.stage) && t.fs.Files(c.stage)[e] == Contents(c.material)[e]
      {
        assert FlushedFile(s.fs, s.fs.Sub(c.stage).cur[e]);
      }
    }
    forall other | other != GenerationName(c.generation) ensures !t.fs.root.MayBind(other, Some(c.stage)) {
      assert s.fs.root.Lookup(other) != Some(c.stage);
    }
  }

  lemma LinkStepQuiet(s: State, t: State)
    requires Inv(s) && (s.phase.ClearingLink? || s.phase.MakingLink?) && Publish(s, t)
    ensures Safe(t.fs, s.history) && Quiet(s.fs, t.fs, s.history.accepted)
  {
    hide GenerationName, StageName, ParseGeneration, ParseStage;
    if s.phase.MakingLink? {
      NewScratch(s.fs, s.history, ACTIVE_TMP, Link(GenerationName(s.call.generation)));
    } else if ACTIVE_TMP in s.fs.root.cur {
      ScratchChange(s.fs, s.history, ACTIVE_TMP, None);
    }
  }

  lemma LinkStepKeeps(s: State, t: State)
    requires Inv(s) && (s.phase.ClearingLink? || s.phase.MakingLink?) && Publish(s, t)
    ensures Inv(t)
  {
    hide GenerationName, StageName, ParseGeneration, ParseStage;
    LinkStepQuiet(s, t);
    ParsesExactlyGenerations(GenerationName(s.call.generation), s.call.generation);
    assert GenerationSealed(s);
  }

  /** The swap rebinds `active` and its scratch name and nothing else. */
  lemma SwapBindings(fs: Fs, link: Id)
    requires fs.root.Lookup(ACTIVE_TMP) == Some(link)
    ensures var root' := fs.Rename(ACTIVE_TMP, ACTIVE).root;
            && (forall name, v :: name != ACTIVE && name != ACTIVE_TMP ==>
                root'.MayBind(name, v) == fs.root.MayBind(name, v))
            && (forall name :: name != ACTIVE && name != ACTIVE_TMP ==> root'.Lookup(name) == fs.root.Lookup(name))
            && (forall v :: root'.MayBind(ACTIVE, v) ==> fs.root.MayBind(ACTIVE, v) || v == Some(link))
            && (forall v :: root'.MayBind(ACTIVE_TMP, v) ==> fs.root.MayBind(ACTIVE_TMP, v) || v == None)
            && root'.Lookup(ACTIVE) == Some(link) && root'.Lookup(ACTIVE_TMP) == None
            && (forall name, v :: name != ACTIVE && name != ACTIVE_TMP ==>
                 ((name, v) in root'.stale <==> (name, v) in fs.root.stale))
  {
    hide GenerationName, StageName, ParseGeneration, ParseStage;
  }

  lemma SwapKeepsSealed(fs: Fs, h: History, link: Id, k: nat)
    requires Safe(fs, h) && Sealed(fs, k, h.accepted)
    requires fs.root.Lookup(ACTIVE_TMP) == Some(link) && LinkIndex(fs, link).Some?
    ensures var fs' := fs.Rename(ACTIVE_TMP, ACTIVE);
            && Sealed(fs', k, h.accepted) && fs'.root.cur[GenerationName(k)] == fs.root.cur[GenerationName(k)]
            && fs'.Files(fs.root.cur[GenerationName(k)]) == fs.Files(fs.root.cur[GenerationName(k)])
  {
    hide GenerationName, StageName, ParseGeneration, ParseStage;
    var fs' := fs.Rename(ACTIVE_TMP, ACTIVE);
    SwapBindings(fs, link);
    NameClassesAreDisjoint(k, k);
    var d := fs.root.cur[GenerationName(k)];
    assert fs'.root.Lookup(GenerationName(k)) == fs.root.Lookup(GenerationName(k));
    forall other | other != GenerationName(k) ensures !fs'.root.MayBind(other, Some(d)) {
      assert !fs.root.MayBind(other, Some(d));
    }
    SealedFrame(fs, fs', k, h.accepted, h.accepted);
  }

  lemma SwapKeepsSafe(s: State, t: State)
    requires Inv(s) && s.phase.Swapping? && Publish(s, t)
    ensures Safe(t.fs, t.history)
  {
    hide GenerationName, StageName, ParseGeneration, ParseStage;
    var fs, h, c := s.fs, s.history, s.call;
    SwapBindings(fs, c.link);
    SwapKeepsSealed(fs, h, c.link, c.generation);
    forall i | t.fs.root.MayBind(ACTIVE, Some(i)) ensures GoodLink(t.fs, t.history, i) {
      if fs.root.MayBind(ACTIVE, Some(i)) {
        assert GoodLink(fs, h, i);
        SwapKeepsSealed(fs, h, c.link, LinkIndex(fs, i).value);
      }
    }
    forall id | t.fs.root.Names(id) ensures id in t.fs.nodes {
      var name :| t.fs.root.MayBind(name, Some(id));
      assert fs.root.MayBind(name, Some(id)) || id == c.link;
    }
    forall x, id | t.fs.IsDir(x) && t.fs.Sub(x).Names(id) ensures id in t.fs.nodes {
      assert fs.IsDir(x) && fs.Sub(x).Names(id);
    }
    assert Tops(t.fs, t.history.live, c.generation);
  }

  /** The swap: whichever of the two links a crash leaves, it names a sealed generation. */
  lemma SwapKeeps(s: State, t: State)
    requires Inv(s) && s.phase.Swapping? && Publish(s, t)
    ensures Inv(t)
  {
    hide GenerationName, StageName, ParseGeneration, ParseStage;
    SwapKeepsSafe(s, t);
    SwapBindings(s.fs, s.call.link);
    SwapKeepsSealed(s.fs, s.history, s.call.link, s.call.generation);
  }

  lemma FlushSwapKeeps(s: State, t: State)
    requires Inv(s) && (s.phase.FlushingSwap? || s.phase.Reloading?) && Publish(s, t)
    ensures Inv(t)
  {
    hide GenerationName, StageName, ParseGeneration, ParseStage;
    if s.phase.FlushingSwap? { RootFlush(s.fs, s.history); }
  }

  lemma PruneKeeps(s: State, t: State)
    requires Inv(s) && Prune(s, t)
    ensures Inv(t)
  {
    hide GenerationName, StageName, ParseGeneration, ParseStage;
    if s.phase.Listing? {
    } else if s.phase.todo == {} {
      OnlyTheActiveRemains(s);
    } else {
      var name :| name in s.phase.todo && Visit(s, t, name, s.phase.todo);
      if Doomed(name, s.call.generation) && name in s.fs.root.cur {
        RemoveOldKeeps(s, name, t.fs);
        forall other | other in t.fs.root.cur ensures other in s.fs.root.cur {
          assert t.fs.root.Lookup(other).Some?;
        }
      }
    }
  }

  /** Once nothing doomed is left, `active` and the kept generation are the engine's only entries. */
  lemma OnlyTheActiveRemains(s: State)
    requires Inv(s) && s.phase == Pruning({})
    ensures forall name :: name in s.fs.root.cur && EngineName(name) ==>
              name == ACTIVE || name == GenerationName(s.call.generation)
  {
    hide GenerationName, StageName, ParseGeneration, ParseStage;
    var n := s.call.generation;
    forall name | name in s.fs.root.cur && EngineName(name)
      ensures name == ACTIVE || name == GenerationName(n)
    {
      assert !Doomed(name, n);
      if ParseGeneration(name) == Some(n) { ParsesExactlyGenerations(name, n); }
    }
  }

  lemma PublishingKeeps(s: State, t: State)
    requires Inv(s) && Publish(s, t)
    ensures Inv(t)
  {
    hide GenerationName, StageName, ParseGeneration, ParseStage;
    var phase := s.phase;
    assert phase.FlushingStage? || phase.Publishing? || phase.FlushingRoot? || phase.ClearingLink?
           || phase.MakingLink? || phase.Swapping? || phase.FlushingSwap? || phase.Reloading?;
    hide *;
    if phase.FlushingStage? { FlushStageKeeps(s, t); }
    else if phase.Publishing? { PublishKeeps(s, t); }
    else if phase.FlushingRoot? { FlushRootKeeps(s, t); }
    else if phase.Swapping? { SwapKeeps(s, t); }
    else if phase.FlushingSwap? || phase.Reloading? { FlushSwapKeeps(s, t); }
    else { LinkStepKeeps(s, t); }
  }

  lemma StagingFileKeeps(s: State, t: State)
    requires Inv(s) && StageFile(s, t)
    ensures Inv(t)
  {
    hide GenerationName, StageName, ParseGeneration, ParseStage;
    assert s.phase.Creating? || s.phase.Writing? || s.phase.FlushingFile?;
    hide *;
    if s.phase.Creating? { CreateKeeps(s, t); }
    else if s.phase.Writing? { WriteKeeps(s, t); }
    else { FlushFileKeeps(s, t); }
  }

  lemma WorkKeeps(s: State, t: State)
    requires Inv(s) && Work(s, t)
    ensures Inv(t)
  {
    hide GenerationName, StageName, ParseGeneration, ParseStage;
    assert Compare(s, t) || Allocate(s, t) || ClearStage(s, t) || StageFile(s, t)
           || Validate(s, t) || Publish(s, t) || Prune(s, t);
    hide *;
    if Compare(s, t) { CompareKeeps(s, t); }
    else if Allocate(s, t) { AllocateKeeps(s, t); }
    else if ClearStage(s, t) { ClearStageKeeps(s, t); }
    else if StageFile(s, t) { StagingFileKeeps(s, t); }
    else if Validate(s, t) { ValidateKeeps(s, t); }
    else if Publish(s, t) { PublishingKeeps(s, t); }
    else { PruneKeeps(s, t); }
  }

  /** One step of any kind keeps the invariant. */
  lemma StepKeepsInv(s: State, t: State)
    requires Inv(s) && Next(s, t)
    ensures Inv(t)
  {
    hide GenerationName, StageName, ParseGeneration, ParseStage;
    if Begin(s, t) { BeginKeeps(s, t); }
    else if Fail(s, t) { FailKeeps(s, t); }
    else if Stop(s, t) { StopKeeps(s, t); }
    else { WorkKeeps(s, t); }
  }
}
