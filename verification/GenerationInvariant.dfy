/**
 * What every step of an activation keeps, whatever fails and wherever it stops
 * (src/generation.rs:181-236).
 */
module GenerationInvariant {
  import opened Options
  import opened Decimal
  import opened GenerationNames
  import opened FileSystem
  import opened GenerationMachine

  // ---- what `active` may come to name ----

  ghost predicate FlushedFile(fs: Fs, id: Id) { id in fs.nodes && fs.nodes[id].File? && fs.nodes[id].synced }

  /** The entry of generation `k` is bound in every outcome of a crash. */
  ghost predicate Anchored(fs: Fs, k: nat) {
    k <= U64_MAX && GenerationName(k) in fs.root.cur && forall v :: (GenerationName(k), v) !in fs.root.stale
  }

  /** The entries and files of directory `d` are on disk. */
  ghost predicate Durable(fs: Fs, d: Id) {
    fs.IsDir(d) && fs.Sub(d).stale == {} && forall e :: e in fs.Sub(d).cur ==> FlushedFile(fs, fs.Sub(d).cur[e])
  }

  /** Generation `k` holds an accepted file set in every outcome, and no other entry reaches it. */
  ghost predicate Sealed(fs: Fs, k: nat, accepted: set<map<Name, Bytes>>) {
    && Anchored(fs, k)
    && var d := fs.root.cur[GenerationName(k)];
    && Durable(fs, d) && fs.Files(d) in accepted
    && (forall other :: other != GenerationName(k) ==> !fs.root.MayBind(other, Some(d)))
  }

  /** Inode `id` is a link to a sealed generation already counted as live. */
  ghost predicate GoodLink(fs: Fs, h: History, id: Id) {
    var k := LinkIndex(fs, id);
    k.Some? && k.value in h.live && Sealed(fs, k.value, h.accepted)
  }

  ghost predicate Tops(fs: Fs, live: set<nat>, top: nat) { Anchored(fs, top) && forall k :: k in live ==> k <= top }

  ghost predicate Safe(fs: Fs, h: History) {
    && fs.WellFormed()
    && (forall id :: fs.root.MayBind(ACTIVE, Some(id)) ==> GoodLink(fs, h, id))
    && (h.live != {} ==> exists top :: Tops(fs, h.live, top))
  }

  // ---- the call in progress ----

  /** The allocated index is above every index ever live, and above every generation present but `upto`. */
  ghost predicate Above(s: State) {
    && s.call.generation <= U64_MAX
    && (forall k :: k in s.history.live ==> k < s.call.generation)
  }

  ghost predicate Unclaimed(s: State) {
    forall name :: name in s.fs.root.cur && ParseGeneration(name).Some? ==>
        ParseGeneration(name).value < s.call.generation
  }

  /** The staging directory sits at `at` alone and holds the first `upto` files, flushed. */
  ghost predicate Staged(fs: Fs, c: Call, at: Name, upto: nat)
    requires upto <= |c.material|
  {
    && fs.IsDir(c.stage) && fs.root.Lookup(at) == Some(c.stage)
    && (forall other :: other != at ==> fs.root.Lookup(other) != Some(c.stage))
    && fs.Sub(c.stage).cur.Keys == Contents(c.material[..upto]).Keys
    && (forall e :: e in fs.Sub(c.stage).cur ==>
          FlushedFile(fs, fs.Sub(c.stage).cur[e])
          && fs.nodes[fs.Sub(c.stage).cur[e]].content == Contents(c.material[..upto])[e])
  }

  /** As `Staged`, with file `i` present but not flushed. */
  ghost predicate StagedAndOpen(fs: Fs, c: Call, at: Name, i: nat)
    requires i < |c.material|
  {
    && fs.IsDir(c.stage) && fs.root.Lookup(at) == Some(c.stage)
    && (forall other :: other != at ==> fs.root.Lookup(other) != Some(c.stage))
    && fs.Sub(c.stage).cur.Keys == Contents(c.material[..i]).Keys + {c.material[i].name}
    && fs.Sub(c.stage).cur[c.material[i].name] == c.file
    && c.file in fs.nodes && fs.nodes[c.file].File? && !fs.nodes[c.file].synced
    && (forall e :: e in fs.Sub(c.stage).cur && e != c.material[i].name ==>
          FlushedFile(fs, fs.Sub(c.stage).cur[e])
          && fs.nodes[fs.Sub(c.stage).cur[e]].content == Contents(c.material[..i])[e])
  }

  ghost predicate GenerationSealed(s: State) {
    && Sealed(s.fs, s.call.generation, s.history.accepted)
    && s.fs.Files(s.fs.root.cur[GenerationName(s.call.generation)]) == Contents(s.call.material)
  }

  /** `active` is the call's link, in every outcome once `settled`. */
  ghost predicate Switched(s: State, settled: bool) {
    && GenerationSealed(s)
    && s.fs.root.Lookup(ACTIVE) == Some(s.call.link)
    && LinkIndex(s.fs, s.call.link) == Some(s.call.generation)
    && s.call.generation in s.history.live
    && (forall k :: k in s.history.live ==> k <= s.call.generation)
    && ACTIVE_TMP !in s.fs.root.cur
    && (settled ==> forall v :: (ACTIVE, v) !in s.fs.root.stale)
  }

  ghost predicate Steady(s: State) {
    var c := s.call;
    var stage := StageName(c.generation);
    match s.phase
    case Idle => true
    case Finished(outcome) =>
      (match outcome
       case Failed(_) => true
       case Activated(n, changed) =>
         if changed then
           n == c.generation && Switched(s, true)
           && forall name :: name in s.fs.root.cur && EngineName(name) ==> name == ACTIVE || name == GenerationName(n)
         else
           && s.fs == c.start && CurrentGeneration(s.fs) == Answer(Some(n))
           && ActiveMatches(s.fs, c.material) == Answer(true))
    case Comparing => s.fs == c.start
    case Allocating => s.fs == c.start
    case ClearingStage => Above(s) && Unclaimed(s)
    case MakingStage => Above(s) && Unclaimed(s)
    case Creating(i) => Above(s) && Unclaimed(s) && i <= |c.material| && Staged(s.fs, c, stage, i)
    case Writing(i) => Above(s) && Unclaimed(s) && i < |c.material| && StagedAndOpen(s.fs, c, stage, i)
    case FlushingFile(i) =>
      && Above(s) && Unclaimed(s) && i < |c.material| && StagedAndOpen(s.fs, c, stage, i)
      && s.fs.nodes[c.file].content == c.material[i].bytes
    case ReadingBack => Above(s) && Unclaimed(s) && Staged(s.fs, c, stage, |c.material|)
    case Validating => Above(s) && Unclaimed(s) && Staged(s.fs, c, stage, |c.material|) && c.copied == c.material
    case Discarding => Above(s) && Unclaimed(s)
    case FlushingStage =>
      Above(s) && Unclaimed(s) && Staged(s.fs, c, stage, |c.material|) && Contents(c.material) in s.history.accepted
    case Publishing =>
      && Above(s) && Unclaimed(s) && Staged(s.fs, c, stage, |c.material|) && Contents(c.material) in s.history.accepted
      && s.fs.Sub(c.stage).stale == {}
    case FlushingRoot =>
      && Above(s) && Staged(s.fs, c, GenerationName(c.generation), |c.material|)
      && Contents(c.material) in s.history.accepted && s.fs.Sub(c.stage).stale == {}
    case ClearingLink => Above(s) && GenerationSealed(s)
    case MakingLink => Above(s) && GenerationSealed(s)
    case Swapping =>
      && Above(s) && GenerationSealed(s)
      && s.fs.root.Lookup(ACTIVE_TMP) == Some(c.link) && LinkIndex(s.fs, c.link) == Some(c.generation)
    case FlushingSwap => Switched(s, false)
    case Reloading => Switched(s, true)
    case Listing => Switched(s, true)
    case Pruning(todo) =>
      && Switched(s, true)
      && forall name :: name in s.fs.root.cur && Doomed(name, c.generation) ==> name in todo
  }

  ghost predicate Inv(s: State) {
    && Safe(s.fs, s.history)
    && (!s.phase.Idle? && (s.phase.Finished? ==> s.phase.outcome.Activated?) ==> CheckMaterial(s.call.material).None?)
    && Steady(s)
  }

  // ---- material ----

  lemma {:induction false} AcceptedMaterial(material: Material, i: nat)
    requires i <= |material| && FirstRefusal(material, i).None?
    ensures forall j, k :: i <= j < |material| && 0 <= k < j ==> material[k].name != material[j].name
    ensures forall j :: i <= j < |material| ==> IsSingleComponent(material[j].name)
    decreases |material| - i
  {
    if i < |material| { AcceptedMaterial(material, i + 1); }
  }

  lemma {:induction false} ContentsKeys(material: Material, name: Name)
    ensures name in Contents(material) <==> exists j :: 0 <= j < |material| && material[j].name == name
  {
    if material != [] {
      var n := |material| - 1;
      ContentsKeys(material[..n], name);
      if j :| 0 <= j < |material| && material[j].name == name { if j < n { assert material[..n][j].name == name; } }
    }
  }

  /** Adding the next file of an accepted set adds a new name and leaves the others. */
  lemma ContentsGrow(material: Material, i: nat)
    requires CheckMaterial(material).None? && i < |material|
    ensures material[i].name !in Contents(material[..i])
    ensures Contents(material[..i + 1]) == Contents(material[..i])[material[i].name := material[i].bytes]
  {
    AcceptedMaterial(material, 0);
    ContentsKeys(material[..i], material[i].name);
    assert material[..i + 1][..i] == material[..i];
  }

  /** Each file of an accepted set is in the contents under its own name. */
  lemma {:induction false} ContentsHold(material: Material, upto: nat, j: nat)
    requires CheckMaterial(material).None? && j < upto <= |material|
    ensures material[j].name in Contents(material[..upto])
    ensures Contents(material[..upto])[material[j].name] == material[j].bytes
    decreases upto
  {
    AcceptedMaterial(material, 0);
    ContentsGrow(material, upto - 1);
    if j < upto - 1 { ContentsHold(material, upto - 1, j); }
  }

  lemma {:induction false} ReadBackIsExact(fs: Fs, c: Call, at: Name, upto: nat)
    requires CheckMaterial(c.material).None? && upto <= |c.material| && Staged(fs, c, at, |c.material|)
    ensures ReadBack(fs, c.stage, c.material[..upto]) == Some(c.material[..upto])
    decreases upto
  {
    if upto > 0 {
      ReadBackIsExact(fs, c, at, upto - 1);
      assert c.material[..upto][..upto - 1] == c.material[..upto - 1];
      assert c.material[..|c.material|] == c.material;
      ContentsHold(c.material, |c.material|, upto - 1);
      var last := c.material[upto - 1];
      assert c.material[..upto][upto - 1] == last;
      assert last.name in fs.Files(c.stage) && fs.Files(c.stage)[last.name] == last.bytes;
      assert c.material[..upto] == c.material[..upto - 1] + [last];
    }
  }

  // ---- frames: what a primitive leaves alone ----

  /** A sealed generation stays sealed, with the same files, when its entry and inodes are left alone. */
  lemma SealedFrame(fs: Fs, fs': Fs, k: nat, accepted: set<map<Name, Bytes>>, accepted': set<map<Name, Bytes>>)
    requires Sealed(fs, k, accepted) && accepted <= accepted'
    requires GenerationName(k) in fs'.root.cur && fs'.root.cur[GenerationName(k)] == fs.root.cur[GenerationName(k)]
    requires forall v :: (GenerationName(k), v) !in fs'.root.stale
    requires var d := fs.root.cur[GenerationName(k)];
             && d in fs'.nodes && fs'.nodes[d] == fs.nodes[d]
             && (forall e :: e in fs.Sub(d).cur ==>
                   var f := fs.Sub(d).cur[e]; f in fs'.nodes && fs'.nodes[f] == fs.nodes[f])
             && (forall other :: other != GenerationName(k) ==> !fs'.root.MayBind(other, Some(d)))
    ensures Sealed(fs', k, accepted')
    ensures fs'.Files(fs.root.cur[GenerationName(k)]) == fs.Files(fs.root.cur[GenerationName(k)])
  {
    hide GenerationName, StageName, ParseGeneration, ParseStage;
    var d := fs.root.cur[GenerationName(k)];
    assert fs'.Sub(d) == fs.Sub(d);
    forall e | e in fs.Sub(d).cur ensures FlushedFile(fs', fs'.Sub(d).cur[e]) {
      assert FlushedFile(fs, fs.Sub(d).cur[e]);
    }
    assert fs'.Files(d) == fs.Files(d);
  }

  /** Inode `id` may change: it is new, an unflushed file, or no sealed generation's directory. */
  ghost predicate Mutable(fs: Fs, accepted: set<map<Name, Bytes>>, id: Id) {
    && (forall k :: Sealed(fs, k, accepted) ==> fs.root.cur[GenerationName(k)] != id)
    && (id in fs.nodes && fs.nodes[id].File? ==> !fs.nodes[id].synced)
    && (id in fs.nodes ==> !fs.nodes[id].Link?)
  }

  ghost predicate SealedKept(fs: Fs, fs': Fs, accepted: set<map<Name, Bytes>>) {
    forall k :: Sealed(fs, k, accepted) ==>
      && Sealed(fs', k, accepted)
      && fs'.root.cur[GenerationName(k)] == fs.root.cur[GenerationName(k)]
      && fs'.Files(fs.root.cur[GenerationName(k)]) == fs.Files(fs.root.cur[GenerationName(k)])
  }

  ghost predicate LinksKept(fs: Fs, fs': Fs) {
    forall id :: id in fs.nodes && fs.nodes[id].Link? ==> id in fs'.nodes && fs'.nodes[id] == fs.nodes[id]
  }

  /** The root entries only the engine uses between one generation and the next. */
  predicate Scratch(name: Name) { ParseStage(name).Some? || name == ACTIVE_TMP }

  /** A step that changes scratch entries and mutable inodes only. */
  ghost predicate Quiet(fs: Fs, fs': Fs, accepted: set<map<Name, Bytes>>) {
    && (forall v :: fs'.root.MayBind(ACTIVE, v) ==> fs.root.MayBind(ACTIVE, v))
    && (forall name :: !Scratch(name) ==> fs'.root.Lookup(name) == fs.root.Lookup(name))
    && SealedKept(fs, fs', accepted) && LinksKept(fs, fs')
  }

  lemma SealedKeptTransitive(a: Fs, b: Fs, c: Fs, accepted: set<map<Name, Bytes>>)
    requires SealedKept(a, b, accepted) && SealedKept(b, c, accepted)
    ensures SealedKept(a, c, accepted)
  {
    hide GenerationName, StageName, ParseGeneration, ParseStage;
    forall k | Sealed(a, k, accepted)
      ensures Sealed(c, k, accepted) && c.root.cur[GenerationName(k)] == a.root.cur[GenerationName(k)]
      ensures c.Files(a.root.cur[GenerationName(k)]) == a.Files(a.root.cur[GenerationName(k)])
    {
      assert Sealed(b, k, accepted);
    }
  }

  lemma QuietTransitive(a: Fs, b: Fs, c: Fs, accepted: set<map<Name, Bytes>>)
    requires Quiet(a, b, accepted) && Quiet(b, c, accepted)
    ensures Quiet(a, c, accepted)
  {
    hide GenerationName, StageName, ParseGeneration, ParseStage;
    SealedKeptTransitive(a, b, c, accepted);
  }

  lemma ScratchIsNoGeneration(name: Name)
    requires Scratch(name)
    ensures ParseGeneration(name).None? && name != ACTIVE && EngineName(name)
  {
    hide GenerationName, StageName, ParseGeneration, ParseStage;
    if ParseStage(name).Some? {
      var m := ParseStage(name).value;
      ParsesExactlyStages(name, m);
      NameClassesAreDisjoint(m, m);
    }
    if ParseGeneration(name).Some? {
      var k := ParseGeneration(name).value;
      ParsesExactlyGenerations(name, k);
      NameClassesAreDisjoint(k, k);
      if ParseStage(name).Some? { NameClassesAreDisjoint(k, ParseStage(name).value); }
    }
  }

  /** Changing one mutable inode keeps everything `active` may name. */
  lemma NodeChange(fs: Fs, fs': Fs, h: History, id: Id)
    requires Safe(fs, h) && Mutable(fs, h.accepted, id)
    requires fs'.WellFormed() && fs'.root == fs.root
    requires forall other :: other in fs.nodes && other != id ==>
        other in fs'.nodes && fs'.nodes[other] == fs.nodes[other]
    ensures Safe(fs', h) && Quiet(fs, fs', h.accepted)
  {
    hide GenerationName, StageName, ParseGeneration, ParseStage;
    forall k | Sealed(fs, k, h.accepted)
      ensures Sealed(fs', k, h.accepted)
      ensures fs'.root.cur[GenerationName(k)] == fs.root.cur[GenerationName(k)]
      ensures fs'.Files(fs.root.cur[GenerationName(k)]) == fs.Files(fs.root.cur[GenerationName(k)])
    {
      var d := fs.root.cur[GenerationName(k)];
      forall e | e in fs.Sub(d).cur
        ensures var f := fs.Sub(d).cur[e]; f in fs'.nodes && fs'.nodes[f] == fs.nodes[f]
      {
        assert FlushedFile(fs, fs.Sub(d).cur[e]);
      }
      SealedFrame(fs, fs', k, h.accepted, h.accepted);
    }
    forall i | fs'.root.MayBind(ACTIVE, Some(i)) ensures GoodLink(fs', h, i) {
      assert fs.root.MayBind(ACTIVE, Some(i));
      assert GoodLink(fs, h, i);
    }
    if h.live != {} { var top :| Tops(fs, h.live, top); assert Tops(fs', h.live, top); }
  }

  /** Rebinding a root entry that is neither `active` nor a present generation keeps it too. */
  lemma EntryChange(fs: Fs, h: History, name: Name, v: Option<Id>)
    requires Safe(fs, h) && name != ACTIVE && (ParseGeneration(name).None? || name !in fs.root.cur)
    requires v.Some? ==> v.value in fs.nodes
                         && forall k :: Sealed(fs, k, h.accepted) ==> fs.root.cur[GenerationName(k)] != v.value
    ensures var fs' := Fs(fs.root.Bind(name, v), fs.nodes, fs.next);
            Safe(fs', h) && SealedKept(fs, fs', h.accepted)
  {
    hide GenerationName, StageName, ParseGeneration, ParseStage;
    var fs' := Fs(fs.root.Bind(name, v), fs.nodes, fs.next);
    assert forall n, w :: n != name ==> fs'.root.MayBind(n, w) == fs.root.MayBind(n, w);
    assert forall w :: fs'.root.MayBind(name, w) ==> w == v || fs.root.MayBind(name, w);
    forall k | Anchored(fs, k)
      ensures Anchored(fs', k) && fs'.root.cur[GenerationName(k)] == fs.root.cur[GenerationName(k)]
      ensures name != GenerationName(k)
    {
      ParsesExactlyGenerations(GenerationName(k), k);
    }
    forall k | Sealed(fs, k, h.accepted)
      ensures Sealed(fs', k, h.accepted)
      ensures fs'.root.cur[GenerationName(k)] == fs.root.cur[GenerationName(k)]
      ensures fs'.Files(fs.root.cur[GenerationName(k)]) == fs.Files(fs.root.cur[GenerationName(k)])
    {
      SealedFrame(fs, fs', k, h.accepted, h.accepted);
    }
    forall i | fs'.root.MayBind(ACTIVE, Some(i)) ensures GoodLink(fs', h, i) {
      assert fs.root.MayBind(ACTIVE, Some(i));
      assert GoodLink(fs, h, i);
    }
    if h.live != {} { var top :| Tops(fs, h.live, top); assert Tops(fs', h.live, top); }
    forall id | fs'.root.Names(id) ensures id in fs'.nodes {
      var n :| fs'.root.MayBind(n, Some(id));
      assert fs.root.MayBind(n, Some(id)) || v == Some(id);
    }
    forall d, id | fs'.IsDir(d) && fs'.Sub(d).Names(id) ensures id in fs'.nodes {
      assert fs.IsDir(d) && fs.Sub(d).Names(id);
    }
  }

  lemma ScratchChange(fs: Fs, h: History, name: Name, v: Option<Id>)
    requires Safe(fs, h) && Scratch(name)
    requires v.Some? ==> v.value in fs.nodes
                         && forall k :: Sealed(fs, k, h.accepted) ==> fs.root.cur[GenerationName(k)] != v.value
    ensures var fs' := Fs(fs.root.Bind(name, v), fs.nodes, fs.next);
            Safe(fs', h) && Quiet(fs, fs', h.accepted)
  {
    hide GenerationName, StageName, ParseGeneration, ParseStage;
    ScratchIsNoGeneration(name);
    EntryChange(fs, h, name, v);
  }

  /** Flushing the root only narrows what a crash may leave. */
  lemma RootFlush(fs: Fs, h: History)
    requires Safe(fs, h)
    ensures Safe(fs.FlushRoot(), h) && Quiet(fs, fs.FlushRoot(), h.accepted)
  {
    hide GenerationName, StageName, ParseGeneration, ParseStage;
    var fs' := fs.FlushRoot();
    assert forall n, w :: fs'.root.MayBind(n, w) ==> fs.root.MayBind(n, w);
    forall k | Sealed(fs, k, h.accepted)
      ensures Sealed(fs', k, h.accepted)
      ensures fs'.root.cur[GenerationName(k)] == fs.root.cur[GenerationName(k)]
      ensures fs'.Files(fs.root.cur[GenerationName(k)]) == fs.Files(fs.root.cur[GenerationName(k)])
    {
      SealedFrame(fs, fs', k, h.accepted, h.accepted);
    }
    forall i | fs'.root.MayBind(ACTIVE, Some(i)) ensures GoodLink(fs', h, i) {
      assert fs.root.MayBind(ACTIVE, Some(i));
      assert GoodLink(fs, h, i);
    }
    if h.live != {} { var top :| Tops(fs, h.live, top); assert Tops(fs', h.live, top); }
    forall id | fs'.root.Names(id) ensures id in fs'.nodes {
      var n :| fs'.root.MayBind(n, Some(id));
      assert fs.root.MayBind(n, Some(id));
    }
    forall d, id | fs'.IsDir(d) && fs'.Sub(d).Names(id) ensures id in fs'.nodes {
      assert fs.IsDir(d) && fs.Sub(d).Names(id);
    }
  }

  // ---- a crash ----

  lemma CrashKeepsSealed(fs: Fs, fs': Fs, k: nat, accepted: set<map<Name, Bytes>>)
    requires Sealed(fs, k, accepted) && Crash(fs, fs')
    ensures Sealed(fs', k, accepted)
    ensures fs'.root.cur[GenerationName(k)] == fs.root.cur[GenerationName(k)]
    ensures fs'.Files(fs.root.cur[GenerationName(k)]) == fs.Files(fs.root.cur[GenerationName(k)])
  {
    hide GenerationName, StageName, ParseGeneration, ParseStage;
    var name := GenerationName(k);
    var d := fs.root.cur[name];
    assert fs.root.MayBind(name, if name in fs'.root.cur then Some(fs'.root.cur[name]) else None);
    assert InodeSurvives(fs.nodes[d], fs'.nodes[d]);
    var before, after := fs.Sub(d), fs'.Sub(d);
    forall e ensures (e in before.cur) == (e in after.cur) && (e in before.cur ==> before.cur[e] == after.cur[e]) {
      assert before.MayBind(e, if e in after.cur then Some(after.cur[e]) else None);
    }
    assert before.cur == after.cur;
    forall e | e in fs.Sub(d).cur
      ensures var f := fs.Sub(d).cur[e]; f in fs'.nodes && fs'.nodes[f] == fs.nodes[f]
    {
      var f := fs.Sub(d).cur[e];
      assert FlushedFile(fs, f);
      assert InodeSurvives(fs.nodes[f], fs'.nodes[f]);
    }
    assert forall n, w :: fs'.root.MayBind(n, w) ==> fs.root.MayBind(n, w);
    SealedFrame(fs, fs', k, accepted, accepted);
  }

  lemma CrashKeepsSafe(fs: Fs, h: History, fs': Fs)
    requires Safe(fs, h) && Crash(fs, fs')
    ensures Safe(fs', h)
  {
    hide GenerationName, StageName, ParseGeneration, ParseStage;
    CrashKeepsWellFormed(fs, fs');
    forall i | fs'.root.MayBind(ACTIVE, Some(i)) ensures GoodLink(fs', h, i) {
      assert fs.root.MayBind(ACTIVE, Some(i));
      assert GoodLink(fs, h, i);
      assert InodeSurvives(fs.nodes[i], fs'.nodes[i]);
      CrashKeepsSealed(fs, fs', LinkIndex(fs, i).value, h.accepted);
    }
    if h.live != {} {
      var top :| Tops(fs, h.live, top);
      var name := GenerationName(top);
      assert fs.root.MayBind(name, if name in fs'.root.cur then Some(fs'.root.cur[name]) else None);
      assert Tops(fs', h.live, top);
    }
  }
}
