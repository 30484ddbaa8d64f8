/**
 * A file system seen twice: what a running process reads, and what a crash may leave.
 *
 * A directory keeps its current entries and, for every name changed since its last
 * flush, the bindings that were superseded. A crash leaves each name bound to its
 * current value or to one of those, independently of every other name. A file's bytes
 * survive once the file has been flushed and are arbitrary until then. A symlink has
 * no bytes apart from its entry, so it survives with the entry naming it.
 */
module FileSystem {
  import opened Options
  import opened GenerationNames

  type Bytes = seq<bv8>
  type Id = nat

  datatype Directory = Directory(cur: map<Name, Id>, stale: set<(Name, Option<Id>)>) {
    function Lookup(name: Name): Option<Id> {
      if name in cur then Some(cur[name]) else None
    }

    /** Binds `name`, or unbinds it, leaving the old binding as one a crash may restore. */
    function Bind(name: Name, v: Option<Id>): Directory {
      Directory(if v.Some? then cur[name := v.value] else cur - {name}, stale + {(name, Lookup(name))})
    }

    /** Flushes the entries: what is bound now is what a crash leaves. */
    function Flushed(): Directory { Directory(cur, {}) }

    /** Whether a crash may leave `name` bound to `v`. */
    predicate MayBind(name: Name, v: Option<Id>) { v == Lookup(name) || (name, v) in stale }

    /** Whether `entries` is an outcome of a crash. */
    ghost predicate Survives(entries: map<Name, Id>) {
      forall name :: MayBind(name, if name in entries then Some(entries[name]) else None)
    }

    ghost predicate Names(id: Id) { exists name :: MayBind(name, Some(id)) }
  }

  const EMPTY := Directory(map[], {})

  datatype Inode =
    | File(content: Bytes, synced: bool)
    | Dir(dir: Directory)
    | Link(target: Name)

  /** The tree root's entries, every inode below it, and the next unused inode number. */
  datatype Fs = Fs(root: Directory, nodes: map<Id, Inode>, next: Id) {
    predicate IsDir(id: Id) { id in nodes && nodes[id].Dir? }

    function Sub(id: Id): Directory
      requires IsDir(id)
    {
      nodes[id].dir
    }

    // ---- the operations a process performs; each is one step ----

    function Mkdir(name: Name): Fs {
      Fs(root.Bind(name, Some(next)), nodes[next := Dir(EMPTY)], next + 1)
    }

    function Symlink(name: Name, target: Name): Fs {
      Fs(root.Bind(name, Some(next)), nodes[next := Link(target)], next + 1)
    }

    function Unlink(name: Name): Fs { Fs(root.Bind(name, None), nodes, next) }

    /** `rename` within the root: one step for a reader, two entry updates for a crash. */
    function Rename(from: Name, to: Name): Fs {
      Fs(root.Bind(to, root.Lookup(from)).Bind(from, None), nodes, next)
    }

    function FlushRoot(): Fs { Fs(root.Flushed(), nodes, next) }

    function CreateIn(dir: Id, name: Name): Fs
      requires IsDir(dir)
    {
      Fs(root, nodes[next := File([], false)][dir := Dir(Sub(dir).Bind(name, Some(next)))], next + 1)
    }

    function UnlinkIn(dir: Id, name: Name): Fs
      requires IsDir(dir)
    {
      Fs(root, nodes[dir := Dir(Sub(dir).Bind(name, None))], next)
    }

    function Write(file: Id, bytes: Bytes): Fs { Fs(root, nodes[file := File(bytes, false)], next) }

    function FlushFile(file: Id): Fs
      requires file in nodes && nodes[file].File?
    {
      Fs(root, nodes[file := File(nodes[file].content, true)], next)
    }

    function FlushDir(dir: Id): Fs
      requires IsDir(dir)
    {
      Fs(root, nodes[dir := Dir(Sub(dir).Flushed())], next)
    }

    // ---- reading ----

    /** The files of a directory and their bytes, as a reader sees them. */
    function Files(dir: Id): map<Name, Bytes> {
      if !IsDir(dir) then map[] else
        map name | name in Sub(dir).cur && Sub(dir).cur[name] in nodes && nodes[Sub(dir).cur[name]].File?
          :: nodes[Sub(dir).cur[name]].content
    }

    /** Every id named anywhere is an allocated inode. */
    ghost predicate WellFormed() {
      && (forall id :: id in nodes ==> id < next)
      && (forall id :: root.Names(id) ==> id in nodes)
      && (forall d, id :: IsDir(d) && Sub(d).Names(id) ==> id in nodes)
    }
  }

  /** What a crash may make of one inode. */
  ghost predicate InodeSurvives(before: Inode, after: Inode) {
    match before
    case File(content, synced) => after.File? && after.synced && (synced ==> after.content == content)
    case Dir(dir) => after.Dir? && after.dir.stale == {} && dir.Survives(after.dir.cur)
    case Link(target) => after == before
  }

  /** `after` is a state recovery may find when the machine stops in `before`. */
  ghost predicate Crash(before: Fs, after: Fs) {
    && after.root.stale == {} && before.root.Survives(after.root.cur)
    && after.nodes.Keys == before.nodes.Keys
    && (forall id :: id in before.nodes ==> InodeSurvives(before.nodes[id], after.nodes[id]))
    && after.next == before.next
  }

  lemma CrashKeepsWellFormed(before: Fs, after: Fs)
    requires before.WellFormed() && Crash(before, after)
    ensures after.WellFormed()
  {
    forall id | after.root.Names(id) ensures id in after.nodes {
      var name :| after.root.MayBind(name, Some(id));
      assert before.root.MayBind(name, Some(id));
    }
    forall d, id | after.IsDir(d) && after.Sub(d).Names(id) ensures id in after.nodes {
      assert InodeSurvives(before.nodes[d], after.nodes[d]);
      var name :| after.Sub(d).MayBind(name, Some(id));
      assert before.Sub(d).MayBind(name, Some(id));
    }
  }

  // ---- the same crash, told as a journal ----

  datatype Update = Update(name: Name, value: Option<Id>)

  function Apply(entries: map<Name, Id>, u: Update): map<Name, Id> {
    if u.value.Some? then entries[u.name := u.value.value] else entries - {u.name}
  }

  /** The directory after `updates`, the last flush having left `base`. */
  function Journaled(base: map<Name, Id>, updates: seq<Update>): Directory {
    if updates == [] then Directory(base, {})
    else
      var u := updates[|updates| - 1];
      Journaled(base, updates[..|updates| - 1]).Bind(u.name, u.value)
  }

  /** The entries after a crash that kept exactly the updates marked in `kept`. */
  function Replay(base: map<Name, Id>, updates: seq<Update>, kept: seq<bool>): map<Name, Id>
    requires |kept| == |updates|
  {
    if updates == [] then base
    else
      var n := |updates| - 1;
      var before := Replay(base, updates[..n], kept[..n]);
      if kept[n] then Apply(before, updates[n]) else before
  }

  /** Keeping any subset of the unflushed updates gives an outcome `Survives` admits. */
  lemma {:induction false} SubsetsSurvive(base: map<Name, Id>, updates: seq<Update>, kept: seq<bool>)
    requires |kept| == |updates|
    ensures Journaled(base, updates).Survives(Replay(base, updates, kept))
    decreases |updates|
  {
    if updates != [] {
      var n := |updates| - 1;
      SubsetsSurvive(base, updates[..n], kept[..n]);
      var d, before := Journaled(base, updates[..n]), Replay(base, updates[..n], kept[..n]);
      forall name
        ensures Journaled(base, updates).MayBind(name,
                  var e := Replay(base, updates, kept); if name in e then Some(e[name]) else None)
      {
        assert d.MayBind(name, if name in before then Some(before[name]) else None);
      }
    }
  }

  /** Taking the last update back gives an outcome the earlier updates admit. */
  lemma Undone(earlier: Directory, entries: map<Name, Id>, u: Update)
    requires u.value == if u.name in entries then Some(entries[u.name]) else None
    requires forall name :: name != u.name ==>
               earlier.MayBind(name, if name in entries then Some(entries[name]) else None)
    ensures var before := Apply(entries, Update(u.name, earlier.Lookup(u.name)));
            earlier.Survives(before) && Apply(before, u) == entries
  {
    var before := Apply(entries, Update(u.name, earlier.Lookup(u.name)));
    forall name ensures earlier.MayBind(name, if name in before then Some(before[name]) else None) {
      if name != u.name { assert earlier.MayBind(name, if name in entries then Some(entries[name]) else None); }
    }
  }

  /** And every outcome `Survives` admits is some subset of the unflushed updates. */
  lemma {:induction false} SurvivorsAreSubsets(base: map<Name, Id>, updates: seq<Update>, entries: map<Name, Id>)
    returns (kept: seq<bool>)
    requires Journaled(base, updates).Survives(entries)
    ensures |kept| == |updates| && Replay(base, updates, kept) == entries
    decreases |updates|
  {
    var d := Journaled(base, updates);
    if updates == [] {
      kept := [];
      forall name ensures (name in base) == (name in entries) && (name in base ==> base[name] == entries[name]) {
        assert d.MayBind(name, if name in entries then Some(entries[name]) else None);
      }
      assert base == entries;
    } else {
      var n := |updates| - 1;
      var u := updates[n];
      var earlier := Journaled(base, updates[..n]);
      var here := if u.name in entries then Some(entries[u.name]) else None;
      assert d.MayBind(u.name, here);
      forall name | name != u.name
        ensures earlier.MayBind(name, if name in entries then Some(entries[name]) else None)
      {
        assert d.MayBind(name, if name in entries then Some(entries[name]) else None);
      }
      if earlier.MayBind(u.name, here) {
        var rest := SurvivorsAreSubsets(base, updates[..n], entries);
        kept := rest + [false];
        assert kept[..n] == rest;
      } else {
        assert here == u.value;
        var before := Apply(entries, Update(u.name, earlier.Lookup(u.name)));
        Undone(earlier, entries, u);
        var rest := SurvivorsAreSubsets(base, updates[..n], before);
        kept := rest + [true];
        assert kept[..n] == rest;
      }
    }
  }
}
