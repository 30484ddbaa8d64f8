/** The artifact axis of an update: classification as a patch (src/engine.rs). */
module ArtifactDiff {
  import opened Options
  import opened Manifest
  import M = ModuleSpec

  datatype Record = Record(
    component: string, kind: M.ArtifactKind, dispositions: set<Disposition>, arch: Arch, path: string, sha256: string)

  datatype Changed = Changed(
    component: string, path: string, kind: M.ArtifactKind, dispositions: set<Disposition>, arch: Arch,
    installedSha256: string, newSha256: string)

  datatype Diff = Diff(added: seq<Record>, changed: seq<Changed>, removed: seq<Record>)

  function FromArtifact(a: Artifact): Record { Record(a.component, a.kind, a.dispositions, a.arch, a.path, a.sha256) }

  function FromArtifacts(artifacts: seq<Artifact>): (records: seq<Record>)
    ensures |records| == |artifacts| && forall i :: 0 <= i < |artifacts| ==> records[i] == FromArtifact(artifacts[i])
  {
    seq(|artifacts|, i requires 0 <= i < |artifacts| => FromArtifact(artifacts[i]))
  }

  /** The record a changed artifact leaves installed. */
  function NewRecord(c: Changed): Record { Record(c.component, c.kind, c.dispositions, c.arch, c.path, c.newSha256) }

  function ToChanged(existing: Record, r: Record): Changed {
    Changed(r.component, r.path, r.kind, r.dispositions, r.arch, existing.sha256, r.sha256)
  }

  // ---- agreement ----

  function LowerCase(c: char): char { if 'A' <= c <= 'Z' then (c as int + 32) as char else c }

  predicate EqualIgnoringCase(a: string, b: string) {
    |a| == |b| && forall i :: 0 <= i < |a| ==> LowerCase(a[i]) == LowerCase(b[i])
  }

  /** One character, or the upper and the lower form of one ASCII letter. */
  predicate SameLetter(c: char, d: char) {
    || c == d
    || ('A' <= c <= 'Z' && d as int == c as int + 32)
    || ('A' <= d <= 'Z' && c as int == d as int + 32)
  }

  predicate SameDigest(a: string, b: string) { |a| == |b| && forall i :: 0 <= i < |a| ==> SameLetter(a[i], b[i]) }

  lemma DigestsAgreeExactly(a: string, b: string)
    ensures EqualIgnoringCase(a, b) <==> SameDigest(a, b)
  {
    if |a| == |b| {
      forall i | 0 <= i < |a|
        ensures LowerCase(a[i]) == LowerCase(b[i]) <==> SameLetter(a[i], b[i])
      {
        LettersAgreeExactly(a[i], b[i]);
      }
      hide LowerCase, SameLetter;
    }
  }

  lemma LettersAgreeExactly(c: char, d: char)
    ensures LowerCase(c) == LowerCase(d) <==> SameLetter(c, d)
  {
  }

  /** What a hexadecimal digit of either case stands for. */
  function Nibble(c: char): (v: int)
    ensures 0 <= v < 16 <==> '0' <= c <= '9' || 'a' <= c <= 'f' || 'A' <= c <= 'F'
  {
    if '0' <= c <= '9' then c as int - '0' as int
    else if 'a' <= c <= 'f' then c as int - 'a' as int + 10
    else if 'A' <= c <= 'F' then c as int - 'A' as int + 10
    else -1
  }

  predicate IsSha256(s: string) { |s| == 64 && forall i :: 0 <= i < |s| ==> 0 <= Nibble(s[i]) < 16 }

  function DigestByte(s: string, i: nat): (b: nat)
    requires IsSha256(s) && i < 32
    ensures b < 256
  {
    16 * Nibble(s[2 * i]) + Nibble(s[2 * i + 1])
  }

  /** Two SHA-256 digests agree exactly when they spell the same 32 bytes. */
  lemma SameDigestIsSameBytes(a: string, b: string)
    requires IsSha256(a) && IsSha256(b)
    ensures SameDigest(a, b) <==> forall i :: 0 <= i < 32 ==> DigestByte(a, i) == DigestByte(b, i)
  {
    forall i | 0 <= i < 64
      ensures SameLetter(a[i], b[i]) <==> Nibble(a[i]) == Nibble(b[i])
    {
      assert 0 <= Nibble(a[i]) < 16 && 0 <= Nibble(b[i]) < 16;
    }
    hide SameLetter, Nibble;
    if forall i :: 0 <= i < 32 ==> DigestByte(a, i) == DigestByte(b, i) {
      forall i | 0 <= i < 64
        ensures Nibble(a[i]) == Nibble(b[i])
      {
        assert DigestByte(a, i / 2) == DigestByte(b, i / 2);
      }
    }
  }

  /** The full recorded tuple, up to the letter case of the digest. */
  predicate Agree(r: Record, s: Record) {
    && r.component == s.component && r.kind == s.kind && r.dispositions == s.dispositions && r.arch == s.arch
    && r.path == s.path && SameDigest(r.sha256, s.sha256)
  }

  type Installed = map<string, Record>

  predicate MapsAgree(a: Installed, b: Installed) {
    a.Keys == b.Keys && forall p :: p in a ==> Agree(a[p], b[p])
  }

  /** What is recorded at each path; a later record replaces an earlier one. */
  function PutAll(m: Installed, records: seq<Record>): Installed
    decreases records
  {
    if records == [] then m else PutAll(m[records[0].path := records[0]], records[1..])
  }

  function ByPath(records: seq<Record>): Installed { PutAll(map[], records) }

  function Paths(records: seq<Record>): set<string> { set r | r in records :: r.path }

  // ---- the classification ----

  function AddedOf(installed: Installed, incoming: seq<Record>): seq<Record> {
    if incoming == [] then []
    else (if incoming[0].path in installed then [] else [incoming[0]]) + AddedOf(installed, incoming[1..])
  }

  function ChangedOf(installed: Installed, incoming: seq<Record>): seq<Changed> {
    if incoming == [] then []
    else
      var r := incoming[0];
      (if r.path in installed && DiffersFrom(installed[r.path], r) then [ToChanged(installed[r.path], r)] else [])
      + ChangedOf(installed, incoming[1..])
  }

  /** The comparison the loop makes: the digest ignoring case, or any other field. */
  predicate DiffersFrom(existing: Record, r: Record) {
    || !EqualIgnoringCase(existing.sha256, r.sha256)
    || existing.component != r.component || existing.kind != r.kind
    || existing.dispositions != r.dispositions || existing.arch != r.arch
  }

  function RemovedOf(installed: seq<Record>, newPaths: set<string>): seq<Record> {
    if installed == [] then []
    else (if installed[0].path in newPaths then [] else [installed[0]]) + RemovedOf(installed[1..], newPaths)
  }

  function DiffOf(installed: seq<Record>, incoming: seq<Record>): Diff {
    Diff(AddedOf(ByPath(installed), incoming), ChangedOf(ByPath(installed), incoming),
        RemovedOf(installed, Paths(incoming)))
  }

  lemma AddedStep(done: seq<Record>, installed: Installed, rest: seq<Record>)
    requires rest != []
    ensures done + AddedOf(installed, rest)
            == (if rest[0].path in installed then done else done + [rest[0]]) + AddedOf(installed, rest[1..])
  {
    Regroup(done, if rest[0].path in installed then [] else [rest[0]], AddedOf(installed, rest[1..]));
  }

  lemma ChangedStep(done: seq<Changed>, installed: Installed, rest: seq<Record>)
    requires rest != []
    ensures done + ChangedOf(installed, rest)
            == (if rest[0].path in installed && DiffersFrom(installed[rest[0].path], rest[0])
                then done + [ToChanged(installed[rest[0].path], rest[0])] else done)
               + ChangedOf(installed, rest[1..])
  {
    hide DiffersFrom, ToChanged;
    var r := rest[0];
    var changes := r.path in installed && DiffersFrom(installed[r.path], r);
    var head := if changes then [ToChanged(installed[r.path], r)] else [];
    assert ChangedOf(installed, rest) == head + ChangedOf(installed, rest[1..]);
    Regroup(done, head, ChangedOf(installed, rest[1..]));
  }

  lemma Regroup<T>(done: seq<T>, head: seq<T>, tail: seq<T>)
    ensures done + (head + tail) == (done + head) + tail && (head == [] ==> done + head == done)
  {
  }

  lemma RemovedStep(done: seq<Record>, rest: seq<Record>, newPaths: set<string>)
    requires rest != []
    ensures done + RemovedOf(rest, newPaths)
            == (if rest[0].path in newPaths then done else done + [rest[0]]) + RemovedOf(rest[1..], newPaths)
  {
    Regroup(done, if rest[0].path in newPaths then [] else [rest[0]], RemovedOf(rest[1..], newPaths));
  }

  method DiffArtifacts(installed: seq<Record>, artifacts: seq<Artifact>) returns (diff: Diff)
    ensures diff == DiffOf(installed, FromArtifacts(artifacts))
  {
    hide ByPath, EqualIgnoringCase, AddedOf, ChangedOf, RemovedOf;
    ghost var incoming := FromArtifacts(artifacts);
    var installedByPath := ByPath(installed);
    var newPaths := set a | a in artifacts :: a.path;
    assert newPaths == Paths(incoming) by { PathsOfArtifacts(artifacts); }
    var added: seq<Record> := [];
    var changed: seq<Changed> := [];
    var removed: seq<Record> := [];
    assert incoming[0..] == incoming && installed[0..] == installed;
    assert added + AddedOf(installedByPath, incoming) == AddedOf(installedByPath, incoming);
    assert changed + ChangedOf(installedByPath, incoming) == ChangedOf(installedByPath, incoming);
    assert removed + RemovedOf(installed, newPaths) == RemovedOf(installed, newPaths);
    for i := 0 to |artifacts|
      invariant added + AddedOf(installedByPath, incoming[i..]) == AddedOf(installedByPath, incoming)
      invariant changed + ChangedOf(installedByPath, incoming[i..]) == ChangedOf(installedByPath, incoming)
    {
      var a := artifacts[i];
      assert incoming[i..][0] == FromArtifact(a) && incoming[i..][1..] == incoming[i + 1..];
      AddedStep(added, installedByPath, incoming[i..]);
      ChangedStep(changed, installedByPath, incoming[i..]);
      if a.path !in installedByPath {
        added := added + [FromArtifact(a)];
      } else {
        var existing := installedByPath[a.path];
        var shaDiffers := !EqualIgnoringCase(existing.sha256, a.sha256);
        var tupleDiffers := existing.component != a.component || existing.kind != a.kind
                            || existing.dispositions != a.dispositions || existing.arch != a.arch;
        if shaDiffers || tupleDiffers {
          changed := changed
                   + [Changed(a.component, a.path, a.kind, a.dispositions, a.arch, existing.sha256, a.sha256)];
        }
      }
    }
    for i := 0 to |installed|
      invariant removed + RemovedOf(installed[i..], newPaths) == RemovedOf(installed, newPaths)
    {
      assert installed[i..][0] == installed[i] && installed[i..][1..] == installed[i + 1..];
      RemovedStep(removed, installed[i..], newPaths);
      if installed[i].path !in newPaths { removed := removed + [installed[i]]; }
    }
    assert AddedOf(installedByPath, []) == [] && ChangedOf(installedByPath, []) == []
        && RemovedOf([], newPaths) == [] by {
      NothingLeft(installedByPath, newPaths);
    }
    assert incoming[|artifacts|..] == [] && installed[|installed|..] == [];
    assert added + [] == added && changed + [] == changed && removed + [] == removed;
    diff := Diff(added, changed, removed);
  }

  lemma NothingLeft(installed: Installed, newPaths: set<string>)
    ensures AddedOf(installed, []) == [] && ChangedOf(installed, []) == [] && RemovedOf([], newPaths) == []
  {
  }

  lemma PathsOfArtifacts(artifacts: seq<Artifact>)
    ensures (set a | a in artifacts :: a.path) == Paths(FromArtifacts(artifacts))
  {
    var records := FromArtifacts(artifacts);
    forall a | a in artifacts ensures a.path in Paths(records) {
      var i :| 0 <= i < |artifacts| && artifacts[i] == a;
      assert records[i] in records;
    }
    forall r | r in records ensures exists a :: a in artifacts && a.path == r.path {
      var i :| 0 <= i < |records| && records[i] == r;
      assert artifacts[i] in artifacts;
    }
  }

  // ---- what is in each list ----

  lemma {:induction false} AddedAre(installed: Installed, incoming: seq<Record>, r: Record)
    ensures r in AddedOf(installed, incoming) <==> r in incoming && r.path !in installed
  {
    if incoming != [] {
      AddedAre(installed, incoming[1..], r);
      assert r in incoming <==> r == incoming[0] || r in incoming[1..];
    }
  }

  lemma {:induction false} ChangedAre(installed: Installed, incoming: seq<Record>, c: Changed)
    ensures c in ChangedOf(installed, incoming)
            <==> exists r :: r in incoming && r.path in installed && DiffersFrom(installed[r.path], r)
                             && c == ToChanged(installed[r.path], r)
  {
    hide DiffersFrom;
    if incoming != [] {
      ChangedAre(installed, incoming[1..], c);
      assert forall r :: r in incoming <==> r == incoming[0] || r in incoming[1..];
    }
  }

  lemma {:induction false} RemovedAre(installed: seq<Record>, newPaths: set<string>, r: Record)
    ensures r in RemovedOf(installed, newPaths) <==> r in installed && r.path !in newPaths
  {
    if installed != [] {
      RemovedAre(installed[1..], newPaths, r);
      assert r in installed <==> r == installed[0] || r in installed[1..];
    }
  }

  /** Two records at one path are the same record. */
  predicate PathsDetermine(records: seq<Record>) {
    forall r, s :: r in records && s in records && r.path == s.path ==> r == s
  }

  lemma {:induction false} PutAllIs(m: Installed, records: seq<Record>)
    ensures PutAll(m, records).Keys == m.Keys + Paths(records)
    ensures forall p :: p in m && p !in Paths(records) ==> PutAll(m, records)[p] == m[p]
    ensures forall p :: p in Paths(records) ==> PutAll(m, records)[p] in records && PutAll(m, records)[p].path == p
    decreases records
  {
    if records != [] {
      var n := m[records[0].path := records[0]];
      PutAllIs(n, records[1..]);
      assert forall r :: r in records <==> r == records[0] || r in records[1..];
    }
  }

  lemma PutAllAt(m: Installed, records: seq<Record>, r: Record)
    requires PathsDetermine(records) && r in records
    ensures r.path in PutAll(m, records) && PutAll(m, records)[r.path] == r
  {
    PutAllIs(m, records);
    assert r.path in Paths(records);
  }

  /** The last record at its path, which is the one a lookup finds. */
  predicate IsCurrent(installed: seq<Record>, e: Record) {
    exists i ::
      && 0 <= i < |installed| && installed[i] == e
      && forall j :: i < j < |installed| ==> installed[j].path != e.path
  }

  lemma {:induction false} LastIsCurrent(m: Installed, records: seq<Record>, p: string) returns (i: nat)
    requires p in Paths(records)
    ensures i < |records| && records[i].path == p && forall j :: i < j < |records| ==> records[j].path != p
    ensures p in PutAll(m, records) && PutAll(m, records)[p] == records[i]
    decreases records
  {
    var n := m[records[0].path := records[0]];
    PutAllIs(n, records[1..]);
    assert forall r :: r in records <==> r == records[0] || r in records[1..];
    if p in Paths(records[1..]) {
      var rest := LastIsCurrent(n, records[1..], p);
      i := rest + 1;
      forall j | i < j < |records|
        ensures records[j].path != p
      {
        assert records[1..][j - 1] == records[j];
      }
    } else {
      i := 0;
      forall j | 0 < j < |records|
        ensures records[j].path != p
      {
        assert records[1..][j - 1] == records[j] && records[j] in records[1..];
      }
    }
  }

  lemma CurrentIs(installed: seq<Record>, e: Record)
    ensures IsCurrent(installed, e) <==> e.path in ByPath(installed) && ByPath(installed)[e.path] == e
  {
    hide PutAll;
    PutAllIs(map[], installed);
    if e in installed {
      assert e.path in Paths(installed);
      var i := LastIsCurrent(map[], installed, e.path);
      if IsCurrent(installed, e) {
        var k :| && 0 <= k < |installed| && installed[k] == e
                 && forall j :: k < j < |installed| ==> installed[j].path != e.path;
        assert i == k;
      }
    }
  }

  /** What makes an artifact at an installed path a changed one. */
  predicate HasChanged(e: Record, a: Artifact) {
    || e.component != a.component || e.kind != a.kind || e.dispositions != a.dispositions || e.arch != a.arch
    || !SameDigest(e.sha256, a.sha256)
  }

  /** Added is every artifact at a path with no record, recorded field by field. */
  lemma AddedExactly(installed: seq<Record>, artifacts: seq<Artifact>, r: Record)
    ensures r in DiffOf(installed, FromArtifacts(artifacts)).added
            <==> exists a ::
                   && a in artifacts && (forall e :: e in installed ==> e.path != a.path)
                   && r == Record(a.component, a.kind, a.dispositions, a.arch, a.path, a.sha256)
  {
    hide ByPath, AddedOf;
    var incoming := FromArtifacts(artifacts);
    AddedAre(ByPath(installed), incoming, r);
    ByPathIs(installed);
    if r in incoming {
      var i :| 0 <= i < |incoming| && incoming[i] == r;
      assert artifacts[i] in artifacts && r == FromArtifact(artifacts[i]);
    }
    forall a | a in artifacts
      ensures FromArtifact(a) in incoming
    {
      ArtifactIsIncoming(artifacts, a);
    }
  }

  lemma ArtifactIsIncoming(artifacts: seq<Artifact>, a: Artifact)
    requires a in artifacts
    ensures FromArtifact(a) in FromArtifacts(artifacts)
  {
    var i :| 0 <= i < |artifacts| && artifacts[i] == a;
    assert FromArtifacts(artifacts)[i] == FromArtifact(a);
  }

  lemma IncomingIsArtifact(artifacts: seq<Artifact>, r: Record) returns (a: Artifact)
    requires r in FromArtifacts(artifacts)
    ensures a in artifacts && r == FromArtifact(a)
  {
    var i :| 0 <= i < |artifacts| && FromArtifacts(artifacts)[i] == r;
    a := artifacts[i];
  }

  /** Changed is every artifact that differs from the record at its path, with both digests. */
  lemma ChangedExactly(installed: seq<Record>, artifacts: seq<Artifact>, c: Changed)
    ensures c in DiffOf(installed, FromArtifacts(artifacts)).changed
            <==> exists a, e ::
                   && a in artifacts && IsCurrent(installed, e) && e.path == a.path && HasChanged(e, a)
                   && c == Changed(a.component, a.path, a.kind, a.dispositions, a.arch, e.sha256, a.sha256)
  {
    hide ByPath, ChangedOf, FromArtifacts, IsCurrent, HasChanged, DiffersFrom;
    var m, incoming := ByPath(installed), FromArtifacts(artifacts);
    ByPathIs(installed);
    ChangedAre(m, incoming, c);
    if r :| r in incoming && r.path in m && DiffersFrom(m[r.path], r) && c == ToChanged(m[r.path], r) {
      var a := IncomingIsArtifact(artifacts, r);
      CurrentIs(installed, m[r.path]);
      ChangesAre(m[r.path], a);
      assert a in artifacts && IsCurrent(installed, m[r.path]) && HasChanged(m[r.path], a);
    }
    if a, e :| && a in artifacts && IsCurrent(installed, e) && e.path == a.path && HasChanged(e, a)
               && c == Changed(a.component, a.path, a.kind, a.dispositions, a.arch, e.sha256, a.sha256) {
      ArtifactIsIncoming(artifacts, a);
      CurrentIs(installed, e);
      ChangesAre(e, a);
      assert FromArtifact(a) in incoming;
    }
  }

  lemma ChangesAre(e: Record, a: Artifact)
    requires e.path == a.path
    ensures DiffersFrom(e, FromArtifact(a)) <==> HasChanged(e, a)
  {
    DigestsAgreeExactly(e.sha256, a.sha256);
    hide EqualIgnoringCase, SameDigest;
  }

  /** Removed is every record at a path no artifact has. */
  lemma RemovedExactly(installed: seq<Record>, artifacts: seq<Artifact>, r: Record)
    ensures r in DiffOf(installed, FromArtifacts(artifacts)).removed
            <==> r in installed && forall a :: a in artifacts ==> a.path != r.path
  {
    PathsOfArtifacts(artifacts);
    hide FromArtifacts, RemovedOf, ByPath;
    RemovedAre(installed, Paths(FromArtifacts(artifacts)), r);
  }

  // ---- the patch ----

  function NewRecords(changed: seq<Changed>): (records: seq<Record>)
    ensures |records| == |changed| && forall i :: 0 <= i < |changed| ==> records[i] == NewRecord(changed[i])
  {
    seq(|changed|, i requires 0 <= i < |changed| => NewRecord(changed[i]))
  }

  /** Remove what was removed, replace what changed, insert what was added. */
  function Apply(installed: Installed, diff: Diff): Installed {
    PutAll(PutAll(installed - Paths(diff.removed), NewRecords(diff.changed)), diff.added)
  }

  lemma ByPathIs(records: seq<Record>)
    ensures ByPath(records).Keys == Paths(records)
    ensures forall p :: p in ByPath(records) ==> ByPath(records)[p] in records && ByPath(records)[p].path == p
  {
    PutAllIs(map[], records);
  }

  lemma NewRecordsAre(installed: Installed, incoming: seq<Record>, r: Record)
    requires forall p :: p in installed ==> installed[p].path == p
    ensures r in NewRecords(ChangedOf(installed, incoming))
            <==> r in incoming && r.path in installed && DiffersFrom(installed[r.path], r)
  {
    hide DiffersFrom;
    var changed := ChangedOf(installed, incoming);
    var records := NewRecords(changed);
    if r in records {
      var i :| 0 <= i < |records| && records[i] == r;
      ChangedAre(installed, incoming, changed[i]);
      assert changed[i] in changed;
    }
    if r in incoming && r.path in installed && DiffersFrom(installed[r.path], r) {
      var c := ToChanged(installed[r.path], r);
      ChangedAre(installed, incoming, c);
      var i :| 0 <= i < |changed| && changed[i] == c;
      assert records[i] == NewRecord(c) == r;
    }
  }

  lemma DiffersIsDisagree(existing: Record, r: Record)
    requires existing.path == r.path
    ensures DiffersFrom(existing, r) <==> !Agree(existing, r)
  {
    DigestsAgreeExactly(existing.sha256, r.sha256);
    hide EqualIgnoringCase, SameDigest;
  }

  lemma AgreeIsReflexive(r: Record)
    ensures Agree(r, r)
  {
  }

  /** One path of the patched map, case by case. */
  lemma PatchAt(installed: seq<Record>, incoming: seq<Record>, p: string)
    requires PathsDetermine(incoming)
    ensures var patched := Apply(ByPath(installed), DiffOf(installed, incoming));
            && (p in patched <==> p in ByPath(incoming))
            && (p in patched ==> Agree(patched[p], ByPath(incoming)[p]))
  {
    hide Agree, DiffersFrom, ByPath, PutAll;
    var m, diff := ByPath(installed), DiffOf(installed, incoming);
    ByPathIs(installed);
    ByPathIs(incoming);
    var changed := NewRecords(diff.changed);
    forall r ensures r in changed <==> r in incoming && r.path in m && DiffersFrom(m[r.path], r) {
      NewRecordsAre(m, incoming, r);
    }
    forall r ensures r in diff.added <==> r in incoming && r.path !in m { AddedAre(m, incoming, r); }
    forall r ensures r in diff.removed <==> r in installed && r.path !in Paths(incoming) {
      RemovedAre(installed, Paths(incoming), r);
    }
    var base := m - Paths(diff.removed);
    PutAllIs(base, changed);
    PutAllIs(PutAll(base, changed), diff.added);
    hide DiffOf;
    if p in ByPath(incoming) {
      var r := ByPath(incoming)[p];
      AgreeIsReflexive(r);
      if p !in m {
        PutAllAt(PutAll(base, changed), diff.added, r);
      } else {
        DiffersIsDisagree(m[p], r);
        if DiffersFrom(m[p], r) { PutAllAt(base, changed, r); }
      }
    }
  }

  /** The difference is a patch: it turns what is installed into the new manifest, up to digest letter case. */
  lemma DiffIsAPatch(installed: seq<Record>, incoming: seq<Record>)
    requires PathsDetermine(incoming)
    ensures MapsAgree(Apply(ByPath(installed), DiffOf(installed, incoming)), ByPath(incoming))
  {
    hide Apply, ByPath, DiffOf, Agree, PathsDetermine;
    var patched := Apply(ByPath(installed), DiffOf(installed, incoming));
    forall p ensures (p in patched <==> p in ByPath(incoming))
        && (p in patched ==> Agree(patched[p], ByPath(incoming)[p])) {
      PatchAt(installed, incoming, p);
    }
  }

  /** No path is in two of the three lists. */
  lemma DiffIsDisjoint(installed: seq<Record>, incoming: seq<Record>)
    ensures var diff := DiffOf(installed, incoming);
            && Paths(diff.added) !! Paths(NewRecords(diff.changed))
            && Paths(diff.added) !! Paths(diff.removed)
            && Paths(NewRecords(diff.changed)) !! Paths(diff.removed)
  {
    hide ByPath, DiffersFrom;
    var m, diff := ByPath(installed), DiffOf(installed, incoming);
    ByPathIs(installed);
    forall r ensures r in NewRecords(diff.changed) <==> r in incoming && r.path in m && DiffersFrom(m[r.path], r) {
      NewRecordsAre(m, incoming, r);
    }
    forall r ensures r in diff.added <==> r in incoming && r.path !in m { AddedAre(m, incoming, r); }
    forall r ensures r in diff.removed <==> r in installed && r.path !in Paths(incoming) {
      RemovedAre(installed, Paths(incoming), r);
    }
    hide DiffOf;
  }

  /** Nothing is reported exactly when the two already agree. */
  lemma EmptyExactlyWhenAgreed(installed: seq<Record>, incoming: seq<Record>)
    requires PathsDetermine(incoming)
    ensures DiffOf(installed, incoming) == Diff([], [], []) <==> MapsAgree(ByPath(installed), ByPath(incoming))
  {
    hide ByPath, DiffersFrom, Agree;
    var m, n, diff := ByPath(installed), ByPath(incoming), DiffOf(installed, incoming);
    if diff == Diff([], [], []) {
      DiffIsAPatch(installed, incoming);
      NothingToApply(m);
    }
    if MapsAgree(m, n) {
      ByPathIs(installed);
      ByPathIs(incoming);
      forall r ensures r !in diff.added { AddedAre(m, incoming, r); }
      forall r ensures r !in diff.removed { RemovedAre(installed, Paths(incoming), r); }
      forall c ensures c !in diff.changed {
        ChangedAre(m, incoming, c);
        forall r | r in incoming && r.path in m ensures !DiffersFrom(m[r.path], r) {
          PutAllAt(map[], incoming, r);
          assert n[r.path] == r by { ByPathAt(incoming, r); }
          DiffersIsDisagree(m[r.path], r);
        }
      }
      NothingIn(diff);
    }
  }

  lemma ByPathAt(incoming: seq<Record>, r: Record)
    requires PathsDetermine(incoming) && r in incoming
    ensures r.path in ByPath(incoming) && ByPath(incoming)[r.path] == r
  {
    PutAllAt(map[], incoming, r);
  }

  lemma NothingToApply(m: Installed)
    ensures Apply(m, Diff([], [], [])) == m
  {
    assert m - Paths([]) == m;
  }

  lemma NothingIn(diff: Diff)
    requires (forall r :: r !in diff.added) && (forall c :: c !in diff.changed) && (forall r :: r !in diff.removed)
    ensures diff == Diff([], [], [])
  {
    SomeMember(diff.added);
    SomeMember(diff.changed);
    SomeMember(diff.removed);
  }

  // ---- what reaches the apply engine ----

  datatype InstallItem = InstallItem(path: string, component: string, kind: M.ArtifactKind)

  function InstallRecords(records: seq<Record>): seq<InstallItem> {
    if records == [] then []
    else (if Install in records[0].dispositions
        then [InstallItem(records[0].path, records[0].component, records[0].kind)] else [])
         + InstallRecords(records[1..])
  }

  function StageRecords(records: seq<Record>): seq<string> {
    if records == [] then []
    else (if Stage in records[0].dispositions then [records[0].path] else []) + StageRecords(records[1..])
  }

  /** Changed artifacts first, then added ones. */
  function ChangedInstallArtifacts(diff: Diff): seq<InstallItem> {
    InstallRecords(NewRecords(diff.changed)) + InstallRecords(diff.added)
  }

  function ChangedStageArtifacts(diff: Diff): seq<string> {
    StageRecords(NewRecords(diff.changed)) + StageRecords(diff.added)
  }

  lemma {:induction false} InstallRecordsAre(records: seq<Record>, item: InstallItem)
    ensures item in InstallRecords(records)
            <==> exists r ::
                   r in records && Install in r.dispositions && item == InstallItem(r.path, r.component, r.kind)
  {
    if records != [] {
      InstallRecordsAre(records[1..], item);
      assert forall r :: r in records <==> r == records[0] || r in records[1..];
    }
  }

  lemma {:induction false} StageRecordsAre(records: seq<Record>, path: string)
    ensures path in StageRecords(records) <==> exists r :: r in records && Stage in r.dispositions && path == r.path
  {
    if records != [] {
      StageRecordsAre(records[1..], path);
      assert forall r :: r in records <==> r == records[0] || r in records[1..];
    }
  }

  /** Every artifact of an accepted manifest that is new or changed reaches at least one of the two lists. */
  lemma NothingIsDropped(installed: seq<Record>, m: Manifest, r: Record)
    requires IsValid(m)
    requires var diff := DiffOf(installed, FromArtifacts(m.artifacts)); r in diff.added || r in NewRecords(diff.changed)
    ensures var diff := DiffOf(installed, FromArtifacts(m.artifacts));
            || InstallItem(r.path, r.component, r.kind) in ChangedInstallArtifacts(diff)
            || r.path in ChangedStageArtifacts(diff)
  {
    var incoming, diff := FromArtifacts(m.artifacts), DiffOf(installed, FromArtifacts(m.artifacts));
    ByPathIs(installed);
    AddedAre(ByPath(installed), incoming, r);
    NewRecordsAre(ByPath(installed), incoming, r);
    DispositionsNonEmpty(m, r);
    hide *;
    var item := InstallItem(r.path, r.component, r.kind);
    InstallRecordsAre(NewRecords(diff.changed), item);
    InstallRecordsAre(diff.added, item);
    StageRecordsAre(NewRecords(diff.changed), r.path);
    StageRecordsAre(diff.added, r.path);
    ListsAre(diff);
  }

  /** The two lists hold exactly the changed and added artifacts of their disposition. */
  lemma ListsHoldExactly(diff: Diff, item: InstallItem, path: string)
    ensures item in ChangedInstallArtifacts(diff)
            <==> exists r :: (r in NewRecords(diff.changed) || r in diff.added) && Install in r.dispositions
                             && item == InstallItem(r.path, r.component, r.kind)
    ensures path in ChangedStageArtifacts(diff)
            <==> exists r ::
                   (r in NewRecords(diff.changed) || r in diff.added) && Stage in r.dispositions && path == r.path
  {
    ListsAre(diff);
    hide *;
    InstallRecordsAre(NewRecords(diff.changed), item);
    InstallRecordsAre(diff.added, item);
    StageRecordsAre(NewRecords(diff.changed), path);
    StageRecordsAre(diff.added, path);
  }

  /** A difference with nothing added or changed is exactly one that gives the apply engine nothing to do. */
  lemma NoopAppliesNothing(installed: seq<Record>, m: Manifest)
    requires IsValid(m)
    ensures var diff := DiffOf(installed, FromArtifacts(m.artifacts));
            diff.added == [] && diff.changed == [] <==>
                ChangedInstallArtifacts(diff) == [] && ChangedStageArtifacts(diff) == []
  {
    var diff := DiffOf(installed, FromArtifacts(m.artifacts));
    hide DiffOf, IsValid, FromArtifacts;
    if diff.added != [] {
      assert diff.added[0] in diff.added;
      NothingIsDropped(installed, m, diff.added[0]);
    }
    if diff.changed != [] {
      assert NewRecords(diff.changed)[0] in NewRecords(diff.changed);
      NothingIsDropped(installed, m, NewRecords(diff.changed)[0]);
    }
  }

  lemma ListsAre(diff: Diff)
    ensures ChangedInstallArtifacts(diff) == InstallRecords(NewRecords(diff.changed)) + InstallRecords(diff.added)
    ensures ChangedStageArtifacts(diff) == StageRecords(NewRecords(diff.changed)) + StageRecords(diff.added)
  {
  }

  lemma DispositionsNonEmpty(m: Manifest, r: Record)
    requires IsValid(m) && r in FromArtifacts(m.artifacts)
    ensures Install in r.dispositions || Stage in r.dispositions
  {
    hide IsSafeArchivePath, IsValidCommit, CheckSpecFormat, M.IsValidSpec;
    var i :| 0 <= i < |m.artifacts| && FromArtifacts(m.artifacts)[i] == r;
    assert IsValidArtifact(m.artifacts[i], m.format);
    var d :| d in r.dispositions;
    assert d == Install || d == Stage;
  }

  /** An accepted manifest's records satisfy what the patch theorem asks of them. */
  lemma ManifestPathsDetermine(m: Manifest)
    requires IsValid(m)
    ensures PathsDetermine(FromArtifacts(m.artifacts))
  {
    hide IsValidArtifact;
    var records := FromArtifacts(m.artifacts);
    assert UniquePaths(m.artifacts);
    forall r, s | r in records && s in records && r.path == s.path ensures r == s {
      var i :| 0 <= i < |records| && records[i] == r;
      var j :| 0 <= j < |records| && records[j] == s;
      assert m.artifacts[i].path == m.artifacts[j].path;
    }
  }
}
