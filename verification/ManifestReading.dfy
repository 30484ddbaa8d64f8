/**
 * What an accepted manifest document becomes, field by field, and which documents are
 * accepted, told without the decoders (src/manifest.rs:590-660, 1100-1282).
 */
module ManifestReading {
  import opened Options
  import opened Decimal
  import opened Manifest
  import M = ModuleSpec
  import I = ImageDeclaration

  /** An optional key gives its value, and nothing when it is absent or null. */
  predicate Gives<T(==)>(f: Field<T>, v: Option<T>) {
    match f
    case Absent => v == None
    case Null => v == None
    case Malformed => false
    case Value(x) => v == Some(x)
  }

  /** No key gives no declaration, and a document in the first schema or none gives the one it decodes to. */
  predicate GivesImage(value: Option<ImageValue>, image: Option<I.Declaration>) {
    match value
    case None => image == None
    case Some(NullImage) => false
    case Some(ImageDocument(schema, decoded)) =>
      (schema == None || schema == Some(1)) && decoded.Some? && image == decoded
  }

  predicate GivesArtifact(d: ArtifactDocument, a: Artifact) {
    && d.path == Value(a.path)
    && d.required == Some(Required(a.component, a.version, a.arch, a.kind, a.dispositions, a.sha256))
    && Gives(d.commit, a.commit) && Gives(d.spec, a.spec) && GivesImage(d.image, a.image)
  }

  predicate GivesTrustSet(f: Field<Option<Bytes>>, v: Option<Bytes>) {
    match f
    case Absent => v == None
    case Null => v == None
    case Malformed => false
    case Value(decoded) => decoded.Some? && v == decoded
  }

  /** A manifest says what its document says: no key is a release build, and the artifacts come in order. */
  predicate GivesManifest(d: Document, m: Manifest) {
    && Gives(d.format, m.format) && Gives(d.pinset, m.pinset) && Gives(d.members, m.members)
    && GivesTrustSet(d.trustSet, m.trustSet)
    && (d.releaseBuild == Absent || d.releaseBuild.Value?)
    && (m.releaseBuild <==> d.releaseBuild == Value(true))
    && d.artifacts.Value? && |d.artifacts.value| == |m.artifacts|
    && forall i :: 0 <= i < |m.artifacts| ==> GivesArtifact(d.artifacts.value[i], m.artifacts[i])
  }

  /** The pre-versioned shape: no version, the first footer, and neither a list, a trust set, a commit nor a spec. */
  predicate IsBare(d: Document, footer: nat) {
    && (d.format == Absent || d.format == Null) && footer == 1 && d.trustSet == Absent && d.members == Absent
    && (d.artifacts.Value? ==> forall a :: a in d.artifacts.value ==> a.commit == Absent && a.spec == Absent)
  }

  // ---- one artifact ----

  /** What a part of a manifest under construction becomes. */
  predicate Becomes(part: Part, a: Artifact) {
    && a == part.0.(image := a.image)
    && match part.1
       case NoImage => a.image == None
       case Typed(d) => a.image == Some(d)
       case Wire(value) => GivesImage(Some(value), a.image)
  }

  lemma ArtifactChecksExactly(format: Option<nat>, part: Part, seen: set<string>, a: Artifact)
    ensures CheckArtifact(format, part.0, part.1, seen) == Ok(a)
            <==> Becomes(part, a) && IsValidArtifact(a, format) && a.path !in seen
  {
    hide I.IsValidDeclaration, M.IsValidSpec, IsSafeArchivePath, IsPlainPath, IsValidCommit, IsCommitId,
         CheckSpecFormat, FitsFormat;
    ArtifactRulesAre(part.0, format);
  }

  /** Every artifact is what its part becomes, keeps the rules, and has a path of its own. */
  predicate AllBecome(format: Option<nat>, parts: seq<Part>, seen: set<string>, artifacts: seq<Artifact>) {
    && |parts| == |artifacts| && UniquePaths(artifacts)
    && forall i :: 0 <= i < |artifacts| ==>
         Becomes(parts[i], artifacts[i]) && IsValidArtifact(artifacts[i], format) && artifacts[i].path !in seen
  }

  lemma {:induction false} ArtifactsCheckExactly(format: Option<nat>, parts: seq<Part>, seen: set<string>,
                                                 artifacts: seq<Artifact>)
    ensures CheckArtifacts(format, parts, seen) == Ok(artifacts) <==> AllBecome(format, parts, seen, artifacts)
    decreases |parts|
  {
    hide Becomes, IsValidArtifact, CheckArtifact;
    if parts != [] && artifacts != [] {
      ArtifactChecksExactly(format, parts[0], seen, artifacts[0]);
      ArtifactsCheckExactly(format, parts[1..], seen + {parts[0].0.path}, artifacts[1..]);
      FirstAndRest(format, parts, seen, artifacts);
      AllBecomeUnfolds(format, parts, seen, artifacts);
      hide AllBecome, CheckArtifacts;
    }
  }

  lemma AllBecomeUnfolds(format: Option<nat>, parts: seq<Part>, seen: set<string>, artifacts: seq<Artifact>)
    requires parts != [] && artifacts != []
    ensures AllBecome(format, parts, seen, artifacts)
            <==> && Becomes(parts[0], artifacts[0]) && IsValidArtifact(artifacts[0], format)
                 && artifacts[0].path !in seen
                 && AllBecome(format, parts[1..], seen + {parts[0].0.path}, artifacts[1..])
  {
    hide Becomes, IsValidArtifact;
    var later := seen + {parts[0].0.path};
    if Becomes(parts[0], artifacts[0]) { BecomingKeepsPath(parts[0], artifacts[0]); }
    assert forall i :: 0 <= i < |artifacts| - 1 ==> artifacts[1..][i] == artifacts[i + 1];
    assert forall i :: 0 <= i < |parts| - 1 ==> parts[1..][i] == parts[i + 1];
    if AllBecome(format, parts, seen, artifacts) {
      assert AllBecome(format, parts[1..], later, artifacts[1..]);
    } else if AllBecome(format, parts[1..], later, artifacts[1..]) && Becomes(parts[0], artifacts[0])
              && IsValidArtifact(artifacts[0], format) && artifacts[0].path !in seen {
      forall i | 0 < i < |artifacts|
        ensures Becomes(parts[i], artifacts[i]) && IsValidArtifact(artifacts[i], format)
        ensures artifacts[i].path !in seen && artifacts[i].path != artifacts[0].path
      {
        assert artifacts[1..][i - 1] == artifacts[i] && parts[1..][i - 1] == parts[i];
      }
      UniqueWithFirst(artifacts);
    }
  }

  lemma BecomingKeepsPath(part: Part, a: Artifact)
    requires Becomes(part, a)
    ensures a.path == part.0.path
  {
  }

  lemma FirstAndRest(format: Option<nat>, parts: seq<Part>, seen: set<string>, artifacts: seq<Artifact>)
    requires parts != [] && artifacts != []
    ensures CheckArtifacts(format, parts, seen) == Ok(artifacts)
            <==> && CheckArtifact(format, parts[0].0, parts[0].1, seen) == Ok(artifacts[0])
                 && CheckArtifacts(format, parts[1..], seen + {parts[0].0.path}) == Ok(artifacts[1..])
  {
    hide CheckArtifact;
    assert ([artifacts[0]] + artifacts[1..])[1..] == artifacts[1..];
    assert [artifacts[0]] + artifacts[1..] == artifacts;
    var first, rest := CheckArtifact(format, parts[0].0, parts[0].1, seen),
                       CheckArtifacts(format, parts[1..], seen + {parts[0].0.path});
    if first.Ok? && rest.Ok? {
      assert ([first.value] + rest.value)[1..] == rest.value && ([first.value] + rest.value)[0] == first.value;
    }
  }

  lemma UniqueWithFirst(artifacts: seq<Artifact>)
    requires artifacts != [] && UniquePaths(artifacts[1..])
    requires forall i :: 0 < i < |artifacts| ==> artifacts[i].path != artifacts[0].path
    ensures UniquePaths(artifacts)
  {
    assert forall i :: 0 <= i < |artifacts| - 1 ==> artifacts[1..][i] == artifacts[i + 1];
  }

  // ---- the typed decode ----

  /** A part is what decoding its document left. */
  predicate DecodesTo(d: ArtifactDocument, part: Part) { DecodeArtifact(d) == Ok(part) }

  lemma ArtifactDecodesExactly(d: ArtifactDocument, a: Artifact)
    ensures DecodeArtifact(d).Ok? ==> (Becomes(DecodeArtifact(d).value, a) <==> GivesArtifact(d, a))
    ensures GivesArtifact(d, a) ==> DecodeArtifact(d).Ok?
  {
  }

  lemma {:induction false} ArtifactsDecode(ds: seq<ArtifactDocument>)
    ensures DecodeArtifacts(ds).Ok? <==> forall i :: 0 <= i < |ds| ==> DecodeArtifact(ds[i]).Ok?
    ensures DecodeArtifacts(ds).Ok? ==>
              && |DecodeArtifacts(ds).value| == |ds|
              && forall i :: 0 <= i < |ds| ==> DecodesTo(ds[i], DecodeArtifacts(ds).value[i])
  {
    hide DecodeArtifact;
    if ds != [] {
      ArtifactsDecode(ds[1..]);
      assert forall i :: 0 <= i < |ds| - 1 ==> ds[1..][i] == ds[i + 1];
      assert DecodeArtifact(ds[0]).Ok? && DecodeArtifacts(ds[1..]).Ok? <==> DecodeArtifacts(ds).Ok?;
      if DecodeArtifacts(ds).Ok? {
        assert forall i :: 0 < i < |ds| ==> ds[i] == ds[1..][i - 1];
      }
    }
  }

  /** The artifacts a list of documents gives, when they keep the rules of `format`. */
  predicate GivesArtifacts(format: Option<nat>, ds: seq<ArtifactDocument>, artifacts: seq<Artifact>) {
    && |ds| == |artifacts| && UniquePaths(artifacts)
    && forall i :: 0 <= i < |artifacts| ==> GivesArtifact(ds[i], artifacts[i]) && IsValidArtifact(artifacts[i], format)
  }

  lemma ArtifactsReadExactly(format: Option<nat>, ds: seq<ArtifactDocument>, artifacts: seq<Artifact>)
    ensures GivesArtifacts(format, ds, artifacts)
            <==> && DecodeArtifacts(ds).Ok?
                 && CheckArtifacts(format, DecodeArtifacts(ds).value, {}) == Ok(artifacts)
  {
    hide IsValidArtifact, Becomes, GivesArtifact, DecodeArtifact, UniquePaths, DecodeArtifacts, CheckArtifacts;
    ArtifactsDecode(ds);
    forall i | 0 <= i < |ds| && i < |artifacts|
      ensures DecodeArtifact(ds[i]).Ok? ==>
                (Becomes(DecodeArtifact(ds[i]).value, artifacts[i]) <==> GivesArtifact(ds[i], artifacts[i]))
      ensures GivesArtifact(ds[i], artifacts[i]) ==> DecodeArtifact(ds[i]).Ok?
    {
      ArtifactDecodesExactly(ds[i], artifacts[i]);
    }
    if DecodeArtifacts(ds).Ok? {
      ArtifactsCheckExactly(format, DecodeArtifacts(ds).value, {}, artifacts);
    }
  }

  // ---- the two doors ----

  /** Each key has the type a reader wants, and each artifact the keys it must have. */
  predicate IsTyped(d: Document) {
    && !d.format.Malformed? && (d.format.Value? ==> d.format.value < 0x1_0000_0000)
    && !d.pinset.Malformed? && !d.trustSet.Malformed? && !d.members.Malformed?
    && (d.releaseBuild.Absent? || d.releaseBuild.Value?) && d.artifacts.Value?
    && forall a :: a in d.artifacts.value ==>
         a.path.Value? && a.required.Some? && !a.commit.Malformed? && !a.spec.Malformed?
  }

  lemma DecodesExactly(d: Document)
    ensures DecodeManifest(d).Ok? <==> IsTyped(d)
    ensures DecodeManifest(d).Err? ==> DecodeManifest(d) == Err(Decode)
    ensures DecodeManifest(d).Ok? ==>
              var raw := DecodeManifest(d).value;
              && Gives(d.format, raw.format) && Gives(d.pinset, raw.pinset) && Gives(d.members, raw.members)
              && Gives(d.trustSet, raw.trustSet) && (raw.releaseBuild <==> d.releaseBuild == Value(true))
              && d.artifacts.Value? && DecodeArtifacts(d.artifacts.value) == Ok(raw.parts)
  {
    hide DecodeArtifacts, DecodeArtifact;
    if d.artifacts.Value? {
      var ds := d.artifacts.value;
      ArtifactsDecode(ds);
      ArtifactsFailAsDecode(ds);
      forall i | 0 <= i < |ds|
        ensures DecodeArtifact(ds[i]).Ok? <==>
                  ds[i].path.Value? && ds[i].required.Some? && !ds[i].commit.Malformed? && !ds[i].spec.Malformed?
      {
        ArtifactTypes(ds[i]);
      }
    }
  }

  lemma ArtifactTypes(d: ArtifactDocument)
    ensures DecodeArtifact(d).Ok?
            <==> d.path.Value? && d.required.Some? && !d.commit.Malformed? && !d.spec.Malformed?
    ensures DecodeArtifact(d).Err? ==> DecodeArtifact(d) == Err(Decode)
  {
  }

  lemma {:induction false} ArtifactsFailAsDecode(ds: seq<ArtifactDocument>)
    ensures DecodeArtifacts(ds).Err? ==> DecodeArtifacts(ds) == Err(Decode)
  {
    hide DecodeArtifact;
    if ds != [] {
      ArtifactTypes(ds[0]);
      ArtifactsFailAsDecode(ds[1..]);
    }
  }

  /** A typed document gives a manifest exactly when the trust set is base64 and the parts pass. */
  lemma PartsReadExactly(d: Document, m: Manifest)
    requires IsTyped(d)
    ensures DecodeManifest(d).Ok?
    ensures var raw := DecodeManifest(d).value;
            GivesManifest(d, m) && IsValid(m)
            <==> && DecodeTrustSet(raw.trustSet).Ok?
                 && FromParts(raw.format, raw.pinset, raw.releaseBuild, raw.members, raw.parts,
                              DecodeTrustSet(raw.trustSet).value) == Ok(m)
  {
    hide DecodeManifest, CheckArtifacts, IsValidArtifact, GivesArtifact, UniquePaths, DecodeArtifacts;
    DecodesExactly(d);
    var raw := DecodeManifest(d).value;
    ArtifactsReadExactly(m.format, d.artifacts.value, m.artifacts);
    if GivesManifest(d, m) && IsValid(m) {
      assert GivesArtifacts(m.format, d.artifacts.value, m.artifacts);
      assert raw.format == m.format && DecodeTrustSet(raw.trustSet) == Ok(m.trustSet);
      assert CheckTrustSet(m.trustSet, m.format).Ok?;
    } else if DecodeTrustSet(raw.trustSet).Ok? && CheckArtifacts(m.format, raw.parts, {}) == Ok(m.artifacts) {
      assert GivesArtifacts(m.format, d.artifacts.value, m.artifacts);
    }
  }

  lemma GivenIsTyped(d: Document, m: Manifest)
    requires GivesManifest(d, m) && IsValid(m)
    ensures IsTyped(d)
  {
    hide IsValidArtifact, UniquePaths;
    forall a | a in d.artifacts.value
      ensures a.path.Value? && a.required.Some? && !a.commit.Malformed? && !a.spec.Malformed?
    {
      var i :| 0 <= i < |d.artifacts.value| && d.artifacts.value[i] == a;
      assert GivesArtifact(d.artifacts.value[i], m.artifacts[i]);
    }
  }

  /**
   * `parse` accepts a document exactly when it gives a manifest that keeps every rule, and either names a version
   * or has the pre-versioned shape in a container of the first footer.
   */
  lemma ParsesExactly(d: Document, footer: nat, m: Manifest)
    ensures Parse(d, footer) == Ok(m)
            <==> GivesManifest(d, m) && IsValid(m) && (m.format.Some? || IsBare(d, footer))
  {
    hide DecodeManifest, DecodeTrustSet, IsTyped, GivesArtifact, IsBaseline, NonBaselineReason, IsBare,
         IsValidArtifact, UniquePaths, CheckArtifacts, CheckMembers, CheckTrustSet;
    DecodesExactly(d);
    if GivesManifest(d, m) && IsValid(m) { GivenIsTyped(d, m); }
    if IsTyped(d) { PartsReadExactly(d, m); }
    BareIs(d, footer);
  }

  lemma BareIs(d: Document, footer: nat)
    ensures IsBare(d, footer) <==> IsBaseline(footer, d)
  {
    BaselineHasNoKeys(d, footer);
    hide ArtifactWithCommit, ArtifactWithSpec;
  }

  /** The derived `Deserialize` accepts exactly the documents that name a version and give a valid manifest. */
  lemma DeserializesExactly(d: Document, m: Manifest)
    ensures Deserialize(d) == Ok(m) <==> GivesManifest(d, m) && IsValid(m) && m.format.Some?
  {
    hide DecodeManifest, DecodeTrustSet, IsTyped, GivesArtifact, IsValidArtifact, UniquePaths, CheckArtifacts,
         CheckMembers, CheckTrustSet;
    DecodesExactly(d);
    if GivesManifest(d, m) && IsValid(m) { GivenIsTyped(d, m); }
    if IsTyped(d) { PartsReadExactly(d, m); }
  }

  // ---- what a refusal says ----

  /** An artifact is named by its path, or by its position when it carries none. */
  predicate NamedBy(d: ArtifactDocument, i: nat, name: string) {
    name == if d.path.Value? then d.path.value else "#" + ToDecimal(i)
  }

  /** The name of the first artifact that carries a commit key in any form. */
  predicate NamesCommit(d: Document, name: string) {
    d.artifacts.Value? &&
    exists i :: && 0 <= i < |d.artifacts.value| && d.artifacts.value[i].commit != Absent
                && (forall j :: 0 <= j < i ==> d.artifacts.value[j].commit == Absent)
                && NamedBy(d.artifacts.value[i], i, name)
  }

  predicate NamesSpec(d: Document, name: string) {
    d.artifacts.Value? &&
    exists i :: && 0 <= i < |d.artifacts.value| && d.artifacts.value[i].spec != Absent
                && (forall j :: 0 <= j < i ==> d.artifacts.value[j].spec == Absent)
                && NamedBy(d.artifacts.value[i], i, name)
  }

  predicate NoCommits(d: Document) {
    d.artifacts.Value? ==> forall a :: a in d.artifacts.value ==> a.commit == Absent
  }

  predicate NoSpecs(d: Document) { d.artifacts.Value? ==> forall a :: a in d.artifacts.value ==> a.spec == Absent }

  /** What an unversioned document that is not bare is refused for: the first key a later schema brought. */
  predicate UnbareFor(d: Document, e: ManifestError) {
    match e
    case BaselineWithCommit(name) => NamesCommit(d, name)
    case BaselineWithTrustSet => NoCommits(d) && d.trustSet != Absent
    case BaselineWithSpec(name) => NoCommits(d) && d.trustSet == Absent && NamesSpec(d, name)
    case BaselineWithArchiveMembers => NoCommits(d) && d.trustSet == Absent && NoSpecs(d) && d.members != Absent
    case MissingFormatVersion => NoCommits(d) && d.trustSet == Absent && NoSpecs(d) && d.members == Absent
    case _ => false
  }

  lemma {:induction false} FirstWithNames(ds: seq<ArtifactDocument>, index: nat, has: ArtifactDocument -> bool)
    returns (i: nat)
    requires FirstWith(ds, index, has).Some?
    ensures i < |ds| && has(ds[i]) && forall j :: 0 <= j < i ==> !has(ds[j])
    ensures NamedBy(ds[i], index + i, FirstWith(ds, index, has).value)
  {
    if has(ds[0]) {
      i := 0;
    } else {
      var rest := FirstWithNames(ds[1..], index + 1, has);
      i := rest + 1;
      assert ds[1..][rest] == ds[i];
      forall j | 0 <= j < i
        ensures !has(ds[j])
      {
        if j > 0 { assert ds[1..][j - 1] == ds[j]; }
      }
    }
  }

  lemma CommitIsNamed(d: Document)
    ensures match ArtifactWithCommit(d)
            case Some(name) => NamesCommit(d, name)
            case None => NoCommits(d)
  {
    var ds, has := ArtifactDocuments(d), (a: ArtifactDocument) => !a.commit.Absent?;
    FirstWithIs(ds, 0, has);
    if ArtifactWithCommit(d).Some? {
      var i := FirstWithNames(ds, 0, has);
      assert has(ds[i]) && forall j :: 0 <= j < i ==> !has(ds[j]);
    }
    hide NamedBy;
  }

  lemma SpecIsNamed(d: Document)
    ensures match ArtifactWithSpec(d)
            case Some(name) => NamesSpec(d, name)
            case None => NoSpecs(d)
  {
    var ds, has := ArtifactDocuments(d), (a: ArtifactDocument) => !a.spec.Absent?;
    FirstWithIs(ds, 0, has);
    if ArtifactWithSpec(d).Some? {
      var i := FirstWithNames(ds, 0, has);
      assert has(ds[i]) && forall j :: 0 <= j < i ==> !has(ds[j]);
    }
    hide NamedBy;
  }

  lemma UnbareIsExplained(d: Document)
    ensures UnbareFor(d, NonBaselineReason(d))
  {
    hide NamesCommit, NamesSpec, NoCommits, NoSpecs, ArtifactWithCommit, ArtifactWithSpec;
    CommitIsNamed(d);
    SpecIsNamed(d);
  }

  predicate IsUnversioned(d: Document) { d.format == Absent || d.format == Null }

  /** A version this reader opens, or none where none is due. */
  predicate PassesTheGate(d: Document, footer: nat) {
    if IsUnversioned(d) then IsBare(d, footer) else d.format.Value? && 3 <= d.format.value <= 9
  }

  /**
   * The version is judged before anything else in the document, then the bare shape, then the types of the keys,
   * then the trust set's text.
   */
  lemma ParseRefusesInOrder(d: Document, footer: nat)
    ensures d.format.Malformed? || (d.format.Value? && d.format.value >= 0x1_0000_0000)
            ==> Parse(d, footer) == Err(MalformedFormatVersion)
    ensures d.format.Value? && d.format.value < 0x1_0000_0000 && !(3 <= d.format.value <= 9)
            ==> Parse(d, footer) == Err(UnsupportedFormat(d.format.value))
    ensures IsUnversioned(d) && !IsBare(d, footer)
            ==> Parse(d, footer).Err? && UnbareFor(d, Parse(d, footer).error)
    ensures PassesTheGate(d, footer) && !IsTyped(d) ==> Parse(d, footer) == Err(Decode)
    ensures PassesTheGate(d, footer) && IsTyped(d) && d.trustSet == Value(None)
            ==> Parse(d, footer) == Err(TrustSetNotBase64)
  {
    hide IsBare, IsBaseline, NonBaselineReason, UnbareFor, DecodeManifest, FromParts, IsTyped;
    BareIs(d, footer);
    UnbareIsExplained(d);
    DecodesExactly(d);
  }

  lemma DeserializeRefusesInOrder(d: Document)
    ensures !IsTyped(d) ==> Deserialize(d) == Err(Decode)
    ensures IsTyped(d) && IsUnversioned(d) ==> Deserialize(d) == Err(MissingFormatVersion)
    ensures IsTyped(d) && !IsUnversioned(d) && d.trustSet == Value(None) ==> Deserialize(d) == Err(TrustSetNotBase64)
  {
    hide DecodeManifest, FromParts;
    DecodesExactly(d);
  }

  // ---- which rule an artifact breaks first ----

  /** Listed, placed and named as an artifact must be, with a path no earlier one has. */
  predicate IsPlaced(a: Artifact, seen: set<string>) {
    a.dispositions != {} && IsPlainPath(a.path) && a.path !in seen
  }

  predicate IsCommitted(a: Artifact, format: Option<nat>) {
    match a.commit
    case None => format == None
    case Some(commit) => format != None && IsCommitId(commit)
  }

  predicate IsSpecified(a: Artifact, format: Option<nat>) {
    match a.spec
    case None => true
    case Some(spec) =>
      && format != None && M.IsValidSpec(spec, a.component, a.kind)
      && (spec.unit.Some? ==> FitsFormat(spec.unit.value, format.value))
  }

  /** A valid spec with a unit, in a versioned manifest whose format may be too old for it. */
  predicate HasUnit(a: Artifact, format: Option<nat>) {
    format != None && a.spec.Some? && M.IsValidSpec(a.spec.value, a.component, a.kind) && a.spec.value.unit.Some?
  }

  /** What an artifact is refused for: the rule it breaks, every earlier one kept. */
  predicate RefusedFor(format: Option<nat>, a: Artifact, source: ImageSource, seen: set<string>, e: ManifestError) {
    match e
    case EmptyDispositions(path) => path == a.path && a.dispositions == {}
    case UnsafeArchivePath(path) => path == a.path && a.dispositions != {} && !IsPlainPath(a.path)
    case DuplicateArchivePath(path) =>
      path == a.path && a.dispositions != {} && IsPlainPath(a.path) && a.path in seen
    case InvalidCommit(path) =>
      path == a.path && IsPlaced(a, seen) && format != None && a.commit.Some? && !IsCommitId(a.commit.value)
    case MissingCommit(path) => path == a.path && IsPlaced(a, seen) && format != None && a.commit == None
    case BaselineWithCommit(path) => path == a.path && IsPlaced(a, seen) && format == None && a.commit.Some?
    case BaselineWithSpec(path) =>
      path == a.path && IsPlaced(a, seen) && IsCommitted(a, format) && format == None && a.spec.Some?
    case InvalidSpec(path) =>
      && path == a.path && IsPlaced(a, seen) && IsCommitted(a, format) && format != None && a.spec.Some?
      && !M.IsValidSpec(a.spec.value, a.component, a.kind)
    case GroupsBeforeFormat(path) =>
      && path == a.path && IsPlaced(a, seen) && IsCommitted(a, format) && HasUnit(a, format)
      && format.value < 8 && a.spec.value.unit.value.groups != []
    case ProfilesBeforeFormat(path) =>
      && path == a.path && IsPlaced(a, seen) && IsCommitted(a, format) && HasUnit(a, format)
      && format.value < 9 && a.spec.value.unit.value.profiles != []
      && (format.value < 8 ==> a.spec.value.unit.value.groups == [])
    case _ =>
      IsPlaced(a, seen) && IsCommitted(a, format) && IsSpecified(a, format) && ResolveImage(format, a, source) == Err(e)
  }

  lemma ImageRefusals(format: Option<nat>, a: Artifact, source: ImageSource)
    ensures ResolveImage(format, a, source).Err? ==>
              var e := ResolveImage(format, a, source).error;
              || e.MissingImage? || e.ImageDecode? || e.InvalidImage? || e.BaselineWithImage? || e.ImageBeforeFormat?
              || e.ImageOnNonImage?
  {
    hide I.IsValidDeclaration;
  }

  lemma CommitRefusals(a: Artifact, format: Option<nat>)
    ensures CheckCommit(a, format).Ok? <==> IsCommitted(a, format)
    ensures CheckCommit(a, format).Err? ==>
              CheckCommit(a, format).error == if format == None then BaselineWithCommit(a.path)
                                              else if a.commit == None then MissingCommit(a.path)
                                              else InvalidCommit(a.path)
  {
    if a.commit.Some? { CommitIs(a.commit.value); }
    hide IsCommitId, IsValidCommit;
  }

  lemma SpecRefusals(a: Artifact, format: Option<nat>)
    ensures CheckSpec(a, format).Ok? <==> IsSpecified(a, format)
    ensures CheckSpec(a, format).Err? ==>
              CheckSpec(a, format).error == if format == None then BaselineWithSpec(a.path)
                                            else if !HasUnit(a, format) then InvalidSpec(a.path)
                                            else if format.value < 8 && a.spec.value.unit.value.groups != []
                                            then GroupsBeforeFormat(a.path)
                                            else ProfilesBeforeFormat(a.path)
  {
    hide M.IsValidSpec;
  }

  lemma ArtifactRefusedExactly(format: Option<nat>, a: Artifact, source: ImageSource, seen: set<string>,
                               e: ManifestError)
    ensures CheckArtifact(format, a, source, seen) == Err(e) <==> RefusedFor(format, a, source, seen, e)
  {
    hide M.IsValidSpec, IsSafeArchivePath, IsPlainPath, IsCommitId, ResolveImage, CheckCommit, CheckSpec;
    PlainPathIs(a.path);
    CommitRefusals(a, format);
    SpecRefusals(a, format);
    ImageRefusals(format, a, source);
  }
}
