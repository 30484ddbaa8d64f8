/**
 * The payload manifest's two read doors and its one validation point (src/manifest.rs). A
 * document is what JSON decoding left: every key as a typed reader would find it. Base64,
 * JSON text and the wire form of specs and declarations stay outside.
 */
module Manifest {
  import opened Options
  import opened Decimal
  import opened Paths
  import opened Text
  import M = ModuleSpec
  import I = ImageDeclaration

  const FORMAT_VERSION: nat := 9
  const MIN_FORMAT_VERSION: nat := 3
  const MAX_FORMAT_VERSION: nat := 9
  const IMAGE_FORMAT_VERSION: nat := 6
  const GROUPS_FORMAT_VERSION: nat := 8
  const PROFILES_FORMAT_VERSION: nat := 9
  const LEGACY_FOOTER_VERSION: nat := 1
  const COMMIT_HEX_LEN: nat := 40
  const DIGEST_HEX_LEN: nat := 64

  datatype Disposition = Install | Stage

  datatype Arch = X86_64 | Aarch64

  type Bytes = seq<nat>

  datatype Member = Member(path: string, size: nat)

  datatype Artifact = Artifact(
    component: string, version: string, commit: Option<string>, arch: Arch, kind: M.ArtifactKind,
    dispositions: set<Disposition>, path: string, sha256: string,
    spec: Option<M.Spec>, image: Option<I.Declaration>)

  datatype Manifest = Manifest(
    format: Option<nat>, pinset: Option<string>, releaseBuild: bool, trustSet: Option<Bytes>,
    members: Option<seq<Member>>, artifacts: seq<Artifact>)

  /** A wire `image` value: `null`, or a document with its `schema` number and its typed decoding, if any. */
  datatype ImageValue = NullImage | ImageDocument(schema: Option<nat>, decoded: Option<I.Declaration>)

  datatype ImageSource = NoImage | Wire(value: ImageValue) | Typed(declaration: I.Declaration)

  datatype ManifestError =
    | Decode
    | MalformedFormatVersion
    | MissingFormatVersion
    | UnsupportedFormat(found: nat)
    | TrustSetNotBase64
    | EmptyTrustSet
    | MissingArchiveMembers
    | EmptyDispositions(path: string)
    | UnsafeArchivePath(path: string)
    | DuplicateArchivePath(path: string)
    | InvalidCommit(path: string)
    | MissingCommit(path: string)
    | InvalidSpec(path: string)
    | GroupsBeforeFormat(path: string)
    | ProfilesBeforeFormat(path: string)
    | ImageBeforeFormat(path: string)
    | ImageOnNonImage(path: string)
    | MissingImage(path: string)
    | ImageDecode(path: string)
    | InvalidImage(path: string)
    | BaselineWithCommit(path: string)
    | BaselineWithSpec(path: string)
    | BaselineWithImage(path: string)
    | BaselineWithTrustSet
    | BaselineWithArchiveMembers

  // ---- the per-artifact checks ----

  predicate IsHexChar(c: char) { '0' <= c <= '9' || 'a' <= c <= 'f' }

  predicate IsLowerHex(s: string) { forall i :: 0 <= i < |s| ==> IsHexChar(s[i]) }

  predicate IsValidCommit(s: string) { (|s| == COMMIT_HEX_LEN || |s| == DIGEST_HEX_LEN) && IsLowerHex(s) }

  /** On Unix the separate scan for a root or a parent component refuses nothing more. */
  predicate IsSafeArchivePath(path: string) {
    forall segment :: segment in Split(path, '/') ==> segment != "" && segment != "." && segment != ".."
  }

  function CheckFormat(format: Option<nat>): Result<(), ManifestError> {
    if format.Some? && !(MIN_FORMAT_VERSION <= format.value <= MAX_FORMAT_VERSION) then
      Err(UnsupportedFormat(format.value))
    else
      Ok(())
  }

  function CheckMembers(members: Option<seq<Member>>, format: Option<nat>): Result<(), ManifestError> {
    if members.None? && format.Some? then Err(MissingArchiveMembers)
    else if members.Some? && format.None? then Err(BaselineWithArchiveMembers)
    else Ok(())
  }

  function CheckCommit(a: Artifact, format: Option<nat>): Result<(), ManifestError> {
    match (a.commit, format)
    case (Some(commit), Some(_)) => if IsValidCommit(commit) then Ok(()) else Err(InvalidCommit(a.path))
    case (None, Some(_)) => Err(MissingCommit(a.path))
    case (Some(_), None) => Err(BaselineWithCommit(a.path))
    case (None, None) => Ok(())
  }

  function CheckSpecFormat(spec: M.Spec, format: Option<nat>, path: string): Result<(), ManifestError> {
    if format.None? || spec.unit.None? then Ok(())
    else if format.value < GROUPS_FORMAT_VERSION && spec.unit.value.groups != [] then Err(GroupsBeforeFormat(path))
    else if format.value < PROFILES_FORMAT_VERSION && spec.unit.value.profiles != [] then
      Err(ProfilesBeforeFormat(path))
    else Ok(())
  }

  function CheckSpec(a: Artifact, format: Option<nat>): Result<(), ManifestError> {
    if a.spec.None? then Ok(())
    else if format.None? then Err(BaselineWithSpec(a.path))
    else if !M.IsValidSpec(a.spec.value, a.component, a.kind) then Err(InvalidSpec(a.path))
    else CheckSpecFormat(a.spec.value, format, a.path)
  }

  function DecodeDeclaration(path: string, value: ImageValue): Result<I.Declaration, ManifestError>
    requires value.ImageDocument?
  {
    if value.schema.Some? && value.schema.value != I.SCHEMA then Err(InvalidImage(path))
    else if value.decoded.None? then Err(ImageDecode(path))
    else Ok(value.decoded.value)
  }

  function CheckDeclaration(path: string, d: I.Declaration): Result<Option<I.Declaration>, ManifestError> {
    if I.IsValidDeclaration(d) then Ok(Some(d)) else Err(InvalidImage(path))
  }

  function ResolveImage(format: Option<nat>, a: Artifact, source: ImageSource)
    : Result<Option<I.Declaration>, ManifestError>
  {
    var present := !source.NoImage?;
    if format.None? then if present then Err(BaselineWithImage(a.path)) else Ok(None)
    else if format.value < IMAGE_FORMAT_VERSION then if present then Err(ImageBeforeFormat(a.path)) else Ok(None)
    else if a.kind != M.ContainerImage then if present then Err(ImageOnNonImage(a.path)) else Ok(None)
    else
      match source
      case NoImage => Err(MissingImage(a.path))
      case Typed(d) => CheckDeclaration(a.path, d)
      case Wire(value) =>
        if value.NullImage? then Err(MissingImage(a.path))
        else
          var d :- DecodeDeclaration(a.path, value);
          CheckDeclaration(a.path, d)
  }

  /** One artifact's checks, in order; `seen` holds the earlier artifacts' paths. */
  function CheckArtifact(format: Option<nat>, a: Artifact, source: ImageSource, seen: set<string>)
    : Result<Artifact, ManifestError>
  {
    if a.dispositions == {} then Err(EmptyDispositions(a.path))
    else if !IsSafeArchivePath(a.path) then Err(UnsafeArchivePath(a.path))
    else if a.path in seen then Err(DuplicateArchivePath(a.path))
    else
      var _ :- CheckCommit(a, format);
      var _ :- CheckSpec(a, format);
      var image :- ResolveImage(format, a, source);
      Ok(a.(image := image))
  }

  type Part = (Artifact, ImageSource)

  function CheckArtifacts(format: Option<nat>, parts: seq<Part>, seen: set<string>)
    : Result<seq<Artifact>, ManifestError>
  {
    if parts == [] then Ok([])
    else
      var first :- CheckArtifact(format, parts[0].0, parts[0].1, seen);
      var rest :- CheckArtifacts(format, parts[1..], seen + {parts[0].0.path});
      Ok([first] + rest)
  }

  function CheckTrustSet(trustSet: Option<Bytes>, format: Option<nat>): Result<(), ManifestError> {
    if trustSet == Some([]) then Err(EmptyTrustSet)
    else if trustSet.Some? && format.None? then Err(BaselineWithTrustSet)
    else Ok(())
  }

  /** The one place the invariants live. */
  function FromParts(format: Option<nat>, pinset: Option<string>, releaseBuild: bool, members: Option<seq<Member>>,
                     parts: seq<Part>, trustSet: Option<Bytes>): Result<Manifest, ManifestError>
  {
    var _ :- CheckFormat(format);
    var _ :- CheckMembers(members, format);
    var artifacts :- CheckArtifacts(format, parts, {});
    var _ :- CheckTrustSet(trustSet, format);
    Ok(Manifest(format, pinset, releaseBuild, trustSet, members, artifacts))
  }

  function TypedPart(a: Artifact): Part { (a.(image := None), if a.image.Some? then Typed(a.image.value) else NoImage) }

  function TypedParts(artifacts: seq<Artifact>): (parts: seq<Part>)
    ensures |parts| == |artifacts| && forall i :: 0 <= i < |artifacts| ==> parts[i] == TypedPart(artifacts[i])
  {
    if artifacts == [] then [] else [TypedPart(artifacts[0])] + TypedParts(artifacts[1..])
  }

  function New(pinset: Option<string>, members: seq<Member>, artifacts: seq<Artifact>): Result<Manifest, ManifestError>
  {
    FromParts(Some(FORMAT_VERSION), pinset, false, Some(members), TypedParts(artifacts), None)
  }

  function WithTrustSet(m: Manifest, generation: Bytes): Result<Manifest, ManifestError> {
    FromParts(m.format, m.pinset, m.releaseBuild, m.members, TypedParts(m.artifacts), Some(generation))
  }

  function WithReleaseBuild(m: Manifest): Manifest { m.(releaseBuild := true) }

  // ---- documents and the two doors ----

  /** A key as a reader of one type finds it. */
  datatype Field<+T> = Absent | Null | Malformed | Value(value: T)

  /** Fields every artifact must carry besides its path, when all of them decode. */
  datatype Required = Required(
    component: string, version: string, arch: Arch, kind: M.ArtifactKind, dispositions: set<Disposition>,
        sha256: string)

  datatype ArtifactDocument = ArtifactDocument(
    path: Field<string>, required: Option<Required>, commit: Field<string>, spec: Field<M.Spec>,
        image: Option<ImageValue>)

  /** `format` holds a number when the key is an unsigned 64-bit one; a trust set is the decoding of its base64 text. */
  datatype Document = Document(
    format: Field<nat>, pinset: Field<string>, releaseBuild: Field<bool>, trustSet: Field<Option<Bytes>>,
    members: Field<seq<Member>>, artifacts: Field<seq<ArtifactDocument>>)

  datatype RawManifest = RawManifest(
    format: Option<nat>, pinset: Option<string>, releaseBuild: bool, trustSet: Option<Option<Bytes>>,
    members: Option<seq<Member>>, parts: seq<Part>)

  /** An optional field: absent and `null` read alike. */
  function Optional<T>(f: Field<T>): Result<Option<T>, ManifestError> {
    match f
    case Absent => Ok(None)
    case Null => Ok(None)
    case Malformed => Err(Decode)
    case Value(v) => Ok(Some(v))
  }

  function DecodeArtifact(d: ArtifactDocument): Result<Part, ManifestError> {
    var commit :- Optional(d.commit);
    var spec :- Optional(d.spec);
    if !d.path.Value? || d.required.None? then Err(Decode)
    else
      var r := d.required.value;
      Ok((Artifact(r.component, r.version, commit, r.arch, r.kind, r.dispositions, d.path.value, r.sha256, spec, None),
          if d.image.Some? then Wire(d.image.value) else NoImage))
  }

  function DecodeArtifacts(ds: seq<ArtifactDocument>): Result<seq<Part>, ManifestError> {
    if ds == [] then Ok([])
    else
      var first :- DecodeArtifact(ds[0]);
      var rest :- DecodeArtifacts(ds[1..]);
      Ok([first] + rest)
  }

  /** The typed decode both doors share. */
  function DecodeManifest(d: Document): Result<RawManifest, ManifestError> {
    var format :- Optional(d.format);
    if format.Some? && format.value > M.U32_MAX then Err(Decode)
    else
      var pinset :- Optional(d.pinset);
      var releaseBuild :- match d.releaseBuild
                          case Absent => Ok(false)
                          case Value(b) => Ok(b)
                          case _ => Err(Decode);
      var trustSet :- Optional(d.trustSet);
      var members :- Optional(d.members);
      if !d.artifacts.Value? then Err(Decode)
      else
        var parts :- DecodeArtifacts(d.artifacts.value);
        Ok(RawManifest(format, pinset, releaseBuild, trustSet, members, parts))
  }

  function DecodeTrustSet(text: Option<Option<Bytes>>): Result<Option<Bytes>, ManifestError> {
    if text.None? then Ok(None)
    else if text.value.None? then Err(TrustSetNotBase64)
    else Ok(Some(text.value.value))
  }

  /** The derived `Deserialize`: the typed decode, then a conversion that refuses an absent version. */
  function Deserialize(d: Document): Result<Manifest, ManifestError> {
    var raw :- DecodeManifest(d);
    if raw.format.None? then Err(MissingFormatVersion)
    else
      var trustSet :- DecodeTrustSet(raw.trustSet);
      FromParts(raw.format, raw.pinset, raw.releaseBuild, raw.members, raw.parts, trustSet)
  }

  function ReadFormat(d: Document): Result<Option<nat>, ManifestError> {
    match d.format
    case Absent => Ok(None)
    case Null => Ok(None)
    case Malformed => Err(MalformedFormatVersion)
    case Value(n) => if n <= M.U32_MAX then Ok(Some(n)) else Err(MalformedFormatVersion)
  }

  function ArtifactDocuments(d: Document): seq<ArtifactDocument> {
    if d.artifacts.Value? then d.artifacts.value else []
  }

  /** The path of the first artifact a key is present in, or its index when it carries no path. */
  function FirstWith(ds: seq<ArtifactDocument>, index: nat, has: ArtifactDocument -> bool): Option<string> {
    if ds == [] then None
    else if has(ds[0]) then Some(if ds[0].path.Value? then ds[0].path.value else "#" + ToDecimal(index))
    else FirstWith(ds[1..], index + 1, has)
  }

  function ArtifactWithCommit(d: Document): Option<string> {
    FirstWith(ArtifactDocuments(d), 0, (a: ArtifactDocument) => !a.commit.Absent?)
  }

  function ArtifactWithSpec(d: Document): Option<string> {
    FirstWith(ArtifactDocuments(d), 0, (a: ArtifactDocument) => !a.spec.Absent?)
  }

  /** The pre-versioned baseline: no version, the legacy footer, and no key of the schema bump in any form. */
  predicate IsBaseline(footer: nat, d: Document) {
    && (d.format.Absent? || d.format.Null?)
    && footer == LEGACY_FOOTER_VERSION
    && ArtifactWithCommit(d).None? && d.trustSet.Absent? && ArtifactWithSpec(d).None? && d.members.Absent?
  }

  /** Which field failed the baseline. */
  function NonBaselineReason(d: Document): ManifestError {
    if ArtifactWithCommit(d).Some? then BaselineWithCommit(ArtifactWithCommit(d).value)
    else if !d.trustSet.Absent? then BaselineWithTrustSet
    else if ArtifactWithSpec(d).Some? then BaselineWithSpec(ArtifactWithSpec(d).value)
    else if !d.members.Absent? then BaselineWithArchiveMembers
    else MissingFormatVersion
  }

  function Parse(d: Document, footer: nat): Result<Manifest, ManifestError> {
    var format :- ReadFormat(d);
    var _ :- CheckFormat(format);
    if format.None? && !IsBaseline(footer, d) then Err(NonBaselineReason(d))
    else
      var raw :- DecodeManifest(d);
      var trustSet :- DecodeTrustSet(raw.trustSet);
      FromParts(format, raw.pinset, raw.releaseBuild, raw.members, raw.parts, trustSet)
  }

  // ---- what an accepted manifest is ----

  /** Every piece between slashes is a normal component: no root, no `.` or `..`, and nothing empty. */
  predicate IsPlainPath(path: string) {
    |Components(path)| == |Split(path, '/')| && forall c :: c in Components(path) ==> c.Normal?
  }

  /** A Git object name, of either hash. */
  predicate IsCommitId(s: string) { (|s| == 40 || |s| == 64) && I.IsHex(s) }

  /** What a unit may use before the formats that brought it: groups came with 8, profiles with 9. */
  predicate FitsFormat(unit: M.UnitTemplate, format: nat) {
    (format < 8 ==> unit.groups == []) && (format < 9 ==> unit.profiles == [])
  }

  predicate IsValidArtifact(a: Artifact, format: Option<nat>) {
    && a.dispositions != {} && IsPlainPath(a.path)
    && (a.commit.Some? <==> format.Some?) && (a.commit.Some? ==> IsCommitId(a.commit.value))
    && (a.spec.Some? ==>
          && format.Some? && M.IsValidSpec(a.spec.value, a.component, a.kind)
          && (a.spec.value.unit.Some? ==> FitsFormat(a.spec.value.unit.value, format.value)))
    && (a.image.Some? <==> format.Some? && format.value >= 6 && a.kind == M.ContainerImage)
    && (a.image.Some? ==> I.IsValidDeclaration(a.image.value))
  }

  lemma PlainPathIs(path: string)
    ensures IsPlainPath(path) <==> IsSafeArchivePath(path)
  {
    hide Split, Named;
    var pieces := Split(path, '/');
    PlainPiecesAre(pieces);
    SplitStart(path);
    assert pieces[0] in pieces;
    if path != "" && path[0] == '/' {
      assert Components(path)[0] == RootDir && RootDir in Components(path);
    } else if pieces[0] == "." {
      assert Components(path)[0] == CurDir && CurDir in Components(path);
    } else {
      assert Components(path) == Named(pieces);
    }
  }

  lemma SplitStart(path: string)
    ensures path != "" && path[0] == '/' ==> Split(path, '/')[0] == ""
  {
  }

  lemma {:induction false} NamedIsNoLonger(pieces: seq<string>)
    ensures |Named(pieces)| <= |pieces|
  {
    if pieces != [] { NamedIsNoLonger(pieces[1..]); }
  }

  predicate AllNormal(cs: seq<Component>) { forall c :: c in cs ==> c.Normal? }

  predicate AllOrdinary(pieces: seq<string>) { forall p :: p in pieces ==> p != "" && p != "." && p != ".." }

  lemma {:induction false} PlainPiecesAre(pieces: seq<string>)
    ensures |Named(pieces)| == |pieces| && AllNormal(Named(pieces)) <==> AllOrdinary(pieces)
  {
    if pieces != [] {
      var head, tail := pieces[0], pieces[1..];
      var rest := Named(tail);
      PlainPiecesAre(tail);
      NamedIsNoLonger(tail);
      assert forall p :: p in pieces <==> p == head || p in tail;
      assert head in pieces && head in [head] && forall p :: p in [head] ==> p == head;
      assert AllOrdinary(pieces) <==> AllOrdinary([head]) && AllOrdinary(tail);
      if head != "" && head != "." {
        var c := if head == ".." then ParentDir else Normal(head);
        assert Named(pieces) == [c] + rest;
        assert AllNormal(Named(pieces)) <==> AllNormal([c]) && AllNormal(rest);
        assert c in [c];
      } else {
        assert Named(pieces) == rest;
      }
    }
  }

  lemma ArtifactRulesAre(a: Artifact, format: Option<nat>)
    ensures IsPlainPath(a.path) <==> IsSafeArchivePath(a.path)
    ensures a.commit.Some? ==> (IsCommitId(a.commit.value) <==> IsValidCommit(a.commit.value))
    ensures a.spec.Some? && format.Some? ==>
              (CheckSpecFormat(a.spec.value, format, a.path).Ok?
               <==> (a.spec.value.unit.Some? ==> FitsFormat(a.spec.value.unit.value, format.value)))
  {
    PlainPathIs(a.path);
    if a.commit.Some? { CommitIs(a.commit.value); }
    hide IsPlainPath, IsSafeArchivePath, IsCommitId, IsValidCommit;
  }

  lemma CommitIs(s: string)
    ensures IsCommitId(s) <==> IsValidCommit(s)
  {
    I.HexIs(s);
    hide I.IsHex;
  }

  predicate UniquePaths(artifacts: seq<Artifact>) {
    forall i, j :: 0 <= i < j < |artifacts| ==> artifacts[i].path != artifacts[j].path
  }

  predicate IsValid(m: Manifest) {
    && (m.format.Some? ==> 3 <= m.format.value <= 9)
    && (m.members.Some? <==> m.format.Some?)
    && (m.trustSet.Some? ==> m.trustSet.value != [] && m.format.Some?)
    && UniquePaths(m.artifacts)
    && forall i :: 0 <= i < |m.artifacts| ==> IsValidArtifact(m.artifacts[i], m.format)
  }

  /** An artifact that passes is valid, keeps its path, and has a path not met before. */
  lemma CheckedArtifactIsValid(format: Option<nat>, a: Artifact, source: ImageSource, seen: set<string>)
    requires CheckArtifact(format, a, source, seen).Ok?
    ensures var b := CheckArtifact(format, a, source, seen).value;
            IsValidArtifact(b, format) && b.path == a.path && b.path !in seen && b == a.(image := b.image)
  {
    hide I.IsValidDeclaration, M.IsValidSpec, IsSafeArchivePath, IsPlainPath, IsValidCommit, IsCommitId,
         CheckSpecFormat, FitsFormat;
    ArtifactRulesAre(a, format);
  }

  lemma {:induction false} CheckedArtifactsAreValid(format: Option<nat>, parts: seq<Part>, seen: set<string>)
    requires CheckArtifacts(format, parts, seen).Ok?
    ensures var out := CheckArtifacts(format, parts, seen).value;
            && |out| == |parts| && UniquePaths(out)
            && forall i :: 0 <= i < |out| ==>
                 IsValidArtifact(out[i], format) && out[i].path !in seen && out[i] == parts[i].0.(image := out[i].image)
  {
    hide IsValidArtifact, CheckArtifact;
    if parts != [] {
      CheckedArtifactIsValid(format, parts[0].0, parts[0].1, seen);
      CheckedArtifactsAreValid(format, parts[1..], seen + {parts[0].0.path});
      assert forall i :: 0 <= i < |parts| - 1 ==> parts[1..][i] == parts[i + 1];
    }
  }

  /** Whatever the validation point accepts satisfies every invariant, from whichever door it came. */
  lemma AcceptedIsValid(format: Option<nat>, pinset: Option<string>, releaseBuild: bool, members: Option<seq<Member>>,
                        parts: seq<Part>, trustSet: Option<Bytes>)
    requires FromParts(format, pinset, releaseBuild, members, parts, trustSet).Ok?
    ensures IsValid(FromParts(format, pinset, releaseBuild, members, parts, trustSet).value)
  {
    CheckedArtifactsAreValid(format, parts, {});
    hide IsValidArtifact, CheckArtifacts;
  }

  lemma EveryDoorIsValid(d: Document, footer: nat)
    ensures Parse(d, footer).Ok? ==> IsValid(Parse(d, footer).value)
    ensures Deserialize(d).Ok? ==> IsValid(Deserialize(d).value)
  {
    hide FromParts, IsValid, IsBaseline, NonBaselineReason, DecodeArtifacts;
    if DecodeManifest(d).Ok? && DecodeTrustSet(DecodeManifest(d).value.trustSet).Ok? {
      var raw := DecodeManifest(d).value;
      var trustSet := DecodeTrustSet(raw.trustSet).value;
      if FromParts(raw.format, raw.pinset, raw.releaseBuild, raw.members, raw.parts, trustSet).Ok? {
        AcceptedIsValid(raw.format, raw.pinset, raw.releaseBuild, raw.members, raw.parts, trustSet);
      }
    }
  }

  // ---- revalidation ----

  lemma ValidArtifactRechecks(format: Option<nat>, a: Artifact, seen: set<string>)
    requires IsValidArtifact(a, format) && a.path !in seen
    ensures CheckArtifact(format, TypedPart(a).0, TypedPart(a).1, seen) == Ok(a)
  {
    hide I.IsValidDeclaration, M.IsValidSpec, IsSafeArchivePath, IsPlainPath, IsValidCommit, IsCommitId,
         CheckSpecFormat, FitsFormat;
    ArtifactRulesAre(a, format);
  }

  lemma {:induction false} ValidArtifactsRecheck(format: Option<nat>, artifacts: seq<Artifact>, seen: set<string>)
    requires UniquePaths(artifacts)
    requires forall i :: 0 <= i < |artifacts| ==> IsValidArtifact(artifacts[i], format) && artifacts[i].path !in seen
    ensures CheckArtifacts(format, TypedParts(artifacts), seen) == Ok(artifacts)
  {
    hide IsValidArtifact, CheckArtifact;
    if artifacts != [] {
      ValidArtifactRechecks(format, artifacts[0], seen);
      assert forall i :: 0 <= i < |artifacts| - 1 ==> artifacts[1..][i] == artifacts[i + 1];
      ValidArtifactsRecheck(format, artifacts[1..], seen + {artifacts[0].path});
      assert TypedParts(artifacts)[1..] == TypedParts(artifacts[1..]);
      assert artifacts == [artifacts[0]] + artifacts[1..];
    }
  }

  /** Attaching a trust set re-runs every check, and only its own two rules can still refuse. */
  lemma TrustSetRevalidates(m: Manifest, generation: Bytes)
    requires IsValid(m)
    ensures WithTrustSet(m, generation)
            == if generation == [] then Err(EmptyTrustSet)
               else if m.format.None? then Err(BaselineWithTrustSet)
               else Ok(m.(trustSet := Some(generation)))
  {
    ValidArtifactsRecheck(m.format, m.artifacts, {});
    hide IsValidArtifact, CheckArtifacts, UniquePaths;
  }

  /** Marking a release build commutes with attaching a trust set, refusals included, and is idempotent. */
  lemma ReleaseBuildCommutes(m: Manifest, generation: Bytes)
    ensures WithTrustSet(WithReleaseBuild(m), generation)
            == match WithTrustSet(m, generation)
               case Ok(n) => Ok(WithReleaseBuild(n))
               case Err(e) => Err(e)
    ensures WithReleaseBuild(WithReleaseBuild(m)) == WithReleaseBuild(m)
    ensures WithReleaseBuild(m) == Manifest(m.format, m.pinset, true, m.trustSet, m.members, m.artifacts)
  {
    hide CheckArtifacts, CheckMembers, CheckTrustSet, CheckFormat;
  }

  lemma {:induction false} TypedPartsAreKept(format: Option<nat>, artifacts: seq<Artifact>, seen: set<string>)
    requires CheckArtifacts(format, TypedParts(artifacts), seen).Ok?
    ensures CheckArtifacts(format, TypedParts(artifacts), seen).value == artifacts
  {
    hide CheckArtifact;
    if artifacts != [] {
      assert TypedParts(artifacts)[1..] == TypedParts(artifacts[1..]);
      TypedPartIsKept(format, artifacts[0], seen);
      TypedPartsAreKept(format, artifacts[1..], seen + {artifacts[0].path});
      assert artifacts == [artifacts[0]] + artifacts[1..];
    }
  }

  lemma TypedPartIsKept(format: Option<nat>, a: Artifact, seen: set<string>)
    requires CheckArtifact(format, TypedPart(a).0, TypedPart(a).1, seen).Ok?
    ensures CheckArtifact(format, TypedPart(a).0, TypedPart(a).1, seen).value == a
  {
    hide I.IsValidDeclaration, M.IsValidSpec, IsSafeArchivePath, IsValidCommit, CheckSpecFormat;
  }

  /** A producer's artifacts are accepted exactly when each is valid at the newest format, 9, and no path repeats. */
  lemma NewSucceedsExactly(pinset: Option<string>, members: seq<Member>, artifacts: seq<Artifact>)
    ensures var m := Manifest(Some(9), pinset, false, None, Some(members), artifacts);
            && (New(pinset, members, artifacts).Ok? <==> IsValid(m))
            && (IsValid(m) ==> New(pinset, members, artifacts) == Ok(m))
  {
    hide IsValidArtifact, CheckArtifacts, UniquePaths;
    var format := Some(FORMAT_VERSION);
    if CheckArtifacts(format, TypedParts(artifacts), {}).Ok? {
      TypedPartsAreKept(format, artifacts, {});
      CheckedArtifactsAreValid(format, TypedParts(artifacts), {});
    } else if UniquePaths(artifacts) && forall i :: 0 <= i < |artifacts| ==> IsValidArtifact(artifacts[i], format) {
      ValidArtifactsRecheck(format, artifacts, {});
    }
  }

  // ---- what resolving a declaration decides ----

  /** Whether an artifact has to have a declaration, and may have one. */
  predicate CarriesImage(format: Option<nat>, a: Artifact) {
    format.Some? && format.value >= IMAGE_FORMAT_VERSION && a.kind == M.ContainerImage
  }

  predicate IsAbsent(source: ImageSource) { source.NoImage? || (source.Wire? && source.value.NullImage?) }

  /** A schema number this version does not read. */
  predicate IsForeignSchema(source: ImageSource) {
    source.Wire? && source.value.ImageDocument? && source.value.schema.Some? && source.value.schema.value != I.SCHEMA
  }

  /** The declaration a source provides, given directly or by a document that decodes to one. */
  function Provided(source: ImageSource): Option<I.Declaration> {
    if IsAbsent(source) || IsForeignSchema(source) then None
    else if source.Typed? then Some(source.declaration)
    else source.value.decoded
  }

  /**
   * A declaration is accepted exactly where one is due, provided and valid, and nothing is accepted exactly
   * where none is due and the key is not there; each refusal names the one thing that is wrong.
   */
  lemma ResolveImageAccepts(format: Option<nat>, a: Artifact, source: ImageSource)
    ensures forall d :: ResolveImage(format, a, source) == Ok(Some(d)) <==>
              CarriesImage(format, a) && Provided(source) == Some(d) && I.IsValidDeclaration(d)
    ensures ResolveImage(format, a, source) == Ok(None) <==> !CarriesImage(format, a) && source.NoImage?
    ensures ResolveImage(format, a, source) == Err(MissingImage(a.path)) <==>
              CarriesImage(format, a) && IsAbsent(source)
    ensures ResolveImage(format, a, source) == Err(ImageDecode(a.path)) <==>
              CarriesImage(format, a) && !IsAbsent(source) && !IsForeignSchema(source) && Provided(source).None?
    ensures ResolveImage(format, a, source) == Err(InvalidImage(a.path)) <==>
              && CarriesImage(format, a)
              && (IsForeignSchema(source)
                  || (Provided(source).Some? && !I.IsValidDeclaration(Provided(source).value)))
    ensures ResolveImage(format, a, source) == Err(BaselineWithImage(a.path)) <==> format.None? && !source.NoImage?
    ensures ResolveImage(format, a, source) == Err(ImageBeforeFormat(a.path)) <==>
              format.Some? && format.value < IMAGE_FORMAT_VERSION && !source.NoImage?
    ensures ResolveImage(format, a, source) == Err(ImageOnNonImage(a.path)) <==>
              && format.Some? && format.value >= IMAGE_FORMAT_VERSION && a.kind != M.ContainerImage
              && !source.NoImage?
  {
    hide I.IsValidDeclaration;
  }

  // ---- the doors against each other ----

  /** On a document that names a version, the two doors accept the same and return the same manifest. */
  lemma DoorsAgreeOnVersioned(d: Document, footer: nat, m: Manifest)
    requires !d.format.Absent? && !d.format.Null?
    ensures Parse(d, footer) == Ok(m) <==> Deserialize(d) == Ok(m)
  {
    hide IsBaseline, NonBaselineReason, DecodeArtifacts, CheckArtifacts, CheckMembers, CheckTrustSet;
  }

  /** Only `parse` returns an unversioned manifest, only for the baseline shape, and that manifest is bare. */
  lemma UnversionedIsBaseline(d: Document, footer: nat)
    ensures Deserialize(d).Ok? ==> Deserialize(d).value.format.Some?
    ensures Parse(d, footer).Ok? && Parse(d, footer).value.format.None? ==>
              && IsBaseline(footer, d)
              && var m := Parse(d, footer).value;
              && m.members == None && m.trustSet == None
              && forall i :: 0 <= i < |m.artifacts| ==>
                   m.artifacts[i].commit == None && m.artifacts[i].spec == None && m.artifacts[i].image == None
  {
    EveryDoorIsValid(d, footer);
    hide IsBaseline, NonBaselineReason, DecodeManifest, CheckArtifacts, CheckSpecFormat, IsSafeArchivePath,
        M.IsValidSpec;
  }

  /** The baseline conjunction in plain terms: no artifact carries either key in any form. */
  lemma BaselineHasNoKeys(d: Document, footer: nat)
    ensures IsBaseline(footer, d)
            <==> && (d.format.Absent? || d.format.Null?) && footer == LEGACY_FOOTER_VERSION
                 && d.trustSet.Absent? && d.members.Absent?
                 && forall a :: a in ArtifactDocuments(d) ==> a.commit.Absent? && a.spec.Absent?
  {
    FirstWithIs(ArtifactDocuments(d), 0, (a: ArtifactDocument) => !a.commit.Absent?);
    FirstWithIs(ArtifactDocuments(d), 0, (a: ArtifactDocument) => !a.spec.Absent?);
  }

  lemma {:induction false} FirstWithIs(ds: seq<ArtifactDocument>, index: nat, has: ArtifactDocument -> bool)
    ensures FirstWith(ds, index, has).None? <==> forall a :: a in ds ==> !has(a)
  {
    if ds != [] {
      FirstWithIs(ds[1..], index + 1, has);
      assert forall a :: a in ds <==> a == ds[0] || a in ds[1..];
    }
  }

  // ---- the validation loop ----

  /** `resolve_image`, running the declaration's own validator. */
  method ResolveImageOf(format: Option<nat>, a: Artifact, source: ImageSource)
    returns (result: Result<Option<I.Declaration>, ManifestError>)
    ensures result == ResolveImage(format, a, source)
  {
    hide I.IsValidDeclaration;
    var present := !source.NoImage?;
    if format.None? { return if present then Err(BaselineWithImage(a.path)) else Ok(None); }
    if format.value < IMAGE_FORMAT_VERSION { return if present then Err(ImageBeforeFormat(a.path)) else Ok(None); }
    if a.kind != M.ContainerImage { return if present then Err(ImageOnNonImage(a.path)) else Ok(None); }
    var declaration: I.Declaration;
    match source {
      case NoImage => return Err(MissingImage(a.path));
      case Typed(d) => declaration := d;
      case Wire(value) =>
        if value.NullImage? { return Err(MissingImage(a.path)); }
        var decoded := DecodeDeclaration(a.path, value);
        if decoded.Err? { return Err(decoded.error); }
        declaration := decoded.value;
    }
    var checked := I.Validate(declaration);
    result := if checked.Err? then Err(InvalidImage(a.path)) else Ok(Some(declaration));
  }

  /** The constructor every door goes through, as the loop over artifacts the source runs. */
  method Build(format: Option<nat>, pinset: Option<string>, releaseBuild: bool, members: Option<seq<Member>>,
               parts: seq<Part>, trustSet: Option<Bytes>) returns (result: Result<Manifest, ManifestError>)
    ensures result == FromParts(format, pinset, releaseBuild, members, parts, trustSet)
  {
    hide IsSafeArchivePath, ResolveImage, M.IsValidSpec, CheckSpecFormat, IsValidCommit, CheckTrustSet;
    var checked := CheckFormat(format);
    if checked.Err? { return Err(checked.error); }
    checked := CheckMembers(members, format);
    if checked.Err? { return Err(checked.error); }
    var seen: set<string> := {};
    var validated: seq<Artifact> := [];
    assert parts[0..] == parts;
    PrefixedNothing(CheckArtifacts(format, parts, {}));
    for i := 0 to |parts|
      invariant CheckArtifacts(format, parts, {}) == Prefixed(validated, CheckArtifacts(format, parts[i..], seen))
    {
      assert parts[i..][0] == parts[i] && parts[i..][1..] == parts[i + 1..];
      var (artifact, image) := parts[i];
      if artifact.dispositions == {} { return Err(EmptyDispositions(artifact.path)); }
      if !IsSafeArchivePath(artifact.path) { return Err(UnsafeArchivePath(artifact.path)); }
      if artifact.path in seen { return Err(DuplicateArchivePath(artifact.path)); }
      ghost var before := seen;
      seen := seen + {artifact.path};
      checked := CheckCommit(artifact, format);
      if checked.Err? { return Err(checked.error); }
      if artifact.spec.Some? {
        if format.None? { return Err(BaselineWithSpec(artifact.path)); }
        var valid := M.Validate(artifact.spec.value, artifact.component, artifact.kind);
        if valid.Err? { return Err(InvalidSpec(artifact.path)); }
        checked := CheckSpecFormat(artifact.spec.value, format, artifact.path);
        if checked.Err? { return Err(checked.error); }
      }
      var resolved := ResolveImageOf(format, artifact, image);
      if resolved.Err? { return Err(resolved.error); }
      var done := artifact.(image := resolved.value);
      assert CheckArtifact(format, artifact, image, before) == Ok(done);
      PrefixedSnoc(validated, done, CheckArtifacts(format, parts[i + 1..], seen));
      validated := validated + [done];
    }
    assert validated + [] == validated;
    checked := CheckTrustSet(trustSet, format);
    if checked.Err? { return Err(checked.error); }
    result := Ok(Manifest(format, pinset, releaseBuild, trustSet, members, validated));
  }
}
