/** The image declaration's syntax rules and the canonical runtime alias (src/image.rs). */
module ImageDeclaration {
  import opened Options
  import opened Text
  import opened Regex
  import opened ImageGrammar
  import opened ImageReading
  import opened ImageReference

  const SCHEMA: nat := 1
  const ALIAS_REGISTRY := "runtime.invalid"
  const ALIAS_TAG_PREFIX := "cfg-"
  const DIGEST_PREFIX := "sha256:"
  const COMMIT_HEX_LEN: nat := 40

  datatype SegmentField = NamespaceField | ComponentField | DependencyField

  datatype DigestField = ConfigDigest | PinnedDigest | SelectedManifestDigest

  datatype DeclarationError =
    | UnsupportedSchema(found: nat)
    | InvalidSegment(segment: SegmentField, value: string)
    | EmptyPublicRefs
    | InvalidReference(reference: string, source: ReferenceError)
    | DuplicateReference(reference: string, first: string)
    | EmptyVariant
    | InvalidDigest(digest: DigestField, value: string)
    | InvalidRegistryRepository(repository: string, source: ReferenceError)
    | InvalidRegistryTag(tag: string)
    | InvalidRegistryVersion(version: string)
    | InvalidSourceRepository(repository: string)
    | InvalidSourceCommit(commit: string)
    | InvalidRuntimeAlias(alias: string, source: ReferenceError)

  datatype Provenance =
    | Registry(repository: string, tag: string, version: Option<string>, pinned: string, selected: string)
    | ProductBuild(sourceRepository: string, commit: string)

  datatype Declaration = Declaration(
    schema: nat, namespace: string, component: string, dependency: string, publicRefs: seq<string>,
    variant: Option<string>, configDigest: string, provenance: Provenance)

  const SEGMENT_CHARS: set<char> := LOWER_ALNUM + {'-', '_'}

  predicate IsValidSegment(value: string) {
    value != "" && value[0] in LOWER_ALNUM && AllIn(value[1..], SEGMENT_CHARS)
  }

  predicate IsDigest(value: string) {
    DIGEST_PREFIX <= value && IsHexIdentifier(value[|DIGEST_PREFIX|..])
  }

  // ---- the canonical runtime alias ----

  function AliasPath(namespace: string, component: string, dependency: string): string {
    namespace + "/" + component + "/" + dependency
  }

  function AliasOf(namespace: string, component: string, dependency: string, hex: string): string {
    ALIAS_REGISTRY + "/" + AliasPath(namespace, component, dependency) + ":" + (ALIAS_TAG_PREFIX + hex)
  }

  function CanonicalRuntimeAlias(namespace: string, component: string, dependency: string, digest: string)
    : Result<string, DeclarationError>
  {
    if !IsValidSegment(namespace) then Err(InvalidSegment(NamespaceField, namespace))
    else if !IsValidSegment(component) then Err(InvalidSegment(ComponentField, component))
    else if !IsValidSegment(dependency) then Err(InvalidSegment(DependencyField, dependency))
    else if !IsDigest(digest) then Err(InvalidDigest(ConfigDigest, digest))
    else
      var alias := AliasOf(namespace, component, dependency, digest[|DIGEST_PREFIX|..]);
      match ParseTaggedReference(alias)
      case Ok(_) => Ok(alias)
      case Err(source) => Err(InvalidRuntimeAlias(alias, source))
  }

  lemma AliasRegistryLooksLikeADomain()
    ensures LooksLikeDomain(ALIAS_REGISTRY) && '/' !in ALIAS_REGISTRY && ':' !in ALIAS_REGISTRY
  {
    assert ALIAS_REGISTRY[7] == '.';
  }

  lemma AliasPiecesAreComponents()
    ensures IsValidDomainComponent("runtime") && IsValidDomainComponent("invalid")
  {
    var r, i := "runtime", "invalid";
    assert forall k :: 0 <= k < |r| ==> r[k] in LOWER;
    assert forall k :: 0 <= k < |i| ==> i[k] in LOWER;
    assert LOWER <= ALNUM;
  }

  lemma AliasRegistryIsADomain()
    ensures IsValidDomainAndPort(ALIAS_REGISTRY)
  {
    AliasPiecesAreComponents();
    assert ALIAS_REGISTRY == "runtime" + ['.'] + "invalid";
    hide *;
    DottedDomain("runtime", "invalid");
  }

  /** Two domain components joined by a dot are a domain. */
  lemma DottedDomain(a: string, b: string)
    requires IsValidDomainComponent(a) && IsValidDomainComponent(b)
    ensures IsValidDomainAndPort(a + ['.'] + b)
  {
    var s := a + ['.'] + b;
    assert s[0] == a[0];
    forall i | 0 <= i < |s| ensures s[i] != ':' {
      if i < |a| { assert s[i] == a[i]; } else if i > |a| { assert s[i] == b[i - |a| - 1]; }
    }
    assert '.' !in a && '.' !in b;
    TwoPieces(a, b, '.');
    assert Find(s, ':') == |s| && s[..|s|] == s;
    hide Find, Split, IsValidDomainComponent;
  }

  lemma TwoPieces(a: string, b: string, c: char)
    requires c !in a && c !in b
    ensures Split(a + [c] + b, c) == [a, b]
  {
    var parts := [a, b];
    SplitJoin(parts, c);
    assert Join(parts[1..], c) == b;
    assert Join(parts, c) == a + [c] + b;
  }

  lemma AliasTagIsValid(hex: string)
    requires IsHexIdentifier(hex)
    ensures IsValidTag(ALIAS_TAG_PREFIX + hex)
  {
    var tag := ALIAS_TAG_PREFIX + hex;
    forall i | 0 <= i < |tag| - 1 ensures tag[1..][i] in TAG_CHARS {
      if i >= 3 { assert tag[1..][i] == hex[i - 3]; } else { assert tag[1..][i] == "fg-"[i]; }
    }
  }

  lemma SegmentChars(value: string)
    requires IsValidSegment(value)
    ensures AllIn(value, SEGMENT_CHARS) && '/' !in value && '@' !in value && ':' !in value
  {
    forall i | 0 <= i < |value| ensures value[i] in SEGMENT_CHARS { if i > 0 { assert value[i] == value[1..][i - 1]; } }
  }

  lemma AliasPathSplits(namespace: string, component: string, dependency: string)
    requires '/' !in namespace && '/' !in component && '/' !in dependency
    ensures Split(AliasPath(namespace, component, dependency), '/') == [namespace, component, dependency]
  {
    hide Split;
    var parts := [namespace, component, dependency];
    SplitJoin(parts, '/');
    assert Join(parts[1..][1..], '/') == dependency;
    assert Join(parts[1..], '/') == component + ['/'] + dependency;
    assert Join(parts, '/') == AliasPath(namespace, component, dependency);
  }

  lemma AliasPathChars(namespace: string, component: string, dependency: string)
    requires IsValidSegment(namespace) && IsValidSegment(component) && IsValidSegment(dependency)
    ensures AllIn(AliasPath(namespace, component, dependency), SEGMENT_CHARS + {'/'})
  {
    SegmentChars(namespace);
    SegmentChars(component);
    SegmentChars(dependency);
    hide IsValidSegment;
    var path := AliasPath(namespace, component, dependency);
    forall i | 0 <= i < |path| ensures path[i] in SEGMENT_CHARS + {'/'} {
      if i < |namespace| { assert path[i] == namespace[i]; }
      else if |namespace| < i < |namespace| + 1 + |component| { assert path[i] == component[i - |namespace| - 1]; }
      else if i > |namespace| + 1 + |component| { assert path[i] == dependency[i - |namespace| - |component| - 2]; }
    }
  }

  /** Which references the parser gives for an alias of valid segments: the path rules alone decide. */
  lemma AliasParse(namespace: string, component: string, dependency: string, hex: string)
    requires IsValidSegment(namespace) && IsValidSegment(component) && IsValidSegment(dependency)
    requires IsHexIdentifier(hex)
    ensures var path := AliasPath(namespace, component, dependency);
            ParseTaggedReference(AliasOf(namespace, component, dependency, hex))
            == if !IsValidPath(path) then Err(InvalidPath(path))
               else if |path| > MAX_REPOSITORY_PATH then Err(PathTooLong(|path|))
               else Ok(Reference(Name(ALIAS_REGISTRY, path), ALIAS_TAG_PREFIX + hex))
  {
    hide IsValidTag, IsValidPath, IsHexIdentifier, NormalizeName, SplitTag, AliasPath, IsValidSegment, AllIn;
    var path, tag := AliasPath(namespace, component, dependency), ALIAS_TAG_PREFIX + hex;
    AliasPathChars(namespace, component, dependency);
    AliasTagIsValid(hex);
    TagChars(tag);
    assert '@' !in path by { AllInMisses(path, SEGMENT_CHARS + {'/'}, '@'); }
    var name := ALIAS_REGISTRY + "/" + path;
    assert AliasOf(namespace, component, dependency, hex) == name + ":" + tag;
    AliasHasNoAt(path, tag);
    SplitTagOfPrinted(name, tag);
    AliasNormalizes(name + ":" + tag, path);
  }

  lemma AllInMisses(s: string, cs: set<char>, c: char)
    requires AllIn(s, cs) && c !in cs
    ensures c !in s
  {
  }

  lemma AliasHasNoAt(path: string, tag: string)
    requires '@' !in path && '@' !in tag
    ensures '@' !in ALIAS_REGISTRY + "/" + path + ":" + tag
  {
    assert '@' !in "runtime.invalid" && '@' !in "/" && '@' !in ":";
    assert '@' !in ALIAS_REGISTRY + "/";
    assert '@' !in ALIAS_REGISTRY + "/" + path;
  }

  lemma AliasNormalizes(alias: string, path: string)
    requires AllIn(path, SEGMENT_CHARS + {'/'}) && (ALIAS_REGISTRY + "/") <= alias
    ensures NormalizeName(alias, ALIAS_REGISTRY + "/" + path)
            == if !IsValidPath(path) then Err(InvalidPath(path))
               else if |path| > MAX_REPOSITORY_PATH then Err(PathTooLong(|path|))
               else Ok(Name(ALIAS_REGISTRY, path))
  {
    assert !HasUppercase(path);
    var registry := ALIAS_REGISTRY;
    assert alias[|registry|] == (registry + "/")[|registry|] == '/';
    hide Find, IsValidPath, IsValidDomainAndPort, IsHexIdentifier, LooksLikeDomain, SplitDockerDomain, HasUppercase;
    AliasRegistryIsADomain();
    SlashIsNotHex(alias);
    AliasSplits(path);
  }

  lemma AliasSplits(path: string)
    ensures SplitDockerDomain(ALIAS_REGISTRY + "/" + path) == Name(ALIAS_REGISTRY, path)
  {
    AliasRegistryLooksLikeADomain();
    SplitAt(ALIAS_REGISTRY, path);
    hide Find, LooksLikeDomain;
    assert |ALIAS_REGISTRY| == 15 && |LOCALHOST| == 9;
    assert ALIAS_REGISTRY[0] == 'r';
  }

  /** An alias exists exactly for valid segments and digest, each segment also a path component, the path bounded. */
  lemma AliasSucceedsExactly(namespace: string, component: string, dependency: string, digest: string)
    ensures CanonicalRuntimeAlias(namespace, component, dependency, digest).Ok?
            <==> && IsValidSegment(namespace) && IsValidSegment(component) && IsValidSegment(dependency)
                 && IsDigest(digest)
                 && Matches(COMPONENT, namespace) && Matches(COMPONENT, component) && Matches(COMPONENT, dependency)
                 && |namespace| + |component| + |dependency| + 2 <= MAX_REPOSITORY_PATH
  {
    hide Matches, Split, ParseTaggedReference, IsValidSegment, AliasOf;
    if IsValidSegment(namespace) && IsValidSegment(component) && IsValidSegment(dependency) && IsDigest(digest) {
      AliasParse(namespace, component, dependency, digest[|DIGEST_PREFIX|..]);
      SegmentChars(namespace);
      SegmentChars(component);
      SegmentChars(dependency);
      AliasPathSplits(namespace, component, dependency);
    }
  }

  /** An alias parses to its own parts and prints as itself: nothing is prefixed or rewritten. */
  lemma AliasIsItsOwnNormalForm(namespace: string, component: string, dependency: string, digest: string)
    requires CanonicalRuntimeAlias(namespace, component, dependency, digest).Ok?
    ensures var alias := CanonicalRuntimeAlias(namespace, component, dependency, digest).value;
            && ParseTaggedReference(alias).Ok?
            && var r := ParseTaggedReference(alias).value;
            && r.name.domain == ALIAS_REGISTRY
            && Split(r.name.path, '/') == [namespace, component, dependency]
            && r.tag == ALIAS_TAG_PREFIX + digest[|DIGEST_PREFIX|..]
            && Print(r) == alias
  {
    hide ParseTaggedReference, IsValidSegment, Split;
    AliasParse(namespace, component, dependency, digest[|DIGEST_PREFIX|..]);
    SegmentChars(namespace);
    SegmentChars(component);
    SegmentChars(dependency);
    AliasPathSplits(namespace, component, dependency);
  }

  /** Distinct inputs never share an alias. */
  lemma AliasIsInjective(ns1: string, c1: string, d1: string, g1: string,
                         ns2: string, c2: string, d2: string, g2: string)
    requires CanonicalRuntimeAlias(ns1, c1, d1, g1).Ok?
    requires CanonicalRuntimeAlias(ns2, c2, d2, g2) == CanonicalRuntimeAlias(ns1, c1, d1, g1)
    ensures ns1 == ns2 && c1 == c2 && d1 == d2 && g1 == g2
  {
    AliasIsItsOwnNormalForm(ns1, c1, d1, g1);
    AliasIsItsOwnNormalForm(ns2, c2, d2, g2);
    hide ParseTaggedReference, IsValidSegment, Split, AliasOf, IsHexIdentifier, AllIn;
    assert [ns1, c1, d1] == [ns2, c2, d2];
    assert [ns1, c1, d1][0] == [ns2, c2, d2][0] && [ns1, c1, d1][1] == [ns2, c2, d2][1];
    assert [ns1, c1, d1][2] == [ns2, c2, d2][2];
    TagGivesDigest(DIGEST_PREFIX, ALIAS_TAG_PREFIX, g1, g2);
  }

  lemma TagGivesDigest(prefix: string, tag: string, a: string, b: string)
    requires prefix <= a && prefix <= b && tag + a[|prefix|..] == tag + b[|prefix|..]
    ensures a == b
  {
    var n := |prefix|;
    assert a[n..] == (tag + a[n..])[|tag|..] && b[n..] == (tag + b[n..])[|tag|..];
    assert a == prefix + a[n..] && b == prefix + b[n..];
  }

  // ---- validation of a declaration ----

  /** Every reference parses, and no two name the same thing once normalised. */
  predicate ReferencesDistinct(refs: seq<string>) {
    && (forall i :: 0 <= i < |refs| ==> ParseTaggedReference(refs[i]).Ok?)
    && (forall i, j :: 0 <= i < j < |refs| ==> ParseTaggedReference(refs[i]) != ParseTaggedReference(refs[j]))
  }

  /** What a refusal of the references says: the first one that breaks a rule, and which earlier one it repeats. */
  ghost predicate ExplainsReferences(refs: seq<string>, e: DeclarationError) {
    match e
    case EmptyPublicRefs => refs == []
    case InvalidReference(reference, source) =>
      exists i :: 0 <= i < |refs| && ReferencesDistinct(refs[..i]) && refs[i] == reference
                  && ParseTaggedReference(reference) == Err(source)
    case DuplicateReference(reference, first) =>
      exists i, j :: 0 <= j < i < |refs| && ReferencesDistinct(refs[..i]) && refs[i] == reference && refs[j] == first
                     && ParseTaggedReference(reference).Ok?
                     && ParseTaggedReference(reference) == ParseTaggedReference(first)
    case _ => false
  }

  method CheckReferences(refs: seq<string>) returns (result: Result<(), DeclarationError>)
    ensures result.Ok? <==> refs != [] && ReferencesDistinct(refs)
    ensures result.Err? ==> ExplainsReferences(refs, result.error)
  {
    hide ParseTaggedReference;
    if refs == [] { return Err(EmptyPublicRefs); }
    var seen: seq<(Reference, string)> := [];
    var i := 0;
    while i < |refs|
      invariant 0 <= i <= |refs| && |seen| == i
      invariant forall k :: 0 <= k < i ==> seen[k].1 == refs[k] && ParseTaggedReference(refs[k]) == Ok(seen[k].0)
      invariant forall j, k :: 0 <= j < k < i ==> seen[j].0 != seen[k].0
    {
      assert ReferencesDistinct(refs[..i]) by { assert forall k :: 0 <= k < i ==> refs[..i][k] == refs[k]; }
      var parsed := ParseTaggedReference(refs[i]);
      if parsed.Err? { return Err(InvalidReference(refs[i], parsed.error)); }
      var j := 0;
      while j < |seen|
        invariant 0 <= j <= |seen|
        invariant forall k :: 0 <= k < j ==> seen[k].0 != parsed.value
      {
        if seen[j].0 == parsed.value {
          assert ParseTaggedReference(refs[j]) == ParseTaggedReference(refs[i]);
          return Err(DuplicateReference(refs[i], seen[j].1));
        }
        j := j + 1;
      }
      seen := seen + [(parsed.value, refs[i])];
      i := i + 1;
    }
    result := Ok(());
  }

  /** Unicode White_Space, what `trim` removes. */
  predicate IsWhitespace(c: char) {
    '\t' <= c <= '\r' || c == ' '
        || c in {'\U{85}', '\U{A0}', '\U{1680}', '\U{2028}', '\U{2029}', '\U{202F}', '\U{205F}', '\U{3000}'}
    || '\U{2000}' <= c <= '\U{200A}'
  }

  predicate IsSourceRepository(s: string) {
    s != "" && !IsWhitespace(s[0]) && !IsWhitespace(s[|s| - 1]) && forall i :: 0 <= i < |s| ==> !IsControl(s[i])
  }

  function ValidateProvenance(p: Provenance): Result<(), DeclarationError> {
    match p
    case Registry(repository, tag, version, pinned, selected) =>
      (match ValidateCanonicalRepository(repository)
       case Err(source) => Err(InvalidRegistryRepository(repository, source))
       case Ok(_) =>
         if !IsValidTag(tag) then Err(InvalidRegistryTag(tag))
         else if version.Some? && !IsCanonicalSemver(version.value) then Err(InvalidRegistryVersion(version.value))
         else if !IsDigest(pinned) then Err(InvalidDigest(PinnedDigest, pinned))
         else if !IsDigest(selected) then Err(InvalidDigest(SelectedManifestDigest, selected))
         else Ok(()))
    case ProductBuild(repository, commit) =>
      if !IsSourceRepository(repository) then Err(InvalidSourceRepository(repository))
      else if |commit| != COMMIT_HEX_LEN || !AllIn(commit, LOWER_HEX) then Err(InvalidSourceCommit(commit))
      else Ok(())
  }

  // ---- the rules, in their own words ----

  /** `[a-z0-9][a-z0-9_-]*` */
  predicate IsSegment(s: string) { Matches(HeadTail(LOWER_ALNUM, LOWER_ALNUM + {'-', '_'}), s) }

  predicate IsHex(s: string) { Matches(Star(Chars(LOWER_HEX)), s) }

  /** `sha256:` and 64 hexadecimal digits. */
  predicate IsSha256(s: string) { |s| == 71 && s[..7] == "sha256:" && IsHex(s[7..]) }

  /** The 25 code points of the property White_Space. */
  predicate IsSpace(c: char) {
    var n := c as int;
    9 <= n <= 13 || n in {0x20, 0x85, 0xA0, 0x1680, 0x2028, 0x2029, 0x202F, 0x205F, 0x3000} || 0x2000 <= n <= 0x200A
  }

  /** Nonempty, with no space at either end and no control character. */
  predicate IsSource(s: string) {
    && s != "" && !IsSpace(s[0]) && !IsSpace(s[|s| - 1])
    && forall i :: 0 <= i < |s| ==> 32 <= s[i] as int < 127 || 160 <= s[i] as int
  }

  predicate IsProvenance(p: Provenance) {
    match p
    case Registry(repository, tag, version, pinned, selected) =>
      && ValidateCanonicalRepository(repository).Ok? && IsTag(tag)
      && (version.Some? ==> Matches(SEMVER, version.value)) && IsSha256(pinned) && IsSha256(selected)
    case ProductBuild(repository, commit) => IsSource(repository) && |commit| == 40 && IsHex(commit)
  }

  /** Every syntax rule at once, in no order. */
  predicate IsValidDeclaration(d: Declaration) {
    && d.schema == 1 && IsSegment(d.namespace) && IsSegment(d.component) && IsSegment(d.dependency)
    && d.publicRefs != [] && ReferencesDistinct(d.publicRefs)
    && d.variant != Some("") && IsSha256(d.configDigest) && IsProvenance(d.provenance)
  }

  /** What a refused provenance says. */
  predicate ExplainsProvenance(p: Provenance, e: DeclarationError) {
    match p
    case Registry(repository, tag, version, pinned, selected) =>
      (match ValidateCanonicalRepository(repository)
       case Err(source) => e == InvalidRegistryRepository(repository, source)
       case Ok(_) =>
         if !IsTag(tag) then e == InvalidRegistryTag(tag)
         else if version.Some? && !Matches(SEMVER, version.value) then e == InvalidRegistryVersion(version.value)
         else if !IsSha256(pinned) then e == InvalidDigest(PinnedDigest, pinned)
         else !IsSha256(selected) && e == InvalidDigest(SelectedManifestDigest, selected))
    case ProductBuild(repository, commit) =>
      if !IsSource(repository) then e == InvalidSourceRepository(repository)
      else !(|commit| == 40 && IsHex(commit)) && e == InvalidSourceCommit(commit)
  }

  /** What a refusal says: a rule the declaration breaks, every rule checked before it being kept. */
  ghost predicate Explains(d: Declaration, e: DeclarationError) {
    if d.schema != 1 then e == UnsupportedSchema(d.schema)
    else if !IsSegment(d.namespace) then e == InvalidSegment(NamespaceField, d.namespace)
    else if !IsSegment(d.component) then e == InvalidSegment(ComponentField, d.component)
    else if !IsSegment(d.dependency) then e == InvalidSegment(DependencyField, d.dependency)
    else if d.publicRefs == [] || !ReferencesDistinct(d.publicRefs) then ExplainsReferences(d.publicRefs, e)
    else if d.variant == Some("") then e == EmptyVariant
    else if !IsSha256(d.configDigest) then e == InvalidDigest(ConfigDigest, d.configDigest)
    else ExplainsProvenance(d.provenance, e)
  }

  lemma SegmentIs(s: string)
    ensures IsSegment(s) <==> IsValidSegment(s)
  {
    HeadTailIs(LOWER_ALNUM, LOWER_ALNUM + {'-', '_'}, s);
    hide Matches;
  }

  lemma HexIs(s: string)
    ensures IsHex(s) <==> AllIn(s, LOWER_HEX)
  {
    StarCharsIs(LOWER_HEX, s);
    hide Matches;
  }

  lemma Sha256Is(s: string)
    ensures IsSha256(s) <==> IsDigest(s)
  {
    hide IsHex;
    if |s| >= 7 { HexIs(s[7..]); }
    assert |DIGEST_PREFIX| == 7;
    if DIGEST_PREFIX <= s { assert s[..7] == DIGEST_PREFIX; }
  }

  lemma SourceIs(s: string)
    ensures IsSource(s) <==> IsSourceRepository(s)
  {
    forall c: char ensures IsSpace(c) <==> IsWhitespace(c) { SpaceIs(c); }
    forall c: char ensures IsControl(c) <==> c as int < 32 || 127 <= c as int <= 159 { ControlIs(c); }
    hide IsSpace, IsWhitespace, IsControl;
    if IsSourceRepository(s) {
      forall i | 0 <= i < |s| ensures 32 <= s[i] as int < 127 || 160 <= s[i] as int { assert !IsControl(s[i]); }
    }
  }

  lemma SpaceIs(c: char)
    ensures IsSpace(c) <==> IsWhitespace(c)
  {
  }

  lemma ProvenanceIs(p: Provenance)
    ensures ValidateProvenance(p).Ok? <==> IsProvenance(p)
    ensures ValidateProvenance(p).Err? ==> ExplainsProvenance(p, ValidateProvenance(p).error)
  {
    hide ValidateCanonicalRepository, IsTag, IsValidTag, Matches, IsCanonicalSemver, IsSha256, IsDigest, IsSource,
         IsSourceRepository, IsHex;
    match p
    case Registry(_, tag, version, pinned, selected) =>
      TagIsTag(tag);
      if version.Some? { SemverIs(version.value); }
      Sha256Is(pinned);
      Sha256Is(selected);
    case ProductBuild(repository, commit) =>
      SourceIs(repository);
      HexIs(commit);
  }

  /** Only one refusal can be explained, so the first rule broken is what is reported. */
  lemma ExplanationIsUnique(d: Declaration, e: DeclarationError, f: DeclarationError)
    requires Explains(d, e) && Explains(d, f)
    ensures e == f
  {
    hide IsSegment, IsSha256, ReferencesDistinct, ExplainsReferences, ExplainsProvenance;
    if ExplainsProvenance(d.provenance, e) && ExplainsProvenance(d.provenance, f) {
      ProvenanceExplanationIsUnique(d.provenance, e, f);
    }
    if ExplainsReferences(d.publicRefs, e) && ExplainsReferences(d.publicRefs, f) {
      ReferenceExplanationIsUnique(d.publicRefs, e, f);
    }
  }

  lemma ProvenanceExplanationIsUnique(p: Provenance, e: DeclarationError, f: DeclarationError)
    requires ExplainsProvenance(p, e) && ExplainsProvenance(p, f)
    ensures e == f
  {
    hide IsTag, IsSha256, IsSource, IsHex, Matches, ValidateCanonicalRepository;
  }

  /** The position of the first reference that breaks a rule. */
  ghost predicate IsFirstOffender(refs: seq<string>, i: nat) {
    i < |refs| && ReferencesDistinct(refs[..i]) && !ReferencesDistinct(refs[..i + 1])
  }

  lemma FirstOffenderIsUnique(refs: seq<string>, i: nat, j: nat)
    requires IsFirstOffender(refs, i) && IsFirstOffender(refs, j)
    ensures i == j
  {
    hide ReferencesDistinct;
    if i < j {
      PrefixDistinct(refs, i + 1, j);
    } else if j < i {
      PrefixDistinct(refs, j + 1, i);
    }
  }

  lemma PrefixDistinct(refs: seq<string>, m: nat, n: nat)
    requires m <= n <= |refs| && ReferencesDistinct(refs[..n])
    ensures ReferencesDistinct(refs[..m])
  {
    hide ParseTaggedReference;
    assert forall k :: 0 <= k < m ==> refs[..m][k] == refs[..n][k];
  }

  /** Where a refusal's first offender is, and, for a repeat, the one earlier reference it repeats. */
  lemma OffenderOf(refs: seq<string>, e: DeclarationError) returns (i: nat, j: nat)
    requires refs != [] && ExplainsReferences(refs, e)
    ensures IsFirstOffender(refs, i)
    ensures e.InvalidReference? ==> refs[i] == e.reference && ParseTaggedReference(e.reference) == Err(e.source)
    ensures e.DuplicateReference? ==>
              j < i && e == DuplicateReference(refs[i], refs[j])
              && ParseTaggedReference(refs[i]).Ok? && ParseTaggedReference(refs[j]) == ParseTaggedReference(refs[i])
  {
    hide ParseTaggedReference;
    if e.InvalidReference? {
      i :| 0 <= i < |refs| && ReferencesDistinct(refs[..i]) && refs[i] == e.reference
           && ParseTaggedReference(e.reference) == Err(e.source);
      j := 0;
      assert refs[..i + 1][i] == refs[i];
    } else {
      i, j :| 0 <= j < i < |refs| && ReferencesDistinct(refs[..i]) && refs[i] == e.reference && refs[j] == e.first
              && ParseTaggedReference(e.reference).Ok?
              && ParseTaggedReference(e.reference) == ParseTaggedReference(e.first);
      assert refs[..i + 1][i] == refs[i] && refs[..i + 1][j] == refs[j];
    }
  }

  lemma ReferenceExplanationIsUnique(refs: seq<string>, e: DeclarationError, f: DeclarationError)
    requires ExplainsReferences(refs, e) && ExplainsReferences(refs, f)
    ensures e == f
  {
    hide ParseTaggedReference;
    if refs != [] {
      var i, j := OffenderOf(refs, e);
      var k, l := OffenderOf(refs, f);
      FirstOffenderIsUnique(refs, i, k);
      if e.DuplicateReference? && f.DuplicateReference? {
        assert refs[..i][j] == refs[j] && refs[..i][l] == refs[l];
      }
    }
  }

  method Validate(d: Declaration) returns (result: Result<(), DeclarationError>)
    ensures result.Ok? <==> IsValidDeclaration(d)
    ensures result.Err? ==> Explains(d, result.error)
  {
    hide IsValidSegment, IsSegment, ReferencesDistinct, ParseTaggedReference, ExplainsReferences, IsDigest, IsSha256,
         ValidateProvenance, IsProvenance, ExplainsProvenance;
    SegmentIs(d.namespace);
    SegmentIs(d.component);
    SegmentIs(d.dependency);
    Sha256Is(d.configDigest);
    ProvenanceIs(d.provenance);
    if d.schema != SCHEMA { return Err(UnsupportedSchema(d.schema)); }
    if !IsValidSegment(d.namespace) { return Err(InvalidSegment(NamespaceField, d.namespace)); }
    if !IsValidSegment(d.component) { return Err(InvalidSegment(ComponentField, d.component)); }
    if !IsValidSegment(d.dependency) { return Err(InvalidSegment(DependencyField, d.dependency)); }
    var references := CheckReferences(d.publicRefs);
    if references.Err? { return references; }
    if d.variant == Some("") { return Err(EmptyVariant); }
    if !IsDigest(d.configDigest) { return Err(InvalidDigest(ConfigDigest, d.configDigest)); }
    result := ValidateProvenance(d.provenance);
  }

  /** The alias in full. */
  function SpelledAlias(namespace: string, component: string, dependency: string, digest: string): string
    requires |digest| >= 7
  {
    "runtime.invalid/" + namespace + "/" + component + "/" + dependency + ":cfg-" + digest[7..]
  }

  /** When there is an alias, what it is, and what the first thing wrong is when there is none. */
  lemma AliasExactly(namespace: string, component: string, dependency: string, digest: string)
    ensures var r := CanonicalRuntimeAlias(namespace, component, dependency, digest);
            if !IsSegment(namespace) then r == Err(InvalidSegment(NamespaceField, namespace))
            else if !IsSegment(component) then r == Err(InvalidSegment(ComponentField, component))
            else if !IsSegment(dependency) then r == Err(InvalidSegment(DependencyField, dependency))
            else if !IsSha256(digest) then r == Err(InvalidDigest(ConfigDigest, digest))
            else
              var alias := SpelledAlias(namespace, component, dependency, digest);
              && (r.Ok? <==> && Matches(COMPONENT, namespace) && Matches(COMPONENT, component)
                             && Matches(COMPONENT, dependency)
                             && |namespace| + |component| + |dependency| + 2 <= 255)
              && (r.Ok? ==> r.value == alias)
              && (r.Err? ==> r.error.InvalidRuntimeAlias? && r.error.alias == alias
                             && ParseTaggedReference(alias) == Err(r.error.source))
  {
    hide Matches, Split, ParseTaggedReference, IsValidSegment, IsSegment, IsDigest, IsSha256;
    SegmentIs(namespace);
    SegmentIs(component);
    SegmentIs(dependency);
    Sha256Is(digest);
    AliasSucceedsExactly(namespace, component, dependency, digest);
    if IsSha256(digest) { AliasIsSpelled(namespace, component, dependency, digest); }
  }

  lemma AliasIsSpelled(namespace: string, component: string, dependency: string, digest: string)
    requires IsSha256(digest)
    ensures |digest| >= 7 && |DIGEST_PREFIX| == 7
    ensures AliasOf(namespace, component, dependency, digest[7..])
            == SpelledAlias(namespace, component, dependency, digest)
  {
    hide IsHex;
    var hex := digest[7..];
    assert ALIAS_REGISTRY + "/" == "runtime.invalid/" && ":" + ALIAS_TAG_PREFIX == ":cfg-";
    AliasTogether("runtime.invalid/", namespace, component, dependency, hex);
  }

  lemma AliasTogether(registry: string, namespace: string, component: string, dependency: string, hex: string)
    ensures registry + (namespace + "/" + component + "/" + dependency) + ":" + (ALIAS_TAG_PREFIX + hex)
            == registry + namespace + "/" + component + "/" + dependency + (":" + ALIAS_TAG_PREFIX) + hex
  {
  }

  /** Once an alias exists, only the variant and the provenance can still refuse the declaration around it. */
  lemma ThirdPartyIsValidExactly(d: Declaration)
    requires CanonicalRuntimeAlias(d.namespace, d.component, d.dependency, d.configDigest).Ok? && d.schema == 1
    requires d.publicRefs == [CanonicalRuntimeAlias(d.namespace, d.component, d.dependency, d.configDigest).value]
    ensures IsValidDeclaration(d) <==> d.variant != Some("") && IsProvenance(d.provenance)
    ensures IsSegment(d.namespace) && IsSegment(d.component) && IsSegment(d.dependency) && IsSha256(d.configDigest)
    ensures ReferencesDistinct(d.publicRefs)
  {
    hide IsValidSegment, IsSegment, ParseTaggedReference, IsDigest, IsSha256, IsProvenance;
    SegmentIs(d.namespace);
    SegmentIs(d.component);
    SegmentIs(d.dependency);
    Sha256Is(d.configDigest);
  }

  /** `normalized_third_party`: a declaration of what it was given, with the alias as its only reference. */
  method NormalizedThirdParty(namespace: string, component: string, dependency: string, variant: Option<string>,
                              digest: string, provenance: Provenance) returns (r: Result<Declaration, DeclarationError>)
    ensures var alias := CanonicalRuntimeAlias(namespace, component, dependency, digest);
            && (alias.Err? ==> r == Err(alias.error))
            && (alias.Ok? ==> (r.Ok? <==> variant != Some("") && IsProvenance(provenance)))
            && (alias.Ok? && r.Err? ==>
                  if variant == Some("") then r.error == EmptyVariant else ExplainsProvenance(provenance, r.error))
            && (r.Ok? ==> IsValidDeclaration(r.value) && alias.Ok? && r.value.publicRefs == [alias.value])
    ensures r.Ok? ==>
              var d := r.value;
              && d.schema == 1 && d.namespace == namespace && d.component == component && d.dependency == dependency
              && d.variant == variant && d.configDigest == digest && d.provenance == provenance
  {
    hide CanonicalRuntimeAlias, IsSegment, ReferencesDistinct, IsSha256, IsProvenance, ExplainsProvenance,
         ExplainsReferences, IsValidDeclaration;
    var alias := CanonicalRuntimeAlias(namespace, component, dependency, digest);
    if alias.Err? { return Err(alias.error); }
    var d := Declaration(SCHEMA, namespace, component, dependency, [alias.value], variant, digest, provenance);
    ThirdPartyIsValidExactly(d);
    var checked := Validate(d);
    if checked.Err? { return Err(checked.error); }
    r := Ok(d);
  }
}
