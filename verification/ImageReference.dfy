/**
 * Docker references as src/image.rs parses and normalises them (distribution/reference
 * v0.6.0), and the canonical runtime alias. Lengths are only ever compared on strings
 * whose characters are all ASCII, where characters and bytes agree.
 */
module ImageReference {
  import opened Options
  import opened Text
  import opened Regex
  import opened ImageGrammar

  const DEFAULT_DOMAIN := "docker.io"
  const LEGACY_DEFAULT_DOMAIN := "index.docker.io"
  const OFFICIAL_REPO_PREFIX := "library/"
  const LOCALHOST := "localhost"
  const MAX_REPOSITORY_PATH: nat := 255
  const MAX_TAG: nat := 128
  const DIGEST_HEX_LEN: nat := 64

  datatype Name = Name(domain: string, path: string)

  datatype Reference = Reference(name: Name, tag: string)

  datatype ReferenceError =
    | Empty
    | DigestNotAllowed
    | MissingTag
    | TagNotAllowed
    | InvalidTag(tag: string)
    | HexIdentifier
    | Uppercase(path: string)
    | InvalidDomain(domain: string)
    | InvalidPath(path: string)
    | PathTooLong(length: nat)
    | NotCanonical(normalized: string)

  // ---- the parser ----

  /** The last `:`, when no `/` follows it. */
  function SplitTag(reference: string): Option<(string, string)> {
    var after := FindLast(reference, ':');
    if after == 0 || FindLast(reference, '/') > after then None
    else Some((reference[..after - 1], reference[after..]))
  }

  const TAG_CHARS: set<char> := ALNUM + {'_', '.', '-'}

  predicate IsValidTag(tag: string) {
    |tag| <= MAX_TAG && tag != "" && (tag[0] in ALNUM || tag[0] == '_') && AllIn(tag[1..], TAG_CHARS)
  }

  predicate IsHexIdentifier(whole: string) { |whole| == DIGEST_HEX_LEN && AllIn(whole, LOWER_HEX) }

  predicate HasUppercase(s: string) { exists i :: 0 <= i < |s| && s[i] in UPPER }

  /** What makes a first path element read as a registry rather than as a path. */
  predicate LooksLikeDomain(first: string) { '.' in first || ':' in first || HasUppercase(first) }

  predicate IsValidPath(path: string) { forall p :: p in Split(path, '/') ==> Matches(COMPONENT, p) }

  function SplitDockerDomain(name: string): Name {
    var slash := Find(name, '/');
    var split :=
      if slash == |name| then Name(DEFAULT_DOMAIN, name)
      else
        var first, rest := name[..slash], name[slash + 1..];
        if first == LOCALHOST then Name(first, rest)
        else if first == LEGACY_DEFAULT_DOMAIN then Name(DEFAULT_DOMAIN, rest)
        else if LooksLikeDomain(first) then Name(first, rest)
        else Name(DEFAULT_DOMAIN, name);
    if split.domain == DEFAULT_DOMAIN && '/' !in split.path then
      split.(path := OFFICIAL_REPO_PREFIX + split.path)
    else split
  }

  function NormalizeName(whole: string, name: string): Result<Name, ReferenceError> {
    if IsHexIdentifier(whole) then Err(HexIdentifier)
    else
      var split := SplitDockerDomain(name);
      if HasUppercase(split.path) then Err(Uppercase(split.path))
      else if !IsValidDomainAndPort(split.domain) then Err(InvalidDomain(split.domain))
      else if !IsValidPath(split.path) then Err(InvalidPath(split.path))
      else if |split.path| > MAX_REPOSITORY_PATH then Err(PathTooLong(|split.path|))
      else Ok(split)
  }

  function ParseTaggedReference(reference: string): Result<Reference, ReferenceError> {
    if reference == "" then Err(Empty)
    else if '@' in reference then Err(DigestNotAllowed)
    else match SplitTag(reference)
      case None => Err(MissingTag)
      case Some((name, tag)) =>
        if !IsValidTag(tag) then Err(InvalidTag(tag))
        else match NormalizeName(reference, name)
          case Err(e) => Err(e)
          case Ok(n) => Ok(Reference(n, tag))
  }

  function PrintName(n: Name): string { n.domain + "/" + n.path }

  function Print(r: Reference): string { PrintName(r.name) + ":" + r.tag }

  /** `Ok` carries nothing: the repository is accepted as it stands. */
  function ValidateCanonicalRepository(repository: string): Result<(), ReferenceError> {
    if repository == "" then Err(Empty)
    else if '@' in repository then Err(DigestNotAllowed)
    else if SplitTag(repository).Some? then Err(TagNotAllowed)
    else match NormalizeName(repository, repository)
      case Err(e) => Err(e)
      case Ok(n) => if PrintName(n) == repository then Ok(()) else Err(NotCanonical(PrintName(n)))
  }

  // ---- what a normal form is, without the parser ----

  /** What makes a first element a registry: being the local host, or holding a dot, a colon or a capital. */
  predicate NamesRegistry(first: string) {
    first == "localhost"
    || exists i :: 0 <= i < |first| && (first[i] == '.' || first[i] == ':' || 'A' <= first[i] <= 'Z')
  }

  /** Components of the grammar between slashes, at most 255 characters in all. */
  predicate IsPath(path: string) {
    |path| <= 255 && forall p :: p in Split(path, '/') ==> Matches(COMPONENT, p)
  }

  /** A registry a first element can stand for, not the legacy one, and a valid, bounded, unabbreviated path. */
  predicate IsNormalName(n: Name) {
    && Matches(DOMAIN, n.domain) && NamesRegistry(n.domain) && n.domain != "index.docker.io"
    && IsPath(n.path) && (n.domain == "docker.io" ==> '/' in n.path)
  }

  predicate IsNormal(r: Reference) { IsNormalName(r.name) && IsValidTag(r.tag) }

  lemma RegistryIs(first: string)
    ensures NamesRegistry(first) <==> first == LOCALHOST || LooksLikeDomain(first)
  {
    assert forall i :: 0 <= i < |first| ==> (first[i] in UPPER <==> 'A' <= first[i] <= 'Z');
    if LooksLikeDomain(first) {
      var i :| 0 <= i < |first| && (first[i] == '.' || first[i] == ':' || first[i] in UPPER);
    }
  }

  lemma NormalNameIs(n: Name)
    ensures IsNormalName(n)
            <==> && IsValidDomainAndPort(n.domain) && n.domain != LEGACY_DEFAULT_DOMAIN
                 && (n.domain == LOCALHOST || LooksLikeDomain(n.domain))
                 && IsValidPath(n.path) && |n.path| <= MAX_REPOSITORY_PATH
                 && (n.domain == DEFAULT_DOMAIN ==> '/' in n.path)
  {
    hide Matches, IsValidDomainAndPort, NamesRegistry, LooksLikeDomain, Split;
    DomainIs(n.domain);
    RegistryIs(n.domain);
  }

  // ---- the characters of the parts ----

  lemma {:induction false} PieceHolding(s: string, c: char, sep: char)
    requires c in s && c != sep
    ensures exists p :: p in Split(s, sep) && c in p
    decreases |s|
  {
    var i := Find(s, sep);
    if i == |s| {
      assert s in Split(s, sep);
    } else if c in s[..i] {
      assert s[..i] in Split(s, sep);
    } else {
      assert s == s[..i] + [s[i]] + s[i + 1..];
      PieceHolding(s[i + 1..], c, sep);
      assert forall p :: p in Split(s[i + 1..], sep) ==> p in Split(s, sep);
    }
  }

  lemma ComponentAlphabet()
    ensures Alphabet(COMPONENT) == LOWER_ALNUM + {'.', '_', '-'}
  {
    assert Alphabet(Chars({'.', '_'})) == {'.', '_'};
    assert Alphabet(Lit('_')) == {'_'} && Alphabet(Lit('-')) == {'-'};
    assert Alphabet(Star(Lit('-'))) == {'-'} && Alphabet(Plus(Lit('-'))) == {'-'};
    assert Alphabet(Cat(Lit('_'), Lit('_'))) == {'_'};
    assert Alphabet(Alt(Cat(Lit('_'), Lit('_')), Plus(Lit('-')))) == {'_', '-'};
    assert Alphabet(SEPARATOR) == {'.', '_', '-'};
    var alnum := Chars(LOWER_ALNUM);
    assert Alphabet(alnum) == LOWER_ALNUM && Alphabet(Star(alnum)) == LOWER_ALNUM;
    assert Alphabet(Plus(alnum)) == LOWER_ALNUM;
    assert Alphabet(Cat(SEPARATOR, Plus(alnum))) == LOWER_ALNUM + {'.', '_', '-'};
    assert Alphabet(Star(Cat(SEPARATOR, Plus(alnum)))) == LOWER_ALNUM + {'.', '_', '-'};
  }

  lemma ComponentChars(p: string)
    requires Matches(COMPONENT, p)
    ensures AllIn(p, LOWER_ALNUM + {'.', '_', '-'}) && p != ""
  {
    MatchesWithinAlphabet(COMPONENT, p);
    ComponentAlphabet();
    ComponentUnfolds(p);
    hide *;
  }

  lemma PathChars(path: string)
    requires IsValidPath(path)
    ensures AllIn(path, LOWER_ALNUM + {'.', '_', '-', '/'}) && path != ""
    ensures ':' !in path && '@' !in path && !HasUppercase(path)
  {
    var pieces := Split(path, '/');
    assert forall p :: p in pieces ==> Matches(COMPONENT, p);
    assert path == "" ==> pieces == [path];
    assert pieces[0] in pieces;
    ComponentChars(pieces[0]);
    forall i | 0 <= i < |path| ensures path[i] in LOWER_ALNUM + {'.', '_', '-', '/'} {
      hide Matches, Split, IsValidPath;
      if path[i] != '/' {
        PieceHolding(path, path[i], '/');
        var p :| p in pieces && path[i] in p;
        ComponentChars(p);
      }
    }
    hide Matches, Split, IsValidPath;
  }

  lemma PortAlphabet()
    ensures Alphabet(Opt(Cat(Lit(':'), PORT))) == DIGITS + {':'}
  {
    assert Alphabet(Chars(DIGITS)) == DIGITS && Alphabet(Star(Chars(DIGITS))) == DIGITS && Alphabet(PORT) == DIGITS;
    assert Alphabet(Lit(':')) == {':'};
    assert Alphabet(Cat(Lit(':'), PORT)) == DIGITS + {':'};
    assert Alphabet(Eps) == {};
  }

  lemma DottedAlphabet()
    ensures Alphabet(Cat(SepBy(DOMAIN_COMPONENT, '.'), Opt(Cat(Lit(':'), PORT)))) == ALNUM + {'-', '.', ':'}
  {
    DomainAlphabets();
    PortAlphabet();
  }

  lemma BracketedAlphabet()
    ensures Alphabet(Cat(Lit('['), Cat(Plus(Chars(HEX + {':'})), Cat(Lit(']'), Opt(Cat(Lit(':'), PORT))))))
            == HEX + {':', '[', ']'}
  {
    hide Plus, Opt;
    DomainAlphabets();
    PortAlphabet();
    var address, after := Plus(Chars(HEX + {':'})), Cat(Lit(']'), Opt(Cat(Lit(':'), PORT)));
    assert Alphabet(Lit('[')) == {'['} && Alphabet(Lit(']')) == {']'};
    assert Alphabet(after) == DIGITS + {':', ']'};
    assert Alphabet(Cat(address, after)) == HEX + {':', ']'};
  }

  lemma EitherAlphabet(a: Re, b: Re)
    ensures Alphabet(Alt(a, b)) == Alphabet(a) + Alphabet(b)
  {
  }

  lemma DomainAlphabet()
    ensures '/' !in Alphabet(DOMAIN) && '@' !in Alphabet(DOMAIN)
  {
    hide Alphabet, SepBy, Plus, Opt, Lit;
    DottedAlphabet();
    BracketedAlphabet();
    EitherAlphabet(Cat(SepBy(DOMAIN_COMPONENT, '.'), Opt(Cat(Lit(':'), PORT))),
                   Cat(Lit('['), Cat(Plus(Chars(HEX + {':'})), Cat(Lit(']'), Opt(Cat(Lit(':'), PORT))))));
  }

  lemma DomainChars(domain: string)
    requires IsValidDomainAndPort(domain)
    ensures '/' !in domain && '@' !in domain
  {
    hide *;
    DomainIs(domain);
    MatchesWithinAlphabet(DOMAIN, domain);
    DomainAlphabet();
    AllInAt(domain + [], |domain|, Alphabet(DOMAIN)) by { assert (domain + [])[..|domain|] == domain; }
    assert domain + [] == domain;
  }

  lemma TagChars(tag: string)
    requires IsValidTag(tag)
    ensures ':' !in tag && '/' !in tag && '@' !in tag
  {
    forall i | 0 <= i < |tag| ensures tag[i] in TAG_CHARS { if i > 0 { assert tag[i] == tag[1..][i - 1]; } }
  }

  /** `[A-Za-z0-9_][A-Za-z0-9_.-]{0,127}` */
  lemma TagIs(tag: string)
    ensures IsValidTag(tag)
            <==> |tag| <= 128 && Matches(Cat(Chars(ALNUM + {'_'}), Star(Chars(ALNUM + {'_', '.', '-'}))), tag)
  {
    HeadTailIs(ALNUM + {'_'}, TAG_CHARS, tag);
    hide Matches;
  }

  // ---- normalisation is a fixed point, and its range ----

  lemma DefaultDomainIsNormal()
    ensures LooksLikeDomain(DEFAULT_DOMAIN) && '/' !in DEFAULT_DOMAIN
  {
    assert DEFAULT_DOMAIN[6] == '.';
  }

  lemma DefaultPathHasASlash(name: string)
    ensures SplitDockerDomain(name).domain == DEFAULT_DOMAIN ==> '/' in SplitDockerDomain(name).path
  {
    assert (OFFICIAL_REPO_PREFIX + name)[7] == '/';
    var slash := Find(name, '/');
    if slash < |name| { assert (OFFICIAL_REPO_PREFIX + name[slash + 1..])[7] == '/'; }
  }

  /** Whatever normalises, normalises to a normal name. */
  lemma NormalizesToNormal(whole: string, name: string)
    requires NormalizeName(whole, name).Ok?
    ensures IsNormalName(NormalizeName(whole, name).value)
  {
    hide Matches, IsValidDomainAndPort, Find, Split, IsValidPath;
    DefaultDomainIsNormal();
    DefaultPathHasASlash(name);
    NormalNameIs(NormalizeName(whole, name).value);
  }

  /** A normal name printed is split back at its first `/`, untouched. */
  lemma SplitOfPrinted(n: Name)
    requires IsNormalName(n)
    ensures SplitDockerDomain(PrintName(n)) == n
  {
    hide Matches, IsValidDomainAndPort, Find, Split, IsValidPath;
    NormalNameIs(n);
    DomainChars(n.domain);
    FindAppend(n.domain, n.path, '/');
    var s := PrintName(n);
    assert s == n.domain + ['/'] + n.path;
    assert s[..|n.domain|] == n.domain && s[|n.domain| + 1..] == n.path;
  }

  lemma NormalNameNormalizes(whole: string, n: Name)
    requires IsNormalName(n) && !IsHexIdentifier(whole)
    ensures NormalizeName(whole, PrintName(n)) == Ok(n)
  {
    hide Matches, IsValidDomainAndPort, Find, Split;
    NormalNameIs(n);
    SplitOfPrinted(n);
    PathChars(n.path);
  }

  lemma SlashIsNotHex(s: string)
    requires '/' in s
    ensures !IsHexIdentifier(s)
  {
  }

  lemma PrintedNameShape(n: Name)
    requires IsNormalName(n)
    ensures '/' in PrintName(n) && '@' !in PrintName(n) && PrintName(n) != ""
    ensures SplitTag(PrintName(n)) == None
  {
    NormalNameIs(n);
    DomainChars(n.domain);
    PathChars(n.path);
    assert PrintName(n) == n.domain + "/" + n.path;
    hide *;
    assert '@' !in n.domain + "/";
    assert PrintName(n)[|n.domain|] == '/';
    NoTagAfterSlash(n.domain, n.path);
  }

  /** A `:` before a `/` is never the tag separator. */
  lemma NoTagAfterSlash(head: string, tail: string)
    requires ':' !in tail
    ensures SplitTag(head + "/" + tail) == None
  {
    var s := head + "/" + tail;
    assert s[|head|] == '/';
    forall i | |head| <= i < |s| ensures s[i] != ':' {
      if i > |head| { assert s[i] == tail[i - |head| - 1]; }
    }
  }

  lemma SplitTagOfPrinted(name: string, tag: string)
    requires ':' !in tag && '/' !in tag
    ensures SplitTag(name + ":" + tag) == Some((name, tag))
  {
    var s := name + ":" + tag;
    assert s == name + [':'] + tag;
    FindLastAppend(name, tag, ':');
    forall i | |name| <= i < |s| ensures s[i] != '/' {
      if i > |name| { assert s[i] == tag[i - |name| - 1]; }
    }
    assert s[..|name|] == name && s[|name| + 1..] == tag;
  }

  lemma ParsesToNormal(s: string)
    requires ParseTaggedReference(s).Ok?
    ensures IsNormal(ParseTaggedReference(s).value)
  {
    hide Matches, IsValidDomainAndPort, NormalizeName, IsNormalName;
    NormalizesToNormal(s, SplitTag(s).value.0);
  }

  /** Printing a normal reference and parsing it gives it back. */
  lemma ParsePrint(r: Reference)
    requires IsNormal(r)
    ensures ParseTaggedReference(Print(r)) == Ok(r)
  {
    hide Matches, IsValidDomainAndPort, Find, FindLast, Split, IsValidPath, NormalizeName, IsHexIdentifier;
    TagChars(r.tag);
    PrintedNameShape(r.name);
    SplitTagOfPrinted(PrintName(r.name), r.tag);
    SlashIsNotHex(Print(r));
    NormalNameNormalizes(Print(r), r.name);
  }

  /** Parsing is a normal form: what was parsed, printed, parses to itself. */
  lemma NormalisationIsAFixedPoint(s: string)
    requires ParseTaggedReference(s).Ok?
    ensures var r := ParseTaggedReference(s).value;
            ParseTaggedReference(Print(r)) == Ok(r)
  {
    hide *;
    assert IsNormal(ParseTaggedReference(s).value) by { ParsesToNormal(s); }
    ParsePrint(ParseTaggedReference(s).value);
  }

  /** The parser reaches exactly the normal references. */
  lemma ParserRange(r: Reference)
    ensures (exists s :: ParseTaggedReference(s) == Ok(r)) <==> IsNormal(r)
  {
    hide *;
    if IsNormal(r) { ParsePrint(r); }
    if s :| ParseTaggedReference(s) == Ok(r) { ParsesToNormal(s); }
  }

  lemma PrintIsInjective(r: Reference, q: Reference)
    requires IsNormal(r) && IsNormal(q) && Print(r) == Print(q)
    ensures r == q
  {
    hide *;
    ParsePrint(r);
    ParsePrint(q);
  }

  /** A repository is accepted exactly when it is the printed normal form of some valid name. */
  lemma CanonicalRepositoriesAreThePrintedNames(s: string)
    ensures ValidateCanonicalRepository(s).Ok?
            <==> exists name :: NormalizeName(name, name).Ok? && s == PrintName(NormalizeName(name, name).value)
  {
    hide Matches, IsValidDomainAndPort, SplitTag, NormalizeName, PrintName, IsHexIdentifier, IsNormalName;
    if name :| NormalizeName(name, name).Ok? && s == PrintName(NormalizeName(name, name).value) {
      var n := NormalizeName(name, name).value;
      NormalizesToNormal(name, name);
      PrintedNameShape(n);
      SlashIsNotHex(s);
      NormalNameNormalizes(s, n);
    }
  }

  lemma RefusalNormalizes(s: string)
    requires ValidateCanonicalRepository(s).Err? && ValidateCanonicalRepository(s).error.NotCanonical?
    ensures NormalizeName(s, s).Ok?
    ensures ValidateCanonicalRepository(s).error.normalized == PrintName(NormalizeName(s, s).value)
  {
    hide PrintName, SplitTag, SplitDockerDomain, IsHexIdentifier, IsValidDomainAndPort, IsValidPath;
  }

  /** The correction a refusal names is itself accepted. */
  lemma NotCanonicalNamesTheCanonicalForm(s: string)
    requires ValidateCanonicalRepository(s).Err? && ValidateCanonicalRepository(s).error.NotCanonical?
    ensures ValidateCanonicalRepository(ValidateCanonicalRepository(s).error.normalized).Ok?
  {
    hide *;
    RefusalNormalizes(s);
    CanonicalRepositoriesAreThePrintedNames(ValidateCanonicalRepository(s).error.normalized);
  }

  /** The five ways to write a single-component name on the default registry agree, errors included. */
  lemma DefaultRegistrySpellingsAgree(whole: string, n: string)
    requires '/' !in n
    ensures NormalizeName(whole, n) == NormalizeName(whole, "library" + "/" + n)
    ensures NormalizeName(whole, n) == NormalizeName(whole, "docker.io" + "/" + n)
    ensures NormalizeName(whole, n) == NormalizeName(whole, "index.docker.io" + "/" + n)
    ensures NormalizeName(whole, n) == NormalizeName(whole, "docker.io" + "/" + ("library" + "/" + n))
  {
    BareNameSplit(n);
    LibraryNameSplit(n);
    DefaultDomainSplit(n);
    DefaultDomainSplit("library" + "/" + n);
    assert ("library" + "/" + n)[7] == '/';
    LegacyDomainSplit(n);
    hide *;
    SameSplitSameName(whole, n, "library" + "/" + n);
    SameSplitSameName(whole, n, "docker.io" + "/" + n);
    SameSplitSameName(whole, n, "index.docker.io" + "/" + n);
    SameSplitSameName(whole, n, "docker.io" + "/" + ("library" + "/" + n));
  }

  lemma BareNameSplit(n: string)
    requires '/' !in n
    ensures SplitDockerDomain(n) == Name("docker.io", "library" + "/" + n)
  {
    assert Find(n, '/') == |n|;
    assert "library" + "/" + n == "library/" + n;
  }

  lemma LibraryNameSplit(n: string)
    ensures SplitDockerDomain("library" + "/" + n) == Name("docker.io", "library" + "/" + n)
  {
    SplitAt("library", n);
    assert ("library" + "/" + n)[7] == '/';
    assert !LooksLikeDomain("library");
  }

  lemma DefaultDomainSplit(rest: string)
    ensures SplitDockerDomain("docker.io" + "/" + rest)
            == Name("docker.io", if '/' in rest then rest else "library" + "/" + rest)
  {
    DefaultDomainIsNormal();
    SplitAt("docker.io", rest);
    assert "library" + "/" + rest == "library/" + rest;
  }

  lemma LegacyDomainSplit(rest: string)
    ensures SplitDockerDomain("index.docker.io" + "/" + rest)
            == Name("docker.io", if '/' in rest then rest else "library" + "/" + rest)
  {
    SplitAt("index.docker.io", rest);
    assert "library" + "/" + rest == "library/" + rest;
  }

  lemma SplitAt(first: string, rest: string)
    requires '/' !in first
    ensures var s := first + "/" + rest;
            Find(s, '/') == |first| && s[..|first|] == first && s[|first| + 1..] == rest
  {
    FindAppend(first, rest, '/');
    assert first + "/" + rest == first + ['/'] + rest;
  }

  lemma SameSplitSameName(whole: string, a: string, b: string)
    requires SplitDockerDomain(a) == SplitDockerDomain(b)
    ensures NormalizeName(whole, a) == NormalizeName(whole, b)
  {
  }
}
