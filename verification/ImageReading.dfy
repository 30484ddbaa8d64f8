/**
 * What a tagged reference says, told without the parser: where a name splits into registry
 * and path, which references are accepted and as what, and why the others are refused
 * (src/image.rs:700-801).
 */
module ImageReading {
  import opened Options
  import opened Text
  import opened Regex
  import opened ImageGrammar
  import opened ImageReference

  /** A path on the default registry: official images live under `library/`. */
  function Official(path: string): string { if '/' in path then path else "library/" + path }

  /** What a name divided at its first slash is read as: under the legacy registry or the present one, or neither. */
  function SplitAs(first: string, rest: string): Name {
    if first == "index.docker.io" || first == "docker.io" then Name("docker.io", Official(rest))
    else if NamesRegistry(first) then Name(first, rest)
    else Name("docker.io", first + "/" + rest)
  }

  lemma SplitsAtTheRegistry(first: string, rest: string)
    requires '/' !in first
    ensures SplitDockerDomain(first + "/" + rest) == SplitAs(first, rest)
  {
    hide Find, NamesRegistry, LooksLikeDomain;
    SplitAt(first, rest);
    RegistryIs(first);
    DefaultDomainIsNormal();
    assert (first + "/" + rest)[|first|] == '/';
  }

  lemma SplitsWhole(name: string)
    requires '/' !in name
    ensures SplitDockerDomain(name) == Name("docker.io", "library/" + name)
  {
    assert Find(name, '/') == |name|;
  }

  /** Whether `name` can be read as `n`, abbreviated or in full. */
  ghost predicate Splits(name: string, n: Name) {
    if '/' !in name then n == Name("docker.io", "library/" + name)
    else exists first, rest :: name == first + "/" + rest && '/' !in first && n == SplitAs(first, rest)
  }

  lemma SplitsExactly(name: string, n: Name)
    ensures Splits(name, n) <==> SplitDockerDomain(name) == n
  {
    hide SplitDockerDomain, SplitAs;
    if '/' !in name {
      SplitsWhole(name);
    } else {
      var i := Find(name, '/');
      var head, tail := name[..i], name[i + 1..];
      assert name == head + "/" + tail && '/' !in head;
      SplitsAtTheRegistry(head, tail);
      forall first, rest | name == first + "/" + rest && '/' !in first
        ensures SplitDockerDomain(name) == SplitAs(first, rest)
      {
        SplitsAtTheRegistry(first, rest);
      }
    }
  }

  /** A name is accepted as `n` exactly when it splits so and both parts are in their grammars. */
  ghost predicate Denotes(name: string, n: Name) { Splits(name, n) && Matches(DOMAIN, n.domain) && IsPath(n.path) }

  lemma NormalizesExactly(whole: string, name: string, n: Name)
    ensures NormalizeName(whole, name) == Ok(n) <==> !IsHexIdentifier(whole) && Denotes(name, n)
  {
    hide Matches, IsValidDomainAndPort, Split, Splits, SplitDockerDomain, IsHexIdentifier, HasUppercase;
    SplitsExactly(name, n);
    DomainIs(n.domain);
    if IsValidPath(n.path) { PathChars(n.path); }
  }

  /** A reference is accepted as `r` exactly when it is such a name, a colon and a tag. */
  ghost predicate Reads(s: string, r: Reference) {
    IsTag(r.tag) && exists name :: s == name + ":" + r.tag && Denotes(name, r.name)
  }

  /** `[A-Za-z0-9_][A-Za-z0-9_.-]{0,127}` */
  predicate IsTag(tag: string) {
    |tag| <= 128 && Matches(Cat(Chars(ALNUM + {'_'}), Star(Chars(ALNUM + {'_', '.', '-'}))), tag)
  }

  lemma TagHasNoDelimiter(tag: string)
    requires IsTag(tag)
    ensures IsValidTag(tag) && ':' !in tag && '/' !in tag && '@' !in tag
  {
    hide Matches;
    TagIs(tag);
    TagChars(tag);
  }

  lemma NotInEither(a: string, b: string, c: char)
    ensures c !in a + b <==> c !in a && c !in b
  {
  }

  lemma DefaultsHaveNoAt()
    ensures '@' !in "index.docker.io" && '@' !in "docker.io" && '@' !in "library/" && '@' !in "/"
  {
  }

  lemma PartsHaveNoAt(first: string, rest: string)
    requires '@' !in SplitAs(first, rest).domain && '@' !in SplitAs(first, rest).path
    ensures '@' !in first && '@' !in rest
  {
    hide NamesRegistry;
    DefaultsHaveNoAt();
    NotInEither("library/", rest, '@');
    NotInEither(first + "/", rest, '@');
    NotInEither(first, "/", '@');
  }

  lemma DenotedPartsHaveNoAt(n: Name)
    requires Matches(DOMAIN, n.domain) && IsPath(n.path)
    ensures '@' !in n.domain && '/' !in n.domain && '@' !in n.path
  {
    hide Matches, Split;
    assert IsValidPath(n.path);
    PathChars(n.path);
    DomainIs(n.domain);
    DomainChars(n.domain);
  }

  /** What a name in front of a tag cannot hold. */
  lemma NameHasNoAt(name: string, n: Name)
    requires Denotes(name, n)
    ensures '@' !in name
  {
    hide Matches, IsPath, SplitAs;
    DenotedPartsHaveNoAt(n);
    if '/' !in name {
      NotInEither("library/", name, '@');
    } else {
      var first, rest :| name == first + "/" + rest && '/' !in first && n == SplitAs(first, rest);
      PartsHaveNoAt(first, rest);
      DefaultsHaveNoAt();
      NotInEither(first, "/", '@');
      NotInEither(first + "/", rest, '@');
    }
  }

  /** Where the tag splits off, when the last colon is after the last slash. */
  lemma SplitTagExactly(s: string, name: string, tag: string)
    ensures SplitTag(s) == Some((name, tag)) <==> s == name + ":" + tag && ':' !in tag && '/' !in tag
  {
    if s == name + ":" + tag && ':' !in tag && '/' !in tag { SplitTagOfPrinted(name, tag); }
    if SplitTag(s) == Some((name, tag)) {
      var after := FindLast(s, ':');
      assert s == s[..after - 1] + [s[after - 1]] + s[after..];
      forall i | after <= i < |s| ensures s[i] != '/' {}
    }
  }

  /** The parser accepts exactly what reads as a reference, as that reference. */
  lemma ParsesExactly(s: string, r: Reference)
    ensures ParseTaggedReference(s) == Ok(r) <==> Reads(s, r)
  {
    hide Denotes, IsTag, SplitTag, NormalizeName, IsValidTag, Matches;
    if Reads(s, r) {
      var name :| s == name + ":" + r.tag && Denotes(name, r.name);
      TagHasNoDelimiter(r.tag);
      SplitTagExactly(s, name, r.tag);
      NameHasNoAt(name, r.name);
      assert s[|name|] == ':';
      ColonIsNotHex(s);
      NormalizesExactly(s, name, r.name);
    }
    if ParseTaggedReference(s) == Ok(r) {
      var name := SplitTag(s).value.0;
      SplitTagExactly(s, name, r.tag);
      NormalizesExactly(s, name, r.name);
      assert IsTag(r.tag) by { TagIsTag(r.tag); }
    }
  }

  lemma TagIsTag(tag: string)
    ensures IsTag(tag) <==> IsValidTag(tag)
  {
    hide Matches;
    TagIs(tag);
  }

  lemma ColonIsNotHex(s: string)
    requires ':' in s
    ensures !IsHexIdentifier(s)
  {
  }

  /** A registry given with its port is the domain, whatever the host. */
  lemma PortsNameRegistries(host: string, port: string, path: string, tag: string)
    requires Matches(DOMAIN, host + ":" + port) && IsPath(path) && IsTag(tag)
    ensures ParseTaggedReference(host + ":" + port + "/" + path + ":" + tag)
            == Ok(Reference(Name(host + ":" + port, path), tag))
  {
    hide Matches, IsPath, IsTag, ParseTaggedReference, NamesRegistry;
    var domain := host + ":" + port;
    var name, r := domain + "/" + path, Reference(Name(domain, path), tag);
    assert domain[|host|] == ':' && name[|domain|] == '/';
    DenotedPartsHaveNoAt(r.name);
    ColonIsNoDefault(domain);
    assert Splits(name, r.name) by { assert SplitAs(domain, path) == r.name; }
    assert Reads(name + ":" + tag, r);
    ParsesExactly(name + ":" + tag, r);
  }

  lemma ColonIsNoDefault(domain: string)
    requires ':' in domain
    ensures domain != "docker.io" && domain != "index.docker.io" && NamesRegistry(domain)
  {
    var i :| 0 <= i < |domain| && domain[i] == ':';
    assert ':' !in "docker.io" && ':' !in "index.docker.io";
  }

  /** Why a reference is refused: the first of these that holds, the name's own reasons last. */
  lemma RefusalsAre(s: string)
    ensures ParseTaggedReference(s) == Err(Empty) <==> s == ""
    ensures ParseTaggedReference(s) == Err(DigestNotAllowed) <==> '@' in s
    ensures ParseTaggedReference(s) == Err(MissingTag)
            <==> s != "" && '@' !in s && !exists name, tag :: s == name + ":" + tag && ':' !in tag && '/' !in tag
    ensures forall name, tag :: s == name + ":" + tag && ':' !in tag && '/' !in tag && '@' !in s ==>
              (ParseTaggedReference(s) == Err(InvalidTag(tag)) <==> !IsTag(tag))
    ensures forall name, tag :: s == name + ":" + tag && '@' !in s && IsTag(tag) && ParseTaggedReference(s).Err? ==>
              NormalizeName(s, name) == Err(ParseTaggedReference(s).error)
  {
    hide NormalizeName, IsTag, SplitTag, IsValidTag, Splits, SplitDockerDomain, Matches;
    forall name, tag | s == name + ":" + tag && ':' !in tag && '/' !in tag ensures SplitTag(s) == Some((name, tag)) {
      SplitTagExactly(s, name, tag);
    }
    if SplitTag(s).Some? { SplitTagExactly(s, SplitTag(s).value.0, SplitTag(s).value.1); }
    forall tag ensures IsTag(tag) <==> IsValidTag(tag) { TagIsTag(tag); }
    forall tag | IsTag(tag) ensures ':' !in tag && '/' !in tag { TagHasNoDelimiter(tag); }
    forall name ensures NormalizeName(s, name).Err? ==>
                          var e := NormalizeName(s, name).error;
                          !e.Empty? && !e.DigestNotAllowed? && !e.MissingTag? && !e.InvalidTag?
    {
      NameRefusalsAre(s, name);
      SplitsExactly(name, SplitDockerDomain(name));
    }
  }

  /** Why a name is refused, with `whole` the text it came from. */
  lemma NameRefusalsAre(whole: string, name: string)
    ensures NormalizeName(whole, name) == Err(HexIdentifier)
            <==> |whole| == 64 && forall i :: 0 <= i < 64 ==> '0' <= whole[i] <= '9' || 'a' <= whole[i] <= 'f'
    ensures NormalizeName(whole, name).Err? && !NormalizeName(whole, name).error.HexIdentifier? ==>
              forall n :: Splits(name, n) ==>
                NormalizeName(whole, name).error
                == if exists i :: 0 <= i < |n.path| && 'A' <= n.path[i] <= 'Z' then Uppercase(n.path)
                   else if !Matches(DOMAIN, n.domain) then InvalidDomain(n.domain)
                   else if !forall p :: p in Split(n.path, '/') ==> Matches(COMPONENT, p) then InvalidPath(n.path)
                   else PathTooLong(|n.path|)
  {
    hide Matches, IsValidDomainAndPort, Split, Splits, SplitDockerDomain;
    forall n ensures Splits(name, n) <==> SplitDockerDomain(name) == n { SplitsExactly(name, n); }
    DomainIs(SplitDockerDomain(name).domain);
    assert forall c: char :: c in UPPER <==> 'A' <= c <= 'Z';
    assert forall c: char :: c in LOWER_HEX <==> '0' <= c <= '9' || 'a' <= c <= 'f';
  }

  /** A repository stands as written exactly when it is a registry, a slash and an unabbreviated path. */
  lemma RepositoriesExactly(s: string)
    ensures ValidateCanonicalRepository(s).Ok? <==> exists n :: IsNormalName(n) && s == n.domain + "/" + n.path
  {
    hide ValidateCanonicalRepository, NormalizeName, IsNormalName, IsHexIdentifier;
    CanonicalRepositoriesAreThePrintedNames(s);
    forall name | NormalizeName(name, name).Ok? ensures IsNormalName(NormalizeName(name, name).value) {
      NormalizesToNormal(name, name);
    }
    forall n | IsNormalName(n) ensures NormalizeName(PrintName(n), PrintName(n)) == Ok(n) {
      PrintedNameShape(n);
      SlashIsNotHex(PrintName(n));
      NormalNameNormalizes(PrintName(n), n);
    }
  }

  /** Why a repository is refused: empty, a digest, a tag, the name's own reasons, or not standing as it normalises. */
  lemma RepositoryRefusalsAre(s: string)
    ensures ValidateCanonicalRepository(s) == Err(Empty) <==> s == ""
    ensures ValidateCanonicalRepository(s) == Err(DigestNotAllowed) <==> '@' in s
    ensures ValidateCanonicalRepository(s) == Err(TagNotAllowed)
            <==> '@' !in s && exists name, tag :: s == name + ":" + tag && ':' !in tag && '/' !in tag
    ensures '@' !in s && s != "" && !(exists name, tag :: s == name + ":" + tag && ':' !in tag && '/' !in tag) ==>
              match NormalizeName(s, s)
              case Err(e) => ValidateCanonicalRepository(s) == Err(e)
              case Ok(n) => ValidateCanonicalRepository(s)
                            == if s == n.domain + "/" + n.path then Ok(())
                               else Err(NotCanonical(n.domain + "/" + n.path))
  {
    hide NormalizeName, SplitTag, Splits, SplitDockerDomain, Matches;
    forall name, tag | s == name + ":" + tag && ':' !in tag && '/' !in tag ensures SplitTag(s) == Some((name, tag)) {
      SplitTagExactly(s, name, tag);
    }
    if SplitTag(s).Some? { SplitTagExactly(s, SplitTag(s).value.0, SplitTag(s).value.1); }
    if NormalizeName(s, s).Err? {
      var e := NormalizeName(s, s).error;
      assert !e.Empty? && !e.DigestNotAllowed? && !e.TagNotAllowed? by {
        NameRefusalsAre(s, s);
        SplitsExactly(s, SplitDockerDomain(s));
      }
    }
  }
}
