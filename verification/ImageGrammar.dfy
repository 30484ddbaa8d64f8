/**
 * The hand-written scanners of src/image.rs, held to the grammars their documentation
 * cites: distribution/reference v0.6.0 and Semantic Versioning 2.0.0. Strings are bytes.
 */
module ImageGrammar {
  import opened Text
  import opened Regex

  const DIGITS: set<char> := set c: char | '0' <= c <= '9'
  const NONZERO: set<char> := set c: char | '1' <= c <= '9'
  const LOWER: set<char> := set c: char | 'a' <= c <= 'z'
  const UPPER: set<char> := set c: char | 'A' <= c <= 'Z'
  const LOWER_ALNUM: set<char> := LOWER + DIGITS
  const ALNUM: set<char> := LOWER + UPPER + DIGITS
  const HEX: set<char> := DIGITS + (set c: char | 'a' <= c <= 'f') + (set c: char | 'A' <= c <= 'F')
  const LOWER_HEX: set<char> := DIGITS + (set c: char | 'a' <= c <= 'f')

  /** The character classes, character by character. */
  lemma CharacterClassesAre(c: char)
    ensures c in DIGITS <==> '0' <= c <= '9'
    ensures c in NONZERO <==> '1' <= c <= '9'
    ensures c in LOWER_ALNUM <==> 'a' <= c <= 'z' || '0' <= c <= '9'
    ensures c in ALNUM <==> 'a' <= c <= 'z' || 'A' <= c <= 'Z' || '0' <= c <= '9'
    ensures c in HEX <==> '0' <= c <= '9' || 'a' <= c <= 'f' || 'A' <= c <= 'F'
    ensures c in LOWER_HEX <==> '0' <= c <= '9' || 'a' <= c <= 'f'
  {
  }

  // ---- repository path components ----

  /** `[._]|__|[-]+` */
  const SEPARATOR := Alt(Chars({'.', '_'}), Alt(Cat(Lit('_'), Lit('_')), Plus(Lit('-'))))

  /** `[a-z0-9]+(?:(?:[._]|__|[-]+)[a-z0-9]+)*` */
  const COMPONENT := Cat(Plus(Chars(LOWER_ALNUM)), Star(Cat(SEPARATOR, Plus(Chars(LOWER_ALNUM)))))

  predicate IsSeparator(s: string) {
    s == "." || s == "_" || s == "__" || (s != "" && forall i :: 0 <= i < |s| ==> s[i] == '-')
  }

  lemma SeparatorIs(s: string)
    ensures Matches(SEPARATOR, s) <==> IsSeparator(s)
  {
    PlusCharsIs({'-'}, s);
    LitCatIs('_', Lit('_'), s);
    if s == "__" { LitIs('_', s[1..]); assert s[1..] == "_"; }
    if s != "" && s[0] == '_' { LitIs('_', s[1..]); assert s == [s[0]] + s[1..]; }
    assert Matches(Chars({'.', '_'}), s) <==> s == "." || s == "_";
  }

  /** How many leading characters are alphanumeric, or are not, as `take_while` counts them. */
  function RunLength(s: string, alnum: bool): (n: nat)
    ensures n <= |s|
    ensures forall i :: 0 <= i < n ==> (s[i] in LOWER_ALNUM) == alnum
    ensures n < |s| ==> (s[n] in LOWER_ALNUM) != alnum
  {
    if s == [] || (s[0] in LOWER_ALNUM) != alnum then 0 else 1 + RunLength(s[1..], alnum)
  }

  /** A component is a maximal run, alone or followed by a maximal separator and a component. */
  lemma ComponentUnfolds(s: string)
    ensures var run := RunLength(s, true);
            var sep := RunLength(s[run..], false);
            Matches(COMPONENT, s) <==>
              run > 0 && (run == |s| || (IsSeparator(s[run..][..sep]) && Matches(COMPONENT, s[run..][sep..])))
  {
    if Matches(COMPONENT, s) { ComponentParts(s); }
    var run := RunLength(s, true);
    var sep := RunLength(s[run..], false);
    if run > 0 && (run == |s| || (IsSeparator(s[run..][..sep]) && Matches(COMPONENT, s[run..][sep..]))) {
      ComponentBuilds(s, run, sep);
    }
  }

  /** A run that is followed by nothing, or by a character of the other kind, is the maximal one. */
  lemma RunIs(s: string, n: nat, alnum: bool)
    requires n <= |s| && forall i :: 0 <= i < n ==> (s[i] in LOWER_ALNUM) == alnum
    requires n < |s| ==> (s[n] in LOWER_ALNUM) != alnum
    ensures RunLength(s, alnum) == n
  {
    var m := RunLength(s, alnum);
  }

  lemma ComponentParts(s: string)
    requires Matches(COMPONENT, s)
    ensures var run := RunLength(s, true);
            var sep := RunLength(s[run..], false);
            run > 0 && (run == |s| || (IsSeparator(s[run..][..sep]) && Matches(COMPONENT, s[run..][sep..])))
  {
    assert COMPONENT == Cat(Plus(Chars(LOWER_ALNUM)), Star(Cat(SEPARATOR, Plus(Chars(LOWER_ALNUM)))));
    hide *;
    var alnum := Chars(LOWER_ALNUM);
    var item := Cat(SEPARATOR, Plus(alnum));
    var i := CatSplit(Plus(alnum), Star(item), s);
    PlusCharsIs(LOWER_ALNUM, s[..i]);
    AllInAt(s, i, LOWER_ALNUM);
    if i < |s| {
      var sep := SeparatorParts(s[i..]);
      assert s[i] == s[i..][0];
      RunIs(s[i..], sep, false);
    }
    RunIs(s, i, true);
  }

  lemma AllInAt(s: string, n: nat, cs: set<char>)
    requires n <= |s| && AllIn(s[..n], cs)
    ensures forall k :: 0 <= k < n ==> s[k] in cs
  {
    forall k | 0 <= k < n ensures s[k] in cs { assert s[..n][k] == s[k]; }
  }

  lemma SeparatorParts(rest: string) returns (sep: nat)
    requires rest != "" && Matches(Star(Cat(SEPARATOR, Plus(Chars(LOWER_ALNUM)))), rest)
    ensures 0 < sep < |rest| && IsSeparator(rest[..sep]) && Matches(COMPONENT, rest[sep..])
    ensures (forall j :: 0 <= j < sep ==> rest[j] !in LOWER_ALNUM) && rest[sep] in LOWER_ALNUM
  {
    assert COMPONENT == Cat(Plus(Chars(LOWER_ALNUM)), Star(Cat(SEPARATOR, Plus(Chars(LOWER_ALNUM)))));
    hide *;
    var end;
    sep, end := StarHead(SEPARATOR, Plus(Chars(LOWER_ALNUM)), rest);
    SeparatorIs(rest[..sep]);
    SeparatorHasNoAlnum(rest[..sep]);
    var run := rest[sep..end];
    PlusCharsIs(LOWER_ALNUM, run);
    assert run[..|run|] == run;
    AllInAt(run, |run|, LOWER_ALNUM);
    assert rest[sep] == run[0];
    assert forall j :: 0 <= j < sep ==> rest[j] == rest[..sep][j];
  }

  lemma SeparatorHasNoAlnum(sep: string)
    requires IsSeparator(sep)
    ensures sep != "" && forall j :: 0 <= j < |sep| ==> sep[j] !in LOWER_ALNUM
  {
  }

  lemma ComponentBuilds(s: string, run: nat, sep: nat)
    requires 0 < run <= |s| && run == RunLength(s, true) && sep == RunLength(s[run..], false)
    requires run == |s| || (IsSeparator(s[run..][..sep]) && Matches(COMPONENT, s[run..][sep..]))
    ensures Matches(COMPONENT, s)
  {
    assert AllIn(s[..run], LOWER_ALNUM) by { assert forall k :: 0 <= k < run ==> s[..run][k] == s[k]; }
    assert COMPONENT == Cat(Plus(Chars(LOWER_ALNUM)), Star(Cat(SEPARATOR, Plus(Chars(LOWER_ALNUM)))));
    hide *;
    var alnum := Chars(LOWER_ALNUM);
    var item := Cat(SEPARATOR, Plus(alnum));
    PlusCharsIs(LOWER_ALNUM, s[..run]);
    var rest := s[run..];
    if rest == "" {
      OptIs(item, rest);
    } else {
      SeparatorBuilds(rest, sep);
    }
    CatAt(Plus(alnum), Star(item), s, run);
  }

  lemma SeparatorBuilds(rest: string, sep: nat)
    requires sep <= |rest| && IsSeparator(rest[..sep]) && Matches(COMPONENT, rest[sep..])
    ensures Matches(Star(Cat(SEPARATOR, Plus(Chars(LOWER_ALNUM)))), rest)
  {
    assert COMPONENT == Cat(Plus(Chars(LOWER_ALNUM)), Star(Cat(SEPARATOR, Plus(Chars(LOWER_ALNUM)))));
    hide *;
    SeparatorIs(rest[..sep]);
    SeparatorHasNoAlnum(rest[..sep]);
    StarPrepend(SEPARATOR, Plus(Chars(LOWER_ALNUM)), rest[..sep], rest[sep..]);
    assert rest[..sep] + rest[sep..] == rest;
  }

  /** The scanner decides exactly the language of its documentation. */
  method IsValidPathComponent(component: string) returns (valid: bool)
    ensures valid <==> Matches(COMPONENT, component)
  {
    hide Matches, RunLength, IsSeparator;
    var index := 0;
    assert component[0..] == component;
    while true
      invariant 0 <= index <= |component|
      invariant Matches(COMPONENT, component) <==> Matches(COMPONENT, component[index..])
      decreases |component| - index
    {
      ComponentUnfolds(component[index..]);
      var run := RunLength(component[index..], true);
      if run == 0 { return false; }
      var rest := component[index + run..];
      assert component[index..][run..] == rest;
      if rest == "" { return true; }
      var sep := RunLength(rest, false);
      if !IsSeparator(rest[..sep]) { return false; }
      assert rest[sep..] == component[index + run + sep..];
      index := index + run + sep;
    }
  }

  // ---- domains ----

  /** `[a-zA-Z0-9]|[a-zA-Z0-9][a-zA-Z0-9-]*[a-zA-Z0-9]` */
  const DOMAIN_COMPONENT := Alt(Chars(ALNUM), Cat(Chars(ALNUM), Cat(Star(Chars(ALNUM + {'-'})), Chars(ALNUM))))

  const PORT := Plus(Chars(DIGITS))

  /** `(?:domainName|ipv6address)(?::[0-9]+)?` */
  const DOMAIN :=
    Alt(Cat(SepBy(DOMAIN_COMPONENT, '.'), Opt(Cat(Lit(':'), PORT))),
        Cat(Lit('['), Cat(Plus(Chars(HEX + {':'})), Cat(Lit(']'), Opt(Cat(Lit(':'), PORT))))))

  predicate IsValidDomainComponent(s: string) {
    s != "" && s[0] in ALNUM && s[|s| - 1] in ALNUM && AllIn(s, ALNUM + {'-'})
  }

  predicate IsValidPort(s: string) { s != "" && AllIn(s, DIGITS) }

  predicate IsValidDomainAndPort(domain: string) {
    if domain != "" && domain[0] == '[' then
      var bracketed := domain[1..];
      var close := Find(bracketed, ']');
      close < |bracketed|
      && var rest := bracketed[close + 1..];
      && bracketed[..close] != "" && AllIn(bracketed[..close], HEX + {':'})
      && (rest == "" || (rest[0] == ':' && IsValidPort(rest[1..])))
    else
      var colon := Find(domain, ':');
      && (forall p :: p in Split(domain[..colon], '.') ==> IsValidDomainComponent(p))
      && (colon == |domain| || IsValidPort(domain[colon + 1..]))
  }

  lemma DomainComponentIs(s: string)
    ensures Matches(DOMAIN_COMPONENT, s) <==> IsValidDomainComponent(s)
  {
    BetweenIs(ALNUM, ALNUM + {'-'}, s);
    hide Matches;
    assert DOMAIN_COMPONENT == Between(ALNUM, ALNUM + {'-'});
  }

  /** The bracketed and the dotted form share no string, and each scanner branch decides its own. */
  lemma DomainIs(s: string)
    ensures Matches(DOMAIN, s) <==> IsValidDomainAndPort(s)
  {
    hide Matches, Alphabet;
    var dotted := Cat(SepBy(DOMAIN_COMPONENT, '.'), Opt(Cat(Lit(':'), PORT)));
    var after := Cat(Lit(']'), Opt(Cat(Lit(':'), PORT)));
    var bracketed := Cat(Lit('['), Cat(Plus(Chars(HEX + {':'})), after));
    DottedIs(s);
    BracketedIs(s);
    AltIs(dotted, bracketed, s);
  }

  lemma AltIs(a: Re, b: Re, s: string)
    ensures Matches(Alt(a, b), s) <==> Matches(a, s) || Matches(b, s)
  {
  }

  lemma DomainAlphabets()
    ensures Alphabet(SepBy(DOMAIN_COMPONENT, '.')) == ALNUM + {'-', '.'}
    ensures Alphabet(DOMAIN_COMPONENT) == ALNUM + {'-'}
    ensures Alphabet(Plus(Chars(HEX + {':'}))) == HEX + {':'}
  {
    assert Alphabet(Chars(ALNUM)) == ALNUM;
    assert Alphabet(Star(Chars(ALNUM + {'-'}))) == Alphabet(Chars(ALNUM + {'-'})) == ALNUM + {'-'};
    assert Alphabet(Cat(Star(Chars(ALNUM + {'-'})), Chars(ALNUM))) == ALNUM + {'-'};
    assert Alphabet(Cat(Chars(ALNUM), Cat(Star(Chars(ALNUM + {'-'})), Chars(ALNUM)))) == ALNUM + {'-'};
    assert Alphabet(DOMAIN_COMPONENT) == ALNUM + {'-'};
    assert Alphabet(Lit('.')) == {'.'};
    assert Alphabet(Cat(Lit('.'), DOMAIN_COMPONENT)) == ALNUM + {'-', '.'};
    assert Alphabet(Star(Cat(Lit('.'), DOMAIN_COMPONENT))) == ALNUM + {'-', '.'};
    assert Alphabet(Star(Chars(HEX + {':'}))) == Alphabet(Chars(HEX + {':'})) == HEX + {':'};
  }

  lemma DottedIs(s: string)
    ensures Matches(Cat(SepBy(DOMAIN_COMPONENT, '.'), Opt(Cat(Lit(':'), PORT))), s)
            <==> IsValidDomainAndPort(s) && !(s != "" && s[0] == '[')
  {
    hide Matches, Alphabet;
    DomainAlphabets();
    var colon := Find(s, ':');
    OptionalTail(SepBy(DOMAIN_COMPONENT, '.'), PORT, ':', s);
    SepByIsSplit(DOMAIN_COMPONENT, '.', s[..colon]);
    forall p ensures Matches(DOMAIN_COMPONENT, p) <==> IsValidDomainComponent(p) { DomainComponentIs(p); }
    if colon < |s| { PlusCharsIs(DIGITS, s[colon + 1..]); }
    if Matches(SepBy(DOMAIN_COMPONENT, '.'), s[..colon]) {
      MatchesWithinAlphabet(SepBy(DOMAIN_COMPONENT, '.'), s[..colon]);
      if colon > 0 { assert s[..colon][0] == s[0]; }
    }
  }

  lemma BracketedIs(s: string)
    ensures Matches(Cat(Lit('['), Cat(Plus(Chars(HEX + {':'})), Cat(Lit(']'), Opt(Cat(Lit(':'), PORT))))), s)
            <==> IsValidDomainAndPort(s) && s != "" && s[0] == '['
  {
    hide Matches, Alphabet;
    DomainAlphabets();
    var address := Plus(Chars(HEX + {':'}));
    var port := Opt(Cat(Lit(':'), PORT));
    LitCatIs('[', Cat(address, Cat(Lit(']'), port)), s);
    if s != "" && s[0] == '[' {
      var bracketed := s[1..];
      var close := Find(bracketed, ']');
      RequiredTail(address, port, ']', bracketed);
      PlusCharsIs(HEX + {':'}, bracketed[..close]);
      if close < |bracketed| {
        var rest := bracketed[close + 1..];
        OptIs(Cat(Lit(':'), PORT), rest);
        LitCatIs(':', PORT, rest);
        if rest != "" { PlusCharsIs(DIGITS, rest[1..]); }
      }
    }
  }

  // ---- Semantic Versioning 2.0.0, sections 2, 9 and 10 ----

  const IDENTIFIER_CHARS: set<char> := ALNUM + {'-'}

  /** No leading zeros (section 2). */
  const NUMERIC := Alt(Lit('0'), Cat(Chars(NONZERO), Star(Chars(DIGITS))))

  /** A numeric identifier, or one with at least one non-digit (section 9). */
  const PRERELEASE_IDENTIFIER :=
    Alt(NUMERIC, Cat(Star(Chars(DIGITS)), Cat(Chars(IDENTIFIER_CHARS - DIGITS), Star(Chars(IDENTIFIER_CHARS)))))

  /** Any identifier, leading zeros included (section 10). */
  const BUILD_IDENTIFIER := Plus(Chars(IDENTIFIER_CHARS))

  const CORE := Cat(NUMERIC, Cat(Lit('.'), Cat(NUMERIC, Cat(Lit('.'), NUMERIC))))

  const SEMVER :=
    Cat(Cat(CORE, Opt(Cat(Lit('-'), SepBy(PRERELEASE_IDENTIFIER, '.')))),
        Opt(Cat(Lit('+'), SepBy(BUILD_IDENTIFIER, '.'))))

  predicate IsNumericIdentifier(s: string) { s != "" && AllIn(s, DIGITS) && (s == "0" || s[0] != '0') }

  predicate IsAlphanumericIdentifier(s: string) { s != "" && AllIn(s, IDENTIFIER_CHARS) }

  predicate IsPrereleaseIdentifier(s: string) {
    IsAlphanumericIdentifier(s) && (!AllIn(s, DIGITS) || IsNumericIdentifier(s))
  }

  predicate IsCanonicalSemver(version: string) {
    var plus := Find(version, '+');
    var rest := version[..plus];
    var dash := Find(rest, '-');
    var parts := Split(rest[..dash], '.');
    && |parts| == 3 && (forall p :: p in parts ==> IsNumericIdentifier(p))
    && (dash == |rest| || forall p :: p in Split(rest[dash + 1..], '.') ==> IsPrereleaseIdentifier(p))
    && (plus == |version| || forall p :: p in Split(version[plus + 1..], '.') ==> IsAlphanumericIdentifier(p))
  }

  lemma NumericIs(s: string)
    ensures Matches(NUMERIC, s) <==> IsNumericIdentifier(s)
  {
    if Matches(Cat(Chars(NONZERO), Star(Chars(DIGITS))), s) {
      var i := CatSplit(Chars(NONZERO), Star(Chars(DIGITS)), s);
      StarCharsIs(DIGITS, s[i..]);
      assert s[0] == s[..i][0] && i == 1;
      forall k | 0 <= k < |s| ensures s[k] in DIGITS { if k > 0 { assert s[k] == s[i..][k - 1]; } }
    }
    LitIs('0', s);
    if IsNumericIdentifier(s) && s != "0" {
      forall k | 0 <= k < |s| - 1 ensures s[1..][k] in DIGITS { assert s[1..][k] == s[k + 1]; }
      StarCharsIs(DIGITS, s[1..]);
      assert Matches(Chars(NONZERO), s[..1]);
      CatAt(Chars(NONZERO), Star(Chars(DIGITS)), s, 1);
    }
  }

  /** How many leading digits there are. */
  function DigitRun(s: string): (n: nat)
    ensures n <= |s| && AllIn(s[..n], DIGITS)
    ensures n < |s| ==> s[n] !in DIGITS
  {
    if s == [] || s[0] !in DIGITS then 0 else
      var n := 1 + DigitRun(s[1..]);
      assert forall k :: 1 <= k < n ==> s[..n][k] == s[1..][..n - 1][k - 1];
      n
  }

  lemma MixedIs(s: string)
    ensures Matches(Cat(Star(Chars(DIGITS)), Cat(Chars(IDENTIFIER_CHARS - DIGITS), Star(Chars(IDENTIFIER_CHARS)))), s)
            <==> AllIn(s, IDENTIFIER_CHARS) && !AllIn(s, DIGITS)
  {
    var other, all := Chars(IDENTIFIER_CHARS - DIGITS), Star(Chars(IDENTIFIER_CHARS));
    if Matches(Cat(Star(Chars(DIGITS)), Cat(other, all)), s) {
      var i := CatSplit(Star(Chars(DIGITS)), Cat(other, all), s);
      var j := CatSplit(other, all, s[i..]);
      StarCharsIs(DIGITS, s[..i]);
      StarCharsIs(IDENTIFIER_CHARS, s[i..][j..]);
      assert s[i] == s[i..][..j][0] && j == 1;
      forall k | 0 <= k < |s| ensures s[k] in IDENTIFIER_CHARS {
        if k < i { assert s[k] == s[..i][k]; } else if k > i { assert s[k] == s[i..][j..][k - i - 1]; }
      }
    }
    if AllIn(s, IDENTIFIER_CHARS) && !AllIn(s, DIGITS) {
      var n := DigitRun(s);
      assert s[..|s|] == s;
      var rest := s[n..][1..];
      forall k | 0 <= k < |rest| ensures rest[k] in IDENTIFIER_CHARS { assert rest[k] == s[n + 1 + k]; }
      StarCharsIs(DIGITS, s[..n]);
      StarCharsIs(IDENTIFIER_CHARS, rest);
      assert s[n..][..1][0] == s[n];
      CatAt(other, all, s[n..], 1);
      CatAt(Star(Chars(DIGITS)), Cat(other, all), s, n);
    }
  }

  lemma PrereleaseIdentifierIs(s: string)
    ensures Matches(PRERELEASE_IDENTIFIER, s) <==> IsPrereleaseIdentifier(s)
  {
    NumericIs(s);
    MixedIs(s);
    if IsNumericIdentifier(s) { assert AllIn(s, IDENTIFIER_CHARS); }
  }

  lemma SemverAlphabets()
    ensures Alphabet(NUMERIC) == DIGITS
    ensures Alphabet(CORE) == DIGITS + {'.'}
    ensures Alphabet(PRERELEASE_IDENTIFIER) == IDENTIFIER_CHARS
    ensures Alphabet(BUILD_IDENTIFIER) == IDENTIFIER_CHARS
    ensures Alphabet(Cat(CORE, Opt(Cat(Lit('-'), SepBy(PRERELEASE_IDENTIFIER, '.'))))) == IDENTIFIER_CHARS + {'.'}
  {
    assert Alphabet(Lit('0')) == {'0'} && Alphabet(Chars(NONZERO)) == NONZERO && Alphabet(Chars(DIGITS)) == DIGITS;
    assert Alphabet(Star(Chars(DIGITS))) == DIGITS;
    assert Alphabet(Cat(Chars(NONZERO), Star(Chars(DIGITS)))) == DIGITS;
    assert Alphabet(NUMERIC) == DIGITS;
    assert Alphabet(Lit('.')) == {'.'};
    assert Alphabet(Cat(Lit('.'), NUMERIC)) == DIGITS + {'.'};
    assert Alphabet(Cat(NUMERIC, Cat(Lit('.'), NUMERIC))) == DIGITS + {'.'};
    assert Alphabet(Cat(Lit('.'), Cat(NUMERIC, Cat(Lit('.'), NUMERIC)))) == DIGITS + {'.'};
    var ids, other := Chars(IDENTIFIER_CHARS), Chars(IDENTIFIER_CHARS - DIGITS);
    assert Alphabet(ids) == IDENTIFIER_CHARS && Alphabet(Star(ids)) == IDENTIFIER_CHARS;
    assert Alphabet(Cat(other, Star(ids))) == IDENTIFIER_CHARS;
    assert Alphabet(Cat(Star(Chars(DIGITS)), Cat(other, Star(ids)))) == IDENTIFIER_CHARS;
    assert Alphabet(PRERELEASE_IDENTIFIER) == IDENTIFIER_CHARS;
    assert Alphabet(Cat(Lit('.'), PRERELEASE_IDENTIFIER)) == IDENTIFIER_CHARS + {'.'};
    assert Alphabet(Star(Cat(Lit('.'), PRERELEASE_IDENTIFIER))) == IDENTIFIER_CHARS + {'.'};
    assert Alphabet(SepBy(PRERELEASE_IDENTIFIER, '.')) == IDENTIFIER_CHARS + {'.'};
    assert Alphabet(Lit('-')) == {'-'};
    assert Alphabet(Cat(Lit('-'), SepBy(PRERELEASE_IDENTIFIER, '.'))) == IDENTIFIER_CHARS + {'.'};
    assert Alphabet(Eps) == {};
    assert Alphabet(Opt(Cat(Lit('-'), SepBy(PRERELEASE_IDENTIFIER, '.')))) == IDENTIFIER_CHARS + {'.'};
  }

  /** Three numeric identifiers between two dots. */
  lemma CoreIs(s: string)
    ensures Matches(CORE, s) <==> |Split(s, '.')| == 3 && forall p :: p in Split(s, '.') ==> IsNumericIdentifier(p)
  {
    hide Matches, Alphabet, IsNumericIdentifier, Find, Split;
    SemverAlphabets();
    assert '.' !in DIGITS;
    var i := Find(s, '.');
    OnePieceIs(s, '.');
    RequiredTail(NUMERIC, Cat(NUMERIC, Cat(Lit('.'), NUMERIC)), '.', s);
    NumericIs(s[..i]);
    if i < |s| {
      var t := s[i + 1..];
      var j := Find(t, '.');
      RequiredTail(NUMERIC, NUMERIC, '.', t);
      NumericIs(t[..j]);
      SplitUnfolds(s, '.');
      OnePieceIs(t, '.');
      if j < |t| {
        var u := t[j + 1..];
        NumericIs(u);
        LastPiece(s, i, t, j, u);
      }
    }
  }

  lemma LastPiece(s: string, i: nat, t: string, j: nat, u: string)
    requires i == Find(s, '.') < |s| && t == s[i + 1..] && j == Find(t, '.') < |t| && u == t[j + 1..]
    ensures (|Split(s, '.')| == 3 && forall p :: p in Split(s, '.') ==> IsNumericIdentifier(p))
            <==> IsNumericIdentifier(s[..i]) && IsNumericIdentifier(t[..j]) && IsNumericIdentifier(u)
  {
    hide Find, IsNumericIdentifier;
    SplitUnfolds(s, '.');
    SplitUnfolds(t, '.');
    hide *;
    if IsNumericIdentifier(u) { NumericHasNoDot(u); }
    OnePieceIs(u, '.');
    ThreePieces(s[..i], t[..j], Split(u, '.'), u);
  }

  lemma SplitUnfolds(s: string, c: char)
    ensures var i := Find(s, c); i < |s| ==> Split(s, c) == [s[..i]] + Split(s[i + 1..], c)
  {
  }

  lemma ThreePieces(first: string, second: string, last: seq<string>, u: string)
    requires |last| == 1 ==> last == [u]
    requires IsNumericIdentifier(u) ==> last == [u]
    ensures var all := [first] + ([second] + last);
            (|all| == 3 && forall p :: p in all ==> IsNumericIdentifier(p))
            <==> IsNumericIdentifier(first) && IsNumericIdentifier(second) && IsNumericIdentifier(u)
  {
    hide *;
    var all := [first] + ([second] + last);
    assert forall p :: p in all <==> p == first || p == second || p in last;
  }

  lemma OnePieceIs(s: string, c: char)
    ensures |Split(s, c)| == 1 <==> Split(s, c) == [s]
    ensures c !in s ==> Split(s, c) == [s]
  {
    if Find(s, c) < |s| { assert c in s; }
  }

  lemma NumericHasNoDot(s: string)
    requires IsNumericIdentifier(s)
    ensures '.' !in s
  {
  }

  /** The grammar read left to right: build metadata at the first `+`, a prerelease at the first `-` before it. */
  lemma SemverSplits(s: string)
    ensures var plus := Find(s, '+');
            var rest := s[..plus];
            var dash := Find(rest, '-');
            Matches(SEMVER, s)
            <==> && Matches(CORE, rest[..dash])
                 && (dash == |rest| || Matches(SepBy(PRERELEASE_IDENTIFIER, '.'), rest[dash + 1..]))
                 && (plus == |s| || Matches(SepBy(BUILD_IDENTIFIER, '.'), s[plus + 1..]))
  {
    hide *;
    PlusAndDashDelimit();
    SemverIsNested();
    var versioned := Cat(CORE, Opt(Cat(Lit('-'), SepBy(PRERELEASE_IDENTIFIER, '.'))));
    var plus := Find(s, '+');
    OptionalTail(versioned, SepBy(BUILD_IDENTIFIER, '.'), '+', s);
    OptionalTail(CORE, SepBy(PRERELEASE_IDENTIFIER, '.'), '-', s[..plus]);
  }

  lemma PlusAndDashDelimit()
    ensures '+' !in Alphabet(Cat(CORE, Opt(Cat(Lit('-'), SepBy(PRERELEASE_IDENTIFIER, '.')))))
    ensures '-' !in Alphabet(CORE)
  {
    hide Alphabet, SepBy, Opt;
    SemverAlphabets();
  }

  lemma SemverIsNested()
    ensures SEMVER == Cat(Cat(CORE, Opt(Cat(Lit('-'), SepBy(PRERELEASE_IDENTIFIER, '.')))),
                          Opt(Cat(Lit('+'), SepBy(BUILD_IDENTIFIER, '.'))))
  {
  }

  lemma PrereleasesAre(s: string)
    ensures Matches(SepBy(PRERELEASE_IDENTIFIER, '.'), s) <==> forall p :: p in Split(s, '.') ==>
        IsPrereleaseIdentifier(p)
  {
    SemverAlphabets();
    assert '.' !in IDENTIFIER_CHARS;
    hide *;
    SepByIsSplit(PRERELEASE_IDENTIFIER, '.', s);
    forall p ensures Matches(PRERELEASE_IDENTIFIER, p) <==> IsPrereleaseIdentifier(p) { PrereleaseIdentifierIs(p); }
  }

  lemma BuildsAre(s: string)
    ensures Matches(SepBy(BUILD_IDENTIFIER, '.'), s) <==> forall p :: p in Split(s, '.') ==> IsAlphanumericIdentifier(p)
  {
    SemverAlphabets();
    assert '.' !in IDENTIFIER_CHARS;
    hide *;
    SepByIsSplit(BUILD_IDENTIFIER, '.', s);
    forall p ensures Matches(BUILD_IDENTIFIER, p) <==> IsAlphanumericIdentifier(p) { BuildIdentifierIs(p); }
  }

  /** The version predicate accepts exactly the grammar of Semantic Versioning 2.0.0. */
  lemma SemverIs(s: string)
    ensures Matches(SEMVER, s) <==> IsCanonicalSemver(s)
  {
    hide Matches, Split, Find, IsNumericIdentifier, IsAlphanumericIdentifier, IsPrereleaseIdentifier;
    var plus := Find(s, '+');
    var rest := s[..plus];
    var dash := Find(rest, '-');
    SemverSplits(s);
    CoreIs(rest[..dash]);
    if dash < |rest| { PrereleasesAre(rest[dash + 1..]); }
    if plus < |s| { BuildsAre(s[plus + 1..]); }
  }

  lemma BuildIdentifierIs(s: string)
    ensures Matches(BUILD_IDENTIFIER, s) <==> IsAlphanumericIdentifier(s)
  {
    PlusCharsIs(IDENTIFIER_CHARS, s);
  }
}
