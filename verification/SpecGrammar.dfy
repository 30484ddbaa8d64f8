/** The grammars the module spec's validator documents, against the predicates it uses (src/module_spec.rs:978-1028). */
module SpecGrammar {
  import opened Regex
  import opened ImageGrammar
  import opened ModuleSpec

  /** `[A-Za-z_][A-Za-z0-9_]*` */
  lemma EnvironmentKeyIs(key: string)
    ensures IsEnvironmentKey(key) <==> Matches(HeadTail(LOWER + UPPER + {'_'}, LOWER + UPPER + DIGITS + {'_'}), key)
  {
    HeadTailIs(LOWER + UPPER + {'_'}, LOWER + UPPER + DIGITS + {'_'}, key);
    hide Matches;
    TailIs(key, LOWER + UPPER + DIGITS + {'_'});
  }

  /** `[a-z0-9]([a-z0-9-]*[a-z0-9])?`, at most 63 characters. */
  lemma DnsLabelIs(value: string)
    ensures IsDnsLabel(value) <==> |value| <= 63 && Matches(Between(LOWER_ALNUM, LOWER_ALNUM + {'-'}), value)
  {
    BetweenIs(LOWER_ALNUM, LOWER_ALNUM + {'-'}, value);
    hide Matches;
  }

  const PRINTABLE: set<char> := set c: char | 0x21 <= c as int <= 0x7E

  /** `/` and any printable ASCII but the space. */
  lemma ProcessPathIs(value: string)
    ensures IsAbsoluteProcessPath(value) <==> Matches(HeadTail({'/'}, PRINTABLE), value)
  {
    HeadTailIs({'/'}, PRINTABLE, value);
    hide Matches;
    TailIs(value, PRINTABLE);
    assert forall c: char :: c in PRINTABLE <==> '!' <= c <= '~';
  }

  /** `[a-zA-Z0-9][a-zA-Z0-9_.-]*`, at most 255 characters. */
  lemma ContainerNameIs(value: string)
    ensures IsContainerName(value) <==> |value| <= 255 && Matches(HeadTail(ALNUM, ALNUM + {'_', '.', '-'}), value)
  {
    HeadTailIs(ALNUM, ALNUM + {'_', '.', '-'}, value);
    hide Matches;
    TailIs(value, ALNUM + {'_', '.', '-'});
  }

  lemma TailIs(s: string, cs: set<char>)
    ensures s != "" ==> (AllIn(s[1..], cs) <==> forall i :: 1 <= i < |s| ==> s[i] in cs)
  {
    if s != "" && AllIn(s[1..], cs) {
      forall i | 1 <= i < |s| ensures s[i] in cs { assert s[i] == s[1..][i - 1]; }
    }
  }

  /** Native binaries and compose bundles run as units; assets and container images do not. */
  lemma UnitKindsAre(kind: ArtifactKind)
    ensures KindTakesUnit(kind) <==> kind == NativeBinary || kind == ComposeBundle
  {
  }
}
