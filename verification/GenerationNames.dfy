/**
 * The names a trust tree's root gives meaning to, and their parsers
 * (src/generation.rs). A name is one path component, held as its bytes.
 */
module GenerationNames {
  import opened Options
  import opened Decimal
  import opened Paths
  import opened Text

  type Name = string

  const ACTIVE: Name := "active"
  const ACTIVE_TMP: Name := "active.tmp"
  const PREFIX: string := "gen-"
  const SUFFIX: string := ".tmp"

  function GenerationName(n: nat): Name { PREFIX + ToDecimal(n) }

  function StageName(n: nat): Name { PREFIX + ToDecimal(n) + SUFFIX }

  /** Exactly one normal component: not empty, no separator, neither `.` nor `..`. */
  predicate IsSingleComponent(name: Name) {
    name != "" && '/' !in name && name != "." && name != ".."
  }

  /** As the source decides it: the name has one component, and that is the whole of it. */
  lemma SingleComponentExactly(name: Name)
    ensures IsSingleComponent(name) <==> Components(name) == [Normal(name)]
  {
    OnlyComponentExactly(name);
    hide Components;
  }

  /** `parse_generation`: the prefix, a `u64`, and a spelling that round-trips. */
  function ParseGeneration(name: Name): Option<nat> {
    if !(PREFIX <= name) then None else
      var digits := name[|PREFIX|..];
      match ParseU64(digits)
      case None => None
      case Some(n) => if digits == ToDecimal(n) then Some(n) else None
  }

  /** The part before the last dot and the part after it, as `Path` splits a file name. */
  function StemAndExtension(name: Name): Option<(Name, Name)> {
    var dot := FindLast(name, '.');
    if dot <= 1 || name == ".." then None else Some((name[..dot - 1], name[dot..]))
  }

  /** `parse_tmp_generation`: extension exactly `tmp`, stem a generation name. */
  function ParseStage(name: Name): Option<nat> {
    match StemAndExtension(name)
    case None => None
    case Some((stem, extension)) => if extension == "tmp" then ParseGeneration(stem) else None
  }

  /** The four classes of root entry the engine owns. */
  predicate EngineName(name: Name) {
    name == ACTIVE || name == ACTIVE_TMP || ParseGeneration(name).Some? || ParseStage(name).Some?
  }

  /** `parse_generation` answers `n` for exactly the spelling the engine writes. */
  lemma ParsesExactlyGenerations(name: Name, n: nat)
    ensures ParseGeneration(name) == Some(n) <==> n <= 0xFFFF_FFFF_FFFF_FFFF && name == GenerationName(n)
  {
    if name == GenerationName(n) {
      assert name[|PREFIX|..] == ToDecimal(n);
      ParseDecimal(n);
    }
    if ParseGeneration(name) == Some(n) {
      assert name == PREFIX + name[|PREFIX|..];
      ParseDecimal(n);
    }
  }

  /** `parse_tmp_generation` answers `n` for exactly the staging spelling. */
  lemma ParsesExactlyStages(name: Name, n: nat)
    ensures ParseStage(name) == Some(n) <==> n <= U64_MAX && name == StageName(n)
  {
    hide GenerationName, ParseGeneration, ParseStage, StageName;
    StageSplits(n);
    ParsesExactlyGenerations(GenerationName(n), n);
    if name == StageName(n) {
      StageIsItsStem(name, GenerationName(n));
    }
    if ParseStage(name) == Some(n) {
      var stem := StageStem(name, n);
      ParsesExactlyGenerations(stem, n);
      assert name == GenerationName(n) + SUFFIX;
    }
  }

  lemma StageSplits(n: nat)
    ensures StageName(n) == GenerationName(n) + SUFFIX
    ensures StemAndExtension(StageName(n)) == Some((GenerationName(n), "tmp"))
  {
    var stem := GenerationName(n);
    assert StageName(n) == stem + ['.'] + "tmp";
    FindLastAppend(stem, "tmp", '.');
    assert StageName(n)[..|stem|] == stem && StageName(n)[|stem| + 1..] == "tmp";
    assert StageName(n)[0] == 'g';
  }

  lemma StageIsItsStem(name: Name, stem: Name)
    requires StemAndExtension(name) == Some((stem, "tmp"))
    ensures ParseStage(name) == ParseGeneration(stem)
  {
    hide StemAndExtension, ParseGeneration;
  }

  lemma StageStem(name: Name, n: nat) returns (stem: Name)
    requires ParseStage(name) == Some(n)
    ensures ParseGeneration(stem) == Some(n) && name == stem + SUFFIX
  {
    hide ParseGeneration;
    var dot := FindLast(name, '.');
    stem := name[..dot - 1];
    assert name == name[..dot - 1] + ['.'] + name[dot..];
  }

  lemma NoDotInGeneration(n: nat)
    ensures '.' !in GenerationName(n)
  {
    var s := GenerationName(n);
    forall i | 0 <= i < |s| ensures s[i] != '.' {
      if i >= |PREFIX| { assert s[i] == ToDecimal(n)[i - |PREFIX|]; }
    }
  }

  /** The names as they are spelled on disk. */
  lemma NamesAreSpelled(n: nat)
    ensures ACTIVE == "active" && ACTIVE_TMP == "active.tmp"
    ensures GenerationName(n) == "gen-" + ToDecimal(n) && StageName(n) == "gen-" + ToDecimal(n) + ".tmp"
  {
  }

  /** No name is in two of the four classes, and each class has one name per index. */
  lemma NameClassesAreDisjoint(m: nat, n: nat)
    ensures GenerationName(m) != StageName(n)
    ensures GenerationName(m) != ACTIVE && GenerationName(m) != ACTIVE_TMP
    ensures StageName(m) != ACTIVE && StageName(m) != ACTIVE_TMP
    ensures GenerationName(m) == GenerationName(n) ==> m == n
    ensures StageName(m) == StageName(n) ==> m == n
  {
    NoDotInGeneration(m);
    assert StageName(n)[|GenerationName(n)|] == '.';
    assert GenerationName(m)[0] == 'g' && StageName(m)[0] == 'g' && ACTIVE[0] == 'a' && ACTIVE_TMP[0] == 'a';
    if GenerationName(m) == GenerationName(n) {
      assert GenerationName(m)[|PREFIX|..] == ToDecimal(m);
      assert GenerationName(n)[|PREFIX|..] == ToDecimal(n);
      DecimalInjective(m, n);
    }
    if StageName(m) == StageName(n) {
      assert StageName(m)[|PREFIX|..|StageName(m)| - |SUFFIX|] == ToDecimal(m);
      assert StageName(n)[|PREFIX|..|StageName(n)| - |SUFFIX|] == ToDecimal(n);
      DecimalInjective(m, n);
    }
  }
}
