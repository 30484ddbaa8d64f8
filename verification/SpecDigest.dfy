/**
 * The document the spec digest hashes, and the digest's hexadecimal form (src/manifest.rs).
 * SHA-256 and the JSON text of one entry stay outside; comparing paths by Unicode scalar is
 * comparing them by UTF-8 byte.
 */
module SpecDigest {
  import opened Options
  import opened Manifest
  import opened Text
  import M = ModuleSpec

  datatype Entry = Entry(path: string, component: string, spec: M.Spec)

  // ---- the order ----

  predicate Less(a: string, b: string)
    decreases |a|
  {
    if b == "" then false
    else if a == "" then true
    else if a[0] != b[0] then a[0] < b[0]
    else Less(a[1..], b[1..])
  }

  lemma {:induction false} LessIsTotal(a: string, b: string)
    ensures a == b || Less(a, b) || Less(b, a)
    ensures !(Less(a, b) && Less(b, a)) && !Less(a, a)
    decreases |a|
  {
    if a != "" { LessIsTotal(a[1..], a[1..]); }
    if a != "" && b != "" {
      LessIsTotal(a[1..], b[1..]);
      assert a == [a[0]] + a[1..] && b == [b[0]] + b[1..];
    }
  }

  lemma {:induction false} LessIsTransitive(a: string, b: string, c: string)
    requires Less(a, b) && Less(b, c)
    ensures Less(a, c)
    decreases |a|
  {
    if a != "" && a[0] == b[0] && b[0] == c[0] { LessIsTransitive(a[1..], b[1..], c[1..]); }
  }

  /** Byte order: one ends where the other goes on, or has the smaller character where they first part. */
  ghost predicate Precedes(a: string, b: string) { exists k :: PartsAt(a, b, k) }

  predicate PartsAt(a: string, b: string, k: nat) {
    k <= |a| && k < |b| && a[..k] == b[..k] && (k < |a| ==> a[k] < b[k])
  }

  lemma {:induction false} LessPartsSomewhere(a: string, b: string) returns (k: nat)
    requires Less(a, b)
    ensures PartsAt(a, b, k)
    decreases |a|
  {
    if a == "" || a[0] != b[0] {
      k := 0;
    } else {
      var rest := LessPartsSomewhere(a[1..], b[1..]);
      k := rest + 1;
      assert a[..k] == [a[0]] + a[1..][..rest] && b[..k] == [b[0]] + b[1..][..rest];
    }
  }

  lemma {:induction false} PartingIsLess(a: string, b: string, k: nat)
    requires PartsAt(a, b, k)
    ensures Less(a, b)
    decreases k
  {
    if k > 0 {
      assert a[0] == a[..k][0] == b[..k][0] == b[0];
      assert a[1..][..k - 1] == a[..k][1..] && b[1..][..k - 1] == b[..k][1..];
      PartingIsLess(a[1..], b[1..], k - 1);
    }
  }

  lemma LessIs(a: string, b: string)
    ensures Less(a, b) <==> Precedes(a, b)
  {
    if Less(a, b) { var k := LessPartsSomewhere(a, b); }
    if Precedes(a, b) {
      var k :| PartsAt(a, b, k);
      PartingIsLess(a, b, k);
    }
    hide Less, PartsAt;
  }

  // ---- the document ----

  /** One entry for every artifact that declares a spec. */
  function Entries(artifacts: seq<Artifact>): seq<Entry> {
    if artifacts == [] then []
    else
      var a := artifacts[0];
      (if a.spec.Some? then [Entry(a.path, a.component, a.spec.value)] else []) + Entries(artifacts[1..])
  }

  function Insert(e: Entry, sorted: seq<Entry>): seq<Entry> {
    if sorted == [] || Less(e.path, sorted[0].path) then [e] + sorted
    else [sorted[0]] + Insert(e, sorted[1..])
  }

  /** `sort_unstable_by` on the path; unique paths leave it only one result. */
  function SortByPath(entries: seq<Entry>): seq<Entry> {
    if entries == [] then [] else Insert(entries[0], SortByPath(entries[1..]))
  }

  function DocumentEntries(artifacts: seq<Artifact>): seq<Entry> { SortByPath(Entries(artifacts)) }

  /** The encoded entries, in document order. */
  function DocumentOf(artifacts: seq<Artifact>, encode: Entry -> string): seq<string> {
    MapAll(DocumentEntries(artifacts), encode)
  }

  // ---- one order for one set ----

  predicate StrictlySorted(es: seq<Entry>) {
    forall i, j :: 0 <= i < j < |es| ==> Less(es[i].path, es[j].path)
  }

  predicate DistinctPaths(es: seq<Entry>) { forall i, j :: 0 <= i < j < |es| ==> es[i].path != es[j].path }

  lemma {:induction false} InsertKeepsMembers(e: Entry, sorted: seq<Entry>)
    ensures forall x :: x in Insert(e, sorted) <==> x == e || x in sorted
  {
    if sorted != [] && !Less(e.path, sorted[0].path) {
      InsertKeepsMembers(e, sorted[1..]);
      assert forall x :: x in sorted <==> x == sorted[0] || x in sorted[1..];
    }
  }

  lemma {:induction false} InsertKeepsSorted(e: Entry, sorted: seq<Entry>)
    requires StrictlySorted(sorted) && forall x :: x in sorted ==> x.path != e.path
    ensures StrictlySorted(Insert(e, sorted))
  {
    hide Less;
    if sorted == [] {
    } else if Less(e.path, sorted[0].path) {
      forall j | 0 < j < |sorted| ensures Less(e.path, sorted[j].path) {
        LessIsTransitive(e.path, sorted[0].path, sorted[j].path);
      }
    } else {
      assert sorted[0] in sorted;
      LessIsTotal(e.path, sorted[0].path);
      assert forall x :: x in sorted[1..] ==> x in sorted;
      InsertKeepsSorted(e, sorted[1..]);
      InsertKeepsMembers(e, sorted[1..]);
      var tail := Insert(e, sorted[1..]);
      forall j | 0 <= j < |tail| ensures Less(sorted[0].path, tail[j].path) {
        assert tail[j] in tail;
        if tail[j] != e {
          var k :| 0 <= k < |sorted| - 1 && sorted[1..][k] == tail[j];
          assert sorted[k + 1] == tail[j];
        }
      }
    }
  }

  lemma {:induction false} SortIs(entries: seq<Entry>)
    requires DistinctPaths(entries)
    ensures StrictlySorted(SortByPath(entries)) && forall x :: x in SortByPath(entries) <==> x in entries
  {
    if entries != [] {
      SortIs(entries[1..]);
      forall x | x in SortByPath(entries[1..]) ensures x.path != entries[0].path {
        var k :| 0 <= k < |entries| - 1 && entries[1..][k] == x;
        assert entries[k + 1] == x;
      }
      InsertKeepsSorted(entries[0], SortByPath(entries[1..]));
      InsertKeepsMembers(entries[0], SortByPath(entries[1..]));
      assert forall x :: x in entries <==> x == entries[0] || x in entries[1..];
    }
  }

  lemma FirstIsLeast(es: seq<Entry>, x: Entry)
    requires StrictlySorted(es) && x in es && x != es[0]
    ensures Less(es[0].path, x.path)
  {
    var i :| 0 <= i < |es| && es[i] == x;
  }

  /** A set of entries has one strictly sorted list. */
  lemma {:induction false} SortedIsUnique(a: seq<Entry>, b: seq<Entry>)
    requires StrictlySorted(a) && StrictlySorted(b) && forall x :: x in a <==> x in b
    ensures a == b
    decreases |a|
  {
    hide Less;
    SomeMember(a);
    SomeMember(b);
    if a != [] && b != [] {
      assert a[0] in a && b[0] in b;
      if a[0] != b[0] {
        FirstIsLeast(b, a[0]);
        FirstIsLeast(a, b[0]);
        LessIsTotal(a[0].path, b[0].path);
      }
      forall x ensures x in a[1..] <==> x in b[1..] {
        InTail(a, x);
        InTail(b, x);
      }
      SortedIsUnique(a[1..], b[1..]);
      assert a == [a[0]] + a[1..] && b == [b[0]] + b[1..];
    }
  }

  lemma InTail(es: seq<Entry>, x: Entry)
    requires StrictlySorted(es) && es != []
    ensures x in es[1..] <==> x in es && x != es[0]
  {
    LessIsTotal(es[0].path, es[0].path);
    hide Less;
    if x in es[1..] {
      var k :| 0 <= k < |es| - 1 && es[1..][k] == x;
      assert es[k + 1] == x;
    }
  }

  lemma {:induction false} EntriesAre(artifacts: seq<Artifact>, e: Entry)
    ensures e in Entries(artifacts)
            <==> exists a :: a in artifacts && a.spec.Some? && e == Entry(a.path, a.component, a.spec.value)
  {
    if artifacts != [] {
      EntriesAre(artifacts[1..], e);
      assert forall a :: a in artifacts <==> a == artifacts[0] || a in artifacts[1..];
    }
  }

  lemma {:induction false} EntriesAreDistinct(artifacts: seq<Artifact>)
    requires UniquePaths(artifacts)
    ensures DistinctPaths(Entries(artifacts))
  {
    if artifacts != [] {
      assert forall i :: 0 <= i < |artifacts| - 1 ==> artifacts[1..][i] == artifacts[i + 1];
      EntriesAreDistinct(artifacts[1..]);
      var rest := Entries(artifacts[1..]);
      forall i | 0 <= i < |rest| ensures rest[i].path != artifacts[0].path {
        assert rest[i] in rest;
        EntriesAre(artifacts[1..], rest[i]);
        var a :| a in artifacts[1..] && a.path == rest[i].path;
        var k :| 0 <= k < |artifacts| - 1 && artifacts[1..][k] == a;
        assert artifacts[k + 1].path != artifacts[0].path;
      }
    }
  }

  /** The (path, component, spec) triples a manifest declares. */
  ghost predicate Declares(artifacts: seq<Artifact>, e: Entry) {
    exists a :: a in artifacts && a.spec.Some? && e == Entry(a.path, a.component, a.spec.value)
  }

  ghost predicate IsInjective(encode: Entry -> string) { forall x, y :: encode(x) == encode(y) ==> x == y }

  lemma DocumentEntriesAre(artifacts: seq<Artifact>)
    requires UniquePaths(artifacts)
    ensures StrictlySorted(DocumentEntries(artifacts))
    ensures forall e :: e in DocumentEntries(artifacts) <==> Declares(artifacts, e)
  {
    EntriesAreDistinct(artifacts);
    SortIs(Entries(artifacts));
    forall e ensures e in Entries(artifacts) <==> Declares(artifacts, e) { EntriesAre(artifacts, e); }
  }

  /** The document lists each declared triple once, in ascending byte order of the paths, each encoded on its own. */
  lemma DocumentIsInPathOrder(artifacts: seq<Artifact>, encode: Entry -> string)
    requires UniquePaths(artifacts)
    ensures var es := DocumentEntries(artifacts);
            && (forall i, j :: 0 <= i < j < |es| ==> Precedes(es[i].path, es[j].path))
            && (forall e :: e in es <==> Declares(artifacts, e))
            && |DocumentOf(artifacts, encode)| == |es|
            && forall i :: 0 <= i < |es| ==> DocumentOf(artifacts, encode)[i] == encode(es[i])
  {
    hide DocumentEntries, Declares, Less, Precedes;
    DocumentEntriesAre(artifacts);
    var es := DocumentEntries(artifacts);
    forall i, j | 0 <= i < j < |es|
      ensures Precedes(es[i].path, es[j].path)
    {
      LessIs(es[i].path, es[j].path);
    }
  }

  /** One document for one set of triples, and different documents for different sets. */
  lemma DocumentIsTheSet(xs: seq<Artifact>, ys: seq<Artifact>, encode: Entry -> string)
    requires UniquePaths(xs) && UniquePaths(ys) && IsInjective(encode)
    ensures DocumentOf(xs, encode) == DocumentOf(ys, encode) <==> forall e :: Declares(xs, e) <==> Declares(ys, e)
  {
    hide StrictlySorted, DocumentEntries, Declares;
    DocumentEntriesAre(xs);
    DocumentEntriesAre(ys);
    var a, b := DocumentEntries(xs), DocumentEntries(ys);
    if DocumentOf(xs, encode) == DocumentOf(ys, encode) {
      assert |a| == |MapAll(a, encode)| == |b|;
      forall i | 0 <= i < |a| ensures a[i] == b[i] { assert MapAll(a, encode)[i] == MapAll(b, encode)[i]; }
      assert a == b;
    }
    if forall e :: Declares(xs, e) <==> Declares(ys, e) { SortedIsUnique(a, b); }
  }

  /** Artifact order never matters. */
  lemma DocumentIgnoresOrder(xs: seq<Artifact>, ys: seq<Artifact>, encode: Entry -> string)
    requires UniquePaths(xs) && multiset(xs) == multiset(ys)
    ensures UniquePaths(ys) && DocumentOf(xs, encode) == DocumentOf(ys, encode)
  {
    hide Declares, StrictlySorted, DocumentEntries;
    SameMultisetSamePaths(xs, ys);
    forall e ensures Declares(xs, e) <==> Declares(ys, e) { SameMembersDeclareTheSame(xs, ys, e); }
    DocumentEntriesAre(xs);
    DocumentEntriesAre(ys);
    SortedIsUnique(DocumentEntries(xs), DocumentEntries(ys));
  }

  lemma SameMembersDeclareTheSame(xs: seq<Artifact>, ys: seq<Artifact>, e: Entry)
    requires multiset(xs) == multiset(ys)
    ensures Declares(xs, e) <==> Declares(ys, e)
  {
    assert forall a :: a in xs <==> a in multiset(xs);
    assert forall a :: a in ys <==> a in multiset(ys);
  }

  /** Unique paths survive a permutation. */
  lemma SameMultisetSamePaths(xs: seq<Artifact>, ys: seq<Artifact>)
    requires UniquePaths(xs) && multiset(xs) == multiset(ys)
    ensures UniquePaths(ys)
  {
    forall i, j | 0 <= i < j < |ys| ensures ys[i].path != ys[j].path {
      assert ys[i] in multiset(ys) && ys[j] in multiset(ys);
      var k :| 0 <= k < |xs| && xs[k] == ys[i];
      var l :| 0 <= l < |xs| && xs[l] == ys[j];
      if k == l {
        TwiceInSequence(ys, i, j);
        OnceWhenUnique(xs, k);
      }
    }
  }

  lemma TwiceInSequence(ys: seq<Artifact>, i: nat, j: nat)
    requires i < j < |ys| && ys[i] == ys[j]
    ensures multiset(ys)[ys[i]] >= 2
  {
    assert ys == ys[..j] + [ys[j]] + ys[j + 1..];
    assert ys[..j][i] == ys[i];
    assert ys[i] in multiset(ys[..j]);
    assert multiset(ys) == multiset(ys[..j]) + multiset([ys[j]]) + multiset(ys[j + 1..]);
  }

  lemma OnceWhenUnique(xs: seq<Artifact>, k: nat)
    requires UniquePaths(xs) && k < |xs|
    ensures multiset(xs)[xs[k]] == 1
  {
    assert xs == xs[..k] + [xs[k]] + xs[k + 1..];
    assert xs[k] !in xs[..k] && xs[k] !in xs[k + 1..];
    assert multiset(xs) == multiset(xs[..k]) + multiset([xs[k]]) + multiset(xs[k + 1..]);
  }

  /** An artifact without a spec contributes nothing, wherever it stands. */
  lemma {:induction false} DocumentIgnoresSpecless(before: seq<Artifact>, a: Artifact, after: seq<Artifact>,
      encode: Entry -> string)
    requires a.spec.None?
    ensures DocumentOf(before + [a] + after, encode) == DocumentOf(before + after, encode)
  {
    EntriesIgnoreSpecless(before, a, after);
  }

  lemma {:induction false} EntriesIgnoreSpecless(before: seq<Artifact>, a: Artifact, after: seq<Artifact>)
    requires a.spec.None?
    ensures Entries(before + [a] + after) == Entries(before + after)
  {
    if before == [] {
      assert before + [a] + after == [a] + after && ([a] + after)[1..] == after && before + after == after;
    } else {
      EntriesIgnoreSpecless(before[1..], a, after);
      assert (before + [a] + after)[1..] == before[1..] + [a] + after;
      assert (before + after)[1..] == before[1..] + after;
    }
  }

  // ---- hexadecimal ----

  const DIGEST_LEN: nat := 32
  const HEX_LEN: nat := 64

  datatype ParseError = Length(length: nat) | InvalidCharacter(position: nat, character: char)

  predicate IsDigest(bytes: Bytes) { |bytes| == DIGEST_LEN && forall i :: 0 <= i < |bytes| ==> bytes[i] < 256 }

  function HexDigit(n: nat): (c: char)
    requires n < 16
    ensures IsHexChar(c) && Nibble(c) == n
  {
    if n < 10 then ('0' as int + n) as char else ('a' as int + n - 10) as char
  }

  /** The value of a digit already checked to be one. */
  function Nibble(c: char): (n: nat)
    requires IsHexChar(c)
    ensures n < 16
  {
    if '0' <= c <= '9' then c as int - '0' as int else c as int - 'a' as int + 10
  }

  /** Two lowercase digits a byte. */
  function ToHex(bytes: Bytes): (s: string)
    requires forall i :: 0 <= i < |bytes| ==> bytes[i] < 256
    ensures |s| == 2 * |bytes|
  {
    if bytes == [] then "" else [HexDigit(bytes[0] / 16), HexDigit(bytes[0] % 16)] + ToHex(bytes[1..])
  }

  lemma {:induction false} ToHexAt(bytes: Bytes, i: nat)
    requires (forall k :: 0 <= k < |bytes| ==> bytes[k] < 256) && i < |bytes|
    ensures ToHex(bytes)[2 * i] == HexDigit(bytes[i] / 16) && ToHex(bytes)[2 * i + 1] == HexDigit(bytes[i] % 16)
  {
    if i > 0 {
      ToHexAt(bytes[1..], i - 1);
      assert ToHex(bytes)[2 * i] == ToHex(bytes[1..])[2 * (i - 1)];
      assert ToHex(bytes)[2 * i + 1] == ToHex(bytes[1..])[2 * (i - 1) + 1];
    }
  }

  /** Each byte is its two digits of base sixteen, the high one first. */
  lemma HexIsWritten(bytes: Bytes, i: nat)
    requires (forall k :: 0 <= k < |bytes| ==> bytes[k] < 256) && i < |bytes|
    ensures ToHex(bytes)[2 * i] == "0123456789abcdef"[bytes[i] / 16]
    ensures ToHex(bytes)[2 * i + 1] == "0123456789abcdef"[bytes[i] % 16]
  {
    hide ToHex, HexDigit;
    ToHexAt(bytes, i);
    DigitIs(bytes[i] / 16);
    DigitIs(bytes[i] % 16);
  }

  lemma DigitIs(n: nat)
    requires n < 16
    ensures HexDigit(n) == "0123456789abcdef"[n]
  {
  }

  lemma ToHexIsLowerHex(bytes: Bytes)
    requires forall k :: 0 <= k < |bytes| ==> bytes[k] < 256
    ensures IsLowerHex(ToHex(bytes))
  {
    forall i | 0 <= i < |ToHex(bytes)| ensures IsHexChar(ToHex(bytes)[i]) {
      ToHexAt(bytes, i / 2);
      assert i == 2 * (i / 2) || i == 2 * (i / 2) + 1;
    }
  }

  /** Distinct digests never share a hexadecimal form. */
  lemma ToHexIsInjective(a: Bytes, b: Bytes)
    requires (forall k :: 0 <= k < |a| ==> a[k] < 256) && (forall k :: 0 <= k < |b| ==> b[k] < 256)
    requires ToHex(a) == ToHex(b)
    ensures a == b
  {
    forall i | 0 <= i < |a| ensures a[i] == b[i] {
      ToHexAt(a, i);
      ToHexAt(b, i);
      assert a[i] / 16 == b[i] / 16 && a[i] % 16 == b[i] % 16;
    }
  }

  lemma ToHexStep(out: string, bytes: Bytes, i: nat)
    requires (forall k :: 0 <= k < |bytes| ==> bytes[k] < 256) && i < |bytes|
    ensures out + ToHex(bytes[i..]) == out + [HexDigit(bytes[i] / 16), HexDigit(bytes[i] % 16)] + ToHex(bytes[i + 1..])
  {
    hide HexDigit;
    assert bytes[i..][1..] == bytes[i + 1..] && bytes[i..][0] == bytes[i];
    var digits, rest := [HexDigit(bytes[i] / 16), HexDigit(bytes[i] % 16)], ToHex(bytes[i + 1..]);
    assert out + (digits + rest) == out + digits + rest;
  }

  method WriteHex(bytes: Bytes) returns (out: string)
    requires forall k :: 0 <= k < |bytes| ==> bytes[k] < 256
    ensures out == ToHex(bytes)
  {
    hide ToHex, HexDigit;
    out := "";
    assert bytes[0..] == bytes;
    assert ToHex([]) == "";
    assert out + ToHex(bytes) == ToHex(bytes);
    for i := 0 to |bytes|
      invariant out + ToHex(bytes[i..]) == ToHex(bytes)
    {
      ToHexStep(out, bytes, i);
      out := out + [HexDigit(bytes[i] / 16), HexDigit(bytes[i] % 16)];
    }
    assert out + "" == out;
  }

  /** The first position whose character is not a lowercase hex digit, or the length. */
  function FirstInvalid(value: string): (i: nat)
    ensures i <= |value| && (forall j :: 0 <= j < i ==> IsHexChar(value[j])) && (i < |value| ==> !IsHexChar(value[i]))
  {
    if value == "" || !IsHexChar(value[0]) then 0 else 1 + FirstInvalid(value[1..])
  }

  /** Reads exactly what `ToHex` writes: the digest whose hexadecimal form the text is, and nothing else. */
  method FromHex(value: string) returns (result: Result<Bytes, ParseError>)
    ensures result.Ok? <==> |value| == HEX_LEN && IsLowerHex(value)
    ensures result.Ok? ==> IsDigest(result.value) && ToHex(result.value) == value
    ensures forall digest :: IsDigest(digest) && ToHex(digest) == value ==> result == Ok(digest)
    ensures |value| != HEX_LEN ==> result == Err(Length(|value|))
    ensures result.Err? && |value| == HEX_LEN ==>
              && result.error.InvalidCharacter?
              && var p := result.error.position;
              && p < |value| && value[p] == result.error.character && !IsHexChar(value[p])
              && forall j :: 0 <= j < p ==> IsHexChar(value[j])
  {
    hide ToHex;
    if |value| != HEX_LEN { return Err(Length(|value|)); }
    var position := FirstInvalid(value);
    forall digest | IsDigest(digest) && ToHex(digest) == value ensures position == |value| { ToHexIsLowerHex(digest); }
    if position < |value| { return Err(InvalidCharacter(position, value[position])); }
    var bytes := new nat[DIGEST_LEN](_ => 0);
    for i := 0 to DIGEST_LEN
      invariant forall k :: 0 <= k < i ==>
                  bytes[k] < 256 && HexDigit(bytes[k] / 16) == value[2 * k]
                      && HexDigit(bytes[k] % 16) == value[2 * k + 1]
    {
      bytes[i] := Nibble(value[2 * i]) * 16 + Nibble(value[2 * i + 1]);
      NibblePair(value[2 * i], value[2 * i + 1]);
    }
    var digest := bytes[..];
    forall i | 0 <= i < |value| ensures ToHex(digest)[i] == value[i] {
      ToHexAt(digest, i / 2);
      assert i == 2 * (i / 2) || i == 2 * (i / 2) + 1;
    }
    assert ToHex(digest) == value;
    forall other | IsDigest(other) && ToHex(other) == value ensures other == digest { ToHexIsInjective(other, digest); }
    result := Ok(digest);
  }

  lemma NibblePair(high: char, low: char)
    requires IsHexChar(high) && IsHexChar(low)
    ensures var b := Nibble(high) * 16 + Nibble(low);
            b < 256 && HexDigit(b / 16) == high && HexDigit(b % 16) == low
  {
    var b := Nibble(high) * 16 + Nibble(low);
    assert b / 16 == Nibble(high) && b % 16 == Nibble(low);
  }
}
