/** Searching, splitting and joining, as the source's string operations do them. */
module Text {

  /** `char::is_control`: the Unicode general category Cc. */
  predicate IsControl(c: char) { c < ' ' || '\U{7F}' <= c <= '\U{9F}' }

  lemma ControlIs(c: char)
    ensures IsControl(c) <==> c as int < 32 || 127 <= c as int <= 159
  {
  }

  /** The first position of `c` in `s`, or `|s|` when it does not occur. */
  function Find(s: string, c: char): (i: nat)
    ensures i <= |s|
    ensures i < |s| ==> s[i] == c
    ensures c !in s[..i]
    ensures forall j :: 0 <= j < i ==> s[j] != c
  {
    if s == [] || s[0] == c then 0 else
      assert s[..1 + Find(s[1..], c)] == [s[0]] + s[1..][..Find(s[1..], c)];
      1 + Find(s[1..], c)
  }

  /** One past the last position of `c` in `s`, or 0 when it does not occur. */
  function FindLast(s: string, c: char): (i: nat)
    ensures i <= |s|
    ensures i > 0 ==> s[i - 1] == c
    ensures c !in s[i..]
    ensures forall j :: i <= j < |s| ==> s[j] != c
  {
    if s == [] then 0
    else if s[|s| - 1] == c then |s|
    else
      var i := FindLast(s[..|s| - 1], c);
      assert s[i..] == s[..|s| - 1][i..] + [s[|s| - 1]];
      i
  }

  /** The pieces of `s` between occurrences of `c`; never empty. */
  function Split(s: string, c: char): (parts: seq<string>)
    ensures |parts| >= 1
    ensures forall p :: p in parts ==> c !in p
    decreases |s|
  {
    var i := Find(s, c);
    if i == |s| then assert s == s[..i]; [s] else [s[..i]] + Split(s[i + 1..], c)
  }

  /** The pieces with one `c` between each two neighbours. */
  function Join(parts: seq<string>, c: char): string {
    if parts == [] then ""
    else if |parts| == 1 then parts[0]
    else parts[0] + [c] + Join(parts[1..], c)
  }

  /** Every element, spelled. */
  function MapAll<T>(xs: seq<T>, spell: T -> string): (out: seq<string>)
    ensures |out| == |xs| && forall i :: 0 <= i < |xs| ==> out[i] == spell(xs[i])
  {
    seq(|xs|, i requires 0 <= i < |xs| => spell(xs[i]))
  }

  lemma {:induction false} FindAppend(a: string, b: string, c: char)
    requires c !in a
    ensures Find(a + [c] + b, c) == |a|
    ensures Find(a, c) == |a|
  {
    var s := a + [c] + b;
    var i := Find(s, c);
    assert s[|a|] == c;
    assert forall j :: 0 <= j < |a| ==> s[j] == a[j];
  }

  lemma {:induction false} FindLastAppend(a: string, b: string, c: char)
    requires c !in b
    ensures FindLast(a + [c] + b, c) == |a| + 1
  {
    var s := a + [c] + b;
    assert s[|a|] == c;
    forall j | |a| < j < |s| ensures s[j] != c { assert s[j] == b[j - |a| - 1]; }
  }

  lemma JoinCons(head: string, rest: seq<string>, c: char)
    requires rest != []
    ensures Join([head] + rest, c) == head + [c] + Join(rest, c)
  {
    assert ([head] + rest)[1..] == rest;
  }

  lemma {:induction false} JoinConcat(a: seq<string>, b: seq<string>, c: char)
    requires a != [] && b != []
    ensures Join(a + b, c) == Join(a, c) + [c] + Join(b, c)
  {
    if |a| == 1 {
      assert a == [a[0]];
      JoinCons(a[0], b, c);
    } else {
      JoinConcat(a[1..], b, c);
      JoinCons(a[0], a[1..] + b, c);
      assert a + b == [a[0]] + (a[1..] + b);
      assert a[0] + [c] + (Join(a[1..], c) + [c] + Join(b, c)) == (a[0] + [c] + Join(a[1..], c)) + [c] + Join(b, c);
    }
  }

  lemma {:induction false} JoinSplit(s: string, c: char)
    ensures Join(Split(s, c), c) == s
    decreases |s|
  {
    hide Find;
    var i := Find(s, c);
    if i < |s| {
      var head, rest := s[..i], Split(s[i + 1..], c);
      JoinSplit(s[i + 1..], c);
      assert Split(s, c) == [head] + rest;
      JoinCons(head, rest, c);
      assert s == head + [c] + s[i + 1..];
    }
  }

  lemma {:induction false} SplitJoin(parts: seq<string>, c: char)
    requires parts != []
    requires forall p :: p in parts ==> c !in p
    ensures Split(Join(parts, c), c) == parts
    decreases |parts|
  {
    assert parts[0] in parts;
    if |parts| == 1 {
      FindAppend(parts[0], "", c);
    } else {
      var rest := Join(parts[1..], c);
      FindAppend(parts[0], rest, c);
      var s := parts[0] + [c] + rest;
      assert s[..|parts[0]|] == parts[0] && s[|parts[0]| + 1..] == rest;
      forall p | p in parts[1..] ensures c !in p { assert p in parts; }
      SplitJoin(parts[1..], c);
    }
  }
}
