/** Regular expressions and the strings they match: the reference the scanners are held to. */
module Regex {
  import opened Text

  datatype Re =
    | Eps
    | Chars(chars: set<char>)
    | Cat(first: Re, second: Re)
    | Alt(left: Re, right: Re)
    | Star(inner: Re)

  predicate Matches(r: Re, s: string)
    decreases r, |s|
  {
    match r
    case Eps => s == ""
    case Chars(cs) => |s| == 1 && s[0] in cs
    case Cat(a, b) => exists i :: 0 <= i <= |s| && Matches(a, s[..i]) && Matches(b, s[i..])
    case Alt(a, b) => Matches(a, s) || Matches(b, s)
    case Star(a) => s == "" || exists i :: 0 < i <= |s| && Matches(a, s[..i]) && Matches(r, s[i..])
  }

  function Plus(r: Re): Re { Cat(r, Star(r)) }

  function Opt(r: Re): Re { Alt(Eps, r) }

  function Lit(c: char): Re { Chars({c}) }

  /** One or more `r` with one `c` between each two neighbours. */
  function SepBy(r: Re, c: char): Re { Cat(r, Star(Cat(Lit(c), r))) }

  /** Every character an expression can consume. */
  function Alphabet(r: Re): set<char> {
    match r
    case Eps => {}
    case Chars(cs) => cs
    case Cat(a, b) => Alphabet(a) + Alphabet(b)
    case Alt(a, b) => Alphabet(a) + Alphabet(b)
    case Star(a) => Alphabet(a)
  }

  predicate AllIn(s: string, cs: set<char>) { forall i :: 0 <= i < |s| ==> s[i] in cs }

  lemma {:induction false} MatchesWithinAlphabet(r: Re, s: string)
    requires Matches(r, s)
    ensures AllIn(s, Alphabet(r))
    decreases r, |s|
  {
    match r
    case Eps =>
    case Chars(cs) =>
    case Cat(a, b) =>
      var i :| 0 <= i <= |s| && Matches(a, s[..i]) && Matches(b, s[i..]);
      MatchesWithinAlphabet(a, s[..i]);
      MatchesWithinAlphabet(b, s[i..]);
      AllInConcat(s, i, Alphabet(r));
    case Alt(a, b) =>
      if Matches(a, s) { MatchesWithinAlphabet(a, s); } else { MatchesWithinAlphabet(b, s); }
    case Star(a) =>
      if s != "" {
        var i :| 0 < i <= |s| && Matches(a, s[..i]) && Matches(r, s[i..]);
        MatchesWithinAlphabet(a, s[..i]);
        MatchesWithinAlphabet(r, s[i..]);
        AllInConcat(s, i, Alphabet(r));
      }
  }

  lemma AllInConcat(s: string, i: nat, cs: set<char>)
    requires i <= |s| && AllIn(s[..i], cs) && AllIn(s[i..], cs)
    ensures AllIn(s, cs)
  {
    forall k | 0 <= k < |s| ensures s[k] in cs {
      if k < i { assert s[k] == s[..i][k]; } else { assert s[k] == s[i..][k - i]; }
    }
  }

  // ---- building and taking apart a match ----

  lemma CatAt(a: Re, b: Re, s: string, i: nat)
    requires i <= |s| && Matches(a, s[..i]) && Matches(b, s[i..])
    ensures Matches(Cat(a, b), s)
  {
  }

  lemma CatOf(a: Re, b: Re, x: string, y: string)
    requires Matches(a, x) && Matches(b, y)
    ensures Matches(Cat(a, b), x + y)
  {
    assert (x + y)[..|x|] == x && (x + y)[|x|..] == y;
  }

  lemma StarOf(a: Re, x: string, y: string)
    requires x != "" && Matches(a, x) && Matches(Star(a), y)
    ensures Matches(Star(a), x + y)
  {
    assert (x + y)[..|x|] == x && (x + y)[|x|..] == y;
  }

  /** A separator in front of a separated list continues the repetition. */
  lemma StarPrepend(separator: Re, item: Re, x: string, after: string)
    requires x != "" && Matches(separator, x) && Matches(Cat(item, Star(Cat(separator, item))), after)
    ensures Matches(Star(Cat(separator, item)), x + after)
  {
    hide Matches;
    var pair := Cat(separator, item);
    var j := CatSplit(item, Star(pair), after);
    var head, tail := x + after[..j], after[j..];
    CatOf(separator, item, x, after[..j]);
    StarOf(pair, head, tail);
    assert head + tail == x + after;
  }

  lemma CutTwice(s: string, i: nat, j: nat)
    requires i <= j <= |s|
    ensures s[..j][..i] == s[..i] && s[..j][i..] == s[i..j]
    ensures s[i..][..j - i] == s[i..j] && s[i..][j - i..] == s[j..]
  {
  }

  lemma StarHead(separator: Re, item: Re, rest: string) returns (i: nat, j: nat)
    requires rest != "" && Matches(Star(Cat(separator, item)), rest)
    ensures i <= j <= |rest| && Matches(separator, rest[..i]) && Matches(item, rest[i..j])
    ensures Matches(Cat(item, Star(Cat(separator, item))), rest[i..])
  {
    hide Matches;
    var pair := Cat(separator, item);
    j := StarSplit(pair, rest);
    i := CatSplit(separator, item, rest[..j]);
    CutTwice(rest, i, j);
    CatAt(item, Star(pair), rest[i..], j - i);
  }

  lemma CatSplit(a: Re, b: Re, s: string) returns (i: nat)
    requires Matches(Cat(a, b), s)
    ensures i <= |s| && Matches(a, s[..i]) && Matches(b, s[i..])
  {
    i :| 0 <= i <= |s| && Matches(a, s[..i]) && Matches(b, s[i..]);
  }

  lemma StarSplit(a: Re, s: string) returns (i: nat)
    requires Matches(Star(a), s) && s != ""
    ensures 0 < i <= |s| && Matches(a, s[..i]) && Matches(Star(a), s[i..])
  {
    i :| 0 < i <= |s| && Matches(a, s[..i]) && Matches(Star(a), s[i..]);
  }

  lemma LitIs(c: char, s: string)
    ensures Matches(Lit(c), s) <==> s == [c]
  {
  }

  lemma OptIs(a: Re, s: string)
    ensures Matches(Opt(a), s) <==> s == "" || Matches(a, s)
    ensures Matches(Star(a), "")
  {
  }

  lemma LitCatIs(c: char, b: Re, s: string)
    ensures Matches(Cat(Lit(c), b), s) <==> s != "" && s[0] == c && Matches(b, s[1..])
  {
    if Matches(Cat(Lit(c), b), s) {
      var i := CatSplit(Lit(c), b, s);
      LitIs(c, s[..i]);
      assert i == 1 && s[..i][0] == c;
    }
    if s != "" && s[0] == c && Matches(b, s[1..]) {
      LitIs(c, s[..1]);
      CatAt(Lit(c), b, s, 1);
    }
  }

  /** A first part that cannot contain `c` ends no later than the first `c`. */
  lemma BeforeFirst(a: Re, c: char, s: string, j: nat)
    requires j <= |s| && Matches(a, s[..j]) && c !in Alphabet(a)
    ensures j <= Find(s, c)
    ensures j == |s| || s[j] == c ==> j == Find(s, c)
  {
    MatchesWithinAlphabet(a, s[..j]);
    forall k | 0 <= k < j ensures s[k] != c { assert s[..j][k] == s[k]; }
  }

  lemma {:induction false} StarCharsIs(cs: set<char>, s: string)
    ensures Matches(Star(Chars(cs)), s) <==> AllIn(s, cs)
    decreases |s|
  {
    if Matches(Star(Chars(cs)), s) {
      MatchesWithinAlphabet(Star(Chars(cs)), s);
      assert Alphabet(Star(Chars(cs))) == Alphabet(Chars(cs)) == cs;
    }
    if AllIn(s, cs) {
      if s == "" {
        OptIs(Chars(cs), s);
      } else {
        forall k | 0 <= k < |s| - 1 ensures s[1..][k] in cs { assert s[1..][k] == s[k + 1]; }
        StarCharsIs(cs, s[1..]);
        assert Matches(Chars(cs), s[..1]);
        StarOf(Chars(cs), s[..1], s[1..]);
        assert s == s[..1] + s[1..];
      }
    }
  }

  lemma PlusCharsIs(cs: set<char>, s: string)
    ensures Matches(Plus(Chars(cs)), s) <==> s != "" && AllIn(s, cs)
  {
    if Matches(Plus(Chars(cs)), s) {
      MatchesWithinAlphabet(Plus(Chars(cs)), s);
      assert Alphabet(Star(Chars(cs))) == Alphabet(Chars(cs)) == cs;
      assert Alphabet(Plus(Chars(cs))) == cs;
      var i := CatSplit(Chars(cs), Star(Chars(cs)), s);
    }
    if s != "" && AllIn(s, cs) {
      forall k | 0 <= k < |s| - 1 ensures s[1..][k] in cs { assert s[1..][k] == s[k + 1]; }
      StarCharsIs(cs, s[1..]);
      assert Matches(Chars(cs), s[..1]);
      CatAt(Chars(cs), Star(Chars(cs)), s, 1);
    }
  }

  /** When the first part cannot contain `c`, an optional `c`-introduced part starts at the first `c`. */
  lemma OptionalTail(a: Re, b: Re, c: char, s: string)
    requires c !in Alphabet(a)
    ensures var i := Find(s, c);
            Matches(Cat(a, Opt(Cat(Lit(c), b))), s) <==> Matches(a, s[..i]) && (i == |s| || Matches(b, s[i + 1..]))
  {
    hide Matches;
    var i := Find(s, c);
    var tail := Opt(Cat(Lit(c), b));
    if Matches(Cat(a, tail), s) {
      var j := CatSplit(a, tail, s);
      OptIs(Cat(Lit(c), b), s[j..]);
      LitCatIs(c, b, s[j..]);
      BeforeFirst(a, c, s, j);
      assert s[j..] != "" ==> s[j..][1..] == s[j + 1..];
    }
    if Matches(a, s[..i]) && (i == |s| || Matches(b, s[i + 1..])) {
      OptIs(Cat(Lit(c), b), s[i..]);
      LitCatIs(c, b, s[i..]);
      assert i < |s| ==> s[i..][1..] == s[i + 1..];
      CatAt(a, tail, s, i);
    }
  }

  /** A required `c` after a part that cannot contain it is the first `c`. */
  lemma RequiredTail(a: Re, b: Re, c: char, s: string)
    requires c !in Alphabet(a)
    ensures var i := Find(s, c);
            Matches(Cat(a, Cat(Lit(c), b)), s) <==> i < |s| && Matches(a, s[..i]) && Matches(b, s[i + 1..])
  {
    hide Matches;
    var i := Find(s, c);
    if Matches(Cat(a, Cat(Lit(c), b)), s) {
      var j := CatSplit(a, Cat(Lit(c), b), s);
      LitCatIs(c, b, s[j..]);
      BeforeFirst(a, c, s, j);
      assert s[j..][1..] == s[j + 1..];
    }
    if i < |s| && Matches(a, s[..i]) && Matches(b, s[i + 1..]) {
      LitCatIs(c, b, s[i..]);
      assert s[i..][1..] == s[i + 1..];
      CatAt(a, Cat(Lit(c), b), s, i);
    }
  }

  /** A separated list whose items cannot contain the separator: exactly the split pieces, each an item. */
  lemma {:induction false} SepByIsSplit(r: Re, c: char, s: string)
    requires c !in Alphabet(r)
    ensures Matches(SepBy(r, c), s) <==> forall p :: p in Split(s, c) ==> Matches(r, p)
    decreases |s|
  {
    hide Matches, SepBy, Alphabet, Find;
    var i := Find(s, c);
    SepByUnfolds(r, c, s);
    if i < |s| {
      SepByIsSplit(r, c, s[i + 1..]);
      assert Split(s, c) == [s[..i]] + Split(s[i + 1..], c);
      assert forall p :: p in Split(s, c) <==> p == s[..i] || p in Split(s[i + 1..], c);
    } else {
      assert s[..i] == s && Split(s, c) == [s];
    }
  }

  lemma SepByUnfolds(r: Re, c: char, s: string)
    requires c !in Alphabet(r)
    ensures var i := Find(s, c);
            Matches(SepBy(r, c), s) <==> Matches(r, s[..i]) && (i == |s| || Matches(SepBy(r, c), s[i + 1..]))
  {
    hide Matches;
    var i := Find(s, c);
    if Matches(SepBy(r, c), s) { SepByHead(r, c, s); }
    if Matches(r, s[..i]) && (i == |s| || Matches(SepBy(r, c), s[i + 1..])) { SepByCons(r, c, s, i); }
  }

  lemma SepByHead(r: Re, c: char, s: string)
    requires c !in Alphabet(r) && Matches(SepBy(r, c), s)
    ensures var i := Find(s, c); Matches(r, s[..i]) && (i == |s| || Matches(SepBy(r, c), s[i + 1..]))
  {
    hide Matches, Find;
    var item := Cat(Lit(c), r);
    var j := CatSplit(r, Star(item), s);
    BeforeFirst(r, c, s, j);
    var rest := s[j..];
    if rest != "" {
      var m := StarSplit(item, rest);
      LitCatIs(c, r, rest[..m]);
      assert rest[..m][0] == s[j];
      var after := s[j + 1..];
      assert after[..m - 1] == rest[..m][1..];
      assert after[m - 1..] == rest[m..];
      CatAt(r, Star(item), after, m - 1);
    }
  }

  lemma SepByCons(r: Re, c: char, s: string, i: nat)
    requires i <= |s| && Matches(r, s[..i])
    requires i == |s| || (s[i] == c && Matches(SepBy(r, c), s[i + 1..]))
    ensures Matches(SepBy(r, c), s)
  {
    hide Matches;
    var item := Cat(Lit(c), r);
    if i == |s| {
      OptIs(item, "");
      assert s[i..] == "";
    } else {
      var after := s[i + 1..];
      var j := CatSplit(r, Star(item), after);
      var head := [c] + after[..j];
      assert head[1..] == after[..j];
      LitCatIs(c, r, head);
      StarOf(item, head, after[j..]);
      assert s[i..] == head + after[j..];
    }
    CatAt(r, Star(item), s, i);
  }

  /** One character of `head`, then any of `tail`. */
  function HeadTail(head: set<char>, tail: set<char>): Re { Cat(Chars(head), Star(Chars(tail))) }

  lemma HeadTailIs(head: set<char>, tail: set<char>, s: string)
    ensures Matches(HeadTail(head, tail), s) <==> s != "" && s[0] in head && AllIn(s[1..], tail)
  {
    if Matches(HeadTail(head, tail), s) {
      var i := CatSplit(Chars(head), Star(Chars(tail)), s);
      StarCharsIs(tail, s[i..]);
      assert s[..i][0] == s[0];
    }
    if s != "" && s[0] in head && AllIn(s[1..], tail) {
      StarCharsIs(tail, s[1..]);
      assert Matches(Chars(head), s[..1]);
      CatAt(Chars(head), Star(Chars(tail)), s, 1);
    }
  }

  /** Any characters of `inner` between two of `ends`, or one of `ends` alone. */
  function Between(ends: set<char>, inner: set<char>): Re {
    Alt(Chars(ends), Cat(Chars(ends), Cat(Star(Chars(inner)), Chars(ends))))
  }

  lemma BetweenIs(ends: set<char>, inner: set<char>, s: string)
    requires ends <= inner
    ensures Matches(Between(ends, inner), s)
            <==> s != "" && s[0] in ends && s[|s| - 1] in ends && AllIn(s, inner)
  {
    var middle := Star(Chars(inner));
    var tail := Cat(middle, Chars(ends));
    if Matches(Cat(Chars(ends), tail), s) {
      var i := CatSplit(Chars(ends), tail, s);
      var j := CatSplit(middle, Chars(ends), s[i..]);
      StarCharsIs(inner, s[i..][..j]);
      assert s[0] == s[..i][0] && s[|s| - 1] == s[i..][j..][0];
      forall k | 0 <= k < |s| ensures s[k] in inner {
        if 0 < k < |s| - 1 { assert s[k] == s[i..][..j][k - 1]; }
      }
    }
    if |s| > 1 && s[0] in ends && s[|s| - 1] in ends && AllIn(s, inner) {
      var part := s[1..][..|s| - 2];
      forall k | 0 <= k < |part| ensures part[k] in inner { assert part[k] == s[k + 1]; }
      StarCharsIs(inner, part);
      assert Matches(Chars(ends), s[1..][|s| - 2..]) && Matches(Chars(ends), s[..1]);
      CatAt(middle, Chars(ends), s[1..], |s| - 2);
      CatAt(Chars(ends), tail, s, 1);
    }
  }
}
