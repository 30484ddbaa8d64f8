/**
 * The unit-file escaping rule of src/systemd.rs, and the decoder that undoes it: the
 * inverse of the rule as stated, not systemd's own parser. Strings are Unicode scalars.
 */
module Systemd {
  import opened Options
  import opened Text

  /** One element of an argument list, already resolved on the host. */
  datatype UnitArg = Argument(text: string) | MainPid

  const MAIN_PID := "$MAINPID"

  predicate IsRepresentable(value: string) {
    value != "" && forall i :: 0 <= i < |value| ==> !IsControl(value[i])
  }

  // ---- serialisation ----

  /** `str::replace` of one character. */
  function Replace(s: string, c: char, with: string): string {
    if s == "" then "" else (if s[0] == c then with else [s[0]]) + Replace(s[1..], c, with)
  }

  function Double(value: string, dollars: bool): string {
    var percentDoubled := Replace(value, '%', "%%");
    if dollars then Replace(percentDoubled, '$', "$$") else percentDoubled
  }

  function Quote(value: string): string {
    "\"" + Replace(Replace(value, '\\', "\\\\"), '"', "\\\"") + "\""
  }

  predicate IsBareSafe(raw: string) {
    raw != "" && forall i :: 0 <= i < |raw| ==> '!' <= raw[i] <= '~' && raw[i] !in {'"', '\'', '\\'}
  }

  function RenderArg(arg: UnitArg): string {
    match arg
    case Argument(raw) => if IsBareSafe(raw) then Double(raw, true) else Quote(Double(raw, true))
    case MainPid => MAIN_PID
  }

  function RenderEnvironment(key: string, value: string): string { Quote(Double(key + "=" + value, false)) }

  function RenderDescription(raw: string): string { Double(raw, false) }

  function RenderAll(args: seq<UnitArg>): (parts: seq<string>)
    ensures |parts| == |args| && forall i :: 0 <= i < |args| ==> parts[i] == RenderArg(args[i])
  {
    seq(|args|, i requires 0 <= i < |args| => RenderArg(args[i]))
  }

  /** Elements joined by one space, as the caller of the rule joins them. */
  function RenderArgs(args: seq<UnitArg>): string { Join(RenderAll(args), ' ') }

  // ---- two replacements are one pass ----

  function DoubleChar(c: char, dollars: bool): string {
    if c == '%' || (dollars && c == '$') then [c, c] else [c]
  }

  function DoubleOnce(s: string, dollars: bool): string {
    if s == "" then "" else DoubleChar(s[0], dollars) + DoubleOnce(s[1..], dollars)
  }

  function EscapeChar(c: char): string { if c == '\\' || c == '"' then ['\\', c] else [c] }

  function EscapeOnce(s: string): string { if s == "" then "" else EscapeChar(s[0]) + EscapeOnce(s[1..]) }

  lemma {:induction false} ReplaceConcat(a: string, b: string, c: char, with: string)
    ensures Replace(a + b, c, with) == Replace(a, c, with) + Replace(b, c, with)
  {
    if a == "" {
      assert a + b == b;
    } else {
      assert (a + b)[1..] == a[1..] + b;
      ReplaceConcat(a[1..], b, c, with);
    }
  }

  /** What one character becomes under two replacements in a row. */
  lemma ReplaceShort(x: char, y: char, c: char, with: string)
    ensures Replace([x], c, with) == if x == c then with else [x]
    ensures x != c && y != c ==> Replace([x, y], c, with) == [x, y]
  {
    assert [x][1..] == "" && [x, y][1..] == [y] && [y][1..] == "";
  }

  lemma {:induction false} DoubleIsOnePass(value: string, dollars: bool)
    ensures Double(value, dollars) == DoubleOnce(value, dollars)
  {
    if value != "" {
      DoubleIsOnePass(value[1..], dollars);
      var first := if value[0] == '%' then "%%" else [value[0]];
      ReplaceConcat(first, Replace(value[1..], '%', "%%"), '$', "$$");
      ReplaceShort(value[0], '%', '$', "$$");
      ReplaceShort('%', '%', '$', "$$");
      assert Replace(value, '%', "%%") == first + Replace(value[1..], '%', "%%");
    }
  }

  lemma {:induction false} EscapeIsOnePass(value: string)
    ensures Replace(Replace(value, '\\', "\\\\"), '"', "\\\"") == EscapeOnce(value)
  {
    if value != "" {
      EscapeIsOnePass(value[1..]);
      var first := if value[0] == '\\' then "\\\\" else [value[0]];
      ReplaceConcat(first, Replace(value[1..], '\\', "\\\\"), '"', "\\\"");
      ReplaceShort(value[0], '\\', '"', "\\\"");
      ReplaceShort('\\', '\\', '"', "\\\"");
      assert Replace(value, '\\', "\\\\") == first + Replace(value[1..], '\\', "\\\\");
    }
  }

  lemma QuoteIsOnePass(value: string)
    ensures Quote(value) == "\"" + EscapeOnce(value) + "\""
  {
    EscapeIsOnePass(value);
  }

  /** Printable ASCII without a space, a quote of either kind or a backslash, and at least one character of it. */
  predicate IsPlainWord(raw: string) {
    |raw| > 0 && forall c :: c in raw ==> 0x21 <= c as int <= 0x7E && c != '"' && c != '\'' && c != '\\'
  }

  /** A value a unit file can hold: some text, and neither a C0 nor a C1 control character nor DEL in it. */
  lemma RepresentableIs(value: string)
    ensures IsRepresentable(value)
            <==> |value| > 0 && forall c :: c in value ==> 0x20 <= c as int <= 0x7E || c as int >= 0xA0
  {
    forall c | c in value
      ensures IsControl(c) <==> !(0x20 <= c as int <= 0x7E || c as int >= 0xA0)
    {
      ControlIs(c);
    }
    forall i | 0 <= i < |value|
      ensures value[i] in value
    {
    }
    hide IsControl;
  }

  /**
   * The whole rule in one pass: an argument stands bare exactly when it is a plain word, quoted otherwise, with
   * `%` and `$` doubled; an environment entry is always quoted and doubles `%` only; a description is never quoted.
   */
  lemma RenderingIs(raw: string, key: string, value: string)
    ensures RenderArg(MainPid) == "$MAINPID"
    ensures RenderArg(Argument(raw)) == if IsPlainWord(raw) then DoubleOnce(raw, true)
                                        else "\"" + EscapeOnce(DoubleOnce(raw, true)) + "\""
    ensures RenderEnvironment(key, value) == "\"" + EscapeOnce(DoubleOnce(key + "=" + value, false)) + "\""
    ensures RenderDescription(raw) == DoubleOnce(raw, false)
  {
    hide Double, Quote, DoubleOnce, EscapeOnce;
    DoubleIsOnePass(raw, true);
    DoubleIsOnePass(raw, false);
    DoubleIsOnePass(key + "=" + value, false);
    QuoteIsOnePass(Double(raw, true));
    QuoteIsOnePass(Double(key + "=" + value, false));
    PlainWordIs(raw);
    hide IsPlainWord, IsBareSafe;
  }

  lemma PlainWordIs(raw: string)
    ensures IsPlainWord(raw) <==> IsBareSafe(raw)
  {
    forall i | 0 <= i < |raw|
      ensures raw[i] in raw
    {
    }
  }

  // ---- the decoder ----

  function Prepend(c: char, tail: Option<string>): Option<string> {
    if tail.Some? then Some([c] + tail.value) else None
  }

  /** Halves every doubled character; a lone one is a systemd expansion and not text. */
  function Undouble(s: string, dollars: bool): Option<string>
    decreases |s|
  {
    if s == "" then Some("")
    else if s[0] == '%' || (dollars && s[0] == '$') then
      if |s| >= 2 && s[1] == s[0] then Prepend(s[0], Undouble(s[2..], dollars)) else None
    else Prepend(s[0], Undouble(s[1..], dollars))
  }

  /** The text up to the closing quote, unescaped, and what follows it. */
  function ReadQuoted(s: string): (r: Option<(string, string)>)
    ensures r.Some? ==> |r.value.1| < |s|
    decreases |s|
  {
    if s == "" then None
    else if s[0] == '"' then Some(("", s[1..]))
    else
      var escape := s[0] == '\\';
      if escape && (|s| < 2 || (s[1] != '"' && s[1] != '\\')) then None
      else
        var n := if escape then 2 else 1;
        match ReadQuoted(s[n..])
        case None => None
        case Some((text, rest)) => Some(([s[n - 1]] + text, rest))
  }

  /** The first element of an argument line, and what follows it. */
  function ReadArg(line: string): (r: Option<(UnitArg, string)>)
    ensures r.Some? ==> |r.value.1| <= |line|
  {
    if line != "" && line[0] == '"' then
      match ReadQuoted(line[1..])
      case None => None
      case Some((body, rest)) =>
        var text := Undouble(body, true);
        if text.Some? then Some((Argument(text.value), rest)) else None
    else
      var end := Find(line, ' ');
      if line[..end] == MAIN_PID then Some((MainPid, line[end..]))
      else
        var text := Undouble(line[..end], true);
        if text.Some? then Some((Argument(text.value), line[end..])) else None
  }

  function ParseArgs(line: string): Option<seq<UnitArg>>
    decreases |line|
  {
    match ReadArg(line)
    case None => None
    case Some((arg, rest)) =>
      if rest == "" then Some([arg])
      else if rest[0] != ' ' then None
      else
        match ParseArgs(rest[1..])
        case None => None
        case Some(args) => Some([arg] + args)
  }

  function ParseArg(line: string): Option<UnitArg> {
    match ReadArg(line)
    case Some((arg, rest)) => if rest == "" then Some(arg) else None
    case None => None
  }

  function ParseEnvironment(line: string): Option<(string, string)> {
    if line == "" || line[0] != '"' then None
    else match ReadQuoted(line[1..])
      case None => None
      case Some((body, rest)) =>
        var text := Undouble(body, false);
        if text.None? || rest != "" then None
        else
          var i := Find(text.value, '=');
          if i == |text.value| then None else Some((text.value[..i], text.value[i + 1..]))
  }

  // ---- round trips ----

  lemma {:induction false} UndoubleDouble(value: string, dollars: bool)
    ensures Undouble(Double(value, dollars), dollars) == Some(value)
  {
    DoubleIsOnePass(value, dollars);
    UndoubleOnce(value, dollars);
  }

  lemma {:induction false} UndoubleOnce(value: string, dollars: bool)
    ensures Undouble(DoubleOnce(value, dollars), dollars) == Some(value)
  {
    if value != "" {
      UndoubleOnce(value[1..], dollars);
      var doubled, tail := DoubleOnce(value, dollars), DoubleOnce(value[1..], dollars);
      assert doubled[|DoubleChar(value[0], dollars)|..] == tail;
      assert [value[0]] + value[1..] == value;
    }
  }

  lemma {:induction false} ReadQuotedEscape(value: string, rest: string)
    ensures ReadQuoted(EscapeOnce(value) + "\"" + rest) == Some((value, rest))
  {
    var s := EscapeOnce(value) + "\"" + rest;
    if value == "" {
      assert s[1..] == rest;
    } else {
      ReadQuotedEscape(value[1..], rest);
      assert s[|EscapeChar(value[0])|..] == EscapeOnce(value[1..]) + "\"" + rest;
      assert [value[0]] + value[1..] == value;
    }
  }

  lemma ReadQuotedQuote(value: string, rest: string)
    ensures var s := Quote(value) + rest; s[0] == '"' && ReadQuoted(s[1..]) == Some((value, rest))
  {
    QuoteIsOnePass(value);
    ReadQuotedEscape(value, rest);
    var s := Quote(value) + rest;
    assert s[1..] == EscapeOnce(value) + "\"" + rest;
  }

  /** The characters of a doubled string are those of the string. */
  lemma {:induction false} DoubleOnceChars(value: string, dollars: bool)
    ensures forall c :: c in DoubleOnce(value, dollars) ==> c in value
    ensures value != "" ==> DoubleOnce(value, dollars) != "" && DoubleOnce(value, dollars)[0] == value[0]
  {
    if value != "" {
      DoubleOnceChars(value[1..], dollars);
      assert value == [value[0]] + value[1..];
    }
  }

  lemma MainPidIsNoDoubledText()
    ensures Undouble(MAIN_PID, true) == None
  {
  }

  /** No argument text ever renders as the bare main-pid expansion. */
  lemma NoArgumentRendersAsMainPid(text: string)
    ensures RenderArg(Argument(text)) != MAIN_PID
  {
    MainPidIsNoDoubledText();
    UndoubleDouble(text, true);
    ReadQuotedQuote(Double(text, true), "");
    hide Undouble, ReadQuoted, Double, Quote;
    assert Quote(Double(text, true)) + "" == Quote(Double(text, true));
  }

  /** A rendered element is read back, and reading stops where it ends. */
  lemma ReadRendered(arg: UnitArg, rest: string)
    requires rest == "" || rest[0] == ' '
    ensures ReadArg(RenderArg(arg) + rest) == Some((arg, rest))
  {
    if arg.Argument? && !IsBareSafe(arg.text) {
      ReadQuotedQuote(Double(arg.text, true), rest);
      UndoubleDouble(arg.text, true);
    } else {
      ReadBare(arg, rest);
    }
  }

  lemma ReadBare(arg: UnitArg, rest: string)
    requires rest == "" || rest[0] == ' '
    requires arg.MainPid? || IsBareSafe(arg.text)
    ensures ReadArg(RenderArg(arg) + rest) == Some((arg, rest))
  {
    var text := RenderArg(arg);
    if arg.Argument? {
      UndoubleDouble(arg.text, true);
      DoubleIsOnePass(arg.text, true);
      DoubleOnceChars(arg.text, true);
      NoArgumentRendersAsMainPid(arg.text);
    }
    hide Undouble, Double, DoubleOnce, ReadQuoted, RenderArg;
    assert ' ' !in text && text != "" && text[0] != '"';
    FindEnd(text, rest, ' ');
  }

  lemma FindEnd(text: string, rest: string, c: char)
    requires c !in text && (rest == "" || rest[0] == c)
    ensures var s := text + rest; Find(s, c) == |text| && s[..|text|] == text && s[|text|..] == rest
  {
    var s := text + rest;
    assert forall j :: 0 <= j < |text| ==> s[j] == text[j];
    var i := Find(s, c);
    if rest != "" { assert s[|text|] == c; }
    if i < |s| { assert s[i] == c; }
  }

  /** A rendered argument list tokenises and unescapes back to the list it came from. */
  lemma {:induction false} ParseRenderedArgs(args: seq<UnitArg>)
    requires args != []
    ensures ParseArgs(RenderArgs(args)) == Some(args)
  {
    hide RenderArg, ReadArg;
    if |args| == 1 {
      ReadRendered(args[0], "");
      assert RenderArgs(args) == RenderArg(args[0]) + "";
      assert args == [args[0]];
    } else {
      var rest := RenderArgs(args[1..]);
      assert RenderAll(args)[1..] == RenderAll(args[1..]);
      assert RenderArgs(args) == RenderArg(args[0]) + ([' '] + rest);
      ReadRendered(args[0], [' '] + rest);
      assert ([' '] + rest)[1..] == rest;
      ParseRenderedArgs(args[1..]);
      assert args == [args[0]] + args[1..];
    }
  }

  lemma ParseRenderedArg(arg: UnitArg)
    ensures ParseArg(RenderArg(arg)) == Some(arg)
  {
    hide RenderArg, ReadArg;
    ReadRendered(arg, "");
    assert RenderArg(arg) + "" == RenderArg(arg);
  }

  /** Rendering an argument list loses nothing: two lists with one line are the same list. */
  lemma RenderArgsIsInjective(a: seq<UnitArg>, b: seq<UnitArg>)
    requires a != [] && b != [] && RenderArgs(a) == RenderArgs(b)
    ensures a == b
  {
    ParseRenderedArgs(a);
    ParseRenderedArgs(b);
  }

  lemma ParseRenderedEnvironment(key: string, value: string)
    requires '=' !in key
    ensures ParseEnvironment(RenderEnvironment(key, value)) == Some((key, value))
  {
    var body := key + "=" + value;
    var line := RenderEnvironment(key, value);
    ReadQuotedQuote(Double(body, false), "");
    UndoubleDouble(body, false);
    FindAppend(key, value, '=');
    hide ReadQuoted, Undouble, Double, Quote, Find;
    assert Quote(Double(body, false)) + "" == line;
    assert body == key + ['='] + value;
    assert body[..|key|] == key && body[|key| + 1..] == value;
  }

  // ---- a rendered value stays on its line ----

  lemma {:induction false} EscapeOnceChars(value: string)
    ensures forall c :: c in EscapeOnce(value) ==> c in value || c == '\\'
  {
    if value != "" {
      EscapeOnceChars(value[1..]);
      assert value == [value[0]] + value[1..];
    }
  }

  lemma QuoteKeepsLine(value: string)
    requires '\n' !in value
    ensures '\n' !in Quote(value)
  {
    QuoteIsOnePass(value);
    EscapeOnceChars(value);
    hide EscapeOnce, Quote;
  }

  lemma DoubleKeepsLine(value: string, dollars: bool)
    requires '\n' !in value
    ensures '\n' !in Double(value, dollars)
  {
    DoubleIsOnePass(value, dollars);
    DoubleOnceChars(value, dollars);
    hide DoubleOnce, Double;
  }

  lemma ArgKeepsLine(arg: UnitArg)
    requires arg.Argument? ==> '\n' !in arg.text
    ensures '\n' !in RenderArg(arg)
  {
    if arg.Argument? {
      DoubleKeepsLine(arg.text, true);
      QuoteKeepsLine(Double(arg.text, true));
    }
  }

  lemma {:induction false} JoinKeepsLine(parts: seq<string>, c: char)
    requires c != '\n' && forall p :: p in parts ==> '\n' !in p
    ensures '\n' !in Join(parts, c)
  {
    if |parts| > 0 { assert parts[0] in parts; }
    if |parts| > 1 {
      assert forall p :: p in parts[1..] ==> p in parts;
      JoinKeepsLine(parts[1..], c);
      assert '\n' !in parts[0] + [c];
    }
  }

  lemma ArgsKeepLine(args: seq<UnitArg>)
    requires forall a :: a in args && a.Argument? ==> '\n' !in a.text
    ensures '\n' !in RenderArgs(args)
  {
    forall p | p in RenderAll(args) ensures '\n' !in p {
      var i :| 0 <= i < |args| && p == RenderAll(args)[i];
      assert args[i] in args;
      ArgKeepsLine(args[i]);
    }
    JoinKeepsLine(RenderAll(args), ' ');
  }

  lemma EnvironmentKeepsLine(key: string, value: string)
    requires '\n' !in key && '\n' !in value
    ensures '\n' !in RenderEnvironment(key, value)
  {
    assert '\n' !in key + "=";
    assert '\n' !in key + "=" + value;
    DoubleKeepsLine(key + "=" + value, false);
    QuoteKeepsLine(Double(key + "=" + value, false));
  }

  lemma RepresentableHasNoNewline(value: string)
    requires IsRepresentable(value)
    ensures '\n' !in value
  {
  }
}
