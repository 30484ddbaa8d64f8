/**
 * Token substitution over a decoded TOML document (src/config_template.rs). The document's
 * texts are updated in place; tables and arrays keep the iteration order they were decoded in.
 */
module ConfigTemplate {
  import opened Options

  datatype Token = CertPath | KeyPath | CaBundlePath | ManagerAddress | ManagerServerName

  datatype HostValues = HostValues(
    certPath: Option<string>, keyPath: Option<string>, caBundlePath: Option<string>,
    managerAddress: Option<string>, managerServerName: Option<string>)

  datatype TemplateError =
    | PlaceholderInKey(key: string)
    | UnknownPlaceholder(text: string)
    | UnresolvedToken(token: Token)

  /** The document as a value. */
  datatype Tree =
    | Text(text: string)
    | Scalar(id: int)
    | Table(entries: seq<Entry>)
    | Array(elements: seq<Tree>)

  datatype Entry = Entry(key: string, value: Tree)

  function TokenText(t: Token): string {
    match t
    case CertPath => "${cert_path}"
    case KeyPath => "${key_path}"
    case CaBundlePath => "${ca_bundle_path}"
    case ManagerAddress => "${manager_address}"
    case ManagerServerName => "${manager_server_name}"
  }

  function TokenOf(text: string): Option<Token> {
    if text == TokenText(CertPath) then Some(CertPath)
    else if text == TokenText(KeyPath) then Some(KeyPath)
    else if text == TokenText(CaBundlePath) then Some(CaBundlePath)
    else if text == TokenText(ManagerAddress) then Some(ManagerAddress)
    else if text == TokenText(ManagerServerName) then Some(ManagerServerName)
    else None
  }

  function ValueOf(t: Token, values: HostValues): Option<string> {
    match t
    case CertPath => values.certPath
    case KeyPath => values.keyPath
    case CaBundlePath => values.caBundlePath
    case ManagerAddress => values.managerAddress
    case ManagerServerName => values.managerServerName
  }

  predicate HasOpener(s: string) { exists i :: 0 <= i < |s| - 1 && s[i] == '$' && s[i + 1] == '{' }

  function SubstituteText(text: string, values: HostValues): Result<string, TemplateError> {
    match TokenOf(text)
    case Some(token) =>
      var value := ValueOf(token, values);
      if value.Some? then Ok(value.value) else Err(UnresolvedToken(token))
    case None => if HasOpener(text) then Err(UnknownPlaceholder(text)) else Ok(text)
  }

  /** The substituted document, or the error the traversal stops at. */
  function Substitute(t: Tree, values: HostValues): Result<Tree, TemplateError>
    decreases t
  {
    match t
    case Text(text) =>
      var resolved :- SubstituteText(text, values);
      Ok(Text(resolved))
    case Scalar(_) => Ok(t)
    case Table(entries) =>
      var resolved :- SubstituteEntries(entries, values);
      Ok(Table(resolved))
    case Array(elements) =>
      var resolved :- SubstituteElements(elements, values);
      Ok(Array(resolved))
  }

  function SubstituteEntries(entries: seq<Entry>, values: HostValues): Result<seq<Entry>, TemplateError>
    decreases entries
  {
    if entries == [] then Ok([])
    else if HasOpener(entries[0].key) then Err(PlaceholderInKey(entries[0].key))
    else
      var value :- Substitute(entries[0].value, values);
      var rest :- SubstituteEntries(entries[1..], values);
      Ok([Entry(entries[0].key, value)] + rest)
  }

  function SubstituteElements(elements: seq<Tree>, values: HostValues): Result<seq<Tree>, TemplateError>
    decreases elements
  {
    if elements == [] then Ok([])
    else
      var value :- Substitute(elements[0], values);
      var rest :- SubstituteElements(elements[1..], values);
      Ok([value] + rest)
  }

  // ---- the document as the flat list of what a traversal meets ----

  datatype Item = Key(key: string) | Value(text: string)

  function Items(t: Tree): seq<Item>
    decreases t
  {
    match t
    case Text(text) => [Value(text)]
    case Scalar(_) => []
    case Table(entries) => EntryItems(entries)
    case Array(elements) => ElementItems(elements)
  }

  function EntryItems(entries: seq<Entry>): seq<Item>
    decreases entries
  {
    if entries == [] then []
    else [Key(entries[0].key)] + Items(entries[0].value) + EntryItems(entries[1..])
  }

  function ElementItems(elements: seq<Tree>): seq<Item>
    decreases elements
  {
    if elements == [] then [] else Items(elements[0]) + ElementItems(elements[1..])
  }

  /** What is wrong with one key or one text on its own. */
  function Violation(item: Item, values: HostValues): Option<TemplateError> {
    match item
    case Key(key) => if HasOpener(key) then Some(PlaceholderInKey(key)) else None
    case Value(text) =>
      match TokenOf(text)
      case Some(token) => if ValueOf(token, values).None? then Some(UnresolvedToken(token)) else None
      case None => if HasOpener(text) then Some(UnknownPlaceholder(text)) else None
  }

  /** An acceptable key as it is, an acceptable text with its token's value in its place. */
  function Replacement(item: Item, values: HostValues): Item {
    match item
    case Key(_) => item
    case Value(text) =>
      match TokenOf(text)
      case Some(token) => if ValueOf(token, values).Some? then Value(ValueOf(token, values).value) else item
      case None => item
  }

  function FirstViolation(items: seq<Item>, values: HostValues): Option<TemplateError> {
    if items == [] then None
    else if Violation(items[0], values).Some? then Violation(items[0], values)
    else FirstViolation(items[1..], values)
  }

  function Replacements(items: seq<Item>, values: HostValues): (out: seq<Item>)
    ensures |out| == |items| && forall i :: 0 <= i < |items| ==> out[i] == Replacement(items[i], values)
  {
    if items == [] then [] else [Replacement(items[0], values)] + Replacements(items[1..], values)
  }

  /** Same tables, arrays, keys and scalars; only texts may differ. */
  predicate SameShape(a: Tree, b: Tree)
    decreases a
  {
    match (a, b)
    case (Text(_), Text(_)) => true
    case (Scalar(i), Scalar(j)) => i == j
    case (Table(es), Table(fs)) => SameEntryShapes(es, fs)
    case (Array(ts), Array(us)) => SameElementShapes(ts, us)
    case _ => false
  }

  predicate SameEntryShapes(es: seq<Entry>, fs: seq<Entry>)
    decreases es
  {
    if es == [] || fs == [] then es == fs
    else es[0].key == fs[0].key && SameShape(es[0].value, fs[0].value) && SameEntryShapes(es[1..], fs[1..])
  }

  predicate SameElementShapes(ts: seq<Tree>, us: seq<Tree>)
    decreases ts
  {
    if ts == [] || us == [] then ts == us else SameShape(ts[0], us[0]) && SameElementShapes(ts[1..], us[1..])
  }

  lemma ReplacementsConcat(a: seq<Item>, b: seq<Item>, values: HostValues)
    ensures Replacements(a + b, values) == Replacements(a, values) + Replacements(b, values)
  {
    hide Replacements, Replacement;
    var whole, parts := Replacements(a + b, values), Replacements(a, values) + Replacements(b, values);
    forall i | 0 <= i < |a| + |b| ensures whole[i] == parts[i] {
      assert (a + b)[i] == if i < |a| then a[i] else b[i - |a|];
    }
  }

  lemma {:induction false} FirstViolationConcat(a: seq<Item>, b: seq<Item>, values: HostValues)
    ensures FirstViolation(a + b, values)
            == if FirstViolation(a, values).Some? then FirstViolation(a, values) else FirstViolation(b, values)
  {
    hide Violation;
    if a == [] {
      assert a + b == b;
    } else {
      var rest := a[1..];
      assert a + b == [a[0]] + (rest + b);
      FirstViolationConcat(rest, b, values);
      FirstViolationCons(a[0], rest + b, values);
    }
  }

  lemma FirstViolationCons(item: Item, rest: seq<Item>, values: HostValues)
    ensures FirstViolation([item] + rest, values)
            == if Violation(item, values).Some? then Violation(item, values) else FirstViolation(rest, values)
  {
    hide Violation;
    assert ([item] + rest)[1..] == rest;
  }

  /** What a whole made of two parts meets, and what it becomes. */
  lemma ConcatIsPointwise(a: seq<Item>, b: seq<Item>, values: HostValues)
    ensures FirstViolation(a + b, values)
            == if FirstViolation(a, values).Some? then FirstViolation(a, values) else FirstViolation(b, values)
    ensures Replacements(a + b, values) == Replacements(a, values) + Replacements(b, values)
  {
    hide FirstViolation, Replacements;
    FirstViolationConcat(a, b, values);
    ReplacementsConcat(a, b, values);
  }

  /**
   * Substitution fails with the first violation the traversal meets and succeeds when there is none;
   * the result has the same shape, with every position replaced once and nothing rescanned.
   */
  lemma {:induction false} SubstituteIsPointwise(t: Tree, values: HostValues)
    ensures match Substitute(t, values)
            case Err(e) => FirstViolation(Items(t), values) == Some(e)
            case Ok(u) => FirstViolation(Items(t), values) == None && SameShape(t, u)
                          && Items(u) == Replacements(Items(t), values)
    decreases t
  {
    match t
    case Text(text) =>
      assert [Value(text)][1..] == [];
    case Scalar(_) =>
    case Table(entries) => EntriesArePointwise(entries, values);
    case Array(elements) => ElementsArePointwise(elements, values);
  }

  lemma {:induction false} EntriesArePointwise(entries: seq<Entry>, values: HostValues)
    ensures match SubstituteEntries(entries, values)
            case Err(e) => FirstViolation(EntryItems(entries), values) == Some(e)
            case Ok(out) => FirstViolation(EntryItems(entries), values) == None && SameEntryShapes(entries, out)
                            && EntryItems(out) == Replacements(EntryItems(entries), values)
    decreases entries
  {
    if entries != [] {
      var key, head, rest := [Key(entries[0].key)], Items(entries[0].value), EntryItems(entries[1..]);
      ConcatIsPointwise(key + head, rest, values);
      ConcatIsPointwise(key, head, values);
      assert key[1..] == [];
      SubstituteIsPointwise(entries[0].value, values);
      EntriesArePointwise(entries[1..], values);
      hide Substitute, Items, SameShape, HasOpener, TokenOf, ValueOf;
    }
  }

  lemma ElementsCons(elements: seq<Tree>, head: Tree, tail: seq<Tree>)
    requires elements != []
    ensures ElementItems([head] + tail) == Items(head) + ElementItems(tail)
    ensures SameElementShapes(elements, [head] + tail)
        == (SameShape(elements[0], head) && SameElementShapes(elements[1..], tail))
  {
    assert ([head] + tail)[1..] == tail;
    hide Items, SameShape;
  }

  lemma {:induction false} ElementsArePointwise(elements: seq<Tree>, values: HostValues)
    ensures match SubstituteElements(elements, values)
            case Err(e) => FirstViolation(ElementItems(elements), values) == Some(e)
            case Ok(out) => FirstViolation(ElementItems(elements), values) == None && SameElementShapes(elements, out)
                            && ElementItems(out) == Replacements(ElementItems(elements), values)
    decreases elements
  {
    if elements != [] {
      ConcatIsPointwise(Items(elements[0]), ElementItems(elements[1..]), values);
      SubstituteIsPointwise(elements[0], values);
      ElementsArePointwise(elements[1..], values);
      var head, tail := Substitute(elements[0], values), SubstituteElements(elements[1..], values);
      if head.Ok? && tail.Ok? { ElementsCons(elements, head.value, tail.value); }
      hide Substitute, Items, SameShape, FirstViolation, Replacements, SameElementShapes, SubstituteText;
    }
  }

  lemma {:induction false} NoViolationIsAll(items: seq<Item>, values: HostValues)
    ensures FirstViolation(items, values).None? <==> forall i :: 0 <= i < |items| ==> Violation(items[i], values).None?
  {
    if items != [] {
      NoViolationIsAll(items[1..], values);
      assert forall i :: 0 <= i < |items| - 1 ==> items[1..][i] == items[i + 1];
      hide Violation;
      if forall i :: 0 <= i < |items| - 1 ==> Violation(items[1..][i], values).None? {
        forall i | 1 <= i < |items| ensures Violation(items[i], values).None? { assert items[i] == items[1..][i - 1]; }
      }
    }
  }

  // ---- the five tokens, spelled out ----

  ghost predicate HoldsOpener(s: string) { exists before, after :: s == before + "${" + after }

  /** The whole text is one of the five tokens, and `value` is what the host supplies under it. */
  predicate NamesValue(text: string, token: Token, value: Option<string>, values: HostValues) {
    || (text == "${cert_path}" && token == CertPath && value == values.certPath)
    || (text == "${key_path}" && token == KeyPath && value == values.keyPath)
    || (text == "${ca_bundle_path}" && token == CaBundlePath && value == values.caBundlePath)
    || (text == "${manager_address}" && token == ManagerAddress && value == values.managerAddress)
    || (text == "${manager_server_name}" && token == ManagerServerName && value == values.managerServerName)
  }

  predicate IsToken(text: string) {
    || text == "${cert_path}" || text == "${key_path}" || text == "${ca_bundle_path}" || text == "${manager_address}"
    || text == "${manager_server_name}"
  }

  predicate IsSuppliedToken(text: string, values: HostValues) {
    || (text == "${cert_path}" && values.certPath.Some?)
    || (text == "${key_path}" && values.keyPath.Some?)
    || (text == "${ca_bundle_path}" && values.caBundlePath.Some?)
    || (text == "${manager_address}" && values.managerAddress.Some?)
    || (text == "${manager_server_name}" && values.managerServerName.Some?)
  }

  lemma OpenerIs(s: string)
    ensures HoldsOpener(s) <==> HasOpener(s)
  {
    if before, after :| s == before + "${" + after {
      assert s[|before|] == '$' && s[|before| + 1] == '{';
    }
    if i :| 0 <= i < |s| - 1 && s[i] == '$' && s[i + 1] == '{' {
      assert s == s[..i] + "${" + s[i + 2..];
    }
  }

  lemma TokenIs(text: string, token: Token, value: Option<string>, values: HostValues)
    ensures NamesValue(text, token, value, values) <==> TokenOf(text) == Some(token) && ValueOf(token, values) == value
  {
  }

  lemma TokensAre(text: string, values: HostValues)
    ensures IsToken(text) <==> TokenOf(text).Some?
    ensures IsSuppliedToken(text, values) <==> TokenOf(text).Some? && ValueOf(TokenOf(text).value, values).Some?
  {
  }

  /** A token is spelled with the opener, so no token's text is ever also free of it. */
  lemma TokensHaveTheOpener(text: string)
    requires IsToken(text)
    ensures HasOpener(text)
  {
    assert text[0] == '$' && text[1] == '{';
  }

  /** A key without the opener; a text that is a supplied token or is free of the opener. */
  ghost predicate IsAcceptable(item: Item, values: HostValues) {
    match item
    case Key(key) => !HoldsOpener(key)
    case Value(text) => IsSuppliedToken(text, values) || !HoldsOpener(text)
  }

  /** What a key or a text becomes: a whole token the value under it, everything else itself. */
  predicate Becomes(item: Item, after: Item, values: HostValues) {
    match item
    case Key(_) => after == item
    case Value(text) =>
      || (after.Value? && exists token :: NamesValue(text, token, Some(after.text), values))
      || (!IsToken(text) && after == item)
  }

  /** What a key or a text is refused for. */
  ghost predicate IsRefused(item: Item, e: TemplateError, values: HostValues) {
    match e
    case PlaceholderInKey(key) => item == Key(key) && HoldsOpener(key)
    case UnknownPlaceholder(text) => item == Value(text) && HoldsOpener(text) && !IsToken(text)
    case UnresolvedToken(token) => item.Value? && NamesValue(item.text, token, None, values)
  }

  lemma AcceptableIsNoViolation(item: Item, values: HostValues)
    ensures IsAcceptable(item, values) <==> Violation(item, values).None?
  {
    OpenerIs(if item.Key? then item.key else item.text);
    if item.Value? {
      TokensAre(item.text, values);
      if IsToken(item.text) { TokensHaveTheOpener(item.text); }
    }
    hide HasOpener, HoldsOpener, TokenOf, ValueOf, IsToken, IsSuppliedToken;
  }

  lemma ReplacementIs(item: Item, values: HostValues)
    requires Violation(item, values).None?
    ensures Becomes(item, Replacement(item, values), values)
  {
    if item.Value? {
      TokensAre(item.text, values);
      if TokenOf(item.text).Some? {
        var token := TokenOf(item.text).value;
        TokenIs(item.text, token, ValueOf(token, values), values);
      }
    }
    hide HasOpener, TokenOf, ValueOf, IsToken, IsSuppliedToken, NamesValue;
  }

  lemma ViolationIs(item: Item, e: TemplateError, values: HostValues)
    requires Violation(item, values) == Some(e)
    ensures IsRefused(item, e, values)
  {
    OpenerIs(if item.Key? then item.key else item.text);
    if item.Value? {
      TokensAre(item.text, values);
      if e.UnresolvedToken? { TokenIs(item.text, e.token, None, values); }
    }
    hide HasOpener, HoldsOpener, TokenOf, ValueOf, IsToken, IsSuppliedToken, NamesValue;
  }

  lemma {:induction false} FirstViolationAt(items: seq<Item>, values: HostValues) returns (i: nat)
    requires FirstViolation(items, values).Some?
    ensures i < |items| && FirstViolation(items, values) == Violation(items[i], values)
    ensures forall j :: 0 <= j < i ==> Violation(items[j], values).None?
  {
    hide Violation;
    if Violation(items[0], values).Some? {
      i := 0;
    } else {
      var rest := FirstViolationAt(items[1..], values);
      i := rest + 1;
      forall j | 0 <= j < i
        ensures Violation(items[j], values).None?
      {
        if j > 0 { assert items[1..][j - 1] == items[j]; }
      }
    }
  }

  predicate AllBecome(before: seq<Item>, after: seq<Item>, values: HostValues) {
    |before| == |after| && forall i :: 0 <= i < |before| ==> Becomes(before[i], after[i], values)
  }

  /** The error is the first refused position's. */
  ghost predicate IsFirstRefused(items: seq<Item>, e: TemplateError, values: HostValues) {
    exists i ::
      && 0 <= i < |items| && IsRefused(items[i], e, values)
      && forall j :: 0 <= j < i ==> IsAcceptable(items[j], values)
  }

  /** Each text that is a whole token becomes the host's value under that name, and nothing else changes. */
  lemma SubstitutesExactly(t: Tree, values: HostValues)
    ensures Substitute(t, values).Ok? ==>
              && SameShape(t, Substitute(t, values).value)
              && AllBecome(Items(t), Items(Substitute(t, values).value), values)
    ensures Substitute(t, values).Err? ==> IsFirstRefused(Items(t), Substitute(t, values).error, values)
  {
    hide Substitute, Items, SameShape, Becomes, IsRefused, IsAcceptable, Violation, Replacement, FirstViolation,
         Replacements;
    SubstituteIsPointwise(t, values);
    NoViolationIsAll(Items(t), values);
    if Substitute(t, values).Ok? {
      forall i | 0 <= i < |Items(t)|
        ensures Becomes(Items(t)[i], Replacement(Items(t)[i], values), values)
      {
        ReplacementIs(Items(t)[i], values);
      }
    } else {
      var i := FirstViolationAt(Items(t), values);
      ViolationIs(Items(t)[i], Substitute(t, values).error, values);
      forall j | 0 <= j < i
        ensures IsAcceptable(Items(t)[j], values)
      {
        AcceptableIsNoViolation(Items(t)[j], values);
      }
    }
  }

  /** Success exactly when every key and every text, at any depth, is acceptable on its own. */
  lemma SubstituteSucceedsExactly(t: Tree, values: HostValues)
    ensures Substitute(t, values).Ok? <==> forall item :: item in Items(t) ==> IsAcceptable(item, values)
  {
    SubstituteIsPointwise(t, values);
    NoViolationIsAll(Items(t), values);
    forall item ensures IsAcceptable(item, values) <==> Violation(item, values).None? {
      AcceptableIsNoViolation(item, values);
    }
    hide *;
    forall i | 0 <= i < |Items(t)| ensures Items(t)[i] in Items(t) {}
  }

  // ---- in place ----

  class Cell {
    var text: string

    constructor (text: string)
      ensures this.text == text
    {
      this.text := text;
    }
  }

  /** The document as the source holds it: a tree whose texts can be overwritten. */
  datatype Node =
    | TextNode(cell: Cell)
    | ScalarNode(id: int)
    | TableNode(entries: seq<NodeEntry>)
    | ArrayNode(elements: seq<Node>)

  datatype NodeEntry = NodeEntry(key: string, value: Node)

  ghost function Cells(n: Node): set<Cell>
    decreases n
  {
    match n
    case TextNode(cell) => {cell}
    case ScalarNode(_) => {}
    case TableNode(entries) => EntryCells(entries)
    case ArrayNode(elements) => ElementCells(elements)
  }

  ghost function EntryCells(entries: seq<NodeEntry>): set<Cell>
    decreases entries
  {
    if entries == [] then {} else Cells(entries[0].value) + EntryCells(entries[1..])
  }

  ghost function ElementCells(elements: seq<Node>): set<Cell>
    decreases elements
  {
    if elements == [] then {} else Cells(elements[0]) + ElementCells(elements[1..])
  }

  /** No text has two owners. */
  ghost predicate IsTree(n: Node)
    decreases n
  {
    match n
    case TextNode(_) => true
    case ScalarNode(_) => true
    case TableNode(entries) => AreTreeEntries(entries)
    case ArrayNode(elements) => AreTreeElements(elements)
  }

  ghost predicate AreTreeEntries(entries: seq<NodeEntry>)
    decreases entries
  {
    entries == []
    || (IsTree(entries[0].value) && Cells(entries[0].value) !! EntryCells(entries[1..]) && AreTreeEntries(entries[1..]))
  }

  ghost predicate AreTreeElements(elements: seq<Node>)
    decreases elements
  {
    elements == []
    || (IsTree(elements[0]) && Cells(elements[0]) !! ElementCells(elements[1..]) && AreTreeElements(elements[1..]))
  }

  ghost function View(n: Node): Tree
    reads Cells(n)
    decreases n
  {
    match n
    case TextNode(cell) => Text(cell.text)
    case ScalarNode(id) => Scalar(id)
    case TableNode(entries) => Table(ViewEntries(entries))
    case ArrayNode(elements) => Array(ViewElements(elements))
  }

  ghost function ViewEntries(entries: seq<NodeEntry>): (view: seq<Entry>)
    reads EntryCells(entries)
    ensures |view| == |entries|
    decreases entries
  {
    if entries == [] then [] else [Entry(entries[0].key, View(entries[0].value))] + ViewEntries(entries[1..])
  }

  ghost function ViewElements(elements: seq<Node>): (view: seq<Tree>)
    reads ElementCells(elements)
    ensures |view| == |elements|
    decreases elements
  {
    if elements == [] then [] else [View(elements[0])] + ViewElements(elements[1..])
  }

  lemma {:induction false} EntryParts(entries: seq<NodeEntry>, j: nat)
    requires j < |entries| && AreTreeEntries(entries)
    ensures IsTree(entries[j].value) && Cells(entries[j].value) <= EntryCells(entries)
    ensures forall k :: 0 <= k < |entries| && k != j ==> Cells(entries[k].value) !! Cells(entries[j].value)
  {
    if j == 0 {
      forall k | 0 < k < |entries| ensures Cells(entries[k].value) !! Cells(entries[0].value) {
        EntryParts(entries[1..], k - 1);
      }
    } else {
      EntryParts(entries[1..], j - 1);
      forall k | 0 <= k < |entries| && k != j ensures Cells(entries[k].value) !! Cells(entries[j].value) {
        if k > 0 { assert entries[k] == entries[1..][k - 1]; }
      }
    }
  }

  lemma {:induction false} EntryView(entries: seq<NodeEntry>, j: nat)
    requires j < |entries|
    ensures ViewEntries(entries)[j] == Entry(entries[j].key, View(entries[j].value))
  {
    if j > 0 { EntryView(entries[1..], j - 1); }
  }

  lemma {:induction false} ElementParts(elements: seq<Node>, j: nat)
    requires j < |elements| && AreTreeElements(elements)
    ensures IsTree(elements[j]) && Cells(elements[j]) <= ElementCells(elements)
    ensures forall k :: 0 <= k < |elements| && k != j ==> Cells(elements[k]) !! Cells(elements[j])
  {
    if j == 0 {
      forall k | 0 < k < |elements| ensures Cells(elements[k]) !! Cells(elements[0]) {
        ElementParts(elements[1..], k - 1);
      }
    } else {
      ElementParts(elements[1..], j - 1);
      forall k | 0 <= k < |elements| && k != j ensures Cells(elements[k]) !! Cells(elements[j]) {
        if k > 0 { assert elements[k] == elements[1..][k - 1]; }
      }
    }
  }

  lemma {:induction false} ElementView(elements: seq<Node>, j: nat)
    requires j < |elements|
    ensures ViewElements(elements)[j] == View(elements[j])
  {
    if j > 0 { ElementView(elements[1..], j - 1); }
  }

  lemma {:induction false} CellsAreAllocated(n: Node)
    ensures forall c :: c in Cells(n) ==> allocated(c)
    decreases n
  {
    match n
    case TextNode(_) =>
    case ScalarNode(_) =>
    case TableNode(entries) => EntryCellsAreAllocated(entries);
    case ArrayNode(elements) => ElementCellsAreAllocated(elements);
  }

  lemma {:induction false} EntryCellsAreAllocated(entries: seq<NodeEntry>)
    ensures forall c :: c in EntryCells(entries) ==> allocated(c)
    decreases entries
  {
    if entries != [] {
      CellsAreAllocated(entries[0].value);
      EntryCellsAreAllocated(entries[1..]);
    }
  }

  lemma {:induction false} ElementCellsAreAllocated(elements: seq<Node>)
    ensures forall c :: c in ElementCells(elements) ==> allocated(c)
    decreases elements
  {
    if elements != [] {
      CellsAreAllocated(elements[0]);
      ElementCellsAreAllocated(elements[1..]);
    }
  }

  twostate lemma {:induction false} ViewDependsOnCells(n: Node)
    requires forall c :: c in Cells(n) ==> old(allocated(c)) && c.text == old(c.text)
    ensures View(n) == old(View(n))
    decreases n
  {
    match n
    case TextNode(_) =>
    case ScalarNode(_) =>
    case TableNode(entries) =>
      assert EntryCells(entries) <= Cells(n);
      ViewEntriesDependOnCells(entries);
    case ArrayNode(elements) =>
      assert ElementCells(elements) <= Cells(n);
      ViewElementsDependOnCells(elements);
  }

  twostate lemma {:induction false} ViewEntriesDependOnCells(entries: seq<NodeEntry>)
    requires forall c :: c in EntryCells(entries) ==> old(allocated(c)) && c.text == old(c.text)
    ensures ViewEntries(entries) == old(ViewEntries(entries))
    decreases entries
  {
    if entries != [] {
      assert Cells(entries[0].value) <= EntryCells(entries) && EntryCells(entries[1..]) <= EntryCells(entries);
      ViewDependsOnCells(entries[0].value);
      ViewEntriesDependOnCells(entries[1..]);
    }
  }

  twostate lemma {:induction false} ViewElementsDependOnCells(elements: seq<Node>)
    requires forall c :: c in ElementCells(elements) ==> old(allocated(c)) && c.text == old(c.text)
    ensures ViewElements(elements) == old(ViewElements(elements))
    decreases elements
  {
    if elements != [] {
      assert Cells(elements[0]) <= ElementCells(elements) && ElementCells(elements[1..]) <= ElementCells(elements);
      ViewDependsOnCells(elements[0]);
      ViewElementsDependOnCells(elements[1..]);
    }
  }

  /** Overwrites the texts of a table in place, entry by entry, stopping at the first violation. */
  method SubstituteTable(entries: seq<NodeEntry>, values: HostValues) returns (error: Option<TemplateError>)
    requires AreTreeEntries(entries)
    modifies EntryCells(entries)
    ensures match SubstituteEntries(old(ViewEntries(entries)), values)
            case Ok(out) => error == None && ViewEntries(entries) == out
            case Err(e) => error == Some(e)
    decreases entries
  {
    hide HasOpener, Substitute, View, Cells, IsTree, AreTreeEntries, EntryCells, ViewEntries;
    ghost var views := ViewEntries(entries);
    ghost var done: seq<Entry> := [];
    forall j | 0 <= j < |entries| ensures views[j] == Entry(entries[j].key, View(entries[j].value)) {
      EntryView(entries, j);
    }
    assert views[0..] == views;
    PrefixedNothing(SubstituteEntries(views, values));
    var i := 0;
    while i < |entries|
      invariant 0 <= i <= |entries| && |done| == i
      invariant forall j :: 0 <= j < i ==> done[j] == Entry(entries[j].key, View(entries[j].value))
      invariant forall j :: i <= j < |entries| ==> views[j] == Entry(entries[j].key, View(entries[j].value))
      invariant SubstituteEntries(views, values) == Prefixed(done, SubstituteEntries(views[i..], values))
    {
      assert views[i..][0] == views[i] && views[i..][1..] == views[i + 1..];
      if HasOpener(entries[i].key) { return Some(PlaceholderInKey(entries[i].key)); }
      EntryParts(entries, i);
      EntryCellsAreAllocated(entries);
      forall j | 0 <= j < |entries| ensures Cells(entries[j].value) <= EntryCells(entries) { EntryParts(entries, j); }
      label before:
      error := SubstituteValue(entries[i].value, values);
      forall j | 0 <= j < |entries| && j != i
        ensures View(entries[j].value) == old@before(View(entries[j].value))
      {
        assert Cells(entries[j].value) !! Cells(entries[i].value);
        ViewDependsOnCells@before(entries[j].value);
      }
      if error.Some? { return; }
      ghost var entry := Entry(entries[i].key, View(entries[i].value));
      PrefixedSnoc(done, entry, SubstituteEntries(views[i + 1..], values));
      done := done + [entry];
      i := i + 1;
    }
    assert done + [] == done;
    forall j | 0 <= j < |entries| ensures ViewEntries(entries)[j] == done[j] { EntryView(entries, j); }
    error := None;
  }

  method SubstituteArray(elements: seq<Node>, values: HostValues) returns (error: Option<TemplateError>)
    requires AreTreeElements(elements)
    modifies ElementCells(elements)
    ensures match SubstituteElements(old(ViewElements(elements)), values)
            case Ok(out) => error == None && ViewElements(elements) == out
            case Err(e) => error == Some(e)
    decreases elements
  {
    hide HasOpener, Substitute, View, Cells, IsTree, AreTreeElements, ElementCells, ViewElements;
    ghost var views := ViewElements(elements);
    ghost var done: seq<Tree> := [];
    forall j | 0 <= j < |elements| ensures views[j] == View(elements[j]) { ElementView(elements, j); }
    assert views[0..] == views;
    PrefixedNothing(SubstituteElements(views, values));
    var i := 0;
    while i < |elements|
      invariant 0 <= i <= |elements| && |done| == i
      invariant forall j :: 0 <= j < i ==> done[j] == View(elements[j])
      invariant forall j :: i <= j < |elements| ==> views[j] == View(elements[j])
      invariant SubstituteElements(views, values) == Prefixed(done, SubstituteElements(views[i..], values))
    {
      assert views[i..][0] == views[i] && views[i..][1..] == views[i + 1..];
      ElementParts(elements, i);
      ElementCellsAreAllocated(elements);
      forall j | 0 <= j < |elements| ensures Cells(elements[j]) <= ElementCells(elements) { ElementParts(elements, j); }
      label before:
      error := SubstituteValue(elements[i], values);
      forall j | 0 <= j < |elements| && j != i ensures View(elements[j]) == old@before(View(elements[j])) {
        assert Cells(elements[j]) !! Cells(elements[i]);
        ViewDependsOnCells@before(elements[j]);
      }
      if error.Some? { return; }
      PrefixedSnoc(done, View(elements[i]), SubstituteElements(views[i + 1..], values));
      done := done + [View(elements[i])];
      i := i + 1;
    }
    assert done + [] == done;
    forall j | 0 <= j < |elements| ensures ViewElements(elements)[j] == done[j] { ElementView(elements, j); }
    error := None;
  }

  method SubstituteValue(n: Node, values: HostValues) returns (error: Option<TemplateError>)
    requires IsTree(n)
    modifies Cells(n)
    ensures match Substitute(old(View(n)), values)
            case Ok(t) => error == None && View(n) == t
            case Err(e) => error == Some(e)
    decreases n
  {
    error := None;
    match n {
      case TextNode(cell) =>
        var token := TokenOf(cell.text);
        if token.Some? {
          var resolved := ValueOf(token.value, values);
          if resolved.None? { return Some(UnresolvedToken(token.value)); }
          cell.text := resolved.value;
        } else if HasOpener(cell.text) {
          error := Some(UnknownPlaceholder(cell.text));
        }
      case TableNode(entries) => error := SubstituteTable(entries, values);
      case ArrayNode(elements) => error := SubstituteArray(elements, values);
      case ScalarNode(_) =>
    }
  }
}
