/** The components of a Unix path, as the standard library's `Path::components` gives them. */
module Paths {
  import opened Text

  datatype Component = RootDir | CurDir | ParentDir | Normal(name: string)

  /** What the pieces between separators name: nothing for an empty one or a `.`. */
  function Named(pieces: seq<string>): seq<Component> {
    if pieces == [] then []
    else
      var rest := Named(pieces[1..]);
      if pieces[0] == "" || pieces[0] == "." then rest
      else [if pieces[0] == ".." then ParentDir else Normal(pieces[0])] + rest
  }

  /** A leading separator is the root, and a `.` counts only when it comes first. */
  function Components(path: string): seq<Component> {
    var pieces := Split(path, '/');
    (if path != "" && path[0] == '/' then [RootDir] else if pieces[0] == "." then [CurDir] else []) + Named(pieces)
  }

  lemma {:induction false} NamedComesFrom(pieces: seq<string>, c: Component)
    requires c in Named(pieces)
    ensures c == ParentDir || (c.Normal? && c.name in pieces && c.name != "" && c.name != "." && c.name != "..")
  {
    if pieces != [] && c in Named(pieces[1..]) { NamedComesFrom(pieces[1..], c); }
  }

  /** A name is the only component of itself exactly when it is one plain piece. */
  lemma OnlyComponentExactly(name: string)
    ensures Components(name) == [Normal(name)] <==> name != "" && '/' !in name && name != "." && name != ".."
  {
    if Components(name) == [Normal(name)] {
      assert Normal(name) in Components(name);
      NamedComesFrom(Split(name, '/'), Normal(name));
    }
    if '/' !in name {
      assert Find(name, '/') == |name| && Split(name, '/') == [name];
      assert [name][1..] == [] && Named([]) == [];
      assert name != "" ==> name[0] != '/';
    }
  }
}
