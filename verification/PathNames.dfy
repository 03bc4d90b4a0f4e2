/**
  Slash-separated path names: splitting a string into its components and
  walking those components through a symlink-free directory tree.
 */
module PathNames {

  const NUL: char := '\0'

  /** A string that can be NUL-terminated. */
  predicate CString(s: string) {
    forall i | 0 <= i < |s| :: s[i] != NUL
  }

  /** A name that can occur as one component of a path. */
  predicate ValidName(name: string) {
    name != "" && '/' !in name
  }

  predicate IsDot(name: string) {
    name == "." || name == ".."
  }

  /** A name that a directory can contain. */
  predicate OrdinaryName(name: string) {
    ValidName(name) && CString(name) && !IsDot(name)
  }

  predicate EndsInSlash(s: string) {
    s != "" && s[|s| - 1] == '/'
  }

  /** The length of the leading component of `s`: everything before its first slash. */
  function NameLength(s: string): (n: nat)
    ensures n <= |s|
    ensures '/' !in s[..n]
    ensures n < |s| ==> s[n] == '/'
  {
    if s == "" || s[0] == '/' then 0 else
    assert s[..1 + NameLength(s[1..])] == [s[0]] + s[1..][..NameLength(s[1..])];
    1 + NameLength(s[1..])
  }

  /** The non-empty components of `s`, in order. */
  function Components(s: string): (names: seq<string>)
    ensures forall name | name in names :: ValidName(name)
    decreases |s|
  {
    if s == "" then [] else
    if s[0] == '/' then Components(s[1..]) else
    var n := NameLength(s);
    [s[..n]] + Components(s[n..])
  }

  lemma FirstComponent(s: string, n: nat)
    requires s != "" && s[0] != '/' && n <= |s| && '/' !in s[..n] && (n == |s| || s[n] == '/')
    ensures n > 0 && Components(s) == [s[..n]] + Components(s[n..])
  {
    NameLengthUnique(s, n);
  }

  lemma FirstOfBoth(a: string, b: string, n: nat)
    requires a != "" && a[0] != '/' && n <= |a| && '/' !in a[..n] && (n == |a| || a[n] == '/')
    ensures Components(a + "/" + b) == [a[..n]] + Components(a[n..] + "/" + b)
  {
    hide Components;
    var s := a + "/" + b;
    assert s[..n] == a[..n] && s[0] == a[0];
    FirstComponent(s, n);
    assert s[n..] == a[n..] + "/" + b;
  }

  lemma NoComponents()
    ensures Components("") == []
  {
  }

  lemma AfterSlash(s: string)
    requires s != "" && s[0] == '/'
    ensures Components(s) == Components(s[1..])
  {
  }

  /** A slash between two strings separates their components. */
  lemma {:induction false} ComponentsAppend(a: string, b: string)
    ensures Components(a + "/" + b) == Components(a) + Components(b)
    decreases |a|
  {
    hide Components, NameLength, ValidName;
    var s := a + "/" + b;
    if a == "" {
      AfterSlash(s);
      assert s[1..] == b;
      NoComponents();
    } else if a[0] == '/' {
      AfterSlash(s);
      AfterSlash(a);
      assert s[1..] == a[1..] + "/" + b;
      ComponentsAppend(a[1..], b);
    } else {
      var n := NameLength(a);
      FirstComponent(a, n);
      FirstOfBoth(a, b, n);
      ComponentsAppend(a[n..], b);
      assert [a[..n]] + (Components(a[n..]) + Components(b)) == [a[..n]] + Components(a[n..]) + Components(b);
    }
  }

  /** Only one prefix of `s` is a maximal slash-free one. */
  lemma NameLengthUnique(s: string, n: nat)
    requires n <= |s| && '/' !in s[..n]
    requires n == |s| || s[n] == '/'
    ensures NameLength(s) == n
  {
  }

  lemma ComponentsOfName(name: string)
    requires ValidName(name)
    ensures Components(name) == [name]
  {
    NameLengthUnique(name, |name|);
    assert name[..|name|] == name;
    assert name[0] in name;
  }

  /** Adding a name below a prefix that ends in a slash (or is empty) adds one component. */
  lemma ComponentsExtend(prefix: string, name: string)
    requires ValidName(name)
    requires prefix == "" || prefix[|prefix| - 1] == '/'
    ensures Components(prefix + name) == Components(prefix) + [name]
    ensures Components(prefix + name + "/") == Components(prefix) + [name]
  {
    ComponentsOfName(name);
    if prefix == "" {
      assert prefix + name == name;
    } else {
      var p := prefix[..|prefix| - 1];
      assert prefix == p + "/";
      assert prefix + name == p + "/" + name;
      ComponentsAppend(p, name);
      assert p + "/" + "" == prefix;
      ComponentsAppend(p, "");
    }
    assert prefix + name + "/" == (prefix + name) + "/" + "";
    ComponentsAppend(prefix + name, "");
  }

  // ----- Walking

  /** One component from directory `dir`; the parent of the root is the root. */
  function Step(dir: seq<string>, name: string): seq<string> {
    if name == "." then dir
    else if name == ".." then (if dir == [] then [] else dir[..|dir| - 1])
    else dir + [name]
  }

  function Walk(dir: seq<string>, names: seq<string>): seq<string>
    decreases |names|
  {
    if names == [] then dir else Walk(Step(dir, names[0]), names[1..])
  }

  predicate Rooted(s: string) {
    s != "" && s[0] == '/'
  }

  /** The node that `s` denotes when the current directory is `cwd`. */
  function Resolve(cwd: seq<string>, s: string): seq<string> {
    Walk(if Rooted(s) then [] else cwd, Components(s))
  }

  lemma {:induction false} WalkAppend(dir: seq<string>, a: seq<string>, b: seq<string>)
    ensures Walk(dir, a + b) == Walk(Walk(dir, a), b)
    decreases |a|
  {
    if a == [] {
      assert a + b == b;
    } else {
      assert (a + b)[1..] == a[1..] + b;
      WalkAppend(Step(dir, a[0]), a[1..], b);
    }
  }

  lemma WalkSnoc(dir: seq<string>, a: seq<string>, name: string)
    ensures Walk(dir, a + [name]) == Step(Walk(dir, a), name)
  {
    WalkAppend(dir, a, [name]);
  }

  /** The directories on the way, the start included. */
  function Visited(dir: seq<string>, names: seq<string>): set<seq<string>>
    decreases |names|
  {
    {dir} + if names == [] then {} else Visited(Step(dir, names[0]), names[1..])
  }

  lemma {:induction false} VisitedSnoc(dir: seq<string>, names: seq<string>, name: string)
    ensures Visited(dir, names + [name]) == Visited(dir, names) + {Step(Walk(dir, names), name)}
    ensures Walk(dir, names) in Visited(dir, names)
    decreases |names|
  {
    if names == [] {
      assert ([] + [name])[1..] == [];
      assert Visited(Step(dir, name), []) == {Step(dir, name)};
    } else {
      assert (names + [name])[1..] == names[1..] + [name];
      VisitedSnoc(Step(dir, names[0]), names[1..], name);
    }
  }
}
