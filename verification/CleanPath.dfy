/**
  Lexical path cleaning (`File::CleanUnixPath`), by the rules of "Lexical File
  Names in Plan 9 or Getting Dot-Dot Right".

  `Clean` is a reference definition over a stack of components.  The method
  `CleanUnixPath` is the in-place algorithm with a read and a write index.  The
  theorems say what cleaning means: a cleaned path denotes the same directory as
  the original from every starting point, and two paths have the same cleaned
  form exactly when they denote the same directory from every starting point.
 */
module CleanPath {
  import opened PathNames

  // ----- The component stack

  /** What reading component `name` does to the stack of components kept so far. */
  function Push(rooted: bool, kept: seq<string>, name: string): seq<string> {
    if name == "." then kept
    else if name != ".." then kept + [name]
    else if kept != [] && kept[|kept| - 1] != ".." then kept[..|kept| - 1]
    else if rooted then kept
    else kept + [".."]
  }

  function Reduce(rooted: bool, kept: seq<string>, names: seq<string>): seq<string>
    decreases |names|
  {
    if names == [] then kept else Reduce(rooted, Push(rooted, kept, names[0]), names[1..])
  }

  /** The components joined by single slashes. */
  function Join(names: seq<string>): string {
    if names == [] then ""
    else if |names| == 1 then names[0]
    else Join(names[..|names| - 1]) + "/" + names[|names| - 1]
  }

  function Render(rooted: bool, names: seq<string>): string {
    (if rooted then "/" else "") + Join(names)
  }

  function CleanComponents(s: string): seq<string> {
    Reduce(Rooted(s), [], Components(s))
  }

  /** The cleaned form of `s`. */
  function Clean(s: string): string {
    var names := CleanComponents(s);
    if !Rooted(s) && names == [] then "." else Render(Rooted(s), names)
  }

  /** `k` leading ".." components and then only ordinary names. */
  predicate DotsThenNames(names: seq<string>, k: nat) {
    && k <= |names|
    && (forall i | 0 <= i < k :: names[i] == "..")
    && (forall i | k <= i < |names| :: ValidName(names[i]) && names[i] != "." && names[i] != "..")
  }

  /** Normal form; a rooted path has no ".." component at all. */
  predicate Normal(rooted: bool, names: seq<string>, k: nat) {
    DotsThenNames(names, k) && (rooted ==> k == 0)
  }

  /** The number of ".." components after reading `name`. */
  function PushDots(rooted: bool, kept: seq<string>, k: nat, name: string): nat {
    if name == ".." && |kept| <= k && !rooted then k + 1 else k
  }

  lemma PushNormal(rooted: bool, kept: seq<string>, k: nat, name: string)
    requires Normal(rooted, kept, k) && ValidName(name)
    ensures Normal(rooted, Push(rooted, kept, name), PushDots(rooted, kept, k, name))
  {
  }

  lemma {:induction false} ReduceNormal(rooted: bool, kept: seq<string>, k: nat, names: seq<string>) returns (k': nat)
    requires Normal(rooted, kept, k)
    requires forall name | name in names :: ValidName(name)
    ensures Normal(rooted, Reduce(rooted, kept, names), k')
    decreases |names|
  {
    if names == [] {
      k' := k;
    } else {
      PushNormal(rooted, kept, k, names[0]);
      k' := ReduceNormal(rooted, Push(rooted, kept, names[0]), PushDots(rooted, kept, k, names[0]), names[1..]);
    }
  }

  // ----- Reading a rendered path back

  lemma {:induction false} ComponentsOfJoin(names: seq<string>)
    requires forall name | name in names :: ValidName(name)
    ensures Components(Join(names)) == names
    ensures names != [] ==> Join(names) != "" && Join(names)[0] != '/'
    decreases |names|
  {
    if |names| == 1 {
      ComponentsOfName(names[0]);
      assert names[0][0] in names[0];
    } else if |names| > 1 {
      var front, last := names[..|names| - 1], names[|names| - 1];
      ComponentsOfJoin(front);
      ComponentsAppend(Join(front), last);
      ComponentsOfName(last);
      assert front + [last] == names;
    }
  }

  lemma NormalNames(rooted: bool, names: seq<string>, k: nat)
    requires Normal(rooted, names, k)
    ensures forall name | name in names :: ValidName(name)
  {
    assert forall i | 0 <= i < |names| :: ValidName(names[i]);
  }

  lemma ComponentsOfRender(rooted: bool, names: seq<string>, k: nat)
    requires Normal(rooted, names, k)
    ensures Components(Render(rooted, names)) == names
    ensures names != [] || rooted ==> Rooted(Render(rooted, names)) == rooted
  {
    NormalNames(rooted, names, k);
    ComponentsOfJoin(names);
    if rooted {
      assert Render(rooted, names)[1..] == Join(names);
    } else {
      assert Render(rooted, names) == Join(names);
    }
  }

  /** Reducing components that are already in normal form changes nothing. */
  lemma {:induction false} ReduceOfNormal(rooted: bool, names: seq<string>, k: nat, n: nat)
    requires Normal(rooted, names, k) && n <= |names|
    ensures Reduce(rooted, names[..n], names[n..]) == names
    decreases |names| - n
  {
    if n == |names| {
      assert names[..n] == names;
    } else {
      assert names[n..][1..] == names[n + 1..];
      assert names[..n + 1] == names[..n] + [names[n]];
      ReduceOfNormal(rooted, names, k, n + 1);
    }
  }

  lemma CleanParts(s: string) returns (k: nat)
    ensures Normal(Rooted(s), CleanComponents(s), k)
    ensures Rooted(Clean(s)) == Rooted(s)
    ensures CleanComponents(Clean(s)) == CleanComponents(s)
    ensures Components(Clean(s)) == if Clean(s) == "." then ["."] else CleanComponents(s)
    ensures Clean(s) == "." <==> !Rooted(s) && CleanComponents(s) == []
  {
    k := ReduceNormal(Rooted(s), [], 0, Components(s));
    var names := CleanComponents(s);
    ComponentsOfName(".");
    if Rooted(s) || names != [] {
      ComponentsOfRender(Rooted(s), names, k);
      ReduceOfNormal(Rooted(s), names, k, 0);
      assert names[..0] == [] && names[0..] == names;
    } else {
      assert Components(Clean(s))[1..] == [];
    }
  }

  // ----- Theorems about cleaning

  /** A cleaned path has no empty or "." component, and ".." only as a leading run of an unrooted path. */
  lemma CleanIsNormal(s: string) returns (k: nat)
    ensures Rooted(Clean(s)) == Rooted(s)
    ensures Clean(s) == "." || Normal(Rooted(s), Components(Clean(s)), k)
    ensures Clean(s) == "." || Clean(s) == Render(Rooted(s), Components(Clean(s)))
  {
    k := CleanParts(s);
  }

  lemma CleanIdempotent(s: string)
    ensures Clean(Clean(s)) == Clean(s)
  {
    var k := CleanParts(s);
  }

  /** Reading one more component keeps the meaning of the stack. */
  lemma PushMeaning(rooted: bool, dir: seq<string>, kept: seq<string>, k: nat, name: string)
    requires Normal(rooted, kept, k) && (rooted ==> dir == [])
    ensures Walk(dir, Push(rooted, kept, name)) == Step(Walk(dir, kept), name)
  {
    if name == ".." && kept != [] && kept[|kept| - 1] != ".." {
      var front, last := kept[..|kept| - 1], kept[|kept| - 1];
      assert kept == front + [last];
      WalkSnoc(dir, front, last);
    } else if name != "." {
      WalkSnoc(dir, kept, name);
    }
  }

  lemma {:induction false} ReduceMeaning(rooted: bool, dir: seq<string>, kept: seq<string>, k: nat, names: seq<string>)
    requires Normal(rooted, kept, k) && (rooted ==> dir == [])
    requires forall name | name in names :: ValidName(name)
    ensures Walk(dir, Reduce(rooted, kept, names)) == Walk(Walk(dir, kept), names)
    decreases |names|
  {
    if names != [] {
      PushMeaning(rooted, dir, kept, k, names[0]);
      PushNormal(rooted, kept, k, names[0]);
      ReduceMeaning(rooted, dir, Push(rooted, kept, names[0]), PushDots(rooted, kept, k, names[0]), names[1..]);
    }
  }

  /** Cleaning keeps the meaning of a path, from every starting directory. */
  lemma CleanPreservesMeaning(cwd: seq<string>, s: string)
    ensures Resolve(cwd, Clean(s)) == Resolve(cwd, s)
  {
    var dir := if Rooted(s) then [] else cwd;
    var k := CleanParts(s);
    ReduceMeaning(Rooted(s), dir, [], 0, Components(s));
    if Clean(s) == "." {
      assert Components(Clean(s)) == ["."];
      WalkSnoc(dir, [], ".");
      assert [] + ["."] == ["."];
    }
  }

  // ----- A cleaned path takes no new way

  lemma PushVisits(rooted: bool, dir: seq<string>, kept: seq<string>, k: nat, name: string)
    requires Normal(rooted, kept, k) && (rooted ==> dir == [])
    ensures Visited(dir, Push(rooted, kept, name)) <= Visited(dir, kept) + {Step(Walk(dir, kept), name)}
  {
    if name == ".." && kept != [] && kept[|kept| - 1] != ".." {
      assert kept == kept[..|kept| - 1] + [kept[|kept| - 1]];
      VisitedSnoc(dir, kept[..|kept| - 1], kept[|kept| - 1]);
    } else {
      VisitedSnoc(dir, kept, name);
    }
  }

  lemma {:induction false} ReduceVisits(rooted: bool, dir: seq<string>, kept: seq<string>, k: nat, names: seq<string>)
    requires Normal(rooted, kept, k) && (rooted ==> dir == [])
    requires forall name | name in names :: ValidName(name)
    ensures Visited(dir, Reduce(rooted, kept, names)) <= Visited(dir, kept) + Visited(Walk(dir, kept), names)
    decreases |names|
  {
    if names != [] {
      var kept' := Push(rooted, kept, names[0]);
      PushVisits(rooted, dir, kept, k, names[0]);
      PushMeaning(rooted, dir, kept, k, names[0]);
      PushNormal(rooted, kept, k, names[0]);
      ReduceVisits(rooted, dir, kept', PushDots(rooted, kept, k, names[0]), names[1..]);
      assert Walk(dir, kept') in Visited(Walk(dir, kept'), names[1..]);
    }
  }

  /**
    Every directory that the cleaned path passes is one that the original passes;
    so if the original's way exists in a tree, the cleaned path's way does.
   */
  lemma CleanVisitsNoMore(cwd: seq<string>, s: string)
    ensures var dir := if Rooted(s) then [] else cwd; Visited(dir, Components(Clean(s))) <= Visited(dir, Components(s))
  {
    var dir := if Rooted(s) then [] else cwd;
    var k := CleanParts(s);
    ReduceVisits(Rooted(s), dir, [], 0, Components(s));
    assert Visited(dir, []) == {dir};
    if Clean(s) == "." {
      VisitedSnoc(dir, [], ".");
      assert [] + ["."] == ["."];
    }
  }

  // ----- Cleaned paths are canonical

  /** What a normal form denotes: drop `k` levels, then descend. */
  lemma {:induction false} WalkNormal(dir: seq<string>, names: seq<string>, k: nat)
    requires DotsThenNames(names, k)
    ensures Walk(dir, names) == dir[..if k <= |dir| then |dir| - k else 0] + names[k..]
    decreases |names|
  {
    if names != [] {
      assert names[1..][(if k == 0 then 0 else k - 1)..] == names[(if k == 0 then 1 else k)..];
      WalkNormal(Step(dir, names[0]), names[1..], if k == 0 then 0 else k - 1);
    }
  }

  /** A path denotes what its reduced components denote; a rooted one denotes just those. */
  lemma CleanDenotes(cwd: seq<string>, s: string)
    ensures !Rooted(s) ==> Resolve(cwd, s) == Walk(cwd, CleanComponents(s))
    ensures Rooted(s) ==> Resolve(cwd, s) == CleanComponents(s)
  {
    ReduceMeaning(Rooted(s), if Rooted(s) then [] else cwd, [], 0, Components(s));
    if Rooted(s) {
      var k := CleanParts(s);
      WalkNormal([], CleanComponents(s), k);
      assert CleanComponents(s)[0..] == CleanComponents(s);
    }
  }

  /** A directory of a real tree: every component is an ordinary name. */
  predicate IsDirectory(dir: seq<string>) {
    DotsThenNames(dir, 0)
  }

  /** Both paths denote the same directory, wherever they are read from. */
  ghost predicate SameMeaning(a: string, b: string) {
    forall cwd | IsDirectory(cwd) :: Resolve(cwd, a) == Resolve(cwd, b)
  }

  /** A directory `n` levels deep, all of whose names differ from component `i` of `names`. */
  function Elsewhere(n: nat, names: seq<string>, i: nat): (dir: seq<string>)
    ensures IsDirectory(dir) && |dir| == n
    ensures i < |names| ==> names[i] !in dir
  {
    seq(n, _ => if i < |names| && names[i] == "a" then "b" else "a")
  }

  /** Two unrooted normal forms that agree from every directory are equal. */
  lemma UnrootedCanonical(a: seq<string>, ka: nat, b: seq<string>, kb: nat)
    requires DotsThenNames(a, ka) && DotsThenNames(b, kb)
    requires forall cwd | IsDirectory(cwd) :: Walk(cwd, a) == Walk(cwd, b)
    ensures a == b
  {
    if ka < kb {
      FewerDots(a, ka, b, kb);
    } else if kb < ka {
      FewerDots(b, kb, a, ka);
    } else {
      var cwd := Elsewhere(ka, a, 0);
      WalkNormal(cwd, a, ka);
      WalkNormal(cwd, b, kb);
      assert Walk(cwd, a) == a[ka..] && Walk(cwd, b) == b[kb..];
      assert a == seq(ka, _ => "..") + a[ka..];
      assert b == seq(ka, _ => "..") + b[ka..];
    }
  }

  /** A deep enough directory tells the numbers of leading dots apart. */
  lemma FewerDots(a: seq<string>, ka: nat, b: seq<string>, kb: nat)
    requires DotsThenNames(a, ka) && DotsThenNames(b, kb) && ka < kb
    ensures exists cwd :: IsDirectory(cwd) && Walk(cwd, a) != Walk(cwd, b)
  {
    var cwd := Elsewhere(kb, b, kb);
    WalkNormal(cwd, a, ka);
    WalkNormal(cwd, b, kb);
    assert Walk(cwd, b) == b[kb..];
    assert Walk(cwd, a)[0] == cwd[0];
  }

  /** A rooted and an unrooted path differ from some directory. */
  lemma RootedDiffers(a: string, b: string)
    requires Rooted(a) && !Rooted(b)
    ensures !SameMeaning(a, b)
  {
    var k := CleanParts(b);
    var cwd := Elsewhere(k + 1, CleanComponents(a), 0);
    CleanDenotes(cwd, a);
    CleanDenotes(cwd, b);
    WalkNormal(cwd, CleanComponents(b), k);
    assert Resolve(cwd, b)[0] == cwd[0];
  }

  /**
    Two paths clean to the same string exactly when they denote the same
    directory from every starting directory.
   */
  lemma CleanIsCanonical(a: string, b: string)
    ensures Clean(a) == Clean(b) <==> SameMeaning(a, b)
  {
    if Clean(a) == Clean(b) {
      forall cwd | IsDirectory(cwd) ensures Resolve(cwd, a) == Resolve(cwd, b) {
        CleanPreservesMeaning(cwd, a);
        CleanPreservesMeaning(cwd, b);
      }
    }
    if SameMeaning(a, b) {
      if Rooted(a) != Rooted(b) {
        if Rooted(a) { RootedDiffers(a, b); } else { RootedDiffers(b, a); }
        assert false;
      } else if Rooted(a) {
        SameRooted(a, b);
      } else {
        SameUnrooted(a, b);
      }
    }
  }

  lemma SameRooted(a: string, b: string)
    requires Rooted(a) && Rooted(b) && SameMeaning(a, b)
    ensures Clean(a) == Clean(b)
  {
    assert IsDirectory([]) && Resolve([], a) == Resolve([], b);
    CleanDenotes([], a);
    CleanDenotes([], b);
  }

  lemma SameUnrooted(a: string, b: string)
    requires !Rooted(a) && !Rooted(b) && SameMeaning(a, b)
    ensures Clean(a) == Clean(b)
  {
    var ka := CleanParts(a);
    var kb := CleanParts(b);
    forall cwd | IsDirectory(cwd) ensures Walk(cwd, CleanComponents(a)) == Walk(cwd, CleanComponents(b)) {
      CleanDenotes(cwd, a);
      CleanDenotes(cwd, b);
    }
    UnrootedCanonical(CleanComponents(a), ka, CleanComponents(b), kb);
  }

  // ----- The two-index algorithm

  /** Character `i` of a C string: its terminator is just past the end. */
  function At(s: string, i: nat): char
    requires i <= |s|
  {
    if i < |s| then s[i] else NUL
  }

  predicate IsSeparator(c: char) {
    c == '/' || c == NUL
  }

  lemma RenderSnoc(rooted: bool, names: seq<string>, name: string)
    ensures Render(rooted, names + [name]) ==
            Render(rooted, names) + (if names == [] then "" else "/") + name
  {
    assert (names + [name])[..|names|] == names;
  }

  /** Keeping fewer components renders to a prefix, and a shorter one when names are non-empty. */
  lemma {:induction false} RenderPrefix(rooted: bool, names: seq<string>, n: nat)
    requires n <= |names| && forall name | name in names :: ValidName(name)
    ensures |Render(rooted, names[..n])| <= |Render(rooted, names)|
    ensures n < |names| ==> |Render(rooted, names[..n])| < |Render(rooted, names)|
    decreases |names|
  {
    if n == |names| {
      assert names[..n] == names;
    } else {
      var front := names[..|names| - 1];
      assert names == front + [names[|names| - 1]] && front[..n] == names[..n];
      assert ValidName(names[|names| - 1]);
      RenderSnoc(rooted, front, names[|names| - 1]);
      RenderPrefix(rooted, front, n);
    }
  }

  /** The component at the read index. */
  lemma NextComponent(s: string, i: nat, n: nat)
    requires i < n <= |s| && CString(s)
    requires '/' !in s[i..n] && (n == |s| || s[n] == '/')
    ensures Components(s[i..]) == [s[i..n]] + Components(s[n..])
  {
    NameLengthUnique(s[i..], n - i);
    assert s[i..][..n - i] == s[i..n] && s[i..][n - i..] == s[n..];
    assert s[i..][0] in s[i..n];
  }

  /** Where the last component of a rendered path is. */
  lemma LastComponent(rooted: bool, kept: seq<string>, k: nat)
    requires Normal(rooted, kept, k) && k < |kept|
    ensures var front, last := kept[..|kept| - 1], kept[|kept| - 1];
      && Render(rooted, kept) == Render(rooted, front) + (if front == [] then "" else "/") + last
      && |Render(rooted, kept[..k])| <= |Render(rooted, front)|
      && (front == [] ==> |Render(rooted, kept[..k])| == |Render(rooted, front)|)
      && (forall i | 0 <= i < |last| :: last[i] != '/')
      && last != ""
  {
    var front, last := kept[..|kept| - 1], kept[|kept| - 1];
    assert kept == front + [last] && front[..k] == kept[..k];
    RenderSnoc(rooted, front, last);
    NormalNames(rooted, kept, k);
    RenderPrefix(rooted, front, k);
    assert front == [] ==> kept[..k] == front;
    assert forall i | 0 <= i < |last| :: last[i] in last;
  }

  /** Cuts the last component off a rendered path, in place: the new write index. */
  method DropComponent(out: array<char>, outIndex: nat, dotdot: nat, ghost rooted: bool, ghost kept: seq<string>, ghost k: nat)
    returns (index: nat)
    requires Normal(rooted, kept, k) && k < |kept|
    requires outIndex < out.Length && out[..outIndex] == Render(rooted, kept)
    requires dotdot == |Render(rooted, kept[..k])|
    requires dotdot < outIndex
    ensures index < outIndex
    ensures out[..index] == Render(rooted, kept[..|kept| - 1])
  {
    hide Render, Normal;
    LastComponent(rooted, kept, k);
    ghost var front, last := kept[..|kept| - 1], kept[|kept| - 1];
    ghost var t := |Render(rooted, front)|;
    ghost var start := t + if front == [] then 0 else 1;
    assert forall i | 0 <= i < outIndex :: out[i] == out[..outIndex][i];
    assert forall i | start <= i < outIndex :: out[i] == last[i - start];
    assert t < start ==> out[t] == '/';
    index := outIndex - 1;
    while index > dotdot && out[index] != '/'
      invariant t <= index < outIndex
    {
      index := index - 1;
    }
    assert out[..t] == out[..outIndex][..t];
  }

  /** Copies the component at the read index; fails when the output has no room left. */
  method CopyComponent(s: string, inIndex: nat, out: array<char>, outIndex: nat) returns (ok: bool, i: nat, o: nat)
    requires CString(s) && inIndex < |s| && s[inIndex] != '/'
    requires outIndex <= inIndex < out.Length
    modifies out
    ensures !ok ==> |s| >= out.Length
    ensures ok ==> inIndex < i <= |s| && i < out.Length && o == outIndex + (i - inIndex)
    ensures ok ==> '/' !in s[inIndex..i] && (i == |s| || s[i] == '/')
    ensures ok ==> out[..o] == old(out[..outIndex]) + s[inIndex..i]
  {
    i, o := inIndex, outIndex;
    while !IsSeparator(At(s, i))
      invariant inIndex <= i <= |s| && i < out.Length && o == outIndex + (i - inIndex)
      invariant '/' !in s[inIndex..i]
      invariant out[..o] == old(out[..outIndex]) + s[inIndex..i]
      decreases |s| - i
    {
      if i + 1 >= out.Length {
        return false, i, o;
      }
      out[o] := s[i];
      assert s[inIndex..i + 1] == s[inIndex..i] + [s[i]];
      assert out[..o + 1] == old(out[..outIndex]) + s[inIndex..i] + [s[i]];
      i, o := i + 1, o + 1;
    }
    ok := true;
  }

  /**
    What holds between components: `out` holds the cleaned form of what was read
    before `inIndex`, and the write index has not passed the read index.
   */
  ghost predicate Progress(s: string, rooted: bool, inIndex: nat, written: string, kept: seq<string>, k: nat, dotdot: nat) {
    && inIndex <= |s|
    && Normal(rooted, kept, k)
    && written == Render(rooted, kept)
    && dotdot == |Render(rooted, kept[..k])|
    && |written| <= inIndex
    && (kept != [] && inIndex < |s| && s[inIndex] != '/' ==> |written| < inIndex)
    && CleanComponents(s) == Reduce(rooted, kept, Components(s[inIndex..]))
  }

  /** Skipping a slash or a "." component. */
  lemma SkipProgress(s: string, rooted: bool, inIndex: nat, written: string, kept: seq<string>, k: nat, dotdot: nat)
    requires Progress(s, rooted, inIndex, written, kept, k, dotdot) && inIndex < |s| && CString(s)
    requires s[inIndex] == '/' || (s[inIndex] == '.' && (inIndex + 1 == |s| || s[inIndex + 1] == '/'))
    ensures Progress(s, rooted, inIndex + 1, written, kept, k, dotdot)
  {
    if s[inIndex] == '/' {
      assert s[inIndex..][1..] == s[inIndex + 1..];
    } else {
      assert s[inIndex..inIndex + 1] == ".";
      NextComponent(s, inIndex, inIndex + 1);
    }
  }

  /** Reading the component between the read index and `i`. */
  lemma ComponentProgress(s: string, rooted: bool, inIndex: nat, written: string, kept: seq<string>, k: nat, dotdot: nat,
                          i: nat, written': string, dotdot': nat)
    requires Progress(s, rooted, inIndex, written, kept, k, dotdot) && CString(s)
    requires inIndex < i <= |s| && '/' !in s[inIndex..i] && (i == |s| || s[i] == '/')
    requires written' == Render(rooted, Push(rooted, kept, s[inIndex..i]))
    requires |written'| <= i
    requires var k' := PushDots(rooted, kept, k, s[inIndex..i]);
             dotdot' == if k' == k then dotdot else |written'|
    ensures Progress(s, rooted, i, written', Push(rooted, kept, s[inIndex..i]), PushDots(rooted, kept, k, s[inIndex..i]), dotdot')
  {
    var name := s[inIndex..i];
    NextComponent(s, inIndex, i);
    PushNormal(rooted, kept, k, name);
    var kept', k' := Push(rooted, kept, name), PushDots(rooted, kept, k, name);
    if k' == k {
      assert kept'[..k] == kept[..k];
    } else {
      assert kept'[..k'] == kept';
    }
    assert Components(s[inIndex..])[1..] == Components(s[i..]);
  }

  /** A ".." component: drops the last name, stays at the root, or is kept. */
  method DotDot(out: array<char>, rooted: bool, inIndex: nat, outIndex: nat, dotdot: nat, ghost kept: seq<string>, ghost k: nat)
    returns (o: nat, d: nat)
    requires Normal(rooted, kept, k)
    requires outIndex <= inIndex && inIndex + 2 < out.Length && (kept != [] ==> outIndex < inIndex)
    requires out[..outIndex] == Render(rooted, kept) && dotdot == |Render(rooted, kept[..k])|
    modifies out
    ensures o <= inIndex + 2 && out[..o] == Render(rooted, Push(rooted, kept, ".."))
    ensures d == if PushDots(rooted, kept, k, "..") == k then dotdot else o
  {
    o, d := outIndex, dotdot;
    NormalNames(rooted, kept, k);
    RenderPrefix(rooted, kept, k);
    assert k == |kept| ==> kept[..k] == kept;
    if outIndex > dotdot {
      o := DropComponent(out, outIndex, dotdot, rooted, kept, k);
    } else if !rooted {
      RenderSnoc(rooted, kept, "..");
      if o > 0 {
        out[o] := '/';
        o := o + 1;
      }
      out[o] := '.';
      out[o + 1] := '.';
      o := o + 2;
      d := o;
      assert out[..outIndex] == old(out[..outIndex]);
      assert out[..o] == out[..outIndex] + (if kept == [] then "" else "/") + "..";
    }
  }

  /** An ordinary component: copied, after a slash unless it is the first. */
  method Name(s: string, rooted: bool, inIndex: nat, out: array<char>, outIndex: nat, ghost kept: seq<string>, ghost k: nat)
    returns (ok: bool, i: nat, o: nat)
    requires CString(s) && inIndex < |s| && s[inIndex] != '/'
    requires Normal(rooted, kept, k)
    requires outIndex <= inIndex < out.Length && (kept != [] ==> outIndex < inIndex)
    requires out[..outIndex] == Render(rooted, kept)
    modifies out
    ensures !ok ==> |s| >= out.Length
    ensures ok ==> inIndex < i <= |s| && i < out.Length && o <= i
    ensures ok ==> '/' !in s[inIndex..i] && (i == |s| || s[i] == '/')
    ensures ok ==> out[..o] == Render(rooted, kept + [s[inIndex..i]])
  {
    o := outIndex;
    NormalNames(rooted, kept, k);
    RenderPrefix(rooted, kept, 0);
    assert |Render(rooted, kept[..0])| == if rooted then 1 else 0;
    if (rooted && o != 1) || (!rooted && o != 0) {
      out[o] := '/';
      o := o + 1;
    }
    assert out[..outIndex] == old(out[..outIndex]);
    assert out[..o] == out[..outIndex] + (if kept == [] then "" else "/");
    ok, i, o := CopyComponent(s, inIndex, out, o);
    if ok {
      RenderSnoc(rooted, kept, s[inIndex..i]);
    }
  }

  /** A ".." component, with the progress it makes. */
  method DotDotStep(s: string, rooted: bool, inIndex: nat, out: array<char>, outIndex: nat, dotdot: nat,
                    ghost kept: seq<string>, ghost k: nat)
    returns (o: nat, d: nat, ghost kept': seq<string>, ghost k': nat)
    requires CString(s) && inIndex + 2 <= |s| && inIndex + 2 < out.Length
    requires s[inIndex] == '.' && s[inIndex + 1] == '.' && (inIndex + 2 == |s| || s[inIndex + 2] == '/')
    requires outIndex <= inIndex && Progress(s, rooted, inIndex, out[..outIndex], kept, k, dotdot)
    modifies out
    ensures o <= inIndex + 2 && Progress(s, rooted, inIndex + 2, out[..o], kept', k', d)
  {
    hide Reduce, Join, Components;
    ghost var before := out[..outIndex];
    o, d := DotDot(out, rooted, inIndex, outIndex, dotdot, kept, k);
    assert s[inIndex..inIndex + 2] == "..";
    kept', k' := Push(rooted, kept, ".."), PushDots(rooted, kept, k, "..");
    ComponentProgress(s, rooted, inIndex, before, kept, k, dotdot, inIndex + 2, out[..o], d);
  }

  /** An ordinary component, with the progress it makes. */
  method NameStep(s: string, rooted: bool, inIndex: nat, out: array<char>, outIndex: nat, ghost dotdot: nat,
                  ghost kept: seq<string>, ghost k: nat)
    returns (ok: bool, i: nat, o: nat, ghost kept': seq<string>)
    requires CString(s) && inIndex < |s| && inIndex < out.Length && s[inIndex] != '/'
    requires s[inIndex] != '.' || !IsSeparator(At(s, inIndex + 1))
    requires s[inIndex] != '.' || At(s, inIndex + 1) != '.' || !IsSeparator(At(s, inIndex + 2))
    requires outIndex <= inIndex && Progress(s, rooted, inIndex, out[..outIndex], kept, k, dotdot)
    modifies out
    ensures !ok ==> |s| >= out.Length
    ensures ok ==> inIndex < i && i < out.Length && o <= i && Progress(s, rooted, i, out[..o], kept', k, dotdot)
  {
    hide Reduce, Join, Components;
    ghost var before := out[..outIndex];
    ok, i, o := Name(s, rooted, inIndex, out, outIndex, kept, k);
    kept' := kept;
    if ok {
      ghost var name := s[inIndex..i];
      assert name[0] == s[inIndex] && (|name| == 2 ==> name[1] == s[inIndex + 1]);
      kept' := kept + [name];
      assert Push(rooted, kept, name) == kept' && PushDots(rooted, kept, k, name) == k;
      ComponentProgress(s, rooted, inIndex, before, kept, k, dotdot, i, out[..o], dotdot);
    }
  }

  /** One round of the main loop: a slash, or one whole component. */
  method CleanStep(s: string, rooted: bool, inIndex: nat, out: array<char>, outIndex: nat, dotdot: nat,
                   ghost kept: seq<string>, ghost k: nat)
    returns (ok: bool, i: nat, o: nat, d: nat, ghost kept': seq<string>, ghost k': nat)
    requires CString(s) && inIndex < |s| && inIndex < out.Length
    requires outIndex <= inIndex && Progress(s, rooted, inIndex, out[..outIndex], kept, k, dotdot)
    modifies out
    ensures !ok ==> |s| >= out.Length
    ensures ok ==> inIndex < i && i < out.Length && o <= i && Progress(s, rooted, i, out[..o], kept', k', d)
  {
    hide Progress;
    ok, i, o, d, kept', k' := true, inIndex, outIndex, dotdot, kept, k;
    if At(s, inIndex) == '/' {
      if inIndex + 1 >= out.Length {
        return false, i, o, d, kept', k';
      }
      i := inIndex + 1;
      SkipProgress(s, rooted, inIndex, out[..outIndex], kept, k, dotdot);
    } else if At(s, inIndex) == '.' && IsSeparator(At(s, inIndex + 1)) {
      if inIndex + 1 >= out.Length {
        return false, i, o, d, kept', k';
      }
      i := inIndex + 1;
      SkipProgress(s, rooted, inIndex, out[..outIndex], kept, k, dotdot);
    } else if At(s, inIndex) == '.' && At(s, inIndex + 1) == '.' && IsSeparator(At(s, inIndex + 2)) {
      if inIndex + 2 >= out.Length {
        return false, i, o, d, kept', k';
      }
      i := inIndex + 2;
      o, d, kept', k' := DotDotStep(s, rooted, inIndex, out, outIndex, dotdot, kept, k);
    } else {
      ok, i, o, kept' := NameStep(s, rooted, inIndex, out, outIndex, dotdot, kept, k);
    }
  }

  lemma StartProgress(s: string)
    requires s != ""
    ensures Rooted(s) ==> Progress(s, true, 1, "/", [], 0, 1)
    ensures !Rooted(s) ==> Progress(s, false, 0, "", [], 0, 0)
  {
    assert s[0..] == s;
  }

  lemma EndProgress(s: string, rooted: bool, written: string, kept: seq<string>, k: nat, dotdot: nat)
    requires rooted == Rooted(s) && Progress(s, rooted, |s|, written, kept, k, dotdot)
    ensures Clean(s) == if written == "" then "." else written
  {
    assert s[|s|..] == "";
    NormalNames(rooted, kept, k);
    RenderPrefix(rooted, kept, 0);
    assert kept[..0] == [];
  }

  /**
    Cleans `s` into `out` in place.  Fails with -1 exactly when `s` and its
    terminator do not fit; the result is no longer than a non-empty input.
   */
  method CleanUnixPath(s: string, out: array<char>) returns (r: int)
    requires CString(s)
    requires out.Length >= 2
    modifies out
    ensures r == -1 <==> |s| >= out.Length
    ensures r != -1 ==> 0 < r < out.Length && out[..r] == Clean(s) && out[r] == NUL
    ensures r != -1 ==> r <= |s| || s == ""
  {
    if At(s, 0) == NUL {
      out[0], out[1] := '.', NUL;
      return 1;
    }
    var rooted := At(s, 0) == '/';
    var inIndex: nat, outIndex: nat := 0, 0;
    if rooted {
      out[outIndex] := '/';
      inIndex, outIndex := inIndex + 1, outIndex + 1;
    }
    var dotdot: nat := outIndex;
    ghost var kept: seq<string>, k: nat := [], 0;
    StartProgress(s);
    assert out[..outIndex] == if rooted then "/" else "";
    while At(s, inIndex) != NUL
      invariant inIndex <= |s| && inIndex < out.Length && outIndex <= inIndex
      invariant Progress(s, rooted, inIndex, out[..outIndex], kept, k, dotdot)
      decreases |s| - inIndex
    {
      var ok;
      ok, inIndex, outIndex, dotdot, kept, k := CleanStep(s, rooted, inIndex, out, outIndex, dotdot, kept, k);
      if !ok {
        return -1;
      }
    }
    EndProgress(s, rooted, out[..outIndex], kept, k, dotdot);
    if outIndex == 0 {
      out[0], out[1] := '.', NUL;
      return 1;
    }
    out[outIndex] := NUL;
    r := outIndex;
  }
}
