/**
  What a listing says, told from the paths in it: which paths are listed, and as
  what.  The system's answers about a path, with and without following a link at
  its end, decide.
 */
module ListingKinds {
  import opened PathNames
  import LinkChain
  import opened DirectoryTree
  import opened ListingOrder

  type LinkId = LinkChain.LinkId

  // ----- Kinds

  /** The links that a path passes; each is followed. */
  function LinksPassed(fs: FileSystem, d: Ino, names: seq<string>): set<LinkId>
    decreases |names|
  {
    if names == [] || d !in fs.dirs then {} else
    var found := FindEntry(fs.dirs[d], names[0]);
    if found == [] then {} else
    (if found[0].node.Link? then {found[0].node.id} else {})
    + match DirectoryOf(found[0].node)
      case NoSuchDirectory => {}
      case IsDirectory(d') => LinksPassed(fs, d', names[1..])
  }

  /** The last name is a link, links are followed, and it does not lead back to where it was passed before. */
  predicate Follows(fs: FileSystem, root: Ino, o: Options, names: seq<string>) {
    var entry := LstatNames(fs, root, names);
    names != [] && entry.IsLink? && o.followLinks && entry.id !in LinksPassed(fs, root, names[..|names| - 1])
  }

  predicate AsFile(fs: FileSystem, root: Ino, o: Options, names: seq<string>) {
    LstatNames(fs, root, names).IsFile? || (Follows(fs, root, o, names) && StatNames(fs, root, names).IsFile?)
  }

  predicate AsLink(fs: FileSystem, root: Ino, o: Options, names: seq<string>) {
    LstatNames(fs, root, names).IsLink? && (!Follows(fs, root, o, names) || StatNames(fs, root, names).NoEntry?)
  }

  predicate AsDirectory(fs: FileSystem, root: Ino, o: Options, names: seq<string>) {
    || (LstatNames(fs, root, names).IsDir? && names != [] && !IsDot(names[|names| - 1]))
    || (Follows(fs, root, o, names) && StatNames(fs, root, names).IsDir?)
  }

  predicate AsDot(fs: FileSystem, root: Ino, names: seq<string>) {
    LstatNames(fs, root, names).IsDir? && names != [] && IsDot(names[|names| - 1])
  }

  /**
    The kind of a listed path.  It is a file if it leads to one, through a link
    only if links are followed; a link if it is one that is not followed, loops
    back or leads nowhere; otherwise a directory, or a dot entry.
   */
  ghost predicate KindRight(fs: FileSystem, base: string, root: Ino, o: Options, item: Item) {
    var names := NamesBelow(base, item.path);
    && (item.kind.KFile? <==> AsFile(fs, root, o, names))
    && (item.kind.KLink? <==> AsLink(fs, root, o, names))
    && (item.kind.KDirectory? <==> AsDirectory(fs, root, o, names))
    && (item.kind.KDot? <==> AsDot(fs, root, names))
  }

  /** A level whose path opens its directory, and whose chain holds exactly the links that the path passes. */
  ghost predicate LevelKnown(fs: FileSystem, base: string, root: Ino, l: Level) {
    && LevelOk(fs, l) && PathOk(fs, base, root, l)
    && forall id :: OnChain(l.chain, id) <==> id in LinksPassed(fs, root, NamesBelow(base, l.prefix))
  }

  predicate OnChain(chain: seq<LinkId>, id: LinkId) {
    id in chain
  }

  lemma RootKnown(fs: FileSystem, base: string, root: Ino)
    requires root in fs.dirs && EndsInSlash(base)
    ensures LevelKnown(fs, base, root, Level(root, 0, base, []))
  {
    assert base[|base|..] == "";
  }

  lemma {:induction false} FindBoth(entries: seq<Dirent>, name: string)
    ensures FindDirectory(entries, name) ==
      if FindEntry(entries, name) == [] then NoSuchDirectory else DirectoryOf(FindEntry(entries, name)[0].node)
  {
    if entries != [] { FindBoth(entries[1..], name); }
  }

  /** One more name passes one more link, or none. */
  lemma {:induction false} LinksPassedSnoc(fs: FileSystem, d: Ino, names: seq<string>, name: string)
    requires WalkDirectories(fs, d, names).IsDirectory? && WalkDirectories(fs, d, names).dir in fs.dirs
    requires FindEntry(fs.dirs[WalkDirectories(fs, d, names).dir], name) != []
    ensures var node := FindEntry(fs.dirs[WalkDirectories(fs, d, names).dir], name)[0].node;
      LinksPassed(fs, d, names + [name]) == LinksPassed(fs, d, names) + if node.Link? then {node.id} else {}
    decreases |names|
  {
    if names == [] {
      assert ([] + [name])[1..] == [] && ([] + [name])[0] == name;
    } else {
      assert (names + [name])[1..] == names[1..] + [name];
      FindBoth(fs.dirs[d], names[0]);
      LinksPassedSnoc(fs, FindDirectory(fs.dirs[d], names[0]).dir, names[1..], name);
    }
  }

  /** The next entry of a known level is of the right kind. */
  lemma NextRight(fs: FileSystem, base: string, root: Ino, o: Options, l: Level)
    requires WellFormed(fs) && LevelKnown(fs, base, root, l) && l.pos < |fs.dirs[l.dir]|
    ensures KindRight(fs, base, root, o, NextItem(fs, o, l))
    ensures var names := NamesBelow(base, l.prefix) + [NextEntry(fs, l).name];
      NamesBelow(base, NextItem(fs, o, l).path) == names && !LstatNames(fs, root, names).NoEntry?
  {
    hide NamesBelow, WalkDirectories, LstatNames, StatNames, LinksPassed, PathOk;
    EntryStatus(fs, base, root, l);
    NextIsEntry(fs, l);
    hide WellFormed;
    var e := NextEntry(fs, l);
    var names := NamesBelow(base, l.prefix) + [e.name];
    assert names[..|names| - 1] == NamesBelow(base, l.prefix);
    if e.node.Link? { assert OnChain(l.chain, e.node.id) <==> e.node.id in LinksPassed(fs, root, names[..|names| - 1]); }
  }

  lemma NextIsEntry(fs: FileSystem, l: Level)
    requires WellFormed(fs) && LevelOk(fs, l) && l.pos < |fs.dirs[l.dir]|
    ensures var e := NextEntry(fs, l); IsDot(e.name) ==> e.node.Directory?
  {
    assert DirOk(fs, l.dir) && EntryOk(fs, l.dir, NextEntry(fs, l));
  }

  lemma ChainExtends(chain: seq<LinkId>, via: Via)
    ensures forall id :: OnChain(Extend(chain, via), id) <==> OnChain(chain, id) || (via.Through? && via.id == id)
  {
    if via.Through? {
      var all := [via.id] + chain;
      assert all[0] == via.id && forall i | 0 <= i < |chain| :: all[i + 1] == chain[i];
      assert forall i | 0 < i < |all| :: all[i] == chain[i - 1];
    }
  }

  /** The path of an entered directory passes one link more if the entry is a link, and the chain has it too. */
  lemma ChildLinks(fs: FileSystem, base: string, root: Ino, o: Options, l: Level)
    requires WellFormed(fs) && LevelKnown(fs, base, root, l) && Enters(fs, o, l)
    ensures var via, names := NextFound(fs, o, l).via, NamesBelow(base, l.prefix);
      LinksPassed(fs, root, names + [NextEntry(fs, l).name]) ==
      LinksPassed(fs, root, names) + if via.Through? then {via.id} else {}
  {
    hide Components, WalkDirectories, LinksPassed, WellFormed, FindEntry;
    var e := NextEntry(fs, l);
    NextIsOk(fs, l);
    FindEntryAt(fs.dirs[l.dir], l.pos);
    LinksPassedSnoc(fs, root, NamesBelow(base, l.prefix), e.name);
  }

  lemma ChildKnown(fs: FileSystem, base: string, root: Ino, o: Options, l: Level)
    requires WellFormed(fs) && LevelKnown(fs, base, root, l) && Enters(fs, o, l)
    ensures LevelKnown(fs, base, root, Child(fs, o, l))
  {
    hide NamesBelow, LinksPassed, WellFormed, PathOk, NextEntry, NextFound;
    ChildPath(fs, base, root, o, l);
    ChildLinks(fs, base, root, o, l);
    ChildNames(fs, base, root, o, l);
    ChainExtends(l.chain, NextFound(fs, o, l).via);
  }

  /** Every entry that a route leads to is of the right kind. */
  lemma {:induction false} RouteRight(fs: FileSystem, base: string, root: Ino, o: Options, l: Level, route: seq<nat>)
    requires WellFormed(fs) && LevelKnown(fs, base, root, l) && RouteOk(fs, o, l, route)
    ensures KindRight(fs, base, root, o, ItemOf(fs, o, l, route))
    decreases |route|
  {
    hide WellFormed, KindRight, NextItem, Enters, Child, PathOk, NamesBelow, LinksPassed;
    var l' := At(l, route[0]);
    assert LevelKnown(fs, base, root, l') by { PositionKnown(fs, base, root, l, route[0]); }
    if |route| == 1 {
      NextRight(fs, base, root, o, l');
    } else {
      ChildKnown(fs, base, root, o, l');
      RouteRight(fs, base, root, o, Child(fs, o, l'), route[1..]);
    }
  }

  lemma PositionKnown(fs: FileSystem, base: string, root: Ino, l: Level, p: nat)
    requires LevelKnown(fs, base, root, l) && p <= |fs.dirs[l.dir]|
    ensures LevelKnown(fs, base, root, At(l, p))
  {
    hide NamesBelow, LinksPassed, OpenDirectory;
  }

  /** Every item of a listing is of the kind that the system's answers about its path call for. */
  lemma KindExactly(fs: FileSystem, base: string, root: Ino, o: Options, k: nat)
    requires WellFormed(fs) && root in fs.dirs && EndsInSlash(base)
    requires k < |VisitFrom(fs, o, root, 0, base, [])|
    ensures KindRight(fs, base, root, o, VisitFrom(fs, o, root, 0, base, [])[k])
  {
    var l := Level(root, 0, base, []);
    assert VisitLevel(fs, o, l) == VisitFrom(fs, o, root, 0, base, []);
    hide WellFormed, KindRight, VisitFrom, VisitLevel, RouteOk, ItemOf, IndexOf;
    RootKnown(fs, base, root);
    var route := ListedIsReachable(fs, o, l, k);
    ReachableIsListed(fs, o, l, route);
    RouteRight(fs, base, root, o, l, route);
  }

  // ----- Paths

  /** The path with these names. */
  function Join(names: seq<string>): string {
    if names == [] then "" else if |names| == 1 then names[0] else names[0] + "/" + Join(names[1..])
  }

  ghost predicate AllValid(names: seq<string>) {
    forall i | 0 <= i < |names| :: ValidName(names[i])
  }

  lemma {:induction false} ComponentsJoin(names: seq<string>)
    requires AllValid(names)
    ensures Components(Join(names)) == names
  {
    if |names| == 1 {
      ComponentsExtend("", names[0]);
      assert "" + names[0] == names[0];
    } else if |names| > 1 {
      ComponentsJoin(names[1..]);
      ComponentsAppend(names[0], Join(names[1..]));
      ComponentsExtend("", names[0]);
      assert "" + names[0] == names[0];
      assert [names[0]] + names[1..] == names;
    }
  }

  /**
    A path that is to be listed: its entry exists, and if there is more than one
    name, the listing is recursive and every path on the way is a directory that
    the listing enters.
   */
  ghost predicate Listable(fs: FileSystem, root: Ino, o: Options, names: seq<string>) {
    names != [] && !LstatNames(fs, root, names).NoEntry? && AllEntered(fs, root, o, names, 0)
  }

  ghost predicate AllEntered(fs: FileSystem, root: Ino, o: Options, names: seq<string>, from: nat) {
    forall n | from < n < |names| :: Entered(fs, root, o, names, n)
  }

  predicate Entered(fs: FileSystem, root: Ino, o: Options, names: seq<string>, n: nat)
    requires n <= |names|
  {
    o.recursive && AsDirectory(fs, root, o, names[..n])
  }

  /** The names of the entries on a route. */
  ghost function NamesOf(fs: FileSystem, o: Options, l: Level, route: seq<nat>): (names: seq<string>)
    requires WellFormed(fs) && RouteOk(fs, o, l, route)
    ensures |names| == |route|
    decreases |route|
  {
    [NextEntry(fs, At(l, route[0])).name]
    + if |route| == 1 then [] else NamesOf(fs, o, Child(fs, o, At(l, route[0])), route[1..])
  }

  lemma {:induction false} PathOfRoute(fs: FileSystem, o: Options, l: Level, route: seq<nat>)
    requires WellFormed(fs) && RouteOk(fs, o, l, route)
    ensures AllValid(NamesOf(fs, o, l, route))
    ensures ItemOf(fs, o, l, route).path == l.prefix + Join(NamesOf(fs, o, l, route))
    decreases |route|
  {
    hide WellFormed, Enters, Child, ValidName;
    var l' := At(l, route[0]);
    NextIsOk(fs, l');
    var names := NamesOf(fs, o, l, route);
    if |route| > 1 {
      PathOfRoute(fs, o, Child(fs, o, l'), route[1..]);
      assert names[1..] == NamesOf(fs, o, Child(fs, o, l'), route[1..]);
      ChildPrefix(fs, o, l');
      assert l.prefix + names[0] + "/" + Join(names[1..]) == l.prefix + (names[0] + "/" + Join(names[1..]));
    }
  }

  lemma ChildPrefix(fs: FileSystem, o: Options, l: Level)
    requires WellFormed(fs) && Enters(fs, o, l)
    ensures Child(fs, o, l).prefix == l.prefix + NextEntry(fs, l).name + "/"
  {
  }

  /** A route enters only what is a directory. */
  lemma {:induction false} RouteListable(fs: FileSystem, base: string, root: Ino, o: Options, l: Level, route: seq<nat>)
    requires WellFormed(fs) && LevelKnown(fs, base, root, l) && RouteOk(fs, o, l, route)
    ensures var done := NamesBelow(base, l.prefix);
      && var names := done + NamesOf(fs, o, l, route);
      && !LstatNames(fs, root, names).NoEntry? && AllEntered(fs, root, o, names, |done|)
    decreases |route|
  {
    hide WellFormed, LevelKnown, Enters, Child, NamesBelow, LstatNames, AsDirectory, KindRight, NextItem, Entered;
    var l' := At(l, route[0]);
    PositionKnown(fs, base, root, l, route[0]);
    NextRight(fs, base, root, o, l');
    var done, name := NamesBelow(base, l.prefix), NextEntry(fs, l').name;
    if |route| > 1 {
      var c := Child(fs, o, l');
      ChildKnown(fs, base, root, o, l');
      RouteListable(fs, base, root, o, c, route[1..]);
      ChildNames(fs, base, root, o, l');
      RouteOneMore(fs, base, root, o, l', NamesOf(fs, o, c, route[1..]));
      assert done + ([name] + NamesOf(fs, o, c, route[1..])) == done + [name] + NamesOf(fs, o, c, route[1..]);
    } else {
      assert done + ([name] + []) == done + [name];
    }
  }

  lemma RouteOneMore(fs: FileSystem, base: string, root: Ino, o: Options, l: Level, rest: seq<string>)
    requires WellFormed(fs) && LevelKnown(fs, base, root, l) && Enters(fs, o, l)
    requires var done := NamesBelow(base, l.prefix) + [NextEntry(fs, l).name];
      AllEntered(fs, root, o, done + rest, |done|)
    ensures var done := NamesBelow(base, l.prefix);
      AllEntered(fs, root, o, done + [NextEntry(fs, l).name] + rest, |done|)
  {
    hide WellFormed, LevelKnown, NamesBelow, AsDirectory;
    LevelKnownOk(fs, base, root, l);
    EnteredIsDirectory(fs, base, root, o, l);
    var done := NamesBelow(base, l.prefix);
    var all := done + [NextEntry(fs, l).name] + rest;
    assert all[..|done| + 1] == done + [NextEntry(fs, l).name];
  }

  lemma ChildNames(fs: FileSystem, base: string, root: Ino, o: Options, l: Level)
    requires WellFormed(fs) && LevelKnown(fs, base, root, l) && Enters(fs, o, l)
    ensures NamesBelow(base, Child(fs, o, l).prefix) == NamesBelow(base, l.prefix) + [NextEntry(fs, l).name]
  {
    hide WellFormed, Components;
    NextIsOk(fs, l);
    var rel, name := l.prefix[|base|..], NextEntry(fs, l).name;
    ComponentsExtend(rel, name);
    assert (l.prefix + name + "/")[|base|..] == rel + name + "/";
  }

  lemma EnteredIsDirectory(fs: FileSystem, base: string, root: Ino, o: Options, l: Level)
    requires WellFormed(fs) && LevelKnown(fs, base, root, l) && l.pos < |fs.dirs[l.dir]|
    ensures Enters(fs, o, l) <==> o.recursive && AsDirectory(fs, root, o, NamesBelow(base, l.prefix) + [NextEntry(fs, l).name])
  {
    hide WellFormed, NamesBelow, AsDirectory, AsFile, AsLink, AsDot, LinksPassed;
    NextRight(fs, base, root, o, l);
    PlainKinds(fs, o, l);
  }

  lemma PlainKinds(fs: FileSystem, o: Options, l: Level)
    requires LevelOk(fs, l) && l.pos < |fs.dirs[l.dir]|
    ensures NextItem(fs, o, l).kind.KDirectory? <==> NextFound(fs, o, l).Enter?
  {
  }

  /** What is to be listed has a route. */
  lemma {:induction false} ListableRoute(fs: FileSystem, base: string, root: Ino, o: Options, l: Level, names: seq<string>)
    returns (route: seq<nat>)
    requires WellFormed(fs) && LevelKnown(fs, base, root, l) && l.pos == 0
    requires var done := NamesBelow(base, l.prefix);
      && |done| < |names| && names[..|done|] == done && !LstatNames(fs, root, names).NoEntry?
      && AllEntered(fs, root, o, names, |done|)
    ensures RouteOk(fs, o, l, route) && NamesBelow(base, l.prefix) + NamesOf(fs, o, l, route) == names
    decreases |names| - |NamesBelow(base, l.prefix)|
  {
    hide WellFormed, Enters, Child, AsDirectory, LstatNames, LevelKnown, NamesBelow;
    var done := NamesBelow(base, l.prefix);
    var name := names[|done|];
    var i := EntryThere(fs, base, root, o, l, names);
    var l' := At(l, i);
    PositionKnown(fs, base, root, l, i);
    assert names[..|done| + 1] == done + [name];
    LevelKnownOk(fs, base, root, l');
    if |names| == |done| + 1 {
      route := [i];
      assert done + [name] == names;
    } else {
      assert Entered(fs, root, o, names, |done| + 1);
      EnteredIsDirectory(fs, base, root, o, l');
      ChildKnown(fs, base, root, o, l');
      ChildNames(fs, base, root, o, l');
      var r := ListableRoute(fs, base, root, o, Child(fs, o, l'), names);
      route := [i] + r;
      assert route[1..] == r;
      assert done + ([name] + NamesOf(fs, o, Child(fs, o, l'), r)) == (done + [name]) + NamesOf(fs, o, Child(fs, o, l'), r);
    }
  }

  lemma LevelKnownOk(fs: FileSystem, base: string, root: Ino, l: Level)
    requires LevelKnown(fs, base, root, l)
    ensures LevelOk(fs, l)
  {
  }

  /** The next name is that of an entry of the level's directory. */
  lemma EntryThere(fs: FileSystem, base: string, root: Ino, o: Options, l: Level, names: seq<string>) returns (i: nat)
    requires WellFormed(fs) && LevelKnown(fs, base, root, l)
    requires var done := NamesBelow(base, l.prefix);
      && |done| < |names| && names[..|done|] == done && !LstatNames(fs, root, names).NoEntry?
      && AllEntered(fs, root, o, names, |done|)
    ensures l.dir in fs.dirs && i < |fs.dirs[l.dir]| && fs.dirs[l.dir][i].name == names[|NamesBelow(base, l.prefix)|]
  {
    var done := NamesBelow(base, l.prefix);
    var upTo := names[..|done| + 1];
    assert !LstatNames(fs, root, upTo).NoEntry? by {
      if |names| > |done| + 1 {
        assert Entered(fs, root, o, names, |done| + 1);
      } else {
        assert upTo == names;
      }
    }
    assert upTo[..|upTo| - 1] == done;
    hide WellFormed, Components, LinksPassed, Entered;
    assert WalkDirectories(fs, root, done) == IsDirectory(l.dir);
    i := FoundAt(fs.dirs[l.dir], names[|done|]);
  }

  lemma {:induction false} FoundAt(entries: seq<Dirent>, name: string) returns (i: nat)
    requires FindEntry(entries, name) != []
    ensures i < |entries| && entries[i].name == name
  {
    if entries[0].name == name {
      i := 0;
    } else {
      var j := FoundAt(entries[1..], name);
      i := j + 1;
    }
  }

  lemma ListedIsListable(fs: FileSystem, base: string, root: Ino, o: Options, names: seq<string>, k: nat)
    requires WellFormed(fs) && root in fs.dirs && EndsInSlash(base) && AllValid(names)
    requires k < |VisitFrom(fs, o, root, 0, base, [])| && VisitFrom(fs, o, root, 0, base, [])[k].path == base + Join(names)
    ensures Listable(fs, root, o, names)
  {
    var l := Level(root, 0, base, []);
    RootNames(fs, o, base, root);
    hide WellFormed, VisitFrom, VisitLevel, RouteOk, ItemOf, IndexOf;
    hide LevelKnown, NamesOf, LstatNames, AllEntered, AllValid, NamesBelow, Join;
    var route := ListedIsReachable(fs, o, l, k);
    ReachableIsListed(fs, o, l, route);
    PathOfRoute(fs, o, l, route);
    var names' := NamesOf(fs, o, l, route);
    SameTail(base, Join(names), Join(names'));
    ComponentsJoin(names);
    ComponentsJoin(names');
    RouteListable(fs, base, root, o, l, route);
    assert [] + names == names;
  }

  lemma SameTail(base: string, a: string, b: string)
    requires base + a == base + b
    ensures a == b
  {
    assert a == (base + a)[|base|..] && b == (base + b)[|base|..];
  }

  lemma RootNames(fs: FileSystem, o: Options, base: string, root: Ino)
    requires WellFormed(fs) && root in fs.dirs && EndsInSlash(base)
    ensures LevelKnown(fs, base, root, Level(root, 0, base, [])) && NamesBelow(base, base) == []
    ensures VisitLevel(fs, o, Level(root, 0, base, [])) == VisitFrom(fs, o, root, 0, base, [])
  {
    assert base[|base|..] == "";
    RootKnown(fs, base, root);
  }

  lemma ListableIsListed(fs: FileSystem, base: string, root: Ino, o: Options, names: seq<string>) returns (k: nat)
    requires WellFormed(fs) && root in fs.dirs && EndsInSlash(base) && Listable(fs, root, o, names)
    ensures k < |VisitFrom(fs, o, root, 0, base, [])| && VisitFrom(fs, o, root, 0, base, [])[k].path == base + Join(names)
  {
    var l := Level(root, 0, base, []);
    RootNames(fs, o, base, root);
    hide WellFormed, VisitFrom, VisitLevel, RouteOk, ItemOf, IndexOf;
    hide LevelKnown, NamesOf, LstatNames, AllEntered, NamesBelow, Join;
    assert names[..0] == [];
    var route := ListableRoute(fs, base, root, o, l, names);
    ReachableIsListed(fs, o, l, route);
    PathOfRoute(fs, o, l, route);
    assert [] + NamesOf(fs, o, l, route) == NamesOf(fs, o, l, route);
    k := IndexOf(fs, o, l, route);
  }

  /** Exactly the paths that are to be listed are listed. */
  lemma ListedExactly(fs: FileSystem, base: string, root: Ino, o: Options, names: seq<string>)
    requires WellFormed(fs) && root in fs.dirs && EndsInSlash(base) && AllValid(names)
    ensures var all := VisitFrom(fs, o, root, 0, base, []);
      (exists k :: 0 <= k < |all| && all[k].path == base + Join(names)) <==> Listable(fs, root, o, names)
  {
    hide WellFormed, VisitFrom, AllValid, Listable, Join;
    var all := VisitFrom(fs, o, root, 0, base, []);
    if k :| 0 <= k < |all| && all[k].path == base + Join(names) {
      ListedIsListable(fs, base, root, o, names, k);
    }
    if Listable(fs, root, o, names) {
      var k := ListableIsListed(fs, base, root, o, names);
    }
  }
}
