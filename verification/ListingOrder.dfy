/**
  What the recursive pre-order traversal lists, said without recursion over the
  tree: exactly the entries that a route of positions leads to, each once, in
  lexicographic order of the routes, and no path twice.
 */
module ListingOrder {
  import opened PathNames
  import opened DirectoryTree

  // ----- Routes

  /** The level as it is at position `p`. */
  ghost function At(l: Level, p: nat): Level {
    l.(pos := p)
  }

  /** The level that the traversal enters at the next entry of `l`. */
  ghost predicate Enters(fs: FileSystem, o: Options, l: Level) {
    LevelOk(fs, l) && l.pos < |fs.dirs[l.dir]| && Children(fs, o, l) != []
  }

  ghost function Child(fs: FileSystem, o: Options, l: Level): (c: Level)
    requires WellFormed(fs) && Enters(fs, o, l)
    ensures LevelOk(fs, c) && c.pos == 0 && c.prefix == l.prefix + NextEntry(fs, l).name + "/"
    ensures Children(fs, o, l) == [c]
  {
    ChildOk(fs, o, l);
    assert LevelOk(fs, Children(fs, o, l)[0]);
    Children(fs, o, l)[0]
  }

  /** A route is a position in each directory on the way: each but the last one is entered. */
  ghost predicate RouteOk(fs: FileSystem, o: Options, l: Level, route: seq<nat>)
    requires WellFormed(fs)
    decreases |route|
  {
    && LevelOk(fs, l) && route != [] && l.pos <= route[0] < |fs.dirs[l.dir]|
    && (|route| > 1 ==> Enters(fs, o, At(l, route[0])) && RouteOk(fs, o, Child(fs, o, At(l, route[0])), route[1..]))
  }

  /** The entry that a route leads to. */
  ghost function ItemOf(fs: FileSystem, o: Options, l: Level, route: seq<nat>): Item
    requires WellFormed(fs) && RouteOk(fs, o, l, route)
    decreases |route|
  {
    if |route| == 1 then NextItem(fs, o, At(l, route[0]))
    else ItemOf(fs, o, Child(fs, o, At(l, route[0])), route[1..])
  }

  /** How many entries a traversal lists before the one a route leads to. */
  ghost function IndexOf(fs: FileSystem, o: Options, l: Level, route: seq<nat>): nat
    requires WellFormed(fs) && RouteOk(fs, o, l, route)
    decreases |route|, route[0] - l.pos
  {
    if l.pos < route[0] then 1 + |Below(fs, o, l)| + IndexOf(fs, o, At(l, l.pos + 1), route)
    else if |route| == 1 then 0
    else 1 + IndexOf(fs, o, Child(fs, o, l), route[1..])
  }

  /** What is listed below the next entry of `l`. */
  ghost function Below(fs: FileSystem, o: Options, l: Level): seq<Item>
    requires WellFormed(fs) && LevelOk(fs, l) && l.pos < |fs.dirs[l.dir]|
  {
    if Enters(fs, o, l) then VisitLevel(fs, o, Child(fs, o, l)) else []
  }

  /** A shorter route comes before its extensions; otherwise the first difference decides. */
  predicate Before(a: seq<nat>, b: seq<nat>) {
    b != [] && (a == [] || a[0] < b[0] || (a[0] == b[0] && Before(a[1..], b[1..])))
  }

  lemma VisitSplit(fs: FileSystem, o: Options, l: Level)
    requires WellFormed(fs) && LevelOk(fs, l) && l.pos < |fs.dirs[l.dir]|
    ensures VisitLevel(fs, o, l) == [NextItem(fs, o, l)] + Below(fs, o, l) + VisitLevel(fs, o, At(l, l.pos + 1))
  {
    hide VisitLevel, NextItem;
    VisitStep(fs, o, l);
    if Enters(fs, o, l) {
      PendingOne(fs, o, Child(fs, o, l));
    }
  }

  // ----- Routes and positions in the listing correspond

  /** The entry a route leads to is listed, where `IndexOf` says. */
  lemma {:induction false} ReachableIsListed(fs: FileSystem, o: Options, l: Level, route: seq<nat>)
    requires WellFormed(fs) && RouteOk(fs, o, l, route)
    ensures IndexOf(fs, o, l, route) < |VisitLevel(fs, o, l)|
    ensures VisitLevel(fs, o, l)[IndexOf(fs, o, l, route)] == ItemOf(fs, o, l, route)
    decreases |route|, route[0] - l.pos
  {
    hide VisitLevel, NextItem, Enters, Child, WellFormed;
    VisitSplit(fs, o, l);
    if l.pos < route[0] {
      ReachableIsListed(fs, o, At(l, l.pos + 1), route);
    } else if |route| > 1 {
      assert At(l, route[0]) == l;
      ReachableIsListed(fs, o, Child(fs, o, l), route[1..]);
    }
  }

  /** Every listed entry is one that a route leads to. */
  lemma {:induction false} ListedIsReachable(fs: FileSystem, o: Options, l: Level, k: nat) returns (route: seq<nat>)
    requires WellFormed(fs) && LevelOk(fs, l) && k < |VisitLevel(fs, o, l)|
    ensures RouteOk(fs, o, l, route) && IndexOf(fs, o, l, route) == k
    decreases |VisitLevel(fs, o, l)|
  {
    NothingAtEnd(fs, o, l);
    hide VisitLevel, NextItem, Child;
    VisitSplit(fs, o, l);
    assert At(l, l.pos) == l;
    if k == 0 {
      route := [l.pos];
    } else if k <= |Below(fs, o, l)| {
      var r := ListedIsReachable(fs, o, Child(fs, o, l), k - 1);
      route := [l.pos] + r;
      assert route[1..] == r;
    } else {
      route := ListedIsReachable(fs, o, At(l, l.pos + 1), k - 1 - |Below(fs, o, l)|);
    }
  }

  lemma NothingAtEnd(fs: FileSystem, o: Options, l: Level)
    requires WellFormed(fs) && LevelOk(fs, l)
    ensures l.pos == |fs.dirs[l.dir]| ==> VisitLevel(fs, o, l) == []
  {
  }

  /** The listing follows the lexicographic order of the routes. */
  lemma {:induction false} ListedInOrder(fs: FileSystem, o: Options, l: Level, a: seq<nat>, b: seq<nat>)
    requires WellFormed(fs) && RouteOk(fs, o, l, a) && RouteOk(fs, o, l, b) && Before(a, b)
    ensures IndexOf(fs, o, l, a) < IndexOf(fs, o, l, b)
    decreases |a|, a[0] - l.pos
  {
    hide VisitLevel, Enters, Child;
    assert At(l, l.pos) == l;
    if l.pos < a[0] {
      ListedInOrder(fs, o, At(l, l.pos + 1), a, b);
    } else if l.pos < b[0] {
      if |a| > 1 { ReachableIsListed(fs, o, Child(fs, o, l), a[1..]); }
    } else if |a| > 1 {
      ListedInOrder(fs, o, Child(fs, o, l), a[1..], b[1..]);
    }
  }

  lemma {:induction false} BeforeTotal(a: seq<nat>, b: seq<nat>)
    requires a != b
    ensures Before(a, b) || Before(b, a)
    decreases |a|
  {
    if a != [] && b != [] && a[0] == b[0] {
      assert a == [a[0]] + a[1..] && b == [b[0]] + b[1..];
      BeforeTotal(a[1..], b[1..]);
    }
  }

  /** Different routes lead to different places in the listing. */
  lemma RoutesDistinct(fs: FileSystem, o: Options, l: Level, a: seq<nat>, b: seq<nat>)
    requires WellFormed(fs) && RouteOk(fs, o, l, a) && RouteOk(fs, o, l, b) && a != b
    ensures IndexOf(fs, o, l, a) != IndexOf(fs, o, l, b)
  {
    hide RouteOk, IndexOf;
    BeforeTotal(a, b);
    if Before(a, b) {
      ListedInOrder(fs, o, l, a, b);
    } else {
      ListedInOrder(fs, o, l, b, a);
    }
  }

  // ----- No path is listed twice

  /** What follows the first name in the path of a route: nothing, or a slash and more. */
  ghost function Tail(fs: FileSystem, o: Options, l: Level, route: seq<nat>): (t: string)
    requires WellFormed(fs) && RouteOk(fs, o, l, route)
    ensures ItemOf(fs, o, l, route).path == l.prefix + NextEntry(fs, At(l, route[0])).name + t
    ensures |route| == 1 ==> t == ""
    ensures |route| > 1 ==> t != "" && t[0] == '/'
    decreases |route|
  {
    if |route| == 1 then ""
    else
      var c := Child(fs, o, At(l, route[0]));
      assert RouteOk(fs, o, c, route[1..]) && route[1..][0] == route[1];
      var rest := NextEntry(fs, At(c, route[1])).name + Tail(fs, o, c, route[1..]);
      assert c.prefix + rest == l.prefix + NextEntry(fs, At(l, route[0])).name + ("/" + rest);
      assert ItemOf(fs, o, c, route[1..]).path == c.prefix + rest;
      "/" + rest
  }

  lemma SplitAtSlash(n1: string, t1: string, n2: string, t2: string)
    requires ValidName(n1) && ValidName(n2) && n1 + t1 == n2 + t2
    requires (t1 == "" || t1[0] == '/') && (t2 == "" || t2[0] == '/')
    ensures n1 == n2 && t1 == t2
  {
    var s := n1 + t1;
    assert n1 == s[..|n1|] && n2 == s[..|n2|] && t1 == s[|n1|..] && t2 == s[|n2|..];
    NameLengthUnique(s, |n1|);
    NameLengthUnique(s, |n2|);
  }

  /** Routes with the same path start at the same entry, and are both at their end or both not. */
  lemma SameFirst(fs: FileSystem, o: Options, l: Level, a: seq<nat>, b: seq<nat>)
    requires WellFormed(fs) && RouteOk(fs, o, l, a) && RouteOk(fs, o, l, b)
    requires ItemOf(fs, o, l, a).path == ItemOf(fs, o, l, b).path
    ensures a[0] == b[0] && (|a| == 1 <==> |b| == 1)
    ensures |a| > 1 ==>
      var c := Child(fs, o, At(l, a[0])); ItemOf(fs, o, c, a[1..]).path == ItemOf(fs, o, c, b[1..]).path
  {
    var ta, tb := Tail(fs, o, l, a), Tail(fs, o, l, b);
    hide Tail, Enters, Child, NextItem, WellFormed, NextEntry;
    SameEntry(fs, l, a[0], ta, b[0], tb);
  }

  lemma SameEntry(fs: FileSystem, l: Level, i: nat, ti: string, j: nat, tj: string)
    requires WellFormed(fs) && l.dir in fs.dirs && i < |fs.dirs[l.dir]| && j < |fs.dirs[l.dir]|
    requires l.prefix + NextEntry(fs, At(l, i)).name + ti == l.prefix + NextEntry(fs, At(l, j)).name + tj
    requires (ti == "" || ti[0] == '/') && (tj == "" || tj[0] == '/')
    ensures i == j && ti == tj
  {
    hide WellFormed, IsDot, CString, ValidName;
    var ei, ej := fs.dirs[l.dir][i], fs.dirs[l.dir][j];
    EntriesOk(fs, l.dir);
    assert EntryOk(fs, l.dir, ei) && EntryOk(fs, l.dir, ej);
    assert ei.name + ti == (l.prefix + ei.name + ti)[|l.prefix|..];
    assert ej.name + tj == (l.prefix + ej.name + tj)[|l.prefix|..];
    SplitAtSlash(ei.name, ti, ej.name, tj);
  }

  lemma EntriesOk(fs: FileSystem, d: Ino)
    requires WellFormed(fs) && d in fs.dirs
    ensures DirOk(fs, d)
  {
  }

  /** A path belongs to one route. */
  lemma {:induction false} PathsDistinct(fs: FileSystem, o: Options, l: Level, a: seq<nat>, b: seq<nat>)
    requires WellFormed(fs) && RouteOk(fs, o, l, a) && RouteOk(fs, o, l, b)
    requires ItemOf(fs, o, l, a).path == ItemOf(fs, o, l, b).path
    ensures a == b
    decreases |a|
  {
    hide Enters, Child, NextItem, WellFormed, ItemOf;
    SameFirst(fs, o, l, a, b);
    assert a == [a[0]] + a[1..] && b == [b[0]] + b[1..];
    if |a| > 1 {
      PathsDistinct(fs, o, Child(fs, o, At(l, a[0])), a[1..], b[1..]);
    }
  }

  lemma NoPathTwice(fs: FileSystem, o: Options, l: Level, i: nat, j: nat)
    requires WellFormed(fs) && LevelOk(fs, l) && i < j < |VisitLevel(fs, o, l)|
    ensures VisitLevel(fs, o, l)[i].path != VisitLevel(fs, o, l)[j].path
  {
    hide VisitLevel, RouteOk, IndexOf, ItemOf;
    var a := ListedIsReachable(fs, o, l, i);
    var b := ListedIsReachable(fs, o, l, j);
    ReachableIsListed(fs, o, l, a);
    ReachableIsListed(fs, o, l, b);
    if ItemOf(fs, o, l, a).path == ItemOf(fs, o, l, b).path {
      PathsDistinct(fs, o, l, a, b);
    }
  }
}
