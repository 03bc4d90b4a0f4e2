/**
  A finite file system with symbolic links, and the specification of directory
  listing: a recursive pre-order traversal.
 */
module DirectoryTree {
  import opened PathNames
  import opened LinkChain

  type Ino = int

  /** What a symbolic link leads to. */
  datatype Target = Broken | ToFile | ToDirectory(dir: Ino)

  datatype Node =
    | File
    | Directory(dir: Ino)
    | Link(id: LinkId, target: Target)

  /** A directory entry; `typeKnown` tells whether reading the directory reports its type. */
  datatype Dirent = Dirent(name: string, typeKnown: bool, node: Node)

  /** Directory contents, in reading order; `height` certifies that directories form no cycle. */
  datatype FileSystem = FileSystem(dirs: map<Ino, seq<Dirent>>, height: map<Ino, nat>)

  ghost predicate EntryOk(fs: FileSystem, d: Ino, e: Dirent)
    requires d in fs.height
  {
    && ValidName(e.name) && CString(e.name)
    && (IsDot(e.name) ==> e.node.Directory?)
    && (e.node.Directory? && !IsDot(e.name) ==>
          e.node.dir in fs.dirs && e.node.dir in fs.height && fs.height[e.node.dir] < fs.height[d])
    && (e.node.Link? && e.node.target.ToDirectory? ==> e.node.target.dir in fs.dirs)
  }

  ghost predicate DirOk(fs: FileSystem, d: Ino)
    requires d in fs.dirs
  {
    && d in fs.height
    && (forall i | 0 <= i < |fs.dirs[d]| :: EntryOk(fs, d, fs.dirs[d][i]))
    && (forall i, j | 0 <= i < j < |fs.dirs[d]| :: fs.dirs[d][i].name != fs.dirs[d][j].name)
  }

  ghost predicate WellFormed(fs: FileSystem) {
    forall d | d in fs.dirs :: DirOk(fs, d)
  }

  // ----- The traversal

  datatype Options = Options(recursive: bool, followLinks: bool)

  datatype Kind = KFile | KDirectory | KLink | KDot

  datatype Item = Item(kind: Kind, path: string)

  /** How a directory was reached: as such, or through a link. */
  datatype Via = Direct | Through(id: LinkId)

  /** What an entry turns out to be. */
  datatype Found = Skip | Plain(kind: Kind) | Enter(dir: Ino, via: Via)

  /** A link is followed when asked for, unless it loops back or leads nowhere. */
  function Classify(followLinks: bool, chain: seq<LinkId>, e: Dirent): Found {
    match e.node
    case File => Plain(KFile)
    case Directory(dir) => if IsDot(e.name) then Skip else Enter(dir, Direct)
    case Link(id, target) =>
      if !followLinks || id in chain || target.Broken? then Plain(KLink)
      else if target.ToFile? then Plain(KFile)
      else Enter(target.dir, Through(id))
  }

  function Extend(chain: seq<LinkId>, via: Via): seq<LinkId> {
    match via
    case Direct => chain
    case Through(id) => [id] + chain
  }

  ghost function AllLinks(fs: FileSystem): set<LinkId> {
    set d, i | d in fs.dirs && 0 <= i < |fs.dirs[d]| && fs.dirs[d][i].node.Link? :: fs.dirs[d][i].node.id
  }

  ghost function Ids(chain: seq<LinkId>): set<LinkId> {
    set i | 0 <= i < |chain| :: chain[i]
  }

  /** Following a link uses it up: the traversal terminates even when links form cycles. */
  lemma FollowingTerminates(fs: FileSystem, d: Ino, pos: nat, chain: seq<LinkId>)
    requires d in fs.dirs && pos < |fs.dirs[d]|
    requires Classify(true, chain, fs.dirs[d][pos]).Enter? && Classify(true, chain, fs.dirs[d][pos]).via.Through?
    ensures var chain' := Extend(chain, Classify(true, chain, fs.dirs[d][pos]).via);
      AllLinks(fs) - Ids(chain') < AllLinks(fs) - Ids(chain)
  {
    var id := fs.dirs[d][pos].node.id;
    var chain' := [id] + chain;
    assert id in AllLinks(fs);
    assert chain'[0] == id;
    assert forall i | 0 <= i < |chain| :: chain'[i + 1] == chain[i];
    assert id in Ids(chain') && id !in Ids(chain);
    assert Ids(chain) <= Ids(chain');
  }

  /**
    The entries from position `pos` of a directory on, in pre-order: a directory
    comes before what is below it.  Dot entries are included as such.
   */
  ghost function VisitFrom(fs: FileSystem, o: Options, d: Ino, pos: nat, prefix: string, chain: seq<LinkId>): seq<Item>
    requires WellFormed(fs) && d in fs.dirs && pos <= |fs.dirs[d]|
    decreases AllLinks(fs) - Ids(chain), DirHeight(fs, d), |fs.dirs[d]| - pos
  {
    if pos == |fs.dirs[d]| then [] else
    var e := fs.dirs[d][pos];
    var path := prefix + e.name;
    var rest := VisitFrom(fs, o, d, pos + 1, prefix, chain);
    assert DirOk(fs, d) && EntryOk(fs, d, e);
    match Classify(o.followLinks, chain, e)
    case Skip => [Item(KDot, path)] + rest
    case Plain(kind) => [Item(kind, path)] + rest
    case Enter(sub, via) =>
      [Item(KDirectory, path)]
      + (if !o.recursive then [] else
           (if via.Through? then FollowingTerminates(fs, d, pos, chain);
            VisitFrom(fs, o, sub, 0, path + "/", Extend(chain, via)) else
            VisitFrom(fs, o, sub, 0, path + "/", chain)))
      + rest
  }

  ghost function DirHeight(fs: FileSystem, d: Ino): nat
    requires WellFormed(fs) && d in fs.dirs
  {
    assert DirOk(fs, d);
    fs.height[d]
  }

  // ----- The traversal as a stack of levels

  /** A directory being read: the position of the next entry, its path and the links followed to it. */
  datatype Level = Level(dir: Ino, pos: nat, prefix: string, chain: seq<LinkId>)

  ghost predicate LevelOk(fs: FileSystem, l: Level) {
    l.dir in fs.dirs && l.pos <= |fs.dirs[l.dir]|
  }

  ghost predicate LevelsOk(fs: FileSystem, levels: seq<Level>) {
    forall i | 0 <= i < |levels| :: LevelOk(fs, levels[i])
  }

  function Top(levels: seq<Level>): Level
    requires levels != []
  {
    levels[|levels| - 1]
  }

  /** Whether the innermost level has an entry left to read. */
  ghost predicate HasNext(fs: FileSystem, levels: seq<Level>)
    requires LevelsOk(fs, levels) && levels != []
  {
    assert LevelOk(fs, Top(levels));
    Top(levels).pos < |fs.dirs[Top(levels).dir]|
  }

  /** What is left to visit below and including each level, innermost (last) first. */
  ghost function Pending(fs: FileSystem, o: Options, levels: seq<Level>): seq<Item>
    requires WellFormed(fs) && LevelsOk(fs, levels)
  {
    if levels == [] then [] else
    assert LevelOk(fs, Top(levels));
    VisitLevel(fs, o, Top(levels)) + Pending(fs, o, levels[..|levels| - 1])
  }

  ghost function VisitLevel(fs: FileSystem, o: Options, l: Level): seq<Item>
    requires WellFormed(fs) && LevelOk(fs, l)
  {
    VisitFrom(fs, o, l.dir, l.pos, l.prefix, l.chain)
  }

  /** The entry that the innermost level reads next. */
  ghost function NextEntry(fs: FileSystem, l: Level): Dirent
    requires LevelOk(fs, l) && l.pos < |fs.dirs[l.dir]|
  {
    fs.dirs[l.dir][l.pos]
  }

  ghost function NextItem(fs: FileSystem, o: Options, l: Level): Item
    requires LevelOk(fs, l) && l.pos < |fs.dirs[l.dir]|
  {
    var e := NextEntry(fs, l);
    Item(match Classify(o.followLinks, l.chain, e) case Skip => KDot case Plain(kind) => kind case Enter(_, _) => KDirectory,
         l.prefix + e.name)
  }

  /** What the next entry turns out to be. */
  ghost function NextFound(fs: FileSystem, o: Options, l: Level): Found
    requires LevelOk(fs, l) && l.pos < |fs.dirs[l.dir]|
  {
    Classify(o.followLinks, l.chain, NextEntry(fs, l))
  }

  /** The levels after the innermost one has read an entry: a directory to recurse into is a new level. */
  ghost function Advance(fs: FileSystem, o: Options, levels: seq<Level>): seq<Level>
    requires LevelsOk(fs, levels) && levels != [] && HasNext(fs, levels)
  {
    assert LevelOk(fs, Top(levels));
    var l := Top(levels);
    levels[..|levels| - 1] + [l.(pos := l.pos + 1)] + Children(fs, o, l)
  }

  ghost function Children(fs: FileSystem, o: Options, l: Level): seq<Level>
    requires LevelOk(fs, l) && l.pos < |fs.dirs[l.dir]|
  {
    if NextFound(fs, o, l).Enter? && o.recursive then [ChildLevel(fs, l, NextFound(fs, o, l))] else []
  }

  ghost function ChildLevel(fs: FileSystem, l: Level, found: Found): Level
    requires LevelOk(fs, l) && l.pos < |fs.dirs[l.dir]| && found.Enter?
  {
    Level(found.dir, 0, l.prefix + NextEntry(fs, l).name + "/", Extend(l.chain, found.via))
  }

  lemma ChildOk(fs: FileSystem, o: Options, l: Level)
    requires WellFormed(fs) && LevelOk(fs, l) && l.pos < |fs.dirs[l.dir]|
    ensures LevelsOk(fs, Children(fs, o, l))
  {
    assert DirOk(fs, l.dir) && EntryOk(fs, l.dir, NextEntry(fs, l));
  }

  /** One step of the traversal at one level. */
  lemma VisitStep(fs: FileSystem, o: Options, l: Level)
    requires WellFormed(fs) && LevelOk(fs, l) && l.pos < |fs.dirs[l.dir]|
    ensures LevelsOk(fs, Children(fs, o, l))
    ensures VisitLevel(fs, o, l) ==
      [NextItem(fs, o, l)] + Pending(fs, o, Children(fs, o, l)) + VisitLevel(fs, o, l.(pos := l.pos + 1))
  {
    ChildOk(fs, o, l);
    assert DirOk(fs, l.dir) && EntryOk(fs, l.dir, NextEntry(fs, l));
    var children := Children(fs, o, l);
    if children != [] {
      assert children[..0] == [];
      assert Pending(fs, o, children) == VisitLevel(fs, o, children[0]);
    }
  }

  lemma {:induction false} PendingAppend(fs: FileSystem, o: Options, a: seq<Level>, b: seq<Level>)
    requires WellFormed(fs) && LevelsOk(fs, a) && LevelsOk(fs, b)
    ensures LevelsOk(fs, a + b) && Pending(fs, o, a + b) == Pending(fs, o, b) + Pending(fs, o, a)
    decreases |b|
  {
    hide VisitLevel;
    if b == [] {
      assert a + b == a;
    } else {
      var front := b[..|b| - 1];
      assert (a + b)[..|a + b| - 1] == a + front;
      assert Top(a + b) == Top(b);
      PendingAppend(fs, o, a, front);
    }
  }

  /** Reading one entry takes one item off what is pending. */
  lemma AdvancePending(fs: FileSystem, o: Options, levels: seq<Level>)
    requires WellFormed(fs) && LevelsOk(fs, levels) && levels != [] && HasNext(fs, levels)
    ensures LevelOk(fs, Top(levels)) && LevelsOk(fs, Advance(fs, o, levels))
    ensures Pending(fs, o, levels) == [NextItem(fs, o, Top(levels))] + Pending(fs, o, Advance(fs, o, levels))
  {
    hide VisitLevel, NextItem, Children, Pending, LevelOk;
    var l := Top(levels);
    assert LevelOk(fs, l);
    AdvancedOk(fs, l);
    VisitStep(fs, o, l);
    var front, l', children := levels[..|levels| - 1], l.(pos := l.pos + 1), Children(fs, o, l);
    PendingOne(fs, o, l);
    PendingOne(fs, o, l');
    assert levels == front + [l];
    PendingAppend(fs, o, front, [l]);
    PendingAppend(fs, o, front, [l']);
    PendingAppend(fs, o, front + [l'], children);
  }

  lemma PendingOne(fs: FileSystem, o: Options, l: Level)
    requires WellFormed(fs) && LevelOk(fs, l)
    ensures LevelsOk(fs, [l]) && Pending(fs, o, [l]) == VisitLevel(fs, o, l)
  {
    assert [l][..0] == [];
  }

  lemma AdvancedOk(fs: FileSystem, l: Level)
    requires LevelOk(fs, l) && l.pos < |fs.dirs[l.dir]|
    ensures LevelOk(fs, l.(pos := l.pos + 1))
  {
  }

  /** A level that has been read to its end adds nothing. */
  lemma FinishedPending(fs: FileSystem, o: Options, levels: seq<Level>)
    requires WellFormed(fs) && LevelsOk(fs, levels) && levels != [] && !HasNext(fs, levels)
    ensures Pending(fs, o, levels) == Pending(fs, o, levels[..|levels| - 1])
  {
    assert LevelOk(fs, Top(levels));
  }

  // ----- Opening directories by path

  datatype Resolved = NoSuchDirectory | IsDirectory(dir: Ino)

  function DirectoryOf(node: Node): Resolved {
    match node
    case Directory(d) => IsDirectory(d)
    case Link(_, ToDirectory(d)) => IsDirectory(d)
    case _ => NoSuchDirectory
  }

  function FindDirectory(entries: seq<Dirent>, name: string): Resolved {
    if entries == [] then NoSuchDirectory
    else if entries[0].name == name then DirectoryOf(entries[0].node)
    else FindDirectory(entries[1..], name)
  }

  function WalkDirectories(fs: FileSystem, d: Ino, names: seq<string>): Resolved
    decreases |names|
  {
    if names == [] then IsDirectory(d)
    else if d !in fs.dirs then NoSuchDirectory
    else match FindDirectory(fs.dirs[d], names[0])
         case NoSuchDirectory => NoSuchDirectory
         case IsDirectory(d') => WalkDirectories(fs, d', names[1..])
  }

  /** What the kernel opens for `base`, the path of directory `root`, or for a path below it. */
  function OpenDirectory(fs: FileSystem, base: string, root: Ino, path: string): Resolved {
    if base <= path && (path == base || EndsInSlash(base)) then WalkDirectories(fs, root, Components(path[|base|..])) else NoSuchDirectory
  }

  lemma {:induction false} FindDirectoryAt(entries: seq<Dirent>, i: nat)
    requires i < |entries| && forall j, k | 0 <= j < k < |entries| :: entries[j].name != entries[k].name
    ensures FindDirectory(entries, entries[i].name) == DirectoryOf(entries[i].node)
    decreases |entries|
  {
    if i > 0 {
      FindDirectoryAt(entries[1..], i - 1);
    }
  }

  lemma {:induction false} WalkDirectoriesSnoc(fs: FileSystem, d: Ino, names: seq<string>, name: string)
    requires WalkDirectories(fs, d, names).IsDirectory?
    ensures var d' := WalkDirectories(fs, d, names).dir;
      d' in fs.dirs ==> WalkDirectories(fs, d, names + [name]) == FindDirectory(fs.dirs[d'], name)
    decreases |names|
  {
    if names == [] {
      assert ([] + [name])[1..] == [];
    } else {
      assert (names + [name])[1..] == names[1..] + [name];
      WalkDirectoriesSnoc(fs, FindDirectory(fs.dirs[d], names[0]).dir, names[1..], name);
    }
  }

  /** A level's prefix ends in a slash and opens the level's directory. */
  ghost predicate PathOk(fs: FileSystem, base: string, root: Ino, l: Level) {
    && base <= l.prefix && EndsInSlash(base) && EndsInSlash(l.prefix)
    && OpenDirectory(fs, base, root, l.prefix) == IsDirectory(l.dir)
  }

  lemma EntryOpens(fs: FileSystem, o: Options, l: Level)
    requires WellFormed(fs) && LevelOk(fs, l) && l.pos < |fs.dirs[l.dir]| && NextFound(fs, o, l).Enter?
    ensures ValidName(NextEntry(fs, l).name)
    ensures FindDirectory(fs.dirs[l.dir], NextEntry(fs, l).name) == IsDirectory(NextFound(fs, o, l).dir)
  {
    assert DirOk(fs, l.dir) && EntryOk(fs, l.dir, NextEntry(fs, l));
    FindDirectoryAt(fs.dirs[l.dir], l.pos);
  }

  /** The path of an entry opens the directory that the traversal enters. */
  lemma ChildPath(fs: FileSystem, base: string, root: Ino, o: Options, l: Level)
    requires WellFormed(fs) && LevelOk(fs, l) && l.pos < |fs.dirs[l.dir]| && PathOk(fs, base, root, l)
    requires NextFound(fs, o, l).Enter?
    ensures PathOk(fs, base, root, ChildLevel(fs, l, NextFound(fs, o, l)))
    ensures OpenDirectory(fs, base, root, l.prefix + NextEntry(fs, l).name) == IsDirectory(NextFound(fs, o, l).dir)
  {
    hide Components, WalkDirectories, FindDirectory, WellFormed, NextFound, ValidName;
    var e := NextEntry(fs, l);
    var rel := l.prefix[|base|..];
    EntryOpens(fs, o, l);
    WalkDirectoriesSnoc(fs, root, Components(rel), e.name);
    ComponentsExtend(rel, e.name);
    assert (l.prefix + e.name)[|base|..] == rel + e.name;
    assert (l.prefix + e.name + "/")[|base|..] == rel + e.name + "/";
  }

  // ----- The status of a path

  datatype Status = NoEntry | IsFile | IsDir(dir: Ino) | IsLink(id: LinkId)

  /** The status of a node, not following it. */
  function NodeStatus(node: Node): Status {
    match node
    case File => IsFile
    case Directory(d) => IsDir(d)
    case Link(id, _) => IsLink(id)
  }

  /** The status of what a node leads to. */
  function TargetStatus(node: Node): Status {
    match node
    case Link(_, Broken) => NoEntry
    case Link(_, ToFile) => IsFile
    case Link(_, ToDirectory(d)) => IsDir(d)
    case File => IsFile
    case Directory(d) => IsDir(d)
  }

  /** The entry of a name: at most one. */
  function FindEntry(entries: seq<Dirent>, name: string): (r: seq<Dirent>)
    ensures |r| <= 1
  {
    if entries == [] then [] else if entries[0].name == name then [entries[0]] else FindEntry(entries[1..], name)
  }

  /** The entry that the last name of a path names; links on the way are followed. */
  function EntryAt(fs: FileSystem, root: Ino, names: seq<string>): (r: seq<Dirent>)
    ensures |r| <= 1
  {
    if names == [] then [] else
    match WalkDirectories(fs, root, names[..|names| - 1])
    case NoSuchDirectory => []
    case IsDirectory(d) => if d in fs.dirs then FindEntry(fs.dirs[d], names[|names| - 1]) else []
  }

  /** What the system says of the names of a path: of the entry, and of what it leads to. */
  function LstatNames(fs: FileSystem, root: Ino, names: seq<string>): Status {
    var found := EntryAt(fs, root, names);
    if found == [] then NoEntry else NodeStatus(found[0].node)
  }

  function StatNames(fs: FileSystem, root: Ino, names: seq<string>): Status {
    var found := EntryAt(fs, root, names);
    if found == [] then NoEntry else TargetStatus(found[0].node)
  }

  /** The names of a path below `base`, the path of directory `root`. */
  function NamesBelow(base: string, path: string): seq<string> {
    if base <= path then Components(path[|base|..]) else []
  }

  function Lstat(fs: FileSystem, base: string, root: Ino, path: string): Status {
    LstatNames(fs, root, NamesBelow(base, path))
  }

  function Stat(fs: FileSystem, base: string, root: Ino, path: string): Status {
    StatNames(fs, root, NamesBelow(base, path))
  }

  lemma {:induction false} FindEntryAt(entries: seq<Dirent>, i: nat)
    requires i < |entries| && forall j, k | 0 <= j < k < |entries| :: entries[j].name != entries[k].name
    ensures FindEntry(entries, entries[i].name) == [entries[i]]
    decreases |entries|
  {
    if i > 0 {
      FindEntryAt(entries[1..], i - 1);
    }
  }

  /** The system finds the next entry of a level under its path. */
  lemma EntryStatus(fs: FileSystem, base: string, root: Ino, l: Level)
    requires WellFormed(fs) && LevelOk(fs, l) && l.pos < |fs.dirs[l.dir]| && PathOk(fs, base, root, l)
    ensures var e := NextEntry(fs, l);
      && var path := l.prefix + e.name;
      && base <= path && NamesBelow(base, path) == NamesBelow(base, l.prefix) + [e.name]
      && Lstat(fs, base, root, path) == NodeStatus(e.node) && Stat(fs, base, root, path) == TargetStatus(e.node)
  {
    hide Components, WalkDirectories, FindDirectory, WellFormed, ValidName, FindEntry;
    var e := NextEntry(fs, l);
    var rel := l.prefix[|base|..];
    NextIsOk(fs, l);
    FindEntryAt(fs.dirs[l.dir], l.pos);
    ComponentsExtend(rel, e.name);
    assert (l.prefix + e.name)[|base|..] == rel + e.name;
    var names := Components(rel) + [e.name];
    assert names[..|names| - 1] == Components(rel);
  }

  lemma NextIsOk(fs: FileSystem, l: Level)
    requires WellFormed(fs) && LevelOk(fs, l) && l.pos < |fs.dirs[l.dir]|
    ensures ValidName(NextEntry(fs, l).name) && DirOk(fs, l.dir)
  {
    assert DirOk(fs, l.dir) && EntryOk(fs, l.dir, NextEntry(fs, l));
  }
}
