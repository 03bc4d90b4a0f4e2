/**
  The pausable directory listing (`DirectoryListing`, `DirectoryListingEntry`,
  `ListNext`, `Directory::List`, `AsyncDirectoryListing`): a stack of open
  directories, one shared path buffer and the chains of followed links.

  The listing refines the recursive traversal of `DirectoryTree`: what has been
  reported followed by what is pending is always the whole traversal.
 */
module DirectoryListing {
  import opened PathNames
  import opened PathBuffer
  import opened LinkChain
  import opened DirectoryTree

  datatype ListType = ListFile | ListDirectory | ListLink | ListDone

  /** A stack entry; `lister` is the open directory stream and `pos` its position. */
  datatype Entry = Entry(lister: Resolved, pos: nat, done: bool, pathLength: nat)

  const NEW_ENTRY: Entry := Entry(NoSuchDirectory, 0, false, 0)

  /** An entry whose directory is open: the buffer still starts with its path. */
  ghost predicate Reading(fs: FileSystem, e: Entry, l: Level, text: string) {
    && e.lister == IsDirectory(l.dir) && e.pos == l.pos
    && e.pathLength == |l.prefix| && l.prefix <= text
    && (e.done ==> l.dir in fs.dirs && l.pos == |fs.dirs[l.dir]|)
  }

  /** A new entry: the buffer holds the path of the directory it will open. */
  ghost predicate Waiting(fs: FileSystem, base: string, root: Ino, e: Entry, l: Level, text: string, bottom: bool) {
    && e == NEW_ENTRY && l.pos == 0
    && OpenDirectory(fs, base, root, text) == IsDirectory(l.dir)
    && l.prefix == text + (if bottom then "" else "/")
    && |l.prefix| < PATH_MAX
  }

  ghost predicate Nested(levels: seq<Level>) {
    forall i, j | 0 <= i <= j < |levels| :: levels[i].prefix <= levels[j].prefix
  }

  ghost predicate PathsOk(fs: FileSystem, base: string, root: Ino, levels: seq<Level>) {
    forall i | 0 <= i < |levels| :: PathOk(fs, base, root, levels[i])
  }

  /** Every level has followed the links its stack entry inherits. */
  ghost predicate ChainsOk(links: Links, levels: seq<Level>) {
    && LinkChain.Inv(links) && |links.held| == |levels|
    && forall i | 0 <= i < |levels| :: levels[i].chain == Inherited(links, i)
  }

  /** The entries below the top are open. */
  ghost predicate LowerOk(fs: FileSystem, stack: seq<Entry>, levels: seq<Level>, text: string) {
    && |stack| == |levels|
    && forall i | 0 <= i < |stack| - 1 :: Reading(fs, stack[i], levels[i], text)
  }

  /** The path of an entry, and the slash after that of a directory to enter, stay below PATH_MAX. */
  predicate ItemFits(o: Options, item: Item) {
    |item.path| + (if o.recursive && item.kind == KDirectory then 1 else 0) < PATH_MAX
  }

  /** All paths still to be formed fit. */
  ghost predicate Fits(fs: FileSystem, o: Options, levels: seq<Level>)
    requires WellFormed(fs) && LevelsOk(fs, levels)
  {
    forall i | 0 <= i < |Pending(fs, o, levels)| :: ItemFits(o, Pending(fs, o, levels)[i])
  }

  class Listing {
    const fs: FileSystem
    const base: string
    const root: Ino
    const o: Options
    const path: Buffer
    var stack: seq<Entry>
    var links: Links
    /** The traversal's view of the stack. */
    ghost var levels: seq<Level>

    ghost predicate Base()
      reads this, path, path.data
    {
      && WellFormed(fs) && path.Valid()
      && LevelsOk(fs, levels) && Nested(levels) && PathsOk(fs, base, root, levels)
      && ChainsOk(links, levels)
      && LowerOk(fs, stack, levels, path.Text())
    }

    ghost predicate TopReading()
      reads this, path, path.data
    {
      stack != [] && levels != [] && Reading(fs, stack[|stack| - 1], Top(levels), path.Text())
    }

    ghost predicate TopWaiting()
      reads this, path, path.data
    {
      stack != [] && levels != [] && Waiting(fs, base, root, stack[|stack| - 1], Top(levels), path.Text(), |stack| == 1)
    }

    ghost predicate Valid()
      reads this, path, path.data
    {
      Base() && (stack != [] ==> TopReading() || TopWaiting()) && Fits(fs, o, levels)
    }

    /** What remains to be reported, dot entries included. */
    ghost function Rest(): seq<Item>
      reads this, path, path.data
      requires Valid()
    {
      Pending(fs, o, levels)
    }

    /** The same, when a directory is about to be pushed. */
    ghost function RestWith(children: seq<Level>): seq<Item>
      reads this, path, path.data
      requires Valid() && CanPushAll(children)
    {
      if children == [] then Rest() else Pending(fs, o, levels + [children[0]])
    }

    ghost predicate CanPushAll(children: seq<Level>)
      reads this, path, path.data
    {
      children == [] || (|children| == 1 && CanPush(children[0]))
    }

    /** Whether the top directory has an entry left. */
    ghost predicate More()
      reads this, path, path.data
      requires Valid()
    {
      levels != [] && HasNext(fs, levels)
    }

    /** Starts a listing of directory `root`, whose path is `base`. */
    constructor (fs: FileSystem, base: string, root: Ino, o: Options)
      requires WellFormed(fs) && root in fs.dirs && CString(base) && |base| < PATH_MAX && EndsInSlash(base)
      requires Fits(fs, o, [Level(root, 0, base, [])])
      ensures Valid() && fresh(path) && fresh(path.data)
      ensures this.fs == fs && this.o == o && stack != [] && levels == [Level(root, 0, base, [])]
      ensures Rest() == VisitFrom(fs, o, root, 0, base, [])
    {
      this.fs, this.base, this.root, this.o := fs, base, root, o;
      path := new Buffer();
      stack := [NEW_ENTRY];
      links := LinkChain.Push(NO_LINKS);
      levels := [Level(root, 0, base, [])];
      new;
      hide LevelsOk, PathsOk, ChainsOk, Waiting, Pending, Fits, WellFormed, Nested, CString;
      StartOk(fs, base, root, o);
      var ok := path.Add(base);
    }

    /** Opens the directory of a new top entry and remembers how long its path is. */
    method OpenTop()
      requires Valid() && TopWaiting()
      modifies this`stack, path, path.data
      ensures Valid() && TopReading() && |stack| == |old(stack)|
    {
      hide LevelsOk, PathsOk, ChainsOk, Pending, Fits, WellFormed, Nested, OpenDirectory, CString, UpToNul, Buffer.AsString;
      var top := |stack| - 1;
      ghost var text := path.Text();
      CurrentPath();
      var lister := OpenDirectory(fs, base, root, path.AsString());
      if top > 0 {
        var ok := path.Add("/");
        assert ok;
      }
      LowerMore(fs, stack, levels, text, path.Text());
      stack := stack[top := Entry(lister, 0, false, path.length)];
    }

    /** The top entry is open, the buffer holds exactly its path, and it owns no link. */
    ghost predicate Rewound()
      reads this, path, path.data
    {
      && Valid() && TopReading() && path.Text() == Top(levels).prefix
      && |links.held| == |levels| && links.held[|levels| - 1] == Parent(links.held, |levels| - 1)
    }

    /** Cuts the buffer back to the top entry's path and resets its link. */
    method Rewind()
      requires Valid() && TopReading()
      modifies this`links, path, path.data
      ensures Rewound()
    {
      hide LinkChain.Inv, Inherited, Pending, WellFormed, PathsOk, OpenDirectory, PathOk, LevelsOk;
      LowerLess(fs, stack, levels, path.Text());
      ResetChainsOk(links, levels);
      path.Reset(stack[|stack| - 1].pathLength);
      links := LinkChain.Reset(links);
    }

    /** Looks for a link on the chain of the top entry. */
    method OnChain(id: LinkId) returns (found: bool)
      requires LinkChain.Inv(links) && links.held != []
      ensures found <==> id in Inherited(links, |links.held|)
    {
      var previous := links.held[|links.held| - 1];
      assert LinkChain.EntryOk(links, |links.held| - 1);
      ghost var seen := [];
      while previous.At?
        invariant Live(links.nodes, previous)
        invariant Inherited(links, |links.held|) == seen + Chain(links.nodes, previous) && id !in seen
        decreases if previous.At? then previous.addr + 1 else 0
      {
        var node := links.nodes[previous.addr];
        if node.id == id {
          return true;
        }
        seen := seen + [node.id];
        previous := node.next;
      }
      return false;
    }

    /**
      Finds out what an entry is: from its type if reading the directory reports
      one, else by asking the system about the path in the buffer.  A followed link
      to a directory is put on the chain.
     */
    method Inspect(e: Dirent) returns (found: Found)
      requires LinkChain.Inv(links) && links.held != [] && path.Whole()
      requires IsDot(e.name) ==> e.node.Directory?
      requires Lstat(fs, base, root, path.CText()) == NodeStatus(e.node)
      requires Stat(fs, base, root, path.CText()) == TargetStatus(e.node)
      modifies this`links
      ensures found == old(Classify(o.followLinks, Inherited(links, |links.held|), e))
      ensures links == if found.Enter? && found.via.Through? then LinkChain.Follow(old(links), found.via.id) else old(links)
    {
      hide Lstat, Stat, Buffer.AsString, UpToNul, LinkChain.Inv;
      if e.typeKnown && e.node.Directory? {
        return if IsDot(e.name) then Skip else Enter(e.node.dir, Direct);
      } else if e.typeKnown && e.node.File? {
        return Plain(KFile);
      } else if e.typeKnown && e.node.Link? && !o.followLinks {
        return Plain(KLink);
      }
      // A link to be followed, or an entry of unknown type: ask for its status.
      var info := Lstat(fs, base, root, path.AsString());
      if o.followLinks && info.IsLink? {
        var loops := OnChain(info.id);
        if loops {
          return Plain(KLink);
        }
        var id := info.id;
        info := Stat(fs, base, root, path.AsString());
        if info.NoEntry? {
          return Plain(KLink);
        }
        if info.IsDir? {
          links := LinkChain.Follow(links, id);
          return Enter(info.dir, Through(id));
        }
      }
      if info.IsDir? {
        return if IsDot(e.name) then Skip else Enter(info.dir, Direct);
      } else if info.IsLink? {
        return Plain(KLink);
      } else {
        return Plain(KFile);
      }
    }

    /** The directory entered last, not on the stack yet: the buffer holds its path. */
    ghost predicate CanPush(child: Level)
      reads this, path, path.data
    {
      && Valid() && TopReading() && links.held != []
      && (links.held[|links.held| - 1].Null? ==> Parent(links.held, |links.held| - 1).Null?)
      && LevelOk(fs, child) && PathOk(fs, base, root, child)
      && LevelsOk(fs, levels + [child]) && Fits(fs, o, levels + [child])
      && Waiting(fs, base, root, NEW_ENTRY, child, path.Text(), false)
      && Top(levels).prefix <= child.prefix
      && child.chain == Inherited(links, |links.held|)
    }

    /** Reads the next entry of the top directory and puts its path in the buffer. */
    method ReadName() returns (e: Dirent)
      requires Rewound() && HasNext(fs, levels)
      modifies this`stack, this`levels, path, path.data
      ensures Valid() && TopReading() && |stack| == |old(stack)|
      ensures LevelOk(fs, old(Top(levels))) && e == NextEntry(fs, old(Top(levels)))
      ensures levels == Advanced(old(levels))
      ensures path.Text() == old(Top(levels)).prefix + e.name
    {
      hide LinkChain.Inv, Inherited, Pending, LevelsOk, PathsOk, WellFormed;
      var top := |stack| - 1;
      ghost var l, text := Top(levels), path.Text();
      StepEntry(fs, o, levels);
      StepPaths(fs, base, root, levels);
      StepFits(fs, o, levels);
      StepChains(links, levels);
      e := fs.dirs[stack[top].lister.dir][stack[top].pos];
      var ok := path.Add(e.name);
      assert ok;
      LowerMore(fs, stack, levels, text, path.Text());
      stack := stack[top := stack[top].(pos := stack[top].pos + 1)];
      levels := Advanced(levels);
    }

    /** What the system says of the next entry of the top directory. */
    lemma TopStatus()
      requires Valid() && More()
      ensures LevelOk(fs, Top(levels)) && Top(levels).pos < |fs.dirs[Top(levels).dir]|
      ensures var e := NextEntry(fs, Top(levels));
        && var path := Top(levels).prefix + e.name;
        && Lstat(fs, base, root, path) == NodeStatus(e.node) && Stat(fs, base, root, path) == TargetStatus(e.node)
    {
      hide LinkChain.Inv, Inherited, Pending, Nested, LowerOk, Reading, Waiting, Lstat, Stat, OpenDirectory;
      assert LevelOk(fs, Top(levels)) && PathOk(fs, base, root, Top(levels));
      EntryStatus(fs, base, root, Top(levels));
    }

    /** Reads the next entry of the top directory and finds out what it is. */
    method ReadEntry() returns (found: Found, ghost children: seq<Level>)
      requires Rewound() && More()
      modifies this, path, path.data
      ensures Valid() && TopReading() && |stack| == |old(stack)|
      ensures children != [] <==> found.Enter? && o.recursive
      ensures CanPushAll(children) && (found.Plain? ==> found.kind.KFile? || found.kind.KLink?)
      ensures old(Rest()) == [Item(FoundKind(found), path.Text())] + RestWith(children)
    {
      hide LinkChain.Inv, Inherited, Pending, Nested, LevelsOk, LowerOk, Reading, Waiting;
      hide WellFormed, PathsOk, OpenDirectory, PathOk, Lstat, Stat, Buffer.AsString;
      ghost var l := Top(levels);
      StepEntry(fs, o, levels);
      StepFits(fs, o, levels);
      HeldInherits(links, levels);
      TopStatus();
      if NextFound(fs, o, l).Enter? && o.recursive { ChildFacts(fs, o, base, root, levels); }
      var e := ReadName();
      ghost var before := links;
      CurrentPath();
      found := Inspect(e);
      InspectChains(before, levels, found, l.chain);
      children := Children(fs, o, l);
      assert levels + [] == levels;
    }

    /** Makes the top directory ready to be read: open, with its path in the buffer. */
    method Prepare()
      requires Valid() && stack != []
      modifies this`stack, this`links, path, path.data
      ensures Rewound() && Rest() == old(Rest()) && |stack| == |old(stack)|
    {
      hide LinkChain.Inv, Inherited, Pending, Nested, LevelsOk, LowerOk, WellFormed, PathsOk, OpenDirectory, PathOk, ChainsOk;
      if stack[|stack| - 1].lister.NoSuchDirectory? {
        OpenTop();
      }
      Rewind();
    }

    method EndOfDirectory() returns (b: bool)
      requires Rewound()
      ensures stack != [] && b == !More()
    {
      assert LevelOk(fs, Top(levels));
      b := stack[|stack| - 1].pos == |fs.dirs[stack[|stack| - 1].lister.dir]|;
    }

    /** At the end of its directory the top entry is done. */
    method Finish()
      requires Rewound() && !More()
      modifies this`stack
      ensures Valid() && TopReading() && |stack| == |old(stack)| && Rest() == old(Rest()) && !More()
    {
      hide LinkChain.Inv, Inherited, Pending, Nested, WellFormed, PathsOk, OpenDirectory, PathOk;
      assert LevelOk(fs, Top(levels));
      stack := stack[|stack| - 1 := stack[|stack| - 1].(done := true)];
    }

    lemma DoneAtEnd()
      requires Valid() && stack != [] && stack[|stack| - 1].done
      ensures TopReading() && !More()
    {
      assert LevelOk(fs, Top(levels));
    }

    lemma RewoundIsValid()
      requires Rewound()
      ensures Valid() && TopReading() && stack != []
    {
    }

    /**
      The next entry of the top directory that is not a dot entry.  The dot
      entries passed over, the entry reported and what is pending afterwards make
      up what was pending before; `children` is the directory to recurse into.
     */
    method Next() returns (t: ListType, ghost skipped: seq<Item>, ghost children: seq<Level>)
      requires Valid() && stack != []
      modifies this, path, path.data
      ensures Valid() && TopReading() && |stack| == |old(stack)|
      ensures forall i | 0 <= i < |skipped| :: skipped[i].kind == KDot
      ensures t.ListDone? ==> !More() && old(Rest()) == skipped + Rest()
      ensures (children != [] <==> t.ListDirectory? && o.recursive) && CanPushAll(children)
      ensures !t.ListDone? ==> old(Rest()) == skipped + [Item(KindOf(t), path.Text())] + RestWith(children)
      decreases |Rest()|
    {
      hide Valid, Rewound, TopReading, CanPush, Rest, RestWith, More;
      skipped, children := [], [];
      if stack[|stack| - 1].done {
        DoneAtEnd();
        return ListDone, [], [];
      }
      Prepare();
      RewoundIsValid();
      var end := EndOfDirectory();
      if end {
        Finish();
        return ListDone, [], [];
      }
      var found;
      found, children := ReadEntry();
      match found
      case Skip =>
        ghost var dot := Item(KDot, path.Text());
        NoChildren();
        t, skipped, children := Next();
        skipped := [dot] + skipped;
      case Plain(kind) => t := if kind == KFile then ListFile else ListLink;
      case Enter(_, _) => t := ListDirectory;
    }

    lemma NoChildren()
      requires Valid()
      ensures CanPushAll([]) && RestWith([]) == Rest()
    {
    }

    /** Puts a directory on the stack, to be opened when it is first read. */
    method Push(ghost child: Level)
      requires CanPush(child)
      modifies this
      ensures Valid() && stack != [] && Rest() == old(RestWith([child]))
    {
      hide LinkChain.Inv, Inherited, Pending, WellFormed, OpenDirectory, PathOk, LevelOk;
      PushChains(links, levels, child);
      PushLower(fs, stack, levels, path.Text(), child);
      stack := stack + [NEW_ENTRY];
      links := LinkChain.Push(links);
      levels := levels + [child];
      assert Top(levels) == child;
    }

    /** Takes the top entry off the stack; its destructor resets its link. */
    method Pop()
      requires Valid() && stack != []
      modifies this
      ensures Valid() && |stack| == |old(stack)| - 1
      ensures old(!More()) ==> Rest() == old(Rest())
    {
      hide LinkChain.Inv, Inherited, Pending, WellFormed, OpenDirectory, PathOk, LevelOk, HasNext;
      PopChains(links, levels);
      PopFacts(fs, o, levels);
      stack := stack[..|stack| - 1];
      links := LinkChain.Pop(links);
      levels := levels[..|levels| - 1];
    }

    /** Stops a listing wherever it is: every link node is freed, none twice. */
    method PopAll()
      requires Valid()
      modifies this
      ensures Valid() && stack == [] && links.nodes == map[]
    {
      hide Base, Fits, TopReading, TopWaiting;
      while stack != []
        invariant Valid()
        decreases |stack|
      {
        Pop();
      }
      EmptyFreed();
    }

    /** The entries still to be reported. */
    ghost function ToReport(): seq<Item>
      reads this, path, path.data
      requires Valid()
    {
      Visible(Rest())
    }

    /**
      One step of the listing.  An entry is reported with its full path and, if
      it is a directory to recurse into, pushed; a finished directory is popped.
     */
    method ListNext() returns (event: Event)
      requires Valid() && stack != []
      modifies this, path, path.data
      ensures Valid()
      ensures event.Report? ==> stack != [] && old(ToReport()) == [event.item] + ToReport()
      ensures event.Continue? ==> stack != [] && |stack| < |old(stack)| && ToReport() == old(ToReport())
      ensures event.Finished? ==> stack == [] && ToReport() == old(ToReport()) == []
    {
      hide Valid, TopReading, TopWaiting, CanPush, Rest, RestWith, More;
      ghost var before := Rest();
      var t, skipped, children := Next();
      SkippedInvisible(skipped);
      if t.ListDone? {
        VisibleAppend(skipped, Rest());
        Pop();
        if stack == [] {
          EmptyFreed();
          return Finished;
        }
        return Continue;
      }
      CurrentPath();
      var item := Item(KindOf(t), path.AsString());
      assert Visible([item]) == [item] by { assert [item][1..] == []; }
      VisibleAppend(skipped, [item] + RestWith(children));
      assert before == skipped + ([item] + RestWith(children));
      VisibleAppend([item], RestWith(children));
      if t.ListDirectory? && o.recursive {
        assert children == [children[0]];
        Push(children[0]);
      } else {
        NoChildren();
      }
      return Report(item);
    }

    /** The path of the current entry, as the buffer holds it. */
    lemma CurrentPath()
      requires Valid()
      ensures path.Whole() && path.AsString() == path.Text()
    {
    }

    lemma EmptyFreed()
      requires Valid() && stack == []
      ensures links.nodes == map[] && Rest() == []
    {
      AllFreed(links);
    }
  }

  /** What a step of the listing reports. */
  datatype Event = Report(item: Item) | Continue | Finished

  /** The items that are reported: all but the dot entries. */
  function Visible(items: seq<Item>): seq<Item> {
    if items == [] then []
    else (if items[0].kind == KDot then [] else [items[0]]) + Visible(items[1..])
  }

  lemma {:induction false} VisibleAppend(a: seq<Item>, b: seq<Item>)
    ensures Visible(a + b) == Visible(a) + Visible(b)
    decreases |a|
  {
    if a == [] {
      assert a + b == b;
    } else {
      assert (a + b)[1..] == a[1..] + b;
      VisibleAppend(a[1..], b);
    }
  }

  lemma {:induction false} SkippedInvisible(skipped: seq<Item>)
    requires forall i | 0 <= i < |skipped| :: skipped[i].kind == KDot
    ensures Visible(skipped) == []
  {
    if skipped != [] { SkippedInvisible(skipped[1..]); }
  }

  lemma StartOk(fs: FileSystem, base: string, root: Ino, o: Options)
    requires WellFormed(fs) && root in fs.dirs && |base| < PATH_MAX && EndsInSlash(base)
    ensures var levels := [Level(root, 0, base, [])];
      && LevelsOk(fs, levels) && Nested(levels) && PathsOk(fs, base, root, levels)
      && ChainsOk(LinkChain.Push(NO_LINKS), levels) && Pending(fs, o, levels) == VisitFrom(fs, o, root, 0, base, [])
      && Waiting(fs, base, root, NEW_ENTRY, levels[0], base, true)
  {
    PushKeepsInv(NO_LINKS);
    NullChain(map[]);
    PendingOne(fs, o, Level(root, 0, base, []));
    assert base[|base|..] == "" && base + "" == base;
  }

  lemma PushChains(links: Links, levels: seq<Level>, child: Level)
    requires ChainsOk(links, levels) && links.held != [] && child.chain == Inherited(links, |links.held|)
    requires links.held[|links.held| - 1].Null? ==> Parent(links.held, |links.held| - 1).Null?
    ensures ChainsOk(LinkChain.Push(links), levels + [child])
  {
    PushKeepsInv(links);
  }

  lemma PushLower(fs: FileSystem, stack: seq<Entry>, levels: seq<Level>, text: string, child: Level)
    requires LowerOk(fs, stack, levels, text) && stack != [] && Reading(fs, stack[|stack| - 1], Top(levels), text)
    requires Nested(levels) && Top(levels).prefix <= child.prefix
    ensures LowerOk(fs, stack + [NEW_ENTRY], levels + [child], text) && Nested(levels + [child])
  {
  }

  lemma PopChains(links: Links, levels: seq<Level>)
    requires ChainsOk(links, levels) && levels != []
    ensures ChainsOk(LinkChain.Pop(links), levels[..|levels| - 1])
  {
    PopKeepsInv(links);
  }

  lemma PopFacts(fs: FileSystem, o: Options, levels: seq<Level>)
    requires WellFormed(fs) && LevelsOk(fs, levels) && levels != [] && Fits(fs, o, levels)
    ensures LevelsOk(fs, levels[..|levels| - 1]) && Fits(fs, o, levels[..|levels| - 1])
    ensures !HasNext(fs, levels) ==> Pending(fs, o, levels[..|levels| - 1]) == Pending(fs, o, levels)
  {
    hide Pending, Fits, WellFormed, HasNext, LevelOk;
    if !HasNext(fs, levels) { FinishedPending(fs, o, levels); }
    var front, top := levels[..|levels| - 1], [Top(levels)];
    assert levels == front + top;
    FitsBelow(fs, o, front, top);
  }

  lemma FitsBelow(fs: FileSystem, o: Options, front: seq<Level>, top: seq<Level>)
    requires WellFormed(fs) && LevelsOk(fs, front) && LevelsOk(fs, top) && LevelsOk(fs, front + top)
    requires Fits(fs, o, front + top)
    ensures Fits(fs, o, front)
  {
    hide Pending, WellFormed, LevelsOk;
    PendingAppend(fs, o, front, top);
    var rest, own := Pending(fs, o, front), Pending(fs, o, top);
    assert forall i | 0 <= i < |rest| :: rest[i] == (own + rest)[|own| + i];
  }

  function FoundKind(found: Found): Kind {
    match found
    case Skip => KDot
    case Plain(kind) => kind
    case Enter(_, _) => KDirectory
  }

  function KindOf(t: ListType): Kind {
    match t
    case ListFile => KFile
    case ListDirectory => KDirectory
    case ListLink => KLink
    case ListDone => KDot
  }

  /** The levels when the innermost has read one entry, before anything is pushed. */
  ghost function Advanced(levels: seq<Level>): seq<Level>
    requires levels != []
  {
    levels[|levels| - 1 := Top(levels).(pos := Top(levels).pos + 1)]
  }

  lemma StepEntry(fs: FileSystem, o: Options, levels: seq<Level>)
    requires WellFormed(fs) && LevelsOk(fs, levels) && levels != [] && HasNext(fs, levels)
    ensures LevelOk(fs, Top(levels))
    ensures var e := NextEntry(fs, Top(levels)); CString(e.name) && (IsDot(e.name) ==> e.node.Directory?)
  {
    var l := Top(levels);
    assert LevelOk(fs, l) && DirOk(fs, l.dir);
    assert DirectoryTree.EntryOk(fs, l.dir, NextEntry(fs, l));
  }

  lemma StepPaths(fs: FileSystem, base: string, root: Ino, levels: seq<Level>)
    requires levels != [] && LevelsOk(fs, levels) && HasNext(fs, levels) && Nested(levels) && PathsOk(fs, base, root, levels)
    ensures LevelsOk(fs, Advanced(levels)) && Nested(Advanced(levels)) && PathsOk(fs, base, root, Advanced(levels))
  {
    hide OpenDirectory;
    assert LevelOk(fs, Top(levels)) && PathOk(fs, base, root, Top(levels));
  }

  /** A directory to recurse into is a level that waits for the path just formed to be opened. */
  lemma ChildFacts(fs: FileSystem, o: Options, base: string, root: Ino, levels: seq<Level>)
    requires WellFormed(fs) && LevelsOk(fs, levels) && levels != [] && HasNext(fs, levels) && Fits(fs, o, levels)
    requires PathsOk(fs, base, root, levels)
    requires LevelOk(fs, Top(levels)) && NextFound(fs, o, Top(levels)).Enter? && o.recursive
    ensures var child := ChildLevel(fs, Top(levels), NextFound(fs, o, Top(levels)));
      && LevelOk(fs, child) && PathOk(fs, base, root, child)
      && LevelsOk(fs, Advanced(levels) + [child]) && Fits(fs, o, Advanced(levels) + [child])
      && Waiting(fs, base, root, NEW_ENTRY, child, Top(levels).prefix + NextEntry(fs, Top(levels)).name, false)
      && Top(Advanced(levels)).prefix <= child.prefix
  {
    hide Pending, OpenDirectory;
    var l := Top(levels);
    assert PathOk(fs, base, root, l);
    StepFits(fs, o, levels);
    ChildPath(fs, base, root, o, l);
    ChildOk(fs, o, l);
    assert LevelOk(fs, Children(fs, o, l)[0]);
  }

  lemma StepChains(links: Links, levels: seq<Level>)
    requires levels != [] && ChainsOk(links, levels)
    ensures ChainsOk(links, Advanced(levels))
  {
  }

  lemma StepFits(fs: FileSystem, o: Options, levels: seq<Level>)
    requires WellFormed(fs) && LevelsOk(fs, levels) && levels != [] && HasNext(fs, levels) && Fits(fs, o, levels)
    ensures LevelOk(fs, Top(levels)) && LevelsOk(fs, Advanced(levels))
    ensures |Top(levels).prefix + NextEntry(fs, Top(levels)).name| < PATH_MAX
    ensures NextFound(fs, o, Top(levels)).Enter? && o.recursive ==> |Top(levels).prefix + NextEntry(fs, Top(levels)).name| + 1 < PATH_MAX
    ensures Fits(fs, o, Advanced(levels))
    ensures LevelsOk(fs, Advanced(levels) + Children(fs, o, Top(levels)))
    ensures Fits(fs, o, Advanced(levels) + Children(fs, o, Top(levels)))
    ensures Pending(fs, o, levels) ==
      [NextItem(fs, o, Top(levels))] + Pending(fs, o, Advanced(levels) + Children(fs, o, Top(levels)))
  {
    hide Pending, Children, LevelOk;
    var l := Top(levels);
    assert LevelOk(fs, l);
    AdvancePending(fs, o, levels);
    AdvancedOk(fs, l);
    ChildOk(fs, o, l);
    var levels', children := Advanced(levels), Children(fs, o, l);
    assert levels' == levels[..|levels| - 1] + [l.(pos := l.pos + 1)];
    PendingAppend(fs, o, levels', children);
    var all, rest := Pending(fs, o, levels), Pending(fs, o, levels' + children);
    assert all[0] == NextItem(fs, o, l);
    assert forall i | 0 <= i < |rest| :: rest[i] == all[i + 1];
    var more, own := Pending(fs, o, children), Pending(fs, o, levels');
    assert forall i | 0 <= i < |own| :: own[i] == rest[|more| + i];
  }

  lemma LowerLess(fs: FileSystem, stack: seq<Entry>, levels: seq<Level>, text: string)
    requires LowerOk(fs, stack, levels, text) && Nested(levels) && levels != []
    ensures LowerOk(fs, stack, levels, Top(levels).prefix)
  {
  }

  /** After a rewind the top entry holds its parent's chain. */
  lemma HeldInherits(links: Links, levels: seq<Level>)
    requires ChainsOk(links, levels) && levels != []
    requires links.held[|levels| - 1] == Parent(links.held, |levels| - 1)
    ensures LinkChain.Inv(links) && Inherited(links, |levels|) == Top(levels).chain
  {
  }

  /** The chains after an entry was inspected, and the chain that a child will inherit. */
  lemma InspectChains(links: Links, levels: seq<Level>, found: Found, chain: seq<LinkId>)
    requires ChainsOk(links, levels) && levels != [] && chain == Top(levels).chain
    requires links.held[|levels| - 1] == Parent(links.held, |levels| - 1)
    requires found.Enter? && found.via.Through? ==> found.via.id !in chain
    ensures var links' := if found.Enter? && found.via.Through? then LinkChain.Follow(links, found.via.id) else links;
      && ChainsOk(links', levels)
      && (found.Enter? ==> Inherited(links', |levels|) == Extend(chain, found.via))
      && (links'.held[|levels| - 1].Null? ==> Parent(links'.held, |levels| - 1).Null?)
  {
    if found.Enter? && found.via.Through? { FollowKeepsInv(links, found.via.id); }
  }

  lemma ResetChainsOk(links: Links, levels: seq<Level>)
    requires ChainsOk(links, levels) && levels != []
    ensures ChainsOk(LinkChain.Reset(links), levels)
    ensures Inherited(LinkChain.Reset(links), |levels|) == Top(levels).chain
  {
    ResetKeepsInv(links);
    ResetKeepsChains(links);
  }

  lemma LowerMore(fs: FileSystem, stack: seq<Entry>, levels: seq<Level>, text: string, text': string)
    requires LowerOk(fs, stack, levels, text) && text <= text'
    ensures LowerOk(fs, stack, levels, text')
  {
  }
}
