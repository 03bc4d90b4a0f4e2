/**
  A file system as the kernel presents it to path-based calls: a tree of files,
  directories and symbolic links, and the resolution of a path in it.  A link is
  followed on the way; at the end of a path it is followed only when the path
  goes on after it, be it by a slash.
 */
module Disk {
  import opened PathNames

  /** A node, by the names on the way from the root. */
  type Place = seq<string>

  /** A link is given with the node it leads to in the end. */
  datatype Node = File | Directory | Link(target: Place)

  type Tree = map<Place, Node>

  ghost predicate TreeOk(nodes: Tree) {
    forall p | p in nodes :: NodeOk(nodes, p)
  }

  /** A node's parent is a directory, so links have nothing below them. */
  ghost predicate NodeOk(nodes: Tree, p: Place) {
    p != [] ==>
      && OrdinaryName(p[|p| - 1])
      && p[..|p| - 1] in nodes && nodes[p[..|p| - 1]] == Directory
  }

  lemma NodeIsOk(nodes: Tree, p: Place)
    requires TreeOk(nodes) && p in nodes
    ensures NodeOk(nodes, p)
  {
  }

  // ----- Resolving paths

  datatype Found = Missing | At(place: Place)

  /** The node itself, or what it leads to if it is a link. */
  function Follow(nodes: Tree, p: Place): Found {
    if p !in nodes then Missing
    else if !nodes[p].Link? then At(p)
    else if nodes[p].target in nodes && !nodes[nodes[p].target].Link? then At(nodes[p].target)
    else Missing
  }

  /** One component of a path that goes on: it must lead to a directory. */
  function StepInto(nodes: Tree, dir: Place, name: string): Found {
    if name == "." then At(dir)
    else if name == ".." then At(if dir == [] then [] else dir[..|dir| - 1])
    else match Follow(nodes, dir + [name])
         case Missing => Missing
         case At(p) => if nodes[p] == Directory then At(p) else Missing
  }

  function WalkInto(nodes: Tree, dir: Place, names: seq<string>): Found
    decreases |names|
  {
    if names == [] then At(dir)
    else match StepInto(nodes, dir, names[0])
         case Missing => Missing
         case At(d) => WalkInto(nodes, d, names[1..])
  }

  function Start(cwd: Place, text: string): Place {
    if Rooted(text) then [] else cwd
  }

  /** The directory that a path leads to when it goes on. */
  function Dir(nodes: Tree, cwd: Place, text: string): Found {
    WalkInto(nodes, Start(cwd, text), Components(text))
  }

  function Child(nodes: Tree, dir: Found, name: string): (r: Found)
    ensures r.At? ==> r.place in nodes
  {
    match dir
    case Missing => Missing
    case At(d) => if d + [name] in nodes then At(d + [name]) else Missing
  }

  /** The directory entry that a path names, slashes after the name ignored. */
  function Entry(nodes: Tree, cwd: Place, text: string): (r: Found)
    ensures r.At? ==> r.place in nodes
  {
    var names := Components(text);
    if names == [] || IsDot(names[|names| - 1]) then Missing
    else Child(nodes, WalkInto(nodes, Start(cwd, text), names[..|names| - 1]), names[|names| - 1])
  }

  /** Whether a path goes on after its last name. */
  predicate GoesOn(text: string) {
    EndsInSlash(text) || (Components(text) != [] && IsDot(Components(text)[|Components(text)| - 1]))
  }

  /** The node that a path denotes, when a link at its end is not to be followed. */
  function Look(nodes: Tree, cwd: Place, text: string): (r: Found)
    ensures r.At? ==> r.place in nodes
  {
    if !GoesOn(text) then Entry(nodes, cwd, text)
    else match Dir(nodes, cwd, text)
         case Missing => Missing
         case At(p) => if p in nodes && nodes[p] == Directory then At(p) else Missing
  }

  /** A tree with fewer nodes. */
  ghost predicate Sub(nodes': Tree, nodes: Tree) {
    forall p | p in nodes' :: p in nodes && nodes'[p] == nodes[p]
  }

  lemma {:induction false} WalkMonotone(nodes': Tree, nodes: Tree, dir: Place, names: seq<string>)
    requires Sub(nodes', nodes) && WalkInto(nodes', dir, names).At?
    ensures WalkInto(nodes, dir, names) == WalkInto(nodes', dir, names)
    decreases |names|
  {
    if names != [] {
      var d := StepInto(nodes', dir, names[0]);
      assert StepInto(nodes, dir, names[0]) == d;
      WalkMonotone(nodes', nodes, d.place, names[1..]);
    }
  }

  /** Removing nodes can make a path lead nowhere, but not somewhere else. */
  lemma LookMonotone(nodes': Tree, nodes: Tree, cwd: Place, text: string)
    requires Sub(nodes', nodes)
    ensures Dir(nodes', cwd, text).At? ==> Dir(nodes, cwd, text) == Dir(nodes', cwd, text)
    ensures Entry(nodes', cwd, text).At? ==> Entry(nodes, cwd, text) == Entry(nodes', cwd, text)
    ensures Look(nodes', cwd, text).At? ==> Look(nodes, cwd, text) == Look(nodes', cwd, text)
  {
    var names, dir := Components(text), Start(cwd, text);
    if Dir(nodes', cwd, text).At? { WalkMonotone(nodes', nodes, dir, names); }
    if Entry(nodes', cwd, text).At? { WalkMonotone(nodes', nodes, dir, names[..|names| - 1]); }
  }

  lemma {:induction false} WalkIntoSnoc(nodes: Tree, dir: Place, names: seq<string>, name: string)
    ensures WalkInto(nodes, dir, names + [name]) ==
      match WalkInto(nodes, dir, names) case Missing => Missing case At(d) => StepInto(nodes, d, name)
    decreases |names|
  {
    if names == [] {
      assert ([] + [name])[1..] == [];
    } else {
      assert (names + [name])[1..] == names[1..] + [name];
      var d := StepInto(nodes, dir, names[0]);
      if d.At? { WalkIntoSnoc(nodes, d.place, names[1..], name); }
    }
  }

  /** A slash after a path to a directory changes nothing. */
  lemma SlashAfter(nodes: Tree, cwd: Place, text: string)
    requires text != ""
    ensures Components(text + "/") == Components(text) && Start(cwd, text + "/") == Start(cwd, text)
    ensures Dir(nodes, cwd, text + "/") == Dir(nodes, cwd, text) && Entry(nodes, cwd, text + "/") == Entry(nodes, cwd, text)
    ensures var q := Look(nodes, cwd, text); q.At? && nodes[q.place] == Directory ==> Dir(nodes, cwd, text) == q
  {
    assert text + "/" + "" == text + "/";
    ComponentsAppend(text, "");
    var names := Components(text);
    if names != [] {
      assert names == names[..|names| - 1] + [names[|names| - 1]];
      WalkIntoSnoc(nodes, Start(cwd, text), names[..|names| - 1], names[|names| - 1]);
    }
  }

  /** A name after a slash is looked up in the directory before it. */
  lemma NameAfter(nodes: Tree, cwd: Place, text: string, name: string)
    requires EndsInSlash(text) && OrdinaryName(name)
    ensures var child := Child(nodes, Dir(nodes, cwd, text), name);
      !GoesOn(text + name) && Look(nodes, cwd, text + name) == child && Entry(nodes, cwd, text + name) == child
  {
    ComponentsExtend(text, name);
    SlashFree(text, name);
    hide Components, WalkInto, ValidName, CString, EndsInSlash;
    assert (Components(text) + [name])[..|Components(text)|] == Components(text);
    assert Start(cwd, text + name) == Start(cwd, text);
  }

  lemma SlashFree(text: string, name: string)
    requires ValidName(name)
    ensures !EndsInSlash(text + name) && (text != "" ==> Rooted(text + name) == Rooted(text))
  {
    assert (text + name)[|text + name| - 1] == name[|name| - 1] && name[|name| - 1] in name;
  }

  lemma DotAfter(nodes: Tree, cwd: Place, text: string, name: string)
    requires EndsInSlash(text) && IsDot(name)
    ensures GoesOn(text + name) && Entry(nodes, cwd, text + name) == Missing
    ensures Dir(nodes, cwd, text).At? ==> Dir(nodes, cwd, text + name) == StepInto(nodes, Dir(nodes, cwd, text).place, name)
  {
    ComponentsExtend(text, name);
    WalkIntoSnoc(nodes, Start(cwd, text), Components(text), name);
  }

  // ----- What a resolution depends on

  function Touched(nodes: Tree, dir: Place, name: string): set<Place> {
    if IsDot(name) then {}
    else if dir + [name] in nodes && nodes[dir + [name]].Link? then {dir + [name], nodes[dir + [name]].target}
    else {dir + [name]}
  }

  /** The nodes that a path passes. */
  function Trail(nodes: Tree, dir: Place, names: seq<string>): set<Place>
    decreases |names|
  {
    if names == [] then {}
    else match StepInto(nodes, dir, names[0])
         case Missing => {}
         case At(d) => Touched(nodes, dir, names[0]) + Trail(nodes, d, names[1..])
  }

  lemma {:induction false} TrailExists(nodes: Tree, dir: Place, names: seq<string>)
    ensures Trail(nodes, dir, names) <= nodes.Keys
    decreases |names|
  {
    if names != [] && StepInto(nodes, dir, names[0]).At? {
      TrailExists(nodes, StepInto(nodes, dir, names[0]).place, names[1..]);
    }
  }

  lemma {:induction false} TrailSnoc(nodes: Tree, dir: Place, names: seq<string>, name: string)
    requires WalkInto(nodes, dir, names + [name]).At?
    ensures WalkInto(nodes, dir, names).At?
    ensures Trail(nodes, dir, names + [name]) ==
      Trail(nodes, dir, names) + Touched(nodes, WalkInto(nodes, dir, names).place, name)
    decreases |names|
  {
    WalkIntoSnoc(nodes, dir, names, name);
    if names == [] {
      assert ([] + [name])[1..] == [];
    } else {
      assert (names + [name])[1..] == names[1..] + [name];
      TrailSnoc(nodes, StepInto(nodes, dir, names[0]).place, names[1..], name);
    }
  }

  /** As long as the nodes it passes are there, a path leads to the same place. */
  lemma {:induction false} WalkFrame(nodes: Tree, nodes': Tree, dir: Place, names: seq<string>)
    requires Sub(nodes', nodes) && WalkInto(nodes, dir, names).At? && Trail(nodes, dir, names) <= nodes'.Keys
    ensures WalkInto(nodes', dir, names) == WalkInto(nodes, dir, names)
    ensures Trail(nodes', dir, names) == Trail(nodes, dir, names)
    decreases |names|
  {
    if names != [] {
      var d := StepInto(nodes, dir, names[0]).place;
      assert Touched(nodes, dir, names[0]) <= Trail(nodes, dir, names);
      StepFrame(nodes, nodes', dir, names[0]);
      WalkFrame(nodes, nodes', d, names[1..]);
    }
  }

  lemma StepFrame(nodes: Tree, nodes': Tree, dir: Place, name: string)
    requires Sub(nodes', nodes) && StepInto(nodes, dir, name).At? && Touched(nodes, dir, name) <= nodes'.Keys
    ensures StepInto(nodes', dir, name) == StepInto(nodes, dir, name)
    ensures Touched(nodes', dir, name) == Touched(nodes, dir, name)
  {
    if !IsDot(name) {
      assert dir + [name] in Touched(nodes, dir, name);
      if nodes[dir + [name]].Link? {
        assert nodes[dir + [name]].target in Touched(nodes, dir, name);
      }
    }
  }

  // ----- System calls

  /** An entry of a directory stream; on some file systems its type is not reported. */
  datatype StreamEntry = StreamEntry(name: string, known: bool, node: Node)

  predicate IsChild(at: Place, p: Place) {
    |p| == |at| + 1 && at <= p
  }

  predicate Childless(nodes: Tree, at: Place) {
    forall p | p in nodes :: at <= p ==> p == at
  }

  /** A stream entry is a dot entry or a node of the directory, with its type. */
  ghost predicate EntryOk(nodes: Tree, at: Place, e: StreamEntry) {
    if IsDot(e.name) then e.node == Directory
    else OrdinaryName(e.name) && at + [e.name] in nodes && nodes[at + [e.name]] == e.node
  }

  ghost predicate Lists(entries: seq<StreamEntry>, name: string) {
    exists i :: 0 <= i < |entries| && entries[i].name == name
  }

  /** The entries of a directory: its nodes and the two dot entries, and nothing else. */
  ghost predicate Stream(nodes: Tree, at: Place, entries: seq<StreamEntry>, typesDots: bool) {
    && (forall i | 0 <= i < |entries| :: EntryOk(nodes, at, entries[i]))
    && (forall i | 0 <= i < |entries| && IsDot(entries[i].name) :: entries[i].known == typesDots)
    && (forall name | at + [name] in nodes :: Lists(entries, name))
    && Lists(entries, ".") && Lists(entries, "..")
    && (forall i, j | 0 <= i < j < |entries| :: entries[i].name != entries[j].name)
  }

  /**
    `faulty` allows any call to fail for reasons of its own; `typesDots` tells
    whether reading a directory reports the type of the dot entries.
   */
  class Kernel {
    var nodes: Tree
    const cwd: Place
    const faulty: bool
    const typesDots: bool

    constructor (nodes: Tree, cwd: Place, faulty: bool, typesDots: bool)
      ensures this.nodes == nodes && this.cwd == cwd && this.faulty == faulty && this.typesDots == typesDots
    {
      this.nodes, this.cwd, this.faulty, this.typesDots := nodes, cwd, faulty, typesDots;
    }

    /** The status of a node, not following a link at the end of the path. */
    method Lstat(text: string) returns (ok: bool, node: Node)
      ensures ok ==> Look(nodes, cwd, text).At? && Look(nodes, cwd, text).place in nodes
      ensures ok ==> node == nodes[Look(nodes, cwd, text).place]
      ensures !ok ==> faulty || Look(nodes, cwd, text).Missing?
    {
      var fails: bool := *;
      var found := Look(nodes, cwd, text);
      ok := !(faulty && fails) && found.At?;
      node := if ok then nodes[found.place] else File;
    }

    /** Removes an entry that is not a directory; a path with a slash at its end is refused. */
    method Unlink(text: string) returns (ok: bool)
      modifies this`nodes
      ensures ok ==> !EndsInSlash(text) && Entry(old(nodes), cwd, text).At?
      ensures ok ==> var p := Entry(old(nodes), cwd, text).place;
        p in old(nodes) && old(nodes)[p] != Directory && nodes == old(nodes) - {p}
      ensures !ok ==> nodes == old(nodes)
      ensures !ok ==> faulty || EndsInSlash(text) || Entry(nodes, cwd, text).Missing?
                      || nodes[Entry(nodes, cwd, text).place] == Directory
    {
      var fails: bool := *;
      var found := Entry(nodes, cwd, text);
      ok := !(faulty && fails) && !EndsInSlash(text) && found.At? && nodes[found.place] != Directory;
      if ok {
        nodes := nodes - {found.place};
      }
    }

    /** Removes an empty directory by its entry; a link is refused even with a slash after it. */
    method Rmdir(text: string) returns (ok: bool)
      modifies this`nodes
      ensures ok ==> Entry(old(nodes), cwd, text).At?
      ensures ok ==> var p := Entry(old(nodes), cwd, text).place;
        p in old(nodes) && old(nodes)[p] == Directory && Childless(old(nodes), p) && nodes == old(nodes) - {p}
      ensures !ok ==> nodes == old(nodes)
      ensures !ok ==> faulty || Entry(nodes, cwd, text).Missing?
                      || nodes[Entry(nodes, cwd, text).place] != Directory
                      || !Childless(nodes, Entry(nodes, cwd, text).place)
    {
      var fails: bool := *;
      var found := Entry(nodes, cwd, text);
      ok := !(faulty && fails) && found.At? && nodes[found.place] == Directory && Childless(nodes, found.place);
      if ok {
        nodes := nodes - {found.place};
      }
    }

    /** Opens a directory, through a link too, and reads its entries, in any order. */
    method ReadDirectory(text: string) returns (ok: bool, entries: seq<StreamEntry>)
      requires TreeOk(nodes)
      ensures ok ==> Dir(nodes, cwd, text).At? && Stream(nodes, Dir(nodes, cwd, text).place, entries, typesDots)
      ensures !ok ==> faulty || Dir(nodes, cwd, text).Missing?
    {
      var fails: bool := *;
      var found := Dir(nodes, cwd, text);
      ok := !(faulty && fails) && found.At?;
      entries := [StreamEntry(".", typesDots, Directory), StreamEntry("..", typesDots, Directory)];
      if !ok {
        return;
      }
      var at := found.place;
      var left := set p | p in nodes && IsChild(at, p);
      NothingRead(nodes, at, entries, left, typesDots);
      while left != {}
        invariant ReadSoFar(nodes, at, entries, left, typesDots)
        decreases |left|
      {
        hide ReadSoFar;
        var p :| p in left;
        var typed: bool := *;
        ReadOne(nodes, at, entries, left, p, typed, typesDots);
        left := left - {p};
        entries := entries + [StreamEntry(p[|at|], typed, nodes[p])];
      }
      AllRead(nodes, at, entries, typesDots);
    }
  }

  /** A directory stream from which the children in `left` are still to come. */
  ghost predicate ReadSoFar(nodes: Tree, at: Place, entries: seq<StreamEntry>, left: set<Place>, typesDots: bool) {
    && (forall p | p in left :: p in nodes && IsChild(at, p))
    && (forall i | 0 <= i < |entries| :: EntryOk(nodes, at, entries[i]))
    && (forall i | 0 <= i < |entries| && IsDot(entries[i].name) :: entries[i].known == typesDots)
    && Lists(entries, ".") && Lists(entries, "..")
    && (forall p | p in nodes && IsChild(at, p) && p !in left :: Lists(entries, p[|at|]))
    && (forall i | 0 <= i < |entries| :: IsDot(entries[i].name) || at + [entries[i].name] !in left)
    && (forall i, j | 0 <= i < j < |entries| :: entries[i].name != entries[j].name)
  }

  lemma NothingRead(nodes: Tree, at: Place, entries: seq<StreamEntry>, left: set<Place>, typesDots: bool)
    requires entries == [StreamEntry(".", typesDots, Directory), StreamEntry("..", typesDots, Directory)]
    requires left == set p | p in nodes && IsChild(at, p)
    ensures ReadSoFar(nodes, at, entries, left, typesDots)
  {
    assert entries[0].name == "." && entries[1].name == "..";
  }

  lemma ReadOne(nodes: Tree, at: Place, entries: seq<StreamEntry>, left: set<Place>, p: Place, typed: bool, typesDots: bool)
    requires TreeOk(nodes) && ReadSoFar(nodes, at, entries, left, typesDots) && p in left
    ensures p in nodes && IsChild(at, p)
    ensures ReadSoFar(nodes, at, entries + [StreamEntry(p[|at|], typed, nodes[p])], left - {p}, typesDots)
  {
    hide OrdinaryName, IsDot;
    ChildName(nodes, at, p);
    ListsMore(entries, StreamEntry(p[|at|], typed, nodes[p]));
    NotDot(p[|at|]);
  }

  lemma NotDot(name: string)
    requires OrdinaryName(name)
    ensures !IsDot(name) && CString(name)
  {
  }

  lemma AllRead(nodes: Tree, at: Place, entries: seq<StreamEntry>, typesDots: bool)
    requires ReadSoFar(nodes, at, entries, {}, typesDots)
    ensures Stream(nodes, at, entries, typesDots)
  {
    hide IsDot, EntryOk;
    forall name | at + [name] in nodes ensures Lists(entries, name) {
      assert IsChild(at, at + [name]);
    }
  }

  lemma ChildName(nodes: Tree, at: Place, p: Place)
    requires TreeOk(nodes) && p in nodes && IsChild(at, p)
    ensures p == at + [p[|at|]] && OrdinaryName(p[|at|])
  {
    hide TreeOk, OrdinaryName;
    NodeIsOk(nodes, p);
  }

  lemma ListsMore(entries: seq<StreamEntry>, e: StreamEntry)
    ensures Lists(entries + [e], e.name)
    ensures forall name | Lists(entries, name) :: Lists(entries + [e], name)
  {
    assert (entries + [e])[|entries|] == e;
    forall name | Lists(entries, name) ensures Lists(entries + [e], name) {
      var i :| 0 <= i < |entries| && entries[i].name == name;
      assert (entries + [e])[i].name == name;
    }
  }
}
