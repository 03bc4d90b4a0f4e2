/**
  Recursive deletion (`DeleteRecursively`, `DeleteDir`, `DeleteFile`) with one
  shared path buffer, over a file system whose calls may fail at any time.
 */
module RecursiveDelete {
  import opened PathNames
  import opened PathBuffer
  import opened Disk

  // ----- What deleting subtrees does to a tree

  /** The tree without everything from `at` down. */
  function Without(nodes: Tree, at: Place): Tree {
    map p | p in nodes && !(at <= p) :: nodes[p]
  }

  /** The tree with nothing left below `at`. */
  function Emptied(nodes: Tree, at: Place): Tree {
    map p | p in nodes && !(at < p) :: nodes[p]
  }

  /** Only nodes from `at` down are missing, and nothing else changed. */
  ghost predicate OnlyBelow(before: Tree, after: Tree, at: Place) {
    Sub(after, before) && forall p | p in before && !(at <= p) :: p in after
  }

  /** Only nodes further down than `at` are missing. */
  ghost predicate Inside(before: Tree, after: Tree, at: Place) {
    Sub(after, before) && forall p | p in before && !(at < p) :: p in after
  }

  lemma WithoutKeepsTree(nodes: Tree, at: Place)
    requires TreeOk(nodes)
    ensures TreeOk(Without(nodes, at)) && OnlyBelow(nodes, Without(nodes, at), at)
  {
    forall p | p in Without(nodes, at) ensures NodeOk(Without(nodes, at), p) {
      assert NodeOk(nodes, p);
    }
  }

  lemma InsideTrans(a: Tree, b: Tree, c: Tree, at: Place)
    requires Inside(a, b, at) && Inside(b, c, at)
    ensures Inside(a, c, at)
  {
  }

  lemma BelowChild(before: Tree, after: Tree, at: Place, name: string)
    requires OnlyBelow(before, after, at + [name])
    ensures Inside(before, after, at)
  {
    forall p | p in before && !(at < p) ensures p in after {
      assert !(at + [name] <= p);
    }
  }

  lemma {:induction false} AncestorIn(nodes: Tree, p: Place, n: nat)
    requires TreeOk(nodes) && p in nodes && n <= |p|
    ensures p[..n] in nodes && (n < |p| ==> nodes[p[..n]] == Directory)
    decreases |p|
  {
    hide TreeOk, OrdinaryName;
    if n < |p| {
      NodeIsOk(nodes, p);
      AncestorIn(nodes, p[..|p| - 1], n);
      assert p[..|p| - 1][..n] == p[..n];
    } else {
      assert p[..n] == p;
    }
  }

  /** A node that is not a directory is a whole subtree. */
  lemma LeafWithout(nodes: Tree, at: Place)
    requires TreeOk(nodes) && at in nodes && nodes[at] != Directory
    ensures nodes - {at} == Without(nodes, at)
  {
    forall p | p in nodes && at <= p ensures p != at ==> nodes[at] == Directory {
      AncestorIn(nodes, p, |at|);
      assert p[..|at|] == at;
    }
  }

  /** Removing a directory that has become empty completes the deletion of its subtree. */
  lemma RemovedLast(before: Tree, now: Tree, at: Place)
    requires Inside(before, now, at) && Childless(now, at)
    ensures now == Emptied(before, at) && now - {at} == Without(before, at)
  {
    forall p ensures p in now <==> p in Emptied(before, at) {
      if p in before && !(at < p) { assert p in now; }
    }
    forall p ensures p in now - {at} <==> p in Without(before, at) {
      if p in before && !(at <= p) { assert p in now; }
    }
  }

  /** The tree after the entries of a directory have been deleted one by one. */
  function Pruned(nodes: Tree, at: Place, entries: seq<StreamEntry>): Tree {
    if entries == [] then nodes else
    var last := entries[|entries| - 1];
    var rest := Pruned(nodes, at, entries[..|entries| - 1]);
    if IsDot(last.name) then rest else Without(rest, at + [last.name])
  }

  lemma PrunedStep(nodes: Tree, at: Place, entries: seq<StreamEntry>, i: nat)
    requires i < |entries|
    ensures Pruned(nodes, at, entries[..i + 1]) ==
      if IsDot(entries[i].name) then Pruned(nodes, at, entries[..i])
      else Without(Pruned(nodes, at, entries[..i]), at + [entries[i].name])
  {
    hide IsDot;
    assert entries[..i + 1][..i] == entries[..i];
  }

  /** Exactly the nodes below a deleted entry are gone. */
  lemma {:induction false} PrunedAt(nodes: Tree, at: Place, entries: seq<StreamEntry>, p: Place)
    ensures p in Pruned(nodes, at, entries) <==>
      p in nodes && forall i | 0 <= i < |entries| :: IsDot(entries[i].name) || !(at + [entries[i].name] <= p)
    ensures p in Pruned(nodes, at, entries) ==> Pruned(nodes, at, entries)[p] == nodes[p]
    decreases |entries|
  {
    hide IsDot;
    if entries != [] {
      var front := entries[..|entries| - 1];
      PrunedAt(nodes, at, front, p);
      assert forall i | 0 <= i < |front| :: front[i] == entries[i];
    }
  }

  /** A node further down lies below one of the entries. */
  lemma Covered(nodes: Tree, at: Place, entries: seq<StreamEntry>, typesDots: bool, p: Place)
    requires TreeOk(nodes) && Stream(nodes, at, entries, typesDots) && p in nodes && at < p
    ensures exists i :: 0 <= i < |entries| && !IsDot(entries[i].name) && at + [entries[i].name] <= p
  {
    hide TreeOk, NodeOk;
    var name := p[|at|];
    AncestorIn(nodes, p, |at| + 1);
    assert p[..|at| + 1] == at + [name];
    ChildName(nodes, at, at + [name]);
    assert Lists(entries, name);
    var i :| 0 <= i < |entries| && entries[i].name == name;
    assert at + [entries[i].name] <= p;
  }

  /** Once all entries are gone the directory is empty. */
  lemma PrunedAll(nodes: Tree, at: Place, entries: seq<StreamEntry>, typesDots: bool)
    requires TreeOk(nodes) && Stream(nodes, at, entries, typesDots)
    ensures Childless(Pruned(nodes, at, entries), at)
  {
    hide IsDot, Stream, TreeOk;
    forall p | p in Pruned(nodes, at, entries) ensures !(at < p) {
      PrunedAt(nodes, at, entries, p);
      if at < p { Covered(nodes, at, entries, typesDots, p); }
    }
  }

  // ----- The lengths of paths

  /** The length of the text for the names, each after a slash. */
  function TextLength(names: seq<string>): nat {
    if names == [] then 0 else 1 + |names[0]| + TextLength(names[1..])
  }

  /** How long the buffer gets for node `p`, when it is `n` long for node `at`. */
  function LengthFor(n: nat, at: Place, p: Place): nat
    requires at <= p
  {
    n + TextLength(p[|at|..])
  }

  /** A path fits if it is shorter than PATH_MAX; a directory needs room for untyped dot entries too. */
  predicate FitsNode(node: Node, length: nat, typesDots: bool) {
    length < PATH_MAX && (node == Directory && !typesDots ==> length + 3 <= PATH_MAX)
  }

  /** Every path from `at` down fits. */
  ghost predicate Fits(nodes: Tree, at: Place, n: nat, typesDots: bool) {
    forall p | p in nodes && at <= p :: FitsNode(nodes[p], LengthFor(n, at, p), typesDots)
  }

  /** Only nodes whose paths fit are ever removed. */
  ghost predicate RemovedFit(before: Tree, after: Tree, at: Place, n: nat, typesDots: bool) {
    forall p | p in before && p !in after :: at <= p && FitsNode(before[p], LengthFor(n, at, p), typesDots)
  }

  lemma LengthForChild(n: nat, at: Place, name: string, p: Place)
    requires at + [name] <= p
    ensures at <= p && LengthFor(n, at, p) == LengthFor(n + 1 + |name|, at + [name], p)
  {
    assert p[|at|..][1..] == p[|at + [name]|..];
    assert p[|at|..][0] == (at + [name])[|at|];
  }

  lemma LengthForSelf(n: nat, at: Place)
    ensures LengthFor(n, at, at) == n
  {
    assert at[|at|..] == [];
  }

  lemma FitsChild(nodes: Tree, nodes': Tree, at: Place, n: nat, name: string, typesDots: bool)
    requires Fits(nodes, at, n, typesDots) && Sub(nodes', nodes)
    ensures Fits(nodes', at + [name], n + 1 + |name|, typesDots)
  {
    forall p | p in nodes' && at + [name] <= p
      ensures FitsNode(nodes'[p], LengthFor(n + 1 + |name|, at + [name], p), typesDots)
    {
      LengthForChild(n, at, name, p);
    }
  }

  lemma RemovedFitChild(before: Tree, after: Tree, at: Place, n: nat, name: string, typesDots: bool)
    requires RemovedFit(before, after, at + [name], n + 1 + |name|, typesDots)
    ensures RemovedFit(before, after, at, n, typesDots)
  {
    forall p | p in before && p !in after
      ensures at <= p && FitsNode(before[p], LengthFor(n, at, p), typesDots)
    {
      LengthForChild(n, at, name, p);
    }
  }

  lemma RemovedFitTrans(a: Tree, b: Tree, c: Tree, at: Place, n: nat, typesDots: bool)
    requires Sub(b, a) && RemovedFit(a, b, at, n, typesDots) && RemovedFit(b, c, at, n, typesDots)
    ensures RemovedFit(a, c, at, n, typesDots)
  {
  }

  // ----- Paths that keep leading to the same directory

  /** The path passes nothing below the directory it leads to. */
  ghost predicate Steady(nodes: Tree, cwd: Place, text: string, at: Place) {
    forall p | p in Trail(nodes, Start(cwd, text), Components(text)) :: !(at < p)
  }

  lemma SteadyDir(before: Tree, now: Tree, cwd: Place, text: string, at: Place)
    requires Dir(before, cwd, text) == At(at) && Steady(before, cwd, text, at) && Inside(before, now, at)
    ensures Dir(now, cwd, text) == At(at) && Steady(now, cwd, text, at)
  {
    TrailExists(before, Start(cwd, text), Components(text));
    WalkFrame(before, now, Start(cwd, text), Components(text));
  }

  lemma SteadyChild(nodes: Tree, cwd: Place, text: string, at: Place, name: string)
    requires EndsInSlash(text) && OrdinaryName(name) && Dir(nodes, cwd, text) == At(at) && Steady(nodes, cwd, text, at)
    requires at + [name] in nodes && nodes[at + [name]] == Directory
    ensures Steady(nodes, cwd, text + name, at + [name])
  {
    ComponentsExtend(text, name);
    WalkIntoSnoc(nodes, Start(cwd, text), Components(text), name);
    TrailSnoc(nodes, Start(cwd, text), Components(text), name);
  }

  /** A path that still leads to a directory which nothing is left below was steady. */
  lemma SteadyBecause(before: Tree, now: Tree, cwd: Place, text: string, at: Place)
    requires Sub(now, before) && Dir(now, cwd, text) == At(at) && Childless(now, at)
    ensures Dir(before, cwd, text) == At(at) && Steady(before, cwd, text, at)
  {
    var dir, names := Start(cwd, text), Components(text);
    WalkMonotone(now, before, dir, names);
    TrailExists(now, dir, names);
    TrailMonotone(now, before, dir, names);
  }

  lemma {:induction false} TrailMonotone(nodes': Tree, nodes: Tree, dir: Place, names: seq<string>)
    requires Sub(nodes', nodes) && WalkInto(nodes', dir, names).At?
    ensures Trail(nodes', dir, names) == Trail(nodes, dir, names)
    decreases |names|
  {
    if names != [] {
      var d := StepInto(nodes', dir, names[0]);
      assert StepInto(nodes, dir, names[0]) == d;
      TrailMonotone(nodes', nodes, d.place, names[1..]);
    }
  }

  // ----- What a deletion does

  /** Nothing stands in the way of deleting what is below `at`: the path stays good and all paths fit. */
  ghost predicate Clear(nodes: Tree, cwd: Place, text: string, full: bool, at: Place, typesDots: bool)
    requires at in nodes
  {
    && (nodes[at] == Directory ==> !full && Steady(nodes, cwd, text, at))
    && Fits(nodes, at, |text|, typesDots)
  }

  /**
    What a deletion of `text` does to the tree; `full` says that the last
    character of the path was lost.  Whatever happens, only nodes from the one
    that the path denotes down are removed.  Success means that exactly this
    subtree is gone.  Without faults it is deleted exactly when the way is clear
    and the path names the directory entry itself; if it does not, as with a
    slash after a link, everything below the node is deleted all the same.
   */
  ghost predicate Outcome(ok: bool, before: Tree, after: Tree, cwd: Place, text: string, full: bool,
                          faulty: bool, typesDots: bool) {
    match Look(before, cwd, text)
    case Missing => !ok && after == before
    case At(q) =>
      && q in before && TreeOk(after) && OnlyBelow(before, after, q)
      && RemovedFit(before, after, q, |text|, typesDots)
      && (full && before[q] == Directory ==> !ok && after == before)
      && (ok ==> after == Without(before, q) && Entry(before, cwd, text) == At(q) && Clear(before, cwd, text, full, q, typesDots))
      && (!faulty && Clear(before, cwd, text, full, q, typesDots) ==>
            (ok <==> Entry(before, cwd, text) == At(q)) && (!ok ==> after == Emptied(before, q)))
  }

  // ----- Entries of a directory

  /** A path with room left ends in a slash and, if it still leads anywhere, leads to `at`. */
  ghost predicate Placed(nodes: Tree, cwd: Place, text: string, length: nat, at: Place) {
    && TreeOk(nodes) && length > 0
    && (length < PATH_MAX ==> EndsInSlash(text) && (Dir(nodes, cwd, text).At? ==> Dir(nodes, cwd, text).place == at))
  }

  ghost predicate InDirectory(nodes: Tree, cwd: Place, path: Buffer, at: Place)
    reads path, path.data
  {
    path.Whole() && Placed(nodes, cwd, path.CText(), path.length, at)
  }

  /** Nothing but nodes below `at` was removed, and only such as fit. */
  ghost predicate Contained(before: Tree, after: Tree, at: Place, n: nat, typesDots: bool) {
    TreeOk(after) && Inside(before, after, at) && RemovedFit(before, after, at, n, typesDots)
  }

  /** The entry `name` of directory `at` is there, and nothing stands in the way of deleting it. */
  ghost predicate Ready(nodes: Tree, cwd: Place, text: string, length: nat, at: Place, name: string, typesDots: bool) {
    && length < PATH_MAX && length == |text| && EndsInSlash(text) && OrdinaryName(name)
    && Dir(nodes, cwd, text) == At(at) && Steady(nodes, cwd, text, at)
    && at + [name] in nodes && Fits(nodes, at + [name], length + |name|, typesDots)
  }

  lemma NothingRemoved(nodes: Tree, at: Place, n: nat, typesDots: bool)
    requires TreeOk(nodes)
    ensures Contained(nodes, nodes, at, n, typesDots)
  {
  }

  lemma ReadyLength(nodes: Tree, cwd: Place, text: string, length: nat, at: Place, name: string, typesDots: bool)
    requires Ready(nodes, cwd, text, length, at, name, typesDots)
    ensures length + |name| < PATH_MAX
    ensures Look(nodes, cwd, text + name) == At(at + [name]) && Entry(nodes, cwd, text + name) == At(at + [name])
    ensures !GoesOn(text + name) && CString(name)
  {
    LengthForSelf(length + |name|, at + [name]);
    NameAfter(nodes, cwd, text, name);
  }

  /** A name that lost its last character still names an entry of the directory, or no entry at all. */
  lemma PartialName(nodes: Tree, cwd: Place, text: string, name: string, k: nat, at: Place)
    requires EndsInSlash(text) && ValidName(name) && CString(name) && k <= |name|
    requires Dir(nodes, cwd, text).At? ==> Dir(nodes, cwd, text).place == at
    ensures OrdinaryName(name[..k]) ==>
      var found := Look(nodes, cwd, text + name[..k]); found.At? ==> found.place == at + [name[..k]]
    ensures var found := Entry(nodes, cwd, text + name[..k]);
      found.At? && !EndsInSlash(text + name[..k]) ==> OrdinaryName(name[..k]) && found.place == at + [name[..k]]
    ensures !OrdinaryName(name[..k]) ==> GoesOn(text + name[..k])
  {
    var x := name[..k];
    if x == "" {
      assert text + x == text;
    } else if IsDot(x) {
      DotAfter(nodes, cwd, text, x);
    } else {
      NameAfter(nodes, cwd, text, x);
    }
  }

  /** Unlinking an entry. */
  lemma LeafRemoved(nodes: Tree, at: Place, name: string, n: nat, typesDots: bool)
    requires TreeOk(nodes) && at + [name] in nodes && nodes[at + [name]] != Directory && n + 1 + |name| < PATH_MAX
    ensures nodes - {at + [name]} == Without(nodes, at + [name])
    ensures Contained(nodes, nodes - {at + [name]}, at, n, typesDots)
  {
    LeafWithout(nodes, at + [name]);
    WithoutKeepsTree(nodes, at + [name]);
    BelowChild(nodes, Without(nodes, at + [name]), at, name);
    LengthForChild(n, at, name, at + [name]);
    LengthForSelf(n + 1 + |name|, at + [name]);
    assert at < at + [name];
  }

  /** Appends a name and unlinks the entry it leads to. */
  method DeleteFile(fs: Kernel, name: string, path: Buffer, ghost at: Place) returns (ok: bool)
    requires InDirectory(fs.nodes, fs.cwd, path, at) && ValidName(name) && CString(name)
    modifies fs`nodes, path, path.data
    ensures ok ==> path.Whole() && old(path.length) <= path.length && old(path.CText()) <= path.CText()
    ensures Contained(old(fs.nodes), fs.nodes, at, old(path.length) - 1, fs.typesDots)
    ensures !fs.faulty && Ready(old(fs.nodes), fs.cwd, old(path.CText()), old(path.length), at, name, fs.typesDots)
            && old(fs.nodes)[at + [name]] != Directory ==>
      ok && fs.nodes == Without(old(fs.nodes), at + [name])
  {
    hide TreeOk, Dir, Entry, Look, GoesOn, Contained, OrdinaryName, CString, Steady, Fits;
    ghost var text, before, n := path.CText(), fs.nodes, path.length - 1;
    NothingRemoved(before, at, n, fs.typesDots);
    if Ready(before, fs.cwd, text, path.length, at, name, fs.typesDots) {
      ReadyLength(before, fs.cwd, text, path.length, at, name, fs.typesDots);
    }
    ok := path.Add(name);
    if ok {
      ghost var k := path.End() - |text|;
      assert path.CText() == text + name[..k];
      assert name[..|name|] == name;
      PartialName(before, fs.cwd, text, name, k, at);
      ok := fs.Unlink(path.AsString());
      if ok {
        LeafRemoved(before, at, name[..k], n, fs.typesDots);
      }
    }
  }

  /** Deletes a directory entry; the dot entries are left alone. */
  method DeleteDir(fs: Kernel, name: string, path: Buffer, ghost at: Place) returns (ok: bool)
    requires InDirectory(fs.nodes, fs.cwd, path, at) && ValidName(name) && CString(name)
    modifies fs`nodes, path, path.data
    ensures ok ==> path.Whole() && old(path.length) <= path.length && old(path.CText()) <= path.CText()
    ensures Contained(old(fs.nodes), fs.nodes, at, old(path.length) - 1, fs.typesDots)
    ensures IsDot(name) ==> ok && fs.nodes == old(fs.nodes)
    ensures !fs.faulty && Ready(old(fs.nodes), fs.cwd, old(path.CText()), old(path.length), at, name, fs.typesDots)
            && old(fs.nodes)[at + [name]] == Directory ==>
      ok && fs.nodes == Without(old(fs.nodes), at + [name])
    decreases PATH_MAX - path.length, 0
  {
    hide TreeOk, Dir, Entry, Look, GoesOn, Contained, OrdinaryName, Steady, Fits, Outcome, IsDot, CString;
    ghost var text, before, n := path.CText(), fs.nodes, path.length - 1;
    NothingRemoved(before, at, n, fs.typesDots);
    if IsDot(name) {
      NotReady(before, fs.cwd, text, path.length, at, name, fs.typesDots);
      return true;
    }
    ok := path.Add(name);
    if ok {
      ghost var k, full := path.End() - |text|, path.length == PATH_MAX;
      assert path.CText() == text + name[..k];
      ok := DeleteRecursively(fs, path);
      EntryDeleted(ok, before, fs.nodes, fs.cwd, text, name, k, full, at, fs.faulty, fs.typesDots);
    } else if Ready(before, fs.cwd, text, path.length, at, name, fs.typesDots) {
      ReadyLength(before, fs.cwd, text, path.length, at, name, fs.typesDots);
    }
  }

  lemma NotReady(nodes: Tree, cwd: Place, text: string, length: nat, at: Place, name: string, typesDots: bool)
    requires IsDot(name)
    ensures !Ready(nodes, cwd, text, length, at, name, typesDots)
  {
  }

  /** What deleting the node at a name, or at a shortened one, means for the directory. */
  lemma EntryDeleted(ok: bool, before: Tree, after: Tree, cwd: Place, text: string, name: string, k: nat, full: bool,
                     at: Place, faulty: bool, typesDots: bool)
    requires EndsInSlash(text) && ValidName(name) && CString(name) && !IsDot(name) && k <= |name| && (k < |name| ==> full)
    requires full <==> |text| + |name| == PATH_MAX
    requires TreeOk(before) && (Dir(before, cwd, text).At? ==> Dir(before, cwd, text).place == at)
    requires Outcome(ok, before, after, cwd, text + name[..k], full, faulty, typesDots)
    ensures Contained(before, after, at, |text| - 1, typesDots)
    ensures !faulty && Ready(before, cwd, text, |text|, at, name, typesDots) ==>
      ok && after == Without(before, at + [name])
  {
    hide TreeOk, Dir, Entry, GoesOn, Steady, Fits, IsDot;
    assert name[..|name|] == name;
    PartialName(before, cwd, text, name, k, at);
    NothingRemoved(before, at, |text| - 1, typesDots);
    var x, found := name[..k], Look(before, cwd, text + name[..k]);
    if found.At? && OrdinaryName(x) {
      BelowChild(before, after, at, x);
      RemovedFitChild(before, after, at, |text| - 1, x, typesDots);
    }
    if Ready(before, cwd, text, |text|, at, name, typesDots) {
      ReadyLength(before, cwd, text, |text|, at, name, typesDots);
      assert name[..k] == name;
      if before[at + [name]] == Directory { SteadyChild(before, cwd, text, at, name); }
    }
  }

  /** A directory is deleted recursively, anything else, a link too, is unlinked. */
  method DeleteByKind(fs: Kernel, name: string, node: Node, path: Buffer, ghost at: Place) returns (ok: bool)
    requires InDirectory(fs.nodes, fs.cwd, path, at) && ValidName(name) && CString(name)
    modifies fs`nodes, path, path.data
    ensures ok ==> path.Whole() && old(path.length) <= path.length && old(path.CText()) <= path.CText()
    ensures Contained(old(fs.nodes), fs.nodes, at, old(path.length) - 1, fs.typesDots)
    ensures IsDot(name) && node == Directory ==> ok && fs.nodes == old(fs.nodes)
    ensures !fs.faulty && Ready(old(fs.nodes), fs.cwd, old(path.CText()), old(path.length), at, name, fs.typesDots)
            && node == old(fs.nodes)[at + [name]] ==>
      ok && fs.nodes == Without(old(fs.nodes), at + [name])
    decreases PATH_MAX - path.length, 1
  {
    hide Contained, IsDot, Placed, Without;
    if node == Directory {
      ok := DeleteDir(fs, name, path, at);
    } else {
      ok := DeleteFile(fs, name, path, at);
    }
  }

  /** Asks for the type of an entry by its path, and then takes its name off the path again. */
  method TypeOf(fs: Kernel, name: string, path: Buffer, ghost at: Place) returns (ok: bool, node: Node)
    requires InDirectory(fs.nodes, fs.cwd, path, at) && ValidName(name) && CString(name)
    modifies path, path.data
    ensures ok ==> path.Whole() && path.length == old(path.length) && path.CText() == old(path.CText())
    ensures ok ==> old(path.length) + |name| <= PATH_MAX
    ensures !fs.faulty && Ready(fs.nodes, fs.cwd, old(path.CText()), old(path.length), at, name, fs.typesDots) ==>
      ok && node == fs.nodes[at + [name]]
    ensures !fs.faulty && IsDot(name) && old(path.length) + 2 <= PATH_MAX && at in fs.nodes && fs.nodes[at] == Directory
            && Dir(fs.nodes, fs.cwd, old(path.CText())) == At(at) ==>
      ok && node == Directory
  {
    hide TreeOk, Dir, Entry, Look, GoesOn, OrdinaryName, Steady, Fits, CString;
    ghost var text := path.CText();
    var pathLength := path.length;
    if Ready(fs.nodes, fs.cwd, text, path.length, at, name, fs.typesDots) {
      ReadyLength(fs.nodes, fs.cwd, text, path.length, at, name, fs.typesDots);
    }
    node := File;
    ok := path.Add(name);
    if ok {
      ghost var k := path.End() - |text|;
      assert path.CText() == text + name[..k];
      assert name[..|name|] == name;
      if IsDot(name) && pathLength + 2 <= PATH_MAX && at in fs.nodes && fs.nodes[at] == Directory && Dir(fs.nodes, fs.cwd, text) == At(at) {
        PartialDot(fs.nodes, fs.cwd, text, name, k, at);
      }
      ok, node := fs.Lstat(path.AsString());
    }
    if ok {
      path.Reset(pathLength);
      assert path.CText() == text;
    }
  }

  /** A dot entry leads to a directory, also when its last character is lost. */
  lemma PartialDot(nodes: Tree, cwd: Place, text: string, name: string, k: nat, at: Place)
    requires EndsInSlash(text) && IsDot(name) && k <= |name| && |name| - 1 <= k
    requires TreeOk(nodes) && Dir(nodes, cwd, text) == At(at) && at in nodes && nodes[at] == Directory
    ensures var found := Look(nodes, cwd, text + name[..k]);
      found.At? && found.place in nodes && nodes[found.place] == Directory
  {
    assert NodeOk(nodes, at);
    if k == 0 {
      assert text + name[..k] == text;
    } else {
      assert name[..k] == name || name[..k] == ".";
      DotAfter(nodes, cwd, text, name[..k]);
    }
  }

  /** Deletes one entry, after asking for its type where the stream did not tell. */
  method DeleteEntry(fs: Kernel, e: StreamEntry, path: Buffer, ghost at: Place) returns (ok: bool)
    requires InDirectory(fs.nodes, fs.cwd, path, at) && ValidName(e.name) && CString(e.name)
    requires IsDot(e.name) ==> e.node == Directory
    modifies fs`nodes, path, path.data
    ensures ok ==> path.Whole() && old(path.length) <= path.length && old(path.CText()) <= path.CText()
    ensures ok && !e.known ==> old(path.length) + |e.name| <= PATH_MAX
    ensures Contained(old(fs.nodes), fs.nodes, at, old(path.length) - 1, fs.typesDots)
    ensures IsDot(e.name) && e.known ==> ok && fs.nodes == old(fs.nodes)
    ensures !fs.faulty && IsDot(e.name) && old(path.length) + 2 <= PATH_MAX && at in old(fs.nodes)
            && old(fs.nodes)[at] == Directory && Dir(old(fs.nodes), fs.cwd, old(path.CText())) == At(at) ==>
      ok && fs.nodes == old(fs.nodes)
    ensures !fs.faulty && Ready(old(fs.nodes), fs.cwd, old(path.CText()), old(path.length), at, e.name, fs.typesDots)
            && e.node == old(fs.nodes)[at + [e.name]] ==>
      ok && fs.nodes == Without(old(fs.nodes), at + [e.name])
    decreases PATH_MAX - path.length, 2
  {
    hide Contained, IsDot, Without, Ready, Placed, Dir, CString, ValidName;
    PlacedTree(fs.nodes, fs.cwd, path.CText(), path.length, at);
    NothingRemoved(fs.nodes, at, path.length - 1, fs.typesDots);
    var node := e.node;
    if !e.known {
      ok, node := TypeOf(fs, e.name, path, at);
      if !ok {
        return;
      }
    }
    ok := DeleteByKind(fs, e.name, node, path, at);
  }

  /** How far the deletion of a directory's entries has come; with nothing in its way, exactly `i` entries are gone. */
  ghost predicate Progress(before: Tree, nodes: Tree, cwd: Place, text: string, length: nat, at: Place,
                           entries: seq<StreamEntry>, typesDots: bool, clear: bool, i: nat)
    requires i <= |entries|
  {
    && Placed(nodes, cwd, text, length, at) && Contained(before, nodes, at, length - 1, typesDots)
    && (clear ==> nodes == Pruned(before, at, entries[..i]))
    && forall j | 0 <= j < i && !entries[j].known :: length + |entries[j].name| <= PATH_MAX
  }

  /** Deletes the next entry and cuts the path back. */
  method DeleteNext(fs: Kernel, entries: seq<StreamEntry>, i: nat, path: Buffer, ghost at: Place, ghost before: Tree,
                    ghost clear: bool)
    returns (ok: bool)
    requires i < |entries| && TreeOk(before) && Stream(before, at, entries, fs.typesDots)
    requires InDirectory(fs.nodes, fs.cwd, path, at)
    requires Progress(before, fs.nodes, fs.cwd, path.CText(), path.length, at, entries, fs.typesDots, clear, i)
    requires clear ==> !fs.faulty && CanEmpty(before, fs.cwd, path.CText(), path.length, at, fs.typesDots)
    modifies fs`nodes, path, path.data
    ensures ok ==>
      && path.Whole() && path.length == old(path.length) && path.CText() == old(path.CText())
      && Progress(before, fs.nodes, fs.cwd, path.CText(), path.length, at, entries, fs.typesDots, clear, i + 1)
    ensures Contained(before, fs.nodes, at, old(path.length) - 1, fs.typesDots) && (clear ==> ok)
    decreases PATH_MAX - path.length, 3
  {
    hide TreeOk, Contained, Pruned, Stream, Ready, CanEmpty, IsDot, CString, ValidName, Dir, Placed, EntryOk, UpToNul, Buffer.AsString;
    ghost var text, now := path.CText(), fs.nodes;
    var pathLength := path.length;
    PlacedTree(now, fs.cwd, text, pathLength, at);
    EntryNames(before, at, entries, fs.typesDots, i);
    if clear { NextReady(before, fs.cwd, text, pathLength, at, entries, fs.typesDots, i); }
    ok := DeleteEntry(fs, entries[i], path, at);
    ContainedTrans(before, now, fs.nodes, at, pathLength - 1, fs.typesDots);
    PrunedStep(before, at, entries, i);
    if ok {
      path.Reset(pathLength);
      StillPlaced(now, fs.nodes, fs.cwd, text, pathLength, at, pathLength - 1, fs.typesDots);
    }
  }

  /**
    Deletes the entries of a directory, one after the other.  Without faults, and
    if the path stays good and there is room, nothing is left below it.
   */
  method DeleteEntries(fs: Kernel, entries: seq<StreamEntry>, path: Buffer, ghost at: Place) returns (ok: bool)
    requires InDirectory(fs.nodes, fs.cwd, path, at) && at in fs.nodes && fs.nodes[at] == Directory
    requires Stream(fs.nodes, at, entries, fs.typesDots)
    modifies fs`nodes, path, path.data
    ensures ok ==> path.Whole() && path.length == old(path.length) && path.CText() == old(path.CText())
    ensures ok && !fs.typesDots ==> old(path.length) + 2 <= PATH_MAX
    ensures Contained(old(fs.nodes), fs.nodes, at, old(path.length) - 1, fs.typesDots)
    ensures !fs.faulty && CanEmpty(old(fs.nodes), fs.cwd, old(path.CText()), old(path.length), at, fs.typesDots) ==>
      ok && Childless(fs.nodes, at)
    decreases PATH_MAX - path.length, 4
  {
    hide TreeOk, Contained, Pruned, Stream, CanEmpty, Placed, UpToNul, Buffer.AsString, CString, Childless;
    ghost var text, before := path.CText(), fs.nodes;
    ghost var clear := !fs.faulty && CanEmpty(before, fs.cwd, text, path.length, at, fs.typesDots);
    PlacedTree(before, fs.cwd, text, path.length, at);
    NothingRemoved(before, at, path.length - 1, fs.typesDots);
    EntriesStart(before, at, entries);
    ghost var length := path.length;
    var i := 0;
    while i < |entries|
      invariant 0 <= i <= |entries| && path.Whole() && path.length == length && path.CText() == text
      invariant Progress(before, fs.nodes, fs.cwd, text, length, at, entries, fs.typesDots, clear, i)
    {
      var readFails: bool := *;
      if fs.faulty && readFails {
        return false;
      }
      ok := DeleteNext(fs, entries, i, path, at, before, clear);
      if !ok {
        return;
      }
      i := i + 1;
    }
    ok := true;
    EntriesEnd(before, at, entries, fs.typesDots, length);
    assert entries[..i] == entries;
  }

  /** Nothing stands in the way of emptying the directory. */
  ghost predicate CanEmpty(nodes: Tree, cwd: Place, text: string, length: nat, at: Place, typesDots: bool) {
    && length > 0 && Dir(nodes, cwd, text) == At(at) && Steady(nodes, cwd, text, at)
    && (length < PATH_MAX ==> length == |text| && EndsInSlash(text))
    && Fits(nodes, at, length - 1, typesDots) && at in nodes && nodes[at] == Directory
  }

  lemma PlacedTree(nodes: Tree, cwd: Place, text: string, length: nat, at: Place)
    requires Placed(nodes, cwd, text, length, at)
    ensures TreeOk(nodes) && length > 0
  {
  }

  lemma StillPlaced(nodes: Tree, nodes': Tree, cwd: Place, text: string, length: nat, at: Place, n: nat, typesDots: bool)
    requires Placed(nodes, cwd, text, length, at) && Contained(nodes, nodes', at, n, typesDots)
    ensures Placed(nodes', cwd, text, length, at)
  {
    hide TreeOk, Dir;
    LookMonotone(nodes', nodes, cwd, text);
  }

  lemma ContainedTrans(a: Tree, b: Tree, c: Tree, at: Place, n: nat, typesDots: bool)
    requires Contained(a, b, at, n, typesDots) && Contained(b, c, at, n, typesDots)
    ensures Contained(a, c, at, n, typesDots)
  {
    hide TreeOk;
    InsideTrans(a, b, c, at);
    RemovedFitTrans(a, b, c, at, n, typesDots);
  }

  lemma EntryNames(nodes: Tree, at: Place, entries: seq<StreamEntry>, typesDots: bool, i: nat)
    requires Stream(nodes, at, entries, typesDots) && i < |entries|
    ensures ValidName(entries[i].name) && CString(entries[i].name)
    ensures IsDot(entries[i].name) ==> entries[i].node == Directory && entries[i].known == typesDots
  {
    assert EntryOk(nodes, at, entries[i]);
  }

  /** The next entry is as the stream says, when exactly the ones before it have been deleted. */
  lemma NextReady(nodes: Tree, cwd: Place, text: string, length: nat, at: Place, entries: seq<StreamEntry>,
                  typesDots: bool, i: nat)
    requires TreeOk(nodes) && Stream(nodes, at, entries, typesDots) && i < |entries|
    requires CanEmpty(nodes, cwd, text, length, at, typesDots)
    ensures var now, e := Pruned(nodes, at, entries[..i]), entries[i];
      && at in now && now[at] == Directory && Dir(now, cwd, text) == At(at)
      && (IsDot(e.name) ==> e.known || length + 2 <= PATH_MAX)
      && (!IsDot(e.name) ==> Ready(now, cwd, text, length, at, e.name, typesDots) && e.node == now[at + [e.name]])
  {
    hide TreeOk, IsDot, Dir, Trail, CString, ValidName;
    var now, e := Pruned(nodes, at, entries[..i]), entries[i];
    PrunedInside(nodes, at, entries[..i]);
    SteadyDir(nodes, now, cwd, text, at);
    PrunedAt(nodes, at, entries[..i], at);
    LengthForSelf(length - 1, at);
    assert EntryOk(nodes, at, e);
    if !IsDot(e.name) {
      PrunedAt(nodes, at, entries[..i], at + [e.name]);
      FitsChild(nodes, now, at, length - 1, e.name, typesDots);
      LengthForSelf(length + |e.name|, at + [e.name]);
      assert FitsNode(now[at + [e.name]], LengthFor(length + |e.name|, at + [e.name], at + [e.name]), typesDots);
    }
  }

  lemma PrunedInside(nodes: Tree, at: Place, entries: seq<StreamEntry>)
    ensures Inside(nodes, Pruned(nodes, at, entries), at)
  {
    hide Pruned, IsDot;
    forall p ensures p in Pruned(nodes, at, entries) ==> p in nodes && Pruned(nodes, at, entries)[p] == nodes[p]
      ensures p in nodes && !(at < p) ==> p in Pruned(nodes, at, entries)
    {
      PrunedAt(nodes, at, entries, p);
    }
  }

  lemma EntriesStart(nodes: Tree, at: Place, entries: seq<StreamEntry>)
    ensures Pruned(nodes, at, entries[..0]) == nodes
  {
  }

  lemma EntriesEnd(nodes: Tree, at: Place, entries: seq<StreamEntry>, typesDots: bool, length: nat)
    requires TreeOk(nodes) && Stream(nodes, at, entries, typesDots)
    requires forall j | 0 <= j < |entries| && !entries[j].known :: length + |entries[j].name| <= PATH_MAX
    ensures Childless(Pruned(nodes, at, entries), at)
    ensures !typesDots ==> length + 2 <= PATH_MAX
  {
    PrunedAll(nodes, at, entries, typesDots);
    assert Lists(entries, "..");
    var j :| 0 <= j < |entries| && entries[j].name == "..";
    assert IsDot(entries[j].name);
  }

  // ----- Outcomes

  /** Nothing was done, and there was a fault, no such node, or no room for a slash. */
  lemma NothingDone(before: Tree, cwd: Place, text: string, full: bool, faulty: bool, typesDots: bool)
    requires TreeOk(before) && |text| < PATH_MAX
    requires Look(before, cwd, text).At? ==> faulty || (full && before[Look(before, cwd, text).place] == Directory)
    ensures Outcome(false, before, before, cwd, text, full, faulty, typesDots)
  {
    hide TreeOk, Dir, Fits, Steady;
  }

  /** A node that is not a directory is unlinked. */
  lemma LeafOutcome(ok: bool, before: Tree, after: Tree, cwd: Place, text: string, full: bool, faulty: bool, typesDots: bool)
    requires TreeOk(before) && |text| < PATH_MAX
    requires Look(before, cwd, text).At? && before[Look(before, cwd, text).place] != Directory
    requires ok ==> Entry(before, cwd, text).At? && after == before - {Entry(before, cwd, text).place}
    requires !ok ==> after == before
    requires !ok ==> faulty || EndsInSlash(text) || Entry(before, cwd, text).Missing?
                     || before[Entry(before, cwd, text).place] == Directory
    ensures Outcome(ok, before, after, cwd, text, full, faulty, typesDots)
  {
    hide TreeOk, Dir, Steady;
    var q := Look(before, cwd, text).place;
    LeafWithout(before, q);
    WithoutKeepsTree(before, q);
    LengthForSelf(|text|, q);
    assert forall p | p in before && q <= p :: p == q by {
      assert forall p | p in before - {q} :: p in Without(before, q);
    }
  }

  /** The path with its slash, or without it for lack of room, leads to the directory that was found. */
  lemma DirectoryFound(before: Tree, cwd: Place, text: string, text': string, length: nat, at: Place, typesDots: bool)
    requires TreeOk(before) && Look(before, cwd, text) == At(at) && before[at] == Directory && length == |text| + 1
    requires text' == if length < PATH_MAX then text + "/" else text
    ensures Placed(before, cwd, text', length, at) && Dir(before, cwd, text') == At(at)
    ensures Entry(before, cwd, text') == Entry(before, cwd, text)
    ensures Steady(before, cwd, text', at) == Steady(before, cwd, text, at)
    ensures CanEmpty(before, cwd, text', length, at, typesDots) == Clear(before, cwd, text, false, at, typesDots)
  {
    hide TreeOk, WalkInto, Trail, Fits;
    assert text != "" by { assert Components("") == []; }
    SlashAfter(before, cwd, text);
  }

  /** Part of the directory's contents may be gone, and there was a fault or something in the way. */
  lemma Unfinished(before: Tree, now: Tree, cwd: Place, text: string, at: Place, faulty: bool, typesDots: bool)
    requires TreeOk(before) && Look(before, cwd, text) == At(at) && before[at] == Directory
    requires Contained(before, now, at, |text|, typesDots)
    requires faulty || !Clear(before, cwd, text, false, at, typesDots)
    ensures Outcome(false, before, now, cwd, text, false, faulty, typesDots)
  {
    hide TreeOk, Dir, Entry, Look, Clear, RemovedFit;
  }

  /** A path that names the entry of a directory leads to the directory. */
  lemma EntryDir(nodes: Tree, cwd: Place, text: string)
    requires Entry(nodes, cwd, text).At? && nodes[Entry(nodes, cwd, text).place] == Directory
    ensures Dir(nodes, cwd, text) == Entry(nodes, cwd, text)
  {
    var names := Components(text);
    assert names == names[..|names| - 1] + [names[|names| - 1]];
    WalkIntoSnoc(nodes, Start(cwd, text), names[..|names| - 1], names[|names| - 1]);
  }

  lemma SteadyEntry(before: Tree, now: Tree, cwd: Place, text: string, at: Place)
    requires Entry(before, cwd, text) == At(at) && Dir(before, cwd, text) == At(at) && Steady(before, cwd, text, at)
    requires Inside(before, now, at) && at in now
    ensures Entry(now, cwd, text) == At(at)
  {
    var names, dir := Components(text), Start(cwd, text);
    var front, last := names[..|names| - 1], names[|names| - 1];
    assert names == front + [last];
    TrailSnoc(before, dir, front, last);
    TrailExists(before, dir, front);
    WalkFrame(before, now, dir, front);
  }

  /** The directory's contents are gone, and then the directory or not. */
  lemma Finished(ok: bool, before: Tree, now: Tree, after: Tree, cwd: Place, text: string, text': string, at: Place,
                 faulty: bool, typesDots: bool)
    requires TreeOk(before) && Look(before, cwd, text) == At(at) && before[at] == Directory && |text| < PATH_MAX
    requires Dir(before, cwd, text') == At(at) && Entry(before, cwd, text') == Entry(before, cwd, text)
    requires Steady(before, cwd, text', at) == Steady(before, cwd, text, at)
    requires Contained(before, now, at, |text|, typesDots) && (!typesDots ==> |text| + 3 <= PATH_MAX)
    requires !faulty && Clear(before, cwd, text, false, at, typesDots) ==> Childless(now, at)
    requires ok ==> Entry(now, cwd, text').At?
    requires ok ==> var p := Entry(now, cwd, text').place; now[p] == Directory && Childless(now, p) && after == now - {p}
    requires !ok ==> after == now
    requires !ok ==> faulty || Entry(now, cwd, text').Missing? || now[Entry(now, cwd, text').place] != Directory
                     || !Childless(now, Entry(now, cwd, text').place)
    ensures Outcome(ok, before, after, cwd, text, false, faulty, typesDots)
  {
    hide TreeOk, Dir, Entry, Look, Steady, Childless, Fits;
    if ok {
      LookMonotone(now, before, cwd, text');
      EntryDir(now, cwd, text');
      RemovedLast(before, now, at);
      SteadyBecause(before, now, cwd, text', at);
      WithoutKeepsTree(before, at);
      AllFit(before, now, at, |text|, typesDots);
    } else if !faulty && Clear(before, cwd, text, false, at, typesDots) {
      RemovedLast(before, now, at);
      if Entry(before, cwd, text) == At(at) { SteadyEntry(before, now, cwd, text', at); }
    }
  }

  lemma AllFit(before: Tree, now: Tree, at: Place, n: nat, typesDots: bool)
    requires RemovedFit(before, now, at, n, typesDots) && now == Emptied(before, at) && at in before
    requires FitsNode(before[at], n, typesDots)
    ensures Fits(before, at, n, typesDots) && RemovedFit(before, Without(before, at), at, n, typesDots)
  {
    LengthForSelf(n, at);
    forall p | p in before && at <= p
      ensures FitsNode(before[p], LengthFor(n, at, p), typesDots)
    {
      if p != at { assert at < p; }
    }
  }

  // ----- The whole deletion

  /** Deletes the entries of a directory and then the directory; `text` is its path without the slash. */
  method DeleteDirectory(fs: Kernel, path: Buffer, ghost text: string, ghost at: Place) returns (ok: bool)
    requires path.Whole() && TreeOk(fs.nodes) && path.length == |text| + 1
    requires path.CText() == if path.length < PATH_MAX then text + "/" else text
    requires Look(fs.nodes, fs.cwd, text) == At(at) && fs.nodes[at] == Directory
    modifies fs`nodes, path, path.data
    ensures Outcome(ok, old(fs.nodes), fs.nodes, fs.cwd, text, false, fs.faulty, fs.typesDots)
    ensures ok ==> path.Whole() && path.length == old(path.length) && path.CText() == old(path.CText())
    decreases PATH_MAX - path.length, 5
  {
    hide TreeOk, Outcome, CanEmpty, Stream, Placed, Dir, Entry, Look, Contained, Childless, CString, UpToNul, Buffer.AsString;
    ghost var before := fs.nodes;
    DirectoryFound(before, fs.cwd, text, path.CText(), path.length, at, fs.typesDots);
    var entries;
    ok, entries := fs.ReadDirectory(path.AsString());
    if !ok {
      NothingDone(before, fs.cwd, text, false, fs.faulty, fs.typesDots);
      return;
    }
    ok := DeleteEntries(fs, entries, path, at);
    ghost var now := fs.nodes;
    var closeFails: bool := *;
    if !ok || (fs.faulty && closeFails) {
      Unfinished(before, now, fs.cwd, text, at, fs.faulty, fs.typesDots);
      return false;
    }
    ok := fs.Rmdir(path.AsString());
    Finished(ok, before, now, fs.nodes, fs.cwd, text, path.CText(), at, fs.faulty, fs.typesDots);
  }

  /**
    Deletes the node that the buffer names, with everything below it.  See
    `Outcome` for what this means when calls fail, paths are too long, or the
    path does not name the directory entry itself.
   */
  method DeleteRecursively(fs: Kernel, path: Buffer) returns (ok: bool)
    requires path.Whole() && TreeOk(fs.nodes)
    modifies fs`nodes, path, path.data
    ensures Outcome(ok, old(fs.nodes), fs.nodes, fs.cwd, old(path.CText()), old(path.length) == PATH_MAX, fs.faulty, fs.typesDots)
    ensures ok ==> path.Whole() && old(path.length) <= path.length && old(path.CText()) <= path.CText()
    decreases PATH_MAX - path.length, 0
  {
    hide TreeOk, Outcome, CanEmpty, Stream, Placed, Dir, Entry, Look, Contained, Childless, CString, UpToNul;
    hide Buffer.AsString, Buffer.Text, Buffer.Valid, Buffer.Intact;
    ghost var text, full, before := path.CText(), path.length == PATH_MAX, fs.nodes;
    var found, node := fs.Lstat(path.AsString());
    if !found {
      NothingDone(before, fs.cwd, text, full, fs.faulty, fs.typesDots);
      return false;
    }
    ghost var at := Look(before, fs.cwd, text).place;
    if node != Directory {
      ok := fs.Unlink(path.AsString());
      LeafOutcome(ok, before, fs.nodes, fs.cwd, text, full, fs.faulty, fs.typesDots);
      return;
    }
    ok := path.Add("/");
    if !ok {
      NothingDone(before, fs.cwd, text, full, fs.faulty, fs.typesDots);
      return;
    }
    assert path.CText() == if path.length < PATH_MAX then text + "/" else text;
    ok := DeleteDirectory(fs, path, text, at);
  }

  /**
    `Directory::Delete` with the recursive flag.  A path of exactly PATH_MAX
    characters is cut short first: what is then deleted is a node of another name.
   */
  method Delete(fs: Kernel, dirName: string) returns (ok: bool)
    requires CString(dirName) && TreeOk(fs.nodes)
    modifies fs`nodes
    ensures |dirName| > PATH_MAX ==> !ok && fs.nodes == old(fs.nodes)
    ensures |dirName| <= PATH_MAX ==>
      var text := if |dirName| < PATH_MAX then dirName else dirName[..PATH_MAX - 1];
      Outcome(ok, old(fs.nodes), fs.nodes, fs.cwd, text, |dirName| == PATH_MAX, fs.faulty, fs.typesDots)
  {
    hide TreeOk, Outcome;
    var path := new Buffer();
    ok := path.Add(dirName);
    if ok {
      assert path.CText() == if |dirName| < PATH_MAX then dirName else dirName[..PATH_MAX - 1];
      ok := DeleteRecursively(fs, path);
    }
  }

  /** Without faults, success is decided by the tree and the path alone. */
  lemma SucceedsExactly(ok: bool, before: Tree, after: Tree, cwd: Place, text: string, full: bool, typesDots: bool)
    requires Outcome(ok, before, after, cwd, text, full, false, typesDots)
    ensures ok <==> var q := Look(before, cwd, text);
      q.At? && Entry(before, cwd, text) == q && Clear(before, cwd, text, full, q.place, typesDots)
  {
    hide Look, Entry, Clear, TreeOk, RemovedFit;
  }

  // ----- Links at the end of a path

  /** Dot components at the end say nothing more. */
  function DropDots(names: seq<string>): seq<string> {
    if names != [] && names[|names| - 1] == "." then DropDots(names[..|names| - 1]) else names
  }

  /** The directory entry that a path names, whatever slashes and dots follow its name. */
  function Named(nodes: Tree, cwd: Place, text: string): (r: Found)
    ensures r.At? ==> r.place in nodes
  {
    var names := DropDots(Components(text));
    if names == [] || names[|names| - 1] == ".." then Missing
    else Child(nodes, WalkInto(nodes, Start(cwd, text), names[..|names| - 1]), names[|names| - 1])
  }

  lemma {:induction false} WalkDropDots(nodes: Tree, dir: Place, names: seq<string>)
    ensures WalkInto(nodes, dir, names) == WalkInto(nodes, dir, DropDots(names))
    ensures WalkInto(nodes, dir, names).At? ==> Trail(nodes, dir, names) == Trail(nodes, dir, DropDots(names))
    decreases |names|
  {
    if names != [] && names[|names| - 1] == "." {
      var front := names[..|names| - 1];
      assert names == front + ["."];
      WalkIntoSnoc(nodes, dir, front, ".");
      if WalkInto(nodes, dir, names).At? { TrailSnoc(nodes, dir, front, "."); }
      WalkDropDots(nodes, dir, front);
    }
  }

  /** Where a path leads that goes on after the entry it names. */
  lemma NamedThenOn(nodes: Tree, cwd: Place, text: string, e: Place)
    requires Named(nodes, cwd, text) == At(e)
    ensures Dir(nodes, cwd, text) ==
      match Follow(nodes, e) case Missing => Missing case At(p) => if nodes[p] == Directory then At(p) else Missing
    ensures Dir(nodes, cwd, text).At? ==> e in Trail(nodes, Start(cwd, text), Components(text))
  {
    var dir, names := Start(cwd, text), DropDots(Components(text));
    var front, last := names[..|names| - 1], names[|names| - 1];
    WalkDropDots(nodes, dir, Components(text));
    hide DropDots;
    assert names == front + [last];
    LastIsName(Components(text));
    WalkIntoSnoc(nodes, dir, front, last);
    if Dir(nodes, cwd, text).At? { TrailSnoc(nodes, dir, front, last); }
  }

  lemma {:induction false} LastIsName(names: seq<string>)
    ensures var core := DropDots(names); core != [] ==> core[|core| - 1] != "."
    decreases |names|
  {
    if names != [] && names[|names| - 1] == "." { LastIsName(names[..|names| - 1]); }
  }

  lemma NamedOrEntry(nodes: Tree, cwd: Place, text: string)
    requires !GoesOn(text)
    ensures Named(nodes, cwd, text) == Entry(nodes, cwd, text)
  {
  }

  /** A path denotes the entry it names, unless it goes on and the entry is a link. */
  lemma NamedOrLink(nodes: Tree, cwd: Place, text: string, e: Place)
    requires Named(nodes, cwd, text) == At(e) && !(nodes[e].Link? && GoesOn(text))
    ensures Look(nodes, cwd, text).At? ==> Look(nodes, cwd, text) == At(e)
  {
    if GoesOn(text) {
      NamedThenOn(nodes, cwd, text, e);
    } else {
      NamedOrEntry(nodes, cwd, text);
    }
  }

  /**
    Whatever fails, nothing outside the entry that the path names is touched,
    unless the entry is a link and the path goes on after it, by a slash or a dot.
   */
  lemma NotThroughLinks(ok: bool, before: Tree, after: Tree, cwd: Place, text: string, full: bool, faulty: bool,
                        typesDots: bool, e: Place)
    requires Outcome(ok, before, after, cwd, text, full, faulty, typesDots) && Named(before, cwd, text) == At(e)
    requires !(before[e].Link? && GoesOn(text))
    ensures OnlyBelow(before, after, e)
  {
    hide Entry, Look, Named, TreeOk, RemovedFit, Clear;
    NamedOrLink(before, cwd, text, e);
  }

  /** Without faults, and with the way clear, this condition is exact, but for an empty directory. */
  lemma OutsideExactly(ok: bool, before: Tree, after: Tree, cwd: Place, text: string, typesDots: bool, e: Place, q: Place)
    requires TreeOk(before) && Outcome(ok, before, after, cwd, text, false, false, typesDots)
    requires Named(before, cwd, text) == At(e) && Look(before, cwd, text) == At(q)
    requires Clear(before, cwd, text, false, q, typesDots)
    ensures OnlyBelow(before, after, e) <==> !(before[e].Link? && GoesOn(text)) || Childless(before, q)
  {
    hide Entry, Look, Named, TreeOk, RemovedFit, Fits, Trail, Childless, GoesOn;
    if !(before[e].Link? && GoesOn(text)) {
      NotThroughLinks(ok, before, after, cwd, text, false, false, typesDots, e);
    } else {
      LinkPassed(before, cwd, text, e, q);
      assert after == Emptied(before, q);
      LinkApart(before, e, q);
    }
  }

  lemma LinkApart(before: Tree, e: Place, q: Place)
    requires TreeOk(before) && e in before && before[e].Link? && !(q < e)
    ensures forall p | p in before && q < p :: !(e <= p)
    ensures OnlyBelow(before, Emptied(before, q), e) <==> Childless(before, q)
  {
    LeafWithout(before, e);
    assert forall p | p in before && p != e :: p in before - {e};
    forall p | p in before ensures q <= p && p != q ==> q < p {
    }
  }

  /** A path that goes on after a link passes the link, and leads elsewhere. */
  lemma LinkPassed(before: Tree, cwd: Place, text: string, e: Place, q: Place)
    requires Named(before, cwd, text) == At(e) && Look(before, cwd, text) == At(q) && before[e].Link? && GoesOn(text)
    ensures e in Trail(before, Start(cwd, text), Components(text)) && before[q] == Directory
    ensures Entry(before, cwd, text) != At(q)
  {
    NamedThenOn(before, cwd, text, e);
    EntryIsNamed(before, cwd, text);
  }

  lemma EntryIsNamed(nodes: Tree, cwd: Place, text: string)
    ensures Entry(nodes, cwd, text).At? ==> Entry(nodes, cwd, text) == Named(nodes, cwd, text)
  {
  }

  /** A link to a directory with one file in it. */
  const LINKED: Tree := map[[] := Directory, ["l"] := Link(["d"]), ["d"] := Directory, ["d", "f"] := File]

  lemma LinkedComponents()
    ensures Components("l/") == ["l"]
  {
    ComponentsExtend("", "l");
    assert "" + "l" + "/" == "l/";
  }

  lemma LinkedStep()
    ensures StepInto(LINKED, [], "l") == At(["d"]) && Touched(LINKED, [], "l") == {["l"], ["d"]}
    ensures ["l"] in LINKED && ["d"] in LINKED && LINKED[["d"]] == Directory
  {
    assert [] + ["l"] == ["l"] && ["l"] in LINKED && ["d"] in LINKED;
  }

  lemma LinkedWalk()
    ensures WalkInto(LINKED, [], ["l"]) == At(["d"]) && Trail(LINKED, [], ["l"]) == {["l"], ["d"]}
  {
    LinkedStep();
    hide StepInto, Touched;
    assert ["l"][1..] == [];
  }

  lemma LinkedPath()
    ensures Look(LINKED, [], "l/") == At(["d"]) && Entry(LINKED, [], "l/") == At(["l"])
    ensures Trail(LINKED, Start([], "l/"), Components("l/")) == {["l"], ["d"]}
  {
    LinkedComponents();
    LinkedStep();
    LinkedWalk();
    hide Components, StepInto, Trail;
    assert ["l"][..0] == [] && [] + ["l"] == ["l"];
    assert WalkInto(LINKED, [], []) == At([]);
    hide WalkInto;
  }

  lemma LinkedFits()
    ensures Fits(LINKED, ["d"], 2, true)
  {
    assert ["d", "f"][1..] == ["f"] && ["f"][1..] == [] && ["d"][1..] == [];
    assert LengthFor(2, ["d"], ["d"]) == 2 && LengthFor(2, ["d"], ["d", "f"]) == 4;
  }

  /** Deleted with a slash after its name, the link stays and the file is gone. */
  lemma LinkWithSlash(ok: bool, after: Tree)
    requires Outcome(ok, LINKED, after, [], "l/", false, false, true)
    ensures !ok && after == Emptied(LINKED, ["d"]) && ["d", "f"] !in after && ["l"] in after && ["d"] in after
  {
    hide Look, Entry, Trail, Components, Fits, TreeOk, RemovedFit, OnlyBelow;
    LinkedPath();
    LinkedFits();
    assert Clear(LINKED, [], "l/", false, ["d"], true);
    assert ["d"] < ["d", "f"];
  }
}
