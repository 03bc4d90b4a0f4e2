/**
  The chains of followed symbolic links of a recursive directory listing
  (`LinkList`, `DirectoryListingEntry::link_`, `ResetLink`).

  Every entry of the listing's stack holds a pointer to a chain of list nodes.
  An entry either shares its parent's chain or owns one more node in front of
  it.  Nodes live in an explicit store, so deleting a node twice, or keeping a
  pointer to a deleted one, would be an access outside the store.
 */
module LinkChain {
  import opened Sequences

  type Addr = nat

  datatype Pointer = Null | At(addr: Addr)

  /** Identifies a link in the file system. */
  datatype LinkId = LinkId(dev: int, ino: int)

  datatype LinkNode = LinkNode(id: LinkId, next: Pointer)

  /** The node store, the next address, and what each stack entry holds, bottom first. */
  datatype Links = Links(nodes: map<Addr, LinkNode>, next: Addr, held: seq<Pointer>)

  const NO_LINKS: Links := Links(map[], 0, [])

  function Parent(held: seq<Pointer>, i: nat): Pointer
    requires i <= |held|
  {
    if i == 0 then Null else held[i - 1]
  }

  predicate Live(nodes: map<Addr, LinkNode>, p: Pointer) {
    p.At? ==> p.addr in nodes
  }

  /** Nodes point to live, older nodes only. */
  ghost predicate Acyclic(nodes: map<Addr, LinkNode>) {
    forall a | a in nodes :: Live(nodes, nodes[a].next) && (nodes[a].next.At? ==> nodes[a].next.addr < a)
  }

  /** The identities on the chain from `p`, newest first. */
  ghost function Chain(nodes: map<Addr, LinkNode>, p: Pointer): seq<LinkId>
    requires Acyclic(nodes) && Live(nodes, p)
    decreases if p.At? then p.addr + 1 else 0
  {
    if p.Null? then [] else [nodes[p.addr].id] + Chain(nodes, nodes[p.addr].next)
  }

  /** Entry `i` owns the node it points to: it put that node in front of its parent's chain. */
  predicate Owns(l: Links, i: nat) {
    i < |l.held| && l.held[i].At? && l.held[i] != Parent(l.held, i)
  }

  /** Some entry owns node `a`. */
  ghost predicate Owned(l: Links, a: Addr) {
    exists i: nat :: Owns(l, i) && l.held[i].addr == a
  }

  /** What entry `i` holds: its parent's chain or one more node; the top may not have looked yet. */
  ghost predicate EntryOk(l: Links, i: nat)
    requires i < |l.held|
  {
    && Live(l.nodes, l.held[i])
    && (Owns(l, i) ==> l.nodes[l.held[i].addr].next == Parent(l.held, i))
    && (l.held[i].Null? && i + 1 < |l.held| ==> Parent(l.held, i).Null?)
  }

  ghost predicate Shape(l: Links) {
    && Acyclic(l.nodes)
    && (forall a | a in l.nodes :: a < l.next)
    && (forall i | 0 <= i < |l.held| :: EntryOk(l, i))
  }

  ghost predicate DistinctAt(l: Links, i: nat)
    requires Shape(l) && i < |l.held|
  {
    assert EntryOk(l, i);
    NoDuplicates(Chain(l.nodes, l.held[i]))
  }

  /** Every live node is owned, and no chain repeats a link. */
  ghost predicate Inv(l: Links) {
    && Shape(l)
    && (forall a | a in l.nodes :: Owned(l, a))
    && (forall i | 0 <= i < |l.held| :: DistinctAt(l, i))
  }

  // ----- Operations on the top entry

  /** `ResetLink`: deletes the node the top entry owns, and takes over the parent's chain. */
  function Reset(l: Links): Links
    requires l.held != []
  {
    var top := |l.held| - 1;
    Links(if Owns(l, top) then l.nodes - {l.held[top].addr} else l.nodes,
          l.next,
          l.held[top := Parent(l.held, top)])
  }

  /** Puts a new node in front of the top entry's chain. */
  function Follow(l: Links, id: LinkId): Links
    requires l.held != []
  {
    var top := |l.held| - 1;
    Links(l.nodes[l.next := LinkNode(id, l.held[top])], l.next + 1, l.held[top := At(l.next)])
  }

  function Push(l: Links): Links {
    l.(held := l.held + [Null])
  }

  /** The destructor of the top entry. */
  function Pop(l: Links): Links
    requires l.held != []
  {
    var l' := Reset(l);
    l'.(held := l'.held[..|l'.held| - 1])
  }

  // ----- What they keep

  /** A chain depends only on the nodes no newer than its first. */
  lemma {:induction false} ChainFrame(nodes: map<Addr, LinkNode>, nodes': map<Addr, LinkNode>, p: Pointer)
    requires Acyclic(nodes) && Acyclic(nodes') && Live(nodes, p)
    requires forall a | a in nodes && p.At? && a <= p.addr :: a in nodes' && nodes'[a] == nodes[a]
    ensures Live(nodes', p) && Chain(nodes', p) == Chain(nodes, p)
    decreases if p.At? then p.addr + 1 else 0
  {
    if p.At? {
      ChainFrame(nodes, nodes', nodes[p.addr].next);
    }
  }

  /** Entries further down hold older nodes. */
  lemma {:induction false} HeldOlder(l: Links, i: nat, j: nat)
    requires Shape(l) && i < j < |l.held| && l.held[i].At? && l.held[j].At?
    ensures l.held[i].addr <= l.held[j].addr
    ensures Owns(l, j) ==> l.held[i].addr < l.held[j].addr
    decreases j
  {
    assert EntryOk(l, j);
    if i + 1 < j {
      assert EntryOk(l, j - 1);
      if l.held[j - 1].Null? {
        NullBelow(l, i, j - 1);
      } else {
        HeldOlder(l, i, j - 1);
      }
    }
  }

  lemma {:induction false} NullBelow(l: Links, i: nat, j: nat)
    requires Shape(l) && i <= j && j + 1 < |l.held| && l.held[j].Null?
    ensures l.held[i].Null?
    decreases j
  {
    if i < j {
      assert EntryOk(l, j);
      NullBelow(l, i, j - 1);
    }
  }

  /** Nobody points to the node that the top entry owns. */
  lemma ResetAcyclic(l: Links)
    requires Inv(l) && l.held != []
    ensures Acyclic(Reset(l).nodes)
  {
    hide DistinctAt;
    var top := |l.held| - 1;
    if Owns(l, top) {
      forall a | a in Reset(l).nodes ensures l.nodes[a].next != l.held[top] {
        assert Owned(l, a);
        var i: nat :| Owns(l, i) && l.held[i].addr == a;
        assert EntryOk(l, i);
        if i > 0 && Parent(l.held, i).At? { HeldOlder(l, i - 1, top); }
      }
    }
  }

  /** The chains below the top survive the top entry's reset. */
  lemma ResetChains(l: Links, i: nat)
    requires Inv(l) && i + 1 < |l.held|
    ensures Acyclic(Reset(l).nodes) && Live(l.nodes, l.held[i]) && Live(Reset(l).nodes, l.held[i])
    ensures Chain(Reset(l).nodes, l.held[i]) == Chain(l.nodes, l.held[i])
  {
    hide DistinctAt, Owned, Chain;
    var top := |l.held| - 1;
    ResetAcyclic(l);
    assert EntryOk(l, i);
    if Owns(l, top) && l.held[i].At? { HeldOlder(l, i, top); }
    ChainFrame(l.nodes, Reset(l).nodes, l.held[i]);
  }

  lemma ResetShape(l: Links)
    requires Inv(l) && l.held != []
    ensures Shape(Reset(l))
  {
    hide DistinctAt, Owned, Chain;
    var l', top := Reset(l), |l.held| - 1;
    ResetAcyclic(l);
    forall i | 0 <= i < |l'.held| ensures EntryOk(l', i) {
      assert EntryOk(l, i);
      if i < top {
        ResetChains(l, i);
      } else if i > 0 {
        ResetChains(l, i - 1);
      }
    }
  }

  /** Resetting deletes only a live node, and leaves no pointer to it. */
  lemma ResetKeepsInv(l: Links)
    requires Inv(l) && l.held != []
    ensures Inv(Reset(l))
    ensures Owns(l, |l.held| - 1) ==> l.held[|l.held| - 1].addr in l.nodes
  {
    hide Chain;
    var l', top := Reset(l), |l.held| - 1;
    ResetShape(l);
    assert EntryOk(l, top);
    forall i | 0 <= i < |l'.held| ensures DistinctAt(l', i) {
      ghost var j := if i < top then i else i - 1;
      if j >= 0 {
        ResetChains(l, j);
        assert DistinctAt(l, j);
      } else {
        NullChain(l'.nodes);
      }
    }
    forall a | a in l'.nodes ensures Owned(l', a) {
      assert Owned(l, a);
      var i: nat :| Owns(l, i) && l.held[i].addr == a;
      assert Owns(l', i) && l'.held[i].addr == a;
    }
  }

  lemma NullChain(nodes: map<Addr, LinkNode>)
    requires Acyclic(nodes)
    ensures Chain(nodes, Null) == []
  {
  }

  /** The links followed on the way to entry `i`: its parent's chain. */
  ghost function Inherited(l: Links, i: nat): seq<LinkId>
    requires Shape(l) && i <= |l.held|
  {
    assert i > 0 ==> EntryOk(l, i - 1);
    Chain(l.nodes, Parent(l.held, i))
  }

  /** The entries up to `n` still see the chains they saw. */
  ghost predicate SameChains(l: Links, l': Links, n: nat)
    requires Shape(l) && Shape(l') && n <= |l.held| && n <= |l'.held|
  {
    forall i: nat | i <= n :: Inherited(l', i) == Inherited(l, i)
  }

  lemma ResetKeepsChains(l: Links)
    requires Inv(l) && l.held != []
    ensures Shape(Reset(l)) && SameChains(l, Reset(l), |l.held| - 1)
    ensures Inherited(Reset(l), |l.held|) == Inherited(l, |l.held| - 1)
  {
    hide Chain;
    ResetShape(l);
    var top := |l.held| - 1;
    NullChain(l.nodes);
    NullChain(Reset(l).nodes);
    forall i: nat | i <= top ensures Inherited(Reset(l), i) == Inherited(l, i) {
      if i > 0 { ResetChains(l, i - 1); }
    }
    assert Parent(Reset(l).held, |l.held|) == Parent(Reset(l).held, top);
  }

  lemma FollowShape(l: Links, id: LinkId)
    requires Shape(l) && l.held != [] && l.held[|l.held| - 1] == Parent(l.held, |l.held| - 1)
    ensures Shape(Follow(l, id))
  {
    hide Chain;
    var l', top := Follow(l, id), |l.held| - 1;
    assert EntryOk(l, top);
    forall i | 0 <= i < |l'.held| ensures EntryOk(l', i) {
      assert EntryOk(l, i);
    }
  }

  lemma FollowChains(l: Links, id: LinkId)
    requires Shape(l) && l.held != [] && l.held[|l.held| - 1] == Parent(l.held, |l.held| - 1)
    ensures Shape(Follow(l, id)) && SameChains(l, Follow(l, id), |l.held| - 1)
    ensures Inherited(Follow(l, id), |l.held|) == [id] + Inherited(l, |l.held| - 1)
  {
    FollowShape(l, id);
    var l', top := Follow(l, id), |l.held| - 1;
    forall i: nat | i <= top ensures Inherited(l', i) == Inherited(l, i) {
      hide Chain;
      assert i > 0 ==> EntryOk(l, i - 1);
      ChainFrame(l.nodes, l'.nodes, Parent(l.held, i));
    }
    assert Parent(l'.held, top) == l.held[top];
  }

  /** A new node is followed only when its link is not on the chain yet. */
  lemma FollowKeepsInv(l: Links, id: LinkId)
    requires Inv(l) && l.held != [] && l.held[|l.held| - 1] == Parent(l.held, |l.held| - 1)
    requires id !in Inherited(l, |l.held| - 1)
    ensures Inv(Follow(l, id)) && SameChains(l, Follow(l, id), |l.held| - 1)
    ensures Inherited(Follow(l, id), |l.held|) == [id] + Inherited(l, |l.held| - 1)
  {
    hide Chain;
    var l', top := Follow(l, id), |l.held| - 1;
    FollowChains(l, id);
    FollowOwned(l, id);
    forall i | 0 <= i < |l'.held| ensures DistinctAt(l', i) {
      assert DistinctAt(l, i);
      assert EntryOk(l, i) && EntryOk(l', i);
      assert Inherited(l', i + 1) == Chain(l'.nodes, l'.held[i]);
      assert Inherited(l, i + 1) == Chain(l.nodes, l.held[i]);
      assert i == top ==> Inherited(l, top) == Chain(l.nodes, l.held[top]);
    }
  }

  lemma FollowOwned(l: Links, id: LinkId)
    requires Inv(l) && l.held != [] && l.held[|l.held| - 1] == Parent(l.held, |l.held| - 1)
    ensures forall a | a in Follow(l, id).nodes :: Owned(Follow(l, id), a)
  {
    hide DistinctAt, Chain;
    var l', top := Follow(l, id), |l.held| - 1;
    forall a | a in l'.nodes ensures Owned(l', a) {
      if a == l.next {
        assert EntryOk(l, top);
        assert Owns(l', top);
      } else {
        assert Owned(l, a);
        var i: nat :| Owns(l, i) && l.held[i].addr == a;
        assert Owns(l', i) && l'.held[i].addr == a;
      }
    }
  }

  /** The entry that lies under the new one has looked at its parent's chain. */
  lemma PushKeepsInv(l: Links)
    requires Inv(l)
    requires l.held != [] && l.held[|l.held| - 1].Null? ==> Parent(l.held, |l.held| - 1).Null?
    ensures Inv(Push(l)) && SameChains(l, Push(l), |l.held|)
  {
    hide Chain;
    var l' := Push(l);
    forall i | 0 <= i < |l'.held| ensures EntryOk(l', i) {
      if i < |l.held| { assert EntryOk(l, i); }
    }
    forall i | 0 <= i < |l'.held| ensures DistinctAt(l', i) {
      if i < |l.held| { assert DistinctAt(l, i); } else { NullChain(l'.nodes); }
    }
    forall a | a in l'.nodes ensures Owned(l', a) {
      assert Owned(l, a);
      var i: nat :| Owns(l, i) && l.held[i].addr == a;
      assert Owns(l', i) && l'.held[i].addr == a;
    }
  }

  lemma PopKeepsInv(l: Links)
    requires Inv(l) && l.held != []
    ensures Inv(Pop(l)) && SameChains(l, Pop(l), |l.held| - 1)
  {
    hide Chain;
    ResetKeepsInv(l);
    ResetKeepsChains(l);
    DropTop(Reset(l));
  }

  lemma DropTop(l: Links)
    requires Inv(l) && l.held != [] && !Owns(l, |l.held| - 1)
    ensures var l' := l.(held := l.held[..|l.held| - 1]); Inv(l') && SameChains(l, l', |l.held| - 1)
  {
    hide Chain;
    var l' := l.(held := l.held[..|l.held| - 1]);
    forall i | 0 <= i < |l'.held| ensures EntryOk(l', i) {
      assert EntryOk(l, i);
    }
    forall i | 0 <= i < |l'.held| ensures DistinctAt(l', i) {
      assert DistinctAt(l, i);
    }
    forall a | a in l'.nodes ensures Owned(l', a) {
      assert Owned(l, a);
      var i: nat :| Owns(l, i) && l.held[i].addr == a;
      assert Owns(l', i) && l'.held[i].addr == a;
    }
  }

  /** When the stack is empty every node has been deleted. */
  lemma AllFreed(l: Links)
    requires Inv(l) && l.held == []
    ensures l.nodes == map[]
  {
    assert forall a | a in l.nodes :: Owned(l, a);
  }
}
