/**
  A listening descriptor shared by many ports (`DescriptorInfoMultipleMixin`):
  heap-allocated port entries, a map that owns them and the ring of ready
  entries.  Every method refines the operation of the same name in `PortTable`.
 */
module ListeningDescriptor {
  import opened CircularList
  import PortTable
  import opened Sequences

  type Port = PortTable.Port

  class PortEntry {
    const dartPort: Port
    var isReading: bool
    var tokenCount: int

    constructor (port: Port, reading: bool)
      ensures dartPort == port && isReading == reading && tokenCount == PortTable.TOKEN_COUNT
    {
      dartPort, isReading, tokenCount := port, reading, PortTable.TOKEN_COUNT;
    }

    predicate IsReady()
      reads this
    {
      tokenCount > 0 && isReading
    }

    function Account(): PortTable.Account
      reads this
    {
      PortTable.Account(isReading, tokenCount)
    }
  }

  ghost function Ports(entries: seq<PortEntry>): (s: seq<Port>)
    ensures |s| == |entries|
  {
    seq(|entries|, i requires 0 <= i < |entries| => entries[i].dartPort)
  }

  /** Entries are told apart by their ports. */
  lemma {:induction false} PortsRemoveFirst(entries: seq<PortEntry>, e: PortEntry)
    requires forall i | 0 <= i < |entries| :: entries[i].dartPort == e.dartPort ==> entries[i] == e
    ensures Ports(RemoveFirst(entries, e)) == RemoveFirst(Ports(entries), e.dartPort)
    decreases |entries|
  {
    if entries != [] {
      assert Ports(entries)[1..] == Ports(entries[1..]);
      PortsRemoveFirst(entries[1..], e);
    }
  }

  lemma PortsRotate(entries: seq<PortEntry>)
    ensures Ports(RotateLeft(entries)) == RotateLeft(Ports(entries))
  {
  }

  class DescriptorInfoMultiple {
    const disableTokens: bool
    const activeReaders: CircularLinkedList<PortEntry>
    var tokensMap: map<Port, PortEntry>
    /** The keys of the map, in an order in which it may be iterated. */
    var keys: seq<Port>

    ghost function Accounts(): map<Port, PortTable.Account>
      reads this, tokensMap.Values
    {
      map p | p in tokensMap :: tokensMap[p].Account()
    }

    ghost function ReadyPorts(): seq<Port>
      reads activeReaders
    {
      Ports(activeReaders.Contents())
    }

    ghost function View(): PortTable.Table
      reads this, activeReaders, tokensMap.Values
    {
      PortTable.Table(Accounts(), ReadyPorts(), disableTokens)
    }

    /** The objects that make up the descriptor. */
    ghost function Parts(): set<object>
      reads this, activeReaders
    {
      {this, activeReaders} + (set i | 0 <= i < |activeReaders.ring| :: activeReaders.ring[i] as object) + tokensMap.Values
    }

    /** `order` lists the ports of the map once each: an iteration over it. */
    ghost predicate Iterates(order: seq<Port>)
      reads this
    {
      NoDuplicates(order) && forall p :: PortTable.Listed(order, p) <==> p in tokensMap
    }

    /** Every entry belongs to the map under its own port, and only those are on the ring. */
    ghost predicate Owned()
      reads this, activeReaders, activeReaders.ring
    {
      && activeReaders.Valid()
      && (forall p | p in tokensMap :: tokensMap[p].dartPort == p)
      && (forall i | 0 <= i < |activeReaders.ring| :: Mine(activeReaders.ring[i].item))
    }

    ghost predicate Mine(e: PortEntry)
      reads this
    {
      e.dartPort in tokensMap && tokensMap[e.dartPort] == e
    }

    ghost predicate Valid()
      reads this, activeReaders, activeReaders.ring, tokensMap.Values
    {
      Owned() && Iterates(keys) && PortTable.Inv(View())
    }

    constructor (disableTokens: bool)
      ensures Valid() && View() == PortTable.NO_PORTS.(disableTokens := disableTokens)
      ensures fresh(Parts()) && this.disableTokens == disableTokens
    {
      this.disableTokens := disableTokens;
      activeReaders := new CircularLinkedList();
      tokensMap, keys := map[], [];
    }

    /** Puts an entry at the end of the ring. */
    method Enlist(e: PortEntry)
      requires Owned() && Mine(e)
      modifies activeReaders, activeReaders.ring
      ensures Owned() && ReadyPorts() == old(ReadyPorts()) + [e.dartPort]
      ensures Accounts() == old(Accounts())
      ensures forall i | 0 <= i < |activeReaders.ring| :: activeReaders.ring[i] in old(activeReaders.ring) || fresh(activeReaders.ring[i])
    {
      ghost var before := activeReaders.Contents();
      var _ := activeReaders.Add(e);
      assert activeReaders.Contents() == before + [e];
      assert forall i | 0 <= i < |activeReaders.ring| :: activeReaders.ring[i].item == activeReaders.Contents()[i];
      assert Ports(before + [e]) == Ports(before) + [e.dartPort];
    }

    /** Takes an entry off the ring. */
    method Delist(e: PortEntry)
      requires Owned() && Mine(e)
      modifies activeReaders, activeReaders.ring
      ensures Owned() && ReadyPorts() == RemoveFirst(old(ReadyPorts()), e.dartPort)
      ensures Accounts() == old(Accounts())
      ensures forall i | 0 <= i < |activeReaders.ring| :: activeReaders.ring[i] in old(activeReaders.ring)
    {
      PortsRemoveFirst(activeReaders.Contents(), e);
      activeReaders.Remove(e);
    }

    /** Writes an entry's fields; no other account changes. */
    method Store(e: PortEntry, reading: bool, tokens: int)
      requires Owned() && Mine(e)
      modifies e
      ensures Owned() && Accounts() == old(Accounts())[e.dartPort := PortTable.Account(reading, tokens)]
      ensures e.Account() == PortTable.Account(reading, tokens)
    {
      e.isReading := reading;
      e.tokenCount := tokens;
      assert forall p | p in tokensMap && p != e.dartPort :: tokensMap[p].dartPort == p && tokensMap[p] != e;
    }

    /** Allocates the entry of a port that is not in the map. */
    method NewEntry(port: Port, reading: bool) returns (e: PortEntry)
      requires Owned() && port !in tokensMap
      modifies this
      ensures Owned() && Mine(e) && fresh(e) && e.dartPort == port && tokensMap == old(tokensMap)[port := e]
      ensures keys == old(keys) + [port]
      ensures Accounts() == old(Accounts())[port := e.Account()]
      ensures e.Account() == PortTable.Account(reading, PortTable.TOKEN_COUNT)
    {
      e := new PortEntry(port, reading);
      tokensMap, keys := tokensMap[port := e], keys + [port];
    }

    lemma MineAt(port: Port)
      requires Owned() && port in tokensMap
      ensures Mine(tokensMap[port]) && tokensMap[port].dartPort == port
      ensures port in Accounts() && Accounts()[port] == tokensMap[port].Account()
    {
    }

    lemma KeysAreAccounts()
      requires Valid()
      ensures Iterates(keys) && PortTable.PortSet(keys) == View().accounts.Keys
    {
      assert forall i | 0 <= i < |keys| :: PortTable.Listed(keys, keys[i]);
      forall p: Port | p in Accounts() ensures exists i :: 0 <= i < |keys| && keys[i] == p {
        assert PortTable.Listed(keys, p);
      }
    }

    lemma TokensOf(port: Port)
      requires port in View().accounts
      ensures port in tokensMap && View().accounts[port].tokens == tokensMap[port].tokenCount
    {
    }

    /** Moves an entry on or off the ring after its account changed from `was`. */
    method Relist(e: PortEntry, ghost was: PortTable.Table, wasReady: bool)
      requires Owned() && Mine(e)
      requires ReadyPorts() == was.ready && wasReady == PortTable.IsReady(was.accounts, e.dartPort)
      modifies activeReaders, activeReaders.ring
      ensures Owned() && ReadyPorts() == PortTable.Relist(was, e.dartPort, e.Account())
      ensures Accounts() == old(Accounts()) && e.Account() == old(e.Account())
      ensures forall i | 0 <= i < |activeReaders.ring| :: activeReaders.ring[i] in old(activeReaders.ring) || fresh(activeReaders.ring[i])
    {
      var isReady := e.IsReady();
      if wasReady && !isReady {
        Delist(e);
      } else if !wasReady && isReady {
        Enlist(e);
      }
    }

    /** Adds a port, or changes whether it is reading. */
    method SetPortAndMask(port: Port, reading: bool)
      requires Valid()
      modifies this, activeReaders, activeReaders.ring, tokensMap.Values
      ensures Valid() && View() == PortTable.SetPortAndMask(old(View()), port, reading)
      ensures fresh(Parts() - old(Parts()))
    {
      hide PortTable.Inv, PortTable.Relist, Owned, Accounts, ReadyPorts, Mine;
      ghost var before := View();
      PortTable.OpKeepsInv(before, PortTable.SetMask(port, reading));
      if port !in tokensMap {
        NotMine(port);
        KeysAdded(keys, tokensMap, port);
        var pentry := NewEntry(port, reading);
        Relist(pentry, before, false);
      } else {
        var pentry := tokensMap[port];
        MineAt(port);
        var wasReady := pentry.IsReady();
        Store(pentry, reading, pentry.tokenCount);
        Relist(pentry, before, wasReady);
      }
    }

    static lemma KeysAdded(keys: seq<Port>, m: map<Port, PortEntry>, port: Port)
      requires NoDuplicates(keys) && (forall p :: PortTable.Listed(keys, p) <==> p in m) && port !in m
      ensures NoDuplicates(keys + [port]) && forall p :: PortTable.Listed(keys + [port], p) <==> p == port || p in m
    {
      PortTable.ListedSplit(port, keys);
      assert !PortTable.Listed(keys, port);
    }

    lemma NotMine(port: Port)
      requires port !in tokensMap
      ensures port !in Accounts()
    {
    }

    /** Forgets a port; closing a socket that was never listened on does nothing. */
    method RemovePort(port: Port)
      requires Valid()
      modifies this, activeReaders, activeReaders.ring
      ensures Valid() && View() == PortTable.RemovePort(old(View()), port)
      ensures Parts() <= old(Parts())
    {
      hide PortTable.Inv, Owned, Accounts, ReadyPorts, Mine;
      ghost var before := View();
      PortTable.OpKeepsInv(before, PortTable.Remove(port));
      if port in tokensMap {
        var pentry := tokensMap[port];
        MineAt(port);
        if pentry.IsReady() {
          Delist(pentry);
        }
        PortTable.RemovedNotListed(before, port);
        PortTable.RemoveFirstUnique(keys, port);
        Forget(port);
      } else {
        NotMine(port);
      }
    }

    /** Drops an unlisted entry from the map. */
    method Forget(port: Port)
      requires Owned() && port !in ReadyPorts()
      modifies this
      ensures Owned() && Accounts() == old(Accounts()) - {port} && tokensMap == old(tokensMap) - {port}
      ensures keys == RemoveFirst(old(keys), port)
    {
      assert forall i | 0 <= i < |activeReaders.ring| :: activeReaders.ring[i].item.dartPort == ReadyPorts()[i];
      tokensMap, keys := tokensMap - {port}, RemoveFirst(keys, port);
    }

    /** The entry at the head of the ring. */
    lemma HeadEntry()
      requires Owned() && activeReaders.head != null
      ensures ReadyPorts() != [] && Mine(activeReaders.head.item) && activeReaders.head.item.dartPort == ReadyPorts()[0]
    {
      assert activeReaders.ring[0] == activeReaders.head;
    }

    lemma NoHead()
      requires Owned()
      ensures activeReaders.head == null <==> ReadyPorts() == []
    {
    }

    method DropHead()
      requires Owned() && ReadyPorts() != []
      modifies activeReaders, activeReaders.ring
      ensures Owned() && ReadyPorts() == old(ReadyPorts())[1..] && Accounts() == old(Accounts())
      ensures forall i | 0 <= i < |activeReaders.ring| :: activeReaders.ring[i] in old(activeReaders.ring)
    {
      var t := activeReaders.RemoveHead();
      assert Ports(old(activeReaders.Contents())[1..]) == Ports(old(activeReaders.Contents()))[1..];
    }

    method RotateReady()
      requires Owned()
      modifies activeReaders
      ensures Owned() && ReadyPorts() == RotateLeft(old(ReadyPorts())) && Accounts() == old(Accounts())
      ensures forall i | 0 <= i < |activeReaders.ring| :: activeReaders.ring[i] in old(activeReaders.ring)
    {
      PortsRotate(activeReaders.Contents());
      activeReaders.Rotate();
    }

    /** Serves the port at the head of the ring: charges it, then rotates it to the end or drops it. */
    method NextNotifyDartPort() returns (port: Port)
      requires Valid()
      modifies activeReaders, activeReaders.ring, tokensMap.Values
      ensures Valid() && port == PortTable.NextPort(old(View()))
      ensures View() == PortTable.After(old(View()), PortTable.Next)
      ensures Parts() <= old(Parts())
    {
      hide PortTable.Inv, Owned, Accounts, ReadyPorts, Mine;
      ghost var before := View();
      PortTable.OpKeepsInv(before, PortTable.Next);
      NoHead();
      if activeReaders.head == null {
        return 0;
      }
      var pentry := activeReaders.head.item;
      HeadEntry();
      MineIs(pentry);
      if !disableTokens {
        Store(pentry, pentry.isReading, pentry.tokenCount - 1);
      }
      if pentry.tokenCount <= 0 {
        DropHead();
      } else {
        RotateReady();
      }
      port := pentry.dartPort;
      assert View().accounts == PortTable.After(before, PortTable.Next).accounts;
    }

    lemma MineIs(e: PortEntry)
      requires Mine(e)
      ensures e in tokensMap.Values && e.dartPort in Accounts() && Accounts()[e.dartPort] == e.Account()
    {
      assert tokensMap[e.dartPort] == e;
    }

    /** Gives a port tokens back, no more than it was charged. */
    method ReturnTokens(port: Port, count: nat)
      requires Valid() && port in tokensMap
      requires tokensMap[port].tokenCount + (if disableTokens then 0 else count) <= PortTable.TOKEN_COUNT
      modifies activeReaders, activeReaders.ring, tokensMap.Values
      ensures Valid() && View() == PortTable.ReturnTokens(old(View()), port, count)
      ensures tokensMap[port].tokenCount <= PortTable.TOKEN_COUNT && fresh(Parts() - old(Parts()))
    {
      hide PortTable.Inv, PortTable.Relist, Owned, Accounts, ReadyPorts, Mine;
      ghost var before := View();
      var pentry := tokensMap[port];
      MineAt(port);
      PortTable.OpKeepsInv(before, PortTable.Return(port, count));
      var wasReady := pentry.IsReady();
      if !disableTokens {
        Store(pentry, pentry.isReading, pentry.tokenCount + count);
      }
      assert pentry.Account().tokens <= PortTable.TOKEN_COUNT;
      Relist(pentry, before, wasReady);
      assert View().accounts == before.accounts[port := pentry.Account()];
    }

    /** Whether the descriptor wants read events. */
    predicate Reading()
      requires Valid()
      reads this, activeReaders, activeReaders.ring, tokensMap.Values
      ensures Reading() <==> View().ready != []
      ensures Reading() <==> exists p :: PortTable.IsReady(View().accounts, p)
    {
      assert View().ready != [] ==> PortTable.Listed(View().ready, View().ready[0]);
      activeReaders.head != null
    }

    /** Charges one port, and takes it off the ring when it runs dry. */
    method NotifyOne(port: Port, ghost before: PortTable.Table)
      requires Owned() && port in tokensMap && NoDuplicates(before.ready)
      requires before.disableTokens == disableTokens && ReadyPorts() == PortTable.Select(before.ready, Accounts())
      modifies activeReaders, activeReaders.ring, tokensMap.Values
      ensures Owned() && ReadyPorts() == PortTable.Select(before.ready, Accounts())
      ensures port in old(Accounts()) && Accounts() == old(Accounts()[port := PortTable.Charge(before, Accounts()[port])])
      ensures forall i | 0 <= i < |activeReaders.ring| :: activeReaders.ring[i] in old(activeReaders.ring)
    {
      hide Owned, Accounts, ReadyPorts, Mine, PortTable.Select, NoDuplicates;
      ghost var accounts := Accounts();
      var pentry := tokensMap[port];
      MineAt(port);
      var wasReady := pentry.IsReady();
      if !disableTokens {
        Store(pentry, pentry.isReading, pentry.tokenCount - 1);
      }
      assert Accounts() == accounts[port := pentry.Account()];
      PortTable.SelectUpdate(before.ready, accounts, port, pentry.Account());
      if wasReady && pentry.tokenCount <= 0 {
        Delist(pentry);
      }
    }

    /** The accounts when the ports of `done` have been charged. */
    ghost function ChargedSoFar(t: PortTable.Table, done: seq<Port>): map<Port, PortTable.Account> {
      map p | p in t.accounts :: if PortTable.Listed(done, p) then PortTable.Charge(t, t.accounts[p]) else t.accounts[p]
    }

    lemma ChargedStep(t: PortTable.Table, order: seq<Port>, i: nat)
      requires i < |order| && NoDuplicates(order) && order[i] in t.accounts
      ensures ChargedSoFar(t, order[..i])[order[i]] == t.accounts[order[i]]
      ensures ChargedSoFar(t, order[..i + 1]) ==
              ChargedSoFar(t, order[..i])[order[i] := PortTable.Charge(t, t.accounts[order[i]])]
    {
      assert order[..i + 1] == order[..i] + [order[i]];
      PortTable.ListedSplit(order[i], order[..i]);
    }

    lemma OrderFacts(order: seq<Port>)
      requires Valid() && Iterates(order)
      ensures NoDuplicates(ReadyPorts()) && NoDuplicates(order)
      ensures forall i | 0 <= i < |order| :: order[i] in tokensMap && order[i] in Accounts()
    {
      assert forall i | 0 <= i < |order| :: PortTable.Listed(order, order[i]);
    }

    lemma NotifyFacts(order: seq<Port>)
      requires Valid() && Iterates(order)
      ensures ChargedSoFar(View(), order[..0]) == Accounts()
      ensures ChargedSoFar(View(), order[..|order|]) == PortTable.ChargeAll(View())
      ensures PortTable.Inv(PortTable.NotifyAllPorts(View()))
      ensures ReadyPorts() == PortTable.Select(ReadyPorts(), Accounts())
    {
      assert order[..|order|] == order;
      AllCharged(order);
      hide Owned, ReadyPorts, PortTable.ChargeAll, ChargedSoFar;
      PortTable.OpKeepsInv(View(), PortTable.NotifyAll);
      PortTable.ReadyAreReady(View());
      PortTable.SelectAll(ReadyPorts(), Accounts());
    }

    lemma AllCharged(order: seq<Port>)
      requires Iterates(order)
      ensures ChargedSoFar(View(), []) == Accounts()
      ensures ChargedSoFar(View(), order) == PortTable.ChargeAll(View())
    {
    }

    /**
      Broadcasts an event to all ports, in the map's iteration order: posts to
      each port, charges it, and takes it off the ring when it runs dry.
     */
    method NotifyAllDartPorts(order: seq<Port>) returns (posted: seq<Port>)
      requires Valid() && Iterates(order)
      modifies activeReaders, activeReaders.ring, tokensMap.Values
      ensures Valid() && View() == PortTable.NotifyAllPorts(old(View()))
      ensures posted == order && Parts() <= old(Parts())
    {
      hide PortTable.Inv, Owned, Accounts, ReadyPorts, PortTable.Select, ChargedSoFar, NoDuplicates, Iterates;
      OrderFacts(order);
      NotifyFacts(order);
      ghost var before := View();
      posted := [];
      var i := 0;
      while i < |order|
        invariant 0 <= i <= |order| && posted == order[..i]
        invariant Owned() && tokensMap == old(tokensMap)
        invariant Accounts() == ChargedSoFar(before, order[..i])
        invariant ReadyPorts() == PortTable.Select(before.ready, Accounts())
        invariant forall i | 0 <= i < |activeReaders.ring| :: activeReaders.ring[i] in old(activeReaders.ring)
      {
        ChargedStep(before, order, i);
        posted := posted + [order[i]];
        NotifyOne(order[i], before);
        i := i + 1;
      }
    }

    /**
      Forgets all ports.  `freed` is what is deleted, in order: first the entries
      of the map as they are visited, then whatever is left on the ring.  Nothing
      is left, so each entry is deleted exactly once.
     */
    method RemoveAllPorts(order: seq<Port>) returns (freed: seq<PortEntry>)
      requires Valid() && Iterates(order)
      modifies this, activeReaders, activeReaders.ring
      ensures Valid() && View() == PortTable.After(old(View()), PortTable.RemoveAll)
      ensures |freed| == |order| && NoDuplicates(freed)
      ensures forall i | 0 <= i < |order| :: order[i] in old(tokensMap) && freed[i] == old(tokensMap)[order[i]]
      ensures Parts() <= old(Parts())
    {
      hide PortTable.Inv, Owned, Accounts, ReadyPorts, NoDuplicates, Iterates, PortTable.Listed, Mine;
      OrderFacts(order);
      UnlistedNone();
      freed := [];
      var i := 0;
      while i < |order|
        invariant 0 <= i <= |order| && Owned() && tokensMap == old(tokensMap)
        invariant Iterates(order) && Unlisted(order[..i])
        invariant |freed| == i && forall j | 0 <= j < i :: freed[j] == tokensMap[order[j]]
        invariant forall k | 0 <= k < |activeReaders.ring| :: activeReaders.ring[k] in old(activeReaders.ring)
      {
        var pentry := tokensMap[order[i]];
        MineAt(order[i]);
        ghost var ready := ReadyPorts();
        Delist(pentry);
        UnlistedStep(ready, order, i);
        freed := freed + [pentry];
        i := i + 1;
      }
      assert order[..i] == order;
      NothingLeft(order);
      FreedOnce(freed, order);
      var left := activeReaders.RemoveAll();
      assert freed + left == freed;
      freed := freed + left;
      tokensMap, keys := map[], [];
      NoPortsLeft();
    }

    /** The ring has no duplicates and no entry of these ports. */
    ghost predicate Unlisted(done: seq<Port>)
      reads activeReaders
    {
      NoDuplicates(ReadyPorts()) && forall p | PortTable.Listed(ReadyPorts(), p) :: !PortTable.Listed(done, p)
    }

    lemma UnlistedNone()
      requires NoDuplicates(ReadyPorts())
      ensures Unlisted([])
    {
    }

    lemma UnlistedStep(ready: seq<Port>, order: seq<Port>, i: nat)
      requires i < |order| && NoDuplicates(ready) && ReadyPorts() == RemoveFirst(ready, order[i])
      requires forall p | PortTable.Listed(ready, p) :: !PortTable.Listed(order[..i], p)
      ensures Unlisted(order[..i + 1])
    {
      PortTable.RemoveFirstUnique(ready, order[i]);
      PortTable.ListedSplit(order[i], order[..i]);
      assert order[..i + 1] == order[..i] + [order[i]];
    }

    lemma NothingLeft(order: seq<Port>)
      requires Owned() && Iterates(order) && Unlisted(order)
      ensures activeReaders.Valid() && activeReaders.Contents() == []
    {
      assert activeReaders.ring != [] ==> Mine(activeReaders.ring[0].item);
      assert activeReaders.ring != [] ==> PortTable.Listed(ReadyPorts(), ReadyPorts()[0]);
    }

    lemma FreedOnce(freed: seq<PortEntry>, order: seq<Port>)
      requires Owned() && Iterates(order) && |freed| == |order|
      requires forall i | 0 <= i < |order| :: order[i] in tokensMap && freed[i] == tokensMap[order[i]]
      ensures NoDuplicates(freed)
    {
      assert forall i | 0 <= i < |order| :: freed[i].dartPort == order[i];
    }

    lemma NoPortsLeft()
      requires activeReaders.Valid() && activeReaders.Contents() == [] && tokensMap == map[] && keys == []
      ensures Valid() && View() == PortTable.Table(map[], [], disableTokens)
    {
    }
  }
}
